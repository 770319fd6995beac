/** src/utils/json_object.h: the printers, which append to an output, against the text Json defines. */
module JsonWriter {
  import opened Json
  import opened JsonRoundTrip

  /** The string behind a `back_inserter`. */
  class Output {
    var text: string

    constructor ()
      ensures text == ""
    {
      text := "";
    }

    method Push(c: char)
      modifies this
      ensures text == old(text) + [c]
    {
      text := text + [c];
    }

    method Copy(s: string)
      modifies this
      ensures text == old(text) + s
    {
      for i := 0 to |s|
        invariant text == old(text) + s[..i]
      {
        Push(s[i]);
      }
      assert s[..|s|] == s;
    }
  }

  /** `%04x` of a control character. */
  lemma ControlQuad(n: nat)
    requires n < 0x80
    ensures "\\u" + HexQuad(n) == "\\u00" + [HexDigit(n / 16), HexDigit(n % 16)]
  {
    assert n / 16 % 16 == n / 16;
  }

  /** One round of `serialize_str`. */
  method SerializeChar(c: char, oi: Output)
    modifies oi
    ensures oi.text == old(oi.text) + Escape(c)
  {
    hide HexQuad;
    if c == '\"' {
      oi.Copy("\\\"");
    } else if c == '\\' {
      oi.Copy("\\\\");
    } else if c == '/' {
      oi.Copy("\\/");
    } else if c as int == 0x08 {
      oi.Copy("\\b");
    } else if c as int == 0x0c {
      oi.Copy("\\f");
    } else if c == '\n' {
      oi.Copy("\\n");
    } else if c == '\r' {
      oi.Copy("\\r");
    } else if c == '\t' {
      oi.Copy("\\t");
    } else if c as int < 0x20 || c as int == 0x7f {
      ControlQuad(c as int);
      oi.Copy("\\u" + HexQuad(c as int));
    } else {
      oi.Push(c);
    }
  }

  method SerializeStr(s: string, oi: Output)
    modifies oi
    ensures oi.text == old(oi.text) + Quoted(s)
  {
    hide *;
    ghost var start := oi.text;
    oi.Push('\"');
    ghost var whole := start + "\"" + Escaped(s);
    assert s[0..] == s;
    for i := 0 to |s|
      invariant oi.text + Escaped(s[i..]) == whole
    {
      EscapedFrom(s, i);
      Join(oi.text, Escape(s[i]), Escaped(s[i + 1..]));
      SerializeChar(s[i], oi);
    }
    EscapedFrom(s, |s|);
    assert oi.text + "" == oi.text;
    oi.Push('\"');
    QuotedIs(start, s);
  }

  lemma Join(a: string, b: string, c: string)
    ensures (a + b) + c == a + (b + c)
  {}

  lemma QuotedIs(start: string, s: string)
    ensures (start + "\"" + Escaped(s)) + "\"" == start + Quoted(s)
  {
    hide Escaped;
  }

  lemma EscapedFrom(s: string, i: nat)
    requires i <= |s|
    ensures i < |s| ==> Escaped(s[i..]) == Escape(s[i]) + Escaped(s[i + 1..])
    ensures i == |s| ==> Escaped(s[i..]) == ""
  {
    hide Escape;
  }

  method IndentBy(oi: Output, indent: nat)
    modifies oi
    ensures oi.text == old(oi.text) + Pretty.Indent(indent)
  {
    for i := 0 to indent * 2
      invariant oi.text == old(oi.text) + Spaces(i)
    {
      oi.Push(' ');
    }
  }

  /** What is still to be printed before item i. */
  ghost function ItemsFrom(items: seq<Json>, i: nat, style: Style, indent: nat): string
    requires i <= |items|
  {
    if i == |items| then ""
    else (if i == 0 then "" else "," + style.Break()) + PrintItems(items[i..], style, indent)
  }

  lemma NextItem(items: seq<Json>, i: nat, style: Style, indent: nat)
    requires i < |items|
    ensures ItemsFrom(items, i, style, indent)
         == (if i == 0 then "" else "," + style.Break()) + (style.Indent(indent) + Print(items[i], style, indent))
            + ItemsFrom(items, i + 1, style, indent)
  {
    hide Print, Style.Break, Style.Indent;
    assert items[i..][0] == items[i] && items[i..][1..] == items[i + 1..];
  }

  lemma AllItems(items: seq<Json>, style: Style, indent: nat)
    ensures ItemsFrom(items, 0, style, indent) == PrintItems(items, style, indent)
    ensures ItemsFrom(items, |items|, style, indent) == ""
  {
    assert items[0..] == items;
  }

  ghost function MembersFrom(m: seq<Member>, i: nat, style: Style, indent: nat): string
    requires i <= |m|
  {
    if i == |m| then ""
    else (if i == 0 then "" else "," + style.Break()) + PrintMembers(m[i..], style, indent)
  }

  lemma NextMember(m: seq<Member>, i: nat, style: Style, indent: nat)
    requires i < |m|
    ensures MembersFrom(m, i, style, indent)
         == (if i == 0 then "" else "," + style.Break())
            + (style.Indent(indent) + Quoted(m[i].key) + style.Colon() + Print(m[i].value, style, indent))
            + MembersFrom(m, i + 1, style, indent)
  {
    hide Print, Style.Break, Style.Indent, Style.Colon, Quoted;
    assert m[i..][0] == m[i] && m[i..][1..] == m[i + 1..];
  }

  lemma AllMembers(m: seq<Member>, style: Style, indent: nat)
    ensures MembersFrom(m, 0, style, indent) == PrintMembers(m, style, indent)
    ensures MembersFrom(m, |m|, style, indent) == ""
  {
    assert m[0..] == m;
  }

  lemma CompactSpacing(n: nat)
    ensures Compact.Break() == "" && Compact.Indent(n) == "" && Compact.Colon() == ":"
    ensures Pretty.Break() == "\n" && Pretty.Colon() == " : "
  {}

  lemma PrintsScalar(v: Json, style: Style, indent: nat)
    ensures v.Null? ==> Print(v, style, indent) == "null"
    ensures v.Bool? ==> Print(v, style, indent) == if v.b then "true" else "false"
    ensures v.Str? ==> Print(v, style, indent) == Quoted(v.s)
  {}

  /** The text of an array or an object, part by part. */
  lemma Enclosed(start: string, open: string, b: string, content: string, ind: string, close: string)
    ensures (((start + open + b) + content) + b + ind) + close == start + (open + b + content + b + ind + close)
  {}

  method Serialize(v: Json, oi: Output, ghost indent: nat)
    modifies oi
    ensures oi.text == old(oi.text) + Print(v, Compact, indent)
    decreases v, 0
  {
    hide *;
    ghost var start := oi.text;
    PrintsScalar(v, Compact, indent);
    CompactSpacing(indent);
    match v
    case Null => oi.Copy("null");
    case Bool(b) => oi.Copy(if b then "true" else "false");
    case Str(s) => SerializeStr(s, oi);
    case Arr(items) =>
      oi.Push('[');
      SerializeItems(items, oi, indent + 1);
      oi.Push(']');
      PrintsArray(items, Compact, indent);
      Enclosed(start, "[", "", PrintItems(items, Compact, indent + 1), "", "]");
    case Obj(m) =>
      oi.Push('{');
      SerializeMembers(m, oi, indent + 1);
      oi.Push('}');
      PrintsObject(m, Compact, indent);
      Enclosed(start, "{", "", PrintMembers(m, Compact, indent + 1), "", "}");
  }

  method SerializeItems(items: seq<Json>, oi: Output, ghost indent: nat)
    modifies oi
    ensures oi.text == old(oi.text) + PrintItems(items, Compact, indent)
    decreases items, 2
  {
    hide *;
    ghost var whole := oi.text + PrintItems(items, Compact, indent);
    AllItems(items, Compact, indent);
    for i := 0 to |items|
      invariant oi.text + ItemsFrom(items, i, Compact, indent) == whole
    {
      NextCompactItem(items, i, oi.text, indent);
      Separate(i, oi);
      Serialize(items[i], oi, indent);
    }
    assert oi.text + "" == oi.text;
  }

  /** The comma between two items or members. */
  method Separate(i: nat, oi: Output)
    modifies oi
    ensures oi.text == old(oi.text) + (if i == 0 then "" else ",")
  {
    if i != 0 { oi.Push(','); }
  }

  lemma NextCompactItem(items: seq<Json>, i: nat, before: string, indent: nat)
    requires i < |items|
    ensures before + (if i == 0 then "" else ",") + Print(items[i], Compact, indent)
              + ItemsFrom(items, i + 1, Compact, indent)
         == before + ItemsFrom(items, i, Compact, indent)
  {
    hide *;
    var sep, p, rest := if i == 0 then "" else ",", Print(items[i], Compact, indent),
                        ItemsFrom(items, i + 1, Compact, indent);
    NextItem(items, i, Compact, indent);
    CompactSpacing(indent);
    assert (if i == 0 then "" else "," + "") == sep;
    ItemAppended(before, sep, "", p, rest);
  }

  lemma ItemAppended(before: string, sep: string, ind: string, p: string, rest: string)
    ensures (((before + sep) + ind) + p) + rest == before + (sep + (ind + p) + rest)
    ensures sep + "" == sep && "" + p == p && before + "" == before
  {}

  method SerializeMembers(m: seq<Member>, oi: Output, ghost indent: nat)
    modifies oi
    ensures oi.text == old(oi.text) + PrintMembers(m, Compact, indent)
    decreases m, 2
  {
    hide *;
    ghost var whole := oi.text + PrintMembers(m, Compact, indent);
    AllMembers(m, Compact, indent);
    for i := 0 to |m|
      invariant oi.text + MembersFrom(m, i, Compact, indent) == whole
    {
      ghost var before := oi.text;
      Separate(i, oi);
      SerializeStr(m[i].key, oi);
      oi.Push(':');
      Serialize(m[i].value, oi, indent);
      NextMember(m, i, Compact, indent);
      CompactSpacing(indent);
      MemberAppended(before, if i == 0 then "" else ",", "", Quoted(m[i].key), ":", Print(m[i].value, Compact, indent),
                     MembersFrom(m, i + 1, Compact, indent));
    }
    assert oi.text + "" == oi.text;
  }

  lemma MemberAppended(before: string, sep: string, ind: string, q: string, c: string, p: string, rest: string)
    ensures (((((before + sep) + ind) + q) + c) + p) + rest == before + (sep + (ind + q + c + p) + rest)
    ensures sep + "" == sep && before + "" == before && before + sep + "" == before + sep
  {}

  method PrettySerialize(v: Json, oi: Output, indent: nat)
    modifies oi
    ensures oi.text == old(oi.text) + Print(v, Pretty, indent)
    decreases v, 0
  {
    hide *;
    ghost var start := oi.text;
    PrintsScalar(v, Pretty, indent);
    CompactSpacing(indent);
    match v
    case Null => oi.Copy("null");
    case Bool(b) => oi.Copy(if b then "true" else "false");
    case Str(s) => SerializeStr(s, oi);
    case Arr(items) =>
      oi.Push('[');
      oi.Push('\n');
      PrettySerializeItems(items, oi, indent + 1);
      oi.Push('\n');
      IndentBy(oi, indent);
      oi.Push(']');
      PrintsArray(items, Pretty, indent);
      Enclosed(start, "[", "\n", PrintItems(items, Pretty, indent + 1), Pretty.Indent(indent), "]");
    case Obj(m) =>
      oi.Push('{');
      oi.Push('\n');
      PrettySerializeMembers(m, oi, indent + 1);
      oi.Push('\n');
      IndentBy(oi, indent);
      oi.Push('}');
      PrintsObject(m, Pretty, indent);
      Enclosed(start, "{", "\n", PrintMembers(m, Pretty, indent + 1), Pretty.Indent(indent), "}");
  }

  method PrettySerializeItems(items: seq<Json>, oi: Output, indent: nat)
    modifies oi
    ensures oi.text == old(oi.text) + PrintItems(items, Pretty, indent)
    decreases items, 2
  {
    hide *;
    ghost var whole := oi.text + PrintItems(items, Pretty, indent);
    AllItems(items, Pretty, indent);
    for i := 0 to |items|
      invariant oi.text + ItemsFrom(items, i, Pretty, indent) == whole
    {
      ghost var before := oi.text;
      NextLine(i, oi);
      IndentBy(oi, indent);
      PrettySerialize(items[i], oi, indent);
      NextItem(items, i, Pretty, indent);
      CompactSpacing(indent);
      ItemAppended(before, if i == 0 then "" else ",\n", Pretty.Indent(indent), Print(items[i], Pretty, indent),
                   ItemsFrom(items, i + 1, Pretty, indent));
    }
    assert oi.text + "" == oi.text;
  }

  /** Between two items or members. */
  method NextLine(i: nat, oi: Output)
    modifies oi
    ensures oi.text == old(oi.text) + (if i == 0 then "" else ",\n")
  {
    if i != 0 {
      oi.Push(',');
      oi.Push('\n');
    }
  }

  method PrettySerializeMembers(m: seq<Member>, oi: Output, indent: nat)
    modifies oi
    ensures oi.text == old(oi.text) + PrintMembers(m, Pretty, indent)
    decreases m, 2
  {
    hide *;
    ghost var whole := oi.text + PrintMembers(m, Pretty, indent);
    AllMembers(m, Pretty, indent);
    for i := 0 to |m|
      invariant oi.text + MembersFrom(m, i, Pretty, indent) == whole
    {
      ghost var before := oi.text;
      NextLine(i, oi);
      IndentBy(oi, indent);
      SerializeStr(m[i].key, oi);
      oi.Copy(" : ");
      PrettySerialize(m[i].value, oi, indent);
      NextMember(m, i, Pretty, indent);
      CompactSpacing(indent);
      MemberAppended(before, if i == 0 then "" else ",\n", Pretty.Indent(indent), Quoted(m[i].key), " : ",
                     Print(m[i].value, Pretty, indent), MembersFrom(m, i + 1, Pretty, indent));
    }
    assert oi.text + "" == oi.text;
  }
}
