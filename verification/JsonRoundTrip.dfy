/** Both printers write texts of RFC 8259 for the value they are given, so that reading inverts printing. */
module JsonRoundTrip {
  import opened Outcomes
  import opened Json
  import opened JsonText

  // ---------------------------------------------------------------- printed strings

  /** The piece of a string by which the printers write a character. */
  function PieceOf(c: char): Piece {
    if c == '\"' || c == '\\' || c == '/' then Short(c)
    else if c as int == 0x08 then Short('b')
    else if c as int == 0x0c then Short('f')
    else if c == '\n' then Short('n')
    else if c == '\r' then Short('r')
    else if c == '\t' then Short('t')
    else if c as int < 0x20 || c as int == 0x7f then
      Unit(Quad(Hex(0, false), Hex(0, false), Hex(c as int / 16, false), Hex(c as int % 16, false)))
    else Plain(c)
  }

  lemma EscapeIsPiece(c: char)
    ensures var p := PieceOf(c); ValidPiece(p) && PieceText(p) == Escape(c) && Meaning(p) == [c]
  {
    var p := PieceOf(c);
    if p.Unit? { ControlIsPiece(c); }
  }

  lemma ControlIsPiece(c: char)
    requires PieceOf(c).Unit?
    ensures var p := PieceOf(c); ValidPiece(p) && PieceText(p) == Escape(c) && Meaning(p) == [c]
  {
    var a, b := c as int / 16, c as int % 16;
    assert a < 8 && 0x10 * a + b == c as int;
    assert HexText(Hex(a, false)) == [HexDigit(a)] && HexText(Hex(b, false)) == [HexDigit(b)];
    assert HexText(Hex(0, false)) == "0";
    hide HexText, HexDigit;
  }

  function PiecesOf(s: string): seq<Piece> {
    if s == "" then [] else [PieceOf(s[0])] + PiecesOf(s[1..])
  }

  lemma {:induction false} EscapedIsPieces(s: string)
    ensures ValidPieces(PiecesOf(s)) && PiecesText(PiecesOf(s)) == Escaped(s) && Meanings(PiecesOf(s)) == s
  {
    hide PieceOf, ValidPiece, PieceText, Meaning, Escape;
    if s != "" {
      EscapeIsPiece(s[0]);
      EscapedIsPieces(s[1..]);
      var p := PiecesOf(s);
      assert p[0] == PieceOf(s[0]) && p[1..] == PiecesOf(s[1..]);
      assert [s[0]] + s[1..] == s;
    }
  }

  // ---------------------------------------------------------------- printed values

  lemma PrintsArray(items: seq<Json>, style: Style, indent: nat)
    ensures Print(Arr(items), style, indent)
         == "[" + style.Break() + PrintItems(items, style, indent + 1) + style.Break() + style.Indent(indent) + "]"
    ensures PrintItems([], style, indent) == ""
    ensures items != [] ==>
      PrintItems(items, style, indent) == style.Indent(indent) + Print(items[0], style, indent)
        + (if |items| == 1 then "" else "," + style.Break() + PrintItems(items[1..], style, indent))
    ensures WellFormed(Arr(items)) ==> forall x | x in items :: WellFormed(x)
  {
    hide Style.Break, Style.Indent;
  }

  lemma PrintsObject(m: seq<Member>, style: Style, indent: nat)
    ensures Print(Obj(m), style, indent)
         == "{" + style.Break() + PrintMembers(m, style, indent + 1) + style.Break() + style.Indent(indent) + "}"
    ensures PrintMembers([], style, indent) == ""
    ensures m != [] ==>
      PrintMembers(m, style, indent)
        == style.Indent(indent) + Quoted(m[0].key) + style.Colon() + Print(m[0].value, style, indent)
        + (if |m| == 1 then "" else "," + style.Break() + PrintMembers(m[1..], style, indent))
    ensures WellFormed(Obj(m)) ==> Sorted(m) && forall x | x in m :: WellFormed(x.value)
  {
    hide Style.Break, Style.Indent, Style.Colon, Quoted, Sorted;
  }

  lemma NextIsLast(done: seq<Member>, m: seq<Member>)
    requires m != [] && Sorted(done + m)
    ensures Insert(done, m[0].key, m[0].value) == done + [m[0]]
  {
    hide Insert;
    forall x | x in done ensures Less(x.key, m[0].key) {
      var n :| 0 <= n < |done| && done[n] == x;
      assert (done + m)[n] == x && (done + m)[|done|] == m[0];
    }
    InsertLast(done, m[0].key, m[0].value);
  }

  function Before(style: Style, indent: nat): string { style.Break() + style.Indent(indent) }

  function AroundColon(style: Style): string { if style.Pretty? then " " else "" }

  /** The tree of the text a printer writes. */
  function Tree(v: Json, style: Style, indent: nat): Node
    decreases v, 0
  {
    match v
    case Null => NullText
    case Bool(b) => if b then TrueText else FalseText
    case Str(s) => StringText(PiecesOf(s))
    case Arr(items) =>
      ArrayText(TreeItems(items, style, indent + 1, Before(style, indent)), style.Break() + Before(style, indent))
    case Obj(m) =>
      ObjectText(TreePairs(m, style, indent + 1, Before(style, indent)), style.Break() + Before(style, indent))
  }

  function TreeItems(items: seq<Json>, style: Style, indent: nat, tail: string): seq<Item>
    decreases items, 1
  {
    if items == [] then []
    else
      [Item(Before(style, indent), Tree(items[0], style, indent), if |items| == 1 then tail else "")]
      + TreeItems(items[1..], style, indent, tail)
  }

  function TreePairs(m: seq<Member>, style: Style, indent: nat, tail: string): seq<Pair>
    decreases m, 1
  {
    if m == [] then []
    else
      [Pair(Before(style, indent), PiecesOf(m[0].key), AroundColon(style), AroundColon(style),
            Tree(m[0].value, style, indent), if |m| == 1 then tail else "")]
      + TreePairs(m[1..], style, indent, tail)
  }

  lemma LayoutIsWs(style: Style, indent: nat)
    ensures Ws(style.Break()) && Ws(style.Indent(indent)) && Ws(Before(style, indent)) && Ws(AroundColon(style))
    ensures Ws(style.Break() + Before(style, indent)) && Ws("")
    ensures style.Colon() == AroundColon(style) + ":" + AroundColon(style)
  {}

  /** Both printers write a text of the grammar, and its value is the value printed. */
  lemma {:induction false} PrintIsText(v: Json, style: Style, indent: nat, number: Strtod)
    ensures var n := Tree(v, style, indent);
            && Valid(n, number) && !n.NumberText? && Text(n, number) == Print(v, style, indent)
            && (WellFormed(v) ==> Value(n, number) == v)
    decreases v, 0
  {
    hide *;
    match v
    case Null => WordIsText(v, style, indent, number);
    case Bool(_) => WordIsText(v, style, indent, number);
    case Str(s) =>
      EscapedIsPieces(s);
      StringIsText(s, style, indent, number);
    case Arr(items) =>
      var tail := Before(style, indent);
      LayoutIsWs(style, indent);
      ItemsAreText(items, style, indent + 1, tail, number);
      ArrayIsText(items, style, indent, number);
    case Obj(m) =>
      var tail := Before(style, indent);
      LayoutIsWs(style, indent);
      PairsAreText(m, style, indent + 1, tail, number, []);
      PrintsObject(m, style, indent);
      assert [] + m == m;
      ObjectIsText(m, style, indent, number);
  }

  lemma WordIsText(v: Json, style: Style, indent: nat, number: Strtod)
    requires v.Null? || v.Bool?
    ensures var n := Tree(v, style, indent);
            Valid(n, number) && !n.NumberText? && Text(n, number) == Print(v, style, indent) && Value(n, number) == v
  {}

  lemma StringIsText(s: string, style: Style, indent: nat, number: Strtod)
    requires ValidPieces(PiecesOf(s)) && PiecesText(PiecesOf(s)) == Escaped(s) && Meanings(PiecesOf(s)) == s
    ensures var n, v := Tree(Str(s), style, indent), Str(s);
            Valid(n, number) && !n.NumberText? && Text(n, number) == Print(v, style, indent) && Value(n, number) == v
  {
    hide PiecesOf, PiecesText, Escaped, Meanings, ValidPieces;
  }

  lemma ArrayIsText(items: seq<Json>, style: Style, indent: nat, number: Strtod)
    requires var its := TreeItems(items, style, indent + 1, Before(style, indent));
             && ValidItems(its, number) && (its == [] <==> items == [])
             && (items != [] ==>
                   ItemsText(its, number)
                   == style.Break() + PrintItems(items, style, indent + 1) + Before(style, indent))
             && (WellFormed(Arr(items)) ==> Values(its, number) == items)
    ensures var n, v := Tree(Arr(items), style, indent), Arr(items);
            && Valid(n, number) && !n.NumberText? && Text(n, number) == Print(v, style, indent)
            && (WellFormed(v) ==> Value(n, number) == v)
  {
    LayoutIsWs(style, indent);
    hide TreeItems, PrintItems, ItemsText, Style.Break, Style.Indent, Ws;
    PrintsArray(items, style, indent);
    var b, ind := style.Break(), style.Indent(indent);
    if items == [] {
      PrintsArray([], style, indent + 1);
      assert "[" + b + "" + b + ind + "]" == "[" + (b + (b + ind)) + "]";
    } else {
      var p := PrintItems(items, style, indent + 1);
      assert "[" + b + p + b + ind + "]" == "[" + (b + p + (b + ind)) + "]";
    }
  }

  lemma {:induction false} ItemsAreText(items: seq<Json>, style: Style, indent: nat, tail: string, number: Strtod)
    requires Ws(tail)
    ensures var its := TreeItems(items, style, indent, tail);
            && ValidItems(its, number) && (its == [] <==> items == [])
            && (items != [] ==>
                  ItemsText(its, number) == style.Break() + PrintItems(items, style, indent) + tail)
            && (WellFormed(Arr(items)) ==> Values(its, number) == items)
    decreases items, 1
  {
    hide *;
    ItemsUnfold(items, style, indent, tail);
    if items == [] {
      NoItems(number);
    } else {
      LayoutIsWs(style, indent);
      PrintIsText(items[0], style, indent, number);
      ItemsAreText(items[1..], style, indent, tail, number);
      PrintsArray(items, style, indent);
      WellFormedItems(items);
      var its, more := TreeItems(items, style, indent, tail), TreeItems(items[1..], style, indent, tail);
      assert its[0] == Item(Before(style, indent), Tree(items[0], style, indent), if |items| == 1 then tail else "");
      assert its[1..] == more;
      ItemsValid(its[0], more, number);
      ItemsParts(its, number);
      BeforeIs(style, indent);
      if |items| == 1 {
        assert items[1..] == [];
      } else {
        var b, ind, p := style.Break(), style.Indent(indent), Print(items[0], style, indent);
        var q := PrintItems(items[1..], style, indent);
        assert (b + ind) + p + "" + ("," + (b + q + tail)) == b + (ind + p + ("," + b + q)) + tail;
      }
      assert [items[0]] + items[1..] == items;
    }
  }

  lemma BeforeIs(style: Style, indent: nat)
    ensures Before(style, indent) == style.Break() + style.Indent(indent)
  {}

  lemma ItemsUnfold(items: seq<Json>, style: Style, indent: nat, tail: string)
    ensures items == [] ==> TreeItems(items, style, indent, tail) == []
    ensures items != [] ==>
              TreeItems(items, style, indent, tail)
              == [Item(Before(style, indent), Tree(items[0], style, indent), if |items| == 1 then tail else "")]
                 + TreeItems(items[1..], style, indent, tail)
  {
    hide Before, Tree;
  }

  lemma NoItems(number: Strtod)
    ensures ValidItems([], number) && Values([], number) == []
  {}

  lemma ItemsValid(x: Item, more: seq<Item>, number: Strtod)
    requires Ws(x.before) && Ws(x.after) && Valid(x.value, number) && ValidItems(more, number)
    ensures ValidItems([x] + more, number)
  {
    hide Ws, Valid;
  }

  lemma WellFormedItems(items: seq<Json>)
    requires items != []
    ensures WellFormed(Arr(items)) ==> WellFormed(items[0]) && WellFormed(Arr(items[1..]))
  {}

  lemma ObjectIsText(m: seq<Member>, style: Style, indent: nat, number: Strtod)
    requires var its := TreePairs(m, style, indent + 1, Before(style, indent));
             && ValidPairs(its, number) && (its == [] <==> m == [])
             && (m != [] ==>
                   PairsText(its, number)
                   == style.Break() + PrintMembers(m, style, indent + 1) + Before(style, indent))
             && (WellFormed(Obj(m)) ==> Collect([], its, number) == m)
    ensures var n, v := Tree(Obj(m), style, indent), Obj(m);
            && Valid(n, number) && !n.NumberText? && Text(n, number) == Print(v, style, indent)
            && (WellFormed(v) ==> Value(n, number) == v)
  {
    LayoutIsWs(style, indent);
    hide TreePairs, PrintMembers, PairsText, Style.Break, Style.Indent, Ws, ValidPieces, Sorted;
    PrintsObject(m, style, indent);
    var b, ind := style.Break(), style.Indent(indent);
    if m == [] {
      PrintsObject([], style, indent + 1);
      assert "{" + b + "" + b + ind + "}" == "{" + (b + (b + ind)) + "}";
    } else {
      var p := PrintMembers(m, style, indent + 1);
      assert "{" + b + p + b + ind + "}" == "{" + (b + p + (b + ind)) + "}";
    }
  }

  lemma {:induction false} PairsAreText(m: seq<Member>, style: Style, indent: nat, tail: string, number: Strtod,
      done: seq<Member>)
    requires Ws(tail)
    ensures var its := TreePairs(m, style, indent, tail);
            && ValidPairs(its, number) && (its == [] <==> m == [])
            && (m != [] ==>
                  PairsText(its, number) == style.Break() + PrintMembers(m, style, indent) + tail)
            && (Sorted(done + m) && WellFormed(Obj(m)) ==> Collect(done, its, number) == done + m)
    decreases m, 1
  {
    hide *;
    PairsUnfold(m, style, indent, tail);
    if m == [] {
      NoPairs(done, number);
      assert done + [] == done;
    } else {
      LayoutIsWs(style, indent);
      EscapedIsPieces(m[0].key);
      PrintIsText(m[0].value, style, indent, number);
      PairsAreText(m[1..], style, indent, tail, number, done + [m[0]]);
      PrintsObject(m, style, indent);
      WellFormedMembers(m);
      assert done + [m[0]] + m[1..] == done + m;
      if Sorted(done + m) { NextIsLast(done, m); }
      var its, more := TreePairs(m, style, indent, tail), TreePairs(m[1..], style, indent, tail);
      assert its[1..] == more;
      PairsValid(its[0], more, number);
      PairsParts(its, number, done);
      BeforeIs(style, indent);
      var b, ind, c := style.Break(), style.Indent(indent), AroundColon(style);
      var q, p := Quoted(m[0].key), Print(m[0].value, style, indent);
      QuotedIs(m[0].key);
      if |m| == 1 {
        assert m[1..] == [];
        assert (b + ind) + q + c + ":" + c + p + tail + "" == b + (ind + q + (c + ":" + c) + p + "") + tail;
      } else {
        var r := PrintMembers(m[1..], style, indent);
        assert (b + ind) + q + c + ":" + c + p + "" + ("," + (b + r + tail))
            == b + (ind + q + (c + ":" + c) + p + ("," + b + r)) + tail;
      }
    }
  }

  lemma QuotedIs(s: string)
    ensures Quoted(s) == "\"" + Escaped(s) + "\""
  {}

  lemma PairsUnfold(m: seq<Member>, style: Style, indent: nat, tail: string)
    ensures m == [] ==> TreePairs(m, style, indent, tail) == []
    ensures m != [] ==>
              TreePairs(m, style, indent, tail)
              == [Pair(Before(style, indent), PiecesOf(m[0].key), AroundColon(style), AroundColon(style),
                       Tree(m[0].value, style, indent), if |m| == 1 then tail else "")]
                 + TreePairs(m[1..], style, indent, tail)
  {
    hide Before, Tree, PiecesOf, AroundColon;
  }

  lemma NoPairs(done: seq<Member>, number: Strtod)
    ensures ValidPairs([], number) && Collect(done, [], number) == done
  {}

  lemma PairsValid(x: Pair, more: seq<Pair>, number: Strtod)
    requires Ws(x.before) && ValidPieces(x.key) && Ws(x.behind) && Ws(x.gap) && Ws(x.after)
    requires Valid(x.value, number) && ValidPairs(more, number)
    ensures ValidPairs([x] + more, number)
  {
    hide Ws, Valid, ValidPieces;
  }

  lemma WellFormedMembers(m: seq<Member>)
    requires m != []
    ensures WellFormed(Obj(m)) ==> WellFormed(m[0].value) && WellFormed(Obj(m[1..]))
  {}

  // ---------------------------------------------------------------- the round trip

  /** Behind any white space of section 2 and whatever follows, the text of either printer is read as the
      value printed, and the reader stops where it ends. */
  lemma ParsePrinted(w: string, v: Json, style: Style, rest: string, number: Strtod)
    requires WellFormed(v)
    requires forall c | c in w :: c as int == 0x20 || c as int == 0x09 || c as int == 0x0a || c as int == 0x0d
    ensures Parse(w + Print(v, style, 0) + rest, 0, number) == Some(Read(v, |w| + |Print(v, style, 0)|, false))
  {
    assert Ws(w);
    PrintIsText(v, style, 0, number);
    hide *;
    EveryTextIsRead(w, Tree(v, style, 0), rest, number);
  }

  /** RFC 8259 section 2: whatever follows, reading the text of either printer gives the value back and
      consumes exactly that text. */
  lemma SerializeRoundTrip(v: Json, style: Style, rest: string, number: Strtod)
    requires WellFormed(v)
    ensures var text := Print(v, style, 0);
            Parse(text + rest, 0, number) == Some(Read(v, |text|, false))
  {
    hide *;
    var text := Print(v, style, 0);
    assert "" + text + rest == text + rest;
    ParsePrinted("", v, style, rest, number);
  }

  /** Two values with the same text are the same. */
  lemma SerializeIsInjective(v: Json, w: Json, style: Style)
    requires WellFormed(v) && WellFormed(w) && Print(v, style, 0) == Print(w, style, 0)
    ensures v == w
  {
    hide *;
    var number: Strtod := _ => None;
    SerializeRoundTrip(v, style, "", number);
    SerializeRoundTrip(w, style, "", number);
  }

  /** Reading what was read and printed again changes nothing more. */
  lemma ParsePrintParse(t: string, number: Strtod, style: Style)
    requires Parse(t, 0, number).Some?
    ensures var v := Parse(t, 0, number).value.value;
            Parse(Print(v, style, 0), 0, number) == Some(Read(v, |Print(v, style, 0)|, false))
  {
    hide *;
    var v := Parse(t, 0, number).value.value;
    ParsedIsWellFormed(t, 0, number);
    SerializeRoundTrip(v, style, "", number);
    assert Print(v, style, 0) + "" == Print(v, style, 0);
  }
}
