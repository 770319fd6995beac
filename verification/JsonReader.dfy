/** src/utils/json.h: the cursor with its one character of pushback, and the recursive descent over
    it, against the functions of Json. */
module JsonReader {
  import opened Bits
  import opened Outcomes
  import opened Json
  import Text = Json

  class Input {
    const text: string
    var cur: nat
    var lastCh: int
    var ungot: bool

    ghost predicate Valid() reads this {
      && cur <= |text|
      && (lastCh == -1 || (cur > 0 && lastCh == text[cur - 1] as int))
      && (ungot ==> lastCh != -1)
    }

    /** The position of the next character `getc` delivers. */
    ghost function Pos(): (p: nat)
      requires Valid()
      reads this
      ensures p <= |text|
    {
      if ungot then cur - 1 else cur
    }

    /** The unread characters and the one pushed back. */
    ghost function Left(): (n: nat)
      requires Valid()
      reads this
      ensures n == |text| - Pos()
    {
      |text| - cur + (if ungot then 1 else 0)
    }

    constructor (t: string)
      ensures Valid() && text == t && Pos() == 0 && !ungot
    {
      text, cur, lastCh, ungot := t, 0, -1, false;
    }

    method GetC() returns (ch: int)
      requires Valid()
      modifies this
      ensures Valid() && !ungot && lastCh == ch
      ensures old(Pos()) < |text| ==>
          ch == text[old(Pos())] as int && Pos() == old(Pos()) + 1 && Left() == old(Left()) - 1
      ensures old(Pos()) == |text| ==> ch == -1 && Pos() == old(Pos()) && Left() == old(Left())
    {
      if ungot {
        ungot := false;
        return lastCh;
      }
      if cur == |text| {
        lastCh := -1;
        return -1;
      }
      lastCh := text[cur] as int;
      cur := cur + 1;
      return lastCh;
    }

    /** Takes the last character back; the end of the text cannot be taken back, nor the same
        character twice. */
    method UngetC()
      requires Valid()
      modifies this
      ensures Valid() && lastCh == old(lastCh) && ungot == (lastCh != -1)
      ensures Pos() == if old(ungot) || lastCh == -1 then old(Pos()) else old(Pos()) - 1
    {
      if lastCh != -1 { ungot := true; }
    }

    method SkipWs()
      requires Valid()
      modifies this
      ensures Valid() && Pos() == SkipSpace(text, old(Pos())) && Left() <= old(Left()) && ungot == (Pos() < |text|)
    {
      ghost var start := Pos();
      while true
        invariant Valid() && Left() <= old(Left()) && SkipSpace(text, Pos()) == SkipSpace(text, start)
        decreases Left()
      {
        ghost var p := Pos();
        var ch := GetC();
        if !(ch == ' ' as int || ch == '\t' as int || ch == '\n' as int || ch == '\r' as int) {
          UngetC();
          assert Pos() == p;
          return;
        }
      }
    }

    method Expect(expected: char) returns (ok: bool)
      requires Valid()
      modifies this
      ensures Valid() && Left() <= old(Left())
      ensures ok == Text.Expect(text, old(Pos()), expected).Some?
      ensures ok ==> !ungot && Pos() == Text.Expect(text, old(Pos()), expected).value && Left() < old(Left())
      ensures !ok ==> Pos() == SkipSpace(text, old(Pos()))
    {
      SkipWs();
      var ch := GetC();
      if ch != expected as int {
        UngetC();
        return false;
      }
      return true;
    }

    method Match(pattern: string) returns (ok: bool)
      requires Valid() && !ungot
      modifies this
      ensures Valid() && ok == Occurs(text, old(Pos()), pattern)
      ensures ok ==> !ungot && Pos() == old(Pos()) + |pattern|
    {
      ghost var start := Pos();
      for k := 0 to |pattern|
        invariant Valid() && !ungot && Pos() == start + k && text[start..start + k] == pattern[..k]
      {
        var ch := GetC();
        if ch != pattern[k] as int {
          UngetC();
          OccursCharacter(text, start, pattern, k);
          return false;
        }
        SliceGrows(text, start, start + k);
        SliceGrows(pattern, 0, k);
      }
      assert pattern[..|pattern|] == pattern;
      return true;
    }
  }

  lemma SliceGrows(t: string, a: nat, b: nat)
    requires a <= b < |t|
    ensures t[a..b + 1] == t[a..b] + [t[b]]
  {}

  lemma OccursCharacter(t: string, i: nat, s: string, k: nat)
    requires k < |s|
    ensures Occurs(t, i, s) ==> i + k < |t| && t[i + k] == s[k]
  {
    assert Occurs(t, i, s) ==> t[i..i + |s|][k] == t[i + k];
  }

  lemma {:induction false} SkipTwice(t: string, i: nat)
    requires i <= |t|
    ensures SkipSpace(t, SkipSpace(t, i)) == SkipSpace(t, i)
    ensures forall c :: Text.Expect(t, SkipSpace(t, i), c) == Text.Expect(t, i, c)
  {}

  // ---------------------------------------------------------------- strings

  /** The first n hexadecimal digits from position i on. */
  function HexDigits(t: string, i: nat, n: nat): (r: Option<nat>)
    ensures r.Some? ==> i + n <= |t| || n == 0
  {
    if n == 0 then Some(0)
    else
      match HexDigits(t, i, n - 1)
      case None => None
      case Some(u) =>
        if i + n > |t| then None
        else match HexValue(t[i + n - 1])
             case None => None
             case Some(v) => Some(u * 16 + v)
  }

  lemma QuadHexIsDigits(t: string, i: nat)
    ensures QuadHex(t, i) == HexDigits(t, i, 4)
  {
    hide HexValue;
    if i + 4 <= |t| {
      var a, b, c, d := HexValue(t[i]), HexValue(t[i + 1]), HexValue(t[i + 2]), HexValue(t[i + 3]);
      assert HexDigits(t, i, 0) == Some(0);
      assert HexDigits(t, i, 1) == a;
      assert HexDigits(t, i, 2) == if a.Some? && b.Some? then Some(a.value * 16 + b.value) else None;
      assert HexDigits(t, i, 3) == if a.Some? && b.Some? &&
          c.Some? then Some((a.value * 16 + b.value) * 16 + c.value) else None;
    } else {
      FewerDigits(t, i, 4);
    }
  }

  lemma NoDigits(t: string, i: nat)
    ensures HexDigits(t, i, 0) == Some(0)
  {}

  lemma {:induction false} FewerDigits(t: string, i: nat, n: nat)
    ensures i + n > |t| && n > 0 ==> HexDigits(t, i, n) == None
  {}

  lemma {:induction false} MoreDigits(t: string, i: nat, k: nat, n: nat)
    requires k <= n && HexDigits(t, i, k) == None
    ensures HexDigits(t, i, n) == None
    decreases n
  {
    if k < n { MoreDigits(t, i, k, n - 1); }
  }

  /** The next digit, by its character code. */
  lemma NextDigit(t: string, p: nat, i: nat, u: nat, hex: int)
    requires HexDigits(t, p, i) == Some(u) && p + i <= |t| && hex == if p + i < |t| then t[p + i] as int else -1
    ensures HexDigits(t, p, i + 1)
         == if '0' as int <= hex <= '9' as int then Some(u * 16 + (hex - '0' as int))
            else if 'A' as int <= hex <= 'F' as int then Some(u * 16 + (hex - ('A' as int - 0xa)))
            else if 'a' as int <= hex <= 'f' as int then Some(u * 16 + (hex - ('a' as int - 0xa)))
            else None
  {}

  method ParseQuadHex(inp: Input) returns (uniCh: int)
    requires inp.Valid()
    modifies inp
    ensures inp.Valid() && inp.Left() <= old(inp.Left())
    ensures match QuadHex(inp.text, old(inp.Pos()))
            case None => uniCh == -1
            case Some(u) => uniCh == u && inp.Pos() == old(inp.Pos()) + 4 && !inp.ungot && inp.Left() < old(inp.Left())
  {
    ghost var t, p := inp.text, inp.Pos();
    hide *;
    QuadHexIsDigits(t, p);
    NoDigits(t, p);
    uniCh := 0;
    for i := 0 to 4
      invariant inp.Valid() && inp.Pos() == p + i && HexDigits(t, p, i) == Some(uniCh)
      invariant (i == 0 || !inp.ungot) && inp.Left() == old(inp.Left()) - i
    {
      var hex := inp.GetC();
      NextDigit(t, p, i, uniCh, hex);
      if hex == -1 {
        MoreDigits(t, p, i + 1, 4);
        return -1;
      }
      if '0' as int <= hex <= '9' as int {
        hex := hex - '0' as int;
      } else if 'A' as int <= hex <= 'F' as int {
        hex := hex - ('A' as int - 0xa);
      } else if 'a' as int <= hex <= 'f' as int {
        hex := hex - ('a' as int - 0xa);
      } else {
        inp.UngetC();
        MoreDigits(t, p, i + 1, 4);
        return -1;
      }
      uniCh := uniCh * 16 + hex;
    }
  }

  // The bytes the shifts and masks make are those of UTF-8.

  lemma ContinuationByte(u: nat, k: nat)
    ensures BitOr(0x80, BitAnd(Shr(u, k), 0x3f)) == 0x80 + u / Pow2(k) % 64
  {
    assert Pow2(6) == 64;
    hide Bitwise, Shr, Pow2;
    ShiftsArePowers(u, k);
    MaskIsRemainder(Shr(u, k), 6);
    OrDisjoint(2, 6, Shr(u, k) % 64);
  }

  lemma LeadByte(lead: nat, low: nat, u: nat, k: nat)
    requires low <= 6 && lead % Pow2(low) == 0 && u / Pow2(k) < Pow2(low)
    ensures BitOr(lead, Shr(u, k)) == lead + u / Pow2(k)
  {
    hide Bitwise, Shr, Pow2;
    ShiftsArePowers(u, k);
    assert lead == (lead / Pow2(low)) * Pow2(low);
    OrDisjoint(lead / Pow2(low), low, u / Pow2(k));
  }

  lemma SmallPowers()
    ensures Pow2(0) == 1 && Pow2(3) == 8 && Pow2(4) == 16 && Pow2(5) == 32 && Pow2(6) == 64
    ensures Pow2(10) == 1024 && Pow2(12) == 4096 && Pow2(18) == 262144
  {
    Pow2Adds(6, 4);
    Pow2Adds(6, 6);
    Pow2Adds(12, 6);
  }

  /** The bytes of one code point, as the reader pushes them. */
  method PushCodePoint(out0: string, u: nat) returns (out: string)
    requires IsCodePoint(u)
    ensures out == out0 + Utf8(u)
  {
    SmallPowers();
    hide Bitwise, Shr, Pow2;
    ContinuationByte(u, 0);
    ContinuationByte(u, 6);
    ContinuationByte(u, 12);
    ShiftsArePowers(u, 0);
    assert u / 1 == u;
    out := out0;
    if u < 0x80 {
      out := out + [u as char];
    } else {
      if u < 0x800 {
        LeadByte(0xc0, 5, u, 6);
        out := out + [BitOr(0xc0, Shr(u, 6)) as char];
      } else {
        if u < 0x1_0000 {
          LeadByte(0xe0, 4, u, 12);
          out := out + [BitOr(0xe0, Shr(u, 12)) as char];
        } else {
          LeadByte(0xf0, 3, u, 18);
          out := out + [BitOr(0xf0, Shr(u, 18)) as char];
          out := out + [BitOr(0x80, BitAnd(Shr(u, 12), 0x3f)) as char];
        }
        out := out + [BitOr(0x80, BitAnd(Shr(u, 6), 0x3f)) as char];
      }
      out := out + [BitOr(0x80, BitAnd(u, 0x3f)) as char];
    }
  }

  lemma SurrogatePair(high: nat, low: nat)
    requires 0xd800 <= high < 0xdc00 <= low < 0xe000
    ensures BitOr(Shl(high - 0xd800, 10), BitAnd(low - 0xdc00, 0x3ff)) == (high - 0xd800) * 1024 + (low - 0xdc00)
  {
    SmallPowers();
    hide Bitwise, Shl, Pow2;
    ShiftsArePowers(high - 0xd800, 10);
    MaskIsRemainder(low - 0xdc00, 10);
    SmallRemainder(low - 0xdc00, 1024);
    OrDisjoint(high - 0xd800, 10, low - 0xdc00);
  }

  method ParseCodepoint(inp: Input, out0: string) returns (ok: bool, out: string)
    requires inp.Valid()
    modifies inp
    ensures inp.Valid() && inp.Left() <= old(inp.Left())
    ensures match CodePoint(inp.text, old(inp.Pos()))
            case None => !ok
            case Some((u, end)) =>
              ok && out == out0 + Utf8(u) && inp.Pos() == end && !inp.ungot && inp.Left() < old(inp.Left())
  {
    hide *;
    ghost var t, p := inp.text, inp.Pos();
    CodePointStep(t, p);
    out := out0;
    var uniCh := ParseQuadHex(inp);
    if uniCh == -1 { return false, out; }
    if 0xd800 <= uniCh <= 0xdfff {
      if 0xdc00 <= uniCh { return false, out; }
      OccursEscape(t, p + 4);
      var ch := inp.GetC();
      var escaped := ch == '\\' as int;
      if escaped {
        ch := inp.GetC();
        escaped := ch == 'u' as int;
      }
      if !escaped {
        inp.UngetC();
        return false, out;
      }
      var second := ParseQuadHex(inp);
      if !(0xdc00 <= second <= 0xdfff) { return false, out; }
      SurrogatePair(uniCh, second);
      uniCh := BitOr(Shl(uniCh - 0xd800, 10), BitAnd(second - 0xdc00, 0x3ff));
      uniCh := uniCh + 0x1_0000;
    }
    out := PushCodePoint(out, uniCh);
    return true, out;
  }

  lemma CodePointStep(t: string, p: nat)
    ensures QuadHex(t, p) == None ==> CodePoint(t, p) == None
    ensures QuadHex(t, p).Some? ==>
              var u := QuadHex(t, p).value;
              && ((u < 0xd800 || 0xe000 <= u) ==> IsCodePoint(u) && CodePoint(t, p) == Some((u, p + 4)))
              && (0xdc00 <= u < 0xe000 ==> CodePoint(t, p) == None)
              && (0xd800 <= u < 0xdc00 && !Occurs(t, p + 4, "\\u") ==> CodePoint(t, p) == None)
              && (0xd800 <= u < 0xdc00 && Occurs(t, p + 4, "\\u") ==>
                    match QuadHex(t, p + 6)
                    case None => CodePoint(t, p) == None
                    case Some(w) =>
                      if 0xdc00 <= w < 0xe000 then
                        && IsCodePoint(0x1_0000 + (u - 0xd800) * 1024 + (w - 0xdc00))
                        && CodePoint(t, p) == Some((0x1_0000 + (u - 0xd800) * 1024 + (w - 0xdc00), p + 10))
                      else CodePoint(t, p) == None)
  {
    hide QuadHex, Occurs;
  }

  lemma OccursEscape(t: string, i: nat)
    ensures Occurs(t, i, "\\u") <==> i + 2 <= |t| && t[i] == '\\' && t[i + 1] == 'u'
  {
    if i + 2 <= |t| { assert t[i..i + 2] == [t[i], t[i + 1]]; }
  }

  lemma PrefixedTwice(a: string, b: string, r: Option<(string, nat)>)
    ensures Prefixed(a, Prefixed(b, r)) == Prefixed(a + b, r)
  {
    if r.Some? { assert a + (b + r.value.0) == (a + b) + r.value.0; }
  }

  lemma PrefixedNothing(a: string)
    ensures Prefixed(a, None) == None
  {}

  /** What the reader of a string does next, by the code of the next character. */
  lemma StringStep(t: string, i: nat, ch: int)
    requires i <= |t| && ch == if i < |t| then t[i] as int else -1
    ensures ch < ' ' as int ==> ReadString(t, i) == None
    ensures ch == '\"' as int ==> ReadString(t, i) == Some(("", i + 1))
    ensures ch == '\\' as int ==>
              ReadString(t, i) == match Unescape(t, i + 1)
                                  case None => None
                                  case Some((s, j)) => Prefixed(s, ReadString(t, j))
    ensures ch >= ' ' as int && ch != '\"' as int && ch != '\\' as int ==>
              i < |t| && ReadString(t, i) == Prefixed([t[i]], ReadString(t, i + 1))
  {
    hide Unescape, Prefixed;
  }

  /** What follows a backslash. */
  method ParseEscape(inp: Input, out0: string) returns (ok: bool, out: string)
    requires inp.Valid()
    modifies inp
    ensures inp.Valid() && inp.Left() <= old(inp.Left())
    ensures match Unescape(inp.text, old(inp.Pos()))
            case None => !ok
            case Some((s, end)) =>
              ok && out == out0 + s && inp.Pos() == end && !inp.ungot && inp.Left() < old(inp.Left())
  {
    hide CodePoint, Utf8;
    out := out0;
    var ch := inp.GetC();
    if ch == -1 {
      return false, out;
    } else if ch == '\"' as int || ch == '\\' as int || ch == '/' as int {
      return true, out + [ch as char];
    } else if ch == 'b' as int {
      return true, out + [0x08 as char];
    } else if ch == 'f' as int {
      return true, out + [0x0c as char];
    } else if ch == 'n' as int {
      return true, out + ['\n'];
    } else if ch == 'r' as int {
      return true, out + ['\r'];
    } else if ch == 't' as int {
      return true, out + ['\t'];
    } else if ch == 'u' as int {
      ok, out := ParseCodepoint(inp, out);
      return ok, out;
    } else {
      return false, out;
    }
  }

  method ParseString(inp: Input) returns (ok: bool, out: string)
    requires inp.Valid()
    modifies inp
    ensures inp.Valid() && inp.Left() <= old(inp.Left())
    ensures match ReadString(inp.text, old(inp.Pos()))
            case None => !ok
            case Some((s, end)) => ok && out == s && inp.Pos() == end && !inp.ungot && inp.Left() < old(inp.Left())
  {
    hide *;
    ghost var t, p := inp.text, inp.Pos();
    out := "";
    StringStarts(t, p);
    while true
      invariant inp.Valid() && inp.Left() <= old(inp.Left())
      invariant ReadString(t, p) == Prefixed(out, ReadString(t, inp.Pos()))
      decreases inp.Left()
    {
      ghost var at := inp.Pos();
      var ch := inp.GetC();
      StringStep(t, at, ch);
      if ch < ' ' as int {
        PrefixedNothing(out);
        inp.UngetC();
        return false, out;
      } else if ch == '\"' as int {
        PrefixedEnd(out, at + 1);
        return true, out;
      } else if ch == '\\' as int {
        ghost var before := out;
        ok, out := ParseEscape(inp, out);
        if !ok {
          PrefixedNothing(before);
          return false, out;
        }
        PrefixedTwice(before, Unescape(t, at + 1).value.0, ReadString(t, inp.Pos()));
      } else {
        PrefixedTwice(out, [t[at]], ReadString(t, at + 1));
        out := out + [ch as char];
      }
    }
  }

  lemma StringStarts(t: string, p: nat)
    requires p <= |t|
    ensures ReadString(t, p) == Prefixed("", ReadString(t, p))
  {
    hide ReadString;
    if ReadString(t, p).Some? { assert "" + ReadString(t, p).value.0 == ReadString(t, p).value.0; }
  }

  lemma PrefixedEnd(a: string, j: nat)
    ensures Prefixed(a, Some(("", j))) == Some((a, j))
  {
    assert a + "" == a;
  }

  // ---------------------------------------------------------------- values

  method ParseNumber(inp: Input, number: Strtod) returns (ok: bool, b: bool)
    requires inp.Valid() && inp.Pos() < |inp.text| && InNumber(inp.text[inp.Pos()])
    modifies inp
    ensures inp.Valid() && inp.Left() < old(inp.Left())
    ensures var t, p := inp.text, old(inp.Pos());
            var end := NumberEnd(t, p);
            && inp.Pos() == end && inp.ungot == (end < |t|)
            && match number(t[p..end])
               case None => !ok
               case Some(x) => ok && b == x
  {
    ghost var t, p := inp.text, inp.Pos();
    hide Input.Valid, Input.Pos, Input.Left;
    var numStr := "";
    while true
      invariant inp.Valid() && p <= inp.Pos() && inp.Left() + (inp.Pos() - p) == old(inp.Left())
      invariant numStr == t[p..inp.Pos()] && NumberEnd(t, p) == NumberEnd(t, inp.Pos())
      invariant inp.Pos() == p ==> InNumber(t[p])
      decreases inp.Left()
    {
      ghost var at := inp.Pos();
      var ch := inp.GetC();
      if ('0' as int <= ch <= '9' as int) || ch == '+' as int || ch == '-' as int || ch == '.' as int
         || ch == 'e' as int || ch == 'E' as int {
        SliceGrows(t, p, at);
        numStr := numStr + [ch as char];
      } else {
        inp.UngetC();
        assert inp.Pos() == at;
        break;
      }
    }
    match number(numStr)
    case None => return false, false;
    case Some(x) => return true, x;
  }

  // One step of the value readers.

  lemma ItemStep(t: string, i: nat, number: Strtod, items: seq<Json>)
    requires i <= |t|
    ensures Parse(t, i, number).None? ==> ParseItems(t, i, number, items) == None
    ensures Parse(t, i, number).Some? ==>
              var v, k := Parse(t, i, number).value.value, Parse(t, i, number).value.end;
              && (Text.Expect(t, k, ',').Some? ==>
                    ParseItems(t, i, number, items) == ParseItems(t, Text.Expect(t, k, ',').value, number, items + [v]))
              && (Text.Expect(t, k, ',').None? ==>
                    ParseItems(t, i, number, items)
                      == match Text.Expect(t, k, ']')
                         case Some(end) => Some(Read(Arr(items + [v]), end, false))
                         case None => None)
  {
    hide Parse, Text.Expect;
  }

  lemma MemberStep(t: string, i: nat, number: Strtod, members: seq<Member>)
    requires i <= |t|
    ensures ParseKey(t, i).None? ==> ParseMembers(t, i, number, members) == None
    ensures ParseKey(t, i).Some? ==>
              var key, j := ParseKey(t, i).value.0, ParseKey(t, i).value.1;
              && (Parse(t, j, number).None? ==> ParseMembers(t, i, number, members) == None)
              && (Parse(t, j, number).Some? ==>
                    var v, k := Parse(t, j, number).value.value, Parse(t, j, number).value.end;
                    var more := Insert(members, key, v);
                    && (Text.Expect(t, k, ',').Some? ==>
                          ParseMembers(t, i, number, members) ==
                              ParseMembers(t, Text.Expect(t, k, ',').value, number, more))
                    && (Text.Expect(t, k, ',').None? ==>
                          ParseMembers(t, i, number, members)
                            == match Text.Expect(t, k, '}')
                               case Some(end) => Some(Read(Obj(more), end, false))
                               case None => None))
  {
    hide Parse, Text.Expect, ParseKey, Insert;
  }

  lemma KeyStep(t: string, i: nat)
    requires i <= |t|
    ensures Text.Expect(t, i, '\"').None? ==> ParseKey(t, i) == None
    ensures Text.Expect(t, i, '\"').Some? ==>
              var j := Text.Expect(t, i, '\"').value;
              && (ReadString(t, j).None? ==> ParseKey(t, i) == None)
              && (ReadString(t, j).Some? ==>
                    ParseKey(t, i) == match Text.Expect(t, ReadString(t, j).value.1, ':')
                                      case None => None
                                      case Some(end) => Some((ReadString(t, j).value.0, end)))
  {
    hide Text.Expect, ReadString;
  }

  /** A value, by the code of its first character. */
  lemma ValueStep(t: string, i: nat, number: Strtod, j: nat, ch: int)
    requires i <= |t| && j == SkipSpace(t, i) && ch == if j < |t| then t[j] as int else -1
    ensures ch == 'n' as int ==>
              Parse(t, i, number) == if Occurs(t, j + 1, "ull") then Some(Read(Null, j + 4, false)) else None
    ensures ch == 'f' as int ==>
              Parse(t, i, number) == if Occurs(t, j + 1, "alse") then Some(Read(Bool(false), j + 5, false)) else None
    ensures ch == 't' as int ==>
              Parse(t, i, number) == if Occurs(t, j + 1, "rue") then Some(Read(Bool(true), j + 4, false)) else None
    ensures ch == '\"' as int ==>
              Parse(t, i, number) == match ReadString(t, j + 1)
                                     case None => None
                                     case Some((s, k)) => Some(Read(Str(s), k, false))
    ensures ch == '[' as int ==> Parse(t, i, number) == Text.ParseArray(t, j + 1, number)
    ensures ch == '{' as int ==> Parse(t, i, number) == Text.ParseObject(t, j + 1, number)
    ensures '0' as int <= ch <= '9' as int || ch == '-' as int ==>
              && j < |t| && InNumber(t[j])
              && var k := NumberEnd(t, j);
                 Parse(t, i, number) == match number(t[j..k])
                                        case None => None
                                        case Some(b) => Some(Read(Bool(b), k, k < |t|))
    ensures !(ch == 'n' as int || ch == 'f' as int || ch == 't' as int || ch == '\"' as int || ch == '[' as int
              || ch == '{' as int || '0' as int <= ch <= '9' as int || ch == '-' as int) ==>
              Parse(t, i, number) == None
  {
    hide SkipSpace, ReadString, Text.Expect, ParseItems, ParseMembers, Occurs;
  }

  lemma ArrayStep(t: string, i: nat, number: Strtod)
    requires i <= |t|
    ensures Text.ParseArray(t, i, number)
         == match Text.Expect(t, i, ']')
            case Some(k) => Some(Read(Arr([]), k, false))
            case None => ParseItems(t, i, number, [])
  {
    hide Text.Expect, ParseItems;
  }

  lemma ObjectStep(t: string, i: nat, number: Strtod)
    requires i <= |t|
    ensures Text.ParseObject(t, i, number)
         == match Text.Expect(t, i, '}')
            case Some(k) => Some(Read(Obj([]), k, false))
            case None => ParseMembers(t, i, number, [])
  {
    hide Text.Expect, ParseMembers;
  }

  /** White space in front of an item or a key changes nothing. */
  lemma SkippedFirst(t: string, i: nat, number: Strtod, items: seq<Json>, members: seq<Member>)
    requires i <= |t|
    ensures ParseItems(t, SkipSpace(t, i), number, items) == ParseItems(t, i, number, items)
    ensures ParseMembers(t, SkipSpace(t, i), number, members) == ParseMembers(t, i, number, members)
  {
    hide *;
    var j := SkipSpace(t, i);
    SkipTwice(t, i);
    ItemStep(t, i, number, items);
    ItemStep(t, j, number, items);
    ValueSkips(t, i, number);
    KeyStep(t, i);
    KeyStep(t, j);
    MemberStep(t, i, number, members);
    MemberStep(t, j, number, members);
  }

  lemma ValueSkips(t: string, i: nat, number: Strtod)
    requires i <= |t|
    ensures Parse(t, SkipSpace(t, i), number) == Parse(t, i, number)
  {
    SkipTwice(t, i);
    hide SkipSpace, Text.Expect, ReadString, Occurs, NumberEnd;
  }

  /** What a reader that was to read r has done. */
  ghost predicate Delivers(inp: Input, r: Option<Read>, ok: bool, v: Json)
    reads inp
  {
    inp.Valid() &&
    match r
    case None => !ok
    case Some(Read(x, end, pushed)) => ok && v == x && inp.Pos() == end && inp.ungot == pushed
  }

  method ParseValue(inp: Input, number: Strtod) returns (ok: bool, v: Json)
    requires inp.Valid()
    modifies inp
    ensures Delivers(inp, Parse(inp.text, old(inp.Pos()), number), ok, v)
    decreases inp.Left(), 0
  {
    hide Text.Expect, Parse, SkipSpace, ReadString, NumberEnd, Occurs, Text.ParseArray, Text.ParseObject, InNumber;
    hide Input.Left, Input.Pos, Input.Valid;
    ghost var t, p := inp.text, inp.Pos();
    v := Null;
    inp.SkipWs();
    ghost var j := inp.Pos();
    var ch := inp.GetC();
    ValueStep(t, p, number, j, ch);
    if ch == 'n' as int {
      ok := inp.Match("ull");
    } else if ch == 'f' as int {
      ok := inp.Match("alse");
      v := Bool(false);
    } else if ch == 't' as int {
      ok := inp.Match("rue");
      v := Bool(true);
    } else if ch == '\"' as int {
      var s;
      ok, s := ParseString(inp);
      v := Str(s);
    } else if ch == '[' as int {
      ok, v := ParseArray(inp, number);
    } else if ch == '{' as int {
      ok, v := ParseObject(inp, number);
    } else if '0' as int <= ch <= '9' as int || ch == '-' as int {
      inp.UngetC();
      var b;
      ok, b := ParseNumber(inp, number);
      v := Bool(b);
    } else {
      inp.UngetC();
      ok := false;
    }
  }

  method ParseArray(inp: Input, number: Strtod) returns (ok: bool, v: Json)
    requires inp.Valid()
    modifies inp
    ensures Delivers(inp, Text.ParseArray(inp.text, old(inp.Pos()), number), ok, v)
    decreases inp.Left(), 1
  {
    hide *;
    ghost var t, p := inp.text, inp.Pos();
    ArrayStep(t, p, number);
    SkippedFirst(t, p, number, [], []);
    var more := inp.Expect(']');
    if more {
      Delivered(inp, Text.ParseArray(t, p, number), Arr([]));
      return true, Arr([]);
    }
    more := true;
    var items: seq<Json> := [];
    while more
      invariant inp.Valid() && inp.Left() <= old(inp.Left())
      invariant more ==> Text.ParseArray(t, p, number) == ParseItems(t, inp.Pos(), number, items)
      invariant !more ==>
                  Text.ParseArray(t, p, number) == match Text.Expect(t, inp.Pos(), ']')
                                                   case Some(end) => Some(Read(Arr(items), end, false))
                                                   case None => None
      decreases more, inp.Left()
    {
      ghost var at := inp.Pos();
      ItemStep(t, at, number, items);
      var item;
      ok, item := ParseValue(inp, number);
      ReadAs(inp, Parse(t, at, number), ok, item);
      if !ok {
        NotDelivered(inp, Text.ParseArray(t, p, number), Null);
        return false, Null;
      }
      items := items + [item];
      SkipTwice(t, inp.Pos());
      more := inp.Expect(',');
    }
    ghost var at := inp.Pos();
    ok := inp.Expect(']');
    v := Arr(items);
    if ok {
      Delivered(inp, Text.ParseArray(t, p, number), v);
    } else {
      NotDelivered(inp, Text.ParseArray(t, p, number), v);
    }
  }

  method ParseObject(inp: Input, number: Strtod) returns (ok: bool, v: Json)
    requires inp.Valid()
    modifies inp
    ensures Delivers(inp, Text.ParseObject(inp.text, old(inp.Pos()), number), ok, v)
    decreases inp.Left(), 1
  {
    hide *;
    ghost var t, p := inp.text, inp.Pos();
    ObjectStep(t, p, number);
    SkippedFirst(t, p, number, [], []);
    var more := inp.Expect('}');
    if more {
      Delivered(inp, Text.ParseObject(t, p, number), Obj([]));
      return true, Obj([]);
    }
    more := true;
    var members: seq<Member> := [];
    while more
      invariant inp.Valid() && inp.Left() <= old(inp.Left())
      invariant more ==> Text.ParseObject(t, p, number) == ParseMembers(t, inp.Pos(), number, members)
      invariant !more ==>
                  Text.ParseObject(t, p, number) == match Text.Expect(t, inp.Pos(), '}')
                                                    case Some(end) => Some(Read(Obj(members), end, false))
                                                    case None => None
      decreases more, inp.Left()
    {
      ghost var at := inp.Pos();
      MemberStep(t, at, number, members);
      KeyStep(t, at);
      var key, item;
      ok := inp.Expect('\"');
      if ok { ok, key := ParseString(inp); }
      if ok { ok := inp.Expect(':'); }
      if !ok {
        NotDelivered(inp, Text.ParseObject(t, p, number), Null);
        return false, Null;
      }
      ghost var behind := inp.Pos();
      ok, item := ParseValue(inp, number);
      ReadAs(inp, Parse(t, behind, number), ok, item);
      if !ok {
        NotDelivered(inp, Text.ParseObject(t, p, number), Null);
        return false, Null;
      }
      members := Insert(members, key, item);
      SkipTwice(t, inp.Pos());
      more := inp.Expect(',');
    }
    ok := inp.Expect('}');
    v := Obj(members);
    if ok {
      Delivered(inp, Text.ParseObject(t, p, number), v);
    } else {
      NotDelivered(inp, Text.ParseObject(t, p, number), v);
    }
  }

  lemma Delivered(inp: Input, r: Option<Read>, v: Json)
    requires inp.Valid() && r == Some(Read(v, inp.Pos(), inp.ungot))
    ensures Delivers(inp, r, true, v)
  {}

  lemma NotDelivered(inp: Input, r: Option<Read>, v: Json)
    requires inp.Valid() && r == None
    ensures Delivers(inp, r, false, v)
  {}

  lemma ReadAs(inp: Input, r: Option<Read>, ok: bool, v: Json)
    requires Delivers(inp, r, ok, v)
    ensures inp.Valid() && ok == r.Some?
    ensures ok ==> v == r.value.value && inp.Pos() == r.value.end && inp.ungot == r.value.pushed
  {}

  /** `parse`: the value at the front of a text, and where the cursor stands behind it; a character that
      ended a number has been taken, and given back only to the cursor. */
  method ParseText(text: string, number: Strtod) returns (ok: bool, v: Json, cur: nat)
    ensures match Parse(text, 0, number)
            case None => !ok
            case Some(Read(x, end, pushed)) => ok && v == x && cur == end + (if pushed then 1 else 0)
  {
    hide Parse;
    var inp := new Input(text);
    ok, v := ParseValue(inp, number);
    cur := inp.cur;
  }
}
