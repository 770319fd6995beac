/** The reader accepts nothing but texts of RFC 8259: whatever it reads is the text of a tree, and the
    value is that tree's. */
module JsonAccepts {
  import opened Outcomes
  import opened Json
  import opened JsonText

  lemma OccursJoin(t: string, i: nat, a: string, b: string)
    requires Occurs(t, i, a) && Occurs(t, i + |a|, b)
    ensures Occurs(t, i, a + b)
  {
    OccursInTwo(t, i, a, b);
  }

  /** What is skipped is white space. */
  lemma {:induction false} SkippedIsWs(t: string, i: nat) returns (w: string)
    requires i <= |t|
    ensures Ws(w) && Occurs(t, i, w) && SkipSpace(t, i) == i + |w|
    decreases |t| - i
  {
    w := "";
    if i < |t| && IsSpace(t[i]) {
      var v := SkippedIsWs(t, i + 1);
      w := [t[i]] + v;
      OccursAt(t, i, t[i]);
      OccursJoin(t, i, [t[i]], v);
    }
  }

  /** `expect` succeeds only on its character behind white space. */
  lemma Expected(t: string, i: nat, c: char) returns (w: string)
    requires i <= |t| && Expect(t, i, c).Some?
    ensures Ws(w) && Occurs(t, i, w + [c]) && Expect(t, i, c) == Some(i + |w| + 1)
  {
    w := SkippedIsWs(t, i);
    OccursAt(t, i + |w|, c);
    hide Occurs, SkipSpace, Ws;
    OccursJoin(t, i, w, [c]);
  }

  // ---------------------------------------------------------------- strings

  lemma HexWasRead(c: char) returns (h: Hex)
    requires HexValue(c).Some?
    ensures h.n < 16 && h.n == HexValue(c).value && HexText(h) == [c]
  {
    h := Hex(HexValue(c).value, 'A' <= c <= 'F');
  }

  lemma QuadWasRead(t: string, i: nat) returns (q: Quad)
    requires QuadHex(t, i).Some?
    ensures ValidQuad(q) && CodeUnit(q) == QuadHex(t, i).value && Occurs(t, i, QuadText(q))
  {
    hide HexText, HexValue;
    var a := HexWasRead(t[i]);
    var b := HexWasRead(t[i + 1]);
    var c := HexWasRead(t[i + 2]);
    var d := HexWasRead(t[i + 3]);
    q := Quad(a, b, c, d);
    assert t[i..i + 4] == [t[i], t[i + 1], t[i + 2], t[i + 3]] == QuadText(q);
  }

  lemma BackslashU(t: string, i: nat)
    requires i + 1 < |t| && t[i] == '\\' && t[i + 1] == 'u'
    ensures Occurs(t, i, "\\u")
  {
    assert t[i..i + 2] == [t[i], t[i + 1]];
  }

  lemma CodeWasRead(t: string, i: nat) returns (p: Piece)
    requires i + 1 < |t| && t[i] == '\\' && t[i + 1] == 'u' && CodePoint(t, i + 2).Some?
    ensures ValidPiece(p) && Occurs(t, i, PieceText(p)) && Meaning(p) == Utf8(CodePoint(t, i + 2).value.0)
    ensures CodePoint(t, i + 2).value.1 == i + |PieceText(p)| && |PieceText(p)| > 0
  {
    hide QuadHex, QuadText, CodeUnit, Utf8, Occurs;
    BackslashU(t, i);
    var q := QuadWasRead(t, i + 2);
    OccursJoin(t, i, "\\u", QuadText(q));
    p := Unit(q);
    if 0xd800 <= CodeUnit(q) < 0xe000 {
      var l := QuadWasRead(t, i + 8);
      OccursJoin(t, i + 6, "\\u", QuadText(l));
      OccursJoin(t, i, "\\u" + QuadText(q), "\\u" + QuadText(l));
      p := Surrogates(q, l);
    }
  }

  lemma LetterWasRead(t: string, i: nat) returns (p: Piece)
    requires i < |t| && t[i] == '\\' && Unescape(t, i + 1).Some? && t[i + 1] != 'u'
    ensures ValidPiece(p) && Occurs(t, i, PieceText(p)) && Unescape(t, i + 1) == Some((Meaning(p), i + |PieceText(p)|))
  {
    p := Short(t[i + 1]);
    assert t[i..i + 2] == [t[i], t[i + 1]];
  }

  lemma UnescapesMore(t: string, i: nat)
    requires Unescape(t, i).Some?
    ensures i < |t|
  {}

  lemma UnescapesCode(t: string, i: nat)
    requires i < |t| && t[i] == 'u' && Unescape(t, i).Some?
    ensures CodePoint(t, i + 1).Some?
    ensures Unescape(t, i) == Some((Utf8(CodePoint(t, i + 1).value.0), CodePoint(t, i + 1).value.1))
  {
    hide CodePoint, Utf8;
  }

  lemma EscapeWasRead(t: string, i: nat) returns (p: Piece)
    requires i < |t| && t[i] == '\\' && Unescape(t, i + 1).Some?
    ensures ValidPiece(p) && Occurs(t, i, PieceText(p)) && Unescape(t, i + 1) == Some((Meaning(p), i + |PieceText(p)|))
  {
    hide *;
    UnescapesMore(t, i + 1);
    if t[i + 1] == 'u' {
      UnescapesCode(t, i + 1);
      p := CodeWasRead(t, i);
    } else {
      p := LetterWasRead(t, i);
    }
  }

  lemma ReadsStringBy(t: string, i: nat)
    requires i <= |t| && ReadString(t, i).Some?
    ensures i < |t| && t[i] >= ' '
    ensures t[i] == '\"' ==> ReadString(t, i) == Some(("", i + 1))
    ensures t[i] == '\\' ==>
              var u := Unescape(t, i + 1);
              u.Some? && ReadString(t, i) == Prefixed(u.value.0, ReadString(t, u.value.1))
    ensures t[i] != '\"' && t[i] != '\\' ==> ReadString(t, i) == Prefixed([t[i]], ReadString(t, i + 1))
  {
    hide Unescape, Prefixed;
  }

  lemma {:induction false} StringWasRead(t: string, i: nat) returns (p: seq<Piece>)
    requires i <= |t| && ReadString(t, i).Some?
    ensures ValidPieces(p) && Occurs(t, i, PiecesText(p) + "\"")
    ensures ReadString(t, i) == Some((Meanings(p), i + |PiecesText(p)| + 1))
    decreases |t| - i
  {
    hide *;
    ReadsStringBy(t, i);
    NoPieces();
    p := [];
    if t[i] == '\"' {
      OccursAt(t, i, '\"');
      assert PiecesText(p) + "\"" == "\"";
    } else {
      var x: Piece;
      if t[i] == '\\' {
        x := EscapeWasRead(t, i);
      } else {
        x := Plain(t[i]);
        PlainWasRead(t, i);
      }
      PieceNotEmpty(x);
      var j := i + |PieceText(x)|;
      OccursFits(t, i, PieceText(x));
      PrefixedParts(Meaning(x), ReadString(t, j));
      var q := StringWasRead(t, j);
      OccursJoin(t, i, PieceText(x), PiecesText(q) + "\"");
      p := [x] + q;
      OnePieceMore(x, q);
      assert PieceText(x) + (PiecesText(q) + "\"") == PiecesText(p) + "\"";
    }
  }

  lemma NoPieces()
    ensures ValidPieces([]) && PiecesText([]) == "" && Meanings([]) == ""
  {}

  lemma PlainWasRead(t: string, i: nat)
    requires i < |t| && t[i] >= ' ' && t[i] != '\\' && t[i] != '\"'
    ensures var x := Plain(t[i]); ValidPiece(x) && PieceText(x) == Meaning(x) == [t[i]] && Occurs(t, i, [t[i]])
  {
    OccursAt(t, i, t[i]);
  }

  lemma PieceNotEmpty(x: Piece)
    requires ValidPiece(x)
    ensures |PieceText(x)| > 0
  {
    hide QuadText;
  }

  lemma OnePieceMore(x: Piece, q: seq<Piece>)
    requires ValidPiece(x) && ValidPieces(q)
    ensures var p := [x] + q;
            && ValidPieces(p) && PiecesText(p) == PieceText(x) + PiecesText(q)
            && Meanings(p) == Meaning(x) + Meanings(q)
  {
    hide ValidPiece, PieceText, Meaning;
    assert ([x] + q)[1..] == q;
  }

  // ---------------------------------------------------------------- values

  /** The tree n with white space w in front is what was read at i. */
  ghost predicate ReadAs(t: string, i: nat, number: Strtod, w: string, n: Node) {
    && i <= |t| && Ws(w) && Valid(n, number) && Occurs(t, i, w + Text(n, number))
    && var end := i + |w| + |Text(n, number)|;
       && Parse(t, i, number) == Some(Read(Value(n, number), end, n.NumberText? && end < |t|))
       && (n.NumberText? ==> NumberStops(t, end))
  }

  lemma ReadAsParts(t: string, i: nat, number: Strtod, w: string, n: Node)
    requires ReadAs(t, i, number, w, n)
    ensures i <= |t| && Ws(w) && Valid(n, number) && Occurs(t, i, w + Text(n, number))
    ensures var end := i + |w| + |Text(n, number)|;
            && Parse(t, i, number) == Some(Read(Value(n, number), end, n.NumberText? && end < |t|))
            && (n.NumberText? ==> NumberStops(t, end))
  {
    hide Ws, Valid, Text, Value, Occurs, Parse;
  }

  /** By which branch a value was read. */
  lemma ParsedBy(t: string, i: nat, j: nat, number: Strtod)
    requires i <= |t| && SkipSpace(t, i) == j && Parse(t, i, number).Some?
    ensures j < |t|
    ensures t[j] in "nft\"[{" || NumberStart(t[j])
    ensures t[j] == 'n' ==> Occurs(t, j + 1, "ull") && Parse(t, i, number) == Some(Read(Null, j + 4, false))
    ensures t[j] == 'f' ==> Occurs(t, j + 1, "alse") && Parse(t, i, number) == Some(Read(Bool(false), j + 5, false))
    ensures t[j] == 't' ==> Occurs(t, j + 1, "rue") && Parse(t, i, number) == Some(Read(Bool(true), j + 4, false))
    ensures t[j] == '\"' ==>
              var s := ReadString(t, j + 1);
              s.Some? && Parse(t, i, number) == Some(Read(Str(s.value.0), s.value.1, false))
    ensures t[j] == '[' && Expect(t, j + 1, ']').None? ==> Parse(t, i, number) == ParseItems(t, j + 1, number, [])
    ensures t[j] == '[' && Expect(t, j + 1, ']').Some? ==>
              Parse(t, i, number) == Some(Read(Arr([]), Expect(t, j + 1, ']').value, false))
    ensures t[j] == '{' && Expect(t, j + 1, '}').None? ==> Parse(t, i, number) == ParseMembers(t, j + 1, number, [])
    ensures t[j] == '{' && Expect(t, j + 1, '}').Some? ==>
              Parse(t, i, number) == Some(Read(Obj([]), Expect(t, j + 1, '}').value, false))
    ensures NumberStart(t[j]) ==>
              var k := NumberEnd(t, j);
              var b := number(t[j..k]);
              b.Some? && Parse(t, i, number) == Some(Read(Bool(b.value), k, k < |t|))
  {
    hide SkipSpace, Occurs, ReadString, Expect, ParseItems, ParseMembers, NumberEnd;
  }

  /** Whatever the reader accepts, from any place in any text, is white space and a text of the grammar,
      and it delivers the value of that text. */
  lemma {:induction false} AcceptedIsText(t: string, i: nat, number: Strtod) returns (w: string, n: Node)
    requires i <= |t| && Parse(t, i, number).Some?
    ensures ReadAs(t, i, number, w, n)
    decreases |t| - i, 0
  {
    hide *;
    w := SkippedIsWs(t, i);
    var j := i + |w|;
    ParsedBy(t, i, j, number);
    if NumberStart(t[j]) {
      var k := NumberEnd(t, j);
      n := NumberText(t[j..k]);
      NumberWasRead(t, i, j, number, w);
    } else if t[j] == '\"' {
      var p := StringWasRead(t, j + 1);
      n := StringText(p);
      StringIsAccepted(t, i, j, number, w, p);
    } else if t[j] == '[' {
      n := ArrayWasRead(t, i, j, number, w);
    } else if t[j] == '{' {
      n := ObjectWasRead(t, i, j, number, w);
    } else {
      n := WordWasRead(t, i, j, number, w);
    }
  }

  lemma NumberWasRead(t: string, i: nat, j: nat, number: Strtod, w: string)
    requires i <= |t| && SkipSpace(t, i) == j == i + |w| < |t| && NumberStart(t[j]) && Ws(w) && Occurs(t, i, w)
    requires var k := NumberEnd(t, j); number(t[j..k]).Some?
    requires var k := NumberEnd(t, j); Parse(t, i, number) == Some(Read(Bool(number(t[j..k]).value), k, k < |t|))
    ensures ReadAs(t, i, number, w, NumberText(t[j..NumberEnd(t, j)]))
  {
    hide *;
    var k := NumberEnd(t, j);
    var d := t[j..k];
    NumberIsLike(t, j);
    OccursSlice(t, j, k);
    OccursJoin(t, i, w, d);
    NumberReadAs(t, i, j, number, w, d);
  }

  lemma NumberIsLike(t: string, j: nat)
    requires j < |t| && NumberStart(t[j])
    ensures var k := NumberEnd(t, j); j < k <= |t| && NumberLike(t[j..k]) && NumberStops(t, k)
  {
    var k := NumberEnd(t, j);
    NumberCharacters(t[j]);
    assert InNumber(t[j]) && k > j;
    if k < |t| { NumberCharacters(t[k]); }
    hide InNumber, NumberChar, NumberStart, NumberEnd;
    forall c | c in t[j..k] ensures NumberChar(c) {
      var x :| 0 <= x < k - j && t[j..k][x] == c;
      NumberCharacters(t[j + x]);
    }
  }

  lemma OccursSlice(t: string, i: nat, j: nat)
    requires i <= j <= |t|
    ensures Occurs(t, i, t[i..j])
  {}

  lemma NumberReadAs(t: string, i: nat, j: nat, number: Strtod, w: string, d: string)
    requires i <= |t| && j == i + |w| && Ws(w) && Occurs(t, i, w + d)
    requires NumberLike(d) && number(d).Some? && NumberStops(t, j + |d|)
    requires Parse(t, i, number) == Some(Read(Bool(number(d).value), j + |d|, j + |d| < |t|))
    ensures ReadAs(t, i, number, w, NumberText(d))
  {
    hide Parse, Ws, Occurs, NumberLike, NumberStops;
  }

  lemma StringIsAccepted(t: string, i: nat, j: nat, number: Strtod, w: string, p: seq<Piece>)
    requires i <= |t| && j == i + |w| < |t| && t[j] == '\"' && Ws(w) && Occurs(t, i, w)
    requires ValidPieces(p) && Occurs(t, j + 1, PiecesText(p) + "\"")
    requires Parse(t, i, number) == Some(Read(Str(Meanings(p)), j + |PiecesText(p)| + 2, false))
    ensures ReadAs(t, i, number, w, StringText(p))
  {
    OccursAt(t, j, '\"');
    hide Parse, Ws, ValidPieces, PiecesText, Meanings, Occurs;
    OccursJoin(t, j, "\"", PiecesText(p) + "\"");
    assert "\"" + (PiecesText(p) + "\"") == "\"" + PiecesText(p) + "\"";
    OccursJoin(t, i, w, "\"" + PiecesText(p) + "\"");
  }

  lemma WordWasRead(t: string, i: nat, j: nat, number: Strtod, w: string) returns (n: Node)
    requires i <= |t| && j == i + |w| < |t| && SkipSpace(t, i) == j && Ws(w) && Occurs(t, i, w)
    requires t[j] in "nft" && Parse(t, i, number).Some?
    ensures ReadAs(t, i, number, w, n)
  {
    hide Parse, Ws, Occurs, SkipSpace;
    ParsedBy(t, i, j, number);
    OccursAt(t, j, t[j]);
    n := if t[j] == 'n' then NullText else if t[j] == 't' then TrueText else FalseText;
    var s := Text(n, number);
    OccursJoin(t, j, [t[j]], s[1..]);
    assert [t[j]] + s[1..] == s;
    OccursJoin(t, i, w, s);
  }

  // ---------------------------------------------------------------- arrays

  lemma ArrayWasRead(t: string, i: nat, j: nat, number: Strtod, w: string) returns (n: Node)
    requires i <= |t| && j == i + |w| < |t| && SkipSpace(t, i) == j && Ws(w) && Occurs(t, i, w)
    requires t[j] == '[' && Parse(t, i, number).Some?
    ensures ReadAs(t, i, number, w, n)
    decreases |t| - i, 0, 0
  {
    hide *;
    ParsedBy(t, i, j, number);
    OccursAt(t, j, '[');
    var items: seq<Item>, inside: string := [], "";
    if Expect(t, j + 1, ']').Some? {
      inside := Expected(t, j + 1, ']');
      EmptyArray(inside, number);
    } else {
      items := ItemsWereRead(t, j + 1, number, []);
      SomeArray(items, number);
      assert [] + Values(items, number) == Values(items, number);
    }
    n := ArrayText(items, inside);
    ArrayParts(items, inside, number);
    var body := if items == [] then inside else ItemsText(items, number);
    OccursJoin(t, j, "[", body + "]");
    assert "[" + (body + "]") == "[" + body + "]";
    OccursJoin(t, i, w, "[" + body + "]");
    NowReadAs(t, i, number, w, n);
  }

  lemma NowReadAs(t: string, i: nat, number: Strtod, w: string, n: Node)
    requires i <= |t| && Ws(w) && Valid(n, number) && Occurs(t, i, w + Text(n, number)) && !n.NumberText?
    requires Parse(t, i, number) == Some(Read(Value(n, number), i + |w| + |Text(n, number)|, false))
    ensures ReadAs(t, i, number, w, n)
  {
    hide Ws, Valid, Text, Value, Occurs, Parse;
  }

  lemma EmptyArray(inside: string, number: Strtod)
    requires Ws(inside)
    ensures Valid(ArrayText([], inside), number)
  {}

  lemma SomeArray(items: seq<Item>, number: Strtod)
    requires ValidItems(items, number)
    ensures Valid(ArrayText(items, ""), number)
  {
    hide Ws;
    assert Ws("") by { NoWs(); }
  }

  lemma NoWs()
    ensures Ws("")
  {}

  lemma ItemsBy(t: string, i: nat, number: Strtod, done: seq<Json>)
    requires i <= |t| && ParseItems(t, i, number, done).Some?
    ensures Parse(t, i, number).Some?
    ensures var r := Parse(t, i, number).value;
            && (Expect(t, r.end, ',').Some? ==>
                  ParseItems(t, i, number, done)
                  == ParseItems(t, Expect(t, r.end, ',').value, number, done + [r.value]))
            && (Expect(t, r.end, ',').None? ==>
                  && Expect(t, r.end, ']').Some?
                  && ParseItems(t, i, number, done)
                     == Some(Read(Arr(done + [r.value]), Expect(t, r.end, ']').value, false)))
  {
    hide Parse, Expect;
  }

  lemma {:induction false} ItemsWereRead(t: string, i: nat, number: Strtod, done: seq<Json>) returns (items: seq<Item>)
    requires i <= |t| && ParseItems(t, i, number, done).Some?
    ensures items != [] && ValidItems(items, number) && Occurs(t, i, ItemsText(items, number) + "]")
    ensures ParseItems(t, i, number, done)
         == Some(Read(Arr(done + Values(items, number)), i + |ItemsText(items, number)| + 1, false))
    decreases |t| - i, 1
  {
    hide *;
    ItemsBy(t, i, number, done);
    var w, n := AcceptedIsText(t, i, number);
    ReadAsParts(t, i, number, w, n);
    var s, v, r := Text(n, number), Value(n, number), Parse(t, i, number).value;
    var head := w + s;
    var after: string;
    if Expect(t, r.end, ',').Some? {
      after := Expected(t, r.end, ',');
      var more := ItemsWereRead(t, Expect(t, r.end, ',').value, number, done + [v]);
      items := [Item(w, n, after)] + more;
      ItemInFront(Item(w, n, after), more, number);
      ItemsParts(items, number);
      assert items[1..] == more;
      OccursJoin(t, i, head, after + ",");
      OccursJoin(t, i, head + (after + ","), ItemsText(more, number) + "]");
      assert head + (after + ",") + (ItemsText(more, number) + "]") == ItemsText(items, number) + "]";
      assert done + [v] + Values(more, number) == done + Values(items, number);
    } else {
      after := Expected(t, r.end, ']');
      items := [Item(w, n, after)];
      ItemInFront(Item(w, n, after), [], number);
      assert items == [Item(w, n, after)] + [];
      ItemsParts(items, number);
      assert items[1..] == [];
      assert done + [v] == done + Values(items, number);
      OccursJoin(t, i, head, after + "]");
      assert head + (after + "]") == ItemsText(items, number) + "]";
    }
  }

  lemma ItemInFront(x: Item, more: seq<Item>, number: Strtod)
    requires Ws(x.before) && Ws(x.after) && Valid(x.value, number) && (more == [] || ValidItems(more, number))
    ensures ValidItems([x] + more, number)
  {
    hide Ws, Valid;
  }

  // ---------------------------------------------------------------- objects

  lemma ObjectWasRead(t: string, i: nat, j: nat, number: Strtod, w: string) returns (n: Node)
    requires i <= |t| && j == i + |w| < |t| && SkipSpace(t, i) == j && Ws(w) && Occurs(t, i, w)
    requires t[j] == '{' && Parse(t, i, number).Some?
    ensures ReadAs(t, i, number, w, n)
    decreases |t| - i, 0, 0
  {
    hide *;
    ParsedBy(t, i, j, number);
    OccursAt(t, j, '{');
    var pairs: seq<Pair>, inside: string := [], "";
    if Expect(t, j + 1, '}').Some? {
      inside := Expected(t, j + 1, '}');
      EmptyObject(inside, number);
    } else {
      pairs := PairsWereRead(t, j + 1, number, []);
      SomeObject(pairs, number);
    }
    n := ObjectText(pairs, inside);
    ObjectParts(pairs, inside, number);
    var body := if pairs == [] then inside else PairsText(pairs, number);
    OccursJoin(t, j, "{", body + "}");
    assert "{" + (body + "}") == "{" + body + "}";
    OccursJoin(t, i, w, "{" + body + "}");
    NowReadAs(t, i, number, w, n);
  }

  lemma EmptyObject(inside: string, number: Strtod)
    requires Ws(inside)
    ensures Valid(ObjectText([], inside), number)
  {}

  lemma SomeObject(pairs: seq<Pair>, number: Strtod)
    requires ValidPairs(pairs, number)
    ensures Valid(ObjectText(pairs, ""), number)
  {
    hide Ws, ValidPieces;
    assert Ws("") by { NoWs(); }
  }

  lemma MembersBy(t: string, i: nat, number: Strtod, done: seq<Member>)
    requires i <= |t| && ParseMembers(t, i, number, done).Some?
    ensures ParseKey(t, i).Some?
    ensures var (key, j) := ParseKey(t, i).value;
            && Parse(t, j, number).Some?
            && var r := Parse(t, j, number).value;
               && (Expect(t, r.end, ',').Some? ==>
                     ParseMembers(t, i, number, done)
                     == ParseMembers(t, Expect(t, r.end, ',').value, number, Insert(done, key, r.value)))
               && (Expect(t, r.end, ',').None? ==>
                     && Expect(t, r.end, '}').Some?
                     && ParseMembers(t, i, number, done)
                        == Some(Read(Obj(Insert(done, key, r.value)), Expect(t, r.end, '}').value, false)))
  {
    hide Parse, Expect, ParseKey, Insert;
  }

  lemma KeyBy(t: string, i: nat)
    requires i <= |t| && ParseKey(t, i).Some?
    ensures Expect(t, i, '\"').Some?
    ensures var s := ReadString(t, Expect(t, i, '\"').value);
            s.Some? && Expect(t, s.value.1, ':').Some?
            && ParseKey(t, i) == Some((s.value.0, Expect(t, s.value.1, ':').value))
  {
    hide Expect, ReadString;
  }

  /** A key, with what stands before, behind and after it. */
  lemma KeyWasRead(t: string, i: nat) returns (before: string, key: seq<Piece>, behind: string)
    requires i <= |t| && ParseKey(t, i).Some?
    ensures Ws(before) && ValidPieces(key) && Ws(behind)
    ensures var head := before + ("\"" + PiecesText(key) + "\"") + behind + ":";
            Occurs(t, i, head) && ParseKey(t, i) == Some((Meanings(key), i + |head|))
  {
    hide *;
    KeyBy(t, i);
    before := Expected(t, i, '\"');
    var j := i + |before| + 1;
    key := StringWasRead(t, j);
    var s := PiecesText(key) + "\"";
    behind := Expected(t, j + |s|, ':');
    OccursJoin(t, i, before + "\"", s);
    OccursJoin(t, i, before + "\"" + s, behind + ":");
    assert before + "\"" + s + (behind + ":") == before + ("\"" + PiecesText(key) + "\"") + behind + ":";
  }

  lemma {:induction false} PairsWereRead(t: string, i: nat, number: Strtod, done: seq<Member>)
    returns (pairs: seq<Pair>)
    requires i <= |t| && ParseMembers(t, i, number, done).Some?
    ensures pairs != [] && ValidPairs(pairs, number) && Occurs(t, i, PairsText(pairs, number) + "}")
    ensures ParseMembers(t, i, number, done)
         == Some(Read(Obj(Collect(done, pairs, number)), i + |PairsText(pairs, number)| + 1, false))
    decreases |t| - i, 1
  {
    hide *;
    MembersBy(t, i, number, done);
    var before, key, behind := KeyWasRead(t, i);
    var head := before + ("\"" + PiecesText(key) + "\"") + behind + ":";
    var j := i + |head|;
    OccursFits(t, i, head);
    var w, n := AcceptedIsText(t, j, number);
    ReadAsParts(t, j, number, w, n);
    var s, v, r := Text(n, number), Value(n, number), Parse(t, j, number).value;
    OccursJoin(t, i, head, w + s);
    var front := head + (w + s);
    var next := Insert(done, Meanings(key), v);
    var after: string;
    if Expect(t, r.end, ',').Some? {
      after := Expected(t, r.end, ',');
      var more := PairsWereRead(t, Expect(t, r.end, ',').value, number, next);
      var x := Pair(before, key, behind, w, n, after);
      pairs := [x] + more;
      PairInFront(x, more, number);
      PairsParts(pairs, number, done);
      assert pairs[1..] == more;
      OccursJoin(t, i, front, after + ",");
      OccursJoin(t, i, front + (after + ","), PairsText(more, number) + "}");
      RestOfPairs(before, "\"" + PiecesText(key) + "\"", behind, w, s, after, PairsText(more, number));
    } else {
      after := Expected(t, r.end, '}');
      var x := Pair(before, key, behind, w, n, after);
      pairs := [x];
      PairInFront(x, [], number);
      assert pairs == [x] + [];
      PairsParts(pairs, number, done);
      assert pairs[1..] == [];
      NothingCollected(next, number);
      OccursJoin(t, i, front, after + "}");
      LastPair(before, "\"" + PiecesText(key) + "\"", behind, w, s, after);
    }
  }

  lemma RestOfPairs(before: string, q: string, behind: string, w: string, s: string, after: string, more: string)
    ensures before + q + behind + ":" + (w + s) + (after + ",") + (more + "}")
         == before + q + behind + ":" + w + s + after + ("," + more) + "}"
  {
    var a, b := before + q + behind + ":" + w + s + after + ",", more + "}";
    assert before + q + behind + ":" + (w + s) + (after + ",") == a;
    assert before + q + behind + ":" + w + s + after + ("," + more) == a + more;
    assert a + more + "}" == a + b;
  }

  lemma LastPair(before: string, q: string, behind: string, w: string, s: string, after: string)
    ensures before + q + behind + ":" + (w + s) + (after + "}")
         == before + q + behind + ":" + w + s + after + "" + "}"
  {
    var a := before + q + behind + ":" + w + s;
    assert before + q + behind + ":" + (w + s) == a;
    assert a + after + "" + "}" == a + (after + "}");
  }

  lemma PairInFront(x: Pair, more: seq<Pair>, number: Strtod)
    requires Ws(x.before) && ValidPieces(x.key) && Ws(x.behind) && Ws(x.gap) && Ws(x.after)
    requires Valid(x.value, number) && (more == [] || ValidPairs(more, number))
    ensures ValidPairs([x] + more, number)
  {
    hide Ws, Valid, ValidPieces;
  }

  // ---------------------------------------------------------------- the language

  /** t is white space, the text of the tree n, and a rest that does not go on with a number. */
  ghost predicate Begins(t: string, number: Strtod, w: string, n: Node, rest: string) {
    Ws(w) && Valid(n, number) && t == w + Text(n, number) + rest && (n.NumberText? ==> NumberStops(rest, 0))
  }

  /** The reader accepts a text exactly when it begins with one of the grammar, and delivers its value. */
  lemma AcceptsExactly(t: string, number: Strtod)
    ensures Parse(t, 0, number).Some? <==> exists w, n, rest :: Begins(t, number, w, n, rest)
    ensures forall w, n, rest | Begins(t, number, w, n, rest) ::
              Parse(t, 0, number)
              == Some(Read(Value(n, number), |w| + |Text(n, number)|, n.NumberText? && rest != ""))
  {
    hide Parse, Text, Value, Valid, Ws;
    forall w, n, rest | Begins(t, number, w, n, rest)
      ensures Parse(t, 0, number)
           == Some(Read(Value(n, number), |w| + |Text(n, number)|, n.NumberText? && rest != ""))
    {
      EveryTextIsRead(w, n, rest, number);
    }
    if Parse(t, 0, number).Some? {
      var w, n := AcceptedIsText(t, 0, number);
      ReadAsParts(t, 0, number, w, n);
      var s := w + Text(n, number);
      assert t == s + t[|s|..];
      assert Begins(t, number, w, n, t[|s|..]);
    }
  }
}
