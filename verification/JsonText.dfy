/** The texts of RFC 8259 as trees, white space and escapes included; that the reader reads every one of
    them as the value it stands for, and that both printers write such texts. */
module JsonText {
  import opened Outcomes
  import opened Json

  // ---------------------------------------------------------------- the grammar

  /** White space, section 2: space, horizontal tab, line feed, carriage return. */
  predicate Ws(w: string) {
    forall c | c in w :: c as int == 0x20 || c as int == 0x09 || c as int == 0x0a || c as int == 0x0d
  }

  datatype Hex = Hex(n: nat, upper: bool)

  datatype Quad = Quad(a: Hex, b: Hex, c: Hex, d: Hex)

  /** What a string is made of, section 7: a character as it is, a backslash and a letter, or one code
      unit or a surrogate pair in hexadecimal. */
  datatype Piece = Plain(c: char) | Short(letter: char) | Unit(q: Quad) | Surrogates(high: Quad, low: Quad)

  datatype Node =
    | NullText
    | TrueText
    | FalseText
    | NumberText(d: string)
    | StringText(p: seq<Piece>)
    | ArrayText(items: seq<Item>, inside: string)
    | ObjectText(pairs: seq<Pair>, inside: string)

  /** An element of an array with the white space around it. */
  datatype Item = Item(before: string, value: Node, after: string)

  datatype Pair = Pair(before: string, key: seq<Piece>, behind: string, gap: string, value: Node, after: string)

  // ---------------------------------------------------------------- the text of a tree

  function HexText(h: Hex): string
    requires h.n < 16
  {
    if h.upper then ["0123456789ABCDEF"[h.n]] else ["0123456789abcdef"[h.n]]
  }

  predicate ValidQuad(q: Quad) { q.a.n < 16 && q.b.n < 16 && q.c.n < 16 && q.d.n < 16 }

  function QuadText(q: Quad): (s: string)
    requires ValidQuad(q)
    ensures |s| == 4
  {
    HexText(q.a) + HexText(q.b) + HexText(q.c) + HexText(q.d)
  }

  function CodeUnit(q: Quad): (u: nat)
    requires ValidQuad(q)
    ensures u < 0x1_0000
  {
    0x1000 * q.a.n + 0x100 * q.b.n + 0x10 * q.c.n + q.d.n
  }

  predicate ValidPiece(p: Piece) {
    match p
    case Plain(c) => c as int >= 0x20 && c as int != 0x22 && c as int != 0x5c
    case Short(l) => l in "\"\\/bfnrt"
    case Unit(q) => ValidQuad(q) && !(0xd800 <= CodeUnit(q) < 0xe000)
    case Surrogates(h, l) =>
      ValidQuad(h) && ValidQuad(l) && 0xd800 <= CodeUnit(h) < 0xdc00 && 0xdc00 <= CodeUnit(l) < 0xe000
  }

  function PieceText(p: Piece): string
    requires ValidPiece(p)
  {
    match p
    case Plain(c) => [c]
    case Short(l) => "\\" + [l]
    case Unit(q) => "\\u" + QuadText(q)
    case Surrogates(h, l) => "\\u" + QuadText(h) + ("\\u" + QuadText(l))
  }

  /** The bytes a piece stands for. */
  function Meaning(p: Piece): string
    requires ValidPiece(p)
  {
    match p
    case Plain(c) => [c]
    case Short(l) =>
      if l == 'b' then [0x08 as char]
      else if l == 't' then [0x09 as char]
      else if l == 'n' then [0x0a as char]
      else if l == 'f' then [0x0c as char]
      else if l == 'r' then [0x0d as char]
      else [l]
    case Unit(q) => Utf8(CodeUnit(q))
    case Surrogates(h, l) => Utf8(0x1_0000 + 0x400 * (CodeUnit(h) - 0xd800) + (CodeUnit(l) - 0xdc00))
  }

  predicate ValidPieces(p: seq<Piece>) { forall x | x in p :: ValidPiece(x) }

  function PiecesText(p: seq<Piece>): string
    requires ValidPieces(p)
  {
    if p == [] then "" else PieceText(p[0]) + PiecesText(p[1..])
  }

  function Meanings(p: seq<Piece>): string
    requires ValidPieces(p)
  {
    if p == [] then "" else Meaning(p[0]) + Meanings(p[1..])
  }

  /** The characters of section 6: digits, plus, minus, point, and the letter e of either case. */
  predicate NumberChar(c: char) {
    var u := c as int;
    0x30 <= u <= 0x39 || u == 0x2b || u == 0x2d || u == 0x2e || u == 0x65 || u == 0x45
  }

  /** A digit or a minus. */
  predicate NumberStart(c: char) { 0x30 <= c as int <= 0x39 || c as int == 0x2d }

  /** Every number of section 6 is such a text. */
  predicate NumberLike(d: string) { d != "" && NumberStart(d[0]) && forall c | c in d :: NumberChar(c) }

  predicate Valid(n: Node, number: Strtod)
    decreases n
  {
    match n
    case NumberText(d) => NumberLike(d) && number(d).Some?
    case StringText(p) => ValidPieces(p)
    case ArrayText(items, w) => Ws(w) && forall x | x in items :: Ws(x.before) && Ws(x.after) && Valid(x.value, number)
    case ObjectText(pairs, w) =>
      && Ws(w)
      && forall x | x in pairs ::
           && Ws(x.before) && ValidPieces(x.key) && Ws(x.behind) && Ws(x.gap)
           && Ws(x.after) && Valid(x.value, number)
    case _ => true
  }

  predicate ValidItems(items: seq<Item>, number: Strtod) {
    forall x | x in items :: Ws(x.before) && Ws(x.after) && Valid(x.value, number)
  }

  predicate ValidPairs(pairs: seq<Pair>, number: Strtod) {
    forall x | x in pairs ::
      && Ws(x.before) && ValidPieces(x.key) && Ws(x.behind) && Ws(x.gap)
      && Ws(x.after) && Valid(x.value, number)
  }

  function Text(n: Node, number: Strtod): string
    requires Valid(n, number)
    decreases n, 0
  {
    match n
    case NullText => "null"
    case TrueText => "true"
    case FalseText => "false"
    case NumberText(d) => d
    case StringText(p) => "\"" + PiecesText(p) + "\""
    case ArrayText(items, w) => "[" + (if items == [] then w else ItemsText(items, number)) + "]"
    case ObjectText(pairs, w) => "{" + (if pairs == [] then w else PairsText(pairs, number)) + "}"
  }

  function ItemsText(items: seq<Item>, number: Strtod): string
    requires items != [] && ValidItems(items, number)
    decreases items, 1
  {
    items[0].before + Text(items[0].value, number) + items[0].after
    + (if |items| == 1 then "" else "," + ItemsText(items[1..], number))
  }

  function PairsText(pairs: seq<Pair>, number: Strtod): string
    requires pairs != [] && ValidPairs(pairs, number)
    decreases pairs, 1
  {
    var x := pairs[0];
    x.before + ("\"" + PiecesText(x.key) + "\"") + x.behind + ":" + x.gap + Text(x.value, number) + x.after
    + (if |pairs| == 1 then "" else "," + PairsText(pairs[1..], number))
  }

  // ---------------------------------------------------------------- the value of a tree

  function Value(n: Node, number: Strtod): Json
    requires Valid(n, number)
    decreases n, 0
  {
    match n
    case NullText => Null
    case TrueText => Bool(true)
    case FalseText => Bool(false)
    case NumberText(d) => Bool(number(d).value)
    case StringText(p) => Str(Meanings(p))
    case ArrayText(items, _) => Arr(Values(items, number))
    case ObjectText(pairs, _) => Obj(Collect([], pairs, number))
  }

  function Values(items: seq<Item>, number: Strtod): (vs: seq<Json>)
    requires ValidItems(items, number)
    decreases items, 1
  {
    if items == [] then [] else [Value(items[0].value, number)] + Values(items[1..], number)
  }

  /** The members, each inserted in turn. */
  function Collect(done: seq<Member>, pairs: seq<Pair>, number: Strtod): seq<Member>
    requires ValidPairs(pairs, number)
    decreases pairs, 1
  {
    if pairs == [] then done
    else Collect(Insert(done, Meanings(pairs[0].key), Value(pairs[0].value, number)), pairs[1..], number)
  }

  /** The value of the last pair with this key. */
  function LastOf(pairs: seq<Pair>, key: string, number: Strtod): Option<Json>
    requires ValidPairs(pairs, number)
  {
    if pairs == [] then None
    else match LastOf(pairs[1..], key, number)
         case Some(v) => Some(v)
         case None => if Meanings(pairs[0].key) == key then Some(Value(pairs[0].value, number)) else None
  }

  /** Of several members with the same key the last one counts. */
  lemma {:induction false} LastPairCounts(done: seq<Member>, pairs: seq<Pair>, key: string, number: Strtod)
    requires ValidPairs(pairs, number)
    ensures Lookup(Collect(done, pairs, number), key)
         == match LastOf(pairs, key, number) case Some(v) => Some(v) case None => Lookup(done, key)
    decreases |pairs|
  {
    hide Value, Meanings, Insert, Lookup, Valid, Ws, ValidPieces;
    if pairs != [] {
      var k, v := Meanings(pairs[0].key), Value(pairs[0].value, number);
      LastPairCounts(Insert(done, k, v), pairs[1..], key, number);
      InsertStores(done, k, v, key);
    }
  }

  // ---------------------------------------------------------------- reading white space and strings

  lemma WsIsSpace(w: string)
    ensures AllSpace(w) <==> Ws(w)
  {}

  /** Exactly the four characters of section 2 are skipped, and nothing else. */
  lemma SpaceIsSkipped(t: string, i: nat, w: string)
    requires Occurs(t, i, w) && Ws(w) && (i + |w| == |t| || !Ws([t[i + |w|]]))
    ensures i <= |t| && SkipSpace(t, i) == i + |w|
  {
    WsIsSpace(w);
    if i + |w| < |t| {
      assert [t[i + |w|]][0] == t[i + |w|];
      WsIsSpace([t[i + |w|]]);
    }
    SkipsOver(t, i, w);
  }

  lemma HexIsRead(h: Hex)
    requires h.n < 16
    ensures |HexText(h)| == 1 && HexValue(HexText(h)[0]) == Some(h.n)
  {}

  lemma QuadIsRead(t: string, i: nat, q: Quad)
    requires ValidQuad(q) && Occurs(t, i, QuadText(q))
    ensures QuadHex(t, i) == Some(CodeUnit(q))
  {
    hide HexText, HexValue;
    var s := QuadText(q);
    HexIsRead(q.a);
    HexIsRead(q.b);
    HexIsRead(q.c);
    HexIsRead(q.d);
    assert s == [HexText(q.a)[0], HexText(q.b)[0], HexText(q.c)[0], HexText(q.d)[0]];
    assert forall k | 0 <= k < 4 :: t[i + k] == t[i..i + 4][k] == s[k];
  }

  /** Where the escape of a code unit or a surrogate pair ends, and what it stands for. */
  lemma CodeIsRead(t: string, i: nat, p: Piece)
    requires ValidPiece(p) && (p.Unit? || p.Surrogates?) && Occurs(t, i, PieceText(p))
    ensures i + |PieceText(p)| <= |t| && t[i] == '\\' && t[i + 1] == 'u'
    ensures Unescape(t, i + 1) == Some((Meaning(p), i + |PieceText(p)|))
  {
    hide QuadHex, QuadText, CodeUnit, Utf8, Occurs;
    OccursFits(t, i, PieceText(p));
    match p
    case Unit(q) =>
      OccursInTwo(t, i, "\\u", QuadText(q));
      EscapeBegins(t, i);
      QuadIsRead(t, i + 2, q);
    case Surrogates(h, l) =>
      OccursInTwo(t, i, "\\u" + QuadText(h), "\\u" + QuadText(l));
      OccursInTwo(t, i, "\\u", QuadText(h));
      OccursInTwo(t, i + 6, "\\u", QuadText(l));
      EscapeBegins(t, i);
      QuadIsRead(t, i + 2, h);
      QuadIsRead(t, i + 8, l);
    case _ =>
  }

  lemma PieceIsRead(t: string, i: nat, p: Piece)
    requires ValidPiece(p) && Occurs(t, i, PieceText(p))
    ensures i + |PieceText(p)| <= |t|
    ensures ReadString(t, i) == Prefixed(Meaning(p), ReadString(t, i + |PieceText(p)|))
  {
    hide ReadString, Prefixed, Unescape;
    match p
    case Plain(c) =>
      OccursAt(t, i, c);
      ReadsPlain(t, i);
    case Short(l) =>
      OccursInTwo(t, i, "\\", [l]);
      OccursAt(t, i, '\\');
      OccursAt(t, i + 1, l);
      LetterIsRead(t, i + 1, l);
      ReadsBackslash(t, i, Meaning(p), i + 2);
    case _ =>
      hide Meaning;
      CodeIsRead(t, i, p);
      ReadsBackslash(t, i, Meaning(p), i + |PieceText(p)|);
  }

  lemma LetterIsRead(t: string, i: nat, l: char)
    requires ValidPiece(Short(l)) && i < |t| && t[i] == l
    ensures Unescape(t, i) == Some((Meaning(Short(l)), i + 1))
  {
    hide CodePoint, Utf8;
  }

  lemma PiecesParts(p: seq<Piece>)
    requires ValidPieces(p)
    ensures p == [] ==> PiecesText(p) == "" && Meanings(p) == ""
    ensures p != [] ==>
              && ValidPiece(p[0]) && ValidPieces(p[1..]) && PiecesText(p) == PieceText(p[0]) + PiecesText(p[1..])
              && Meanings(p) == Meaning(p[0]) + Meanings(p[1..])
  {
    hide PieceText, Meaning, ValidPiece;
  }

  /** Every string of the grammar is read as the bytes it stands for. */
  lemma {:induction false} PiecesAreRead(t: string, i: nat, p: seq<Piece>)
    requires ValidPieces(p) && Occurs(t, i, PiecesText(p)) && Occurs(t, i + |PiecesText(p)|, "\"")
    ensures i <= |t| && ReadString(t, i) == Some((Meanings(p), i + |PiecesText(p)| + 1))
    decreases |p|
  {
    hide *;
    PiecesParts(p);
    if p == [] {
      OccursAt(t, i, '\"');
      ReadsEnd(t, i);
    } else {
      OccursInTwo(t, i, PieceText(p[0]), PiecesText(p[1..]));
      PieceIsRead(t, i, p[0]);
      PiecesAreRead(t, i + |PieceText(p[0])|, p[1..]);
      PrefixedParts(Meaning(p[0]), ReadString(t, i + |PieceText(p[0])|));
    }
  }

  lemma QuotedIsRead(t: string, i: nat, p: seq<Piece>)
    requires ValidPieces(p) && Occurs(t, i, "\"" + PiecesText(p) + "\"")
    ensures Occurs(t, i, "\"") && i + 1 <= |t|
    ensures ReadString(t, i + 1) == Some((Meanings(p), i + |PiecesText(p)| + 2))
  {
    hide *;
    OccursInThree(t, i, "\"", PiecesText(p), "\"");
    PiecesAreRead(t, i + 1, p);
  }

  // ---------------------------------------------------------------- reading values

  predicate NumberStops(t: string, k: nat) { k < |t| ==> !NumberChar(t[k]) }

  lemma NumberCharacters(c: char)
    ensures InNumber(c) <==> NumberChar(c)
    ensures ('0' <= c <= '9' || c == '-') <==> NumberStart(c)
  {}

  /** A number extends as far as its characters do. */
  lemma NumberExtends(t: string, j: nat, d: string)
    requires NumberLike(d) && Occurs(t, j, d) && NumberStops(t, j + |d|)
    ensures j < j + |d| <= |t| && t[j..j + |d|] == d && NumberStart(t[j]) && NumberEnd(t, j) == j + |d|
  {
    hide InNumber, NumberChar, NumberStart;
    var k := j + |d|;
    forall x | j <= x < k ensures InNumber(t[x]) {
      assert t[x] == t[j..k][x - j] && d[x - j] in d;
      NumberCharacters(t[x]);
    }
    assert t[j] == t[j..k][0];
    if k < |t| { NumberCharacters(t[k]); }
    NumberEndsAt(t, j, k);
  }

  lemma NumberIsStored(t: string, i: nat, j: nat, d: string, number: Strtod)
    requires i <= |t| && SkipSpace(t, i) == j && j < j + |d| <= |t| && t[j..j + |d|] == d
    requires NumberStart(t[j]) && NumberEnd(t, j) == j + |d|
    ensures Parse(t, i, number)
         == match number(d) case None => None case Some(b) => Some(Read(Bool(b), j + |d|, j + |d| < |t|))
  {
    hide SkipSpace, NumberEnd;
    NumberCharacters(t[j]);
  }

  lemma NumberIsRead(t: string, i: nat, j: nat, d: string, number: Strtod)
    requires i <= |t| && SkipSpace(t, i) == j && NumberLike(d) && Occurs(t, j, d) && NumberStops(t, j + |d|)
    ensures Parse(t, i, number)
         == match number(d) case None => None case Some(b) => Some(Read(Bool(b), j + |d|, j + |d| < |t|))
  {
    hide *;
    NumberExtends(t, j, d);
    NumberIsStored(t, i, j, d, number);
  }

  lemma WordIsRead(t: string, i: nat, j: nat, n: Node, number: Strtod)
    requires i <= |t| && SkipSpace(t, i) == j && (n.NullText? || n.TrueText? || n.FalseText?)
    requires Occurs(t, j, Text(n, number))
    ensures Parse(t, i, number) == Some(Read(Value(n, number), j + |Text(n, number)|, false))
  {
    hide SkipSpace, Occurs;
    var word := Text(n, number);
    OccursInTwo(t, j, [word[0]], word[1..]);
    assert [word[0]] + word[1..] == word;
    OccursAt(t, j, word[0]);
  }

  /** No text begins with a character that separates or ends values, or with white space. */
  lemma FirstOfText(n: Node, number: Strtod)
    requires Valid(n, number)
    ensures var s := Text(n, number); s != "" && !IsSpace(s[0]) && s[0] != ']' && s[0] != '}'
  {}

  lemma StartsWith(t: string, i: nat, w: string, s: string)
    requires Ws(w) && Occurs(t, i, w) && Occurs(t, i + |w|, s)
    requires s != "" && !IsSpace(s[0]) && s[0] != ']' && s[0] != '}'
    ensures i + |w| < |t| && t[i + |w|] == s[0] && SkipSpace(t, i) == i + |w|
    ensures Expect(t, i, ']') == None && Expect(t, i, '}') == None
  {
    hide Occurs, AllSpace, SkipSpace, IsSpace, Ws;
    WsIsSpace(w);
    FirstOf(t, i + |w|, s);
    SkipsOver(t, i, w);
  }

  /** Behind a value come white space and one character of punctuation. */
  lemma BehindValue(t: string, k: nat, w: string, c: char, wanted: char)
    requires Ws(w) && Occurs(t, k, w) && Occurs(t, k + |w|, [c]) && c in ",:]}\""
    ensures k <= |t| && NumberStops(t, k) && Expect(t, k, wanted) == if c == wanted then Some(k + |w| + 1) else None
  {
    hide Expect;
    WsIsSpace(w);
    OccursAt(t, k + |w|, c);
    if w != "" {
      FirstOf(t, k, w);
      assert w[0] in w;
    }
    ExpectsPrinted(t, k, w, c, wanted);
  }

  /** Every text of the grammar, behind any white space, is read as its value, and the reader stops where
      the text ends. */
  lemma {:induction false} TextIsRead(t: string, i: nat, w: string, n: Node, number: Strtod)
    requires Valid(n, number) && Ws(w) && Occurs(t, i, w) && Occurs(t, i + |w|, Text(n, number))
    requires n.NumberText? ==> NumberStops(t, i + |w| + |Text(n, number)|)
    ensures var end := i + |w| + |Text(n, number)|;
            i <= |t| && Parse(t, i, number) == Some(Read(Value(n, number), end, n.NumberText? && end < |t|))
    decreases n, 0
  {
    hide *;
    var j, s := i + |w|, Text(n, number);
    FirstOfText(n, number);
    StartsWith(t, i, w, s);
    match n
    case NullText => WordIsRead(t, i, j, n, number);
    case TrueText => WordIsRead(t, i, j, n, number);
    case FalseText => WordIsRead(t, i, j, n, number);
    case NumberText(d) =>
      NumberParts(d, number);
      NumberIsRead(t, i, j, d, number);
    case StringText(p) =>
      StringParts(p, number);
      QuotedIsRead(t, j, p);
      OccursAt(t, j, '\"');
      ReadsString(t, i, j, number);
    case ArrayText(items, inside) => ArrayIsRead(t, i, j, items, inside, number);
    case ObjectText(pairs, inside) => ObjectIsRead(t, i, j, pairs, inside, number);
  }

  lemma NumberParts(d: string, number: Strtod)
    requires Valid(NumberText(d), number)
    ensures Text(NumberText(d), number) == d && NumberLike(d) && number(d).Some?
    ensures Value(NumberText(d), number) == Bool(number(d).value)
  {}

  lemma StringParts(p: seq<Piece>, number: Strtod)
    requires Valid(StringText(p), number)
    ensures ValidPieces(p) && Text(StringText(p), number) == "\"" + PiecesText(p) + "\""
    ensures Value(StringText(p), number) == Str(Meanings(p))
  {}

  lemma ArrayParts(items: seq<Item>, inside: string, number: Strtod)
    requires Valid(ArrayText(items, inside), number)
    ensures ValidItems(items, number) && Ws(inside)
    ensures Text(ArrayText(items, inside), number)
         == "[" + (if items == [] then inside else ItemsText(items, number)) + "]"
    ensures Value(ArrayText(items, inside), number) == Arr(Values(items, number))
    ensures Values([], number) == []
  {
    hide Ws, ItemsText;
  }

  lemma ItemsParts(items: seq<Item>, number: Strtod)
    requires items != [] && ValidItems(items, number)
    ensures var x := items[0];
            && Ws(x.before) && Ws(x.after) && Valid(x.value, number) && ValidItems(items[1..], number)
            && ItemsText(items, number) == x.before + Text(x.value, number) + x.after
                                           + (if |items| == 1 then "" else "," + ItemsText(items[1..], number))
            && Values(items, number) == [Value(x.value, number)] + Values(items[1..], number)
    ensures Values([], number) == []
  {
    hide Ws, Text, Value, Valid;
  }

  lemma {:induction false} ArrayIsRead(t: string, i: nat, j: nat, items: seq<Item>, inside: string, number: Strtod)
    requires i <= |t| && SkipSpace(t, i) == j && Valid(ArrayText(items, inside), number)
    requires Occurs(t, j, Text(ArrayText(items, inside), number))
    ensures Parse(t, i, number)
         == Some(Read(Value(ArrayText(items, inside), number), j + |Text(ArrayText(items, inside), number)|, false))
    decreases items, 3
  {
    hide *;
    ArrayParts(items, inside, number);
    var body := if items == [] then inside else ItemsText(items, number);
    OccursInThree(t, j, "[", body, "]");
    OccursAt(t, j, '[');
    ReadsArray(t, i, j, number);
    if items == [] {
      BehindValue(t, j + 1, inside, ']', ']');
    } else {
      ItemsAreRead(t, j + 1, items, number, []);
      assert [] + Values(items, number) == Values(items, number);
    }
  }

  lemma {:induction false} ItemsAreRead(t: string, i: nat, items: seq<Item>, number: Strtod, done: seq<Json>)
    requires items != [] && ValidItems(items, number)
    requires Occurs(t, i, ItemsText(items, number)) && Occurs(t, i + |ItemsText(items, number)|, "]")
    ensures i <= |t| && Expect(t, i, ']') == None
    ensures ParseItems(t, i, number, done)
         == Some(Read(Arr(done + Values(items, number)), i + |ItemsText(items, number)| + 1, false))
    decreases items, 2
  {
    hide *;
    var x := items[0];
    ItemsParts(items, number);
    var s := Text(x.value, number);
    var rest := if |items| == 1 then "" else "," + ItemsText(items[1..], number);
    OccursInTwo(t, i, x.before + s + x.after, rest);
    OccursInThree(t, i, x.before, s, x.after);
    FirstOfText(x.value, number);
    StartsWith(t, i, x.before, s);
    var k := i + |x.before| + |s|;
    var v := Value(x.value, number);
    if |items| == 1 {
      BehindValue(t, k, x.after, ']', ',');
      BehindValue(t, k, x.after, ']', ']');
      TextIsRead(t, i, x.before, x.value, number);
      ReadsItem(t, i, number, done, v, k, x.value.NumberText? && k < |t|);
      assert items[1..] == [];
      assert done + [v] == done + Values(items, number);
    } else {
      OccursInTwo(t, k + |x.after|, ",", ItemsText(items[1..], number));
      BehindValue(t, k, x.after, ',', ',');
      TextIsRead(t, i, x.before, x.value, number);
      ReadsItem(t, i, number, done, v, k, x.value.NumberText? && k < |t|);
      ItemsAreRead(t, k + |x.after| + 1, items[1..], number, done + [v]);
      assert done + [v] + Values(items[1..], number) == done + Values(items, number);
    }
  }

  lemma ObjectParts(pairs: seq<Pair>, inside: string, number: Strtod)
    requires Valid(ObjectText(pairs, inside), number)
    ensures ValidPairs(pairs, number) && Ws(inside)
    ensures Text(ObjectText(pairs, inside), number)
         == "{" + (if pairs == [] then inside else PairsText(pairs, number)) + "}"
    ensures Value(ObjectText(pairs, inside), number) == Obj(Collect([], pairs, number))
    ensures Collect([], [], number) == []
  {
    hide Ws, PairsText, ValidPieces;
  }

  lemma PairsParts(pairs: seq<Pair>, number: Strtod, done: seq<Member>)
    requires pairs != [] && ValidPairs(pairs, number)
    ensures var x := pairs[0];
            && Ws(x.before) && ValidPieces(x.key) && Ws(x.behind) && Ws(x.gap) && Ws(x.after)
            && Valid(x.value, number) && ValidPairs(pairs[1..], number)
            && PairsText(pairs, number)
                 == x.before + ("\"" + PiecesText(x.key) + "\"") + x.behind + ":" + x.gap + Text(x.value, number)
                    + x.after + (if |pairs| == 1 then "" else "," + PairsText(pairs[1..], number))
            && Collect(done, pairs, number)
                 == Collect(Insert(done, Meanings(x.key), Value(x.value, number)), pairs[1..], number)
    ensures Collect(done, [], number) == done
  {
    hide Ws, Text, Value, Valid, PiecesText, Meanings, ValidPieces, Insert;
  }

  lemma {:induction false} ObjectIsRead(t: string, i: nat, j: nat, pairs: seq<Pair>, inside: string, number: Strtod)
    requires i <= |t| && SkipSpace(t, i) == j && Valid(ObjectText(pairs, inside), number)
    requires Occurs(t, j, Text(ObjectText(pairs, inside), number))
    ensures Parse(t, i, number)
         == Some(Read(Value(ObjectText(pairs, inside), number), j + |Text(ObjectText(pairs, inside), number)|, false))
    decreases pairs, 3
  {
    hide *;
    ObjectParts(pairs, inside, number);
    var body := if pairs == [] then inside else PairsText(pairs, number);
    OccursInThree(t, j, "{", body, "}");
    OccursAt(t, j, '{');
    ReadsObject(t, i, j, number);
    if pairs == [] {
      BehindValue(t, j + 1, inside, '}', '}');
    } else {
      PairsAreRead(t, j + 1, pairs, number, []);
    }
  }

  /** A key of the grammar and its colon. */
  lemma KeyIsRead(t: string, i: nat, x: Pair)
    requires Ws(x.before) && ValidPieces(x.key) && Ws(x.behind)
    requires Occurs(t, i, x.before + ("\"" + PiecesText(x.key) + "\"") + x.behind + ":")
    ensures i <= |t| && Expect(t, i, '}') == None
    ensures ParseKey(t, i)
         == Some((Meanings(x.key), i + |x.before| + |PiecesText(x.key)| + 2 + |x.behind| + 1))
  {
    hide *;
    var q := "\"" + PiecesText(x.key) + "\"";
    OccursInTwo(t, i, x.before + q + x.behind, ":");
    OccursInThree(t, i, x.before, q, x.behind);
    QuotedIsRead(t, i + |x.before|, x.key);
    BehindValue(t, i, x.before, '\"', '\"');
    BehindValue(t, i, x.before, '\"', '}');
    var k := i + |x.before| + |q|;
    BehindValue(t, k, x.behind, ':', ':');
    ReadsKeyParts(t, i, i + |x.before| + 1, Meanings(x.key), k);
  }

  lemma ReadsKeyParts(t: string, i: nat, j: nat, key: string, k: nat)
    requires i <= |t| && Expect(t, i, '\"') == Some(j) && j <= |t| && ReadString(t, j) == Some((key, k))
    requires k <= |t| && Expect(t, k, ':').Some?
    ensures ParseKey(t, i) == Some((key, Expect(t, k, ':').value))
  {
    hide Expect, ReadString;
  }

  lemma {:induction false} PairsAreRead(t: string, i: nat, pairs: seq<Pair>, number: Strtod, done: seq<Member>)
    requires pairs != [] && ValidPairs(pairs, number)
    requires Occurs(t, i, PairsText(pairs, number)) && Occurs(t, i + |PairsText(pairs, number)|, "}")
    ensures i <= |t| && Expect(t, i, '}') == None
    ensures ParseMembers(t, i, number, done)
         == Some(Read(Obj(Collect(done, pairs, number)), i + |PairsText(pairs, number)| + 1, false))
    decreases pairs, 2
  {
    hide *;
    var x := pairs[0];
    PairsParts(pairs, number, done);
    var head := x.before + ("\"" + PiecesText(x.key) + "\"") + x.behind + ":";
    var s := Text(x.value, number);
    var rest := if |pairs| == 1 then "" else "," + PairsText(pairs[1..], number);
    OccursInTwo(t, i, head + x.gap + s + x.after, rest);
    OccursInTwo(t, i, head + x.gap + s, x.after);
    OccursInThree(t, i, head, x.gap, s);
    KeyIsRead(t, i, x);
    var j := i + |head|;
    var k := j + |x.gap| + |s|;
    var v, key := Value(x.value, number), Meanings(x.key);
    PairsParts(pairs, number, done);
    if |pairs| == 1 {
      BehindValue(t, k, x.after, '}', ',');
      BehindValue(t, k, x.after, '}', '}');
      TextIsRead(t, j, x.gap, x.value, number);
      ReadsMember(t, i, number, done, key, j, v, k, x.value.NumberText? && k < |t|);
      assert pairs[1..] == [];
      NothingCollected(Insert(done, key, v), number);
    } else {
      OccursInTwo(t, k + |x.after|, ",", PairsText(pairs[1..], number));
      BehindValue(t, k, x.after, ',', ',');
      TextIsRead(t, j, x.gap, x.value, number);
      ReadsMember(t, i, number, done, key, j, v, k, x.value.NumberText? && k < |t|);
      PairsAreRead(t, k + |x.after| + 1, pairs[1..], number, Insert(done, key, v));
    }
  }

  lemma NothingCollected(done: seq<Member>, number: Strtod)
    ensures Collect(done, [], number) == done
  {}

  /** The reader against RFC 8259: every JSON text, whatever precedes it as white space and follows it, is
      read as its value. */
  lemma EveryTextIsRead(before: string, n: Node, rest: string, number: Strtod)
    requires Ws(before) && Valid(n, number) && (n.NumberText? ==> NumberStops(rest, 0))
    ensures var text := before + Text(n, number);
            Parse(text + rest, 0, number) == Some(Read(Value(n, number), |text|, n.NumberText? && rest != ""))
  {
    hide Text, Value, Valid, Ws, Parse;
    var s := Text(n, number);
    var t := before + s + rest;
    assert Occurs(t, 0, before + s);
    OccursInTwo(t, 0, before, s);
    if rest != "" { assert t[|before + s|] == rest[0]; }
    TextIsRead(t, 0, before, n, number);
  }

  /** Whatever number a text denotes, all that is stored of it is whether it is zero; it extends as far as
      the characters of section 6 do. */
  lemma NumberBecomesBool(d: string, rest: string, number: Strtod)
    requires NumberLike(d) && NumberStops(rest, 0)
    ensures Parse(d + rest, 0, number)
         == match number(d) case None => None case Some(b) => Some(Read(Bool(b), |d|, rest != ""))
  {
    var t := d + rest;
    assert t[..|d|] == d && t[0] == d[0];
    NumberCharacters(d[0]);
    assert !IsSpace(d[0]) && SkipSpace(t, 0) == 0;
    NumberIsRead(t, 0, 0, d, number);
  }
}
