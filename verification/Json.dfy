/** src/utils/json_object.h and src/utils/json.h: JSON values, the text the printer writes, the value
    the reader reads, and the proof that reading inverts printing.  A char stands for a byte. */
module Json {
  import opened Outcomes

  /** A value without numbers.  An object keeps its members in the order of their keys. */
  datatype Json =
    | Null
    | Bool(b: bool)
    | Str(s: string)
    | Arr(items: seq<Json>)
    | Obj(members: seq<Member>)

  datatype Member = Member(key: string, value: Json)

  // ---------------------------------------------------------------- objects

  /** The order of `std::map<std::string, ...>`. */
  predicate Less(a: string, b: string) {
    b != "" && (a == "" || a[0] < b[0] || (a[0] == b[0] && Less(a[1..], b[1..])))
  }

  predicate Sorted(m: seq<Member>) {
    forall i, j | 0 <= i < j < |m| :: Less(m[i].key, m[j].key)
  }

  /** Every object in the value has its keys in order, each once. */
  predicate WellFormed(v: Json) {
    match v
    case Arr(items) => forall x | x in items :: WellFormed(x)
    case Obj(m) => Sorted(m) && forall x | x in m :: WellFormed(x.value)
    case _ => true
  }

  /** `o[key] = value`. */
  function Insert(m: seq<Member>, key: string, value: Json): seq<Member> {
    if m == [] || Less(key, m[0].key) then [Member(key, value)] + m
    else if m[0].key == key then [Member(key, value)] + m[1..]
    else [m[0]] + Insert(m[1..], key, value)
  }

  lemma {:induction false} LessIsIrreflexive(a: string)
    ensures !Less(a, a)
  {
    if a != "" { LessIsIrreflexive(a[1..]); }
  }

  lemma {:induction false} LessIsStrict(a: string, b: string)
    ensures !(Less(a, b) && Less(b, a))
    ensures Less(a, b) || Less(b, a) || a == b
    decreases |a| + |b|
  {
    if a != "" && b != "" {
      LessIsStrict(a[1..], b[1..]);
      if a[0] == b[0] && a[1..] == b[1..] { assert a == [a[0]] + a[1..] == b; }
    }
  }

  lemma {:induction false} LessIsTransitive(a: string, b: string, c: string)
    ensures Less(a, b) && Less(b, c) ==> Less(a, c)
  {
    if a != "" && b != "" && c != "" { LessIsTransitive(a[1..], b[1..], c[1..]); }
  }

  /** A key behind all others is appended. */
  lemma {:induction false} InsertLast(m: seq<Member>, key: string, value: Json)
    requires forall x | x in m :: Less(x.key, key)
    ensures Insert(m, key, value) == m + [Member(key, value)]
  {
    if m != [] {
      LessIsStrict(m[0].key, key);
      LessIsIrreflexive(key);
      InsertLast(m[1..], key, value);
    }
  }

  /** Objects stay in order, whatever is inserted. */
  lemma {:induction false} InsertKeepsOrder(m: seq<Member>, key: string, value: Json)
    requires Sorted(m)
    ensures Sorted(Insert(m, key, value))
    ensures forall x | x in Insert(m, key, value) :: x in m || x == Member(key, value)
  {
    var r := Insert(m, key, value);
    if m == [] {
    } else if Less(key, m[0].key) {
      forall j | 0 < j < |r| ensures Less(key, r[j].key) { LessIsTransitive(key, m[0].key, r[j].key); }
    } else if m[0].key == key {
    } else {
      InsertKeepsOrder(m[1..], key, value);
      LessIsStrict(m[0].key, key);
      forall j | 0 < j < |r| ensures Less(m[0].key, r[j].key) { assert r[j] in Insert(m[1..], key, value); }
    }
  }

  /** The value stored under a key. */
  function Lookup(m: seq<Member>, key: string): Option<Json> {
    if m == [] then None else if m[0].key == key then Some(m[0].value) else Lookup(m[1..], key)
  }

  /** `o[key] = value` stores the value under the key and leaves every other key alone. */
  lemma {:induction false} InsertStores(m: seq<Member>, key: string, value: Json, k: string)
    ensures Lookup(Insert(m, key, value), k) == if k == key then Some(value) else Lookup(m, k)
  {
    if !(m == [] || Less(key, m[0].key) || m[0].key == key) { InsertStores(m[1..], key, value, k); }
  }

  /** a and b agree up to k, where a ends or has the smaller character. */
  predicate SmallerFrom(a: string, b: string, k: nat) {
    k <= |a| && k < |b| && a[..k] == b[..k] && (k == |a| || a[k] < b[k])
  }

  lemma PrefixesDiffer(a: string, b: string, k: nat)
    requires 0 < k <= |a| && k <= |b| && a[0] != b[0]
    ensures a[..k] != b[..k]
  {
    assert a[..k][0] == a[0] && b[..k][0] == b[0];
  }

  /** The order of keys is the lexicographic one. */
  lemma {:induction false} LessIsLexicographic(a: string, b: string)
    ensures Less(a, b) <==> exists k: nat :: SmallerFrom(a, b, k)
  {
    if a == "" || b == "" {
      if b != "" { assert SmallerFrom(a, b, 0); }
    } else if a[0] != b[0] {
      if a[0] < b[0] { assert SmallerFrom(a, b, 0); }
      forall k: nat | 0 < k <= |a| && k <= |b| ensures a[..k] != b[..k] { PrefixesDiffer(a, b, k); }
    } else {
      LessIsLexicographic(a[1..], b[1..]);
      forall k: nat ensures SmallerFrom(a, b, k + 1) <==> SmallerFrom(a[1..], b[1..], k) {
        if k < |a| && k + 1 < |b| {
          assert a[..k + 1] == [a[0]] + a[1..][..k] && b[..k + 1] == [b[0]] + b[1..][..k];
          assert a[..k + 1][1..] == a[1..][..k] && b[..k + 1][1..] == b[1..][..k];
        }
      }
      if Less(a, b) {
        var k: nat :| SmallerFrom(a[1..], b[1..], k);
        assert SmallerFrom(a, b, k + 1);
      }
      if k: nat :| SmallerFrom(a, b, k) {
        assert SmallerFrom(a[1..], b[1..], k - 1);
      }
    }
  }

  // ---------------------------------------------------------------- printing

  function HexDigit(n: nat): char
    requires n < 16
  {
    "0123456789abcdef"[n]
  }

  function Escape(c: char): string {
    if c == '\"' then "\\\""
    else if c == '\\' then "\\\\"
    else if c == '/' then "\\/"
    else if c as int == 0x08 then "\\b"
    else if c as int == 0x0c then "\\f"
    else if c == '\n' then "\\n"
    else if c == '\r' then "\\r"
    else if c == '\t' then "\\t"
    else if c as int < 0x20 || c as int == 0x7f then "\\u00" + [HexDigit(c as int / 16), HexDigit(c as int % 16)]
    else [c]
  }

  function Escaped(s: string): string {
    if s == "" then "" else Escape(s[0]) + Escaped(s[1..])
  }

  function Quoted(s: string): string { "\"" + Escaped(s) + "\"" }

  function Spaces(n: nat): string { seq(n, _ => ' ') }

  /** The layout of the two printers: line breaks and indentation, or neither. */
  datatype Style = Compact | Pretty {
    function Break(): string { if Pretty? then "\n" else "" }
    function Indent(n: nat): string { if Pretty? then Spaces(2 * n) else "" }
    function Colon(): string { if Pretty? then " : " else ":" }
  }

  /** What `Serialize` and `PrettySerialize` write. */
  function Print(v: Json, style: Style, indent: nat): string
    decreases v, 0
  {
    match v
    case Null => "null"
    case Bool(b) => if b then "true" else "false"
    case Str(s) => Quoted(s)
    case Arr(items) => "[" + style.Break() + PrintItems(items, style, indent + 1) + style.Break() +
        style.Indent(indent) + "]"
    case Obj(m) => "{" + style.Break() + PrintMembers(m, style, indent + 1) + style.Break() + style.Indent(indent) + "}"
  }

  function PrintItems(items: seq<Json>, style: Style, indent: nat): string
    decreases items, 1
  {
    if items == [] then ""
    else
      style.Indent(indent) + Print(items[0], style, indent)
      + (if |items| == 1 then "" else "," + style.Break() + PrintItems(items[1..], style, indent))
  }

  function PrintMembers(m: seq<Member>, style: Style, indent: nat): string
    decreases m, 1
  {
    if m == [] then ""
    else
      style.Indent(indent) + Quoted(m[0].key) + style.Colon() + Print(m[0].value, style, indent)
      + (if |m| == 1 then "" else "," + style.Break() + PrintMembers(m[1..], style, indent))
  }

  // ---------------------------------------------------------------- reading

  predicate IsSpace(c: char) { c == ' ' || c == '\t' || c == '\n' || c == '\r' }

  function SkipSpace(t: string, i: nat): (j: nat)
    requires i <= |t|
    ensures i <= j <= |t| && (j < |t| ==> !IsSpace(t[j]))
    decreases |t| - i
  {
    if i < |t| && IsSpace(t[i]) then SkipSpace(t, i + 1) else i
  }

  /** `expect`: past white space and the character, if it comes next. */
  function Expect(t: string, i: nat, c: char): (r: Option<nat>)
    requires i <= |t|
    ensures r.Some? ==> i < r.value <= |t|
  {
    var j := SkipSpace(t, i);
    if j < |t| && t[j] == c then Some(j + 1) else None
  }

  /** The text occurs at position i. */
  predicate Occurs(t: string, i: nat, s: string) { i + |s| <= |t| && t[i..i + |s|] == s }

  function HexValue(c: char): Option<nat> {
    if '0' <= c <= '9' then Some(c as int - '0' as int)
    else if 'A' <= c <= 'F' then Some(c as int - 'A' as int + 10)
    else if 'a' <= c <= 'f' then Some(c as int - 'a' as int + 10)
    else None
  }

  /** Four hexadecimal digits. */
  function QuadHex(t: string, i: nat): (r: Option<nat>)
    ensures r.Some? ==> i + 4 <= |t| && r.value < 0x1_0000
  {
    HexBound();
    if i + 4 > |t| then None
    else
      match (HexValue(t[i]), HexValue(t[i + 1]), HexValue(t[i + 2]), HexValue(t[i + 3]))
      case (Some(a), Some(b), Some(c), Some(d)) => Some(((a * 16 + b) * 16 + c) * 16 + d)
      case _ => None
  }

  lemma HexBound()
    ensures forall c: char {:trigger HexValue(c)} :: HexValue(c).Some? ==> HexValue(c).value < 16
  {}

  predicate IsCodePoint(u: nat) { u < 0xd800 || 0xe000 <= u < 0x11_0000 }

  /** UTF-8, RFC 3629 section 3. */
  function Utf8(u: nat): string
    requires u < 0x11_0000
  {
    if u < 0x80 then [u as char]
    else if u < 0x800 then [(0xc0 + u / 64) as char, (0x80 + u % 64) as char]
    else if u < 0x1_0000 then [(0xe0 + u / 4096) as char, (0x80 + u / 64 % 64) as char, (0x80 + u % 64) as char]
    else [(0xf0 + u / 262144) as char, (0x80 + u / 4096 % 64) as char, (0x80 + u / 64 % 64) as char,
        (0x80 + u % 64) as char]
  }

  /** What follows a `\u`: one code unit, or two that make a surrogate pair. */
  function CodePoint(t: string, i: nat): (r: Option<(nat, nat)>)
    ensures r.Some? ==> IsCodePoint(r.value.0) && i < r.value.1 <= |t|
  {
    match QuadHex(t, i)
    case None => None
    case Some(u) =>
      if u < 0xd800 || 0xe000 <= u then Some((u, i + 4))
      else if 0xdc00 <= u || !Occurs(t, i + 4, "\\u") then None
      else
        match QuadHex(t, i + 6)
        case None => None
        case Some(w) =>
          if 0xdc00 <= w < 0xe000 then Some((0x1_0000 + (u - 0xd800) * 1024 + (w - 0xdc00), i + 10)) else None
  }

  /** What a backslash introduces, and where it ends. */
  function Unescape(t: string, i: nat): (r: Option<(string, nat)>)
    ensures r.Some? ==> i < r.value.1 <= |t|
  {
    if i >= |t| then None
    else if t[i] == '\"' || t[i] == '\\' || t[i] == '/' then Some(([t[i]], i + 1))
    else if t[i] == 'b' then Some(([0x08 as char], i + 1))
    else if t[i] == 'f' then Some(([0x0c as char], i + 1))
    else if t[i] == 'n' then Some((['\n'], i + 1))
    else if t[i] == 'r' then Some((['\r'], i + 1))
    else if t[i] == 't' then Some((['\t'], i + 1))
    else if t[i] == 'u' then
      match CodePoint(t, i + 1)
      case None => None
      case Some((u, j)) => Some((Utf8(u), j))
    else None
  }

  /** The rest of a string, behind its opening quote. */
  function ReadString(t: string, i: nat): (r: Option<(string, nat)>)
    requires i <= |t|
    ensures r.Some? ==> i < r.value.1 <= |t|
    decreases |t| - i
  {
    if i == |t| || t[i] < ' ' then None
    else if t[i] == '\"' then Some(("", i + 1))
    else if t[i] == '\\' then
      match Unescape(t, i + 1)
      case None => None
      case Some((s, j)) => Prefixed(s, ReadString(t, j))
    else Prefixed([t[i]], ReadString(t, i + 1))
  }

  function Prefixed(s: string, r: Option<(string, nat)>): Option<(string, nat)> {
    match r
    case None => None
    case Some((x, j)) => Some((s + x, j))
  }

  /** A value, where its text ends, and whether the reader had to give a character back. */
  datatype Read = Read(value: Json, end: nat, pushed: bool)

  predicate InNumber(c: char) { '0' <= c <= '9' || c == '+' || c == '-' || c == '.' || c == 'e' || c == 'E' }

  function NumberEnd(t: string, i: nat): (j: nat)
    requires i <= |t|
    ensures i <= j <= |t| && (forall k | i <= k < j :: InNumber(t[k])) && (j < |t| ==> !InNumber(t[j]))
    decreases |t| - i
  {
    if i < |t| && InNumber(t[i]) then NumberEnd(t, i + 1) else i
  }

  /** `strtod` on a whole text: whether the result is not zero, or none if it stops early. */
  type Strtod = string -> Option<bool>

  /** `_parse` with the default context.  A number is stored through the constructor that takes a
      bool, the only one that accepts it. */
  function Parse(t: string, i: nat, number: Strtod): (r: Option<Read>)
    requires i <= |t|
    ensures r.Some? ==> i < r.value.end <= |t|
    decreases |t| - i, 0
  {
    var j := SkipSpace(t, i);
    if j == |t| then None
    else if t[j] == 'n' then if Occurs(t, j + 1, "ull") then Some(Read(Null, j + 4, false)) else None
    else if t[j] == 'f' then if Occurs(t, j + 1, "alse") then Some(Read(Bool(false), j + 5, false)) else None
    else if t[j] == 't' then if Occurs(t, j + 1, "rue") then Some(Read(Bool(true), j + 4, false)) else None
    else if t[j] == '\"' then
      match ReadString(t, j + 1)
      case None => None
      case Some((s, k)) => Some(Read(Str(s), k, false))
    else if t[j] == '[' then ParseArray(t, j + 1, number)
    else if t[j] == '{' then ParseObject(t, j + 1, number)
    else if '0' <= t[j] <= '9' || t[j] == '-' then
      var k := NumberEnd(t, j);
      match number(t[j..k])
      case None => None
      case Some(b) => Some(Read(Bool(b), k, k < |t|))
    else None
  }

  /** An array, behind its bracket. */
  function ParseArray(t: string, i: nat, number: Strtod): (r: Option<Read>)
    requires i <= |t|
    ensures r.Some? ==> i < r.value.end <= |t|
    decreases |t| - i, 2
  {
    match Expect(t, i, ']')
    case Some(k) => Some(Read(Arr([]), k, false))
    case None => ParseItems(t, i, number, [])
  }

  /** An object, behind its brace. */
  function ParseObject(t: string, i: nat, number: Strtod): (r: Option<Read>)
    requires i <= |t|
    ensures r.Some? ==> i < r.value.end <= |t|
    decreases |t| - i, 2
  {
    match Expect(t, i, '}')
    case Some(k) => Some(Read(Obj([]), k, false))
    case None => ParseMembers(t, i, number, [])
  }

  function ParseItems(t: string, i: nat, number: Strtod, items: seq<Json>): (r: Option<Read>)
    requires i <= |t|
    ensures r.Some? ==> i < r.value.end <= |t|
    decreases |t| - i, 1
  {
    match Parse(t, i, number)
    case None => None
    case Some(Read(v, k, _)) =>
      match Expect(t, k, ',')
      case Some(next) => ParseItems(t, next, number, items + [v])
      case None =>
        match Expect(t, k, ']')
        case Some(end) => Some(Read(Arr(items + [v]), end, false))
        case None => None
  }

  function ParseMembers(t: string, i: nat, number: Strtod, members: seq<Member>): (r: Option<Read>)
    requires i <= |t|
    ensures r.Some? ==> i < r.value.end <= |t|
    decreases |t| - i, 1
  {
    match ParseKey(t, i)
    case None => None
    case Some((key, j)) =>
      match Parse(t, j, number)
      case None => None
      case Some(Read(v, k, _)) =>
        match Expect(t, k, ',')
        case Some(next) => ParseMembers(t, next, number, Insert(members, key, v))
        case None =>
          match Expect(t, k, '}')
          case Some(end) => Some(Read(Obj(Insert(members, key, v)), end, false))
          case None => None
  }

  /** A quoted key and the colon behind it. */
  function ParseKey(t: string, i: nat): (r: Option<(string, nat)>)
    requires i <= |t|
    ensures r.Some? ==> i < r.value.1 <= |t|
  {
    match Expect(t, i, '\"')
    case None => None
    case Some(j) =>
      match ReadString(t, j)
      case None => None
      case Some((key, k)) =>
        match Expect(t, k, ':')
        case None => None
        case Some(end) => Some((key, end))
  }

  // ---------------------------------------------------------------- steps of the reader

  lemma OccursInTwo(t: string, i: nat, a: string, b: string)
    ensures Occurs(t, i, a + b) <==> Occurs(t, i, a) && Occurs(t, i + |a|, b)
  {
    if i + |a| + |b| <= |t| {
      assert t[i..i + |a + b|] == t[i..i + |a|] + t[i + |a|..i + |a| + |b|];
      if t[i..i + |a + b|] == a + b {
        assert t[i..i + |a|] == (a + b)[..|a|] && t[i + |a|..i + |a| + |b|] == (a + b)[|a|..];
      }
    }
  }

  predicate AllSpace(w: string) { forall c | c in w :: IsSpace(c) }

  lemma {:induction false} SkipsOver(t: string, i: nat, w: string)
    requires Occurs(t, i, w) && AllSpace(w) && (i + |w| == |t| || !IsSpace(t[i + |w|]))
    ensures SkipSpace(t, i) == i + |w|
    decreases |w|
  {
    if w != "" {
      assert t[i] == w[0];
      assert t[i + 1..i + |w|] == w[1..];
      SkipsOver(t, i + 1, w[1..]);
    }
  }

  /** `expect` after white space. */
  lemma Expects(t: string, i: nat, w: string, c: char)
    requires Occurs(t, i, w) && AllSpace(w) && i + |w| < |t| && !IsSpace(t[i + |w|])
    ensures Expect(t, i, c) == if t[i + |w|] == c then Some(i + |w| + 1) else None
  {
    SkipsOver(t, i, w);
  }

  lemma HexRoundTrip(n: nat)
    requires n < 16
    ensures HexValue(HexDigit(n)) == Some(n)
  {}

  lemma ReadsBackslash(t: string, i: nat, s: string, j: nat)
    requires i < |t| && t[i] == '\\' && j <= |t| && Unescape(t, i + 1) == Some((s, j))
    ensures ReadString(t, i) == Prefixed(s, ReadString(t, j))
  {
    hide Unescape, Prefixed;
  }

  lemma ReadsPlain(t: string, i: nat)
    requires i < |t| && t[i] != '\\' && t[i] != '\"' && t[i] >= ' '
    ensures ReadString(t, i) == Prefixed([t[i]], ReadString(t, i + 1))
  {
    hide Unescape, Prefixed;
  }

  lemma ReadsEnd(t: string, i: nat)
    requires i < |t| && t[i] == '\"'
    ensures ReadString(t, i) == Some(("", i + 1))
  {}

  lemma OccursAt(t: string, i: nat, c: char)
    ensures Occurs(t, i, [c]) <==> i < |t| && t[i] == c
  {
    if i < |t| { assert t[i..i + 1] == [t[i]]; }
  }

  lemma OccursInThree(t: string, i: nat, a: string, b: string, c: string)
    requires Occurs(t, i, a + b + c)
    ensures Occurs(t, i, a) && Occurs(t, i + |a|, b) && Occurs(t, i + |a| + |b|, c)
    ensures i + |a| + |b| + |c| <= |t|
  {
    hide Occurs;
    OccursInTwo(t, i, a + b, c);
    OccursInTwo(t, i, a, b);
    OccursFits(t, i, a + b + c);
  }

  lemma OccursFits(t: string, i: nat, s: string)
    requires Occurs(t, i, s)
    ensures i + |s| <= |t|
  {}

  /** `expect` finds its character behind white space, and no other. */
  lemma ExpectsPrinted(t: string, i: nat, w: string, c: char, wanted: char)
    requires Occurs(t, i, w) && AllSpace(w) && Occurs(t, i + |w|, [c]) && !IsSpace(c)
    ensures i <= |t| && Expect(t, i, wanted) == if c == wanted then Some(i + |w| + 1) else None
  {
    OccursAt(t, i + |w|, c);
    Expects(t, i, w, wanted);
  }

  lemma FirstOf(t: string, i: nat, s: string)
    requires Occurs(t, i, s) && s != ""
    ensures i < |t| && t[i] == s[0]
  {
    assert t[i] == t[i..i + |s|][0];
  }

  lemma ReadsString(t: string, i: nat, j: nat, number: Strtod)
    requires i <= |t| && SkipSpace(t, i) == j && j < |t| && t[j] == '\"'
    requires ReadString(t, j + 1).Some?
    ensures Parse(t, i, number) == Some(Read(Str(ReadString(t, j + 1).value.0), ReadString(t, j + 1).value.1, false))
  {
    hide SkipSpace, ReadString;
  }

  lemma ReadsArray(t: string, i: nat, j: nat, number: Strtod)
    requires i <= |t| && SkipSpace(t, i) == j && j < |t| && t[j] == '['
    ensures Expect(t, j + 1, ']').Some? ==>
              Parse(t, i, number) == Some(Read(Arr([]), Expect(t, j + 1, ']').value, false))
    ensures Expect(t, j + 1, ']').None? ==> Parse(t, i, number) == ParseItems(t, j + 1, number, [])
  {
    hide SkipSpace, Expect, ParseItems;
  }

  lemma ReadsObject(t: string, i: nat, j: nat, number: Strtod)
    requires i <= |t| && SkipSpace(t, i) == j && j < |t| && t[j] == '{'
    ensures Expect(t, j + 1, '}').Some? ==>
              Parse(t, i, number) == Some(Read(Obj([]), Expect(t, j + 1, '}').value, false))
    ensures Expect(t, j + 1, '}').None? ==> Parse(t, i, number) == ParseMembers(t, j + 1, number, [])
  {
    hide SkipSpace, Expect, ParseMembers;
  }

  lemma ReadsItem(t: string, i: nat, number: Strtod, done: seq<Json>, v: Json, k: nat, pushed: bool)
    requires i <= |t| && Parse(t, i, number) == Some(Read(v, k, pushed)) && k <= |t|
    ensures Expect(t, k, ',').Some? ==>
              ParseItems(t, i, number, done) == ParseItems(t, Expect(t, k, ',').value, number, done + [v])
    ensures Expect(t, k, ',').None? && Expect(t, k, ']').Some? ==>
              ParseItems(t, i, number, done) == Some(Read(Arr(done + [v]), Expect(t, k, ']').value, false))
  {
    hide Parse, Expect;
  }

  lemma ReadsMember(t: string, i: nat, number: Strtod, done: seq<Member>, key: string, j: nat, v: Json, k: nat,
      pushed: bool)
    requires i <= |t| && ParseKey(t, i) == Some((key, j)) && j <= |t|
    requires Parse(t, j, number) == Some(Read(v, k, pushed)) && k <= |t|
    ensures Expect(t, k, ',').Some? ==>
              ParseMembers(t, i, number, done) == ParseMembers(t, Expect(t, k, ',').value, number, Insert(done, key, v))
    ensures Expect(t, k, ',').None? && Expect(t, k, '}').Some? ==>
              ParseMembers(t, i, number, done) == Some(Read(Obj(Insert(done, key, v)), Expect(t, k, '}').value, false))
  {
    hide Parse, Expect, ParseKey, Insert;
  }

  // ---------------------------------------------------------------- what can be read at all

  /** Every value the reader returns has its objects in order. */
  lemma {:induction false} ParsedIsWellFormed(t: string, i: nat, number: Strtod)
    requires i <= |t| && Parse(t, i, number).Some?
    ensures WellFormed(Parse(t, i, number).value.value)
    decreases |t| - i, 0
  {
    hide ReadString, Expect, Occurs, NumberEnd, ParseItems, ParseMembers;
    var j := SkipSpace(t, i);
    if t[j] == '[' {
      if Expect(t, j + 1, ']').None? { ParsedItemsAreWellFormed(t, j + 1, number, []); }
    } else if t[j] == '{' {
      if Expect(t, j + 1, '}').None? { ParsedMembersAreWellFormed(t, j + 1, number, []); }
    }
  }

  lemma {:induction false} ParsedItemsAreWellFormed(t: string, i: nat, number: Strtod, items: seq<Json>)
    requires i <= |t| && (forall x | x in items :: WellFormed(x)) && ParseItems(t, i, number, items).Some?
    ensures WellFormed(ParseItems(t, i, number, items).value.value)
    decreases |t| - i, 1
  {
    hide Parse, Expect;
    ParsedIsWellFormed(t, i, number);
    var r := Parse(t, i, number).value;
    match Expect(t, r.end, ',')
    case Some(next) => ParsedItemsAreWellFormed(t, next, number, items + [r.value]);
    case None =>
  }

  lemma {:induction false} ParsedMembersAreWellFormed(t: string, i: nat, number: Strtod, members: seq<Member>)
    requires i <= |t| && Sorted(members) && (forall x | x in members :: WellFormed(x.value))
    requires ParseMembers(t, i, number, members).Some?
    ensures WellFormed(ParseMembers(t, i, number, members).value.value)
    decreases |t| - i, 1
  {
    hide Parse, Expect, ParseKey, Insert, Sorted;
    var key, j := ParseKey(t, i).value.0, ParseKey(t, i).value.1;
    ParsedIsWellFormed(t, j, number);
    var r := Parse(t, j, number).value;
    InsertKeepsOrder(members, key, r.value);
    match Expect(t, r.end, ',')
    case Some(next) => ParsedMembersAreWellFormed(t, next, number, Insert(members, key, r.value));
    case None =>
  }

  // ---------------------------------------------------------------- escaped code points

  /** Four hexadecimal digits, as `%04x` prints them. */
  function HexQuad(n: nat): (s: string)
    requires n < 0x1_0000
    ensures |s| == 4
  {
    [HexDigit(n / 4096), HexDigit(n / 256 % 16), HexDigit(n / 16 % 16), HexDigit(n % 16)]
  }

  /** RFC 8259 section 7: a code point as one escape, or as the escapes of a surrogate pair. */
  function EscapeUnits(u: nat): string
    requires IsCodePoint(u)
  {
    if u < 0x1_0000 then "\\u" + HexQuad(u)
    else "\\u" + HexQuad(0xd800 + (u - 0x1_0000) / 1024) + ("\\u" + HexQuad(0xdc00 + (u - 0x1_0000) % 1024))
  }

  lemma QuadRoundTrip(t: string, i: nat, n: nat)
    requires n < 0x1_0000 && Occurs(t, i, HexQuad(n))
    ensures QuadHex(t, i) == Some(n)
  {
    hide HexDigit, HexValue;
    var q := HexQuad(n);
    assert forall k | 0 <= k < 4 :: t[i + k] == t[i..i + 4][k] == q[k];
    FourDigits(n);
    HexRoundTrip(n / 4096);
    HexRoundTrip(n / 256 % 16);
    HexRoundTrip(n / 16 % 16);
    HexRoundTrip(n % 16);
  }

  lemma FourDigits(n: nat)
    requires n < 0x1_0000
    ensures n / 4096 < 16 && ((n / 4096 * 16 + n / 256 % 16) * 16 + n / 16 % 16) * 16 + n % 16 == n
  {
    assert n / 4096 * 16 + n / 256 % 16 == n / 256;
    assert n / 256 * 16 + n / 16 % 16 == n / 16;
  }

  lemma CodePointOfUnits(t: string, i: nat, u: nat)
    requires IsCodePoint(u) && Occurs(t, i, EscapeUnits(u))
    ensures i + |EscapeUnits(u)| <= |t| && t[i] == '\\' && t[i + 1] == 'u'
    ensures CodePoint(t, i + 2) == Some((u, i + |EscapeUnits(u)|))
  {
    hide Occurs, QuadHex, HexQuad;
    OccursFits(t, i, EscapeUnits(u));
    FirstOf(t, i, EscapeUnits(u));
    if u < 0x1_0000 {
      OccursInTwo(t, i, "\\u", HexQuad(u));
      EscapeBegins(t, i);
      QuadRoundTrip(t, i + 2, u);
    } else {
      var high, low := 0xd800 + (u - 0x1_0000) / 1024, 0xdc00 + (u - 0x1_0000) % 1024;
      OccursInTwo(t, i, "\\u" + HexQuad(high), "\\u" + HexQuad(low));
      OccursInTwo(t, i, "\\u", HexQuad(high));
      OccursInTwo(t, i + 6, "\\u", HexQuad(low));
      EscapeBegins(t, i);
      QuadRoundTrip(t, i + 2, high);
      QuadRoundTrip(t, i + 8, low);
    }
  }

  lemma EscapeBegins(t: string, i: nat)
    requires Occurs(t, i, "\\u")
    ensures i + 2 <= |t| && t[i] == '\\' && t[i + 1] == 'u'
  {
    assert t[i..i + 2] == [t[i], t[i + 1]];
  }

  predicate Continues(s: string, k: nat) { k < |s| && 0x80 <= s[k] as int < 0xc0 }

  /** The code point at the front of a text, RFC 3629 section 4: shortest forms only, no surrogates. */
  function DecodeUtf8(s: string): (r: Option<(nat, nat)>) {
    if s == "" then None
    else
      var b := s[0] as int;
      if b < 0x80 then Some((b, 1))
      else if 0xc2 <= b < 0xe0 && Continues(s, 1) then Some(((b - 0xc0) * 64 + (s[1] as int - 0x80), 2))
      else if 0xe0 <= b < 0xf0 && Continues(s, 1) && Continues(s, 2) then
        var u := ((b - 0xe0) * 64 + (s[1] as int - 0x80)) * 64 + (s[2] as int - 0x80);
        if u < 0x800 || 0xd800 <= u < 0xe000 then None else Some((u, 3))
      else if 0xf0 <= b < 0xf5 && Continues(s, 1) && Continues(s, 2) && Continues(s, 3) then
        var u := (((b - 0xf0) * 64 + (s[1] as int - 0x80)) * 64 + (s[2] as int - 0x80)) * 64 + (s[3] as int - 0x80);
        if u < 0x1_0000 || u >= 0x11_0000 then None else Some((u, 4))
      else None
  }

  /** What is appended for a code point decodes to it, whatever follows. */
  lemma DecodesUtf8(u: nat, rest: string)
    requires IsCodePoint(u)
    ensures DecodeUtf8(Utf8(u) + rest) == Some((u, |Utf8(u)|))
  {
    var e := Utf8(u);
    var s := e + rest;
    if u < 0x80 {
      assert s[0] == e[0];
    } else if u < 0x800 {
      assert s[0] == e[0] && s[1] == e[1];
    } else if u < 0x1_0000 {
      DecodesThree(u, s);
    } else {
      DecodesFour(u, s);
    }
  }

  lemma DecodesThree(u: nat, s: string)
    requires IsCodePoint(u) && 0x800 <= u < 0x1_0000 && Utf8(u) <= s
    ensures DecodeUtf8(s) == Some((u, 3))
  {
    var e := Utf8(u);
    assert s[0] == e[0] && s[1] == e[1] && s[2] == e[2];
    assert (u / 4096 * 64 + u / 64 % 64) * 64 + u % 64 == u;
  }

  lemma DecodesFour(u: nat, s: string)
    requires 0x1_0000 <= u < 0x11_0000 && Utf8(u) <= s
    ensures DecodeUtf8(s) == Some((u, 4))
  {
    var e := Utf8(u);
    assert s[0] == e[0] && s[1] == e[1] && s[2] == e[2] && s[3] == e[3];
    assert ((u / 262144 * 64 + u / 4096 % 64) * 64 + u / 64 % 64) * 64 + u % 64 == u;
  }

  lemma {:induction false} NumberEndsAt(t: string, i: nat, j: nat)
    requires i <= j <= |t| && (forall k | i <= k < j :: InNumber(t[k])) && (j < |t| ==> !InNumber(t[j]))
    ensures NumberEnd(t, i) == j
    decreases j - i
  {
    if i < j { NumberEndsAt(t, i + 1, j); }
  }

  /** Reading the escape of any code point gives bytes that decode to it, in front of what the rest of
      the string gives. */
  lemma ReadsCodePoint(t: string, i: nat, u: nat)
    requires IsCodePoint(u) && Occurs(t, i, EscapeUnits(u))
    ensures var j := i + |EscapeUnits(u)|;
            && j <= |t| && ReadString(t, i).Some? == ReadString(t, j).Some?
            && (ReadString(t, i).Some? ==>
                  && ReadString(t, i).value.1 == ReadString(t, j).value.1
                  && ReadString(t, i).value.0 == Utf8(u) + ReadString(t, j).value.0
                  && DecodeUtf8(ReadString(t, i).value.0) == Some((u, |Utf8(u)|)))
  {
    hide CodePoint, Utf8, EscapeUnits, Occurs, Prefixed, DecodeUtf8;
    var j := i + |EscapeUnits(u)|;
    CodePointOfUnits(t, i, u);
    assert Unescape(t, i + 1) == Some((Utf8(u), j));
    hide Unescape;
    assert ReadString(t, i) == Prefixed(Utf8(u), ReadString(t, j));
    hide ReadString;
    PrefixedParts(Utf8(u), ReadString(t, j));
    if ReadString(t, j).Some? { DecodesUtf8(u, ReadString(t, j).value.0); }
  }

  lemma PrefixedParts(s: string, r: Option<(string, nat)>)
    ensures Prefixed(s, r).Some? == r.Some?
    ensures r.Some? ==> Prefixed(s, r) == Some((s + r.value.0, r.value.1))
  {}
}
