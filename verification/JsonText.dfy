/** JSON as Joy writes and reads it, on plain sequences of characters: the grammar that the emitter follows,
    the one that the recursive-descent parser follows, and the round trip between them. */
module JsonText {

  type Text = seq<char>

  /** A value as far as JSON tells it apart; a dictionary lists its entries in the order of its table, and a
      floating-point number is its spelling. */
  datatype Json =
    | Null
    | Bool(b: bool)
    | Int(n: int)
    | Float(spelling: Text)
    | Str(s: Text)
    | List(l: seq<Json>)
    | Dict(d: seq<Entry>)
    | Symbol(name: Text)
    | Letter(c: char)
    | Bits(members: seq<nat>)
    | Other

  datatype Entry = Entry(key: Text, val: Json)

  const QUOTE: char := '\"'
  const SLASH: char := '\\'
  const BELL: char := 8 as char
  const FEED: char := 12 as char
  const MAXINT := 0x7fff_ffff_ffff_ffff

  // ----- writing -----

  function Hex(d: nat): char
    requires d < 16
  {
    "0123456789abcdef"[d]
  }

  /** One character of a string, escaped. */
  function Escape(c: char): (t: Text)
    ensures t != []
  {
    if c == QUOTE then [SLASH, QUOTE]
    else if c == SLASH then [SLASH, SLASH]
    else if c == BELL then [SLASH, 'b']
    else if c == FEED then [SLASH, 'f']
    else if c == '\n' then [SLASH, 'n']
    else if c == '\r' then [SLASH, 'r']
    else if c == '\t' then [SLASH, 't']
    else if c < ' ' then [SLASH, 'u', '0', '0', Hex(c as int / 16), Hex(c as int % 16)]
    else [c]
  }

  function EscapeAll(s: Text): Text {
    if s == [] then [] else Escape(s[0]) + EscapeAll(s[1..])
  }

  function EmitString(s: Text): Text {
    [QUOTE] + EscapeAll(s) + [QUOTE]
  }

  function Digits(n: nat): (t: Text)
    ensures t != [] && forall i :: 0 <= i < |t| ==> '0' <= t[i] <= '9'
  {
    if n < 10 then [Digit(n)] else Digits(n / 10) + [Digit(n % 10)]
  }

  function Digit(n: nat): (c: char)
    requires n < 10
    ensures '0' <= c <= '9'
  {
    (n + '0' as int) as char
  }

  function EmitInt(n: int): Text {
    if n < 0 then ['-'] + Digits(-n) else Digits(n)
  }

  function Emit(v: Json): Text
    decreases v
  {
    match v
    case Null => "null"
    case Bool(b) => if b then "true" else "false"
    case Int(n) => EmitInt(n)
    case Float(t) => t
    case Str(s) => EmitString(s)
    case List(l) => ['['] + EmitElems(l) + [']']
    case Dict(d) => ['{'] + EmitEntries(d) + ['}']
    case Symbol(s) => if s == "null" then "null" else EmitString(s)
    case Letter(c) => EmitString(OneLetter(c))
    case Bits(m) => ['['] + EmitMembers(m) + [']']
    case Other => "null"
  }

  function EmitElems(l: seq<Json>): Text
    decreases l
  {
    if l == [] then [] else if |l| == 1 then Emit(l[0]) else Emit(l[0]) + [','] + EmitElems(l[1..])
  }

  function EmitEntry(e: Entry): Text
    decreases e
  {
    EmitString(e.key) + [':'] + Emit(e.val)
  }

  function EmitEntries(d: seq<Entry>): Text
    decreases d
  {
    if d == [] then [] else if |d| == 1 then EmitEntry(d[0]) else EmitEntry(d[0]) + [','] + EmitEntries(d[1..])
  }

  function EmitMembers(m: seq<nat>): Text {
    if m == [] then [] else if |m| == 1 then EmitInt(m[0]) else EmitInt(m[0]) + [','] + EmitMembers(m[1..])
  }

  /** A character becomes a string, which the character 0 ends. */
  function OneLetter(c: char): Text {
    if c == 0 as char then [] else [c]
  }

  // ----- reading -----

  /** What reading a value comes to: an error, a step over the end of the text or of an array, or a value. */
  datatype Parsed = Fail | PastEnd | Got(value: Json, rest: Text)

  datatype Read = NoString | AString(s: Text, rest: Text)

  /** The next character; the text ends with character 0. */
  function Peek(s: Text): char {
    if s == [] then 0 as char else s[0]
  }

  predicate Space(c: char) {
    c == ' ' || c == '\t' || c == '\n' || c == '\r'
  }

  function SkipSpace(s: Text): (t: Text)
    ensures |t| <= |s| && !Space(Peek(t))
  {
    if Space(Peek(s)) then SkipSpace(s[1..]) else s
  }

  function Unescape(c: char): char {
    if c == 'b' then BELL else if c == 'f' then FEED else if c == 'n' then '\n'
    else if c == 'r' then '\r' else if c == 't' then '\t' else c
  }

  /** The characters up to the closing quote or the end; a backslash at the end, or a Unicode escape cut off by
      it, is no string. */
  function Decode(s: Text): (r: Read)
    ensures r.AString? ==> |r.rest| <= |s|
    decreases |s|
  {
    if Peek(s) == 0 as char || Peek(s) == QUOTE then AString([], s)
    else if s[0] != SLASH then Cons(s[0], Decode(s[1..]))
    else if Peek(s[1..]) == 0 as char then NoString
    else if s[1] != 'u' then Cons(Unescape(s[1]), Decode(s[2..]))
    else if |s| < 6 then NoString
    else Cons('?', Decode(s[6..]))
  }

  function Cons(c: char, r: Read): Read {
    if r.AString? then AString([c] + r.s, r.rest) else r
  }

  /** A string from its opening quote on; a closing quote is skipped. */
  function ParseString(s: Text): (r: Read)
    ensures r.AString? ==> |r.rest| < |s|
  {
    if Peek(s) != QUOTE then NoString
    else
      var r := Decode(s[1..]);
      if r.AString? && Peek(r.rest) == QUOTE then AString(r.s, r.rest[1..]) else r
  }

  /** The length that the first pass over a string counts: it steps over the first three digits of a Unicode
      escape only, and so counts the fourth. */
  function Count(s: Text): nat
    decreases |s|
  {
    if Peek(s) == 0 as char || Peek(s) == QUOTE then 0
    else if s[0] != SLASH then 1 + Count(s[1..])
    else if Peek(s[1..]) == 0 as char then 1
    else if s[1] != 'u' then 1 + Count(s[2..])
    else if |s| < 5 then 1
    else 1 + Count(s[5..])
  }

  /** The first pass steps over the end: it meets a backslash at the end, or a Unicode escape without a third
      digit. */
  predicate CutFirst(s: Text)
    decreases |s|
  {
    if Peek(s) == 0 as char || Peek(s) == QUOTE then false
    else if s[0] != SLASH then CutFirst(s[1..])
    else if Peek(s[1..]) == 0 as char then true
    else if s[1] != 'u' then CutFirst(s[2..])
    else |s| < 5 || CutFirst(s[5..])
  }

  /** Reading the string at s steps over an end: that of the text in one of the passes, or that of the array, for
      which the first pass counts the characters and which the second fills. */
  predicate Overruns(s: Text) {
    && Peek(s) == QUOTE
    && (CutFirst(s[1..]) || Decode(s[1..]).NoString? || |Decode(s[1..]).s| > Count(s[1..]))
  }

  predicate IsDigit(c: char) {
    '0' <= c <= '9'
  }

  predicate IsHex(c: char) {
    IsDigit(c) || 'a' <= c <= 'f' || 'A' <= c <= 'F'
  }

  /** Section 7 of RFC 8259: a Unicode escape has four hexadecimal digits, and every escape is complete. */
  predicate WellEscaped(s: Text)
    decreases |s|
  {
    if Peek(s) == 0 as char || Peek(s) == QUOTE then true
    else if s[0] != SLASH then WellEscaped(s[1..])
    else if Peek(s[1..]) == 0 as char then false
    else if s[1] != 'u' then WellEscaped(s[2..])
    else |s| >= 6 && IsHex(s[2]) && IsHex(s[3]) && IsHex(s[4]) && IsHex(s[5]) && WellEscaped(s[6..])
  }

  /** A character that does as the last of the four behind the u. */
  predicate Fourth(c: char) {
    c != QUOTE && c != SLASH && c != 0 as char
  }

  /** Every escape is complete, and a Unicode escape has four characters, whatever the first three are. */
  predicate Complete(s: Text)
    decreases |s|
  {
    if Peek(s) == 0 as char || Peek(s) == QUOTE then true
    else if s[0] != SLASH then Complete(s[1..])
    else if Peek(s[1..]) == 0 as char then false
    else if s[1] != 'u' then Complete(s[2..])
    else |s| >= 6 && Fourth(s[5]) && Complete(s[6..])
  }

  lemma {:induction false} DigitsComplete(s: Text)
    requires WellEscaped(s)
    ensures Complete(s)
    decreases |s|
  {
    if Peek(s) != 0 as char && Peek(s) != QUOTE {
      DigitsComplete(s[if s[0] != SLASH then 1 else if s[1] != 'u' then 2 else 6..]);
    }
  }

  /** The Unicode escapes before the closing quote. */
  function Unicodes(s: Text): nat
    decreases |s|
  {
    if Peek(s) == 0 as char || Peek(s) == QUOTE then 0
    else if s[0] != SLASH then Unicodes(s[1..])
    else if Peek(s[1..]) == 0 as char then 0
    else if s[1] != 'u' then Unicodes(s[2..])
    else if |s| < 6 then 0
    else 1 + Unicodes(s[6..])
  }

  /** The first pass counts every character that the second writes, and one more for each Unicode escape. */
  lemma {:induction false} CountCovers(s: Text)
    requires Complete(s)
    ensures Decode(s).AString? && Count(s) == |Decode(s).s| + Unicodes(s) && !CutFirst(s)
    decreases |s|
  {
    if Peek(s) != 0 as char && Peek(s) != QUOTE {
      if s[0] != SLASH {
        CountCovers(s[1..]);
      } else if s[1] != 'u' {
        CountCovers(s[2..]);
      } else {
        CountCovers(s[6..]);
        assert s[5..][0] == s[5] && s[5..][1..] == s[6..];
      }
    }
  }

  /** A quotation mark right behind the third digit of a Unicode escape ends the string for the first pass, which
      counts 1, but not for the second, which decodes 3 characters. */
  lemma ShortCount()
    ensures var s := [SLASH, 'u', '0', '0', '0', QUOTE, 'A', 'B', QUOTE];
            && Count(s) == 1 && Decode(s) == AString("?AB", [QUOTE]) && !CutFirst(s) && Overruns([QUOTE] + s)
  {
    var s := [SLASH, 'u', '0', '0', '0', QUOTE, 'A', 'B', QUOTE];
    assert s[1..][0] == 'u' && s[5..] == [QUOTE, 'A', 'B', QUOTE] && s[6..] == ['A', 'B', QUOTE];
    assert ['A', 'B', QUOTE][1..] == ['B', QUOTE] && ['B', QUOTE][1..] == [QUOTE];
    assert Decode([QUOTE]) == AString([], [QUOTE]);
    assert Decode(['B', QUOTE]) == AString(['B'], [QUOTE]);
    assert Decode(['A', 'B', QUOTE]) == AString(['A', 'B'], [QUOTE]);
    assert Count(s[5..]) == 0;
    assert ([QUOTE] + s)[1..] == s;
  }

  /** Digits that are none do no harm as long as there are four characters, the last of which is neither a
      quotation mark nor a backslash. */
  lemma WrongDigits(a: char, b: char, c: char, d: char, rest: Text)
    requires Fourth(d) && Complete(rest)
    ensures var s := [SLASH, 'u', a, b, c, d] + rest;
            !Overruns([QUOTE] + s) && Decode(s) == Cons('?', Decode(rest))
  {
    var s := [SLASH, 'u', a, b, c, d] + rest;
    assert s[6..] == rest && Complete(s);
    CountCovers(s);
    assert ([QUOTE] + s)[1..] == s;
  }

  /** A backslash in fourth place at the end of the text: the first pass takes it for the start of an escape, and
      steps over the end. */
  lemma SlashFourth(a: char, b: char, c: char)
    ensures var s := [SLASH, 'u', a, b, c, SLASH]; CutFirst(s) && Overruns([QUOTE] + s) && Decode(s) == AString("?", [])
  {
    var s := [SLASH, 'u', a, b, c, SLASH];
    assert s[5..] == [SLASH] && CutFirst([SLASH]);
    assert s[6..] == [] && ([QUOTE] + s)[1..] == s;
  }

  function SkipDigits(s: Text): (t: Text)
    ensures |t| <= |s|
  {
    if IsDigit(Peek(s)) then SkipDigits(s[1..]) else s
  }

  /** The digits at the start of s as a number, after those whose value is acc. */
  function Value(s: Text, acc: nat): nat {
    if IsDigit(Peek(s)) then Value(s[1..], 10 * acc + (s[0] as int - '0' as int)) else acc
  }

  /** A 64-bit conversion stops at the ends of its range. */
  function Clamp(n: int): int {
    if n > MAXINT then MAXINT else if n < -MAXINT - 1 then -MAXINT - 1 else n
  }

  function SkipFraction(s: Text): (t: Text)
    ensures |t| <= |s|
  {
    if Peek(s) == '.' then SkipDigits(s[1..]) else s
  }

  function SkipExponent(s: Text): (t: Text)
    ensures |t| <= |s|
  {
    if Peek(s) == 'e' || Peek(s) == 'E' then
      var t := s[1..];
      SkipDigits(if Peek(t) == '+' || Peek(t) == '-' then t[1..] else t)
    else s
  }

  /** A number; digits may be missing, and count as 0 then. */
  function ParseNumber(s: Text): (r: Parsed)
    ensures r.Got? && |r.rest| <= |s| && ((Peek(s) == '-' || IsDigit(Peek(s))) ==> |r.rest| < |s|)
  {
    var neg := Peek(s) == '-';
    var t := if neg then s[1..] else s;
    var whole := SkipDigits(t);
    var rest := SkipExponent(SkipFraction(whole));
    if Peek(whole) == '.' || Peek(whole) == 'e' || Peek(whole) == 'E' then
      Got(Float(s[..|s| - |rest|]), rest)
    else
      var v: int := Value(t, 0);
      Got(Int(Clamp(if neg then -v else v)), rest)
  }

  /** s begins with the word w. */
  predicate Starts(s: Text, w: Text) {
    |w| <= |s| && s[..|w|] == w
  }

  function ParseWord(s: Text, w: Text, v: Json): Parsed
    requires w != []
  {
    if Starts(s, w) then Got(v, s[|w|..]) else Fail
  }

  function ParseValue(s0: Text): (r: Parsed)
    ensures r.Got? ==> |r.rest| < |s0|
    decreases |s0|, 2
  {
    var s := SkipSpace(s0);
    var c := Peek(s);
    if c == '{' then ParseObject(s)
    else if c == '[' then ParseArray(s)
    else if c == QUOTE then
      if Overruns(s) then PastEnd else (match ParseString(s) case NoString => Fail case AString(t, rest) => Got(Str(t), rest))
    else if c == 't' then ParseWord(s, "true", Bool(true))
    else if c == 'f' then ParseWord(s, "false", Bool(false))
    else if c == 'n' then ParseWord(s, "null", Null)
    else if c == '-' || IsDigit(c) then ParseNumber(s)
    else Fail
  }

  function ParseArray(s: Text): (r: Parsed)
    requires Peek(s) == '['
    ensures r.Got? ==> |r.rest| < |s|
    decreases |s|, 1
  {
    var t := SkipSpace(s[1..]);
    if Peek(t) == ']' then Got(List([]), t[1..]) else ParseElems(t, [])
  }

  function ParseElems(s: Text, done: seq<Json>): (r: Parsed)
    ensures r.Got? ==> |r.rest| < |s|
    decreases |s|, 3
  {
    match ParseValue(SkipSpace(s))
    case Fail => Fail
    case PastEnd => PastEnd
    case Got(v, rest) =>
      var t := SkipSpace(rest);
      if Peek(t) == ']' then Got(List(done + [v]), t[1..])
      else if Peek(t) == ',' then ParseElems(t[1..], done + [v])
      else Fail
  }

  function ParseObject(s: Text): (r: Parsed)
    requires Peek(s) == '{'
    ensures r.Got? ==> |r.rest| < |s|
    decreases |s|, 1
  {
    var t := SkipSpace(s[1..]);
    if Peek(t) == '}' then Got(Dict([]), t[1..]) else ParseEntries(t, [])
  }

  function ParseEntries(s: Text, done: seq<Entry>): (r: Parsed)
    ensures r.Got? ==> |r.rest| < |s|
    decreases |s|, 3
  {
    if Overruns(SkipSpace(s)) then PastEnd else
    match ParseString(SkipSpace(s))
    case NoString => Fail
    case AString(k, rest0) =>
      var t0 := SkipSpace(rest0);
      if Peek(t0) != ':' then Fail
      else
        match ParseValue(SkipSpace(t0[1..]))
        case Fail => Fail
        case PastEnd => PastEnd
        case Got(v, rest) =>
          var t := SkipSpace(rest);
          if Peek(t) == '}' then Got(Dict(Put(done, k, v)), t[1..])
          else if Peek(t) == ',' then ParseEntries(t[1..], Put(done, k, v))
          else Fail
  }

  /** A dictionary with one entry added or replaced. */
  function Put(d: seq<Entry>, k: Text, v: Json): seq<Entry> {
    if d == [] then [Entry(k, v)]
    else if d[0].key == k then [Entry(k, v)] + d[1..]
    else [d[0]] + Put(d[1..], k, v)
  }

  // ----- texts that are read to their end -----

  /** Behind every quotation mark, escapes are complete. */
  ghost predicate Escaped(s: Text) {
    forall k :: 0 <= k < |s| && s[k] == QUOTE ==> Complete(s[k + 1..])
  }

  predicate Suffix(t: Text, s: Text) {
    |t| <= |s| && t == s[|s| - |t|..]
  }

  lemma SuffixEscaped(t: Text, s: Text)
    requires Suffix(t, s) && Escaped(s)
    ensures Escaped(t)
  {
    var n := |s| - |t|;
    forall k | 0 <= k < |t| && t[k] == QUOTE ensures Complete(t[k + 1..]) {
      assert t[k + 1..] == s[n + k + 1..] && s[n + k] == QUOTE;
    }
  }

  lemma SuffixTrans(t: Text, u: Text, s: Text)
    requires Suffix(t, u) && Suffix(u, s)
    ensures Suffix(t, s)
  {
  }

  lemma SuffixDrop(s: Text, n: nat)
    requires n <= |s|
    ensures Suffix(s[n..], s)
  {
  }

  lemma {:induction false} SpaceSuffix(s: Text)
    ensures Suffix(SkipSpace(s), s)
    decreases |s|
  {
    if Space(Peek(s)) {
      SpaceSuffix(s[1..]);
      SuffixTrans(SkipSpace(s), s[1..], s);
    }
  }

  lemma {:induction false} DigitsSuffix(s: Text)
    ensures Suffix(SkipDigits(s), s)
    decreases |s|
  {
    if IsDigit(Peek(s)) {
      DigitsSuffix(s[1..]);
      SuffixTrans(SkipDigits(s), s[1..], s);
    }
  }

  lemma FractionSuffix(s: Text)
    ensures Suffix(SkipFraction(s), s)
  {
    hide SkipDigits;
    if Peek(s) == '.' {
      DigitsSuffix(s[1..]);
      SuffixTrans(SkipFraction(s), s[1..], s);
    }
  }

  lemma ExponentSuffix(s: Text)
    ensures Suffix(SkipExponent(s), s)
  {
    hide SkipDigits;
    if Peek(s) == 'e' || Peek(s) == 'E' {
      var u := s[1..];
      var w := if Peek(u) == '+' || Peek(u) == '-' then u[1..] else u;
      DigitsSuffix(w);
      SuffixTrans(w, u, s);
      SuffixTrans(SkipDigits(w), w, s);
    }
  }

  lemma NumberSuffix(s: Text)
    ensures Suffix(ParseNumber(s).rest, s)
  {
    hide SkipDigits, Value, SkipFraction, SkipExponent, Suffix;
    var t := if Peek(s) == '-' then s[1..] else s;
    var whole := SkipDigits(t);
    SuffixDrop(s, |s| - |t|);
    DigitsSuffix(t);
    FractionSuffix(whole);
    ExponentSuffix(SkipFraction(whole));
    SuffixTrans(SkipExponent(SkipFraction(whole)), SkipFraction(whole), whole);
    SuffixTrans(SkipExponent(SkipFraction(whole)), whole, t);
    SuffixTrans(SkipExponent(SkipFraction(whole)), t, s);
  }

  lemma {:induction false} DecodeSuffix(s: Text)
    ensures Decode(s).AString? ==> Suffix(Decode(s).rest, s)
    decreases |s|
  {
    if Peek(s) != 0 as char && Peek(s) != QUOTE {
      if s[0] != SLASH {
        DecodeSuffix(s[1..]);
      } else if Peek(s[1..]) != 0 as char && s[1] != 'u' {
        DecodeSuffix(s[2..]);
      } else if Peek(s[1..]) != 0 as char && |s| >= 6 {
        DecodeSuffix(s[6..]);
      }
    }
  }

  /** A string with complete escapes is read to its end. */
  lemma StringFits(s: Text)
    requires Escaped(s)
    ensures !Overruns(s) && (ParseString(s).AString? ==> Suffix(ParseString(s).rest, s))
  {
    hide Decode, Count, Complete, CutFirst;
    if Peek(s) == QUOTE {
      assert Complete(s[0 + 1..]);
      CountCovers(s[1..]);
      DecodeSuffix(s[1..]);
      var r := Decode(s[1..]);
      SuffixTrans(r.rest, s[1..], s);
      if Peek(r.rest) == QUOTE {
        SuffixTrans(r.rest[1..], r.rest, s);
      }
    }
  }

  lemma Skipped(s: Text, n: nat)
    requires Escaped(s) && n <= |s|
    ensures Escaped(SkipSpace(s[n..])) && Suffix(SkipSpace(s[n..]), s)
  {
    SpaceSuffix(s[n..]);
    SuffixTrans(SkipSpace(s[n..]), s[n..], s);
    SuffixEscaped(SkipSpace(s[n..]), s);
  }

  ghost predicate Within(r: Parsed, s: Text) {
    !r.PastEnd? && (r.Got? ==> Suffix(r.rest, s))
  }

  lemma WithinTrans(r: Parsed, t: Text, s: Text)
    requires Within(r, t) && Suffix(t, s)
    ensures Within(r, s)
  {
    if r.Got? {
      SuffixTrans(r.rest, t, s);
    }
  }

  /** Reading never steps over an end if escapes are complete behind every quotation mark. */
  lemma {:induction false} ValueFits(s0: Text)
    requires Escaped(s0)
    ensures Within(ParseValue(s0), s0)
    decreases |s0|, 2
  {
    hide Escaped, SkipSpace, Overruns, ParseString, ParseNumber;
    assert s0[0..] == s0;
    Skipped(s0, 0);
    var s := SkipSpace(s0);
    if Peek(s) == '{' {
      ObjectFits(s);
    } else if Peek(s) == '[' {
      ArrayFits(s);
    } else if Peek(s) == QUOTE {
      StringFits(s);
    } else if Peek(s) == '-' || IsDigit(Peek(s)) {
      NumberSuffix(s);
    }
    WithinTrans(ParseValue(s0), s, s0);
  }

  lemma {:induction false} ArrayFits(s: Text)
    requires Escaped(s) && Peek(s) == '['
    ensures Within(ParseArray(s), s)
    decreases |s|, 1
  {
    hide Escaped, SkipSpace, ParseElems;
    Skipped(s, 1);
    var t := SkipSpace(s[1..]);
    if Peek(t) == ']' {
      SuffixTrans(t[1..], t, s);
    } else {
      ElemsFit(t, []);
      WithinTrans(ParseElems(t, []), t, s);
    }
  }

  lemma {:induction false} ElemsFit(s: Text, done: seq<Json>)
    requires Escaped(s)
    ensures Within(ParseElems(s, done), s)
    decreases |s|, 3
  {
    hide Escaped, SkipSpace, ParseValue;
    assert s[0..] == s;
    Skipped(s, 0);
    ValueFits(SkipSpace(s));
    var r := ParseValue(SkipSpace(s));
    WithinTrans(r, SkipSpace(s), s);
    if r.Got? {
      SuffixEscaped(r.rest, s);
      assert r.rest[0..] == r.rest;
      Skipped(r.rest, 0);
      var t := SkipSpace(r.rest);
      SuffixTrans(t, r.rest, s);
      if t != [] {
        SuffixTrans(t[1..], t, s);
        if Peek(t) == ',' {
          SuffixEscaped(t[1..], s);
          ElemsFit(t[1..], done + [r.value]);
          WithinTrans(ParseElems(t[1..], done + [r.value]), t[1..], s);
        }
      }
    }
  }

  lemma {:induction false} ObjectFits(s: Text)
    requires Escaped(s) && Peek(s) == '{'
    ensures Within(ParseObject(s), s)
    decreases |s|, 1
  {
    hide Escaped, SkipSpace, ParseEntries;
    Skipped(s, 1);
    var t := SkipSpace(s[1..]);
    if Peek(t) == '}' {
      SuffixTrans(t[1..], t, s);
    } else {
      EntriesFit(t, []);
      WithinTrans(ParseEntries(t, []), t, s);
    }
  }

  lemma {:induction false} EntriesFit(s: Text, done: seq<Entry>)
    requires Escaped(s)
    ensures Within(ParseEntries(s, done), s)
    decreases |s|, 3
  {
    hide Escaped, SkipSpace, ParseValue, ParseString, Overruns, Put, Suffix;
    assert s[0..] == s;
    Skipped(s, 0);
    var s1 := SkipSpace(s);
    StringFits(s1);
    var k := ParseString(s1);
    if k.AString? {
      SuffixTrans(k.rest, s1, s);
      SuffixEscaped(k.rest, s);
      assert k.rest[0..] == k.rest;
      Skipped(k.rest, 0);
      var t0 := SkipSpace(k.rest);
      SuffixTrans(t0, k.rest, s);
      if Peek(t0) == ':' {
        SuffixEscaped(t0, s);
        Skipped(t0, 1);
        var t1 := SkipSpace(t0[1..]);
        SuffixTrans(t1, t0, s);
        ValueFits(t1);
        var r := ParseValue(t1);
        WithinTrans(r, t1, s);
        if r.Got? {
          EntriesGoOn(s, done, k.s, r);
        }
      }
    }
  }

  lemma {:induction false} EntriesGoOn(s: Text, done: seq<Entry>, k: Text, r: Parsed)
    requires Escaped(s) && r.Got? && Suffix(r.rest, s) && |r.rest| < |s|
    ensures Suffix(SkipSpace(r.rest), s)
    ensures SkipSpace(r.rest) != [] ==> Suffix(SkipSpace(r.rest)[1..], s)
    ensures Peek(SkipSpace(r.rest)) == ',' ==> Within(ParseEntries(SkipSpace(r.rest)[1..], Put(done, k, r.value)), s)
    decreases |s|, 2
  {
    hide Escaped, SkipSpace, ParseEntries, Put;
    SuffixEscaped(r.rest, s);
    assert r.rest[0..] == r.rest;
    Skipped(r.rest, 0);
    var t := SkipSpace(r.rest);
    SuffixTrans(t, r.rest, s);
    if t != [] {
      SuffixTrans(t[1..], t, s);
      if Peek(t) == ',' {
        SuffixEscaped(t[1..], s);
        EntriesFit(t[1..], Put(done, k, r.value));
        WithinTrans(ParseEntries(t[1..], Put(done, k, r.value)), t[1..], s);
      }
    }
  }

  // ----- the round trip -----

  /** A character as it comes back: a control character without an escape of its own is lost. */
  function Seen(c: char): char {
    if c < ' ' && c != BELL && c != FEED && c != '\n' && c != '\r' && c != '\t' then '?' else c
  }

  function SeenAll(s: Text): (t: Text)
    ensures |t| == |s| && forall i :: 0 <= i < |s| ==> t[i] == Seen(s[i])
  {
    if s == [] then [] else [Seen(s[0])] + SeenAll(s[1..])
  }

  /** A string as the program holds it: it has no character 0. */
  predicate Terminated(s: Text) {
    forall i :: 0 <= i < |s| ==> s[i] != 0 as char
  }

  lemma EscapeSeen(c: char, tail: Text)
    requires c != 0 as char
    ensures Decode(Escape(c) + tail) == Cons(Seen(c), Decode(tail))
  {
    var s := Escape(c) + tail;
    if c == QUOTE || c == SLASH || c == BELL || c == FEED || c == '\n' || c == '\r' || c == '\t' {
      assert s[1..][0] == s[1] && s[2..] == tail;
    } else if c < ' ' {
      assert s[1..][0] == 'u' && s[6..] == tail;
    } else {
      assert s[1..] == tail;
    }
  }

  lemma HexIsHex(d: nat)
    requires d < 16
    ensures IsHex(Hex(d))
  {
  }

  lemma EscapeWell(c: char, tail: Text)
    requires c != 0 as char && WellEscaped(tail)
    ensures WellEscaped(Escape(c) + tail)
  {
    hide Hex, IsHex;
    var s := Escape(c) + tail;
    if c == QUOTE || c == SLASH || c == BELL || c == FEED || c == '\n' || c == '\r' || c == '\t' {
      assert s[1..][0] == s[1] && s[2..] == tail;
    } else if c < ' ' {
      assert s[1..][0] == 'u' && s[6..] == tail;
      HexIsHex(c as int / 16);
      HexIsHex(c as int % 16);
      ZeroIsHex();
    } else {
      assert s[1..] == tail;
    }
  }

  lemma ZeroIsHex()
    ensures IsHex('0')
  {
  }

  lemma {:induction false} DecodeEscapes(t: Text, rest: Text)
    requires Terminated(t) && Peek(rest) == QUOTE
    ensures Decode(EscapeAll(t) + rest) == AString(SeenAll(t), rest) && WellEscaped(EscapeAll(t) + rest)
    decreases |t|
  {
    if t == [] {
      assert EscapeAll(t) + rest == rest;
    } else {
      var tail := EscapeAll(t[1..]) + rest;
      assert EscapeAll(t) + rest == Escape(t[0]) + tail;
      EscapeSeen(t[0], tail);
      DecodeEscapes(t[1..], rest);
      EscapeWell(t[0], tail);
    }
  }

  /** Reading a string that was written gives it back, with the lost characters replaced. */
  lemma StringRoundTrip(t: Text, rest: Text)
    requires Terminated(t)
    ensures ParseString(EmitString(t) + rest) == AString(SeenAll(t), rest) && !Overruns(EmitString(t) + rest)
  {
    var s := EmitString(t) + rest;
    var tail := [QUOTE] + rest;
    assert s[1..] == EscapeAll(t) + tail;
    DecodeEscapes(t, tail);
    DigitsComplete(s[1..]);
    CountCovers(s[1..]);
    assert tail[1..] == rest;
  }

  lemma {:induction false} SkipAll(a: Text, t: Text)
    requires forall i :: 0 <= i < |a| ==> IsDigit(a[i])
    ensures SkipDigits(a + t) == SkipDigits(t)
    decreases |a|
  {
    if a == [] {
      assert a + t == t;
    } else {
      assert (a + t)[1..] == a[1..] + t;
      SkipAll(a[1..], t);
    }
  }

  lemma {:induction false} ValueDigits(n: nat, t: Text)
    ensures Value(Digits(n) + t, 0) == Value(t, n)
    decreases n
  {
    if n < 10 {
      assert ([Digit(n)] + t)[1..] == t;
    } else {
      var more := [Digit(n % 10)] + t;
      assert Digits(n) + t == Digits(n / 10) + more;
      ValueDigits(n / 10, more);
      assert more[1..] == t;
    }
  }

  /** What may not follow a number. */
  predicate EndsNumber(rest: Text) {
    !IsDigit(Peek(rest)) && Peek(rest) != '.' && Peek(rest) != 'e' && Peek(rest) != 'E'
  }

  lemma IntRoundTrip(n: int, rest: Text)
    requires -MAXINT - 1 <= n <= MAXINT && EndsNumber(rest)
    ensures ParseNumber(EmitInt(n) + rest) == Got(Int(n), rest)
  {
    hide SkipDigits, Value, Digits;
    var m := if n < 0 then -n else n;
    var s := EmitInt(n) + rest;
    var t := Digits(m) + rest;
    assert n < 0 ==> s[1..] == t;
    ValueDigits(m, rest);
    SkipAll(Digits(m), rest);
    assert Peek(s) == if n < 0 then '-' else Digits(m)[0];
    DigitsEnd(rest);
  }

  lemma DigitsEnd(rest: Text)
    requires !IsDigit(Peek(rest))
    ensures SkipDigits(rest) == rest && forall n: nat :: Value(rest, n) == n
  {
  }

  /** Values that the emitter can be given: texts end at character 0, numbers have 64 bits, the keys of a
      dictionary stay apart, and there is no floating-point number. */
  predicate Writable(v: Json)
    decreases v
  {
    match v
    case Int(n) => -MAXINT - 1 <= n <= MAXINT
    case Float(_) => false
    case Str(s) => Terminated(s)
    case List(l) => forall i :: 0 <= i < |l| ==> Writable(l[i])
    case Dict(d) => (forall i :: 0 <= i < |d| ==> WritableEntry(d[i])) && Apart(d)
    case Symbol(s) => Terminated(s)
    case Bits(m) => forall i :: 0 <= i < |m| ==> m[i] < 64
    case _ => true
  }

  predicate WritableEntry(e: Entry)
    decreases e
  {
    Terminated(e.key) && Writable(e.val)
  }

  predicate Apart(d: seq<Entry>) {
    forall i, j :: 0 <= i < j < |d| ==> SeenAll(d[i].key) != SeenAll(d[j].key)
  }

  /** A value as it comes back. */
  function Normal(v: Json): Json
    decreases v
  {
    match v
    case Str(s) => Str(SeenAll(s))
    case List(l) => List(Normals(l))
    case Dict(d) => Dict(NormalEntries(d))
    case Symbol(s) => if s == "null" then Null else Str(SeenAll(s))
    case Letter(c) => Str(SeenAll(OneLetter(c)))
    case Bits(m) => List(Ints(m))
    case Other => Null
    case _ => v
  }

  function Normals(l: seq<Json>): (r: seq<Json>)
    decreases l
  {
    if l == [] then [] else [Normal(l[0])] + Normals(l[1..])
  }

  function NormalEntry(e: Entry): Entry
    decreases e
  {
    Entry(SeenAll(e.key), Normal(e.val))
  }

  function NormalEntries(d: seq<Entry>): (r: seq<Entry>)
    ensures |r| == |d|
    decreases d
  {
    if d == [] then [] else [NormalEntry(d[0])] + NormalEntries(d[1..])
  }

  function Ints(m: seq<nat>): seq<Json> {
    if m == [] then [] else [Int(m[0])] + Ints(m[1..])
  }

  /** Every value starts with a character that is neither space nor closes a list. */
  lemma EmitStart(v: Json)
    requires Writable(v)
    ensures Emit(v) != [] && !Space(Emit(v)[0]) && Emit(v)[0] != ']' && Emit(v)[0] != '}'
  {
    if v.Int? && v.n >= 0 {
      assert Emit(v) == Digits(v.n);
    }
  }

  lemma SkipNothing(s: Text)
    requires !Space(Peek(s))
    ensures SkipSpace(s) == s
  {
  }

  lemma WordRoundTrip(w: Text, v: Json, rest: Text)
    requires w != []
    ensures ParseWord(w + rest, w, v) == Got(v, rest)
  {
    assert (w + rest)[..|w|] == w && (w + rest)[|w|..] == rest;
  }

  lemma StringValue(t: Text, rest: Text)
    requires Terminated(t)
    ensures ParseValue(EmitString(t) + rest) == Got(Str(SeenAll(t)), rest)
  {
    var s := EmitString(t) + rest;
    assert Peek(s) == QUOTE;
    SkipNothing(s);
    StringRoundTrip(t, rest);
  }

  lemma IntStart(n: int)
    ensures EmitInt(n) != [] && (EmitInt(n)[0] == '-' || IsDigit(EmitInt(n)[0]))
  {
  }

  lemma IntValue(n: int, rest: Text)
    requires -MAXINT - 1 <= n <= MAXINT && EndsNumber(rest)
    ensures ParseValue(EmitInt(n) + rest) == Got(Int(n), rest)
  {
    hide ParseNumber, EmitInt, ParseObject, ParseArray, ParseString, ParseWord;
    var s := EmitInt(n) + rest;
    IntStart(n);
    assert Peek(s) == EmitInt(n)[0];
    SkipNothing(s);
    IntRoundTrip(n, rest);
  }

  lemma NullValue(rest: Text)
    ensures ParseValue("null" + rest) == Got(Null, rest)
  {
    SkipNothing("null" + rest);
    WordRoundTrip("null", Null, rest);
  }

  lemma BoolValue(b: bool, rest: Text)
    ensures ParseValue(Emit(Bool(b)) + rest) == Got(Bool(b), rest)
  {
    SkipNothing(Emit(Bool(b)) + rest);
    if b {
      WordRoundTrip("true", Bool(true), rest);
    } else {
      WordRoundTrip("false", Bool(false), rest);
    }
  }

  /** Reading a value that was written gives it back and stops where it ends. */
  ghost predicate Trips(v: Json) {
    forall rest :: EndsNumber(rest) ==> ParseValue(Emit(v) + rest) == Got(Normal(v), rest)
  }

  lemma ElemsStart(l: seq<Json>, rest: Text)
    requires l != [] && Writable(l[0])
    ensures !Space(Peek(EmitElems(l) + rest)) && Peek(EmitElems(l) + rest) != ']'
  {
    EmitStart(l[0]);
  }

  lemma {:induction false} ElemsRoundTrip(l: seq<Json>, done: seq<Json>, rest: Text)
    requires l != [] && forall i :: 0 <= i < |l| ==> Writable(l[i]) && Trips(l[i])
    ensures ParseElems(EmitElems(l) + ([']'] + rest), done) == Got(List(done + Normals(l)), rest)
    decreases |l|
  {
    hide ParseValue, Emit, Normal;
    var close := [']'] + rest;
    var s := EmitElems(l) + close;
    ElemsStart(l, close);
    SkipNothing(s);
    if |l| == 1 {
      assert ParseValue(Emit(l[0]) + close) == Got(Normal(l[0]), close);
      SkipNothing(close);
      assert close[1..] == rest;
      assert l[1..] == [] && Normals(l) == [Normal(l[0])];
    } else {
      var more := EmitElems(l[1..]) + close;
      var comma := [','] + more;
      assert s == Emit(l[0]) + comma;
      assert ParseValue(Emit(l[0]) + comma) == Got(Normal(l[0]), comma);
      SkipNothing(comma);
      assert comma[1..] == more;
      ElemsRoundTrip(l[1..], done + [Normal(l[0])], rest);
      assert done + [Normal(l[0])] + Normals(l[1..]) == done + Normals(l);
    }
  }

  lemma ListRoundTrip(l: seq<Json>, rest: Text)
    requires forall i :: 0 <= i < |l| ==> Writable(l[i]) && Trips(l[i])
    ensures ParseValue(['['] + EmitElems(l) + [']'] + rest) == Got(List(Normals(l)), rest)
  {
    hide ParseElems, Emit, Normal, Trips;
    var s := ['['] + EmitElems(l) + [']'] + rest;
    SkipNothing(s);
    var close := [']'] + rest;
    var t := EmitElems(l) + close;
    assert s[1..] == t;
    if l == [] {
      assert t == close && close[1..] == rest;
      SkipNothing(t);
    } else {
      ElemsStart(l, close);
      SkipNothing(t);
      ElemsRoundTrip(l, [], rest);
      assert [] + Normals(l) == Normals(l);
    }
  }

  lemma {:induction false} MembersAreElems(m: seq<nat>)
    ensures EmitMembers(m) == EmitElems(Ints(m)) && Normals(Ints(m)) == Ints(m) && |Ints(m)| == |m|
    ensures forall i :: 0 <= i < |m| ==> Ints(m)[i] == Int(m[i])
    decreases |m|
  {
    if m != [] {
      MembersAreElems(m[1..]);
      assert Ints(m)[1..] == Ints(m[1..]);
    }
  }

  lemma IntTrips(n: int)
    requires -MAXINT - 1 <= n <= MAXINT
    ensures Trips(Int(n))
  {
    forall rest | EndsNumber(rest) ensures ParseValue(Emit(Int(n)) + rest) == Got(Normal(Int(n)), rest) {
      IntValue(n, rest);
    }
  }

  lemma MembersRoundTrip(m: seq<nat>, rest: Text)
    requires forall i :: 0 <= i < |m| ==> m[i] < 64
    ensures ParseValue(['['] + EmitMembers(m) + [']'] + rest) == Got(List(Ints(m)), rest)
  {
    hide ParseValue, Trips;
    MembersAreElems(m);
    forall i | 0 <= i < |m| ensures Writable(Ints(m)[i]) && Trips(Ints(m)[i]) {
      IntTrips(m[i]);
    }
    ListRoundTrip(Ints(m), rest);
  }

  // ----- dictionaries -----

  /** A key that is not there yet goes to the end. */
  lemma {:induction false} PutNew(d: seq<Entry>, k: Text, v: Json)
    requires forall i :: 0 <= i < |d| ==> d[i].key != k
    ensures Put(d, k, v) == d + [Entry(k, v)]
    decreases |d|
  {
    if d != [] {
      PutNew(d[1..], k, v);
      assert [d[0]] + (d[1..] + [Entry(k, v)]) == d + [Entry(k, v)];
    }
  }

  lemma {:induction false} NormalEntriesAt(d: seq<Entry>)
    ensures |NormalEntries(d)| == |d| && forall i :: 0 <= i < |d| ==> NormalEntries(d)[i] == NormalEntry(d[i])
    decreases |d|
  {
    if d != [] {
      NormalEntriesAt(d[1..]);
    }
  }

  /** One entry, from the place where its key is expected to its end. */
  lemma EntryRoundTrip(e: Entry, rest: Text)
    requires WritableEntry(e) && Trips(e.val) && EndsNumber(rest)
    ensures var s := EmitEntry(e) + rest;
            && SkipSpace(s) == s
            && var r := ParseString(s);
               && !Overruns(s) && r.AString? && r.s == SeenAll(e.key)
               && var t := SkipSpace(r.rest);
                  Peek(t) == ':' && t[1..] == Emit(e.val) + rest && SkipSpace(t[1..]) == t[1..]
    ensures ParseValue(Emit(e.val) + rest) == Got(Normal(e.val), rest)
  {
    hide ParseValue, ParseString, Emit, Normal, EmitString, Overruns;
    var s := EmitEntry(e) + rest;
    var value := Emit(e.val) + rest;
    var colon := [':'] + value;
    assert s == EmitString(e.key) + colon;
    StringStart(e.key, colon);
    SkipNothing(s);
    StringRoundTrip(e.key, colon);
    SkipNothing(colon);
    assert colon[1..] == value;
    EmitStart(e.val);
    SkipNothing(value);
  }

  lemma StringStart(t: Text, rest: Text)
    ensures Peek(EmitString(t) + rest) == QUOTE
  {
  }

  lemma {:induction false} EntriesRoundTrip(d: seq<Entry>, k: nat, rest: Text)
    requires k < |d| && Apart(d) && forall i :: 0 <= i < |d| ==> WritableEntry(d[i]) && Trips(d[i].val)
    ensures ParseEntries(EmitEntries(d[k..]) + (['}'] + rest), NormalEntries(d)[..k]) == Got(Dict(NormalEntries(d)), rest)
    decreases |d| - k
  {
    hide ParseValue, ParseString, EmitEntry, NormalEntry, SeenAll, Trips;
    NormalEntriesAt(d);
    var all, done, close := NormalEntries(d), NormalEntries(d)[..k], ['}'] + rest;
    var e := d[k];
    var s := EmitEntries(d[k..]) + close;
    EntryKeys(d, k);
    PutNew(done, SeenAll(e.key), Normal(e.val));
    EntryIs(e);
    assert done + [all[k]] == all[..k + 1];
    if k + 1 == |d| {
      assert d[k..] == [e] && s == EmitEntry(e) + close;
      EntryRoundTrip(e, close);
      SkipNothing(close);
      assert close[1..] == rest && all[..k + 1] == all;
    } else {
      var more := EmitEntries(d[k + 1..]) + close;
      var comma := [','] + more;
      assert d[k..][1..] == d[k + 1..] && s == EmitEntry(e) + comma;
      EntryRoundTrip(e, comma);
      SkipNothing(comma);
      assert comma[1..] == more;
      EntriesRoundTrip(d, k + 1, rest);
    }
  }

  lemma EntryIs(e: Entry)
    ensures NormalEntry(e) == Entry(SeenAll(e.key), Normal(e.val))
  {
  }

  lemma EntryKeys(d: seq<Entry>, k: nat)
    requires k < |d| && Apart(d)
    ensures |NormalEntries(d)| == |d| && forall i :: 0 <= i < k ==> NormalEntries(d)[..k][i].key != SeenAll(d[k].key)
  {
    hide SeenAll;
    NormalEntriesAt(d);
    forall i | 0 <= i < k ensures NormalEntries(d)[..k][i].key != SeenAll(d[k].key) {
      EntryIs(d[i]);
    }
  }

  lemma EntriesStart(d: seq<Entry>, rest: Text)
    requires d != []
    ensures Peek(EmitEntries(d) + rest) == QUOTE
  {
    assert EmitString(d[0].key)[0] == QUOTE;
    assert EmitEntry(d[0])[0] == QUOTE;
  }

  lemma DictRoundTrip(d: seq<Entry>, rest: Text)
    requires Apart(d) && forall i :: 0 <= i < |d| ==> WritableEntry(d[i]) && Trips(d[i].val)
    ensures ParseValue(['{'] + EmitEntries(d) + ['}'] + rest) == Got(Dict(NormalEntries(d)), rest)
  {
    hide ParseEntries, EmitEntry, NormalEntry, Trips, SeenAll;
    var s := ['{'] + EmitEntries(d) + ['}'] + rest;
    SkipNothing(s);
    var close := ['}'] + rest;
    var t := EmitEntries(d) + close;
    assert s[1..] == t;
    if d == [] {
      assert t == close && close[1..] == rest;
      SkipNothing(t);
    } else {
      EntriesStart(d, close);
      SkipNothing(t);
      EntriesRoundTrip(d, 0, rest);
      assert d[0..] == d && NormalEntries(d)[..0] == [];
    }
  }

  /** Reading what was written gives the value back and stops there, whatever follows, except that a number
      must not be continued by it. */
  lemma {:induction false} RoundTrip(v: Json, rest: Text)
    requires Writable(v) && (v.Int? ==> EndsNumber(rest))
    ensures ParseValue(Emit(v) + rest) == Got(Normal(v), rest)
    decreases v, 1
  {
    hide ParseValue, EmitString, EmitInt, SeenAll;
    match v
    case Null => NullValue(rest);
    case Bool(b) => BoolValue(b, rest);
    case Int(n) => IntValue(n, rest);
    case Str(s) => StringValue(s, rest);
    case Symbol(s) => if s == "null" { NullValue(rest); } else { StringValue(s, rest); }
    case Letter(c) => StringValue(OneLetter(c), rest);
    case Other => NullValue(rest);
    case Bits(m) => MembersRoundTrip(m, rest);
    case List(l) =>
      forall i | 0 <= i < |l| ensures Trips(l[i]) {
        ValueTrips(l[i]);
      }
      ListRoundTrip(l, rest);
    case Dict(d) =>
      forall i | 0 <= i < |d| ensures Trips(d[i].val) {
        assert WritableEntry(d[i]);
        ValueTrips(d[i].val);
      }
      DictRoundTrip(d, rest);
  }

  lemma {:induction false} ValueTrips(v: Json)
    requires Writable(v)
    ensures Trips(v)
    decreases v, 2
  {
    forall rest | EndsNumber(rest) ensures ParseValue(Emit(v) + rest) == Got(Normal(v), rest) {
      RoundTrip(v, rest);
    }
  }

  // ----- what comes back as it was -----

  predicate Faithful(v: Json)
    decreases v
  {
    match v
    case Str(s) => SeenAll(s) == s
    case List(l) => forall i :: 0 <= i < |l| ==> Faithful(l[i])
    case Dict(d) => forall i :: 0 <= i < |d| ==> FaithfulEntry(d[i])
    case Null => true
    case Bool(_) => true
    case Int(_) => true
    case Float(_) => true
    case _ => false
  }

  predicate FaithfulEntry(e: Entry)
    decreases e
  {
    SeenAll(e.key) == e.key && Faithful(e.val)
  }

  /** A value comes back as it was exactly if it is made of null, booleans, numbers, lists, dictionaries and
      strings without control characters other than the five that have an escape of their own. */
  lemma {:induction false} NormalIsSame(v: Json)
    ensures Normal(v) == v <==> Faithful(v)
    decreases v, 1
  {
    match v
    case List(l) =>
      NormalsAt(l);
      forall i | 0 <= i < |l| ensures Normals(l)[i] == l[i] <==> Faithful(l[i]) {
        NormalIsSame(l[i]);
      }
      assert Normals(l) == l <==> forall i :: 0 <= i < |l| ==> Normals(l)[i] == l[i];
    case Dict(d) =>
      NormalEntriesAt(d);
      forall i | 0 <= i < |d| ensures NormalEntries(d)[i] == d[i] <==> FaithfulEntry(d[i]) {
        NormalIsSame(d[i].val);
      }
      assert NormalEntries(d) == d <==> forall i :: 0 <= i < |d| ==> NormalEntries(d)[i] == d[i];
    case _ =>
  }

  lemma {:induction false} NormalsAt(l: seq<Json>)
    ensures |Normals(l)| == |l| && forall i :: 0 <= i < |l| ==> Normals(l)[i] == Normal(l[i])
    decreases |l|
  {
    if l != [] {
      NormalsAt(l[1..]);
    }
  }
}
