/** Terms as a programmer writes them, with white space and comments anywhere between the factors, numbers in
    three bases and characters in all their spellings: the scanner and the reader make of them what they mean. */
module TermLayout {
  import opened JsonText
  import opened TermText

  // ----- white space and comments -----

  /** What may stand between factors: a character up to the blank, a comment, or a comment up to the end of its
      line. */
  datatype Gap = Blank(c: char) | Comment(t: Text) | Line(t: Text)

  function SpellGap(g: Gap): Text {
    match g
    case Blank(c) => [c]
    case Comment(t) => ['(', '*'] + t + ['*', ')']
    case Line(t) => ['#'] + t + ['\n']
  }

  /** A comment ends at the first star with a parenthesis behind it. */
  predicate GapFits(g: Gap) {
    match g
    case Blank(c) => c <= ' '
    case Comment(t) => forall i :: 0 <= i < |t| ==> !(t[i] == '*' && Peek((t + ['*', ')'])[i + 1..]) == ')')
    case Line(t) => '\n' !in t
  }

  function SpellGaps(gs: seq<Gap>): Text {
    if gs == [] then [] else SpellGap(gs[0]) + SpellGaps(gs[1..])
  }

  predicate GapsFit(gs: seq<Gap>) {
    forall i :: 0 <= i < |gs| ==> GapFits(gs[i])
  }

  lemma {:induction false} CommentSkipped(t: Text, s: Text)
    requires GapFits(Comment(t))
    ensures SkipComment(t + (['*', ')'] + s)) == s
    decreases |t|
  {
    var all := t + (['*', ')'] + s);
    if t == [] {
      assert all == ['*', ')'] + s && all[1..][0] == ')' && all[2..] == s;
    } else {
      var more := t[1..] + (['*', ')'] + s);
      assert all[1..] == more;
      CommentTail(t);
      assert (t + ['*', ')'])[0 + 1..] == t[1..] + ['*', ')'];
      assert Peek(more) == Peek(t[1..] + ['*', ')']);
      CommentSkipped(t[1..], s);
    }
  }

  lemma CommentTail(t: Text)
    requires t != [] && GapFits(Comment(t))
    ensures GapFits(Comment(t[1..]))
  {
    var u := t[1..];
    forall i | 0 <= i < |u| ensures !(u[i] == '*' && Peek((u + ['*', ')'])[i + 1..]) == ')') {
      assert (t + ['*', ')'])[(i + 1) + 1..] == (u + ['*', ')'])[i + 1..];
    }
  }

  lemma {:induction false} LineSkipped(t: Text, s: Text)
    requires '\n' !in t
    ensures SkipLine(t + (['\n'] + s)) == ['\n'] + s
    decreases |t|
  {
    if t == [] {
      assert t + (['\n'] + s) == ['\n'] + s;
    } else {
      assert (t + (['\n'] + s))[1..] == t[1..] + (['\n'] + s);
      LineSkipped(t[1..], s);
    }
  }

  lemma BlankPassed(c: char, s: Text)
    requires c <= ' '
    ensures Scan([c] + s) == Scan(s)
  {
    assert ([c] + s)[1..] == s;
  }

  lemma CommentPassed(t: Text, s: Text)
    requires GapFits(Comment(t))
    ensures Scan(['(', '*'] + (t + (['*', ')'] + s))) == Scan(s)
  {
    hide SkipComment, GapFits;
    var inner := t + (['*', ')'] + s);
    var all := ['(', '*'] + inner;
    assert SkipBlank(all) == all && all[1..][0] == '*' && all[2..] == inner;
    CommentSkipped(t, s);
  }

  lemma LinePassed(t: Text, s: Text)
    requires '\n' !in t
    ensures Scan(['#'] + (t + (['\n'] + s))) == Scan(s)
  {
    hide SkipLine;
    var inner := t + (['\n'] + s);
    var all := ['#'] + inner;
    assert SkipBlank(all) == all && all[1..] == inner;
    LineSkipped(t, s);
    BlankPassed('\n', s);
  }

  lemma GapPassed(g: Gap, s: Text)
    requires GapFits(g)
    ensures Scan(SpellGap(g) + s) == Scan(s)
  {
    hide Scan;
    match g
    case Blank(c) => BlankPassed(c, s);
    case Comment(t) =>
      assert SpellGap(g) + s == ['(', '*'] + (t + (['*', ')'] + s));
      CommentPassed(t, s);
    case Line(t) =>
      assert SpellGap(g) + s == ['#'] + (t + (['\n'] + s));
      LinePassed(t, s);
  }

  /** Gaps make no difference to the scanner. */
  lemma {:induction false} GapsPassed(gs: seq<Gap>, s: Text)
    requires GapsFit(gs)
    ensures Scan(SpellGaps(gs) + s) == Scan(s)
    decreases |gs|
  {
    hide Scan, GapFits, SpellGap;
    if gs == [] {
      assert SpellGaps(gs) + s == s;
    } else {
      assert SpellGaps(gs) + s == SpellGap(gs[0]) + (SpellGaps(gs[1..]) + s);
      GapPassed(gs[0], SpellGaps(gs[1..]) + s);
      GapsPassed(gs[1..], s);
    }
  }

  // ----- numbers -----

  /** The value of a digit. */
  function Digit16(c: char): nat {
    if '0' <= c <= '9' then c as int - '0' as int
    else if 'a' <= c <= 'f' then c as int - 'a' as int + 10
    else if 'A' <= c <= 'F' then c as int - 'A' as int + 10
    else 16
  }

  predicate DigitsOf(t: Text, base: nat) {
    forall i :: 0 <= i < |t| ==> Digit16(t[i]) < base
  }

  /** The number that digits stand for. */
  function Place(t: Text, base: nat): nat {
    if t == [] then 0 else base * Place(t[..|t| - 1], base) + Digit16(t[|t| - 1])
  }

  lemma PlaceMore(pre: Text, c: char, base: nat)
    ensures Place(pre + [c], base) == base * Place(pre, base) + Digit16(c)
  {
    assert (pre + [c])[..|pre|] == pre;
  }

  lemma {:induction false} ConvertPlace(pre: Text, t: Text, base: nat)
    requires DigitsOf(t, base) && base <= 16
    ensures Convert(t, base, Place(pre, base)) == Converted(Place(pre + t, base), [])
    decreases |t|
  {
    if t == [] {
      assert pre + t == pre;
    } else {
      var more := pre + [t[0]];
      PlaceMore(pre, t[0], base);
      assert more + t[1..] == pre + t;
      ConvertPlace(more, t[1..], base);
      hide Place;
      assert DigitOf(t[0]) == Digit16(t[0]);
    }
  }

  /** A number: decimal without a leading 0, octal with one, or hexadecimal. */
  datatype Numeral = Decimal(digits: Text) | Octal(digits: Text) | Hexadecimal(x: char, digits: Text)

  function SpellNumeral(n: Numeral): Text {
    match n
    case Decimal(d) => d
    case Octal(d) => ['0'] + d
    case Hexadecimal(x, d) => ['0', x] + d
  }

  predicate NumeralFits(n: Numeral) {
    match n
    case Decimal(d) => d != [] && d[0] != '0' && DigitsOf(d, 10)
    case Octal(d) => DigitsOf(d, 8)
    case Hexadecimal(x, d) => (x == 'x' || x == 'X') && d != [] && DigitsOf(d, 16)
  }

  function NumeralValue(n: Numeral): nat {
    match n
    case Decimal(d) => Place(d, 10)
    case Octal(d) => Place(d, 8)
    case Hexadecimal(_, d) => Place(d, 16)
  }

  lemma {:induction false} PlaceZero(t: Text, base: nat)
    ensures Place(['0'] + t, base) == Place(t, base)
    decreases |t|
  {
    if t != [] {
      assert (['0'] + t)[..|t|] == ['0'] + t[..|t| - 1];
      PlaceZero(t[..|t| - 1], base);
    } else {
      assert (['0'] + t)[..0] == [];
    }
  }

  lemma DecimalConverts(d: Text)
    requires d != [] && d[0] != '0' && DigitsOf(d, 10)
    ensures IsDigit(d[0]) && ToInteger(d) == Converted(if Place(d, 10) > MAXINT then MAXINT else Place(d, 10), [])
  {
    hide Convert, Place;
    NoPlace(10);
    ConvertPlace([], d, 10);
    assert [] + d == d;
  }

  lemma NoPlace(base: nat)
    ensures Place([], base) == 0
  {
  }

  lemma OctalConverts(d: Text)
    requires DigitsOf(d, 8)
    ensures ToInteger(['0'] + d) == Converted(if Place(d, 8) > MAXINT then MAXINT else Place(d, 8), [])
  {
    hide Convert, Place;
    var s := ['0'] + d;
    NoPlace(8);
    ConvertPlace([], s, 8);
    assert [] + s == s;
    PlaceZero(d, 8);
    assert |s| >= 3 ==> s[1] == d[0];
  }

  lemma HexConverts(x: char, d: Text)
    requires (x == 'x' || x == 'X') && d != [] && DigitsOf(d, 16)
    ensures ToInteger(['0', x] + d) == Converted(if Place(d, 16) > MAXINT then MAXINT else Place(d, 16), [])
  {
    hide Convert, Place;
    var s := ['0', x] + d;
    NoPlace(16);
    ConvertPlace([], d, 16);
    assert [] + d == d && s[2..] == d && s[2] == d[0];
  }

  lemma NumeralConverts(n: Numeral)
    requires NumeralFits(n)
    ensures var s := SpellNumeral(n);
            && s != [] && IsDigit(s[0])
            && ToInteger(s) == Converted(if NumeralValue(n) > MAXINT then MAXINT else NumeralValue(n), [])
  {
    hide ToInteger, Place, DigitsOf;
    match n
    case Decimal(d) => DecimalConverts(d);
    case Octal(d) => OctalConverts(d);
    case Hexadecimal(x, d) => HexConverts(x, d);
  }

  lemma NumeralInWord(n: Numeral)
    requires NumeralFits(n)
    ensures forall i :: 0 <= i < |SpellNumeral(n)| ==> InWord(SpellNumeral(n)[i])
  {
    assert forall c: char :: Digit16(c) < 16 ==> InWord(c);
    assert InWord('0') && InWord('x') && InWord('X');
  }

  /** Where a word of digits, with or without a sign, ends. */
  lemma NumberShape(minus: bool, d: Text, rest: Text) returns (k: nat)
    requires d != [] && IsDigit(d[0]) && (forall i :: 0 <= i < |d| ==> InWord(d[i])) && Ends(rest)
    ensures var s := (if minus then "-" else "") + (d + rest);
            && 0 < k <= |s| && (s[0] == '-' <==> minus) && (IsDigit(s[0]) || (k > 1 && s[0] == '-' && IsDigit(s[1])))
            && (if s[0] == '-' then s[1..k] else s[..k]) == d && s[k..] == rest && Scan(s) == NumberAt(s, k)
  {
    hide Scan, NumberAt, InWord, Ends;
    if minus {
      k := 1 + |d|;
      NegativeShape(d, rest);
    } else {
      k := |d|;
      PositiveShape(d, rest);
      assert "" + (d + rest) == d + rest;
    }
  }

  lemma NegativeShape(d: Text, rest: Text)
    requires d != [] && IsDigit(d[0]) && (forall i :: 0 <= i < |d| ==> InWord(d[i])) && Ends(rest)
    ensures var s, k := "-" + (d + rest), 1 + |d|;
            && k <= |s| && s[0] == '-' && IsDigit(s[1]) && s[1..k] == d && s[k..] == rest && Scan(s) == NumberAt(s, k)
  {
    hide Scan, Word, NumberAt, Run;
    var s, k := "-" + (d + rest), 1 + |d|;
    assert s[1..] == d + rest && s[1] == d[0] && s[1..][0] == d[0];
    RunAll(d, rest);
    assert s[k..] == rest && s[1..k] == d;
    NumberWord(s, k, rest);
    WordScan(s);
  }

  lemma PositiveShape(d: Text, rest: Text)
    requires d != [] && IsDigit(d[0]) && (forall i :: 0 <= i < |d| ==> InWord(d[i])) && Ends(rest)
    ensures var s, k := d + rest, |d|;
            && k <= |s| && s[0] != '-' && IsDigit(s[0]) && s[..k] == d && s[k..] == rest && Scan(s) == NumberAt(s, k)
  {
    hide Scan, Word, NumberAt, Run;
    var s, k := d + rest, |d|;
    assert s[1..] == d[1..] + rest && s[0] == d[0];
    RunAll(d[1..], rest);
    assert s[k..] == rest && s[..k] == d;
    NumberWord(s, k, rest);
    WordScan(s);
  }

  /** A number is read with its value, in each of the bases; the largest one and what is beyond it turn into a
      floating-point number. */
  lemma NumeralReads(minus: bool, n: Numeral, rest: Text)
    requires NumeralFits(n) && Ends(rest)
    ensures var v: int := NumeralValue(n);
            Scan((if minus then "-" else "") + (SpellNumeral(n) + rest)) ==
            Scanned(if v >= 0x7fff_ffff_ffff_ffff then TFloat else TInt(if minus then -v else v), rest)
  {
    hide ToInteger, Scan, NumberAt, SpellNumeral, NumeralValue, NumeralFits;
    var d := SpellNumeral(n);
    NumeralConverts(n);
    NumeralInWord(n);
    var k := NumberShape(minus, d, rest);
    NumberConverted((if minus then "-" else "") + (d + rest), k, d, rest);
  }

  lemma NumberConverted(s: Text, k: nat, d: Text, rest: Text)
    requires 0 < k <= |s| && (IsDigit(s[0]) || (k > 1 && s[0] == '-' && IsDigit(s[1])))
    requires d != [] && IsDigit(d[0]) && (if s[0] == '-' then s[1..k] else s[..k]) == d && s[k..] == rest && ToInteger(d).rest == []
    ensures var v: int := ToInteger(d).value;
            NumberAt(s, k) == Scanned(if v == MAXINT then TFloat else TInt(if s[0] == '-' then -v else v), rest)
  {
    hide ToInteger;
    assert [] + rest == rest;
  }

  // ----- characters -----

  /** A character itself, or a backslash and a letter that stands for a control character, a code of up to three
      digits, or any other character. */
  datatype Mark = Self(c: char) | Letter(c: char) | Codes(d: Text) | Other(c: char)

  function SpellMark(m: Mark): Text {
    match m
    case Self(c) => [c]
    case Letter(c) => ['\\', c]
    case Codes(d) => ['\\'] + d
    case Other(c) => ['\\', c]
  }

  /** A code of fewer than three digits ends where no digit follows. */
  predicate MarkFits(m: Mark, tail: Text) {
    match m
    case Self(c) => c != '\\'
    case Letter(c) => c in "btnvfr"
    case Codes(d) => 1 <= |d| <= 3 && DigitsOf(d, 10) && (|d| < 3 ==> !IsDigit(Peek(tail)))
    case Other(c) => c !in "btnvfr" && !IsDigit(c)
  }

  function MarkCode(m: Mark): nat {
    match m
    case Self(c) => c as int
    case Letter(c) =>
      if c == 'b' then 8 else if c == 't' then 9 else if c == 'n' then 10
      else if c == 'v' then 11 else if c == 'f' then 12 else 13
    case Codes(d) => Place(d, 10)
    case Other(c) => c as int
  }

  lemma CodesRead(d: Text, tail: Text)
    requires 1 <= |d| <= 3 && DigitsOf(d, 10) && (|d| < 3 ==> !IsDigit(Peek(tail)))
    ensures Special(d + tail) == Escaped(Place(d, 10), tail)
  {
    hide Special, Place, DigitsOf, Digit16, Code, IsDigit;
    PlaceFew(d);
    forall i | 0 <= i < |d| ensures IsDigit(d[i]) && Digit16(d[i]) == Code(d[i]) - 48 {
      DecimalDigit(d, i);
    }
    if |d| == 1 {
      OneCode(d[0], tail);
      assert d + tail == [d[0]] + tail;
    } else if |d| == 2 {
      TwoCodes(d[0], d[1], tail);
      assert d + tail == [d[0], d[1]] + tail;
    } else {
      ThreeCodes(d[0], d[1], d[2], tail);
      assert d + tail == [d[0], d[1], d[2]] + tail;
    }
  }

  lemma DecimalDigit(d: Text, i: nat)
    requires DigitsOf(d, 10) && i < |d|
    ensures IsDigit(d[i]) && Digit16(d[i]) == Code(d[i]) - 48
  {
  }

  lemma OneCode(a: char, tail: Text)
    requires IsDigit(a) && !IsDigit(Peek(tail))
    ensures Special([a] + tail) == Escaped(Code(a) - 48, tail)
  {
    assert ([a] + tail)[1..] == tail;
  }

  lemma TwoCodes(a: char, b: char, tail: Text)
    requires IsDigit(a) && IsDigit(b) && !IsDigit(Peek(tail))
    ensures Special([a, b] + tail) == Escaped(10 * (Code(a) - 48) + (Code(b) - 48), tail)
  {
    assert ([a, b] + tail)[1..] == [b] + tail && ([a, b] + tail)[2..] == tail;
  }

  lemma ThreeCodes(a: char, b: char, c: char, tail: Text)
    requires IsDigit(a) && IsDigit(b) && IsDigit(c)
    ensures Special([a, b, c] + tail) == Escaped(100 * (Code(a) - 48) + 10 * (Code(b) - 48) + (Code(c) - 48), tail)
  {
    var s := [a, b, c] + tail;
    assert s[1..] == [b, c] + tail && s[2..] == [c] + tail && s[3..] == tail;
  }

  lemma PlaceFew(d: Text)
    requires DigitsOf(d, 10)
    ensures |d| == 1 ==> Place(d, 10) == Digit16(d[0])
    ensures |d| == 2 ==> Place(d, 10) == 10 * Digit16(d[0]) + Digit16(d[1])
    ensures |d| == 3 ==> Place(d, 10) == 100 * Digit16(d[0]) + 10 * Digit16(d[1]) + Digit16(d[2])
  {
    assert Place([], 10) == 0;
    if |d| > 1 {
      assert d[..|d| - 1][..|d| - 2] == d[..|d| - 2];
    }
    if |d| == 3 {
      assert d[..2][..1] == d[..1] && d[..1][..0] == [];
      assert Place(d[..1], 10) == Digit16(d[0]);
      assert Place(d[..2], 10) == 10 * Digit16(d[0]) + Digit16(d[1]);
    }
  }

  lemma MarkReads(m: Mark, tail: Text)
    requires MarkFits(m, tail) && !m.Self?
    ensures SpellMark(m) + tail == ['\\'] + (SpellMark(m)[1..] + tail)
    ensures Special(SpellMark(m)[1..] + tail) == Escaped(MarkCode(m), tail)
  {
    hide Place, DigitsOf, Special;
    match m
    case Letter(c) =>
      assert SpellMark(m)[1..] == [c];
      LetterMark(c, tail);
    case Codes(d) =>
      assert SpellMark(m)[1..] == d;
      CodesRead(d, tail);
    case Other(c) =>
      assert SpellMark(m)[1..] == [c];
      OtherMark(c, tail);
  }

  lemma LetterMark(c: char, tail: Text)
    requires c in "btnvfr"
    ensures Special([c] + tail) == Escaped(MarkCode(Mark.Letter(c)), tail)
  {
    assert ([c] + tail)[1..] == tail && ([c] + tail)[0] == c;
    assert c == 'b' || c == 't' || c == 'n' || c == 'v' || c == 'f' || c == 'r';
  }

  lemma OtherMark(c: char, tail: Text)
    requires c !in "btnvfr" && !IsDigit(c)
    ensures Special([c] + tail) == Escaped(Code(c), tail)
  {
    assert ([c] + tail)[1..] == tail && ([c] + tail)[0] == c;
    assert "btnvfr"[0] == 'b' && "btnvfr"[1] == 't' && "btnvfr"[2] == 'n' && "btnvfr"[3] == 'v' && "btnvfr"[4] == 'f'
           && "btnvfr"[5] == 'r';
  }

  lemma CharacterReads(m: Mark, tail: Text)
    requires MarkFits(m, tail)
    ensures Scan(['\''] + (SpellMark(m) + tail)) == Scanned(TChr(MarkCode(m)), tail)
  {
    hide Special, MarkFits;
    var s := ['\''] + (SpellMark(m) + tail);
    assert SkipBlank(s) == s && s[1..] == SpellMark(m) + tail;
    if m.Self? {
      SelfIs(m, tail);
      assert s[1] == m.c && s[2..] == tail;
    } else {
      MarkReads(m, tail);
      assert s[1] == SLASH && s[2..] == SpellMark(m)[1..] + tail;
    }
  }

  lemma SelfIs(m: Mark, tail: Text)
    requires m.Self? && MarkFits(m, tail)
    ensures m.c != SLASH
  {
  }

  // ----- strings -----

  function SpellMarks(ms: seq<Mark>): Text {
    if ms == [] then [] else SpellMark(ms[0]) + SpellMarks(ms[1..])
  }

  predicate MarksFit(ms: seq<Mark>, tail: Text) {
    ms == [] || (MarkFits(ms[0], SpellMarks(ms[1..]) + tail) && ms[0] != Self('\"') && MarksFit(ms[1..], tail))
  }

  /** The bytes of a string. */
  function Bytes(ms: seq<Mark>): Text {
    if ms == [] then [] else [(MarkCode(ms[0]) % 256) as char] + Bytes(ms[1..])
  }

  lemma {:induction false} MarksRead(ms: seq<Mark>, rest: Text)
    requires MarksFit(ms, ['\"'] + rest) && forall i :: 0 <= i < |ms| ==> ms[i].Self? ==> ms[i].c as int < 256
    ensures TermText.Chars(SpellMarks(ms) + (['\"'] + rest)) == AString(Bytes(ms), rest)
    decreases |ms|
  {
    hide MarkFits, SpellMark, MarkCode, Special;
    var close := ['\"'] + rest;
    if ms == [] {
      assert SpellMarks(ms) + close == close && close[1..] == rest;
    } else {
      hide TermText.Chars;
      var tail := SpellMarks(ms[1..]) + close;
      assert SpellMarks(ms) + close == SpellMark(ms[0]) + tail;
      MarksRead(ms[1..], rest);
      MarkStep(ms[0], tail);
    }
  }

  lemma MarkStep(m: Mark, tail: Text)
    requires MarkFits(m, tail) && m != Self('\"') && (m.Self? ==> m.c as int < 256)
    ensures TermText.Chars(SpellMark(m) + tail) == JsonText.Cons((MarkCode(m) % 256) as char, TermText.Chars(tail))
  {
    hide Special;
    var s := SpellMark(m) + tail;
    if m.Self? {
      assert s == [m.c] + tail && s[1..] == tail;
    } else {
      MarkReads(m, tail);
      assert s[1..] == SpellMark(m)[1..] + tail;
    }
  }

  /** A string ends at its first character 0. */
  lemma {:induction false} ZeroEnds(s: Text)
    ensures UpToZero(s) <= s && Terminated(UpToZero(s))
    ensures |UpToZero(s)| < |s| ==> s[|UpToZero(s)|] == 0 as char
    decreases |s|
  {
    if s != [] && s[0] != 0 as char {
      ZeroEnds(s[1..]);
      assert s == [s[0]] + s[1..];
    }
  }

  lemma StringScans(ms: seq<Mark>, rest: Text)
    requires MarksFit(ms, ['\"'] + rest) && forall i :: 0 <= i < |ms| ==> ms[i].Self? ==> ms[i].c as int < 256
    ensures Scan(['\"'] + (SpellMarks(ms) + (['\"'] + rest))) == Scanned(TText(UpToZero(Bytes(ms))), rest)
  {
    hide TermText.Chars, MarksFit, UpToZero;
    var s := ['\"'] + (SpellMarks(ms) + (['\"'] + rest));
    MarksRead(ms, rest);
    assert SkipBlank(s) == s && s[1..] == SpellMarks(ms) + (['\"'] + rest);
  }

  // ----- terms -----

  datatype Form =
    | NumberForm(minus: bool, numeral: Numeral)
    | CharForm(mark: Mark)
    | StringForm(marks: seq<Mark>)
    | NameForm(name: Text)
    | SetForm(parts: seq<Part>, last: seq<Gap>)
    | ListForm(parts: seq<Part>, last: seq<Gap>)

  /** A factor with what stands before it. */
  datatype Part = Part(gaps: seq<Gap>, form: Form)

  function Spell(f: Form): Text
    decreases f
  {
    match f
    case NumberForm(minus, n) => (if minus then "-" else "") + SpellNumeral(n)
    case CharForm(m) => ['\''] + SpellMark(m)
    case StringForm(ms) => ['\"'] + SpellMarks(ms) + ['\"']
    case NameForm(s) => s
    case SetForm(parts, last) => ['{'] + SpellParts(parts) + SpellGaps(last) + ['}']
    case ListForm(parts, last) => ['['] + SpellParts(parts) + SpellGaps(last) + [']']
  }

  function SpellParts(parts: seq<Part>): Text
    decreases parts
  {
    if parts == [] then [] else SpellPart(parts[0]) + SpellParts(parts[1..])
  }

  function SpellPart(p: Part): Text
    decreases p
  {
    SpellGaps(p.gaps) + Spell(p.form)
  }

  /** Form f may stand in front of tail: numbers below the largest one, and names, end where a word ends, and members
      of sets are numbers or characters below 64. */
  predicate Fits(f: Form, tail: Text)
    decreases f
  {
    match f
    case NumberForm(_, n) => NumeralFits(n) && NumeralValue(n) < 0x7fff_ffff_ffff_ffff && Ends(tail)
    case CharForm(m) => MarkFits(m, tail)
    case StringForm(ms) => MarksFit(ms, ['\"'] + tail) && forall i :: 0 <= i < |ms| ==> ms[i].Self? ==> ms[i].c as int < 256
    case NameForm(s) =>
      && s != [] && (forall i :: 0 <= i < |s| ==> InWord(s[i])) && !Numeric(s) && s[0] != '$'
      && Ends(tail) && (tail[0] == '.' ==> !InMember(Peek(tail[1..])))
    case SetForm(parts, last) =>
      PartsFit(parts, SpellGaps(last) + (['}'] + tail)) && GapsFit(last) && forall i :: 0 <= i < |parts| ==> Member(parts[i].form)
    case ListForm(parts, last) => PartsFit(parts, SpellGaps(last) + ([']'] + tail)) && GapsFit(last)
  }

  predicate PartsFit(parts: seq<Part>, close: Text)
    decreases parts
  {
    parts == [] || (PartFits(parts[0], SpellParts(parts[1..]) + close) && PartsFit(parts[1..], close))
  }

  predicate PartFits(p: Part, tail: Text)
    decreases p
  {
    GapsFit(p.gaps) && Fits(p.form, tail)
  }

  predicate Member(f: Form) {
    match f
    case NumberForm(minus, n) => NumeralValue(n) < 64 && (minus ==> NumeralValue(n) == 0)
    case CharForm(m) => MarkCode(m) < 64
    case _ => false
  }

  /** What a factor means. */
  function Meaning(f: Form): Factor
    decreases f
  {
    match f
    case NumberForm(minus, n) => var v: int := NumeralValue(n); Num(if minus then -v else v)
    case CharForm(m) => Chr(MarkCode(m))
    case StringForm(ms) => Text_(UpToZero(Bytes(ms)))
    case NameForm(s) => Name(s)
    case SetForm(parts, _) => Set(Values(parts))
    case ListForm(parts, _) => Quote(Meanings(parts))
  }

  function MemberValue(f: Form): nat
    requires Member(f)
  {
    match f
    case NumberForm(_, n) => NumeralValue(n)
    case CharForm(m) => MarkCode(m)
  }

  /** The members of a set. */
  function Values(parts: seq<Part>): set<nat> {
    set i | 0 <= i < |parts| && Member(parts[i].form) :: MemberValue(parts[i].form)
  }

  function Meanings(parts: seq<Part>): (l: seq<Factor>)
    ensures |l| == |parts|
    decreases parts
  {
    if parts == [] then [] else [PartMeaning(parts[0])] + Meanings(parts[1..])
  }

  function PartMeaning(p: Part): Factor
    decreases p
  {
    Meaning(p.form)
  }

  /** Scanning f and reading on gives what it means and stops in front of tail. */
  ghost predicate ReadsAs(f: Form, tail: Text) {
    var x := Scan(Spell(f) + tail);
    x.tok != TEnd && !EndsTerm(x.tok) && ReadFactor(x.tok, x.rest) == AFactor(Meaning(f), tail)
  }

  lemma NumberForms(minus: bool, n: Numeral, tail: Text)
    requires NumeralFits(n) && NumeralValue(n) < 0x7fff_ffff_ffff_ffff && Ends(tail)
    ensures ReadsAs(NumberForm(minus, n), tail)
  {
    hide Scan, SpellNumeral, NumeralValue, NumeralFits, Ends;
    NumeralReads(minus, n, tail);
    assert Spell(NumberForm(minus, n)) + tail == (if minus then "-" else "") + (SpellNumeral(n) + tail);
  }

  lemma CharForms(m: Mark, tail: Text)
    requires MarkFits(m, tail)
    ensures ReadsAs(CharForm(m), tail)
  {
    hide Scan, SpellMark, MarkFits, MarkCode;
    CharacterReads(m, tail);
    assert Spell(CharForm(m)) + tail == ['\''] + (SpellMark(m) + tail);
  }

  lemma StringForms(ms: seq<Mark>, tail: Text)
    requires Fits(StringForm(ms), tail)
    ensures ReadsAs(StringForm(ms), tail)
  {
    hide Scan, SpellMarks, MarksFit, Bytes, UpToZero;
    StringScans(ms, tail);
    assert Spell(StringForm(ms)) + tail == ['\"'] + (SpellMarks(ms) + (['\"'] + tail));
  }

  lemma NameForms(s: Text, tail: Text)
    requires Fits(NameForm(s), tail)
    ensures ReadsAs(NameForm(s), tail)
  {
    hide Scan, Run, NumberAt, Word;
    var all := s + tail;
    assert all[1..] == s[1..] + tail;
    RunAll(s[1..], tail);
    assert all[..|s|] == s && all[|s|..] == tail && all[0] == s[0];
    assert |s| > 1 ==> all[1..][0] == s[1..][0];
    assert Numeric(all) ==> s[0] == '-' && |s| == 1;
    assert |s| + 1 < |all| ==> all[|s| + 1] == tail[1..][0];
    WordScan(all);
    NameWord(all, |s|);
  }

  lemma NameWord(s: Text, k: nat)
    requires s != [] && s[0] > ' ' && !Numeric(s) && k == 1 + Run(s[1..])
    requires k + 1 < |s| && s[k] == '.' ==> !InMember(s[k + 1])
    ensures Word(s) == Scanned(TName(s[..k]), s[k..])
  {
    hide Run, NumberAt;
  }

  lemma PartScan(p: Part, tail: Text)
    requires GapsFit(p.gaps)
    ensures Scan(SpellPart(p) + tail) == Scan(Spell(p.form) + tail)
  {
    hide Scan, Spell, SpellGaps;
    assert SpellPart(p) + tail == SpellGaps(p.gaps) + (Spell(p.form) + tail);
    GapsPassed(p.gaps, Spell(p.form) + tail);
  }

  /** Reading factors up to a character that ends terms. */
  lemma {:induction false} PartsRead(parts: seq<Part>, last: seq<Gap>, c: char, rest: Text)
    requires PartsFit(parts, SpellGaps(last) + ([c] + rest)) && GapsFit(last) && c in ".;]}"
    ensures var x := Scan(SpellParts(parts) + (SpellGaps(last) + ([c] + rest)));
            x.tok != TEnd && ReadTerm(x.tok, x.rest) == ATerm(Meanings(parts), TPunct(c), rest)
    decreases parts
  {
    hide Scan, ReadFactor, ReadTerm, Spell, SpellGaps, SpellPart, Fits, Meaning, PartMeaning, ReadsAs;
    var close := SpellGaps(last) + ([c] + rest);
    if parts == [] {
      assert SpellParts(parts) + close == close;
      GapsPassed(last, [c] + rest);
      CloseScan(c, rest);
      TermEnds(c, rest);
    } else {
      var p, tail := parts[0], SpellParts(parts[1..]) + close;
      assert SpellParts(parts) + close == SpellPart(p) + tail;
      PartScan(p, tail);
      FormReads(p.form, tail);
      PartsRead(parts[1..], last, c, rest);
      PartMore(p, tail);
    }
  }

  lemma TermEnds(c: char, rest: Text)
    requires c in ".;]}"
    ensures ReadTerm(TPunct(c), rest) == ATerm([], TPunct(c), rest)
  {
  }

  lemma PartMore(p: Part, tail: Text)
    requires ReadsAs(p.form, tail) && Scan(tail).tok != TEnd
    ensures var x, next := Scan(Spell(p.form) + tail), Scan(tail);
            var r := ReadTerm(next.tok, next.rest);
            x.tok != TEnd && ReadTerm(x.tok, x.rest) == if r.ATerm? then ATerm([PartMeaning(p)] + r.l, r.tok, r.rest) else NoTerm
  {
    hide Scan, ReadFactor, Spell, Meaning, ReadTerm;
    var x := Scan(Spell(p.form) + tail);
    ReadMore(x.tok, x.rest, Meaning(p.form), tail);
  }

  lemma ListForms(parts: seq<Part>, last: seq<Gap>, tail: Text)
    requires var x := Scan(SpellParts(parts) + (SpellGaps(last) + ([']'] + tail)));
             x.tok != TEnd && ReadTerm(x.tok, x.rest) == ATerm(Meanings(parts), TPunct(']'), tail)
    ensures ReadsAs(ListForm(parts, last), tail)
  {
    hide Scan, ReadTerm, SpellParts, SpellGaps, Meanings;
    var inner := SpellParts(parts) + (SpellGaps(last) + ([']'] + tail));
    assert Spell(ListForm(parts, last)) + tail == ['['] + inner;
    CloseScan('[', inner);
  }

  lemma ValuesMore(parts: seq<Part>)
    requires parts != [] && Member(parts[0].form)
    ensures Values(parts) == {MemberValue(parts[0].form)} + Values(parts[1..])
  {
    hide Member, MemberValue;
    var more := parts[1..];
    forall v | v in Values(parts) ensures v in {MemberValue(parts[0].form)} + Values(more) {
      var i :| 0 <= i < |parts| && Member(parts[i].form) && v == MemberValue(parts[i].form);
      assert i > 0 ==> more[i - 1] == parts[i];
    }
    forall v | v in Values(more) ensures v in Values(parts) {
      var i :| 0 <= i < |more| && Member(more[i].form) && v == MemberValue(more[i].form);
      assert parts[i + 1] == more[i];
    }
  }

  lemma {:induction false} MembersRead(parts: seq<Part>)
    requires forall i :: 0 <= i < |parts| ==> Member(parts[i].form)
    ensures Small(Meanings(parts)) && ListToSet(Meanings(parts)) == Values(parts)
    decreases |parts|
  {
    if parts != [] {
      MembersRead(parts[1..]);
      ValuesMore(parts);
      MemberMeans(parts[0].form);
      hide Values, NumeralValue, MarkCode, Meaning, MemberValue, Member;
      var l := Meanings(parts);
      assert l[0] == Meaning(parts[0].form) && l[1..] == Meanings(parts[1..]);
    }
  }

  lemma MemberMeans(f: Form)
    requires Member(f)
    ensures Meaning(f) == Num(MemberValue(f)) || Meaning(f) == Chr(MemberValue(f))
    ensures MemberValue(f) < 64
  {
  }

  lemma SetForms(parts: seq<Part>, last: seq<Gap>, tail: Text)
    requires forall i :: 0 <= i < |parts| ==> Member(parts[i].form)
    requires var x := Scan(SpellParts(parts) + (SpellGaps(last) + (['}'] + tail)));
             x.tok != TEnd && ReadTerm(x.tok, x.rest) == ATerm(Meanings(parts), TPunct('}'), tail)
    ensures ReadsAs(SetForm(parts, last), tail)
  {
    hide Scan, ReadTerm, ReadFactor, Spell, SpellParts, SpellGaps, Meaning, Meanings, Member, Small, ListToSet, Values;
    var inner := SpellParts(parts) + (SpellGaps(last) + (['}'] + tail));
    SetSpelled(parts, last, tail);
    SetMeans(parts, last);
    CloseScan('{', inner);
    MembersRead(parts);
    BraceReads(inner, Meanings(parts), tail);
  }

  lemma SetSpelled(parts: seq<Part>, last: seq<Gap>, tail: Text)
    ensures Spell(SetForm(parts, last)) + tail == ['{'] + (SpellParts(parts) + (SpellGaps(last) + (['}'] + tail)))
  {
    hide SpellParts, SpellGaps;
  }

  lemma SetMeans(parts: seq<Part>, last: seq<Gap>)
    ensures Meaning(SetForm(parts, last)) == Set(Values(parts))
  {
  }

  lemma BraceReads(inner: Text, l: seq<Factor>, tail: Text)
    requires var x := Scan(inner); x.tok != TEnd && ReadTerm(x.tok, x.rest) == ATerm(l, TPunct('}'), tail)
    requires Small(l)
    ensures ReadFactor(TPunct('{'), inner) == AFactor(Set(ListToSet(l)), tail)
  {
    hide Scan, ReadTerm, Small, ListToSet;
  }

  /** Every factor is read as it is meant, whatever white space and comments stand in it. */
  lemma {:induction false} FormReads(f: Form, tail: Text)
    requires Fits(f, tail)
    ensures ReadsAs(f, tail)
    decreases f
  {
    hide ReadsAs, PartsFit, MarksFit, MarkFits, GapsFit, SpellGaps, Scan, ReadTerm;
    match f
    case NumberForm(minus, n) => NumberForms(minus, n, tail);
    case CharForm(m) => CharForms(m, tail);
    case StringForm(ms) => StringForms(ms, tail);
    case NameForm(s) => NameForms(s, tail);
    case ListForm(parts, last) =>
      PartsRead(parts, last, ']', tail);
      ListForms(parts, last, tail);
    case SetForm(parts, last) =>
      PartsRead(parts, last, '}', tail);
      SetForms(parts, last, tail);
  }

  // ----- what the printer writes -----

  function NumberFormOf(n: int): Form {
    NumberForm(n < 0, if n == 0 then Octal([]) else Decimal(Digits(if n < 0 then -n else n)))
  }

  function ControlMark(c: nat): Mark
    requires c < 1000
  {
    if c == 8 then Mark.Letter('b') else if c == 9 then Mark.Letter('t') else if c == 10 then Mark.Letter('n')
    else if c == 11 then Mark.Letter('v') else if c == 12 then Mark.Letter('f') else if c == 13 then Mark.Letter('r')
    else Codes(Three(c))
  }

  /** A character is printed as it is, but for control characters, the blank and, in a string, quotation marks. */
  function CharMark(c: nat): Mark
    requires c < 128
  {
    if c <= 32 || c == 127 then ControlMark(c) else Self(c as char)
  }

  function StringMark(c: char): Mark
    requires Code(c) < 128
  {
    if c == '\"' then Mark.Other(c) else if Code(c) < 32 || Code(c) == 127 then ControlMark(Code(c)) else Self(c)
  }

  function StringMarks(s: Text): (ms: seq<Mark>)
    requires Ascii(s)
    ensures |ms| == |s|
  {
    if s == [] then [] else [StringMark(s[0])] + StringMarks(s[1..])
  }

  /** A printed factor: single blanks between the factors of a list and the members of a set, which ascend. */
  function FormOf(f: Factor): Form
    requires Printable(f)
    decreases f, 0
  {
    match f
    case Num(n) => NumberFormOf(n)
    case Chr(c) => CharForm(CharMark(c))
    case Text_(s) => StringForm(StringMarks(s))
    case Name(s) => NameForm(s)
    case Set(m) => SetForm(NumberParts(Members(m, 0), []), [])
    case Quote(l) => ListForm(PartsOf(l, []), [])
  }

  /** The factors of a list; only the first has nothing before it. */
  function PartsOf(l: seq<Factor>, gaps: seq<Gap>): seq<Part>
    requires forall i :: 0 <= i < |l| ==> Printable(l[i])
    decreases l, 1
  {
    if l == [] then [] else [Part(gaps, FormOf(l[0]))] + PartsOf(l[1..], [Blank(' ')])
  }

  function NumberParts(l: seq<Factor>, gaps: seq<Gap>): seq<Part> {
    if l == [] then [] else [Part(gaps, NumberFormOf(if l[0].Num? then l[0].n else 0))] + NumberParts(l[1..], [Blank(' ')])
  }

  lemma NumberPrinted(n: int)
    ensures Spell(NumberFormOf(n)) == EmitInt(n)
  {
  }

  lemma MarkPrinted(c: nat)
    requires c < 128
    ensures ['\''] + SpellMark(CharMark(c)) == PrintChr(c)
  {
    hide Three;
    ControlPrinted(c);
  }

  lemma ControlPrinted(c: nat)
    requires c < 128
    ensures 8 <= c <= 13 ==> SpellMark(ControlMark(c)) == ['\\', "btnvfr"[c - 8]]
    ensures !(8 <= c <= 13) ==> SpellMark(ControlMark(c)) == ['\\'] + Three(c)
  {
    hide Three;
    assert "btnvfr"[0] == 'b' && "btnvfr"[1] == 't' && "btnvfr"[2] == 'n' && "btnvfr"[3] == 'v' && "btnvfr"[4] == 'f'
           && "btnvfr"[5] == 'r';
  }

  lemma {:induction false} StringPrinted(s: Text)
    requires Ascii(s)
    ensures SpellMarks(StringMarks(s)) == PrintChars(s)
    decreases |s|
  {
    hide Three, ControlMark, SpellMark;
    if s != [] {
      StringPrinted(s[1..]);
      StringMarkPrinted(s[0]);
    }
  }

  lemma StringMarkPrinted(c: char)
    requires Code(c) < 128
    ensures SpellMark(StringMark(c)) == PrintInString(c)
  {
    hide Three, ControlMark;
    ControlPrinted(Code(c));
  }

  lemma PartsMore(p: Part, more: seq<Part>)
    ensures SpellParts([p] + more) == SpellPart(p) + SpellParts(more)
  {
    hide SpellPart;
    assert ([p] + more)[1..] == more;
  }

  /** A part with nothing or a blank and more behind it. */
  lemma Joined(g: Text, a: Text, more: Text)
    ensures (g + a) + [] == g + a && (g + a) + ([' '] + more) == g + (a + [' '] + more)
  {
  }

  lemma NumbersAre(l: seq<Factor>)
    requires l != [] && l[0].Num?
    ensures PrintNumbers(l) == if |l| == 1 then EmitInt(l[0].n) else EmitInt(l[0].n) + [' '] + PrintNumbers(l[1..])
  {
    hide EmitInt;
  }

  lemma {:induction false} NumbersPrinted(l: seq<Factor>, gaps: seq<Gap>)
    requires forall i :: 0 <= i < |l| ==> l[i].Num?
    ensures SpellParts(NumberParts(l, gaps)) == if l == [] then [] else SpellGaps(gaps) + PrintNumbers(l)
    decreases |l|
  {
    if l != [] {
      hide EmitInt, NumberFormOf, Spell, SpellParts, PrintNumbers, SpellGaps;
      var blank := [Blank(' ')];
      NumbersPrinted(l[1..], blank);
      NumberPrinted(l[0].n);
      OneBlank();
      NumbersAre(l);
      PartsMore(Part(gaps, NumberFormOf(l[0].n)), NumberParts(l[1..], blank));
      assert SpellPart(Part(gaps, NumberFormOf(l[0].n))) == SpellGaps(gaps) + EmitInt(l[0].n);
      Joined(SpellGaps(gaps), EmitInt(l[0].n), PrintNumbers(l[1..]));
    }
  }

  lemma OneBlank()
    ensures SpellGaps([Blank(' ')]) == [' ']
  {
    assert [Blank(' ')][1..] == [];
  }

  lemma TermIs(l: seq<Factor>)
    requires l != [] && forall i :: 0 <= i < |l| ==> Printable(l[i])
    ensures PrintTerm(l) == if |l| == 1 then Print(l[0]) else Print(l[0]) + [' '] + PrintTerm(l[1..])
  {
    hide Print, Printable;
  }

  lemma {:induction false} TermPrinted(l: seq<Factor>, gaps: seq<Gap>)
    requires forall i :: 0 <= i < |l| ==> Printable(l[i])
    ensures SpellParts(PartsOf(l, gaps)) == if l == [] then [] else SpellGaps(gaps) + PrintTerm(l)
    decreases l, 1
  {
    if l != [] {
      hide Print, Spell, FormOf, Printable, SpellParts, PrintTerm, SpellGaps;
      var blank := [Blank(' ')];
      TermPrinted(l[1..], blank);
      FactorPrinted(l[0]);
      OneBlank();
      TermIs(l);
      PartsMore(Part(gaps, FormOf(l[0])), PartsOf(l[1..], blank));
      assert SpellPart(Part(gaps, FormOf(l[0]))) == SpellGaps(gaps) + Print(l[0]);
      Joined(SpellGaps(gaps), Print(l[0]), PrintTerm(l[1..]));
    }
  }

  lemma PlainPrinted(f: Factor)
    requires Printable(f) && !f.Set? && !f.Quote?
    ensures Spell(FormOf(f)) == Print(f)
  {
    hide PrintChr, PrintChars, SpellMarks, StringMarks, CharMark, SpellMark, EmitInt, NumberFormOf;
    match f
    case Num(n) => NumberPrinted(n);
    case Chr(c) => MarkPrinted(c);
    case Text_(s) => StringPrinted(s);
    case Name(_) =>
  }

  lemma SetPrinted(m: set<nat>)
    requires Printable(Set(m))
    ensures Spell(FormOf(Set(m))) == Print(Set(m))
  {
    hide SpellParts, NumberParts, Members, PrintNumbers;
    NoGaps();
    MembersAre(m, 0);
    NumbersPrinted(Members(m, 0), []);
    EmptyPrints();
  }

  lemma ListSpelled(parts: seq<Part>, last: seq<Gap>)
    ensures Spell(ListForm(parts, last)) == ['['] + SpellParts(parts) + SpellGaps(last) + [']']
  {
  }

  lemma QuotePrints(l: seq<Factor>)
    requires forall i :: 0 <= i < |l| ==> Printable(l[i])
    ensures Printable(Quote(l)) && Print(Quote(l)) == ['['] + PrintTerm(l) + [']'] && FormOf(Quote(l)) == ListForm(PartsOf(l, []), [])
  {
    hide PrintTerm, PartsOf;
  }

  lemma Brackets(t: Text)
    ensures ['['] + t + [] + [']'] == ['['] + t + [']']
  {
  }

  lemma {:induction false} TermAlone(l: seq<Factor>)
    requires forall i :: 0 <= i < |l| ==> Printable(l[i])
    ensures SpellParts(PartsOf(l, [])) == PrintTerm(l)
    decreases l, 2
  {
    TermPrinted(l, []);
    hide SpellParts, PartsOf, Printable, Print;
    NoGaps();
    if l != [] {
      hide PrintTerm;
      assert [] + PrintTerm(l) == PrintTerm(l);
    }
  }

  /** The printer writes each factor in one of the spellings above. */
  lemma {:induction false} FactorPrinted(f: Factor)
    requires Printable(f)
    ensures Spell(FormOf(f)) == Print(f)
    decreases f, 0
  {
    hide Print, Spell, FormOf, PrintTerm, PartsOf, SpellParts, SpellGaps;
    match f
    case Set(m) => SetPrinted(m);
    case Quote(l) =>
      TermAlone(l);
      NoGaps();
      ListSpelled(PartsOf(l, []), []);
      QuotePrints(l);
      Brackets(PrintTerm(l));
    case _ => PlainPrinted(f);
  }

  lemma NoGaps()
    ensures SpellGaps([]) == []
  {
  }

  lemma EmptyPrints()
    ensures PrintTerm([]) == [] && PrintNumbers([]) == []
  {
  }
}
