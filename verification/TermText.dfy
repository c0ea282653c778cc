/** Joy terms as text: what the printer writes, what the scanner and the reader make of it, and the round trip
    between them. */
module TermText {
  import opened JsonText

  /** Factors of a term; a character is its code. */
  datatype Factor = Num(n: int) | Chr(code: nat) | Text_(s: Text) | Set(m: set<nat>) | Quote(l: seq<Factor>) | Name(s: Text)

  const APOSTROPHE: char := '\''

  // ----- the printer -----

  predicate Control(c: nat) {
    c < 32 || c == 127
  }

  /** Three decimal digits. */
  function Three(k: nat): Text
    requires k < 1000
  {
    [Digit(k / 100), Digit(k / 10 % 10), Digit(k % 10)]
  }

  function Code(c: char): nat {
    c as int
  }

  function PrintChr(c: nat): Text
    requires c < 128
  {
    if 8 <= c <= 13 then [APOSTROPHE, SLASH, "btnvfr"[c - 8]]
    else if Control(c) || c == 32 then [APOSTROPHE, SLASH] + Three(c)
    else [APOSTROPHE, c as char]
  }

  function PrintInString(c: char): Text
    requires Code(c) < 128
  {
    if c == QUOTE then [SLASH, QUOTE]
    else if 8 <= Code(c) <= 13 then [SLASH, "btnvfr"[Code(c) - 8]]
    else if Control(Code(c)) then [SLASH] + Three(Code(c))
    else [c]
  }

  /** The printer and the scanner agree on 7-bit characters only. */
  predicate Ascii(s: Text) {
    forall i :: 0 <= i < |s| ==> Code(s[i]) < 128
  }

  function PrintChars(s: Text): Text
    requires Ascii(s)
  {
    if s == [] then [] else PrintInString(s[0]) + PrintChars(s[1..])
  }

  /** The members of a set from i on, in ascending order. */
  function Members(m: set<nat>, i: nat): (l: seq<Factor>)
    decreases 64 - i
  {
    if i >= 64 then [] else if i in m then [Num(i)] + Members(m, i + 1) else Members(m, i + 1)
  }

  /** What can be printed: characters have 7 bits, none in a string is 0, and sets have members below 64. */
  predicate Printable(f: Factor)
    decreases f
  {
    match f
    case Chr(c) => c < 128
    case Text_(s) => Ascii(s) && Terminated(s)
    case Set(m) => forall i :: i in m ==> i < 64
    case Quote(l) => forall i :: 0 <= i < |l| ==> Printable(l[i])
    case _ => true
  }

  function Print(f: Factor): Text
    requires Printable(f)
    decreases f, 0
  {
    match f
    case Num(n) => EmitInt(n)
    case Chr(c) => PrintChr(c)
    case Text_(s) => [QUOTE] + PrintChars(s) + [QUOTE]
    case Set(m) => ['{'] + PrintNumbers(Members(m, 0)) + ['}']
    case Quote(l) => ['['] + PrintTerm(l) + [']']
    case Name(s) => s
  }

  function PrintTerm(l: seq<Factor>): Text
    requires forall i :: 0 <= i < |l| ==> Printable(l[i])
    decreases l, 1
  {
    if l == [] then [] else if |l| == 1 then Print(l[0]) else Print(l[0]) + [' '] + PrintTerm(l[1..])
  }

  function PrintNumbers(l: seq<Factor>): Text {
    if l == [] then []
    else
      var t := if l[0].Num? then EmitInt(l[0].n) else [];
      if |l| == 1 then t else t + [' '] + PrintNumbers(l[1..])
  }

  // ----- the scanner -----

  datatype Token = TInt(n: int) | TFloat | TChr(code: nat) | TText(s: Text) | TName(s: Text) | TPunct(c: char) | TOther | TEnd

  datatype Scanned = Scanned(tok: Token, rest: Text)

  function SkipBlank(s: Text): (t: Text)
    ensures |t| <= |s| && (t != [] ==> t[0] > ' ')
  {
    if s != [] && s[0] <= ' ' then SkipBlank(s[1..]) else s
  }

  /** Behind the end of a comment. */
  function SkipComment(s: Text): (t: Text)
    ensures |t| <= |s|
  {
    if s == [] then [] else if s[0] == '*' && Peek(s[1..]) == ')' then s[2..] else SkipComment(s[1..])
  }

  function SkipLine(s: Text): (t: Text)
    ensures |t| <= |s|
  {
    if s == [] then [] else if s[0] == '\n' then s else SkipLine(s[1..])
  }

  datatype Escaped = Escaped(code: nat, rest: Text) | CutOff

  function LetterCode(c: char): Option<nat> {
    if c == 'b' then Some(8) else if c == 't' then Some(9) else if c == 'n' then Some(10)
    else if c == 'v' then Some(11) else if c == 'f' then Some(12) else if c == 'r' then Some(13)
    else None
  }

  datatype Option<T> = None | Some(value: T)

  /** An escape sequence behind its backslash: a letter, up to three digits, or the character itself. */
  function Special(s: Text): (r: Escaped)
    ensures r.Escaped? ==> |r.rest| < |s|
  {
    if s == [] then CutOff
    else if LetterCode(s[0]).Some? then Escaped(LetterCode(s[0]).value, s[1..])
    else if !IsDigit(s[0]) then Escaped(Code(s[0]), s[1..])
    else
      var a := Code(s[0]) - 48;
      if !IsDigit(Peek(s[1..])) then Escaped(a, s[1..])
      else
        var b := 10 * a + Code(s[1]) - 48;
        if !IsDigit(Peek(s[2..])) then Escaped(b, s[2..])
        else Escaped(10 * b + Code(s[2]) - 48, s[3..])
  }

  /** The characters of a string up to its closing quote; codes are cut to bytes. */
  function Chars(s: Text): (r: Read)
    ensures r.AString? ==> |r.rest| < |s|
    decreases |s|
  {
    if s == [] then NoString
    else if s[0] == QUOTE then AString([], s[1..])
    else if s[0] != SLASH then JsonText.Cons(s[0], Chars(s[1..]))
    else
      match Special(s[1..])
      case CutOff => NoString
      case Escaped(c, rest) => JsonText.Cons((c % 256) as char, Chars(rest))
  }

  /** A string ends at its first character 0. */
  function UpToZero(s: Text): Text {
    if s == [] || s[0] == 0 as char then [] else [s[0]] + UpToZero(s[1..])
  }

  lemma {:induction false} UpToZeroIs(s: Text)
    requires Terminated(s)
    ensures UpToZero(s) == s
    decreases |s|
  {
    if s != [] {
      UpToZeroIs(s[1..]);
    }
  }

  /** The characters that end a word. */
  predicate Excluded(c: char) {
    c in "\"#'().;[]{}"
  }

  predicate InWord(c: char) {
    c > ' ' && !Excluded(c)
  }

  /** The length of the run of word characters at the start of s. */
  function Run(s: Text): (k: nat)
    ensures k <= |s| && (forall i :: 0 <= i < k ==> InWord(s[i])) && (k < |s| ==> !InWord(s[k]))
  {
    if s != [] && InWord(s[0]) then 1 + Run(s[1..]) else 0
  }

  /** The value of a digit up to base 16. */
  function DigitOf(c: char): nat {
    if IsDigit(c) then Code(c) - 48
    else if 'a' <= c <= 'f' then Code(c) - 87
    else if 'A' <= c <= 'F' then Code(c) - 55
    else 99
  }

  datatype Converted = Converted(value: nat, rest: Text)

  function Convert(s: Text, base: nat, acc: nat): (r: Converted)
    ensures |r.rest| <= |s|
    ensures s != [] && DigitOf(s[0]) < base ==> |r.rest| < |s|
  {
    if s != [] && DigitOf(s[0]) < base then Convert(s[1..], base, base * acc + DigitOf(s[0])) else Converted(acc, s)
  }

  /** A 64-bit conversion that takes a leading 0x for base 16 and a leading 0 for base 8. */
  function ToInteger(s: Text): (r: Converted)
    requires s != [] && IsDigit(s[0])
    ensures |r.rest| < |s| && r.value <= MAXINT
  {
    var r := if |s| >= 3 && s[0] == '0' && (s[1] == 'x' || s[1] == 'X') && DigitOf(s[2]) < 16 then Convert(s[2..], 16, 0)
             else if s[0] == '0' then Convert(s, 8, 0)
             else Convert(s, 10, 0);
    if r.value > MAXINT then Converted(MAXINT, r.rest) else r
  }

  /** The first k characters of s are a number as far as they could be converted; what could not is read again.
      The largest number, and everything beyond it, is taken for a floating-point number. */
  function NumberAt(s: Text, k: nat): (r: Scanned)
    requires 0 < k <= |s| && (IsDigit(s[0]) || (k > 1 && s[0] == '-' && IsDigit(s[1])))
    ensures |r.rest| < |s| && r.tok != TEnd
  {
    var negative := s[0] == '-';
    var digits := if negative then s[1..k] else s[..k];
    var r := ToInteger(digits);
    var n: int := r.value;
    Scanned(if n == MAXINT then TFloat else TInt(if negative then -n else n), r.rest + s[k..])
  }

  /** Where a word ends that goes on behind a full stop after k characters. */
  function Beyond(s: Text, k: nat): (e: nat)
    requires k < |s|
    ensures k < e <= |s|
  {
    k + 1 + Run(s[k + 1..])
  }

  predicate Numeric(s: Text) {
    IsDigit(Peek(s)) || (Peek(s) == '-' && IsDigit(Peek(s[1..])))
  }

  /** A number or a name; the first character is always part of it. */
  function Word(s: Text): (r: Scanned)
    requires s != [] && s[0] > ' '
    ensures |r.rest| < |s| && r.tok != TEnd
  {
    var k := 1 + Run(s[1..]);
    var dot := k + 1 < |s| && s[k] == '.';
    if Numeric(s) then
      if dot && IsDigit(s[k + 1]) then Scanned(TFloat, s[Beyond(s, k)..])
      else
        RunOfNumber(s);
        NumberAt(s, k)
    else if dot && InMember(s[k + 1]) then Scanned(TName(s[..Beyond(s, k)]), s[Beyond(s, k)..])
    else Scanned(TName(s[..k]), s[k..])
  }

  lemma RunOfNumber(s: Text)
    requires s != [] && Numeric(s)
    ensures s[0] == '-' ==> Run(s[1..]) > 0 && s[1] == s[1..][0]
  {
  }

  predicate InMember(c: char) {
    IsDigit(c) || 'a' <= c <= 'z' || 'A' <= c <= 'Z' || c == '-' || c == '=' || c == '_'
  }

  /** The next token and what follows it. */
  function Scan(s0: Text): (r: Scanned)
    ensures r.tok != TEnd ==> |r.rest| < |s0|
    decreases |s0|
  {
    var s := SkipBlank(s0);
    if s == [] then Scanned(TEnd, [])
    else
      var c := s[0];
      if c == '(' then (if Peek(s[1..]) == '*' then Scan(SkipComment(s[2..])) else Scanned(TPunct(c), s[1..]))
      else if c == '#' then Scan(SkipLine(s[1..]))
      else if c in ")[]{}.;" then Scanned(TPunct(c), s[1..])
      else if c == APOSTROPHE then
        if |s| < 2 then Scanned(TEnd, [])
        else if s[1] != SLASH then Scanned(TChr(Code(s[1])), s[2..])
        else (match Special(s[2..]) case CutOff => Scanned(TEnd, []) case Escaped(k, rest) => Scanned(TChr(k), rest))
      else if c == QUOTE then
        (match Chars(s[1..]) case NoString => Scanned(TEnd, []) case AString(t, rest) => Scanned(TText(UpToZero(t)), rest))
      else if c == '$' then Scanned(TOther, s[1..])
      else Word(s)
  }

  // ----- the reader -----

  datatype FactorRead = NoFactor | AFactor(f: Factor, rest: Text)

  /** The factors of a term, the token that ended it, and what follows. */
  datatype TermRead = NoTerm | ATerm(l: seq<Factor>, tok: Token, rest: Text)

  predicate EndsTerm(t: Token) {
    t.TPunct? && t.c in ".;]}"
  }

  function ReadFactor(t: Token, s: Text): (r: FactorRead)
    ensures r.AFactor? ==> |r.rest| <= |s|
    decreases |s|, 0
  {
    match t
    case TInt(n) => AFactor(Num(n), s)
    case TChr(c) => AFactor(Chr(c), s)
    case TText(x) => AFactor(Text_(x), s)
    case TName(x) => AFactor(Name(x), s)
    case TPunct(c) =>
      if c != '[' && c != '{' then NoFactor
      else
        var next := Scan(s);
        if next.tok == TEnd then NoFactor
        else
          (match ReadTerm(next.tok, next.rest)
           case NoTerm => NoFactor
           case ATerm(l, tok, rest) =>
             if c == '[' then (if tok == TPunct(']') then AFactor(Quote(l), rest) else NoFactor)
             else if tok == TPunct('}') && Small(l) then AFactor(Set(ListToSet(l)), rest)
             else NoFactor)
    case _ => NoFactor
  }

  function ReadTerm(t: Token, s: Text): (r: TermRead)
    ensures r.ATerm? ==> |r.rest| <= |s|
    decreases |s|, 1
  {
    if EndsTerm(t) then ATerm([], t, s)
    else
      match ReadFactor(t, s)
      case NoFactor => NoTerm
      case AFactor(f, rest) =>
        var next := Scan(rest);
        if next.tok == TEnd then NoTerm
        else
          match ReadTerm(next.tok, next.rest)
          case NoTerm => NoTerm
          case ATerm(l, tok, rest2) => ATerm([f] + l, tok, rest2)
  }

  /** The members of a set are small numbers or characters. */
  predicate Small(l: seq<Factor>) {
    forall i :: 0 <= i < |l| ==> (l[i].Num? && 0 <= l[i].n < 64) || (l[i].Chr? && l[i].code < 64)
  }

  function ListToSet(l: seq<Factor>): set<nat>
    requires Small(l)
  {
    if l == [] then {} else {if l[0].Num? then l[0].n else l[0].code} + ListToSet(l[1..])
  }

  // ----- the round trip of numbers -----

  lemma {:induction false} DigitsFirst(n: nat)
    requires n > 0
    ensures Digits(n)[0] != '0'
    decreases n
  {
    if n >= 10 {
      DigitsFirst(n / 10);
    }
  }

  /** What may follow a factor: it ends a word, and does not go on as a fraction. */
  predicate Ends(rest: Text) {
    rest != [] && !InWord(rest[0]) && (rest[0] == '.' ==> !IsDigit(Peek(rest[1..])))
  }

  lemma {:induction false} RunAll(a: Text, rest: Text)
    requires (forall i :: 0 <= i < |a| ==> InWord(a[i])) && rest != [] && !InWord(rest[0])
    ensures Run(a + rest) == |a|
    decreases |a|
  {
    if a == [] {
      assert a + rest == rest;
    } else {
      assert (a + rest)[1..] == a[1..] + rest;
      RunAll(a[1..], rest);
    }
  }

  lemma {:induction false} ConvertDigits(n: nat, t: Text)
    ensures Convert(Digits(n) + t, 10, 0) == Convert(t, 10, n)
    decreases n
  {
    if n < 10 {
      assert ([Digit(n)] + t)[1..] == t;
    } else {
      var more := [Digit(n % 10)] + t;
      assert Digits(n) + t == Digits(n / 10) + more;
      ConvertDigits(n / 10, more);
      assert more[1..] == t;
    }
  }

  /** Converting what was printed gives the number back, up to the largest. */
  lemma ToIntegerDigits(n: nat)
    ensures ToInteger(Digits(n)) == Converted(if n > MAXINT then MAXINT else n, [])
  {
    var s := Digits(n);
    if n == 0 {
      assert s == ['0'] && s[1..] == [];
      assert Convert(s[1..], 8, 0) == Converted(0, []);
    } else {
      DigitsFirst(n);
      ConvertDigits(n, []);
      assert s + [] == s && Convert([], 10, n) == Converted(n, []);
    }
  }

  lemma DigitsInWord(n: nat)
    ensures forall i :: 0 <= i < |Digits(n)| ==> InWord(Digits(n)[i]) && IsDigit(Digits(n)[i])
  {
    hide Digits;
  }

  lemma NumberAtIs(s: Text, k: nat, m: nat, rest: Text)
    requires 0 < k <= |s| && (IsDigit(s[0]) || (k > 1 && s[0] == '-' && IsDigit(s[1])))
    requires (if s[0] == '-' then s[1..k] else s[..k]) == Digits(m) && s[k..] == rest
    ensures NumberAt(s, k) ==
            Scanned(if m >= MAXINT then TFloat else TInt(if s[0] == '-' then -(m as int) else m as int), rest)
  {
    hide Digits, ToInteger;
    ToIntegerDigits(m);
    assert [] + rest == rest;
  }

  /** A number comes back exactly if its absolute value is below the largest; otherwise it turns into a
      floating-point number. */
  lemma NumberRoundTrip(n: int, rest: Text)
    requires Ends(rest)
    ensures Scan(EmitInt(n) + rest) ==
            Scanned(if -MAXINT < n < MAXINT then TInt(n) else TFloat, rest)
  {
    hide Digits, ToInteger, Convert, Scan, Word, NumberAt, Run;
    var m: nat := if n < 0 then -n else n;
    var s := EmitInt(n) + rest;
    var d := Digits(m);
    DigitsInWord(m);
    var tail := if n < 0 then d else d[1..];
    assert s[1..] == tail + rest;
    RunAll(tail, rest);
    var k := 1 + |tail|;
    assert s[k..] == rest && (if n < 0 then s[1..k] else s[..k]) == d;
    assert s[0] == if n < 0 then '-' else d[0];
    assert n < 0 ==> s[1] == d[0] && s[1..][0] == d[0];
    NumberAtIs(s, k, m, rest);
    NumberWord(s, k, rest);
    WordScan(s);
  }

  lemma NumberWord(s: Text, k: nat, rest: Text)
    requires s != [] && s[0] > ' ' && Numeric(s) && k == 1 + Run(s[1..]) && k <= |s| && s[k..] == rest && Ends(rest)
    requires IsDigit(s[0]) || (k > 1 && s[0] == '-' && IsDigit(s[1]))
    ensures Word(s) == NumberAt(s, k)
  {
    hide NumberAt, Run;
    assert k < |s| ==> s[k] == rest[0];
    assert k + 1 < |s| ==> s[k + 1] == rest[1..][0];
  }

  lemma WordScan(s: Text)
    requires s != [] && s[0] > ' ' && InWord(s[0]) && s[0] != '$'
    ensures Scan(s) == Word(s)
  {
    hide Word;
    assert SkipBlank(s) == s;
  }

  // ----- the round trip of characters and strings -----

  lemma ThreeReads(k: nat, rest: Text)
    requires k < 1000
    ensures Special(Three(k) + rest) == Escaped(k, rest)
  {
    var s := Three(k) + rest;
    assert s[1..] == [Digit(k / 10 % 10), Digit(k % 10)] + rest && s[2..] == [Digit(k % 10)] + rest && s[3..] == rest;
    assert k == 100 * (k / 100) + 10 * (k / 10 % 10) + k % 10;
  }

  /** A letter that the printer writes behind a backslash is read as the code it stands for. */
  lemma LetterReads(c: nat, rest: Text)
    requires 8 <= c <= 13
    ensures Special(["btnvfr"[c - 8]] + rest) == Escaped(c, rest)
  {
    var s := ["btnvfr"[c - 8]] + rest;
    assert s[1..] == rest;
    assert c == 8 || c == 9 || c == 10 || c == 11 || c == 12 || c == 13;
  }

  /** A character comes back exactly if it is not a backslash, which the printer does not escape. */
  lemma ChrRoundTrip(c: nat, rest: Text)
    requires c < 128 && Ends(rest)
    ensures Scan(PrintChr(c) + rest) == Scanned(TChr(c), rest) <==> c != Code(SLASH)
  {
    hide Special;
    var s := PrintChr(c) + rest;
    assert SkipBlank(s) == s && s[0] == APOSTROPHE;
    if 8 <= c <= 13 {
      assert s[2..] == ["btnvfr"[c - 8]] + rest;
      LetterReads(c, rest);
    } else if Control(c) || c == 32 {
      assert s[2..] == Three(c) + rest;
      ThreeReads(c, rest);
    } else {
      assert s[1] == c as char && s[2..] == rest;
      if c == Code(SLASH) {
        OtherReads(rest);
      }
    }
  }

  lemma OtherReads(rest: Text)
    requires rest != []
    ensures Special(rest).Escaped? && |Special(rest).rest| < |rest|
  {
  }

  /** The rest of a printed string, with its closing quote and what follows. */
  function Tail(v: Text, rest: Text): (t: Text)
    requires Ascii(v)
    ensures |t| > |rest|
  {
    PrintChars(v) + [QUOTE] + rest
  }

  lemma TailFirst(v: Text, rest: Text)
    requires Ascii(v) && v != []
    ensures Ascii(v[1..]) && Tail(v, rest) == PrintInString(v[0]) + Tail(v[1..], rest)
  {
  }

  /** Any character but a backslash is read as it was. */
  lemma PlainStep(v: Text, rest: Text)
    requires Ascii(v) && v != [] && v[0] != SLASH
    ensures Ascii(v[1..]) && Chars(Tail(v, rest)) == JsonText.Cons(v[0], Chars(Tail(v[1..], rest)))
  {
    hide Special, Chars, Three;
    TailFirst(v, rest);
    var t, c := Tail(v[1..], rest), Code(v[0]);
    if v[0] == QUOTE {
      QuoteReads(t);
      EscapeStep([QUOTE], c, t, Tail(v, rest));
    } else if 8 <= c <= 13 {
      LetterReads(c, t);
      EscapeStep(["btnvfr"[c - 8]], c, t, Tail(v, rest));
    } else if Control(c) {
      ThreeReads(c, t);
      EscapeStep(Three(c), c, t, Tail(v, rest));
    } else {
      RawStep(v[0], t, Tail(v, rest));
    }
  }

  lemma EscapeStep(x: Text, c: nat, t: Text, s: Text)
    requires Special(x + t) == Escaped(c, t) && c < 128 && s == [SLASH] + x + t
    ensures Chars(s) == JsonText.Cons(c as char, Chars(t))
  {
    hide Special;
    assert s[1..] == x + t;
  }

  lemma RawStep(c: char, t: Text, s: Text)
    requires c != SLASH && c != QUOTE && s == [c] + t
    ensures Chars(s) == JsonText.Cons(c, Chars(t))
  {
    assert s[1..] == t;
  }

  lemma QuoteReads(t: Text)
    ensures Special([QUOTE] + t) == Escaped(Code(QUOTE), t)
    ensures Special([SLASH] + t) == Escaped(Code(SLASH), t)
  {
    assert ([QUOTE] + t)[1..] == t && ([SLASH] + t)[1..] == t;
  }

  /** A string without backslashes is read as it was. */
  lemma {:induction false} StringReads(v: Text, rest: Text)
    requires Ascii(v) && SLASH !in v
    ensures Chars(Tail(v, rest)) == AString(v, rest)
    decreases |v|
  {
    hide Chars, Special;
    if v == [] {
      assert Tail(v, rest) == [QUOTE] + rest;
      QuoteEnds(rest);
    } else {
      PlainStep(v, rest);
      StringReads(v[1..], rest);
    }
  }

  /** How a backslash in the string and what was printed behind it is read: with the closing quote, as itself
      in front of a part of what stands for the next character, or with up to three characters. */
  datatype After = Closing | Ended | Spelled(spelling: Text) | Taken(k: nat)

  ghost predicate AfterSlash(b: Text, rest: Text, a: After)
    requires Ascii(b)
  {
    var x := Special(Tail(b, rest));
    match a
    case Closing => b == [] && x.Escaped? && x.rest == rest
    case Ended => b != [] && x.Escaped? && x.rest == [QUOTE] + Tail(b[1..], rest)
    case Spelled(t) =>
      && b != [] && t != [] && x == Escaped(Code(SLASH), t + Tail(b[1..], rest)) && t[0] != b[0] && |t| <= 3
      && forall i :: 0 <= i < |t| ==> t[i] != SLASH && t[i] != QUOTE
    case Taken(k) => 0 < k <= |b| && x.Escaped? && x.rest == Tail(b[k..], rest)
  }

  lemma DigitsTaken(b: Text, rest: Text) returns (k: nat)
    requires Ascii(b) && b != [] && IsDigit(b[0])
    ensures 0 < k <= |b| && Ascii(b[k..]) && AfterSlash(b, rest, Taken(k))
  {
    TailFirst(b, rest);
    var s := Tail(b, rest);
    assert s[1..] == Tail(b[1..], rest);
    k := 1;
    if IsDigit(Peek(s[1..])) {
      TailDigit(b[1..], rest);
      TailFirst(b[1..], rest);
      assert b[1..][1..] == b[2..] && s[2..] == s[1..][1..] == Tail(b[2..], rest);
      k := 2;
      if IsDigit(Peek(s[2..])) {
        TailDigit(b[2..], rest);
        TailFirst(b[2..], rest);
        assert b[2..][1..] == b[3..] && s[3..] == s[2..][1..] == Tail(b[3..], rest);
        k := 3;
      }
    }
  }

  /** Only a digit is printed with a digit first. */
  lemma TailDigit(b: Text, rest: Text)
    requires Ascii(b) && IsDigit(Peek(Tail(b, rest)))
    ensures b != [] && IsDigit(b[0])
  {
    TailEmpty(rest);
    if b != [] {
      TailFirst(b, rest);
    }
  }

  lemma TailEmpty(rest: Text)
    ensures Peek(Tail([], rest)) == QUOTE
  {
  }

  lemma SlashCases(b: Text, rest: Text) returns (a: After)
    requires Ascii(b)
    ensures AfterSlash(b, rest, a)
  {
    if b == [] {
      assert Tail(b, rest) == [QUOTE] + rest;
      QuoteReads(rest);
      return Closing;
    }
    TailFirst(b, rest);
    var t, c := Tail(b[1..], rest), Code(b[0]);
    if b[0] == SLASH {
      QuoteReads(t);
      a := Taken(1);
    } else if b[0] == QUOTE {
      assert Tail(b, rest) == [SLASH] + ([QUOTE] + t);
      QuoteReads([QUOTE] + t);
      a := Ended;
    } else if 8 <= c <= 13 || Control(c) {
      a := SpelledCase(b, rest);
    } else if IsDigit(b[0]) {
      var k := DigitsTaken(b, rest);
      a := Taken(k);
    } else {
      OtherTaken(b, rest);
      a := Taken(1);
    }
  }

  lemma OtherTaken(b: Text, rest: Text)
    requires Ascii(b) && b != [] && !Control(Code(b[0])) && b[0] != QUOTE && b[0] != SLASH && !IsDigit(b[0])
    ensures Ascii(b[1..]) && AfterSlash(b, rest, Taken(1))
  {
    TailFirst(b, rest);
    assert Tail(b, rest)[1..] == Tail(b[1..], rest);
  }

  lemma SpelledCase(b: Text, rest: Text) returns (a: After)
    requires Ascii(b) && b != [] && (8 <= Code(b[0]) <= 13 || Control(Code(b[0])))
    ensures AfterSlash(b, rest, a)
  {
    hide Special, Three;
    TailFirst(b, rest);
    var t, c := Tail(b[1..], rest), Code(b[0]);
    if 8 <= c <= 13 {
      a := SpelledAs(b, rest, ["btnvfr"[c - 8]], t);
    } else {
      ThreeDigits(c);
      a := SpelledAs(b, rest, Three(c), t);
    }
  }

  lemma SpelledAs(b: Text, rest: Text, x: Text, t: Text) returns (a: After)
    requires Ascii(b) && b != [] && Ascii(b[1..]) && t == Tail(b[1..], rest) && Tail(b, rest) == [SLASH] + x + t
    requires 0 < |x| <= 3 && x[0] != b[0] && forall i :: 0 <= i < |x| ==> x[i] != SLASH && x[i] != QUOTE
    ensures AfterSlash(b, rest, a)
  {
    hide Special, Tail;
    assert Tail(b, rest) == [SLASH] + (x + t);
    QuoteReads(x + t);
    a := Spelled(x);
  }

  lemma ThreeDigits(c: nat)
    requires c < 128
    ensures |Three(c)| == 3 && forall i :: 0 <= i < 3 ==> IsDigit(Three(c)[i])
  {
  }

  lemma {:induction false} SpellingReads(t: Text, s: Text)
    requires forall i :: 0 <= i < |t| ==> t[i] != SLASH && t[i] != QUOTE
    ensures Chars(t + s) == Before(t, Chars(s))
    decreases |t|
  {
    if t == [] {
      assert t + s == s;
      assert Chars(s).AString? ==> [] + Chars(s).s == Chars(s).s;
    } else {
      assert (t + s)[1..] == t[1..] + s;
      SpellingReads(t[1..], s);
      assert Chars(s).AString? ==> [t[0]] + (t[1..] + Chars(s).s) == t + Chars(s).s;
    }
  }

  function Before(t: Text, r: Read): Read {
    if r.AString? then AString(t + r.s, r.rest) else r
  }

  lemma ConsExcess(c: char, r: Read, w: Text, v: Text, rest: Text)
    requires w != [] && r != AString(w[1..] + v, rest)
    ensures JsonText.Cons(c, r) != AString(w + v, rest)
  {
    if r.AString? {
      assert ([c] + r.s)[1..] == r.s && (w + v)[1..] == w[1..] + v;
    }
  }

  /** What is read never is what was printed with something in front. */
  lemma {:induction false} NoExcess(v: Text, w: Text, rest: Text)
    requires Ascii(v) && w != []
    ensures Chars(Tail(v, rest)) != AString(w + v, rest)
    decreases |v|
  {
    hide Chars, Special, Tail;
    if v == [] {
      StringReads(v, rest);
    } else if v[0] != SLASH {
      PlainStep(v, rest);
      NoExcess(v[1..], w[1..] + [v[0]], rest);
      assert w[1..] + v == w[1..] + [v[0]] + v[1..];
      ConsExcess(v[0], Chars(Tail(v[1..], rest)), w, v, rest);
    } else {
      var b := v[1..];
      var a := SlashCases(b, rest);
      SlashReads(v, rest);
      match a
      case Closing => CharsShorter(rest);
      case Ended => QuoteEnds(Tail(b[1..], rest));
      case Spelled(t) =>
        SpellingReads(t, Tail(b[1..], rest));
        if |w| > |t| {
          NoExcess(b[1..], w[|t| + 1..] + v[..2], rest);
        }
        assert v[2..] == b[1..];
        if Chars(Tail(v, rest)) == AString(w + v, rest) {
          SpelledDiffers(v, w, t, Chars(Tail(b[1..], rest)), rest);
        }
      case Taken(k) =>
        NoExcess(b[k..], w[1..] + v[..k + 1], rest);
        assert w[1..] + v == w[1..] + v[..k + 1] + b[k..];
        var x := Special(Tail(b, rest));
        ConsExcess((x.code % 256) as char, Chars(x.rest), w, v, rest);
    }
  }

  /** One backslash is read with what stands behind it. */
  lemma SlashReads(v: Text, rest: Text)
    requires Ascii(v) && v != [] && v[0] == SLASH
    ensures Ascii(v[1..])
    ensures var x := Special(Tail(v[1..], rest));
            Chars(Tail(v, rest)) == if x.CutOff? then NoString else JsonText.Cons((x.code % 256) as char, Chars(x.rest))
  {
    TailFirst(v, rest);
    assert Tail(v, rest)[1..] == Tail(v[1..], rest);
  }

  lemma CharsShorter(s: Text)
    ensures Chars(s).AString? ==> |Chars(s).rest| < |s|
  {
  }

  lemma QuoteEnds(t: Text)
    ensures Chars([QUOTE] + t) == AString([], t)
  {
    assert ([QUOTE] + t)[1..] == t;
  }

  /** If the reading of a spelled character is what it must be, the rest is what it must not be. */
  lemma SpelledDiffers(v: Text, w: Text, t: Text, r: Read, rest: Text)
    requires |v| >= 2 && v[0] == SLASH && t != [] && t[0] != v[1] && forall i :: 0 <= i < |t| ==> t[i] != SLASH
    requires JsonText.Cons(SLASH, Before(t, r)) == AString(w + v, rest)
    requires w != []
    ensures |w| > |t| && r == AString(w[|t| + 1..] + v[..2] + v[2..], rest)
  {
    var y := [SLASH] + (t + r.s);
    assert y == w + v;
    SpelledAt(t, r.s);
    FirstBehind(w, v);
    if |w| > |t| {
      assert r.s == y[|t| + 1..] == (w + v)[|t| + 1..];
      assert (w + v)[|t| + 1..] == w[|t| + 1..] + v;
      assert v[..2] + v[2..] == v;
    }
  }

  lemma SpelledAt(t: Text, s: Text)
    ensures forall i :: 1 <= i <= |t| ==> ([SLASH] + (t + s))[i] == t[i - 1]
  {
  }

  lemma FirstBehind(w: Text, v: Text)
    requires v != []
    ensures (w + v)[|w|] == v[0]
  {
  }

  /** The characters of a string come back exactly if there is no backslash among them. */
  lemma {:induction false} StringRoundTrip(v: Text, rest: Text)
    requires Ascii(v)
    ensures Chars(Tail(v, rest)) == AString(v, rest) <==> SLASH !in v
    decreases |v|
  {
    hide Chars, Special, Tail;
    if SLASH !in v {
      StringReads(v, rest);
    } else if v[0] != SLASH {
      PlainStep(v, rest);
      StringRoundTrip(v[1..], rest);
      var r := Chars(Tail(v[1..], rest));
      if r.AString? {
        assert ([v[0]] + r.s)[1..] == r.s;
      }
    } else {
      var b := v[1..];
      var a := SlashCases(b, rest);
      SlashReads(v, rest);
      var x := Special(Tail(b, rest));
      match a
      case Closing => CharsShorter(rest);
      case Ended => QuoteEnds(Tail(b[1..], rest));
      case Spelled(t) =>
        var r := Chars(Tail(b[1..], rest));
        SpellingReads(t, Tail(b[1..], rest));
        assert r.AString? ==> ([SLASH] + (t + r.s))[1] == t[0];
      case Taken(k) =>
        NoExcess(b[k..], b[..k], rest);
        assert b == b[..k] + b[k..];
        var r := Chars(x.rest);
        assert r.AString? ==> ([(x.code % 256) as char] + r.s)[1..] == r.s;
    }
  }

  // ----- the round trip of terms -----

  /** Factors that come back: numbers below the largest, characters and strings of 7-bit characters without
      backslashes, sets, and lists of such. */
  predicate Readable(f: Factor)
    decreases f
  {
    match f
    case Num(n) => -MAXINT < n < MAXINT
    case Chr(c) => c < 128 && c != Code(SLASH)
    case Text_(s) => Ascii(s) && Terminated(s) && SLASH !in s
    case Set(m) => forall i :: i in m ==> i < 64
    case Quote(l) => forall i :: 0 <= i < |l| ==> Readable(l[i])
    case Name(_) => false
  }

  lemma {:induction false} ReadablePrints(f: Factor)
    requires Readable(f)
    ensures Printable(f)
    decreases f
  {
    if f.Quote? {
      forall i | 0 <= i < |f.l| ensures Printable(f.l[i]) {
        ReadablePrints(f.l[i]);
      }
    }
  }

  /** Scanning a printed factor and reading on gives the factor back and stops behind it. */
  ghost predicate Returns(f: Factor) {
    Printable(f) && forall rest :: Ends(rest) ==>
      var x := Scan(Print(f) + rest);
      x.tok != TEnd && !EndsTerm(x.tok) && ReadFactor(x.tok, x.rest) == AFactor(f, rest)
  }

  lemma PrintTermStep(l: seq<Factor>, rest: Text)
    requires |l| > 1 && forall i :: 0 <= i < |l| ==> Printable(l[i])
    ensures PrintTerm(l) + rest == Print(l[0]) + ([' '] + (PrintTerm(l[1..]) + rest))
  {
    hide Print;
    Regroup(Print(l[0]), PrintTerm(l[1..]), rest);
  }

  lemma Regroup(a: Text, b: Text, c: Text)
    ensures a + [' '] + b + c == a + ([' '] + (b + c))
  {
  }

  lemma BlankScan(s: Text)
    ensures Scan([' '] + s) == Scan(s)
  {
    assert ([' '] + s)[1..] == s;
  }

  lemma CloseScan(c: char, s: Text)
    requires c in ")[]{}.;"
    ensures Scan([c] + s) == Scanned(TPunct(c), s)
  {
    assert ([c] + s)[1..] == s && SkipBlank([c] + s) == [c] + s;
  }

  /** What stands behind the first factor of a printed term that a character closes. */
  function Behind(l: seq<Factor>, close: Text): Text
    requires l != [] && forall i :: 0 <= i < |l| ==> Printable(l[i])
  {
    if |l| == 1 then close else [' '] + (PrintTerm(l[1..]) + close)
  }

  lemma BehindIs(l: seq<Factor>, c: char, rest: Text)
    requires l != [] && forall i :: 0 <= i < |l| ==> Printable(l[i])
    requires c in ".;]}" && (c == '.' ==> !IsDigit(Peek(rest)))
    ensures var close := [c] + rest;
            && PrintTerm(l) + close == Print(l[0]) + Behind(l, close) && Ends(Behind(l, close))
            && Scan(Behind(l, close)) == Scan(PrintTerm(l[1..]) + close)
  {
    hide Scan, Print, Printable;
    var close := [c] + rest;
    assert close[1..] == rest;
    if |l| > 1 {
      PrintTermStep(l, close);
      BlankScan(PrintTerm(l[1..]) + close);
    } else {
      assert l[1..] == [] && PrintTerm(l[1..]) + close == close;
    }
  }

  /** Reading a printed term up to a character that ends terms. */
  lemma {:induction false} TermReads(l: seq<Factor>, c: char, rest: Text)
    requires (forall i :: 0 <= i < |l| ==> Returns(l[i])) && c in ".;]}" && (c == '.' ==> !IsDigit(Peek(rest)))
    ensures (forall i :: 0 <= i < |l| ==> Printable(l[i]))
    ensures var x := Scan(PrintTerm(l) + ([c] + rest));
            x.tok != TEnd && ReadTerm(x.tok, x.rest) == ATerm(l, TPunct(c), rest)
    decreases |l|
  {
    hide Scan, ReadFactor, Print, Printable, Behind, Returns, Ends;
    var close := [c] + rest;
    forall i | 0 <= i < |l| ensures Printable(l[i]) {
      ReturnsPrintable(l[i]);
    }
    if l == [] {
      CloseScan(c, rest);
      assert PrintTerm(l) + close == close;
    } else {
      hide PrintTerm, ReadTerm;
      BehindIs(l, c, rest);
      TermReads(l[1..], c, rest);
      FirstReads(l[0], Behind(l, close));
      var x := Scan(Print(l[0]) + Behind(l, close));
      ReadMore(x.tok, x.rest, l[0], Behind(l, close));
      assert [l[0]] + l[1..] == l;
    }
  }

  lemma ReturnsPrintable(f: Factor)
    requires Returns(f)
    ensures Printable(f)
  {
    hide Printable;
  }

  lemma FirstReads(f: Factor, tail: Text)
    requires Returns(f) && Printable(f) && Ends(tail)
    ensures var x := Scan(Print(f) + tail);
            x.tok != TEnd && !EndsTerm(x.tok) && ReadFactor(x.tok, x.rest) == AFactor(f, tail)
  {
    hide Scan, Print, Printable, ReadFactor;
  }

  lemma ReadMore(t: Token, s: Text, f: Factor, rest: Text)
    requires !EndsTerm(t) && ReadFactor(t, s) == AFactor(f, rest) && Scan(rest).tok != TEnd
    ensures var next := Scan(rest);
            var r := ReadTerm(next.tok, next.rest);
            ReadTerm(t, s) == if r.ATerm? then ATerm([f] + r.l, r.tok, r.rest) else NoTerm
  {
    hide Scan, ReadFactor;
  }

  lemma QuoteReturns(l: seq<Factor>, rest: Text)
    requires forall i :: 0 <= i < |l| ==> Returns(l[i])
    ensures Printable(Quote(l))
    ensures var x := Scan(Print(Quote(l)) + rest);
            x.tok == TPunct('[') && ReadFactor(x.tok, x.rest) == AFactor(Quote(l), rest)
  {
    hide Scan, ReadTerm, PrintTerm;
    TermReads(l, ']', rest);
    var inner := PrintTerm(l) + ([']'] + rest);
    assert Print(Quote(l)) + rest == ['['] + inner;
    CloseScan('[', inner);
  }

  // ----- sets -----

  lemma {:induction false} MembersAre(m: set<nat>, i: nat)
    requires forall k :: k in m ==> k < 64
    ensures forall j :: 0 <= j < |Members(m, i)| ==> Members(m, i)[j].Num? && i <= Members(m, i)[j].n < 64
    ensures Small(Members(m, i)) && ListToSet(Members(m, i)) == set k | k in m && k >= i
    decreases 64 - i
  {
    if i < 64 {
      MembersAre(m, i + 1);
      if i in m {
        var l := Members(m, i + 1);
        assert ([Num(i)] + l)[1..] == l;
      }
    }
  }

  lemma {:induction false} NumbersPrint(l: seq<Factor>)
    requires forall j :: 0 <= j < |l| ==> l[j].Num?
    ensures (forall j :: 0 <= j < |l| ==> Printable(l[j])) && PrintNumbers(l) == PrintTerm(l)
    decreases |l|
  {
    hide EmitInt;
    if l != [] {
      NumbersPrint(l[1..]);
    }
  }

  lemma NumReturns(n: int)
    requires -MAXINT < n < MAXINT
    ensures Returns(Num(n))
  {
    forall rest | Ends(rest)
      ensures var x := Scan(Print(Num(n)) + rest);
              x.tok != TEnd && !EndsTerm(x.tok) && ReadFactor(x.tok, x.rest) == AFactor(Num(n), rest)
    {
      NumberRoundTrip(n, rest);
    }
  }

  lemma SetReturns(m: set<nat>, rest: Text)
    requires forall i :: i in m ==> i < 64
    ensures var x := Scan(Print(Set(m)) + rest);
            x.tok == TPunct('{') && ReadFactor(x.tok, x.rest) == AFactor(Set(m), rest)
  {
    hide Scan, ReadTerm, PrintTerm, Returns, Members, PrintNumbers;
    var l := Members(m, 0);
    MembersAre(m, 0);
    NumbersPrint(l);
    forall j | 0 <= j < |l| ensures Returns(l[j]) {
      NumReturns(l[j].n);
    }
    TermReads(l, '}', rest);
    var inner := PrintTerm(l) + (['}'] + rest);
    assert Print(Set(m)) + rest == ['{'] + inner;
    CloseScan('{', inner);
    assert (set k | k in m && k >= 0) == m;
  }

  /** Scanning and parsing undoes printing. */
  lemma {:induction false} FactorReturns(f: Factor)
    requires Readable(f)
    ensures Returns(f)
    decreases f
  {
    hide Scan, ReadFactor, Print, Chars, PrintChr;
    ReadablePrints(f);
    if f.Quote? {
      forall i | 0 <= i < |f.l| ensures Returns(f.l[i]) {
        FactorReturns(f.l[i]);
      }
    }
    forall rest | Ends(rest)
      ensures var x := Scan(Print(f) + rest);
              x.tok != TEnd && !EndsTerm(x.tok) && ReadFactor(x.tok, x.rest) == AFactor(f, rest)
    {
      match f
      case Num(n) => NumReturns(n); assert Returns(Num(n));
      case Chr(c) => ChrReturns(c, rest);
      case Text_(s) => TextReturns(s, rest);
      case Set(m) => SetReturns(m, rest);
      case Quote(l) => QuoteReturns(l, rest);
    }
  }

  lemma ChrReturns(c: nat, rest: Text)
    requires c < 128 && c != Code(SLASH) && Ends(rest)
    ensures var x := Scan(Print(Chr(c)) + rest);
            x.tok == TChr(c) && ReadFactor(x.tok, x.rest) == AFactor(Chr(c), rest)
  {
    hide Scan, PrintChr;
    ChrRoundTrip(c, rest);
  }

  lemma TextReturns(s: Text, rest: Text)
    requires Ascii(s) && Terminated(s) && SLASH !in s
    ensures var x := Scan(Print(Text_(s)) + rest);
            x.tok == TText(s) && ReadFactor(x.tok, x.rest) == AFactor(Text_(s), rest)
  {
    hide Chars, PrintChars;
    var t := Print(Text_(s)) + rest;
    StringRoundTrip(s, rest);
    UpToZeroIs(s);
    assert t[0] == QUOTE && t[1..] == Tail(s, rest) && SkipBlank(t) == t;
  }

  /** Reading undoes writing: a printed term, up to the character that ends it, is read as the same term. */
  lemma TermRoundTrip(l: seq<Factor>, c: char, rest: Text)
    requires (forall i :: 0 <= i < |l| ==> Readable(l[i])) && c in ".;]}" && (c == '.' ==> !IsDigit(Peek(rest)))
    ensures forall i :: 0 <= i < |l| ==> Printable(l[i])
    ensures var x := Scan(PrintTerm(l) + ([c] + rest));
            x.tok != TEnd && ReadTerm(x.tok, x.rest) == ATerm(l, TPunct(c), rest)
  {
    hide Scan, ReadTerm, Returns, Readable;
    forall i | 0 <= i < |l| ensures Returns(l[i]) {
      FactorReturns(l[i]);
    }
    TermReads(l, c, rest);
  }
}
