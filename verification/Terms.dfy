/** The printer that emits a term to an output stream, and the scanner and reader that move over an input. */
module Terms {
  import opened JsonText
  import opened TermText

  lemma {:induction false} CharsSnoc(s: Text, c: char)
    requires Ascii(s + [c])
    ensures Ascii(s) && Code(c) < 128 && PrintChars(s + [c]) == PrintChars(s) + PrintInString(c)
    decreases |s|
  {
    hide PrintInString;
    AsciiSnoc(s, c);
    if s == [] {
      assert [c][1..] == [] && PrintChars([c]) == PrintInString(c) + PrintChars([]);
      assert [] + [c] == [c];
    } else {
      assert (s + [c])[1..] == s[1..] + [c];
      CharsSnoc(s[1..], c);
    }
  }

  lemma AsciiSnoc(s: Text, c: char)
    requires Ascii(s + [c])
    ensures Ascii(s) && Code(c) < 128
  {
    assert (s + [c])[|s|] == c;
    forall i | 0 <= i < |s| ensures Code(s[i]) < 128 {
      assert (s + [c])[i] == s[i];
    }
  }

  /** The members of a set that are still to be written, with the blank before each but the first. */
  function Left(m: set<nat>, i: nat): Text {
    PrintNumbers(Members(m, i))
  }

  lemma LeftStep(m: set<nat>, i: nat)
    requires i < 64 && forall k :: k in m ==> i <= k < 64
    ensures i !in m ==> Left(m, i) == Left(m, i + 1)
    ensures i in m ==> Left(m, i) == EmitInt(i) + (if m - {i} != {} then [' '] else []) + Left(m - {i}, i + 1)
  {
    hide EmitInt;
    if i in m {
      SameMembers(m, m - {i}, i + 1);
      MembersEmpty(m - {i}, i + 1);
    }
  }

  lemma {:induction false} SameMembers(m: set<nat>, m': set<nat>, i: nat)
    requires forall k :: k >= i ==> (k in m <==> k in m')
    ensures Members(m, i) == Members(m', i)
    decreases 64 - i
  {
    if i < 64 {
      SameMembers(m, m', i + 1);
    }
  }

  lemma {:induction false} MembersEmpty(m: set<nat>, i: nat)
    requires forall k :: k in m ==> i <= k < 64
    ensures Members(m, i) == [] <==> m == {}
    decreases 64 - i
  {
    if i < 64 && i !in m {
      MembersEmpty(m, i + 1);
    } else if i >= 64 {
      assert forall k :: k !in m;
    }
  }

  class Printer {
    var out: Text

    constructor ()
      ensures out == []
    {
      out := [];
    }

    method Put(t: Text)
      modifies this
      ensures out == old(out) + t
    {
      out := out + t;
    }

    method WriteFactor(f: Factor)
      requires Printable(f)
      modifies this
      ensures out == old(out) + Print(f)
      decreases f, 0
    {
      hide EmitInt, PrintChr, PrintChars, PrintTerm, PrintNumbers, Members;
      match f {
        case Num(n) => Put(EmitInt(n));
        case Chr(c) => Put(PrintChr(c));
        case Text_(s) => WriteText(s);
        case Set(m) => WriteMembers(m);
        case Quote(l) => WriteQuote(l);
        case Name(s) => Put(s);
      }
    }

    method WriteText(s: Text)
      requires Ascii(s)
      modifies this
      ensures out == old(out) + ([QUOTE] + PrintChars(s) + [QUOTE])
    {
      hide PrintChars;
      Put([QUOTE]);
      WriteChars(s);
      Put([QUOTE]);
    }

    method WriteMembers(m: set<nat>)
      requires forall k :: k in m ==> k < 64
      modifies this
      ensures out == old(out) + (['{'] + PrintNumbers(Members(m, 0)) + ['}'])
    {
      hide PrintNumbers, Members;
      Put(['{']);
      WriteSet(m);
      Put(['}']);
    }

    method WriteQuote(l: seq<Factor>)
      requires forall i :: 0 <= i < |l| ==> Printable(l[i])
      modifies this
      ensures out == old(out) + (['['] + PrintTerm(l) + [']'])
      decreases l, 1
    {
      hide PrintTerm, Printable;
      Put(['[']);
      WriteTerm(l);
      Put([']']);
    }

    method WriteChars(s: Text)
      requires Ascii(s)
      modifies this
      ensures out == old(out) + PrintChars(s)
    {
      hide PrintInString;
      var i := 0;
      assert s[..0] == [];
      while i < |s|
        invariant i <= |s| && Ascii(s[..i]) && out == old(out) + PrintChars(s[..i])
      {
        assert s[..i + 1] == s[..i] + [s[i]];
        CharsSnoc(s[..i], s[i]);
        Put(PrintInString(s[i]));
        i := i + 1;
      }
      assert s[..i] == s;
    }

    /** Walks over the 64 bits; a written one is cleared, so that a blank follows only while there are more. */
    method WriteSet(m: set<nat>)
      requires forall k :: k in m ==> k < 64
      modifies this
      ensures out == old(out) + PrintNumbers(Members(m, 0))
    {
      hide EmitInt;
      var i, bits := 0, m;
      while i < 64
        invariant i <= 64 && (forall k :: k in bits ==> i <= k < 64)
        invariant out + Left(bits, i) == old(out) + PrintNumbers(Members(m, 0))
      {
        LeftStep(bits, i);
        if i in bits {
          Put(EmitInt(i));
          bits := bits - {i};
          if bits != {} {
            Put([' ']);
          }
        }
        i := i + 1;
      }
    }

    method WriteTerm(l: seq<Factor>)
      requires forall i :: 0 <= i < |l| ==> Printable(l[i])
      modifies this
      ensures out == old(out) + PrintTerm(l)
      decreases l, 0
    {
      hide Print;
      var n := 0;
      while n < |l|
        invariant n <= |l| && out + PrintTerm(l[n..]) == old(out) + PrintTerm(l)
      {
        assert l[n..][1..] == l[n + 1..] && l[n..][0] == l[n];
        TermStep(l[n..]);
        WriteFactor(l[n]);
        n := n + 1;
        if n < |l| {
          Put([' ']);
        }
      }
    }
  }

  lemma TermStep(l: seq<Factor>)
    requires l != [] && forall i :: 0 <= i < |l| ==> Printable(l[i])
    ensures PrintTerm(l) == Print(l[0]) + (if |l| > 1 then [' '] else []) + PrintTerm(l[1..])
  {
    hide Print;
    if |l| == 1 {
      assert l[1..] == [] && PrintTerm(l[1..]) == [];
    }
  }

  // ----- the scanner and the reader -----

  /** A token that is not the end of the input stands for itself; at the end nothing is left. */
  ghost predicate Scans(spec: Scanned, tok: Token, rest: Text) {
    spec.tok == tok && (tok != TEnd ==> spec.rest == rest)
  }

  ghost predicate ReadsFactor(spec: FactorRead, r: TermText.Option<Factor>, rest: Text) {
    match spec
    case NoFactor => r.None?
    case AFactor(f, t) => r == TermText.Some(f) && rest == t
  }

  ghost predicate ReadsTerm(spec: TermRead, r: TermText.Option<seq<Factor>>, tok: Token, rest: Text) {
    match spec
    case NoTerm => r.None?
    case ATerm(l, t, x) => r == TermText.Some(l) && tok == t && rest == x
  }

  ghost function Onto(done: seq<Factor>, r: TermRead): TermRead {
    if r.ATerm? then ATerm(done + r.l, r.tok, r.rest) else r
  }

  class Scanner {
    const text: Text
    var p: nat
    var sym: Token

    ghost predicate Valid()
      reads this
    {
      p <= |text|
    }

    ghost function Rest(): Text
      reads this
      requires Valid()
    {
      text[p..]
    }

    function Now(k: nat): (c: char)
      reads this
      requires Valid()
      ensures p + k < |text| ==> c == text[p..][k]
      ensures p + k >= |text| ==> c == 0 as char && |text[p..]| <= k
    {
      if p + k < |text| then text[p + k] else 0 as char
    }

    constructor (text: Text)
      ensures this.text == text && Valid() && Rest() == text && sym == TEnd
    {
      this.text := text;
      p, sym := 0, TEnd;
    }

    method Step(k: nat)
      requires Valid() && p + k <= |text|
      modifies this`p
      ensures Valid() && p == old(p) + k && Rest() == old(Rest())[k..]
    {
      assert text[p..][k..] == text[p + k..];
      p := p + k;
    }

    method SkipBlanks()
      requires Valid()
      modifies this`p
      ensures Valid() && p >= old(p) && Rest() == SkipBlank(old(Rest()))
    {
      while p < |text| && text[p] <= ' '
        invariant Valid() && p >= old(p) && SkipBlank(Rest()) == SkipBlank(old(Rest()))
        decreases |text| - p
      {
        Step(1);
      }
    }

    /** Steps over a comment whose opening was read. */
    method Comment()
      requires Valid()
      modifies this`p
      ensures Valid() && p >= old(p) && Rest() == SkipComment(old(Rest()))
    {
      while p < |text|
        invariant Valid() && p >= old(p) && SkipComment(Rest()) == SkipComment(old(Rest()))
        decreases |text| - p
      {
        ghost var s := Rest();
        assert p + 1 < |text| ==> s[1..][0] == text[p + 1];
        if text[p] == '*' && Now(1) == ')' {
          Step(2);
          return;
        }
        Step(1);
      }
    }

    method Line()
      requires Valid()
      modifies this`p
      ensures Valid() && p >= old(p) && Rest() == SkipLine(old(Rest()))
    {
      while p < |text| && text[p] != '\n'
        invariant Valid() && p >= old(p) && SkipLine(Rest()) == SkipLine(old(Rest()))
        decreases |text| - p
      {
        Step(1);
      }
    }

    /** An escape sequence behind its backslash. */
    method ReadSpecial() returns (r: TermText.Option<nat>)
      requires Valid()
      modifies this`p
      ensures Valid() && p >= old(p)
      ensures var x := Special(old(Rest()));
              if x.CutOff? then r.None? else r == TermText.Some(x.code) && Rest() == x.rest && p > old(p)
    {
      if p == |text| {
        return TermText.None;
      }
      ghost var s := Rest();
      var c := text[p];
      Step(1);
      if LetterCode(c).Some? {
        return LetterCode(c);
      }
      if !IsDigit(c) {
        return TermText.Some(Code(c));
      }
      var num, i := Code(c) - 48, 0;
      assert s[1..] == Rest();
      if p < |text| && IsDigit(text[p]) {
        num := 10 * num + Code(text[p]) - 48;
        assert s[2..] == s[1..][1..] && s[1] == text[p];
        Step(1);
        if p < |text| && IsDigit(text[p]) {
          num := 10 * num + Code(text[p]) - 48;
          assert s[3..] == s[2..][1..] && s[2] == text[p];
          Step(1);
        }
      }
      r := TermText.Some(num);
    }

    /** The characters of a string. */
    method ReadChars() returns (r: TermText.Option<Text>)
      requires Valid()
      modifies this`p
      ensures Valid() && p >= old(p)
      ensures var x := Chars(old(Rest()));
              if x.NoString? then r.None? else r == TermText.Some(x.s) && Rest() == x.rest && p > old(p)
    {
      hide Special;
      var s: Text := [];
      ghost var all := Rest();
      BeforeNothing(Chars(all));
      while p < |text| && text[p] != QUOTE
        invariant Valid() && p >= old(p) && Chars(all) == Before(s, Chars(Rest()))
        decreases |text| - p
      {
        ghost var t := Rest();
        var c := text[p];
        Step(1);
        if c == SLASH {
          var k := ReadSpecial();
          if k.None? {
            return TermText.None;
          }
          c := (k.value % 256) as char;
        }
        BeforeCons(s, c, Chars(Rest()));
        s := s + [c];
      }
      if p == |text| {
        return TermText.None;
      }
      Step(1);
      assert s + [] == s;
      r := TermText.Some(s);
    }

    /** The length of the word characters from k characters ahead on. */
    method RunLength(k: nat) returns (n: nat)
      requires Valid() && p + k <= |text|
      ensures n == Run(text[p..][k..]) && p + k + n <= |text|
    {
      n := 0;
      ghost var s := text[p..][k..];
      while p + k + n < |text| && InWord(text[p + k + n])
        invariant p + k + n <= |text| && Run(s) == n + Run(s[n..])
        decreases |text| - n
      {
        assert s[n] == text[p + k + n] && s[n..][1..] == s[n + 1..];
        n := n + 1;
      }
      assert n < |s| ==> s[n] == text[p + k + n];
    }

    /** A number or a name. */
    method ReadWord() returns (tok: Token)
      requires Valid() && p < |text| && text[p] > ' '
      modifies this`p
      ensures Valid() && p > old(p) && Scanned(tok, Rest()) == Word(old(Rest()))
    {
      hide Run, NumberAt;
      ghost var s := Rest();
      var n := RunLength(1);
      var numeric := IsDigit(text[p]) || (text[p] == '-' && IsDigit(Now(1)));
      NumericIs(s, Now(1));
      if numeric {
        RunOfNumber(s);
        tok := NumberFrom(1 + n);
      } else {
        tok := NameFrom(1 + n);
      }
    }

    method NumberFrom(k: nat) returns (tok: Token)
      requires Valid() && p < |text| && text[p] > ' ' && Numeric(text[p..]) && k == 1 + Run(text[p..][1..])
      requires text[p] == '-' ==> k > 1
      modifies this`p
      ensures Valid() && p > old(p) && Scanned(tok, Rest()) == Word(old(Rest()))
    {
      hide Run, NumberAt;
      ghost var s := Rest();
      assert p + 1 < |text| ==> s[1] == text[p + 1] && s[1..][0] == s[1];
      if p + k + 1 < |text| && text[p + k] == '.' && IsDigit(text[p + k + 1]) {
        assert s[k] == text[p + k] && s[k + 1] == text[p + k + 1];
        var more := RunLength(k + 1);
        Step(k + 1 + more);
        return TFloat;
      }
      assert k + 1 < |s| ==> s[k] == text[p + k] && s[k + 1] == text[p + k + 1];
      tok := ReadNumber(k);
    }

    method NameFrom(k: nat) returns (tok: Token)
      requires Valid() && p < |text| && text[p] > ' ' && !Numeric(text[p..]) && k == 1 + Run(text[p..][1..])
      modifies this`p
      ensures Valid() && p > old(p) && Scanned(tok, Rest()) == Word(old(Rest()))
    {
      hide Run, Word, Numeric, InMember;
      ghost var s := Rest();
      var e := k;
      if p + k + 1 < |text| && text[p + k] == '.' && InMember(text[p + k + 1]) {
        var more := RunLength(k + 1);
        e := k + 1 + more;
      }
      NameWord(s, k, e);
      assert s[..e] == text[p..p + e];
      tok := TName(text[p..p + e]);
      Step(e);
    }

    /** Converts the k characters of a number and puts back those that could not be converted. */
    method ReadNumber(k: nat) returns (tok: Token)
      requires Valid() && p + k <= |text|
      requires k > 0 && (IsDigit(text[p]) || (k > 1 && text[p] == '-' && IsDigit(text[p + 1])))
      modifies this`p
      ensures Valid() && p > old(p) && Scanned(tok, Rest()) == NumberAt(old(Rest()), k)
    {
      hide ToInteger, NumberAt;
      var negative := text[p] == '-';
      var digits := if negative then text[p + 1..p + k] else text[p..p + k];
      NumberParts(text, p, k);
      var r := ToInteger(digits);
      var n: int := r.value;
      tok := if n == MAXINT then TFloat else TInt(if negative then -n else n);
      Step(k - |r.rest|);
    }

    /** Reads the next token. */
    method GetSym()
      requires Valid()
      modifies this
      ensures Valid() && p >= old(p) && Scans(Scan(old(Rest())), sym, Rest())
      ensures sym != TEnd ==> p > old(p)
      decreases |text| - p
    {
      hide Word, Chars, Special, SkipComment, SkipLine, SkipBlank;
      SkipBlanks();
      if p == |text| {
        sym := TEnd;
        return;
      }
      ghost var s := Rest();
      var c := text[p];
      BlankDone(s);
      assert p + 1 < |text| ==> s[1..][0] == text[p + 1];
      if c == '(' {
        if Now(1) == '*' {
          Step(2);
          Comment();
          GetSym();
          return;
        }
        Step(1);
        sym := TPunct(c);
      } else if c == '#' {
        Step(1);
        Line();
        GetSym();
      } else if c in ")[]{}.;" {
        Step(1);
        sym := TPunct(c);
      } else if c == APOSTROPHE {
        GetChr();
      } else if c == QUOTE {
        Step(1);
        var t := ReadChars();
        sym := if t.Some? then TText(UpToZero(t.value)) else TEnd;
      } else if c == '$' {
        Step(1);
        sym := TOther;
      } else {
        sym := ReadWord();
      }
    }

    method GetChr()
      requires Valid() && p < |text| && text[p] == APOSTROPHE && SkipBlank(text[p..]) == text[p..]
      modifies this
      ensures Valid() && p >= old(p) && Scans(Scan(old(Rest())), sym, Rest())
      ensures sym != TEnd ==> p > old(p)
    {
      hide Special;
      ghost var s := Rest();
      if p + 1 == |text| {
        sym := TEnd;
        return;
      }
      var c := text[p + 1];
      Step(2);
      if c == SLASH {
        var k := ReadSpecial();
        sym := if k.Some? then TChr(k.value) else TEnd;
      } else {
        sym := TChr(Code(c));
      }
    }

    method ReadFactorNow() returns (r: TermText.Option<Factor>)
      requires Valid()
      modifies this
      ensures Valid() && p >= old(p) && ReadsFactor(ReadFactor(old(sym), old(Rest())), r, Rest())
      decreases |text| - p, 0
    {
      hide Scan, ReadTerm, ListToSet;
      match sym {
        case TInt(n) => r := TermText.Some(Num(n));
        case TChr(c) => r := TermText.Some(Chr(c));
        case TText(t) => r := TermText.Some(Text_(t));
        case TName(t) => r := TermText.Some(Name(t));
        case TPunct(c) =>
          r := TermText.None;
          if c == '[' || c == '{' {
            GetSym();
            if sym == TEnd {
              return;
            }
            var l := ReadTermNow();
            if l.None? {
              return;
            }
            if c == '[' {
              if sym == TPunct(']') {
                r := TermText.Some(Quote(l.value));
              }
            } else if sym == TPunct('}') {
              var m := ToSet(l.value);
              r := if m.Some? then TermText.Some(Set(m.value)) else TermText.None;
            }
          }
        case _ => r := TermText.None;
      }
    }

    /** Reads factors up to a token that ends terms, each linked behind the last. */
    method ReadTermNow() returns (r: TermText.Option<seq<Factor>>)
      requires Valid()
      modifies this
      ensures Valid() && p >= old(p) && ReadsTerm(ReadTerm(old(sym), old(Rest())), r, sym, Rest())
      decreases |text| - p, 1
    {
      hide Scan, ReadFactor;
      var l: seq<Factor> := [];
      ghost var spec := ReadTerm(sym, Rest());
      OntoNothing(spec);
      while !EndsTerm(sym)
        invariant Valid() && p >= old(p) && spec == Onto(l, ReadTerm(sym, Rest()))
        decreases |text| - p
      {
        ghost var tok, s := sym, Rest();
        var f := ReadFactorNow();
        if f.None? {
          return TermText.None;
        }
        ghost var rest := Rest();
        GetSym();
        if sym == TEnd {
          return TermText.None;
        }
        ReadMore(tok, s, f.value, rest);
        OntoMore(l, f.value, ReadTerm(sym, Rest()));
        l := l + [f.value];
      }
      assert l + [] == l;
      r := TermText.Some(l);
    }

    /** The set of the members of a list, if all are small numbers or characters. */
    method ToSet(l: seq<Factor>) returns (m: TermText.Option<set<nat>>)
      ensures m == if Small(l) then TermText.Some(ListToSet(l)) else TermText.None
    {
      var bits: set<nat>, i := {}, 0;
      assert l[..0] == [];
      while i < |l|
        invariant i <= |l| && Small(l[..i]) && bits == ListToSet(l[..i])
      {
        var f := l[i];
        assert l[..i + 1] == l[..i] + [f];
        if f.Num? && 0 <= f.n < 64 {
          SetSnoc(l[..i], f);
          bits := bits + {f.n};
        } else if f.Chr? && f.code < 64 {
          SetSnoc(l[..i], f);
          bits := bits + {f.code};
        } else {
          return TermText.None;
        }
        i := i + 1;
      }
      assert l[..i] == l;
      m := TermText.Some(bits);
    }
  }

  lemma {:induction false} SetSnoc(l: seq<Factor>, f: Factor)
    requires Small(l) && ((f.Num? && 0 <= f.n < 64) || (f.Chr? && f.code < 64))
    ensures Small(l + [f]) && ListToSet(l + [f]) == ListToSet(l) + {if f.Num? then f.n else f.code}
    decreases |l|
  {
    if l == [] {
      assert l + [f] == [f] && [f][1..] == [];
    } else {
      assert (l + [f])[1..] == l[1..] + [f];
      SetSnoc(l[1..], f);
    }
  }

  lemma BeforeNothing(r: Read)
    ensures Before([], r) == r
  {
    if r.AString? {
      assert [] + r.s == r.s;
    }
  }

  lemma BeforeCons(s: Text, c: char, r: Read)
    ensures Before(s, JsonText.Cons(c, r)) == Before(s + [c], r)
  {
    if r.AString? {
      assert s + ([c] + r.s) == s + [c] + r.s;
    }
  }

  lemma OntoNothing(r: TermRead)
    ensures Onto([], r) == r
  {
    if r.ATerm? {
      assert [] + r.l == r.l;
    }
  }

  lemma OntoMore(l: seq<Factor>, f: Factor, r: TermRead)
    ensures Onto(l, if r.ATerm? then ATerm([f] + r.l, r.tok, r.rest) else NoTerm) == Onto(l + [f], r)
  {
    if r.ATerm? {
      assert l + ([f] + r.l) == l + [f] + r.l;
    }
  }

  lemma NameWord(s: Text, k: nat, e: nat)
    requires s != [] && s[0] > ' ' && !Numeric(s) && k == 1 + Run(s[1..])
    requires e == if k + 1 < |s| && s[k] == '.' && InMember(s[k + 1]) then Beyond(s, k) else k
    ensures e <= |s| && Word(s) == Scanned(TName(s[..e]), s[e..])
  {
  }

  lemma NumericIs(s: Text, next: char)
    requires s != [] && next == (if |s| > 1 then s[1] else 0 as char)
    ensures Numeric(s) == (IsDigit(s[0]) || (s[0] == '-' && IsDigit(next)))
  {
  }

  lemma {:induction false} ConvertRest(s: Text, base: nat, acc: nat)
    ensures var r := Convert(s, base, acc); |r.rest| <= |s| && r.rest == s[|s| - |r.rest|..]
    decreases |s|
  {
    if s != [] && DigitOf(s[0]) < base {
      ConvertRest(s[1..], base, base * acc + DigitOf(s[0]));
    }
  }

  lemma Slices(t: Text, p: nat, k: nat)
    requires 0 < k && p + k <= |t|
    ensures t[p..][..k] == t[p..p + k] && t[p..][1..k] == t[p + 1..p + k] && t[p..][0] == t[p]
    ensures k > 1 ==> t[p..p + k][0] == t[p] && t[p + 1..p + k][0] == t[p + 1] == t[p..][1]
  {
  }

  /** What could not be converted stands right before what was not part of the number. */
  lemma PutBack(s: Text, k: nat, digits: Text, rest: Text)
    requires k <= |s| && |rest| <= |digits| <= k && digits == s[k - |digits|..k] && rest == digits[|digits| - |rest|..]
    ensures rest + s[k..] == s[k - |rest|..]
  {
  }

  /** The number in k characters from p on. */
  lemma NumberParts(t: Text, p: nat, k: nat)
    requires p + k <= |t| && k > 0 && (IsDigit(t[p]) || (k > 1 && t[p] == '-' && IsDigit(t[p + 1])))
    ensures var digits := if t[p] == '-' then t[p + 1..p + k] else t[p..p + k];
            var r := ToInteger(digits);
            var n: int := r.value;
            && |r.rest| < k
            && NumberAt(t[p..], k) ==
               Scanned(if n == MAXINT then TFloat else TInt(if t[p] == '-' then -n else n),
                       t[p + (k - |r.rest|)..])
  {
    hide ToInteger;
    var s := t[p..];
    var digits := if t[p] == '-' then t[p + 1..p + k] else t[p..p + k];
    var r := ToInteger(digits);
    Slices(t, p, k);
    ToIntegerRest(digits);
    PutBack(s, k, digits, r.rest);
    assert s[k - |r.rest|..] == t[p + (k - |r.rest|)..];
  }

  lemma ToIntegerRest(s: Text)
    requires s != [] && IsDigit(s[0])
    ensures var r := ToInteger(s); r.rest == s[|s| - |r.rest|..]
  {
    hide Convert;
    ConvertRest(s, 8, 0);
    ConvertRest(s, 10, 0);
    if |s| >= 2 {
      ConvertRest(s[2..], 16, 0);
    }
  }

  lemma {:induction false} BlankDone(s: Text)
    requires s != []
    ensures s[0] > ' ' ==> SkipBlank(s) == s
  {
  }
}
