/** The JSON emitter with its growing buffer, and the parser that moves a cursor over its text. */
module Json {
  import opened JsonText

  /** A buffer that doubles when it is full; one place is always left for the final character 0. */
  class JsonBuf {
    var data: array<char>
    var len: nat
    var cap: nat

    ghost predicate Valid()
      reads this
    {
      2 <= cap == data.Length && len < cap
    }

    ghost function Contents(): Text
      reads this, data
      requires Valid()
    {
      data[..len]
    }

    constructor ()
      ensures Valid() && fresh(data) && Contents() == [] && cap == 256
    {
      cap, len := 256, 0;
      data := new char[256];
    }

    method Push(c: char)
      requires Valid()
      modifies this, data
      ensures Valid() && Contents() == old(Contents()) + [c]
      ensures fresh(data) || data == old(data)
    {
      if len >= cap - 1 {
        cap := cap * 2;
        var larger := new char[cap];
        var i := 0;
        while i < len
          invariant data == old(data) && data[..] == old(data[..]) && len == old(len) && cap == larger.Length
          invariant i <= len < data.Length < larger.Length && larger[..i] == data[..i]
        {
          larger[i] := data[i];
          i := i + 1;
        }
        data := larger;
      }
      data[len] := c;
      len := len + 1;
    }

    method PushAll(s: Text)
      requires Valid()
      modifies this, data
      ensures Valid() && Contents() == old(Contents()) + s
      ensures fresh(data) || data == old(data)
    {
      var i := 0;
      while i < |s|
        invariant i <= |s| && Valid() && Contents() == old(Contents()) + s[..i]
        invariant fresh(data) || data == old(data)
      {
        Push(s[i]);
        assert s[..i + 1] == s[..i] + [s[i]];
        i := i + 1;
      }
      assert s[..i] == s;
    }

    /** The text without the closing 0. */
    method Finish() returns (s: Text)
      requires Valid()
      modifies this, data
      ensures s == old(Contents())
    {
      Push(0 as char);
      s := data[..len - 1];
    }
  }

  lemma EscapeSnoc(s: Text, i: nat)
    requires i < |s|
    ensures EscapeAll(s[..i + 1]) == EscapeAll(s[..i]) + Escape(s[i])
  {
    EscapeAppend(s[..i], s[i]);
    assert s[..i + 1] == s[..i] + [s[i]];
  }

  lemma {:induction false} EscapeAppend(s: Text, c: char)
    ensures EscapeAll(s + [c]) == EscapeAll(s) + Escape(c)
    decreases |s|
  {
    if s == [] {
      assert EscapeAll([c]) == Escape(c) + EscapeAll([]);
    } else {
      assert (s + [c])[1..] == s[1..] + [c];
      EscapeAppend(s[1..], c);
    }
  }

  lemma EscapeNone()
    ensures EscapeAll([]) == []
  {
  }

  method WriteString(s: Text, out: JsonBuf)
    requires out.Valid()
    modifies out, out.data
    ensures out.Valid() && out.Contents() == old(out.Contents()) + EmitString(s)
    ensures fresh(out.data) || out.data == old(out.data)
  {
    hide JsonBuf.Valid, JsonBuf.Contents, Escape, EscapeAll;
    assert EscapeAll([]) == [] by { EscapeNone(); }
    out.Push(QUOTE);
    var i := 0;
    assert s[..0] == [];
    while i < |s|
      invariant i <= |s| && out.Valid() && out.Contents() == old(out.Contents()) + [QUOTE] + EscapeAll(s[..i])
      invariant fresh(out.data) || out.data == old(out.data)
    {
      out.PushAll(Escape(s[i]));
      EscapeSnoc(s, i);
      i := i + 1;
    }
    assert s[..i] == s;
    out.Push(QUOTE);
  }

  /** Writes a value; the members of a list, of a dictionary and of a set are separated by commas. */
  method WriteValue(v: JsonText.Json, out: JsonBuf)
    requires out.Valid()
    modifies out, out.data
    ensures out.Valid() && out.Contents() == old(out.Contents()) + Emit(v)
    ensures fresh(out.data) || out.data == old(out.data)
    decreases v, 1
  {
    hide EmitString, EmitInt, EscapeAll, JsonBuf.Valid, JsonBuf.Contents, EmitElems, EmitEntries, EmitMembers;
    match v {
      case Null => out.PushAll("null");
      case Bool(b) => out.PushAll(if b then "true" else "false");
      case Int(n) => out.PushAll(EmitInt(n));
      case Float(t) => out.PushAll(t);
      case Str(s) => WriteString(s, out);
      case List(l) => WriteList(l, out);
      case Dict(d) => WriteDict(d, out);
      case Symbol(s) =>
        if s == "null" {
          out.PushAll("null");
        } else {
          WriteString(s, out);
        }
      case Letter(c) => WriteString(OneLetter(c), out);
      case Bits(m) => WriteSet(m, out);
      case Other => out.PushAll("null");
    }
  }

  method WriteList(l: seq<JsonText.Json>, out: JsonBuf)
    requires out.Valid()
    modifies out, out.data
    ensures out.Valid() && out.Contents() == old(out.Contents()) + (['['] + EmitElems(l) + [']'])
    ensures fresh(out.data) || out.data == old(out.data)
    decreases l, 1
  {
    hide EmitElems, JsonBuf.Valid, JsonBuf.Contents;
    out.Push('[');
    WriteElems(l, out);
    out.Push(']');
  }

  method WriteDict(d: seq<Entry>, out: JsonBuf)
    requires out.Valid()
    modifies out, out.data
    ensures out.Valid() && out.Contents() == old(out.Contents()) + (['{'] + EmitEntries(d) + ['}'])
    ensures fresh(out.data) || out.data == old(out.data)
    decreases d, 1
  {
    hide EmitEntries, JsonBuf.Valid, JsonBuf.Contents;
    out.Push('{');
    WriteEntries(d, out);
    out.Push('}');
  }

  method WriteSet(m: seq<nat>, out: JsonBuf)
    requires out.Valid()
    modifies out, out.data
    ensures out.Valid() && out.Contents() == old(out.Contents()) + (['['] + EmitMembers(m) + [']'])
    ensures fresh(out.data) || out.data == old(out.data)
  {
    hide EmitMembers, JsonBuf.Valid, JsonBuf.Contents;
    out.Push('[');
    WriteMembers(m, out);
    out.Push(']');
  }

  method WriteElems(l: seq<JsonText.Json>, out: JsonBuf)
    requires out.Valid()
    modifies out, out.data
    ensures out.Valid() && out.Contents() == old(out.Contents()) + EmitElems(l)
    ensures fresh(out.data) || out.data == old(out.data)
    decreases l, 0
  {
    hide Emit, JsonBuf.Valid, JsonBuf.Contents;
    var i, first := 0, true;
    while i < |l|
      invariant i <= |l| && first == (i == 0) && out.Valid()
      invariant fresh(out.data) || out.data == old(out.data)
      invariant out.Contents() + Tail(l, i) == old(out.Contents()) + EmitElems(l)
    {
      if !first {
        out.Push(',');
      }
      first := false;
      WriteValue(l[i], out);
      TailStep(l, i);
      i := i + 1;
    }
  }

  /** What of a list is still to be written after i elements, with its comma. */
  function Tail(l: seq<JsonText.Json>, i: nat): Text
    requires i <= |l|
  {
    (if 0 < i < |l| then [','] else []) + EmitElems(l[i..])
  }

  lemma TailStep(l: seq<JsonText.Json>, i: nat)
    requires i < |l|
    ensures Tail(l, i) == (if i > 0 then [','] else []) + Emit(l[i]) + Tail(l, i + 1)
  {
    hide Emit;
    assert l[i..][1..] == l[i + 1..];
  }

  method WriteEntry(e: Entry, out: JsonBuf)
    requires out.Valid()
    modifies out, out.data
    ensures out.Valid() && out.Contents() == old(out.Contents()) + EmitEntry(e)
    ensures fresh(out.data) || out.data == old(out.data)
    decreases e, 0
  {
    hide Emit, EmitString, JsonBuf.Valid, JsonBuf.Contents;
    WriteString(e.key, out);
    out.Push(':');
    WriteValue(e.val, out);
  }

  method WriteEntries(d: seq<Entry>, out: JsonBuf)
    requires out.Valid()
    modifies out, out.data
    ensures out.Valid() && out.Contents() == old(out.Contents()) + EmitEntries(d)
    ensures fresh(out.data) || out.data == old(out.data)
    decreases d, 0
  {
    hide EmitEntry, JsonBuf.Valid, JsonBuf.Contents;
    var k, first := 0, true;
    while k < |d|
      invariant k <= |d| && first == (k == 0) && out.Valid()
      invariant fresh(out.data) || out.data == old(out.data)
      invariant out.Contents() + EntryTail(d, k) == old(out.Contents()) + EmitEntries(d)
    {
      if !first {
        out.Push(',');
      }
      first := false;
      WriteEntry(d[k], out);
      EntryTailStep(d, k);
      k := k + 1;
    }
  }

  function EntryTail(d: seq<Entry>, k: nat): Text
    requires k <= |d|
  {
    (if 0 < k < |d| then [','] else []) + EmitEntries(d[k..])
  }

  lemma EntryTailStep(d: seq<Entry>, k: nat)
    requires k < |d|
    ensures EntryTail(d, k) ==
            (if k > 0 then [','] else []) + EmitEntry(d[k]) + EntryTail(d, k + 1)
  {
    hide EmitEntry;
    assert d[k..][1..] == d[k + 1..];
  }

  method WriteMembers(m: seq<nat>, out: JsonBuf)
    requires out.Valid()
    modifies out, out.data
    ensures out.Valid() && out.Contents() == old(out.Contents()) + EmitMembers(m)
    ensures fresh(out.data) || out.data == old(out.data)
  {
    hide EmitInt, JsonBuf.Valid, JsonBuf.Contents;
    var i, first := 0, true;
    while i < |m|
      invariant i <= |m| && first == (i == 0) && out.Valid()
      invariant fresh(out.data) || out.data == old(out.data)
      invariant out.Contents() + MemberTail(m, i) == old(out.Contents()) + EmitMembers(m)
    {
      if !first {
        out.Push(',');
      }
      first := false;
      out.PushAll(EmitInt(m[i]));
      MemberTailStep(m, i);
      i := i + 1;
    }
  }

  function MemberTail(m: seq<nat>, i: nat): Text
    requires i <= |m|
  {
    (if 0 < i < |m| then [','] else []) + EmitMembers(m[i..])
  }

  lemma MemberTailStep(m: seq<nat>, i: nat)
    requires i < |m|
    ensures MemberTail(m, i) == (if i > 0 then [','] else []) + EmitInt(m[i]) + MemberTail(m, i + 1)
  {
    hide EmitInt;
    assert m[i..][1..] == m[i + 1..];
  }

  // ----- the parser -----

  datatype Option<V> = None | Some(value: V)

  ghost predicate Reads(r: Option<JsonText.Json>, spec: Parsed, rest: Text) {
    match spec
    case Fail => r.None?
    case PastEnd => false
    case Got(v, t) => r == Some(v) && rest == t
  }

  ghost predicate ReadsString(r: Option<Text>, spec: Read, rest: Text) {
    match spec
    case NoString => r.None?
    case AString(s, t) => r == Some(s) && rest == t
  }

  /** What has been decoded before r. */
  ghost function Prepend(s: Text, r: Read): Read {
    if r.AString? then AString(s + r.s, r.rest) else r
  }

  lemma PrependCons(done: Text, c: char, r: Read)
    ensures Prepend(done, Cons(c, r)) == Prepend(done + [c], r)
  {
    if r.AString? {
      assert done + ([c] + r.s) == done + [c] + r.s;
    }
  }

  lemma StepPlain(s: Text, done: Text)
    requires Peek(s) != 0 as char && Peek(s) != QUOTE && s[0] != SLASH
    ensures Prepend(done, Decode(s)) == Prepend(done + [s[0]], Decode(s[1..]))
    ensures Count(s) == 1 + Count(s[1..]) && CutFirst(s) == CutFirst(s[1..])
  {
    PrependCons(done, s[0], Decode(s[1..]));
  }

  lemma StepEscape(s: Text, done: Text)
    requires |s| >= 2 && s[0] == SLASH && s[1] != 0 as char && s[1] != 'u'
    ensures Prepend(done, Decode(s)) == Prepend(done + [Unescape(s[1])], Decode(s[2..]))
    ensures Count(s) == 1 + Count(s[2..]) && CutFirst(s) == CutFirst(s[2..])
  {
    hide Unescape;
    PrependCons(done, Unescape(s[1]), Decode(s[2..]));
  }

  lemma StepUnicode(s: Text, done: Text)
    requires |s| >= 5 && s[0] == SLASH && s[1] == 'u'
    ensures |s| >= 6 ==> Prepend(done, Decode(s)) == Prepend(done + ['?'], Decode(s[6..]))
    ensures Count(s) == 1 + Count(s[5..]) && CutFirst(s) == CutFirst(s[5..])
  {
    if |s| >= 6 {
      PrependCons(done, '?', Decode(s[6..]));
    }
  }

  lemma Lengths(done: Text, r: Read, whole: Read)
    requires Prepend(done, r) == whole
    ensures whole.AString? ==> |done| <= |whole.s|
  {
  }

  lemma PrependNone(done: Text, r: Read, s: Text)
    requires Prepend(done, r) == Prepend([], Decode(s)) && r.NoString?
    ensures Decode(s).NoString?
  {
    hide Decode;
  }

  lemma CutOff(s: Text)
    requires s != [] && s[0] == SLASH && (|s| < 2 || s[1] == 0 as char || (s[1] == 'u' && |s| < 6))
    ensures Decode(s).NoString? && (|s| < 2 || s[1] == 0 as char || |s| < 5 ==> CutFirst(s))
  {
  }

  /** A cursor over a text that ends with character 0. */
  class Reader {
    const text: Text
    var p: nat
    /** Set when the program would step over the end of its text or of a string it decodes; it is not in the
        program. */
    var overrun: bool

    ghost predicate Valid()
      reads this
    {
      p <= |text| && !overrun
    }

    ghost function Rest(): Text
      reads this
      requires p <= |text|
    {
      text[p..]
    }

    function Now(): (c: char)
      reads this
      requires p <= |text|
      ensures c == Peek(text[p..])
    {
      if p < |text| then text[p] else 0 as char
    }

    constructor (text: Text)
      ensures this.text == text && Valid() && p == 0
    {
      this.text := text;
      p, overrun := 0, false;
    }

    method Step()
      requires Valid() && p < |text|
      modifies this`p
      ensures Valid() && p == old(p) + 1 && Rest() == old(Rest())[1..]
    {
      assert text[p..][1..] == text[p + 1..];
      p := p + 1;
    }

    method SkipWs()
      requires Valid()
      modifies this`p
      ensures Valid() && p >= old(p) && Rest() == SkipSpace(old(Rest()))
    {
      while Now() == ' ' || Now() == '\t' || Now() == '\n' || Now() == '\r'
        invariant Valid() && p >= old(p) && SkipSpace(Rest()) == SkipSpace(old(Rest()))
        decreases |text| - p
      {
        Step();
      }
    }

    /** The first pass over a string counts its length. */
    method FirstPass() returns (len: nat)
      requires Valid()
      modifies this
      ensures overrun <==> CutFirst(old(Rest()))
      ensures !overrun ==> Valid() && p >= old(p) && len == Count(old(Rest()))
    {
      hide Count, CutFirst, Decode;
      ghost var s := Rest();
      len := 0;
      while Now() != 0 as char && Now() != QUOTE
        invariant Valid() && p >= old(p) && len + Count(Rest()) == Count(s) && CutFirst(Rest()) == CutFirst(s)
        decreases |text| - p
      {
        ghost var t := Rest();
        if Now() == SLASH {
          if p + 1 >= |text| || text[p + 1] == 0 as char || (text[p + 1] == 'u' && p + 5 > |text|) {
            CutOff(t);
            overrun := true;
            return;
          }
          if text[p + 1] == 'u' {
            StepUnicode(t, []);
            SlideUnicode(text, p);
            p := p + 5;
          } else {
            StepEscape(t, []);
            Slide(text, p, 2);
            p := p + 2;
          }
        } else {
          StepPlain(t, []);
          Slide(text, p, 1);
          p := p + 1;
        }
        len := len + 1;
      }
      CountNone(Rest());
    }

    /** The second pass writes the characters to an array of the length that the first one counted. */
    method SecondPass(len: nat) returns (result: Text)
      requires Valid() && len == Count(Rest())
      modifies this
      ensures overrun <==> Decode(old(Rest())).NoString? || |Decode(old(Rest())).s| > len
      ensures !overrun ==> Valid() && p >= old(p) && Decode(old(Rest())) == AString(result, Rest())
    {
      hide Count, CutFirst, Decode, Unescape, Prepend;
      ghost var s := Rest();
      result := [];
      var dst := new char[len + 1];
      var n := 0;
      while Now() != 0 as char && Now() != QUOTE
        invariant Valid() && p >= old(p) && n <= len && result == dst[..n]
        invariant Prepend(result, Decode(Rest())) == Prepend([], Decode(s))
        decreases |text| - p
      {
        ghost var t := Rest();
        var c := Now();
        if c == SLASH {
          if p + 1 >= |text| || text[p + 1] == 0 as char || (text[p + 1] == 'u' && p + 6 > |text|) {
            CutOff(t);
            PrependNone(result, Decode(t), s);
            overrun := true;
            return;
          }
          if text[p + 1] == 'u' {
            StepUnicode(t, result);
            SlideUnicode(text, p);
            c := '?';
            p := p + 6;
          } else {
            StepEscape(t, result);
            Slide(text, p, 2);
            c := Unescape(text[p + 1]);
            p := p + 2;
          }
        } else {
          StepPlain(t, result);
          Slide(text, p, 1);
          p := p + 1;
        }
        DecodePlain(s);
        Lengths(result + [c], Decode(Rest()), Decode(s));
        if n == len {
          overrun := true;
          return;
        }
        dst[n] := c;
        n := n + 1;
        result := result + [c];
      }
      DecodeNone(Rest(), result);
      DecodePlain(s);
    }

    /** A string from its opening quote on. */
    method StringValue() returns (r: Option<Text>)
      requires Valid()
      modifies this
      ensures overrun <==> Overruns(old(Rest()))
      ensures !overrun ==> Valid() && p >= old(p) && ReadsString(r, ParseString(old(Rest())), Rest())
    {
      hide Count, CutFirst, Decode;
      if Now() != QUOTE {
        return None;
      }
      Step();
      var start := p;
      var len := FirstPass();
      if overrun {
        return None;
      }
      p := start;
      var s := SecondPass(len);
      if overrun {
        return None;
      }
      r := Some(s);
      if Now() == QUOTE {
        Step();
      }
    }

    method Digits()
      requires Valid()
      modifies this`p
      ensures Valid() && p >= old(p) && Rest() == SkipDigits(old(Rest()))
    {
      while '0' <= Now() <= '9'
        invariant Valid() && p >= old(p) && SkipDigits(Rest()) == SkipDigits(old(Rest()))
        decreases |text| - p
      {
        Step();
      }
    }

    method Fraction() returns (found: bool)
      requires Valid()
      modifies this`p
      ensures Valid() && p >= old(p) && Rest() == SkipFraction(old(Rest())) && found == (Peek(old(Rest())) == '.')
    {
      hide SkipDigits;
      found := Now() == '.';
      if found {
        Step();
        Digits();
      }
    }

    method Exponent() returns (found: bool)
      requires Valid()
      modifies this`p
      ensures Valid() && p >= old(p) && Rest() == SkipExponent(old(Rest()))
      ensures found == (Peek(old(Rest())) == 'e' || Peek(old(Rest())) == 'E')
    {
      hide SkipDigits;
      found := Now() == 'e' || Now() == 'E';
      if found {
        Step();
        if Now() == '+' || Now() == '-' {
          Step();
        }
        Digits();
      }
    }

    method Number() returns (v: JsonText.Json)
      requires Valid()
      modifies this`p
      ensures Valid() && p >= old(p) && ParseNumber(old(Rest())) == Got(v, Rest())
    {
      hide SkipDigits, Value;
      ghost var s := Rest();
      var start, negative := p, Now() == '-';
      if negative {
        Step();
      }
      var first := p;
      Digits();
      ghost var whole := Rest();
      var a := Fraction();
      ghost var fraction := Rest();
      var b := Exponent();
      FractionPeek(whole);
      Part(text, start, p);
      if a || b {
        v := Float(text[start..p]);
      } else {
        var n: int := Value(text[first..], 0);
        v := Int(Clamp(if negative then -n else n));
      }
    }

    method Word(w: Text, v: JsonText.Json) returns (r: Option<JsonText.Json>)
      requires Valid() && w != []
      modifies this`p
      ensures Valid() && p >= old(p) && Reads(r, ParseWord(old(Rest()), w, v), Rest())
    {
      if p + |w| <= |text| && text[p..p + |w|] == w {
        assert text[p..][..|w|] == w && text[p..][|w|..] == text[p + |w|..];
        p := p + |w|;
        return Some(v);
      }
      if p + |w| <= |text| {
        assert text[p..][..|w|] == text[p..p + |w|];
      }
      r := None;
    }

    method ValueAt() returns (r: Option<JsonText.Json>)
      requires Valid()
      modifies this
      ensures overrun <==> ParseValue(old(Rest())).PastEnd?
      ensures !overrun ==> Valid() && p >= old(p) && Reads(r, ParseValue(old(Rest())), Rest())
      decreases |text| - p, 2
    {
      hide ParseString, ParseNumber, ParseWord, ParseArray, ParseObject, SkipSpace, Overruns;
      SkipWs();
      var c := Now();
      if c == '{' {
        r := ObjectAt();
      } else if c == '[' {
        r := ArrayAt();
      } else if c == QUOTE {
        var s := StringValue();
        r := if s.Some? then Some(Str(s.value)) else None;
      } else if c == 't' {
        r := Word("true", Bool(true));
      } else if c == 'f' {
        r := Word("false", Bool(false));
      } else if c == 'n' {
        r := Word("null", Null);
      } else if c == '-' || '0' <= c <= '9' {
        var v := Number();
        r := Some(v);
      } else {
        r := None;
      }
    }

    method ArrayAt() returns (r: Option<JsonText.Json>)
      requires Valid() && Now() == '['
      modifies this
      ensures overrun <==> ParseArray(old(Rest())).PastEnd?
      ensures !overrun ==> Valid() && p >= old(p) && Reads(r, ParseArray(old(Rest())), Rest())
      decreases |text| - p, 1
    {
      hide ParseElems, SkipSpace;
      Step();
      SkipWs();
      if Now() == ']' {
        Step();
        return Some(List([]));
      }
      var done: seq<JsonText.Json> := [];
      ghost var s := Rest();
      while true
        invariant Valid() && p > old(p) && ParseElems(Rest(), done) == ParseElems(s, [])
        decreases |text| - p
      {
        ghost var before, here := Rest(), p;
        SkipWs();
        var v := ValueAt();
        ElemsStep(before, done);
        if overrun || v.None? {
          return None;
        }
        done := done + [v.value];
        SkipWs();
        if Now() == ']' {
          Step();
          return Some(List(done));
        }
        if Now() != ',' {
          return None;
        }
        Step();
      }
    }

    /** One entry of a dictionary. */
    method EntryAt(ghost done: seq<Entry>) returns (e: Option<Entry>)
      requires Valid()
      modifies this
      ensures overrun ==> AfterKey(SkipSpace(old(Rest())), done).PastEnd?
      ensures !overrun ==>
                && Valid() && p >= old(p)
                && AfterKey(SkipSpace(old(Rest())), done) ==
                   if e.None? then Fail else AfterValue(Got(e.value.val, Rest()), done, e.value.key)
      decreases |text| - p, 3
    {
      hide ParseValue, SkipSpace, Overruns, ParseString, Put;
      SkipWs();
      var k := StringValue();
      if overrun || k.None? {
        return None;
      }
      SkipWs();
      if Now() != ':' {
        return None;
      }
      Step();
      SkipWs();
      var v := ValueAt();
      if overrun || v.None? {
        return None;
      }
      e := Some(Entry(k.value, v.value));
    }

    method ObjectAt() returns (r: Option<JsonText.Json>)
      requires Valid() && Now() == '{'
      modifies this
      ensures overrun <==> ParseObject(old(Rest())).PastEnd?
      ensures !overrun ==> Valid() && p >= old(p) && Reads(r, ParseObject(old(Rest())), Rest())
      decreases |text| - p, 1
    {
      hide ParseEntries, SkipSpace, Overruns, ParseString, Put, AfterKey;
      Step();
      SkipWs();
      if Now() == '}' {
        Step();
        return Some(Dict([]));
      }
      var done: seq<Entry> := [];
      ghost var s := Rest();
      while true
        invariant Valid() && p > old(p) && ParseEntries(Rest(), done) == ParseEntries(s, [])
        decreases |text| - p
      {
        EntriesStep(Rest(), done);
        var e := EntryAt(done);
        if overrun || e.None? {
          return None;
        }
        done := Put(done, e.value.key, e.value.val);
        SkipWs();
        if Now() == '}' {
          Step();
          return Some(Dict(done));
        }
        if Now() != ',' {
          return None;
        }
        Step();
      }
    }
  }

  /** One element and what comes behind it. */
  lemma ElemsStep(s: Text, done: seq<JsonText.Json>)
    ensures var r := ParseValue(SkipSpace(s));
            ParseElems(s, done) ==
            if !r.Got? then r
            else
              var t := SkipSpace(r.rest);
              if Peek(t) == ']' then Got(List(done + [r.value]), t[1..])
              else if Peek(t) == ',' then ParseElems(t[1..], done + [r.value])
              else Fail
  {
    hide ParseValue, SkipSpace;
  }

  ghost function AfterValue(r: Parsed, done: seq<Entry>, k: Text): Parsed {
    if !r.Got? then r
    else
      var t := SkipSpace(r.rest);
      if Peek(t) == '}' then Got(Dict(Put(done, k, r.value)), t[1..])
      else if Peek(t) == ',' then ParseEntries(t[1..], Put(done, k, r.value))
      else Fail
  }

  ghost function AfterKey(s: Text, done: seq<Entry>): Parsed {
    var r := ParseString(s);
    if Overruns(s) then PastEnd
    else if r.NoString? then Fail
    else
      var t := SkipSpace(r.rest);
      if Peek(t) != ':' then Fail else AfterValue(ParseValue(SkipSpace(t[1..])), done, r.s)
  }

  lemma FractionPeek(whole: Text)
    ensures Peek(whole) == '.' || Peek(SkipFraction(whole)) == Peek(whole)
  {
  }

  lemma EntriesStep(s: Text, done: seq<Entry>)
    ensures ParseEntries(s, done) == AfterKey(SkipSpace(s), done)
  {
    hide ParseValue, SkipSpace, ParseString, Put, Overruns;
  }

  lemma Slide(t: Text, p: nat, k: nat)
    requires p + k <= |t|
    ensures t[p..][k..] == t[p + k..]
  {
  }

  lemma Part(t: Text, p: nat, q: nat)
    requires p <= q <= |t|
    ensures t[p..][..|t[p..]| - |t[q..]|] == t[p..q]
  {
  }

  lemma SlideUnicode(t: Text, p: nat)
    requires p + 5 <= |t|
    ensures t[p..][5..] == t[p + 5..] && (p + 6 <= |t| ==> t[p..][6..] == t[p + 6..])
  {
  }

  lemma CountNone(s: Text)
    ensures Peek(s) == 0 as char || Peek(s) == QUOTE ==> Count(s) == 0 && !CutFirst(s)
  {
  }

  lemma DecodeNone(s: Text, done: Text)
    requires Peek(s) == 0 as char || Peek(s) == QUOTE
    ensures Prepend(done, Decode(s)) == AString(done, s)
  {
  }

  lemma DecodePlain(s: Text)
    ensures Prepend([], Decode(s)) == Decode(s)
  {
    hide Decode;
    if Decode(s).AString? {
      assert [] + Decode(s).s == Decode(s).s;
    }
  }
}
