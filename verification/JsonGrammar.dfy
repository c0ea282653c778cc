/** The texts that the JSON parser accepts, as a grammar: what each of them means, and that there are no others.

    The grammar is that of RFC 8259 with what the program allows beyond it: any character but a quotation mark or a
    backslash in a string, a backslash before any character, and numbers with missing or leading digits. */
module JsonGrammar {
  import opened JsonText

  // ----- spellings -----

  /** White space. */
  predicate Blank(t: Text) {
    forall i :: 0 <= i < |t| ==> t[i] == ' ' || t[i] == '\t' || t[i] == '\n' || t[i] == '\r'
  }

  /** What stands for one character of a string: itself, a backslash and a character, or \u and four more. */
  datatype Piece = Raw(c: char) | Short(c: char) | Long(a: char, b: char, c: char, d: char)

  function SpellPiece(p: Piece): Text {
    match p
    case Raw(c) => [c]
    case Short(c) => ['\\', c]
    case Long(a, b, c, d) => ['\\', 'u', a, b, c, d]
  }

  function SpellPieces(ps: seq<Piece>): Text {
    if ps == [] then [] else SpellPiece(ps[0]) + SpellPieces(ps[1..])
  }

  /** The character that is meant; a Unicode escape is a question mark. */
  function PieceChar(p: Piece): char {
    match p
    case Raw(c) => c
    case Short(c) =>
      if c == 'b' then 8 as char else if c == 't' then 9 as char else if c == 'n' then 10 as char
      else if c == 'f' then 12 as char else if c == 'r' then 13 as char else c
    case Long(_, _, _, _) => '?'
  }

  function Chars(ps: seq<Piece>): Text {
    if ps == [] then [] else [PieceChar(ps[0])] + Chars(ps[1..])
  }

  /** In a strict text the fourth character of a Unicode escape is neither a quotation mark nor a backslash, and
      exponents have digits. */
  predicate PieceFits(p: Piece, strict: bool) {
    match p
    case Raw(c) => c != '\"' && c != '\\' && c != 0 as char
    case Short(c) => c != 'u' && c != 0 as char
    case Long(_, _, _, d) => strict ==> d != '\"' && d != '\\' && d != 0 as char
  }

  predicate PiecesFit(ps: seq<Piece>, strict: bool) {
    forall i :: 0 <= i < |ps| ==> PieceFits(ps[i], strict)
  }

  datatype Fraction = NoFraction | Fraction(digits: Text)

  datatype Exponent = NoExponent | Exponent(mark: char, sign: Text, digits: Text)

  /** A JSON text without what is around it. */
  datatype Doc =
    | Nothing
    | Truth(b: bool)
    | Number(minus: bool, whole: Text, fraction: Fraction, exponent: Exponent)
    | Quoted(pieces: seq<Piece>)
    | Array(inner: Text, items: seq<Item>)
    | Object(inner: Text, members: seq<Member>)

  /** A text with white space around it. */
  datatype Item = Item(before: Text, doc: Doc, after: Text)

  datatype Member = Member(before: Text, key: seq<Piece>, behind: Text, value: Item)

  function SpellFraction(f: Fraction): Text {
    match f
    case NoFraction => []
    case Fraction(d) => ['.'] + d
  }

  function SpellExponent(e: Exponent): Text {
    match e
    case NoExponent => []
    case Exponent(m, s, d) => [m] + s + d
  }

  function Spell(x: Doc): Text
    decreases x
  {
    match x
    case Nothing => "null"
    case Truth(b) => if b then "true" else "false"
    case Number(minus, whole, f, e) => (if minus then "-" else "") + whole + SpellFraction(f) + SpellExponent(e)
    case Quoted(ps) => ['\"'] + SpellPieces(ps) + ['\"']
    case Array(inner, items) => ['['] + (if items == [] then inner else SpellItems(items)) + [']']
    case Object(inner, members) => ['{'] + (if members == [] then inner else SpellMembers(members)) + ['}']
  }

  function SpellItem(i: Item): Text
    decreases i
  {
    i.before + Spell(i.doc) + i.after
  }

  function SpellItems(items: seq<Item>): Text
    decreases items
  {
    if items == [] then []
    else if |items| == 1 then SpellItem(items[0])
    else SpellItem(items[0]) + [','] + SpellItems(items[1..])
  }

  function SpellMember(m: Member): Text
    decreases m
  {
    m.before + ['\"'] + SpellPieces(m.key) + ['\"'] + m.behind + [':'] + SpellItem(m.value)
  }

  function SpellMembers(ms: seq<Member>): Text
    decreases ms
  {
    if ms == [] then []
    else if |ms| == 1 then SpellMember(ms[0])
    else SpellMember(ms[0]) + [','] + SpellMembers(ms[1..])
  }

  predicate AllDigits(t: Text) {
    forall i :: 0 <= i < |t| ==> '0' <= t[i] <= '9'
  }

  predicate Fits(x: Doc, strict: bool)
    decreases x
  {
    match x
    case Number(minus, whole, f, e) =>
      && AllDigits(whole) && (minus || whole != []) && (f.Fraction? ==> AllDigits(f.digits))
      && (e.Exponent? ==>
            && (e.mark == 'e' || e.mark == 'E') && e.sign in ["", "+", "-"] && AllDigits(e.digits)
            && (strict ==> e.digits != []))
    case Quoted(ps) => PiecesFit(ps, strict)
    case Array(inner, items) => Blank(inner) && forall i :: 0 <= i < |items| ==> ItemFits(items[i], strict)
    case Object(inner, ms) => Blank(inner) && forall i :: 0 <= i < |ms| ==> MemberFits(ms[i], strict)
    case _ => true
  }

  predicate ItemFits(i: Item, strict: bool)
    decreases i
  {
    Blank(i.before) && Blank(i.after) && Fits(i.doc, strict)
  }

  predicate MemberFits(m: Member, strict: bool)
    decreases m
  {
    Blank(m.before) && PiecesFit(m.key, strict) && Blank(m.behind) && ItemFits(m.value, strict)
  }

  // ----- meanings -----

  /** The number that a row of digits stands for. */
  function Decimal(t: Text): nat
    requires AllDigits(t)
  {
    if t == [] then 0 else 10 * Decimal(t[..|t| - 1]) + (t[|t| - 1] as int - '0' as int)
  }

  /** Numbers without fraction and exponent are integers, cut off at 64 bits. */
  function Meaning(x: Doc): Json
    requires Fits(x, false)
    decreases x
  {
    match x
    case Nothing => Null
    case Truth(b) => Bool(b)
    case Number(minus, whole, f, e) =>
      if f.Fraction? || e.Exponent? then Float(Spell(x))
      else
        var v: int := Decimal(whole);
        Int(if minus then if v > 0x8000_0000_0000_0000 then -0x8000_0000_0000_0000 else -v
            else if v > 0x7fff_ffff_ffff_ffff then 0x7fff_ffff_ffff_ffff else v)
    case Quoted(ps) => Str(Chars(ps))
    case Array(_, items) => List(Meanings(items))
    case Object(_, ms) => Dict(Entries(ms))
  }

  function Meanings(items: seq<Item>): (l: seq<Json>)
    requires forall i :: 0 <= i < |items| ==> ItemFits(items[i], false)
    decreases items
  {
    if items == [] then [] else [ItemMeaning(items[0])] + Meanings(items[1..])
  }

  function ItemMeaning(i: Item): Json
    requires ItemFits(i, false)
    decreases i
  {
    Meaning(i.doc)
  }

  /** The entries of an object: those before the last one, and that one, which may replace one of them. */
  function Entries(ms: seq<Member>): seq<Entry>
    requires forall i :: 0 <= i < |ms| ==> MemberFits(ms[i], false)
    decreases ms
  {
    if ms == [] then [] else
      var last := ms[|ms| - 1];
      Put(Entries(ms[..|ms| - 1]), Chars(last.key), MemberMeaning(last))
  }

  function MemberMeaning(m: Member): Json
    requires MemberFits(m, false)
    decreases m
  {
    ItemMeaning(m.value)
  }

  lemma {:induction false} StrictFits(x: Doc)
    requires Fits(x, true)
    ensures Fits(x, false)
    decreases x
  {
    match x
    case Array(_, items) =>
      forall i | 0 <= i < |items| ensures ItemFits(items[i], false) {
        assert ItemFits(items[i], true);
        StrictFits(items[i].doc);
      }
    case Object(_, ms) =>
      forall i | 0 <= i < |ms| ensures MemberFits(ms[i], false) {
        assert MemberFits(ms[i], true) && ItemFits(ms[i].value, true);
        StrictFits(ms[i].value.doc);
      }
    case _ =>
  }

  // ----- dictionaries -----

  /** Each key has one entry. */
  predicate DistinctKeys(d: seq<Entry>) {
    forall i, j :: 0 <= i < j < |d| ==> d[i].key != d[j].key
  }

  lemma {:induction false} PutEntry(d: seq<Entry>, k: Text, v: Json)
    requires DistinctKeys(d)
    ensures DistinctKeys(Put(d, k, v))
    ensures forall e :: e in Put(d, k, v) <==> e == Entry(k, v) || (e in d && e.key != k)
    decreases |d|
  {
    if d != [] && d[0].key != k {
      PutEntry(d[1..], k, v);
      forall j | 0 < j < |Put(d, k, v)| ensures Put(d, k, v)[j].key != d[0].key {
        assert Put(d, k, v)[j] in Put(d[1..], k, v);
      }
    }
  }

  /** Member i is the last one with the key of e, and has its value. */
  predicate Gives(ms: seq<Member>, i: nat, e: Entry)
    requires forall k :: 0 <= k < |ms| ==> MemberFits(ms[k], false)
  {
    && i < |ms| && Chars(ms[i].key) == e.key && MemberMeaning(ms[i]) == e.val
    && forall j :: i < j < |ms| ==> Chars(ms[j].key) != e.key
  }

  lemma GivesMore(ms: seq<Member>, i: nat, e: Entry)
    requires |ms| > 0 && forall k :: 0 <= k < |ms| ==> MemberFits(ms[k], false)
    ensures Gives(ms, i, e) <==>
            if i == |ms| - 1 then e == Entry(Chars(ms[i].key), MemberMeaning(ms[i]))
            else Gives(ms[..|ms| - 1], i, e) && Chars(ms[|ms| - 1].key) != e.key
  {
    hide Chars, MemberMeaning, MemberFits;
    var init := ms[..|ms| - 1];
    assert forall k :: 0 <= k < |init| ==> init[k] == ms[k];
    if i < |ms| - 1 && Gives(init, i, e) && Chars(ms[|ms| - 1].key) != e.key {
      forall j | i < j < |ms| ensures Chars(ms[j].key) != e.key {
        if j < |ms| - 1 {
          assert init[j] == ms[j];
        }
      }
    }
  }

  /** The entries of an object are the keys with the value of the last member that has it. */
  lemma {:induction false} LastMemberCounts(ms: seq<Member>, e: Entry)
    requires forall i :: 0 <= i < |ms| ==> MemberFits(ms[i], false)
    ensures DistinctKeys(Entries(ms))
    ensures e in Entries(ms) <==> exists i: nat :: Gives(ms, i, e)
    decreases |ms|
  {
    hide Chars, MemberMeaning, MemberFits, Gives, DistinctKeys, Put;
    if ms == [] {
      assert forall i: nat :: !Gives(ms, i, e) by { NoneGives(e); }
      assert DistinctKeys([]) by { NoKeys(); }
    } else {
      var n := |ms| - 1;
      var init, last := ms[..n], ms[n];
      LastMemberCounts(init, e);
      PutEntry(Entries(init), Chars(last.key), MemberMeaning(last));
      forall i: nat ensures Gives(ms, i, e) <==>
                            if i == n then e == Entry(Chars(last.key), MemberMeaning(last))
                            else Gives(init, i, e) && Chars(last.key) != e.key {
        GivesMore(ms, i, e);
      }
      if e in Entries(init) && e.key != Chars(last.key) {
        var i: nat :| Gives(init, i, e);
        GivesBelow(init, i, e);
        assert Gives(ms, i, e);
      }
      if e == Entry(Chars(last.key), MemberMeaning(last)) {
        assert Gives(ms, n, e);
      }
    }
  }

  lemma NoneGives(e: Entry)
    ensures forall i: nat :: !Gives([], i, e)
  {
  }

  lemma NoKeys()
    ensures DistinctKeys([])
  {
  }

  lemma GivesBelow(ms: seq<Member>, i: nat, e: Entry)
    requires forall k :: 0 <= k < |ms| ==> MemberFits(ms[k], false)
    requires Gives(ms, i, e)
    ensures i < |ms|
  {
  }

  // ----- every spelling is read as it is meant -----

  lemma {:induction false} BlankSkipped(b: Text, t: Text)
    requires Blank(b)
    ensures SkipSpace(b + t) == SkipSpace(t)
    decreases |b|
  {
    if b == [] {
      assert b + t == t;
    } else {
      assert (b + t)[1..] == b[1..] + t;
      BlankSkipped(b[1..], t);
    }
  }

  lemma SkipTwice(t: Text)
    ensures SkipSpace(SkipSpace(t)) == SkipSpace(t)
  {
    hide SkipSpace;
    SkipNothing(SkipSpace(t));
  }

  /** White space in front makes no difference. */
  lemma BlankBefore(b: Text, t: Text)
    requires Blank(b)
    ensures ParseValue(b + t) == ParseValue(t) && ParseValue(SkipSpace(t)) == ParseValue(t)
  {
    hide SkipSpace, ParseObject, ParseArray, ParseString, ParseNumber, ParseWord, Overruns;
    BlankSkipped(b, t);
    SkipTwice(t);
  }

  lemma PieceRead(p: Piece, tail: Text)
    requires PieceFits(p, true)
    ensures Decode(SpellPiece(p) + tail) == Cons(PieceChar(p), Decode(tail))
    ensures Complete(tail) ==> Complete(SpellPiece(p) + tail)
  {
    var s := SpellPiece(p) + tail;
    match p
    case Raw(_) => assert s[1..] == tail;
    case Short(_) => assert s[1..][0] == s[1] && s[2..] == tail;
    case Long(_, _, _, _) => assert s[1..][0] == 'u' && s[6..] == tail;
  }

  lemma {:induction false} PiecesRead(ps: seq<Piece>, rest: Text)
    requires PiecesFit(ps, true) && Peek(rest) == QUOTE
    ensures Decode(SpellPieces(ps) + rest) == AString(Chars(ps), rest) && Complete(SpellPieces(ps) + rest)
    decreases |ps|
  {
    hide PieceFits, SpellPiece, PieceChar;
    if ps == [] {
      assert SpellPieces(ps) + rest == rest;
    } else {
      var tail := SpellPieces(ps[1..]) + rest;
      assert SpellPieces(ps) + rest == SpellPiece(ps[0]) + tail;
      PiecesRead(ps[1..], rest);
      PieceRead(ps[0], tail);
    }
  }

  /** A string from its opening quote on. */
  lemma QuotedRead(ps: seq<Piece>, rest: Text)
    requires PiecesFit(ps, true)
    ensures var s := ['\"'] + (SpellPieces(ps) + (['\"'] + rest));
            Peek(s) == QUOTE && ParseString(s) == AString(Chars(ps), rest) && !Overruns(s)
  {
    hide SpellPieces, Chars, PieceFits;
    var tail := ['\"'] + rest;
    var s := ['\"'] + (SpellPieces(ps) + tail);
    assert s[1..] == SpellPieces(ps) + tail && tail[1..] == rest;
    PiecesRead(ps, tail);
    CountCovers(s[1..]);
  }

  lemma {:induction false} ValueDecimal(pre: Text, a: Text, t: Text)
    requires AllDigits(pre) && AllDigits(a) && AllDigits(pre + a)
    ensures Value(a + t, Decimal(pre)) == Value(t, Decimal(pre + a))
    decreases |a|
  {
    if a == [] {
      assert a + t == t && pre + a == pre;
    } else {
      var more := pre + [a[0]];
      assert more[..|more| - 1] == pre;
      assert (a + t)[1..] == a[1..] + t && more + a[1..] == pre + a;
      ValueDecimal(more, a[1..], t);
    }
  }

  lemma DigitsRead(a: Text, t: Text)
    requires AllDigits(a) && !IsDigit(Peek(t))
    ensures SkipDigits(a + t) == t && Value(a + t, 0) == Decimal(a)
  {
    SkipAll(a, t);
    DigitsEnd(t);
    ValueDecimal([], a, t);
    assert [] + a == a && Decimal([]) == 0;
  }

  lemma FractionRead(f: Fraction, t: Text)
    requires (f.Fraction? ==> AllDigits(f.digits)) && !IsDigit(Peek(t)) && Peek(t) != '.'
    ensures SkipFraction(SpellFraction(f) + t) == t
    ensures Peek(SpellFraction(f) + t) == if f.Fraction? then '.' else Peek(t)
  {
    hide SkipDigits, Value;
    match f
    case NoFraction => assert SpellFraction(f) + t == t;
    case Fraction(d) =>
      assert (SpellFraction(f) + t)[1..] == d + t;
      DigitsRead(d, t);
  }

  lemma ExponentRead(e: Exponent, t: Text)
    requires e.Exponent? ==>
               (e.mark == 'e' || e.mark == 'E') && e.sign in ["", "+", "-"] && AllDigits(e.digits) && e.digits != []
    requires EndsNumber(t)
    ensures SkipExponent(SpellExponent(e) + t) == t
    ensures Peek(SpellExponent(e) + t) == if e.Exponent? then e.mark else Peek(t)
  {
    hide SkipDigits, Value;
    match e
    case NoExponent => assert SpellExponent(e) + t == t;
    case Exponent(m, sign, d) =>
      var tail := d + t;
      assert (SpellExponent(e) + t)[1..] == sign + tail;
      DigitsRead(d, t);
      if sign == "" {
        assert sign + tail == tail;
        SignLess(d, t);
      } else {
        assert (sign + tail)[1..] == tail;
      }
  }

  lemma SignLess(d: Text, t: Text)
    requires AllDigits(d)
    ensures d != [] ==> Peek(d + t) != '+' && Peek(d + t) != '-'
  {
  }

  lemma NumberSpelled(x: Doc, rest: Text)
    requires x.Number?
    ensures Spell(x) + rest ==
            (if x.minus then "-" else "") + (x.whole + (SpellFraction(x.fraction) + (SpellExponent(x.exponent) + rest)))
  {
    hide SpellFraction, SpellExponent;
  }

  predicate ExponentFits(e: Exponent) {
    e.Exponent? ==> (e.mark == 'e' || e.mark == 'E') && e.sign in ["", "+", "-"] && AllDigits(e.digits) && e.digits != []
  }

  lemma WholeParts(whole: Text, f: Fraction, e: Exponent, rest: Text)
    requires AllDigits(whole) && (f.Fraction? ==> AllDigits(f.digits)) && ExponentFits(e) && EndsNumber(rest)
    ensures var t := whole + (SpellFraction(f) + (SpellExponent(e) + rest));
            && Value(t, 0) == Decimal(whole)
            && var tail := SkipDigits(t);
               && Peek(tail) == (if f.Fraction? then '.' else if e.Exponent? then e.mark else Peek(rest))
               && SkipExponent(SkipFraction(tail)) == rest
  {
    hide SkipDigits, Value, SkipFraction, SkipExponent, Decimal, SpellFraction, SpellExponent, AllDigits;
    ExponentRead(e, rest);
    FractionRead(f, SpellExponent(e) + rest);
    DigitsRead(whole, SpellFraction(f) + (SpellExponent(e) + rest));
  }

  /** The parts of a number as the parser meets them. */
  lemma NumberParts(x: Doc, rest: Text)
    requires x.Number? && Fits(x, true) && EndsNumber(rest)
    ensures var s := Spell(x) + rest;
            var t := if Peek(s) == '-' then s[1..] else s;
            && (Peek(s) == '-' <==> x.minus) && (x.minus || IsDigit(Peek(s)))
            && Value(t, 0) == Decimal(x.whole)
            && var tail := SkipDigits(t);
               && Peek(tail) == (if x.fraction.Fraction? then '.' else if x.exponent.Exponent? then x.exponent.mark else Peek(rest))
               && SkipExponent(SkipFraction(tail)) == rest
  {
    hide SkipDigits, Value, SkipFraction, SkipExponent, Decimal, Spell, SpellFraction, SpellExponent;
    var t := x.whole + (SpellFraction(x.fraction) + (SpellExponent(x.exponent) + rest));
    NumberSpelled(x, rest);
    WholeParts(x.whole, x.fraction, x.exponent, rest);
    if x.minus {
      assert ("-" + t)[1..] == t;
    } else {
      assert "" + t == t && t[0] == x.whole[0];
    }
  }

  lemma NumberRead(x: Doc, rest: Text)
    requires x.Number? && Fits(x, true) && EndsNumber(rest)
    ensures Fits(x, false) && ParseNumber(Spell(x) + rest) == Got(Meaning(x), rest)
    ensures Peek(Spell(x) + rest) == '-' || IsDigit(Peek(Spell(x) + rest))
  {
    hide SkipDigits, Value, SkipFraction, SkipExponent, Decimal, SpellExponent, SpellFraction, AllDigits;
    StrictFits(x);
    NumberParts(x, rest);
    SpellKept(Spell(x), rest);
    NumberMeans(x);
  }

  lemma SpellKept(t: Text, rest: Text)
    ensures (t + rest)[..|t + rest| - |rest|] == t
  {
  }

  lemma NumberMeans(x: Doc)
    requires x.Number? && Fits(x, false)
    ensures var v: int := Decimal(x.whole);
            Meaning(x) == if x.fraction.Fraction? || x.exponent.Exponent? then Float(Spell(x))
                          else Int(Clamp(if x.minus then -v else v))
  {
    hide Decimal, Spell;
  }

  /** Whatever follows, the text is read as it is meant. */
  ghost predicate Reads(x: Doc) {
    Fits(x, false) && forall rest :: EndsNumber(rest) ==> ParseValue(Spell(x) + rest) == Got(Meaning(x), rest)
  }

  /** What follows an item of an array or an object. */
  predicate Follows(tail: Text) {
    Peek(tail) == ',' || Peek(tail) == ']' || Peek(tail) == '}'
  }

  lemma ItemRead(i: Item, tail: Text)
    requires ItemFits(i, true) && ItemFits(i, false) && Reads(i.doc) && Follows(tail)
    ensures ParseValue(SkipSpace(SpellItem(i) + tail)) == Got(ItemMeaning(i), i.after + tail)
    ensures SkipSpace(i.after + tail) == tail
  {
    hide ParseValue, SkipSpace, Spell, Meaning, Fits;
    var more := i.after + tail;
    assert SpellItem(i) + tail == i.before + (Spell(i.doc) + more);
    assert Peek(more) == if i.after == [] then Peek(tail) else i.after[0];
    BlankBefore(i.before, Spell(i.doc) + more);
    BlankBefore([], i.before + (Spell(i.doc) + more));
    BlankSkipped(i.after, tail);
    SkipNothing(tail);
  }

  lemma {:induction false} ItemsRead(items: seq<Item>, done: seq<Json>, rest: Text)
    requires items != [] && forall i :: 0 <= i < |items| ==>
               ItemFits(items[i], true) && ItemFits(items[i], false) && Reads(items[i].doc)
    ensures ParseElems(SpellItems(items) + ([']'] + rest), done) == Got(List(done + Meanings(items)), rest)
    decreases |items|
  {
    hide ParseValue, SkipSpace, SpellItem, ItemMeaning, ItemFits, Reads;
    var close := [']'] + rest;
    if |items| == 1 {
      ItemRead(items[0], close);
      assert close[1..] == rest && items[1..] == [] && Meanings(items) == [ItemMeaning(items[0])];
    } else {
      var more := SpellItems(items[1..]) + close;
      var comma := [','] + more;
      assert SpellItems(items) + close == SpellItem(items[0]) + comma;
      ItemRead(items[0], comma);
      assert comma[1..] == more;
      ItemsRead(items[1..], done + [ItemMeaning(items[0])], rest);
      assert done + [ItemMeaning(items[0])] + Meanings(items[1..]) == done + Meanings(items);
    }
  }

  /** No item begins with a closing bracket. */
  lemma ItemStart(i: Item, tail: Text)
    requires ItemFits(i, true)
    ensures SkipSpace(SpellItem(i) + tail) == Spell(i.doc) + (i.after + tail)
    ensures Peek(Spell(i.doc) + (i.after + tail)) != ']' && Peek(Spell(i.doc) + (i.after + tail)) != '}'
  {
    hide SkipSpace;
    var t := Spell(i.doc) + (i.after + tail);
    assert SpellItem(i) + tail == i.before + t;
    BlankSkipped(i.before, t);
    DocStart(i.doc, i.after + tail);
    SkipNothing(t);
  }

  lemma DocStart(x: Doc, tail: Text)
    requires Fits(x, true)
    ensures Spell(x) != [] && Peek(Spell(x) + tail) == Spell(x)[0] && !Space(Spell(x)[0])
    ensures Spell(x)[0] != ']' && Spell(x)[0] != '}'
  {
    if x.Number? && !x.minus {
      assert Spell(x)[0] == x.whole[0];
    }
  }

  lemma ArrayRead(inner: Text, items: seq<Item>, rest: Text)
    requires Blank(inner) && forall i :: 0 <= i < |items| ==>
               ItemFits(items[i], true) && ItemFits(items[i], false) && Reads(items[i].doc)
    ensures ParseValue(Spell(Array(inner, items)) + rest) == Got(List(Meanings(items)), rest)
  {
    hide ParseValue, ParseElems, SkipSpace, SpellItem, Spell, ItemFits, Reads;
    var close := [']'] + rest;
    var t := (if items == [] then inner else SpellItems(items)) + close;
    assert Spell(Array(inner, items)) + rest == ['['] + t by { ArraySpelled(inner, items); }
    ArrayStarts(t);
    assert close[1..] == rest;
    if items == [] {
      BlankSkipped(inner, close);
      SkipNothing(close);
    } else {
      var tail := if |items| == 1 then close else [','] + (SpellItems(items[1..]) + close);
      assert t == SpellItem(items[0]) + tail;
      ItemStart(items[0], tail);
      ItemsRead(items, [], rest);
      ElemsBlank(t, []);
      assert [] + Meanings(items) == Meanings(items);
    }
  }

  lemma ArrayStarts(t: Text)
    ensures ParseValue(['['] + t) == var u := SkipSpace(t); if Peek(u) == ']' then Got(List([]), u[1..]) else ParseElems(u, [])
  {
    hide SkipSpace, ParseElems;
    SkipNothing(['['] + t);
    assert (['['] + t)[1..] == t;
  }

  lemma ArraySpelled(inner: Text, items: seq<Item>)
    ensures Spell(Array(inner, items)) == ['['] + (if items == [] then inner else SpellItems(items)) + [']']
  {
  }

  lemma ElemsBlank(t: Text, done: seq<Json>)
    ensures ParseElems(SkipSpace(t), done) == ParseElems(t, done)
  {
    hide ParseValue, SkipSpace;
    SkipTwice(t);
  }

  // ----- objects -----

  lemma EntriesBlank(t: Text, done: seq<Entry>)
    ensures ParseEntries(SkipSpace(t), done) == ParseEntries(t, done)
  {
    hide ParseValue, SkipSpace, ParseString, Overruns, Put;
    SkipTwice(t);
  }

  lemma MemberSpelled(m: Member, tail: Text)
    ensures SpellMember(m) + tail ==
            m.before + (['\"'] + (SpellPieces(m.key) + (['\"'] + (m.behind + ([':'] + (SpellItem(m.value) + tail))))))
  {
    hide SpellPieces, SpellItem;
  }

  /** A member from where its key is expected to where its value ends. */
  lemma MemberRead(m: Member, tail: Text)
    requires MemberFits(m, true) && MemberFits(m, false) && Reads(m.value.doc) && Follows(tail)
    ensures var s := SkipSpace(SpellMember(m) + tail);
            && Peek(s) == QUOTE && !Overruns(s)
            && var k := ParseString(s);
               && k.AString? && k.s == Chars(m.key)
               && var t := SkipSpace(k.rest);
                  Peek(t) == ':' && ParseValue(SkipSpace(t[1..])) == Got(MemberMeaning(m), m.value.after + tail)
    ensures SkipSpace(m.value.after + tail) == tail
  {
    hide ParseValue, SkipSpace, SpellItem, SpellPieces, Chars, ItemMeaning, Overruns, ParseString, ItemFits, PiecesFit, Reads;
    var value := SpellItem(m.value) + tail;
    var colon := [':'] + value;
    var behind := m.behind + colon;
    var key := ['\"'] + (SpellPieces(m.key) + (['\"'] + behind));
    MemberSpelled(m, tail);
    BlankSkipped(m.before, key);
    QuotedRead(m.key, behind);
    SkipNothing(key);
    BlankSkipped(m.behind, colon);
    SkipNothing(colon);
    assert colon[1..] == value;
    ItemRead(m.value, tail);
  }

  lemma {:induction false} MembersRead(ms: seq<Member>, k: nat, rest: Text)
    requires k < |ms| && forall i :: 0 <= i < |ms| ==> MemberFits(ms[i], true) && MemberFits(ms[i], false) && Reads(ms[i].value.doc)
    ensures ParseEntries(SpellMembers(ms[k..]) + (['}'] + rest), Entries(ms[..k])) == Got(Dict(Entries(ms)), rest)
    decreases |ms| - k
  {
    hide ParseValue, SkipSpace, SpellMember, MemberMeaning, MemberFits, Reads, Overruns, ParseString, Put, Chars;
    var close := ['}'] + rest;
    var upto := ms[..k + 1];
    assert upto[..k] == ms[..k];
    assert Entries(upto) == Put(Entries(ms[..k]), Chars(ms[k].key), MemberMeaning(ms[k]));
    if k + 1 == |ms| {
      assert ms[k..] == [ms[k]] && upto == ms;
      MemberRead(ms[k], close);
      assert close[1..] == rest;
    } else {
      var more := SpellMembers(ms[k + 1..]) + close;
      var comma := [','] + more;
      assert ms[k..][1..] == ms[k + 1..];
      assert SpellMembers(ms[k..]) + close == SpellMember(ms[k]) + comma;
      MemberRead(ms[k], comma);
      assert comma[1..] == more;
      MembersRead(ms, k + 1, rest);
    }
  }

  lemma ObjectStarts(t: Text)
    ensures ParseValue(['{'] + t) == var u := SkipSpace(t); if Peek(u) == '}' then Got(Dict([]), u[1..]) else ParseEntries(u, [])
  {
    hide SkipSpace, ParseEntries;
    SkipNothing(['{'] + t);
    assert (['{'] + t)[1..] == t;
  }

  lemma ObjectSpelled(inner: Text, ms: seq<Member>)
    ensures Spell(Object(inner, ms)) == ['{'] + (if ms == [] then inner else SpellMembers(ms)) + ['}']
  {
  }

  lemma ObjectRead(inner: Text, ms: seq<Member>, rest: Text)
    requires Blank(inner)
    requires forall i :: 0 <= i < |ms| ==> MemberFits(ms[i], true) && MemberFits(ms[i], false) && Reads(ms[i].value.doc)
    ensures ParseValue(Spell(Object(inner, ms)) + rest) == Got(Dict(Entries(ms)), rest)
  {
    hide ParseValue, ParseEntries, SkipSpace, SpellMember, Spell, MemberFits, Reads, Overruns;
    var close := ['}'] + rest;
    var t := (if ms == [] then inner else SpellMembers(ms)) + close;
    assert Spell(Object(inner, ms)) + rest == ['{'] + t by { ObjectSpelled(inner, ms); }
    ObjectStarts(t);
    assert close[1..] == rest;
    if ms == [] {
      BlankSkipped(inner, close);
      SkipNothing(close);
    } else {
      var tail := if |ms| == 1 then close else [','] + (SpellMembers(ms[1..]) + close);
      assert t == SpellMember(ms[0]) + tail;
      MemberRead(ms[0], tail);
      assert ms[0..] == ms && ms[..0] == [];
      MembersRead(ms, 0, rest);
      EntriesBlank(t, []);
    }
  }

  // ----- all texts -----

  lemma QuotedValue(ps: seq<Piece>, rest: Text)
    requires PiecesFit(ps, true)
    ensures ParseValue(Spell(Quoted(ps)) + rest) == Got(Str(Chars(ps)), rest)
  {
    hide SpellPieces, Chars, PiecesFit, Overruns, ParseString;
    var s := ['\"'] + (SpellPieces(ps) + (['\"'] + rest));
    assert Spell(Quoted(ps)) + rest == s;
    QuotedRead(ps, rest);
    SkipNothing(s);
  }

  lemma NumberValue(x: Doc, rest: Text)
    requires x.Number? && Fits(x, true) && EndsNumber(rest)
    ensures Fits(x, false) && ParseValue(Spell(x) + rest) == Got(Meaning(x), rest)
  {
    hide ParseNumber, Spell, Meaning, ParseObject, ParseArray, ParseString, ParseWord;
    NumberRead(x, rest);
    SkipNothing(Spell(x) + rest);
  }

  /** A text with any white space between its parts, and before it, is read as it is meant, whatever follows it: behind
      a number no digit, dot or exponent. */
  lemma {:induction false} SpelledReads(x: Doc)
    requires Fits(x, true)
    ensures Fits(x, false) && Reads(x)
    decreases x
  {
    hide ParseValue, EndsNumber, Spell, Meaning, Blank;
    StrictFits(x);
    match x
    case Nothing => forall rest | EndsNumber(rest) ensures ParseValue(Spell(x) + rest) == Got(Meaning(x), rest) {
        NothingRead(rest);
      }
    case Truth(b) => forall rest | EndsNumber(rest) ensures ParseValue(Spell(x) + rest) == Got(Meaning(x), rest) {
        TruthRead(b, rest);
      }
    case Number(_, _, _, _) => forall rest | EndsNumber(rest) ensures ParseValue(Spell(x) + rest) == Got(Meaning(x), rest) {
        NumberValue(x, rest);
      }
    case Quoted(ps) => forall rest | EndsNumber(rest) ensures ParseValue(Spell(x) + rest) == Got(Meaning(x), rest) {
        QuotedValue(ps, rest);
        QuotedMeans(ps);
      }
    case Array(inner, items) =>
      forall i | 0 <= i < |items| ensures ItemFits(items[i], true) && ItemFits(items[i], false) && Reads(items[i].doc) {
        assert ItemFits(items[i], true);
        SpelledReads(items[i].doc);
      }
      forall rest | EndsNumber(rest) ensures ParseValue(Spell(x) + rest) == Got(Meaning(x), rest) {
        ArrayRead(inner, items, rest);
        ArrayMeans(inner, items);
      }
    case Object(inner, ms) =>
      forall i | 0 <= i < |ms| ensures MemberFits(ms[i], true) && MemberFits(ms[i], false) && Reads(ms[i].value.doc) {
        assert MemberFits(ms[i], true) && ItemFits(ms[i].value, true);
        SpelledReads(ms[i].value.doc);
      }
      forall rest | EndsNumber(rest) ensures ParseValue(Spell(x) + rest) == Got(Meaning(x), rest) {
        ObjectRead(inner, ms, rest);
        ObjectMeans(inner, ms);
      }
  }

  lemma NothingRead(rest: Text)
    ensures ParseValue(Spell(Nothing) + rest) == Got(Meaning(Nothing), rest)
  {
    NullValue(rest);
  }

  lemma TruthRead(b: bool, rest: Text)
    ensures ParseValue(Spell(Truth(b)) + rest) == Got(Meaning(Truth(b)), rest)
  {
    hide ParseValue;
    BoolValue(b, rest);
    assert Emit(Bool(b)) == Spell(Truth(b));
  }

  lemma QuotedMeans(ps: seq<Piece>)
    requires PiecesFit(ps, false)
    ensures Meaning(Quoted(ps)) == Str(Chars(ps))
  {
  }

  lemma ArrayMeans(inner: Text, items: seq<Item>)
    requires Fits(Array(inner, items), false)
    ensures (forall i :: 0 <= i < |items| ==> ItemFits(items[i], false)) && Meaning(Array(inner, items)) == List(Meanings(items))
  {
  }

  lemma ObjectMeans(inner: Text, ms: seq<Member>)
    requires Fits(Object(inner, ms), false)
    ensures (forall i :: 0 <= i < |ms| ==> MemberFits(ms[i], false)) && Meaning(Object(inner, ms)) == Dict(Entries(ms))
  {
  }

  // ----- what the emitter writes, with white space put in -----

  function PieceOf(c: char): Piece {
    if c == QUOTE || c == SLASH then Short(c)
    else if c == BELL then Short('b')
    else if c == FEED then Short('f')
    else if c == '\n' then Short('n')
    else if c == '\r' then Short('r')
    else if c == '\t' then Short('t')
    else if c < ' ' then Long('0', '0', Hex(c as int / 16), Hex(c as int % 16))
    else Raw(c)
  }

  function PiecesOf(s: Text): seq<Piece> {
    if s == [] then [] else [PieceOf(s[0])] + PiecesOf(s[1..])
  }

  /** A value as the emitter spells it. */
  function DocOf(v: Json): Doc
    decreases v
  {
    match v
    case Bool(b) => Truth(b)
    case Int(n) => Number(n < 0, Digits(if n < 0 then -n else n), NoFraction, NoExponent)
    case Str(s) => Quoted(PiecesOf(s))
    case List(l) => Array([], ItemsOf(l))
    case Dict(d) => Object([], MembersOf(d))
    case Symbol(s) => if s == "null" then Nothing else Quoted(PiecesOf(s))
    case Letter(c) => Quoted(PiecesOf(OneLetter(c)))
    case Bits(m) => Array([], NumberItems(m))
    case _ => Nothing
  }

  function ItemsOf(l: seq<Json>): (r: seq<Item>)
    ensures |r| == |l|
    decreases l
  {
    if l == [] then [] else [Item([], DocOf(l[0]), [])] + ItemsOf(l[1..])
  }

  function NumberItems(m: seq<nat>): (r: seq<Item>)
    ensures |r| == |m|
  {
    if m == [] then [] else [Item([], Number(false, Digits(m[0]), NoFraction, NoExponent), [])] + NumberItems(m[1..])
  }

  function MemberOf(e: Entry): Member
    decreases e
  {
    Member([], PiecesOf(e.key), [], Item([], DocOf(e.val), []))
  }

  function MembersOf(d: seq<Entry>): (r: seq<Member>)
    ensures |r| == |d|
    decreases d
  {
    if d == [] then [] else [MemberOf(d[0])] + MembersOf(d[1..])
  }

  /** A text without the white space between its parts. */
  function Tight(x: Doc): Doc
    decreases x
  {
    match x
    case Array(_, items) => Array([], TightItems(items))
    case Object(_, ms) => Object([], TightMembers(ms))
    case _ => x
  }

  function TightItem(i: Item): Item
    decreases i
  {
    Item([], Tight(i.doc), [])
  }

  function TightItems(items: seq<Item>): (r: seq<Item>)
    ensures |r| == |items|
    decreases items
  {
    if items == [] then [] else [TightItem(items[0])] + TightItems(items[1..])
  }

  function TightMember(m: Member): Member
    decreases m
  {
    Member([], m.key, [], TightItem(m.value))
  }

  function TightMembers(ms: seq<Member>): (r: seq<Member>)
    ensures |r| == |ms|
    decreases ms
  {
    if ms == [] then [] else [TightMember(ms[0])] + TightMembers(ms[1..])
  }

  lemma {:induction false} TightItemsAt(items: seq<Item>)
    ensures forall i :: 0 <= i < |items| ==> TightItems(items)[i] == TightItem(items[i])
    decreases |items|
  {
    if items != [] {
      TightItemsAt(items[1..]);
    }
  }

  lemma {:induction false} TightMembersAt(ms: seq<Member>)
    ensures forall i :: 0 <= i < |ms| ==> TightMembers(ms)[i] == TightMember(ms[i])
    decreases |ms|
  {
    if ms != [] {
      TightMembersAt(ms[1..]);
    }
  }

  /** White space has no meaning. */
  lemma {:induction false} TightMeans(x: Doc)
    requires Fits(x, false)
    ensures Fits(Tight(x), false) && Meaning(Tight(x)) == Meaning(x)
    decreases x
  {
    match x
    case Array(_, items) =>
      TightItemsAt(items);
      forall i | 0 <= i < |items|
        ensures ItemFits(items[i], false) && ItemFits(TightItem(items[i]), false)
                && ItemMeaning(TightItem(items[i])) == ItemMeaning(items[i])
      {
        assert ItemFits(items[i], false);
        TightMeans(items[i].doc);
      }
      TightMeanings(items);
    case Object(_, ms) =>
      TightMembersAt(ms);
      forall i | 0 <= i < |ms|
        ensures MemberFits(ms[i], false) && MemberFits(TightMember(ms[i]), false)
                && MemberMeaning(TightMember(ms[i])) == MemberMeaning(ms[i])
      {
        assert MemberFits(ms[i], false) && ItemFits(ms[i].value, false);
        TightMeans(ms[i].value.doc);
      }
      TightEntries(ms);
    case _ =>
  }

  lemma {:induction false} TightMeanings(items: seq<Item>)
    requires forall i :: 0 <= i < |items| ==>
               ItemFits(items[i], false) && ItemFits(TightItem(items[i]), false)
               && ItemMeaning(TightItem(items[i])) == ItemMeaning(items[i])
    ensures (forall i :: 0 <= i < |items| ==> ItemFits(TightItems(items)[i], false))
    ensures Meanings(TightItems(items)) == Meanings(items)
    decreases |items|
  {
    hide ItemFits, TightItem, ItemMeaning;
    TightItemsAt(items);
    if items != [] {
      TightMeanings(items[1..]);
      assert TightItems(items)[1..] == TightItems(items[1..]);
    }
  }

  lemma {:induction false} TightEntries(ms: seq<Member>)
    requires forall i :: 0 <= i < |ms| ==>
               MemberFits(ms[i], false) && MemberFits(TightMember(ms[i]), false)
               && MemberMeaning(TightMember(ms[i])) == MemberMeaning(ms[i])
    ensures (forall i :: 0 <= i < |ms| ==> MemberFits(TightMembers(ms)[i], false))
    ensures Entries(TightMembers(ms)) == Entries(ms)
    decreases |ms|
  {
    hide MemberFits, MemberMeaning, Put, Chars;
    TightMembersAt(ms);
    if ms != [] {
      var n := |ms| - 1;
      TightMembersAt(ms[..n]);
      assert TightMembers(ms)[..n] == TightMembers(ms[..n]);
      TightEntries(ms[..n]);
      assert TightMembers(ms)[n].key == ms[n].key;
    }
  }

  // ----- the emitter -----

  lemma {:induction false} PiecesOfString(s: Text)
    requires Terminated(s)
    ensures SpellPieces(PiecesOf(s)) == EscapeAll(s) && Chars(PiecesOf(s)) == SeenAll(s) && PiecesFit(PiecesOf(s), true)
    decreases |s|
  {
    hide PieceOf, SpellPiece, Escape, PieceChar, Seen, PieceFits;
    if s != [] {
      PiecesOfString(s[1..]);
      PieceOfChar(s[0]);
    }
  }

  lemma PieceOfChar(c: char)
    requires c != 0 as char
    ensures SpellPiece(PieceOf(c)) == Escape(c) && PieceChar(PieceOf(c)) == Seen(c) && PieceFits(PieceOf(c), true)
  {
  }

  lemma {:induction false} DecimalDigits(n: nat)
    ensures AllDigits(Digits(n)) && Decimal(Digits(n)) == n
    decreases n
  {
    if n < 10 {
      assert Decimal([]) == 0 && [Digit(n)][..0] == [];
    } else {
      DecimalDigits(n / 10);
      assert Digits(n)[..|Digits(n)| - 1] == Digits(n / 10);
    }
  }

  lemma IntDoc(n: int)
    requires -MAXINT - 1 <= n <= MAXINT
    ensures Fits(DocOf(Int(n)), true) && Fits(DocOf(Int(n)), false)
    ensures Spell(DocOf(Int(n))) == EmitInt(n) && Meaning(DocOf(Int(n))) == Int(n)
  {
    hide Digits, Decimal;
    DecimalDigits(if n < 0 then -n else n);
  }

  lemma QuotedDoc(s: Text)
    requires Terminated(s)
    ensures Fits(Quoted(PiecesOf(s)), true) && Fits(Quoted(PiecesOf(s)), false)
    ensures Spell(Quoted(PiecesOf(s))) == EmitString(s) && Meaning(Quoted(PiecesOf(s))) == Str(SeenAll(s))
  {
    hide PiecesOf, SeenAll, EscapeAll, SpellPieces, Chars;
    PiecesOfString(s);
    StrictFits(Quoted(PiecesOf(s)));
  }

  /** The emitter spells v, and nothing else. */
  ghost predicate Emits(v: Json) {
    Fits(DocOf(v), true) && Fits(DocOf(v), false) && Spell(DocOf(v)) == Emit(v) && Meaning(DocOf(v)) == Normal(v)
  }

  lemma {:induction false} ItemsOfList(l: seq<Json>)
    requires forall i :: 0 <= i < |l| ==> Emits(l[i])
    ensures forall i :: 0 <= i < |l| ==> ItemFits(ItemsOf(l)[i], true) && ItemFits(ItemsOf(l)[i], false)
    ensures SpellItems(ItemsOf(l)) == EmitElems(l) && Meanings(ItemsOf(l)) == Normals(l)
    decreases |l|
  {
    hide DocOf, Spell, Emit, Meaning, Normal, Fits;
    if l != [] {
      ItemsOfList(l[1..]);
      var items := ItemsOf(l);
      assert items[1..] == ItemsOf(l[1..]);
      assert forall i :: 0 < i < |l| ==> items[i] == ItemsOf(l[1..])[i - 1];
      assert SpellItem(items[0]) == Emit(l[0]);
    }
  }

  lemma {:induction false} NumbersAreItems(m: seq<nat>)
    ensures NumberItems(m) == ItemsOf(Ints(m))
    decreases |m|
  {
    if m != [] {
      NumbersAreItems(m[1..]);
      assert Ints(m)[1..] == Ints(m[1..]);
    }
  }

  lemma MemberOfEntry(e: Entry)
    requires Terminated(e.key) && Emits(e.val)
    ensures MemberFits(MemberOf(e), true) && MemberFits(MemberOf(e), false)
    ensures SpellMember(MemberOf(e)) == EmitEntry(e)
    ensures Chars(MemberOf(e).key) == SeenAll(e.key) && MemberMeaning(MemberOf(e)) == Normal(e.val)
  {
    hide DocOf, Spell, Emit, Meaning, Normal, Fits, PiecesOf, SpellPieces, Chars, SeenAll, EscapeAll, PieceFits;
    PiecesOfString(e.key);
    LooseFit(PiecesOf(e.key));
    assert SpellItem(MemberOf(e).value) == Emit(e.val);
  }

  lemma LooseFit(ps: seq<Piece>)
    requires PiecesFit(ps, true)
    ensures PiecesFit(ps, false)
  {
    forall i | 0 <= i < |ps| ensures PieceFits(ps[i], false) {
      assert PieceFits(ps[i], true);
    }
  }

  lemma {:induction false} MembersAt(d: seq<Entry>)
    ensures forall i :: 0 <= i < |d| ==> MembersOf(d)[i] == MemberOf(d[i])
    decreases |d|
  {
    if d != [] {
      MembersAt(d[1..]);
    }
  }

  lemma {:induction false} MembersSpelled(d: seq<Entry>)
    requires forall i :: 0 <= i < |d| ==> Terminated(d[i].key) && Emits(d[i].val)
    ensures SpellMembers(MembersOf(d)) == EmitEntries(d)
    decreases |d|
  {
    hide SpellMember, EmitEntry, MemberOf, Emits;
    if d != [] {
      MemberOfEntry(d[0]);
      MembersSpelled(d[1..]);
      assert MembersOf(d)[1..] == MembersOf(d[1..]);
    }
  }

  lemma {:induction false} MembersMean(d: seq<Entry>, k: nat)
    requires k <= |d| && Apart(d) && forall i :: 0 <= i < |d| ==> Terminated(d[i].key) && Emits(d[i].val)
    ensures forall i :: 0 <= i < |d| ==> MemberFits(MembersOf(d)[i], true) && MemberFits(MembersOf(d)[i], false)
    ensures Entries(MembersOf(d)[..k]) == NormalEntries(d)[..k]
    decreases k
  {
    hide MemberOf, Emits, MemberFits, MemberMeaning, Chars, SeenAll, Normal, Put;
    MembersAt(d);
    NormalEntriesAt(d);
    forall i | 0 <= i < |d| ensures MemberFits(MembersOf(d)[i], true) && MemberFits(MembersOf(d)[i], false) {
      MemberOfEntry(d[i]);
    }
    if k > 0 {
      var ms := MembersOf(d)[..k];
      MembersMean(d, k - 1);
      assert ms[..k - 1] == MembersOf(d)[..k - 1] && ms[k - 1] == MemberOf(d[k - 1]);
      MemberOfEntry(d[k - 1]);
      EntryKeys(d, k - 1);
      PutNew(NormalEntries(d)[..k - 1], SeenAll(d[k - 1].key), Normal(d[k - 1].val));
      EntryIs(d[k - 1]);
      assert NormalEntries(d)[..k] == NormalEntries(d)[..k - 1] + [NormalEntries(d)[k - 1]];
    }
  }

  lemma ListEmits(l: seq<Json>)
    requires forall i :: 0 <= i < |l| ==> Emits(l[i])
    ensures Fits(Array([], ItemsOf(l)), true) && Fits(Array([], ItemsOf(l)), false)
    ensures Spell(Array([], ItemsOf(l))) == ['['] + EmitElems(l) + [']'] && Meaning(Array([], ItemsOf(l))) == List(Normals(l))
  {
    hide Emits, ItemsOf, SpellItems, Meanings, ItemFits, Spell, Meaning;
    ItemsOfList(l);
    ArraySpelled([], ItemsOf(l));
    ArrayMeans([], ItemsOf(l));
    if l == [] {
      assert EmitElems(l) == [];
    }
  }

  lemma DictEmits(d: seq<Entry>)
    requires Apart(d) && forall i :: 0 <= i < |d| ==> Terminated(d[i].key) && Emits(d[i].val)
    ensures Fits(Object([], MembersOf(d)), true) && Fits(Object([], MembersOf(d)), false)
    ensures Spell(Object([], MembersOf(d))) == ['{'] + EmitEntries(d) + ['}']
    ensures Meaning(Object([], MembersOf(d))) == Dict(NormalEntries(d))
  {
    hide Emits, MembersOf, SpellMembers, MemberFits, MemberMeaning, Spell, Entries, NormalEntries, Meaning, Apart, Put, Chars, SeenAll;
    MembersSpelled(d);
    MembersMean(d, |d|);
    assert MembersOf(d)[..|d|] == MembersOf(d) && NormalEntries(d)[..|d|] == NormalEntries(d);
    ObjectSpelled([], MembersOf(d));
    ObjectMeans([], MembersOf(d));
    if d == [] {
      assert EmitEntries(d) == [];
    }
  }

  lemma TextEmits(v: Json)
    requires Writable(v) && (v.Str? || v.Symbol? || v.Letter?)
    ensures Emits(v)
  {
    hide PiecesOf, SeenAll, EscapeAll, Fits, Spell, EmitString, Meaning, OneLetter;
    match v
    case Str(s) => QuotedDoc(s);
    case Symbol(s) =>
      QuotedDoc(s);
      WordsEmit();
    case Letter(c) =>
      OneTerminated(c);
      QuotedDoc(OneLetter(c));
  }

  lemma OneTerminated(c: char)
    ensures Terminated(OneLetter(c))
  {
  }

  lemma WordsEmit()
    ensures Emits(Null) && Emits(Other) && Emits(Bool(true)) && Emits(Bool(false)) && Emits(Symbol("null"))
  {
  }

  lemma BitsEmit(m: seq<nat>)
    requires forall i :: 0 <= i < |m| ==> m[i] < 64
    ensures Emits(Bits(m))
  {
    hide Fits, Spell, Meaning, Digits;
    MembersAreElems(m);
    NumbersAreItems(m);
    forall i | 0 <= i < |m| ensures Emits(Ints(m)[i]) {
      IntDoc(m[i]);
    }
    ListEmits(Ints(m));
  }

  lemma ListValueEmits(l: seq<Json>)
    requires forall i :: 0 <= i < |l| ==> Emits(l[i])
    ensures Emits(List(l))
  {
    ListEmits(l);
    hide Fits, Spell, Meaning, ItemsOf, Normals, EmitElems;
  }

  lemma DictValueEmits(d: seq<Entry>)
    requires Apart(d) && forall i :: 0 <= i < |d| ==> Terminated(d[i].key) && Emits(d[i].val)
    ensures Emits(Dict(d))
  {
    DictEmits(d);
    hide Fits, Spell, Meaning, MembersOf, NormalEntries, EmitEntries;
  }

  lemma {:induction false} WritableEmits(v: Json)
    requires Writable(v)
    ensures Emits(v)
    decreases v
  {
    hide Emits, Apart;
    match v
    case Int(n) => IntEmits(n);
    case Str(_) => TextEmits(v);
    case Symbol(_) => TextEmits(v);
    case Letter(_) => TextEmits(v);
    case List(l) =>
      forall i | 0 <= i < |l| ensures Emits(l[i]) {
        WritableEmits(l[i]);
      }
      ListValueEmits(l);
    case Bits(m) => BitsEmit(m);
    case Dict(d) =>
      forall i | 0 <= i < |d| ensures Terminated(d[i].key) && Emits(d[i].val) {
        assert WritableEntry(d[i]);
        WritableEmits(d[i].val);
      }
      DictValueEmits(d);
    case _ => WordsEmit();
  }

  lemma IntEmits(n: int)
    requires -MAXINT - 1 <= n <= MAXINT
    ensures Emits(Int(n))
  {
    hide Fits, Spell, Meaning, EmitInt;
    IntDoc(n);
  }

  /** The text that was emitted for v, with any white space put in before and behind brackets, commas, colons and the
      value itself, is read as v comes back. */
  lemma SpacedRoundTrip(v: Json, x: Doc, before: Text, rest: Text)
    requires Writable(v) && Fits(x, true) && Tight(x) == DocOf(v) && Blank(before) && EndsNumber(rest)
    ensures Spell(Tight(x)) == Emit(v)
    ensures ParseValue(before + (Spell(x) + rest)) == Got(Normal(v), rest)
  {
    hide Blank, EndsNumber, ParseValue, Spell, Emit, Meaning, Tight, DocOf;
    WritableEmits(v);
    SpelledReads(x);
    TightMeans(x);
    BlankBefore(before, Spell(x) + rest);
  }

  // ----- there are no other texts -----

  lemma PutFront(a: char, c: Text, rest: Text, s: Text)
    requires s != [] && s[0] == a && s[1..] == c + rest
    ensures s == ([a] + c) + rest
  {
  }

  lemma {:induction false} SpaceSplit(s: Text) returns (b: Text)
    ensures Blank(b) && s == b + SkipSpace(s)
    decreases |s|
  {
    if Space(Peek(s)) {
      var c := SpaceSplit(s[1..]);
      assert SkipSpace(s) == SkipSpace(s[1..]);
      hide SkipSpace;
      PutFront(s[0], c, SkipSpace(s), s);
      b := [s[0]] + c;
    } else {
      b := [];
      assert [] + s == s;
    }
  }

  lemma {:induction false} DigitsSplit(s: Text) returns (d: Text)
    ensures AllDigits(d) && s == d + SkipDigits(s) && !IsDigit(Peek(SkipDigits(s)))
    decreases |s|
  {
    if IsDigit(Peek(s)) {
      var c := DigitsSplit(s[1..]);
      assert SkipDigits(s) == SkipDigits(s[1..]);
      hide SkipDigits;
      PutFront(s[0], c, SkipDigits(s), s);
      d := [s[0]] + c;
    } else {
      d := [];
      assert [] + s == s;
    }
  }

  lemma FractionSplit(s: Text) returns (f: Fraction)
    ensures (f.Fraction? ==> AllDigits(f.digits)) && s == SpellFraction(f) + SkipFraction(s)
    ensures f.Fraction? <==> Peek(s) == '.'
  {
    hide SkipDigits;
    if Peek(s) == '.' {
      var d := DigitsSplit(s[1..]);
      f := Fraction(d);
      assert s == ['.'] + s[1..];
    } else {
      f := NoFraction;
      assert [] + s == s;
    }
  }

  lemma ExponentSplit(s: Text) returns (e: Exponent)
    ensures e.Exponent? ==> (e.mark == 'e' || e.mark == 'E') && e.sign in ["", "+", "-"] && AllDigits(e.digits)
    ensures s == SpellExponent(e) + SkipExponent(s)
    ensures e.Exponent? <==> Peek(s) == 'e' || Peek(s) == 'E'
  {
    hide SkipDigits;
    if Peek(s) == 'e' || Peek(s) == 'E' {
      var t := s[1..];
      assert s == [s[0]] + t;
      if Peek(t) == '+' || Peek(t) == '-' {
        var d := DigitsSplit(t[1..]);
        e := Exponent(s[0], [t[0]], d);
        assert t == [t[0]] + t[1..];
      } else {
        var d := DigitsSplit(t);
        e := Exponent(s[0], "", d);
      }
    } else {
      e := NoExponent;
      assert [] + s == s;
    }
  }

  lemma NumberSplit(s: Text) returns (x: Doc)
    requires Peek(s) == '-' || IsDigit(Peek(s))
    ensures x.Number? && Fits(x, false)
    ensures s == Spell(x) + ParseNumber(s).rest && Meaning(x) == ParseNumber(s).value
  {
    hide SkipDigits, SkipFraction, SkipExponent, Value, Decimal, Spell, SpellFraction, SpellExponent, AllDigits, Meaning;
    var minus := Peek(s) == '-';
    var t := if minus then s[1..] else s;
    var whole := DigitsSplit(t);
    var tail := SkipDigits(t);
    var f := FractionSplit(tail);
    var tail1 := SkipFraction(tail);
    var e := ExponentSplit(tail1);
    x := Number(minus, whole, f, e);
    WholeThere(t, whole, tail);
    DigitsRead(whole, tail);
    NumberSpelled(x, SkipExponent(tail1));
    MinusSplit(s);
    if f.NoFraction? {
      FractionNone(tail);
    }
    NumberMeans(x);
    SpellKept(Spell(x), SkipExponent(tail1));
    NumberEnds(s, tail, tail1);
  }

  lemma MinusSplit(s: Text)
    ensures s == (if Peek(s) == '-' then "-" else "") + (if Peek(s) == '-' then s[1..] else s)
  {
    if Peek(s) == '-' {
      assert s == ['-'] + s[1..];
    } else {
      assert "" + s == s;
    }
  }

  /** What the parser makes of the parts of a number. */
  lemma NumberEnds(s: Text, tail: Text, tail1: Text)
    requires tail == SkipDigits(if Peek(s) == '-' then s[1..] else s) && tail1 == SkipFraction(tail)
    ensures var r, v: int := ParseNumber(s), Value(if Peek(s) == '-' then s[1..] else s, 0);
            && r.rest == SkipExponent(tail1)
            && r.value == if Peek(tail) == '.' || Peek(tail) == 'e' || Peek(tail) == 'E' then Float(s[..|s| - |r.rest|])
                          else Int(Clamp(if Peek(s) == '-' then -v else v))
    ensures Peek(tail) != '.' && Peek(tail) != 'e' && Peek(tail) != 'E' ==> tail1 == tail
  {
    hide SkipDigits, SkipExponent, Value;
  }

  lemma FractionNone(s: Text)
    requires Peek(s) != '.'
    ensures SkipFraction(s) == s
  {
  }

  lemma WholeThere(t: Text, whole: Text, tail: Text)
    requires t == whole + tail && !IsDigit(Peek(tail))
    ensures IsDigit(Peek(t)) ==> whole != []
  {
    if whole == [] {
      assert t == tail;
    }
  }

  /** The first piece of a string. */
  lemma PieceMet(s: Text) returns (p: Piece, n: nat)
    requires Terminated(s) && Decode(s).AString? && Peek(s) != 0 as char && Peek(s) != QUOTE
    ensures 0 < n <= |s| && PieceFits(p, false) && s == SpellPiece(p) + s[n..]
    ensures Decode(s) == Cons(PieceChar(p), Decode(s[n..])) && Decode(s[n..]).AString?
  {
    if s[0] != SLASH {
      p, n := Raw(s[0]), 1;
    } else if s[1] != 'u' {
      p, n := Short(s[1]), 2;
    } else {
      p, n := Long(s[2], s[3], s[4], s[5]), 6;
    }
    assert s[..n] == SpellPiece(p) && s == s[..n] + s[n..];
  }

  lemma {:induction false} DecodeSplit(s: Text) returns (ps: seq<Piece>)
    requires Terminated(s) && Decode(s).AString?
    ensures PiecesFit(ps, false) && s == SpellPieces(ps) + Decode(s).rest && Decode(s).s == Chars(ps)
    ensures Terminated(Decode(s).rest) && (Decode(s).rest == [] || Peek(Decode(s).rest) == QUOTE)
    decreases |s|
  {
    if Peek(s) == 0 as char || Peek(s) == QUOTE {
      ps := [];
      assert [] + s == s;
    } else {
      hide Decode, SpellPiece, PieceChar, PieceFits, SpellPieces, Chars;
      var p, n := PieceMet(s);
      assert s[..n] + s[n..] == s;
      TerminatedParts(s[..n], s[n..]);
      var more := DecodeSplit(s[n..]);
      ps := [p] + more;
      PiecesPut(p, more, Decode(s).rest);
    }
  }

  lemma PiecesPut(p: Piece, ps: seq<Piece>, rest: Text)
    requires PieceFits(p, false) && PiecesFit(ps, false)
    ensures PiecesFit([p] + ps, false)
    ensures SpellPieces([p] + ps) + rest == SpellPiece(p) + (SpellPieces(ps) + rest)
    ensures Chars([p] + ps) == [PieceChar(p)] + Chars(ps)
  {
    hide SpellPiece, PieceChar, PieceFits;
    assert ([p] + ps)[1..] == ps;
  }

  /** A string that the parser reads ends at its closing quote, or at the end of the text. */
  lemma StringSplit(s: Text) returns (ps: seq<Piece>)
    requires Terminated(s) && ParseString(s).AString?
    ensures PiecesFit(ps, false) && ParseString(s).s == Chars(ps) && Terminated(ParseString(s).rest)
    ensures s == ['\"'] + (SpellPieces(ps) + (['\"'] + ParseString(s).rest))
            || (ParseString(s).rest == [] && s == ['\"'] + SpellPieces(ps))
  {
    hide SpellPieces, Chars, PieceFits, Decode;
    assert s == [s[0]] + s[1..];
    ps := DecodeSplit(s[1..]);
    var r := Decode(s[1..]).rest;
    if r != [] {
      assert r == ['\"'] + r[1..];
    } else {
      assert SpellPieces(ps) + [] == SpellPieces(ps);
    }
  }

  lemma TerminatedParts(a: Text, b: Text)
    requires Terminated(a + b)
    ensures Terminated(a) && Terminated(b)
  {
    forall i | 0 <= i < |a| ensures a[i] != 0 as char {
      assert (a + b)[i] == a[i];
    }
    forall i | 0 <= i < |b| ensures b[i] != 0 as char {
      assert (a + b)[|a| + i] == b[i];
    }
  }

  /** s is white space, a spelling of v, and the rest. */
  ghost predicate Whole(s: Text, b: Text, x: Doc, v: Json, rest: Text) {
    Blank(b) && Fits(x, false) && s == b + (Spell(x) + rest) && Meaning(x) == v
  }

  /** s is white space and a string without a closing quote, up to the end. */
  ghost predicate Unclosed(s: Text, b: Text, x: Doc, v: Json, rest: Text) {
    Blank(b) && x.Quoted? && Fits(x, false) && rest == [] && s == b + (['\"'] + SpellPieces(x.pieces)) && v == Str(Chars(x.pieces))
  }

  lemma BlankConcat(a: Text, b: Text)
    requires Blank(a) && Blank(b)
    ensures Blank(a + b)
  {
  }

  lemma SpaceTerminated(s: Text)
    requires Terminated(s)
    ensures Terminated(SkipSpace(s))
  {
    hide SkipSpace, Blank;
    var b := SpaceSplit(s);
    TerminatedParts(b, SkipSpace(s));
  }

  lemma TailTerminated(s: Text)
    requires Terminated(s) && s != []
    ensures Terminated(s[1..])
  {
  }

  lemma WholeRest(s: Text, b: Text, x: Doc, v: Json, rest: Text)
    requires Terminated(s) && Whole(s, b, x, v, rest)
    ensures Terminated(rest)
  {
    hide Spell, Meaning, Fits, Blank;
    TerminatedParts(b, Spell(x) + rest);
    TerminatedParts(Spell(x), rest);
  }

  /** What a value ends with. */
  predicate Closed(t: Text) {
    t != []
  }

  /** A value that the parser reads from s0 is spelled there, and it is meant; only a string may lack its closing quote,
      at the end of the text. */
  lemma {:induction false} ValueSplit(s0: Text) returns (b: Text, x: Doc)
    requires Terminated(s0) && ParseValue(s0).Got?
    ensures var r := ParseValue(s0);
            Terminated(r.rest) && (Whole(s0, b, x, r.value, r.rest) || Unclosed(s0, b, x, r.value, r.rest))
    decreases |s0|, 2
  {
    hide Blank, SkipSpace, Overruns, ParseString, ParseNumber, ParseArray, ParseObject, ParseWord, Spell, Meaning, Fits, SpellPieces, Chars;
    b := SpaceSplit(s0);
    var s := SkipSpace(s0);
    SpaceTerminated(s0);
    var c := Peek(s);
    var r := ParseValue(s0);
    if c == '{' {
      x := ObjectSplit(s);
    } else if c == '[' {
      x := ArraySplit(s);
    } else if c == QUOTE {
      x := QuotedSplit(s);
    } else if c == '-' || IsDigit(c) {
      x := NumberSplit(s);
    } else {
      x := WordSplit(s0, s);
    }
    if s == Spell(x) + r.rest {
      WholeRest(s0, b, x, r.value, r.rest);
    }
  }

  lemma QuotedSplit(s: Text) returns (x: Doc)
    requires Terminated(s) && ParseString(s).AString?
    ensures x.Quoted? && Fits(x, false) && Meaning(x) == Str(ParseString(s).s) == Str(Chars(x.pieces)) && Terminated(ParseString(s).rest)
    ensures s == Spell(x) + ParseString(s).rest || (ParseString(s).rest == [] && s == ['\"'] + SpellPieces(x.pieces))
  {
    hide ParseString, SpellPieces, Chars, PieceFits;
    var ps := StringSplit(s);
    x := Quoted(ps);
    var r := ParseString(s).rest;
    assert Spell(x) + r == ['\"'] + (SpellPieces(ps) + (['\"'] + r));
  }

  lemma WordSplit(s0: Text, s: Text) returns (x: Doc)
    requires s == SkipSpace(s0) && ParseValue(s0).Got?
    requires Peek(s) != '{' && Peek(s) != '[' && Peek(s) != QUOTE && Peek(s) != '-' && !IsDigit(Peek(s))
    ensures Fits(x, false) && s == Spell(x) + ParseValue(s0).rest && Meaning(x) == ParseValue(s0).value
  {
    hide SkipSpace;
    if Peek(s) == 't' {
      x := Truth(true);
      WordThere(s, "true");
    } else if Peek(s) == 'f' {
      x := Truth(false);
      WordThere(s, "false");
    } else {
      x := Nothing;
      WordThere(s, "null");
    }
  }

  lemma WordThere(s: Text, w: Text)
    requires Starts(s, w)
    ensures s == w + s[|w|..]
  {
  }

  lemma {:induction false} ArraySplit(s: Text) returns (x: Doc)
    requires Terminated(s) && Peek(s) == '[' && ParseArray(s).Got?
    ensures Fits(x, false) && s == Spell(x) + ParseArray(s).rest && Meaning(x) == ParseArray(s).value
    decreases |s|, 1
  {
    hide Blank, SkipSpace, ParseElems, Spell, Meaning, Meanings, ItemFits, SpellItems;
    var t := SkipSpace(s[1..]);
    var inner := SpaceSplit(s[1..]);
    var rest := ParseArray(s).rest;
    TailTerminated(s);
    SpaceTerminated(s[1..]);
    assert s == ['['] + s[1..];
    if Peek(t) == ']' {
      x := Array(inner, []);
      ArraySpelled(inner, []);
      ArrayMeans(inner, []);
      assert t == [']'] + t[1..] && Meanings([]) == [] by { NoMeanings(); }
    } else {
      var items := ElemsSplit(t, []);
      var first := items[0].(before := inner + items[0].before);
      x := Array([], [first] + items[1..]);
      FirstItem(items, inner);
      ArraySpelled([], [first] + items[1..]);
      EmptyBlank();
      ArrayMeans([], [first] + items[1..]);
      assert [] + Meanings(items) == Meanings(items);
    }
  }

  lemma NoMeanings()
    ensures Meanings([]) == [] && Entries([]) == []
  {
  }

  lemma EmptyBlank()
    ensures Blank([])
  {
  }

  /** More white space before the first item. */
  lemma FirstItem(items: seq<Item>, b: Text)
    requires items != [] && Blank(b) && forall i :: 0 <= i < |items| ==> ItemFits(items[i], false)
    ensures var first := items[0].(before := b + items[0].before);
            var more := [first] + items[1..];
            && (forall i :: 0 <= i < |more| ==> ItemFits(more[i], false))
            && SpellItems(more) == b + SpellItems(items) && Meanings(more) == Meanings(items)
  {
    hide Blank, Spell, Meaning, Fits, SpellItems, SpellItem, Meanings;
    var first := items[0].(before := b + items[0].before);
    var more := [first] + items[1..];
    BlankConcat(b, items[0].before);
    assert more[1..] == items[1..];
    ItemWider(items[0], b);
    ItemsHead(items);
    ItemsHead(more);
  }

  lemma ItemWider(i: Item, b: Text)
    ensures SpellItem(i.(before := b + i.before)) == b + SpellItem(i)
  {
    hide Spell;
  }

  /** The first item, and what is behind it. */
  lemma ItemsHead(items: seq<Item>)
    requires items != [] && forall i :: 0 <= i < |items| ==> ItemFits(items[i], false)
    ensures SpellItems(items) == SpellItem(items[0]) + (if |items| == 1 then [] else [','] + SpellItems(items[1..]))
    ensures Meanings(items) == [ItemMeaning(items[0])] + Meanings(items[1..])
  {
    hide SpellItem, ItemMeaning, ItemFits;
  }

  lemma {:induction false} ElemsSplit(s: Text, done: seq<Json>) returns (items: seq<Item>)
    requires Terminated(s) && ParseElems(s, done).Got?
    ensures items != [] && forall i :: 0 <= i < |items| ==> ItemFits(items[i], false)
    ensures var r := ParseElems(s, done);
            Terminated(r.rest) && s == SpellItems(items) + ([']'] + r.rest) && r.value == List(done + Meanings(items))
    decreases |s|, 4
  {
    hide Blank, SkipSpace, ParseValue, Meanings, SpellItems, ItemFits, SpellItem, ItemMeaning;
    var item := ItemSplit(s);
    var r := ParseValue(SkipSpace(s));
    var t := SkipSpace(r.rest);
    TailTerminated(t);
    assert t == [t[0]] + t[1..];
    if Peek(t) == ']' {
      items := [item];
      ItemAlone(item);
    } else {
      var more := ElemsSplit(t[1..], done + [r.value]);
      items := [item] + more;
      ItemBefore(item, more);
      assert done + [r.value] + Meanings(more) == done + ([r.value] + Meanings(more));
    }
  }

  lemma ItemAlone(item: Item)
    requires ItemFits(item, false)
    ensures SpellItems([item]) == SpellItem(item) && Meanings([item]) == [ItemMeaning(item)]
  {
    hide SpellItem, ItemMeaning, ItemFits;
    assert [item][1..] == [] && Meanings([]) == [];
  }

  lemma ItemBefore(item: Item, more: seq<Item>)
    requires more != [] && ItemFits(item, false) && forall i :: 0 <= i < |more| ==> ItemFits(more[i], false)
    ensures SpellItems([item] + more) == SpellItem(item) + ([','] + SpellItems(more))
    ensures Meanings([item] + more) == [ItemMeaning(item)] + Meanings(more)
  {
    hide SpellItem, ItemMeaning, ItemFits;
    assert ([item] + more)[1..] == more;
  }

  /** One item, with the white space around it. */
  lemma {:induction false} ItemSplit(s: Text) returns (item: Item)
    requires Terminated(s) && ParseValue(SkipSpace(s)).Got? && Closed(SkipSpace(ParseValue(SkipSpace(s)).rest))
    ensures ItemFits(item, false)
    ensures var r := ParseValue(SkipSpace(s));
            && ItemMeaning(item) == r.value && s == SpellItem(item) + SkipSpace(r.rest) && Terminated(SkipSpace(r.rest))
    decreases |s|, 3
  {
    hide Blank, SkipSpace, ParseValue, Spell, Meaning, Fits;
    var b0 := SpaceSplit(s);
    SpaceTerminated(s);
    ShorterSkip(s);
    var b1, x := ValueSplit(SkipSpace(s));
    var r := ParseValue(SkipSpace(s));
    var a := SpaceSplit(r.rest);
    SpaceTerminated(r.rest);
    item := Item(b0 + b1, x, a);
    BlankConcat(b0, b1);
    assert r.rest != [];
    assert s == b0 + (b1 + (Spell(x) + (a + SkipSpace(r.rest))));
  }

  lemma ShorterSkip(s: Text)
    ensures |SkipSpace(s)| <= |s|
  {
  }

  lemma {:induction false} ObjectSplit(s: Text) returns (x: Doc)
    requires Terminated(s) && Peek(s) == '{' && ParseObject(s).Got?
    ensures Fits(x, false) && s == Spell(x) + ParseObject(s).rest && Meaning(x) == ParseObject(s).value
    decreases |s|, 1
  {
    hide Blank, SkipSpace, ParseEntries, Spell, Meaning, Entries, MemberFits, SpellMembers;
    var t := SkipSpace(s[1..]);
    var inner := SpaceSplit(s[1..]);
    TailTerminated(s);
    SpaceTerminated(s[1..]);
    assert s == ['{'] + s[1..];
    if Peek(t) == '}' {
      x := Object(inner, []);
      ObjectSpelled(inner, []);
      ObjectMeans(inner, []);
      NoMeanings();
      assert t == ['}'] + t[1..];
    } else {
      NoMeanings();
      var ms := EntriesSplit(t, []);
      var first := ms[0].(before := inner + ms[0].before);
      x := Object([], [first] + ms[1..]);
      FirstMember(ms, inner);
      ObjectSpelled([], [first] + ms[1..]);
      EmptyBlank();
      ObjectMeans([], [first] + ms[1..]);
    }
  }

  /** More white space before the first member. */
  lemma FirstMember(ms: seq<Member>, b: Text)
    requires ms != [] && Blank(b) && forall i :: 0 <= i < |ms| ==> MemberFits(ms[i], false)
    ensures var first := ms[0].(before := b + ms[0].before);
            var more := [first] + ms[1..];
            && (forall i :: 0 <= i < |more| ==> MemberFits(more[i], false))
            && SpellMembers(more) == b + SpellMembers(ms) && Entries(more) == Entries(ms)
  {
    hide Blank, SpellMember, SpellMembers, SpellPieces, ItemFits, PiecesFit, Entries, Chars, ItemMeaning;
    var first := ms[0].(before := b + ms[0].before);
    var more := [first] + ms[1..];
    BlankConcat(b, ms[0].before);
    assert more[1..] == ms[1..];
    MemberWider(ms[0], b);
    MembersHead(ms);
    MembersHead(more);
    SameEntries(ms, more);
  }

  lemma MemberWider(m: Member, b: Text)
    ensures SpellMember(m.(before := b + m.before)) == b + SpellMember(m)
  {
    hide SpellItem, SpellPieces;
  }

  lemma MembersHead(ms: seq<Member>)
    requires ms != []
    ensures SpellMembers(ms) == SpellMember(ms[0]) + (if |ms| == 1 then [] else [','] + SpellMembers(ms[1..]))
  {
    hide SpellMember;
  }

  lemma {:induction false} SameEntries(ms: seq<Member>, more: seq<Member>)
    requires |ms| == |more| && forall i :: 0 <= i < |ms| ==>
               MemberFits(ms[i], false) && MemberFits(more[i], false) && ms[i].key == more[i].key && ms[i].value == more[i].value
    ensures Entries(ms) == Entries(more)
    decreases |ms|
  {
    hide Chars, MemberFits, ItemMeaning, ItemFits, Put;
    if ms != [] {
      SameEntries(ms[..|ms| - 1], more[..|ms| - 1]);
    }
  }

  /** One more entry goes behind those of ms. */
  function PutAll(done: seq<Entry>, ms: seq<Member>): seq<Entry>
    requires forall i :: 0 <= i < |ms| ==> MemberFits(ms[i], false)
    decreases |ms|
  {
    if ms == [] then done else PutAll(Put(done, Chars(ms[0].key), MemberMeaning(ms[0])), ms[1..])
  }

  lemma {:induction false} PutAllEntries(pre: seq<Member>, ms: seq<Member>)
    requires forall i :: 0 <= i < |pre| ==> MemberFits(pre[i], false)
    requires forall i :: 0 <= i < |ms| ==> MemberFits(ms[i], false)
    ensures PutAll(Entries(pre), ms) == Entries(pre + ms)
    decreases |ms|
  {
    hide Chars, MemberFits, MemberMeaning, Put;
    if ms == [] {
      assert pre + ms == pre;
    } else {
      var next := pre + [ms[0]];
      assert next[..|next| - 1] == pre && next[|next| - 1] == ms[0];
      assert next + ms[1..] == pre + ms;
      PutAllEntries(next, ms[1..]);
    }
  }

  lemma {:induction false} EntriesPut(s: Text, done: seq<Entry>) returns (ms: seq<Member>)
    requires Terminated(s) && ParseEntries(s, done).Got?
    ensures ms != [] && forall i :: 0 <= i < |ms| ==> MemberFits(ms[i], false)
    ensures var r := ParseEntries(s, done);
            s == SpellMembers(ms) + (['}'] + r.rest) && r.value == Dict(PutAll(done, ms))
    decreases |s|, 4
  {
    hide Blank, SkipSpace, ParseValue, ParseString, Overruns, SpellMembers, MemberFits, SpellMember, MemberMeaning, Chars, Put, PutAll;
    var m := MemberSplit(s);
    var t0 := SkipSpace(ParseString(SkipSpace(s)).rest);
    var r := ParseValue(SkipSpace(t0[1..]));
    var t := SkipSpace(r.rest);
    TailTerminated(t);
    assert t == [t[0]] + t[1..];
    if Peek(t) == '}' {
      ms := [m];
      MemberAlone(m, done);
    } else {
      var more := EntriesPut(t[1..], Put(done, Chars(m.key), r.value));
      ms := [m] + more;
      MemberBefore(m, more, done);
    }
  }

  lemma MemberAlone(m: Member, done: seq<Entry>)
    requires MemberFits(m, false)
    ensures SpellMembers([m]) == SpellMember(m) && PutAll(done, [m]) == Put(done, Chars(m.key), MemberMeaning(m))
  {
    hide SpellMember, MemberMeaning, MemberFits, Put, Chars;
    assert [m][1..] == [];
  }

  lemma MemberBefore(m: Member, more: seq<Member>, done: seq<Entry>)
    requires more != [] && MemberFits(m, false) && forall i :: 0 <= i < |more| ==> MemberFits(more[i], false)
    ensures SpellMembers([m] + more) == SpellMember(m) + ([','] + SpellMembers(more))
    ensures PutAll(done, [m] + more) == PutAll(Put(done, Chars(m.key), MemberMeaning(m)), more)
  {
    hide SpellMember, MemberMeaning, MemberFits, Put, Chars;
    assert ([m] + more)[1..] == more;
  }

  lemma EntriesSplit(s: Text, none: seq<Entry>) returns (ms: seq<Member>)
    requires none == [] && Terminated(s) && ParseEntries(s, none).Got?
    ensures ms != [] && forall i :: 0 <= i < |ms| ==> MemberFits(ms[i], false)
    ensures var r := ParseEntries(s, none);
            s == SpellMembers(ms) + (['}'] + r.rest) && r.value == Dict(Entries(ms))
    decreases |s|, 5
  {
    hide ParseEntries, SpellMembers, MemberFits, PutAll;
    ms := EntriesPut(s, none);
    NoMeanings();
    assert [] + ms == ms;
    PutAllEntries([], ms);
  }

  /** One member, up to what follows its value. */
  lemma {:induction false} MemberSplit(s: Text) returns (m: Member)
    requires Terminated(s) && ParseString(SkipSpace(s)).AString?
    requires var t0 := SkipSpace(ParseString(SkipSpace(s)).rest);
             && Peek(t0) == ':' && ParseValue(SkipSpace(t0[1..])).Got? && Closed(SkipSpace(ParseValue(SkipSpace(t0[1..])).rest))
    ensures MemberFits(m, false) && Chars(m.key) == ParseString(SkipSpace(s)).s
    ensures var t0 := SkipSpace(ParseString(SkipSpace(s)).rest);
            var r := ParseValue(SkipSpace(t0[1..]));
            && MemberMeaning(m) == r.value && s == SpellMember(m) + SkipSpace(r.rest) && Terminated(SkipSpace(r.rest))
    decreases |s|, 3
  {
    hide Blank, SkipSpace, ParseValue, ParseString, SpellItem, SpellPieces, ItemFits, ItemMeaning, Chars, PiecesFit;
    var b := SpaceSplit(s);
    SpaceTerminated(s);
    ShorterSkip(s);
    var ps := StringSplit(SkipSpace(s));
    var k := ParseString(SkipSpace(s));
    var behind := SpaceSplit(k.rest);
    var t0 := SkipSpace(k.rest);
    SpaceTerminated(k.rest);
    ShorterSkip(k.rest);
    assert k.rest != [];
    assert t0 == [':'] + t0[1..];
    TailTerminated(t0);
    var item := ItemSplit(t0[1..]);
    m := Member(b, ps, behind, item);
    var tail := SkipSpace(ParseValue(SkipSpace(t0[1..])).rest);
    MemberSpelled(m, tail);
  }
}
