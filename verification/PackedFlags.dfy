/** Two-bit bucket marks, sixteen to a 32-bit word, and the in-place round-up to a power of two:
    the bit-level macros of khash.  Every macro is related to the mark it reads or the mark it changes,
    so that the table itself can be reasoned about on a plain sequence of marks. */
module PackedFlags {

  /** The four patterns of a bucket's two bits: live (00), deleted (01), empty (10), and 11, which the
      macros read as empty and deleted at once and which the table never writes. */
  datatype Mark = Live | Deleted | Empty | Both

  /** The distance of the pair of bits of bucket i within its word: twice i modulo 16. */
  function Shift(i: nat): (s: bv32)
    ensures s <= 30 && s & 1 == 0
  {
    [0, 2, 4, 6, 8, 10, 12, 14, 16, 18, 20, 22, 24, 26, 28, 30][i % 16]
  }

  lemma ShiftInjective(i: nat, j: nat)
    requires i / 16 == j / 16 && i != j
    ensures Shift(i) != Shift(j)
  {
    assert i % 16 != j % 16;
  }

  predicate IsEmpty(w: bv32, s: bv32) requires s <= 30 {
    (w >> s) & 2 != 0
  }

  predicate IsDel(w: bv32, s: bv32) requires s <= 30 {
    (w >> s) & 1 != 0
  }

  predicate IsEither(w: bv32, s: bv32) requires s <= 30 {
    (w >> s) & 3 != 0
  }

  function SetDelTrue(w: bv32, s: bv32): bv32 requires s <= 30 {
    w | (1 << s)
  }

  function SetEmptyFalse(w: bv32, s: bv32): bv32 requires s <= 30 {
    w & !(2 << s)
  }

  function SetBothFalse(w: bv32, s: bv32): bv32 requires s <= 30 {
    w & !(3 << s)
  }

  /** The pattern in the two lowest bits of p. */
  function LowMark(p: bv32): (m: Mark)
    ensures p & 2 != 0 <==> m == Empty || m == Both
    ensures p & 1 != 0 <==> m == Deleted || m == Both
    ensures p & 3 != 0 <==> m != Live
  {
    if p & 2 != 0 then (if p & 1 != 0 then Both else Empty)
    else if p & 1 != 0 then Deleted else Live
  }

  lemma SameLowBits(p: bv32, q: bv32)
    requires p & 3 == q & 3
    ensures LowMark(p) == LowMark(q)
  {
    assert p & 2 == q & 2 && p & 1 == q & 1;
  }

  function MarkIn(w: bv32, s: bv32): (m: Mark)
    requires s <= 30
    ensures IsEmpty(w, s) <==> m == Empty || m == Both
    ensures IsDel(w, s) <==> m == Deleted || m == Both
    ensures IsEither(w, s) <==> m != Live
  {
    LowMark(w >> s)
  }

  lemma SameMark(w: bv32, v: bv32, t: bv32)
    requires t <= 30 && (w >> t) & 3 == (v >> t) & 3
    ensures MarkIn(w, t) == MarkIn(v, t)
  {
    SameLowBits(w >> t, v >> t);
  }

  lemma SettersHere(w: bv32, s: bv32)
    requires s <= 30 && s & 1 == 0
    ensures MarkIn(w, s) == Live ==> MarkIn(SetDelTrue(w, s), s) == Deleted
    ensures MarkIn(SetBothFalse(w, s), s) == Live
    ensures MarkIn(w, s) == Empty ==> MarkIn(SetEmptyFalse(w, s), s) == Live
  {
  }

  lemma SetDelTruePair(w: bv32, s: bv32, t: bv32)
    requires s <= 30 && t <= 30 && s & 1 == 0 && t & 1 == 0 && s != t
    ensures (SetDelTrue(w, s) >> t) & 3 == (w >> t) & 3
  {
    assert ((((1 as bv32) << s) >> t) & 3) == 0;
  }

  lemma SetBothFalsePair(w: bv32, s: bv32, t: bv32)
    requires s <= 30 && t <= 30 && s & 1 == 0 && t & 1 == 0 && s != t
    ensures (SetBothFalse(w, s) >> t) & 3 == (w >> t) & 3
  {
    assert ((((3 as bv32) << s) >> t) & 3) == 0;
  }

  lemma SetEmptyFalsePair(w: bv32, s: bv32, t: bv32)
    requires s <= 30 && t <= 30 && s & 1 == 0 && t & 1 == 0 && s != t
    ensures (SetEmptyFalse(w, s) >> t) & 3 == (w >> t) & 3
  {
    assert ((((2 as bv32) << s) >> t) & 3) == 0;
  }

  lemma AllEmptyWord(s: bv32)
    requires s <= 30 && s & 1 == 0
    ensures MarkIn(0xaaaa_aaaa, s) == Empty
  {
  }

  /** The number of words khash allocates for m buckets. */
  function Fsize(m: nat): nat {
    if m < 16 then 1 else m / 16
  }

  /** The mark of bucket i in an array of words. */
  function MarkAt(words: seq<bv32>, i: nat): Mark
    requires i / 16 < |words|
  {
    MarkIn(words[i / 16], Shift(i))
  }

  function Marks(words: seq<bv32>, n: nat): (m: seq<Mark>)
    requires n <= 16 * |words|
    ensures |m| == n
    ensures forall i :: 0 <= i < n ==> m[i] == MarkAt(words, i)
  {
    seq(n, i requires 0 <= i < n => MarkAt(words, i))
  }

  /** Enough words for n buckets, n a power of two in the table's use. */
  predicate Covers(words: seq<bv32>, n: nat) {
    n <= 16 * |words|
  }

  // ----- one word -----

  lemma DeletedHere(w: bv32, i: nat)
    requires MarkIn(w, Shift(i)) == Live
    ensures MarkIn(SetDelTrue(w, Shift(i)), Shift(i)) == Deleted
  {
    SettersHere(w, Shift(i));
  }

  lemma DeletedElsewhere(w: bv32, i: nat, j: nat)
    requires i / 16 == j / 16 && i != j
    ensures MarkIn(SetDelTrue(w, Shift(i)), Shift(j)) == MarkIn(w, Shift(j))
  {
    ShiftInjective(i, j);
    hide *;
    SetDelTruePair(w, Shift(i), Shift(j));
    SameMark(SetDelTrue(w, Shift(i)), w, Shift(j));
  }

  lemma LiveHere(w: bv32, i: nat)
    ensures MarkIn(SetBothFalse(w, Shift(i)), Shift(i)) == Live
  {
    SettersHere(w, Shift(i));
  }

  lemma LiveElsewhere(w: bv32, i: nat, j: nat)
    requires i / 16 == j / 16 && i != j
    ensures MarkIn(SetBothFalse(w, Shift(i)), Shift(j)) == MarkIn(w, Shift(j))
  {
    ShiftInjective(i, j);
    hide *;
    SetBothFalsePair(w, Shift(i), Shift(j));
    SameMark(SetBothFalse(w, Shift(i)), w, Shift(j));
  }

  lemma FilledHere(w: bv32, i: nat)
    requires MarkIn(w, Shift(i)) == Empty
    ensures MarkIn(SetEmptyFalse(w, Shift(i)), Shift(i)) == Live
  {
    SettersHere(w, Shift(i));
  }

  lemma FilledElsewhere(w: bv32, i: nat, j: nat)
    requires i / 16 == j / 16 && i != j
    ensures MarkIn(SetEmptyFalse(w, Shift(i)), Shift(j)) == MarkIn(w, Shift(j))
  {
    ShiftInjective(i, j);
    hide *;
    SetEmptyFalsePair(w, Shift(i), Shift(j));
    SameMark(SetEmptyFalse(w, Shift(i)), w, Shift(j));
  }

  // ----- the array of words -----

  /** Word w differs from the word of bucket i in the mark of that bucket only. */
  ghost predicate Differs(words: seq<bv32>, i: nat, w: bv32, m: Mark)
    requires i / 16 < |words|
  {
    && MarkIn(w, Shift(i)) == m
    && forall j: nat :: j / 16 == i / 16 && j != i ==> MarkIn(w, Shift(j)) == MarkAt(words, j)
  }

  lemma WordChanged(words: seq<bv32>, n: nat, i: nat, w: bv32, m: Mark)
    requires Covers(words, n) && i < n && Differs(words, i, w, m)
    ensures Marks(words[i / 16 := w], n) == Marks(words, n)[i := m]
  {
    hide MarkIn, Shift;
  }

  lemma MarkDeleted(words: seq<bv32>, n: nat, i: nat)
    requires Covers(words, n) && i < n && MarkAt(words, i) == Live
    ensures Marks(words[i / 16 := SetDelTrue(words[i / 16], Shift(i))], n) == Marks(words, n)[i := Deleted]
  {
    hide MarkIn, Shift, SetDelTrue;
    var w := words[i / 16];
    DeletedHere(w, i);
    forall j: nat | j / 16 == i / 16 && j != i ensures MarkIn(SetDelTrue(w, Shift(i)), Shift(j)) == MarkAt(words, j) {
      DeletedElsewhere(w, i, j);
    }
    WordChanged(words, n, i, SetDelTrue(w, Shift(i)), Deleted);
  }

  lemma MarkLive(words: seq<bv32>, n: nat, i: nat)
    requires Covers(words, n) && i < n
    ensures Marks(words[i / 16 := SetBothFalse(words[i / 16], Shift(i))], n) == Marks(words, n)[i := Live]
  {
    hide MarkIn, Shift, SetBothFalse;
    var w := words[i / 16];
    LiveHere(w, i);
    forall j: nat | j / 16 == i / 16 && j != i ensures MarkIn(SetBothFalse(w, Shift(i)), Shift(j)) == MarkAt(words, j) {
      LiveElsewhere(w, i, j);
    }
    WordChanged(words, n, i, SetBothFalse(w, Shift(i)), Live);
  }

  lemma MarkFilled(words: seq<bv32>, n: nat, i: nat)
    requires Covers(words, n) && i < n && MarkAt(words, i) == Empty
    ensures Marks(words[i / 16 := SetEmptyFalse(words[i / 16], Shift(i))], n) == Marks(words, n)[i := Live]
  {
    hide MarkIn, Shift, SetEmptyFalse;
    var w := words[i / 16];
    FilledHere(w, i);
    forall j: nat | j / 16 == i / 16 && j != i ensures MarkIn(SetEmptyFalse(w, Shift(i)), Shift(j)) == MarkAt(words, j) {
      FilledElsewhere(w, i, j);
    }
    WordChanged(words, n, i, SetEmptyFalse(w, Shift(i)), Live);
  }

  lemma MarksAllEmpty(words: seq<bv32>, n: nat)
    requires Covers(words, n) && forall k :: 0 <= k < |words| ==> words[k] == 0xaaaa_aaaa
    ensures forall i :: 0 <= i < n ==> Marks(words, n)[i] == Empty
  {
    forall i | 0 <= i < n ensures MarkAt(words, i) == Empty {
      AllEmptyWord(Shift(i));
    }
  }

  /** The shift-and-or chain of the in-place round-up, on 32-bit words that wrap around. */
  function RoundUpBits(x: bv32): bv32 {
    var a := x - 1;
    var b := a | (a >> 1);
    var c := b | (b >> 2);
    var d := c | (c >> 4);
    var e := d | (d >> 8);
    (e | (e >> 16)) + 1
  }

  /** The chain yields the power of two r with r / 2 < x <= r, and 0 where no 32-bit word is large
      enough or x is 0. */
  lemma RoundUpBitsExact(x: bv32)
    ensures 0 < x <= 0x8000_0000 ==>
              RoundUpBits(x) & (RoundUpBits(x) - 1) == 0 && x <= RoundUpBits(x) && RoundUpBits(x) >> 1 < x
    ensures x == 0 || x > 0x8000_0000 ==> RoundUpBits(x) == 0
  {
  }
}
