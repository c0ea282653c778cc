/** One bit per bucket, thirty-two to a word: the macros of khashl that read, set and clear a used bit. */
module UsedBits {
  import opened PackedFlags

  /** The position of bit i of a word, for i below 32. */
  function Place(i: nat): (s: bv32)
    ensures s <= 31
  {
    Shift(i / 2) | (if i % 2 == 0 then 0 else 1)
  }

  lemma PlaceInjective(i: nat, j: nat)
    requires i / 32 == j / 32 && i != j
    ensures Place(i) != Place(j)
  {
    hide Shift;
    if i / 2 == j / 2 {
      OddDiffers(Shift(i / 2), Shift(i / 2));
    } else {
      ShiftInjective(i / 2, j / 2);
      OddDiffers(Shift(i / 2), Shift(j / 2));
    }
  }

  lemma OddDiffers(a: bv32, b: bv32)
    requires a & 1 == 0 && b & 1 == 0
    ensures a | 0 != b | 1
    ensures a != b ==> a | 0 != b | 0 && a | 1 != b | 1
  {
  }

  predicate IsUsed(w: bv32, s: bv32) requires s <= 31 {
    (w >> s) & 1 != 0
  }

  function SetUsed(w: bv32, s: bv32): bv32 requires s <= 31 {
    w | (1 << s)
  }

  function SetUnused(w: bv32, s: bv32): bv32 requires s <= 31 {
    w & !(1 << s)
  }

  lemma SettersHere(w: bv32, s: bv32)
    requires s <= 31
    ensures IsUsed(SetUsed(w, s), s) && !IsUsed(SetUnused(w, s), s)
  {
  }

  lemma SetUsedElsewhere(w: bv32, s: bv32, t: bv32)
    requires s <= 31 && t <= 31 && s != t
    ensures (SetUsed(w, s) >> t) & 1 == (w >> t) & 1
  {
    assert ((((1 as bv32) << s) >> t) & 1) == 0;
  }

  lemma SetUnusedElsewhere(w: bv32, s: bv32, t: bv32)
    requires s <= 31 && t <= 31 && s != t
    ensures (SetUnused(w, s) >> t) & 1 == (w >> t) & 1
  {
    assert ((((1 as bv32) << s) >> t) & 1) == 0;
  }

  lemma SameBit(w: bv32, v: bv32, t: bv32)
    requires t <= 31 && (w >> t) & 1 == (v >> t) & 1
    ensures IsUsed(w, t) == IsUsed(v, t)
  {
  }

  lemma SetUsedOther(w: bv32, s: bv32, t: bv32, w': bv32)
    requires s <= 31 && t <= 31 && s != t && w' == SetUsed(w, s)
    ensures IsUsed(w', t) == IsUsed(w, t)
  {
    SetUsedElsewhere(w, s, t);
    hide *;
    SameBit(w', w, t);
  }

  lemma SetUnusedOther(w: bv32, s: bv32, t: bv32, w': bv32)
    requires s <= 31 && t <= 31 && s != t && w' == SetUnused(w, s)
    ensures IsUsed(w', t) == IsUsed(w, t)
  {
    SetUnusedElsewhere(w, s, t);
    hide *;
    SameBit(w', w, t);
  }

  lemma ZeroWord(s: bv32)
    requires s <= 31
    ensures !IsUsed(0, s)
  {
  }

  /** The number of words for m buckets. */
  function Fsize(m: nat): nat {
    if m < 32 then 1 else m / 32
  }

  /** The marks that one word holds. */
  function Bits(w: bv32): (u: seq<bool>)
    ensures |u| == 32
    ensures forall k :: 0 <= k < 32 ==> u[k] == IsUsed(w, Place(k))
  {
    seq(32, k requires 0 <= k < 32 => IsUsed(w, Place(k)))
  }

  lemma BitsSet(w: bv32, k: nat)
    requires k < 32
    ensures Bits(SetUsed(w, Place(k))) == Bits(w)[k := true]
  {
    hide IsUsed, SetUsed, Place;
    var w' := SetUsed(w, Place(k));
    SettersHere(w, Place(k));
    forall l | 0 <= l < 32 && l != k ensures Bits(w')[l] == Bits(w)[l] {
      PlaceInjective(k, l);
      SetUsedOther(w, Place(k), Place(l), w');
    }
  }

  lemma BitsClear(w: bv32, k: nat)
    requires k < 32
    ensures Bits(SetUnused(w, Place(k))) == Bits(w)[k := false]
  {
    hide IsUsed, SetUnused, Place;
    var w' := SetUnused(w, Place(k));
    SettersHere(w, Place(k));
    forall l | 0 <= l < 32 && l != k ensures Bits(w')[l] == Bits(w)[l] {
      PlaceInjective(k, l);
      SetUnusedOther(w, Place(k), Place(l), w');
    }
  }

  /** The marks of n buckets. */
  function Used(words: seq<bv32>, n: nat): (u: seq<bool>)
    requires n <= 32 * |words|
    ensures |u| == n
    ensures forall i :: 0 <= i < n ==> u[i] == Bits(words[i / 32])[i % 32]
  {
    seq(n, i requires 0 <= i < n => Bits(words[i / 32])[i % 32])
  }

  lemma WordChanged(words: seq<bv32>, n: nat, i: nat, w: bv32, on: bool)
    requires n <= 32 * |words| && i < n && Bits(w) == Bits(words[i / 32])[i % 32 := on]
    ensures Used(words[i / 32 := w], n) == Used(words, n)[i := on]
  {
    hide Bits;
    forall j | 0 <= j < n && j != i ensures Used(words[i / 32 := w], n)[j] == Used(words, n)[j] {
      assert j / 32 == i / 32 ==> j % 32 != i % 32;
    }
  }

  /** Setting or clearing the bit of one bucket changes that bucket's mark and no other. */
  lemma Marked(words: seq<bv32>, n: nat, i: nat)
    requires n <= 32 * |words| && i < n
    ensures Used(words[i / 32 := SetUsed(words[i / 32], Place(i % 32))], n) == Used(words, n)[i := true]
    ensures Used(words[i / 32 := SetUnused(words[i / 32], Place(i % 32))], n) == Used(words, n)[i := false]
  {
    hide *;
    BitsSet(words[i / 32], i % 32);
    BitsClear(words[i / 32], i % 32);
    WordChanged(words, n, i, SetUsed(words[i / 32], Place(i % 32)), true);
    WordChanged(words, n, i, SetUnused(words[i / 32], Place(i % 32)), false);
  }

  lemma AllUnused(words: seq<bv32>, n: nat)
    requires n <= 32 * |words| && forall k :: 0 <= k < |words| ==> words[k] == 0
    ensures forall i :: 0 <= i < n ==> !Used(words, n)[i]
  {
    forall i | 0 <= i < n ensures !Used(words, n)[i] {
      ZeroWord(Place(i % 32));
    }
  }
}
