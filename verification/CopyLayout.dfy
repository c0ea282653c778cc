/** Where the copies of a collection lie: one behind the other, without a gap. */
module CopyLayout {
  import opened HeapModel

  ghost function Between(lo: nat, hi: nat): (s: set<nat>)
    ensures forall i :: i in s <==> lo <= i < hi
  {
    if hi <= lo then {} else Between(lo, hi - 1) + {hi - 1}
  }

  lemma {:induction false} BetweenSize(lo: nat, hi: nat)
    requires lo <= hi
    ensures |Between(lo, hi)| == hi - lo
    decreases hi
  {
    if lo < hi {
      BetweenSize(lo, hi - 1);
      assert hi - 1 !in Between(lo, hi - 1);
      assert Between(lo, hi) == Between(lo, hi - 1) + {hi - 1};
    } else {
      assert Between(lo, hi) == {};
    }
  }

  lemma {:induction false} SubsetSize(a: set<nat>, b: set<nat>)
    requires a <= b
    ensures |a| <= |b| && (|a| == |b| ==> a == b)
    decreases a
  {
    if a != {} {
      var x :| x in a;
      SubsetSize(a - {x}, b - {x});
      assert a - {x} + {x} == a && b - {x} + {x} == b;
    } else if b != {} {
      var x :| x in b;
      assert b == {x} + (b - {x});
    }
  }

  /** Slot i belongs to the copy of n. */
  ghost predicate At(m: seq<Node>, f: map<nat, nat>, n: nat, i: nat) {
    n in f && n < |m| && f[n] <= i < f[n] + CopySlots(m[n])
  }

  /** The slots of the copies of s. */
  ghost predicate Covers(m: seq<Node>, f: map<nat, nat>, s: set<nat>, slots: set<nat>) {
    && (forall i :: i in slots ==> exists n :: n in s && At(m, f, n, i))
    && (forall n, i :: n in s && At(m, f, n, i) ==> i in slots)
  }

  ghost predicate Disjoint(m: seq<Node>, f: map<nat, nat>, s: set<nat>) {
    forall n, k, i :: n in s && k in s && At(m, f, n, i) && At(m, f, k, i) ==> n == k
  }

  /** Copies that do not overlap take as many slots as they need together. */
  lemma {:induction false} SlotsTaken(m: seq<Node>, f: map<nat, nat>, s: set<nat>) returns (slots: set<nat>)
    requires s <= f.Keys && Disjoint(m, f, s) && forall n :: n in s ==> n < |m|
    ensures Covers(m, f, s, slots) && |slots| == Size(m, s)
    decreases |s|
  {
    hide Size, Disjoint, At, CopySlots;
    if s == {} {
      slots := {};
      SizeOfNone(m);
    } else {
      var a :| a in s;
      var rest := s - {a};
      assert rest + {a} == s;
      DisjointLess(m, f, s, rest);
      var others := SlotsTaken(m, f, rest);
      SizeAdd(m, rest, a);
      var own := OwnSlots(m, f, a);
      AddCovers(m, f, rest, others, a, own);
      slots := others + own;
    }
  }

  lemma DisjointLess(m: seq<Node>, f: map<nat, nat>, s: set<nat>, rest: set<nat>)
    requires Disjoint(m, f, s) && rest <= s
    ensures Disjoint(m, f, rest)
  {
    hide At;
  }

  lemma OwnSlots(m: seq<Node>, f: map<nat, nat>, a: nat) returns (own: set<nat>)
    requires a in f && a < |m|
    ensures |own| == CopySlots(m[a]) && forall i: nat :: i in own <==> At(m, f, a, i)
  {
    hide CopySlots;
    own := Between(f[a], f[a] + CopySlots(m[a]));
    BetweenSize(f[a], f[a] + CopySlots(m[a]));
  }

  lemma AddCovers(m: seq<Node>, f: map<nat, nat>, rest: set<nat>, others: set<nat>, a: nat, own: set<nat>)
    requires Covers(m, f, rest, others) && (forall i :: i in own <==> At(m, f, a, i))
    requires a !in rest && Disjoint(m, f, rest + {a})
    ensures Covers(m, f, rest + {a}, others + own) && |others + own| == |others| + |own|
  {
    hide At;
    forall i | i in others ensures i !in own {
      var n :| n in rest && At(m, f, n, i);
    }
    assert others !! own;
    forall i | i in others + own ensures exists n :: n in rest + {a} && At(m, f, n, i) {
      if i in others {
        var n :| n in rest && At(m, f, n, i);
        assert n in rest + {a};
      } else {
        assert a in rest + {a};
      }
    }
  }

  lemma CopiesDisjoint(m: seq<Node>, lo: nat, m': seq<Node>, idx: nat, f: map<nat, nat>)
    requires Isomorphic(m, lo, m', idx, f)
    ensures Disjoint(m, f, f.Keys) && (forall n :: n in f.Keys ==> n < |m|)
    ensures forall n: nat, i: nat :: At(m, f, n, i) ==> lo <= i < idx
  {
    hide CopySlots;
    forall n, k, i | n in f.Keys && k in f.Keys && At(m, f, n, i) && At(m, f, k, i) ensures n == k {
      assert n != k ==> Apart(f[n], CopySlots(m[n]), f[k], CopySlots(m[k]));
    }
  }

  /** Every slot from lo on is one of a copy. */
  lemma Filled(m: seq<Node>, lo: nat, m': seq<Node>, idx: nat, f: map<nat, nat>, i: nat) returns (n: nat)
    requires Isomorphic(m, lo, m', idx, f) && idx == lo + Size(m, f.Keys) && lo <= i < idx
    ensures At(m, f, n, i)
  {
    hide Isomorphic, Size, At;
    CopiesDisjoint(m, lo, m', idx, f);
    var slots := SlotsTaken(m, f, f.Keys);
    BetweenSize(lo, idx);
    assert slots <= Between(lo, idx);
    SubsetSize(slots, Between(lo, idx));
    assert i in slots;
    n :| n in f.Keys && At(m, f, n, i);
  }

  /** Behind each copy there is another one, or the next free slot. */
  lemma NextCopy(m: seq<Node>, lo: nat, m': seq<Node>, idx: nat, f: map<nat, nat>, n: nat)
    requires Isomorphic(m, lo, m', idx, f) && idx == lo + Size(m, f.Keys) && n in f
    ensures n < |m| && NextAt(f, idx, f[n] + CopySlots(m[n]))
  {
    hide Size, CopySlots;
    var end := f[n] + CopySlots(m[n]);
    CopyTakes(m[n]);
    if end < idx {
      var k := Filled(m, lo, m', idx, f, end);
      assert Apart(f[n], CopySlots(m[n]), f[k], CopySlots(m[k]));
      assert f[k] in f.Values;
    }
  }

  lemma CopyTakes(n: Node)
    ensures CopySlots(n) >= 1
  {
  }

  // ----- bytes -----

  /** So many slots of 16 bytes, of which a text has 8 in the first one, just hold the bytes: one slot less would
      not. */
  predicate JustHold(slots: int, bytes: nat) {
    16 * (slots - 1) < bytes + 8 <= 16 * slots
  }

  /** The slots of an allocation just hold the text with the 0 that ends it. */
  lemma NewSlotsHold(o: Op, u: Types)
    ensures IsText(o) && u.Chars? ==> JustHold(NewSlots(o, u), |u.str| + 1)
    ensures !IsText(o) ==> NewSlots(o, u) == 1
  {
  }

  /** Behind the copy of a text with a slot more than just hold it, and behind that of any other node, there is the
      next copy or the next free slot. */
  ghost predicate Dense(m: seq<Node>, f: map<nat, nat>, idx: nat) {
    forall n :: n in f && n < |m| ==>
      if IsText(m[n].op) && m[n].u.Chars?
      then exists k: nat :: TextEnds(f, idx, f[n], m[n].u, k)
      else NextAt(f, idx, f[n] + 1)
  }

  /** The copy of a text at `at` has one slot more than the k that just hold its bytes. */
  ghost predicate TextEnds(f: map<nat, nat>, idx: nat, at: nat, u: Types, k: nat)
    requires u.Chars?
  {
    JustHold(k, |u.str| + 1) && NextAt(f, idx, at + k + 1)
  }

  ghost predicate NextAt(f: map<nat, nat>, idx: nat, i: nat) {
    i == idx || i in f.Values
  }

  lemma CopiesDense(m: seq<Node>, lo: nat, m': seq<Node>, idx: nat, f: map<nat, nat>)
    requires Isomorphic(m, lo, m', idx, f) && idx == lo + Size(m, f.Keys)
    ensures Dense(m, f, idx)
  {
    hide Isomorphic, Size;
    forall n | n in f && n < |m|
      ensures if IsText(m[n].op) && m[n].u.Chars?
              then exists k: nat :: TextEnds(f, idx, f[n], m[n].u, k)
              else NextAt(f, idx, f[n] + 1)
    {
      ProperAt(m, lo, m', idx, f, n);
      NextCopy(m, lo, m', idx, f, n);
      if IsText(m[n].op) && m[n].u.Chars? {
        var k := CopySlots(m[n]) - 1;
        assert TextEnds(f, idx, f[n], m[n].u, k);
      }
    }
  }

  lemma ProperAt(m: seq<Node>, lo: nat, m': seq<Node>, idx: nat, f: map<nat, nat>, n: nat)
    requires Isomorphic(m, lo, m', idx, f) && n in f
    ensures n < |m| && Proper(m[n])
  {
  }
}
