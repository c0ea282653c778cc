/** The table of khashl as plain sequences: one mark and one bucket per position, linear probing from a
    multiplicative home position, and the lemmas about the writes that insertion, backward-shift deletion
    and rehash do. */
module LinearProbing {
  import KhashTheory

  datatype Bucket<K, V> = Bucket(key: K, val: V)

  function Pow2(b: nat): (r: nat)
    ensures r > 0
  {
    if b == 0 then 1 else 2 * Pow2(b - 1)
  }

  lemma {:induction false} Pow2Add(a: nat, b: nat)
    ensures Pow2(a) * Pow2(b) == Pow2(a + b)
    decreases a
  {
    if a > 0 {
      Pow2Add(a - 1, b);
    }
  }

  lemma Pow2Of32()
    ensures Pow2(32) == 0x1_0000_0000
  {
    assert Pow2(8) == 256;
    Pow2Add(8, 8);
    Pow2Add(16, 16);
  }

  lemma {:induction false} Pow2Mono(a: nat, b: nat)
    requires a <= b
    ensures Pow2(a) <= Pow2(b)
    decreases b
  {
    if a < b {
      Pow2Mono(a, b - 1);
    }
  }

  /** The home of a hash value: the top bits of its product with 2654435769, in 32-bit words. */
  function HomeOf(hash: nat, bits: nat): (r: nat)
    requires bits <= 32
    ensures r < Pow2(bits)
  {
    var x := hash * 2654435769 % 0x1_0000_0000;
    TopBits(x, bits);
    x / Pow2(32 - bits)
  }

  lemma TopBits(x: nat, bits: nat)
    requires bits <= 32 && x < 0x1_0000_0000
    ensures 0 <= x / Pow2(32 - bits) < Pow2(bits)
  {
    Pow2Of32();
    Pow2Add(bits, 32 - bits);
    DivLess(x, Pow2(32 - bits), Pow2(bits));
  }

  lemma DivLess(x: nat, p: nat, q: nat)
    requires p > 0 && x < q * p
    ensures 0 <= x / p < q
  {
    var d := x / p;
    assert x == d * p + x % p;
    if d >= q {
      MulMono(q, d, p);
    }
  }

  lemma MulMono(a: nat, b: nat, p: nat)
    requires a <= b
    ensures a * p <= b * p
  {
  }

  // ----- positions on a cycle of n -----

  function At(h: nat, d: nat, n: nat): (i: nat)
    requires h < n && d < n
    ensures i < n
  {
    if h + d < n then h + d else h + d - n
  }

  /** The steps from position h to position i. */
  function Off(h: nat, i: nat, n: nat): (d: nat)
    requires h < n && i < n
    ensures d < n && At(h, d, n) == i
  {
    if i >= h then i - h else i + n - h
  }

  lemma NextIs(i: nat, n: nat)
    requires i < n
    ensures (i + 1) % n == if i + 1 == n then 0 else i + 1
  {
  }

  // ----- the map that the used buckets form -----

  ghost predicate Stored<K, V>(used: seq<bool>, b: seq<Bucket<K, V>>, k: K, i: int) {
    0 <= i < |used| && i < |b| && used[i] && b[i].key == k
  }

  /** The used buckets are exactly the entries of m, one bucket each. */
  ghost predicate Forms<K, V>(used: seq<bool>, b: seq<Bucket<K, V>>, m: map<K, V>) {
    && |used| <= |b|
    && (forall i :: 0 <= i < |used| && used[i] ==> b[i].key in m && m[b[i].key] == b[i].val)
    && (forall k :: k in m ==> exists i :: Stored(used, b, k, i))
    && (forall i, j :: 0 <= i < |used| && 0 <= j < |used| && used[i] && used[j] && b[i].key == b[j].key ==> i == j)
  }

  /** Every position from h up to i is used. */
  ghost predicate Path(used: seq<bool>, h: nat, i: nat)
    requires h < |used| && i < |used|
  {
    forall d :: 0 <= d < Off(h, i, |used|) ==> used[At(h, d, |used|)]
  }

  ghost predicate Searchable<K, V>(hash: K -> nat, bits: nat, used: seq<bool>, b: seq<Bucket<K, V>>) {
    && bits <= 32 && |used| == Pow2(bits) <= |b|
    && forall i :: 0 <= i < |used| && used[i] ==> Path(used, HomeOf(hash(b[i].key), bits), i)
  }

  ghost function UsedSet(used: seq<bool>): (s: set<nat>)
    ensures forall i: int :: i in s <==> 0 <= i < |used| && used[i]
  {
    set i: nat | i < |used| && used[i]
  }

  /** There are as many entries as used buckets. */
  lemma FormsSize<K, V>(used: seq<bool>, b: seq<Bucket<K, V>>, m: map<K, V>)
    requires Forms(used, b, m)
    ensures |UsedSet(used)| == |m|
  {
    KhashTheory.ImageSize(UsedSet(used), Keys(b));
    UsedKeys(used, b, m);
    assert |m| == |m.Keys|;
  }

  ghost function Keys<K, V>(b: seq<Bucket<K, V>>): (s: seq<K>)
    ensures |s| == |b| && forall i :: 0 <= i < |b| ==> s[i] == b[i].key
  {
    seq(|b|, i requires 0 <= i < |b| => b[i].key)
  }

  lemma UsedKeys<K, V>(used: seq<bool>, b: seq<Bucket<K, V>>, m: map<K, V>)
    requires Forms(used, b, m)
    ensures m.Keys == set i | i in UsedSet(used) :: Keys(b)[i]
  {
    var image := set i | i in UsedSet(used) :: Keys(b)[i];
    forall k | k in m.Keys ensures k in image {
      var i :| Stored(used, b, k, i);
      assert i in UsedSet(used) && Keys(b)[i] == k;
    }
    forall k | k in image ensures k in m.Keys {
      var i :| i in UsedSet(used) && Keys(b)[i] == k;
    }
  }

  /** A table with fewer entries than positions has an unused one. */
  lemma UnusedExists<K, V>(used: seq<bool>, b: seq<Bucket<K, V>>, m: map<K, V>) returns (u: nat)
    requires Forms(used, b, m) && |m| < |used|
    ensures u < |used| && !used[u]
  {
    FormsSize(used, b, m);
    u := UnusedIn(used);
  }

  lemma UnusedIn(used: seq<bool>) returns (u: nat)
    requires |UsedSet(used)| < |used|
    ensures u < |used| && !used[u]
  {
    if forall i: nat :: i < |used| ==> i in UsedSet(used) {
      KhashTheory.AllBelow(UsedSet(used), |used|);
    }
    u :| u < |used| && u !in UsedSet(used);
  }

  // ----- searching -----

  /** The first d positions from h are used by other keys. */
  ghost predicate PassedTo<K, V>(used: seq<bool>, b: seq<Bucket<K, V>>, key: K, h: nat, d: nat) {
    && h < |used| <= |b| && d <= |used|
    && forall e :: 0 <= e < d ==> used[At(h, e, |used|)] && b[At(h, e, |used|)].key != key
  }

  /** An unused position, or a full turn, ends the search of an absent key. */
  lemma SearchEnds<K, V>(hash: K -> nat, bits: nat, used: seq<bool>, b: seq<Bucket<K, V>>, m: map<K, V>, key: K, d: nat)
    requires Forms(used, b, m) && Searchable(hash, bits, used, b)
    requires PassedTo(used, b, key, HomeOf(hash(key), bits), d)
    requires d == |used| || !used[At(HomeOf(hash(key), bits), d, |used|)]
    ensures key !in m
  {
    hide HomeOf;
    forall i | 0 <= i < |used| && used[i] ensures b[i].key != key {
      if b[i].key == key {
        assert Path(used, HomeOf(hash(b[i].key), bits), i);
        NotHere(used, b, key, HomeOf(hash(key), bits), d, i);
      }
    }
  }

  lemma NotHere<K, V>(used: seq<bool>, b: seq<Bucket<K, V>>, key: K, h: nat, d: nat, i: nat)
    requires PassedTo(used, b, key, h, d) && (d == |used| || !used[At(h, d, |used|)])
    requires i < |used| && used[i] && Path(used, h, i)
    ensures b[i].key != key
  {
    assert At(h, Off(h, i, |used|), |used|) == i;
  }

  /** Entering an absent key in the unused position where its search ended. */
  lemma Enter<K, V>(hash: K -> nat, bits: nat, used: seq<bool>, b: seq<Bucket<K, V>>, m: map<K, V>, e: Bucket<K, V>, x: nat)
    requires Forms(used, b, m) && Searchable(hash, bits, used, b) && e.key !in m
    requires x < |used| && !used[x] && Path(used, HomeOf(hash(e.key), bits), x)
    ensures Forms(used[x := true], b[x := e], m[e.key := e.val])
    ensures Searchable(hash, bits, used[x := true], b[x := e])
  {
    FormsEnter(used, b, m, e, x);
    SearchEnter(hash, bits, used, b, e, x);
  }

  lemma SearchEnter<K, V>(hash: K -> nat, bits: nat, used: seq<bool>, b: seq<Bucket<K, V>>, e: Bucket<K, V>, x: nat)
    requires Searchable(hash, bits, used, b)
    requires x < |used| && !used[x] && Path(used, HomeOf(hash(e.key), bits), x)
    ensures Searchable(hash, bits, used[x := true], b[x := e])
  {
    hide HomeOf;
    var used', b' := used[x := true], b[x := e];
    forall i | 0 <= i < |used'| && used'[i] ensures Path(used', HomeOf(hash(b'[i].key), bits), i) {
      assert i != x ==> Path(used, HomeOf(hash(b[i].key), bits), i);
    }
  }

  /** Writing an entry to a free position, which then is used. */
  lemma FormsEnter<K, V>(used: seq<bool>, b: seq<Bucket<K, V>>, m: map<K, V>, e: Bucket<K, V>, x: nat)
    requires Forms(used, b, m) && e.key !in m && x < |used| && !used[x]
    ensures Forms(used[x := true], b[x := e], m[e.key := e.val])
  {
    var used', b', m' := used[x := true], b[x := e], m[e.key := e.val];
    forall k | k in m' ensures exists i :: Stored(used', b', k, i) {
      if k == e.key {
        assert Stored(used', b', k, x);
      } else {
        var i :| Stored(used, b, k, i);
        assert Stored(used', b', k, i);
      }
    }
  }

  /** Giving up a position removes its entry, whatever is written there. */
  lemma FormsLeave<K, V>(used: seq<bool>, b: seq<Bucket<K, V>>, m: map<K, V>, x: nat)
    requires Forms(used, b, m) && x < |used| && used[x]
    ensures Forms(used[x := false], b, m - {b[x].key})
  {
    var used', m' := used[x := false], m - {b[x].key};
    forall k | k in m' ensures exists i :: Stored(used', b, k, i) {
      var i :| Stored(used, b, k, i);
      assert Stored(used', b, k, i);
    }
  }

  // ----- backward-shift deletion -----

  /** Position i is the hole of a deletion that has looked as far as j: only entries beyond j may have the
      hole between their home and themselves. */
  ghost predicate Hole<K, V>(hash: K -> nat, bits: nat, used: seq<bool>, b: seq<Bucket<K, V>>, i: nat, j: nat) {
    && bits <= 32 && |used| == Pow2(bits) == |b| && i < |used| && j < |used| && used[i] && used[j]
    && forall p: nat :: p < |used| && used[p] && p != i ==> NearPath(used, HomeOf(hash(b[p].key), bits), p, i, j)
  }

  ghost predicate NearPath(used: seq<bool>, h: nat, p: nat, i: nat, j: nat)
    requires h < |used| && p < |used| && i < |used| && j < |used|
  {
    && Path(used, h, p)
    && (OnWay(h, i, p, |used|) ==> Off(i, p, |used|) > Off(i, j, |used|))
  }

  /** Position i lies on the way from h to p. */
  predicate OnWay(h: nat, i: nat, p: nat, n: nat)
    requires h < n && i < n && p < n
  {
    Off(h, i, n) < Off(h, p, n)
  }

  /** The two cyclic ranges that the deletion tests are those where the hole is on the way. */
  lemma MoveTest(h: nat, i: nat, j: nat, n: nat)
    requires h < n && i < n && j < n && i != j
    ensures OnWay(h, i, j, n) <==> (j > i && (h <= i || h > j)) || (j < i && h <= i && h > j)
  {
  }

  lemma HoleStart<K, V>(hash: K -> nat, bits: nat, used: seq<bool>, b: seq<Bucket<K, V>>, i: nat)
    requires Searchable(hash, bits, used, b) && |b| == |used| && i < |used| && used[i]
    ensures Hole(hash, bits, used, b, i, i)
  {
    hide HomeOf;
    forall p: nat | p < |used| && used[p] && p != i ensures NearPath(used, HomeOf(hash(b[p].key), bits), p, i, i) {
      assert Path(used, HomeOf(hash(b[p].key), bits), p);
    }
  }

  /** An entry that does not need the hole stays. */
  lemma HoleStay<K, V>(hash: K -> nat, bits: nat, used: seq<bool>, b: seq<Bucket<K, V>>, i: nat, j: nat)
    requires Hole(hash, bits, used, b, i, j)
    requires var j' := (j + 1) % |used|; used[j'] && j' != i && !OnWay(HomeOf(hash(b[j'].key), bits), i, j', |used|)
    ensures Hole(hash, bits, used, b, i, (j + 1) % |used|)
  {
    hide HomeOf;
    NextIs(j, |used|);
    var j' := (j + 1) % |used|;
    forall p: nat | p < |used| && used[p] && p != i ensures NearPath(used, HomeOf(hash(b[p].key), bits), p, i, j') {
      assert NearPath(used, HomeOf(hash(b[p].key), bits), p, i, j);
    }
  }

  /** An entry that needs the hole moves into it and leaves a hole behind. */
  lemma HoleMove<K, V>(hash: K -> nat, bits: nat, used: seq<bool>, b: seq<Bucket<K, V>>, i: nat, j: nat)
    requires Hole(hash, bits, used, b, i, j)
    requires var j' := (j + 1) % |used|; used[j'] && j' != i && OnWay(HomeOf(hash(b[j'].key), bits), i, j', |used|)
    ensures var j' := (j + 1) % |used|; Hole(hash, bits, used, b[i := b[j']], j', j')
  {
    hide HomeOf;
    NextIs(j, |used|);
    var j' := (j + 1) % |used|;
    var b' := b[i := b[j']];
    forall p: nat | p < |used| && used[p] && p != j' ensures NearPath(used, HomeOf(hash(b'[p].key), bits), p, j', j') {
      if p == i {
        var h := HomeOf(hash(b[j'].key), bits);
        assert NearPath(used, h, j', i, j);
        forall d | 0 <= d < Off(h, i, |used|) ensures used[At(h, d, |used|)] {
        }
      } else {
        assert NearPath(used, HomeOf(hash(b[p].key), bits), p, i, j);
      }
    }
  }

  /** At an unused position, or after a full turn, nothing needs the hole any more. */
  lemma HoleDone<K, V>(hash: K -> nat, bits: nat, used: seq<bool>, b: seq<Bucket<K, V>>, i: nat, j: nat)
    requires Hole(hash, bits, used, b, i, j)
    requires (j + 1) % |used| == i || !used[(j + 1) % |used|]
    ensures Searchable(hash, bits, used[i := false], b)
  {
    hide HomeOf;
    NextIs(j, |used|);
    var j' := (j + 1) % |used|;
    var used' := used[i := false];
    forall p | 0 <= p < |used'| && used'[p] ensures Path(used', HomeOf(hash(b[p].key), bits), p) {
      var h, n := HomeOf(hash(b[p].key), bits), |used|;
      assert NearPath(used, h, p, i, j);
      NotOnWay(used, h, i, j, p);
    }
  }

  lemma NotOnWay(used: seq<bool>, h: nat, i: nat, j: nat, p: nat)
    requires h < |used| && i < |used| && j < |used| && p < |used| && used[p] && NearPath(used, h, p, i, j)
    requires var j' := if j + 1 == |used| then 0 else j + 1; j' == i || !used[j']
    ensures !OnWay(h, i, p, |used|)
  {
    if OnWay(h, i, p, |used|) {
      OnWayPast(h, i, j, p, |used|);
    }
  }

  lemma OnWayPast(h: nat, i: nat, j: nat, p: nat, n: nat)
    requires h < n && i < n && j < n && p < n
    requires OnWay(h, i, p, n) && Off(i, p, n) > Off(i, j, n)
    ensures var j' := if j + 1 == n then 0 else j + 1; j' != i && (j' == p || OnWay(h, j', p, n))
  {
  }

  /** Moving an entry into the hole keeps the entries. */
  lemma FormsMove<K, V>(used: seq<bool>, b: seq<Bucket<K, V>>, m: map<K, V>, i: nat, j: nat)
    requires i < |used| && j < |used| && used[i] && used[j] && i != j
    requires Forms(used[i := false], b, m)
    ensures Forms(used[j := false], b[i := b[j]], m)
  {
    FormsLeave(used[i := false], b, m, j);
    var hole := used[i := false][j := false];
    FormsEnter(hole, b, m - {b[j].key}, b[j], i);
    assert hole[i := true] == used[j := false];
    assert (m - {b[j].key})[b[j].key := b[j].val] == m;
  }

  // ----- rehash -----

  /** The positions used under the old or the new marks. */
  ghost function Either(oldu: seq<bool>, newu: seq<bool>, n: nat): (u: seq<bool>)
    ensures |u| == n
  {
    seq(n, i requires 0 <= i < n => (i < |oldu| && oldu[i]) || (i < |newu| && newu[i]))
  }

  /** A table in the middle of a rehash: no position is used under both marks, those used under either form
      m, and those under the new marks can be found from their new homes. */
  ghost predicate Rehashing<K, V>(hash: K -> nat, bits: nat, oldu: seq<bool>, newu: seq<bool>, b: seq<Bucket<K, V>>,
                                  m: map<K, V>)
  {
    && |oldu| <= |b| && Searchable(hash, bits, newu, b)
    && (forall i :: 0 <= i < |oldu| && i < |newu| && oldu[i] ==> !newu[i])
    && Forms(Either(oldu, newu, |b|), b, m)
  }

  lemma PickUp<K, V>(hash: K -> nat, bits: nat, oldu: seq<bool>, newu: seq<bool>, b: seq<Bucket<K, V>>, m: map<K, V>, j: nat)
    requires Rehashing(hash, bits, oldu, newu, b, m) && j < |oldu| && oldu[j] && j < |b|
    ensures Rehashing(hash, bits, oldu[j := false], newu, b, m - {b[j].key})
    ensures b[j].key in m && m[b[j].key] == b[j].val
  {
    hide Forms, Searchable;
    FormsAt(Either(oldu, newu, |b|), b, m, j);
    FormsLeave(Either(oldu, newu, |b|), b, m, j);
    assert Either(oldu[j := false], newu, |b|) == Either(oldu, newu, |b|)[j := false];
  }

  lemma FormsAt<K, V>(used: seq<bool>, b: seq<Bucket<K, V>>, m: map<K, V>, i: nat)
    requires Forms(used, b, m) && i < |used| && used[i]
    ensures i < |b| && b[i].key in m && m[b[i].key] == b[i].val
  {
  }

  lemma PutDown<K, V>(hash: K -> nat, bits: nat, oldu: seq<bool>, newu: seq<bool>, b: seq<Bucket<K, V>>, m: map<K, V>,
                      e: Bucket<K, V>, i: nat)
    requires Rehashing(hash, bits, oldu, newu, b, m) && e.key !in m && bits <= 32 && |newu| == Pow2(bits) <= |b|
    requires i < |newu| && !newu[i] && (i < |oldu| ==> !oldu[i]) && Path(newu, HomeOf(hash(e.key), bits), i)
    ensures Rehashing(hash, bits, oldu, newu[i := true], b[i := e], m[e.key := e.val])
  {
    hide Forms, Searchable, HomeOf, Path;
    SearchEnter(hash, bits, newu, b, e, i);
    FormsEnter(Either(oldu, newu, |b|), b, m, e, i);
    assert Either(oldu, newu[i := true], |b|) == Either(oldu, newu, |b|)[i := true];
  }

  /** Settling a carried entry where an old one lies frees the old one for its own move. */
  lemma KickOut<K, V>(hash: K -> nat, bits: nat, oldu: seq<bool>, newu: seq<bool>, b: seq<Bucket<K, V>>, all: map<K, V>,
                      e: Bucket<K, V>, i: nat)
    requires e.key in all && all[e.key] == e.val && bits <= 32 && |newu| == Pow2(bits) <= |b|
    requires Rehashing(hash, bits, oldu, newu, b, all - {e.key})
    requires i < |newu| && !newu[i] && Path(newu, HomeOf(hash(e.key), bits), i)
    ensures i < |oldu| && oldu[i] ==>
              && b[i].key in all && all[b[i].key] == b[i].val
              && Rehashing(hash, bits, oldu[i := false], newu[i := true], b[i := e], all - {b[i].key})
    ensures !(i < |oldu| && oldu[i]) ==> Rehashing(hash, bits, oldu, newu[i := true], b[i := e], all)
  {
    hide Rehashing, HomeOf, Path;
    var m := all - {e.key};
    if i < |oldu| && oldu[i] {
      PickUp(hash, bits, oldu, newu, b, m, i);
      PutDown(hash, bits, oldu[i := false], newu, b, m - {b[i].key}, e, i);
      assert (m - {b[i].key})[e.key := e.val] == all - {b[i].key};
    } else {
      PutDown(hash, bits, oldu, newu, b, m, e, i);
      assert m[e.key := e.val] == all;
    }
  }

  lemma SubsetSize(s: set<nat>, t: set<nat>)
    requires s <= t
    ensures |s| <= |t|
  {
    var rest := t - s;
    assert t == s + rest;
  }

  /** While an entry is carried, a position is left for it. */
  lemma RoomForHand<K, V>(hash: K -> nat, bits: nat, oldu: seq<bool>, newu: seq<bool>, b: seq<Bucket<K, V>>, m: map<K, V>)
    returns (u: nat)
    requires Rehashing(hash, bits, oldu, newu, b, m) && |m| < |newu|
    ensures u < |newu| && !newu[u]
  {
    FormsSize(Either(oldu, newu, |b|), b, m);
    SubsetSize(UsedSet(newu), UsedSet(Either(oldu, newu, |b|)));
    u := UnusedIn(newu);
  }

  lemma RehashStart<K, V>(hash: K -> nat, bits: nat, oldu: seq<bool>, newu: seq<bool>, b: seq<Bucket<K, V>>,
                          b': seq<Bucket<K, V>>, m: map<K, V>)
    requires Forms(oldu, b, m) && |oldu| <= |b'| && forall i :: 0 <= i < |oldu| ==> b'[i] == b[i]
    requires bits <= 32 && |newu| == Pow2(bits) <= |b'| && forall i :: 0 <= i < |newu| ==> !newu[i]
    ensures Rehashing(hash, bits, oldu, newu, b', m)
  {
    var u := Either(oldu, newu, |b'|);
    forall k | k in m ensures exists i :: Stored(u, b', k, i) {
      var i :| Stored(oldu, b, k, i);
      assert Stored(u, b', k, i);
    }
  }

  lemma RehashEnd<K, V>(hash: K -> nat, bits: nat, oldu: seq<bool>, newu: seq<bool>, b: seq<Bucket<K, V>>,
                        b': seq<Bucket<K, V>>, m: map<K, V>)
    requires Rehashing(hash, bits, oldu, newu, b, m) && forall i :: 0 <= i < |oldu| ==> !oldu[i]
    requires |newu| <= |b'| && |newu| <= |b| && forall i :: 0 <= i < |newu| ==> b'[i] == b[i]
    ensures Forms(newu, b', m) && Searchable(hash, bits, newu, b')
  {
    hide Searchable, Forms;
    SearchSame(hash, bits, newu, b, b');
    FormsEnd(oldu, newu, b, b', m);
  }

  lemma SearchSame<K, V>(hash: K -> nat, bits: nat, used: seq<bool>, b: seq<Bucket<K, V>>, b': seq<Bucket<K, V>>)
    requires Searchable(hash, bits, used, b) && |used| <= |b'| && |used| <= |b|
    requires forall i :: 0 <= i < |used| ==> b'[i] == b[i]
    ensures Searchable(hash, bits, used, b')
  {
    hide Path, HomeOf;
  }

  lemma FormsEnd<K, V>(oldu: seq<bool>, newu: seq<bool>, b: seq<Bucket<K, V>>, b': seq<Bucket<K, V>>, m: map<K, V>)
    requires Forms(Either(oldu, newu, |b|), b, m) && forall i :: 0 <= i < |oldu| ==> !oldu[i]
    requires |newu| <= |b'| && |newu| <= |b| && forall i :: 0 <= i < |newu| ==> b'[i] == b[i]
    ensures Forms(newu, b', m)
  {
    var u := Either(oldu, newu, |b|);
    assert forall i :: 0 <= i < |newu| && newu[i] ==> u[i];
    forall k | k in m ensures exists i :: Stored(newu, b', k, i) {
      var i :| Stored(u, b, k, i);
      assert Stored(newu, b', k, i);
    }
  }

  lemma LessOne<K, V>(m: map<K, V>, k: K)
    requires k in m
    ensures |m - {k}| == |m| - 1
  {
    assert (m - {k}).Keys == m.Keys - {k};
    assert |m.Keys| == |m| && |(m - {k}).Keys| == |m - {k}|;
  }
}
