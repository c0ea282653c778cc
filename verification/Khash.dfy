/** The open-addressing table of khash: packed marks, triangular probing, tombstones, and a rehash that
    moves the entries inside the arrays they already occupy. */
module Khash {
  import opened Probing
  import opened PackedFlags
  import opened KhashTheory

  /** The smallest power of two that is at least x, in 32-bit words: 0 where none fits, and for x == 0. */
  function RoundUp32(x: nat): (r: nat)
    ensures 0 < x <= 0x8000_0000 ==> PowerOfTwo(r) && x <= r < 2 * x && r <= 0x8000_0000
    ensures x == 0 || x > 0x8000_0000 ==> r == 0
  {
    if x == 0 || x > 0x8000_0000 then 0
    else
      var r := PowerFrom(1, x);
      TopPower(r, x);
      r
  }

  lemma Times16(n: nat)
    requires PowerOfTwo(n)
    ensures PowerOfTwo(16 * n)
  {
    hide PowerOfTwo;
    Doubling(n);
    Doubling(2 * n);
    Doubling(4 * n);
    Doubling(8 * n);
  }

  lemma TopIsPower()
    ensures PowerOfTwo(8) && PowerOfTwo(0x8000_0000)
  {
    assert PowerOfTwo(1) && PowerOfTwo(2) && PowerOfTwo(4) && PowerOfTwo(8);
    Times16(8);
    Times16(0x80);
    Times16(0x800);
    Times16(0x8000);
    Times16(0x8_0000);
    Times16(0x80_0000);
    Times16(0x800_0000);
  }

  lemma TopPower(r: nat, x: nat)
    requires PowerOfTwo(r) && x <= r < 2 * x && x <= 0x8000_0000
    ensures r <= 0x8000_0000
  {
    if r > 0x8000_0000 {
      TopIsPower();
      PowerUnique(0x8000_0000, r, r / 2 + 1);
    }
  }

  function PowerFrom(p: nat, x: nat): (r: nat)
    requires PowerOfTwo(p) && p < 2 * x
    ensures PowerOfTwo(r) && x <= r < 2 * x
    decreases 2 * x - p
  {
    if p >= x then p else Doubling(p); PowerFrom(2 * p, x)
  }

  /** Between x and 2x lies at most one power of two. */
  lemma {:induction false} PowerUnique(p: nat, q: nat, x: nat)
    requires PowerOfTwo(p) && PowerOfTwo(q) && x <= p < 2 * x && x <= q < 2 * x
    ensures p == q
    decreases p
  {
    if p > 1 && q > 1 {
      PowerUnique(p / 2, q / 2, (x + 1) / 2);
    }
  }

  /** all is made of a, b and c, which share no key. */
  ghost predicate Split<K, V>(a: map<K, V>, b: map<K, V>, c: map<K, V>, all: map<K, V>) {
    a.Keys !! b.Keys && a.Keys !! c.Keys && b.Keys !! c.Keys && a + b + c == all
  }

  lemma SplitTake<K, V>(a: map<K, V>, b: map<K, V>, c: map<K, V>, all: map<K, V>, k: K)
    requires Split(a, b, c, all) && k in a
    ensures Split(a - {k}, b, c[k := a[k]], all)
  {
    assert (a - {k}) + b + c[k := a[k]] == a + b + c;
  }

  lemma SplitGive<K, V>(a: map<K, V>, b: map<K, V>, c: map<K, V>, all: map<K, V>, k: K)
    requires Split(a, b, c, all) && k in c
    ensures Split(a, b[k := c[k]], c - {k}, all)
  {
    assert a + b[k := c[k]] + (c - {k}) == a + b + c;
  }

  /** The marks of a table in the middle of a rehash: a bucket is never live under both. */
  ghost predicate Layout<K, V>(hash: K -> nat, oldm: seq<Mark>, newm: seq<Mark>, keys: seq<K>, vals: seq<V>) {
    && Shaped(oldm, keys, vals) && Shaped(newm, keys, vals) && PowerOfTwo(|newm|)
    && Distinct(oldm, keys) && Distinct(newm, keys) && Searchable(hash, newm, keys)
    && (forall i :: 0 <= i < |newm| ==> newm[i].Live? || newm[i].Empty?)
    && (forall i :: 0 <= i < |oldm| && i < |newm| && oldm[i].Live? ==> newm[i].Empty?)
  }

  /** The entries of a table in the middle of a rehash: those still under their old marks, those already
      under their new marks, and those being carried; together they are all the entries, each once. */
  ghost predicate Rehashing<K, V>(hash: K -> nat, oldm: seq<Mark>, newm: seq<Mark>, keys: seq<K>, vals: seq<V>,
                                  hand: map<K, V>, all: map<K, V>)
  {
    && Layout(hash, oldm, newm, keys, vals)
    && Split(Contents(oldm, keys, vals), Contents(newm, keys, vals), hand, all)
  }

  lemma PickUp<K, V>(hash: K -> nat, oldm: seq<Mark>, newm: seq<Mark>, keys: seq<K>, vals: seq<V>,
                     hand: map<K, V>, all: map<K, V>, j: nat)
    requires Rehashing(hash, oldm, newm, keys, vals, hand, all)
    requires j < |oldm| && oldm[j].Live? && j < |keys| && j < |vals|
    ensures Rehashing(hash, oldm[j := Deleted], newm, keys, vals, hand[keys[j] := vals[j]], all)
    ensures keys[j] !in hand
  {
    SplitTake(Contents(oldm, keys, vals), Contents(newm, keys, vals), hand, all, keys[j]);
    RemoveEntry(oldm, keys, vals, j);
  }

  lemma PutDownLayout<K, V>(hash: K -> nat, oldm: seq<Mark>, newm: seq<Mark>, keys: seq<K>, vals: seq<V>,
                            key: K, val: V, i: nat)
    requires Layout(hash, oldm, newm, keys, vals) && key !in Contents(newm, keys, vals)
    requires i < |newm| && newm[i].Empty? && OnPath(newm, hash(key), i)
    requires i < |oldm| ==> !oldm[i].Live?
    ensures Layout(hash, oldm, newm[i := Live], keys[i := key], vals[i := val])
    ensures Contents(oldm, keys[i := key], vals[i := val]) == Contents(oldm, keys, vals)
    ensures Contents(newm[i := Live], keys[i := key], vals[i := val]) == Contents(newm, keys, vals)[key := val]
  {
    hide Contents, Distinct, Searchable;
    InsertEntry(hash, newm, keys, vals, key, i, val);
    WriteElsewhere(oldm, keys, vals, i, key, val);
  }

  lemma PutDown<K, V>(hash: K -> nat, oldm: seq<Mark>, newm: seq<Mark>, keys: seq<K>, vals: seq<V>,
                      hand: map<K, V>, all: map<K, V>, key: K, i: nat)
    requires Rehashing(hash, oldm, newm, keys, vals, hand, all) && key in hand
    requires i < |newm| && newm[i].Empty? && OnPath(newm, hash(key), i)
    requires i < |oldm| ==> !oldm[i].Live?
    ensures Rehashing(hash, oldm, newm[i := Live], keys[i := key], vals[i := hand[key]], hand - {key}, all)
  {
    SplitGive(Contents(oldm, keys, vals), Contents(newm, keys, vals), hand, all, key);
    PutDownLayout(hash, oldm, newm, keys, vals, key, hand[key], i);
  }

  lemma Swap<K, V>(k: K, v: V, k': K, v': V)
    requires k != k'
    ensures map[k := v][k' := v'][k] == v
    ensures map[k := v][k' := v'] - {k} == map[k' := v']
  {
  }

  /** Kicking out the entry of bucket i is picking it up and putting the carried one down in its place. */
  lemma KickOut<K, V>(hash: K -> nat, oldm: seq<Mark>, newm: seq<Mark>, keys: seq<K>, vals: seq<V>,
                      key: K, val: V, all: map<K, V>, i: nat)
    requires Rehashing(hash, oldm, newm, keys, vals, map[key := val], all)
    requires i < |newm| && newm[i].Empty? && OnPath(newm, hash(key), i)
    requires i < |oldm| && oldm[i].Live?
    ensures Rehashing(hash, oldm[i := Deleted], newm[i := Live], keys[i := key], vals[i := val],
                      map[keys[i] := vals[i]], all)
  {
    PickUp(hash, oldm, newm, keys, vals, map[key := val], all, i);
    var both := map[key := val][keys[i] := vals[i]];
    Swap(key, val, keys[i], vals[i]);
    PutDown(hash, oldm[i := Deleted], newm, keys, vals, both, all, key, i);
  }

  /** While an entry is carried, the new marks have room for it. */
  lemma RoomForHand<K, V>(hash: K -> nat, oldm: seq<Mark>, newm: seq<Mark>, keys: seq<K>, vals: seq<V>,
                          key: K, val: V, all: map<K, V>)
    requires Rehashing(hash, oldm, newm, keys, vals, map[key := val], all)
    requires |all| <= |newm|
    ensures |FilledSet(newm)| < |newm|
  {
    hide Searchable, Distinct;
    var cn := Contents(newm, keys, vals);
    ContentsSize(newm, keys, vals);
    assert FilledSet(newm) == LiveSet(newm);
    SplitLess(Contents(oldm, keys, vals), cn, map[key := val], all, key);
  }

  lemma RehashingShape<K, V>(hash: K -> nat, oldm: seq<Mark>, newm: seq<Mark>, keys: seq<K>, vals: seq<V>,
                             hand: map<K, V>, all: map<K, V>)
    requires Rehashing(hash, oldm, newm, keys, vals, hand, all)
    ensures PowerOfTwo(|newm|) && forall b :: 0 <= b < |newm| ==> newm[b] != Both
  {
  }

  /** Only the keys and values below the marks matter. */
  lemma SamePrefix<K, V>(hash: K -> nat, marks: seq<Mark>, keys: seq<K>, vals: seq<V>, keys': seq<K>, vals': seq<V>)
    requires Shaped(marks, keys, vals) && Shaped(marks, keys', vals') && Distinct(marks, keys)
    requires forall i :: 0 <= i < |marks| ==> keys'[i] == keys[i] && vals'[i] == vals[i]
    ensures Distinct(marks, keys') && Contents(marks, keys', vals') == Contents(marks, keys, vals)
    ensures |marks| > 0 && Searchable(hash, marks, keys) ==> Searchable(hash, marks, keys')
  {
    SameLive(marks, keys, vals, keys', vals');
  }

  lemma StartRehash<K, V>(hash: K -> nat, oldm: seq<Mark>, newm: seq<Mark>, keys: seq<K>, vals: seq<V>, all: map<K, V>)
    requires Shaped(oldm, keys, vals) && Shaped(newm, keys, vals) && PowerOfTwo(|newm|)
    requires Distinct(oldm, keys) && Contents(oldm, keys, vals) == all
    requires forall i :: 0 <= i < |newm| ==> newm[i].Empty?
    ensures Rehashing(hash, oldm, newm, keys, vals, map[], all)
  {
    ContentsIs(newm, keys, vals, map[]);
    assert all + map[] + map[] == all;
  }

  lemma EndRehash<K, V>(hash: K -> nat, oldm: seq<Mark>, newm: seq<Mark>, keys: seq<K>, vals: seq<V>, all: map<K, V>)
    requires Rehashing(hash, oldm, newm, keys, vals, map[], all)
    requires forall i :: 0 <= i < |oldm| ==> !oldm[i].Live?
    ensures Shaped(newm, keys, vals) && PowerOfTwo(|newm|) && Distinct(newm, keys) && Searchable(hash, newm, keys)
    ensures forall i :: 0 <= i < |newm| ==> newm[i].Live? || newm[i].Empty?
    ensures Contents(newm, keys, vals) == all
    ensures |LiveSet(newm)| == |FilledSet(newm)| == |all|
  {
    hide Contents, Distinct, Searchable;
    ContentsIs(oldm, keys, vals, map[]);
    var cn := Contents(newm, keys, vals);
    assert map[] + cn + map[] == cn;
    ContentsSize(newm, keys, vals);
    assert FilledSet(newm) == LiveSet(newm);
  }

  lemma Halve(n: nat) returns (m: nat)
    requires PowerOfTwo(n) && n > 1
    ensures PowerOfTwo(m) && n == 2 * m
  {
    m := n / 2;
  }

  lemma CoversFsize(n: nat)
    requires PowerOfTwo(n)
    ensures n <= 16 * Fsize(n)
  {
    if n >= 16 {
      var a := Halve(n);
      var b := Halve(a);
      var c := Halve(b);
      var d := Halve(c);
      assert n == 16 * d;
    }
  }

  lemma FourIsPower()
    ensures PowerOfTwo(4)
  {
    assert PowerOfTwo(1) && PowerOfTwo(2);
  }

  lemma SplitLess<K, V>(a: map<K, V>, b: map<K, V>, c: map<K, V>, all: map<K, V>, k: K)
    requires Split(a, b, c, all) && k in c
    ensures |b| < |all|
  {
    assert k in c.Keys && k !in b;
    SubmapSmaller(b, all, k);
  }

  lemma SubmapSmaller<K, V>(a: map<K, V>, b: map<K, V>, k: K)
    requires a.Keys <= b.Keys && k in b && k !in a
    ensures |a| < |b|
  {
    SubsetSmaller(a.Keys, b.Keys - {k});
    assert |b.Keys - {k}| == |b.Keys| - 1;
    assert |a| == |a.Keys| && |b| == |b.Keys|;
  }

  lemma {:induction false} SubsetSmaller<T>(a: set<T>, b: set<T>)
    requires a <= b
    ensures |a| <= |b|
    decreases |a|
  {
    if a != {} {
      var x :| x in a;
      SubsetSmaller(a - {x}, b - {x});
    }
  }

  /** What holds of the arrays and counters of a table between calls. */
  ghost predicate WellFormed<K, V>(hash: K -> nat, marks: seq<Mark>, keys: seq<K>, vals: seq<V>,
                                   size: nat, occupied: nat, bound: nat)
  {
    var n := |marks|;
    && |keys| == n && |vals| == n
    && Distinct(marks, keys)
    && (forall i :: 0 <= i < n ==> marks[i] != Both)
    && size == |LiveSet(marks)| && occupied == |FilledSet(marks)|
    && occupied <= bound == n / 2 + n / 4
    && (n > 0 ==> 4 <= n <= 0x8000_0000 && PowerOfTwo(n) && Searchable(hash, marks, keys))
  }

  /** Once nothing is live under the old marks, the first newN buckets form a well-formed table. */
  lemma RehashDone<K, V>(hash: K -> nat, oldm: seq<Mark>, newm: seq<Mark>, keys: seq<K>, vals: seq<V>, all: map<K, V>,
                         keys': seq<K>, vals': seq<V>)
    requires Rehashing(hash, oldm, newm, keys, vals, map[], all)
    requires forall i :: 0 <= i < |oldm| ==> !oldm[i].Live?
    requires |keys'| == |vals'| == |newm|
    requires forall i :: 0 <= i < |newm| ==> i < |keys| && i < |vals| && keys'[i] == keys[i] && vals'[i] == vals[i]
    requires 4 <= |newm| <= 0x8000_0000 && |all| < |newm| / 2 + |newm| / 4
    ensures WellFormed(hash, newm, keys', vals', |all|, |all|, |newm| / 2 + |newm| / 4)
    ensures Contents(newm, keys', vals') == all
    ensures forall b :: 0 <= b < |newm| ==> !newm[b].Deleted?
  {
    hide Rehashing, Distinct, Searchable, Contents, LiveSet, FilledSet, PowerOfTwo;
    EndRehash(hash, oldm, newm, keys, vals, all);
    SamePrefix(hash, newm, keys, vals, keys', vals');
  }

  /** A well-formed table, its arrays possibly extended, is the start of a rehash to fresh marks. */
  lemma RehashBegins<K, V>(hash: K -> nat, oldm: seq<Mark>, keys: seq<K>, vals: seq<V>,
                           size: nat, occupied: nat, bound: nat,
                           newm: seq<Mark>, keys': seq<K>, vals': seq<V>)
    requires WellFormed(hash, oldm, keys, vals, size, occupied, bound)
    requires PowerOfTwo(|newm|) && forall i :: 0 <= i < |newm| ==> newm[i].Empty?
    requires |oldm| <= |keys'| == |vals'| && |newm| <= |keys'|
    requires forall i :: 0 <= i < |oldm| ==> keys'[i] == keys[i] && vals'[i] == vals[i]
    ensures Rehashing(hash, oldm, newm, keys', vals', map[], Contents(oldm, keys, vals))
    ensures size == |Contents(oldm, keys, vals)|
  {
    hide Distinct, Searchable, Contents, LiveSet, FilledSet;
    ContentsSize(oldm, keys, vals);
    SamePrefix(hash, oldm, keys, vals, keys', vals');
    StartRehash(hash, oldm, newm, keys', vals', Contents(oldm, keys, vals));
  }

  lemma LiveIsFilled(marks: seq<Mark>)
    ensures |LiveSet(marks)| <= |FilledSet(marks)|
  {
    SubsetSmaller(LiveSet(marks), FilledSet(marks));
  }

  /** Entering an absent key keeps the table well formed; only an empty bucket raises the filled count. */
  lemma PutWellFormed<K, V>(hash: K -> nat, marks: seq<Mark>, keys: seq<K>, vals: seq<V>,
                            size: nat, occupied: nat, bound: nat, key: K, x: nat)
    requires WellFormed(hash, marks, keys, vals, size, occupied, bound) && occupied < bound
    requires x < |marks| && !marks[x].Live? && OnPath(marks, hash(key), x)
    requires key !in Contents(marks, keys, vals)
    ensures WellFormed(hash, marks[x := Live], keys[x := key], vals, size + 1,
                       if marks[x].Deleted? then occupied else occupied + 1, bound)
    ensures Contents(marks[x := Live], keys[x := key], vals) == Contents(marks, keys, vals)[key := vals[x]]
  {
    hide Searchable, Distinct, Contents;
    InsertEntry(hash, marks, keys, vals, key, x, vals[x]);
    assert vals[x := vals[x]] == vals;
    if marks[x].Deleted? {
      assert FilledSet(marks) + {x} == FilledSet(marks);
    }
  }

  /** Removing a live entry keeps the table well formed and leaves a tombstone. */
  lemma DelWellFormed<K, V>(hash: K -> nat, marks: seq<Mark>, keys: seq<K>, vals: seq<V>,
                            size: nat, occupied: nat, bound: nat, x: nat)
    requires WellFormed(hash, marks, keys, vals, size, occupied, bound)
    requires x < |marks| && marks[x].Live?
    ensures size > 0
    ensures WellFormed(hash, marks[x := Deleted], keys, vals, size - 1, occupied, bound)
    ensures Contents(marks[x := Deleted], keys, vals) == Contents(marks, keys, vals) - {keys[x]}
  {
    hide Searchable, Distinct, Contents;
    RemoveEntry(marks, keys, vals, x);
    RemoveKeepsSearch(hash, marks, keys, x);
    RemoveSets(marks, x);
  }

  /** Below its upper bound a table has an empty bucket on every path. */
  lemma PathHasRoom<K, V>(hash: K -> nat, marks: seq<Mark>, keys: seq<K>, vals: seq<V>,
                          size: nat, occupied: nat, bound: nat, h: nat) returns (d: nat)
    requires WellFormed(hash, marks, keys, vals, size, occupied, bound) && |marks| > 0
    ensures PowerOfTwo(|marks|) && d < |marks|
    ensures marks[Probe(h, d, |marks|)].Empty? && !Filled(marks[Probe(h, d, |marks|)])
    ensures forall i :: 0 <= i < |marks| ==> marks[i] != Both
  {
    d := EmptyOnPath(marks, h);
  }

  lemma AbsentFromTable<K, V>(hash: K -> nat, marks: seq<Mark>, keys: seq<K>, vals: seq<V>,
                              size: nat, occupied: nat, bound: nat, key: K, d: nat)
    requires WellFormed(hash, marks, keys, vals, size, occupied, bound) && |marks| > 0
    requires forall e: nat :: e < d ==> Passed(marks, keys, key, Probe(hash(key), e, |marks|))
    requires marks[Probe(hash(key), d, |marks|)].Empty?
    ensures key !in Contents(marks, keys, vals)
  {
    AbsentAtEmpty(hash, marks, keys, vals, key, d);
  }

  lemma AbsentFromCycle<K, V>(hash: K -> nat, marks: seq<Mark>, keys: seq<K>, vals: seq<V>,
                              size: nat, occupied: nat, bound: nat, key: K)
    requires WellFormed(hash, marks, keys, vals, size, occupied, bound) && |marks| > 0
    requires forall e: nat :: e < |marks| ==> Passed(marks, keys, key, Probe(hash(key), e, |marks|))
    ensures key !in Contents(marks, keys, vals)
  {
    AbsentAfterCycle(hash, marks, keys, vals, key);
  }

  lemma FoundInTable<K, V>(hash: K -> nat, marks: seq<Mark>, keys: seq<K>, vals: seq<V>,
                           size: nat, occupied: nat, bound: nat, i: nat)
    requires WellFormed(hash, marks, keys, vals, size, occupied, bound)
    requires i < |marks| && marks[i].Live?
    ensures keys[i] in Contents(marks, keys, vals) && Contents(marks, keys, vals)[keys[i]] == vals[i]
  {
  }

  lemma ReachedOnPath<K>(marks: seq<Mark>, keys: seq<K>, key: K, h: nat, i: nat, step: nat)
    requires 0 < |marks| <= |keys| && step < |marks| && i == Probe(h, step, |marks|)
    requires forall e: nat :: e < step ==> Passed(marks, keys, key, Probe(h, e, |marks|))
    ensures OnPath(marks, h, i)
  {
    forall e: nat | e < step ensures Filled(marks[Probe(h, e, |marks|)]) {
      assert Passed(marks, keys, key, Probe(h, e, |marks|));
    }
    assert OnPathAt(marks, h, i, step);
  }

  lemma NoEarlyReturn(h: nat, k: nat, n: nat)
    requires PowerOfTwo(n) && 0 < k <= n
    ensures k < n ==> Probe(h, k, n) != Probe(h, 0, n)
  {
    if k < n && Probe(h, k, n) == Probe(h, 0, n) {
      ReturnsAtEnd(h, k, n);
      assert false;
    }
  }

  lemma ProbeStart(h: nat, n: nat)
    requires n > 0
    ensures Probe(h, 0, n) == h % n
  {
  }

  lemma NoneBefore(marks: seq<Mark>, h: nat)
    requires |marks| > 0
    ensures FilledBefore(marks, h, 0)
  {
  }

  /** A probe that passes a filled bucket has not passed the first bucket that is not filled. */
  lemma OneMore(marks: seq<Mark>, h: nat, step: nat, d: nat)
    requires |marks| > 0 && FilledBefore(marks, h, step) && step <= d
    requires Filled(marks[Probe(h, step, |marks|)]) && !Filled(marks[Probe(h, d, |marks|)])
    ensures FilledBefore(marks, h, step + 1) && step < d
  {
    hide Probe;
  }

  lemma HereOnPath(marks: seq<Mark>, h: nat, step: nat, i: nat)
    requires |marks| > 0 && FilledBefore(marks, h, step) && step < |marks| && i == Probe(h, step, |marks|)
    ensures OnPath(marks, h, i)
  {
    hide Probe;
    assert OnPathAt(marks, h, i, step);
  }

  lemma NoneYet(marks: seq<Mark>, h: nat)
    requires |marks| > 0
    ensures LastTombstone(marks, h, 0, |marks|)
  {
  }

  /** One below a table size rounds back up to it, and one above it to the double. */
  lemma RoundAround(n: nat)
    requires PowerOfTwo(n)
    ensures 4 <= n <= 0x8000_0000 ==> RoundUp32(n - 1) == n
    ensures n < 0x8000_0000 ==> RoundUp32(n + 1) == 2 * n
  {
    if 4 <= n <= 0x8000_0000 {
      PowerUnique(n, RoundUp32(n - 1), n - 1);
    }
    if n < 0x8000_0000 {
      Doubling(n);
      PowerUnique(2 * n, RoundUp32(n + 1), n + 1);
    }
  }

  lemma Counts<K, V>(hash: K -> nat, marks: seq<Mark>, keys: seq<K>, vals: seq<V>, size: nat, occupied: nat, bound: nat)
    requires WellFormed(hash, marks, keys, vals, size, occupied, bound)
    ensures size <= occupied <= bound == |marks| / 2 + |marks| / 4
    ensures |marks| > 0 ==> 4 <= |marks| <= 0x8000_0000 && PowerOfTwo(|marks|)
    ensures forall i :: 0 <= i < |marks| ==> marks[i] != Both
  {
    LiveIsFilled(marks);
  }

  class Khash<K(==, 0), V(0)> {
    const hash: K -> nat
    var nBuckets: nat
    var size: nat
    var nOccupied: nat
    var upperBound: nat
    var flags: array<bv32>
    var keys: array<K>
    var vals: array<V>

    ghost function Table(): (m: seq<Mark>)
      reads this, flags
      requires Covers(flags[..], nBuckets)
      ensures |m| == nBuckets
    {
      Marks(flags[..], nBuckets)
    }

    ghost predicate Separate()
      reads this
    {
      && flags as object != keys as object
      && flags as object != vals as object
      && keys as object != vals as object
    }

    ghost predicate Valid()
      reads this, flags, keys, vals
    {
      && Separate()
      && keys.Length == nBuckets && vals.Length == nBuckets
      && Covers(flags[..], nBuckets)
      && WellFormed(hash, Table(), keys[..], vals[..], size, nOccupied, upperBound)
    }

    ghost function Map(): map<K, V>
      reads this, flags, keys, vals
      requires Valid()
    {
      Contents(Table(), keys[..], vals[..])
    }

    constructor (hash: K -> nat)
      ensures Valid() && fresh(flags) && fresh(keys) && fresh(vals)
      ensures this.hash == hash && Map() == map[] && nBuckets == 0
    {
      this.hash := hash;
      nBuckets, size, nOccupied, upperBound := 0, 0, 0, 0;
      flags := new bv32[0];
      keys := new K[0];
      vals := new V[0];
      new;
      assert LiveSet(Table()) == {} && FilledSet(Table()) == {};
    }

    /** The bucket that holds key, or nBuckets if there is none. */
    method Get(key: K) returns (x: nat)
      requires Valid()
      ensures key in Map() ==> x < nBuckets && Table()[x].Live? && keys[x] == key && Map()[key] == vals[x]
      ensures key !in Map() ==> x == nBuckets
    {
      hide WellFormed, Contents, Marks, PowerOfTwo, Probe;
      if nBuckets == 0 {
        return 0;
      }
      var n := nBuckets;
      ghost var h, m := hash(key), Table();
      Counts(hash, m, keys[..], vals[..], size, nOccupied, upperBound);
      ProbeStart(h, n);
      var step, i := 0, hash(key) % n;
      var last := i;
      while !IsEmpty(flags[i / 16], Shift(i)) && (IsDel(flags[i / 16], Shift(i)) || keys[i] != key)
        invariant i == Probe(h, step, n) && step < 2 * n - 1 && last == Probe(h, 0, n)
        invariant forall e: nat :: e < step ==> Passed(m, keys[..], key, Probe(h, e, n))
        decreases 2 * n - step
      {
        assert Passed(m, keys[..], key, Probe(h, step, n));
        ProbeStep(h, step, n);
        step := step + 1;
        i := (i + step) % n;
        if i == last {
          ReturnsAtEnd(h, step, n);
          AbsentFromCycle(hash, m, keys[..], vals[..], size, nOccupied, upperBound, key);
          return n;
        }
        ReturnsThen(h, n);
      }
      if IsEither(flags[i / 16], Shift(i)) {
        AbsentFromTable(hash, m, keys[..], vals[..], size, nOccupied, upperBound, key, step);
        return n;
      }
      FoundInTable(hash, m, keys[..], vals[..], size, nOccupied, upperBound, i);
      return i;
    }

    /** The first empty bucket on the path of key under the new marks. */
    method FindFree(newFlags: array<bv32>, newN: nat, key: K) returns (i: nat)
      requires PowerOfTwo(newN) && Covers(newFlags[..], newN)
      requires |FilledSet(Marks(newFlags[..], newN))| < newN
      requires forall b :: 0 <= b < newN ==> Marks(newFlags[..], newN)[b] != Both
      ensures i < newN && Marks(newFlags[..], newN)[i].Empty?
      ensures OnPath(Marks(newFlags[..], newN), hash(key), i)
    {
      hide Marks, Probe, PowerOfTwo, FilledSet, FilledBefore, OnPath;
      ghost var h, m := hash(key), Marks(newFlags[..], newN);
      ghost var d := EmptyOnPath(m, h);
      var step := 0;
      ProbeStart(h, newN);
      NoneBefore(m, h);
      i := hash(key) % newN;
      while !IsEmpty(newFlags[i / 16], Shift(i))
        invariant i < newN && i == Probe(h, step, newN) && step <= d && FilledBefore(m, h, step)
        decreases d - step
      {
        assert m[i] == MarkAt(newFlags[..], i);
        OneMore(m, h, step, d);
        ProbeStep(h, step, newN);
        step := step + 1;
        i := (i + step) % newN;
      }
      assert m[i] == MarkAt(newFlags[..], i);
      HereOnPath(m, h, step, i);
    }

    method Tombstone(i: nat)
      requires Covers(flags[..], nBuckets) && i < nBuckets && Table()[i].Live?
      modifies flags
      ensures Covers(flags[..], nBuckets) && Table() == old(Table())[i := Deleted]
    {
      MarkDeleted(flags[..], nBuckets, i);
      ghost var before := flags[..];
      flags[i / 16] := SetDelTrue(flags[i / 16], Shift(i));
      assert flags[..] == before[i / 16 := SetDelTrue(before[i / 16], Shift(i))];
    }

    method Claim(newFlags: array<bv32>, newN: nat, i: nat)
      requires Covers(newFlags[..], newN) && i < newN && Marks(newFlags[..], newN)[i].Empty?
      modifies newFlags
      ensures Covers(newFlags[..], newN) && Marks(newFlags[..], newN) == old(Marks(newFlags[..], newN))[i := Live]
    {
      MarkFilled(newFlags[..], newN, i);
      ghost var before := newFlags[..];
      newFlags[i / 16] := SetEmptyFalse(newFlags[i / 16], Shift(i));
      assert newFlags[..] == before[i / 16 := SetEmptyFalse(before[i / 16], Shift(i))];
    }

    ghost predicate Moving(newFlags: array<bv32>, newN: nat, hand: map<K, V>, all: map<K, V>)
      reads this, flags, keys, vals, newFlags
    {
      && Separate() && newFlags != flags && newFlags as object != keys && newFlags as object != vals
      && Covers(flags[..], nBuckets) && Covers(newFlags[..], newN)
      && keys.Length == vals.Length && nBuckets <= keys.Length && newN <= keys.Length
      && Rehashing(hash, Table(), Marks(newFlags[..], newN), keys[..], vals[..], hand, all)
      && |all| <= newN
    }

    /** One round of the kick-out: settles the carried entry and, if its bucket was taken under the old
        marks, returns the entry that was there. */
    method Kick(newFlags: array<bv32>, newN: nat, key: K, val: V, ghost all: map<K, V>)
      returns (done: bool, key': K, val': V)
      requires Moving(newFlags, newN, map[key := val], all)
      modifies flags, keys, vals, newFlags
      ensures Moving(newFlags, newN, if done then map[] else map[key' := val'], all)
      ensures done ==> Table() == old(Table())
      ensures !done ==> exists i :: 0 <= i < nBuckets && old(Table())[i].Live? && Table() == old(Table())[i := Deleted]
    {
      hide Rehashing;
      ghost var oldm, newm := Table(), Marks(newFlags[..], newN);
      ghost var ks, vs := keys[..], vals[..];
      RoomForHand(hash, oldm, newm, ks, vs, key, val, all);
      RehashingShape(hash, oldm, newm, ks, vs, map[key := val], all);
      var i := FindFree(newFlags, newN, key);
      Claim(newFlags, newN, i);
      key', val' := keys[i], vals[i];
      keys[i] := key;
      vals[i] := val;
      assert keys[..] == ks[i := key] && vals[..] == vs[i := val];
      done := !(i < nBuckets && !IsEither(flags[i / 16], Shift(i)));
      if !done {
        KickOut(hash, oldm, newm, ks, vs, key, val, all, i);
        Tombstone(i);
      } else {
        PutDown(hash, oldm, newm, ks, vs, map[key := val], all, key, i);
        assert map[key := val] - {key} == map[];
      }
    }

    /** Carries the entry of bucket j, and every entry kicked out on the way, to its new bucket. */
    method Settle(newFlags: array<bv32>, newN: nat, j: nat, ghost all: map<K, V>)
      requires Moving(newFlags, newN, map[], all)
      requires j < nBuckets && Table()[j].Live?
      modifies flags, keys, vals, newFlags
      ensures Moving(newFlags, newN, map[], all)
      ensures LiveSet(Table()) <= old(LiveSet(Table())) - {j}
    {
      hide Rehashing;
      var key, val := keys[j], vals[j];
      PickUp(hash, Table(), Marks(newFlags[..], newN), keys[..], vals[..], map[], all, j);
      RemoveSets(Table(), j);
      Tombstone(j);
      var done := false;
      while !done
        invariant Moving(newFlags, newN, if done then map[] else map[key := val], all)
        invariant LiveSet(Table()) <= old(LiveSet(Table())) - {j}
        decreases !done, LiveSet(Table())
      {
        ghost var oldm := Table();
        done, key, val := Kick(newFlags, newN, key, val, all);
        if !done {
          ghost var i :| 0 <= i < nBuckets && oldm[i].Live? && Table() == oldm[i := Deleted];
          RemoveSets(oldm, i);
        }
      }
    }

    /** Reallocates the key and value arrays to newN buckets, keeping what fits. */
    method Realloc(newN: nat)
      requires keys.Length == vals.Length && keys as object != vals as object && newN > 0
      modifies this`keys, this`vals
      ensures fresh(keys) && fresh(vals) && keys as object != vals as object
      ensures keys.Length == newN && vals.Length == newN
      ensures forall i :: 0 <= i < newN && i < old(keys.Length) ==>
                keys[..][i] == old(keys[..])[i] && vals[..][i] == old(vals[..])[i]
    {
      ghost var k, v := keys[..], vals[..];
      var newKeys, newVals := new K[newN], new V[newN];
      var i := 0;
      while i < newN && i < keys.Length
        invariant 0 <= i <= newN && i <= keys.Length
        invariant unchanged(this)
        invariant forall b :: 0 <= b < i ==> newKeys[b] == k[b] && newVals[b] == v[b]
      {
        newKeys[i], newVals[i] := keys[i], vals[i];
        i := i + 1;
      }
      keys, vals := newKeys, newVals;
    }

    /** Settles the entries of all buckets in turn. */
    method MoveAll(newFlags: array<bv32>, newN: nat, ghost all: map<K, V>)
      requires Moving(newFlags, newN, map[], all)
      modifies flags, keys, vals, newFlags
      ensures Moving(newFlags, newN, map[], all)
      ensures forall b :: 0 <= b < nBuckets ==> !Table()[b].Live?
    {
      hide Rehashing;
      var j := 0;
      while j != nBuckets
        invariant 0 <= j <= nBuckets && Moving(newFlags, newN, map[], all)
        invariant forall b :: 0 <= b < j ==> !Table()[b].Live?
      {
        if !IsEither(flags[j / 16], Shift(j)) {
          ghost var live := LiveSet(Table());
          Settle(newFlags, newN, j, all);
          assert forall b :: b in LiveSet(Table()) ==> b in live && b != j;
        }
        j := j + 1;
      }
    }

    /** Moves the table to the number of buckets that newSize rounds up to, unless the entries would not
        fit under the new upper bound; the map is the same, and no tombstone is left after a move. */
    method Resize(newSize: nat)
      requires Valid()
      modifies this, flags, keys, vals
      ensures Valid() && Map() == old(Map()) && size == old(size)
      ensures fresh(flags) || flags == old(flags)
      ensures fresh(keys) || keys == old(keys)
      ensures fresh(vals) || vals == old(vals)
      ensures var r := if RoundUp32(newSize) < 4 then 4 else RoundUp32(newSize);
              if size >= r / 2 + r / 4 then
                nBuckets == old(nBuckets) && Table() == old(Table())
              else
                nBuckets == r && nOccupied == size && forall b :: 0 <= b < r ==> !Table()[b].Deleted?
    {
      hide WellFormed, Contents, Marks, PowerOfTwo;
      var newN := if RoundUp32(newSize) < 4 then 4 else RoundUp32(newSize);
      if size >= newN / 2 + newN / 4 {
        return;
      }
      FourIsPower();
      Rehash(newN);
    }

    /** Moves all entries to newN buckets. */
    method Rehash(newN: nat)
      requires Valid() && 4 <= newN <= 0x8000_0000 && PowerOfTwo(newN) && size < newN / 2 + newN / 4
      modifies this, flags, keys, vals
      ensures Valid() && Map() == old(Map()) && size == old(size) && nBuckets == newN && nOccupied == size
      ensures fresh(flags) && forall b :: 0 <= b < newN ==> !Table()[b].Deleted?
      ensures fresh(keys) || keys == old(keys)
      ensures fresh(vals) || vals == old(vals)
    {
      hide Rehashing, WellFormed, Contents, Marks, PowerOfTwo;
      ghost var all, ks, vs, oldm := Map(), keys[..], vals[..], Table();
      var newFlags := new bv32[Fsize(newN)](_ => 0xaaaa_aaaa);
      CoversFsize(newN);
      MarksAllEmpty(newFlags[..], newN);
      if nBuckets < newN {
        Realloc(newN);
      }
      RehashBegins(hash, oldm, ks, vs, size, nOccupied, upperBound, Marks(newFlags[..], newN), keys[..], vals[..]);
      MoveAll(newFlags, newN, all);
      Finish(newFlags, newN, all);
    }

    /** Puts the new marks in place of the old ones. */
    method Finish(newFlags: array<bv32>, newN: nat, ghost all: map<K, V>)
      requires Moving(newFlags, newN, map[], all)
      requires forall b :: 0 <= b < nBuckets ==> !Table()[b].Live?
      requires 4 <= newN <= 0x8000_0000 && size == |all| < newN / 2 + newN / 4
      requires keys.Length == nBuckets || keys.Length == newN
      modifies this
      ensures Valid() && Map() == all && size == old(size)
      ensures flags == newFlags && nBuckets == newN && nOccupied == size
      ensures fresh(keys) || keys == old(keys)
      ensures fresh(vals) || vals == old(vals)
      ensures forall b :: 0 <= b < newN ==> !Table()[b].Deleted?
    {
      hide *;
      MovingParts(newFlags, newN, all);
      ghost var ks, vs, oldm, newm := keys[..], vals[..], Table(), Marks(newFlags[..], newN);
      CutDown(newN);
      RehashDone(hash, oldm, newm, ks, vs, all, keys[..], vals[..]);
      Install(newFlags, newN, newm, all);
    }

    lemma MovingParts(newFlags: array<bv32>, newN: nat, all: map<K, V>)
      requires Moving(newFlags, newN, map[], all)
      ensures newFlags != flags && newFlags as object != keys && newFlags as object != vals && keys as object != vals as object
      ensures Covers(flags[..], nBuckets) && Covers(newFlags[..], newN) && newN <= 16 * newFlags.Length
      ensures keys.Length == vals.Length && nBuckets <= keys.Length && newN <= keys.Length
      ensures |Table()| == nBuckets && |Marks(newFlags[..], newN)| == newN
      ensures Rehashing(hash, Table(), Marks(newFlags[..], newN), keys[..], vals[..], map[], all)
    {
      hide Rehashing, Marks;
    }

    /** Gives back what is beyond the new buckets. */
    method CutDown(newN: nat)
      requires keys.Length == vals.Length && keys as object != vals as object && 0 < newN <= keys.Length
      requires keys.Length == nBuckets || keys.Length == newN
      modifies this`keys, this`vals
      ensures keys.Length == vals.Length == newN && keys as object != vals as object
      ensures fresh(keys) || keys == old(keys)
      ensures fresh(vals) || vals == old(vals)
      ensures forall i :: 0 <= i < newN ==> keys[..][i] == old(keys[..])[i] && vals[..][i] == old(vals[..])[i]
    {
      if nBuckets > newN {
        Realloc(newN);
      }
    }

    method Install(newFlags: array<bv32>, newN: nat, ghost newm: seq<Mark>, ghost all: map<K, V>)
      requires Covers(newFlags[..], newN) && newm == Marks(newFlags[..], newN) && |newm| == newN
      requires newFlags as object != keys && newFlags as object != vals && keys as object != vals as object
      requires keys.Length == vals.Length == newN && newN > 0
      requires WellFormed(hash, newm, keys[..], vals[..], size, size, newN / 2 + newN / 4)
      requires Contents(newm, keys[..], vals[..]) == all
      modifies this`flags, this`nBuckets, this`nOccupied, this`upperBound
      ensures flags == newFlags && nBuckets == newN && nOccupied == size && upperBound == newN / 2 + newN / 4
      ensures Valid() && Map() == all && Table() == newm
    {
      hide Marks, WellFormed, Contents;
      flags := newFlags;
      nBuckets := newN;
      nOccupied := size;
      upperBound := newN / 2 + newN / 4;
    }

    /** Whether an insertion is sure to find or make room: false only for a table of 2^31 buckets that is
        both at its upper bound and at least half live, for which no larger word-sized table exists. */
    predicate CanPut()
      reads this
    {
      nOccupied < upperBound || nBuckets < 0x8000_0000 || nBuckets > 2 * size
    }

    /** Makes sure that fewer buckets are filled than the upper bound allows. */
    method MakeRoom()
      requires Valid() && CanPut()
      modifies this, flags, keys, vals
      ensures Valid() && Map() == old(Map()) && size == old(size)
      ensures fresh(flags) || flags == old(flags)
      ensures fresh(keys) || keys == old(keys)
      ensures fresh(vals) || vals == old(vals)
      ensures nBuckets > 0 && nOccupied < upperBound
      ensures old(nOccupied) < old(upperBound) ==>
                unchanged(this) && Table() == old(Table()) && keys[..] == old(keys[..]) && vals[..] == old(vals[..])
      ensures old(nOccupied) >= old(upperBound) ==>
                && nOccupied == size && (forall b :: 0 <= b < nBuckets ==> !Table()[b].Deleted?)
                && nBuckets == if old(nBuckets) == 0 then 4
                               else if old(nBuckets) > 2 * size then old(nBuckets) else 2 * old(nBuckets)
    {
      hide WellFormed, Contents, Marks, RoundUp32, PowerOfTwo;
      Counts(hash, Table(), keys[..], vals[..], size, nOccupied, upperBound);
      if nOccupied >= upperBound {
        if nBuckets > 0 {
          RoundAround(nBuckets);
        }
        if nBuckets > 2 * size {
          Resize(nBuckets - 1);
        } else {
          Resize(nBuckets + 1);
        }
        Counts(hash, Table(), keys[..], vals[..], size, nOccupied, upperBound);
      }
    }

    /** The bucket of key, entered if it was absent; ret is 0 if the key was present, 1 if it now takes an
        empty bucket, and 2 if it takes a tombstone.  The value of a new entry is arbitrary until it is set. */
    method Put(key: K) returns (x: nat, ret: int)
      requires Valid() && CanPut()
      modifies this, flags, keys, vals
      ensures Valid() && x < nBuckets && Table()[x].Live? && keys[x] == key
      ensures fresh(flags) || flags == old(flags)
      ensures fresh(keys) || keys == old(keys)
      ensures fresh(vals) || vals == old(vals)
      ensures Map() == if key in old(Map()) then old(Map()) else old(Map())[key := vals[x]]
      ensures ret == 0 <==> key in old(Map())
      ensures ret == 0 || ret == 1 || ret == 2
      ensures size == old(size) + if ret == 0 then 0 else 1
      ensures old(nOccupied) < old(upperBound) ==>
                && nBuckets == old(nBuckets) && SlotFor(old(Table()), old(keys[..]), key, hash(key), x)
                && Table() == old(Table())[x := Live] && keys[..] == old(keys[..])[x := key]
                && (ret == 1 <==> old(Table())[x].Empty?)
      ensures old(nOccupied) >= old(upperBound) ==>
                && ret != 2
                && nBuckets == if old(nBuckets) == 0 then 4
                               else if old(nBuckets) > 2 * old(size) then old(nBuckets) else 2 * old(nBuckets)
    {
      hide WellFormed, Contents, Marks, OnPath, SlotFor, LiveSet, FilledSet;
      MakeRoom();
      x, ret := Occupy(key);
    }

    /** The part of an insertion after room is made: finds the slot for key and enters key if it was absent. */
    method Occupy(key: K) returns (x: nat, ret: int)
      requires Valid() && nBuckets > 0 && nOccupied < upperBound
      modifies this`size, this`nOccupied, flags, keys
      ensures Valid() && x < nBuckets && Table()[x].Live? && keys[x] == key
      ensures Map() == if key in old(Map()) then old(Map()) else old(Map())[key := vals[x]]
      ensures ret == (if key in old(Map()) then 0 else if old(Table())[x].Empty? then 1 else 2)
      ensures size == old(size) + if ret == 0 then 0 else 1
      ensures ret == 2 ==> old(Table())[x].Deleted?
      ensures ret == 0 ==> !old(Table())[x].Empty?
      ensures SlotFor(old(Table()), old(keys[..]), key, hash(key), x)
      ensures Table() == old(Table())[x := Live] && keys[..] == old(keys[..])[x := key]
    {
      hide WellFormed, Contents, Marks, OnPath, SlotFor;
      Counts(hash, Table(), keys[..], vals[..], size, nOccupied, upperBound);
      x := FindSlot(key);
      assert MarkAt(flags[..], x) == Table()[x];
      if IsEither(flags[x / 16], Shift(x)) {
        ret := Enter(x, key);
      } else {
        Present(x);
        assert Table()[x := Live] == Table() && keys[..][x := key] == keys[..];
        ret := 0;
      }
    }

    lemma Present(x: nat)
      requires Valid() && x < nBuckets && Table()[x].Live?
      ensures keys[x] in Map()
    {
      hide Contents, Marks;
      EntryOf(Table(), keys[..], vals[..], x);
    }

    /** Enters an absent key in a free bucket of its path. */
    method Enter(x: nat, key: K) returns (ret: int)
      requires Valid() && nOccupied < upperBound && x < nBuckets && !Table()[x].Live?
      requires key !in Map() && OnPath(Table(), hash(key), x)
      modifies this`size, this`nOccupied, flags, keys
      ensures Valid() && Table()[x].Live? && keys[x] == key
      ensures Map() == old(Map())[key := vals[x]]
      ensures ret == 1 || ret == 2
      ensures ret == 1 <==> old(Table())[x].Empty?
      ensures nOccupied == old(nOccupied) + if ret == 1 then 1 else 0
      ensures Table() == old(Table())[x := Live] && keys[..] == old(keys[..])[x := key] && size == old(size) + 1
    {
      hide WellFormed, Contents, Marks, OnPath;
      PutWellFormed(hash, Table(), keys[..], vals[..], size, nOccupied, upperBound, key, x);
      Counts(hash, Table(), keys[..], vals[..], size, nOccupied, upperBound);
      ret := if IsEmpty(flags[x / 16], Shift(x)) then 1 else 2;
      Store(x, key);
      size := size + 1;
      if ret == 1 {
        nOccupied := nOccupied + 1;
      }
    }

    method Store(x: nat, key: K)
      requires Separate() && Covers(flags[..], nBuckets) && x < nBuckets && keys.Length == nBuckets
      modifies flags, keys
      ensures Covers(flags[..], nBuckets) && Table() == old(Table())[x := Live]
      ensures keys[..] == old(keys[..])[x := key]
    {
      MarkLive(flags[..], nBuckets, x);
      ghost var before := flags[..];
      keys[x] := key;
      flags[x / 16] := SetBothFalse(flags[x / 16], Shift(x));
      assert flags[..] == before[x / 16 := SetBothFalse(before[x / 16], Shift(x))];
    }

    /** Walks the path of key to the bucket where it lives or to the first empty bucket, whichever comes
        first; site is the last tombstone passed, or nBuckets. */
    method Walk(key: K, ghost d: nat) returns (i: nat, site: nat, ghost step: nat)
      requires Covers(flags[..], nBuckets) && nBuckets > 0 && PowerOfTwo(nBuckets) && keys.Length == nBuckets
      requires d < nBuckets && Table()[Probe(hash(key), d, nBuckets)].Empty?
      requires forall b :: 0 <= b < nBuckets ==> Table()[b] != Both
      ensures i < nBuckets && i == Probe(hash(key), step, nBuckets) && step <= d
      ensures forall e: nat :: e < step ==> Passed(Table(), keys[..], key, Probe(hash(key), e, nBuckets))
      ensures Table()[i].Empty? || (Table()[i].Live? && keys[i] == key)
      ensures site <= nBuckets
      ensures site < nBuckets ==> Table()[site].Deleted? && OnPath(Table(), hash(key), site)
      ensures LastTombstone(Table(), hash(key), step, site)
    {
      hide Marks, PowerOfTwo, Probe, OnPath, LastTombstone;
      var n := nBuckets;
      ghost var h, m := hash(key), Table();
      var k: nat := 0;
      step, i, site := 0, hash(key) % n, n;
      ProbeStart(h, n);
      NoneYet(m, h);
      var last := i;
      while !IsEmpty(flags[i / 16], Shift(i)) && (IsDel(flags[i / 16], Shift(i)) || keys[i] != key)
        invariant i == Probe(h, step, n) && step == k <= d && last == Probe(h, 0, n)
        invariant LastTombstone(m, h, step, site)
        invariant forall e: nat :: e < step ==> Passed(m, keys[..], key, Probe(h, e, n))
        invariant site <= n && (site < n ==> m[site].Deleted? && OnPath(m, h, site))
        decreases d - k
      {
        assert Passed(m, keys[..], key, Probe(h, step, n));
        TombstoneStep(m, h, step, site);
        if IsDel(flags[i / 16], Shift(i)) {
          ReachedOnPath(m, keys[..], key, h, i, step);
          site := i;
        }
        ProbeStep(h, step, n);
        step, k := step + 1, k + 1;
        i := (i + k) % n;
        NoEarlyReturn(h, step, n);
        if i == last {
          break;
        }
      }
    }

    /** The bucket where key lives, or else the one where it may be entered: the last tombstone met before
        the first empty bucket of its path, or that empty bucket if no tombstone was met. */
    method FindSlot(key: K) returns (x: nat)
      requires Valid() && nBuckets > 0 && nOccupied < upperBound
      ensures x < nBuckets
      ensures Table()[x].Live? ==> keys[x] == key
      ensures !Table()[x].Live? ==> key !in Map() && OnPath(Table(), hash(key), x)
      ensures SlotFor(Table(), keys[..], key, hash(key), x)
    {
      hide WellFormed, Contents, Marks, PowerOfTwo, Probe, OnPath, Filled, LastTombstone;
      ghost var h, m := hash(key), Table();
      ghost var d := PathHasRoom(hash, m, keys[..], vals[..], size, nOccupied, upperBound, h);
      var i, site;
      ghost var step;
      i, site, step := Walk(key, d);
      ReachedOnPath(m, keys[..], key, h, i, step);
      if IsEmpty(flags[i / 16], Shift(i)) {
        AbsentFromTable(hash, m, keys[..], vals[..], size, nOccupied, upperBound, key, step);
      }
      x := if IsEmpty(flags[i / 16], Shift(i)) && site != nBuckets then site else i;
      assert Leaves(m, keys[..], key, h, x, step, site);
    }

    /** Removes the entry of a live bucket; any other bucket, and nBuckets, is left alone. */
    method Del(x: nat)
      requires Valid() && x <= nBuckets
      modifies this`size, flags
      ensures Valid()
      ensures x < nBuckets && old(Table())[x].Live? ==> Map() == old(Map()) - {keys[x]} && size == old(size) - 1
      ensures x == nBuckets || !old(Table())[x].Live? ==> Map() == old(Map()) && size == old(size)
      ensures Table() == if x < nBuckets && old(Table())[x].Live? then old(Table())[x := Deleted] else old(Table())
    {
      hide WellFormed, Contents, Marks;
      if x != nBuckets && !IsEither(flags[x / 16], Shift(x)) {
        DelWellFormed(hash, Table(), keys[..], vals[..], size, nOccupied, upperBound, x);
        Tombstone(x);
        size := size - 1;
      }
    }

    /** Assigns the value of a live bucket, as callers do after an insertion. */
    method SetValue(x: nat, val: V)
      requires Valid() && x < nBuckets && Table()[x].Live?
      modifies vals
      ensures Valid() && Map() == old(Map())[keys[x] := val]
    {
      SetEntry(Table(), keys[..], vals[..], x, val);
      ghost var v := vals[..];
      vals[x] := val;
      assert vals[..] == v[x := val];
    }

    /** Whether bucket x holds an entry. */
    predicate Exists(x: nat)
      reads this, flags, keys, vals
      requires Valid() && x < nBuckets
      ensures Exists(x) <==> Table()[x].Live?
      ensures Exists(x) ==> keys[x] in Map() && Map()[keys[x]] == vals[x]
      ensures Exists(x) ==> forall y :: 0 <= y < nBuckets && y != x && Table()[y].Live? ==> keys[y] != keys[x]
    {
      hide Contents, Marks;
      assert IsEither(flags[x / 16], Shift(x)) <==> !Table()[x].Live?;
      if !IsEither(flags[x / 16], Shift(x)) then
        EntryOf(Table(), keys[..], vals[..], x);
        true
      else
        false
    }

    /** Every entry has a bucket. */
    lemma BucketOfKey(k: K) returns (x: nat)
      requires Valid() && k in Map()
      ensures x < nBuckets && Table()[x].Live? && keys[x] == k
    {
      var i := BucketOf(Table(), keys[..], vals[..], k);
      x := i;
    }

    /** The size field counts the entries. */
    lemma SizeCounts()
      requires Valid()
      ensures size == |Map()|
    {
      ContentsSize(Table(), keys[..], vals[..]);
    }
  }
}
