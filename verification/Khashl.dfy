/** The table of khashl: linear probing, one used bit per bucket, deletion by backward shift, and a rehash
    that moves the buckets inside the array they already occupy. */
module Khashl {
  import opened UsedBits
  import opened LinearProbing

  /** The entries that n buckets may hold: three quarters of them. */
  function MaxCount(n: nat): nat {
    n / 2 + n / 4
  }

  lemma MaxBelow(bits: nat)
    requires 2 <= bits
    ensures 0 < MaxCount(Pow2(bits)) < Pow2(bits) && Pow2(bits) >= 4
  {
    Pow2Mono(2, bits);
    assert Pow2(2) == 4;
  }

  lemma MaxExact(bits: nat)
    requires 2 <= bits
    ensures 4 * MaxCount(Pow2(bits)) == 3 * Pow2(bits)
  {
    assert Pow2(bits) == 2 * Pow2(bits - 1) && Pow2(bits - 1) == 2 * Pow2(bits - 2);
    FourTimes(Pow2(bits), Pow2(bits - 2));
  }

  lemma FourTimes(n: nat, k: nat)
    requires n == 4 * k
    ensures 4 * MaxCount(n) == 3 * n
  {
    assert n / 2 == 2 * k && n / 4 == k;
  }

  ghost predicate WellFormed<K, V>(hash: K -> nat, bits: nat, used: seq<bool>, b: seq<Bucket<K, V>>, m: map<K, V>,
                                   count: nat)
  {
    && 2 <= bits <= 31 && |used| == Pow2(bits) == |b|
    && Forms(used, b, m) && Searchable(hash, bits, used, b)
    && |m| == count <= MaxCount(|used|)
  }

  lemma WellFormedHole<K, V>(hash: K -> nat, bits: nat, used: seq<bool>, b: seq<Bucket<K, V>>, m: map<K, V>, count: nat,
                             i: nat)
    requires WellFormed(hash, bits, used, b, m, count) && i < |used| && used[i]
    ensures Hole(hash, bits, used, b, i, i) && Forms(used[i := false], b, m - {b[i].key})
    ensures |m - {b[i].key}| == count - 1
  {
    HoleStart(hash, bits, used, b, i);
    FormsLeave(used, b, m, i);
    LessOne(m, b[i].key);
  }

  lemma WellFormedUnused<K, V>(hash: K -> nat, bits: nat, used: seq<bool>, b: seq<Bucket<K, V>>, m: map<K, V>, count: nat)
    returns (u: nat)
    requires WellFormed(hash, bits, used, b, m, count)
    ensures u < |used| && !used[u] && |used| >= 4
  {
    MaxBelow(bits);
    u := UnusedExists(used, b, m);
  }

  lemma NoneWellFormed<K, V>(hash: K -> nat, bits: nat, used: seq<bool>, none: seq<bool>, b: seq<Bucket<K, V>>, m: map<K, V>,
                             count: nat)
    requires WellFormed(hash, bits, used, b, m, count) && |none| == |used| && forall i :: 0 <= i < |none| ==> !none[i]
    ensures WellFormed(hash, bits, none, b, map[], 0)
  {
  }

  lemma Halving(p: nat, x: nat, n: nat)
    requires x * p <= n < (x + 1) * p && x > 0
    ensures (x / 2) * (2 * p) <= n < (x / 2 + 1) * (2 * p) && p <= n
  {
    var y := x / 2;
    MulMono(2 * y, x, p);
    MulMono(x + 1, 2 * (y + 1), p);
    MulMono(1, x, p);
    DoubleMoves(y, p);
    DoubleMoves(y + 1, p);
  }

  lemma DoubleMoves(y: nat, p: nat)
    ensures y * (2 * p) == (2 * y) * p
  {
  }

  /** A step ahead is a step closer. */
  lemma Closer(j: nat, stop: nat, n: nat)
    requires j < n && stop < n && j != stop
    ensures (j + 1) % n < n && Off((j + 1) % n, stop, n) < Off(j, stop, n)
  {
    NextIs(j, n);
  }

  lemma ClearSet(u: seq<bool>, i: nat)
    requires i < |u| && u[i]
    ensures UsedSet(u[i := false]) == UsedSet(u) - {i} && i in UsedSet(u)
  {
  }

  lemma BitsBound(b: nat, n: nat)
    requires 2 <= b && n <= 0x8000_0000 && (b > 2 ==> Pow2(b - 1) < n)
    ensures b <= 31
  {
    if b > 31 {
      Pow2Mono(31, b - 1);
      Pow2Of32();
    }
  }

  lemma Covers(b: nat)
    ensures Pow2(b) <= 32 * Fsize(Pow2(b))
  {
    if b >= 5 {
      Pow2Add(5, b - 5);
      assert Pow2(5) == 32;
    } else {
      Pow2Mono(b, 5);
      assert Pow2(5) == 32;
    }
  }

  /** One more bucket than a power of two rounds up to room for more. */
  lemma Grown(bits: nat, n: nat, b: nat, count: nat)
    requires n == 0 || (2 <= bits && n == Pow2(bits))
    requires 2 <= b && n + 1 <= Pow2(b) && count <= MaxCount(n)
    ensures count < MaxCount(Pow2(b))
    ensures (b > 2 ==> Pow2(b - 1) < n + 1) ==> Pow2(b) == if n == 0 then 4 else 2 * n
  {
    MaxBelow(b);
    SmallPowers();
    if b > 2 {
      Pow2Mono(2, b - 1);
    }
    if n > 0 {
      MaxBelow(bits);
      if b <= bits {
        Pow2Mono(b, bits);
      }
      Pow2Mono(bits + 1, b);
      if b > bits + 1 {
        Pow2Mono(bits + 1, b - 1);
      }
    }
  }

  lemma SmallPowers()
    ensures Pow2(2) == 4
  {
  }

  /** The next bucket is on the path as well, if this one is used. */
  lemma PathNext(u: seq<bool>, h: nat, i: nat, stop: nat)
    requires h < |u| && i < |u| && stop < |u| && u[i] && !u[stop] && Path(u, h, i)
    ensures var i' := if i + 1 == |u| then 0 else i + 1; Path(u, h, i') && Off(i', stop, |u|) == Off(i, stop, |u|) - 1
  {
    var n := |u|;
    var i' := if i + 1 == n then 0 else i + 1;
    forall d | 0 <= d < Off(h, i', n) ensures u[At(h, d, n)] {
      assert d < Off(h, i, n) || d == Off(h, i, n);
    }
  }

  lemma MoveStarts<K, V>(hash: K -> nat, bits: nat, oldu: seq<bool>, b: seq<Bucket<K, V>>, m: map<K, V>, count: nat,
                         newBits: nat, newu: seq<bool>, b': seq<Bucket<K, V>>)
    requires |oldu| == |b| && (|b| == 0 ==> m == map[] && count == 0)
    requires |b| > 0 ==> WellFormed(hash, bits, oldu, b, m, count)
    requires newBits <= 32 && |newu| == Pow2(newBits) <= |b'| && forall i :: 0 <= i < |newu| ==> !newu[i]
    requires |b| <= |b'| && forall i :: 0 <= i < |b| ==> b'[i] == b[i]
    ensures Rehashing(hash, newBits, oldu, newu, b', m) && |m| == count
  {
    RehashStart(hash, newBits, oldu, newu, b, b', m);
  }

  lemma MoveEnds<K, V>(hash: K -> nat, bits: nat, oldu: seq<bool>, newu: seq<bool>, b: seq<Bucket<K, V>>,
                       b': seq<Bucket<K, V>>, m: map<K, V>, count: nat)
    requires Rehashing(hash, bits, oldu, newu, b, m) && forall i :: 0 <= i < |oldu| ==> !oldu[i]
    requires |newu| == |b'| <= |b| && forall i :: 0 <= i < |newu| ==> b'[i] == b[i]
    requires 2 <= bits <= 31 && |newu| == Pow2(bits) && |m| == count <= MaxCount(|newu|)
    ensures WellFormed(hash, bits, newu, b', m, count)
  {
    RehashEnd(hash, bits, oldu, newu, b, b', m);
  }

  lemma EnterWellFormed<K, V>(hash: K -> nat, bits: nat, used: seq<bool>, b: seq<Bucket<K, V>>, m: map<K, V>, count: nat,
                              e: Bucket<K, V>, x: nat)
    requires WellFormed(hash, bits, used, b, m, count) && count < MaxCount(|used|) && e.key !in m
    requires x < |used| && !used[x] && Path(used, HomeOf(hash(e.key), bits), x)
    ensures WellFormed(hash, bits, used[x := true], b[x := e], m[e.key := e.val], count + 1)
  {
    hide Forms, Searchable, Path;
    Enter(hash, bits, used, b, m, e, x);
  }

  lemma SetWellFormed<K, V>(hash: K -> nat, bits: nat, used: seq<bool>, b: seq<Bucket<K, V>>, m: map<K, V>, count: nat,
                            x: nat, val: V)
    requires WellFormed(hash, bits, used, b, m, count) && x < |used| && used[x]
    ensures WellFormed(hash, bits, used, b[x := Bucket(b[x].key, val)], m[b[x].key := val], count)
  {
    hide Forms, Searchable;
    FormsSet(used, b, m, x, val);
    SearchSet(hash, bits, used, b, x, val);
    FormsAt(used, b, m, x);
    assert m[b[x].key := val].Keys == m.Keys;
    assert |m[b[x].key := val].Keys| == |m[b[x].key := val]| && |m.Keys| == |m|;
  }

  lemma FormsSet<K, V>(used: seq<bool>, b: seq<Bucket<K, V>>, m: map<K, V>, x: nat, val: V)
    requires Forms(used, b, m) && x < |used| <= |b| && used[x]
    ensures Forms(used, b[x := Bucket(b[x].key, val)], m[b[x].key := val])
  {
    hide Forms;
    FormsLeave(used, b, m, x);
    FormsEnter(used[x := false], b, m - {b[x].key}, Bucket(b[x].key, val), x);
    assert used[x := false][x := true] == used;
    assert (m - {b[x].key})[b[x].key := val] == m[b[x].key := val];
  }

  lemma SearchSet<K, V>(hash: K -> nat, bits: nat, used: seq<bool>, b: seq<Bucket<K, V>>, x: nat, val: V)
    requires Searchable(hash, bits, used, b) && x < |b|
    ensures Searchable(hash, bits, used, b[x := Bucket(b[x].key, val)])
  {
    hide HomeOf;
    var b' := b[x := Bucket(b[x].key, val)];
    forall i | 0 <= i < |used| && used[i] ensures Path(used, HomeOf(hash(b'[i].key), bits), i) {
      assert b'[i].key == b[i].key && Path(used, HomeOf(hash(b[i].key), bits), i);
    }
  }

  lemma WellFormedFacts<K, V>(hash: K -> nat, bits: nat, used: seq<bool>, b: seq<Bucket<K, V>>, m: map<K, V>, count: nat)
    requires WellFormed(hash, bits, used, b, m, count)
    ensures Forms(used, b, m) && Searchable(hash, bits, used, b) && 2 <= bits <= 31 && |used| == Pow2(bits) == |b|
  {
  }

  /** A search that passes one more bucket comes back to its start only after all of them. */
  lemma PassOn<K, V>(used: seq<bool>, b: seq<Bucket<K, V>>, key: K, h: nat, d: nat, i: nat)
    requires PassedTo(used, b, key, h, d) && d < |used| && i == At(h, d, |used|) && used[i] && b[i].key != key
    ensures PassedTo(used, b, key, h, d + 1)
    ensures (i + 1) % |used| == if d + 1 < |used| then At(h, d + 1, |used|) else h
    ensures d + 1 < |used| ==> (i + 1) % |used| != h
  {
    NextIs(i, |used|);
  }

  lemma PassNone<K, V>(used: seq<bool>, b: seq<Bucket<K, V>>, key: K, h: nat)
    requires h < |used| <= |b|
    ensures PassedTo(used, b, key, h, 0) && At(h, 0, |used|) == h
  {
  }

  /** A search does not pass an unused bucket. */
  lemma PassedBound<K, V>(used: seq<bool>, b: seq<Bucket<K, V>>, key: K, h: nat, d: nat, stop: nat)
    requires PassedTo(used, b, key, h, d) && stop < |used| && !used[stop]
    ensures d <= Off(h, stop, |used|) < |used|
  {
    assert At(h, Off(h, stop, |used|), |used|) == stop;
  }

  lemma PassedPath<K, V>(used: seq<bool>, b: seq<Bucket<K, V>>, key: K, h: nat, d: nat)
    requires PassedTo(used, b, key, h, d) && d < |used|
    ensures Path(used, h, At(h, d, |used|))
  {
  }

  /** The used bit of bucket i. */
  predicate Test(words: array<bv32>, n: nat, i: nat)
    reads words
    requires i < n <= 32 * words.Length
    ensures Test(words, n, i) == Used(words[..], n)[i]
  {
    IsUsed(words[i / 32], Place(i % 32))
  }

  class Khashl<K(==, 0), V(0)> {
    const hash: K -> nat
    var bits: nat
    var count: nat
    var used: array<bv32>
    var keys: array<Bucket<K, V>>
    ghost var contents: map<K, V>

    ghost function Table(): (u: seq<bool>)
      reads this, used
      requires keys.Length <= 32 * used.Length
      ensures |u| == keys.Length
    {
      Used(used[..], keys.Length)
    }

    ghost predicate Valid()
      reads this, used, keys
    {
      && used as object != keys as object
      && keys.Length <= 32 * used.Length
      && (keys.Length == 0 ==> count == 0 && contents == map[])
      && (keys.Length > 0 ==> WellFormed(hash, bits, Table(), keys[..], contents, count))
    }

    constructor (hash: K -> nat)
      ensures Valid() && fresh(used) && fresh(keys) && this.hash == hash && contents == map[] && keys.Length == 0
    {
      this.hash := hash;
      bits, count := 0, 0;
      used := new bv32[0];
      keys := new Bucket<K, V>[0];
      contents := map[];
    }

    /** Forgets all entries. */
    method Clear()
      requires Valid()
      modifies this`count, this`contents, used
      ensures Valid() && contents == map[]
    {
      if keys.Length > 0 {
        hide WellFormed, Used;
        ZeroAll();
        NoneWellFormed(hash, bits, old(Table()), Table(), keys[..], contents, count);
        count := 0;
        contents := map[];
      }
    }

    method ZeroAll()
      requires keys.Length <= 32 * used.Length
      modifies used
      ensures forall i :: 0 <= i < keys.Length ==> !Table()[i]
    {
      hide Bits;
      var i := 0;
      while i < used.Length
        invariant 0 <= i <= used.Length && forall k :: 0 <= k < i ==> used[k] == 0
      {
        used[i] := 0;
        i := i + 1;
      }
      AllUnused(used[..], keys.Length);
    }

    /** The bucket that holds key, or the number of buckets if there is none. */
    method Get(key: K) returns (x: nat)
      requires Valid()
      ensures key in contents ==> x < keys.Length && Table()[x] && keys[x] == Bucket(key, contents[key])
      ensures key !in contents ==> x == keys.Length
    {
      hide Forms, Searchable, HomeOf, Test, Used, WellFormed, PassedTo, At;
      if keys.Length == 0 {
        return 0;
      }
      var n := keys.Length;
      ghost var u := Table();
      WellFormedFacts(hash, bits, u, keys[..], contents, count);
      var i := HomeOf(hash(key), bits);
      var last := i;
      ghost var d := 0;
      PassNone(u, keys[..], key, last);
      while Test(used, n, i) && keys[i].key != key
        invariant d < n && i == At(last, d, n) && last == HomeOf(hash(key), bits)
        invariant PassedTo(u, keys[..], key, last, d)
        decreases n - d
      {
        PassOn(u, keys[..], key, last, d, i);
        i := (i + 1) % n;
        d := d + 1;
        if i == last {
          SearchEnds(hash, bits, u, keys[..], contents, key, d);
          return n;
        }
      }
      if !Test(used, n, i) {
        SearchEnds(hash, bits, u, keys[..], contents, key, d);
        return n;
      }
      FormsAt(u, keys[..], contents, i);
      return i;
    }

    method SetBit(words: array<bv32>, n: nat, i: nat)
      requires i < n <= 32 * words.Length
      modifies words
      ensures Used(words[..], n) == old(Used(words[..], n))[i := true]
    {
      hide Bits, SetUsed, Place;
      Marked(words[..], n, i);
      ghost var before := words[..];
      words[i / 32] := SetUsed(words[i / 32], Place(i % 32));
      assert words[..] == before[i / 32 := SetUsed(before[i / 32], Place(i % 32))];
    }

    method ClearBit(words: array<bv32>, n: nat, i: nat)
      requires i < n <= 32 * words.Length
      modifies words
      ensures Used(words[..], n) == old(Used(words[..], n))[i := false]
    {
      hide Bits, SetUnused, Place;
      Marked(words[..], n, i);
      ghost var before := words[..];
      words[i / 32] := SetUnused(words[i / 32], Place(i % 32));
      assert words[..] == before[i / 32 := SetUnused(before[i / 32], Place(i % 32))];
    }

    /** Removes the entry of a used bucket: the entries behind it that need its place to be found shift back. */
    method Del(x: nat) returns (ok: bool)
      requires Valid() && (keys.Length > 0 ==> x < keys.Length && Table()[x])
      modifies this`count, this`contents, used, keys
      ensures Valid() && ok == (keys.Length > 0)
      ensures ok ==> contents == old(contents) - {old(keys[..])[x].key} && count == old(count) - 1
      ensures !ok ==> contents == old(contents)
    {
      hide Forms, Searchable, HomeOf, Hole, Test, Used;
      if keys.Length == 0 {
        return false;
      }
      ghost var u, m := Table(), contents - {keys[x].key};
      WellFormedHole(hash, bits, u, keys[..], contents, count, x);
      ghost var stop := WellFormedUnused(hash, bits, u, keys[..], contents, count);
      var i := Shift(x, u, m, stop);
      ClearBit(used, keys.Length, i);
      count := count - 1;
      contents := m;
      return true;
    }

    /** The loop of the deletion: the last hole is where nothing needs to move any more. */
    method Shift(x: nat, ghost u: seq<bool>, ghost m: map<K, V>, ghost stop: nat) returns (i: nat)
      requires used as object != keys as object && keys.Length <= 32 * used.Length && Table() == u
      requires |u| == Pow2(bits) && bits <= 32 && stop < |u| && !u[stop]
      requires x < |u| && u[x] && Hole(hash, bits, u, keys[..], x, x) && Forms(u[x := false], keys[..], m)
      modifies keys
      ensures i < |u| && Forms(u[i := false], keys[..], m) && Searchable(hash, bits, u[i := false], keys[..])
    {
      hide Forms, Searchable, HomeOf, Hole, Test, Used, Pow2, Off;
      var n := keys.Length;
      i := x;
      var j: nat := x;
      while true
        invariant i < n && j < n && u[i] && u[j]
        invariant Hole(hash, bits, u, keys[..], i, j) && Forms(u[i := false], keys[..], m)
        decreases Off(j, stop, n)
      {
        ghost var last := j;
        Closer(j, stop, n);
        j := (j + 1) % n;
        if j == i || !Test(used, n, j) {
          HoleDone(hash, bits, u, keys[..], i, last);
          break;
        }
        i := ShiftOne(u, i, last, j, m);
      }
    }

    /** Moves the entry of bucket j into the hole at i if it needs to; returns where the hole is then. */
    method ShiftOne(ghost u: seq<bool>, i: nat, ghost last: nat, j: nat, ghost m: map<K, V>) returns (i': nat)
      requires |u| == keys.Length == Pow2(bits) && bits <= 32 && i < |u| && last < |u| && j == (last + 1) % |u|
      requires u[i] && u[j] && i != j && Hole(hash, bits, u, keys[..], i, last) && Forms(u[i := false], keys[..], m)
      modifies keys
      ensures i' < |u| && u[i'] && Hole(hash, bits, u, keys[..], i', j) && Forms(u[i' := false], keys[..], m)
    {
      hide Forms, HomeOf, Hole;
      var k := HomeOf(hash(keys[j].key), bits);
      MoveTest(k, i, j, |u|);
      if (j > i && (k <= i || k > j)) || (j < i && k <= i && k > j) {
        HoleMove(hash, bits, u, keys[..], i, last);
        FormsMove(u, keys[..], m, i, j);
        ghost var b := keys[..];
        keys[i] := keys[j];
        assert keys[..] == b[i := b[j]];
        i' := j;
      } else {
        HoleStay(hash, bits, u, keys[..], i, last);
        i' := i;
      }
    }

    // ----- rehash -----

    /** The smallest bits, at least 2, whose buckets are no fewer than n. */
    static method BitsFor(n: nat) returns (b: nat)
      ensures 2 <= b && Pow2(b) >= n && (b > 2 ==> Pow2(b - 1) < n)
    {
      var j, x := 0, n / 2;
      while x != 0
        invariant 0 <= x && x * Pow2(j + 1) <= n < (x + 1) * Pow2(j + 1) && (if n > 0 then Pow2(j) <= n else j == 0)
      {
        Halving(Pow2(j + 1), x, n);
        j := j + 1;
        x := x / 2;
      }
      if n > 0 && n != Pow2(j) {
        j := j + 1;
      }
      b := if j > 2 then j else 2;
      Pow2Mono(j, b);
    }

    /** The table in the middle of a move from n buckets: m is all that is not being carried. */
    ghost predicate Moving(newUsed: array<bv32>, newBits: nat, n: nat, m: map<K, V>)
      reads this, used, newUsed, keys
    {
      && used != newUsed && used as object != keys && newUsed as object != keys
      && n <= 32 * used.Length && n <= keys.Length && newBits <= 32 && Pow2(newBits) <= 32 * newUsed.Length
      && Pow2(newBits) <= keys.Length
      && Rehashing(hash, newBits, Used(used[..], n), Used(newUsed[..], Pow2(newBits)), keys[..], m)
    }

    /** The first bucket from the home of key that is unused under the new marks. */
    method FindUnused(newUsed: array<bv32>, newBits: nat, key: K, ghost stop: nat) returns (i: nat)
      requires newBits <= 32 && Pow2(newBits) <= 32 * newUsed.Length
      requires stop < Pow2(newBits) && !Used(newUsed[..], Pow2(newBits))[stop]
      ensures i < Pow2(newBits) && !Used(newUsed[..], Pow2(newBits))[i]
      ensures Path(Used(newUsed[..], Pow2(newBits)), HomeOf(hash(key), newBits), i)
    {
      hide HomeOf, Pow2, Test, Used;
      var n := Pow2(newBits);
      ghost var h, u := HomeOf(hash(key), newBits), Used(newUsed[..], n);
      i := HomeOf(hash(key), newBits);
      while Test(newUsed, n, i)
        invariant i < n && Path(u, h, i)
        decreases Off(i, stop, n)
      {
        NextIs(i, n);
        PathNext(u, h, i, stop);
        i := (i + 1) % n;
      }
    }

    /** One round of the kick-out: settles the carried entry and, if its bucket was still in use under the
        old marks, returns the entry that was there. */
    method Kick(newUsed: array<bv32>, newBits: nat, n: nat, e: Bucket<K, V>, ghost all: map<K, V>)
      returns (done: bool, e': Bucket<K, V>)
      requires e.key in all && all[e.key] == e.val && |all| <= Pow2(newBits) && Moving(newUsed, newBits, n, all - {e.key})
      modifies used, newUsed, keys
      ensures if done then Moving(newUsed, newBits, n, all) && Used(used[..], n) == old(Used(used[..], n))
              else e'.key in all && all[e'.key] == e'.val && Moving(newUsed, newBits, n, all - {e'.key})
      ensures !done ==> exists i :: 0 <= i < n && old(Used(used[..], n))[i] && Used(used[..], n) == old(Used(used[..], n))[i := false]
    {
      hide Rehashing, HomeOf, Pow2, Test, Used, Path;
      ghost var oldu, newu, b := Used(used[..], n), Used(newUsed[..], Pow2(newBits)), keys[..];
      LessOne(all, e.key);
      ghost var stop := RoomForHand(hash, newBits, oldu, newu, b, all - {e.key});
      var i := FindUnused(newUsed, newBits, e.key, stop);
      KickOut(hash, newBits, oldu, newu, b, all, e, i);
      SetBit(newUsed, Pow2(newBits), i);
      e' := keys[i];
      keys[i] := e;
      assert keys[..] == b[i := e];
      done := !(i < n && Test(used, n, i));
      if !done {
        ClearBit(used, n, i);
      }
    }

    /** Carries the entry of bucket j, and every entry kicked out on the way, to its new bucket. */
    method Settle(newUsed: array<bv32>, newBits: nat, n: nat, j: nat, ghost all: map<K, V>)
      requires |all| <= Pow2(newBits) && Moving(newUsed, newBits, n, all) && j < n && Used(used[..], n)[j]
      modifies used, newUsed, keys
      ensures Moving(newUsed, newBits, n, all)
      ensures UsedSet(Used(used[..], n)) <= old(UsedSet(Used(used[..], n))) - {j}
    {
      hide Rehashing, Pow2, Used, UsedSet;
      var e := keys[j];
      ghost var oldu := Used(used[..], n);
      PickUp(hash, newBits, oldu, Used(newUsed[..], Pow2(newBits)), keys[..], all, j);
      ClearBit(used, n, j);
      ClearSet(oldu, j);
      var done := false;
      while !done
        invariant !done ==> e.key in all && all[e.key] == e.val
        invariant Moving(newUsed, newBits, n, if done then all else all - {e.key})
        invariant UsedSet(Used(used[..], n)) <= old(UsedSet(Used(used[..], n))) - {j}
        decreases !done, UsedSet(Used(used[..], n))
      {
        ghost var before := Used(used[..], n);
        done, e := Kick(newUsed, newBits, n, e, all);
        if !done {
          ghost var i :| 0 <= i < n && before[i] && Used(used[..], n) == before[i := false];
          ClearSet(before, i);
        }
      }
    }

    method MoveAll(newUsed: array<bv32>, newBits: nat, n: nat, ghost all: map<K, V>)
      requires |all| <= Pow2(newBits) && Moving(newUsed, newBits, n, all)
      modifies used, newUsed, keys
      ensures Moving(newUsed, newBits, n, all) && forall i :: 0 <= i < n ==> !Used(used[..], n)[i]
    {
      hide Rehashing, Pow2, Used, Test;
      var j := 0;
      while j != n
        invariant 0 <= j <= n && Moving(newUsed, newBits, n, all)
        invariant forall i :: 0 <= i < j ==> !Used(used[..], n)[i]
      {
        if Test(used, n, j) {
          ghost var live := UsedSet(Used(used[..], n));
          Settle(newUsed, newBits, n, j, all);
          assert forall i :: i in UsedSet(Used(used[..], n)) ==> i in live && i != j;
        }
        j := j + 1;
      }
    }

    /** Reallocates the bucket array to n buckets, keeping what fits. */
    method Realloc(n: nat)
      modifies this`keys
      ensures fresh(keys) && keys.Length == n
      ensures forall i :: 0 <= i < n && i < old(keys.Length) ==> keys[..][i] == old(keys[..])[i]
    {
      ghost var b := keys[..];
      var newKeys := new Bucket<K, V>[n];
      var i := 0;
      while i < n && i < keys.Length
        invariant 0 <= i <= n && i <= keys.Length && unchanged(this) && keys[..] == b
        invariant forall k :: 0 <= k < i ==> newKeys[k] == b[k]
      {
        newKeys[i] := keys[i];
        i := i + 1;
      }
      keys := newKeys;
    }

    /** Moves the table to the power of two that newN rounds up to, at least 4, unless the entries would not
        fit; the entries are the same. */
    method Resize(newN: nat) returns (ghost newBits: nat)
      requires Valid() && newN <= 0x8000_0000
      modifies this`bits, this`used, this`keys, used, keys
      ensures Valid()
      ensures fresh(used) || used == old(used)
      ensures fresh(keys) || keys == old(keys)
      ensures 2 <= newBits && Pow2(newBits) >= newN && (newBits > 2 ==> Pow2(newBits - 1) < newN)
      ensures if 4 * count > 3 * Pow2(newBits) then keys.Length == old(keys.Length) && Table() == old(Table())
              else keys.Length == Pow2(newBits)
    {
      hide Rehashing, WellFormed, Pow2, Used;
      var b := BitsFor(newN);
      newBits := b;
      BitsBound(b, newN);
      MaxExact(b);
      if count > MaxCount(Pow2(b)) {
        return;
      }
      MaxBelow(b);
      var newUsed := new bv32[Fsize(Pow2(b))](_ => 0);
      Covers(b);
      AllUnused(newUsed[..], Pow2(b));
      var n := keys.Length;
      ghost var oldu, old_ := Table(), keys[..];
      if n < Pow2(b) {
        Realloc(Pow2(b));
      }
      MoveStarts(hash, bits, oldu, old_, contents, count, b, Used(newUsed[..], Pow2(b)), keys[..]);
      MoveAll(newUsed, b, n, contents);
      ghost var moved := keys[..];
      if n > Pow2(b) {
        Realloc(Pow2(b));
      }
      MoveEnds(hash, b, Used(used[..], n), Used(newUsed[..], Pow2(b)), moved, keys[..], contents, count);
      used := newUsed;
      bits := b;
    }

    // ----- insertion -----

    /** Whether an insertion is sure to find or make room: false only for a table of 2^31 buckets that is as
        full as it may be, for which no larger word-sized table exists. */
    predicate CanPut()
      reads this
    {
      count < MaxCount(keys.Length) || keys.Length < 0x8000_0000
    }

    /** The bucket of e's key.  If the key was absent, e is entered; if not, its entry is left as it is. */
    method Put(e: Bucket<K, V>) returns (x: nat, absent: int)
      requires Valid() && CanPut()
      modifies this, used, keys
      ensures Valid() && x < keys.Length && Table()[x] && keys[x].key == e.key
      ensures fresh(used) || used == old(used)
      ensures fresh(keys) || keys == old(keys)
      ensures absent == if e.key in old(contents) then 0 else 1
      ensures contents == if e.key in old(contents) then old(contents) else old(contents)[e.key := e.val]
      ensures 4 * count <= 3 * keys.Length
      ensures if 4 * old(count) < 3 * old(keys.Length) then keys.Length == old(keys.Length)
              else keys.Length == if old(keys.Length) == 0 then 4 else 2 * old(keys.Length)
    {
      hide WellFormed, Forms, Searchable, HomeOf, Path, Used, Test, Pow2;
      Threshold();
      if count >= MaxCount(keys.Length) {
        MakeRoom();
      }
      x := FindSlot(e.key);
      if !Test(used, keys.Length, x) {
        EnterAt(e, x);
        absent := 1;
      } else {
        absent := 0;
      }
    }

    /** The bound on the entries is three quarters of the buckets. */
    lemma Threshold()
      requires Valid()
      ensures 4 * MaxCount(keys.Length) == 3 * keys.Length && (keys.Length > 0 ==> 2 <= bits && keys.Length == Pow2(bits))
    {
      hide Forms, Searchable, Used, Pow2;
      if keys.Length > 0 {
        MaxExact(bits);
      }
    }

    /** Enters e in an unused bucket at the end of the path of its key. */
    method EnterAt(e: Bucket<K, V>, x: nat)
      requires Valid() && count < MaxCount(keys.Length) && e.key !in contents
      requires x < keys.Length == Pow2(bits) && bits <= 32 && !Table()[x] && Path(Table(), HomeOf(hash(e.key), bits), x)
      modifies this`count, this`contents, used, keys
      ensures Valid() && Table()[x] && keys[x].key == e.key && contents == old(contents)[e.key := e.val]
      ensures count == old(count) + 1
    {
      hide WellFormed, Forms, Searchable, HomeOf, Path, Used, Test, Pow2, MaxCount;
      EnterWellFormed(hash, bits, Table(), keys[..], contents, count, e, x);
      ghost var b := keys[..];
      keys[x] := e;
      assert keys[..] == b[x := e];
      SetBit(used, keys.Length, x);
      count := count + 1;
      contents := contents[e.key := e.val];
    }

    /** Grows the table. */
    method MakeRoom()
      requires Valid() && keys.Length < 0x8000_0000
      modifies this`bits, this`used, this`keys, used, keys
      ensures Valid() && count < MaxCount(keys.Length)
      ensures keys.Length == if old(keys.Length) == 0 then 4 else 2 * old(keys.Length)
      ensures fresh(used) || used == old(used)
      ensures fresh(keys) || keys == old(keys)
    {
      hide Forms, Searchable, Pow2, Used;
      ghost var n, before := keys.Length, bits;
      ghost var b := Resize(keys.Length + 1);
      Grown(before, n, b, count);
      MaxExact(b);
    }

    /** The bucket where key lives, or the first unused one from its home. */
    method FindSlot(key: K) returns (x: nat)
      requires Valid() && keys.Length > 0
      ensures x < keys.Length && bits <= 32 && keys.Length == Pow2(bits)
      ensures if Table()[x] then keys[x].key == key && key in contents
              else key !in contents && Path(Table(), HomeOf(hash(key), bits), x)
    {
      hide Forms, Searchable, HomeOf, Test, Used, WellFormed, PassedTo, At, Path;
      var n := keys.Length;
      ghost var u := Table();
      WellFormedFacts(hash, bits, u, keys[..], contents, count);
      ghost var stop := WellFormedUnused(hash, bits, u, keys[..], contents, count);
      var i := HomeOf(hash(key), bits);
      var last := i;
      ghost var d := 0;
      PassNone(u, keys[..], key, last);
      while Test(used, n, i) && keys[i].key != key
        invariant d < n && i == At(last, d, n) && last == HomeOf(hash(key), bits)
        invariant PassedTo(u, keys[..], key, last, d)
        decreases n - d
      {
        PassOn(u, keys[..], key, last, d, i);
        PassedBound(u, keys[..], key, last, d + 1, stop);
        i := (i + 1) % n;
        d := d + 1;
        if i == last {
          break;
        }
      }
      PassedPath(u, keys[..], key, last, d);
      if Test(used, n, i) {
        FormsAt(u, keys[..], contents, i);
      } else {
        SearchEnds(hash, bits, u, keys[..], contents, key, d);
      }
      x := i;
    }

    /** Assigns the value of a used bucket. */
    method SetValue(x: nat, val: V)
      requires Valid() && x < keys.Length && Table()[x]
      modifies keys, this`contents
      ensures Valid() && contents == old(contents)[old(keys[x]).key := val]
    {
      hide Searchable, Forms;
      ghost var b, key := keys[..], keys[x].key;
      SetWellFormed(hash, bits, Table(), b, contents, count, x, val);
      keys[x] := Bucket(keys[x].key, val);
      assert keys[..] == b[x := Bucket(key, val)];
      contents := contents[key := val];
    }
  }
}
