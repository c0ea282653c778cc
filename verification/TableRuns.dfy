/** Runs of table operations: whatever its hash function, either table answers as a finite map does. */
module TableRuns {
  import KhashTheory
  import PackedFlags
  import UsedBits
  import Quadratic = Khash
  import Linear = Khashl
  import opened LinearProbing

  /** What callers do with a table; a value is assigned right after its key is put. */
  datatype Op<K, V> = Put(key: K, val: V) | Delete(key: K) | Find(key: K) | Resize(buckets: nat)

  /** What they see: whether a put or deleted key was there, or the value that was found. */
  datatype Answer<V> = Was(there: bool) | Found(val: V) | Absent | Nothing

  ghost function After<K, V>(m: map<K, V>, op: Op<K, V>): map<K, V> {
    match op
    case Put(k, v) => m[k := v]
    case Delete(k) => m - {k}
    case _ => m
  }

  ghost function Says<K, V>(m: map<K, V>, op: Op<K, V>): Answer<V> {
    match op
    case Put(k, _) => Was(k in m)
    case Delete(k) => Was(k in m)
    case Find(k) => if k in m then Found(m[k]) else Absent
    case Resize(_) => Nothing
  }

  /** The map and the answers after a run from the empty map. */
  ghost function MapAfter<K, V>(ops: seq<Op<K, V>>): map<K, V> {
    if ops == [] then map[] else After(MapAfter(ops[..|ops| - 1]), ops[|ops| - 1])
  }

  ghost function Answers<K, V>(ops: seq<Op<K, V>>): seq<Answer<V>> {
    if ops == [] then []
    else
      var before := ops[..|ops| - 1];
      Answers(before) + [Says(MapAfter(before), ops[|ops| - 1])]
  }

  /** Word-sized requests, and fewer operations than would fill the largest table. */
  ghost predicate Fits<K, V>(ops: seq<Op<K, V>>) {
    |ops| < 0x4000_0000 && forall i :: 0 <= i < |ops| && ops[i].Resize? ==> ops[i].buckets <= 0x8000_0000
  }

  lemma RunStep<K, V>(ops: seq<Op<K, V>>, i: nat)
    requires i < |ops|
    ensures MapAfter(ops[..i + 1]) == After(MapAfter(ops[..i]), ops[i])
    ensures Answers(ops[..i + 1]) == Answers(ops[..i]) + [Says(MapAfter(ops[..i]), ops[i])]
  {
    assert ops[..i + 1][..i] == ops[..i];
  }

  /** khash answers as the map does. */
  method RunKhash<K(==, 0), V(0)>(hash: K -> nat, ops: seq<Op<K, V>>) returns (out: seq<Answer<V>>)
    requires Fits(ops)
    ensures out == Answers(ops)
  {
    hide Quadratic.Khash.Valid, Quadratic.Khash.Map, MapAfter, Answers;
    var t := new Quadratic.Khash<K, V>(hash);
    out := [];
    RunNone<K, V>();
    var i := 0;
    assert ops[..0] == [];
    while i < |ops|
      invariant i <= |ops| && t.Valid() && fresh(t) && fresh(t.flags) && fresh(t.keys) && fresh(t.vals)
      invariant t.Map() == MapAfter(ops[..i]) && out == Answers(ops[..i]) && |t.Map()| <= i
    {
      RunStep(ops, i);
      var a := StepKhash(t, ops[i]);
      out := out + [a];
      i := i + 1;
    }
    assert ops[..i] == ops;
  }

  lemma RunNone<K, V>()
    ensures MapAfter<K, V>([]) == map[] && Answers<K, V>([]) == []
  {
  }

  lemma DropSize<K, V>(m: map<K, V>, k: K)
    ensures |m - {k}| <= |m|
  {
    if k in m {
      LessOne(m, k);
    } else {
      assert m - {k} == m;
    }
  }

  lemma AddSize<K, V>(m: map<K, V>, k: K, v: V)
    ensures |m[k := v]| <= |m| + 1
  {
    assert m[k := v] - {k} == m - {k};
    LessOne(m[k := v], k);
    DropSize(m, k);
  }

  method StepKhash<K(==, 0), V(0)>(t: Quadratic.Khash<K, V>, op: Op<K, V>) returns (a: Answer<V>)
    requires t.Valid() && |t.Map()| < 0x4000_0000
    modifies t, t.flags, t.keys, t.vals
    ensures t.Valid() && t.Map() == After(old(t.Map()), op) && a == Says(old(t.Map()), op)
    ensures |t.Map()| <= |old(t.Map())| + 1
    ensures fresh(t.flags) || t.flags == old(t.flags)
    ensures fresh(t.keys) || t.keys == old(t.keys)
    ensures fresh(t.vals) || t.vals == old(t.vals)
  {
    hide Quadratic.Khash.Valid, Quadratic.Khash.Map;
    t.SizeCounts();
    match op {
      case Put(k, v) =>
        AddSize(t.Map(), k, v);
        a := PutKhash(t, k, v);
      case Delete(k) =>
        DropSize(t.Map(), k);
        a := DeleteKhash(t, k);
      case Find(k) =>
        a := FindKhash(t, k);
      case Resize(n) =>
        t.Resize(n);
        a := Nothing;
    }
  }

  lemma PutTwice<K, V>(m: map<K, V>, k: K, v: V, w: V)
    ensures m[k := w][k := v] == m[k := v]
  {
  }

  method PutKhash<K(==, 0), V(0)>(t: Quadratic.Khash<K, V>, k: K, v: V) returns (a: Answer<V>)
    requires t.Valid() && t.CanPut()
    modifies t, t.flags, t.keys, t.vals
    ensures t.Valid() && t.Map() == old(t.Map())[k := v] && a == Was(k in old(t.Map()))
    ensures fresh(t.flags) || t.flags == old(t.flags)
    ensures fresh(t.keys) || t.keys == old(t.keys)
    ensures fresh(t.vals) || t.vals == old(t.vals)
  {
    hide Quadratic.WellFormed, KhashTheory.Contents, PackedFlags.Marks;
    ghost var m := t.Map();
    var x, ret := t.Put(k);
    PutTwice(m, k, v, t.vals[x]);
    t.SetValue(x, v);
    a := Was(ret == 0);
  }

  method DeleteKhash<K(==, 0), V(0)>(t: Quadratic.Khash<K, V>, k: K) returns (a: Answer<V>)
    requires t.Valid()
    modifies t`size, t.flags
    ensures t.Valid() && t.Map() == old(t.Map()) - {k} && a == Was(k in old(t.Map()))
  {
    hide Quadratic.WellFormed, KhashTheory.Contents, PackedFlags.Marks;
    ghost var m := t.Map();
    var x := t.Get(k);
    a := Was(x != t.nBuckets);
    t.Del(x);
    assert k !in m ==> m - {k} == m;
  }

  method FindKhash<K(==, 0), V(0)>(t: Quadratic.Khash<K, V>, k: K) returns (a: Answer<V>)
    requires t.Valid()
    ensures a == if k in t.Map() then Found(t.Map()[k]) else Absent
  {
    hide Quadratic.WellFormed, KhashTheory.Contents, PackedFlags.Marks;
    var x := t.Get(k);
    a := if x == t.nBuckets then Absent else Found(t.vals[x]);
  }

  /** khashl answers as the map does, and so as khash. */
  method RunKhashl<K(==, 0), V(0)>(hash: K -> nat, ops: seq<Op<K, V>>) returns (out: seq<Answer<V>>)
    requires Fits(ops)
    ensures out == Answers(ops)
  {
    hide Linear.Khashl.Valid, MapAfter, Answers;
    var t := new Linear.Khashl<K, V>(hash);
    out := [];
    RunNone<K, V>();
    var i := 0;
    assert ops[..0] == [];
    while i < |ops|
      invariant i <= |ops| && t.Valid() && fresh(t) && fresh(t.used) && fresh(t.keys)
      invariant t.contents == MapAfter(ops[..i]) && out == Answers(ops[..i]) && |t.contents| <= i
    {
      RunStep(ops, i);
      var a := StepKhashl(t, ops[i]);
      out := out + [a];
      i := i + 1;
    }
    assert ops[..i] == ops;
  }

  method StepKhashl<K(==, 0), V(0)>(t: Linear.Khashl<K, V>, op: Op<K, V>) returns (a: Answer<V>)
    requires t.Valid() && |t.contents| < 0x4000_0000 && (op.Resize? ==> op.buckets <= 0x8000_0000)
    modifies t, t.used, t.keys
    ensures t.Valid() && t.contents == After(old(t.contents), op) && a == Says(old(t.contents), op)
    ensures |t.contents| <= |old(t.contents)| + 1
    ensures fresh(t.used) || t.used == old(t.used)
    ensures fresh(t.keys) || t.keys == old(t.keys)
  {
    hide Linear.Khashl.Valid;
    match op {
      case Put(k, v) =>
        AddSize(t.contents, k, v);
        CountIs(t);
        a := PutKhashl(t, k, v);
      case Delete(k) =>
        DropSize(t.contents, k);
        a := DeleteKhashl(t, k);
      case Find(k) =>
        a := FindKhashl(t, k);
      case Resize(n) =>
        ghost var b := t.Resize(n);
        a := Nothing;
    }
  }

  method DeleteKhashl<K(==, 0), V(0)>(t: Linear.Khashl<K, V>, k: K) returns (a: Answer<V>)
    requires t.Valid()
    modifies t`count, t`contents, t.used, t.keys
    ensures t.Valid() && t.contents == old(t.contents) - {k} && a == Was(k in old(t.contents))
  {
    hide Linear.WellFormed, UsedBits.Used;
    ghost var m := t.contents;
    var x := t.Get(k);
    a := Was(x != t.keys.Length);
    if x != t.keys.Length {
      var ok := t.Del(x);
    } else {
      assert m - {k} == m;
    }
  }

  method FindKhashl<K(==, 0), V(0)>(t: Linear.Khashl<K, V>, k: K) returns (a: Answer<V>)
    requires t.Valid()
    ensures a == if k in t.contents then Found(t.contents[k]) else Absent
  {
    hide Linear.WellFormed, UsedBits.Used;
    var x := t.Get(k);
    a := if x == t.keys.Length then Absent else Found(t.keys[x].val);
  }

  lemma CountIs<K(0), V(0)>(t: Linear.Khashl<K, V>)
    requires t.Valid() && |t.contents| < 0x4000_0000
    ensures t.CanPut()
  {
    if t.keys.Length > 0 {
      Pow2Mono(t.bits, 31);
      Pow2Of32();
    }
  }

  method PutKhashl<K(==, 0), V(0)>(t: Linear.Khashl<K, V>, k: K, v: V) returns (a: Answer<V>)
    requires t.Valid() && t.CanPut()
    modifies t, t.used, t.keys
    ensures t.Valid() && t.contents == old(t.contents)[k := v] && a == Was(k in old(t.contents))
    ensures fresh(t.used) || t.used == old(t.used)
    ensures fresh(t.keys) || t.keys == old(t.keys)
  {
    hide Linear.WellFormed, UsedBits.Used, Linear.Khashl.Valid;
    ghost var m := t.contents;
    var x, absent := t.Put(Bucket(k, v));
    t.SetValue(x, v);
    a := Was(absent == 0);
    assert t.contents == m[k := v];
  }
}
