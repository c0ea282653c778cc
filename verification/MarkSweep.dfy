/** The conservative mark-and-sweep collector, whose registry of blocks is a khash table.  The collector
    uses only what the table promises about the map it represents. */
module MarkSweep {
  import opened PackedFlags
  import opened KhashTheory
  import opened Khash

  const WORD := 8
  const SIZE_LIMIT := 0x4000_0000
  const MIN_ITEMS := 170
  const GROW_FACTOR := 2

  /** A registered block: whether it holds no pointers, whether it is marked, and its size modulo 2^30. */
  datatype MemInfo = MemInfo(leaf: bool, mark: bool, size: nat)

  type Registry = map<nat, MemInfo>

  function HashAddress(a: nat): nat {
    a / 16 % 0x1_0000_0000
  }

  /** Word i of the block at a. */
  ghost function Slot(heap: map<nat, nat>, a: nat, i: nat): nat {
    if HasSlot(heap, a, i) then heap[a + i * WORD] else 0
  }

  ghost predicate HasSlot(heap: map<nat, nat>, a: nat, i: nat) {
    a + i * WORD in heap
  }

  /** A word that the collector takes for a pointer to a registered block. */
  ghost predicate Pointer(m: Registry, lower: nat, upper: nat, w: nat) {
    w in m && lower <= w < upper
  }

  /** The aligned words of block a that are pointers all lead into s. */
  ghost predicate LeadsInto(m: Registry, heap: map<nat, nat>, lower: nat, upper: nat, a: nat, s: set<nat>)
    requires a in m
  {
    m[a].leaf || forall i :: 0 <= i < m[a].size / WORD && Pointer(m, lower, upper, Slot(heap, a, i)) ==>
                               Slot(heap, a, i) in s
  }

  ghost predicate Closed(m: Registry, heap: map<nat, nat>, lower: nat, upper: nat, s: set<nat>) {
    forall a :: a in s && a in m ==> LeadsInto(m, heap, lower, upper, a, s)
  }

  ghost predicate RootsIn(m: Registry, lower: nat, upper: nat, stack: seq<nat>, s: set<nat>) {
    forall w :: w in stack && Pointer(m, lower, upper, w) ==> w in s
  }

  /** The blocks that can be reached from the stack: those in every closed set that holds its pointers. */
  ghost function Reachable(m: Registry, heap: map<nat, nat>, lower: nat, upper: nat, stack: seq<nat>): (r: set<nat>)
    ensures r <= m.Keys
  {
    set a | a in m && forall s: set<nat> :: Closed(m, heap, lower, upper, s) && RootsIn(m, lower, upper, stack, s) ==> a in s
  }

  ghost function Marked(m: Registry): (s: set<nat>)
    ensures s <= m.Keys
    ensures forall a :: a in s <==> a in m && m[a].mark
  {
    set a | a in m && m[a].mark
  }

  /** The same blocks, perhaps with other marks. */
  ghost predicate SameBlocks(m: Registry, m': Registry) {
    m.Keys == m'.Keys && forall a :: a in m ==> m'[a] == m[a].(mark := m'[a].mark)
  }

  /** All blocks lie within the bounds, and their words can be read. */
  ghost predicate Bounded(m: Registry, lower: nat, upper: nat) {
    forall a :: a in m ==> 0 < lower <= a && a + m[a].size <= upper && m[a].size < SIZE_LIMIT
  }

  ghost predicate WordsIn(heap: map<nat, nat>, a: nat, n: nat) {
    forall i: nat :: i < n ==> HasSlot(heap, a, i)
  }

  lemma WordThere(m: Registry, heap: map<nat, nat>, a: nat, i: nat)
    requires Readable(m, heap) && a in m && !m[a].leaf && i < m[a].size / WORD
    ensures a + i * WORD in heap && Slot(heap, a, i) == heap[a + i * WORD]
  {
    assert HasSlot(heap, a, i);
  }

  ghost predicate Readable(m: Registry, heap: map<nat, nat>) {
    forall a :: a in m && !m[a].leaf ==> WordsIn(heap, a, m[a].size / WORD)
  }

  /** What the sweep leaves of m when it has seen the blocks of done. */
  ghost function Swept(m: Registry, done: set<nat>): (r: Registry)
    ensures r.Keys <= m.Keys
    ensures forall a :: a in r <==> a in m && (a in done ==> m[a].mark)
    ensures forall a :: a in r ==> r[a] == if a in done then m[a].(mark := false) else m[a]
  {
    map a | a in m && (a in done ==> m[a].mark) :: if a in done then m[a].(mark := false) else m[a]
  }

  // ----- sums of sizes -----

  ghost function Sum(m: Registry): nat
    decreases |m|
  {
    if m == map[] then 0 else var a :| a in m; Fewer(m, a); m[a].size + Sum(m - {a})
  }

  lemma Fewer(m: Registry, a: nat)
    requires a in m
    ensures |m - {a}| == |m| - 1
  {
    assert (m - {a}).Keys == m.Keys - {a};
    assert |m.Keys| == |m| && |(m - {a}).Keys| == |m - {a}|;
  }

  /** Any block can be taken out of the sum first. */
  lemma {:induction false} SumTake(m: Registry, a: nat)
    requires a in m
    ensures Sum(m) == m[a].size + Sum(m - {a})
    decreases |m|
  {
    var b :| b in m && Sum(m) == m[b].size + Sum(m - {b});
    if a != b {
      Fewer(m, a);
      Fewer(m, b);
      SumTake(m - {a}, b);
      SumTake(m - {b}, a);
      assert m - {a} - {b} == m - {b} - {a};
    }
  }

  lemma SumSet(m: Registry, a: nat, v: MemInfo)
    ensures a in m ==> Sum(m[a := v]) == Sum(m) - m[a].size + v.size
    ensures a !in m ==> Sum(m[a := v]) == Sum(m) + v.size
  {
    SumTake(m[a := v], a);
    if a in m {
      SumTake(m, a);
      assert m[a := v] - {a} == m - {a};
    } else {
      assert m[a := v] - {a} == m;
    }
  }

  // ----- reachability -----

  lemma ReachableLeast(m: Registry, heap: map<nat, nat>, lower: nat, upper: nat, stack: seq<nat>, s: set<nat>)
    requires Closed(m, heap, lower, upper, s) && RootsIn(m, lower, upper, stack, s) && s <= m.Keys
    requires forall c: set<nat> :: Closed(m, heap, lower, upper, c) && RootsIn(m, lower, upper, stack, c) ==> s <= c
    ensures s == Reachable(m, heap, lower, upper, stack)
  {
    forall a | a in s ensures a in Reachable(m, heap, lower, upper, stack) {
      forall c: set<nat> | Closed(m, heap, lower, upper, c) && RootsIn(m, lower, upper, stack, c) ensures a in c {
      }
    }
  }

  /** A block without size at the very top of the bounds is not taken for reachable, even from the stack. */
  lemma EmptyBlockIsLost(a: nat)
    requires a > 0
    ensures var m := map[a := MemInfo(false, false, 0)];
            Bounded(m, a, a) && a !in Reachable(m, map[], a, a, [a])
  {
    var m: Registry := map[a := MemInfo(false, false, 0)];
    assert Closed(m, map[], a, a, {}) && RootsIn(m, a, a, [a], {});
  }

  /** Every word that is the address of a block of at least one byte is taken for a pointer. */
  lemma PointerExact(m: Registry, lower: nat, upper: nat, w: nat)
    requires Bounded(m, lower, upper)
    ensures Pointer(m, lower, upper, w) <==> w in m && (m[w].size > 0 || w < upper)
  {
  }

  /** What marking from one word has achieved: the blocks newly marked lead only to marked blocks, and they
      are in every closed set that holds the word. */
  ghost predicate MarkedFrom(m: Registry, heap: map<nat, nat>, lower: nat, upper: nat, w: nat, before: set<nat>, after: set<nat>)
  {
    && before <= after <= m.Keys
    && (Pointer(m, lower, upper, w) ==> w in after)
    && (forall a :: a in after && a !in before ==> LeadsInto(m, heap, lower, upper, a, after))
    && forall c: set<nat> :: Closed(m, heap, lower, upper, c) && (Pointer(m, lower, upper, w) ==> w in c) ==> after - before <= c
  }

  /** Marking a block is under way: its first i words have been followed. */
  ghost predicate Following(m: Registry, heap: map<nat, nat>, lower: nat, upper: nat, w: nat, i: nat, before: set<nat>,
                            after: set<nat>)
    requires w in m
  {
    && before + {w} <= after <= m.Keys
    && (forall j ::
          0 <= j < i && Pointer(m, lower, upper, Slot(heap, w, j)) ==> Slot(heap, w, j) in after)
    && (forall a :: a in after && a !in before && a != w ==> LeadsInto(m, heap, lower, upper, a, after))
    && forall c: set<nat> :: Closed(m, heap, lower, upper, c) && w in c ==> after - before <= c
  }

  lemma LeadsAt(m: Registry, heap: map<nat, nat>, lower: nat, upper: nat, a: nat, i: nat, s: set<nat>)
    requires Closed(m, heap, lower, upper, s) && a in s && a in m && !m[a].leaf && i < m[a].size / WORD
    ensures Pointer(m, lower, upper, Slot(heap, a, i)) ==> Slot(heap, a, i) in s
  {
    assert LeadsInto(m, heap, lower, upper, a, s);
  }

  lemma LeadsMore(m: Registry, heap: map<nat, nat>, lower: nat, upper: nat, a: nat, s: set<nat>, t: set<nat>)
    requires a in m && LeadsInto(m, heap, lower, upper, a, s) && s <= t
    ensures LeadsInto(m, heap, lower, upper, a, t)
  {
  }

  lemma FollowStep(m: Registry, heap: map<nat, nat>, lower: nat, upper: nat, w: nat, i: nat, before: set<nat>,
                   mid: set<nat>, after: set<nat>)
    requires w in m && !m[w].leaf && i < m[w].size / WORD && Following(m, heap, lower, upper, w, i, before, mid)
    requires MarkedFrom(m, heap, lower, upper, Slot(heap, w, i), mid, after)
    ensures Following(m, heap, lower, upper, w, i + 1, before, after)
  {
    hide LeadsInto;
    forall j | 0 <= j < i + 1 && Pointer(m, lower, upper, Slot(heap, w, j))
      ensures Slot(heap, w, j) in after
    {
      if j < i {
        assert Slot(heap, w, j) in mid;
      }
    }
    forall a | a in after && a !in before && a != w ensures LeadsInto(m, heap, lower, upper, a, after) {
      if a in mid {
        LeadsMore(m, heap, lower, upper, a, mid, after);
      }
    }
    forall c: set<nat> | Closed(m, heap, lower, upper, c) && w in c ensures after - before <= c {
      LeadsAt(m, heap, lower, upper, w, i, c);
    }
  }

  lemma FollowSmaller(m: Registry, heap: map<nat, nat>, lower: nat, upper: nat, w: nat, i: nat, before: set<nat>, after: set<nat>)
    requires w in m && w !in before && Following(m, heap, lower, upper, w, i, before, after)
    ensures m.Keys - after < m.Keys - before
  {
    assert w in m.Keys - before && w !in m.Keys - after;
  }

  lemma FollowStart(m: Registry, heap: map<nat, nat>, lower: nat, upper: nat, w: nat, before: set<nat>)
    requires w in m && before <= m.Keys
    ensures Following(m, heap, lower, upper, w, 0, before, before + {w})
  {
  }

  lemma FollowDone(m: Registry, heap: map<nat, nat>, lower: nat, upper: nat, w: nat, i: nat, before: set<nat>, after: set<nat>)
    requires w in m && Following(m, heap, lower, upper, w, i, before, after) && Pointer(m, lower, upper, w)
    requires m[w].leaf || i == m[w].size / WORD
    ensures MarkedFrom(m, heap, lower, upper, w, before, after)
  {
  }

  /** Marking the stack is under way: its first i words have been followed from nothing. */
  ghost predicate Rooting(m: Registry, heap: map<nat, nat>, lower: nat, upper: nat, stack: seq<nat>, i: nat, after: set<nat>)
    requires i <= |stack|
  {
    && after <= m.Keys && Closed(m, heap, lower, upper, after) && RootsIn(m, lower, upper, stack[..i], after)
    && forall c: set<nat> :: Closed(m, heap, lower, upper, c) && RootsIn(m, lower, upper, stack, c) ==> after <= c
  }

  lemma RootStep(m: Registry, heap: map<nat, nat>, lower: nat, upper: nat, stack: seq<nat>, i: nat, mid: set<nat>, after: set<nat>)
    requires i < |stack| && Rooting(m, heap, lower, upper, stack, i, mid)
    requires MarkedFrom(m, heap, lower, upper, stack[i], mid, after)
    ensures Rooting(m, heap, lower, upper, stack, i + 1, after)
  {
    forall a | a in after && a in m ensures LeadsInto(m, heap, lower, upper, a, after) {
      if a in mid {
        LeadsMore(m, heap, lower, upper, a, mid, after);
      }
    }
    assert stack[..i + 1] == stack[..i] + [stack[i]];
  }

  lemma RootStart(m: Registry, heap: map<nat, nat>, lower: nat, upper: nat, stack: seq<nat>)
    ensures Rooting(m, heap, lower, upper, stack, 0, {})
  {
  }

  lemma RootDone(m: Registry, heap: map<nat, nat>, lower: nat, upper: nat, stack: seq<nat>, after: set<nat>)
    requires Rooting(m, heap, lower, upper, stack, |stack|, after)
    ensures after == Reachable(m, heap, lower, upper, stack)
  {
    assert stack[..|stack|] == stack;
    ReachableLeast(m, heap, lower, upper, stack, after);
  }

  lemma MarkedNone(m: Registry, heap: map<nat, nat>, lower: nat, upper: nat, w: nat, before: set<nat>)
    requires before <= m.Keys && (Pointer(m, lower, upper, w) ==> w in before)
    ensures MarkedFrom(m, heap, lower, upper, w, before, before)
  {
  }

  lemma MarkOne(m: Registry, m1: Registry, m2: Registry, a: nat, on: bool)
    requires SameBlocks(m, m1) && a in m1 && m2 == m1[a := m1[a].(mark := on)]
    ensures SameBlocks(m, m2)
    ensures Marked(m2) == if on then Marked(m1) + {a} else Marked(m1) - {a}
  {
  }

  lemma SameKeys(m: Registry, m': Registry)
    requires SameBlocks(m, m')
    ensures m.Keys == m'.Keys
  {
  }

  lemma SameBlocksSelf(m: Registry)
    ensures SameBlocks(m, m)
  {
  }

  /** Marks do not count. */
  lemma {:induction false} SumSame(m: Registry, m': Registry)
    requires SameBlocks(m, m')
    ensures Sum(m) == Sum(m')
    decreases |m|
  {
    if m == map[] {
      assert m' == map[];
    } else {
      var a :| a in m;
      Fewer(m, a);
      SumTake(m, a);
      SumTake(m', a);
      SumSame(m - {a}, m' - {a});
    }
  }

  /** A sweep that has seen every block keeps the marked ones. */
  lemma SweptAll(m: Registry, m': Registry, done: set<nat>)
    requires m' == Swept(m, done) && m'.Keys <= done
    ensures m' == Swept(m, m.Keys)
    ensures Marked(m') == {} && m'.Keys == Marked(m)
  {
    forall a | a in m && m[a].mark ensures a in m' {
    }
    forall a | a in m && a !in m' ensures !m[a].mark {
    }
  }

  lemma SweepStart(m: Registry)
    ensures m == Swept(m, {})
  {
  }

  lemma SweepKeep(m: Registry, m1: Registry, done: set<nat>, a: nat)
    requires m1 == Swept(m, done) && a in m1 && a !in done && m1[a].mark
    ensures m1[a := m1[a].(mark := false)] == Swept(m, done + {a})
  {
  }

  lemma SweepDrop(m: Registry, m1: Registry, done: set<nat>, a: nat)
    requires m1 == Swept(m, done) && a in m1 && a !in done && !m1[a].mark
    ensures m1 - {a} == Swept(m, done + {a})
  {
  }

  lemma CollectDone(m: Registry, m1: Registry, m2: Registry, lower: nat, upper: nat)
    requires SameBlocks(m, m1) && m2 == Swept(m1, m1.Keys) && Marked(m) == {} && Bounded(m, lower, upper)
    ensures Bounded(m2, lower, upper) && (forall a :: a in m2 ==> a in m && m2[a] == m[a])
  {
    forall a | a in m2 ensures a in m && m2[a] == m[a] {
      assert a !in Marked(m);
    }
  }

  lemma BlockAt(m: Registry, m': Registry, lower: nat, upper: nat, a: nat)
    requires SameBlocks(m, m') && Bounded(m, lower, upper) && a in m'
    ensures a in m && m'[a] == m[a].(mark := m'[a].mark) && a + m[a].size <= upper
  {
  }

  lemma Registered(m: Registry, lower: nat, upper: nat, ptr: nat, info: MemInfo, size: nat)
    requires Bounded(m, lower, upper) && Marked(m) == {} && ptr > 0 && !info.mark && info.size == size % SIZE_LIMIT
    ensures Marked(m[ptr := info]) == {}
    ensures Bounded(m[ptr := info], if lower > ptr || lower == 0 then ptr else lower,
                    if upper < ptr + size then ptr + size else upper)
  {
    forall a | a in m ensures !m[a].mark {
      assert a !in Marked(m);
    }
  }

  lemma Forgotten(m: Registry, lower: nat, upper: nat, ptr: nat)
    requires Bounded(m, lower, upper) && Marked(m) == {}
    ensures Bounded(m - {ptr}, lower, upper) && Marked(m - {ptr}) == {}
  {
    forall a | a in m ensures !m[a].mark {
      assert a !in Marked(m);
    }
  }

  /** A collector with its registry. */
  class Context {
    const mem: Khash<nat, MemInfo>
    var lower: nat
    var upper: nat
    var maxItems: nat
    var gcNo: nat
    var memoryUse: int
    var freeBytes: int

    ghost predicate Valid()
      reads this, mem, mem.flags, mem.keys, mem.vals
    {
      mem.Valid() && Bounded(mem.Map(), lower, upper)
    }

    /** No block is marked, as it is outside of a collection. */
    ghost predicate Idle()
      reads this, mem, mem.flags, mem.keys, mem.vals
      requires mem.Valid()
    {
      Marked(mem.Map()) == {}
    }

    /** The bytes allocated and not freed, beyond what the registry accounts for. */
    ghost function Drift(): int
      reads this, mem, mem.flags, mem.keys, mem.vals
      requires mem.Valid()
    {
      memoryUse - freeBytes - Sum(mem.Map())
    }

    constructor ()
      ensures Valid() && Idle() && mem.Map() == map[] && Drift() == 0 && fresh(mem)
      ensures lower == 0 && upper == 0 && maxItems == 170 && gcNo == 0 && memoryUse == 0
      ensures fresh(mem.flags) && fresh(mem.keys) && fresh(mem.vals)
    {
      mem := new Khash(HashAddress);
      lower, upper, maxItems := 0, 0, MIN_ITEMS;
      gcNo, memoryUse, freeBytes := 0, 0, 0;
    }

    /** Sets or clears the mark of the block in bucket key. */
    method SetMark(key: nat, on: bool)
      requires mem.Valid() && key < mem.nBuckets && mem.Table()[key].Live?
      modifies mem.vals
      ensures mem.Valid() && mem.keys[key] in old(mem.Map())
      ensures mem.Map() == old(mem.Map())[mem.keys[key] := old(mem.Map())[mem.keys[key]].(mark := on)]
    {
      var live := mem.Exists(key);
      mem.SetValue(key, mem.vals[key].(mark := on));
    }

    /** Marks the block at value and everything that its words lead to. */
    method MarkPtr(value: nat, heap: map<nat, nat>, ghost m: Registry)
      requires mem.Valid() && SameBlocks(m, mem.Map()) && Bounded(m, lower, upper) && Readable(m, heap)
      modifies mem.vals
      ensures mem.Valid() && SameBlocks(m, mem.Map())
      ensures MarkedFrom(m, heap, lower, upper, value, old(Marked(mem.Map())), Marked(mem.Map()))
      decreases m.Keys - Marked(mem.Map()), 1
    {
      hide Marked, MarkedFrom, LeadsInto, Closed, Following, Readable, WellFormed, Khash.Map, Marks, SameBlocks, Bounded;
      SameKeys(m, mem.Map());
      ghost var before := Marked(mem.Map());
      if value < lower || value >= upper {
        MarkedNone(m, heap, lower, upper, value, before);
        return;
      }
      var key := mem.Get(value);
      if key == mem.nBuckets {
        MarkedNone(m, heap, lower, upper, value, before);
        return;
      }
      if mem.vals[key].mark {
        MarkedNone(m, heap, lower, upper, value, before);
        return;
      }
      MarkOne(m, mem.Map(), mem.Map()[value := mem.Map()[value].(mark := true)], value, true);
      BlockAt(m, mem.Map(), lower, upper, value);
      FollowStart(m, heap, lower, upper, value, before);
      var info := mem.vals[key];
      SetMark(key, true);
      if info.leaf {
        FollowDone(m, heap, lower, upper, value, 0, before, Marked(mem.Map()));
        return;
      }
      var size := info.size;
      if value + size > upper {
        size := upper - value;
      }
      size := size / WORD;
      FollowWords(value, size, heap, m, before);
      FollowDone(m, heap, lower, upper, value, size, before, Marked(mem.Map()));
    }

    /** Follows the aligned words of a block that was just marked. */
    method FollowWords(value: nat, size: nat, heap: map<nat, nat>, ghost m: Registry, ghost before: set<nat>)
      requires mem.Valid() && SameBlocks(m, mem.Map()) && Bounded(m, lower, upper) && Readable(m, heap)
      requires value in m && !m[value].leaf && size == m[value].size / WORD && value !in before
      requires Following(m, heap, lower, upper, value, 0, before, Marked(mem.Map()))
      modifies mem.vals
      ensures mem.Valid() && SameBlocks(m, mem.Map())
      ensures Following(m, heap, lower, upper, value, size, before, Marked(mem.Map()))
      decreases m.Keys - before, 0
    {
      hide Marked, MarkedFrom, LeadsInto, Closed, Khash.Valid, Khash.Map, Following, Pointer, Readable, Slot, HasSlot, SameBlocks, Bounded;
      SameKeys(m, mem.Map());
      BlockAt(m, mem.Map(), lower, upper, value);
      var i := 0;
      while i < size
        invariant i <= size && mem.Valid() && SameBlocks(m, mem.Map())
        invariant Following(m, heap, lower, upper, value, i, before, Marked(mem.Map()))
      {
        var slotAddr := value + i * WORD;
        if slotAddr + WORD > upper {
          break;
        }
        WordThere(m, heap, value, i);
        ghost var mid := Marked(mem.Map());
        FollowSmaller(m, heap, lower, upper, value, i, before, mid);
        MarkPtr(heap[slotAddr], heap, m);
        FollowStep(m, heap, lower, upper, value, i, before, mid, Marked(mem.Map()));
        i := i + 1;
      }
    }

    /** Marks everything that the words of the stack lead to. */
    method MarkStack(stack: seq<nat>, heap: map<nat, nat>)
      requires Valid() && Idle() && Readable(mem.Map(), heap)
      modifies mem.vals
      ensures mem.Valid() && SameBlocks(old(mem.Map()), mem.Map())
      ensures Marked(mem.Map()) == Reachable(old(mem.Map()), heap, lower, upper, stack)
    {
      hide Marked, MarkedFrom, LeadsInto, Closed, RootsIn, Rooting, Readable, Bounded, Reachable, Khash.Valid, Khash.Map;
      ghost var m := mem.Map();
      SameBlocksSelf(m);
      RootStart(m, heap, lower, upper, stack);
      var i := 0;
      while i < |stack|
        invariant i <= |stack| && mem.Valid() && SameBlocks(m, mem.Map())
        invariant Rooting(m, heap, lower, upper, stack, i, Marked(mem.Map()))
      {
        ghost var mid := Marked(mem.Map());
        MarkPtr(stack[i], heap, m);
        RootStep(m, heap, lower, upper, stack, i, mid, Marked(mem.Map()));
        i := i + 1;
      }
      RootDone(m, heap, lower, upper, stack, Marked(mem.Map()));
    }

    /** Walks the buckets: frees the blocks that are not marked and clears the other marks. */
    method Scan() returns (freed: set<nat>)
      requires mem.Valid()
      modifies this`freeBytes, mem`size, mem.flags, mem.vals
      ensures mem.Valid() && mem.Map() == Swept(old(mem.Map()), old(mem.Map()).Keys)
      ensures Idle() && mem.Map().Keys == Marked(old(mem.Map())) && freed == old(mem.Map()).Keys - mem.Map().Keys
      ensures Drift() == old(Drift())
    {
      hide Marked, Swept, Sum, WellFormed, Contents, Marks;
      ghost var m, drift := mem.Map(), Drift();
      ghost var done := {};
      freed := {};
      SweepStart(m);
      var key := 0;
      while key != mem.nBuckets
        invariant key <= mem.nBuckets && mem.Valid() && mem.Map() == Swept(m, done) && Drift() == drift
        invariant freed == m.Keys - mem.Map().Keys
        invariant forall b :: key <= b < mem.nBuckets && mem.Table()[b].Live? ==> mem.keys[b] !in done
        invariant forall b :: 0 <= b < key && mem.Table()[b].Live? ==> mem.keys[b] in done
      {
        if mem.Exists(key) {
          freed := ScanOne(key, m, done, freed);
          done := done + {mem.keys[key]};
        }
        key := key + 1;
      }
      AllDone(done);
      SweptAll(m, mem.Map(), done);
    }

    lemma AllDone(done: set<nat>)
      requires mem.Valid() && forall b :: 0 <= b < mem.nBuckets && mem.Table()[b].Live? ==> mem.keys[b] in done
      ensures forall a :: a in mem.Map() ==> a in done
    {
      hide WellFormed, Contents, Marks;
      forall a | a in mem.Map() ensures a in done {
        var x := mem.BucketOfKey(a);
      }
    }

    method ScanOne(key: nat, ghost m: Registry, ghost done: set<nat>, freed: set<nat>) returns (freed': set<nat>)
      requires mem.Valid() && key < mem.nBuckets && mem.Exists(key) && mem.keys[key] !in done
      requires mem.Map() == Swept(m, done) && freed == m.Keys - mem.Map().Keys
      modifies this`freeBytes, mem`size, mem.flags, mem.vals
      ensures mem.Valid() && mem.Map() == Swept(m, done + {mem.keys[key]}) && Drift() == old(Drift())
      ensures freed' == m.Keys - mem.Map().Keys
      ensures forall b :: 0 <= b < mem.nBuckets && b != key ==> mem.Table()[b] == old(mem.Table())[b]
    {
      hide Marked, Sum, WellFormed, Contents, Marks, Swept;
      freed' := freed;
      if mem.vals[key].mark {
        SweepKeep(m, mem.Map(), done, mem.keys[key]);
        Keep(key);
      } else {
        SweepDrop(m, mem.Map(), done, mem.keys[key]);
        freed' := freed + {mem.keys[key]};
        Drop(key);
      }
    }

    method Keep(key: nat)
      requires mem.Valid() && key < mem.nBuckets && mem.Exists(key)
      modifies mem.vals
      ensures mem.Valid() && Drift() == old(Drift())
      ensures mem.Map() == old(mem.Map())[mem.keys[key] := old(mem.Map())[mem.keys[key]].(mark := false)]
    {
      hide Sum, WellFormed, Contents, Marks;
      ghost var m, a := mem.Map(), mem.keys[key];
      SumSet(m, a, m[a].(mark := false));
      SetMark(key, false);
    }

    /** Frees the block of bucket key. */
    method Drop(key: nat)
      requires mem.Valid() && key < mem.nBuckets && mem.Exists(key)
      modifies this`freeBytes, mem`size, mem.flags
      ensures mem.Valid() && Drift() == old(Drift()) && mem.Map() == old(mem.Map()) - {mem.keys[key]}
      ensures mem.Table() == old(mem.Table())[key := Deleted]
    {
      hide Sum, WellFormed, Contents, Marks;
      SumTake(mem.Map(), mem.keys[key]);
      freeBytes := freeBytes + mem.vals[key].size;
      mem.Del(key);
    }

    /** A collection: keeps exactly the blocks that can be reached from the stack and leaves none marked. */
    method Collect(stack: seq<nat>, heap: map<nat, nat>) returns (freed: set<nat>)
      requires Valid() && Idle() && Readable(mem.Map(), heap)
      modifies this`freeBytes, this`gcNo, mem`size, mem.flags, mem.vals
      ensures Valid() && Idle() && Drift() == old(Drift()) && gcNo == old(gcNo) + 1
      ensures mem.Map().Keys == Reachable(old(mem.Map()), heap, lower, upper, stack)
      ensures forall a :: a in mem.Map() ==> mem.Map()[a] == old(mem.Map())[a]
      ensures freed == old(mem.Map()).Keys - mem.Map().Keys
    {
      hide Reachable, Sum, Khash.Valid, Khash.Map, Marked, Swept, SameBlocks, Bounded, Readable;
      ghost var m := mem.Map();
      MarkStack(stack, heap);
      ghost var m1 := mem.Map();
      SumSame(m, m1);
      SameKeys(m, m1);
      freed := Scan();
      CollectDone(m, m1, mem.Map(), lower, upper);
      gcNo := gcNo + 1;
    }

    /** Registers a block of size bytes, whose bytes are cleared or were copied, and collects when there are
        more blocks than twice as many as the last collection left. */
    method Remind(ptr: nat, size: nat, leaf: bool, stack: seq<nat>, heap: map<nat, nat>) returns (freed: set<nat>)
      requires Valid() && Idle() && ptr > 0 && ptr !in mem.Map() && mem.CanPut()
      requires Readable(mem.Map()[ptr := MemInfo(leaf, false, size % 0x4000_0000)], heap)
      modifies this, mem, mem.flags, mem.keys, mem.vals
      ensures Valid() && Idle()
      ensures fresh(mem.flags) || mem.flags == old(mem.flags)
      ensures fresh(mem.keys) || mem.keys == old(mem.keys)
      ensures fresh(mem.vals) || mem.vals == old(mem.vals)
      ensures Drift() == old(Drift()) + size - size % 0x4000_0000
      ensures lower == (if old(lower) == 0 || ptr < old(lower) then ptr else old(lower))
      ensures upper == (if old(upper) < ptr + size then ptr + size else old(upper))
      ensures memoryUse == old(memoryUse) + size
      ensures var m := old(mem.Map())[ptr := MemInfo(leaf, false, size % 0x4000_0000)];
              if |m| <= old(maxItems) then
                mem.Map() == m && freed == {} && maxItems == old(maxItems)
              else
                && mem.Map().Keys == Reachable(m, heap, lower, upper, stack) && freed == m.Keys - mem.Map().Keys
                && (forall a :: a in mem.Map() ==> mem.Map()[a] == m[a])
                && maxItems == 2 * |mem.Map()| && gcNo == old(gcNo) + 1
    {
      hide Reachable, Sum, Khash.Valid, Khash.Map, Marked, Swept, Bounded, Readable;
      Register(ptr, size, leaf);
      freed := {};
      mem.SizeCounts();
      if maxItems < mem.size {
        freed := Collect(stack, heap);
        mem.SizeCounts();
        maxItems := mem.size * GROW_FACTOR;
      }
    }

    method Register(ptr: nat, size: nat, leaf: bool)
      requires Valid() && Idle() && ptr > 0 && ptr !in mem.Map() && mem.CanPut()
      modifies this`lower, this`upper, this`memoryUse, mem, mem.flags, mem.keys, mem.vals
      ensures Valid() && Idle()
      ensures fresh(mem.flags) || mem.flags == old(mem.flags)
      ensures fresh(mem.keys) || mem.keys == old(mem.keys)
      ensures fresh(mem.vals) || mem.vals == old(mem.vals)
      ensures mem.Map() == old(mem.Map())[ptr := MemInfo(leaf, false, size % 0x4000_0000)]
      ensures lower == (if old(lower) == 0 || ptr < old(lower) then ptr else old(lower))
      ensures upper == (if old(upper) < ptr + size then ptr + size else old(upper))
      ensures memoryUse == old(memoryUse) + size
      ensures Drift() == old(Drift()) + size - size % 0x4000_0000
    {
      hide Reachable, Sum, Khash.Valid, Khash.Map, Marked, Swept, Bounded;
      ghost var m, info := mem.Map(), MemInfo(leaf, false, size % SIZE_LIMIT);
      Registered(m, lower, upper, ptr, info, size);
      if lower > ptr || lower == 0 {
        lower := ptr;
      }
      if upper < ptr + size {
        upper := ptr + size;
      }
      Enter(ptr, MemInfo(leaf, false, size % SIZE_LIMIT));
      SumSet(m, ptr, info);
      memoryUse := memoryUse + size;
    }

    method Enter(ptr: nat, info: MemInfo)
      requires mem.Valid() && mem.CanPut()
      modifies mem, mem.flags, mem.keys, mem.vals
      ensures mem.Valid() && mem.Map() == old(mem.Map())[ptr := info]
      ensures fresh(mem.flags) || mem.flags == old(mem.flags)
      ensures fresh(mem.keys) || mem.keys == old(mem.keys)
      ensures fresh(mem.vals) || mem.vals == old(mem.vals)
    {
      hide *;
      ghost var m := mem.Map();
      var key, rv := mem.Put(ptr);
      mem.SetValue(key, info);
      assert mem.Map() == m[ptr := info];
    }

    /** Takes a block out of the registry; an unknown block counts as one with pointers and without size. */
    method Forget(ptr: nat) returns (leaf: bool, size: nat)
      requires Valid() && Idle()
      modifies mem`size, mem.flags
      ensures Valid() && Idle() && mem.Map() == old(mem.Map()) - {ptr}
      ensures if ptr in old(mem.Map()) then leaf == old(mem.Map())[ptr].leaf && size == old(mem.Map())[ptr].size
              else !leaf && size == 0
      ensures Sum(mem.Map()) == old(Sum(mem.Map())) - size
      ensures old(mem.CanPut()) ==> mem.CanPut()
    {
      hide Sum, WellFormed, Contents, Marks, Marked, Bounded;
      ghost var m := mem.Map();
      leaf, size := false, 0;
      Forgotten(m, lower, upper, ptr);
      var key := mem.Get(ptr);
      if key != mem.nBuckets {
        leaf, size := mem.vals[key].leaf, mem.vals[key].size;
        SumTake(m, ptr);
        mem.Del(key);
      } else {
        assert m - {ptr} == m;
      }
    }

    /** Moves the block at ptr to moved, with a new size; moved is 0 if the C library found no room, and then
        the block is not registered any more. */
    method Realloc(ptr: nat, moved: nat, size: nat, stack: seq<nat>, heap: map<nat, nat>) returns (freed: set<nat>)
      requires Valid() && Idle() && moved !in mem.Map() - {ptr} && mem.CanPut()
      requires Readable((mem.Map() - {ptr})[moved := MemInfo(LeafOf(ptr), false, size % 0x4000_0000)], heap)
      modifies this, mem, mem.flags, mem.keys, mem.vals
      ensures Valid() && Idle()
      ensures moved == 0 ==> mem.Map() == old(mem.Map()) - {ptr} && Drift() == old(Drift())
      ensures var was := if ptr in old(mem.Map()) then old(mem.Map())[ptr].size else 0;
              memoryUse == old(memoryUse) - was + if moved == 0 then 0 else size
      ensures moved != 0 ==> Drift() == old(Drift()) + size - size % 0x4000_0000
      ensures moved != 0 ==>
                var m := (old(mem.Map()) - {ptr})[moved := MemInfo(old(LeafOf(ptr)), false, size % 0x4000_0000)];
                && (forall a :: a in mem.Map() ==> a in m && mem.Map()[a] == m[a])
                && (|m| <= old(maxItems) ==> mem.Map() == m)
                && (|m| > old(maxItems) ==> mem.Map().Keys == Reachable(m, heap, lower, upper, stack))
    {
      hide Sum, Khash.Valid, Khash.Map, Khash.CanPut, Marked, Bounded, Reachable, Readable;
      freed := {};
      var leaf, oldSize := Forget(ptr);
      memoryUse := memoryUse - oldSize;
      if moved != 0 {
        freed := Remind(moved, size, leaf, stack, heap);
      }
    }

    ghost function LeafOf(ptr: nat): bool
      reads this, mem, mem.flags, mem.keys, mem.vals
      requires mem.Valid()
    {
      ptr in mem.Map() && mem.Map()[ptr].leaf
    }
  }
}
