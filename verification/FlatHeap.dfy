/** A heap in which a root may lead to slots that count as free.

    A definition that begins after a term was executed leaves the current program behind, in slots that count as
    free: allocations write over them while a root still leads there, and a collection copies what it finds.  So
    nothing here is said about values; what holds is that references lead downwards and stay below a high-water
    mark. */
module FlatHeap {
  import opened HeapModel
  import opened CopyLayout
  import opened CopyTheory
  import opened Spaces
  import opened Identities

  // ----- the invariant -----

  ghost predicate Under(rank: map<nat, nat>, free: nat, bound: nat, x: nat, i: nat) {
    x < free || (x < bound && x in rank && i in rank && rank[x] < rank[i])
  }

  /** Slot i holds a node without text, whose references are below free, or below bound and down. */
  ghost predicate Lower(m: seq<Node>, rank: map<nat, nat>, free: nat, bound: nat, i: nat)
    requires i < |m|
  {
    && i in rank && Proper(m[i]) && !IsText(m[i].op)
    && Under(rank, free, bound, m[i].next, i) && (m[i].u.Lis? ==> Under(rank, free, bound, m[i].u.lis, i))
  }

  /** Every slot in use is a node that refers to slots in use, without cycles; every slot left behind, up to the
      high-water mark, is a node that refers to slots in use or, without cycles, to others left behind.  Only the
      current program may lie among these. */
  ghost predicate Flat(s: Space, top: nat, rank: map<nat, nat>) {
    && 0 < s.lo <= s.index <= top < s.max <= |s.slots| && |s.roots| == 9
    && DefinitionsClosed(s.slots, s.lo)
    && (forall i :: s.lo <= i < s.index ==> Lower(s.slots, rank, s.lo, s.index, i))
    && (forall i :: s.index <= i < top ==> Lower(s.slots, rank, s.index, top, i))
    && (forall j :: 0 <= j < 9 ==> s.roots[j] < if j == PROG then top else s.index)
  }

  /** An upper bound of the ranks from lo to hi. */
  ghost function Ceiling(rank: map<nat, nat>, lo: nat, hi: nat): nat {
    if hi <= lo then 0
    else var c := Ceiling(rank, lo, hi - 1);
         if hi - 1 in rank && rank[hi - 1] > c then rank[hi - 1] else c
  }

  lemma {:induction false} CeilingAbove(rank: map<nat, nat>, lo: nat, hi: nat, i: nat)
    requires lo <= i < hi && i in rank
    ensures rank[i] <= Ceiling(rank, lo, hi)
    decreases hi
  {
    if i < hi - 1 {
      CeilingAbove(rank, lo, hi - 1, i);
    }
  }

  /** One ranking for all: what is left behind ranks above what is in use. */
  ghost function Joint(rank: map<nat, nat>, lo: nat, index: nat, top: nat): (r: map<nat, nat>) {
    map i: nat | i in Between(lo, top) && i in rank ::
      if i < index then rank[i] else rank[i] + 1 + Ceiling(rank, lo, index)
  }

  lemma JointUnder(rank: map<nat, nat>, lo: nat, index: nat, top: nat, x: nat, i: nat)
    requires lo <= i < top && i in rank && lo <= index <= top
    requires if i < index then Under(rank, lo, index, x, i) else Under(rank, index, top, x, i)
    requires forall k :: lo <= k < top ==> k in rank
    ensures Under(Joint(rank, lo, index, top), lo, if i < index then index else top, x, i)
  {
    if lo <= x < index {
      CeilingAbove(rank, lo, index, x);
    }
  }

  lemma FlatRanks(s: Space, top: nat, rank: map<nat, nat>)
    requires Flat(s, top, rank)
    ensures forall k :: s.lo <= k < top ==> k in rank
  {
    forall k | s.lo <= k < top ensures k in rank {
      if k < s.index {
        assert Lower(s.slots, rank, s.lo, s.index, k);
      } else {
        assert Lower(s.slots, rank, s.index, top, k);
      }
    }
  }

  lemma JointLower(s: Space, top: nat, rank: map<nat, nat>, i: nat)
    requires Flat(s, top, rank) && s.lo <= i < top
    ensures Lower(s.slots, Joint(rank, s.lo, s.index, top), s.lo, if i < s.index then s.index else top, i)
  {
    hide Joint, Under;
    FlatRanks(s, top, rank);
    if i < s.index {
      assert Lower(s.slots, rank, s.lo, s.index, i);
    } else {
      assert Lower(s.slots, rank, s.index, top, i);
    }
    JointUnder(rank, s.lo, s.index, top, s.slots[i].next, i);
    if s.slots[i].u.Lis? {
      JointUnder(rank, s.lo, s.index, top, s.slots[i].u.lis, i);
    }
    JointKeys(rank, s.lo, s.index, top);
  }

  lemma JointKeys(rank: map<nat, nat>, lo: nat, index: nat, top: nat)
    requires forall k :: lo <= k < top ==> k in rank
    ensures Joint(rank, lo, index, top).Keys == Between(lo, top)
  {
  }

  // ----- a collection keeps it -----

  /** What a collection starts from. */
  lemma FlatCollectable(s: Space, top: nat, rank: map<nat, nat>, params: seq<nat>)
    requires Flat(s, top, rank) && forall i :: 0 <= i < |params| ==> params[i] < s.index
    ensures Collectable(s, Between(s.lo, top), Joint(rank, s.lo, s.index, top), params)
  {
    hide Joint;
    var all, joint := Between(s.lo, top), Joint(rank, s.lo, s.index, top);
    FlatRanks(s, top, rank);
    JointKeys(rank, s.lo, s.index, top);
    forall n | n in all
      ensures Proper(s.slots[n]) && RefsKnown(all, s.lo, s.slots[n])
      ensures Below(joint, s.lo, s.slots[n].next, n) && (s.slots[n].u.Lis? ==> Below(joint, s.lo, s.slots[n].u.lis, n))
    {
      JointLower(s, top, rank, n);
    }
    forall i | 0 <= i < |s.roots + params| ensures Known(all, s.lo, (s.roots + params)[i]) {
    }
  }

  /** Without texts a copy takes one slot for each node. */
  lemma {:induction false} FlatSize(m: seq<Node>, s: set<nat>, k: nat)
    requires k <= |m| && forall n :: n in s ==> n < k && !IsText(m[n].op)
    ensures SizeBelow(m, s, k) == |s|
    decreases |s|
  {
    if s == {} {
      SizeEmpty(m, k);
    } else {
      var a :| a in s;
      FlatSize(m, s - {a}, k);
      SizeBelowAdd(m, s - {a}, a, k);
      assert s - {a} + {a} == s;
    }
  }

  /** A collection needs no more than the slots below the high-water mark. */
  lemma FlatNeeds(s: Space, top: nat, rank: map<nat, nat>, params: seq<nat>)
    requires Flat(s, top, rank)
    ensures Needed(s, Between(s.lo, top), params) == s.lo + |Survivors(s, Between(s.lo, top), params)| <= top
  {
    var live := Survivors(s, Between(s.lo, top), params);
    forall n | n in live ensures n < top && !IsText(s.slots[n].op) {
      assert n in Between(s.lo, top);
      JointLower(s, top, rank, n);
    }
    FlatSize(s.slots, live, |s.slots|);
    BetweenSize(s.lo, top);
    SubsetSize(live, Between(s.lo, top));
  }

  lemma {:induction false} ImageSize(f: map<nat, nat>)
    requires forall a, b :: a in f && b in f && a != b ==> f[a] != f[b]
    ensures |f.Values| == |f.Keys|
    decreases |f.Keys|
  {
    if f.Keys == {} {
      assert f.Values == {};
    } else {
      var a :| a in f;
      var g := f - {a};
      ImageSize(g);
      assert f.Keys == g.Keys + {a};
      forall v | v in f.Values ensures v in g.Values + {f[a]} {
        var b :| b in f && f[b] == v;
        if b != a {
          assert b in g && g[b] == v;
        }
      }
      forall v | v in g.Values + {f[a]} ensures v in f.Values {
        if v in g.Values {
          var b :| b in g && g[b] == v;
          assert b in f && f[b] == v;
        }
      }
      assert f.Values == g.Values + {f[a]};
      forall b | b in g ensures g[b] != f[a] {
      }
      assert f[a] !in g.Values;
    }
  }

  /** Without texts the copies fill the slots up to the next free one. */
  lemma CopiesFill(m: seq<Node>, lo: nat, m': seq<Node>, idx: nat, f: map<nat, nat>)
    requires Isomorphic(m, lo, m', idx, f) && idx == lo + |f.Keys|
    ensures f.Values == Between(lo, idx)
  {
    forall a, b | a in f && b in f && a != b ensures f[a] != f[b] {
      assert Apart(f[a], CopySlots(m[a]), f[b], CopySlots(m[b]));
      SlotsTwice(m[a]);
      SlotsTwice(m[b]);
    }
    ImageSize(f);
    forall v | v in f.Values ensures lo <= v < idx {
      var a :| a in f && f[a] == v;
      SlotsTwice(m[a]);
    }
    BetweenSize(lo, idx);
    SubsetSize(f.Values, Between(lo, idx));
  }

  lemma MovedLower(s: Space, top: nat, rank: map<nat, nat>, m': seq<Node>, idx: nat, f: map<nat, nat>, i: nat)
    requires Flat(s, top, rank) && Isomorphic(s.slots, s.lo, m', idx, f) && f.Keys <= Between(s.lo, top)
    requires s.lo <= i < idx && i in f.Values && f.Values == Between(s.lo, idx)
    ensures Lower(m', IndexRank(f, Joint(rank, s.lo, s.index, top)), s.lo, idx, i)
  {
    hide Joint;
    var joint := Joint(rank, s.lo, s.index, top);
    var moved := IndexRank(f, joint);
    var n := Who(f, i);
    JointLower(s, top, rank, n);
    assert RefsKnown(f.Keys, s.lo, s.slots[n]) && m'[i] == Moved(f, s.lo, s.slots[n]);
    MovedUnder(s, top, rank, m', idx, f, s.slots[n].next, n);
    if s.slots[n].u.Lis? {
      MovedUnder(s, top, rank, m', idx, f, s.slots[n].u.lis, n);
    }
  }

  lemma MovedUnder(s: Space, top: nat, rank: map<nat, nat>, m': seq<Node>, idx: nat, f: map<nat, nat>, x: nat, n: nat)
    requires Isomorphic(s.slots, s.lo, m', idx, f) && f.Values == Between(s.lo, idx)
    requires n in f && Known(f.Keys, s.lo, x) && Under(Joint(rank, s.lo, s.index, top), s.lo, top, x, n)
    ensures f[n] in IndexRank(f, Joint(rank, s.lo, s.index, top))
    ensures Under(IndexRank(f, Joint(rank, s.lo, s.index, top)), s.lo, idx, Img(f, s.lo, x), f[n])
  {
    hide Joint;
    WhoMoved(s.slots, s.lo, m', idx, f, n);
    if x >= s.lo {
      WhoMoved(s.slots, s.lo, m', idx, f, x);
    }
  }

  lemma WhoMoved(m: seq<Node>, lo: nat, m': seq<Node>, idx: nat, f: map<nat, nat>, n: nat)
    requires Isomorphic(m, lo, m', idx, f) && n in f
    ensures f[n] in f.Values && Who(f, f[n]) == n
  {
    var k := Who(f, f[n]);
    if k != n {
      assert Apart(f[n], CopySlots(m[n]), f[k], CopySlots(m[k]));
      SlotsTwice(m[n]);
      SlotsTwice(m[k]);
    }
  }

  /** After a collection, perhaps into a larger memory, nothing is left behind. */
  lemma FlatCollected(s: Space, max: nat, top: nat, rank: map<nat, nat>, params: seq<nat>, s': Space, params': seq<nat>, fwd: map<nat, nat>)
    returns (rank': map<nat, nat>)
    requires Flat(s, top, rank) && s.max <= max
    requires Collected(s.(max := max), Between(s.lo, top), params, s', params', fwd)
    ensures Flat(s', s'.index, rank') && s'.index <= top && s'.lo == s.lo
    ensures |params'| == |params| && forall i :: 0 <= i < |params'| ==> params'[i] < s'.index
  {
    hide Isomorphic, Live, Size;
    FlatNeeds(s, top, rank, params);
    rank' := IndexRank(fwd, Joint(rank, s.lo, s.index, top));
    assert fwd.Keys <= Between(s.lo, top) by {
      SurvivorsBetween(s, Between(s.lo, top), params);
    }
    CopiesFill(s.slots, s.lo, s'.slots, s'.index, fwd);
    IsomorphicPrefix(s.slots, s.lo, s'.slots, s'.index, fwd);
    DefinitionsMoved(s.slots, s.lo, s'.slots, s'.index, fwd);
    forall i | s.lo <= i < s'.index ensures Lower(s'.slots, rank', s.lo, s'.index, i) {
      MovedLower(s, top, rank, s'.slots, s'.index, fwd, i);
    }
    ShrinkLeavesRoom(s'.index, max);
    ImagesBelow(fwd, s.lo, s.roots, s'.roots, s'.index);
    ImagesBelow(fwd, s.lo, params, params', s'.index);
  }

  lemma SurvivorsBetween(s: Space, all: set<nat>, params: seq<nat>)
    ensures Survivors(s, all, params) <= all
  {
  }

  lemma ImagesBelow(f: map<nat, nat>, lo: nat, xs: seq<nat>, ys: seq<nat>, hi: nat)
    requires Images(f, lo, xs, ys) && f.Values == Between(lo, hi) && lo <= hi
    ensures |ys| == |xs| && forall i :: 0 <= i < |ys| ==> ys[i] < hi
  {
    forall i | 0 <= i < |ys| ensures ys[i] < hi {
      if xs[i] >= lo {
        assert f[xs[i]] in f.Values;
      }
    }
  }

  // ----- every step keeps it -----

  /** More slots, and a larger capacity. */
  lemma FlatEnlarged(s: Space, top: nat, rank: map<nat, nat>, num: nat, s': Space)
    requires Flat(s, top, rank) && Enlarged(s, num, s')
    ensures Flat(s', top, rank) && s'.index + num < s'.max
  {
    GrownEnough(s.max, s.index + num);
    forall i | s.lo <= i < s.index ensures Lower(s'.slots, rank, s.lo, s.index, i) {
      assert Lower(s.slots, rank, s.lo, s.index, i);
    }
    forall i | s.index <= i < top ensures Lower(s'.slots, rank, s.index, top, i) {
      assert Lower(s.slots, rank, s.index, top, i);
    }
  }

  /** What is live lies below what was in use, and the capacity ahead above it. */
  lemma OneFits(idx: nat, max: nat, demand: nat, live: nat, short: bool)
    requires 0 < live <= idx && 0 < max <= idx + 1 && 1 <= demand
    ensures !Exceeds(live, short, 1, Grown(max, idx + demand)) && live + 1 < AfterGc2(live, Grown(max, idx + demand))
  {
    GrownEnough(max, idx + demand);
  }

  /** When an allocation of one slot collects, nothing is left behind, and then it has room. */
  lemma FlatFits(s: Space, top: nat, rank: map<nat, nat>, num: nat, demand: nat, params: seq<nat>, short: bool)
    requires Flat(s, top, rank) && 1 <= num <= demand && s.index + num >= s.max
    ensures Needed(s, Between(s.lo, top), params) <= top < s.max < Grown(s.max, s.index + demand)
    ensures num == 1 ==> top == s.index && !Exceeds(Needed(s, Between(s.lo, top), params), short, 1, Grown(s.max, s.index + demand))
  {
    hide Flat, Exceeds, AfterGc2, Allotted;
    FlatNumbers(s, top, rank);
    FlatNeeds(s, top, rank, params);
    GrownEnough(s.max, s.index + demand);
    if num == 1 {
      OneFits(s.index, s.max, demand, Needed(s, Between(s.lo, top), params), short);
    }
  }

  lemma FlatNumbers(s: Space, top: nat, rank: map<nat, nat>)
    requires Flat(s, top, rank)
    ensures 0 < s.lo <= s.index <= top < s.max <= |s.slots| && |s.roots| == 9
  {
  }

  /** Whichever way room is made. */
  lemma FlatRoom(s: Space, top: nat, rank: map<nat, nat>, busy: bool, num: nat, demand: nat, params: seq<nat>,
                 mid: Space, params': seq<nat>, fwd: map<nat, nat>)
    returns (top': nat, rank': map<nat, nat>)
    requires Flat(s, top, rank) && num <= demand && forall i :: 0 <= i < |params| ==> params[i] < s.index
    requires RoomMade(s, busy, num, demand, Between(s.lo, top), params, mid, params', fwd)
    ensures Flat(mid, top', rank') && mid.lo == s.lo
    ensures num == 1 ==> mid.index + 1 < mid.max
    ensures |params'| == |params| && forall i :: 0 <= i < |params'| ==> params'[i] < mid.index
  {
    hide Collected, Enlarged, AfterGc2, Survivors, DefinitionsClosed, Lower;
    top', rank' := top, rank;
    if s.index + num < s.max {
    } else if busy {
      FlatEnlarged(s, top, rank, num, mid);
      EnlargedSame(s, num, mid);
    } else {
      rank' := FlatMoved(s, top, rank, num, demand, params, mid, params', fwd);
      top' := mid.index;
    }
  }

  lemma EnlargedSame(s: Space, num: nat, s': Space)
    requires Enlarged(s, num, s')
    ensures s'.lo == s.lo && s'.index == s.index
  {
  }

  /** A collection into a larger memory. */
  lemma FlatMoved(s: Space, top: nat, rank: map<nat, nat>, num: nat, demand: nat, params: seq<nat>,
                  mid: Space, params': seq<nat>, fwd: map<nat, nat>)
    returns (rank': map<nat, nat>)
    requires Flat(s, top, rank) && num <= demand && forall i :: 0 <= i < |params| ==> params[i] < s.index
    requires s.index + num >= s.max
    requires Collected(s.(max := Grown(s.max, s.index + demand)), Between(s.lo, top), params, mid, params', fwd)
    ensures Flat(mid, mid.index, rank') && mid.lo == s.lo
    ensures num == 1 ==> mid.index + 1 < mid.max
    ensures |params'| == |params| && forall i :: 0 <= i < |params'| ==> params'[i] < mid.index
  {
    hide Survivors, DefinitionsClosed, Lower, Needed, Isomorphic, Images;
    var s1 := s.(max := Grown(s.max, s.index + demand));
    GrownEnough(s.max, s.index + demand);
    rank' := FlatCollected(s, s1.max, top, rank, params, mid, params', fwd);
    if num == 1 {
      OneFits(s.index, s.max, demand, mid.index, false);
    }
  }

  /** One more rank, above those of the references. */
  ghost function Ranked1(rank: map<nat, nat>, node: Node, p: nat): map<nat, nat> {
    var a := if node.next in rank then rank[node.next] + 1 else 0;
    var b := if node.u.Lis? && node.u.lis in rank then rank[node.u.lis] + 1 else 0;
    rank[p := a + b]
  }

  /** A node is stored in the next free slot, perhaps over one left behind. */
  lemma FlatStored(s: Space, top: nat, rank: map<nat, nat>, node: Node, m': seq<Node>) returns (top': nat, rank': map<nat, nat>)
    requires Flat(s, top, rank) && s.index + 1 < s.max && Stored(s.slots, s.index, 1, node, m')
    requires Proper(node) && !IsText(node.op) && RefsKnown({}, s.index, node)
    ensures Flat(s.(slots := m', index := s.index + 1), top', rank')
  {
    var p, q := s.index, s.index + 1;
    top' := if top <= p then p + 1 else top;
    rank' := Ranked1(rank, node, p);
    FlatRanks(s, top, rank);
    forall i | s.lo <= i < p ensures Lower(m', rank', s.lo, q, i) {
      assert Lower(s.slots, rank, s.lo, p, i);
    }
    forall i | p < i < top' ensures Lower(m', rank', q, top', i) {
      assert Lower(s.slots, rank, p, top, i);
    }
    assert Lower(m', rank', s.lo, q, p);
  }

  /** The nodes of `below` are in use, refer to definitions or to each other, and hold x, but not the slot: no path
      leads from x to it. */
  predicate Avoids(m: seq<Node>, lo: nat, index: nat, slot: nat, x: nat, below: set<nat>)
    requires index <= |m|
  {
    && slot !in below && Known(below, lo, x)
    && forall y :: y in below ==> lo <= y < index && RefsKnown(below, lo, m[y])
  }

  /** A reference of the node in the slot is written. */
  ghost predicate Written(n: Node, x: nat, n': Node) {
    n' == n.(next := x) || (n.u.Lis? && n' == n.(u := Lis(x)))
  }

  /** What is not below ranks above all that is. */
  ghost function Lifted(rank: map<nat, nat>, lo: nat, index: nat, below: set<nat>): map<nat, nat> {
    map i: nat | i in rank :: if i < index && i !in below then rank[i] + 1 + Ceiling(rank, lo, index) else rank[i]
  }

  lemma LiftedUnder(s: Space, top: nat, rank: map<nat, nat>, below: set<nat>, y: nat, i: nat)
    requires Flat(s, top, rank) && s.lo <= i < top && i in rank && forall k :: s.lo <= k < top ==> k in rank
    requires if i < s.index then Under(rank, s.lo, s.index, y, i) else Under(rank, s.index, top, y, i)
    requires i in below ==> Known(below, s.lo, y)
    ensures var rank' := Lifted(rank, s.lo, s.index, below);
            if i < s.index then Under(rank', s.lo, s.index, y, i) else Under(rank', s.index, top, y, i)
  {
    if s.lo <= y < s.index {
      CeilingAbove(rank, s.lo, s.index, y);
    }
  }

  /** A reference of a node in use is written in place, to a node in use from which no path leads back. */
  lemma FlatWritten(s: Space, top: nat, rank: map<nat, nat>, slot: nat, x: nat, below: set<nat>, n': Node) returns (rank': map<nat, nat>)
    requires Flat(s, top, rank) && s.lo <= slot < s.index && x < s.index
    requires Avoids(s.slots, s.lo, s.index, slot, x, below) && Written(s.slots[slot], x, n')
    ensures Flat(s.(slots := s.slots[slot := n']), top, rank')
  {
    hide Under, Lifted, Ceiling;
    rank' := Lifted(rank, s.lo, s.index, below);
    FlatRanks(s, top, rank);
    LiftedKeys(rank, s.lo, s.index, below);
    var m' := s.slots[slot := n'];
    assert Lower(s.slots, rank, s.lo, s.index, slot);
    LiftedUnder(s, top, rank, below, s.slots[slot].next, slot);
    if s.slots[slot].u.Lis? {
      LiftedUnder(s, top, rank, below, s.slots[slot].u.lis, slot);
    }
    NowUnder(s, rank, top, slot, x, below);
    forall i | s.lo <= i < s.index ensures Lower(m', rank', s.lo, s.index, i) {
      if i != slot {
        StillLower(s, top, rank, below, i);
      }
    }
    forall i | s.index <= i < top ensures Lower(m', rank', s.index, top, i) {
      StillLower(s, top, rank, below, i);
    }
  }

  lemma LiftedKeys(rank: map<nat, nat>, lo: nat, index: nat, below: set<nat>)
    ensures Lifted(rank, lo, index, below).Keys == rank.Keys
  {
  }

  lemma StillLower(s: Space, top: nat, rank: map<nat, nat>, below: set<nat>, i: nat)
    requires Flat(s, top, rank) && s.lo <= i < top && forall k :: s.lo <= k < top ==> k in rank
    requires i in below ==> i < s.index && RefsKnown(below, s.lo, s.slots[i])
    ensures Lower(s.slots, Lifted(rank, s.lo, s.index, below), if i < s.index then s.lo else s.index,
                  if i < s.index then s.index else top, i)
  {
    hide Under, Lifted;
    LiftedKeys(rank, s.lo, s.index, below);
    if i < s.index {
      assert Lower(s.slots, rank, s.lo, s.index, i);
    } else {
      assert Lower(s.slots, rank, s.index, top, i);
    }
    LiftedUnder(s, top, rank, below, s.slots[i].next, i);
    if s.slots[i].u.Lis? {
      LiftedUnder(s, top, rank, below, s.slots[i].u.lis, i);
    }
  }

  lemma NowUnder(s: Space, rank: map<nat, nat>, top: nat, slot: nat, x: nat, below: set<nat>)
    requires Flat(s, top, rank) && s.lo <= slot < s.index && x < s.index && slot in rank && forall k :: s.lo <= k < top ==> k in rank
    requires slot !in below && Known(below, s.lo, x)
    ensures Under(Lifted(rank, s.lo, s.index, below), s.lo, s.index, x, slot)
  {
    if x >= s.lo {
      CeilingAbove(rank, s.lo, s.index, x);
    }
  }

  /** No other write keeps the heap without cycles. */
  lemma WrittenFlat(s: Space, top: nat, rank: map<nat, nat>, slot: nat, x: nat, n': Node) returns (below: set<nat>)
    requires s.lo <= slot < s.index <= |s.slots| && Written(s.slots[slot], x, n')
    requires Flat(s.(slots := s.slots[slot := n']), top, rank)
    ensures x < s.index && Avoids(s.slots, s.lo, s.index, slot, x, below)
  {
    var m' := s.slots[slot := n'];
    assert Lower(m', rank, s.lo, s.index, slot);
    below := if x < s.lo then {} else set y: nat | y in Between(s.lo, s.index) && y in rank && rank[y] <= rank[x];
    forall y | y in below ensures RefsKnown(below, s.lo, s.slots[y]) {
      assert Lower(m', rank, s.lo, s.index, y);
      NextRanked(m', rank, s.lo, s.index, y);
    }
  }

  lemma NextRanked(m: seq<Node>, rank: map<nat, nat>, lo: nat, index: nat, y: nat)
    requires y < |m| && Lower(m, rank, lo, index, y)
    ensures m[y].next < lo || (m[y].next in Between(lo, index) && m[y].next in rank && rank[m[y].next] < rank[y])
  {
  }

  /** A definition begins: all that was in use is left behind. */
  lemma FlatReset(s: Space, top: nat, rank: map<nat, nat>, roots': seq<nat>) returns (rank': map<nat, nat>)
    requires Flat(s, top, rank) && |roots'| == 9 && roots'[PROG] < top
    requires forall j :: 0 <= j < 9 && j != PROG ==> roots'[j] < s.lo
    ensures Flat(s.(index := s.lo, roots := roots'), top, rank')
  {
    rank' := Joint(rank, s.lo, s.index, top);
    forall i | s.lo <= i < top ensures Lower(s.slots, rank', s.lo, top, i) {
      JointLower(s, top, rank, i);
    }
  }

  /** A definition ends: all that is in use belongs to the definitions. */
  lemma FlatClosed(s: Space, top: nat, rank: map<nat, nat>)
    requires Flat(s, top, rank)
    ensures Flat(s.(lo := s.index), top, rank)
  {
    forall i | 0 <= i < s.index ensures RefsKnown({}, s.index, s.slots[i]) {
      if i < s.lo {
        assert RefsKnown({}, s.lo, s.slots[i]);
      } else {
        assert Lower(s.slots, rank, s.lo, s.index, i);
      }
    }
  }

  /** What the node at x refers to is in use. */
  lemma FlatRefs(s: Space, top: nat, rank: map<nat, nat>, x: nat)
    requires Flat(s, top, rank) && x < s.index
    ensures x < |s.slots| && s.slots[x].next < s.index && (s.slots[x].u.Lis? ==> s.slots[x].u.lis < s.index)
  {
    if x < s.lo {
      assert RefsKnown({}, s.lo, s.slots[x]);
    } else {
      assert Lower(s.slots, rank, s.lo, s.index, x);
    }
  }

  lemma FlatRoot(s: Space, top: nat, rank: map<nat, nat>, i: nat, x: nat)
    requires Flat(s, top, rank) && i < 9 && x < s.index
    ensures Flat(s.(roots := s.roots[i := x]), top, rank)
  {
  }

  lemma FlatStart(s: Space)
    requires s.lo == s.index == 1 < s.max <= |s.slots| && |s.roots| == 9 && DefinitionsClosed(s.slots, 1)
    requires forall j :: 0 <= j < 9 ==> s.roots[j] == 0
    ensures Flat(s, 1, map[])
  {
  }
}
