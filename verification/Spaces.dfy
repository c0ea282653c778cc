/** What a collection and an allocation do to the node array, without regard to what the nodes are for. */
module Spaces {
  import opened HeapModel
  import opened CopyTheory
  import opened CopyOrder

  // the roots, in the order in which the collector visits them
  const STCK := 0
  const PROG := 1
  const CONTS := 2
  const DUMP := 3
  const DUMP1 := 4
  const DUMP2 := 5
  const DUMP3 := 6
  const DUMP4 := 7
  const DUMP5 := 8

  /** The slots, where the definitions end, the next free slot, the capacity, and what the roots hold. */
  datatype Space = Space(slots: seq<Node>, lo: nat, index: nat, max: nat, roots: seq<nat>)

  /** `all` holds every node above the definitions that the roots and the parameters lead to, and no cycle. */
  ghost predicate Collectable(s: Space, all: set<nat>, rank: map<nat, nat>, params: seq<nat>) {
    && 0 < s.lo <= s.max && s.lo <= |s.slots|
    && Keeps(s.slots, s.lo, all, s.roots + params) && Ranked(s.slots, s.lo, all, rank)
  }

  /** The nodes that a collection keeps. */
  ghost function Survivors(s: Space, all: set<nat>, params: seq<nat>): set<nat> {
    Live(s.slots, s.lo, all, s.roots + params)
  }

  /** The slots that are in use after a collection. */
  ghost function Needed(s: Space, all: set<nat>, params: seq<nat>): nat {
    s.lo + Size(s.slots, Survivors(s, all, params))
  }

  /** The last copy is a text, behind which a slot is reserved and not written. */
  ghost predicate Short(s: Space, rank: map<nat, nat>, params: seq<nat>) {
    EndsInText(s.slots, s.lo, rank, s.roots + params)
  }

  ghost predicate Images(f: map<nat, nat>, lo: nat, xs: seq<nat>, ys: seq<nat>) {
    |ys| == |xs| && forall i :: 0 <= i < |xs| ==> Known(f.Keys, lo, xs[i]) && ys[i] == Img(f, lo, xs[i])
  }

  /** The survivors of s lie in s' as fwd says, and the roots and the parameters moved along. */
  ghost predicate Moves(s: Space, all: set<nat>, params: seq<nat>, s': Space, params': seq<nat>, fwd: map<nat, nat>) {
    && fwd.Keys == Survivors(s, all, params) && Isomorphic(s.slots, s.lo, s'.slots, s'.index, fwd)
    && s'.lo == s.lo && s'.index == Needed(s, all, params)
    && Images(fwd, s.lo, s.roots, s'.roots) && Images(fwd, s.lo, params, params')
  }

  /** The capacity after a collection that leaves idx slots in use of max. */
  function AfterGc2(idx: nat, max: nat): nat {
    if idx * 100 < 10 * max then max * 9 / 10 else if idx * 100 > 90 * max then max * 2 else max
  }

  /** The slots that are really there then: a smaller capacity gives none back. */
  function Allotted(idx: nat, max: nat): nat {
    if idx * 100 > 90 * max then max * 2 else max
  }

  /** Afterwards no more than nine tenths are in use, and the next collection changes the capacity again only if it
      is too large still. */
  lemma AfterGc2Settles(idx: nat, max: nat)
    requires 0 < idx <= max
    ensures 10 * idx <= 9 * AfterGc2(idx, max)
    ensures 10 * idx >= AfterGc2(idx, max) ==> AfterGc2(idx, AfterGc2(idx, max)) == AfterGc2(idx, max)
  {
  }

  /** A whole collection. */
  ghost predicate Collected(s: Space, all: set<nat>, params: seq<nat>, s': Space, params': seq<nat>, fwd: map<nat, nat>) {
    && Moves(s, all, params, s', params', fwd)
    && s'.max == AfterGc2(s'.index, s.max) && s'.index <= |s'.slots| == Allotted(s'.index, s.max)
  }

  /** Capacity b comes from a by doubling. */
  ghost predicate DoubledFrom(a: nat, b: nat)
    decreases b
  {
    b == a || (b > a && b % 2 == 0 && DoubledFrom(a, b / 2))
  }

  /** The capacity doubled as often as it takes to exceed need. */
  ghost function Grown(max: nat, need: nat): nat
    decreases need - max
  {
    if max == 0 || need < max then max else Grown(2 * max, need)
  }

  lemma {:induction false} GrownEnough(max: nat, need: nat)
    requires 0 < max
    ensures need < Grown(max, need) && DoubledFrom(max, Grown(max, need))
    ensures need >= max ==> 2 * max <= Grown(max, need) <= 2 * need
    ensures need < max ==> Grown(max, need) == max
    decreases need - max
  {
    if need >= max {
      GrownEnough(2 * max, need);
      DoubledTrans(max, Grown(max, need));
    }
  }

  lemma {:induction false} DoubledTrans(max: nat, b: nat)
    requires 0 < max && DoubledFrom(2 * max, b)
    ensures DoubledFrom(max, b)
    decreases b
  {
    if b != 2 * max {
      DoubledTrans(max, b / 2);
    }
  }

  /** No capacity that comes by doubling is smaller and enough. */
  lemma {:induction false} GrownLeast(max: nat, need: nat, b: nat)
    requires 0 < max && DoubledFrom(max, b) && need < b
    ensures Grown(max, need) <= b
    decreases need - max
  {
    if need >= max {
      DoubledHalf(max, b);
      GrownLeast(2 * max, need, b);
    }
  }

  lemma {:induction false} DoubledHalf(max: nat, b: nat)
    requires 0 < max && DoubledFrom(max, b) && b != max
    ensures DoubledFrom(2 * max, b)
    decreases b
  {
    if b / 2 != max {
      DoubledHalf(max, b / 2);
    }
  }

  // ----- the estimate before a collection -----

  /** The slots of the node at n and, for a list, of the first node of its contents, and so on down. */
  ghost function Shallow(m: seq<Node>, lo: nat, rank: map<nat, nat>, n: nat): nat
    decreases Level(rank, lo, n)
  {
    if n < lo || n >= |m| then 0
    else NewSlots(m[n].op, m[n].u) +
         if m[n].u.Lis? && Level(rank, lo, m[n].u.lis) < Level(rank, lo, n) then Shallow(m, lo, rank, m[n].u.lis) else 0
  }

  /** The slots of the first node of a value and of the first nodes inside it. */
  ghost function HeadSlots(v: Value): nat {
    match v
    case Nil => 0
    case Cell(op, u, inner, rest) => NewSlots(op, u) + HeadSlots(inner)
  }

  /** A list's own union takes no further slots. */
  lemma HeadSlotsOf(op: Op, u: Types)
    requires u.Lis?
    ensures NewSlots(op, u) == NewSlots(op, Lis(0))
  {
  }

  /** The estimate is the head slots of the value, but for what lies among the definitions. */
  lemma {:induction false} ShallowOfValue(m: seq<Node>, lo: nat, all: set<nat>, rank: map<nat, nat>, n: nat, v: Value)
    requires Closed(m, lo, all) && Ranked(m, lo, all, rank) && Known(all, lo, n) && Denotes(m, n, v) && 0 < lo
    ensures Shallow(m, lo, rank, n) <= HeadSlots(v)
    ensures Shallow(m, lo, rank, n) == 0 <==> n < lo
    ensures lo == 1 ==> Shallow(m, lo, rank, n) == HeadSlots(v)
    decreases v
  {
    if n >= lo {
      assert RefsKnown(all, lo, m[n]);
      if m[n].u.Lis? {
        HeadSlotsOf(m[n].op, m[n].u);
        ShallowOfValue(m, lo, all, rank, m[n].u.lis, v.inner);
      }
    }
  }

  /** The parameters of an allocation that a collection moves along. */
  function Params(o: Op, u: Types, r: nat): seq<nat> {
    if o.List? && u.Lis? then [u.lis, r] else [r]
  }

  lemma ParamsSame(o: Op, u: Types, r: nat, u': Types, r': nat)
    requires (o.List? <==> u.Lis?) && (o.List? <==> u'.Lis?) && (!u.Lis? ==> u' == u)
    requires Params(o, u, r) == Params(o, u', r')
    ensures u' == u && r' == r
  {
    assert Params(o, u, r)[0] == Params(o, u', r')[0];
  }

  lemma OneSlot(o: Op, u: Types)
    ensures !IsText(o) ==> NewSlots(o, u) == 1
  {
  }

  /** The slots that an allocation reckons with before it collects. */
  ghost function Demand(s: Space, rank: map<nat, nat>, o: Op, u: Types, r: nat): (k: nat)
    ensures k >= NewSlots(o, u)
  {
    NewSlots(o, u) + (if o.List? && u.Lis? then Shallow(s.slots, s.lo, rank, u.lis) else 0) + Shallow(s.slots, s.lo, rank, r)
  }

  /** Before the first definition it is the slots of the node, and the head slots of what its list holds and of what
      comes next. */
  lemma DemandOfValues(s: Space, all: set<nat>, rank: map<nat, nat>, o: Op, u: Types, r: nat, inner: Value, rest: Value)
    requires Collectable(s, all, rank, Params(o, u, r)) && s.lo == 1 && (o.List? <==> u.Lis?)
    requires Denotes(s.slots, r, rest) && (u.Lis? ==> Denotes(s.slots, u.lis, inner))
    ensures Demand(s, rank, o, u, r) == NewSlots(o, u) + (if o.List? then HeadSlots(inner) else 0) + HeadSlots(rest)
  {
    hide Shallow, HeadSlots, Denotes, Keeps, Ranked, NewSlots;
    var params := Params(o, u, r);
    ParamsKnown(s, all, rank, params);
    assert params[|params| - 1] == r && (u.Lis? ==> params[0] == u.lis);
    ShallowOfValue(s.slots, s.lo, all, rank, r, rest);
    if u.Lis? {
      ShallowOfValue(s.slots, s.lo, all, rank, u.lis, inner);
    }
  }

  // ----- making room -----

  /** Collecting live slots into a memory of max and putting num more behind them goes beyond its end; `short`
      tells that the last of the live slots is not written. */
  predicate Exceeds(live: nat, short: bool, num: nat, max: nat) {
    Outgrows(live, short, max) || live + num > Allotted(live, max)
  }

  /** s' is s with room for num slots; demand is what a collection reckons with. */
  ghost predicate RoomMade(s: Space, busy: bool, num: nat, demand: nat, all: set<nat>, params: seq<nat>,
                           s': Space, params': seq<nat>, fwd: map<nat, nat>)
  {
    if s.index + num < s.max then s' == s && params' == params
    else if busy then Enlarged(s, num, s') && params' == params
    else Collected(s.(max := Grown(s.max, s.index + demand)), all, params, s', params', fwd)
  }

  /** s' has the same nodes and a capacity that num more fit below. */
  ghost predicate Enlarged(s: Space, num: nat, s': Space) {
    && s' == s.(slots := s'.slots, max := Grown(s.max, s.index + num)) && |s'.slots| == s'.max
    && forall k :: 0 <= k < |s.slots| && k < s'.max ==> s'.slots[k] == s.slots[k]
  }

  /** m' is m with a node at p that takes num slots. */
  ghost predicate Stored(m: seq<Node>, p: nat, num: nat, node: Node, m': seq<Node>) {
    && p + num <= |m| == |m'|
    && forall i :: 0 <= i < |m| ==> m'[i] == if i == p then node else if p < i < p + num then RAW else m[i]
  }

  /** What an allocation of num slots makes of the next free slot and the capacity, if a collection leaves live
      slots in use and goes into a memory of `ahead`: the end of the memory is passed exactly if there is a
      collection and it leaves too little. */
  ghost predicate Outcome(idx: nat, max: nat, busy: bool, num: nat, live: nat, short: bool, ahead: nat,
                          overrun: bool, idx': nat, max': nat)
  {
    var full := !busy && idx + num >= max;
    && (overrun <==> full && Exceeds(live, short, num, ahead))
    && (!overrun ==> if full then idx' == live + num && max' == AfterGc2(live, ahead)
                     else idx' == idx + num && max' == Grown(max, idx + num))
  }

  /** The capacity is doubled before a collection that an allocation starts, so what is live fits, and so does
      one slot more. */
  lemma OutcomeFits(idx: nat, max: nat, busy: bool, num: nat, demand: nat, live: nat, short: bool, free: bool,
                    overrun: bool, idx': nat, max': nat)
    requires Outcome(idx, max, busy, num, live, short, Grown(max, idx + demand), overrun, idx', max')
    requires 0 < live <= 2 * idx && 0 < max && 1 <= num <= demand && (free ==> live <= idx)
    ensures idx <= max ==>
              (overrun <==> !busy && idx + num >= max && live + num > Allotted(live, Grown(max, idx + demand)))
    ensures (idx <= max || free) && num == 1 ==> !overrun && idx' <= max'
    ensures free && num == 1 ==> idx' < max'
    ensures busy || idx + num < max ==> !overrun && idx' < max'
  {
    GrownEnough(max, idx + demand);
    GrownEnough(max, idx + num);
  }

  /** The numbers of a reservation that collects. */
  lemma ReserveFits(idx: nat, max: nat, num: nat, live: nat)
    requires 0 < live <= 2 * idx && 0 < max
    ensures max <= idx + num && (idx <= max || live <= idx) ==> live <= Grown(max, idx + num)
    ensures max <= idx + num && live <= idx ==>
              (live + num < AfterGc2(live, Grown(max, idx + num)) <==>
               live * 10 >= Grown(max, idx + num) || live + num < Grown(max, idx + num) * 9 / 10)
  {
    GrownEnough(max, idx + num);
  }

  /** The numbers of an allocation. */
  lemma AllocateOutcome(s: Space, busy: bool, num: nat, demand: nat, all: set<nat>, rank: map<nat, nat>, params: seq<nat>,
                        overrun: bool, mid: Space, params': seq<nat>, fwd: map<nat, nat>, idx': nat, max': nat)
    requires Collectable(s, all, rank, params) && num <= demand && s.max <= |s.slots|
    requires overrun <==> !busy && s.index + num >= s.max &&
                          Exceeds(Needed(s, all, params), Short(s, rank, params), num, Grown(s.max, s.index + demand))
    requires !overrun ==>
               RoomMade(s, busy, num, demand, all, params, mid, params', fwd) && idx' == mid.index + num && max' == mid.max
    ensures Outcome(s.index, s.max, busy, num, Needed(s, all, params), Short(s, rank, params), Grown(s.max, s.index + demand),
                    overrun, idx', max')
    ensures !overrun ==> mid.lo == s.lo <= mid.max <= |mid.slots| && (s.index + num < s.max ==> mid == s && params' == params)
  {
    hide Collectable, Needed, Isomorphic, Images;
    CollectableLow(s, all, rank, params);
    GrownEnough(s.max, s.index + num);
    GrownEnough(s.max, s.index + demand);
    MoreRoom(s, all, rank, params, Grown(s.max, s.index + demand));
    if !overrun && !busy && s.index + num >= s.max {
      NeededLow(s, all, params);
      ShrinkLeavesRoom(mid.index, Grown(s.max, s.index + demand));
    }
  }

  lemma NeededLow(s: Space, all: set<nat>, params: seq<nat>)
    ensures s.lo <= Needed(s, all, params)
  {
  }

  lemma ShrinkLeavesRoom(idx: nat, max: nat)
    requires 0 < idx
    ensures idx < max ==> idx < AfterGc2(idx, max)
    ensures idx <= max + 1 && 0 < max ==> idx <= AfterGc2(idx, max) <= Allotted(idx, max)
  {
  }

  /** Only the slots in use matter. */
  lemma MovesPrefix(s: Space, all: set<nat>, params: seq<nat>, mid: Space, s': Space, params': seq<nat>, fwd: map<nat, nat>)
    requires Moves(s, all, params, mid, params', fwd)
    requires s'.lo == mid.lo && s'.index == mid.index && s'.roots == mid.roots && mid.index <= |s'.slots|
    requires forall k :: 0 <= k < mid.index && k < |mid.slots| ==> s'.slots[k] == mid.slots[k]
    ensures Moves(s, all, params, s', params', fwd)
  {
  }

  /** A space that can be collected with its survivors alone. */
  lemma SurvivorsKeep(s: Space, all: set<nat>, rank: map<nat, nat>, params: seq<nat>)
    requires Collectable(s, all, rank, params)
    ensures Collectable(s, Survivors(s, all, params), rank, params)
  {
    LiveKeeps(s.slots, s.lo, all, s.roots + params);
  }

  /** What a collection needs to know of the space it starts from. */
  lemma CollectableLow(s: Space, all: set<nat>, rank: map<nat, nat>, params: seq<nat>)
    requires Collectable(s, all, rank, params)
    ensures 0 < s.lo <= s.max && s.lo <= |s.slots|
  {
  }

  lemma KeepsKnown(m: seq<Node>, lo: nat, live: set<nat>, roots: seq<nat>)
    requires Keeps(m, lo, live, roots)
    ensures Closed(m, lo, live) && forall i :: 0 <= i < |roots| ==> Known(live, lo, roots[i])
  {
  }

  lemma IsomorphicPrefix(m: seq<Node>, lo: nat, m': seq<Node>, idx: nat, f: map<nat, nat>)
    requires Isomorphic(m, lo, m', idx, f)
    ensures lo <= idx && lo <= |m'| && lo <= |m| && m'[..lo] == m[..lo]
  {
  }

  lemma ImagesSplit(f: map<nat, nat>, lo: nat, roots: seq<nat>, params: seq<nat>, copied: seq<nat>)
    requires Images(f, lo, roots + params, copied)
    ensures Images(f, lo, roots, copied[..|roots|]) && Images(f, lo, params, copied[|roots|..])
  {
    var rs := roots + params;
    forall i | 0 <= i < |roots| ensures Known(f.Keys, lo, roots[i]) && copied[i] == Img(f, lo, roots[i]) {
      assert rs[i] == roots[i];
    }
    forall i | 0 <= i < |params|
      ensures Known(f.Keys, lo, params[i]) && copied[|roots| + i] == Img(f, lo, params[i])
    {
      assert rs[|roots| + i] == params[i];
    }
  }

  /** The capacity has no part in what can be collected or is kept. */
  lemma MoreRoom(s: Space, all: set<nat>, rank: map<nat, nat>, params: seq<nat>, max: nat)
    requires Collectable(s, all, rank, params) && s.max <= max
    ensures Collectable(s.(max := max), all, rank, params)
    ensures Needed(s.(max := max), all, params) == Needed(s, all, params)
    ensures Short(s.(max := max), rank, params) == Short(s, rank, params)
  {
  }

  lemma NoImages(s: Space, all: set<nat>, s': Space, none: seq<nat>, fwd: map<nat, nat>)
    requires Collected(s, all, [], s', none, fwd)
    ensures none == []
  {
  }

  lemma ParamsKnown(s: Space, all: set<nat>, rank: map<nat, nat>, params: seq<nat>)
    requires Collectable(s, all, rank, params)
    ensures Closed(s.slots, s.lo, all) && Ranked(s.slots, s.lo, all, rank)
    ensures forall i :: 0 <= i < |params| ==> Known(all, s.lo, params[i])
  {
    forall i | 0 <= i < |params| ensures Known(all, s.lo, params[i]) {
      assert (s.roots + params)[|s.roots| + i] == params[i];
    }
  }

  /** The room made holds num more slots, unless a collection left too little of the memory. */
  lemma RoomFits(s: Space, busy: bool, num: nat, demand: nat, all: set<nat>, rank: map<nat, nat>, params: seq<nat>,
                 mid: Space, params': seq<nat>, fwd: map<nat, nat>)
    requires Collectable(s, all, rank, params) && s.max <= |s.slots| && num <= demand
    requires RoomMade(s, busy, num, demand, all, params, mid, params', fwd)
    requires !busy && s.index + num >= s.max ==>
               !Outgrows(Needed(s, all, params), Short(s, rank, params), Grown(s.max, s.index + demand))
    ensures mid.index + num <= |mid.slots| <==>
            !(!busy && s.index + num >= s.max &&
              Exceeds(Needed(s, all, params), Short(s, rank, params), num, Grown(s.max, s.index + demand)))
    ensures 0 < mid.max && mid.lo == s.lo
  {
    hide Collectable, Needed, Isomorphic, Images;
    CollectableLow(s, all, rank, params);
    GrownEnough(s.max, s.index + num);
    GrownEnough(s.max, s.index + demand);
    MoreRoom(s, all, rank, params, Grown(s.max, s.index + demand));
  }

  /** Each root denotes what it denoted. */
  ghost predicate SameValues(m: seq<Node>, roots: seq<nat>, m': seq<Node>, roots': seq<nat>) {
    && |roots'| == |roots|
    && forall i, v :: 0 <= i < |roots| ==> (Denotes(m, roots[i], v) <==> Denotes(m', roots'[i], v))
  }

  /** Whatever a root denoted, it denotes after the move. */
  lemma MovesMeaning(s: Space, all: set<nat>, params: seq<nat>, s': Space, params': seq<nat>, fwd: map<nat, nat>)
    requires Moves(s, all, params, s', params', fwd) && DefinitionsClosed(s.slots, s.lo) && 0 < s.lo
    requires s'.index <= |s'.slots|
    ensures SameValues(s.slots, s.roots, s'.slots, s'.roots)
  {
    hide Isomorphic, Denotes, DefinitionsClosed, Needed, Survivors;
    IsomorphicPrefix(s.slots, s.lo, s'.slots, s'.index, fwd);
    RootsKeepMeaning(s.slots, s.lo, s'.slots, s'.index, fwd, s'.slots, s.roots, s'.roots);
  }

  /** If no slot in use refers beyond those in use, none does after a node is stored behind them without a
      collection. */
  lemma StoredTidy(s: Space, num: nat, demand: nat, all: set<nat>, params: seq<nat>, mid: Space, params': seq<nat>,
                   fwd: map<nat, nat>, node: Node, m': seq<Node>)
    requires RoomMade(s, true, num, demand, all, params, mid, params', fwd)
    requires Stored(mid.slots, mid.index, num, node, m') && num >= 1 && RefsKnown({}, mid.index, node)
    requires s.index <= |s.slots| && forall i :: 0 <= i < s.index ==> RefsKnown({}, s.index, s.slots[i])
    ensures forall i :: 0 <= i < mid.index + num ==> RefsKnown({}, mid.index + num, m'[i])
  {
  }
}
