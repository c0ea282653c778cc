/** Copying a value from one collected heap to another.  Every allocation may move all that was copied so
    far, so the copier holds on to the list it builds only through two roots of the receiving heap. */
module DeepCopy {
  import opened HeapModel
  import opened Identities
  import opened Spaces
  import opened Collector

  ghost function Weight(v: Value): nat {
    match v
    case Nil => 0
    case Cell(_, _, inner, rest) => 1 + Weight(inner) + Weight(rest)
  }

  /** v with one more cell at its end. */
  ghost function Append(v: Value, cell: Value): Value
    requires cell.Cell?
  {
    match v
    case Nil => cell
    case Cell(op, u, inner, rest) => Cell(op, u, inner, Append(rest, cell))
  }

  ghost function Concat(v: Value, w: Value): Value {
    match v
    case Nil => w
    case Cell(op, u, inner, rest) => Cell(op, u, inner, Concat(rest, w))
  }

  /** The first cell of v on its own. */
  ghost function Single(v: Value): Value
    requires v.Cell?
  {
    Cell(v.op, v.u, v.inner, Nil)
  }

  lemma {:induction false} ConcatAppend(v: Value, w: Value)
    requires w.Cell?
    ensures Concat(Append(v, Single(w)), w.rest) == Concat(v, w)
    decreases v
  {
    if v.Cell? {
      ConcatAppend(v.rest, w);
    }
  }

  lemma {:induction false} ConcatNil(v: Value)
    ensures Concat(v, Nil) == v
    decreases v
  {
    if v.Cell? {
      ConcatNil(v.rest);
    }
  }

  /** Identity x unfolds to v through identities from a up to b only; along a chain they increase, and the
      contents of a list come before the list itself. */
  ghost predicate Built(abs: map<nat, Node>, x: nat, v: Value, a: nat, b: nat)
    decreases v
  {
    match v
    case Nil => x == 0
    case Cell(op, u, inner, rest) =>
      && x in abs && 0 < a <= x < b && abs[x].op == op
      && (if abs[x].u.Lis? then u == Lis(0) && Built(abs, abs[x].u.lis, inner, a, x) else u == abs[x].u && inner == Nil)
      && Built(abs, abs[x].next, rest, x + 1, b)
  }

  ghost function Last(abs: map<nat, Node>, x: nat, v: Value): nat
    decreases v
  {
    if v.Nil? || x !in abs then 0 else if v.rest.Nil? then x else Last(abs, abs[x].next, v.rest)
  }

  ghost function Foot(abs: map<nat, Node>, x: nat, v: Value): set<nat>
    decreases v
  {
    if v.Nil? || x !in abs then {}
    else {x} + (if abs[x].u.Lis? then Foot(abs, abs[x].u.lis, v.inner) else {}) + Foot(abs, abs[x].next, v.rest)
  }

  /** The identities of a built value are a closed set in their interval. */
  lemma {:induction false} FootStays(abs: map<nat, Node>, lo: nat, x: nat, v: Value, a: nat, b: nat)
    requires Built(abs, x, v, a, b) && 0 < lo
    ensures Stays(abs, lo, Foot(abs, x, v), []) && Known(Foot(abs, x, v), lo, x)
    ensures forall y :: y in Foot(abs, x, v) ==> a <= y < b
    decreases v
  {
    if v.Cell? {
      if abs[x].u.Lis? {
        FootStays(abs, lo, abs[x].u.lis, v.inner, a, x);
      }
      FootStays(abs, lo, abs[x].next, v.rest, x + 1, b);
    }
  }

  /** What survives a collection or a change elsewhere. */
  ghost predicate Agrees(abs: map<nat, Node>, n: nat, abs': map<nat, Node>) {
    forall y :: y in abs' && y < n ==> y in abs && abs'[y] == abs[y]
  }

  lemma {:induction false} BuiltSurvives(abs: map<nat, Node>, abs': map<nat, Node>, rank: map<nat, nat>, lo: nat, next: nat,
                                         x: nat, v: Value, a: nat, b: nat, n: nat)
    requires Built(abs, x, v, a, b) && b <= n && lo <= a && 0 < lo
    requires Agrees(abs, n, abs') && Graph(abs', rank, lo, next) && Known(abs'.Keys, lo, x)
    ensures Built(abs', x, v, a, b) && Last(abs', x, v) == Last(abs, x, v)
    decreases v
  {
    if v.Cell? {
      assert x in abs' && RefsKnown(abs'.Keys, lo, abs'[x]);
      if abs[x].u.Lis? {
        BuiltSurvives(abs, abs', rank, lo, next, abs[x].u.lis, v.inner, a, x, n);
      }
      BuiltSurvives(abs, abs', rank, lo, next, abs[x].next, v.rest, x + 1, b, n);
    }
  }

  /** A change outside the interval does not touch a built value. */
  lemma {:induction false} BuiltElsewhere(abs: map<nat, Node>, t: nat, n: Node, x: nat, v: Value, a: nat, b: nat)
    requires Built(abs, x, v, a, b) && (t < a || b <= t)
    ensures Built(abs[t := n], x, v, a, b) && Last(abs[t := n], x, v) == Last(abs, x, v)
    decreases v
  {
    if v.Cell? {
      if abs[x].u.Lis? {
        BuiltElsewhere(abs, t, n, abs[x].u.lis, v.inner, a, x);
      }
      BuiltElsewhere(abs, t, n, abs[x].next, v.rest, x + 1, b);
    }
  }

  lemma {:induction false} BuiltWiden(abs: map<nat, Node>, x: nat, v: Value, a: nat, b: nat, a': nat, b': nat)
    requires Built(abs, x, v, a, b) && 0 < a' <= a && b <= b'
    ensures Built(abs, x, v, a', b')
    decreases v
  {
    if v.Cell? {
      if abs[x].u.Lis? {
        BuiltWiden(abs, abs[x].u.lis, v.inner, a, x, a', x);
      }
      BuiltWiden(abs, abs[x].next, v.rest, x + 1, b, x + 1, b');
    }
  }

  /** Linking a later built cell behind the last node appends it to the value. */
  lemma {:induction false} LinkLast(abs: map<nat, Node>, h: nat, v: Value, a: nat, b: nat, x: nat, cell: Value, b': nat)
    requires v.Cell? && cell.Cell? && cell.rest.Nil?
    requires Built(abs, h, v, a, b) && Built(abs, x, cell, b, b') && b <= b'
    ensures var t := Last(abs, h, v);
            && t in abs && a <= t < b
            && Built(abs[t := abs[t].(next := x)], h, Append(v, cell), a, b')
            && Last(abs[t := abs[t].(next := x)], h, Append(v, cell)) == x
    decreases v
  {
    var t := Last(abs, h, v);
    var n := abs[h].(next := x);
    if v.rest.Nil? {
      var abs' := abs[h := n];
      if abs[h].u.Lis? {
        BuiltElsewhere(abs, h, n, abs[h].u.lis, v.inner, a, h);
      }
      BuiltElsewhere(abs, h, n, x, cell, b, b');
      BuiltWiden(abs', x, cell, b, b', h + 1, b');
    } else {
      LinkLast(abs, abs[h].next, v.rest, h + 1, b, x, cell, b');
      if abs[h].u.Lis? {
        BuiltElsewhere(abs, t, abs[t].(next := x), abs[h].u.lis, v.inner, a, h);
      }
    }
  }

  /** A built identity denotes its value, wherever it lies. */
  lemma {:induction false} BuiltDenotes(m: seq<Node>, lo: nat, idx: nat, abs: map<nat, Node>, loc: map<nat, nat>,
                                        rank: map<nat, nat>, next: nat, x: nat, v: Value, a: nat, b: nat)
    requires Located(m, lo, idx, abs, loc) && Graph(abs, rank, lo, next)
    requires Built(abs, x, v, a, b)
    ensures Denotes(m, Img(loc, lo, x), v)
    decreases v
  {
    if v.Cell? {
      assert m[loc[x]] == Moved(loc, lo, abs[x]) && Proper(abs[x]) && RefsKnown(abs.Keys, lo, abs[x]);
      if abs[x].u.Lis? {
        BuiltDenotes(m, lo, idx, abs, loc, rank, next, abs[x].u.lis, v.inner, a, x);
      }
      BuiltDenotes(m, lo, idx, abs, loc, rank, next, abs[x].next, v.rest, x + 1, b);
    }
  }

  /** An identity from before n that is still there denotes what it denoted. */
  lemma {:induction false} SameMeaning(m: seq<Node>, lo: nat, idx: nat, abs: map<nat, Node>, loc: map<nat, nat>,
                                       rank: map<nat, nat>, n: nat,
                                       m': seq<Node>, idx': nat, abs': map<nat, Node>, loc': map<nat, nat>,
                                       rank': map<nat, nat>, n': nat, x: nat, v: Value)
    requires Located(m, lo, idx, abs, loc) && Graph(abs, rank, lo, n)
    requires Located(m', lo, idx', abs', loc') && Graph(abs', rank', lo, n')
    requires DefinitionsClosed(m, lo) && (forall i :: 0 <= i < lo ==> m'[i] == m[i])
    requires Agrees(abs, n, abs') && Known(abs.Keys, lo, x) && Known(abs'.Keys, lo, x)
    ensures Denotes(m, Img(loc, lo, x), v) <==> Denotes(m', Img(loc', lo, x), v)
    decreases v
  {
    if v.Cell? && x > 0 {
      if x < lo {
        assert RefsKnown({}, lo, m[x]);
        if m[x].u.Lis? {
          SameMeaning(m, lo, idx, abs, loc, rank, n, m', idx', abs', loc', rank', n', m[x].u.lis, v.inner);
        }
        SameMeaning(m, lo, idx, abs, loc, rank, n, m', idx', abs', loc', rank', n', m[x].next, v.rest);
      } else {
        assert x < n && abs'[x] == abs[x];
        assert m[loc[x]] == Moved(loc, lo, abs[x]) && m'[loc'[x]] == Moved(loc', lo, abs[x]);
        assert RefsKnown(abs.Keys, lo, abs[x]) && RefsKnown(abs'.Keys, lo, abs[x]);
        if abs[x].u.Lis? {
          SameMeaning(m, lo, idx, abs, loc, rank, n, m', idx', abs', loc', rank', n', abs[x].u.lis, v.inner);
        }
        SameMeaning(m, lo, idx, abs, loc, rank, n, m', idx', abs', loc', rank', n', abs[x].next, v.rest);
      }
    }
  }

  lemma NodeRefs(abs: map<nat, Node>, rank: map<nat, nat>, lo: nat, next: nat, a: nat)
    requires Graph(abs, rank, lo, next) && a in abs
    ensures lo <= a < next && Proper(abs[a]) && RefsKnown(abs.Keys, lo, abs[a])
  {
  }

  // ----- the copier -----

  ghost predicate NoText(v: Value) {
    v.Cell? ==> !IsText(v.op) && NoText(v.inner) && NoText(v.rest)
  }

  /** Every text of v fits its node: such a value can be copied into every heap that lies below its capacity. */
  ghost predicate OneSlotEach(v: Value) {
    v.Cell? ==> NewSlots(v.op, v.u) == 1 && OneSlotEach(v.inner) && OneSlotEach(v.rest)
  }

  /** Both heaps are separate, and the source holds value v at node. */
  ghost predicate Source(env: Env, child: Env, node: nat, v: Value)
    reads env, child, child.memory
  {
    child != env && child.memory != env.memory && Denotes(child.memory[..], node, v)
  }

  /** The state of a heap that the copier answers for. */
  datatype Snapshot = Snapshot(abs: map<nat, Node>, next: nat, ids: seq<nat>, lo: nat, definitions: seq<Node>)

  ghost function Taken(env: Env): Snapshot
    reads env, env.memory
    requires env.memLow <= env.memory.Length
  {
    Snapshot(env.abs, env.nextId, env.ids, env.memLow, env.memory[..env.memLow])
  }

  /** Since the snapshot the roots hold the identities ids, and what was there is gone or as it was. */
  ghost predicate KeptSince(env: Env, s: Snapshot, ids: seq<nat>)
    reads env, env.memory
  {
    && env.memLow == s.lo && env.memLow <= env.memory.Length && env.memory[..env.memLow] == s.definitions
    && env.ids == ids && s.next <= env.nextId && Agrees(s.abs, s.next, env.abs)
  }

  lemma KeptTrans(env: Env, s: Snapshot, mid: Snapshot, ids: seq<nat>)
    requires mid.lo == s.lo && mid.definitions == s.definitions && s.next <= mid.next && Agrees(s.abs, s.next, mid.abs)
    requires KeptSince(env, mid, ids)
    ensures KeptSince(env, s, ids)
  {
  }

  /** Allocates a node that is linked to nothing yet. */
  method PutNode(env: Env, op: Op, u: Types, ghost uid: nat) returns (p: nat, ghost id: nat)
    requires env.Valid() && env.Fitting(op, u, 0, uid, 0)
    modifies env, env.memory
    ensures fresh(env.memory) || env.memory == old(env.memory)
    ensures !env.overrun ==>
              && env.Valid() && KeptSince(env, old(Taken(env)), old(env.ids)) && id == old(env.nextId) && env.nextId == id + 1
              && id in env.abs && p == env.loc[id] && env.abs[id] == Own(op, u, uid, 0)
              && 0 < env.memLow <= id && (u.Lis? ==> Known(env.abs.Keys, env.memLow, uid))
    ensures old(env.Roomy()) && NewSlots(op, u) == 1 ==> !env.overrun && env.Roomy()
    ensures old(TextFree(env.abs)) && !IsText(op) ==> !env.overrun && TextFree(env.abs)
  {
    hide Graph, Located, Rooted, DefinitionsClosed, Stays, Reached, Outcome, Stored, TotalBelow, Allotted;
    LocatedBounds(env.memory[..], env.memLow, env.memoryindex, env.abs, env.loc);
    ghost var kept;
    p, id, kept := env.NewNode(op, u, 0, uid, 0);
    if !env.overrun {
      NodeRefs(env.abs, env.rank, env.memLow, env.nextId, id);
    }
  }

  /** Copies one node without its next chain. */
  method CopySingleNode(env: Env, child: Env, node: nat, ghost v: Value) returns (p: nat, ghost id: nat)
    requires env.Valid() && Source(env, child, node, v) && v.Cell?
    modifies env, env.memory
    ensures fresh(env.memory) || env.memory == old(env.memory)
    ensures !env.overrun ==>
              && env.Valid() && KeptSince(env, old(Taken(env)), old(env.ids))
              && id in env.abs && p == env.loc[id] && env.abs[id].next == 0
              && Built(env.abs, id, Single(v), old(env.nextId), env.nextId)
    ensures old(env.Roomy()) && OneSlotEach(v) ==> !env.overrun && env.Roomy()
    ensures old(TextFree(env.abs)) && NoText(v) ==> !env.overrun && TextFree(env.abs)
    decreases Weight(v), 0
  {
    hide Graph, Located, Rooted, DefinitionsClosed, TextFree, NewSlots, Known, Img;
    var op, u := child.memory[node].op, child.memory[node].u;
    p, id := 0, 0;
    ghost var uid := 0;
    ghost var start, snap := env.nextId, Taken(env);
    LocatedBounds(env.memory[..], env.memLow, env.memoryindex, env.abs, env.loc);
    AgreesSelf(env.abs, env.nextId);
    if op.List? {
      var inner;
      inner, uid := CopyNodeToParent(env, child, u.lis, v.inner);
      if env.overrun {
        return;
      }
      u := Lis(inner);
    }
    ghost var snap1 := Taken(env);
    NewSlotsOf(op, u, v.u);
    KnownZero(env);
    p, id := PutNode(env, op, u, uid);
    if !env.overrun {
      KeptTrans(env, snap, snap1, snap.ids);
      if op.List? {
        BuiltSurvives(snap1.abs, env.abs, env.rank, env.memLow, env.nextId, uid, v.inner, start, snap1.next, snap1.next);
      }
    }
  }

  lemma KnownZero(env: Env)
    requires env.Valid()
    ensures Known(env.abs.Keys, env.memLow, 0) && Img(env.loc, env.memLow, 0) == 0
  {
  }

  /** Copies a chain of nodes, and what their lists hold, into env: the copy is made of nodes that are new
      there, and all else in env is as before. */
  method CopyNodeToParent(env: Env, child: Env, node: nat, ghost v: Value) returns (head: nat, ghost hid: nat)
    requires env.Valid() && Source(env, child, node, v)
    modifies env, env.memory
    ensures fresh(env.memory) || env.memory == old(env.memory)
    ensures !env.overrun ==>
              && env.Valid() && KeptSince(env, old(Taken(env)), old(env.ids))
              && Known(env.abs.Keys, env.memLow, hid) && head == Img(env.loc, env.memLow, hid)
              && Built(env.abs, hid, v, old(env.nextId), env.nextId)
    ensures old(env.Roomy()) && OneSlotEach(v) ==> !env.overrun && env.Roomy()
    ensures old(TextFree(env.abs)) && NoText(v) ==> !env.overrun && TextFree(env.abs)
    decreases Weight(v), 2
  {
    hide Graph, Located, Rooted, DefinitionsClosed, Agrees;
    head, hid := 0, 0;
    LocatedBounds(env.memory[..], env.memLow, env.memoryindex, env.abs, env.loc);
    AgreesSelf(env.abs, env.nextId);
    if node == 0 {
      return;
    }
    ghost var start, snap := env.nextId, Taken(env);
    RootedLengths(env.memLow, env.abs, env.loc, env.ids, env.roots);
    ghost var d4, d5 := Protect(env);
    if env.overrun {
      return;
    }
    ghost var a, done, todo, tid := env.nextId, Nil, v, 0;
    var current := node;
    while current != 0
      invariant fresh(env.memory) || env.memory == old(env.memory)
      invariant !env.overrun && Building(env, snap, d4, d5, a, hid, done, tid)
      invariant old(env.Roomy()) && OneSlotEach(v) ==> OneSlotEach(todo) && env.Roomy()
      invariant old(TextFree(env.abs)) && NoText(v) ==> NoText(todo) && TextFree(env.abs)
      invariant Source(env, child, current, todo) && Concat(done, todo) == v && Weight(todo) <= Weight(v)
      decreases Weight(todo)
    {
      hid, tid := CopyStep(env, child, current, todo, snap, d4, d5, a, hid, done, tid);
      if env.overrun {
        return 0, 0;
      }
      ConcatAppend(done, todo);
      current := child.memory[current].next;
      done, todo := Append(done, Single(todo)), todo.rest;
    }
    ConcatNil(done);
    head := Release(env, snap, d4, d5, a, hid, done, tid);
  }

  /** A list under construction: the cells done so far run from hid to tid, all newer than a, and the two
      protecting nodes d4 and d5 hold their ends. */
  ghost predicate Building(env: Env, s: Snapshot, d4: nat, d5: nat, a: nat, hid: nat, done: Value, tid: nat)
    reads env, env.memory
  {
    && env.Valid() && |s.ids| == 9 && KeptSince(env, s, s.ids[DUMP4 := d4][DUMP5 := d5])
    && s.lo <= s.next <= d4 < d5 < a <= env.nextId && 0 < s.lo
    && d4 in env.abs && env.abs[d4] == Node(List, s.ids[DUMP4], Lis(hid))
    && d5 in env.abs && env.abs[d5] == Node(List, s.ids[DUMP5], Lis(tid))
    && Built(env.abs, hid, done, a, env.nextId)
    && (if done.Nil? then tid == 0 else tid == Last(env.abs, hid, done))
  }

  /** Copies the next node of the source and hangs it behind the list under construction. */
  method CopyStep(env: Env, child: Env, current: nat, ghost todo: Value, ghost s: Snapshot, ghost d4: nat, ghost d5: nat,
                  ghost a: nat, ghost hid: nat, ghost done: Value, ghost tid: nat)
    returns (ghost hid': nat, ghost tid': nat)
    requires Building(env, s, d4, d5, a, hid, done, tid) && Source(env, child, current, todo) && todo.Cell?
    modifies env, env.memory
    ensures fresh(env.memory) || env.memory == old(env.memory)
    ensures !env.overrun ==> Building(env, s, d4, d5, a, hid', Append(done, Single(todo)), tid')
    ensures old(env.Roomy()) && OneSlotEach(todo) ==> !env.overrun && env.Roomy()
    ensures old(TextFree(env.abs)) && NoText(todo) ==> !env.overrun && TextFree(env.abs)
    decreases Weight(todo), 1
  {
    hide Graph, Located, Rooted, DefinitionsClosed;
    hid', tid' := hid, tid;
    LocatedBounds(env.memory[..], env.memLow, env.memoryindex, env.abs, env.loc);
    ghost var snap := Taken(env);
    ghost var ids := env.ids;
    var newNode;
    ghost var id;
    newNode, id := CopySingleNode(env, child, current, todo);
    if env.overrun {
      return;
    }
    LocatedBounds(env.memory[..], env.memLow, env.memoryindex, env.abs, env.loc);
    KeptTrans(env, s, snap, ids);
    DumpsHeld(env, snap.abs, snap.next, d4, d5);
    ChainHeld(env, snap.abs, snap.next, d4, hid, done, a);
    hid', tid' := LinkNew(env, newNode, id, Single(todo), s, d4, d5, hid, tid, done, a, snap.next);
  }

  lemma AgreesSelf(abs: map<nat, Node>, n: nat)
    ensures Agrees(abs, n, abs)
  {
  }

  lemma DumpsHeld(env: Env, abs1: map<nat, Node>, next1: nat, d4: nat, d5: nat)
    requires env.Valid() && |env.ids| == 9 && env.ids[DUMP4] == d4 && env.ids[DUMP5] == d5
    requires env.memLow <= d4 < next1 && env.memLow <= d5 < next1 && Agrees(abs1, next1, env.abs)
    ensures d4 in env.abs && d4 in abs1 && env.abs[d4] == abs1[d4]
    ensures d5 in env.abs && d5 in abs1 && env.abs[d5] == abs1[d5]
  {
    assert Known(env.abs.Keys, env.memLow, env.ids[DUMP4]) && Known(env.abs.Keys, env.memLow, env.ids[DUMP5]);
  }

  lemma ChainHeld(env: Env, abs1: map<nat, Node>, next1: nat, d4: nat, hid: nat, done: Value, a: nat)
    requires env.Valid() && Agrees(abs1, next1, env.abs)
    requires d4 in env.abs && env.abs[d4].u == Lis(hid)
    requires Built(abs1, hid, done, a, next1) && env.memLow <= a && 0 < env.memLow
    ensures Built(env.abs, hid, done, a, next1) && Last(env.abs, hid, done) == Last(abs1, hid, done)
  {
    NodeRefs(env.abs, env.rank, env.memLow, env.nextId, d4);
    BuiltSurvives(abs1, env.abs, env.rank, env.memLow, env.nextId, hid, done, a, next1, next1);
  }

  /** The node that root i holds, as it lies in the memory. */
  lemma DumpAt(env: Env, i: nat, d: nat)
    requires env.Valid() && i < 9 && |env.ids| == 9 && env.ids[i] == d && d in env.abs && env.memLow <= d
    ensures d in env.loc && env.memLow <= env.loc[d] < env.memory.Length && |env.roots| == 9 && env.roots[i] == env.loc[d]
    ensures env.memory[env.loc[d]] == Moved(env.loc, env.memLow, env.abs[d])
  {
    assert Known(env.abs.Keys, env.memLow, env.ids[i]);
    assert env.memory[..][env.loc[d]] == Moved(env.loc, env.memLow, env.abs[d]);
  }

  lemma NodeAt(env: Env, t: nat)
    requires env.Valid() && t in env.abs
    ensures t in env.loc && 0 < env.memLow <= env.loc[t] < env.memory.Length && env.memLow <= t
    ensures env.memory[env.loc[t]] == Moved(env.loc, env.memLow, env.abs[t])
  {
    assert env.memory[..][env.loc[t]] == Moved(env.loc, env.memLow, env.abs[t]);
  }

  /** Lets the protecting node of root i hold a fresh node. */
  method PointDump(env: Env, i: nat, newNode: nat, ghost d: nat, ghost id: nat, ghost cell: Value, ghost next1: nat)
    requires env.Valid() && i < 9 && |env.ids| == 9 && env.ids[i] == d && d in env.abs && env.memLow <= d < next1
    requires env.abs[d].op.List? && env.abs[d].u.Lis?
    requires cell.Cell? && Built(env.abs, id, cell, next1, env.nextId) && id in env.loc && newNode == env.loc[id]
    modifies env`abs, env`rank, env.memory
    ensures env.Valid() && env.abs == old(env.abs)[d := old(env.abs)[d].(u := Lis(id))]
    ensures Built(env.abs, id, cell, next1, env.nextId)
    ensures env.memory[..env.memLow] == old(env.memory[..env.memLow])
  {
    hide Graph, Located, Rooted, DefinitionsClosed;
    DumpAt(env, i, d);
    NodeAt(env, d);
    NodeRefs(env.abs, env.rank, env.memLow, env.nextId, d);
    NodeRefs(env.abs, env.rank, env.memLow, env.nextId, id);
    FootStays(env.abs, env.memLow, id, cell, next1, env.nextId);
    ghost var n := env.abs[d].(u := Lis(id));
    BuiltElsewhere(env.abs, d, n, id, cell, next1, env.nextId);
    var at := env.roots[i];
    env.Overwrite(at, env.memory[at].(u := Lis(newNode)), d, n, id, Foot(env.abs, id, cell));
  }

  /** Links a fresh node behind the last node of the chain. */
  method LinkTail(env: Env, tail: nat, newNode: nat, ghost id: nat, ghost cell: Value, ghost hid: nat, ghost tid: nat,
                  ghost done: Value, ghost a: nat, ghost next1: nat)
    requires env.Valid() && a <= next1 <= env.nextId && env.memLow <= a
    requires done.Cell? && Built(env.abs, hid, done, a, next1) && tid == Last(env.abs, hid, done)
    requires tid in env.loc && tail == env.loc[tid]
    requires cell.Cell? && cell.rest.Nil? && Built(env.abs, id, cell, next1, env.nextId)
    requires id in env.loc && newNode == env.loc[id]
    modifies env`abs, env`rank, env.memory
    ensures env.Valid() && a <= tid < next1 && tid in old(env.abs)
    ensures env.abs == old(env.abs)[tid := old(env.abs)[tid].(next := id)]
    ensures Built(env.abs, id, cell, next1, env.nextId)
    ensures Built(env.abs, hid, Append(done, cell), a, env.nextId) && Last(env.abs, hid, Append(done, cell)) == id
    ensures env.memory[..env.memLow] == old(env.memory[..env.memLow])
  {
    hide Graph, Located, Rooted, DefinitionsClosed;
    LinkLast(env.abs, hid, done, a, next1, id, cell, env.nextId);
    NodeAt(env, tid);
    NodeRefs(env.abs, env.rank, env.memLow, env.nextId, tid);
    NodeRefs(env.abs, env.rank, env.memLow, env.nextId, id);
    FootStays(env.abs, env.memLow, id, cell, next1, env.nextId);
    ghost var n := env.abs[tid].(next := id);
    BuiltElsewhere(env.abs, tid, n, id, cell, next1, env.nextId);
    env.Overwrite(tail, env.memory[tail].(next := newNode), tid, n, id, Foot(env.abs, id, cell));
  }

  /** The head index is 0 exactly while nothing is done. */
  lemma HeadZero(env: Env, hid: nat, done: Value, a: nat, b: nat)
    requires env.Valid() && Built(env.abs, hid, done, a, b)
    ensures Img(env.loc, env.memLow, hid) == 0 <==> done.Nil?
  {
    if done.Cell? {
      NodeAt(env, hid);
    }
  }

  /** Hangs a fresh node behind the chain and lets the protecting nodes follow. */
  method LinkNew(env: Env, newNode: nat, ghost id: nat, ghost cell: Value, ghost s: Snapshot, ghost d4: nat, ghost d5: nat,
                 ghost hid: nat, ghost tid: nat, ghost done: Value, ghost a: nat, ghost next1: nat)
    returns (ghost hid': nat, ghost tid': nat)
    requires env.Valid() && |s.ids| == 9 && KeptSince(env, s, s.ids[DUMP4 := d4][DUMP5 := d5])
    requires s.lo <= s.next <= d4 < d5 < a <= next1 <= env.nextId && 0 < s.lo
    requires d4 in env.abs && env.abs[d4] == Node(List, s.ids[DUMP4], Lis(hid))
    requires d5 in env.abs && env.abs[d5] == Node(List, s.ids[DUMP5], Lis(tid))
    requires Built(env.abs, hid, done, a, next1) && (if done.Nil? then tid == 0 else tid == Last(env.abs, hid, done))
    requires cell.Cell? && cell.rest.Nil? && Built(env.abs, id, cell, next1, env.nextId)
    requires id in env.loc && newNode == env.loc[id]
    modifies env`abs, env`rank, env.memory
    ensures Building(env, s, d4, d5, a, hid', Append(done, cell), tid')
    ensures env.abs.Keys == old(env.abs.Keys) && forall y :: y in env.abs ==> env.abs[y].op == old(env.abs)[y].op
  {
    hide Graph, Located, Rooted, DefinitionsClosed, Agrees;
    DumpAt(env, DUMP4, d4);
    HeadZero(env, hid, done, a, next1);
    if env.memory[env.roots[DUMP4]].u.lis == 0 {
      LinkFirst(env, newNode, id, cell, s, d4, d5, a, next1);
      hid', tid' := id, id;
    } else {
      LinkAgain(env, newNode, id, cell, s, d4, d5, hid, tid, done, a, next1);
      hid', tid' := hid, id;
    }
  }

  method LinkFirst(env: Env, newNode: nat, ghost id: nat, ghost cell: Value, ghost s: Snapshot, ghost d4: nat, ghost d5: nat,
                   ghost a: nat, ghost next1: nat)
    requires env.Valid() && |s.ids| == 9 && KeptSince(env, s, s.ids[DUMP4 := d4][DUMP5 := d5])
    requires s.lo <= s.next <= d4 < d5 < a <= next1 <= env.nextId && 0 < s.lo
    requires d4 in env.abs && env.abs[d4] == Node(List, s.ids[DUMP4], Lis(0))
    requires d5 in env.abs && env.abs[d5] == Node(List, s.ids[DUMP5], Lis(0))
    requires cell.Cell? && cell.rest.Nil? && Built(env.abs, id, cell, next1, env.nextId)
    requires id in env.loc && newNode == env.loc[id]
    modifies env`abs, env`rank, env.memory
    ensures Building(env, s, d4, d5, a, id, cell, id)
    ensures env.abs.Keys == old(env.abs.Keys) && forall y :: y in env.abs ==> env.abs[y].op == old(env.abs)[y].op
  {
    hide Graph, Located, Rooted, DefinitionsClosed, Built;
    PointDump(env, DUMP4, newNode, d4, id, cell, next1);
    PointDump(env, DUMP5, newNode, d5, id, cell, next1);
    BuiltWiden(env.abs, id, cell, next1, env.nextId, a, env.nextId);
  }

  method LinkAgain(env: Env, newNode: nat, ghost id: nat, ghost cell: Value, ghost s: Snapshot, ghost d4: nat, ghost d5: nat,
                   ghost hid: nat, ghost tid: nat, ghost done: Value, ghost a: nat, ghost next1: nat)
    requires env.Valid() && |s.ids| == 9 && KeptSince(env, s, s.ids[DUMP4 := d4][DUMP5 := d5])
    requires s.lo <= s.next <= d4 < d5 < a <= next1 <= env.nextId && 0 < s.lo
    requires d4 in env.abs && env.abs[d4] == Node(List, s.ids[DUMP4], Lis(hid))
    requires d5 in env.abs && env.abs[d5] == Node(List, s.ids[DUMP5], Lis(tid))
    requires done.Cell? && Built(env.abs, hid, done, a, next1) && tid == Last(env.abs, hid, done)
    requires cell.Cell? && cell.rest.Nil? && Built(env.abs, id, cell, next1, env.nextId)
    requires id in env.loc && newNode == env.loc[id]
    modifies env`abs, env`rank, env.memory
    ensures Building(env, s, d4, d5, a, hid, Append(done, cell), id)
    ensures env.abs.Keys == old(env.abs.Keys) && forall y :: y in env.abs ==> env.abs[y].op == old(env.abs)[y].op
  {
    hide Graph, Located, Rooted, DefinitionsClosed, Built, Last;
    DumpAt(env, DUMP5, d5);
    var tail := env.memory[env.roots[DUMP5]].u.lis;
    LinkLast(env.abs, hid, done, a, next1, id, cell, env.nextId);
    NodeAt(env, tid);
    LinkTail(env, tail, newNode, id, cell, hid, tid, done, a, next1);
    ghost var abs2 := env.abs;
    PointDump(env, DUMP5, newNode, d5, id, cell, next1);
    BuiltElsewhere(abs2, d5, abs2[d5].(u := Lis(id)), hid, Append(done, cell), a, env.nextId);
  }

  /** Puts an empty protecting node on each of the two roots. */
  method Protect(env: Env) returns (ghost d4: nat, ghost d5: nat)
    requires env.Valid() && |env.ids| == 9 && |env.roots| == 9
    modifies env, env.memory
    ensures fresh(env.memory) || env.memory == old(env.memory)
    ensures !env.overrun ==> Building(env, old(Taken(env)), d4, d5, env.nextId, 0, Nil, 0)
    ensures old(env.Roomy()) ==> !env.overrun && env.Roomy()
    ensures old(TextFree(env.abs)) ==> !env.overrun && TextFree(env.abs)
  {
    hide Graph, Located, Rooted, DefinitionsClosed;
    LocatedBounds(env.memory[..], env.memLow, env.memoryindex, env.abs, env.loc);
    d4, d5 := 0, 0;
    d4 := PushDump(env, DUMP4);
    if env.overrun {
      return;
    }
    d5 := PushDump(env, DUMP5);
    if !env.overrun {
      RootKnown(env, DUMP4);
      RootKnown(env, DUMP5);
    }
  }

  /** Pushes a node for an empty list on root i. */
  method PushDump(env: Env, i: nat) returns (ghost d: nat)
    requires env.Valid() && |env.ids| == 9 && i < 9
    modifies env, env.memory
    ensures fresh(env.memory) || env.memory == old(env.memory)
    ensures !env.overrun ==>
              && env.Valid() && d == old(env.nextId) && env.nextId == d + 1 && env.memLow == old(env.memLow) <= d
              && env.ids == old(env.ids)[i := d]
              && d in env.abs && env.abs[d] == Node(List, old(env.ids)[i], Lis(0))
              && (forall y :: y in env.abs && y != d ==> y in old(env.abs) && env.abs[y] == old(env.abs)[y])
              && env.memory[..env.memLow] == old(env.memory[..env.memLow])
    ensures old(env.Roomy()) ==> !env.overrun && env.Roomy()
    ensures old(TextFree(env.abs)) ==> !env.overrun && TextFree(env.abs)
  {
    hide Graph, Located, Rooted, DefinitionsClosed, Stays;
    LocatedBounds(env.memory[..], env.memLow, env.memoryindex, env.abs, env.loc);
    RootKnown(env, i);
    var p;
    ghost var kept;
    p, d, kept := env.NewNode(List, Lis(0), env.roots[i], 0, env.ids[i]);
    if !env.overrun {
      NodeAt(env, d);
      env.SetRoot(i, p, d);
    }
  }

  lemma RootKnown(env: Env, i: nat)
    requires env.Valid() && |env.ids| == 9 && i < 9
    ensures Known(env.abs.Keys, env.memLow, env.ids[i]) && |env.roots| == 9
    ensures env.roots[i] == Img(env.loc, env.memLow, env.ids[i])
  {
  }

  /** Takes the head from its protecting node and drops both protecting nodes. */
  method Release(env: Env, ghost s: Snapshot, ghost d4: nat, ghost d5: nat, ghost a: nat, ghost hid: nat, ghost done: Value,
                 ghost tid: nat)
    returns (head: nat)
    requires Building(env, s, d4, d5, a, hid, done, tid)
    modifies env`roots, env`ids
    ensures env.Valid() && KeptSince(env, s, s.ids)
    ensures Known(env.abs.Keys, env.memLow, hid) && head == Img(env.loc, env.memLow, hid)
    ensures Built(env.abs, hid, done, s.next, env.nextId)
  {
    hide Graph, Located, Rooted, DefinitionsClosed, Agrees;
    DumpAt(env, DUMP4, d4);
    DumpAt(env, DUMP5, d5);
    NodeRefs(env.abs, env.rank, env.memLow, env.nextId, d4);
    NodeRefs(env.abs, env.rank, env.memLow, env.nextId, d5);
    BuiltWiden(env.abs, hid, done, a, env.nextId, s.next, env.nextId);
    head := env.memory[env.roots[DUMP4]].u.lis;
    env.SetRoot(DUMP5, env.memory[env.roots[DUMP5]].next, s.ids[DUMP5]);
    env.SetRoot(DUMP4, env.memory[env.roots[DUMP4]].next, s.ids[DUMP4]);
    assert env.ids == s.ids;
  }

  /** All that the roots denote is as before, wherever it lies now. */
  lemma RootsSame(m: seq<Node>, lo: nat, idx: nat, abs: map<nat, Node>, loc: map<nat, nat>, rank: map<nat, nat>, n: nat,
                  m': seq<Node>, idx': nat, abs': map<nat, Node>, loc': map<nat, nat>, rank': map<nat, nat>, n': nat,
                  ids: seq<nat>, roots: seq<nat>, roots': seq<nat>)
    requires Located(m, lo, idx, abs, loc) && Graph(abs, rank, lo, n) && Rooted(lo, abs, loc, ids, roots)
    requires Located(m', lo, idx', abs', loc') && Graph(abs', rank', lo, n') && Rooted(lo, abs', loc', ids, roots')
    requires DefinitionsClosed(m, lo) && lo <= |m'| && m'[..lo] == m[..lo] && Agrees(abs, n, abs')
    ensures |roots'| == |roots|
    ensures forall i, w :: 0 <= i < |roots| ==> (Denotes(m, roots[i], w) <==> Denotes(m', roots'[i], w))
  {
    hide Located, Graph, DefinitionsClosed, Agrees, Denotes;
    LocatedBounds(m, lo, idx, abs, loc);
    assert forall i :: 0 <= i < lo ==> m'[i] == m'[..lo][i] && m[i] == m[..lo][i];
    forall i, w | 0 <= i < |roots| ensures Denotes(m, roots[i], w) <==> Denotes(m', roots'[i], w) {
      SameMeaning(m, lo, idx, abs, loc, rank, n, m', idx', abs', loc', rank', n', ids[i], w);
    }
  }

  /** What a caller sees of a copy: the head denotes the value in env's own memory, every root denotes what it
      denoted, and the source is as it was. */
  method Deliver(env: Env, child: Env, node: nat, ghost v: Value) returns (head: nat)
    requires env.Valid() && Source(env, child, node, v)
    modifies env, env.memory
    ensures old(env.Roomy()) && OneSlotEach(v) ==> !env.overrun && env.Roomy()
    ensures old(TextFree(env.abs)) && NoText(v) ==> !env.overrun
    ensures !env.overrun ==>
              && env.Valid() && Source(env, child, node, v) && Denotes(env.memory[..], head, v)
              && env.memLow == old(env.memLow) && |env.roots| == |old(env.roots)|
              && forall i, w :: 0 <= i < |env.roots| ==>
                   (Denotes(old(env.memory[..]), old(env.roots)[i], w) <==> Denotes(env.memory[..], env.roots[i], w))
  {
    hide Located, Graph, Rooted, DefinitionsClosed, Agrees, Built, Denotes;
    ghost var m, lo, idx, abs, loc, rank := env.memory[..], env.memLow, env.memoryindex, env.abs, env.loc, env.rank;
    ghost var n, ids, roots := env.nextId, env.ids, env.roots;
    LocatedBounds(m, lo, idx, abs, loc);
    ghost var hid;
    head, hid := CopyNodeToParent(env, child, node, v);
    if !env.overrun {
      RootsSame(m, lo, idx, abs, loc, rank, n, env.memory[..], env.memoryindex, env.abs, env.loc, env.rank, env.nextId,
                ids, roots, env.roots);
      BuiltDenotes(env.memory[..], lo, env.memoryindex, env.abs, env.loc, env.rank, env.nextId, hid, v, n, env.nextId);
    }
  }

  /** A task runs the bodies of definitions that live in the memory of its parent; without a parent the body
      is in the memory already. */
  method CopyBodyFromParent(env: Env, parent: Env?, node: nat, ghost v: Value) returns (head: nat)
    requires env.Valid() && (if parent == null then Denotes(env.memory[..], node, v) else Source(env, parent, node, v))
    modifies env, env.memory
    ensures parent == null || node == 0 ==> head == node && unchanged(env)
    ensures old(env.Roomy()) && OneSlotEach(v) ==> !env.overrun && env.Roomy()
    ensures old(TextFree(env.abs)) && NoText(v) ==> !env.overrun
    ensures !env.overrun ==>
              && env.Valid() && Denotes(env.memory[..], head, v)
              && env.memLow == old(env.memLow) && |env.roots| == |old(env.roots)|
              && forall i, w :: 0 <= i < |env.roots| ==>
                   (Denotes(old(env.memory[..]), old(env.roots)[i], w) <==> Denotes(env.memory[..], env.roots[i], w))
  {
    if node == 0 || parent == null {
      return node;
    }
    head := Deliver(env, parent, node, v);
  }
}
