/** Runs of the allocator: whatever is allocated, reserved and collected, and whatever is executed and defined, the
    next free slot stays inside the memory. */
module HeapRuns {
  import opened HeapModel
  import opened CopyLayout
  import opened Spaces
  import opened Identities
  import opened Collector
  import opened FlatHeap

  /** A step of a program as the heap sees it.  It allocates an atom or a list of what a root holds on top of what
      another root holds, drops the first node that a root holds, opens a list, lets a root hold what another
      holds, writes a reference of a node in place, reserves slots or collects; it makes the list on the stack the current program, as an input that is
      no definition does, or clears the current program, as after an error; it begins or ends a definition, or
      takes the stack for the initial stack.  No step but these two lets the current program be another.

      A reference is written to the node in use in a slot above the definitions, and to any node in use; nothing
      happens unless `below` shows that no path leads from there to the slot (`FlatHeap.Avoids`). */
  datatype Step =
    | NewAtom(code: nat, bits: int, onto: nat)
    | NewList(contents: nat, onto: nat)
    | Pop(root: nat)
    | Open(from: nat, to: nat)
    | Assign(from: nat, to: nat)
    | WriteNext(slot: nat, x: nat, below: set<nat>)
    | WriteContents(slot: nat, x: nat, below: set<nat>)
    | ReserveSlots(slots: nat)
    | Collection
    | Execute
    | Abort
    | BeginDefinition
    | EndDefinition
    | KeepStack

  /** The roots other than the current program. */
  function Root(i: nat): (r: nat)
    ensures r < 9 && r != PROG
  {
    if i % 8 == 0 then STCK else i % 8 + 1
  }

  /** The next free slot lies below the capacity, the capacity is there, and the roots lead to slots in use, but
      for the current program, which may lead to slots left behind. */
  ghost predicate Safe(env: Env)
    reads env, env.memory
  {
    && !env.overrun && env.inits < env.memLow <= env.memoryindex < env.memorymax <= env.memory.Length
    && |env.roots| == |env.ids| == 9 && (forall j :: 0 <= j < 9 && j != PROG ==> env.roots[j] < env.memoryindex)
    && exists top, rank :: Flat(env.Now(), top, rank)
  }

  lemma IsSafe(env: Env, top: nat, rank: map<nat, nat>)
    requires Flat(env.Now(), top, rank) && !env.overrun && env.inits < env.memLow && |env.ids| == 9
    ensures Safe(env)
  {
    hide DefinitionsClosed, Lower;
    assert forall j :: 0 <= j < 9 ==> env.Now().roots[j] == env.roots[j];
  }

  /** Lets root i hold x. */
  method Hold(env: Env, i: nat, x: nat)
    requires Safe(env) && i < 9 && x < env.memoryindex
    modifies env`roots
    ensures Safe(env)
  {
    ghost var top, rank :| Flat(env.Now(), top, rank);
    FlatRoot(env.Now(), top, rank, i, x);
    env.roots := env.roots[i := x];
    IsSafe(env, top, rank);
  }

  /** What the node at x refers to is in use. */
  lemma RefsInUse(env: Env, x: nat)
    requires Safe(env) && x < env.memoryindex
    ensures x < env.memory.Length && env.memory[x].next < env.memoryindex
    ensures env.memory[x].u.Lis? ==> env.memory[x].u.lis < env.memoryindex
  {
    var top, rank :| Flat(env.Now(), top, rank);
    FlatRefs(env.Now(), top, rank, x);
  }

  /** Allocates a node and lets a root hold it. */
  method Allocate(env: Env, o: Op, u: Types, onto: nat)
    requires Safe(env) && onto < 9 && onto != PROG && Proper(Node(o, 0, u)) && !IsText(o)
    requires u.Lis? ==> u.lis < env.memoryindex
    modifies env, env.memory
    ensures Safe(env) && (fresh(env.memory) || env.memory == old(env.memory))
  {
    hide Flat, Collectable, Needed, RoomMade, Stored, Grown, Exceeds, Demand, Joint, Between, Collected;
    ghost var s := env.Now();
    ghost var top, rank :| Flat(s, top, rank);
    var r := env.roots[onto];
    ghost var params, joint := Params(o, u, r), Joint(rank, s.lo, s.index, top);
    ghost var demand := Demand(s, joint, o, u, r);
    OneSlot(o, u);
    FlatCollectable(s, top, rank, params);
    if s.index + 1 >= s.max {
      FlatFits(s, top, rank, 1, demand, params, Short(s, joint, params));
    }
    var p;
    ghost var mid, u', r', fwd;
    p, mid, u', r', fwd := env.Allocate(o, u, r, Between(s.lo, top), joint);
    top, rank := FlatRoom(s, top, rank, env.flibraryBusy, 1, demand, params, mid, Params(o, u', r'), fwd);
    ParamsBelow(o, u', r', mid.index);
    top, rank := FlatStored(mid, top, rank, Node(o, r', u'), env.memory[..]);
    FlatNumbers(env.Now(), top, rank);
    FlatRoot(env.Now(), top, rank, onto, p);
    env.roots := env.roots[onto := p];
    IsSafe(env, top, rank);
  }

  lemma ParamsBelow(o: Op, u: Types, r: nat, hi: nat)
    requires (o.List? <==> u.Lis?) && forall i :: 0 <= i < |Params(o, u, r)| ==> Params(o, u, r)[i] < hi
    ensures RefsKnown({}, hi, Node(o, r, u))
  {
    assert Params(o, u, r)[|Params(o, u, r)| - 1] == r;
    if u.Lis? {
      assert Params(o, u, r)[0] == u.lis;
    }
  }

  method ReserveSlots(env: Env, slots: nat)
    requires Safe(env)
    modifies env, env.memory
    ensures Safe(env) && (fresh(env.memory) || env.memory == old(env.memory))
  {
    hide Flat, Collectable, Needed, RoomMade, Grown, Joint, Between;
    ghost var s := env.Now();
    ghost var top, rank :| Flat(s, top, rank);
    FlatCollectable(s, top, rank, []);
    if slots > 0 && s.index + slots >= s.max {
      FlatFits(s, top, rank, slots, slots, [], true);
    }
    ghost var fwd := env.ReserveRoom(slots, Between(s.lo, top), Joint(rank, s.lo, s.index, top));
    top, rank := FlatRoom(s, top, rank, env.flibraryBusy, slots, slots, [], env.Now(), [], fwd);
    IsSafe(env, top, rank);
  }

  method Collect(env: Env)
    requires Safe(env)
    modifies env, env.memory
    ensures Safe(env) && fresh(env.memory)
  {
    hide Flat, Collectable, Needed, Joint, Between, Collected;
    ghost var s := env.Now();
    ghost var top, rank :| Flat(s, top, rank);
    FlatNumbers(s, top, rank);
    FlatCollectable(s, top, rank, []);
    FlatNeeds(s, top, rank, []);
    var none;
    ghost var fwd;
    none, fwd := env.Collect([], Between(s.lo, top), Joint(rank, s.lo, s.index, top));
    rank := FlatCollected(s, s.max, top, rank, [], env.Now(), none, fwd);
    IsSafe(env, env.memoryindex, rank);
  }

  /** Begins a definition: what was in use is left behind, the current program among it. */
  method BeginDefinition(env: Env)
    requires Safe(env)
    modifies env
    ensures Safe(env) && env.memory == old(env.memory)
  {
    hide Flat, Joint;
    ghost var s := env.Now();
    ghost var top, rank :| Flat(s, top, rank);
    FlatNumbers(s, top, rank);
    FlatProgram(s, top, rank);
    env.Inimem1(true);
    rank := FlatReset(s, top, rank, env.roots);
    assert env.Now() == s.(index := s.lo, roots := env.roots);
    IsSafe(env, top, rank);
  }

  lemma FlatProgram(s: Space, top: nat, rank: map<nat, nat>)
    requires Flat(s, top, rank)
    ensures s.roots[PROG] < top
  {
  }

  /** Ends a definition. */
  method EndDefinition(env: Env)
    requires Safe(env)
    modifies env
    ensures Safe(env) && env.memory == old(env.memory)
    ensures env.memLow == env.memoryindex == old(env.memoryindex) && env.roots == old(env.roots)
  {
    hide Flat;
    ghost var s := env.Now();
    ghost var top, rank :| Flat(s, top, rank);
    FlatNumbers(s, top, rank);
    FlatClosed(s, top, rank);
    env.Inimem2();
    assert env.Now() == s.(lo := s.index);
    IsSafe(env, top, rank);
  }

  /** Takes the stack for the initial stack, which then belongs to the definitions. */
  method KeepStack(env: Env)
    requires Safe(env)
    modifies env
    ensures Safe(env) && env.memory == old(env.memory)
  {
    hide Flat;
    var stack := env.roots[STCK];
    EndDefinition(env);
    ghost var top, rank :| Flat(env.Now(), top, rank);
    env.inits := stack;
    IsSafe(env, top, rank);
  }

  /** Writes a reference of a node in place, if that makes no cycle. */
  method Write(env: Env, slot: nat, x: nat, contents: bool, below: set<nat>)
    requires Safe(env)
    modifies env.memory
    ensures Safe(env)
    ensures var m := old(env.memory[..]);
            env.memory[..] ==
            if !(env.memLow <= slot < env.memoryindex && x < env.memoryindex && (contents ==> m[slot].u.Lis?)
                 && Avoids(m, env.memLow, env.memoryindex, slot, x, below)) then m
            else m[slot := if contents then m[slot].(u := Lis(x)) else m[slot].(next := x)]
  {
    hide Flat;
    if env.memLow <= slot < env.memoryindex && x < env.memoryindex && (contents ==> env.memory[slot].u.Lis?) {
      ghost var s := env.Now();
      ghost var top, rank :| Flat(s, top, rank);
      if Avoids(env.memory[..], env.memLow, env.memoryindex, slot, x, below) {
        var node := env.memory[slot];
        var node' := if contents then node.(u := Lis(x)) else node.(next := x);
        rank := FlatWritten(s, top, rank, slot, x, below, node');
        env.memory[slot] := node';
        assert env.Now() == s.(slots := s.slots[slot := node']);
        IsSafe(env, top, rank);
      }
    }
  }

  /** Makes the list on the stack the current program and starts without continuations. */
  method Execute(env: Env)
    requires Safe(env)
    modifies env`roots
    ensures Safe(env)
  {
    hide Flat;
    RefsInUse(env, env.roots[STCK]);
    var node := env.memory[env.roots[STCK]];
    if env.roots[STCK] != 0 && node.op.List? && node.u.Lis? {
      Hold(env, PROG, node.u.lis);
      Hold(env, STCK, node.next);
      Hold(env, CONTS, 0);
    }
  }

  method Take(env: Env, step: Step)
    requires Safe(env)
    modifies env, env.memory
    ensures Safe(env) && (fresh(env.memory) || env.memory == old(env.memory))
  {
    hide Flat;
    match step {
      case NewAtom(code, bits, onto) => Allocate(env, Atom(code), Bits(bits), Root(onto));
      case NewList(contents, onto) => Allocate(env, List, Lis(env.roots[Root(contents)]), Root(onto));
      case Pop(root) =>
        RefsInUse(env, env.roots[Root(root)]);
        Hold(env, Root(root), env.memory[env.roots[Root(root)]].next);
      case Open(from, to) =>
        RefsInUse(env, env.roots[Root(from)]);
        if env.memory[env.roots[Root(from)]].u.Lis? {
          Hold(env, Root(to), env.memory[env.roots[Root(from)]].u.lis);
        }
      case Assign(from, to) => Hold(env, Root(to), env.roots[Root(from)]);
      case WriteNext(slot, x, below) => Write(env, slot, x, false, below);
      case WriteContents(slot, x, below) => Write(env, slot, x, true, below);
      case ReserveSlots(slots) => ReserveSlots(env, slots);
      case Collection => Collect(env);
      case Execute => Execute(env);
      case Abort => Hold(env, PROG, 0);
      case BeginDefinition => BeginDefinition(env);
      case EndDefinition => EndDefinition(env);
      case KeepStack => KeepStack(env);
    }
  }

  method Start() returns (env: Env)
    ensures fresh(env) && fresh(env.memory) && Safe(env)
  {
    hide Located, Graph, Rooted, Env.Tidy, Lower, Under;
    env := new Env();
    env.Inimem1(false);
    env.Inimem2();
    FlatStart(env.Now());
    IsSafe(env, 1, map[]);
  }

  /** Over every run without texts, from the start and across everything executed and defined, the next free slot is
      below the capacity, the capacity is there, and nothing is written behind its end. */
  method RunAll(script: seq<Step>) returns (env: Env)
    ensures Safe(env)
  {
    env := Start();
    hide Safe;
    var i := 0;
    while i < |script|
      invariant i <= |script| && Safe(env) && fresh(env) && fresh(env.memory)
    {
      Take(env, script[i]);
      i := i + 1;
    }
  }
}
