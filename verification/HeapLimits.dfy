/** Where the memory of the program falls short of what its comments promise: runs from the start that end in each
    of these states. */
module HeapLimits {
  import opened CopyOrder
  import opened CopyTheory
  import opened HeapModel
  import opened Spaces
  import opened Identities
  import opened Collector

  /** An environment as it is before the first input. */
  method Begin() returns (env: Env)
    ensures fresh(env) && fresh(env.memory) && env.Valid() && env.Tidy() && !env.flibraryBusy && env.memLow == 1
    ensures env.memoryindex == 1 && env.memorymax == 1100 && env.abs == map[] && env.inits == 0 && env.nextId == 1
    ensures env.roots == env.ids == [0, 0, 0, 0, 0, 0, 0, 0, 0]
  {
    hide Located, Graph, Rooted, DefinitionsClosed;
    env := new Env();
    env.Inimem1(false);
    env.Inimem2();
  }

  lemma NothingLives(env: Env)
    requires env.abs == map[]
    ensures env.LiveWith([]) == env.memLow
  {
    assert Reached(env.abs, env.memLow, env.ids + []) == {};
    TotalEmpty(env.abs, env.nextId);
  }

  /** Right after a reservation the slots can be missing: with nothing but the null node in use, the memory grows to
      2200 slots for a request of 2100 and then shrinks to 1980. */
  method ReservedTooLittle() returns (env: Env)
    ensures env.Valid() && env.memoryindex == 1 && env.memorymax == 1980 < env.memoryindex + 2100
  {
    hide Located, Graph, Rooted, DefinitionsClosed, TotalBelow, Reached;
    env := Begin();
    NothingLives(env);
    assert Grown(1100, 2101) == Grown(2200, 2101) == 2200;
    env.EnsureCapacity(2100);
  }

  /** A definition that begins after a term was executed leaves the current program above what is in use. */
  method ProgramDangles() returns (env: Env)
    ensures !env.Valid() && !env.overrun && |env.roots| == 9 && env.roots[PROG] == env.memoryindex == env.memLow == 1
  {
    hide Located, Graph, DefinitionsClosed, TotalBelow, Reached, Outcome;
    env := Begin();
    env.AllocateNext(Node(Atom(6), 0, Bits(0)), Node(Atom(6), 0, Bits(0)));
    env.SetRoot(PROG, 1, env.nextId - 1);
    env.Inimem1(true);
  }

  /** k short texts, each linked to the one before it. */
  ghost function Texts(k: nat): (m: map<nat, Node>)
    ensures forall a :: a in m <==> 1 <= a <= k
    ensures forall a :: a in m ==> m[a] == Node(Text, a - 1, Chars("a"))
  {
    if k == 0 then map[] else Texts(k - 1)[k := Node(Text, k - 1, Chars("a"))]
  }

  lemma TextsStep(k: nat)
    ensures Texts(0) == map[] && NewSlots(Text, Chars("a")) == 1
    ensures Texts(k + 1) == Texts(k)[k + 1 := Own(Text, Chars("a"), 0, k)]
  {
  }

  lemma {:induction false} TextsLive(k: nat, s: set<nat>, ids: seq<nat>, a: nat)
    requires Stays(Texts(k), 1, s, ids) && |ids| > 0 && ids[0] == k && 1 <= a <= k
    ensures a in s
    decreases k - a
  {
    if a == k {
      assert Known(s, 1, ids[0]);
    } else {
      TextsLive(k, s, ids, a + 1);
      assert RefsKnown(s, 1, Texts(k)[a + 1]);
    }
  }

  lemma {:induction false} TextsTotal(k: nat, s: set<nat>, b: nat)
    requires s == Texts(k).Keys && b <= k + 1
    ensures TotalBelow(Texts(k), s, b) == if b == 0 then 0 else 2 * (b - 1)
    decreases b
  {
    if b > 0 {
      TextsTotal(k, s, b - 1);
    }
  }

  lemma TextsNeed(env: Env, k: nat)
    requires env.memLow == 1 && env.abs == Texts(k) && env.nextId == k + 1
    requires |env.ids| == 9 && env.ids[0] == k && forall i :: 1 <= i < 9 ==> env.ids[i] == 0
    ensures env.LiveWith([]) == 1 + 2 * k
  {
    var ids := env.ids + [];
    assert ids == env.ids;
    forall a | a in env.abs ensures a in Reached(env.abs, 1, ids) {
      forall s: set<nat> | Stays(env.abs, 1, s, ids) ensures a in s {
        TextsLive(k, s, ids, a);
      }
    }
    TextsTotal(k, Reached(env.abs, 1, ids), k + 1);
  }

  /** The stack holds a list of k short texts, and there is nothing else. */
  ghost predicate Holds(env: Env, k: nat)
    reads env, env.memory
  {
    && env.Valid() && env.memLow == 1 && !env.flibraryBusy
    && env.memoryindex == k + 1 == env.nextId && env.memorymax == 1100 && env.abs == Texts(k)
    && |env.roots| == |env.ids| == 9 && env.ids[0] == k && forall i :: 1 <= i < 9 ==> env.ids[i] == 0
  }

  method AddText(env: Env, ghost k: nat)
    requires Holds(env, k) && k < 1000
    modifies env, env.memory
    ensures Holds(env, k + 1) && env.memory == old(env.memory)
  {
    hide Located, Graph, DefinitionsClosed, TotalBelow, Reached, Outcome, Stored, Stays, Texts, Own;
    assert Known(env.abs.Keys, 1, env.ids[0]) && env.roots[0] == Img(env.loc, 1, env.ids[0]);
    LocatedBounds(env.memory[..], env.memLow, env.memoryindex, env.abs, env.loc);
    TextsStep(k);
    var p;
    ghost var id, kept;
    p, id, kept := env.NewNode(Text, Chars("a"), env.roots[0], 0, env.ids[0]);
    LocatedBounds(env.memory[..], env.memLow, env.memoryindex, env.abs, env.loc);
    env.SetRoot(0, p, id);
  }

  /** The stack of an environment before the first input gets k short texts. */
  method BeginTexts(n: nat) returns (env: Env)
    requires n <= 1000
    ensures fresh(env) && fresh(env.memory) && Holds(env, n)
  {
    hide Located, Graph, Rooted, DefinitionsClosed, TotalBelow, Reached, Texts;
    env := Begin();
    TextsStep(0);
    var k: nat := 0;
    while k < n
      invariant k <= n && fresh(env) && fresh(env.memory) && Holds(env, k)
    {
      AddText(env, k);
      k := k + 1;
    }
  }

  /** A collection can write behind the end of the memory although half of it is free: a text that is copied takes
      one slot more than it had, so the last of 551 short texts, which fit in 552 slots of 1100, goes to slot 1101. */
  method TextsOutgrow() returns (env: Env, used: nat, capacity: nat)
    ensures env.overrun && used == 552 && capacity == 1100
  {
    hide Located, Graph, Rooted, DefinitionsClosed, TotalBelow, Reached, Texts, Short;
    env := BeginTexts(551);
    TextsNeed(env, 551);
    used, capacity := env.memoryindex, env.memorymax;
    ghost var kept := env.GcCollect();
  }

  /** Where there are only texts, the last copy is one. */
  lemma TextsAreShort(env: Env, k: nat)
    requires Holds(env, k) && k > 0
    ensures env.ShortWith([])
  {
    hide Located, Graph, Rooted, TotalBelow, Reached, Texts, VisitAll, Keeps, Ranked, Live;
    env.CollectReady();
    var s, all, ranks := env.Now(), Places(env.loc, env.abs.Keys), IndexRank(env.loc, env.rank);
    var rs := s.roots + [];
    OrderIsLive(s.slots, s.lo, all, ranks, rs);
    var o := VisitAll(s.slots, s.lo, ranks, [], rs);
    TextsNeed(env, k);
    if o == [] {
      NoneMet(s.slots, s.lo);
    } else {
      assert o[|o| - 1] in Elements(o);
      TextAt(env, k, o[|o| - 1]);
    }
  }

  lemma TextAt(env: Env, k: nat, i: nat)
    requires Holds(env, k) && i in Places(env.loc, env.abs.Keys)
    ensures i < env.memory.Length && IsText(env.memory[i].op)
  {
    hide Texts;
    var a :| a in env.abs.Keys && a in env.loc && env.loc[a] == i;
    assert env.memory[..][i] == Moved(env.loc, env.memLow, env.abs[a]);
  }

  /** With one text less they need 1101 slots, but the last of these is not written, and the memory is doubled. */
  method TextsJustFit() returns (env: Env, used: nat, capacity: nat)
    ensures env.Valid() && used == 551 && capacity == 1100 && env.memoryindex == 1101 && env.memorymax == 2200
  {
    hide Located, Graph, Rooted, DefinitionsClosed, TotalBelow, Reached, Texts, Short;
    env := BeginTexts(550);
    TextsNeed(env, 550);
    TextsAreShort(env, 550);
    used, capacity := env.memoryindex, env.memorymax;
    ghost var kept := env.GcCollect();
  }

  // ----- a node that no root holds -----

  /** Node a of a heap in which node 2 is a continuation that holds node 1, the rest of a term that node 3 began;
      the other nodes are garbage. */
  function Begun(a: nat): Node {
    if a == 2 then Node(List, 0, Lis(1)) else if a == 3 then Node(Atom(6), 1, Bits(0)) else Node(Atom(6), 0, Bits(0))
  }

  ghost predicate HasBegun(env: Env, k: nat)
    reads env, env.memory
  {
    && env.Valid() && env.memLow == 1 && !env.flibraryBusy && env.memorymax == 1100
    && env.memoryindex == k + 1 == env.nextId <= env.memory.Length
    && (forall a :: a in env.abs <==> 1 <= a <= k) && env.loc.Keys == env.abs.Keys
    && (forall a :: a in env.abs ==> env.abs[a] == env.memory[a] == Begun(a) && env.loc[a] == a)
    && env.roots == env.ids && |env.ids| == 9 && forall i :: 0 <= i < 9 && i != CONTS ==> env.ids[i] == 0
  }

  method AddNode(env: Env, ghost k: nat)
    requires HasBegun(env, k) && k < 1098
    modifies env, env.memory
    ensures HasBegun(env, k + 1) && env.memory == old(env.memory) && env.roots == old(env.roots)
  {
    hide Located, Graph, Rooted, DefinitionsClosed;
    ghost var a := k + 1;
    env.AllocateNext(Begun(env.memoryindex), Begun(a));
  }

  lemma NothingBegun(env: Env)
    requires env.Valid() && env.memLow == 1 && !env.flibraryBusy && env.memorymax == 1100 && env.memoryindex == 1 == env.nextId
    requires env.abs == map[] && env.roots == env.ids == [0, 0, 0, 0, 0, 0, 0, 0, 0]
    ensures HasBegun(env, 0)
  {
  }

  /** An environment in which a term has begun. */
  method BeginTerm() returns (env: Env)
    ensures fresh(env) && fresh(env.memory) && HasBegun(env, 1098) && env.ids[CONTS] == 2
  {
    hide Located, Graph, Rooted, DefinitionsClosed, HasBegun;
    env := Begin();
    NothingBegun(env);
    var k: nat := 0;
    while k < 1098
      invariant k <= 1098 && fresh(env) && fresh(env.memory) && HasBegun(env, k)
    {
      AddNode(env, k);
      k := k + 1;
    }
    HoldTwo(env);
  }

  method HoldTwo(env: Env)
    requires HasBegun(env, 1098)
    modifies env`roots, env`ids
    ensures HasBegun(env, 1098) && env.ids[CONTS] == 2
  {
    hide Located, Graph, Rooted, DefinitionsClosed;
    env.SetRoot(CONTS, 2, 2);
  }

  /** The collection finds nothing alive but the continuation and the rest of the term. */
  lemma TwoLive(env: Env)
    requires HasBegun(env, 1098) && env.ids[CONTS] == 2
    ensures Reached(env.abs, 1, env.ids + [0, 0]) == {1, 2} && env.LiveWith([0, 0]) == 3
  {
    hide Located, Graph, Rooted, DefinitionsClosed, Reached, TotalBelow;
    TwoReached(env.abs, env.ids + [0, 0]);
    TwoTotal(env.abs, 1099);
  }

  lemma TwoReached(abs: map<nat, Node>, ids: seq<nat>)
    requires 1 in abs && 2 in abs && abs[1] == Begun(1) && abs[2] == Begun(2)
    requires |ids| > CONTS && ids[CONTS] == 2 && forall i :: 0 <= i < |ids| && i != CONTS ==> ids[i] == 0
    ensures Reached(abs, 1, ids) == {1, 2}
  {
    forall s: set<nat> | Stays(abs, 1, s, ids) ensures 1 in s && 2 in s {
      assert Known(s, 1, ids[CONTS]) && RefsKnown(s, 1, abs[2]);
    }
    assert Stays(abs, 1, {1, 2}, ids);
  }

  lemma {:induction false} TwoTotal(abs: map<nat, Node>, k: nat)
    requires 1 in abs && 2 in abs && CopySlots(abs[1]) == CopySlots(abs[2]) == 1
    ensures TotalBelow(abs, {1, 2}, k) == if k <= 1 then 0 else if k == 2 then 1 else 2
    decreases k
  {
    if k > 0 {
      TwoTotal(abs, k - 1);
    }
  }

  lemma StartsCollection(env: Env)
    requires HasBegun(env, 1098)
    ensures env.Valid() && |env.roots| == |env.ids| == 9 && env.roots[DUMP4] == 0 && env.memLow == 1 && env.nextId == 1099
    ensures env.Full(NewSlots(List, Lis(0))) && env.Fitting(List, Lis(0), 0, 0, 0) && NewSlots(List, Lis(0)) == 1
    ensures ParamIds(List, 0, 0) == [0, 0] && env.Roomy() && !env.flibraryBusy
    ensures 3 < env.memoryindex <= env.memory.Length && env.memory[3].next == 1
    ensures 1 in env.abs && 2 in env.abs && env.abs[2] == Begun(2)
  {
    hide Located, Graph, Rooted, DefinitionsClosed;
    assert 3 in env.abs;
  }

  /** Where the new node and the continuation are afterwards. */
  lemma AtThree(env: Env, before: map<nat, Node>, id: nat, kept: set<nat>)
    requires env.Valid() && env.memLow == 1 && id in env.loc && env.loc[id] == 3 && |env.ids| == 9 && env.ids[CONTS] == 2
    requires 2 in kept && 1 in kept && 1 in before && 2 in before && before[2] == Begun(2) && id > 2
    requires env.abs == Restrict(before, kept)[id := Own(List, Lis(0), 0, 0)]
    ensures 3 < env.memoryindex <= env.memory.Length && env.memory[3].next == 0
    ensures |env.roots| == 9 && 0 < env.roots[CONTS] < env.memoryindex
    ensures env.memory[env.roots[CONTS]].u.Lis? && env.memory[env.roots[CONTS]].u.lis != 0
  {
    assert env.abs[2] == Begun(2);
    assert env.memory[..][env.loc[2]] == Moved(env.loc, 1, env.abs[2]);
    assert env.memory[..][env.loc[id]] == Moved(env.loc, 1, env.abs[id]);
    assert env.roots[CONTS] == Img(env.loc, 1, env.ids[CONTS]);
  }

  /** An index that is not in a root is worthless after a collection.  In a task `exec_term` keeps the node that it
      executes in a local variable, after it took it off the continuation, while the body of the name is copied.
      The first allocation of the copier can collect, and in the heap of `BeginTerm` the new node comes to lie where
      that node was: what is left of the term is still there, but what the variable leads to has no next node any
      more, so that the call is taken for the last one and the rest is dropped. */
  method StaleNode(env: Env)
    requires HasBegun(env, 1098) && env.ids[CONTS] == 2
    modifies env, env.memory
    ensures env.Valid() && 3 < env.memoryindex <= env.memory.Length
    ensures old(env.memory[3].next) != 0 && env.memory[3].next == 0
    ensures |env.roots| == 9 && 0 < env.roots[CONTS] < env.memoryindex
    ensures env.memory[env.roots[CONTS]].u.Lis? && env.memory[env.roots[CONTS]].u.lis != 0
  {
    hide Located, Graph, Rooted, DefinitionsClosed, TotalBelow, Reached, Stays, Moved, RefsKnown, NewSlots, HasBegun;
    TwoLive(env);
    StartsCollection(env);
    ghost var before := env.abs;
    var p;
    ghost var id, kept;
    p, id, kept := env.NewNode(List, Lis(0), env.roots[DUMP4], 0, 0);
    AtThree(env, before, id, kept);
  }
}
