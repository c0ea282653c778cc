/** Parallel map, filter and tree reduction, against the sequential code that few inputs are left to.

    The sequential code executes a quotation on the stack that the operands lie on; a task executes it on a
    stack of its own that holds nothing but copies of its inputs. */
module Preduce {
  import opened LinearProbing

  datatype Option<V> = None | Some(value: V)

  /** What a quotation makes of a stack, the top of which comes first; None is an error. */
  type Quotation<!V> = seq<V> -> Option<seq<V>>

  /** How a task ends: with an error, with an empty stack, or with a value on top. */
  datatype Outcome<V> = Failed | Empty | Left(top: V)

  /** What a branch comes to.  Wild: it takes the characters of a text, which lie in its node, for a pointer, and
      nothing can be said about the run from there on. */
  datatype Answer<V> = Wrong | Wild | Right(value: V)

  function Of<V>(o: Option<V>): Answer<V> {
    if o.Some? then Right(o.value) else Wrong
  }

  function Alone<V>(q: Quotation<V>, x: V): Outcome<V> {
    var r := q([x]);
    if r.None? then Failed else if r.value == [] then Empty else Left(r.value[0])
  }

  /** The sequential run for one input: its result is the top of the whole stack, whosever it is. */
  function OnTop<V>(q: Quotation<V>, x: V, below: seq<V>): Option<V> {
    var r := q([x] + below);
    if r.None? || r.value == [] then None else Some(r.value[0])
  }

  /** Each of n tasks is run once. */
  predicate Schedule(order: seq<nat>, n: nat) {
    |order| == n && (forall k :: 0 <= k < n ==> order[k] < n) && forall i :: 0 <= i < n ==> i in order
  }

  /** Runs tasks 0 to n in the order of the schedule; each result has a place of its own. */
  method RunTasks<T(0)>(work: nat -> T, n: nat, order: seq<nat>) returns (tasks: array<T>)
    requires Schedule(order, n)
    ensures fresh(tasks) && tasks.Length == n && forall i :: 0 <= i < n ==> tasks[i] == work(i)
  {
    tasks := new T[n];
    var k := 0;
    while k < n
      invariant k <= n && tasks.Length == n
      invariant forall j :: 0 <= j < k ==> tasks[order[j]] == work(order[j])
    {
      tasks[order[k]] := work(order[k]);
      k := k + 1;
    }
    forall i | 0 <= i < n ensures tasks[i] == work(i) {
      assert i in order;
    }
  }

  /** The first task with an error, or the number of tasks. */
  method FirstError<T>(tasks: array<T>, wrong: T -> bool) returns (e: nat)
    ensures e <= tasks.Length && (forall i :: 0 <= i < e ==> !wrong(tasks[i])) && (e < tasks.Length ==> wrong(tasks[e]))
  {
    e := 0;
    while e < tasks.Length && !wrong(tasks[e])
      invariant e <= tasks.Length && forall i :: 0 <= i < e ==> !wrong(tasks[i])
    {
      e := e + 1;
    }
  }

  // ----- map -----

  /** The sequential branch. */
  function MapAll<V>(q: Quotation<V>, s: seq<V>, below: seq<V>): Option<seq<V>> {
    if s == [] then Some([])
    else
      match (OnTop(q, s[0], below), MapAll(q, s[1..], below))
      case (Some(v), Some(r)) => Some([v] + r)
      case _ => None
  }

  /** The parallel branch: a task that leaves nothing is passed over. */
  function MapTasks<V>(q: Quotation<V>, s: seq<V>): Option<seq<V>> {
    if s == [] then Some([])
    else
      match (Alone(q, s[0]), MapTasks(q, s[1..]))
      case (Left(v), Some(r)) => Some([v] + r)
      case (Empty, Some(r)) => Some(r)
      case _ => None
  }

  ghost predicate AnyFails<V>(q: Quotation<V>, s: seq<V>) {
    exists i :: 0 <= i < |s| && Alone(q, s[i]).Failed?
  }

  ghost predicate AllLeave<V>(q: Quotation<V>, s: seq<V>) {
    forall i :: 0 <= i < |s| ==> Alone(q, s[i]).Left?
  }

  /** The sequential code stops at an error or at an empty stack. */
  ghost predicate Stops<V>(q: Quotation<V>, s: seq<V>, below: seq<V>) {
    exists i :: 0 <= i < |s| && OnTop(q, s[i], below).None?
  }

  lemma {:induction false} MapTasksAt<V>(q: Quotation<V>, s: seq<V>)
    ensures MapTasks(q, s).None? <==> AnyFails(q, s)
    ensures MapTasks(q, s).Some? ==> |MapTasks(q, s).value| <= |s|
    ensures MapTasks(q, s).Some? ==> (|MapTasks(q, s).value| == |s| <==> AllLeave(q, s))
    ensures AllLeave(q, s) ==>
              MapTasks(q, s).Some? && |MapTasks(q, s).value| == |s|
              && forall i :: 0 <= i < |s| ==> Alone(q, s[i]) == Left(MapTasks(q, s).value[i])
    decreases |s|
  {
    hide Alone;
    if s != [] {
      MapTasksAt(q, s[1..]);
      assert forall i :: 0 < i < |s| ==> s[i] == s[1..][i - 1];
      if i :| 0 <= i < |s| && Alone(q, s[i]).Failed? {
        assert i > 0 ==> s[1..][i - 1] == s[i];
      }
    }
  }

  lemma {:induction false} MapAllAt<V>(q: Quotation<V>, s: seq<V>, below: seq<V>)
    ensures MapAll(q, s, below).None? <==> Stops(q, s, below)
    ensures MapAll(q, s, below).Some? ==>
              |MapAll(q, s, below).value| == |s|
              && forall i :: 0 <= i < |s| ==> OnTop(q, s[i], below) == Some(MapAll(q, s, below).value[i])
    decreases |s|
  {
    hide OnTop;
    if s != [] {
      MapAllAt(q, s[1..], below);
      assert forall i :: 0 < i < |s| ==> s[i] == s[1..][i - 1];
      if i :| 0 <= i < |s| && OnTop(q, s[i], below).None? {
        assert i > 0 ==> s[1..][i - 1] == s[i];
      }
    }
  }

  /** Every task leaves what the sequential run for its input leaves. */
  ghost predicate SameTops<V>(q: Quotation<V>, s: seq<V>, below: seq<V>) {
    forall i :: 0 <= i < |s| ==> Alone(q, s[i]).Left? && OnTop(q, s[i], below) == Some(Alone(q, s[i]).top)
  }

  /** The two branches agree exactly if both fail, or if every task leaves what the sequential run leaves. */
  lemma MapsAgree<V>(q: Quotation<V>, s: seq<V>, below: seq<V>)
    ensures MapTasks(q, s) == MapAll(q, s, below) <==> (AnyFails(q, s) && Stops(q, s, below)) || SameTops(q, s, below)
  {
    hide Alone, OnTop, MapAll, MapTasks;
    MapTasksAt(q, s);
    MapAllAt(q, s, below);
    if SameTops(q, s, below) {
      assert MapTasks(q, s).value == MapAll(q, s, below).value;
    }
  }

  /** A quotation that works on its operand only: it does the same to it whatever lies below, and leaves that
      in place. */
  ghost predicate Local<V(!new)>(q: Quotation<V>) {
    forall x, b :: q([x] + b) == if q([x]).Some? then Some(q([x]).value + b) else None
  }

  lemma LocalRun<V(!new)>(q: Quotation<V>, x: V, below: seq<V>)
    requires Local(q)
    ensures Alone(q, x).Failed? ==> OnTop(q, x, below).None?
    ensures Alone(q, x).Empty? ==> OnTop(q, x, below) == if below == [] then None else Some(below[0])
    ensures Alone(q, x).Left? ==> OnTop(q, x, below) == Some(Alone(q, x).top)
  {
    assert q([x] + below) == if q([x]).Some? then Some(q([x]).value + below) else None;
  }

  /** For such a quotation they agree exactly if a task fails or every task leaves a value.  Otherwise the
      sequential code takes the value below, which the tasks do not see, or fails if there is none. */
  lemma LocalMapsAgree<V(!new)>(q: Quotation<V>, s: seq<V>, below: seq<V>)
    requires Local(q)
    ensures MapTasks(q, s) == MapAll(q, s, below) <==> AnyFails(q, s) || AllLeave(q, s)
  {
    hide Alone, OnTop, Local;
    MapsAgree(q, s, below);
    forall i | 0 <= i < |s|
      ensures Alone(q, s[i]).Failed? ==> OnTop(q, s[i], below).None?
      ensures Alone(q, s[i]).Left? ==> OnTop(q, s[i], below) == Some(Alone(q, s[i]).top)
    {
      LocalRun(q, s[i], below);
    }
  }

  /** pop */
  function Pop<V>(s: seq<V>): Option<seq<V>> {
    if s == [] then None else Some(s[1..])
  }

  function Repeat<V>(v: V, n: nat): (s: seq<V>)
    ensures |s| == n
  {
    if n == 0 then [] else [v] + Repeat(v, n - 1)
  }

  /** Mapping pop over a list yields the value below for every element, and by tasks nothing at all. */
  lemma {:induction false} PopDiffers<V>(s: seq<V>, below: seq<V>)
    requires below != []
    ensures MapAll(Pop, s, below) == Some(Repeat(below[0], |s|)) && MapTasks(Pop, s) == Some([])
    decreases |s|
  {
    if s != [] {
      PopDiffers(s[1..], below);
      assert ([s[0]] + below)[1..] == below && [s[0]][1..] == [];
    }
  }

  method MapInOrder<V>(q: Quotation<V>, s: seq<V>, below: seq<V>) returns (r: Option<seq<V>>)
    ensures r == MapAll(q, s, below)
  {
    hide OnTop;
    MapAllAt(q, s, below);
    var out: seq<V> := [];
    while |out| < |s|
      invariant |out| <= |s| && forall i :: 0 <= i < |out| ==> OnTop(q, s[i], below) == Some(out[i])
    {
      var o := OnTop(q, s[|out|], below);
      if o.None? {
        return None;
      }
      out := out + [o.value];
    }
    assert out == MapAll(q, s, below).value;
    r := Some(out);
  }

  /** Runs the tasks, and collects what they left from the last one to the first; e is the first task with an
      error if there is one. */
  method MapByTasks<V(0)>(q: Quotation<V>, s: seq<V>, order: seq<nat>) returns (r: Option<seq<V>>, e: nat)
    requires Schedule(order, |s|)
    ensures r == MapTasks(q, s)
    ensures r.None? ==> e < |s| && Alone(q, s[e]).Failed? && forall i :: 0 <= i < e ==> !Alone(q, s[i]).Failed?
  {
    hide Alone;
    MapTasksAt(q, s);
    var n := |s|;
    var tasks := RunTasks((i: nat) => if i < n then Alone(q, s[i]) else Failed, n, order);
    assert forall i :: 0 <= i < n ==> tasks[i] == Alone(q, s[i]);
    e := FirstError(tasks, (o: Outcome<V>) => o.Failed?);
    if e < n {
      assert Alone(q, s[e]).Failed?;
      return None, e;
    }
    var out: seq<V>, i := [], n;
    assert s[n..] == [];
    while i > 0
      invariant 0 <= i <= n && MapTasks(q, s[i..]) == Some(out)
    {
      i := i - 1;
      assert s[i..][0] == s[i] && s[i..][1..] == s[i + 1..];
      if tasks[i].Left? {
        out := [tasks[i].top] + out;
      }
    }
    assert s[0..] == s;
    r := Some(out);
  }

  /** The quotation replaces its operand x by g(x), whatever lies below. */
  ghost predicate Replaces<V(!new)>(q: Quotation<V>, g: V -> V) {
    forall x, rest :: ReplacesAt(q, g, x, rest)
  }

  ghost predicate ReplacesAt<V>(q: Quotation<V>, g: V -> V, x: V, rest: seq<V>) {
    q([x] + rest) == Some([g(x)] + rest)
  }

  lemma ReplacesRuns<V(!new)>(q: Quotation<V>, g: V -> V, x: V, below: seq<V>)
    requires Replaces(q, g)
    ensures Alone(q, x) == Left(g(x)) && OnTop(q, x, below) == Some(g(x))
  {
    assert ReplacesAt(q, g, x, below) && ReplacesAt(q, g, x, []);
    assert [x] + [] == [x];
  }

  /** Both branches map g over the list. */
  lemma MapsReplace<V(!new)>(q: Quotation<V>, g: V -> V, s: seq<V>, below: seq<V>)
    requires Replaces(q, g)
    ensures MapAll(q, s, below) == MapTasks(q, s) == Some(seq(|s|, i requires 0 <= i < |s| => g(s[i])))
  {
    hide Alone, OnTop, MapAll, MapTasks, Replaces;
    MapAllAt(q, s, below);
    MapTasksAt(q, s);
    forall i | 0 <= i < |s| ensures Alone(q, s[i]) == Left(g(s[i])) && OnTop(q, s[i], below) == Some(g(s[i])) {
      ReplacesRuns(q, g, s[i], below);
    }
    assert MapAll(q, s, below).value == seq(|s|, i requires 0 <= i < |s| => g(s[i]));
    assert MapTasks(q, s).value == seq(|s|, i requires 0 <= i < |s| => g(s[i]));
  }

  /** pmap, on a stack with something below: few inputs are mapped in order.  For a quotation that replaces its
      operand x by g(x) the result holds g of each input, in order. */
  method Pmap<V(0, !new)>(q: Quotation<V>, list: seq<V>, below: seq<V>, order: seq<nat>, ghost g: V -> V) returns (r: Option<seq<V>>)
    requires Schedule(order, |list|)
    ensures r == if |list| < 4 then MapAll(q, list, below) else MapTasks(q, list)
    ensures Replaces(q, g) ==> r.Some? && |r.value| == |list| && forall i :: 0 <= i < |list| ==> r.value[i] == g(list[i])
  {
    if Replaces(q, g) {
      MapsReplace(q, g, list, below);
    }
    if list == [] {
      return Some([]);
    }
    if |list| < 4 {
      r := MapInOrder(q, list, below);
    } else {
      var e;
      r, e := MapByTasks(q, list, order);
    }
  }

  // ----- filter -----

  /** Booleans, characters and integers; floating-point numbers; lists; strings; big numbers, which are texts
      too; sets, names and all the rest. */
  datatype Kind = Numeric | Floating | Listing | Text | Big | Other

  /** A value as the filters look at it: its kind and the 64 bits of its union.  A list keeps its first node in
      the lower half; the upper half is what was there before.  A text keeps its first characters there. */
  datatype Datum = Datum(kind: Kind, word: nat)

  const HALF := 0x1_0000_0000
  const NEGATIVE_ZERO := 0x8000_0000_0000_0000

  predicate Textual(v: Datum) {
    v.kind.Text? || v.kind.Big?
  }

  /** The sequential code looks at all bits, whatever the kind. */
  predicate KeepInOrder(v: Datum) {
    v.word != 0
  }

  /** The parallel code looks at the kind, and takes what it does not know for true.  What it makes of a string
      with any bits is not known. */
  predicate KeepByTask(v: Datum) {
    match v.kind
    case Numeric => v.word != 0
    case Floating => v.word != 0 && v.word != NEGATIVE_ZERO
    case Listing => v.word % HALF != 0
    case Text => false
    case Big | Other => true
  }

  /** It takes the characters of a string for a pointer to them. */
  predicate WildVerdict(o: Outcome<Datum>) {
    o.Left? && o.top.kind.Text? && o.top.word != 0
  }

  function FlagsAll(q: Quotation<Datum>, s: seq<Datum>, below: seq<Datum>): Option<seq<bool>> {
    if s == [] then Some([])
    else
      match (OnTop(q, s[0], below), FlagsAll(q, s[1..], below))
      case (Some(v), Some(r)) => Some([KeepInOrder(v)] + r)
      case _ => None
  }

  predicate TaskFlag(o: Outcome<Datum>) {
    o.Left? && KeepByTask(o.top)
  }

  function FlagsTasks(q: Quotation<Datum>, s: seq<Datum>): Option<seq<bool>> {
    if s == [] then Some([])
    else
      match (Alone(q, s[0]), FlagsTasks(q, s[1..]))
      case (Failed, _) => None
      case (o, Some(r)) => Some([TaskFlag(o)] + r)
      case _ => None
  }

  function Kept<A>(s: seq<A>, keep: seq<bool>): seq<A>
    requires |keep| == |s|
  {
    if s == [] then [] else (if keep[0] then [s[0]] else []) + Kept(s[1..], keep[1..])
  }

  /** The inputs whose flag is set. */
  function KeptBy<A>(s: seq<A>, keep: Option<seq<bool>>): Option<seq<A>> {
    if keep.Some? && |keep.value| == |s| then Some(Kept(s, keep.value)) else None
  }

  lemma {:induction false} FlagsAllAt(q: Quotation<Datum>, s: seq<Datum>, below: seq<Datum>)
    ensures FlagsAll(q, s, below).None? <==> Stops(q, s, below)
    ensures FlagsAll(q, s, below).Some? ==>
              |FlagsAll(q, s, below).value| == |s|
              && forall i :: 0 <= i < |s| ==>
                   OnTop(q, s[i], below).Some? && FlagsAll(q, s, below).value[i] == KeepInOrder(OnTop(q, s[i], below).value)
    decreases |s|
  {
    hide OnTop, KeepInOrder;
    if s != [] {
      FlagsAllAt(q, s[1..], below);
      assert forall i :: 0 < i < |s| ==> s[i] == s[1..][i - 1];
      if i :| 0 <= i < |s| && OnTop(q, s[i], below).None? {
        assert i > 0 ==> s[1..][i - 1] == s[i];
      }
    }
  }

  lemma {:induction false} FlagsTasksAt(q: Quotation<Datum>, s: seq<Datum>)
    ensures FlagsTasks(q, s).None? <==> AnyFails(q, s)
    ensures FlagsTasks(q, s).Some? ==>
              |FlagsTasks(q, s).value| == |s|
              && forall i :: 0 <= i < |s| ==> FlagsTasks(q, s).value[i] == TaskFlag(Alone(q, s[i]))
    decreases |s|
  {
    hide Alone, TaskFlag;
    if s != [] {
      FlagsTasksAt(q, s[1..]);
      assert forall i :: 0 < i < |s| ==> s[i] == s[1..][i - 1];
      if i :| 0 <= i < |s| && Alone(q, s[i]).Failed? {
        assert i > 0 ==> s[1..][i - 1] == s[i];
      }
    }
  }

  /** Collecting what one input comes to takes a text for a pointer: its verdict, or the input that is kept. */
  predicate WildFor(q: Quotation<Datum>, x: Datum) {
    WildVerdict(Alone(q, x)) || (TaskFlag(Alone(q, x)) && Textual(x))
  }

  /** The parallel branch. */
  function ByTasks(q: Quotation<Datum>, s: seq<Datum>): Answer<seq<Datum>> {
    var r := KeptBy(s, FlagsTasks(q, s));
    if r.None? then Wrong else if exists i :: 0 <= i < |s| && WildFor(q, s[i]) then Wild else Right(r.value)
  }

  /** The two runs for one input, neither of which fails, keep it or drop it alike. */
  ghost predicate SameFlag(q: Quotation<Datum>, x: Datum, below: seq<Datum>) {
    && !Alone(q, x).Failed? && OnTop(q, x, below).Some?
    && TaskFlag(Alone(q, x)) == KeepInOrder(OnTop(q, x, below).value)
  }

  lemma {:induction false} KeptMember<A>(s: seq<A>, keep: seq<bool>, x: A)
    requires |keep| == |s|
    ensures x in Kept(s, keep) <==> exists i :: 0 <= i < |s| && s[i] == x && keep[i]
    decreases |s|
  {
    if s != [] {
      KeptMember(s[1..], keep[1..], x);
      assert forall i :: 0 < i < |s| ==> s[i] == s[1..][i - 1] && keep[i] == keep[1..][i - 1];
      if i :| 0 <= i < |s| && s[i] == x && keep[i] {
        if i > 0 {
          assert s[1..][i - 1] == x && keep[1..][i - 1];
        }
      }
      if x in Kept(s[1..], keep[1..]) {
        var j :| 0 <= j < |s[1..]| && s[1..][j] == x && keep[1..][j];
        assert s[j + 1] == x && keep[j + 1];
      }
    }
  }

  /** Equal inputs have equal flags. */
  ghost predicate Steady<A>(s: seq<A>, keep: seq<bool>)
    requires |keep| == |s|
  {
    forall i, j :: 0 <= i < |s| && 0 <= j < |s| && s[i] == s[j] ==> keep[i] == keep[j]
  }

  lemma KeptFlag<A>(s: seq<A>, keep: seq<bool>, i: nat)
    requires |keep| == |s| && Steady(s, keep) && i < |s|
    ensures s[i] in Kept(s, keep) <==> keep[i]
  {
    hide Kept;
    KeptMember(s, keep, s[i]);
  }

  /** Then the inputs kept tell the flags. */
  lemma KeptSame<A>(s: seq<A>, a: seq<bool>, b: seq<bool>)
    requires |a| == |b| == |s| && Steady(s, a) && Steady(s, b)
    ensures Kept(s, a) == Kept(s, b) <==> a == b
  {
    hide Kept, Steady;
    if Kept(s, a) == Kept(s, b) {
      forall i | 0 <= i < |s| ensures a[i] == b[i] {
        KeptFlag(s, a, i);
        KeptFlag(s, b, i);
      }
    }
  }

  /** The two branches keep the same inputs exactly if they have the same flags. */
  lemma FlagsTell(q: Quotation<Datum>, s: seq<Datum>, below: seq<Datum>)
    ensures KeptBy(s, FlagsTasks(q, s)) == KeptBy(s, FlagsAll(q, s, below)) <==> FlagsTasks(q, s) == FlagsAll(q, s, below)
  {
    hide Alone, OnTop, TaskFlag, KeepInOrder, FlagsAll, FlagsTasks, Kept;
    FlagsTasksAt(q, s);
    FlagsAllAt(q, s, below);
    if FlagsTasks(q, s).Some? && FlagsAll(q, s, below).Some? {
      KeptSame(s, FlagsTasks(q, s).value, FlagsAll(q, s, below).value);
    }
  }

  /** The two branches agree exactly if both fail, or if for every input the two runs decide alike and no text is
      taken for a pointer. */
  lemma FlagsAgree(q: Quotation<Datum>, s: seq<Datum>, below: seq<Datum>)
    ensures ByTasks(q, s) == Of(KeptBy(s, FlagsAll(q, s, below))) <==>
            (AnyFails(q, s) && Stops(q, s, below))
            || forall i :: 0 <= i < |s| ==> SameFlag(q, s[i], below) && !WildFor(q, s[i])
  {
    hide Alone, OnTop, TaskFlag, KeepInOrder, FlagsAll, FlagsTasks, WildFor, Kept;
    FlagsTasksAt(q, s);
    FlagsAllAt(q, s, below);
    FlagsTell(q, s, below);
    if forall i :: 0 <= i < |s| ==> SameFlag(q, s[i], below) {
      assert FlagsTasks(q, s).value == FlagsAll(q, s, below).value;
    }
  }

  /** The same value in two heaps: a list may have another first node, and other bits before it. */
  predicate Similar(v: Datum, w: Datum) {
    && v.kind == w.kind
    && if v.kind.Listing? then (v.word % 0x1_0000_0000 == 0) == (w.word % 0x1_0000_0000 == 0) else v.word == w.word
  }

  /** The quotation works on its operand only, up to where lists lie. */
  ghost predicate LocalTest(q: Quotation<Datum>) {
    forall x, b :: LocalAt(q, x, b)
  }

  ghost predicate LocalAt(q: Quotation<Datum>, x: Datum, b: seq<Datum>) {
    var r, t := q([x] + b), q([x]);
    && (r.Some? <==> t.Some?)
    && (t.Some? ==>
          && |r.value| == |t.value| + |b| && r.value[|t.value|..] == b
          && forall i :: 0 <= i < |t.value| ==> Similar(t.value[i], r.value[i]))
  }

  /** Values that both filters take alike: no negative zero, no empty list behind old bits, no string, and
      nothing else without bits, such as the empty set. */
  predicate Alike(w: Datum) {
    match w.kind
    case Numeric => true
    case Floating => w.word != 0x8000_0000_0000_0000
    case Listing => w.word == 0 || w.word % 0x1_0000_0000 != 0
    case Text => w.word == 0
    case Big | Other => w.word != 0
  }

  /** For a quotation of this kind, what the sequential run has on top decides.  A text must not be kept. */
  ghost predicate AlikeFor(q: Quotation<Datum>, x: Datum, below: seq<Datum>) {
    match Alone(q, x)
    case Failed => false
    case Empty => below != [] && below[0].word == 0
    case Left(_) =>
      var top := OnTop(q, x, below);
      top.Some? && Alike(top.value) && (Textual(x) ==> !KeepInOrder(top.value))
  }

  lemma AlikeExactly(q: Quotation<Datum>, x: Datum, below: seq<Datum>)
    requires LocalTest(q)
    ensures Alone(q, x).Failed? ==> OnTop(q, x, below).None?
    ensures SameFlag(q, x, below) && !WildFor(q, x) <==> AlikeFor(q, x, below)
  {
    assert LocalAt(q, x, below);
    var r, t := q([x] + below), q([x]);
    if t.Some? && t.value == [] {
      assert r.value == r.value[0..] == below;
    }
  }

  /** The two branches of the filter agree exactly if a task fails, or for every input the value that the
      sequential run has on top is taken alike, which below an empty result must be false. */
  lemma FiltersAgree(q: Quotation<Datum>, s: seq<Datum>, below: seq<Datum>)
    requires LocalTest(q)
    ensures ByTasks(q, s) == Of(KeptBy(s, FlagsAll(q, s, below))) <==>
            AnyFails(q, s) || forall i :: 0 <= i < |s| ==> AlikeFor(q, s[i], below)
  {
    hide Alone, OnTop, TaskFlag, KeepInOrder, FlagsAll, FlagsTasks, SameFlag, WildFor, AlikeFor, LocalTest, KeptBy, ByTasks;
    FlagsAgree(q, s, below);
    forall i | 0 <= i < |s|
      ensures Alone(q, s[i]).Failed? ==> OnTop(q, s[i], below).None?
      ensures SameFlag(q, s[i], below) && !WildFor(q, s[i]) <==> AlikeFor(q, s[i], below)
    {
      AlikeExactly(q, s[i], below);
    }
  }

  /** Puts true in place of its operand. */
  function Always(s: seq<Datum>): Option<seq<Datum>> {
    if s == [] then None else Some([Datum(Numeric, 1)] + s[1..])
  }

  lemma AlwaysKeeps(s: seq<Datum>, below: seq<Datum>)
    requires s != [] && KeptBy(s[1..], FlagsAll(Always, s[1..], below)) == Some(s[1..])
    ensures KeptBy(s, FlagsAll(Always, s, below)) == Some(s)
  {
    var flags := FlagsAll(Always, s[1..], below).value;
    assert ([s[0]] + below)[0] == s[0];
    assert OnTop(Always, s[0], below) == Some(Datum(Numeric, 1));
    assert FlagsAll(Always, s, below) == Some([true] + flags);
    assert ([true] + flags)[1..] == flags && [s[0]] + s[1..] == s;
    assert Kept(s, [true] + flags) == [s[0]] + Kept(s[1..], flags);
  }

  /** A test that is always true keeps all texts in the sequential branch; the parallel one takes them for
      pointers. */
  lemma {:induction false} TextsAreLost(s: seq<Datum>, below: seq<Datum>)
    requires forall i :: 0 <= i < |s| ==> Textual(s[i])
    ensures KeptBy(s, FlagsAll(Always, s, below)) == Some(s)
    ensures s != [] ==> ByTasks(Always, s) == Wild
    decreases |s|
  {
    if s != [] {
      TextsAreLost(s[1..], below);
      FlagsTasksAt(Always, s);
      AlwaysKeeps(s, below);
      assert forall x :: Alone(Always, x) == Left(Datum(Numeric, 1));
      assert WildFor(Always, s[0]);
    }
  }

  /** Filtering by pop above a false value drops everything in both branches; above a true one the sequential
      code keeps everything and the parallel code nothing. */
  lemma {:induction false} PopFilters(s: seq<Datum>, below: seq<Datum>)
    requires below != []
    ensures FlagsAll(Pop, s, below) == Some(Repeat(below[0].word != 0, |s|)) && FlagsTasks(Pop, s) == Some(Repeat(false, |s|))
    decreases |s|
  {
    if s != [] {
      PopFilters(s[1..], below);
      assert ([s[0]] + below)[1..] == below && [s[0]][1..] == [];
    }
  }

  lemma {:induction false} KeptSnoc<A>(s: seq<A>, keep: seq<bool>, a: A, k: bool)
    requires |keep| == |s|
    ensures Kept(s + [a], keep + [k]) == Kept(s, keep) + if k then [a] else []
    decreases |s|
  {
    if s == [] {
      assert Kept([a], [k]) == (if k then [a] else []) + Kept<A>([], []);
    } else {
      var head, last: seq<A> := if keep[0] then [s[0]] else [], if k then [a] else [];
      var rest := Kept(s[1..], keep[1..]);
      assert (s + [a])[1..] == s[1..] + [a] && (keep + [k])[1..] == keep[1..] + [k];
      KeptSnoc(s[1..], keep[1..], a, k);
      assert Kept(s + [a], keep + [k]) == head + (rest + last);
      assert head + (rest + last) == (head + rest) + last;
    }
  }

  method FilterInOrder(q: Quotation<Datum>, s: seq<Datum>, below: seq<Datum>) returns (r: Option<seq<Datum>>)
    ensures r == KeptBy(s, FlagsAll(q, s, below))
  {
    hide OnTop, KeepInOrder, FlagsAll;
    FlagsAllAt(q, s, below);
    var out: seq<Datum>, i := [], 0;
    ghost var flags := [];
    assert s[..0] == [];
    while i < |s|
      invariant i <= |s| && |flags| == i && out == Kept(s[..i], flags)
      invariant forall j :: 0 <= j < i ==> OnTop(q, s[j], below).Some? && flags[j] == KeepInOrder(OnTop(q, s[j], below).value)
    {
      var o := OnTop(q, s[i], below);
      if o.None? {
        return None;
      }
      KeptSnoc(s[..i], flags, s[i], KeepInOrder(o.value));
      assert s[..i + 1] == s[..i] + [s[i]];
      flags := flags + [KeepInOrder(o.value)];
      if KeepInOrder(o.value) {
        out := out + [s[i]];
      }
      i := i + 1;
    }
    assert s[..i] == s && flags == FlagsAll(q, s, below).value;
    r := Some(out);
  }

  /** Keeps the inputs whose task left something true, and makes new nodes for them. */
  method FilterByTasks(q: Quotation<Datum>, s: seq<Datum>, order: seq<nat>) returns (r: Answer<seq<Datum>>)
    requires Schedule(order, |s|)
    ensures r == ByTasks(q, s)
  {
    hide Alone, TaskFlag, FlagsTasks, Textual;
    FlagsTasksAt(q, s);
    var n := |s|;
    var tasks := RunTasks((i: nat) => if i < n then Alone(q, s[i]) else Failed, n, order);
    assert forall i :: 0 <= i < n ==> tasks[i] == Alone(q, s[i]);
    var e := FirstError(tasks, (o: Outcome<Datum>) => o.Failed?);
    if e < n {
      assert Alone(q, s[e]).Failed?;
      return Wrong;
    }
    var keep, wild := KeepOf(tasks);
    assert keep == FlagsTasks(q, s).value;
    var out, text := Gather(s, keep);
    assert wild || text <==> exists j :: 0 <= j < n && WildFor(q, s[j]);
    r := if wild || text then Wild else Right(out);
  }

  /** Makes new nodes for the inputs to keep, from the last one to the first, and tells whether one is a text. */
  method Gather(s: seq<Datum>, keep: seq<bool>) returns (out: seq<Datum>, text: bool)
    requires |keep| == |s|
    ensures out == Kept(s, keep)
    ensures text <==> exists j :: 0 <= j < |s| && keep[j] && Textual(s[j])
  {
    hide Textual;
    var i := |s|;
    out, text := [], false;
    assert s[i..] == [];
    while i > 0
      invariant 0 <= i <= |s| && out == Kept(s[i..], keep[i..])
      invariant text <==> exists j :: i <= j < |s| && keep[j] && Textual(s[j])
    {
      i := i - 1;
      assert s[i..][1..] == s[i + 1..] && keep[i..][1..] == keep[i + 1..];
      if keep[i] {
        text := text || Textual(s[i]);
        out := [s[i]] + out;
      }
    }
    assert s[0..] == s && keep[0..] == keep;
  }

  /** Which inputs to keep, and whether finding it out took a text for a pointer. */
  method KeepOf(tasks: array<Outcome<Datum>>) returns (keep: seq<bool>, wild: bool)
    ensures |keep| == tasks.Length && forall j :: 0 <= j < tasks.Length ==> keep[j] == TaskFlag(tasks[j])
    ensures wild <==> exists j :: 0 <= j < tasks.Length && WildVerdict(tasks[j])
  {
    var flags := new bool[tasks.Length](_ => false);
    wild := false;
    var k := 0;
    while k < tasks.Length
      invariant 0 <= k <= tasks.Length
      invariant forall j :: 0 <= j < tasks.Length ==> flags[j] == (j < k && TaskFlag(tasks[j]))
      invariant wild <==> exists j :: 0 <= j < k && WildVerdict(tasks[j])
    {
      if tasks[k].Left? {
        wild := wild || WildVerdict(tasks[k]);
        flags[k] := KeepByTask(tasks[k].top);
      }
      k := k + 1;
    }
    keep := flags[..];
  }

  /** The quotation replaces its operand by true or false, as p says of it. */
  ghost predicate Decides(q: Quotation<Datum>, p: Datum -> bool) {
    Replaces(q, x => Datum(Numeric, if p(x) then 1 else 0))
  }

  /** Those of s for which p holds, in order. */
  function Chosen(s: seq<Datum>, p: Datum -> bool): seq<Datum> {
    if s == [] then [] else (if p(s[0]) then [s[0]] else []) + Chosen(s[1..], p)
  }

  lemma {:induction false} KeptChosen(s: seq<Datum>, keep: seq<bool>, p: Datum -> bool)
    requires |keep| == |s| && forall i :: 0 <= i < |s| ==> keep[i] == p(s[i])
    ensures Kept(s, keep) == Chosen(s, p)
    decreases |s|
  {
    if s != [] {
      KeptChosen(s[1..], keep[1..], p);
    }
  }

  /** Both branches keep the same inputs, but for texts that are kept. */
  lemma FiltersDecide(q: Quotation<Datum>, p: Datum -> bool, s: seq<Datum>, below: seq<Datum>)
    requires Decides(q, p)
    ensures KeptBy(s, FlagsAll(q, s, below)) == Some(Chosen(s, p))
    ensures (forall i :: 0 <= i < |s| ==> !(Textual(s[i]) && p(s[i]))) ==> ByTasks(q, s) == Right(Chosen(s, p))
  {
    hide Alone, OnTop, FlagsAll, FlagsTasks, Kept, Chosen, Replaces, Textual;
    FlagsAllAt(q, s, below);
    FlagsTasksAt(q, s);
    var g := (x: Datum) => Datum(Numeric, if p(x) then 1 else 0);
    forall i | 0 <= i < |s| ensures Alone(q, s[i]) == Left(g(s[i])) && OnTop(q, s[i], below) == Some(g(s[i])) {
      ReplacesRuns(q, g, s[i], below);
    }
    KeptChosen(s, FlagsAll(q, s, below).value, p);
    KeptChosen(s, FlagsTasks(q, s).value, p);
  }

  /** pfilter, on a stack with something below: few inputs are filtered in order.  A test that replaces its operand
      by a truth value keeps those inputs, in order, for which it is true, unless a text is kept by tasks. */
  method Pfilter(q: Quotation<Datum>, list: seq<Datum>, below: seq<Datum>, order: seq<nat>, ghost p: Datum -> bool)
    returns (r: Answer<seq<Datum>>)
    requires Schedule(order, |list|)
    ensures r == if |list| < 4 then Of(KeptBy(list, FlagsAll(q, list, below))) else ByTasks(q, list)
    ensures Decides(q, p) && (|list| < 4 || forall i :: 0 <= i < |list| ==> !(Textual(list[i]) && p(list[i]))) ==>
              r == Right(Chosen(list, p))
  {
    if Decides(q, p) {
      FiltersDecide(q, p, list, below);
    }
    if list == [] {
      return Right([]);
    }
    if |list| < 4 {
      var o := FilterInOrder(q, list, below);
      r := Of(o);
    } else {
      r := FilterByTasks(q, list, order);
    }
  }

  // ----- reduction -----

  /** One level of the tree: neighbours are combined, the right one first, and an odd last one is carried. */
  function Level<V>(op: (V, V) -> Option<V>, s: seq<V>): Option<seq<V>>
    decreases |s|
  {
    if |s| < 2 then Some(s)
    else
      match (op(s[1], s[0]), Level(op, s[2..]))
      case (Some(v), Some(r)) => Some([v] + r)
      case _ => None
  }

  /** Pair i of a level: the right operand comes first. */
  function Pair<V>(op: (V, V) -> Option<V>, s: seq<V>, i: nat): Option<V>
    requires 2 * i + 1 < |s|
  {
    op(s[2 * i + 1], s[2 * i])
  }

  /** What a level holds: half as many values, rounded up. */
  lemma {:induction false} LevelAt<V>(op: (V, V) -> Option<V>, s: seq<V>)
    ensures Level(op, s).Some? <==> forall i: nat :: i < |s| / 2 ==> Pair(op, s, i).Some?
    ensures Level(op, s).Some? ==>
              var t := Level(op, s).value;
              && |t| == (|s| + 1) / 2
              && (forall i: nat :: i < |s| / 2 ==> Pair(op, s, i) == Some(t[i]))
              && (|s| % 2 == 1 ==> t[|s| / 2] == s[|s| - 1])
    decreases |s|
  {
    if |s| >= 2 {
      var rest := s[2..];
      LevelAt(op, rest);
      forall i: nat | 0 < i < |s| / 2 ensures Pair(op, s, i) == Pair(op, rest, i - 1) {
      }
      forall i: nat | i < |rest| / 2 ensures Pair(op, rest, i) == Pair(op, s, i + 1) {
      }
      assert Pair(op, s, 0) == op(s[1], s[0]);
    }
  }

  predicate AnyText<V>(text: V -> bool, s: seq<V>) {
    exists i :: 0 <= i < |s| && text(s[i])
  }

  /** A level as the tasks run it: each takes its two operands from their nodes, and a text for a pointer. */
  function LevelRun<V>(op: (V, V) -> Option<V>, text: V -> bool, s: seq<V>): Answer<seq<V>> {
    if AnyText(text, s[..2 * (|s| / 2)]) then Wild else Of(Level(op, s))
  }

  /** The whole tree. */
  function Tree<V>(op: (V, V) -> Option<V>, text: V -> bool, s: seq<V>): Answer<V>
    requires |s| > 0
    decreases |s|
  {
    if |s| == 1 then Right(s[0])
    else
      LevelAt(op, s);
      match LevelRun(op, text, s)
      case Wrong => Wrong
      case Wild => Wild
      case Right(t) => Tree(op, text, t)
  }

  function Lift<V>(op: (V, V) -> Option<V>, x: Option<V>, y: Option<V>): Option<V> {
    if x.Some? && y.Some? then op(x.value, y.value) else None
  }

  function FoldLeft<V>(op: (V, V) -> Option<V>, s: seq<V>): Option<V>
    requires |s| > 0
  {
    if |s| == 1 then Some(s[0]) else Lift(op, FoldLeft(op, s[..|s| - 1]), Some(s[|s| - 1]))
  }

  function Reverse<V>(s: seq<V>): (r: seq<V>)
    ensures |r| == |s|
  {
    if s == [] then [] else Reverse(s[1..]) + [s[0]]
  }

  ghost predicate Associative<V(!new)>(op: (V, V) -> Option<V>) {
    forall a, b, c :: Lift(op, op(a, b), Some(c)) == Lift(op, Some(a), op(b, c))
  }

  ghost predicate Commutative<V(!new)>(op: (V, V) -> Option<V>) {
    forall a, b :: op(a, b) == op(b, a)
  }

  lemma LiftAssociates<V(!new)>(op: (V, V) -> Option<V>, x: Option<V>, y: Option<V>, z: Option<V>)
    requires Associative(op)
    ensures Lift(op, Lift(op, x, y), z) == Lift(op, x, Lift(op, y, z))
  {
    if x.Some? && y.Some? && z.Some? {
      assert Lift(op, op(x.value, y.value), Some(z.value)) == Lift(op, Some(x.value), op(y.value, z.value));
    }
  }

  lemma FoldBack<V>(op: (V, V) -> Option<V>, s: seq<V>)
    requires |s| > 0
    ensures |s| == 1 ==> FoldLeft(op, s) == Some(s[0])
    ensures |s| > 1 ==> FoldLeft(op, s) == Lift(op, FoldLeft(op, s[..|s| - 1]), Some(s[|s| - 1]))
  {
  }

  lemma ReverseOne<V>(a: V)
    ensures Reverse([a]) == [a]
  {
    assert Reverse<V>([]) == [];
  }

  /** The left fold of the reversed list takes the first value last. */
  lemma FoldReverse<V>(op: (V, V) -> Option<V>, s: seq<V>)
    requires |s| > 1
    ensures FoldLeft(op, Reverse(s)) == Lift(op, FoldLeft(op, Reverse(s[1..])), Some(s[0]))
  {
    var r := Reverse(s);
    assert r[..|r| - 1] == Reverse(s[1..]);
  }

  /** A level does not change the fold of the reversed list. */
  lemma {:induction false} LevelKeepsFold<V(!new)>(op: (V, V) -> Option<V>, s: seq<V>)
    requires Associative(op) && |s| > 0
    ensures Level(op, s).None? ==> FoldLeft(op, Reverse(s)) == None
    ensures Level(op, s).Some? ==>
              |Level(op, s).value| > 0 && FoldLeft(op, Reverse(Level(op, s).value)) == FoldLeft(op, Reverse(s))
    decreases |s|
  {
    if |s| == 1 {
      assert Level(op, s) == Some(s);
    } else if |s| == 2 {
      assert s == [s[0], s[1]];
      PairFold(op, s[0], s[1], s);
    } else {
      LevelKeepsFold(op, s[2..]);
      LevelMore(op, s);
    }
  }

  lemma LevelMore<V(!new)>(op: (V, V) -> Option<V>, s: seq<V>)
    requires Associative(op) && |s| > 2
    requires Level(op, s[2..]).None? ==> FoldLeft(op, Reverse(s[2..])) == None
    requires Level(op, s[2..]).Some? ==>
               |Level(op, s[2..]).value| > 0 && FoldLeft(op, Reverse(Level(op, s[2..]).value)) == FoldLeft(op, Reverse(s[2..]))
    ensures Level(op, s).None? ==> FoldLeft(op, Reverse(s)) == None
    ensures Level(op, s).Some? ==>
              |Level(op, s).value| > 0 && FoldLeft(op, Reverse(Level(op, s).value)) == FoldLeft(op, Reverse(s))
  {
    hide Level, FoldLeft, Reverse, Lift, Associative;
    var a, b, rest := s[0], s[1], s[2..];
    FoldReverse(op, s);
    FoldReverse(op, s[1..]);
    assert s[1..][1..] == rest && s[1..][0] == b;
    LiftAssociates(op, FoldLeft(op, Reverse(rest)), Some(b), Some(a));
    LevelFront(op, s);
    LiftNone(op, FoldLeft(op, Reverse(rest)), b, a);
  }

  lemma LiftNone<V>(op: (V, V) -> Option<V>, f: Option<V>, b: V, a: V)
    ensures Lift(op, Some(b), Some(a)) == op(b, a)
    ensures f == None || op(b, a) == None ==> Lift(op, f, op(b, a)) == None
  {
  }

  lemma PairFold<V>(op: (V, V) -> Option<V>, a: V, b: V, s: seq<V>)
    requires s == [a, b]
    ensures FoldLeft(op, Reverse(s)) == op(b, a)
    ensures Level(op, s) == if op(b, a).Some? then Some([op(b, a).value]) else None
    ensures op(b, a).Some? ==> FoldLeft(op, Reverse([op(b, a).value])) == op(b, a)
  {
    FoldReverse(op, s);
    assert s[1..] == [b] && s[2..] == [] && Level(op, s[2..]) == Some(s[2..]);
    ReverseOne(b);
    if op(b, a).Some? {
      assert [op(b, a).value] + s[2..] == [op(b, a).value];
      ReverseOne(op(b, a).value);
    }
  }

  /** The fold of a level takes its first pair last. */
  lemma LevelFront<V>(op: (V, V) -> Option<V>, s: seq<V>)
    requires |s| > 2
    ensures Level(op, s).Some? <==> op(s[1], s[0]).Some? && Level(op, s[2..]).Some?
    ensures Level(op, s).Some? && |Level(op, s[2..]).value| > 0 ==>
              |Level(op, s).value| > 1
              && FoldLeft(op, Reverse(Level(op, s).value)) ==
                 Lift(op, FoldLeft(op, Reverse(Level(op, s[2..]).value)), op(s[1], s[0]))
  {
    hide FoldLeft, Reverse, Lift;
    if Level(op, s).Some? && |Level(op, s[2..]).value| > 0 {
      var t := Level(op, s).value;
      assert t[1..] == Level(op, s[2..]).value;
      FoldReverse(op, t);
    }
  }

  /** For an associative operation the tree is the left fold of the reversed list, if it takes no text for a
      pointer on the way. */
  lemma {:induction false} TreeIsFold<V(!new)>(op: (V, V) -> Option<V>, text: V -> bool, s: seq<V>)
    requires Associative(op) && |s| > 0
    ensures Tree(op, text, s) == Wild || Tree(op, text, s) == Of(FoldLeft(op, Reverse(s)))
    decreases |s|
  {
    hide AnyText, Level, FoldLeft, Reverse, Associative;
    if |s| > 1 {
      LevelAt(op, s);
      LevelKeepsFold(op, s);
      if LevelRun(op, text, s).Right? {
        TreeIsFold(op, text, Level(op, s).value);
      }
    } else {
      assert s == [s[0]];
      ReverseOne(s[0]);
      FoldBack(op, s);
    }
  }

  /** The operation never makes a text. */
  ghost predicate MakesNone<V(!new)>(op: (V, V) -> Option<V>, text: V -> bool) {
    forall a, b :: op(a, b).Some? ==> !text(op(a, b).value)
  }

  lemma NoneAmong<V>(text: V -> bool, s: seq<V>, k: nat)
    requires k <= |s| && !AnyText(text, s[..k])
    ensures forall i :: 0 <= i < k ==> !text(s[i])
  {
    forall i | 0 <= i < k ensures !text(s[i]) {
      assert s[..k][i] == s[i];
    }
  }

  /** Of the texts of a level none but an odd last one gets to the next level. */
  lemma TextCarried<V>(op: (V, V) -> Option<V>, text: V -> bool, s: seq<V>)
    requires |s| > 1 && LevelRun(op, text, s).Right? && AnyText(text, s)
    ensures AnyText(text, Level(op, s).value)
  {
    hide Level, Pair;
    LevelAt(op, s);
    var n := |s|;
    NoneAmong(text, s, 2 * (n / 2));
    var i :| 0 <= i < n && text(s[i]);
    assert text(Level(op, s).value[n / 2]);
  }

  /** An operation that makes none adds none. */
  lemma NoneMade<V(!new)>(op: (V, V) -> Option<V>, text: V -> bool, s: seq<V>)
    requires |s| > 1 && Level(op, s).Some? && MakesNone(op, text) && AnyText(text, Level(op, s).value)
    ensures AnyText(text, s)
  {
    hide Level;
    LevelAt(op, s);
    var n := |s|;
    var i: nat :| i < |Level(op, s).value| && text(Level(op, s).value[i]);
    if i < n / 2 {
      assert Pair(op, s, i) == Some(Level(op, s).value[i]);
    } else {
      assert text(s[n - 1]);
    }
  }

  /** No tree has a result that has a text among two values or more.  If the operation makes none, the tree takes
      texts for pointers only if there is one. */
  lemma {:induction false} TreeTexts<V(!new)>(op: (V, V) -> Option<V>, text: V -> bool, s: seq<V>)
    requires |s| > 0
    ensures |s| > 1 && AnyText(text, s) ==> !Tree(op, text, s).Right?
    ensures MakesNone(op, text) && Tree(op, text, s) == Wild ==> |s| > 1 && AnyText(text, s)
    decreases |s|
  {
    hide AnyText, Level, MakesNone;
    if |s| > 1 {
      LevelAt(op, s);
      if LevelRun(op, text, s).Right? {
        var t := Level(op, s).value;
        TreeTexts(op, text, t);
        if AnyText(text, s) {
          TextCarried(op, text, s);
        }
        if MakesNone(op, text) && AnyText(text, t) {
          NoneMade(op, text, s);
        }
        if |t| == 1 {
          EvenTexts(text, s);
        }
      } else {
        OperandText(text, s);
      }
    }
  }

  lemma OperandText<V>(text: V -> bool, s: seq<V>)
    ensures AnyText(text, s[..2 * (|s| / 2)]) ==> AnyText(text, s)
  {
  }

  /** Of two values both are operands. */
  lemma EvenTexts<V>(text: V -> bool, s: seq<V>)
    requires |s| == 2
    ensures AnyText(text, s[..2 * (|s| / 2)]) == AnyText(text, s)
  {
    assert s[..2] == s;
  }

  /** Associativity lets the fold take its first value off. */
  lemma {:induction false} FoldFront<V(!new)>(op: (V, V) -> Option<V>, s: seq<V>)
    requires Associative(op) && |s| > 1
    ensures FoldLeft(op, s) == Lift(op, Some(s[0]), FoldLeft(op, s[1..]))
    decreases |s|
  {
    var n := |s|;
    hide FoldLeft, Lift, Associative;
    FoldBack(op, s);
    FoldBack(op, s[1..]);
    if n > 2 {
      FoldFront(op, s[..n - 1]);
      assert s[..n - 1][1..] == s[1..][..n - 2];
      LiftAssociates(op, Some(s[0]), FoldLeft(op, s[1..][..n - 2]), Some(s[n - 1]));
    } else {
      FoldBack(op, s[..1]);
    }
  }

  /** With commutativity as well the direction of the fold does not matter. */
  lemma {:induction false} FoldEitherWay<V(!new)>(op: (V, V) -> Option<V>, s: seq<V>)
    requires Associative(op) && Commutative(op) && |s| > 0
    ensures FoldLeft(op, Reverse(s)) == FoldLeft(op, s)
    decreases |s|
  {
    if |s| > 1 {
      FoldReverse(op, s);
      FoldFront(op, s);
      FoldEitherWay(op, s[1..]);
    } else {
      assert Reverse(s) == s;
    }
  }

  /** A quotation as an operation on two values, the first below the second, on a stack of their own.  If it
      leaves nothing, the value is the null node. */
  function Pairing<V>(q: Quotation<V>, nil: V): (V, V) -> Option<V> {
    (a, b) => var r := q([b, a]); if r.None? then None else Some(if r.value == [] then nil else r.value[0])
  }

  /** The stack of the sequential branch after a list: the quotation finds the accumulated value, and whatever
      else is there, below the next one.  An empty stack is an error. */
  function FoldStack<V>(q: Quotation<V>, s: seq<V>, below: seq<V>): (r: Option<seq<V>>)
    requires |s| > 0
    ensures r.Some? ==> r.value != []
  {
    if |s| == 1 then Some([s[0]] + below)
    else
      match FoldStack(q, s[..|s| - 1], below)
      case None => None
      case Some(st) =>
        var r := q([s[|s| - 1]] + st);
        if r.None? || r.value == [] then None else r
  }

  function FoldOn<V>(q: Quotation<V>, s: seq<V>, below: seq<V>): Option<V>
    requires |s| > 0
  {
    var r := FoldStack(q, s, below);
    if r.None? then None else Some(r.value[0])
  }

  /** The quotation uses two values only, and leaves at least one for them. */
  ghost predicate Binary<V(!new)>(q: Quotation<V>) {
    forall a, b, below :: BinaryAt(q, a, b, below)
  }

  ghost predicate BinaryAt<V>(q: Quotation<V>, a: V, b: V, below: seq<V>) {
    && q([b, a] + below) == (if q([b, a]).Some? then Some(q([b, a]).value + below) else None)
    && (q([b, a]).Some? ==> q([b, a]).value != [])
  }

  /** Such a quotation folds to the same value whatever lies below. */
  lemma {:induction false} FoldOnStack<V(!new)>(q: Quotation<V>, nil: V, s: seq<V>, below: seq<V>)
    requires Binary(q) && |s| > 0
    ensures FoldOn(q, s, below) == FoldLeft(Pairing(q, nil), s)
    decreases |s|
  {
    if |s| > 1 {
      FoldOnStack(q, nil, s[..|s| - 1], below);
      var st, x := FoldStack(q, s[..|s| - 1], below), s[|s| - 1];
      if st.Some? {
        assert BinaryAt(q, st.value[0], x, st.value[1..]);
        assert [x, st.value[0]] + st.value[1..] == [x] + st.value;
      }
    }
  }

  /** The sequential branch: the accumulated value lies below the next one. */
  method Sequential<V(!new)>(q: Quotation<V>, list: seq<V>, below: seq<V>, ghost g: (V, V) -> V) returns (r: Option<V>)
    requires |list| > 0
    ensures r == FoldOn(q, list, below)
    ensures Combines(q, g) ==> r == Some(Folded(g, list))
  {
    if Combines(q, g) {
      FoldCombines(q, g, list, below);
    }
    var stack := [list[0]] + below;
    var i := 1;
    assert list[..1] == [list[0]];
    while i < |list|
      invariant 1 <= i <= |list| && stack != [] && FoldStack(q, list[..i], below) == Some(stack)
    {
      assert list[..i + 1][..i] == list[..i];
      var next := q([list[i]] + stack);
      if next.None? || next.value == [] {
        FoldStops(q, list, below, i + 1);
        return None;
      }
      stack := next.value;
      i := i + 1;
    }
    assert list[..i] == list;
    r := Some(stack[0]);
  }

  /** An error on the way is an error at the end. */
  lemma {:induction false} FoldStops<V>(q: Quotation<V>, s: seq<V>, below: seq<V>, i: nat)
    requires 1 <= i <= |s| && FoldStack(q, s[..i], below) == None
    ensures FoldStack(q, s, below) == None
    decreases |s|
  {
    if i < |s| {
      assert s[..|s| - 1][..i] == s[..i];
      FoldStops(q, s[..|s| - 1], below, i);
    } else {
      assert s[..i] == s;
    }
  }

  /** Combines the pairs of a level by tasks; also returns the number of applications that were made. */
  method ReduceLevel<V(0)>(op: (V, V) -> Option<V>, text: V -> bool, values: seq<V>, order: seq<nat>)
    returns (r: Answer<seq<V>>, runs: nat)
    requires |values| > 1 && Schedule(order, |values| / 2)
    ensures r == LevelRun(op, text, values) && runs == |values| / 2
  {
    LevelAt(op, values);
    var pairs, odd := |values| / 2, |values| % 2;
    var tasks := RunTasks((i: nat) => if i < pairs then TaskRun(op, text, values, i) else Wrong, pairs, order);
    assert forall i: nat :: i < pairs ==> tasks[i] == TaskRun(op, text, values, i);
    runs := pairs;
    WildTasks(op, text, values);
    var w := FirstError(tasks, (o: Answer<V>) => o.Wild?);
    if w < pairs {
      return Wild, runs;
    }
    var e := FirstError(tasks, (o: Answer<V>) => o.Wrong?);
    if e < pairs {
      assert Pair(op, values, e).None?;
      return Wrong, runs;
    }
    LevelDone(op, text, values, tasks[..]);
    var newValues: seq<V> := [];
    while |newValues| < pairs
      invariant |newValues| <= pairs && forall i :: 0 <= i < |newValues| ==> tasks[i] == Right(newValues[i])
    {
      newValues := newValues + [tasks[|newValues|].value];
    }
    if odd == 1 {
      newValues := newValues + [values[|values| - 1]];
    }
    assert newValues == Level(op, values).value;
    r := Right(newValues);
  }

  /** One task of a level. */
  function TaskRun<V>(op: (V, V) -> Option<V>, text: V -> bool, s: seq<V>, i: nat): Answer<V>
    requires 2 * i + 1 < |s|
  {
    if text(s[2 * i]) || text(s[2 * i + 1]) then Wild else Of(Pair(op, s, i))
  }

  /** If every task of a level has a result, these are what the level holds. */
  lemma LevelDone<V>(op: (V, V) -> Option<V>, text: V -> bool, s: seq<V>, results: seq<Answer<V>>)
    requires |results| == |s| / 2
    requires forall i: nat :: i < |results| ==> results[i] == TaskRun(op, text, s, i) && results[i].Right?
    ensures Level(op, s).Some? && |Level(op, s).value| == (|s| + 1) / 2
    ensures forall i: nat :: i < |results| ==> results[i] == Right(Level(op, s).value[i])
    ensures |s| % 2 == 1 ==> Level(op, s).value[|s| / 2] == s[|s| - 1]
  {
    hide Level, Pair;
    LevelAt(op, s);
    forall i: nat | i < |results| ensures Pair(op, s, i).Some? {
      assert results[i] == TaskRun(op, text, s, i);
    }
  }

  lemma WildTasks<V>(op: (V, V) -> Option<V>, text: V -> bool, s: seq<V>)
    ensures AnyText(text, s[..2 * (|s| / 2)]) <==> exists i: nat :: i < |s| / 2 && TaskRun(op, text, s, i).Wild?
  {
    var operands := s[..2 * (|s| / 2)];
    if AnyText(text, operands) {
      var j :| 0 <= j < |operands| && text(operands[j]);
      assert j == 2 * (j / 2) || j == 2 * (j / 2) + 1;
      assert TaskRun(op, text, s, j / 2).Wild?;
    }
    if i: nat :| i < |s| / 2 && TaskRun(op, text, s, i).Wild? {
      assert operands[2 * i] == s[2 * i] && operands[2 * i + 1] == s[2 * i + 1];
    }
  }

  lemma HalfBounds(n: nat, cur: nat, levels: nat)
    requires cur > 1 && (cur - 1) * Pow2(levels) < n <= cur * Pow2(levels)
    ensures var next := (cur + 1) / 2; (next - 1) * Pow2(levels + 1) < n <= next * Pow2(levels + 1)
    ensures Pow2(levels) < n
  {
    var next, p := (cur + 1) / 2, Pow2(levels);
    MulMono(cur, 2 * next, p);
    MulMono(2 * (next - 1), cur - 1, p);
    MulMono(1, cur - 1, p);
    Twice(next, p);
    Twice(next - 1, p);
  }

  lemma Twice(y: nat, p: nat)
    ensures y * (2 * p) == (2 * y) * p
  {
  }

  /** The level loop, with a schedule for every level. */
  method Parallel<V(0)>(op: (V, V) -> Option<V>, text: V -> bool, list: seq<V>, orders: nat -> seq<nat>)
    returns (r: Answer<V>, runs: nat, levels: nat)
    requires |list| > 0 && forall n :: Schedule(orders(n), n)
    ensures r == Tree(op, text, list)
    ensures r.Right? ==> runs == |list| - 1
    ensures r.Right? ==> |list| <= Pow2(levels) && (levels > 0 ==> Pow2(levels - 1) < |list|)
  {
    hide AnyText, Level, Pair, Schedule;
    var values := list;
    runs, levels := 0, 0;
    while |values| > 1
      invariant |values| > 0 && Tree(op, text, values) == Tree(op, text, list) && runs == |list| - |values|
      invariant (|values| - 1) * Pow2(levels) < |list| <= |values| * Pow2(levels)
      invariant levels > 0 ==> Pow2(levels - 1) < |list|
      decreases |values|
    {
      LevelAt(op, values);
      HalfBounds(|list|, |values|, levels);
      var next, k := ReduceLevel(op, text, values, orders(|values| / 2));
      runs := runs + k;
      levels := levels + 1;
      if !next.Right? {
        r := if next.Wild? then Wild else Wrong;
        return r, runs, levels;
      }
      values := next.value;
    }
    r := Right(values[0]);
  }

  /** The quotation replaces its two operands, y on top of x, by g(x, y), whatever lies below. */
  ghost predicate Combines<V(!new)>(q: Quotation<V>, g: (V, V) -> V) {
    forall x, y, rest :: CombinesAt(q, g, x, y, rest)
  }

  ghost predicate CombinesAt<V>(q: Quotation<V>, g: (V, V) -> V, x: V, y: V, rest: seq<V>) {
    q([y, x] + rest) == Some([g(x, y)] + rest)
  }

  /** The left fold of g. */
  function Folded<V>(g: (V, V) -> V, s: seq<V>): V
    requires |s| > 0
  {
    if |s| == 1 then s[0] else g(Folded(g, s[..|s| - 1]), s[|s| - 1])
  }

  lemma FoldedFew<V>(g: (V, V) -> V, s: seq<V>)
    ensures |s| == 1 ==> Folded(g, s) == s[0]
    ensures |s| == 2 ==> Folded(g, s) == g(s[0], s[1])
    ensures |s| == 3 ==> Folded(g, s) == g(g(s[0], s[1]), s[2])
  {
    if |s| == 3 {
      assert Folded(g, s[..2]) == g(s[0], s[1]);
    }
  }

  lemma {:induction false} FoldCombines<V(!new)>(q: Quotation<V>, g: (V, V) -> V, s: seq<V>, below: seq<V>)
    requires Combines(q, g) && |s| > 0
    ensures FoldStack(q, s, below) == Some([Folded(g, s)] + below)
    decreases |s|
  {
    hide Combines;
    if |s| > 1 {
      FoldCombines(q, g, s[..|s| - 1], below);
      CombinesOn(q, g, Folded(g, s[..|s| - 1]), s[|s| - 1], below);
    }
  }

  lemma CombinesOn<V(!new)>(q: Quotation<V>, g: (V, V) -> V, x: V, y: V, below: seq<V>)
    requires Combines(q, g)
    ensures q([y] + ([x] + below)) == Some([g(x, y)] + below) && q([y, x]) == Some([g(x, y)])
  {
    assert CombinesAt(q, g, x, y, below) && CombinesAt(q, g, x, y, []);
    assert [y] + ([x] + below) == [y, x] + below && [y, x] + [] == [y, x] && [g(x, y)] + [] == [g(x, y)];
  }

  /** One level: g of the right neighbour and the left one, and an odd last value. */
  function Paired<V>(g: (V, V) -> V, s: seq<V>): (t: seq<V>)
    ensures |t| == (|s| + 1) / 2
  {
    if |s| < 2 then s else [g(s[1], s[0])] + Paired(g, s[2..])
  }

  /** All levels. */
  function Reduced<V>(g: (V, V) -> V, s: seq<V>): V
    requires |s| > 0
    decreases |s|
  {
    if |s| == 1 then s[0] else Reduced(g, Paired(g, s))
  }

  lemma ReducedFour<V>(g: (V, V) -> V, s: seq<V>)
    requires |s| == 4
    ensures Reduced(g, s) == g(g(s[3], s[2]), g(s[1], s[0]))
  {
    assert Paired(g, s[2..]) == [g(s[3], s[2])];
    assert Paired(g, s) == [g(s[1], s[0]), g(s[3], s[2])];
    var t := Paired(g, s);
    assert Paired(g, t) == [g(t[1], t[0])] + Paired(g, t[2..]) == [g(t[1], t[0])];
    assert Reduced(g, s) == Reduced(g, t) == Reduced(g, Paired(g, t));
  }

  lemma {:induction false} LevelPaired<V>(op: (V, V) -> Option<V>, g: (V, V) -> V, s: seq<V>)
    requires forall a, b :: op(a, b) == Some(g(a, b))
    ensures Level(op, s) == Some(Paired(g, s))
    decreases |s|
  {
    if |s| >= 2 {
      LevelPaired(op, g, s[2..]);
    }
  }

  lemma {:induction false} TreeReduced<V>(op: (V, V) -> Option<V>, text: V -> bool, g: (V, V) -> V, s: seq<V>)
    requires |s| > 0 && forall a, b :: op(a, b) == Some(g(a, b))
    ensures Tree(op, text, s) == Wild || Tree(op, text, s) == Right(Reduced(g, s))
    decreases |s|
  {
    hide AnyText, Level, Paired;
    if |s| > 1 {
      LevelPaired(op, g, s);
      TreeReduced(op, text, g, Paired(g, s));
    }
  }

  /** What preduce comes to for a quotation that combines two values. */
  lemma ReduceCombines<V(!new)>(q: Quotation<V>, nil: V, text: V -> bool, g: (V, V) -> V, s: seq<V>)
    requires Combines(q, g) && |s| > 0
    ensures var t := Tree(Pairing(q, nil), text, s);
            && (t == Wild || t == Right(Reduced(g, s)))
            && ((forall i :: 0 <= i < |s| ==> !text(s[i])) && (forall x, y :: !text(g(x, y))) ==> t == Right(Reduced(g, s)))
  {
    hide Combines, Tree, Reduced;
    var op := Pairing(q, nil);
    forall a, b ensures op(a, b) == Some(g(a, b)) {
      CombinesOn(q, g, a, b, []);
    }
    TreeReduced(op, text, g, s);
    TreeTexts(op, text, s);
  }

  /** preduce: an empty list is an error, a single value is the result, few values are folded on the stack and
      many are reduced by a tree.  For an associative and commutative operation on two values all branches
      agree, unless the tree takes a text for a pointer, which no result of it survives.

      For a quotation that replaces its operands, y on top of x, by g(x, y), the result is spelled out. */
  method Preduce<V(0, !new)>(q: Quotation<V>, nil: V, text: V -> bool, list: seq<V>, below: seq<V>, orders: nat -> seq<nat>,
                             ghost g: (V, V) -> V)
    returns (r: Answer<V>)
    requires forall n :: Schedule(orders(n), n)
    ensures list == [] ==> r == Wrong
    ensures 0 < |list| < 4 ==> r == Of(FoldOn(q, list, below))
    ensures |list| >= 4 ==> r == Tree(Pairing(q, nil), text, list)
    ensures |list| >= 4 && AnyText(text, list) ==> !r.Right?
    ensures r == Wild && MakesNone(Pairing(q, nil), text) ==> AnyText(text, list)
    ensures |list| >= 4 && Associative(Pairing(q, nil)) ==> r == Wild || r == Of(FoldLeft(Pairing(q, nil), Reverse(list)))
    ensures list != [] && Binary(q) && Associative(Pairing(q, nil)) && Commutative(Pairing(q, nil)) ==>
              r == Wild || r == Of(FoldLeft(Pairing(q, nil), list))
    ensures Combines(q, g) && |list| == 1 ==> r == Right(list[0])
    ensures Combines(q, g) && |list| == 2 ==> r == Right(g(list[0], list[1]))
    ensures Combines(q, g) && |list| == 3 ==> r == Right(g(g(list[0], list[1]), list[2]))
    ensures Combines(q, g) && |list| >= 4 ==> r == Wild || r == Right(Reduced(g, list))
    ensures Combines(q, g) && |list| == 4 ==> r == Wild || r == Right(g(g(list[3], list[2]), g(list[1], list[0])))
    ensures Combines(q, g) && |list| >= 4 && (forall i :: 0 <= i < |list| ==> !text(list[i])) && (forall x, y :: !text(g(x, y))) ==>
              r == Right(Reduced(g, list))
  {
    hide AnyText, MakesNone, Binary, Associative, Commutative, Tree, FoldLeft, Combines, Reduced;
    if list == [] {
      return Wrong;
    }
    if Combines(q, g) {
      FoldCombines(q, g, list, below);
      FoldedFew(g, list);
      if |list| == 4 {
        ReducedFour(g, list);
      }
      ReduceCombines(q, nil, text, g, list);
    }
    if |list| == 1 {
      if Binary(q) {
        FoldOnStack(q, nil, list, below);
      }
      return Right(list[0]);
    }
    if |list| < 4 {
      var o := Sequential(q, list, below, g);
      r := Of(o);
      if Binary(q) {
        FoldOnStack(q, nil, list, below);
      }
    } else {
      var op := Pairing(q, nil);
      var runs, levels;
      r, runs, levels := Parallel(op, text, list, orders);
      TreeTexts(op, text, list);
      if Associative(op) {
        TreeIsFold(op, text, list);
        if Commutative(op) {
          FoldEitherWay(op, list);
        }
      }
    }
  }

  /** concat, say: texts are folded to a text, but no tree over them has any result. */
  lemma TextsReduce<V(!new)>(op: (V, V) -> Option<V>, text: V -> bool, s: seq<V>)
    requires |s| > 1 && forall i :: 0 <= i < |s| ==> text(s[i])
    requires forall a, b :: text(a) && text(b) ==> op(a, b).Some? && text(op(a, b).value)
    ensures FoldLeft(op, s).Some? && text(FoldLeft(op, s).value)
    ensures Tree(op, text, s) == Wild
  {
    FoldTexts(op, text, s);
    assert text(s[..2 * (|s| / 2)][0]);
  }

  lemma {:induction false} FoldTexts<V(!new)>(op: (V, V) -> Option<V>, text: V -> bool, s: seq<V>)
    requires |s| > 0 && forall i :: 0 <= i < |s| ==> text(s[i])
    requires forall a, b :: text(a) && text(b) ==> op(a, b).Some? && text(op(a, b).value)
    ensures FoldLeft(op, s).Some? && text(FoldLeft(op, s).value)
    decreases |s|
  {
    if |s| > 1 {
      FoldTexts(op, text, s[..|s| - 1]);
    }
  }

  lemma {:induction false} FoldsToFirst<V>(op: (V, V) -> Option<V>, s: seq<V>)
    requires |s| > 0 && forall a, b :: op(a, b) == Some(a)
    ensures FoldLeft(op, s) == Some(s[0])
    decreases |s|
  {
    if |s| > 1 {
      FoldsToFirst(op, s[..|s| - 1]);
    }
  }

  lemma {:induction false} ReverseFirst<V>(s: seq<V>)
    requires |s| > 0
    ensures Reverse(s)[0] == s[|s| - 1]
    decreases |s|
  {
    if |s| > 1 {
      ReverseFirst(s[1..]);
    } else {
      ReverseOne(s[0]);
      assert s == [s[0]];
    }
  }

  /** Without commutativity the branches differ: the operation that takes its first operand folds a list to
      its first value, but its tree yields the last one. */
  lemma OrderMatters<V(!new)>(op: (V, V) -> Option<V>, s: seq<V>)
    requires |s| > 0 && forall a, b :: op(a, b) == Some(a)
    ensures Associative(op) && FoldLeft(op, s) == Some(s[0]) && Tree(op, _ => false, s) == Right(s[|s| - 1])
  {
    var none: V -> bool := _ => false;
    TreeIsFold(op, none, s);
    TreeTexts(op, none, s);
    FoldsToFirst(op, s);
    FoldsToFirst(op, Reverse(s));
    ReverseFirst(s);
  }
}
