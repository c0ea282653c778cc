/** The order in which a collection reserves slots for its copies, and where its last write goes. */
module CopyOrder {
  import opened HeapModel
  import opened CopyTheory

  /** The slots that are reserved for the copies of the nodes of o. */
  ghost function Sum(m: seq<Node>, o: seq<nat>): nat {
    if o == [] then 0
    else
      var x := o[|o| - 1];
      Sum(m, o[..|o| - 1]) + if x < |m| then CopySlots(m[x]) else 0
  }

  /** Where the writes for the copies end: behind a text one slot more is reserved than written. */
  ghost function Extent(m: seq<Node>, lo: nat, o: seq<nat>): nat {
    if o == [] then lo
    else
      var x := o[|o| - 1];
      lo + Sum(m, o[..|o| - 1]) + if x < |m| then NewSlots(m[x].op, m[x].u) else 0
  }

  /** The nodes in the order in which their slots are reserved, after those of done: a chain from x on, each list
      followed by its contents, up to a node that was met before. */
  ghost function Visit(m: seq<Node>, lo: nat, rank: map<nat, nat>, done: seq<nat>, x: nat): seq<nat>
    decreases Level(rank, lo, x), 1
  {
    if x < lo || x >= |m| || x in done then done
    else
      var d := VisitOne(m, lo, rank, done, x);
      if Level(rank, lo, m[x].next) < Level(rank, lo, x) then Visit(m, lo, rank, d, m[x].next) else d
  }

  ghost function VisitOne(m: seq<Node>, lo: nat, rank: map<nat, nat>, done: seq<nat>, x: nat): seq<nat>
    requires x < |m|
    decreases Level(rank, lo, x), 0
  {
    if m[x].u.Lis? && Level(rank, lo, m[x].u.lis) < Level(rank, lo, x) then Visit(m, lo, rank, done + [x], m[x].u.lis)
    else done + [x]
  }

  ghost function VisitAll(m: seq<Node>, lo: nat, rank: map<nat, nat>, done: seq<nat>, roots: seq<nat>): seq<nat>
    decreases |roots|
  {
    if roots == [] then done else VisitAll(m, lo, rank, Visit(m, lo, rank, done, roots[0]), roots[1..])
  }

  ghost function Elements(o: seq<nat>): (s: set<nat>)
    ensures forall x :: x in s <==> x in o
  {
    set x | x in o
  }

  lemma SumSnoc(m: seq<Node>, o: seq<nat>, x: nat)
    requires x < |m|
    ensures Sum(m, o + [x]) == Sum(m, o) + CopySlots(m[x])
    ensures Extent(m, 0, o + [x]) == Sum(m, o) + NewSlots(m[x].op, m[x].u)
  {
    assert (o + [x])[..|o|] == o;
  }

  lemma ExtentFrom(m: seq<Node>, lo: nat, o: seq<nat>)
    ensures Extent(m, lo, o) == lo + Extent(m, 0, o) && Extent(m, lo, o) <= lo + Sum(m, o)
  {
  }

  /** Whatever more is copied is written further behind. */
  lemma {:induction false} ExtentMono(m: seq<Node>, lo: nat, p: seq<nat>, q: seq<nat>)
    requires p <= q
    ensures Extent(m, lo, p) <= Extent(m, lo, q)
    decreases |q|
  {
    if |p| < |q| {
      var r := q[..|q| - 1];
      assert p <= r;
      ExtentMono(m, lo, p, r);
      ExtentFrom(m, lo, r);
    } else {
      assert p == q;
    }
  }

  lemma {:induction false} VisitExtends(m: seq<Node>, lo: nat, rank: map<nat, nat>, done: seq<nat>, x: nat)
    ensures done <= Visit(m, lo, rank, done, x)
    ensures x < |m| ==> done + [x] <= VisitOne(m, lo, rank, done, x)
    decreases Level(rank, lo, x), 1
  {
    if x < |m| {
      if m[x].u.Lis? && Level(rank, lo, m[x].u.lis) < Level(rank, lo, x) {
        VisitExtends(m, lo, rank, done + [x], m[x].u.lis);
      }
      if x >= lo && x !in done && Level(rank, lo, m[x].next) < Level(rank, lo, x) {
        VisitExtends(m, lo, rank, VisitOne(m, lo, rank, done, x), m[x].next);
      }
    }
  }

  lemma {:induction false} VisitAllExtends(m: seq<Node>, lo: nat, rank: map<nat, nat>, done: seq<nat>, roots: seq<nat>)
    ensures done <= VisitAll(m, lo, rank, done, roots)
    decreases |roots|
  {
    if roots != [] {
      VisitExtends(m, lo, rank, done, roots[0]);
      VisitAllExtends(m, lo, rank, Visit(m, lo, rank, done, roots[0]), roots[1..]);
    }
  }

  ghost predicate Distinct(o: seq<nat>) {
    forall i, j :: 0 <= i < j < |o| ==> o[i] != o[j]
  }

  /** Nothing twice, nothing dead, and what is new refers to what is there. */
  ghost predicate Visited(m: seq<Node>, lo: nat, live: set<nat>, done: seq<nat>, r: seq<nat>) {
    && done <= r && Distinct(r) && Elements(r) <= live
    && forall y :: y in r && y !in done ==> y < |m| && RefsKnown(Elements(r), lo, m[y])
  }

  lemma VisitedTrans(m: seq<Node>, lo: nat, live: set<nat>, d: seq<nat>, e: seq<nat>, r: seq<nat>)
    requires Visited(m, lo, live, d, e) && Visited(m, lo, live, e, r)
    ensures Visited(m, lo, live, d, r)
  {
    forall y | y in r && y !in d ensures y < |m| && RefsKnown(Elements(r), lo, m[y]) {
      if y in e {
        assert RefsKnown(Elements(e), lo, m[y]);
        assert forall z :: z in e ==> z in r;
      }
    }
  }

  lemma {:induction false} VisitCovers(m: seq<Node>, lo: nat, live: set<nat>, rank: map<nat, nat>, done: seq<nat>, x: nat)
    requires Closed(m, lo, live) && Ranked(m, lo, live, rank) && Known(live, lo, x)
    requires Distinct(done) && Elements(done) <= live
    ensures Visited(m, lo, live, done, Visit(m, lo, rank, done, x))
    ensures Known(Elements(Visit(m, lo, rank, done, x)), lo, x)
    decreases Level(rank, lo, x), 1
  {
    if x >= lo && x !in done {
      assert RefsKnown(live, lo, m[x]);
      var d1 := done + [x];
      var d2 := VisitOne(m, lo, rank, done, x);
      if m[x].u.Lis? {
        VisitCovers(m, lo, live, rank, d1, m[x].u.lis);
      }
      VisitCovers(m, lo, live, rank, d2, m[x].next);
      VisitJoin(m, lo, live, done, x, d2, Visit(m, lo, rank, d2, m[x].next));
    }
  }

  lemma VisitJoin(m: seq<Node>, lo: nat, live: set<nat>, done: seq<nat>, x: nat, d: seq<nat>, r: seq<nat>)
    requires x < |m| && Visited(m, lo, live, done + [x], d) && Visited(m, lo, live, d, r)
    requires m[x].u.Lis? ==> Known(Elements(d), lo, m[x].u.lis)
    requires Known(Elements(r), lo, m[x].next)
    ensures Visited(m, lo, live, done, r) && x in r
  {
    VisitedTrans(m, lo, live, done + [x], d, r);
    assert (done + [x])[|done|] == x && r[|done|] == x;
    assert done <= r;
    assert forall z :: z in d ==> z in r;
  }

  lemma {:induction false} VisitAllCovers(m: seq<Node>, lo: nat, live: set<nat>, rank: map<nat, nat>, done: seq<nat>, roots: seq<nat>)
    requires Closed(m, lo, live) && Ranked(m, lo, live, rank) && forall i :: 0 <= i < |roots| ==> Known(live, lo, roots[i])
    requires Distinct(done) && Elements(done) <= live
    ensures Visited(m, lo, live, done, VisitAll(m, lo, rank, done, roots))
    ensures forall i :: 0 <= i < |roots| ==> Known(Elements(VisitAll(m, lo, rank, done, roots)), lo, roots[i])
    decreases |roots|
  {
    if roots != [] {
      var d := Visit(m, lo, rank, done, roots[0]);
      VisitCovers(m, lo, live, rank, done, roots[0]);
      VisitAllCovers(m, lo, live, rank, d, roots[1..]);
      var r := VisitAll(m, lo, rank, d, roots[1..]);
      VisitedTrans(m, lo, live, done, d, r);
      assert forall z :: z in d ==> z in r;
      forall i | 0 <= i < |roots| ensures Known(Elements(r), lo, roots[i]) {
        assert i > 0 ==> roots[i] == roots[1..][i - 1];
      }
    }
  }

  lemma {:induction false} SumIsSize(m: seq<Node>, o: seq<nat>)
    requires Distinct(o) && forall x :: x in o ==> x < |m|
    ensures Sum(m, o) == Size(m, Elements(o))
    decreases |o|
  {
    if o == [] {
      assert Elements(o) == {};
      SizeOfNone(m);
    } else {
      var r, x := o[..|o| - 1], o[|o| - 1];
      assert forall y :: y in r ==> y in o;
      SumIsSize(m, r);
      assert x !in r;
      assert o == r + [x];
      assert Elements(o) == Elements(r) + {x};
      SizeAdd(m, Elements(r), x);
    }
  }

  /** The collector meets every live node, each once, and nothing else. */
  lemma OrderIsLive(m: seq<Node>, lo: nat, all: set<nat>, rank: map<nat, nat>, roots: seq<nat>)
    requires Keeps(m, lo, all, roots) && Ranked(m, lo, all, rank)
    ensures var o := VisitAll(m, lo, rank, [], roots);
            && Distinct(o) && Elements(o) == Live(m, lo, all, roots) && Sum(m, o) == Size(m, Live(m, lo, all, roots))
  {
    var live, o := Live(m, lo, all, roots), VisitAll(m, lo, rank, [], roots);
    LiveKeeps(m, lo, all, roots);
    VisitAllCovers(m, lo, live, rank, [], roots);
    assert Keeps(m, lo, Elements(o), roots);
    SumIsSize(m, o);
  }

  /** need slots are reserved in a memory of max; if the last copy is a text, the last of them is not written. */
  predicate Outgrows(need: nat, short: bool, max: nat) {
    need > max + 1 || (need == max + 1 && !short)
  }

  /** The copies are written behind the end of a memory exactly if they need more than one slot too many, or one
      and the last copy is no text. */
  lemma ExtentExactly(m: seq<Node>, lo: nat, all: set<nat>, rank: map<nat, nat>, roots: seq<nat>, max: nat)
    requires Keeps(m, lo, all, roots) && Ranked(m, lo, all, rank) && lo <= max
    ensures Extent(m, lo, VisitAll(m, lo, rank, [], roots)) > max <==>
            Outgrows(lo + Size(m, Live(m, lo, all, roots)), EndsInText(m, lo, rank, roots), max)
  {
    OrderIsLive(m, lo, all, rank, roots);
    var o := VisitAll(m, lo, rank, [], roots);
    LiveKeeps(m, lo, all, roots);
    if o != [] {
      var x := o[|o| - 1];
      assert x in Elements(o);
      TextReserves(m[x]);
    }
  }

  lemma TextReserves(n: Node)
    ensures CopySlots(n) == NewSlots(n.op, n.u) + if IsText(n.op) then 1 else 0
  {
  }

  /** The last node that a collection reserves slots for is a text. */
  ghost predicate EndsInText(m: seq<Node>, lo: nat, rank: map<nat, nat>, roots: seq<nat>) {
    var o := VisitAll(m, lo, rank, [], roots);
    o != [] && o[|o| - 1] < |m| && IsText(m[o[|o| - 1]].op)
  }

  // ----- the order, one step at a time -----

  /** Among busy nodes none is met again: they all rank above what is copied. */
  lemma NotMet(m: seq<Node>, lo: nat, live: set<nat>, rank: map<nat, nat>, busy: set<nat>, n: nat)
    requires Ranked(m, lo, live, rank) && n in live && lo <= n && Above(rank, lo, busy, n)
    ensures n !in busy && n < |m| && Level(rank, lo, m[n].next) < Level(rank, lo, n)
  {
  }

  /** What is copied after o is written no nearer. */
  lemma VisitBehind(m: seq<Node>, lo: nat, rank: map<nat, nat>, o: seq<nat>, x: nat)
    ensures Extent(m, lo, o) <= Extent(m, lo, Visit(m, lo, rank, o, x))
  {
    VisitExtends(m, lo, rank, o, x);
    ExtentMono(m, lo, o, Visit(m, lo, rank, o, x));
  }

  lemma VisitContents(m: seq<Node>, lo: nat, live: set<nat>, rank: map<nat, nat>, done: seq<nat>, x: nat)
    requires Ranked(m, lo, live, rank) && x in live && x < |m| && lo <= x
    ensures VisitOne(m, lo, rank, done, x) == if m[x].u.Lis? then Visit(m, lo, rank, done + [x], m[x].u.lis) else done + [x]
  {
    hide Visit;
  }

  lemma VisitStep(m: seq<Node>, lo: nat, live: set<nat>, rank: map<nat, nat>, done: seq<nat>, x: nat)
    requires Closed(m, lo, live) && Ranked(m, lo, live, rank) && Known(live, lo, x)
    ensures x < lo || x in done ==> Visit(m, lo, rank, done, x) == done
    ensures x >= lo && x !in done ==>
              x < |m| && Visit(m, lo, rank, done, x) == Visit(m, lo, rank, VisitOne(m, lo, rank, done, x), m[x].next)
  {
    hide VisitOne;
  }

  lemma VisitNone(m: seq<Node>, lo: nat, rank: map<nat, nat>, done: seq<nat>, x: nat)
    ensures x < lo ==> Visit(m, lo, rank, done, x) == done
  {
  }

  lemma NoneMet(m: seq<Node>, lo: nat)
    ensures Sum(m, []) == 0 && Extent(m, lo, []) == lo
  {
  }
}
