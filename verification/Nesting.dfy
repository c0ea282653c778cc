/** How deep the continuations of a run nest.  A term that is executed takes one place on the stack of
    continuations; what its combinators and its calls execute comes on top of it, but a call in last position
    takes its place. */
module Nesting {
  import opened Joy

  function Max(a: nat, b: nat): nat {
    if a > b then a else b
  }

  /** The peak after something has run that nests n deep on top of `at` continuations. */
  ghost function Raised(peak: nat, at: nat, n: nat): nat {
    if n == 0 then peak else Max(peak, at + n)
  }

  ghost function Nest(d: Program, f: nat, t: Chain, s: Chain): nat
    decreases f, 1, t, 0
  {
    match t
    case Nil => 0
    case Link(n, rest) =>
      if TailCall(d, f, t) then Max(1, Nest(d, f - 1, Body(d, n.ent), s))
      else Max(1 + NestNode(d, f, n, s), NestAfter(d, f, Exec(d, f, n, s), rest))
  }

  /** The last node is a call of a defined symbol. */
  predicate TailCall(d: Program, f: nat, t: Chain) {
    t.Link? && t.next == Nil && t.top.Usr? && Body(d, t.top.ent) != Nil && f > 0
  }

  /** A run that has ended well goes on with t. */
  ghost function NestAfter(d: Program, f: nat, r: Result, t: Chain): nat
    decreases f, 1, t, 1
  {
    if r.Done? then Nest(d, f, t, r.stack) else 0
  }

  ghost function NestNode(d: Program, f: nat, n: Node, s: Chain): nat
    decreases f, 0
  {
    match n
    case Usr(i) => if Body(d, i) == Nil || f == 0 then 0 else Nest(d, f - 1, Body(d, i), s)
    case Proc(p) => if f == 0 then 0 else NestApply(d, f - 1, p, s)
    case _ => 0
  }

  ghost function NestApply(d: Program, f: nat, p: Prim, s: Chain): nat
    decreases f, 5
  {
    match p
    case Builtin(_) => 0
    case Cons => 0
    case I => if Quote1(s) then Nest(d, f, s.top.l, s.next) else 0
    case Dip => if Quote1(s) && s.next.Link? then Nest(d, f, s.top.l, s.next.next) else 0
    case Ifte => if Quote3(s) then NestIfte(d, f, s.next.next.top.l, s.next.top.l, s.top.l, s.next.next.next) else 0
    case While => if Quote2(s) then NestLoop(d, f, s.next.top.l, s.top.l, s.next.next) else 0
    case Step => if Quote2(s) then NestEach(d, f, s.top.l, s.next.top.l, s.next.next) else 0
    case Map => if Quote2(s) then NestMap(d, f, s.top.l, s.next.top.l, s.next.next) else 0
    case Filter => if Quote2(s) then NestFilter(d, f, s.top.l, s.next.top.l, s.next.next) else 0
    case Construct => if Quote2(s) then NestConstruct(d, f, s.next.top.l, s.top.l, s.next.next) else 0
    case Cleave =>
      if Quote2(s) && s.next.next.Link? then NestCleave(d, f, s.next.top.l, s.top.l, s.next.next) else 0
    case Linrec =>
      if Quote4(s) then
        NestLinrec(d, f, s.next.next.next.top.l, s.next.next.top.l, s.next.top.l, s.top.l, s.next.next.next.next)
      else 0
    case Tailrec =>
      if Quote3(s) then NestTailrec(d, f, s.next.next.top.l, s.next.top.l, s.top.l, s.next.next.next) else 0
    case Binrec =>
      if Quote4(s) then
        NestBinrec(d, f, s.next.next.next.top.l, s.next.next.top.l, s.next.top.l, s.top.l, s.next.next.next.next)
      else 0
    case Genrec =>
      if Quote4(s) then
        NestGenrec(d, f, Link(s.next.next.next.top, Link(s.next.next.top, Link(s.next.top, s.top.l))), s.next.next.next.next)
      else 0
    case GenrecAux => if Quote1(s) && Quote3(s.top.l) then NestGenrec(d, f, s.top.l, s.next) else 0
    case Condnestrec => if Quote1(s) && s.top.l.Link? then NestClauses(d, f, s.top.l, s.next) else 0
    case Treestep => if Quote1(s) && s.next.Link? then NestLeaves(d, f, s.top.l, s.next.top, s.next.next) else 0
  }

  ghost function NestIfte(d: Program, f: nat, b: Chain, t: Chain, e: Chain, s: Chain): nat
    decreases f, 3
  {
    var v := Test(d, f, b, s, false);
    Max(Nest(d, f, b, s), if v.Yes? then Nest(d, f, t, s) else if v.No? then Nest(d, f, e, s) else 0)
  }

  ghost function NestLoop(d: Program, f: nat, b: Chain, p: Chain, s: Chain): nat
    decreases f, 3
  {
    Max(Nest(d, f, b, s),
        if !Test(d, f, b, s, true).Yes? then 0
        else
          var r := Eval(d, f, p, s);
          Max(Nest(d, f, p, s), if r.Done? && f > 0 then NestLoop(d, f - 1, b, p, r.stack) else 0))
  }

  ghost function NestEach(d: Program, f: nat, p: Chain, l: Chain, s: Chain): nat
    decreases f, 3, l
  {
    match l
    case Nil => 0
    case Link(n, rest) =>
      var r := Eval(d, f, p, Link(n, s));
      Max(Nest(d, f, p, Link(n, s)), if r.Done? then NestEach(d, f, p, rest, r.stack) else 0)
  }

  ghost function NestMap(d: Program, f: nat, p: Chain, l: Chain, s: Chain): nat
    decreases f, 3, l
  {
    match l
    case Nil => 0
    case Link(n, rest) =>
      var r := Eval(d, f, p, Link(n, s));
      Max(Nest(d, f, p, Link(n, s)), if r.Done? && r.stack.Link? then NestMap(d, f, p, rest, s) else 0)
  }

  ghost function NestFilter(d: Program, f: nat, p: Chain, l: Chain, s: Chain): nat
    decreases f, 3, l
  {
    match l
    case Nil => 0
    case Link(n, rest) =>
      var v := Test(d, f, p, Link(n, s), true);
      Max(Nest(d, f, p, Link(n, s)), if v.Yes? || v.No? then NestFilter(d, f, p, rest, s) else 0)
  }

  ghost function NestConstruct(d: Program, f: nat, p: Chain, l: Chain, s: Chain): nat
    decreases f, 4
  {
    var r := Eval(d, f, p, s);
    Max(Nest(d, f, p, s), if r.Done? then NestCollect(d, f, l, r.stack) else 0)
  }

  ghost function NestCollect(d: Program, f: nat, l: Chain, s: Chain): nat
    decreases f, 3, l
  {
    match l
    case Nil => 0
    case Link(n, rest) =>
      if !n.Lis? then 0
      else Max(Nest(d, f, n.l, s), if Eval(d, f, n.l, s).Done? then NestCollect(d, f, rest, s) else 0)
  }

  ghost function NestCleave(d: Program, f: nat, p1: Chain, p2: Chain, s: Chain): nat
    decreases f, 3
  {
    Max(Nest(d, f, p1, s), if Eval(d, f, p1, s).Done? then Nest(d, f, p2, s) else 0)
  }

  ghost function NestLinrec(d: Program, f: nat, p: Chain, t: Chain, r1: Chain, r2: Chain, s: Chain): nat
    decreases f, 3
  {
    var v := Test(d, f, p, s, true);
    Max(Nest(d, f, p, s),
        if v.Yes? then Nest(d, f, t, s)
        else if !v.No? then 0
        else
          var a := Eval(d, f, r1, s);
          Max(Nest(d, f, r1, s),
              if !a.Done? || f == 0 then 0
              else
                var b := LinrecOn(d, f - 1, p, t, r1, r2, a.stack);
                Max(NestLinrec(d, f - 1, p, t, r1, r2, a.stack), if b.Done? then Nest(d, f, r2, b.stack) else 0)))
  }

  ghost function NestTailrec(d: Program, f: nat, p: Chain, t: Chain, r1: Chain, s: Chain): nat
    decreases f, 3
  {
    var v := Test(d, f, p, s, true);
    Max(Nest(d, f, p, s),
        if v.Yes? then Nest(d, f, t, s)
        else if !v.No? then 0
        else
          var a := Eval(d, f, r1, s);
          Max(Nest(d, f, r1, s), if a.Done? && f > 0 then NestTailrec(d, f - 1, p, t, r1, a.stack) else 0))
  }

  ghost function NestBinrec(d: Program, f: nat, p: Chain, t: Chain, r1: Chain, r2: Chain, s: Chain): nat
    decreases f, 3
  {
    var v := Test(d, f, p, s, false);
    Max(Nest(d, f, p, s),
        if v.Yes? then Nest(d, f, t, s)
        else if !v.No? then 0
        else
          var a := Eval(d, f, r1, s);
          Max(Nest(d, f, r1, s), if a.Done? && f > 0 then NestHalves(d, f, p, t, r1, r2, a.stack) else 0))
  }

  /** Both recursions of binrec, and the combination. */
  ghost function NestHalves(d: Program, f: nat, p: Chain, t: Chain, r1: Chain, r2: Chain, s: Chain): nat
    requires f > 0
    decreases f, 2
  {
    var a := BinrecOn(d, f - 1, p, t, r1, r2, Rest(s));
    Max(NestBinrec(d, f - 1, p, t, r1, r2, Rest(s)),
        if !a.Done? then 0
        else
          var b := BinrecOn(d, f - 1, p, t, r1, r2, Link(Top(s), a.stack));
          Max(NestBinrec(d, f - 1, p, t, r1, r2, Link(Top(s), a.stack)), if b.Done? then Nest(d, f, r2, b.stack) else 0))
  }

  ghost function NestGenrec(d: Program, f: nat, c: Chain, s: Chain): nat
    requires Quote3(c)
    decreases f, 3
  {
    var v := Test(d, f, c.top.l, s, true);
    Max(Nest(d, f, c.top.l, s),
        if v.Yes? then Nest(d, f, c.next.top.l, s)
        else if !v.No? then 0
        else NestAgain(d, f, c, s))
  }

  ghost function NestAgain(d: Program, f: nat, c: Chain, s: Chain): nat
    requires Quote3(c)
    decreases f, 2
  {
    var a := Eval(d, f, c.next.next.top.l, s);
    Max(Nest(d, f, c.next.next.top.l, s), if a.Done? then Nest(d, f, c.next.next.next, Link(Again(c), a.stack)) else 0)
  }

  /** The tests up to the clause that is taken. */
  ghost function NestChoose(d: Program, f: nat, c: Chain, s: Chain): nat
    requires c.Link?
    decreases f, 3, c
  {
    if !c.top.Lis? || c.next == Nil || !Quote1(c.top.l) then 0
    else Max(Nest(d, f, c.top.l.top.l, s),
             if Test(d, f, c.top.l.top.l, s, false).No? then NestChoose(d, f, c.next, s) else 0)
  }

  ghost function NestClauses(d: Program, f: nat, c: Chain, s: Chain): nat
    requires c.Link?
    decreases f, 4
  {
    var a := Choose(d, f, c, s);
    Max(NestChoose(d, f, c, s), if a.Chosen? && a.actions.Link? then NestActions(d, f, c, a.actions, s) else 0)
  }

  ghost function NestActions(d: Program, f: nat, c: Chain, a: Chain, s: Chain): nat
    requires c.Link? && a.Link?
    decreases f, 3, a, 0
  {
    if !a.top.Lis? then 0
    else
      var r := Eval(d, f, a.top.l, s);
      Max(Nest(d, f, a.top.l, s), if r.Done? then NestOthers(d, f, c, a.next, r.stack) else 0)
  }

  /** The actions that come after a recursion each. */
  ghost function NestOthers(d: Program, f: nat, c: Chain, a: Chain, s: Chain): nat
    requires c.Link?
    decreases f, 3, a, 1
  {
    if a == Nil || f == 0 then 0
    else
      var r := NestOn(d, f - 1, c, s);
      Max(NestClauses(d, f - 1, c, s), if r.Done? then NestActions(d, f, c, a, r.stack) else 0)
  }

  ghost function NestLeaves(d: Program, f: nat, p: Chain, item: Node, s: Chain): nat
    decreases f, 3, item
  {
    if item.Lis? then NestLeavesOf(d, f, p, item.l, s) else Nest(d, f, p, Link(item, s))
  }

  ghost function NestLeavesOf(d: Program, f: nat, p: Chain, l: Chain, s: Chain): nat
    decreases f, 3, l
  {
    match l
    case Nil => 0
    case Link(n, rest) =>
      var r := Leaves(d, f, p, n, s);
      Max(NestLeaves(d, f, p, n, s), if r.Done? then NestLeavesOf(d, f, p, rest, r.stack) else 0)
  }

  lemma NestNil(d: Program, f: nat, s: Chain)
    ensures Nest(d, f, Nil, s) == 0
  {
  }

  lemma NestLink(d: Program, f: nat, t: Chain, s: Chain)
    requires t.Link?
    ensures TailCall(d, f, t) ==> Nest(d, f, t, s) == Max(1, Nest(d, f - 1, Body(d, t.top.ent), s))
    ensures !TailCall(d, f, t) ==>
              Nest(d, f, t, s) == Max(1 + NestNode(d, f, t.top, s), NestAfter(d, f, Exec(d, f, t.top, s), t.next))
    ensures Nest(d, f, t, s) >= 1
  {
  }

  /** Calls occur only as the last node of a term, and no combinator occurs. */
  ghost predicate TailOnly(d: Program, f: nat, t: Chain)
    decreases f, t
  {
    match t
    case Nil => true
    case Link(n, rest) =>
      && (n.Proc? ==> n.op.Builtin?)
      && (n.Usr? ==> rest == Nil && (f > 0 ==> TailOnly(d, f - 1, Body(d, n.ent))))
      && TailOnly(d, f, rest)
  }

  /** Tail calls alone never nest. */
  lemma {:induction false} TailsDoNotNest(d: Program, f: nat, t: Chain, s: Chain)
    requires TailOnly(d, f, t)
    ensures Nest(d, f, t, s) <= 1
    decreases f, t
  {
    if t.Link? {
      if TailCall(d, f, t) {
        TailsDoNotNest(d, f - 1, Body(d, t.top.ent), s);
      } else {
        assert NestNode(d, f, t.top, s) == 0;
        var r := Exec(d, f, t.top, s);
        if r.Done? {
          TailsDoNotNest(d, f, t.next, r.stack);
        }
      }
    }
  }

  /** Along the run, through calls in last position, every other node nests at most k deep. */
  ghost predicate HeadsWithin(d: Program, f: nat, t: Chain, s: Chain, k: nat)
    decreases f, t
  {
    if t == Nil then true
    else if TailCall(d, f, t) then HeadsWithin(d, f - 1, Body(d, t.top.ent), s, k)
    else
      var r := Exec(d, f, t.top, s);
      NestNode(d, f, t.top, s) <= k && (r.Done? ==> HeadsWithin(d, f, t.next, r.stack, k))
  }

  /** However long a chain of calls in last position is, it nests one deeper than what comes before the calls. */
  lemma {:induction false} TailChain(d: Program, f: nat, t: Chain, s: Chain, k: nat)
    ensures Nest(d, f, t, s) <= k + 1 <==> HeadsWithin(d, f, t, s, k)
    decreases f, t
  {
    if t.Link? {
      if TailCall(d, f, t) {
        TailChain(d, f - 1, Body(d, t.top.ent), s, k);
      } else {
        var r := Exec(d, f, t.top, s);
        if r.Done? {
          TailChain(d, f, t.next, r.stack, k);
        }
      }
    }
  }
}
