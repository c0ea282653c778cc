/** What the combinators mean, as equations between results of terms, whatever the fuel; a term that never ends
    has the result Deep.

    Nothing here speaks of how the meaning is defined: the equations determine it. */
module CombinatorLaws {
  import opened Joy
  import opened RecursionLaws

  // ----- results without fuel -----

  /** The result of a term: what it ends with for enough fuel, or Deep. */
  ghost function Out(d: Program, t: Chain, s: Chain): Result {
    if f: nat :| Eval(d, f, t, s) != Deep then Eval(d, f, t, s) else Deep
  }

  /** The result of a combinator. */
  ghost function Does(d: Program, p: Prim, s: Chain): Result {
    if f: nat :| Apply(d, f, p, s) != Deep then Apply(d, f, p, s) else Deep
  }

  /** Goes on with a term where a run has ended well. */
  ghost function Then(d: Program, r: Result, t: Chain): Result {
    if r.Done? then Out(d, t, r.stack) else r
  }

  lemma {:induction false} ApplyFuel(d: Program, f: nat, g: nat, p: Prim, s: Chain)
    requires f <= g && Apply(d, f, p, s) != Deep
    ensures Apply(d, g, p, s) == Apply(d, f, p, s)
    decreases g
  {
    hide Apply;
    if f < g {
      ApplyFuel(d, f, g - 1, p, s);
      ApplyMore(d, g - 1, p, s);
    }
  }

  lemma EvalSettles(d: Program, t: Chain, s: Chain) returns (f: nat)
    ensures forall g: nat :: g >= f ==> Eval(d, g, t, s) == Out(d, t, s)
  {
    hide Eval;
    f := 0;
    if f0: nat :| Eval(d, f0, t, s) != Deep {
      f := f0;
      forall g: nat | Eval(d, g, t, s) != Deep ensures Eval(d, g, t, s) == Eval(d, f0, t, s) {
        FuelIrrelevant(d, if g <= f0 then g else f0, if g <= f0 then f0 else g, t, s);
      }
      forall g: nat | g >= f ensures Eval(d, g, t, s) == Out(d, t, s) {
        FuelIrrelevant(d, f0, g, t, s);
      }
    }
  }

  lemma ApplySettles(d: Program, p: Prim, s: Chain) returns (f: nat)
    ensures forall g: nat :: g >= f ==> Apply(d, g, p, s) == Does(d, p, s)
  {
    hide Apply;
    f := 0;
    if f0: nat :| Apply(d, f0, p, s) != Deep {
      f := f0;
      forall g: nat | Apply(d, g, p, s) != Deep ensures Apply(d, g, p, s) == Apply(d, f0, p, s) {
        ApplyFuel(d, if g <= f0 then g else f0, if g <= f0 then f0 else g, p, s);
      }
      forall g: nat | g >= f ensures Apply(d, g, p, s) == Does(d, p, s) {
        ApplyFuel(d, f0, g, p, s);
      }
    }
  }

  lemma IsOut(d: Program, t: Chain, s: Chain, f: nat, r: Result)
    requires forall g: nat :: g >= f ==> Eval(d, g, t, s) == r
    ensures Out(d, t, s) == r
  {
    hide Eval, Out;
    var f0 := EvalSettles(d, t, s);
    assert Eval(d, f + f0, t, s) == r;
  }

  lemma IsDoes(d: Program, p: Prim, s: Chain, f: nat, r: Result)
    requires forall g: nat :: g >= f ==> Apply(d, g, p, s) == r
    ensures Does(d, p, s) == r
  {
    hide Apply, Does;
    var f0 := ApplySettles(d, p, s);
    assert Apply(d, f + f0, p, s) == r;
  }

  // ----- terms -----

  lemma OutNil(d: Program, s: Chain)
    ensures Out(d, Nil, s) == Done(s)
  {
    IsOut(d, Nil, s, 0, Done(s));
  }

  /** An atom or a quotation is pushed. */
  lemma OutValue(d: Program, n: Node, rest: Chain, s: Chain)
    requires n.Atom? || n.Lis?
    ensures Out(d, Link(n, rest), s) == Out(d, rest, Link(n, s))
  {
    hide Out;
    var f := EvalSettles(d, rest, Link(n, s));
    forall g: nat | g >= f ensures Eval(d, g, Link(n, rest), s) == Out(d, rest, Link(n, s)) {
      assert Exec(d, g, n, s) == Done(Link(n, s));
    }
    IsOut(d, Link(n, rest), s, f, Out(d, rest, Link(n, s)));
  }

  lemma OutProc(d: Program, p: Prim, rest: Chain, s: Chain)
    ensures Out(d, Link(Proc(p), rest), s) == Then(d, Does(d, p, s), rest)
  {
    hide Out, Does, Apply;
    var r := Does(d, p, s);
    var f := ApplySettles(d, p, s);
    var f1: nat := 0;
    if r.Done? {
      f1 := EvalSettles(d, rest, r.stack);
    }
    forall g: nat | g >= f + f1 + 1 ensures Eval(d, g, Link(Proc(p), rest), s) == Then(d, r, rest) {
      assert Exec(d, g, Proc(p), s) == Apply(d, g - 1, p, s) == r;
    }
    IsOut(d, Link(Proc(p), rest), s, f + f1 + 1, Then(d, r, rest));
  }

  /** A name does what its definition does; without one it is an error or nothing, as `undeferror` says. */
  lemma OutName(d: Program, i: nat, rest: Chain, s: Chain)
    ensures i < |d.bodies| && d.bodies[i] != Nil ==> Out(d, Link(Usr(i), rest), s) == Then(d, Out(d, d.bodies[i], s), rest)
    ensures i >= |d.bodies| || d.bodies[i] == Nil ==>
              Out(d, Link(Usr(i), rest), s) == if d.undeferror then Error else Out(d, rest, s)
  {
    hide Out;
    if i < |d.bodies| && d.bodies[i] != Nil {
      var b := d.bodies[i];
      var r := Out(d, b, s);
      var f := EvalSettles(d, b, s);
      var f1: nat := 0;
      if r.Done? {
        f1 := EvalSettles(d, rest, r.stack);
      }
      forall g: nat | g >= f + f1 + 1 ensures Eval(d, g, Link(Usr(i), rest), s) == Then(d, r, rest) {
        assert Exec(d, g, Usr(i), s) == Eval(d, g - 1, b, s) == r;
      }
      IsOut(d, Link(Usr(i), rest), s, f + f1 + 1, Then(d, r, rest));
    } else {
      var f := EvalSettles(d, rest, s);
      var r := if d.undeferror then Error else Out(d, rest, s);
      forall g: nat | g >= f ensures Eval(d, g, Link(Usr(i), rest), s) == r {
        assert Exec(d, g, Usr(i), s) == if d.undeferror then Error else Done(s);
      }
      IsOut(d, Link(Usr(i), rest), s, f, r);
    }
  }

  /** One term after the other. */
  lemma {:induction false} OutConcat(d: Program, a: Chain, b: Chain, s: Chain)
    ensures Out(d, Concat(a, b), s) == Then(d, Out(d, a, s), b)
    decreases a
  {
    hide Out, Does;
    match a
    case Nil => OutNil(d, s);
    case Link(n, rest) =>
      var ab := Concat(rest, b);
      match n
      case Proc(p) =>
        OutProc(d, p, ab, s);
        OutProc(d, p, rest, s);
        if Does(d, p, s).Done? {
          OutConcat(d, rest, b, Does(d, p, s).stack);
        }
      case Usr(i) =>
        OutName(d, i, ab, s);
        OutName(d, i, rest, s);
        if i < |d.bodies| && d.bodies[i] != Nil {
          if Out(d, d.bodies[i], s).Done? {
            OutConcat(d, rest, b, Out(d, d.bodies[i], s).stack);
          }
        } else {
          OutConcat(d, rest, b, s);
        }
      case _ =>
        OutValue(d, n, ab, s);
        OutValue(d, n, rest, s);
        OutConcat(d, rest, b, Link(n, s));
  }

  // ----- simple combinators -----

  lemma BuiltinLaw(d: Program, k: nat, s: Chain)
    ensures Does(d, Builtin(k), s) == match d.builtin(k, s) case None => Error case Some(s1) => Done(s1)
  {
    var r := match d.builtin(k, s) case None => Error case Some(s1) => Done(s1);
    IsDoes(d, Builtin(k), s, 0, r);
  }

  /** x [l] cons */
  lemma ConsLaw(d: Program, x: Node, l: Chain, s: Chain)
    ensures Does(d, Cons, Link(Lis(l), Link(x, s))) == Done(Link(Lis(Link(x, l)), s))
  {
    IsDoes(d, Cons, Link(Lis(l), Link(x, s)), 0, Done(Link(Lis(Link(x, l)), s)));
  }

  /** [p] i is p. */
  lemma ILaw(d: Program, p: Chain, s: Chain)
    ensures Does(d, I, Link(Lis(p), s)) == Out(d, p, s)
  {
    hide Out, Eval;
    var f := EvalSettles(d, p, s);
    forall g: nat | g >= f ensures Apply(d, g, I, Link(Lis(p), s)) == Out(d, p, s) {
      assert Eval(d, g, p, s) == Out(d, p, s);
    }
    IsDoes(d, I, Link(Lis(p), s), f, Out(d, p, s));
  }

  /** x [p] dip does p below x. */
  lemma DipLaw(d: Program, x: Node, p: Chain, s: Chain)
    ensures Does(d, Dip, Link(Lis(p), Link(x, s))) ==
            match Out(d, p, s) case Done(s1) => Done(Link(x, s1)) case r => r
  {
    hide Out, Eval;
    var f := EvalSettles(d, p, s);
    var r := match Out(d, p, s) case Done(s1) => Done(Link(x, s1)) case r => r;
    forall g: nat | g >= f ensures Apply(d, g, Dip, Link(Lis(p), Link(x, s))) == r {
      assert Eval(d, g, p, s) == Out(d, p, s);
    }
    IsDoes(d, Dip, Link(Lis(p), Link(x, s)), f, r);
  }

  /** For an atom or a quotation x, x [p] dip is p x. */
  lemma DipIsAfter(d: Program, x: Node, p: Chain, s: Chain)
    requires x.Atom? || x.Lis?
    ensures Does(d, Dip, Link(Lis(p), Link(x, s))) == Out(d, Concat(p, Link(x, Nil)), s)
  {
    hide Out, Does;
    DipLaw(d, x, p, s);
    OutConcat(d, p, Link(x, Nil), s);
    if Out(d, p, s).Done? {
      OutValue(d, x, Nil, Out(d, p, s).stack);
      OutNil(d, Link(x, Out(d, p, s).stack));
    }
  }

  /** A test holds if it leaves something on top that is neither an atom 0 nor an empty list. */
  predicate Holds(s: Chain) {
    s.Link? && s.top != Lis(Nil) && !(s.top.Atom? && s.top.payload == 0)
  }

  /** [b] [t] [e] ifte does t if the test holds and e if not, on the stack that the test found. */
  lemma IfteLaw(d: Program, b: Chain, t: Chain, e: Chain, s: Chain)
    ensures Does(d, Ifte, Link(Lis(e), Link(Lis(t), Link(Lis(b), s)))) ==
            match Out(d, b, s)
            case Done(s1) => if Holds(s1) then Out(d, t, s) else Out(d, e, s)
            case r => r
  {
    hide Out, Eval;
    var st := Link(Lis(e), Link(Lis(t), Link(Lis(b), s)));
    var f0 := EvalSettles(d, b, s);
    var f1 := EvalSettles(d, t, s);
    var f2 := EvalSettles(d, e, s);
    var r := match Out(d, b, s) case Done(s1) => (if Holds(s1) then Out(d, t, s) else Out(d, e, s)) case r => r;
    forall g: nat | g >= f0 + f1 + f2 ensures Apply(d, g, Ifte, st) == r {
      assert Eval(d, g, b, s) == Out(d, b, s) && Eval(d, g, t, s) == Out(d, t, s) && Eval(d, g, e, s) == Out(d, e, s);
      IfteOnce(d, g, b, t, e, s);
    }
    IsDoes(d, Ifte, st, f0 + f1 + f2, r);
  }

  lemma IfteOnce(d: Program, f: nat, b: Chain, t: Chain, e: Chain, s: Chain)
    ensures IfteOn(d, f, b, t, e, s) ==
            match Eval(d, f, b, s) case Done(s1) => Eval(d, f, if Holds(s1) then t else e, s) case r => r
  {
    hide Eval;
  }

  /** [b] [p] while */
  function WhileTerm(b: Chain, p: Chain): Chain {
    Link(Lis(b), Link(Lis(p), Link(Proc(While), Nil)))
  }

  lemma OutWhile(d: Program, b: Chain, p: Chain, s: Chain)
    ensures Out(d, WhileTerm(b, p), s) == Does(d, While, Link(Lis(p), Link(Lis(b), s)))
  {
    hide Out, Does;
    var st := Link(Lis(p), Link(Lis(b), s));
    OutValue(d, Lis(b), Link(Lis(p), Link(Proc(While), Nil)), s);
    OutValue(d, Lis(p), Link(Proc(While), Nil), Link(Lis(b), s));
    OutLast(d, While, st);
  }

  lemma OutLast(d: Program, p: Prim, s: Chain)
    ensures Out(d, Link(Proc(p), Nil), s) == Does(d, p, s)
  {
    hide Out, Does;
    OutProc(d, p, Nil, s);
    if Does(d, p, s).Done? {
      OutNil(d, Does(d, p, s).stack);
    }
  }

  /** [b] [p] while: as long as the test holds, p and the loop again; it is an error for the test to leave nothing. */
  lemma WhileLaw(d: Program, b: Chain, p: Chain, s: Chain)
    ensures Does(d, While, Link(Lis(p), Link(Lis(b), s))) ==
            match Out(d, b, s)
            case Done(s1) =>
              if s1 == Nil then Error else if Holds(s1) then Out(d, Concat(p, WhileTerm(b, p)), s) else Done(s)
            case r => r
  {
    hide Out, Eval, Loop;
    var st := Link(Lis(p), Link(Lis(b), s));
    var again := Out(d, p, s);
    OutConcat(d, p, WhileTerm(b, p), s);
    var f0 := EvalSettles(d, b, s);
    var f1 := EvalSettles(d, p, s);
    var f2: nat := 0;
    if again.Done? {
      OutWhile(d, b, p, again.stack);
      f2 := ApplySettles(d, While, Link(Lis(p), Link(Lis(b), again.stack)));
    }
    var r := match Out(d, b, s)
             case Done(s1) =>
               (if s1 == Nil then Error else if Holds(s1) then Out(d, Concat(p, WhileTerm(b, p)), s) else Done(s))
             case r => r;
    forall g: nat | g >= f0 + f1 + f2 + 1 ensures Apply(d, g, While, st) == r {
      assert Eval(d, g, b, s) == Out(d, b, s) && Eval(d, g, p, s) == again;
      LoopOnce(d, g, b, p, s);
      if again.Done? {
        assert Apply(d, g - 1, While, Link(Lis(p), Link(Lis(b), again.stack))) ==
               Does(d, While, Link(Lis(p), Link(Lis(b), again.stack)));
      }
    }
    IsDoes(d, While, st, f0 + f1 + f2 + 1, r);
  }

  lemma LoopOnce(d: Program, f: nat, b: Chain, p: Chain, s: Chain)
    requires f > 0
    ensures Loop(d, f, b, p, s) ==
            match Eval(d, f, b, s)
            case Done(s1) =>
              if s1 == Nil then Error
              else if !Holds(s1) then Done(s)
              else (match Eval(d, f, p, s) case Done(s2) => Loop(d, f - 1, b, p, s2) case r => r)
            case r => r
  {
    hide Eval;
  }

  // ----- over lists -----

  /** [] [p] step does nothing, and [n ...] [p] step is n p [...] [p] step. */
  lemma StepLaw(d: Program, p: Chain, n: Node, l: Chain, s: Chain)
    ensures Does(d, Step, Link(Lis(p), Link(Lis(Nil), s))) == Done(s)
    ensures Does(d, Step, Link(Lis(p), Link(Lis(Link(n, l)), s))) ==
            match Out(d, p, Link(n, s))
            case Done(s1) => Does(d, Step, Link(Lis(p), Link(Lis(l), s1)))
            case r => r
  {
    hide Out, Eval, Does;
    IsDoes(d, Step, Link(Lis(p), Link(Lis(Nil), s)), 0, Done(s));
    var st := Link(Lis(p), Link(Lis(Link(n, l)), s));
    var first := Out(d, p, Link(n, s));
    var f0 := EvalSettles(d, p, Link(n, s));
    var f1: nat := 0;
    if first.Done? {
      f1 := ApplySettles(d, Step, Link(Lis(p), Link(Lis(l), first.stack)));
    }
    var r := match first case Done(s1) => Does(d, Step, Link(Lis(p), Link(Lis(l), s1))) case r => r;
    forall g: nat | g >= f0 + f1 ensures Apply(d, g, Step, st) == r {
      assert Eval(d, g, p, Link(n, s)) == first;
      if first.Done? {
        assert Apply(d, g, Step, Link(Lis(p), Link(Lis(l), first.stack))) == Does(d, Step, Link(Lis(p), Link(Lis(l), first.stack)));
      }
    }
    IsDoes(d, Step, st, f0 + f1, r);
  }

  /** m with its contents in front of those of the list on top. */
  function Before(m: Chain, r: Result): Result {
    if r.Done? && r.stack.Link? && r.stack.top.Lis? then Done(Link(Lis(Concat(m, r.stack.top.l)), r.stack.next)) else r
  }

  lemma {:induction false} ConcatSnoc(a: Chain, n: Node, b: Chain)
    ensures Concat(Snoc(a, n), b) == Concat(a, Link(n, b))
    decreases a
  {
    if a.Link? {
      ConcatSnoc(a.next, n, b);
    }
  }

  lemma {:induction false} ConcatNil(a: Chain)
    ensures Concat(a, Nil) == a
    decreases a
  {
    if a.Link? {
      ConcatNil(a.next);
    }
  }

  lemma ConcatOne(n: Node, b: Chain)
    ensures Concat(Link(n, Nil), b) == Link(n, b)
  {
  }

  /** What was done before stands in front of the rest. */
  lemma {:induction false} MapDone(d: Program, f: nat, p: Chain, l: Chain, s: Chain, done: Chain)
    ensures MapEach(d, f, p, l, s, done) == Before(done, MapEach(d, f, p, l, s, Nil))
    ensures MapEach(d, f, p, l, s, Nil).Done? ==>
              var q := MapEach(d, f, p, l, s, Nil).stack; q.Link? && q.top.Lis? && q.next == s
    decreases l
  {
    hide Eval;
    match l
    case Nil => ConcatNil(done);
    case Link(n, rest) =>
      var r := Eval(d, f, p, Link(n, s));
      if r.Done? && r.stack != Nil {
        MapDone(d, f, p, rest, s, Snoc(done, r.stack.top));
        MapDone(d, f, p, rest, s, Link(r.stack.top, Nil));
        var q := MapEach(d, f, p, rest, s, Nil);
        if q.Done? {
          ConcatSnoc(done, r.stack.top, q.stack.top.l);
          ConcatOne(r.stack.top, q.stack.top.l);
        }
      }
  }

  /** [l] [p] map: in place of each node of l what p leaves on top, on a stack of that node and what is below. */
  lemma MapLaw(d: Program, p: Chain, n: Node, l: Chain, s: Chain)
    ensures Does(d, Map, Link(Lis(p), Link(Lis(Nil), s))) == Done(Link(Lis(Nil), s))
    ensures Does(d, Map, Link(Lis(p), Link(Lis(Link(n, l)), s))) ==
            match Out(d, p, Link(n, s))
            case Done(s1) =>
              if s1 == Nil then Error
              else
                (match Does(d, Map, Link(Lis(p), Link(Lis(l), s)))
                 case Done(q) => if q.Link? && q.top.Lis? then Done(Link(Lis(Link(s1.top, q.top.l)), s)) else Error
                 case r => r)
            case r => r
  {
    hide Out, Eval, Does, MapEach;
    assert forall g: nat :: MapEach(d, g, p, Nil, s, Nil) == Done(Link(Lis(Nil), s)) by { MapNone(d, p, s); }
    IsDoes(d, Map, Link(Lis(p), Link(Lis(Nil), s)), 0, Done(Link(Lis(Nil), s)));
    var st, rest := Link(Lis(p), Link(Lis(Link(n, l)), s)), Link(Lis(p), Link(Lis(l), s));
    var first, more := Out(d, p, Link(n, s)), Does(d, Map, rest);
    var f0 := EvalSettles(d, p, Link(n, s));
    var f1 := ApplySettles(d, Map, rest);
    var r := match first
             case Done(s1) =>
               (if s1 == Nil then Error
                else
                  (match more
                   case Done(q) => if q.Link? && q.top.Lis? then Done(Link(Lis(Link(s1.top, q.top.l)), s)) else Error
                   case r => r))
             case r => r;
    forall g: nat | g >= f0 + f1 ensures Apply(d, g, Map, st) == r {
      assert Eval(d, g, p, Link(n, s)) == first && Apply(d, g, Map, rest) == more;
      MapFirst(d, g, p, n, l, s);
    }
    IsDoes(d, Map, st, f0 + f1, r);
  }

  lemma MapNone(d: Program, p: Chain, s: Chain)
    ensures forall g: nat :: MapEach(d, g, p, Nil, s, Nil) == Done(Link(Lis(Nil), s))
  {
  }

  lemma MapFirst(d: Program, f: nat, p: Chain, n: Node, l: Chain, s: Chain)
    ensures MapEach(d, f, p, Link(n, l), s, Nil) ==
            match Eval(d, f, p, Link(n, s))
            case Done(s1) =>
              if s1 == Nil then Error
              else
                (match MapEach(d, f, p, l, s, Nil)
                 case Done(q) => if q.Link? && q.top.Lis? then Done(Link(Lis(Link(s1.top, q.top.l)), s)) else Error
                 case r => r)
            case r => r
  {
    hide Eval;
    var r := Eval(d, f, p, Link(n, s));
    if r.Done? && r.stack != Nil {
      MapDone(d, f, p, l, s, Link(r.stack.top, Nil));
      MapDone(d, f, p, l, s, Nil);
    }
  }

  lemma {:induction false} FilterDone(d: Program, f: nat, p: Chain, l: Chain, s: Chain, done: Chain)
    ensures FilterEach(d, f, p, l, s, done) == Before(done, FilterEach(d, f, p, l, s, Nil))
    ensures FilterEach(d, f, p, l, s, Nil).Done? ==>
              var q := FilterEach(d, f, p, l, s, Nil).stack; q.Link? && q.top.Lis? && q.next == s
    decreases l
  {
    hide Test;
    match l
    case Nil => ConcatNil(done);
    case Link(n, rest) =>
      FilterDone(d, f, p, rest, s, Snoc(done, n));
      FilterDone(d, f, p, rest, s, Link(n, Nil));
      FilterDone(d, f, p, rest, s, done);
      var q := FilterEach(d, f, p, rest, s, Nil);
      if q.Done? {
        ConcatSnoc(done, n, q.stack.top.l);
        ConcatOne(n, q.stack.top.l);
      }
  }

  /** [l] [p] filter: the nodes of l for which the test holds. */
  lemma FilterLaw(d: Program, p: Chain, n: Node, l: Chain, s: Chain)
    ensures Does(d, Filter, Link(Lis(p), Link(Lis(Nil), s))) == Done(Link(Lis(Nil), s))
    ensures Does(d, Filter, Link(Lis(p), Link(Lis(Link(n, l)), s))) ==
            match Out(d, p, Link(n, s))
            case Done(s1) =>
              if s1 == Nil then Error
              else
                (match Does(d, Filter, Link(Lis(p), Link(Lis(l), s)))
                 case Done(q) =>
                   if q.Link? && q.top.Lis? then Done(Link(Lis(if Holds(s1) then Link(n, q.top.l) else q.top.l), s)) else Error
                 case r => r)
            case r => r
  {
    hide Out, Eval, Does, FilterEach;
    assert forall g: nat :: FilterEach(d, g, p, Nil, s, Nil) == Done(Link(Lis(Nil), s)) by { FilterNone(d, p, s); }
    IsDoes(d, Filter, Link(Lis(p), Link(Lis(Nil), s)), 0, Done(Link(Lis(Nil), s)));
    var st, rest := Link(Lis(p), Link(Lis(Link(n, l)), s)), Link(Lis(p), Link(Lis(l), s));
    var first, more := Out(d, p, Link(n, s)), Does(d, Filter, rest);
    var f0 := EvalSettles(d, p, Link(n, s));
    var f1 := ApplySettles(d, Filter, rest);
    var r := match first
             case Done(s1) =>
               (if s1 == Nil then Error
                else
                  (match more
                   case Done(q) =>
                     if q.Link? && q.top.Lis? then Done(Link(Lis(if Holds(s1) then Link(n, q.top.l) else q.top.l), s)) else Error
                   case r => r))
             case r => r;
    forall g: nat | g >= f0 + f1 ensures Apply(d, g, Filter, st) == r {
      assert Eval(d, g, p, Link(n, s)) == first && Apply(d, g, Filter, rest) == more;
      FilterFirst(d, g, p, n, l, s);
    }
    IsDoes(d, Filter, st, f0 + f1, r);
  }

  lemma FilterNone(d: Program, p: Chain, s: Chain)
    ensures forall g: nat :: FilterEach(d, g, p, Nil, s, Nil) == Done(Link(Lis(Nil), s))
  {
  }

  lemma FilterFirst(d: Program, f: nat, p: Chain, n: Node, l: Chain, s: Chain)
    ensures FilterEach(d, f, p, Link(n, l), s, Nil) ==
            match Eval(d, f, p, Link(n, s))
            case Done(s1) =>
              if s1 == Nil then Error
              else
                (match FilterEach(d, f, p, l, s, Nil)
                 case Done(q) =>
                   if q.Link? && q.top.Lis? then Done(Link(Lis(if Holds(s1) then Link(n, q.top.l) else q.top.l), s)) else Error
                 case r => r)
            case r => r
  {
    hide Eval;
    FilterDone(d, f, p, l, s, Link(n, Nil));
    FilterDone(d, f, p, l, s, Nil);
  }

  /** What the program takes from the top of a stack: the null node if there is nothing. */
  function Taken(s: Chain): Node {
    if s == Nil then Atom(0, 0) else s.top
  }

  /** Pushes on o what a run leaves on top. */
  function PushTaken(r: Result, o: Chain): Result {
    if r.Done? then Done(Link(Taken(r.stack), o)) else r
  }

  lemma {:induction false} CollectSnoc(d: Program, f: nat, l: Chain, n: Node, s: Chain, out: Chain)
    ensures Collect(d, f, Snoc(l, n), s, out) ==
            match Collect(d, f, l, s, out)
            case Done(o) =>
              if !n.Lis? then Error
              else PushTaken(Eval(d, f, n.l, s), o)
            case r => r
    decreases l
  {
    hide Eval;
    match l
    case Nil =>
      assert forall q :: Collect(d, f, Nil, s, q) == Done(q);
    case Link(m, rest) =>
      if m.Lis? {
        var r := Eval(d, f, m.l, s);
        if r.Done? {
          CollectSnoc(d, f, rest, n, s, Link(Top(r.stack), out));
        }
      }
  }

  /** [p] [[q1] [q2] ...] construct: on the stack that p leaves, each quotation; their results are pushed on the
      stack that was there, the last one on top. */
  lemma ConstructLaw(d: Program, p: Chain, l: Chain, n: Node, s: Chain)
    ensures Does(d, Construct, Link(Lis(Nil), Link(Lis(p), s))) == match Out(d, p, s) case Done(_) => Done(s) case r => r
    ensures Does(d, Construct, Link(Lis(Snoc(l, n)), Link(Lis(p), s))) ==
            match Does(d, Construct, Link(Lis(l), Link(Lis(p), s)))
            case Done(o) =>
              if !n.Lis? then Error
              else PushTaken(Then(d, Out(d, p, s), n.l), o)
            case r => r
  {
    hide Out, Eval, Does, Collect, Snoc;
    var f0 := EvalSettles(d, p, s);
    var first := Out(d, p, s);
    var r0 := match first case Done(_) => Done(s) case r => r;
    var none, st, fewer := Link(Lis(Nil), Link(Lis(p), s)), Link(Lis(Snoc(l, n)), Link(Lis(p), s)), Link(Lis(l), Link(Lis(p), s));
    forall g: nat | g >= f0 ensures Apply(d, g, Construct, none) == r0 {
      assert Eval(d, g, p, s) == first;
      CollectNone(d, g, s);
    }
    IsDoes(d, Construct, none, f0, r0);
    var f1 := ApplySettles(d, Construct, fewer);
    var f2: nat := 0;
    if first.Done? && n.Lis? {
      f2 := EvalSettles(d, n.l, first.stack);
    }
    var r := match Does(d, Construct, fewer)
             case Done(o) =>
               (if !n.Lis? then Error else PushTaken(Then(d, first, n.l), o))
             case r => r;
    forall g: nat | g >= f0 + f1 + f2 ensures Apply(d, g, Construct, st) == r {
      assert Eval(d, g, p, s) == first && Apply(d, g, Construct, fewer) == Does(d, Construct, fewer);
      if first.Done? {
        CollectSnoc(d, g, l, n, first.stack, s);
        if n.Lis? {
          assert Eval(d, g, n.l, first.stack) == Out(d, n.l, first.stack);
        }
      }
    }
    IsDoes(d, Construct, st, f0 + f1 + f2, r);
  }

  lemma CollectNone(d: Program, f: nat, out: Chain)
    ensures forall s :: Collect(d, f, Nil, s, out) == Done(out)
  {
  }

  /** x [p1] [p2] cleave: what either leaves on top of x and what is below, the second one on top. */
  lemma CleaveLaw(d: Program, x: Node, p1: Chain, p2: Chain, s: Chain)
    ensures Does(d, Cleave, Link(Lis(p2), Link(Lis(p1), Link(x, s)))) ==
            match Out(d, p1, Link(x, s))
            case Done(s1) => PushTaken(Out(d, p2, Link(x, s)), Link(Taken(s1), s))
            case r => r
  {
    hide Out, Eval;
    var st := Link(Lis(p2), Link(Lis(p1), Link(x, s)));
    var f0 := EvalSettles(d, p1, Link(x, s));
    var f1 := EvalSettles(d, p2, Link(x, s));
    var r := match Out(d, p1, Link(x, s))
             case Done(s1) => PushTaken(Out(d, p2, Link(x, s)), Link(Taken(s1), s))
             case r => r;
    forall g: nat | g >= f0 + f1 ensures Apply(d, g, Cleave, st) == r {
      assert Eval(d, g, p1, Link(x, s)) == Out(d, p1, Link(x, s)) && Eval(d, g, p2, Link(x, s)) == Out(d, p2, Link(x, s));
    }
    IsDoes(d, Cleave, st, f0 + f1, r);
  }

  // ----- recursion -----

  /** [p] [t] [r1] [r2] linrec, or another combinator of four quotations. */
  function FourTerm(op: Prim, p: Chain, t: Chain, r1: Chain, r2: Chain): Chain {
    Link(Lis(p), Link(Lis(t), Link(Lis(r1), Link(Lis(r2), Link(Proc(op), Nil)))))
  }

  /** The stack with four quotations, the last one on top. */
  function Four(p: Chain, t: Chain, r1: Chain, r2: Chain, s: Chain): Chain {
    Link(Lis(r2), Link(Lis(r1), Link(Lis(t), Link(Lis(p), s))))
  }

  lemma OutFour(d: Program, op: Prim, p: Chain, t: Chain, r1: Chain, r2: Chain, s: Chain)
    ensures Out(d, FourTerm(op, p, t, r1, r2), s) == Does(d, op, Four(p, t, r1, r2, s))
  {
    hide Out, Does;
    var t4 := Link(Proc(op), Nil);
    var t3 := Link(Lis(r2), t4);
    var t2 := Link(Lis(r1), t3);
    var t1 := Link(Lis(t), t2);
    OutValue(d, Lis(p), t1, s);
    OutValue(d, Lis(t), t2, Link(Lis(p), s));
    OutValue(d, Lis(r1), t3, Link(Lis(t), Link(Lis(p), s)));
    OutValue(d, Lis(r2), t4, Link(Lis(r1), Link(Lis(t), Link(Lis(p), s))));
    OutLast(d, op, Four(p, t, r1, r2, s));
  }

  /** What linrec does after r1, for some fuel. */
  ghost function AfterFirst(d: Program, f: nat, p: Chain, t: Chain, r1: Chain, r2: Chain, s: Chain): Result
    requires f > 0
  {
    var r := LinrecOn(d, f - 1, p, t, r1, r2, s);
    if r.Done? then Eval(d, f, r2, r.stack) else r
  }

  lemma LinrecOnce(d: Program, f: nat, p: Chain, t: Chain, r1: Chain, r2: Chain, s: Chain)
    requires f > 0
    ensures LinrecOn(d, f, p, t, r1, r2, s) ==
            match Eval(d, f, p, s)
            case Done(s1) =>
              if s1 == Nil then Error
              else if Holds(s1) then Eval(d, f, t, s)
              else if !Eval(d, f, r1, s).Done? then Eval(d, f, r1, s)
              else AfterFirst(d, f, p, t, r1, r2, Eval(d, f, r1, s).stack)
            case r => r
  {
    hide Eval;
  }

  lemma AfterFirstSettles(d: Program, p: Chain, t: Chain, r1: Chain, r2: Chain, s: Chain) returns (f: nat)
    ensures forall g: nat :: g > f ==>
              AfterFirst(d, g, p, t, r1, r2, s) == Out(d, Concat(FourTerm(Linrec, p, t, r1, r2), r2), s)
  {
    hide Out, Eval, LinrecOn, Does;
    var again := FourTerm(Linrec, p, t, r1, r2);
    OutConcat(d, again, r2, s);
    OutFour(d, Linrec, p, t, r1, r2, s);
    var v := Does(d, Linrec, Four(p, t, r1, r2, s));
    f := ApplySettles(d, Linrec, Four(p, t, r1, r2, s));
    var f1: nat := 0;
    if v.Done? {
      f1 := EvalSettles(d, r2, v.stack);
    }
    var f0 := f;
    f := f0 + f1;
    forall g: nat | g > f ensures AfterFirst(d, g, p, t, r1, r2, s) == Out(d, Concat(again, r2), s) {
      assert Apply(d, g - 1, Linrec, Four(p, t, r1, r2, s)) == v;
      if v.Done? {
        assert Eval(d, g, r2, v.stack) == Out(d, r2, v.stack);
      }
    }
  }

  /** [p] [t] [r1] [r2] linrec: t if the test holds, else r1, the whole again, and r2; the test must leave
      something. */
  lemma LinrecLaw(d: Program, p: Chain, t: Chain, r1: Chain, r2: Chain, s: Chain)
    ensures Does(d, Linrec, Four(p, t, r1, r2, s)) ==
            match Out(d, p, s)
            case Done(s1) =>
              if s1 == Nil then Error
              else if Holds(s1) then Out(d, t, s)
              else Out(d, Concat(r1, Concat(FourTerm(Linrec, p, t, r1, r2), r2)), s)
            case r => r
  {
    hide Out, Eval, LinrecOn, AfterFirst, Does, Concat, FourTerm;
    var st, rest := Four(p, t, r1, r2, s), Concat(FourTerm(Linrec, p, t, r1, r2), r2);
    OutConcat(d, r1, rest, s);
    var f := EvalSettles(d, p, s);
    var f1 := EvalSettles(d, t, s);
    var f2 := EvalSettles(d, r1, s);
    var u := Out(d, r1, s);
    var f3: nat := 0;
    if u.Done? {
      f3 := AfterFirstSettles(d, p, t, r1, r2, u.stack);
    }
    var r := match Out(d, p, s)
             case Done(s1) =>
               (if s1 == Nil then Error else if Holds(s1) then Out(d, t, s) else Out(d, Concat(r1, rest), s))
             case r => r;
    forall g: nat | g >= f + f1 + f2 + f3 + 1 ensures Apply(d, g, Linrec, st) == r {
      assert Eval(d, g, p, s) == Out(d, p, s) && Eval(d, g, t, s) == Out(d, t, s) && Eval(d, g, r1, s) == u;
      LinrecOnce(d, g, p, t, r1, r2, s);
      if u.Done? {
        assert AfterFirst(d, g, p, t, r1, r2, u.stack) == Out(d, rest, u.stack);
      }
    }
    IsDoes(d, Linrec, st, f + f1 + f2 + f3 + 1, r);
  }

  /** [p] [t] [r1] tailrec is [p] [t] [r1] [] linrec. */
  lemma TailrecLaw(d: Program, p: Chain, t: Chain, r1: Chain, s: Chain)
    ensures Does(d, Tailrec, Link(Lis(r1), Link(Lis(t), Link(Lis(p), s)))) == Does(d, Linrec, Four(p, t, r1, Nil, s))
  {
    hide Does, TailrecOn, LinrecOn;
    var st := Link(Lis(r1), Link(Lis(t), Link(Lis(p), s)));
    var f := ApplySettles(d, Linrec, Four(p, t, r1, Nil, s));
    forall g: nat | g >= f ensures Apply(d, g, Tailrec, st) == Does(d, Linrec, Four(p, t, r1, Nil, s)) {
      assert Apply(d, g, Linrec, Four(p, t, r1, Nil, s)) == Does(d, Linrec, Four(p, t, r1, Nil, s));
      TailrecIsLinrec(d, g, p, t, r1, s);
    }
    IsDoes(d, Tailrec, st, f, Does(d, Linrec, Four(p, t, r1, Nil, s)));
  }

  /** The two recursions of binrec, and what follows them. */
  ghost function Halves(d: Program, p: Chain, t: Chain, r1: Chain, r2: Chain, s: Chain): Result {
    match Does(d, Binrec, Four(p, t, r1, r2, if s == Nil then Nil else s.next))
    case Done(s3) => Then(d, Does(d, Binrec, Four(p, t, r1, r2, Link(Taken(s), s3))), r2)
    case r => r
  }

  ghost function HalvesFor(d: Program, f: nat, p: Chain, t: Chain, r1: Chain, r2: Chain, s: Chain): Result
    requires f > 0
  {
    match BinrecOn(d, f - 1, p, t, r1, r2, if s == Nil then Nil else s.next)
    case Done(s3) =>
      (match BinrecOn(d, f - 1, p, t, r1, r2, Link(Taken(s), s3)) case Done(s4) => Eval(d, f, r2, s4) case r => r)
    case r => r
  }

  lemma BinrecOnce(d: Program, f: nat, p: Chain, t: Chain, r1: Chain, r2: Chain, s: Chain)
    requires f > 0
    ensures BinrecOn(d, f, p, t, r1, r2, s) ==
            match Eval(d, f, p, s)
            case Done(s1) =>
              if Holds(s1) then Eval(d, f, t, s)
              else if !Eval(d, f, r1, s).Done? then Eval(d, f, r1, s)
              else HalvesFor(d, f, p, t, r1, r2, Eval(d, f, r1, s).stack)
            case r => r
  {
    hide Eval;
  }

  /** [p] [t] [r1] [r2] binrec: t if the test holds, else r1; then the whole below its top, the whole again on that
      top, and r2. */
  lemma BinrecLaw(d: Program, p: Chain, t: Chain, r1: Chain, r2: Chain, s: Chain)
    ensures Does(d, Binrec, Four(p, t, r1, r2, s)) ==
            match Out(d, p, s)
            case Done(s1) =>
              if Holds(s1) then Out(d, t, s)
              else if !Out(d, r1, s).Done? then Out(d, r1, s)
              else Halves(d, p, t, r1, r2, Out(d, r1, s).stack)
            case r => r
  {
    hide Out, Eval, BinrecOn, Does;
    var st := Four(p, t, r1, r2, s);
    var f := EvalSettles(d, p, s);
    var f1 := EvalSettles(d, t, s);
    var f2 := EvalSettles(d, r1, s);
    var u := Out(d, r1, s);
    var f3: nat := 0;
    if u.Done? {
      f3 := BinrecHalves(d, p, t, r1, r2, u.stack);
    }
    var r := match Out(d, p, s)
             case Done(s1) =>
               (if Holds(s1) then Out(d, t, s) else if !u.Done? then u else Halves(d, p, t, r1, r2, u.stack))
             case r => r;
    forall g: nat | g >= f + f1 + f2 + f3 + 1 ensures Apply(d, g, Binrec, st) == r {
      assert Eval(d, g, p, s) == Out(d, p, s) && Eval(d, g, t, s) == Out(d, t, s) && Eval(d, g, r1, s) == u;
      BinrecOnce(d, g, p, t, r1, r2, s);
    }
    IsDoes(d, Binrec, st, f + f1 + f2 + f3 + 1, r);
  }

  lemma BinrecHalves(d: Program, p: Chain, t: Chain, r1: Chain, r2: Chain, s: Chain) returns (f: nat)
    ensures forall g: nat :: g > f ==> Halves(d, p, t, r1, r2, s) == HalvesFor(d, g, p, t, r1, r2, s)
  {
    hide Out, Eval, BinrecOn, Does;
    var below := if s == Nil then Nil else s.next;
    f := ApplySettles(d, Binrec, Four(p, t, r1, r2, below));
    var v := Does(d, Binrec, Four(p, t, r1, r2, below));
    var f1: nat, f2: nat := 0, 0;
    if v.Done? {
      f1 := ApplySettles(d, Binrec, Four(p, t, r1, r2, Link(Taken(s), v.stack)));
      var w := Does(d, Binrec, Four(p, t, r1, r2, Link(Taken(s), v.stack)));
      if w.Done? {
        f2 := EvalSettles(d, r2, w.stack);
      }
    }
    var f0 := f;
    f := f0 + f1 + f2;
    forall g: nat | g > f ensures Halves(d, p, t, r1, r2, s) == HalvesFor(d, g, p, t, r1, r2, s) {
      assert Apply(d, g - 1, Binrec, Four(p, t, r1, r2, below)) == v;
      if v.Done? {
        var w := Does(d, Binrec, Four(p, t, r1, r2, Link(Taken(s), v.stack)));
        assert Apply(d, g - 1, Binrec, Four(p, t, r1, r2, Link(Taken(s), v.stack))) == w;
        if w.Done? {
          assert Eval(d, g, r2, w.stack) == Out(d, r2, w.stack);
        }
      }
    }
  }

  lemma GenrecOnce(d: Program, f: nat, p: Chain, t: Chain, r1: Chain, r2: Chain, s: Chain)
    ensures GenrecOn(d, f, Link(Lis(p), Link(Lis(t), Link(Lis(r1), r2))), s) ==
            match Eval(d, f, p, s)
            case Done(s1) =>
              if s1 == Nil then Error
              else if Holds(s1) then Eval(d, f, t, s)
              else if !Eval(d, f, r1, s).Done? then Eval(d, f, r1, s)
              else Eval(d, f, r2, Link(Lis(AgainTerm(p, t, r1, r2)), Eval(d, f, r1, s).stack))
            case r => r
  {
    hide Eval;
  }

  /** [[p] [t] [r1] r2] #genrec */
  function AgainTerm(p: Chain, t: Chain, r1: Chain, r2: Chain): Chain {
    Link(Lis(Link(Lis(p), Link(Lis(t), Link(Lis(r1), r2)))), Link(Proc(GenrecAux), Nil))
  }

  lemma GenrecSettles(d: Program, p: Chain, t: Chain, r1: Chain, r2: Chain, s: Chain) returns (f: nat, r: Result)
    ensures forall g: nat :: g >= f ==> GenrecOn(d, g, Link(Lis(p), Link(Lis(t), Link(Lis(r1), r2))), s) == r
    ensures r == match Out(d, p, s)
                 case Done(s1) =>
                   if s1 == Nil then Error
                   else if Holds(s1) then Out(d, t, s)
                   else Out(d, Concat(r1, Link(Lis(AgainTerm(p, t, r1, r2)), r2)), s)
                 case r => r
  {
    hide Out, Eval, GenrecOn, AgainTerm, Concat;
    var again := Lis(AgainTerm(p, t, r1, r2));
    OutConcat(d, r1, Link(again, r2), s);
    var f0 := EvalSettles(d, p, s);
    var f1 := EvalSettles(d, t, s);
    var f2 := EvalSettles(d, r1, s);
    var f3: nat := 0;
    var u := Out(d, r1, s);
    if u.Done? {
      OutValue(d, again, r2, u.stack);
      f3 := EvalSettles(d, r2, Link(again, u.stack));
    }
    f := f0 + f1 + f2 + f3;
    r := match Out(d, p, s)
         case Done(s1) =>
           (if s1 == Nil then Error else if Holds(s1) then Out(d, t, s) else Out(d, Concat(r1, Link(again, r2)), s))
         case r => r;
    forall g: nat | g >= f ensures GenrecOn(d, g, Link(Lis(p), Link(Lis(t), Link(Lis(r1), r2))), s) == r {
      assert Eval(d, g, p, s) == Out(d, p, s) && Eval(d, g, t, s) == Out(d, t, s) && Eval(d, g, r1, s) == u;
      GenrecOnce(d, g, p, t, r1, r2, s);
      if u.Done? {
        assert Eval(d, g, r2, Link(again, u.stack)) == Out(d, r2, Link(again, u.stack));
      }
    }
  }

  /** [p] [t] [r1] [r2] genrec: t if the test holds, else r1, a quotation of the whole, and r2. */
  lemma GenrecLaw(d: Program, p: Chain, t: Chain, r1: Chain, r2: Chain, s: Chain)
    ensures Does(d, Genrec, Four(p, t, r1, r2, s)) ==
            match Out(d, p, s)
            case Done(s1) =>
              if s1 == Nil then Error
              else if Holds(s1) then Out(d, t, s)
              else Out(d, Concat(r1, Link(Lis(AgainTerm(p, t, r1, r2)), r2)), s)
            case r => r
    ensures Does(d, GenrecAux, Link(Lis(Link(Lis(p), Link(Lis(t), Link(Lis(r1), r2)))), s)) ==
            Does(d, Genrec, Four(p, t, r1, r2, s))
  {
    hide Out, GenrecOn, Does, Concat, AgainTerm;
    var f, r := GenrecSettles(d, p, t, r1, r2, s);
    var st, c := Four(p, t, r1, r2, s), Link(Lis(p), Link(Lis(t), Link(Lis(r1), r2)));
    forall g: nat | g >= f ensures Apply(d, g, Genrec, st) == r && Apply(d, g, GenrecAux, Link(Lis(c), s)) == r {
      assert GenrecOn(d, g, c, s) == r;
    }
    IsDoes(d, Genrec, st, f, r);
    IsDoes(d, GenrecAux, Link(Lis(c), s), f, r);
  }

  /** The actions of the first clause whose test holds, or of the last one, which has none. */
  ghost function Selected(d: Program, c: Chain, s: Chain): Choice
    requires c.Link?
    decreases c
  {
    if !c.top.Lis? then BadChoice
    else if c.next == Nil then Chosen(c.top.l)
    else if !(c.top.l.Link? && c.top.l.top.Lis?) then BadChoice
    else
      match Out(d, c.top.l.top.l, s)
      case Done(s1) => if Holds(s1) then Chosen(c.top.l.next) else Selected(d, c.next, s)
      case Error => BadChoice
      case Deep => DeepChoice
  }

  lemma {:induction false} SelectedSettles(d: Program, c: Chain, s: Chain) returns (f: nat)
    requires c.Link?
    ensures forall g: nat :: g >= f ==> Choose(d, g, c, s) == Selected(d, c, s)
    decreases c
  {
    hide Out, Eval;
    f := 0;
    if c.top.Lis? && c.next != Nil && c.top.l.Link? && c.top.l.top.Lis? {
      var b := c.top.l.top.l;
      f := EvalSettles(d, b, s);
      var f1 := SelectedSettles(d, c.next, s);
      var f0 := f;
      f := f0 + f1;
      forall g: nat | g >= f ensures Choose(d, g, c, s) == Selected(d, c, s) {
        assert Eval(d, g, b, s) == Out(d, b, s);
        assert Choose(d, g, c.next, s) == Selected(d, c.next, s);
      }
    }
  }

  predicate Quotations(a: Chain) {
    a == Nil || (a.top.Lis? && Quotations(a.next))
  }

  /** The whole again before each further action, where c is [c] condnestrec. */
  function Spliced(c: Chain, a: Chain): Chain
    requires Quotations(a)
  {
    match a
    case Nil => Nil
    case Link(n, rest) => Concat(n.l, SplicedRest(c, rest))
  }

  function SplicedRest(c: Chain, a: Chain): Chain
    requires Quotations(a)
  {
    match a
    case Nil => Nil
    case Link(n, rest) => Concat(Link(Lis(c), Link(Proc(Condnestrec), Nil)), Concat(n.l, SplicedRest(c, rest)))
  }

  lemma OutNest(d: Program, c: Chain, s: Chain)
    ensures Out(d, Link(Lis(c), Link(Proc(Condnestrec), Nil)), s) == Does(d, Condnestrec, Link(Lis(c), s))
  {
    hide Out, Does;
    OutValue(d, Lis(c), Link(Proc(Condnestrec), Nil), s);
    OutLast(d, Condnestrec, Link(Lis(c), s));
  }

  lemma {:induction false} RestSettles(d: Program, c: Chain, a: Chain, s: Chain) returns (f: nat)
    requires c.Link? && Quotations(a)
    ensures forall g: nat :: g >= f ==> NestRest(d, g, c, a, s) == Out(d, SplicedRest(c, a), s)
    decreases a
  {
    hide Out, Eval, NestOn, Does;
    f := 0;
    match a
    case Nil => OutNil(d, s);
    case Link(n, rest) =>
      var q, tail := Link(Lis(c), Link(Proc(Condnestrec), Nil)), SplicedRest(c, rest);
      OutConcat(d, q, Concat(n.l, tail), s);
      OutNest(d, c, s);
      var u := Does(d, Condnestrec, Link(Lis(c), s));
      var f0 := ApplySettles(d, Condnestrec, Link(Lis(c), s));
      var f1: nat, f2: nat := 0, 0;
      if u.Done? {
        OutConcat(d, n.l, tail, u.stack);
        f1 := EvalSettles(d, n.l, u.stack);
        var v := Out(d, n.l, u.stack);
        if v.Done? {
          f2 := RestSettles(d, c, rest, v.stack);
        }
      }
      f := f0 + f1 + f2 + 1;
      forall g: nat | g >= f ensures NestRest(d, g, c, a, s) == Out(d, SplicedRest(c, a), s) {
        assert Apply(d, g - 1, Condnestrec, Link(Lis(c), s)) == u == NestOn(d, g - 1, c, s);
        if u.Done? {
          assert Eval(d, g, n.l, u.stack) == Out(d, n.l, u.stack);
          if Out(d, n.l, u.stack).Done? {
            assert NestRest(d, g, c, rest, Out(d, n.l, u.stack).stack) == Out(d, tail, Out(d, n.l, u.stack).stack);
          }
        }
      }
  }

  /** [c] condnestrec: the actions that are selected, with the whole again before each but the first. */
  lemma CondnestrecLaw(d: Program, c: Chain, s: Chain)
    requires c.Link?
    ensures Selected(d, c, s).BadChoice? ==> Does(d, Condnestrec, Link(Lis(c), s)) == Error
    ensures Selected(d, c, s).DeepChoice? ==> Does(d, Condnestrec, Link(Lis(c), s)) == Deep
    ensures Selected(d, c, s).Chosen? && Quotations(Selected(d, c, s).actions) ==>
              Does(d, Condnestrec, Link(Lis(c), s)) == Out(d, Spliced(c, Selected(d, c, s).actions), s)
  {
    hide Out, Eval, Choose, NestRest, Selected, Does;
    var f := SelectedSettles(d, c, s);
    var st, pick := Link(Lis(c), s), Selected(d, c, s);
    if pick.BadChoice? || pick.DeepChoice? {
      var r := if pick.BadChoice? then Error else Deep;
      forall g: nat | g >= f ensures Apply(d, g, Condnestrec, st) == r {
        assert Choose(d, g, c, s) == pick;
      }
      IsDoes(d, Condnestrec, st, f, r);
    } else if pick.Chosen? && Quotations(pick.actions) {
      var a := pick.actions;
      if a == Nil {
        OutNil(d, s);
        forall g: nat | g >= f ensures Apply(d, g, Condnestrec, st) == Done(s) {
          assert Choose(d, g, c, s) == pick;
        }
        IsDoes(d, Condnestrec, st, f, Done(s));
      } else {
        var tail := SplicedRest(c, a.next);
        OutConcat(d, a.top.l, tail, s);
        var f1 := EvalSettles(d, a.top.l, s);
        var f2: nat := 0;
        var u := Out(d, a.top.l, s);
        if u.Done? {
          f2 := RestSettles(d, c, a.next, u.stack);
        }
        forall g: nat | g >= f + f1 + f2 ensures Apply(d, g, Condnestrec, st) == Then(d, u, tail) {
          assert Choose(d, g, c, s) == pick && Eval(d, g, a.top.l, s) == u;
          if u.Done? {
            assert NestRest(d, g, c, a.next, u.stack) == Out(d, tail, u.stack);
          }
        }
        IsDoes(d, Condnestrec, st, f + f1 + f2, Then(d, u, tail));
      }
    }
  }

  /** [b] [t] [e] ifte is [[[b] [t]] [[e]]] condlinrec. */
  lemma IfteIsCondlinrec(d: Program, b: Chain, t: Chain, e: Chain, s: Chain)
    ensures Does(d, Ifte, Link(Lis(e), Link(Lis(t), Link(Lis(b), s)))) ==
            Does(d, Condnestrec, Link(Lis(Link(Lis(Link(Lis(b), Link(Lis(t), Nil))), Link(Lis(Link(Lis(e), Nil)), Nil))), s))
  {
    hide Out, Does;
    var c := Link(Lis(Link(Lis(b), Link(Lis(t), Nil))), Link(Lis(Link(Lis(e), Nil)), Nil));
    IfteLaw(d, b, t, e, s);
    CondnestrecLaw(d, c, s);
    assert Selected(d, c.next, s) == Chosen(Link(Lis(e), Nil));
    SplicedOne(c, t);
    SplicedOne(c, e);
  }

  lemma SplicedOne(c: Chain, t: Chain)
    ensures Quotations(Link(Lis(t), Nil)) && Spliced(c, Link(Lis(t), Nil)) == t
  {
    ConcatNil(t);
  }

  /** item [p] treestep is [...] [p] step over the leaves. */
  lemma TreestepLaw(d: Program, p: Chain, item: Node, s: Chain)
    ensures Does(d, Treestep, Link(Lis(p), Link(item, s))) == Does(d, Step, Link(Lis(p), Link(Lis(Flatten(item)), s)))
  {
    hide Does, Leaves, Each, Flatten;
    var st, steps := Link(Lis(p), Link(item, s)), Link(Lis(p), Link(Lis(Flatten(item)), s));
    var f := ApplySettles(d, Step, steps);
    forall g: nat | g >= f ensures Apply(d, g, Treestep, st) == Does(d, Step, steps) {
      assert Apply(d, g, Step, steps) == Does(d, Step, steps);
      TreestepIsStep(d, g, p, item, s);
    }
    IsDoes(d, Treestep, st, f, Does(d, Step, steps));
  }

  // ----- parameters -----

  /** The quotations or lists on top that a combinator takes. */
  function Quotes(p: Prim): nat {
    match p
    case Builtin(_) => 0
    case Cons | I | Dip | GenrecAux | Condnestrec | Treestep => 1
    case While | Step | Map | Filter | Construct | Cleave => 2
    case Ifte | Tailrec => 3
    case Linrec | Binrec | Genrec => 4
  }

  /** The nodes of any kind below them that it takes. */
  function Others(p: Prim): nat {
    if p.Cons? || p.Dip? || p.Cleave? || p.Treestep? then 1 else 0
  }

  predicate HasQuotes(s: Chain, n: nat) {
    n == 0 || (s.Link? && s.top.Lis? && HasQuotes(s.next, n - 1))
  }

  predicate HasNodes(s: Chain, n: nat) {
    n == 0 || (s.Link? && HasNodes(s.next, n - 1))
  }

  /** Without its parameters a combinator is an error. */
  lemma ParametersLaw(d: Program, p: Prim, s: Chain)
    requires !p.Builtin? && !(HasQuotes(s, Quotes(p)) && HasNodes(s, Quotes(p) + Others(p)))
    ensures Does(d, p, s) == Error
  {
    hide Does;
    forall g: nat ensures Apply(d, g, p, s) == Error {
      Lacking(d, g, p, s);
    }
    IsDoes(d, p, s, 0, Error);
  }

  lemma Lacking(d: Program, f: nat, p: Prim, s: Chain)
    requires !p.Builtin? && !(HasQuotes(s, Quotes(p)) && HasNodes(s, Quotes(p) + Others(p)))
    ensures Apply(d, f, p, s) == Error
  {
    hide Eval, Loop, Each, MapEach, FilterEach, Collect, LinrecOn, TailrecOn, BinrecOn, GenrecOn, NestOn, Leaves;
    FourAre(s);
  }

  lemma OneIs(s: Chain)
    ensures HasQuotes(s, 0) && HasNodes(s, 0) && (HasQuotes(s, 1) <==> Quote1(s)) && (HasNodes(s, 1) <==> s.Link?)
  {
  }

  lemma TwoAre(s: Chain)
    ensures HasQuotes(s, 2) <==> Quote2(s)
    ensures HasNodes(s, 2) <==> s.Link? && s.next.Link?
  {
    OneIs(s);
    if s.Link? {
      OneIs(s.next);
    }
  }

  lemma ThreeAre(s: Chain)
    ensures HasQuotes(s, 3) <==> Quote3(s)
    ensures HasNodes(s, 3) <==> s.Link? && s.next.Link? && s.next.next.Link?
  {
    if s.Link? {
      TwoAre(s.next);
    }
  }

  lemma FourAre(s: Chain)
    ensures HasQuotes(s, 1) <==> Quote1(s)
    ensures HasQuotes(s, 2) <==> Quote2(s)
    ensures HasQuotes(s, 3) <==> Quote3(s)
    ensures HasQuotes(s, 4) <==> Quote4(s)
    ensures Quote1(s) ==> HasNodes(s, 1) && (HasNodes(s, 2) <==> s.next.Link?)
    ensures Quote2(s) ==> HasNodes(s, 2) && (HasNodes(s, 3) <==> s.next.next.Link?)
    ensures Quote3(s) ==> HasNodes(s, 3)
    ensures Quote4(s) ==> HasNodes(s, 4)
  {
    OneIs(s);
    TwoAre(s);
    ThreeAre(s);
    if s.Link? {
      ThreeAre(s.next);
    }
  }
}
