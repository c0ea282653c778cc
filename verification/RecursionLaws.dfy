/** Laws of evaluation and of the recursion combinators. */
module RecursionLaws {
  import opened Joy

  // ----- fuel does not matter -----

  lemma {:induction false} EvalMore(d: Program, f: nat, t: Chain, s: Chain)
    requires Eval(d, f, t, s) != Deep
    ensures Eval(d, f + 1, t, s) == Eval(d, f, t, s)
    decreases f, 1, t
  {
    if t.Link? {
      ExecMore(d, f, t.top, s);
      var r := Exec(d, f, t.top, s);
      if r.Done? {
        EvalMore(d, f, t.next, r.stack);
      }
    }
  }

  lemma {:induction false} ExecMore(d: Program, f: nat, n: Node, s: Chain)
    requires Exec(d, f, n, s) != Deep
    ensures Exec(d, f + 1, n, s) == Exec(d, f, n, s)
    decreases f, 0
  {
    match n
    case Usr(i) =>
      if Body(d, i) != Nil {
        EvalMore(d, f - 1, Body(d, i), s);
      }
    case Proc(p) => ApplyMore(d, f - 1, p, s);
    case _ =>
  }

  lemma {:induction false} TestMore(d: Program, f: nat, t: Chain, s: Chain, must: bool)
    requires Test(d, f, t, s, must) != Lost
    ensures Test(d, f + 1, t, s, must) == Test(d, f, t, s, must)
    decreases f, 2
  {
    EvalMore(d, f, t, s);
  }

  lemma {:induction false} ApplyMore(d: Program, f: nat, p: Prim, s: Chain)
    requires Apply(d, f, p, s) != Deep
    ensures Apply(d, f + 1, p, s) == Apply(d, f, p, s)
    decreases f, 5
  {
    hide Eval, Loop, Each, MapEach, FilterEach, Collect, LinrecOn, TailrecOn, BinrecOn, GenrecOn, NestOn, Leaves;
    match p
    case Builtin(_) =>
    case Cons =>
    case I => if Quote1(s) { EvalMore(d, f, s.top.l, s.next); }
    case Dip => if Quote1(s) && s.next.Link? { EvalMore(d, f, s.top.l, s.next.next); }
    case Ifte => if Quote3(s) { IfteMore(d, f, s.next.next.top.l, s.next.top.l, s.top.l, s.next.next.next); }
    case While => if Quote2(s) { LoopMore(d, f, s.next.top.l, s.top.l, s.next.next); }
    case Step => if Quote2(s) { EachMore(d, f, s.top.l, s.next.top.l, s.next.next); }
    case Map => if Quote2(s) { MapMore(d, f, s.top.l, s.next.top.l, s.next.next, Nil); }
    case Filter => if Quote2(s) { FilterMore(d, f, s.top.l, s.next.top.l, s.next.next, Nil); }
    case Construct => if Quote2(s) { ConstructMore(d, f, s); }
    case Cleave =>
      if Quote2(s) && s.next.next.Link? { CleaveMore(d, f, s.next.top.l, s.top.l, s.next.next); }
    case Linrec =>
      if Quote4(s) {
        LinrecMore(d, f, s.next.next.next.top.l, s.next.next.top.l, s.next.top.l, s.top.l, s.next.next.next.next);
      }
    case Tailrec => if Quote3(s) { TailrecMore(d, f, s.next.next.top.l, s.next.top.l, s.top.l, s.next.next.next); }
    case Binrec =>
      if Quote4(s) {
        BinrecMore(d, f, s.next.next.next.top.l, s.next.next.top.l, s.next.top.l, s.top.l, s.next.next.next.next);
      }
    case Genrec =>
      if Quote4(s) {
        GenrecMore(d, f, Link(s.next.next.next.top, Link(s.next.next.top, Link(s.next.top, s.top.l))), s.next.next.next.next);
      }
    case GenrecAux => if Quote1(s) && Quote3(s.top.l) { GenrecMore(d, f, s.top.l, s.next); }
    case Condnestrec => if Quote1(s) && s.top.l.Link? { NestMore(d, f, s.top.l, s.next); }
    case Treestep => if Quote1(s) && s.next.Link? { LeavesMore(d, f, s.top.l, s.next.top, s.next.next); }
  }

  lemma {:induction false} IfteMore(d: Program, f: nat, b: Chain, t: Chain, e: Chain, s: Chain)
    requires IfteOn(d, f, b, t, e, s) != Deep
    ensures IfteOn(d, f + 1, b, t, e, s) == IfteOn(d, f, b, t, e, s)
    decreases f, 3
  {
    hide Eval;
    TestMore(d, f, b, s, false);
    match Test(d, f, b, s, false)
    case Yes => EvalMore(d, f, t, s);
    case No => EvalMore(d, f, e, s);
    case _ =>
  }

  lemma {:induction false} LoopMore(d: Program, f: nat, b: Chain, p: Chain, s: Chain)
    requires Loop(d, f, b, p, s) != Deep
    ensures Loop(d, f + 1, b, p, s) == Loop(d, f, b, p, s)
    decreases f, 3
  {
    hide Eval;
    TestMore(d, f, b, s, true);
    if Test(d, f, b, s, true).Yes? {
      EvalMore(d, f, p, s);
      var r := Eval(d, f, p, s);
      if r.Done? {
        LoopMore(d, f - 1, b, p, r.stack);
      }
    }
  }

  lemma {:induction false} EachMore(d: Program, f: nat, p: Chain, l: Chain, s: Chain)
    requires Each(d, f, p, l, s) != Deep
    ensures Each(d, f + 1, p, l, s) == Each(d, f, p, l, s)
    decreases f, 3, l
  {
    hide Eval;
    if l.Link? {
      EvalMore(d, f, p, Link(l.top, s));
      var r := Eval(d, f, p, Link(l.top, s));
      if r.Done? {
        EachMore(d, f, p, l.next, r.stack);
      }
    }
  }

  lemma {:induction false} MapMore(d: Program, f: nat, p: Chain, l: Chain, s: Chain, done: Chain)
    requires MapEach(d, f, p, l, s, done) != Deep
    ensures MapEach(d, f + 1, p, l, s, done) == MapEach(d, f, p, l, s, done)
    decreases f, 3, l
  {
    hide Eval, Snoc;
    if l.Link? {
      EvalMore(d, f, p, Link(l.top, s));
      var r := Eval(d, f, p, Link(l.top, s));
      if r.Done? && r.stack.Link? {
        MapMore(d, f, p, l.next, s, Snoc(done, r.stack.top));
      }
    }
  }

  lemma {:induction false} FilterMore(d: Program, f: nat, p: Chain, l: Chain, s: Chain, done: Chain)
    requires FilterEach(d, f, p, l, s, done) != Deep
    ensures FilterEach(d, f + 1, p, l, s, done) == FilterEach(d, f, p, l, s, done)
    decreases f, 3, l
  {
    hide Eval, Snoc;
    if l.Link? {
      TestMore(d, f, p, Link(l.top, s), true);
      match Test(d, f, p, Link(l.top, s), true)
      case Yes => FilterMore(d, f, p, l.next, s, Snoc(done, l.top));
      case No => FilterMore(d, f, p, l.next, s, done);
      case _ =>
    }
  }

  lemma {:induction false} ConstructMore(d: Program, f: nat, s: Chain)
    requires Quote2(s) && Apply(d, f, Construct, s) != Deep
    ensures Apply(d, f + 1, Construct, s) == Apply(d, f, Construct, s)
    decreases f, 4
  {
    hide Eval, Collect;
    EvalMore(d, f, s.next.top.l, s.next.next);
    var r := Eval(d, f, s.next.top.l, s.next.next);
    if r.Done? {
      CollectMore(d, f, s.top.l, r.stack, s.next.next);
    }
  }

  lemma {:induction false} CollectMore(d: Program, f: nat, l: Chain, s: Chain, out: Chain)
    requires Collect(d, f, l, s, out) != Deep
    ensures Collect(d, f + 1, l, s, out) == Collect(d, f, l, s, out)
    decreases f, 3, l
  {
    hide Eval;
    if l.Link? && l.top.Lis? {
      EvalMore(d, f, l.top.l, s);
      var r := Eval(d, f, l.top.l, s);
      if r.Done? {
        CollectMore(d, f, l.next, s, Link(Top(r.stack), out));
      }
    }
  }

  lemma {:induction false} CleaveMore(d: Program, f: nat, p1: Chain, p2: Chain, s: Chain)
    requires s.Link? && CleaveOn(d, f, p1, p2, s) != Deep
    ensures CleaveOn(d, f + 1, p1, p2, s) == CleaveOn(d, f, p1, p2, s)
    decreases f, 3
  {
    hide Eval;
    EvalMore(d, f, p1, s);
    if Eval(d, f, p1, s).Done? {
      EvalMore(d, f, p2, s);
    }
  }

  lemma {:induction false} LinrecMore(d: Program, f: nat, p: Chain, t: Chain, r1: Chain, r2: Chain, s: Chain)
    requires LinrecOn(d, f, p, t, r1, r2, s) != Deep
    ensures LinrecOn(d, f + 1, p, t, r1, r2, s) == LinrecOn(d, f, p, t, r1, r2, s)
    decreases f, 3
  {
    hide Eval, Test;
    TestMore(d, f, p, s, true);
    match Test(d, f, p, s, true)
    case Yes => EvalMore(d, f, t, s);
    case No =>
      EvalMore(d, f, r1, s);
      var r := Eval(d, f, r1, s);
      if r.Done? {
        LinrecMore(d, f - 1, p, t, r1, r2, r.stack);
        var q := LinrecOn(d, f - 1, p, t, r1, r2, r.stack);
        if q.Done? {
          EvalMore(d, f, r2, q.stack);
        }
      }
    case _ =>
  }

  lemma {:induction false} TailrecMore(d: Program, f: nat, p: Chain, t: Chain, r1: Chain, s: Chain)
    requires TailrecOn(d, f, p, t, r1, s) != Deep
    ensures TailrecOn(d, f + 1, p, t, r1, s) == TailrecOn(d, f, p, t, r1, s)
    decreases f, 3
  {
    hide Eval, Test;
    TestMore(d, f, p, s, true);
    match Test(d, f, p, s, true)
    case Yes => EvalMore(d, f, t, s);
    case No =>
      EvalMore(d, f, r1, s);
      var r := Eval(d, f, r1, s);
      if r.Done? {
        TailrecMore(d, f - 1, p, t, r1, r.stack);
      }
    case _ =>
  }

  lemma {:induction false} BinrecMore(d: Program, f: nat, p: Chain, t: Chain, r1: Chain, r2: Chain, s: Chain)
    requires BinrecOn(d, f, p, t, r1, r2, s) != Deep
    ensures BinrecOn(d, f + 1, p, t, r1, r2, s) == BinrecOn(d, f, p, t, r1, r2, s)
    decreases f, 3
  {
    hide Eval, Test;
    TestMore(d, f, p, s, false);
    match Test(d, f, p, s, false)
    case Yes => EvalMore(d, f, t, s);
    case No =>
      EvalMore(d, f, r1, s);
      var r := Eval(d, f, r1, s);
      if r.Done? {
        BinrecMore(d, f - 1, p, t, r1, r2, Rest(r.stack));
        var q := BinrecOn(d, f - 1, p, t, r1, r2, Rest(r.stack));
        if q.Done? {
          BinrecMore(d, f - 1, p, t, r1, r2, Link(Top(r.stack), q.stack));
          var u := BinrecOn(d, f - 1, p, t, r1, r2, Link(Top(r.stack), q.stack));
          if u.Done? {
            EvalMore(d, f, r2, u.stack);
          }
        }
      }
    case _ =>
  }

  lemma {:induction false} GenrecMore(d: Program, f: nat, c: Chain, s: Chain)
    requires Quote3(c) && GenrecOn(d, f, c, s) != Deep
    ensures GenrecOn(d, f + 1, c, s) == GenrecOn(d, f, c, s)
    decreases f, 3
  {
    hide Eval, Test;
    TestMore(d, f, c.top.l, s, true);
    match Test(d, f, c.top.l, s, true)
    case Yes => EvalMore(d, f, c.next.top.l, s);
    case No =>
      EvalMore(d, f, c.next.next.top.l, s);
      var r := Eval(d, f, c.next.next.top.l, s);
      if r.Done? {
        EvalMore(d, f, c.next.next.next, Link(Again(c), r.stack));
      }
    case _ =>
  }

  lemma {:induction false} ChooseMore(d: Program, f: nat, c: Chain, s: Chain)
    requires c.Link? && Choose(d, f, c, s) != DeepChoice
    ensures Choose(d, f + 1, c, s) == Choose(d, f, c, s)
    decreases f, 3, c
  {
    hide Test;
    if c.top.Lis? && c.next != Nil && Quote1(c.top.l) {
      TestMore(d, f, c.top.l.top.l, s, false);
      if Test(d, f, c.top.l.top.l, s, false).No? {
        ChooseMore(d, f, c.next, s);
      }
    }
  }

  lemma {:induction false} NestMore(d: Program, f: nat, c: Chain, s: Chain)
    requires c.Link? && NestOn(d, f, c, s) != Deep
    ensures NestOn(d, f + 1, c, s) == NestOn(d, f, c, s)
    decreases f, 4
  {
    hide Eval, Choose;
    ChooseMore(d, f, c, s);
    var a := Choose(d, f, c, s);
    if a.Chosen? && Quote1(a.actions) {
      EvalMore(d, f, a.actions.top.l, s);
      var r := Eval(d, f, a.actions.top.l, s);
      if r.Done? {
        NestRestMore(d, f, c, a.actions.next, r.stack);
      }
    }
  }

  lemma {:induction false} NestRestMore(d: Program, f: nat, c: Chain, a: Chain, s: Chain)
    requires c.Link? && NestRest(d, f, c, a, s) != Deep
    ensures NestRest(d, f + 1, c, a, s) == NestRest(d, f, c, a, s)
    decreases f, 3, a
  {
    hide Eval, NestOn;
    if a.Link? {
      NestMore(d, f - 1, c, s);
      var r := NestOn(d, f - 1, c, s);
      if r.Done? && a.top.Lis? {
        EvalMore(d, f, a.top.l, r.stack);
        var q := Eval(d, f, a.top.l, r.stack);
        if q.Done? {
          NestRestMore(d, f, c, a.next, q.stack);
        }
      }
    }
  }

  lemma {:induction false} LeavesMore(d: Program, f: nat, p: Chain, item: Node, s: Chain)
    requires Leaves(d, f, p, item, s) != Deep
    ensures Leaves(d, f + 1, p, item, s) == Leaves(d, f, p, item, s)
    decreases f, 3, item
  {
    if item.Lis? {
      LeavesOfMore(d, f, p, item.l, s);
    } else {
      EvalMore(d, f, p, Link(item, s));
    }
  }

  lemma {:induction false} LeavesOfMore(d: Program, f: nat, p: Chain, l: Chain, s: Chain)
    requires LeavesOf(d, f, p, l, s) != Deep
    ensures LeavesOf(d, f + 1, p, l, s) == LeavesOf(d, f, p, l, s)
    decreases f, 3, l
  {
    if l.Link? {
      LeavesMore(d, f, p, l.top, s);
      var r := Leaves(d, f, p, l.top, s);
      if r.Done? {
        LeavesOfMore(d, f, p, l.next, r.stack);
      }
    }
  }

  /** A run that ends with some fuel ends in the same way with more. */
  lemma {:induction false} FuelIrrelevant(d: Program, f: nat, g: nat, t: Chain, s: Chain)
    requires f <= g && Eval(d, f, t, s) != Deep
    ensures Eval(d, g, t, s) == Eval(d, f, t, s)
    decreases g
  {
    if f < g {
      FuelIrrelevant(d, f, g - 1, t, s);
      EvalMore(d, g - 1, t, s);
    }
  }

  // ----- the recursion schemes agree -----

  /** tailrec is linrec with nothing to do after the recursion. */
  lemma {:induction false} TailrecIsLinrec(d: Program, f: nat, p: Chain, t: Chain, r1: Chain, s: Chain)
    ensures LinrecOn(d, f, p, t, r1, Nil, s) == TailrecOn(d, f, p, t, r1, s)
    decreases f
  {
    hide Test;
    var r := Eval(d, f, r1, s);
    if r.Done? && f > 0 {
      TailrecIsLinrec(d, f - 1, p, t, r1, r.stack);
    }
  }

  /** The program [[P] [T]] [[R1] [R2]] of condlinrec. */
  function TwoClauses(p: Chain, t: Chain, r1: Chain, r2: Chain): (c: Chain)
    ensures c.Link?
  {
    Link(Lis(Link(Lis(p), Link(Lis(t), Nil))), Link(Lis(Link(Lis(r1), Link(Lis(r2), Nil))), Nil))
  }

  /** Every test that linrec comes to leaves a value, if it ends without error. */
  ghost predicate TestsLeaveValues(d: Program, f: nat, p: Chain, r1: Chain, s: Chain)
    decreases f
  {
    match Eval(d, f, p, s)
    case Done(s1) =>
      && s1 != Nil
      && (!Condition(s1) && f > 0 ==>
            (match Eval(d, f, r1, s) case Done(s2) => TestsLeaveValues(d, f - 1, p, r1, s2) case _ => true))
    case _ => true
  }

  function ClauseFor(v: Verdict, t: Chain, r1: Chain, r2: Chain): Choice {
    match v
    case Yes => Chosen(Link(Lis(t), Nil))
    case No => Chosen(Link(Lis(r1), Link(Lis(r2), Nil)))
    case Wrong => BadChoice
    case Lost => DeepChoice
  }

  lemma ChooseOfTwo(d: Program, f: nat, p: Chain, t: Chain, r1: Chain, r2: Chain, s: Chain)
    ensures Choose(d, f, TwoClauses(p, t, r1, r2), s) == ClauseFor(Test(d, f, p, s, false), t, r1, r2)
  {
    hide Test;
    var c := TwoClauses(p, t, r1, r2);
    assert Choose(d, f, c.next, s) == Chosen(Link(Lis(r1), Link(Lis(r2), Nil)));
  }

  /** Two-clause condlinrec is linrec, as long as the tests leave values. */
  lemma {:induction false} CondlinrecIsLinrec(d: Program, f: nat, p: Chain, t: Chain, r1: Chain, r2: Chain, s: Chain)
    requires TestsLeaveValues(d, f, p, r1, s)
    ensures NestOn(d, f, TwoClauses(p, t, r1, r2), s) == LinrecOn(d, f, p, t, r1, r2, s)
    decreases f
  {
    hide Eval, Choose;
    var c := TwoClauses(p, t, r1, r2);
    ChooseOfTwo(d, f, p, t, r1, r2, s);
    assert Test(d, f, p, s, false) == Test(d, f, p, s, true);
    match Test(d, f, p, s, true)
    case Yes => NestEnds(d, f, c, t, s);
    case No =>
      var r := Eval(d, f, r1, s);
      if r.Done? {
        NestOnce(d, f, c, r2, r.stack);
        if f > 0 {
          CondlinrecIsLinrec(d, f - 1, p, t, r1, r2, r.stack);
        }
      }
    case _ =>
  }

  lemma NestEnds(d: Program, f: nat, c: Chain, t: Chain, s: Chain)
    requires c.Link? && Choose(d, f, c, s) == Chosen(Link(Lis(t), Nil))
    ensures NestOn(d, f, c, s) == Eval(d, f, t, s)
  {
    hide Eval, Choose;
  }

  lemma NestOnce(d: Program, f: nat, c: Chain, r2: Chain, s: Chain)
    requires c.Link?
    ensures NestRest(d, f, c, Link(Lis(r2), Nil), s) ==
            if f == 0 then Deep
            else AndThen(d, f, NestOn(d, f - 1, c, s), r2)
  {
    hide Eval, NestOn;
    if f > 0 {
      var r := NestOn(d, f - 1, c, s);
      if r.Done? {
        assert forall q :: NestRest(d, f, c, Nil, q) == Done(q);
      }
    }
  }

  /** A run of linrec that ends well has had tests that left values: the condition is exact. */
  lemma {:induction false} LinrecLeavesValues(d: Program, f: nat, p: Chain, t: Chain, r1: Chain, r2: Chain, s: Chain)
    requires LinrecOn(d, f, p, t, r1, r2, s).Done?
    ensures TestsLeaveValues(d, f, p, r1, s)
    decreases f
  {
    hide Eval;
    if Test(d, f, p, s, true).No? {
      var r := Eval(d, f, r1, s);
      LinrecLeavesValues(d, f - 1, p, t, r1, r2, r.stack);
    }
  }

  /** linrec ends in r exactly if condlinrec does and the tests left values. */
  lemma LinrecExactly(d: Program, f: nat, p: Chain, t: Chain, r1: Chain, r2: Chain, s: Chain, r: Chain)
    ensures LinrecOn(d, f, p, t, r1, r2, s) == Done(r) <==>
            NestOn(d, f, TwoClauses(p, t, r1, r2), s) == Done(r) && TestsLeaveValues(d, f, p, r1, s)
  {
    if LinrecOn(d, f, p, t, r1, r2, s) == Done(r) {
      LinrecLeavesValues(d, f, p, t, r1, r2, s);
    }
    if TestsLeaveValues(d, f, p, r1, s) {
      CondlinrecIsLinrec(d, f, p, t, r1, r2, s);
    }
  }

  /** Where a test leaves nothing the two differ: with an empty test, executed on an empty stack, linrec
      fails while condlinrec goes on with its default. */
  lemma EmptyTestDiffers(d: Program)
    ensures LinrecOn(d, 1, Nil, Nil, Link(Atom(0, 1), Nil), Nil, Nil) == Error
    ensures NestOn(d, 1, TwoClauses(Nil, Nil, Link(Atom(0, 1), Nil), Nil), Nil) == Done(Link(Atom(0, 1), Nil))
  {
    var r1 := Link(Atom(0, 1), Nil);
    var one := Link(Atom(0, 1), Nil);
    var c := TwoClauses(Nil, Nil, r1, Nil);
    assert Eval(d, 1, r1, Nil) == Done(one) by {
      assert Exec(d, 1, Atom(0, 1), Nil) == Done(one);
    }
    assert Test(d, 0, Nil, one, true) == Yes && Test(d, 1, Nil, Nil, false) == No;
    assert TestsLeaveValues(d, 0, Nil, r1, one);
    CondlinrecIsLinrec(d, 0, Nil, Nil, r1, Nil, one);
    ChooseOfTwo(d, 1, Nil, Nil, r1, Nil, Nil);
    NestOnce(d, 1, c, Nil, one);
  }

  // ----- genrec -----

  /** The program [P] [T] [R1] i R2. */
  function GenrecProgram(p: Chain, t: Chain, r1: Chain, r2: Chain): (c: Chain)
    ensures Quote3(c)
  {
    Link(Lis(p), Link(Lis(t), Link(Lis(r1), Link(Proc(I), r2))))
  }

  /** Executing the pushed quotation is one more round of the recursion. */
  lemma AgainRuns(d: Program, f: nat, c: Chain, r2: Chain, s: Chain)
    requires Quote3(c)
    ensures f >= 2 ==>
              Eval(d, f, Link(Proc(I), r2), Link(Again(c), s)) ==
              AndThen(d, f, GenrecOn(d, f - 2, c, s), r2)
    ensures f < 2 ==> Eval(d, f, Link(Proc(I), r2), Link(Again(c), s)) == Deep
  {
    var q := Link(Lis(c), Link(Proc(GenrecAux), Nil));
    assert Exec(d, f, Proc(I), Link(Again(c), s)) == if f == 0 then Deep else Eval(d, f - 1, q, s);
    if f >= 1 {
      QuotedRuns(d, f - 1, c, s);
      assert Exec(d, f - 1, Proc(GenrecAux), Link(Lis(c), s)) == if f == 1 then Deep else GenrecOn(d, f - 2, c, s);
    }
  }

  lemma EvalOne(d: Program, f: nat, n: Node, s: Chain)
    ensures Eval(d, f, Link(n, Nil), s) == Exec(d, f, n, s)
  {
    hide Exec;
    var r := Exec(d, f, n, s);
    if r.Done? {
      assert Eval(d, f, Nil, r.stack) == r;
    }
  }

  lemma QuotedRuns(d: Program, f: nat, c: Chain, s: Chain)
    ensures Eval(d, f, Link(Lis(c), Link(Proc(GenrecAux), Nil)), s) == Exec(d, f, Proc(GenrecAux), Link(Lis(c), s))
  {
    var rest := Link(Proc(GenrecAux), Nil);
    assert Exec(d, f, Lis(c), s) == Done(Link(Lis(c), s));
    assert Eval(d, f, Link(Lis(c), rest), s) == Eval(d, f, rest, Link(Lis(c), s));
    EvalOne(d, f, Proc(GenrecAux), Link(Lis(c), s));
  }

  lemma {:induction false} LinrecToGenrec(d: Program, f: nat, p: Chain, t: Chain, r1: Chain, r2: Chain, s: Chain)
    requires LinrecOn(d, f, p, t, r1, r2, s) != Deep
    ensures GenrecOn(d, 2 * f, GenrecProgram(p, t, r1, r2), s) == LinrecOn(d, f, p, t, r1, r2, s)
    decreases f
  {
    hide Eval;
    var c := GenrecProgram(p, t, r1, r2);
    FuelIrrelevant(d, f, 2 * f, p, s);
    match Test(d, f, p, s, true)
    case Yes => FuelIrrelevant(d, f, 2 * f, t, s);
    case No =>
      FuelIrrelevant(d, f, 2 * f, r1, s);
      var r := Eval(d, f, r1, s);
      if r.Done? {
        LinrecToGenrec(d, f - 1, p, t, r1, r2, r.stack);
        AgainRuns(d, 2 * f, c, r2, r.stack);
        var q := LinrecOn(d, f - 1, p, t, r1, r2, r.stack);
        if q.Done? {
          FuelIrrelevant(d, f, 2 * f, r2, q.stack);
        }
      }
    case _ =>
  }

  lemma {:induction false} GenrecToLinrec(d: Program, f: nat, p: Chain, t: Chain, r1: Chain, r2: Chain, s: Chain)
    requires GenrecOn(d, f, GenrecProgram(p, t, r1, r2), s) != Deep
    ensures LinrecOn(d, f, p, t, r1, r2, s) == GenrecOn(d, f, GenrecProgram(p, t, r1, r2), s)
    decreases f
  {
    hide Eval;
    var c := GenrecProgram(p, t, r1, r2);
    if Test(d, f, p, s, true).No? {
      var r := Eval(d, f, r1, s);
      if r.Done? {
        AgainRuns(d, f, c, r2, r.stack);
        GenrecToLinrec(d, f - 2, p, t, r1, r2, r.stack);
        LinrecMore(d, f - 2, p, t, r1, r2, r.stack);
      }
    }
  }

  /** linrec with some fuel ends like genrec, whose last quotation is prefixed by i, with some fuel. */
  lemma GenrecIsLinrec(d: Program, p: Chain, t: Chain, r1: Chain, r2: Chain, s: Chain, r: Result)
    requires r != Deep
    ensures (exists f: nat :: LinrecOn(d, f, p, t, r1, r2, s) == r) <==>
            (exists f: nat :: GenrecOn(d, f, GenrecProgram(p, t, r1, r2), s) == r)
  {
    if f: nat :| LinrecOn(d, f, p, t, r1, r2, s) == r {
      LinrecToGenrec(d, f, p, t, r1, r2, s);
    }
    if f: nat :| GenrecOn(d, f, GenrecProgram(p, t, r1, r2), s) == r {
      GenrecToLinrec(d, f, p, t, r1, r2, s);
    }
  }

  // ----- trees -----

  function Concat(a: Chain, b: Chain): Chain {
    match a
    case Nil => b
    case Link(n, rest) => Link(n, Concat(rest, b))
  }

  /** The leaves of a tree from left to right. */
  function Flatten(item: Node): Chain
    decreases item
  {
    if item.Lis? then FlattenAll(item.l) else Link(item, Nil)
  }

  function FlattenAll(l: Chain): Chain
    decreases l
  {
    match l
    case Nil => Nil
    case Link(n, rest) => Concat(Flatten(n), FlattenAll(rest))
  }

  lemma {:induction false} EachConcat(d: Program, f: nat, p: Chain, a: Chain, b: Chain, s: Chain)
    ensures Each(d, f, p, Concat(a, b), s) ==
            var r := Each(d, f, p, a, s);
            if r.Done? then Each(d, f, p, b, r.stack) else r
    decreases a
  {
    hide Eval;
    if a.Link? {
      var r := Eval(d, f, p, Link(a.top, s));
      if r.Done? {
        EachConcat(d, f, p, a.next, b, r.stack);
      }
    }
  }

  /** treestep over a tree is step over its leaves. */
  lemma {:induction false} TreestepIsStep(d: Program, f: nat, p: Chain, item: Node, s: Chain)
    ensures Leaves(d, f, p, item, s) == Each(d, f, p, Flatten(item), s)
    decreases item
  {
    if item.Lis? {
      LeavesAreStep(d, f, p, item.l, s);
    } else {
      hide Eval;
      assert Flatten(item) == Link(item, Nil);
      var r := Eval(d, f, p, Link(item, s));
      if r.Done? {
        assert Each(d, f, p, Nil, r.stack) == Done(r.stack);
      }
    }
  }

  lemma {:induction false} LeavesAreStep(d: Program, f: nat, p: Chain, l: Chain, s: Chain)
    ensures LeavesOf(d, f, p, l, s) == Each(d, f, p, FlattenAll(l), s)
    decreases l
  {
    if l.Link? {
      hide Eval;
      TreestepIsStep(d, f, p, l.top, s);
      EachConcat(d, f, p, Flatten(l.top), FlattenAll(l.next), s);
      var r := Leaves(d, f, p, l.top, s);
      if r.Done? {
        LeavesAreStep(d, f, p, l.next, r.stack);
      }
    }
  }
}
