/** The interpreter loop and the combinators as they work on the registers of the machine: an explicit
    stack of continuations, tail calls that reuse the loop, and dumps that keep state across nested calls.
    Every method computes what plain recursive evaluation computes, and gives the registers back. */
module Machine {
  import opened Joy
  import opened Nesting

  /** How a method ends; after Failed the error handler has taken over and the registers are undefined. */
  datatype Status = Ok | Failed | Limit

  datatype Registers = Registers(conts: Chain, dump: Chain, dump1: Chain, dump2: Chain, dump3: Chain, dump4: Chain,
                                 dump5: Chain)

  ghost predicate Agrees(r: Status, spec: Result, s: Chain) {
    match r
    case Ok => spec == Done(s)
    case Failed => spec == Error
    case Limit => spec == Deep
  }

  ghost predicate Decides(r: Status, result: bool, spec: Verdict) {
    match r
    case Ok => spec == if result then Yes else No
    case Failed => spec == Wrong
    case Limit => spec == Lost
  }

  function Depth(c: Chain): nat {
    match c
    case Nil => 0
    case Link(_, rest) => 1 + Depth(rest)
  }

  lemma EvalLink(d: Program, f: nat, t: Chain, s: Chain)
    requires t.Link?
    ensures Eval(d, f, t, s) == AndThen(d, f, Exec(d, f, t.top, s), t.next)
  {
  }

  lemma EvalNil(d: Program, f: nat, s: Chain)
    ensures Eval(d, f, Nil, s) == Done(s)
  {
  }

  /** A call in last position is evaluation of its body. */
  lemma EvalTail(d: Program, f: nat, t: Chain, s: Chain)
    requires t.Link? && t.next == Nil && t.top.Usr? && Body(d, t.top.ent) != Nil && f > 0
    ensures Eval(d, f, t, s) == Eval(d, f - 1, Body(d, t.top.ent), s)
  {
    EvalLink(d, f, t, s);
  }

  class Machine {
    const d: Program
    var stck: Chain
    var conts: Chain
    var dump: Chain
    var dump1: Chain
    var dump2: Chain
    var dump3: Chain
    var dump4: Chain
    var dump5: Chain
    /** The greatest depth that conts has had. */
    ghost var peak: nat

    ghost function Regs(): Registers
      reads this
    {
      Registers(conts, dump, dump1, dump2, dump3, dump4, dump5)
    }

    constructor (d: Program)
      ensures this.d == d && stck == Nil && Regs() == Registers(Nil, Nil, Nil, Nil, Nil, Nil, Nil) && peak == 0
    {
      this.d := d;
      stck, conts, dump, dump1, dump2, dump3, dump4, dump5 := Nil, Nil, Nil, Nil, Nil, Nil, Nil, Nil;
      peak := 0;
    }

    /** The peak if what runs next nests n deep. */
    ghost function Reach(n: nat): nat
      reads this
    {
      Raised(peak, Depth(conts), n)
    }

    /** Executes a term.  A call in last position replaces the term, so that it nests no deeper than the body of
        what is called; what the combinators and the other calls execute nests on top of the term. */
    method ExecTerm(term: Chain, fuel: nat) returns (r: Status)
      modifies this
      ensures Agrees(r, Eval(d, fuel, term, old(stck)), stck)
      ensures r.Ok? ==> Regs() == old(Regs())
      ensures peak == old(Reach(Nest(d, fuel, term, stck)))
      decreases fuel, 1
    {
      hide Eval, Nest;
      var n, f: nat := term, fuel;
      while true
        invariant f <= fuel && Regs() == old(Regs()) && Eval(d, f, n, stck) == Eval(d, fuel, term, old(stck))
        invariant Reach(Nest(d, f, n, stck)) == old(Reach(Nest(d, fuel, term, stck)))
        decreases f
      {
        if n == Nil {
          EvalNil(d, f, stck);
          NestNil(d, f, stck);
          return Ok;
        }
        NestLink(d, f, n, stck);
        conts := Link(Lis(n), conts);
        peak := if Depth(conts) > peak then Depth(conts) else peak;
        var tail: bool;
        r, tail, n := ExecNodes(f);
        if !tail {
          return;
        }
        f := f - 1;
      }
    }

    /** Executes the nodes of the current continuation up to its end or to a call in last position, whose
        body it returns. */
    method ExecNodes(f: nat) returns (r: Status, tail: bool, body: Chain)
      requires conts.Link? && conts.top.Lis? && peak >= Depth(conts)
      modifies this
      ensures tail ==>
                && f > 0 && r.Ok? && Regs() == old(Regs()).(conts := old(conts).next)
                && Eval(d, f, old(conts).top.l, old(stck)) == Eval(d, f - 1, body, stck)
                && Reach(Nest(d, f - 1, body, stck)) ==
                   Raised(old(peak), Depth(old(conts).next), Nest(d, f, old(conts).top.l, old(stck)))
      ensures !tail ==> Agrees(r, Eval(d, f, old(conts).top.l, old(stck)), stck)
      ensures !tail && r.Ok? ==> Regs() == old(Regs()).(conts := old(conts).next)
      ensures !tail ==> peak == Raised(old(peak), Depth(old(conts).next), Nest(d, f, old(conts).top.l, old(stck)))
      decreases f, 0
    {
      hide Eval, Nest, Apply, NestApply;
      ghost var t, s, at := conts.top.l, stck, Depth(conts.next);
      tail, body := false, Nil;
      while conts.top.l != Nil
        invariant conts.Link? && conts.top.Lis? && Regs() == old(Regs()).(conts := Link(conts.top, old(conts).next))
        invariant Eval(d, f, conts.top.l, stck) == Eval(d, f, t, s)
        invariant peak >= at + 1 && Raised(peak, at, Nest(d, f, conts.top.l, stck)) == Raised(old(peak), at, Nest(d, f, t, s))
        decreases conts.top.l
      {
        var l := conts.top.l;
        EvalLink(d, f, l, stck);
        NestLink(d, f, l, stck);
        var p := l.top;
        conts := Link(Lis(l.next), conts.next);
        match p {
          case Usr(i) =>
            if Body(d, i) == Nil {
              if d.undeferror {
                return Failed, false, Nil;
              }
            } else if f == 0 {
              return Limit, false, Nil;
            } else if conts.top.l == Nil {
              EvalTail(d, f, l, stck);
              conts := conts.next;
              return Ok, true, Body(d, i);
            } else {
              r := ExecTerm(Body(d, i), f - 1);
              if !r.Ok? {
                return r, false, Nil;
              }
            }
          case Proc(op) =>
            if f == 0 {
              return Limit, false, Nil;
            }
            r := Call(op, f - 1);
            if !r.Ok? {
              return r, false, Nil;
            }
          case _ =>
            stck := Link(p, stck);
        }
      }
      EvalNil(d, f, stck);
      NestNil(d, f, stck);
      conts := conts.next;
      r := Ok;
    }

    /** Runs a builtin. */
    method Call(p: Prim, f: nat) returns (r: Status)
      modifies this
      ensures Agrees(r, Apply(d, f, p, old(stck)), stck)
      ensures r.Ok? ==> Regs() == old(Regs())
      ensures peak == old(Reach(NestApply(d, f, p, stck)))
      decreases f, 10
    {
      match p {
        case Builtin(k) =>
          match d.builtin(k, stck) {
            case None => r := Failed;
            case Some(s) =>
              stck := s;
              r := Ok;
          }
        case Cons => r := CallCons(f);
        case I => r := CallI(f);
        case Dip => r := CallDip(f);
        case Ifte => r := CallIfte(f);
        case While => r := CallWhile(f);
        case Step => r := CallStep(f);
        case Map => r := CallMap(f);
        case Filter => r := CallFilter(f);
        case Construct => r := CallConstruct(f);
        case Cleave => r := CallCleave(f);
        case Linrec => r := CallLinrec(f);
        case Tailrec => r := CallTailrec(f);
        case Binrec => r := CallBinrec(f);
        case Genrec => r := CallGenrec(f);
        case GenrecAux => r := CallGenrecAux(f);
        case Condnestrec => r := CallCondnestrec(f);
        case Treestep => r := CallTreestep(f);
      }
    }

    method SaveStack()
      modifies this`dump
      ensures dump == Link(Lis(stck), old(dump))
    {
      dump := Link(Lis(stck), dump);
    }

    method CallCons(ghost f: nat) returns (r: Status)
      modifies this`stck
      ensures Agrees(r, Apply(d, f, Joy.Cons, old(stck)), stck)
    {
      if stck == Nil || stck.next == Nil || !stck.top.Lis? {
        return Failed;
      }
      stck := Link(Lis(Link(stck.next.top, stck.top.l)), stck.next.next);
      r := Ok;
    }

    /** i: executes a quotation. */
    method CallI(f: nat) returns (r: Status)
      modifies this
      ensures Agrees(r, Apply(d, f, I, old(stck)), stck)
      ensures r.Ok? ==> Regs() == old(Regs())
      ensures peak == old(Reach(NestApply(d, f, I, stck)))
      decreases f, 8
    {
      hide Eval, Nest;
      if !Quote1(stck) {
        return Failed;
      }
      SaveStack();
      stck := stck.next;
      r := ExecTerm(dump.top.l.top.l, f);
      if r.Ok? {
        dump := dump.next;
      }
    }

    /** dip: executes a quotation below the second node. */
    method CallDip(f: nat) returns (r: Status)
      modifies this
      ensures Agrees(r, Apply(d, f, Dip, old(stck)), stck)
      ensures r.Ok? ==> Regs() == old(Regs())
      ensures peak == old(Reach(NestApply(d, f, Dip, stck)))
      decreases f, 8
    {
      hide Eval, Nest;
      if !Quote1(stck) || stck.next == Nil {
        return Failed;
      }
      SaveStack();
      stck := stck.next.next;
      r := ExecTerm(dump.top.l.top.l, f);
      if r.Ok? {
        stck := Link(dump.top.l.next.top, stck);
        dump := dump.next;
      }
    }

    /** Executes a test and looks at the top of the stack. */
    method RunTest(t: Chain, f: nat, must: bool) returns (r: Status, result: bool)
      modifies this
      ensures Decides(r, result, Test(d, f, t, old(stck), must))
      ensures r.Ok? ==> Regs() == old(Regs())
      ensures peak == old(Reach(Nest(d, f, t, stck)))
      decreases f, 2
    {
      hide Eval, Nest;
      result := false;
      r := ExecTerm(t, f);
      if r.Ok? {
        if must && stck == Nil {
          return Failed, false;
        }
        result := Condition(stck);
      }
    }

    method CallIfte(f: nat) returns (r: Status)
      modifies this
      ensures Agrees(r, Apply(d, f, Ifte, old(stck)), stck)
      ensures r.Ok? ==> Regs() == old(Regs())
      ensures peak == old(Reach(NestApply(d, f, Ifte, stck)))
      decreases f, 8
    {
      hide Eval, Nest, Test;
      if !Quote3(stck) {
        return Failed;
      }
      SaveStack();
      stck := dump.top.l.next.next.next;
      var result;
      r, result := RunTest(dump.top.l.next.next.top.l, f, false);
      if !r.Ok? {
        return;
      }
      stck := dump.top.l.next.next.next;
      r := ExecTerm(if result then dump.top.l.next.top.l else dump.top.l.top.l, f);
      if r.Ok? {
        dump := dump.next;
      }
    }

    /** while: the stack to go on with is kept in the saved stack. */
    method CallWhile(f: nat) returns (r: Status)
      modifies this
      ensures Agrees(r, Apply(d, f, While, old(stck)), stck)
      ensures r.Ok? ==> Regs() == old(Regs())
      ensures peak == old(Reach(NestApply(d, f, While, stck)))
      decreases f, 8
    {
      hide Eval, Nest, Test;
      if !Quote2(stck) {
        return Failed;
      }
      ghost var b, p, s := stck.next.top.l, stck.top.l, stck.next.next;
      SaveStack();
      var g: nat := f;
      while true
        invariant g <= f && Saved() && Regs() == old(Regs()).(dump := Link(dump.top, old(dump)))
        invariant Quote2(dump.top.l) && dump.top.l.next.top.l == b && dump.top.l.top.l == p
        invariant Loop(d, g, b, p, dump.top.l.next.next) == Loop(d, f, b, p, s)
        invariant Reach(NestLoop(d, g, b, p, dump.top.l.next.next)) == old(Reach(NestLoop(d, f, b, p, s)))
        decreases g
      {
        stck := dump.top.l.next.next;
        var result;
        r, result := RunTest(dump.top.l.next.top.l, g, true);
        if !r.Ok? {
          return;
        }
        if !result {
          break;
        }
        stck := dump.top.l.next.next;
        r := ExecTerm(dump.top.l.top.l, g);
        if !r.Ok? {
          return;
        }
        if g == 0 {
          return Limit;
        }
        g := g - 1;
        dump := Link(Lis(Link(dump.top.l.top, Link(dump.top.l.next.top, stck))), dump.next);
      }
      stck := dump.top.l.next.next;
      dump := dump.next;
      r := Ok;
    }

    /** A stack is on the dump. */
    ghost predicate Saved()
      reads this
    {
      dump.Link? && dump.top.Lis?
    }

    method CallStep(f: nat) returns (r: Status)
      modifies this
      ensures Agrees(r, Apply(d, f, Step, old(stck)), stck)
      ensures r.Ok? ==> Regs() == old(Regs())
      ensures peak == old(Reach(NestApply(d, f, Step, stck)))
      decreases f, 8
    {
      hide Eval, Nest;
      if !Quote2(stck) {
        return Failed;
      }
      ghost var p, l, s := stck.top.l, stck.next.top.l, stck.next.next;
      SaveStack();
      stck := stck.next.next;
      dump1 := Link(Lis(dump.top.l.next.top.l), dump1);
      while dump1.top.l != Nil
        invariant Saved() && Quote1(dump.top.l) && dump.top.l.top.l == p && dump1.Link? && dump1.top.Lis?
        invariant Regs() == old(Regs()).(dump := Link(dump.top, old(dump)), dump1 := Link(dump1.top, old(dump1)))
        invariant Each(d, f, p, dump1.top.l, stck) == Each(d, f, p, l, s)
        invariant Reach(NestEach(d, f, p, dump1.top.l, stck)) == old(Reach(NestEach(d, f, p, l, s)))
        decreases dump1.top.l
      {
        stck := Link(dump1.top.l.top, stck);
        r := ExecTerm(dump.top.l.top.l, f);
        if !r.Ok? {
          return;
        }
        dump1 := Link(Lis(dump1.top.l.next), dump1.next);
      }
      dump1 := dump1.next;
      dump := dump.next;
      r := Ok;
    }

    method CallMap(f: nat) returns (r: Status)
      modifies this
      ensures Agrees(r, Apply(d, f, Map, old(stck)), stck)
      ensures r.Ok? ==> Regs() == old(Regs())
      ensures peak == old(Reach(NestApply(d, f, Map, stck)))
      decreases f, 8
    {
      hide Eval, Nest, MapEach, NestMap;
      if !Quote2(stck) {
        return Failed;
      }
      SaveStack();
      dump1 := Link(Lis(dump.top.l.next.top.l), dump1);
      dump2 := Link(Lis(Nil), dump2);
      dump3 := Link(Lis(Nil), dump3);
      r := MapAll(f);
      if !r.Ok? {
        return;
      }
      stck := Link(Lis(dump2.top.l), dump.top.l.next.next);
      dump3 := dump3.next;
      dump2 := dump2.next;
      dump1 := dump1.next;
      dump := dump.next;
    }

    /** Executes the quotation on each node of the list on dump1 and appends the results to the list on dump2. */
    method MapAll(f: nat) returns (r: Status)
      requires Saved() && Quote2(dump.top.l) && dump1.Link? && dump1.top.Lis?
      requires dump2.Link? && dump2.top.Lis? && dump3.Link?
      modifies this
      ensures r.Ok? ==>
                && dump1.Link? && dump2.Link? && dump2.top.Lis? && dump3.Link?
                && Regs() == old(Regs()).(dump1 := Link(dump1.top, old(dump1).next),
                                          dump2 := Link(dump2.top, old(dump2).next),
                                          dump3 := Link(dump3.top, old(dump3).next))
      ensures var q := old(dump.top.l);
              Agrees(r, MapEach(d, f, q.top.l, old(dump1).top.l, q.next.next, old(dump2).top.l),
                     if r.Ok? then Link(Lis(dump2.top.l), q.next.next) else Nil)
      ensures peak == old(Reach(NestMap(d, f, dump.top.l.top.l, dump1.top.l, dump.top.l.next.next)))
      decreases f, 7
    {
      hide Eval, Nest, Test;
      ghost var p, l, s, done := dump.top.l.top.l, dump1.top.l, dump.top.l.next.next, dump2.top.l;
      while dump1.top.l != Nil
        invariant Saved() && Quote2(dump.top.l) && dump.top.l.top.l == p && dump.top.l.next.next == s
        invariant dump1.Link? && dump1.top.Lis? && dump2.Link? && dump2.top.Lis? && dump3.Link?
        invariant Regs() == old(Regs()).(dump1 := Link(dump1.top, old(dump1).next),
                                         dump2 := Link(dump2.top, old(dump2).next), dump3 := Link(dump3.top, old(dump3).next))
        invariant MapEach(d, f, p, dump1.top.l, s, dump2.top.l) == MapEach(d, f, p, l, s, done)
        invariant Reach(NestMap(d, f, p, dump1.top.l, s)) == old(Reach(NestMap(d, f, p, l, s)))
        decreases dump1.top.l
      {
        stck := Link(dump1.top.l.top, dump.top.l.next.next);
        r := ExecTerm(dump.top.l.top.l, f);
        if !r.Ok? {
          return;
        }
        if stck == Nil {
          return Failed;
        }
        LinkResult(stck.top);
        dump1 := Link(Lis(dump1.top.l.next), dump1.next);
      }
      r := Ok;
    }

    /** Appends a node to the list that dump2 heads and whose last node is at dump3. */
    method LinkResult(temp: Node)
      requires dump2.Link? && dump2.top.Lis? && dump3.Link?
      modifies this`dump2, this`dump3
      ensures dump2 == Link(Lis(Snoc(old(dump2).top.l, temp)), old(dump2).next)
      ensures dump3 == Link(Lis(Link(temp, Nil)), old(dump3).next)
    {
      if dump2.top.l == Nil {
        dump2 := Link(Lis(Link(temp, Nil)), dump2.next);
        dump3 := Link(dump2.top, dump3.next);
      } else {
        dump2 := Link(Lis(Snoc(dump2.top.l, temp)), dump2.next);
        dump3 := Link(Lis(Link(temp, Nil)), dump3.next);
      }
    }

    method CallFilter(f: nat) returns (r: Status)
      modifies this
      ensures Agrees(r, Apply(d, f, Filter, old(stck)), stck)
      ensures r.Ok? ==> Regs() == old(Regs())
      ensures peak == old(Reach(NestApply(d, f, Filter, stck)))
      decreases f, 8
    {
      hide Eval, Nest, Test, FilterEach, NestFilter;
      if !Quote2(stck) {
        return Failed;
      }
      SaveStack();
      dump1 := Link(Lis(dump.top.l.next.top.l), dump1);
      dump2 := Link(Lis(Nil), dump2);
      dump3 := Link(Lis(Nil), dump3);
      r := FilterAll(f);
      if !r.Ok? {
        return;
      }
      stck := Link(Lis(dump2.top.l), dump.top.l.next.next);
      dump3 := dump3.next;
      dump2 := dump2.next;
      dump1 := dump1.next;
      dump := dump.next;
    }

    /** Appends the nodes of the list on dump1 that pass the test to the list on dump2. */
    method FilterAll(f: nat) returns (r: Status)
      requires Saved() && Quote2(dump.top.l) && dump1.Link? && dump1.top.Lis?
      requires dump2.Link? && dump2.top.Lis? && dump3.Link?
      modifies this
      ensures r.Ok? ==>
                && dump1.Link? && dump2.Link? && dump2.top.Lis? && dump3.Link?
                && Regs() == old(Regs()).(dump1 := Link(dump1.top, old(dump1).next),
                                          dump2 := Link(dump2.top, old(dump2).next),
                                          dump3 := Link(dump3.top, old(dump3).next))
      ensures var q := old(dump.top.l);
              Agrees(r, FilterEach(d, f, q.top.l, old(dump1).top.l, q.next.next, old(dump2).top.l),
                     if r.Ok? then Link(Lis(dump2.top.l), q.next.next) else Nil)
      ensures peak == old(Reach(NestFilter(d, f, dump.top.l.top.l, dump1.top.l, dump.top.l.next.next)))
      decreases f, 7
    {
      hide Eval, Nest, Test;
      ghost var p, l, s, done := dump.top.l.top.l, dump1.top.l, dump.top.l.next.next, dump2.top.l;
      while dump1.top.l != Nil
        invariant Saved() && Quote2(dump.top.l) && dump.top.l.top.l == p && dump.top.l.next.next == s
        invariant dump1.Link? && dump1.top.Lis? && dump2.Link? && dump2.top.Lis? && dump3.Link?
        invariant Regs() == old(Regs()).(dump1 := Link(dump1.top, old(dump1).next),
                                         dump2 := Link(dump2.top, old(dump2).next), dump3 := Link(dump3.top, old(dump3).next))
        invariant FilterEach(d, f, p, dump1.top.l, s, dump2.top.l) == FilterEach(d, f, p, l, s, done)
        invariant Reach(NestFilter(d, f, p, dump1.top.l, s)) == old(Reach(NestFilter(d, f, p, l, s)))
        decreases dump1.top.l
      {
        stck := Link(dump1.top.l.top, dump.top.l.next.next);
        var result;
        r, result := RunTest(dump.top.l.top.l, f, true);
        if !r.Ok? {
          return;
        }
        if result {
          LinkResult(dump1.top.l.top);
        }
        dump1 := Link(Lis(dump1.top.l.next), dump1.next);
      }
      r := Ok;
    }

    /** construct: dump2 itself is the stack that the results are pushed on, and dump1 keeps the real one. */
    method CallConstruct(f: nat) returns (r: Status)
      modifies this
      ensures Agrees(r, Apply(d, f, Construct, old(stck)), stck)
      ensures r.Ok? ==> Regs() == old(Regs())
      ensures peak == old(Reach(NestApply(d, f, Construct, stck)))
      decreases f, 8
    {
      hide Eval, Nest, Collect, NestCollect;
      if !Quote2(stck) {
        return Failed;
      }
      SaveStack();
      stck := dump.top.l.next.next;
      dump1 := Link(Lis(dump2), dump1);
      dump2 := stck;
      r := ExecTerm(dump.top.l.next.top.l, f);
      if !r.Ok? {
        return;
      }
      dump3 := Link(Lis(stck), dump3);
      dump4 := Link(Lis(dump.top.l.top.l), dump4);
      r := CollectAll(f);
      if !r.Ok? {
        return;
      }
      dump4 := dump4.next;
      dump3 := dump3.next;
      stck := dump2;
      dump2 := dump1.top.l;
      dump1 := dump1.next;
      dump := dump.next;
    }

    /** Executes each quotation on dump4 on the stack that dump3 keeps, and pushes the results on dump2. */
    method CollectAll(f: nat) returns (r: Status)
      requires dump3.Link? && dump3.top == Lis(stck) && dump4.Link? && dump4.top.Lis?
      modifies this
      ensures Agrees(r, Collect(d, f, old(dump4).top.l, old(stck), old(dump2)), dump2)
      ensures r.Ok? ==> dump4.Link? && Regs() == old(Regs()).(dump2 := dump2, dump4 := Link(dump4.top, old(dump4).next))
      ensures peak == old(Reach(NestCollect(d, f, dump4.top.l, stck)))
      decreases f, 7
    {
      hide Eval, Nest;
      ghost var l, s, out := dump4.top.l, stck, dump2;
      while dump4.top.l != Nil
        invariant stck == s && dump4.Link? && dump4.top.Lis?
        invariant Regs() == old(Regs()).(dump2 := dump2, dump4 := Link(dump4.top, old(dump4).next))
        invariant Collect(d, f, dump4.top.l, s, dump2) == Collect(d, f, l, s, out)
        invariant Reach(NestCollect(d, f, dump4.top.l, s)) == old(Reach(NestCollect(d, f, l, s)))
        decreases dump4.top.l
      {
        if !dump4.top.l.top.Lis? {
          return Failed;
        }
        r := ExecTerm(dump4.top.l.top.l, f);
        if !r.Ok? {
          return;
        }
        dump2 := Link(Top(stck), dump2);
        stck := dump3.top.l;
        dump4 := Link(Lis(dump4.top.l.next), dump4.next);
      }
      r := Ok;
    }

    /** cleave: both results are pushed on dump1 and cut off from it. */
    method CallCleave(f: nat) returns (r: Status)
      modifies this
      ensures Agrees(r, Apply(d, f, Cleave, old(stck)), stck)
      ensures r.Ok? ==> Regs() == old(Regs())
      ensures peak == old(Reach(NestApply(d, f, Cleave, stck)))
      decreases f, 8
    {
      hide Eval, Nest;
      if !Quote2(stck) || stck.next.next == Nil {
        return Failed;
      }
      SaveStack();
      stck := dump.top.l.next.next;
      r := ExecTerm(dump.top.l.next.top.l, f);
      if !r.Ok? {
        return;
      }
      dump1 := Link(Top(stck), dump1);
      stck := dump.top.l.next.next;
      r := ExecTerm(dump.top.l.top.l, f);
      if !r.Ok? {
        return;
      }
      dump1 := Link(Top(stck), dump1);
      stck := dump1;
      dump1 := dump1.next.next;
      stck := Link(stck.top, Link(stck.next.top, dump.top.l.next.next.next));
      dump := dump.next;
      r := Ok;
    }

    // ----- recursion -----

    /** Executes a test on the current stack, which dump1 keeps. */
    method TestAndRestore(t: Chain, f: nat, must: bool) returns (r: Status, result: bool)
      modifies this
      ensures Decides(r, result, Test(d, f, t, old(stck), must))
      ensures r.Ok? ==> Regs() == old(Regs()) && stck == old(stck)
      ensures peak == old(Reach(Nest(d, f, t, stck)))
      decreases f, 3
    {
      hide Test, Nest;
      dump1 := Link(Lis(stck), dump1);
      r, result := RunTest(t, f, must);
      if r.Ok? {
        stck := dump1.top.l;
        dump1 := dump1.next;
      }
    }

    method LinrecAux(f: nat) returns (r: Status)
      requires Saved() && Quote4(dump.top.l)
      modifies this
      ensures var q := old(dump.top.l);
              Agrees(r, LinrecOn(d, f, q.next.next.next.top.l, q.next.next.top.l, q.next.top.l, q.top.l, old(stck)), stck)
      ensures r.Ok? ==> Regs() == old(Regs())
      ensures peak == old(Reach(NestLinrec(d, f, dump.top.l.next.next.next.top.l, dump.top.l.next.next.top.l, dump.top.l.next.top.l,
                                         dump.top.l.top.l, stck)))
      decreases f, 4
    {
      hide Eval, Nest, Test;
      var result;
      r, result := TestAndRestore(dump.top.l.next.next.next.top.l, f, true);
      if !r.Ok? {
        return;
      }
      if result {
        r := ExecTerm(dump.top.l.next.next.top.l, f);
      } else {
        r := ExecTerm(dump.top.l.next.top.l, f);
        if !r.Ok? {
          return;
        }
        if f == 0 {
          return Limit;
        }
        r := LinrecAux(f - 1);
        if !r.Ok? {
          return;
        }
        r := ExecTerm(dump.top.l.top.l, f);
      }
    }

    method CallLinrec(f: nat) returns (r: Status)
      modifies this
      ensures Agrees(r, Apply(d, f, Linrec, old(stck)), stck)
      ensures r.Ok? ==> Regs() == old(Regs())
      ensures peak == old(Reach(NestApply(d, f, Linrec, stck)))
      decreases f, 8
    {
      hide LinrecOn, NestLinrec;
      if !Quote4(stck) {
        return Failed;
      }
      SaveStack();
      stck := dump.top.l.next.next.next.next;
      r := LinrecAux(f);
      if r.Ok? {
        dump := dump.next;
      }
    }

    /** tailrec: the recursion is a loop. */
    method TailrecAux(f: nat) returns (r: Status)
      requires Saved() && Quote3(dump.top.l)
      modifies this
      ensures var q := old(dump.top.l);
              Agrees(r, TailrecOn(d, f, q.next.next.top.l, q.next.top.l, q.top.l, old(stck)), stck)
      ensures r.Ok? ==> Regs() == old(Regs())
      ensures peak == old(Reach(NestTailrec(d, f, dump.top.l.next.next.top.l, dump.top.l.next.top.l, dump.top.l.top.l, stck)))
      decreases f, 4
    {
      hide Eval, Nest, Test;
      var g: nat := f;
      ghost var q := dump.top.l;
      while true
        invariant g <= f && Regs() == old(Regs())
        invariant TailrecOn(d, g, q.next.next.top.l, q.next.top.l, q.top.l, stck) ==
                  TailrecOn(d, f, q.next.next.top.l, q.next.top.l, q.top.l, old(stck))
        invariant Reach(NestTailrec(d, g, q.next.next.top.l, q.next.top.l, q.top.l, stck)) ==
                  old(Reach(NestTailrec(d, f, q.next.next.top.l, q.next.top.l, q.top.l, stck)))
        decreases g
      {
        var result;
        r, result := TestAndRestore(dump.top.l.next.next.top.l, g, true);
        if !r.Ok? {
          return;
        }
        if result {
          r := ExecTerm(dump.top.l.next.top.l, g);
          return;
        }
        r := ExecTerm(dump.top.l.top.l, g);
        if !r.Ok? {
          return;
        }
        if g == 0 {
          return Limit;
        }
        g := g - 1;
      }
    }

    method CallTailrec(f: nat) returns (r: Status)
      modifies this
      ensures Agrees(r, Apply(d, f, Tailrec, old(stck)), stck)
      ensures r.Ok? ==> Regs() == old(Regs())
      ensures peak == old(Reach(NestApply(d, f, Tailrec, stck)))
      decreases f, 8
    {
      hide TailrecOn, NestTailrec;
      if !Quote3(stck) {
        return Failed;
      }
      SaveStack();
      stck := dump.top.l.next.next.next;
      r := TailrecAux(f);
      if r.Ok? {
        dump := dump.next;
      }
    }

    /** binrec: the second intermediate waits on dump2 while the first is worked on. */
    method BinrecAux(f: nat) returns (r: Status)
      requires Saved() && Quote4(dump.top.l)
      modifies this
      ensures var q := old(dump.top.l);
              Agrees(r, BinrecOn(d, f, q.next.next.next.top.l, q.next.next.top.l, q.next.top.l, q.top.l, old(stck)), stck)
      ensures r.Ok? ==> Regs() == old(Regs())
      ensures peak == old(Reach(NestBinrec(d, f, dump.top.l.next.next.next.top.l, dump.top.l.next.next.top.l, dump.top.l.next.top.l,
                                         dump.top.l.top.l, stck)))
      decreases f, 4
    {
      hide Eval, Nest, Test;
      var result;
      r, result := TestAndRestore(dump.top.l.next.next.next.top.l, f, false);
      if !r.Ok? {
        return;
      }
      if result {
        r := ExecTerm(dump.top.l.next.next.top.l, f);
      } else {
        r := ExecTerm(dump.top.l.next.top.l, f);
        if !r.Ok? {
          return;
        }
        if f == 0 {
          return Limit;
        }
        r := BinrecHalves(f);
      }
    }

    /** Works on both intermediates and combines the results. */
    method BinrecHalves(f: nat) returns (r: Status)
      requires Saved() && Quote4(dump.top.l) && f > 0
      modifies this
      ensures var q := old(dump.top.l);
              Agrees(r, HalvesOn(d, f, q.next.next.next.top.l, q.next.next.top.l, q.next.top.l, q.top.l, old(stck)), stck)
      ensures r.Ok? ==> Regs() == old(Regs())
      ensures peak == old(Reach(NestHalves(d, f, dump.top.l.next.next.next.top.l, dump.top.l.next.next.top.l, dump.top.l.next.top.l,
                                           dump.top.l.top.l, stck)))
      decreases f, 3
    {
      hide Eval, Nest, BinrecOn, NestBinrec;
      dump2 := Link(Top(stck), dump2);
      stck := Rest(stck);
      r := BinrecAux(f - 1);
      if !r.Ok? {
        return;
      }
      stck := Link(dump2.top, stck);
      dump2 := dump2.next;
      r := BinrecAux(f - 1);
      if !r.Ok? {
        return;
      }
      r := ExecTerm(dump.top.l.top.l, f);
    }

    method CallBinrec(f: nat) returns (r: Status)
      modifies this
      ensures Agrees(r, Apply(d, f, Binrec, old(stck)), stck)
      ensures r.Ok? ==> Regs() == old(Regs())
      ensures peak == old(Reach(NestApply(d, f, Binrec, stck)))
      decreases f, 8
    {
      hide BinrecOn, NestBinrec;
      if !Quote4(stck) {
        return Failed;
      }
      SaveStack();
      stck := dump.top.l.next.next.next.next;
      r := BinrecAux(f);
      if r.Ok? {
        dump := dump.next;
      }
    }

    method CallGenrec(f: nat) returns (r: Status)
      modifies this
      ensures Agrees(r, Apply(d, f, Genrec, old(stck)), stck)
      ensures r.Ok? ==> Regs() == old(Regs())
      ensures peak == old(Reach(NestApply(d, f, Genrec, stck)))
      decreases f, 9
    {
      hide GenrecOn, NestGenrec;
      if !Quote4(stck) {
        return Failed;
      }
      ghost var s := stck;
      r := CallCons(f);
      r := CallCons(f);
      r := CallCons(f);
      assert stck.top.l == Link(s.next.next.next.top, Link(s.next.next.top, Link(s.next.top, s.top.l)));
      r := CallGenrecAux(f);
    }

    /** genrec: the recursion goes on where the quotation that it pushes is executed. */
    method CallGenrecAux(f: nat) returns (r: Status)
      modifies this
      ensures Agrees(r, Apply(d, f, GenrecAux, old(stck)), stck)
      ensures r.Ok? ==> Regs() == old(Regs())
      ensures peak == old(Reach(NestApply(d, f, GenrecAux, stck)))
      decreases f, 8
    {
      hide Eval, Nest, Test, NestAgain;
      if !Quote1(stck) || !Quote3(stck.top.l) {
        return Failed;
      }
      SaveStack();
      stck := stck.next;
      var result;
      r, result := RunTest(dump.top.l.top.l.top.l, f, true);
      if !r.Ok? {
        return;
      }
      stck := dump.top.l.next;
      if result {
        r := ExecTerm(dump.top.l.top.l.next.top.l, f);
      } else {
        r := GenrecAgain(f);
      }
      if r.Ok? {
        dump := dump.next;
      }
    }

    /** Prepares the recursion of genrec, pushes the quotation that goes on with it, and leaves the rest to R2. */
    method GenrecAgain(f: nat) returns (r: Status)
      requires Saved() && Quote1(dump.top.l) && Quote3(dump.top.l.top.l)
      modifies this
      ensures Agrees(r, AgainOn(d, f, old(dump.top.l.top.l), old(stck)), stck)
      ensures r.Ok? ==> Regs() == old(Regs())
      ensures peak == old(Reach(NestAgain(d, f, dump.top.l.top.l, stck)))
      decreases f, 2
    {
      hide Eval, Nest;
      r := ExecTerm(dump.top.l.top.l.next.next.top.l, f);
      if !r.Ok? {
        return;
      }
      stck := Link(Lis(dump.top.l.top.l), stck);
      stck := Link(Lis(Link(Proc(GenrecAux), Nil)), stck);
      r := CallCons(f);
      r := ExecTerm(dump.top.l.top.l.next.next.next, f);
    }

    /** Looks for the clause to take; dump1 holds the clauses from there on, dump2 the stack. */
    method FindClause(f: nat) returns (r: Status, result: bool)
      requires dump1.Link? && dump1.top.Lis? && dump1.top.l.Link? && dump2.Link? && dump2.top.Lis?
      modifies this
      ensures r.Ok? ==>
                && dump1.Link? && dump1.top.Lis? && Quote1(dump1.top.l) && Regs() == old(Regs()).(dump1 := Link(dump1.top, old(dump1).next))
                && (result ==> dump1.top.l.top.l.Link?)
                && Choose(d, f, old(dump1).top.l, old(dump2).top.l) ==
                   Chosen(if result then dump1.top.l.top.l.next else dump1.top.l.top.l)
      ensures r.Failed? ==> Choose(d, f, old(dump1).top.l, old(dump2).top.l) == BadChoice
      ensures r.Limit? ==> Choose(d, f, old(dump1).top.l, old(dump2).top.l) == DeepChoice
      ensures peak == old(Reach(NestChoose(d, f, dump1.top.l, dump2.top.l)))
      decreases f, 4
    {
      hide Eval, Nest, Test;
      ghost var c, s := dump1.top.l, dump2.top.l;
      result := false;
      while dump1.top.l.next != Nil
        invariant dump1.Link? && dump1.top.Lis? && dump1.top.l.Link? && !result
        invariant Regs() == old(Regs()).(dump1 := Link(dump1.top, old(dump1).next))
        invariant Choose(d, f, dump1.top.l, s) == Choose(d, f, c, s)
        invariant Reach(NestChoose(d, f, dump1.top.l, s)) == old(Reach(NestChoose(d, f, c, s)))
        decreases dump1.top.l
      {
        if !dump1.top.l.top.Lis? || !Quote1(dump1.top.l.top.l) {
          return Failed, false;
        }
        stck := dump2.top.l;
        r, result := RunTest(dump1.top.l.top.l.top.l, f, false);
        if !r.Ok? {
          return;
        }
        if result {
          return;
        }
        dump1 := Link(Lis(dump1.top.l.next), dump1.next);
      }
      r := if dump1.top.l.top.Lis? then Ok else Failed;
    }

    /** condnestrec: dump1 holds the clauses, dump2 the stack and dump3 the actions still to be taken. */
    method CondnestrecAux(f: nat) returns (r: Status)
      requires Saved() && Quote1(dump.top.l) && dump.top.l.top.l.Link?
      modifies this
      ensures Agrees(r, NestOn(d, f, old(dump.top.l.top.l), old(stck)), stck)
      ensures r.Ok? ==> Regs() == old(Regs())
      ensures peak == old(Reach(NestClauses(d, f, dump.top.l.top.l, stck)))
      decreases f, 7
    {
      hide Eval, Nest, Test, Choose, NestChoose;
      ghost var c, s := dump.top.l.top.l, stck;
      dump1 := Link(Lis(dump.top.l.top.l), dump1);
      dump2 := Link(Lis(stck), dump2);
      var result;
      r, result := FindClause(f);
      if !r.Ok? {
        return;
      }
      stck := dump2.top.l;
      dump3 := Link(Lis(if result then dump1.top.l.top.l.next else dump1.top.l.top.l), dump3);
      if dump3.top.l != Nil {
        r := RunActions(f);
        if !r.Ok? {
          return;
        }
      }
      dump3 := dump3.next;
      dump2 := dump2.next;
      dump1 := dump1.next;
    }

    /** Takes the actions on dump3, with a recursion between each two. */
    method RunActions(f: nat) returns (r: Status)
      requires Saved() && Quote1(dump.top.l) && dump.top.l.top.l.Link? && dump3.Link? && dump3.top.Lis? && dump3.top.l.Link?
      modifies this
      ensures Agrees(r, ActionsOn(d, f, old(dump.top.l.top.l), old(dump3).top.l, old(stck)), stck)
      ensures r.Ok? ==> dump3.Link? && Regs() == old(Regs()).(dump3 := Link(dump3.top, old(dump3).next))
      ensures peak == old(Reach(NestActions(d, f, dump.top.l.top.l, dump3.top.l, stck)))
      decreases f, 6
    {
      hide Eval, Nest, NestOn, NestClauses;
      ghost var c, a, s := dump.top.l.top.l, dump3.top.l, stck;
      if !dump3.top.l.top.Lis? {
        return Failed;
      }
      r := ExecTerm(dump3.top.l.top.l, f);
      if !r.Ok? {
        return;
      }
      dump3 := Link(Lis(dump3.top.l.next), dump3.next);
      while dump3.top.l != Nil
        invariant dump3.Link? && dump3.top.Lis? && Regs() == old(Regs()).(dump3 := Link(dump3.top, old(dump3).next))
        invariant NestRest(d, f, c, dump3.top.l, stck) == ActionsOn(d, f, c, a, s)
        invariant Reach(NestOthers(d, f, c, dump3.top.l, stck)) == old(Reach(NestActions(d, f, c, a, s)))
        decreases dump3.top.l
      {
        if f == 0 {
          return Limit;
        }
        r := CondnestrecAux(f - 1);
        if !r.Ok? {
          return;
        }
        if !dump3.top.l.top.Lis? {
          return Failed;
        }
        r := ExecTerm(dump3.top.l.top.l, f);
        if !r.Ok? {
          return;
        }
        dump3 := Link(Lis(dump3.top.l.next), dump3.next);
      }
      r := Ok;
    }

    method CallCondnestrec(f: nat) returns (r: Status)
      modifies this
      ensures Agrees(r, Apply(d, f, Condnestrec, old(stck)), stck)
      ensures r.Ok? ==> Regs() == old(Regs())
      ensures peak == old(Reach(NestApply(d, f, Condnestrec, stck)))
      decreases f, 8
    {
      hide NestOn, NestClauses;
      if !Quote1(stck) || stck.top.l == Nil {
        return Failed;
      }
      SaveStack();
      stck := dump.top.l.next;
      r := CondnestrecAux(f);
      if r.Ok? {
        dump := dump.next;
      }
    }

    /** treestep: the lists on the way to the current leaf wait on dump1. */
    method TreestepAux(item: Node, f: nat) returns (r: Status)
      requires Saved() && Quote1(dump.top.l)
      modifies this
      ensures Agrees(r, Leaves(d, f, old(dump.top.l.top.l), item, old(stck)), stck)
      ensures r.Ok? ==> Regs() == old(Regs())
      ensures peak == old(Reach(NestLeaves(d, f, dump.top.l.top.l, item, stck)))
      decreases f, 4, item
    {
      hide Eval, Nest;
      if !item.Lis? {
        stck := Link(item, stck);
        r := ExecTerm(dump.top.l.top.l, f);
        return;
      }
      ghost var p := dump.top.l.top.l;
      dump1 := Link(Lis(item.l), dump1);
      while dump1.top.l != Nil
        invariant dump1.Link? && dump1.top.Lis? && Regs() == old(Regs()).(dump1 := Link(dump1.top, old(dump1)))
        invariant LeavesOf(d, f, p, dump1.top.l, stck) == LeavesOf(d, f, p, item.l, old(stck))
        invariant Reach(NestLeavesOf(d, f, p, dump1.top.l, stck)) == old(Reach(NestLeavesOf(d, f, p, item.l, stck)))
        invariant dump1.top.l == item.l || dump1.top.l < item.l
        decreases dump1.top.l
      {
        r := TreestepAux(dump1.top.l.top, f);
        if !r.Ok? {
          return;
        }
        dump1 := Link(Lis(dump1.top.l.next), dump1.next);
      }
      dump1 := dump1.next;
      r := Ok;
    }

    method CallTreestep(f: nat) returns (r: Status)
      modifies this
      ensures Agrees(r, Apply(d, f, Treestep, old(stck)), stck)
      ensures r.Ok? ==> Regs() == old(Regs())
      ensures peak == old(Reach(NestApply(d, f, Treestep, stck)))
      decreases f, 8
    {
      hide Leaves, NestLeaves;
      if !Quote1(stck) || stck.next == Nil {
        return Failed;
      }
      SaveStack();
      stck := dump.top.l.next.next;
      r := TreestepAux(dump.top.l.next.top, f);
      if r.Ok? {
        dump := dump.next;
      }
    }
  }

  /** One round of genrec after a test that failed; c is [B] [T] [R1] followed by R2. */
  ghost function AgainOn(d: Program, f: nat, c: Chain, s: Chain): Result
    requires Quote3(c)
  {
    match Eval(d, f, c.next.next.top.l, s)
    case Done(s1) => Eval(d, f, c.next.next.next, Link(Again(c), s1))
    case r => r
  }

  /** Both recursions of binrec on a split stack. */
  ghost function HalvesOn(d: Program, f: nat, p: Chain, t: Chain, r1: Chain, r2: Chain, s: Chain): Result
    requires f > 0
  {
    match BinrecOn(d, f - 1, p, t, r1, r2, Rest(s))
    case Done(s2) =>
      (match BinrecOn(d, f - 1, p, t, r1, r2, Link(Top(s), s2))
       case Done(s3) => Eval(d, f, r2, s3)
       case r => r)
    case r => r
  }

  /** The actions of a chosen clause. */
  ghost function ActionsOn(d: Program, f: nat, c: Chain, a: Chain, s: Chain): Result
    requires c.Link? && a.Link?
  {
    if !a.top.Lis? then Error
    else
      match Eval(d, f, a.top.l, s)
      case Done(s1) => NestRest(d, f, c, a.next, s1)
      case r => r
  }
}
