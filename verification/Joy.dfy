/** What a Joy term computes: plain recursive evaluation, one function for each combinator.

    A run that is too deep for its fuel has result Deep; fuel is spent on calls of definitions and
    builtins and on rounds of recursion, and a result other than Deep does not depend on it. */
module Joy {

  datatype Prim =
    | Builtin(k: nat) | Cons | I | Dip | Ifte | While | Step | Map | Filter | Construct | Cleave
    | Linrec | Tailrec | Binrec | Genrec | GenrecAux | Condnestrec | Treestep

  /** A node of a term or of the stack.  An atom with payload 0 counts as false. */
  datatype Node = Atom(kind: nat, payload: int) | Lis(l: Chain) | Usr(ent: nat) | Proc(op: Prim)

  /** Terms, stacks and dumps are chains of nodes; the top of a stack comes first. */
  datatype Chain = Nil | Link(top: Node, next: Chain)

  /** The definitions by symbol, what happens on a call of an undefined symbol, and the builtins that do
      nothing but change the stack: they fail or return a new stack. */
  datatype Program = Program(bodies: seq<Chain>, undeferror: bool, builtin: (nat, Chain) -> Option)

  datatype Option = None | Some(stack: Chain)

  datatype Result = Done(stack: Chain) | Error | Deep

  /** The outcome of executing a test. */
  datatype Verdict = Yes | No | Wrong | Lost

  function Truth(n: Node): bool {
    match n
    case Atom(_, p) => p != 0
    case Lis(l) => l.Link?
    case Usr(_) => true
    case Proc(_) => true
  }

  /** The top of the stack as a condition; below the bottom of the stack there is false. */
  function Condition(s: Chain): bool {
    s.Link? && Truth(s.top)
  }

  /** One to four quotations on top. */
  predicate Quote1(s: Chain) {
    s.Link? && s.top.Lis?
  }

  predicate Quote2(s: Chain) {
    Quote1(s) && Quote1(s.next)
  }

  predicate Quote3(s: Chain) {
    Quote2(s) && Quote1(s.next.next)
  }

  predicate Quote4(s: Chain) {
    Quote3(s) && Quote1(s.next.next.next)
  }

  function Body(d: Program, i: nat): Chain {
    if i < |d.bodies| then d.bodies[i] else Nil
  }

  /** The node that copying the top of a stack copies: below the bottom there is the null node. */
  function Top(s: Chain): Node {
    if s.Link? then s.top else Atom(0, 0)
  }

  function Rest(s: Chain): Chain {
    if s.Link? then s.next else Nil
  }

  /** A chain with one more node at its end. */
  function Snoc(l: Chain, n: Node): Chain {
    match l
    case Nil => Link(n, Nil)
    case Link(m, rest) => Link(m, Snoc(rest, n))
  }

  ghost function Eval(d: Program, f: nat, t: Chain, s: Chain): Result
    decreases f, 1, t
  {
    match t
    case Nil => Done(s)
    case Link(n, rest) =>
      match Exec(d, f, n, s)
      case Done(s1) => Eval(d, f, rest, s1)
      case r => r
  }

  /** Goes on with a term where a run has ended well. */
  ghost function AndThen(d: Program, f: nat, r: Result, t: Chain): Result {
    if r.Done? then Eval(d, f, t, r.stack) else r
  }

  ghost function Exec(d: Program, f: nat, n: Node, s: Chain): Result
    decreases f, 0
  {
    match n
    case Usr(i) =>
      if Body(d, i) == Nil then (if d.undeferror then Error else Done(s))
      else if f == 0 then Deep
      else Eval(d, f - 1, Body(d, i), s)
    case Proc(p) => if f == 0 then Deep else Apply(d, f - 1, p, s)
    case _ => Done(Link(n, s))
  }

  /** Executes a test; where `must` is set, it is an error for the test to leave an empty stack. */
  ghost function Test(d: Program, f: nat, t: Chain, s: Chain, must: bool): Verdict
    decreases f, 2
  {
    match Eval(d, f, t, s)
    case Done(s1) => if must && s1 == Nil then Wrong else if Condition(s1) then Yes else No
    case Error => Wrong
    case Deep => Lost
  }

  ghost function Apply(d: Program, f: nat, p: Prim, s: Chain): Result
    decreases f, 5
  {
    match p
    case Builtin(k) => (match d.builtin(k, s) case None => Error case Some(s1) => Done(s1))
    case Cons =>
      if Quote1(s) && s.next.Link? then Done(Link(Lis(Link(s.next.top, s.top.l)), s.next.next)) else Error
    case I => if Quote1(s) then Eval(d, f, s.top.l, s.next) else Error
    case Dip =>
      if Quote1(s) && s.next.Link? then Push(Eval(d, f, s.top.l, s.next.next), s.next.top) else Error
    case Ifte =>
      if Quote3(s) then IfteOn(d, f, s.next.next.top.l, s.next.top.l, s.top.l, s.next.next.next) else Error
    case While => if Quote2(s) then Loop(d, f, s.next.top.l, s.top.l, s.next.next) else Error
    case Step => if Quote2(s) then Each(d, f, s.top.l, s.next.top.l, s.next.next) else Error
    case Map => if Quote2(s) then MapEach(d, f, s.top.l, s.next.top.l, s.next.next, Nil) else Error
    case Filter => if Quote2(s) then FilterEach(d, f, s.top.l, s.next.top.l, s.next.next, Nil) else Error
    case Construct =>
      if Quote2(s) then
        match Eval(d, f, s.next.top.l, s.next.next)
        case Done(s1) => Collect(d, f, s.top.l, s1, s.next.next)
        case r => r
      else Error
    case Cleave =>
      if Quote2(s) && s.next.next.Link? then CleaveOn(d, f, s.next.top.l, s.top.l, s.next.next) else Error
    case Linrec =>
      if Quote4(s) then
        LinrecOn(d, f, s.next.next.next.top.l, s.next.next.top.l, s.next.top.l, s.top.l, s.next.next.next.next)
      else Error
    case Tailrec =>
      if Quote3(s) then TailrecOn(d, f, s.next.next.top.l, s.next.top.l, s.top.l, s.next.next.next) else Error
    case Binrec =>
      if Quote4(s) then
        BinrecOn(d, f, s.next.next.next.top.l, s.next.next.top.l, s.next.top.l, s.top.l, s.next.next.next.next)
      else Error
    case Genrec =>
      if Quote4(s) then
        GenrecOn(d, f, Link(s.next.next.next.top, Link(s.next.next.top, Link(s.next.top, s.top.l))), s.next.next.next.next)
      else Error
    case GenrecAux => if Quote1(s) && Quote3(s.top.l) then GenrecOn(d, f, s.top.l, s.next) else Error
    case Condnestrec => if Quote1(s) && s.top.l.Link? then NestOn(d, f, s.top.l, s.next) else Error
    case Treestep => if Quote1(s) && s.next.Link? then Leaves(d, f, s.top.l, s.next.top, s.next.next) else Error
  }

  function Push(r: Result, n: Node): Result {
    if r.Done? then Done(Link(n, r.stack)) else r
  }

  ghost function IfteOn(d: Program, f: nat, b: Chain, t: Chain, e: Chain, s: Chain): Result
    decreases f, 3
  {
    match Test(d, f, b, s, false)
    case Yes => Eval(d, f, t, s)
    case No => Eval(d, f, e, s)
    case Wrong => Error
    case Lost => Deep
  }

  ghost function Loop(d: Program, f: nat, b: Chain, p: Chain, s: Chain): Result
    decreases f, 3
  {
    match Test(d, f, b, s, true)
    case No => Done(s)
    case Yes =>
      (match Eval(d, f, p, s)
       case Done(s1) => if f == 0 then Deep else Loop(d, f - 1, b, p, s1)
       case r => r)
    case Wrong => Error
    case Lost => Deep
  }

  /** Executes p after pushing each node of a list in turn. */
  ghost function Each(d: Program, f: nat, p: Chain, l: Chain, s: Chain): Result
    decreases f, 3, l
  {
    match l
    case Nil => Done(s)
    case Link(n, rest) =>
      match Eval(d, f, p, Link(n, s))
      case Done(s1) => Each(d, f, p, rest, s1)
      case r => r
  }

  ghost function MapEach(d: Program, f: nat, p: Chain, l: Chain, s: Chain, done: Chain): Result
    decreases f, 3, l
  {
    match l
    case Nil => Done(Link(Lis(done), s))
    case Link(n, rest) =>
      match Eval(d, f, p, Link(n, s))
      case Done(s1) => if s1 == Nil then Error else MapEach(d, f, p, rest, s, Snoc(done, s1.top))
      case r => r
  }

  ghost function FilterEach(d: Program, f: nat, p: Chain, l: Chain, s: Chain, done: Chain): Result
    decreases f, 3, l
  {
    match l
    case Nil => Done(Link(Lis(done), s))
    case Link(n, rest) =>
      match Test(d, f, p, Link(n, s), true)
      case Yes => FilterEach(d, f, p, rest, s, Snoc(done, n))
      case No => FilterEach(d, f, p, rest, s, done)
      case Wrong => Error
      case Lost => Deep
  }

  /** Executes each quotation of a list on s and pushes the tops of the resulting stacks on out. */
  ghost function Collect(d: Program, f: nat, l: Chain, s: Chain, out: Chain): Result
    decreases f, 3, l
  {
    match l
    case Nil => Done(out)
    case Link(n, rest) =>
      if !n.Lis? then Error
      else
        match Eval(d, f, n.l, s)
        case Done(s1) => Collect(d, f, rest, s, Link(Top(s1), out))
        case r => r
  }

  ghost function CleaveOn(d: Program, f: nat, p1: Chain, p2: Chain, s: Chain): Result
    requires s.Link?
    decreases f, 3
  {
    match Eval(d, f, p1, s)
    case Done(s1) =>
      (match Eval(d, f, p2, s)
       case Done(s2) => Done(Link(Top(s2), Link(Top(s1), s.next)))
       case r => r)
    case r => r
  }

  ghost function LinrecOn(d: Program, f: nat, p: Chain, t: Chain, r1: Chain, r2: Chain, s: Chain): Result
    decreases f, 3
  {
    match Test(d, f, p, s, true)
    case Yes => Eval(d, f, t, s)
    case No =>
      (match Eval(d, f, r1, s)
       case Done(s1) =>
         if f == 0 then Deep
         else
           (match LinrecOn(d, f - 1, p, t, r1, r2, s1)
            case Done(s2) => Eval(d, f, r2, s2)
            case r => r)
       case r => r)
    case Wrong => Error
    case Lost => Deep
  }

  ghost function TailrecOn(d: Program, f: nat, p: Chain, t: Chain, r1: Chain, s: Chain): Result
    decreases f, 3
  {
    match Test(d, f, p, s, true)
    case Yes => Eval(d, f, t, s)
    case No =>
      (match Eval(d, f, r1, s)
       case Done(s1) => if f == 0 then Deep else TailrecOn(d, f - 1, p, t, r1, s1)
       case r => r)
    case Wrong => Error
    case Lost => Deep
  }

  ghost function BinrecOn(d: Program, f: nat, p: Chain, t: Chain, r1: Chain, r2: Chain, s: Chain): Result
    decreases f, 3
  {
    match Test(d, f, p, s, false)
    case Yes => Eval(d, f, t, s)
    case No =>
      (match Eval(d, f, r1, s)
       case Done(s1) =>
         if f == 0 then Deep
         else
           (match BinrecOn(d, f - 1, p, t, r1, r2, Rest(s1))
            case Done(s2) =>
              (match BinrecOn(d, f - 1, p, t, r1, r2, Link(Top(s1), s2))
               case Done(s3) => Eval(d, f, r2, s3)
               case r => r)
            case r => r)
       case r => r)
    case Wrong => Error
    case Lost => Deep
  }

  /** c is [B] [T] [R1] followed by R2. */
  ghost function GenrecOn(d: Program, f: nat, c: Chain, s: Chain): Result
    requires Quote3(c)
    decreases f, 3
  {
    match Test(d, f, c.top.l, s, true)
    case Yes => Eval(d, f, c.next.top.l, s)
    case No =>
      (match Eval(d, f, c.next.next.top.l, s)
       case Done(s1) => Eval(d, f, c.next.next.next, Link(Again(c), s1))
       case r => r)
    case Wrong => Error
    case Lost => Deep
  }

  /** The quotation that goes on with the recursion. */
  function Again(c: Chain): Node {
    Lis(Link(Lis(c), Link(Proc(GenrecAux), Nil)))
  }

  /** The actions of the first clause whose test succeeds, or of the default, which comes last. */
  datatype Choice = Chosen(actions: Chain) | BadChoice | DeepChoice

  ghost function Choose(d: Program, f: nat, c: Chain, s: Chain): (r: Choice)
    requires c.Link?
    decreases f, 3, c
  {
    if !c.top.Lis? then BadChoice
    else if c.next == Nil then Chosen(c.top.l)
    else if !Quote1(c.top.l) then BadChoice
    else
      match Test(d, f, c.top.l.top.l, s, false)
      case Yes => Chosen(c.top.l.next)
      case No => Choose(d, f, c.next, s)
      case Wrong => BadChoice
      case Lost => DeepChoice
  }

  ghost function NestOn(d: Program, f: nat, c: Chain, s: Chain): Result
    requires c.Link?
    decreases f, 4
  {
    match Choose(d, f, c, s)
    case Chosen(a) =>
      if a == Nil then Done(s)
      else if !a.top.Lis? then Error
      else
        (match Eval(d, f, a.top.l, s)
         case Done(s1) => NestRest(d, f, c, a.next, s1)
         case r => r)
    case BadChoice => Error
    case DeepChoice => Deep
  }

  /** Executes the remaining actions, recursing before each. */
  ghost function NestRest(d: Program, f: nat, c: Chain, a: Chain, s: Chain): Result
    requires c.Link?
    decreases f, 3, a
  {
    if a == Nil then Done(s)
    else if f == 0 then Deep
    else
      match NestOn(d, f - 1, c, s)
      case Done(s1) =>
        if !a.top.Lis? then Error
        else
          (match Eval(d, f, a.top.l, s1)
           case Done(s2) => NestRest(d, f, c, a.next, s2)
           case r => r)
      case r => r
  }

  /** Executes p for every leaf of a tree. */
  ghost function Leaves(d: Program, f: nat, p: Chain, item: Node, s: Chain): Result
    decreases f, 3, item
  {
    if item.Lis? then LeavesOf(d, f, p, item.l, s) else Eval(d, f, p, Link(item, s))
  }

  ghost function LeavesOf(d: Program, f: nat, p: Chain, l: Chain, s: Chain): Result
    decreases f, 3, l
  {
    match l
    case Nil => Done(s)
    case Link(n, rest) =>
      match Leaves(d, f, p, n, s)
      case Done(s1) => LeavesOf(d, f, p, rest, s1)
      case r => r
  }
}
