/** Pattern matching, and the scopes in which match, cases and let bind names. */
module Patterns {

  /** Nodes of patterns, values and actions; strings and numbers are literals, builtins are Fun. */
  datatype Val = Lit(kind: nat, payload: int) | Lis(l: seq<Val>) | Usr(ent: nat) | Fun(op: nat)

  /** An entry of the symbol table. */
  datatype Entry = Entry(name: string, isUser: bool, body: seq<Val>)

  type Table = seq<Entry>

  datatype Binding = Binding(sym: nat, value: Val, saved: Entry)

  const MAX_BINDINGS := 64

  /** Whether a literal of a pattern and a value compare equal. */
  type Same = (Val, Val) -> bool

  predicate IsWild(tab: Table, p: Val) {
    p.Usr? && p.ent < |tab| && tab[p.ent].name == "_"
  }

  predicate IsColon(tab: Table, p: Val) {
    p.Usr? && p.ent < |tab| && tab[p.ent].name == ":"
  }

  /** The number of nodes before the first colon of a list; the length of the list if there is none. */
  function Heads(tab: Table, l: seq<Val>): (k: nat)
    ensures k <= |l| && (forall i :: 0 <= i < k ==> !IsColon(tab, l[i])) && (k < |l| ==> IsColon(tab, l[k]))
  {
    if l == [] || IsColon(tab, l[0]) then 0 else 1 + Heads(tab, l[1..])
  }

  /** All symbols are in the table, a colon stands before exactly one node of its list, and at most 64 come
      before it. */
  predicate Proper(tab: Table, p: Val)
    decreases p
  {
    match p
    case Usr(i) => i < |tab|
    case Lis(l) =>
      && (forall i :: 0 <= i < |l| ==> Proper(tab, l[i]))
      && var k := Heads(tab, l);
         k < |l| ==> |l| == k + 2 && k <= MAX_BINDINGS
    case _ => true
  }

  /** All symbols of a pattern are in the table, and at most 64 nodes stand before a colon. */
  predicate Known(tab: Table, p: Val)
    decreases p
  {
    match p
    case Usr(i) => i < |tab|
    case Lis(l) =>
      && (forall i :: 0 <= i < |l| ==> Known(tab, l[i]))
      && (Heads(tab, l) < |l| ==> Heads(tab, l) <= MAX_BINDINGS)
    case _ => true
  }

  // ----- what it means for a value to be an instance of a pattern -----

  /** A list that is a cons pattern: heads, a colon, and one node for the tail. */
  predicate IsCons(tab: Table, l: seq<Val>) {
    |l| == Heads(tab, l) + 2
  }

  /** The places of a pattern that take any value: its variables and wildcards. */
  function Slots(tab: Table, p: Val): nat
    decreases p
  {
    match p
    case Usr(_) => 1
    case Lis(l) =>
      if IsCons(tab, l) then SlotsAll(tab, l[..|l| - 2]) + Slots(tab, l[|l| - 1]) else SlotsAll(tab, l)
    case _ => 0
  }

  function SlotsAll(tab: Table, l: seq<Val>): nat
    decreases l
  {
    if l == [] then 0 else Slots(tab, l[0]) + SlotsAll(tab, l[1..])
  }

  /** Filling the places of pattern p with the values of fill gives v. */
  ghost predicate Builds(tab: Table, same: Same, p: Val, fill: seq<Val>, v: Val)
    decreases p
  {
    match p
    case Usr(_) => fill == [v]
    case Lit(_, _) => fill == [] && same(p, v)
    case Fun(_) => false
    case Lis(l) =>
      && v.Lis?
      && var k := Heads(tab, l);
         if IsCons(tab, l) then
           && k <= |v.l| && v.l != []
           && var n := SlotsAll(tab, l[..k]);
              && n <= |fill| && BuildsAll(tab, same, l[..k], fill[..n], v.l[..k])
              && Builds(tab, same, l[k + 1], fill[n..], Lis(v.l[k..]))
         else
           BuildsAll(tab, same, l, fill, v.l)
  }

  ghost predicate BuildsAll(tab: Table, same: Same, ps: seq<Val>, fill: seq<Val>, vs: seq<Val>)
    decreases ps
  {
    if ps == [] then fill == [] && vs == []
    else
      var n := Slots(tab, ps[0]);
      && vs != [] && n <= |fill|
      && Builds(tab, same, ps[0], fill[..n], vs[0]) && BuildsAll(tab, same, ps[1..], fill[n..], vs[1..])
  }

  /** The bindings of a filled pattern: one for each occurrence of a variable, from left to right. */
  ghost function Named(tab: Table, p: Val, fill: seq<Val>): seq<Binding>
    decreases p
  {
    match p
    case Usr(i) => if IsWild(tab, p) || fill == [] || i >= |tab| then [] else [Binding(i, fill[0], tab[i])]
    case Lis(l) =>
      var k := Heads(tab, l);
      if IsCons(tab, l) then
        var n := SlotsAll(tab, l[..k]);
        if n <= |fill| then NamedAll(tab, l[..k], fill[..n]) + Named(tab, l[k + 1], fill[n..]) else []
      else
        NamedAll(tab, l, fill)
    case _ => []
  }

  ghost function NamedAll(tab: Table, ps: seq<Val>, fill: seq<Val>): seq<Binding>
    decreases ps
  {
    if ps == [] then []
    else
      var n := Slots(tab, ps[0]);
      if n <= |fill| then Named(tab, ps[0], fill[..n]) + NamedAll(tab, ps[1..], fill[n..]) else []
  }

  /** The occurrences of variables. */
  function Vars(tab: Table, p: Val): nat
    decreases p
  {
    match p
    case Usr(_) => if IsWild(tab, p) then 0 else 1
    case Lis(l) =>
      if IsCons(tab, l) then VarsAll(tab, l[..|l| - 2]) + Vars(tab, l[|l| - 1]) else VarsAll(tab, l)
    case _ => 0
  }

  function VarsAll(tab: Table, l: seq<Val>): nat
    decreases l
  {
    if l == [] then 0 else Vars(tab, l[0]) + VarsAll(tab, l[1..])
  }

  // ----- the algorithm -----

  /** A match with all bindings so far, a mismatch, or an error. */
  datatype Outcome = Matched(b: seq<Binding>) | NoMatch | Bad

  ghost function Match(tab: Table, same: Same, p: Val, v: Val, b: seq<Binding>): Outcome
    decreases p
  {
    match p
    case Usr(i) =>
      if IsWild(tab, p) then Matched(b)
      else if |b| >= MAX_BINDINGS || i >= |tab| then Bad
      else Matched(b + [Binding(i, v, tab[i])])
    case Lit(_, _) => if same(p, v) then Matched(b) else NoMatch
    case Fun(_) => NoMatch
    case Lis(l) =>
      var k := Heads(tab, l);
      if l == [] then (if v == Lis([]) then Matched(b) else NoMatch)
      else if k == |l| then (if v.Lis? then MatchExact(tab, same, l, v.l, b) else NoMatch)
      else if !v.Lis? || v.l == [] then NoMatch
      else if |l| != k + 2 then Bad
      else
        match MatchHeads(tab, same, l[..k], v.l, b)
        case Matched(b1) => if k <= |v.l| then Match(tab, same, l[k + 1], Lis(v.l[k..]), b1) else NoMatch
        case r => r
  }

  ghost function MatchExact(tab: Table, same: Same, ps: seq<Val>, vs: seq<Val>, b: seq<Binding>): Outcome
    decreases ps
  {
    if ps == [] || vs == [] then (if ps == [] && vs == [] then Matched(b) else NoMatch)
    else
      match Match(tab, same, ps[0], vs[0], b)
      case Matched(b1) => MatchExact(tab, same, ps[1..], vs[1..], b1)
      case r => r
  }

  ghost function MatchHeads(tab: Table, same: Same, ps: seq<Val>, vs: seq<Val>, b: seq<Binding>): (r: Outcome)
    ensures r.Matched? ==> |ps| <= |vs|
    decreases ps
  {
    if ps == [] then Matched(b)
    else if vs == [] then NoMatch
    else
      match Match(tab, same, ps[0], vs[0], b)
      case Matched(b1) => MatchHeads(tab, same, ps[1..], vs[1..], b1)
      case r => r
  }

  // ----- matching is exactly being an instance -----

  lemma {:induction false} NamedCount(tab: Table, same: Same, p: Val, fill: seq<Val>, v: Val)
    requires Proper(tab, p) && Builds(tab, same, p, fill, v)
    ensures |fill| == Slots(tab, p) && |Named(tab, p, fill)| == Vars(tab, p)
    decreases p
  {
    if p.Lis? {
      var l := p.l;
      var k := Heads(tab, l);
      if IsCons(tab, l) {
        var n := SlotsAll(tab, l[..k]);
        NamedCountAll(tab, same, l[..k], fill[..n], v.l[..k]);
        NamedCount(tab, same, l[k + 1], fill[n..], Lis(v.l[k..]));
      } else {
        NamedCountAll(tab, same, l, fill, v.l);
      }
    }
  }

  lemma {:induction false} NamedCountAll(tab: Table, same: Same, ps: seq<Val>, fill: seq<Val>, vs: seq<Val>)
    requires BuildsAll(tab, same, ps, fill, vs) && forall i :: 0 <= i < |ps| ==> Proper(tab, ps[i])
    ensures |fill| == SlotsAll(tab, ps) && |NamedAll(tab, ps, fill)| == VarsAll(tab, ps) && |vs| == |ps|
    decreases ps
  {
    if ps != [] {
      var n := Slots(tab, ps[0]);
      NamedCount(tab, same, ps[0], fill[..n], vs[0]);
      NamedCountAll(tab, same, ps[1..], fill[n..], vs[1..]);
    }
  }

  lemma Regroup(b: seq<Binding>, x: seq<Binding>, y: seq<Binding>)
    ensures b + x + y == b + (x + y)
  {
  }

  /** An instance matches, with one binding for each occurrence of a variable. */
  lemma {:induction false} InstanceMatches(tab: Table, same: Same, p: Val, fill: seq<Val>, v: Val, b: seq<Binding>)
    requires Proper(tab, p) && Builds(tab, same, p, fill, v) && |b| + Vars(tab, p) <= MAX_BINDINGS
    ensures Match(tab, same, p, v, b) == Matched(b + Named(tab, p, fill))
    decreases p
  {
    match p
    case Usr(i) =>
      assert b + [] == b;
    case Lit(_, _) =>
      assert b + [] == b;
    case Lis(l) =>
      var k := Heads(tab, l);
      if IsCons(tab, l) {
        ConsMatches(tab, same, l, fill, v, b);
      } else {
        ExactMatches(tab, same, l, fill, v.l, b);
        EmptyMatches(tab, same, l, v, b);
      }
    case _ =>
  }

  lemma {:induction false} ConsMatches(tab: Table, same: Same, l: seq<Val>, fill: seq<Val>, v: Val, b: seq<Binding>)
    requires IsCons(tab, l) && Proper(tab, Lis(l)) && Builds(tab, same, Lis(l), fill, v)
    requires |b| + Vars(tab, Lis(l)) <= MAX_BINDINGS
    ensures Match(tab, same, Lis(l), v, b) == Matched(b + Named(tab, Lis(l), fill))
    decreases l
  {
    var k := Heads(tab, l);
    var n := SlotsAll(tab, l[..k]);
    var heads, b1 := l[..k], b + NamedAll(tab, l[..k], fill[..n]);
    NamedCountAll(tab, same, heads, fill[..n], v.l[..k]);
    HeadsMatch(tab, same, heads, fill[..n], v.l[..k], v.l, b);
    InstanceMatches(tab, same, l[k + 1], fill[n..], Lis(v.l[k..]), b1);
    Regroup(b, NamedAll(tab, heads, fill[..n]), Named(tab, l[k + 1], fill[n..]));
  }

  /** A list without a colon matches node by node; the empty list is no exception. */
  lemma EmptyMatches(tab: Table, same: Same, l: seq<Val>, v: Val, b: seq<Binding>)
    requires Proper(tab, Lis(l)) && !IsCons(tab, l)
    ensures Match(tab, same, Lis(l), v, b) == if v.Lis? then MatchExact(tab, same, l, v.l, b) else NoMatch
  {
    if l == [] && v.Lis? && v.l != [] {
      assert v != Lis([]);
    }
  }

  lemma {:induction false} ExactMatches(tab: Table, same: Same, ps: seq<Val>, fill: seq<Val>, vs: seq<Val>, b: seq<Binding>)
    requires BuildsAll(tab, same, ps, fill, vs) && forall i :: 0 <= i < |ps| ==> Proper(tab, ps[i])
    requires |b| + VarsAll(tab, ps) <= MAX_BINDINGS
    ensures MatchExact(tab, same, ps, vs, b) == Matched(b + NamedAll(tab, ps, fill))
    decreases ps
  {
    if ps == [] {
      assert b + [] == b;
    } else {
      var n := Slots(tab, ps[0]);
      var b1 := b + Named(tab, ps[0], fill[..n]);
      NamedCount(tab, same, ps[0], fill[..n], vs[0]);
      InstanceMatches(tab, same, ps[0], fill[..n], vs[0], b);
      ExactMatches(tab, same, ps[1..], fill[n..], vs[1..], b1);
      Regroup(b, Named(tab, ps[0], fill[..n]), NamedAll(tab, ps[1..], fill[n..]));
    }
  }

  /** The heads of a cons pattern match the first nodes of a list, whatever follows. */
  lemma {:induction false} HeadsMatch(tab: Table, same: Same, ps: seq<Val>, fill: seq<Val>, vs: seq<Val>, all: seq<Val>,
                                      b: seq<Binding>)
    requires BuildsAll(tab, same, ps, fill, vs) && forall i :: 0 <= i < |ps| ==> Proper(tab, ps[i])
    requires |b| + VarsAll(tab, ps) <= MAX_BINDINGS && |vs| <= |all| && vs == all[..|vs|]
    ensures MatchHeads(tab, same, ps, all, b) == Matched(b + NamedAll(tab, ps, fill))
    decreases ps
  {
    if ps == [] {
      assert b + [] == b;
    } else {
      var n := Slots(tab, ps[0]);
      var b1 := b + Named(tab, ps[0], fill[..n]);
      NamedCount(tab, same, ps[0], fill[..n], vs[0]);
      InstanceMatches(tab, same, ps[0], fill[..n], vs[0], b);
      assert vs[1..] == all[1..][..|vs[1..]|];
      HeadsMatch(tab, same, ps[1..], fill[n..], vs[1..], all[1..], b1);
      Regroup(b, Named(tab, ps[0], fill[..n]), NamedAll(tab, ps[1..], fill[n..]));
    }
  }

  /** A match comes from an instance. */
  lemma {:induction false} MatchIsInstance(tab: Table, same: Same, p: Val, v: Val, b: seq<Binding>) returns (fill: seq<Val>)
    requires Proper(tab, p) && Match(tab, same, p, v, b).Matched?
    ensures Builds(tab, same, p, fill, v)
    decreases p
  {
    match p
    case Usr(_) => fill := [v];
    case Lit(_, _) => fill := [];
    case Lis(l) =>
      var k := Heads(tab, l);
      if IsCons(tab, l) {
        var r := MatchHeads(tab, same, l[..k], v.l, b);
        var head := HeadsAreInstances(tab, same, l[..k], v.l, b);
        NamedCountAll(tab, same, l[..k], head, v.l[..k]);
        var last := MatchIsInstance(tab, same, l[k + 1], Lis(v.l[k..]), r.b);
        fill := head + last;
        assert fill[..|head|] == head && fill[|head|..] == last;
      } else {
        EmptyMatches(tab, same, l, v, b);
        fill := ExactAreInstances(tab, same, l, v.l, b);
      }
    case Fun(_) => fill := [];
  }

  lemma {:induction false} ExactAreInstances(tab: Table, same: Same, ps: seq<Val>, vs: seq<Val>, b: seq<Binding>)
    returns (fill: seq<Val>)
    requires MatchExact(tab, same, ps, vs, b).Matched? && forall i :: 0 <= i < |ps| ==> Proper(tab, ps[i])
    ensures BuildsAll(tab, same, ps, fill, vs)
    decreases ps
  {
    if ps == [] {
      fill := [];
    } else {
      var one := MatchIsInstance(tab, same, ps[0], vs[0], b);
      NamedCount(tab, same, ps[0], one, vs[0]);
      var more := ExactAreInstances(tab, same, ps[1..], vs[1..], Match(tab, same, ps[0], vs[0], b).b);
      fill := one + more;
      assert fill[..|one|] == one && fill[|one|..] == more;
    }
  }

  lemma {:induction false} HeadsAreInstances(tab: Table, same: Same, ps: seq<Val>, vs: seq<Val>, b: seq<Binding>)
    returns (fill: seq<Val>)
    requires MatchHeads(tab, same, ps, vs, b).Matched? && forall i :: 0 <= i < |ps| ==> Proper(tab, ps[i])
    ensures |ps| <= |vs| && BuildsAll(tab, same, ps, fill, vs[..|ps|])
    decreases ps
  {
    if ps == [] {
      fill := [];
    } else {
      var one := MatchIsInstance(tab, same, ps[0], vs[0], b);
      NamedCount(tab, same, ps[0], one, vs[0]);
      var more := HeadsAreInstances(tab, same, ps[1..], vs[1..], Match(tab, same, ps[0], vs[0], b).b);
      fill := one + more;
      assert fill[..|one|] == one && fill[|one|..] == more;
      assert vs[..|ps|][1..] == vs[1..][..|ps[1..]|];
    }
  }

  lemma ConsMatched(tab: Table, same: Same, l: seq<Val>, v: Val, b: seq<Binding>)
    requires Heads(tab, l) < |l| && Match(tab, same, Lis(l), v, b).Matched?
    ensures var k := Heads(tab, l);
            && |l| == k + 2 && v.Lis? && MatchHeads(tab, same, l[..k], v.l, b).Matched? && k <= |v.l|
            && Match(tab, same, Lis(l), v, b) ==
               Match(tab, same, l[k + 1], Lis(v.l[k..]), MatchHeads(tab, same, l[..k], v.l, b).b)
  {
    hide MatchHeads;
  }

  lemma ConsProper(tab: Table, l: seq<Val>, heads: seq<Val>)
    requires |l| == Heads(tab, l) + 2 && Heads(tab, l) <= MAX_BINDINGS && Proper(tab, l[|l| - 1])
    requires heads == l[..|l| - 2] && forall i :: 0 <= i < |heads| ==> Proper(tab, heads[i])
    ensures Proper(tab, Lis(l)) && Vars(tab, Lis(l)) == VarsAll(tab, l[..|l| - 2]) + Vars(tab, l[|l| - 1])
  {
    hide Vars, VarsAll;
    forall i | 0 <= i < |l| ensures Proper(tab, l[i]) {
      if i < |l| - 2 {
        assert l[i] == heads[i];
      }
    }
    ConsVars(tab, l);
  }

  lemma ConsVars(tab: Table, l: seq<Val>)
    requires IsCons(tab, l)
    ensures Vars(tab, Lis(l)) == VarsAll(tab, l[..|l| - 2]) + Vars(tab, l[|l| - 1])
  {
  }

  lemma KnownParts(tab: Table, l: seq<Val>)
    requires Known(tab, Lis(l))
    ensures (forall i :: 0 <= i < |l| ==> Known(tab, l[i])) && (Heads(tab, l) < |l| ==> Heads(tab, l) <= MAX_BINDINGS)
  {
  }

  /** A match finds the pattern proper and binds each occurrence of a variable. */
  lemma {:induction false} MatchCounts(tab: Table, same: Same, p: Val, v: Val, b: seq<Binding>)
    requires Known(tab, p) && Match(tab, same, p, v, b).Matched? && |b| <= MAX_BINDINGS
    ensures Proper(tab, p) && |Match(tab, same, p, v, b).b| == |b| + Vars(tab, p) <= MAX_BINDINGS
    decreases p, 1
  {
    if p.Lis? {
      if Heads(tab, p.l) < |p.l| {
        MatchCountsCons(tab, same, p.l, v, b);
      } else if p.l != [] {
        MatchCountsExact(tab, same, p.l, v.l, b);
      }
    }
  }

  lemma {:induction false} MatchCountsCons(tab: Table, same: Same, l: seq<Val>, v: Val, b: seq<Binding>)
    requires Known(tab, Lis(l)) && Heads(tab, l) < |l|
    requires Match(tab, same, Lis(l), v, b).Matched? && |b| <= MAX_BINDINGS
    ensures Proper(tab, Lis(l)) && |Match(tab, same, Lis(l), v, b).b| == |b| + Vars(tab, Lis(l)) <= MAX_BINDINGS
    decreases Lis(l), 0
  {
    hide Match, MatchHeads, Proper, Vars, VarsAll, Known;
    var k := Heads(tab, l);
    KnownParts(tab, l);
    ConsMatched(tab, same, l, v, b);
    MatchCountsHeads(tab, same, l[..k], v.l, b);
    MatchCounts(tab, same, l[k + 1], Lis(v.l[k..]), MatchHeads(tab, same, l[..k], v.l, b).b);
    ConsProper(tab, l, l[..k]);
  }

  lemma {:induction false} MatchCountsExact(tab: Table, same: Same, ps: seq<Val>, vs: seq<Val>, b: seq<Binding>)
    requires (forall i :: 0 <= i < |ps| ==> Known(tab, ps[i])) && |b| <= MAX_BINDINGS
    requires MatchExact(tab, same, ps, vs, b).Matched?
    ensures forall i :: 0 <= i < |ps| ==> Proper(tab, ps[i])
    ensures |MatchExact(tab, same, ps, vs, b).b| == |b| + VarsAll(tab, ps) <= MAX_BINDINGS
    decreases ps
  {
    if ps != [] {
      MatchCounts(tab, same, ps[0], vs[0], b);
      MatchCountsExact(tab, same, ps[1..], vs[1..], Match(tab, same, ps[0], vs[0], b).b);
    }
  }

  lemma {:induction false} MatchCountsHeads(tab: Table, same: Same, ps: seq<Val>, vs: seq<Val>, b: seq<Binding>)
    requires (forall i :: 0 <= i < |ps| ==> Known(tab, ps[i])) && |b| <= MAX_BINDINGS
    requires MatchHeads(tab, same, ps, vs, b).Matched?
    ensures forall i :: 0 <= i < |ps| ==> Proper(tab, ps[i])
    ensures |MatchHeads(tab, same, ps, vs, b).b| == |b| + VarsAll(tab, ps) <= MAX_BINDINGS
    decreases ps
  {
    if ps != [] {
      MatchCounts(tab, same, ps[0], vs[0], b);
      MatchCountsHeads(tab, same, ps[1..], vs[1..], Match(tab, same, ps[0], vs[0], b).b);
    }
  }

  /** An instance of a proper pattern with few enough variables. */
  ghost predicate IsInstance(tab: Table, same: Same, p: Val, v: Val) {
    Proper(tab, p) && Vars(tab, p) <= 64 && exists fill :: Builds(tab, same, p, fill, v)
  }

  lemma OnlyInstances(tab: Table, same: Same, p: Val, v: Val)
    requires Known(tab, p) && Match(tab, same, p, v, []).Matched?
    ensures IsInstance(tab, same, p, v)
  {
    hide Match, Builds, Proper, Known, Vars;
    MatchCounts(tab, same, p, v, []);
    var fill := MatchIsInstance(tab, same, p, v, []);
    assert Builds(tab, same, p, fill, v);
  }

  lemma InstanceBinds(tab: Table, same: Same, p: Val, v: Val, fill: seq<Val>)
    requires Proper(tab, p) && Vars(tab, p) <= MAX_BINDINGS && Builds(tab, same, p, fill, v)
    ensures Match(tab, same, p, v, []) == Matched(Named(tab, p, fill)) && |Named(tab, p, fill)| == Vars(tab, p)
  {
    hide Match, Builds, Named, Proper, Vars;
    InstanceMatches(tab, same, p, fill, v, []);
    NamedCount(tab, same, p, fill, v);
    assert [] + Named(tab, p, fill) == Named(tab, p, fill);
  }

  /** Matching succeeds exactly if the pattern is proper, has at most 64 occurrences of variables, and the value
      is an instance of it; then it binds each occurrence of a variable. */
  lemma MatchExactly(tab: Table, same: Same, p: Val, v: Val)
    requires Known(tab, p)
    ensures Match(tab, same, p, v, []).Matched? <==> IsInstance(tab, same, p, v)
    ensures Proper(tab, p) && Vars(tab, p) <= 64 ==>
              forall fill :: Builds(tab, same, p, fill, v) ==>
                Match(tab, same, p, v, []) == Matched(Named(tab, p, fill)) && |Named(tab, p, fill)| == Vars(tab, p)
  {
    hide Match, Builds, Named, Proper, Known, Vars;
    if Match(tab, same, p, v, []).Matched? {
      OnlyInstances(tab, same, p, v);
    }
    if Proper(tab, p) && Vars(tab, p) <= MAX_BINDINGS {
      forall fill | Builds(tab, same, p, fill, v)
        ensures Match(tab, same, p, v, []) == Matched(Named(tab, p, fill)) && |Named(tab, p, fill)| == Vars(tab, p)
      {
        InstanceBinds(tab, same, p, v, fill);
      }
    }
  }

  /** A proper pattern with few enough variables never leads to an error. */
  lemma {:induction false} NeverBad(tab: Table, same: Same, p: Val, v: Val, b: seq<Binding>)
    requires Proper(tab, p) && |b| + Vars(tab, p) <= MAX_BINDINGS
    ensures Match(tab, same, p, v, b) != Bad
    ensures Match(tab, same, p, v, b).Matched? ==> |Match(tab, same, p, v, b).b| == |b| + Vars(tab, p)
    decreases p
  {
    if p.Lis? {
      var l := p.l;
      var k := Heads(tab, l);
      if IsCons(tab, l) {
        if v.Lis? && v.l != [] {
          NeverBadHeads(tab, same, l[..k], v.l, b);
          var r := MatchHeads(tab, same, l[..k], v.l, b);
          if r.Matched? {
            NeverBad(tab, same, l[k + 1], Lis(v.l[k..]), r.b);
          }
        }
      } else {
        EmptyMatches(tab, same, l, v, b);
        if v.Lis? {
          NeverBadExact(tab, same, l, v.l, b);
        }
      }
    }
  }

  lemma {:induction false} NeverBadExact(tab: Table, same: Same, ps: seq<Val>, vs: seq<Val>, b: seq<Binding>)
    requires (forall i :: 0 <= i < |ps| ==> Proper(tab, ps[i])) && |b| + VarsAll(tab, ps) <= MAX_BINDINGS
    ensures MatchExact(tab, same, ps, vs, b) != Bad
    ensures MatchExact(tab, same, ps, vs, b).Matched? ==> |MatchExact(tab, same, ps, vs, b).b| == |b| + VarsAll(tab, ps)
    decreases ps
  {
    if ps != [] && vs != [] {
      NeverBad(tab, same, ps[0], vs[0], b);
      var r := Match(tab, same, ps[0], vs[0], b);
      if r.Matched? {
        NeverBadExact(tab, same, ps[1..], vs[1..], r.b);
      }
    }
  }

  lemma {:induction false} NeverBadHeads(tab: Table, same: Same, ps: seq<Val>, vs: seq<Val>, b: seq<Binding>)
    requires (forall i :: 0 <= i < |ps| ==> Proper(tab, ps[i])) && |b| + VarsAll(tab, ps) <= MAX_BINDINGS
    ensures MatchHeads(tab, same, ps, vs, b) != Bad
    ensures MatchHeads(tab, same, ps, vs, b).Matched? ==> |MatchHeads(tab, same, ps, vs, b).b| == |b| + VarsAll(tab, ps)
    decreases ps
  {
    if ps != [] && vs != [] {
      NeverBad(tab, same, ps[0], vs[0], b);
      var r := Match(tab, same, ps[0], vs[0], b);
      if r.Matched? {
        NeverBadHeads(tab, same, ps[1..], vs[1..], r.b);
      }
    }
  }

  // ----- the documented patterns -----

  /** _ matches anything, a name is bound to what it stands for, and [] matches the empty list only. */
  lemma NamePatterns(tab: Table, same: Same, i: nat, v: Val, b: seq<Binding>)
    requires i < |tab|
    ensures tab[i].name == "_" ==> Match(tab, same, Usr(i), v, b) == Matched(b)
    ensures tab[i].name != "_" && |b| < 64 ==> Match(tab, same, Usr(i), v, b) == Matched(b + [Binding(i, v, tab[i])])
    ensures tab[i].name != "_" && |b| >= 64 ==> Match(tab, same, Usr(i), v, b) == Bad
    ensures Match(tab, same, Lis([]), v, b) == if v == Lis([]) then Matched(b) else NoMatch
  {
  }

  /** [h : t] binds h to the first node of a list and t to the rest. */
  lemma ConsPattern(tab: Table, same: Same, h: nat, colon: nat, t: nat, l: seq<Val>, b: seq<Binding>)
    requires h < |tab| && colon < |tab| && t < |tab| && tab[colon].name == ":" && |b| <= 62
    requires tab[h].name != "_" && tab[h].name != ":" && tab[t].name != "_"
    ensures Match(tab, same, Lis([Usr(h), Usr(colon), Usr(t)]), Lis([]), b) == NoMatch
    ensures l != [] ==> Match(tab, same, Lis([Usr(h), Usr(colon), Usr(t)]), Lis(l), b) ==
                        Matched(b + [Binding(h, l[0], tab[h]), Binding(t, Lis(l[1..]), tab[t])])
  {
    var p := [Usr(h), Usr(colon), Usr(t)];
    assert p[1..][0] == Usr(colon) && Heads(tab, p[1..]) == 0 && Heads(tab, p) == 1;
    if l != [] {
      var b1 := b + [Binding(h, l[0], tab[h])];
      assert p[..1] == [Usr(h)] && p[..1][1..] == [];
      assert Match(tab, same, Usr(h), l[0], b) == Matched(b1);
      assert MatchHeads(tab, same, [], l[1..], b1) == Matched(b1);
      assert MatchHeads(tab, same, p[..1], l, b) == Matched(b1);
      assert b1 + [Binding(t, Lis(l[1..]), tab[t])] == b + [Binding(h, l[0], tab[h]), Binding(t, Lis(l[1..]), tab[t])];
    }
  }

  /** [a b] matches lists of two. */
  lemma ListPattern(tab: Table, same: Same, x: nat, y: nat, l: seq<Val>, b: seq<Binding>)
    requires x < |tab| && y < |tab| && |b| <= 62
    requires tab[x].name != "_" && tab[x].name != ":" && tab[y].name != "_" && tab[y].name != ":"
    ensures Match(tab, same, Lis([Usr(x), Usr(y)]), Lis(l), b) ==
            if |l| == 2 then Matched(b + [Binding(x, l[0], tab[x]), Binding(y, l[1], tab[y])]) else NoMatch
  {
    var p := [Usr(x), Usr(y)];
    assert p[1..] == [Usr(y)] && p[1..][1..] == [];
    assert Heads(tab, p[1..]) == 1 && Heads(tab, p) == 2;
    if l != [] {
      var b1 := b + [Binding(x, l[0], tab[x])];
      assert Match(tab, same, Usr(x), l[0], b) == Matched(b1);
      assert MatchExact(tab, same, p, l, b) == MatchExact(tab, same, p[1..], l[1..], b1);
      if |l| > 1 {
        var b2 := b1 + [Binding(y, l[1], tab[y])];
        assert l[1..][0] == l[1] && l[1..][1..] == l[2..];
        assert Match(tab, same, Usr(y), l[1], b1) == Matched(b2);
        assert MatchExact(tab, same, p[1..], l[1..], b1) == MatchExact(tab, same, [], l[2..], b2);
        assert b2 == b + [Binding(x, l[0], tab[x]), Binding(y, l[1], tab[y])];
      }
    }
  }
}
