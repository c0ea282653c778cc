/** How match, cases and let bind names in the symbol table and put the old entries back. */
module Scopes {
  import opened Patterns

  // ----- match and cases -----

  ghost predicate WellBound(tab: Table, b: seq<Binding>) {
    forall i :: 0 <= i < |b| ==> b[i].sym < |tab| && b[i].saved == tab[b[i].sym]
  }

  function Bound(e: Entry, v: Val): Entry {
    e.(isUser := true, body := [v])
  }

  /** The table after the bindings have been applied, the first one first. */
  ghost function Applied(tab: Table, b: seq<Binding>): (t: Table)
    requires forall i :: 0 <= i < |b| ==> b[i].sym < |tab|
    ensures |t| == |tab|
    decreases |b|
  {
    if b == [] then tab
    else
      var last := b[|b| - 1];
      Applied(tab, b[..|b| - 1])[last.sym := Bound(last.saved, last.value)]
  }

  ghost function Restored(tab: Table, b: seq<Binding>): (t: Table)
    requires forall i :: 0 <= i < |b| ==> b[i].sym < |tab|
    ensures |t| == |tab|
    decreases |b|
  {
    if b == [] then tab
    else
      var last := b[|b| - 1];
      Restored(tab, b[..|b| - 1])[last.sym := last.saved]
  }

  /** Binding k is the last one of its symbol. */
  ghost predicate LastBinding(b: seq<Binding>, k: int) {
    0 <= k < |b| && forall j :: k < j < |b| ==> b[j].sym != b[k].sym
  }

  /** While the bindings are in force each bound symbol stands for the value of its last occurrence, and all
      other entries are as they were. */
  lemma {:induction false} AppliedAt(tab: Table, b: seq<Binding>, x: nat)
    requires WellBound(tab, b) && x < |tab|
    ensures forall k :: 0 <= k < |b| && LastBinding(b, k) && b[k].sym == x ==> Applied(tab, b)[x] == Bound(tab[x], b[k].value)
    ensures (forall k :: 0 <= k < |b| ==> b[k].sym != x) ==> Applied(tab, b)[x] == tab[x]
    decreases |b|
  {
    hide Bound, Applied, WellBound, LastBinding;
    BoundParts(tab, b);
    AppliedStep(tab, b, x);
    if b != [] {
      var init := b[..|b| - 1];
      AppliedAt(tab, init, x);
      forall k | 0 <= k < |b| && LastBinding(b, k) && b[k].sym == x
        ensures Applied(tab, b)[x] == Bound(tab[x], b[k].value)
      {
        LastInit(b, k);
      }
    }
  }

  lemma LastInit(b: seq<Binding>, k: int)
    requires LastBinding(b, k)
    ensures 0 <= k < |b|
    ensures k < |b| - 1 ==> b[|b| - 1].sym != b[k].sym && b[..|b| - 1][k] == b[k] && LastBinding(b[..|b| - 1], k)
  {
  }

  lemma BoundParts(tab: Table, b: seq<Binding>)
    requires WellBound(tab, b)
    ensures forall i :: 0 <= i < |b| ==> b[i].sym < |tab|
    ensures b != [] ==> WellBound(tab, b[..|b| - 1]) && b[|b| - 1].saved == tab[b[|b| - 1].sym]
  {
  }

  lemma AppliedStep(tab: Table, b: seq<Binding>, x: nat)
    requires (forall i :: 0 <= i < |b| ==> b[i].sym < |tab|) && x < |tab|
    ensures b == [] ==> Applied(tab, b) == tab
    ensures b != [] ==>
              var last := b[|b| - 1];
              Applied(tab, b)[x] == if last.sym == x then Bound(last.saved, last.value) else Applied(tab, b[..|b| - 1])[x]
  {
    hide Bound;
  }

  /** Whatever the action did to the table, afterwards every bound symbol has its first entry again, also when
      it was bound more than once, and all other entries are as the action left them. */
  lemma {:induction false} RestoredAt(tab: Table, after: Table, b: seq<Binding>, x: nat)
    requires WellBound(tab, b) && |tab| <= |after| && x < |after|
    ensures (exists k :: 0 <= k < |b| && b[k].sym == x) ==> x < |tab| && Restored(after, b)[x] == tab[x]
    ensures (forall k :: 0 <= k < |b| ==> b[k].sym != x) ==> Restored(after, b)[x] == after[x]
    decreases |b|
  {
    if b != [] {
      var init := b[..|b| - 1];
      RestoredAt(tab, after, init, x);
      if k :| 0 <= k < |b| && b[k].sym == x {
        if b[|b| - 1].sym != x {
          assert init[k].sym == x;
        }
      }
    }
  }

  /** An action that leaves the table as it found it leaves no trace. */
  lemma NoTrace(tab: Table, b: seq<Binding>)
    requires WellBound(tab, b)
    ensures Restored(Applied(tab, b), b) == tab
  {
    forall x: nat | x < |tab| ensures Restored(Applied(tab, b), b)[x] == tab[x] {
      RestoredAt(tab, Applied(tab, b), b, x);
      AppliedAt(tab, b, x);
    }
  }

  lemma {:induction false} MatchBinds(tab: Table, same: Same, p: Val, v: Val, b: seq<Binding>)
    requires WellBound(tab, b) && Match(tab, same, p, v, b).Matched?
    ensures WellBound(tab, Match(tab, same, p, v, b).b)
    decreases p
  {
    if p.Lis? {
      var k := Heads(tab, p.l);
      if p.l != [] && k == |p.l| {
        ExactBinds(tab, same, p.l, v.l, b);
      } else if p.l != [] {
        HeadsBind(tab, same, p.l[..k], v.l, b);
        MatchBinds(tab, same, p.l[k + 1], Lis(v.l[k..]), MatchHeads(tab, same, p.l[..k], v.l, b).b);
      }
    }
  }

  lemma {:induction false} ExactBinds(tab: Table, same: Same, ps: seq<Val>, vs: seq<Val>, b: seq<Binding>)
    requires WellBound(tab, b) && MatchExact(tab, same, ps, vs, b).Matched?
    ensures WellBound(tab, MatchExact(tab, same, ps, vs, b).b)
    decreases ps
  {
    if ps != [] {
      MatchBinds(tab, same, ps[0], vs[0], b);
      ExactBinds(tab, same, ps[1..], vs[1..], Match(tab, same, ps[0], vs[0], b).b);
    }
  }

  lemma {:induction false} HeadsBind(tab: Table, same: Same, ps: seq<Val>, vs: seq<Val>, b: seq<Binding>)
    requires WellBound(tab, b) && MatchHeads(tab, same, ps, vs, b).Matched?
    ensures WellBound(tab, MatchHeads(tab, same, ps, vs, b).b)
    decreases ps
  {
    if ps != [] {
      MatchBinds(tab, same, ps[0], vs[0], b);
      HeadsBind(tab, same, ps[1..], vs[1..], Match(tab, same, ps[0], vs[0], b).b);
    }
  }

  // ----- let -----

  /** The table after the first k of a run of bindings. */
  ghost function Let(tab: Table, names: seq<nat>, vals: seq<Val>, k: nat): (t: Table)
    requires k <= |names| && k <= |vals| && forall i :: 0 <= i < |names| ==> names[i] < |tab|
    ensures |t| == |tab|
    decreases k
  {
    if k == 0 then tab
    else
      var t := Let(tab, names, vals, k - 1);
      t[names[k - 1] := Bound(t[names[k - 1]], vals[k - 1])]
  }

  /** The entry that binding k replaces. */
  ghost function SavedAt(tab: Table, names: seq<nat>, vals: seq<Val>, k: nat): Entry
    requires k < |names| && k < |vals| && forall i :: 0 <= i < |names| ==> names[i] < |tab|
  {
    Let(tab, names, vals, k)[names[k]]
  }

  /** Undoing the first k bindings, the last one first. */
  ghost function UndoDown(t: Table, tab: Table, names: seq<nat>, vals: seq<Val>, k: nat): (r: Table)
    requires k <= |names| && k <= |vals| && |tab| <= |t| && forall i :: 0 <= i < |names| ==> names[i] < |tab|
    ensures |r| == |t|
    decreases k
  {
    if k == 0 then t
    else UndoDown(t[names[k - 1] := SavedAt(tab, names, vals, k - 1)], tab, names, vals, k - 1)
  }

  /** Undoing bindings, the first one first. */
  ghost function UndoUp(t: Table, tab: Table, names: seq<nat>, vals: seq<Val>, k: nat): (r: Table)
    requires k <= |names| && k <= |vals| && |tab| <= |t| && forall i :: 0 <= i < |names| ==> names[i] < |tab|
    ensures |r| == |t|
    decreases k
  {
    if k == 0 then t
    else UndoUp(t, tab, names, vals, k - 1)[names[k - 1] := SavedAt(tab, names, vals, k - 1)]
  }

  lemma {:induction false} LetElsewhere(tab: Table, names: seq<nat>, vals: seq<Val>, k: nat, x: nat)
    requires k <= |names| && k <= |vals| && (forall i :: 0 <= i < |names| ==> names[i] < |tab|)
    requires x < |tab| && forall i :: 0 <= i < k ==> names[i] != x
    ensures Let(tab, names, vals, k)[x] == tab[x]
    decreases k
  {
    if k > 0 {
      LetElsewhere(tab, names, vals, k - 1, x);
    }
  }

  /** A let that ends normally: every bound name has its old entry again, even a repeated one, and the others
      are as the body left them. */
  lemma {:induction false} LetRestores(t: Table, tab: Table, names: seq<nat>, vals: seq<Val>, k: nat, x: nat)
    requires k <= |names| && k <= |vals| && |tab| <= |t| && (forall i :: 0 <= i < |names| ==> names[i] < |tab|) && x < |t|
    ensures (exists i :: 0 <= i < k && names[i] == x) ==> x < |tab| && UndoDown(t, tab, names, vals, k)[x] == tab[x]
    ensures (forall i :: 0 <= i < k ==> names[i] != x) ==> UndoDown(t, tab, names, vals, k)[x] == t[x]
    decreases k
  {
    if k > 0 {
      var u := t[names[k - 1] := SavedAt(tab, names, vals, k - 1)];
      LetRestores(u, tab, names, vals, k - 1, x);
      if (forall i :: 0 <= i < k - 1 ==> names[i] != x) && names[k - 1] == x {
        LetElsewhere(tab, names, vals, k - 1, x);
      }
    }
  }

  /** Name k does not occur again before name n. */
  predicate LastOf(names: seq<nat>, n: nat, k: nat)
    requires n <= |names|
  {
    k < n && forall j :: k < j < n ==> names[j] != names[k]
  }

  lemma {:induction false} UndoUpAt(t: Table, tab: Table, names: seq<nat>, vals: seq<Val>, n: nat, x: nat)
    requires n <= |names| && n <= |vals| && |tab| <= |t| && (forall i :: 0 <= i < |names| ==> names[i] < |tab|) && x < |t|
    ensures forall k :: 0 <= k < n && names[k] == x && LastOf(names, n, k) ==>
              UndoUp(t, tab, names, vals, n)[x] == SavedAt(tab, names, vals, k)
    ensures (forall k :: 0 <= k < n ==> names[k] != x) ==> UndoUp(t, tab, names, vals, n)[x] == t[x]
    decreases n
  {
    if n > 0 {
      UndoUpAt(t, tab, names, vals, n - 1, x);
      forall k | 0 <= k < n && names[k] == x && LastOf(names, n, k)
        ensures UndoUp(t, tab, names, vals, n)[x] == SavedAt(tab, names, vals, k)
      {
        if k < n - 1 {
          assert names[n - 1] != names[k] && LastOf(names, n - 1, k);
        }
      }
    }
  }

  lemma {:induction false} HasLast(names: seq<nat>, n: nat, i: nat) returns (k: nat)
    requires i < n <= |names|
    ensures k < n && names[k] == names[i] && LastOf(names, n, k)
    decreases n - i
  {
    if j :| i < j < n && names[j] == names[i] {
      k := HasLast(names, n, j);
    } else {
      k := i;
    }
  }

  /** After k bindings a name stands for the value of the last of its own. */
  lemma {:induction false} LetAt(tab: Table, names: seq<nat>, vals: seq<Val>, k: nat, j: nat)
    requires k <= |names| && k <= |vals| && (forall i :: 0 <= i < |names| ==> names[i] < |tab|)
    requires LastOf(names, k, j)
    ensures Let(tab, names, vals, k)[names[j]] == Bound(tab[names[j]], vals[j])
    decreases k
  {
    if j < k - 1 {
      assert LastOf(names, k - 1, j);
      LetAt(tab, names, vals, k - 1, j);
    } else if i :| 0 <= i < j && names[i] == names[j] {
      var l := HasLast(names, j, i);
      LetAt(tab, names, vals, j, l);
    } else {
      LetElsewhere(tab, names, vals, j, names[j]);
    }
  }

  /** Of the first n names, k is the last place of its name and j the one before that. */
  predicate LastTwo(names: seq<nat>, n: nat, j: nat, k: nat)
    requires n <= |names|
  {
    j < k < n && LastOf(names, k, j) && names[j] == names[k] && LastOf(names, n, k)
  }

  /** Undoing forwards leaves a name that is bound more than once with the value of its last binding but one. */
  lemma UndoneTwice(tab: Table, names: seq<nat>, vals: seq<Val>, n: nat, j: nat, k: nat)
    requires n <= |names| && n <= |vals| && (forall i :: 0 <= i < |names| ==> names[i] < |tab|)
    requires LastTwo(names, n, j, k)
    ensures UndoUp(Let(tab, names, vals, n), tab, names, vals, n)[names[j]] == Bound(tab[names[j]], vals[j])
  {
    hide Bound, Let, UndoUp;
    UndoUpAt(Let(tab, names, vals, n), tab, names, vals, n, names[k]);
    LetAt(tab, names, vals, k, j);
  }

  /** The last place of a name, and the one before it if there are two. */
  lemma LastPlaces(names: seq<nat>, n: nat, i: nat) returns (j: nat, k: nat, twice: bool)
    requires i < n <= |names|
    ensures LastOf(names, n, k) && names[k] == names[i]
    ensures twice ==> LastTwo(names, n, j, k) && names[j] == names[i]
    ensures !twice ==> forall l :: 0 <= l < k ==> names[l] != names[i]
  {
    k := HasLast(names, n, i);
    j, twice := 0, false;
    if l: nat :| l < k && names[l] == names[i] {
      j := HasLast(names, k, l);
      twice := true;
    }
  }

  /** A name that is bound once has its old entry again. */
  lemma UndoneOnce(tab: Table, names: seq<nat>, vals: seq<Val>, n: nat, k: nat)
    requires n <= |names| && n <= |vals| && (forall i :: 0 <= i < |names| ==> names[i] < |tab|)
    requires LastOf(names, n, k) && forall l :: 0 <= l < k ==> names[l] != names[k]
    ensures UndoUp(Let(tab, names, vals, n), tab, names, vals, n)[names[k]] == tab[names[k]]
  {
    hide Bound, Let, UndoUp;
    UndoUpAt(Let(tab, names, vals, n), tab, names, vals, n, names[k]);
    LetElsewhere(tab, names, vals, k, names[k]);
  }

  /** A let that runs out of values undoes its n bindings in the order in which it made them.  That restores the
      table exactly if every name that is bound more than once already stands, before the let, for the value that
      its last binding but one gives it. */
  lemma FailedLetExactly(tab: Table, names: seq<nat>, vals: seq<Val>, n: nat)
    requires n <= |names| && n <= |vals| && forall i :: 0 <= i < |names| ==> names[i] < |tab|
    ensures UndoUp(Let(tab, names, vals, n), tab, names, vals, n) == tab <==>
            forall j: nat, k: nat :: LastTwo(names, n, j, k) ==> tab[names[j]] == Bound(tab[names[j]], vals[j])
  {
    hide Bound, Let, UndoUp;
    var r := UndoUp(Let(tab, names, vals, n), tab, names, vals, n);
    forall j: nat, k: nat | LastTwo(names, n, j, k) ensures r[names[j]] == Bound(tab[names[j]], vals[j]) {
      UndoneTwice(tab, names, vals, n, j, k);
    }
    if forall j: nat, k: nat :: LastTwo(names, n, j, k) ==> tab[names[j]] == Bound(tab[names[j]], vals[j]) {
      forall x: nat | x < |tab| ensures r[x] == tab[x] {
        if i: nat :| i < n && names[i] == x {
          var j, k, twice := LastPlaces(names, n, i);
          if twice {
            UndoneTwice(tab, names, vals, n, j, k);
          } else {
            UndoneOnce(tab, names, vals, n, k);
          }
        } else {
          UndoUpAt(Let(tab, names, vals, n), tab, names, vals, n, x);
          LetElsewhere(tab, names, vals, n, x);
        }
      }
    }
  }

  /** Without a repeated name it does. */
  lemma FailedLetDistinct(tab: Table, names: seq<nat>, vals: seq<Val>, n: nat)
    requires n <= |names| && n <= |vals| && (forall i :: 0 <= i < |names| ==> names[i] < |tab|)
    requires forall i, j :: 0 <= i < j < n ==> names[i] != names[j]
    ensures UndoUp(Let(tab, names, vals, n), tab, names, vals, n) == tab
  {
    forall j: nat, k: nat ensures !LastTwo(names, n, j, k) {
    }
    FailedLetExactly(tab, names, vals, n);
  }

  /** With a repeated name it need not: after a let of three names with two values, a name without a
      definition is left with one of the values. */
  lemma FailedLetLeaks(v: Val, w: Val)
    ensures var tab, names := [Entry("a", false, []), Entry("b", false, [])], [0, 0, 1];
            UndoUp(Let(tab, names, [v, w], 2), tab, names, [v, w], 2) == [Entry("a", true, [v]), Entry("b", false, [])]
  {
    var tab := [Entry("a", false, []), Entry("b", false, [])];
    var names, vals := [0, 0, 1], [v, w];
    var t1 := Let(tab, names, vals, 1);
    assert t1 == Let(tab, names, vals, 0)[0 := Entry("a", true, [v])];
    var t := Let(tab, names, vals, 2);
    assert SavedAt(tab, names, vals, 1) == t1[0];
    assert UndoUp(t, tab, names, vals, 2) == UndoUp(t, tab, names, vals, 1)[0 := t1[0]];
  }

  // ----- the combinators -----

  /** What executing an action does: it fails, or leaves a table with at least the old symbols and a stack. */
  datatype Run = Failed | Ran(tab: Table, stack: seq<Val>)

  type Action = (seq<Val>, Table, seq<Val>) -> Run

  ghost predicate KeepsSymbols(exec: Action) {
    forall a, t, s :: exec(a, t, s).Ran? ==> |t| <= |exec(a, t, s).tab|
  }

  const FALSE := Lit(0, 0)

  datatype Verdict = Yes | No | Wrong

  ghost predicate Decides(r: Verdict, b: seq<Binding>, spec: Outcome) {
    match spec
    case Matched(b1) => r.Yes? && b == b1
    case NoMatch => r.No?
    case Bad => r.Wrong?
  }

  class Interpreter {
    const same: Same
    const exec: Action
    var symtab: Table
    var stck: seq<Val>
    /** The array of bindings of the current match. */
    var bindings: seq<Binding>

    constructor (same: Same, exec: Action)
      ensures this.same == same && this.exec == exec && symtab == [] && stck == [] && bindings == []
    {
      this.same, this.exec := same, exec;
      symtab, stck, bindings := [], [], [];
    }

    /** The position of the colon, counted from 1; 0 if there is none. */
    method FindColon(l: seq<Val>) returns (pos: nat)
      ensures pos == if Heads(symtab, l) < |l| then Heads(symtab, l) + 1 else 0
    {
      var i := 0;
      while i < |l|
        invariant i <= |l| && Heads(symtab, l) == i + Heads(symtab, l[i..])
      {
        if IsColon(symtab, l[i]) {
          return i + 1;
        }
        assert l[i..][1..] == l[i + 1..];
        i := i + 1;
      }
      pos := 0;
    }

    method PatternMatch(p: Val, v: Val) returns (r: Verdict)
      requires Known(symtab, p)
      modifies this`bindings
      ensures Decides(r, bindings, Match(symtab, same, p, v, old(bindings)))
      decreases p, 1
    {
      hide MatchExact, MatchHeads;
      match p {
        case Usr(i) =>
          if IsWild(symtab, p) {
            return Yes;
          }
          if |bindings| >= MAX_BINDINGS {
            return Wrong;
          }
          bindings := bindings + [Binding(i, v, symtab[i])];
          r := Yes;
        case Lis(l) =>
          if l == [] {
            return if v == Lis([]) then Yes else No;
          }
          var colon := FindColon(l);
          if colon > 0 {
            r := MatchCons(l, colon - 1, v);
          } else {
            r := MatchList(l, v);
          }
        case Lit(_, _) => r := if same(p, v) then Yes else No;
        case Fun(_) => r := No;
      }
    }

    /** A cons pattern with k nodes before its colon. */
    method MatchCons(l: seq<Val>, k: nat, v: Val) returns (r: Verdict)
      requires k == Heads(symtab, l) < |l| && forall i :: 0 <= i < |l| ==> Known(symtab, l[i])
      modifies this`bindings
      ensures Decides(r, bindings, Match(symtab, same, Lis(l), v, old(bindings)))
      decreases l, 1
    {
      hide MatchHeads;
      if !v.Lis? || v.l == [] {
        return No;
      }
      if |l| != k + 2 {
        return Wrong;
      }
      ghost var b := bindings;
      r := MatchFirst(l, k, v.l);
      if r.Yes? {
        HeadsFit(symtab, same, l[..k], v.l, b);
        r := PatternMatch(l[k + 1], Lis(v.l[k..]));
      }
    }

    /** The first k nodes of a pattern against the first nodes of a list. */
    method MatchFirst(l: seq<Val>, k: nat, vs: seq<Val>) returns (r: Verdict)
      requires k < |l| && forall i :: 0 <= i < |l| ==> Known(symtab, l[i])
      modifies this`bindings
      ensures Decides(r, bindings, MatchHeads(symtab, same, l[..k], vs, old(bindings)))
      decreases l, 0
    {
      hide MatchHeads, Match, Known;
      ghost var b, heads := bindings, l[..k];
      var i := 0;
      while i < k
        invariant i <= k && i <= |vs|
        invariant MatchHeads(symtab, same, heads, vs, b) == MatchHeads(symtab, same, heads[i..], vs[i..], bindings)
      {
        HeadsStep(symtab, same, heads[i..], vs[i..], bindings);
        if i == |vs| {
          return No;
        }
        assert heads[i..][1..] == heads[i + 1..] && vs[i..][1..] == vs[i + 1..];
        r := PatternMatch(l[i], vs[i]);
        if !r.Yes? {
          return;
        }
        i := i + 1;
      }
      HeadsStep(symtab, same, heads[i..], vs[i..], bindings);
      r := Yes;
    }

    method MatchList(l: seq<Val>, v: Val) returns (r: Verdict)
      requires l != [] && Heads(symtab, l) == |l| && forall i :: 0 <= i < |l| ==> Known(symtab, l[i])
      modifies this`bindings
      ensures Decides(r, bindings, Match(symtab, same, Lis(l), v, old(bindings)))
      decreases l, 0
    {
      hide MatchExact;
      if !v.Lis? {
        return No;
      }
      ghost var b := bindings;
      var i := 0;
      while i < |l| && i < |v.l|
        invariant i <= |l| && i <= |v.l|
        invariant MatchExact(symtab, same, l, v.l, b) == MatchExact(symtab, same, l[i..], v.l[i..], bindings)
      {
        ExactStep(symtab, same, l[i..], v.l[i..], bindings);
        assert l[i..][1..] == l[i + 1..] && v.l[i..][1..] == v.l[i + 1..];
        r := PatternMatch(l[i], v.l[i]);
        if !r.Yes? {
          return;
        }
        i := i + 1;
      }
      ExactStep(symtab, same, l[i..], v.l[i..], bindings);
      r := if i == |l| && i == |v.l| then Yes else No;
    }

    method Apply()
      requires WellBound(symtab, bindings)
      modifies this`symtab
      ensures symtab == Applied(old(symtab), bindings)
    {
      var i := 0;
      ghost var tab := symtab;
      assert bindings[..0] == [];
      while i < |bindings|
        invariant i <= |bindings| && symtab == Applied(tab, bindings[..i])
      {
        assert bindings[..i + 1][..i] == bindings[..i];
        var b := bindings[i];
        symtab := symtab[b.sym := Bound(b.saved, b.value)];
        i := i + 1;
      }
      assert bindings[..i] == bindings;
    }

    method Restore()
      requires forall i :: 0 <= i < |bindings| ==> bindings[i].sym < |symtab|
      modifies this`symtab
      ensures symtab == Restored(old(symtab), bindings)
    {
      var i := 0;
      ghost var tab := symtab;
      assert bindings[..0] == [];
      while i < |bindings|
        invariant i <= |bindings| && symtab == Restored(tab, bindings[..i])
      {
        assert bindings[..i + 1][..i] == bindings[..i];
        symtab := symtab[bindings[i].sym := bindings[i].saved];
        i := i + 1;
      }
      assert bindings[..i] == bindings;
    }

    /** Executes an action; false is an error. */
    method Execute(action: seq<Val>) returns (ok: bool)
      modifies this`symtab, this`stck
      ensures var r := exec(action, old(symtab), old(stck));
              ok == r.Ran? && (ok ==> symtab == r.tab && stck == r.stack)
    {
      var r := exec(action, symtab, stck);
      ok := r.Ran?;
      if ok {
        symtab, stck := r.tab, r.stack;
      }
    }

    /** Executes an action under the current bindings: meanwhile each bound symbol stands for the value of its last
        binding.  If the action ends well, every bound symbol has its old entry again, and every other entry is
        what the action left. */
    method RunScoped(action: seq<Val>) returns (ok: bool, ghost during: Table)
      requires WellBound(symtab, bindings) && KeepsSymbols(exec)
      modifies this`symtab, this`stck
      ensures |during| == |old(symtab)| && forall k :: 0 <= k < |bindings| ==> bindings[k].sym < |during|
      ensures forall k :: 0 <= k < |bindings| && (forall j :: k < j < |bindings| ==> bindings[j].sym != bindings[k].sym) ==>
                during[bindings[k].sym] == Entry(old(symtab)[bindings[k].sym].name, true, [bindings[k].value])
      ensures forall x :: 0 <= x < |during| && (forall k :: 0 <= k < |bindings| ==> bindings[k].sym != x) ==>
                during[x] == old(symtab)[x]
      ensures var r := exec(action, during, old(stck));
              && ok == r.Ran?
              && (ok ==> stck == r.stack && |symtab| == |r.tab| >= |during|)
              && (ok ==> forall k :: 0 <= k < |bindings| ==> symtab[bindings[k].sym] == old(symtab)[bindings[k].sym])
              && (ok ==> forall x :: 0 <= x < |symtab| && (forall k :: 0 <= k < |bindings| ==> bindings[k].sym != x) ==>
                           symtab[x] == r.tab[x])
    {
      hide Applied, Restored;
      ghost var tab, b := symtab, bindings;
      Apply();
      during := symtab;
      forall x: nat | x < |tab|
        ensures forall k :: LastBinding(b, k) && b[k].sym == x ==> during[x] == Bound(tab[x], b[k].value)
        ensures (forall k :: 0 <= k < |b| ==> b[k].sym != x) ==> during[x] == tab[x]
      {
        AppliedAt(tab, b, x);
      }
      ok := Execute(action);
      if ok {
        ghost var after := symtab;
        Restore();
        forall x: nat | x < |after|
          ensures (exists k :: 0 <= k < |b| && b[k].sym == x) ==> x < |tab| && symtab[x] == tab[x]
          ensures (forall k :: 0 <= k < |b| ==> b[k].sym != x) ==> symtab[x] == after[x]
        {
          RestoredAt(tab, after, b, x);
        }
      }
    }

    /** match: X [pattern] [action].  An empty pattern matches without bindings; otherwise the first node of the
        pattern decides.  `during` is the symbol table that the action finds. */
    method MatchOp() returns (ok: bool, ghost during: Table)
      requires |stck| >= 3 && stck[0].Lis? && stck[1].Lis? && stck[1].l != [] ==> Known(symtab, stck[1].l[0])
      requires KeepsSymbols(exec)
      modifies this
      ensures |old(stck)| < 3 || !old(stck)[0].Lis? || !old(stck)[1].Lis? ==> !ok
      ensures |old(stck)| >= 3 && old(stck)[0].Lis? && old(stck)[1].Lis? ==>
                var action, pattern, value, rest := old(stck)[0].l, old(stck)[1].l, old(stck)[2], old(stck)[3..];
                if pattern == [] then
                  var r := exec(action, old(symtab), rest);
                  ok == r.Ran? && (ok ==> symtab == r.tab && stck == r.stack)
                else
                  match Match(old(symtab), same, pattern[0], value, [])
                  case NoMatch => ok && symtab == old(symtab) && stck == [FALSE] + rest
                  case Bad => !ok
                  case Matched(b) =>
                    && bindings == b && |during| == |old(symtab)| && (forall k :: 0 <= k < |b| ==> b[k].sym < |during|)
                    && (forall k :: 0 <= k < |b| && (forall j :: k < j < |b| ==> b[j].sym != b[k].sym) ==>
                          during[b[k].sym] == Entry(old(symtab)[b[k].sym].name, true, [b[k].value]))
                    && (forall x :: 0 <= x < |during| && (forall k :: 0 <= k < |b| ==> b[k].sym != x) ==> during[x] == old(symtab)[x])
                    && var r := exec(action, during, rest);
                       && ok == r.Ran?
                       && (ok ==> stck == r.stack && |symtab| == |r.tab| >= |during|)
                       && (ok ==> forall k :: 0 <= k < |b| ==> symtab[b[k].sym] == old(symtab)[b[k].sym])
                       && (ok ==> forall x :: 0 <= x < |symtab| && (forall k :: 0 <= k < |b| ==> b[k].sym != x) ==> symtab[x] == r.tab[x])
    {
      hide Match, WellBound;
      during := symtab;
      if |stck| < 3 || !stck[0].Lis? || !stck[1].Lis? {
        ok := false;
        return;
      }
      var action, pattern, value := stck[0].l, stck[1].l, stck[2];
      stck := stck[3..];
      if pattern == [] {
        ok := Execute(action);
        return;
      }
      bindings := [];
      NoneBound(symtab);
      var r := PatternMatch(pattern[0], value);
      if r.Yes? {
        MatchBinds(symtab, same, pattern[0], value, []);
        ok, during := RunScoped(action);
      } else if r.No? {
        stck := [FALSE] + stck;
        ok := true;
      } else {
        ok := false;
      }
    }

    /** cases: X followed by a list of [[pattern] [action]] pairs.  The first one that does not fail to match, at
        position `at`, decides; it is an error if there is none. */
    method CasesOp() returns (ok: bool, ghost at: nat, ghost during: Table)
      requires |stck| >= 2 && stck[0].Lis? ==> KnownCases(symtab, stck[0].l)
      requires KeepsSymbols(exec)
      modifies this
      ensures |old(stck)| < 2 || !old(stck)[0].Lis? ==> !ok
      ensures |old(stck)| >= 2 && old(stck)[0].Lis? ==>
                var cases, value, rest := old(stck)[0].l, old(stck)[1], old(stck)[2..];
                && at <= |cases|
                && (forall i :: 0 <= i < at ==>
                      && IsCase(cases[i]) && cases[i].l[0].l != []
                      && Match(old(symtab), same, cases[i].l[0].l[0], value, []) == NoMatch)
                && if at == |cases| || !IsCase(cases[at]) then !ok
                   else
                     var pattern, action := cases[at].l[0].l, cases[at].l[1].l;
                     if pattern == [] then
                       var r := exec(action, old(symtab), rest);
                       ok == r.Ran? && (ok ==> symtab == r.tab && stck == r.stack)
                     else
                       match Match(old(symtab), same, pattern[0], value, [])
                       case NoMatch => false
                       case Bad => !ok
                       case Matched(b) =>
                         && bindings == b && |during| == |old(symtab)| && (forall k :: 0 <= k < |b| ==> b[k].sym < |during|)
                         && (forall k :: 0 <= k < |b| && (forall j :: k < j < |b| ==> b[j].sym != b[k].sym) ==>
                               during[b[k].sym] == Entry(old(symtab)[b[k].sym].name, true, [b[k].value]))
                         && (forall x :: 0 <= x < |during| && (forall k :: 0 <= k < |b| ==> b[k].sym != x) ==>
                               during[x] == old(symtab)[x])
                         && var r := exec(action, during, rest);
                            && ok == r.Ran?
                            && (ok ==> stck == r.stack && |symtab| == |r.tab| >= |during|)
                            && (ok ==> forall k :: 0 <= k < |b| ==> symtab[b[k].sym] == old(symtab)[b[k].sym])
                            && (ok ==> forall x :: 0 <= x < |symtab| && (forall k :: 0 <= k < |b| ==> b[k].sym != x) ==>
                                  symtab[x] == r.tab[x])
    {
      hide Match, WellBound;
      at, during := 0, symtab;
      if |stck| < 2 || !stck[0].Lis? {
        ok := false;
        return;
      }
      var cases, value := stck[0].l, stck[1];
      stck := stck[2..];
      var i := 0;
      ghost var tab, rest := symtab, stck;
      while i < |cases|
        invariant i <= |cases| && symtab == tab && stck == rest
        invariant forall j :: 0 <= j < i ==>
                    && IsCase(cases[j]) && cases[j].l[0].l != []
                    && Match(tab, same, cases[j].l[0].l[0], value, []) == NoMatch
      {
        var c := cases[i];
        at := i;
        if !IsCase(c) {
          ok := false;
          return;
        }
        var pattern, action := c.l[0].l, c.l[1].l;
        bindings := [];
        if pattern == [] {
          ok := Execute(action);
          return;
        }
        NoneBound(symtab);
        var r := PatternMatch(pattern[0], value);
        if r.Yes? {
          MatchBinds(symtab, same, pattern[0], value, []);
          ok, during := RunScoped(action);
          return;
        }
        if r.Wrong? {
          ok := false;
          return;
        }
        i := i + 1;
      }
      ok, at := false, i;
    }

    method AllNames(names: seq<Val>) returns (all: bool)
      ensures all <==> forall i :: 0 <= i < |names| ==> names[i].Usr?
    {
      var i := 0;
      while i < |names|
        invariant i <= |names| && forall j :: 0 <= j < i ==> names[j].Usr?
      {
        if !names[i].Usr? {
          return false;
        }
        i := i + 1;
      }
      all := true;
    }

    /** let: values, then [names], then [body].  The last name gets the top of the stack, and so on; of a repeated
        name the first place counts.  If the body ends well, every name has its old entry again, and every other
        entry is what the body left.  With too few values the bindings made so far are undone in the order in
        which they were made. */
    method LetOp() returns (ok: bool, ghost during: Table)
      requires |stck| >= 2 && stck[1].Lis? ==> forall i :: 0 <= i < |stck[1].l| ==> Known(symtab, stck[1].l[i])
      requires KeepsSymbols(exec)
      modifies this
      ensures |old(stck)| < 2 || !old(stck)[0].Lis? || !old(stck)[1].Lis? ==> !ok
      ensures |old(stck)| >= 2 && old(stck)[0].Lis? && old(stck)[1].Lis? ==>
                var body, names, vals := old(stck)[0].l, old(stck)[1].l, old(stck)[2..];
                var n := |names|;
                if exists i :: 0 <= i < n && !names[i].Usr? then !ok
                else if |vals| < n then
                  && !ok && (forall i :: 0 <= i < n ==> names[i].ent < |old(symtab)|)
                  && symtab == UndoUp(Let(old(symtab), Order(names), vals, |vals|), old(symtab), Order(names), vals, |vals|)
                else
                  && |during| == |old(symtab)| && (forall i :: 0 <= i < n ==> names[i].ent < |during|)
                  && (forall i :: 0 <= i < n && (forall j :: 0 <= j < i ==> names[j].ent != names[i].ent) ==>
                        during[names[i].ent] == Entry(old(symtab)[names[i].ent].name, true, [vals[n - 1 - i]]))
                  && (forall x :: 0 <= x < |during| && (forall i :: 0 <= i < n ==> names[i].ent != x) ==> during[x] == old(symtab)[x])
                  && var r := exec(body, during, vals[n..]);
                     && ok == r.Ran?
                     && (ok ==> stck == r.stack && |symtab| == |r.tab| >= |during|)
                     && (ok ==> forall i :: 0 <= i < n ==> symtab[names[i].ent] == old(symtab)[names[i].ent])
                     && (ok ==> forall x :: 0 <= x < |symtab| && (forall i :: 0 <= i < n ==> names[i].ent != x) ==> symtab[x] == r.tab[x])
    {
      hide Let, UndoDown, UndoUp, SavedAt, Bound, Order;
      during := symtab;
      if |stck| < 2 || !stck[0].Lis? || !stck[1].Lis? {
        ok := false;
        return;
      }
      var body, names := stck[0].l, stck[1].l;
      stck := stck[2..];
      var all := AllNames(names);
      if !all {
        ok := false;
        return;
      }
      ok, during := LetNames(names, body);
    }

    method LetNames(names: seq<Val>, body: seq<Val>) returns (ok: bool, ghost during: Table)
      requires forall i :: 0 <= i < |names| ==> names[i].Usr? && names[i].ent < |symtab|
      requires KeepsSymbols(exec)
      modifies this`symtab, this`stck
      ensures var n, vals := |names|, old(stck);
              if |vals| < n then
                !ok && symtab == UndoUp(Let(old(symtab), Order(names), vals, |vals|), old(symtab), Order(names), vals, |vals|)
              else
                && |during| == |old(symtab)|
                && (forall i :: 0 <= i < n && (forall j :: 0 <= j < i ==> names[j].ent != names[i].ent) ==>
                      during[names[i].ent] == Entry(old(symtab)[names[i].ent].name, true, [vals[n - 1 - i]]))
                && (forall x :: 0 <= x < |during| && (forall i :: 0 <= i < n ==> names[i].ent != x) ==> during[x] == old(symtab)[x])
                && var r := exec(body, during, vals[n..]);
                   && ok == r.Ran?
                   && (ok ==> stck == r.stack && |symtab| == |r.tab| >= |during|)
                   && (ok ==> forall i :: 0 <= i < n ==> symtab[names[i].ent] == old(symtab)[names[i].ent])
                   && (ok ==> forall x :: 0 <= x < |symtab| && (forall i :: 0 <= i < n ==> names[i].ent != x) ==> symtab[x] == r.tab[x])
    {
      hide Let, UndoDown, UndoUp, SavedAt, Bound, Order;
      ghost var tab, vals := symtab, stck;
      var all, saved := BindNames(names);
      during := symtab;
      if !all {
        ok := false;
        return;
      }
      LetDuring(tab, names, vals);
      ok := Execute(body);
      if ok {
        LetAfter(symtab, tab, names, vals);
        UndoBackward(tab, Order(names), vals, names, saved);
      }
    }

    /** Binds the names to values from the stack, the last one first, and saves the entries; with too few values
        the bindings are undone. */
    method BindNames(names: seq<Val>) returns (all: bool, saved: seq<Entry>)
      requires forall i :: 0 <= i < |names| ==> names[i].Usr? && names[i].ent < |symtab|
      modifies this`symtab, this`stck
      ensures all <==> |names| <= |old(stck)|
      ensures all ==>
                && symtab == Let(old(symtab), Order(names), old(stck), |names|) && stck == old(stck)[|names|..]
                && |saved| == |names|
                && forall j :: 0 <= j < |names| ==> saved[j] == SavedAt(old(symtab), Order(names), old(stck), j)
      ensures !all ==>
                var n := |old(stck)|;
                symtab == UndoUp(Let(old(symtab), Order(names), old(stck), n), old(symtab), Order(names), old(stck), n)
    {
      hide Let, UndoDown, UndoUp, SavedAt, Bound, Order;
      ghost var tab, vals, order := symtab, stck, Order(names);
      var n := |names|;
      saved := [];
      var k := 0;
      LetNone(tab, order, vals, tab);
      while k < n
        invariant k <= n && k <= |vals| && |saved| == k && stck == vals[k..] && symtab == Let(tab, order, vals, k)
        invariant forall j :: 0 <= j < k ==> saved[j] == SavedAt(tab, order, vals, j)
      {
        var index := names[n - 1 - k].ent;
        if stck == [] {
          UndoForward(tab, order, vals, k, names, saved);
          all := false;
          return;
        }
        LetStep(tab, order, vals, k);
        saved := saved + [symtab[index]];
        symtab := symtab[index := Bound(symtab[index], stck[0])];
        stck := stck[1..];
        k := k + 1;
      }
      all := true;
    }

    /** Restores the first k entries in the order in which they were saved. */
    method UndoForward(ghost tab: Table, ghost order: seq<nat>, ghost vals: seq<Val>, k: nat, names: seq<Val>, saved: seq<Entry>)
      requires k <= |names| && |order| == |names| && k <= |vals| && |saved| == k && |symtab| == |tab|
      requires forall i :: 0 <= i < |names| ==> names[i].Usr? && names[i].ent < |tab|
      requires order == Order(names)
      requires forall j :: 0 <= j < k ==> saved[j] == SavedAt(tab, order, vals, j)
      modifies this`symtab
      ensures symtab == UndoUp(old(symtab), tab, order, vals, k)
    {
      hide Let, SavedAt;
      var j := 0;
      while j < k
        invariant j <= k && |symtab| == |tab| && symtab == UndoUp(old(symtab), tab, order, vals, j)
      {
        symtab := symtab[names[|names| - 1 - j].ent := saved[j]];
        j := j + 1;
      }
    }

    /** Restores all entries in the order of the names, which is the reverse of that in which they were saved. */
    method UndoBackward(ghost tab: Table, ghost order: seq<nat>, ghost vals: seq<Val>, names: seq<Val>, saved: seq<Entry>)
      requires |order| == |names| <= |vals| && |saved| == |names| && |symtab| >= |tab|
      requires forall i :: 0 <= i < |names| ==> names[i].Usr? && names[i].ent < |tab|
      requires order == Order(names)
      requires forall j :: 0 <= j < |names| ==> saved[j] == SavedAt(tab, order, vals, j)
      modifies this`symtab
      ensures symtab == UndoDown(old(symtab), tab, order, vals, |names|)
    {
      hide Let, SavedAt;
      var i, n := 0, |names|;
      while i < n
        invariant i <= n && |symtab| >= |tab|
        invariant UndoDown(symtab, tab, order, vals, n - i) == UndoDown(old(symtab), tab, order, vals, n)
      {
        symtab := symtab[names[i].ent := saved[n - 1 - i]];
        i := i + 1;
      }
    }
  }

  /** The symbols of the names in the order in which they are bound, the last one first. */
  ghost function Order(names: seq<Val>): (o: seq<nat>)
    requires forall i :: 0 <= i < |names| ==> names[i].Usr?
    ensures |o| == |names| && forall i :: 0 <= i < |names| ==> o[i] == names[|names| - 1 - i].ent
    decreases |names|
  {
    if names == [] then [] else [names[|names| - 1].ent] + Order(names[..|names| - 1])
  }

  lemma LetNone(tab: Table, order: seq<nat>, vals: seq<Val>, t: Table)
    requires t == tab && forall i :: 0 <= i < |order| ==> order[i] < |tab|
    ensures Let(tab, order, vals, 0) == t
  {
  }

  lemma LetStep(tab: Table, order: seq<nat>, vals: seq<Val>, k: nat)
    requires k < |order| && k < |vals| && forall i :: 0 <= i < |order| ==> order[i] < |tab|
    ensures var t := Let(tab, order, vals, k);
            && SavedAt(tab, order, vals, k) == t[order[k]]
            && Let(tab, order, vals, k + 1) == t[order[k] := Bound(t[order[k]], vals[k])]
  {
  }

  /** The table while the body of a let runs. */
  lemma LetDuring(tab: Table, names: seq<Val>, vals: seq<Val>)
    requires |names| <= |vals| && forall i :: 0 <= i < |names| ==> names[i].Usr? && names[i].ent < |tab|
    ensures var n, during := |names|, Let(tab, Order(names), vals, |names|);
            && (forall i :: 0 <= i < n && (forall j :: 0 <= j < i ==> names[j].ent != names[i].ent) ==>
                  during[names[i].ent] == Entry(tab[names[i].ent].name, true, [vals[n - 1 - i]]))
            && forall x :: 0 <= x < |during| && (forall i :: 0 <= i < n ==> names[i].ent != x) ==> during[x] == tab[x]
  {
    hide Let, Order;
    var n, order := |names|, Order(names);
    var during := Let(tab, order, vals, n);
    forall i | 0 <= i < n && forall j :: 0 <= j < i ==> names[j].ent != names[i].ent
      ensures during[names[i].ent] == Entry(tab[names[i].ent].name, true, [vals[n - 1 - i]])
    {
      var k := n - 1 - i;
      forall j | k < j < n ensures order[j] != order[k] {
        assert order[j] == names[n - 1 - j].ent;
      }
      LetAt(tab, order, vals, n, k);
    }
    forall x | 0 <= x < |during| && forall i :: 0 <= i < n ==> names[i].ent != x ensures during[x] == tab[x] {
      LetElsewhere(tab, order, vals, n, x);
    }
  }

  /** The table after a let whose body left t. */
  lemma LetAfter(t: Table, tab: Table, names: seq<Val>, vals: seq<Val>)
    requires |names| <= |vals| && |tab| <= |t| && forall i :: 0 <= i < |names| ==> names[i].Usr? && names[i].ent < |tab|
    ensures var n, after := |names|, UndoDown(t, tab, Order(names), vals, |names|);
            && (forall i :: 0 <= i < n ==> after[names[i].ent] == tab[names[i].ent])
            && forall x :: 0 <= x < |after| && (forall i :: 0 <= i < n ==> names[i].ent != x) ==> after[x] == t[x]
  {
    hide Let, UndoDown, Order, SavedAt;
    var n, order := |names|, Order(names);
    forall i | 0 <= i < n ensures UndoDown(t, tab, order, vals, n)[names[i].ent] == tab[names[i].ent] {
      assert order[n - 1 - i] == names[i].ent;
      LetRestores(t, tab, order, vals, n, names[i].ent);
    }
    forall x | 0 <= x < |t| && forall i :: 0 <= i < n ==> names[i].ent != x
      ensures UndoDown(t, tab, order, vals, n)[x] == t[x]
    {
      LetRestores(t, tab, order, vals, n, x);
    }
  }

  predicate IsCase(c: Val) {
    c.Lis? && |c.l| >= 2 && c.l[0].Lis? && c.l[1].Lis?
  }

  predicate KnownCases(tab: Table, l: seq<Val>) {
    forall i :: 0 <= i < |l| && IsCase(l[i]) && l[i].l[0].l != [] ==> Known(tab, l[i].l[0].l[0])
  }

  lemma NoneBound(tab: Table)
    ensures WellBound(tab, [])
  {
  }

  lemma HeadsFit(tab: Table, same: Same, ps: seq<Val>, vs: seq<Val>, b: seq<Binding>)
    requires MatchHeads(tab, same, ps, vs, b).Matched?
    ensures |ps| <= |vs|
  {
  }

  lemma HeadsStep(tab: Table, same: Same, ps: seq<Val>, vs: seq<Val>, b: seq<Binding>)
    ensures ps == [] ==> MatchHeads(tab, same, ps, vs, b) == Matched(b)
    ensures ps != [] && vs == [] ==> MatchHeads(tab, same, ps, vs, b) == NoMatch
    ensures ps != [] && vs != [] ==>
              var r := Match(tab, same, ps[0], vs[0], b);
              MatchHeads(tab, same, ps, vs, b) == if r.Matched? then MatchHeads(tab, same, ps[1..], vs[1..], r.b) else r
  {
    hide Match;
  }

  lemma ExactStep(tab: Table, same: Same, ps: seq<Val>, vs: seq<Val>, b: seq<Binding>)
    ensures ps == [] || vs == [] ==> MatchExact(tab, same, ps, vs, b) == if ps == [] && vs == [] then Matched(b) else NoMatch
    ensures ps != [] && vs != [] ==>
              var r := Match(tab, same, ps[0], vs[0], b);
              MatchExact(tab, same, ps, vs, b) == if r.Matched? then MatchExact(tab, same, ps[1..], vs[1..], r.b) else r
  {
    hide Match;
  }
}
