/** Identities for nodes that move.

    The program holds indices, which a collection changes.  Here every node keeps one identity from its
    allocation on: `abs` is the heap in terms of identities, `loc` says where each identity lies at the
    moment, and a collection changes only `loc` and drops what is not reachable.  Numbers below `lo` are
    definition nodes and are their own identity. */
module Identities {
  import opened HeapModel
  import opened CopyTheory
  import opened Spaces

  /** The heap in terms of identities; rank shows that it has no cycles. */
  ghost predicate Graph(abs: map<nat, Node>, rank: map<nat, nat>, lo: nat, next: nat) {
    && abs.Keys <= rank.Keys
    && forall a :: a in abs ==> lo <= a < next && Proper(abs[a]) && RefsKnown(abs.Keys, lo, abs[a]) && Down(abs, rank, lo, a)
  }

  ghost predicate Down(abs: map<nat, Node>, rank: map<nat, nat>, lo: nat, a: nat)
    requires a in abs
  {
    Below(rank, lo, abs[a].next, a) && (abs[a].u.Lis? ==> Below(rank, lo, abs[a].u.lis, a))
  }

  /** The identities lie in the memory, each in slots of its own. */
  ghost predicate Located(m: seq<Node>, lo: nat, idx: nat, abs: map<nat, Node>, loc: map<nat, nat>) {
    && 0 < lo <= idx <= |m|
    && loc.Keys == abs.Keys
    && (forall a :: a in abs ==> lo <= loc[a] && loc[a] + NewSlots(abs[a].op, abs[a].u) <= idx)
    && (forall a :: a in abs ==> m[loc[a]] == Moved(loc, lo, abs[a]))
    && (forall a, b :: a in abs && b in abs && a != b ==>
          Apart(loc[a], NewSlots(abs[a].op, abs[a].u), loc[b], NewSlots(abs[b].op, abs[b].u)))
  }

  ghost predicate Rooted(lo: nat, abs: map<nat, Node>, loc: map<nat, nat>, ids: seq<nat>, roots: seq<nat>) {
    |ids| == |roots| && forall i :: 0 <= i < |ids| ==> Known(abs.Keys, lo, ids[i]) && roots[i] == Img(loc, lo, ids[i])
  }

  /** s is a set of identities that all references stay in. */
  ghost predicate Stays(abs: map<nat, Node>, lo: nat, s: set<nat>, ids: seq<nat>) {
    && s <= abs.Keys
    && (forall a :: a in s ==> RefsKnown(s, lo, abs[a]))
    && forall i :: 0 <= i < |ids| ==> Known(s, lo, ids[i])
  }

  /** The identities that can be reached from ids. */
  ghost function Reached(abs: map<nat, Node>, lo: nat, ids: seq<nat>): (s: set<nat>)
    ensures s <= abs.Keys
  {
    set a | a in abs && forall s: set<nat> :: Stays(abs, lo, s, ids) ==> a in s
  }

  ghost function Restrict(abs: map<nat, Node>, s: set<nat>): (r: map<nat, Node>)
    ensures r.Keys == abs.Keys * s
    ensures forall a :: a in r ==> r[a] == abs[a]
  {
    map a | a in abs && a in s :: abs[a]
  }

  ghost function Places(loc: map<nat, nat>, s: set<nat>): (p: set<nat>)
    ensures forall a :: a in s && a in loc ==> loc[a] in p
  {
    set a | a in s && a in loc :: loc[a]
  }

  /** The identities reached from ids are such a set, and so the least one. */
  lemma ReachedStays(abs: map<nat, Node>, lo: nat, ids: seq<nat>)
    requires Stays(abs, lo, abs.Keys, ids)
    ensures Stays(abs, lo, Reached(abs, lo, ids), ids)
    ensures forall s :: Stays(abs, lo, s, ids) ==> Reached(abs, lo, ids) <= s
  {
    var r := Reached(abs, lo, ids);
    forall a | a in r ensures RefsKnown(r, lo, abs[a]) {
      forall x | x == abs[a].next || (abs[a].u.Lis? && x == abs[a].u.lis) ensures Known(r, lo, x) {
        if x >= lo {
          forall s: set<nat> | Stays(abs, lo, s, ids) ensures x in s {
            assert a in s && RefsKnown(s, lo, abs[a]);
          }
          assert RefsKnown(abs.Keys, lo, abs[a]);
        }
      }
    }
    forall i | 0 <= i < |ids| ensures Known(r, lo, ids[i]) {
      if ids[i] >= lo {
        forall s: set<nat> | Stays(abs, lo, s, ids) ensures ids[i] in s {
          assert Known(s, lo, ids[i]);
        }
      }
    }
  }

  /** The identity that lies at index i. */
  ghost function Who(loc: map<nat, nat>, i: nat): (a: nat)
    requires exists a :: a in loc && loc[a] == i
    ensures a in loc && loc[a] == i
  {
    var a: nat :| a in loc && loc[a] == i;
    a
  }

  lemma LocInjective(m: seq<Node>, lo: nat, idx: nat, abs: map<nat, Node>, loc: map<nat, nat>, a: nat, b: nat)
    requires Located(m, lo, idx, abs, loc) && a in abs && b in abs && loc[a] == loc[b]
    ensures a == b
  {
  }

  /** An image lies in the places of s exactly when the identity is in s. */
  lemma KnownPlace(m: seq<Node>, lo: nat, idx: nat, abs: map<nat, Node>, loc: map<nat, nat>, s: set<nat>, x: nat)
    requires Located(m, lo, idx, abs, loc) && Known(abs.Keys, lo, x) && s <= abs.Keys
    ensures Known(Places(loc, s), lo, Img(loc, lo, x)) <==> Known(s, lo, x)
  {
    if x >= lo && loc[x] in Places(loc, s) {
      var a :| a in s && a in loc && loc[a] == loc[x];
      LocInjective(m, lo, idx, abs, loc, a, x);
    }
  }

  /** A set of identities that references stay in gives a set of nodes that references stay in. */
  lemma StaysKeeps(m: seq<Node>, lo: nat, idx: nat, abs: map<nat, Node>, rank: map<nat, nat>, next: nat,
                   loc: map<nat, nat>, ids: seq<nat>, roots: seq<nat>, s: set<nat>)
    requires Located(m, lo, idx, abs, loc) && Graph(abs, rank, lo, next) && Rooted(lo, abs, loc, ids, roots)
    requires Stays(abs, lo, s, ids)
    ensures Keeps(m, lo, Places(loc, s), roots)
  {
    var p := Places(loc, s);
    forall n | n in p ensures lo <= n < |m| && Proper(m[n]) && RefsKnown(p, lo, m[n]) {
      var a :| a in s && a in loc && loc[a] == n;
      assert RefsKnown(s, lo, abs[a]) && RefsKnown(abs.Keys, lo, abs[a]);
      KnownPlace(m, lo, idx, abs, loc, s, abs[a].next);
      if abs[a].u.Lis? {
        KnownPlace(m, lo, idx, abs, loc, s, abs[a].u.lis);
      }
    }
    forall i | 0 <= i < |roots| ensures Known(p, lo, roots[i]) {
      KnownPlace(m, lo, idx, abs, loc, s, ids[i]);
    }
  }

  lemma KeepsStays(m: seq<Node>, lo: nat, idx: nat, abs: map<nat, Node>, rank: map<nat, nat>, next: nat,
                   loc: map<nat, nat>, ids: seq<nat>, roots: seq<nat>, p: set<nat>) returns (s: set<nat>)
    requires Located(m, lo, idx, abs, loc) && Graph(abs, rank, lo, next) && Rooted(lo, abs, loc, ids, roots)
    requires Keeps(m, lo, p, roots)
    ensures Stays(abs, lo, s, ids) && forall a :: a in s <==> a in abs && loc[a] in p
  {
    s := set a | a in abs && loc[a] in p;
    forall a | a in s ensures RefsKnown(s, lo, abs[a]) {
      assert RefsKnown(abs.Keys, lo, abs[a]) && RefsKnown(p, lo, m[loc[a]]);
    }
    forall i | 0 <= i < |ids| ensures Known(s, lo, ids[i]) {
      assert Known(p, lo, roots[i]);
    }
  }

  /** The live nodes are the places of the reached identities. */
  lemma LiveIsReached(m: seq<Node>, lo: nat, idx: nat, abs: map<nat, Node>, rank: map<nat, nat>, next: nat,
                      loc: map<nat, nat>, ids: seq<nat>, roots: seq<nat>)
    requires Located(m, lo, idx, abs, loc) && Graph(abs, rank, lo, next) && Rooted(lo, abs, loc, ids, roots)
    ensures Keeps(m, lo, Places(loc, abs.Keys), roots)
    ensures Live(m, lo, Places(loc, abs.Keys), roots) == Places(loc, Reached(abs, lo, ids))
  {
    var all, r := Places(loc, abs.Keys), Reached(abs, lo, ids);
    assert Stays(abs, lo, abs.Keys, ids);
    StaysKeeps(m, lo, idx, abs, rank, next, loc, ids, roots, abs.Keys);
    ReachedStays(abs, lo, ids);
    StaysKeeps(m, lo, idx, abs, rank, next, loc, ids, roots, r);
    LiveKeeps(m, lo, all, roots);
    forall n | n in Places(loc, r) ensures n in Live(m, lo, all, roots) {
      var a :| a in r && a in loc && loc[a] == n;
      forall p: set<nat> | Keeps(m, lo, p, roots) ensures n in p {
        var s := KeepsStays(m, lo, idx, abs, rank, next, loc, ids, roots, p);
        assert a in s;
      }
      assert n in all;
    }
  }

  /** Ranks for indices. */
  ghost function IndexRank(loc: map<nat, nat>, rank: map<nat, nat>): (r: map<nat, nat>)
    ensures forall i :: i in r <==> i in loc.Values
  {
    map i | i in loc.Values :: if Who(loc, i) in rank then rank[Who(loc, i)] else 0
  }

  lemma IndexRankAt(m: seq<Node>, lo: nat, idx: nat, abs: map<nat, Node>, rank: map<nat, nat>, loc: map<nat, nat>, a: nat)
    requires Located(m, lo, idx, abs, loc) && abs.Keys <= rank.Keys && a in abs
    ensures loc[a] in IndexRank(loc, rank) && IndexRank(loc, rank)[loc[a]] == rank[a]
  {
    assert loc[a] in loc.Values;
    LocInjective(m, lo, idx, abs, loc, a, Who(loc, loc[a]));
  }

  lemma IndexBelow(m: seq<Node>, lo: nat, idx: nat, abs: map<nat, Node>, rank: map<nat, nat>, loc: map<nat, nat>,
                   x: nat, a: nat)
    requires Located(m, lo, idx, abs, loc) && abs.Keys <= rank.Keys && a in abs
    requires Known(abs.Keys, lo, x) && Below(rank, lo, x, a)
    ensures Below(IndexRank(loc, rank), lo, Img(loc, lo, x), loc[a])
  {
    IndexRankAt(m, lo, idx, abs, rank, loc, a);
    if x >= lo {
      IndexRankAt(m, lo, idx, abs, rank, loc, x);
    }
  }

  lemma IndexRanked(m: seq<Node>, lo: nat, idx: nat, abs: map<nat, Node>, rank: map<nat, nat>, next: nat,
                    loc: map<nat, nat>, live: set<nat>)
    requires Located(m, lo, idx, abs, loc) && Graph(abs, rank, lo, next) && live <= Places(loc, abs.Keys)
    ensures Ranked(m, lo, live, IndexRank(loc, rank))
  {
    hide IndexRank;
    var r := IndexRank(loc, rank);
    forall n | n in live
      ensures n in r && n < |m| && Below(r, lo, m[n].next, n) && (m[n].u.Lis? ==> Below(r, lo, m[n].u.lis, n))
    {
      var a :| a in abs.Keys && a in loc && loc[a] == n;
      assert RefsKnown(abs.Keys, lo, abs[a]) && Down(abs, rank, lo, a);
      IndexRankAt(m, lo, idx, abs, rank, loc, a);
      IndexBelow(m, lo, idx, abs, rank, loc, abs[a].next, a);
      if abs[a].u.Lis? {
        IndexBelow(m, lo, idx, abs, rank, loc, abs[a].u.lis, a);
      }
    }
  }

  ghost function Relocated(loc: map<nat, nat>, fwd: map<nat, nat>, s: set<nat>): (r: map<nat, nat>)
  {
    map a | a in s && a in loc && loc[a] in fwd :: fwd[loc[a]]
  }

  lemma RestrictGraph(abs: map<nat, Node>, rank: map<nat, nat>, lo: nat, next: nat, ids: seq<nat>, s: set<nat>)
    requires Graph(abs, rank, lo, next) && Stays(abs, lo, s, ids)
    ensures Graph(Restrict(abs, s), rank, lo, next) && Restrict(abs, s).Keys == s
  {
    assert Restrict(abs, s).Keys == s;
    forall a | a in s ensures RefsKnown(s, lo, abs[a]) && Down(abs, rank, lo, a) && Proper(abs[a]) && lo <= a < next {
    }
  }

  lemma MoveTwice(loc: map<nat, nat>, fwd: map<nat, nat>, lo: nat, s: set<nat>, n: Node)
    requires s <= loc.Keys && RefsKnown(s, lo, n)
    requires forall a :: a in s ==> lo <= loc[a] && loc[a] in fwd
    ensures Moved(fwd, lo, Moved(loc, lo, n)) == Moved(Relocated(loc, fwd, s), lo, n)
  {
  }

  lemma RelocatedApart(m: seq<Node>, lo: nat, idx: nat, abs: map<nat, Node>, loc: map<nat, nat>, s: set<nat>,
                       m': seq<Node>, idx': nat, fwd: map<nat, nat>, a: nat, b: nat)
    requires Located(m, lo, idx, abs, loc) && s <= abs.Keys
    requires fwd.Keys == Places(loc, s) && Isomorphic(m, lo, m', idx', fwd)
    requires a in s && b in s && a != b && loc[a] in fwd && loc[b] in fwd
    ensures Apart(fwd[loc[a]], NewSlots(abs[a].op, abs[a].u), fwd[loc[b]], NewSlots(abs[b].op, abs[b].u))
  {
    SlotsOrder(loc, lo, abs[a]);
    SlotsOrder(loc, lo, abs[b]);
    if loc[a] == loc[b] {
      LocInjective(m, lo, idx, abs, loc, a, b);
    }
  }

  lemma RelocatedAt(m: seq<Node>, lo: nat, idx: nat, abs: map<nat, Node>, loc: map<nat, nat>, s: set<nat>,
                    m': seq<Node>, idx': nat, fwd: map<nat, nat>, a: nat)
    requires Located(m, lo, idx, abs, loc) && s <= abs.Keys && a in s && RefsKnown(s, lo, abs[a])
    requires fwd.Keys == Places(loc, s) && Isomorphic(m, lo, m', idx', fwd) && idx' <= |m'|
    ensures loc[a] in fwd && lo <= fwd[loc[a]] && fwd[loc[a]] + NewSlots(abs[a].op, abs[a].u) <= idx' <= |m'|
    ensures m'[fwd[loc[a]]] == Moved(Relocated(loc, fwd, s), lo, abs[a])
  {
    forall b | b in s ensures loc[b] in fwd && lo <= loc[b] {
      assert loc[b] in Places(loc, s);
    }
    SlotsOrder(loc, lo, abs[a]);
    MoveTwice(loc, fwd, lo, s, abs[a]);
  }

  lemma RelocatedRoots(m: seq<Node>, lo: nat, idx: nat, abs: map<nat, Node>, loc: map<nat, nat>, ids: seq<nat>,
                       roots: seq<nat>, s: set<nat>, fwd: map<nat, nat>, roots': seq<nat>)
    requires Located(m, lo, idx, abs, loc) && Rooted(lo, abs, loc, ids, roots) && Stays(abs, lo, s, ids)
    requires fwd.Keys == Places(loc, s)
    requires |roots'| == |roots| && forall i :: 0 <= i < |roots| ==> roots'[i] == Img(fwd, lo, roots[i])
    ensures Rooted(lo, Restrict(abs, s), Relocated(loc, fwd, s), ids, roots')
  {
    forall i | 0 <= i < |ids|
      ensures Known(Restrict(abs, s).Keys, lo, ids[i]) && roots'[i] == Img(Relocated(loc, fwd, s), lo, ids[i])
    {
      assert Known(s, lo, ids[i]) && roots[i] == Img(loc, lo, ids[i]);
      if ids[i] >= lo {
        assert loc[ids[i]] in Places(loc, s);
      }
    }
  }

  /** After a move of the places of s, the identities of s lie at the moved places. */
  lemma MoveIdentities(m: seq<Node>, lo: nat, idx: nat, abs: map<nat, Node>, rank: map<nat, nat>, next: nat,
                       loc: map<nat, nat>, ids: seq<nat>, roots: seq<nat>, s: set<nat>,
                       m': seq<Node>, idx': nat, fwd: map<nat, nat>, roots': seq<nat>)
    requires Located(m, lo, idx, abs, loc) && Graph(abs, rank, lo, next) && Rooted(lo, abs, loc, ids, roots)
    requires Stays(abs, lo, s, ids) && fwd.Keys == Places(loc, s) && Isomorphic(m, lo, m', idx', fwd) && idx' <= |m'|
    requires |roots'| == |roots| && forall i :: 0 <= i < |roots| ==> roots'[i] == Img(fwd, lo, roots[i])
    ensures Graph(Restrict(abs, s), rank, lo, next)
    ensures Located(m', lo, idx', Restrict(abs, s), Relocated(loc, fwd, s))
    ensures Rooted(lo, Restrict(abs, s), Relocated(loc, fwd, s), ids, roots')
  {
    hide Isomorphic, Relocated, Restrict, Graph, Rooted, Places;
    var abs', loc' := Restrict(abs, s), Relocated(loc, fwd, s);
    RestrictGraph(abs, rank, lo, next, ids, s);
    RelocatedRoots(m, lo, idx, abs, loc, ids, roots, s, fwd, roots');
    RelocatedKeys(loc, fwd, s);
    forall a | a in s
      ensures a in loc' && lo <= loc'[a] && loc'[a] + NewSlots(abs[a].op, abs[a].u) <= idx' <= |m'|
      ensures m'[loc'[a]] == Moved(loc', lo, abs'[a])
    {
      RelocatedAt(m, lo, idx, abs, loc, s, m', idx', fwd, a);
    }
    forall a, b | a in s && b in s && a != b
      ensures Apart(loc'[a], NewSlots(abs[a].op, abs[a].u), loc'[b], NewSlots(abs[b].op, abs[b].u))
    {
      RelocatedApart(m, lo, idx, abs, loc, s, m', idx', fwd, a, b);
    }
    IsomorphicBounds(m, lo, m', idx', fwd);
  }

  lemma RelocatedKeys(loc: map<nat, nat>, fwd: map<nat, nat>, s: set<nat>)
    requires s <= loc.Keys && fwd.Keys == Places(loc, s)
    ensures Relocated(loc, fwd, s).Keys == s
    ensures forall a :: a in s ==> loc[a] in fwd && Relocated(loc, fwd, s)[a] == fwd[loc[a]]
  {
    forall a | a in s ensures loc[a] in fwd {
      assert loc[a] in Places(loc, s);
    }
  }

  lemma IsomorphicBounds(m: seq<Node>, lo: nat, m': seq<Node>, idx: nat, f: map<nat, nat>)
    requires Isomorphic(m, lo, m', idx, f)
    ensures lo <= idx
  {
  }

  lemma SlotsOrder(loc: map<nat, nat>, lo: nat, n: Node)
    ensures NewSlots(n.op, n.u) <= CopySlots(n) == CopySlots(Moved(loc, lo, n))
  {
  }

  // ----- how much room a collection needs -----

  /** The slots that a collection takes for the identities of s below k. */
  ghost function TotalBelow(abs: map<nat, Node>, s: set<nat>, k: nat): nat
    decreases k
  {
    if k == 0 then 0
    else TotalBelow(abs, s, k - 1) + if k - 1 in s && k - 1 in abs then CopySlots(abs[k - 1]) else 0
  }

  lemma {:induction false} TotalAdd(abs: map<nat, Node>, s: set<nat>, a: nat, k: nat)
    requires a !in s && a in abs
    ensures TotalBelow(abs, s + {a}, k) == TotalBelow(abs, s, k) + if a < k then CopySlots(abs[a]) else 0
    decreases k
  {
    if k > 0 {
      TotalAdd(abs, s, a, k - 1);
    }
  }

  lemma {:induction false} TotalSame(abs: map<nat, Node>, abs': map<nat, Node>, s: set<nat>, k: nat)
    requires forall a :: a in s ==> a in abs && a in abs' && abs[a] == abs'[a]
    ensures TotalBelow(abs, s, k) == TotalBelow(abs', s, k)
    decreases k
  {
    if k > 0 {
      TotalSame(abs, abs', s, k - 1);
    }
  }

  lemma {:induction false} TotalEmpty(abs: map<nat, Node>, k: nat)
    ensures TotalBelow(abs, {}, k) == 0
    decreases k
  {
    if k > 0 {
      TotalEmpty(abs, k - 1);
    }
  }

  lemma PlacesEmpty(loc: map<nat, nat>)
    ensures Places(loc, {}) == {}
  {
  }

  lemma PlacesAdd(m: seq<Node>, lo: nat, idx: nat, abs: map<nat, Node>, loc: map<nat, nat>, t: set<nat>, a: nat)
    requires Located(m, lo, idx, abs, loc) && t <= abs.Keys && a in abs && a !in t
    ensures loc[a] < |m| && loc[a] !in Places(loc, t) && Places(loc, t + {a}) == Places(loc, t) + {loc[a]}
    ensures CopySlots(m[loc[a]]) == CopySlots(abs[a])
  {
    if loc[a] in Places(loc, t) {
      var b :| b in t && b in loc && loc[b] == loc[a];
      LocInjective(m, lo, idx, abs, loc, a, b);
    }
    SlotsOrder(loc, lo, abs[a]);
  }

  /** The slots for the places of s are the slots for the identities of s. */
  lemma {:induction false} SizeIsTotal(m: seq<Node>, lo: nat, idx: nat, abs: map<nat, Node>, loc: map<nat, nat>,
                                       s: set<nat>, next: nat)
    requires Located(m, lo, idx, abs, loc) && s <= abs.Keys && forall a :: a in s ==> a < next
    ensures Size(m, Places(loc, s)) == TotalBelow(abs, s, next)
    decreases |s|
  {
    hide Places, Size, CopySlots, NewSlots, Moved;
    if s == {} {
      PlacesEmpty(loc);
      SizeOfNone(m);
      TotalEmpty(abs, next);
    } else {
      var a :| a in s;
      var t := s - {a};
      SizeIsTotal(m, lo, idx, abs, loc, t, next);
      TotalAdd(abs, t, a, next);
      assert t + {a} == s;
      PlacesAdd(m, lo, idx, abs, loc, t, a);
      SizeAdd(m, Places(loc, t), loc[a]);
    }
  }

  ghost predicate TextFree(abs: map<nat, Node>) {
    forall a :: a in abs ==> !IsText(abs[a].op)
  }

  /** A collection needs at most twice the slots that are in use, and without texts no more than those. */
  lemma {:induction false} TotalFits(m: seq<Node>, lo: nat, idx: nat, abs: map<nat, Node>, loc: map<nat, nat>, s: set<nat>,
                                     next: nat, hi: nat)
    requires Located(m, lo, idx, abs, loc) && s <= abs.Keys && lo <= hi
    requires forall a :: a in s ==> a < next && loc[a] + NewSlots(abs[a].op, abs[a].u) <= hi
    ensures TotalBelow(abs, s, next) <= 2 * (hi - lo)
    ensures TextFree(abs) ==> TotalBelow(abs, s, next) <= hi - lo
    decreases hi
  {
    hide NewSlots, CopySlots, Moved;
    if s == {} {
      TotalEmpty(abs, next);
    } else if top: nat :| top in s && loc[top] + NewSlots(abs[top].op, abs[top].u) == hi {
      var t := s - {top};
      SlotsTwice(abs[top]);
      forall a | a in t ensures loc[a] + NewSlots(abs[a].op, abs[a].u) <= loc[top] {
        assert Apart(loc[a], NewSlots(abs[a].op, abs[a].u), loc[top], NewSlots(abs[top].op, abs[top].u));
        SlotsTwice(abs[a]);
      }
      TotalFits(m, lo, idx, abs, loc, t, next, loc[top]);
      TotalAdd(abs, t, top, next);
      assert t + {top} == s;
    } else {
      var a :| a in s;
      SlotsTwice(abs[a]);
      TotalFits(m, lo, idx, abs, loc, s, next, hi - 1);
    }
  }

  lemma SlotsTwice(n: Node)
    ensures 1 <= NewSlots(n.op, n.u) && CopySlots(n) <= 2 * NewSlots(n.op, n.u)
    ensures !IsText(n.op) ==> CopySlots(n) == NewSlots(n.op, n.u)
  {
  }

  // ----- allocation and update -----

  /** A reference still means the same identity after one more is placed. */
  lemma SameMoved(loc: map<nat, nat>, lo: nat, known: set<nat>, n: Node, next: nat, at: nat)
    requires RefsKnown(known, lo, n) && known <= loc.Keys && next !in known && lo <= next
    ensures Moved(loc[next := at], lo, n) == Moved(loc, lo, n)
  {
  }

  lemma AddGraph(abs: map<nat, Node>, rank: map<nat, nat>, lo: nat, next: nat, n: Node) returns (rank': map<nat, nat>)
    requires Graph(abs, rank, lo, next) && Proper(n) && RefsKnown(abs.Keys, lo, n) && lo <= next
    ensures Graph(abs[next := n], rank', lo, next + 1)
  {
    var a := if n.next in rank then rank[n.next] + 1 else 0;
    var b := if n.u.Lis? && n.u.lis in rank then rank[n.u.lis] + 1 else 0;
    rank' := rank[next := a + b];
    var abs' := abs[next := n];
    forall x | x in abs' ensures Proper(abs'[x]) && RefsKnown(abs'.Keys, lo, abs'[x]) && Down(abs', rank', lo, x) {
      if x != next {
        assert RefsKnown(abs.Keys, lo, abs[x]) && Down(abs, rank, lo, x);
      }
    }
  }

  lemma AddLocated(m: seq<Node>, lo: nat, idx: nat, abs: map<nat, Node>, rank: map<nat, nat>, next: nat,
                   loc: map<nat, nat>, n: Node)
    requires Located(m, lo, idx, abs, loc) && Graph(abs, rank, lo, next)
    requires Proper(n) && RefsKnown(abs.Keys, lo, n) && lo <= next
    requires idx + NewSlots(n.op, n.u) <= |m|
    ensures Located(m[idx := Moved(loc, lo, n)], lo, idx + NewSlots(n.op, n.u), abs[next := n], loc[next := idx])
  {
    hide NewSlots, Moved;
    var abs', loc', m' := abs[next := n], loc[next := idx], m[idx := Moved(loc, lo, n)];
    SameMoved(loc, lo, abs.Keys, n, next, idx);
    forall x | x in abs ensures x != next && m'[loc[x]] == Moved(loc', lo, abs[x]) {
      assert RefsKnown(abs.Keys, lo, abs[x]);
      SameMoved(loc, lo, abs.Keys, abs[x], next, idx);
    }
  }

  /** A node allocated behind all others, its references known, is a new identity. */
  lemma AddNode(m: seq<Node>, lo: nat, idx: nat, abs: map<nat, Node>, rank: map<nat, nat>, next: nat,
                loc: map<nat, nat>, ids: seq<nat>, roots: seq<nat>, n: Node)
    returns (rank': map<nat, nat>)
    requires Located(m, lo, idx, abs, loc) && Graph(abs, rank, lo, next) && Rooted(lo, abs, loc, ids, roots)
    requires Proper(n) && RefsKnown(abs.Keys, lo, n) && lo <= next
    requires idx + NewSlots(n.op, n.u) <= |m|
    ensures Graph(abs[next := n], rank', lo, next + 1)
    ensures Located(m[idx := Moved(loc, lo, n)], lo, idx + NewSlots(n.op, n.u), abs[next := n], loc[next := idx])
    ensures Rooted(lo, abs[next := n], loc[next := idx], ids, roots)
  {
    rank' := AddGraph(abs, rank, lo, next, n);
    AddLocated(m, lo, idx, abs, rank, next, loc, n);
  }

  /** Every reference of n is x, or one that k has, or a definition. */
  ghost predicate RefsFrom(lo: nat, n: Node, k: Node, x: nat) {
    && (n.next < lo || n.next == x || n.next == k.next || (k.u.Lis? && n.next == k.u.lis))
    && (n.u.Lis? ==> n.u.lis < lo || n.u.lis == x || n.u.lis == k.next || (k.u.Lis? && n.u.lis == k.u.lis))
  }

  /** Pointing a field of t at x makes no cycle if s, a closed set that holds x, does not hold t. */
  lemma PokeGraph(abs: map<nat, Node>, rank: map<nat, nat>, lo: nat, next: nat, t: nat, n: Node, x: nat, s: set<nat>)
    returns (rank': map<nat, nat>)
    requires Graph(abs, rank, lo, next) && Stays(abs, lo, s, [])
    requires t in abs && t !in s && Known(s, lo, x)
    requires Proper(n) && RefsFrom(lo, n, abs[t], x)
    ensures Graph(abs[t := n], rank', lo, next)
  {
    var up := if x in s then rank[x] else 0;
    rank' := map a | a in abs :: if a in s then rank[a] else rank[a] + 1 + up;
    var abs' := abs[t := n];
    assert abs'.Keys == abs.Keys;
    forall a | a in abs'
      ensures Proper(abs'[a]) && RefsKnown(abs'.Keys, lo, abs'[a]) && Down(abs', rank', lo, a)
    {
      assert RefsKnown(abs.Keys, lo, abs[a]) && Down(abs, rank, lo, a);
      assert RefsKnown(abs.Keys, lo, abs[t]) && Down(abs, rank, lo, t);
      hide Graph, Stays, Proper;
      if a in s {
        assert RefsKnown(s, lo, abs[a]);
      }
    }
  }

  lemma PokeLocated(m: seq<Node>, lo: nat, idx: nat, abs: map<nat, Node>, loc: map<nat, nat>, t: nat, n: Node)
    requires Located(m, lo, idx, abs, loc) && t in abs && NewSlots(n.op, n.u) == NewSlots(abs[t].op, abs[t].u)
    ensures loc[t] < |m| && lo <= loc[t]
    ensures Located(m[loc[t] := Moved(loc, lo, n)], lo, idx, abs[t := n], loc)
  {
    hide NewSlots;
    var abs' := abs[t := n];
    var m' := m[loc[t] := Moved(loc, lo, n)];
    assert abs'.Keys == abs.Keys;
    forall a | a in abs' ensures m'[loc[a]] == Moved(loc, lo, abs'[a]) {
      if a != t && loc[a] == loc[t] {
        LocInjective(m, lo, idx, abs, loc, a, t);
      }
    }
  }

  lemma RootedJoin(lo: nat, abs: map<nat, Node>, loc: map<nat, nat>, ids: seq<nat>, roots: seq<nat>,
                   pids: seq<nat>, params: seq<nat>)
    requires Rooted(lo, abs, loc, ids, roots) && Rooted(lo, abs, loc, pids, params)
    ensures Rooted(lo, abs, loc, ids + pids, roots + params)
  {
  }

  lemma RootedPart(lo: nat, abs: map<nat, Node>, loc: map<nat, nat>, ids: seq<nat>, roots: seq<nat>,
                   pids: seq<nat>, params: seq<nat>)
    requires Rooted(lo, abs, loc, ids + pids, roots + params) && |ids| == |roots|
    ensures Rooted(lo, abs, loc, ids, roots) && Rooted(lo, abs, loc, pids, params)
  {
    forall i | 0 <= i < |ids| ensures Known(abs.Keys, lo, ids[i]) && roots[i] == Img(loc, lo, ids[i]) {
      assert (ids + pids)[i] == ids[i] && (roots + params)[i] == roots[i];
    }
    forall i | 0 <= i < |pids| ensures |pids| == |params| && Known(abs.Keys, lo, pids[i]) && params[i] == Img(loc, lo, pids[i]) {
      assert (ids + pids)[|ids| + i] == pids[i] && (roots + params)[|roots| + i] == params[i];
    }
  }

  lemma ReachedOfGraph(abs: map<nat, Node>, rank: map<nat, nat>, lo: nat, next: nat,
                       loc: map<nat, nat>, ids: seq<nat>, roots: seq<nat>)
    requires Graph(abs, rank, lo, next) && Rooted(lo, abs, loc, ids, roots)
    ensures Stays(abs, lo, Reached(abs, lo, ids), ids)
  {
    ReachedStays(abs, lo, ids);
  }

  /** What a collection needs to know of the identities it keeps. */
  lemma KeptFacts(m: seq<Node>, lo: nat, idx: nat, abs: map<nat, Node>, rank: map<nat, nat>, next: nat,
                  loc: map<nat, nat>, ids: seq<nat>, roots: seq<nat>, kept: set<nat>)
    requires Located(m, lo, idx, abs, loc) && Graph(abs, rank, lo, next) && Rooted(lo, abs, loc, ids, roots)
    requires kept == Reached(abs, lo, ids)
    ensures Ranked(m, lo, Places(loc, kept), IndexRank(loc, rank))
    ensures Size(m, Places(loc, kept)) == TotalBelow(abs, kept, next)
    ensures Keeps(m, lo, Places(loc, abs.Keys), roots) && Keeps(m, lo, Places(loc, kept), roots)
    ensures Places(loc, kept) == Live(m, lo, Places(loc, abs.Keys), roots)
    ensures 0 < lo <= idx <= |m| && |ids| == |roots|
  {
    LiveIsReached(m, lo, idx, abs, rank, next, loc, ids, roots);
    LiveKeeps(m, lo, Places(loc, abs.Keys), roots);
    IndexRanked(m, lo, idx, abs, rank, next, loc, Places(loc, kept));
    SizeIsTotal(m, lo, idx, abs, loc, kept, next);
  }

  /** Identities in a space give what a collection may start from, and say what it keeps and needs. */
  lemma HeapCollectable(s: Space, abs: map<nat, Node>, rank: map<nat, nat>, next: nat, loc: map<nat, nat>, ids: seq<nat>,
                        pids: seq<nat>, params: seq<nat>, kept: set<nat>)
    requires Located(s.slots, s.lo, s.index, abs, loc) && Graph(abs, rank, s.lo, next) && s.lo <= s.max
    requires Rooted(s.lo, abs, loc, ids, s.roots) && Rooted(s.lo, abs, loc, pids, params)
    requires kept == Reached(abs, s.lo, ids + pids)
    ensures loc.Keys == abs.Keys <= rank.Keys
    ensures Collectable(s, Places(loc, abs.Keys), IndexRank(loc, rank), params)
    ensures Survivors(s, Places(loc, abs.Keys), params) == Places(loc, kept)
    ensures Needed(s, Places(loc, abs.Keys), params) == s.lo + TotalBelow(abs, kept, next)
    ensures Stays(abs, s.lo, kept, ids + pids) && 0 < s.lo
  {
    hide Located, Graph, Rooted, Reached, IndexRank, TotalBelow, Size, Stays, Live, Keeps, Ranked, Places;
    var xs, rs := ids + pids, s.roots + params;
    HeapKeys(s.slots, s.lo, s.index, abs, rank, next, loc);
    IndexRanked(s.slots, s.lo, s.index, abs, rank, next, loc, Places(loc, abs.Keys));
    RootedJoin(s.lo, abs, loc, ids, s.roots, pids, params);
    ReachedOfGraph(abs, rank, s.lo, next, loc, xs, rs);
    KeptFacts(s.slots, s.lo, s.index, abs, rank, next, loc, xs, rs, kept);
  }

  lemma HeapKeys(m: seq<Node>, lo: nat, idx: nat, abs: map<nat, Node>, rank: map<nat, nat>, next: nat, loc: map<nat, nat>)
    requires Located(m, lo, idx, abs, loc) && Graph(abs, rank, lo, next)
    ensures loc.Keys == abs.Keys <= rank.Keys && 0 < lo <= idx <= |m|
  {
  }

  /** After a collection the kept identities lie in the new memory. */
  lemma IdentitiesMoved(s: Space, abs: map<nat, Node>, rank: map<nat, nat>, next: nat, loc: map<nat, nat>, ids: seq<nat>,
                        pids: seq<nat>, params: seq<nat>, kept: set<nat>, s': Space, params': seq<nat>, fwd: map<nat, nat>)
    requires Located(s.slots, s.lo, s.index, abs, loc) && Graph(abs, rank, s.lo, next) && DefinitionsClosed(s.slots, s.lo)
    requires Rooted(s.lo, abs, loc, ids, s.roots) && Rooted(s.lo, abs, loc, pids, params)
    requires kept == Reached(abs, s.lo, ids + pids) && Survivors(s, Places(loc, abs.Keys), params) == Places(loc, kept)
    requires Moves(s, Places(loc, abs.Keys), params, s', params', fwd) && s'.index <= |s'.slots|
    ensures Graph(Restrict(abs, kept), rank, s.lo, next)
    ensures Located(s'.slots, s.lo, s'.index, Restrict(abs, kept), Relocated(loc, fwd, kept))
    ensures Rooted(s.lo, Restrict(abs, kept), Relocated(loc, fwd, kept), ids, s'.roots)
    ensures Rooted(s.lo, Restrict(abs, kept), Relocated(loc, fwd, kept), pids, params')
    ensures DefinitionsClosed(s'.slots, s.lo) && s'.slots[..s.lo] == s.slots[..s.lo]
  {
    hide Located, Graph, Rooted, Reached, Restrict, Relocated, Survivors, Isomorphic, Needed, Stays;
    var xs, rs, rs' := ids + pids, s.roots + params, s'.roots + params';
    RootedJoin(s.lo, abs, loc, ids, s.roots, pids, params);
    ReachedOfGraph(abs, rank, s.lo, next, loc, xs, rs);
    MoveIdentities(s.slots, s.lo, s.index, abs, rank, next, loc, xs, rs, kept, s'.slots, s'.index, fwd, rs');
    RootedLengths(s.lo, abs, loc, ids, s.roots);
    RootedPart(s.lo, Restrict(abs, kept), Relocated(loc, fwd, kept), ids, s'.roots, pids, params');
    IsomorphicPrefix(s.slots, s.lo, s'.slots, s'.index, fwd);
    DefinitionsMoved(s.slots, s.lo, s'.slots, s'.index, fwd);
  }

  lemma DefinitionsMoved(m: seq<Node>, lo: nat, m': seq<Node>, idx: nat, f: map<nat, nat>)
    requires Isomorphic(m, lo, m', idx, f) && DefinitionsClosed(m, lo)
    ensures DefinitionsClosed(m', lo)
  {
  }

  /** Whichever way room was made, the identities that are left lie in the space with the room. */
  lemma RoomIdentities(s: Space, busy: bool, num: nat, demand: nat, abs: map<nat, Node>, rank: map<nat, nat>, next: nat,
                       loc: map<nat, nat>, ids: seq<nat>, pids: seq<nat>, params: seq<nat>,
                       mid: Space, params': seq<nat>, fwd: map<nat, nat>)
    returns (kept: set<nat>, loc': map<nat, nat>)
    requires Located(s.slots, s.lo, s.index, abs, loc) && Graph(abs, rank, s.lo, next) && DefinitionsClosed(s.slots, s.lo)
    requires Rooted(s.lo, abs, loc, ids, s.roots) && Rooted(s.lo, abs, loc, pids, params) && s.lo <= s.max
    requires s.max <= |s.slots| && RoomMade(s, busy, num, demand, Places(loc, abs.Keys), params, mid, params', fwd)
    ensures Graph(Restrict(abs, kept), rank, s.lo, next) && mid.lo == s.lo
    ensures Located(mid.slots, s.lo, mid.index, Restrict(abs, kept), loc')
    ensures Rooted(s.lo, Restrict(abs, kept), loc', ids, mid.roots)
    ensures Rooted(s.lo, Restrict(abs, kept), loc', pids, params')
    ensures DefinitionsClosed(mid.slots, s.lo) && mid.slots[..s.lo] == s.slots[..s.lo]
    ensures Stays(abs, s.lo, kept, ids + pids)
    ensures if busy || s.index + num < s.max then kept == abs.Keys && loc' == loc else kept == Reached(abs, s.lo, ids + pids)
  {
    hide Located, Graph, Rooted, Reached, Restrict, Relocated, Survivors, Isomorphic, Images, Stays, Needed;
    LocatedBounds(s.slots, s.lo, s.index, abs, loc);
    GraphStays(abs, rank, s.lo, next, loc, ids, s.roots, pids, params);
    if busy || s.index + num < s.max {
      kept, loc' := abs.Keys, loc;
      GrownEnough(s.max, s.index + num);
      LocatedPrefix(s.slots, mid.slots, s.lo, s.index, abs, loc);
    } else {
      kept := Reached(abs, s.lo, ids + pids);
      loc' := Relocated(loc, fwd, kept);
      var s1 := s.(max := Grown(s.max, s.index + demand));
      GrownEnough(s.max, s.index + demand);
      HeapCollectable(s1, abs, rank, next, loc, ids, pids, params, kept);
      IdentitiesMoved(s1, abs, rank, next, loc, ids, pids, params, kept, mid, params', fwd);
    }
  }

  lemma RootedLengths(lo: nat, abs: map<nat, Node>, loc: map<nat, nat>, ids: seq<nat>, roots: seq<nat>)
    requires Rooted(lo, abs, loc, ids, roots)
    ensures |ids| == |roots|
  {
  }

  /** Only the slots below idx matter. */
  lemma LocatedPrefix(m: seq<Node>, m': seq<Node>, lo: nat, idx: nat, abs: map<nat, Node>, loc: map<nat, nat>)
    requires Located(m, lo, idx, abs, loc) && idx <= |m'| && forall i :: 0 <= i < idx ==> m'[i] == m[i]
    ensures Located(m', lo, idx, abs, loc)
    ensures DefinitionsClosed(m, lo) ==> DefinitionsClosed(m', lo)
  {
    hide NewSlots;
    forall a | a in abs ensures loc[a] < idx {
    }
  }

  lemma GraphStays(abs: map<nat, Node>, rank: map<nat, nat>, lo: nat, next: nat, loc: map<nat, nat>,
                   ids: seq<nat>, roots: seq<nat>, pids: seq<nat>, params: seq<nat>)
    requires Graph(abs, rank, lo, next) && Rooted(lo, abs, loc, ids, roots) && Rooted(lo, abs, loc, pids, params)
    ensures Stays(abs, lo, abs.Keys, ids + pids) && Restrict(abs, abs.Keys) == abs
  {
    RootedJoin(lo, abs, loc, ids, roots, pids, params);
  }

  /** Collecting what was just collected keeps all of it. */
  lemma ReachedAgain(abs: map<nat, Node>, lo: nat, ids: seq<nat>, kept: set<nat>)
    requires kept == Reached(abs, lo, ids) && Stays(abs, lo, kept, ids) && Stays(abs, lo, abs.Keys, ids)
    ensures Reached(Restrict(abs, kept), lo, ids) == kept
  {
    var r := Restrict(abs, kept);
    ReachedStays(abs, lo, ids);
    assert r.Keys == kept;
    forall a | a in kept ensures a in Reached(r, lo, ids) {
      forall s: set<nat> | Stays(r, lo, s, ids) ensures a in s {
        assert Stays(abs, lo, s, ids);
      }
    }
  }

  lemma KeptAgain(abs: map<nat, Node>, lo: nat, ids: seq<nat>, kept: set<nat>, next: nat)
    requires kept == Reached(abs, lo, ids) && Stays(abs, lo, kept, ids) && Stays(abs, lo, abs.Keys, ids)
    ensures Reached(Restrict(abs, kept), lo, ids) == kept && Restrict(Restrict(abs, kept), kept) == Restrict(abs, kept)
    ensures TotalBelow(Restrict(abs, kept), kept, next) == TotalBelow(abs, kept, next)
  {
    ReachedAgain(abs, lo, ids, kept);
    TotalSame(Restrict(abs, kept), abs, kept, next);
  }

  lemma NoneRooted(lo: nat, abs: map<nat, Node>, loc: map<nat, nat>)
    ensures Rooted(lo, abs, loc, [], [])
  {
  }

  lemma LocatedBounds(m: seq<Node>, lo: nat, idx: nat, abs: map<nat, Node>, loc: map<nat, nat>)
    requires Located(m, lo, idx, abs, loc)
    ensures 0 < lo <= idx <= |m| && loc.Keys == abs.Keys
  {
  }

  lemma GraphStaysAlone(abs: map<nat, Node>, rank: map<nat, nat>, lo: nat, next: nat, loc: map<nat, nat>,
                        ids: seq<nat>, roots: seq<nat>)
    requires Graph(abs, rank, lo, next) && Rooted(lo, abs, loc, ids, roots)
    ensures Stays(abs, lo, abs.Keys, ids)
  {
  }

  /** What is reached fits in what is in use, or with texts in twice as much. */
  lemma FitsAgain(m: seq<Node>, lo: nat, idx: nat, abs: map<nat, Node>, rank: map<nat, nat>, next: nat,
                  loc: map<nat, nat>, ids: seq<nat>)
    requires Located(m, lo, idx, abs, loc) && Graph(abs, rank, lo, next)
    ensures lo + TotalBelow(abs, Reached(abs, lo, ids), next) <= 2 * idx
    ensures TextFree(abs) ==> lo + TotalBelow(abs, Reached(abs, lo, ids), next) <= idx
  {
    TotalFits(m, lo, idx, abs, loc, Reached(abs, lo, ids), next, idx);
  }

  ghost function ParamIds(o: Op, uid: nat, rid: nat): seq<nat> {
    if o.List? then [uid, rid] else [rid]
  }

  /** The parameters of an allocation as further roots. */
  lemma ParamsRooted(lo: nat, abs: map<nat, Node>, loc: map<nat, nat>, o: Op, uid: nat, rid: nat, params: seq<nat>)
    requires |params| == |ParamIds(o, uid, rid)|
    ensures Rooted(lo, abs, loc, ParamIds(o, uid, rid), params) <==>
            && Known(abs.Keys, lo, rid) && params[|params| - 1] == Img(loc, lo, rid)
            && (o.List? ==> Known(abs.Keys, lo, uid) && params[0] == Img(loc, lo, uid))
  {
    var ids := ParamIds(o, uid, rid);
    if Rooted(lo, abs, loc, ids, params) {
      assert Known(abs.Keys, lo, ids[|ids| - 1]) && Known(abs.Keys, lo, ids[0]);
    }
  }

  /** A memory that keeps what was in use and holds a node's image behind it holds one more identity. */
  lemma StoredNode(m: seq<Node>, m': seq<Node>, lo: nat, idx: nat, abs: map<nat, Node>, rank: map<nat, nat>, next: nat,
                   loc: map<nat, nat>, ids: seq<nat>, roots: seq<nat>, n: Node)
    returns (rank': map<nat, nat>)
    requires Located(m, lo, idx, abs, loc) && Graph(abs, rank, lo, next) && Rooted(lo, abs, loc, ids, roots)
    requires DefinitionsClosed(m, lo)
    requires Proper(n) && RefsKnown(abs.Keys, lo, n) && lo <= next
    requires idx + NewSlots(n.op, n.u) <= |m'|
    requires (forall i :: 0 <= i < idx ==> m'[i] == m[i]) && m'[idx] == Moved(loc, lo, n)
    ensures Graph(abs[next := n], rank', lo, next + 1)
    ensures Located(m', lo, idx + NewSlots(n.op, n.u), abs[next := n], loc[next := idx])
    ensures Rooted(lo, abs[next := n], loc[next := idx], ids, roots)
    ensures DefinitionsClosed(m', lo) && m'[..lo] == m[..lo]
  {
    hide Graph, Rooted, Moved;
    LocatedBounds(m, lo, idx, abs, loc);
    LocatedPrefix(m, m', lo, idx, abs, loc);
    rank' := AddNode(m', lo, idx, abs, rank, next, loc, ids, roots, n);
    assert m'[idx := Moved(loc, lo, n)] == m';
  }

  /** Images of known references lie below what is in use. */
  lemma FittingBelow(m: seq<Node>, lo: nat, idx: nat, abs: map<nat, Node>, loc: map<nat, nat>, n: Node)
    requires Located(m, lo, idx, abs, loc) && RefsKnown(abs.Keys, lo, n)
    ensures RefsKnown({}, idx, Moved(loc, lo, n)) && lo <= idx
  {
  }

  lemma PrefixClosed(m: seq<Node>, m': seq<Node>, lo: nat)
    requires DefinitionsClosed(m, lo) && lo <= |m'| && forall i :: 0 <= i < lo ==> m'[i] == m[i]
    ensures DefinitionsClosed(m', lo)
  {
  }

  lemma RootsBelow(m: seq<Node>, lo: nat, idx: nat, abs: map<nat, Node>, loc: map<nat, nat>, ids: seq<nat>, roots: seq<nat>)
    requires Located(m, lo, idx, abs, loc) && Rooted(lo, abs, loc, ids, roots)
    ensures 0 < lo <= idx && forall i :: 0 <= i < |roots| ==> roots[i] < idx
  {
    forall i | 0 <= i < |roots| ensures roots[i] < idx {
      assert Known(abs.Keys, lo, ids[i]);
    }
  }

  /** A heap of definitions only. */
  lemma EmptyHeap(m: seq<Node>, lo: nat, rank: map<nat, nat>, next: nat)
    requires 0 < lo <= |m|
    ensures Graph(map[], rank, lo, next) && Located(m, lo, lo, map[], map[])
    ensures DefinitionsClosed(m, lo) <==> forall i :: 0 <= i < lo ==> RefsKnown({}, lo, m[i])
  {
  }

  /** Only the first two of nine roots are left. */
  function Cleared(roots: seq<nat>): (r: seq<nat>)
    requires |roots| == 9
  {
    [roots[0], roots[1], 0, 0, 0, 0, 0, 0, 0]
  }

  lemma ClearedRooted(lo: nat, abs: map<nat, Node>, loc: map<nat, nat>, ids: seq<nat>, roots: seq<nat>)
    requires |ids| == 9 && |roots| == 9 && 0 < lo
    ensures Rooted(lo, abs, loc, Cleared(ids), Cleared(roots)) <==>
            forall i :: 0 <= i < 2 ==> Known(abs.Keys, lo, ids[i]) && roots[i] == Img(loc, lo, ids[i])
    ensures Rooted(lo, abs, loc, ids, roots) ==> Rooted(lo, abs, loc, Cleared(ids), Cleared(roots))
  {
    var c, r := Cleared(ids), Cleared(roots);
    if Rooted(lo, abs, loc, c, r) {
      forall i | 0 <= i < 2 ensures Known(abs.Keys, lo, ids[i]) && roots[i] == Img(loc, lo, ids[i]) {
        assert Known(abs.Keys, lo, c[i]) && r[i] == Img(loc, lo, c[i]);
      }
    }
  }

  lemma RestrictTextFree(abs: map<nat, Node>, s: set<nat>)
    ensures TextFree(abs) ==> TextFree(Restrict(abs, s))
  {
  }

  /** The node of an allocation in terms of identities. */
  function Own(o: Op, u: Types, uid: nat, rid: nat): Node {
    Node(o, rid, if u.Lis? then Lis(uid) else u)
  }

  /** What an allocation starts from. */
  lemma AllocateReady(s: Space, abs: map<nat, Node>, rank: map<nat, nat>, next: nat, loc: map<nat, nat>, ids: seq<nat>,
                      o: Op, u: Types, r: nat, uid: nat, rid: nat)
    requires Located(s.slots, s.lo, s.index, abs, loc) && Graph(abs, rank, s.lo, next) && s.lo <= s.max
    requires Rooted(s.lo, abs, loc, ids, s.roots) && Proper(Node(o, r, u))
    requires Known(abs.Keys, s.lo, rid) && r == Img(loc, s.lo, rid)
    requires u.Lis? ==> Known(abs.Keys, s.lo, uid) && u.lis == Img(loc, s.lo, uid)
    ensures Rooted(s.lo, abs, loc, ParamIds(o, uid, rid), Params(o, u, r))
    ensures Collectable(s, Places(loc, abs.Keys), IndexRank(loc, rank), Params(o, u, r))
    ensures var live := s.lo + TotalBelow(abs, Reached(abs, s.lo, ids + ParamIds(o, uid, rid)), next);
            && Needed(s, Places(loc, abs.Keys), Params(o, u, r)) == live
            && 0 < live <= 2 * s.index && (TextFree(abs) ==> live <= s.index)
    ensures 0 < s.lo <= s.index <= |s.slots| && |ids| == |s.roots|
  {
    hide Located, Graph, Rooted, Collectable, Reached, TotalBelow, TextFree;
    var pids, params := ParamIds(o, uid, rid), Params(o, u, r);
    HeapKeys(s.slots, s.lo, s.index, abs, rank, next, loc);
    ParamsRooted(s.lo, abs, loc, o, uid, rid, params);
    RootedLengths(s.lo, abs, loc, ids, s.roots);
    HeapCollectable(s, abs, rank, next, loc, ids, pids, params, Reached(abs, s.lo, ids + pids));
    FitsAgain(s.slots, s.lo, s.index, abs, rank, next, loc, ids + pids);
  }

  /** A node stored behind what was in use after room was made is one more identity. */
  lemma Entered(s: Space, busy: bool, num: nat, demand: nat, abs: map<nat, Node>, rank: map<nat, nat>, next: nat,
                loc: map<nat, nat>, ids: seq<nat>, o: Op, u: Types, r: nat, uid: nat, rid: nat,
                mid: Space, u': Types, r': nat, fwd: map<nat, nat>, m': seq<Node>)
    returns (kept: set<nat>, loc': map<nat, nat>, rank': map<nat, nat>)
    requires Located(s.slots, s.lo, s.index, abs, loc) && Graph(abs, rank, s.lo, next) && DefinitionsClosed(s.slots, s.lo)
    requires Rooted(s.lo, abs, loc, ids, s.roots) && s.lo <= next && s.lo <= s.max <= |s.slots|
    requires Proper(Node(o, r, u)) && num == NewSlots(o, u)
    requires Rooted(s.lo, abs, loc, ParamIds(o, uid, rid), Params(o, u, r))
    requires RoomMade(s, busy, num, demand, Places(loc, abs.Keys), Params(o, u, r), mid, Params(o, u', r'), fwd)
    requires (o.List? <==> u'.Lis?) && (!u.Lis? ==> u' == u)
    requires Stored(mid.slots, mid.index, num, Node(o, r', u'), m')
    ensures Graph(Restrict(abs, kept)[next := Own(o, u, uid, rid)], rank', s.lo, next + 1)
    ensures Located(m', s.lo, mid.index + num, Restrict(abs, kept)[next := Own(o, u, uid, rid)], loc')
    ensures Rooted(s.lo, Restrict(abs, kept)[next := Own(o, u, uid, rid)], loc', ids, mid.roots)
    ensures DefinitionsClosed(m', s.lo) && m'[..s.lo] == s.slots[..s.lo] && mid.lo == s.lo
    ensures Stays(abs, s.lo, kept, ids + ParamIds(o, uid, rid))
    ensures next in loc' && loc'[next] == mid.index && s.lo <= mid.index && |mid.roots| == |ids|
    ensures RefsKnown({}, mid.index, Node(o, r', u'))
    ensures if busy || s.index + num < s.max
            then kept == abs.Keys && loc' == loc[next := mid.index] && Restrict(abs, kept) == abs
            else kept == Reached(abs, s.lo, ids + ParamIds(o, uid, rid))
  {
    hide Located, Graph, Rooted, Reached, RoomMade, Stays, DefinitionsClosed, NewSlots, Places, Restrict;
    var pids, n := ParamIds(o, uid, rid), Own(o, u, uid, rid);
    var loc1;
    kept, loc1 := RoomIdentities(s, busy, num, demand, abs, rank, next, loc, ids, pids, Params(o, u, r),
                                 mid, Params(o, u', r'), fwd);
    var abs1 := Restrict(abs, kept);
    ParamsRooted(s.lo, abs1, loc1, o, uid, rid, Params(o, u', r'));
    assert Moved(loc1, s.lo, n) == Node(o, r', u');
    FittingBelow(mid.slots, s.lo, mid.index, abs1, loc1, n);
    assert NewSlots(n.op, n.u) == num by {
      NewSlotsOf(o, n.u, u);
    }
    rank' := StoredNode(mid.slots, m', s.lo, mid.index, abs1, rank, next, loc1, ids, mid.roots, n);
    loc' := loc1[next := mid.index];
    RestrictAll(abs, kept);
    RootedLengths(s.lo, abs1, loc1, ids, mid.roots);
  }

  lemma RestrictAll(abs: map<nat, Node>, s: set<nat>)
    ensures s == abs.Keys ==> Restrict(abs, s) == abs
  {
  }

  lemma NewSlotsOf(o: Op, u: Types, w: Types)
    requires u == w || (u.Lis? && w.Lis?)
    ensures NewSlots(o, u) == NewSlots(o, w)
  {
  }

  /** The heap after the first k nodes of own are entered. */
  ghost function Entries(abs: map<nat, Node>, next: nat, own: seq<Node>, k: nat): map<nat, Node>
    requires k <= |own|
  {
    if k == 0 then abs else Entries(abs, next, own, k - 1)[next + k - 1 := own[k - 1]]
  }

  ghost function Sites(loc: map<nat, nat>, next: nat, idx: nat, k: nat): map<nat, nat> {
    if k == 0 then loc else Sites(loc, next, idx, k - 1)[next + k - 1 := idx + k - 1]
  }

  /** Nodes of one slot each, which refer to what is there and to earlier ones among them. */
  ghost predicate Batch(nodes: seq<Node>, own: seq<Node>, abs: map<nat, Node>, loc: map<nat, nat>, lo: nat, next: nat, idx: nat) {
    && |own| == |nodes|
    && forall k :: 0 <= k < |own| ==>
         && Proper(own[k]) && !IsText(own[k].op) && RefsKnown(Entries(abs, next, own, k).Keys, lo, own[k])
         && nodes[k] == Moved(Sites(loc, next, idx, k), lo, own[k])
  }

  lemma BatchStart(nodes: seq<Node>, own: seq<Node>, abs: map<nat, Node>, loc: map<nat, nat>, lo: nat, next: nat, idx: nat)
    requires Batch(nodes, own, abs, loc, lo, next, idx)
    ensures |own| == |nodes| && Entries(abs, next, own, 0) == abs && Sites(loc, next, idx, 0) == loc
  {
  }

  lemma BatchAt(nodes: seq<Node>, own: seq<Node>, abs: map<nat, Node>, loc: map<nat, nat>, lo: nat, next: nat, idx: nat, k: nat)
    requires Batch(nodes, own, abs, loc, lo, next, idx) && k < |nodes|
    ensures |own| == |nodes| && Proper(own[k]) && !IsText(own[k].op)
    ensures RefsKnown(Entries(abs, next, own, k).Keys, lo, own[k]) && nodes[k] == Moved(Sites(loc, next, idx, k), lo, own[k])
    ensures Entries(abs, next, own, k + 1) == Entries(abs, next, own, k)[next + k := own[k]]
    ensures Sites(loc, next, idx, k + 1) == Sites(loc, next, idx, k)[next + k := idx + k]
  {
  }

  /** What a write behind s leaves. */
  lemma Behind(s: seq<Node>, m: seq<Node>, node: Node)
    requires |s| < |m| && m[..|s|] == s
    ensures m[|s| := node][..|s| + 1] == s + [node]
  {
  }
}
