/** A copying collection in progress: which old nodes are copied, which are reserved, which still miss
    their next field, and what one write to either memory does to that picture. */
module CopyTheory {
  import opened HeapModel

  /** The state of a copy in progress.

      fwd maps the old nodes copied so far to their new indices; busy are those whose slots are reserved
      while the contents of their lists are still being copied; pend are copied nodes, each the last of an
      unfinished chain, whose next field is not linked yet. */
  ghost predicate Copying(orig: seq<Node>, lo: nat, live: set<nat>, old_: seq<Node>, new_: seq<Node>, idx: nat,
                          fwd: map<nat, nat>, busy: set<nat>, pend: set<nat>)
  {
    && Marked(orig, old_, fwd)
    && 0 < lo <= |orig| && lo <= idx && lo <= |new_|
    && Closed(orig, lo, live) && fwd.Keys <= live && busy <= live && fwd.Keys !! busy && pend <= fwd.Keys
    && idx == lo + Size(orig, fwd.Keys + busy)
    && (forall i :: 0 <= i < lo ==> new_[i] == orig[i])
    && Placed(orig, lo, idx, fwd)
    && Linked(orig, lo, new_, fwd, pend)
  }

  /** Exactly the nodes of fwd carry a forwarding mark; the others are as they were. */
  ghost predicate Marked(orig: seq<Node>, old_: seq<Node>, fwd: map<nat, nat>) {
    && |old_| == |orig|
    && forall n :: 0 <= n < |orig| ==>
         if n in fwd then old_[n].op.Copied? && old_[n].u == Lis(fwd[n]) else old_[n] == orig[n]
  }

  ghost predicate Placed(orig: seq<Node>, lo: nat, idx: nat, fwd: map<nat, nat>) {
    && (forall n :: n in fwd ==> n < |orig| && lo <= fwd[n] && fwd[n] + CopySlots(orig[n]) <= idx)
    && (forall n, k :: n in fwd && k in fwd && n != k ==>
          Apart(fwd[n], CopySlots(orig[n]), fwd[k], CopySlots(orig[k])))
  }

  /** The new node of n is complete, but for its next field if n is pending. */
  ghost predicate LinkedAt(orig: seq<Node>, lo: nat, new_: seq<Node>, fwd: map<nat, nat>, pend: set<nat>, n: nat)
    requires n in fwd && n < |orig| && fwd[n] < |new_|
  {
    && (orig[n].u.Lis? ==> Known(fwd.Keys, lo, orig[n].u.lis))
    && (n !in pend ==> Known(fwd.Keys, lo, orig[n].next) && new_[fwd[n]] == Moved(fwd, lo, orig[n]))
    && (n in pend ==> new_[fwd[n]].(next := 0) == Moved(fwd, lo, orig[n]).(next := 0))
  }

  ghost predicate Linked(orig: seq<Node>, lo: nat, new_: seq<Node>, fwd: map<nat, nat>, pend: set<nat>) {
    forall n :: n in fwd ==> n < |orig| && fwd[n] < |new_| && LinkedAt(orig, lo, new_, fwd, pend, n)
  }

  /** Reserving slots for a node that is about to be copied. */
  lemma Reserve(orig: seq<Node>, lo: nat, live: set<nat>, old_: seq<Node>, new_: seq<Node>, idx: nat,
                fwd: map<nat, nat>, busy: set<nat>, pend: set<nat>, n: nat, node: Node)
    requires Copying(orig, lo, live, old_, new_, idx, fwd, busy, pend)
    requires n in live && n !in fwd && n !in busy && idx < |new_|
    ensures Copying(orig, lo, live, old_, new_[idx := node], idx + CopySlots(orig[n]), fwd, busy + {n}, pend)
  {
    SizeAdd(orig, fwd.Keys + busy, n);
    assert fwd.Keys + (busy + {n}) == fwd.Keys + busy + {n};
    forall k | k in fwd ensures LinkedAt(orig, lo, new_[idx := node], fwd, pend, k) {
      assert LinkedAt(orig, lo, new_, fwd, pend, k);
    }
  }

  /** What a copy in progress says about a node not yet copied. */
  lemma CopyingFacts(orig: seq<Node>, lo: nat, live: set<nat>, old_: seq<Node>, new_: seq<Node>, idx: nat,
                     fwd: map<nat, nat>, busy: set<nat>, pend: set<nat>, n: nat)
    requires Copying(orig, lo, live, old_, new_, idx, fwd, busy, pend) && n in live
    ensures n < |orig| == |old_| && lo <= n && 0 < lo <= idx && lo <= |new_| && fwd.Keys <= live && pend <= fwd.Keys
    ensures Proper(orig[n]) && RefsKnown(live, lo, orig[n])
    ensures n in fwd ==> old_[n].op.Copied? && old_[n].u == Lis(fwd[n])
    ensures n !in fwd ==> old_[n] == orig[n]
    ensures forall k :: k in fwd ==> k < |orig| && lo <= fwd[k] && fwd[k] + CopySlots(orig[k]) <= idx
  {
  }

  lemma CopyingLive(orig: seq<Node>, lo: nat, live: set<nat>, old_: seq<Node>, new_: seq<Node>, idx: nat,
                    fwd: map<nat, nat>, busy: set<nat>, pend: set<nat>)
    requires Copying(orig, lo, live, old_, new_, idx, fwd, busy, pend)
    ensures Closed(orig, lo, live)
  {
  }

  /** Marking a node whose new slots hold it, its list contents already copied, makes it pending. */
  lemma Mark(orig: seq<Node>, lo: nat, live: set<nat>, old_: seq<Node>, new_: seq<Node>, idx: nat,
             fwd: map<nat, nat>, busy: set<nat>, pend: set<nat>, n: nat, at: nat, mark: Node)
    requires Copying(orig, lo, live, old_, new_, idx, fwd, busy + {n}, pend) && n !in busy && n in live
    requires lo <= at < |new_| && at + CopySlots(orig[n]) <= idx
    requires forall k :: k in fwd ==> k < |orig| && Apart(at, CopySlots(orig[n]), fwd[k], CopySlots(orig[k]))
    requires orig[n].u.Lis? ==> Known(fwd.Keys, lo, orig[n].u.lis)
    requires new_[at].(next := 0) == Moved(fwd, lo, orig[n]).(next := 0)
    requires mark.op.Copied? && mark.u == Lis(at)
    ensures Copying(orig, lo, live, old_[n := mark], new_, idx, fwd[n := at], busy, pend + {n})
  {
    var fwd' := fwd[n := at];
    assert fwd'.Keys + busy == fwd.Keys + (busy + {n});
    forall k | k in fwd' ensures k < |orig| && fwd'[k] < |new_| && LinkedAt(orig, lo, new_, fwd', pend + {n}, k) {
      if k != n {
        assert LinkedAt(orig, lo, new_, fwd, pend, k);
      }
    }
  }

  /** Linking the next field of a pending node. */
  lemma Link(orig: seq<Node>, lo: nat, live: set<nat>, old_: seq<Node>, new_: seq<Node>, idx: nat,
             fwd: map<nat, nat>, busy: set<nat>, pend: set<nat>, n: nat)
    requires Copying(orig, lo, live, old_, new_, idx, fwd, busy, pend + {n}) && n !in pend && n in fwd
    requires Known(fwd.Keys, lo, orig[n].next)
    ensures fwd[n] < |new_|
    ensures Copying(orig, lo, live, old_, new_[fwd[n] := new_[fwd[n]].(next := Img(fwd, lo, orig[n].next))], idx,
                    fwd, busy, pend)
  {
    assert LinkedAt(orig, lo, new_, fwd, pend + {n}, n);
    var after := new_[fwd[n] := new_[fwd[n]].(next := Img(fwd, lo, orig[n].next))];
    forall k | k in fwd ensures k < |orig| && fwd[k] < |after| && LinkedAt(orig, lo, after, fwd, pend, k) {
      assert LinkedAt(orig, lo, new_, fwd, pend + {n}, k);
      if k != n {
        assert Apart(fwd[k], CopySlots(orig[k]), fwd[n], CopySlots(orig[n]));
      }
    }
  }

  /** Writing the next field of a pending node before it is known. */
  lemma Scratch(orig: seq<Node>, lo: nat, live: set<nat>, old_: seq<Node>, new_: seq<Node>, idx: nat,
                fwd: map<nat, nat>, busy: set<nat>, pend: set<nat>, n: nat, x: nat)
    requires Copying(orig, lo, live, old_, new_, idx, fwd, busy, pend) && n in pend && n in fwd
    ensures fwd[n] < |new_|
    ensures Copying(orig, lo, live, old_, new_[fwd[n] := new_[fwd[n]].(next := x)], idx, fwd, busy, pend)
  {
    assert LinkedAt(orig, lo, new_, fwd, pend, n);
    var after := new_[fwd[n] := new_[fwd[n]].(next := x)];
    forall k | k in fwd ensures k < |orig| && fwd[k] < |after| && LinkedAt(orig, lo, after, fwd, pend, k) {
      assert LinkedAt(orig, lo, new_, fwd, pend, k);
      if k != n {
        assert Apart(fwd[k], CopySlots(orig[k]), fwd[n], CopySlots(orig[n]));
      }
    }
  }

  /** With nothing pending or busy and all live nodes copied, the new memory is the moved old one. */
  lemma CopyDone(orig: seq<Node>, lo: nat, live: set<nat>, old_: seq<Node>, new_: seq<Node>, idx: nat,
                 fwd: map<nat, nat>, all: set<nat>, roots: seq<nat>)
    requires Copying(orig, lo, live, old_, new_, idx, fwd, {}, {})
    requires Keeps(orig, lo, all, roots) && live == Live(orig, lo, all, roots)
    requires forall i :: 0 <= i < |roots| ==> Known(fwd.Keys, lo, roots[i])
    ensures fwd.Keys == live && Isomorphic(orig, lo, new_, idx, fwd)
    ensures idx == lo + Size(orig, live)
  {
    forall n | n in fwd ensures lo <= n < |orig| && Proper(orig[n]) && RefsKnown(fwd.Keys, lo, orig[n]) {
      assert n in live && LinkedAt(orig, lo, new_, fwd, {}, n);
    }
    LiveKeeps(orig, lo, all, roots);
    assert Keeps(orig, lo, fwd.Keys, roots);
    assert fwd.Keys + {} == live;
    forall n | n in fwd ensures new_[fwd[n]] == Moved(fwd, lo, orig[n]) {
      assert LinkedAt(orig, lo, new_, fwd, {}, n);
    }
  }

  /** Writing the slot reserved for a busy node. */
  lemma Patch(orig: seq<Node>, lo: nat, live: set<nat>, old_: seq<Node>, new_: seq<Node>, idx: nat,
              fwd: map<nat, nat>, busy: set<nat>, pend: set<nat>, at: nat, node: Node)
    requires Copying(orig, lo, live, old_, new_, idx, fwd, busy, pend)
    requires lo <= at < |new_|
    requires forall k :: k in fwd ==> k < |orig| && Apart(at, 1, fwd[k], CopySlots(orig[k]))
    ensures Copying(orig, lo, live, old_, new_[at := node], idx, fwd, busy, pend)
  {
    forall k | k in fwd
      ensures k < |orig| && fwd[k] < |new_| && LinkedAt(orig, lo, new_[at := node], fwd, pend, k)
    {
      assert LinkedAt(orig, lo, new_, fwd, pend, k);
    }
  }

  /** A ranking of the live nodes: references go strictly down, so there are no cycles. */
  ghost predicate Ranked(orig: seq<Node>, lo: nat, live: set<nat>, rank: map<nat, nat>) {
    && live <= rank.Keys
    && forall n :: n in live ==> n < |orig| && Below(rank, lo, orig[n].next, n) &&
                                 (orig[n].u.Lis? ==> Below(rank, lo, orig[n].u.lis, n))
  }

  ghost predicate Below(rank: map<nat, nat>, lo: nat, x: nat, n: nat) {
    x < lo || (x in rank && n in rank && rank[x] < rank[n])
  }

  ghost function Level(rank: map<nat, nat>, lo: nat, x: nat): nat {
    if lo <= x && x in rank then rank[x] + 1 else 0
  }

  /** All of busy ranks strictly above x. */
  ghost predicate Above(rank: map<nat, nat>, lo: nat, busy: set<nat>, x: nat) {
    forall b :: b in busy ==> b in rank && Level(rank, lo, x) <= rank[b]
  }

  /** fwd' adds to fwd only nodes up to the level of x, copied to idx or later. */
  ghost predicate Extends(rank: map<nat, nat>, lo: nat, fwd: map<nat, nat>, fwd': map<nat, nat>, x: nat, idx: nat) {
    && (forall n :: n in fwd ==> n in fwd' && fwd'[n] == fwd[n])
    && (forall n :: n in fwd' && n !in fwd ==> n in rank && rank[n] < Level(rank, lo, x) && idx <= fwd'[n])
  }

  /** One more copy, after those of its list contents. */
  lemma ExtendsOne(orig: seq<Node>, lo: nat, live: set<nat>, rank: map<nat, nat>, fwd: map<nat, nat>, fwd': map<nat, nat>,
                   n: nat, temp: nat)
    requires Ranked(orig, lo, live, rank) && n in live && n < |orig| && lo <= n && n !in fwd
    requires fwd' == fwd || (orig[n].u.Lis? && Extends(rank, lo, fwd, fwd', orig[n].u.lis, temp))
    ensures Extends(rank, lo, fwd, fwd'[n := temp], n, temp)
  {
  }

  /** Copies made after the slots at `at` were reserved lie apart from them, and do not include their node. */
  lemma SlotsAhead(orig: seq<Node>, lo: nat, live: set<nat>, old_: seq<Node>, new_: seq<Node>, idx: nat,
                   fwd: map<nat, nat>, fwd': map<nat, nat>, busy: set<nat>, pend: set<nat>, rank: map<nat, nat>,
                   x: nat, n: nat, at: nat)
    requires Copying(orig, lo, live, old_, new_, idx, fwd', busy, pend)
    requires n in live && n in busy
    requires forall k :: k in fwd ==> k < |orig| && fwd[k] + CopySlots(orig[k]) <= at
    requires Extends(rank, lo, fwd, fwd', x, at + CopySlots(orig[n]))
    ensures forall k :: k in fwd' ==> k < |orig| && Apart(at, CopySlots(orig[n]), fwd'[k], CopySlots(orig[k]))
    ensures n !in fwd'
  {
  }

  lemma ExtendsTrans(rank: map<nat, nat>, lo: nat, f: map<nat, nat>, g: map<nat, nat>, h: map<nat, nat>,
                     n: nat, x: nat, idx: nat, idx': nat)
    requires Extends(rank, lo, f, g, n, idx) && Extends(rank, lo, g, h, x, idx')
    requires idx <= idx' && Level(rank, lo, x) <= Level(rank, lo, n)
    ensures Extends(rank, lo, f, h, n, idx)
  {
  }

  ghost predicate Grows(f: map<nat, nat>, g: map<nat, nat>) {
    forall n :: n in f ==> n in g && g[n] == f[n]
  }

  /** A copy starts with the definitions in place and nothing else. */
  lemma CopyStart(orig: seq<Node>, lo: nat, live: set<nat>, new_: seq<Node>)
    requires 0 < lo <= |orig| && lo <= |new_| && Closed(orig, lo, live)
    requires forall i :: 0 <= i < lo ==> new_[i] == orig[i]
    ensures Copying(orig, lo, live, orig, new_, lo, map[], {}, {})
  {
    SizeOfNone(orig);
    var none: map<nat, nat> := map[];
    assert none.Keys + {} == {};
  }

  /** The slots below k are the same. */
  ghost predicate SameBelow(m: seq<Node>, k: nat, m': seq<Node>) {
    |m'| == |m| && forall i :: 0 <= i < |m| && i < k ==> m'[i] == m[i]
  }
}
