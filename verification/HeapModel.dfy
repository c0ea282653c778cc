/** Nodes of the moving heap, what an index denotes, and what a collection must keep.

    A node is a cell of an array; indices below the boundary `lo` belong to definitions and never move.
    A text keeps its characters in the node and, when they do not fit, in the slots behind it. */
module HeapModel {

  datatype Op = Copied | List | Text | Bignum | Atom(code: nat)

  /** The union of a node: a list's first node, a text's characters, or the bits of any other value. */
  datatype Types = Lis(lis: nat) | Chars(str: string) | Bits(num: int)

  datatype Node = Node(op: Op, next: nat, u: Types)

  /** A slot without a node: fresh memory, or the characters of a text behind its node. */
  const RAW := Node(Atom(0), 0, Bits(0))

  predicate IsText(op: Op) {
    op.Text? || op.Bignum?
  }

  /** Slots beyond the first for a text: 8 bytes fit in the node, 16 in each further slot. */
  function Overflow(u: Types): nat {
    if u.Chars? && |u.str| + 1 > 8 then (|u.str| + 1 - 8 + 15) / 16 else 0
  }

  /** The slots an allocation takes. */
  function NewSlots(op: Op, u: Types): (k: nat)
    ensures k >= 1
  {
    if IsText(op) then 1 + Overflow(u) else 1
  }

  /** The slots a collection takes for a surviving node: for a text, one more than its allocation took. */
  function CopySlots(n: Node): nat {
    if IsText(n.op) then 2 + Overflow(n.u) else 1
  }

  /** A node whose union fits its type. */
  predicate Proper(n: Node) {
    && !n.op.Copied?
    && (n.op.List? <==> n.u.Lis?)
    && (IsText(n.op) <==> n.u.Chars?)
  }

  /** Where an index is moved to. */
  function Img(f: map<nat, nat>, lo: nat, x: nat): nat {
    if x < lo then x else if x in f then f[x] else 0
  }

  function Moved(f: map<nat, nat>, lo: nat, n: Node): Node {
    Node(n.op, Img(f, lo, n.next), if n.u.Lis? then Lis(Img(f, lo, n.u.lis)) else n.u)
  }

  predicate Known(s: set<nat>, lo: nat, x: nat) {
    x < lo || x in s
  }

  predicate RefsKnown(s: set<nat>, lo: nat, n: Node) {
    Known(s, lo, n.next) && (n.u.Lis? ==> Known(s, lo, n.u.lis))
  }

  // ----- what an index denotes -----

  /** The nested value that a chain of nodes unfolds to. */
  datatype Value = Nil | Cell(op: Op, u: Types, inner: Value, rest: Value)

  ghost predicate Denotes(m: seq<Node>, n: nat, v: Value)
    decreases v
  {
    match v
    case Nil => n == 0
    case Cell(op, u, inner, rest) =>
      && 0 < n < |m| && Proper(m[n]) && m[n].op == op
      && (if m[n].u.Lis? then u == Lis(0) && Denotes(m, m[n].u.lis, inner) else u == m[n].u && inner == Nil)
      && Denotes(m, m[n].next, rest)
  }

  /** An index denotes at most one value. */
  lemma {:induction false} DenotesUnique(m: seq<Node>, n: nat, v: Value, w: Value)
    requires Denotes(m, n, v) && Denotes(m, n, w)
    ensures v == w
    decreases v
  {
    if v.Cell? && w.Cell? {
      if m[n].u.Lis? {
        DenotesUnique(m, m[n].u.lis, v.inner, w.inner);
      }
      DenotesUnique(m, m[n].next, v.rest, w.rest);
    }
  }

  // ----- sizes -----

  ghost function SizeBelow(m: seq<Node>, s: set<nat>, k: nat): nat
    requires k <= |m|
    decreases k
  {
    if k == 0 then 0 else SizeBelow(m, s, k - 1) + if k - 1 in s then CopySlots(m[k - 1]) else 0
  }

  /** The slots that copies of the nodes of s take. */
  ghost function Size(m: seq<Node>, s: set<nat>): nat {
    SizeBelow(m, s, |m|)
  }

  lemma {:induction false} SizeBelowAdd(m: seq<Node>, s: set<nat>, x: nat, k: nat)
    requires k <= |m| && x !in s
    ensures SizeBelow(m, s + {x}, k) == SizeBelow(m, s, k) + if x < k then CopySlots(m[x]) else 0
    decreases k
  {
    if k > 0 {
      SizeBelowAdd(m, s, x, k - 1);
    }
  }

  lemma SizeAdd(m: seq<Node>, s: set<nat>, x: nat)
    requires x < |m| && x !in s
    ensures Size(m, s + {x}) == Size(m, s) + CopySlots(m[x])
  {
    SizeBelowAdd(m, s, x, |m|);
  }

  lemma {:induction false} SizeBelowMono(m: seq<Node>, s: set<nat>, t: set<nat>, k: nat)
    requires k <= |m| && s <= t
    ensures SizeBelow(m, s, k) <= SizeBelow(m, t, k)
    decreases k
  {
    if k > 0 {
      SizeBelowMono(m, s, t, k - 1);
    }
  }

  lemma SizeMono(m: seq<Node>, s: set<nat>, t: set<nat>)
    requires s <= t
    ensures Size(m, s) <= Size(m, t)
  {
    SizeBelowMono(m, s, t, |m|);
  }

  lemma {:induction false} SizeEmpty(m: seq<Node>, k: nat)
    requires k <= |m|
    ensures SizeBelow(m, {}, k) == 0
    decreases k
  {
    if k > 0 {
      SizeEmpty(m, k - 1);
    }
  }

  lemma SizeOfNone(m: seq<Node>)
    ensures Size(m, {}) == 0
  {
    SizeEmpty(m, |m|);
  }

  // ----- reachability -----

  /** s is a set of nodes at or above lo that all references stay in. */
  ghost predicate Closed(m: seq<Node>, lo: nat, s: set<nat>) {
    forall n :: n in s ==> lo <= n < |m| && Proper(m[n]) && RefsKnown(s, lo, m[n])
  }

  ghost predicate Keeps(m: seq<Node>, lo: nat, s: set<nat>, roots: seq<nat>) {
    Closed(m, lo, s) && forall i :: 0 <= i < |roots| ==> Known(s, lo, roots[i])
  }

  /** The live nodes: those in every closed set that holds the roots. */
  ghost function Live(m: seq<Node>, lo: nat, all: set<nat>, roots: seq<nat>): (s: set<nat>)
    ensures s <= all
  {
    set n | n in all && forall s: set<nat> :: Keeps(m, lo, s, roots) ==> n in s
  }

  /** The live nodes themselves are such a set, and so the least one. */
  lemma LiveKeeps(m: seq<Node>, lo: nat, all: set<nat>, roots: seq<nat>)
    requires Keeps(m, lo, all, roots)
    ensures Keeps(m, lo, Live(m, lo, all, roots), roots)
    ensures forall s :: Keeps(m, lo, s, roots) ==> Live(m, lo, all, roots) <= s
  {
    var live := Live(m, lo, all, roots);
    forall n | n in live ensures RefsKnown(live, lo, m[n]) {
      forall x | x == m[n].next || (m[n].u.Lis? && x == m[n].u.lis) ensures Known(live, lo, x) {
        if x >= lo {
          forall s: set<nat> | Keeps(m, lo, s, roots) ensures x in s {
            assert n in s && RefsKnown(s, lo, m[n]);
          }
          assert x in all;
        }
      }
    }
    forall i | 0 <= i < |roots| ensures Known(live, lo, roots[i]) {
      if roots[i] >= lo {
        forall s: set<nat> | Keeps(m, lo, s, roots) ensures roots[i] in s {
          assert Known(s, lo, roots[i]);
        }
      }
    }
  }

  // ----- what a finished move is -----

  ghost predicate Apart(at: nat, slots: nat, at': nat, slots': nat) {
    at + slots <= at' || at' + slots' <= at
  }

  /** The nodes of f's domain were moved from m to m': each is in its place with its references moved
      along, in slots of its own below idx, of which the last may be missing behind a text, and the definitions
      are where they were. */
  ghost predicate Isomorphic(m: seq<Node>, lo: nat, m': seq<Node>, idx: nat, f: map<nat, nat>) {
    && lo <= idx && lo <= |m'| && lo <= |m|
    && (forall i :: 0 <= i < lo ==> m'[i] == m[i])
    && Closed(m, lo, f.Keys)
    && (forall n :: n in f ==> lo <= f[n] < |m'| && f[n] + CopySlots(m[n]) <= idx)
    && (forall n :: n in f ==> m'[f[n]] == Moved(f, lo, m[n]))
    && (forall n, k :: n in f && k in f && n != k ==> Apart(f[n], CopySlots(m[n]), f[k], CopySlots(m[k])))
  }

  /** Moving keeps sharing and creates none: two indices meet in the same place only if they were one. */
  lemma MoveInjective(m: seq<Node>, lo: nat, m': seq<Node>, idx: nat, f: map<nat, nat>, a: nat, b: nat)
    requires Isomorphic(m, lo, m', idx, f) && Known(f.Keys, lo, a) && Known(f.Keys, lo, b)
    ensures Img(f, lo, a) == Img(f, lo, b) <==> a == b
  {
    if a in f && b in f && a != b {
      assert Apart(f[a], CopySlots(m[a]), f[b], CopySlots(m[b]));
    }
  }

  ghost predicate DefinitionsClosed(m: seq<Node>, lo: nat) {
    lo <= |m| && forall i :: 0 <= i < lo ==> RefsKnown({}, lo, m[i])
  }

  /** Moving keeps meaning: what an index denoted is what its image denotes, and nothing else. */
  lemma {:induction false} MoveKeepsMeaning(m: seq<Node>, lo: nat, m': seq<Node>, idx: nat, f: map<nat, nat>,
                                            n: nat, v: Value)
    requires Isomorphic(m, lo, m', idx, f) && DefinitionsClosed(m, lo) && 0 < lo
    requires Known(f.Keys, lo, n)
    ensures Denotes(m, n, v) <==> Denotes(m', Img(f, lo, n), v)
    decreases v
  {
    if v.Cell? && n > 0 {
      assert RefsKnown(f.Keys, lo, m[n]);
      if m[n].u.Lis? {
        MoveKeepsMeaning(m, lo, m', idx, f, m[n].u.lis, v.inner);
      }
      MoveKeepsMeaning(m, lo, m', idx, f, m[n].next, v.rest);
    }
  }

  /** What every root denoted, its image denotes; m' may be reallocated above idx. */
  lemma RootsKeepMeaning(m: seq<Node>, lo: nat, moved: seq<Node>, idx: nat, f: map<nat, nat>, m': seq<Node>,
                         roots: seq<nat>, roots': seq<nat>)
    requires Isomorphic(m, lo, moved, idx, f) && DefinitionsClosed(m, lo) && 0 < lo
    requires idx <= |m'| && forall k :: 0 <= k < idx && k < |moved| ==> m'[k] == moved[k]
    requires |roots| == |roots'|
    requires forall i :: 0 <= i < |roots| ==> Known(f.Keys, lo, roots[i]) && roots'[i] == Img(f, lo, roots[i])
    ensures forall i, v :: 0 <= i < |roots| ==> (Denotes(m, roots[i], v) <==> Denotes(m', roots'[i], v))
  {
    assert Isomorphic(m, lo, m', idx, f);
    forall i, v | 0 <= i < |roots| ensures Denotes(m, roots[i], v) <==> Denotes(m', roots'[i], v) {
      MoveKeepsMeaning(m, lo, m', idx, f, roots[i], v);
    }
  }
}
