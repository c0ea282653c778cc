/** The copying collector and the allocator: old nodes are copied along their next chains, recursion
    follows only list contents, and a forwarding mark in the old node keeps it from being copied twice. */
module Collector {
  import opened HeapModel
  import opened CopyLayout
  import opened CopyOrder
  import opened CopyTheory
  import opened Identities
  import opened Spaces

  class Env {
    var memory: array<Node>
    var oldMemory: array<Node>
    var memoryindex: nat
    var memorymax: nat
    var memLow: nat
    /** stck, prog, conts, dump, dump1, ... dump5, in the order in which the collector visits them. */
    var roots: seq<nat>
    var inits: nat
    var flibraryBusy: bool
    /** Set when the program would write behind the end of its node array; it is not in the program. */
    var overrun: bool

    ghost var abs: map<nat, Node>
    ghost var loc: map<nat, nat>
    ghost var rank: map<nat, nat>
    ghost var ids: seq<nat>
    ghost var nextId: nat

    ghost function Now(): (s: Space)
      reads this, memory
    {
      Space(memory[..], memLow, memoryindex, memorymax, roots)
    }

    /** The memory holds the identities of abs, the roots among them, above a closed definition space. */
    ghost predicate Sound()
      reads this, memory
    {
      && !overrun && |roots| == 9 && memLow <= memorymax && memLow <= nextId
      && Graph(abs, rank, memLow, nextId)
      && Located(memory[..], memLow, memoryindex, abs, loc)
      && DefinitionsClosed(memory[..], memLow)
      && Rooted(memLow, abs, loc, ids, roots)
    }

    ghost predicate Valid()
      reads this, memory
    {
      Sound() && memorymax <= memory.Length
    }

    /** A copy in progress, in which `met` are the nodes whose slots are reserved, in that order. */
    ghost predicate Mid(orig: seq<Node>, live: set<nat>, rank: map<nat, nat>,
                        fwd: map<nat, nat>, busy: set<nat>, pend: set<nat>, met: seq<nat>)
      reads this, memory, oldMemory
    {
      && memory != oldMemory && !overrun
      && Ranked(orig, memLow, live, rank)
      && Copying(orig, memLow, live, oldMemory[..], memory[..], memoryindex, fwd, busy, pend)
      && memoryindex == memLow + Sum(orig, met) && Extent(orig, memLow, met) <= memory.Length
      && forall x :: x in met <==> x in fwd || x in busy
    }

    /** Copies node n, and what its list holds.  The program writes behind the end of the memory exactly if the
        slots of one of the nodes do, without the one that is reserved behind a text. */
    method CopyOne(n: nat, ghost orig: seq<Node>, ghost live: set<nat>, ghost rank: map<nat, nat>,
                   ghost fwd: map<nat, nat>, ghost busy: set<nat>, ghost pend: set<nat>, ghost met: seq<nat>)
      returns (temp: nat, ghost fwd': map<nat, nat>)
      requires Mid(orig, live, rank, fwd, busy, pend, met)
      requires memLow <= n < |orig| && n in live && n !in fwd && Above(rank, memLow, busy, n)
      modifies this`memoryindex, this`overrun, memory, oldMemory
      ensures overrun ==> Extent(orig, memLow, VisitOne(orig, memLow, rank, met, n)) > memory.Length
      ensures !overrun ==>
                && Mid(orig, live, rank, fwd', busy, pend + {n}, VisitOne(orig, memLow, rank, met, n))
                && old(memoryindex) <= memoryindex && SameBelow(old(memory[..]), old(memoryindex), memory[..])
                && Extends(rank, memLow, fwd, fwd', n, old(memoryindex))
                && n in fwd' && temp == fwd'[n]
      decreases Level(rank, memLow, n), 1
    {
      hide Copying, Size, Ranked, CopySlots, IsText, Visit, Sum, Extent;
      fwd' := fwd;
      CopyingFacts(orig, memLow, live, oldMemory[..], memory[..], memoryindex, fwd, busy, pend, n);
      NotMet(orig, memLow, live, rank, busy, n);
      SumSnoc(orig, met, n);
      ExtentFrom(orig, memLow, met + [n]);
      VisitExtends(orig, memLow, rank, met, n);
      ExtentMono(orig, memLow, met + [n], VisitOne(orig, memLow, rank, met, n));
      VisitContents(orig, memLow, live, rank, met, n);
      var node := oldMemory[n];
      if memory.Length < memoryindex + NewSlots(node.op, node.u) {
        overrun := true;
        return 0, fwd;
      }
      temp := memoryindex;
      Reserve(orig, memLow, live, oldMemory[..], memory[..], memoryindex, fwd, busy, pend, n, node);
      ghost var m := memory[..];
      memory[temp] := node;
      memoryindex := memoryindex + CopySlots(node);
      assert SameBelow(m, temp, memory[..]);
      if node.op.List? {
        fwd' := CopyContents(temp, n, orig, live, rank, fwd, busy, pend, met + [n]);
        if overrun {
          return 0, fwd;
        }
      }
      var mark := Node(Copied, oldMemory[n].next, Lis(temp));
      Mark(orig, memLow, live, oldMemory[..], memory[..], memoryindex, fwd', busy, pend, n, temp, mark);
      oldMemory[n] := mark;
      ExtendsOne(orig, memLow, live, rank, fwd, fwd', n, temp);
      fwd' := fwd'[n := temp];
    }

    /** Copies the contents of list node n, whose own copy stands at temp. */
    method CopyContents(temp: nat, n: nat, ghost orig: seq<Node>, ghost live: set<nat>, ghost rank: map<nat, nat>,
                        ghost fwd: map<nat, nat>, ghost busy: set<nat>, ghost pend: set<nat>, ghost met: seq<nat>)
      returns (ghost fwd': map<nat, nat>)
      requires Mid(orig, live, rank, fwd, busy + {n}, pend, met) && Above(rank, memLow, busy, n) && n !in busy
      requires n in live && n < |orig| && orig[n].op.List? && n !in fwd && memLow <= n
      requires memLow <= temp < memory.Length && temp + CopySlots(orig[n]) == memoryindex && memory[temp] == orig[n]
      requires forall k :: k in fwd ==> k < |orig| && fwd[k] + CopySlots(orig[k]) <= temp
      modifies this`memoryindex, this`overrun, memory, oldMemory
      ensures overrun ==> orig[n].u.Lis? && Extent(orig, memLow, Visit(orig, memLow, rank, met, orig[n].u.lis)) > memory.Length
      ensures !overrun ==>
                && orig[n].u.Lis? && Mid(orig, live, rank, fwd', busy + {n}, pend, Visit(orig, memLow, rank, met, orig[n].u.lis))
                && old(memoryindex) <= memoryindex && SameBelow(old(memory[..]), temp, memory[..])
                && Extends(rank, memLow, fwd, fwd', orig[n].u.lis, old(memoryindex)) && n !in fwd'
                && (forall k :: k in fwd' ==> k < |orig| && Apart(temp, CopySlots(orig[n]), fwd'[k], CopySlots(orig[k])))
                && Known(fwd'.Keys, memLow, orig[n].u.lis)
                && memory[temp] == orig[n].(u := Lis(Img(fwd', memLow, orig[n].u.lis)))
      decreases Level(rank, memLow, n), 0
    {
      hide Copying, Size, Visit, Sum, Extent;
      CopyingFacts(orig, memLow, live, oldMemory[..], memory[..], memoryindex, fwd, busy + {n}, pend, n);
      var r;
      r, fwd' := Copy(memory[temp].u.lis, orig, live, rank, fwd, busy + {n}, pend, met);
      if overrun {
        return;
      }
      SlotsAhead(orig, memLow, live, oldMemory[..], memory[..], memoryindex, fwd, fwd', busy + {n}, pend, rank,
                 orig[n].u.lis, n, temp);
      ghost var m := memory[..];
      Patch(orig, memLow, live, oldMemory[..], m, memoryindex, fwd', busy + {n}, pend, temp,
            m[temp].(u := Lis(r)));
      memory[temp] := memory[temp].(u := Lis(r));
      assert memory[..] == m[temp := m[temp].(u := Lis(r))];
    }

    method SetNext(at: nat, x: nat)
      requires at < memory.Length
      modifies memory
      ensures memory[..] == old(memory[..])[at := old(memory[at]).(next := x)]
    {
      memory[at] := memory[at].(next := x);
    }

    /** One round of the chain loop: copies `current`, links it behind `tail` (the copy of `last`) if there is
        one, and leaves it as the new unlinked end of the chain. */
    method CopyNext(current: nat, tail: nat, ghost last: nat,
                    ghost orig: seq<Node>, ghost live: set<nat>, ghost rank: map<nat, nat>,
                    ghost fwd: map<nat, nat>, ghost busy: set<nat>, ghost pend: set<nat>, ghost met: seq<nat>)
      returns (newNode: nat, ghost fwd': map<nat, nat>)
      requires Mid(orig, live, rank, fwd, busy, if tail == 0 then pend else pend + {last}, met)
      requires memLow <= current < |orig| && current in live && current !in fwd && Above(rank, memLow, busy, current)
      requires tail != 0 ==> last in fwd && last !in pend && last < |orig| && tail == fwd[last]
      requires tail != 0 ==> orig[last].next == current
      modifies this`memoryindex, this`overrun, memory, oldMemory
      ensures overrun ==> Extent(orig, memLow, VisitOne(orig, memLow, rank, met, current)) > memory.Length
      ensures !overrun ==>
                && Mid(orig, live, rank, fwd', busy, pend + {current}, VisitOne(orig, memLow, rank, met, current))
                && old(memoryindex) <= memoryindex
                && (forall i :: 0 <= i < old(memoryindex) && i < memory.Length && (tail == 0 || i != tail) ==> memory[i] == old(memory[i]))
                && Extends(rank, memLow, fwd, fwd', current, old(memoryindex))
                && current in fwd' && newNode == fwd'[current]
                && newNode < memory.Length && memory[newNode].next == 0
      decreases Level(rank, memLow, current), 2
    {
      hide Copying, Size, Ranked, CopySlots, VisitOne, Sum, Extent;
      CopyingFacts(orig, memLow, live, oldMemory[..], memory[..], memoryindex, fwd, busy,
                   if tail == 0 then pend else pend + {last}, current);
      newNode, fwd' := CopyOne(current, orig, live, rank, fwd, busy, if tail == 0 then pend else pend + {last}, met);
      if overrun {
        return;
      }
      assert forall i :: 0 <= i < old(memoryindex) && i < memory.Length ==> memory[..][i] == old(memory[..])[i];
      if tail != 0 {
        assert pend + {last} + {current} == pend + {current} + {last};
        Link(orig, memLow, live, oldMemory[..], memory[..], memoryindex, fwd', busy, pend + {current}, last);
        SetNext(tail, newNode);
      }
      Scratch(orig, memLow, live, oldMemory[..], memory[..], memoryindex, fwd', busy, pend + {current}, current, 0);
      SetNext(newNode, 0);
    }

    /** Links the end of a chain, the copy of `last`, to the image of what comes next. */
    method LinkTail(tail: nat, x: nat, ghost last: nat, ghost orig: seq<Node>, ghost live: set<nat>, ghost rank: map<nat, nat>,
                    ghost fwd: map<nat, nat>, ghost busy: set<nat>, ghost pend: set<nat>, ghost met: seq<nat>)
      requires Mid(orig, live, rank, fwd, busy, pend + {last}, met) && last in fwd && last !in pend && last < |orig|
      requires tail == fwd[last] && Known(fwd.Keys, memLow, orig[last].next) && x == Img(fwd, memLow, orig[last].next)
      modifies memory
      ensures Mid(orig, live, rank, fwd, busy, pend, met) && SameBelow(old(memory[..]), tail, memory[..])
    {
      hide Copying, Size, CopySlots, Ranked, Sum, Extent;
      Link(orig, memLow, live, oldMemory[..], memory[..], memoryindex, fwd, busy, pend, last);
      SetNext(tail, x);
    }

    method Copy(n: nat, ghost orig: seq<Node>, ghost live: set<nat>, ghost rank: map<nat, nat>,
                ghost fwd: map<nat, nat>, ghost busy: set<nat>, ghost pend: set<nat>, ghost met: seq<nat>)
      returns (head: nat, ghost fwd': map<nat, nat>)
      requires Mid(orig, live, rank, fwd, busy, pend, met)
      requires Known(live, memLow, n) && Above(rank, memLow, busy, n)
      modifies this`memoryindex, this`overrun, memory, oldMemory
      ensures overrun ==> Extent(orig, memLow, Visit(orig, memLow, rank, met, n)) > memory.Length
      ensures !overrun ==>
                && Mid(orig, live, rank, fwd', busy, pend, Visit(orig, memLow, rank, met, n))
                && old(memoryindex) <= memoryindex && SameBelow(old(memory[..]), old(memoryindex), memory[..])
                && Extends(rank, memLow, fwd, fwd', n, old(memoryindex))
                && Known(fwd'.Keys, memLow, n) && head == Img(fwd', memLow, n)
      decreases Level(rank, memLow, n), 3
    {
      hide Copying, Size, CopySlots, Ranked, VisitOne, Visit, Sum, Extent, Closed;
      fwd' := fwd;
      CopyingLive(orig, memLow, live, oldMemory[..], memory[..], memoryindex, fwd, busy, pend);
      VisitStep(orig, memLow, live, rank, met, n);
      if n < memLow {
        return n, fwd;
      }
      CopyingFacts(orig, memLow, live, oldMemory[..], memory[..], memoryindex, fwd, busy, pend, n);
      if oldMemory[n].op.Copied? {
        return oldMemory[n].u.lis, fwd;
      }
      head := 0;
      var tail: nat, current: nat := 0, n;
      ghost var last: nat, so := 0, met;
      while current >= memLow
        invariant !overrun && old(memoryindex) <= memoryindex
        invariant SameBelow(old(memory[..]), old(memoryindex), memory[..])
        invariant Known(live, memLow, current) && Level(rank, memLow, current) <= Level(rank, memLow, n)
        invariant Mid(orig, live, rank, fwd', busy, if tail == 0 then pend else pend + {last}, so)
        invariant Visit(orig, memLow, rank, so, current) == Visit(orig, memLow, rank, met, n)
        invariant Extends(rank, memLow, fwd, fwd', n, old(memoryindex))
        invariant tail == 0 ==> current == n && fwd' == fwd && head == 0
        invariant tail != 0 ==> EndsAt(orig, fwd, fwd', last, tail, current) && n in fwd' && head == fwd'[n] && head != 0
        decreases Level(rank, memLow, current)
      {
        CopyingFacts(orig, memLow, live, oldMemory[..], memory[..], memoryindex, fwd',
                     busy, if tail == 0 then pend else pend + {last}, current);
        VisitStep(orig, memLow, live, rank, so, current);
        NotMet(orig, memLow, live, rank, busy, current);
        if oldMemory[current].op.Copied? {
          var moved := oldMemory[current].u.lis;
          if tail != 0 {
            LinkTail(tail, moved, last, orig, live, rank, fwd', busy, pend, so);
          } else {
            head := moved;
          }
          return;
        }
        var oldNext := oldMemory[current].next;
        ghost var before, idx := fwd', memoryindex;
        var newNode;
        newNode, fwd' := CopyNext(current, tail, last, orig, live, rank, fwd', busy, pend, so);
        so := VisitOne(orig, memLow, rank, so, current);
        if overrun {
          VisitBehind(orig, memLow, rank, so, oldNext);
          return;
        }
        ExtendsTrans(rank, memLow, fwd, before, fwd', n, current, old(memoryindex), idx);
        if head == 0 {
          head := newNode;
        }
        tail := newNode;
        last := current;
        current := oldNext;
      }
      VisitStep(orig, memLow, live, rank, so, current);
      if current != 0 && current < memLow && tail != 0 {
        LinkTail(tail, current, last, orig, live, rank, fwd', busy, pend, so);
      } else {
        Link(orig, memLow, live, oldMemory[..], memory[..], memoryindex, fwd', busy, pend, last);
        assert memory[..][tail := memory[tail].(next := 0)] == memory[..];
      }
    }

    /** `tail` is the copy of `last`, made after fwd, whose next field is still 0; `current` is next. */
    ghost predicate EndsAt(orig: seq<Node>, fwd: map<nat, nat>, fwd': map<nat, nat>, last: nat, tail: nat, current: nat)
      reads this, memory
    {
      && last in fwd' && last !in fwd && last < |orig| && orig[last].next == current
      && tail == fwd'[last] && tail < memory.Length && memory[tail].next == 0
    }

    method CopyRoots(rs: seq<nat>, ghost orig: seq<Node>, ghost live: set<nat>, ghost rank: map<nat, nat>,
                     ghost fwd: map<nat, nat>, ghost met: seq<nat>)
      returns (rs': seq<nat>, ghost fwd': map<nat, nat>)
      requires Mid(orig, live, rank, fwd, {}, {}, met) && 0 < memLow
      requires forall i :: 0 <= i < |rs| ==> Known(live, memLow, rs[i])
      modifies this`memoryindex, this`overrun, memory, oldMemory
      ensures overrun <==> Extent(orig, memLow, VisitAll(orig, memLow, rank, met, rs)) > memory.Length
      ensures !overrun ==>
                && Mid(orig, live, rank, fwd', {}, {}, VisitAll(orig, memLow, rank, met, rs)) && Grows(fwd, fwd')
                && |rs'| == |rs|
                && forall i :: 0 <= i < |rs| ==> Known(fwd'.Keys, memLow, rs[i]) && rs'[i] == Img(fwd', memLow, rs[i])
    {
      hide Copying, Size, Ranked, Visit, Sum, Extent;
      rs', fwd' := [], fwd;
      ghost var so := met;
      assert rs[0..] == rs;
      while |rs'| < |rs|
        invariant |rs'| <= |rs| && !overrun && Mid(orig, live, rank, fwd', {}, {}, so) && Grows(fwd, fwd')
        invariant VisitAll(orig, memLow, rank, so, rs[|rs'|..]) == VisitAll(orig, memLow, rank, met, rs)
        invariant forall i :: 0 <= i < |rs'| ==> Known(fwd'.Keys, memLow, rs[i]) && rs'[i] == Img(fwd', memLow, rs[i])
      {
        var x := rs[|rs'|];
        ghost var left := rs[|rs'|..];
        assert left[0] == x && left[1..] == rs[|rs'| + 1..];
        VisitNone(orig, memLow, rank, so, x);
        ghost var next := Visit(orig, memLow, rank, so, x);
        if x != 0 {
          x, fwd' := Copy(x, orig, live, rank, fwd', {}, {}, so);
          if overrun {
            VisitAllExtends(orig, memLow, rank, next, left[1..]);
            ExtentMono(orig, memLow, next, VisitAll(orig, memLow, rank, next, left[1..]));
            return;
          }
        }
        so := next;
        rs' := rs' + [x];
      }
      assert rs[|rs'|..] == [];
    }

    /** Sets the old memory aside and starts a new one that holds the definitions. */
    method Flip()
      requires memLow <= memory.Length && memLow <= memorymax
      modifies this`memory, this`oldMemory, this`memoryindex
      ensures fresh(memory) && memory.Length == memorymax && memoryindex == memLow
      ensures oldMemory == old(memory) && oldMemory[..] == old(memory[..])
      ensures forall k :: 0 <= k < memLow ==> memory[k] == old(memory[..])[k]
    {
      oldMemory := memory;
      ghost var orig := memory[..];
      memory := new Node[memorymax];
      memoryindex := memLow;
      var i := 0;
      while i < memLow
        invariant fresh(memory) && memory.Length == memorymax && memoryindex == memLow
        invariant oldMemory == old(memory) && oldMemory[..] == orig
        invariant 0 <= i <= memLow && forall k :: 0 <= k < i ==> memory[k] == orig[k]
      {
        memory[i] := oldMemory[i];
        i := i + 1;
      }
    }

    /** Copies what the roots and the parameters of an allocation reach into a memory of memorymax slots. */
    method Gc1(params: seq<nat>, ghost all: set<nat>, ghost ranks: map<nat, nat>)
      returns (params': seq<nat>, ghost fwd: map<nat, nat>)
      requires !overrun && Collectable(Now(), all, ranks, params)
      modifies this`memory, this`oldMemory, this`memoryindex, this`roots, this`overrun, memory
      ensures fresh(memory) && memory.Length == memorymax
      ensures overrun <==> Outgrows(Needed(old(Now()), all, params), old(Short(Now(), ranks, params)), memorymax)
      ensures !overrun ==> Moves(old(Now()), all, params, Now(), params', fwd)
      ensures !overrun ==> Dense(old(memory[..]), fwd, memoryindex)
    {
      hide Dense, Copying, Size, Ranked, Keeps, Closed, Isomorphic, VisitAll, Sum, Extent, EndsInText, Live, Outgrows;
      ghost var s := Now();
      ghost var orig, rs := memory[..], roots + params;
      ghost var live := Survivors(s, all, params);
      SurvivorsKeep(s, all, ranks, params);
      KeepsKnown(orig, memLow, live, rs);
      ExtentExactly(orig, memLow, all, ranks, rs, memorymax);
      Flip();
      CopyStart(orig, memLow, live, memory[..]);
      NoneMet(orig, memLow);
      var copied;
      copied, fwd := CopyRoots(roots + params, orig, live, ranks, map[], []);
      params' := params;
      if !overrun {
        CopyDone(orig, memLow, live, oldMemory[..], memory[..], memoryindex, fwd, all, rs);
        IsomorphicPrefix(orig, memLow, memory[..], memoryindex, fwd);
        CopiesDense(orig, memLow, memory[..], memoryindex, fwd);
        ImagesSplit(fwd, memLow, roots, params, copied);
        roots, params' := copied[..|roots|], copied[|roots|..];
      }
    }

    /** Reallocates the memory to memorymax slots. */
    method Reallocate()
      modifies this`memory
      ensures fresh(memory) && memory.Length == memorymax
      ensures forall k :: 0 <= k < old(memory.Length) && k < memorymax ==> memory[..][k] == old(memory[..])[k]
    {
      ghost var orig := memory[..];
      var larger := new Node[memorymax](_ => RAW);
      var i := 0;
      while i < memory.Length && i < memorymax
        invariant unchanged(this) && memory[..] == orig
        invariant 0 <= i <= memorymax && i <= memory.Length && forall k :: 0 <= k < i ==> larger[k] == orig[k]
      {
        larger[i] := memory[i];
        i := i + 1;
      }
      memory := larger;
    }

    /** Shrinks a memory of which less than a tenth is used, by a tenth, and doubles one of which more than nine
        tenths are. */
    method Gc2()
      requires 0 < memory.Length == memorymax && 0 < memoryindex <= memorymax + 1
      modifies this`memorymax, this`memory
      ensures memorymax == AfterGc2(memoryindex, old(memorymax)) <= memory.Length
      ensures 10 * memoryindex > 9 * old(memorymax) ==> memorymax == 2 * old(memorymax)
      ensures 10 * memoryindex < old(memorymax) ==> 10 * memorymax <= 9 * old(memorymax) < 10 * (memorymax + 1)
      ensures old(memorymax) <= 10 * memoryindex <= 9 * old(memorymax) ==> memorymax == old(memorymax)
      ensures memoryindex <= memory.Length == Allotted(memoryindex, old(memorymax))
      ensures fresh(memory) || memory == old(memory)
      ensures forall k :: 0 <= k < memoryindex && k < old(memory.Length) ==> memory[..][k] == old(memory[..])[k]
    {
      if memoryindex * 100 < 10 * memorymax {
        memorymax := memorymax * 9 / 10;
      } else if memoryindex * 100 > 90 * memorymax {
        memorymax := memorymax * 2;
        Reallocate();
      }
    }

    /** A whole collection: exactly what the roots and the parameters reach is kept, in as many slots as it
        takes, and the roots and the parameters move along. */
    method Collect(params: seq<nat>, ghost all: set<nat>, ghost ranks: map<nat, nat>)
      returns (params': seq<nat>, ghost fwd: map<nat, nat>)
      requires !overrun && Collectable(Now(), all, ranks, params)
      modifies this`memory, this`oldMemory, this`memoryindex, this`memorymax, this`roots, this`overrun, memory
      ensures fresh(memory)
      ensures overrun <==> Outgrows(Needed(old(Now()), all, params), old(Short(Now(), ranks, params)), old(memorymax))
      ensures !overrun ==> Collected(old(Now()), all, params, Now(), params', fwd) && memorymax <= memory.Length
      ensures !overrun ==> Dense(old(memory[..]), fwd, memoryindex)
    {
      hide Dense, Collectable, Isomorphic, Survivors, Size, Images, Short;
      ghost var s := Now();
      CollectableLow(s, all, ranks, params);
      params', fwd := Gc1(params, all, ranks);
      if overrun {
        return;
      }
      ghost var mid := Now();
      IsomorphicPrefix(s.slots, s.lo, mid.slots, mid.index, fwd);
      Gc2();
      MovesPrefix(s, all, params, mid, Now(), params', fwd);
    }

    /** An upper estimate, shallow along next, of the slots that a value needs. */
    method Count(n: nat, ghost all: set<nat>, ghost ranks: map<nat, nat>) returns (num: nat)
      requires Closed(memory[..], memLow, all) && Ranked(memory[..], memLow, all, ranks) && Known(all, memLow, n)
      requires forall i :: i in all ==> Proper(memory[..][i])
      ensures num == Shallow(memory[..], memLow, ranks, n)
      decreases Level(ranks, memLow, n)
    {
      if n < memLow {
        return 0;
      }
      assert memory[..][n] == memory[n] && RefsKnown(all, memLow, memory[..][n]);
      var node := memory[n];
      num := NewSlots(node.op, node.u);
      if node.op.List? {
        var inner := Count(node.u.lis, all, ranks);
        num := num + inner;
      }
    }

    /** Doubles memorymax until num more slots fit below it. */
    method Enlarge(num: nat)
      requires 0 < memorymax
      modifies this`memorymax
      ensures memorymax == Grown(old(memorymax), memoryindex + num)
    {
      while memoryindex + num >= memorymax
        invariant 0 < memorymax && Grown(memorymax, memoryindex + num) == Grown(old(memorymax), memoryindex + num)
        decreases memoryindex + num - memorymax
      {
        memorymax := memorymax * 2;
      }
    }

    /** Makes the memory larger, without a collection. */
    method Expand(num: nat)
      requires 0 < memorymax && memoryindex <= memory.Length
      modifies this`memorymax, this`memory
      ensures fresh(memory) && Enlarged(old(Now()), num, Now()) && memoryindex + num < memorymax
    {
      GrownEnough(memorymax, memoryindex + num);
      Enlarge(num);
      Reallocate();
    }

    /** Makes sure of a number of slots: as an allocation makes room, but without parameters. */
    method ReserveRoom(num: nat, ghost all: set<nat>, ghost ranks: map<nat, nat>) returns (ghost fwd: map<nat, nat>)
      requires !overrun && Collectable(Now(), all, ranks, []) && memoryindex <= memory.Length
      modifies this`memory, this`oldMemory, this`memoryindex, this`memorymax, this`roots, this`overrun, memory
      ensures fresh(memory) || memory == old(memory)
      ensures old(memoryindex) + num < old(memorymax) ==> memory == old(memory) && memory[..] == old(memory[..])
      ensures overrun <==> old(Full(num)) && Outgrows(Needed(old(Now()), all, []), old(Short(Now(), ranks, [])),
                                                      Grown(old(memorymax), old(memoryindex) + num))
      ensures !overrun ==> RoomMade(old(Now()), flibraryBusy, num, num, all, [], Now(), [], fwd)
    {
      hide Collectable, Needed, Isomorphic, Moves, Collected;
      ghost var s := Now();
      CollectableLow(s, all, ranks, []);
      fwd := map[];
      if memoryindex + num < memorymax {
        return;
      }
      if flibraryBusy {
        Expand(num);
      } else {
        GrownEnough(memorymax, memoryindex + num);
        Enlarge(num);
        MoreRoom(s, all, ranks, [], memorymax);
        assert Now() == s.(max := memorymax);
        var none;
        none, fwd := Collect([], all, ranks);
        if !overrun {
          NoImages(s.(max := Grown(s.max, s.index + num)), all, Now(), none, fwd);
        }
      }
    }

    /** What an allocation of num slots reckons with before it collects. */
    method Estimate(num: nat, o: Op, u: Types, r: nat, ghost all: set<nat>, ghost ranks: map<nat, nat>)
      returns (numgc: nat)
      requires o.List? <==> u.Lis?
      requires Collectable(Now(), all, ranks, Params(o, u, r)) && num == NewSlots(o, u)
      ensures numgc == Demand(Now(), ranks, o, u, r)
    {
      ghost var params := Params(o, u, r);
      ParamsKnown(Now(), all, ranks, params);
      numgc := num;
      if o.List? {
        assert params[0] == u.lis;
        var c := Count(u.lis, all, ranks);
        numgc := numgc + c;
      }
      assert params[|params| - 1] == r;
      var c := Count(r, all, ranks);
      numgc := numgc + c;
    }

    /** A collection for an allocation, whose parameters move along. */
    method CollectFor(num: nat, o: Op, u: Types, r: nat, ghost all: set<nat>, ghost ranks: map<nat, nat>)
      returns (u': Types, r': nat, ghost fwd: map<nat, nat>)
      requires o.List? <==> u.Lis?
      requires !overrun && Collectable(Now(), all, ranks, Params(o, u, r)) && num == NewSlots(o, u)
      modifies this`memory, this`oldMemory, this`memoryindex, this`memorymax, this`roots, this`overrun, memory
      ensures fresh(memory) && (o.List? <==> u'.Lis?) && (!u.Lis? ==> u' == u)
      ensures var size := Grown(old(memorymax), old(memoryindex) + Demand(old(Now()), ranks, o, u, r));
              && (overrun <==> Outgrows(Needed(old(Now()), all, Params(o, u, r)), old(Short(Now(), ranks, Params(o, u, r))), size))
              && (!overrun ==> Collected(old(Now()).(max := size), all, Params(o, u, r), Now(), Params(o, u', r'), fwd))
    {
      hide Collectable, Needed, Isomorphic, Shallow, Survivors;
      u', r' := u, r;
      ghost var s := Now();
      var params := Params(o, u, r);
      CollectableLow(s, all, ranks, params);
      var numgc := Estimate(num, o, u, r, all, ranks);
      GrownEnough(memorymax, memoryindex + numgc);
      Enlarge(numgc);
      MoreRoom(s, all, ranks, params, memorymax);
      params, fwd := Collect(params, all, ranks);
      if overrun {
        return;
      }
      if o.List? {
        u' := Lis(params[0]);
        r' := params[1];
        assert params == [u'.lis, r'];
      } else {
        r' := params[0];
        assert params == [r'];
      }
    }

    /** Neither room for num more slots nor the reading of a definition, which puts collections off. */
    ghost predicate Full(num: nat)
      reads this
    {
      !flibraryBusy && memoryindex + num >= memorymax
    }

    /** Makes room for an allocation, whose list contents and next node are the parameters. */
    method MakeRoom(num: nat, o: Op, u: Types, r: nat, ghost all: set<nat>, ghost ranks: map<nat, nat>)
      returns (u': Types, r': nat, ghost fwd: map<nat, nat>)
      requires o.List? <==> u.Lis?
      requires !overrun && Collectable(Now(), all, ranks, Params(o, u, r)) && num == NewSlots(o, u)
      requires memoryindex <= memory.Length
      modifies this`memory, this`oldMemory, this`memoryindex, this`memorymax, this`roots, this`overrun, memory
      ensures fresh(memory) || memory == old(memory)
      ensures old(memoryindex) + num < old(memorymax) ==> memory == old(memory)
      ensures (o.List? <==> u'.Lis?) && (!u.Lis? ==> u' == u)
      ensures var demand := Demand(old(Now()), ranks, o, u, r);
              && (overrun <==> old(Full(num)) &&
                               Outgrows(Needed(old(Now()), all, Params(o, u, r)), old(Short(Now(), ranks, Params(o, u, r))),
                                        Grown(old(memorymax), old(memoryindex) + demand)))
              && (!overrun ==> RoomMade(old(Now()), flibraryBusy, num, demand, all, Params(o, u, r), Now(), Params(o, u', r'), fwd))
    {
      hide Collectable, Needed, Collected, Demand;
      u', r', fwd := u, r, map[];
      CollectableLow(Now(), all, ranks, Params(o, u, r));
      if memoryindex + num >= memorymax {
        if flibraryBusy {
          Expand(num);
        } else {
          u', r', fwd := CollectFor(num, o, u, r, all, ranks);
        }
      }
    }

    /** Allocates a node; a text takes further slots for the characters that do not fit in its node.  `mid` is
        the space with the room made.  The end of the array is passed exactly if a collection leaves too
        little of it. */
    method Allocate(o: Op, u: Types, r: nat, ghost all: set<nat>, ghost ranks: map<nat, nat>)
      returns (p: nat, ghost mid: Space, ghost u': Types, ghost r': nat, ghost fwd: map<nat, nat>)
      requires o.List? <==> u.Lis?
      requires !overrun && Collectable(Now(), all, ranks, Params(o, u, r))
      requires memoryindex <= memory.Length && memorymax <= memory.Length
      modifies this`memory, this`oldMemory, this`memoryindex, this`memorymax, this`roots, this`overrun, memory
      ensures fresh(memory) || memory == old(memory)
      ensures old(memoryindex) + NewSlots(o, u) < old(memorymax) ==> memory == old(memory)
      ensures (o.List? <==> u'.Lis?) && (!u.Lis? ==> u' == u)
      ensures var num, demand := NewSlots(o, u), Demand(old(Now()), ranks, o, u, r);
              && (overrun <==> old(Full(num)) &&
                               Exceeds(Needed(old(Now()), all, Params(o, u, r)), old(Short(Now(), ranks, Params(o, u, r))), num,
                                       Grown(old(memorymax), old(memoryindex) + demand)))
              && (!overrun ==>
                    && RoomMade(old(Now()), flibraryBusy, num, demand, all, Params(o, u, r), mid, Params(o, u', r'), fwd)
                    && p == mid.index && Stored(mid.slots, p, num, Node(o, r', u'), memory[..])
                    && Now() == mid.(slots := memory[..], index := p + num))
      ensures !overrun && IsText(o) && u.Chars? ==> 16 * (memoryindex - p - 1) < |u.str| + 1 + 8 <= 16 * (memoryindex - p)
      ensures !overrun && !IsText(o) ==> memoryindex == p + 1
    {
      hide Collectable, Needed, Demand, NewSlots, RoomMade, Stored, Params, Grown;
      ghost var s := Now();
      var num := NewSlots(o, u);
      ghost var params, demand := Params(o, u, r), Demand(s, ranks, o, u, r);
      p := 0;
      NewSlotsHold(o, u);
      CollectableLow(s, all, ranks, params);
      var u1, r1;
      u1, r1, fwd := MakeRoom(num, o, u, r, all, ranks);
      mid, u', r' := Now(), u1, r1;
      if overrun {
        return;
      }
      RoomFits(s, flibraryBusy, num, demand, all, ranks, params, mid, Params(o, u1, r1), fwd);
      if memoryindex + num <= memory.Length {
        p := memoryindex;
        Store(p, num, Node(o, r1, u1));
        memoryindex := memoryindex + num;
      } else {
        overrun := true;
      }
    }

    method Store(p: nat, num: nat, node: Node)
      requires 0 < num && p + num <= memory.Length
      modifies memory
      ensures Stored(old(memory[..]), p, num, node, memory[..])
    {
      memory[p] := node;
      var k := 1;
      while k < num
        invariant 1 <= k <= num
        invariant forall i :: 0 <= i < memory.Length ==>
                    memory[i] == if i == p then node else if p < i < p + k then RAW else old(memory[i])
      {
        memory[p + k] := RAW;
        k := k + 1;
      }
    }

    /** No slot in use refers beyond the slots in use. */
    ghost predicate Tidy()
      reads this, memory
    {
      memoryindex <= memory.Length && forall i :: 0 <= i < memoryindex ==> RefsKnown({}, memoryindex, memory[i])
    }

    /** What a collection of the identities needs, with those of the parameters. */
    ghost function LiveWith(pids: seq<nat>): nat
      reads this
    {
      memLow + TotalBelow(abs, Reached(abs, memLow, ids + pids), nextId)
    }

    /** Takes the memory that a collection of s left for the identities that are left. */
    ghost method AdoptCollected(s: Space, fwd: map<nat, nat>) returns (kept: set<nat>)
      requires Located(s.slots, s.lo, s.index, abs, loc) && Graph(abs, rank, s.lo, nextId) && DefinitionsClosed(s.slots, s.lo)
      requires Rooted(s.lo, abs, loc, ids, s.roots) && s.lo <= nextId && s.lo <= s.max && s.lo == memLow && |ids| == 9
      requires !overrun && Collected(s, Places(loc, abs.Keys), [], Now(), [], fwd)
      requires s.lo + TotalBelow(abs, Reached(abs, s.lo, ids), nextId) <= s.max + 1
      modifies this`abs, this`loc
      ensures Valid() && kept == Reached(old(abs), memLow, ids) && abs == Restrict(old(abs), kept)
      ensures Stays(old(abs), memLow, kept, ids)
      ensures memoryindex == memLow + TotalBelow(old(abs), kept, nextId) && memorymax == AfterGc2(memoryindex, s.max)
      ensures memory[..memLow] == s.slots[..memLow]
      ensures SameValues(s.slots, s.roots, memory[..], roots)
    {
      hide Located, Graph, Rooted, DefinitionsClosed, Reached, Stays, SameValues, TotalBelow, Restrict, Survivors, Isomorphic,
           Images, Needed, Places, Collectable, IndexRank, Relocated;
      assert ids + [] == ids;
      NoneRooted(memLow, abs, loc);
      kept := Reached(abs, memLow, ids);
      HeapCollectable(s, abs, rank, nextId, loc, ids, [], [], kept);
      IdentitiesMoved(s, abs, rank, nextId, loc, ids, [], [], kept, Now(), [], fwd);
      MovesMeaning(s, Places(loc, abs.Keys), [], Now(), [], fwd);
      abs, loc := Restrict(abs, kept), Relocated(loc, fwd, kept);
      RootedLengths(memLow, abs, loc, ids, roots);
      LocatedBounds(memory[..], memLow, memoryindex, abs, loc);
      ShrinkLeavesRoom(memoryindex, s.max);
    }

    /** What a collection of the roots starts from. */
    lemma CollectReady()
      requires Sound()
      ensures Collectable(Now(), Places(loc, abs.Keys), IndexRank(loc, rank), [])
      ensures Needed(Now(), Places(loc, abs.Keys), []) == LiveWith([]) && ids + [] == ids && |ids| == 9
      ensures Stays(abs, memLow, Reached(abs, memLow, ids), ids) && 0 < memLow <= memorymax
      ensures 0 < LiveWith([]) <= 2 * memoryindex && (TextFree(abs) ==> LiveWith([]) <= memoryindex) && memoryindex <= memory.Length
    {
      hide Located, Graph, Rooted, DefinitionsClosed, Reached, Stays, TotalBelow, Collectable, Needed, Places, IndexRank, TextFree;
      assert ids + [] == ids;
      NoneRooted(memLow, abs, loc);
      RootedLengths(memLow, abs, loc, ids, roots);
      HeapKeys(memory[..], memLow, memoryindex, abs, rank, nextId, loc);
      HeapCollectable(Now(), abs, rank, nextId, loc, ids, [], [], Reached(abs, memLow, ids));
      FitsAgain(memory[..], memLow, memoryindex, abs, rank, nextId, loc, ids);
    }

    /** Behind the last of these nothing is written. */
    ghost predicate ShortWith(params: seq<nat>)
      reads this, memory
    {
      Short(Now(), IndexRank(loc, rank), params)
    }

    /** A collection outside an allocation: what the roots reach is kept, each root denotes what it denoted,
        and exactly the slots for the kept nodes are in use. */
    method GcCollect() returns (ghost kept: set<nat>)
      requires Sound()
      modifies this`memory, this`oldMemory, this`memoryindex, this`memorymax, this`roots, this`overrun, this`abs,
               this`loc, memory
      ensures fresh(memory)
      ensures kept == Reached(old(abs), memLow, ids) && Stays(old(abs), memLow, kept, ids)
      ensures overrun <==> Outgrows(old(LiveWith([])), old(ShortWith([])), old(memorymax))
      ensures !overrun ==>
                && Valid() && abs == Restrict(old(abs), kept)
                && memoryindex == old(LiveWith([]))
                && memorymax == AfterGc2(memoryindex, old(memorymax))
                && memory[..memLow] == old(memory[..memLow])
                && SameValues(old(memory[..]), old(roots), memory[..], roots)
    {
      hide Located, Graph, Rooted, DefinitionsClosed, Reached, Stays, SameValues, TotalBelow, Restrict, Collectable, Collected,
           Needed, Places, IndexRank;
      CollectReady();
      ghost var s, all := Now(), Places(loc, abs.Keys);
      kept := Reached(abs, memLow, ids);
      var none;
      ghost var fwd;
      none, fwd := Collect([], all, IndexRank(loc, rank));
      if !overrun {
        NoImages(s, all, Now(), none, fwd);
        kept := AdoptCollected(s, fwd);
      }
    }

    /** A collection right after a collection finds nothing to drop: the second leaves memoryindex as the first
        left it. */
    method CollectTwice() returns (first: nat)
      requires Sound()
      modifies this`memory, this`oldMemory, this`memoryindex, this`memorymax, this`roots, this`overrun, this`abs,
               this`loc, memory
      ensures overrun <==> Outgrows(old(LiveWith([])), old(ShortWith([])), old(memorymax))
      ensures !overrun ==>
                && Valid() && first == memoryindex == old(LiveWith([]))
                && abs == Restrict(old(abs), Reached(old(abs), memLow, ids))
                && memorymax == AfterGc2(first, AfterGc2(first, old(memorymax)))
    {
      hide Located, Graph, Rooted, DefinitionsClosed, SameValues, TotalBelow, Reached, Stays, Restrict, AfterGc2;
      first := 0;
      CollectReady();
      GraphStaysAlone(abs, rank, memLow, nextId, loc, ids, roots);
      ghost var before := abs;
      ghost var k := GcCollect();
      if overrun {
        return;
      }
      CollectReady();
      KeptAgain(before, memLow, ids, k, nextId);
      first := memoryindex;
      ShrinkLeavesRoom(first, old(memorymax));
      ghost var k' := GcCollect();
    }

    /** The slots in use lie below the capacity, or there are no texts. */
    ghost predicate Roomy()
      reads this
    {
      memoryindex <= memorymax || TextFree(abs)
    }

    /** Takes the memory with the slots reserved for the identities that are left. */
    ghost method AdoptReserved(s: Space, num: nat, fwd: map<nat, nat>)
      requires Located(s.slots, s.lo, s.index, abs, loc) && Graph(abs, rank, s.lo, nextId) && DefinitionsClosed(s.slots, s.lo)
      requires Rooted(s.lo, abs, loc, ids, s.roots) && s.lo <= nextId && s.lo <= s.max <= |s.slots| && s.lo == memLow && |ids| == 9
      requires !overrun && RoomMade(s, flibraryBusy, num, num, Places(loc, abs.Keys), [], Now(), [], fwd)
      requires !flibraryBusy && s.index + num >= s.max ==> LiveWith([]) <= Grown(s.max, s.index + num) + 1
      modifies this`abs, this`loc
      ensures Valid()
      ensures if !flibraryBusy && s.index + num >= s.max
              then && abs == Restrict(old(abs), Reached(old(abs), memLow, ids)) && memoryindex == old(LiveWith([]))
                   && memorymax == AfterGc2(memoryindex, Grown(s.max, s.index + num))
                   && SameValues(s.slots, s.roots, memory[..], roots)
              else && abs == old(abs) && loc == old(loc) && roots == s.roots && memoryindex == s.index
                   && memorymax == Grown(s.max, s.index + num) && memoryindex + num < memorymax && s.index <= |s.slots|
                   && memoryindex <= memory.Length && forall k :: 0 <= k < s.index ==> memory[k] == s.slots[k]
    {
      hide Located, Graph, Rooted, DefinitionsClosed, Reached, Stays, SameValues, TotalBelow, Restrict, Collected,
           Places, TextFree, AfterGc2;
      LocatedBounds(s.slots, s.lo, s.index, abs, loc);
      GrownEnough(s.max, s.index + num);
      assert ids + [] == ids;
      if s.index + num < s.max {
        RootedLengths(memLow, abs, loc, ids, roots);
      } else if flibraryBusy {
        RootedLengths(memLow, abs, loc, ids, roots);
        LocatedPrefix(s.slots, memory[..], memLow, memoryindex, abs, loc);
      } else {
        var s1 := s.(max := Grown(s.max, s.index + num));
        var kept := AdoptCollected(s1, fwd);
      }
    }

    /** Reserves num slots.  A heap that lies below its capacity is never given up, whatever texts it holds.
        The slots are there afterwards unless the collection that makes the room leaves so little in use that
        it also shrinks the memory below the request. */
    method EnsureCapacity(num: nat)
      requires Valid()
      modifies this`memory, this`oldMemory, this`memoryindex, this`memorymax, this`roots, this`overrun, this`abs,
               this`loc, memory
      ensures fresh(memory) || memory == old(memory)
      ensures overrun <==> old(Full(num)) && Outgrows(old(LiveWith([])), old(ShortWith([])), Grown(old(memorymax), old(memoryindex) + num))
      ensures old(Roomy()) ==> !overrun
      ensures TextFree(old(abs)) ==> TextFree(abs)
      ensures !overrun ==> Valid()
      ensures !old(Full(num)) ==>
                && abs == old(abs) && loc == old(loc) && roots == old(roots) && memoryindex == old(memoryindex)
                && memorymax == Grown(old(memorymax), memoryindex + num) && memoryindex + num < memorymax
                && (old(Tidy()) ==> Tidy())
      ensures old(memoryindex) + num < old(memorymax) ==> memory == old(memory)
      ensures old(Full(num)) && !overrun ==>
                var live, grown := old(LiveWith([])), Grown(old(memorymax), old(memoryindex) + num);
                && abs == Restrict(old(abs), Reached(old(abs), memLow, ids))
                && memoryindex == live && memorymax == AfterGc2(live, grown)
                && (memoryindex + num < memorymax <==> live + num < AfterGc2(live, grown))
                && (TextFree(old(abs)) ==>
                      (memoryindex + num < memorymax <==> live * 10 >= grown || live + num < grown * 9 / 10))
                && SameValues(old(memory[..]), old(roots), memory[..], roots)
    {
      hide Located, Graph, Rooted, DefinitionsClosed, Reached, Stays, SameValues, TotalBelow, Restrict, Collectable, RoomMade,
           Needed, Places, IndexRank, TextFree, Grown, AfterGc2, RefsKnown;
      CollectReady();
      ghost var s := Now();
      ReserveFits(s.index, s.max, num, LiveWith([]));
      RestrictTextFree(abs, Reached(abs, memLow, ids));
      GrownEnough(s.max, s.index + num);
      ghost var fwd := ReserveRoom(num, Places(loc, abs.Keys), IndexRank(loc, rank));
      if !overrun {
        AdoptReserved(s, num, fwd);
      }
    }

    /** The parameters of an allocation denote the identities uid and rid, and the union fits the type. */
    ghost predicate Fitting(o: Op, u: Types, r: nat, uid: nat, rid: nat)
      reads this
    {
      && Proper(Node(o, r, u))
      && Known(abs.Keys, memLow, rid) && r == Img(loc, memLow, rid)
      && (u.Lis? ==> Known(abs.Keys, memLow, uid) && u.lis == Img(loc, memLow, uid))
    }

    /** The capacity that an allocation collects into. */
    ghost function Ahead(o: Op, u: Types, r: nat): nat
      reads this, memory
    {
      Grown(memorymax, memoryindex + Demand(Now(), IndexRank(loc, rank), o, u, r))
    }

    /** Allocates a node in the memory, whose identities still have to follow. */
    method AllocateFor(o: Op, u: Types, r: nat, ghost uid: nat, ghost rid: nat)
      returns (p: nat, ghost demand: nat, ghost mid: Space, ghost u': Types, ghost r': nat, ghost fwd: map<nat, nat>)
      requires Valid() && Fitting(o, u, r, uid, rid)
      modifies this`memory, this`oldMemory, this`memoryindex, this`memorymax, this`roots, this`overrun, memory
      ensures fresh(memory) || memory == old(memory)
      ensures Rooted(memLow, abs, loc, ParamIds(o, uid, rid), Params(o, u, r)) && |ids| == |old(roots)|
      ensures Outcome(old(memoryindex), old(memorymax), flibraryBusy, NewSlots(o, u), LiveWith(ParamIds(o, uid, rid)),
                      old(ShortWith(Params(o, u, r))), old(Ahead(o, u, r)), overrun, memoryindex, memorymax)
      ensures old(memoryindex <= memorymax) ==>
                (overrun <==> old(Full(NewSlots(o, u))) &&
                              LiveWith(ParamIds(o, uid, rid)) + NewSlots(o, u) >
                                Allotted(LiveWith(ParamIds(o, uid, rid)), old(Ahead(o, u, r))))
      ensures old(Roomy()) && NewSlots(o, u) == 1 ==> !overrun && memoryindex <= memorymax
      ensures TextFree(abs) && !IsText(o) ==> !overrun && memoryindex < memorymax
      ensures !old(Full(NewSlots(o, u))) ==> !overrun && memoryindex < memorymax
      ensures (o.List? <==> u'.Lis?) && (!u.Lis? ==> u' == u) && demand >= NewSlots(o, u)
      ensures !overrun ==>
                && RoomMade(old(Now()), flibraryBusy, NewSlots(o, u), demand, Places(loc, abs.Keys), Params(o, u, r),
                            mid, Params(o, u', r'), fwd)
                && Stored(mid.slots, mid.index, NewSlots(o, u), Node(o, r', u'), memory[..]) && p == mid.index
                && Now() == mid.(slots := memory[..], index := p + NewSlots(o, u)) && mid.lo == memLow <= mid.max <= |mid.slots|
      ensures old(memoryindex) + NewSlots(o, u) < old(memorymax) ==>
                memory == old(memory) && mid == old(Now()) && u' == u && r' == r
    {
      hide Located, Graph, Rooted, DefinitionsClosed, TotalBelow, Reached, TextFree, Collectable, Survivors, Needed, Places,
           IndexRank, Demand, RoomMade, NewSlots, Stored, Grown, Allotted, Exceeds, Outcome, Params, ParamIds;
      ghost var s, all, ranks := Now(), Places(loc, abs.Keys), IndexRank(loc, rank);
      ghost var num, pids, params := NewSlots(o, u), ParamIds(o, uid, rid), Params(o, u, r);
      demand := Demand(s, ranks, o, u, r);
      OneSlot(o, u);
      AllocateReady(s, abs, rank, nextId, loc, ids, o, u, r, uid, rid);
      p, mid, u', r', fwd := Allocate(o, u, r, all, ranks);
      AllocateOutcome(s, flibraryBusy, num, demand, all, ranks, params, overrun, mid, Params(o, u', r'), fwd, memoryindex, memorymax);
      OutcomeFits(s.index, s.max, flibraryBusy, num, demand, LiveWith(pids), Short(s, ranks, params), TextFree(abs), overrun, memoryindex, memorymax);
      if s.index + num < s.max {
        ParamsSame(o, u, r, u', r');
      }
    }

    /** Takes the node that an allocation stored for one more identity, and drops those that it collected. */
    ghost method Adopt(s: Space, demand: nat, o: Op, u: Types, r: nat, uid: nat, rid: nat,
                       mid: Space, u': Types, r': nat, fwd: map<nat, nat>)
      returns (id: nat, kept: set<nat>)
      requires Located(s.slots, s.lo, s.index, abs, loc) && Graph(abs, rank, s.lo, nextId) && DefinitionsClosed(s.slots, s.lo)
      requires Rooted(s.lo, abs, loc, ids, s.roots) && s.lo <= nextId && s.lo <= s.max <= |s.slots|
      requires Proper(Node(o, r, u)) && Rooted(s.lo, abs, loc, ParamIds(o, uid, rid), Params(o, u, r)) && |ids| == 9
      requires RoomMade(s, flibraryBusy, NewSlots(o, u), demand, Places(loc, abs.Keys), Params(o, u, r), mid, Params(o, u', r'), fwd)
      requires (o.List? <==> u'.Lis?) && (!u.Lis? ==> u' == u) && mid.lo == s.lo <= mid.max <= |mid.slots|
      requires Stored(mid.slots, mid.index, NewSlots(o, u), Node(o, r', u'), memory[..])
      requires !overrun && Now() == mid.(slots := memory[..], index := mid.index + NewSlots(o, u))
      modifies this`abs, this`loc, this`rank, this`nextId
      ensures Valid() && id == old(nextId) && nextId == id + 1
      ensures abs == Restrict(old(abs), kept)[id := Own(o, u, uid, rid)]
      ensures id in loc && loc[id] == mid.index && memLow <= mid.index && memory[..memLow] == s.slots[..memLow]
      ensures Stays(old(abs), memLow, kept, ids + ParamIds(o, uid, rid)) && RefsKnown({}, mid.index, Node(o, r', u'))
      ensures if flibraryBusy || s.index + NewSlots(o, u) < s.max
              then kept == old(abs).Keys && loc == old(loc)[id := mid.index] && Restrict(old(abs), kept) == old(abs)
              else kept == Reached(old(abs), memLow, ids + ParamIds(o, uid, rid))
    {
      hide Located, Graph, Rooted, DefinitionsClosed, Reached, Stays, Restrict, Places, RoomMade, NewSlots, RefsKnown,
           Own, Params, ParamIds;
      id := nextId;
      kept, loc, rank := Entered(s, flibraryBusy, NewSlots(o, u), demand, abs, rank, id, loc, ids, o, u, r, uid, rid,
                                 mid, u', r', fwd, memory[..]);
      abs, nextId := Restrict(abs, kept)[id := Own(o, u, uid, rid)], id + 1;
    }

    /** Allocates a node; a text takes further slots of 16 bytes for the characters that do not fit in the 8 bytes
        of its node, and no more of them than it needs.  The end of the array is passed exactly if a collection
        into the capacity ahead leaves too little of it, which for a node of one slot never happens to a heap that
        lies below its capacity. */
    method NewNode(o: Op, u: Types, r: nat, ghost uid: nat, ghost rid: nat)
      returns (p: nat, ghost id: nat, ghost kept: set<nat>)
      requires Valid() && Fitting(o, u, r, uid, rid)
      modifies this`memory, this`oldMemory, this`memoryindex, this`memorymax, this`roots, this`overrun, this`abs,
               this`loc, this`rank, this`nextId, memory
      ensures fresh(memory) || memory == old(memory)
      ensures id == old(nextId) && nextId == id + 1
      ensures Outcome(old(memoryindex), old(memorymax), flibraryBusy, NewSlots(o, u), old(LiveWith(ParamIds(o, uid, rid))),
                      old(ShortWith(Params(o, u, r))), old(Ahead(o, u, r)), overrun, memoryindex, memorymax)
      ensures old(memoryindex <= memorymax) ==>
                (overrun <==> old(Full(NewSlots(o, u))) &&
                              old(LiveWith(ParamIds(o, uid, rid))) + NewSlots(o, u) >
                                Allotted(old(LiveWith(ParamIds(o, uid, rid))), old(Ahead(o, u, r))))
      ensures old(Roomy()) && NewSlots(o, u) == 1 ==> !overrun && memoryindex <= memorymax
      ensures !overrun && IsText(o) ==> 16 * (memoryindex - p - 1) < |u.str| + 1 + 8 <= 16 * (memoryindex - p)
      ensures !overrun && !IsText(o) ==> memoryindex == p + 1
      ensures !overrun ==>
                && Valid() && id in loc && p == loc[id] && memLow <= p && p + NewSlots(o, u) == memoryindex
                && Stays(old(abs), memLow, kept, ids + ParamIds(o, uid, rid))
                && abs == Restrict(old(abs), kept)[id := Own(o, u, uid, rid)]
                && memory[..memLow] == old(memory[..memLow])
      ensures old(Full(NewSlots(o, u))) && !overrun ==> kept == Reached(old(abs), memLow, ids + ParamIds(o, uid, rid))
      ensures old(memoryindex) + NewSlots(o, u) < old(memorymax) ==>
                && !overrun && kept == old(abs).Keys && memory == old(memory) && roots == old(roots)
                && loc == old(loc)[id := p] && memorymax == old(memorymax) && memoryindex == old(memoryindex) + NewSlots(o, u)
                && abs == old(abs)[id := Own(o, u, uid, rid)] && p == old(memoryindex)
                && Stored(old(memory[..]), p, NewSlots(o, u), Node(o, r, u), memory[..])
      ensures TextFree(old(abs)) && !IsText(o) ==> !overrun && memoryindex < memorymax
      ensures old(Tidy()) && flibraryBusy ==> !overrun && Tidy() && memoryindex < memorymax
    {
      hide Located, Graph, Rooted, DefinitionsClosed, SameValues, TotalBelow, Reached, Stays, TextFree, Restrict, Places,
           RoomMade, NewSlots, Stored, Grown, Allotted, Exceeds, Outcome, RefsKnown, Own, Params, ParamIds;
      id, kept := nextId, abs.Keys;
      ghost var s, all, busy, tidy := Now(), Places(loc, abs.Keys), flibraryBusy, Tidy();
      OneSlot(o, u);
      NewSlotsHold(o, u);
      LocatedBounds(s.slots, memLow, memoryindex, abs, loc);
      ghost var demand, mid, u', r', fwd;
      p, demand, mid, u', r', fwd := AllocateFor(o, u, r, uid, rid);
      if overrun {
        nextId := id + 1;
        return;
      }
      id, kept := Adopt(s, demand, o, u, r, uid, rid, mid, u', r', fwd);
      if busy && tidy {
        StoredTidy(s, NewSlots(o, u), demand, all, Params(o, u, r), mid, Params(o, u', r'), fwd, Node(o, r', u'), memory[..]);
      }
    }

    /** Overwrites the node at index p, which is identity t, so that it may refer to x. */
    method Overwrite(p: nat, node: Node, ghost t: nat, ghost n: Node, ghost x: nat, ghost s: set<nat>)
      requires Valid() && t in abs && p == loc[t] && node == Moved(loc, memLow, n)
      requires NewSlots(n.op, n.u) == NewSlots(abs[t].op, abs[t].u) && Proper(n) && RefsFrom(memLow, n, abs[t], x)
      requires Stays(abs, memLow, s, []) && t !in s && Known(s, memLow, x)
      modifies this`abs, this`rank, memory
      ensures Valid() && abs == old(abs)[t := n]
      ensures memory[..memLow] == old(memory[..memLow])
    {
      hide Graph, Located, DefinitionsClosed;
      ghost var before := memory[..];
      LocatedBounds(before, memLow, memoryindex, abs, loc);
      rank := PokeGraph(abs, rank, memLow, nextId, t, n, x, s);
      PokeLocated(before, memLow, memoryindex, abs, loc, t, n);
      memory[p] := node;
      assert memory[..] == before[p := node];
      PrefixClosed(before, memory[..], memLow);
      assert abs[t := n].Keys == abs.Keys;
      abs := abs[t := n];
    }

    /** An allocation of one slot that stays below memorymax moves nothing. */
    method AllocateNext(node: Node, ghost n: Node)
      requires Valid() && memoryindex + 1 < memorymax && Proper(n) && !IsText(n.op)
      requires RefsKnown(abs.Keys, memLow, n) && node == Moved(loc, memLow, n)
      modifies this`memory, this`oldMemory, this`memoryindex, this`memorymax, this`roots, this`overrun, this`abs,
               this`loc, this`rank, this`nextId, memory
      ensures Valid() && memory == old(memory) && roots == old(roots) && memorymax == old(memorymax)
      ensures memoryindex == old(memoryindex) + 1 && nextId == old(nextId) + 1 && old(memoryindex) < memory.Length
      ensures memory[..] == old(memory[..])[old(memoryindex) := node]
      ensures abs == old(abs)[old(nextId) := n] && loc == old(loc)[old(nextId) := old(memoryindex)]
    {
      hide Located, Graph, Rooted, DefinitionsClosed, Stays, TextFree, Restrict, Reached, TotalBelow, Outcome;
      LocatedBounds(memory[..], memLow, memoryindex, abs, loc);
      var p;
      ghost var id, kept;
      p, id, kept := NewNode(node.op, node.u, node.next, if n.u.Lis? then n.u.lis else 0, n.next);
    }

    /** Allocations that stay below memorymax move nothing, so indices held elsewhere stay good: the nodes stand
        one behind the other, each with the references it was given, which may be to nodes of the same run. */
    method AllocateRun(nodes: seq<Node>, ghost own: seq<Node>)
      requires Valid() && memoryindex + |nodes| < memorymax
      requires Batch(nodes, own, abs, loc, memLow, nextId, memoryindex)
      modifies this`memory, this`oldMemory, this`memoryindex, this`memorymax, this`roots, this`overrun, this`abs,
               this`loc, this`rank, this`nextId, memory
      ensures Valid() && memory == old(memory) && roots == old(roots) && memoryindex == old(memoryindex) + |nodes| <= memory.Length
      ensures memory[..memoryindex] == old(memory[..])[..old(memoryindex)] + nodes
      ensures abs == Entries(old(abs), old(nextId), own, |own|)
      ensures loc == Sites(old(loc), old(nextId), old(memoryindex), |own|)
    {
      hide Located, Graph, Rooted, DefinitionsClosed, RefsKnown, Moved, Proper, Batch, Entries, Sites, IsText;
      BatchStart(nodes, own, abs, loc, memLow, nextId, memoryindex);
      ghost var a0, l0, n0, i0, m0 := abs, loc, nextId, memoryindex, memory[..];
      LocatedBounds(memory[..], memLow, memoryindex, abs, loc);
      var i := 0;
      while i < |nodes|
        invariant Valid() && memory == old(memory) && roots == old(roots)
        invariant 0 <= i <= |nodes| && memoryindex == i0 + i <= memory.Length && memorymax == old(memorymax) && nextId == n0 + i
        invariant abs == Entries(a0, n0, own, i) && loc == Sites(l0, n0, i0, i)
        invariant memory[..i0 + i] == m0[..i0] + nodes[..i]
      {
        ghost var before := memory[..];
        BatchAt(nodes, own, a0, l0, memLow, n0, i0, i);
        AllocateNext(nodes[i], own[i]);
        Behind(m0[..i0] + nodes[..i], before, nodes[i]);
        assert m0[..i0] + nodes[..i + 1] == m0[..i0] + nodes[..i] + [nodes[i]];
        i := i + 1;
      }
    }

    method SetRoot(i: nat, x: nat, ghost id: nat)
      requires Valid() && i < 9 && Known(abs.Keys, memLow, id) && x == Img(loc, memLow, id)
      modifies this`roots, this`ids
      ensures Valid() && roots == old(roots)[i := x] && |old(ids)| == 9 && ids == old(ids)[i := id]
    {
      hide Graph, Located, DefinitionsClosed;
      roots := roots[i := x];
      ids := ids[i := id];
    }

    constructor ()
      ensures memLow == 0 && !overrun && fresh(memory) && roots == ids == seq(9, _ => 0) && inits == 0
    {
      memory, oldMemory := new Node[0], new Node[0];
      memoryindex, memorymax, memLow, inits := 0, 0, 0, 0;
      roots := seq(9, _ => 0);
      flibraryBusy, overrun := false, false;
      abs, loc, rank, ids, nextId := map[], map[], map[], seq(9, _ => 0), 0;
    }

    /** Prepares the memory at the start or, with status set, for a definition, which clears all that is not
        a definition itself.  A well-formed heap is well formed afterwards exactly if the roots that are left,
        the initial stack and the current program, lie in the definition space. */
    method Inimem1(status: bool)
      requires |roots| == 9 && |ids| == 9
      requires memLow == 0 ==> roots[PROG] == 0 && roots[STCK] == 0 && !overrun
      modifies this
      ensures flibraryBusy && inits == old(inits) && overrun == old(overrun) && |ids| == 9
      ensures roots == Cleared(if old(memLow) != 0 && status then old(roots)[STCK := inits] else old(roots))
      ensures old(memLow) == 0 ==>
                Valid() && Tidy() && memLow == memoryindex == nextId == 1 && memorymax == 1100 && abs == map[] && fresh(memory)
      ensures old(memLow) != 0 ==>
                && memory == old(memory) && memLow == old(memLow) && memorymax == old(memorymax)
                && memoryindex == if status then memLow else old(memoryindex)
      ensures old(memLow) != 0 && status && old(Valid()) ==>
                abs == map[] && Tidy() && (Valid() <==> inits < memLow && old(roots)[PROG] < memLow)
      ensures old(memLow) != 0 && !status && old(Valid()) ==> Valid() && abs == old(abs)
    {
      hide Graph, Located, Rooted, DefinitionsClosed, RefsKnown;
      flibraryBusy := true;
      if memLow == 0 {
        FirstMemory();
      } else if status {
        Reset();
      }
      ClearedRooted(memLow, abs, loc, ids, roots);
      roots := Cleared(roots);
      ids := Cleared(ids);
    }

    method FirstMemory()
      requires |roots| == 9
      modifies this`memory, this`memoryindex, this`memLow, this`memorymax, this`abs, this`loc, this`rank, this`nextId, this`ids
      ensures memoryindex == memLow == 1 && memorymax == 1100 == memory.Length && nextId == 1 && fresh(memory)
      ensures Graph(abs, rank, 1, 1) && Located(memory[..], 1, 1, abs, loc) && DefinitionsClosed(memory[..], 1)
      ensures ids == roots && abs == map[] && loc == map[] && Tidy()
    {
      memoryindex, memLow := 1, 1;
      memorymax := 1100;
      memory := new Node[1100](_ => RAW);
      abs, loc, rank, nextId := map[], map[], map[], 1;
      ids := roots;
      EmptyHeap(memory[..], 1, rank, nextId);
    }

    method Reset()
      requires |roots| == 9
      modifies this`roots, this`ids, this`memoryindex, this`abs, this`loc
      ensures memoryindex == memLow && abs == map[] && loc == map[]
      ensures roots == old(roots)[STCK := inits] && ids == roots
      ensures old(Valid()) ==> Tidy() && Graph(abs, rank, memLow, nextId) && Located(memory[..], memLow, memoryindex, abs, loc)
    {
      hide Graph, Located, Rooted;
      if Valid() {
        LocatedBounds(memory[..], memLow, memoryindex, abs, loc);
        EmptyHeap(memory[..], memLow, rank, nextId);
      }
      roots := roots[STCK := inits];
      ids := roots;
      memoryindex := memLow;
      abs, loc := map[], map[];
    }

    /** Takes everything in use into the definition space. */
    method Inimem2()
      modifies this`memLow, this`flibraryBusy, this`abs, this`loc, this`ids, this`nextId
      ensures !flibraryBusy && memLow == memoryindex && abs == map[] && ids == roots
      ensures nextId == if old(nextId) < memLow then memLow else old(nextId)
      ensures old(Valid() && Tidy() && memoryindex <= memorymax) ==> Valid()
    {
      if Valid() {
        RootsBelow(memory[..], memLow, memoryindex, abs, loc, ids, roots);
      }
      memLow := memoryindex;
      flibraryBusy := false;
      abs, loc, ids := map[], map[], roots;
      nextId := if nextId < memLow then memLow else nextId;
    }
  }
}
