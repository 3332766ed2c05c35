/** PR_SET_CHILD_SUBREAPER of kernel/sys.c: the tree walk that hands has_child_subreaper down, pruned
    at processes that already have the flag. */
module Subreaper {
  /** `reaper`: init of a pid namespace. `subreaper`, `flagged`: signal->is_child_subreaper and
      signal->has_child_subreaper. */
  datatype Proc = Proc(parent: int, reaper: bool, subreaper: bool, flagged: bool)

  /** Processes in the order of their birth; a parent is older than its children. */
  type Tree = seq<Proc>

  predicate ValidTree(t: Tree) { forall q | 0 < q < |t| :: 0 <= t[q].parent < q }

  /** q is below `top`, and no namespace init lies on the way down to q (q included). */
  ghost predicate Below(t: Tree, top: nat, q: int)
    requires ValidTree(t)
    decreases q
  {
    top < q < |t| && !t[q].reaper && (t[q].parent == top || Below(t, top, t[q].parent))
  }

  /** The processes the pruned walk from `top` reaches and flags. */
  ghost predicate Visited(t: Tree, top: nat, q: int)
    requires ValidTree(t)
    decreases q
  {
    top < q < |t| && !t[q].reaper && !t[q].flagged && (t[q].parent == top || Visited(t, top, t[q].parent))
  }

  ghost function PrunedWalk(t: Tree, top: nat): Tree
    requires ValidTree(t)
  {
    seq(|t|, q requires 0 <= q < |t| => if Visited(t, top, q) then t[q].(flagged := true) else t[q])
  }

  ghost function UnprunedWalk(t: Tree, top: nat): Tree
    requires ValidTree(t)
  {
    seq(|t|, q requires 0 <= q < |t| => if Below(t, top, q) then t[q].(flagged := true) else t[q])
  }

  /** A child of a flagged process is flagged or the init of a namespace. */
  ghost predicate FlagsInherited(t: Tree)
    requires ValidTree(t)
  {
    forall q | 0 < q < |t| && t[t[q].parent].flagged :: t[q].flagged || t[q].reaper
  }

  /** And so is a child of a subreaper. */
  ghost predicate Inv(t: Tree) {
    && ValidTree(t) && FlagsInherited(t)
    && forall q | 0 < q < |t| && t[t[q].parent].subreaper :: t[q].flagged || t[q].reaper
  }

  // ---------------------------------------------------------------- pruning loses nothing

  lemma {:induction false} BelowIsFlaggedOrVisited(t: Tree, top: nat, q: int)
    requires ValidTree(t) && FlagsInherited(t) && Below(t, top, q)
    ensures t[q].flagged || Visited(t, top, q)
    decreases q
  {
    if t[q].parent != top { BelowIsFlaggedOrVisited(t, top, t[q].parent); }
  }

  lemma {:induction false} VisitedIsBelow(t: Tree, top: nat, q: int)
    requires ValidTree(t) && Visited(t, top, q)
    ensures Below(t, top, q)
    decreases q
  {
    if t[q].parent != top { VisitedIsBelow(t, top, t[q].parent); }
  }

  /** The pruned walk leaves the flags the unpruned walk leaves. */
  lemma PruningIsHarmless(t: Tree, top: nat)
    requires ValidTree(t) && FlagsInherited(t)
    ensures PrunedWalk(t, top) == UnprunedWalk(t, top)
  {
    forall q | 0 <= q < |t|
      ensures PrunedWalk(t, top)[q] == UnprunedWalk(t, top)[q]
    {
      if Below(t, top, q) { BelowIsFlaggedOrVisited(t, top, q); }
      if Visited(t, top, q) { VisitedIsBelow(t, top, q); }
    }
  }

  /** Without the invariant pruning can skip a process: a flagged child with an unflagged child. */
  lemma PruningNeedsInheritance()
    ensures var t := [Proc(0, true, true, false), Proc(0, false, false, true), Proc(1, false, false, false)];
            ValidTree(t) && !PrunedWalk(t, 0)[2].flagged && UnprunedWalk(t, 0)[2].flagged
  {
    var t := [Proc(0, true, true, false), Proc(0, false, false, true), Proc(1, false, false, false)];
    assert Below(t, 0, 1) && Below(t, 0, 2) && !Visited(t, 0, 1);
  }

  // ---------------------------------------------------------------- runs

  datatype Event =
    | Fork(parent: nat, newNamespace: bool)
    | SetSubreaper(me: nat, on: bool)
    | Reparent(child: nat, ancestor: nat)

  /** Reparenting stays within the pid namespace: the new parent is an ancestor of the old one, with no
      namespace init in between. */
  ghost predicate Enabled(t: Tree, e: Event)
    requires ValidTree(t)
  {
    match e
    case Fork(parent, _) => parent < |t|
    case SetSubreaper(me, _) => me < |t|
    case Reparent(child, ancestor) => 0 < child < |t| && Below(t, ancestor, t[child].parent)
  }

  ghost function Prctl(t: Tree, me: nat, on: bool): Tree
    requires ValidTree(t) && me < |t|
  {
    var t1 := t[me := t[me].(subreaper := on)];
    if on then PrunedWalk(t1, me) else t1
  }

  ghost function Step(t: Tree, e: Event): Tree
    requires ValidTree(t)
  {
    if !Enabled(t, e) then t else
    match e
    case Fork(parent, newNamespace) => t + [Proc(parent, newNamespace, false, t[parent].flagged || t[parent].subreaper)]
    case SetSubreaper(me, on) => Prctl(t, me, on)
    case Reparent(child, ancestor) => t[child := t[child].(parent := ancestor)]
  }

  ghost predicate RunTo(t: Tree, events: seq<Event>, end: Tree)
    requires ValidTree(t)
    decreases |events|
  {
    if events == [] then t == end
    else ValidTree(Step(t, events[0])) && RunTo(Step(t, events[0]), events[1..], end)
  }

  /** Everything below a flagged process or a subreaper, within its namespace, is flagged. */
  lemma {:induction false} BelowSubreaperIsFlagged(t: Tree, top: nat, q: int)
    requires Inv(t) && Below(t, top, q) && (t[top].flagged || t[top].subreaper)
    ensures t[q].flagged
    decreases q
  {
    if t[q].parent != top { BelowSubreaperIsFlagged(t, top, t[q].parent); }
  }

  lemma {:induction false} PrctlKeepsInv(t: Tree, me: nat, on: bool)
    requires Inv(t) && me < |t|
    ensures Inv(Prctl(t, me, on))
  {
    var t1 := t[me := t[me].(subreaper := on)];
    if on {
      PruningIsHarmless(t1, me);
      var t' := UnprunedWalk(t1, me);
      forall q | 0 < q < |t'| && (t'[t'[q].parent].flagged || t'[t'[q].parent].subreaper)
        ensures t'[q].flagged || t'[q].reaper
      {
        var p := t[q].parent;
        if p == me || Below(t1, me, p) {
          assert t1[q].reaper || Below(t1, me, q);
        } else {
          assert t'[p] == t[p];
        }
      }
    }
  }

  lemma {:induction false} BelowIgnoresBits(t: Tree, t1: Tree, top: nat, q: int)
    requires ValidTree(t) && |t1| == |t|
    requires forall p | 0 <= p < |t| :: t1[p].parent == t[p].parent && t1[p].reaper == t[p].reaper
    ensures ValidTree(t1) && (Below(t1, top, q) <==> Below(t, top, q))
    decreases q
  {
    if top < q < |t| { BelowIgnoresBits(t, t1, top, t[q].parent); }
  }

  /** Everything the prctl does, bit by bit: the caller's own bit becomes what was asked for, all its descendants in
      its namespace are flagged when it is switched on, and no bit is ever cleared but the caller's own. */
  lemma {:induction false} PrctlExactly(t: Tree, me: nat, on: bool)
    requires Inv(t) && me < |t|
    ensures var t' := Prctl(t, me, on);
            && |t'| == |t|
            && forall q | 0 <= q < |t| ::
                 && t'[q].parent == t[q].parent && t'[q].reaper == t[q].reaper
                 && t'[q].subreaper == (if q == me then on else t[q].subreaper)
                 && (t'[q].flagged <==> t[q].flagged || (on && Below(t, me, q)))
  {
    var t1 := t[me := t[me].(subreaper := on)];
    PruningIsHarmless(t1, me);
    forall q | 0 <= q < |t| ensures Below(t1, me, q) <==> Below(t, me, q) { BelowIgnoresBits(t, t1, me, q); }
  }

  lemma {:induction false} StepKeepsInv(t: Tree, e: Event)
    requires Inv(t)
    ensures Inv(Step(t, e))
  {
    if Enabled(t, e) {
      match e
      case Fork(_, _) =>
      case SetSubreaper(me, on) => PrctlKeepsInv(t, me, on);
      case Reparent(child, ancestor) =>
        if t[ancestor].flagged || t[ancestor].subreaper { BelowSubreaperIsFlagged(t, ancestor, t[child].parent); }
    }
  }

  /** Main result: in every state of every run the pruned walk does what an unpruned one would do. */
  lemma {:induction false} PruningIsHarmlessInEveryRun(t: Tree, events: seq<Event>, end: Tree, me: nat)
    requires Inv(t) && RunTo(t, events, end) && me < |end|
    ensures Inv(end)
    ensures Prctl(end, me, true) == UnprunedWalk(end[me := end[me].(subreaper := true)], me)
    decreases |events|
  {
    if events == [] {
      PruningIsHarmless(end[me := end[me].(subreaper := true)], me);
    } else {
      StepKeepsInv(t, events[0]);
      PruningIsHarmlessInEveryRun(Step(t, events[0]), events[1..], end, me);
    }
  }

  // ---------------------------------------------------------------- the walk, in place

  /** The child of `top` through which the walk reaches q. */
  ghost function Branch(t: Tree, top: nat, q: int): int
    requires ValidTree(t) && Visited(t, top, q)
    decreases q
  {
    if t[q].parent == top then q else Branch(t, top, t[q].parent)
  }

  lemma {:induction false} BranchIsVisitedChild(t: Tree, top: nat, q: int)
    requires ValidTree(t) && Visited(t, top, q)
    ensures var c := Branch(t, top, q); top < c <= q && t[c].parent == top && Visited(t, top, c)
    decreases q
  {
    if t[q].parent != top { BranchIsVisitedChild(t, top, t[q].parent); }
  }

  /** The walk after the children of `top` older than `c` have been dealt with. */
  ghost function WalkUpTo(t: Tree, top: nat, c: int): Tree
    requires ValidTree(t)
  {
    seq(|t|, q requires 0 <= q < |t| =>
      if Visited(t, top, q) && Branch(t, top, q) < c then t[q].(flagged := true) else t[q])
  }

  /** What the walk from child c adds to what the walk from its parent has done so far. */
  lemma {:induction false} SubtreeWalk(t: Tree, top: nat, c: nat, q: int)
    requires ValidTree(t) && Visited(t, top, c) && t[c].parent == top && q < |t|
    ensures var t1 := WalkUpTo(t, top, c)[c := t[c].(flagged := true)];
            && ValidTree(t1)
            && (Visited(t1, c, q) <==> q > c && Visited(t, top, q) && Branch(t, top, q) == c)
    decreases q
  {
    var t1 := WalkUpTo(t, top, c)[c := t[c].(flagged := true)];
    if c < q {
      var p := t[q].parent;
      assert t1[q].parent == p && t1[q].reaper == t[q].reaper;
      assert Branch(t, top, c) == c;
      if p > c { SubtreeWalk(t, top, c, p); }
      if Visited(t, top, p) { BranchIsVisitedChild(t, top, p); }
      assert Visited(t1, c, p) ==> p > c;
    }
  }

  class ProcessTree {
    var procs: Tree

    /** At boot there is init, which is the reaper of its namespace. */
    constructor ()
      ensures Inv(procs) && procs == [Proc(0, true, false, false)]
    {
      procs := [Proc(0, true, false, false)];
    }

    /** propagate_has_child_subreaper(): 1 to descend, 0 to prune. */
    method Propagate(p: nat) returns (descend: int)
      requires p < |procs|
      modifies this
      ensures descend == if old(procs)[p].flagged || old(procs)[p].reaper then 0 else 1
      ensures procs == if descend == 0 then old(procs) else old(procs)[p := old(procs)[p].(flagged := true)]
    {
      if procs[p].flagged || procs[p].reaper { return 0; }
      procs := procs[p := procs[p].(flagged := true)];
      return 1;
    }

    method WalkProcessTree(top: nat)
      requires ValidTree(procs) && top < |procs|
      modifies this
      ensures procs == PrunedWalk(old(procs), top)
      decreases |procs| - top
    {
      ghost var t := procs;
      forall q | Visited(t, top, q) ensures Branch(t, top, q) > top { BranchIsVisitedChild(t, top, q); }
      for c := top + 1 to |procs|
        invariant |procs| == |t| && procs == WalkUpTo(t, top, c)
      {
        ghost var before := procs;
        if procs[c].parent == top {
          var descend := Propagate(c);
          if descend == 1 {
            assert Visited(t, top, c);
            ghost var t1 := procs;
            assert t1 == WalkUpTo(t, top, c)[c := t[c].(flagged := true)];
            forall q | q < |t|
              ensures ValidTree(t1) && (Visited(t1, c, q) <==> q > c && Visited(t, top, q) && Branch(t, top, q) == c)
            {
              SubtreeWalk(t, top, c, q);
            }
            assert ValidTree(t1) by { SubtreeWalk(t, top, c, c); }
            WalkProcessTree(c);
            assert procs == PrunedWalk(t1, c);
          }
        }
        forall q | 0 <= q < |t| ensures procs[q] == WalkUpTo(t, top, c + 1)[q] {
          if Visited(t, top, q) { BranchIsVisitedChild(t, top, q); }
        }
      }
      forall q | 0 <= q < |t| ensures procs[q] == PrunedWalk(t, top)[q] {
        if Visited(t, top, q) { BranchIsVisitedChild(t, top, q); }
      }
    }

    method PrctlSetChildSubreaper(me: nat, arg2: int)
      requires Inv(procs) && me < |procs|
      modifies this
      ensures Inv(procs) && procs == Prctl(old(procs), me, arg2 != 0)
      ensures |procs| == |old(procs)| && procs[me].subreaper == (arg2 != 0)
    {
      PrctlKeepsInv(procs, me, arg2 != 0);
      PrctlExactly(procs, me, arg2 != 0);
      procs := procs[me := procs[me].(subreaper := arg2 != 0)];
      if arg2 == 0 { return; }
      WalkProcessTree(me);
    }
  }
}
