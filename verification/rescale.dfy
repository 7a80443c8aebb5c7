/** `symbol_rescale` as the source runs it (src/range_coder.rs:68-112): an
    explicit stack of indices and a `visited` vector. A node seen for the
    first time is marked and its right, then its left child are pushed; a
    node seen again is popped and finished. Reading past the arena (in
    `visited` or in `symbols`) panics in the source and fails here.

    `Step` is one turn of the source's loop, `Iter` runs it `n` times, and
    `SymbolRescale` is the loop itself. On a tree, the walk agrees with the
    recursive reference `RangeCoder.Rescale`. */
module Rescale {
  import opened Fixed
  import opened Wrappers
  import opened RangeCoder

  datatype RescaleError = IndexOutOfBounds(index: nat)

  /** The loop's variables: the arena being updated, the stack (top last),
      the `visited` vector, the running total, and whether a read out of
      bounds has panicked. */
  datatype Walk = Walk(arena: seq<Symbol>, stack: seq<nat>, visited: seq<bool>, total: u16, failed: bool)

  /** The state before the first turn: only `index` on the stack, nothing
      visited, a total of 0. */
  function Start(a: seq<Symbol>, index: nat): (w: Walk)
    ensures |w.visited| == |a| && forall k :: 0 <= k < |a| ==> !w.visited[k]
  {
    Walk(a, [index], seq(|a|, _ => false), 0, false)
  }

  predicate Done(w: Walk)
  {
    w.failed || w.stack == []
  }

  /** Node `i` and the children it points to lie inside the arena. */
  predicate ChildrenInArena(a: seq<Symbol>, i: nat)
  {
    && i < |a|
    && (a[i].left != 0 ==> ChildIndex(i, a[i].left) < |a|)
    && (a[i].right != 0 ==> ChildIndex(i, a[i].right) < |a|)
  }

  /** One turn of the loop. */
  function Step(w: Walk): (r: Walk)
    ensures |r.visited| == |w.visited|
  {
    if Done(w) then w
    else
      var i := w.stack[|w.stack| - 1];
      if i >= |w.arena| || i >= |w.visited| then w.(failed := true)
      else if !w.visited[i] then
        var symbol := w.arena[i];
        var pushedRight := if symbol.right != 0 then w.stack + [ChildIndex(i, symbol.right)] else w.stack;
        var pushedLeft := if symbol.left != 0 then pushedRight + [ChildIndex(i, symbol.left)] else pushedRight;
        w.(visited := w.visited[i := true], stack := pushedLeft)
      else if !ChildrenInArena(w.arena, i) then w.(failed := true)
      else
        var (b, under) := FinishNode(w.arena, i);
        w.(arena := b, stack := w.stack[..|w.stack| - 1], total := WrappingAdd16(w.total, under))
  }

  /** `n` applications of `f`, starting from `w`. */
  function Repeat(f: Walk -> Walk, w: Walk, n: nat): Walk
  {
    if n == 0 then w else f(Repeat(f, w, n - 1))
  }

  /** `n` turns of the loop. */
  function Iter(w: Walk, n: nat): Walk
  {
    Repeat(Step, w, n)
  }

  lemma RepeatSucc(f: Walk -> Walk, w: Walk, n: nat)
    ensures Repeat(f, w, n + 1) == f(Repeat(f, w, n))
  {
  }

  lemma {:induction false} RepeatAdd(f: Walk -> Walk, w: Walk, m: nat, n: nat)
    ensures Repeat(f, w, m + n) == Repeat(f, Repeat(f, w, m), n)
    decreases n
  {
    if n != 0 {
      RepeatAdd(f, w, m, n - 1);
      RepeatSucc(f, w, m + n - 1);
      RepeatSucc(f, Repeat(f, w, m), n - 1);
    }
  }

  /** A fixpoint of `f` stays where it is. */
  lemma {:induction false} RepeatFixpoint(f: Walk -> Walk, w: Walk, n: nat)
    requires f(w) == w
    ensures Repeat(f, w, n) == w
    decreases n
  {
    if n != 0 {
      RepeatFixpoint(f, w, n - 1);
    }
  }

  /** The turns over a subtree: one to enter the root, `nl` over the left
      subtree, `nr` over the right subtree, one to finish the root. */
  lemma RepeatSplit(f: Walk -> Walk, w: Walk, nl: nat, nr: nat)
    ensures Repeat(f, w, 1 + nl + nr + 1) == f(Repeat(f, Repeat(f, f(w), nl), nr))
  {
    RepeatSucc(f, w, 0);
    RepeatAdd(f, w, 1, nl);
    RepeatAdd(f, w, 1 + nl, nr);
    RepeatSucc(f, w, 1 + nl + nr);
  }

  /** `RepeatSplit` for the loop's own turn. */
  lemma IterSplit(w: Walk, nl: nat, nr: nat, n: nat)
    requires n == 1 + nl + nr + 1
    ensures Iter(w, n) == Step(Iter(Iter(Step(w), nl), nr))
  {
    RepeatSplit(Step, w, nl, nr);
  }

  lemma IterNext(w: Walk, n: nat)
    ensures Iter(w, n + 1) == Step(Iter(w, n))
  {
    RepeatSucc(Step, w, n);
  }

  /** A finished or failed walk is a fixpoint of the loop. */
  lemma DoneIsFixpoint(w: Walk)
    requires Done(w)
    ensures Step(w) == w
  {
  }

  /** A walk that has stopped after `m` turns is in the same state after
      any later number of turns. */
  lemma StaysDone(w: Walk, m: nat, n: nat)
    requires m <= n && Done(Iter(w, m))
    ensures Iter(w, n) == Iter(w, m)
  {
    var d := n - m;
    RepeatAdd(Step, w, m, d);
    DoneIsFixpoint(Iter(w, m));
    RepeatFixpoint(Step, Iter(w, m), d);
  }

  /** Two turn counts at which a walk has stopped give the same state. */
  lemma DoneAgree(w: Walk, m: nat, n: nat)
    requires Done(Iter(w, m)) && Done(Iter(w, n))
    ensures Iter(w, m) == Iter(w, n)
  {
    if m <= n {
      StaysDone(w, m, n);
    } else {
      StaysDone(w, n, m);
    }
  }

  // ---------------------------------------------------------------------
  // The walk over one subtree
  // ---------------------------------------------------------------------

  /** The walk is about to enter the subtree at `j`, which sits on top of
      `s`, is a tree, and has no node visited yet. */
  predicate Ready(w: Walk, s: seq<nat>, j: nat)
  {
    && !w.failed && w.stack == s + [j]
    && Tree(w.arena, j) && |w.visited| == |w.arena|
    && forall k :: k in PostOrder(w.arena, j) ==> k < |w.visited| && !w.visited[k]
  }

  /** `v` is `w` after the whole subtree at `j` has been walked: `j` is
      gone from the stack, the subtree is rescaled as the reference says,
      its `under` values are added to the total, and exactly its nodes have
      been marked. */
  predicate Completes(w: Walk, s: seq<nat>, j: nat, v: Walk)
    requires InArena(w.arena, j)
  {
    && !v.failed && v.stack == s
    && v.arena == RescaleArena(w.arena, j)
    && v.total == WrappingAdd16(w.total, RescaleTotal(w.arena, j))
    && |v.visited| == |w.visited|
    && forall k :: 0 <= k < |w.visited| ==> v.visited[k] == (w.visited[k] || k in PostOrder(w.arena, j))
  }

  /** Turns spent on the left subtree of `j`. */
  function LeftTurns(a: seq<Symbol>, j: nat): nat
    requires InArena(a, j)
  {
    if a[j].left != 0 then 2 * |PostOrder(a, ChildIndex(j, a[j].left))| else 0
  }

  /** Turns spent on the right subtree of `j`. */
  function RightTurns(a: seq<Symbol>, j: nat): nat
    requires InArena(a, j)
  {
    if a[j].right != 0 then 2 * |PostOrder(a, ChildIndex(j, a[j].right))| else 0
  }

  /** The stack under the left child once `j` has been entered. */
  function LeftStack(a: seq<Symbol>, s: seq<nat>, j: nat): seq<nat>
    requires j < |a|
  {
    if a[j].right != 0 then s + [j] + [ChildIndex(j, a[j].right)] else s + [j]
  }

  /** The walk over a subtree takes two turns per node (one to enter it,
      one to finish it) and completes it. */
  lemma {:induction false} RunSubtree(w: Walk, s: seq<nat>, j: nat)
    requires Ready(w, s, j)
    ensures Completes(w, s, j, Iter(w, 2 * |PostOrder(w.arena, j)|))
    decreases |w.arena| - j, 1
  {
    if w.arena[j].left != 0 {
      RunLeft(w, s, j);
    }
    if w.arena[j].right != 0 {
      RunRight(w, s, j);
    }
    Assemble(w, s, j);
  }

  /** The walk over the left subtree, entered after the first turn on `j`. */
  lemma {:induction false} RunLeft(w: Walk, s: seq<nat>, j: nat)
    requires Ready(w, s, j) && w.arena[j].left != 0
    ensures Completes(Step(w), LeftStack(w.arena, s, j), ChildIndex(j, w.arena[j].left),
                      Iter(Step(w), LeftTurns(w.arena, j)))
    decreases |w.arena| - j, 0
  {
    EnterStep(w, s, j);
    EnterLeft(w, s, j);
    RunSubtree(Step(w), LeftStack(w.arena, s, j), ChildIndex(j, w.arena[j].left));
  }

  /** The walk over the right subtree, entered once the left one is done. */
  lemma {:induction false} RunRight(w: Walk, s: seq<nat>, j: nat)
    requires Ready(w, s, j) && w.arena[j].right != 0
    requires w.arena[j].left != 0 ==>
               Completes(Step(w), LeftStack(w.arena, s, j), ChildIndex(j, w.arena[j].left),
                         Iter(Step(w), LeftTurns(w.arena, j)))
    ensures var w2 := Iter(Step(w), LeftTurns(w.arena, j));
            var r := ChildIndex(j, w.arena[j].right);
            && InArena(w2.arena, r)
            && Completes(w2, s + [j], r, Iter(w2, RightTurns(w.arena, j)))
    decreases |w.arena| - j, 0
  {
    var a := w.arena;
    var r := ChildIndex(j, a[j].right);
    var w2 := Iter(Step(w), LeftTurns(a, j));
    if a[j].left == 0 {
      assert w2 == Step(w);
    }
    LeftDone(w, s, j, Step(w), w2);
    EnterRight(w, s, j, w2);
    RunSubtree(w2, s + [j], r);
  }

  /** The whole walk over `j` from the walks over its subtrees. */
  lemma Assemble(w: Walk, s: seq<nat>, j: nat)
    requires Ready(w, s, j)
    requires w.arena[j].left != 0 ==>
               Completes(Step(w), LeftStack(w.arena, s, j), ChildIndex(j, w.arena[j].left),
                         Iter(Step(w), LeftTurns(w.arena, j)))
    requires var w2 := Iter(Step(w), LeftTurns(w.arena, j));
             var r := ChildIndex(j, w.arena[j].right);
             w.arena[j].right != 0 ==>
               && InArena(w2.arena, r)
               && Completes(w2, s + [j], r, Iter(w2, RightTurns(w.arena, j)))
    ensures Completes(w, s, j, Iter(w, 2 * |PostOrder(w.arena, j)|))
  {
    var a := w.arena;
    var nl, nr := LeftTurns(a, j), RightTurns(a, j);
    var w2 := Iter(Step(w), nl);
    var w3 := Iter(w2, nr);
    if a[j].left == 0 {
      assert w2 == Step(w);
    }
    if a[j].right == 0 {
      assert w3 == w2;
    }
    Combine(w, s, j, w2, w3);
    var n := 2 * |PostOrder(a, j)|;
    assert n == 1 + nl + nr + 1;
    IterSplit(w, nl, nr, n);
  }

  /** Putting the pieces of one subtree's walk together. */
  lemma Combine(w: Walk, s: seq<nat>, j: nat, w2: Walk, w3: Walk)
    requires Ready(w, s, j)
    requires var a := w.arena;
             var sr := if a[j].right != 0 then s + [j] + [ChildIndex(j, a[j].right)] else s + [j];
             if a[j].left != 0 then Completes(Step(w), sr, ChildIndex(j, a[j].left), w2) else w2 == Step(w)
    requires var a := w.arena;
             a[j].right != 0 ==> InArena(w2.arena, ChildIndex(j, a[j].right))
    requires var a := w.arena;
             if a[j].right != 0 then Completes(w2, s + [j], ChildIndex(j, a[j].right), w3) else w3 == w2
    ensures Completes(w, s, j, Step(w3))
  {
    var a := w.arena;
    LeftDone(w, s, j, Step(w), w2);
    RightDone(w, s, j, w2, w3);
    FinishStep(w, s, j, w3);
    var w4 := Step(w3);
    TotalsCombine(a, j, w.total);
    forall k | 0 <= k < |w.visited|
      ensures w4.visited[k] == (w.visited[k] || k == j || InChildSubtree(a, j, a[j].left, k) || InChildSubtree(a, j, a[j].right, k))
    {
    }
    VisitedCombine(a, j, w.visited, w4.visited);
  }

  /** `k` lies in the subtree at the (non-zero) child offset `offset` of `j`. */
  predicate InChildSubtree(a: seq<Symbol>, j: nat, offset: u16, k: nat)
    requires InArena(a, j) && (offset == a[j].left || offset == a[j].right)
  {
    offset != 0 && k in PostOrder(a, ChildIndex(j, offset))
  }

  /** The totals added while walking a subtree, regrouped. */
  lemma TotalsCombine(a: seq<Symbol>, j: nat, t: u16)
    requires InArena(a, j)
    ensures var left := if a[j].left != 0 then RescaleTotal(a, ChildIndex(j, a[j].left)) else 0;
            var right := if a[j].right != 0 then RescaleTotal(AfterLeft(a, j), ChildIndex(j, a[j].right)) else 0;
            var under := FinishNode(AfterRight(a, j), j).1;
            WrappingAdd16(WrappingAdd16(WrappingAdd16(t, left), right), under) == WrappingAdd16(t, RescaleTotal(a, j))
  {
    var left := if a[j].left != 0 then RescaleTotal(a, ChildIndex(j, a[j].left)) else 0;
    var right := if a[j].right != 0 then RescaleTotal(AfterLeft(a, j), ChildIndex(j, a[j].right)) else 0;
    var under := FinishNode(AfterRight(a, j), j).1;
    WrappingAdd16Assoc(t, left, right);
    WrappingAdd16Assoc(t, WrappingAdd16(left, right), under);
  }

  /** The nodes marked while walking a subtree are exactly its nodes. */
  lemma VisitedCombine(a: seq<Symbol>, j: nat, v0: seq<bool>, v: seq<bool>)
    requires InArena(a, j) && |v| == |v0|
    requires forall k :: 0 <= k < |v0| ==>
               v[k] == (v0[k] || k == j || InChildSubtree(a, j, a[j].left, k) || InChildSubtree(a, j, a[j].right, k))
    ensures forall k :: 0 <= k < |v0| ==> v[k] == (v0[k] || k in PostOrder(a, j))
  {
    var l, r := ChildIndex(j, a[j].left), ChildIndex(j, a[j].right);
    assert PostOrder(a, j) == (if a[j].left != 0 then PostOrder(a, l) else [])
      + (if a[j].right != 0 then PostOrder(a, r) else []) + [j];
  }

  /** The first turn on `j` marks it and pushes its right, then its left
      child. */
  lemma EnterStep(w: Walk, s: seq<nat>, j: nat)
    requires Ready(w, s, j)
    ensures var w1 := Step(w);
            var a := w.arena;
            && w1.arena == a && w1.total == w.total && !w1.failed
            && w1.visited == w.visited[j := true]
            && w1.stack == (if a[j].right != 0 then s + [j] + [ChildIndex(j, a[j].right)] else s + [j])
                           + (if a[j].left != 0 then [ChildIndex(j, a[j].left)] else [])
  {
    NodesBounds(w.arena, j);
    assert j in PostOrder(w.arena, j);
  }

  /** After the first turn the left subtree is ready to be walked. */
  lemma EnterLeft(w: Walk, s: seq<nat>, j: nat)
    requires Ready(w, s, j) && w.arena[j].left != 0
    ensures var a := w.arena;
            Ready(Step(w), if a[j].right != 0 then s + [j] + [ChildIndex(j, a[j].right)] else s + [j], ChildIndex(j, a[j].left))
  {
    EnterStep(w, s, j);
    NodesBounds(w.arena, ChildIndex(j, w.arena[j].left));
  }

  /** The state once the left subtree is done (or absent). */
  lemma LeftDone(w: Walk, s: seq<nat>, j: nat, w1: Walk, w2: Walk)
    requires Ready(w, s, j) && w1 == Step(w)
    requires var a := w.arena;
             var sr := if a[j].right != 0 then s + [j] + [ChildIndex(j, a[j].right)] else s + [j];
             if a[j].left != 0 then Completes(w1, sr, ChildIndex(j, a[j].left), w2) else w2 == w1
    ensures var a := w.arena;
            && !w2.failed
            && w2.stack == (if a[j].right != 0 then s + [j] + [ChildIndex(j, a[j].right)] else s + [j])
            && w2.arena == AfterLeft(a, j)
            && w2.total == WrappingAdd16(w.total, if a[j].left != 0 then RescaleTotal(a, ChildIndex(j, a[j].left)) else 0)
            && |w2.visited| == |w.visited|
            && (forall k :: 0 <= k < |w.visited| ==>
                  w2.visited[k] == (w.visited[k] || k == j || (a[j].left != 0 && k in PostOrder(a, ChildIndex(j, a[j].left)))))
  {
    EnterStep(w, s, j);
  }

  /** Once the left subtree is done, the right subtree is ready. */
  lemma EnterRight(w: Walk, s: seq<nat>, j: nat, w2: Walk)
    requires Ready(w, s, j) && w.arena[j].right != 0
    requires var a := w.arena;
            && !w2.failed
            && w2.stack == s + [j] + [ChildIndex(j, a[j].right)]
            && w2.arena == AfterLeft(a, j)
            && |w2.visited| == |w.visited|
            && (forall k :: 0 <= k < |w.visited| ==>
                  w2.visited[k] == (w.visited[k] || k == j || (a[j].left != 0 && k in PostOrder(a, ChildIndex(j, a[j].left)))))
    ensures Ready(w2, s + [j], ChildIndex(j, w.arena[j].right))
    ensures PostOrder(w2.arena, ChildIndex(j, w.arena[j].right)) == PostOrder(w.arena, ChildIndex(j, w.arena[j].right))
  {
    var a := w.arena;
    var l, r := ChildIndex(j, a[j].left), ChildIndex(j, a[j].right);
    SameShapeSubtree(a, w2.arena, j);
    SameShapeSubtree(a, w2.arena, r);
    NodesBounds(a, r);
    forall k | k in PostOrder(w2.arena, r)
      ensures k < |w2.visited| && !w2.visited[k]
    {
      assert k in PostOrder(a, j);
      if a[j].left != 0 {
        assert k in Nodes(a, r);
        assert k !in Nodes(a, l);
      }
    }
  }

  /** The state once the right subtree is done (or absent). */
  lemma RightDone(w: Walk, s: seq<nat>, j: nat, w2: Walk, w3: Walk)
    requires Ready(w, s, j)
    requires var a := w.arena;
            && !w2.failed
            && w2.stack == (if a[j].right != 0 then s + [j] + [ChildIndex(j, a[j].right)] else s + [j])
            && w2.arena == AfterLeft(a, j)
            && |w2.visited| == |w.visited|
    requires var a := w.arena;
             if a[j].right != 0 then Completes(w2, s + [j], ChildIndex(j, a[j].right), w3) else w3 == w2
    ensures var a := w.arena;
            && !w3.failed && w3.stack == s + [j]
            && w3.arena == AfterRight(a, j)
            && w3.total == WrappingAdd16(w2.total,
                 if a[j].right != 0 then RescaleTotal(AfterLeft(a, j), ChildIndex(j, a[j].right)) else 0)
            && |w3.visited| == |w.visited|
            && (forall k :: 0 <= k < |w.visited| ==>
                  w3.visited[k] == (w2.visited[k] || (a[j].right != 0 && k in PostOrder(a, ChildIndex(j, a[j].right)))))
  {
    var a := w.arena;
    if a[j].right != 0 {
      SameShapeSubtree(a, AfterLeft(a, j), j);
      SameShapeSubtree(a, AfterLeft(a, j), ChildIndex(j, a[j].right));
    }
  }

  /** The last turn on `j` pops and finishes it. */
  lemma FinishStep(w: Walk, s: seq<nat>, j: nat, w3: Walk)
    requires Ready(w, s, j)
    requires var a := w.arena;
            && !w3.failed && w3.stack == s + [j]
            && w3.arena == AfterRight(a, j)
            && |w3.visited| == |w.visited| && j < |w3.visited| && w3.visited[j]
    ensures var w4 := Step(w3);
            && !w4.failed && w4.stack == s
            && w4.arena == RescaleArena(w.arena, j)
            && w4.total == WrappingAdd16(w3.total, FinishNode(AfterRight(w.arena, j), j).1)
            && w4.visited == w3.visited
  {
    RescaleUnfold(w.arena, j);
    assert (s + [j])[..|s + [j]| - 1] == s;
  }

  // ---------------------------------------------------------------------
  // The whole walk
  // ---------------------------------------------------------------------

  /** Started on a tree, the loop stops after two turns per node, without
      failing, holding the reference result. */
  lemma WalkOnTree(a: seq<Symbol>, index: nat)
    requires Tree(a, index)
    ensures var v := Iter(Start(a, index), 2 * |PostOrder(a, index)|);
            && v.stack == [] && !v.failed
            && v.arena == RescaleArena(a, index) && v.total == RescaleTotal(a, index)
  {
    var w0 := Start(a, index);
    assert w0.stack == [] + [index];
    NodesBounds(a, index);
    RunSubtree(w0, [], index);
  }

  /** Once failed, a walk stays failed. */
  lemma FailedStays(w: Walk, m: nat, n: nat)
    requires m <= n
    ensures Iter(w, m).failed ==> Iter(w, n).failed
  {
    if Iter(w, m).failed {
      StaysDone(w, m, n);
    }
  }

  /** On a tree the loop never fails. */
  lemma TreeWalkNeverFails(a: seq<Symbol>, index: nat, n: nat)
    ensures Tree(a, index) ==> !Iter(Start(a, index), n).failed
  {
    if Tree(a, index) {
      var w0 := Start(a, index);
      var total := 2 * |PostOrder(a, index)|;
      WalkOnTree(a, index);
      if n <= total {
        FailedStays(w0, n, total);
      } else {
        StaysDone(w0, total, n);
      }
    }
  }

  /** Whenever the loop stops without failing on a tree, it holds the
      reference result. */
  lemma StoppedWalk(a: seq<Symbol>, index: nat, n: nat)
    requires Done(Iter(Start(a, index), n))
    ensures Tree(a, index) ==>
              && Iter(Start(a, index), n).arena == RescaleArena(a, index)
              && Iter(Start(a, index), n).total == RescaleTotal(a, index)
  {
    if Tree(a, index) {
      WalkOnTree(a, index);
      DoneAgree(Start(a, index), n, 2 * |PostOrder(a, index)|);
    }
  }

  /** The number of entries of `visited` still false. */
  function Unvisited(visited: seq<bool>): (n: nat)
    ensures n <= |visited|
  {
    if visited == [] then 0
    else Unvisited(visited[..|visited| - 1]) + (if visited[|visited| - 1] then 0 else 1)
  }

  /** Marking an unvisited entry leaves one fewer. */
  lemma {:induction false} MarkVisited(visited: seq<bool>, i: nat)
    requires i < |visited| && !visited[i]
    ensures Unvisited(visited[i := true]) == Unvisited(visited) - 1
    decreases |visited|
  {
    var last := |visited| - 1;
    if i == last {
      assert visited[i := true][..last] == visited[..last];
    } else {
      assert visited[i := true][..last] == visited[..last][i := true];
      MarkVisited(visited[..last], i);
    }
  }

  /** The child of `i` whose read runs past the arena. */
  function OutOfArenaChild(a: seq<Symbol>, i: nat): nat
    requires i < |a|
  {
    if a[i].left != 0 && ChildIndex(i, a[i].left) >= |a| then ChildIndex(i, a[i].left)
    else ChildIndex(i, a[i].right)
  }

  /** One turn of the source's loop on its variables (the loop runs while
      the stack is non-empty): enter or finish the node on top of the
      stack. */
  method Turn(ghost w0: Walk, ghost turns: nat, arena: seq<Symbol>, stack: seq<nat>, visited: seq<bool>, total: u16)
    returns (r: Result<(seq<Symbol>, seq<nat>, seq<bool>, u16), RescaleError>)
    requires Iter(w0, turns) == Walk(arena, stack, visited, total, false)
    requires stack != [] && |visited| == |arena|
    ensures r.Failure? ==> Iter(w0, turns + 1).failed
    ensures r.Success? ==> Iter(w0, turns + 1) == Walk(r.value.0, r.value.1, r.value.2, r.value.3, false)
    ensures stack[|stack| - 1] >= |arena| ==> r == Failure(IndexOutOfBounds(stack[|stack| - 1]))
    ensures r.Success? ==> |r.value.2| == |r.value.0| && SameShape(arena, r.value.0)
    // every turn either marks a node or pops one
    ensures r.Success? ==>
              || Unvisited(r.value.2) < Unvisited(visited)
              || (r.value.2 == visited && |r.value.1| < |stack|)
  {
    IterNext(w0, turns);
    var i := stack[|stack| - 1];
    if i >= |arena| {
      return Failure(IndexOutOfBounds(i));
    }
    if !visited[i] {
      MarkVisited(visited, i);
      var pushed := stack;
      if arena[i].right != 0 {
        pushed := pushed + [ChildIndex(i, arena[i].right)];
      }
      if arena[i].left != 0 {
        pushed := pushed + [ChildIndex(i, arena[i].left)];
      }
      return Success((arena, pushed, visited[i := true], total));
    }
    if !ChildrenInArena(arena, i) {
      return Failure(IndexOutOfBounds(OutOfArenaChild(arena, i)));
    }
    var finished := FinishNode(arena, i);
    return Success((finished.0, stack[..|stack| - 1], visited, WrappingAdd16(total, finished.1)));
  }

  /** `symbol_rescale`: halves the count of every node reachable from
      `index` and recomputes its `under`, children before parents, and
      returns the 16-bit sum of the new `under` values. On a tree this is
      exactly the reference `Rescale`; an `index` outside the arena is the
      source's out-of-bounds panic. The loop stops on any arena, tree or
      not: each node is entered at most once, and every other turn pops. */
  method SymbolRescale(symbols: seq<Symbol>, index: nat) returns (r: Result<(seq<Symbol>, u16), RescaleError>)
    ensures Tree(symbols, index) ==> r == Success(Rescale(symbols, index))
    ensures index >= |symbols| ==> r == Failure(IndexOutOfBounds(index))
    ensures r.Success? ==> SameShape(symbols, r.value.0)
  {
    ghost var w0 := Start(symbols, index);
    var arena := symbols;
    var stack: seq<nat> := [index];
    var visited := seq(|symbols|, _ => false);
    var total: u16 := 0;
    ghost var turns: nat := 0;
    while stack != []
      invariant Iter(w0, turns) == Walk(arena, stack, visited, total, false)
      invariant |visited| == |arena| && SameShape(symbols, arena)
      invariant index >= |symbols| ==> stack == [index]
      decreases Unvisited(visited), |stack|
    {
      TreeWalkNeverFails(symbols, index, turns + 1);
      var next := Turn(w0, turns, arena, stack, visited, total);
      if next.Failure? {
        return Failure(next.error);
      }
      SameShapeTransitive(symbols, arena, next.value.0);
      arena, stack, visited, total := next.value.0, next.value.1, next.value.2, next.value.3;
      turns := turns + 1;
    }
    StoppedWalk(symbols, index, turns);
    return Success((arena, total));
  }

  /** The walk on the three-node example tree: root count 8 and children
      of counts 4 and 2 end with counts 4, 2 and 1, the root's `under`
      equal to its count plus its children's, and a total of 10, the sum of
      all three `under` values. */
  method SimpleTreeWalk() returns (r: Result<(seq<Symbol>, u16), RescaleError>)
    ensures r.Success? && |r.value.0| == 3
    ensures r.value.0[0].count == 4 && r.value.0[1].count == 2 && r.value.0[2].count == 1
    ensures r.value.0[0].under == WrappingAdd16(WrappingAdd16(4, r.value.0[1].under), r.value.0[2].under)
    ensures r.value.1 == 10
  {
    RescaleSimpleTree();
    r := SymbolRescale(SimpleTree(), 0);
  }
}
