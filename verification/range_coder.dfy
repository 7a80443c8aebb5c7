/** The range coder's symbol arena: symbols and contexts live in one
    index-addressed sequence and refer to their children by offsets relative
    to their own index (0 meaning "no child").

    `Rescale` is the reference definition of `symbol_rescale` on a subtree:
    left subtree, right subtree, then the node itself, each node halving its
    count and recomputing `under` from its children. The explicit-stack walk
    of the source is shown to agree with it in module `Rescale`. */
module RangeCoder {
  import opened Fixed

  // ---------------------------------------------------------------------
  // Constants (src/range_coder.rs:17-28)
  // ---------------------------------------------------------------------

  const RANGE_CODER_TOP: u32 := 0x100_0000
  const RANGE_CODER_BOTTOM: u32 := 0x1_0000

  const CONTEXT_SYMBOL_DELTA: u32 := 3
  const CONTEXT_SYMBOL_MINIMUM: u32 := 1
  const CONTEXT_ESCAPE_MINIMUM: u32 := 1

  const SUBCONTEXT_ORDER: u32 := 2
  const SUBCONTEXT_SYMBOL_DELTA: u32 := 2
  const SUBCONTEXT_ESCAPE_DELTA: u32 := 5

  // ---------------------------------------------------------------------
  // Symbols and the arena (src/range_coder.rs:1-39)
  // ---------------------------------------------------------------------

  datatype Symbol = Symbol(
    value: u8,
    count: u8,
    /** Count of this node plus the `under` of both children. */
    under: u16,
    /** Offset of the left child from this node's index; 0 for none. */
    left: u16,
    /** Offset of the right child from this node's index; 0 for none. */
    right: u16,
    symbols: u16,
    escapes: u16,
    total: u16,
    parent: u16)

  datatype RangeCoder = RangeCoder(symbols: seq<Symbol>)

  /** `RangeCoder::create`: an empty arena (the reserved capacity is not
      observable). */
  function Create(): (c: RangeCoder)
    ensures |c.symbols| == 0
  {
    RangeCoder([])
  }

  /** `create_symbol`: appends a leaf carrying `value` and `count` and
      returns its index, the previous length. */
  function CreateSymbol(c: RangeCoder, value: u8, count: u8): (r: (RangeCoder, nat))
    ensures |r.0.symbols| == |c.symbols| + 1
    ensures r.0.symbols[..|c.symbols|] == c.symbols
    ensures r.1 == |c.symbols| && r.1 < |r.0.symbols|
    ensures var s := r.0.symbols[r.1];
            && s.value == value && s.count == count && s.under as int == count as int
            && s.left == 0 && s.right == 0
            && s.symbols == 0 && s.escapes == 0 && s.total == 0 && s.parent == 0
  {
    var symbol := Symbol(value, count, count as u16, 0, 0, 0, 0, 0, 0);
    (RangeCoder(c.symbols + [symbol]), |c.symbols|)
  }

  /** `create_context`: appends a node with no value and no count whose
      `total` starts at `escapes + 256 * minimum`. As in the source, the
      minimum is first truncated to 16 bits and the product and the sum wrap
      at 2^16. */
  function CreateContext(c: RangeCoder, escapes: u16, minimum: u32): (r: (RangeCoder, nat))
    ensures |r.0.symbols| == |c.symbols| + 1
    ensures r.0.symbols[..|c.symbols|] == c.symbols
    ensures r.1 == |c.symbols| && r.1 < |r.0.symbols|
    ensures r.0.symbols[r.1].escapes == escapes && r.0.symbols[r.1].symbols == 0
    ensures r.0.symbols[r.1].count == 0 && r.0.symbols[r.1].under == 0
    ensures r.0.symbols[r.1].left == 0 && r.0.symbols[r.1].right == 0
    ensures r.0.symbols[r.1].total == ContextTotal(escapes, minimum)
    ensures r.0.symbols[r.1].value == 0 && r.0.symbols[r.1].parent == 0
  {
    var (c1, index) := CreateSymbol(c, 0, 0);
    var context := c1.symbols[index].(escapes := escapes, total := ContextTotal(escapes, minimum), symbols := 0);
    (RangeCoder(c1.symbols[index := context]), index)
  }

  /** The initial total of a context, `escapes + (minimum as u16) * 256`
      in 16-bit arithmetic. */
  function ContextTotal(escapes: u16, minimum: u32): (t: u16)
    // without overflow the total is exactly escapes + 256 * minimum ...
    ensures escapes as int + 256 * minimum as int < U16_MODULUS ==>
              t as int == escapes as int + 256 * minimum as int
    // ... and in every case it exceeds the escapes by a multiple of 256
    // modulo 2^16, the minimum counting only through its low 8 bits
    ensures (t as int - escapes as int - 256 * (minimum as int % 256)) % U16_MODULUS == 0
  {
    var scaled := ((256 * (minimum as int % U16_MODULUS)) % U16_MODULUS) as u16;
    ScaledLowByte(minimum);
    WrappingAdd16(escapes, scaled)
  }

  /** Multiplying the low 16 bits by 256 in 16 bits keeps only the low
      8 bits' contribution. */
  lemma ScaledLowByte(minimum: u32)
    ensures (256 * (minimum as int % U16_MODULUS)) % U16_MODULUS == 256 * (minimum as int % 256)
  {
    var m := minimum as int % U16_MODULUS;
    var q := m / 256;
    assert m == 256 * q + m % 256;
    assert m % 256 == minimum as int % 256;
    assert 256 * m == U16_MODULUS * q + 256 * (m % 256);
  }

  /** `minimum as u16` followed by 16-bit arithmetic: a minimum of 256
      adds nothing (256 * 256 wraps to 0), and bits of the minimum above
      bit 15 are dropped. */
  lemma ContextTotalWraps(c: RangeCoder)
    ensures var (c1, i) := CreateContext(c, 10, 256); c1.symbols[i].total == 10
    ensures var (c1, i) := CreateContext(c, 10, 0x1_0001); c1.symbols[i].total == 266
    ensures var (c1, i) := CreateContext(c, 0xFFFF, 1); c1.symbols[i].total == 0xFF
  {
  }

  /** The allocation examples: a symbol (42, 5) is a leaf whose `under` is
      its count, and a context with ten escapes and the default symbol
      minimum starts at a total of 266. */
  lemma CreateExamples()
    ensures var (c, i) := CreateSymbol(Create(), 42, 5);
            i == 0 && c.symbols[0].count == 5 && c.symbols[0].under == 5 && c.symbols[0].left == 0
    ensures var (c, i) := CreateContext(Create(), 10, CONTEXT_SYMBOL_MINIMUM);
            i == 0 && c.symbols[0].escapes == 10 && c.symbols[0].total == 266
  {
  }

  // ---------------------------------------------------------------------
  // Subtrees of the arena
  // ---------------------------------------------------------------------

  /** Index of the child at a non-zero offset. Offsets are unsigned, so a
      child always lies after its parent. */
  function ChildIndex(i: nat, offset: u16): (k: nat)
    ensures offset != 0 ==> k > i
  {
    i + offset as int
  }

  /** Every node reachable from `i` lies inside the arena. */
  predicate InArena(a: seq<Symbol>, i: nat)
    decreases |a| - i
  {
    && i < |a|
    && (a[i].left != 0 ==> InArena(a, ChildIndex(i, a[i].left)))
    && (a[i].right != 0 ==> InArena(a, ChildIndex(i, a[i].right)))
  }

  /** The nodes reachable from `i` in post-order: left subtree, right
      subtree, then `i`. */
  function PostOrder(a: seq<Symbol>, i: nat): (ks: seq<nat>)
    requires InArena(a, i)
    decreases |a| - i
  {
    (if a[i].left != 0 then PostOrder(a, ChildIndex(i, a[i].left)) else [])
    + (if a[i].right != 0 then PostOrder(a, ChildIndex(i, a[i].right)) else [])
    + [i]
  }

  function Nodes(a: seq<Symbol>, i: nat): set<nat>
    requires InArena(a, i)
  {
    set k | k in PostOrder(a, i)
  }

  /** Every node of a subtree lies in the arena at or after its root. */
  lemma {:induction false} NodesBounds(a: seq<Symbol>, i: nat)
    requires InArena(a, i)
    ensures forall k :: k in PostOrder(a, i) ==> i <= k < |a|
    decreases |a| - i
  {
    if a[i].left != 0 { NodesBounds(a, ChildIndex(i, a[i].left)); }
    if a[i].right != 0 { NodesBounds(a, ChildIndex(i, a[i].right)); }
  }

  /** The subtree at `i` is a tree: the two subtrees of every node share no
      node. (Offsets always point forward, so there are no cycles.) */
  predicate Tree(a: seq<Symbol>, i: nat)
    decreases |a| - i
  {
    && InArena(a, i)
    && (a[i].left != 0 ==> Tree(a, ChildIndex(i, a[i].left)))
    && (a[i].right != 0 ==> Tree(a, ChildIndex(i, a[i].right)))
    && (a[i].left != 0 && a[i].right != 0 ==>
          Nodes(a, ChildIndex(i, a[i].left)) !! Nodes(a, ChildIndex(i, a[i].right)))
  }

  /** Two arenas of the same length with the same child offsets everywhere. */
  predicate SameShape(a: seq<Symbol>, b: seq<Symbol>)
  {
    |a| == |b| && forall k :: 0 <= k < |a| ==> a[k].left == b[k].left && a[k].right == b[k].right
  }

  lemma SameShapeTransitive(a: seq<Symbol>, b: seq<Symbol>, c: seq<Symbol>)
    requires SameShape(a, b) && SameShape(b, c)
    ensures SameShape(a, c)
  {
  }

  /** Reachability and the tree property depend only on the shape. */
  lemma {:induction false} SameShapeSubtree(a: seq<Symbol>, b: seq<Symbol>, i: nat)
    requires SameShape(a, b) && InArena(a, i)
    ensures InArena(b, i) && PostOrder(b, i) == PostOrder(a, i)
    ensures a[i].left != 0 ==> PostOrder(b, ChildIndex(i, a[i].left)) == PostOrder(a, ChildIndex(i, a[i].left))
    ensures a[i].right != 0 ==> PostOrder(b, ChildIndex(i, a[i].right)) == PostOrder(a, ChildIndex(i, a[i].right))
    ensures Tree(a, i) ==> Tree(b, i)
    decreases |a| - i
  {
    if a[i].left != 0 { SameShapeSubtree(a, b, ChildIndex(i, a[i].left)); }
    if a[i].right != 0 { SameShapeSubtree(a, b, ChildIndex(i, a[i].right)); }
  }

  // ---------------------------------------------------------------------
  // Rescaling (src/range_coder.rs:68-112), reference definition
  // ---------------------------------------------------------------------

  /** `count -= count >> 1`: a count halved, rounding up. */
  function Halve(count: u8): (h: u8)
    ensures 2 * h as int == count as int || 2 * h as int == count as int + 1
    ensures h <= count
    ensures count >= 1 ==> h >= 1
    ensures count >= 2 ==> h < count
  {
    count - count / 2
  }

  /** The work done when node `i` is popped: halve its count and set its
      `under` to the new count plus its children's current `under`. Returns
      the updated arena and the new `under`, which the walk adds to its
      total. */
  function FinishNode(a: seq<Symbol>, i: nat): (r: (seq<Symbol>, u16))
    requires i < |a|
    requires a[i].left != 0 ==> ChildIndex(i, a[i].left) < |a|
    requires a[i].right != 0 ==> ChildIndex(i, a[i].right) < |a|
    ensures |r.0| == |a| && r.0[i].under == r.1
    ensures r.0 == a[i := a[i].(count := Halve(a[i].count), under := r.1)]
    ensures SameShape(a, r.0)
    // the finished node sums its new count and its children's `under`
    ensures UnderSums(r.0, i)
  {
    var symbol := a[i];
    var leftUnder := if symbol.left != 0 then a[ChildIndex(i, symbol.left)].under else 0;
    var rightUnder := if symbol.right != 0 then a[ChildIndex(i, symbol.right)].under else 0;
    var count := Halve(symbol.count);
    var under := WrappingAdd16(WrappingAdd16(count as u16, leftUnder), rightUnder);
    (a[i := symbol.(count := count, under := under)], under)
  }

  /** The arena after `symbol_rescale` on the subtree at `i`, defined
      recursively in the order the source's stack visits it: left subtree,
      right subtree, then the node itself. */
  function RescaleArena(a: seq<Symbol>, i: nat): (b: seq<Symbol>)
    requires InArena(a, i)
    ensures SameShape(a, b)
    decreases |a| - i
  {
    var a1 := if a[i].left != 0 then RescaleArena(a, ChildIndex(i, a[i].left)) else a;
    SameShapeSubtree(a, a1, i);
    var a2 := if a[i].right != 0 then RescaleArena(a1, ChildIndex(i, a[i].right)) else a1;
    SameShapeSubtree(a1, a2, i);
    SameShapeTransitive(a, a1, a2);
    var b := FinishNode(a2, i).0;
    SameShapeTransitive(a, a2, b);
    b
  }

  /** The arena after the left subtree of `i` has been rescaled. */
  function AfterLeft(a: seq<Symbol>, i: nat): (b: seq<Symbol>)
    requires InArena(a, i)
    ensures SameShape(a, b) && InArena(b, i)
  {
    var b := if a[i].left != 0 then RescaleArena(a, ChildIndex(i, a[i].left)) else a;
    SameShapeSubtree(a, b, i);
    b
  }

  /** The arena after both subtrees of `i` have been rescaled. */
  function AfterRight(a: seq<Symbol>, i: nat): (b: seq<Symbol>)
    requires InArena(a, i)
    ensures SameShape(a, b) && InArena(b, i)
    ensures b[i].left != 0 ==> ChildIndex(i, b[i].left) < |b|
    ensures b[i].right != 0 ==> ChildIndex(i, b[i].right) < |b|
  {
    var a1 := AfterLeft(a, i);
    var b := if a[i].right != 0 then RescaleArena(a1, ChildIndex(i, a[i].right)) else a1;
    SameShapeSubtree(a1, b, i);
    b
  }

  /** The value `symbol_rescale` returns for the subtree at `i`: the sum,
      in 16 bits, of the `under` values it computes, in visiting order. */
  function RescaleTotal(a: seq<Symbol>, i: nat): (t: u16)
    requires InArena(a, i)
    decreases |a| - i
  {
    var left := if a[i].left != 0 then RescaleTotal(a, ChildIndex(i, a[i].left)) else 0;
    var right := if a[i].right != 0 then RescaleTotal(AfterLeft(a, i), ChildIndex(i, a[i].right)) else 0;
    WrappingAdd16(WrappingAdd16(left, right), FinishNode(AfterRight(a, i), i).1)
  }

  /** `symbol_rescale` on the subtree at `i`: the new arena and the
      returned total. */
  function Rescale(a: seq<Symbol>, i: nat): (r: (seq<Symbol>, u16))
    requires InArena(a, i)
    ensures SameShape(a, r.0)
  {
    (RescaleArena(a, i), RescaleTotal(a, i))
  }

  /** Unfolding `RescaleArena` once. */
  lemma RescaleUnfold(a: seq<Symbol>, i: nat)
    requires InArena(a, i)
    ensures RescaleArena(a, i) == FinishNode(AfterRight(a, i), i).0
  {
  }

  /** `b` differs from `a` at most in counts and `under` values. */
  predicate OnlyCountsChange(a: seq<Symbol>, b: seq<Symbol>)
  {
    |a| == |b| && forall k :: 0 <= k < |a| ==> b[k] == a[k].(count := b[k].count, under := b[k].under)
  }

  /** `a` and `b` hold the same symbol at every index in `ks`. */
  predicate AgreeOn(a: seq<Symbol>, b: seq<Symbol>, ks: seq<nat>)
  {
    forall k :: k in ks ==> k < |a| && k < |b| && a[k] == b[k]
  }

  /** The children of every node of a subtree belong to the subtree. */
  lemma {:induction false} SubtreeClosed(a: seq<Symbol>, j: nat, k: nat)
    requires InArena(a, j) && k in PostOrder(a, j)
    ensures k < |a|
    ensures a[k].left != 0 ==> ChildIndex(k, a[k].left) in PostOrder(a, j)
    ensures a[k].right != 0 ==> ChildIndex(k, a[k].right) in PostOrder(a, j)
    decreases |a| - j
  {
    if k == j {
    } else if a[j].left != 0 && k in PostOrder(a, ChildIndex(j, a[j].left)) {
      SubtreeClosed(a, ChildIndex(j, a[j].left), k);
    } else {
      assert a[j].right != 0 && k in PostOrder(a, ChildIndex(j, a[j].right));
      SubtreeClosed(a, ChildIndex(j, a[j].right), k);
    }
  }

  /** Rescaling a subtree changes nothing outside it, and inside it only
      counts and `under` values. */
  lemma {:induction false} RescaleFrame(a: seq<Symbol>, i: nat)
    requires InArena(a, i)
    ensures forall k :: 0 <= k < |a| && k !in PostOrder(a, i) ==> RescaleArena(a, i)[k] == a[k]
    ensures OnlyCountsChange(a, RescaleArena(a, i))
    decreases |a| - i
  {
    RescaleUnfold(a, i);
    var a1 := AfterLeft(a, i);
    var a2 := AfterRight(a, i);
    var b := RescaleArena(a, i);
    if a[i].left != 0 {
      RescaleFrame(a, ChildIndex(i, a[i].left));
    }
    SameShapeSubtree(a, a1, i);
    if a[i].right != 0 {
      RescaleFrame(a1, ChildIndex(i, a[i].right));
    }
    forall k | 0 <= k < |a| && k !in PostOrder(a, i)
      ensures b[k] == a[k]
    {
      assert a1[k] == a[k];
      assert a2[k] == a1[k];
    }
  }

  /** The root is untouched until both of its subtrees are done. */
  lemma RootPart(a: seq<Symbol>, i: nat)
    requires InArena(a, i)
    ensures AfterRight(a, i)[i] == a[i]
  {
    var a1 := AfterLeft(a, i);
    var l, r := ChildIndex(i, a[i].left), ChildIndex(i, a[i].right);
    if a[i].left != 0 { NodesBounds(a, l); RescaleFrame(a, l); }
    if a[i].right != 0 { SameShapeSubtree(a, a1, i); NodesBounds(a1, r); RescaleFrame(a1, r); }
  }

  /** In a tree, a node of the left subtree ends as the left pass left it. */
  lemma LeftPart(a: seq<Symbol>, i: nat, k: nat)
    requires Tree(a, i) && a[i].left != 0 && k in PostOrder(a, ChildIndex(i, a[i].left))
    ensures k < |a| && RescaleArena(a, i)[k] == AfterLeft(a, i)[k]
    ensures AfterRight(a, i)[k] == AfterLeft(a, i)[k]
  {
    var a1 := AfterLeft(a, i);
    var l, r := ChildIndex(i, a[i].left), ChildIndex(i, a[i].right);
    NodesBounds(a, l);
    assert i < k;
    RescaleUnfold(a, i);
    if a[i].right != 0 {
      assert k in Nodes(a, l);
      assert k !in Nodes(a, r);
      SameShapeSubtree(a, a1, i);
      RescaleFrame(a1, r);
    }
  }

  /** In a tree, a node of the right subtree is untouched by the left pass
      and ends as the right pass left it. */
  lemma RightPart(a: seq<Symbol>, i: nat, k: nat)
    requires Tree(a, i) && a[i].right != 0 && k in PostOrder(a, ChildIndex(i, a[i].right))
    ensures k < |a| && AfterLeft(a, i)[k] == a[k]
    ensures RescaleArena(a, i)[k] == AfterRight(a, i)[k]
  {
    var l, r := ChildIndex(i, a[i].left), ChildIndex(i, a[i].right);
    NodesBounds(a, r);
    assert i < k;
    if a[i].left != 0 {
      assert Tree(a, i);
      assert k in Nodes(a, r);
      assert k !in Nodes(a, l);
      RescaleFrame(a, l);
    }
    RescaleUnfold(a, i);
  }

  /** One node of a tree gets its count halved (rounding up). */
  lemma {:induction false} CountAt(a: seq<Symbol>, i: nat, k: nat)
    requires Tree(a, i) && k in PostOrder(a, i)
    ensures k < |a| && RescaleArena(a, i)[k].count == Halve(a[k].count)
    decreases |a| - i
  {
    NodesBounds(a, i);
    var l, r := ChildIndex(i, a[i].left), ChildIndex(i, a[i].right);
    if k == i {
      RescaleUnfold(a, i);
      RootPart(a, i);
    } else if a[i].left != 0 && k in PostOrder(a, l) {
      LeftPart(a, i, k);
      CountAt(a, l, k);
    } else {
      var a1 := AfterLeft(a, i);
      RightPart(a, i, k);
      SameShapeSubtree(a, a1, i);
      SameShapeSubtree(a, a1, r);
      CountAt(a1, r, k);
    }
  }

  /** Every node of a tree gets its count halved (rounding up). */
  lemma RescaleCounts(a: seq<Symbol>, i: nat)
    requires Tree(a, i)
    ensures forall k :: k in PostOrder(a, i) ==> k < |a| && RescaleArena(a, i)[k].count == Halve(a[k].count)
  {
    forall k | k in PostOrder(a, i)
      ensures k < |a| && RescaleArena(a, i)[k].count == Halve(a[k].count)
    {
      CountAt(a, i, k);
    }
  }

  /** Node `k` of `b` holds, as its `under`, its own count plus the `under`
      of each of its children (all in 16-bit arithmetic). */
  predicate UnderSums(b: seq<Symbol>, k: nat)
  {
    && k < |b|
    && (b[k].left != 0 ==> ChildIndex(k, b[k].left) < |b|)
    && (b[k].right != 0 ==> ChildIndex(k, b[k].right) < |b|)
    && b[k].under == WrappingAdd16(WrappingAdd16(b[k].count as u16,
         if b[k].left != 0 then b[ChildIndex(k, b[k].left)].under else 0),
         if b[k].right != 0 then b[ChildIndex(k, b[k].right)].under else 0)
  }

  /** The root of a rescaled subtree sums its children's `under`. */
  lemma UnderAtRoot(a: seq<Symbol>, i: nat)
    requires InArena(a, i)
    ensures UnderSums(RescaleArena(a, i), i)
  {
    var a2 := AfterRight(a, i);
    var b := RescaleArena(a, i);
    RescaleUnfold(a, i);
    assert b == a2[i := a2[i].(count := Halve(a2[i].count), under := b[i].under)];
    if a2[i].left != 0 { assert b[ChildIndex(i, a2[i].left)] == a2[ChildIndex(i, a2[i].left)]; }
    if a2[i].right != 0 { assert b[ChildIndex(i, a2[i].right)] == a2[ChildIndex(i, a2[i].right)]; }
  }

  /** `UnderSums` at `k` carries over to an arena that agrees with `c` at
      `k` and at its children. */
  lemma UnderSumsTransfer(c: seq<Symbol>, b: seq<Symbol>, k: nat)
    requires UnderSums(c, k) && |b| == |c| && b[k] == c[k]
    requires c[k].left != 0 ==> b[ChildIndex(k, c[k].left)] == c[ChildIndex(k, c[k].left)]
    requires c[k].right != 0 ==> b[ChildIndex(k, c[k].right)] == c[ChildIndex(k, c[k].right)]
    ensures UnderSums(b, k)
  {
  }

  /** After rescaling a tree, one node's `under` sums its new count and its
      children's new `under`: children are finished before their parent. */
  lemma {:induction false} UnderAt(a: seq<Symbol>, i: nat, k: nat)
    requires Tree(a, i) && k in PostOrder(a, i)
    ensures UnderSums(RescaleArena(a, i), k)
    decreases |a| - i
  {
    var l, r := ChildIndex(i, a[i].left), ChildIndex(i, a[i].right);
    if k == i {
      UnderAtRoot(a, i);
    } else if a[i].left != 0 && k in PostOrder(a, l) {
      UnderAt(a, l, k);
      UnderInLeft(a, i, k);
    } else {
      var a1 := AfterLeft(a, i);
      SameShapeSubtree(a, a1, i);
      SameShapeSubtree(a, a1, r);
      UnderAt(a1, r, k);
      UnderInRight(a, i, k);
    }
  }

  lemma UnderInLeft(a: seq<Symbol>, i: nat, k: nat)
    requires Tree(a, i) && a[i].left != 0 && k in PostOrder(a, ChildIndex(i, a[i].left))
    requires UnderSums(AfterLeft(a, i), k)
    ensures UnderSums(RescaleArena(a, i), k)
  {
    var l := ChildIndex(i, a[i].left);
    var a1 := AfterLeft(a, i);
    SubtreeClosed(a, l, k);
    LeftPart(a, i, k);
    if a1[k].left != 0 { LeftPart(a, i, ChildIndex(k, a1[k].left)); }
    if a1[k].right != 0 { LeftPart(a, i, ChildIndex(k, a1[k].right)); }
    UnderSumsTransfer(a1, RescaleArena(a, i), k);
  }

  lemma UnderInRight(a: seq<Symbol>, i: nat, k: nat)
    requires Tree(a, i) && a[i].right != 0 && k in PostOrder(a, ChildIndex(i, a[i].right))
    requires UnderSums(AfterRight(a, i), k)
    ensures UnderSums(RescaleArena(a, i), k)
  {
    var r := ChildIndex(i, a[i].right);
    var a2 := AfterRight(a, i);
    SubtreeClosed(a, r, k);
    RightPart(a, i, k);
    if a2[k].left != 0 { RightPart(a, i, ChildIndex(k, a2[k].left)); }
    if a2[k].right != 0 { RightPart(a, i, ChildIndex(k, a2[k].right)); }
    UnderSumsTransfer(a2, RescaleArena(a, i), k);
  }

  /** Every node of a rescaled tree satisfies `UnderSums`. */
  lemma RescaleUnder(a: seq<Symbol>, i: nat)
    requires Tree(a, i)
    ensures forall k :: k in PostOrder(a, i) ==> UnderSums(RescaleArena(a, i), k)
  {
    forall k | k in PostOrder(a, i)
      ensures UnderSums(RescaleArena(a, i), k)
    {
      UnderAt(a, i, k);
    }
  }

  /** Every index in `ks` is below `n`. */
  predicate Within(ks: seq<nat>, n: nat)
  {
    forall j :: 0 <= j < |ks| ==> ks[j] < n
  }

  /** The 16-bit sum of the `under` values at the indices `ks`, added in
      order. */
  function SumUnder(b: seq<Symbol>, ks: seq<nat>): u16
    requires Within(ks, |b|)
  {
    if ks == [] then 0 else WrappingAdd16(SumUnder(b, ks[..|ks| - 1]), b[ks[|ks| - 1]].under)
  }

  lemma {:induction false} SumUnderConcat(b: seq<Symbol>, xs: seq<nat>, ys: seq<nat>)
    requires Within(xs, |b|) && Within(ys, |b|)
    ensures Within(xs + ys, |b|)
    ensures SumUnder(b, xs + ys) == WrappingAdd16(SumUnder(b, xs), SumUnder(b, ys))
    decreases |ys|
  {
    if ys == [] {
      assert xs + ys == xs;
    } else {
      assert (xs + ys)[..|xs + ys| - 1] == xs + ys[..|ys| - 1];
      SumUnderConcat(b, xs, ys[..|ys| - 1]);
      WrappingAdd16Assoc(SumUnder(b, xs), SumUnder(b, ys[..|ys| - 1]), b[ys[|ys| - 1]].under);
    }
  }

  /** Sums over indices where two arenas hold the same `under` agree. */
  lemma {:induction false} SumUnderAgree(b: seq<Symbol>, c: seq<Symbol>, ks: seq<nat>)
    requires Within(ks, |b|) && Within(ks, |c|)
    requires forall j :: 0 <= j < |ks| ==> b[ks[j]].under == c[ks[j]].under
    ensures SumUnder(b, ks) == SumUnder(c, ks)
    decreases |ks|
  {
    if ks != [] {
      SumUnderAgree(b, c, ks[..|ks| - 1]);
    }
  }

  /** The nodes of a subtree, as a sequence, lie inside the arena. */
  lemma PostOrderWithin(a: seq<Symbol>, i: nat)
    requires InArena(a, i)
    ensures Within(PostOrder(a, i), |a|)
  {
    NodesBounds(a, i);
    var ks := PostOrder(a, i);
    forall j | 0 <= j < |ks|
      ensures ks[j] < |a|
    {
      assert ks[j] in ks;
    }
  }

  /** The value returned for a tree is the 16-bit sum of the new `under`
      of every node of the subtree. */
  lemma {:induction false} TotalIsSumOfUnder(a: seq<Symbol>, i: nat)
    requires Tree(a, i)
    ensures Within(PostOrder(a, i), |a|)
    ensures RescaleTotal(a, i) == SumUnder(RescaleArena(a, i), PostOrder(a, i))
    decreases |a| - i
  {
    PostOrderWithin(a, i);
    var b := RescaleArena(a, i);
    var a1, a2 := AfterLeft(a, i), AfterRight(a, i);
    var l, r := ChildIndex(i, a[i].left), ChildIndex(i, a[i].right);
    var pl := if a[i].left != 0 then PostOrder(a, l) else [];
    var pr := if a[i].right != 0 then PostOrder(a, r) else [];
    var po := PostOrder(a, i);
    assert po == pl + pr + [i];
    assert po[..|po| - 1] == pl + pr;
    if a[i].left != 0 {
      LeftSum(a, i);
      TotalIsSumOfUnder(a, l);
    }
    if a[i].right != 0 {
      RightSum(a, i);
      SameShapeSubtree(a, a1, i);
      SameShapeSubtree(a, a1, r);
      TotalIsSumOfUnder(a1, r);
    }
    SumUnderConcat(b, pl, pr);
    RescaleUnfold(a, i);
  }

  lemma LeftSum(a: seq<Symbol>, i: nat)
    requires Tree(a, i) && a[i].left != 0
    ensures Within(PostOrder(a, ChildIndex(i, a[i].left)), |a|)
    ensures var pl := PostOrder(a, ChildIndex(i, a[i].left));
            SumUnder(RescaleArena(a, i), pl) == SumUnder(AfterLeft(a, i), pl)
  {
    var pl := PostOrder(a, ChildIndex(i, a[i].left));
    PostOrderWithin(a, ChildIndex(i, a[i].left));
    forall j | 0 <= j < |pl|
      ensures RescaleArena(a, i)[pl[j]].under == AfterLeft(a, i)[pl[j]].under
    {
      LeftPart(a, i, pl[j]);
    }
    SumUnderAgree(RescaleArena(a, i), AfterLeft(a, i), pl);
  }

  lemma RightSum(a: seq<Symbol>, i: nat)
    requires Tree(a, i) && a[i].right != 0
    ensures Within(PostOrder(a, ChildIndex(i, a[i].right)), |a|)
    ensures var pr := PostOrder(a, ChildIndex(i, a[i].right));
            SumUnder(RescaleArena(a, i), pr) == SumUnder(AfterRight(a, i), pr)
  {
    var pr := PostOrder(a, ChildIndex(i, a[i].right));
    PostOrderWithin(a, ChildIndex(i, a[i].right));
    forall j | 0 <= j < |pr|
      ensures RescaleArena(a, i)[pr[j]].under == AfterRight(a, i)[pr[j]].under
    {
      RightPart(a, i, pr[j]);
    }
    SumUnderAgree(RescaleArena(a, i), AfterRight(a, i), pr);
  }

  // ---------------------------------------------------------------------
  // Example
  // ---------------------------------------------------------------------

  /** A root of count 8 with a left child of count 4 and a right child of
      count 2, built as the source's own rescale example builds it. */
  function SimpleTree(): (a: seq<Symbol>)
    ensures |a| == 3 && a[0].left == 1 && a[0].right == 2
  {
    var (c0, root) := CreateSymbol(Create(), 0, 8);
    var (c1, left) := CreateSymbol(c0, 1, 4);
    var (c2, right) := CreateSymbol(c1, 2, 2);
    c2.symbols[root := c2.symbols[root].(left := (left - root) as u16, right := (right - root) as u16)]
  }

  /** Rescaling it halves the counts to 4, 2 and 1, gives each node the
      sum of its count and its children's `under`, and returns the sum of
      all three `under` values. */
  lemma RescaleSimpleTree()
    ensures Tree(SimpleTree(), 0)
    ensures var (b, total) := Rescale(SimpleTree(), 0);
            && b[0].count == 4 && b[1].count == 2 && b[2].count == 1
            && b[1].under == 2 && b[2].under == 1 && b[0].under == 7
            && total == 10
  {
    var a := SimpleTree();
    var leaf := Symbol(0, 0, 0, 0, 0, 0, 0, 0, 0);
    assert a == [leaf.(count := 8, under := 8, left := 1, right := 2),
                 leaf.(value := 1, count := 4, under := 4),
                 leaf.(value := 2, count := 2, under := 2)];
    assert Tree(a, 1) && Tree(a, 2);
    assert Nodes(a, 1) == {1} && Nodes(a, 2) == {2};
    var l := RescaleArena(a, 1);
    assert l == a[1 := a[1].(count := 2, under := 2)];
    assert AfterLeft(a, 0) == l;
    var r := RescaleArena(l, 2);
    assert r == l[2 := l[2].(count := 1, under := 1)];
    assert AfterRight(a, 0) == r;
    assert RescaleTotal(a, 1) == 2;
    assert RescaleTotal(l, 2) == 1;
  }
}
