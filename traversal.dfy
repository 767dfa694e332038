/**
  The bookkeeping behind the destructive sorted-list traversal of the tree.

  Before the traversal starts, a record is taken of the tree: its nodes `N`,
  each node's original child links `L0` and `R0`, and each node's original
  subtree footprint `Sub`. While the traversal runs, a set `Cut` holds the
  nodes it has consumed; a node's link reads null exactly when the original
  link was null or its child has been consumed. Everything here is about
  that record, so none of it reads the heap.
*/
module Traversal {
  import opened TreeNode
  import opened SortedSeq

  type Links = map<BTreeNode, BTreeNode?>
  type Footprints = map<BTreeNode, set<BTreeNode>>

  /** The link to `c` as it reads once the nodes in `Cut` have been consumed. */
  function Trimmed(c: BTreeNode?, Cut: set<BTreeNode>): (t: BTreeNode?)
    ensures t == null <==> c == null || c in Cut
    ensures t != null ==> t == c
  {
    if c != null && c in Cut then null else c
  }

  /** The recorded footprint of the child `c`, or nothing for an absent child. */
  function Footprint(c: BTreeNode?, Sub: Footprints): (fp: set<BTreeNode>)
  {
    if c != null && c in Sub then Sub[c] else {}
  }

  /** The values held by the nodes `N`. */
  ghost function ValuesOf(N: set<BTreeNode>): (V: set<int>)
    ensures forall m :: m in N ==> m.value in V
  {
    set m | m in N :: m.value
  }

  /** The record covers exactly the nodes `N`. */
  ghost predicate Recorded(N: set<BTreeNode>, L0: Links, R0: Links, Sub: Footprints)
  {
    L0.Keys == N && R0.Keys == N && Sub.Keys == N
  }

  /**
    The recorded node `n` sits inside its footprint above its children's:
    its footprint is itself and its children's footprints, and each child is
    a node whose footprint lies strictly inside that of `n`.
  */
  ghost predicate Fits(n: BTreeNode, N: set<BTreeNode>, L0: Links, R0: Links, Sub: Footprints)
    requires Recorded(N, L0, R0, Sub) && n in N
  {
    (L0[n] != null ==> L0[n] in N && n !in Sub[L0[n]] && Sub[L0[n]] <= Sub[n]) &&
    (R0[n] != null ==> R0[n] in N && n !in Sub[R0[n]] && Sub[R0[n]] <= Sub[n]) &&
    Sub[n] == {n} + Footprint(L0[n], Sub) + Footprint(R0[n], Sub)
  }

  /**
    The footprints nest: the root's is all of `N` and every node fits inside
    its own above its children's.
  */
  ghost predicate Nested(root: BTreeNode, N: set<BTreeNode>, L0: Links, R0: Links, Sub: Footprints)
  {
    Recorded(N, L0, R0, Sub) && root in N && Sub[root] == N &&
    forall n {:trigger Fits(n, N, L0, R0, Sub)} :: n in N ==> Fits(n, N, L0, R0, Sub)
  }

  /** No node is the child of two links. */
  ghost predicate OneParent(N: set<BTreeNode>, L0: Links, R0: Links)
  {
    L0.Keys == N && R0.Keys == N &&
    (forall a, b :: a in N && b in N && L0[a] != null && L0[a] == L0[b] ==> a == b) &&
    (forall a, b :: a in N && b in N && R0[a] != null && R0[a] == R0[b] ==> a == b) &&
    (forall a, b :: a in N && b in N && L0[a] != null ==> L0[a] != R0[b])
  }

  /** No two nodes hold the same value. */
  ghost predicate ValuesApart(N: set<BTreeNode>)
  {
    forall a, b :: a in N && b in N && a != b ==> a.value != b.value
  }

  /** The record describes a tree rooted at `root` with distinct values. */
  ghost predicate Shaped(root: BTreeNode, N: set<BTreeNode>, L0: Links, R0: Links, Sub: Footprints)
  {
    Nested(root, N, L0, R0, Sub) && OneParent(N, L0, R0) && ValuesApart(N)
  }

  /** Both links of `n` read null. */
  ghost predicate Leaf(n: BTreeNode, L0: Links, R0: Links, Cut: set<BTreeNode>)
  {
    n in L0 && n in R0 && Trimmed(L0[n], Cut) == null && Trimmed(R0[n], Cut) == null
  }

  /** One of the links of `p` reads `c`. */
  ghost predicate Linked(p: BTreeNode, c: BTreeNode, L0: Links, R0: Links, Cut: set<BTreeNode>)
  {
    p in L0 && p in R0 && (Trimmed(L0[p], Cut) == c || Trimmed(R0[p], Cut) == c)
  }

  /**
    The consumed nodes are nodes of the tree other than the root, and each
    of them had lost both of its links when it was consumed.
  */
  ghost predicate Consumed(root: BTreeNode, N: set<BTreeNode>, L0: Links, R0: Links, Cut: set<BTreeNode>)
  {
    L0.Keys == N && R0.Keys == N && Cut <= N && root !in Cut &&
    (forall c :: c in Cut ==> Leaf(c, L0, R0, Cut))
  }

  /**
    The explicit stack of the traversal followed by `current` is a downward
    path from the root along links that still read non-null.
  */
  ghost predicate Path(root: BTreeNode, N: set<BTreeNode>, L0: Links, R0: Links, Sub: Footprints,
                       Cut: set<BTreeNode>, stack: seq<BTreeNode>, current: BTreeNode)
  {
    Recorded(N, L0, R0, Sub) && current in N &&
    (forall i :: 0 <= i < |stack| ==> stack[i] in N) &&
    (|stack| == 0 ==> current == root) &&
    (|stack| > 0 ==> stack[0] == root) &&
    (forall i, j :: 0 <= i < j < |stack| ==> Sub[stack[j]] < Sub[stack[i]]) &&
    (forall i :: 0 <= i < |stack| ==> Sub[current] < Sub[stack[i]]) &&
    (forall i :: 0 <= i < |stack| - 1 ==> Linked(stack[i], stack[i + 1], L0, R0, Cut)) &&
    (|stack| > 0 ==> Linked(stack[|stack| - 1], current, L0, R0, Cut))
  }

  /** A node of a valid subtree fits the record taken of that subtree. */
  lemma NodeFits(root: BTreeNode, n: BTreeNode, L0: Links, R0: Links, Sub: Footprints)
    requires root.Valid() && n in root.Repr
    requires L0 == map n: BTreeNode | n in root.Repr :: n.left
    requires R0 == map n: BTreeNode | n in root.Repr :: n.right
    requires Sub == map n: BTreeNode | n in root.Repr :: n.Repr
    ensures Fits(n, root.Repr, L0, R0, Sub)
  {
    ReprClosed(root);
    assert L0[n] == n.left && R0[n] == n.right && Sub[n] == n.Repr;
    if n.left != null {
      assert Sub[n.left] == n.left.Repr;
    }
    if n.right != null {
      assert Sub[n.right] == n.right.Repr;
    }
  }

  /** The record taken of a valid subtree has nesting footprints. */
  lemma SnapshotNested(root: BTreeNode, L0: Links, R0: Links, Sub: Footprints)
    requires root.Valid()
    requires L0 == map n: BTreeNode | n in root.Repr :: n.left
    requires R0 == map n: BTreeNode | n in root.Repr :: n.right
    requires Sub == map n: BTreeNode | n in root.Repr :: n.Repr
    ensures Nested(root, root.Repr, L0, R0, Sub)
  {
    assert Recorded(root.Repr, L0, R0, Sub);
    forall n | n in root.Repr
      ensures Fits(n, root.Repr, L0, R0, Sub)
    {
      NodeFits(root, n, L0, R0, Sub);
    }
  }

  /** The record taken of a valid subtree gives every node one parent at most. */
  lemma SnapshotOneParent(root: BTreeNode, L0: Links, R0: Links)
    requires root.Valid()
    requires L0 == map n: BTreeNode | n in root.Repr :: n.left
    requires R0 == map n: BTreeNode | n in root.Repr :: n.right
    ensures OneParent(root.Repr, L0, R0)
  {
    SingleLeftParent(root);
    SingleRightParent(root);
    LeftNeverRight(root);
  }

  /** The record taken of a valid subtree describes a tree. */
  lemma SnapshotShaped(root: BTreeNode, L0: Links, R0: Links, Sub: Footprints)
    requires root.Valid()
    requires L0 == map n: BTreeNode | n in root.Repr :: n.left
    requires R0 == map n: BTreeNode | n in root.Repr :: n.right
    requires Sub == map n: BTreeNode | n in root.Repr :: n.Repr
    ensures Shaped(root, root.Repr, L0, R0, Sub)
  {
    SnapshotNested(root, L0, R0, Sub);
    SnapshotOneParent(root, L0, R0);
    ValuesOfNodes(root);
  }

  /**
    A child reached through a live link is a node of the tree, not yet
    consumed, and its footprint lies strictly inside every footprint on the
    path down to it; in particular it is neither the root nor on the path.
  */
  lemma ChildBelow(root: BTreeNode, N: set<BTreeNode>, L0: Links, R0: Links, Sub: Footprints,
                   Cut: set<BTreeNode>, stack: seq<BTreeNode>, p: BTreeNode, c: BTreeNode)
    requires Nested(root, N, L0, R0, Sub) && Path(root, N, L0, R0, Sub, Cut, stack, p)
    requires Linked(p, c, L0, R0, Cut)
    ensures c in N && c !in Cut && Sub[c] < Sub[p]
    ensures forall i :: 0 <= i < |stack| ==> Sub[c] < Sub[stack[i]]
    ensures c != root && c != p && c !in stack
  {
    assert Fits(p, N, L0, R0, Sub);
  }

  /**
    Descending into a child that still has a link pushes the parent: the
    longer stack followed by the child is again a path, and the stack never
    holds more nodes than the tree.
  */
  lemma Descend(root: BTreeNode, N: set<BTreeNode>, L0: Links, R0: Links, Sub: Footprints,
                Cut: set<BTreeNode>, stack: seq<BTreeNode>, p: BTreeNode, c: BTreeNode)
    requires Nested(root, N, L0, R0, Sub) && Path(root, N, L0, R0, Sub, Cut, stack, p)
    requires Linked(p, c, L0, R0, Cut)
    ensures Path(root, N, L0, R0, Sub, Cut, stack + [p], c)
    ensures |stack| + 1 <= |N|
  {
    ChildBelow(root, N, L0, R0, Sub, Cut, stack, p, c);
    var s := stack + [p];
    assert Distinct(s) by {
      forall i, j | 0 <= i < j < |s|
        ensures s[i] != s[j]
      {
        assert Sub[s[j]] < Sub[s[i]];
      }
    }
    DistinctWithin(s, N);
  }

  /** Consuming the child `c` of `p` leaves every other live link on the path live. */
  lemma ConsumeKeepsPath(root: BTreeNode, N: set<BTreeNode>, L0: Links, R0: Links, Sub: Footprints,
                         Cut: set<BTreeNode>, stack: seq<BTreeNode>, p: BTreeNode, c: BTreeNode)
    requires Nested(root, N, L0, R0, Sub) && Path(root, N, L0, R0, Sub, Cut, stack, p)
    requires Linked(p, c, L0, R0, Cut)
    ensures Path(root, N, L0, R0, Sub, Cut + {c}, stack, p)
  {
    ChildBelow(root, N, L0, R0, Sub, Cut, stack, p, c);
    forall i | 0 <= i < |stack| - 1
      ensures Linked(stack[i], stack[i + 1], L0, R0, Cut + {c})
    {
      assert stack[i + 1] in stack;
    }
    if |stack| > 0 {
      assert Linked(stack[|stack| - 1], p, L0, R0, Cut + {c});
    }
  }

  /**
    Consuming the child `c` of `p` changes no link reading but the one from
    `p` to `c`, which then reads null.
  */
  lemma ConsumeCutsOneLink(root: BTreeNode, N: set<BTreeNode>, L0: Links, R0: Links, Sub: Footprints,
                           Cut: set<BTreeNode>, p: BTreeNode, c: BTreeNode)
    requires OneParent(N, L0, R0) && p in N && Linked(p, c, L0, R0, Cut)
    ensures forall n :: n in N && n != p ==>
              Trimmed(L0[n], Cut + {c}) == Trimmed(L0[n], Cut) && Trimmed(R0[n], Cut + {c}) == Trimmed(R0[n], Cut)
    ensures c == Trimmed(L0[p], Cut) ==> Trimmed(L0[p], Cut + {c}) == null && Trimmed(R0[p], Cut + {c}) == Trimmed(R0[p], Cut)
    ensures c == Trimmed(R0[p], Cut) ==> Trimmed(R0[p], Cut + {c}) == null && Trimmed(L0[p], Cut + {c}) == Trimmed(L0[p], Cut)
  {
  }

  /**
    Consuming a child `c` of `p` that has lost its own links keeps the path
    and the consumed set well formed, and changes no link reading except
    the one from `p` to `c`.
  */
  lemma Consume(root: BTreeNode, N: set<BTreeNode>, L0: Links, R0: Links, Sub: Footprints,
                Cut: set<BTreeNode>, stack: seq<BTreeNode>, p: BTreeNode, c: BTreeNode)
    requires Shaped(root, N, L0, R0, Sub) && Consumed(root, N, L0, R0, Cut)
    requires Path(root, N, L0, R0, Sub, Cut, stack, p)
    requires Linked(p, c, L0, R0, Cut) && Leaf(c, L0, R0, Cut)
    ensures c in N && c !in Cut
    ensures Consumed(root, N, L0, R0, Cut + {c})
    ensures Path(root, N, L0, R0, Sub, Cut + {c}, stack, p)
    ensures forall n :: n in N && n != p ==>
              Trimmed(L0[n], Cut + {c}) == Trimmed(L0[n], Cut) && Trimmed(R0[n], Cut + {c}) == Trimmed(R0[n], Cut)
    ensures c == Trimmed(L0[p], Cut) ==> Trimmed(L0[p], Cut + {c}) == null && Trimmed(R0[p], Cut + {c}) == Trimmed(R0[p], Cut)
    ensures c == Trimmed(R0[p], Cut) ==> Trimmed(R0[p], Cut + {c}) == null && Trimmed(L0[p], Cut + {c}) == Trimmed(L0[p], Cut)
  {
    ChildBelow(root, N, L0, R0, Sub, Cut, stack, p, c);
    ConsumeKeepsPath(root, N, L0, R0, Sub, Cut, stack, p, c);
    ConsumeCutsOneLink(root, N, L0, R0, Sub, Cut, p, c);
    forall m | m in Cut + {c}
      ensures Leaf(m, L0, R0, Cut + {c})
    {
      if m != c {
        assert Leaf(m, L0, R0, Cut);
      }
    }
  }

  /**
    Leaving a node that has lost both of its links pops its parent, which
    still has a link (the one to the node left) and so is not a leaf.
  */
  lemma Ascend(root: BTreeNode, N: set<BTreeNode>, L0: Links, R0: Links, Sub: Footprints,
               Cut: set<BTreeNode>, stack: seq<BTreeNode>, current: BTreeNode)
    requires Path(root, N, L0, R0, Sub, Cut, stack, current) && |stack| > 0
    ensures Path(root, N, L0, R0, Sub, Cut, stack[..|stack| - 1], stack[|stack| - 1])
    ensures !Leaf(stack[|stack| - 1], L0, R0, Cut)
  {
  }

  /**
    Once a node has no links left, every node of its original subtree but
    itself has been consumed: a link is only cut after its child has lost
    its own links.
  */
  lemma {:induction false} ConsumedBelow(root: BTreeNode, N: set<BTreeNode>, L0: Links, R0: Links,
                                         Sub: Footprints, Cut: set<BTreeNode>, m: BTreeNode)
    requires Nested(root, N, L0, R0, Sub) && Consumed(root, N, L0, R0, Cut)
    requires m in N && Leaf(m, L0, R0, Cut)
    ensures Sub[m] - {m} <= Cut
    decreases Sub[m]
  {
    assert Fits(m, N, L0, R0, Sub);
    if L0[m] != null {
      ConsumedBelow(root, N, L0, R0, Sub, Cut, L0[m]);
    }
    if R0[m] != null {
      ConsumedBelow(root, N, L0, R0, Sub, Cut, R0[m]);
    }
  }

  /**
    The values emitted for the nodes other than the root, followed by the
    root's value, hold every node's value exactly once.
  */
  lemma EmittedOnce(root: BTreeNode, N: set<BTreeNode>, order: seq<BTreeNode>, emitted: seq<int>)
    requires root in N && ValuesApart(N)
    requires |emitted| == |order| && forall i :: 0 <= i < |order| ==> emitted[i] == order[i].value
    requires Distinct(order)
    requires forall c :: c in order <==> c in N && c != root
    ensures Distinct(emitted + [root.value])
    ensures forall x :: x in emitted + [root.value] <==> x in ValuesOf(N)
  {
  }

  /**
    The state of the sorted-list traversal: the record describes a tree, the
    links read as the record trimmed by the consumed nodes, the stack and the
    current node form a live path from the root (or, once the traversal has
    ended, the root has no links left), and the emitted values are those of
    the consumed nodes, each once, in the order they were consumed.
  */
  ghost predicate Walk(root: BTreeNode, N: set<BTreeNode>, L0: Links, R0: Links, Sub: Footprints, Cut: set<BTreeNode>,
                       stack: seq<BTreeNode>, current: BTreeNode?, toReturn: seq<int>, order: seq<BTreeNode>)
    reads N
  {
    Shaped(root, N, L0, R0, Sub) && Consumed(root, N, L0, R0, Cut) && Mirrors(N, L0, R0, Cut) &&
    (current != null ==> Path(root, N, L0, R0, Sub, Cut, stack, current)) &&
    (current == null ==> Leaf(root, L0, R0, Cut)) &&
    Emitted(toReturn, order, Cut) && |stack| <= |N|
  }

  /** Every link of the tree reads as the record trimmed by the consumed nodes. */
  ghost predicate Mirrors(N: set<BTreeNode>, L0: Links, R0: Links, Cut: set<BTreeNode>)
    reads N
  {
    L0.Keys == N && R0.Keys == N &&
    forall n {:trigger Trimmed(L0[n], Cut)} :: n in N ==> n.left == Trimmed(L0[n], Cut) && n.right == Trimmed(R0[n], Cut)
  }

  /** The values emitted are those of the consumed nodes, each once, in consumption order. */
  ghost predicate Emitted(toReturn: seq<int>, order: seq<BTreeNode>, Cut: set<BTreeNode>)
  {
    |toReturn| == |order| && (forall i :: 0 <= i < |order| ==> toReturn[i] == order[i].value) &&
    Distinct(order) && (forall i :: 0 <= i < |order| ==> order[i] in Cut) && (forall c :: c in Cut ==> c in order)
  }

  /** Emitting a node not consumed before keeps the emission record. */
  lemma EmitOne(toReturn: seq<int>, order: seq<BTreeNode>, Cut: set<BTreeNode>, c: BTreeNode)
    requires Emitted(toReturn, order, Cut) && c !in Cut
    ensures Emitted(toReturn + [c.value], order + [c], Cut + {c})
  {
  }

  /**
    How far the traversal is from consuming its next node: every push
    brings it closer, and so does leaving a node that has no links left.
  */
  ghost function Rank(N: set<BTreeNode>, L0: Links, R0: Links, Cut: set<BTreeNode>,
                stack: seq<BTreeNode>, current: BTreeNode?): (r: int)
  {
    |N| - |stack| + (if current != null && Leaf(current, L0, R0, Cut) then 2 else 0)
  }
}
