/**
  A node of the binary tree: one value that never changes and two child
  links that the tree rewrites in place.

  The ordering is the one the tree's code establishes, not the one its
  comments describe: values GREATER than a node's value live in its LEFT
  subtree, SMALLER ones in its RIGHT subtree.
*/
module TreeNode {
  import opened SortedSeq

  class BTreeNode {
    /** The stored value; it is assigned once, by the constructor. */
    const value: int
    var left: BTreeNode?
    var right: BTreeNode?

    /** The nodes of the subtree rooted here (this node included). */
    ghost var Repr: set<BTreeNode>
    /** The values stored in the subtree rooted here. */
    ghost var Values: set<int>

    /**
      The subtree rooted here is a tree (no node reachable twice, no cycle),
      its ghost fields describe it, and it is ordered: everything on the left
      is greater than `value`, everything on the right smaller.
    */
    ghost predicate Valid()
      reads this, Repr
      decreases Repr
    {
      this in Repr &&
      (left != null ==>
        left in Repr && left.Repr <= Repr && this !in left.Repr && left.Valid() &&
        (forall x :: x in left.Values ==> value < x)) &&
      (right != null ==>
        right in Repr && right.Repr <= Repr && this !in right.Repr && right.Valid() &&
        (forall x :: x in right.Values ==> x < value)) &&
      (left != null && right != null ==> left.Repr !! right.Repr) &&
      Repr == {this} + (if left != null then left.Repr else {}) + (if right != null then right.Repr else {}) &&
      Values == {value} + (if left != null then left.Values else {}) + (if right != null then right.Values else {})
    }

    /** A new node holds `value` and has no children. */
    constructor (value: int)
      ensures this.value == value
      ensures left == null && right == null
      ensures Valid() && Repr == {this} && Values == {value}
    {
      this.value := value;
      left := null;
      right := null;
      Repr := {this};
      Values := {value};
    }
  }

  /**
    `c` is an absent child with nothing below it, or a valid subtree whose
    nodes are exactly `S` and whose values are exactly `SV`.
  */
  ghost predicate Subtree(c: BTreeNode?, S: set<BTreeNode>, SV: set<int>)
    reads c, if c != null then c.Repr else {}
  {
    (c != null ==> c.Valid() && c.Repr == S && c.Values == SV) &&
    (c == null ==> S == {} && SV == {})
  }

  /**
    `n` lies outside the node sets `L` and `R`, which are disjoint, and its
    value separates the value sets: all of `LV` is above it, all of `RV` below.
  */
  ghost predicate Apart(n: BTreeNode, L: set<BTreeNode>, LV: set<int>, R: set<BTreeNode>, RV: set<int>)
  {
    n !in L && n !in R && L !! R &&
    (forall x :: x in LV ==> n.value < x) && (forall x :: x in RV ==> x < n.value)
  }

  /** The children of `n` are valid, disjoint, exclude `n` and are ordered around its value. */
  ghost predicate ChildrenValid(n: BTreeNode)
    reads n, n.left, n.right, (if n.left != null then n.left.Repr else {}), (if n.right != null then n.right.Repr else {})
  {
    (n.left != null ==> n.left.Valid() && n !in n.left.Repr && (forall x :: x in n.left.Values ==> n.value < x)) &&
    (n.right != null ==> n.right.Valid() && n !in n.right.Repr && (forall x :: x in n.right.Values ==> x < n.value)) &&
    (n.left != null && n.right != null ==> n.left.Repr !! n.right.Repr)
  }

  /** Recomputes the ghost fields of `n` from its children, which makes `n` valid. */
  ghost method Recompute(n: BTreeNode)
    requires ChildrenValid(n)
    modifies n
    ensures n.Valid()
    ensures n.left == old(n.left) && n.right == old(n.right)
    ensures n.Repr == old({n} + (if n.left != null then n.left.Repr else {}) + (if n.right != null then n.right.Repr else {}))
    ensures n.Values == old({n.value} + (if n.left != null then n.left.Values else {}) + (if n.right != null then n.right.Values else {}))
  {
    n.Repr := {n} + (if n.left != null then n.left.Repr else {}) + (if n.right != null then n.right.Repr else {});
    n.Values := {n.value} + (if n.left != null then n.left.Values else {}) + (if n.right != null then n.right.Values else {});
  }

  /** Makes the ghost fields of a node without children describe it alone. */
  ghost method Isolate(n: BTreeNode)
    requires n.left == null && n.right == null
    modifies n
    ensures n.Valid() && n.left == null && n.right == null
    ensures n.Repr == {n} && n.Values == {n.value}
  {
    n.Repr := {n};
    n.Values := {n.value};
  }

  /**
    When the left subtree of `n` (nodes `L0`, values `V0`) has gained the
    nodes `added` and the value `value`, its children still fit together and
    the recomputed footprint and values are the old ones grown by the same.
  */
  lemma LeftGrown(n: BTreeNode, L0: set<BTreeNode>, V0: set<int>, R: set<BTreeNode>, RV: set<int>,
                  added: set<BTreeNode>, value: int)
    requires Subtree(n.right, R, RV) && Apart(n, L0, V0, R, RV)
    requires n.Repr == {n} + L0 + R && n.Values == {n.value} + V0 + RV
    requires n !in added && added !! R && n.value < value
    requires n.left != null && n.left.Valid() && n.left.Repr == L0 + added && n.left.Values == V0 + {value}
    ensures ChildrenValid(n)
    ensures {n} + n.left.Repr + (if n.right != null then n.right.Repr else {}) == n.Repr + added
    ensures {n.value} + n.left.Values + (if n.right != null then n.right.Values else {}) == n.Values + {value}
  {
  }

  /** The mirror image of `LeftGrown`, for a right subtree (nodes `R0`, values `V0`). */
  lemma RightGrown(n: BTreeNode, L: set<BTreeNode>, LV: set<int>, R0: set<BTreeNode>, V0: set<int>,
                   added: set<BTreeNode>, value: int)
    requires Subtree(n.left, L, LV) && Apart(n, L, LV, R0, V0)
    requires n.Repr == {n} + L + R0 && n.Values == {n.value} + LV + V0
    requires n !in added && added !! L && value < n.value
    requires n.right != null && n.right.Valid() && n.right.Repr == R0 + added && n.right.Values == V0 + {value}
    ensures ChildrenValid(n)
    ensures {n} + (if n.left != null then n.left.Repr else {}) + n.right.Repr == n.Repr + added
    ensures {n.value} + (if n.left != null then n.left.Values else {}) + n.right.Values == n.Values + {value}
  {
  }

  /** Brings the ghost fields of `n` up to date after its left subtree has grown. */
  ghost method RegrowLeft(n: BTreeNode, L0: set<BTreeNode>, V0: set<int>, R: set<BTreeNode>, RV: set<int>,
                          added: set<BTreeNode>, value: int)
    requires Subtree(n.right, R, RV) && Apart(n, L0, V0, R, RV)
    requires n.Repr == {n} + L0 + R && n.Values == {n.value} + V0 + RV
    requires n !in added && added !! R && n.value < value
    requires n.left != null && n.left.Valid() && n.left.Repr == L0 + added && n.left.Values == V0 + {value}
    modifies n
    ensures n.Valid() && n.left == old(n.left) && n.right == old(n.right)
    ensures n.Repr == old(n.Repr) + added && n.Values == old(n.Values) + {value}
  {
    LeftGrown(n, L0, V0, R, RV, added, value);
    Recompute(n);
  }

  /** Brings the ghost fields of `n` up to date after its right subtree has grown. */
  ghost method RegrowRight(n: BTreeNode, L: set<BTreeNode>, LV: set<int>, R0: set<BTreeNode>, V0: set<int>,
                           added: set<BTreeNode>, value: int)
    requires Subtree(n.left, L, LV) && Apart(n, L, LV, R0, V0)
    requires n.Repr == {n} + L + R0 && n.Values == {n.value} + LV + V0
    requires n !in added && added !! L && value < n.value
    requires n.right != null && n.right.Valid() && n.right.Repr == R0 + added && n.right.Values == V0 + {value}
    modifies n
    ensures n.Valid() && n.left == old(n.left) && n.right == old(n.right)
    ensures n.Repr == old(n.Repr) + added && n.Values == old(n.Values) + {value}
  {
    RightGrown(n, L, LV, R0, V0, added, value);
    Recompute(n);
  }

  /**
    The values of the subtree in the order the tree's in-order print visits
    them: left subtree, node, right subtree. Greater values sit on the left,
    so the order is strictly descending, and every value appears in it.
  */
  ghost function InOrder(n: BTreeNode): (s: seq<int>)
    requires n.Valid()
    reads n.Repr
    ensures StrictlyDescending(s)
    ensures forall x :: x in s <==> x in n.Values
    decreases n.Repr
  {
    var l := if n.left != null then InOrder(n.left) else [];
    var r := if n.right != null then InOrder(n.right) else [];
    DescendingJoin(l, n.value, r);
    l + [n.value] + r
  }

  /** Every node of a valid subtree roots a valid subtree inside it. */
  lemma {:induction false} ReprClosed(n: BTreeNode)
    requires n.Valid()
    ensures forall m :: m in n.Repr ==> m.Valid() && m.Repr <= n.Repr
    decreases n.Repr
  {
    if n.left != null {
      ReprClosed(n.left);
    }
    if n.right != null {
      ReprClosed(n.right);
    }
  }

  /** A valid subtree is closed under the child links: no link leads out of it. */
  lemma ChildrenInside(n: BTreeNode)
    requires n.Valid()
    ensures forall m :: m in n.Repr && m.left != null ==> m.left in n.Repr
    ensures forall m :: m in n.Repr && m.right != null ==> m.right in n.Repr
  {
    ReprClosed(n);
  }

  /** No link inside a valid subtree points back at its root. */
  lemma RootUnlinked(n: BTreeNode)
    requires n.Valid()
    ensures forall a :: a in n.Repr ==> a.left != n && a.right != n
  {
    ReprClosed(n);
    forall a | a in n.Repr
      ensures a.left != n && a.right != n
    {
      // a child's subtree is strictly smaller than its parent's, which lies inside n's
      assert a in a.Repr;
    }
  }

  /** The links of a node on one side of a valid subtree stay on that side. */
  lemma SidesClosed(n: BTreeNode)
    requires n.Valid()
    ensures n.left != null ==> forall m :: m in n.left.Repr && m.left != null ==> m.left in n.left.Repr
    ensures n.left != null ==> forall m :: m in n.left.Repr && m.right != null ==> m.right in n.left.Repr
    ensures n.right != null ==> forall m :: m in n.right.Repr && m.left != null ==> m.left in n.right.Repr
    ensures n.right != null ==> forall m :: m in n.right.Repr && m.right != null ==> m.right in n.right.Repr
  {
    if n.left != null {
      ChildrenInside(n.left);
    }
    if n.right != null {
      ChildrenInside(n.right);
    }
  }

  /** Inside a valid subtree no two nodes share a left child. */
  lemma {:induction false} SingleLeftParent(n: BTreeNode)
    requires n.Valid()
    ensures forall a, b :: a in n.Repr && b in n.Repr && a.left != null && a.left == b.left ==> a == b
    decreases n.Repr
  {
    SidesClosed(n);
    if n.left != null {
      SingleLeftParent(n.left);
      RootUnlinked(n.left);
    }
    if n.right != null {
      SingleLeftParent(n.right);
    }
  }

  /** Inside a valid subtree no two nodes share a right child. */
  lemma {:induction false} SingleRightParent(n: BTreeNode)
    requires n.Valid()
    ensures forall a, b :: a in n.Repr && b in n.Repr && a.right != null && a.right == b.right ==> a == b
    decreases n.Repr
  {
    SidesClosed(n);
    if n.left != null {
      SingleRightParent(n.left);
    }
    if n.right != null {
      SingleRightParent(n.right);
      RootUnlinked(n.right);
    }
  }

  /** Inside a valid subtree no node is the left child of one node and the right child of another. */
  lemma {:induction false} LeftNeverRight(n: BTreeNode)
    requires n.Valid()
    ensures forall a, b :: a in n.Repr && b in n.Repr && a.left != null ==> a.left != b.right
    decreases n.Repr
  {
    SidesClosed(n);
    if n.left != null {
      LeftNeverRight(n.left);
      RootUnlinked(n.left);
    }
    if n.right != null {
      LeftNeverRight(n.right);
      RootUnlinked(n.right);
    }
  }

  /** Inside a valid subtree every node but the root is the child of some node of the subtree. */
  lemma {:induction false} HasParent(n: BTreeNode)
    requires n.Valid()
    ensures forall m :: m in n.Repr && m != n ==> exists a :: a in n.Repr && (a.left == m || a.right == m)
    decreases n.Repr
  {
    if n.left != null {
      HasParent(n.left);
    }
    if n.right != null {
      HasParent(n.right);
    }
    forall m | m in n.Repr && m != n
      ensures exists a :: a in n.Repr && (a.left == m || a.right == m)
    {
      if m == n.left || m == n.right {
        assert n in n.Repr;
      } else if n.left != null && m in n.left.Repr {
        var a :| a in n.left.Repr && (a.left == m || a.right == m);
        assert a in n.Repr;
      } else {
        var a :| a in n.right.Repr && (a.left == m || a.right == m);
        assert a in n.Repr;
      }
    }
  }

  /**
    The values of a valid subtree are exactly the values of its nodes, and
    no two of its nodes hold the same value.
  */
  lemma {:induction false} ValuesOfNodes(n: BTreeNode)
    requires n.Valid()
    ensures n.Values == set m | m in n.Repr :: m.value
    ensures forall a, b :: a in n.Repr && b in n.Repr && a != b ==> a.value != b.value
    decreases n.Repr
  {
    var L := if n.left != null then n.left.Repr else {};
    var R := if n.right != null then n.right.Repr else {};
    if n.left != null {
      ValuesOfNodes(n.left);
      forall m | m in L ensures m.value > n.value {
        assert m.value in n.left.Values;
      }
    }
    if n.right != null {
      ValuesOfNodes(n.right);
      forall m | m in R ensures m.value < n.value {
        assert m.value in n.right.Values;
      }
    }
  }
}
