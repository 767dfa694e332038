/**
  The binary tree: a `root` link to `BTreeNode` objects, insertion by
  recursive descent, membership by iterative descent, and the sorted views
  produced by an explicitly stacked traversal that cuts every link it has
  consumed.
*/
module BinaryTree {
  import opened TreeNode
  import opened SortedSeq
  import opened Traversal

  class BTree {
    /** The root node, or null for an empty tree. */
    var root: BTreeNode?

    /** The nodes of the tree. */
    ghost var Nodes: set<BTreeNode>
    /** The values stored in the tree. */
    ghost var Values: set<int>

    /** The tree is empty, or its root roots a valid (ordered, unshared, acyclic) subtree. */
    ghost predicate Valid()
      reads this, Nodes
    {
      (root == null ==> Nodes == {} && Values == {}) &&
      (root != null ==> root in Nodes && root.Repr == Nodes && root.Valid() && Values == root.Values)
    }

    /** The default constructor: an empty tree. */
    constructor ()
      ensures Valid() && root == null
      ensures Nodes == {} && Values == {}
    {
      root := null;
      Nodes := {};
      Values := {};
    }

    /**
      Builds the tree by inserting the elements of `input` one after
      another, in array order; duplicates are dropped by `Insert`.
    */
    constructor FromArray(input: array<int>)
      ensures Valid() && fresh(Nodes)
      ensures Values == set i | 0 <= i < input.Length :: input[i]
      ensures input.Length > 0 ==> root != null && root.value == input[0]
    {
      root := null;
      Nodes := {};
      Values := {};
      new;
      for i := 0 to input.Length
        invariant Valid() && fresh(Nodes)
        invariant Values == set k | 0 <= k < i :: input[k]
        invariant i > 0 ==> root != null && root.value == input[0]
      {
        var inserted, _ := Insert(input[i]);
      }
    }

    /**
      Inserts `value`: an empty tree gets it as its root; otherwise the
      recursive descent attaches it as a new leaf, or rejects it when it is
      already stored.
    */
    method Insert(value: int) returns (ok: bool, ghost leaf: BTreeNode?)
      requires Valid()
      modifies this, Nodes
      ensures Valid()
      ensures ok <==> value !in old(Values)
      ensures Values == old(Values) + {value}
      ensures old(root) == null ==> root == leaf
      ensures old(root) != null ==> root == old(root)
      ensures !ok ==> Nodes == old(Nodes) && leaf == null
      ensures ok ==> leaf !in old(Nodes) && Nodes == old(Nodes) + {leaf} && fresh(leaf) &&
                     leaf.value == value && leaf.left == null && leaf.right == null
      ensures forall n :: n in old(Nodes) ==>
                (n.left == old(n.left) || (old(n.left) == null && n.left == leaf)) &&
                (n.right == old(n.right) || (old(n.right) == null && n.right == leaf))
    {
      if root == null {
        root := new BTreeNode(value);
        Nodes := {root};
        Values := {value};
        return true, root;
      } else {
        ghost var added;
        ok, added, leaf := InsertAt(root, value);
        Nodes := root.Repr;
        Values := root.Values;
      }
    }

    /**
      The recursive descent of insertion. A value greater than the node's
      goes left, a smaller one goes right; where the link on that side is
      null a new leaf is attached there. A value equal to the node's gives
      false. The node is never null here: both callers pass an existing node.
      `added` holds the new leaf, if any.
    */
    method InsertAt(currentNode: BTreeNode, value: int) returns (ok: bool, ghost added: set<BTreeNode>, ghost leaf: BTreeNode?)
      requires currentNode.Valid()
      modifies currentNode.Repr
      ensures currentNode.Valid() && fresh(added)
      ensures !ok ==> added == {} && leaf == null
      ensures ok ==> added == {leaf} && leaf.value == value && leaf.left == null && leaf.right == null
      ensures forall n :: n in old(currentNode.Repr) ==>
                (n.left == old(n.left) || (old(n.left) == null && n.left == leaf)) &&
                (n.right == old(n.right) || (old(n.right) == null && n.right == leaf))
      ensures currentNode.Repr == old(currentNode.Repr) + added
      ensures currentNode.Values == old(currentNode.Values) + {value}
      ensures ok <==> value !in old(currentNode.Values)
      decreases currentNode.Repr, 1
    {
      ghost var L0 := if currentNode.left != null then currentNode.left.Repr else {};
      ghost var V0 := if currentNode.left != null then currentNode.left.Values else {};
      ghost var R0 := if currentNode.right != null then currentNode.right.Repr else {};
      ghost var RV0 := if currentNode.right != null then currentNode.right.Values else {};
      assert Subtree(currentNode.left, L0, V0) && Subtree(currentNode.right, R0, RV0) && Apart(currentNode, L0, V0, R0, RV0);
      if value > currentNode.value {
        // greater values go to the left
        ok, added, leaf := InsertLeft(currentNode, value, L0, V0, R0, RV0);
      } else if value < currentNode.value {
        // smaller values go to the right
        ok, added, leaf := InsertRight(currentNode, value, L0, V0, R0, RV0);
      } else {
        ok, added, leaf := false, {}, null;
      }
    }

    /** The left branch of `InsertAt`: attach a leaf at a null left link, or descend. */
    method InsertLeft(currentNode: BTreeNode, value: int, ghost L0: set<BTreeNode>, ghost V0: set<int>,
                      ghost R0: set<BTreeNode>, ghost RV0: set<int>) returns (ok: bool, ghost added: set<BTreeNode>, ghost leaf: BTreeNode?)
      requires value > currentNode.value
      requires Subtree(currentNode.left, L0, V0) && Subtree(currentNode.right, R0, RV0) && Apart(currentNode, L0, V0, R0, RV0)
      requires currentNode.Repr == {currentNode} + L0 + R0 && currentNode.Values == {currentNode.value} + V0 + RV0
      modifies currentNode.Repr
      ensures currentNode.Valid() && fresh(added)
      ensures !ok ==> added == {} && leaf == null
      ensures ok ==> added == {leaf} && leaf.value == value && leaf.left == null && leaf.right == null
      ensures forall n :: n in old(currentNode.Repr) ==>
                (n.left == old(n.left) || (old(n.left) == null && n.left == leaf)) &&
                (n.right == old(n.right) || (old(n.right) == null && n.right == leaf))
      ensures currentNode.Repr == old(currentNode.Repr) + added
      ensures currentNode.Values == old(currentNode.Values) + {value}
      ensures ok <==> value !in old(currentNode.Values)
      decreases currentNode.Repr, 0
    {
      assert value in currentNode.Values <==> value in V0;
      if currentNode.left == null {
        var node := new BTreeNode(value);
        currentNode.left := node;
        ok, added, leaf := true, {node}, node;
      } else {
        ok, added, leaf := InsertAt(currentNode.left, value);
      }
      RegrowLeft(currentNode, L0, V0, R0, RV0, added, value);
      forall n | n in old(currentNode.Repr)
        ensures n.left == old(n.left) || (old(n.left) == null && n.left == leaf)
        ensures n.right == old(n.right) || (old(n.right) == null && n.right == leaf)
      {
        if n in R0 {
          // the other side lies outside every frame above
          assert n != currentNode && n !in L0;
        }
      }
    }

    /** The right branch of `InsertAt`: attach a leaf at a null right link, or descend. */
    method InsertRight(currentNode: BTreeNode, value: int, ghost L0: set<BTreeNode>, ghost V0: set<int>,
                       ghost R0: set<BTreeNode>, ghost RV0: set<int>) returns (ok: bool, ghost added: set<BTreeNode>, ghost leaf: BTreeNode?)
      requires value < currentNode.value
      requires Subtree(currentNode.left, L0, V0) && Subtree(currentNode.right, R0, RV0) && Apart(currentNode, L0, V0, R0, RV0)
      requires currentNode.Repr == {currentNode} + L0 + R0 && currentNode.Values == {currentNode.value} + V0 + RV0
      modifies currentNode.Repr
      ensures currentNode.Valid() && fresh(added)
      ensures !ok ==> added == {} && leaf == null
      ensures ok ==> added == {leaf} && leaf.value == value && leaf.left == null && leaf.right == null
      ensures forall n :: n in old(currentNode.Repr) ==>
                (n.left == old(n.left) || (old(n.left) == null && n.left == leaf)) &&
                (n.right == old(n.right) || (old(n.right) == null && n.right == leaf))
      ensures currentNode.Repr == old(currentNode.Repr) + added
      ensures currentNode.Values == old(currentNode.Values) + {value}
      ensures ok <==> value !in old(currentNode.Values)
      decreases currentNode.Repr, 0
    {
      assert value in currentNode.Values <==> value in RV0;
      if currentNode.right == null {
        var node := new BTreeNode(value);
        currentNode.right := node;
        ok, added, leaf := true, {node}, node;
      } else {
        ok, added, leaf := InsertAt(currentNode.right, value);
      }
      RegrowRight(currentNode, L0, V0, R0, RV0, added, value);
      forall n | n in old(currentNode.Repr)
        ensures n.left == old(n.left) || (old(n.left) == null && n.left == leaf)
        ensures n.right == old(n.right) || (old(n.right) == null && n.right == leaf)
      {
        if n in L0 {
          // the other side lies outside every frame above
          assert n != currentNode && n !in R0;
        }
      }
    }

    /**
      Membership by iterative descent: right for a smaller value, left for a
      greater one, until the value or a null link is reached.
    */
    method Contains(value: int) returns (found: bool)
      requires Valid()
      ensures found <==> value in Values
    {
      var current := root;
      while current != null
        invariant current != null ==> current.Valid()
        invariant value in Values <==> current != null && value in current.Values
        decreases if current != null then current.Repr else {}
      {
        if value < current.value {
          current := current.right;
        } else if value > current.value {
          current := current.left;
        } else {
          return true;
        }
      }
      return false;
    }

    /**
      The sorted list of the stored values, computed by the stacked
      traversal: it walks down, preferring the right link, pushing the node
      it leaves; a child that has become a leaf is emitted and its link cut;
      a node that has become a leaf gives way to the node popped from the
      stack. The root's value, never emitted by the loop, is added last and
      the list is sorted. The root must exist (the code reads `root.value`
      unconditionally), and afterwards no node of the tree has a child left.
    */
    method AsSortedList() returns (list: seq<int>)
      requires Valid() && root != null
      modifies this, Nodes
      ensures Valid() && root == old(root)
      ensures root.left == null && root.right == null
      ensures Nodes == {root} && Values == {root.value}
      ensures forall n :: n in old(Nodes) ==> n.left == null && n.right == null
      ensures StrictlyAscending(list)
      ensures forall x :: x in list <==> x in old(Values)
      ensures list == Reversed(old(InOrder(root)))
    {
      ghost var printed := InOrder(root);
      ReversedDescending(printed);
      var toReturn := Drain(root);
      toReturn := toReturn + [root.value];
      list := SortAscending(toReturn);
      SortedOnce(toReturn);
      // the print order read backwards is the same list
      AscendingUnique(list, Reversed(printed));
      // the root is all that is left of the tree
      Isolate(root);
      Nodes := {root};
      Values := {root.value};
    }

    /**
      The range query: the sorted list of the stored values, filtered to
      those strictly below `value`. It runs the destructive traversal, so it
      has the same precondition and leaves the tree in the same state.
    */
    method ElementsSmallerThan(value: int) returns (smaller: seq<int>)
      requires Valid() && root != null
      modifies this, Nodes
      ensures Valid() && root == old(root)
      ensures root.left == null && root.right == null
      ensures Nodes == {root} && Values == {root.value}
      ensures forall n :: n in old(Nodes) ==> n.left == null && n.right == null
      ensures StrictlyAscending(smaller)
      ensures forall x :: x in smaller <==> x in old(Values) && x < value
      ensures smaller == Below(Reversed(old(InOrder(root))), value)
    {
      var list := AsSortedList();
      smaller := KeepBelow(list, value);
    }
  }

  /**
    The copying loop of the range query: the items of `rTurn` strictly
    below `value`, in the order of `rTurn`.
  */
  method KeepBelow(rTurn: seq<int>, value: int) returns (toReturn: seq<int>)
    ensures toReturn == Below(rTurn, value)
  {
    toReturn := [];
    for i := 0 to |rTurn|
      invariant toReturn == Below(rTurn[..i], value)
    {
      var item := rTurn[i];
      assert rTurn[..i + 1] == rTurn[..i] + [item];
      if item < value {
        toReturn := toReturn + [item];
      }
    }
    assert rTurn[..|rTurn|] == rTurn;
  }

  /**
    The traversal loop of the sorted-list view: starting at the root with
    an empty stack, it walks down preferring the right link, pushing the
    node it leaves; a child that has become a leaf has its value emitted
    and its link cut; a node that has become a leaf gives way to the node
    popped from the stack. When the stack runs out every node of the tree
    has lost its links, and the values of all nodes but the root have been
    emitted, each once.
  */
  method Drain(root: BTreeNode) returns (toReturn: seq<int>)
    requires root.Valid()
    modifies root.Repr
    ensures forall n :: n in old(root.Repr) ==> n.left == null && n.right == null
    ensures Distinct(toReturn + [root.value])
    ensures forall x :: x in toReturn + [root.value] <==> x in old(root.Values)
  {
    ghost var N := root.Repr;
    ghost var L0, R0, Sub := Record(root);
    toReturn := [];
    var stack: seq<BTreeNode> := [];
    var current: BTreeNode? := root;
    ghost var order: seq<BTreeNode> := [];
    ghost var Cut: set<BTreeNode> := {};
    while current != null
      invariant Walk(root, N, L0, R0, Sub, Cut, stack, current, toReturn, order)
      modifies N
      decreases N - Cut, Rank(N, L0, R0, Cut, stack, current)
    {
      stack, current, toReturn, order, Cut := Step(root, N, L0, R0, Sub, Cut, stack, current, toReturn, order);
    }
    Finished(root, N, L0, R0, Sub, Cut, stack, toReturn, order);
    EmittedOnce(root, N, order, toReturn);
  }

  /**
    One turn of the traversal loop: move right if the current node still
    has a right link, else left if it still has a left link, else pop.
  */
  method Step(ghost root: BTreeNode, ghost N: set<BTreeNode>, ghost L0: Links, ghost R0: Links,
              ghost Sub: Footprints, ghost Cut: set<BTreeNode>, stack: seq<BTreeNode>, current: BTreeNode,
              toReturn: seq<int>, ghost order: seq<BTreeNode>)
    returns (stack': seq<BTreeNode>, current': BTreeNode?, toReturn': seq<int>, ghost order': seq<BTreeNode>,
             ghost Cut': set<BTreeNode>)
    requires Walk(root, N, L0, R0, Sub, Cut, stack, current, toReturn, order)
    modifies current
    ensures Walk(root, N, L0, R0, Sub, Cut', stack', current', toReturn', order')
    ensures N - Cut' < N - Cut || (Cut' == Cut && 0 <= Rank(N, L0, R0, Cut', stack', current') < Rank(N, L0, R0, Cut, stack, current))
  {
    if current.right != null {
      stack', current', toReturn', order', Cut' := StepRight(root, N, L0, R0, Sub, Cut, stack, current, toReturn, order);
    } else if current.left != null {
      stack', current', toReturn', order', Cut' := StepLeft(root, N, L0, R0, Sub, Cut, stack, current, toReturn, order);
    } else {
      stack', current' := StepUp(root, N, L0, R0, Sub, Cut, stack, current, toReturn, order);
      toReturn', order', Cut' := toReturn, order, Cut;
    }
  }

  /**
    One turn of the traversal loop when the current node has a right link:
    push the current node and move right; if the node reached has no links
    left, emit its value, pop back and cut the link that led to it.
  */
  method StepRight(ghost root: BTreeNode, ghost N: set<BTreeNode>, ghost L0: Links, ghost R0: Links,
                   ghost Sub: Footprints, ghost Cut: set<BTreeNode>, stack: seq<BTreeNode>, current: BTreeNode,
                   toReturn: seq<int>, ghost order: seq<BTreeNode>)
    returns (stack': seq<BTreeNode>, current': BTreeNode?, toReturn': seq<int>, ghost order': seq<BTreeNode>,
             ghost Cut': set<BTreeNode>)
    requires Walk(root, N, L0, R0, Sub, Cut, stack, current, toReturn, order) && current.right != null
    modifies current
    ensures Walk(root, N, L0, R0, Sub, Cut', stack', current', toReturn', order')
    ensures current' != null
    ensures N - Cut' < N - Cut || (Cut' == Cut && 0 <= Rank(N, L0, R0, Cut', stack', current') < Rank(N, L0, R0, Cut, stack, current))
  {
    ghost var child := current.right;
    assert Linked(current, child, L0, R0, Cut);
    ChildBelow(root, N, L0, R0, Sub, Cut, stack, current, child);
    stack' := stack + [current];
    current' := current.right;
    toReturn', order', Cut' := toReturn, order, Cut;
    if current'.left == null && current'.right == null {
      toReturn' := toReturn' + [current'.value];
      Consume(root, N, L0, R0, Sub, Cut, stack, current, child);
      EmitOne(toReturn, order, Cut, child);
      order', Cut' := order + [child], Cut + {child};
      current' := stack'[|stack'| - 1];
      stack' := stack'[..|stack'| - 1];
      assert current' == current && stack' == stack;
      current'.right := null;
      forall n | n in N
        ensures n.left == Trimmed(L0[n], Cut') && n.right == Trimmed(R0[n], Cut')
      {
        if n != current {
          assert n.left == old(n.left) && n.right == old(n.right);
        }
      }
    } else {
      Descend(root, N, L0, R0, Sub, Cut, stack, current, child);
    }
  }

  /**
    One turn of the traversal loop when the current node has no right link
    but a left one: the mirror image of `StepRight`.
  */
  method StepLeft(ghost root: BTreeNode, ghost N: set<BTreeNode>, ghost L0: Links, ghost R0: Links,
                  ghost Sub: Footprints, ghost Cut: set<BTreeNode>, stack: seq<BTreeNode>, current: BTreeNode,
                  toReturn: seq<int>, ghost order: seq<BTreeNode>)
    returns (stack': seq<BTreeNode>, current': BTreeNode?, toReturn': seq<int>, ghost order': seq<BTreeNode>,
             ghost Cut': set<BTreeNode>)
    requires Walk(root, N, L0, R0, Sub, Cut, stack, current, toReturn, order) && current.left != null
    modifies current
    ensures Walk(root, N, L0, R0, Sub, Cut', stack', current', toReturn', order')
    ensures current' != null
    ensures N - Cut' < N - Cut || (Cut' == Cut && 0 <= Rank(N, L0, R0, Cut', stack', current') < Rank(N, L0, R0, Cut, stack, current))
  {
    ghost var child := current.left;
    assert Linked(current, child, L0, R0, Cut);
    ChildBelow(root, N, L0, R0, Sub, Cut, stack, current, child);
    stack' := stack + [current];
    current' := current.left;
    toReturn', order', Cut' := toReturn, order, Cut;
    if current'.left == null && current'.right == null {
      toReturn' := toReturn' + [current'.value];
      Consume(root, N, L0, R0, Sub, Cut, stack, current, child);
      EmitOne(toReturn, order, Cut, child);
      order', Cut' := order + [child], Cut + {child};
      current' := stack'[|stack'| - 1];
      stack' := stack'[..|stack'| - 1];
      assert current' == current && stack' == stack;
      current'.left := null;
      forall n | n in N
        ensures n.left == Trimmed(L0[n], Cut') && n.right == Trimmed(R0[n], Cut')
      {
        if n != current {
          assert n.left == old(n.left) && n.right == old(n.right);
        }
      }
    } else {
      Descend(root, N, L0, R0, Sub, Cut, stack, current, child);
    }
  }

  /**
    One turn of the traversal loop when the current node has no links left:
    pop the node above it, or end the traversal when the stack is empty.
  */
  method StepUp(ghost root: BTreeNode, ghost N: set<BTreeNode>, ghost L0: Links, ghost R0: Links,
                ghost Sub: Footprints, ghost Cut: set<BTreeNode>, stack: seq<BTreeNode>, current: BTreeNode,
                ghost toReturn: seq<int>, ghost order: seq<BTreeNode>)
    returns (stack': seq<BTreeNode>, current': BTreeNode?)
    requires Walk(root, N, L0, R0, Sub, Cut, stack, current, toReturn, order)
    requires current.left == null && current.right == null
    ensures Walk(root, N, L0, R0, Sub, Cut, stack', current', toReturn, order)
    ensures current' == null <==> stack == []
    ensures 0 <= Rank(N, L0, R0, Cut, stack', current') < Rank(N, L0, R0, Cut, stack, current)
  {
    current', stack' := null, stack;
    if |stack| > 0 {
      Ascend(root, N, L0, R0, Sub, Cut, stack, current);
      current' := stack[|stack| - 1];
      stack' := stack[..|stack| - 1];
    }
  }

  /**
    When the traversal ends, every node but the root has been consumed and
    no node of the tree has a link left.
  */
  lemma Finished(root: BTreeNode, N: set<BTreeNode>, L0: Links, R0: Links, Sub: Footprints, Cut: set<BTreeNode>,
                 stack: seq<BTreeNode>, toReturn: seq<int>, order: seq<BTreeNode>)
    requires Walk(root, N, L0, R0, Sub, Cut, stack, null, toReturn, order)
    ensures Cut == N - {root}
    ensures forall c :: c in order <==> c in N && c != root
    ensures forall n :: n in N ==> n.left == null && n.right == null
  {
    ConsumedBelow(root, N, L0, R0, Sub, Cut, root);
    forall n | n in N
      ensures n.left == null && n.right == null
    {
      if n != root {
        assert Leaf(n, L0, R0, Cut);
      }
    }
  }

  /**
    Takes the record of a valid tree rooted at `root`: the state in which
    the traversal starts, with nothing consumed, an empty stack and the
    root as the current node.
  */
  lemma Record(root: BTreeNode) returns (L0: Links, R0: Links, Sub: Footprints)
    requires root.Valid()
    ensures Walk(root, root.Repr, L0, R0, Sub, {}, [], root, [], [])
    ensures root.Values == ValuesOf(root.Repr)
  {
    L0 := map n: BTreeNode | n in root.Repr :: n.left;
    R0 := map n: BTreeNode | n in root.Repr :: n.right;
    Sub := map n: BTreeNode | n in root.Repr :: n.Repr;
    SnapshotShaped(root, L0, R0, Sub);
    ValuesOfNodes(root);
    SnapshotMirrors(root, L0, R0);
    Start(root, root.Repr, L0, R0, Sub);
  }

  /** The links of a valid subtree read as its record with nothing consumed. */
  lemma SnapshotMirrors(root: BTreeNode, L0: Links, R0: Links)
    requires L0 == map n: BTreeNode | n in root.Repr :: n.left
    requires R0 == map n: BTreeNode | n in root.Repr :: n.right
    ensures Mirrors(root.Repr, L0, R0, {})
  {
  }

  /** The traversal starts at the root of a recorded tree with nothing consumed. */
  lemma Start(root: BTreeNode, N: set<BTreeNode>, L0: Links, R0: Links, Sub: Footprints)
    requires Shaped(root, N, L0, R0, Sub) && Mirrors(N, L0, R0, {})
    ensures Walk(root, N, L0, R0, Sub, {}, [], root, [], [])
  {
  }
}
