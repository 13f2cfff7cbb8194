/** `TreeNode` and the three tree traversals of src/aoc/tools.py.  A tree is
    a value: a node holds its value and the list of its children.  A
    traversal is the sequence of nodes (subtrees) its generator yields. */
module TreeTraversal {

  datatype Tree<T> = Node(value: T, children: seq<Tree<T>>)

  /** `TreeNode(value)`: a node with no children. */
  function Leaf<T>(value: T): (t: Tree<T>)
    ensures t.value == value && t.children == []
  {
    Node(value, [])
  }

  /** `node.add_child(child)`: the child appended after the others. */
  function AddChild<T>(t: Tree<T>, child: Tree<T>): (r: Tree<T>)
    ensures r.value == t.value && |r.children| == |t.children| + 1
    ensures r.children[..|t.children|] == t.children && r.children[|t.children|] == child
  {
    Node(t.value, t.children + [child])
  }

  /** The nodes of a tree, as a multiset: the root and the nodes below it. */
  ghost function Nodes<T>(t: Tree<T>): multiset<Tree<T>>
    decreases t
  {
    multiset{t} + NodesAll(t.children)
  }

  ghost function NodesAll<T>(ts: seq<Tree<T>>): multiset<Tree<T>>
    decreases ts
  {
    if ts == [] then multiset{} else Nodes(ts[0]) + NodesAll(ts[1..])
  }

  /** `pre_order_traversal(root)`: the root, then each child's subtree in
      pre-order. */
  function PreOrder<T>(t: Tree<T>): seq<Tree<T>>
    decreases t
  {
    [t] + PreOrderAll(t.children)
  }

  function PreOrderAll<T>(ts: seq<Tree<T>>): seq<Tree<T>>
    decreases ts
  {
    if ts == [] then [] else PreOrder(ts[0]) + PreOrderAll(ts[1..])
  }

  /** `post_order_traversal(root)`: each child's subtree in post-order,
      then the root. */
  function PostOrder<T>(t: Tree<T>): seq<Tree<T>>
    decreases t
  {
    PostOrderAll(t.children) + [t]
  }

  function PostOrderAll<T>(ts: seq<Tree<T>>): seq<Tree<T>>
    decreases ts
  {
    if ts == [] then [] else PostOrder(ts[0]) + PostOrderAll(ts[1..])
  }

  /** `in_order_traversal(root)`: a leaf alone; otherwise the first child's
      subtree in order, the root, then the other children's subtrees in
      order. */
  function InOrder<T>(t: Tree<T>): seq<Tree<T>>
    decreases t
  {
    if t.children == [] then [t]
    else InOrder(t.children[0]) + [t] + InOrderAll(t.children[1..])
  }

  function InOrderAll<T>(ts: seq<Tree<T>>): seq<Tree<T>>
    decreases ts
  {
    if ts == [] then [] else InOrder(ts[0]) + InOrderAll(ts[1..])
  }

  /** Pre-order yields every node exactly once, the root first. */
  lemma {:induction false} PreOrderNodes<T>(t: Tree<T>)
    ensures multiset(PreOrder(t)) == Nodes(t)
    ensures PreOrder(t)[0] == t
    decreases t
  {
    PreOrderAllNodes(t.children);
  }

  lemma {:induction false} PreOrderAllNodes<T>(ts: seq<Tree<T>>)
    ensures multiset(PreOrderAll(ts)) == NodesAll(ts)
    decreases ts
  {
    if ts != [] {
      PreOrderNodes(ts[0]);
      PreOrderAllNodes(ts[1..]);
    }
  }

  /** Post-order yields every node exactly once, the root last. */
  lemma {:induction false} PostOrderNodes<T>(t: Tree<T>)
    ensures multiset(PostOrder(t)) == Nodes(t)
    ensures PostOrder(t)[|PostOrder(t)| - 1] == t
    decreases t
  {
    PostOrderAllNodes(t.children);
  }

  lemma {:induction false} PostOrderAllNodes<T>(ts: seq<Tree<T>>)
    ensures multiset(PostOrderAll(ts)) == NodesAll(ts)
    decreases ts
  {
    if ts != [] {
      PostOrderNodes(ts[0]);
      PostOrderAllNodes(ts[1..]);
    }
  }

  /** In-order yields every node exactly once. */
  lemma {:induction false} InOrderNodes<T>(t: Tree<T>)
    ensures multiset(InOrder(t)) == Nodes(t)
    decreases t
  {
    if t.children != [] {
      var cs := t.children;
      InOrderNodes(cs[0]);
      InOrderAllNodes(cs[1..]);
      assert NodesAll(cs) == Nodes(cs[0]) + NodesAll(cs[1..]);
    }
  }

  lemma {:induction false} InOrderAllNodes<T>(ts: seq<Tree<T>>)
    ensures multiset(InOrderAll(ts)) == NodesAll(ts)
    decreases ts
  {
    if ts != [] {
      InOrderNodes(ts[0]);
      InOrderAllNodes(ts[1..]);
    }
  }

  /** A node of a binary tree (or of any tree, through its first child)
      sits between the nodes of its first subtree and those of the rest. */
  lemma InOrderRoot<T>(t: Tree<T>)
    requires t.children != []
    ensures var k := |InOrder(t.children[0])|;
      k < |InOrder(t)| && InOrder(t)[k] == t
  {
  }

  /** The traversals of a list of subtrees, appended. */
  lemma {:induction false} PreOrderAllAppend<T>(ts: seq<Tree<T>>, us: seq<Tree<T>>)
    ensures PreOrderAll(ts + us) == PreOrderAll(ts) + PreOrderAll(us)
    decreases ts
  {
    if ts == [] {
      assert ts + us == us;
    } else {
      assert (ts + us)[1..] == ts[1..] + us;
      PreOrderAllAppend(ts[1..], us);
    }
  }

  lemma {:induction false} PostOrderAllAppend<T>(ts: seq<Tree<T>>, us: seq<Tree<T>>)
    ensures PostOrderAll(ts + us) == PostOrderAll(ts) + PostOrderAll(us)
    decreases ts
  {
    if ts == [] {
      assert ts + us == us;
    } else {
      assert (ts + us)[1..] == ts[1..] + us;
      PostOrderAllAppend(ts[1..], us);
    }
  }

  /** Adding a child puts its subtree after all the others: last in the
      pre-order, and just before the root in the post-order.  (The root
      itself is the new node.) */
  lemma AddChildPreOrder<T>(t: Tree<T>, child: Tree<T>)
    ensures PreOrder(AddChild(t, child)) == [AddChild(t, child)] + PreOrder(t)[1..] + PreOrder(child)
  {
    var r := AddChild(t, child);
    assert PreOrder(t)[1..] == PreOrderAll(t.children);
    PreOrderAllAppend(t.children, [child]);
    assert PreOrderAll([child]) == PreOrder(child) + PreOrderAll([]);
    assert PreOrder(r) == [r] + PreOrderAll(t.children + [child]);
  }

  lemma AddChildPostOrder<T>(t: Tree<T>, child: Tree<T>)
    ensures PostOrder(AddChild(t, child)) == PostOrder(t)[..|PostOrder(t)| - 1] + PostOrder(child) + [AddChild(t, child)]
  {
    PostOrderAllAppend(t.children, [child]);
    assert PostOrderAll([child]) == PostOrder(child) + PostOrderAll([]);
  }

  /** The nodes after `add_child`: the new root, the old root's subtrees
      and the child's nodes. */
  lemma AddChildNodes<T>(t: Tree<T>, child: Tree<T>)
    ensures Nodes(AddChild(t, child)) == multiset{AddChild(t, child)} + NodesAll(t.children) + Nodes(child)
  {
    NodesAllAppend(t.children, [child]);
    assert NodesAll([child]) == Nodes(child) + NodesAll([]);
  }

  lemma {:induction false} NodesAllAppend<T>(ts: seq<Tree<T>>, us: seq<Tree<T>>)
    ensures NodesAll(ts + us) == NodesAll(ts) + NodesAll(us)
    decreases ts
  {
    if ts == [] {
      assert ts + us == us;
    } else {
      assert (ts + us)[1..] == ts[1..] + us;
      NodesAllAppend(ts[1..], us);
    }
  }
}
