/** The in-order iterator: an explicit stack of frames whose `which` says how much of each subtree is done. */
module AvlIter {
  import opened AvlSpec
  import opened AvlTree

  datatype Visit = Preorder | Postorder | Endorder

  type Pending = seq<(NodeTree, Visit)>

  function Step(w: Visit): Visit {
    if w.Preorder? then Postorder else Endorder
  }

  /** What a frame below the top still owes once the child above it is finished. */
  ghost function Owed(f: (NodeTree, Visit)): seq<Entry<AvlNode>>
    requires f.0.Node?
  {
    if f.1.Preorder? then [Entry(f.0.ref, f.0.key)] + Entries(f.0.right) else []
  }

  /** What the top frame still owes. */
  ghost function OwedAtTop(f: (NodeTree, Visit)): seq<Entry<AvlNode>>
    requires f.0.Node?
  {
    match f.1
    case Preorder => Entries(f.0)
    case Postorder => [Entry(f.0.ref, f.0.key)] + Entries(f.0.right)
    case Endorder => []
  }

  ghost predicate AllNodes(s: Pending) {
    forall i :: 0 <= i < |s| ==> s[i].0.Node?
  }

  ghost function OwedBelow(s: Pending): seq<Entry<AvlNode>>
    requires AllNodes(s)
  {
    if s == [] then [] else Owed(s[|s| - 1]) + OwedBelow(s[..|s| - 1])
  }

  /** The nodes that the iterator has yet to return, in the order in which it will. */
  ghost function Remaining(s: Pending): seq<Entry<AvlNode>>
    requires AllNodes(s)
  {
    if s == [] then [] else OwedAtTop(s[|s| - 1]) + OwedBelow(s[..|s| - 1])
  }

  /** Each frame holds the child of the frame below it that the visit state calls for. */
  ghost predicate Nested(s: Pending, whole: NodeTree) {
    && AllNodes(s)
    && (s != [] ==> s[0].0 == whole)
    && (forall i :: 0 <= i < |s| && !s[i].1.Preorder? ==> s[i].0.left.Node? || s[i].0.right.Node?)
    && forall i :: 0 <= i < |s| - 1 ==>
         && !s[i].1.Endorder?
         && s[i + 1].0 == if s[i].1.Preorder? then s[i].0.left else s[i].0.right
  }

  lemma {:induction false} NestedLinked(s: Pending, whole: NodeTree, i: nat)
    requires Nested(s, whole) && i < |s| && Linked(whole) && Avl(whole) && Unshared(whole)
    ensures Linked(s[i].0) && Avl(s[i].0) && Nodes(s[i].0) <= Nodes(whole)
  {
    if i > 0 {
      NestedLinked(s, whole, i - 1);
    }
  }

  /** After the top frame is dropped and the one below advanced, what is left is what was owed below. */
  ghost function Popped(s: Pending): Pending
    requires s != []
  {
    var n := |s| - 1;
    if n == 0 then [] else s[..n - 1] + [(s[n - 1].0, Step(s[n - 1].1))]
  }

  lemma PoppedRemaining(s: Pending, whole: NodeTree)
    requires s != [] && Nested(s, whole)
    ensures Nested(Popped(s), whole) && Remaining(Popped(s)) == OwedBelow(s[..|s| - 1])
  {
    var n := |s| - 1;
    if n > 0 {
      assert s[n - 1 + 1].0.Node?;
      assert Popped(s)[..n - 1] == s[..n][..n - 1];
    }
  }

  lemma DescendLeft(s: Pending, whole: NodeTree)
    requires s != [] && Nested(s, whole) && s[|s| - 1].1.Preorder? && s[|s| - 1].0.left.Node?
    ensures Nested(s + [(s[|s| - 1].0.left, Preorder)], whole)
  {
  }

  lemma DescendLeftRemaining(s: Pending)
    requires s != [] && AllNodes(s) && s[|s| - 1].1.Preorder? && s[|s| - 1].0.left.Node?
    ensures AllNodes(s + [(s[|s| - 1].0.left, Preorder)])
    ensures Remaining(s + [(s[|s| - 1].0.left, Preorder)]) == Remaining(s)
  {
    var f := s[|s| - 1];
    assert (s + [(f.0.left, Preorder)])[..|s|] == s;
    RegroupTail(Entries(f.0.left), [Entry(f.0.ref, f.0.key)], Entries(f.0.right));
    RegroupTail(Entries(f.0.left), Owed(f), OwedBelow(s[..|s| - 1]));
  }

  lemma DescendRight(s: Pending, whole: NodeTree)
    requires s != [] && Nested(s, whole) && s[|s| - 1].1.Postorder? && s[|s| - 1].0.right.Node?
    ensures var f := s[|s| - 1];
            var s' := s + [(f.0.right, Preorder)];
            Nested(s', whole) && Remaining(s) == [Entry(f.0.ref, f.0.key)] + Remaining(s')
  {
    var f := s[|s| - 1];
    var s' := s + [(f.0.right, Preorder)];
    assert s'[..|s|] == s;
    var b := OwedBelow(s[..|s| - 1]);
    assert OwedBelow(s) == b by { assert Owed(f) + b == b; }
    RegroupTail([Entry(f.0.ref, f.0.key)], Entries(f.0.right), b);
  }

  /** The state of the top frame moves on; nothing below it changes. */
  lemma Advance(s: Pending, whole: NodeTree)
    requires s != [] && Nested(s, whole) && s[|s| - 1].1.Preorder?
    requires s[|s| - 1].0.left.Leaf? && s[|s| - 1].0.right.Node?
    ensures var s' := s[|s| - 1 := (s[|s| - 1].0, Postorder)];
            Nested(s', whole) && Remaining(s') == Remaining(s)
  {
    var f := s[|s| - 1];
    var s' := s[|s| - 1 := (f.0, Postorder)];
    assert s'[..|s| - 1] == s[..|s| - 1];
    TopWithoutLeft(f.0);
    assert OwedAtTop(f) == OwedAtTop((f.0, Postorder));
  }

  // ----- Termination of the search for the next node -----

  ghost function Weight(f: (NodeTree, Visit)): nat
    requires f.0.Node?
  {
    match f.1
    case Preorder => 4 * |Entries(f.0.right)| + 3
    case Postorder => 1
    case Endorder => 1
  }

  ghost function WeightAtTop(f: (NodeTree, Visit)): nat
    requires f.0.Node?
  {
    match f.1
    case Preorder => 4 * |Entries(f.0)|
    case Postorder => 4 * |Entries(f.0.right)| + 2
    case Endorder => 1
  }

  ghost function WeightBelow(s: Pending): nat
    requires AllNodes(s)
  {
    if s == [] then 0 else Weight(s[|s| - 1]) + WeightBelow(s[..|s| - 1])
  }

  ghost function Measure(s: Pending): nat
    requires AllNodes(s)
  {
    if s == [] then 0 else WeightAtTop(s[|s| - 1]) + WeightBelow(s[..|s| - 1])
  }

  lemma PushDecreases(s: Pending)
    requires s != [] && AllNodes(s) && s[|s| - 1].1.Preorder? && s[|s| - 1].0.left.Node?
    ensures AllNodes(s + [(s[|s| - 1].0.left, Preorder)])
    ensures Measure(s + [(s[|s| - 1].0.left, Preorder)]) < Measure(s)
  {
    assert (s + [(s[|s| - 1].0.left, Preorder)])[..|s|] == s;
  }

  lemma PopDecreases(s: Pending)
    requires s != [] && AllNodes(s) && s[|s| - 1].1.Endorder?
    ensures AllNodes(Popped(s)) && Measure(Popped(s)) < Measure(s)
  {
    var n := |s| - 1;
    if n > 0 {
      assert Popped(s)[..n - 1] == s[..n][..n - 1];
    }
  }

  /** Dropping a finished frame returns nothing. */
  lemma EndorderPop(s: Pending, whole: NodeTree)
    requires s != [] && Nested(s, whole) && s[|s| - 1].1.Endorder?
    ensures Nested(Popped(s), whole) && Remaining(Popped(s)) == Remaining(s) && Measure(Popped(s)) < Measure(s)
  {
    PoppedRemaining(s, whole);
    PopDecreases(s);
    assert [] + OwedBelow(s[..|s| - 1]) == OwedBelow(s[..|s| - 1]);
  }

  class IterFrame {
    var n: AvlNode
    var parent: IterFrame?
    var which: Visit

    constructor (node: AvlNode, p: IterFrame?)
      ensures n == node && parent == p && which == Preorder
    {
      n, parent, which := node, p, Preorder;
    }
  }

  class TreeIterator {
    const tree: AvlTree
    var started: bool
    var stack: seq<IterFrame>
    ghost var pending: Pending
    ghost var frames: set<IterFrame>

    ghost predicate Valid()
      reads this, tree, Nodes(tree.model), frames
    {
      && tree.Valid()
      && Nested(pending, tree.model)
      && FramesMatch()
    }

    /** The frames on the stack are distinct, linked to the frame below, and hold what `pending` says. */
    ghost predicate FramesMatch()
      reads this, frames
    {
      && (forall f :: f in stack ==> f in frames)
      && |pending| == |stack|
      && (forall i, j :: 0 <= i < j < |stack| ==> stack[i] != stack[j])
      && (forall i :: 0 <= i < |stack| ==> stack[i].which == pending[i].1 && stack[i].n == Root(pending[i].0))
      && (stack != [] ==> stack[0].parent == null)
      && (forall i, j :: 0 <= i < j < |stack| && j == i + 1 ==> stack[j].parent == stack[i])
    }

    constructor (t: AvlTree)
      requires t.Valid()
      ensures Valid() && tree == t && !started
    {
      tree, started, stack, pending, frames := t, false, [], [], {};
    }

    ghost function Top(): (NodeTree, Visit)
      requires Valid() && stack != []
      reads this, tree, Nodes(tree.model), frames
    {
      pending[|pending| - 1]
    }

    /** Pops the top frame and moves the frame below it on to its next state. */
    method Pop()
      requires Valid() && stack != []
      modifies this`stack, this`pending, this`frames, frames
      ensures Valid() && fresh(frames - old(frames))
      ensures pending == Popped(old(pending)) && Remaining(pending) == OwedBelow(old(pending[..|pending| - 1]))
    {
      NodesAllocated(tree.model);
      PoppedRemaining(pending, tree.model);
      PopFrame();
    }

    method PopFrame()
      requires stack != [] && FramesMatch()
      modifies this`stack, this`pending, frames
      ensures FramesMatch() && pending == Popped(old(pending)) && frames == old(frames)
    {
      var current := stack[|stack| - 1];
      assert |stack| > 1 ==> current.parent == stack[|stack| - 2];
      stack := stack[..|stack| - 1];
      pending := Popped(pending);
      if current.parent != null {
        current.parent.which := Step(current.parent.which);
      }
    }

    /** Pushes a frame for the child that the state of the top frame calls for. */
    method PushChild(child: AvlNode, ghost t: NodeTree)
      requires Valid() && stack != [] && t.Node? && t.ref == child && Nested(pending + [(t, Preorder)], tree.model)
      modifies this`stack, this`pending, this`frames
      ensures Valid() && fresh(frames - old(frames))
      ensures pending == old(pending) + [(t, Preorder)]
    {
      NodesAllocated(tree.model);
      var frame := new IterFrame(child, stack[|stack| - 1]);
      stack := stack + [frame];
      frames := frames + {frame};
      pending := pending + [(t, Preorder)];
    }

    /** The state of the top frame moves on when there is nothing to its left. */
    method Advanced()
      requires Valid() && stack != [] && Top().1.Preorder? && Top().0.left.Leaf? && Top().0.right.Node?
      modifies this`pending, frames
      ensures Valid() && stack == old(stack) && frames == old(frames) && Top() == (old(Top().0), Postorder)
      ensures Remaining(pending) == old(Remaining(pending))
    {
      NodesAllocated(tree.model);
      Advance(pending, tree.model);
      hide Remaining, Nested, FramesMatch;
      AdvanceFrame();
    }

    method AdvanceFrame()
      requires stack != [] && FramesMatch()
      modifies this`pending, frames
      ensures FramesMatch() && stack == old(stack) && frames == old(frames)
      ensures |old(pending)| > 0
      ensures pending == old(pending)[|old(pending)| - 1 := (old(pending)[|old(pending)| - 1].0, Postorder)]
    {
      stack[|stack| - 1].which := Postorder;
      pending := pending[|pending| - 1 := (pending[|pending| - 1].0, Postorder)];
    }

    /** What the node on top says about its subtree. */
    lemma TopNode()
      requires Valid() && stack != []
      ensures var r, t := stack[|stack| - 1].n, Top().0;
              && stack[|stack| - 1].which == Top().1
              && t.Node? && r == t.ref && r.left == Root(t.left) && r.right == Root(t.right)
              && (r.h == 1 <==> t.left.Leaf? && t.right.Leaf?)
    {
      NestedLinked(pending, tree.model, |pending| - 1);
      AvlHeight(Top().0);
    }

    /** `r` is the next node in order and has been taken from what remains. */
    twostate predicate Took(new r: AvlNode)
      reads this
      requires old(AllNodes(pending)) && AllNodes(pending)
    {
      var was := old(Remaining(pending));
      was != [] && r == was[0].ref && Remaining(pending) == was[1..]
    }

    /** A node without children is returned and its frame dropped. */
    method LeafStep(r: AvlNode)
      requires Valid() && stack != [] && stack[|stack| - 1].n == r && r.h == 1
      modifies this`stack, this`pending, this`frames, frames
      ensures Valid() && fresh(frames - old(frames)) && Took(r)
    {
      TopNode();
      TopWithoutLeft(Top().0);
      assert Top().1.Preorder? && OwedAtTop(Top()) == [Entry(r, Top().0.key)];
      Pop();
    }

    /** The node on top is next in order: it is returned after its right child, if any, is pushed. */
    method PostorderStep(r: AvlNode)
      requires Valid() && stack != [] && stack[|stack| - 1].n == r && stack[|stack| - 1].which.Postorder?
      modifies this`stack, this`pending, this`frames, frames
      ensures Valid() && fresh(frames - old(frames)) && Took(r)
    {
      TopNode();
      if r.right != null {
        DescendRight(pending, tree.model);
        PushChild(r.right, Top().0.right);
      } else {
        assert OwedAtTop(Top()) == [Entry(r, Top().0.key)];
        Pop();
      }
    }

    /** A node in its first state: its left child is pushed, or the node itself is next. */
    method PreorderStep(r: AvlNode) returns (found: bool)
      requires Valid() && stack != [] && stack[|stack| - 1].n == r && stack[|stack| - 1].which.Preorder? && r.h != 1
      modifies this`stack, this`pending, this`frames, frames
      ensures Valid() && fresh(frames - old(frames))
      ensures found ==> Took(r)
      ensures !found ==> Remaining(pending) == old(Remaining(pending)) && Measure(pending) < old(Measure(pending))
    {
      TopNode();
      hide Remaining, Measure, FramesMatch;
      if r.left != null {
        DescendLeft(pending, tree.model);
        DescendLeftRemaining(pending);
        PushDecreases(pending);
        PushChild(r.left, Top().0.left);
        found := false;
      } else {
        Advanced();
        PostorderStep(r);
        found := true;
      }
    }

    /** A finished node is dropped. */
    method EndorderStep()
      requires Valid() && stack != [] && stack[|stack| - 1].which.Endorder?
      modifies this`stack, this`pending, this`frames, frames
      ensures Valid() && fresh(frames - old(frames))
      ensures Remaining(pending) == old(Remaining(pending)) && Measure(pending) < old(Measure(pending))
    {
      EndorderPop(pending, tree.model);
      Pop();
    }

    lemma NothingLeft()
      requires Valid() && stack == []
      ensures Remaining(pending) == []
    {
    }

    /** get_next_iter: the next node in order, or null when every node has been returned. */
    method GetNext() returns (r: AvlNode?)
      requires Valid()
      modifies this`stack, this`pending, this`frames, frames
      ensures Valid() && fresh(frames - old(frames))
      ensures r == null ==> old(Remaining(pending)) == [] && Remaining(pending) == []
      ensures r != null ==> Took(r)
    {
      hide Remaining, Measure, FramesMatch;
      while stack != []
        invariant Valid() && Remaining(pending) == old(Remaining(pending))
        invariant fresh(frames - old(frames))
        decreases Measure(pending)
      {
        var current := stack[|stack| - 1];
        r := current.n;
        if r.h == 1 {
          LeafStep(r);
          return;
        }
        match current.which {
          case Preorder =>
            var found := PreorderStep(r);
            if found { return; }
          case Postorder =>
            PostorderStep(r);
            return;
          case Endorder =>
            EndorderStep();
        }
      }
      NothingLeft();
      r := null;
    }

    /** avl_tree_iter_begin: drops whatever an earlier walk left and starts at the root. */
    method Begin() returns (r: AvlNode?)
      requires tree.Valid()
      modifies this
      ensures tree.root == null ==> r == null && unchanged(this)
      ensures tree.root != null ==>
                && Valid() && started && fresh(frames)
                && Entries(tree.model) != [] && r == Entries(tree.model)[0].ref
                && Remaining(pending) == Entries(tree.model)[1..]
    {
      if tree.root == null { return null; }
      NodesAllocated(tree.model);
      started := true;
      var current := new IterFrame(tree.root, null);
      stack := [current];
      frames := {current};
      pending := [(tree.model, Preorder)];
      assert Remaining(pending) == Entries(tree.model);
      r := GetNext();
    }

    /** avl_tree_iter_next: continues the walk, or begins one if none has been started. */
    method Next() returns (r: AvlNode?)
      requires Valid()
      modifies this, frames
      ensures started ==> Valid()
      ensures old(started) ==> started && fresh(frames - old(frames))
      ensures old(started) && r == null ==> old(Remaining(pending)) == [] && Remaining(pending) == []
      ensures old(started) && r != null ==> Took(r)
      ensures !old(started) && tree.root == null ==> r == null && unchanged(this)
      ensures !old(started) && tree.root != null ==>
        started && r == Entries(tree.model)[0].ref && Remaining(pending) == Entries(tree.model)[1..]
    {
      if !started {
        r := Begin();
      } else {
        r := GetNext();
      }
    }

    /** `nodes` have been returned before `n`, and what remains comes after it. */
    ghost predicate Walking(all: seq<Entry<AvlNode>>, nodes: seq<AvlNode>, n: AvlNode)
      reads this
    {
      && |nodes| < |all| && n == all[|nodes|].ref
      && (forall i :: 0 <= i < |nodes| ==> nodes[i] == all[i].ref)
      && AllNodes(pending) && Remaining(pending) == all[|nodes| + 1..]
    }

    /** Begin followed by next until null: every node exactly once, in order. */
    method Walk() returns (nodes: seq<AvlNode>)
      requires tree.Valid()
      modifies this
      ensures |nodes| == |Entries(tree.model)|
      ensures forall i :: 0 <= i < |nodes| ==> nodes[i] == Entries(tree.model)[i].ref
    {
      ghost var all := Entries(tree.model);
      nodes := [];
      var n := Begin();
      while n != null
        invariant Entries(tree.model) == all
        invariant n != null ==> Valid() && started && fresh(frames) && Walking(all, nodes, n)
        invariant n == null ==> |nodes| == |all| && forall i :: 0 <= i < |nodes| ==> nodes[i] == all[i].ref
        decreases |all| - |nodes|, if n == null then 0 else 1
      {
        n, nodes := NextOf(all, nodes, n);
      }
    }

    method NextOf(ghost all: seq<Entry<AvlNode>>, nodes: seq<AvlNode>, n: AvlNode)
      returns (r: AvlNode?, nodes': seq<AvlNode>)
      requires Valid() && started && Walking(all, nodes, n)
      modifies this, frames
      ensures nodes' == nodes + [n]
      ensures r != null ==> Valid() && started && fresh(frames - old(frames)) && Walking(all, nodes', r)
      ensures r == null ==> |nodes'| == |all| && forall i :: 0 <= i < |nodes'| ==> nodes'[i] == all[i].ref
    {
      hide Remaining, Entries, FramesMatch;
      nodes' := nodes + [n];
      r := Next();
      assert r == null ==> |all[|nodes| + 1..]| == 0;
      assert r != null ==> all[|nodes| + 1..][1..] == all[|nodes'| + 1..];
    }
  }
}
