/** The AVL tree over linked nodes: insertion and deletion climb a fixed array of slots. */
module AvlTree {
  import opened AvlSpec

  class AvlNode {
    var key: int
    var left: AvlNode?
    var right: AvlNode?
    var h: int

    constructor (k: int)
      ensures key == k && left == null && right == null && h == 1
    {
      key, left, right, h := k, null, null, 1;
    }

    function Link(dir: bool): AvlNode?
      reads this
    {
      if dir then right else left
    }

    method SetLink(dir: bool, n: AvlNode?)
      modifies this`left, this`right
      ensures dir ==> right == n && left == old(left)
      ensures !dir ==> left == n && right == old(right)
    {
      if dir { right := n; } else { left := n; }
    }
  }

  type NodeTree = Tree<AvlNode>
  type NodeCtx = Ctx<AvlNode>

  ghost function Root(t: NodeTree): AvlNode? {
    if t.Leaf? then null else t.ref
  }

  lemma {:induction false} NodesAllocated(t: NodeTree)
    ensures forall n :: n in Nodes(t) ==> allocated(n)
  {
    if t.Node? {
      NodesAllocated(t.left);
      NodesAllocated(t.right);
    }
  }

  lemma {:induction false} CtxAllocated(c: NodeCtx)
    ensures forall n :: n in CtxNodes(c) ==> allocated(n)
  {
    if c.Under? {
      CtxAllocated(c.up);
      NodesAllocated(c.sib);
    }
  }

  /** The heap holds exactly the tree `t`, node by node. */
  ghost predicate Linked(t: NodeTree)
    reads Nodes(t)
    decreases t
  {
    t.Node? ==>
      && t.ref.key == t.key && t.ref.h == t.h
      && t.ref.left == Root(t.left) && t.ref.right == Root(t.right)
      && Linked(t.left) && Linked(t.right)
  }

  /** The heap holds the frames of `c` from `root` down to a hole that contains the pointer `hole`. */
  ghost predicate CtxLinked(c: NodeCtx, hole: AvlNode?, root: AvlNode?)
    reads CtxNodes(c)
    decreases c
  {
    if c.Top? then hole == root
    else
      && c.ref.key == c.key && c.ref.h == c.h
      && c.ref.Link(c.dir) == hole && c.ref.Link(!c.dir) == Root(c.sib)
      && Linked(c.sib) && CtxLinked(c.up, c.ref, root)
  }

  lemma {:induction false} PlugLinked(c: NodeCtx, t: NodeTree, root: AvlNode?)
    ensures Linked(Plug(c, t)) && Root(Plug(c, t)) == root
            <==> Linked(t) && CtxLinked(c, Root(t), root)
  {
    if c.Under? {
      PlugLinked(c.up, Frame(c, t), root);
    }
  }

  lemma {:induction false} ComposeLinked(inner: NodeCtx, outer: NodeCtx, hole: AvlNode?, middle: AvlNode?,
                                         root: AvlNode?)
    requires CtxLinked(inner, hole, middle) && CtxLinked(outer, middle, root)
    ensures CtxLinked(Compose(inner, outer), hole, root)
  {
    if inner.Under? {
      ComposePlug(inner.up, outer, Leaf);
      ComposeLinked(inner.up, outer, inner.ref, middle, root);
    }
  }

  lemma JoinLinked(dir: bool, outer: NodeTree, n: AvlNode, key: int, h: int, inner: NodeTree)
    requires n.key == key && n.h == h && n.Link(dir) == Root(inner) && n.Link(!dir) == Root(outer)
    requires Linked(outer) && Linked(inner)
    ensures Linked(Join(dir, outer, n, key, h, inner))
  {
  }

  /** A linked subtree that does not contain three given nodes. */
  ghost predicate Apart(t: NodeTree, x: AvlNode, y: AvlNode, z: AvlNode)
    reads Nodes(t)
  {
    Linked(t) && x !in Nodes(t) && y !in Nodes(t) && z !in Nodes(t)
  }

  /** The three nodes of a double rotation and the four subtrees below them. */
  lemma DoubleParts(t: NodeTree, dir: bool)
    requires t.Node? && Child(t, dir).Node? && Child(Child(t, dir), !dir).Node?
    requires Linked(t) && Unshared(t)
    ensures var y := Child(t, dir);
            var z := Child(y, !dir);
            && y.ref.key == y.key && z.ref.key == z.key && z.ref.h == z.h
            && z.ref.Link(dir) == Root(Child(z, dir)) && z.ref.Link(!dir) == Root(Child(z, !dir))
            && y.ref.Link(dir) == Root(Child(y, dir))
            && t.ref != y.ref && t.ref != z.ref && y.ref != z.ref
            && Apart(Child(t, !dir), t.ref, y.ref, z.ref) && Apart(Child(z, !dir), t.ref, y.ref, z.ref)
            && Apart(Child(z, dir), t.ref, y.ref, z.ref) && Apart(Child(y, dir), t.ref, y.ref, z.ref)
  {
    var y := Child(t, dir);
    var z := Child(y, !dir);
    assert Linked(y) && Unshared(y) && Linked(z) && Unshared(z);
    assert Nodes(y) == Nodes(z) + {y.ref} + Nodes(Child(y, dir));
    assert Nodes(z) == Nodes(Child(z, dir)) + {z.ref} + Nodes(Child(z, !dir));
  }

  /** The two nodes of a single rotation and the three subtrees below them. */
  lemma SingleParts(t: NodeTree, dir: bool)
    requires t.Node? && Child(t, dir).Node? && Linked(t) && Unshared(t)
    ensures var y := Child(t, dir); var z := Child(y, !dir);
      && t.ref.key == t.key && y.ref.key == y.key && t.ref != y.ref
      && t.ref.Link(!dir) == Root(Child(t, !dir))
      && y.ref.Link(!dir) == Root(z) && y.ref.Link(dir) == Root(Child(y, dir)) && (z.Node? ==> z.ref.h == z.h)
      && Apart(Child(t, !dir), t.ref, y.ref, y.ref) && Apart(z, t.ref, y.ref, y.ref)
      && Apart(Child(y, dir), t.ref, y.ref, y.ref)
  {
    var y := Child(t, dir);
    assert Linked(y) && Unshared(y) && Linked(Child(y, !dir));
    assert Nodes(y) == Nodes(y.left) + {y.ref} + Nodes(y.right);
  }

  /** A pointer variable that holds a node: the root, or a child field of a node. */
  datatype Slot = RootSlot | ChildSlot(node: AvlNode, dir: bool)

  ghost function SlotOf(c: NodeCtx): Slot {
    if c.Top? then RootSlot else ChildSlot(c.ref, c.dir)
  }

  /** The slots met on the way from the root to the hole. */
  ghost function Slots(c: NodeCtx): (s: seq<Slot>)
    ensures |s| == Depth(c) + 1
  {
    if c.Top? then [RootSlot] else Slots(c.up) + [SlotOf(c)]
  }

  lemma {:induction false} ComposeSlots(inner: NodeCtx, outer: NodeCtx)
    ensures Slots(Compose(inner, outer)) == Slots(outer) + Slots(inner)[1..]
  {
    if inner.Under? {
      ComposeSlots(inner.up, outer);
      assert Slots(inner)[1..] == Slots(inner.up)[1..] + [SlotOf(inner)];
    }
  }

  lemma SlotsStep(s: seq<Slot>, c: NodeCtx)
    requires c.Under? && s == Slots(c)
    ensures s[Depth(c) - 1] == SlotOf(c.up) && s[..Depth(c)] == Slots(c.up)
  {
  }

  ghost function Owner(s: Slot): set<AvlNode> {
    if s.RootSlot? then {} else {s.node}
  }

  const ADD_PATH := 96
  const DEL_PATH := 97
  const MAX_NODES := 0x1_0000_0000_0000_0000

  class AvlTree {
    var root: AvlNode?
    var count: int
    ghost var model: NodeTree

    ghost predicate Valid()
      reads this, Nodes(model)
    {
      && root == Root(model) && Linked(model) && Unshared(model)
      && Avl(model) && Ordered(Entries(model))
      && count == |Entries(model)|
    }

    constructor ()
      ensures Valid() && model == Leaf && count == 0
    {
      root, count, model := null, 0, Leaf;
    }

    function ReadSlot(s: Slot): AvlNode?
      reads this, if s.ChildSlot? then {s.node} else {}
    {
      match s
      case RootSlot => root
      case ChildSlot(n, dir) => n.Link(dir)
    }

    method WriteSlot(s: Slot, n: AvlNode?)
      modifies this`root
      modifies if s.ChildSlot? then {s.node} else {}
      ensures ReadSlot(s) == n
      ensures s.RootSlot? ==> root == n
      ensures s.ChildSlot? ==>
                && root == old(root) && s.node.Link(!s.dir) == old(s.node.Link(!s.dir))
                && s.node.key == old(s.node.key) && s.node.h == old(s.node.h)
    {
      match s
      case RootSlot => root := n;
      case ChildSlot(m, dir) => m.SetLink(dir, n);
    }

    /** A slot at the end of a path, filled with a new pointer. */
    method Refill(s: Slot, n: AvlNode?, ghost c: NodeCtx, ghost was: AvlNode?)
      requires s == SlotOf(c) && CtxUnshared(c) && CtxLinked(c, was, root)
      modifies this`root, Owner(s)
      ensures CtxLinked(c, n, root)
    {
      CtxAllocated(c);
      WriteSlot(s, n);
    }

    static function HeightOf(n: AvlNode?): int
      reads n
    {
      if n != null then n.h else 0
    }

    static method Restring(x: AvlNode, y: AvlNode, z: AvlNode, dir: bool)
      requires x != y && x != z && y != z
      modifies x, y, z
      ensures x.Link(!dir) == old(x.Link(!dir)) && x.Link(dir) == old(z.Link(!dir))
      ensures y.Link(dir) == old(y.Link(dir)) && y.Link(!dir) == old(z.Link(dir))
      ensures z.Link(!dir) == x && z.Link(dir) == y
      ensures x.h == old(z.h) && y.h == old(z.h) && z.h == old(z.h) + 1
      ensures x.key == old(x.key) && y.key == old(y.key) && z.key == old(z.key)
    {
      var hz := z.h;
      x.SetLink(dir, z.Link(!dir));
      y.SetLink(!dir, z.Link(dir));
      z.SetLink(!dir, x);
      z.SetLink(dir, y);
      x.h := hz;
      y.h := hz;
      z.h := hz + 1;
    }

    /** The two branches of the rotation, on the nodes alone. */
    static method RotateDouble(x: AvlNode, y: AvlNode, z: AvlNode, dir: bool, ghost t: NodeTree)
      requires t.Node? && Child(t, dir).Node? && Child(Child(t, dir), !dir).Node?
      requires t.ref == x && Child(t, dir).ref == y && Child(Child(t, dir), !dir).ref == z
      requires Linked(t) && Unshared(t)
      modifies x, y, z
      ensures Linked(DoubleRotation(t, dir))
    {
      ghost var ty := Child(t, dir);
      ghost var tz := Child(ty, !dir);
      ghost var a, b, c, d := Child(t, !dir), Child(tz, !dir), Child(tz, dir), Child(ty, dir);
      DoubleParts(t, dir);
      NodesAllocated(a); NodesAllocated(b); NodesAllocated(c); NodesAllocated(d);
      var hz := z.h;
      Restring(x, y, z, dir);
      JoinLinked(dir, a, x, t.key, hz, b);
      JoinLinked(!dir, d, y, ty.key, hz, c);
      JoinLinked(dir, Join(dir, a, x, t.key, hz, b), z, tz.key, hz + 1, Join(!dir, d, y, ty.key, hz, c));
    }

    static method RotateSingle(x: AvlNode, y: AvlNode, dir: bool, ghost t: NodeTree)
      requires t.Node? && Child(t, dir).Node?
      requires t.ref == x && Child(t, dir).ref == y
      requires Linked(t) && Unshared(t)
      modifies x, y
      ensures Linked(SingleRotation(t, dir))
    {
      ghost var ty := Child(t, dir);
      ghost var a, b, d := Child(t, !dir), Child(ty, !dir), Child(ty, dir);
      SingleParts(t, dir);
      NodesAllocated(a); NodesAllocated(b); NodesAllocated(d);
      hide Nodes, Unshared, Linked;
      var z := y.Link(!dir);
      var hz := HeightOf(z);
      x.SetLink(dir, z);
      y.SetLink(!dir, x);
      x.h := hz + 1;
      y.h := hz + 2;
      JoinLinked(dir, a, x, t.key, hz + 1, b);
      JoinLinked(dir, Join(dir, a, x, t.key, hz + 1, b), y, ty.key, hz + 2, d);
    }

    /** avl_rot: `*p` becomes the top of the rotated subtree; returns the change of height. */
    method Rotate(p: Slot, x: AvlNode, dir: bool, ghost c: NodeCtx, ghost t: NodeTree) returns (delta: int)
      requires p == SlotOf(c) && CtxUnshared(c) && CtxLinked(c, x, root)
      requires t.Node? && t.ref == x && Linked(t) && Unshared(t) && Nodes(t) !! CtxNodes(c)
      requires Child(t, dir).Node? && StoredHeight(Child(Child(t, dir), dir)) >= 0
      modifies this`root, Nodes(t), Owner(p)
      ensures Linked(Rotated(t, dir)) && CtxLinked(c, Root(Rotated(t, dir)), root)
      ensures delta == StoredHeight(Rotated(t, dir)) - t.h
    {
      hide Avl, Plug;
      NodesAllocated(t);
      CtxAllocated(c);
      ghost var ty := Child(t, dir);
      assert Linked(ty) && Linked(Child(ty, !dir)) && Linked(Child(ty, dir));
      var y := x.Link(dir);
      var z := y.Link(!dir);
      var hx := x.h;
      if HeightOf(z) > HeightOf(y.Link(dir)) {
        RotateDouble(x, y, z, dir, t);
      } else {
        RotateSingle(x, y, dir, t);
        z := y;
      }
      ghost var r := Rotated(t, dir);
      assert Linked(r) && Root(r) == z && z.h == r.h;
      RotatedKeepsContent(t, dir);
      CtxAllocated(c);
      NodesAllocated(r);
      Refill(p, z, c, x);
      delta := z.h - hx;
    }

    /** avl_tree_balance: updates the stored height or rotates; 0 means that the height is unchanged. */
    method Balance(p: Slot, ghost c: NodeCtx, ghost t: NodeTree) returns (delta: int)
      requires p == SlotOf(c) && CtxUnshared(c) && CtxLinked(c, Root(t), root)
      requires Repairable(t) && Linked(t) && Unshared(t) && Nodes(t) !! CtxNodes(c)
      modifies this`root, Nodes(t), Owner(p)
      ensures Linked(Balanced(t)) && CtxLinked(c, Root(Balanced(t)), root)
      ensures delta == StoredHeight(Balanced(t)) - t.h
    {
      hide Entries, Plug;
      NodesAllocated(t);
      CtxAllocated(c);
      HeightsNonnegative(t.left);
      HeightsNonnegative(t.right);
      var n := ReadSlot(p);
      assert Linked(t.left) && Linked(t.right);
      var h0, h1 := HeightOf(n.left), HeightOf(n.right);
      if 0 <= h0 - h1 + 1 < 3 {
        var was := n.h;
        n.h := if h0 < h1 then h1 + 1 else h0 + 1;
        return n.h - was;
      }
      HeightsNonnegative(Child(Child(t, h0 < h1), h0 < h1));
      delta := Rotate(p, n, h0 < h1, c, t);
    }

    method ClimbStep(p: Slot, ghost c: NodeCtx, ghost was: int, ghost t: NodeTree, ghost whole: NodeTree)
      returns (delta: int)
      requires c.Under? && p == SlotOf(c.up)
      requires Climbing(c, was, t, whole) && Linked(t) && CtxLinked(c, Root(t), root)
      modifies this`root, Nodes(whole)
      ensures var b := Balanced(Frame(c, t));
              && Climbing(c.up, c.h, b, whole) && Linked(b) && CtxLinked(c.up, Root(b), root)
              && delta == StoredHeight(b) - c.h
    {
      ClimbingFrame(c, was, t, whole);
      delta := Balance(p, c.up, Frame(c, t));
    }

    /** The rebalancing loop: from the slot a[lo + Depth(c)], just refilled with `t` where a subtree of
        height `h` was, up to the root or to the first ancestor whose height does not change. */
    method Climb(a: array<Slot>, lo: nat, last: nat, ghost c: NodeCtx, ghost h: int, ghost t: NodeTree)
      returns (ghost whole: NodeTree)
      requires last == lo + Depth(c) < a.Length && a[lo..last + 1] == Slots(c)
      requires Climbing(c, h, t, Plug(c, t)) && Linked(t) && CtxLinked(c, Root(t), root)
      modifies this`root, Nodes(Plug(c, t))
      ensures root == Root(whole) && Linked(whole) && Unshared(whole) && Avl(whole)
      ensures SameContent(Plug(c, t), whole)
    {
      hide Plug, CtxNodes, CtxUnshared, Entries, Nodes, Avl, Balanced, Unshared, CtxLinked, Linked;
      ghost var up, was, sub, path := c, h, t, a[..];
      var i := last;
      var changed := true;
      while i > lo && changed
        invariant lo <= i == lo + Depth(up) < a.Length
        invariant a[..] == path && path[lo..i + 1] == Slots(up)
        invariant Climbing(up, was, sub, Plug(c, t)) && (!changed ==> StoredHeight(sub) == was)
        invariant Linked(sub) && CtxLinked(up, Root(sub), root)
        decreases i
      {
        i := i - 1;
        SlotsStep(path[lo..i + 2], up);
        var delta := ClimbStep(a[i], up, was, sub, Plug(c, t));
        changed := delta != 0;
        was, up, sub := up.h, up.up, Balanced(Frame(up, sub));
        assert path[lo..i + 1] == path[lo..i + 2][..Depth(up) + 1];
      }
      whole := Plug(up, sub);
      PlugAvl(up, sub);
      PlugLinked(up, sub, root);
    }

    /** Stores `n`, the top of `t`, in the last slot of the path and rebalances its ancestors. */
    method Splice(a: array<Slot>, lo: nat, last: nat, n: AvlNode?, ghost c: NodeCtx, ghost h: int, ghost t: NodeTree,
                  ghost was: AvlNode?)
      returns (ghost whole: NodeTree)
      requires last == lo + Depth(c) < a.Length && a[lo..last + 1] == Slots(c)
      requires Climbing(c, h, t, Plug(c, t)) && CtxUnshared(c) && CtxNodes(c) !! Nodes(t)
      requires Linked(t) && n == Root(t) && CtxLinked(c, was, root)
      modifies this`root, CtxNodes(c), Nodes(t)
      ensures root == Root(whole) && Linked(whole) && Unshared(whole) && Avl(whole)
      ensures SameContent(Plug(c, t), whole)
    {
      CtxAllocated(c);
      NodesAllocated(t);
      PlugEntries(c, t);
      assert a[last] == a[lo..last + 1][Depth(c)] == SlotOf(c);
      Refill(a[last], n, c, was);
      whole := Climb(a, lo, last, c, h, t);
    }

    /** The descent with which both insertion and deletion start: records the slots it follows. */
    method Search(a: array<Slot>, lo: nat, key: int)
      returns (n: AvlNode?, i: nat, ghost c: NodeCtx, ghost sub: NodeTree)
      requires Valid() && |Entries(model)| < MAX_NODES
      requires lo + 92 <= a.Length && a[lo] == RootSlot
      modifies a
      ensures Valid() && Plug(c, sub) == model && n == Root(sub)
      ensures i == lo + Depth(c) + 1 && Depth(c) + Height(sub) <= 91 && a[lo..i] == Slots(c)
      ensures forall k :: 0 <= k < lo ==> a[k] == old(a[k])
      ensures Brackets(c, key)
      ensures n == null ==> !HasKey(Entries(model), key)
      ensures n != null ==>
        sub.Node? && sub.key == key && HasKey(Entries(model), key) && Linked(sub) && CtxLinked(c, n, root)
    {
      hide Plug, Before, After, CtxNodes, CtxUnshared, Avl, Brackets, HasKey, Unshared;
      NodesAllocated(model);
      HeightBound(model);
      NoContext(model, key);
      c, sub := Top, model;
      n := root;
      i := lo + 1;
      while n != null
        invariant Valid() && Plug(c, sub) == model && n == Root(sub)
        invariant i == lo + Depth(c) + 1 && Depth(c) + Height(sub) <= 91 && a[lo..i] == Slots(c)
        invariant forall k :: 0 <= k < lo ==> a[k] == old(a[k])
        invariant Brackets(c, key)
        decreases sub
      {
        PlugLinked(c, sub, root);
        if key == n.key {
          PluggedPresent(c, sub);
          return;
        }
        var dir := key > n.key;
        DescendBrackets(c, sub, key);
        DescendPlug(c, sub, dir);
        ghost var path := a[lo..i];
        a[i] := ChildSlot(n, dir);
        assert a[lo..i + 1] == path + [ChildSlot(n, dir)];
        c, sub := Descend(c, sub, dir), Child(sub, dir);
        PlugHeight(c, sub);
        i := i + 1;
        n := n.Link(dir);
      }
      BracketedAbsent(c, key);
    }

    /** A new node in the empty slot at the end of the path. */
    method Attach(a: array<Slot>, last: nat, key: int, ghost c: NodeCtx) returns (r: AvlNode, ghost whole: NodeTree)
      requires last == Depth(c) < a.Length && a[0..last + 1] == Slots(c)
      requires Avl(Plug(c, Leaf)) && Unshared(Plug(c, Leaf)) && CtxLinked(c, null, root)
      modifies this`root, CtxNodes(c)
      ensures fresh(r)
      ensures root == Root(whole) && Linked(whole) && Unshared(whole) && Avl(whole)
      ensures Entries(whole) == Before(c) + [Entry(r, key)] + After(c)
      ensures Nodes(whole) == CtxNodes(c) + {r}
    {
      CtxAllocated(c);
      r := new AvlNode(key);
      LeafStartsClimb(c, r, key);
      ghost var t := Node(Leaf, r, key, 1, Leaf);
      assert Nodes(t) == {r} && CtxUnshared(c) by { PlugLeaf(c); }
      whole := Splice(a, 0, last, r, c, 0, t, null);
    }

    /** Insertion below a path along which the key was not found. */
    method AddAbsent(a: array<Slot>, last: nat, key: int, ghost c: NodeCtx) returns (r: AvlNode, ghost pos: nat)
      requires Valid() && model == Plug(c, Leaf) && Brackets(c, key)
      requires last == Depth(c) < a.Length && a[0..last + 1] == Slots(c)
      modifies this, Nodes(model)
      ensures Valid() && r in Nodes(model)
      ensures fresh(r) && Nodes(model) == old(Nodes(model)) + {r}
      ensures InsertedAt(old(Entries(model)), Entries(model), pos, Entry(r, key))
    {
      PlugLinked(c, Leaf, root);
      PlugLeaf(c);
      ghost var before, after := Before(c), After(c);
      ghost var whole;
      r, whole := Attach(a, last, key, c);
      count := count + 1;
      model := whole;
      pos := |before|;
      InsertedBetween(before, Entry(r, key), after);
      BracketedOrder(before, Entry(r, key), after);
    }

    /** avl_tree_add: returns the node with the key, a new one if the tree had none. */
    method Add(key: int) returns (r: AvlNode, ghost pos: nat)
      requires Valid() && |Entries(model)| < MAX_NODES
      modifies this, Nodes(model)
      ensures Valid() && r in Nodes(model)
      ensures HasKey(old(Entries(model)), key) ==>
                model == old(model) && pos < |Entries(model)| && Entries(model)[pos] == Entry(r, key)
      ensures !HasKey(old(Entries(model)), key) ==>
                && fresh(r) && Nodes(model) == old(Nodes(model)) + {r}
                && InsertedAt(old(Entries(model)), Entries(model), pos, Entry(r, key))
                && Keys(Entries(model)) == Keys(old(Entries(model)))[..pos] + [key] + Keys(old(Entries(model)))[pos..]
    {
      var a := new Slot[ADD_PATH](_ => RootSlot);
      ghost var was := Entries(model);
      NodesAllocated(model);
      var n, i, c, sub := Search(a, 0, key);
      if n != null {
        PluggedPresent(c, sub);
        r, pos := n, |Before(c)| + |Entries(sub.left)|;
      } else {
        r, pos := AddAbsent(a, i - 1, key, c);
        InsertedKeys(was, Entries(model), pos, Entry(r, key));
      }
    }

    /** The walk from the left child of a node to its predecessor, extending the path. */
    method Predecessor(a: array<Slot>, lo: nat, first: nat, top: AvlNode, ghost outer: NodeCtx, ghost below: NodeTree)
      returns (n: AvlNode, i: nat, ghost d: NodeCtx, ghost p: NodeTree)
      requires Linked(below) && below.Node? && Root(below) == top
      requires first == lo + Depth(outer) + 1 && first + Height(below) <= a.Length && a[lo..first] == Slots(outer)
      modifies a
      ensures Plug(d, p) == below && p.Node? && p.right.Leaf? && After(d) == [] && n == p.ref
      ensures i == first + Depth(d) <= a.Length && a[lo..i] == Slots(Compose(d, outer))
    {
      NodesAllocated(below);
      d, p, n, i := Top, below, top, first;
      while n.right != null
        invariant Linked(below) && Plug(d, p) == below && p.Node? && After(d) == [] && n == p.ref
        invariant i == first + Depth(d) && i + Height(p) <= first + Height(below)
        invariant a[lo..i] == Slots(Compose(d, outer))
        decreases p
      {
        PlugLinked(d, p, top);
        ghost var path := a[lo..i];
        a[i] := ChildSlot(n, true);
        assert a[lo..i + 1] == path + [ChildSlot(n, true)];
        d, p := Descend(d, p, true), p.right;
        i := i + 1;
        n := n.right;
      }
      PlugLinked(d, p, top);
      ComposePlug(d, outer, p);
    }

    /** `n` leaves the tree: `child`, the top of `t`, goes into the slot at the end of the path. */
    method Unlink(a: array<Slot>, last: nat, n: AvlNode, child: AvlNode?, ghost c: NodeCtx, ghost h: int,
                  ghost t: NodeTree, ghost pos: nat)
      requires last == 1 + Depth(c) < a.Length && a[1..last + 1] == Slots(c)
      requires Climbing(c, h, t, Plug(c, t)) && CtxUnshared(c) && CtxNodes(c) !! Nodes(t)
      requires Linked(t) && child == Root(t) && CtxLinked(c, n, root)
      requires Nodes(model) == CtxNodes(c) + Nodes(t) + {n} && n !in CtxNodes(c) + Nodes(t)
      requires Ordered(Entries(model)) && count == |Entries(model)|
      requires RemovedAt(Entries(model), Entries(Plug(c, t)), pos, n)
      modifies this`root, this`count, this`model, CtxNodes(c), Nodes(t)
      ensures Valid() && Nodes(model) == old(Nodes(model)) - {n}
      ensures RemovedAt(old(Entries(model)), Entries(model), pos, n)
    {
      hide CtxUnshared, Entries, CtxLinked, Plug, Before, After, Avl, CtxNodes, Unshared, Linked;
      RemovedKeys(Entries(model), Entries(Plug(c, t)), pos, n);
      PlugEntries(c, t);
      model := Splice(a, 1, last, child, c, h, t, n);
      count := count - 1;
    }

    /** Deletion of a node without a left child. */
    method DelTop(a: array<Slot>, last: nat, n: AvlNode, ghost c: NodeCtx, ghost t: NodeTree)
      requires Valid() && model == Plug(c, t) && t.Node? && t.ref == n && t.left.Leaf?
      requires last == 1 + Depth(c) < a.Length && a[1..last + 1] == Slots(c)
      modifies this, Nodes(model)
      ensures Valid() && Nodes(model) == old(Nodes(model)) - {n}
      ensures RemovedAt(old(Entries(model)), Entries(model), |Before(c)| + |Entries(t.left)|, n)
    {
      PlugLinked(c, t, root);
      RemoveTop(c, t);
      RemoveTopEntries(c, t);
      var child := n.right;
      assert child == Root(t.right) && Linked(t.right);
      Unlink(a, last, n, child, c, t.h, t.right, |Before(c)|);
    }

    lemma RekeyedLinks(c: NodeCtx, t: NodeTree, d: NodeCtx, p: NodeTree)
      requires t.Node? && p.Node? && CtxLinked(c, t.ref, root)
      requires t.ref.key == p.key && t.ref.h == t.h && t.ref.right == Root(t.right) && Linked(t.right)
      requires CtxLinked(d, p.ref, t.ref.left)
      ensures CtxLinked(PredecessorCtx(c, t, d, p), p.ref, root)
    {
      ComposeLinked(d, Under(c, false, t.ref, p.key, t.h, t.right), p.ref, t.ref.left, root);
    }

    lemma RekeyedSlots(c: NodeCtx, t: NodeTree, d: NodeCtx, p: NodeTree)
      requires t.Node? && p.Node?
      ensures Slots(PredecessorCtx(c, t, d, p)) == Slots(Compose(d, Descend(c, t, false)))
      ensures Depth(PredecessorCtx(c, t, d, p)) == Depth(d) + 1 + Depth(c)
    {
      var outer := Under(c, false, t.ref, p.key, t.h, t.right);
      ComposeSlots(d, Descend(c, t, false));
      ComposeSlots(d, outer);
      ComposePlug(d, outer, p);
      assert Slots(outer) == Slots(Descend(c, t, false));
    }

    /** The key of the predecessor `p` overwrites the key of `n`. */
    method MoveKey(n: AvlNode, p: AvlNode, ghost c: NodeCtx, ghost t: NodeTree, ghost d: NodeCtx, ghost tp: NodeTree)
      requires t.Node? && t.ref == n && Linked(t) && CtxLinked(c, n, root) && Unshared(Plug(c, t))
      requires Plug(d, tp) == t.left && tp.Node? && tp.ref == p
      modifies n`key
      ensures CtxLinked(PredecessorCtx(c, t, d, tp), p, root)
      ensures Linked(tp.left) && p.left == Root(tp.left)
    {
      NodesAllocated(t);
      CtxAllocated(c);
      NodesAllocated(tp);
      CtxAllocated(d);
      PlugLinked(d, tp, n.left);
      PredecessorApart(c, t, d, tp);
      n.key := p.key;
      RekeyedLinks(c, t, d, tp);
    }

    /** Deletion of a node with a left child: its predecessor `p` gives up its key and is freed instead. */
    method DelPredecessor(a: array<Slot>, last: nat, n: AvlNode, p: AvlNode,
                          ghost c: NodeCtx, ghost t: NodeTree, ghost d: NodeCtx, ghost tp: NodeTree)
      requires Valid() && model == Plug(c, t) && t.Node? && t.ref == n
      requires Plug(d, tp) == t.left && tp.Node? && tp.right.Leaf? && After(d) == [] && tp.ref == p
      requires last == 1 + Depth(c) + 1 + Depth(d) < a.Length
      requires a[1..last + 1] == Slots(Compose(d, Descend(c, t, false)))
      modifies this, Nodes(model)
      ensures Valid() && Nodes(model) == old(Nodes(model)) - {p}
      ensures RemovedAt(old(Entries(model)), Entries(model), |Before(c)| + |Entries(t.left)|, p)
    {
      hide Plug, Before, After, CtxNodes, Entries, CtxUnshared, Avl, CtxLinked, PredecessorCtx, Climbing, RemovedAt;
      PlugLinked(c, t, root);
      ghost var full := PredecessorCtx(c, t, d, tp);
      assert n in Nodes(model) by { PluggedPresent(c, t); }
      MoveKey(n, p, c, t, d, tp);
      RemovePredecessorShape(c, t, d, tp);
      RemovePredecessorEntries(c, t, d, tp);
      RekeyedSlots(c, t, d, tp);
      var child := p.left;
      Unlink(a, last, p, child, full, tp.h, tp.left, |Before(c)| + |Entries(t.left)|);
    }

    /** The path goes on from the node found to its predecessor, which is freed in its place. */
    method DelWithLeft(a: array<Slot>, next: nat, n: AvlNode, ghost c: NodeCtx, ghost t: NodeTree)
      returns (ghost p: AvlNode)
      requires Valid() && model == Plug(c, t) && t.Node? && t.ref == n && t.left.Node?
      requires next == 2 + Depth(c) && next + Height(t) <= a.Length && a[1..next] == Slots(c)
      modifies this, Nodes(model), a
      ensures Valid() && Nodes(model) == old(Nodes(model)) - {p}
      ensures RemovedAt(old(Entries(model)), Entries(model), |Before(c)| + |Entries(t.left)|, p)
    {
      hide Plug, Before, After, CtxNodes, CtxUnshared, Avl, RemovedAt;
      NodesAllocated(model);
      ghost var path := a[1..next];
      a[next] := ChildSlot(n, false);
      assert a[1..next + 1] == path + [ChildSlot(n, false)];
      PlugLinked(c, t, root);
      var q, j, d, tp := Predecessor(a, 1, next + 1, n.left, Descend(c, t, false), t.left);
      p := q;
      DelPredecessor(a, j - 1, n, q, c, t, d, tp);
    }

    /** The pointer one slot up the path: the parent, or the root itself at the top. */
    method ParentOf(a: array<Slot>, i: nat, n: AvlNode, ghost c: NodeCtx) returns (parent: AvlNode)
      requires CtxLinked(c, n, root)
      requires i == 2 + Depth(c) <= a.Length && a[0] == RootSlot && a[1..i] == Slots(c)
      ensures parent == if c.Top? then n else c.ref
    {
      if i == 2 {
        parent := ReadSlot(a[0]);
      } else {
        SlotsStep(a[1..i], c);
        parent := ReadSlot(a[i - 2]);
      }
    }

    /** avl_tree_del: null if the key is absent, otherwise the parent of the node that held it. */
    method Del(key: int) returns (parent: AvlNode?, ghost freed: AvlNode?, ghost pos: nat)
      requires Valid() && |Entries(model)| < MAX_NODES
      modifies this, Nodes(model)
      ensures Valid()
      ensures parent == null <==> !HasKey(old(Entries(model)), key)
      ensures parent == null ==> model == old(model)
      ensures parent != null ==>
                && freed != null && Nodes(model) == old(Nodes(model)) - {freed}
                && RemovedAt(old(Entries(model)), Entries(model), pos, freed) && old(Entries(model))[pos].key == key
                && Keys(Entries(model)) == Keys(old(Entries(model)))[..pos] + Keys(old(Entries(model)))[pos + 1..]
      ensures parent != null ==>
                && pos < |old(Entries(model))|
                && var n := old(Entries(model))[pos].ref;
                   (parent == n && old(root) == n) || IsParent(old(model), parent, n)
    {
      hide Plug, Before, After, CtxNodes, Entries, CtxUnshared, Avl, CtxLinked, Unshared, RemovedAt, Brackets, HasKey;
      hide Keys, IsParent, Ordered;
      var a := new Slot[DEL_PATH](_ => RootSlot);
      freed, pos := null, 0;
      NodesAllocated(model);
      var n, i, c, sub := Search(a, 1, key);
      if n == null { return null, null, 0; }
      PluggedPresent(c, sub);
      ParentNode(c, sub);
      parent := ParentOf(a, i, n, c);
      ghost var was := Entries(model);
      pos := |Before(c)| + |Entries(sub.left)|;
      if n.left == null {
        freed := n;
        DelTop(a, i - 1, n, c, sub);
      } else {
        freed := DelWithLeft(a, i, n, c, sub);
      }
      RemovedKeys(was, Entries(model), pos, freed);
    }

    /** avl_tree_find: null if the key is absent. */
    method Find(key: int) returns (n: AvlNode?, ghost pos: nat)
      requires Valid()
      ensures n == null <==> !HasKey(Entries(model), key)
      ensures n != null ==> pos < |Entries(model)| && Entries(model)[pos].ref == n && Entries(model)[pos].key == key
    {
      ghost var c, sub := Top, model;
      n, pos := root, 0;
      while n != null
        invariant Valid() && Plug(c, sub) == model && n == Root(sub) && Brackets(c, key)
        decreases sub
      {
        PlugLinked(c, sub, root);
        if key == n.key {
          PluggedPresent(c, sub);
          pos := |Before(c)| + |Entries(sub.left)|;
          return;
        }
        DescendBrackets(c, sub, key);
        c, sub := Descend(c, sub, key > n.key), Child(sub, key > n.key);
        n := n.Link(key > n.key);
      }
      BracketedAbsent(c, key);
    }
  }
}
