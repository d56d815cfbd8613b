/** Binary trees with stored heights: the value that the linked nodes of the AVL tree stand for,
    the shapes the balancing code produces, and the one-hole contexts that describe a path of slots. */
module AvlSpec {

  /** `ref` is the identity of the node; `h` is the height stored in it, exact or not. */
  datatype Tree<R> = Leaf | Node(left: Tree<R>, ref: R, key: int, h: int, right: Tree<R>)

  datatype Entry<R> = Entry(ref: R, key: int)

  function Max(a: int, b: int): int {
    if a < b then b else a
  }

  function Min(a: int, b: int): int {
    if a < b then a else b
  }

  function StoredHeight<R>(t: Tree<R>): int {
    if t.Leaf? then 0 else t.h
  }

  function Height<R>(t: Tree<R>): nat {
    if t.Leaf? then 0 else 1 + Max(Height(t.left), Height(t.right))
  }

  function Entries<R>(t: Tree<R>): seq<Entry<R>> {
    if t.Leaf? then [] else Entries(t.left) + [Entry(t.ref, t.key)] + Entries(t.right)
  }

  ghost function Nodes<R>(t: Tree<R>): set<R> {
    if t.Leaf? then {} else Nodes(t.left) + {t.ref} + Nodes(t.right)
  }

  /** No node occurs twice. */
  ghost predicate Unshared<R>(t: Tree<R>) {
    t.Node? ==>
      && t.ref !in Nodes(t.left) && t.ref !in Nodes(t.right) && Nodes(t.left) !! Nodes(t.right)
      && Unshared(t.left) && Unshared(t.right)
  }

  ghost predicate Ordered<R>(s: seq<Entry<R>>) {
    forall i, j :: 0 <= i < j < |s| ==> s[i].key < s[j].key
  }

  /** Balanced at every node, with every stored height exact (see AvlHeight). */
  predicate Avl<R>(t: Tree<R>) {
    t.Node? ==>
      && Avl(t.left) && Avl(t.right)
      && t.h == 1 + Max(StoredHeight(t.left), StoredHeight(t.right))
      && -1 <= StoredHeight(t.left) - StoredHeight(t.right) <= 1
  }

  lemma {:induction false} AvlHeight<R>(t: Tree<R>)
    requires Avl(t)
    ensures StoredHeight(t) == Height(t)
    ensures t.Node? ==> (t.h == 1 <==> t.left.Leaf? && t.right.Leaf?)
  {
    if t.Node? {
      AvlHeight(t.left);
      AvlHeight(t.right);
    }
  }

  // ----- Balancing -----

  function Child<R>(t: Tree<R>, dir: bool): Tree<R>
    requires t.Node?
  {
    if dir then t.right else t.left
  }

  /** A node whose child on side `dir` is `inner` and whose other child is `outer`. */
  function Join<R>(dir: bool, outer: Tree<R>, ref: R, key: int, h: int, inner: Tree<R>): Tree<R> {
    if dir then Node(outer, ref, key, h, inner) else Node(inner, ref, key, h, outer)
  }

  /** x over y becomes y over x; the stored heights are computed from z, the inner grandchild. */
  function SingleRotation<R>(t: Tree<R>, dir: bool): Tree<R>
    requires t.Node? && Child(t, dir).Node?
  {
    var y := Child(t, dir);
    var z := Child(y, !dir);
    Join(dir,
         Join(dir, Child(t, !dir), t.ref, t.key, StoredHeight(z) + 1, z),
         y.ref, y.key, StoredHeight(z) + 2,
         Child(y, dir))
  }

  /** x over y over z becomes z over both. */
  function DoubleRotation<R>(t: Tree<R>, dir: bool): Tree<R>
    requires t.Node? && Child(t, dir).Node? && Child(Child(t, dir), !dir).Node?
  {
    var y := Child(t, dir);
    var z := Child(y, !dir);
    Join(dir,
         Join(dir, Child(t, !dir), t.ref, t.key, z.h, Child(z, !dir)),
         z.ref, z.key, z.h + 1,
         Join(!dir, Child(y, dir), y.ref, y.key, z.h, Child(z, dir)))
  }

  /** The rotation at x = t, whose deeper side is `dir`. */
  function Rotated<R>(t: Tree<R>, dir: bool): Tree<R>
    requires t.Node? && Child(t, dir).Node?
  {
    var z := Child(Child(t, dir), !dir);
    if z.Node? && z.h > StoredHeight(Child(Child(t, dir), dir))
    then DoubleRotation(t, dir)
    else SingleRotation(t, dir)
  }

  function Balanced<R>(t: Tree<R>): Tree<R>
    requires t.Node? && Avl(t.left) && Avl(t.right)
  {
    var h0, h1 := StoredHeight(t.left), StoredHeight(t.right);
    if -1 <= h0 - h1 <= 1 then t.(h := 1 + Max(h0, h1))
    else
      HeightsNonnegative(t.left); HeightsNonnegative(t.right);
      Rotated(t, h0 < h1)
  }

  lemma HeightsNonnegative<R>(t: Tree<R>)
    requires Avl(t)
    ensures StoredHeight(t) >= 0
    ensures t.Node? ==> StoredHeight(t) >= 1
  {
    AvlHeight(t);
  }

  /** Two trees over the same nodes in the same order. */
  ghost predicate SameContent<R>(t: Tree<R>, t': Tree<R>) {
    && Entries(t') == Entries(t)
    && Nodes(t') == Nodes(t)
    && (Unshared(t) ==> Unshared(t'))
  }

  lemma SingleKeepsContent<R>(t: Tree<R>, dir: bool)
    requires t.Node? && Child(t, dir).Node?
    ensures SameContent(t, SingleRotation(t, dir))
  {
    var y := Child(t, dir);
    var x', y' := [Entry(t.ref, t.key)], [Entry(y.ref, y.key)];
    var a, z', d := Entries(Child(t, !dir)), Entries(Child(y, !dir)), Entries(Child(y, dir));
    var r := SingleRotation(t, dir);
    assert Unshared(t) ==> Unshared(y);
    if dir {
      assert Entries(r.left) == a + x' + z' && Nodes(r.left) == Nodes(t.left) + {t.ref} + Nodes(y.left);
      assert a + x' + (z' + y' + d) == (a + x' + z') + y' + d;
      assert Unshared(t) ==> Unshared(r.left);
    } else {
      assert Entries(r.right) == z' + x' + a && Nodes(r.right) == Nodes(y.right) + {t.ref} + Nodes(t.right);
      assert (d + y' + z') + x' + a == d + y' + (z' + x' + a);
      assert Unshared(t) ==> Unshared(r.right);
    }
  }

  lemma DoubleEntries<R>(t: Tree<R>, dir: bool)
    requires t.Node? && Child(t, dir).Node? && Child(Child(t, dir), !dir).Node?
    ensures Entries(DoubleRotation(t, dir)) == Entries(t)
  {
    var y := Child(t, dir);
    var z := Child(y, !dir);
    var a, b, c, d := Entries(Child(t, !dir)), Entries(Child(z, !dir)), Entries(Child(z, dir)), Entries(Child(y, dir));
    var x', y', z' := [Entry(t.ref, t.key)], [Entry(y.ref, y.key)], [Entry(z.ref, z.key)];
    var r := DoubleRotation(t, dir);
    if dir {
      assert Entries(z) == b + z' + c && Entries(y) == (b + z' + c) + y' + d;
      assert Entries(r.left) == a + x' + b && Entries(r.right) == c + y' + d;
      assert a + x' + ((b + z' + c) + y' + d) == (a + x' + b) + z' + (c + y' + d);
    } else {
      assert Entries(z) == c + z' + b && Entries(y) == d + y' + (c + z' + b);
      assert Entries(r.right) == b + x' + a && Entries(r.left) == d + y' + c;
      assert (d + y' + (c + z' + b)) + x' + a == (d + y' + c) + z' + (b + x' + a);
    }
  }

  lemma DoubleKeepsContent<R>(t: Tree<R>, dir: bool)
    requires t.Node? && Child(t, dir).Node? && Child(Child(t, dir), !dir).Node?
    ensures SameContent(t, DoubleRotation(t, dir))
  {
    DoubleEntries(t, dir);
    var y := Child(t, dir);
    var z := Child(y, !dir);
    var na, nb, nc, nd := Nodes(Child(t, !dir)), Nodes(Child(z, !dir)), Nodes(Child(z, dir)), Nodes(Child(y, dir));
    assert Nodes(z) == nb + {z.ref} + nc;
    assert Nodes(y) == Nodes(z) + {y.ref} + nd;
    assert Nodes(t) == na + {t.ref} + Nodes(y);
    var r := DoubleRotation(t, dir);
    assert Nodes(Child(r, !dir)) == na + {t.ref} + nb;
    assert Nodes(Child(r, dir)) == nc + {y.ref} + nd;
    if Unshared(t) {
      assert Unshared(y) && Unshared(z);
      assert Unshared(Child(r, !dir));
      assert Unshared(Child(r, dir));
    }
  }

  lemma RotatedKeepsContent<R>(t: Tree<R>, dir: bool)
    requires t.Node? && Child(t, dir).Node?
    ensures SameContent(t, Rotated(t, dir))
  {
    var z := Child(Child(t, dir), !dir);
    if z.Node? && z.h > StoredHeight(Child(Child(t, dir), dir)) {
      DoubleKeepsContent(t, dir);
    } else {
      SingleKeepsContent(t, dir);
    }
  }

  /** What is known of a node whose side `dir` is two higher. */
  ghost predicate LeansBy2<R>(t: Tree<R>, dir: bool) {
    && t.Node? && Avl(Child(t, dir)) && Avl(Child(t, !dir))
    && Child(t, dir).Node?
    && StoredHeight(Child(t, dir)) == StoredHeight(Child(t, !dir)) + 2
  }

  lemma JoinIsAvl<R>(dir: bool, outer: Tree<R>, ref: R, key: int, h: int, inner: Tree<R>)
    requires Avl(outer) && Avl(inner) && -1 <= StoredHeight(outer) - StoredHeight(inner) <= 1
    requires h == 1 + Max(StoredHeight(outer), StoredHeight(inner))
    ensures Avl(Join(dir, outer, ref, key, h, inner))
  {
  }

  lemma SingleIsAvl<R>(t: Tree<R>, dir: bool)
    requires LeansBy2(t, dir)
    requires StoredHeight(Child(Child(t, dir), !dir)) <= StoredHeight(Child(Child(t, dir), dir))
    ensures Avl(SingleRotation(t, dir))
    ensures StoredHeight(Child(t, dir)) <= StoredHeight(SingleRotation(t, dir)) <= StoredHeight(Child(t, dir)) + 1
  {
    var y := Child(t, dir);
    var z := Child(y, !dir);
    var hz := StoredHeight(z);
    JoinIsAvl(dir, Child(t, !dir), t.ref, t.key, hz + 1, z);
    JoinIsAvl(dir, Join(dir, Child(t, !dir), t.ref, t.key, hz + 1, z), y.ref, y.key, hz + 2, Child(y, dir));
  }

  lemma DoubleIsAvl<R>(t: Tree<R>, dir: bool)
    requires LeansBy2(t, dir) && Child(Child(t, dir), !dir).Node?
    requires StoredHeight(Child(Child(t, dir), !dir)) > StoredHeight(Child(Child(t, dir), dir))
    ensures Avl(DoubleRotation(t, dir))
    ensures StoredHeight(DoubleRotation(t, dir)) == StoredHeight(Child(t, dir))
  {
    var y := Child(t, dir);
    var z := Child(y, !dir);
    var low := Join(dir, Child(t, !dir), t.ref, t.key, z.h, Child(z, !dir));
    var high := Join(!dir, Child(y, dir), y.ref, y.key, z.h, Child(z, dir));
    assert Avl(y) && Avl(z);
    JoinIsAvl(dir, Child(t, !dir), t.ref, t.key, z.h, Child(z, !dir));
    JoinIsAvl(!dir, Child(y, dir), y.ref, y.key, z.h, Child(z, dir));
    JoinIsAvl(dir, low, z.ref, z.key, z.h + 1, high);
  }

  /** A node that may be out of balance by two, with balanced children. */
  predicate Repairable<R>(t: Tree<R>) {
    && t.Node? && Avl(t.left) && Avl(t.right)
    && -2 <= StoredHeight(t.left) - StoredHeight(t.right) <= 2
  }

  /** Balancing keeps the in-order sequence and, when the children are at most two apart, restores
      the invariant at this node; the height lost to a rotation is at most one. */
  lemma BalancedIsAvl<R>(t: Tree<R>)
    requires Repairable(t)
    ensures Avl(Balanced(t))
    ensures SameContent(t, Balanced(t))
    ensures var full := 1 + Max(StoredHeight(t.left), StoredHeight(t.right));
            full - 1 <= StoredHeight(Balanced(t)) <= full
  {
    var h0, h1 := StoredHeight(t.left), StoredHeight(t.right);
    if !(-1 <= h0 - h1 <= 1) {
      var dir := h0 < h1;
      HeightsNonnegative(t.left);
      HeightsNonnegative(t.right);
      HeightsNonnegative(Child(Child(t, dir), dir));
      var z := Child(Child(t, dir), !dir);
      if z.Node? && z.h > StoredHeight(Child(Child(t, dir), dir)) {
        DoubleIsAvl(t, dir);
      } else {
        SingleIsAvl(t, dir);
      }
      RotatedKeepsContent(t, dir);
    }
  }

  /** The height of a node after balancing, from the heights of its children. */
  lemma BalancedHeight<R>(t: Tree<R>)
    requires Repairable(t)
    ensures var low := Min(StoredHeight(t.left), StoredHeight(t.right));
            var high := Max(StoredHeight(t.left), StoredHeight(t.right));
            if high - low <= 1 then StoredHeight(Balanced(t)) == high + 1
            else high <= StoredHeight(Balanced(t)) <= high + 1
  {
    BalancedIsAvl(t);
  }

  // ----- Contexts -----

  /** A tree with one hole, innermost frame first: the hole is the child on side `dir` of `ref`. */
  datatype Ctx<R> = Top | Under(up: Ctx<R>, dir: bool, ref: R, key: int, h: int, sib: Tree<R>)

  function Depth<R>(c: Ctx<R>): nat {
    if c.Top? then 0 else 1 + Depth(c.up)
  }

  function Frame<R>(c: Ctx<R>, t: Tree<R>): Tree<R>
    requires c.Under?
  {
    Join(c.dir, c.sib, c.ref, c.key, c.h, t)
  }

  function Plug<R>(c: Ctx<R>, t: Tree<R>): Tree<R> {
    if c.Top? then t else Plug(c.up, Frame(c, t))
  }

  ghost function CtxNodes<R>(c: Ctx<R>): set<R> {
    if c.Top? then {} else CtxNodes(c.up) + {c.ref} + Nodes(c.sib)
  }

  ghost predicate CtxUnshared<R>(c: Ctx<R>) {
    c.Under? ==>
      && c.ref !in Nodes(c.sib) && c.ref !in CtxNodes(c.up) && Nodes(c.sib) !! CtxNodes(c.up)
      && Unshared(c.sib) && CtxUnshared(c.up)
  }

  /** What stands before the hole in order. */
  function Before<R>(c: Ctx<R>): seq<Entry<R>> {
    if c.Top? then []
    else if c.dir then Before(c.up) + Entries(c.sib) + [Entry(c.ref, c.key)]
    else Before(c.up)
  }

  /** What stands after the hole in order. */
  function After<R>(c: Ctx<R>): seq<Entry<R>> {
    if c.Top? then []
    else if c.dir then After(c.up)
    else [Entry(c.ref, c.key)] + Entries(c.sib) + After(c.up)
  }

  lemma FrameEntries<R>(c: Ctx<R>, t: Tree<R>)
    requires c.Under?
    ensures var s, e, x := Entries(c.sib), Entries(t), [Entry(c.ref, c.key)];
      && Plug(c, t) == Plug(c.up, Frame(c, t))
      && Entries(Frame(c, t)) == (if c.dir then s + x + e else e + x + s)
      && Before(c) == (if c.dir then Before(c.up) + s + x else Before(c.up))
      && After(c) == (if c.dir then After(c.up) else x + s + After(c.up))
  {
  }

  lemma InnerLast<T>(b: seq<T>, s: seq<T>, x: seq<T>, e: seq<T>, a: seq<T>)
    ensures b + (s + x + e) + a == (b + s + x) + e + a
  {
  }

  lemma InnerFirst<T>(b: seq<T>, e: seq<T>, x: seq<T>, s: seq<T>, a: seq<T>)
    ensures b + (e + x + s) + a == b + e + (x + s + a)
  {
  }

  lemma {:induction false} PlugSequence<R>(c: Ctx<R>, t: Tree<R>)
    ensures Entries(Plug(c, t)) == Before(c) + Entries(t) + After(c)
  {
    if c.Under? {
      PlugSequence(c.up, Frame(c, t));
      FrameEntries(c, t);
      hide Plug, Entries, Before, After;
      var b, a, s, e, x := Before(c.up), After(c.up), Entries(c.sib), Entries(t), [Entry(c.ref, c.key)];
      if c.dir { InnerLast(b, s, x, e, a); } else { InnerFirst(b, e, x, s, a); }
    } else {
      assert [] + Entries(t) + [] == Entries(t);
    }
  }

  lemma {:induction false} PlugNodes<R>(c: Ctx<R>, t: Tree<R>)
    ensures Nodes(Plug(c, t)) == CtxNodes(c) + Nodes(t)
    ensures Unshared(Plug(c, t)) <==> CtxUnshared(c) && Unshared(t) && CtxNodes(c) !! Nodes(t)
  {
    if c.Under? { PlugNodes(c.up, Frame(c, t)); }
  }

  lemma PlugEntries<R>(c: Ctx<R>, t: Tree<R>)
    ensures Entries(Plug(c, t)) == Before(c) + Entries(t) + After(c)
    ensures Nodes(Plug(c, t)) == CtxNodes(c) + Nodes(t)
    ensures Unshared(Plug(c, t)) <==> CtxUnshared(c) && Unshared(t) && CtxNodes(c) !! Nodes(t)
  {
    PlugSequence(c, t);
    PlugNodes(c, t);
  }

  lemma PlugLeaf<R>(c: Ctx<R>)
    ensures Entries(Plug(c, Leaf)) == Before(c) + After(c)
    ensures Nodes(Plug(c, Leaf)) == CtxNodes(c)
    ensures Unshared(Plug(c, Leaf)) <==> CtxUnshared(c)
  {
    PlugEntries(c, Leaf);
    assert Before(c) + [] + After(c) == Before(c) + After(c);
  }

  /** All that the frames say about heights when a subtree of stored height `h` fills the hole. */
  predicate CtxAvl<R>(c: Ctx<R>, h: int) {
    c.Under? ==>
      && Avl(c.sib)
      && c.h == 1 + Max(StoredHeight(c.sib), h)
      && -1 <= StoredHeight(c.sib) - h <= 1
      && CtxAvl(c.up, c.h)
  }

  /** A subtree may be replaced by any other balanced one of the same height. */
  lemma {:induction false} PlugAvl<R>(c: Ctx<R>, t: Tree<R>)
    ensures Avl(Plug(c, t)) <==> Avl(t) && CtxAvl(c, StoredHeight(t))
  {
    if c.Under? {
      PlugAvl(c.up, Frame(c, t));
    }
  }

  /** Rebalancing climbs one frame: the subtree in the hole has changed from height `h` by at most
      one, so the frame's tree is repairable and its own height changes by at most one in turn. */
  lemma ClimbOneFrame<R>(c: Ctx<R>, h: int, t: Tree<R>)
    requires c.Under? && CtxAvl(c, h)
    requires Avl(t) && -1 <= StoredHeight(t) - h <= 1
    ensures Repairable(Frame(c, t)) && Frame(c, t).h == c.h
    ensures -1 <= StoredHeight(Balanced(Frame(c, t))) - c.h <= 1
    ensures CtxAvl(c.up, c.h)
  {
    hide Balanced, Entries, Nodes, Unshared;
    var n := Frame(c, t);
    assert Repairable(n);
    BalancedHeight(n);
  }

  /** The state of the climb: `t` fills the hole of `c` where a subtree of height `was` has been, and
      the whole tree is still made of the entries of `whole`. */
  ghost predicate Climbing<R>(c: Ctx<R>, was: int, t: Tree<R>, whole: Tree<R>) {
    && CtxAvl(c, was) && Avl(t) && -1 <= StoredHeight(t) - was <= 1
    && Unshared(whole) && SameContent(whole, Plug(c, t))
  }

  lemma ClimbingFrame<R>(c: Ctx<R>, was: int, t: Tree<R>, whole: Tree<R>)
    requires c.Under? && Climbing(c, was, t, whole)
    ensures Repairable(Frame(c, t)) && Frame(c, t).h == c.h && Unshared(Frame(c, t))
    ensures CtxUnshared(c.up) && CtxNodes(c.up) !! Nodes(Frame(c, t))
    ensures CtxNodes(c.up) + Nodes(Frame(c, t)) == Nodes(whole)
    ensures Climbing(c.up, c.h, Balanced(Frame(c, t)), whole)
  {
    var n := Frame(c, t);
    ClimbOneFrame(c, was, t);
    PlugEntries(c.up, n);
    BalancedIsAvl(n);
    PlugEntries(c.up, Balanced(n));
  }

  /** The context `inner` placed in the hole of `outer`. */
  function Compose<R>(inner: Ctx<R>, outer: Ctx<R>): Ctx<R> {
    if inner.Top? then outer else inner.(up := Compose(inner.up, outer))
  }

  lemma {:induction false} ComposePlug<R>(inner: Ctx<R>, outer: Ctx<R>, t: Tree<R>)
    ensures Plug(Compose(inner, outer), t) == Plug(outer, Plug(inner, t))
    ensures Depth(Compose(inner, outer)) == Depth(inner) + Depth(outer)
    ensures CtxNodes(Compose(inner, outer)) == CtxNodes(inner) + CtxNodes(outer)
  {
    if inner.Under? {
      ComposePlug(inner.up, outer, Frame(inner, t));
    }
  }

  // ----- Searching -----

  ghost predicate HasKey<R>(s: seq<Entry<R>>, key: int) {
    exists i :: 0 <= i < |s| && s[i].key == key
  }

  /** Every key before the hole is below `key` and every key after it is above. */
  ghost predicate Brackets<R>(c: Ctx<R>, key: int) {
    && (forall i :: 0 <= i < |Before(c)| ==> Before(c)[i].key < key)
    && (forall i :: 0 <= i < |After(c)| ==> key < After(c)[i].key)
  }

  /** The context one level further down on side `dir`. */
  function Descend<R>(c: Ctx<R>, t: Tree<R>, dir: bool): Ctx<R>
    requires t.Node?
  {
    Under(c, dir, t.ref, t.key, t.h, Child(t, !dir))
  }

  lemma NoContext<R>(t: Tree<R>, key: int)
    ensures Plug(Top, t) == t && Brackets<R>(Top, key)
  {
  }

  lemma DescendPlug<R>(c: Ctx<R>, t: Tree<R>, dir: bool)
    requires t.Node?
    ensures Plug(Descend(c, t, dir), Child(t, dir)) == Plug(c, t)
  {
  }

  /** An ordered sequence cut in three is ordered within and across the parts. */
  lemma OrderedParts<R>(a: seq<Entry<R>>, x: Entry<R>, b: seq<Entry<R>>)
    requires Ordered(a + [x] + b)
    ensures forall i :: 0 <= i < |a| ==> a[i].key < x.key
    ensures forall i :: 0 <= i < |b| ==> x.key < b[i].key
  {
    var s := a + [x] + b;
    assert s[|a|] == x;
    forall i | 0 <= i < |a| ensures a[i].key < x.key { assert s[i] == a[i]; }
    forall i | 0 <= i < |b| ensures x.key < b[i].key { assert s[|a| + 1 + i] == b[i]; }
  }

  /** A key on one side of an entry: the entries on its other side are out of the way. */
  lemma OneSide<R>(a: seq<Entry<R>>, l: seq<Entry<R>>, x: Entry<R>, r: seq<Entry<R>>, b: seq<Entry<R>>)
    requires Ordered(a + (l + [x] + r) + b)
    ensures forall i :: 0 <= i < |l| ==> l[i].key < x.key
    ensures forall i :: 0 <= i < |r| ==> x.key < r[i].key
  {
    Regroup(a, l, [x], r, b);
    var before, after := a + l, r + b;
    assert a + l + [x] + (r + b) == before + [x] + after;
    OrderedParts(before, x, after);
    forall i | 0 <= i < |l| ensures l[i].key < x.key { assert before[|a| + i] == l[i]; }
    forall i | 0 <= i < |r| ensures x.key < r[i].key { assert after[i] == r[i]; }
  }

  lemma DescendBrackets<R>(c: Ctx<R>, t: Tree<R>, key: int)
    requires t.Node? && Ordered(Entries(Plug(c, t))) && Brackets(c, key) && key != t.key
    ensures Brackets(Descend(c, t, key > t.key), key)
  {
    hide Plug, Nodes, CtxNodes, Unshared, CtxUnshared, Ordered;
    PlugSequence(c, t);
    OneSide(Before(c), Entries(t.left), Entry(t.ref, t.key), Entries(t.right), After(c));
  }

  /** An entry between the two sides of a bracket keeps the order. */
  lemma BracketedOrder<R>(a: seq<Entry<R>>, x: Entry<R>, b: seq<Entry<R>>)
    requires Ordered(a + b)
    requires forall i :: 0 <= i < |a| ==> a[i].key < x.key
    requires forall i :: 0 <= i < |b| ==> x.key < b[i].key
    ensures Ordered(a + [x] + b)
  {
    var s := a + [x] + b;
    forall i, j | 0 <= i < j < |s| ensures s[i].key < s[j].key {
      var i', j' := if i < |a| then i else i - 1, if j < |a| then j else j - 1;
      if i != |a| && j != |a| {
        assert (a + b)[i'].key < (a + b)[j'].key;
      }
    }
  }

  /** `s'` is `s` with `x` put in at `pos`. */
  ghost predicate InsertedAt<R>(s: seq<Entry<R>>, s': seq<Entry<R>>, pos: nat, x: Entry<R>) {
    pos <= |s| && s' == s[..pos] + [x] + s[pos..]
  }

  lemma InsertedBetween<R>(a: seq<Entry<R>>, x: Entry<R>, b: seq<Entry<R>>)
    ensures InsertedAt(a + b, a + [x] + b, |a|, x)
  {
    assert (a + b)[..|a|] == a && (a + b)[|a|..] == b;
  }

  /** A key bracketed by a hole that is empty is absent; one found in the hole's tree is present. */
  lemma BracketedAbsent<R>(c: Ctx<R>, key: int)
    requires Brackets(c, key)
    ensures !HasKey(Entries(Plug(c, Leaf)), key)
  {
    PlugEntries(c, Leaf);
  }

  lemma MiddleAt<T>(a: seq<T>, l: seq<T>, x: T, r: seq<T>, b: seq<T>)
    ensures (a + (l + [x] + r) + b)[|a| + |l|] == x
  {
  }

  lemma PluggedPresent<R>(c: Ctx<R>, t: Tree<R>)
    requires t.Node?
    ensures var pos := |Before(c)| + |Entries(t.left)|;
            pos < |Entries(Plug(c, t))| && Entries(Plug(c, t))[pos] == Entry(t.ref, t.key)
    ensures t.ref in Nodes(Plug(c, t)) && HasKey(Entries(Plug(c, t)), t.key)
  {
    hide Plug, Before, After, CtxNodes, Unshared, CtxUnshared;
    PlugSequence(c, t);
    PlugNodes(c, t);
    var a, l, x, r, b := Before(c), Entries(t.left), Entry(t.ref, t.key), Entries(t.right), After(c);
    assert Entries(t) == l + [x] + r;
    hide Entries, Nodes;
    MiddleAt(a, l, x, r, b);
    assert Entries(Plug(c, t))[|a| + |l|].key == t.key;
  }

  /** `n` is a child of `p`. */
  ghost predicate IsParent<R>(t: Tree<R>, p: R, n: R) {
    t.Node? &&
    (|| (t.ref == p && ((t.left.Node? && t.left.ref == n) || (t.right.Node? && t.right.ref == n)))
     || IsParent(t.left, p, n) || IsParent(t.right, p, n))
  }

  lemma {:induction false} ParentInPlug<R>(c: Ctx<R>, t: Tree<R>, p: R, n: R)
    requires IsParent(t, p, n)
    ensures IsParent(Plug(c, t), p, n)
  {
    if c.Under? { ParentInPlug(c.up, Frame(c, t), p, n); }
  }

  /** The node above the hole is the parent of what fills it. */
  lemma ParentNode<R>(c: Ctx<R>, t: Tree<R>)
    requires t.Node?
    ensures if c.Top? then Plug(c, t) == t else IsParent(Plug(c, t), c.ref, t.ref)
  {
    if c.Under? { ParentInPlug(c.up, Frame(c, t), c.ref, t.ref); }
  }

  /** Filling the empty hole with a one-node tree starts a climb. */
  lemma LeafStartsClimb<R>(c: Ctx<R>, ref: R, key: int)
    requires Avl(Plug(c, Leaf)) && Unshared(Plug(c, Leaf)) && ref !in CtxNodes(c)
    ensures var t := Node(Leaf, ref, key, 1, Leaf);
            && Climbing(c, 0, t, Plug(c, t))
            && Entries(Plug(c, t)) == Before(c) + [Entry(ref, key)] + After(c)
            && Nodes(Plug(c, t)) == CtxNodes(c) + {ref}
  {
    var t := Node(Leaf, ref, key, 1, Leaf);
    PlugAvl(c, Leaf);
    PlugEntries(c, Leaf);
    PlugEntries(c, t);
    assert Entries(t) == [Entry(ref, key)];
  }

  // ----- Deletion -----

  /** `s'` is `s` without the key at `pos`. Either that entry is gone, or the key before it has moved
      into its node and the node before it is gone; `freed` is the node that left. */
  ghost predicate RemovedAt<R>(s: seq<Entry<R>>, s': seq<Entry<R>>, pos: nat, freed: R) {
    && pos < |s|
    && ((freed == s[pos].ref && s' == s[..pos] + s[pos + 1..])
        || (pos > 0 && freed == s[pos - 1].ref
            && s' == s[..pos - 1] + [Entry(s[pos].ref, s[pos - 1].key)] + s[pos + 1..]))
  }

  function Keys<R>(s: seq<Entry<R>>): seq<int> {
    seq(|s|, i requires 0 <= i < |s| => s[i].key)
  }

  /** Either way the sequence of keys loses exactly one element, and stays ordered. */
  lemma RemovedKeys<R>(s: seq<Entry<R>>, s': seq<Entry<R>>, pos: nat, freed: R)
    requires RemovedAt(s, s', pos, freed)
    ensures Keys(s') == Keys(s)[..pos] + Keys(s)[pos + 1..] && |s'| == |s| - 1
    ensures Ordered(s) ==> Ordered(s')
  {
    forall i | 0 <= i < |s'|
      ensures s'[i].key == s[if i < pos then i else i + 1].key
    {
    }
    assert Keys(s') == Keys(s)[..pos] + Keys(s)[pos + 1..];
  }

  lemma InsertedKeys<R>(s: seq<Entry<R>>, s': seq<Entry<R>>, pos: nat, x: Entry<R>)
    requires InsertedAt(s, s', pos, x)
    ensures Keys(s') == Keys(s)[..pos] + [x.key] + Keys(s)[pos..]
  {
  }

  lemma CutOne<R>(s: seq<Entry<R>>, s': seq<Entry<R>>, a: seq<Entry<R>>, x: Entry<R>, b: seq<Entry<R>>)
    requires s == a + [x] + b && s' == a + b
    ensures RemovedAt(s, s', |a|, x.ref)
  {
    assert s[..|a|] == a && s[|a| + 1..] == b;
  }

  lemma CutTwo<R>(s: seq<Entry<R>>, s': seq<Entry<R>>, a: seq<Entry<R>>, x: Entry<R>, y: Entry<R>, b: seq<Entry<R>>)
    requires s == a + [x] + [y] + b && s' == a + [Entry(y.ref, x.key)] + b
    ensures RemovedAt(s, s', |a| + 1, x.ref)
  {
    assert s[..|a|] == a && s[|a| + 2..] == b;
  }

  lemma Regroup<T>(a: seq<T>, b: seq<T>, c: seq<T>, d: seq<T>, e: seq<T>)
    ensures a + (b + c + d) + e == a + b + c + (d + e)
  {
  }

  /** The node has no left child: its right child takes its place. */
  lemma RemoveTop<R>(c: Ctx<R>, t: Tree<R>)
    requires t.Node? && t.left.Leaf? && Avl(Plug(c, t)) && Unshared(Plug(c, t))
    ensures Climbing(c, t.h, t.right, Plug(c, t.right))
    ensures CtxUnshared(c) && CtxNodes(c) !! Nodes(t.right)
    ensures Nodes(Plug(c, t)) == CtxNodes(c) + Nodes(t.right) + {t.ref}
    ensures t.ref !in CtxNodes(c) + Nodes(t.right)
  {
    PlugAvl(c, t);
    HeightsNonnegative(t.right);
    PlugEntries(c, t);
    PlugEntries(c, t.right);
  }

  lemma RegroupHead<T>(a: seq<T>, b: seq<T>, c: seq<T>, d: seq<T>)
    ensures a + (b + c) + d == a + b + (c + d)
  {
  }

  lemma RegroupTail<T>(a: seq<T>, b: seq<T>, c: seq<T>)
    ensures a + b + c == a + (b + c)
  {
  }

  lemma TopWithoutLeft<R>(t: Tree<R>)
    requires t.Node? && t.left.Leaf?
    ensures Entries(t) == [Entry(t.ref, t.key)] + Entries(t.right)
  {
  }

  lemma RemoveTopEntries<R>(c: Ctx<R>, t: Tree<R>)
    requires t.Node? && t.left.Leaf?
    ensures RemovedAt(Entries(Plug(c, t)), Entries(Plug(c, t.right)), |Before(c)|, t.ref)
  {
    PlugEntries(c, t);
    PlugEntries(c, t.right);
    TopWithoutLeft(t);
    RegroupHead(Before(c), [Entry(t.ref, t.key)], Entries(t.right), After(c));
    RegroupTail(Before(c), Entries(t.right), After(c));
    CutOne(Entries(Plug(c, t)), Entries(Plug(c, t.right)), Before(c), Entry(t.ref, t.key), Entries(t.right) + After(c));
  }

  /** The context left when the predecessor `p` of the node t, found at the end of `d` in t's left
      subtree, is unlinked and its key moves up into t. */
  function PredecessorCtx<R>(c: Ctx<R>, t: Tree<R>, d: Ctx<R>, p: Tree<R>): Ctx<R>
    requires t.Node? && p.Node?
  {
    Compose(d, Under(c, false, t.ref, p.key, t.h, t.right))
  }

  lemma PredecessorPlug<R>(c: Ctx<R>, t: Tree<R>, d: Ctx<R>, p: Tree<R>, q: Tree<R>)
    requires t.Node? && p.Node?
    ensures Plug(PredecessorCtx(c, t, d, p), q) == Plug(c, Node(Plug(d, q), t.ref, p.key, t.h, t.right))
    ensures CtxNodes(PredecessorCtx(c, t, d, p)) == CtxNodes(d) + CtxNodes(c) + {t.ref} + Nodes(t.right)
  {
    ComposePlug(d, Under(c, false, t.ref, p.key, t.h, t.right), q);
  }

  lemma RekeyedShape<R>(c: Ctx<R>, t: Tree<R>, key: int)
    requires t.Node?
    ensures Avl(Plug(c, t.(key := key))) <==> Avl(Plug(c, t))
    ensures Unshared(Plug(c, t.(key := key))) <==> Unshared(Plug(c, t))
  {
    PlugAvl(c, t);
    PlugAvl(c, t.(key := key));
    PlugEntries(c, t);
    PlugEntries(c, t.(key := key));
  }

  lemma RemovePredecessorShape<R>(c: Ctx<R>, t: Tree<R>, d: Ctx<R>, p: Tree<R>)
    requires t.Node? && Plug(d, p) == t.left && p.Node? && p.right.Leaf?
    requires Avl(Plug(c, t)) && Unshared(Plug(c, t))
    ensures var full := PredecessorCtx(c, t, d, p);
            && Climbing(full, p.h, p.left, Plug(full, p.left))
            && CtxUnshared(full) && CtxNodes(full) !! Nodes(p.left)
            && Nodes(Plug(c, t)) == CtxNodes(full) + Nodes(p.left) + {p.ref}
            && p.ref !in CtxNodes(full) + Nodes(p.left)
  {
    hide Plug, Before, After, CtxNodes, CtxUnshared, Entries, PredecessorCtx;
    var full := PredecessorCtx(c, t, d, p);
    RekeyedShape(c, t, p.key);
    PredecessorPlug(c, t, d, p, p);
    PlugAvl(full, p);
    PlugEntries(full, p);
    PlugEntries(full, p.left);
    HeightsNonnegative(p.left);
    PlugEntries(c, t);
    PlugEntries(c, t.(key := p.key));
  }

  /** The key written into t's node touches nothing else that the new tree is made of. */
  lemma PredecessorApart<R>(c: Ctx<R>, t: Tree<R>, d: Ctx<R>, p: Tree<R>)
    requires t.Node? && Plug(d, p) == t.left && p.Node? && Unshared(Plug(c, t))
    ensures t.ref !in CtxNodes(c) && t.ref !in CtxNodes(d) && t.ref !in Nodes(t.right) && t.ref !in Nodes(p)
  {
    PlugEntries(c, t);
    PlugEntries(d, p);
  }

  lemma PredecessorEntries<R>(d: Ctx<R>, p: Tree<R>)
    requires p.Node? && p.right.Leaf? && After(d) == []
    ensures Entries(Plug(d, p)) == Before(d) + Entries(p.left) + [Entry(p.ref, p.key)]
    ensures Entries(Plug(d, p.left)) == Before(d) + Entries(p.left)
  {
    hide Before, CtxNodes, Unshared, CtxUnshared, Nodes, Plug;
    PlugEntries(d, p);
    PlugEntries(d, p.left);
    assert Entries(p) == Entries(p.left) + [Entry(p.ref, p.key)];
  }

  /** The predecessor `x` of `y` leaves and its key moves into `y`. */
  lemma PredecessorOut<R>(b: seq<Entry<R>>, l: seq<Entry<R>>, x: Entry<R>, y: Entry<R>, r: seq<Entry<R>>,
                          a: seq<Entry<R>>)
    ensures RemovedAt(b + (l + [x] + [y] + r) + a, b + (l + [Entry(y.ref, x.key)] + r) + a, |b| + |l| + 1, x.ref)
  {
    hide RemovedAt;
    var z := Entry(y.ref, x.key);
    assert b + (l + [x] + [y] + r) + a == (b + l) + [x] + [y] + (r + a);
    assert b + (l + [z] + r) + a == (b + l) + [z] + (r + a);
    CutTwo(b + (l + [x] + [y] + r) + a, b + (l + [z] + r) + a, b + l, x, y, r + a);
  }

  lemma PredecessorMoved<R>(t: Tree<R>, t': Tree<R>, l: seq<Entry<R>>, x: Entry<R>)
    requires t.Node? && t'.Node? && Entries(t.left) == l + [x] && Entries(t'.left) == l
    requires t'.ref == t.ref && t'.key == x.key && t'.right == t.right
    ensures Entries(t) == l + [x] + [Entry(t.ref, t.key)] + Entries(t.right)
    ensures Entries(t') == l + [Entry(t.ref, x.key)] + Entries(t.right)
  {
  }

  lemma RemovePredecessorEntries<R>(c: Ctx<R>, t: Tree<R>, d: Ctx<R>, p: Tree<R>)
    requires t.Node? && Plug(d, p) == t.left && p.Node? && p.right.Leaf? && After(d) == []
    ensures RemovedAt(Entries(Plug(c, t)), Entries(Plug(PredecessorCtx(c, t, d, p), p.left)),
                      |Before(c)| + |Entries(t.left)|, p.ref)
  {
    hide Before, After, CtxNodes, Unshared, CtxUnshared, Nodes, Plug, PredecessorCtx, RemovedAt, Entries;
    PredecessorPlug(c, t, d, p, p.left);
    var t' := Node(Plug(d, p.left), t.ref, p.key, t.h, t.right);
    PlugSequence(c, t);
    PlugSequence(c, t');
    PredecessorEntries(d, p);
    var l, r := Before(d) + Entries(p.left), Entries(t.right);
    var x, y := Entry(p.ref, p.key), Entry(t.ref, t.key);
    PredecessorMoved(t, t', l, x);
    PredecessorOut(Before(c), l, x, y, r, After(c));
  }

  // ----- The Fibonacci bound -----

  function Fib(n: nat): nat {
    if n < 2 then n else Fib(n - 1) + Fib(n - 2)
  }

  lemma {:induction false} FibMonotone(a: nat, b: nat)
    requires a <= b
    ensures Fib(a) <= Fib(b)
  {
    if a < b {
      FibMonotone(a, b - 1);
      if b >= 2 { assert Fib(b) >= Fib(b - 1); }
    }
  }

  lemma EntriesCount<R>(t: Tree<R>)
    requires t.Node?
    ensures |Entries(t)| == |Entries(t.left)| + 1 + |Entries(t.right)|
  {
  }

  lemma FibStep(n: nat)
    ensures Fib(n + 2) == Fib(n + 1) + Fib(n)
  {
  }

  /** A balanced tree of height h has at least Fib(h+2) - 1 nodes. */
  lemma {:induction false} FibonacciBound<R>(t: Tree<R>)
    requires Avl(t)
    ensures |Entries(t)| + 1 >= Fib(Height(t) + 2)
  {
    hide Fib;
    if t.Leaf? {
      SmallFib();
    } else {
      FibonacciBound(t.left);
      FibonacciBound(t.right);
      EntriesCount(t);
      hide Entries;
      AvlHeight(t.left);
      AvlHeight(t.right);
      var h := Height(t);
      FibStep(h);
      if Height(t.left) >= Height(t.right) {
        FibMonotone(h, Height(t.right) + 2);
      } else {
        FibMonotone(h, Height(t.left) + 2);
      }
    }
  }

  lemma FibTenLater(n: nat)
    ensures Fib(n + 10) == 34 * Fib(n) + 55 * Fib(n + 1)
    ensures Fib(n + 11) == 55 * Fib(n) + 89 * Fib(n + 1)
  {
    assert Fib(n + 2) == Fib(n) + Fib(n + 1);
    assert Fib(n + 4) == 2 * Fib(n) + 3 * Fib(n + 1);
    assert Fib(n + 6) == 5 * Fib(n) + 8 * Fib(n + 1);
    assert Fib(n + 8) == 13 * Fib(n) + 21 * Fib(n + 1);
  }

  lemma SmallFib()
    ensures Fib(2) == 1 && Fib(4) == 3 && Fib(5) == 5
  {
  }

  lemma FibExceedsWord()
    ensures Fib(94) > 0x1_0000_0000_0000_0000
  {
    hide Fib;
    SmallFib();
    FibTenLater(4); FibTenLater(14); FibTenLater(24); FibTenLater(34); FibTenLater(44);
    FibTenLater(54); FibTenLater(64); FibTenLater(74); FibTenLater(84);
  }

  /** A tree of fewer than 2^64 nodes is at most 91 high, so a path of 92 slots reaches any leaf. */
  lemma HeightBound<R>(t: Tree<R>)
    requires Avl(t) && |Entries(t)| < 0x1_0000_0000_0000_0000
    ensures Height(t) <= 91
  {
    hide Fib, Avl;
    FibonacciBound(t);
    FibExceedsWord();
    if Height(t) >= 92 {
      FibMonotone(94, Height(t) + 2);
    }
  }

  lemma {:induction false} PlugHeight<R>(c: Ctx<R>, t: Tree<R>)
    ensures Depth(c) + Height(t) <= Height(Plug(c, t))
  {
    if c.Under? {
      PlugHeight(c.up, Frame(c, t));
    }
  }
}
