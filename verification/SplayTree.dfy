/** The splay tree, relinked in place around a dummy node. */
module SplayTree {
  import opened Sequences
  import opened Sides
  import opened SplayModel

  /** The links of the nodes of `t` spell out `t`. */
  ghost predicate Linked(t: Tree)
    reads Nodes(t)
  {
    t.Br? ==>
      && t.node.left == t.left.Root() && t.node.right == t.right.Root()
      && t.node !in Nodes(t.left) && t.node !in Nodes(t.right) && Nodes(t.left) !! Nodes(t.right)
      && Linked(t.left) && Linked(t.right)
  }

  /** The links along a spine; the one below its last node is still open. */
  ghost predicate Strung(s: Side, p: Spine)
    reads Passed(p)
  {
    p.Hung? ==>
      && p.node.Child(s.Other()) == p.sib.Root() && (p.up.Hung? ==> p.up.node.Child(s) == p.node)
      && p.node !in Passed(p.up) && p.node !in Nodes(p.sib) && Passed(p.up) !! Nodes(p.sib)
      && Linked(p.sib) && Strung(s, p.up)
  }

  lemma LinkedJoin(s: Side, t: Tree, n: Node, sib: Tree)
    ensures Linked(Join(s, t, n, sib)) <==>
            && n.Child(s) == t.Root() && n.Child(s.Other()) == sib.Root()
            && n !in Nodes(t) && n !in Nodes(sib) && Nodes(t) !! Nodes(sib)
            && Linked(t) && Linked(sib)
    ensures Nodes(Join(s, t, n, sib)) == Nodes(t) + {n} + Nodes(sib)
  {
  }

  /** Once its open end holds `x`, a spine is a tree. */
  lemma {:induction false} FillLinked(s: Side, p: Spine, x: Tree)
    requires Strung(s, p) && Linked(x) && Passed(p) !! Nodes(x) && (p.Hung? ==> p.node.Child(s) == x.Root())
    ensures Linked(Fill(s, p, x)) && Nodes(Fill(s, p, x)) == Passed(p) + Nodes(x)
    ensures Fill(s, p, x).Root() == if p.Hung? then p.Top() else x.Root()
    decreases p
  {
    if p.Hung? {
      LinkedJoin(s, x, p.node, p.sib);
      FillLinked(s, p.up, Join(s, x, p.node, p.sib));
    }
  }

  /** The node whose link on side `s` is open: the last of the spine, or the dummy when nothing was passed. */
  ghost function Last(p: Spine, dummy: Node): Node { if p.Hung? then p.node else dummy }

  /** A spine hanging from the dummy, which is not part of it. */
  ghost predicate Opened(s: Side, p: Spine, dummy: Node)
    reads dummy, Passed(p)
  {
    Strung(s, p) && dummy !in Passed(p) && (p.Hung? ==> dummy.Child(s) == p.Top())
  }

  /** SPLAY_ROTATE_RIGHT and SPLAY_ROTATE_LEFT. */
  method Rotate(root: Node, tmp: Node, s: Side, ghost t: Tree)
    requires Linked(t) && t.Root() == root && t.Child(s.Other()).Root() == tmp
    modifies root, tmp
    ensures Linked(Rotated(s, t))
  {
    ghost var up := t.Child(s.Other());
    LinkedJoin(s, t.Child(s), root, up);
    LinkedJoin(s, up.Child(s), tmp, up.Child(s.Other()));
    assert allocated(Nodes(t.Child(s))) && allocated(Nodes(up.Child(s))) && allocated(Nodes(up.Child(s.Other())));
    root.SetChild(s.Other(), tmp.Child(s));
    tmp.SetChild(s, root);
    LinkedJoin(s, t.Child(s), root, up.Child(s));
    LinkedJoin(s, Join(s, t.Child(s), root, up.Child(s)), tmp, up.Child(s.Other()));
  }

  /** The state of the loop: a tree between the spine `p` passed on side `s` and the spine `q` passed on the other. */
  ghost predicate Between(dummy: Node, s: Side, p: Spine, t: Tree, q: Spine)
    reads dummy, Passed(p), Nodes(t), Passed(q)
  {
    && Opened(s, p, dummy) && Opened(s.Other(), q, dummy) && Linked(t)
    && Passed(p) !! Nodes(t) && Passed(q) !! Nodes(t) && Passed(p) !! Passed(q) && dummy !in Nodes(t)
  }

  lemma BetweenEither(dummy: Node, s: Side, p: Spine, t: Tree, q: Spine)
    ensures Between(dummy, s, p, t, q) <==> Between(dummy, s.Other(), q, t, p)
  {
    assert s.Other().Other() == s;
  }

  /** SPLAY_LINKLEFT and SPLAY_LINKRIGHT: the root is passed on side `s`. */
  method LinkDown(dummy: Node, last: Node, root: Node, s: Side, ghost p: Spine, ghost u: Tree, ghost q: Spine)
    requires Between(dummy, s, p, u, q) && last == Last(p, dummy) && u.Root() == root
    modifies last
    ensures var p', t' := Hung(p, root, u.Child(s.Other())), u.Child(s);
      Between(dummy, s, p', t', q) && Passed(p') + Nodes(t') == Passed(p) + Nodes(u)
  {
    hide Linked, Strung, Opened;
    ghost var near, sib := u.Child(s), u.Child(s.Other());
    LinkedJoin(s, near, root, sib);
    assert allocated(Nodes(near)) && allocated(Nodes(sib)) && allocated(Passed(p)) && allocated(Passed(q));
    SetEnd(dummy, last, s, root, p, q);
    MoreHung(dummy, s, p, root, sib);
  }

  /** One more node hangs at the open end. */
  lemma MoreHung(dummy: Node, s: Side, p: Spine, root: Node, sib: Tree)
    requires Strung(s, p) && dummy !in Passed(p) && dummy != root && dummy !in Nodes(sib)
    requires Last(p, dummy).Child(s) == root && (p.Hung? ==> dummy.Child(s) == p.Top())
    requires root.Child(s.Other()) == sib.Root() && Linked(sib)
    requires root !in Passed(p) && root !in Nodes(sib) && Passed(p) !! Nodes(sib)
    ensures Opened(s, Hung(p, root, sib), dummy)
  {
  }

  /** The open end of a spine is made to point to `x`; the other spine is not touched. */
  method SetEnd(dummy: Node, last: Node, s: Side, x: Node?, ghost p: Spine, ghost q: Spine)
    requires Opened(s, p, dummy) && Opened(s.Other(), q, dummy) && Passed(p) !! Passed(q) && last == Last(p, dummy)
    modifies last
    ensures Strung(s, p) && dummy !in Passed(p) && last.Child(s) == x && last.Child(s.Other()) == old(last.Child(s.Other()))
    ensures p.Hung? ==> dummy.Child(s) == p.Top()
    ensures Opened(s.Other(), q, dummy)
  {
    assert allocated(Passed(p)) && allocated(Passed(q));
    if p.Hung? { assert allocated(Passed(p.up)) && allocated(Nodes(p.sib)); }
    last.SetChild(s, x);
  }

  /** Half of SPLAY_ASSEMBLE: what is left on side `s` of the root is hung at the open end. */
  method CloseEnd(dummy: Node, last: Node, s: Side, x: Node?, ghost p: Spine, ghost t: Tree)
    requires Opened(s, p, dummy) && last == Last(p, dummy)
    requires Linked(t) && t.Root() == x && Passed(p) !! Nodes(t) && dummy !in Nodes(t)
    modifies last
    ensures Linked(Fill(s, p, t)) && Nodes(Fill(s, p, t)) == Passed(p) + Nodes(t) && dummy.Child(s) == Fill(s, p, t).Root()
    ensures last.Child(s.Other()) == old(last.Child(s.Other()))
  {
    assert allocated(Nodes(t)) && allocated(Passed(p));
    if p.Hung? { assert allocated(Passed(p.up)) && allocated(Nodes(p.sib)); }
    last.SetChild(s, x);
    FillLinked(s, p, t);
  }

  /** SPLAY_ASSEMBLE. */
  method PutTogether(dummy: Node, left: Node, right: Node, root: Node, ghost l: Spine, ghost t: Tree, ghost r: Spine)
    requires Between(dummy, Right, l, t, r) && t.Root() == root && left == Last(l, dummy) && right == Last(r, dummy)
    modifies dummy, Passed(l), Passed(r), root
    ensures Linked(Assemble(l, t, r)) && Nodes(Assemble(l, t, r)) == Passed(l) + Nodes(t) + Passed(r)
  {
    assert Nodes(t) == Nodes(t.left) + {root} + Nodes(t.right);
    hide Linked, Strung, Fill, Passed, Nodes;
    LinkedJoin(Left, t.left, root, t.right);
    NodesOfBr(Fill(Right, l, t.left), root, Fill(Left, r, t.right));
    CloseBoth(dummy, left, right, root.left, root.right, l, t.left, t.right, r);
    TakeEnds(root, dummy, Fill(Right, l, t.left), Fill(Left, r, t.right));
  }

  lemma NodesOfBr(a: Tree, n: Node, b: Tree)
    ensures Nodes(Br(a, n, b)) == Nodes(a) + {n} + Nodes(b)
  {
  }

  method CloseBoth(dummy: Node, left: Node, right: Node, x: Node?, y: Node?, ghost l: Spine, ghost a: Tree, ghost b: Tree, ghost r: Spine)
    requires Opened(Right, l, dummy) && Opened(Left, r, dummy) && Linked(a) && Linked(b)
    requires left == Last(l, dummy) && right == Last(r, dummy) && x == a.Root() && y == b.Root()
    requires Passed(l) + Nodes(a) !! Passed(r) + Nodes(b) && Passed(l) !! Nodes(a) && Passed(r) !! Nodes(b)
    requires dummy !in Nodes(a) && dummy !in Nodes(b)
    modifies left, right
    ensures Linked(Fill(Right, l, a)) && Nodes(Fill(Right, l, a)) == Passed(l) + Nodes(a)
    ensures Linked(Fill(Left, r, b)) && Nodes(Fill(Left, r, b)) == Passed(r) + Nodes(b)
    ensures dummy.right == Fill(Right, l, a).Root() && dummy.left == Fill(Left, r, b).Root()
  {
    assert allocated(Nodes(a)) && allocated(Nodes(b)) && allocated(Passed(l)) && allocated(Passed(r));
    CloseEnd(dummy, left, Right, x, l, a);
    assert allocated(Nodes(Fill(Right, l, a)));
    CloseEnd(dummy, right, Left, y, r, b);
  }

  method TakeEnds(root: Node, dummy: Node, ghost a: Tree, ghost b: Tree)
    requires Linked(a) && Linked(b) && Nodes(a) !! Nodes(b) && root !in Nodes(a) && root !in Nodes(b) && root != dummy
    requires dummy.right == a.Root() && dummy.left == b.Root()
    modifies root
    ensures Linked(Br(a, root, b))
  {
    root.left := dummy.right;
    root.right := dummy.left;
  }

  class Head {
    var root: Node?
    ghost var shape: Tree

    constructor ()
      ensures Valid() && Elements() == []
    {
      root, shape := null, Leaf;
    }

    ghost predicate Valid()
      reads this, Nodes(shape)
    {
      root == shape.Root() && Linked(shape) && Ascending(InOrder(shape))
    }

    ghost function Elements(): seq<Node>
      reads this
    {
      InOrder(shape)
    }
  }

  /** The rotation with which a turn of the loop begins when `k` lies beyond the child too. */
  method Turn(h: Head, tmp: Node, s: Side, k: int, dummy: Node, ghost l: Spine, ghost t: Tree, ghost r: Spine)
    requires Between(dummy, Right, l, t, r) && t.Br? && h.root == t.node && tmp == t.Child(s).Root()
    modifies h`root, Nodes(t)
    ensures var u := Turned(t, s, k); Between(dummy, Right, l, u, r) && h.root == u.node && Nodes(u) == Nodes(t)
  {
    if Beyond(s, k, tmp.key) {
      TurnOver(h, tmp, s, dummy, l, t, r);
    }
  }

  method TurnOver(h: Head, tmp: Node, s: Side, dummy: Node, ghost l: Spine, ghost t: Tree, ghost r: Spine)
    requires Between(dummy, Right, l, t, r) && t.Br? && h.root == t.node && t.Child(s).Br? && tmp == t.Child(s).node
    modifies h`root, Nodes(t)
    ensures var u := Rotated(s.Other(), t); Between(dummy, Right, l, u, r) && h.root == u.node && Nodes(u) == Nodes(t)
  {
    assert tmp in Nodes(t) && t.node in Nodes(t);
    hide Strung, Linked, Nodes, Passed, InOrder;
    RotatedKeepsOrder(s.Other(), t);
    assert allocated(Passed(l)) && allocated(Passed(r)) && allocated(Nodes(t));
    Rotate(h.root, tmp, s.Other(), t);
    h.root := tmp;
    assert Opened(Right, l, dummy);
    assert Opened(Left, r, dummy);
    hide Opened, Rotated;
  }

  /** The root goes to the spine of the side taken, and its child on that side becomes the root. */
  method GoDown(h: Head, dummy: Node, left: Node, right: Node, s: Side, ghost l: Spine, ghost t: Tree, ghost r: Spine)
    returns (left': Node, right': Node, ghost l': Spine, ghost t': Tree, ghost r': Spine)
    requires Between(dummy, Right, l, t, r) && t.Br? && h.root == t.node && t.Child(s).Br?
    requires left == Last(l, dummy) && right == Last(r, dummy)
    modifies h`root, dummy, Passed(l), Passed(r)
    ensures (l', t', r') == if s == Left then (l, t.left, Hung(r, t.node, t.right)) else (Hung(l, t.node, t.left), t.right, r)
    ensures Between(dummy, Right, l', t', r') && h.root == t'.node
    ensures left' == Last(l', dummy) && right' == Last(r', dummy)
    ensures Passed(l') + Nodes(t') + Passed(r') == Passed(l) + Nodes(t) + Passed(r)
  {
    left', right' := left, right;
    var root, next := h.root, h.root.Child(s);
    LinkedJoin(s, t.Child(s), root, t.Child(s.Other()));
    if s == Left {
      BetweenEither(dummy, Right, l, t, r);
      LinkDown(dummy, right, root, Left, r, t, l);
      right', l', t', r' := root, l, t.left, Hung(r, t.node, t.right);
      BetweenEither(dummy, Right, l', t', r');
    } else {
      LinkDown(dummy, left, root, Right, l, t, r);
      left', l', t', r' := root, Hung(l, t.node, t.left), t.right, r;
    }
    h.root := next;
  }

  /** One turn of the loop. */
  method SplayStep(h: Head, k: int, dummy: Node, left: Node, right: Node, ghost l: Spine, ghost t: Tree, ghost r: Spine)
    returns (stop: bool, left': Node, right': Node, ghost l': Spine, ghost t': Tree, ghost r': Spine)
    requires Between(dummy, Right, l, t, r) && t.Br? && h.root == t.node && h.root.key != k
    requires left == Last(l, dummy) && right == Last(r, dummy)
    modifies h`root, dummy, Passed(l), Passed(r), Nodes(t)
    ensures Between(dummy, Right, l', t', r') && t'.Br? && h.root == t'.node
    ensures left' == Last(l', dummy) && right' == Last(r', dummy)
    ensures Passed(l') + Nodes(t') + Passed(r') == Passed(l) + Nodes(t) + Passed(r)
    ensures Splayed(l, t, r, k) == if stop then Assemble(l', t', r') else Splayed(l', t', r', k)
    ensures !stop ==> Size(t') < Size(t)
  {
    var s := if k < h.root.key then Left else Right;
    var tmp := h.root.Child(s);
    stop, left', right', l', t', r' := true, left, right, l, t, r;
    if tmp != null {
      Turn(h, tmp, s, k, dummy, l, t, r);
      t' := Turned(t, s, k);
      if h.root.Child(s) != null {
        left', right', l', t', r' := GoDown(h, dummy, left, right, s, l, t', r);
        stop := false;
      }
    }
  }

  /** SPLAY: splays the tree `t0` under the head towards `k`. */
  method Splay(h: Head, k: int, ghost t0: Tree)
    requires h.root == t0.Root() && t0.Br? && Linked(t0)
    modifies h`root, Nodes(t0)
    ensures var t := Splayed(Bare, t0, Bare, k); h.root == t.Root() && Linked(t) && Nodes(t) == Nodes(t0)
  {
    assert allocated(Nodes(t0));
    var dummy := new Node(0);
    var left, right := dummy, dummy;
    ghost var l, t, r, final := Bare, t0, Bare, Splayed(Bare, t0, Bare, k);
    while k != h.root.key
      invariant Between(dummy, Right, l, t, r) && t.Br? && h.root == t.node
      invariant left == Last(l, dummy) && right == Last(r, dummy) && fresh(dummy)
      invariant Splayed(l, t, r, k) == final && Passed(l) + Nodes(t) + Passed(r) == Nodes(t0)
      decreases Size(t)
    {
      var stop;
      stop, left, right, l, t, r := SplayStep(h, k, dummy, left, right, l, t, r);
      if stop {
        break;
      }
    }
    PutTogether(dummy, left, right, h.root, l, t, r);
  }

  method Find(h: Head, elm: Node) returns (found: Node?)
    requires h.Valid()
    modifies h, Nodes(h.shape)
    ensures h.Valid() && h.Elements() == old(h.Elements())
    ensures found != null ==> found in h.Elements() && found.key == elm.key && h.root == found
    ensures found == null ==> forall n :: n in h.Elements() ==> n.key != elm.key
  {
    if h.root == null {
      return null;
    }
    SplayedIsRight(h.shape, elm.key);
    Splay(h, elm.key, h.shape);
    h.shape := Splayed(Bare, h.shape, Bare, elm.key);
    if h.root.key == elm.key {
      return h.root;
    }
    NearDecides(h.shape, elm.key);
    return null;
  }

  /** SPLAY_INSERT: adds `elm` unless an element with its key is there, which is then returned. */
  method Insert(h: Head, elm: Node) returns (found: Node?)
    requires h.Valid()
    modifies h, Nodes(h.shape), elm
    ensures h.Valid()
    ensures found != null ==> h.Elements() == old(h.Elements()) && found in h.Elements() && found.key == elm.key
    ensures found == null ==> exists i :: Inserted(old(h.Elements()), i, elm, h.Elements())
    ensures found == null <==> forall n :: n in old(h.Elements()) ==> n.key != elm.key
    ensures found == null ==> h.root == elm
  {
    if h.root == null {
      elm.left, elm.right := null, null;
      h.shape := Br(Leaf, elm, Leaf);
      h.root := elm;
      assert Inserted(old(h.Elements()), 0, elm, h.Elements());
      return null;
    }
    found := InsertSplayed(h, elm);
  }

  method InsertSplayed(h: Head, elm: Node) returns (found: Node?)
    requires h.Valid() && h.root != null
    modifies h, Nodes(h.shape), elm
    ensures h.Valid()
    ensures found != null ==> h.Elements() == old(h.Elements()) && found in h.Elements() && found.key == elm.key
    ensures found == null ==> exists i :: Inserted(old(h.Elements()), i, elm, h.Elements())
    ensures found == null <==> forall n :: n in old(h.Elements()) ==> n.key != elm.key
    ensures found == null ==> h.root == elm
  {
    SplayedIsRight(h.shape, elm.key);
    Splay(h, elm.key, h.shape);
    h.shape := Splayed(Bare, h.shape, Bare, elm.key);
    RootInOrder(h.shape);
    hide Splayed, Linked, InOrder, Ascending, Near, Inserted;
    found := h.root;
    if elm.key != h.root.key {
      NearDecides(h.shape, elm.key);
      CrownedIsRight(h.shape, elm);
      ghost var i :| Inserted(InOrder(h.shape), i, elm, InOrder(Crowned(h.shape, elm)));
      Crown(h.root, elm, h.shape);
      h.shape := Crowned(h.shape, elm);
      h.root := elm;
      assert Inserted(old(h.Elements()), i, elm, h.Elements());
      found := null;
    }
  }

  lemma RootInOrder(t: Tree)
    requires t.Br?
    ensures t.node in InOrder(t)
  {
  }

  /** The new element takes the old root and one of its subtrees as children. */
  method Crown(root: Node, elm: Node, ghost t: Tree)
    requires Linked(t) && t.Br? && root == t.node && elm !in Nodes(t)
    modifies elm, root
    ensures Linked(Crowned(t, elm))
  {
    var s := if elm.key < root.key then Left else Right;
    LinkedJoin(s, t.Child(s), root, t.Child(s.Other()));
    assert allocated(Nodes(t.Child(s))) && allocated(Nodes(t.Child(s.Other())));
    elm.SetChild(s, root.Child(s));
    elm.SetChild(s.Other(), root);
    root.SetChild(s, null);
    ghost var low := Join(s, Leaf, root, t.Child(s.Other()));
    LinkedJoin(s, Leaf, root, t.Child(s.Other()));
    LinkedJoin(s, t.Child(s), elm, low);
  }

  /** SPLAY_REMOVE: takes out the element with the key of `elm`, if there is one. */
  method Remove(h: Head, elm: Node) returns (removed: Node?)
    requires h.Valid()
    modifies h, Nodes(h.shape)
    ensures h.Valid()
    ensures removed == null ==> h.Elements() == old(h.Elements()) && forall n :: n in h.Elements() ==> n.key != elm.key
    ensures removed != null ==> removed == elm
    ensures removed != null ==> exists i, n: Node :: n.key == elm.key && Inserted(h.Elements(), i, n, old(h.Elements()))
  {
    if h.root == null {
      return null;
    }
    SplayedIsRight(h.shape, elm.key);
    Splay(h, elm.key, h.shape);
    ghost var t := Splayed(Bare, h.shape, Bare, elm.key);
    h.shape := t;
    if h.root.key != elm.key {
      NearDecides(h.shape, elm.key);
      return null;
    }
    UprootedOrder(t);
    UprootedIsRight(t);
    Uproot(h, elm.key, t);
    h.shape := Uprooted(t, elm.key);
    assert Inserted(h.Elements(), |InOrder(t.left)|, t.node, old(h.Elements()));
    return elm;
  }

  /** Takes out the root; the greatest node of its left subtree is splayed up to replace it. */
  method Uproot(h: Head, k: int, ghost t: Tree)
    requires Linked(t) && h.root == t.Root() && t.Br? && t.node.key == k
    requires t.left.Br? ==> Splayed(Bare, t.left, Bare, k).right == Leaf
    modifies h`root, Nodes(t)
    ensures Linked(Uprooted(t, k)) && Uprooted(t, k).Root() == h.root
  {
    assert allocated(Nodes(t.left)) && allocated(Nodes(t.right));
    if h.root.left == null {
      h.root := h.root.right;
    } else {
      var tmp := h.root.right;
      h.root := h.root.left;
      Splay(h, k, t.left);
      assert h.root.right == null;
      h.root.right := tmp;
    }
  }
}
