/** The red-black tree of tree.h, relinked in place through left, right and parent pointers. */
module RedBlackTree {
  import opened RedBlackModel
  import opened Sequences
  import opened Sides

  class Head {
    var root: Node?
    ghost var shape: Tree

    constructor ()
      ensures Valid() && shape == Leaf
    {
      root, shape := null, Leaf;
    }

    /** A linked red-black tree in ascending key order. */
    ghost predicate Valid()
      reads this, Nodes(shape)
    {
      Whole(this, shape) && RedBlack(shape) && Ascending(InOrder(shape))
    }

    /** The elements, in the order the tree keeps them. */
    ghost function Elements(): seq<Node>
      reads this
    {
      InOrder(shape)
    }
  }

  /** The links of the nodes of `t` spell out `t`, hanging below `par`. */
  ghost predicate Linked(t: Tree, par: Node?)
    reads Nodes(t)
  {
    match t
    case Leaf => true
    case Br(l, n, red, r) =>
      && n.parent == par && n.red == red && n.left == l.Root() && n.right == r.Root()
      && n !in Nodes(l) && n !in Nodes(r) && Nodes(l) !! Nodes(r)
      && Linked(l, n) && Linked(r, n)
  }

  /** The links around a position spell out `c`, the position itself holding the pointer `p`. */
  ghost predicate LinkedAround(h: Head, c: Context, p: Node?)
    reads h, Around(c)
  {
    match c
    case Top => h.root == p
    case In(up, s, n, red, sib) =>
      && n.parent == up.Above() && n.red == red && n.Child(s) == p && n.Child(s.Other()) == sib.Root()
      && n !in Around(up) && n !in Nodes(sib) && Around(up) !! Nodes(sib)
      && Linked(sib, n) && LinkedAround(h, up, n)
  }

  /** `t` sits at position `c` of the linked tree. */
  ghost predicate Sits(h: Head, c: Context, t: Tree)
    reads h, Around(c), Nodes(t)
  {
    Around(c) !! Nodes(t) && Linked(t, c.Above()) && LinkedAround(h, c, t.Root())
  }

  lemma LinkedJoin(s: Side, t: Tree, n: Node, red: bool, sib: Tree, par: Node?)
    ensures Linked(Join(s, t, n, red, sib), par) <==>
            && n.parent == par && n.red == red && n.Child(s) == t.Root() && n.Child(s.Other()) == sib.Root()
            && n !in Nodes(t) && n !in Nodes(sib) && Nodes(t) !! Nodes(sib)
            && Linked(t, n) && Linked(sib, n)
    ensures Nodes(Join(s, t, n, red, sib)) == Nodes(t) + {n} + Nodes(sib)
  {
  }

  /** Looking at a tree from one position inside or from the root is the same. */
  lemma {:induction false} SitsFromTop(h: Head, c: Context, t: Tree)
    ensures Sits(h, c, t) <==> Sits(h, Top, Plug(c, t))
    decreases c
  {
    match c
    case Top =>
    case In(up, s, n, red, sib) =>
      LinkedJoin(s, t, n, red, sib, up.Above());
      SitsFromTop(h, up, Join(s, t, n, red, sib));
  }

  /** The whole tree is linked and hangs from the head. */
  ghost predicate Whole(h: Head, t: Tree)
    reads h, Nodes(t)
  {
    h.root == t.Root() && Linked(t, null)
  }

  lemma WholeSits(h: Head, c: Context, t: Tree)
    ensures Whole(h, Plug(c, t)) <==> Sits(h, c, t)
  {
    SitsFromTop(h, c, t);
  }

  /** Puts the tree `t`, rooted at `now`, where `was` hung below `par`, or at the root when nothing is above. */
  method Relink(h: Head, par: Node?, was: Node, now: Node?, ghost c: Context, ghost t: Tree)
    requires LinkedAround(h, c, was) && par == c.Above() && was !in Around(c)
    requires Linked(t, par) && t.Root() == now && Around(c) !! Nodes(t)
    modifies h`root, {par}`left, {par}`right
    ensures Sits(h, c, t)
  {
    if par != null {
      if par.left == was {
        par.left := now;
      } else {
        par.right := now;
      }
    } else {
      h.root := now;
    }
  }

  /** Hangs the subtree `t`, rooted at `p`, on side `s` of `n`. */
  method Hang(n: Node, s: Side, p: Node?, ghost t: Tree, ghost was: Node?, ghost sib: Tree)
    requires Linked(t, was) && t.Root() == p && Linked(sib, n) && n.Child(s.Other()) == sib.Root()
    requires n !in Nodes(t) && n !in Nodes(sib) && Nodes(t) !! Nodes(sib)
    modifies n`left, n`right, {p}`parent
    ensures Linked(Join(s, t, n, n.red, sib), n.parent)
  {
    if s == Left {
      n.left := p;
    } else {
      n.right := p;
    }
    if p != null {
      p.parent := n;
    }
  }

  /** The part of a rotation that stays within the rotated subtree. */
  method Swing(elm: Node, tmp: Node, s: Side, ghost a: Tree, ghost b: Tree, ghost d: Tree)
    requires elm != tmp && {elm, tmp} !! Nodes(a) && {elm, tmp} !! Nodes(b) && {elm, tmp} !! Nodes(d)
    requires Nodes(a) !! Nodes(b) && Nodes(a) !! Nodes(d) && Nodes(b) !! Nodes(d)
    requires Linked(a, elm) && Linked(b, tmp) && Linked(d, tmp)
    requires elm.Child(s) == a.Root() && tmp.Child(s) == b.Root() && tmp.Child(s.Other()) == d.Root()
    modifies {elm, tmp} + Nodes(b)
    ensures Linked(Join(s, Join(s, a, elm, elm.red, b), tmp, tmp.red, d), tmp.parent)
    ensures tmp.parent == old(elm.parent) && elm.red == old(elm.red) && tmp.red == old(tmp.red)
  {
    hide Linked;
    assert allocated(Nodes(a)) && allocated(Nodes(b)) && allocated(Nodes(d));
    Hang(elm, s.Other(), tmp.Child(s), b, tmp, a);
    tmp.parent := elm.parent;
    LinkedJoin(s, a, elm, elm.red, b, elm.parent);
    Hang(tmp, s, elm, Join(s, a, elm, elm.red, b), elm.parent, d);
  }

  lemma LinkedPair(s: Side, t: Tree, up: Tree, par: Node?)
    requires t.Br? && up == t.Child(s.Other()) && up.Br? && Linked(t, par)
    ensures t.node.parent == par && t.node.red == t.red && up.node.red == up.red
    ensures t.node.Child(s) == t.Child(s).Root() && t.node.Child(s.Other()) == up.node
    ensures up.node.Child(s) == up.Child(s).Root() && up.node.Child(s.Other()) == up.Child(s.Other()).Root()
    ensures Linked(t.Child(s), t.node) && Linked(up.Child(s), up.node) && Linked(up.Child(s.Other()), up.node)
    ensures t.node != up.node && {t.node, up.node} !! Nodes(t.Child(s))
    ensures {t.node, up.node} !! Nodes(up.Child(s)) && {t.node, up.node} !! Nodes(up.Child(s.Other()))
    ensures Nodes(t.Child(s)) !! Nodes(up.Child(s)) && Nodes(t.Child(s)) !! Nodes(up.Child(s.Other()))
    ensures Nodes(up.Child(s)) !! Nodes(up.Child(s.Other()))
    ensures {t.node, up.node} + Nodes(up.Child(s)) <= Nodes(t)
  {
    LinkedJoin(s, t.Child(s), t.node, t.red, up, par);
    LinkedJoin(s, up.Child(s), up.node, up.red, up.Child(s.Other()), t.node);
  }

  /** RB_ROTATE_LEFT and RB_ROTATE_RIGHT: turns the subtree at `elm` towards side `s`. */
  method Rotate(h: Head, elm: Node, s: Side, ghost c: Context, ghost t: Tree)
    requires Whole(h, Plug(c, t)) && t.Root() == elm && t.Child(s.Other()).Br?
    modifies h`root, Nodes(Plug(c, t))
    ensures Whole(h, Plug(c, Rotated(s, t))) && Nodes(Plug(c, Rotated(s, t))) == Nodes(Plug(c, t))
  {
    hide Linked, LinkedAround;
    ghost var up, t' := t.Child(s.Other()), Rotated(s, t);
    NodesOfPlug(c, t);
    NodesOfPlug(c, t');
    WholeSits(h, c, t);
    LinkedPair(s, t, up, c.Above());
    RotatedKeepsOrder(s, t);
    assert allocated(Around(c)) && allocated(Nodes(t'));
    var tmp := elm.Child(s.Other());
    Swing(elm, tmp, s, t.Child(s), up.Child(s), up.Child(s.Other()));
    assert Linked(t', c.Above());
    Relink(h, tmp.parent, elm, tmp, c, t');
    WholeSits(h, c, t');
  }

  method Paint(h: Head, n: Node, red: bool, ghost c: Context, ghost t: Tree)
    requires Whole(h, Plug(c, t)) && t.Root() == n
    modifies n`red
    ensures Whole(h, Plug(c, t.Paint(red))) && Nodes(Plug(c, t.Paint(red))) == Nodes(Plug(c, t))
  {
    NodesOfPlug(c, t);
    NodesOfPlug(c, t.Paint(red));
    WholeSits(h, c, t);
    n.red := red;
    WholeSits(h, c, t.Paint(red));
  }

  /** What the pointers around a position say. */
  lemma Look(h: Head, c: Context, t: Tree)
    requires Whole(h, Plug(c, t))
    ensures t.Br? ==>
      var n := t.node;
      n.parent == c.Above() && n.red == t.red && n.left == t.left.Root() && n.right == t.right.Root()
    ensures c.In? ==>
      var n := c.node;
      n.parent == c.up.Above() && n.red == c.red && n.Child(c.side) == t.Root() && n.Child(c.side.Other()) == c.sib.Root()
      && (t.Br? ==> t.Root() != c.sib.Root()) && n != t.Root()
    ensures c.Top? ==> h.root == t.Root()
  {
    WholeSits(h, c, t);
  }

  method RecolourInsert(h: Head, tmp: Node, parent: Node, gparent: Node, ghost c: Context, ghost t: Tree)
    requires Whole(h, Plug(c, t)) && RedAbove(c) && c.up.In? && c.up.sib.Br?
    requires tmp == c.up.sib.node && parent == c.node && gparent == c.up.node
    modifies Nodes(Plug(c, t))
    ensures var t' := Join(c.up.side, Join(c.side, t, parent, false, c.sib), gparent, true, c.up.sib.Paint(false));
      Whole(h, Plug(c.up.up, t')) && Nodes(Plug(c.up.up, t')) == Nodes(Plug(c, t))
  {
    ghost var g, side, par, uncle := c.up, c.up.side, Join(c.side, t, c.node, true, c.sib), c.up.sib;
    assert Plug(c, t) == Plug(g.up, Join(side, par, g.node, g.red, uncle));
    NodesOfPlug(g.up, Join(side, par, g.node, g.red, uncle));
    Paint(h, tmp, false, In(g.up, side.Other(), g.node, g.red, par), uncle);
    Paint(h, parent, false, In(g.up, side, g.node, g.red, uncle.Paint(false)), par);
    Paint(h, gparent, true, g.up, Join(side, par.Paint(false), g.node, g.red, uncle.Paint(false)));
  }

  method RotateInsert(h: Head, elm: Node, parent: Node, gparent: Node, s: Side, ghost c: Context, ghost t: Tree)
    returns (low: Node)
    requires Whole(h, Plug(c, t)) && t.Root() == elm && RedAbove(c) && c.up.In?
    requires s == c.up.side && parent == c.node && gparent == c.up.node
    modifies h`root, Nodes(Plug(c, t))
    ensures Whole(h, Plug(c.up.up, Settled(c, t))) && Nodes(Plug(c.up.up, Settled(c, t))) == Nodes(Plug(c, t))
    ensures low == Raised(c, t).Child(s).Root()
  {
    ghost var g, par := c.up, Join(c.side, t, c.node, true, c.sib);
    ghost var top := Raised(c, t);
    assert Plug(c, t) == Plug(g, par);
    Look(h, c, t);
    var upper;
    if parent.Child(s.Other()) == elm {
      Rotate(h, parent, s, g, par);
      upper, low := elm, parent;
    } else {
      upper, low := parent, elm;
    }
    assert Whole(h, Plug(g, top));
    NodesOfPlug(g, top);
    Paint(h, upper, false, g, top);
    Paint(h, gparent, true, g.up, Join(s, top.Paint(false), g.node, g.red, g.sib));
    Rotate(h, gparent, s.Other(), g.up, Join(s, top.Paint(false), g.node, true, g.sib));
  }

  /** Above a red parent there is a black grandparent, with the uncle on its other side. */
  lemma LookTwice(h: Head, c: Context, t: Tree)
    requires Whole(h, Plug(c, t)) && RedAbove(c) && RedsApartAround(c)
    ensures c.up.In? && RedsApartAround(c.up.up) && Depth(c) == Depth(c.up.up) + 2
    ensures c.node.parent == c.up.node && (c.node == c.up.node.left <==> c.up.side == Left)
    ensures c.up.node.Child(c.up.side.Other()) == c.up.sib.Root()
    ensures c.up.sib.Br? ==> c.up.sib.node.red == c.up.sib.red
  {
    assert RedsApartAround(c.up) && c.up.In?;
    ghost var g, par := c.up, Join(c.side, t, c.node, true, c.sib);
    Look(h, g, par);
    Look(h, In(g.up, g.side.Other(), g.node, g.red, par), g.sib);
  }

  /** Where the lower red node of a resolved pair ends up. */
  ghost function Resting(c: Context, t: Tree): Context
    requires t.Br? && c.In? && c.up.In?
    ensures Plug(Resting(c, t), Raised(c, t).Child(c.up.side)) == Plug(c.up.up, Settled(c, t))
  {
    var g, top := c.up, Raised(c, t);
    In(g.up, g.side, top.node, false, Join(g.side.Other(), g.sib, g.node, true, top.Child(g.side.Other())))
  }

  method InsertColour(h: Head, e: Node, ghost c0: Context, ghost t0: Tree) returns (ghost turns: nat)
    requires Whole(h, Plug(c0, t0)) && t0.Root() == e && RedsApartAround(c0)
    modifies h`root, Nodes(Plug(c0, t0))
    ensures Whole(h, InsertFix(c0, t0)) && Nodes(InsertFix(c0, t0)) == Nodes(Plug(c0, t0))
    ensures turns <= Depth(c0)
  {
    var elm: Node := e;
    turns := 0;
    ghost var c, t, final := c0, t0, InsertFix(c0, t0);
    Look(h, c, t);
    while elm.parent != null && elm.parent.red
      invariant Whole(h, Plug(c, t)) && t.Root() == elm && elm.parent == c.Above()
      invariant c.In? ==> c.node.red == c.red
      invariant RedAbove(c) ==> RedsApartAround(c) && InsertFix(c, t) == final
      invariant !RedAbove(c) ==> Plug(c, t).Paint(false) == final
      invariant Nodes(Plug(c, t)) == Nodes(Plug(c0, t0)) && turns + Depth(c) <= Depth(c0)
      decreases Depth(c)
    {
      turns := turns + 1;
      LookTwice(h, c, t);
      var parent: Node := elm.parent;
      var gparent: Node := parent.parent;
      var s := if parent == gparent.left then Left else Right;
      var tmp := gparent.Child(s.Other());
      if tmp != null && tmp.red {
        RecolourInsert(h, tmp, parent, gparent, c, t);
        elm := gparent;
        c, t := c.up.up, Join(s, Join(c.side, t, parent, false, c.sib), gparent, true, c.up.sib.Paint(false));
      } else {
        elm := RotateInsert(h, elm, parent, gparent, s, c, t);
        c, t := Resting(c, t), Raised(c, t).Child(s);
      }
      Look(h, c, t);
    }
    SetRootBlack(h, c, t);
  }

  method SetRootBlack(h: Head, ghost c: Context, ghost t: Tree)
    requires Whole(h, Plug(c, t)) && t.Br?
    modifies {h.root}`red
    ensures Whole(h, Plug(c, t).Paint(false)) && Nodes(Plug(c, t).Paint(false)) == Nodes(Plug(c, t))
  {
    NodesOfPlug(c, t);
    Paint(h, h.root, false, Top, Plug(c, t));
  }

  // ----- Removal -----

  /** Turns a red sibling up over its parent; the returned node is the new, black, sibling. */
  method LiftSibling(h: Head, parent: Node, sib: Node, s: Side, ghost c: Context, ghost t: Tree) returns (tmp: Node?)
    requires Whole(h, Plug(c, t)) && c.In? && Red(c.sib) && c.sib.Child(c.side).Br?
    requires parent == c.node && sib == c.sib.node && s == c.side
    modifies h`root, Nodes(Plug(c, t))
    ensures Whole(h, Plug(BlackSibling(c), t)) && Nodes(Plug(BlackSibling(c), t)) == Nodes(Plug(c, t))
    ensures tmp == c.sib.Child(s).Root()
  {
    ghost var far, dark := s.Other(), c.sib.Paint(false);
    NodesOfPlug(c, t);
    assert Plug(In(c.up, far, parent, c.red, t), c.sib) == Plug(c, t);
    Paint(h, sib, false, In(c.up, far, parent, c.red, t), c.sib);
    Paint(h, parent, true, c.up, Join(s, t, parent, c.red, dark));
    Rotate(h, parent, s, c.up, Join(s, t, parent, true, dark));
    assert Plug(BlackSibling(c), t) == Plug(c.up, Rotated(s, Join(s, t, parent, true, dark)));
    Look(h, BlackSibling(c), t);
    tmp := parent.Child(s.Other());
  }

  /** Moves the red of the near nephew to the outer side of the sibling. */
  method RedOutwards(h: Head, sib: Node, s: Side, ghost c: Context, ghost t: Tree)
    requires Whole(h, Plug(c, t)) && t.Root() == sib && Red(t.Child(s))
    modifies h`root, Nodes(Plug(c, t))
    ensures var t' := Rotated(s.Other(), Join(s, t.Child(s).Paint(false), sib, true, t.Child(s.Other())));
      Whole(h, Plug(c, t')) && Nodes(Plug(c, t')) == Nodes(Plug(c, t))
  {
    ghost var near, far := t.Child(s), t.Child(s.Other());
    Look(h, c, t);
    NodesOfPlug(c, t);
    assert Plug(In(c, s, sib, t.red, far), near) == Plug(c, t);
    var nephew := sib.Child(s);
    if nephew != null {
      Paint(h, nephew, false, In(c, s, sib, t.red, far), near);
    }
    Paint(h, sib, true, c, Join(s, near.Paint(false), sib, t.red, far));
    Rotate(h, sib, s.Other(), c, Join(s, near.Paint(false), sib, true, far));
  }

  /** The last rotation: the sibling takes the parent's colour and place, its outer child turns black. */
  method TakePlace(h: Head, parent: Node, s: Side, ghost c: Context, ghost t: Tree)
    requires Whole(h, Plug(c, t)) && c.In? && c.sib.Br? && !c.sib.red && Red(c.sib.Child(c.side.Other()))
    requires parent == c.node && s == c.side
    modifies h`root, Nodes(Plug(c, t))
    ensures Whole(h, Repaid(c, t)) && Nodes(Repaid(c, t)) == Nodes(Plug(c, t))
  {
    ghost var far, out := s.Other(), c.sib.Child(s.Other());
    ghost var near, sib := c.sib.Child(s), c.sib.Paint(c.red);
    Look(h, c, t);
    NodesOfPlug(c, t);
    assert Nodes(out) <= Nodes(c.sib) <= Nodes(Plug(c, t));
    var tmp: Node := parent.Child(s.Other());
    assert Plug(In(c.up, far, parent, c.red, t), c.sib) == Plug(c, t);
    Paint(h, tmp, parent.red, In(c.up, far, parent, c.red, t), c.sib);
    Paint(h, parent, false, c.up, Join(s, t, parent, c.red, sib));
    ghost var outer := In(In(c.up, far, parent, false, t), far, tmp, c.red, near);
    assert Plug(outer, out) == Plug(c.up, Join(s, t, parent, false, sib));
    Look(h, In(c.up, far, parent, false, t), sib);
    var nephew := tmp.Child(s.Other());
    if nephew != null {
      Paint(h, nephew, false, outer, out);
    }
    Rotate(h, parent, s, c.up, Borrowed(c, t));
  }

  /** The sibling has a red child: afterwards the position has its missing level back. */
  method Borrow(h: Head, parent: Node, tmp: Node, s: Side, ghost c: Context, ghost t: Tree)
    requires Whole(h, Plug(c, t)) && c.In? && Short(c, t) && !Red(t)
    requires c.sib.Br? && !c.sib.red && (Red(c.sib.left) || Red(c.sib.right))
    requires parent == c.node && tmp == c.sib.node && s == c.side
    modifies h`root, Nodes(Plug(c, t))
    ensures Whole(h, Repaid(c, t)) && Nodes(Repaid(c, t)) == Nodes(Plug(c, t))
  {
    LookAtSibling(h, c, t);
    if IsRed(tmp.Child(s.Other())) {
      TakePlace(h, parent, s, c, t);
    } else {
      ghost var far := s.Other();
      ghost var sib := Rotated(far, Join(s, c.sib.Child(s).Paint(false), tmp, true, c.sib.Child(far)));
      assert Plug(In(c.up, far, parent, c.red, t), c.sib) == Plug(c, t);
      RedOutwards(h, tmp, s, In(c.up, far, parent, c.red, t), c.sib);
      assert Plug(In(c.up, far, parent, c.red, t), sib) == Plug(c.(sib := sib), t);
      TakePlace(h, parent, s, c.(sib := sib), t);
      assert Borrowed(c.(sib := sib), t) == Borrowed(c, t);
    }
  }

  lemma RootIsAbove(h: Head, c: Context, t: Tree)
    requires Whole(h, Plug(c, t)) && c.In?
    ensures h.root != null && h.root != t.Root()
  {
    WholeSits(h, c, t);
    RootIsAround(c, t);
  }

  lemma {:induction false} RootIsAround(c: Context, t: Tree)
    requires c.In?
    ensures Plug(c, t).Br? && Plug(c, t).node in Around(c)
    decreases c
  {
    var t' := Join(c.side, t, c.node, c.red, c.sib);
    if c.up.In? {
      RootIsAround(c.up, t');
    } else {
      assert Plug(c, t) == t';
    }
  }

  /** The parent's two children, as they look when position `c` is one level short. */
  lemma LookAtSibling(h: Head, c: Context, t: Tree)
    requires Whole(h, Plug(c, t)) && c.In? && Short(c, t) && !Red(t)
    ensures c.sib.Br? && c.node.Child(c.side.Other()) == c.sib.node && c.sib.node.red == c.sib.red
    ensures c.node.left == t.Root() <==> c.side == Left
    ensures forall s :: var nephew := c.sib.Child(s); c.sib.node.Child(s) == nephew.Root() && (nephew.Br? ==> nephew.node.red == nephew.red)
  {
    ShortHasSibling(c, t);
    Look(h, c, t);
    var far := c.side.Other();
    assert Plug(In(c.up, far, c.node, c.red, t), c.sib) == Plug(c, t);
    Look(h, In(c.up, far, c.node, c.red, t), c.sib);
    forall s ensures var nephew := c.sib.Child(s); nephew.Br? ==> nephew.node.red == nephew.red {
      Look(h, In(In(c.up, far, c.node, c.red, t), s, c.sib.node, c.sib.red, c.sib.Child(s.Other())), c.sib.Child(s));
    }
  }

  predicate IsRed(n: Node?)
    reads n
  {
    n != null && n.red
  }

  /** Makes sure the sibling is black. */
  method Sibling(h: Head, parent: Node, elm: Node?, ghost c: Context, ghost t: Tree) returns (s: Side, tmp: Node)
    requires Whole(h, Plug(c, t)) && c.In? && Short(c, t) && !Red(t) && t.Root() == elm && parent == c.node
    modifies h`root, Nodes(Plug(c, t))
    ensures s == c.side && c.sib.Br? && (c.sib.red ==> c.sib.Child(s).Br?)
    ensures var b := BlackSibling(c);
      Whole(h, Plug(b, t)) && Nodes(Plug(b, t)) == Nodes(Plug(c, t)) && Short(b, t) &&
      b.sib.Br? && !b.sib.red && b.sib.node == tmp && b.node == parent && tmp in Nodes(Plug(b, t)) &&
      IsRed(tmp.left) == Red(b.sib.left) && IsRed(tmp.right) == Red(b.sib.right)
  {
    ShortHasSibling(c, t);
    LookAtSibling(h, c, t);
    s := if parent.left == elm then Left else Right;
    tmp := parent.Child(s.Other());
    if tmp.red {
      tmp := LiftSibling(h, parent, tmp, s, c, t);
    }
    ghost var b := BlackSibling(c);
    LookAtSibling(h, b, t);
    NodesOfPlug(b, t);
    assert b.sib.Child(Left) == b.sib.left && b.sib.Child(Right) == b.sib.right;
    assert tmp.Child(Left) == tmp.left && tmp.Child(Right) == tmp.right;
  }

  /** The sibling turns red too, and the parent's position is now the one that is short. */
  method PassUp(h: Head, parent: Node, tmp: Node, ghost c: Context, ghost t: Tree)
    requires Whole(h, Plug(c, t)) && c.In? && Short(c, t) && !Red(t) && parent == c.node
    requires c.sib.Br? && !c.sib.red && !Red(c.sib.left) && !Red(c.sib.right) && tmp == c.sib.node
    modifies tmp`red
    ensures Whole(h, Plug(c.up, Levelled(c, t))) && Nodes(Plug(c.up, Levelled(c, t))) == Nodes(Plug(c, t))
    ensures Short(c.up, Levelled(c, t)) && parent.parent == c.up.Above() && parent.red == c.red
    ensures c.up.Top? ==> parent == h.root
  {
    LevelledIsShort(c, t);
    ghost var around := In(c.up, c.side.Other(), parent, c.red, t);
    assert Plug(around, c.sib) == Plug(c, t);
    Paint(h, tmp, true, around, c.sib);
    Look(h, c.up, Levelled(c, t));
  }

  /** One turn of the loop: either the missing level is repaid, or the parent is short instead. */
  method RemoveStep(h: Head, parent: Node, elm: Node?, ghost c: Context, ghost t: Tree)
    returns (elm': Node?, repaid: bool, ghost c': Context, ghost t': Tree)
    requires Whole(h, Plug(c, t)) && t.Root() == elm && parent == c.Above() && Short(c, t) && !Red(t)
    modifies h`root, Nodes(Plug(c, t))
    ensures Whole(h, Plug(c', t')) && Nodes(Plug(c', t')) == Nodes(Plug(c, t)) && t'.Root() == elm'
    ensures repaid ==> c' == Top && t'.Paint(false) == RemoveFix(c, t)
    ensures !repaid ==> Short(c', t') && RemoveFix(c', t') == RemoveFix(c, t) && t'.Br?
    ensures !repaid ==> elm'.parent == c'.Above() && elm'.red == t'.red && (c'.Top? ==> elm' == h.root)
    ensures !repaid ==> Depth(c') < Depth(c) || (Depth(c') == Depth(c) && Red(t'))
  {
    var s, tmp := Sibling(h, parent, elm, c, t);
    ghost var b := BlackSibling(c);
    if !IsRed(tmp.left) && !IsRed(tmp.right) {
      PassUp(h, parent, tmp, b, t);
      elm', repaid := parent, false;
      c', t' := b.up, Levelled(b, t);
    } else {
      Borrow(h, parent, tmp, s, b, t);
      elm', repaid := h.root, true;
      c', t' := Top, Repaid(b, t);
    }
  }

  method RemoveColour(h: Head, above: Node?, e: Node?, ghost c0: Context, ghost t0: Tree) returns (ghost turns: nat)
    requires Whole(h, Plug(c0, t0)) && t0.Root() == e && above == c0.Above() && Short(c0, t0)
    modifies h`root, Nodes(Plug(c0, t0))
    ensures Whole(h, RemoveFix(c0, t0)) && Nodes(RemoveFix(c0, t0)) == Nodes(Plug(c0, t0))
    ensures turns <= Depth(c0)
  {
    var elm, parent := e, above;
    turns := 0;
    ghost var c, t, final := c0, t0, RemoveFix(c0, t0);
    Look(h, c, t);
    while !IsRed(elm) && elm != h.root
      invariant Whole(h, Plug(c, t)) && t.Root() == elm && parent == c.Above()
      invariant t.Br? ==> elm.red == t.red
      invariant c.Top? ==> elm == h.root
      invariant Short(c, t) && RemoveFix(c, t) == final
      invariant Nodes(Plug(c, t)) == Nodes(Plug(c0, t0))
      invariant turns <= Depth(c0) && (!Red(t) ==> turns + Depth(c) <= Depth(c0))
      decreases Depth(c), !Red(t)
    {
      turns := turns + 1;
      var repaid;
      elm, repaid, c, t := RemoveStep(h, parent, elm, c, t);
      if repaid { break; }
      parent := elm.parent;
    }
    if c.In? && !Red(t) { RootIsAbove(h, c, t); }
    NodesOfPlug(c, t);
    Blacken(h, elm, c, t);
  }

  method Blacken(h: Head, elm: Node?, ghost c: Context, ghost t: Tree)
    requires Whole(h, Plug(c, t)) && t.Root() == elm
    modifies {elm}`red
    ensures Whole(h, Plug(c, t.Paint(false))) && Nodes(Plug(c, t.Paint(false))) == Nodes(Plug(c, t))
  {
    if elm != null {
      Paint(h, elm, false, c, t);
    }
  }

  // ----- Search -----

  /** Keys before the position are below `key`, keys after it above. */
  ghost predicate Leads(c: Context, key: int) {
    && (forall n :: n in Before(c) ==> n.key < key)
    && (forall n :: n in After(c) ==> key < n.key)
  }

  lemma Descend(c: Context, t: Tree, s: Side, key: int)
    requires t.Br? && Leads(c, key) && Ascending(InOrder(Plug(c, t)))
    requires if s == Left then key < t.node.key else t.node.key < key
    ensures Leads(In(c, s, t.node, t.red, t.Child(s.Other())), key)
    ensures Plug(In(c, s, t.node, t.red, t.Child(s.Other())), t.Child(s)) == Plug(c, t)
  {
    OrderAround(c, t);
    var p, q := Before(c) + InOrder(t.left), InOrder(t.right) + After(c);
    Surrounded(p, t.node, q);
    assert forall n :: n in InOrder(t.left) ==> n in p;
    assert forall n :: n in InOrder(t.right) ==> n in q;
  }

  lemma Surrounded(p: seq<Node>, x: Node, q: seq<Node>)
    requires Ascending(p + [x] + q)
    ensures forall n :: n in p ==> n.key < x.key
    ensures forall n :: n in q ==> x.key < n.key
  {
    var a := p + [x] + q;
    assert a[|p|] == x;
    forall n | n in p ensures n.key < x.key {
      var k :| 0 <= k < |p| && p[k] == n;
      assert a[k] == n;
    }
    forall n | n in q ensures x.key < n.key {
      var k :| 0 <= k < |q| && q[k] == n;
      assert a[|p| + 1 + k] == n;
    }
  }

  /** Any node of the order lies before, at or after a position; one whose key leads to the position lies in it. */
  lemma LeadsTo(c: Context, t: Tree, key: int)
    requires Leads(c, key)
    ensures forall n :: n in InOrder(Plug(c, t)) && n.key == key ==> n in InOrder(t)
  {
    InOrderOfPlug(c, t);
  }

  /** The element with the key of `elm`, in no more turns than the tree is high. */
  method Find(h: Head, elm: Node) returns (found: Node?, ghost turns: nat)
    requires h.Valid()
    ensures turns <= Height(h.shape)
    ensures found != null ==> found in h.Elements() && found.key == elm.key
    ensures found == null ==> forall n :: n in h.Elements() ==> n.key != elm.key
  {
    var tmp := h.root;
    turns := 0;
    ghost var c, t := Top, h.shape;
    while tmp != null
      invariant h.Valid() && Plug(c, t) == h.shape && tmp == t.Root() && Leads(c, elm.key)
      invariant turns + Height(t) <= Height(h.shape)
      decreases t
    {
      turns := turns + 1;
      Look(h, c, t);
      InOrderOfPlug(c, t);
      if elm.key < tmp.key {
        Descend(c, t, Left, elm.key);
        tmp := tmp.left;
        c, t := In(c, Left, t.node, t.red, t.right), t.left;
      } else if elm.key > tmp.key {
        Descend(c, t, Right, elm.key);
        tmp := tmp.right;
        c, t := In(c, Right, t.node, t.red, t.left), t.right;
      } else {
        return tmp, turns;
      }
    }
    LeadsTo(c, t, elm.key);
    return null, turns;
  }

  lemma TopLeads(key: int)
    ensures Leads(Top, key)
  {
  }

  /** The least element whose key is at least that of `elm`. */
  method FindAtLeast(h: Head, elm: Node) returns (res: Node?, ghost turns: nat)
    requires h.Valid()
    ensures turns <= Height(h.shape)
    ensures res != null ==> res in h.Elements() && res.key >= elm.key
    ensures forall n :: n in h.Elements() && n.key >= elm.key ==> res != null && res.key <= n.key
  {
    var tmp := h.root;
    res, turns := null, 0;
    hide Leads, Linked, RedBlack, Ascending;
    TopLeads(elm.key);
    ghost var c, t := Top, h.shape;
    while tmp != null
      invariant h.Valid() && Plug(c, t) == h.shape && tmp == t.Root() && Leads(c, elm.key)
      invariant res == if After(c) == [] then null else After(c)[0]
      invariant turns + Height(t) <= Height(h.shape)
      decreases t
    {
      turns := turns + 1;
      Look(h, c, t);
      InOrderOfPlug(c, t);
      if elm.key < tmp.key {
        Descend(c, t, Left, elm.key);
        res := tmp;
        tmp := tmp.left;
        c, t := In(c, Left, t.node, t.red, t.right), t.left;
      } else if elm.key > tmp.key {
        Descend(c, t, Right, elm.key);
        tmp := tmp.right;
        c, t := In(c, Right, t.node, t.red, t.left), t.right;
      } else {
        return tmp, turns;
      }
    }
    AfterIsLeast(c, elm.key);
  }

  /** Where a search ends, the first element after it is the least with at least the key. */
  lemma AfterIsLeast(c: Context, key: int)
    requires Ascending(InOrder(Plug(c, Leaf))) && Leads(c, key)
    ensures forall n :: n in InOrder(Plug(c, Leaf)) && n.key >= key ==> After(c) != [] && After(c)[0].key <= n.key
    ensures After(c) != [] ==> After(c)[0] in InOrder(Plug(c, Leaf)) && After(c)[0].key > key
  {
    InOrderOfPlug(c, Leaf);
    var a, p, q := InOrder(Plug(c, Leaf)), Before(c), After(c);
    assert a == p + q;
    forall n | n in a && n.key >= key ensures q != [] && q[0].key <= n.key {
      assert n !in p;
      var i :| 0 <= i < |q| && q[i] == n;
      assert a[|p|] == q[0] && a[|p| + i] == n;
    }
    assert q != [] ==> a[|p|] == q[0];
  }

  // ----- Insertion -----

  /** Makes the link at which nothing hung yet point to `elm`. */
  method Point(h: Head, elm: Node, parent: Node?, s: Side, ghost c: Context)
    requires LinkedAround(h, c, null) && parent == c.Above() && (c.In? ==> s == c.side)
    modifies h`root, {parent}`left, {parent}`right
    ensures LinkedAround(h, c, elm)
  {
    if parent != null {
      if s == Left {
        parent.left := elm;
      } else {
        parent.right := elm;
      }
    } else {
      h.root := elm;
    }
  }

  method Attach(h: Head, elm: Node, parent: Node?, s: Side, ghost c: Context)
    requires Whole(h, Plug(c, Leaf)) && parent == c.Above() && (c.In? ==> s == c.side)
    requires elm !in Nodes(Plug(c, Leaf))
    modifies h`root, elm, {parent}
    ensures Whole(h, Plug(c, Br(Leaf, elm, true, Leaf)))
    ensures Nodes(Plug(c, Br(Leaf, elm, true, Leaf))) == Nodes(Plug(c, Leaf)) + {elm}
  {
    hide Plug, Whole, LinkedAround;
    ghost var t := Br(Leaf, elm, true, Leaf);
    NodesOfPlug(c, Leaf);
    NodesOfPlug(c, t);
    WholeSits(h, c, Leaf);
    assert allocated(Around(c));
    elm.parent := parent;
    elm.left, elm.right, elm.red := null, null, true;
    Point(h, elm, parent, s, c);
    assert Linked(t, c.Above());
    WholeSits(h, c, t);
  }

  /**
    RB_INSERT: adds `elm` unless an element with its key is there, which is then returned. Search and
    fix-up take no more turns each than the tree was high.
   */
  method Insert(h: Head, elm: Node) returns (found: Node?, ghost turns: nat)
    requires h.Valid()
    modifies h, Nodes(h.shape), elm
    ensures h.Valid() && turns <= 2 * Height(old(h.shape))
    ensures found != null ==> h.Elements() == old(h.Elements()) && found in h.Elements() && found.key == elm.key
    ensures found == null <==> forall n :: n in old(h.Elements()) ==> n.key != elm.key
    ensures found == null ==> exists i :: Inserted(old(h.Elements()), i, elm, h.Elements())
  {
    var tmp, parent, s := h.root, null, Left;
    ghost var c, t := Top, h.shape;
    turns := 0;
    while tmp != null
      invariant h.Valid() && Plug(c, t) == h.shape == old(h.shape) && Leads(c, elm.key)
      invariant tmp == t.Root() && parent == c.Above()
      invariant c.In? ==> s == c.side
      invariant turns + Height(t) <= Height(h.shape)
      decreases t
    {
      turns := turns + 1;
      Look(h, c, t);
      InOrderOfPlug(c, t);
      parent := tmp;
      if elm.key < tmp.key {
        Descend(c, t, Left, elm.key);
        s, tmp := Left, tmp.left;
        c, t := In(c, Left, t.node, t.red, t.right), t.left;
      } else if elm.key > tmp.key {
        Descend(c, t, Right, elm.key);
        s, tmp := Right, tmp.right;
        c, t := In(c, Right, t.node, t.red, t.left), t.right;
      } else {
        return tmp, turns;
      }
    }
    LeadsTo(c, t, elm.key);
    DepthWithin(c, t);
    ghost var more := InsertAt(h, elm, parent, s, c);
    return null, turns + more;
  }

  lemma AscendingWith(p: seq<Node>, x: Node, q: seq<Node>)
    requires Ascending(p + q)
    requires (forall n :: n in p ==> n.key < x.key) && (forall n :: n in q ==> x.key < n.key)
    ensures Ascending(p + [x] + q)
  {
    var b := p + [x] + q;
    forall i, j | 0 <= i < j < |b| ensures b[i].key < b[j].key {
      PutAt(p, x, q, i);
      PutAt(p, x, q, j);
    }
  }

  /** What an insertion at the empty position `c` makes of the tree. */
  lemma InsertedAt(c: Context, elm: Node)
    requires RedBlack(Plug(c, Leaf)) && Ascending(InOrder(Plug(c, Leaf))) && Leads(c, elm.key)
    ensures RedsApartAround(c)
    ensures var t := InsertFix(c, Br(Leaf, elm, true, Leaf));
      RedBlack(t) && Ascending(InOrder(t)) && Inserted(InOrder(Plug(c, Leaf)), |Before(c)|, elm, InOrder(t))
  {
    var leaf := Br(Leaf, elm, true, Leaf);
    PlugFits(c, Leaf);
    InsertFixIsRedBlack(c, leaf);
    InsertFixKeepsOrder(c, leaf);
    InOrderOfPlug(c, Leaf);
    InOrderOfPlug(c, leaf);
    assert InOrder(Plug(c, Leaf)) == Before(c) + After(c) && InOrder(leaf) == [elm];
    AscendingWith(Before(c), elm, After(c));
  }

  method InsertAt(h: Head, elm: Node, parent: Node?, s: Side, ghost c: Context) returns (ghost turns: nat)
    requires h.Valid() && h.shape == Plug(c, Leaf) && Leads(c, elm.key) && elm !in h.Elements()
    requires parent == c.Above() && (c.In? ==> s == c.side)
    modifies h, Nodes(h.shape), elm
    ensures h.Valid() && Inserted(old(h.Elements()), |Before(c)|, elm, h.Elements()) && turns <= Depth(c)
  {
    ghost var leaf := Br(Leaf, elm, true, Leaf);
    NodesAreInOrder(h.shape);
    NodesOfPlug(c, Leaf);
    InsertedAt(c, elm);
    Attach(h, elm, parent, s, c);
    turns := InsertColour(h, elm, c, leaf);
    h.shape := InsertFix(c, leaf);
  }

  // ----- Removal of a given element -----

  /** Takes `elm`, which has no child but `child`, out of the tree, the child moving up. */
  method Graft(h: Head, elm: Node, child: Node?, parent: Node?, ghost c: Context, ghost t: Tree, ghost x: Tree)
    requires Whole(h, Plug(c, t)) && t.Root() == elm && child == x.Root() && parent == c.Above()
    requires (t.left == Leaf && x == t.right) || (t.right == Leaf && x == t.left)
    modifies h`root, Nodes(Plug(c, t)) - {elm}
    ensures Whole(h, Plug(c, x)) && Nodes(Plug(c, x)) == Nodes(Plug(c, t)) - {elm}
  {
    NodesOfPlug(c, t);
    NodesOfPlug(c, x);
    WholeSits(h, c, t);
    assert allocated(Around(c)) && allocated(Nodes(x));
    assert Linked(x, elm) && Nodes(t) == Nodes(x) + {elm};
    if child != null {
      child.parent := parent;
    }
    assert Linked(x, parent);
    Relink(h, parent, elm, child, c, x);
    WholeSits(h, c, x);
  }

  method Adopt(p: Node?, par: Node, ghost t: Tree, ghost was: Node?)
    requires Linked(t, was) && p == t.Root()
    modifies {p}`parent
    ensures Linked(t, par)
  {
    if p != null {
      p.parent := par;
    }
  }

  /** Gives `elm` the links and colour of `was`, and makes the children of `was` its own. */
  method Impersonate(elm: Node, was: Node, ghost l: Tree, ghost r: Tree)
    requires elm != was && {elm, was} !! Nodes(l) && {elm, was} !! Nodes(r) && Nodes(l) !! Nodes(r)
    requires Linked(l, was) && Linked(r, was) && was.left == l.Root() && was.right == r.Root()
    modifies {elm} + Nodes(l) + Nodes(r)
    ensures elm.parent == was.parent && Linked(Br(l, elm, was.red, r), was.parent)
  {
    assert allocated(Nodes(l)) && allocated(Nodes(r));
    elm.left, elm.right, elm.parent, elm.red := was.left, was.right, was.parent, was.red;
    Adopt(was.left, elm, l, was);
    Adopt(was.right, elm, r, was);
  }

  /** Moves `elm`, which is outside the tree, into the place of `was`. */
  method Substitute(h: Head, was: Node, elm: Node, ghost c: Context, ghost t: Tree)
    requires Whole(h, Plug(c, t)) && t.Root() == was && elm !in Nodes(Plug(c, t))
    modifies h`root, elm, Nodes(Plug(c, t))
    ensures Whole(h, Plug(c, t.(node := elm))) && Nodes(Plug(c, t.(node := elm))) == Nodes(Plug(c, t)) - {was} + {elm}
  {
    hide LinkedAround;
    ghost var t' := t.(node := elm);
    NodesOfPlug(c, t);
    NodesOfPlug(c, t');
    WholeSits(h, c, t);
    assert allocated(Around(c));
    assert Nodes(t) == Nodes(t.left) + {was} + Nodes(t.right) && Nodes(t') == Nodes(t.left) + {elm} + Nodes(t.right);
    Impersonate(elm, was, t.left, t.right);
    Relink(h, elm.parent, was, elm, c, t');
    WholeSits(h, c, t');
  }

  /** The leftmost node below `elm`. */
  method Leftmost(h: Head, elm: Node, ghost c: Context, ghost t: Tree) returns (least: Node, ghost turns: nat)
    requires Whole(h, Plug(c, t)) && t.Root() == elm
    ensures least == Least(t).node && turns < Height(t)
  {
    least, turns := elm, 0;
    ghost var d, u := c, t;
    Look(h, d, u);
    while least.left != null
      invariant Whole(h, Plug(d, u)) && u.Root() == least && Least(u) == Least(t) && least.left == u.left.Root()
      invariant turns + Height(u) <= Height(t)
      decreases u
    {
      turns := turns + 1;
      least := least.left;
      d, u := In(d, Left, u.node, u.red, u.right), u.left;
      Look(h, d, u);
    }
  }

  lemma Apart(h: Head, c: Context, t: Tree)
    requires Whole(h, Plug(c, t)) && t.Br?
    ensures t.node !in Nodes(t.left) && t.node !in Nodes(t.right) && Nodes(t) <= Nodes(Plug(c, t))
  {
    NodesOfPlug(c, t);
    WholeSits(h, c, t);
  }

  /** Takes the successor of `elm` out of the right subtree, leaving a hole under `parent`. */
  method TakeNext(h: Head, elm: Node, ghost c: Context, ghost t: Tree)
    returns (next: Node, parent: Node, child: Node?, red: bool, ghost turns: nat)
    requires Whole(h, Plug(c, t)) && t.Root() == elm && t.right.Br?
    modifies h`root, Nodes(Plug(c, t))
    ensures var m := Least(t.right); next == m.node && child == m.right.Root() && red == m.red && turns < Height(t.right)
    ensures parent == Descent(In(c, Right, next, t.red, t.left), t.right).Above()
    ensures var t' := Plug(c, Br(t.left, elm, t.red, Without(t.right, Least(t.right).right)));
      Whole(h, t') && Nodes(t') == Nodes(Plug(c, t)) - {next}
  {
    ghost var base, m := In(c, Right, elm, t.red, t.left), Least(t.right);
    ghost var at := Descent(base, t.right);
    Look(h, c, t);
    DescentPlugs(base, t.right, m.right);
    assert Plug(at, m) == Plug(base, t.right) == Plug(c, t);
    Look(h, at, m);
    Apart(h, c, t);
    assert allocated(Nodes(Plug(c, t)));
    next, turns := Leftmost(h, elm.right, base, t.right);
    DescentAbove(base, In(c, Right, next, t.red, t.left), t.right);
    child, parent, red := next.right, next.parent, next.red;
    Graft(h, next, child, parent, at, m, m.right);
    if next.parent == elm {
      parent := next;
    }
  }

  lemma HigherThanRight(t: Tree)
    requires t.Br?
    ensures Height(t.right) < Height(t)
  {
  }

  /** Removal of a node with two children: its successor is taken out and put in its place. */
  method RemoveInner(h: Head, elm: Node, ghost c: Context, ghost t: Tree)
    returns (parent: Node, child: Node?, red: bool, ghost turns: nat)
    requires Whole(h, Plug(c, t)) && t.Root() == elm && t.left.Br? && t.right.Br?
    modifies h`root, Nodes(Plug(c, t))
    ensures var o := HoleOf(c, t); parent == o.at.Above() && child == o.held.Root() && red == o.red
    ensures turns < Height(t)
    ensures var t' := Plug(HoleOf(c, t).at, HoleOf(c, t).held); Whole(h, t') && Nodes(t') == Nodes(Plug(c, t)) - {elm}
  {
    hide Height, Linked, LinkedAround, Descent, Least, Without;
    ghost var rest := Without(t.right, Least(t.right).right);
    Apart(h, c, t);
    HigherThanRight(t);
    var next;
    next, parent, child, red, turns := TakeNext(h, elm, c, t);
    Substitute(h, elm, next, c, Br(t.left, elm, t.red, rest));
    DescentPlugs(In(c, Right, next, t.red, t.left), t.right, Least(t.right).right);
  }

  /** Removal of a node with at most one child. */
  method RemoveOuter(h: Head, elm: Node, ghost c: Context, ghost t: Tree) returns (parent: Node?, child: Node?, red: bool)
    requires Whole(h, Plug(c, t)) && t.Root() == elm && (t.left == Leaf || t.right == Leaf)
    modifies h`root, Nodes(Plug(c, t))
    ensures var o := HoleOf(c, t); parent == o.at.Above() && child == o.held.Root() && red == o.red
    ensures var t' := Plug(HoleOf(c, t).at, HoleOf(c, t).held); Whole(h, t') && Nodes(t') == Nodes(Plug(c, t)) - {elm}
  {
    Look(h, c, t);
    child := if elm.left == null then elm.right else elm.left;
    parent, red := elm.parent, elm.red;
    Graft(h, elm, child, parent, c, t, HoleOf(c, t).held);
  }

  /** Takes the root of `t` out from under `c` and repairs the colours. */
  method RemoveAt(h: Head, elm: Node, ghost c: Context, ghost t: Tree) returns (ghost sought: nat, ghost turns: nat)
    requires Whole(h, Plug(c, t)) && t.Root() == elm && RedBlack(Plug(c, t))
    modifies h`root, Nodes(Plug(c, t))
    ensures Whole(h, Removed(c, t)) && Nodes(Removed(c, t)) == Nodes(Plug(c, t)) - {elm}
    ensures sought < Height(t) && turns <= Depth(HoleOf(c, t).at)
  {
    hide Height, Linked, LinkedAround, RedBlack, Short;
    ghost var o := HoleOf(c, t);
    Look(h, c, t);
    HoleFits(c, t);
    HigherThanRight(t);
    sought, turns := 0, 0;
    var parent, child, red;
    if elm.left == null || elm.right == null {
      parent, child, red := RemoveOuter(h, elm, c, t);
    } else {
      parent, child, red, sought := RemoveInner(h, elm, c, t);
    }
    if !red {
      turns := RemoveColour(h, parent, child, o.at, o.held);
    }
  }

  /** RB_REMOVE; looking for the successor and the fix-up take no more turns each than the tree was high. */
  method Remove(h: Head, elm: Node) returns (removed: Node, ghost sought: nat, ghost turns: nat)
    requires h.Valid() && elm in h.Elements()
    modifies h, Nodes(h.shape)
    ensures h.Valid() && removed == elm && sought <= Height(old(h.shape)) && turns <= Height(old(h.shape))
    ensures exists i :: Inserted(h.Elements(), i, elm, old(h.Elements()))
  {
    NodesAreInOrder(h.shape);
    ghost var c, t := Locate(Top, h.shape, elm).0, Locate(Top, h.shape, elm).1;
    RemovedAt(c, t);
    HoleWithin(c, t);
    DepthWithin(c, t);
    removed := elm;
    sought, turns := RemoveAt(h, elm, c, t);
    h.shape := Removed(c, t);
    assert Inserted(h.Elements(), |Before(c) + InOrder(t.left)|, elm, old(h.Elements()));
  }

  lemma RemovedAt(c: Context, t: Tree)
    requires RedBlack(Plug(c, t)) && t.Br? && Ascending(InOrder(Plug(c, t)))
    ensures RedBlack(Removed(c, t)) && Ascending(InOrder(Removed(c, t)))
    ensures Inserted(InOrder(Removed(c, t)), |Before(c) + InOrder(t.left)|, t.node, InOrder(Plug(c, t)))
  {
    OrderAround(c, t);
    RemovedIsRight(c, t);
    Omitted(Before(c) + InOrder(t.left), t.node, InOrder(t.right) + After(c));
  }

  lemma Omitted(p: seq<Node>, x: Node, q: seq<Node>)
    requires Ascending(p + [x] + q)
    ensures Ascending(p + q) && Inserted(p + q, |p|, x, p + [x] + q)
  {
    hide Inserted;
    var a, b := p + q, p + [x] + q;
    PutBetween(p, x, q);
    forall i, j | 0 <= i < j < |a| ensures a[i].key < a[j].key {
      assert a[i] == if i < |p| then b[i] else b[i + 1];
      assert a[j] == if j < |p| then b[j] else b[j + 1];
    }
  }

  // ----- Succession -----

  ghost function First(s: seq<Node>): Node? { if s == [] then null else s[0] }

  /** `next` comes right after `elm` in `a`; null comes after the last. */
  ghost predicate Follows(a: seq<Node>, elm: Node, next: Node?) {
    exists i :: 0 <= i < |a| && a[i] == elm && next == First(a[i + 1..])
  }

  method Climb(h: Head, e: Node, ghost c: Context, ghost t: Tree) returns (next: Node?, ghost turns: nat)
    requires Whole(h, Plug(c, t)) && t.Root() == e
    ensures next == First(After(c)) && turns <= Depth(c)
  {
    turns := 0;
    Look(h, c, t);
    if e.parent != null && e == e.parent.left {
      return e.parent, turns;
    }
    var elm: Node := e;
    ghost var d, u := c, t;
    while elm.parent != null && elm == elm.parent.right
      invariant Whole(h, Plug(d, u)) && u.Root() == elm && elm.parent == d.Above() && After(d) == After(c)
      invariant d.In? ==> (elm == elm.parent.right <==> d.side == Right)
      invariant turns + Depth(d) <= Depth(c)
      decreases d
    {
      turns := turns + 1;
      elm := elm.parent;
      d, u := d.up, Join(d.side, u, d.node, d.red, d.sib);
      Look(h, d, u);
    }
    next := elm.parent;
  }

  /** RB_NEXT, in no more turns than the tree is high. */
  method Next(h: Head, elm: Node) returns (next: Node?, ghost turns: nat)
    requires h.Valid() && elm in h.Elements()
    ensures Follows(h.Elements(), elm, next) && turns <= Height(h.shape)
  {
    NodesAreInOrder(h.shape);
    ghost var c, t := Locate(Top, h.shape, elm).0, Locate(Top, h.shape, elm).1;
    ghost var p, q := Before(c) + InOrder(t.left), InOrder(t.right) + After(c);
    OrderAround(c, t);
    DepthWithin(c, t);
    Look(h, c, t);
    if elm.right != null {
      WithoutLeast(t.right);
      next, turns := Leftmost(h, elm.right, In(c, Right, elm, t.red, t.left), t.right);
    } else {
      next, turns := Climb(h, elm, c, t);
    }
    assert next == First(q);
    assert (p + [elm] + q)[|p|] == elm && (p + [elm] + q)[|p| + 1..] == q;
  }
}
