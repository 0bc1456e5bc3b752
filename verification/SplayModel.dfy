/**
  The top-down splay tree of tree.h. The left-hand and right-hand halves of each step, which
  mirror each other, are one step here with the side as a parameter.
 */
module SplayModel {
  import opened Sequences
  import opened Sides

  class Node {
    const key: int
    var left: Node?
    var right: Node?

    constructor (key: int)
      ensures this.key == key && left == null && right == null
    {
      this.key, left, right := key, null, null;
    }

    function Child(s: Side): Node?
      reads this
    {
      if s == Left then left else right
    }

    method SetChild(s: Side, p: Node?)
      modifies this
      ensures Child(s) == p && Child(s.Other()) == old(Child(s.Other()))
    {
      if s == Left {
        left := p;
      } else {
        right := p;
      }
    }
  }

  datatype Tree = Leaf | Br(left: Tree, node: Node, right: Tree) {
    function Child(s: Side): Tree
      requires Br?
    {
      if s == Left then left else right
    }

    function Root(): Node? { if Br? then node else null }
  }

  function Join(s: Side, t: Tree, n: Node, sib: Tree): Tree {
    if s == Left then Br(t, n, sib) else Br(sib, n, t)
  }

  ghost function InOrder(t: Tree): seq<Node> {
    if t == Leaf then [] else InOrder(t.left) + [t.node] + InOrder(t.right)
  }

  ghost function Nodes(t: Tree): set<Node> {
    if t == Leaf then {} else Nodes(t.left) + {t.node} + Nodes(t.right)
  }

  ghost predicate Ascending(a: seq<Node>) {
    forall i, j :: 0 <= i < j < |a| ==> a[i].key < a[j].key
  }

  /** `x` lies on side `s` of `y`. */
  predicate Beyond(s: Side, x: int, y: int) { if s == Left then x < y else y < x }

  /** Nodes passed while going down on side `s`, the last on top, each with its subtree on the other side. */
  datatype Spine = Bare | Hung(up: Spine, node: Node, sib: Tree) {
    function Top(): Node? { if Bare? then null else if up.Bare? then node else up.Top() }
  }

  /** The tree a spine makes once `x` hangs below its last node. */
  ghost function Fill(s: Side, p: Spine, x: Tree): Tree {
    if p == Bare then x else Fill(s, p.up, Join(s, x, p.node, p.sib))
  }

  ghost function Passed(p: Spine): set<Node> {
    if p == Bare then {} else Passed(p.up) + {p.node} + Nodes(p.sib)
  }

  /** The two spines and the tree between them, put back together. */
  ghost function Assemble(l: Spine, t: Tree, r: Spine): Tree
    requires t.Br?
  {
    Br(Fill(Right, l, t.left), t.node, Fill(Left, r, t.right))
  }

  ghost function Rotated(s: Side, t: Tree): Tree
    requires t.Br? && t.Child(s.Other()).Br?
  {
    var up := t.Child(s.Other());
    Join(s, Join(s, t.Child(s), t.node, up.Child(s)), up.node, up.Child(s.Other()))
  }

  /** Where one turn of the loop goes down, and the tree it goes down from. */
  ghost function Turned(t: Tree, s: Side, k: int): (u: Tree)
    requires t.Br?
    ensures u.Br? && Size(u) == Size(t)
  {
    var next := t.Child(s);
    if next.Br? && Beyond(s, k, next.node.key) then Rotated(s.Other(), t) else t
  }

  ghost function Size(t: Tree): nat { if t == Leaf then 0 else Size(t.left) + 1 + Size(t.right) }

  ghost function Splayed(l: Spine, t: Tree, r: Spine, k: int): (u: Tree)
    requires t.Br?
    ensures u.Br?
    decreases Size(t)
  {
    if k == t.node.key then Assemble(l, t, r)
    else
      var s := if k < t.node.key then Left else Right;
      var u := Turned(t, s, k);
      if u.Child(s) == Leaf then Assemble(l, u, r)
      else if s == Left then Splayed(l, u.left, Hung(r, u.node, u.right), k)
      else Splayed(Hung(l, u.node, u.left), u.right, r, k)
  }

  // ----- Order -----

  /** The nodes of a spine passed on the right, all before what hangs below it. */
  ghost function Lead(p: Spine): seq<Node> {
    if p == Bare then [] else Lead(p.up) + (InOrder(p.sib) + [p.node])
  }

  /** The nodes of a spine passed on the left, all after what hangs below it. */
  ghost function Trail(p: Spine): seq<Node> {
    if p == Bare then [] else [p.node] + InOrder(p.sib) + Trail(p.up)
  }

  lemma {:induction false} FillOrder(p: Spine, x: Tree)
    ensures InOrder(Fill(Right, p, x)) == Lead(p) + InOrder(x)
    ensures InOrder(Fill(Left, p, x)) == InOrder(x) + Trail(p)
    decreases p
  {
    if p != Bare {
      FillOrder(p.up, Join(Right, x, p.node, p.sib));
      FillOrder(p.up, Join(Left, x, p.node, p.sib));
    }
  }

  lemma RotatedKeepsOrder(s: Side, t: Tree)
    requires t.Br? && t.Child(s.Other()).Br?
    ensures InOrder(Rotated(s, t)) == InOrder(t) && Nodes(Rotated(s, t)) == Nodes(t)
  {
    var up := t.Child(s.Other());
    if s == Left {
      TurnedOver(t.left, t.node, up.left, up.node, up.right);
    } else {
      TurnedOver(up.left, up.node, up.right, t.node, t.right);
    }
  }

  /** Three subtrees under two nodes, either of which may be above the other. */
  lemma TurnedOver(a: Tree, x: Node, b: Tree, y: Node, c: Tree)
    ensures InOrder(Br(Br(a, x, b), y, c)) == InOrder(Br(a, x, Br(b, y, c)))
    ensures Nodes(Br(Br(a, x, b), y, c)) == Nodes(Br(a, x, Br(b, y, c)))
  {
    Regroup(InOrder(a) + [x], InOrder(b), [y], InOrder(c));
  }

  lemma TurnedKeepsOrder(t: Tree, s: Side, k: int)
    requires t.Br?
    ensures InOrder(Turned(t, s, k)) == InOrder(t) && Nodes(Turned(t, s, k)) == Nodes(t)
  {
    var next := t.Child(s);
    if next.Br? && Beyond(s, k, next.node.key) { RotatedKeepsOrder(s.Other(), t); }
  }

  /** The order of two spines and what hangs between them, with the node between them singled out. */
  lemma OrderBetween(l: Spine, u: Tree, r: Spine)
    requires u.Br?
    ensures Lead(l) + InOrder(u) + Trail(r) == (Lead(l) + InOrder(u.left)) + [u.node] + (InOrder(u.right) + Trail(r))
    ensures Lead(l) + InOrder(u) + Trail(r) == Lead(l) + InOrder(u.left) + Trail(Hung(r, u.node, u.right))
    ensures Lead(l) + InOrder(u) + Trail(r) == Lead(Hung(l, u.node, u.left)) + InOrder(u.right) + Trail(r)
  {
    Regroup(Lead(l), InOrder(u.left) + [u.node], InOrder(u.right), Trail(r));
    Regroup(Lead(l), InOrder(u.left), [u.node], InOrder(u.right) + Trail(r));
    Regroup(Lead(l) + InOrder(u.left), [u.node], InOrder(u.right), Trail(r));
  }

  lemma {:induction false} SplayedKeepsOrder(l: Spine, t: Tree, r: Spine, k: int)
    requires t.Br?
    ensures InOrder(Splayed(l, t, r, k)) == Lead(l) + InOrder(t) + Trail(r)
    decreases Size(t)
  {
    var s := if k < t.node.key then Left else Right;
    var u := if k == t.node.key then t else Turned(t, s, k);
    TurnedKeepsOrder(t, s, k);
    OrderBetween(l, u, r);
    if k == t.node.key || u.Child(s) == Leaf {
      FillOrder(l, u.left);
      FillOrder(r, u.right);
    } else if s == Left {
      SplayedKeepsOrder(l, u.left, Hung(r, u.node, u.right), k);
    } else {
      SplayedKeepsOrder(Hung(l, u.node, u.left), u.right, r, k);
    }
  }

  // ----- What comes to the root -----

  ghost predicate AllBelow(a: seq<Node>, k: int) { forall n :: n in a ==> n.key < k }

  ghost predicate AllAbove(a: seq<Node>, k: int) { forall n :: n in a ==> k < n.key }

  /** The root holds `k`, or no other key lies between the root's and `k`. */
  ghost predicate Near(t: Tree, k: int) {
    t.Br? && (
      || t.node.key == k
      || (t.node.key < k && AllAbove(InOrder(t.right), k))
      || (k < t.node.key && AllBelow(InOrder(t.left), k)))
  }

  lemma AscendingSplit(t: Tree)
    requires t.Br? && Ascending(InOrder(t))
    ensures AllBelow(InOrder(t.left), t.node.key) && AllAbove(InOrder(t.right), t.node.key)
    ensures Ascending(InOrder(t.left)) && Ascending(InOrder(t.right))
  {
    AscendingAround(InOrder(t.left), t.node, InOrder(t.right));
  }

  lemma AscendingAround(p: seq<Node>, x: Node, q: seq<Node>)
    requires Ascending(p + [x] + q)
    ensures AllBelow(p, x.key) && AllAbove(q, x.key) && Ascending(p) && Ascending(q)
  {
    var a := p + [x] + q;
    assert a[|p|] == x && forall j :: 0 <= j < |p| ==> a[j] == p[j];
    assert forall j :: 0 <= j < |q| ==> a[|p| + 1 + j] == q[j];
  }

  /** Where there is nothing left to descend into, the root of what is put together is a neighbour. */
  lemma EndIsNear(l: Spine, u: Tree, r: Spine, s: Side, k: int)
    requires u.Br? && u.Child(s) == Leaf && Ascending(InOrder(u)) && AllBelow(Lead(l), k) && AllAbove(Trail(r), k)
    requires if s == Left then k < u.node.key else u.node.key < k
    ensures Near(Assemble(l, u, r), k)
  {
    hide Ascending;
    FillOrder(l, u.left);
    FillOrder(r, u.right);
  }

  lemma HungAbove(r: Spine, n: Node, sib: Tree, k: int)
    requires AllAbove(Trail(r), k) && k < n.key && AllAbove(InOrder(sib), n.key)
    ensures AllAbove(Trail(Hung(r, n, sib)), k)
  {
    hide InOrder;
  }

  lemma HungBelow(l: Spine, n: Node, sib: Tree, k: int)
    requires AllBelow(Lead(l), k) && n.key < k && AllBelow(InOrder(sib), n.key)
    ensures AllBelow(Lead(Hung(l, n, sib)), k)
  {
    hide InOrder;
  }

  lemma {:induction false} SplayedIsNear(l: Spine, t: Tree, r: Spine, k: int)
    requires t.Br? && Ascending(InOrder(t)) && AllBelow(Lead(l), k) && AllAbove(Trail(r), k)
    ensures Near(Splayed(l, t, r, k), k)
    decreases Size(t)
  {
    if k == t.node.key {
      SoughtIsNear(l, t, r, k);
    } else {
      hide Ascending, InOrder, AllBelow, AllAbove, Near, Lead, Trail;
      var s := if k < t.node.key then Left else Right;
      var u := Turned(t, s, k);
      TurnedKeepsOrder(t, s, k);
      TurnedStays(t, s, k);
      AscendingSplit(u);
      if u.Child(s) == Leaf {
        EndIsNear(l, u, r, s, k);
      } else if s == Left {
        HungAbove(r, u.node, u.right, k);
        SplayedIsNear(l, u.left, Hung(r, u.node, u.right), k);
      } else {
        HungBelow(l, u.node, u.left, k);
        SplayedIsNear(Hung(l, u.node, u.left), u.right, r, k);
      }
    }
  }

  lemma SoughtIsNear(l: Spine, t: Tree, r: Spine, k: int)
    requires t.Br? && t.node.key == k
    ensures Near(Assemble(l, t, r), k)
  {
  }

  /** The key lies on the same side of the root after the rotation. */
  lemma TurnedStays(t: Tree, s: Side, k: int)
    requires t.Br? && if s == Left then k < t.node.key else t.node.key < k
    ensures var u := Turned(t, s, k); if s == Left then k < u.node.key else u.node.key < k
  {
  }

  // ----- What the operations make of the tree -----

  /** What splaying does to an ordered tree. */
  lemma SplayedIsRight(t: Tree, k: int)
    requires t.Br? && Ascending(InOrder(t))
    ensures var u := Splayed(Bare, t, Bare, k);
      u.Br? && InOrder(u) == InOrder(t) && Near(u, k)
  {
    SplayedKeepsOrder(Bare, t, Bare, k);
    SplayedIsNear(Bare, t, Bare, k);
  }

  /** After a splay the key is in the tree just when it is at the root. */
  lemma NearDecides(t: Tree, k: int)
    requires Near(t, k) && Ascending(InOrder(t)) && t.node.key != k
    ensures forall n :: n in InOrder(t) ==> n.key != k
    ensures if k < t.node.key
            then AllBelow(InOrder(t.left), k) && AllAbove([t.node] + InOrder(t.right), k)
            else AllBelow(InOrder(t.left) + [t.node], k) && AllAbove(InOrder(t.right), k)
  {
    AscendingSplit(t);
  }

  lemma AscendingWith(p: seq<Node>, x: Node, q: seq<Node>)
    requires Ascending(p + q) && AllBelow(p, x.key) && AllAbove(q, x.key)
    ensures Ascending(p + [x] + q) && Inserted(p + q, |p|, x, p + [x] + q)
  {
    hide Inserted;
    var b := p + [x] + q;
    PutBetween(p, x, q);
    forall i, j | 0 <= i < j < |b| ensures b[i].key < b[j].key {
      PutAt(p, x, q, i);
      PutAt(p, x, q, j);
    }
  }

  lemma {:induction false} NodesAreInOrder(t: Tree)
    ensures forall n :: n in Nodes(t) <==> n in InOrder(t)
  {
    if t.Br? {
      NodesAreInOrder(t.left);
      NodesAreInOrder(t.right);
    }
  }

  /** When all keys lie below `k`, splaying towards `k` leaves the root without a right child. */
  lemma NothingAbove(u: Tree, k: int)
    requires Near(u, k) && AllBelow(InOrder(u), k)
    ensures u.right == Leaf
  {
    assert InOrder(u)[|InOrder(u.left)|] == u.node;
    assert forall n :: n in InOrder(u.right) ==> n in InOrder(u);
    NodesAreInOrder(u.right);
  }

  lemma Omitted(p: seq<Node>, x: Node, q: seq<Node>)
    requires Ascending(p + [x] + q)
    ensures Ascending(p + q) && Inserted(p + q, |p|, x, p + [x] + q)
  {
    hide Inserted;
    var a, b := p + q, p + [x] + q;
    PutBetween(p, x, q);
    forall i, j | 0 <= i < j < |a| ensures a[i].key < a[j].key {
      assert a[i] == if i < |p| then b[i] else b[i + 1];
      assert a[j] == if j < |p| then b[j] else b[j + 1];
    }
  }

  /** The tree with `elm` as its new root, cut on one side of the old root. */
  ghost function Crowned(t: Tree, elm: Node): Tree
    requires t.Br?
  {
    var s := if elm.key < t.node.key then Left else Right;
    Join(s, t.Child(s), elm, Join(s, Leaf, t.node, t.Child(s.Other())))
  }

  lemma CrownedNodes(t: Tree, elm: Node)
    requires t.Br?
    ensures Nodes(Crowned(t, elm)) == Nodes(t) + {elm}
  {
    OrderOfBr(Leaf, t.node, t.right);
    OrderOfBr(t.left, t.node, Leaf);
  }

  lemma CrownedOrder(t: Tree, elm: Node)
    requires t.Br?
    ensures InOrder(Crowned(t, elm)) ==
            if elm.key < t.node.key then InOrder(t.left) + [elm] + ([t.node] + InOrder(t.right))
            else (InOrder(t.left) + [t.node]) + [elm] + InOrder(t.right)
  {
    if elm.key < t.node.key {
      OrderOfBr(Leaf, t.node, t.right);
      OrderOfBr(t.left, elm, Br(Leaf, t.node, t.right));
    } else {
      OrderOfBr(t.left, t.node, Leaf);
      OrderOfBr(Br(t.left, t.node, Leaf), elm, t.right);
    }
  }

  lemma OrderOfBr(l: Tree, n: Node, r: Tree)
    ensures InOrder(Br(l, n, r)) == InOrder(l) + [n] + InOrder(r) && Nodes(Br(l, n, r)) == Nodes(l) + {n} + Nodes(r)
    ensures l == Leaf ==> InOrder(Br(l, n, r)) == [n] + InOrder(r)
    ensures r == Leaf ==> InOrder(Br(l, n, r)) == InOrder(l) + [n]
  {
  }

  lemma CrownedIsRight(t: Tree, elm: Node)
    requires Near(t, elm.key) && Ascending(InOrder(t)) && t.node.key != elm.key
    ensures Ascending(InOrder(Crowned(t, elm))) && Nodes(Crowned(t, elm)) == Nodes(t) + {elm} && elm !in Nodes(t)
    ensures exists i :: Inserted(InOrder(t), i, elm, InOrder(Crowned(t, elm)))
  {
    NearDecides(t, elm.key);
    NodesAreInOrder(t);
    CrownedNodes(t, elm);
    CrownedOrder(t, elm);
    Associate(InOrder(t.left), [t.node], InOrder(t.right));
    if elm.key < t.node.key {
      AscendingWith(InOrder(t.left), elm, [t.node] + InOrder(t.right));
    } else {
      AscendingWith(InOrder(t.left) + [t.node], elm, InOrder(t.right));
    }
  }

  /** The tree without its root, which holds `k`: what the left subtree splays up takes its place. */
  ghost function Uprooted(t: Tree, k: int): Tree
    requires t.Br?
  {
    if t.left == Leaf then t.right
    else
      var u := Splayed(Bare, t.left, Bare, k);
      Br(u.left, u.node, t.right)
  }

  lemma HungBehind(u: Tree, r: Tree)
    requires u.Br? && u.right == Leaf
    ensures InOrder(Br(u.left, u.node, r)) == InOrder(u) + InOrder(r)
  {
    assert InOrder(u) == InOrder(u.left) + [u.node];
  }

  lemma UprootedOrder(t: Tree)
    requires t.Br? && Ascending(InOrder(t))
    ensures InOrder(Uprooted(t, t.node.key)) == InOrder(t.left) + InOrder(t.right)
    ensures t.left.Br? ==> Splayed(Bare, t.left, Bare, t.node.key).right == Leaf
  {
    hide Splayed;
    AscendingSplit(t);
    if t.left.Br? {
      var u := Splayed(Bare, t.left, Bare, t.node.key);
      SplayedIsRight(t.left, t.node.key);
      NothingAbove(u, t.node.key);
      HungBehind(u, t.right);
    } else {
      assert [] + InOrder(t.right) == InOrder(t.right);
    }
  }

  lemma UprootedIsRight(t: Tree)
    requires t.Br? && Ascending(InOrder(t))
    ensures Ascending(InOrder(Uprooted(t, t.node.key)))
    ensures Inserted(InOrder(Uprooted(t, t.node.key)), |InOrder(t.left)|, t.node, InOrder(t))
  {
    UprootedOrder(t);
    Omitted(InOrder(t.left), t.node, InOrder(t.right));
  }
}
