/** What the rotations of a splay are for: the nodes on the way to the key come half as deep. */
module SplayDepth {
  import opened Sides
  import opened SplayModel

  /** How many nodes a search for `k` meets. */
  ghost function Way(t: Tree, k: int): nat {
    if t == Leaf then 0
    else if k == t.node.key then 1
    else 1 + Way(if k < t.node.key then t.left else t.right, k)
  }

  ghost predicate OnWay(t: Tree, k: int, n: Node) {
    t.Br? && (t.node == n || (k != t.node.key && OnWay(if k < t.node.key then t.left else t.right, k, n)))
  }

  ghost predicate AtDepth(t: Tree, n: Node, d: nat) {
    t.Br? && if d == 0 then t.node == n else AtDepth(t.left, n, d - 1) || AtDepth(t.right, n, d - 1)
  }

  ghost function Length(p: Spine): nat { if p == Bare then 0 else Length(p.up) + 1 }

  /** How deep a spine's nodes, and the roots of what hangs beside them, come in the tree it makes. */
  ghost predicate InSpine(p: Spine, n: Node, d: nat) {
    p.Hung? && (
      || (n == p.node && d == Length(p.up))
      || (n == p.sib.Root() && d == Length(p.up) + 1)
      || InSpine(p.up, n, d))
  }

  lemma {:induction false} FillDeeper(s: Side, p: Spine, x: Tree, n: Node, d: nat)
    requires AtDepth(x, n, d)
    ensures AtDepth(Fill(s, p, x), n, d + Length(p))
    decreases p
  {
    if p != Bare {
      assert AtDepth(Join(s, x, p.node, p.sib), n, d + 1);
      FillDeeper(s, p.up, Join(s, x, p.node, p.sib), n, d + 1);
    }
  }

  lemma {:induction false} FillHas(s: Side, p: Spine, x: Tree, n: Node, d: nat)
    requires InSpine(p, n, d)
    ensures AtDepth(Fill(s, p, x), n, d)
    decreases p
  {
    var y := Join(s, x, p.node, p.sib);
    if n == p.node && d == Length(p.up) {
      FillDeeper(s, p.up, y, n, 0);
    } else if n == p.sib.Root() && d == Length(p.up) + 1 {
      assert AtDepth(p.sib, n, 0) && AtDepth(y, n, 1);
      FillDeeper(s, p.up, y, n, 1);
    } else {
      FillHas(s, p.up, y, n, d);
    }
  }

  lemma AssembledHas(l: Spine, t: Tree, r: Spine, n: Node, d: nat)
    requires t.Br? && (InSpine(l, n, d) || InSpine(r, n, d))
    ensures AtDepth(Assemble(l, t, r), n, d + 1)
  {
    if InSpine(l, n, d) { FillHas(Right, l, t.left, n, d); } else { FillHas(Left, r, t.right, n, d); }
  }

  /** What hangs in a spine stays where it is. */
  lemma {:induction false} SplayedHas(l: Spine, t: Tree, r: Spine, k: int, n: Node, d: nat)
    requires t.Br? && (InSpine(l, n, d) || InSpine(r, n, d))
    ensures AtDepth(Splayed(l, t, r, k), n, d + 1)
    decreases Size(t)
  {
    hide AtDepth;
    if k == t.node.key {
      AssembledHas(l, t, r, n, d);
    } else {
      var s := if k < t.node.key then Left else Right;
      var u := Turned(t, s, k);
      if u.Child(s) == Leaf {
        AssembledHas(l, u, r, n, d);
      } else if s == Left {
        SplayedHas(l, u.left, Hung(r, u.node, u.right), k, n, d);
      } else {
        SplayedHas(Hung(l, u.node, u.left), u.right, r, k, n, d);
      }
    }
  }

  /** How deep a node on the way may come: the spine that gains a node first gets half of it. */
  function Bound(near: nat, far: nat, way: nat): nat
    requires way > 0
  {
    1 + if near + way / 2 >= far + (way - 1) / 2 then near + way / 2 else far + (way - 1) / 2
  }

  ghost function BoundOf(l: Spine, t: Tree, r: Spine, k: int): nat
    requires t.Br?
  {
    if k == t.node.key then 0
    else if k < t.node.key then Bound(Length(r), Length(l), Way(t, k)) else Bound(Length(l), Length(r), Way(t, k))
  }

  /** The tree as it is put together at the end: its root, and the root of a subtree on either side. */
  lemma AssembledTop(l: Spine, u: Tree, r: Spine)
    requires u.Br?
    ensures AtDepth(Assemble(l, u, r), u.node, 0)
    ensures u.right.Br? ==> AtDepth(Assemble(l, u, r), u.right.node, Length(r) + 1)
    ensures u.left.Br? ==> AtDepth(Assemble(l, u, r), u.left.node, Length(l) + 1)
  {
    if u.right.Br? { FillDeeper(Left, r, u.right, u.right.node, 0); }
    if u.left.Br? { FillDeeper(Right, l, u.left, u.left.node, 0); }
  }

  /** One turn of the loop in a tree: the nodes it takes off the way, and where it goes on. */
  lemma TurnOnWay(t: Tree, s: Side, k: int, n: Node)
    requires t.Br? && OnWay(t, k, n) && Beyond(s, k, t.node.key)
    ensures var u := Turned(t, s, k); var rest := u.Child(s);
      && (n == u.node || (u != t && u.Child(s.Other()).Root() == n) || OnWay(rest, k, n))
      && Way(t, k) == Way(rest, k) + (if u == t then 1 else 2)
      && (u == t && rest.Br? ==> rest.node.key == k || Beyond(s.Other(), k, rest.node.key))
  {
  }

  lemma SplayedOnce(l: Spine, t: Tree, r: Spine, k: int)
    requires t.Br? && k != t.node.key
    ensures var s := if k < t.node.key then Left else Right; var u := Turned(t, s, k);
      Splayed(l, t, r, k) ==
        if u.Child(s) == Leaf then Assemble(l, u, r)
        else if s == Left then Splayed(l, u.left, Hung(r, u.node, u.right), k)
        else Splayed(Hung(l, u.node, u.left), u.right, r, k)
  {
  }

  /** Both when two nodes are taken off the way and when one is, after which the way turns to the other side. */
  lemma BoundKept(near: nat, far: nat, way: nat)
    requires way > 0
    ensures near + 1 <= Bound(near, far, way) && (way > 1 ==> near + 2 <= Bound(near, far, way))
    ensures way > 2 ==> Bound(near + 1, far, way - 2) <= Bound(near, far, way)
    ensures way > 2 ==> Bound(far, near + 1, way - 2) <= Bound(near, far, way)
    ensures way > 1 ==> Bound(far, near + 1, way - 1) <= Bound(near, far, way)
  {
    assert way > 2 ==> (way - 2) / 2 == way / 2 - 1 && (way - 3) / 2 == (way - 1) / 2 - 1;
  }

  /** Where the loop goes on, the bound is no greater. */
  lemma BoundFurther(l: Spine, t: Tree, r: Spine, k: int, n: Node)
    requires t.Br? && k != t.node.key && OnWay(t, k, n)
    ensures var s := if k < t.node.key then Left else Right; var u := Turned(t, s, k);
      && (u.Child(s).Br? && s == Left ==> BoundOf(l, u.left, Hung(r, u.node, u.right), k) <= BoundOf(l, t, r, k))
      && (u.Child(s).Br? && s == Right ==> BoundOf(Hung(l, u.node, u.left), u.right, r, k) <= BoundOf(l, t, r, k))
      && var near := Length(if s == Left then r else l);
        near + 1 <= BoundOf(l, t, r, k) && (u != t ==> near + 2 <= BoundOf(l, t, r, k))
  {
    hide Bound, OnWay, Way, Turned;
    var s := if k < t.node.key then Left else Right;
    TurnOnWay(t, s, k, n);
    WayOfLeaf(t, k, n);
    WayOfLeaf(Turned(t, s, k).Child(s), k, n);
    if s == Left { BoundKept(Length(r), Length(l), Way(t, k)); } else { BoundKept(Length(l), Length(r), Way(t, k)); }
  }

  lemma NewestHas(p: Spine, u: Node, sib: Tree)
    ensures InSpine(Hung(p, u, sib), u, Length(p)) && (sib.Br? ==> InSpine(Hung(p, u, sib), sib.node, Length(p) + 1))
  {
  }

  lemma {:induction false} ComesUp(l: Spine, t: Tree, r: Spine, k: int, n: Node) returns (d: nat)
    requires t.Br? && OnWay(t, k, n)
    ensures AtDepth(Splayed(l, t, r, k), n, d) && d <= BoundOf(l, t, r, k)
    decreases Size(t)
  {
    if k == t.node.key {
      d := 0;
      AssembledTop(l, t, r);
    } else {
      hide AtDepth, OnWay, Way, Assemble, Splayed, BoundOf, InSpine;
      var s := if k < t.node.key then Left else Right;
      var u := Turned(t, s, k);
      SplayedOnce(l, t, r, k);
      TurnOnWay(t, s, k, n);
      BoundFurther(l, t, r, k, n);
      WayOfLeaf(u.Child(s), k, n);
      NewestHas(r, u.node, u.right);
      NewestHas(l, u.node, u.left);
      hide Turned;
      if u.Child(s) == Leaf {
        AssembledTop(l, u, r);
        d := if n == u.node then 0 else Length(if s == Left then r else l) + 1;
      } else if n == u.node || (u != t && u.Child(s.Other()).Root() == n) {
        d := Length(if s == Left then r else l) + if n == u.node then 1 else 2;
        if s == Left {
          SplayedHas(l, u.left, Hung(r, u.node, u.right), k, n, d - 1);
        } else {
          SplayedHas(Hung(l, u.node, u.left), u.right, r, k, n, d - 1);
        }
      } else if s == Left {
        d := ComesUp(l, u.left, Hung(r, u.node, u.right), k, n);
      } else {
        d := ComesUp(Hung(l, u.node, u.left), u.right, r, k, n);
      }
    }
  }

  lemma WayOfLeaf(t: Tree, k: int, n: Node)
    ensures t == Leaf ==> !OnWay(t, k, n) && Way(t, k) == 0
    ensures t.Br? ==> Way(t, k) > 0 && (t.node.key == k ==> Way(t, k) == 1)
  {
  }

  /** Every node met on the way to `k` comes to lie, after the splay, no deeper than half as many as were met, and one. */
  lemma SplayHalves(t: Tree, k: int, n: Node) returns (d: nat)
    requires t.Br? && OnWay(t, k, n)
    ensures AtDepth(Splayed(Bare, t, Bare, k), n, d) && d <= Way(t, k) / 2 + 1
  {
    d := ComesUp(Bare, t, Bare, k, n);
  }
}
