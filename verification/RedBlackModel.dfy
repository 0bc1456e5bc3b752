/**
  Red-black trees as values, seen whole or from one position inside. The two mirror-image
  halves of every case are one case here, with the side as a parameter.
 */
module RedBlackModel {
  import opened Sequences
  import opened Sides

  /** One element: the key its comparator looks at, and the links embedded in it. */
  class Node {
    const key: int
    var left: Node?
    var right: Node?
    var parent: Node?
    var red: bool

    constructor (key: int)
      ensures this.key == key && left == null && right == null && parent == null && !red
    {
      this.key := key;
      left, right, parent, red := null, null, null, false;
    }

    function Child(s: Side): Node?
      reads this
    {
      if s == Left then left else right
    }
  }

  datatype Tree = Leaf | Br(left: Tree, node: Node, red: bool, right: Tree) {
    function Child(s: Side): Tree
      requires Br?
    {
      if s == Left then left else right
    }

    function Root(): Node? { if Br? then node else null }

    function Paint(red: bool): Tree { if Br? then this.(red := red) else this }
  }

  /** The tree with `t` on side `s` of `n` and `sib` on the other. */
  function Join(s: Side, t: Tree, n: Node, red: bool, sib: Tree): Tree {
    if s == Left then Br(t, n, red, sib) else Br(sib, n, red, t)
  }

  /** What surrounds a position: the path up to the root, with the subtrees hanging off it. */
  datatype Context = Top | In(up: Context, side: Side, node: Node, red: bool, sib: Tree) {
    function Above(): Node? { if In? then node else null }
  }

  ghost function Plug(c: Context, t: Tree): Tree {
    match c
    case Top => t
    case In(up, s, n, red, sib) => Plug(up, Join(s, t, n, red, sib))
  }

  ghost function Nodes(t: Tree): set<Node> {
    match t
    case Leaf => {}
    case Br(l, n, _, r) => Nodes(l) + {n} + Nodes(r)
  }

  ghost function Around(c: Context): set<Node> {
    match c
    case Top => {}
    case In(up, _, n, _, sib) => Around(up) + {n} + Nodes(sib)
  }

  lemma {:induction false} NodesOfPlug(c: Context, t: Tree)
    ensures Nodes(Plug(c, t)) == Around(c) + Nodes(t)
    decreases c
  {
    match c
    case Top =>
    case In(up, s, n, red, sib) => NodesOfPlug(up, Join(s, t, n, red, sib));
  }

  // ----- Order -----

  ghost function InOrder(t: Tree): seq<Node> {
    match t
    case Leaf => []
    case Br(l, n, _, r) => InOrder(l) + [n] + InOrder(r)
  }

  /** What precedes a position in the order of the whole tree. */
  ghost function Before(c: Context): seq<Node> {
    match c
    case Top => []
    case In(up, s, n, _, sib) => if s == Left then Before(up) else Before(up) + (InOrder(sib) + [n])
  }

  /** What follows a position in the order of the whole tree. */
  ghost function After(c: Context): seq<Node> {
    match c
    case Top => []
    case In(up, s, n, _, sib) => if s == Left then [n] + InOrder(sib) + After(up) else After(up)
  }

  lemma {:induction false} InOrderOfPlug(c: Context, t: Tree)
    ensures InOrder(Plug(c, t)) == Before(c) + InOrder(t) + After(c)
    decreases c
  {
    match c
    case Top =>
    case In(up, s, n, red, sib) =>
      InOrderOfPlug(up, Join(s, t, n, red, sib));
      Regroup(Before(up), InOrder(sib) + [n], InOrder(t), After(up));
      Regroup(Before(up), InOrder(t), [n] + InOrder(sib), After(up));
  }

  /** The same with the node of a non-empty tree singled out. */
  lemma OrderAround(c: Context, t: Tree)
    requires t.Br?
    ensures InOrder(Plug(c, t)) == (Before(c) + InOrder(t.left)) + [t.node] + (InOrder(t.right) + After(c))
  {
    InOrderOfPlug(c, t);
    Regroup(Before(c), InOrder(t.left) + [t.node], InOrder(t.right), After(c));
    Regroup(Before(c), InOrder(t.left), [t.node], InOrder(t.right) + After(c));
  }

  lemma {:induction false} NodesAreInOrder(t: Tree)
    ensures forall n :: n in Nodes(t) <==> n in InOrder(t)
  {
    match t
    case Leaf =>
    case Br(l, _, _, r) => NodesAreInOrder(l); NodesAreInOrder(r);
  }

  ghost predicate Ascending(s: seq<Node>) {
    forall i, j :: 0 <= i < j < |s| ==> s[i].key < s[j].key
  }

  // ----- Colour -----

  predicate Red(t: Tree) { t.Br? && t.red }

  predicate RedAbove(c: Context) { c.In? && c.red }

  function Level(red: bool): nat { if red then 0 else 1 }

  ghost function BlackHeight(t: Tree): nat {
    match t
    case Leaf => 0
    case Br(l, _, red, _) => BlackHeight(l) + Level(red)
  }

  /** Every path down from the root meets the same number of black nodes. */
  ghost predicate Balanced(t: Tree) {
    match t
    case Leaf => true
    case Br(l, _, _, r) => Balanced(l) && Balanced(r) && BlackHeight(l) == BlackHeight(r)
  }

  /** No red node has a red child. */
  ghost predicate RedsApart(t: Tree) {
    match t
    case Leaf => true
    case Br(l, _, red, r) => RedsApart(l) && RedsApart(r) && (red ==> !Red(l) && !Red(r))
  }

  ghost predicate RedBlack(t: Tree) { Balanced(t) && RedsApart(t) && !Red(t) }

  ghost predicate Good(t: Tree, h: nat) { Balanced(t) && RedsApart(t) && BlackHeight(t) == h }

  lemma GoodJoin(s: Side, t: Tree, n: Node, red: bool, sib: Tree, h: nat)
    requires Good(t, h) && Good(sib, h) && (red ==> !Red(t) && !Red(sib))
    ensures Good(Join(s, t, n, red, sib), h + Level(red))
  {
  }

  lemma GoodChildren(t: Tree, h: nat)
    requires t.Br? && Good(t, h)
    ensures Level(t.red) <= h && Good(t.left, h - Level(t.red)) && Good(t.right, h - Level(t.red))
    ensures t.red ==> !Red(t.left) && !Red(t.right)
  {
  }

  /** The surroundings are balanced once the position holds a tree of black height `h`. */
  ghost predicate BalancedAround(c: Context, h: nat) {
    match c
    case Top => true
    case In(up, _, _, red, sib) =>
      Balanced(sib) && BlackHeight(sib) == h && BalancedAround(up, h + Level(red))
  }

  /** The surroundings hold no red pair of their own, and a root among them is black. */
  ghost predicate RedsApartAround(c: Context) {
    match c
    case Top => true
    case In(up, _, _, red, sib) =>
      RedsApart(sib) && RedsApartAround(up) && (red ==> !Red(sib) && up.In? && !up.red)
  }

  ghost predicate Fits(c: Context, t: Tree) {
    && Balanced(t) && RedsApart(t)
    && BalancedAround(c, BlackHeight(t)) && RedsApartAround(c)
    && (RedAbove(c) || c.Top? ==> !Red(t))
  }

  lemma {:induction false} PlugFits(c: Context, t: Tree)
    ensures Fits(c, t) <==> RedBlack(Plug(c, t))
    decreases c
  {
    match c
    case Top =>
    case In(up, s, n, red, sib) => PlugFits(up, Join(s, t, n, red, sib));
  }

  // ----- Height -----

  ghost function Height(t: Tree): nat {
    match t
    case Leaf => 0
    case Br(l, _, _, r) => 1 + if Height(l) > Height(r) then Height(l) else Height(r)
  }

  ghost function Depth(c: Context): nat { if c.Top? then 0 else 1 + Depth(c.up) }

  /** A position is no deeper than the whole tree is high. */
  lemma {:induction false} DepthWithin(c: Context, t: Tree)
    ensures Depth(c) + Height(t) <= Height(Plug(c, t))
    decreases c
  {
    if c.In? { DepthWithin(c.up, Join(c.side, t, c.node, c.red, c.sib)); }
  }

  ghost function Pow2(n: nat): nat { if n == 0 then 1 else 2 * Pow2(n - 1) }

  lemma {:induction false} HeightWithinBlackHeight(t: Tree)
    requires Balanced(t) && RedsApart(t)
    ensures Height(t) <= 2 * BlackHeight(t) + if Red(t) then 1 else 0
  {
    match t
    case Leaf =>
    case Br(l, _, _, r) => HeightWithinBlackHeight(l); HeightWithinBlackHeight(r);
  }

  lemma {:induction false} BlackHeightWithinSize(t: Tree)
    requires Balanced(t)
    ensures Pow2(BlackHeight(t)) <= |InOrder(t)| + 1
  {
    match t
    case Leaf =>
    case Br(l, _, _, r) => BlackHeightWithinSize(l); BlackHeightWithinSize(r);
  }

  lemma {:induction false} Pow2Adds(a: nat, b: nat)
    ensures Pow2(a + b) == Pow2(a) * Pow2(b) && Pow2(a) >= 1
  {
    if a > 0 {
      Pow2Adds(a - 1, b);
      assert Pow2(a + b) == 2 * Pow2(a - 1 + b);
    }
  }

  /** The documented bound: a tree of n nodes is at most 2 lg (n + 1) high. */
  lemma HeightBound(t: Tree)
    requires RedBlack(t)
    ensures Pow2(Height(t)) <= (|InOrder(t)| + 1) * (|InOrder(t)| + 1)
  {
    HeightWithinBlackHeight(t);
    BlackHeightWithinSize(t);
    var slack := 2 * BlackHeight(t) - Height(t);
    Pow2Adds(BlackHeight(t), BlackHeight(t));
    Pow2Adds(Height(t), slack);
    Pow2Adds(slack, 0);
    ProductBound(Pow2(Height(t)), Pow2(slack), Pow2(BlackHeight(t)), |InOrder(t)| + 1);
  }

  lemma ProductBound(p: nat, q: nat, b: nat, n: nat)
    requires q >= 1 && p * q == b * b && b <= n
    ensures p <= n * n
  {
    assert p <= p * q;
    assert b * b <= b * n <= n * n;
  }

  // ----- Rotation -----

  /** Turns `t` towards side `s`: the child on the other side comes up. */
  ghost function Rotated(s: Side, t: Tree): Tree
    requires t.Br? && t.Child(s.Other()).Br?
  {
    var up := t.Child(s.Other());
    Join(s, Join(s, t.Child(s), t.node, t.red, up.Child(s)), up.node, up.red, up.Child(s.Other()))
  }

  lemma RotatedKeepsOrder(s: Side, t: Tree)
    requires t.Br? && t.Child(s.Other()).Br?
    ensures InOrder(Rotated(s, t)) == InOrder(t) && Nodes(Rotated(s, t)) == Nodes(t)
  {
    var up := t.Child(s.Other());
    Regroup(InOrder(t.Child(s)) + [t.node], InOrder(up.Child(s)), [up.node], InOrder(up.Child(s.Other())));
  }

  // ----- Fix-up after an insertion -----

  /** The parent's subtree, turned if need be so that the red pair lies on the grandparent's outer side. */
  ghost function Raised(c: Context, t: Tree): Tree
    requires t.Br? && c.In? && c.up.In?
    ensures Raised(c, t).Br?
  {
    var parent := Join(c.side, t, c.node, true, c.sib);
    if c.side == c.up.side then parent else Rotated(c.up.side, parent)
  }

  /** What takes the grandparent's place when the uncle is black. */
  ghost function Settled(c: Context, t: Tree): Tree
    requires t.Br? && c.In? && c.up.In?
  {
    var g := c.up;
    Rotated(g.side.Other(), Join(g.side, Raised(c, t).Paint(false), g.node, true, g.sib))
  }

  /** The tree that results once the red tree `t` has been put at position `c`. */
  ghost function InsertFix(c: Context, t: Tree): Tree
    requires t.Br? && RedsApartAround(c)
    decreases c
  {
    if !RedAbove(c) then Plug(c, t).Paint(false)
    else
      assert RedsApartAround(c.up);
      var g := c.up;
      if Red(g.sib) then
        var parent := Join(c.side, t, c.node, false, c.sib);
        InsertFix(g.up, Join(g.side, parent, g.node, true, g.sib.Paint(false)))
      else
        Plug(g.up, Settled(c, t)).Paint(false)
  }

  ghost predicate ReadyForInsertFix(c: Context, t: Tree) {
    Red(t) && Balanced(t) && RedsApart(t) && BalancedAround(c, BlackHeight(t)) && RedsApartAround(c)
  }

  lemma SettledIsGood(c: Context, t: Tree, h: nat)
    requires Red(t) && Good(t, h) && c.In? && Good(c.sib, h) && !Red(c.sib)
    requires c.up.In? && Good(c.up.sib, h) && !Red(c.up.sib)
    ensures Good(Settled(c, t), h + 1) && !Red(Settled(c, t))
  {
    var g, top := c.up, Raised(c, t);
    var inner, outer := top.Child(g.side.Other()), top.Child(g.side);
    GoodChildren(t, h);
    if c.side != g.side { GoodJoin(g.side, c.sib, c.node, true, t.Child(g.side), h); }
    GoodJoin(g.side, inner, g.node, true, g.sib, h);
    GoodJoin(g.side, outer, top.node, false, Join(g.side, inner, g.node, true, g.sib), h);
    assert Settled(c, t) == Join(g.side, outer, top.node, false, Join(g.side, inner, g.node, true, g.sib));
  }

  lemma {:induction false} InsertFixIsRedBlack(c: Context, t: Tree)
    requires ReadyForInsertFix(c, t)
    ensures RedBlack(InsertFix(c, t))
    decreases c
  {
    if !RedAbove(c) {
      PlugFits(c, t);
      PlugFits(c, t.Paint(false));
    } else {
      var g := c.up;
      assert RedsApartAround(g) && BalancedAround(g, BlackHeight(t));
      if Red(g.sib) {
        var parent := Join(c.side, t, c.node, false, c.sib);
        InsertFixIsRedBlack(g.up, Join(g.side, parent, g.node, true, g.sib.Paint(false)));
      } else {
        SettledIsGood(c, t, BlackHeight(t));
        PlugFits(g.up, Settled(c, t));
      }
    }
  }

  lemma {:induction false} InsertFixKeepsOrder(c: Context, t: Tree)
    requires t.Br? && RedsApartAround(c)
    ensures InOrder(InsertFix(c, t)) == InOrder(Plug(c, t))
    decreases c
  {
    if RedAbove(c) {
      var g := c.up;
      assert RedsApartAround(g);
      var parent := Join(c.side, t, c.node, true, c.sib);
      InOrderOfPlug(g.up, Join(g.side, parent, g.node, g.red, g.sib));
      if Red(g.sib) {
        var t' := Join(g.side, parent.Paint(false), g.node, true, g.sib.Paint(false));
        InsertFixKeepsOrder(g.up, t');
        InOrderOfPlug(g.up, t');
      } else {
        if c.side != g.side { RotatedKeepsOrder(g.side, parent); }
        RotatedKeepsOrder(g.side.Other(), Join(g.side, Raised(c, t).Paint(false), g.node, true, g.sib));
        InOrderOfPlug(g.up, Settled(c, t));
      }
    }
  }

  // ----- Fix-up after a removal -----

  /** A position that lost one black level. */
  ghost predicate Short(c: Context, t: Tree) {
    Balanced(t) && RedsApart(t.Paint(false)) && BalancedAround(c, BlackHeight(t) + 1) && RedsApartAround(c)
  }

  /** A red sibling, painted black and turned up over the parent, which turns red. */
  ghost function BlackSibling(c: Context): (r: Context)
    requires c.In?
    requires Red(c.sib) ==> c.sib.Child(c.side).Br?
  {
    if Red(c.sib) then
      In(In(c.up, c.side, c.sib.node, false, c.sib.Child(c.side.Other())), c.side, c.node, true, c.sib.Child(c.side))
    else c
  }

  /** The parent's subtree once the sibling has given up a level too. */
  ghost function Levelled(c: Context, t: Tree): Tree
    requires c.In?
  {
    Join(c.side, t, c.node, c.red, c.sib.Paint(true))
  }

  /** The parent's subtree ready for the last rotation: the far nephew black, the colours exchanged. */
  ghost function Borrowed(c: Context, t: Tree): (r: Tree)
    requires c.In? && c.sib.Br? && (Red(c.sib.left) || Red(c.sib.right))
    ensures r.Br? && r.Child(c.side.Other()).Br?
  {
    var far := c.side.Other();
    var sib := if Red(c.sib.Child(far)) then c.sib else
      Rotated(far, Join(c.side, c.sib.Child(c.side).Paint(false), c.sib.node, true, c.sib.Child(far)));
    Join(c.side, t, c.node, false, Join(far, sib.Child(far).Paint(false), sib.node, c.red, sib.Child(c.side)))
  }

  /** The tree that results when the sibling can spare a red node. */
  ghost function Repaid(c: Context, t: Tree): Tree
    requires c.In? && c.sib.Br? && (Red(c.sib.left) || Red(c.sib.right))
  {
    Plug(c.up, Rotated(c.side, Borrowed(c, t)))
  }

  lemma ShortHasSibling(c: Context, t: Tree)
    requires c.In? && Short(c, t) && !Red(t)
    ensures c.sib.Br? && (Red(c.sib) ==> c.sib.Child(c.side).Br?)
    ensures var b := BlackSibling(c); Short(b, t) && b.sib.Br? && !b.sib.red
  {
    GoodChildren(c.sib, BlackHeight(t) + 1);
  }

  lemma LevelledIsShort(c: Context, t: Tree)
    requires c.In? && Short(c, t) && !Red(t) && c.sib.Br? && !c.sib.red && !Red(c.sib.left) && !Red(c.sib.right)
    ensures Short(c.up, Levelled(c, t))
  {
    var h := BlackHeight(t);
    GoodChildren(c.sib, h + 1);
    GoodJoin(Left, c.sib.left, c.sib.node, true, c.sib.right, h);
    GoodJoin(c.side, t, c.node, false, c.sib.Paint(true), h);
  }

  /** The tree that results when position `c`, holding `t`, is one black level short. */
  ghost function RemoveFix(c: Context, t: Tree): Tree
    requires Short(c, t)
    decreases c
  {
    if Red(t) || c.Top? then Plug(c, t.Paint(false))
    else
      ShortHasSibling(c, t);
      var b := BlackSibling(c);
      if Red(b.sib.left) || Red(b.sib.right) then
        Repaid(b, t).Paint(false)
      else if Red(c.sib) then
        Plug(b.up, Levelled(b, t).Paint(false))
      else
        LevelledIsShort(c, t);
        RemoveFix(c.up, Levelled(c, t))
  }

  lemma BorrowedIsGood(c: Context, t: Tree, h: nat)
    requires c.In? && Good(t, h) && !Red(t) && c.sib.Br? && Good(c.sib, h + 1) && !c.sib.red
    requires Red(c.sib.left) || Red(c.sib.right)
    ensures var r := Rotated(c.side, Borrowed(c, t)); Good(r, h + 1 + Level(c.red)) && r.red == c.red && !Red(r.left) && !Red(r.right)
  {
    var s, far := c.side, c.side.Other();
    GoodChildren(c.sib, h + 1);
    var near, n, outer;
    if Red(c.sib.Child(far)) {
      near, n, outer := c.sib.Child(s), c.sib.node, c.sib.Child(far);
      GoodChildren(outer, h);
    } else {
      var mid := c.sib.Child(s);
      GoodChildren(mid, h);
      near, n, outer := mid.Child(s), mid.node, Join(far, c.sib.Child(far), c.sib.node, true, mid.Child(far));
    }
    GoodJoin(s, t, c.node, false, near, h);
    GoodJoin(far, outer.Child(far), outer.node, false, outer.Child(s), h);
    GoodJoin(s, Join(s, t, c.node, false, near), n, c.red, outer.Paint(false), h + 1);
    assert Rotated(s, Borrowed(c, t)) == Join(s, Join(s, t, c.node, false, near), n, c.red, outer.Paint(false));
  }

  lemma RepaidIsRedBlack(c: Context, t: Tree)
    requires Short(c, t) && !Red(t) && c.In? && c.sib.Br? && !c.sib.red && (Red(c.sib.left) || Red(c.sib.right))
    ensures RedBlack(Repaid(c, t))
  {
    BorrowedIsGood(c, t, BlackHeight(t));
    PlugFits(c.up, Rotated(c.side, Borrowed(c, t)));
  }

  lemma {:induction false} RemoveFixIsRedBlack(c: Context, t: Tree)
    requires Short(c, t)
    ensures RedBlack(RemoveFix(c, t))
    decreases c
  {
    if Red(t) || c.Top? {
      PlugFits(c, t.Paint(false));
    } else {
      ShortHasSibling(c, t);
      var b := BlackSibling(c);
      if Red(b.sib.left) || Red(b.sib.right) {
        RepaidIsRedBlack(b, t);
      } else {
        LevelledIsShort(b, t);
        if Red(c.sib) {
          PlugFits(b.up, Levelled(b, t).Paint(false));
        } else {
          RemoveFixIsRedBlack(c.up, Levelled(c, t));
        }
      }
    }
  }

  lemma BorrowedKeepsOrder(c: Context, t: Tree)
    requires c.In? && c.sib.Br? && (Red(c.sib.left) || Red(c.sib.right))
    ensures InOrder(Rotated(c.side, Borrowed(c, t))) == InOrder(Join(c.side, t, c.node, c.red, c.sib))
  {
    var far := c.side.Other();
    if !Red(c.sib.Child(far)) {
      var sib := Join(c.side, c.sib.Child(c.side).Paint(false), c.sib.node, true, c.sib.Child(far));
      RotatedKeepsOrder(far, sib);
      assert InOrder(sib) == InOrder(c.sib);
    }
    assert InOrder(Borrowed(c, t).Child(far)) == InOrder(c.sib);
    RotatedKeepsOrder(c.side, Borrowed(c, t));
  }

  lemma BlackSiblingKeepsOrder(c: Context, t: Tree)
    requires c.In? && (Red(c.sib) ==> c.sib.Child(c.side).Br?)
    ensures InOrder(Plug(BlackSibling(c), t)) == InOrder(Plug(c, t))
  {
    if Red(c.sib) {
      var before := Join(c.side, t, c.node, true, c.sib.Paint(false));
      RotatedKeepsOrder(c.side, before);
      InOrderOfPlug(c.up, Rotated(c.side, before));
      InOrderOfPlug(c.up, Join(c.side, t, c.node, c.red, c.sib));
      assert Plug(BlackSibling(c), t) == Plug(c.up, Rotated(c.side, before));
    }
  }

  lemma {:induction false} RemoveFixKeepsOrder(c: Context, t: Tree)
    requires Short(c, t)
    ensures InOrder(RemoveFix(c, t)) == InOrder(Plug(c, t))
    decreases c
  {
    if Red(t) || c.Top? {
      InOrderOfPlug(c, t);
      InOrderOfPlug(c, t.Paint(false));
    } else {
      ShortHasSibling(c, t);
      BlackSiblingKeepsOrder(c, t);
      var b := BlackSibling(c);
      InOrderOfPlug(b.up, Join(b.side, t, b.node, b.red, b.sib));
      if Red(b.sib.left) || Red(b.sib.right) {
        BorrowedKeepsOrder(b, t);
        InOrderOfPlug(b.up, Rotated(b.side, Borrowed(b, t)));
      } else if Red(c.sib) {
        InOrderOfPlug(b.up, Levelled(b, t).Paint(false));
      } else {
        LevelledIsShort(c, t);
        RemoveFixKeepsOrder(c.up, Levelled(c, t));
        InOrderOfPlug(c.up, Levelled(c, t));
      }
    }
  }

  // ----- Taking a node out -----

  /** The position of the least node of `r`, which itself sits at `base`. */
  ghost function Descent(base: Context, r: Tree): Context
    requires r.Br?
    decreases r
  {
    if r.left.Leaf? then base else Descent(In(base, Left, r.node, r.red, r.right), r.left)
  }

  /** Going down to the least node passes no more nodes than the tree is high. */
  lemma {:induction false} DescentWithin(base: Context, r: Tree)
    requires r.Br?
    ensures Depth(Descent(base, r)) < Depth(base) + Height(r)
    decreases r
  {
    if r.left.Br? { DescentWithin(In(base, Left, r.node, r.red, r.right), r.left); }
  }

  ghost function Least(r: Tree): (m: Tree)
    requires r.Br?
    ensures m.Br? && m.left == Leaf && m.node in Nodes(r)
  {
    if r.left.Leaf? then r else Least(r.left)
  }

  /** `r` with `x` in the place of its least subtree. */
  ghost function Without(r: Tree, x: Tree): Tree
    requires r.Br?
  {
    if r.left.Leaf? then x else Br(Without(r.left, x), r.node, r.red, r.right)
  }

  lemma {:induction false} DescentPlugs(base: Context, r: Tree, x: Tree)
    requires r.Br?
    ensures Plug(Descent(base, r), x) == Plug(base, Without(r, x))
    ensures Plug(Descent(base, r), Least(r)) == Plug(base, r)
    ensures Before(Descent(base, r)) == Before(base)
    decreases r
  {
    if r.left.Br? { DescentPlugs(In(base, Left, r.node, r.red, r.right), r.left, x); }
  }

  /** Surroundings that look alike from the outside still do below the same descent. */
  lemma {:induction false} DescentAlike(a: Context, b: Context, r: Tree, h: nat)
    requires r.Br? && a.In? && b.In? && RedAbove(a) == RedAbove(b) && RedsApartAround(a) == RedsApartAround(b)
    requires forall k :: BalancedAround(a, k) == BalancedAround(b, k)
    ensures BalancedAround(Descent(a, r), h) == BalancedAround(Descent(b, r), h)
    ensures RedsApartAround(Descent(a, r)) == RedsApartAround(Descent(b, r))
    ensures RedAbove(Descent(a, r)) == RedAbove(Descent(b, r)) && Descent(a, r).In? && Descent(b, r).In?
    decreases r
  {
    if r.left.Br? {
      DescentAlike(In(a, Left, r.node, r.red, r.right), In(b, Left, r.node, r.red, r.right), r.left, h);
    }
  }

  lemma {:induction false} DescentAbove(a: Context, b: Context, r: Tree)
    requires r.Br? && a.In? && b.In?
    ensures if r.left == Leaf then Descent(a, r) == a && Descent(b, r) == b
            else Descent(a, r).Above() == Descent(b, r).Above() && Descent(a, r).In? && Descent(a, r).node in Nodes(r)
    decreases r
  {
    if r.left.Br? { DescentAbove(In(a, Left, r.node, r.red, r.right), In(b, Left, r.node, r.red, r.right), r.left); }
  }

  lemma {:induction false} WithoutLeast(r: Tree)
    requires r.Br?
    ensures InOrder(r) == [Least(r).node] + InOrder(Without(r, Least(r).right))
  {
    if r.left.Br? { WithoutLeast(r.left); }
  }

  /** Where the links close up when the node of `t` is taken out: a position, what it then holds, the lost colour. */
  datatype Hole = Hole(at: Context, held: Tree, red: bool)

  /** With two children the successor gives up its own place, to take that of the node. */
  ghost function HoleOf(c: Context, t: Tree): Hole
    requires t.Br?
  {
    if t.left == Leaf then Hole(c, t.right, t.red)
    else if t.right == Leaf then Hole(c, t.left, t.red)
    else
      var m := Least(t.right);
      Hole(Descent(In(c, Right, m.node, t.red, t.left), t.right), m.right, m.red)
  }

  lemma HoleWithin(c: Context, t: Tree)
    requires t.Br?
    ensures Depth(HoleOf(c, t).at) <= Height(Plug(c, t))
  {
    DepthWithin(c, t);
    if t.left.Br? && t.right.Br? {
      var m := Least(t.right);
      DescentWithin(In(c, Right, m.node, t.red, t.left), t.right);
    }
  }

  /** A node with at most one child is replaced by that child; a black one leaves a level missing. */
  lemma TakenOut(c: Context, t: Tree, x: Tree)
    requires Fits(c, t) && t.Br? && ((t.left == Leaf && x == t.right) || (t.right == Leaf && x == t.left))
    ensures if t.red then Fits(c, x) else Short(c, x)
  {
    GoodChildren(t, BlackHeight(t));
  }

  lemma HoleFits(c: Context, t: Tree)
    requires RedBlack(Plug(c, t)) && t.Br?
    ensures var o := HoleOf(c, t); if o.red then RedBlack(Plug(o.at, o.held)) else Short(o.at, o.held)
  {
    hide RedBlack, Fits, Short, Plug, Descent, Least;
    var o := HoleOf(c, t);
    PlugFits(c, t);
    PlugFits(o.at, o.held);
    if t.left == Leaf || t.right == Leaf {
      TakenOut(c, t, o.held);
    } else {
      SuccessorFits(c, t);
      TakenOut(o.at, Least(t.right), o.held);
    }
  }

  /** The successor fits its place also below its own new place. */
  lemma SuccessorFits(c: Context, t: Tree)
    requires Fits(c, t) && t.Br? && t.right.Br?
    ensures var m := Least(t.right); Fits(Descent(In(c, Right, m.node, t.red, t.left), t.right), m)
  {
    var m, base := Least(t.right), In(c, Right, t.node, t.red, t.left);
    PlugFits(c, t);
    assert Plug(base, t.right) == Plug(c, t);
    DescentPlugs(base, t.right, m);
    PlugFits(Descent(base, t.right), m);
    DescentAlike(base, In(c, Right, m.node, t.red, t.left), t.right, BlackHeight(m));
  }

  lemma HoleOrder(c: Context, t: Tree)
    requires t.Br?
    ensures var o := HoleOf(c, t);
      InOrder(Plug(o.at, o.held)) == Before(c) + InOrder(t.left) + (InOrder(t.right) + After(c))
  {
    if t.left == Leaf || t.right == Leaf {
      InOrderOfPlug(c, HoleOf(c, t).held);
    } else {
      SuccessorOrder(c, t);
    }
  }

  lemma SuccessorOrder(c: Context, t: Tree)
    requires t.Br? && t.right.Br?
    ensures var m := Least(t.right);
      InOrder(Plug(Descent(In(c, Right, m.node, t.red, t.left), t.right), m.right)) ==
        Before(c) + InOrder(t.left) + (InOrder(t.right) + After(c))
  {
    hide InOrder, Plug, Descent, Least, Without;
    var m := Least(t.right);
    var moved, rest := In(c, Right, m.node, t.red, t.left), Without(t.right, m.right);
    DescentPlugs(moved, t.right, m.right);
    InOrderOfPlug(moved, rest);
    WithoutLeast(t.right);
    Regroup(Before(c) + InOrder(t.left), [m.node], InOrder(rest), After(c));
    assert Before(moved) == Before(c) + InOrder(t.left) + [m.node];
  }

  /** What the tree becomes when the node of `t` is taken out. */
  ghost function Removed(c: Context, t: Tree): Tree
    requires RedBlack(Plug(c, t)) && t.Br?
  {
    HoleFits(c, t);
    var o := HoleOf(c, t);
    if o.red then Plug(o.at, o.held) else RemoveFix(o.at, o.held)
  }

  lemma RemovedIsRight(c: Context, t: Tree)
    requires RedBlack(Plug(c, t)) && t.Br?
    ensures RedBlack(Removed(c, t))
    ensures InOrder(Removed(c, t)) == Before(c) + InOrder(t.left) + (InOrder(t.right) + After(c))
  {
    HoleFits(c, t);
    HoleOrder(c, t);
    var o := HoleOf(c, t);
    if !o.red {
      RemoveFixIsRedBlack(o.at, o.held);
      RemoveFixKeepsOrder(o.at, o.held);
    }
  }

  /** A position, within the tree `t` at position `c`, where the node `n` sits. */
  ghost function Locate(c: Context, t: Tree, n: Node): (r: (Context, Tree))
    requires n in Nodes(t)
    ensures Plug(r.0, r.1) == Plug(c, t) && r.1.Br? && r.1.node == n
    decreases t
  {
    if n == t.node then (c, t)
    else if n in Nodes(t.left) then Locate(In(c, Left, t.node, t.red, t.right), t.left, n)
    else Locate(In(c, Right, t.node, t.red, t.left), t.right, n)
  }
}
