/** The router's radix tree, split and extended in place. */
module RadixTree {
  import opened Options
  import opened RadixModel

  method CommonLength(s: string, t: string) returns (i: nat)
    ensures i == Common(s, t)
  {
    i := 0;
    while i < |s| && i < |t|
      invariant i <= |s| && i <= |t| && Common(s, t) == i + Common(s[i..], t[i..])
    {
      if s[i] != t[i] {
        break;
      }
      i := i + 1;
    }
  }

  class Node<V(0)> {
    var isEmpty: bool
    var key: string
    var child: Node?<V>
    var next: Node?<V>
    var value: V

    ghost var shape: Forest<V>
    ghost var repr: set<object>

    /** `shape` is what this node, its children and its later siblings spell out. */
    ghost predicate Valid()
      reads this, repr
      ensures Valid() ==> this in repr
    {
      && this in repr
      && shape.Cons? && shape.isEmpty == isEmpty && shape.key == key && shape.value == value
      && (if child == null then shape.child == Nil
          else child in repr && child.repr <= repr && this !in child.repr && child.Valid() && child.shape == shape.child)
      && (if next == null then shape.next == Nil
          else next in repr && next.repr <= repr && this !in next.repr && next.Valid() && next.shape == shape.next)
      && (child != null && next != null ==> child.repr !! next.repr)
    }

    constructor (isEmpty: bool, key: string, child: Node?<V>, next: Node?<V>, value: V)
      requires child != null ==> child.Valid()
      requires next != null ==> next.Valid()
      requires child != null && next != null ==> child.repr !! next.repr
      ensures Valid()
      ensures repr == {this} + (if child == null then {} else child.repr) + if next == null then {} else next.repr
      ensures shape == Cons(isEmpty := isEmpty, key := key, value := value,
                            child := if child == null then Nil else child.shape,
                            next := if next == null then Nil else next.shape)
    {
      this.isEmpty, this.key, this.child, this.next, this.value := isEmpty, key, child, next, value;
      shape := Cons(key, isEmpty, value, if child == null then Nil else child.shape, if next == null then Nil else next.shape);
      repr := {this} + (if child == null then {} else child.repr) + if next == null then {} else next.repr;
    }

    /** Splits the node after `n` characters; its old contents become its only child. */
    method Split(n: nat)
      requires Valid() && n <= |key|
      modifies this
      ensures Valid() && fresh(repr - old(repr)) && child != null && child.next == null
      ensures shape == Cons(old(key)[..n], true, old(value), old(shape).(key := old(key)[n..], next := Nil), old(shape).next)
    {
      var rest := new Node(isEmpty, key[n..], child, null, value);
      isEmpty, key, child := true, key[..n], rest;
      repr := repr + rest.repr;
      shape := Cons(key, true, value, rest.shape, shape.next);
    }

    /** Puts a new node after a child that has no sibling yet. */
    method AddSecondChild(key: string, value: V)
      requires Valid() && child != null && child.next == null && shape.child.Cons?
      modifies repr
      ensures Valid() && fresh(repr - old(repr))
      ensures shape == old(shape).(child := old(shape).child.(next := Lone(key, value)))
    {
      var lone := new Node(false, key, null, null, value);
      child.AppendNext(lone);
      repr := repr + child.repr;
      shape := shape.(child := child.shape);
    }

    method AppendNext(lone: Node<V>)
      requires Valid() && lone.Valid() && next == null && repr !! lone.repr
      modifies this
      ensures Valid() && repr == old(repr) + lone.repr
      ensures shape == old(shape).(next := lone.shape) && next == lone
    {
      next := lone;
      repr := repr + lone.repr;
      shape := shape.(next := lone.shape);
    }

    /** The key belongs among the later siblings. */
    method SetNext(key: string, value: V)
      requires Valid()
      modifies repr
      ensures Valid() && fresh(repr - old(repr))
      ensures shape == old(shape).(next := Put(old(shape).next, key, value))
      decreases shape, 0
    {
      if next == null {
        next := new Node(false, key, null, null, value);
      } else {
        next.SetNode(key, value);
      }
      repr := repr + next.repr;
      shape := shape.(next := next.shape);
    }

    /** The rest of the key belongs among the children. */
    method SetChild(key: string, value: V)
      requires Valid()
      modifies repr
      ensures Valid() && fresh(repr - old(repr))
      ensures shape == old(shape).(child := Put(old(shape).child, key, value))
      decreases shape, 0
    {
      if child == null {
        child := new Node(false, key, null, null, value);
      } else {
        child.SetNode(key, value);
      }
      repr := repr + child.repr;
      shape := shape.(child := child.shape);
    }

    method Assign(value: V)
      requires Valid()
      modifies this
      ensures Valid() && repr == old(repr)
      ensures shape == old(shape).(isEmpty := false, value := value)
    {
      isEmpty, this.value := false, value;
      shape := shape.(isEmpty := false, value := value);
    }

    /** `setNode`. */
    method SetNode(key: string, value: V)
      requires Valid()
      modifies repr
      ensures Valid() && fresh(repr - old(repr))
      ensures shape == Set(old(shape), key, value)
      decreases shape, 1
    {
      var n := CommonLength(this.key, key);
      if n == 0 {
        SetNext(key, value);
      } else if n < |this.key| {
        Split(n);
        if |key| == n {
          Assign(value);
        } else {
          AddSecondChild(key[n..], value);
        }
      } else if n == |key| {
        Assign(value);
      } else {
        SetChild(key[n..], value);
      }
    }

    /** `getNode`. */
    method GetNode(key: string) returns (r: Option<V>)
      requires Valid()
      ensures r == Get(shape, key)
      decreases shape
    {
      var n := CommonLength(this.key, key);
      if n == |this.key| - 1 && this.key[|this.key| - 1] == WILDCARD {
        return Some(value);
      }
      if n == 0 {
        if next == null {
          return None;
        }
        r := next.GetNode(key);
      } else if n < |this.key| {
        r := None;
      } else if n == |key| {
        r := if isEmpty then None else Some(value);
      } else if child == null {
        r := None;
      } else {
        r := child.GetNode(key[n..]);
      }
    }
  }

  class RadixTree<V(0,!new)> {
    var root: Node?<V>
    ghost var updates: seq<Update<V>>

    /** The nodes spell out the tree that the updates so far build. */
    ghost predicate Valid()
      reads this, root, if root == null then {} else root.repr
    {
      if root == null then updates == []
      else this !in root.repr && root.Valid() && root.shape == Build(updates)
    }

    ghost function Footprint(): set<object>
      reads this, root
    {
      {this} + if root == null then {} else {root} + root.repr
    }

    constructor ()
      ensures Valid() && updates == [] && root == null
    {
      root, updates := null, [];
    }

    method Set(key: string, value: V)
      requires Valid()
      modifies Footprint()
      ensures Valid() && updates == old(updates) + [Update(key, value)]
      ensures root != null && fresh(Footprint() - old(Footprint()))
    {
      if root == null {
        root := new Node(false, key, null, null, value);
      } else {
        BuildIsCons(updates, root.shape);
        root.SetNode(key, value);
      }
      updates := updates + [Update(key, value)];
      assert updates[..|updates| - 1] == old(updates);
    }

    lemma BuildIsCons(us: seq<Update<V>>, f: Forest<V>)
      requires f == Build(us) && f.Cons?
      ensures us != []
    {
    }

    /** With wildcard-free keys, looking up a key finds what was last stored under it. */
    method Get(key: string) returns (r: Option<V>)
      requires Valid() && root != null
      ensures r == RadixModel.Get(Build(updates), key)
      ensures (forall u :: u in updates ==> Plain(u.key)) ==>
                r == if key != "" && key in Dictionary(updates) then Some(Dictionary(updates)[key]) else None
    {
      BuildIsCons(updates, root.shape);
      if forall u :: u in updates ==> Plain(u.key) { GetIsLookUp(updates, key); }
      r := root.GetNode(key);
    }
  }
}
