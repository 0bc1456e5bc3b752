/**
  What the router finds is decided by the order of its updates: at the place where a wildcard and
  the rest of the query part, the one that came first is tried first.
 */
module RadixOrder {
  import opened Options
  import opened RadixModel

  /** The search for `q` ends at a wildcard whose stem is shorter than `q`: the length of the stem, or -1. */
  function Shade<V>(f: Forest<V>, q: string): (n: int)
    ensures -1 <= n && (n >= 0 ==> n < |q|)
    decreases f
  {
    if f == Nil then -1
    else
      var n := Common(f.key, q);
      if n == |f.key| - 1 && f.key[n] == WILDCARD then if n < |q| then n else -1
      else if n == 0 then Shade(f.next, q)
      else if n < |f.key| || n == |q| then -1
      else Beyond(n, Shade(f.child, q[n..]))
  }

  function Beyond(n: nat, shade: int): int { if shade < 0 then -1 else n + shade }

  /** How far the keys of the tree go along with `q`. */
  function Depth<V>(f: Forest<V>, q: string): (n: nat)
    decreases f
  {
    if f == Nil then 0
    else
      var n := Common(f.key, q);
      if n == 0 then Depth(f.next, q)
      else if n < |f.key| || n == |q| then n
      else n + Depth(f.child, q[n..])
  }

  lemma WalkOnce<V>(f: Forest<V>, q: string)
    ensures f == Nil ==> Shade(f, q) == -1 && Depth(f, q) == 0
    ensures f.Cons? ==>
              var n := Common(f.key, q);
              && Shade(f, q) == (
                if n == |f.key| - 1 && f.key[n] == WILDCARD then if n < |q| then n else -1
                else if n == 0 then Shade(f.next, q)
                else if n < |f.key| || n == |q| then -1
                else Beyond(n, Shade(f.child, q[n..])))
              && Depth(f, q) ==
                if n == 0 then Depth(f.next, q)
                else if n < |f.key| || n == |q| then n
                else n + Depth(f.child, q[n..])
  {
  }

  function Max(a: nat, b: nat): nat { if a < b then b else a }

  lemma SamePrefix(s: string, t: string, n: nat, m: nat)
    requires m <= n <= |s| && n <= |t| && s[..n] == t[..n]
    ensures s[..m] == t[..m] && (m < n ==> s[m] == t[m])
  {
    assert s[..n][..m] == s[..m] && t[..n][..m] == t[..m];
    if m < n { assert s[..n][m] == s[m] && t[..n][m] == t[m]; }
  }

  /** Of three strings two share no more than each shares with the third, unless that is the same. */
  lemma CommonThird(a: string, k: string, q: string)
    ensures Common(a, k) < Common(a, q) ==> Common(k, q) == Common(a, k)
    ensures Common(a, q) < Common(a, k) ==> Common(k, q) == Common(a, q)
    ensures Common(a, q) == Common(a, k) ==> Common(k, q) >= Common(a, k)
  {
    hide Common;
    var n, c := Common(a, k), Common(a, q);
    var m := if n < c then n else c;
    SamePrefix(a, k, n, m);
    SamePrefix(a, q, c, m);
    if n == c { CommonBelow(k, q, m); } else { CommonIs(k, q, m); }
  }

  lemma CommonPrefix(k: string, q: string)
    ensures k[..Common(k, q)] == q[..Common(k, q)]
  {
  }

  lemma CommonOfPrefix(k: string, s: string)
    ensures k <= s ==> Common(k, s) == Common(s, k) == |k|
  {
    if k <= s {
      CommonBelow(k, s, |k|);
      CommonBelow(s, k, |k|);
    }
  }

  /** `key` is a wildcard whose stem is a proper prefix of `q`. */
  predicate Covers(key: string, q: string) { EndsWild(key) && Common(key, q) == |key| - 1 < |q| }

  lemma LoneWalk<V>(key: string, value: V, q: string)
    ensures Depth(Lone(key, value), q) == Common(key, q)
    ensures Shade(Lone(key, value), q) == if Covers(key, q) then |key| - 1 else -1
  {
    hide Shade, Depth, Common;
    var f: Forest<V> := Nil;
    WalkOnce(Lone(key, value), q);
    WalkOnce(f, q);
    WalkOnce(f, q[Common(key, q)..]);
  }

  /** A node split after `n` characters, its old contents followed by `sib`. */
  ghost function Parted<V>(f: Forest<V>, n: nat, sib: Forest<V>, isEmpty: bool, value: V): Forest<V>
    requires f.Cons? && n < |f.key|
  {
    Cons(f.key[..n], isEmpty, value, Cons(f.key[n..], f.isEmpty, f.value, f.child, sib), f.next)
  }

  /** Splitting a node changes the search only for queries that part from its key at the split. */
  lemma PartedWalk<V>(f: Forest<V>, n: nat, sib: Forest<V>, e: bool, v: V, q: string)
    requires f.Cons? && 0 < n < |f.key| && f.key[n - 1] != WILDCARD
    ensures var g, c := Parted(f, n, sib, e, v), Common(f.key, q);
      && (c != n ==> Depth(g, q) == Depth(f, q) && Shade(g, q) == Shade(f, q))
      && (c == n == |q| ==> Depth(g, q) == Depth(f, q) == n && Shade(g, q) == Shade(f, q))
      && (c == n < |q| ==>
        && Depth(f, q) == n && Depth(g, q) == n + Depth(sib, q[n..])
        && if n == |f.key| - 1 && f.key[n] == WILDCARD then Shade(g, q) == Shade(f, q)
           else Shade(f, q) == -1 && Shade(g, q) == Beyond(n, Shade(sib, q[n..])))
  {
    hide Shade, Depth, Common;
    var g, c := Parted(f, n, sib, e, v), Common(f.key, q);
    WalkOnce(f, q);
    WalkOnce(g, q);
    PartedCommon(f.key, n, q);
    if c == n < |q| {
      WalkOnce(g.child, q[n..]);
    } else if c > n {
      PartedPast(f, n, sib, q);
    }
  }

  lemma PartedPast<V>(f: Forest<V>, n: nat, sib: Forest<V>, q: string)
    requires f.Cons? && 0 < n < |f.key| && n < Common(f.key, q)
    ensures var rest := Cons(f.key[n..], f.isEmpty, f.value, f.child, sib);
      n < |q| && Depth(f, q) == n + Depth(rest, q[n..]) && Shade(f, q) == Beyond(n, Shade(rest, q[n..]))
  {
    hide Shade, Depth, Common;
    var c := Common(f.key, q);
    PartedCommon(f.key, n, q);
    WalkOnce(f, q);
    WalkOnce(Cons(f.key[n..], f.isEmpty, f.value, f.child, sib), q[n..]);
    Behind(f.key, n, c);
    Behind(q, n, c);
  }

  lemma Behind(s: string, n: nat, c: nat)
    requires n <= c <= |s|
    ensures s[n..][c - n..] == s[c..] && (c < |s| ==> s[n..][c - n] == s[c])
  {
  }

  lemma PartedCommon(k: string, n: nat, q: string)
    requires 0 < n < |k|
    ensures var c := Common(k, q);
      && Common(k[..n], q) == (if c < n then c else n)
      && (c >= n ==> n <= |q| && Common(k[n..], q[n..]) == c - n)
  {
    hide Common;
    var c := Common(k, q);
    var m := if c < n then c else n;
    SamePrefix(k, q, c, m);
    assert k[..n][..m] == k[..m] && (m < n ==> k[..n][m] == k[m]);
    CommonIs(k[..n], q, m);
    if c >= n { CommonBelow(k, q, n); }
  }

  /** An update puts the query in the shade of a wildcard by bringing it to where no key goes on yet. */
  function ShadeAfter(shade: int, depth: nat, key: string, q: string): int {
    if shade >= 0 then shade else if Covers(key, q) && depth < |key| then |key| - 1 else -1
  }

  /** The search in `g` is that in `f` after an update of `key`. */
  ghost predicate Follows<V>(f: Forest<V>, g: Forest<V>, key: string, q: string) {
    Depth(g, q) == Max(Depth(f, q), Common(key, q)) && Shade(g, q) == ShadeAfter(Shade(f, q), Depth(f, q), key, q)
  }

  lemma SetParts<V>(f: Forest<V>, key: string, value: V)
    requires f.Cons? && 0 < Common(f.key, key) < |f.key|
    ensures var n := Common(f.key, key);
      Set(f, key, value) ==
        Parted(f, n, if n == |key| then Nil else Lone(key[n..], value), n < |key|, if n == |key| then value else f.value)
  {
    hide Common;
  }

  lemma FollowsSplit<V>(f: Forest<V>, key: string, value: V, q: string)
    requires f.Cons? && WildLeaves(f) && TailWild(key) && Plain(q) && 0 < Common(f.key, key) < |f.key|
    ensures Follows(f, Set(f, key, value), key, q)
  {
    hide Shade, Depth, Common, WildLeaves, Set, Parted;
    var n, c := Common(f.key, key), Common(f.key, q);
    assert TailWild(f.key) by { WildOnce(f); }
    var lone := if n == |key| then Nil else Lone(key[n..], value);
    SetParts(f, key, value);
    CommonThird(f.key, key, q);
    WalkOnce(f, q);
    PartedWalk(f, n, lone, n < |key|, if n == |key| then value else f.value, q);
    if c == n {
      CommonBelow(key, q, n);
      WalkOnce(lone, q[n..]);
      LoneWalk(key[n..], value, q[n..]);
    }
  }

  lemma WildOnce<V>(f: Forest<V>)
    requires f.Cons? && WildLeaves(f)
    ensures TailWild(f.key) && (EndsWild(f.key) ==> f.child == Nil && !f.isEmpty) && WildLeaves(f.child) && WildLeaves(f.next)
  {
  }

  lemma FollowsNext<V>(f: Forest<V>, key: string, value: V, q: string)
    requires f.Cons? && TailWild(key) && q != "" && Common(f.key, key) == 0
    requires Follows(f.next, Put(f.next, key, value), key, q)
    ensures Follows(f, Set(f, key, value), key, q)
  {
    hide Shade, Depth, Common;
    CommonThird(f.key, key, q);
    WalkOnce(f, q);
    WalkOnce(Set(f, key, value), q);
  }

  lemma FollowsHere<V>(f: Forest<V>, value: V, q: string)
    requires f.Cons? && f.key != "" && q != ""
    ensures Follows(f, f.(isEmpty := false, value := value), f.key, q)
  {
    hide Shade, Depth, Common;
    WalkOnce(f, q);
    WalkOnce(f.(isEmpty := false, value := value), q);
  }

  lemma FollowsPast<V>(f: Forest<V>, child: Forest<V>, key: string, q: string)
    requires f.Cons? && f.key != "" && f.key < key && f.key[|f.key| - 1] != WILDCARD && q != "" && !(f.key < q)
    ensures Follows(f, f.(child := child), key, q)
  {
    hide Shade, Depth, Common;
    var n, c := |f.key|, Common(f.key, q);
    CommonOfPrefix(f.key, key);
    CommonThird(f.key, key, q);
    CommonPrefix(f.key, q);
    WalkOnce(f, q);
    WalkOnce(f.(child := child), q);
  }

  lemma FollowsDown<V>(f: Forest<V>, child: Forest<V>, key: string, q: string)
    requires f.Cons? && f.key != "" && f.key < key && f.key[|f.key| - 1] != WILDCARD && f.key < q
    requires Follows(f.child, child, key[|f.key|..], q[|f.key|..])
    ensures Follows(f, f.(child := child), key, q)
  {
    hide Shade, Depth, Common;
    var n := |f.key|;
    CommonOfPrefix(f.key, q);
    CommonBelow(key, q, n);
    WalkOnce(f, q);
    WalkOnce(f.(child := child), q);
  }

  lemma {:induction false} SetFollows<V>(f: Forest<V>, key: string, value: V, q: string)
    requires WildLeaves(f) && TailWild(key) && Plain(q) && q != ""
    ensures Follows(f, Put(f, key, value), key, q)
    decreases f
  {
    hide Follows, Common;
    if f == Nil {
      LoneFollows(key, value, q);
    } else {
      var n := Common(f.key, key);
      if n == 0 {
        SetFollows(f.next, key, value, q);
        FollowsNext(f, key, value, q);
      } else if n < |f.key| {
        FollowsSplit(f, key, value, q);
      } else {
        CommonPrefix(f.key, key);
        if f.key == key {
          FollowsHere(f, value, q);
        } else {
          assert key[n - 1] == f.key[n - 1];
          var child := Put(f.child, key[n..], value);
          if f.key < q {
            SetFollows(f.child, key[n..], value, q[n..]);
            FollowsDown(f, child, key, q);
          } else {
            FollowsPast(f, child, key, q);
          }
        }
      }
    }
  }

  lemma LoneFollows<V>(key: string, value: V, q: string)
    ensures Follows(Nil, Lone(key, value), key, q)
  {
    hide Shade, Depth, Common;
    var f: Forest<V> := Nil;
    WalkOnce(f, q);
    LoneWalk(key, value, q);
  }

  // ----- Runs -----

  /** How much of `q` the keys of the updates share with it, at most. */
  function Shared<V>(us: seq<Update<V>>, q: string): nat {
    if us == [] then 0 else Max(Shared(us[..|us| - 1], q), Common(us[|us| - 1].key, q))
  }

  function Shaded<V>(us: seq<Update<V>>, q: string): (n: int)
    ensures -1 <= n && (n >= 0 ==> n < |q|)
  {
    if us == [] then -1
    else ShadeAfter(Shaded(us[..|us| - 1], q), Shared(us[..|us| - 1], q), us[|us| - 1].key, q)
  }

  lemma {:induction false} BuildFollows<V>(us: seq<Update<V>>, q: string)
    requires (forall u :: u in us ==> TailWild(u.key)) && Plain(q) && q != ""
    ensures Shade(Build(us), q) == Shaded(us, q) && Depth(Build(us), q) == Shared(us, q)
  {
    if us == [] {
      var f: Forest<V> := Nil;
      WalkOnce(f, q);
    } else {
      hide Shade, Depth, Common;
      var f, u := Build(us[..|us| - 1]), us[|us| - 1];
      BuildFollows(us[..|us| - 1], q);
      BuildIsWild(us[..|us| - 1]);
      SetFollows(f, u.key, u.value, q);
    }
  }

  /** Update `i` is of the wildcard on the first `n` characters of `q`, and no earlier key goes along with `q` further. */
  ghost predicate ShadowsAt<V>(us: seq<Update<V>>, q: string, n: nat, i: int)
    requires n < |q|
  {
    0 <= i < |us| && us[i].key == q[..n] + STAR && forall j :: 0 <= j < i ==> Common(us[j].key, q) <= n
  }

  /** The wildcard on the first `n` characters of `q` was set before any key that goes along with `q` further than that. */
  ghost predicate Shadows<V>(us: seq<Update<V>>, q: string, n: nat) { n < |q| && exists i :: ShadowsAt(us, q, n, i) }

  lemma CommonWithStem(q: string, n: nat)
    requires n < |q| && Plain(q)
    ensures Common(q[..n] + STAR, q) == n && Covers(q[..n] + STAR, q)
  {
    CommonBelow(q[..n] + STAR, q, n);
    assert (q[..n] + STAR)[n..] == STAR;
  }

  lemma CoversIsStem(key: string, q: string)
    requires Covers(key, q)
    ensures key == q[..|key| - 1] + STAR
  {
  }

  lemma {:induction false} SharedIsMost<V>(us: seq<Update<V>>, q: string, n: nat)
    ensures Shared(us, q) <= n <==> forall j :: 0 <= j < |us| ==> Common(us[j].key, q) <= n
  {
    hide Common;
    if us != [] { SharedIsMost(us[..|us| - 1], q, n); }
  }

  lemma ShadowsAtMore<V>(us: seq<Update<V>>, q: string, n: nat, i: int)
    requires us != [] && n < |q|
    ensures var before, key := us[..|us| - 1], us[|us| - 1].key;
      ShadowsAt(us, q, n, i) <==>
        if i == |us| - 1 then key == q[..n] + STAR && Shared(before, q) <= n else ShadowsAt(before, q, n, i)
  {
    hide Common, Shared;
    var before := us[..|us| - 1];
    SharedIsMost(before, q, n);
    assert forall j :: 0 <= j < |before| ==> us[j] == before[j];
  }

  lemma ShadowsMore<V>(us: seq<Update<V>>, q: string, n: nat)
    requires us != [] && n < |q|
    ensures var before, key := us[..|us| - 1], us[|us| - 1].key;
      Shadows(us, q, n) <==> Shadows(before, q, n) || (key == q[..n] + STAR && Shared(before, q) <= n)
  {
    hide ShadowsAt, Shared;
    var before := us[..|us| - 1];
    forall i ensures ShadowsAt(us, q, n, i) <==>
        if i == |us| - 1 then us[|us| - 1].key == q[..n] + STAR && Shared(before, q) <= n else ShadowsAt(before, q, n, i)
    {
      ShadowsAtMore(us, q, n, i);
    }
    LastShadowsNotBefore(before, q, n, |us| - 1);
  }

  lemma LastShadowsNotBefore<V>(us: seq<Update<V>>, q: string, n: nat, i: int)
    requires n < |q| && i >= |us|
    ensures !ShadowsAt(us, q, n, i)
  {
  }

  /** The shade is that of the least wildcard that shadows the query. */
  lemma {:induction false} ShadedIsLeast<V>(us: seq<Update<V>>, q: string, n: nat)
    requires Plain(q) && n < |q|
    ensures Shaded(us, q) == n ==> Shadows(us, q, n) && Shared(us, q) >= n
    ensures Shadows(us, q, n) ==> 0 <= Shaded(us, q) <= n
  {
    hide Common, Shadows;
    if us != [] {
      var before, key := us[..|us| - 1], us[|us| - 1].key;
      ShadowsMore(us, q, n);
      ShadedIsLeast(before, q, n);
      CommonWithStem(q, n);
      if Covers(key, q) { CoversIsStem(key, q); }
      if 0 <= Shaded(before, q) { ShadedIsLeast(before, q, Shaded(before, q)); }
    } else {
      NoneShadows(us, q, n);
    }
  }

  lemma NoneShadows<V>(us: seq<Update<V>>, q: string, n: nat)
    requires us == []
    ensures !Shadows(us, q, n)
  {
  }

  // ----- What the search finds -----

  /** In the shade of a wildcard the search finds the wildcard's value. */
  lemma {:induction false} GetShaded<V(!new)>(f: Forest<V>, q: string)
    requires f.Cons? && WildLeaves(f) && Shade(f, q) >= 0
    ensures Get(f, q).Some? && Holds(f, q[..Shade(f, q)] + STAR, Get(f, q).value)
    decreases f
  {
    hide Common, Shade, Holds;
    var n, s := Common(f.key, q), Shade(f, q);
    WalkOnce(f, q);
    CommonPrefix(f.key, q);
    if n == |f.key| - 1 && f.key[n] == WILDCARD {
      assert f.key == q[..s] + STAR;
      HoldsAtNode(f, f.key, f.value);
    } else if n == 0 {
      if f.next == Nil { WalkOnce(f.next, q); }
      GetShaded(f.next, q);
      HoldsAtNode(f, q[..s] + STAR, Get(f.next, q).value);
    } else {
      if f.child == Nil { WalkOnce(f.child, q[n..]); }
      GetShaded(f.child, q[n..]);
      StemSplit(f.key, q, s);
      HoldsAtNode(f, q[..s] + STAR, Get(f.child, q[n..]).value);
    }
  }

  lemma StemSplit(key: string, q: string, s: nat)
    requires key <= q && |key| <= s <= |q|
    ensures key <= q[..s] + STAR && q[..s] + STAR != key && (q[..s] + STAR)[|key|..] == q[|key|..][..s - |key|] + STAR
  {
    assert (q[..s] + STAR)[..|key|] == key;
  }

  lemma HoldsAtNode<V(!new)>(f: Forest<V>, key: string, v: V)
    requires f.Cons?
    ensures Holds(f, key, v) <==> Holds(f.next, key, v) || HoldsHere(f, key, v)
  {
  }

  /** A node without a value of its own has at least two children. */
  ghost predicate Branching<V>(f: Forest<V>) {
    f.Cons? ==> (f.isEmpty ==> f.child.Cons? && f.child.next.Cons?) && Branching(f.child) && Branching(f.next)
  }

  lemma {:induction false} PutBranches<V>(f: Forest<V>, key: string, value: V)
    requires Branching(f)
    ensures Branching(Put(f, key, value)) && (f.Cons? && f.next.Cons? ==> Put(f, key, value).next.Cons?)
    decreases f
  {
    if f.Cons? {
      var n := Common(f.key, key);
      if n == 0 {
        PutBranches(f.next, key, value);
      } else if n == |f.key| < |key| {
        PutBranches(f.child, key[n..], value);
      } else {
        assert Branching(Lone(key[n..], value));
      }
    }
  }

  lemma {:induction false} BuildBranches<V>(us: seq<Update<V>>)
    ensures Branching(Build(us))
  {
    if us != [] {
      BuildBranches(us[..|us| - 1]);
      PutBranches(Build(us[..|us| - 1]), us[|us| - 1].key, us[|us| - 1].value);
    }
  }

  /** Of the keys that begin with `q` none is stored but the wildcard right behind it. */
  ghost predicate OnlyStar<V(!new)>(f: Forest<V>, q: string) { forall k, v :: Holds(f, k, v) && q <= k ==> k == q + STAR }

  /** What is stored at the node, leaving out its siblings. */
  ghost predicate HoldsHere<V(!new)>(f: Forest<V>, key: string, v: V)
    requires f.Cons?
  {
    f.key != "" && f.key <= key && if f.key == key then !f.isEmpty && f.value == v else Holds(f.child, key[|f.key|..], v)
  }

  /** A key that begins with `q` is stored at the one node that goes along with `q`, if there is one among the siblings. */
  lemma HoldsAlong<V(!new)>(f: Forest<V>, q: string, k: string, v: V)
    requires f.Cons? && Proper(f) && q != "" && q <= k
    ensures Holds(f, k, v) <==> if Common(f.key, q) == 0 then Holds(f.next, k, v) else HoldsHere(f, k, v)
  {
    assert q[0] == k[0];
    if Holds(f.next, k, v) { HeldStarts(f.next, k, v); }
    if Common(f.key, q) == 0 && f.key != "" { assert f.key[0] != q[0]; }
    if f.key <= k && f.key != "" { assert f.key[0] == k[0]; }
  }

  lemma OnlyStarNext<V(!new)>(f: Forest<V>, q: string)
    requires f.Cons? && Proper(f) && q != "" && Common(f.key, q) == 0
    ensures OnlyStar(f, q) <==> OnlyStar(f.next, q)
  {
    forall k, v | q <= k ensures Holds(f, k, v) <==> Holds(f.next, k, v) { HoldsAlong(f, q, k, v); }
  }

  lemma OnlyStarBelow<V(!new)>(f: Forest<V>, q: string)
    requires f.Cons? && Proper(f) && f.key != "" && f.key < q
    ensures OnlyStar(f, q) <==> OnlyStar(f.child, q[|f.key|..])
  {
    var n := |f.key|;
    CommonBelow(f.key, q, n);
    assert q == f.key + q[n..];
    if OnlyStar(f, q) {
      forall k, v | Holds(f.child, k, v) && q[n..] <= k ensures k == q[n..] + STAR {
        assert (f.key + k)[n..] == k && q <= f.key + k;
        HoldsAlong(f, q, f.key + k, v);
        assert (q + STAR)[n..] == q[n..] + STAR;
      }
    }
    if OnlyStar(f.child, q[n..]) {
      forall k, v | Holds(f, k, v) && q <= k ensures k == q + STAR {
        HoldsAlong(f, q, k, v);
        assert k == f.key + k[n..] && q[n..] <= k[n..];
      }
    }
  }

  /** Below an empty node at `q` more is stored than a wildcard. */
  lemma MoreBelow<V(!new)>(f: Forest<V>, q: string)
    requires f.Cons? && Proper(f) && Live(f) && Branching(f) && f.key == q != ""
    ensures !OnlyStar(f, q)
  {
    CommonBelow(f.key, q, |q|);
    if !f.isEmpty {
      HoldsAlong(f, q, q, f.value);
    } else {
      var a, b := f.child, f.child.next;
      assert Keyed(b);
      StoresSomething(a);
      StoresSomething(b);
      HeldStarts(b, StoredKey(b), StoredValue(b));
      assert StoredKey(a)[0] != StoredKey(b)[0];
      forall k, v | Holds(a, k, v) ensures Holds(f, q + k, v) && q <= q + k {
        assert (q + k)[|q|..] == k;
        HeldStarts(a, k, v);
        HoldsAlong(f, q, q + k, v);
      }
      assert Holds(a, StoredKey(b), StoredValue(b));
      assert (q + StoredKey(a))[|q|..] == StoredKey(a) && (q + StoredKey(b))[|q|..] == StoredKey(b) && (q + STAR)[|q|..] == STAR;
    }
  }

  /** What is found without a shorter wildcard in the way: the query's own value, or that of the one key behind it. */
  ghost predicate Plainly<V(!new)>(f: Forest<V>, q: string, v: V) {
    Holds(f, q, v) || (Holds(f, q + STAR, v) && OnlyStar(f, q))
  }

  lemma PlainlyAtEnd<V(!new)>(f: Forest<V>, q: string, v: V)
    requires f.Cons? && Proper(f) && WildLeaves(f) && Live(f) && Branching(f) && q != "" && Plain(q)
    requires Common(f.key, q) > 0 && !(f.key < q)
    ensures Plainly(f, q, v) <==>
              if f.key == q then !f.isEmpty && v == f.value else f.key == q + STAR && v == f.value
  {
    hide Common;
    HoldsAlong(f, q, q, v);
    HoldsAlong(f, q, q + STAR, v);
    if f.key == q {
      MoreBelow(f, q);
    } else if f.key == q + STAR {
      forall k, v' | Holds(f, k, v') && q <= k ensures k == q + STAR { HoldsAlong(f, q, k, v'); }
    }
  }

  lemma PlainlyNext<V(!new)>(f: Forest<V>, q: string, v: V)
    requires f.Cons? && Proper(f) && q != "" && Common(f.key, q) == 0
    ensures Plainly(f, q, v) <==> Plainly(f.next, q, v)
  {
    hide Common, OnlyStar;
    HoldsAlong(f, q, q, v);
    HoldsAlong(f, q, q + STAR, v);
    OnlyStarNext(f, q);
  }

  lemma PlainlyBelow<V(!new)>(f: Forest<V>, q: string, v: V)
    requires f.Cons? && Proper(f) && f.key != "" && f.key < q
    ensures Plainly(f, q, v) <==> Plainly(f.child, q[|f.key|..], v)
  {
    hide Common, OnlyStar;
    var n := |f.key|;
    CommonOfPrefix(f.key, q);
    HoldsAlong(f, q, q, v);
    HoldsAlong(f, q, q + STAR, v);
    OnlyStarBelow(f, q);
    assert (q + STAR)[n..] == q[n..] + STAR;
  }

  lemma NothingPlainly<V(!new)>(f: Forest<V>, q: string, v: V)
    requires f == Nil
    ensures !Plainly(f, q, v)
  {
  }

  lemma {:induction false} GetUnshaded<V(!new)>(f: Forest<V>, q: string, v: V)
    requires f.Cons? && Proper(f) && WildLeaves(f) && Live(f) && Branching(f) && q != "" && Plain(q)
    requires Shade(f, q) < 0
    ensures Get(f, q) == Some(v) <==> Plainly(f, q, v)
    decreases f
  {
    hide Common, Plainly, OnlyStar;
    var n := Common(f.key, q);
    if n == 0 {
      PlainlyNext(f, q, v);
      if f.next.Cons? { GetUnshaded(f.next, q, v); } else { NothingPlainly(f.next, q, v); }
    } else if f.key < q {
      CommonOfPrefix(f.key, q);
      PlainlyBelow(f, q, v);
      if f.child.Cons? { GetUnshaded(f.child, q[n..], v); } else { NothingPlainly(f.child, q[n..], v); }
    } else {
      PlainlyAtEnd(f, q, v);
      CommonPrefix(f.key, q);
      CommonOfPrefix(q, f.key);
    }
  }

  // ----- The router -----

  /**
    In the shade of wildcards the one with the shortest stem is found, be the query stored or not,
    with its latest value.
   */
  lemma ShadowedFindsWildcard<V(!new)>(us: seq<Update<V>>, q: string, n: nat)
    requires (forall u :: u in us ==> TailWild(u.key)) && Plain(q)
    requires Shadows(us, q, n) && forall m :: 0 <= m < n ==> !Shadows(us, q, m)
    ensures q[..n] + STAR in Dictionary(us) && Get(Build(us), q) == Some(Dictionary(us)[q[..n] + STAR])
  {
    hide Shadows;
    var f := Build(us);
    SomeUpdates(us, q, n);
    BuildIsProper(us);
    BuildIsWild(us);
    ShadedIsLeast(us, q, n);
    ShadedIsLeast(us, q, Shaded(us, q));
    BuildFollows(us, q);
    GetShaded(f, q);
    BuildRepresents(us, q[..n] + STAR, Get(f, q).value);
  }

  lemma SomeUpdates<V>(us: seq<Update<V>>, q: string, n: nat)
    requires Shadows(us, q, n)
    ensures us != [] && n < |q|
  {
  }

  lemma UnshadowedFinds<V(!new)>(us: seq<Update<V>>, q: string, v: V)
    requires us != [] && (forall u :: u in us ==> TailWild(u.key)) && Plain(q) && q != ""
    requires forall n :: 0 <= n < |q| ==> !Shadows(us, q, n)
    ensures Get(Build(us), q) == Some(v) <==> Plainly(Build(us), q, v)
  {
    hide Shadows, Plainly;
    BuildIsProper(us);
    BuildIsWild(us);
    BuildBranches(us);
    if Shaded(us, q) >= 0 { ShadedIsLeast(us, q, Shaded(us, q)); }
    BuildFollows(us, q);
    GetUnshaded(Build(us), q, v);
  }

  /** Outside the shade of every wildcard a stored query is found itself, with its latest value. */
  lemma UnshadowedFindsItself<V(!new)>(us: seq<Update<V>>, q: string)
    requires (forall u :: u in us ==> TailWild(u.key)) && Plain(q) && q != "" && q in Dictionary(us)
    requires forall n :: 0 <= n < |q| ==> !Shadows(us, q, n)
    ensures Get(Build(us), q) == Some(Dictionary(us)[q])
  {
    var v := Dictionary(us)[q];
    UnshadowedFinds(us, q, v);
    BuildRepresents(us, q, v);
  }

  /** There a query that is not stored finds a wildcard right behind it, if no other key begins with the query. */
  lemma UnshadowedFindsNext<V(!new)>(us: seq<Update<V>>, q: string)
    requires us != [] && (forall u :: u in us ==> TailWild(u.key)) && Plain(q) && q != "" && q !in Dictionary(us)
    requires forall n :: 0 <= n < |q| ==> !Shadows(us, q, n)
    ensures var d := Dictionary(us);
      Get(Build(us), q) == if q + STAR in d && (forall k :: k in d && q <= k ==> k == q + STAR) then Some(d[q + STAR]) else None
  {
    var f, d := Build(us), Dictionary(us);
    hide Get, Shadows;
    forall v ensures Get(f, q) == Some(v) <==> Plainly(f, q, v) { UnshadowedFinds(us, q, v); }
    forall k, v ensures Holds(f, k, v) <==> k != "" && k in d && d[k] == v { BuildRepresents(us, k, v); }
    if q + STAR in d {
      if k :| k in d && q <= k && k != q + STAR {
        assert Holds(f, k, d[k]);
      }
    }
  }

  /** The same two updates, in the one order and in the other. */
  lemma OrderDecidesShadowing()
    ensures Get(Build([Update("a*", 1), Update("ab", 2)]), "ab") == Some(1)
    ensures Get(Build([Update("ab", 2), Update("a*", 1)]), "ab") == Some(2)
  {
    var x, y := Update("a*", 1), Update("ab", 2);
    BuildTwo(x, y);
    BuildTwo(y, x);
    CommonBelow("a*", "ab", 1);
    CommonBelow("ab", "a*", 1);
    CommonBelow("a", "ab", 1);
    assert "a*"[1..] == "*" && "ab"[1..] == "b" && "a*"[..1] == "a" && "ab"[..1] == "a" && "a"[1..] == "";
  }

  lemma BuildTwo<V>(x: Update<V>, y: Update<V>)
    ensures Build([x, y]) == Set(Lone(x.key, x.value), y.key, y.value)
  {
    assert [x, y][..1] == [x] && [x][..0] == [];
    assert Build([x]) == Lone(x.key, x.value);
  }
}
