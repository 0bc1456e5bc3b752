/**
  The compressed prefix tree of the router as a value: each node has the list of its
  children as `child` and its later siblings as `next`.
 */
module RadixModel {
  import opened Options

  datatype Forest<V> = Nil | Cons(key: string, isEmpty: bool, value: V, child: Forest<V>, next: Forest<V>)

  const WILDCARD := '*'

  /** How many leading characters two strings share. */
  function Common(s: string, t: string): (n: nat)
    ensures n <= |s| && n <= |t| && s[..n] == t[..n]
    ensures n < |s| && n < |t| ==> s[n] != t[n]
  {
    if s != "" && t != "" && s[0] == t[0] then 1 + Common(s[1..], t[1..]) else 0
  }

  function Lone<V>(key: string, value: V): Forest<V> { Cons(key, false, value, Nil, Nil) }

  /** What `setNode` makes of the list of siblings it is called on. */
  function Set<V>(f: Forest<V>, key: string, value: V): Forest<V>
    requires f.Cons?
    decreases f
  {
    var n := Common(f.key, key);
    if n == 0 then
      f.(next := if f.next == Nil then Lone(key, value) else Set(f.next, key, value))
    else if n < |f.key| then
      var rest := Cons(f.key[n..], f.isEmpty, f.value, f.child, Nil);
      if n == |key| then
        Cons(f.key[..n], false, value, rest, f.next)
      else
        Cons(f.key[..n], true, f.value, rest.(next := Lone(key[n..], value)), f.next)
    else if n == |key| then
      f.(isEmpty := false, value := value)
    else
      f.(child := if f.child == Nil then Lone(key[n..], value) else Set(f.child, key[n..], value))
  }

  /** What `getNode` finds when called on a list of siblings. */
  function Get<V>(f: Forest<V>, key: string): Option<V>
    requires f.Cons?
    decreases f
  {
    var n := Common(f.key, key);
    if n == |f.key| - 1 && f.key[|f.key| - 1] == WILDCARD then Some(f.value)
    else if n == 0 then if f.next == Nil then None else Get(f.next, key)
    else if n < |f.key| then None
    else if n == |key| then if f.isEmpty then None else Some(f.value)
    else if f.child == Nil then None
    else Get(f.child, key[n..])
  }

  /** `value` is stored under `key`: the keys along some path down the tree spell it out. */
  ghost predicate Holds<V(!new)>(f: Forest<V>, key: string, value: V)
    decreases f
  {
    f.Cons? && (
      || Holds(f.next, key, value)
      || (f.key != "" && f.key <= key &&
          if f.key == key then !f.isEmpty && f.value == value else Holds(f.child, key[|f.key|..], value)))
  }

  ghost predicate Starts<V>(f: Forest<V>, c: char) {
    f.Cons? && ((f.key != "" && f.key[0] == c) || Starts(f.next, c))
  }

  /** Siblings differ in their first character. */
  ghost predicate Proper<V>(f: Forest<V>) {
    f.Cons? ==> Proper(f.child) && Proper(f.next) && (f.key != "" ==> !Starts(f.next, f.key[0]))
  }

  /** No node's key is empty. */
  ghost predicate NoEmptyKey<V>(f: Forest<V>) { f.Cons? ==> f.key != "" && NoEmptyKey(f.child) && NoEmptyKey(f.next) }

  lemma {:induction false} HeldStarts<V(!new)>(f: Forest<V>, key: string, value: V)
    requires Holds(f, key, value)
    ensures key != "" && Starts(f, key[0])
  {
    if Holds(f.next, key, value) { HeldStarts(f.next, key, value); }
  }

  lemma SplitOff<V>(k: string, key: string, n: nat, value: V)
    requires n < |k| && n <= |key| && (n < |key| ==> k[n] != key[n])
    ensures var lone := if n == |key| then Nil else Lone(key[n..], value);
      Proper(lone) && NoEmptyKey(lone) && !Starts(lone, k[n..][0])
  {
    if n < |key| { LoneIsProper(key[n..], value); }
  }

  lemma LoneIsProper<V>(key: string, value: V)
    requires key != ""
    ensures Proper(Lone(key, value)) && NoEmptyKey(Lone(key, value))
    ensures forall c :: Starts(Lone(key, value), c) <==> key[0] == c
  {
    var f: Forest<V> := Nil;
    assert Proper(f) && NoEmptyKey(f) && forall c :: !Starts(f, c);
  }

  lemma {:induction false} SetIsProper<V>(f: Forest<V>, key: string, value: V)
    requires f.Cons? && Proper(f) && key != ""
    ensures Proper(Set(f, key, value))
    ensures forall c :: Starts(Set(f, key, value), c) <==> Starts(f, c) || c == key[0]
    ensures NoEmptyKey(f) ==> NoEmptyKey(Set(f, key, value))
    decreases f
  {
    var n := Common(f.key, key);
    if n == 0 {
      if f.next.Cons? { SetIsProper(f.next, key, value); }
    } else {
      assert f.key[0] == f.key[..n][0] == key[..n][0] == key[0];
      if n < |f.key| {
        var lone := if n == |key| then Nil else Lone(key[n..], value);
        SplitOff(f.key, key, n, value);
        assert Proper(Cons(f.key[n..], f.isEmpty, f.value, f.child, lone));
      } else if n < |key| && f.child.Cons? {
        SetIsProper(f.child, key[n..], value);
      }
    }
  }

  /** A prefix test may be made in two steps. */
  lemma PrefixInSteps(k: string, n: nat, q: string)
    requires n <= |k|
    ensures k <= q <==> k[..n] <= q && k[n..] <= q[n..]
    ensures k <= q ==> q[n..][|k| - n..] == q[|k|..] && (k == q <==> k[n..] == q[n..])
  {
    if k[..n] <= q && k[n..] <= q[n..] {
      assert k == k[..n] + k[n..] && q == q[..n] + q[n..];
    }
    if k <= q && k[n..] == q[n..] {
      assert k == k[..n] + k[n..] && q == q[..n] + q[n..];
    }
  }

  /** A node split after `n` characters holds what it held before. */
  lemma SplitHolds<V(!new)>(f: Forest<V>, n: nat, q: string, v: V, sib: Forest<V>)
    requires f.Cons? && 0 < n < |f.key|
    ensures var rest := Cons(f.key[n..], f.isEmpty, f.value, f.child, sib);
      f.key[..n] <= q && Holds(rest, q[n..], v) <==>
      (f.key[..n] <= q && Holds(sib, q[n..], v)) || Holds(f.(next := Nil), q, v)
  {
    PrefixInSteps(f.key, n, q);
  }

  /** The case where the key goes down into the children of a node. */
  lemma StoresBelow<V(!new)>(f: Forest<V>, key: string, value: V, q: string, v: V)
    requires f.Cons? && Proper(f) && f.key != "" && f.key <= key && f.key != key
    requires f.child.Cons? && f.key <= q ==>
               var n := |f.key|;
               (Holds(Set(f.child, key[n..], value), q[n..], v) <==>
                if q[n..] == key[n..] then v == value else Holds(f.child, q[n..], v))
    ensures var child := if f.child == Nil then Lone(key[|f.key|..], value) else Set(f.child, key[|f.key|..], value);
      Holds(f.(child := child), q, v) <==> if q == key then v == value else Holds(f, q, v)
  {
    var n := |f.key|;
    assert key == f.key + key[n..] && key[0] == f.key[0];
    if Holds(f.next, key, v) { HeldStarts(f.next, key, v); }
    if f.key <= q {
      assert q == f.key + q[n..];
      assert Holds(Lone(key[n..], value), q[n..], v) <==> q[n..] == key[n..] && v == value;
    }
  }

  /** Storing changes what is stored under the one key and nothing else. */
  lemma {:induction false} SetStores<V(!new)>(f: Forest<V>, key: string, value: V, q: string, v: V)
    requires f.Cons? && Proper(f) && key != ""
    ensures Holds(Set(f, key, value), q, v) <==> if q == key then v == value else Holds(f, q, v)
    decreases f
  {
    var n := Common(f.key, key);
    if n == 0 {
      if f.key != "" { assert f.key[0] != key[0]; }
      assert Holds(Lone(key, value), q, v) <==> q == key && v == value;
      if f.next.Cons? { SetStores(f.next, key, value, q, v); }
    } else if n == |f.key| < |key| {
      if f.child.Cons? && f.key <= q { SetStores(f.child, key[n..], value, q[n..], v); }
      StoresBelow(f, key, value, q, v);
    } else {
      assert f.key[0] == f.key[..n][0] == key[..n][0] == key[0];
      if Holds(f.next, key, v) { HeldStarts(f.next, key, v); }
      if n < |f.key| {
        var lone := if n == |key| then Nil else Lone(key[n..], value);
        SplitHolds(f, n, q, v, lone);
        PrefixInSteps(key, n, q);
      }
    }
  }

  /** A value stored under the empty key is never seen again, and disturbs nothing. */
  lemma {:induction false} SetEmptyKey<V(!new)>(f: Forest<V>, value: V, q: string, v: V)
    requires f.Cons? && Proper(f)
    ensures Holds(Set(f, "", value), q, v) <==> Holds(f, q, v)
    ensures Proper(Set(f, "", value)) && forall c :: Starts(Set(f, "", value), c) <==> Starts(f, c)
    decreases f
  {
    if f.next.Cons? { SetEmptyKey(f.next, value, q, v); }
  }

  // ----- Whole runs -----

  datatype Update<V> = Update(key: string, value: V)

  function Put<V>(f: Forest<V>, key: string, value: V): Forest<V> {
    if f == Nil then Lone(key, value) else Set(f, key, value)
  }

  /** The tree after a run of updates. */
  function Build<V>(us: seq<Update<V>>): Forest<V> {
    if us == [] then Nil else Put(Build(us[..|us| - 1]), us[|us| - 1].key, us[|us| - 1].value)
  }

  /** The plain map after the same run. */
  function Dictionary<V>(us: seq<Update<V>>): map<string, V> {
    if us == [] then map[] else Dictionary(us[..|us| - 1])[us[|us| - 1].key := us[|us| - 1].value]
  }

  /** A key has the value it was given last. */
  lemma {:induction false} LastUpdateCounts<V>(us: seq<Update<V>>, i: nat)
    requires i < |us| && forall j :: i < j < |us| ==> us[j].key != us[i].key
    ensures us[i].key in Dictionary(us) && Dictionary(us)[us[i].key] == us[i].value
    decreases |us|
  {
    if i < |us| - 1 {
      assert us[..|us| - 1][i] == us[i];
      LastUpdateCounts(us[..|us| - 1], i);
    }
  }

  lemma {:induction false} NoUpdateCounts<V>(us: seq<Update<V>>, key: string)
    requires forall u :: u in us ==> u.key != key
    ensures key !in Dictionary(us)
    decreases |us|
  {
    if us != [] {
      assert us[|us| - 1] in us;
      NoUpdateCounts(us[..|us| - 1], key);
    }
  }

  lemma {:induction false} BuildIsProper<V(!new)>(us: seq<Update<V>>)
    ensures Proper(Build(us)) && (Build(us).Cons? <==> us != [])
  {
    if us != [] {
      var f, u := Build(us[..|us| - 1]), us[|us| - 1];
      BuildIsProper(us[..|us| - 1]);
      if f.Cons? {
        if u.key == "" { SetEmptyKey(f, u.value, "", u.value); } else { SetIsProper(f, u.key, u.value); }
      }
    }
  }

  /** The tree represents exactly the map built by the same updates; entries under the empty key are lost. */
  lemma {:induction false} BuildRepresents<V(!new)>(us: seq<Update<V>>, q: string, v: V)
    ensures Holds(Build(us), q, v) <==> q != "" && q in Dictionary(us) && Dictionary(us)[q] == v
  {
    if us != [] {
      var f, u := Build(us[..|us| - 1]), us[|us| - 1];
      BuildIsProper(us[..|us| - 1]);
      BuildRepresents(us[..|us| - 1], q, v);
      if f.Cons? {
        if u.key == "" { SetEmptyKey(f, u.value, q, v); } else { SetStores(f, u.key, u.value, q, v); }
      }
    }
  }

  // ----- Look-up without wildcards -----

  ghost predicate Plain(s: string) { WILDCARD !in s }

  ghost predicate PlainKeys<V>(f: Forest<V>) {
    f.Cons? ==> Plain(f.key) && PlainKeys(f.child) && PlainKeys(f.next)
  }

  lemma {:induction false} SetIsPlain<V>(f: Forest<V>, key: string, value: V)
    requires f.Cons? && PlainKeys(f) && Plain(key)
    ensures PlainKeys(Set(f, key, value))
    decreases f
  {
    var n := Common(f.key, key);
    if n == 0 {
      if f.next.Cons? { SetIsPlain(f.next, key, value); }
    } else if n < |key| {
      assert PlainKeys(Lone(key[n..], value));
      if n == |f.key| && f.child.Cons? { SetIsPlain(f.child, key[n..], value); }
    }
  }

  /** The search, which never turns back, finds whatever any path would. */
  lemma {:induction false} GetFinds<V(!new)>(f: Forest<V>, q: string, v: V)
    requires f.Cons? && Proper(f) && PlainKeys(f)
    ensures Get(f, q) == Some(v) <==> Holds(f, q, v)
    decreases f
  {
    var n := Common(f.key, q);
    if Holds(f.next, q, v) { HeldStarts(f.next, q, v); }
    if n == 0 {
      if f.key != "" && q != "" { assert f.key[0] != q[0]; }
      if f.next.Cons? { GetFinds(f.next, q, v); }
    } else {
      assert f.key[0] == f.key[..n][0] == q[..n][0] == q[0];
      if n == |f.key| < |q| && f.child.Cons? { GetFinds(f.child, q[n..], v); }
    }
  }

  lemma {:induction false} BuildIsPlain<V>(us: seq<Update<V>>)
    requires forall u :: u in us ==> Plain(u.key)
    ensures PlainKeys(Build(us))
  {
    if us != [] {
      var f, u := Build(us[..|us| - 1]), us[|us| - 1];
      BuildIsPlain(us[..|us| - 1]);
      if f.Cons? { SetIsPlain(f, u.key, u.value); }
    }
  }

  /** After any updates under wildcard-free keys, `get` is look-up in the map, for every query. */
  lemma GetIsLookUp<V(!new)>(us: seq<Update<V>>, q: string)
    requires us != [] && forall u :: u in us ==> Plain(u.key)
    ensures Get(Build(us), q) == if q != "" && q in Dictionary(us) then Some(Dictionary(us)[q]) else None
  {
    BuildIsProper(us);
    BuildIsPlain(us);
    if q in Dictionary(us) {
      BuildRepresents(us, q, Dictionary(us)[q]);
      GetFinds(Build(us), q, Dictionary(us)[q]);
    }
    var r := Get(Build(us), q);
    if r.Some? {
      GetFinds(Build(us), q, r.value);
      BuildRepresents(us, q, r.value);
    }
  }

  // ----- Look-up with wildcards -----

  /** A wildcard is allowed as the last character only. */
  ghost predicate TailWild(s: string) { forall i :: 0 <= i < |s| - 1 ==> s[i] != WILDCARD }

  predicate EndsWild(s: string) { s != "" && s[|s| - 1] == WILDCARD }

  /** Keys are wild at most at the end, and a node whose key is wild is a leaf that holds a value. */
  ghost predicate WildLeaves<V>(f: Forest<V>) {
    f.Cons? ==>
      && TailWild(f.key) && (EndsWild(f.key) ==> f.child == Nil && !f.isEmpty)
      && WildLeaves(f.child) && WildLeaves(f.next)
  }

  /** An empty node has children, and below the top no key is empty. */
  ghost predicate Live<V>(f: Forest<V>) {
    f.Cons? ==> (f.isEmpty ==> f.child.Cons?) && Keyed(f.child) && Live(f.child) && Live(f.next)
  }

  ghost predicate Keyed<V>(f: Forest<V>) { f.Cons? ==> f.key != "" && Keyed(f.next) }

  lemma {:induction false} SetIsWild<V>(f: Forest<V>, key: string, value: V)
    requires f.Cons? && WildLeaves(f) && Live(f) && TailWild(key)
    ensures WildLeaves(Set(f, key, value)) && Live(Set(f, key, value))
    ensures Keyed(f) && key != "" ==> Keyed(Set(f, key, value))
    decreases f
  {
    var n := Common(f.key, key);
    if n == 0 {
      if f.next.Cons? { SetIsWild(f.next, key, value); }
    } else {
      assert f.key[n - 1] == f.key[..n][n - 1] == key[..n][n - 1] == key[n - 1];
      if n < |key| {
        assert WildLeaves(Lone(key[n..], value)) && Live(Lone(key[n..], value));
        if n == |f.key| && f.child.Cons? { SetIsWild(f.child, key[n..], value); }
      }
    }
  }

  lemma {:induction false} BuildIsWild<V>(us: seq<Update<V>>)
    requires forall u :: u in us ==> TailWild(u.key)
    ensures WildLeaves(Build(us)) && Live(Build(us))
  {
    if us != [] {
      var f, u := Build(us[..|us| - 1]), us[|us| - 1];
      BuildIsWild(us[..|us| - 1]);
      if f.Cons? { SetIsWild(f, u.key, u.value); }
    }
  }

  const STAR: string := [WILDCARD]

  /** `v` is stored under `q` itself or under a wildcard whose stem `q` begins with. */
  ghost predicate Matches<V(!new)>(f: Forest<V>, q: string, v: V) {
    Holds(f, q, v) || exists p :: p <= q && Holds(f, p + STAR, v)
  }

  lemma MatchesNext<V(!new)>(f: Forest<V>, q: string, v: V)
    requires f.Cons? && Matches(f.next, q, v)
    ensures Matches(f, q, v)
  {
    if !Holds(f.next, q, v) {
      var p :| p <= q && Holds(f.next, p + STAR, v);
      assert Holds(f, p + STAR, v);
    }
  }

  lemma MatchesBelow<V(!new)>(f: Forest<V>, q: string, v: V)
    requires f.Cons? && f.key != "" && f.key < q && Matches(f.child, q[|f.key|..], v)
    ensures Matches(f, q, v)
  {
    var q' := q[|f.key|..];
    if !Holds(f.child, q', v) {
      var p :| p <= q' && Holds(f.child, p + STAR, v);
      assert q == f.key + q' && (f.key + p) + STAR == f.key + (p + STAR);
      assert f.key + p <= q && Holds(f, (f.key + p) + STAR, v);
    }
  }

  lemma {:induction false} GetMatches<V(!new)>(f: Forest<V>, q: string)
    requires f.Cons? && WildLeaves(f) && Get(f, q).Some?
    ensures Matches(f, q, Get(f, q).value)
    decreases f
  {
    var n, v := Common(f.key, q), Get(f, q).value;
    if n == |f.key| - 1 && f.key[n] == WILDCARD {
      assert q[..n] + STAR == f.key;
      assert q[..n] <= q && Holds(f, q[..n] + STAR, v);
    } else if n == 0 {
      GetMatches(f.next, q);
      MatchesNext(f, q, v);
    } else if n < |q| {
      GetMatches(f.child, q[n..]);
      MatchesBelow(f, q, v);
    }
  }

  /** Soundness: what `get` returns is the latest value of the query itself or of a wildcard that covers it. */
  lemma WildcardSound<V(!new)>(us: seq<Update<V>>, q: string)
    requires us != [] && forall u :: u in us ==> TailWild(u.key)
    requires Get(Build(us), q).Some?
    ensures var v, d := Get(Build(us), q).value, Dictionary(us);
      (q in d && d[q] == v) || exists p :: p <= q && p + STAR in d && d[p + STAR] == v
  {
    BuildIsProper(us);
    BuildIsWild(us);
    GetMatches(Build(us), q);
    var v := Get(Build(us), q).value;
    BuildRepresents(us, q, v);
    if !Holds(Build(us), q, v) {
      var p :| p <= q && Holds(Build(us), p + STAR, v);
      BuildRepresents(us, p + STAR, v);
    }
  }

  /** Some key that a live node or the nodes below it store. */
  ghost function StoredKey<V>(f: Forest<V>): string
    requires f.Cons? && Live(f)
  {
    f.key + if f.isEmpty then StoredKey(f.child) else ""
  }

  ghost function StoredValue<V>(f: Forest<V>): V
    requires f.Cons? && Live(f)
  {
    if f.isEmpty then StoredValue(f.child) else f.value
  }

  lemma {:induction false} StoresSomething<V(!new)>(f: Forest<V>)
    requires f.Cons? && Live(f) && f.key != ""
    ensures f.key <= StoredKey(f) && Holds(f, StoredKey(f), StoredValue(f))
  {
    if f.isEmpty {
      StoresSomething(f.child);
      assert StoredKey(f)[|f.key|..] == StoredKey(f.child);
    }
  }

  lemma CommonBelow(k: string, q: string, n: nat)
    requires n <= |k| && n <= |q| && k[..n] == q[..n]
    ensures Common(k, q) == n + Common(k[n..], q[n..])
    decreases n
  {
    if n > 0 {
      assert k[0] == k[..n][0] == q[..n][0] == q[0];
      assert k[1..][..n - 1] == k[..n][1..] == q[..n][1..] == q[1..][..n - 1];
      CommonBelow(k[1..], q[1..], n - 1);
      assert k[1..][n - 1..] == k[n..] && q[1..][n - 1..] == q[n..];
    }
  }

  lemma CommonIs(k: string, q: string, n: nat)
    requires n <= |k| && n <= |q| && k[..n] == q[..n] && (n < |k| && n < |q| ==> k[n] != q[n])
    ensures Common(k, q) == n
  {
    CommonBelow(k, q, n);
  }

  /** Of all wildcards only the one with stem `p` covers `q`, and no other key goes along with `q` beyond `p`. */
  ghost predicate Alone<V(!new)>(f: Forest<V>, q: string, p: string) {
    && (forall p', v' :: p' <= q && Holds(f, p' + STAR, v') ==> p' == p)
    && (forall k, v' :: Holds(f, k, v') && k != p + STAR ==> Common(k, q) <= |p|)
  }

  lemma HeldUnder<V(!new)>(f: Forest<V>, k: string, v: V)
    requires f.Cons? && f.key != "" && Holds(f.child, k, v)
    ensures Holds(f, f.key + k, v)
  {
    HeldStarts(f.child, k, v);
    assert (f.key + k)[|f.key|..] == k;
  }

  lemma AloneBelow<V(!new)>(f: Forest<V>, q: string, p: string)
    requires f.Cons? && f.key != "" && f.key <= p <= q && Alone(f, q, p)
    ensures Alone(f.child, q[|f.key|..], p[|f.key|..])
  {
    hide Holds, Common;
    var n := |f.key|;
    assert q == f.key + q[n..] && p == f.key + p[n..];
    forall p', v' | p' <= q[n..] && Holds(f.child, p' + STAR, v') ensures p' == p[n..] {
      HeldUnder(f, p' + STAR, v');
      assert (f.key + p') + STAR == f.key + (p' + STAR);
      assert (f.key + p')[n..] == p';
    }
    forall k, v' | Holds(f.child, k, v') && k != p[n..] + STAR ensures Common(k, q[n..]) <= |p[n..]| {
      HeldUnder(f, k, v');
      assert (f.key + k)[n..] == k && (p + STAR)[n..] == p[n..] + STAR;
      CommonBelow(f.key + k, q, n);
    }
  }

  lemma AloneNext<V(!new)>(f: Forest<V>, q: string, p: string)
    requires f.Cons? && Alone(f, q, p)
    ensures Alone(f.next, q, p)
  {
    forall p', v' | p' <= q && Holds(f.next, p' + STAR, v') ensures p' == p {
      assert Holds(f, p' + STAR, v');
    }
    forall k, v' | Holds(f.next, k, v') && k != p + STAR ensures Common(k, q) <= |p| {
      assert Holds(f, k, v');
    }
  }

  lemma {:induction false} GetReachesWildcard<V(!new)>(f: Forest<V>, q: string, p: string, v: V)
    requires f.Cons? && Proper(f) && WildLeaves(f) && Live(f)
    requires Plain(q) && p < q && Holds(f, p + STAR, v) && Alone(f, q, p)
    ensures Get(f, q) == Some(v)
    decreases f
  {
    var n, k := Common(f.key, q), p + STAR;
    if Holds(f.next, k, v) {
      HeldStarts(f.next, k, v);
      AloneNext(f, q, p);
      if n > 0 || (n == |f.key| - 1 && f.key[n] == WILDCARD) {
        NotInTheWay(f, q, p, v);
      }
      GetReachesWildcard(f.next, q, p, v);
    } else if f.key == k {
      assert f.key[..|p|] == p == q[..|p|] && f.key[|p|] != q[|p|];
      CommonBelow(f.key, q, |p|);
    } else {
      assert f.key == k[..|f.key|] == p[..|f.key|] == q[..|f.key|];
      CommonBelow(f.key, q, |f.key|);
      assert n == |f.key| && (n > 0 ==> f.key[n - 1] != WILDCARD);
      AloneBelow(f, q, p);
      assert k[|f.key|..] == p[|f.key|..] + STAR;
      GetReachesWildcard(f.child, q[|f.key|..], p[|f.key|..], v);
    }
  }

  /** A node that shares its first character with the query stores a key that does so too. */
  lemma StoresAlong<V(!new)>(f: Forest<V>, q: string)
    requires f.Cons? && Live(f) && f.key != "" && Common(f.key, q) > 0
    ensures Holds(f, StoredKey(f), StoredValue(f)) && Common(StoredKey(f), q) > 0
  {
    StoresSomething(f);
    CommonBelow(StoredKey(f), q, 1);
  }

  /** An earlier sibling of the wildcard's path shares no character with the query, and does not match it. */
  lemma NotInTheWay<V(!new)>(f: Forest<V>, q: string, p: string, v: V)
    requires f.Cons? && Proper(f) && WildLeaves(f) && Live(f)
    requires Plain(q) && p < q && Holds(f.next, p + STAR, v) && Alone(f, q, p)
    ensures Common(f.key, q) == 0 && f.key != STAR
  {
    hide Common;
    HeldStarts(f.next, p + STAR, v);
    assert "" + STAR == STAR && (f.key == STAR ==> Holds(f, "" + STAR, f.value));
    if Common(f.key, q) > 0 && p == "" {
      StoresAlong(f, q);
    }
  }

  /**
    Completeness: a wildcard is found, whatever the order of the updates, when it alone covers
    the query and no other key shares more with the query than its stem does.
   */
  lemma WildcardComplete<V(!new)>(us: seq<Update<V>>, q: string, p: string)
    requires forall u :: u in us ==> TailWild(u.key)
    requires Plain(q) && p < q && p + STAR in Dictionary(us)
    requires forall p' :: p' <= q && p' + STAR in Dictionary(us) ==> p' == p
    requires forall k :: k in Dictionary(us) && k != p + STAR ==> Common(k, q) <= |p|
    ensures Get(Build(us), q) == Some(Dictionary(us)[p + STAR])
  {
    var f, v := Build(us), Dictionary(us)[p + STAR];
    BuildIsProper(us);
    BuildIsWild(us);
    BuildRepresents(us, p + STAR, v);
    forall p', v' | p' <= q && Holds(f, p' + STAR, v') ensures p' == p { BuildRepresents(us, p' + STAR, v'); }
    forall k, v' | Holds(f, k, v') && k != p + STAR ensures Common(k, q) <= |p| { BuildRepresents(us, k, v'); }
    GetReachesWildcard(f, q, p, v);
  }

  // ----- Wildcard characters elsewhere than at the end of a route -----

  /**
    Two routes that part behind a wildcard character leave a node that ends in it and has no value of its own: every
    query that goes along with it up to there, and no further, is answered with the value of the first.
   */
  lemma StarInMiddle<V>(p: string, x: string, y: string, v: V, w: V, z: string)
    requires x != "" && y != "" && x[0] != y[0] && (z != "" ==> z[0] != WILDCARD)
    ensures Get(Build([Update(p + STAR + x, v), Update(p + STAR + y, w)]), p + z) == Some(v)
  {
    var us := [Update(p + STAR + x, v), Update(p + STAR + y, w)];
    var k, l, n := p + STAR + x, p + STAR + y, |p| + 1;
    BuildOfTwo(us);
    assert k[..n] == p + STAR == l[..n] && k[n] == x[0] && l[n] == y[0];
    CommonIs(k, l, n);
    assert (p + STAR)[..|p|] == p == (p + z)[..|p|];
    CommonIs(p + STAR, p + z, |p|);
  }

  lemma BuildOfTwo<V>(us: seq<Update<V>>)
    requires |us| == 2
    ensures Build(us) == Put(Lone(us[0].key, us[0].value), us[1].key, us[1].value)
  {
    var one := us[..1];
    assert one[..0] == [];
    assert Build(one) == Lone(us[0].key, us[0].value);
  }

  /** A wildcard character in a query is one like any other: the route that ends in it is found by itself and by no more. */
  lemma StarInQuery<V>(p: string, v: V, z: string)
    ensures Get(Build([Update(p + STAR, v)]), p + STAR + z) == if z == "" then Some(v) else None
  {
    var us := [Update(p + STAR, v)];
    assert us[..0] == [];
    assert (p + STAR)[..|p| + 1] == p + STAR == (p + STAR + z)[..|p| + 1];
    CommonIs(p + STAR, p + STAR + z, |p| + 1);
  }

  /** The empty query finds nothing but a route that is only a wildcard. */
  lemma EmptyQuery<V>(key: string, v: V, q: string)
    requires q == ""
    ensures Get(Build([Update(key, v)]), q) == if key == STAR then Some(v) else None
  {
    var us := [Update(key, v)];
    assert us[..0] == [] && Build(us) == Lone(key, v);
    EmptyOfLone(key, v, q);
  }

  lemma EmptyOfLone<V>(key: string, v: V, q: string)
    requires q == ""
    ensures Get(Lone(key, v), q) == if key == STAR then Some(v) else None
  {
    assert Common(key, q) == 0;
    if |key| == 1 { assert key == [key[0]]; }
  }
}
