// The ternary search tree of terminal key sequences (tty-keys.c), against a
// plain map from strings to keys.
module KeyTree {
  import opened Common

  // Characters of a key sequence, compared by value.
  type Str = seq<int>

  const KEYC_NONE := 0xfff

  datatype Tree = Nil | Node(ch: int, key: int, left: Tree, right: Tree, next: Tree)

  /** A node found and the characters used to reach it. */
  datatype Found = Found(key: int, size: nat)

  // tty_keys_find1
  function Find(t: Tree, buf: Str): Option<Found>
    requires buf != []
    decreases t
  {
    if t.Nil? then None
    else if buf[0] == t.ch then
      if |buf| == 1 || (t.next.Nil? && t.key != KEYC_NONE) then Some(Found(t.key, 1))
      else (match Find(t.next, buf[1..])
            case None => None
            case Some(f) => Some(Found(f.key, f.size + 1)))
    else if buf[0] < t.ch then Find(t.left, buf)
    else Find(t.right, buf)
  }

  function Fresh(ch: int): Tree {
    Node(ch, KEYC_NONE, Nil, Nil, Nil)
  }

  // tty_keys_add1
  function Insert(t: Tree, s: Str, key: int): (r: Tree)
    requires s != []
    ensures r.Node?
    decreases |s|, t
  {
    var n := if t.Nil? then Fresh(s[0]) else t;
    if s[0] == n.ch then
      if |s| == 1 then n.(key := key) else n.(next := Insert(n.next, s[1..], key))
    else if s[0] < n.ch then n.(left := Insert(n.left, s, key))
    else n.(right := Insert(n.right, s, key))
  }

  /** The key of the node Find comes to set. */
  function SetFound(t: Tree, buf: Str, key: int): (r: Tree)
    requires buf != [] && Find(t, buf).Some?
    ensures r.Node? && r.next.Nil? == t.next.Nil?
    decreases t
  {
    if buf[0] == t.ch then
      if |buf| == 1 || (t.next.Nil? && t.key != KEYC_NONE) then t.(key := key)
      else t.(next := SetFound(t.next, buf[1..], key))
    else if buf[0] < t.ch then t.(left := SetFound(t.left, buf, key))
    else t.(right := SetFound(t.right, buf, key))
  }

  // tty_keys_add
  function Add(t: Tree, s: Str, key: int): (r: Tree)
    requires s != []
    ensures r.Node?
  {
    if Find(t, s).None? then Insert(t, s, key) else SetFound(t, s, key)
  }

  // ----- What a tree stores

  /** The key stored for exactly this string. */
  function Lookup(t: Tree, s: Str): int
    requires s != []
    decreases t
  {
    if t.Nil? then KEYC_NONE
    else if s[0] == t.ch then (if |s| == 1 then t.key else Lookup(t.next, s[1..]))
    else if s[0] < t.ch then Lookup(t.left, s)
    else Lookup(t.right, s)
  }

  /** There is a node for this string. */
  predicate HasPath(t: Tree, s: Str)
    requires s != []
    decreases t
  {
    t.Node? &&
    if s[0] == t.ch then |s| == 1 || HasPath(t.next, s[1..])
    else if s[0] < t.ch then HasPath(t.left, s)
    else HasPath(t.right, s)
  }

  /** Nodes hold a key exactly where no longer string goes on. */
  predicate LeafKeyed(t: Tree) {
    t.Node? ==>
      (t.next.Nil? <==> t.key != KEYC_NONE) && LeafKeyed(t.left) && LeafKeyed(t.right) && LeafKeyed(t.next)
  }

  /** The tree stores exactly the strings of m. */
  ghost predicate Stores(t: Tree, m: map<Str, int>) {
    forall s: Str :: s != [] ==> Lookup(t, s) == if s in m then m[s] else KEYC_NONE
  }

  predicate Keys(m: map<Str, int>) {
    forall s :: s in m ==> s != [] && m[s] != KEYC_NONE
  }

  predicate ProperPrefix(a: Str, b: Str) {
    a < b
  }

  // ----- Exact strings

  lemma {:induction false} InsertStores(t: Tree, s: Str, key: int, s': Str)
    requires s != [] && s' != []
    ensures Lookup(Insert(t, s, key), s') == if s' == s then key else Lookup(t, s')
    decreases |s|, t
  {
    var n := if t.Nil? then Fresh(s[0]) else t;
    if s[0] == n.ch {
      if |s| > 1 {
        if |s'| > 1 {
          InsertStores(n.next, s[1..], key, s'[1..]);
          assert s'[0] == s[0] && s'[1..] == s[1..] ==> s' == s by { assert s == [s[0]] + s[1..] && s' == [s'[0]] + s'[1..]; }
        }
        if t.Nil? { NilStores(s'); }
      } else {
        assert s'[0] == s[0] && |s'| == 1 ==> s' == s;
      }
    } else if s[0] < n.ch {
      InsertStores(n.left, s, key, s');
    } else {
      InsertStores(n.right, s, key, s');
    }
  }

  lemma NilStores(s: Str)
    requires s != []
    ensures Lookup(Nil, s) == KEYC_NONE
  {}

  /** In a tree whose keys are all at leaves, Find comes to the stored string
      that begins the buffer, if there is one. */
  lemma {:induction false} FindStored(t: Tree, buf: Str, n: nat)
    requires LeafKeyed(t) && 1 <= n <= |buf| && Lookup(t, buf[..n]) != KEYC_NONE
    ensures Find(t, buf) == Some(Found(Lookup(t, buf[..n]), n))
    decreases t
  {
    if buf[0] == t.ch {
      if n > 1 {
        assert buf[1..][..n - 1] == buf[..n][1..];
        FindStored(t.next, buf[1..], n - 1);
      }
    } else if buf[0] < t.ch {
      FindStored(t.left, buf, n);
    } else {
      FindStored(t.right, buf, n);
    }
  }

  /** If none does, it comes to the inner node for the buffer, if the buffer has
      one, and otherwise nowhere. */
  lemma {:induction false} FindUnstored(t: Tree, buf: Str)
    requires LeafKeyed(t) && buf != [] && forall n :: 1 <= n <= |buf| ==> Lookup(t, buf[..n]) == KEYC_NONE
    ensures Find(t, buf) == if HasPath(t, buf) then Some(Found(KEYC_NONE, |buf|)) else None
    decreases t
  {
    assert buf[..|buf|] == buf;
    if t.Node? {
      if buf[0] == t.ch {
        assert Lookup(t, buf[..1]) == t.key;
        if |buf| > 1 {
          forall n | 1 <= n <= |buf| - 1 ensures Lookup(t.next, buf[1..][..n]) == KEYC_NONE {
            assert buf[1..][..n] == buf[..n + 1][1..];
          }
          FindUnstored(t.next, buf[1..]);
        }
      } else if buf[0] < t.ch {
        forall n | 1 <= n <= |buf| ensures Lookup(t.left, buf[..n]) == KEYC_NONE {
          assert Lookup(t, buf[..n]) == KEYC_NONE;
        }
        FindUnstored(t.left, buf);
      } else {
        forall n | 1 <= n <= |buf| ensures Lookup(t.right, buf[..n]) == KEYC_NONE {
          assert Lookup(t, buf[..n]) == KEYC_NONE;
        }
        FindUnstored(t.right, buf);
      }
    }
  }

  // ----- Paths and stored strings

  /** Every node lies on the way to a stored string. */
  lemma {:induction false} PathExtends(t: Tree, s: Str) returns (w: Str)
    requires LeafKeyed(t) && s != [] && HasPath(t, s)
    ensures s <= w && Lookup(t, w) != KEYC_NONE
    decreases t
  {
    if s[0] == t.ch {
      if |s| > 1 {
        var v := PathExtends(t.next, s[1..]);
        w := [s[0]] + v;
        assert w[1..] == v && s == [s[0]] + s[1..];
      } else if t.next.Nil? {
        w := s;
      } else {
        var v := PathExtends(t.next, [t.next.ch]);
        w := s + v;
        assert w[1..] == v;
      }
    } else if s[0] < t.ch {
      w := PathExtends(t.left, s);
    } else {
      w := PathExtends(t.right, s);
    }
  }

  lemma {:induction false} StoredHasPath(t: Tree, w: Str, s: Str)
    requires s != [] && s <= w && Lookup(t, w) != KEYC_NONE
    ensures HasPath(t, s)
    decreases t
  {
    assert s[0] == w[0];
    if s[0] == t.ch {
      if |s| > 1 { StoredHasPath(t.next, w[1..], s[1..]); }
    } else if s[0] < t.ch {
      StoredHasPath(t.left, w, s);
    } else {
      StoredHasPath(t.right, w, s);
    }
  }

  /** The specification of a lookup: the stored string that begins the buffer,
      with its length; or that the buffer is too short to say; or no match. */
  ghost predicate Matches(m: map<Str, int>, buf: Str, f: Option<Found>) {
    && (forall n :: 1 <= n <= |buf| && buf[..n] in m ==> f == Some(Found(m[buf[..n]], n)))
    && ((forall n :: 1 <= n <= |buf| ==> buf[..n] !in m) ==>
          if exists w :: w in m && ProperPrefix(buf, w) then f == Some(Found(KEYC_NONE, |buf|)) else f == None)
  }

  /** Find does just that. */
  lemma FindMatches(t: Tree, m: map<Str, int>, buf: Str)
    requires LeafKeyed(t) && Stores(t, m) && Keys(m) && buf != []
    ensures Matches(m, buf, Find(t, buf))
  {
    forall n | 1 <= n <= |buf| && buf[..n] in m ensures Find(t, buf) == Some(Found(m[buf[..n]], n)) {
      FindStored(t, buf, n);
    }
    if forall n :: 1 <= n <= |buf| ==> buf[..n] !in m {
      assert buf[..|buf|] == buf;
      FindUnstored(t, buf);
      if HasPath(t, buf) {
        var w := PathExtends(t, buf);
        assert w in m && (|w| == |buf| ==> w == buf);
        assert ProperPrefix(buf, w);
      }
      forall w | w in m && ProperPrefix(buf, w) ensures HasPath(t, buf) {
        StoredHasPath(t, w, buf);
      }
    }
  }

  // ----- Adding

  lemma {:induction false} InsertLeafKeyed(t: Tree, s: Str, key: int)
    requires s != [] && key != KEYC_NONE && LeafKeyed(t) && Find(t, s).None?
    ensures LeafKeyed(Insert(t, s, key))
    decreases |s|, t
  {
    var n := if t.Nil? then Fresh(s[0]) else t;
    if s[0] == n.ch {
      if |s| > 1 {
        InsertLeafKeyed(n.next, s[1..], key);
      }
    } else if s[0] < n.ch {
      InsertLeafKeyed(n.left, s, key);
    } else {
      InsertLeafKeyed(n.right, s, key);
    }
  }

  /** Setting the key of the node Find comes to changes the string that leads to
      that node. */
  lemma {:induction false} SetStores(t: Tree, s: Str, key: int, s': Str)
    requires s != [] && s' != [] && Find(t, s).Some?
    ensures var n := Find(t, s).value.size;
            1 <= n <= |s| && Lookup(SetFound(t, s, key), s') == if s' == s[..n] then key else Lookup(t, s')
    decreases t
  {
    if s[0] == t.ch {
      if |s| == 1 || (t.next.Nil? && t.key != KEYC_NONE) {
        if s'[0] == s[0] && |s'| == 1 { assert s' == s[..1]; }
        if s'[0] == s[0] && |s'| > 1 { assert SetFound(t, s, key).next == t.next; }
      } else {
        if |s'| > 1 {
          SetStores(t.next, s[1..], key, s'[1..]);
          var n := Find(t, s).value.size;
          assert s[..n] == [s[0]] + s[1..][..n - 1] && s' == [s'[0]] + s'[1..];
        } else {
          SetStores(t.next, s[1..], key, s');
        }
      }
    } else if s[0] < t.ch {
      SetStores(t.left, s, key, s');
    } else {
      SetStores(t.right, s, key, s');
    }
  }

  lemma {:induction false} SetLeafKeyed(t: Tree, s: Str, key: int)
    requires s != [] && key != KEYC_NONE && LeafKeyed(t) && Find(t, s).Some? && Find(t, s).value.key != KEYC_NONE
    ensures LeafKeyed(SetFound(t, s, key))
    decreases t
  {
    if s[0] == t.ch {
      if !(|s| == 1 || (t.next.Nil? && t.key != KEYC_NONE)) { SetLeafKeyed(t.next, s[1..], key); }
    } else if s[0] < t.ch {
      SetLeafKeyed(t.left, s, key);
    } else {
      SetLeafKeyed(t.right, s, key);
    }
  }

  /** What an add comes to: the string gets the key, unless a stored string is a
      proper prefix of it; then that one does. */
  function Target(m: map<Str, int>, s: Str): (r: Str)
    requires s != []
    ensures 1 <= |r| && r <= s && (r == s || r in m)
    ensures (exists n :: 1 <= n < |s| && s[..n] in m) <==> r != s
  {
    if n :| 1 <= n < |s| && s[..n] in m && (forall k :: 1 <= k < n ==> s[..k] !in m) then s[..n]
    else
      NoShortest(m, s, |s|);
      s
  }

  lemma {:induction false} NoShortest(m: map<Str, int>, s: Str, b: nat)
    requires b <= |s| && !exists n :: 1 <= n < |s| && s[..n] in m && (forall k :: 1 <= k < n ==> s[..k] !in m)
    ensures forall n :: 1 <= n < b ==> s[..n] !in m
  {
    if b > 1 { NoShortest(m, s, b - 1); }
  }

  lemma AddStores(t: Tree, m: map<Str, int>, s: Str, key: int)
    requires LeafKeyed(t) && Stores(t, m) && Keys(m) && s != [] && key != KEYC_NONE
    ensures Stores(Add(t, s, key), m[Target(m, s) := key])
  {
    hide Insert, SetFound;
    var r := Target(m, s);
    if Find(t, s).Some? {
      FindsTarget(t, m, s);
      forall s': Str | s' != [] ensures Lookup(Add(t, s, key), s') == if s' == r then key else Lookup(t, s') {
        SetStores(t, s, key, s');
      }
    } else {
      FindsTarget(t, m, s);
      forall s': Str | s' != [] ensures Lookup(Add(t, s, key), s') == if s' == r then key else Lookup(t, s') {
        InsertStores(t, s, key, s');
      }
    }
  }

  /** The node Find comes to is the one for the target. */
  lemma FindsTarget(t: Tree, m: map<Str, int>, s: Str)
    requires LeafKeyed(t) && Stores(t, m) && Keys(m) && s != []
    ensures Find(t, s).Some? ==> 1 <= Find(t, s).value.size <= |s| && s[..Find(t, s).value.size] == Target(m, s)
    ensures Find(t, s).None? ==> Target(m, s) == s
  {
    var r := Target(m, s);
    if r != s {
      assert s[..|r|] == r;
      FindStored(t, s, |r|);
    } else {
      FindMatches(t, m, s);
      assert s[..|s|] == s;
      if s in m {
        FindStored(t, s, |s|);
      } else {
        forall n | 1 <= n <= |s| ensures s[..n] !in m {}
      }
    }
  }

  /** An add stores the string exactly when no stored string is a proper prefix
      of it. When one is, that string's key is overwritten and the new string is
      not stored. */
  lemma AddStoresIff(t: Tree, m: map<Str, int>, s: Str, key: int)
    requires LeafKeyed(t) && Stores(t, m) && Keys(m) && s != [] && key != KEYC_NONE
    ensures Stores(Add(t, s, key), m[s := key]) <==> forall p :: p in m ==> !ProperPrefix(p, s)
    ensures Stores(Add(t, s, key), m[Target(m, s) := key])
  {
    var r := Target(m, s);
    AddStores(t, m, s, key);
    if r == s {
      forall p | p in m ensures !ProperPrefix(p, s) {
        PrefixSlice(p, s);
      }
    } else {
      assert ProperPrefix(r, s);
      assert Lookup(Add(t, s, key), s) == if s in m then m[s] else KEYC_NONE;
      if s in m { LongerUnstored(t, s, r); }
    }
  }

  // "a", then "ab": the key of "a" is replaced and "ab" is not stored.
  lemma ShorterReplaced()
    ensures var t := Add(Add(Nil, [97], 1), [97, 98], 2);
            Lookup(t, [97]) == 2 && Lookup(t, [97, 98]) == KEYC_NONE
  {
    var t := Add(Nil, [97], 1);
    assert t == Node(97, 1, Nil, Nil, Nil);
    assert Find(t, [97, 98]) == Some(Found(1, 1));
    assert [97, 98][1..] == [98];
  }

  lemma PrefixSlice(p: Str, s: Str)
    ensures p <= s ==> s[..|p|] == p
  {}

  /** With keys only at leaves no stored string begins another. */
  lemma {:induction false} LongerUnstored(t: Tree, s: Str, p: Str)
    requires LeafKeyed(t) && p != [] && ProperPrefix(p, s) && Lookup(t, p) != KEYC_NONE
    ensures Lookup(t, s) == KEYC_NONE
    decreases t
  {
    assert p[0] == s[0];
    if s[0] == t.ch {
      if |p| > 1 { LongerUnstored(t.next, s[1..], p[1..]); }
    } else if s[0] < t.ch {
      LongerUnstored(t.left, s, p);
    } else {
      LongerUnstored(t.right, s, p);
    }
  }

  lemma AddLeafKeyed(t: Tree, m: map<Str, int>, s: Str, key: int)
    requires LeafKeyed(t) && Stores(t, m) && Keys(m) && s != [] && key != KEYC_NONE
    requires forall w :: w in m ==> !ProperPrefix(s, w)
    ensures LeafKeyed(Add(t, s, key))
  {
    FindMatches(t, m, s);
    if Find(t, s).None? {
      InsertLeafKeyed(t, s, key);
    } else {
      FindsTarget(t, m, s);
      assert s[..|s|] == s;
      if exists n :: 1 <= n <= |s| && s[..n] in m {
        var n :| 1 <= n <= |s| && s[..n] in m;
      }
      SetLeafKeyed(t, s, key);
    }
  }

  // ----- tty_keys_init: any order

  type Entry = (Str, int)

  function AddAll(t: Tree, es: seq<Entry>): Tree
    requires forall e :: e in es ==> e.0 != []
    decreases |es|
  {
    if es == [] then t else AddAll(Add(t, es[0].0, es[0].1), es[1..])
  }

  /** The later of two entries for one string counts. */
  function MapOf(m: map<Str, int>, es: seq<Entry>): map<Str, int>
    decreases |es|
  {
    if es == [] then m else MapOf(m[es[0].0 := es[0].1], es[1..])
  }

  ghost predicate Compatible(m: map<Str, int>, es: seq<Entry>) {
    && (forall e :: e in es ==> e.0 != [] && e.1 != KEYC_NONE)
    && (forall a, b :: a in m.Keys + (set e | e in es :: e.0) && b in m.Keys + (set e | e in es :: e.0) ==>
          !ProperPrefix(a, b))
  }

  lemma {:induction false} AddAllStores(t: Tree, m: map<Str, int>, es: seq<Entry>)
    requires LeafKeyed(t) && Stores(t, m) && Keys(m) && Compatible(m, es)
    ensures LeafKeyed(AddAll(t, es)) && Stores(AddAll(t, es), MapOf(m, es)) && Keys(MapOf(m, es))
    decreases |es|
  {
    hide Stores, LeafKeyed, Add;
    if es != [] {
      var s, key := es[0].0, es[0].1;
      CompatibleStep(m, es);
      AddStoresIff(t, m, s, key);
      AddLeafKeyed(t, m, s, key);
      AddAllStores(Add(t, s, key), m[s := key], es[1..]);
    }
  }

  lemma CompatibleStep(m: map<Str, int>, es: seq<Entry>)
    requires Compatible(m, es) && Keys(m) && es != []
    ensures var s, key := es[0].0, es[0].1;
            && s != [] && key != KEYC_NONE && Keys(m[s := key])
            && (forall w :: w in m ==> !ProperPrefix(s, w) && !ProperPrefix(w, s))
            && Compatible(m[s := key], es[1..])
  {
    assert es[0] in es;
    var all, rest := m.Keys + (set e | e in es :: e.0), m[es[0].0 := es[0].1].Keys + (set e | e in es[1..] :: e.0);
    forall a | a in rest ensures a in all {
      if a in (set e | e in es[1..] :: e.0) {
        var e :| e in es[1..] && e.0 == a;
        assert e in es;
      }
    }
  }

  /** Any prefix-free strings, added in any order: a lookup finds the one string
      that begins the buffer, with its key and length; says that the buffer may
      become one; or finds nothing. */
  lemma Index(es: seq<Entry>, buf: Str)
    requires Compatible(map[], es) && buf != []
    ensures Matches(MapOf(map[], es), buf, Find(AddAll(Nil, es), buf))
  {
    assert Stores(Nil, map[]);
    AddAllStores(Nil, map[], es);
    FindMatches(AddAll(Nil, es), MapOf(map[], es), buf);
  }
}
