/**
 * pkg/trie: a path-compressed prefix tree from strings to items, used by
 * the flag registry to find long options by unambiguous prefix.
 *
 * A node holds an optional item, a compressed `tail` (the rest of the one key
 * stored below a leaf) and children keyed by their first rune. A node is a
 * value here: `Add` returns the rewritten trie instead of rewriting nodes in
 * place (no node is ever shared between two parents in the source).
 */
module Trie {
  import opened Wrappers

  datatype Node<T> = Node(item: Option<T>, tail: string, nodes: map<char, Node<T>>)

  /** Result of Add: the rewritten trie, and whether the "duplicate key in trie" error was returned. */
  datatype Added<T> = Added(trie: Node<T>, duplicate: bool)

  /** `p` is a prefix of `s`. */
  predicate IsPrefix(p: string, s: string) {
    |p| <= |s| && s[..|p|] == p
  }

  /** NewTrie: a node with no item, no tail and no children. */
  function NewTrie<T>(): (t: Node<T>)
    ensures Valid(t)
    ensures forall k :: Lookup(t, k) == None
  {
    Node(None, "", map[])
  }

  /** A node that carries something: an item or at least one child. */
  predicate NonEmpty<T>(t: Node<T>) {
    t.item.Some? || t.nodes != map[]
  }

  /**
   * The shape every trie built by NewTrie and Add keeps: a node with a tail
   * is a leaf carrying an item, and every child carries something.
   */
  ghost predicate Valid<T>(t: Node<T>)
    decreases t
  {
    (t.tail != "" ==> t.item.Some? && t.nodes == map[]) &&
    forall c :: c in t.nodes ==> NonEmpty(t.nodes[c]) && Valid(t.nodes[c])
  }

  /** The item stored under exactly the key `k` (the trie's abstract content). */
  ghost function Lookup<T>(t: Node<T>, k: string): Option<T>
    decreases t
  {
    if t.item.Some? && t.tail == k then t.item
    else if |k| > 0 && k[0] in t.nodes then Lookup(t.nodes[k[0]], k[1..])
    else None
  }

  /**
   * Get: the item for `key` when `key` is a stored key, or a prefix of
   * exactly one stored key; otherwise none (see GetExact, GetSound).
   */
  function Get<T>(t: Node<T>, key: string): Option<T>
    decreases |key|
  {
    if |key| == 0 && |t.nodes| == 0 then t.item
    else if |t.tail| >= |key| && t.tail[..|key|] == key then t.item
    else if key[0] in t.nodes then Get(t.nodes[key[0]], key[1..])
    else None
  }

  /**
   * Add: store `item` under `key`. A key that runs out at a node already
   * holding an item is refused as a duplicate; tails met on the way have
   * been pushed one level down by then, so a refused Add still reshapes
   * the trie.
   */
  function Add<T>(t: Node<T>, key: string, item: T): Added<T>
    decreases |key|
  {
    if |key| == 0 then
      if t.item.None? then Added(t.(item := Some(item)), false) else Added(t, true)
    else if |t.nodes| == 0 && |t.tail| == 0 && t.item.None? then
      Added(Node(Some(item), key, t.nodes), false)
    else
      var t1 := PushDown(t);
      if key[0] in t1.nodes then
        var r := Add(t1.nodes[key[0]], key[1..], item);
        Added(t1.(nodes := t1.nodes[key[0] := r.trie]), r.duplicate)
      else
        Added(t1.(nodes := t1.nodes[key[0] := Node(Some(item), key[1..], map[])]), false)
  }

  /** The tail of a leaf moved one level down into a child of its first rune. */
  function PushDown<T>(t: Node<T>): (t1: Node<T>)
    ensures t1.tail == ""
  {
    if |t.tail| > 0 then
      Node(None, "", t.nodes[t.tail[0] := Node(t.item, t.tail[1..], map[])])
    else t
  }

  /** PushDown keeps the shape and the content of the trie. */
  lemma PushDownKeeps<T>(t: Node<T>)
    requires Valid(t)
    ensures Valid(PushDown(t)) && (NonEmpty(t) ==> NonEmpty(PushDown(t)))
    ensures forall k :: Lookup(PushDown(t), k) == Lookup(t, k)
  {
    if |t.tail| > 0 {
      var t1 := PushDown(t);
      var leaf := Node(t.item, t.tail[1..], map[]);
      assert t1.nodes == map[t.tail[0] := leaf];
      assert t.tail[0] in t1.nodes;
      forall k ensures Lookup(t1, k) == Lookup(t, k) {
        if |k| > 0 && k[0] == t.tail[0] {
          assert Lookup(t1, k) == Lookup(leaf, k[1..]);
          assert (k[1..] == t.tail[1..]) == (k == t.tail) by {
            if k[1..] == t.tail[1..] {
              assert k == [k[0]] + k[1..] && t.tail == [t.tail[0]] + t.tail[1..];
            }
          }
        }
      }
    }
  }

  /** `t2` is `t` with `item` stored under `key` and nothing else changed. */
  ghost predicate Stores<T>(t2: Node<T>, t: Node<T>, key: string, item: T) {
    forall k :: Lookup(t2, k) == if k == key then Some(item) else Lookup(t, k)
  }

  /** Two non-empty strings with the same first rune are equal iff their rests are. */
  lemma SameHead(k: string, key: string)
    requires |k| > 0 && |key| > 0 && k[0] == key[0]
    ensures (k[1..] == key[1..]) == (k == key)
  {
    if k[1..] == key[1..] {
      assert k == [k[0]] + k[1..] && key == [key[0]] + key[1..];
    }
  }

  /** Replacing the child at `c` of a tail-less node changes only the keys through `c`. */
  lemma LookupReplaceChild<T>(t: Node<T>, c: char, n: Node<T>, k: string)
    requires t.tail == ""
    ensures Lookup(t.(nodes := t.nodes[c := n]), k) ==
      if |k| > 0 && k[0] == c then Lookup(n, k[1..]) else Lookup(t, k)
  {
  }

  /** Add at the node where the key runs out. */
  lemma AddHere<T>(t: Node<T>, item: T)
    requires Valid(t)
    ensures var r := Add(t, "", item);
      Valid(r.trie) && (NonEmpty(t) || !r.duplicate ==> NonEmpty(r.trie)) &&
      (r.duplicate ==> r.trie == t) &&
      (!r.duplicate ==> Lookup(t, "") == None && Stores(r.trie, t, "", item))
  {
    var r := Add(t, "", item);
    if t.item.None? {
      forall k ensures Lookup(r.trie, k) == if k == "" then Some(item) else Lookup(t, k) {
      }
    }
  }

  /** Add of a key whose first rune has no child yet. */
  lemma AddNewChild<T>(t1: Node<T>, key: string, item: T)
    requires Valid(t1) && t1.tail == "" && |key| > 0 && key[0] !in t1.nodes
    ensures var t2 := t1.(nodes := t1.nodes[key[0] := Node(Some(item), key[1..], map[])]);
      Valid(t2) && NonEmpty(t2) && Lookup(t1, key) == None && Stores(t2, t1, key, item)
  {
    var leaf := Node(Some(item), key[1..], map[]);
    var t2 := t1.(nodes := t1.nodes[key[0] := leaf]);
    assert key[0] in t2.nodes;
    forall k ensures Lookup(t2, k) == if k == key then Some(item) else Lookup(t1, k) {
      LookupReplaceChild(t1, key[0], leaf, k);
      if |k| > 0 && k[0] == key[0] {
        SameHead(k, key);
      }
    }
  }

  /** Add below an existing child, given what Add did to that child. */
  lemma AddIntoChild<T>(t1: Node<T>, key: string, item: T, rc: Added<T>)
    requires Valid(t1) && t1.tail == "" && |key| > 0 && key[0] in t1.nodes
    requires Valid(rc.trie) && NonEmpty(rc.trie)
    requires rc.duplicate ==> forall k :: Lookup(rc.trie, k) == Lookup(t1.nodes[key[0]], k)
    requires !rc.duplicate ==> Lookup(t1.nodes[key[0]], key[1..]) == None && Stores(rc.trie, t1.nodes[key[0]], key[1..], item)
    ensures var t2 := t1.(nodes := t1.nodes[key[0] := rc.trie]);
      Valid(t2) && NonEmpty(t2) &&
      (rc.duplicate ==> forall k :: Lookup(t2, k) == Lookup(t1, k)) &&
      (!rc.duplicate ==> Lookup(t1, key) == None && Stores(t2, t1, key, item))
  {
    var c := key[0];
    var t2 := t1.(nodes := t1.nodes[c := rc.trie]);
    assert c in t2.nodes;
    forall k ensures Lookup(t2, k) == if !rc.duplicate && k == key then Some(item) else Lookup(t1, k) {
      LookupReplaceChild(t1, c, rc.trie, k);
      if |k| > 0 && k[0] == c {
        SameHead(k, key);
      }
    }
  }

  /**
   * Add keeps the shape of the trie. A successful Add stores `item` under
   * `key`, which held nothing before, and leaves every other key alone; a
   * refused Add leaves the content unchanged.
   */
  lemma {:induction false} AddContent<T>(t: Node<T>, key: string, item: T)
    requires Valid(t)
    ensures var r := Add(t, key, item);
      Valid(r.trie) &&
      (NonEmpty(t) || !r.duplicate ==> NonEmpty(r.trie)) &&
      (r.duplicate ==> forall k :: Lookup(r.trie, k) == Lookup(t, k)) &&
      (!r.duplicate ==> Lookup(t, key) == None && Stores(r.trie, t, key, item))
    decreases |key|
  {
    if |key| == 0 {
      AddHere(t, item);
    } else if |t.nodes| == 0 && |t.tail| == 0 && t.item.None? {
      var r := Add(t, key, item);
      assert forall k :: Lookup(t, k) == None;
      assert Stores(r.trie, t, key, item);
    } else {
      var t1 := PushDown(t);
      PushDownKeeps(t);
      if key[0] in t1.nodes {
        AddContent(t1.nodes[key[0]], key[1..], item);
        AddIntoChild(t1, key, item, Add(t1.nodes[key[0]], key[1..], item));
      } else {
        AddNewChild(t1, key, item);
      }
    }
  }

  /** Re-adding a stored key is refused as a duplicate. */
  lemma AddStoredIsDuplicate<T>(t: Node<T>, key: string, item: T)
    requires Valid(t) && Lookup(t, key).Some?
    ensures Add(t, key, item).duplicate
  {
    AddContent(t, key, item);
  }

  /**
   * A refused Add had met a stored key that extends `key` (its argument), so
   * a key that is a prefix of no stored key is always accepted.
   */
  lemma {:induction false} AddDuplicateWitness<T>(t: Node<T>, key: string, item: T) returns (w: string)
    requires Valid(t) && Add(t, key, item).duplicate
    ensures IsPrefix(key, w) && Lookup(t, w).Some?
    decreases |key|
  {
    if |key| == 0 {
      w := t.tail;
    } else {
      var t1 := PushDown(t);
      PushDownKeeps(t);
      var c := key[0];
      var child := t1.nodes[c];
      var w1 := AddDuplicateWitness(child, key[1..], item);
      w := [c] + w1;
      assert w[1..] == w1;
      assert Lookup(t1, w) == Lookup(child, w1);
      assert key == [c] + key[1..];
    }
  }

  /** Get finds every stored key. */
  lemma {:induction false} GetExact<T>(t: Node<T>, k: string)
    requires Valid(t) && Lookup(t, k).Some?
    ensures Get(t, k) == Lookup(t, k)
    decreases |k|
  {
    if t.item.Some? && t.tail == k {
    } else {
      GetExact(t.nodes[k[0]], k[1..]);
    }
  }

  /**
   * Get answers only for a stored key, or for a prefix of exactly one
   * stored key `w`, whose item it returns.
   */
  lemma {:induction false} GetSound<T>(t: Node<T>, k: string) returns (w: string)
    requires Valid(t) && Get(t, k).Some?
    ensures IsPrefix(k, w) && Lookup(t, w) == Get(t, k)
    ensures w == k || forall u :: IsPrefix(k, u) && Lookup(t, u).Some? ==> u == w
    decreases |k|
  {
    if |k| == 0 && |t.nodes| == 0 {
      w := t.tail;
      forall u | IsPrefix(k, u) && Lookup(t, u).Some? ensures u == w {
      }
    } else if |t.tail| >= |k| && t.tail[..|k|] == k {
      w := t.tail;
      if t.tail != "" {
        forall u | IsPrefix(k, u) && Lookup(t, u).Some? ensures u == w {
        }
      }
    } else {
      var c := k[0];
      var child := t.nodes[c];
      var w1 := GetSound(child, k[1..]);
      w := [c] + w1;
      assert w[1..] == w1 && k == [c] + k[1..];
      assert Lookup(t, w) == Lookup(child, w1);
      if w != k {
        assert w1 != k[1..];
        forall u | IsPrefix(k, u) && Lookup(t, u).Some? ensures u == w {
          assert u[0] == c && IsPrefix(k[1..], u[1..]);
          assert Lookup(t, u) == Lookup(child, u[1..]);
          assert u == [c] + u[1..];
        }
      }
    }
  }

  /** `w` is the one and only key stored in `t`. */
  ghost predicate SingleKey<T>(t: Node<T>, w: string) {
    Lookup(t, w).Some? && forall u :: Lookup(t, u).Some? ==> u == w
  }

  /**
   * The shape of a trie built by successful Adds only: a node without an
   * item never sits above exactly one key (a refused Add can leave such
   * chains behind, see RefusedAddHidesPrefix).
   */
  ghost predicate Canonical<T>(t: Node<T>)
    decreases t
  {
    (t.item.None? ==> forall w :: !SingleKey(t, w)) &&
    forall c :: c in t.nodes ==> Canonical(t.nodes[c])
  }

  /** A node that carries something stores some key. */
  lemma {:induction false} SomeKey<T>(t: Node<T>) returns (w: string)
    requires Valid(t) && NonEmpty(t)
    ensures Lookup(t, w).Some?
    decreases t
  {
    if t.item.Some? {
      w := t.tail;
    } else {
      var c :| c in t.nodes;
      var w1 := SomeKey(t.nodes[c]);
      w := [c] + w1;
      assert w[1..] == w1;
    }
  }

  /** The empty trie is canonical. */
  lemma NewTrieCanonical<T>()
    ensures Canonical(NewTrie<T>())
  {
    var t := NewTrie<T>();
    forall w ensures !SingleKey(t, w) {
      assert Lookup(t, w) == None;
    }
  }

  /** A canonical leaf: an item with no children. */
  lemma LeafCanonical<T>(t: Node<T>)
    requires t.item.Some? && t.nodes == map[]
    ensures Canonical(t)
  {
  }

  /** A successful Add keeps a trie canonical. */
  lemma {:induction false} AddCanonical<T>(t: Node<T>, key: string, item: T)
    requires Valid(t) && Canonical(t) && !Add(t, key, item).duplicate
    ensures Canonical(Add(t, key, item).trie)
    decreases |key|
  {
    var r := Add(t, key, item);
    AddContent(t, key, item);
    if |key| == 0 {
      assert r.trie.nodes == t.nodes;
    } else if |t.nodes| == 0 && |t.tail| == 0 && t.item.None? {
      LeafCanonical(r.trie);
    } else {
      var t1 := PushDown(t);
      PushDownKeeps(t);
      var c := key[0];
      assert forall d :: d in t1.nodes ==> Canonical(t1.nodes[d]) by {
        if |t.tail| > 0 {
          LeafCanonical(Node(t.item, t.tail[1..], map[]));
        }
      }
      if c in t1.nodes {
        var child := t1.nodes[c];
        AddContent(child, key[1..], item);
        AddCanonical(child, key[1..], item);
        assert r.trie == t1.(nodes := t1.nodes[c := Add(child, key[1..], item).trie]);
      } else {
        LeafCanonical(Node(Some(item), key[1..], map[]));
      }
      assert forall d :: d in r.trie.nodes ==> Canonical(r.trie.nodes[d]);
      if r.trie.item.None? {
        var k0 := SomeKey(t);
        assert k0 != key;
        assert Lookup(r.trie, k0).Some? && Lookup(r.trie, key).Some?;
        forall w ensures !SingleKey(r.trie, w) {
        }
      }
    }
  }

  /**
   * In a canonical trie Get finds a key through any prefix that no other
   * stored key shares: the abbreviation rule for long option names.
   */
  lemma {:induction false} GetUnique<T>(t: Node<T>, k: string, w: string)
    requires Valid(t) && Canonical(t)
    requires IsPrefix(k, w) && Lookup(t, w).Some?
    requires forall u :: IsPrefix(k, u) && Lookup(t, u).Some? ==> u == w
    ensures Get(t, k) == Lookup(t, w)
    decreases |k|
  {
    if |k| == 0 && |t.nodes| == 0 {
    } else if |t.tail| >= |k| && t.tail[..|k|] == k {
      if t.tail == "" {
        assert SingleKey(t, w);
        assert t.item.Some?;
        assert Lookup(t, "").Some? && IsPrefix(k, "");
      }
    } else {
      var c := k[0];
      assert w[0] == c;
      var child := t.nodes[c];
      assert Lookup(child, w[1..]) == Lookup(t, w);
      forall u | IsPrefix(k[1..], u) && Lookup(child, u).Some? ensures u == w[1..] {
        var u' := [c] + u;
        assert u'[1..] == u;
        assert IsPrefix(k, u') by {
          assert k == [c] + k[1..];
        }
        assert Lookup(t, u') == Lookup(child, u);
      }
      GetUnique(child, k[1..], w[1..]);
    }
  }

  /**
   * In a canonical trie, a key that is a proper prefix of exactly one stored
   * key (as "binary" is of an earlier "binary-files") is refused as a
   * duplicate: its path runs out inside that key's compressed tail.
   */
  lemma {:induction false} AddPrefixOfUniqueRefused<T>(t: Node<T>, k: string, w: string, item: T)
    requires Valid(t) && Canonical(t)
    requires IsPrefix(k, w) && k != w && Lookup(t, w).Some?
    requires forall u :: IsPrefix(k, u) && Lookup(t, u).Some? ==> u == w
    ensures Add(t, k, item).duplicate
    decreases |k|
  {
    if |k| == 0 {
      assert SingleKey(t, w);
    } else {
      var t1 := PushDown(t);
      PushDownKeeps(t);
      var c := k[0];
      assert w[0] == c;
      assert Lookup(t1, w).Some?;
      assert c in t1.nodes;
      var child := t1.nodes[c];
      assert Canonical(child) by {
        if |t.tail| > 0 {
          LeafCanonical(Node(t.item, t.tail[1..], map[]));
        }
      }
      assert Lookup(child, w[1..]) == Lookup(t1, w);
      forall u | IsPrefix(k[1..], u) && Lookup(child, u).Some? ensures u == w[1..] {
        var u' := [c] + u;
        assert u'[1..] == u;
        assert IsPrefix(k, u') by {
          assert k == [c] + k[1..];
        }
        assert Lookup(t1, u') == Lookup(child, u);
      }
      assert k[1..] != w[1..] by {
        assert k == [c] + k[1..] && w == [c] + w[1..];
      }
      AddPrefixOfUniqueRefused(child, k[1..], w[1..], item);
    }
  }

  /** Every node on the path spelled by `w` has an empty tail. */
  ghost predicate PathOpen<T>(t: Node<T>, w: string)
    decreases |w|
  {
    t.tail == "" && (|w| > 0 ==> w[0] in t.nodes && PathOpen(t.nodes[w[0]], w[1..]))
  }

  /** A refused Add of a stored key pushes every tail on that key's path down. */
  lemma {:induction false} RefusedAddOpensPath<T>(t: Node<T>, w: string, item: T)
    requires Valid(t) && Lookup(t, w).Some?
    ensures Add(t, w, item).duplicate && PathOpen(Add(t, w, item).trie, w)
    decreases |w|
  {
    AddStoredIsDuplicate(t, w, item);
    if |w| > 0 {
      var t1 := PushDown(t);
      PushDownKeeps(t);
      assert Lookup(t1, w).Some?;
      assert w[0] in t1.nodes;
      RefusedAddOpensPath(t1.nodes[w[0]], w[1..], item);
    }
  }

  /** Along an open path, Get finds only what is stored under exactly the query. */
  lemma {:induction false} GetOnOpenPath<T>(t: Node<T>, w: string, k: string)
    requires PathOpen(t, w) && IsPrefix(k, w)
    ensures Get(t, k) == Lookup(t, k)
    decreases |k|
  {
    if |k| > 0 {
      assert k[0] == w[0] && IsPrefix(k[1..], w[1..]);
      GetOnOpenPath(t.nodes[w[0]], w[1..], k[1..]);
    }
  }

  /**
   * A refused re-add of a stored key `w` still rewrites the trie: afterwards
   * a proper prefix of `w` no longer finds `w`'s item by unique prefix, only
   * what is stored under exactly that prefix.
   */
  lemma RefusedAddHidesPrefix<T>(t: Node<T>, w: string, item: T, k: string)
    requires Valid(t) && Lookup(t, w).Some? && IsPrefix(k, w)
    ensures Add(t, w, item).duplicate && Get(Add(t, w, item).trie, k) == Lookup(t, k)
  {
    RefusedAddOpensPath(t, w, item);
    GetOnOpenPath(Add(t, w, item).trie, w, k);
    AddContent(t, w, item);
  }

  /** A query that is not itself a key, but a prefix of two distinct keys, finds nothing. */
  lemma GetAmbiguous<T>(t: Node<T>, k: string, a: string, b: string)
    requires Valid(t) && Lookup(t, k) == None
    requires a != b && IsPrefix(k, a) && IsPrefix(k, b) && Lookup(t, a).Some? && Lookup(t, b).Some?
    ensures Get(t, k) == None
  {
    if Get(t, k).Some? {
      var w := GetSound(t, k);
    }
  }

  /** A key that is a prefix of no stored key is accepted. */
  lemma AddFresh<T>(t: Node<T>, key: string, item: T)
    requires Valid(t)
    requires forall w :: IsPrefix(key, w) ==> Lookup(t, w) == None
    ensures !Add(t, key, item).duplicate
  {
    if Add(t, key, item).duplicate {
      var w := AddDuplicateWitness(t, key, item);
    }
  }
}

/** The scenario of pkg/trie's basic test: six keys, their prefixes and re-adds. */
module TrieScenario {
  import opened Wrappers
  import opened Trie

  /** The keys "foo", "bar", "baz", "bazaar", "fop", "quux", in that order, each mapped to its upper-case form. */
  function SixKeys(): Node<string> {
    Add(FiveKeys(), "quux", "QUUX").trie
  }

  function FiveKeys(): Node<string> {
    Add(FourKeys(), "fop", "FOP").trie
  }

  function FourKeys(): Node<string> {
    Add(ThreeKeys(), "bazaar", "BAZAAR").trie
  }

  function ThreeKeys(): Node<string> {
    Add(Add(Add(NewTrie(), "foo", "FOO").trie, "bar", "BAR").trie, "baz", "BAZ").trie
  }

  /** `t` stores exactly the entries of `m`. */
  ghost predicate Holds(t: Node<string>, m: map<string, string>) {
    Valid(t) && Canonical(t) && forall k :: Lookup(t, k) == if k in m then Some(m[k]) else None
  }

  /** Adding a key that extends no stored key, and that no stored key extends. */
  lemma AddStep(t: Node<string>, m: map<string, string>, key: string, item: string)
    requires Holds(t, m)
    requires forall w :: w in m ==> !IsPrefix(key, w)
    ensures !Add(t, key, item).duplicate && Holds(Add(t, key, item).trie, m[key := item])
  {
    AddFresh(t, key, item);
    AddContent(t, key, item);
    AddCanonical(t, key, item);
  }

  /** `p` is not a prefix of `s` when they differ at `i`, or `s` ends before `i`. */
  lemma NoPrefix(p: string, s: string, i: nat)
    requires i < |p| && (i >= |s| || p[i] != s[i])
    ensures !IsPrefix(p, s)
  {
  }

  /** The first three Adds succeed and leave exactly their three keys. */
  lemma ThreeKeysContent()
    ensures Holds(ThreeKeys(), M3())
  {
    var t: Node<string> := NewTrie();
    NewTrieCanonical<string>();
    var m: map<string, string> := map[];
    AddStep(t, m, "foo", "FOO");
    t, m := Add(t, "foo", "FOO").trie, m["foo" := "FOO"];
    NoPrefix("bar", "foo", 0);
    AddStep(t, m, "bar", "BAR");
    t, m := Add(t, "bar", "BAR").trie, m["bar" := "BAR"];
    NoPrefix("baz", "foo", 0); NoPrefix("baz", "bar", 2);
    AddStep(t, m, "baz", "BAZ");
  }

  function M3(): map<string, string> { map["foo" := "FOO", "bar" := "BAR", "baz" := "BAZ"] }

  /** The fourth, fifth and sixth Adds, each from any trie holding the keys before it. */
  lemma AddBazaar(t: Node<string>)
    requires Holds(t, M3())
    ensures Holds(Add(t, "bazaar", "BAZAAR").trie, M3()["bazaar" := "BAZAAR"])
  {
    NoPrefix("bazaar", "foo", 0); NoPrefix("bazaar", "bar", 2); NoPrefix("bazaar", "baz", 3);
    AddStep(t, M3(), "bazaar", "BAZAAR");
  }

  lemma AddFop(t: Node<string>)
    requires Holds(t, M3()["bazaar" := "BAZAAR"])
    ensures Holds(Add(t, "fop", "FOP").trie, M3()["bazaar" := "BAZAAR"]["fop" := "FOP"])
  {
    NoPrefix("fop", "foo", 2); NoPrefix("fop", "bar", 0); NoPrefix("fop", "baz", 0); NoPrefix("fop", "bazaar", 0);
    AddStep(t, M3()["bazaar" := "BAZAAR"], "fop", "FOP");
  }

  lemma AddQuux(t: Node<string>)
    requires Holds(t, M3()["bazaar" := "BAZAAR"]["fop" := "FOP"])
    ensures Holds(Add(t, "quux", "QUUX").trie, SixMap())
  {
    NoPrefix("quux", "foo", 0); NoPrefix("quux", "bar", 0); NoPrefix("quux", "baz", 0);
    NoPrefix("quux", "bazaar", 0); NoPrefix("quux", "fop", 0);
    AddStep(t, M3()["bazaar" := "BAZAAR"]["fop" := "FOP"], "quux", "QUUX");
  }

  /** The six keys and their items. */
  function SixMap(): map<string, string> {
    M3()["bazaar" := "BAZAAR"]["fop" := "FOP"]["quux" := "QUUX"]
  }

  /** SixKeys stores exactly the six keys, and is canonical. */
  lemma SixKeysContent()
    ensures Holds(SixKeys(), SixMap())
  {
    ThreeKeysContent();
    AddBazaar(ThreeKeys());
    AddFop(FourKeys());
    AddQuux(FiveKeys());
  }

  /** Only "bazaar" among the six keys starts with "baz" followed by more. */
  lemma OnlyBazaar(t: Node<string>, k: string)
    requires Holds(t, SixMap()) && k in {"baza", "bazaa"}
    ensures Get(t, k) == Some("BAZAAR")
  {
    forall u | IsPrefix(k, u) && Lookup(t, u).Some? ensures u == "bazaar" {
      assert u in SixMap();
      NoPrefix(k, "foo", 0); NoPrefix(k, "bar", 2); NoPrefix(k, "baz", 3);
      NoPrefix(k, "fop", 0); NoPrefix(k, "quux", 0);
    }
    GetUnique(t, k, "bazaar");
  }

  /** Only "quux" among the six keys starts with "q". */
  lemma OnlyQuux(t: Node<string>, k: string)
    requires Holds(t, SixMap()) && k in {"q", "qu", "quu"}
    ensures Get(t, k) == Some("QUUX")
  {
    forall u | IsPrefix(k, u) && Lookup(t, u).Some? ensures u == "quux" {
      assert u in SixMap();
      NoPrefix(k, "foo", 0); NoPrefix(k, "bar", 0); NoPrefix(k, "baz", 0);
      NoPrefix(k, "bazaar", 0); NoPrefix(k, "fop", 0);
    }
    GetUnique(t, k, "quux");
  }

  /** Every stored key finds its own item, and re-adding it is refused. */
  lemma SixKeysExact(t: Node<string>, k: string)
    requires Holds(t, SixMap()) && k in SixMap()
    ensures Get(t, k) == Some(SixMap()[k]) && Add(t, k, "DUPE-" + k).duplicate
  {
    GetExact(t, k);
    AddStoredIsDuplicate(t, k, "DUPE-" + k);
  }

  /** "f", "fo", "b" and "ba" are each a prefix of two keys and find nothing. */
  lemma SixKeysAmbiguous(t: Node<string>)
    requires Holds(t, SixMap())
    ensures Get(t, "f") == None && Get(t, "fo") == None && Get(t, "b") == None && Get(t, "ba") == None
  {
    SixAmbiguous(t, "f", "foo", "fop");
    SixAmbiguous(t, "fo", "foo", "fop");
    SixAmbiguous(t, "b", "bar", "baz");
    SixAmbiguous(t, "ba", "bar", "baz");
  }

  /** A string shorter than every key that is a prefix of two keys finds nothing. */
  lemma SixAmbiguous(t: Node<string>, k: string, a: string, b: string)
    requires Holds(t, SixMap()) && |k| < 3 && a in SixMap() && b in SixMap()
    requires a != b && IsPrefix(k, a) && IsPrefix(k, b)
    ensures Get(t, k) == None
  {
    assert k !in SixMap();
    assert Lookup(t, k) == None && Lookup(t, a).Some? && Lookup(t, b).Some?;
    GetAmbiguous(t, k, a, b);
  }

  /**
   * The lookups of the basic test, on the trie its six Adds build: every key
   * finds its own item and re-adding it is refused; "f", "fo", "b" and "ba"
   * are ambiguous; "baza" and "bazaa" find BAZAAR; "q", "qu" and "quu" find QUUX.
   */
  lemma SixKeysTest()
    ensures forall k :: k in SixMap() ==> Get(SixKeys(), k) == Some(SixMap()[k]) && Add(SixKeys(), k, "DUPE-" + k).duplicate
    ensures Get(SixKeys(), "f") == None && Get(SixKeys(), "fo") == None && Get(SixKeys(), "b") == None && Get(SixKeys(), "ba") == None
    ensures Get(SixKeys(), "baza") == Some("BAZAAR") && Get(SixKeys(), "bazaa") == Some("BAZAAR")
    ensures Get(SixKeys(), "q") == Some("QUUX") && Get(SixKeys(), "qu") == Some("QUUX") && Get(SixKeys(), "quu") == Some("QUUX")
  {
    var t := SixKeys();
    SixKeysContent();
    forall k | k in SixMap() ensures Get(t, k) == Some(SixMap()[k]) && Add(t, k, "DUPE-" + k).duplicate {
      SixKeysExact(t, k);
    }
    SixKeysAmbiguous(t);
    OnlyBazaar(t, "baza"); OnlyBazaar(t, "bazaa");
    OnlyQuux(t, "q"); OnlyQuux(t, "qu"); OnlyQuux(t, "quu");
  }

  /** After the refused re-add of "quux", "q" no longer finds QUUX. */
  lemma QuuxReAddOn(t: Node<string>)
    requires Holds(t, SixMap())
    ensures Add(t, "quux", "DUPE-quux").duplicate
    ensures Get(Add(t, "quux", "DUPE-quux").trie, "q") == None
  {
    assert Lookup(t, "quux").Some? && Lookup(t, "q") == None;
    RefusedAddHidesPrefix(t, "quux", "DUPE-quux", "q");
  }

  /** The same, on the trie the six Adds build, where "q" found QUUX before. */
  lemma QuuxReAdd()
    ensures Get(SixKeys(), "q") == Some("QUUX")
    ensures Get(Add(SixKeys(), "quux", "DUPE-quux").trie, "q") == None
  {
    SixKeysContent();
    OnlyQuux(SixKeys(), "q");
    QuuxReAddOn(SixKeys());
  }
}
