/**
 * pkg/shup: the shortest-unique-prefix package.
 *
 * `Set[T]` is a Go map used as a set; its methods update that map in place,
 * so here it is a class whose field `Items` is the set. A trie node is a
 * value: `Populate` returns the populated node (see README, "Left out").
 *
 * Descend as written can stop one rune after the shortest unique prefix;
 * DescendShortest and ShortestUniquePrefixMapIntended are the descent the
 * package comment describes, proved to find the shortest unique prefix.
 */
module Shup {
  import opened Wrappers
  import Runes

  /** The elements of a sequence, as a set. */
  function Elems<T>(s: seq<T>): set<T> {
    set i | 0 <= i < |s| :: s[i]
  }

  lemma ElemsSnoc<T>(s: seq<T>, x: T)
    ensures Elems(s + [x]) == Elems(s) + {x}
  {
    assert forall i :: 0 <= i < |s| ==> (s + [x])[i] == s[i];
    assert (s + [x])[|s|] == x;
  }

  lemma ElemsPrefix<T>(s: seq<T>, j: nat)
    requires j < |s|
    ensures Elems(s[..j + 1]) == Elems(s[..j]) + {s[j]}
  {
    assert s[..j + 1] == s[..j] + [s[j]];
    ElemsSnoc(s[..j], s[j]);
  }

  lemma ElemsWhole<T>(s: seq<T>)
    ensures Elems(s[..|s|]) == Elems(s)
  {
    assert s[..|s|] == s;
  }

  lemma ElemsOne<T>(x: T)
    ensures Elems([x]) == {x}
  {
    assert [x] == [] + [x];
    ElemsSnoc([], x);
  }

  /** No element occurs twice. */
  predicate Distinct<T(==)>(s: seq<T>) {
    forall i, j :: 0 <= i < j < |s| ==> s[i] != s[j]
  }

  /**
   * The elements of `s`, each exactly once, in some order (Go's map order is
   * left open: any order the loop may pick satisfies the contract).
   */
  method SliceOf<T(==)>(s: set<T>) returns (keys: seq<T>)
    ensures Elems(keys) == s && Distinct(keys) && |keys| == |s|
  {
    keys := [];
    var rest := s;
    while rest != {}
      invariant Listed(s, keys, rest)
      decreases |rest|
    {
      var key :| key in rest;
      ListedStep(s, keys, rest, key);
      keys := keys + [key];
      rest := rest - {key};
    }
  }

  /** Partway through SliceOf: `keys` lists, once each, what is not in `rest`. */
  ghost predicate Listed<T>(s: set<T>, keys: seq<T>, rest: set<T>) {
    Elems(keys) + rest == s && Elems(keys) !! rest && Distinct(keys) && |keys| + |rest| == |s|
  }

  lemma ListedStep<T>(s: set<T>, keys: seq<T>, rest: set<T>, key: T)
    requires Listed(s, keys, rest) && key in rest
    ensures Listed(s, keys + [key], rest - {key})
  {
    ElemsSnoc(keys, key);
  }

  class Set<T(==)> {
    var Items: set<T>

    /** NewSet: a set of the given items; repeated items are kept once. */
    constructor NewSet(items: seq<T>)
      ensures Items == Elems(items)
    {
      Items := {};
      new;
      Add(items);
    }

    /** Add inserts every item; one already present changes nothing. */
    method Add(items: seq<T>)
      modifies this
      ensures Items == old(Items) + Elems(items)
    {
      for i := 0 to |items|
        invariant Items == old(Items) + Elems(items[..i])
      {
        assert items[..i + 1] == items[..i] + [items[i]];
        ElemsSnoc(items[..i], items[i]);
        Items := Items + {items[i]};
      }
      assert items[..|items|] == items;
    }

    /** Has holds when every item is in the set, and so for no items at all. */
    method Has(items: seq<T>) returns (b: bool)
      ensures b <==> forall i :: 0 <= i < |items| ==> items[i] in Items
    {
      for i := 0 to |items|
        invariant forall j :: 0 <= j < i ==> items[j] in Items
      {
        if items[i] !in Items {
          return false;
        }
      }
      return true;
    }

    /** Del removes every listed item; one that is missing is ignored. */
    method Del(items: seq<T>)
      modifies this
      ensures Items == old(Items) - Elems(items)
    {
      for i := 0 to |items|
        invariant Items == old(Items) - Elems(items[..i])
      {
        assert items[..i + 1] == items[..i] + [items[i]];
        ElemsSnoc(items[..i], items[i]);
        if items[i] in Items {
          Items := Items - {items[i]};
        }
      }
      assert items[..|items|] == items;
    }

    /** Slice lists every element exactly once. */
    method Slice() returns (keys: seq<T>)
      ensures Elems(keys) == Items && Distinct(keys) && |keys| == |Items|
    {
      keys := SliceOf(Items);
    }
  }

  /** The set test: nine items with repeats make a set of three; deleting 2 leaves 1 and 3. */
  method SetTest() returns (s: Set<int>)
    ensures s.Items == {1, 3} && fresh(s)
  {
    var items := [1, 1, 2, 2, 2, 3, 3, 3, 3];
    assert forall x :: x in Elems(items) <==> x in {1, 2, 3} by {
      assert items[0] == 1 && items[2] == 2 && items[5] == 3;
    }
    s := new Set.NewSet(items);
    assert s.Items == {1, 2, 3};
    assert |s.Items| == 3;
    var has := s.Has([1, 2, 3]);
    assert has;
    s.Del([2]);
    assert Elems([2]) == {2} by {
      assert [2][0] == 2;
    }
    assert s.Items == {1, 2, 3} - {2};
  }

  /**
   * A trie node: the rune that leads to it, the set of strings still to be
   * told apart below it (each with the runes above it removed), and its
   * children; a child of None is Go's nil pointer, left for a string that
   * ends at that rune.
   */
  datatype Node = Node(rune: char, strs: set<string>, subs: map<char, Option<Node>>)

  /**
   * NewTrie: a childless node over the distinct non-empty items, or none
   * when no item is non-empty.
   */
  method NewTrie(c: char, items: seq<string>) returns (r: Option<Node>)
    ensures r.None? <==> Elems(items) <= {""}
    ensures r.Some? ==> r.value == Node(c, Elems(items) - {""}, map[])
  {
    var ns := new Set.NewSet(items);
    ns.Del([""]);
    ElemsOne("");
    if |ns.Items| == 0 {
      return None;
    }
    return Some(Node(c, ns.Items, map[]));
  }

  /** The first runes of the non-empty strings of `X`. */
  ghost function Firsts(X: set<string>): set<char> {
    set x | x in X && |x| > 0 :: x[0]
  }

  /** What the strings of `X` that start with `c` leave after it, the empty rest excepted. */
  ghost function Rests(X: set<string>, c: char): set<string> {
    set x | x in X && |x| > 1 && x[0] == c :: x[1..]
  }

  /** The children after one string is placed, as the body of Populate's first loop places it. */
  ghost function Place(subs: map<char, Option<Node>>, str: string): map<char, Option<Node>> {
    if |str| == 0 then subs
    else
      var first, rest := str[0], str[1..];
      if first in subs then
        if |rest| == 0 then subs
        else if subs[first].None? then subs[first := Some(Node(first, {rest}, map[]))]
        else subs[first := Some(subs[first].value.(strs := subs[first].value.strs + {rest}))]
      else if |rest| == 0 then subs[first := None]
      else subs[first := Some(Node(first, {rest}, map[]))]
  }

  /**
   * The children after all of `X` is placed, in any order: every first rune
   * gets a child holding the rests after it, added to an existing child's
   * strings, or nil when no string goes on past that rune.
   */
  ghost function Level(subs: map<char, Option<Node>>, X: set<string>): map<char, Option<Node>> {
    map c | c in subs.Keys + Firsts(X) ::
      var R := Rests(X, c);
      if R == {} then (if c in subs then subs[c] else None)
      else if c in subs && subs[c].Some? then Some(subs[c].value.(strs := subs[c].value.strs + R))
      else Some(Node(c, R, map[]))
  }

  lemma FirstsAdd(X: set<string>, x: string)
    ensures Firsts(X + {x}) == if |x| > 0 then Firsts(X) + {x[0]} else Firsts(X)
  {
  }

  lemma RestsAdd(X: set<string>, x: string, d: char)
    ensures Rests(X + {x}, d) == if |x| > 1 && x[0] == d then Rests(X, d) + {x[1..]} else Rests(X, d)
  {
  }

  /** Level at a rune depends only on the rests after that rune and whether it occurs. */
  lemma LevelSame(subs: map<char, Option<Node>>, X: set<string>, Y: set<string>, d: char)
    requires Rests(X, d) == Rests(Y, d) && (d in Firsts(X) <==> d in Firsts(Y))
    ensures d in Level(subs, X) <==> d in Level(subs, Y)
    ensures d in Level(subs, X) ==> Level(subs, X)[d] == Level(subs, Y)[d]
  {
  }

  /** Placing one more string extends the set placed: the order of placing does not matter. */
  lemma PlaceLevel(subs: map<char, Option<Node>>, X: set<string>, x: string)
    ensures Place(Level(subs, X), x) == Level(subs, X + {x})
  {
    if |x| == 0 {
      PlaceLevelEmpty(subs, X, x);
    } else {
      PlaceLevelRune(subs, X, x);
    }
  }

  lemma PlaceLevelEmpty(subs: map<char, Option<Node>>, X: set<string>, x: string)
    requires |x| == 0
    ensures Place(Level(subs, X), x) == Level(subs, X + {x})
  {
    assert X + {x} == X + {""};
    var L, L' := Level(subs, X), Level(subs, X + {""});
    FirstsAdd(X, x);
    forall d ensures d in L <==> d in L'
      ensures d in L ==> L[d] == L'[d]
    {
      RestsAdd(X, x, d);
      LevelSame(subs, X, X + {x}, d);
    }
  }

  lemma PlaceLevelRune(subs: map<char, Option<Node>>, X: set<string>, x: string)
    requires |x| > 0
    ensures Place(Level(subs, X), x) == Level(subs, X + {x})
  {
    var c := x[0];
    var L, L' := Level(subs, X), Level(subs, X + {x});
    FirstsAdd(X, x);
    RestsAdd(X, x, c);
    PlaceAt(subs, X, x);
    PlaceElsewhere(L, x);
    LevelElsewhere(subs, X, x);
    MapsAgree(Place(L, x), L');
  }

  /** Adding a string to the set changes Level only at its first rune. */
  lemma LevelElsewhere(subs: map<char, Option<Node>>, X: set<string>, x: string)
    requires |x| > 0
    ensures Level(subs, X + {x}).Keys == Level(subs, X).Keys + {x[0]}
    ensures forall d :: d in Level(subs, X) && d != x[0] ==> Level(subs, X)[d] == Level(subs, X + {x})[d]
  {
    FirstsAdd(X, x);
    forall d | d != x[0] ensures d in Level(subs, X) <==> d in Level(subs, X + {x})
      ensures d in Level(subs, X) ==> Level(subs, X)[d] == Level(subs, X + {x})[d]
    {
      RestsAdd(X, x, d);
      LevelSame(subs, X, X + {x}, d);
    }
  }

  /** Placing a string touches only the child for its first rune. */
  lemma PlaceElsewhere(L: map<char, Option<Node>>, x: string)
    requires |x| > 0
    ensures Place(L, x).Keys == L.Keys + {x[0]}
    ensures forall d :: d in L && d != x[0] ==> Place(L, x)[d] == L[d]
  {
  }

  lemma MapsAgree(P: map<char, Option<Node>>, Q: map<char, Option<Node>>)
    requires P.Keys == Q.Keys && forall d :: d in P ==> P[d] == Q[d]
    ensures P == Q
  {
  }

  /** PlaceLevel at the first rune of the placed string. */
  lemma PlaceAt(subs: map<char, Option<Node>>, X: set<string>, x: string)
    requires |x| > 0
    requires Rests(X + {x}, x[0]) == if |x| > 1 then Rests(X, x[0]) + {x[1..]} else Rests(X, x[0])
    requires Firsts(X + {x}) == Firsts(X) + {x[0]}
    ensures Place(Level(subs, X), x)[x[0]] == Level(subs, X + {x})[x[0]]
  {
    var c, rest := x[0], x[1..];
    var L, L' := Level(subs, X), Level(subs, X + {x});
    var R, R' := Rests(X, c), Rests(X + {x}, c);
    var P := Place(L, x);
    assert c in L';
    if |x| == 1 {
      assert R' == R;
      if c in L {
        assert P[c] == L[c];
      } else {
        assert P[c] == None;
      }
    } else {
      assert R' == R + {rest};
      if c !in L || L[c].None? {
        assert P[c] == Some(Node(c, {rest}, map[]));
        assert !(c in subs && subs[c].Some?);
        assert L'[c] == Some(Node(c, R', map[]));
        assert R' == {rest};
      } else {
        var M := L[c].value;
        assert P[c] == Some(M.(strs := M.strs + {rest}));
        if R == {} {
          assert c in subs && subs[c] == L[c];
          assert R' == {rest};
        } else if c in subs && subs[c].Some? {
          assert M.strs + {rest} == subs[c].value.strs + R';
        } else {
          assert M == Node(c, R, map[]);
        }
      }
    }
  }

  lemma LevelEmpty(subs: map<char, Option<Node>>)
    ensures Level(subs, {}) == subs
  {
    assert Firsts({}) == {};
    forall c ensures Rests({}, c) == {} {
    }
  }

  /**
   * Every string at `n` has at most `b` runes, and every child is bounded by
   * one less; true of every node NewTrie and Populate make (b = the longest
   * string), it bounds the depth of Populate's recursion.
   */
  ghost predicate Bounded(n: Node, b: nat)
    decreases n
  {
    (forall x :: x in n.strs ==> |x| <= b) &&
    forall c :: c in n.subs && n.subs[c].Some? ==> b > 0 && Bounded(n.subs[c].value, b - 1)
  }

  /** A node with two or more strings has a non-empty one, so its bound is positive. */
  lemma TwoStrsBound(n: Node, b: nat)
    requires Bounded(n, b) && |n.strs| >= 2
    ensures b > 0
  {
    EmptyOnly(n.strs, b);
  }

  lemma EmptyOnly(X: set<string>, b: nat)
    requires forall x :: x in X ==> |x| <= b
    ensures b == 0 ==> |X| <= 1
  {
    if b == 0 && X != {} {
      var x :| x in X;
      assert X == {x};
    }
  }

  /** The children Level makes from bounded children and strings of at most `b` runes are bounded by b - 1. */
  lemma LevelBounded(n: Node, b: nat)
    requires Bounded(n, b) && b > 0
    ensures forall c :: c in Level(n.subs, n.strs) && Level(n.subs, n.strs)[c].Some? ==>
      Bounded(Level(n.subs, n.strs)[c].value, b - 1)
  {
    var L := Level(n.subs, n.strs);
    forall c | c in L && L[c].Some? ensures Bounded(L[c].value, b - 1) {
      var R := Rests(n.strs, c);
      assert forall y :: y in R ==> |y| <= b - 1;
      if R != {} && c in n.subs && n.subs[c].Some? {
        var N := n.subs[c].value;
        assert Bounded(N, b - 1);
        assert L[c].value == N.(strs := N.strs + R);
      }
    }
  }

  /**
   * The populated node: a node with fewer than two strings is left as it
   * is; otherwise its strings are placed into its children (Level) and
   * every non-nil child is populated in turn.
   */
  ghost function Populated(n: Node, b: nat): Node
    requires Bounded(n, b)
    decreases b, 1
  {
    if |n.strs| < 2 then n
    else
      TwoStrsBound(n, b);
      LevelBounded(n, b);
      n.(subs := PopulatedSubs(Level(n.subs, n.strs), b - 1))
  }

  /** Populate: the trie is filled in level by level; see Populated. */
  method Populate(n: Node, ghost b: nat) returns (r: Node)
    requires Bounded(n, b)
    ensures r == Populated(n, b)
    decreases b, 1
  {
    if |n.strs| < 2 {
      return n;
    }
    TwoStrsBound(n, b);
    var strs := SliceOf(n.strs);
    var subs := PlaceAll(n.subs, strs);
    LevelBounded(n, b);
    var out := PopulateChildren(subs, b - 1);
    r := n.(subs := out);
  }

  /** Populate's first loop: every string placed into the children, in the slice's order. */
  method PlaceAll(subs0: map<char, Option<Node>>, strs: seq<string>) returns (subs: map<char, Option<Node>>)
    ensures subs == Level(subs0, Elems(strs))
  {
    subs := subs0;
    LevelEmpty(subs0);
    for i := 0 to |strs|
      invariant subs == Level(subs0, Elems(strs[..i]))
    {
      ElemsPrefix(strs, i);
      PlaceLevel(subs0, Elems(strs[..i]), strs[i]);
      subs := PlaceOne(subs, strs[i]);
    }
    ElemsWhole(strs);
  }

  /** The body of Populate's first loop, for one string. */
  method PlaceOne(subs0: map<char, Option<Node>>, str: string) returns (subs: map<char, Option<Node>>)
    ensures subs == Place(subs0, str)
  {
    subs := subs0;
    if |str| == 0 {
      return;
    }
    var first, rest := str[0], str[1..];
    if first in subs {
      if |rest| == 0 {
        return;
      }
      if subs[first].None? {
        var t := NewTrie(first, [rest]);
        ElemsOne(rest);
        assert Elems([rest]) - {""} == {rest};
        subs := subs[first := t];
        return;
      }
      var child := subs[first].value;
      subs := subs[first := Some(child.(strs := child.strs + {rest}))];
    } else {
      if |rest| == 0 {
        subs := subs[first := None];
        return;
      }
      var t := NewTrie(first, [rest]);
      ElemsOne(rest);
      assert Elems([rest]) - {""} == {rest};
      subs := subs[first := t];
    }
  }

  /** Every non-nil child populated. */
  ghost function PopulatedSubs(subs: map<char, Option<Node>>, b: nat): map<char, Option<Node>>
    requires forall c :: c in subs && subs[c].Some? ==> Bounded(subs[c].value, b)
    decreases b + 1, 0
  {
    map c | c in subs :: if subs[c].None? then None else Some(Populated(subs[c].value, b))
  }

  /** Populate's second loop: every non-nil child populated. */
  method PopulateChildren(subs: map<char, Option<Node>>, ghost b: nat) returns (out: map<char, Option<Node>>)
    requires forall c :: c in subs && subs[c].Some? ==> Bounded(subs[c].value, b)
    ensures out == PopulatedSubs(subs, b)
    decreases b + 1, 0
  {
    ghost var want := PopulatedSubs(subs, b);
    var keys := SliceOf(subs.Keys);
    out := subs;
    ghost var done: set<char> := {};
    for j := 0 to |keys|
      invariant done == Elems(keys[..j]) && Partial(subs, want, out, done)
    {
      var c := keys[j];
      ElemsPrefix(keys, j);
      ghost var out0 := out;
      if subs[c].Some? {
        var child := Populate(subs[c].value, b);
        out := out[c := Some(child)];
      }
      PartialStep(subs, want, out0, done, c);
      done := done + {c};
    }
    ElemsWhole(keys);
    PartialDone(subs, want, out, done);
  }

  /** Partway through Populate's second loop: the children in `done` are populated, the others untouched. */
  ghost predicate Partial(subs: map<char, Option<Node>>, want: map<char, Option<Node>>, out: map<char, Option<Node>>, done: set<char>) {
    out.Keys == subs.Keys && want.Keys == subs.Keys &&
    (forall c :: c in subs && c !in done ==> out[c] == subs[c]) &&
    (forall c :: c in subs && c in done ==> out[c] == want[c])
  }

  lemma PartialStep(subs: map<char, Option<Node>>, want: map<char, Option<Node>>, out: map<char, Option<Node>>, done: set<char>, c: char)
    requires Partial(subs, want, out, done) && c in subs
    requires subs[c].None? ==> want[c] == None
    ensures Partial(subs, want, if subs[c].Some? then out[c := want[c]] else out, done + {c})
  {
  }

  lemma PartialDone(subs: map<char, Option<Node>>, want: map<char, Option<Node>>, out: map<char, Option<Node>>, done: set<char>)
    requires Partial(subs, want, out, done) && done == subs.Keys
    ensures out == want
  {
  }

  /** `p` is a prefix of `s`. */
  predicate IsPrefix(p: string, s: string) {
    |p| <= |s| && s[..|p|] == p
  }

  /** What the strings of `S` that go on past the prefix `w` leave after it. */
  ghost function Below(S: set<string>, w: string): set<string> {
    set u | u in S && |u| > |w| && u[..|w|] == w :: u[|w|..]
  }

  /** The rests after a rune of what is below `w` are what is below `w` and that rune. */
  lemma RestsBelow(S: set<string>, w: string, c: char)
    ensures Rests(Below(S, w), c) == Below(S, w + [c])
  {
    var w' := w + [c];
    forall y | y in Rests(Below(S, w), c) ensures y in Below(S, w') {
      var x :| x in Below(S, w) && |x| > 1 && x[0] == c && x[1..] == y;
      var u :| u in S && |u| > |w| && u[..|w|] == w && u[|w|..] == x;
      assert u[..|w'|] == w' && u[|w'|..] == y;
    }
    forall y | y in Below(S, w') ensures y in Rests(Below(S, w), c) {
      var u :| u in S && |u| > |w'| && u[..|w'|] == w' && u[|w'|..] == y;
      assert u[..|w|] == w;
      var x := u[|w|..];
      assert x in Below(S, w) && x[0] == c && x[1..] == y;
    }
  }

  /**
   * `t` is the populated node for the prefix `w` of the set `S`: it holds
   * what `S` leaves below `w`; a node with fewer than two strings has no
   * children; otherwise there is a child for every next rune, nil exactly
   * when no string goes on past that rune, each the populated node for
   * `w` and that rune.
   */
  ghost predicate Rep(t: Node, S: set<string>, w: string)
    decreases t
  {
    t.strs == Below(S, w) &&
    (|t.strs| < 2 ==> t.subs == map[]) &&
    (|t.strs| >= 2 ==> t.subs.Keys == Firsts(t.strs)) &&
    forall c :: c in t.subs ==>
      (t.subs[c].None? <==> Below(S, w + [c]) == {}) &&
      (t.subs[c].Some? ==> Rep(t.subs[c].value, S, w + [c]))
  }

  /** Populating a fresh node for `w` gives the populated node for `w`. */
  lemma {:induction false} PopulatedRep(n: Node, b: nat, S: set<string>, w: string)
    requires Bounded(n, b) && n.strs == Below(S, w) && n.subs == map[]
    ensures Rep(Populated(n, b), S, w)
    decreases b
  {
    if |n.strs| >= 2 {
      TwoStrsBound(n, b);
      LevelBounded(n, b);
      var L := Level(n.subs, n.strs);
      var t := Populated(n, b);
      assert t.subs == PopulatedSubs(L, b - 1);
      forall c | c in t.subs ensures
        (t.subs[c].None? <==> Below(S, w + [c]) == {}) &&
        (t.subs[c].Some? ==> Rep(t.subs[c].value, S, w + [c]))
      {
        RestsBelow(S, w, c);
        if L[c].Some? {
          assert L[c].value == Node(c, Below(S, w + [c]), map[]);
          PopulatedRep(L[c].value, b - 1, S, w + [c]);
        }
      }
    }
  }

  /** The one element of a singleton set. */
  ghost function The(X: set<string>): string
    requires |X| == 1
  {
    var x :| x in X; x
  }

  lemma SingletonIs(X: set<string>, x: string)
    requires |X| == 1 && x in X
    ensures X == {x}
  {
    assert |X - {x}| == 0;
    assert X - {x} == {};
  }

  /**
   * Descend from `tn` along the rest `s` of the query: the prefix read
   * (one rune per step, the rune read before the node is looked at), the
   * remnant of the only string at the node it stopped at, and whether it
   * dereferenced a nil child.
   */
  ghost function Walk(tn: Option<Node>, s: string): (string, string, bool)
    decreases |s|
  {
    if |s| == 0 then ("", "", false)
    else if tn.None? then ([s[0]], "", true)
    else if |tn.value.strs| == 1 then ([s[0]], Runes.FirstRune(The(tn.value.strs)).1, false)
    else if s[0] in tn.value.subs then
      var r := Walk(tn.value.subs[s[0]], s[1..]);
      ([s[0]] + r.0, r.1, r.2)
    else ([s[0]], "", false)
  }

  /** Descend: walk the trie along `s`; `panicked` is Go's nil dereference (see Walk). */
  method Descend(n: Node, s: string) returns (prefix: string, remnant: string, panicked: bool)
    ensures (prefix, remnant, panicked) == Walk(Some(n), s)
  {
    ghost var W := Walk(Some(n), s);
    var tn: Option<Node> := Some(n);
    prefix, remnant, panicked := "", "", false;
    var i := 0;
    assert s[0..] == s && "" + W.0 == W.0;
    while i < |s|
      invariant 0 <= i <= |s|
      invariant prefix == s[..i] && remnant == "" && !panicked
      invariant W.0 == prefix + Walk(tn, s[i..]).0 && W.1 == Walk(tn, s[i..]).1 && W.2 == Walk(tn, s[i..]).2
      decreases |s| - i
    {
      WalkStep(tn, s, i);
      PrefixSnoc(s, i);
      prefix := prefix + [s[i]];
      if tn.None? {
        panicked := true;
        return;
      }
      if |tn.value.strs| == 1 {
        var strs := SliceOf(tn.value.strs);
        SingletonIs(tn.value.strs, strs[0]);
        SingletonIs(tn.value.strs, The(tn.value.strs));
        remnant := Runes.FirstRune(strs[0]).1;
        return;
      }
      if s[i] in tn.value.subs {
        AppendAssoc(s[..i], [s[i]], Walk(tn.value.subs[s[i]], s[i + 1..]).0);
        tn := tn.value.subs[s[i]];
        i := i + 1;
        continue;
      }
      return;
    }
    assert s[i..] == [];
    assert prefix + "" == prefix;
  }

  /** One step of Walk at index `i` of the query. */
  lemma WalkStep(tn: Option<Node>, s: string, i: nat)
    requires i < |s|
    ensures Walk(tn, s[i..]) ==
      if tn.None? then ([s[i]], "", true)
      else if |tn.value.strs| == 1 then ([s[i]], Runes.FirstRune(The(tn.value.strs)).1, false)
      else if s[i] in tn.value.subs then
        ([s[i]] + Walk(tn.value.subs[s[i]], s[i + 1..]).0, Walk(tn.value.subs[s[i]], s[i + 1..]).1, Walk(tn.value.subs[s[i]], s[i + 1..]).2)
      else ([s[i]], "", false)
  {
    assert s[i..][0] == s[i] && s[i..][1..] == s[i + 1..];
  }

  lemma PrefixSnoc(s: string, i: nat)
    requires i < |s|
    ensures s[..i + 1] == s[..i] + [s[i]]
  {
  }

  lemma AppendAssoc(a: string, b: string, c: string)
    ensures a + (b + c) == (a + b) + c
  {
  }

  /**
   * What descending from the node for `w` along `s` should give: no panic,
   * at least one rune read; what has been read is `s` itself or a prefix no
   * other string of `S` has; every prefix passed on the way but the last is
   * extended by at least two strings of `S`.
   */
  ghost predicate WalkGood(S: set<string>, s: string, w: string, r: (string, string, bool)) {
    !r.2 && |r.0| >= 1 && IsPrefix(w + r.0, s) &&
    (w + r.0 == s || forall u :: u in S && IsPrefix(w + r.0, u) ==> u == s) &&
    (forall j :: |w| <= j < |w| + |r.0| - 1 ==> |Below(S, s[..j])| >= 2)
  }

  /**
   * Descending the populated trie of `S` from the node for a proper prefix
   * `w` of a string `s` of `S` behaves as WalkGood says.
   */
  lemma {:induction false} WalkFrom(t: Node, S: set<string>, s: string, w: string)
    requires Rep(t, S, w) && s in S && IsPrefix(w, s) && |w| < |s|
    ensures WalkGood(S, s, w, Walk(Some(t), s[|w|..]))
    decreases |s| - |w|, 1
  {
    if |t.strs| == 1 {
      WalkAtSingle(t, S, s, w);
    } else {
      WalkAtBranch(t, S, s, w);
    }
  }

  /** WalkFrom at a node with a single string: it is what `s` leaves, so one more rune makes the prefix unique. */
  lemma WalkAtSingle(t: Node, S: set<string>, s: string, w: string)
    requires Rep(t, S, w) && s in S && IsPrefix(w, s) && |w| < |s| && |t.strs| == 1
    ensures WalkGood(S, s, w, Walk(Some(t), s[|w|..]))
  {
    var rest := s[|w|..];
    var c := s[|w|];
    assert rest[0] == c;
    assert s[..|w|] == w;
    assert rest in t.strs;
    SingletonIs(t.strs, rest);
    assert Walk(Some(t), rest).0 == [c];
    forall u | u in S && IsPrefix(w + [c], u) ensures u == s {
      assert u[..|w|] == w;
      assert u[|w|..] in t.strs;
      assert u == u[..|w|] + u[|w|..];
      assert s == s[..|w|] + s[|w|..];
    }
    assert s[..|w| + 1] == w + [c];
  }

  /** WalkFrom at a node with two or more strings: the walk goes on into the child for the next rune. */
  lemma {:induction false} WalkAtBranch(t: Node, S: set<string>, s: string, w: string)
    requires Rep(t, S, w) && s in S && IsPrefix(w, s) && |w| < |s| && |t.strs| != 1
    ensures WalkGood(S, s, w, Walk(Some(t), s[|w|..]))
    decreases |s| - |w|, 0
  {
    var rest := s[|w|..];
    var c := s[|w|];
    assert rest[0] == c;
    assert s[..|w|] == w;
    assert rest in t.strs;
    assert c in Firsts(t.strs);
    var sub := t.subs[c];
    var w' := w + [c];
    assert s[..|w'|] == w';
    assert rest[1..] == s[|w'|..];
    var r' := Walk(sub, rest[1..]);
    assert Walk(Some(t), rest) == ([c] + r'.0, r'.1, r'.2);
    if |s| == |w'| {
      assert r' == ("", "", false);
    } else {
      assert s[|w'|..] in Below(S, w');
      WalkFrom(sub.value, S, s, w');
    }
    WalkGoodCons(S, s, w, c, r');
  }

  /** One rune read at a node with two or more strings, then the walk from the child: still WalkGood. */
  lemma WalkGoodCons(S: set<string>, s: string, w: string, c: char, r': (string, string, bool))
    requires IsPrefix(w + [c], s) && |Below(S, w)| >= 2
    requires (|s| == |w| + 1 && r' == ("", "", false)) || (|s| > |w| + 1 && WalkGood(S, s, w + [c], r'))
    ensures WalkGood(S, s, w, ([c] + r'.0, r'.1, r'.2))
  {
    var w' := w + [c];
    assert w + ([c] + r'.0) == w' + r'.0;
    assert s[..|w|] == w;
    if |s| == |w| + 1 {
      assert s == w';
    }
  }

  /** No string of `S` other than `s` has the prefix `q`. */
  ghost predicate UniqueIn(S: set<string>, s: string, q: string) {
    forall u :: u in S && IsPrefix(q, u) ==> u == s
  }

  /**
   * `p` abbreviates `s` among `S`: it is a non-empty prefix of `s` that is
   * `s` itself or no other string's prefix, and no prefix of `s` with
   * between 1 and |p| - 2 runes is unique.
   */
  ghost predicate Abbreviates(S: set<string>, s: string, p: string) {
    |p| >= 1 && IsPrefix(p, s) && (p == s || UniqueIn(S, s, p)) &&
    forall j :: 0 < j < |p| - 1 ==> !UniqueIn(S, s, s[..j])
  }

  /** When two strings of `S` go on past a prefix `w` of `s`, some other string has that prefix. */
  lemma BelowTwo(S: set<string>, s: string, w: string)
    requires s in S && IsPrefix(w, s) && |Below(S, w)| >= 2
    ensures !UniqueIn(S, s, w)
  {
    var B := Below(S, w);
    var own := s[|w|..];
    assert |B - {own}| >= 1;
    var x :| x in B - {own};
    var u :| u in S && |u| > |w| && u[..|w|] == w && u[|w|..] == x;
    assert IsPrefix(w, u) && u != s;
  }

  lemma GoodAbbreviates(S: set<string>, s: string, r: (string, string, bool))
    requires s in S && WalkGood(S, s, "", r)
    ensures Abbreviates(S, s, r.0)
  {
    assert "" + r.0 == r.0;
    forall j | 0 < j < |r.0| - 1 ensures !UniqueIn(S, s, s[..j]) {
      BelowTwo(S, s, s[..j]);
    }
  }

  /** The length of the longest string of `X`. */
  ghost function MaxLen(X: set<string>): nat
    decreases X
  {
    if X == {} then 0
    else
      var x :| x in X;
      var m := MaxLen(X - {x});
      if |x| > m then |x| else m
  }

  lemma {:induction false} MaxLenBound(X: set<string>)
    ensures forall y :: y in X ==> |y| <= MaxLen(X)
    decreases X
  {
    if X != {} {
      var x :| x in X && MaxLen(X) == (if |x| > MaxLen(X - {x}) then |x| else MaxLen(X - {x}));
      MaxLenBound(X - {x});
    }
  }

  /** The populated trie of a set of non-empty strings, as ShortestUniquePrefixMap builds it. */
  ghost function PopulatedRoot(S: set<string>): Node {
    MaxLenBound(S);
    Populated(Node(0 as char, S, map[]), MaxLen(S))
  }

  lemma BelowSub(S: set<string>, w: string)
    ensures w == "" ==> Below(S, w) == S - {""}
  {
    if w == "" {
      forall u | u in S - {""} ensures u in Below(S, "") {
        assert u[0..] == u;
      }
    }
  }

  lemma BelowEmpty(S: set<string>)
    requires "" !in S
    ensures Below(S, "") == S
  {
    forall u | u in S ensures u in Below(S, "") {
      assert u[0..] == u;
    }
  }

  /** Populating from a fresh root over `S` gives the populated node for the empty prefix. */
  lemma RootRep(S: set<string>)
    requires "" !in S
    ensures Rep(PopulatedRoot(S), S, "")
  {
    MaxLenBound(S);
    BelowEmpty(S);
    PopulatedRep(Node(0 as char, S, map[]), MaxLen(S), S, "");
  }

  /**
   * ShortestUniquePrefixMap: every distinct non-empty input string mapped
   * to the prefix Descend finds for it, which abbreviates it; the Go code
   * dereferences a nil trie (`panicked`) when no input string is non-empty.
   */
  method ShortestUniquePrefixMap(ss: seq<string>) returns (supm: map<string, string>, panicked: bool)
    ensures panicked <==> Elems(ss) <= {""}
    ensures !panicked ==> supm.Keys == Elems(ss) - {""}
    ensures !panicked ==> forall s :: s in supm ==> Abbreviates(Elems(ss) - {""}, s, supm[s])
    ensures !panicked ==> forall s :: s in supm ==> supm[s] == Walk(Some(PopulatedRoot(Elems(ss) - {""})), s).0
  {
    var trie := NewTrie(0 as char, ss);
    if trie.None? {
      return map[], true;
    }
    panicked := false;
    ghost var S := Elems(ss) - {""};
    MaxLenBound(S);
    var root := Populate(trie.value, MaxLen(S));
    assert root == PopulatedRoot(S);
    RootRep(S);
    forall s | s in S ensures !Walk(Some(root), s).2 && Abbreviates(S, s, Walk(Some(root), s).0) {
      DescendOne(root, S, s);
    }
    BelowSub(S, "");
    supm := DescendAll(root, S);
  }

  /** Descending the root along one of its strings does not panic and finds an abbreviation. */
  lemma DescendOne(root: Node, S: set<string>, s: string)
    requires Rep(root, S, "") && s in S && s != ""
    ensures !Walk(Some(root), s).2 && Abbreviates(S, s, Walk(Some(root), s).0)
  {
    assert s[0..] == s;
    WalkFrom(root, S, s, "");
    GoodAbbreviates(S, s, Walk(Some(root), s));
  }

  /** The loop of ShortestUniquePrefixMap: each string of the root descended in turn. */
  method DescendAll(root: Node, ghost S: set<string>) returns (supm: map<string, string>)
    requires root.strs == S
    requires forall s :: s in S ==> !Walk(Some(root), s).2 && Abbreviates(S, s, Walk(Some(root), s).0)
    ensures supm.Keys == S
    ensures forall s :: s in supm ==> Abbreviates(S, s, supm[s]) && supm[s] == Walk(Some(root), s).0
  {
    var strs := SliceOf(root.strs);
    supm := map[];
    for i := 0 to |strs|
      invariant supm.Keys == Elems(strs[..i])
      invariant forall k :: k in supm ==> supm[k] == Walk(Some(root), k).0 && Abbreviates(S, k, supm[k])
    {
      var s := strs[i];
      assert strs[..i + 1] == strs[..i] + [s];
      ElemsSnoc(strs[..i], s);
      var pfx, _, p := Descend(root, s);
      assert s !in supm;
      supm := supm[s := pfx];
    }
    assert strs[..|strs|] == strs;
  }

  /** The shortest prefix of `s`, of at least `k` runes, that no other string of `S` has; `s` itself when there is none. */
  ghost function ShortestFrom(S: set<string>, s: string, k: nat): string
    requires 1 <= k <= |s|
    decreases |s| - k
  {
    if k == |s| || UniqueIn(S, s, s[..k]) then s[..k] else ShortestFrom(S, s, k + 1)
  }

  /** The shortest unique prefix of a non-empty string `s` among `S`, as the package's name promises it. */
  ghost function ShortestUniquePrefix(S: set<string>, s: string): string
    requires |s| >= 1
  {
    ShortestFrom(S, s, 1)
  }

  lemma {:induction false} ShortestFromIsShortest(S: set<string>, s: string, k: nat)
    requires 1 <= k <= |s|
    requires forall j :: 1 <= j < k ==> !UniqueIn(S, s, s[..j])
    ensures var q := ShortestFrom(S, s, k);
      |q| >= k && IsPrefix(q, s) && (q == s || UniqueIn(S, s, q)) &&
      forall j :: 1 <= j < |q| ==> !UniqueIn(S, s, s[..j])
    decreases |s| - k
  {
    if k == |s| {
      assert s[..k] == s;
    } else if !UniqueIn(S, s, s[..k]) {
      ShortestFromIsShortest(S, s, k + 1);
    }
  }

  /**
   * ShortestUniquePrefix is a non-empty prefix of `s` that is `s` itself or
   * no other string's prefix, and every shorter non-empty prefix is shared.
   */
  lemma ShortestUniquePrefixIsShortest(S: set<string>, s: string)
    requires |s| >= 1
    ensures var q := ShortestUniquePrefix(S, s);
      |q| >= 1 && IsPrefix(q, s) && (q == s || UniqueIn(S, s, q)) &&
      forall j :: 1 <= j < |q| ==> !UniqueIn(S, s, s[..j])
  {
    ShortestFromIsShortest(S, s, 1);
  }

  /** What ShortestUniquePrefixMap finds is the shortest unique prefix or one rune longer. */
  lemma {:induction false} AbbreviatesBounds(S: set<string>, s: string, p: string)
    requires Abbreviates(S, s, p)
    ensures |p| - 1 <= |ShortestUniquePrefix(S, s)| <= |p|
  {
    ShortestUniquePrefixIsShortest(S, s);
  }

  /** Below the prefix "f" of {"foo", "bar"}, only "oo" is left. */
  lemma FooBarBelowF()
    ensures Below({"foo", "bar"}, "f") == {"oo"}
  {
    var S := {"foo", "bar"};
    assert "foo"[..1] == "f" && "foo"[1..] == "oo";
    assert "bar"[..1] != "f" by {
      assert "bar"[..1][0] == 'b';
    }
    assert "oo" in Below(S, "f");
    forall y | y in Below(S, "f") ensures y == "oo" {
      var u :| u in S && |u| > 1 && u[..1] == "f" && u[1..] == y;
    }
  }

  /** In the populated trie of {"foo", "bar"}, descending along "foo" reads "fo". */
  lemma FooBarWalk(root: Node)
    requires Rep(root, {"foo", "bar"}, "")
    ensures Walk(Some(root), "foo").0 == "fo"
  {
    var child := FooBarChild(root);
    WalkStep(Some(root), "foo", 0);
    assert "foo"[0..] == "foo" && "foo"[1..] == "oo";
    WalkStep(Some(child), "oo", 0);
    assert "oo"[0..] == "oo";
  }

  /** The root of that trie has a child for 'f' that holds only "oo". */
  lemma FooBarChild(root: Node) returns (child: Node)
    requires Rep(root, {"foo", "bar"}, "")
    ensures |root.strs| == 2 && 'f' in root.subs && root.subs['f'] == Some(child)
    ensures child.strs == {"oo"}
  {
    var S := {"foo", "bar"};
    BelowEmpty(S);
    assert |S| == 2;
    assert "foo"[0] == 'f' && 'f' in Firsts(S);
    FooBarBelowF();
    child := root.subs['f'].value;
  }

  /** "f" is the shortest unique prefix of "foo" among {"foo", "bar"}. */
  lemma FooBarShortest()
    ensures UniqueIn({"foo", "bar"}, "foo", "f")
    ensures ShortestUniquePrefix({"foo", "bar"}, "foo") == "f"
  {
    var S := {"foo", "bar"};
    forall u | u in S && IsPrefix("f", u) ensures u == "foo" {
      assert "bar"[..1][0] == 'b';
    }
    assert "foo"[..1] == "f";
  }

  /**
   * For the strings "foo" and "bar", ShortestUniquePrefixMap maps "foo" to
   * "fo", though "f" is already unique: the root is descended to the child
   * for 'f' before the child's single string is noticed.
   */
  lemma FooBarAsWritten(S: set<string>)
    requires S == {"foo", "bar"}
    ensures Walk(Some(PopulatedRoot(S)), "foo").0 == "fo"
    ensures ShortestUniquePrefix(S, "foo") == "f"
  {
    RootRep(S);
    FooBarWalk(PopulatedRoot(S));
    FooBarShortest();
  }

  /** ShortestUniquePrefixMap(["foo", "bar"]) maps "foo" to "fo". */
  method FooBarMap() returns (supm: map<string, string>)
    ensures supm.Keys == {"foo", "bar"} && supm["foo"] == "fo"
  {
    var ss := ["foo", "bar"];
    assert Elems(ss) == {"foo", "bar"} by {
      assert ss[0] == "foo" && ss[1] == "bar";
    }
    var panicked;
    supm, panicked := ShortestUniquePrefixMap(ss);
    FooBarAsWritten(Elems(ss) - {""});
  }
  /**
   * The descent ShortestUniquePrefixMap intends, from the node `t` along
   * the rest `s` of the query: after reading a rune, stop when the prefix
   * read is unique, that is when no string ends at that rune and the child
   * for it holds a single string; go on into the child otherwise.
   */
  ghost function UniqueWalk(t: Node, s: string): string
    decreases |s|
  {
    if |s| <= 1 then s
    else if GoesOn(t, s[0]) then [s[0]] + UniqueWalk(t.subs[s[0]].value, s[1..])
    else [s[0]]
  }

  /** After the rune `c` at `t`, the prefix read is still shared: some string ends at `c`, or the child holds two or more. */
  predicate GoesOn(t: Node, c: char) {
    c in t.subs && t.subs[c].Some? && ([c] in t.strs || |t.subs[c].value.strs| != 1)
  }

  /** Descend as intended: the loop of Descend with the uniqueness test made on the child, after the rune is read. */
  method DescendShortest(n: Node, s: string) returns (prefix: string)
    ensures prefix == UniqueWalk(n, s)
  {
    if |s| == 0 {
      return "";
    }
    var t := n;
    var i := 0;
    assert s[0..] == s && s[..0] == "";
    while i + 1 < |s| && GoesOn(t, s[i])
      invariant i < |s|
      invariant UniqueWalk(n, s) == s[..i] + UniqueWalk(t, s[i..])
      decreases |s| - i
    {
      assert s[i..][0] == s[i] && s[i..][1..] == s[i + 1..];
      PrefixSnoc(s, i);
      AppendAssoc(s[..i], [s[i]], UniqueWalk(t.subs[s[i]].value, s[i + 1..]));
      t := t.subs[s[i]].value;
      i := i + 1;
    }
    assert s[i..][0] == s[i];
    if i + 1 == |s| {
      assert s[i..] == [s[i]];
    }
    PrefixSnoc(s, i);
    prefix := s[..i + 1];
  }

  /** A longer prefix of `s` than `q` is unique exactly when no string ends at `q` and only `s` goes on past it. */
  lemma UniqueIff(S: set<string>, s: string, q: string)
    requires s in S && IsPrefix(q, s) && |q| < |s|
    ensures UniqueIn(S, s, q) <==> q !in S && |Below(S, q)| == 1
  {
    var x := s[|q|..];
    assert s[..|q|] == q;
    assert x in Below(S, q);
    if q in S {
      assert IsPrefix(q, q) && q != s;
    } else if |Below(S, q)| != 1 {
      BelowTwo(S, s, q);
    } else {
      SingletonIs(Below(S, q), x);
      forall u | u in S && IsPrefix(q, u) ensures u == s {
        assert u != q;
        assert u[|q|..] in Below(S, q);
        Rejoin(u, s, |q|);
      }
    }
  }

  lemma Rejoin(u: string, s: string, n: nat)
    requires n <= |u| && n <= |s| && u[..n] == s[..n] && u[n..] == s[n..]
    ensures u == s
  {
    assert u == u[..n] + u[n..] && s == s[..n] + s[n..];
  }

  /** The one-rune rest `[c]` is below `w` exactly when `w` and `c` is a string of `S`. */
  lemma EndsBelow(S: set<string>, w: string, c: char)
    ensures [c] in Below(S, w) <==> w + [c] in S
  {
    var w' := w + [c];
    if w' in S {
      assert w'[..|w|] == w && w'[|w|..] == [c];
    }
    if [c] in Below(S, w) {
      var u :| u in S && |u| > |w| && u[..|w|] == w && u[|w|..] == [c];
      assert u == u[..|w|] + u[|w|..];
    }
  }

  /**
   * At the node for a prefix `w` of `s`, with at least two runes of `s`
   * left: `w` and the next rune is unique exactly when GoesOn is false,
   * and when it is true the child is the node for that longer prefix.
   */
  lemma UniqueStep(t: Node, S: set<string>, s: string, w: string)
    requires Rep(t, S, w) && s in S && IsPrefix(w, s) && |w| + 1 < |s|
    ensures UniqueIn(S, s, s[..|w| + 1]) <==> !GoesOn(t, s[|w|])
    ensures GoesOn(t, s[|w|]) ==> Rep(t.subs[s[|w|]].value, S, w + [s[|w|]])
  {
    var c := s[|w|];
    var w' := w + [c];
    var x := s[|w|..];
    assert s[..|w|] == w && s[..|w'|] == w';
    assert x in Below(S, w) && x[0] == c;
    UniqueIff(S, s, w');
    EndsBelow(S, w, c);
    RestsBelow(S, w, c);
    if |t.strs| == 1 {
      OneBelow(t.strs, x, c);
    } else {
      assert c in Firsts(t.strs);
    }
  }

  /** A lone string of two or more runes leaves after its first rune one string and does not end there. */
  lemma OneBelow(X: set<string>, x: string, c: char)
    requires |X| == 1 && x in X && |x| >= 2 && x[0] == c
    ensures Rests(X, c) == {x[1..]} && [c] !in X
  {
    SingletonIs(X, x);
  }

  /** From the node for a proper prefix `w` of `s`, UniqueWalk completes `w` to the shortest unique prefix longer than `w`. */
  lemma {:induction false} UniqueWalkFrom(t: Node, S: set<string>, s: string, w: string)
    requires Rep(t, S, w) && s in S && IsPrefix(w, s) && |w| < |s|
    ensures w + UniqueWalk(t, s[|w|..]) == ShortestFrom(S, s, |w| + 1)
    decreases |s| - |w|
  {
    if |s| == |w| + 1 {
      UniqueWalkLast(t, S, s, w);
    } else {
      var c := s[|w|];
      UniqueStep(t, S, s, w);
      UniqueWalkUnfold(t, s, |w|);
      if GoesOn(t, c) {
        var w' := w + [c];
        assert IsPrefix(w', s) by { PrefixSnoc(s, |w|); }
        UniqueWalkFrom(t.subs[c].value, S, s, w');
        AppendAssoc(w, [c], UniqueWalk(t.subs[c].value, s[|w'|..]));
      } else {
        PrefixSnoc(s, |w|);
      }
    }
  }

  /** UniqueWalkFrom when one rune of `s` is left after `w`. */
  lemma UniqueWalkLast(t: Node, S: set<string>, s: string, w: string)
    requires IsPrefix(w, s) && |s| == |w| + 1
    ensures w + UniqueWalk(t, s[|w|..]) == ShortestFrom(S, s, |w| + 1)
  {
    assert s == s[..|w|] + s[|w|..] && s[..|w| + 1] == s;
  }

  /** One step of UniqueWalk at index `i` of the query, with at least two runes left. */
  lemma UniqueWalkUnfold(t: Node, s: string, i: nat)
    requires i + 1 < |s|
    ensures UniqueWalk(t, s[i..]) ==
      if GoesOn(t, s[i]) then [s[i]] + UniqueWalk(t.subs[s[i]].value, s[i + 1..]) else [s[i]]
  {
    assert s[i..][0] == s[i] && s[i..][1..] == s[i + 1..];
  }

  /** The intended descent from the populated root finds the shortest unique prefix. */
  lemma UniqueWalkIsShortest(root: Node, S: set<string>, s: string)
    requires Rep(root, S, "") && s in S && s != ""
    ensures UniqueWalk(root, s) == ShortestUniquePrefix(S, s)
  {
    UniqueWalkFrom(root, S, s, "");
    assert s[|""|..] == s;
    assert "" + UniqueWalk(root, s) == UniqueWalk(root, s);
  }

  /**
   * ShortestUniquePrefixMap as its package comment intends it: every
   * distinct non-empty input string mapped to its shortest unique prefix.
   */
  method ShortestUniquePrefixMapIntended(ss: seq<string>) returns (supm: map<string, string>, panicked: bool)
    ensures panicked <==> Elems(ss) <= {""}
    ensures !panicked ==> supm.Keys == Elems(ss) - {""}
    ensures !panicked ==> forall s :: s in supm ==> supm[s] == ShortestUniquePrefix(Elems(ss) - {""}, s)
  {
    var trie := NewTrie(0 as char, ss);
    if trie.None? {
      return map[], true;
    }
    panicked := false;
    ghost var S := Elems(ss) - {""};
    MaxLenBound(S);
    var root := Populate(trie.value, MaxLen(S));
    assert root == PopulatedRoot(S);
    RootRep(S);
    supm := DescendAllShortest(root, S);
  }

  /** The loop of ShortestUniquePrefixMapIntended: each string of the root descended in turn. */
  method DescendAllShortest(root: Node, ghost S: set<string>) returns (supm: map<string, string>)
    requires Rep(root, S, "") && "" !in S
    ensures supm.Keys == S
    ensures forall s :: s in supm ==> supm[s] == ShortestUniquePrefix(S, s)
  {
    BelowEmpty(S);
    var strs := SliceOf(root.strs);
    supm := map[];
    for i := 0 to |strs|
      invariant supm.Keys == Elems(strs[..i])
      invariant forall k :: k in supm ==> k in S && supm[k] == ShortestUniquePrefix(S, k)
    {
      var s := strs[i];
      assert s in Elems(strs);
      ElemsPrefix(strs, i);
      var pfx := DescendShortest(root, s);
      UniqueWalkIsShortest(root, S, s);
      supm := supm[s := pfx];
    }
    ElemsWhole(strs);
  }

  /** With the intended descent, "foo" among {"foo", "bar"} maps to "f". */
  method FooBarMapIntended() returns (supm: map<string, string>)
    ensures supm.Keys == {"foo", "bar"} && supm["foo"] == "f"
  {
    var ss := ["foo", "bar"];
    assert Elems(ss) == {"foo", "bar"} by {
      assert ss[0] == "foo" && ss[1] == "bar";
    }
    var panicked;
    supm, panicked := ShortestUniquePrefixMapIntended(ss);
    FooBarShortest();
  }
}
