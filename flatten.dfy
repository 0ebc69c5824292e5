/** `PluginTranslator::flattenArray`: a nested translation tree becomes one
    catalog from dotted keys to strings. */
module Flatten {
  import opened PhpValues
  import opened Trees

  /** The key of an entry under `prefix`; a top-level key gets no leading dot. */
  function JoinKey(prefix: string, key: string): string
  {
    if prefix == "" then key else prefix + "." + key
  }

  /** `flattenArray` after its loop has visited the first `n` entries: a nested
      array merges its own flattening in (later keys overwrite), a scalar is
      stored under its key as PHP's `(string)` of it. */
  function FlattenFirst(es: seq<Entry>, prefix: string, n: nat): map<string, string>
    requires n <= |es|
    decreases Node(es), n
  {
    if n == 0 then map[]
    else
      var result := FlattenFirst(es, prefix, n - 1);
      var newKey := JoinKey(prefix, es[n - 1].key);
      match es[n - 1].child
      case Node(children) => result + FlattenFirst(children, newKey, |children|)
      case Leaf(v) => result[newKey := Text(v)]
  }

  /** `flattenArray($array, $prefix)`: the whole loop, which builds the map of
      the tree's leaves, a later leaf overwriting an earlier one. */
  function FlattenArray(es: seq<Entry>, prefix: string): (r: map<string, string>)
    ensures r == ToMap(Leaves(es, prefix))
  {
    FlattenIsLeafMap(es, prefix, |es|);
    FlattenFirst(es, prefix, |es|)
  }

  // ---------------------------------------------------------------------------
  // Reference definitions: the leaves of a tree and their dotted paths.

  /** The key `prefix` reaches after descending along `path`. */
  function Dotted(prefix: string, path: seq<string>): string
    decreases |path|
  {
    if path == [] then prefix else Dotted(JoinKey(prefix, path[0]), path[1..])
  }

  /** The tree `es` has the scalar `v` at the end of the key path `path`. */
  ghost predicate HasLeaf(es: seq<Entry>, path: seq<string>, v: Scalar)
    decreases |path|
  {
    && |path| > 0
    && exists i :: 0 <= i < |es| && es[i].key == path[0] &&
         if |path| == 1 then es[i].child == Leaf(v)
         else es[i].child.Node? && HasLeaf(es[i].child.entries, path[1..], v)
  }

  /** The leaves under the first `n` entries, in file order, each paired with
      its dotted key and its text. */
  function LeavesFirst(es: seq<Entry>, prefix: string, n: nat): seq<(string, string)>
    requires n <= |es|
    decreases Node(es), n
  {
    if n == 0 then [] else LeavesFirst(es, prefix, n - 1) + EntryLeaves(es[n - 1], prefix)
  }

  /** The leaves contributed by one entry. */
  function EntryLeaves(e: Entry, prefix: string): seq<(string, string)>
    decreases e, 0
  {
    var newKey := JoinKey(prefix, e.key);
    match e.child
    case Node(children) => LeavesFirst(children, newKey, |children|)
    case Leaf(v) => [(newKey, Text(v))]
  }

  function Leaves(es: seq<Entry>, prefix: string): seq<(string, string)>
  {
    LeavesFirst(es, prefix, |es|)
  }

  /** A map built from key/value pairs, a later pair overwriting an earlier one. */
  function ToMap(ps: seq<(string, string)>): map<string, string>
  {
    if ps == [] then map[] else ToMap(ps[..|ps| - 1])[ps[|ps| - 1].0 := ps[|ps| - 1].1]
  }

  predicate KeysDistinct(ps: seq<(string, string)>)
  {
    forall i, j :: 0 <= i < j < |ps| ==> ps[i].0 != ps[j].0
  }

  /** No two leaves of the tree reach the same dotted key. */
  predicate NoCollisions(es: seq<Entry>)
  {
    KeysDistinct(Leaves(es, ""))
  }

  // ---------------------------------------------------------------------------
  // Lemmas about the pair maps.

  lemma {:induction false} ToMapAppend(a: seq<(string, string)>, b: seq<(string, string)>)
    ensures ToMap(a + b) == ToMap(a) + ToMap(b)
    decreases |b|
  {
    if b == [] {
      assert a + b == a;
    } else {
      var b' := b[..|b| - 1];
      assert (a + b)[..|a + b| - 1] == a + b';
      ToMapAppend(a, b');
    }
  }

  lemma {:induction false} ToMapKeys(ps: seq<(string, string)>)
    ensures ToMap(ps).Keys == set i | 0 <= i < |ps| :: ps[i].0
  {
    if ps != [] {
      var front := ps[..|ps| - 1];
      ToMapKeys(front);
      assert forall i :: 0 <= i < |front| ==> front[i] == ps[i];
    }
  }

  lemma {:induction false} ToMapDistinct(ps: seq<(string, string)>)
    requires KeysDistinct(ps)
    ensures forall i :: 0 <= i < |ps| ==> ps[i].0 in ToMap(ps) && ToMap(ps)[ps[i].0] == ps[i].1
    ensures |ToMap(ps)| == |ps|
  {
    if ps != [] {
      var front := ps[..|ps| - 1];
      assert forall i :: 0 <= i < |front| ==> front[i] == ps[i];
      ToMapDistinct(front);
      ToMapKeys(front);
      assert ps[|ps| - 1].0 !in ToMap(front);
    }
  }

  // ---------------------------------------------------------------------------
  // The flattening is the map of the leaves.

  /** `flattenArray` builds exactly the map of the leaves' dotted keys to their
      texts, a later leaf winning on a collision. */
  lemma {:induction false} FlattenIsLeafMap(es: seq<Entry>, prefix: string, n: nat)
    requires n <= |es|
    ensures FlattenFirst(es, prefix, n) == ToMap(LeavesFirst(es, prefix, n))
    decreases Node(es), n
  {
    if n > 0 {
      var newKey := JoinKey(prefix, es[n - 1].key);
      var front := LeavesFirst(es, prefix, n - 1);
      FlattenIsLeafMap(es, prefix, n - 1);
      match es[n - 1].child
      case Node(children) =>
        FlattenIsLeafMap(children, newKey, |children|);
        ToMapAppend(front, LeavesFirst(children, newKey, |children|));
      case Leaf(v) =>
        var all := front + [(newKey, Text(v))];
        assert all[..|all| - 1] == front;
    }
  }

  lemma {:induction false} EntryLeavesInLeaves(es: seq<Entry>, prefix: string, n: nat, i: nat, x: (string, string))
    requires i < n <= |es|
    requires x in EntryLeaves(es[i], prefix)
    ensures x in LeavesFirst(es, prefix, n)
  {
    var front := LeavesFirst(es, prefix, n - 1);
    if i < n - 1 {
      EntryLeavesInLeaves(es, prefix, n - 1, i, x);
      assert x in front;
    } else {
      assert x in EntryLeaves(es[n - 1], prefix);
    }
  }

  lemma {:induction false} LeavesFromEntry(es: seq<Entry>, prefix: string, n: nat, x: (string, string))
    requires n <= |es|
    requires x in LeavesFirst(es, prefix, n)
    ensures exists i :: 0 <= i < n && x in EntryLeaves(es[i], prefix)
  {
    assert n > 0;
    var front := LeavesFirst(es, prefix, n - 1);
    if x !in EntryLeaves(es[n - 1], prefix) {
      assert x in front;
      LeavesFromEntry(es, prefix, n - 1, x);
    }
  }

  /** Every leaf is listed under the dotted key of its full path. */
  lemma {:induction false} LeafListed(es: seq<Entry>, prefix: string, path: seq<string>, v: Scalar)
    requires HasLeaf(es, path, v)
    ensures (Dotted(prefix, path), Text(v)) in Leaves(es, prefix)
    decreases |path|
  {
    var i :| 0 <= i < |es| && es[i].key == path[0] &&
         if |path| == 1 then es[i].child == Leaf(v)
         else es[i].child.Node? && HasLeaf(es[i].child.entries, path[1..], v);
    var newKey := JoinKey(prefix, path[0]);
    assert Dotted(prefix, path) == Dotted(newKey, path[1..]);
    if |path| > 1 {
      LeafListed(es[i].child.entries, newKey, path[1..], v);
    } else {
      assert path[1..] == [];
    }
    EntryLeavesInLeaves(es, prefix, |es|, i, (Dotted(prefix, path), Text(v)));
  }

  /** Nothing but leaves is listed: every listed key is the dotted path of a leaf
      carrying that text. */
  lemma {:induction false} ListedIsLeaf(es: seq<Entry>, prefix: string, k: string, t: string)
    requires (k, t) in Leaves(es, prefix)
    ensures exists path, v :: HasLeaf(es, path, v) && Dotted(prefix, path) == k && Text(v) == t
    decreases Node(es)
  {
    LeavesFromEntry(es, prefix, |es|, (k, t));
    var i :| 0 <= i < |es| && (k, t) in EntryLeaves(es[i], prefix);
    var key := es[i].key;
    var newKey := JoinKey(prefix, key);
    match es[i].child
    case Leaf(v) =>
      var path := [key];
      assert path[1..] == [];
      assert Dotted(prefix, path) == Dotted(newKey, []) == k;
      assert HasLeaf(es, path, v);
    case Node(children) =>
      assert Node(children) == es[i].child;
      ListedIsLeaf(children, newKey, k, t);
      var path', v :| HasLeaf(children, path', v) && Dotted(newKey, path') == k && Text(v) == t;
      var path := [key] + path';
      assert path[1..] == path';
      assert Dotted(prefix, path) == Dotted(newKey, path') == k;
      assert HasLeaf(es, path, v);
  }

  // ---------------------------------------------------------------------------
  // What the source promises of flattenArray.

  /** Every leaf appears in the catalog under its full dotted path, with its
      text, when no two leaves reach the same key. */
  lemma FlattenPreservesPaths(es: seq<Entry>, path: seq<string>, v: Scalar)
    requires HasLeaf(es, path, v)
    requires NoCollisions(es)
    ensures Dotted("", path) in FlattenArray(es, "")
    ensures FlattenArray(es, "")[Dotted("", path)] == Text(v)
  {
    LeafListed(es, "", path, v);
    FlattenIsLeafMap(es, "", |es|);
    ToMapDistinct(Leaves(es, ""));
  }

  /** A key is in the catalog exactly when it is the dotted path of some leaf:
      intermediate arrays never produce an entry of their own. */
  lemma FlattenKeysAreLeafPaths(es: seq<Entry>, prefix: string, k: string)
    ensures k in FlattenArray(es, prefix) <==>
            exists path, v :: HasLeaf(es, path, v) && Dotted(prefix, path) == k
  {
    var ls := Leaves(es, prefix);
    FlattenIsLeafMap(es, prefix, |es|);
    ToMapKeys(ls);
    if k in FlattenArray(es, prefix) {
      var i :| 0 <= i < |ls| && ls[i].0 == k;
      ListedIsLeaf(es, prefix, k, ls[i].1);
    }
    if exists path, v :: HasLeaf(es, path, v) && Dotted(prefix, path) == k {
      var path, v :| HasLeaf(es, path, v) && Dotted(prefix, path) == k;
      LeafListed(es, prefix, path, v);
      var i :| 0 <= i < |ls| && ls[i] == (k, Text(v));
    }
  }

  /** Without collisions the catalog has exactly one entry per leaf. */
  lemma FlattenSize(es: seq<Entry>)
    requires NoCollisions(es)
    ensures |FlattenArray(es, "")| == |Leaves(es, "")|
  {
    FlattenIsLeafMap(es, "", |es|);
    ToMapDistinct(Leaves(es, ""));
  }

  lemma {:induction false} FlattenFirstOfLonger(es: seq<Entry>, more: seq<Entry>, prefix: string, n: nat)
    requires n <= |es|
    ensures FlattenFirst(es + more, prefix, n) == FlattenFirst(es, prefix, n)
  {
    if n > 0 {
      assert (es + more)[n - 1] == es[n - 1];
      FlattenFirstOfLonger(es, more, prefix, n - 1);
    }
  }

  /** An entry holding an empty array adds nothing to the catalog. */
  lemma EmptyArrayAddsNothing(es: seq<Entry>, prefix: string, key: string)
    ensures FlattenArray(es + [Entry(key, Node([]))], prefix) == FlattenArray(es, prefix)
  {
    var longer := es + [Entry(key, Node([]))];
    assert longer[|es|] == Entry(key, Node([]));
    FlattenFirstOfLonger(es, [Entry(key, Node([]))], prefix, |es|);
    assert FlattenArray(longer, prefix) == FlattenFirst(longer, prefix, |es|) + FlattenFirst([], JoinKey(prefix, key), 0);
  }

  /** One step of the loop over a scalar entry at the top level. */
  lemma FlattenScalarStep(es: seq<Entry>, n: nat)
    requires 0 < n <= |es|
    requires es[n - 1].child.Leaf?
    ensures FlattenFirst(es, "", n) == FlattenFirst(es, "", n - 1)[es[n - 1].key := Text(es[n - 1].child.value)]
  {
    assert JoinKey("", es[n - 1].key) == es[n - 1].key;
  }

  /** Every key of a one-level array of scalars is the key of one of its entries. */
  lemma {:induction false} FlattenScalarKeys(es: seq<Entry>, n: nat)
    requires n <= |es|
    requires forall i :: 0 <= i < |es| ==> es[i].child.Leaf?
    ensures forall k :: k in FlattenFirst(es, "", n) ==> exists i :: 0 <= i < n && es[i].key == k
  {
    if n > 0 {
      FlattenScalarKeys(es, n - 1);
      FlattenScalarStep(es, n);
    }
  }

  /** Each entry of a one-level array of scalars with distinct keys is in the
      catalog with its value cast to a string. */
  lemma {:induction false} FlattenScalarValues(es: seq<Entry>, n: nat)
    requires n <= |es|
    requires forall i :: 0 <= i < |es| ==> es[i].child.Leaf?
    requires forall i, j :: 0 <= i < j < |es| ==> es[i].key != es[j].key
    ensures forall i :: 0 <= i < n ==>
              es[i].key in FlattenFirst(es, "", n) && FlattenFirst(es, "", n)[es[i].key] == Text(es[i].child.value)
  {
    if n > 0 {
      FlattenScalarValues(es, n - 1);
      FlattenScalarStep(es, n);
      var before := FlattenFirst(es, "", n - 1);
      var last := es[n - 1];
      forall i | 0 <= i < n - 1
        ensures before[last.key := Text(last.child.value)][es[i].key] == Text(es[i].child.value)
      {
        assert es[i].key != last.key;
      }
    }
  }

  /** A one-level array of scalars with distinct keys flattens to exactly its
      keys, each with its value cast to a string. */
  lemma FlattenScalars(es: seq<Entry>)
    requires forall i :: 0 <= i < |es| ==> es[i].child.Leaf?
    requires forall i, j :: 0 <= i < j < |es| ==> es[i].key != es[j].key
    ensures forall i :: 0 <= i < |es| ==>
              es[i].key in FlattenArray(es, "") && FlattenArray(es, "")[es[i].key] == Text(es[i].child.value)
    ensures forall k :: k in FlattenArray(es, "") ==> exists i :: 0 <= i < |es| && es[i].key == k
  {
    FlattenScalarKeys(es, |es|);
    FlattenScalarValues(es, |es|);
  }

  /** The two worked examples: `{greeting: "Hi"}` and `{a: {b: "x", c: "y"}}`. */
  lemma FlattenExamples()
    ensures FlattenArray([Entry("greeting", Leaf(Str("Hi")))], "") == map["greeting" := "Hi"]
    ensures FlattenArray([Entry("a", Node([Entry("b", Leaf(Str("x"))), Entry("c", Leaf(Str("y")))]))], "")
            == map["a.b" := "x", "a.c" := "y"]
  {
    var greeting := [Entry("greeting", Leaf(Str("Hi")))];
    assert FlattenFirst(greeting, "", 1) == FlattenFirst(greeting, "", 0)["greeting" := "Hi"];
    var inner := [Entry("b", Leaf(Str("x"))), Entry("c", Leaf(Str("y")))];
    var nested := [Entry("a", Node(inner))];
    assert JoinKey("a", "b") == "a.b";
    assert JoinKey("a", "c") == "a.c";
    assert FlattenFirst(inner, "a", 1) == map["a.b" := "x"];
    assert FlattenFirst(inner, "a", 2) == map["a.b" := "x", "a.c" := "y"];
    assert FlattenFirst(nested, "", 1) == map[] + FlattenFirst(inner, "a", 2);
  }

  /** On a collision the later leaf wins: `{"a.b": "x", a: {b: "y"}}` gives `{"a.b": "y"}`. */
  lemma CollisionLaterWins()
    ensures FlattenArray([Entry("a.b", Leaf(Str("x"))), Entry("a", Node([Entry("b", Leaf(Str("y")))]))], "")
            == map["a.b" := "y"]
  {
    var inner := [Entry("b", Leaf(Str("y")))];
    var es := [Entry("a.b", Leaf(Str("x"))), Entry("a", Node(inner))];
    assert JoinKey("a", "b") == "a.b";
    assert FlattenFirst(inner, "a", 1) == map["a.b" := "y"];
    assert FlattenFirst(es, "", 1) == map["a.b" := "x"];
    assert FlattenFirst(es, "", 2) == map["a.b" := "x"] + FlattenFirst(inner, "a", 1);
  }
}
