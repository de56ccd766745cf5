/** env/YamlPropertySource.go: a map source whose entries come from a YAML
    document, flattened into dotted and indexed keys.

    Parsing YAML is not modelled: the source receives the parsed tree, or
    the parser's error text. A mapping's entries are listed in the order Go
    happens to visit them; when two paths collide, the one visited last
    wins. */
module Yaml {
  import opened Wrappers
  import opened Strings
  import MapSources

  /** A parsed YAML node. A scalar carries the text `fmt.Sprint` prints for
      the decoded value: `2.5` for a float, `<nil>` for an empty value. */
  datatype Node =
    | Mapping(entries: seq<Pair>)
    | Sequence(items: seq<Node>)
    | Scalar(text: string)

  datatype Pair = Pair(key: string, value: Node)

  /** A scalar leaf and the key it is stored under. */
  datatype Leaf = Leaf(path: string, text: string)

  /** The key of mapping entry `key` under `prefix`. */
  function Child(prefix: string, key: string): (r: string)
    ensures prefix == "" ==> r == key
    ensures prefix != "" ==> r == prefix + "." + key
  {
    if prefix != "" then prefix + "." + key else key
  }

  /** `fmt.Sprintf("%s[%d]", prefix, i)`. */
  function Index(prefix: string, i: nat): string {
    prefix + "[" + NatText(i) + "]"
  }

  /** `flattenYaml(data, prefix, result)`: scalars are written at their own
      prefix; mappings and sequences write nothing themselves and recurse
      into their children, one after another. */
  function Flatten(node: Node, prefix: string, result: map<string, string>): map<string, string>
    decreases node, 1
  {
    match node
    case Scalar(text) => result[prefix := text]
    case Mapping(entries) => FlattenEntries(entries, prefix, result)
    case Sequence(items) => FlattenItems(items, prefix, 0, result)
  }

  function FlattenEntries(entries: seq<Pair>, prefix: string, result: map<string, string>): map<string, string>
    decreases entries, 0
  {
    if entries == [] then result
    else
      var after := Flatten(entries[0].value, Child(prefix, entries[0].key), result);
      FlattenEntries(entries[1..], prefix, after)
  }

  function FlattenItems(items: seq<Node>, prefix: string, first: nat, result: map<string, string>): map<string, string>
    decreases items, 0
  {
    if items == [] then result
    else
      var after := Flatten(items[0], Index(prefix, first), result);
      FlattenItems(items[1..], prefix, first + 1, after)
  }

  /** The reference reading: the scalar leaves of a tree in visiting order,
      each with the key it is stored under. */
  function Leaves(node: Node, prefix: string): seq<Leaf>
    decreases node, 1
  {
    match node
    case Scalar(text) => [Leaf(prefix, text)]
    case Mapping(entries) => EntryLeaves(entries, prefix)
    case Sequence(items) => ItemLeaves(items, prefix, 0)
  }

  function EntryLeaves(entries: seq<Pair>, prefix: string): seq<Leaf>
    decreases entries, 0
  {
    if entries == [] then []
    else Leaves(entries[0].value, Child(prefix, entries[0].key)) + EntryLeaves(entries[1..], prefix)
  }

  function ItemLeaves(items: seq<Node>, prefix: string, first: nat): seq<Leaf>
    decreases items, 0
  {
    if items == [] then []
    else Leaves(items[0], Index(prefix, first)) + ItemLeaves(items[1..], prefix, first + 1)
  }

  /** The keys leaves are stored under. */
  function Paths(leaves: seq<Leaf>): (keys: set<string>)
    ensures forall i :: 0 <= i < |leaves| ==> leaves[i].path in keys
    ensures forall k :: k in keys ==> exists i :: 0 <= i < |leaves| && leaves[i].path == k
  {
    if leaves == [] then {}
    else
      var rest := Paths(leaves[1..]);
      assert forall i :: 1 <= i < |leaves| ==> leaves[i] == leaves[1..][i - 1];
      assert forall k :: k in rest ==> exists i :: 0 <= i < |leaves| && leaves[i].path == k by {
        forall k | k in rest
          ensures exists i :: 0 <= i < |leaves| && leaves[i].path == k
        {
          var j :| 0 <= j < |leaves[1..]| && leaves[1..][j].path == k;
          assert leaves[j + 1].path == k;
        }
      }
      {leaves[0].path} + rest
  }

  /** Writing leaves into a map one after another: a later leaf overwrites
      an earlier one with the same key. */
  function Apply(result: map<string, string>, leaves: seq<Leaf>): (r: map<string, string>)
    ensures r.Keys == result.Keys + Paths(leaves)
    decreases |leaves|
  {
    if leaves == [] then result
    else Apply(result[leaves[0].path := leaves[0].text], leaves[1..])
  }

  lemma {:induction false} ApplyAppend(result: map<string, string>, a: seq<Leaf>, b: seq<Leaf>)
    ensures Apply(result, a + b) == Apply(Apply(result, a), b)
    decreases |a|
  {
    if a != [] {
      assert (a + b)[1..] == a[1..] + b;
      ApplyAppend(result[a[0].path := a[0].text], a[1..], b);
    } else {
      assert a + b == b;
    }
  }

  /** Leaves on other paths leave an entry as it was. */
  lemma {:induction false} ApplyUntouched(result: map<string, string>, leaves: seq<Leaf>, path: string)
    requires path in result
    requires forall j :: 0 <= j < |leaves| ==> leaves[j].path != path
    ensures Apply(result, leaves)[path] == result[path]
    decreases |leaves|
  {
    if leaves != [] {
      assert forall j :: 0 <= j < |leaves[1..]| ==> leaves[1..][j] == leaves[j + 1];
      ApplyUntouched(result[leaves[0].path := leaves[0].text], leaves[1..], path);
    }
  }

  /** The value of a key is that of the last leaf stored under it. */
  lemma {:induction false} ApplyLast(result: map<string, string>, leaves: seq<Leaf>, i: nat)
    requires i < |leaves|
    requires forall j :: i < j < |leaves| ==> leaves[j].path != leaves[i].path
    ensures Apply(result, leaves)[leaves[i].path] == leaves[i].text
    decreases |leaves|
  {
    var next := result[leaves[0].path := leaves[0].text];
    var rest := leaves[1..];
    assert forall j :: 0 <= j < |rest| ==> rest[j] == leaves[j + 1];
    if i == 0 {
      ApplyUntouched(next, rest, leaves[0].path);
    } else {
      assert rest[i - 1] == leaves[i];
      ApplyLast(next, rest, i - 1);
    }
  }

  /** Flattening writes exactly the leaves, in order. */
  lemma {:induction false} FlattenIsApply(node: Node, prefix: string, result: map<string, string>)
    ensures Flatten(node, prefix, result) == Apply(result, Leaves(node, prefix))
    decreases node, 1
  {
    match node
    case Scalar(text) =>
    case Mapping(entries) => FlattenEntriesIsApply(entries, prefix, result);
    case Sequence(items) => FlattenItemsIsApply(items, prefix, 0, result);
  }

  lemma {:induction false} FlattenEntriesIsApply(entries: seq<Pair>, prefix: string, result: map<string, string>)
    ensures FlattenEntries(entries, prefix, result) == Apply(result, EntryLeaves(entries, prefix))
    decreases entries, 0
  {
    if entries != [] {
      var head := Leaves(entries[0].value, Child(prefix, entries[0].key));
      FlattenIsApply(entries[0].value, Child(prefix, entries[0].key), result);
      FlattenEntriesIsApply(entries[1..], prefix, Apply(result, head));
      ApplyAppend(result, head, EntryLeaves(entries[1..], prefix));
    }
  }

  lemma {:induction false} FlattenItemsIsApply(items: seq<Node>, prefix: string, first: nat, result: map<string, string>)
    ensures FlattenItems(items, prefix, first, result) == Apply(result, ItemLeaves(items, prefix, first))
    decreases items, 0
  {
    if items != [] {
      var head := Leaves(items[0], Index(prefix, first));
      FlattenIsApply(items[0], Index(prefix, first), result);
      FlattenItemsIsApply(items[1..], prefix, first + 1, Apply(result, head));
      ApplyAppend(result, head, ItemLeaves(items[1..], prefix, first + 1));
    }
  }

  /** `propertiesFromYaml`: the flattening of the whole tree from the empty
      prefix into an empty map. Its keys are exactly the leaf paths, and a
      key holds the text of the last leaf stored under it. */
  function PropertiesOf(tree: Node): (m: map<string, string>)
    ensures m.Keys == Paths(Leaves(tree, ""))
    ensures forall i :: 0 <= i < |Leaves(tree, "")| && LastWith(Leaves(tree, ""), i) ==>
              m[Leaves(tree, "")[i].path] == Leaves(tree, "")[i].text
  {
    var leaves := Leaves(tree, "");
    FlattenIsApply(tree, "", map[]);
    forall i | 0 <= i < |leaves| && LastWith(leaves, i)
      ensures Apply(map[], leaves)[leaves[i].path] == leaves[i].text
    {
      ApplyLast(map[], leaves, i);
    }
    Flatten(tree, "", map[])
  }

  /** No later leaf has the same key as leaf `i`. */
  predicate LastWith(leaves: seq<Leaf>, i: nat)
    requires i < |leaves|
  {
    forall j :: i < j < |leaves| ==> leaves[j].path != leaves[i].path
  }

  /** What the YAML parser produced: a tree, or its error text. */
  datatype Parsed = Parsed(tree: Node) | Unparsable(reason: string)

  /** `NewYamlPropertySource(name, yaml)`: a map source over the flattened
      tree; a parse error is the panic "Error unmarshaling yaml: <reason>". */
  function NewYamlPropertySource(name: string, parsed: Parsed): (r: Result<MapSources.MapPropertySource>)
    ensures parsed.Unparsable? ==> r == Failure(Panic("Error unmarshaling yaml: " + parsed.reason + "\n"))
    ensures parsed.Parsed? ==> (r.Success? && MapSources.Name(r.value) == name
                                && MapSources.Properties(r.value) == PropertiesOf(parsed.tree))
  {
    match parsed
    case Unparsable(reason) => Failure(Panic("Error unmarshaling yaml: " + reason + "\n"))
    case Parsed(tree) =>
      Success(MapSources.SetProperties(MapSources.MapPropertySourceOf(name), PropertiesOf(tree)))
  }

  /** The array of the YAML source test, under `c.array`: two mappings, the
      second holding a nested sequence. */
  function TestArray(): Node {
    Sequence([
      Mapping([Pair("name", Scalar("element1")), Pair("value", Scalar("${prop5}"))]),
      Mapping([Pair("name", Scalar("element2")),
               Pair("sub-array", Sequence([Mapping([Pair("sub1", Scalar("#{${a.key2} + ${ab.key1}}"))])]))])
    ])
  }

  /** A mapping of two scalars gives two leaves, in entry order. */
  lemma TwoScalars(prefix: string, k1: string, v1: string, k2: string, v2: string)
    ensures Leaves(Mapping([Pair(k1, Scalar(v1)), Pair(k2, Scalar(v2))]), prefix)
            == [Leaf(Child(prefix, k1), v1), Leaf(Child(prefix, k2), v2)]
  {
    var es := [Pair(k1, Scalar(v1)), Pair(k2, Scalar(v2))];
    assert es[1..] == [Pair(k2, Scalar(v2))];
    assert EntryLeaves(es[1..][1..], prefix) == [];
    assert EntryLeaves(es[1..], prefix) == [Leaf(Child(prefix, k2), v2)] + [];
    assert EntryLeaves(es, prefix) == [Leaf(Child(prefix, k1), v1)] + EntryLeaves(es[1..], prefix);
  }

  /** A mapping of one node gives that node's leaves under the child key. */
  lemma OneEntry(prefix: string, k: string, v: Node)
    ensures Leaves(Mapping([Pair(k, v)]), prefix) == Leaves(v, Child(prefix, k))
  {
    var es := [Pair(k, v)];
    assert EntryLeaves(es[1..], prefix) == [];
    assert Leaves(v, Child(prefix, k)) + [] == Leaves(v, Child(prefix, k));
  }

  lemma TestArrayLeaves()
    ensures Leaves(TestArray(), "c.array") == [
      Leaf("c.array[0].name", "element1"), Leaf("c.array[0].value", "${prop5}"),
      Leaf("c.array[1].name", "element2"),
      Leaf("c.array[1].sub-array[0].sub1", "#{${a.key2} + ${ab.key1}}")]
  {
    var items := TestArray().items;
    var expr := "#{${a.key2} + ${ab.key1}}";
    var sub := Sequence([Mapping([Pair("sub1", Scalar(expr))])]);
    assert NatText(0) == "0" && NatText(1) == "1";
    assert Index("c.array", 0) == "c.array[0]" && Index("c.array", 1) == "c.array[1]";
    TwoItems("c.array", items[0], items[1]);
    TwoScalars("c.array[0]", "name", "element1", "value", "${prop5}");
    assert Child("c.array[0]", "name") == "c.array[0].name";
    assert Child("c.array[0]", "value") == "c.array[0].value";
    ScalarThenNode("c.array[1]", "name", "element2", "sub-array", sub);
    assert Child("c.array[1]", "name") == "c.array[1].name";
    SubArrayLeaves(expr);
  }

  /** A sequence of two nodes gives their leaves under `[0]` and `[1]`. */
  lemma TwoItems(prefix: string, a: Node, b: Node)
    ensures Leaves(Sequence([a, b]), prefix) == Leaves(a, Index(prefix, 0)) + Leaves(b, Index(prefix, 1))
  {
    var items := [a, b];
    assert items[1..] == [b];
    assert ItemLeaves(items[1..][1..], prefix, 2) == [];
    assert ItemLeaves(items[1..], prefix, 1) == Leaves(b, Index(prefix, 1)) + [];
  }

  /** A mapping of a scalar and a node gives the scalar's leaf first. */
  lemma ScalarThenNode(prefix: string, k1: string, v1: string, k2: string, v2: Node)
    ensures Leaves(Mapping([Pair(k1, Scalar(v1)), Pair(k2, v2)]), prefix)
            == [Leaf(Child(prefix, k1), v1)] + Leaves(v2, Child(prefix, k2))
  {
    var es := [Pair(k1, Scalar(v1)), Pair(k2, v2)];
    assert es[1..] == [Pair(k2, v2)];
    assert EntryLeaves(es[1..][1..], prefix) == [];
    assert EntryLeaves(es[1..], prefix) == Leaves(v2, Child(prefix, k2)) + [];
    assert Leaves(Scalar(v1), Child(prefix, k1)) == [Leaf(Child(prefix, k1), v1)];
    assert EntryLeaves(es, prefix) == Leaves(Scalar(v1), Child(prefix, k1)) + EntryLeaves(es[1..], prefix);
  }

  /** The nested sequence of the second element. */
  lemma SubArrayLeaves(expr: string)
    ensures Leaves(Sequence([Mapping([Pair("sub1", Scalar(expr))])]), Child("c.array[1]", "sub-array"))
            == [Leaf("c.array[1].sub-array[0].sub1", expr)]
  {
    var prefix := Child("c.array[1]", "sub-array");
    assert prefix == "c.array[1].sub-array";
    assert NatText(0) == "0";
    assert Index(prefix, 0) == "c.array[1].sub-array[0]";
    var m := Mapping([Pair("sub1", Scalar(expr))]);
    OneEntry(Index(prefix, 0), "sub1", Scalar(expr));
    assert Child(Index(prefix, 0), "sub1") == "c.array[1].sub-array[0].sub1";
    var items := [m];
    assert ItemLeaves(items[1..], prefix, 1) == [];
    assert ItemLeaves(items, prefix, 0) == Leaves(m, Index(prefix, 0)) + [];
  }

  /** The first mapping of the YAML source test: nested keys are joined
      with dots, and the root adds no prefix. */
  lemma TestMappingLeaves()
    ensures Leaves(Mapping([Pair("a", Mapping([Pair("key1", Scalar("value1")), Pair("key2", Scalar("2.5"))]))]), "")
            == [Leaf("a.key1", "value1"), Leaf("a.key2", "2.5")]
  {
    var inner := Mapping([Pair("key1", Scalar("value1")), Pair("key2", Scalar("2.5"))]);
    OneEntry("", "a", inner);
    assert Child("", "a") == "a";
    TwoScalars("a", "key1", "value1", "key2", "2.5");
    assert Child("a", "key1") == "a.key1" && Child("a", "key2") == "a.key2";
  }
}
