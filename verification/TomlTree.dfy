/** Layered configuration as trees: the deep merge of two layers, the flattening of a tree
    into rows, and the attribution of each row to the layer that provided it. */
module TomlTree {
  import opened Wrappers
  import opened Orders
  import Decimal

  /** A parsed TOML value. The text of a scalar stands for whatever kind it is. */
  datatype Value = Scalar(text: string) | Array(items: seq<Value>) | Table(entries: map<string, Value>)

  datatype Step = Key(name: string) | Index(i: nat)

  type Path = seq<Step>

  datatype Row = Row(path: Path, value: Value)

  // ----- Key order of a table -----

  predicate IsLeast(k: string, keys: set<string>) {
    k in keys && forall j <- keys :: j == k || StringLess(k, j)
  }

  lemma {:induction false} LeastExists(keys: set<string>)
    requires keys != {}
    ensures exists k :: IsLeast(k, keys)
  {
    var k :| k in keys;
    var rest := keys - {k};
    if rest != {} {
      LeastExists(rest);
      var j :| IsLeast(j, rest);
      StringLessIsTotal(j, k);
      forall i <- rest | StringLess(k, j)
        ensures StringLess(k, i)
      {
        if i != j { StringLessIsTransitive(k, j, i); }
      }
      assert IsLeast(if StringLess(j, k) then j else k, keys);
    } else {
      assert keys == {k};
      assert IsLeast(k, keys);
    }
  }

  ghost function Least(keys: set<string>): (k: string)
    requires keys != {}
    ensures IsLeast(k, keys)
  {
    LeastExists(keys);
    var k :| IsLeast(k, keys);
    k
  }

  lemma {:induction false} LeastIsUnique(j: string, k: string, keys: set<string>)
    requires IsLeast(j, keys) && IsLeast(k, keys)
    ensures j == k
  {
    StringLessIsTotal(j, k);
  }

  // ----- Deep merge -----

  function Merge(base: Value, over: Value): Value
    decreases over
  {
    if base.Table? && over.Table? then
      Table(map k | k in base.entries.Keys + over.entries.Keys ::
        if k !in over.entries then base.entries[k]
        else if k in base.entries then Merge(base.entries[k], over.entries[k])
        else over.entries[k])
    else over
  }

  method MergeToml(base: Value, over: Value) returns (merged: Value)
    ensures merged == Merge(base, over)
    decreases over
  {
    if !base.Table? || !over.Table? {
      return over;
    }
    var b := base.entries;
    var todo := over.entries.Keys;
    while todo != {}
      invariant todo <= over.entries.Keys
      invariant b.Keys == base.entries.Keys + (over.entries.Keys - todo)
      invariant forall k <- b ::
        b[k] == if k in todo || k !in over.entries then base.entries[k] else Merge(base, over).entries[k]
    {
      var k :| k in todo;
      var ov := over.entries[k];
      if k in b {
        var bv := b[k];
        b := b - {k};
        ov := MergeToml(bv, ov);
      }
      b := b[k := ov];
      todo := todo - {k};
    }
    merged := Table(b);
    assert b == Merge(base, over).entries;
  }

  // ----- Flattening -----

  predicate AllTables(items: seq<Value>) {
    forall item <- items :: item.Table?
  }

  /** The values that become one row; an empty array becomes none. */
  predicate IsLeaf(v: Value) {
    v.Scalar? || (v.Array? && !AllTables(v.items))
  }

  /** Rows in the order they are pushed: tables by key, arrays of tables by index. */
  ghost function Flatten(path: Path, v: Value): seq<Row>
    decreases v, 2, 0
  {
    match v
    case Table(entries) => FlattenKeys(path, v, entries.Keys)
    case Array(items) => if AllTables(items) then FlattenItems(path, v, |items|) else [Row(path, v)]
    case Scalar(_) => [Row(path, v)]
  }

  ghost function FlattenKeys(path: Path, v: Value, keys: set<string>): seq<Row>
    requires v.Table? && keys <= v.entries.Keys
    decreases v, 1, |keys|
  {
    if keys == {} then []
    else
      var k := Least(keys);
      Flatten(path + [Key(k)], v.entries[k]) + FlattenKeys(path, v, keys - {k})
  }

  ghost function FlattenItems(path: Path, v: Value, n: nat): seq<Row>
    requires v.Array? && n <= |v.items|
    decreases v, 1, n
  {
    if n == 0 then []
    else FlattenItems(path, v, n - 1) + Flatten(path + [Index(n - 1)], v.items[n - 1])
  }

  /** The leaf a path leads to. Arrays are entered only when all their items are tables. */
  function LeafAt(v: Value, p: Path): Option<Value>
    decreases |p|
  {
    if p == [] then if IsLeaf(v) then Some(v) else None
    else match p[0]
      case Key(k) => if v.Table? && k in v.entries then LeafAt(v.entries[k], p[1..]) else None
      case Index(i) =>
        if v.Array? && AllTables(v.items) && i < |v.items| then LeafAt(v.items[i], p[1..]) else None
  }

  /** Flattening lists precisely the leaves, each under its own path. */
  lemma {:induction false} FlattenIsLeaves(path: Path, v: Value, row: Row)
    ensures row in Flatten(path, v) <==>
            path <= row.path && LeafAt(v, row.path[|path|..]) == Some(row.value)
    decreases v, 2, 0
  {
    match v
    case Scalar(_) => LeafRow(path, v, row);
    case Table(entries) =>
      FlattenKeysIsLeaves(path, v, entries.Keys, row);
    case Array(items) =>
      if AllTables(items) {
        FlattenItemsIsLeaves(path, v, |items|, row);
      } else {
        LeafRow(path, v, row);
      }
  }

  lemma {:induction false} OneStepDeeper(path: Path, step: Step, p: Path)
    ensures path + [step] <= p <==> path < p && p[|path|] == step
  {
    if path < p && p[|path|] == step {
      assert p[..|path| + 1] == path + [step];
    }
  }

  lemma {:induction false} LeafRow(path: Path, v: Value, row: Row)
    requires IsLeaf(v)
    ensures row == Row(path, v) <==> path <= row.path && LeafAt(v, row.path[|path|..]) == Some(row.value)
  {
    if path <= row.path && row.path[|path|..] == [] {
      assert row.path == path;
    }
  }

  lemma {:induction false} FlattenKeysIsLeaves(path: Path, v: Value, keys: set<string>, row: Row)
    requires v.Table? && keys <= v.entries.Keys
    ensures row in FlattenKeys(path, v, keys) <==>
            && path < row.path && row.path[|path|].Key? && row.path[|path|].name in keys
            && LeafAt(v, row.path[|path|..]) == Some(row.value)
    decreases v, 1, |keys|
  {
    if keys != {} {
      var k := Least(keys);
      var deeper := path + [Key(k)];
      FlattenIsLeaves(deeper, v.entries[k], row);
      FlattenKeysIsLeaves(path, v, keys - {k}, row);
      if deeper <= row.path {
        assert row.path[|path|..][1..] == row.path[|deeper|..];
      }
      OneStepDeeper(path, Key(k), row.path);
    }
  }

  lemma {:induction false} FlattenItemsIsLeaves(path: Path, v: Value, n: nat, row: Row)
    requires v.Array? && n <= |v.items| && AllTables(v.items)
    ensures row in FlattenItems(path, v, n) <==>
            && path < row.path && row.path[|path|].Index? && row.path[|path|].i < n
            && LeafAt(v, row.path[|path|..]) == Some(row.value)
    decreases v, 1, n
  {
    if n > 0 {
      var deeper := path + [Index(n - 1)];
      FlattenIsLeaves(deeper, v.items[n - 1], row);
      FlattenItemsIsLeaves(path, v, n - 1, row);
      if deeper <= row.path {
        assert row.path[|path|..][1..] == row.path[|deeper|..];
      }
      OneStepDeeper(path, Index(n - 1), row.path);
    }
  }

  // ----- Flattening commutes with layering -----

  /** The upper layer leaves no room for a lower row at `p`: walking down `p` it has a
      value of its own before it runs out of tables. */
  predicate Shadows(over: Value, p: Path)
    decreases |p|
  {
    !over.Table? || p == [] || p[0].Index? || (p[0].name in over.entries && Shadows(over.entries[p[0].name], p[1..]))
  }

  /** A leaf of the merge is the upper layer's leaf there, or a lower one not shadowed. */
  lemma {:induction false} MergeLeaves(g: Value, r: Value, p: Path)
    ensures LeafAt(Merge(g, r), p) ==
            if LeafAt(r, p).Some? then LeafAt(r, p) else if Shadows(r, p) then None else LeafAt(g, p)
    ensures LeafAt(r, p).Some? ==> Shadows(r, p)
    decreases |p|
  {
    if g.Table? && r.Table? && p != [] && p[0].Key? {
      var k := p[0].name;
      if k in g.entries && k in r.entries {
        MergeLeaves(g.entries[k], r.entries[k], p[1..]);
      } else if k in r.entries {
        MergeLeaves(r.entries[k], r.entries[k], p[1..]);
      }
    } else if r.Table? && p != [] && p[0].Key? && p[0].name in r.entries {
      MergeLeaves(r.entries[p[0].name], r.entries[p[0].name], p[1..]);
    }
  }

  ghost function Rows(v: Value): seq<Row> {
    Flatten([], v)
  }

  lemma {:induction false} RowsAreLeaves(v: Value, row: Row)
    ensures row in Rows(v) <==> LeafAt(v, row.path) == Some(row.value)
  {
    FlattenIsLeaves([], v, row);
    assert row.path[0..] == row.path;
  }

  /** The rows of the merged layers: every row of the upper layer, and exactly the rows of
      the lower layer it does not shadow. */
  lemma {:induction false} MergeRows(g: Value, r: Value, row: Row)
    ensures row in Rows(Merge(g, r)) <==> row in Rows(r) || (row in Rows(g) && !Shadows(r, row.path))
  {
    RowsAreLeaves(Merge(g, r), row);
    RowsAreLeaves(r, row);
    RowsAreLeaves(g, row);
    MergeLeaves(g, r, row.path);
  }

  // ----- Attribution by path -----

  datatype Source = Default | User | Repo

  predicate Declares(v: Value, p: Path) {
    LeafAt(v, p).Some?
  }

  function SourceOf(g: Value, r: Value, p: Path): Source {
    if Declares(r, p) then Repo else if Declares(g, p) then User else Default
  }

  /** The layer the value at a path comes from once the layers are merged and the defaults
      filled in: a leaf of the merge is the upper layer's where that has one and the lower
      layer's otherwise, and any other value is a default. */
  function Provider(g: Value, r: Value, p: Path): Source {
    if !Declares(Merge(g, r), p) then Default else if Declares(r, p) then Repo else User
  }

  /** Loading adds the leaves of defaults and may drop a leaf, such as a blank optional one,
      but what it shows of the merge is as it was. */
  ghost predicate Fills(merged: Value, filled: Value) {
    forall p :: Declares(merged, p) && Declares(filled, p) ==> LeafAt(filled, p) == LeafAt(merged, p)
  }

  /** The provider is where the shown value is from, and only a default is nowhere in the
      merge. */
  lemma {:induction false} ProviderIsRight(g: Value, r: Value, filled: Value, row: Row)
    requires Fills(Merge(g, r), filled) && row in Rows(filled)
    ensures match Provider(g, r, row.path)
            case Repo => row in Rows(r)
            case User => row in Rows(g)
            case Default => !Declares(Merge(g, r), row.path)
  {
    RowsAreLeaves(filled, row);
    RowsAreLeaves(r, row);
    RowsAreLeaves(g, row);
    MergeLeaves(g, r, row.path);
  }

  /** Attribution by path names the provider exactly where no leaf of the lower layer was
      replaced wholesale: there the lower layer declares the path, but a default is shown. */
  lemma {:induction false} AttributionIff(g: Value, r: Value, p: Path)
    ensures SourceOf(g, r, p) == Provider(g, r, p) <==> !(Declares(g, p) && !Declares(r, p) && Shadows(r, p))
  {
    MergeLeaves(g, r, p);
  }

  /** A merged row attributed to a layer carries that layer's value, and no merged row is
      attributed to the defaults. */
  lemma {:induction false} AttributionIsRight(g: Value, r: Value, row: Row)
    requires row in Rows(Merge(g, r))
    ensures SourceOf(g, r, row.path) == Provider(g, r, row.path)
    ensures match SourceOf(g, r, row.path)
            case Repo => row in Rows(r)
            case User => row in Rows(g)
            case Default => false
  {
    RowsAreLeaves(Merge(g, r), row);
    RowsAreLeaves(r, row);
    RowsAreLeaves(g, row);
    MergeLeaves(g, r, row.path);
  }

  // ----- Row keys as text -----

  /** The text of one more step behind a prefix. */
  function Extend(prefix: string, step: Step): string {
    match step
    case Key(name) => if prefix == "" then name else prefix + "." + name
    case Index(i) => prefix + "[" + Decimal.Print(i) + "]"
  }

  function Render(p: Path): string {
    if p == [] then "" else Extend(Render(p[..|p| - 1]), p[|p| - 1])
  }

  lemma {:induction false} RenderDeeper(p: Path, step: Step)
    ensures Render(p + [step]) == Extend(Render(p), step)
  {
    assert (p + [step])[..|p|] == p;
  }

  function RenderRow(row: Row): (string, Value) {
    (Render(row.path), row.value)
  }

  function RenderRows(rows: seq<Row>): seq<(string, Value)> {
    if rows == [] then [] else RenderRows(rows[..|rows| - 1]) + [RenderRow(rows[|rows| - 1])]
  }

  lemma {:induction false} RenderRowsAppend(a: seq<Row>, b: seq<Row>)
    ensures RenderRows(a + b) == RenderRows(a) + RenderRows(b)
  {
    if b == [] {
      assert a + b == a;
    } else {
      assert (a + b)[..|a + b| - 1] == a + b[..|b| - 1];
      RenderRowsAppend(a, b[..|b| - 1]);
    }
  }

  lemma {:induction false} RenderRowsContains(rows: seq<Row>, pair: (string, Value))
    ensures pair in RenderRows(rows) <==> exists row <- rows :: RenderRow(row) == pair
  {
    if rows != [] {
      var init, last := rows[..|rows| - 1], rows[|rows| - 1];
      assert rows == init + [last];
      RenderRowsContains(init, pair);
    }
  }

  /** The recursive walk, pushing text rows in key order and index order. */
  method FlattenValue(ghost path: Path, prefix: string, v: Value, rows: seq<(string, Value)>)
    returns (out: seq<(string, Value)>)
    requires prefix == Render(path)
    ensures out == rows + RenderRows(Flatten(path, v))
    decreases v, 2
  {
    if v.Table? {
      out := FlattenTable(path, prefix, v, rows);
    } else if v.Array? && AllTables(v.items) {
      out := FlattenArray(path, prefix, v, rows);
    } else {
      assert [Row(path, v)][..0] == [];
      out := rows + [(prefix, v)];
    }
  }

  method FlattenTable(ghost path: Path, prefix: string, v: Value, rows: seq<(string, Value)>)
    returns (out: seq<(string, Value)>)
    requires v.Table? && prefix == Render(path)
    ensures out == rows + RenderRows(FlattenKeys(path, v, v.entries.Keys))
    decreases v, 1
  {
    out := rows;
    ghost var whole := RenderRows(FlattenKeys(path, v, v.entries.Keys));
    var todo := v.entries.Keys;
    while todo != {}
      invariant todo <= v.entries.Keys
      invariant out + RenderRows(FlattenKeys(path, v, todo)) == rows + whole
    {
      LeastExists(todo);
      var k :| k in todo && IsLeast(k, todo);
      LeastIsUnique(k, Least(todo), todo);
      RenderDeeper(path, Key(k));
      ghost var here, rest := Flatten(path + [Key(k)], v.entries[k]), FlattenKeys(path, v, todo - {k});
      PushedInFront(out, here, rest);
      out := FlattenValue(path + [Key(k)], Extend(prefix, Key(k)), v.entries[k], out);
      todo := todo - {k};
    }
  }

  lemma {:induction false} PushedInFront(out: seq<(string, Value)>, here: seq<Row>, rest: seq<Row>)
    ensures out + RenderRows(here + rest) == out + RenderRows(here) + RenderRows(rest)
  {
    RenderRowsAppend(here, rest);
  }

  method FlattenItem(
    ghost path: Path, prefix: string, v: Value, i: nat, ghost rows: seq<(string, Value)>, before: seq<(string, Value)>)
    returns (out: seq<(string, Value)>)
    requires v.Array? && i < |v.items| && prefix == Render(path)
    requires before == rows + RenderRows(FlattenItems(path, v, i))
    ensures out == rows + RenderRows(FlattenItems(path, v, i + 1))
    decreases v, 0
  {
    RenderDeeper(path, Index(i));
    PushedInFront(rows, FlattenItems(path, v, i), Flatten(path + [Index(i)], v.items[i]));
    out := FlattenValue(path + [Index(i)], Extend(prefix, Index(i)), v.items[i], before);
  }

  method FlattenArray(ghost path: Path, prefix: string, v: Value, rows: seq<(string, Value)>)
    returns (out: seq<(string, Value)>)
    requires v.Array? && prefix == Render(path)
    ensures out == rows + RenderRows(FlattenItems(path, v, |v.items|))
    decreases v, 1
  {
    out := rows;
    for i := 0 to |v.items|
      invariant out == rows + RenderRows(FlattenItems(path, v, i))
    {
      out := FlattenItem(path, prefix, v, i, rows, out);
    }
  }
}
