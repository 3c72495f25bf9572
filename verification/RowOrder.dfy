/** The order of the rows of a flattened tree, and which values become rows. */
module RowOrder {
  import opened Orders
  import opened TomlTree

  /** Keys of a table in text order, tables of an array by their index. */
  predicate StepBefore(a: Step, b: Step) {
    match a
    case Key(j) => b.Key? && ComesFirst(j, b.name)
    case Index(i) => b.Index? && i < b.i
  }

  predicate PartAt(p: Path, q: Path, n: nat) {
    n < |p| && n < |q| && (forall k :: 0 <= k < n ==> p[k] == q[k]) && StepBefore(p[n], q[n])
  }

  /** Where the two paths part, the first takes the earlier step. */
  predicate PathBefore(p: Path, q: Path) {
    exists n :: 0 <= n < |p| && PartAt(p, q, n)
  }

  predicate RowsInOrder(rows: seq<Row>) {
    forall i, j :: 0 <= i < j < |rows| ==> PathBefore(rows[i].path, rows[j].path)
  }

  lemma {:induction false} JoinInOrder(a: seq<Row>, b: seq<Row>)
    requires RowsInOrder(a) && RowsInOrder(b)
    requires forall x, y | x in a && y in b :: PathBefore(x.path, y.path)
    ensures RowsInOrder(a + b)
  {
    forall i, j | 0 <= i < j < |a + b|
      ensures PathBefore((a + b)[i].path, (a + b)[j].path)
    {
      if i < |a| <= j {
        assert a[i] in a && b[j - |a|] in b;
      }
    }
  }

  /** Rows below one step come before the rows below a later step. */
  lemma {:induction false} StepsPart(path: Path, a: Step, b: Step, x: Row, y: Row)
    requires path + [a] <= x.path && path < y.path && y.path[|path|] == b && StepBefore(a, b)
    ensures PathBefore(x.path, y.path)
  {
    var n := |path|;
    assert x.path[n] == (path + [a])[n];
    assert forall k :: 0 <= k < n ==> x.path[k] == (path + [a])[k] == path[k] == y.path[k];
    assert PartAt(x.path, y.path, n);
  }

  /** Every tree is flattened in order: no path twice, keys in text order, indices upwards. */
  lemma {:induction false} FlattenInOrder(path: Path, v: Value)
    ensures RowsInOrder(Flatten(path, v))
    decreases v, 2, 0
  {
    match v
    case Table(entries) => KeysInOrder(path, v, entries.Keys);
    case Array(items) => if AllTables(items) { ItemsInOrder(path, v, |items|); }
    case Scalar(_) =>
  }

  lemma {:induction false} KeysInOrder(path: Path, v: Value, keys: set<string>)
    requires v.Table? && keys <= v.entries.Keys
    ensures RowsInOrder(FlattenKeys(path, v, keys))
    decreases v, 1, |keys|
  {
    if keys != {} {
      var k := Least(keys);
      var first, rest := Flatten(path + [Key(k)], v.entries[k]), FlattenKeys(path, v, keys - {k});
      FlattenInOrder(path + [Key(k)], v.entries[k]);
      KeysInOrder(path, v, keys - {k});
      forall x, y | x in first && y in rest
        ensures PathBefore(x.path, y.path)
      {
        FlattenIsLeaves(path + [Key(k)], v.entries[k], x);
        FlattenKeysIsLeaves(path, v, keys - {k}, y);
        StringLessIff(k, y.path[|path|].name);
        StepsPart(path, Key(k), y.path[|path|], x, y);
      }
      JoinInOrder(first, rest);
    }
  }

  lemma {:induction false} ItemsInOrder(path: Path, v: Value, n: nat)
    requires v.Array? && n <= |v.items| && AllTables(v.items)
    ensures RowsInOrder(FlattenItems(path, v, n))
    decreases v, 1, n
  {
    if n > 0 {
      var before, last := FlattenItems(path, v, n - 1), Flatten(path + [Index(n - 1)], v.items[n - 1]);
      ItemsInOrder(path, v, n - 1);
      FlattenInOrder(path + [Index(n - 1)], v.items[n - 1]);
      forall x, y | x in before && y in last
        ensures PathBefore(x.path, y.path)
      {
        FlattenItemsIsLeaves(path, v, n - 1, x);
        FlattenIsLeaves(path + [Index(n - 1)], v.items[n - 1], y);
        EarlierItem(path, n - 1, x, y);
      }
      JoinInOrder(before, last);
    }
  }

  lemma {:induction false} EarlierItem(path: Path, n: nat, x: Row, y: Row)
    requires path < x.path && x.path[|path|].Index? && x.path[|path|].i < n && path + [Index(n)] <= y.path
    ensures PathBefore(x.path, y.path)
  {
    var m := |path|;
    assert y.path[m] == (path + [Index(n)])[m];
    assert forall k :: 0 <= k < m ==> y.path[k] == (path + [Index(n)])[k] == path[k] == x.path[k];
    assert PartAt(x.path, y.path, m);
  }

  lemma {:induction false} PathNotBeforeItself(p: Path, n: nat)
    ensures !PartAt(p, p, n)
  {
    if n < |p| && p[n].Key? {
      StringLessIff(p[n].name, p[n].name);
      StringLessIsTotal(p[n].name, p[n].name);
    }
  }

  /** Every leaf is one row and one row only. */
  lemma {:induction false} RowsAreDistinct(v: Value, i: nat, j: nat)
    requires i < j < |Rows(v)|
    ensures Rows(v)[i].path != Rows(v)[j].path
  {
    FlattenInOrder([], v);
    var p := Rows(v)[i].path;
    if p == Rows(v)[j].path {
      var n :| 0 <= n < |p| && PartAt(p, p, n);
      PathNotBeforeItself(p, n);
    }
  }

  /** A scalar is one row, and so is an array that holds anything but tables; an empty array
      is none. */
  lemma {:induction false} WhatIsARow(items: seq<Value>, text: string, path: Path)
    ensures Flatten(path, Scalar(text)) == [Row(path, Scalar(text))]
    ensures (exists item <- items :: !item.Table?) ==> Flatten(path, Array(items)) == [Row(path, Array(items))]
    ensures items == [] ==> Flatten(path, Array(items)) == []
  {
  }
}
