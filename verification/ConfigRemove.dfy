/** The laws of `gwm config unset`, and the file that `set` and `unset` write. */
module ConfigRemove {
  import opened Wrappers
  import opened ConfigKeys
  import opened TomlTree
  import opened ConfigEdit

  /** The recursive removal, as the editor runs it. */
  method RemoveValue(t: EditTable, segments: seq<Segment>) returns (out: EditTable, r: Result<(), EditError>)
    ensures (out, r) == RemoveAt(t, segments)
    decreases |segments|
  {
    out := t;
    if segments == [] {
      return t, Err(EmptyKey);
    }
    var head, tail := segments[0], segments[1..];
    if tail == [] {
      if head.index.Some? {
        return t, Err(IndexAtEnd);
      }
      return EditTable(t.entries - {head.name}), Ok(());
    }
    if head.index == Some(Append) {
      return t, Err(AppendInRemove);
    }
    if head.name !in t.entries {
      return t, Ok(());
    }
    var item := t.entries[head.name];
    if head.index.None? {
      if !item.Sub? {
        return t, Ok(());
      }
      var child;
      child, r := RemoveValue(item.table, tail);
      out := Put(t, head.name, Sub(child));
    } else {
      var i := head.index.value.i;
      if !item.Tables? || i >= |item.tables| {
        return t, Ok(());
      }
      var child;
      child, r := RemoveValue(item.tables[i], tail);
      out := Put(t, head.name, Tables(item.tables[i := child]));
    }
  }

  /** A key `unset` accepts: it ends in a field and appends nowhere. */
  predicate Removable(segments: seq<Segment>) {
    segments != [] && segments[|segments| - 1].index.None? && NoAppend(segments)
  }

  lemma {:induction false} RemovableBelow(segments: seq<Segment>)
    requires Removable(segments) && |segments| > 1
    ensures Removable(segments[1..]) && segments[0].index != Some(Append)
    ensures Steps(segments) == StepsOf(segments[0]) + Steps(segments[1..])
  {
    assert segments[0] in segments;
    assert segments[1..][|segments| - 2] == segments[|segments| - 1];
  }

  /** Some step before the last one meets a value the editor does not look inside. */
  predicate CrossesValue(t: EditTable, segments: seq<Segment>)
    decreases |segments|
  {
    |segments| > 1 && segments[0].name in t.entries &&
    var item := t.entries[segments[0].name];
    || item.Val?
    || (segments[0].index.None? && item.Sub? && CrossesValue(item.table, segments[1..]))
    || (segments[0].index.Some? && segments[0].index.value.Number? && item.Tables? &&
        segments[0].index.value.i < |item.tables| &&
        CrossesValue(item.tables[segments[0].index.value.i], segments[1..]))
  }

  // ----- One level of a removal -----

  /** The removal goes on inside a table of the document. */
  predicate GoesThroughSub(t: EditTable, segments: seq<Segment>) {
    |segments| > 1 && segments[0].index.None? && segments[0].name in t.entries && t.entries[segments[0].name].Sub?
  }

  /** The removal goes on inside one table of an array of tables. */
  predicate GoesThroughTables(t: EditTable, segments: seq<Segment>) {
    && |segments| > 1 && segments[0].index.Some? && segments[0].index.value.Number?
    && segments[0].name in t.entries && t.entries[segments[0].name].Tables?
    && segments[0].index.value.i < |t.entries[segments[0].name].tables|
  }

  lemma {:induction false} StopsHere(t: EditTable, segments: seq<Segment>)
    requires Removable(segments) && |segments| > 1
    requires !GoesThroughSub(t, segments) && !GoesThroughTables(t, segments)
    ensures RemoveAt(t, segments) == (t, Ok(()))
  {
    RemovableBelow(segments);
  }

  lemma {:induction false} StepsStartWithKey(segments: seq<Segment>)
    requires segments != []
    ensures Steps(segments) != [] && Steps(segments)[0] == Key(segments[0].name)
  {
  }

  lemma {:induction false} StopsHereReads(t: EditTable, segments: seq<Segment>)
    requires Removable(segments) && |segments| > 1
    requires !GoesThroughSub(t, segments) && !GoesThroughTables(t, segments)
    ensures At(TableValue(t), Steps(segments)).Some? ==> CrossesValue(t, segments)
  {
    RemovableBelow(segments);
    StepsStartWithKey(segments[1..]);
    var s := segments[0];
    if s.index.None? {
      NothingBelow(t, s.name, Steps(segments[1..]));
    } else {
      NothingAtIndex(t, s.name, s.index.value.i, Steps(segments[1..]));
    }
  }

  lemma {:induction false} NothingBelow(t: EditTable, name: string, p: Path)
    requires p != [] && p[0].Key?
    requires name in t.entries ==> !t.entries[name].Sub?
    ensures At(TableValue(t), [Key(name)] + p).Some? ==> name in t.entries && t.entries[name].Val?
  {
    AtBelow(t, name, p);
  }

  lemma {:induction false} NothingAtIndex(t: EditTable, name: string, i: nat, p: Path)
    requires name in t.entries && t.entries[name].Tables? ==> i >= |t.entries[name].tables|
    ensures At(TableValue(t), [Key(name), Index(i)] + p).Some? ==> name in t.entries && t.entries[name].Val?
  {
    assert [Key(name), Index(i)] + p == [Key(name)] + ([Index(i)] + p);
    AtBelow(t, name, [Index(i)] + p);
    if name in t.entries && !t.entries[name].NoItem? {
      var item := t.entries[name];
      AtIndex(ItemValue(item), i, p);
      assert item.Sub? ==> ItemValue(item) == TableValue(item.table);
      assert item.Tables? ==> |ItemValue(item).items| == |item.tables|;
    }
  }

  // ----- Laws -----

  lemma {:induction false} RemoveLast(t: EditTable, segments: seq<Segment>)
    requires Removable(segments) && |segments| == 1
    ensures RemoveAt(t, segments) == (EditTable(t.entries - {segments[0].name}), Ok(()))
    ensures Steps(segments) == [Key(segments[0].name)]
  {
    assert segments[1..] == [];
  }

  /** After an accepted `unset` the key still reads exactly when it read before and runs
      through an inline table or a plain array on its way: those are left alone without
      an error. Otherwise it is absent. */
  lemma {:induction false} RemoveThenGet(t: EditTable, segments: seq<Segment>)
    requires Removable(segments)
    ensures RemoveAt(t, segments).1 == Ok(())
    ensures At(TableValue(RemoveAt(t, segments).0), Steps(segments)).Some? <==>
            At(TableValue(t), Steps(segments)).Some? && CrossesValue(t, segments)
    decreases |segments|
  {
    var name, out := segments[0].name, RemoveAt(t, segments).0;
    if |segments| == 1 {
      RemoveLast(t, segments);
      AtBelow(out, name, []);
      assert [Key(name)] + [] == [Key(name)];
    } else {
      RemovableBelow(segments);
      if GoesThroughSub(t, segments) {
        RemoveThenGet(t.entries[name].table, segments[1..]);
        AtSub(t, name, Steps(segments[1..]));
        AtSub(out, name, Steps(segments[1..]));
      } else if GoesThroughTables(t, segments) {
        var i := segments[0].index.value.i;
        RemoveThenGet(t.entries[name].tables[i], segments[1..]);
        AtTables(t, name, i, Steps(segments[1..]));
        AtTables(out, name, i, Steps(segments[1..]));
      } else {
        StopsHere(t, segments);
        StopsHereReads(t, segments);
      }
    }
  }

  /** `unset` on a key inside an inline table reports success and removes nothing. */
  lemma {:induction false} InlineTableSurvivesUnset()
    ensures var segments := [Segment("a", None), Segment("b", None)];
            var t := EditTable(map["a" := Val(Table(map["b" := Scalar("1")]))]);
            && RemoveAt(t, segments) == (t, Ok(()))
            && At(TableValue(t), Steps(segments)) == Some(Scalar("1"))
  {
    var segments := [Segment("a", None), Segment("b", None)];
    var t := EditTable(map["a" := Val(Table(map["b" := Scalar("1")]))]);
    assert segments[1..] == [Segment("b", None)] && [Segment("b", None)][1..] == [];
    AtBelow(t, "a", [Key("b")]);
    assert [Key("b")][1..] == [];
    assert Steps(segments) == [Key("a")] + [Key("b")];
  }

  /** A removal changes nothing apart from the key it names. */
  lemma {:induction false} RemoveFrame(t: EditTable, segments: seq<Segment>, q: Path)
    requires Removable(segments) && Apart(Steps(segments), q)
    ensures At(TableValue(RemoveAt(t, segments).0), q) == At(TableValue(t), q)
    decreases |segments|, 0
  {
    var name, out := segments[0].name, RemoveAt(t, segments).0;
    if |segments| == 1 {
      RemoveLast(t, segments);
      if q[0].Key? {
        assert q == [q[0]] + q[1..];
        AtBelow(t, q[0].name, q[1..]);
        AtBelow(out, q[0].name, q[1..]);
      }
    } else {
      RemovableBelow(segments);
      if !GoesThroughSub(t, segments) && !GoesThroughTables(t, segments) {
        StopsHere(t, segments);
      } else if q[0] != Key(name) {
        OtherEntriesStay(t, name, out.entries[name], q);
      } else if GoesThroughSub(t, segments) {
        ApartBelow(Key(name), Steps(segments[1..]), q);
        RemoveFrame(t.entries[name].table, segments[1..], q[1..]);
        AtSub(t, name, q[1..]);
        AtSub(out, name, q[1..]);
      } else {
        RemoveTablesFrame(t, segments, q);
      }
    }
  }

  lemma {:induction false} RemoveTablesFrame(t: EditTable, segments: seq<Segment>, q: Path)
    requires Removable(segments) && GoesThroughTables(t, segments)
    requires Apart(Steps(segments), q) && q[0] == Key(segments[0].name)
    ensures At(TableValue(RemoveAt(t, segments).0), q) == At(TableValue(t), q)
    decreases |segments| - 1, 1
  {
    RemovableBelow(segments);
    var name, i := segments[0].name, segments[0].index.value.i;
    var ts, p := t.entries[name].tables, Steps(segments[1..]);
    var child := RemoveAt(ts[i], segments[1..]).0;
    var r := ApartBelowKey(name, i, p, q);
    if r[0] == Index(i) {
      ApartBelow(Index(i), p, r);
      RemoveFrame(ts[i], segments[1..], r[1..]);
    }
    OneTableChanged(t, name, i, child, r);
  }

  /** Replacing one table of an array shows only inside that table. */
  lemma {:induction false} OneTableChanged(t: EditTable, name: string, i: nat, child: EditTable, r: Path)
    requires name in t.entries && t.entries[name].Tables? && i < |t.entries[name].tables| && r != []
    requires r[0] == Index(i) ==> At(TableValue(child), r[1..]) == At(TableValue(t.entries[name].tables[i]), r[1..])
    ensures At(TableValue(Put(t, name, Tables(t.entries[name].tables[i := child]))), [Key(name)] + r) ==
            At(TableValue(t), [Key(name)] + r)
  {
    var out := Put(t, name, Tables(t.entries[name].tables[i := child]));
    if r[0].Key? {
      AtTablesNeedsIndex(t, name, r);
      AtTablesNeedsIndex(out, name, r);
    } else {
      assert [Key(name)] + r == [Key(name), Index(r[0].i)] + r[1..];
      AtTables(t, name, r[0].i, r[1..]);
      AtTables(out, name, r[0].i, r[1..]);
    }
  }

  lemma {:induction false} PutTwice(t: EditTable, name: string, a: Item, b: Item)
    ensures Put(Put(t, name, a), name, b) == Put(t, name, b)
    ensures name in t.entries && t.entries[name] == b ==> Put(t, name, b) == t
  {
    assert t.entries[name := a][name := b] == t.entries[name := b];
    if name in t.entries && t.entries[name] == b {
      assert t.entries[name := b] == t.entries;
    }
  }

  /** Removing twice is removing once. */
  lemma {:induction false} RemoveTwice(t: EditTable, segments: seq<Segment>)
    requires Removable(segments)
    ensures RemoveAt(RemoveAt(t, segments).0, segments) == RemoveAt(t, segments)
    decreases |segments|
  {
    var name := segments[0].name;
    if |segments| == 1 {
      RemoveLast(t, segments);
      RemoveLast(RemoveAt(t, segments).0, segments);
      assert t.entries - {name} - {name} == t.entries - {name};
    } else {
      RemovableBelow(segments);
      if GoesThroughSub(t, segments) {
        RemoveTwice(t.entries[name].table, segments[1..]);
        var child := RemoveAt(t.entries[name].table, segments[1..]).0;
        PutTwice(t, name, Sub(child), Sub(child));
      } else if GoesThroughTables(t, segments) {
        var i, ts := segments[0].index.value.i, t.entries[name].tables;
        RemoveTwice(ts[i], segments[1..]);
        var child := RemoveAt(ts[i], segments[1..]).0;
        assert ts[i := child][i := child] == ts[i := child];
        PutTwice(t, name, Tables(ts[i := child]), Tables(ts[i := child]));
      } else {
        StopsHere(t, segments);
      }
    }
  }

  /** All tables on the way to the last field are there. */
  predicate HasParents(t: EditTable, segments: seq<Segment>)
    decreases |segments|
  {
    segments != [] &&
    (|segments| > 1 ==>
       || (GoesThroughSub(t, segments) && HasParents(t.entries[segments[0].name].table, segments[1..]))
       || (GoesThroughTables(t, segments) &&
           HasParents(t.entries[segments[0].name].tables[segments[0].index.value.i], segments[1..])))
  }

  /** `unset` takes back a `set` that created only the last field. */
  lemma {:induction false} RemoveUndoesSet(t: EditTable, segments: seq<Segment>, v: Value)
    requires Removable(segments) && HasParents(t, segments) && ItemAt(t, segments).None?
    ensures SetAt(t, segments, v).1 == Ok(segments)
    ensures RemoveAt(SetAt(t, segments, v).0, segments) == (t, Ok(()))
    decreases |segments|
  {
    var name := segments[0].name;
    if |segments| == 1 {
      assert segments[1..] == [];
      assert t.entries[name := Val(v)] - {name} == t.entries;
    } else {
      RemovableBelow(segments);
      assert segments == [segments[0]] + segments[1..];
      var item := t.entries[name];
      assert t.entries[name := item] == t.entries;
      if GoesThroughSub(t, segments) {
        RemoveUndoesSet(item.table, segments[1..], v);
        PutTwice(t, name, Sub(SetAt(item.table, segments[1..], v).0), item);
      } else {
        var i := segments[0].index.value.i;
        RemoveUndoesSet(item.tables[i], segments[1..], v);
        var child := SetAt(item.tables[i], segments[1..], v).0;
        assert item.tables[i := child][i := item.tables[i]] == item.tables;
        PutTwice(t, name, Tables(item.tables[i := child]), item);
        assert Segment(name, Some(Number(i))) == segments[0];
      }
    }
  }

  // ----- The file -----

  datatype WriteError = BadKey(key: KeyError) | BadEdit(edit: EditError) | Invalid

  /** A configuration file on disk, or the place for one. `accepts` stands for the full
      validation of a rendered document; without a file the defaults hold, which are valid. */
  class ConfigFile {
    var doc: Option<EditTable>
    const accepts: EditTable -> bool

    constructor (doc: Option<EditTable>, accepts: EditTable -> bool)
      ensures this.doc == doc && this.accepts == accepts
    {
      this.doc := doc;
      this.accepts := accepts;
    }

    predicate IsValid()
      reads this
    {
      doc.None? || accepts(doc.value)
    }

    /** The document that is edited: an empty one when there is no file yet. */
    function Document(): EditTable
      reads this
    {
      if doc.Some? then doc.value else EMPTY
    }

    /** Writes an edited document: an invalid one only replaces a file that is invalid
        already, and the error is reported either way. */
    method WriteAndValidate(edited: EditTable) returns (r: Result<(), WriteError>)
      modifies this
      ensures r == if accepts(edited) then Ok(()) else Err(Invalid)
      ensures doc == if accepts(edited) || (old(doc).Some? && !accepts(old(doc).value)) then Some(edited) else old(doc)
      ensures old(IsValid()) ==> IsValid()
    {
      if accepts(edited) {
        doc := Some(edited);
        return Ok(());
      }
      if !IsValid() {
        doc := Some(edited);
      }
      return Err(Invalid);
    }

    /** A key that does not parse or cannot be set is reported as such and leaves the file
        alone. Otherwise the file holds the edited document, unless that is invalid and the
        file was not. */
    method Set(key: string, v: Value) returns (r: Result<string, WriteError>)
      modifies this
      ensures old(IsValid()) ==> IsValid()
      ensures match ParseParts(SplitDots(key))
              case Err(e) => r == Err(BadKey(e)) && doc == old(doc)
              case Ok(segments) =>
                var (edited, resolved) :=
                  SetAt(if old(doc).Some? then old(doc).value else EditTable(map[]), segments, v);
                if resolved.Err? then r == Err(BadEdit(resolved.error)) && doc == old(doc)
                else if accepts(edited) then r == Ok(RenderSegments(resolved.value)) && doc == Some(edited)
                else if old(doc).None? then r == Err(Invalid) && doc == None
                else r == Err(Invalid) && doc == if accepts(old(doc).value) then old(doc) else Some(edited)
    {
      var parsed := ParseKey(key);
      if parsed.Err? {
        return Err(BadKey(parsed.error));
      }
      var edited, resolved := SetValue(Document(), parsed.value, v);
      if resolved.Err? {
        return Err(BadEdit(resolved.error));
      }
      var written := WriteAndValidate(edited);
      r := if written.Ok? then Ok(resolved.value) else Err(written.error);
    }

    /** Without a file there is nothing to remove, whatever the key. */
    method Unset(key: string) returns (r: Result<(), WriteError>)
      modifies this
      ensures old(IsValid()) ==> IsValid()
      ensures old(doc).None? ==> r == Ok(()) && doc == None
      ensures old(doc).Some? ==>
                match ParseParts(SplitDots(key))
                case Err(e) => r == Err(BadKey(e)) && doc == old(doc)
                case Ok(segments) =>
                  var (edited, removed) := RemoveAt(old(doc).value, segments);
                  if removed.Err? then r == Err(BadEdit(removed.error)) && doc == old(doc)
                  else if accepts(edited) then r == Ok(()) && doc == Some(edited)
                  else r == Err(Invalid) && doc == if accepts(old(doc).value) then old(doc) else Some(edited)
    {
      if doc.None? {
        return Ok(());
      }
      var parsed := ParseKey(key);
      if parsed.Err? {
        return Err(BadKey(parsed.error));
      }
      var edited, removed := RemoveValue(doc.value, parsed.value);
      if removed.Err? {
        return Err(BadEdit(removed.error));
      }
      r := WriteAndValidate(edited);
    }
  }
}
