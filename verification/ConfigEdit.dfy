/** The in-place editor behind `gwm config set` and `unset`, and the reader behind `get`:
    lens laws over arbitrary documents. */
module ConfigEdit {
  import opened Wrappers
  import opened ConfigKeys
  import opened TomlTree

  // ----- Documents -----

  /** A node of an editable document. Inline tables and plain arrays are values: the
      editor never looks inside them. */
  datatype Item = NoItem | Val(value: Value) | Sub(table: EditTable) | Tables(tables: seq<EditTable>)

  datatype EditTable = EditTable(entries: map<string, Item>)

  const EMPTY := EditTable(map[])

  /** The value a document reads back as. */
  function TableValue(t: EditTable): Value {
    Table(map k | k in t.entries && !t.entries[k].NoItem? :: ItemValue(t.entries[k]))
  }

  function ItemValue(item: Item): Value
    requires !item.NoItem?
  {
    match item
    case Val(v) => v
    case Sub(t) => TableValue(t)
    case Tables(ts) => Array(seq(|ts|, i requires 0 <= i < |ts| => TableValue(ts[i])))
  }

  /** The value at the end of a path of single steps. */
  function At(v: Value, p: Path): Option<Value>
    decreases |p|
  {
    if p == [] then Some(v)
    else match p[0]
      case Key(k) => if v.Table? && k in v.entries then At(v.entries[k], p[1..]) else None
      case Index(i) => if v.Array? && i < |v.items| then At(v.items[i], p[1..]) else None
  }

  function StepsOf(s: Segment): Path {
    match s.index
    case Some(Number(i)) => [Key(s.name), Index(i)]
    case _ => [Key(s.name)]
  }

  function Steps(segments: seq<Segment>): Path {
    if segments == [] then [] else StepsOf(segments[0]) + Steps(segments[1..])
  }

  // ----- Reading -----

  datatype LookupError = UnknownKey | NotAnArray(name: string) | AppendInLookup | OutOfBounds(name: string, i: nat)

  function Lookup(v: Value, segments: seq<Segment>): Result<Value, LookupError> {
    if segments == [] then Ok(v)
    else
      var s := segments[0];
      if !v.Table? || s.name !in v.entries then Err(UnknownKey)
      else
        var child := v.entries[s.name];
        if s.index.None? then Lookup(child, segments[1..])
        else if !child.Array? then Err(NotAnArray(s.name))
        else if s.index.value.Append? then Err(AppendInLookup)
        else if s.index.value.i >= |child.items| then Err(OutOfBounds(s.name, s.index.value.i))
        else Lookup(child.items[s.index.value.i], segments[1..])
  }

  method LookupValue(v: Value, segments: seq<Segment>) returns (r: Result<Value, LookupError>)
    ensures r == Lookup(v, segments)
  {
    var current := v;
    for k := 0 to |segments|
      invariant Lookup(v, segments) == Lookup(current, segments[k..])
    {
      var s := segments[k];
      assert segments[k..][1..] == segments[k + 1..];
      if !current.Table? || s.name !in current.entries {
        return Err(UnknownKey);
      }
      current := current.entries[s.name];
      if s.index.Some? {
        if !current.Array? {
          return Err(NotAnArray(s.name));
        }
        if s.index.value.Append? {
          return Err(AppendInLookup);
        }
        if s.index.value.i >= |current.items| {
          return Err(OutOfBounds(s.name, s.index.value.i));
        }
        current := current.items[s.index.value.i];
      }
    }
    r := Ok(current);
  }

  predicate NoAppend(segments: seq<Segment>) {
    forall s <- segments :: s.index != Some(Append)
  }

  /** Reading by segments is reading by single steps. */
  lemma {:induction false} LookupIsAt(v: Value, segments: seq<Segment>)
    requires NoAppend(segments)
    ensures Lookup(v, segments).Ok? <==> At(v, Steps(segments)).Some?
    ensures Lookup(v, segments).Ok? ==> At(v, Steps(segments)) == Some(Lookup(v, segments).value)
    decreases |segments|
  {
    if segments != [] {
      var s, rest := segments[0], Steps(segments[1..]);
      assert s in segments;
      var p := StepsOf(s) + rest;
      if v.Table? && s.name in v.entries {
        var child := v.entries[s.name];
        if s.index.None? {
          assert p[1..] == rest;
          LookupIsAt(child, segments[1..]);
        } else {
          assert p[1..] == [Index(s.index.value.i)] + rest && p[1..][1..] == rest;
          if child.Array? && s.index.value.i < |child.items| {
            LookupIsAt(child.items[s.index.value.i], segments[1..]);
          }
        }
      }
    }
  }

  // ----- Writing -----

  datatype EditError = EmptyKey | IndexAtEnd | NotATable(name: string) | NotTables(name: string) | AppendInRemove

  function Pad(ts: seq<EditTable>, i: nat): (r: seq<EditTable>)
    ensures |r| > i
    ensures ts <= r && forall j :: |ts| <= j < |r| ==> r[j] == EMPTY
    ensures |r| == if |ts| <= i then i + 1 else |ts|
  {
    if |ts| <= i then ts + seq(i + 1 - |ts|, _ => EMPTY) else ts
  }

  /** The item of a key, created when it is missing. */
  function Entry(t: EditTable, name: string, missing: Item): Item {
    if name in t.entries && !t.entries[name].NoItem? then t.entries[name] else missing
  }

  function Put(t: EditTable, name: string, item: Item): EditTable {
    EditTable(t.entries[name := item])
  }

  function Actual(ts: seq<EditTable>, index: SegmentIndex): nat {
    match index case Number(i) => i case Append => |ts|
  }

  /** What a set leaves behind, also when it fails half way, and the key it resolved to. */
  function SetAt(t: EditTable, segments: seq<Segment>, v: Value): (EditTable, Result<seq<Segment>, EditError>)
    decreases |segments|
  {
    if segments == [] then (t, Err(EmptyKey))
    else
      var head, tail := segments[0], segments[1..];
      if tail == [] then
        if head.index.Some? then (t, Err(IndexAtEnd)) else (Put(t, head.name, Val(v)), Ok(segments))
      else if head.index.None? then
        var item := Entry(t, head.name, Sub(EMPTY));
        if !item.Sub? then (t, Err(NotATable(head.name)))
        else
          var (child, r) := SetAt(item.table, tail, v);
          (Put(t, head.name, Sub(child)), Resolve(head, r))
      else
        var item := Entry(t, head.name, Tables([]));
        if !item.Tables? then (t, Err(NotTables(head.name)))
        else
          var i := Actual(item.tables, head.index.value);
          var padded := Pad(item.tables, i);
          var (child, r) := SetAt(padded[i], tail, v);
          (Put(t, head.name, Tables(padded[i := child])), Resolve(Segment(head.name, Some(Number(i))), r))
  }

  function Resolve(head: Segment, r: Result<seq<Segment>, EditError>): Result<seq<Segment>, EditError> {
    match r
    case Err(e) => Err(e)
    case Ok(tail) => Ok([head] + tail)
  }

  function RenderResult(r: Result<seq<Segment>, EditError>): Result<string, EditError> {
    match r
    case Err(e) => Err(e)
    case Ok(segments) => Ok(RenderSegments(segments))
  }

  /** Padding pushes one empty table at a time. */
  method PadTables(before: seq<EditTable>, index: SegmentIndex) returns (tables: seq<EditTable>, actual: nat)
    ensures actual == Actual(before, index) < |tables|
    ensures tables == Pad(before, actual)
  {
    tables := before;
    match index {
    case Number(i) =>
      while |tables| <= i
        invariant before <= tables
        invariant forall j :: |before| <= j < |tables| ==> tables[j] == EMPTY
        invariant |tables| <= i + 1 || tables == before
        decreases i - |tables|
      {
        tables := tables + [EMPTY];
      }
      actual := i;
    case Append =>
      tables := tables + [EMPTY];
      actual := |tables| - 1;
    }
  }

  /** The recursive editor. The resolved key is put together as text on the way back. */
  method SetValue(t: EditTable, segments: seq<Segment>, v: Value)
    returns (out: EditTable, key: Result<string, EditError>)
    ensures out == SetAt(t, segments, v).0
    ensures key == RenderResult(SetAt(t, segments, v).1)
    decreases |segments|
  {
    out := t;
    if segments == [] {
      return t, Err(EmptyKey);
    }
    var head, tail := segments[0], segments[1..];
    if tail == [] {
      if head.index.Some? {
        return t, Err(IndexAtEnd);
      }
      return Put(t, head.name, Val(v)), Ok(RenderSegments(segments));
    }
    SetKeepsLength(t, segments, v);
    match head.index
    case None =>
      var item := Entry(t, head.name, Sub(EMPTY));
      if !item.Sub? {
        return t, Err(NotATable(head.name));
      }
      SetKeepsLength(item.table, tail, v);
      var child, tailKey := SetValue(item.table, tail, v);
      out := Put(t, head.name, Sub(child));
      if tailKey.Err? {
        return out, tailKey;
      }
      key := Ok(head.name + "." + tailKey.value);
    case Some(index) =>
      var item := Entry(t, head.name, Tables([]));
      if !item.Tables? {
        return t, Err(NotTables(head.name));
      }
      var tables, actual := PadTables(item.tables, index);
      SetKeepsLength(tables[actual], tail, v);
      var child, tailKey := SetValue(tables[actual], tail, v);
      out := Put(t, head.name, Tables(tables[actual := child]));
      if tailKey.Err? {
        return out, tailKey;
      }
      key := Ok(RenderSegment(Segment(head.name, Some(Number(actual)))) + "." + tailKey.value);
  }

  lemma {:induction false} SetKeepsLength(t: EditTable, segments: seq<Segment>, v: Value)
    ensures SetAt(t, segments, v).1.Ok? ==> |SetAt(t, segments, v).1.value| == |segments| > 0
    decreases |segments|
  {
    if |segments| > 1 {
      var head, tail := segments[0], segments[1..];
      if head.index.None? {
        if Entry(t, head.name, Sub(EMPTY)).Sub? {
          SetKeepsLength(Entry(t, head.name, Sub(EMPTY)).table, tail, v);
        }
      } else if Entry(t, head.name, Tables([])).Tables? {
        var ts := Entry(t, head.name, Tables([])).tables;
        var i := Actual(ts, head.index.value);
        SetKeepsLength(Pad(ts, i)[i], tail, v);
      }
    }
  }

  // ----- Removing -----

  function RemoveAt(t: EditTable, segments: seq<Segment>): (EditTable, Result<(), EditError>)
    decreases |segments|
  {
    if segments == [] then (t, Err(EmptyKey))
    else
      var head, tail := segments[0], segments[1..];
      if tail == [] then
        if head.index.Some? then (t, Err(IndexAtEnd)) else (EditTable(t.entries - {head.name}), Ok(()))
      else if head.index == Some(Append) then (t, Err(AppendInRemove))
      else if head.name !in t.entries then (t, Ok(()))
      else
        var item := t.entries[head.name];
        if head.index.None? then
          if !item.Sub? then (t, Ok(()))
          else
            var (child, r) := RemoveAt(item.table, tail);
            (Put(t, head.name, Sub(child)), r)
        else
          var i := head.index.value.i;
          if !item.Tables? || i >= |item.tables| then (t, Ok(()))
          else
            var (child, r) := RemoveAt(item.tables[i], tail);
            (Put(t, head.name, Tables(item.tables[i := child])), r)
  }

  // ----- Values of edited tables -----

  lemma {:induction false} AtKey(v: Value, k: string, p: Path)
    ensures At(v, [Key(k)] + p) == if v.Table? && k in v.entries then At(v.entries[k], p) else None
  {
    assert ([Key(k)] + p)[1..] == p;
  }

  lemma {:induction false} AtIndex(v: Value, i: nat, p: Path)
    ensures At(v, [Index(i)] + p) == if v.Array? && i < |v.items| then At(v.items[i], p) else None
  {
    assert ([Index(i)] + p)[1..] == p;
  }

  /** Where a path leads after one step into a table. */
  function Below(t: EditTable, name: string, p: Path): Option<Value> {
    if name in t.entries && !t.entries[name].NoItem? then At(ItemValue(t.entries[name]), p) else None
  }

  lemma {:induction false} AtBelow(t: EditTable, name: string, p: Path)
    ensures At(TableValue(t), [Key(name)] + p) == Below(t, name, p)
  {
    AtKey(TableValue(t), name, p);
  }

  lemma {:induction false} AtSub(t: EditTable, name: string, p: Path)
    requires name in t.entries && t.entries[name].Sub?
    ensures At(TableValue(t), [Key(name)] + p) == At(TableValue(t.entries[name].table), p)
  {
    AtBelow(t, name, p);
  }

  lemma {:induction false} AtTables(t: EditTable, name: string, i: nat, p: Path)
    requires name in t.entries && t.entries[name].Tables?
    ensures At(TableValue(t), [Key(name), Index(i)] + p) ==
            if i < |t.entries[name].tables| then At(TableValue(t.entries[name].tables[i]), p) else None
  {
    assert [Key(name), Index(i)] + p == [Key(name)] + ([Index(i)] + p);
    AtBelow(t, name, [Index(i)] + p);
    AtIndex(ItemValue(t.entries[name]), i, p);
  }

  lemma {:induction false} AtTablesNeedsIndex(t: EditTable, name: string, p: Path)
    requires name in t.entries && t.entries[name].Tables?
    requires p != [] && p[0].Key?
    ensures At(TableValue(t), [Key(name)] + p) == None
  {
    AtBelow(t, name, p);
  }

  lemma {:induction false} StepsCons(head: Segment, rest: seq<Segment>)
    ensures Steps([head] + rest) == StepsOf(head) + Steps(rest)
  {
    assert ([head] + rest)[1..] == rest;
  }

  // ----- One level of a set -----

  /** A set that goes through a table. */
  lemma {:induction false} SetThroughSub(t: EditTable, segments: seq<Segment>, v: Value)
    returns (sub: EditTable, rest: seq<Segment>)
    requires |segments| > 1 && segments[0].index.None? && SetAt(t, segments, v).1.Ok?
    ensures Entry(t, segments[0].name, Sub(EMPTY)) == Sub(sub)
    ensures SetAt(sub, segments[1..], v).1 == Ok(rest)
    ensures SetAt(t, segments, v).1 == Ok([segments[0]] + rest)
    ensures SetAt(t, segments, v).0 == Put(t, segments[0].name, Sub(SetAt(sub, segments[1..], v).0))
    ensures Steps([segments[0]] + rest) == [Key(segments[0].name)] + Steps(rest)
  {
    sub := Entry(t, segments[0].name, Sub(EMPTY)).table;
    rest := SetAt(sub, segments[1..], v).1.value;
    StepsCons(segments[0], rest);
  }

  /** A set that goes through an array of tables. */
  lemma {:induction false} SetThroughTables(t: EditTable, segments: seq<Segment>, v: Value)
    returns (ts: seq<EditTable>, i: nat, rest: seq<Segment>)
    requires |segments| > 1 && segments[0].index.Some? && SetAt(t, segments, v).1.Ok?
    ensures Entry(t, segments[0].name, Tables([])) == Tables(ts)
    ensures i == Actual(ts, segments[0].index.value)
    ensures SetAt(Pad(ts, i)[i], segments[1..], v).1 == Ok(rest)
    ensures SetAt(t, segments, v).1 == Ok([Segment(segments[0].name, Some(Number(i)))] + rest)
    ensures SetAt(t, segments, v).0 ==
            Put(t, segments[0].name, Tables(Pad(ts, i)[i := SetAt(Pad(ts, i)[i], segments[1..], v).0]))
    ensures Steps([Segment(segments[0].name, Some(Number(i)))] + rest) ==
            [Key(segments[0].name), Index(i)] + Steps(rest)
  {
    ts := Entry(t, segments[0].name, Tables([])).tables;
    i := Actual(ts, segments[0].index.value);
    rest := SetAt(Pad(ts, i)[i], segments[1..], v).1.value;
    StepsCons(Segment(segments[0].name, Some(Number(i))), rest);
  }

  lemma {:induction false} SetLast(t: EditTable, segments: seq<Segment>, v: Value)
    requires |segments| == 1 && SetAt(t, segments, v).1.Ok?
    ensures SetAt(t, segments, v) == (Put(t, segments[0].name, Val(v)), Ok(segments))
    ensures segments[0].index.None? && Steps(segments) == [Key(segments[0].name)]
  {
    assert segments[1..] == [];
  }

  // ----- The set is a lens -----

  /** What was set is what is read, at the key the set reports. */
  lemma {:induction false} SetThenGet(t: EditTable, segments: seq<Segment>, v: Value)
    requires SetAt(t, segments, v).1.Ok?
    ensures NoAppend(SetAt(t, segments, v).1.value)
    ensures At(TableValue(SetAt(t, segments, v).0), Steps(SetAt(t, segments, v).1.value)) == Some(v)
    decreases |segments|
  {
    var out := SetAt(t, segments, v).0;
    if |segments| == 1 {
      SetLast(t, segments, v);
      AtBelow(out, segments[0].name, []);
      assert [Key(segments[0].name)] + [] == [Key(segments[0].name)];
    } else if segments[0].index.None? {
      var sub, rest := SetThroughSub(t, segments, v);
      SetThenGet(sub, segments[1..], v);
      AtSub(out, segments[0].name, Steps(rest));
    } else {
      var ts, i, rest := SetThroughTables(t, segments, v);
      SetThenGet(Pad(ts, i)[i], segments[1..], v);
      AtTables(out, segments[0].name, i, Steps(rest));
    }
  }

  /** Neither path runs through the end of the other. */
  predicate Apart(p: Path, q: Path) {
    !(p <= q) && !(q <= p)
  }

  lemma {:induction false} PrefixBelow(step: Step, p: Path, q: Path)
    ensures [step] + p <= [step] + q <==> p <= q
  {
    if p <= q {
      assert [step] + p == ([step] + q)[..|p| + 1];
    }
    assert ([step] + p)[1..] == p && ([step] + q)[1..] == q;
  }

  lemma {:induction false} ApartBelow(step: Step, p: Path, q: Path)
    requires q != [] && q[0] == step
    ensures q == [step] + q[1..]
    ensures Apart([step] + p, q) <==> Apart(p, q[1..])
  {
    assert q == [step] + q[1..];
    PrefixBelow(step, p, q[1..]);
    PrefixBelow(step, q[1..], p);
  }

  /** `q` is an element of an array that the key `p` goes through, in front of the element
      that `p` takes. */
  predicate InFront(p: Path, q: Path) {
    var n := |q| - 1;
    && 0 <= n < |p| && q[..n] == p[..n]
    && q[n].Index? && p[n].Index? && q[n].i < p[n].i
  }

  /** A path a set left alone, or an empty table that padding put in front of the key. */
  predicate UntouchedOrPadding(before: Option<Value>, later: Option<Value>, p: Path, q: Path) {
    later == before || (before.None? && later == Some(Table(map[])) && InFront(p, q))
  }

  lemma {:induction false} FrameBelow(step: Step, before: Option<Value>, later: Option<Value>, p: Path, q: Path)
    requires UntouchedOrPadding(before, later, p, q)
    ensures UntouchedOrPadding(before, later, [step] + p, [step] + q)
  {
    if InFront(p, q) {
      var n := |q| - 1;
      assert ([step] + q)[..n + 1] == [step] + q[..n] == [step] + p[..n] == ([step] + p)[..n + 1];
    }
  }

  lemma {:induction false} OtherEntriesStay(t: EditTable, name: string, item: Item, q: Path)
    requires q != [] && q[0] != Key(name)
    ensures At(TableValue(Put(t, name, item)), q) == At(TableValue(t), q)
  {
    if q[0].Key? {
      assert q == [q[0]] + q[1..];
      AtBelow(t, q[0].name, q[1..]);
      AtBelow(Put(t, name, item), q[0].name, q[1..]);
    }
  }

  /** Nothing can be read inside an entry that is not there. */
  lemma {:induction false} MissingReadsAsEmpty(t: EditTable, name: string, p: Path)
    requires p != []
    ensures Entry(t, name, Sub(EMPTY)).Sub? ==>
              At(TableValue(t), [Key(name)] + p) == At(TableValue(Entry(t, name, Sub(EMPTY)).table), p)
    ensures Entry(t, name, Tables([])).Tables? ==>
              At(TableValue(t), [Key(name)] + p) ==
              At(TableValue(Put(t, name, Entry(t, name, Tables([])))), [Key(name)] + p)
  {
    AtBelow(t, name, p);
    AtBelow(Put(t, name, Entry(t, name, Tables([]))), name, p);
  }

  /** A set changes nothing apart from its own key, padding included: what could be read
      elsewhere reads the same, and what newly reads is an empty table in front of the one
      the key goes through. */
  lemma {:induction false} SetFrame(t: EditTable, segments: seq<Segment>, v: Value, q: Path)
    requires SetAt(t, segments, v).1.Ok?
    requires Apart(Steps(SetAt(t, segments, v).1.value), q)
    ensures UntouchedOrPadding(
              At(TableValue(t), q), At(TableValue(SetAt(t, segments, v).0), q),
              Steps(SetAt(t, segments, v).1.value), q)
    decreases |segments|, 0
  {
    var name := segments[0].name;
    if q[0] != Key(name) {
      SetTouchesOneEntry(t, segments, v);
      OtherEntriesStay(t, name, SetAt(t, segments, v).0.entries[name], q);
    } else if |segments| == 1 {
      SetLast(t, segments, v);
      ApartBelow(Key(name), [], q);
    } else if segments[0].index.None? {
      SetSubFrame(t, segments, v, q);
    } else {
      SetIndexedFrame(t, segments, v, q);
    }
  }

  lemma {:induction false} SetTouchesOneEntry(t: EditTable, segments: seq<Segment>, v: Value)
    requires SetAt(t, segments, v).1.Ok?
    ensures segments != [] && segments[0].name in SetAt(t, segments, v).0.entries
    ensures SetAt(t, segments, v).0 == Put(t, segments[0].name, SetAt(t, segments, v).0.entries[segments[0].name])
  {
  }

  lemma {:induction false} SetSubFrame(t: EditTable, segments: seq<Segment>, v: Value, q: Path)
    requires |segments| > 1 && segments[0].index.None? && SetAt(t, segments, v).1.Ok?
    requires Apart(Steps(SetAt(t, segments, v).1.value), q) && q[0] == Key(segments[0].name)
    ensures UntouchedOrPadding(
              At(TableValue(t), q), At(TableValue(SetAt(t, segments, v).0), q),
              Steps(SetAt(t, segments, v).1.value), q)
    decreases |segments| - 1, 1
  {
    var name := segments[0].name;
    var sub, rest := SetThroughSub(t, segments, v);
    ApartBelow(Key(name), Steps(rest), q);
    SetFrame(sub, segments[1..], v, q[1..]);
    MissingReadsAsEmpty(t, name, q[1..]);
    AtSub(SetAt(t, segments, v).0, name, q[1..]);
    FrameBelow(
      Key(name), At(TableValue(t), q), At(TableValue(SetAt(t, segments, v).0), q), Steps(rest), q[1..]);
  }

  lemma {:induction false} SetIndexedFrame(t: EditTable, segments: seq<Segment>, v: Value, q: Path)
    requires |segments| > 1 && segments[0].index.Some? && SetAt(t, segments, v).1.Ok?
    requires Apart(Steps(SetAt(t, segments, v).1.value), q) && q[0] == Key(segments[0].name)
    ensures UntouchedOrPadding(
              At(TableValue(t), q), At(TableValue(SetAt(t, segments, v).0), q),
              Steps(SetAt(t, segments, v).1.value), q)
    decreases |segments| - 1, 2
  {
    var name := segments[0].name;
    var ts, i, rest := SetThroughTables(t, segments, v);
    var p := ApartBelowKey(name, i, Steps(rest), q);
    MissingReadsAsEmpty(t, name, p);
    SetTablesFrame(t, name, ts, i, segments[1..], v, p);
    var key := [Index(i)] + Steps(rest);
    assert [Key(name), Index(i)] + Steps(rest) == [Key(name)] + key;
    FrameBelow(Key(name), At(TableValue(t), q), At(TableValue(SetAt(t, segments, v).0), q), key, p);
  }

  lemma {:induction false} ApartBelowKey(name: string, i: nat, p: Path, q: Path) returns (r: Path)
    requires q != [] && q[0] == Key(name) && Apart([Key(name), Index(i)] + p, q)
    ensures r != [] && q == [Key(name)] + r && Apart([Index(i)] + p, r)
  {
    r := q[1..];
    assert [Key(name), Index(i)] + p == [Key(name)] + ([Index(i)] + p);
    ApartBelow(Key(name), [Index(i)] + p, q);
  }

  lemma {:induction false} NothingInEmpty(p: Path)
    ensures At(TableValue(EMPTY), p) == if p == [] then Some(Table(map[])) else None
  {
    assert TableValue(EMPTY) == Table(map[]);
  }

  lemma {:induction false} SetTablesFrame(
    t: EditTable, name: string, ts: seq<EditTable>, i: nat, tail: seq<Segment>, v: Value, q: Path)
    requires SetAt(Pad(ts, i)[i], tail, v).1.Ok?
    requires Apart([Index(i)] + Steps(SetAt(Pad(ts, i)[i], tail, v).1.value), q)
    ensures UntouchedOrPadding(
              At(TableValue(Put(t, name, Tables(ts))), [Key(name)] + q),
              At(TableValue(Put(t, name, Tables(Pad(ts, i)[i := SetAt(Pad(ts, i)[i], tail, v).0]))), [Key(name)] + q),
              [Index(i)] + Steps(SetAt(Pad(ts, i)[i], tail, v).1.value), q)
    decreases |tail|, 1
  {
    var before := Put(t, name, Tables(ts));
    var later := Put(t, name, Tables(Pad(ts, i)[i := SetAt(Pad(ts, i)[i], tail, v).0]));
    var rest := Steps(SetAt(Pad(ts, i)[i], tail, v).1.value);
    if q[0].Key? {
      AtTablesNeedsIndex(before, name, q);
      AtTablesNeedsIndex(later, name, q);
    } else {
      var j := q[0].i;
      assert q == [Index(j)] + q[1..] && [Key(name)] + q == [Key(name), Index(j)] + q[1..];
      AtTables(before, name, j, q[1..]);
      AtTables(later, name, j, q[1..]);
      if j == i {
        ApartBelow(Index(i), rest, q);
        SetFrame(Pad(ts, i)[i], tail, v, q[1..]);
        NothingInEmpty(q[1..]);
        FrameBelow(
          Index(i), At(TableValue(Pad(ts, i)[i]), q[1..]), At(TableValue(later.entries[name].tables[i]), q[1..]),
          rest, q[1..]);
      } else if |ts| <= j < i {
        NothingInEmpty(q[1..]);
        assert q[1..] == [] ==> InFront([Index(i)] + rest, q);
      }
    }
  }

  /** Setting twice is setting once: the second value, the same key. */
  lemma {:induction false} SetTwice(t: EditTable, segments: seq<Segment>, v: Value, w: Value)
    requires SetAt(t, segments, v).1.Ok?
    ensures SetAt(SetAt(t, segments, v).0, SetAt(t, segments, v).1.value, w) == SetAt(t, segments, w)
    decreases |segments|, 0
  {
    SetKeepsLength(t, segments, v);
    if |segments| == 1 {
      SetLast(t, segments, v);
      assert t.entries[segments[0].name := Val(v)][segments[0].name := Val(w)] == t.entries[segments[0].name := Val(w)];
    } else if segments[0].index.None? {
      var sub, rest := SetThroughSub(t, segments, v);
      SetTwice(sub, segments[1..], v, w);
      SetKeepsLength(sub, segments[1..], v);
      assert ([segments[0]] + rest)[1..] == rest;
      var child := SetAt(sub, segments[1..], w).0;
      assert Put(Put(t, segments[0].name, Sub(SetAt(sub, segments[1..], v).0)), segments[0].name, Sub(child))
          == Put(t, segments[0].name, Sub(child));
    } else {
      SetTablesTwice(t, segments, v, w);
    }
  }

  lemma {:induction false} SetTablesTwice(t: EditTable, segments: seq<Segment>, v: Value, w: Value)
    requires |segments| > 1 && segments[0].index.Some? && SetAt(t, segments, v).1.Ok?
    ensures SetAt(SetAt(t, segments, v).0, SetAt(t, segments, v).1.value, w) == SetAt(t, segments, w)
    decreases |segments| - 1, 1
  {
    var name := segments[0].name;
    var ts, i, rest := SetThroughTables(t, segments, v);
    var padded := Pad(ts, i);
    SetTwice(padded[i], segments[1..], v, w);
    SetKeepsLength(padded[i], segments[1..], v);
    var first, second := SetAt(padded[i], segments[1..], v).0, SetAt(padded[i], segments[1..], w).0;
    assert ([Segment(name, Some(Number(i)))] + rest)[1..] == rest;
    assert Pad(padded[i := first], i) == padded[i := first];
    assert padded[i := first][i := second] == padded[i := second];
    assert Put(Put(t, name, Tables(padded[i := first])), name, Tables(padded[i := second]))
        == Put(t, name, Tables(padded[i := second]));
  }

  /** The document item a key leads to, when every step on the way is there. */
  function ItemAt(t: EditTable, segments: seq<Segment>): Option<Item>
    decreases |segments|
  {
    if segments == [] || segments[0].name !in t.entries then None
    else
      var s, item := segments[0], t.entries[segments[0].name];
      if |segments| == 1 then if s.index.None? then Some(item) else None
      else if s.index.None? then if item.Sub? then ItemAt(item.table, segments[1..]) else None
      else if item.Tables? && s.index.value.Number? && s.index.value.i < |item.tables|
      then ItemAt(item.tables[s.index.value.i], segments[1..])
      else None
  }

  /** Setting what is already there changes nothing. */
  lemma {:induction false} SetSame(t: EditTable, segments: seq<Segment>, v: Value)
    requires ItemAt(t, segments) == Some(Val(v))
    ensures SetAt(t, segments, v) == (t, Ok(segments))
    decreases |segments|
  {
    var name := segments[0].name;
    var item := t.entries[name];
    assert t.entries[name := item] == t.entries;
    if |segments| > 1 {
      assert segments == [segments[0]] + segments[1..];
      if segments[0].index.None? {
        SetSame(item.table, segments[1..], v);
      } else {
        var i := segments[0].index.value.i;
        SetSame(item.tables[i], segments[1..], v);
        assert item.tables[i := item.tables[i]] == item.tables;
        assert Segment(name, Some(Number(i))) == segments[0];
      }
    }
  }

  /** Array lengths the machine can index. */
  predicate Fits(t: EditTable) {
    forall k <- t.entries ::
      match t.entries[k]
      case Sub(s) => Fits(s)
      case Tables(ts) => |ts| <= USIZE_MAX && forall s <- ts :: Fits(s)
      case _ => true
  }

  /** The key a set reports is well formed, so its text parses back to it. */
  lemma {:induction false} SetReportsAKey(t: EditTable, segments: seq<Segment>, v: Value)
    requires IsKey(segments) && Fits(t) && SetAt(t, segments, v).1.Ok?
    ensures IsKey(SetAt(t, segments, v).1.value)
    decreases |segments|
  {
    if |segments| == 1 {
      SetLast(t, segments, v);
    } else if segments[0].index.None? {
      var sub, rest := SetThroughSub(t, segments, v);
      SetReportsAKey(sub, segments[1..], v);
    } else {
      var ts, i, rest := SetThroughTables(t, segments, v);
      assert segments[0] in segments;
      assert Fits(Pad(ts, i)[i]) by {
        if i < |ts| { assert ts[i] in ts; }
      }
      SetReportsAKey(Pad(ts, i)[i], segments[1..], v);
    }
  }

  /** The whole round trip: the text a set prints, parsed and looked up, reads the value. */
  lemma {:induction false} SetPrintsReadableKey(t: EditTable, segments: seq<Segment>, v: Value)
    requires IsKey(segments) && Fits(t) && SetAt(t, segments, v).1.Ok?
    ensures var (out, r) := SetAt(t, segments, v);
            var parsed := ParseParts(SplitDots(RenderSegments(r.value)));
            parsed.Ok? && Lookup(TableValue(out), parsed.value) == Ok(v)
  {
    SetReportsAKey(t, segments, v);
    ParseRendered(SetAt(t, segments, v).1.value);
    SetThenGet(t, segments, v);
    LookupIsAt(TableValue(SetAt(t, segments, v).0), SetAt(t, segments, v).1.value);
  }
}
