/** When `set`, `unset` and `get` succeed, which error they give otherwise, and what a failed
    edit may have touched. All of it is read off the entries of the document. */
module ConfigOutcome {
  import opened Wrappers
  import Decimal
  import opened TomlTree
  import opened ConfigKeys
  import opened ConfigEdit
  import opened ConfigRemove

  // ----- What a key meets -----

  /** The item that segment `n` of a key meets, when there is one and the segments before it
      lead there. */
  function Met(t: EditTable, segments: seq<Segment>, n: nat): Option<Item>
    requires n < |segments|
    decreases n
  {
    var head := segments[0];
    if head.name !in t.entries || t.entries[head.name].NoItem? then None
    else if n == 0 then Some(t.entries[head.name])
    else match t.entries[head.name]
      case Sub(table) => if head.index.None? then Met(table, segments[1..], n - 1) else None
      case Tables(ts) =>
        if head.index.Some? && head.index.value.Number? && head.index.value.i < |ts|
        then Met(ts[head.index.value.i], segments[1..], n - 1) else None
      case _ => None
  }

  /** A segment can go on into nothing, or into what it asks for: a table without an index,
      an array of tables with one. */
  predicate GoesOn(s: Segment, met: Option<Item>) {
    met.None? || (if s.index.None? then met.value.Sub? else met.value.Tables?)
  }

  predicate AllGoOn(t: EditTable, segments: seq<Segment>) {
    forall n :: 0 <= n < |segments| - 1 ==> GoesOn(segments[n], Met(t, segments, n))
  }

  /** Segment `n` is the first that cannot go on. */
  predicate FirstStop(t: EditTable, segments: seq<Segment>, n: nat) {
    && n < |segments| - 1 && !GoesOn(segments[n], Met(t, segments, n))
    && forall m :: 0 <= m < n ==> GoesOn(segments[m], Met(t, segments, m))
  }

  lemma {:induction false} NothingMet(segments: seq<Segment>, n: nat)
    requires n < |segments|
    ensures Met(EMPTY, segments, n) == None
  {
  }

  /** The table a set goes on in: the one that is there, or an empty one. */
  function Child(t: EditTable, segments: seq<Segment>): EditTable
    requires |segments| > 1
  {
    match Met(t, segments, 0)
    case Some(Sub(table)) => table
    case Some(Tables(ts)) =>
      if segments[0].index.Some? && segments[0].index.value.Number? && segments[0].index.value.i < |ts|
      then ts[segments[0].index.value.i] else EMPTY
    case _ => EMPTY
  }

  lemma {:induction false} MetBelow(t: EditTable, segments: seq<Segment>, n: nat)
    requires 0 < n < |segments| && GoesOn(segments[0], Met(t, segments, 0))
    ensures Met(t, segments, n) == Met(Child(t, segments), segments[1..], n - 1)
  {
    NothingMet(segments[1..], n - 1);
  }

  /** One level of a set: refused at its head, or whatever the rest of the key gives in the
      table below. */
  lemma {:induction false} SetOneLevel(t: EditTable, segments: seq<Segment>, v: Value)
    requires |segments| > 1
    ensures var head, r := segments[0], SetAt(t, segments, v).1;
            if !GoesOn(head, Met(t, segments, 0)) then
              SetAt(t, segments, v) ==
                (t, Err(if head.index.None? then NotATable(head.name) else NotTables(head.name)))
            else
              var below := SetAt(Child(t, segments), segments[1..], v).1;
              (r.Ok? <==> below.Ok?) && (r.Err? ==> r == Err(below.error))
  {
    assert Met(t, segments, 0) ==
           if segments[0].name in t.entries && !t.entries[segments[0].name].NoItem?
           then Some(t.entries[segments[0].name]) else None;
  }

  // ----- Setting -----

  /** A set succeeds exactly when the key ends in a field and every earlier segment meets
      nothing, or a table or an array of tables as it asks for. */
  lemma {:induction false} SetSucceedsIff(t: EditTable, segments: seq<Segment>, v: Value)
    ensures SetAt(t, segments, v).1.Ok? <==>
            segments != [] && segments[|segments| - 1].index.None? && AllGoOn(t, segments)
    decreases |segments|
  {
    if |segments| > 1 {
      var rest := segments[1..];
      SetOneLevel(t, segments, v);
      if GoesOn(segments[0], Met(t, segments, 0)) {
        SetSucceedsIff(Child(t, segments), rest, v);
        AllGoOnBelow(t, segments);
      }
    }
  }

  lemma {:induction false} AllGoOnBelow(t: EditTable, segments: seq<Segment>)
    requires |segments| > 1 && GoesOn(segments[0], Met(t, segments, 0))
    ensures AllGoOn(t, segments) <==> AllGoOn(Child(t, segments), segments[1..])
  {
    var child, rest := Child(t, segments), segments[1..];
    forall n | 0 < n < |segments|
      ensures Met(t, segments, n) == Met(child, rest, n - 1) && segments[n] == rest[n - 1]
    {
      MetBelow(t, segments, n);
    }
    if AllGoOn(child, rest) {
      forall n | 0 < n < |segments| - 1
        ensures GoesOn(segments[n], Met(t, segments, n))
      {
        assert GoesOn(rest[n - 1], Met(child, rest, n - 1));
      }
    }
    if AllGoOn(t, segments) {
      forall n | 0 <= n < |rest| - 1
        ensures GoesOn(rest[n], Met(child, rest, n))
      {
        assert GoesOn(segments[n + 1], Met(t, segments, n + 1));
      }
    }
  }

  /** Otherwise the first segment that cannot go on gives the error, and an index at the end
      does when all of them can. */
  lemma {:induction false} SetFailsWith(t: EditTable, segments: seq<Segment>, v: Value, n: nat)
    ensures segments == [] ==> SetAt(t, segments, v) == (t, Err(EmptyKey))
    ensures FirstStop(t, segments, n) ==>
              SetAt(t, segments, v).1 ==
              Err(if segments[n].index.None? then NotATable(segments[n].name) else NotTables(segments[n].name))
    ensures segments != [] && AllGoOn(t, segments) && segments[|segments| - 1].index.Some? ==>
              SetAt(t, segments, v).1 == Err(IndexAtEnd)
    decreases |segments|
  {
    if |segments| > 1 {
      SetOneLevel(t, segments, v);
      if GoesOn(segments[0], Met(t, segments, 0)) {
        AllGoOnBelow(t, segments);
        SetFailsWith(Child(t, segments), segments[1..], v, if n > 0 then n - 1 else 0);
        if n > 0 && FirstStop(t, segments, n) {
          FirstStopBelow(t, segments, n);
        }
      }
    }
  }

  lemma {:induction false} FirstStopBelow(t: EditTable, segments: seq<Segment>, n: nat)
    requires n > 0 && FirstStop(t, segments, n)
    ensures FirstStop(Child(t, segments), segments[1..], n - 1)
  {
    var child, rest := Child(t, segments), segments[1..];
    MetBelow(t, segments, n);
    forall m | 0 <= m < n - 1
      ensures GoesOn(rest[m], Met(child, rest, m))
    {
      MetBelow(t, segments, m + 1);
      assert GoesOn(segments[m + 1], Met(t, segments, m + 1));
    }
  }

  /** A successful set keeps the names and the indices of its key, and resolves `[+]` to the
      number of tables the array has. */
  lemma {:induction false} SetResolves(t: EditTable, segments: seq<Segment>, v: Value, n: nat)
    requires SetAt(t, segments, v).1.Ok? && n < |segments|
    ensures var resolved, met := SetAt(t, segments, v).1.value, Met(t, segments, n);
            && |resolved| == |segments| && resolved[n].name == segments[n].name
            && (met.Some? && segments[n].index == Some(Append) ==> met.value.Tables?)
            && resolved[n].index ==
               if segments[n].index != Some(Append) then segments[n].index
               else Some(Number(if met.Some? then |met.value.tables| else 0))
    decreases |segments|
  {
    SetKeepsLength(t, segments, v);
    SetSucceedsIff(t, segments, v);
    if |segments| > 1 {
      SetOneLevel(t, segments, v);
      assert GoesOn(segments[0], Met(t, segments, 0));
      if n > 0 {
        MetBelow(t, segments, n);
        SetResolves(Child(t, segments), segments[1..], v, n - 1);
        SetResolvesBelow(t, segments, v);
      } else {
        SetResolvesHead(t, segments, v);
      }
    }
  }

  lemma {:induction false} SetResolvesBelow(t: EditTable, segments: seq<Segment>, v: Value)
    requires |segments| > 1 && SetAt(t, segments, v).1.Ok? && GoesOn(segments[0], Met(t, segments, 0))
    ensures SetAt(Child(t, segments), segments[1..], v).1 == Ok(SetAt(t, segments, v).1.value[1..])
  {
    if segments[0].index.None? {
      var sub, rest := SetThroughSub(t, segments, v);
      assert ([segments[0]] + rest)[1..] == rest;
    } else {
      var ts, i, rest := SetThroughTables(t, segments, v);
      assert ([Segment(segments[0].name, Some(Number(i)))] + rest)[1..] == rest;
    }
  }

  lemma {:induction false} SetResolvesHead(t: EditTable, segments: seq<Segment>, v: Value)
    requires |segments| > 1 && SetAt(t, segments, v).1.Ok?
    ensures var head, met := SetAt(t, segments, v).1.value[0], Met(t, segments, 0);
            && head.name == segments[0].name
            && (met.Some? && segments[0].index == Some(Append) ==> met.value.Tables?)
            && head.index ==
               if segments[0].index != Some(Append) then segments[0].index
               else Some(Number(if met.Some? then |met.value.tables| else 0))
  {
    if segments[0].index.None? {
      var sub, rest := SetThroughSub(t, segments, v);
    } else {
      var ts, i, rest := SetThroughTables(t, segments, v);
    }
  }

  // ----- A failed set -----

  /** Everything in `a` is in `b` as well: scalars the same, tables and arrays longer at most. */
  predicate Grows(a: Value, b: Value)
    decreases a
  {
    match a
    case Scalar(_) => b == a
    case Table(entries) =>
      b.Table? && forall k <- entries :: k in b.entries && Grows(entries[k], b.entries[k])
    case Array(items) =>
      b.Array? && |items| <= |b.items| && forall i :: 0 <= i < |items| ==> Grows(items[i], b.items[i])
  }

  lemma {:induction false} GrowsSelf(a: Value)
    ensures Grows(a, a)
    decreases a
  {
    match a
    case Scalar(_) =>
    case Table(entries) =>
      forall k <- entries
        ensures Grows(entries[k], entries[k])
      {
        GrowsSelf(entries[k]);
      }
    case Array(items) =>
      forall i | 0 <= i < |items|
        ensures Grows(items[i], items[i])
      {
        GrowsSelf(items[i]);
      }
  }

  /** What could be read can still be read, and a scalar reads the same. */
  lemma {:induction false} GrowsAt(a: Value, b: Value, q: Path)
    requires Grows(a, b) && At(a, q).Some?
    ensures At(b, q).Some? && Grows(At(a, q).value, At(b, q).value)
    ensures At(a, q).value.Scalar? ==> At(b, q) == At(a, q)
    decreases |q|
  {
    if q != [] {
      match q[0]
      case Key(k) => GrowsAt(a.entries[k], b.entries[k], q[1..]);
      case Index(i) => GrowsAt(a.items[i], b.items[i], q[1..]);
    }
  }

  lemma {:induction false} PutGrows(t: EditTable, name: string, item: Item)
    requires !item.NoItem?
    requires name in t.entries && !t.entries[name].NoItem? ==> Grows(ItemValue(t.entries[name]), ItemValue(item))
    ensures Grows(TableValue(t), TableValue(Put(t, name, item)))
  {
    forall k <- TableValue(t).entries
      ensures Grows(TableValue(t).entries[k], TableValue(Put(t, name, item)).entries[k])
    {
      GrowsSelf(TableValue(t).entries[k]);
    }
  }

  /** A set that fails half way has at most added empty tables on its way: nothing that could
      be read is gone, and every scalar reads as before. */
  lemma {:induction false} FailedSetGrows(t: EditTable, segments: seq<Segment>, v: Value)
    requires SetAt(t, segments, v).1.Err?
    ensures Grows(TableValue(t), TableValue(SetAt(t, segments, v).0))
    decreases |segments|
  {
    GrowsSelf(TableValue(t));
    if |segments| > 1 {
      SetOneLevel(t, segments, v);
      if GoesOn(segments[0], Met(t, segments, 0)) {
        FailedSetGrows(Child(t, segments), segments[1..], v);
        FailedBelow(t, segments, v);
      }
    }
  }

  lemma {:induction false} FailedBelow(t: EditTable, segments: seq<Segment>, v: Value)
    requires |segments| > 1 && GoesOn(segments[0], Met(t, segments, 0))
    requires var child := Child(t, segments);
             Grows(TableValue(child), TableValue(SetAt(child, segments[1..], v).0))
    ensures Grows(TableValue(t), TableValue(SetAt(t, segments, v).0))
  {
    var head, child := segments[0], Child(t, segments);
    var edited := SetAt(child, segments[1..], v).0;
    if head.index.None? {
      PutGrows(t, head.name, Sub(edited));
    } else {
      var ts := if Met(t, segments, 0).Some? then Met(t, segments, 0).value.tables else [];
      var i := Actual(ts, head.index.value);
      TablesGrow(ts, i, edited);
      PutGrows(t, head.name, Tables(Pad(ts, i)[i := edited]));
    }
  }

  lemma {:induction false} TablesGrow(ts: seq<EditTable>, i: nat, edited: EditTable)
    requires i < |ts| ==> Grows(TableValue(ts[i]), TableValue(edited))
    ensures Grows(ItemValue(Tables(ts)), ItemValue(Tables(Pad(ts, i)[i := edited])))
  {
    forall j | 0 <= j < |ts|
      ensures Grows(TableValue(ts[j]), TableValue(Pad(ts, i)[i := edited][j]))
    {
      GrowsSelf(TableValue(ts[j]));
    }
  }

  /** A failed set is not always without a trace: it may have created a table on its way. */
  lemma {:induction false} FailedSetMayAddTables(v: Value)
    ensures var segments := [Segment("a", None), Segment("b", Some(Number(0)))];
            && SetAt(EMPTY, segments, v).1 == Err(IndexAtEnd)
            && At(TableValue(EMPTY), [Key("a")]) == None
            && At(TableValue(SetAt(EMPTY, segments, v).0), [Key("a")]) == Some(Table(map[]))
  {
    var last := [Segment("b", Some(Number(0)))];
    assert [Segment("a", None), Segment("b", Some(Number(0)))][1..] == last && last[1..] == [];
    var out := SetAt(EMPTY, [Segment("a", None), Segment("b", Some(Number(0)))], v).0;
    assert out == Put(EMPTY, "a", Sub(EMPTY));
    assert [Key("a")] + [] == [Key("a")];
    AtBelow(EMPTY, "a", []);
    AtBelow(out, "a", []);
  }

  // ----- Removing -----

  /** A removal goes on only into a table, or into a table of an array that is there. */
  predicate LeadsOn(s: Segment, met: Option<Item>) {
    met.Some? &&
    match s.index
    case None => met.value.Sub?
    case Some(Number(i)) => met.value.Tables? && i < |met.value.tables|
    case Some(Append) => false
  }

  /** Segment `n` is one that no removal accepts, and is reached. */
  predicate OffendsAt(t: EditTable, segments: seq<Segment>, n: nat) {
    && n < |segments|
    && (if n == |segments| - 1 then segments[n].index.Some? else segments[n].index == Some(Append))
    && forall m :: 0 <= m < n ==> LeadsOn(segments[m], Met(t, segments, m))
  }

  lemma {:induction false} OffendsBelow(t: EditTable, segments: seq<Segment>, n: nat)
    requires 0 < n < |segments| && LeadsOn(segments[0], Met(t, segments, 0))
    ensures OffendsAt(t, segments, n) <==> OffendsAt(Child(t, segments), segments[1..], n - 1)
  {
    var child, rest := Child(t, segments), segments[1..];
    forall m | 0 < m < |segments|
      ensures Met(t, segments, m) == Met(child, rest, m - 1)
    {
      MetBelow(t, segments, m);
    }
    if OffendsAt(child, rest, n - 1) {
      forall m | 0 < m < n
        ensures LeadsOn(segments[m], Met(t, segments, m))
      {
        assert LeadsOn(rest[m - 1], Met(child, rest, m - 1));
      }
    }
    if OffendsAt(t, segments, n) {
      forall m | 0 <= m < n - 1
        ensures LeadsOn(rest[m], Met(child, rest, m))
      {
        assert LeadsOn(segments[m + 1], Met(t, segments, m + 1));
      }
    }
  }

  lemma {:induction false} RemoveOneLevel(t: EditTable, segments: seq<Segment>)
    requires |segments| > 1
    ensures segments[0].index == Some(Append) ==> RemoveAt(t, segments) == (t, Err(AppendInRemove))
    ensures segments[0].index != Some(Append) && !LeadsOn(segments[0], Met(t, segments, 0)) ==>
              RemoveAt(t, segments) == (t, Ok(()))
    ensures LeadsOn(segments[0], Met(t, segments, 0)) ==>
              var below := RemoveAt(Child(t, segments), segments[1..]);
              && RemoveAt(t, segments).1 == below.1
              && (below.0 == Child(t, segments) ==> RemoveAt(t, segments).0 == t)
  {
    var name := segments[0].name;
    if LeadsOn(segments[0], Met(t, segments, 0)) {
      var item := t.entries[name];
      assert Put(t, name, item) == t;
      if item.Tables? {
        var i := segments[0].index.value.i;
        assert item.tables[i := item.tables[i]] == item.tables;
      }
    }
  }

  /** An unset that reaches an index at the end of its key, or a `[+]` before it, fails and
      changes nothing; so does one with an empty key. */
  lemma {:induction false} RemoveFailsWith(t: EditTable, segments: seq<Segment>, n: nat)
    ensures segments == [] ==> RemoveAt(t, segments) == (t, Err(EmptyKey))
    ensures OffendsAt(t, segments, n) ==>
              RemoveAt(t, segments) == (t, Err(if n == |segments| - 1 then IndexAtEnd else AppendInRemove))
    decreases |segments|
  {
    if OffendsAt(t, segments, n) && |segments| > 1 {
      RemoveOneLevel(t, segments);
      if n > 0 {
        assert LeadsOn(segments[0], Met(t, segments, 0));
        OffendsBelow(t, segments, n);
        RemoveFailsWith(Child(t, segments), segments[1..], n - 1);
      }
    }
  }

  /** Every other unset succeeds. */
  lemma {:induction false} RemoveSucceeds(t: EditTable, segments: seq<Segment>)
    requires segments != [] && forall n: nat :: !OffendsAt(t, segments, n)
    ensures RemoveAt(t, segments).1 == Ok(())
    decreases |segments|
  {
    assert !OffendsAt(t, segments, 0);
    if |segments| > 1 {
      RemoveOneLevel(t, segments);
      if LeadsOn(segments[0], Met(t, segments, 0)) {
        forall n: nat
          ensures !OffendsAt(Child(t, segments), segments[1..], n)
        {
          if n + 1 < |segments| {
            OffendsBelow(t, segments, n + 1);
            assert !OffendsAt(t, segments, n + 1);
          }
        }
        RemoveSucceeds(Child(t, segments), segments[1..]);
      }
    }
  }

  // ----- Reading -----

  /** Reading goes on from where the first segments lead. */
  lemma {:induction false} LookupFrom(v: Value, a: seq<Segment>, b: seq<Segment>)
    ensures Lookup(v, a + b) == if Lookup(v, a).Ok? then Lookup(Lookup(v, a).value, b) else Lookup(v, a)
    decreases |a|
  {
    if a == [] {
      assert a + b == b;
    } else {
      assert (a + b)[1..] == a[1..] + b;
      if v.Table? && a[0].name in v.entries {
        var u := v.entries[a[0].name];
        match a[0].index
        case None => LookupFrom(u, a[1..], b);
        case Some(Append) =>
        case Some(Number(i)) => if u.Array? && i < |u.items| { LookupFrom(u.items[i], a[1..], b); }
      }
    }
  }

  /** The error of the segment that does not lead on, whatever stands behind it. */
  lemma {:induction false} LookupFailsWith(v: Value, a: seq<Segment>, s: Segment, b: seq<Segment>)
    requires Lookup(v, a).Ok?
    ensures var u, r := Lookup(v, a).value, Lookup(v, a + ([s] + b));
            if !u.Table? || s.name !in u.entries then r == Err(UnknownKey)
            else if s.index.Some? && !u.entries[s.name].Array? then r == Err(NotAnArray(s.name))
            else if s.index == Some(Append) then r == Err(AppendInLookup)
            else s.index.Some? && s.index.value.i >= |u.entries[s.name].items| ==>
                   r == Err(OutOfBounds(s.name, s.index.value.i))
  {
    LookupFrom(v, a, [s] + b);
    assert ([s] + b)[1..] == b;
  }

  // ----- Keys of rows -----

  /** The text of a row's key is the key that `get`, `set` and `unset` understand. */
  lemma {:induction false} RowKeyIsConfigKey(segments: seq<Segment>)
    requires IsKey(segments) && NoAppend(segments)
    ensures Render(Steps(segments)) == RenderSegments(segments)
    ensures Render(Steps(segments)) != ""
  {
    var init, last := segments[..|segments| - 1], segments[|segments| - 1];
    assert segments == init + [last];
    StepsAppend(init, last);
    RenderLast(Steps(init), last);
    if init == [] {
      assert segments == [last];
    } else {
      assert last in segments && forall s <- init :: s in segments;
      RowKeyIsConfigKey(init);
      RenderSegmentsAppend(init, last);
    }
  }

  lemma {:induction false} StepsAppend(a: seq<Segment>, s: Segment)
    ensures Steps(a + [s]) == Steps(a) + StepsOf(s)
  {
    if a == [] {
      assert a + [s] == [s] && [s][1..] == [];
    } else {
      assert (a + [s])[1..] == a[1..] + [s];
      StepsAppend(a[1..], s);
    }
  }

  lemma {:induction false} RenderLast(p: Path, s: Segment)
    requires IsSegment(s) && s.index != Some(Append)
    ensures Render(p + StepsOf(s)) == (if Render(p) == "" then "" else Render(p) + ".") + RenderSegment(s)
  {
    var front := if Render(p) == "" then "" else Render(p) + ".";
    RenderDeeper(p, Key(s.name));
    assert Render(p + [Key(s.name)]) == front + s.name;
    if s.index.Some? {
      var i := s.index.value.i;
      assert p + StepsOf(s) == p + [Key(s.name)] + [Index(i)];
      RenderDeeper(p + [Key(s.name)], Index(i));
      IndexBehind(front, s.name, i);
    }
  }

  lemma {:induction false} IndexBehind(front: string, name: string, i: nat)
    ensures Extend(front + name, Index(i)) == front + RenderSegment(Segment(name, Some(Number(i))))
  {
    var text := Decimal.Print(i);
    assert front + name + "[" + text + "]" == front + (name + "[" + text + "]");
  }

  lemma {:induction false} RenderSegmentsAppend(a: seq<Segment>, s: Segment)
    requires a != []
    ensures RenderSegments(a + [s]) == RenderSegments(a) + "." + RenderSegment(s)
  {
    if |a| == 1 {
      assert a + [s] == [a[0], s] && [a[0], s][1..] == [s] && a == [a[0]];
    } else {
      assert (a + [s])[1..] == a[1..] + [s];
      RenderSegmentsAppend(a[1..], s);
    }
  }
}
