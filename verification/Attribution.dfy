/** Attribution as the configuration panel computes it: rows and layers are compared by
    the text of their keys. A row is attributed to the layer that provided it unless a key
    hides a separator, or a default stands where the repository replaced an array. */
module Attribution {
  import opened Wrappers
  import opened TomlTree
  import Decimal

  datatype ConfigRow = ConfigRow(key: string, value: Value, source: Source)

  /** Keys that a layer declares, as text. */
  ghost function TextKeys(v: Value): set<string> {
    set pair <- RenderRows(Rows(v)) :: pair.0
  }

  function SourceByText(repoKeys: set<string>, userKeys: set<string>, key: string): Source {
    if key in repoKeys then Repo else if key in userKeys then User else Default
  }

  method DeclaredKeys(v: Value) returns (keys: set<string>)
    ensures keys == TextKeys(v)
  {
    var rows := FlattenValue([], "", v, []);
    keys := set pair <- rows :: pair.0;
    assert [] + RenderRows(Rows(v)) == RenderRows(Rows(v));
  }

  /** The rows of the effective configuration, each with the layer its key text is found
      in. `load` stands for reading the merged layers as a configuration, which can fail,
      and writing it out again with all defaults. */
  method ResolvedRows(g: Value, r: Value, load: Value -> Option<Value>) returns (rows: Option<seq<ConfigRow>>)
    ensures rows.Some? <==> load(Merge(g, r)).Some?
    ensures rows.Some? ==>
              var flat := RenderRows(Rows(load(Merge(g, r)).value));
              && |rows.value| == |flat|
              && forall i :: 0 <= i < |flat| ==>
                   rows.value[i] == ConfigRow(flat[i].0, flat[i].1, SourceByText(TextKeys(r), TextKeys(g), flat[i].0))
  {
    var merged := MergeToml(g, r);
    var filled := load(merged);
    if filled.None? {
      return None;
    }
    var attributed := Attribute(filled.value, g, r);
    rows := Some(attributed);
  }

  method Attribute(filled: Value, g: Value, r: Value) returns (rows: seq<ConfigRow>)
    ensures var flat := RenderRows(Rows(filled));
            && |rows| == |flat|
            && forall i :: 0 <= i < |flat| ==>
                 rows[i] == ConfigRow(flat[i].0, flat[i].1, SourceByText(TextKeys(r), TextKeys(g), flat[i].0))
  {
    var flat := FlattenValue([], "", filled, []);
    var repoKeys := DeclaredKeys(r);
    var userKeys := DeclaredKeys(g);
    rows := [];
    for i := 0 to |flat|
      invariant |rows| == i
      invariant forall j :: 0 <= j < i ==>
        rows[j] == ConfigRow(flat[j].0, flat[j].1, SourceByText(repoKeys, userKeys, flat[j].0))
    {
      rows := rows + [ConfigRow(flat[i].0, flat[i].1, SourceByText(repoKeys, userKeys, flat[i].0))];
    }
    assert [] + RenderRows(Rows(filled)) == RenderRows(Rows(filled));
  }

  lemma {:induction false} TextKeysAreDeclared(v: Value, key: string)
    ensures key in TextKeys(v) <==> exists p :: Declares(v, p) && Render(p) == key
  {
    if key in TextKeys(v) {
      var pair :| pair in RenderRows(Rows(v)) && pair.0 == key;
      RenderRowsContains(Rows(v), pair);
      var row :| row in Rows(v) && RenderRow(row) == pair;
      RowsAreLeaves(v, row);
      assert Declares(v, row.path) && Render(row.path) == key;
    }
    if p :| Declares(v, p) && Render(p) == key {
      var row := Row(p, LeafAt(v, p).value);
      RowsAreLeaves(v, row);
      RenderRowsContains(Rows(v), RenderRow(row));
    }
  }

  /** A layer declares some path with the text of `p`. */
  ghost predicate DeclaresText(v: Value, p: Path) {
    exists q :: Declares(v, q) && Render(q) == Render(p)
  }

  /** Attribution by text names the provider of a path exactly when the repository declares
      it, or declares nothing of that text and the user declares something of that text
      just where the user provides the path. */
  lemma {:induction false} TextAttributionIff(g: Value, r: Value, p: Path)
    ensures SourceByText(TextKeys(r), TextKeys(g), Render(p)) == Provider(g, r, p) <==>
            || Declares(r, p)
            || (!DeclaresText(r, p) && (DeclaresText(g, p) <==> Declares(g, p) && !Shadows(r, p)))
  {
    MergeLeaves(g, r, p);
    TextKeysAreDeclared(r, Render(p));
    TextKeysAreDeclared(g, Render(p));
  }

  /** For a merged row only another path of the repository can get in the way. */
  lemma {:induction false} MergedTextAttributionIff(g: Value, r: Value, row: Row)
    requires row in Rows(Merge(g, r))
    ensures SourceByText(TextKeys(r), TextKeys(g), Render(row.path)) == Provider(g, r, row.path) <==>
            Declares(r, row.path) || !DeclaresText(r, row.path)
  {
    var p := row.path;
    RowsAreLeaves(Merge(g, r), row);
    MergeLeaves(g, r, p);
    TextAttributionIff(g, r, p);
    assert Declares(g, p) ==> DeclaresText(g, p) by {
      assert Render(p) == Render(p);
    }
  }

  // ----- Keys that hide no separator -----

  predicate Plain(name: string) {
    name != "" && '.' !in name && '[' !in name
  }

  predicate PlainPath(p: Path) {
    forall step <- p :: step.Key? ==> Plain(step.name)
  }

  predicate PlainKeys(v: Value) {
    match v
    case Scalar(_) => true
    case Array(items) => forall item <- items :: PlainKeys(item)
    case Table(entries) => forall k <- entries :: Plain(k) && PlainKeys(entries[k])
  }

  lemma {:induction false} DeclaredIsPlain(v: Value, p: Path)
    requires PlainKeys(v) && Declares(v, p)
    ensures PlainPath(p)
    decreases |p|
  {
    if p != [] {
      match p[0]
      case Key(k) => DeclaredIsPlain(v.entries[k], p[1..]);
      case Index(i) => DeclaredIsPlain(v.items[i], p[1..]);
      assert p == [p[0]] + p[1..];
    }
  }

  predicate Separator(c: char) {
    c == '.' || c == '['
  }

  predicate NoSeparator(s: string) {
    forall c <- s :: !Separator(c)
  }

  lemma {:induction false} LastSeparatorAt(a: string, x: char, b: string)
    requires Separator(x) && NoSeparator(b)
    ensures var s := a + [x] + b;
            && Separator(s[|a|]) && (forall i :: |a| < i < |s| ==> !Separator(s[i]))
            && !NoSeparator(s)
  {
    var s := a + [x] + b;
    assert s[|a|] == x && x in s;
    forall i | |a| < i < |s|
      ensures !Separator(s[i])
    {
      assert s[i] == b[i - |a| - 1];
    }
  }

  /** A text splits at its last separator in one way only. */
  lemma {:induction false} LastSeparatorIsUnique(a: string, x: char, b: string, c: string, y: char, d: string)
    requires Separator(x) && Separator(y) && NoSeparator(b) && NoSeparator(d)
    requires a + [x] + b == c + [y] + d
    ensures a == c && x == y && b == d
  {
    LastSeparatorAt(a, x, b);
    LastSeparatorAt(c, y, d);
    var s := a + [x] + b;
    assert a == s[..|a|] && c == s[..|c|];
    assert b == s[|a| + 1..] && d == s[|c| + 1..];
  }

  lemma {:induction false} IndexTextHasNoSeparator(i: nat)
    ensures NoSeparator(Decimal.Print(i) + "]")
  {
  }

  lemma {:induction false} IndexTextIsInjective(i: nat, j: nat)
    requires Decimal.Print(i) + "]" == Decimal.Print(j) + "]"
    ensures i == j
  {
    assert Decimal.Print(i) == (Decimal.Print(i) + "]")[..|Decimal.Print(i)|];
    assert |Decimal.Print(i) + "]"| == |Decimal.Print(j) + "]"|;
    Decimal.ValueOfPrint(i);
    Decimal.ValueOfPrint(j);
  }

  /** The last step of a path as it shows at the end of the text: what follows the last
      separator, and the separator itself when there is one. */
  lemma {:induction false} ExtendEnds(prefix: string, step: Step) returns (tail: string)
    requires step.Key? ==> Plain(step.name)
    ensures NoSeparator(tail)
    ensures Extend(prefix, step) ==
            match step
            case Key(_) => if prefix == "" then tail else prefix + ['.'] + tail
            case Index(_) => prefix + ['['] + tail
    ensures match step
            case Key(name) => tail == name
            case Index(i) => tail == Decimal.Print(i) + "]"
  {
    match step
    case Key(name) =>
      tail := name;
      assert prefix + "." + name == prefix + ['.'] + name;
    case Index(i) =>
      tail := Decimal.Print(i) + "]";
      IndexTextHasNoSeparator(i);
      assert prefix + "[" + Decimal.Print(i) + "]" == prefix + ['['] + tail;
  }

  /** Text of a plain path determines the path. */
  lemma {:induction false} RenderIsInjective(p: Path, q: Path)
    requires PlainPath(p) && PlainPath(q) && Render(p) == Render(q)
    ensures p == q
    decreases |p|
  {
    if p == [] || q == [] {
      RenderIsNotEmpty(p);
      RenderIsNotEmpty(q);
      return;
    }
    var p', q', a, b := p[..|p| - 1], q[..|q| - 1], p[|p| - 1], q[|q| - 1];
    assert a in p && b in q;
    ExtendIsInjective(Render(p'), a, Render(q'), b);
    RenderIsInjective(p', q');
    assert p == p' + [a] && q == q' + [b];
  }

  lemma {:induction false} ExtendIsInjective(s: string, a: Step, t: string, b: Step)
    requires a.Key? ==> Plain(a.name)
    requires b.Key? ==> Plain(b.name)
    requires Extend(s, a) == Extend(t, b)
    ensures s == t && a == b
  {
    var ta := ExtendEnds(s, a);
    var tb := ExtendEnds(t, b);
    SameEnd(s, a, ta, t, b, tb);
  }

  lemma {:induction false} RenderIsNotEmpty(p: Path)
    requires PlainPath(p)
    ensures Render(p) == "" <==> p == []
  {
    if p != [] {
      assert p[|p| - 1] in p;
    }
  }

  /** Two texts that end in one step each, compared at their last separators. */
  lemma {:induction false} SameEnd(s: string, a: Step, ta: string, t: string, b: Step, tb: string)
    requires NoSeparator(ta) && NoSeparator(tb)
    requires a.Key? ==> Plain(a.name) && ta == a.name
    requires b.Key? ==> Plain(b.name) && tb == b.name
    requires a.Index? ==> ta == Decimal.Print(a.i) + "]"
    requires b.Index? ==> tb == Decimal.Print(b.i) + "]"
    requires (if a.Index? then s + ['['] + ta else if s == "" then ta else s + ['.'] + ta) ==
             (if b.Index? then t + ['['] + tb else if t == "" then tb else t + ['.'] + tb)
    ensures s == t && a == b
  {
    var x, y := if a.Index? then '[' else '.', if b.Index? then '[' else '.';
    LastSeparatorAt(s, x, ta);
    LastSeparatorAt(t, y, tb);
    if (a.Index? || s != "") && (b.Index? || t != "") {
      LastSeparatorIsUnique(s, x, ta, t, y, tb);
      if a.Index? {
        IndexTextIsInjective(a.i, b.i);
      }
    }
  }

  lemma {:induction false} PlainTextIsPath(v: Value, p: Path)
    requires PlainKeys(v) && PlainPath(p)
    ensures DeclaresText(v, p) <==> Declares(v, p)
  {
    if q :| Declares(v, q) && Render(q) == Render(p) {
      DeclaredIsPlain(v, q);
      RenderIsInjective(q, p);
    }
  }

  /** With plain keys in both layers, any row of plain path, filled-in defaults included, is
      attributed to its provider exactly when it is not a default shown in place of a value
      the user declared and the repository replaced together with what was around it. */
  lemma {:induction false} PlainAttributionIff(g: Value, r: Value, p: Path)
    requires PlainKeys(g) && PlainKeys(r) && PlainPath(p)
    ensures SourceByText(TextKeys(r), TextKeys(g), Render(p)) == Provider(g, r, p) <==>
            !(Declares(g, p) && !Declares(r, p) && Shadows(r, p))
  {
    TextAttributionIff(g, r, p);
    PlainTextIsPath(g, p);
    PlainTextIsPath(r, p);
  }

  /** So every row of the merge itself, defaults aside, is attributed to its layer. */
  lemma {:induction false} PlainAttributionIsRight(g: Value, r: Value, row: Row)
    requires PlainKeys(g) && PlainKeys(r) && row in Rows(Merge(g, r))
    ensures SourceByText(TextKeys(r), TextKeys(g), Render(row.path)) == Provider(g, r, row.path)
  {
    AttributionIsRight(g, r, row);
    if Declares(r, row.path) {
      DeclaredIsPlain(r, row.path);
    } else {
      RowsAreLeaves(g, row);
      DeclaredIsPlain(g, row.path);
    }
    PlainAttributionIff(g, r, row.path);
    AttributionIff(g, r, row.path);
  }

  // ----- Where it goes wrong -----

  /** Tables one inside the other, around a value. */
  function Nested(names: seq<string>, v: Value): Value {
    if names == [] then v else Table(map[names[0] := Nested(names[1..], v)])
  }

  function Keys(names: seq<string>): Path {
    seq(|names|, i requires 0 <= i < |names| => Key(names[i]))
  }

  lemma {:induction false} KeysCons(names: seq<string>)
    requires names != []
    ensures Keys(names) != [] && Keys(names)[0] == Key(names[0]) && Keys(names)[1..] == Keys(names[1..])
  {
  }

  lemma {:induction false} NestedLeaf(names: seq<string>, v: Value, p: Path)
    ensures LeafAt(Nested(names, v), Keys(names) + p) == LeafAt(v, p)
    ensures Shadows(Nested(names, v), Keys(names) + p) <==> Shadows(v, p)
  {
    if names == [] {
      assert Keys(names) + p == p;
    } else {
      KeysCons(names);
      assert (Keys(names) + p)[1..] == Keys(names[1..]) + p;
      NestedLeaf(names[1..], v, p);
    }
  }

  /** Where two nests part, the one has no say about the other. */
  lemma {:induction false} NestedParts(common: seq<string>, a: seq<string>, b: seq<string>, v: Value)
    requires a != [] && b != [] && a[0] != b[0]
    ensures LeafAt(Nested(common + a, v), Keys(common + b)) == None
    ensures !Shadows(Nested(common + a, v), Keys(common + b))
  {
    KeysCons(common + b);
    if common == [] {
      assert common + a == a && common + b == b;
    } else {
      assert (common + a)[1..] == common[1..] + a && (common + b)[1..] == common[1..] + b;
      NestedParts(common[1..], a, b, v);
    }
  }

  const MODAL := ["tui", "keys", "modal"]

  /** What the lower layer nests apart from the upper one stays its own in the merge. */
  lemma {:induction false} NestedApart(common: seq<string>, a: seq<string>, b: seq<string>, mine: Value, theirs: Value)
    requires a != [] && b != [] && a[0] != b[0] && IsLeaf(mine) && IsLeaf(theirs)
    ensures var g, r, p := Nested(common + a, mine), Nested(common + b, theirs), Keys(common + a);
            && Row(p, mine) in Rows(Merge(g, r)) && Provider(g, r, p) == User && !Declares(r, p)
            && Declares(r, Keys(common + b))
  {
    var g, r, p, q := Nested(common + a, mine), Nested(common + b, theirs), Keys(common + a), Keys(common + b);
    assert p + [] == p && q + [] == q;
    NestedLeaf(common + a, mine, []);
    NestedLeaf(common + b, theirs, []);
    NestedParts(common, b, a, theirs);
    MergeLeaves(g, r, p);
    RowsAreLeaves(Merge(g, r), Row(p, mine));
  }

  /** A dotted modal context such as `config.edit` can be written quoted or as nested tables.
      Written quoted by the user and nested by the repository, both rows have one text, and
      the user's binding is shown as the repository's. */
  lemma {:induction false} DottedKeyIsMisattributed()
    ensures var quoted, nested := MODAL + ["config.edit", "submit"], MODAL + ["config", "edit", "submit"];
            var mine, theirs := Array([Scalar("Ctrl+s")]), Array([Scalar("F2")]);
            var g, r := Nested(quoted, mine), Nested(nested, theirs);
            var row := Row(Keys(quoted), mine);
            && row in Rows(Merge(g, r)) && Provider(g, r, row.path) == User
            && SourceByText(TextKeys(r), TextKeys(g), Render(row.path)) == Repo
  {
    var a, b := ["config.edit", "submit"], ["config", "edit", "submit"];
    var mine, theirs := Array([Scalar("Ctrl+s")]), Array([Scalar("F2")]);
    assert !mine.items[0].Table? && !theirs.items[0].Table?;
    NestedApart(MODAL, a, b, mine, theirs);
    SameText();
    TextKeysAreDeclared(Nested(MODAL + b, theirs), Render(Keys(MODAL + a)));
  }

  /** A dotted name and two nested ones make one text. */
  lemma {:induction false} SameText()
    ensures Render(Keys(MODAL + ["config.edit", "submit"])) == Render(Keys(MODAL + ["config", "edit", "submit"]))
  {
    QuotedText();
    NestedText();
    RenderKeys(MODAL + ["config.edit"], "submit");
    RenderKeys(MODAL + ["config", "edit"], "submit");
    assert MODAL + ["config.edit"] + ["submit"] == MODAL + ["config.edit", "submit"];
    assert MODAL + ["config", "edit"] + ["submit"] == MODAL + ["config", "edit", "submit"];
  }

  lemma {:induction false} QuotedText()
    ensures Render(Keys(MODAL + ["config.edit"])) == Render(Keys(MODAL)) + ".config.edit"
  {
    ModalHasText();
    RenderKeys(MODAL, "config.edit");
  }

  lemma {:induction false} NestedText()
    ensures Render(Keys(MODAL + ["config", "edit"])) == Render(Keys(MODAL)) + ".config.edit"
  {
    ModalHasText();
    RenderKeys(MODAL, "config");
    RenderKeys(MODAL + ["config"], "edit");
    assert MODAL + ["config"] + ["edit"] == MODAL + ["config", "edit"];
  }

  lemma {:induction false} ModalHasText()
    ensures Render(Keys(MODAL)) != ""
  {
    RenderKeys(MODAL[..2], "modal");
    assert MODAL[..2] + ["modal"] == MODAL;
  }

  lemma {:induction false} RenderKeys(names: seq<string>, name: string)
    ensures Render(Keys(names + [name])) == Extend(Render(Keys(names)), Key(name))
    ensures name != "" ==> Render(Keys(names + [name])) != ""
  {
    assert Keys(names + [name]) == Keys(names) + [Key(name)];
    RenderDeeper(Keys(names), Key(name));
  }

  // ----- A replaced array -----

  const COPY := ["bootstrap", "copy"]

  /** The array of one copy step. */
  function OneStep(step: map<string, Value>): Value {
    Nested(COPY, Array([Table(step)]))
  }

  function StepPath(name: string): Path {
    Keys(COPY) + [Index(0), Key(name)]
  }

  lemma {:induction false} StepLeaf(step: map<string, Value>, name: string)
    requires name in step ==> step[name].Scalar?
    ensures LeafAt(OneStep(step), StepPath(name)) == if name in step then Some(step[name]) else None
    ensures Shadows(OneStep(step), StepPath(name))
  {
    var end := [Index(0), Key(name)];
    assert end[1..] == [Key(name)] && [Key(name)][1..] == [];
    var items := Array([Table(step)]);
    NestedLeaf(COPY, items, end);
    assert AllTables(items.items) && items.items[0] == Table(step);
    assert LeafAt(items, end) == LeafAt(Table(step), [Key(name)]);
    assert name in step ==> LeafAt(Table(step), [Key(name)]) == LeafAt(step[name], []);
  }

  lemma {:induction false} StepIsPlain(step: map<string, Value>)
    requires forall k <- step :: Plain(k) && step[k].Scalar?
    ensures PlainKeys(OneStep(step))
  {
    var items := Array([Table(step)]);
    assert PlainKeys(Table(step)) && PlainKeys(items);
    assert COPY[1..] == ["copy"] && ["copy"][1..] == [];
    assert Plain("copy") && Plain("bootstrap");
    assert Nested(["copy"], items) == Table(map["copy" := items]);
    assert PlainKeys(Nested(["copy"], items));
    assert OneStep(step) == Table(map["bootstrap" := Nested(["copy"], items)]);
  }

  /** The repository replaces an array of tables, and a default is filled into its table:
      the row is attributed to the user, who wrote another value into the table replaced. */
  lemma {:induction false} ReplacedArrayIsMisattributed(
    mine: map<string, Value>, theirs: map<string, Value>, name: string, value: Value)
    requires forall k <- mine :: Plain(k) && mine[k].Scalar?
    requires forall k <- theirs :: Plain(k) && theirs[k].Scalar?
    requires name in mine && name !in theirs && value.Scalar?
    ensures var g, r, filled := OneStep(mine), OneStep(theirs), OneStep(theirs[name := value]);
            var row := Row(StepPath(name), value);
            && row in Rows(filled) && Provider(g, r, row.path) == Default
            && SourceByText(TextKeys(r), TextKeys(g), Render(row.path)) == User
  {
    var g, r, p := OneStep(mine), OneStep(theirs), StepPath(name);
    StepLeaf(mine, name);
    StepLeaf(theirs, name);
    StepLeaf(theirs[name := value], name);
    RowsAreLeaves(OneStep(theirs[name := value]), Row(p, value));
    MergeLeaves(g, r, p);
    StepIsPlain(mine);
    StepIsPlain(theirs);
    PlainTextIsPath(r, p);
    PlainTextIsPath(g, p);
    TextKeysAreDeclared(r, Render(p));
    TextKeysAreDeclared(g, Render(p));
  }

  /** The required step `a` to `b` of the user, the step `c` to `d` of the repository. */
  lemma {:induction false} RequiredStepIsMisattributed()
    ensures var g := OneStep(map["from" := Scalar("a"), "to" := Scalar("b"), "required" := Scalar("true")]);
            var r := OneStep(map["from" := Scalar("c"), "to" := Scalar("d")]);
            var p := StepPath("required");
            Provider(g, r, p) == Default && SourceByText(TextKeys(r), TextKeys(g), Render(p)) == User
  {
    var mine := map["from" := Scalar("a"), "to" := Scalar("b"), "required" := Scalar("true")];
    var theirs := map["from" := Scalar("c"), "to" := Scalar("d")];
    assert Plain("from") && Plain("to") && Plain("required");
    ReplacedArrayIsMisattributed(mine, theirs, "required", Scalar("false"));
  }
}
