/** Configuration key paths: `a.b[2].c` and `a[+].c`, parsed and printed. */
module ConfigKeys {
  import opened Wrappers
  import opened Text
  import Decimal

  datatype SegmentIndex = Number(i: nat) | Append

  datatype Segment = Segment(name: string, index: Option<SegmentIndex>)

  datatype KeyError =
    | EmptySegment
    | InvalidArraySegment(raw: string)
    | InvalidIndex(text: string)
    | InvalidSegment(raw: string)

  const USIZE_MAX: nat := 0xffff_ffff_ffff_ffff

  predicate IsNameChar(c: char) {
    c == '_' || '0' <= c <= '9' || 'A' <= c <= 'Z' || 'a' <= c <= 'z'
  }

  predicate IsName(s: string) {
    s != "" && forall c <- s :: IsNameChar(c)
  }

  // ----- Printing -----

  function RenderSegment(s: Segment): string {
    match s.index
    case None => s.name
    case Some(Number(i)) => s.name + "[" + Decimal.Print(i) + "]"
    case Some(Append) => s.name + "[+]"
  }

  function RenderSegments(segments: seq<Segment>): string {
    if segments == [] then ""
    else if |segments| == 1 then RenderSegment(segments[0])
    else RenderSegment(segments[0]) + "." + RenderSegments(segments[1..])
  }

  // ----- Parsing -----

  function SplitDots(key: string): (parts: seq<string>)
    ensures |parts| > 0
  {
    var dot := Find(key, '.');
    if dot == |key| then [key] else [key[..dot]] + SplitDots(key[dot + 1..])
  }

  function ParseIndex(text: string): Result<SegmentIndex, KeyError> {
    if text == "+" then Ok(Append)
    else match Decimal.ParseUnsigned(text, USIZE_MAX)
      case Some(i) => Ok(Number(i))
      case None => Err(InvalidIndex(text))
  }

  function ParseSegment(raw: string): Result<Segment, KeyError> {
    if raw == "" then Err(EmptySegment)
    else
      var open := Find(raw, '[');
      if open == |raw| then
        if IsName(raw) then Ok(Segment(raw, None)) else Err(InvalidSegment(raw))
      else if raw[|raw| - 1] != ']' then Err(InvalidArraySegment(raw))
      else match ParseIndex(raw[open + 1..|raw| - 1])
        case Err(e) => Err(e)
        case Ok(index) =>
          if IsName(raw[..open]) then Ok(Segment(raw[..open], Some(index))) else Err(InvalidSegment(raw))
  }

  function Prepend(segments: seq<Segment>, r: Result<seq<Segment>, KeyError>): Result<seq<Segment>, KeyError> {
    match r
    case Err(e) => Err(e)
    case Ok(rest) => Ok(segments + rest)
  }

  /** The first segment that does not parse decides the error. */
  function ParseParts(parts: seq<string>): Result<seq<Segment>, KeyError> {
    if parts == [] then Ok([])
    else match ParseSegment(parts[0])
      case Err(e) => Err(e)
      case Ok(segment) => Prepend([segment], ParseParts(parts[1..]))
  }

  method ParseKey(key: string) returns (r: Result<seq<Segment>, KeyError>)
    ensures r == ParseParts(SplitDots(key))
  {
    var segments := [];
    var parts := SplitDots(key);
    assert parts[0..] == parts;
    PrependNothing(ParseParts(parts));
    for i := 0 to |parts|
      invariant ParseParts(parts) == Prepend(segments, ParseParts(parts[i..]))
    {
      assert parts[i..][1..] == parts[i + 1..];
      match ParseSegment(parts[i])
      case Err(e) => return Err(e);
      case Ok(segment) =>
        PrependTwice(segments, [segment], ParseParts(parts[i + 1..]));
        segments := segments + [segment];
    }
    assert segments + [] == segments;
    r := Ok(segments);
  }

  lemma {:induction false} PrependNothing(r: Result<seq<Segment>, KeyError>)
    ensures Prepend([], r) == r
  {
    if r.Ok? {
      assert [] + r.value == r.value;
    }
  }

  lemma {:induction false} PrependTwice(a: seq<Segment>, b: seq<Segment>, r: Result<seq<Segment>, KeyError>)
    ensures Prepend(a, Prepend(b, r)) == Prepend(a + b, r)
  {
    if r.Ok? {
      assert a + (b + r.value) == a + b + r.value;
    }
  }

  // ----- What parses, and how it prints -----

  predicate IsSegment(s: Segment) {
    && IsName(s.name)
    && (s.index.Some? && s.index.value.Number? ==> s.index.value.i <= USIZE_MAX)
  }

  predicate IsKey(segments: seq<Segment>) {
    segments != [] && forall s <- segments :: IsSegment(s)
  }

  lemma {:induction false} ParseSegmentIsSegment(raw: string)
    ensures ParseSegment(raw).Ok? ==> IsSegment(ParseSegment(raw).value)
  {
  }

  /** Whatever parses is a well-formed key, so an index that parses fits the machine. */
  lemma {:induction false} ParsedIsKey(parts: seq<string>)
    ensures ParseParts(parts).Ok? ==>
              |ParseParts(parts).value| == |parts| && forall s <- ParseParts(parts).value :: IsSegment(s)
  {
    if parts != [] {
      ParseSegmentIsSegment(parts[0]);
      ParsedIsKey(parts[1..]);
    }
  }

  lemma {:induction false} NamesHaveNoPunctuation(name: string)
    requires IsName(name)
    ensures '.' !in name && '[' !in name && ']' !in name && '+' !in name
  {
  }

  lemma {:induction false} ParseBareSegment(name: string)
    requires IsName(name)
    ensures ParseSegment(name) == Ok(Segment(name, None))
  {
    NamesHaveNoPunctuation(name);
    FindFirst(name, '[', "");
  }

  lemma {:induction false} ParseIndexedSegment(name: string, text: string)
    requires IsName(name)
    requires ParseIndex(text).Ok?
    ensures ParseSegment(name + "[" + text + "]") == Ok(Segment(name, Some(ParseIndex(text).value)))
  {
    NamesHaveNoPunctuation(name);
    var raw := name + "[" + text + "]";
    assert raw == name + ['['] + (text + "]");
    FindFirst(name, '[', text + "]");
    assert raw[|name| + 1..|raw| - 1] == text;
    assert raw[..|name|] == name;
  }

  lemma {:induction false} ParseRenderedSegment(s: Segment)
    requires IsSegment(s)
    ensures ParseSegment(RenderSegment(s)) == Ok(s)
    ensures '.' !in RenderSegment(s)
  {
    NamesHaveNoPunctuation(s.name);
    match s.index
    case None => ParseBareSegment(s.name);
    case Some(Number(i)) =>
      Decimal.ParseUnsignedOfPrint(i, USIZE_MAX);
      assert Decimal.IsDigit(Decimal.Print(i)[0]);
      ParseIndexedSegment(s.name, Decimal.Print(i));
    case Some(Append) =>
      ParseIndexedSegment(s.name, "+");
      assert s.name + "[" + "+" + "]" == s.name + "[+]";
  }

  lemma {:induction false} SplitDotsCons(first: string, rest: string)
    requires '.' !in first
    ensures SplitDots(first + "." + rest) == [first] + SplitDots(rest)
  {
    var key := first + ['.'] + rest;
    FindFirst(first, '.', rest);
    assert key[..|first|] == first && key[|first| + 1..] == rest;
  }

  lemma {:induction false} ParsePartsCons(first: string, rest: seq<string>)
    requires ParseSegment(first).Ok?
    ensures ParseParts([first] + rest) == Prepend([ParseSegment(first).value], ParseParts(rest))
  {
    assert ([first] + rest)[1..] == rest;
  }

  /** Parsing what was printed gives the segments back, for every well-formed key. */
  lemma {:induction false} ParseRendered(segments: seq<Segment>)
    requires IsKey(segments)
    ensures ParseParts(SplitDots(RenderSegments(segments))) == Ok(segments)
  {
    var first := RenderSegment(segments[0]);
    ParseRenderedSegment(segments[0]);
    assert segments == [segments[0]] + segments[1..];
    if |segments| == 1 {
      FindFirst(first, '.', "");
      ParsePartsCons(first, []);
      assert [first] + [] == [first];
    } else {
      var rest := RenderSegments(segments[1..]);
      SplitDotsCons(first, rest);
      ParseRendered(segments[1..]);
      ParsePartsCons(first, SplitDots(rest));
    }
  }

  /** Which characters a name is made of. */
  lemma {:induction false} NameIs(s: string)
    ensures IsName(s) <==>
            s != "" &&
            forall c <- s :: c == '_' || '0' <= c <= '9' || 'A' <= c <= 'Z' || 'a' <= c <= 'z'
  {
  }

  /** A segment without a bracket is a name or an error. */
  lemma {:induction false} BareSegmentIs(raw: string)
    requires '[' !in raw
    ensures ParseSegment(raw) ==
            if raw == "" then Err(EmptySegment)
            else if IsName(raw) then Ok(Segment(raw, None)) else Err(InvalidSegment(raw))
  {
    FindIsFirst(raw, '[');
  }

  /** A bracket has to be closed at the very end; what is between the first bracket and that
      end is the index, and what is in front is the name. The index is looked at first. */
  lemma {:induction false} IndexedSegmentIs(name: string, text: string)
    requires '[' !in name
    ensures text == "" || text[|text| - 1] != ']' ==>
              ParseSegment(name + "[" + text) == Err(InvalidArraySegment(name + "[" + text))
    ensures ParseSegment(name + "[" + (text + "]")) ==
            if text != "+" && Decimal.ParseUnsigned(text, 18446744073709551615).None? then Err(InvalidIndex(text))
            else if !IsName(name) then Err(InvalidSegment(name + "[" + (text + "]")))
            else if text == "+" then Ok(Segment(name, Some(Append)))
            else Ok(Segment(name, Some(Number(Decimal.ParseUnsigned(text, 18446744073709551615).value))))
  {
    FindFirst(name, '[', text);
    FindFirst(name, '[', text + "]");
    var open, closed := name + "[" + text, name + "[" + (text + "]");
    assert open[|open| - 1] == if text == "" then '[' else text[|text| - 1];
    assert closed[|closed| - 1] == ']' && closed[|name| + 1..|closed| - 1] == text && closed[..|name|] == name;
  }

  /** The segments of a key are what stands between its dots, and the first bad one decides. */
  lemma {:induction false} FirstBadSegment(parts: seq<string>, i: nat)
    requires i < |parts| && ParseSegment(parts[i]).Err?
    requires forall j :: 0 <= j < i ==> ParseSegment(parts[j]).Ok?
    ensures ParseParts(parts) == Err(ParseSegment(parts[i]).error)
    decreases i
  {
    if i > 0 {
      FirstBadSegment(parts[1..], i - 1);
    }
  }

  function JoinDots(parts: seq<string>): string
    requires parts != []
  {
    if |parts| == 1 then parts[0] else parts[0] + "." + JoinDots(parts[1..])
  }

  lemma {:induction false} SplitDotsIs(key: string)
    ensures JoinDots(SplitDots(key)) == key
    ensures forall part <- SplitDots(key) :: '.' !in part
  {
    var dot := Find(key, '.');
    FindIsFirst(key, '.');
    if dot < |key| {
      var rest := key[dot + 1..];
      SplitDotsIs(rest);
      assert SplitDots(key)[1..] == SplitDots(rest);
      assert key == key[..dot] + "." + rest;
    }
  }
}
