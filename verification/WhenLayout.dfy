/** The many ways of writing the same `when` expression. */
module WhenLayout {
  import opened Utf8
  import opened WhenTokens
  import opened WhenParser

  /** ASCII white space: space, tab, line feed, form feed and carriage return. */
  predicate IsGap(gap: seq<Byte>) {
    forall i :: 0 <= i < |gap| ==>
      gap[i] == 0x20 || gap[i] == 0x09 || gap[i] == 0x0a || gap[i] == 0x0c || gap[i] == 0x0d
  }

  /** The text of an atom: no white space, no operator of two bytes, and no `!` in front. */
  predicate IsAtom(a: seq<Byte>) {
    && a != [] && a[0] != 0x21
    && (forall i :: 0 <= i < |a| ==> !IsGap([a[i]]))
    && forall i :: 0 <= i < |a| - 1 ==> a[i] == a[i + 1] ==> a[i] != 0x26 && a[i] != 0x7c
  }

  /** How a token is written. */
  function Written(t: Token): seq<Byte> {
    match t
    case Atom(text) => text
    case Not => Encode("!")
    case And => Encode("&&")
    case Or => Encode("||")
  }

  /** A token, and the white space that is written in front of it. */
  datatype Spaced = Spaced(gap: seq<Byte>, token: Token)

  /** Only an atom needs space behind it, and not even an atom before a binary operator,
      unless it ends in that operator's own sign. */
  predicate MayTouch(t: Token, next: Token) {
    match t
    case Atom(text) =>
      text != [] && ((next.And? && text[|text| - 1] != 0x26) || (next.Or? && text[|text| - 1] != 0x7c))
    case _ => true
  }

  predicate IsLayout(layout: seq<Spaced>) {
    && (forall i :: 0 <= i < |layout| ==> IsGap(layout[i].gap))
    && (forall i :: 0 <= i < |layout| && layout[i].token.Atom? ==> IsAtom(layout[i].token.text))
    && forall i :: 0 < i < |layout| ==> layout[i].gap != [] || MayTouch(layout[i - 1].token, layout[i].token)
  }

  function LaidOut(layout: seq<Spaced>, end: seq<Byte>): seq<Byte> {
    if layout == [] then end else layout[0].gap + Written(layout[0].token) + LaidOut(layout[1..], end)
  }

  function TokensOf(layout: seq<Spaced>): seq<Token> {
    if layout == [] then [] else [layout[0].token] + TokensOf(layout[1..])
  }

  lemma {:induction false} WrittenIsSpelled(t: Token)
    ensures Written(t) == Spell(t)
  {
    assert Encode("!") == EncodeChar('!') + Encode("!"[1..]);
    assert Encode("&&") == EncodeChar('&') + (EncodeChar('&') + Encode("&&"[1..][1..]));
    assert Encode("||") == EncodeChar('|') + (EncodeChar('|') + Encode("||"[1..][1..]));
  }

  lemma {:induction false} GapIsSkipped(gap: seq<Byte>, rest: seq<Byte>)
    requires IsGap(gap)
    ensures Tokenize(gap + rest) == Tokenize(rest)
  {
    if gap == [] {
      assert gap + rest == rest;
    } else {
      assert (gap + rest)[1..] == gap[1..] + rest;
      GapIsSkipped(gap[1..], rest);
    }
  }

  /** Where the atom ends: in front of white space, of an operator, or at the end. */
  predicate EndsAtom(a: seq<Byte>, rest: seq<Byte>) {
    || rest == [] || IsSpace(rest[0])
    || (a != [] && a[|a| - 1] != AMP && Doubled(rest, AMP))
    || (a != [] && a[|a| - 1] != BAR && Doubled(rest, BAR))
  }

  lemma {:induction false} AtomIsRead(a: seq<Byte>, rest: seq<Byte>)
    requires IsAtom(a) && EndsAtom(a, rest)
    ensures Tokenize(a + rest) == [Atom(a)] + Tokenize(rest)
  {
    var b := a + rest;
    forall k | 0 <= k < |a|
      ensures !Stops(b[k..])
    {
      assert b[k..][0] == a[k] && !IsGap([a[k]]);
      assert k + 1 < |a| ==> b[k..][1] == a[k + 1];
      assert k + 1 == |a| && rest != [] ==> b[k..][1] == rest[0];
    }
    assert b[0..] == b && b[|a|..] == rest;
    AtomEnds(b);
    assert Stops(b[AtomLength(b)..]);
    assert b[..|a|] == a;
  }

  /** What follows an atom does not run into it. */
  lemma {:induction false} NextIsApart(a: seq<Byte>, gap: seq<Byte>, t: Token, rest: seq<Byte>)
    requires a != [] && IsGap(gap) && (gap != [] || MayTouch(Atom(a), t))
    ensures EndsAtom(a, gap + Written(t) + rest)
  {
    if gap == [] {
      WrittenIsSpelled(t);
      assert gap + Written(t) + rest == Spell(t) + rest;
    } else {
      GapStarts(gap, Written(t) + rest);
      assert gap + Written(t) + rest == gap + (Written(t) + rest);
    }
  }

  lemma {:induction false} GapStarts(gap: seq<Byte>, rest: seq<Byte>)
    requires IsGap(gap) && gap != []
    ensures IsSpace((gap + rest)[0])
  {
  }

  lemma {:induction false} LayoutIsApart(a: seq<Byte>, layout: seq<Spaced>, end: seq<Byte>)
    requires a != [] && IsGap(end)
    requires layout != [] ==> IsGap(layout[0].gap) && (layout[0].gap != [] || MayTouch(Atom(a), layout[0].token))
    ensures EndsAtom(a, LaidOut(layout, end))
  {
    if layout != [] {
      NextIsApart(a, layout[0].gap, layout[0].token, LaidOut(layout[1..], end));
    } else if end != [] {
      GapStarts(end, []);
    }
  }

  lemma {:induction false} ShorterLayout(layout: seq<Spaced>)
    requires IsLayout(layout) && layout != []
    ensures IsLayout(layout[1..])
  {
    var rest := layout[1..];
    forall i | 0 < i < |rest|
      ensures rest[i].gap != [] || MayTouch(rest[i - 1].token, rest[i].token)
    {
      assert rest[i] == layout[i + 1] && rest[i - 1] == layout[i];
    }
  }

  /** However tokens are laid out, with any white space around them and with none where none
      is needed, they are what is read. */
  lemma {:induction false} TokenizeLayout(layout: seq<Spaced>, end: seq<Byte>)
    requires IsLayout(layout) && IsGap(end)
    ensures Tokenize(LaidOut(layout, end)) == TokensOf(layout)
  {
    if layout == [] {
      assert end + [] == end;
      GapIsSkipped(end, []);
    } else {
      var (gap, t, rest) := (layout[0].gap, layout[0].token, LaidOut(layout[1..], end));
      assert gap + Written(t) + rest == gap + (Written(t) + rest);
      ShorterLayout(layout);
      GapIsSkipped(gap, Written(t) + rest);
      TokenizeLayout(layout[1..], end);
      WrittenIsSpelled(t);
      if t.Atom? {
        LayoutIsApart(t.text, layout[1..], end);
        AtomIsRead(t.text, rest);
      } else {
        TokenizeFirst(t, rest);
      }
    }
  }

  /** Any expression means the same however it is laid out, and nothing of it is left
      unread. */
  lemma {:induction false} LayoutMeans(d: Disj, layout: seq<Spaced>, end: seq<Byte>, expr: string, env: Env)
    requires IsDisj(d) && IsLayout(layout) && IsGap(end) && TokensOf(layout) == DisjTokens(d)
    requires Encode(expr) == LaidOut(layout, end)
    ensures EvalOr(Tokenize(Encode(expr)), env) == (DisjHolds(d, env), [])
  {
    TokenizeLayout(layout, end);
    EvalDisj(d, [], env);
    assert DisjTokens(d) + [] == DisjTokens(d);
  }
}
