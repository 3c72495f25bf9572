/** The tokenizer of `when` expressions, which works on the bytes of the expression. */
module WhenTokens {
  import opened Utf8

  datatype Token = Atom(text: seq<Byte>) | Not | And | Or

  const SPACE: Byte := 0x20
  const BANG: Byte := 0x21
  const AMP: Byte := 0x26
  const BAR: Byte := 0x7c

  predicate IsSpace(b: Byte) {
    b in {0x20, 0x09, 0x0a, 0x0c, 0x0d}
  }

  predicate Doubled(b: seq<Byte>, c: Byte) {
    |b| >= 2 && b[0] == c && b[1] == c
  }

  /** An atom stops at the end, at white space and at a binary operator. */
  predicate Stops(b: seq<Byte>) {
    b == [] || IsSpace(b[0]) || Doubled(b, AMP) || Doubled(b, BAR)
  }

  function AtomLength(b: seq<Byte>): (n: nat)
    ensures n <= |b| && (n > 0 <==> !Stops(b))
  {
    if Stops(b) then 0 else 1 + AtomLength(b[1..])
  }

  lemma {:induction false} AtomEnds(b: seq<Byte>)
    ensures Stops(b[AtomLength(b)..])
    ensures forall k :: 0 <= k < AtomLength(b) ==> !Stops(b[k..])
  {
    assert b[0..] == b;
    if !Stops(b) {
      AtomEnds(b[1..]);
      assert b[AtomLength(b)..] == b[1..][AtomLength(b) - 1..];
      forall k | 0 <= k < AtomLength(b)
        ensures !Stops(b[k..])
      {
        if k > 0 { assert b[k..] == b[1..][k - 1..]; }
      }
    }
  }

  function Spell(t: Token): seq<Byte> {
    match t
    case Atom(text) => text
    case Not => [BANG]
    case And => [AMP, AMP]
    case Or => [BAR, BAR]
  }

  function Tokenize(b: seq<Byte>): seq<Token> {
    if b == [] then []
    else if IsSpace(b[0]) then Tokenize(b[1..])
    else if b[0] == BANG then [Not] + Tokenize(b[1..])
    else if Doubled(b, AMP) then [And] + Tokenize(b[2..])
    else if Doubled(b, BAR) then [Or] + Tokenize(b[2..])
    else
      var n := AtomLength(b);
      [Atom(b[..n])] + Tokenize(b[n..])
  }

  /** Boundaries lie on both sides of every ASCII byte. */
  ghost predicate AsciiStandsAlone(b: seq<Byte>) {
    forall k :: 0 <= k < |b| && b[k] < 0x80 ==> IsBoundary(b, k) && IsBoundary(b, k + 1)
  }

  lemma {:induction false} EncodedStandsAlone(expr: string)
    ensures AsciiStandsAlone(Encode(expr))
  {
    forall k | 0 <= k < |Encode(expr)| && Encode(expr)[k] < 0x80
      ensures IsBoundary(Encode(expr), k) && IsBoundary(Encode(expr), k + 1)
    {
      AfterAscii(expr, k);
    }
  }

  /** The scanning loop. */
  method TokenizeWhen(expr: string) returns (tokens: seq<Token>)
    ensures tokens == Tokenize(Encode(expr))
  {
    var bytes := Encode(expr);
    tokens := [];
    var i := 0;
    EncodedStandsAlone(expr);
    assert bytes[0..] == bytes;
    while i < |bytes|
      invariant 0 <= i <= |bytes| && IsBoundary(bytes, i)
      invariant Tokenize(bytes) == tokens + Tokenize(bytes[i..])
    {
      var j, pushed := ScanToken(bytes, i);
      assert tokens + (pushed + Tokenize(bytes[j..])) == tokens + pushed + Tokenize(bytes[j..]);
      i, tokens := j, tokens + pushed;
    }
  }

  /** One turn of the loop: skips a space or pushes one token. Every slice is taken between
      character boundaries, so it never panics and is again text. */
  method ScanToken(bytes: seq<Byte>, i: nat) returns (j: nat, pushed: seq<Token>)
    requires AsciiStandsAlone(bytes) && i < |bytes| && IsBoundary(bytes, i)
    ensures i < j <= |bytes| && IsBoundary(bytes, j)
    ensures Tokenize(bytes[i..]) == pushed + Tokenize(bytes[j..])
  {
    var c := bytes[i];
    if IsSpace(c) {
      assert bytes[i..][1..] == bytes[i + 1..];
      return i + 1, [];
    }
    if c == BANG {
      OperatorAt(bytes, i, Not);
      return i + 1, [Not];
    }
    if c == AMP && i + 1 < |bytes| && bytes[i + 1] == AMP {
      OperatorAt(bytes, i, And);
      return i + 2, [And];
    }
    if c == BAR && i + 1 < |bytes| && bytes[i + 1] == BAR {
      OperatorAt(bytes, i, Or);
      return i + 2, [Or];
    }
    j := ScanAtom(bytes, i);
    AtomAt(bytes, i, j);
    assert IsBoundary(bytes, i) && IsBoundary(bytes, j);
    pushed := [Atom(bytes[i..j])];
  }

  lemma {:induction false} OperatorAt(bytes: seq<Byte>, i: nat, t: Token)
    requires !t.Atom? && i + |Spell(t)| <= |bytes| && Spell(t) == bytes[i..i + |Spell(t)|]
    ensures Tokenize(bytes[i..]) == [t] + Tokenize(bytes[i + |Spell(t)|..])
  {
    assert bytes[i..] == Spell(t) + bytes[i + |Spell(t)|..];
    TokenizeFirst(t, bytes[i + |Spell(t)|..]);
  }

  /** An atom ends at a character boundary, and is the next token. */
  lemma {:induction false} AtomAt(bytes: seq<Byte>, start: nat, i: nat)
    requires AsciiStandsAlone(bytes) && start < |bytes| && !Stops(bytes[start..]) && bytes[start] != BANG
    requires i == start + AtomLength(bytes[start..])
    ensures i <= |bytes| && IsBoundary(bytes, i)
    ensures Tokenize(bytes[start..]) == [Atom(bytes[start..i])] + Tokenize(bytes[i..])
  {
    var rest := bytes[start..];
    AtomEnds(rest);
    assert bytes[start..i] == rest[..i - start] && bytes[i..] == rest[i - start..];
    assert i < |bytes| ==> bytes[i] < 0x80;
  }

  /** The inner loop: where the atom that starts at `start` ends. */
  method ScanAtom(bytes: seq<Byte>, start: nat) returns (i: nat)
    requires start < |bytes| && !Stops(bytes[start..])
    ensures i == start + AtomLength(bytes[start..]) && start < i <= |bytes|
  {
    i := start;
    ghost var rest := bytes[start..];
    AtomEnds(rest);
    while i < |bytes|
      invariant start <= i <= |bytes|
      invariant i - start <= AtomLength(rest)
    {
      assert bytes[i..] == rest[i - start..];
      var b := bytes[i];
      if IsSpace(b) {
        break;
      }
      if b == AMP && i + 1 < |bytes| && bytes[i + 1] == AMP {
        break;
      }
      if b == BAR && i + 1 < |bytes| && bytes[i + 1] == BAR {
        break;
      }
      i := i + 1;
    }
    assert Stops(rest[AtomLength(rest)..]);
    assert rest[0..] == rest;
    assert bytes[i..] == rest[i - start..];
  }

  // ----- What tokens look like -----

  predicate IsAtomText(a: seq<Byte>) {
    && a != [] && a[0] != BANG
    && (forall i :: 0 <= i < |a| ==> !IsSpace(a[i]))
    && (forall i :: 0 <= i < |a| - 1 ==> !(a[i] == a[i + 1] == AMP) && !(a[i] == a[i + 1] == BAR))
  }

  predicate IsToken(t: Token) {
    t.Atom? ==> IsAtomText(t.text)
  }

  lemma {:induction false} AtomPrefixIsText(b: seq<Byte>)
    requires b != [] && !Stops(b) && b[0] != BANG
    ensures AtomLength(b) > 0 && IsAtomText(b[..AtomLength(b)])
  {
    var n := AtomLength(b);
    AtomEnds(b);
    forall i | 0 <= i < n
      ensures !IsSpace(b[i])
      ensures i < n - 1 ==> !(b[i] == b[i + 1] == AMP) && !(b[i] == b[i + 1] == BAR)
    {
      assert !Stops(b[i..]) && b[i..][0] == b[i];
      assert i < n - 1 ==> b[i..][1] == b[i + 1];
    }
  }

  /** Every atom of any expression is non-empty, free of white space and of operators, and
      does not start with `!`. */
  lemma {:induction false} TokensAreWellFormed(b: seq<Byte>)
    ensures forall t <- Tokenize(b) :: IsToken(t)
    decreases |b|
  {
    if b == [] {
    } else if IsSpace(b[0]) || b[0] == BANG {
      TokensAreWellFormed(b[1..]);
    } else if Doubled(b, AMP) || Doubled(b, BAR) {
      TokensAreWellFormed(b[2..]);
    } else {
      AtomPrefixIsText(b);
      TokensAreWellFormed(b[AtomLength(b)..]);
    }
  }

  // ----- Printing and reading back -----

  /** Tokens separated by single spaces. */
  function Print(tokens: seq<Token>): seq<Byte> {
    if tokens == [] then []
    else if |tokens| == 1 then Spell(tokens[0])
    else Spell(tokens[0]) + [SPACE] + Print(tokens[1..])
  }

  lemma {:induction false} AtomEndsAtSpace(a: seq<Byte>, rest: seq<Byte>)
    requires IsAtomText(a) && (rest == [] || rest[0] == SPACE)
    ensures !Stops(a + rest) && AtomLength(a + rest) == |a|
  {
    var b := a + rest;
    assert b[0..] == b;
    assert b[|a|..] == rest;
    forall k | 0 <= k < |a|
      ensures !Stops(b[k..])
    {
      assert b[k..][0] == a[k];
      assert k + 1 < |a| ==> b[k..][1] == a[k + 1];
      assert k + 1 == |a| && |b[k..]| >= 2 ==> b[k..][1] == SPACE;
    }
    AtomEnds(b);
    assert Stops(b[AtomLength(b)..]);
    assert Stops(b[|a|..]);
  }

  /** A spelled operator, or a spelled atom in front of a space or of nothing, is read back
      as that token. */
  lemma {:induction false} TokenizeFirst(t: Token, rest: seq<Byte>)
    requires IsToken(t) && (t.Atom? ==> rest == [] || rest[0] == SPACE)
    ensures Tokenize(Spell(t) + rest) == [t] + Tokenize(rest)
  {
    var b := Spell(t) + rest;
    match t
    case Atom(a) =>
      AtomEndsAtSpace(a, rest);
      assert !IsSpace(b[0]) && b[0] != BANG;
      assert b[..|a|] == a && b[|a|..] == rest;
    case Not => assert b[1..] == rest;
    case And => assert b[2..] == rest;
    case Or => assert b[2..] == rest;
  }

  /** Printing any well-formed tokens and tokenizing the result gives the same tokens. */
  lemma {:induction false} TokenizePrint(tokens: seq<Token>)
    requires forall t <- tokens :: IsToken(t)
    ensures Tokenize(Print(tokens)) == tokens
  {
    if |tokens| == 1 {
      TokenizeFirst(tokens[0], []);
      assert Spell(tokens[0]) + [] == Spell(tokens[0]);
      assert [tokens[0]] + [] == tokens;
    } else if |tokens| > 1 {
      TokenizeNext(tokens[0], Print(tokens[1..]));
      TokenizePrint(tokens[1..]);
      assert tokens == [tokens[0]] + tokens[1..];
    }
  }

  lemma {:induction false} TokenizeNext(t: Token, rest: seq<Byte>)
    requires IsToken(t)
    ensures Tokenize(Spell(t) + [SPACE] + rest) == [t] + Tokenize(rest)
  {
    var b := [SPACE] + rest;
    assert Spell(t) + [SPACE] + rest == Spell(t) + b;
    TokenizeFirst(t, b);
    assert b[1..] == rest;
  }

  /** Printing the tokens of an expression normalises it: it tokenizes as before. */
  lemma {:induction false} PrintNormalises(expr: string)
    ensures Tokenize(Print(Tokenize(Encode(expr)))) == Tokenize(Encode(expr))
  {
    TokensAreWellFormed(Encode(expr));
    TokenizePrint(Tokenize(Encode(expr)));
  }

  /** One step of the tokenizer: at most one token, from the first `n` bytes. */
  lemma {:induction false} NextToken(b: seq<Byte>) returns (n: nat, first: seq<Token>)
    requires b != []
    ensures 1 <= n <= |b| && Tokenize(b) == first + Tokenize(b[n..])
    ensures first == [Atom(b[..n])] || (b[n - 1] < 0x80 && forall t <- first :: !t.Atom?)
    ensures first == [Atom(b[..n])] ==> Stops(b[n..])
  {
    if IsSpace(b[0]) {
      n, first := 1, [];
    } else if b[0] == BANG {
      n, first := 1, [Not];
    } else if Doubled(b, AMP) {
      n, first := 2, [And];
    } else if Doubled(b, BAR) {
      n, first := 2, [Or];
    } else {
      AtomEnds(b);
      n, first := AtomLength(b), [Atom(b[..AtomLength(b)])];
    }
  }

  lemma {:induction false} BoundaryAfter(whole: seq<Byte>, i: nat, n: nat)
    requires AsciiStandsAlone(whole) && 1 <= n && i + n <= |whole|
    requires whole[i + n - 1] < 0x80 || Stops(whole[i + n..])
    ensures IsBoundary(whole, i + n)
  {
    assert Stops(whole[i + n..]) && i + n < |whole| ==> whole[i + n] < 0x80;
  }

  lemma {:induction false} NextTokenAt(whole: seq<Byte>, i: nat) returns (j: nat, first: seq<Token>)
    requires AsciiStandsAlone(whole) && i < |whole|
    ensures i < j <= |whole| && IsBoundary(whole, j)
    ensures Tokenize(whole[i..]) == first + Tokenize(whole[j..])
    ensures forall t <- first :: t.Atom? ==> t.text == whole[i..j]
  {
    var b := whole[i..];
    var n;
    n, first := NextToken(b);
    j := i + n;
    assert b[n..] == whole[j..] && b[..n] == whole[i..j] && b[n - 1] == whole[j - 1];
    BoundaryAfter(whole, i, n);
  }

  lemma {:induction false} AtomsLieBetweenBoundaries(whole: seq<Byte>, i: nat, t: Token) returns (x: nat, y: nat)
    requires AsciiStandsAlone(whole) && i <= |whole| && IsBoundary(whole, i)
    requires t in Tokenize(whole[i..]) && t.Atom?
    ensures x <= y <= |whole| && IsBoundary(whole, x) && IsBoundary(whole, y) && t.text == whole[x..y]
    decreases |whole| - i
  {
    var j, first := NextTokenAt(whole, i);
    if t in first {
      x, y := i, j;
    } else {
      x, y := AtomsLieBetweenBoundaries(whole, j, t);
    }
  }

  /** Every atom of an expression is a text of its own, not a torn character. */
  lemma {:induction false} AtomsAreText(expr: string, t: Token) returns (text: string)
    requires t in Tokenize(Encode(expr)) && t.Atom?
    ensures t.text == Encode(text)
  {
    EncodedStandsAlone(expr);
    assert Encode(expr)[0..] == Encode(expr);
    var x, y := AtomsLieBetweenBoundaries(Encode(expr), 0, t);
    text := SliceIsText(expr, x, y);
  }
}
