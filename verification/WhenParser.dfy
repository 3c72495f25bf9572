/** The recursive-descent evaluator of `when` expressions, against a denotation that knows
    nothing about parsing: some conjunct list in which every negated atom holds. */
module WhenParser {
  import opened Wrappers
  import opened Utf8
  import opened WhenTokens

  /** Truth of an atom in a worktree; unknown predicates are true. */
  type Env = seq<Byte> -> bool

  // ----- Expressions and what they mean -----

  /** Any number of `!` in front of an atom. Without an atom the parser reads truth. */
  datatype Term = Term(nots: nat, atom: Option<seq<Byte>>)

  type Conj = seq<Term>

  type Disj = seq<Conj>

  predicate TermHolds(t: Term, env: Env) {
    (t.nots % 2 == 0) == (t.atom.None? || env(t.atom.value))
  }

  predicate ConjHolds(c: Conj, env: Env) {
    forall t <- c :: TermHolds(t, env)
  }

  predicate DisjHolds(d: Disj, env: Env) {
    exists c <- d :: ConjHolds(c, env)
  }

  predicate IsDisj(d: Disj) {
    d != [] && forall i :: 0 <= i < |d| ==> d[i] != []
  }

  // ----- How they are written -----

  function Nots(n: nat): seq<Token> {
    if n == 0 then [] else [Not] + Nots(n - 1)
  }

  function TermTokens(t: Term): seq<Token> {
    Nots(t.nots) + if t.atom.Some? then [Atom(t.atom.value)] else []
  }

  function ConjTokens(c: Conj): seq<Token>
    requires c != []
  {
    if |c| == 1 then TermTokens(c[0]) else TermTokens(c[0]) + [And] + ConjTokens(c[1..])
  }

  function DisjTokens(d: Disj): seq<Token>
    requires IsDisj(d)
  {
    if |d| == 1 then ConjTokens(d[0]) else ConjTokens(d[0]) + [Or] + DisjTokens(d[1..])
  }

  // ----- The evaluator, as functions of the remaining tokens -----

  predicate Starts(ts: seq<Token>, t: Token) {
    ts != [] && ts[0] == t
  }

  function EvalAtom(ts: seq<Token>, env: Env): (bool, seq<Token>) {
    if ts != [] && ts[0].Atom? then (env(ts[0].text), ts[1..]) else (true, ts)
  }

  function EvalNot(ts: seq<Token>, env: Env): (r: (bool, seq<Token>))
    ensures |r.1| <= |ts|
  {
    if Starts(ts, Not) then var (v, rest) := EvalNot(ts[1..], env); (!v, rest) else EvalAtom(ts, env)
  }

  function AndLoop(acc: bool, ts: seq<Token>, env: Env): (r: (bool, seq<Token>))
    ensures |r.1| <= |ts|
    decreases |ts|
  {
    if Starts(ts, And) then var (v, rest) := EvalNot(ts[1..], env); AndLoop(acc && v, rest, env) else (acc, ts)
  }

  function EvalAnd(ts: seq<Token>, env: Env): (r: (bool, seq<Token>))
    ensures |r.1| <= |ts|
  {
    var (v, rest) := EvalNot(ts, env);
    AndLoop(v, rest, env)
  }

  function OrLoop(acc: bool, ts: seq<Token>, env: Env): (r: (bool, seq<Token>))
    ensures |r.1| <= |ts|
    decreases |ts|
  {
    if Starts(ts, Or) then var (v, rest) := EvalAnd(ts[1..], env); OrLoop(acc || v, rest, env) else (acc, ts)
  }

  function EvalOr(ts: seq<Token>, env: Env): (r: (bool, seq<Token>))
    ensures |r.1| <= |ts|
  {
    var (v, rest) := EvalAnd(ts, env);
    OrLoop(v, rest, env)
  }

  // ----- The evaluator, moving a cursor -----

  class Parser {
    const tokens: seq<Token>
    const env: Env
    var pos: nat

    constructor (tokens: seq<Token>, env: Env)
      ensures this.tokens == tokens && this.env == env && pos == 0
    {
      this.tokens, this.env, this.pos := tokens, env, 0;
    }

    ghost predicate Valid()
      reads this
    {
      pos <= |tokens|
    }

    function Rest(): seq<Token>
      requires Valid()
      reads this
    {
      tokens[pos..]
    }

    method ParseOr() returns (acc: bool)
      requires Valid()
      modifies this`pos
      ensures Valid() && old(pos) <= pos && (acc, Rest()) == EvalOr(old(Rest()), env)
    {
      ghost var result := EvalOr(Rest(), env);
      acc := ParseAnd();
      while pos < |tokens| && tokens[pos] == Or
        invariant Valid() && old(pos) <= pos
        invariant OrLoop(acc, Rest(), env) == result
        decreases |tokens| - pos
      {
        acc := OrTurn(acc);
      }
    }

    /** One turn of the loop: past the operator, and past its right-hand side. */
    method OrTurn(before: bool) returns (acc: bool)
      requires Valid() && Starts(Rest(), Or)
      modifies this`pos
      ensures Valid() && old(pos) < pos
      ensures OrLoop(acc, Rest(), env) == OrLoop(before, old(Rest()), env)
    {
      assert Rest()[1..] == tokens[pos + 1..];
      pos := pos + 1;
      var rhs := ParseAnd();
      acc := before || rhs;
    }

    method ParseAnd() returns (acc: bool)
      requires Valid()
      modifies this`pos
      ensures Valid() && old(pos) <= pos && (acc, Rest()) == EvalAnd(old(Rest()), env)
    {
      ghost var result := EvalAnd(Rest(), env);
      acc := ParseNot();
      while pos < |tokens| && tokens[pos] == And
        invariant Valid() && old(pos) <= pos
        invariant AndLoop(acc, Rest(), env) == result
        decreases |tokens| - pos
      {
        acc := AndTurn(acc);
      }
    }

    /** One turn of the loop: past the operator, and past its right-hand side. */
    method AndTurn(before: bool) returns (acc: bool)
      requires Valid() && Starts(Rest(), And)
      modifies this`pos
      ensures Valid() && old(pos) < pos
      ensures AndLoop(acc, Rest(), env) == AndLoop(before, old(Rest()), env)
    {
      assert Rest()[1..] == tokens[pos + 1..];
      pos := pos + 1;
      var rhs := ParseNot();
      acc := before && rhs;
    }

    method ParseNot() returns (v: bool)
      requires Valid()
      modifies this`pos
      ensures Valid() && old(pos) <= pos && (v, Rest()) == EvalNot(old(Rest()), env)
      decreases |tokens| - pos
    {
      if pos < |tokens| && tokens[pos] == Not {
        assert Rest()[1..] == tokens[pos + 1..];
        pos := pos + 1;
        var inner := ParseNot();
        return !inner;
      }
      v := ParseAtom();
    }

    method ParseAtom() returns (v: bool)
      requires Valid()
      modifies this`pos
      ensures Valid() && old(pos) <= pos && (v, Rest()) == EvalAtom(old(Rest()), env)
    {
      if pos < |tokens| && tokens[pos].Atom? {
        assert Rest()[1..] == tokens[pos + 1..];
        v := env(tokens[pos].text);
        pos := pos + 1;
      } else {
        v := true;
      }
    }
  }

  method EvaluateWhen(expr: string, env: Env) returns (v: bool)
    ensures v == EvalOr(Tokenize(Encode(expr)), env).0
  {
    var tokens := TokenizeWhen(expr);
    var parser := new Parser(tokens, env);
    assert parser.Rest() == tokens;
    v := parser.ParseOr();
  }

  // ----- The evaluator computes the denotation -----

  /** What may follow a term: nothing the parser would still take into it. */
  predicate TermEnds(t: Term, rest: seq<Token>) {
    t.atom.None? ==> rest == [] || rest[0] == And || rest[0] == Or
  }

  lemma {:induction false} EvalTerm(t: Term, rest: seq<Token>, env: Env)
    requires TermEnds(t, rest)
    ensures EvalNot(TermTokens(t) + rest, env) == (TermHolds(t, env), rest)
    decreases t.nots
  {
    var ts := TermTokens(t) + rest;
    if t.nots > 0 {
      var inner := t.(nots := t.nots - 1);
      assert ts[0] == Not && ts[1..] == TermTokens(inner) + rest;
      EvalTerm(inner, rest, env);
    } else if t.atom.Some? {
      assert ts[1..] == rest;
    } else {
      assert ts == rest;
    }
  }

  predicate ConjEnds(c: Conj, rest: seq<Token>)
    requires c != []
  {
    TermEnds(c[|c| - 1], rest) && !Starts(rest, And)
  }

  /** The loop of `parse_and` from a term onwards. */
  function AndFrom(acc: bool, ts: seq<Token>, env: Env): (bool, seq<Token>) {
    var (v, rest) := EvalNot(ts, env);
    AndLoop(acc && v, rest, env)
  }

  lemma {:induction false} EvalConjLoop(acc: bool, c: Conj, rest: seq<Token>, env: Env)
    requires c != [] && ConjEnds(c, rest)
    ensures AndFrom(acc, ConjTokens(c) + rest, env) == (acc && ConjHolds(c, env), rest)
    decreases |c|
  {
    ConjSplit(c, env);
    if |c| == 1 {
      EvalTerm(c[0], rest, env);
    } else {
      FirstTerm(acc, c, rest, env);
      EvalConjLoop(acc && TermHolds(c[0], env), c[1..], rest, env);
    }
  }

  lemma {:induction false} FirstTerm(acc: bool, c: Conj, rest: seq<Token>, env: Env)
    requires |c| > 1 && ConjEnds(c, rest)
    ensures ConjEnds(c[1..], rest)
    ensures AndFrom(acc, ConjTokens(c) + rest, env) ==
            AndFrom(acc && TermHolds(c[0], env), ConjTokens(c[1..]) + rest, env)
  {
    var more := ConjTokens(c[1..]) + rest;
    ConjTokensSplit(c, rest);
    EvalTerm(c[0], [And] + more, env);
    AndLoopStep(acc && TermHolds(c[0], env), more, env);
  }

  lemma {:induction false} ConjTokensSplit(c: Conj, rest: seq<Token>)
    requires |c| > 1
    ensures ConjTokens(c) + rest == TermTokens(c[0]) + ([And] + (ConjTokens(c[1..]) + rest))
  {
  }

  lemma {:induction false} AndLoopStep(acc: bool, ts: seq<Token>, env: Env)
    ensures AndLoop(acc, [And] + ts, env) == AndFrom(acc, ts, env)
  {
    assert ([And] + ts)[1..] == ts;
  }

  lemma {:induction false} ConjSplit(c: Conj, env: Env)
    requires c != []
    ensures ConjHolds(c, env) == (TermHolds(c[0], env) && ConjHolds(c[1..], env))
  {
    assert c == [c[0]] + c[1..];
  }

  lemma {:induction false} EvalConj(c: Conj, rest: seq<Token>, env: Env)
    requires c != [] && ConjEnds(c, rest)
    ensures EvalAnd(ConjTokens(c) + rest, env) == (ConjHolds(c, env), rest)
  {
    EvalConjLoop(true, c, rest, env);
  }

  predicate DisjEnds(d: Disj, rest: seq<Token>)
    requires IsDisj(d)
  {
    ConjEnds(d[|d| - 1], rest) && !Starts(rest, Or)
  }

  /** The loop of `parse_or` from a conjunction onwards. */
  function OrFrom(acc: bool, ts: seq<Token>, env: Env): (bool, seq<Token>) {
    var (v, rest) := EvalAnd(ts, env);
    OrLoop(acc || v, rest, env)
  }

  lemma {:induction false} EvalDisjLoop(acc: bool, d: Disj, rest: seq<Token>, env: Env)
    requires IsDisj(d) && DisjEnds(d, rest)
    ensures OrFrom(acc, DisjTokens(d) + rest, env) == (acc || DisjHolds(d, env), rest)
    decreases |d|
  {
    DisjSplit(d, env);
    if |d| == 1 {
      EvalConj(d[0], rest, env);
    } else {
      FirstConj(acc, d, rest, env);
      EvalDisjLoop(acc || ConjHolds(d[0], env), d[1..], rest, env);
    }
  }

  lemma {:induction false} FirstConj(acc: bool, d: Disj, rest: seq<Token>, env: Env)
    requires IsDisj(d) && DisjEnds(d, rest) && |d| > 1
    ensures IsDisj(d[1..]) && DisjEnds(d[1..], rest)
    ensures OrFrom(acc, DisjTokens(d) + rest, env) ==
            OrFrom(acc || ConjHolds(d[0], env), DisjTokens(d[1..]) + rest, env)
  {
    var more := DisjTokens(d[1..]) + rest;
    DisjTokensSplit(d, rest);
    EvalConj(d[0], [Or] + more, env);
    OrLoopStep(acc || ConjHolds(d[0], env), more, env);
  }

  lemma {:induction false} DisjTokensSplit(d: Disj, rest: seq<Token>)
    requires IsDisj(d) && |d| > 1
    ensures DisjTokens(d) + rest == ConjTokens(d[0]) + ([Or] + (DisjTokens(d[1..]) + rest))
  {
  }

  lemma {:induction false} OrLoopStep(acc: bool, ts: seq<Token>, env: Env)
    ensures OrLoop(acc, [Or] + ts, env) == OrFrom(acc, ts, env)
  {
    assert ([Or] + ts)[1..] == ts;
  }

  lemma {:induction false} DisjSplit(d: Disj, env: Env)
    requires d != []
    ensures DisjHolds(d, env) == (ConjHolds(d[0], env) || DisjHolds(d[1..], env))
  {
    assert d == [d[0]] + d[1..];
  }

  /** On the tokens of any expression, whatever follows it, the parser returns the meaning
      of the expression and stops right behind it. */
  lemma {:induction false} EvalDisj(d: Disj, rest: seq<Token>, env: Env)
    requires IsDisj(d) && DisjEnds(d, rest)
    ensures EvalOr(DisjTokens(d) + rest, env) == (DisjHolds(d, env), rest)
  {
    EvalDisjLoop(false, d, rest, env);
  }

  // ----- Every token list starts with an expression -----

  lemma {:induction false} SplitNots(ts: seq<Token>) returns (n: nat, rest: seq<Token>)
    ensures ts == Nots(n) + rest && !Starts(rest, Not)
  {
    if Starts(ts, Not) {
      n, rest := SplitNots(ts[1..]);
      n := n + 1;
      assert ts == [Not] + ts[1..];
    } else {
      n, rest := 0, ts;
    }
  }

  lemma {:induction false} FactorTerm(ts: seq<Token>) returns (t: Term, rest: seq<Token>)
    ensures ts == TermTokens(t) + rest && TermEnds(t, rest)
  {
    var n;
    n, rest := SplitNots(ts);
    if rest != [] && rest[0].Atom? {
      t := Term(n, Some(rest[0].text));
      assert rest == [rest[0]] + rest[1..];
      rest := rest[1..];
    } else {
      t := Term(n, None);
      assert TermTokens(t) == Nots(n);
    }
  }

  lemma {:induction false} FactorConj(ts: seq<Token>) returns (c: Conj, rest: seq<Token>)
    ensures c != [] && ts == ConjTokens(c) + rest && ConjEnds(c, rest)
    decreases |ts|
  {
    var t;
    t, rest := FactorTerm(ts);
    c := [t];
    if Starts(rest, And) {
      var more;
      assert rest == [And] + rest[1..];
      more, rest := FactorConj(rest[1..]);
      c := [t] + more;
      assert c[1..] == more;
      assert ts == TermTokens(t) + ([And] + (ConjTokens(more) + rest));
    }
  }

  lemma {:induction false} FactorDisj(ts: seq<Token>) returns (d: Disj, rest: seq<Token>)
    ensures IsDisj(d) && ts == DisjTokens(d) + rest && DisjEnds(d, rest)
    decreases |ts|
  {
    var c;
    c, rest := FactorConj(ts);
    d := [c];
    if Starts(rest, Or) {
      var more;
      assert rest == [Or] + rest[1..];
      more, rest := FactorDisj(rest[1..]);
      d := [c] + more;
      assert d[1..] == more;
      assert ts == ConjTokens(c) + ([Or] + (DisjTokens(more) + rest));
    }
  }

  // ----- What follows for every token list -----

  /** The parser stops at the same token whatever the atoms are worth: nothing is skipped
      because its value would not matter. */
  lemma {:induction false} CursorIgnoresValues(ts: seq<Token>, env: Env, env': Env)
    ensures EvalOr(ts, env).1 == EvalOr(ts, env').1
  {
    var d, rest := FactorDisj(ts);
    EvalDisj(d, rest, env);
    EvalDisj(d, rest, env');
  }

  /** The atoms of an expression, as the doctor collects them. */
  function WhenAtoms(ts: seq<Token>): seq<seq<Byte>> {
    if ts == [] then []
    else (if ts[0].Atom? then [ts[0].text] else []) + WhenAtoms(ts[1..])
  }

  lemma {:induction false} WhenAtomsContains(ts: seq<Token>, a: seq<Byte>)
    ensures a in WhenAtoms(ts) <==> Atom(a) in ts
  {
    if ts != [] {
      assert ts == [ts[0]] + ts[1..];
      WhenAtomsContains(ts[1..], a);
    }
  }

  lemma {:induction false} ConjAtoms(c: Conj, t: Term)
    requires c != [] && t in c && t.atom.Some?
    ensures Atom(t.atom.value) in ConjTokens(c)
  {
    assert c == [c[0]] + c[1..];
    if t != c[0] {
      ConjAtoms(c[1..], t);
    }
  }

  lemma {:induction false} DisjAtoms(d: Disj, c: Conj, t: Term)
    requires IsDisj(d) && c in d && t in c && t.atom.Some?
    ensures Atom(t.atom.value) in DisjTokens(d)
  {
    assert d == [d[0]] + d[1..];
    if c != d[0] {
      DisjAtoms(d[1..], c, t);
    } else {
      ConjAtoms(c, t);
    }
  }

  /** Two environments that agree on the listed atoms give the same answer. */
  lemma {:induction false} OnlyListedAtomsMatter(ts: seq<Token>, env: Env, env': Env)
    requires forall a <- WhenAtoms(ts) :: env(a) == env'(a)
    ensures EvalOr(ts, env) == EvalOr(ts, env')
  {
    var d, rest := FactorDisj(ts);
    EvalDisj(d, rest, env);
    EvalDisj(d, rest, env');
    forall c <- d
      ensures ConjHolds(c, env) == ConjHolds(c, env')
    {
      forall t <- c
        ensures TermHolds(t, env) == TermHolds(t, env')
      {
        if t.atom.Some? {
          DisjAtoms(d, c, t);
          WhenAtomsContains(ts, t.atom.value);
        }
      }
    }
  }

  // ----- Trailing tokens -----

  /** An atom with another atom or a `!` right behind it: no operator joins the two. */
  predicate Juxtaposed(ts: seq<Token>, i: nat) {
    i + 1 < |ts| && ts[i].Atom? && (ts[i + 1].Atom? || ts[i + 1] == Not)
  }

  ghost predicate Joined(ts: seq<Token>) {
    forall i: nat :: !Juxtaposed(ts, i)
  }

  lemma {:induction false} JoinedAcross(a: seq<Token>, op: Token, b: seq<Token>)
    requires Joined(a) && Joined(b) && (op == And || op == Or)
    ensures Joined(a + [op] + b)
  {
    var s := a + [op] + b;
    forall i: nat
      ensures !Juxtaposed(s, i)
    {
      if i + 1 < |a| {
        assert !Juxtaposed(a, i);
      } else if i > |a| {
        assert !Juxtaposed(b, i - |a| - 1);
      }
    }
  }

  lemma {:induction false} NotsAreNots(n: nat)
    ensures |Nots(n)| == n && forall i :: 0 <= i < n ==> Nots(n)[i] == Not
  {
    if n > 0 {
      NotsAreNots(n - 1);
    }
  }

  lemma {:induction false} TermIsJoined(t: Term)
    ensures Joined(TermTokens(t))
    ensures t.atom.Some? ==> var ts := TermTokens(t); ts != [] && ts[|ts| - 1].Atom?
  {
    NotsAreNots(t.nots);
  }

  lemma {:induction false} ConjIsJoined(c: Conj)
    requires c != []
    ensures Joined(ConjTokens(c))
    ensures c[|c| - 1].atom.Some? ==> var ts := ConjTokens(c); ts != [] && ts[|ts| - 1].Atom?
  {
    TermIsJoined(c[0]);
    if |c| > 1 {
      ConjIsJoined(c[1..]);
      JoinedAcross(TermTokens(c[0]), And, ConjTokens(c[1..]));
    }
  }

  lemma {:induction false} DisjIsJoined(d: Disj)
    requires IsDisj(d)
    ensures Joined(DisjTokens(d))
    ensures var c := d[|d| - 1]; c[|c| - 1].atom.Some? ==>
              var ts := DisjTokens(d); ts != [] && ts[|ts| - 1].Atom?
  {
    ConjIsJoined(d[0]);
    if |d| > 1 {
      DisjIsJoined(d[1..]);
      JoinedAcross(ConjTokens(d[0]), Or, DisjTokens(d[1..]));
    }
  }

  /** The parser reads everything exactly when operators join all atoms; otherwise it
      stops, silently, behind the first atom that nothing joins to what comes next. */
  lemma {:induction false} TrailingTokensIgnored(ts: seq<Token>, env: Env)
    ensures EvalOr(ts, env).1 == [] <==> Joined(ts)
    ensures EvalOr(ts, env).1 != [] ==>
              var i := |ts| - |EvalOr(ts, env).1| - 1;
              && i >= 0 && Juxtaposed(ts, i) && EvalOr(ts, env).1 == ts[i + 1..]
              && forall j: nat :: j < i ==> !Juxtaposed(ts, j)
  {
    var d, rest := FactorDisj(ts);
    EvalDisj(d, rest, env);
    DisjIsJoined(d);
    var read := DisjTokens(d);
    if rest == [] {
      assert ts == read;
    } else {
      var i := |read| - 1;
      assert ts[i] == read[i] && ts[i + 1] == rest[0];
      assert Juxtaposed(ts, i);
      forall j: nat | j < i
        ensures !Juxtaposed(ts, j)
      {
        assert !Juxtaposed(read, j);
      }
    }
  }

  // ----- From text to meaning -----

  /** The text of any expression over well-formed atoms evaluates to its meaning, and
      nothing of it is left unread. */
  lemma {:induction false} EvaluateWhenIsDenotation(d: Disj, expr: string, env: Env)
    requires IsDisj(d) && forall t <- DisjTokens(d) :: IsToken(t)
    requires Encode(expr) == Print(DisjTokens(d))
    ensures EvalOr(Tokenize(Encode(expr)), env) == (DisjHolds(d, env), [])
  {
    TokenizePrint(DisjTokens(d));
    EvalDisj(d, [], env);
    assert DisjTokens(d) + [] == DisjTokens(d);
  }
}
