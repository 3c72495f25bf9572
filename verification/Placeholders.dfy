/** Placeholder expansion: one pass over the template that must equal substituting all of
    its tokens at once. */
module Placeholders {
  import opened Wrappers
  import opened Text

  // ----- Values -----

  /** The value of each token, absent when it is left as it is. */
  type Values = map<string, string>

  /** The main repository's directory, and its parent when it has one. */
  datatype RepoDir = RepoDir(path: string, parent: Option<string>)

  datatype Repo = Repo(
    name: string, type_: Option<string>, issue: Option<string>, desc: Option<string>, dir: Option<RepoDir>)

  function ValuesOf(home: string, repo: Repo): Values {
    map["{home}" := home, "{repo}" := repo.name] +
    Known("{type}", repo.type_) + Known("{issue}", repo.issue) + Known("{desc}", repo.desc) +
    (match repo.dir
     case None => map[]
     case Some(dir) => map["{repo_path}" := dir.path] + Known("{repo_parent}", dir.parent))
  }

  function Known(token: string, value: Option<string>): Values {
    if value.Some? then map[token := value.value] else map[]
  }

  // ----- Tokens of a template -----

  predicate IsBrace(c: char) {
    c == '{' || c == '}'
  }

  /** A `{`…`}` pair with no brace between. */
  predicate IsTokenAt(s: string, i: int, j: int) {
    0 <= i < j < |s| && s[i] == '{' && s[j] == '}' && forall k :: i < k < j ==> !IsBrace(s[k])
  }

  /** Position of the first brace from `i` on, or the length when there is none. */
  function NextBrace(s: string, i: nat): (j: nat)
    requires i <= |s|
    ensures i <= j <= |s|
    decreases |s| - i
  {
    if i == |s| || IsBrace(s[i]) then i else NextBrace(s, i + 1)
  }

  lemma {:induction false} NextBraceIsFirst(s: string, i: nat)
    requires i <= |s|
    ensures var j := NextBrace(s, i);
            (j < |s| ==> IsBrace(s[j])) && forall k :: i <= k < j ==> !IsBrace(s[k])
    decreases |s| - i
  {
    if i < |s| && !IsBrace(s[i]) {
      NextBraceIsFirst(s, i + 1);
    }
  }

  /** The end of the token that starts at `i`, or `i` itself when none does. */
  function TokenEnd(s: string, i: nat): (e: nat)
    requires i < |s|
    ensures i <= e <= |s|
  {
    if s[i] == '{' then
      var j := NextBrace(s, i + 1);
      if j < |s| && s[j] == '}' then j + 1 else i
    else i
  }

  lemma {:induction false} TokenEndIff(s: string, i: nat, j: nat)
    requires i < |s|
    ensures IsTokenAt(s, i, j) <==> i <= j && TokenEnd(s, i) == j + 1
  {
    NextBraceIsFirst(s, i + 1);
    var k := NextBrace(s, i + 1);
    if IsTokenAt(s, i, j) {
      assert k == j;
    }
  }

  // ----- Substitution -----

  /** The value of a token, or the token itself. */
  function Filled(token: string, values: Values): string {
    if token in values then values[token] else token
  }

  /** Where the walk over the template goes on after position `i`. Values have no say. */
  function Next(s: string, i: nat): (n: nat)
    requires i < |s|
    ensures i < n <= |s|
  {
    if TokenEnd(s, i) > i then TokenEnd(s, i) else i + 1
  }

  /** What is written for position `i`: one token's value, or one character. */
  function Part(s: string, i: nat, values: Values): string
    requires i < |s|
  {
    if TokenEnd(s, i) > i then Filled(s[i..TokenEnd(s, i)], values) else [s[i]]
  }

  /** All tokens replaced at once, each by itself, whatever the values contain. */
  function Parts(s: string, i: nat, values: Values): seq<string>
    requires i <= |s|
    decreases |s| - i
  {
    if i == |s| then [] else [Part(s, i, values)] + Parts(s, Next(s, i), values)
  }

  function Substitute(s: string, values: Values): string {
    Concat(Parts(s, 0, values))
  }

  /** A run of characters, one part each. */
  function Chars(s: string, i: nat, n: nat): seq<string>
    requires i <= n <= |s|
    decreases n - i
  {
    if i == n then [] else [[s[i]]] + Chars(s, i + 1, n)
  }

  lemma {:induction false} ConcatChars(s: string, i: nat, n: nat)
    requires i <= n <= |s|
    ensures Concat(Chars(s, i, n)) == s[i..n]
    decreases n - i
  {
    if i < n {
      ConcatChars(s, i + 1, n);
      ConcatMore([], [s[i]]);
      ConcatAppend([[s[i]]], Chars(s, i + 1, n));
      assert s[i..n] == [s[i]] + s[i + 1..n];
    }
  }

  /** Where no token starts, characters are copied. */
  lemma {:induction false} CopiedParts(s: string, i: nat, n: nat, values: Values)
    requires i <= n <= |s| && forall k :: i <= k < n ==> TokenEnd(s, k) == k
    ensures Parts(s, i, values) == Chars(s, i, n) + Parts(s, n, values)
    decreases n - i
  {
    if i < n {
      CopiedParts(s, i + 1, n, values);
    }
  }

  // ----- The loop -----

  /** Position of the first `c` from `i` on, or the length when there is none. */
  function FindFrom(s: string, c: char, i: nat): (j: nat)
    requires i <= |s|
    ensures i <= j <= |s|
    ensures j < |s| ==> s[j] == c
    ensures forall k :: i <= k < j ==> s[k] != c
    decreases |s| - i
  {
    if i == |s| || s[i] == c then i else FindFrom(s, c, i + 1)
  }

  /** Without a `}` behind the first `{`, nothing is a token. */
  lemma {:induction false} NoTokenLeft(s: string, pos: nat, open: nat)
    requires pos <= open <= |s|
    requires (forall k :: pos <= k < open ==> s[k] != '{') && (forall k :: open <= k < |s| ==> s[k] != '}')
    ensures forall k :: pos <= k < |s| ==> TokenEnd(s, k) == k
  {
  }

  /** The token the loop takes: from the last `{` before the first `}` that follows a `{`. */
  lemma {:induction false} TokenTaken(s: string, pos: nat, open: nat, start: nat, close: nat)
    requires pos <= open <= start < close < |s|
    requires s[start] == '{' && s[close] == '}'
    requires forall k :: pos <= k < open ==> s[k] != '{'
    requires forall k :: open <= k < close ==> s[k] != '}'
    requires forall k :: start < k < close ==> s[k] != '{'
    ensures forall k :: pos <= k < start ==> TokenEnd(s, k) == k
    ensures TokenEnd(s, start) == close + 1
  {
    forall k | pos <= k < start
      ensures TokenEnd(s, k) == k
    {
      if s[k] == '{' {
        NextBraceIsFirst(s, k + 1);
        assert NextBrace(s, k + 1) <= start;
      }
    }
    assert IsTokenAt(s, start, close);
    TokenEndIff(s, start, close);
  }

  /** Without a home directory nothing is expanded. `tilde` stands for the expansion of a
      leading `~`, which comes last. */
  method ExpandPlaceholders(template: string, home: Option<string>, repo: Repo, tilde: string -> string)
    returns (out: Option<string>)
    ensures out == if home.None? then None else Some(tilde(Substitute(template, ValuesOf(home.value, repo))))
  {
    if home.None? {
      return None;
    }
    var expanded := Expand(template, ValuesOf(home.value, repo));
    out := Some(tilde(expanded));
  }

  /** The pieces written so far are those of the template up to `pos`. */
  predicate IsWritten(written: seq<string>, s: string, pos: nat, values: Values) {
    pos <= |s| && written + Parts(s, pos, values) == Parts(s, 0, values)
  }

  method Expand(template: string, values: Values) returns (out: string)
    ensures out == Substitute(template, values)
  {
    out := "";
    var pos := 0;
    ghost var written: seq<string> := [];
    while true
      invariant IsWritten(written, template, pos, values) && out == Concat(written)
      decreases |template| - pos
    {
      var found := FindToken(template, pos);
      if found.None? {
        break;
      }
      var (start, close) := found.value;
      var token := template[start..close + 1];
      written := TakeToken(written, template, pos, start, close, values);
      out := out + template[pos..start];
      out := out + (if token in values then values[token] else token);
      pos := close + 1;
    }
    CopyRest(written, template, pos, values);
    out := out + template[pos..];
  }

  /** The searches at the top of the loop: the first `{`, the first `}` behind it, and the
      last `{` before that. */
  method FindToken(template: string, pos: nat) returns (found: Option<(nat, nat)>)
    requires pos <= |template|
    ensures found.None? ==> forall k :: pos <= k < |template| ==> TokenEnd(template, k) == k
    ensures found.Some? ==>
              var (start, close) := found.value;
              && pos <= start < close < |template| && TokenEnd(template, start) == close + 1
              && forall k :: pos <= k < start ==> TokenEnd(template, k) == k
  {
    var open := FindFrom(template, '{', pos);
    if open == |template| {
      NoTokenLeft(template, pos, open);
      return None;
    }
    var close := FindFrom(template, '}', open);
    if close == |template| {
      NoTokenLeft(template, pos, open);
      return None;
    }
    var between := template[open..close];
    FindLastIsLast(between, '{');
    assert between[0] == '{';
    var start := open + FindLast(between, '{');
    assert forall k :: start < k < close ==> template[k] == between[k - open];
    TokenTaken(template, pos, open, start, close);
    found := Some((start, close));
  }

  lemma {:induction false} CopyRest(written: seq<string>, s: string, pos: nat, values: Values)
    requires IsWritten(written, s, pos, values) && forall k :: pos <= k < |s| ==> TokenEnd(s, k) == k
    ensures Substitute(s, values) == Concat(written) + s[pos..]
  {
    CopiedParts(s, pos, |s|, values);
    ConcatChars(s, pos, |s|);
    assert Parts(s, pos, values) == Chars(s, pos, |s|);
    ConcatAppend(written, Chars(s, pos, |s|));
    assert s[pos..|s|] == s[pos..];
  }

  /** One turn of the loop copies, replaces, and goes on behind the token. */
  lemma {:induction false} TakeToken(written: seq<string>, s: string, pos: nat, start: nat, close: nat, values: Values)
    returns (more: seq<string>)
    requires pos <= start <= close < |s| && TokenEnd(s, start) == close + 1
    requires forall k :: pos <= k < start ==> TokenEnd(s, k) == k
    requires IsWritten(written, s, pos, values)
    ensures IsWritten(more, s, close + 1, values)
    ensures Concat(more) == Concat(written) + s[pos..start] + Filled(s[start..close + 1], values)
  {
    var copied, value := Chars(s, pos, start), Filled(s[start..close + 1], values);
    more := written + copied + [value];
    CopiedParts(s, pos, start, values);
    Reassociate(written, copied, value, Parts(s, close + 1, values));
    ConcatChars(s, pos, start);
    ConcatAppend(written, copied);
    ConcatMore(written + copied, value);
  }

  lemma {:induction false} Reassociate(a: seq<string>, b: seq<string>, p: string, c: seq<string>)
    ensures a + b + [p] + c == a + (b + ([p] + c))
  {
  }

  // ----- What is substituted -----

  /** The walk over the pieces from `pos` on meets a token from `i` to `j`. */
  predicate Replaces(s: string, pos: nat, i: nat, j: nat)
    requires pos <= |s|
    decreases |s| - pos
  {
    pos < |s| && ((i == pos && pos < TokenEnd(s, pos) == j + 1) || Replaces(s, Next(s, pos), i, j))
  }

  /** Precisely the `{`…`}` pairs with no brace between are replaced. */
  lemma {:induction false} ReplacesIff(s: string, pos: nat, i: nat, j: nat)
    requires pos <= |s|
    ensures Replaces(s, pos, i, j) <==> pos <= i && IsTokenAt(s, i, j)
    decreases |s| - pos
  {
    if pos < |s| {
      ReplacesIff(s, Next(s, pos), i, j);
      TokenEndIff(s, pos, j);
      if TokenEnd(s, pos) > pos {
        TokenEndIff(s, pos, TokenEnd(s, pos) - 1);
      }
    }
  }

  /** A template none of whose tokens has a value expands to itself. */
  lemma {:induction false} NothingKnown(s: string, pos: nat, values: Values)
    requires pos <= |s|
    requires forall i, j | IsTokenAt(s, i, j) :: s[i..j + 1] !in values
    ensures Concat(Parts(s, pos, values)) == s[pos..]
    decreases |s| - pos
  {
    if pos < |s| {
      var part, next := Part(s, pos, values), Next(s, pos);
      NothingKnown(s, next, values);
      UnknownPart(s, pos, values);
      ConcatMore([], part);
      ConcatAppend([part], Parts(s, next, values));
      assert s[pos..] == s[pos..next] + s[next..];
    }
  }

  lemma {:induction false} UnknownPart(s: string, pos: nat, values: Values)
    requires pos < |s| && forall i, j | IsTokenAt(s, i, j) :: s[i..j + 1] !in values
    ensures Part(s, pos, values) == s[pos..Next(s, pos)]
  {
    if TokenEnd(s, pos) > pos {
      TokenEndIff(s, pos, TokenEnd(s, pos) - 1);
      assert IsTokenAt(s, pos, TokenEnd(s, pos) - 1);
    }
  }

  // ----- Templates side by side -----

  /** No token begins before position `n` and ends behind it. */
  ghost predicate CutsNoToken(s: string, n: nat) {
    forall i, j | IsTokenAt(s, i, j) :: j < n || i >= n
  }

  lemma {:induction false} TokenShift(a: string, b: string, i: int, j: int)
    requires i >= 0
    ensures IsTokenAt(a + b, |a| + i, |a| + j) <==> IsTokenAt(b, i, j)
    ensures j < |a| ==> (IsTokenAt(a + b, i, j) <==> IsTokenAt(a, i, j))
  {
    var s := a + b;
    assert forall k :: 0 <= k < |b| ==> s[|a| + k] == b[k];
    assert forall k :: 0 <= k < |a| ==> s[k] == a[k];
    if IsTokenAt(s, |a| + i, |a| + j) {
      assert forall k :: i < k < j ==> s[|a| + k] == b[k];
    }
  }

  lemma {:induction false} TokenEndShift(a: string, b: string, i: nat)
    requires i < |b|
    ensures TokenEnd(a + b, |a| + i) == |a| + TokenEnd(b, i)
  {
    var e, f := TokenEnd(a + b, |a| + i), TokenEnd(b, i);
    if e > |a| + i {
      TokenEndIff(a + b, |a| + i, e - 1);
      TokenShift(a, b, i, e - 1 - |a|);
      TokenEndIff(b, i, e - 1 - |a|);
    }
    if f > i {
      TokenEndIff(b, i, f - 1);
      TokenShift(a, b, i, f - 1);
      TokenEndIff(a + b, |a| + i, |a| + f - 1);
    }
  }

  lemma {:induction false} PartOfSecond(a: string, b: string, i: nat, values: Values)
    requires i < |b|
    ensures Part(a + b, |a| + i, values) == Part(b, i, values)
    ensures Next(a + b, |a| + i) == |a| + Next(b, i)
  {
    TokenEndShift(a, b, i);
    assert (a + b)[|a| + i..|a| + TokenEnd(b, i)] == b[i..TokenEnd(b, i)];
  }

  lemma {:induction false} PartsOfSecond(a: string, b: string, i: nat, values: Values)
    requires i <= |b|
    ensures Parts(a + b, |a| + i, values) == Parts(b, i, values)
    decreases |b| - i
  {
    if i < |b| {
      PartOfSecond(a, b, i, values);
      PartsOfSecond(a, b, Next(b, i), values);
    }
  }

  lemma {:induction false} TokenEndInFirst(a: string, b: string, i: nat)
    requires i < |a| && CutsNoToken(a + b, |a|)
    ensures TokenEnd(a + b, i) == TokenEnd(a, i)
  {
    var e, f := TokenEnd(a + b, i), TokenEnd(a, i);
    if e > i {
      TokenEndIff(a + b, i, e - 1);
      TokenShift(a, b, i, e - 1);
      TokenEndIff(a, i, e - 1);
    }
    if f > i {
      TokenEndIff(a, i, f - 1);
      TokenShift(a, b, i, f - 1);
      TokenEndIff(a + b, i, f - 1);
    }
  }

  lemma {:induction false} PartOfFirst(a: string, b: string, i: nat, values: Values)
    requires i < |a| && CutsNoToken(a + b, |a|)
    ensures Part(a + b, i, values) == Part(a, i, values)
    ensures Next(a + b, i) == Next(a, i)
  {
    TokenEndInFirst(a, b, i);
    assert (a + b)[i..TokenEnd(a, i)] == a[i..TokenEnd(a, i)];
  }

  lemma {:induction false} PartsOfBoth(a: string, b: string, i: nat, values: Values)
    requires i <= |a| && CutsNoToken(a + b, |a|)
    ensures Parts(a + b, i, values) == Parts(a, i, values) + Parts(b, 0, values)
    decreases |a| - i
  {
    if i == |a| {
      PartsOfSecond(a, b, 0, values);
    } else {
      PartOfFirst(a, b, i, values);
      PartsOfBoth(a, b, Next(a, i), values);
    }
  }

  /** Two templates side by side expand side by side when no token crosses the seam: the
      value put in for one never combines with what stands next to it. */
  lemma {:induction false} SubstituteSideBySide(a: string, b: string, values: Values)
    requires CutsNoToken(a + b, |a|)
    ensures Substitute(a + b, values) == Substitute(a, values) + Substitute(b, values)
  {
    PartsOfBoth(a, b, 0, values);
    ConcatAppend(Parts(a, 0, values), Parts(b, 0, values));
  }

  // ----- The tokens there are -----

  /** What a token stands for; there are seven that can stand for something. */
  function Meaning(token: string, home: string, repo: Repo): Option<string> {
    if token == "{home}" then Some(home)
    else if token == "{repo}" then Some(repo.name)
    else if token == "{type}" then repo.type_
    else if token == "{issue}" then repo.issue
    else if token == "{desc}" then repo.desc
    else if token == "{repo_path}" then if repo.dir.Some? then Some(repo.dir.value.path) else None
    else if token == "{repo_parent}" then if repo.dir.Some? then repo.dir.value.parent else None
    else None
  }

  lemma {:induction false} TokenValues(token: string, home: string, repo: Repo)
    ensures var values := ValuesOf(home, repo);
            (if token in values then Some(values[token]) else None) == Meaning(token, home, repo)
  {
    TokensDiffer();
    Layers(
      ["{home}", "{repo}", "{type}", "{issue}", "{desc}", "{repo_path}", "{repo_parent}"], token, home, repo);
  }

  lemma {:induction false} Layers(names: seq<string>, token: string, home: string, repo: Repo)
    requires |names| == 7 && Distinct(names)
    ensures var dirs: Values :=
              match repo.dir
              case None => map[]
              case Some(dir) => map[names[5] := dir.path] + Known(names[6], dir.parent);
            var values :=
              map[names[0] := home, names[1] := repo.name] +
              Known(names[2], repo.type_) + Known(names[3], repo.issue) + Known(names[4], repo.desc) + dirs;
            (if token in values then Some(values[token]) else None) ==
            if token == names[0] then Some(home)
            else if token == names[1] then Some(repo.name)
            else if token == names[2] then repo.type_
            else if token == names[3] then repo.issue
            else if token == names[4] then repo.desc
            else if token == names[5] then if repo.dir.Some? then Some(repo.dir.value.path) else None
            else if token == names[6] then if repo.dir.Some? then repo.dir.value.parent else None
            else None
  {
  }

  lemma {:induction false} TokensDiffer()
    ensures Distinct(["{home}", "{repo}", "{type}", "{issue}", "{desc}", "{repo_path}", "{repo_parent}"])
  {
    assert "{home}"[1] != "{repo}"[1] && "{home}"[1] != "{type}"[1] && "{home}"[1] != "{desc}"[1];
    assert "{repo}"[1] != "{type}"[1] && "{repo}"[1] != "{desc}"[1] && "{type}"[1] != "{desc}"[1];
  }

  predicate Distinct(tokens: seq<string>) {
    forall i, j :: 0 <= i < j < |tokens| ==> tokens[i] != tokens[j]
  }

  /** A token alone expands to its value, or to itself. */
  lemma {:induction false} TokenAlone(token: string, values: Values)
    requires IsTokenAt(token, 0, |token| - 1)
    ensures token in values ==> Substitute(token, values) == values[token]
    ensures token !in values ==> Substitute(token, values) == token
  {
    TokenEndIff(token, 0, |token| - 1);
    assert token[0..|token|] == token;
    assert Parts(token, 0, values) == [Filled(token, values)];
    ConcatMore([], Filled(token, values));
  }
}
