/** Matching agent sessions to worktrees. Directory listings come in no particular order,
    so everything a user sees must be a function of the set of sessions, not of the order
    they were met in. */
module Sessions {
  import opened Wrappers
  import opened Orders
  import opened Text

  type Path = seq<string>

  datatype Kind = ClaudeCode | Codex | Opencode | Vibe

  datatype Session = Session(
    kind: Kind, cwd: Path, lastActivity: int, ended: bool, id: string, name: Option<string>)

  // ----- The sort key -----

  datatype Key = Key(ended: bool, lastActivity: int, kind: Kind, id: string)

  function SortKey(s: Session): Key {
    Key(s.ended, s.lastActivity, s.kind, s.id)
  }

  function KindRank(kind: Kind): nat {
    match kind
    case ClaudeCode => 0
    case Codex => 1
    case Opencode => 2
    case Vibe => 3
  }

  /** Live before ended, recent before old, then kind, then id. */
  predicate KeyLess(a: Key, b: Key) {
    if a.ended != b.ended then b.ended
    else if a.lastActivity != b.lastActivity then a.lastActivity > b.lastActivity
    else if a.kind != b.kind then KindRank(a.kind) < KindRank(b.kind)
    else StringLess(a.id, b.id)
  }

  lemma {:induction false} KeyLessIsTotal(a: Key, b: Key)
    ensures KeyLess(a, b) || KeyLess(b, a) || a == b
    ensures !(KeyLess(a, b) && KeyLess(b, a))
  {
    StringLessIsTotal(a.id, b.id);
  }

  lemma {:induction false} KeyLessIsTransitive(a: Key, b: Key, c: Key)
    requires !KeyLess(b, a) && !KeyLess(c, b)
    ensures !KeyLess(c, a)
  {
    KeyLessIsTotal(a, b);
    KeyLessIsTotal(b, c);
    KeyLessIsTotal(a, c);
    if StringLess(a.id, b.id) && StringLess(b.id, c.id) {
      StringLessIsTransitive(a.id, b.id, c.id);
    }
    StringLessIsTotal(a.id, c.id);
  }

  // ----- The stable sort -----

  predicate Sorted(s: seq<Session>) {
    forall i, j :: 0 <= i < j < |s| ==> !KeyLess(SortKey(s[j]), SortKey(s[i]))
  }

  /** The sessions of `s` that have key `k`, in their order of appearance. */
  function WithKey(s: seq<Session>, k: Key): seq<Session> {
    if s == [] then []
    else WithKey(s[..|s| - 1], k) + if SortKey(s[|s| - 1]) == k then [s[|s| - 1]] else []
  }

  /** Puts `x` behind every session its key does not come before. */
  function Insert(s: seq<Session>, x: Session): seq<Session> {
    if s != [] && KeyLess(SortKey(x), SortKey(s[|s| - 1]))
    then Insert(s[..|s| - 1], x) + [s[|s| - 1]]
    else s + [x]
  }

  /** The standard library's stable `sort_by_key`. */
  function Sort(s: seq<Session>): seq<Session> {
    if s == [] then [] else Insert(Sort(s[..|s| - 1]), s[|s| - 1])
  }

  lemma {:induction false} InsertAdds(s: seq<Session>, x: Session)
    ensures multiset(Insert(s, x)) == multiset(s) + multiset{x}
  {
    if s != [] && KeyLess(SortKey(x), SortKey(s[|s| - 1])) {
      InsertAdds(s[..|s| - 1], x);
      assert s == s[..|s| - 1] + [s[|s| - 1]];
    }
  }

  lemma {:induction false} InsertSorts(s: seq<Session>, x: Session)
    requires Sorted(s)
    ensures Sorted(Insert(s, x))
  {
    if s == [] {
      return;
    }
    var init, last := s[..|s| - 1], s[|s| - 1];
    KeyLessIsTotal(SortKey(x), SortKey(last));
    if KeyLess(SortKey(x), SortKey(last)) {
      InsertSorts(init, x);
      InsertAdds(init, x);
      forall y <- Insert(init, x)
        ensures !KeyLess(SortKey(last), SortKey(y))
      {
        assert y in multiset(Insert(init, x));
      }
    } else {
      forall y <- s
        ensures !KeyLess(SortKey(x), SortKey(y))
      {
        KeyLessIsTotal(SortKey(y), SortKey(last));
        KeyLessIsTransitive(SortKey(y), SortKey(last), SortKey(x));
      }
    }
  }

  lemma {:induction false} InsertIsStable(s: seq<Session>, x: Session, k: Key)
    ensures WithKey(Insert(s, x), k) == WithKey(s, k) + if SortKey(x) == k then [x] else []
  {
    if s != [] && KeyLess(SortKey(x), SortKey(s[|s| - 1])) {
      InsertIsStable(s[..|s| - 1], x, k);
      KeyLessIsTotal(SortKey(x), SortKey(s[|s| - 1]));
      var t := Insert(s, x);
      assert t[..|t| - 1] == Insert(s[..|s| - 1], x);
    } else {
      assert (s + [x])[..|s|] == s;
    }
  }

  lemma {:induction false} SortPermutes(s: seq<Session>)
    ensures multiset(Sort(s)) == multiset(s)
    ensures Sorted(Sort(s))
  {
    if s != [] {
      SortPermutes(s[..|s| - 1]);
      InsertAdds(Sort(s[..|s| - 1]), s[|s| - 1]);
      InsertSorts(Sort(s[..|s| - 1]), s[|s| - 1]);
      assert s == s[..|s| - 1] + [s[|s| - 1]];
    }
  }

  lemma {:induction false} SortIsStable(s: seq<Session>, k: Key)
    ensures WithKey(Sort(s), k) == WithKey(s, k)
  {
    if s != [] {
      SortIsStable(s[..|s| - 1], k);
      InsertIsStable(Sort(s[..|s| - 1]), s[|s| - 1], k);
    }
  }

  lemma {:induction false} WithKeyMembers(s: seq<Session>, k: Key)
    ensures forall x :: x in WithKey(s, k) <==> x in s && SortKey(x) == k
  {
    if s != [] {
      assert s == s[..|s| - 1] + [s[|s| - 1]];
      WithKeyMembers(s[..|s| - 1], k);
    }
  }

  function ShowsAKey(s: seq<Session>): (k: Key)
    ensures s != [] <==> WithKey(s, k) != []
  {
    if s == [] then Key(true, 0, Vibe, "") else SortKey(s[|s| - 1])
  }

  /** A sorted sequence is determined by its per-key subsequences: any stable sort gives
      the same answer. */
  lemma {:induction false} SortedIsUnique(a: seq<Session>, b: seq<Session>)
    requires Sorted(a) && Sorted(b)
    requires forall k :: WithKey(a, k) == WithKey(b, k)
    ensures a == b
  {
    var ka, kb := ShowsAKey(a), ShowsAKey(b);
    assert WithKey(a, ka) == WithKey(b, ka) && WithKey(a, kb) == WithKey(b, kb);
    if a != [] && b != [] {
      var x, y := a[|a| - 1], b[|b| - 1];
      LastIsGreatest(a, b);
      LastIsGreatest(b, a);
      KeyLessIsTotal(SortKey(x), SortKey(y));
      var k := SortKey(x);
      assert WithKey(a, k)[|WithKey(a, k)| - 1] == x;
      assert WithKey(b, k)[|WithKey(b, k)| - 1] == y;
      var a', b' := a[..|a| - 1], b[..|b| - 1];
      forall j
        ensures WithKey(a', j) == WithKey(b', j)
      {
        assert WithKey(a, j) == WithKey(b, j);
        if j == k {
          assert WithKey(a', k) == WithKey(a, k)[..|WithKey(a, k)| - 1];
          assert WithKey(b', k) == WithKey(b, k)[..|WithKey(b, k)| - 1];
        } else {
          assert WithKey(a, j) == WithKey(a', j) && WithKey(b, j) == WithKey(b', j);
        }
      }
      SortedIsUnique(a', b');
      assert a == a' + [x] && b == b' + [y];
    }
  }

  lemma {:induction false} LastIsGreatest(a: seq<Session>, b: seq<Session>)
    requires a != [] && b != [] && Sorted(b)
    requires forall k :: WithKey(a, k) == WithKey(b, k)
    ensures !KeyLess(SortKey(b[|b| - 1]), SortKey(a[|a| - 1]))
  {
    var x := a[|a| - 1];
    WithKeyMembers(a, SortKey(x));
    WithKeyMembers(b, SortKey(x));
    assert x in WithKey(b, SortKey(x));
    assert x in b;
    KeyLessIsTotal(SortKey(b[|b| - 1]), SortKey(b[|b| - 1]));
  }

  // ----- The order as it is seen -----

  /** Kinds in the order they are declared in, one kind next to itself included. */
  predicate KindsInOrder(a: Kind, b: Kind) {
    || a.ClaudeCode?
    || (a.Codex? && !b.ClaudeCode?)
    || (a.Opencode? && (b.Opencode? || b.Vibe?))
    || (a.Vibe? && b.Vibe?)
  }

  /** Running sessions before ended ones, among those the most recently active first, then by
      kind, and then by id. */
  predicate InOrder(a: Session, b: Session) {
    && (a.ended ==> b.ended)
    && (a.ended == b.ended ==> a.lastActivity >= b.lastActivity)
    && (a.ended == b.ended && a.lastActivity == b.lastActivity ==> KindsInOrder(a.kind, b.kind))
    && (a.ended == b.ended && a.lastActivity == b.lastActivity && a.kind == b.kind ==>
          a.id == b.id || ComesFirst(a.id, b.id))
  }

  lemma {:induction false} InOrderIff(a: Session, b: Session)
    ensures InOrder(a, b) <==> !KeyLess(SortKey(b), SortKey(a))
  {
    StringLessIff(a.id, b.id);
    StringLessIff(b.id, a.id);
    StringLessIsTotal(a.id, b.id);
    StringLessIsTotal(b.id, b.id);
  }

  /** A list is sorted exactly when every session stands in order to every later one. */
  lemma {:induction false} SortedIff(s: seq<Session>)
    ensures Sorted(s) <==> forall i, j :: 0 <= i < j < |s| ==> InOrder(s[i], s[j])
  {
    forall i, j | 0 <= i < j < |s|
      ensures InOrder(s[i], s[j]) <==> !KeyLess(SortKey(s[j]), SortKey(s[i]))
    {
      InOrderIff(s[i], s[j]);
    }
  }

  /** What the sort gives: the same sessions, in order. */
  lemma {:induction false} SortOrders(s: seq<Session>)
    ensures multiset(Sort(s)) == multiset(s) && |Sort(s)| == |s|
    ensures forall i, j :: 0 <= i < j < |s| ==> InOrder(Sort(s)[i], Sort(s)[j])
  {
    SortPermutes(s);
    SortedIff(Sort(s));
    assert |multiset(Sort(s))| == |multiset(s)|;
  }

  // ----- When the order of discovery does not matter -----

  /** Sessions with the same key are the same session. */
  predicate KeysTellApart(s: seq<Session>) {
    forall x, y :: x in s && y in s && SortKey(x) == SortKey(y) ==> x == y
  }

  ghost predicate OrderIndependent(s: seq<Session>) {
    forall t | multiset(t) == multiset(s) :: Sort(t) == Sort(s)
  }

  /** `n` copies of `x`. */
  function Copies(x: Session, n: nat): seq<Session> {
    if n == 0 then [] else Copies(x, n - 1) + [x]
  }

  lemma {:induction false} WithKeyOfOne(s: seq<Session>, x: Session)
    requires forall y <- s :: SortKey(y) == SortKey(x) ==> y == x
    ensures WithKey(s, SortKey(x)) == Copies(x, multiset(s)[x])
  {
    if s != [] {
      var init, last := s[..|s| - 1], s[|s| - 1];
      assert s == init + [last];
      WithKeyOfOne(init, x);
    }
  }

  lemma {:induction false} PermutationSortsAlike(s: seq<Session>, t: seq<Session>)
    requires KeysTellApart(s) && multiset(s) == multiset(t)
    ensures Sort(s) == Sort(t)
  {
    SortPermutes(s);
    SortPermutes(t);
    forall k
      ensures WithKey(Sort(s), k) == WithKey(Sort(t), k)
    {
      SortIsStable(s, k);
      SortIsStable(t, k);
      assert forall x :: x in s <==> x in multiset(s);
      assert forall x :: x in t <==> x in multiset(t);
      if x :| x in s && SortKey(x) == k {
        WithKeyOfOne(s, x);
        WithKeyOfOne(t, x);
      } else {
        NoneWithKey(s, k);
        NoneWithKey(t, k);
      }
    }
    SortedIsUnique(Sort(s), Sort(t));
  }

  lemma {:induction false} NoneWithKey(s: seq<Session>, k: Key)
    requires forall x <- s :: SortKey(x) != k
    ensures WithKey(s, k) == []
  {
    if s != [] {
      assert s[|s| - 1] in s;
      NoneWithKey(s[..|s| - 1], k);
    }
  }

  /** Two unequal sessions with one key come out in whichever order they went in. */
  lemma {:induction false} TieKeepsOrder(s: seq<Session>, i: nat, j: nat)
    requires i < |s| && j < |s| && s[i] != s[j] && SortKey(s[i]) == SortKey(s[j])
    ensures !OrderIndependent(s)
  {
    var a, b := ToFront(s, i), ToFront(s, j);
    ToFrontPermutes(s, i);
    ToFrontPermutes(s, j);
    var k := SortKey(s[i]);
    WithKeyOfFirst(a, k);
    WithKeyOfFirst(b, k);
    SortIsStable(a, k);
    SortIsStable(b, k);
  }

  lemma {:induction false} WithKeyOfFirst(s: seq<Session>, k: Key)
    requires s != [] && SortKey(s[0]) == k
    ensures WithKey(s, k) != [] && WithKey(s, k)[0] == s[0]
  {
    if |s| > 1 {
      WithKeyOfFirst(s[..|s| - 1], k);
    } else {
      assert WithKey(s[..0], k) == [];
    }
  }

  /** The sorted list is the same for every order of discovery exactly when no two
      different sessions share a key. */
  lemma {:induction false} OrderIndependentIff(s: seq<Session>)
    ensures OrderIndependent(s) <==> KeysTellApart(s)
  {
    if KeysTellApart(s) {
      forall t | multiset(t) == multiset(s)
        ensures Sort(t) == Sort(s)
      {
        PermutationSortsAlike(s, t);
      }
    } else {
      var x, y :| x in s && y in s && SortKey(x) == SortKey(y) && x != y;
      var i :| 0 <= i < |s| && s[i] == x;
      var j :| 0 <= j < |s| && s[j] == y;
      TieKeepsOrder(s, i, j);
    }
  }
}
