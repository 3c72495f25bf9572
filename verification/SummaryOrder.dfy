/** When the summary of scanned sessions does not depend on the order in which they were
    scanned. */
module SummaryOrder {
  import opened Wrappers
  import opened Text
  import opened Sessions
  import opened Detection

  /** No two different sessions that are listed together share a key. */
  ghost predicate ListsTellApart(s: seq<Session>, worktrees: seq<Worktree>, key: Path -> Path) {
    forall id :: KeysTellApart(Matched(s, worktrees, key, id))
  }

  function Summarize(s: seq<Session>, worktrees: seq<Worktree>, key: Path -> Path): Summary {
    SortAll(Collected(s, worktrees, key))
  }

  // ----- Any order -----

  /** A permutation of the sessions permutes every list. */
  lemma {:induction false} MatchedPermutes(
    s: seq<Session>, t: seq<Session>, worktrees: seq<Worktree>, key: Path -> Path, id: string)
    requires multiset(s) == multiset(t)
    ensures multiset(Matched(s, worktrees, key, id)) == multiset(Matched(t, worktrees, key, id))
  {
    forall x
      ensures multiset(Matched(s, worktrees, key, id))[x] == multiset(Matched(t, worktrees, key, id))[x]
    {
      MatchedCount(s, worktrees, key, id, x);
      MatchedCount(t, worktrees, key, id, x);
    }
  }

  lemma {:induction false} MatchedIsOrderIndependent(
    s: seq<Session>, t: seq<Session>, worktrees: seq<Worktree>, key: Path -> Path, id: string)
    requires KeysTellApart(Matched(s, worktrees, key, id)) && multiset(s) == multiset(t)
    ensures Sort(Matched(s, worktrees, key, id)) == Sort(Matched(t, worktrees, key, id))
    ensures Matched(s, worktrees, key, id) == [] <==> Matched(t, worktrees, key, id) == []
  {
    var a, b := Matched(s, worktrees, key, id), Matched(t, worktrees, key, id);
    MatchedPermutes(s, t, worktrees, key, id);
    PermutationSortsAlike(a, b);
    assert |multiset(a)| == |multiset(b)|;
  }

  /** One order of discovery or another: the same summary. */
  lemma {:induction false} SummaryIsOrderIndependent(
    s: seq<Session>, t: seq<Session>, worktrees: seq<Worktree>, key: Path -> Path)
    requires ListsTellApart(s, worktrees, key) && multiset(s) == multiset(t)
    ensures Summarize(s, worktrees, key) == Summarize(t, worktrees, key)
  {
    var a, b := Summarize(s, worktrees, key), Summarize(t, worktrees, key);
    forall id
      ensures id in a <==> id in b
      ensures id in a ==> a[id] == b[id]
    {
      MatchedIsOrderIndependent(s, t, worktrees, key, id);
    }
  }

  lemma {:induction false} ListsTellApartAgain(
    s: seq<Session>, t: seq<Session>, worktrees: seq<Worktree>, key: Path -> Path)
    requires ListsTellApart(s, worktrees, key) && multiset(s) == multiset(t)
    ensures ListsTellApart(t, worktrees, key)
  {
    forall id
      ensures KeysTellApart(Matched(t, worktrees, key, id))
    {
      var a, b := Matched(s, worktrees, key, id), Matched(t, worktrees, key, id);
      MatchedPermutes(s, t, worktrees, key, id);
      assert forall x :: x in b ==> x in multiset(b);
      assert forall x :: x in multiset(a) ==> x in a;
    }
  }

  // ----- Ties -----

  lemma {:induction false} FiledIsCopies(
    list: seq<Session>, s: Session, worktrees: seq<Worktree>, key: Path -> Path, id: string)
    ensures Filed(list, s, worktrees, key, id) == list + Copies(s, Hits(s, worktrees, key, id))
  {
    if worktrees != [] {
      FiledIsCopies(list, s, worktrees[..|worktrees| - 1], key, id);
    }
  }

  lemma {:induction false} WithKeyOfCopies(list: seq<Session>, s: Session, n: nat, k: Key)
    ensures WithKey(list + Copies(s, n), k) == WithKey(list, k) + if SortKey(s) == k then Copies(s, n) else []
  {
    if n == 0 {
      assert list + Copies(s, n) == list;
    } else {
      var fewer := list + Copies(s, n - 1);
      WithKeyOfCopies(list, s, n - 1, k);
      assert list + Copies(s, n) == fewer + [s];
      WithKeyMore(fewer, s, k);
      assert WithKey(list, k) + (Copies(s, n - 1) + [s]) == WithKey(list, k) + Copies(s, n - 1) + [s];
    }
  }

  lemma {:induction false} WithKeyMore(list: seq<Session>, s: Session, k: Key)
    ensures WithKey(list + [s], k) == WithKey(list, k) + if SortKey(s) == k then [s] else []
  {
    assert (list + [s])[..|list|] == list;
  }

  /** Sessions of one key are listed in their order of discovery. */
  lemma {:induction false} MatchedWithKey(
    s: seq<Session>, worktrees: seq<Worktree>, key: Path -> Path, id: string, k: Key)
    ensures WithKey(Matched(s, worktrees, key, id), k) == Matched(WithKey(s, k), worktrees, key, id)
  {
    if s != [] {
      var init, last := s[..|s| - 1], s[|s| - 1];
      var before := Matched(init, worktrees, key, id);
      MatchedWithKey(init, worktrees, key, id, k);
      FiledIsCopies(before, last, worktrees, key, id);
      WithKeyOfCopies(before, last, Hits(last, worktrees, key, id), k);
      if SortKey(last) == k {
        assert (WithKey(init, k) + [last])[..|WithKey(init, k)|] == WithKey(init, k);
        FiledIsCopies(Matched(WithKey(init, k), worktrees, key, id), last, worktrees, key, id);
      } else {
        assert WithKey(before, k) + [] == WithKey(before, k) && WithKey(init, k) + [] == WithKey(init, k);
      }
    }
  }

  lemma {:induction false} MatchedFirst(s: seq<Session>, worktrees: seq<Worktree>, key: Path -> Path, id: string)
    requires s != [] && Hits(s[0], worktrees, key, id) > 0
    ensures Matched(s, worktrees, key, id) != [] && Matched(s, worktrees, key, id)[0] == s[0]
  {
    var init, last := s[..|s| - 1], s[|s| - 1];
    FiledIsCopies(Matched(init, worktrees, key, id), last, worktrees, key, id);
    if init == [] {
      CopiesAre(last, Hits(last, worktrees, key, id));
    } else {
      MatchedFirst(init, worktrees, key, id);
    }
  }

  lemma {:induction false} CopiesAre(x: Session, n: nat)
    ensures |Copies(x, n)| == n && forall i :: 0 <= i < n ==> Copies(x, n)[i] == x
  {
    if n > 0 {
      CopiesAre(x, n - 1);
    }
  }

  predicate StartsWith(list: seq<Session>, x: Session) {
    list != [] && list[0] == x
  }

  /** The first session of a key that is discovered is the first of that key listed, at every
      worktree it matches. */
  lemma {:induction false} FirstOfKeyIsListed(
    s: seq<Session>, worktrees: seq<Worktree>, key: Path -> Path, id: string, x: Session)
    requires StartsWith(WithKey(s, SortKey(x)), x) && Hits(x, worktrees, key, id) > 0
    ensures StartsWith(WithKey(Listed(Summarize(s, worktrees, key), id), SortKey(x)), x)
  {
    var k, matched := SortKey(x), Matched(s, worktrees, key, id);
    MatchedWithKey(s, worktrees, key, id, k);
    MatchedFirst(WithKey(s, k), worktrees, key, id);
    SortIsStable(matched, k);
    WithKeyMembers(matched, k);
    assert WithKey(matched, k)[0] in matched;
    UnknownIdMatchesNothing(s, worktrees, key, id);
  }

  /** Two sessions listed together under one key. */
  predicate AreTied(s: seq<Session>, worktrees: seq<Worktree>, key: Path -> Path, id: string, i: nat, j: nat) {
    && i < |s| && j < |s| && s[i] != s[j] && SortKey(s[i]) == SortKey(s[j])
    && Hits(s[i], worktrees, key, id) > 0 && Hits(s[j], worktrees, key, id) > 0
  }

  lemma {:induction false} FindTie(s: seq<Session>, worktrees: seq<Worktree>, key: Path -> Path)
    returns (id: string, i: nat, j: nat)
    requires !ListsTellApart(s, worktrees, key)
    ensures AreTied(s, worktrees, key, id, i, j)
  {
    id :| !KeysTellApart(Matched(s, worktrees, key, id));
    var matched := Matched(s, worktrees, key, id);
    var x, y :| x in matched && y in matched && SortKey(x) == SortKey(y) && x != y;
    i := Scanned(s, worktrees, key, id, x);
    j := Scanned(s, worktrees, key, id, y);
  }

  lemma {:induction false} Scanned(s: seq<Session>, worktrees: seq<Worktree>, key: Path -> Path, id: string, x: Session)
    returns (i: nat)
    requires x in Matched(s, worktrees, key, id)
    ensures i < |s| && s[i] == x && Hits(x, worktrees, key, id) > 0
  {
    MatchedCount(s, worktrees, key, id, x);
    assert x in multiset(Matched(s, worktrees, key, id));
    assert multiset(s)[x] > 0;
    assert x in s;
    i :| 0 <= i < |s| && s[i] == x;
  }

  /** The summary is the same for every order in which the sessions were scanned exactly when
      no two different sessions that are listed together share a key. */
  lemma {:induction false} SummaryOrderIff(s: seq<Session>, worktrees: seq<Worktree>, key: Path -> Path)
    ensures (forall t | multiset(t) == multiset(s) :: Summarize(t, worktrees, key) == Summarize(s, worktrees, key)) <==>
            ListsTellApart(s, worktrees, key)
  {
    if ListsTellApart(s, worktrees, key) {
      forall t | multiset(t) == multiset(s)
        ensures Summarize(t, worktrees, key) == Summarize(s, worktrees, key)
      {
        SummaryIsOrderIndependent(s, t, worktrees, key);
      }
    } else {
      var id, i, j := FindTie(s, worktrees, key);
      var a, b := ToFront(s, i), ToFront(s, j);
      ToFrontPermutes(s, i);
      ToFrontPermutes(s, j);
      WithKeyOfFirst(a, SortKey(s[i]));
      WithKeyOfFirst(b, SortKey(s[j]));
      FirstOfKeyIsListed(a, worktrees, key, id, s[i]);
      FirstOfKeyIsListed(b, worktrees, key, id, s[j]);
      assert Summarize(a, worktrees, key) != Summarize(b, worktrees, key);
    }
  }

  lemma {:induction false} HitsOfTwo(s: Session, worktrees: seq<Worktree>, key: Path -> Path, id: string)
    requires |worktrees| == 2
    ensures Hits(s, worktrees, key, id) > 0 <==> Claims(worktrees[0], s, key, id) || Claims(worktrees[1], s, key, id)
  {
    assert worktrees[..1] == [worktrees[0]] && [worktrees[0]][..0] == [];
    assert Hits(s, [], key, id) == 0;
    assert Hits(s, [worktrees[0]], key, id) == if Claims(worktrees[0], s, key, id) then 1 else 0;
  }

  /** One session file, copied with its time into the directories of two worktrees: the keys
      are the same, but each list holds one session, and the order does not matter. */
  lemma {:induction false} TiedApartIsDeterministic(x: Session, y: Session, t: seq<Session>)
    requires x.cwd != y.cwd && SortKey(x) == SortKey(y) && multiset(t) == multiset{x, y}
    ensures !KeysTellApart(t)
    ensures var worktrees, key := [Worktree("a", x.cwd), Worktree("b", y.cwd)], (p: Path) => p;
            Summarize(t, worktrees, key) == Summarize([x, y], worktrees, key)
  {
    assert x in multiset(t) && y in multiset(t);
    var worktrees, key := [Worktree("a", x.cwd), Worktree("b", y.cwd)], (p: Path) => p;
    forall id
      ensures KeysTellApart(Matched([x, y], worktrees, key, id))
    {
      forall z | z in Matched([x, y], worktrees, key, id)
        ensures z == if id == "a" then x else y
      {
        var i := Scanned([x, y], worktrees, key, id, z);
        HitsOfTwo(z, worktrees, key, id);
      }
    }
    SummaryIsOrderIndependent([x, y], t, worktrees, key);
  }
}
