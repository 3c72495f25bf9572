/** Searching in sequences: the positions `find`, `rfind` and `contains` report; and
    putting sequences together. */
module Text {

  /** Position of the first `c`, or the length when there is none. */
  function Find<T(==)>(s: seq<T>, c: T): (i: nat)
    ensures i <= |s|
    ensures i < |s| ==> s[i] == c
  {
    if s == [] || s[0] == c then 0 else 1 + Find(s[1..], c)
  }

  lemma {:induction false} FindIsFirst<T>(s: seq<T>, c: T)
    ensures c !in s[..Find(s, c)]
    ensures c in s <==> Find(s, c) < |s|
  {
    if s != [] && s[0] != c {
      FindIsFirst(s[1..], c);
      assert s[..Find(s, c)] == [s[0]] + s[1..][..Find(s[1..], c)];
      assert s == [s[0]] + s[1..];
    }
  }

  lemma {:induction false} FindBeyond<T>(a: seq<T>, c: T, b: seq<T>)
    requires c !in a
    ensures Find(a + b, c) == |a| + Find(b, c)
  {
    if a == [] {
      assert a + b == b;
    } else {
      assert a[0] in a;
      assert (a + b)[1..] == a[1..] + b;
      FindBeyond(a[1..], c, b);
    }
  }

  /** The first `c` of `a + [c] + b`, when `a` has none. */
  lemma {:induction false} FindFirst<T>(a: seq<T>, c: T, b: seq<T>)
    requires c !in a
    ensures Find(a + [c] + b, c) == |a|
    ensures Find(a, c) == |a|
  {
    assert a + [c] + b == a + ([c] + b);
    FindBeyond(a, c, [c] + b);
    assert a + [] == a;
    FindBeyond(a, c, []);
  }

  /** Position of the last `c`, or -1. */
  function FindLast<T(==)>(s: seq<T>, c: T): (i: int)
    ensures -1 <= i < |s|
    ensures i >= 0 ==> s[i] == c
  {
    if s == [] then -1 else if s[|s| - 1] == c then |s| - 1 else FindLast(s[..|s| - 1], c)
  }

  lemma {:induction false} FindLastIs<T>(a: seq<T>, c: T, b: seq<T>)
    requires c !in b
    ensures FindLast(a + [c] + b, c) == |a|
    ensures c !in a ==> FindLast(a + b, c) == -1
    decreases |a| + |b|
  {
    if b != [] {
      var last := b[|b| - 1];
      assert last in b;
      assert (a + [c] + b)[..|a + [c] + b| - 1] == a + [c] + b[..|b| - 1];
      assert (a + b)[..|a + b| - 1] == a + b[..|b| - 1];
      FindLastIs(a, c, b[..|b| - 1]);
    } else {
      assert a + b == a;
      assert a + [c] + b == a + [c];
      if a != [] {
        assert a[..|a| - 1] + b == a[..|a| - 1];
        FindLastIs(a[..|a| - 1], c, b);
      }
    }
  }

  lemma {:induction false} FindLastIsLast<T>(s: seq<T>, c: T)
    ensures forall j :: FindLast(s, c) < j < |s| ==> s[j] != c
  {
    if s != [] && s[|s| - 1] != c {
      FindLastIsLast(s[..|s| - 1], c);
    }
  }

  function Concat<T>(parts: seq<seq<T>>): seq<T> {
    if parts == [] then [] else Concat(parts[..|parts| - 1]) + parts[|parts| - 1]
  }

  lemma {:induction false} ConcatMore<T>(parts: seq<seq<T>>, part: seq<T>)
    ensures Concat(parts + [part]) == Concat(parts) + part
    ensures Concat([part]) == part
  {
    assert (parts + [part])[..|parts|] == parts;
    assert [part][..0] == [];
  }

  lemma {:induction false} ConcatAppend<T>(a: seq<seq<T>>, b: seq<seq<T>>)
    ensures Concat(a + b) == Concat(a) + Concat(b)
  {
    if b == [] {
      assert a + b == a;
    } else {
      ConcatAppend(a, b[..|b| - 1]);
      assert (a + b)[..|a + b| - 1] == a + b[..|b| - 1];
    }
  }

  /** Element `i` first, the others in their order. */
  function ToFront<T>(s: seq<T>, i: nat): seq<T>
    requires i < |s|
  {
    [s[i]] + s[..i] + s[i + 1..]
  }

  lemma {:induction false} ToFrontPermutes<T>(s: seq<T>, i: nat)
    requires i < |s|
    ensures multiset(ToFront(s, i)) == multiset(s)
  {
    assert s == s[..i] + [s[i]] + s[i + 1..];
  }
}
