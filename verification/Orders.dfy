/** The lexicographic order of strings, by code point, as `Ord for String` has it. */
module Orders {

  predicate StringLess(a: string, b: string) {
    b != "" && (a == "" || a[0] < b[0] || (a[0] == b[0] && StringLess(a[1..], b[1..])))
  }

  lemma {:induction false} StringLessIsTotal(a: string, b: string)
    ensures StringLess(a, b) || StringLess(b, a) || a == b
    ensures !(StringLess(a, b) && StringLess(b, a))
    ensures !StringLess(a, a)
  {
    if a != "" {
      StringLessIsTotal(a[1..], a[1..]);
      if b != "" && a[0] == b[0] {
        StringLessIsTotal(a[1..], b[1..]);
        assert a == [a[0]] + a[1..] && b == [b[0]] + b[1..];
      }
    }
  }

  lemma {:induction false} StringLessIsTransitive(a: string, b: string, c: string)
    requires StringLess(a, b) && StringLess(b, c)
    ensures StringLess(a, c)
  {
    if a != "" && a[0] == b[0] == c[0] {
      StringLessIsTransitive(a[1..], b[1..], c[1..]);
    }
  }

  /** Up to position `n` the two agree; there `a` has ended, or has the smaller character. */
  predicate FirstDiffer(a: string, b: string, n: nat) {
    && n <= |a| && n < |b| && (forall k :: 0 <= k < n ==> a[k] == b[k])
    && (n == |a| || a[n] < b[n])
  }

  predicate ComesFirst(a: string, b: string) {
    exists n :: 0 <= n < |b| && FirstDiffer(a, b, n)
  }

  lemma {:induction false} LessDiffers(a: string, b: string) returns (n: nat)
    requires StringLess(a, b)
    ensures n < |b| && FirstDiffer(a, b, n)
  {
    if a == "" || a[0] < b[0] {
      n := 0;
    } else {
      var m := LessDiffers(a[1..], b[1..]);
      n := m + 1;
      assert forall k :: 0 < k < n ==> a[k] == a[1..][k - 1] && b[k] == b[1..][k - 1];
    }
  }

  lemma {:induction false} DiffersIsLess(a: string, b: string, n: nat)
    requires FirstDiffer(a, b, n)
    ensures StringLess(a, b)
  {
    if n > 0 {
      DiffersIsLess(a[1..], b[1..], n - 1);
    }
  }

  lemma {:induction false} StringLessIff(a: string, b: string)
    ensures StringLess(a, b) <==> ComesFirst(a, b)
  {
    if StringLess(a, b) {
      var n := LessDiffers(a, b);
    }
    if n :| 0 <= n < |b| && FirstDiffer(a, b, n) {
      DiffersIsLess(a, b, n);
    }
  }
}
