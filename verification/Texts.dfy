/** The order of texts: character by character, a proper prefix first. */
module Texts {
  /** a and b agree before n, where a ends or has the smaller character. */
  predicate PrecedesAt(a: string, b: string, n: nat) {
    && n <= |a| && n < |b| && a[..n] == b[..n]
    && (n < |a| ==> a[n] < b[n])
  }

  ghost predicate Precedes(a: string, b: string) {
    exists n: nat :: PrecedesAt(a, b, n)
  }

  predicate StrLess(a: string, b: string)
    ensures StrLess(a, b) <==> Precedes(a, b)
  {
    StrLessPrecedes(a, b);
    b != [] && (a == [] || a[0] < b[0] || (a[0] == b[0] && StrLess(a[1..], b[1..])))
  }

  predicate StrLeq(a: string, b: string)
    ensures StrLeq(a, b) <==> a == b || Precedes(a, b)
  {
    a == b || StrLess(a, b)
  }

  /** Behind a common first character the order is that of the rest. */
  lemma StrLessPrecedes(a: string, b: string)
    ensures Precedes(a, b) <==>
            b != [] && (a == [] || a[0] < b[0] || (a[0] == b[0] && Precedes(a[1..], b[1..])))
  {
    if n: nat :| PrecedesAt(a, b, n) {
      if n > 0 {
        assert a[..n] == [a[0]] + a[1..][..n - 1] && b[..n] == [b[0]] + b[1..][..n - 1];
        assert PrecedesAt(a[1..], b[1..], n - 1);
      }
    }
    if b != [] && (a == [] || a[0] < b[0]) {
      assert PrecedesAt(a, b, 0);
    }
    if a != [] && b != [] && a[0] == b[0] && Precedes(a[1..], b[1..]) {
      var n: nat :| PrecedesAt(a[1..], b[1..], n);
      assert a[..n + 1] == [a[0]] + a[1..][..n] && b[..n + 1] == [b[0]] + b[1..][..n];
      assert PrecedesAt(a, b, n + 1);
    }
  }

  lemma PrecedesTrans(a: string, b: string, c: string)
    requires Precedes(a, b) && Precedes(b, c)
    ensures Precedes(a, c)
  {
    var m: nat :| PrecedesAt(a, b, m);
    var n: nat :| PrecedesAt(b, c, n);
    var k := if m < n then m else n;
    assert a[..k] == a[..m][..k] && b[..k] == b[..m][..k] && b[..k] == b[..n][..k] && c[..k] == c[..n][..k];
    assert k < n ==> b[k] == b[..n][k] == c[..n][k];
    assert k < m ==> a[k] == a[..m][k] == b[..m][k];
    assert PrecedesAt(a, c, k);
  }

  lemma {:induction false} PrecedesTotal(a: string, b: string)
    ensures a == b || Precedes(a, b) || Precedes(b, a)
  {
    StrLessPrecedes(a, b);
    StrLessPrecedes(b, a);
    if a != [] && b != [] && a[0] == b[0] {
      PrecedesTotal(a[1..], b[1..]);
      assert a == [a[0]] + a[1..] && b == [b[0]] + b[1..];
    }
  }

  lemma PrecedesStrict(a: string, b: string)
    requires Precedes(a, b)
    ensures a != b && !Precedes(b, a)
  {
    var n: nat :| PrecedesAt(a, b, n);
    forall m: nat | m <= |b| && m < |a| && b[..m] == a[..m] ensures !(m < |b| ==> b[m] < a[m]) {
      if m < n {
        assert a[m] == a[..n][m] && b[m] == b[..n][m];
      }
    }
  }
}
