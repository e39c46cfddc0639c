/**
 The order in which the document store compares two string values: code point
 by code point, a proper prefix before any longer string. It is the order behind
 the `$gte`/`$lte` date-range filter and behind ascending sorts on `name` and
 `joiningDate`.
 */
module LexOrder {

  predicate LexLe(a: string, b: string) {
    |a| == 0 || (|b| > 0 && (a[0] < b[0] || (a[0] == b[0] && LexLe(a[1..], b[1..]))))
  }

  lemma {:induction false} LexLeReflexive(a: string)
    ensures LexLe(a, a)
  {
    if |a| > 0 {
      LexLeReflexive(a[1..]);
    }
  }

  lemma {:induction false} LexLeAntisymmetric(a: string, b: string)
    requires LexLe(a, b) && LexLe(b, a)
    ensures a == b
  {
    if |a| > 0 && |b| > 0 {
      LexLeAntisymmetric(a[1..], b[1..]);
      assert a == [a[0]] + a[1..] && b == [b[0]] + b[1..];
    }
  }

  lemma {:induction false} LexLeTransitive(a: string, b: string, c: string)
    requires LexLe(a, b) && LexLe(b, c)
    ensures LexLe(a, c)
  {
    if |a| > 0 && a[0] == b[0] && b[0] == c[0] {
      LexLeTransitive(a[1..], b[1..], c[1..]);
    }
  }

  lemma {:induction false} LexLeTotal(a: string, b: string)
    ensures LexLe(a, b) || LexLe(b, a)
  {
    if |a| > 0 && |b| > 0 && a[0] == b[0] {
      LexLeTotal(a[1..], b[1..]);
    }
  }

  /** Comparing two strings that start with prefixes of equal length: the prefixes
      decide unless they are equal, in which case the rests decide. */
  lemma {:induction false} LexLeConcat(p1: string, q1: string, p2: string, q2: string)
    requires |p1| == |p2|
    ensures LexLe(p1 + q1, p2 + q2) <==> (p1 != p2 && LexLe(p1, p2)) || (p1 == p2 && LexLe(q1, q2))
  {
    if |p1| == 0 {
      assert p1 + q1 == q1 && p2 + q2 == q2;
    } else {
      LexLeConcat(p1[1..], q1, p2[1..], q2);
      assert (p1 + q1)[1..] == p1[1..] + q1;
      assert (p2 + q2)[1..] == p2[1..] + q2;
      assert p1 == [p1[0]] + p1[1..] && p2 == [p2[0]] + p2[1..];
    }
  }
}
