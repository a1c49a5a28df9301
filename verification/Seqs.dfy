/** Sequences taken apart at their end, a member of a set, and integer division rounded up. */
module Seqs {

  function Init<T>(s: seq<T>): seq<T>
    requires s != []
  {
    s[..|s| - 1]
  }

  function Last<T>(s: seq<T>): T
    requires s != []
  {
    s[|s| - 1]
  }

  lemma {:induction false} Member<T>(s: set<T>) returns (x: T)
    requires s != {}
    ensures x in s
  {
    x :| x in s;
  }

  predicate Sorted(s: seq<nat>) {
    forall i, j :: 0 <= i <= j < |s| ==> s[i] <= s[j]
  }

  /** The least whole number of steps of length b that covers a. */
  function CeilDiv(a: int, b: int): int
    requires b > 0
  {
    (a + b - 1) / b
  }

  lemma {:induction false} CeilDivCovers(a: int, b: int)
    requires b > 0
    ensures (CeilDiv(a, b) - 1) * b < a <= CeilDiv(a, b) * b
  {
    var q := CeilDiv(a, b);
    assert q * b <= a + b - 1 < q * b + b;
  }

  lemma {:induction false} CeilDivLeast(a: int, b: int, m: int)
    requires b > 0
    ensures m * b < a <==> m < CeilDiv(a, b)
  {
    var q := CeilDiv(a, b);
    CeilDivCovers(a, b);
    if m < q {
      MulMonotone(m, q - 1, b);
    } else {
      MulMonotone(q, m, b);
    }
  }

  lemma {:induction false} MulMonotone(x: int, y: int, b: int)
    requires x <= y && b >= 0
    ensures x * b <= y * b
  {
    assert (y - x) * b >= 0;
  }

  lemma {:induction false} OneMore(k: int, n: int)
    ensures k * (n + 1) == k * n + k
  {
  }

  lemma {:induction false} CeilDivShift(a: int, b: int)
    requires b > 0
    ensures CeilDiv(a + b, b) == CeilDiv(a, b) + 1
  {
    var r := CeilDiv(a, b);
    CeilDivCovers(a, b);
    OneMore(b, r - 1);
    OneMore(b, r);
    CeilDivLeast(a + b, b, r);
    CeilDivLeast(a + b, b, r + 1);
  }

  lemma {:induction false} CeilDivSmall(a: int, b: int)
    requires 0 <= a <= b && b > 0
    ensures CeilDiv(a, b) == if a == 0 then 0 else 1
  {
    CeilDivLeast(a, b, -1);
    CeilDivLeast(a, b, 0);
    CeilDivLeast(a, b, 1);
  }
}
