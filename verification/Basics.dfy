/** Shared vocabulary: optional values, results, exact ceiling division and the string order. */
module Basics {

  datatype Option<+T> = None | Some(value: T)

  datatype Result<+T, +E> = Ok(value: T) | Err(error: E)

  type Positive = n: nat | 0 < n witness 1

  function Min(a: int, b: int): int {
    if a <= b then a else b
  }

  function Max(a: int, b: int): int {
    if a <= b then b else a
  }

  function Sum(ns: seq<nat>): nat {
    if ns == [] then 0 else Sum(ns[..|ns| - 1]) + ns[|ns| - 1]
  }

  // ---------- ceil(a / b) in exact integer arithmetic ----------

  function CeilDiv(a: nat, b: Positive): nat {
    if a == 0 then 0 else if a <= b then 1 else 1 + CeilDiv(a - b, b)
  }

  lemma {:induction false} CeilDivBounds(a: nat, b: Positive)
    ensures a <= CeilDiv(a, b) * b < a + b
  {
    if a > b {
      CeilDivBounds(a - b, b);
      assert CeilDiv(a, b) * b == CeilDiv(a - b, b) * b + b;
    }
  }

  lemma ProductMonotone(m: int, n: int, b: nat)
    requires m <= n
    ensures m * b <= n * b
  {}

  lemma ProductOrder(m: int, n: int, b: Positive)
    ensures m * b < n * b <==> m < n
  {
    if m < n {
      ProductMonotone(m + 1, n, b);
    } else {
      ProductMonotone(n, m, b);
    }
  }

  /** `CeilDiv(a, b)` is the least q with a <= q * b. */
  lemma CeilDivIsLeast(a: nat, b: Positive, q: nat)
    ensures CeilDiv(a, b) <= q <==> a <= q * b
  {
    CeilDivBounds(a, b);
    ProductOrder(q, CeilDiv(a, b), b);
    ProductOrder(CeilDiv(a, b), q + 1, b);
  }

  lemma Distribute(p: int, q: int, b: int)
    ensures (p + q) * b == p * b + q * b
  {}

  /** Splitting a quantity before rounding up never saves, and costs at most one extra unit. */
  lemma CeilDivSplit(x: nat, y: nat, b: Positive)
    ensures CeilDiv(x + y, b) <= CeilDiv(x, b) + CeilDiv(y, b) <= CeilDiv(x + y, b) + 1
  {
    var p, q, r := CeilDiv(x, b), CeilDiv(y, b), CeilDiv(x + y, b);
    CeilDivBounds(x, b);
    CeilDivBounds(y, b);
    CeilDivBounds(x + y, b);
    Distribute(p, q, b);
    Distribute(r, 2, b);
    ProductOrder(r, p + q + 1, b);
    Distribute(p + q, 1, b);
    ProductOrder(p + q, r + 2, b);
  }

  // ---------- lexicographic order on strings ----------

  predicate StringLess(s: string, t: string) {
    |t| > 0 && (|s| == 0 || s[0] < t[0] || (s[0] == t[0] && StringLess(s[1..], t[1..])))
  }

  lemma {:induction false} StringLessTotal(s: string, t: string)
    ensures s == t || StringLess(s, t) || StringLess(t, s)
  {
    if |s| > 0 && |t| > 0 && s[0] == t[0] {
      StringLessTotal(s[1..], t[1..]);
      assert s == [s[0]] + s[1..] && t == [t[0]] + t[1..];
    }
  }

  lemma {:induction false} StringLessAsymmetric(s: string, t: string)
    requires StringLess(s, t)
    ensures !StringLess(t, s)
  {
    if |s| > 0 && s[0] == t[0] {
      StringLessAsymmetric(s[1..], t[1..]);
    }
  }

  lemma {:induction false} StringLessTransitive(s: string, t: string, u: string)
    requires StringLess(s, t) && StringLess(t, u)
    ensures StringLess(s, u)
  {
    if |s| > 0 && s[0] == t[0] == u[0] {
      StringLessTransitive(s[1..], t[1..], u[1..]);
    }
  }
}
