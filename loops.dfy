/** The grid loops run `for (let y = 0; y < count; y++)` where `count` is a
    JavaScript number computed by plain division, so it may be fractional. */
module LoopBounds {

  /** How many times `for (let i = 0; i < bound; i++)` runs: the least natural
      number that is not below `bound`. */
  function LoopCount(bound: real): (n: nat)
    ensures n as real >= bound
    ensures n == 0 || ((n - 1) as real) < bound
  {
    if bound <= 0.0 then 0 else -((-bound).Floor)
  }

  /** Integer division rounded up. */
  function CeilDiv(a: nat, b: nat): (q: nat)
    requires b > 0
  {
    (a + b - 1) / b
  }

  /** Comparing a counter with a quotient `a / b` is comparing `k * b` with `a`. */
  lemma BelowQuotient(k: int, a: nat, b: int)
    requires b > 0
    ensures (k as real) < (a as real) / (b as real) <==> k * b < a
  {
    var q := (a as real) / (b as real);
    assert q * (b as real) == a as real;
    assert (k as real) * (b as real) == (k * b) as real;
  }

  /** A loop bounded by `a / b` runs ceil(a / b) times: the least count whose
      multiple of `b` reaches `a`. */
  lemma {:induction false} LoopCountIsCeilDiv(a: nat, b: nat)
    requires b > 0
    ensures LoopCount((a as real) / (b as real)) == CeilDiv(a, b)
    ensures CeilDiv(a, b) * b >= a
    ensures CeilDiv(a, b) == 0 || (CeilDiv(a, b) - 1) * b < a
  {
    var n := LoopCount((a as real) / (b as real));
    var c := CeilDiv(a, b);
    BelowQuotient(n, a, b);
    if n > 0 { BelowQuotient(n - 1, a, b); }
    BelowQuotient(c, a, b);
    if c > 0 { BelowQuotient(c - 1, a, b); }
    assert c * b >= a;
    assert c == 0 || (c - 1) * b < a;
  }

  /** The guard `i < bound` of such a loop holds exactly while fewer than
      LoopCount(bound) iterations have run. */
  lemma BelowLoopCount(i: nat, bound: real)
    ensures (i as real) < bound <==> i < LoopCount(bound)
  {
  }

  /** ceil(a / b) is the one count k with (k - 1) * b < a <= k * b. */
  lemma CeilDivUnique(k: int, a: nat, b: nat)
    requires b > 0 && (k - 1) * b < a <= k * b
    ensures k == CeilDiv(a, b)
  {
    LoopCountIsCeilDiv(a, b);
    OnlyCount(k, CeilDiv(a, b), a, b);
  }

  lemma OnlyCount(k: int, c: nat, a: nat, b: nat)
    requires b > 0 && (k - 1) * b < a <= k * b
    requires c * b >= a && (c == 0 || (c - 1) * b < a)
    ensures k == c
  {
  }

  /** A `break` once the n-th multiple of `b` reaches `a`, taken inside the
      loop bounded by `a / b`, ends it exactly where its guard would have. */
  lemma StopAtEdge(n: nat, a: nat, b: nat, bound: real)
    requires b > 0 && bound == (a as real) / (b as real)
    requires 0 < n <= LoopCount(bound) && n * b >= a
    ensures n == LoopCount(bound)
  {
    LoopCountIsCeilDiv(a, b);
    BelowLoopCount(n - 1, bound);
    BelowQuotient(n - 1, a, b);
    CeilDivUnique(n, a, b);
  }
}
