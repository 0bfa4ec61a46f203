/** Positions on a ring of m places. */
module Wrapping {

  /** k % m, by repeated subtraction. */
  function Wrap(k: nat, m: nat): (r: nat)
    requires m > 0
    ensures r < m
    decreases k, m
  {
    if k < m then k else Wrap(k - m, m)
  }

  lemma {:induction false} WrapIsModulo(k: nat, m: nat)
    requires m > 0
    ensures Wrap(k, m) == k % m
    decreases k
  {
    if k >= m {
      WrapIsModulo(k - m, m);
      assert k % m == (k - m) % m by {
        var q, r := (k - m) / m, (k - m) % m;
        assert k - m == q * m + r;
        assert k == (q + 1) * m + r;
        Quotient(k, m, q + 1, r);
      }
    }
  }

  lemma {:induction false} Quotient(k: nat, m: nat, q: nat, r: nat)
    requires m > 0 && k == q * m + r && r < m
    ensures k % m == r
  {
    var p, s := k / m, k % m;
    assert k == p * m + s;
    if p < q {
      Larger(p, q, m);
    } else if q < p {
      Larger(q, p, m);
    }
  }

  lemma {:induction false} Larger(p: nat, q: nat, m: nat)
    requires p < q
    ensures p * m + m <= q * m
  {
    assert (q - p - 1) * m >= 0;
    assert (q - p - 1) * m == q * m - p * m - m;
  }

  lemma {:induction false} WrapNext(k: nat, m: nat)
    requires m > 0
    ensures Wrap(k + 1, m) == if Wrap(k, m) + 1 == m then 0 else Wrap(k, m) + 1
    decreases k
  {
    if k >= m {
      WrapNext(k - m, m);
    }
  }

  /** Two positions less than a whole turn apart are different places. */
  lemma {:induction false} WrapApart(a: nat, b: nat, m: nat)
    requires m > 0 && a < b < a + m
    ensures Wrap(a, m) != Wrap(b, m)
    decreases b
  {
    if a >= m {
      WrapApart(a - m, b - m, m);
    } else if b >= m {
      assert Wrap(b, m) == Wrap(b - m, m) == b - m;
    }
  }

  /** One or two places further on. */
  lemma {:induction false} WrapAhead(k: nat, d: nat, m: nat)
    requires m > 0
    ensures Wrap(k + d, m) == Wrap(Wrap(k, m) + d, m)
    decreases k
  {
    if k >= m {
      WrapAhead(k - m, d, m);
      assert Wrap(k + d, m) == Wrap(k + d - m, m);
    }
  }

  /** One time round is the same place. */
  lemma {:induction false} WrapAround(k: nat, m: nat)
    requires m > 0
    ensures Wrap(k + m, m) == Wrap(k, m)
  {
  }
}
