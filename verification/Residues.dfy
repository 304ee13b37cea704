/** Facts about indices kept modulo the number of slots or cores. */
module Residues {

  lemma Multiples(n: nat, k: int)
    ensures k >= 1 ==> n * k >= n
    ensures k <= -1 ==> n * k + n <= 0
    ensures k == 0 ==> n * k == 0
  {
  }

  /** Two different numbers less than n apart have different residues. */
  lemma CloseNumbersDiffer(a: nat, b: nat, n: nat)
    requires a < b < a + n
    ensures a % n != b % n
  {
    var k := b / n - a / n;
    assert b - a == n * k + (b % n - a % n);
    Multiples(n, k);
  }

  lemma SuccessorResidue(a: nat, n: nat)
    requires n > 0
    ensures (a % n + 1) % n == (a + 1) % n
  {
    var q, r := a / n, a % n;
    assert a == n * q + r;
    if r + 1 < n {
      QuotientUnique(a + 1, n, q, r + 1);
    } else {
      assert a + 1 == n * (q + 1) + 0;
      QuotientUnique(a + 1, n, q + 1, 0);
      assert n % n == 0;
    }
  }

  lemma QuotientUnique(a: nat, n: nat, q: nat, r: nat)
    requires n > 0 && r < n && a == n * q + r
    ensures a / n == q && a % n == r
  {
    var d := a / n - q;
    assert n * d == r - a % n;
    Multiples(n, d);
  }

  /** One lap later the residue is the same. */
  lemma OneLapOn(a: nat, n: nat)
    requires n > 0
    ensures (a + n) % n == a % n
  {
    QuotientUnique(a + n, n, a / n + 1, a % n);
  }

  /** Any number of laps back the residue is the same. */
  lemma LapsBack(a: nat, b: nat, n: nat) returns (u: nat)
    requires n > 0 && a <= b
    ensures a <= u < a + n && u <= b && u % n == b % n
    ensures u == a + (b - a) % n
  {
    u := a + (b - a) % n;
    var k := (b - a) / n;
    assert b == u + n * k;
    assert b == n * (u / n + k) + u % n;
    QuotientUnique(b, n, u / n + k, u % n);
  }

  /** Equal residues are a whole number of laps apart. */
  lemma EqualResidues(a: nat, b: nat, n: nat)
    requires n > 0 && a <= b
    ensures a % n == b % n <==> (b - a) % n == 0
  {
    var u := LapsBack(a, b, n);
    if a < u { CloseNumbersDiffer(a, u, n); }
  }

  lemma NextQuotient(k: nat, n: nat)
    requires n > 0
    ensures (k + 1) / n == (if k % n + 1 == n then k / n + 1 else k / n)
    ensures (k + 1) % n == (if k % n + 1 == n then 0 else k % n + 1)
  {
    var q, r := k / n, k % n;
    assert k == n * q + r;
    if r + 1 < n {
      QuotientUnique(k + 1, n, q, r + 1);
    } else {
      assert k + 1 == n * (q + 1);
      QuotientUnique(k + 1, n, q + 1, 0);
    }
  }

  /** How often a residue x occurs among the first k tickets. */
  function Occurrences(k: nat, n: nat, x: nat): nat
    requires n > 0
  {
    if k == 0 then 0
    else Occurrences(k - 1, n, x) + (if (k - 1) % n == x then 1 else 0)
  }

  /** Closed form: floor(k/n), plus one for the first k mod n residues. */
  lemma {:induction false} OccurrencesClosedForm(k: nat, n: nat, x: nat)
    requires x < n
    ensures Occurrences(k, n, x) == k / n + (if x < k % n then 1 else 0)
  {
    if k == 0 {
      QuotientUnique(0, n, 0, 0);
    } else {
      OccurrencesClosedForm(k - 1, n, x);
      NextQuotient(k - 1, n);
    }
  }
}
