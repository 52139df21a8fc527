/**
 * Division facts.  `Div` and `Mod` name the operators so that proofs can keep them hidden.
 */
module Division {
  function Div(a: nat, b: nat): nat
    requires b > 0
  {
    a / b
  }

  function Mod(a: nat, b: nat): (r: nat)
    requires b > 0
    ensures r < b
  {
    a % b
  }

  lemma DivMod(a: nat, b: nat)
    requires b > 0
    ensures a == Div(a, b) * b + Mod(a, b)
  {
  }

  function CeilDiv(a: nat, b: nat): (n: nat)
    requires b > 0
    ensures a <= n * b < a + b
    ensures a > 0 ==> n > 0
  {
    (a + b - 1) / b
  }

  lemma CeilIs(a: nat, b: nat)
    requires b > 0
    ensures CeilDiv(a, b) == (a + b - 1) / b
  {
  }

  lemma MulMono(a: nat, b: nat, c: nat)
    requires a <= b
    ensures a * c <= b * c
  {
  }

  lemma DivUnique(a: nat, b: nat, q: nat, r: nat)
    requires b > 0 && a == q * b + r && r < b
    ensures Div(a, b) == q && Mod(a, b) == r
  {
    DivMod(a, b);
    var d := Div(a, b);
    if d < q {
      MulMono(d + 1, q, b);
    } else if q < d {
      MulMono(q + 1, d, b);
    }
  }

  lemma DivShift(a: nat, b: nat, k: nat)
    requires b > 0
    ensures Div(k * b + a, b) == k + Div(a, b) && Mod(k * b + a, b) == Mod(a, b)
  {
    DivMod(a, b);
    assert k * b + a == (k + Div(a, b)) * b + Mod(a, b);
    DivUnique(k * b + a, b, k + Div(a, b), Mod(a, b));
  }

  lemma DivTwice(a: nat, b: nat)
    requires b > 0
    ensures b * b > 0 && Div(Div(a, b), b) == Div(a, b * b)
  {
    DivMod(a, b);
    DivMod(Div(a, b), b);
    var q, r, s := Div(Div(a, b), b), Mod(a, b), Mod(Div(a, b), b);
    assert a == (q * b + s) * b + r;
    assert (q * b + s) * b == q * (b * b) + s * b;
    MulMono(s + 1, b, b);
    assert (s + 1) * b == s * b + b;
    DivUnique(a, b * b, q, s * b + r);
  }

  lemma DivSmall(a: nat, b: nat, c: nat)
    requires b > 0
    ensures a < c * b <==> Div(a, b) < c
  {
    DivMod(a, b);
    if Div(a, b) < c {
      MulMono(Div(a, b) + 1, c, b);
      assert (Div(a, b) + 1) * b == Div(a, b) * b + b;
    } else {
      MulMono(c, Div(a, b), b);
    }
  }
}
