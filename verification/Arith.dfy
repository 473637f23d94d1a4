/** The few facts about products and quotients the plans need. */
module Arith {

  lemma MulMono(a: int, b: int, c: int)
    requires a <= b && c >= 0
    ensures a * c <= b * c && c * a <= c * b
  {
  }

  lemma MulSub(a: int, c: int)
    ensures a * (c - 1) == a * c - a && (c - 1) * a == c * a - a && a * c == c * a
  {
  }

  lemma DivMod(a: int, b: int)
    requires b > 0
    ensures a == b * (a / b) + a % b && 0 <= a % b < b
    ensures a >= 0 ==> a / b >= 0
  {
  }

  lemma DivUnique(a: int, b: int, q: int, r: int)
    requires b > 0 && 0 <= r < b && a == b * q + r
    ensures a / b == q && a % b == r
  {
    DivMod(a, b);
    var x := a / b;
    if x < q {
      MulMono(x, q - 1, b);
      MulSub(b, q);
    } else if x > q {
      MulMono(q, x - 1, b);
      MulSub(b, x);
    }
  }

  function CeilDiv(a: int, b: int): int
    requires b > 0
  {
    (a + b - 1) / b
  }

  /** Rounding up by hand: divide, multiply back, compare, add one. */
  lemma CeilByHand(a: int, b: int)
    requires a >= 0 && b > 0
    ensures CeilDiv(a, b) == if (a / b) * b < a then a / b + 1 else a / b
    ensures CeilDiv(a, b) == if a % b == 0 then a / b else a / b + 1
  {
    var q, r := a / b, a % b;
    DivMod(a, b);
    MulSub(b, q + 1);
    if r == 0 {
      DivUnique(a + b - 1, b, q, b - 1);
    } else {
      DivUnique(a + b - 1, b, q + 1, r - 1);
    }
  }

  lemma CeilBounds(a: int, b: int)
    requires a >= 0 && b > 0
    ensures CeilDiv(a, b) * b >= a && (CeilDiv(a, b) - 1) * b < a
    ensures a > 0 ==> CeilDiv(a, b) > 0
  {
    CeilByHand(a, b);
    DivMod(a, b);
    var q := a / b;
    MulSub(b, q + 1);
    MulSub(b, q);
  }

  /** Needing more than `n` blocks means holding more than `n` of them. */
  lemma CeilAbove(a: int, b: int, n: int)
    requires a >= 0 && b > 0 && n > 0
    ensures CeilDiv(a, b) > n <==> a > n * b
    ensures a > n * b ==> a / n >= b
  {
    CeilBounds(a, b);
    var c := CeilDiv(a, b);
    if c > n {
      MulMono(n, c - 1, b);
    } else {
      MulMono(c, n, b);
    }
    if a > n * b {
      DivMod(a, n);
      var q := a / n;
      if q < b {
        MulMono(q, b - 1, n);
        MulSub(n, b);
      }
    }
  }

  /** The same for any `n`. */
  lemma CeilAboveAny(a: int, b: int, n: int)
    requires a >= 0 && b > 0
    ensures CeilDiv(a, b) > n <==> a > n * b
  {
    CeilBounds(a, b);
    var c := CeilDiv(a, b);
    if c > n {
      MulMono(n, c - 1, b);
    } else {
      MulMono(c, n, b);
    }
  }
}
