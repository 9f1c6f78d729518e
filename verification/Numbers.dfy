/**
 JavaScript numbers as far as they are needed: printing natural numbers, reading numbers
 from strings, and the bitwise operators on natural numbers.
 */
module Numbers {

  /** A JavaScript number read from a string. */
  datatype Num = NaN | Infinity(positive: bool) | Finite(x: real)

  function Digit(d: nat): char
    requires d < 10
  {
    (d + '0' as int) as char
  }

  /** `String(n)`. */
  function Decimal(n: nat): (s: string)
    ensures s != ""
    ensures forall k :: 0 <= k < |s| ==> '0' <= s[k] <= '9'
  {
    if n < 10 then [Digit(n)] else Decimal(n / 10) + [Digit(n % 10)]
  }

  /** The number that decimal digits spell. */
  function Spelt(s: string): nat {
    if s == "" then 0
    else
      var c := s[|s| - 1];
      10 * Spelt(s[..|s| - 1]) + if '0' <= c <= '9' then c as int - '0' as int else 0
  }

  /** A number is printed by the digits that spell it, without a zero in front. */
  lemma {:induction false} DecimalExactly(n: nat)
    ensures Spelt(Decimal(n)) == n
    ensures Decimal(n)[0] == '0' ==> n == 0 && Decimal(n) == "0"
  {
    var s := Decimal(n);
    if n < 10 {
      assert s[..0] == "";
    } else {
      DecimalExactly(n / 10);
      assert s[..|s| - 1] == Decimal(n / 10);
      assert s[0] == Decimal(n / 10)[0];
    }
  }

  /** `Number(s)`, of which only one law matters here: it undoes printing. */
  type Reader = string -> Num

  ghost predicate ReadsDecimals(read: Reader) {
    forall n: nat :: read(Decimal(n)) == Finite(n as real)
  }

  // ---- remainders ---------------------------------------------------------------------

  lemma MultipleApart(a: int, m: nat)
    ensures a >= 1 ==> a * m >= m
    ensures a <= -1 ==> a * m + m <= 0
  {
    if a >= 1 {
      assert a * m == (a - 1) * m + m;
      assert (a - 1) * m >= 0;
    } else if a <= -1 {
      assert a * m == (a + 1) * m - m;
      assert (a + 1) * m <= 0;
    }
  }

  lemma Parts(n: int, m: nat) returns (k: int, r: int)
    requires m > 0
    ensures n == k * m + r && r == n % m && 0 <= r < m
  {
    k, r := n / m, n % m;
  }

  /** A remainder is told by its range. */
  lemma ModUnique(n: int, q: int, m: nat, r: int)
    requires n == q * m + r && 0 <= r < m
    ensures n % m == r
  {
    var k, r' := Parts(n, m);
    Difference(q, k, m);
    MultipleApart(q - k, m);
  }

  lemma Difference(q: int, k: int, m: nat)
    ensures (q - k) * m == q * m - k * m
  {
  }

  // ---- bits ---------------------------------------------------------------------------

  function Xor(a: nat, b: nat): nat {
    if a == 0 && b == 0 then 0
    else (if a % 2 != b % 2 then 1 else 0) + 2 * Xor(a / 2, b / 2)
  }

  function Or(a: nat, b: nat): nat {
    if a == 0 && b == 0 then 0
    else (if a % 2 + b % 2 > 0 then 1 else 0) + 2 * Or(a / 2, b / 2)
  }

  function Pow2(k: nat): (r: nat)
    ensures r >= 1
  {
    if k == 0 then 1 else 2 * Pow2(k - 1)
  }

  lemma {:induction false} XorZero(a: nat, b: nat)
    ensures Xor(a, b) == 0 <==> a == b
  {
    if a == 0 && b == 0 {
    } else {
      XorZero(a / 2, b / 2);
    }
  }

  lemma {:induction false} OrZero(a: nat, b: nat)
    ensures Or(a, b) == 0 <==> a == 0 && b == 0
  {
    if a == 0 && b == 0 {
    } else {
      OrZero(a / 2, b / 2);
    }
  }

  /** The second operand of an exclusive or can be undone. */
  lemma {:induction false} XorTwice(a: nat, b: nat)
    ensures Xor(Xor(a, b), b) == a
  {
    if a == 0 && b == 0 {
    } else {
      var x := Xor(a, b);
      assert x / 2 == Xor(a / 2, b / 2) && x % 2 == if a % 2 != b % 2 then 1 else 0;
      XorTwice(a / 2, b / 2);
      XorZero(a, b);
    }
  }

  lemma {:induction false} XorBelow(a: nat, b: nat, k: nat)
    requires a < Pow2(k) && b < Pow2(k)
    ensures Xor(a, b) < Pow2(k)
    decreases k
  {
    if k == 0 || (a == 0 && b == 0) {
    } else {
      XorBelow(a / 2, b / 2, k - 1);
    }
  }

  function Bit(a: nat, k: nat): nat
    decreases k
  {
    if k == 0 then a % 2 else Bit(a / 2, k - 1)
  }

  /** The operators work bit by bit. */
  lemma {:induction false} BitByBit(a: nat, b: nat, k: nat)
    ensures Bit(Xor(a, b), k) == 1 <==> Bit(a, k) != Bit(b, k)
    ensures Bit(Or(a, b), k) == 1 <==> Bit(a, k) == 1 || Bit(b, k) == 1
    ensures Bit(a, k) <= 1
    decreases k
  {
    var x, o := Xor(a, b), Or(a, b);
    assert x / 2 == Xor(a / 2, b / 2) && x % 2 == if a % 2 != b % 2 then 1 else 0;
    assert o / 2 == Or(a / 2, b / 2) && o % 2 == if a % 2 + b % 2 > 0 then 1 else 0;
    if k == 0 {
    } else {
      BitByBit(a / 2, b / 2, k - 1);
      BitByBit(b / 2, a / 2, k - 1);
    }
  }
}
