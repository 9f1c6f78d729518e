/**
 The deterministic hash behind the scale mocks, on UTF-16 code units and a 32-bit state.
 */
module Hash {
  import opened Options
  import opened Numbers

  const M: nat := 0x1_0000_0000
  const OFFSET: nat := 2166136261
  const PRIME: nat := 16777619
  /** The inverse of `PRIME` modulo `M`. */
  const INVERSE: nat := 899433627

  type Unit = u: int | 0 <= u < 65536
  type Word = w: int | 0 <= w < M

  /** One turn of the loop: exclusive or, then multiplication modulo 2^32. */
  function Turn(h: Word, c: Unit): Word {
    XorWord(h, c);
    (Xor(h, c) * PRIME) % M
  }

  function Turns(h: Word, s: seq<Unit>): Word {
    if s == [] then h else Turn(Turns(h, s[..|s| - 1]), s[|s| - 1])
  }

  /** The state a salt starts with; salts are taken modulo 2^32. */
  function Start(salt: int): Word {
    XorWord(OFFSET, salt % M);
    Xor(OFFSET, salt % M)
  }

  function Fraction(k: nat): real {
    k as real / 10000.0
  }

  const EPSILON: real := 1.0 / 9007199254740992.0

  /** Rounding to a double, of which only its relative error matters here: at most 2^-53 on the
      normal numbers from far below one ten-thousandth up to the largest double. */
  datatype Double = Double(round: real -> real, largest: real)
  {
    ghost predicate Lawful() {
      && round(0.0) == 0.0
      && forall x: real :: 0.00001 <= x <= largest ==> x - x * EPSILON <= round(x) <= x + x * EPSILON
    }
  }

  /** The hash as a fraction of ten thousand, rounded. */
  function HashOf(s: seq<Unit>, salt: int, double: Double): real {
    (double.round)(Fraction(Turns(Start(salt), s) % 10000))
  }

  method Hash01(s: seq<Unit>, salt: int, double: Double) returns (r: real)
    ensures r == HashOf(s, salt, double)
  {
    hide Turn, Start;
    var h: Word := Start(salt);
    for i := 0 to |s|
      invariant h == Turns(Start(salt), s[..i])
    {
      h := Turn(h, s[i]);
      assert s[..i + 1][..i] == s[..i] && s[..i + 1][i] == s[i];
    }
    assert s[..|s|] == s;
    r := (double.round)(Fraction(h % 10000));
  }

  function Product(x: real, y: real): real {
    x * y
  }

  /** `Math.floor(x * n)`, the product rounded. */
  function Scaled(x: real, n: nat, double: Double): int {
    (double.round)(Product(x, n as real)).Floor
  }

  function HashInt(s: seq<Unit>, n: nat, salt: int, double: Double): nat
    requires n >= 1
  {
    Scaled(HashOf(s, salt, double), n, double) % n
  }

  /** Nothing can be picked from an empty list. */
  function Pick<T>(items: seq<T>, s: seq<Unit>, salt: int, double: Double): Option<T> {
    if items == [] then None else Some(items[HashInt(s, |items|, salt, double)])
  }

  // ---- the state is a bijection of the salt -------------------------------------------

  lemma PowM()
    ensures Pow2(32) == M && Pow2(16) == 65536
  {
    assert Pow2(8) == 256;
    assert Pow2(16) == 65536;
    assert Pow2(24) == 0x100_0000;
  }

  lemma XorWord(a: nat, b: nat)
    requires a < M && b < M
    ensures Xor(a, b) < M
  {
    PowM();
    XorBelow(a, b, 32);
  }

  /** A factor of 1 modulo `M` leaves a word alone. */
  lemma TimesOne(x: Word)
    ensures (x * (PRIME * INVERSE)) % M == x
  {
    assert PRIME * INVERSE == 1 + 3513497 * M;
    assert x * (PRIME * INVERSE) == x + (x * 3513497) * M;
    ModUnique(x * (PRIME * INVERSE), x * 3513497, M, x);
  }

  lemma ModTimes(a: nat, b: nat)
    ensures ((a % M) * b) % M == (a * b) % M
  {
    var q := a / M;
    assert a == a % M + q * M;
    assert a * b == (a % M) * b + (q * b) * M;
    var y := (a % M) * b;
    var r := y % M;
    assert y == r + (y / M) * M;
    assert a * b == r + (y / M + q * b) * M;
    ModUnique(a * b, y / M + q * b, M, r);
  }

  lemma Associate(x: int, a: int, b: int)
    ensures (x * a) * b == x * (a * b)
  {
  }

  lemma TimesUndone(x: Word, a: nat, b: nat)
    requires a * b == PRIME * INVERSE
    ensures ((x * a) % M * b) % M == x
  {
    ModTimes(x * a, b);
    Associate(x, a, b);
    TimesOne(x);
  }

  /** The turn of the loop run backwards. */
  function Unturn(h: Word, c: Unit): Word {
    XorWord((h * INVERSE) % M, c);
    Xor((h * INVERSE) % M, c)
  }

  /** Every turn is a bijection of the state: it can be undone, and every state is reached. */
  lemma TurnIsBijection(h: Word, c: Unit)
    ensures Unturn(Turn(h, c), c) == h && Turn(Unturn(h, c), c) == h
  {
    hide Xor;
    XorWord(h, c);
    TimesUndone(Xor(h, c), PRIME, INVERSE);
    XorTwice(h, c);
    var g := (h * INVERSE) % M;
    XorWord(g, c);
    XorTwice(g, c);
    TimesUndone(h, INVERSE, PRIME);
  }

  lemma {:induction false} XorNothing(a: nat)
    ensures Xor(a, 0) == a
  {
    if a == 0 {
    } else {
      XorNothing(a / 2);
    }
  }

  lemma OffsetXor()
    ensures Xor(OFFSET, 97) == 2166136228
  {
    XorNothing(16922939);
    assert Xor(16922939, 0) == 16922939;
    assert Xor(33845879, 1) == 33845878;
    assert Xor(67691758, 3) == 67691757;
    assert Xor(135383516, 6) == 135383514;
    assert Xor(270767032, 12) == 270767028;
    assert Xor(541534065, 24) == 541534057;
    assert Xor(1083068130, 48) == 1083068114;
    assert Xor(2166136261, 97) == 2166136228;
  }

  lemma FirstTurn()
    ensures Turn(OFFSET, 97) == 0xE40C_292C
  {
    hide Xor;
    OffsetXor();
    assert 2166136228 * PRIME == 0xE40C_292C + 8461672 * M;
    ModUnique(0xE40C_292C + 8461672 * M, 8461672, M, 0xE40C_292C);
  }

  lemma OneTurn(h: Word, c: Unit)
    ensures Turns(h, [c]) == Turn(h, c)
  {
    hide Turn;
    assert [c][..0] == [];
  }

  /** The state after the text "a" is its published 32-bit FNV-1a value. */
  lemma PublishedValue()
    ensures Turns(Start(0), [97]) == 0xE40C_292C
  {
    hide Turns, Turn;
    XorNothing(OFFSET);
    OneTurn(OFFSET, 97);
    FirstTurn();
  }

  /** The first state is the offset, exclusive or the salt. */
  lemma StartExactly(salt: int)
    ensures Xor(Start(salt), salt % M) == 2166136261
  {
    XorSwap(OFFSET, salt % M);
    XorTwice(OFFSET, salt % M);
    hide Xor;
  }

  function Unturns(h: Word, s: seq<Unit>): Word
    decreases |s|
  {
    if s == [] then h else Unturns(Unturn(h, s[|s| - 1]), s[..|s| - 1])
  }

  /** For every string, whatever its length, the final state is a bijection of the first one. */
  lemma {:induction false} TurnsAreBijection(h: Word, s: seq<Unit>)
    ensures Unturns(Turns(h, s), s) == h && Turns(Unturns(h, s), s) == h
    decreases |s|
  {
    if s == [] {
    } else {
      hide Turn, Unturn;
      var c, t := s[|s| - 1], s[..|s| - 1];
      TurnIsBijection(Turns(h, t), c);
      TurnsAreBijection(h, t);
      TurnsAreBijection(Unturn(h, c), t);
      TurnIsBijection(h, c);
    }
  }

  lemma StartInjective(a: int, b: int)
    ensures Start(a) == Start(b) <==> a % M == b % M
  {
    XorSwap(OFFSET, a % M);
    XorSwap(OFFSET, b % M);
    XorTwice(a % M, OFFSET);
    XorTwice(b % M, OFFSET);
  }

  lemma {:induction false} XorSwap(a: nat, b: nat)
    ensures Xor(a, b) == Xor(b, a)
  {
    if a == 0 && b == 0 {
    } else {
      XorSwap(a / 2, b / 2);
    }
  }

  /** Two salts lead to the same state of a string exactly when they are the same 32-bit word. */
  lemma SaltInjective(s: seq<Unit>, a: int, b: int)
    ensures Turns(Start(a), s) == Turns(Start(b), s) <==> a % M == b % M
  {
    hide Start, Turns, Unturns;
    StartInjective(a, b);
    TurnsAreBijection(Start(a), s);
    TurnsAreBijection(Start(b), s);
  }

  lemma RoundedFraction(k: nat, double: Double)
    requires double.Lawful() && k < 10000 && double.largest >= 1.0
    ensures var q := (double.round)(Fraction(k)); if k == 0 then q == 0.0 else 0.00009 < q < 0.99991
  {
    if k > 0 {
      var x := Fraction(k);
      assert 0.0001 <= x <= 0.9999;
    }
  }

  lemma SmallMod(a: nat, n: nat)
    requires a < n
    ensures a % n == a
  {
  }

  /** The hash is one of ten thousand rounded fractions below 1, and what is computed from it is in
      range: neither rounding brings it up to n, so the remainder in `HashInt` never changes
      anything. */
  lemma HashInRange(s: seq<Unit>, n: nat, salt: int, double: Double)
    requires double.Lawful() && 1 <= n && n as real <= double.largest
    ensures HashOf(s, salt, double) == (double.round)((Turns(Start(salt), s) % 10000) as real / 10000.0)
    ensures HashInt(s, n, salt, double) == (double.round)(HashOf(s, salt, double) * n as real).Floor
    ensures 0.0 <= HashOf(s, salt, double) < 1.0
    ensures HashInt(s, n, salt, double) < n && HashInt(s, n, salt, double) == Scaled(HashOf(s, salt, double), n, double)
  {
    ScaledIs(HashOf(s, salt, double), n, double);
    hide Scaled, Turns, Start, Double.Lawful;
    var k: nat := Turns(Start(salt), s) % 10000;
    RoundedFraction(k, double);
    ScaledBelow(HashOf(s, salt, double), n, double);
    SmallMod(Scaled(HashOf(s, salt, double), n, double), n);
  }

  lemma ScaledIs(q: real, n: nat, double: Double)
    ensures Scaled(q, n, double) == (double.round)(q * n as real).Floor
  {
    assert Product(q, n as real) == q * n as real;
  }

  lemma ScaledBelow(q: real, n: nat, double: Double)
    requires double.Lawful() && 1 <= n && n as real <= double.largest
    requires q == 0.0 || 0.00009 < q < 0.99991
    ensures 0 <= Scaled(q, n, double) < n
  {
    hide Double.Lawful, Product;
    var m := n as real;
    Between(q, m);
    if q == 0.0 {
      RoundedZero(double);
    } else {
      RoundedBelow(Product(q, m), m, double);
    }
    FloorBelow((double.round)(Product(q, m)), n);
  }

  lemma RoundedZero(double: Double)
    requires double.Lawful()
    ensures (double.round)(0.0) == 0.0
  {
  }

  lemma FloorBelow(x: real, n: nat)
    requires 0.0 <= x < n as real
    ensures 0 <= x.Floor < n
  {
  }

  lemma RoundedBelow(y: real, m: real, double: Double)
    requires double.Lawful() && 0.00001 <= y <= 0.99991 * m && 1.0 <= m <= double.largest
    ensures 0.0 <= (double.round)(y) < m
  {
    ErrorBelow(y, m);
    assert y <= double.largest;
  }

  lemma Between(q: real, m: real)
    requires (q == 0.0 || 0.00009 < q < 0.99991) && m >= 1.0
    ensures if q == 0.0 then Product(q, m) == 0.0 else 0.00001 <= Product(q, m) <= 0.99991 * m
  {
    if q != 0.0 {
      assert (0.99991 - q) * m >= 0.0;
      assert (q - 0.00009) * m >= 0.0;
    }
  }

  lemma ErrorBelow(y: real, m: real)
    requires 0.0 <= y <= 0.99991 * m && m >= 1.0
    ensures y + y * EPSILON < m && y - y * EPSILON >= 0.0
  {
    assert y * EPSILON <= m * 0.00001;
  }

  lemma PickIsMember<T>(items: seq<T>, s: seq<Unit>, salt: int, double: Double)
    ensures Pick(items, s, salt, double).Some? <==> items != []
    ensures Pick(items, s, salt, double).Some? ==> Pick(items, s, salt, double).value in items
  {
    if items != [] {
      assert items[HashInt(s, |items|, salt, double)] in items;
    }
  }
}
