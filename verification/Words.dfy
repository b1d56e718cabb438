/**
 * 32-bit words as FIPS 180-4 uses them, and the operators of ECMAScript on numbers: a bitwise operator reads its operands
 * modulo 2^32 and answers a signed number.
 */
module Words {

  const M32: int := 0x1_0000_0000

  predicate IsWord(x: int) {
    0 <= x < M32
  }

  function Pow2(n: nat): (p: nat)
    ensures p >= 1
  {
    if n == 0 then 1 else 2 * Pow2(n - 1)
  }

  /** The truth table of a bitwise operator. */
  datatype Gate = AndGate | OrGate | XorGate

  function Bit(g: Gate, x: int, y: int): (b: int)
    ensures b == 0 || b == 1
  {
    match g
    case AndGate => if x == 1 && y == 1 then 1 else 0
    case OrGate => if x == 1 || y == 1 then 1 else 0
    case XorGate => if x != y then 1 else 0
  }

  /** The lowest `n` bits of `x` and `y` through a gate. */
  function Bitwise(g: Gate, x: nat, y: nat, n: nat): (r: nat)
    ensures r < Pow2(n)
  {
    if n == 0 then 0 else 2 * Bitwise(g, x / 2, y / 2, n - 1) + Bit(g, x % 2, y % 2)
  }

  lemma Pow32()
    ensures Pow2(32) == M32
  {
    assert Pow2(8) == 256;
    assert Pow2(16) == 65536;
    assert Pow2(24) == 0x100_0000;
    assert Pow2(32) == M32;
  }

  function Gated(g: Gate, x: int, y: int): (r: int)
    requires IsWord(x) && IsWord(y)
    ensures IsWord(r)
  {
    Pow32();
    Bitwise(g, x, y, 32)
  }

  function And(x: int, y: int): (r: int)
    requires IsWord(x) && IsWord(y)
    ensures IsWord(r)
  {
    Gated(AndGate, x, y)
  }

  function Or(x: int, y: int): (r: int)
    requires IsWord(x) && IsWord(y)
    ensures IsWord(r)
  {
    Gated(OrGate, x, y)
  }

  function Xor(x: int, y: int): (r: int)
    requires IsWord(x) && IsWord(y)
    ensures IsWord(r)
  {
    Gated(XorGate, x, y)
  }

  function Not(x: int): (r: int)
    requires IsWord(x)
    ensures IsWord(r)
  {
    M32 - 1 - x
  }

  /** `x >> n` of section 2.2.2 of FIPS 180-4. */
  function Shr(x: int, n: nat): (r: int)
    requires IsWord(x)
    ensures IsWord(r)
    decreases n
  {
    if n == 0 then x else Shr(x / 2, n - 1)
  }

  /** `x << n`: the bits past the 32nd are lost. */
  function Shl(x: int, n: nat): (r: int)
    requires IsWord(x)
    ensures IsWord(r)
    decreases n
  {
    if n == 0 then x else Shl((2 * x) % M32, n - 1)
  }

  /** Addition modulo 2^32. */
  function Add(x: int, y: int): (r: int)
    requires IsWord(x) && IsWord(y)
    ensures IsWord(r)
  {
    (x + y) % M32
  }

  // ----- ECMAScript numbers

  function ToUint32(x: int): (r: int)
    ensures IsWord(r)
  {
    x % M32
  }

  function ToInt32(x: int): (r: int)
    ensures -0x8000_0000 <= r < 0x8000_0000
  {
    if ToUint32(x) >= 0x8000_0000 then ToUint32(x) - M32 else ToUint32(x)
  }

  function JsAnd(a: int, b: int): int { ToInt32(And(ToUint32(a), ToUint32(b))) }

  function JsOr(a: int, b: int): int { ToInt32(Or(ToUint32(a), ToUint32(b))) }

  function JsXor(a: int, b: int): int { ToInt32(Xor(ToUint32(a), ToUint32(b))) }

  function JsNot(a: int): int { ToInt32(Not(ToUint32(a))) }

  /** `a << n`. */
  function JsShl(a: int, n: nat): int { ToInt32(Shl(ToUint32(a), n)) }

  /** `a >>> n`. */
  function JsShr(a: int, n: nat): int { Shr(ToUint32(a), n) }

  /** `a >> n`, which keeps the sign: the quotient rounded down. */
  function JsSar(a: int, n: nat): int { ToInt32(a) / Pow2(n) }

  /** A number a 32-bit operator, a `Uint32Array` or `>>> 0` answered. */
  predicate IsNumber32(x: int) {
    -0x8000_0000 <= x < M32
  }

  lemma WordStays(x: int)
    requires IsWord(x)
    ensures ToUint32(x) == x && ToUint32(ToInt32(x)) == x && IsNumber32(ToInt32(x))
  {
    if ToInt32(x) < 0 {
      assert ToInt32(x) + M32 == x;
      assert (x - M32) % M32 == x % M32;
    }
  }

  /** Each operator reads and answers its operands modulo 2^32. */
  lemma OperatorsAreWords(a: int, b: int, n: nat)
    ensures ToUint32(JsAnd(a, b)) == And(ToUint32(a), ToUint32(b))
    ensures ToUint32(JsOr(a, b)) == Or(ToUint32(a), ToUint32(b))
    ensures ToUint32(JsXor(a, b)) == Xor(ToUint32(a), ToUint32(b))
    ensures ToUint32(JsNot(a)) == Not(ToUint32(a))
    ensures ToUint32(JsShl(a, n)) == Shl(ToUint32(a), n)
    ensures ToUint32(JsShr(a, n)) == Shr(ToUint32(a), n)
    ensures IsNumber32(JsAnd(a, b)) && IsNumber32(JsOr(a, b)) && IsNumber32(JsXor(a, b)) && IsNumber32(JsNot(a))
    ensures IsNumber32(JsShl(a, n)) && IsNumber32(JsShr(a, n))
  {
    hide And, Or, Xor, Not, Shl, Shr;
    WordStays(And(ToUint32(a), ToUint32(b)));
    WordStays(Or(ToUint32(a), ToUint32(b)));
    WordStays(Xor(ToUint32(a), ToUint32(b)));
    WordStays(Not(ToUint32(a)));
    WordStays(Shl(ToUint32(a), n));
    WordStays(Shr(ToUint32(a), n));
  }

  /** Reducing a sum modulo 2^32 is adding the reduced terms. */
  lemma SumReduces(a: int, b: int)
    ensures ToUint32(a + b) == Add(ToUint32(a), ToUint32(b))
  {
    var p, q := a / M32, b / M32;
    assert a + b == (ToUint32(a) + ToUint32(b)) + (p + q) * M32;
    MultiplesVanish(ToUint32(a) + ToUint32(b), p + q);
  }

  lemma MultiplesVanish(x: int, k: int)
    ensures (x + k * M32) % M32 == x % M32
  {
    var y := x + k * M32;
    assert y - x == k * M32;
    assert y == (y / M32) * M32 + y % M32 && x == (x / M32) * M32 + x % M32;
    assert (y % M32) - (x % M32) == (k - y / M32 + x / M32) * M32;
  }

  /** Five 32-bit numbers of either sign add up within the integers a double holds exactly, and reduce to the modular sum. */
  lemma SumOfFive(a: int, b: int, c: int, d: int, e: int)
    requires IsNumber32(a) && IsNumber32(b) && IsNumber32(c) && IsNumber32(d) && IsNumber32(e)
    ensures -0x20_0000_0000_0000 < a + b + c + d + e < 0x20_0000_0000_0000
    ensures ToUint32(a + b + c + d + e)
         == Add(Add(Add(Add(ToUint32(a), ToUint32(b)), ToUint32(c)), ToUint32(d)), ToUint32(e))
  {
    hide ToUint32, Add;
    SumReduces(a, b);
    SumReduces(a + b, c);
    SumReduces(a + b + c, d);
    SumReduces(a + b + c + d, e);
  }

  // ----- masks

  lemma {:induction false} NoBits(g: Gate, x: nat, n: nat)
    requires g == AndGate || (g == OrGate && x < Pow2(n))
    ensures Bitwise(g, x, 0, n) == if g == AndGate then 0 else x
  {
    if n > 0 {
      NoBits(g, x / 2, n - 1);
    }
  }

  /** A mask of `k` ones keeps the lowest `k` bits. */
  lemma {:induction false} LowBits(x: nat, m: nat, k: nat, n: nat)
    requires m == Pow2(k) && k <= n
    ensures Bitwise(AndGate, x, m - 1, n) == x % m
    decreases k
  {
    if k == 0 {
      NoBits(AndGate, x, n);
    } else {
      var p := Pow2(k - 1);
      assert m == 2 * p;
      hide *;
      LowBits(x / 2, p, k - 1, n - 1);
      BitwiseOdd(x, p, n);
      Halved(x, p);
    }
  }

  lemma BitwiseOdd(x: nat, p: nat, n: nat)
    requires p > 0 && n > 0
    ensures Bitwise(AndGate, x, 2 * p - 1, n) == 2 * Bitwise(AndGate, x / 2, p - 1, n - 1) + x % 2
  {
    assert (2 * p - 1) / 2 == p - 1 && (2 * p - 1) % 2 == 1;
  }

  lemma Halved(x: nat, p: nat)
    requires p > 0
    ensures x % (2 * p) == 2 * (x / 2 % p) + x % 2
  {
    var q, r := x / 2 / p, x / 2 % p;
    assert x == 2 * (q * p + r) + x % 2 == q * (2 * p) + (2 * r + x % 2);
    Remainder(x, 2 * p, q, 2 * r + x % 2);
  }

  lemma Remainder(x: int, m: nat, q: int, r: nat)
    requires r < m && x == q * m + r
    ensures x % m == r && x / m == q
  {
    var d := x / m - q;
    assert x == (x / m) * m + x % m;
    assert d * m == (x / m) * m - q * m == r - x % m;
    Multiple(d, m);
  }

  /** A multiple of `m` that is not 0 is no nearer to 0 than `m`. */
  lemma Multiple(d: int, m: int)
    requires m >= 0
    ensures d > 0 ==> d * m >= m
    ensures d < 0 ==> d * m <= -m
  {
    if d > 0 {
      Grows(d, m);
    } else if d < 0 {
      Grows(-d, m);
      Negated(d, m);
    }
  }

  lemma Grows(d: nat, m: nat)
    requires d > 0
    ensures d * m >= m
  {
    assert d * m == (d - 1) * m + m;
  }

  lemma Negated(d: int, m: int)
    ensures (-d) * m == -(d * m)
  {
  }

  /** Bits of different places: or is sum. */
  lemma {:induction false} DisjointBits(x: nat, y: nat, k: nat, n: nat)
    requires y < Pow2(k) && x * Pow2(k) + y < Pow2(n)
    ensures Bitwise(OrGate, x * Pow2(k), y, n) == x * Pow2(k) + y
    ensures Bitwise(OrGate, y, x * Pow2(k), n) == x * Pow2(k) + y
  {
    if k == 0 {
      NoBits(OrGate, x, n);
      OrCommutes(x, 0, n);
    } else if n > 0 {
      var p := Pow2(k - 1);
      assert x * (2 * p) == 2 * (x * p);
      DisjointBits(x, y / 2, k - 1, n - 1);
      assert x * Pow2(k) / 2 == x * p && x * Pow2(k) % 2 == 0;
    }
  }

  lemma {:induction false} OrCommutes(x: nat, y: nat, n: nat)
    ensures Bitwise(OrGate, x, y, n) == Bitwise(OrGate, y, x, n)
  {
    if n > 0 {
      OrCommutes(x / 2, y / 2, n - 1);
    }
  }

  /** `a & (2^k - 1)` is the remainder, whatever the number. */
  lemma MaskIsRemainder(a: int, k: nat)
    requires k <= 16
    ensures JsAnd(a, Pow2(k) - 1) == a % Pow2(k)
  {
    Pow2Below(k, 16);
    LowBits(ToUint32(a), Pow2(k), k, 32);
    ReducedRemainder(a, k);
    hide Bitwise, Pow2, And;
    MaskedStays(Pow2(k) - 1);
    AndIs(ToUint32(a), Pow2(k) - 1, a % Pow2(k));
  }

  lemma ReducedRemainder(a: int, k: nat)
    requires k <= 16
    ensures ToUint32(a) % Pow2(k) == a % Pow2(k) && 0 <= a % Pow2(k) < Pow2(k)
  {
    Pow32();
    PowersDivide(k, 32);
    hide Pow2;
    RemainderOfRemainder(a, Pow2(k), Pow2(32 - k));
  }

  lemma AndIs(x: int, y: int, r: int)
    requires IsWord(x) && IsWord(y) && Bitwise(AndGate, x, y, 32) == r && 0 <= r < 0x8000_0000
    ensures ToInt32(And(x, y)) == r
  {
    hide Bitwise;
    MaskedStays(r);
  }

  lemma OrIs(x: int, y: int, r: int)
    requires 0 <= x <= r && 0 <= y <= r && Bitwise(OrGate, x, y, 32) == r < 0x8000_0000
    ensures JsOr(x, y) == r
  {
    hide Bitwise;
    MaskedStays(x);
    MaskedStays(y);
    MaskedStays(r);
  }

  lemma MaskedStays(x: int)
    requires 0 <= x < 0x8000_0000
    ensures ToInt32(x) == x && ToUint32(x) == x
  {
  }

  lemma {:induction false} Pow2Below(k: nat, n: nat)
    requires k <= n
    ensures Pow2(k) <= Pow2(n) && Pow2(16) == 65536
  {
    assert Pow2(8) == 256;
    if k < n {
      Pow2Below(k, n - 1);
    }
  }

  lemma {:induction false} PowersDivide(k: nat, n: nat)
    requires k <= n
    ensures Pow2(n) == Pow2(k) * Pow2(n - k)
  {
    if k < n {
      PowersDivide(k, n - 1);
      assert Pow2(k) * (2 * Pow2(n - 1 - k)) == 2 * (Pow2(k) * Pow2(n - 1 - k));
    }
  }

  lemma RemainderOfRemainder(a: int, m: nat, c: nat)
    requires m > 0 && c > 0
    ensures m * c > 0 && a % (m * c) % m == a % m
  {
    assert m * c > 0;
    var q, r := a / (m * c), a % (m * c);
    assert a == q * (m * c) + r && q * (m * c) == (q * c) * m;
    SameRemainder(a, r, m, q * c);
  }

  lemma SameRemainder(a: int, r: int, m: nat, k: int)
    requires m > 0 && a == k * m + r
    ensures a % m == r % m
  {
    var d := a / m - r / m - k;
    assert a == (a / m) * m + a % m && r == (r / m) * m + r % m;
    assert d * m == (a / m) * m - (r / m) * m - k * m;
    assert d * m == r % m - a % m;
    Multiple(d, m);
  }

  /** An or of bits of different places is their sum. */
  lemma OrIsSum(x: nat, y: nat, k: nat)
    requires k <= 16 && y < Pow2(k) && x * Pow2(k) + y < 0x8000_0000
    ensures JsOr(x * Pow2(k), y) == x * Pow2(k) + y && JsOr(y, x * Pow2(k)) == x * Pow2(k) + y
  {
    assert Pow2(32) == 0x1_0000_0000 by { Pow32(); }
    hide *;
    var high: int := x * Pow2(k);
    Product(x, Pow2(k));
    DisjointBits(x, y, k, 32);
    OrIs(high, y, high + y);
    OrIs(y, high, high + y);
  }

  lemma Product(x: nat, p: nat)
    ensures x * p >= 0
  {
  }
}
