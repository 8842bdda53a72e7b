/** A few facts about products, kept apart from everything recursive. */
module Products {

  lemma MulMonotone(a: nat, b: nat, c: nat, d: nat)
    requires a <= b && c <= d
    ensures a * c <= b * d
  {
  }

  lemma ProductBelow(x: nat, p: nat, y: nat, q: nat)
    requires x < p && y < q
    ensures x * y < p * q
  {
  }

  lemma Division(x: nat, y: nat)
    requires y > 0
    ensures x == (x / y) * y + x % y
    ensures (x / y) * y <= x < (x / y + 1) * y
  {
  }

  lemma DivisionUnique(x: nat, y: nat, q: nat, r: nat)
    requires x == q * y + r && r < y
    ensures q == x / y && r == x % y
  {
    Division(x, y);
    var q' := x / y;
    if q < q' {
      MulMonotone(q + 1, q', y, y);
    } else if q' < q {
      MulMonotone(q' + 1, q, y, y);
    }
  }

  lemma Distribute(a: int, b: int, c: int)
    ensures a * (b + c) == a * b + a * c
  {
  }

  lemma Rearrange(a: int, b: int, c: int)
    ensures (a * b) * c == b * (a * c)
  {
  }
}

/** Powers of two and the bit length of a magnitude. */
module BitLength {
  import opened Products

  function Pow2(n: nat): (p: nat)
    ensures p > 0
  {
    if n == 0 then 1 else 2 * Pow2(n - 1)
  }

  function BitLen(m: nat): nat {
    if m == 0 then 0 else 1 + BitLen(m / 2)
  }

  function Abs(v: int): nat { if v < 0 then -v else v }

  /** TEE_BigIntGetBitCount: the bits of the magnitude, none for zero. */
  function BitCount(v: int): nat { BitLen(Abs(v)) }

  lemma {:induction false} Pow2Add(m: nat, n: nat)
    ensures Pow2(m + n) == Pow2(m) * Pow2(n)
  {
    if m > 0 {
      Pow2Add(m - 1, n);
      Rearrange(Pow2(m - 1), 2, Pow2(n));
    }
  }

  /** The bit length is the least number of bits that holds the magnitude. */
  lemma {:induction false} FitsIff(m: nat, n: nat)
    ensures BitLen(m) <= n <==> m < Pow2(n)
  {
    if n > 0 && m > 0 {
      FitsIff(m / 2, n - 1);
    }
  }

  lemma BitLenBounds(m: nat)
    ensures m < Pow2(BitLen(m)) && (m > 0 ==> Pow2(BitLen(m) - 1) <= m)
  {
  }

  lemma BitLenMonotone(m: nat, n: nat)
    requires m <= n
    ensures BitLen(m) <= BitLen(n)
  {
  }

  lemma SumBits(x: nat, y: nat, n: nat)
    requires BitLen(x) <= n && BitLen(y) <= n
    ensures BitLen(x + y) <= n + 1
  {
    FitsIff(x, n);
    FitsIff(y, n);
    FitsIff(x + y, n + 1);
  }

  lemma ProductBound(x: nat, y: nat, a: nat, b: nat)
    requires x < Pow2(a) && y < Pow2(b)
    ensures x * y < Pow2(a + b)
  {
    Pow2Add(a, b);
    ProductBelow(x, Pow2(a), y, Pow2(b));
  }

  /** A product has at most as many bits as its factors together ... */
  lemma ProductBits(x: nat, y: nat, p: nat)
    requires p == x * y
    ensures BitLen(p) <= BitLen(x) + BitLen(y)
  {
    var a, b := BitLen(x), BitLen(y);
    BitLenBounds(x);
    BitLenBounds(y);
    ProductBound(x, y, a, b);
    FitsIff(p, a + b);
  }

  lemma ProductAbove(x: nat, y: nat, a: nat, b: nat)
    requires Pow2(a) <= x && Pow2(b) <= y
    ensures Pow2(a + b) <= x * y
  {
    Pow2Add(a, b);
    MulMonotone(Pow2(a), x, Pow2(b), y);
  }

  /** ... and at most one bit less. */
  lemma ProductBitsTight(x: nat, y: nat, p: nat)
    requires p == x * y && x > 0 && y > 0
    ensures BitLen(p) >= BitLen(x) + BitLen(y) - 1
  {
    var a, b := BitLen(x) - 1, BitLen(y) - 1;
    BitLenBounds(x);
    BitLenBounds(y);
    ProductAbove(x, y, a, b);
    FitsIff(p, a + b);
  }

  lemma QuotientBelow(x: nat, y: nat, q: nat, a: nat, b: nat)
    requires 1 <= b <= a && q * y <= x < Pow2(a) && Pow2(b - 1) <= y
    ensures q < Pow2(a - b + 1)
  {
    Pow2Add(a - b + 1, b - 1);
    if q >= Pow2(a - b + 1) {
      MulMonotone(Pow2(a - b + 1), q, Pow2(b - 1), y);
    }
  }

  lemma QuotientAbove(x: nat, y: nat, q: nat, a: nat, b: nat)
    requires b < a && Pow2(a - 1) <= x < (q + 1) * y && y <= Pow2(b)
    ensures q >= Pow2(a - b - 1)
  {
    Pow2Add(a - b - 1, b);
    if q < Pow2(a - b - 1) {
      MulMonotone(q + 1, Pow2(a - b - 1), y, Pow2(b));
    }
  }

  /** A quotient has at most one bit more than the difference of the lengths. */
  lemma QuotientBits(x: nat, y: nat, q: nat)
    requires y > 0 && q == x / y && BitLen(x) >= BitLen(y)
    ensures BitLen(q) <= BitLen(x) - BitLen(y) + 1
  {
    var a, b := BitLen(x), BitLen(y);
    BitLenBounds(x);
    BitLenBounds(y);
    assert q * y <= x by { Division(x, y); }
    QuotientBelow(x, y, q, a, b);
    FitsIff(q, a - b + 1);
  }

  /** ... and at least that difference: the allocation is at most one bit generous. */
  lemma QuotientBitsTight(x: nat, y: nat, q: nat)
    requires y > 0 && q == x / y && BitLen(x) > BitLen(y)
    ensures BitLen(x) - BitLen(y) <= BitLen(q)
  {
    var a, b := BitLen(x), BitLen(y);
    BitLenBounds(x);
    BitLenBounds(y);
    assert x < (q + 1) * y by { Division(x, y); }
    QuotientAbove(x, y, q, a, b);
    FitsIff(q, a - b - 1);
  }
}

/**
`BigInt`: every result is allocated from its operands' bit counts before the TEE computes
it. The counts are 32-bit numbers, and so is the arithmetic on them, which wraps.
*/
module BigInt {
  import opened Base
  import opened Products
  import opened BitLength

  const U32_MAX := 0xFFFF_FFFF

  /** A 32-bit result. */
  function Wrap(n: int): u32 { n % 0x1_0000_0000 }

  /** `size_in_u32`: whole limbs for the bits, and two words of bookkeeping. */
  function SizeInU32(bits: u32): nat { (bits + 31) / 32 + 2 }

  /** Magnitude bits a buffer of so many words can hold. */
  function Capacity(words: nat): nat
    requires words >= 2
  {
    (words - 2) * 32
  }

  /** A number in its buffer, its bit count being a 32-bit number. */
  datatype Big = Big(words: nat, value: int) {
    ghost predicate Valid() { words >= 2 && BitCount(value) <= Capacity(words) && BitCount(value) <= U32_MAX }
  }

  /**
  `BigInt::new(bits)` and a TEE operation into it: the TEE stores the exact value if the
  destination holds it and panics otherwise.
  */
  ghost function Compute(bits: u32, value: int): Option<Big> {
    if BitCount(value) <= Capacity(SizeInU32(bits)) then Some(Big(SizeInU32(bits), value)) else None
  }

  lemma AllocationHolds(bits: u32)
    ensures Capacity(SizeInU32(bits)) >= bits
    ensures SizeInU32(bits) == 2 || Capacity(SizeInU32(bits) - 1) < bits
  {
  }

  function Max(a: nat, b: nat): nat { if a < b then b else a }

  // ---------------------------------------------------------------- expressions

  datatype Binary = Add | Sub | Mul
  datatype Unary = Neg | Square | Magnitude

  datatype Expr =
    | Operand(big: Big)
    | Apply2(op: Binary, l: Expr, r: Expr)
    | Apply1(fn: Unary, e: Expr)

  function Value2(op: Binary, x: int, y: int): int {
    match op
    case Add => x + y
    case Sub => x - y
    case Mul => x * y
  }

  function Value1(fn: Unary, x: int): int {
    match fn
    case Neg => -x
    case Square => x * x
    case Magnitude => Abs(x)
  }

  /** The bits `add`, `sub`, `multiply` ask for, from the operands' bit counts, before wrapping. */
  function Bits2(op: Binary, x: int, y: int): nat {
    match op
    case Add => Max(BitCount(x), BitCount(y)) + 1
    case Sub => Max(BitCount(x), BitCount(y)) + 1
    case Mul => BitCount(x) + BitCount(y)
  }

  /** The bits `neg`, `square`, `abs` ask for, before wrapping. */
  function Bits1(fn: Unary, x: int): nat {
    match fn
    case Neg => BitCount(x)
    case Square => 2 * BitCount(x)
    case Magnitude => BitCount(x)
  }

  /** The number an expression denotes, in mathematical arithmetic. */
  ghost function Meaning(e: Expr): int {
    match e
    case Operand(big) => big.value
    case Apply2(Add, l, r) => Meaning(l) + Meaning(r)
    case Apply2(Sub, l, r) => Meaning(l) - Meaning(r)
    case Apply2(Mul, l, r) => Meaning(l) * Meaning(r)
    case Apply1(Neg, x) => -Meaning(x)
    case Apply1(Square, x) => Meaning(x) * Meaning(x)
    case Apply1(Magnitude, x) => if Meaning(x) >= 0 then Meaning(x) else -Meaning(x)
  }

  /** Evaluation through allocated buffers, each sized from the operands found there; `None` is a panic. */
  ghost function Eval(e: Expr): Option<Big> {
    match e
    case Operand(big) => Some(big)
    case Apply2(op, l, r) =>
      var x, y := Eval(l), Eval(r);
      if x.None? || y.None? then None
      else Compute(Wrap(Bits2(op, x.value.value, y.value.value)), Value2(op, x.value.value, y.value.value))
    case Apply1(fn, a) =>
      var x := Eval(a);
      if x.None? then None else Compute(Wrap(Bits1(fn, x.value.value)), Value1(fn, x.value.value))
  }

  /**
  The operands of sums and differences are shorter than 2^32 - 1 bits, or the result is
  zero; those of products and squares are together shorter than 2^32 bits.
  */
  ghost predicate Computable(e: Expr) {
    match e
    case Operand(_) => true
    case Apply2(Mul, l, r) => Computable(l) && Computable(r) && BitCount(Meaning(l)) + BitCount(Meaning(r)) <= U32_MAX
    case Apply2(_, l, r) =>
      && Computable(l) && Computable(r)
      && ((BitCount(Meaning(l)) < U32_MAX && BitCount(Meaning(r)) < U32_MAX) || Meaning(e) == 0)
    case Apply1(Square, x) => Computable(x) && 2 * BitCount(Meaning(x)) <= U32_MAX
    case Apply1(_, x) => Computable(x)
  }

  lemma SumFits(x: int, y: int)
    ensures BitCount(x + y) <= Max(BitCount(x), BitCount(y)) + 1
  {
    SumBits(Abs(x), Abs(y), Max(BitCount(x), BitCount(y)));
    BitLenMonotone(Abs(x + y), Abs(x) + Abs(y));
  }

  lemma AbsProduct(x: int, y: int)
    ensures Abs(x * y) == Abs(x) * Abs(y)
  {
  }

  lemma ProductFits(x: int, y: int)
    ensures BitCount(x * y) <= BitCount(x) + BitCount(y)
  {
    AbsProduct(x, y);
    ProductBits(Abs(x), Abs(y), Abs(x * y));
  }

  /** The result of each operation needs no more bits than are asked for it. */
  lemma Bits2Suffice(op: Binary, x: int, y: int)
    ensures BitCount(Value2(op, x, y)) <= Bits2(op, x, y)
  {
    match op
    case Add => SumFits(x, y);
    case Sub => SumFits(x, -y);
    case Mul => ProductFits(x, y);
  }

  lemma Bits1Suffice(fn: Unary, x: int)
    ensures BitCount(Value1(fn, x)) <= Bits1(fn, x)
  {
    if fn == Square { ProductFits(x, x); }
  }

  /** A request of at least the result's bits that stays within 32 bits is met exactly. */
  lemma ComputeExact(bits: nat, value: int)
    requires BitCount(value) <= bits <= U32_MAX
    ensures Compute(Wrap(bits), value) == Some(Big(SizeInU32(bits), value)) && Big(SizeInU32(bits), value).Valid()
  {
  }

  /** A wrapped request is far too small for a product, whose bits are the request's or one less. */
  lemma WrappedProductFails(x: int, y: int)
    requires BitCount(x) <= U32_MAX && BitCount(y) <= U32_MAX && BitCount(x) + BitCount(y) > U32_MAX
    ensures Compute(Wrap(BitCount(x) + BitCount(y)), x * y) == None
  {
    AbsProduct(x, y);
    ProductBitsTight(Abs(x), Abs(y), Abs(x * y));
    assert Wrap(BitCount(x) + BitCount(y)) == BitCount(x) + BitCount(y) - 0x1_0000_0000;
  }

  /** The only request of a sum that wraps is for 2^32 bits; it becomes one for none, which holds zero alone. */
  lemma WrappedSum(bits: nat, value: int)
    requires bits == U32_MAX + 1
    ensures Compute(Wrap(bits), value) == if value == 0 then Some(Big(2, 0)) else None
  {
  }

  lemma Compute2(op: Binary, x: int, y: int)
    requires BitCount(x) <= U32_MAX && BitCount(y) <= U32_MAX
    ensures var c := Compute(Wrap(Bits2(op, x, y)), Value2(op, x, y));
            && (c.Some? <==> Bits2(op, x, y) <= U32_MAX || (op != Mul && Value2(op, x, y) == 0))
            && (c.Some? ==> c.value.Valid() && c.value.value == Value2(op, x, y))
  {
    Bits2Suffice(op, x, y);
    if Bits2(op, x, y) <= U32_MAX {
      ComputeExact(Bits2(op, x, y), Value2(op, x, y));
    } else if op == Mul {
      WrappedProductFails(x, y);
    } else {
      WrappedSum(Bits2(op, x, y), Value2(op, x, y));
    }
  }

  lemma Compute1(fn: Unary, x: int)
    requires BitCount(x) <= U32_MAX
    ensures var c := Compute(Wrap(Bits1(fn, x)), Value1(fn, x));
            && (c.Some? <==> Bits1(fn, x) <= U32_MAX)
            && (c.Some? ==> c.value.Valid() && c.value.value == Value1(fn, x))
  {
    Bits1Suffice(fn, x);
    if Bits1(fn, x) <= U32_MAX {
      ComputeExact(Bits1(fn, x), Value1(fn, x));
    } else {
      WrappedProductFails(x, x);
    }
  }

  /**
  An expression over add, sub, multiply, neg, square and abs on valid operands, with
  32-bit counts that wrap, evaluates through its buffers if and only if no count leaves 32
  bits, save for sums and differences that are zero; and then to its mathematical value.
  */
  lemma {:induction false} EvalIsExactIff(e: Expr)
    requires OperandsValid(e)
    ensures Eval(e).Some? <==> Computable(e)
    ensures Eval(e).Some? ==> Eval(e).value.Valid() && Eval(e).value.value == Meaning(e)
  {
    match e
    case Operand(_) =>
    case Apply2(op, l, r) =>
      EvalIsExactIff(l);
      EvalIsExactIff(r);
      if Eval(l).Some? && Eval(r).Some? { Compute2(op, Meaning(l), Meaning(r)); }
    case Apply1(fn, x) =>
      EvalIsExactIff(x);
      if Eval(x).Some? { Compute1(fn, Meaning(x)); }
  }

  ghost predicate OperandsValid(e: Expr) {
    match e
    case Operand(big) => big.Valid()
    case Apply2(_, l, r) => OperandsValid(l) && OperandsValid(r)
    case Apply1(_, x) => OperandsValid(x)
  }

  // -------------------------------------------------------- no request too generous

  lemma AllOnes(n: nat)
    requires n > 0
    ensures BitCount(Pow2(n) - 1) == n
  {
    FitsIff(Pow2(n) - 1, n);
    FitsIff(Pow2(n) - 1, n - 1);
  }

  lemma {:induction false} Pow2Monotone(m: nat, n: nat)
    requires m <= n
    ensures Pow2(m) <= Pow2(n)
  {
    if m < n {
      Pow2Monotone(m, n - 1);
    }
  }

  /** With `p` and `q` the powers of two above the factors and `half` half their product. */
  lemma OnesTimesOnes(p: nat, q: nat, half: nat)
    requires p * q == 2 * half && half >= 2 * p && half >= 2 * q
    ensures (p - 1) * (q - 1) >= half
  {
    Distribute(p - 1, q, -1);
  }

  /** Operands of any lengths from two bits on whose product needs every bit asked for it. */
  lemma ProductNeedsAll(a: nat, b: nat) returns (x: nat, y: nat)
    requires a >= 2 && b >= 2
    ensures BitCount(x) == a && BitCount(y) == b && BitCount(x * y) == Bits2(Mul, x, y)
  {
    x, y := Pow2(a) - 1, Pow2(b) - 1;
    AllOnes(a);
    AllOnes(b);
    Pow2Add(a, b);
    Pow2Monotone(a + 1, a + b - 1);
    Pow2Monotone(b + 1, a + b - 1);
    OnesTimesOnes(Pow2(a), Pow2(b), Pow2(a + b - 1));
    FitsIff(x * y, a + b - 1);
    ProductFits(x, y);
  }

  /** Operands of any lengths whose sum, and whose difference after a negation, needs every bit asked for it. */
  lemma SumNeedsAll(a: nat, b: nat) returns (x: int, y: int)
    requires a >= 1 && b >= 1
    ensures BitCount(x) == a && BitCount(y) == b
    ensures BitCount(x + y) == Bits2(Add, x, y) && BitCount(x - (-y)) == Bits2(Sub, x, -y)
  {
    x, y := Pow2(a) - 1, Pow2(b) - 1;
    AllOnes(a);
    AllOnes(b);
    var n := Max(a, b);
    Pow2Monotone(1, a);
    Pow2Monotone(1, b);
    FitsIff(x + y, n);
    SumFits(x, y);
  }

  /** A negation or magnitude has exactly the bits asked for it, and some square of every length needs them all. */
  lemma UnaryNeedsAll(v: int, a: nat) returns (x: nat)
    requires a >= 2
    ensures BitCount(-v) == Bits1(Neg, v) && BitCount(if v >= 0 then v else -v) == Bits1(Magnitude, v)
    ensures BitCount(x) == a && BitCount(x * x) == Bits1(Square, x)
  {
    var y;
    x, y := Pow2(a) - 1, Pow2(a) - 1;
    AllOnes(a);
    Pow2Add(a, a);
    Pow2Monotone(a + 1, a + a - 1);
    OnesTimesOnes(Pow2(a), Pow2(a), Pow2(a + a - 1));
    FitsIff(x * x, a + a - 1);
    ProductFits(x, x);
  }

  // ---------------------------------------------------------------------- octets

  /** Octets of a magnitude. */
  function OctetLen(m: nat): nat {
    if m == 0 then 0 else 1 + OctetLen(m / 256)
  }

  lemma Halve(m: nat, n: nat)
    requires BitLen(m) >= 1 && n == m / 2
    ensures BitLen(n) == BitLen(m) - 1
  {
  }

  lemma DropOctet(m: nat)
    ensures BitLen(m / 256) == if BitLen(m) > 8 then BitLen(m) - 8 else 0
  {
    if BitLen(m) > 8 {
      var m4 := m / 16;
      Halve(m, m / 2);
      Halve(m / 2, m / 4);
      Halve(m / 4, m / 8);
      Halve(m / 8, m4);
      Halve(m4, m4 / 2);
      Halve(m4 / 2, m4 / 4);
      Halve(m4 / 4, m4 / 8);
      Halve(m4 / 8, m / 256);
    } else {
      FitsIff(m, 8);
      assert Pow2(4) == 16 && Pow2(8) == 256;
    }
  }

  lemma {:induction false} OctetLenOfBits(m: nat)
    ensures OctetLen(m) == (BitLen(m) + 7) / 8
  {
    if m > 0 {
      OctetLenOfBits(m / 256);
      DropOctet(m);
    }
  }

  /** `convert_to_octet_string`: four octets per limb hold the whole magnitude of any number in its buffer. */
  lemma OctetBufferSuffices(n: Big)
    requires n.Valid()
    ensures OctetLen(Abs(n.value)) <= (n.words - 2) * 4
  {
    OctetLenOfBits(Abs(n.value));
  }

  // -------------------------------------------------------------------- division

  /** `divide`'s request for the quotient, in wrapping 32-bit arithmetic. */
  function QuotientRequest(op1: int, op2: int): nat { Max(1, Wrap(Wrap(BitCount(op1) - BitCount(op2)) + 1)) }

  function CheckedSub(a: u32, b: u32): Option<u32> { if a < b then None else Some(a - b) }
  function CheckedAdd(a: u32, b: u32): Option<u32> { if a + b > U32_MAX then None else Some(a + b) }

  /** The same request where arithmetic overflow is checked; `None` is a panic. */
  function CheckedQuotientRequest(op1: int, op2: int): Option<nat>
    requires BitCount(op1) <= U32_MAX && BitCount(op2) <= U32_MAX
  {
    match CheckedSub(BitCount(op1), BitCount(op2))
    case None => None
    case Some(difference) =>
      match CheckedAdd(difference, 1)
      case None => None
      case Some(bits) => Some(Max(1, bits))
  }

  /** TEE_BigIntDiv: division toward zero, the remainder taking the dividend's sign. */
  ghost predicate TruncatedDivision(op1: int, op2: int, q: int, r: int) {
    && op2 != 0 && op1 == q * op2 + r && Abs(r) < Abs(op2)
    && (op1 >= 0 ==> r >= 0) && (op1 <= 0 ==> r <= 0)
  }

  lemma Signs(q: int, y: int)
    ensures q * (-y) == -(q * y) && (-q) * y == -(q * y) && (-q) * (-y) == q * y
  {
  }

  lemma SameSign(x: nat, y: nat, q: int, r: nat)
    requires x == q * y + r && r < y
    ensures q >= 0
  {
  }

  lemma TruncatedMagnitudes(op1: int, op2: int, q: int, r: int)
    requires TruncatedDivision(op1, op2, q, r)
    ensures Abs(q) == Abs(op1) / Abs(op2) && Abs(r) == Abs(op1) % Abs(op2)
  {
    var x, y, t := Abs(op1), Abs(op2), Abs(r);
    var s := if (op1 < 0) == (op2 < 0) then q else -q;
    Signs(q, op2);
    assert x == s * y + t;
    SameSign(x, y, s, t);
    DivisionUnique(x, y, s, t);
  }

  lemma ShorterIsSmaller(x: nat, y: nat)
    requires BitLen(x) < BitLen(y)
    ensures x < y
  {
  }

  lemma SmallerHasQuotientZero(x: nat, y: nat)
    requires x < y
    ensures x / y == 0
  {
  }

  lemma QuotientFits(x: nat, y: nat, q: nat)
    requires y > 0 && q == x / y
    ensures BitLen(x) >= BitLen(y) ==> BitLen(q) <= BitLen(x) - BitLen(y) + 1
    ensures BitLen(x) < BitLen(y) ==> q == 0
  {
    if BitLen(x) >= BitLen(y) {
      QuotientBits(x, y, q);
    } else {
      ShorterIsSmaller(x, y);
      SmallerHasQuotientZero(x, y);
    }
  }

  /** The request in terms of how much shorter the dividend is. */
  lemma QuotientRequestIs(op1: int, op2: int)
    requires BitCount(op1) <= U32_MAX && 0 < BitCount(op2) <= U32_MAX
    ensures QuotientRequest(op1, op2) ==
            if BitCount(op1) + 1 >= BitCount(op2) then Max(1, BitCount(op1) - BitCount(op2) + 1)
            else U32_MAX + 1 - (BitCount(op2) - BitCount(op1)) + 1
  {
  }

  lemma NonZeroHasBits(v: int)
    requires v != 0
    ensures BitCount(v) > 0
  {
  }

  /**
  For every division, shorter dividends and wrapped requests included, quotient and
  remainder are computed exactly into the sizes asked for them.
  */
  lemma DivideFits(op1: int, op2: int, q: int, r: int)
    requires TruncatedDivision(op1, op2, q, r) && BitCount(op1) <= U32_MAX && BitCount(op2) <= U32_MAX
    ensures QuotientRequest(op1, op2) <= U32_MAX
    ensures Compute(QuotientRequest(op1, op2), q) == Some(Big(SizeInU32(QuotientRequest(op1, op2)), q))
    ensures Compute(BitCount(op2), r) == Some(Big(SizeInU32(BitCount(op2)), r))
  {
    TruncatedMagnitudes(op1, op2, q, r);
    BitLenMonotone(Abs(r), Abs(op2));
    QuotientFits(Abs(op1), Abs(op2), Abs(q));
    NonZeroHasBits(op2);
    QuotientRequestIs(op1, op2);
    ComputeExact(QuotientRequest(op1, op2), q);
    ComputeExact(BitCount(op2), r);
  }

  /**
  The quotient's request is no larger than the dividend if and only if the dividend is at
  most one bit shorter than the divisor; for a shorter one it is close to 2^32 bits for a
  quotient of zero. Where overflow is checked, `divide` panics if and only if the
  dividend is shorter at all, and asks for the same otherwise.
  */
  lemma QuotientRequestModestIff(op1: int, op2: int)
    requires op2 != 0 && BitCount(op1) <= U32_MAX && BitCount(op2) <= U32_MAX
    ensures QuotientRequest(op1, op2) <= Max(1, BitCount(op1)) <==> BitCount(op1) + 1 >= BitCount(op2)
    ensures BitCount(op1) + 1 < BitCount(op2) ==> QuotientRequest(op1, op2) > U32_MAX - BitCount(op2)
    ensures CheckedQuotientRequest(op1, op2) ==
            if BitCount(op1) < BitCount(op2) then None else Some(QuotientRequest(op1, op2))
  {
    NonZeroHasBits(op2);
    QuotientRequestIs(op1, op2);
  }

  /** Three divided by four: one bit is asked for; one divided by four: all but one of 2^32. */
  lemma ShortDividends()
    ensures QuotientRequest(3, 4) == 1 && QuotientRequest(1, 4) == U32_MAX
    ensures CheckedQuotientRequest(3, 4) == None
  {
    assert BitLen(3) == 2 && BitLen(4) == 3;
  }

  /** The modular operations ask for the modulus' bits, which hold every residue. */
  lemma ResidueFits(r: int, n: int)
    requires 0 <= r < n && BitCount(n) <= U32_MAX
    ensures BitCount(r) <= Capacity(SizeInU32(BitCount(n)))
  {
    BitLenMonotone(r, n);
    AllocationHolds(BitCount(n));
  }

  // --------------------------------------------------------------- extended gcd

  /** The extended Euclidean algorithm on magnitudes: the gcd and two coefficients. */
  function ExtendedGcd(a: nat, b: nat): (nat, int, int)
    decreases b
  {
    if b == 0 then (a, 1, 0) else
    var (g, u, v) := ExtendedGcd(b, a % b);
    (g, v, u - (a / b) * v)
  }

  lemma EuclidIdentity(a: nat, b: nat, q: nat, r: nat, u: int, v: int)
    requires a == q * b + r
    ensures u * b + v * r == v * a + (u - q * v) * b
  {
  }

  /** `w` stands for the magnitude of `u - q * v`. */
  lemma EuclidBound(g: nat, u: nat, v: nat, w: nat, q: nat, b: nat, r: nat)
    requires w <= u + q * v && g * u <= r && g * v <= b
    ensures g * w <= q * b + r
  {
  }

  lemma AbsDifference(u: int, v: int, q: nat)
    ensures Abs(u - q * v) <= Abs(u) + q * Abs(v)
  {
  }

  /** What Euclid's algorithm keeps: the coefficients are exact, and no larger than the other operand over the gcd. */
  ghost predicate Bezout(a: nat, b: nat, g: nat, u: int, v: int) {
    && g == u * a + v * b && 0 < g <= Max(a, b)
    && (b == 0 ==> u == 1 && v == 0)
    && (a == 0 ==> u == 0 && v == 1)
    && (a > 0 && b > 0 ==> g * Abs(u) <= b && g * Abs(v) <= a)
  }

  /** One step, with the old coefficients `u` and `v`, and `w` the new second one. */
  lemma BezoutStep(a: nat, b: nat, q: nat, r: nat, g: nat, u: int, v: int, w: int)
    requires b > 0 && a == q * b + r && r < b && (a == 0 ==> q == 0) && w == u - q * v && Bezout(b, r, g, u, v)
    ensures Bezout(a, b, g, v, w)
  {
    EuclidIdentity(a, b, q, r, u, v);
    if r > 0 {
      AbsDifference(u, v, q);
      EuclidBound(g, Abs(u), Abs(v), Abs(w), q, b, r);
    } else if a > 0 {
      assert q > 0;
      MulMonotone(1, q, b, b);
    }
  }

  lemma DivisionNat(a: nat, b: nat) returns (q: nat, r: nat)
    requires b > 0
    ensures q == a / b && r == a % b && a == q * b + r && r < b && (a == 0 ==> q == 0)
  {
    q, r := a / b, a % b;
    Division(a, b);
  }

  lemma {:induction false} BezoutBounds(a: nat, b: nat) returns (g: nat, u: int, v: int)
    requires a > 0 || b > 0
    ensures ExtendedGcd(a, b) == (g, u, v) && Bezout(a, b, g, u, v)
    decreases b
  {
    if b == 0 {
      g, u, v := a, 1, 0;
    } else {
      var q, r := DivisionNat(a, b);
      var u', v';
      g, u', v' := BezoutBounds(b, r);
      u, v := v', u' - q * v';
      BezoutStep(a, b, q, r, g, u', v', v);
    }
  }

  ghost predicate Divides(d: nat, n: nat) { exists k: nat :: n == d * k }

  ghost predicate Greatest(a: nat, b: nat, g: nat) {
    Divides(g, a) && Divides(g, b) && forall d :: Divides(d, a) && Divides(d, b) ==> Divides(d, g)
  }

  lemma DividesSum(d: nat, x: nat, y: nat, q: nat, n: nat)
    requires Divides(d, x) && Divides(d, y) && n == q * x + y
    ensures Divides(d, n)
  {
    var i: nat :| x == d * i;
    var j: nat :| y == d * j;
    Rearrange(d, q, i);
    Rearrange(q, d, i);
    Distribute(d, q * i, j);
    assert n == d * (q * i + j);
  }

  lemma DividesDifference(d: nat, x: nat, y: nat, q: nat, n: nat)
    requires Divides(d, x) && Divides(d, y) && n == y - q * x
    ensures Divides(d, n)
  {
    var i: nat :| x == d * i;
    var j: nat :| y == d * j;
    Rearrange(q, d, i);
    Distribute(d, j, -(q * i));
    var k := j - q * i;
    assert n == d * k;
    if k < 0 {
      assert d * (-k) >= 0 && d * k == -(d * (-k));
      assert n == d * 0;
    } else {
      var m: nat := k;
      assert n == d * m;
    }
  }

  lemma GreatestStep(a: nat, b: nat, q: nat, r: nat, g: nat)
    requires a == q * b + r && Greatest(b, r, g)
    ensures Greatest(a, b, g)
  {
    DividesSum(g, b, r, q, a);
    forall d | Divides(d, a) && Divides(d, b) ensures Divides(d, g) {
      DividesDifference(d, b, a, q, r);
    }
  }

  /** The gcd divides both operands, and everything that divides both divides it. */
  lemma {:induction false} IsGcd(a: nat, b: nat) returns (g: nat)
    ensures ExtendedGcd(a, b).0 == g && Greatest(a, b, g)
    decreases b
  {
    if b == 0 {
      g := a;
      assert a == a * 1 && b == a * 0;
    } else {
      var q, r := DivisionNat(a, b);
      g := IsGcd(b, r);
      GreatestStep(a, b, q, r, g);
    }
  }

  function GcdBits(op1: int, op2: int): nat { Max(1, Max(BitCount(op1), BitCount(op2))) }

  lemma CoefficientBelow(g: nat, c: nat, m: nat)
    requires g > 0 && g * c <= m
    ensures c <= m
  {
  }

  lemma BezoutSmall(a: nat, b: nat, g: nat, u: int, v: int)
    requires Bezout(a, b, g, u, v)
    ensures (Abs(u) <= 1 || Abs(u) <= b) && (Abs(v) <= 1 || Abs(v) <= a) && (g <= a || g <= b)
  {
    if a > 0 && b > 0 {
      CoefficientBelow(g, Abs(u), b);
      CoefficientBelow(g, Abs(v), a);
    }
  }

  lemma CoefficientBits(c: nat, a: nat, b: nat)
    requires c <= 1 || c <= a || c <= b
    ensures BitLen(c) <= Max(1, Max(BitLen(a), BitLen(b)))
  {
    if c <= 1 {
      assert BitLen(c) <= 1;
    } else if c <= a {
      BitLenMonotone(c, a);
    } else {
      BitLenMonotone(c, b);
    }
  }

  lemma GcdResultBits(a: nat, b: nat)
    ensures var (g, u, v) := ExtendedGcd(a, b);
            var bits := Max(1, Max(BitLen(a), BitLen(b)));
            BitLen(g) <= bits && BitLen(Abs(u)) <= bits && BitLen(Abs(v)) <= bits
  {
    var (g, u, v) := ExtendedGcd(a, b);
    if a > 0 || b > 0 {
      var _, _, _ := BezoutBounds(a, b);
      BezoutSmall(a, b, g, u, v);
    }
    CoefficientBits(g, a, b);
    CoefficientBits(Abs(u), a, b);
    CoefficientBits(Abs(v), a, b);
  }

  /** The sign an operand gives its coefficient. */
  function Signed(op: int, c: int): int { if op < 0 then -c else c }

  lemma SignedProduct(op: int, c: int)
    ensures Signed(op, c) * op == c * Abs(op)
  {
  }

  lemma {:induction false} BezoutIdentity(a: nat, b: nat)
    ensures var (g, u, v) := ExtendedGcd(a, b); g == u * a + v * b
  {
    if a > 0 || b > 0 {
      var _, _, _ := BezoutBounds(a, b);
    }
  }

  /** The size asked for the gcd is needed in full: by that of a number with itself. */
  lemma GcdNeedsAll(op: int)
    requires op != 0
    ensures BitCount(ExtendedGcd(Abs(op), Abs(op)).0) == GcdBits(op, op)
  {
    var a := Abs(op);
    assert a % a == 0;
    assert ExtendedGcd(a, 0).0 == a;
    NonZeroHasBits(op);
  }

  /**
  `compute_extended_gcd`: for all operands, of any sign and zero included, the extended
  Euclidean algorithm gives the greatest common divisor and coefficients that all fit
  the one size allocated for the three results.
  */
  lemma ExtendedGcdFits(op1: int, op2: int)
    ensures var (g, u, v) := ExtendedGcd(Abs(op1), Abs(op2));
            && g == Signed(op1, u) * op1 + Signed(op2, v) * op2
            && Greatest(Abs(op1), Abs(op2), g)
            && BitCount(g) <= GcdBits(op1, op2)
            && BitCount(Signed(op1, u)) <= GcdBits(op1, op2)
            && BitCount(Signed(op2, v)) <= GcdBits(op1, op2)
  {
    var a, b := Abs(op1), Abs(op2);
    var (g, u, v) := ExtendedGcd(a, b);
    BezoutIdentity(a, b);
    SignedProduct(op1, u);
    SignedProduct(op2, v);
    var _ := IsGcd(a, b);
    GcdResultBits(a, b);
  }
}
