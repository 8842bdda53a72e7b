/** The bit operations of unsigned machine words, on naturals, bit by bit. */
module Words {
  import opened BitLength
  import opened Products

  const WORD := 0x1_0000_0000

  function And(x: nat, y: nat): nat {
    if x == 0 || y == 0 then 0 else 2 * And(x / 2, y / 2) + (if x % 2 == 1 && y % 2 == 1 then 1 else 0)
  }

  function Or(x: nat, y: nat): nat {
    if x == 0 then y else if y == 0 then x else 2 * Or(x / 2, y / 2) + (if x % 2 == 1 || y % 2 == 1 then 1 else 0)
  }

  /** A 32-bit shift to the left, the bits moved out being lost. */
  function Shl(x: nat, k: nat): nat
    decreases k, x
  {
    if k == 0 then x else Shl(2 * x % WORD, k - 1)
  }

  lemma HalfMultiple(x: nat, p: nat)
    ensures (x * (2 * p)) / 2 == x * p && (x * (2 * p)) % 2 == 0
  {
    Rearrange(x, 2, p);
  }

  /** Or-ing a number into bits that are all clear adds it. */
  lemma {:induction false} OrOfDisjoint(x: nat, y: nat, k: nat)
    requires y < Pow2(k)
    ensures Or(x * Pow2(k), y) == x * Pow2(k) + y
  {
    if k > 0 {
      OrOfDisjoint(x, y / 2, k - 1);
      HalfMultiple(x, Pow2(k - 1));
    }
  }

  lemma ModuloTwice(x: nat, p: nat)
    requires p > 0
    ensures x % (2 * p) == 2 * (x / 2 % p) + x % 2
  {
    var h := x / 2;
    Division(h, p);
    Rearrange(h / p, 2, p);
    DivisionUnique(x, 2 * p, h / p, 2 * (h % p) + x % 2);
  }

  /** Masking with the `k` low bits set keeps the remainder by two to the `k`. */
  lemma {:induction false} AndOfMask(x: nat, k: nat)
    ensures And(x, Pow2(k) - 1) == x % Pow2(k)
  {
    if k > 0 {
      var p := Pow2(k - 1);
      AndOfMask(x / 2, k - 1);
      ModuloTwice(x, p);
      assert (2 * p - 1) / 2 == p - 1 && (2 * p - 1) % 2 == 1;
    }
  }

  lemma DoubleMultiple(x: nat, p: nat)
    requires x * (2 * p) < WORD && p > 0
    ensures (2 * x) * p == x * (2 * p) && 2 * x % WORD == 2 * x
  {
    MulMonotone(2 * x, 2 * x, 1, p);
  }

  /** Shifting multiplies by a power of two while the word holds the result. */
  lemma {:induction false} ShlMultiplies(x: nat, k: nat, p: nat)
    requires p == Pow2(k) && x * p < WORD
    ensures Shl(x, k) == x * p
    decreases k, x
  {
    if k > 0 {
      var half := Pow2(k - 1);
      DoubleMultiple(x, half);
      ShlMultiplies(2 * x, k - 1, half);
    }
  }
}

/**
The HOTP example TA: one counter and one key per session, a six-digit password per
request, as RFC 4226 defines it. The HMAC is a parameter; byte arithmetic wraps.
*/
module Hotp {
  import opened Base
  import opened BitLength
  import opened Products
  import opened Words

  const SHA1_HASH_SIZE := 20
  const MAX_KEY_SIZE := 64
  const MIN_KEY_SIZE := 10
  const DBC2_MODULO := 1_000_000
  const COUNTER_SIZE := 8

  // ------------------------------------------------------- the big-endian counter

  function Pow256(n: nat): (p: nat)
    ensures p > 0
  {
    if n == 0 then 1 else 256 * Pow256(n - 1)
  }

  function BigEndian(b: Bytes): nat {
    if b == [] then 0 else BigEndian(b[..|b| - 1]) * 256 + b[|b| - 1]
  }

  /** The octet string of a number, most significant first. */
  function ToBigEndian(n: nat, width: nat): (b: Bytes)
    ensures |b| == width
  {
    if width == 0 then [] else ToBigEndian(n / 256, width - 1) + [n % 256]
  }

  /** The carry loop from the last byte on. */
  function Increment(b: Bytes): (r: Bytes)
    ensures |r| == |b|
  {
    if b == [] then [] else
    var n := |b| - 1;
    var low: int := b[n];
    var last := (low + 1) % 256;
    if last > 0 then b[..n] + [last] else Increment(b[..n]) + [0]
  }

  lemma {:induction false} BigEndianBound(b: Bytes)
    ensures BigEndian(b) < Pow256(|b|)
  {
    if b != [] {
      BigEndianBound(b[..|b| - 1]);
    }
  }

  lemma BigEndianSnoc(b: Bytes, x: u8)
    ensures BigEndian(b + [x]) == BigEndian(b) * 256 + x
  {
  }

  lemma SmallModulo(x: nat, m: nat)
    requires x < m
    ensures x % m == x
  {
  }

  lemma SelfModulo(m: nat)
    requires m > 0
    ensures m % m == 0
  {
  }

  lemma NoCarry(h: nat, low: nat, p: nat, whole: nat, value: nat, next: nat)
    requires h < p && low < 255 && whole == 256 * p && value == h * 256 + low && next == value + 1
    ensures next == (value + 1) % whole
  {
    SmallModulo(next, whole);
  }

  lemma Carry(h: nat, carried: nat, p: nat, whole: nat, value: nat, next: nat)
    requires h < p && whole == 256 * p && value == h * 256 + 255 && carried == (h + 1) % p && next == carried * 256
    ensures next == (value + 1) % whole
  {
    if h + 1 < p {
      SmallModulo(h + 1, p);
      SmallModulo(value + 1, whole);
    } else {
      SelfModulo(p);
      SelfModulo(whole);
    }
  }

  /** The carry loop adds one, modulo two to the counter's width. */
  lemma {:induction false} IncrementAddsOne(b: Bytes)
    ensures BigEndian(Increment(b)) == (BigEndian(b) + 1) % Pow256(|b|)
  {
    if b == [] { return; }
    var n := |b| - 1;
    var high, low: int := b[..n], b[n];
    BigEndianBound(high);
    if low < 255 {
      BigEndianSnoc(high, low + 1);
      NoCarry(BigEndian(high), low, Pow256(n), Pow256(n + 1), BigEndian(b), BigEndian(Increment(b)));
    } else {
      IncrementAddsOne(high);
      BigEndianSnoc(Increment(high), 0);
      Carry(BigEndian(high), BigEndian(Increment(high)), Pow256(n), Pow256(n + 1),
            BigEndian(b), BigEndian(Increment(b)));
    }
  }

  lemma {:induction false} BigEndianInverse(b: Bytes)
    ensures ToBigEndian(BigEndian(b), |b|) == b
  {
    if b != [] {
      var n := |b| - 1;
      BigEndianInverse(b[..n]);
      assert BigEndian(b) / 256 == BigEndian(b[..n]) && BigEndian(b) % 256 == b[n];
      assert b == b[..n] + [b[n]];
    }
  }

  // ------------------------------------------------------------------- truncation

  /** Four bytes shifted into place and or-ed together, the top bit of the first masked. */
  function BinCode(a: u8, b: u8, c: u8, d: u8): nat {
    Or(Or(Or(Shl(And(a, 0x7F), 24), Shl(b, 16)), Shl(c, 8)), d)
  }

  lemma PowersOfTwo()
    ensures Pow2(4) == 16 && Pow2(7) == 128 && Pow2(8) == 0x100 && Pow2(16) == 0x1_0000 && Pow2(24) == 0x100_0000
  {
    assert Pow2(4) == 16 && Pow2(8) == 0x100;
    Pow2Add(8, 8);
    Pow2Add(8, 16);
  }

  lemma OrByte(x: nat, y: nat, high: nat, k: nat)
    requires (k == 24 && high == x * 0x100_0000 && y < 0x100_0000)
          || (k == 16 && high == x * 0x1_0000 && y < 0x1_0000)
          || (k == 8 && high == x * 0x100 && y < 0x100)
    ensures Or(high, y) == high + y
  {
    PowersOfTwo();
    OrOfDisjoint(x, y, k);
  }

  lemma OrOfBytes(top: nat, b: nat, c: nat, d: nat)
    requires top < 128 && b < 256 && c < 256 && d < 256
    ensures Or(Or(Or(top * 0x100_0000, b * 0x1_0000), c * 0x100), d) == top * 0x100_0000 + b * 0x1_0000 + c * 0x100 + d
  {
    var one, two := top * 0x100_0000, top * 0x100_0000 + b * 0x1_0000;
    var three := two + c * 0x100;
    OrByte(top, b * 0x1_0000, one, 24);
    OrByte(top * 0x100 + b, c * 0x100, two, 16);
    OrByte(top * 0x1_0000 + b * 0x100 + c, d, three, 8);
  }

  lemma ShiftsOfBytes(a: u8, b: u8, c: u8)
    ensures And(a, 0x7F) == a % 128 && Shl(a % 128, 24) == (a % 128) * 0x100_0000
    ensures Shl(b, 16) == b * 0x1_0000 && Shl(c, 8) == c * 0x100
  {
    PowersOfTwo();
    AndOfMask(a, 7);
    ShlMultiplies(a % 128, 24, 0x100_0000);
    ShlMultiplies(b, 16, 0x1_0000);
    ShlMultiplies(c, 8, 0x100);
  }

  /** The shifts fall into disjoint bits, so that or-ing is adding. */
  lemma BinCodeIsSum(a: u8, b: u8, c: u8, d: u8)
    ensures BinCode(a, b, c, d) == (a % 128) * 0x100_0000 + b * 0x1_0000 + c * 0x100 + d
  {
    ShiftsOfBytes(a, b, c);
    OrOfBytes(a % 128, b, c, d);
  }

  lemma OffsetIsNibble(x: u8)
    ensures And(x, 0xF) == x % 16
  {
    PowersOfTwo();
    AndOfMask(x, 4);
  }

  /** `truncate`: four bytes at the offset in the last nibble. */
  function Truncate(mac: Bytes): u32
    requires |mac| == SHA1_HASH_SIZE
  {
    OffsetIsNibble(mac[19]);
    var offset := And(mac[19], 0xF);
    BinCode(mac[offset], mac[offset + 1], mac[offset + 2], mac[offset + 3]) % DBC2_MODULO
  }

  /** Section 5.3 of RFC 4226: the last 31 bits of the four bytes selected, reduced to six digits. */
  function HotpValue(mac: Bytes): nat
    requires |mac| == SHA1_HASH_SIZE
  {
    var offset := mac[19] % 16;
    BigEndian(mac[offset..offset + 4]) % 0x8000_0000 % 1_000_000
  }

  lemma FourBytes(a: u8, b: u8, c: u8, d: u8)
    ensures BigEndian([a, b, c, d]) == a * 0x100_0000 + b * 0x1_0000 + c * 0x100 + d
  {
    BigEndianSnoc([a, b, c], d);
    BigEndianSnoc([a, b], c);
    BigEndianSnoc([a], b);
    BigEndianSnoc([], a);
    assert [a, b, c, d] == [a, b, c] + [d] && [a, b, c] == [a, b] + [c] && [a, b] == [a] + [b] && [a] == [] + [a];
  }

  /** Masking the top bit of the first byte keeps the last 31 bits of the word. */
  lemma Last31Bits(a: nat, rest: nat)
    requires a < 256 && rest < 0x100_0000
    ensures (a * 0x100_0000 + rest) % 0x8000_0000 == (a % 128) * 0x100_0000 + rest
  {
  }

  lemma TruncateIsHotpValue(mac: Bytes)
    requires |mac| == SHA1_HASH_SIZE
    ensures Truncate(mac) == HotpValue(mac)
  {
    var o := mac[19] % 16;
    assert mac[o..o + 4] == [mac[o], mac[o + 1], mac[o + 2], mac[o + 3]];
    FourBytes(mac[o], mac[o + 1], mac[o + 2], mac[o + 3]);
    var a: int, b: int, c: int, d: int := mac[o], mac[o + 1], mac[o + 2], mac[o + 3];
    OffsetIsNibble(mac[19]);
    BinCodeIsSum(a, b, c, d);
    Last31Bits(a, b * 0x1_0000 + c * 0x100 + d);
  }

  // --------------------------------------------------------------------- sessions

  /** `HmacOtp`. */
  datatype Otp = Otp(counter: Bytes, key: Bytes, keyLen: nat) {
    ghost predicate Valid() { |counter| == COUNTER_SIZE && |key| == MAX_KEY_SIZE && keyLen <= MAX_KEY_SIZE }
  }

  function Fresh(): Otp { Otp(Zeros(COUNTER_SIZE), Zeros(MAX_KEY_SIZE), 0) }

  type Hmac = (Bytes, Bytes) -> Bytes

  ghost predicate IsSha1(hmac: Hmac) {
    forall key, text :: |hmac(key, text)| == SHA1_HASH_SIZE
  }

  /** A command, with what the parameters turn out to be and whether the TEE's MAC calls succeed. */
  datatype Command =
    | RegisterSharedKey(isMemrefInput: bool, buffer: Bytes)
    | GetHotp(macWorks: bool, isValueOutput: bool)
    | OtherCommand

  datatype Reply = Done | Failed | Password(value: nat)

  function RegisterStep(s: Otp, isMemrefInput: bool, buffer: Bytes): (Otp, Reply)
    requires |s.key| == MAX_KEY_SIZE
  {
    if !isMemrefInput || |buffer| < MIN_KEY_SIZE || |buffer| > MAX_KEY_SIZE then (s, Failed)
    else (s.(key := buffer + s.key[|buffer|..], keyLen := |buffer|), Done)
  }

  ghost function GetStep(hmac: Hmac, s: Otp, macWorks: bool, isValueOutput: bool): (Otp, Reply)
    requires IsSha1(hmac) && s.Valid()
  {
    if s.keyLen < MIN_KEY_SIZE || !macWorks then (s, Failed) else
    var mac := hmac(s.key[..s.keyLen], s.counter);
    (s.(counter := Increment(s.counter)), if isValueOutput then Password(Truncate(mac)) else Failed)
  }

  ghost function Step(hmac: Hmac, s: Otp, c: Command): (Otp, Reply)
    requires IsSha1(hmac) && s.Valid()
  {
    match c
    case RegisterSharedKey(isMemrefInput, buffer) => RegisterStep(s, isMemrefInput, buffer)
    case GetHotp(macWorks, isValueOutput) => GetStep(hmac, s, macWorks, isValueOutput)
    case OtherCommand => (s, Failed)
  }

  ghost function Run(hmac: Hmac, commands: seq<Command>): (s: Otp)
    requires IsSha1(hmac)
    ensures s.Valid()
  {
    if commands == [] then Fresh() else Step(hmac, Run(hmac, commands[..|commands| - 1]), commands[|commands| - 1]).0
  }

  // ------------------------------------------------------- what the run amounts to

  /** The last key a run accepted. */
  ghost function LatestKey(commands: seq<Command>): Option<Bytes> {
    if commands == [] then None else
    match commands[|commands| - 1]
    case RegisterSharedKey(isMemrefInput, buffer) =>
      if isMemrefInput && 10 <= |buffer| <= 64 then Some(buffer)
      else LatestKey(commands[..|commands| - 1])
    case _ => LatestKey(commands[..|commands| - 1])
  }

  /** How many requests got as far as a MAC, with whatever parameter to put the password in. */
  ghost function MacsComputed(commands: seq<Command>): nat {
    if commands == [] then 0 else
    var before := commands[..|commands| - 1];
    var c := commands[|commands| - 1];
    MacsComputed(before) + if c.GetHotp? && c.macWorks && LatestKey(before).Some? then 1 else 0
  }

  /** RFC 4226: the six-digit password of a key at a counter value. */
  ghost function Hotp(hmac: Hmac, key: Bytes, count: nat): nat
    requires IsSha1(hmac)
  {
    HotpValue(hmac(key, ToBigEndian(count, 8)))
  }

  lemma CountModulo(n: nat, m: nat)
    requires m > 0
    ensures (n % m + 1) % m == (n + 1) % m
  {
    var q, r := n / m, n % m;
    Division(n, m);
    if r + 1 < m {
      SmallModulo(r + 1, m);
      DivisionUnique(n + 1, m, q, r + 1);
    } else {
      SelfModulo(m);
      Distribute(m, q, 1);
      DivisionUnique(n + 1, m, q + 1, 0);
    }
  }

  lemma CounterStep(counter: Bytes, count: nat)
    requires |counter| == COUNTER_SIZE && BigEndian(counter) == count % Pow256(COUNTER_SIZE)
    ensures BigEndian(Increment(counter)) == (count + 1) % Pow256(COUNTER_SIZE)
  {
    IncrementAddsOne(counter);
    CountModulo(count, Pow256(COUNTER_SIZE));
  }

  /** The key in use is exactly the last one accepted, whatever longer key was there before. */
  lemma {:induction false} KeyIsLatest(hmac: Hmac, commands: seq<Command>)
    requires IsSha1(hmac)
    ensures var s := Run(hmac, commands);
            match LatestKey(commands)
            case Some(key) => s.keyLen == |key| && 10 <= |key| <= 64 && s.key[..s.keyLen] == key
            case None => s.keyLen == 0
  {
    if commands != [] {
      var before, c := commands[..|commands| - 1], commands[|commands| - 1];
      KeyIsLatest(hmac, before);
      if c.RegisterSharedKey? && c.isMemrefInput && MIN_KEY_SIZE <= |c.buffer| <= MAX_KEY_SIZE {
        var s := Run(hmac, before);
        assert (c.buffer + s.key[|c.buffer|..])[..|c.buffer|] == c.buffer;
      }
    }
  }

  lemma {:induction false} CounterModulo(hmac: Hmac, commands: seq<Command>)
    requires IsSha1(hmac)
    ensures BigEndian(Run(hmac, commands).counter) == MacsComputed(commands) % Pow256(COUNTER_SIZE)
  {
    if commands == [] {
      ZeroCounter();
      SmallModulo(0, Pow256(COUNTER_SIZE));
    } else {
      var before, c := commands[..|commands| - 1], commands[|commands| - 1];
      CounterModulo(hmac, before);
      KeyIsLatest(hmac, before);
      if c.GetHotp? && c.macWorks && LatestKey(before).Some? {
        CounterStep(Run(hmac, before).counter, MacsComputed(before));
      }
    }
  }

  lemma TwoTo64()
    ensures Pow256(COUNTER_SIZE) == 0x1_0000_0000_0000_0000
  {
    assert Pow256(4) == 0x1_0000_0000;
  }

  /**
  Over every run of a session: the counter is the number of MACs computed so far, modulo
  two to the 64, no matter how often keys were registered or a password could not be
  delivered.
  */
  lemma CounterCountsMacs(hmac: Hmac, commands: seq<Command>)
    requires IsSha1(hmac)
    ensures |Run(hmac, commands).counter| == 8
    ensures BigEndian(Run(hmac, commands).counter) == MacsComputed(commands) % 0x1_0000_0000_0000_0000
  {
    CounterModulo(hmac, commands);
    TwoTo64();
  }

  /** A registration is Done if and only if it brings a memory reference of 10 to 64 bytes; else it does nothing. */
  lemma RegisterAnswers(hmac: Hmac, commands: seq<Command>, isMemrefInput: bool, buffer: Bytes)
    requires IsSha1(hmac)
    ensures var (s, r) := Step(hmac, Run(hmac, commands), RegisterSharedKey(isMemrefInput, buffer));
            && (r == Done <==> isMemrefInput && 10 <= |buffer| <= 64)
            && (r == Done ==> s.keyLen == |buffer| && s.key[..|buffer|] == buffer)
            && (r != Done ==> r == Failed && s == Run(hmac, commands))
  {
  }

  lemma ZeroCounter()
    ensures BigEndian(Fresh().counter) == 0
  {
    AllZero(Fresh().counter);
  }

  lemma {:induction false} AllZero(b: Bytes)
    requires forall i :: 0 <= i < |b| ==> b[i] == 0
    ensures BigEndian(b) == 0
  {
    if b != [] { AllZero(b[..|b| - 1]); }
  }

  /**
  After every run, a request answers a password if and only if some key was accepted
  before, the MAC works and the parameter can take a value; the password is then the
  HOTP of the latest key at the number of MACs computed before it.
  */
  lemma DeliversHotp(hmac: Hmac, commands: seq<Command>, macWorks: bool, isValueOutput: bool)
    requires IsSha1(hmac)
    ensures var r := Step(hmac, Run(hmac, commands), GetHotp(macWorks, isValueOutput)).1;
            && (r.Password? <==> LatestKey(commands).Some? && macWorks && isValueOutput)
            && (r.Password? ==>
                  r.value == Hotp(hmac, LatestKey(commands).value, MacsComputed(commands) % 0x1_0000_0000_0000_0000))
            && (!r.Password? ==> r == Failed)
  {
    CounterCountsMacs(hmac, commands);
    KeyIsLatest(hmac, commands);
    var s := Run(hmac, commands);
    BigEndianInverse(s.counter);
    TruncateIsHotpValue(hmac(s.key[..s.keyLen], s.counter));
  }

  // --------------------------------------------------------------------- in place

  class HmacOtp {
    const counter: array<u8>
    const key: array<u8>
    var keyLen: nat

    ghost predicate Valid()
      reads this
    {
      counter.Length == COUNTER_SIZE && key.Length == MAX_KEY_SIZE && counter != key && keyLen <= MAX_KEY_SIZE
    }

    ghost function View(): Otp
      reads this, counter, key
    {
      Otp(counter[..], key[..], keyLen)
    }

    constructor ()
      ensures Valid() && View() == Fresh() && fresh(counter) && fresh(key)
    {
      counter := new u8[COUNTER_SIZE](_ => 0);
      key := new u8[MAX_KEY_SIZE](_ => 0);
      keyLen := 0;
    }

    method RegisterSharedKey(isMemrefInput: bool, buffer: Bytes) returns (r: Reply)
      requires Valid()
      modifies this, key
      ensures Valid() && (View(), r) == RegisterStep(old(View()), isMemrefInput, buffer)
    {
      if !isMemrefInput { return Failed; }
      if |buffer| < MIN_KEY_SIZE || |buffer| > MAX_KEY_SIZE { return Failed; }
      keyLen := |buffer|;
      forall i | 0 <= i < keyLen {
        key[i] := buffer[i];
      }
      assert key[..] == buffer + old(View()).key[|buffer|..];
      assert counter[..] == old(View()).counter;
      r := Done;
    }

    /** The carry loop over the counter, from its last byte. */
    method Advance()
      requires Valid()
      modifies counter
      ensures counter[..] == Increment(old(counter[..]))
    {
      var i := counter.Length;
      assert counter[..i] == counter[..] && counter[i..] == [];
      while i > 0
        invariant 0 <= i <= counter.Length
        invariant counter[..i] == old(counter[..])[..i]
        invariant Increment(old(counter[..])) == Increment(counter[..i]) + counter[i..]
      {
        i := i - 1;
        var low: int := counter[i];
        ghost var high, tail := counter[..i], counter[i + 1..];
        assert counter[..i + 1][..i] == high && counter[..i + 1][i] == low;
        counter[i] := (low + 1) % 256;
        assert counter[..i] == high && counter[i..] == [(low + 1) % 256] + tail;
        if counter[i] > 0 {
          assert counter[..] == counter[..i] + counter[i..];
          return;
        }
      }
      assert counter[0..] == counter[..];
    }

    method GetHotp(hmac: Hmac, macWorks: bool, isValueOutput: bool) returns (r: Reply)
      requires Valid() && IsSha1(hmac)
      modifies counter
      ensures Valid() && (View(), r) == GetStep(hmac, old(View()), macWorks, isValueOutput)
    {
      if keyLen < MIN_KEY_SIZE || keyLen > MAX_KEY_SIZE { return Failed; }
      if !macWorks { return Failed; }
      var mac := hmac(key[..keyLen], counter[..]);
      assert key[..keyLen] == key[..][..keyLen];
      Advance();
      var password := Truncate(mac);
      r := if isValueOutput then Password(password) else Failed;
    }
  }
}
