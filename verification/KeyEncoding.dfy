/** The order-preserving key encoders of drive/src/common/encode.rs. */
module KeyEncoding {
  import opened Prelude
  import opened ByteOrder

  const I63: int := 0x8000_0000_0000_0000

  type i64 = x: int | -I63 <= x < I63

  // ---------- Big-endian numbers ----------

  function Pow256(n: nat): (p: int)
    ensures p > 0
  {
    if n == 0 then 1 else 256 * Pow256(n - 1)
  }

  /** The number a byte string denotes, most significant byte first. */
  function Number(b: Bytes): (v: nat)
    ensures v < Pow256(|b|)
  {
    if b == [] then 0
    else
      Scale(b[0], 255, Pow256(|b| - 1));
      b[0] * Pow256(|b| - 1) + Number(b[1..])
  }

  lemma Scale(x: nat, y: nat, p: nat)
    requires x <= y
    ensures 0 <= x * p <= y * p
  {
  }

  /** `v` in `n` bytes, most significant first. */
  function BigEndian(v: nat, n: nat): (b: Bytes)
    requires v < Pow256(n)
    ensures |b| == n
  {
    if n == 0 then []
    else
      var p := Pow256(n - 1);
      HighByte(v, p);
      [v / p] + BigEndian(v % p, n - 1)
  }

  lemma HighByte(v: nat, p: int)
    requires p > 0 && v < 256 * p
    ensures 0 <= v / p < 256
    ensures (v / p) * p + v % p == v
  {
  }

  lemma {:induction false} NumberOfBigEndian(v: nat, n: nat)
    requires v < Pow256(n)
    ensures Number(BigEndian(v, n)) == v
  {
    if n == 0 {
    } else {
      var q, r := SplitTop(v, n);
      NumberOfBigEndian(r, n - 1);
      NumberOfCons(q, BigEndian(r, n - 1));
    }
  }

  /** The top byte and the rest of a number. */
  lemma SplitTop(v: nat, n: nat) returns (q: Byte, r: nat)
    requires n > 0 && v < Pow256(n)
    ensures r < Pow256(n - 1) && v == q * Pow256(n - 1) + r
    ensures BigEndian(v, n) == [q] + BigEndian(r, n - 1)
  {
    var p := Pow256(n - 1);
    HighByte(v, p);
    q, r := v / p, v % p;
  }

  lemma NumberOfCons(b: Byte, rest: Bytes)
    ensures Number([b] + rest) == b * Pow256(|rest|) + Number(rest)
  {
    assert ([b] + rest)[1..] == rest;
  }

  /** The leading digit decides. */
  lemma DigitOrder(x: nat, u: nat, y: nat, w: nat, p: nat)
    requires u < p && w < p
    ensures x < y ==> x * p + u < y * p + w
  {
    if x < y {
      Scale(x + 1, y, p);
    }
  }

  /** Among strings of one length, byte order is number order. */
  lemma {:induction false} OrderIsNumeric(a: Bytes, b: Bytes)
    requires |a| == |b|
    ensures Lt(a, b) <==> Number(a) < Number(b)
    ensures a == b <==> Number(a) == Number(b)
  {
    if a == [] {
    } else {
      OrderIsNumeric(a[1..], b[1..]);
      assert a == [a[0]] + a[1..] && b == [b[0]] + b[1..];
      var p := Pow256(|a| - 1);
      DigitOrder(a[0], Number(a[1..]), b[0], Number(b[1..]), p);
      DigitOrder(b[0], Number(b[1..]), a[0], Number(a[1..]), p);
    }
  }

  lemma Pow256Values()
    ensures Pow256(7) == 0x100_0000_0000_0000
    ensures Pow256(8) == U64
  {
    assert Pow256(2) == 0x1_0000;
    assert Pow256(4) == 0x1_0000_0000;
    assert Pow256(6) == 0x1_0000_0000_0000;
  }

  function Key64(v: nat): (b: Bytes)
    requires v < U64
    ensures |b| == 8
  {
    Pow256Values();
    BigEndian(v, 8)
  }

  lemma Key64Order(v: nat, w: nat)
    requires v < U64 && w < U64
    ensures Number(Key64(v)) == v
    ensures Lt(Key64(v), Key64(w)) <==> v < w
    ensures Key64(v) == Key64(w) <==> v == w
  {
    Pow256Values();
    NumberOfBigEndian(v, 8);
    NumberOfBigEndian(w, 8);
    OrderIsNumeric(Key64(v), Key64(w));
  }

  /** An eight byte string is determined by the number it denotes. */
  lemma Key64Unique(b: Bytes, v: nat)
    requires |b| == 8 && v < U64 && Number(b) == v
    ensures b == Key64(v)
  {
    Key64Order(v, v);
    OrderIsNumeric(b, Key64(v));
  }

  // ---------- The bit operations of the encoders ----------

  /** `v + 2^63` modulo 2^64. */
  function Offset(v: u64): u64
  {
    if v < I63 then v + I63 else v - I63
  }

  /** `byte ^ 0b1000_0000`. */
  function FlipTopBit(b: Byte): Byte
  {
    if b < 128 then b + 128 else b - 128
  }

  /** `!byte`, on every byte. */
  function Complement(s: Bytes): (r: Bytes)
    ensures |r| == |s|
  {
    if s == [] then [] else [255 - s[0]] + Complement(s[1..])
  }

  lemma {:induction false} NumberOfComplement(s: Bytes)
    ensures Number(Complement(s)) == Pow256(|s|) - 1 - Number(s)
  {
    if s == [] {
    } else {
      NumberOfComplement(s[1..]);
      assert Complement(s)[1..] == Complement(s[1..]);
      var p := Pow256(|s| - 1);
      assert (255 - s[0]) * p == 255 * p - s[0] * p;
    }
  }

  lemma NumberOfFlipped(s: Bytes)
    requires |s| == 8
    ensures Number(s) < U64
    ensures Number(s[0 := FlipTopBit(s[0])]) == Offset(Number(s))
  {
    Pow256Values();
    var t := s[0 := FlipTopBit(s[0])];
    assert t[1..] == s[1..];
    assert Number(s) == s[0] * Pow256(7) + Number(s[1..]);
    assert Number(t) == t[0] * Pow256(7) + Number(s[1..]);
  }

  // ---------- Integers ----------

  /** The 64-bit pattern of a signed integer. */
  function TwosComplement(v: i64): u64
  {
    if v < 0 then v + U64 else v
  }

  ghost function SignedKey(v: i64): Bytes
  {
    Key64(v + I63)
  }

  ghost function UnsignedKey(v: u64): Bytes
  {
    Key64(Offset(v))
  }

  /** The encoder writes the integer in offset binary: the key denotes `val + 2^63`. */
  method EncodeSignedInteger(val: i64) returns (wtr: Bytes)
    ensures wtr == SignedKey(val)
    ensures Number(wtr) == val + I63
  {
    wtr := Key64(TwosComplement(val));
    Key64Order(TwosComplement(val), val + I63);
    NumberOfFlipped(wtr);
    wtr := wtr[0 := FlipTopBit(wtr[0])];
    Key64Unique(wtr, val + I63);
  }

  method EncodeUnsignedInteger(val: u64) returns (wtr: Bytes)
    ensures wtr == UnsignedKey(val)
    ensures Number(wtr) == Offset(val)
  {
    wtr := Key64(val);
    Key64Order(val, val);
    NumberOfFlipped(wtr);
    wtr := wtr[0 := FlipTopBit(wtr[0])];
    Key64Unique(wtr, Offset(val));
  }

  /** For signed integers byte order is integer order, and keys are distinct. */
  lemma SignedKeyOrder(a: i64, b: i64)
    ensures Lt(SignedKey(a), SignedKey(b)) <==> a < b
    ensures SignedKey(a) == SignedKey(b) <==> a == b
  {
    Key64Order(a + I63, b + I63);
  }

  /** Unsigned keys agree with the integer order exactly within one half of the 64-bit range; below
      2^63 they are the signed keys. */
  lemma UnsignedKeyOrder(a: u64, b: u64)
    ensures (Lt(UnsignedKey(a), UnsignedKey(b)) <==> a < b) <==> (a < I63 <==> b < I63)
    ensures UnsignedKey(a) == UnsignedKey(b) <==> a == b
    ensures a < I63 ==> UnsignedKey(a) == SignedKey(a)
  {
    Key64Order(Offset(a), Offset(b));
  }

  // ---------- Doubles, by the binary64 layout of section 3.4 of IEEE 754-2008 ----------

  const FRACTION: int := 0x10_0000_0000_0000
  const EXPONENT_MAX: int := 2047

  /** The pattern without its sign bit. */
  function Unsigned(bits: u64): nat
  {
    if SignBit(bits) then bits - I63 else bits
  }

  predicate SignBit(bits: u64)
  {
    bits >= I63
  }

  predicate IsNaN(bits: u64)
  {
    Unsigned(bits) / FRACTION == EXPONENT_MAX && Unsigned(bits) % FRACTION != 0
  }

  predicate IsNegativeZero(bits: u64)
  {
    bits == I63
  }

  function Pow2(n: nat): (p: int)
    ensures p > 0
  {
    if n == 0 then 1 else 2 * Pow2(n - 1)
  }

  /** The absolute value in units of 2^-1074, the least positive double: subnormals when the biased
      exponent is zero, `1.fraction` scaled otherwise. Infinity comes out above every finite double. */
  function Magnitude(m: nat): int
  {
    Scaled(m / FRACTION, m % FRACTION)
  }

  function Scaled(exponent: nat, fraction: nat): int
  {
    if exponent == 0 then fraction else (FRACTION + fraction) * Pow2(exponent - 1)
  }

  /** The value of a double that is not a NaN, in the same units. */
  function FloatValue(bits: u64): int
  {
    if SignBit(bits) then -Magnitude(Unsigned(bits)) else Magnitude(Unsigned(bits))
  }

  /** The `<` of Rust's f64: false whenever a NaN is involved. */
  predicate FloatLess(a: u64, b: u64)
  {
    !IsNaN(a) && !IsNaN(b) && FloatValue(a) < FloatValue(b)
  }

  predicate FloatEqual(a: u64, b: u64)
  {
    !IsNaN(a) && !IsNaN(b) && FloatValue(a) == FloatValue(b)
  }

  lemma {:induction false} Pow2Monotone(a: nat, b: nat)
    requires a <= b
    ensures Pow2(a) <= Pow2(b)
  {
    if a < b {
      Pow2Monotone(a, b - 1);
    }
  }

  /** Larger fractions, then larger exponents, make larger magnitudes. */
  lemma ScaledMonotone(em: nat, fm: nat, en: nat, fn: nat)
    requires fm < FRACTION && fn < FRACTION
    requires em < en || (em == en && fm < fn)
    ensures Scaled(em, fm) < Scaled(en, fn)
  {
    if em == en {
      if em > 0 {
        Scale(FRACTION + fm + 1, FRACTION + fn, Pow2(em - 1));
      }
    } else {
      Scale(FRACTION, FRACTION + fn, Pow2(en - 1));
      if em > 0 {
        Pow2Monotone(em, en - 1);
        Scale(FRACTION + fm + 1, 2 * FRACTION, Pow2(em - 1));
      }
    }
  }

  /** Within one sign, larger patterns are larger magnitudes. */
  lemma MagnitudeMonotone(m: nat, n: nat)
    requires m < n
    ensures Magnitude(m) < Magnitude(n)
  {
    ScaledMonotone(m / FRACTION, m % FRACTION, n / FRACTION, n % FRACTION);
  }

  lemma MagnitudeOrder(m: nat, n: nat)
    ensures Magnitude(m) < Magnitude(n) <==> m < n
    ensures Magnitude(m) == Magnitude(n) <==> m == n
    ensures Magnitude(m) == 0 <==> m == 0
  {
    if m < n {
      MagnitudeMonotone(m, n);
    } else if n < m {
      MagnitudeMonotone(n, m);
    }
    if m > 0 {
      MagnitudeMonotone(0, m);
    }
  }

  /** The encoder's test `val < 0.0`. */
  predicate BelowZero(bits: u64)
  {
    FloatLess(bits, 0)
  }

  ghost function FloatKey(bits: u64): Bytes
  {
    Key64(if BelowZero(bits) then U64 - 1 - bits else Offset(bits))
  }

  method EncodeFloat(bits: u64) returns (wtr: Bytes)
    ensures wtr == FloatKey(bits)
    ensures Number(wtr) == if bits > I63 && !IsNaN(bits) then U64 - 1 - bits else Offset(bits)
  {
    wtr := Key64(bits);
    Key64Order(bits, bits);
    Pow256Values();
    if BelowZero(bits) {
      NumberOfComplement(wtr);
      wtr := Complement(wtr);
      Key64Unique(wtr, U64 - 1 - bits);
    } else {
      NumberOfFlipped(wtr);
      wtr := wtr[0 := FlipTopBit(wtr[0])];
      Key64Unique(wtr, Offset(bits));
    }
  }

  /** The pairs of doubles that byte order misplaces: negative zero comes before everything. */
  predicate NegativeZeroMisplaced(a: u64, b: u64)
  {
    (IsNegativeZero(a) && !IsNegativeZero(b) && FloatValue(b) <= 0) || (IsNegativeZero(b) && FloatValue(a) < 0)
  }

  /** Byte order is numeric order for all doubles that are not NaN, except exactly the pairs in which
      negative zero is misplaced. */
  lemma FloatKeyOrder(a: u64, b: u64)
    requires !IsNaN(a) && !IsNaN(b)
    ensures (Lt(FloatKey(a), FloatKey(b)) <==> FloatLess(a, b)) <==> !NegativeZeroMisplaced(a, b)
    ensures !IsNegativeZero(a) && !IsNegativeZero(b) ==> (FloatKey(a) == FloatKey(b) <==> FloatEqual(a, b))
    ensures FloatKey(a) == FloatKey(b) <==> a == b
  {
    FloatValueSigns(a);
    FloatValueSigns(b);
    MagnitudeOrder(Unsigned(a), Unsigned(b));
    var ka := if BelowZero(a) then U64 - 1 - a else Offset(a);
    var kb := if BelowZero(b) then U64 - 1 - b else Offset(b);
    Key64Order(ka, kb);
  }

  lemma FloatValueSigns(a: u64)
    requires !IsNaN(a)
    ensures FloatValue(a) == 0 <==> Unsigned(a) == 0
    ensures BelowZero(a) <==> SignBit(a) && Unsigned(a) != 0
    ensures FloatValue(a) > 0 <==> !SignBit(a) && Unsigned(a) != 0
  {
    MagnitudeOrder(Unsigned(a), 0);
    assert FloatValue(0) == 0;
  }

  /** Two numbers out of order: zero against negative zero, minus one against negative zero, and
      integers on either side of 2^63. */
  lemma MisplacedKeys()
    ensures Lt(FloatKey(I63), FloatKey(0)) && !FloatLess(I63, 0)
    ensures var minusOne := 0xBFF0_0000_0000_0000;
            FloatLess(minusOne, I63) && Lt(FloatKey(I63), FloatKey(minusOne))
    ensures Lt(UnsignedKey(I63), UnsignedKey(I63 - 1))
  {
    var minusOne := 0xBFF0_0000_0000_0000;
    FloatValueSigns(I63);
    FloatValueSigns(0);
    FloatValueSigns(minusOne);
    Key64Order(0, I63);
    Key64Order(0, U64 - 1 - minusOne);
    Key64Order(0, U64 - 1);
  }
}
