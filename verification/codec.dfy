/** The typed accessors of conversions.py:47-102: unsigned and two's-complement
    signed integers of 8 and 16 bits, the 16-bit ones stored big end first. */
module Codec {
  import opened Outcomes
  import opened ByteStore

  // ---------------------------------------------------------------------------
  // Euclidean division facts (Dafny's `/` and `%` agree with Python's `//` and
  // `%` for the positive divisors used here).

  /** Division by a positive divisor has exactly one quotient and remainder. */
  lemma DivModUnique(v: int, d: int, q: int, x: int)
    requires d > 0 && 0 <= x < d && v == d * q + x
    ensures v / d == q && v % d == x
  {
    var q0, x0 := v / d, v % d;
    assert d * q + x == d * q0 + x0;
    var t := q - q0;
    assert d * t == x0 - x by {
      assert d * t == d * q - d * q0;
    }
  }

  /** Adding a multiple of the divisor shifts the quotient and keeps the remainder. */
  lemma ShiftMultiple(v: int, d: int, k: int)
    requires d > 0
    ensures (v + d * k) / d == v / d + k
    ensures (v + d * k) % d == v % d
  {
    assert v == d * (v / d) + v % d;
    assert v + d * k == d * (v / d + k) + v % d;
    DivModUnique(v + d * k, d, v / d + k, v % d);
  }

  // ---------------------------------------------------------------------------
  // Reference definitions of the two wrap-arounds.

  /** The facts behind `SignedWrap`'s contract, stated on its defining expression. */
  lemma CenteredRemainder(v: int, modulus: int)
    requires modulus == 256 || modulus == 65536
    ensures (v - ((v + modulus / 2) % modulus - modulus / 2)) % modulus == 0
    ensures -modulus / 2 <= v < modulus / 2 ==> (v + modulus / 2) % modulus - modulus / 2 == v
  {
    var h := modulus / 2;
    assert v + h == modulus * ((v + h) / modulus) + (v + h) % modulus;
    DivModUnique(v - ((v + h) % modulus - h), modulus, (v + h) / modulus, 0);
    if -h <= v < h {
      DivModUnique(v + h, modulus, 0, v + h);
    }
  }

  /** The two's-complement reading of `v` in a field of `modulus` values: the
      one value in [-modulus/2, modulus/2) congruent to `v` modulo `modulus`. */
  function SignedWrap(v: int, modulus: int): (r: int)
    requires modulus == 256 || modulus == 65536
    ensures -modulus / 2 <= r < modulus / 2
    ensures (v - r) % modulus == 0
    ensures -modulus / 2 <= v < modulus / 2 ==> r == v
  {
    CenteredRemainder(v, modulus);
    (v + modulus / 2) % modulus - modulus / 2
  }

  /** Reading an unsigned field value `u` as signed: values in the upper half
      stand for `u - modulus`. */
  lemma SignedWrapOfUnsigned(u: int, modulus: int)
    requires modulus == 256 || modulus == 65536
    ensures 0 <= u < modulus ==> SignedWrap(u, modulus) == if u >= modulus / 2 then u - modulus else u
  {
    var h := modulus / 2;
    if u < 0 || u >= modulus {
    } else if u >= h {
      DivModUnique(u + h, modulus, 1, u - h);
    } else {
      DivModUnique(u + h, modulus, 0, u + h);
    }
  }

  /** The signed reading depends only on `v` modulo the field size. */
  lemma SignedWrapOfRemainder(v: int, modulus: int)
    requires modulus == 256 || modulus == 65536
    ensures SignedWrap(v % modulus, modulus) == SignedWrap(v, modulus)
  {
    var h := modulus / 2;
    ShiftMultiple(v % modulus + h, modulus, v / modulus);
    assert v % modulus + h + modulus * (v / modulus) == v + h;
  }

  /** The unsigned reading of `v` in a field of `modulus` values: the
      remainder is congruent to `v` and is `v` itself inside the field. */
  lemma RemainderIsRepresentative(v: int, modulus: int)
    requires modulus > 0
    ensures 0 <= v % modulus < modulus
    ensures (v - v % modulus) % modulus == 0
    ensures 0 <= v < modulus ==> v % modulus == v
  {
    DivModUnique(v - v % modulus, modulus, v / modulus, 0);
    if 0 <= v < modulus {
      DivModUnique(v, modulus, 0, v);
    }
  }

  /** A remainder modulo 256 is a byte congruent to the value. */
  lemma ByteOfRemainder(v: int)
    ensures IsByte(v % 256) && (v % 256 - v) % 256 == 0
  {
    DivModUnique(v % 256 - v, 256, -(v / 256), 0);
  }

  /** Splitting `v` into `(v / 256) % 256` and `v % 256` and joining the two
      bytes again gives `v` modulo 65536. */
  lemma SplitJoin16(v: int)
    ensures ((v / 256) % 256) * 256 + v % 256 == v % 65536
  {
    var q, lo := v / 256, v % 256;
    var q2, hi := q / 256, q % 256;
    assert v == 256 * q + lo;
    assert q == 256 * q2 + hi;
    assert v == 65536 * q2 + (hi * 256 + lo);
    DivModUnique(v, 65536, q2, hi * 256 + lo);
  }

  // ---------------------------------------------------------------------------
  // Unsigned 8 bits (conversions.py:47-54).

  /** Pass-through to `LoadByte`: `None` for a bad address. */
  function LoadUint8(m: Mem, address: int): (r: Ret<int>)
    ensures r.Null? <==> !InBounds(address)
    ensures !r.Raised?
    ensures InBounds(address) ==> r == Value(m[address])
    ensures r.Value? && AllBytes(m) ==> IsByte(r.value)
  {
    LoadByte(m, address)
  }

  /** Stores the byte congruent to `v` modulo 256; nothing else changes. */
  function StoreUint8(m: Mem, v: int, address: int): (r: Stored)
    ensures r.segFault <==> !InBounds(address)
    ensures r.segFault ==> r.mem == m
    ensures InBounds(address) ==> IsByte(r.mem[address]) && (r.mem[address] - v) % 256 == 0
    ensures forall i :: 0 <= i < Size && i != address ==> r.mem[i] == m[i]
  {
    ByteOfRemainder(v);
    StoreByte(m, v % 256, address)
  }

  // ---------------------------------------------------------------------------
  // Signed 8 bits (conversions.py:57-71).

  /** Two's-complement decoding of the cell; a bad address makes the
      comparison with 127 raise. */
  function LoadSint8(m: Mem, address: int): (r: Ret<int>)
    ensures r.Raised? <==> !InBounds(address)
    ensures !r.Null?
    ensures InBounds(address) && IsByte(m[address]) ==> r == Value(SignedWrap(m[address], 256))
    ensures r.Value? && AllBytes(m) ==> -128 <= r.value < 128
  {
    match LoadUint8(m, address)
    case Value(u) =>
      SignedWrapOfUnsigned(u, 256);
      Value(if u > 127 then u - 256 else u)
    case _ => Raised
  }

  /** Biasing a negative value by 256 before the unsigned store changes
      nothing: the signed store writes exactly the unsigned store's byte. */
  function StoreSint8(m: Mem, v: int, address: int): (r: Stored)
    ensures r == StoreUint8(m, v, address)
  {
    var u := if v < 0 then v + 256 else v;
    ShiftMultiple(v, 256, 1);
    StoreUint8(m, u, address)
  }

  // ---------------------------------------------------------------------------
  // Unsigned 16 bits, big end first (conversions.py:74-85).

  /** Joins the cells at `address` and `address + 1`, high byte first. Each
      byte access is bounds-checked on its own and a missing byte makes the
      arithmetic raise, so the last address cannot start a 16-bit value. */
  function LoadUint16(m: Mem, address: int): (r: Ret<int>)
    ensures r.Raised? <==> !(InBounds(address) && InBounds(address + 1))
    ensures !r.Null?
    ensures r.Value? ==> r.value == m[address] * 256 + m[address + 1]
    ensures r.Value? && AllBytes(m) ==> 0 <= r.value < 65536
  {
    var high := LoadByte(m, address);
    var low := LoadByte(m, address + 1);
    if high.Value? && low.Value? then Value(high.value * 256 + low.value) else Raised
  }

  /** Writes the high byte `(v / 256) % 256` to `address`, then the low byte
      `v % 256` to `address + 1`. The two writes are bounds-checked one by one,
      so a store that straddles an end of memory still performs the half that
      lands inside. */
  function StoreUint16(m: Mem, v: int, address: int): (r: Stored)
    ensures r.segFault <==> !(InBounds(address) && InBounds(address + 1))
    ensures forall i :: 0 <= i < Size && i != address && i != address + 1 ==> r.mem[i] == m[i]
    ensures InBounds(address) ==> r.mem[address] == (v / 256) % 256
    ensures InBounds(address + 1) ==> r.mem[address + 1] == v % 256
    ensures InBounds(address) && InBounds(address + 1) ==>
              IsByte(r.mem[address]) && IsByte(r.mem[address + 1])
              && r.mem[address] * 256 + r.mem[address + 1] == v % 65536
  {
    SplitJoin16(v);
    var high := (v / 256) % 256;
    var low := v % 256;
    var first := StoreByte(m, high, address);
    var second := StoreByte(first.mem, low, address + 1);
    Stored(second.mem, first.segFault || second.segFault)
  }

  // ---------------------------------------------------------------------------
  // Signed 16 bits (conversions.py:88-102).

  /** Two's-complement decoding of the 16-bit value at `address`. */
  function LoadSint16(m: Mem, address: int): (r: Ret<int>)
    ensures r.Raised? <==> !(InBounds(address) && InBounds(address + 1))
    ensures !r.Null?
    ensures LoadUint16(m, address).Value? && 0 <= LoadUint16(m, address).value < 65536 ==>
              r == Value(SignedWrap(LoadUint16(m, address).value, 65536))
    ensures r.Value? && AllBytes(m) ==> -32768 <= r.value < 32768
  {
    match LoadUint16(m, address)
    case Value(u) =>
      SignedWrapOfUnsigned(u, 65536);
      Value(if u > 32767 then u - 65536 else u)
    case _ => Raised
  }

  /** Biasing a negative value by 65536 before the unsigned store changes
      nothing: the signed store writes exactly the unsigned store's bytes. */
  function StoreSint16(m: Mem, v: int, address: int): (r: Stored)
    ensures r == StoreUint16(m, v, address)
  {
    var u := if v < 0 then v + 65536 else v;
    ShiftMultiple(v, 256, 256);
    ShiftMultiple(v / 256, 256, 1);
    StoreUint16(m, u, address)
  }

  // ---------------------------------------------------------------------------
  // Laws relating loads and stores.

  /** Storing `v` as uint8 and loading it back gives `v` modulo 256, and the
      store touches no other cell. */
  lemma Uint8RoundTrip(m: Mem, v: int, a: int)
    requires InBounds(a)
    ensures LoadUint8(StoreUint8(m, v, a).mem, a) == Value(v % 256)
    ensures forall b :: InBounds(b) && b != a ==> LoadByte(StoreUint8(m, v, a).mem, b) == LoadByte(m, b)
  {
  }

  /** Storing `v` as sint8 and loading it back gives the two's-complement wrap
      of `v`: `v` itself on [-128, 127]. */
  lemma Sint8RoundTrip(m: Mem, v: int, a: int)
    requires InBounds(a)
    ensures LoadSint8(StoreSint8(m, v, a).mem, a) == Value(SignedWrap(v, 256))
    ensures -128 <= v < 128 ==> LoadSint8(StoreSint8(m, v, a).mem, a) == Value(v)
  {
    SignedWrapOfRemainder(v, 256);
  }

  /** A cell written as uint8 and read as sint8 shows the signed reading of
      the same bits: 254 reads back as -2. */
  lemma Uint8ReadAsSint8(m: Mem, v: int, a: int)
    requires InBounds(a)
    ensures LoadSint8(StoreUint8(m, v, a).mem, a) == Value(SignedWrap(v, 256))
    ensures LoadSint8(StoreUint8(m, 254, a).mem, a) == Value(-2)
  {
    SignedWrapOfRemainder(v, 256);
    SignedWrapOfUnsigned(254, 256);
  }

  /** Storing `v` as uint16 and loading it back gives `v` modulo 65536; the
      two bytes can be read separately, high byte first. */
  lemma Uint16RoundTrip(m: Mem, v: int, a: int)
    requires InBounds(a) && InBounds(a + 1)
    ensures LoadUint16(StoreUint16(m, v, a).mem, a) == Value(v % 65536)
    ensures LoadByte(StoreUint16(m, v, a).mem, a) == Value((v / 256) % 256)
    ensures LoadByte(StoreUint16(m, v, a).mem, a + 1) == Value(v % 256)
  {
  }

  /** Storing `v` as sint16 and loading it back gives the two's-complement
      wrap of `v`: `v` itself on [-32768, 32767]. */
  lemma Sint16RoundTrip(m: Mem, v: int, a: int)
    requires InBounds(a) && InBounds(a + 1)
    ensures LoadSint16(StoreSint16(m, v, a).mem, a) == Value(SignedWrap(v, 65536))
    ensures -32768 <= v < 32768 ==> LoadSint16(StoreSint16(m, v, a).mem, a) == Value(v)
  {
    SignedWrapOfRemainder(v, 65536);
  }

  /** At the last address a 16-bit load fails, because its second byte is out
      of bounds, while a 16-bit store still writes its high byte there. */
  lemma LastAddress16(m: Mem, v: int)
    ensures LoadUint16(m, Size - 1).Raised? && LoadSint16(m, Size - 1).Raised?
    ensures StoreUint16(m, v, Size - 1) == Stored(m[Size - 1 := (v / 256) % 256], true)
    ensures StoreSint16(m, v, Size - 1) == Stored(m[Size - 1 := (v / 256) % 256], true)
  {
  }

  /** Just before the first address a 16-bit store is refused for its high
      byte but still writes its low byte into cell 0. */
  lemma BeforeFirstAddress16(m: Mem, v: int)
    ensures LoadUint16(m, -1).Raised?
    ensures StoreUint16(m, v, -1) == Stored(m[0 := v % 256], true)
  {
  }

  /** The typed stores keep every cell a byte. */
  lemma TypedStoresKeepBytes(m: Mem, v: int, a: int)
    ensures AllBytes(m) ==> AllBytes(StoreUint8(m, v, a).mem) && AllBytes(StoreSint8(m, v, a).mem)
    ensures AllBytes(m) ==> AllBytes(StoreUint16(m, v, a).mem) && AllBytes(StoreSint16(m, v, a).mem)
  {
  }
}
