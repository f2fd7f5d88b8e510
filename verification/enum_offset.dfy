/** The ordinal shift of the generated enum accessors.

    The wrapper's `enum class` leaves out the schema enum's first enumerant
    (the `NOT_SET` sentinel), so wrapper enumerant `k` is schema ordinal
    `k + 1`. The getter reads the stored ordinal, converts it to `size_t`,
    subtracts one and converts to the wrapper enum; the setter converts the
    wrapper value to `size_t`, adds one and converts to the Cap'n Proto enum.
    The C++ conversions are written out: `size_t` arithmetic is modulo 2^64,
    a Cap'n Proto enum is stored as a 16-bit unsigned value, and the
    wrapper's `enum class` has the default underlying type `int` (32-bit two's
    complement, conversions modulo 2^32). */
module EnumOffset {
  import opened Results
  import opened Text
  import opened Resolver

  const SizeModulus: int := 0x1_0000_0000_0000_0000
  const Int32Modulus: int := 0x1_0000_0000
  const RawModulus: int := 0x1_0000

  /** A stored Cap'n Proto enum ordinal; 0 is the sentinel `NOT_SET`. */
  type Raw = x: int | 0 <= x < 0x1_0000

  /** A value of the wrapper enum's underlying `int`. */
  type Int32 = x: int | -0x8000_0000 <= x < 0x8000_0000

  /** `static_cast<size_t>(x)`. */
  function ToSize(x: int): (r: nat)
    ensures r < SizeModulus && (r - x) % SizeModulus == 0
  {
    x % SizeModulus
  }

  /** `static_cast<T>(x)` for the wrapper enum `T`: the two's-complement
      value of the low 32 bits. */
  function ToInt32(x: nat): (r: Int32)
    ensures (r - x) % Int32Modulus == 0
  {
    var low := x % Int32Modulus;
    if low < 0x8000_0000 then low else low - Int32Modulus
  }

  /** `static_cast<NKikimrCapnProto_::T>(x)`: the low 16 bits. */
  function ToRaw(x: nat): (r: Raw)
    ensures (r - x) % RawModulus == 0
  {
    x % RawModulus
  }

  /** The getter: `static_cast<T>(static_cast<size_t>(raw) - 1)`. */
  function ReadIndex(raw: Raw): Int32 {
    ToInt32((ToSize(raw) - 1) % SizeModulus)
  }

  /** The setter: `static_cast<NS::T>(static_cast<size_t>(value) + 1)`. */
  function WriteRaw(v: Int32): Raw {
    ToRaw((ToSize(v) + 1) % SizeModulus)
  }

  /** The presence test: the stored ordinal is not `NOT_SET`. */
  predicate IsSet(raw: Raw) {
    raw != 0
  }

  /** A stored ordinal other than the sentinel reads as one less. */
  lemma ReadSet(raw: Raw)
    requires IsSet(raw)
    ensures ReadIndex(raw) == raw - 1
  {
  }

  /** The sentinel reads as -1: `SIZE_MAX` truncated to `int`. */
  lemma ReadUnset()
    ensures ReadIndex(0) == -1
  {
    assert (ToSize(0) - 1) % SizeModulus == SizeModulus - 1;
  }

  /** A wrapper value `v` in `0 .. 0xFFFE` is stored as `v + 1`. */
  lemma WriteInRange(v: Int32)
    requires 0 <= v < 0xFFFF
    ensures WriteRaw(v) == v + 1
  {
  }

  /** Writing a wrapper value and reading it back gives the value, for
      every wrapper enumerant (a Cap'n Proto enum has at most 65536
      enumerants, the sentinel among them). */
  lemma WriteThenRead(v: Int32)
    requires 0 <= v < 0xFFFF
    ensures IsSet(WriteRaw(v))
    ensures ReadIndex(WriteRaw(v)) == v
  {
    WriteInRange(v);
    ReadSet(WriteRaw(v));
  }

  /** Reading a stored ordinal and writing it back restores it, unless it
      is the sentinel. */
  lemma ReadThenWrite(raw: Raw)
    requires IsSet(raw)
    ensures WriteRaw(ReadIndex(raw)) == raw
  {
    ReadSet(raw);
    WriteInRange(raw - 1);
  }

  /** Writing -1, the value the getter returns for the sentinel, stores the
      sentinel again; so over `-1 .. 0xFFFE` a written value is present
      exactly when it is not -1. */
  lemma WriteUnset(v: Int32)
    requires -1 <= v < 0xFFFF
    ensures IsSet(WriteRaw(v)) <==> v != -1
  {
    if v == -1 {
      assert ToSize(v) == SizeModulus - 1;
      assert (ToSize(v) + 1) % SizeModulus == 0;
    } else {
      WriteInRange(v);
    }
  }

  /** Wrapper enumerant `k` of a parsed enum carries the name of the schema
      enumerant the setter stores for it, and the getter maps that stored
      ordinal back to `k`. */
  lemma OrdinalsLineUp(es: seq<string>, k: nat)
    requires ParseEnum(es).Ok? && k < |ParseEnum(es).value|
    requires |es| <= RawModulus
    ensures WriteRaw(k) == k + 1
    ensures ParseEnum(es).value[k] == Cap(es[WriteRaw(k)])
    ensures ReadIndex(k + 1) == k
  {
    WriteInRange(k);
    ReadSet(k + 1);
  }
}
