/**
 * What the codec means in numbers: which bit of a raw value lies at which bit of which byte, and the
 * byte-aligned fields as little-endian and big-endian numbers.
 */
module FieldValues {
  import opened Basics
  import opened Schemas
  import opened Bits
  import opened DbcCodec
  import opened CodecTheorems

  // ---------- bits as digits ----------

  /** Binary digit i of n. */
  predicate Digit(n: nat, i: nat) {
    n / Pow2(i) % 2 == 1
  }

  /** Binary digit j of the value's two's complement of the given width. */
  predicate RawDigit(raw: int, width: nat, j: nat) {
    Digit(raw % Pow2(width), j)
  }

  /** Binary digit q % 8 of byte q / 8. */
  predicate PayloadDigit(payload: seq<Byte>, q: nat)
    requires q / 8 < |payload|
  {
    Digit(payload[q / 8] as nat, q % 8)
  }

  lemma HalvedAgain(n: nat, i: nat)
    ensures n / (2 * Pow2(i)) == n / 2 / Pow2(i)
  {
    var p := Pow2(i);
    var q, h := n / (2 * p), n / 2;
    var r := n % (2 * p);
    assert n == 2 * (q * p) + r;
    assert h == q * p + r / 2;
    DivOf(h, q, p, r / 2);
  }

  lemma DivOf(a: int, q: int, p: Positive, rest: int)
    requires a == q * p + rest && 0 <= rest < p
    ensures a / p == q
  {
    ModOf(a, q, p, rest);
    assert (a / p) * p == q * p;
    ProductOrder(a / p, q, p);
    ProductOrder(q, a / p, p);
  }

  lemma {:induction false} BitIsDigit(n: nat, i: nat)
    ensures Bit(n, i) <==> Digit(n, i)
  {
    if i > 0 {
      BitIsDigit(n / 2, i - 1);
      HalvedAgain(n, i - 1);
    }
  }

  lemma {:induction false} ByteBitIsBit(b: Byte, k: nat)
    requires k < 8
    ensures ByteBit(b, k) <==> Bit(b as nat, k)
  {
    Shifted(b);
    if k > 0 {
      ByteBitShifted(b, k);
      ByteBitIsBit(b >> 1, k - 1);
    }
  }

  lemma Shifted(b: Byte)
    ensures (b >> 1) as nat == b as nat / 2
    ensures b & 1 != 0 <==> b as nat % 2 == 1
  {}

  lemma ByteBitShifted(b: Byte, k: nat)
    requires 0 < k < 8
    ensures ByteBit(b, k) <==> ByteBit(b >> 1, k - 1)
  {}

  lemma ByteBitIsDigit(b: Byte, k: nat)
    requires k < 8
    ensures ByteBit(b, k) <==> Digit(b as nat, k)
  {
    ByteBitIsBit(b, k);
    BitIsDigit(b as nat, k);
    hide Bit;
    hide ByteBit;
    hide Digit;
  }

  lemma BitAtIsDigit(payload: seq<Byte>, q: nat)
    requires q < 8 * |payload|
    ensures BitAt(payload, q) <==> PayloadDigit(payload, q)
  {
    ByteBitIsDigit(payload[q / 8], q % 8);
  }

  // ---------- where a field's digits are ----------

  /** The i-th position of a Motorola signal: down a byte, then on to the top of the next one. */
  function Walk(start: nat, i: nat): nat {
    if i == 0 then start else
      var p := Walk(start, i - 1);
      if p % 8 == 0 then p + 15 else p - 1
  }

  lemma {:induction false} WalkIsPosition(s: Signal, i: nat)
    requires s.byteOrder.Motorola?
    ensures Walk(s.startBit, i) == PositionAt(s, i)
  {
    SawtoothInvolution(s.startBit);
    if i > 0 {
      WalkIsPosition(s, i - 1);
      SawtoothInvolution(Sawtooth(s.startBit) + i - 1);
      SawtoothStep(PositionAt(s, i - 1));
    }
  }

  /** The payload carries the field's value: an Intel field least, a Motorola field most significant digit first. */
  ghost predicate HoldsField(payload: seq<Byte>, s: Signal, raw: int) {
    forall i: nat :: i < s.bitLength ==> HoldsDigit(payload, s, raw, i)
  }

  ghost predicate HoldsDigit(payload: seq<Byte>, s: Signal, raw: int, i: nat)
    requires i < s.bitLength
  {
    match s.byteOrder
    case Intel =>
      && (s.startBit + i) / 8 < |payload|
      && (PayloadDigit(payload, s.startBit + i) <==> RawDigit(raw, s.bitLength, i))
    case Motorola =>
      && Walk(s.startBit, i) / 8 < |payload|
      && (PayloadDigit(payload, Walk(s.startBit, i)) <==> RawDigit(raw, s.bitLength, s.bitLength - 1 - i))
  }

  /** The place of a listed digit in the payload and in the raw value, in one formula for both byte orders. */
  lemma DigitHeld(payload: seq<Byte>, s: Signal, raw: int, i: nat)
    requires Fits(s, |payload|) && i < s.bitLength
    requires forall q :: 0 <= q < 8 * |payload| && Owns(s, q) ==> (BitAt(payload, q) <==> SignalBit(s, raw, q))
    ensures HoldsDigit(payload, s, raw, i)
  {
    hide Sawtooth;
    hide Pow2;
    var q := PositionAt(s, i);
    FitsAt(s, |payload|, i);
    PositionsDistinct(s, i, i);
    IndexOfPosition(s, i);
    BitAtIsDigit(payload, q);
    BitIsDigit(Mask(raw, s.bitLength), RawIndex(s, i));
    if s.byteOrder.Motorola? {
      WalkIsPosition(s, i);
    }
    hide Bit;
    hide Digit;
    hide BitAt;
    hide Walk;
  }

  /** Reading any payload: the value in range whose digits the payload holds. */
  lemma ReadHolds(payload: seq<Byte>, s: Signal)
    requires Fits(s, |payload|)
    ensures RawMinimum(s.signed, s.bitLength) <= Read(payload, s) <= RawMaximum(s.signed, s.bitLength)
    ensures HoldsField(payload, s, Read(payload, s))
  {
    hide Owns;
    hide Fits;
    hide HoldsDigit;
    FitsAt(s, |payload|, 0);
    PositionsDistinct(s, 0, 0);
    WriteRecovers(payload, s, PositionAt(s, 0));
    forall q | 0 <= q < 8 * |payload| && Owns(s, q)
      ensures BitAt(payload, q) <==> SignalBit(s, Read(payload, s), q)
    {
      WriteRecovers(payload, s, q);
    }
    forall i: nat | i < s.bitLength ensures HoldsDigit(payload, s, Read(payload, s), i) {
      DigitHeld(payload, s, Read(payload, s), i);
    }
  }

  /** Only one value in range has the digits that a payload holds. */
  lemma HeldOnce(payload: seq<Byte>, s: Signal, a: int, b: int)
    requires HoldsField(payload, s, a) && HoldsField(payload, s, b)
    requires RawMinimum(s.signed, s.bitLength) <= a <= RawMaximum(s.signed, s.bitLength)
    requires RawMinimum(s.signed, s.bitLength) <= b <= RawMaximum(s.signed, s.bitLength)
    ensures a == b
  {
    hide Digit;
    hide Pow2;
    var width: nat := s.bitLength;
    MaskBound(a, width);
    MaskBound(b, width);
    forall j | 0 <= j < width ensures Bit(Mask(a, width), j) <==> Bit(Mask(b, width), j) {
      var i: nat := if s.byteOrder.Intel? then j else width - 1 - j;
      assert HoldsDigit(payload, s, a, i) && HoldsDigit(payload, s, b, i);
      BitIsDigit(Mask(a, width), j);
      BitIsDigit(Mask(b, width), j);
    }
    BitsDetermine(Mask(a, width), Mask(b, width), width);
    UnmaskMask(a, s.signed, width);
    UnmaskMask(b, s.signed, width);
  }

  /** The value read is the one value in range whose digits the payload holds. */
  lemma ReadExactly(payload: seq<Byte>, s: Signal, raw: int)
    requires Fits(s, |payload|)
    ensures Read(payload, s) == raw <==>
            HoldsField(payload, s, raw) && RawMinimum(s.signed, s.bitLength) <= raw <= RawMaximum(s.signed, s.bitLength)
  {
    hide HoldsField;
    hide RawMinimum;
    hide RawMaximum;
    ReadHolds(payload, s);
    if HoldsField(payload, s, raw) && RawMinimum(s.signed, s.bitLength) <= raw <= RawMaximum(s.signed, s.bitLength) {
      HeldOnce(payload, s, Read(payload, s), raw);
    }
  }

  // ---------- messages ----------

  /**
   * An encoded message holds, for every signal, the digits of the raw number with
   * physical value = offset + factor * raw.
   */
  lemma EncodedFields(m: Message, dlc: nat, values: map<string, real>, k: nat)
    requires Accepted(m, dlc) && Encode(m, dlc, values).Ok? && k < |m.signals|
    ensures var e, s := Encode(m, dlc, values).value, m.signals[k];
            && s.identifier in e.raws && s.identifier in values
            && HoldsField(e.payload, s, e.raws[s.identifier])
            && values[s.identifier] == s.offset + s.factor * e.raws[s.identifier] as real
  {
    hide HoldsField;
    EncodedSignalReadsBack(m, dlc, values, k);
    ReadHolds(Encode(m, dlc, values).value.payload, m.signals[k]);
  }

  /** Decoding any payload reports the value it holds for every signal, and offset + factor * raw. */
  lemma DecodedFields(m: Message, payload: seq<Byte>, k: nat)
    requires Accepted(m, |payload|) && k < |m.signals|
    ensures var d, s := Decode(m, payload), m.signals[k];
            && s.identifier in d.raws && s.identifier in d.physicals
            && HoldsField(payload, s, d.raws[s.identifier])
            && RawMinimum(s.signed, s.bitLength) <= d.raws[s.identifier] <= RawMaximum(s.signed, s.bitLength)
            && d.physicals[s.identifier] == s.offset + s.factor * d.raws[s.identifier] as real
  {
    hide HoldsField;
    hide RawMinimum;
    hide RawMaximum;
    hide Decode;
    hide Read;
    hide Layout;
    DecodedSignal(m, payload, k);
    ReadHolds(payload, m.signals[k]);
    hide Fits;
  }

  lemma DecodedSignal(m: Message, payload: seq<Byte>, k: nat)
    requires Accepted(m, |payload|) && k < |m.signals|
    ensures Fits(m.signals[k], |payload|)
    ensures var d, s := Decode(m, payload), m.signals[k];
            && s.identifier in d.raws && s.identifier in d.physicals
            && d.raws[s.identifier] == Read(payload, s)
            && d.physicals[s.identifier] == s.offset + s.factor * d.raws[s.identifier] as real
  {
    hide Read;
    hide Fits;
    DecodedAt(m, payload, |m.signals|, k);
    hide DecodeUpTo;
  }

  // ---------- refused values ----------

  ghost predicate Means(s: Signal, raw: int, physical: real) {
    physical == s.offset + s.factor * raw as real
  }

  predicate InRawRange(s: Signal, raw: int) {
    RawMinimum(s.signed, s.bitLength) <= raw <= RawMaximum(s.signed, s.bitLength)
  }

  /**
   * Which error a value gets: first its limits, then that no integer stands for it, then that the integer
   * standing for it does not fit the field.
   */
  lemma ValueErrorsExact(s: Signal, physical: real)
    requires s.factor != 0.0
    ensures var r := PhysicalToRaw(s, physical);
            var low := s.minimum.Some? && physical < s.minimum.value;
            var high := s.maximum.Some? && s.maximum.value < physical;
            && (r == Err(BelowMinimum(s.identifier)) <==> low)
            && (r == Err(AboveMaximum(s.identifier)) <==> high && !low)
            && (r == Err(NotRepresentable(s.identifier)) <==> !low && !high && forall raw :: !Means(s, raw, physical))
            && (r == Err(OutsideRawRange(s.identifier)) <==>
                !low && !high && exists raw :: Means(s, raw, physical) && !InRawRange(s, raw))
  {
    hide RawMinimum;
    hide RawMaximum;
    var scaled := Scaled(s, physical);
    forall raw: int ensures Means(s, raw, physical) <==> scaled == scaled.Floor as real && scaled.Floor == raw {
      MeansScaled(s, raw, physical);
      IntegralIffFloor(scaled, raw);
    }
    hide Means;
    hide Scaled;
    assert Means(s, scaled.Floor, physical) <==> scaled == scaled.Floor as real;
  }

  lemma MeansScaled(s: Signal, raw: int, physical: real)
    requires s.factor != 0.0
    ensures Means(s, raw, physical) <==> Scaled(s, physical) == raw as real
  {
    ScaledExact(s, physical, raw);
    hide Scaled;
  }

  // ---------- whole bytes ----------

  function LittleEndian(bytes: seq<Byte>): nat {
    if bytes == [] then 0 else bytes[0] as nat + 256 * LittleEndian(bytes[1..])
  }

  function BigEndian(bytes: seq<Byte>): nat {
    if bytes == [] then 0 else 256 * BigEndian(bytes[..|bytes| - 1]) + bytes[|bytes| - 1] as nat
  }

  /** The low digits of low + 2^width * high are those of low, the others those of high. */
  lemma {:induction false} BitsOfSum(low: nat, high: nat, width: nat, j: nat)
    requires low < Pow2(width)
    ensures Bit(low + Pow2(width) * high, j) <==> if j < width then Bit(low, j) else Bit(high, j - width)
  {
    if width > 0 {
      var p := Pow2(width - 1) * high;
      var n := low + Pow2(width) * high;
      assert Pow2(width) * high == 2 * p;
      assert n / 2 == low / 2 + p && n % 2 == low % 2;
      if j > 0 {
        BitsOfSum(low / 2, high, width - 1, j - 1);
      }
    }
  }

  lemma ByteInSum(b: Byte, high: nat, j: nat)
    ensures Bit(b as nat + 256 * high, j) <==> if j < 8 then ByteBit(b, j) else Bit(high, j - 8)
  {
    assert Pow2(8) == 256;
    BitsOfSum(b as nat, high, 8, j);
    if j < 8 {
      BitIsDigit(b as nat, j);
      ByteBitIsDigit(b, j);
    }
  }

  lemma {:induction false} LittleEndianBits(bytes: seq<Byte>, j: nat)
    requires j < 8 * |bytes|
    ensures Bit(LittleEndian(bytes), j) <==> ByteBit(bytes[j / 8], j % 8)
  {
    hide Bit;
    hide ByteBit;
    ByteInSum(bytes[0], LittleEndian(bytes[1..]), j);
    if j >= 8 {
      LittleEndianBits(bytes[1..], j - 8);
    }
  }

  lemma {:induction false} BigEndianBits(bytes: seq<Byte>, j: nat)
    requires j < 8 * |bytes|
    ensures Bit(BigEndian(bytes), j) <==> ByteBit(bytes[|bytes| - 1 - j / 8], j % 8)
  {
    hide Bit;
    hide ByteBit;
    var last := |bytes| - 1;
    ByteInSum(bytes[last], BigEndian(bytes[..last]), j);
    if j >= 8 {
      BigEndianBits(bytes[..last], j - 8);
    }
  }

  lemma {:induction false} EndianBounds(bytes: seq<Byte>)
    ensures LittleEndian(bytes) < Pow2(8 * |bytes|) && BigEndian(bytes) < Pow2(8 * |bytes|)
  {
    if bytes != [] {
      EndianBounds(bytes[1..]);
      EndianBounds(bytes[..|bytes| - 1]);
      EightMore(8 * (|bytes| - 1));
    } else {
      assert Pow2(0) == 1;
    }
    hide Pow2;
  }

  lemma EightMore(n: nat)
    ensures Pow2(n + 8) == 256 * Pow2(n)
  {
    assert Pow2(n + 8) == 2 * Pow2(n + 7) && Pow2(n + 7) == 2 * Pow2(n + 6) && Pow2(n + 6) == 2 * Pow2(n + 5);
    assert Pow2(n + 5) == 2 * Pow2(n + 4) && Pow2(n + 4) == 2 * Pow2(n + 3) && Pow2(n + 3) == 2 * Pow2(n + 2);
    assert Pow2(n + 2) == 2 * Pow2(n + 1) && Pow2(n + 1) == 2 * Pow2(n);
  }

  /** The bytes of a field that starts and ends on byte boundaries, as an unsigned number. */
  function FieldNumber(payload: seq<Byte>, s: Signal): nat
    requires s.startBit / 8 + s.bitLength / 8 <= |payload|
  {
    var bytes := payload[s.startBit / 8..s.startBit / 8 + s.bitLength / 8];
    match s.byteOrder
    case Intel => LittleEndian(bytes)
    case Motorola => BigEndian(bytes)
  }

  /** The field covers whole bytes: Intel fields start at a byte's lowest, Motorola fields at its highest bit. */
  predicate WholeBytes(s: Signal) {
    s.bitLength % 8 == 0 && s.startBit % 8 == (if s.byteOrder.Intel? then 0 else 7)
  }

  lemma WholeBytePosition(s: Signal, i: nat)
    requires WholeBytes(s)
    ensures PositionAt(s, i) == if s.byteOrder.Intel? then s.startBit + i else 8 * (s.startBit / 8 + i / 8) + 7 - i % 8
  {}

  /** A field of whole bytes reads as their little-endian or big-endian number, in two's complement when signed. */
  lemma WholeByteField(payload: seq<Byte>, s: Signal)
    requires Fits(s, |payload|) && WholeBytes(s)
    ensures s.startBit / 8 + s.bitLength / 8 <= |payload|
    ensures var n := FieldNumber(payload, s);
            Read(payload, s) == if s.signed && Pow2(s.bitLength - 1) <= n then n - Pow2(s.bitLength) else n
  {
    hide Bit;
    hide Pow2;
    hide ReadUpTo;
    hide Fits;
    hide PositionAt;
    hide LittleEndian;
    hide BigEndian;
    WholeBytesFit(payload, s);
    var width: nat, n, encoded := s.bitLength, FieldNumber(payload, s), ReadUpTo(payload, s, s.bitLength);
    var bytes := payload[s.startBit / 8..s.startBit / 8 + width / 8];
    EndianBounds(bytes);
    assert 8 * |bytes| == width;
    ReadBit(payload, s, 0);
    forall j: nat | j < width ensures Bit(encoded, j) <==> Bit(n, j) {
      WholeByteBit(payload, s, bytes, j);
    }
    BitsDetermine(encoded, n, width);
    TopBit(n, width);
  }

  lemma WholeBytesFit(payload: seq<Byte>, s: Signal)
    requires Fits(s, |payload|) && WholeBytes(s)
    ensures s.startBit / 8 + s.bitLength / 8 <= |payload|
  {
    FitsAt(s, |payload|, s.bitLength - 1);
    WholeBytePosition(s, s.bitLength - 1);
    hide Fits;
    hide PositionAt;
  }

  lemma WholeByteBit(payload: seq<Byte>, s: Signal, bytes: seq<Byte>, j: nat)
    requires Fits(s, |payload|) && WholeBytes(s) && j < s.bitLength
    requires s.startBit / 8 + s.bitLength / 8 <= |payload|
    requires bytes == payload[s.startBit / 8..s.startBit / 8 + s.bitLength / 8]
    ensures Bit(ReadUpTo(payload, s, s.bitLength), j) <==> Bit(FieldNumber(payload, s), j)
  {
    hide Bit;
    hide ByteBit;
    hide Fits;
    hide ReadUpTo;
    hide Sawtooth;
    hide PositionAt;
    hide LittleEndian;
    hide BigEndian;
    ReadBit(payload, s, j);
    var i: nat := RawIndex(s, j);
    var q, first: nat := PositionAt(s, i), s.startBit / 8;
    WholeBytePosition(s, i);
    if s.byteOrder.Intel? {
      LittleEndianBits(bytes, j);
      PlaceInBytes(first, j / 8, j % 8);
      assert q == 8 * (first + j / 8) + j % 8;
    } else {
      BigEndianBits(bytes, j);
      MirrorPlace(s.bitLength, j);
      PlaceInBytes(first, i / 8, j % 8);
      assert q == 8 * (first + i / 8) + j % 8;
    }
  }

  lemma PlaceInBytes(first: nat, byte: nat, bit: nat)
    requires bit < 8
    ensures (8 * (first + byte) + bit) / 8 == first + byte && (8 * (first + byte) + bit) % 8 == bit
  {}

  lemma MirrorPlace(width: nat, j: nat)
    requires width % 8 == 0 && j < width
    ensures var i := width - 1 - j;
            i / 8 == width / 8 - 1 - j / 8 && 7 - i % 8 == j % 8
  {}
}
