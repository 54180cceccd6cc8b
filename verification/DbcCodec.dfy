/**
 * The DBC signal codec: placing signals in Intel and Motorola bit order, validating a message layout,
 * and packing and unpacking physical values.
 */
module DbcCodec {
  import opened Basics
  import opened Schemas
  import opened Bits

  datatype ByteOrder = Intel | Motorola

  datatype Signal = Signal(
    identifier: string,
    startBit: nat,
    bitLength: Positive,
    byteOrder: ByteOrder,
    signed: bool,
    factor: real,
    offset: real,
    minimum: Option<real>,
    maximum: Option<real>)

  datatype Message = Message(contractId: string, signals: seq<Signal>)
  {
    /** At least one signal, distinct identifiers, and no signal with a zero factor. */
    predicate Valid() {
      && |signals| > 0
      && (forall i, j :: 0 <= i < j < |signals| ==> signals[i].identifier != signals[j].identifier)
      && (forall i :: 0 <= i < |signals| ==> signals[i].factor != 0.0)
    }

    function Identifiers(): set<string> {
      set i | 0 <= i < |signals| :: signals[i].identifier
    }
  }

  // ---------- where a signal's bits are ----------

  /** Bits in transmission order: byte by byte, most significant bit first. Its own inverse. */
  function Sawtooth(p: nat): nat {
    8 * (p / 8) + 7 - p % 8
  }

  lemma SawtoothInvolution(p: nat)
    ensures Sawtooth(Sawtooth(p)) == p
  {
    assert Sawtooth(p) / 8 == p / 8 && Sawtooth(p) % 8 == 7 - p % 8;
  }

  /** Motorola positions are consecutive in transmission order. */
  lemma SawtoothStep(p: nat)
    ensures Sawtooth(Sawtooth(p) + 1) == if p % 8 == 0 then p + 15 else p - 1
  {
    var s := Sawtooth(p);
    assert s / 8 == p / 8 && s % 8 == 7 - p % 8;
    if p % 8 == 0 {
      assert (s + 1) / 8 == p / 8 + 1 && (s + 1) % 8 == 0;
    } else {
      assert (s + 1) / 8 == p / 8 && (s + 1) % 8 == 8 - p % 8;
    }
  }

  /** The payload position of the signal's i-th listed bit. */
  function PositionAt(s: Signal, i: nat): nat {
    match s.byteOrder
    case Intel => s.startBit + i
    case Motorola => Sawtooth(Sawtooth(s.startBit) + i)
  }

  /** The index i with PositionAt(s, i) == q; outside 0..bitLength when q is not the signal's. */
  function IndexOf(s: Signal, q: nat): int {
    match s.byteOrder
    case Intel => q - s.startBit
    case Motorola => Sawtooth(q) - Sawtooth(s.startBit)
  }

  predicate Owns(s: Signal, q: nat) {
    0 <= IndexOf(s, q) < s.bitLength
  }

  lemma IndexOfPosition(s: Signal, i: nat)
    ensures IndexOf(s, PositionAt(s, i)) == i
  {
    SawtoothInvolution(Sawtooth(s.startBit) + i);
  }

  lemma PositionOfIndex(s: Signal, q: nat)
    requires 0 <= IndexOf(s, q)
    ensures PositionAt(s, IndexOf(s, q)) == q
  {
    SawtoothInvolution(q);
  }

  /** A signal never lists a position twice, and the positions it lists are the ones it owns. */
  lemma PositionsDistinct(s: Signal, i: nat, j: nat)
    requires i < s.bitLength && j < s.bitLength
    ensures PositionAt(s, i) == PositionAt(s, j) <==> i == j
    ensures Owns(s, PositionAt(s, i))
  {
    IndexOfPosition(s, i);
    IndexOfPosition(s, j);
  }

  /** The weight of the i-th listed bit: Motorola lists the most significant bit first. */
  function RawIndex(s: Signal, i: nat): nat
    requires i < s.bitLength
  {
    if s.byteOrder == Intel then i else s.bitLength - 1 - i
  }

  method BitPositions(s: Signal) returns (positions: seq<nat>)
    ensures |positions| == s.bitLength
    ensures forall i :: 0 <= i < s.bitLength ==> positions[i] == PositionAt(s, i)
  {
    if s.byteOrder == Intel {
      return seq(s.bitLength, i requires 0 <= i => s.startBit + i);
    }
    SawtoothInvolution(s.startBit);
    positions := [s.startBit];
    for n := 1 to s.bitLength
      invariant |positions| == n
      invariant forall i :: 0 <= i < n ==> positions[i] == PositionAt(s, i)
    {
      var current := positions[n - 1];
      SawtoothInvolution(Sawtooth(s.startBit) + n - 1);
      SawtoothStep(current);
      positions := positions + [if current % 8 == 0 then current + 15 else current - 1];
    }
  }

  // ---------- layout validation ----------

  datatype LayoutError = ExceedsDlc(signal: string) | Overlap

  ghost predicate Fits(s: Signal, dlc: nat) {
    forall q: nat :: Owns(s, q) ==> q < 8 * dlc
  }

  ghost predicate Disjoint(s: Signal, t: Signal) {
    forall q: nat :: !(Owns(s, q) && Owns(t, q))
  }

  /** Every signal lies within the payload and no two signals share a bit. */
  ghost predicate Layout(signals: seq<Signal>, dlc: nat) {
    && (forall i :: 0 <= i < |signals| ==> Fits(signals[i], dlc))
    && (forall i, j :: 0 <= i < j < |signals| ==> Disjoint(signals[i], signals[j]))
  }

  lemma FitsAt(s: Signal, dlc: nat, i: nat)
    requires Fits(s, dlc) && i < s.bitLength
    ensures PositionAt(s, i) < 8 * dlc
  {
    PositionsDistinct(s, i, i);
  }

  function Largest(values: seq<nat>): (m: nat)
    requires |values| > 0
    ensures m in values
    ensures forall i :: 0 <= i < |values| ==> values[i] <= m
  {
    if |values| == 1 then values[0] else Max(values[0], Largest(values[1..]))
  }

  lemma FitsIffLargest(s: Signal, positions: seq<nat>, dlc: nat)
    requires |positions| == s.bitLength
    requires forall i :: 0 <= i < s.bitLength ==> positions[i] == PositionAt(s, i)
    ensures Fits(s, dlc) <==> Largest(positions) < 8 * dlc
    ensures forall q :: Owns(s, q) <==> q in positions
  {
    forall q: nat ensures Owns(s, q) <==> q in positions {
      if Owns(s, q) {
        PositionOfIndex(s, q);
        assert positions[IndexOf(s, q)] == q;
      }
      if q in positions {
        var i :| 0 <= i < |positions| && positions[i] == q;
        PositionsDistinct(s, i, i);
      }
    }
    if Fits(s, dlc) {
      assert Owns(s, Largest(positions));
    }
  }

  /** Some signal among the first n owns position q. */
  ghost predicate Occupied(signals: seq<Signal>, n: nat, q: nat)
    requires n <= |signals|
  {
    exists i :: 0 <= i < n && Owns(signals[i], q)
  }

  /** Signal k cannot be added to the layout of the signals before it. */
  ghost predicate Clashes(signals: seq<Signal>, k: nat)
    requires k < |signals|
  {
    exists i :: 0 <= i < k && !Disjoint(signals[i], signals[k])
  }

  lemma LayoutExtends(signals: seq<Signal>, k: nat, dlc: nat)
    requires k < |signals| && Layout(signals[..k], dlc)
    ensures Layout(signals[..k + 1], dlc) <==> Fits(signals[k], dlc) && !Clashes(signals, k)
  {
    var longer := signals[..k + 1];
    assert forall i :: 0 <= i < k ==> longer[i] == signals[..k][i];
    assert longer[k] == signals[k];
  }

  lemma LayoutPrefix(signals: seq<Signal>, k: nat, dlc: nat)
    requires k <= |signals| && Layout(signals, dlc)
    ensures Layout(signals[..k], dlc)
  {}

  lemma ClashesIffOccupied(signals: seq<Signal>, k: nat)
    requires k < |signals|
    ensures Clashes(signals, k) <==> exists q: nat :: Owns(signals[k], q) && Occupied(signals, k, q)
  {
    if Clashes(signals, k) {
      var i :| 0 <= i < k && !Disjoint(signals[i], signals[k]);
      var q: nat :| Owns(signals[i], q) && Owns(signals[k], q);
      assert Occupied(signals, k, q);
    }
    if q: nat :| Owns(signals[k], q) && Occupied(signals, k, q) {
      var i :| 0 <= i < k && Owns(signals[i], q);
      assert !Disjoint(signals[i], signals[k]);
    }
  }

  /** Accepts exactly the proper layouts; otherwise reports the first signal that breaks the layout. */
  method ValidateMessage(m: Message, dlc: nat) returns (r: Result<(), LayoutError>)
    ensures r.Ok? <==> Layout(m.signals, dlc)
    ensures r.Err? ==> exists k ::
      && 0 <= k < |m.signals| && Layout(m.signals[..k], dlc)
      && (if Fits(m.signals[k], dlc)
          then r.error == Overlap && Clashes(m.signals, k)
          else r.error == ExceedsDlc(m.signals[k].identifier))
  {
    hide Owns;
    hide Fits;
    hide Clashes;
    hide Layout;
    hide Occupied;
    hide PositionAt;
    var occupied: set<nat> := {};
    NothingPlaced(m.signals, dlc);
    for k := 0 to |m.signals|
      invariant Layout(m.signals[..k], dlc)
      invariant forall q: nat :: q in occupied <==> Occupied(m.signals, k, q)
    {
      var s := m.signals[k];
      var positions := BitPositions(s);
      FitsIffLargest(s, positions, dlc);
      LayoutExtends(m.signals, k, dlc);
      ClashesIffOccupied(m.signals, k);
      if Largest(positions) >= dlc * 8 {
        assert !Layout(m.signals, dlc) by { NoLayout(m.signals, k, dlc); }
        return Err(ExceedsDlc(s.identifier));
      }
      var mine := set q | q in positions;
      if occupied * mine != {} {
        var q :| q in occupied * mine;
        assert Owns(s, q) && Occupied(m.signals, k, q);
        assert !Layout(m.signals, dlc) by { NoLayout(m.signals, k, dlc); }
        return Err(Overlap);
      }
      forall q: nat | Owns(s, q) ensures !Occupied(m.signals, k, q) {
        assert q !in occupied * mine;
      }
      OccupiedMore(m.signals, k);
      occupied := occupied + mine;
    }
    assert m.signals[..|m.signals|] == m.signals;
    return Ok(());
  }

  lemma NothingPlaced(signals: seq<Signal>, dlc: nat)
    ensures Layout(signals[..0], dlc) && forall q: nat :: !Occupied(signals, 0, q)
  {}

  lemma OccupiedMore(signals: seq<Signal>, k: nat)
    requires k < |signals|
    ensures forall q: nat :: Occupied(signals, k + 1, q) <==> Occupied(signals, k, q) || Owns(signals[k], q)
  {
    hide Owns;
  }

  lemma NoLayout(signals: seq<Signal>, k: nat, dlc: nat)
    requires k < |signals|
    requires !Fits(signals[k], dlc) || Clashes(signals, k)
    ensures !Layout(signals, dlc)
  {}

  // ---------- one signal ----------

  function WriteUpTo(payload: seq<Byte>, s: Signal, encoded: nat, n: nat): (p: seq<Byte>)
    requires n <= s.bitLength && Fits(s, |payload|)
    ensures |p| == |payload|
  {
    if n == 0 then payload else
      var p := WriteUpTo(payload, s, encoded, n - 1);
      FitsAt(s, |payload|, n - 1);
      if Bit(encoded, RawIndex(s, n - 1)) then SetBitAt(p, PositionAt(s, n - 1)) else p
  }

  function Write(payload: seq<Byte>, s: Signal, raw: int): (p: seq<Byte>)
    requires Fits(s, |payload|)
    ensures |p| == |payload|
  {
    WriteUpTo(payload, s, Mask(raw, s.bitLength), s.bitLength)
  }

  /** The bit a signal holding `raw` puts at position q. */
  predicate SignalBit(s: Signal, raw: int, q: nat) {
    Owns(s, q) && Bit(Mask(raw, s.bitLength), RawIndex(s, IndexOf(s, q)))
  }

  lemma {:induction false} WriteUpToBits(payload: seq<Byte>, s: Signal, encoded: nat, n: nat, q: nat)
    requires n <= s.bitLength && Fits(s, |payload|) && q < 8 * |payload|
    ensures BitAt(WriteUpTo(payload, s, encoded, n), q) <==>
            BitAt(payload, q) || (0 <= IndexOf(s, q) < n && Bit(encoded, RawIndex(s, IndexOf(s, q))))
  {
    if n > 0 {
      WriteUpToBits(payload, s, encoded, n - 1, q);
      FitsAt(s, |payload|, n - 1);
      IndexOfPosition(s, n - 1);
      if IndexOf(s, q) == n - 1 {
        PositionOfIndex(s, q);
      }
      SetBitAtBits(WriteUpTo(payload, s, encoded, n - 1), PositionAt(s, n - 1), q);
    }
  }

  method WriteRaw(payload: array<Byte>, s: Signal, raw: int)
    requires Fits(s, payload.Length)
    modifies payload
    ensures payload[..] == Write(old(payload[..]), s, raw)
  {
    hide PositionAt;
    hide Bit;
    hide Mask;
    hide Fits;
    var encoded := Mask(raw, s.bitLength);
    var positions := BitPositions(s);
    for index := 0 to s.bitLength
      invariant payload[..] == WriteUpTo(old(payload[..]), s, encoded, index)
    {
      var position := positions[index];
      FitsAt(s, payload.Length, index);
      var rawIndex := if s.byteOrder == Intel then index else s.bitLength - 1 - index;
      if Bit(encoded, rawIndex) {
        payload[position / 8] := payload[position / 8] | ByteMask(position % 8);
      }
    }
  }

  function ReadUpTo(payload: seq<Byte>, s: Signal, n: nat): nat
    requires n <= s.bitLength && Fits(s, |payload|)
  {
    if n == 0 then 0 else
      var e := ReadUpTo(payload, s, n - 1);
      FitsAt(s, |payload|, n - 1);
      if BitAt(payload, PositionAt(s, n - 1)) then SetBit(e, RawIndex(s, n - 1)) else e
  }

  function Read(payload: seq<Byte>, s: Signal): int
    requires Fits(s, |payload|)
  {
    Unmask(ReadUpTo(payload, s, s.bitLength), s.signed, s.bitLength)
  }

  lemma {:induction false} ReadUpToBits(payload: seq<Byte>, s: Signal, n: nat, j: nat)
    requires n <= s.bitLength && Fits(s, |payload|) && j < s.bitLength
    requires PositionAt(s, RawIndex(s, j)) < 8 * |payload|
    ensures ReadUpTo(payload, s, n) < Pow2(s.bitLength)
    ensures Bit(ReadUpTo(payload, s, n), j) <==> RawIndex(s, j) < n && BitAt(payload, PositionAt(s, RawIndex(s, j)))
  {
    if n == 0 {
      ZeroBits(j);
    } else {
      ReadUpToBits(payload, s, n - 1, j);
      FitsAt(s, |payload|, n - 1);
      var e := ReadUpTo(payload, s, n - 1);
      SetBitBits(e, RawIndex(s, n - 1), j);
      SetBitBound(e, RawIndex(s, n - 1), s.bitLength);
    }
  }

  method ReadRaw(payload: seq<Byte>, s: Signal) returns (raw: int)
    requires Fits(s, |payload|)
    ensures raw == Read(payload, s)
  {
    hide PositionAt;
    hide SetBit;
    hide BitAt;
    hide Fits;
    var encoded: nat := 0;
    var positions := BitPositions(s);
    for index := 0 to s.bitLength
      invariant encoded == ReadUpTo(payload, s, index)
    {
      var position := positions[index];
      FitsAt(s, |payload|, index);
      var rawIndex := if s.byteOrder == Intel then index else s.bitLength - 1 - index;
      if BitAt(payload, position) {
        encoded := SetBit(encoded, rawIndex);
      }
    }
    if s.signed && Bit(encoded, s.bitLength - 1) {
      return encoded - Pow2(s.bitLength);
    }
    return encoded;
  }

  /** Reading depends only on the bits a signal owns: it recovers raw exactly from raw's bits. */
  lemma ReadRecovers(payload: seq<Byte>, s: Signal, raw: int)
    requires Fits(s, |payload|)
    requires RawMinimum(s.signed, s.bitLength) <= raw <= RawMaximum(s.signed, s.bitLength)
    requires forall q :: 0 <= q < 8 * |payload| && Owns(s, q) ==> (BitAt(payload, q) <==> SignalBit(s, raw, q))
    ensures Read(payload, s) == raw
  {
    ReadIsMask(payload, s, raw);
    UnmaskMask(raw, s.signed, s.bitLength);
  }

  lemma ReadIsMask(payload: seq<Byte>, s: Signal, raw: int)
    requires Fits(s, |payload|)
    requires forall q :: 0 <= q < 8 * |payload| && Owns(s, q) ==> (BitAt(payload, q) <==> SignalBit(s, raw, q))
    ensures ReadUpTo(payload, s, s.bitLength) == Mask(raw, s.bitLength)
  {
    var encoded, mask := ReadUpTo(payload, s, s.bitLength), Mask(raw, s.bitLength);
    MaskBound(raw, s.bitLength);
    ReadBit(payload, s, 0);
    forall j | 0 <= j < s.bitLength ensures Bit(encoded, j) <==> Bit(mask, j) {
      ReadBitMatches(payload, s, raw, j);
    }
    BitsDetermine(encoded, mask, s.bitLength);
  }

  lemma ReadBitMatches(payload: seq<Byte>, s: Signal, raw: int, j: nat)
    requires Fits(s, |payload|) && j < s.bitLength
    requires forall q :: 0 <= q < 8 * |payload| && Owns(s, q) ==> (BitAt(payload, q) <==> SignalBit(s, raw, q))
    ensures Bit(ReadUpTo(payload, s, s.bitLength), j) <==> Bit(Mask(raw, s.bitLength), j)
  {
    ReadBit(payload, s, j);
    SignalBitAt(s, raw, j);
  }

  lemma ReadBit(payload: seq<Byte>, s: Signal, j: nat)
    requires Fits(s, |payload|) && j < s.bitLength
    ensures PositionAt(s, RawIndex(s, j)) < 8 * |payload|
    ensures ReadUpTo(payload, s, s.bitLength) < Pow2(s.bitLength)
    ensures Bit(ReadUpTo(payload, s, s.bitLength), j) <==> BitAt(payload, PositionAt(s, RawIndex(s, j)))
  {
    FitsAt(s, |payload|, RawIndex(s, j));
    ReadUpToBits(payload, s, s.bitLength, j);
  }

  lemma SignalBitAt(s: Signal, raw: int, j: nat)
    requires j < s.bitLength
    ensures Owns(s, PositionAt(s, RawIndex(s, j)))
    ensures SignalBit(s, raw, PositionAt(s, RawIndex(s, j))) <==> Bit(Mask(raw, s.bitLength), j)
  {
    hide PositionAt;
    hide IndexOf;
    hide Bit;
    hide Mask;
    hide Pow2;
    IndexOfPosition(s, RawIndex(s, j));
    assert RawIndex(s, RawIndex(s, j)) == j;
  }

  /** What is read is in range, and writing it back reproduces the bits the signal owns. */
  lemma WriteRecovers(payload: seq<Byte>, s: Signal, q: nat)
    requires Fits(s, |payload|)
    requires q < 8 * |payload| && Owns(s, q)
    ensures RawMinimum(s.signed, s.bitLength) <= Read(payload, s) <= RawMaximum(s.signed, s.bitLength)
    ensures SignalBit(s, Read(payload, s), q) <==> BitAt(payload, q)
  {
    var width, encoded := s.bitLength, ReadUpTo(payload, s, s.bitLength);
    PositionOfIndex(s, q);
    var j := RawIndex(s, IndexOf(s, q));
    ReadUpToBits(payload, s, width, j);
    MaskUnmask(encoded, s.signed, width);
  }

  // ---------- physical values ----------

  datatype CodecError =
    | ValueSetMismatch
    | BelowMinimum(signal: string)
    | AboveMaximum(signal: string)
    | NotRepresentable(signal: string)
    | OutsideRawRange(signal: string)

  function ToPhysical(s: Signal, raw: int): real {
    raw as real * s.factor + s.offset
  }

  function Scaled(s: Signal, physical: real): real
    requires s.factor != 0.0
  {
    (physical - s.offset) / s.factor
  }

  function PhysicalToRaw(s: Signal, physical: real): Result<int, CodecError>
    requires s.factor != 0.0
  {
    if s.minimum.Some? && physical < s.minimum.value then Err(BelowMinimum(s.identifier))
    else if s.maximum.Some? && physical > s.maximum.value then Err(AboveMaximum(s.identifier))
    else
      var scaled := Scaled(s, physical);
      var raw := scaled.Floor;
      if scaled != raw as real then Err(NotRepresentable(s.identifier))
      else if raw < RawMinimum(s.signed, s.bitLength) || raw > RawMaximum(s.signed, s.bitLength)
      then Err(OutsideRawRange(s.identifier))
      else Ok(raw)
  }

  predicate WithinLimits(s: Signal, physical: real) {
    && (s.minimum.Some? ==> s.minimum.value <= physical)
    && (s.maximum.Some? ==> physical <= s.maximum.value)
  }

  lemma ScaledExact(s: Signal, physical: real, raw: int)
    requires s.factor != 0.0
    ensures Scaled(s, physical) == raw as real <==> physical == ToPhysical(s, raw)
  {
    ScalingExact(raw as real, s.factor, physical - s.offset);
  }

  lemma ScalingExact(x: real, factor: real, scaled: real)
    requires factor != 0.0
    ensures scaled / factor == x <==> scaled == x * factor
  {
    if scaled == x * factor {
      assert (x * factor) / factor == x;
    }
    if scaled / factor == x {
      assert (scaled / factor) * factor == scaled;
    }
  }

  lemma IntegralIffFloor(x: real, n: int)
    ensures x == n as real <==> x == x.Floor as real && x.Floor == n
  {}

  /**
   * A physical value encodes to raw exactly when it is within its limits and is offset + factor * raw for a raw in
   * range.
   */
  lemma PhysicalToRawExact(s: Signal, physical: real, raw: int)
    requires s.factor != 0.0
    ensures PhysicalToRaw(s, physical) == Ok(raw) <==>
            && WithinLimits(s, physical)
            && RawMinimum(s.signed, s.bitLength) <= raw <= RawMaximum(s.signed, s.bitLength)
            && physical == ToPhysical(s, raw)
  {
    hide Scaled;
    hide ToPhysical;
    hide RawMinimum;
    hide RawMaximum;
    ScaledExact(s, physical, raw);
    IntegralIffFloor(Scaled(s, physical), raw);
  }

  // ---------- messages ----------

  datatype Encoded = Encoded(payload: seq<Byte>, raws: map<string, int>, physicals: map<string, real>)

  datatype Decoded = Decoded(raws: map<string, int>, physicals: map<string, real>)

  function EncodeUpTo(m: Message, dlc: nat, values: map<string, real>, n: nat): (r: Result<Encoded, CodecError>)
    requires m.Valid() && Layout(m.signals, dlc) && values.Keys == m.Identifiers()
    requires n <= |m.signals|
    ensures r.Ok? ==> |r.value.payload| == dlc
  {
    if n == 0 then Ok(Encoded(Zeros(dlc), map[], map[])) else
      match EncodeUpTo(m, dlc, values, n - 1)
      case Err(e) => Err(e)
      case Ok(acc) =>
        var s := m.signals[n - 1];
        var id := s.identifier;
        assert id in m.Identifiers();
        match PhysicalToRaw(s, values[id])
        case Err(e) => Err(e)
        case Ok(raw) =>
          Ok(Encoded(Write(acc.payload, s, raw), acc.raws[id := raw], acc.physicals[id := values[id]]))
  }

  function Encode(m: Message, dlc: nat, values: map<string, real>): (r: Result<Encoded, CodecError>)
    requires m.Valid() && Layout(m.signals, dlc)
    ensures r.Ok? ==> |r.value.payload| == dlc
  {
    if values.Keys != m.Identifiers() then Err(ValueSetMismatch)
    else EncodeUpTo(m, dlc, values, |m.signals|)
  }

  lemma {:induction false} EncodeErrorStays(m: Message, dlc: nat, values: map<string, real>, n: nat, k: nat)
    requires m.Valid() && Layout(m.signals, dlc) && values.Keys == m.Identifiers()
    requires n <= k <= |m.signals|
    requires EncodeUpTo(m, dlc, values, n).Err?
    ensures EncodeUpTo(m, dlc, values, k) == EncodeUpTo(m, dlc, values, n)
    decreases k
  {
    if n < k {
      EncodeErrorStays(m, dlc, values, n, k - 1);
    }
  }

  method EncodeMessage(m: Message, dlc: nat, values: map<string, real>) returns (r: Result<Encoded, CodecError>)
    requires m.Valid() && Layout(m.signals, dlc)
    ensures r == Encode(m, dlc, values)
  {
    var declared := set i | 0 <= i < |m.signals| :: m.signals[i].identifier;
    if values.Keys != declared {
      return Err(ValueSetMismatch);
    }
    var payload := new Byte[dlc](_ => 0);
    var raws: map<string, int> := map[];
    var physicals: map<string, real> := map[];
    assert payload[..] == Zeros(dlc);
    for n := 0 to |m.signals|
      invariant EncodeUpTo(m, dlc, values, n) == Ok(Encoded(payload[..], raws, physicals))
    {
      var s := m.signals[n];
      assert s.identifier in m.Identifiers();
      var physical := values[s.identifier];
      var raw := PhysicalToRaw(s, physical);
      if raw.Err? {
        EncodeErrorStays(m, dlc, values, n + 1, |m.signals|);
        return Err(raw.error);
      }
      WriteRaw(payload, s, raw.value);
      raws := raws[s.identifier := raw.value];
      physicals := physicals[s.identifier := physical];
    }
    return Ok(Encoded(payload[..], raws, physicals));
  }

  function DecodeUpTo(m: Message, payload: seq<Byte>, n: nat): Decoded
    requires Layout(m.signals, |payload|) && n <= |m.signals|
  {
    if n == 0 then Decoded(map[], map[]) else
      var acc := DecodeUpTo(m, payload, n - 1);
      var s := m.signals[n - 1];
      var raw := Read(payload, s);
      Decoded(acc.raws[s.identifier := raw], acc.physicals[s.identifier := ToPhysical(s, raw)])
  }

  function Decode(m: Message, payload: seq<Byte>): Decoded
    requires Layout(m.signals, |payload|)
  {
    DecodeUpTo(m, payload, |m.signals|)
  }

  method DecodeMessage(m: Message, payload: seq<Byte>) returns (r: Decoded)
    requires Layout(m.signals, |payload|)
    ensures r == Decode(m, payload)
  {
    var raws: map<string, int> := map[];
    var physicals: map<string, real> := map[];
    for n := 0 to |m.signals|
      invariant DecodeUpTo(m, payload, n) == Decoded(raws, physicals)
    {
      var s := m.signals[n];
      var raw := ReadRaw(payload, s);
      var physical := ToPhysical(s, raw);
      raws := raws[s.identifier := raw];
      physicals := physicals[s.identifier := physical];
    }
    return Decoded(raws, physicals);
  }
}
