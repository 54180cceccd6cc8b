/** The stuffing-free timing model of classic CAN and CAN FD frames. */
module CanTiming {
  import opened Basics
  import opened Schemas

  /** Nominal bitrate, and the CAN FD data bitrate when the network has one. */
  datatype Rates = Rates(nominal: Positive, data: Option<Positive>)

  datatype Timing = Timing(nominalBits: nat, dataBits: nat, nominalPhase: nat, dataPhase: nat)
  {
    function BitCount(): nat { nominalBits + dataBits }

    function Duration(): nat { nominalPhase + dataPhase }
  }

  function DurationUs(bits: nat, kbps: Positive): nat {
    CeilDiv(bits * 1000, kbps)
  }

  /** The bitrate of the data phase: switched only for a contract that asks for it. */
  function DataRate(c: FrameContract, r: Rates): Positive {
    if c.bitrateSwitch && r.data.Some? then r.data.value else r.nominal
  }

  function FrameTiming(c: FrameContract, r: Rates): Timing {
    match c.protocol
    case Classic =>
      var bits := (if c.format.Standard? then 47 else 67) + 8 * c.dlc;
      Timing(bits, 0, DurationUs(bits, r.nominal), 0)
    case Fd =>
      var nominal := if c.format.Standard? then 32 else 52;
      var data := 8 * c.dlc + (if c.dlc <= 16 then 17 else 21);
      Timing(nominal, data, DurationUs(nominal, r.nominal), DurationUs(data, DataRate(c, r)))
  }

  function Duration(c: FrameContract, r: Rates): nat {
    FrameTiming(c, r).Duration()
  }

  /** us is the least number of microseconds in which a bus of that bitrate carries the bits. */
  predicate Takes(us: nat, bits: nat, kbps: Positive) {
    (us - 1) * kbps < bits * 1000 <= us * kbps
  }

  lemma DurationExactly(bits: nat, kbps: Positive, us: nat)
    ensures us == DurationUs(bits, kbps) <==> Takes(us, bits, kbps)
  {
    LeastMultiple(bits * 1000, kbps, us);
  }

  lemma LeastMultiple(a: nat, b: Positive, q: nat)
    ensures q == CeilDiv(a, b) <==> (q - 1) * b < a <= q * b
  {
    var least: int := CeilDiv(a, b);
    CeilDivBounds(a, b);
    Distribute(least, -1, b);
    if (q - 1) * b < a <= q * b {
      ProductOrder(least - 1, q, b);
      ProductOrder(q - 1, least, b);
    }
    hide CeilDiv;
  }

  /**
   * Bits of a data frame besides its data, in the order of section 3.2.1 of the Bosch CAN Specification 2.0 Part B:
   * start of frame; identifier and the bits that follow it; data length code; CRC and its delimiter; acknowledge
   * slot and delimiter; end of frame; and the intermission.
   */
  function DataFrameOverhead(format: FrameFormat): nat {
    match format
    case Standard => 1 + (11 + 1 + 1 + 1) + 4 + (15 + 1) + (1 + 1) + 7 + 3
    case Extended => 1 + (11 + 1 + 1 + 18 + 1 + 1 + 1) + 4 + (15 + 1) + (1 + 1) + 7 + 3
  }

  /** The bits of the frame's phases, and that each phase takes the least time in which its bus carries them. */
  predicate Timed(c: FrameContract, r: Rates, t: Timing) {
    match c.protocol
    case Classic =>
      && t.nominalBits == DataFrameOverhead(c.format) + 8 * c.dlc && t.dataBits == 0
      && Takes(t.nominalPhase, t.nominalBits, r.nominal) && t.dataPhase == 0
    case Fd =>
      && t.nominalBits == (if c.format == Standard then 32 else 52)
      && t.dataBits == (if c.dlc > 16 then 21 else 17) + 8 * c.dlc
      && Takes(t.nominalPhase, t.nominalBits, r.nominal)
      && (c.bitrateSwitch && r.data.Some? ==> Takes(t.dataPhase, t.dataBits, r.data.value))
      && (!c.bitrateSwitch || r.data.None? ==> Takes(t.dataPhase, t.dataBits, r.nominal))
  }

  lemma FrameTimingExactly(c: FrameContract, r: Rates, t: Timing)
    ensures t == FrameTiming(c, r) <==> Timed(c, r, t)
  {
    hide DurationUs;
    hide Takes;
    DurationExactly(t.nominalBits, r.nominal, t.nominalPhase);
    DurationExactly(t.dataBits, DataRate(c, r), t.dataPhase);
  }

  lemma DurationUsPositive(bits: Positive, kbps: Positive)
    ensures DurationUs(bits, kbps) > 0
  {}

  lemma DurationPositive(c: FrameContract, r: Rates)
    ensures Duration(c, r) > 0
  {
    hide DurationUs;
    DurationUsPositive(FrameTiming(c, r).nominalBits, r.nominal);
  }

  lemma DurationUsMonotone(m: nat, n: nat, slow: Positive, fast: Positive)
    requires m <= n && slow <= fast
    ensures DurationUs(m, fast) <= DurationUs(n, slow)
  {
    var q := DurationUs(n, slow);
    CeilDivIsLeast(n * 1000, slow, q);
    assert q * slow <= q * fast;
    CeilDivIsLeast(m * 1000, fast, q);
  }

  /**
   * Rounding the two phases of an FD frame separately costs at most 1 us over rounding the whole
   * frame, and a data bitrate that is at least the nominal one never lengthens the frame.
   */
  lemma FdPhaseRounding(c: FrameContract, r: Rates)
    requires c.protocol.Fd?
    requires r.data.Some? ==> r.nominal <= r.data.value
    ensures Duration(c, r) <= DurationUs(FrameTiming(c, r).BitCount(), r.nominal) + 1
    ensures Duration(c, r) <= Duration(c.(bitrateSwitch := false), r)
    ensures !c.bitrateSwitch ==> DurationUs(FrameTiming(c, r).BitCount(), r.nominal) <= Duration(c, r)
  {
    var t := FrameTiming(c, r);
    CeilDivSplit(t.nominalBits * 1000, t.dataBits * 1000, r.nominal);
    DurationUsMonotone(t.dataBits, t.dataBits, r.nominal, DataRate(c, r));
  }

  /** More payload never shortens a frame. */
  lemma DurationGrowsWithDlc(c: FrameContract, longer: nat, r: Rates)
    requires c.dlc <= longer
    ensures Duration(c, r) <= Duration(c.(dlc := longer), r)
  {
    var t, u := FrameTiming(c, r), FrameTiming(c.(dlc := longer), r);
    DurationUsMonotone(t.nominalBits, u.nominalBits, r.nominal, r.nominal);
    DurationUsMonotone(t.dataBits, u.dataBits, DataRate(c, r), DataRate(c, r));
  }
}
