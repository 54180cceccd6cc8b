/** What the DBC codec guarantees: exact acceptance, round trips, canonical payloads, order independence. */
module CodecTheorems {
  import opened Basics
  import opened Schemas
  import opened Bits
  import opened DbcCodec

  /** The message and its layout as an accepted catalogue holds them. */
  ghost predicate Accepted(m: Message, dlc: nat) {
    m.Valid() && Layout(m.signals, dlc)
  }

  /** A value the signal can carry exactly: within its limits and offset + factor * raw for a raw in range. */
  ghost predicate Representable(s: Signal, physical: real) {
    && WithinLimits(s, physical)
    && exists raw :: RawMinimum(s.signed, s.bitLength) <= raw <= RawMaximum(s.signed, s.bitLength)
                     && physical == ToPhysical(s, raw)
  }

  lemma RepresentableIff(s: Signal, physical: real)
    requires s.factor != 0.0
    ensures Representable(s, physical) <==> PhysicalToRaw(s, physical).Ok?
  {
    if Representable(s, physical) {
      var raw :| RawMinimum(s.signed, s.bitLength) <= raw <= RawMaximum(s.signed, s.bitLength)
          && physical == ToPhysical(s, raw);
      PhysicalToRawExact(s, physical, raw);
    }
    if PhysicalToRaw(s, physical).Ok? {
      PhysicalToRawExact(s, physical, PhysicalToRaw(s, physical).value);
    }
  }

  // ---------- acceptance ----------

  lemma {:induction false} EncodesPrefix(m: Message, dlc: nat, values: map<string, real>, n: nat)
    requires Accepted(m, dlc) && values.Keys == m.Identifiers() && n <= |m.signals|
    requires forall i :: 0 <= i < n ==>
               m.signals[i].identifier in values && PhysicalToRaw(m.signals[i], values[m.signals[i].identifier]).Ok?
    ensures EncodeUpTo(m, dlc, values, n).Ok?
  {
    if n > 0 {
      EncodesPrefix(m, dlc, values, n - 1);
    }
  }

  lemma IdentifierIn(m: Message, i: nat)
    requires i < |m.signals|
    ensures m.signals[i].identifier in m.Identifiers()
  {}

  /**
   * Encoding succeeds exactly when the values name the declared signals and each of them is
   * representable; otherwise it fails as the first signal that is not representable fails.
   */
  lemma EncodeAcceptsExactly(m: Message, dlc: nat, values: map<string, real>)
    requires Accepted(m, dlc)
    ensures Encode(m, dlc, values).Ok? <==>
            && values.Keys == m.Identifiers()
            && forall i :: 0 <= i < |m.signals| ==>
                 m.signals[i].identifier in values && Representable(m.signals[i], values[m.signals[i].identifier])
    ensures values.Keys == m.Identifiers() && Encode(m, dlc, values).Err? ==>
            exists k :: 0 <= k < |m.signals| && FailsAt(m, values, k, Encode(m, dlc, values).error)
  {
    if values.Keys == m.Identifiers() {
      forall i | 0 <= i < |m.signals|
        ensures m.signals[i].identifier in values
        ensures Representable(m.signals[i], values[m.signals[i].identifier]) <==>
                PhysicalToRaw(m.signals[i], values[m.signals[i].identifier]).Ok?
      {
        IdentifierIn(m, i);
        RepresentableIff(m.signals[i], values[m.signals[i].identifier]);
      }
      if Encode(m, dlc, values).Err? {
        FirstFailure(m, dlc, values, |m.signals|);
      } else {
        EncodedRaws(m, dlc, values, |m.signals|);
      }
      if forall i :: 0 <= i < |m.signals| ==> PhysicalToRaw(m.signals[i], values[m.signals[i].identifier]).Ok? {
        EncodesPrefix(m, dlc, values, |m.signals|);
      }
    }
  }

  /** Signals before k are representable, and signal k fails with e. */
  ghost predicate FailsAt(m: Message, values: map<string, real>, k: nat, e: CodecError)
    requires m.Valid() && k < |m.signals|
  {
    && (forall i :: 0 <= i <= k ==> m.signals[i].identifier in values)
    && (forall i :: 0 <= i < k ==> Representable(m.signals[i], values[m.signals[i].identifier]))
    && PhysicalToRaw(m.signals[k], values[m.signals[k].identifier]) == Err(e)
  }

  lemma {:induction false} FirstFailure(m: Message, dlc: nat, values: map<string, real>, n: nat)
    requires Accepted(m, dlc) && values.Keys == m.Identifiers() && n <= |m.signals|
    requires EncodeUpTo(m, dlc, values, n).Err?
    ensures exists k :: 0 <= k < n && FailsAt(m, values, k, EncodeUpTo(m, dlc, values, n).error)
  {
    if n > 0 {
      if EncodeUpTo(m, dlc, values, n - 1).Err? {
        FirstFailure(m, dlc, values, n - 1);
      } else {
        EncodedRaws(m, dlc, values, n - 1);
        forall i | 0 <= i < n ensures m.signals[i].identifier in values {
          IdentifierIn(m, i);
        }
        forall i | 0 <= i < n - 1 ensures Representable(m.signals[i], values[m.signals[i].identifier]) {
          RepresentableIff(m.signals[i], values[m.signals[i].identifier]);
        }
        assert FailsAt(m, values, n - 1, EncodeUpTo(m, dlc, values, n).error);
      }
    }
  }

  // ---------- contents of an encoded message ----------

  lemma {:induction false} EncodedRaws(m: Message, dlc: nat, values: map<string, real>, n: nat)
    requires Accepted(m, dlc) && values.Keys == m.Identifiers() && n <= |m.signals|
    requires EncodeUpTo(m, dlc, values, n).Ok?
    ensures var e := EncodeUpTo(m, dlc, values, n).value;
            RawsOf(m, values, e.raws, e.physicals, n)
  {
    hide PhysicalToRaw;
    hide Write;
    hide Layout;
    hide RawsOf;
    if n == 0 {
      NoRaws(m, values);
    } else {
      EncodedRaws(m, dlc, values, n - 1);
      IdentifierIn(m, n - 1);
      var before, s := EncodeUpTo(m, dlc, values, n - 1).value, m.signals[n - 1];
      MoreRaws(m, values, before.raws, before.physicals, n, PhysicalToRaw(s, values[s.identifier]).value);
    }
  }

  /** The maps hold exactly the raw and physical values of the first n signals. */
  ghost predicate RawsOf(m: Message, values: map<string, real>, raws: map<string, int>, physicals: map<string, real>,
                         n: nat)
    requires m.Valid() && n <= |m.signals|
  {
    && raws.Keys == physicals.Keys == (set i | 0 <= i < n :: m.signals[i].identifier)
    && forall i :: 0 <= i < n ==>
         && var id := m.signals[i].identifier;
         && id in values && id in raws && id in physicals
         && PhysicalToRaw(m.signals[i], values[id]) == Ok(raws[id])
         && physicals[id] == values[id]
  }

  lemma NoRaws(m: Message, values: map<string, real>)
    requires m.Valid()
    ensures RawsOf(m, values, map[], map[], 0)
  {}

  lemma MoreRaws(m: Message, values: map<string, real>, raws: map<string, int>, physicals: map<string, real>, n: nat,
                 raw: int)
    requires m.Valid() && 0 < n <= |m.signals|
    requires RawsOf(m, values, raws, physicals, n - 1)
    requires m.signals[n - 1].identifier in values
    requires PhysicalToRaw(m.signals[n - 1], values[m.signals[n - 1].identifier]) == Ok(raw)
    ensures var id := m.signals[n - 1].identifier;
            RawsOf(m, values, raws[id := raw], physicals[id := values[id]], n)
  {}

  /** Some signal among the first n puts a one at position q. */
  ghost predicate Carries(signals: seq<Signal>, raws: map<string, int>, n: nat, q: nat)
    requires n <= |signals|
  {
    exists i :: 0 <= i < n && signals[i].identifier in raws && SignalBit(signals[i], raws[signals[i].identifier], q)
  }

  lemma {:induction false} EncodedBits(m: Message, dlc: nat, values: map<string, real>, n: nat, q: nat)
    requires Accepted(m, dlc) && values.Keys == m.Identifiers() && n <= |m.signals| && q < 8 * dlc
    requires EncodeUpTo(m, dlc, values, n).Ok?
    ensures var e := EncodeUpTo(m, dlc, values, n).value;
            BitAt(e.payload, q) <==> Carries(m.signals, e.raws, n, q)
  {
    if n == 0 {
      ZerosBits(dlc, q);
    } else {
      var s := m.signals[n - 1];
      var before, after := EncodeUpTo(m, dlc, values, n - 1).value, EncodeUpTo(m, dlc, values, n).value;
      EncodedBits(m, dlc, values, n - 1, q);
      EncodedRaws(m, dlc, values, n - 1);
      WriteUpToBits(before.payload, s, Mask(after.raws[s.identifier], s.bitLength), s.bitLength, q);
      assert BitAt(after.payload, q) <==> BitAt(before.payload, q) || SignalBit(s, after.raws[s.identifier], q);
      CarriesExtends(m, before.raws, after.raws[s.identifier], n, q);
    }
  }

  lemma CarriesExtends(m: Message, raws: map<string, int>, raw: int, n: nat, q: nat)
    requires m.Valid() && 0 < n <= |m.signals|
    requires forall i :: 0 <= i < n - 1 ==> m.signals[i].identifier in raws
    ensures var s := m.signals[n - 1];
            Carries(m.signals, raws[s.identifier := raw], n, q) <==>
            Carries(m.signals, raws, n - 1, q) || SignalBit(s, raw, q)
  {}

  /** With disjoint signals, a position owned by a signal carries that signal's bit and no other. */
  lemma OwnedBit(m: Message, dlc: nat, raws: map<string, int>, k: nat, q: nat)
    requires Accepted(m, dlc) && k < |m.signals| && m.signals[k].identifier in raws
    requires Owns(m.signals[k], q)
    ensures Carries(m.signals, raws, |m.signals|, q) <==> SignalBit(m.signals[k], raws[m.signals[k].identifier], q)
  {}

  // ---------- decoding ----------

  lemma {:induction false} DecodedKeys(m: Message, payload: seq<Byte>, n: nat)
    requires m.Valid() && Layout(m.signals, |payload|) && n <= |m.signals|
    ensures var d := DecodeUpTo(m, payload, n);
            d.raws.Keys == d.physicals.Keys == (set i | 0 <= i < n :: m.signals[i].identifier)
  {
    if n > 0 {
      DecodedKeys(m, payload, n - 1);
    }
  }

  lemma {:induction false} DecodedAt(m: Message, payload: seq<Byte>, n: nat, i: nat)
    requires m.Valid() && Layout(m.signals, |payload|) && i < n <= |m.signals|
    ensures var d := DecodeUpTo(m, payload, n);
            var id := m.signals[i].identifier;
            && id in d.raws && id in d.physicals
            && d.raws[id] == Read(payload, m.signals[i])
            && d.physicals[id] == ToPhysical(m.signals[i], d.raws[id])
    decreases n
  {
    if i < n - 1 {
      DecodedAt(m, payload, n - 1, i);
      assert m.signals[n - 1].identifier != m.signals[i].identifier;
    }
  }

  lemma EncodedSignalReadsBack(m: Message, dlc: nat, values: map<string, real>, i: nat)
    requires Accepted(m, dlc)
    requires Encode(m, dlc, values).Ok? && i < |m.signals|
    ensures var e := Encode(m, dlc, values).value;
            var s := m.signals[i];
            && s.identifier in e.raws && s.identifier in values
            && Read(e.payload, s) == e.raws[s.identifier]
            && ToPhysical(s, e.raws[s.identifier]) == values[s.identifier]
  {
    var e, s := Encode(m, dlc, values).value, m.signals[i];
    EncodedRaws(m, dlc, values, |m.signals|);
    var raw := e.raws[s.identifier];
    forall q | 0 <= q < 8 * dlc && Owns(s, q) ensures BitAt(e.payload, q) <==> SignalBit(s, raw, q) {
      EncodedBits(m, dlc, values, |m.signals|, q);
      OwnedBit(m, dlc, e.raws, i, q);
    }
    PhysicalToRawExact(s, values[s.identifier], raw);
    ReadRecovers(e.payload, s, raw);
  }

  lemma ReadsBack(m: Message, dlc: nat, values: map<string, real>, id: string)
    requires Accepted(m, dlc)
    requires Encode(m, dlc, values).Ok? && id in m.Identifiers()
    ensures var e := Encode(m, dlc, values).value;
            var d := Decode(m, e.payload);
            && id in e.raws && id in d.raws && id in d.physicals && id in values && id in e.physicals
            && d.raws[id] == e.raws[id] && d.physicals[id] == values[id] == e.physicals[id]
  {
    var i :| 0 <= i < |m.signals| && m.signals[i].identifier == id;
    DecodedAt(m, Encode(m, dlc, values).value.payload, |m.signals|, i);
    EncodedSignalReadsBack(m, dlc, values, i);
    EncodedRaws(m, dlc, values, |m.signals|);
  }

  lemma ResultKeys(m: Message, dlc: nat, values: map<string, real>)
    requires Accepted(m, dlc)
    requires Encode(m, dlc, values).Ok?
    ensures var e := Encode(m, dlc, values).value;
            var d := Decode(m, e.payload);
            m.Identifiers() == values.Keys == e.raws.Keys == e.physicals.Keys == d.raws.Keys == d.physicals.Keys
  {
    EncodedRaws(m, dlc, values, |m.signals|);
    DecodedKeys(m, Encode(m, dlc, values).value.payload, |m.signals|);
  }

  lemma MapsEqual<V>(a: map<string, V>, b: map<string, V>)
    requires a.Keys == b.Keys
    requires forall id :: id in a ==> a[id] == b[id]
    ensures a == b
  {}

  /** Round trip: decoding an encoded message gives back every raw and every physical value. */
  lemma DecodeEncode(m: Message, dlc: nat, values: map<string, real>)
    requires Accepted(m, dlc)
    requires Encode(m, dlc, values).Ok?
    ensures var e := Encode(m, dlc, values).value;
            Decode(m, e.payload) == Decoded(e.raws, values) && e.physicals == values
  {
    var e := Encode(m, dlc, values).value;
    var d := Decode(m, e.payload);
    ResultKeys(m, dlc, values);
    forall id | id in values.Keys ensures d.raws[id] == e.raws[id] && d.physicals[id] == values[id] == e.physicals[id] {
      ReadsBack(m, dlc, values, id);
    }
    MapsEqual(d.raws, e.raws);
    MapsEqual(d.physicals, values);
    MapsEqual(e.physicals, values);
  }

  /** Some signal of the message owns q. */
  ghost predicate OwnedBySome(m: Message, q: nat) {
    exists i :: 0 <= i < |m.signals| && Owns(m.signals[i], q)
  }

  ghost predicate DecodesWithinLimits(m: Message, payload: seq<Byte>)
    requires m.Valid() && Layout(m.signals, |payload|)
  {
    forall i :: 0 <= i < |m.signals| ==>
             WithinLimits(m.signals[i], ToPhysical(m.signals[i], Read(payload, m.signals[i])))
  }

  /** A decoded value is representable exactly when it is within the declared limits. */
  lemma DecodedRepresentable(m: Message, payload: seq<Byte>, i: nat)
    requires m.Valid() && Layout(m.signals, |payload|) && i < |m.signals|
    ensures var s := m.signals[i];
            var raw := Read(payload, s);
            Representable(s, ToPhysical(s, raw)) <==> WithinLimits(s, ToPhysical(s, raw))
    ensures var s := m.signals[i];
            var raw := Read(payload, s);
            WithinLimits(s, ToPhysical(s, raw)) ==> PhysicalToRaw(s, ToPhysical(s, raw)) == Ok(raw)
  {
    var s := m.signals[i];
    PositionsDistinct(s, 0, 0);
    FitsAt(s, |payload|, 0);
    WriteRecovers(payload, s, PositionAt(s, 0));
    PhysicalToRawExact(s, ToPhysical(s, Read(payload, s)), Read(payload, s));
  }

  lemma ReencodeAccepts(m: Message, payload: seq<Byte>)
    requires Accepted(m, |payload|)
    ensures Encode(m, |payload|, Decode(m, payload).physicals).Ok? <==> DecodesWithinLimits(m, payload)
  {
    var d := Decode(m, payload);
    DecodedKeys(m, payload, |m.signals|);
    EncodeAcceptsExactly(m, |payload|, d.physicals);
    forall i | 0 <= i < |m.signals|
      ensures var s := m.signals[i];
              && s.identifier in d.physicals
              && (Representable(s, d.physicals[s.identifier]) <==> WithinLimits(s, ToPhysical(s, Read(payload, s))))
    {
      DecodedAt(m, payload, |m.signals|, i);
      DecodedRepresentable(m, payload, i);
    }
  }

  lemma ReencodeBit(m: Message, payload: seq<Byte>, q: nat)
    requires Accepted(m, |payload|) && q < 8 * |payload|
    requires Encode(m, |payload|, Decode(m, payload).physicals).Ok?
    ensures BitAt(Encode(m, |payload|, Decode(m, payload).physicals).value.payload, q) <==>
            BitAt(payload, q) && OwnedBySome(m, q)
  {
    var n, values := |m.signals|, Decode(m, payload).physicals;
    var e := Encode(m, |payload|, values).value;
    SameRaws(m, payload);
    EncodedBits(m, |payload|, values, n, q);
    if i :| 0 <= i < n && Owns(m.signals[i], q) {
      DecodedAt(m, payload, n, i);
      OwnedBit(m, |payload|, e.raws, i, q);
      WriteRecovers(payload, m.signals[i], q);
    }
  }

  /**
   * Canonical payloads: re-encoding what any payload decodes to succeeds exactly when the decoded values
   * respect the declared limits, and then yields that payload with every bit no signal owns cleared.
   */
  lemma EncodeDecode(m: Message, payload: seq<Byte>)
    requires Accepted(m, |payload|)
    ensures var d := Decode(m, payload);
            var r := Encode(m, |payload|, d.physicals);
            && (r.Ok? <==> DecodesWithinLimits(m, payload))
            && (r.Ok? ==> r.value.raws == d.raws)
            && (r.Ok? ==> forall q :: 0 <= q < 8 * |payload| ==>
                  (BitAt(r.value.payload, q) <==> BitAt(payload, q) && OwnedBySome(m, q)))
  {
    ReencodeAccepts(m, payload);
    if Encode(m, |payload|, Decode(m, payload).physicals).Ok? {
      SameRaws(m, payload);
      forall q | 0 <= q < 8 * |payload|
        ensures BitAt(Encode(m, |payload|, Decode(m, payload).physicals).value.payload, q) <==>
                BitAt(payload, q) && OwnedBySome(m, q)
      {
        ReencodeBit(m, payload, q);
      }
    }
  }

  lemma SameRaws(m: Message, payload: seq<Byte>)
    requires Accepted(m, |payload|)
    requires Encode(m, |payload|, Decode(m, payload).physicals).Ok?
    ensures Encode(m, |payload|, Decode(m, payload).physicals).value.raws == Decode(m, payload).raws
  {
    var n, d := |m.signals|, Decode(m, payload);
    var e := Encode(m, |payload|, d.physicals).value;
    DecodedKeys(m, payload, n);
    EncodedRaws(m, |payload|, d.physicals, n);
    forall i | 0 <= i < n ensures e.raws[m.signals[i].identifier] == d.raws[m.signals[i].identifier] {
      var s := m.signals[i];
      DecodedAt(m, payload, n, i);
      DecodedRepresentable(m, payload, i);
      PhysicalToRawExact(s, d.physicals[s.identifier], e.raws[s.identifier]);
    }
    assert e.raws.Keys == d.raws.Keys;
  }

  /** Encoding is idempotent: re-encoding a decoded encoding changes nothing. */
  lemma EncodeIdempotent(m: Message, dlc: nat, values: map<string, real>)
    requires Accepted(m, dlc)
    requires Encode(m, dlc, values).Ok?
    ensures var e := Encode(m, dlc, values).value;
            Encode(m, dlc, Decode(m, e.payload).physicals) == Ok(e)
  {
    DecodeEncode(m, dlc, values);
  }

  // ---------- order independence ----------

  ghost predicate SameSignals(m: Message, w: Message) {
    forall s :: s in m.signals <==> s in w.signals
  }

  lemma SameIdentifiers(m: Message, w: Message)
    requires SameSignals(m, w)
    ensures m.Identifiers() == w.Identifiers()
  {
    forall id | id in m.Identifiers() ensures id in w.Identifiers() {
      var i :| 0 <= i < |m.signals| && m.signals[i].identifier == id;
      assert m.signals[i] in w.signals;
    }
    forall id | id in w.Identifiers() ensures id in m.Identifiers() {
      var i :| 0 <= i < |w.signals| && w.signals[i].identifier == id;
      assert w.signals[i] in m.signals;
    }
  }

  /** Layout validation does not depend on the declaration order either. */
  lemma LayoutIgnoresSignalOrder(m: Message, w: Message, dlc: nat)
    requires m.Valid() && w.Valid() && SameSignals(m, w)
    ensures Layout(m.signals, dlc) ==> Layout(w.signals, dlc)
  {
    if Layout(m.signals, dlc) {
      forall j | 0 <= j < |w.signals| ensures Fits(w.signals[j], dlc) {
        assert w.signals[j] in m.signals;
      }
      forall i, j | 0 <= i < j < |w.signals| ensures Disjoint(w.signals[i], w.signals[j]) {
        assert w.signals[i] in m.signals && w.signals[j] in m.signals;
        var a :| 0 <= a < |m.signals| && m.signals[a] == w.signals[i];
        var b :| 0 <= b < |m.signals| && m.signals[b] == w.signals[j];
        assert Disjoint(m.signals[Min(a, b)], m.signals[Max(a, b)]);
      }
    }
  }

  lemma RawOf(m: Message, dlc: nat, values: map<string, real>, s: Signal)
    requires Accepted(m, dlc) && s in m.signals && Encode(m, dlc, values).Ok?
    ensures var raws := Encode(m, dlc, values).value.raws;
            && raws.Keys == m.Identifiers() && s.identifier in raws && s.identifier in values
            && PhysicalToRaw(s, values[s.identifier]) == Ok(raws[s.identifier])
  {
    EncodedRaws(m, dlc, values, |m.signals|);
    var i :| 0 <= i < |m.signals| && m.signals[i] == s;
  }

  lemma RawsAgree(m: Message, w: Message, dlc: nat, values: map<string, real>)
    requires Accepted(m, dlc) && Accepted(w, dlc) && SameSignals(m, w)
    requires Encode(m, dlc, values).Ok? && Encode(w, dlc, values).Ok?
    ensures Encode(m, dlc, values).value.raws == Encode(w, dlc, values).value.raws
  {
    var a, b := Encode(m, dlc, values).value.raws, Encode(w, dlc, values).value.raws;
    SameIdentifiers(m, w);
    RawOf(m, dlc, values, m.signals[0]);
    assert m.signals[0] in w.signals;
    RawOf(w, dlc, values, m.signals[0]);
    forall id | id in m.Identifiers() ensures a[id] == b[id] {
      var i :| 0 <= i < |m.signals| && m.signals[i].identifier == id;
      assert m.signals[i] in w.signals;
      RawOf(m, dlc, values, m.signals[i]);
      RawOf(w, dlc, values, m.signals[i]);
    }
  }

  lemma CarriesAgrees(m: Message, w: Message, raws: map<string, int>, q: nat)
    requires SameSignals(m, w)
    ensures Carries(m.signals, raws, |m.signals|, q) ==> Carries(w.signals, raws, |w.signals|, q)
  {
    if i :| 0 <= i < |m.signals| && m.signals[i].identifier in raws
            && SignalBit(m.signals[i], raws[m.signals[i].identifier], q) {
      assert m.signals[i] in w.signals;
      var j :| 0 <= j < |w.signals| && w.signals[j] == m.signals[i];
    }
  }

  /** The order in which a message declares its signals changes neither acceptance nor any encoded result. */
  lemma EncodeIgnoresSignalOrder(m: Message, w: Message, dlc: nat, values: map<string, real>)
    requires Accepted(m, dlc) && w.Valid() && SameSignals(m, w)
    ensures Accepted(w, dlc)
    ensures Encode(m, dlc, values).Ok? <==> Encode(w, dlc, values).Ok?
    ensures Encode(m, dlc, values).Ok? ==> Encode(m, dlc, values) == Encode(w, dlc, values)
  {
    LayoutIgnoresSignalOrder(m, w, dlc);
    SameIdentifiers(m, w);
    AcceptanceAgrees(m, w, dlc, values);
    AcceptanceAgrees(w, m, dlc, values);
    if Encode(m, dlc, values).Ok? {
      var a, b := Encode(m, dlc, values).value, Encode(w, dlc, values).value;
      RawsAgree(m, w, dlc, values);
      DecodeEncode(m, dlc, values);
      DecodeEncode(w, dlc, values);
      forall q | 0 <= q < 8 * dlc ensures BitAt(a.payload, q) <==> BitAt(b.payload, q) {
        EncodedBits(m, dlc, values, |m.signals|, q);
        EncodedBits(w, dlc, values, |w.signals|, q);
        CarriesAgrees(m, w, a.raws, q);
        CarriesAgrees(w, m, a.raws, q);
      }
      PayloadDetermined(a.payload, b.payload);
    }
  }

  lemma AcceptanceAgrees(m: Message, w: Message, dlc: nat, values: map<string, real>)
    requires Accepted(m, dlc) && Accepted(w, dlc) && SameSignals(m, w)
    ensures Encode(m, dlc, values).Ok? ==> Encode(w, dlc, values).Ok?
  {
    if Encode(m, dlc, values).Ok? {
      SameIdentifiers(m, w);
      EncodeAcceptsExactly(m, dlc, values);
      forall j | 0 <= j < |w.signals|
        ensures w.signals[j].identifier in values && Representable(w.signals[j], values[w.signals[j].identifier])
      {
        assert w.signals[j] in m.signals;
        var i :| 0 <= i < |m.signals| && m.signals[i] == w.signals[j];
        assert m.signals[i].identifier in values && Representable(m.signals[i], values[m.signals[i].identifier]);
      }
      EncodeAcceptsExactly(w, dlc, values);
    }
  }
}
