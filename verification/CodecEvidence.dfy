/** What an encode or decode command records, told by the catalogue, the contract and the command. */
module CodecEvidence {
  import opened Basics
  import opened Schemas
  import opened Store
  import opened Bits
  import opened DbcCodec
  import opened CodecTheorems
  import opened FieldValues
  import opened DbcService

  /** The catalogue's message for the contract, and the contract's payload length. */
  ghost predicate Describes(l: Ledger, contractId: string, m: Message, dlc: nat) {
    && Find(l.rows, Catalogues, "").Some? && Find(l.rows, Catalogues, "").value.CatalogueRow?
    && MessageFor(Find(l.rows, Catalogues, "").value.messages, contractId) == Some(m)
    && FindContract(l.net.contracts, contractId).Some?
    && FindContract(l.net.contracts, contractId).value.dlc == dlc
  }

  /** The payload holds the signal's raw value, and its physical value is offset + factor * raw. */
  ghost predicate TellsSignal(payload: seq<Byte>, s: Signal, raws: map<string, int>, physicals: map<string, real>) {
    && s.identifier in raws && s.identifier in physicals
    && HoldsField(payload, s, raws[s.identifier]) && InRawRange(s, raws[s.identifier])
    && Means(s, raws[s.identifier], physicals[s.identifier])
  }

  ghost predicate TellsSignals(m: Message, payload: seq<Byte>, raws: map<string, int>, physicals: map<string, real>) {
    && raws.Keys == physicals.Keys == m.Identifiers()
    && forall k :: 0 <= k < |m.signals| ==> TellsSignal(payload, m.signals[k], raws, physicals)
  }

  /** Every digit of the payload that belongs to no signal is zero. */
  ghost predicate ZeroElsewhere(m: Message, payload: seq<Byte>) {
    forall q: nat :: q / 8 < |payload| && !OwnedBySome(m, q) ==> !PayloadDigit(payload, q)
  }

  lemma EncodedTells(m: Message, dlc: nat, values: map<string, real>)
    requires Accepted(m, dlc) && Encode(m, dlc, values).Ok?
    ensures var e := Encode(m, dlc, values).value;
            && |e.payload| == dlc && e.physicals == values
            && TellsSignals(m, e.payload, e.raws, values) && ZeroElsewhere(m, e.payload)
  {
    hide HoldsField;
    hide RawMinimum;
    hide RawMaximum;
    hide Decode;
    hide Encode;
    hide Read;
    hide Layout;
    DecodeEncode(m, dlc, values);
    ResultKeys(m, dlc, values);
    var e := Encode(m, dlc, values).value;
    forall k | 0 <= k < |m.signals| ensures TellsSignal(e.payload, m.signals[k], e.raws, values) {
      EncodedFields(m, dlc, values, k);
      DecodedFields(m, e.payload, k);
    }
    forall q: nat | q / 8 < |e.payload| && !OwnedBySome(m, q) ensures !PayloadDigit(e.payload, q) {
      EncodedElsewhere(m, dlc, values, q);
    }
  }

  lemma EncodedElsewhere(m: Message, dlc: nat, values: map<string, real>, q: nat)
    requires Accepted(m, dlc) && Encode(m, dlc, values).Ok? && q < 8 * dlc && !OwnedBySome(m, q)
    ensures !PayloadDigit(Encode(m, dlc, values).value.payload, q)
  {
    EncodedBits(m, dlc, values, |m.signals|, q);
    BitAtIsDigit(Encode(m, dlc, values).value.payload, q);
    hide PayloadDigit;
    hide BitAt;
    hide EncodeUpTo;
    hide Bit;
  }

  lemma DecodedTells(m: Message, payload: seq<Byte>)
    requires Accepted(m, |payload|)
    ensures var d := Decode(m, payload);
            TellsSignals(m, payload, d.raws, d.physicals)
  {
    DecodedKeys(m, payload, |m.signals|);
    hide HoldsField;
    hide RawMinimum;
    hide RawMaximum;
    forall k | 0 <= k < |m.signals|
      ensures TellsSignal(payload, m.signals[k], Decode(m, payload).raws, Decode(m, payload).physicals)
    {
      DecodedFields(m, payload, k);
    }
    hide DecodeUpTo;
    hide TellsSignal;
  }

  /** What the row of a codec command tells of its payload. */
  ghost predicate TellsCodec(m: Message, dlc: nat, c: CodecRequest, row: Row) {
    && row.CodecRow? && row.commandId == c.commandId && row.codec == c
    && |row.payload| == dlc && TellsSignals(m, row.payload, row.raws, row.physicals)
    && (c.EncodeRequest? ==> row.physicals == c.values && ZeroElsewhere(m, row.payload))
    && (c.DecodeRequest? ==> row.payload == c.payload)
  }

  /**
   * A codec command records a payload of the contract's length and, for every signal of the catalogue's message, the
   * raw value it holds and the physical value this stands for: the requested values when encoding, with all other
   * bits zero, and the given payload when decoding.
   */
  lemma CodecRecords(l: Ledger, c: CodecRequest)
    requires CatalogueSound(l) && ExecuteCodec(l, c).outcome.Done?
    ensures exists m, dlc :: Describes(l, c.contractId, m, dlc) && TellsCodec(m, dlc, c, ExecuteCodec(l, c).outcome.row)
  {
    hide Find;
    hide CatalogueSound;
    hide Encode;
    hide Decode;
    hide TellsSignals;
    hide ZeroElsewhere;
    SoundMessageFor(l, c.contractId);
    var m := MessageFor(Find(l.rows, Catalogues, "").value.messages, c.contractId).value;
    var dlc := FindContract(l.net.contracts, c.contractId).value.dlc;
    hide Accepted;
    if c.EncodeRequest? {
      EncodedTells(m, dlc, c.values);
    } else {
      DecodedTells(m, c.payload);
    }
    assert Describes(l, c.contractId, m, dlc);
  }
}
