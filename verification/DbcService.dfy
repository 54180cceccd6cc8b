/** The DBC catalogue of a network, and the idempotent encode and decode commands that use it. */
module DbcService {
  import opened Basics
  import opened Schemas
  import opened DbcCodec
  import opened CodecTheorems
  import opened Store

  datatype CatalogueCommand = CatalogueCommand(expectedVersion: nat, identifier: string, messages: seq<Message>)
  {
    /** At least one message, every message well formed, and no two for one frame contract. */
    predicate Valid() {
      && |messages| > 0
      && (forall i :: 0 <= i < |messages| ==> messages[i].Valid())
      && (forall i, j :: 0 <= i < j < |messages| ==> messages[i].contractId != messages[j].contractId)
    }
  }

  // ---------- creating the catalogue ----------

  /** What is wrong with the layout of the first k signals, if anything. */
  ghost function LayoutFault(signals: seq<Signal>, dlc: nat, k: nat): Option<LayoutError>
    requires k <= |signals|
  {
    if k == 0 then None
    else if LayoutFault(signals, dlc, k - 1).Some? then LayoutFault(signals, dlc, k - 1)
    else if !Fits(signals[k - 1], dlc) then Some(ExceedsDlc(signals[k - 1].identifier))
    else if Clashes(signals, k - 1) then Some(Overlap)
    else None
  }

  lemma {:induction false} LayoutFaultExact(signals: seq<Signal>, dlc: nat, k: nat)
    requires k <= |signals|
    ensures LayoutFault(signals, dlc, k).None? <==> Layout(signals[..k], dlc)
  {
    hide Fits;
    hide Clashes;
    hide Layout;
    if k == 0 {
      EmptyLayout(dlc);
      assert signals[..0] == [];
    } else {
      LayoutFaultExact(signals, dlc, k - 1);
      ShorterLayout(signals, dlc, k);
      if Layout(signals[..k - 1], dlc) {
        LayoutExtends(signals, k - 1, dlc);
      }
    }
  }

  lemma ShorterLayout(signals: seq<Signal>, dlc: nat, k: nat)
    requires 0 < k <= |signals|
    ensures Layout(signals[..k], dlc) ==> Layout(signals[..k - 1], dlc)
  {
    assert signals[..k][..k - 1] == signals[..k - 1];
    if Layout(signals[..k], dlc) {
      LayoutPrefix(signals[..k], k - 1, dlc);
    }
  }

  lemma EmptyLayout(dlc: nat)
    ensures Layout([], dlc)
  {}

  lemma {:induction false} LayoutFaultStays(signals: seq<Signal>, dlc: nat, j: nat, k: nat)
    requires j <= k <= |signals| && LayoutFault(signals, dlc, j).Some?
    ensures LayoutFault(signals, dlc, k) == LayoutFault(signals, dlc, j)
    decreases k
  {
    if j < k {
      LayoutFaultStays(signals, dlc, j, k - 1);
    }
  }

  ghost function MessageError(n: Net, m: Message): Option<Error> {
    match FindContract(n.contracts, m.contractId)
    case None => Some(UnknownContract)
    case Some(contract) =>
      match LayoutFault(m.signals, contract.dlc, |m.signals|)
      case Some(e) => Some(InvalidLayout(e))
      case None => None
  }

  /** The error of the first of the first k messages that has one. */
  ghost function FirstMessageError(n: Net, messages: seq<Message>, k: nat): Option<Error>
    requires k <= |messages|
  {
    if k == 0 then None
    else if FirstMessageError(n, messages, k - 1).Some? then FirstMessageError(n, messages, k - 1)
    else MessageError(n, messages[k - 1])
  }

  lemma {:induction false} MessageErrorStays(n: Net, messages: seq<Message>, j: nat, k: nat)
    requires j <= k <= |messages| && FirstMessageError(n, messages, j).Some?
    ensures FirstMessageError(n, messages, k) == FirstMessageError(n, messages, j)
    decreases k
  {
    if j < k {
      MessageErrorStays(n, messages, j, k - 1);
    }
  }

  ghost function CreateCatalogue(l: Ledger, c: CatalogueCommand): Applied {
    var n := l.net;
    if Find(l.rows, Catalogues, "").Some? then Reject(l, CatalogueExists)
    else if c.expectedVersion != n.version then Reject(l, VersionConflict(n.version))
    else
      match FirstMessageError(n, c.messages, |c.messages|)
      case Some(e) => Reject(l, e)
      case None =>
        var row := CatalogueRow(c.identifier, c.messages, n.version + 1);
        Record(l, n.(version := n.version + 1), [row], row)
  }

  /** Looks up the contract of one message and validates its layout against the contracted DLC. */
  method CheckMessage(network: CanNetwork, m: Message) returns (error: Option<Error>)
    ensures error == MessageError(network.View(), m)
  {
    var found := FindContract(network.frameContracts, m.contractId);
    if found.None? {
      return Some(UnknownContract);
    }
    var valid := ValidateMessage(m, found.value.dlc);
    LayoutFaultExact(m.signals, found.value.dlc, |m.signals|);
    assert m.signals[..|m.signals|] == m.signals;
    if valid.Err? {
      BrokenAt(m.signals, found.value.dlc, valid.error);
      return Some(InvalidLayout(valid.error));
    }
    return None;
  }

  /** The error of the first signal that breaks the layout is the layout's fault. */
  lemma BrokenAt(signals: seq<Signal>, dlc: nat, e: LayoutError)
    requires exists k ::
      && 0 <= k < |signals| && Layout(signals[..k], dlc)
      && (if Fits(signals[k], dlc) then e == Overlap && Clashes(signals, k) else e == ExceedsDlc(signals[k].identifier))
    ensures LayoutFault(signals, dlc, |signals|) == Some(e)
  {
    hide Fits;
    hide Clashes;
    hide Layout;
    var k :| && 0 <= k < |signals| && Layout(signals[..k], dlc)
             && (if Fits(signals[k], dlc) then e == Overlap && Clashes(signals, k)
                 else e == ExceedsDlc(signals[k].identifier));
    LayoutFaultExact(signals, dlc, k);
    LayoutFaultStays(signals, dlc, k + 1, |signals|);
  }

  method CreateDbcCatalogue(session: Session, network: CanNetwork, c: CatalogueCommand) returns (outcome: Outcome)
    modifies session, network
    ensures Applied(Snapshot(network, session), outcome) == CreateCatalogue(old(Snapshot(network, session)), c)
  {
    hide MessageError;
    hide Find;
    var existing := Find(session.rows, Catalogues, "");
    if existing.Some? {
      return Rejected(CatalogueExists);
    }
    if c.expectedVersion != network.version {
      return Rejected(VersionConflict(network.version));
    }
    for k := 0 to |c.messages|
      invariant FirstMessageError(network.View(), c.messages, k).None?
      invariant session.rows == old(session.rows) && network.View() == old(network.View())
    {
      var error := CheckMessage(network, c.messages[k]);
      if error.Some? {
        MessageErrorStays(network.View(), c.messages, k + 1, |c.messages|);
        return Rejected(error.value);
      }
    }
    network.version := network.version + 1;
    var row := CatalogueRow(c.identifier, c.messages, network.version);
    session.Add(row);
    return Done(row);
  }

  // ---------- what a stored catalogue guarantees ----------

  /** The message belongs to a frame contract and its layout is proper for the contract's DLC. */
  ghost predicate MessageSound(n: Net, m: Message) {
    var contract := FindContract(n.contracts, m.contractId);
    contract.Some? && Accepted(m, contract.value.dlc)
  }

  ghost predicate CatalogueSound(l: Ledger) {
    var found := Find(l.rows, Catalogues, "");
    found.Some? ==>
      && found.value.CatalogueRow?
      && forall i :: 0 <= i < |found.value.messages| ==> MessageSound(l.net, found.value.messages[i])
  }

  lemma MessageErrorExact(n: Net, m: Message)
    requires m.Valid()
    ensures MessageError(n, m).None? <==> MessageSound(n, m)
  {
    var contract := FindContract(n.contracts, m.contractId);
    if contract.Some? {
      LayoutFaultExact(m.signals, contract.value.dlc, |m.signals|);
      assert m.signals[..|m.signals|] == m.signals;
    }
  }

  lemma {:induction false} NoMessageError(n: Net, messages: seq<Message>, k: nat)
    requires k <= |messages| && forall i :: 0 <= i < |messages| ==> messages[i].Valid()
    ensures FirstMessageError(n, messages, k).None? <==> forall i :: 0 <= i < k ==> MessageSound(n, messages[i])
  {
    hide MessageSound;
    hide MessageError;
    if k > 0 {
      NoMessageError(n, messages, k - 1);
      MessageErrorExact(n, messages[k - 1]);
    }
  }

  /**
   * A catalogue is created exactly when the network has none, the version is the current one, and every
   * message fits its frame contract without overlaps; every command sees a sound catalogue afterwards.
   */
  lemma CatalogueAcceptsExactly(l: Ledger, c: CatalogueCommand)
    requires c.Valid()
    ensures CreateCatalogue(l, c).outcome.Done? <==>
            && Find(l.rows, Catalogues, "").None?
            && c.expectedVersion == l.net.version
            && forall i :: 0 <= i < |c.messages| ==> MessageSound(l.net, c.messages[i])
    ensures CatalogueSound(l) ==> CatalogueSound(CreateCatalogue(l, c).ledger)
  {
    hide MessageSound;
    NoMessageError(l.net, c.messages, |c.messages|);
    if CreateCatalogue(l, c).outcome.Done? {
      var row := CreateCatalogue(l, c).outcome.row;
      FindAppend(l.rows, [row], Catalogues, "");
      forall i | 0 <= i < |c.messages| ensures MessageSound(CreateCatalogue(l, c).ledger.net, c.messages[i]) {
        SoundnessKept(l.net, CreateCatalogue(l, c).ledger.net, c.messages[i]);
      }
    }
  }

  lemma SoundnessKept(n: Net, after: Net, m: Message)
    requires MessageSound(n, m) && after.contracts == n.contracts
    ensures MessageSound(after, m)
  {}

  // ---------- encoding and decoding ----------

  function MessageFor(messages: seq<Message>, contractId: string): (r: Option<Message>)
    ensures r.Some? ==> r.value in messages && r.value.contractId == contractId
  {
    if messages == [] then None
    else if messages[0].contractId == contractId then Some(messages[0])
    else MessageFor(messages[1..], contractId)
  }

  lemma SoundMessageFor(l: Ledger, contractId: string)
    requires CatalogueSound(l)
    ensures var found := Find(l.rows, Catalogues, "");
            found.Some? ==>
              && found.value.CatalogueRow?
              && var m := MessageFor(found.value.messages, contractId);
                 m.Some? ==> m.value.contractId == contractId && MessageSound(l.net, m.value)
  {}

  ghost function EncodeWith(l: Ledger, c: CodecRequest, m: Message, dlc: nat): Applied
    requires c.EncodeRequest? && Accepted(m, dlc)
  {
    match Encode(m, dlc, c.values)
    case Err(e) => Reject(l, Codec(e))
    case Ok(e) =>
      var row := CodecRow(c.commandId, c, e.payload, e.raws, e.physicals);
      Record(l, l.net, [row], row)
  }

  ghost function DecodeWith(l: Ledger, c: CodecRequest, m: Message, dlc: nat): Applied
    requires c.DecodeRequest? && Accepted(m, dlc)
  {
    if |c.payload| != dlc then Reject(l, WrongPayloadLength) else
      var d := Decode(m, c.payload);
      var row := CodecRow(c.commandId, c, c.payload, d.raws, d.physicals);
      Record(l, l.net, [row], row)
  }

  ghost function ExecuteCodec(l: Ledger, c: CodecRequest): Applied
    requires CatalogueSound(l)
  {
    match Find(l.rows, CodecExecutions, c.commandId)
    case Some(row) =>
      if row.CodecRow? && row.codec == c then Applied(l, Replayed(row)) else Reject(l, CodecCommandConflict)
    case None =>
      SoundMessageFor(l, c.contractId);
      match Find(l.rows, Catalogues, "")
      case None => Reject(l, NoCatalogue)
      case Some(catalogue) =>
        match MessageFor(catalogue.messages, c.contractId)
        case None => Reject(l, NoMessage)
        case Some(m) =>
          var dlc := FindContract(l.net.contracts, c.contractId).value.dlc;
          if c.EncodeRequest? then EncodeWith(l, c, m, dlc) else DecodeWith(l, c, m, dlc)
  }

  /** The message and DLC a codec command works with, or the error that ends it. */
  method RequireMessage(session: Session, network: CanNetwork, contractId: string)
    returns (r: Result<(Message, nat), Error>)
    requires CatalogueSound(Snapshot(network, session))
    ensures var found := Find(session.rows, Catalogues, "");
            match r
            case Err(e) =>
              if found.None? then e == NoCatalogue
              else found.value.CatalogueRow? && MessageFor(found.value.messages, contractId).None? && e == NoMessage
            case Ok(pair) =>
              && found.Some? && found.value.CatalogueRow?
              && MessageFor(found.value.messages, contractId) == Some(pair.0)
              && Accepted(pair.0, pair.1)
              && FindContract(network.frameContracts, contractId).Some?
              && FindContract(network.frameContracts, contractId).value.dlc == pair.1
  {
    hide Find;
    var found := Find(session.rows, Catalogues, "");
    SoundMessageFor(Snapshot(network, session), contractId);
    if found.None? {
      return Err(NoCatalogue);
    }
    var m := MessageFor(found.value.messages, contractId);
    if m.None? {
      return Err(NoMessage);
    }
    var contract := FindContract(network.frameContracts, contractId);
    return Ok((m.value, contract.value.dlc));
  }

  method EncodeSignals(session: Session, network: CanNetwork, commandId: string, contractId: string,
                       values: map<string, real>)
    returns (outcome: Outcome)
    requires CatalogueSound(Snapshot(network, session))
    modifies session
    ensures Applied(Snapshot(network, session), outcome) ==
            ExecuteCodec(old(Snapshot(network, session)), EncodeRequest(commandId, contractId, values))
  {
    hide Find;
    hide CatalogueSound;
    hide Encode;
    hide Accepted;
    var request := EncodeRequest(commandId, contractId, values);
    var existing := Find(session.rows, CodecExecutions, commandId);
    if existing.Some? {
      return if existing.value.CodecRow? && existing.value.codec == request
        then Replayed(existing.value) else Rejected(CodecCommandConflict);
    }
    var target := RequireMessage(session, network, contractId);
    if target.Err? {
      return Rejected(target.error);
    }
    AcceptedLayout(target.value.0, target.value.1);
    var encoded := EncodeMessage(target.value.0, target.value.1, values);
    if encoded.Err? {
      return Rejected(Codec(encoded.error));
    }
    var row := CodecRow(commandId, request, encoded.value.payload, encoded.value.raws, encoded.value.physicals);
    session.Add(row);
    return Done(row);
  }

  lemma AcceptedLayout(m: Message, dlc: nat)
    requires Accepted(m, dlc)
    ensures m.Valid() && Layout(m.signals, dlc)
  {}

  method DecodeSignals(session: Session, network: CanNetwork, commandId: string, contractId: string, payload: seq<Byte>)
    returns (outcome: Outcome)
    requires CatalogueSound(Snapshot(network, session))
    modifies session
    ensures Applied(Snapshot(network, session), outcome) ==
            ExecuteCodec(old(Snapshot(network, session)), DecodeRequest(commandId, contractId, payload))
  {
    hide Find;
    hide CatalogueSound;
    hide Decode;
    hide Accepted;
    var request := DecodeRequest(commandId, contractId, payload);
    var existing := Find(session.rows, CodecExecutions, commandId);
    if existing.Some? {
      return if existing.value.CodecRow? && existing.value.codec == request
        then Replayed(existing.value) else Rejected(CodecCommandConflict);
    }
    var target := RequireMessage(session, network, contractId);
    if target.Err? {
      return Rejected(target.error);
    }
    if |payload| != target.value.1 {
      return Rejected(WrongPayloadLength);
    }
    AcceptedLayout(target.value.0, target.value.1);
    var decoded := DecodeMessage(target.value.0, payload);
    var row := CodecRow(commandId, request, payload, decoded.raws, decoded.physicals);
    session.Add(row);
    return Done(row);
  }

  /** Encoding and decoding never touch the network, and record at most their own row. */
  lemma CodecLeavesNetwork(l: Ledger, c: CodecRequest)
    requires CatalogueSound(l)
    ensures var r := ExecuteCodec(l, c);
            && r.ledger.net == l.net && CatalogueSound(r.ledger)
            && r.ledger.rows == l.rows + (if r.outcome.Done? then [r.outcome.row] else [])
            && (r.outcome.Done? ==>
                r.outcome.row.CodecRow? && r.outcome.row.commandId == c.commandId && r.outcome.row.codec == c)
  {
    SoundMessageFor(l, c.contractId);
    var r := ExecuteCodec(l, c);
    if r.outcome.Done? {
      FindAppend(l.rows, [r.outcome.row], Catalogues, "");
    } else {
      assert l.rows + [] == l.rows;
    }
  }

  /**
   * The round trip through the store: as long as the catalogue and the contracts are the same, what one
   * command encoded, a decode command of the recorded payload turns back into exactly the values that were
   * asked for and the raw values that were recorded.
   */
  lemma CodecRoundTrip(l: Ledger, later: Ledger, c: CodecRequest, decodeId: string)
    requires CatalogueSound(l) && CatalogueSound(later) && c.EncodeRequest?
    requires ExecuteCodec(l, c).outcome.Done?
    requires Find(l.rows, Catalogues, "").Some? ==> Find(later.rows, Catalogues, "") == Find(l.rows, Catalogues, "")
    requires later.net.contracts == l.net.contracts
    requires Find(later.rows, CodecExecutions, decodeId).None?
    ensures var row := ExecuteCodec(l, c).outcome.row;
            row.CodecRow? &&
            var decoded := ExecuteCodec(later, DecodeRequest(decodeId, c.contractId, row.payload)).outcome;
            && decoded.Done? && decoded.row.CodecRow?
            && decoded.row.raws == row.raws && decoded.row.physicals == c.values
  {
    hide Find;
    hide CatalogueSound;
    hide Encode;
    hide Decode;
    SoundMessageFor(l, c.contractId);
    SoundMessageFor(later, c.contractId);
    var m := MessageFor(Find(l.rows, Catalogues, "").value.messages, c.contractId).value;
    DecodeEncode(m, FindContract(l.net.contracts, c.contractId).value.dlc, c.values);
  }
}
