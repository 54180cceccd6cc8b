/**
 * Every command a network accepts, one step per command, and runs of commands. A service call holds the
 * network row locked from its first read to its commit, so that a call is one atomic step.
 */
module Commands {
  import opened Basics
  import opened Schemas
  import opened Store
  import opened Submission
  import FaultInjection
  import opened Scheduling
  import opened Arbitration
  import opened ArbitrationService
  import opened MultiBus
  import opened Campaign
  import opened DbcService

  datatype Command =
    | Submitting(submit: SubmitCommand)
    | Arbitrating(batch: ArbitrationCommand)
    | Injecting(injection: InjectCommand)
    | Recovering(recovery: RecoverCommand)
    | Configuring(configuration: ConfigureCommand)
    | Routing(route: RouteCommand)
    | Campaigning(campaign: CampaignCommand)
    | Cataloguing(catalogue: CatalogueCommand)
    | Coding(codec: CodecRequest)
  {
    /** What the request schemas guarantee before a service is called. */
    predicate Valid() {
      && (Arbitrating? ==> batch.Valid())
      && (Configuring? ==> configuration.Valid())
      && (Cataloguing? ==> catalogue.Valid())
    }

    /** The table that records the command. */
    function Table(): Table {
      match this
      case Submitting(_) => Transmissions
      case Arbitrating(_) => Arbitrations
      case Injecting(_) => Faults
      case Recovering(_) => Faults
      case Configuring(_) => GatewayExecutions
      case Routing(_) => GatewayExecutions
      case Campaigning(_) => Campaigns
      case Cataloguing(_) => Catalogues
      case Coding(_) => CodecExecutions
    }

    /** The command id; catalogue creation has none. */
    function Key(): string {
      match this
      case Submitting(c) => c.commandId
      case Arbitrating(c) => c.commandId
      case Injecting(c) => c.commandId
      case Recovering(c) => c.commandId
      case Configuring(c) => c.commandId
      case Routing(c) => c.commandId
      case Campaigning(c) => c.commandId
      case Cataloguing(_) => ""
      case Coding(c) => c.commandId
    }

    /** The network version the command expects; codec commands expect none. */
    function ExpectedVersion(): Option<nat> {
      match this
      case Submitting(c) => Some(c.expectedVersion)
      case Arbitrating(c) => Some(c.expectedVersion)
      case Injecting(c) => Some(c.expectedVersion)
      case Recovering(c) => Some(c.expectedVersion)
      case Configuring(c) => Some(c.expectedVersion)
      case Routing(c) => Some(c.expectedVersion)
      case Campaigning(c) => Some(c.expectedVersion)
      case Cataloguing(c) => Some(c.expectedVersion)
      case Coding(_) => None
    }

    /** The row was recorded for exactly this command. */
    predicate RecordedIn(row: Row) {
      match this
      case Submitting(c) => row.TransmissionRow? && row.request == Direct(c)
      case Arbitrating(c) => row.ArbitrationRow? && row.arbitration == c
      case Injecting(c) => row.FaultRow? && row.fault == Inject(c)
      case Recovering(c) => row.FaultRow? && row.fault == Recover(c)
      case Configuring(c) => row.GatewayRow? && row.gateway == Configure(c)
      case Routing(c) => row.GatewayRow? && row.gateway == RouteFrame(c)
      case Campaigning(c) => row.CampaignRow? && row.campaign == c
      case Cataloguing(c) => row.CatalogueRow? && row.identifier == c.identifier && row.messages == c.messages
      case Coding(c) => row.CodecRow? && row.codec == c
    }

    /** The error for an id that is already taken by something else. */
    function Conflict(): Error {
      match this
      case Submitting(_) => FrameCommandConflict
      case Arbitrating(_) => ArbitrationCommandConflict
      case Injecting(_) => FaultCommandConflict
      case Recovering(_) => FaultCommandConflict
      case Configuring(_) => GatewayCommandConflict
      case Routing(_) => GatewayCommandConflict
      case Campaigning(_) => CampaignCommandConflict
      case Cataloguing(_) => CatalogueExists
      case Coding(_) => CodecCommandConflict
    }
  }

  ghost function Step(l: Ledger, c: Command): Applied
    requires c.Valid() && CatalogueSound(l)
  {
    match c
    case Submitting(s) => Submit(l, s)
    case Arbitrating(b) => ExecuteArbitration(l, b)
    case Injecting(i) => FaultInjection.InjectFault(l, i)
    case Recovering(r) => FaultInjection.RecoverNode(l, r)
    case Configuring(x) => ConfigureMultibus(l, x)
    case Routing(r) => ExecuteRoute(l, r)
    case Campaigning(x) => ExecuteCampaign(l, x)
    case Cataloguing(x) => CreateCatalogue(l, x)
    case Coding(x) => ExecuteCodec(l, x)
  }

  /** Every service call is the step of its command: what is proved of steps and runs holds of the services. */
  method Execute(session: Session, network: CanNetwork, c: Command) returns (outcome: Outcome)
    requires c.Valid() && CatalogueSound(Snapshot(network, session))
    modifies session, network
    ensures Applied(Snapshot(network, session), outcome) == Step(old(Snapshot(network, session)), c)
  {
    hide CatalogueSound;
    hide Submit;
    hide ExecuteArbitration;
    hide ConfigureMultibus;
    hide ExecuteRoute;
    hide ExecuteCampaign;
    hide CreateCatalogue;
    hide ExecuteCodec;
    match c
    case Submitting(s) => outcome := SubmitFrame(session, network, s);
    case Arbitrating(b) => outcome := ExecuteBatch(session, network, b);
    case Injecting(i) => outcome := FaultInjection.ExecuteInjection(session, network, i);
    case Recovering(r) => outcome := FaultInjection.ExecuteRecovery(session, network, r);
    case Configuring(x) => outcome := ExecuteConfiguration(session, network, x);
    case Routing(r) => outcome := ExecuteGatewayRoute(session, network, r);
    case Campaigning(x) => outcome := ExecuteMultibusCampaign(session, network, x);
    case Cataloguing(x) => outcome := CreateDbcCatalogue(session, network, x);
    case Coding(x) =>
      match x
      case EncodeRequest(id, contract, values) => outcome := EncodeSignals(session, network, id, contract, values);
      case DecodeRequest(id, contract, payload) => outcome := DecodeSignals(session, network, id, contract, payload);
  }

  // ---------- what one step records ----------

  /** An arbitration also records one transmission per frame. */
  ghost function FreshRows(l: Ledger, c: Command): seq<Row>
    requires c.Valid() && CatalogueSound(l)
  {
    var a := Step(l, c);
    if !a.outcome.Done? then []
    else if c.Arbitrating? then [a.outcome.row] + TransmissionsOf(l.net, c.batch, BatchSlots(l.net, c.batch))
    else [a.outcome.row]
  }

  /** The id is looked up before anything else: an exact repeat is replayed, any other use of the id is refused. */
  lemma LookupComesFirst(l: Ledger, c: Command)
    requires c.Valid() && CatalogueSound(l)
    ensures var found := Find(l.rows, c.Table(), c.Key());
            && (found.Some? ==> Step(l, c) == Applied(l, if c.RecordedIn(found.value) && !c.Cataloguing?
                                                         then Replayed(found.value) else Rejected(c.Conflict())))
            && (found.None? ==> !Step(l, c).outcome.Replayed?)
  {
    hide Find;
    hide CatalogueSound;
    hide BatchSlots;
    hide Complete;
    hide FindContract;
    hide EncodeWith;
    hide DecodeWith;
    match c
    case Arbitrating(b) => CompleteNeverReplays(l, b);
    case Coding(x) => CodecNeverReplays(l, x);
    case _ =>
  }

  /** A command under a free id that expects another version is refused, with the current one, and changes nothing. */
  lemma VersionComesNext(l: Ledger, c: Command)
    requires c.Valid() && CatalogueSound(l) && Find(l.rows, c.Table(), c.Key()).None?
    requires c.ExpectedVersion().Some? && c.ExpectedVersion().value != l.net.version
    ensures Step(l, c) == Applied(l, Rejected(VersionConflict(l.net.version)))
  {
    hide Find;
    hide CatalogueSound;
    hide BatchSlots;
    hide Complete;
    hide FindContract;
    hide ResolveUpTo;
  }

  lemma CompleteNeverReplays(l: Ledger, c: ArbitrationCommand)
    requires c.Valid()
    ensures Find(l.rows, Arbitrations, c.commandId).None? ==> !ExecuteArbitration(l, c).outcome.Replayed?
  {}

  lemma CodecNeverReplays(l: Ledger, c: CodecRequest)
    requires CatalogueSound(l)
    ensures Find(l.rows, CodecExecutions, c.commandId).None? ==> !ExecuteCodec(l, c).outcome.Replayed?
  {}

  lemma OwnTable(l: Ledger, c: Command)
    requires c.Valid() && CatalogueSound(l) && Step(l, c).outcome.Done?
    ensures Step(l, c).outcome.row.Table() == c.Table()
  {
    hide CatalogueSound;
    hide FramesOf;
    hide UtilizationOf;
    hide ResultOf;
    hide Destination;
    hide AnyRecorded;
    hide Find;
    hide FindContract;
    hide FindRoute;
    hide ConfigurationError;
    hide FirstMessageError;
    hide Prepare;
    hide RunUpTo;
    hide ResolveUpTo;
    hide BatchSlots;
    hide TransmissionsOf;
    match c
    case Coding(x) => CodecLeavesNetwork(l, x);
    case _ =>
  }

  lemma OwnKey(l: Ledger, c: Command)
    requires c.Valid() && CatalogueSound(l) && Step(l, c).outcome.Done?
    ensures Step(l, c).outcome.row.Key() == c.Key()
  {
    hide Find;
    hide FindContract;
    hide FindRoute;
    hide ConfigurationError;
    hide FirstMessageError;
    hide Prepare;
    hide RunUpTo;
    hide ResolveUpTo;
    hide BatchSlots;
    hide TransmissionsOf;
    match c
    case Coding(x) => CodecLeavesNetwork(l, x);
    case _ =>
  }

  lemma OwnRequest(l: Ledger, c: Command)
    requires c.Valid() && CatalogueSound(l) && Step(l, c).outcome.Done?
    ensures c.RecordedIn(Step(l, c).outcome.row)
  {
    hide Find;
    hide FindContract;
    hide FindRoute;
    hide ConfigurationError;
    hide FirstMessageError;
    hide Prepare;
    hide RunUpTo;
    hide ResolveUpTo;
    hide BatchSlots;
    hide TransmissionsOf;
    match c
    case Coding(x) => CodecLeavesNetwork(l, x);
    case _ =>
  }

  lemma RowsAdded(l: Ledger, c: Command)
    requires c.Valid() && CatalogueSound(l)
    ensures if Step(l, c).outcome.Done? then Step(l, c).ledger.rows == l.rows + FreshRows(l, c)
            else Step(l, c).ledger == l
  {
    hide Find;
    hide FindContract;
    hide FindRoute;
    hide ConfigurationError;
    hide FirstMessageError;
    hide Prepare;
    hide RunUpTo;
    hide ResolveUpTo;
    hide BatchSlots;
    hide TransmissionsOf;
    match c
    case Coding(x) => CodecLeavesNetwork(l, x);
    case _ =>
  }

  lemma FreshNonEmpty(l: Ledger, c: Command)
    requires c.Valid() && CatalogueSound(l)
    ensures if Step(l, c).outcome.Done? then FreshRows(l, c) != [] && FreshRows(l, c)[0] == Step(l, c).outcome.row
            else FreshRows(l, c) == []
  {}

  lemma IsByParts(row: Row, t: Table, key: string)
    requires row.Table() == t && row.Key() == key
    ensures row.Is(t, key)
  {}

  /** A command that does not take effect changes nothing; one that does adds its own row, and only adds. */
  lemma StepAppends(l: Ledger, c: Command)
    requires c.Valid() && CatalogueSound(l)
    ensures Step(l, c).ledger.rows == l.rows + FreshRows(l, c)
    ensures !Step(l, c).outcome.Done? ==> Step(l, c).ledger == l
    ensures Step(l, c).outcome.Done? ==>
            var row := Step(l, c).outcome.row;
            FreshRows(l, c) != [] && FreshRows(l, c)[0] == row && row.Is(c.Table(), c.Key()) && c.RecordedIn(row)
  {
    hide *;
    RowsAdded(l, c);
    FreshNonEmpty(l, c);
    if Step(l, c).outcome.Done? {
      OwnTable(l, c);
      OwnKey(l, c);
      IsByParts(Step(l, c).outcome.row, c.Table(), c.Key());
      OwnRequest(l, c);
    }
  }

  /** What an arbitration that takes effect records and leaves behind. */
  lemma BatchDone(l: Ledger, c: Command)
    requires c.Arbitrating? && c.Valid() && CatalogueSound(l) && Step(l, c).outcome.Done?
    ensures ResolveUpTo(l.net, c.batch.contenders, |c.batch.contenders|).Ok?
    ensures var slots := BatchSlots(l.net, c.batch);
            var a := Step(l, c);
            && FreshRows(l, c) == [a.outcome.row] + TransmissionsOf(l.net, c.batch, slots)
            && |TransmissionsOf(l.net, c.batch, slots)| == |slots|
            && !AnyRecorded(l.rows, TransmissionsOf(l.net, c.batch, slots))
            && a.outcome.row ==
                 ArbitrationRow(c.batch.commandId, c.batch, FramesOf(l.net, slots), UtilizationOf(l.net, slots),
                                l.net.version, l.net.version + 1)
            && a.ledger.net == l.net.(version := l.net.version + 1, nextSequence := l.net.nextSequence + |slots|,
                                      time := EndOf(l.net.time, slots))
  {
    hide ResolveUpTo;
    hide BatchSlots;
    hide TransmissionOf;
    hide FrameOf;
    hide FramesOf;
    hide UtilizationOf;
    hide AnyRecorded;
    hide CatalogueSound;
    hide Find;
  }

  /** The rows of an accepted batch: its own, then one transmission per slot. */
  lemma BatchRowAt(l: Ledger, c: Command, i: nat)
    requires c.Arbitrating? && c.Valid() && CatalogueSound(l) && i < |FreshRows(l, c)|
    ensures Step(l, c).outcome.Done?
    ensures i == 0 ==> FreshRows(l, c)[i].ArbitrationRow?
    ensures i > 0 ==>
            && ResolveUpTo(l.net, c.batch.contenders, |c.batch.contenders|).Ok?
            && i - 1 < |BatchSlots(l.net, c.batch)| == |TransmissionsOf(l.net, c.batch, BatchSlots(l.net, c.batch))|
            && FreshRows(l, c)[i] == TransmissionsOf(l.net, c.batch, BatchSlots(l.net, c.batch))[i - 1]
  {
    FreshOnlyIfDone(l, c);
    hide *;
    BatchRows(l, c);
    ConsAt(Step(l, c).outcome.row, TransmissionsOf(l.net, c.batch, BatchSlots(l.net, c.batch)), i);
  }

  lemma BatchRows(l: Ledger, c: Command)
    requires c.Arbitrating? && c.Valid() && CatalogueSound(l) && Step(l, c).outcome.Done?
    ensures ResolveUpTo(l.net, c.batch.contenders, |c.batch.contenders|).Ok?
    ensures Step(l, c).outcome.row.ArbitrationRow?
    ensures FreshRows(l, c) == [Step(l, c).outcome.row] + TransmissionsOf(l.net, c.batch, BatchSlots(l.net, c.batch))
    ensures |TransmissionsOf(l.net, c.batch, BatchSlots(l.net, c.batch))| == |BatchSlots(l.net, c.batch)|
  {}

  lemma ConsAt(row: Row, rest: seq<Row>, i: nat)
    requires i <= |rest|
    ensures ([row] + rest)[i] == if i == 0 then row else rest[i - 1]
  {}

  lemma FreshOnlyIfDone(l: Ledger, c: Command)
    requires c.Valid() && CatalogueSound(l) && FreshRows(l, c) != []
    ensures Step(l, c).outcome.Done?
  {}
}
