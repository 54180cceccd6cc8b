/**
 * Over whole runs: routes resolve, transmissions conform to their contracts, ids collide only with
 * submissions, and encodings stay decodable.
 */
module NetworkRuns {
  import opened Basics
  import opened CanTiming
  import opened Schemas
  import opened Store
  import opened Scheduling
  import opened Arbitration
  import opened ArbitrationService
  import opened MultiBus
  import opened DbcService
  import opened Commands
  import opened Runs
  import opened RunLedger
  import opened Submission

  // ---------- routes ----------

  /** Only an accepted configuration changes what routes resolve in. */
  lemma OthersKeepRoutes(l: Ledger, c: Command)
    requires c.Valid() && CatalogueSound(l)
    requires !(c.Configuring? && Step(l, c).outcome.Done?)
    ensures var m := Step(l, c).ledger.net;
            && m.rates == l.net.rates && m.nodes == l.net.nodes && m.contracts == l.net.contracts
            && m.linChannels == l.net.linChannels && m.ethernetSegments == l.net.ethernetSegments
            && m.routes == l.net.routes
  {
    hide Find;
    hide CatalogueSound;
    hide BatchSlots;
    match c
    case Coding(x) => CodecLeavesNetwork(l, x);
    case _ =>
  }

  lemma ResolvesAlike(n: Net, m: Net, route: Route)
    requires m.rates == n.rates && m.nodes == n.nodes && m.contracts == n.contracts
    requires m.linChannels == n.linChannels && m.ethernetSegments == n.ethernetSegments
    requires RouteResolves(n, route)
    ensures RouteResolves(m, route)
  {}

  lemma ConfigurationStored(l: Ledger, c: Command)
    requires c.Valid() && CatalogueSound(l) && c.Configuring? && Step(l, c).outcome.Done?
    ensures ConfigurationError(l.net, c.configuration).None?
    ensures Step(l, c).ledger.net ==
            l.net.(linChannels := c.configuration.linChannels, ethernetSegments := c.configuration.ethernetSegments,
                   routes := c.configuration.routes).(version := l.net.version + 1)
  {}

  lemma StepKeepsRoutes(l: Ledger, c: Command)
    requires c.Valid() && CatalogueSound(l) && RoutesResolve(l.net)
    ensures RoutesResolve(Step(l, c).ledger.net)
  {
    var m := Step(l, c).ledger.net;
    if c.Configuring? && Step(l, c).outcome.Done? {
      ConfigurationStored(l, c);
      AcceptedConfigurationResolves(l.net, c.configuration);
      SameRoutesResolve(l.net.(linChannels := c.configuration.linChannels,
                               ethernetSegments := c.configuration.ethernetSegments,
                               routes := c.configuration.routes), m);
    } else {
      OthersKeepRoutes(l, c);
      SameRoutesResolve(l.net, m);
    }
    hide Step;
    hide RoutesResolve;
    hide ConfigurationError;
  }

  lemma SameRoutesResolve(n: Net, m: Net)
    requires RoutesResolve(n)
    requires m.rates == n.rates && m.nodes == n.nodes && m.contracts == n.contracts && m.routes == n.routes
    requires m.linChannels == n.linChannels && m.ethernetSegments == n.ethernetSegments
    ensures RoutesResolve(m)
  {
    hide RouteResolves;
    forall i | 0 <= i < |m.routes| ensures RouteResolves(m, m.routes[i]) {
      ResolvesAlike(n, m, n.routes[i]);
    }
  }

  lemma RoutesAtStart(create: NetworkCreate)
    ensures RoutesResolve(Created(create).net)
  {}

  lemma {:induction false} RoutesOverRuns(create: NetworkCreate, cs: seq<Command>, k: nat)
    requires AllValid(cs) && k <= |cs|
    ensures RoutesResolve(Run(Created(create), cs, k).net)
  {
    hide *;
    RoutesAtStart(create);
    StartLedger(Created(create), cs);
    if k > 0 {
      RoutesOverRuns(create, cs, k - 1);
      NextLedger(Created(create), cs, k - 1);
      StepKeepsRoutes(Run(Created(create), cs, k - 1), cs[k - 1]);
    }
  }

  /** The network stores a route of that name whose source contract has that payload length. */
  ghost predicate Carries(n: Net, routeId: string, length: nat) {
    exists i :: 0 <= i < |n.routes| && n.routes[i].identifier == routeId
                && StoredLength(n, n.routes[i].sourceProtocol, n.routes[i].sourceContractId) == Ok(length)
  }

  /**
   * No reachable network is ever stuck on a route: a route command with an unused id is accepted exactly when
   * it expects the current version, names a stored route, and its payload has the source contract's length.
   */
  lemma RoutesNeverStuck(create: NetworkCreate, cs: seq<Command>, k: nat, r: RouteCommand)
    requires AllValid(cs) && k <= |cs|
    requires Find(Run(Created(create), cs, k).rows, GatewayExecutions, r.commandId).None?
    ensures var l := Run(Created(create), cs, k);
            ExecuteRoute(l, r).outcome.Done? <==>
                r.expectedVersion == l.net.version && Carries(l.net, r.routeId, |r.payload|)
  {
    RoutesOverRuns(create, cs, k);
    ResolvedRoutesAccept(Run(Created(create), cs, k), r);
    hide Run;
    hide ExecuteRoute;
    hide StoredLength;
  }

  // ---------- transports ----------

  lemma SoundAlike(n: Net, m: Net)
    requires TransportsSound(n)
    requires m.nodes == n.nodes && m.linChannels == n.linChannels && m.ethernetSegments == n.ethernetSegments
    ensures TransportsSound(m)
  {
    hide LinTransports;
    hide EthernetTransports;
    hide DistinctTransports;
    forall id ensures Declared(n, id) ==> Declared(m, id) {}
    hide Declared;
  }

  lemma StepKeepsTransports(l: Ledger, c: Command)
    requires c.Valid() && CatalogueSound(l) && TransportsSound(l.net)
    ensures TransportsSound(Step(l, c).ledger.net)
  {
    if c.Configuring? && Step(l, c).outcome.Done? {
      ConfigurationDone(l, c);
      SoundAlike(Configured(l.net, c.configuration), Step(l, c).ledger.net);
    } else {
      OthersKeepRoutes(l, c);
      SoundAlike(l.net, Step(l, c).ledger.net);
    }
    hide Step;
    hide TransportsSound;
  }

  lemma ConfigurationDone(l: Ledger, c: Command)
    requires c.Valid() && CatalogueSound(l) && c.Configuring? && Step(l, c).outcome.Done?
    ensures TransportsSound(Configured(l.net, c.configuration))
    ensures Step(l, c).ledger.net == Configured(l.net, c.configuration).(version := l.net.version + 1)
  {
    ConfigurationStored(l, c);
    ConfigureAcceptsExactly(l, c.configuration);
    hide ConfigureMultibus;
    hide TransportsSound;
    hide RouteAllowed;
  }

  lemma TransportsAtStart(create: NetworkCreate)
    ensures TransportsSound(Created(create).net)
  {}

  /** In every reachable network the transport identifiers are distinct and the contracts refer only to its nodes. */
  lemma {:induction false} TransportsOverRuns(create: NetworkCreate, cs: seq<Command>, k: nat)
    requires AllValid(cs) && k <= |cs|
    ensures TransportsSound(Run(Created(create), cs, k).net)
  {
    hide *;
    TransportsAtStart(create);
    StartLedger(Created(create), cs);
    if k > 0 {
      TransportsOverRuns(create, cs, k - 1);
      NextLedger(Created(create), cs, k - 1);
      StepKeepsTransports(Run(Created(create), cs, k - 1), cs[k - 1]);
    }
  }

  // ---------- frame contracts ----------

  /**
   * A recorded transmission is one its frame contract allows: declared producer, contracted length, contracted
   * format.
   */
  ghost predicate Conforms(contracts: seq<FrameContract>, row: Row) {
    row.TransmissionRow? ==>
      var found := FindContract(contracts, row.contractId);
      && found.Some?
      && row.producer == found.value.producer && |row.payload| == found.value.dlc
      && row.frameId == found.value.frameId && row.format == found.value.format
      && row.protocol == found.value.protocol && row.bitrateSwitch == found.value.bitrateSwitch
  }

  ghost predicate AllConform(contracts: seq<FrameContract>, rows: seq<Row>) {
    forall i :: 0 <= i < |rows| ==> Conforms(contracts, rows[i])
  }

  ghost predicate ContenderConforms(contracts: seq<FrameContract>, c: Contender) {
    FindContract(contracts, c.contract.identifier) == Some(c.contract) && c.producer == c.contract.producer
    && |c.payload| == c.contract.dlc
  }

  lemma ResolvedConforms(n: Net, cs: seq<ContenderRequest>, who: Contender)
    requires ResolveUpTo(n, cs, |cs|).Ok? && who in ResolveUpTo(n, cs, |cs|).value
    ensures ContenderConforms(n.contracts, who)
  {
    hide ResolveUpTo;
    hide FindContract;
    ResolvedContenders(n, cs, |cs|);
    var j :| 0 <= j < |cs| && ResolveUpTo(n, cs, |cs|).value[j] == who;
    assert Resolve(n, cs[j]) == Ok(who);
  }

  lemma SlotConforms(n: Net, c: ArbitrationCommand, i: nat)
    requires c.Valid() && ResolveUpTo(n, c.contenders, |c.contenders|).Ok?
    requires i < |BatchSlots(n, c)|
    ensures ContenderConforms(n.contracts, BatchSlots(n, c)[i].who)
  {
    BatchFeasible(n, c);
    hide BatchSlots;
    hide ResolveUpTo;
    hide ContenderConforms;
    var who := BatchSlots(n, c)[i].who;
    assert who in Elements(ResolveUpTo(n, c.contenders, |c.contenders|).value);
    hide Feasible;
    ResolvedConforms(n, c.contenders, who);
  }

  lemma TransmissionConforms(n: Net, c: ArbitrationCommand, slots: seq<Slot>, i: nat)
    requires i < |slots| && ContenderConforms(n.contracts, slots[i].who)
    ensures |TransmissionsOf(n, c, slots)| == |slots|
    ensures Conforms(n.contracts, TransmissionsOf(n, c, slots)[i])
  {}

  lemma BatchConforms(l: Ledger, c: Command, i: nat)
    requires c.Arbitrating? && c.Valid() && CatalogueSound(l) && i < |FreshRows(l, c)|
    ensures Conforms(l.net.contracts, FreshRows(l, c)[i])
  {
    hide *;
    BatchValid(c);
    BatchRowAt(l, c, i);
    if i > 0 {
      SlotConforms(l.net, c.batch, i - 1);
      TransmissionConforms(l.net, c.batch, BatchSlots(l.net, c.batch), i - 1);
    } else {
      OthersConform(l.net.contracts, FreshRows(l, c)[0]);
    }
  }

  lemma OthersConform(contracts: seq<FrameContract>, row: Row)
    requires !row.TransmissionRow?
    ensures Conforms(contracts, row)
  {}

  lemma SubmittedConforms(l: Ledger, s: SubmitCommand)
    requires Submit(l, s).outcome.Done?
    ensures Conforms(l.net.contracts, Submit(l, s).outcome.row)
  {}

  lemma OwnConforms(l: Ledger, c: Command)
    requires c.Valid() && CatalogueSound(l) && !c.Arbitrating? && Step(l, c).outcome.Done?
    ensures Conforms(l.net.contracts, Step(l, c).outcome.row)
  {
    if c.Submitting? {
      SubmittedConforms(l, c.submit);
      hide Submit;
      hide Conforms;
    } else {
      StepAppends(l, c);
      OthersConform(l.net.contracts, Step(l, c).outcome.row);
      hide Step;
      hide FreshRows;
    }
  }

  lemma FreshConforms(l: Ledger, c: Command, i: nat)
    requires c.Valid() && CatalogueSound(l) && i < |FreshRows(l, c)|
    ensures Conforms(l.net.contracts, FreshRows(l, c)[i])
  {
    hide *;
    if c.Arbitrating? {
      BatchConforms(l, c, i);
    } else {
      FreshOnlyIfDone(l, c);
      FreshNonEmpty(l, c);
      OwnConforms(l, c);
      if i > 0 {
        FreshTables(l, c, i);
      }
    }
  }

  lemma StepKeepsConformance(l: Ledger, c: Command)
    requires c.Valid() && CatalogueSound(l) && AllConform(l.net.contracts, l.rows)
    ensures AllConform(Step(l, c).ledger.net.contracts, Step(l, c).ledger.rows)
  {
    hide Step;
    hide FreshRows;
    hide CatalogueSound;
    hide Conforms;
    StepAppends(l, c);
    ContractsFixed(l, c);
    var after, added := Step(l, c).ledger.rows, FreshRows(l, c);
    forall i | 0 <= i < |after| ensures Conforms(l.net.contracts, after[i]) {
      if i >= |l.rows| {
        FreshConforms(l, c, i - |l.rows|);
      }
    }
  }

  lemma ConformanceAtStart(create: NetworkCreate)
    ensures AllConform(Created(create).net.contracts, Created(create).rows)
  {}

  /** Over every run, every recorded transmission, submitted or arbitrated, is one its frame contract allows. */
  lemma {:induction false} ConformanceOverRuns(create: NetworkCreate, cs: seq<Command>, k: nat)
    requires AllValid(cs) && k <= |cs|
    ensures var l := Run(Created(create), cs, k);
            AllConform(l.net.contracts, l.rows)
  {
    hide *;
    ConformanceAtStart(create);
    StartLedger(Created(create), cs);
    if k > 0 {
      ConformanceOverRuns(create, cs, k - 1);
      NextLedger(Created(create), cs, k - 1);
      StepKeepsConformance(Run(Created(create), cs, k - 1), cs[k - 1]);
    }
  }

  // ---------- transmission ids ----------

  /** A transmission recorded by an arbitration carries an id made from the id of a recorded arbitration. */
  ghost predicate Owned(rows: seq<Row>, row: Row) {
    row.TransmissionRow? && row.request.Arbitrated? ==>
      && Find(rows, Arbitrations, row.request.arbitrationId).Some?
      && exists rank :: row.commandId == TransmissionId(row.request.arbitrationId, rank)
  }

  ghost predicate AllOwned(rows: seq<Row>) {
    forall i :: 0 <= i < |rows| ==> Owned(rows, rows[i])
  }

  lemma OwnedLater(rows: seq<Row>, more: seq<Row>, row: Row)
    requires Owned(rows, row) && rows <= more
    ensures Owned(more, row)
  {
    if row.TransmissionRow? && row.request.Arbitrated? {
      FoundLater(rows, more, Arbitrations, row.request.arbitrationId);
    }
  }

  lemma FreshOwned(l: Ledger, c: Command, i: nat)
    requires c.Valid() && CatalogueSound(l) && i < |FreshRows(l, c)|
    ensures Owned(Step(l, c).ledger.rows, FreshRows(l, c)[i])
  {
    StepAppends(l, c);
    if i > 0 {
      FreshTables(l, c, i);
      BatchOwned(l, c, i);
    } else {
      OwnRowDirect(l, c);
    }
    hide Step;
    hide FreshRows;
  }

  lemma OwnRowDirect(l: Ledger, c: Command)
    requires c.Valid() && CatalogueSound(l) && Step(l, c).outcome.Done?
    ensures Step(l, c).outcome.row.TransmissionRow? ==> Step(l, c).outcome.row.request.Direct?
  {
    OwnRowVersion(l, c);
    StepAppends(l, c);
    hide Step;
    hide FreshRows;
  }

  lemma BatchOwned(l: Ledger, c: Command, i: nat)
    requires c.Arbitrating? && c.Valid() && CatalogueSound(l) && 0 < i < |FreshRows(l, c)|
    ensures Owned(Step(l, c).ledger.rows, FreshRows(l, c)[i])
  {
    BatchKey(c);
    BatchValid(c);
    hide Step;
    hide FreshRows;
    hide BatchSlots;
    hide TransmissionsOf;
    hide TransmissionId;
    hide CatalogueSound;
    hide ResolveUpTo;
    hide Find;
    BatchRowAt(l, c, i);
    RecordedNext(l, c);
    TransmissionAt(l.net, c.batch, BatchSlots(l.net, c.batch), i - 1);
  }

  lemma BatchKey(c: Command)
    requires c.Arbitrating?
    ensures c.Table() == Arbitrations && c.Key() == c.batch.commandId
  {}

  lemma StepKeepsOwned(l: Ledger, c: Command)
    requires c.Valid() && CatalogueSound(l) && AllOwned(l.rows)
    ensures AllOwned(Step(l, c).ledger.rows)
  {
    hide Step;
    hide FreshRows;
    hide CatalogueSound;
    hide Owned;
    StepAppends(l, c);
    var after, added := Step(l, c).ledger.rows, FreshRows(l, c);
    forall i | 0 <= i < |after| ensures Owned(after, after[i]) {
      if i < |l.rows| {
        OwnedLater(l.rows, after, l.rows[i]);
      } else {
        FreshOwned(l, c, i - |l.rows|);
      }
    }
  }

  lemma OwnedAtStart(create: NetworkCreate)
    ensures AllOwned(Created(create).rows)
  {}

  lemma {:induction false} OwnedOverRuns(create: NetworkCreate, cs: seq<Command>, k: nat)
    requires AllValid(cs) && k <= |cs|
    ensures AllOwned(Run(Created(create), cs, k).rows)
  {
    hide *;
    OwnedAtStart(create);
    StartLedger(Created(create), cs);
    if k > 0 {
      OwnedOverRuns(create, cs, k - 1);
      NextLedger(Created(create), cs, k - 1);
      StepKeepsOwned(Run(Created(create), cs, k - 1), cs[k - 1]);
    }
  }

  /** A submitted frame took one of the ids the n frames of this arbitration would get. */
  ghost predicate Squatted(rows: seq<Row>, arbitrationId: string, n: nat) {
    exists i, rank :: 0 <= i < |rows| && 1 <= rank <= n
                      && rows[i].TransmissionRow? && rows[i].request.Direct?
                      && rows[i].commandId == TransmissionId(arbitrationId, rank)
  }

  /**
   * Exactly when an arbitration that is otherwise in order fails on the unique constraint of its
   * transmissions: some earlier submission carries an id of the form arb:<command id>:<rank>. Two
   * arbitrations never collide with each other.
   */
  lemma CollidesOnlyWithSubmissions(l: Ledger, c: ArbitrationCommand)
    requires c.Valid() && AllOwned(l.rows)
    requires Find(l.rows, Arbitrations, c.commandId).None? && c.expectedVersion == l.net.version
    requires ResolveUpTo(l.net, c.contenders, |c.contenders|).Ok?
    ensures ExecuteArbitration(l, c).outcome.Done? <==> !Squatted(l.rows, c.commandId, |c.contenders|)
    ensures Squatted(l.rows, c.commandId, |c.contenders|) ==>
              ExecuteArbitration(l, c) == Reject(l, DuplicateTransmission)
  {
    hide ResolveUpTo;
    hide BatchSlots;
    hide FramesOf;
    hide UtilizationOf;
    hide TransmissionsOf;
    hide Squatted;
    hide AnyRecorded;
    hide Find;
    BatchFeasible(l.net, c);
    RecordedIffSquatted(l, c, BatchSlots(l.net, c));
  }

  lemma RecordedIffSquatted(l: Ledger, c: ArbitrationCommand, slots: seq<Slot>)
    requires AllOwned(l.rows) && Find(l.rows, Arbitrations, c.commandId).None?
    ensures AnyRecorded(l.rows, TransmissionsOf(l.net, c, slots)) <==> Squatted(l.rows, c.commandId, |slots|)
  {
    hide TransmissionId;
    hide Find;
    hide TransmissionsOf;
    var added := TransmissionsOf(l.net, c, slots);
    if AnyRecorded(l.rows, added) {
      assert |added| == |slots| by { AddedCount(l.net, c, slots); }
      var i :| 0 <= i < |added| && Find(l.rows, added[i].Table(), added[i].Key()).Some?;
      TransmissionAt(l.net, c, slots, i);
      TakenBySubmission(l.rows, c.commandId, i + 1);
    }
    if Squatted(l.rows, c.commandId, |slots|) {
      var i, rank :| 0 <= i < |l.rows| && 1 <= rank <= |slots| && l.rows[i].TransmissionRow?
                     && l.rows[i].request.Direct?
                     && l.rows[i].commandId == TransmissionId(c.commandId, rank);
      TransmissionAt(l.net, c, slots, rank - 1);
      FindIff(l.rows, Transmissions, TransmissionId(c.commandId, rank));
      assert l.rows[i].Is(Transmissions, TransmissionId(c.commandId, rank));
      assert Find(l.rows, added[rank - 1].Table(), added[rank - 1].Key()).Some?;
    }
  }

  /** In reachable networks nothing else can make an arbitration fail once its contenders resolve. */
  lemma CollisionsOverRuns(create: NetworkCreate, cs: seq<Command>, k: nat, c: ArbitrationCommand)
    requires AllValid(cs) && k <= |cs| && c.Valid()
    requires var l := Run(Created(create), cs, k);
             && Find(l.rows, Arbitrations, c.commandId).None? && c.expectedVersion == l.net.version
             && ResolveUpTo(l.net, c.contenders, |c.contenders|).Ok?
    ensures var l := Run(Created(create), cs, k);
            ExecuteArbitration(l, c).outcome.Done? <==> !Squatted(l.rows, c.commandId, |c.contenders|)
  {
    OwnedOverRuns(create, cs, k);
    CollidesOnlyWithSubmissions(Run(Created(create), cs, k), c);
  }

  lemma {:induction false} ResolvesStill(n: Net, m: Net, cs: seq<ContenderRequest>, k: nat)
    requires k <= |cs| && m.contracts == n.contracts && m.errorStates == n.errorStates
    ensures ResolveUpTo(n, cs, k).Ok? <==> ResolveUpTo(m, cs, k).Ok?
  {
    if k > 0 {
      ResolvesStill(n, m, cs, k - 1);
    }
  }

  lemma SubmitDone(l: Ledger, s: SubmitCommand)
    requires Submit(l, s).outcome.Done?
    ensures var a := Submit(l, s);
            && a.outcome.row.Is(Transmissions, s.commandId) && a.ledger.rows == l.rows + [a.outcome.row]
            && a.ledger.net.version == l.net.version + 1
            && a.ledger.net.contracts == l.net.contracts && a.ledger.net.errorStates == l.net.errorStates
            && Find(l.rows, Transmissions, s.commandId).None?
  {}

  lemma BatchAccepted(l: Ledger, c: ArbitrationCommand)
    requires c.Valid() && ExecuteArbitration(l, c).outcome.Done?
    ensures Find(l.rows, Arbitrations, c.commandId).None? && ResolveUpTo(l.net, c.contenders, |c.contenders|).Ok?
  {}

  lemma FirstIdTaken(l: Ledger, c: ArbitrationCommand, slots: seq<Slot>)
    requires slots != [] && Find(l.rows, Transmissions, TransmissionId(c.commandId, 1)).Some?
    ensures AnyRecorded(l.rows, TransmissionsOf(l.net, c, slots))
  {
    hide TransmissionId;
    hide TransmissionsOf;
    hide Find;
    var added := TransmissionsOf(l.net, c, slots);
    TransmissionAt(l.net, c, slots, 0);
    assert Find(l.rows, added[0].Table(), added[0].Key()).Some?;
  }

  /**
   * The collision is real: from any ledger, one accepted submission under the id of an arbitration's first
   * frame makes an arbitration that was acceptable before unacceptable after, at its then current version.
   */
  lemma OneSubmissionBlocks(l: Ledger, c: ArbitrationCommand, s: SubmitCommand)
    requires c.Valid() && ExecuteArbitration(l, c).outcome.Done?
    requires Submit(l, s).outcome.Done? && s.commandId == TransmissionId(c.commandId, 1)
    ensures var later := c.(expectedVersion := l.net.version + 1);
            ExecuteArbitration(Submit(l, s).ledger, later) == Reject(Submit(l, s).ledger, DuplicateTransmission)
  {
    hide Submit;
    hide Find;
    hide BatchSlots;
    hide TransmissionId;
    hide ResolveUpTo;
    hide FramesOf;
    hide UtilizationOf;
    hide TransmissionsOf;
    hide AnyRecorded;
    var m, later, row := Submit(l, s).ledger, c.(expectedVersion := l.net.version + 1), Submit(l, s).outcome.row;
    SubmitDone(l, s);
    BatchAccepted(l, c);
    ResolvesStill(l.net, m.net, c.contenders, |c.contenders|);
    FindAppend(l.rows, [row], Arbitrations, c.commandId);
    FindAppend(l.rows, [row], Transmissions, s.commandId);
    FindSingle(row, s.commandId);
    FirstIdTaken(m, later, BatchSlots(m.net, later));
  }

  /**
   * The first frame of an arbitration, submitted on its own under the id that the arbitration would give its first
   * frame.
   */
  function FirstFrame(l: Ledger, c: ArbitrationCommand): SubmitCommand
    requires c.Valid()
  {
    var first := c.contenders[0];
    SubmitCommand(TransmissionId(c.commandId, 1), l.net.version, first.contractId, first.producer, first.payload, 0)
  }

  lemma FirstIdFree(l: Ledger, c: ArbitrationCommand)
    requires c.Valid() && ExecuteArbitration(l, c).outcome.Done?
    ensures Find(l.rows, Transmissions, TransmissionId(c.commandId, 1)).None?
  {
    hide Find;
    hide ResolveUpTo;
    hide TransmissionId;
    hide BatchSlots;
    hide FramesOf;
    hide UtilizationOf;
    hide AnyRecorded;
    hide TransmissionsOf;
    BatchAccepted(l, c);
    var slots := BatchSlots(l.net, c);
    NotRecorded(l.rows, TransmissionsOf(l.net, c, slots));
    TransmissionAt(l.net, c, slots, 0);
    assert Find(l.rows, TransmissionsOf(l.net, c, slots)[0].Table(), TransmissionsOf(l.net, c, slots)[0].Key()).None?;
  }

  lemma FirstFrameAccepted(l: Ledger, c: ArbitrationCommand)
    requires c.Valid() && ExecuteArbitration(l, c).outcome.Done?
    ensures Submit(l, FirstFrame(l, c)).outcome.Done?
  {
    FirstIdFree(l, c);
    BatchAccepted(l, c);
    hide ExecuteArbitration;
    hide ResolveUpTo;
    hide TransmissionId;
    hide Find;
    hide FindContract;
    ResolvedContenders(l.net, c.contenders, |c.contenders|);
    assert Resolve(l.net, c.contenders[0]).Ok?;
  }

  /**
   * There always is such a submission: every acceptable arbitration is made unacceptable by first submitting
   * one of its own frames, which is accepted, under the id of its first transmission.
   */
  lemma AlwaysBlockable(l: Ledger, c: ArbitrationCommand)
    requires c.Valid() && ExecuteArbitration(l, c).outcome.Done?
    ensures var after := Submit(l, FirstFrame(l, c));
            && after.outcome.Done?
            && ExecuteArbitration(after.ledger, c.(expectedVersion := l.net.version + 1)) ==
                 Reject(after.ledger, DuplicateTransmission)
  {
    FirstFrameAccepted(l, c);
    OneSubmissionBlocks(l, c, FirstFrame(l, c));
    hide Submit;
    hide ExecuteArbitration;
  }

  /** One node that produces one empty frame. */
  function SmallNetwork(): NetworkCreate {
    NetworkCreate(Rates(500, None), [Node("ecu", Participant)],
                  [FrameContract("status", 1, Standard, Classic, 0, false, "ecu", [])])
  }

  function SmallBatch(): ArbitrationCommand {
    ArbitrationCommand("batch-01", 1, [ContenderRequest("status", "ecu", [], 0)])
  }

  /** A concrete collision, from a newly created network. */
  lemma CollisionHappens()
    ensures SmallBatch().Valid()
    ensures var l := Created(SmallNetwork());
            && ExecuteArbitration(l, SmallBatch()).outcome.Done?
            && var after := Submit(l, FirstFrame(l, SmallBatch()));
               && after.outcome.Done?
               && ExecuteArbitration(after.ledger, SmallBatch().(expectedVersion := 2)) ==
                    Reject(after.ledger, DuplicateTransmission)
  {
    var l, c := Created(SmallNetwork()), SmallBatch();
    assert Resolve(l.net, c.contenders[0]).Ok?;
    ResolvedContenders(l.net, c.contenders, 1);
    EmptyTables(TransmissionsOf(l.net, c, BatchSlots(l.net, c)));
    hide BatchSlots;
    hide ResolveUpTo;
    hide TransmissionsOf;
    hide AnyRecorded;
    hide UtilizationOf;
    hide FramesOf;
    assert ExecuteArbitration(l, c).outcome.Done?;
    AlwaysBlockable(l, c);
    hide ExecuteArbitration;
    hide Submit;
  }

  lemma EmptyTables(added: seq<Row>)
    ensures !AnyRecorded([], added)
  {}

  lemma FindSingle(row: Row, key: string)
    requires row.Is(Transmissions, key)
    ensures Find([row], Transmissions, key) == Some(row)
    ensures forall k :: Find([row], Arbitrations, k).None?
  {}

  lemma AddedCount(n: Net, c: ArbitrationCommand, slots: seq<Slot>)
    ensures |TransmissionsOf(n, c, slots)| == |slots|
  {}

  lemma TakenBySubmission(rows: seq<Row>, arbitrationId: string, rank: nat)
    requires AllOwned(rows) && Find(rows, Arbitrations, arbitrationId).None?
    requires Find(rows, Transmissions, TransmissionId(arbitrationId, rank)).Some?
    ensures exists i :: 0 <= i < |rows| && rows[i].TransmissionRow? && rows[i].request.Direct?
                        && rows[i].commandId == TransmissionId(arbitrationId, rank)
  {
    hide TransmissionId;
    hide Find;
    FindIff(rows, Transmissions, TransmissionId(arbitrationId, rank));
    var row := Find(rows, Transmissions, TransmissionId(arbitrationId, rank)).value;
    var i :| 0 <= i < |rows| && rows[i] == row;
    assert Owned(rows, rows[i]);
    if row.request.Arbitrated? {
      var other :| row.commandId == TransmissionId(row.request.arbitrationId, other);
      TransmissionIdInjective(arbitrationId, rank, row.request.arbitrationId, other);
    }
  }

  // ---------- the catalogue ----------

  lemma {:induction false} ContractsOverRuns(l: Ledger, cs: seq<Command>, j: nat, k: nat)
    requires CatalogueSound(l) && AllValid(cs) && j <= k <= |cs|
    ensures Run(l, cs, k).net.contracts == Run(l, cs, j).net.contracts
  {
    hide *;
    if j < k {
      ContractsOverRuns(l, cs, j, k - 1);
      NextLedger(l, cs, k - 1);
      ContractsFixed(Run(l, cs, k - 1), cs[k - 1]);
    }
  }

  lemma {:induction false} CatalogueOverRuns(l: Ledger, cs: seq<Command>, j: nat, k: nat)
    requires CatalogueSound(l) && AllValid(cs) && j <= k <= |cs|
    ensures Find(Run(l, cs, j).rows, Catalogues, "").Some? ==>
            Find(Run(l, cs, k).rows, Catalogues, "") == Find(Run(l, cs, j).rows, Catalogues, "")
  {
    hide *;
    RunAppends(l, cs, j, k);
    if Find(Run(l, cs, j).rows, Catalogues, "").Some? {
      FoundLater(Run(l, cs, j).rows, Run(l, cs, k).rows, Catalogues, "");
    }
  }

  /**
   * Evidence stays decodable: a payload encoded by command j decodes to the same values at any later point of any
   * run.
   */
  lemma RoundTripOverRuns(l: Ledger, cs: seq<Command>, j: nat, k: nat, decodeId: string)
    requires CatalogueSound(l) && AllValid(cs) && j < k <= |cs|
    requires cs[j].Coding? && cs[j].codec.EncodeRequest?
    requires ExecuteCodec(Run(l, cs, j), cs[j].codec).outcome.Done?
    requires Find(Run(l, cs, k).rows, CodecExecutions, decodeId).None?
    ensures var c, row := cs[j].codec, ExecuteCodec(Run(l, cs, j), cs[j].codec).outcome.row;
            row.CodecRow? &&
            var decoded := ExecuteCodec(Run(l, cs, k), DecodeRequest(decodeId, c.contractId, row.payload)).outcome;
            decoded.Done? && decoded.row.CodecRow? && decoded.row.raws == row.raws && decoded.row.physicals == c.values
  {
    hide *;
    ContractsOverRuns(l, cs, j, k);
    CatalogueOverRuns(l, cs, j, k);
    CodecRoundTrip(Run(l, cs, j), Run(l, cs, k), cs[j].codec, decodeId);
  }
}
