/** Runs of commands: what the recorded rows keep over every sequence of commands. */
module Runs {
  import opened Basics
  import opened Store
  import opened ArbitrationService
  import opened DbcService
  import opened Commands

  lemma {:induction false} NotFound(rows: seq<Row>, t: Table, key: string)
    requires forall i :: 0 <= i < |rows| ==> rows[i].Table() != t
    ensures Find(rows, t, key).None?
  {
    FindIff(rows, t, key);
  }

  /** The rows a step adds besides its own are transmissions. */
  lemma FreshTables(l: Ledger, c: Command, i: nat)
    requires c.Valid() && CatalogueSound(l) && 0 < i < |FreshRows(l, c)|
    ensures c.Arbitrating? && FreshRows(l, c)[i].Table() == Transmissions
  {
    hide Step;
    hide BatchSlots;
  }

  lemma ContractsFixed(l: Ledger, c: Command)
    requires c.Valid() && CatalogueSound(l)
    ensures Step(l, c).ledger.net.contracts == l.net.contracts
  {
    hide Find;
    hide CatalogueSound;
    hide BatchSlots;
    match c
    case Coding(x) => CodecLeavesNetwork(l, x);
    case _ =>
  }

  /** Every step keeps the stored catalogue sound, so codec commands always index within their payload. */
  lemma StepKeepsCatalogue(l: Ledger, c: Command)
    requires c.Valid() && CatalogueSound(l)
    ensures CatalogueSound(Step(l, c).ledger)
  {
    if c.Cataloguing? {
      CatalogueAcceptsExactly(l, c.catalogue);
    } else {
      StepAppends(l, c);
      FindAppend(l.rows, FreshRows(l, c), Catalogues, "");
      forall i | 0 <= i < |FreshRows(l, c)| ensures FreshRows(l, c)[i].Table() != Catalogues {
        if i > 0 {
          FreshTables(l, c, i);
        }
      }
      NotFound(FreshRows(l, c), Catalogues, "");
      CatalogueFramed(l, c);
    }
  }

  lemma CatalogueFramed(l: Ledger, c: Command)
    requires c.Valid() && CatalogueSound(l)
    requires Find(Step(l, c).ledger.rows, Catalogues, "") == Find(l.rows, Catalogues, "")
    ensures CatalogueSound(Step(l, c).ledger)
  {
    ContractsFixed(l, c);
    hide Step;
    hide Find;
  }

  // ---------- runs ----------

  ghost predicate AllValid(cs: seq<Command>) {
    forall i :: 0 <= i < |cs| ==> cs[i].Valid()
  }

  /** The ledger after the first k commands. */
  ghost function Run(l: Ledger, cs: seq<Command>, k: nat): (after: Ledger)
    requires CatalogueSound(l) && AllValid(cs) && k <= |cs|
    ensures CatalogueSound(after)
  {
    if k == 0 then l else
      var before := Run(l, cs, k - 1);
      StepKeepsCatalogue(before, cs[k - 1]);
      Step(before, cs[k - 1]).ledger
  }

  /** A newly created network, with nothing recorded yet. */
  ghost function Created(c: NetworkCreate): (l: Ledger)
    ensures CatalogueSound(l)
  {
    Ledger(InitialNet(c), [])
  }

  /** One more command is one more step. */
  lemma NextLedger(l: Ledger, cs: seq<Command>, j: nat)
    requires CatalogueSound(l) && AllValid(cs) && j < |cs|
    ensures cs[j].Valid()
    ensures Run(l, cs, j + 1) == Step(Run(l, cs, j), cs[j]).ledger
  {}

  lemma StartLedger(l: Ledger, cs: seq<Command>)
    requires CatalogueSound(l) && AllValid(cs)
    ensures Run(l, cs, 0) == l
  {}

  lemma {:induction false} RunAppends(l: Ledger, cs: seq<Command>, j: nat, k: nat)
    requires CatalogueSound(l) && AllValid(cs) && j <= k <= |cs|
    ensures Run(l, cs, j).rows <= Run(l, cs, k).rows
  {
    hide *;
    if j < k {
      RunAppends(l, cs, j, k - 1);
      NextLedger(l, cs, k - 1);
      StepAppends(Run(l, cs, k - 1), cs[k - 1]);
    }
  }

  // ---------- retries ----------

  lemma FoundLater(before: seq<Row>, after: seq<Row>, t: Table, key: string)
    requires before <= after && Find(before, t, key).Some?
    ensures Find(after, t, key) == Find(before, t, key)
  {}

  lemma RecordedNext(l: Ledger, c: Command)
    requires c.Valid() && CatalogueSound(l)
    requires Step(l, c).outcome.Done?
    ensures Find(Step(l, c).ledger.rows, c.Table(), c.Key()) == Some(Step(l, c).outcome.row)
    ensures c.RecordedIn(Step(l, c).outcome.row)
  {
    StepAppends(l, c);
    LookupComesFirst(l, c);
    FindAppend(l.rows, FreshRows(l, c), c.Table(), c.Key());
    hide Step;
    hide FreshRows;
  }

  /**
   * However many commands come in between, repeating a command that took effect returns the row recorded
   * then and changes nothing, and any different command under its id is refused and changes nothing.
   */
  lemma RetryReplays(l: Ledger, cs: seq<Command>, j: nat, k: nat)
    requires CatalogueSound(l) && AllValid(cs) && j < k < |cs|
    requires Step(Run(l, cs, j), cs[j]).outcome.Done?
    requires cs[k].Table() == cs[j].Table() && cs[k].Key() == cs[j].Key()
    ensures var row := Step(Run(l, cs, j), cs[j]).outcome.row;
            Step(Run(l, cs, k), cs[k]) ==
            Applied(Run(l, cs, k), if cs[k] == cs[j] && !cs[k].Cataloguing? then Replayed(row)
                    else Rejected(cs[k].Conflict()))
  {
    hide *;
    NextLedger(l, cs, j);
    NextLedger(l, cs, k);
    RecordedNext(Run(l, cs, j), cs[j]);
    RunAppends(l, cs, j + 1, k);
    FoundLater(Run(l, cs, j + 1).rows, Run(l, cs, k).rows, cs[j].Table(), cs[j].Key());
    LookupComesFirst(Run(l, cs, k), cs[k]);
    if !cs[k].Cataloguing? {
      SameTable(cs[j], cs[k]);
      RecordedDetermines(cs[j], cs[k], Step(Run(l, cs, j), cs[j]).outcome.row);
    }
  }

  lemma SameTable(c: Command, d: Command)
    requires c.Table() == d.Table()
    ensures c.Cataloguing? <==> d.Cataloguing?
  {}

  lemma RecordedDetermines(c: Command, d: Command, row: Row)
    requires c.RecordedIn(row) && c.Table() == d.Table() && !c.Cataloguing?
    ensures d.RecordedIn(row) <==> d == c
  {}
}
