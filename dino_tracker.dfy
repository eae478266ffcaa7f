/**
 * The dino tracker's record store: the `accounts`, `dino_records` and
 * `mutations` tables, the option lists of the selection prompts, the
 * `update_dino` write and the `server_info` report. Prompt answers are
 * parameters; the tables are sequences that the methods reassign.
 */
module DinoTracker {
  import opened Wrappers
  import opened Basics
  import Catalog

  /** The value of `datetime.now()` at write time, supplied by the caller. */
  type Timestamp = int

  /** The account name used when a user picks no alternate account. */
  const MainAccount: string := "main"

  /** A row of `accounts`; (discord_id, account_name) is its primary key. */
  datatype AccountRow = AccountRow(user: UserId, name: string)

  /** A row of `dino_records`; `id` is the autoincrement key. */
  datatype DinoRecord = DinoRecord(
    id: nat,
    user: UserId,
    account: string,
    server: string,
    dinosaur: string,
    isNested: bool,
    updated: Timestamp)

  /** A row of `mutations`, referencing a `dino_records` id. */
  datatype MutationRow = MutationRow(recordId: nat, mutation: string)

  /** The two buttons of the "Is the dinosaur nested?" prompt. */
  datatype Button = YesButton | NoButton

  /** The value of one embed field of the server report. */
  datatype FieldValue =
    | NoData                                  // "No data available"
    | Counts(rows: seq<(string, nat)>)        // one (dinosaur, COUNT(*)) per group

  datatype Field = Field(server: string, value: FieldValue)

  /** How `update_dino` ends: the record written, or the mutation prompt raising. */
  datatype UpdateOutcome =
    | Updated(account: string, recordId: nat)
    | MutationPromptRaised

  datatype ServerInfoReply =
    | InvalidRegion(choices: seq<string>)     // the region names offered in the error
    | Report(region: string, fields: seq<Field>)

  // ---------------------------------------------------------------------------
  // accounts

  /** `SELECT account_name FROM accounts WHERE discord_id = ?`, in stored order. */
  function NamesOf(rows: seq<AccountRow>, user: UserId): (r: seq<string>)
    ensures |r| <= |rows|
    ensures forall k :: 0 <= k < |r| ==> AccountRow(user, r[k]) in rows
  {
    if rows == [] then []
    else
      var last := rows[|rows| - 1];
      NamesOf(rows[..|rows| - 1], user) + (if last.user == user then [last.name] else [])
  }

  /** A name is listed for a user exactly when that (user, name) row is stored. */
  lemma {:induction false} NamesOfMembership(rows: seq<AccountRow>, user: UserId, name: string)
    ensures name in NamesOf(rows, user) <==> AccountRow(user, name) in rows
  {
    if rows != [] {
      var init := rows[..|rows| - 1];
      NamesOfMembership(init, user, name);
      assert rows == init + [rows[|rows| - 1]];
    }
  }

  /** `INSERT OR IGNORE`: a row whose primary key is already present is not inserted again. */
  function InsertOrIgnore(rows: seq<AccountRow>, row: AccountRow): (r: seq<AccountRow>)
    ensures row in r
    ensures forall x :: x in r <==> x in rows || x == row
    ensures NoDuplicates(rows) ==> NoDuplicates(r)
  {
    if row in rows then rows else rows + [row]
  }

  /** In a table without duplicate keys, a present row occurs exactly once. */
  lemma {:induction false} OccursOnce(rows: seq<AccountRow>, row: AccountRow)
    requires NoDuplicates(rows) && row in rows
    ensures multiset(rows)[row] == 1
  {
    var last := rows[|rows| - 1];
    var init := rows[..|rows| - 1];
    assert rows == init + [last];
    assert NoDuplicates(init);
    if last == row {
      assert row !in init;
    } else {
      OccursOnce(init, row);
    }
  }

  /**
   * `add_alt` is idempotent: adding the same (user, name) twice leaves the
   * table as adding it once, with exactly one such row.
   */
  lemma AddAltTwice(rows: seq<AccountRow>, row: AccountRow)
    requires NoDuplicates(rows)
    ensures InsertOrIgnore(InsertOrIgnore(rows, row), row) == InsertOrIgnore(rows, row)
    ensures multiset(InsertOrIgnore(InsertOrIgnore(rows, row), row))[row] == 1
  {
    OccursOnce(InsertOrIgnore(rows, row), row);
  }

  /**
   * The options of the account prompt: the user's account names in stored
   * order, then the main account last.
   */
  function AccountOptions(names: seq<string>): (r: seq<string>)
    ensures |r| == |names| + 1 && r[|names|] == MainAccount
    ensures forall k :: 0 <= k < |names| ==> r[k] == names[k]
  {
    names + [MainAccount]
  }

  // ---------------------------------------------------------------------------
  // mutations

  /** One `mutations` row per chosen mutation, all referencing record `id`. */
  function MutationRowsFor(id: nat, chosen: seq<string>): (r: seq<MutationRow>)
    ensures |r| == |chosen|
    ensures forall k :: 0 <= k < |r| ==> r[k].recordId == id && r[k].mutation == chosen[k]
  {
    seq(|chosen|, k requires 0 <= k < |chosen| => MutationRow(id, chosen[k]))
  }

  lemma MutationRowsForSnoc(id: nat, chosen: seq<string>, m: string)
    ensures MutationRowsFor(id, chosen + [m]) == MutationRowsFor(id, chosen) + [MutationRow(id, m)]
  {
  }

  // ---------------------------------------------------------------------------
  // dino_records and the server report

  /** Record ids are positive, below the next autoincrement value, and increase with insertion. */
  predicate IdsIncreasing(records: seq<DinoRecord>, nextId: nat)
  {
    0 < nextId
    && (forall i :: 0 <= i < |records| ==> 0 < records[i].id < nextId)
    && (forall i, j :: 0 <= i < j < |records| ==> records[i].id < records[j].id)
  }

  /** Every mutation row references a nested record. */
  predicate MutationsOfNested(mutations: seq<MutationRow>, records: seq<DinoRecord>)
  {
    forall k :: 0 <= k < |mutations| ==> NestedRecordFor(records, mutations[k])
  }

  predicate NestedRecordFor(records: seq<DinoRecord>, m: MutationRow)
  {
    exists i :: 0 <= i < |records| && records[i].id == m.recordId && records[i].isNested
  }

  lemma NestedRecordForExtend(records: seq<DinoRecord>, r: DinoRecord, m: MutationRow)
    requires NestedRecordFor(records, m)
    ensures NestedRecordFor(records + [r], m)
  {
    var i :| 0 <= i < |records| && records[i].id == m.recordId && records[i].isNested;
    assert (records + [r])[i] == records[i];
  }

  /** Inserting a record with the next id keeps the table invariants. */
  lemma AppendRecord(records: seq<DinoRecord>, nextId: nat, mutations: seq<MutationRow>, r: DinoRecord)
    requires IdsIncreasing(records, nextId) && MutationsOfNested(mutations, records)
    requires r.id == nextId
    ensures IdsIncreasing(records + [r], nextId + 1)
    ensures MutationsOfNested(mutations, records + [r])
  {
    forall k | 0 <= k < |mutations|
      ensures NestedRecordFor(records + [r], mutations[k])
    {
      NestedRecordForExtend(records, r, mutations[k]);
    }
  }

  /** A mutation row referencing the last record, a nested one, keeps the invariant. */
  lemma AppendMutation(mutations: seq<MutationRow>, records: seq<DinoRecord>, m: MutationRow)
    requires MutationsOfNested(mutations, records)
    requires records != [] && records[|records| - 1].id == m.recordId && records[|records| - 1].isNested
    ensures MutationsOfNested(mutations + [m], records)
  {
    assert NestedRecordFor(records, m);
  }

  /** A record stored as not nested has no mutation rows. */
  lemma NotNestedHasNoMutations(records: seq<DinoRecord>, nextId: nat, mutations: seq<MutationRow>, i: nat)
    requires IdsIncreasing(records, nextId) && MutationsOfNested(mutations, records)
    requires i < |records| && !records[i].isNested
    ensures forall k :: 0 <= k < |mutations| ==> mutations[k].recordId != records[i].id
  {
    forall k | 0 <= k < |mutations|
      ensures mutations[k].recordId != records[i].id
    {
      assert NestedRecordFor(records, mutations[k]);
      var j :| 0 <= j < |records| && records[j].id == mutations[k].recordId && records[j].isNested;
      assert j != i;
    }
  }

  /** `COUNT(*)` of the records on `server` with `dinosaur`. */
  function CountOf(records: seq<DinoRecord>, server: string, dinosaur: string): (r: nat)
    ensures r <= |records|
  {
    if records == [] then 0
    else
      var last := records[|records| - 1];
      CountOf(records[..|records| - 1], server, dinosaur)
        + (if last.server == server && last.dinosaur == dinosaur then 1 else 0)
  }

  /** The `GROUP BY dinosaur` keys of the records on `server`, in order of first appearance. */
  function DinosaursOn(records: seq<DinoRecord>, server: string): (r: seq<string>)
    ensures |r| <= |records|
    ensures forall k :: 0 <= k < |r| ==> CountOf(records, server, r[k]) > 0
  {
    if records == [] then []
    else
      var groups := DinosaursOn(records[..|records| - 1], server);
      var last := records[|records| - 1];
      if last.server == server && last.dinosaur !in groups then groups + [last.dinosaur] else groups
  }

  /** Some record is on `server` with `dinosaur`. */
  predicate Seen(records: seq<DinoRecord>, server: string, dinosaur: string)
  {
    exists i :: 0 <= i < |records| && records[i].server == server && records[i].dinosaur == dinosaur
  }

  /**
   * The groups of a server are distinct, and a dinosaur is a group exactly when
   * some record on that server has it, which is exactly when its count is positive.
   */
  lemma {:induction false} DinosaursOnMeaning(records: seq<DinoRecord>, server: string)
    ensures NoDuplicates(DinosaursOn(records, server))
    ensures forall d :: d in DinosaursOn(records, server) <==> Seen(records, server, d)
    ensures forall d :: CountOf(records, server, d) > 0 <==> Seen(records, server, d)
  {
    if records != [] {
      var init := records[..|records| - 1];
      var last := records[|records| - 1];
      DinosaursOnMeaning(init, server);
      forall d
        ensures Seen(records, server, d) <==> Seen(init, server, d) || (last.server == server && last.dinosaur == d)
      {
        if Seen(records, server, d) {
          var i :| 0 <= i < |records| && records[i].server == server && records[i].dinosaur == d;
          if i < |init| {
            assert init[i] == records[i];
          }
        }
        if Seen(init, server, d) {
          var i :| 0 <= i < |init| && init[i].server == server && init[i].dinosaur == d;
          assert records[i] == init[i];
        }
      }
    }
  }

  /** A server has no `GROUP BY` group exactly when no record is on it. */
  lemma NoGroupsMeaning(records: seq<DinoRecord>, server: string)
    ensures DinosaursOn(records, server) == [] <==> forall i :: 0 <= i < |records| ==> records[i].server != server
  {
    DinosaursOnMeaning(records, server);
    if DinosaursOn(records, server) == [] {
      forall i | 0 <= i < |records|
        ensures records[i].server != server
      {
        if records[i].server == server {
          assert Seen(records, server, records[i].dinosaur);
        }
      }
    } else {
      assert Seen(records, server, DinosaursOn(records, server)[0]);
    }
  }

  /** The embed field of one server: its (dinosaur, count) groups, or "No data available". */
  function Summary(records: seq<DinoRecord>, server: string): (r: FieldValue)
    ensures r.NoData? <==> forall i :: 0 <= i < |records| ==> records[i].server != server
  {
    NoGroupsMeaning(records, server);
    var groups := DinosaursOn(records, server);
    if groups == [] then NoData
    else Counts(seq(|groups|, k requires 0 <= k < |groups| => (groups[k], CountOf(records, server, groups[k]))))
  }

  /** What a server's field says about the records. */
  ghost predicate Summarises(records: seq<DinoRecord>, server: string, value: FieldValue)
  {
    match value
    case NoData =>
      forall i :: 0 <= i < |records| ==> records[i].server != server
    case Counts(rows) =>
      rows != []
      && (forall j, k :: 0 <= j < k < |rows| ==> rows[j].0 != rows[k].0)
      && (forall k :: 0 <= k < |rows| ==> rows[k].1 == CountOf(records, server, rows[k].0) && rows[k].1 > 0)
      && (forall d :: Seen(records, server, d) <==> exists k :: 0 <= k < |rows| && rows[k].0 == d)
  }

  /** A server's field is "No data available" exactly when no record is on it, else it holds every count. */
  lemma SummaryMeaning(records: seq<DinoRecord>, server: string)
    ensures Summarises(records, server, Summary(records, server))
  {
    var groups := DinosaursOn(records, server);
    DinosaursOnMeaning(records, server);
    if groups != [] {
      var rows := Summary(records, server).rows;
      forall d
        ensures Seen(records, server, d) <==> exists k :: 0 <= k < |rows| && rows[k].0 == d
      {
        if d in groups {
          var k :| 0 <= k < |groups| && groups[k] == d;
          assert rows[k].0 == d;
        }
      }
    }
  }

  /**
   * A new record raises the count of its (server, dinosaur) by one and leaves
   * every other count alone, and its server's field then has data.
   */
  lemma CountAfterInsert(records: seq<DinoRecord>, r: DinoRecord, server: string, dinosaur: string)
    ensures CountOf(records + [r], server, dinosaur)
      == CountOf(records, server, dinosaur) + (if r.server == server && r.dinosaur == dinosaur then 1 else 0)
    ensures Summary(records + [r], r.server).Counts?
  {
    var after := records + [r];
    assert after[..|records|] == records;
    assert after[|records|] == r;
    DinosaursOnMeaning(after, r.server);
    assert Seen(after, r.server, r.dinosaur);
  }

  // ---------------------------------------------------------------------------
  // option builders

  /** `select_server`'s options: every region's servers, flattened in catalog order. */
  method SelectServerOptions() returns (options: seq<string>)
    ensures options == Catalog.Flatten(Catalog.EvrimaServers)
    ensures forall s :: s in options <==>
      exists i :: 0 <= i < |Catalog.EvrimaServers| && s in Catalog.EvrimaServers[i].1
    ensures |options| == 17 && NoDuplicates(options)
  {
    options := Catalog.FlattenOptions(Catalog.EvrimaServers);
    Catalog.ServerCatalogShape();
  }

  /** `select_dinosaur`'s options: every category's dinosaurs, flattened in catalog order. */
  method SelectDinosaurOptions() returns (options: seq<string>)
    ensures options == Catalog.Flatten(Catalog.Dinosaurs)
    ensures forall d :: d in options <==>
      exists i :: 0 <= i < |Catalog.Dinosaurs| && d in Catalog.Dinosaurs[i].1
    ensures |options| == 16 && NoDuplicates(options)
  {
    options := Catalog.FlattenOptions(Catalog.Dinosaurs);
    Catalog.DinosaurCatalogShape();
  }

  // ---------------------------------------------------------------------------
  // the store

  class DinoStore {
    var accounts: seq<AccountRow>
    var records: seq<DinoRecord>
    var mutations: seq<MutationRow>
    /** The next `dino_records` id (SQLite's sequence for the AUTOINCREMENT key). */
    var nextId: nat

    ghost predicate Valid()
      reads this
    {
      NoDuplicates(accounts)
      && IdsIncreasing(records, nextId)
      && MutationsOfNested(mutations, records)
    }

    /** `create_tables` on an empty database: three empty tables. */
    constructor ()
      ensures Valid()
      ensures accounts == [] && records == [] && mutations == []
    {
      accounts, records, mutations := [], [], [];
      nextId := 1;
    }

    /** `add_alt`: `INSERT OR IGNORE` of (user, name) into `accounts`. */
    method AddAlt(user: UserId, name: string)
      requires Valid()
      modifies this`accounts
      ensures Valid()
      ensures accounts == InsertOrIgnore(old(accounts), AccountRow(user, name))
      ensures AccountRow(user, name) in old(accounts) ==> accounts == old(accounts)
      ensures name in NamesOf(accounts, user)
      ensures forall n :: n in NamesOf(accounts, user) <==> n in old(NamesOf(accounts, user)) || n == name
    {
      forall n
        ensures n in NamesOf(InsertOrIgnore(accounts, AccountRow(user, name)), user)
          <==> n in NamesOf(accounts, user) || n == name
      {
        NamesOfMembership(accounts, user, n);
        NamesOfMembership(InsertOrIgnore(accounts, AccountRow(user, name)), user, n);
      }
      accounts := InsertOrIgnore(accounts, AccountRow(user, name));
    }

    /**
     * `update_dino` once every prompt has been answered (the prompts wait
     * without a timeout): the account answer is asked only when the user has
     * `accounts` rows, the mutation answer only when the dinosaur is nested.
     * For a nested dinosaur in no DINOSAURS category, `select_mutations`
     * raises before anything is written. Otherwise inserts one record with a
     * fresh id, then one mutation row per chosen mutation; nothing already
     * stored is removed or changed.
     */
    method UpdateDino(
      user: UserId, accountAnswer: string, server: string, dinosaur: string,
      nestedAnswer: Button, picked: seq<string>, now: Timestamp)
      returns (outcome: UpdateOutcome)
      requires Valid()
      modifies this`records, this`mutations, this`nextId
      ensures Valid()
      ensures outcome.MutationPromptRaised?
        <==> nestedAnswer == YesButton && Catalog.MutationCandidates(dinosaur).None?
      ensures outcome.MutationPromptRaised? ==>
        records == old(records) && mutations == old(mutations) && nextId == old(nextId)
      ensures outcome.Updated? ==>
        outcome.account == if NamesOf(accounts, user) == [] then MainAccount else accountAnswer
      ensures outcome.Updated? ==> forall i :: 0 <= i < |old(records)| ==> old(records)[i].id < outcome.recordId
      ensures outcome.Updated? ==>
        records == old(records)
          + [DinoRecord(outcome.recordId, user, outcome.account, server, dinosaur, nestedAnswer == YesButton, now)]
      ensures outcome.Updated? ==>
        mutations == old(mutations)
          + (if nestedAnswer == YesButton then MutationRowsFor(outcome.recordId, picked) else [])
    {
      var names := NamesOf(accounts, user);
      var account: string;
      if names != [] {
        account := accountAnswer;
      } else {
        account := MainAccount;
      }
      var isNested := nestedAnswer == YesButton;
      var chosen: seq<string> := [];
      if isNested {
        // select_mutations: `next(...)` finds no category for this dinosaur
        if Catalog.MutationCandidates(dinosaur).None? {
          return MutationPromptRaised;
        }
        chosen := picked;
      }
      var recordId := InsertRecord(user, account, server, dinosaur, isNested, chosen, now);
      return Updated(account, recordId);
    }

    /**
     * The writes of `update_dino`: one `dino_records` row with the next
     * autoincrement id, then the mutation rows that reference it.
     */
    method InsertRecord(
      user: UserId, account: string, server: string, dinosaur: string,
      isNested: bool, chosen: seq<string>, now: Timestamp)
      returns (recordId: nat)
      requires Valid()
      requires chosen != [] ==> isNested
      modifies this`records, this`mutations, this`nextId
      ensures Valid()
      ensures forall i :: 0 <= i < |old(records)| ==> old(records)[i].id < recordId
      ensures records == old(records) + [DinoRecord(recordId, user, account, server, dinosaur, isNested, now)]
      ensures mutations == old(mutations) + MutationRowsFor(recordId, chosen)
    {
      recordId := nextId;
      var record := DinoRecord(recordId, user, account, server, dinosaur, isNested, now);
      AppendRecord(records, nextId, mutations, record);
      records := records + [record];
      nextId := nextId + 1;

      InsertMutations(recordId, chosen);
    }

    /**
     * The loop of `update_dino` that inserts one `mutations` row per chosen
     * mutation, each referencing the record just inserted.
     */
    method InsertMutations(recordId: nat, chosen: seq<string>)
      requires MutationsOfNested(mutations, records)
      requires records != [] && records[|records| - 1].id == recordId
      requires chosen != [] ==> records[|records| - 1].isNested
      modifies this`mutations
      ensures mutations == old(mutations) + MutationRowsFor(recordId, chosen)
      ensures MutationsOfNested(mutations, records)
    {
      var k := 0;
      while k < |chosen|
        invariant 0 <= k <= |chosen|
        invariant mutations == old(mutations) + MutationRowsFor(recordId, chosen[..k])
        invariant MutationsOfNested(mutations, records)
      {
        AppendMutation(mutations, records, MutationRow(recordId, chosen[k]));
        mutations := mutations + [MutationRow(recordId, chosen[k])];
        assert chosen[..k + 1] == chosen[..k] + [chosen[k]];
        MutationRowsForSnoc(recordId, chosen[..k], chosen[k]);
        k := k + 1;
      }
      assert chosen[..k] == chosen;
    }

    /**
     * `server_info`: an unknown region is answered with the list of regions;
     * otherwise one field per server of the region, in catalog order, each
     * summarising the records on that server.
     */
    method ServerInfo(region: string) returns (reply: ServerInfoReply)
      ensures region !in Catalog.Keys(Catalog.EvrimaServers)
        ==> reply == InvalidRegion(Catalog.Keys(Catalog.EvrimaServers))
      ensures region in Catalog.Keys(Catalog.EvrimaServers) ==>
        reply.Report? && reply.region == region
        && Catalog.Lookup(Catalog.EvrimaServers, region).Some?
        && var servers := Catalog.Lookup(Catalog.EvrimaServers, region).value;
           |reply.fields| == |servers|
           && forall i :: 0 <= i < |servers| ==>
                reply.fields[i].server == servers[i]
                && reply.fields[i].value == Summary(records, servers[i])
                && Summarises(records, servers[i], reply.fields[i].value)
    {
      var lookup := Catalog.Lookup(Catalog.EvrimaServers, region);
      if lookup.None? {
        return InvalidRegion(Catalog.Keys(Catalog.EvrimaServers));
      }
      var servers := lookup.value;
      var fields: seq<Field> := [];
      for i := 0 to |servers|
        invariant |fields| == i
        invariant forall j :: 0 <= j < i ==>
          fields[j].server == servers[j]
          && fields[j].value == Summary(records, servers[j])
          && Summarises(records, servers[j], fields[j].value)
      {
        SummaryMeaning(records, servers[i]);
        fields := fields + [Field(servers[i], Summary(records, servers[i]))];
      }
      reply := Report(region, fields);
    }
  }
}
