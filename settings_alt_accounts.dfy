/**
 * The alt-account settings: the `user_settings` table (one row per user, keyed
 * by discord_id) as a map, and the `alt_accounts` table (autoincrement id,
 * user, name) as a sequence. Each command is a method that updates them; the
 * replies the commands wait for are parameters.
 */
module SettingsAltAccounts {
  import opened Basics

  /** The largest number of alt accounts the commands accept. */
  const MaxAlts: int := 10

  /** A `user_settings` row without its key. */
  datatype UserSettings = UserSettings(altAccountsEnabled: bool, numAltAccounts: int)

  /** An `alt_accounts` row; `id` is the autoincrement key, the table's only key. */
  datatype AltRow = AltRow(id: nat, user: UserId, name: string)

  /**
   * The reply to "How many alt accounts?": none within the timeout, a message
   * `int()` rejects, or a number.
   */
  datatype CountReply = NoReply | NotANumber | Number(n: int)

  /** How `toggle_alt_accounts` ended, one case per message it finishes with. */
  datatype ToggleOutcome =
    | Disabled
    | CountTimedOut
    | CountNotANumber
    | CountOutOfRange
    | NamingTimedOut(named: nat)
    | AllNamed(count: nat)

  /** The answer of `list_alts`: the empty-list message, or the numbered names. */
  datatype ListReply = NoAltsYet | AltList(entries: seq<(nat, string)>)

  // ---------------------------------------------------------------------------
  // the alt_accounts table

  /** `SELECT account_name FROM alt_accounts WHERE discord_id = ?`, in retrieval order. */
  function AltNamesOf(rows: seq<AltRow>, user: UserId): (r: seq<string>)
    ensures |r| <= |rows|
  {
    if rows == [] then []
    else
      var last := rows[|rows| - 1];
      AltNamesOf(rows[..|rows| - 1], user) + (if last.user == user then [last.name] else [])
  }

  /** `DELETE FROM alt_accounts WHERE discord_id = ?`: the other rows, in order. */
  function WithoutUser(rows: seq<AltRow>, user: UserId): (r: seq<AltRow>)
    ensures |r| <= |rows|
    ensures forall k :: 0 <= k < |r| ==> r[k].user != user
  {
    if rows == [] then []
    else
      var last := rows[|rows| - 1];
      WithoutUser(rows[..|rows| - 1], user) + (if last.user == user then [] else [last])
  }

  /** A name is listed for a user exactly when some row of that user carries it. */
  lemma {:induction false} AltNamesOfMembership(rows: seq<AltRow>, user: UserId, name: string)
    ensures name in AltNamesOf(rows, user) <==> exists k :: 0 <= k < |rows| && rows[k].user == user && rows[k].name == name
  {
    if rows != [] {
      var init := rows[..|rows| - 1];
      AltNamesOfMembership(init, user, name);
      if exists k :: 0 <= k < |init| && init[k].user == user && init[k].name == name {
        var k :| 0 <= k < |init| && init[k].user == user && init[k].name == name;
        assert rows[k] == init[k];
      }
      if exists k :: 0 <= k < |rows| && rows[k].user == user && rows[k].name == name {
        var k :| 0 <= k < |rows| && rows[k].user == user && rows[k].name == name;
        if k < |init| {
          assert init[k] == rows[k];
        }
      }
    }
  }

  /** A user's name list is empty exactly when the table holds no row of that user. */
  lemma AltNamesOfEmpty(rows: seq<AltRow>, user: UserId)
    ensures AltNamesOf(rows, user) == [] <==> forall k :: 0 <= k < |rows| ==> rows[k].user != user
  {
    if AltNamesOf(rows, user) != [] {
      AltNamesOfMembership(rows, user, AltNamesOf(rows, user)[0]);
    } else {
      forall k | 0 <= k < |rows|
        ensures rows[k].user != user
      {
        AltNamesOfMembership(rows, user, rows[k].name);
      }
    }
  }

  /** The rows the naming loop appends: consecutive ids from `firstId`, one per name. */
  function AltRowsFor(firstId: nat, user: UserId, names: seq<string>): (r: seq<AltRow>)
    ensures |r| == |names|
    ensures forall k :: 0 <= k < |r| ==> r[k] == AltRow(firstId + k, user, names[k])
  {
    seq(|names|, k requires 0 <= k < |names| => AltRow(firstId + k, user, names[k]))
  }

  /** Ids are below the next autoincrement value and increase with insertion. */
  predicate AltIdsIncreasing(rows: seq<AltRow>, nextId: nat)
  {
    (forall i :: 0 <= i < |rows| ==> rows[i].id < nextId)
    && (forall i, j :: 0 <= i < j < |rows| ==> rows[i].id < rows[j].id)
  }

  /** Deleting a user's rows keeps exactly the other users' rows. */
  lemma {:induction false} WithoutUserMembership(rows: seq<AltRow>, user: UserId)
    ensures forall x :: x in WithoutUser(rows, user) <==> x in rows && x.user != user
  {
    if rows != [] {
      var init := rows[..|rows| - 1];
      WithoutUserMembership(init, user);
      assert rows == init + [rows[|rows| - 1]];
    }
  }

  /** Deleting rows keeps the ids increasing. */
  lemma {:induction false} WithoutUserKeepsIds(rows: seq<AltRow>, nextId: nat, user: UserId)
    requires AltIdsIncreasing(rows, nextId)
    ensures AltIdsIncreasing(WithoutUser(rows, user), nextId)
  {
    if rows != [] {
      var init := rows[..|rows| - 1];
      var last := rows[|rows| - 1];
      WithoutUserKeepsIds(init, nextId, user);
      WithoutUserMembership(init, user);
      var kept := WithoutUser(init, user);
      forall i | 0 <= i < |kept|
        ensures kept[i].id < last.id
      {
        assert kept[i] in init;
      }
    }
  }

  /** The names of a table with one more row. */
  lemma AltNamesOfSnoc(rows: seq<AltRow>, row: AltRow, user: UserId)
    ensures AltNamesOf(rows + [row], user) == AltNamesOf(rows, user) + (if row.user == user then [row.name] else [])
  {
    assert (rows + [row])[..|rows|] == rows;
  }

  /** After the delete, the user has no alt names and every other user keeps theirs. */
  lemma {:induction false} AltNamesOfWithoutUser(rows: seq<AltRow>, user: UserId, other: UserId)
    ensures AltNamesOf(WithoutUser(rows, user), user) == []
    ensures other != user ==> AltNamesOf(WithoutUser(rows, user), other) == AltNamesOf(rows, other)
  {
    if rows != [] {
      var init := rows[..|rows| - 1];
      var last := rows[|rows| - 1];
      AltNamesOfWithoutUser(init, user, other);
      assert rows == init + [last];
      AltNamesOfSnoc(init, last, other);
      var kept := WithoutUser(init, user);
      if last.user != user {
        assert WithoutUser(rows, user) == kept + [last];
        AltNamesOfSnoc(kept, last, user);
        AltNamesOfSnoc(kept, last, other);
      } else {
        assert WithoutUser(rows, user) == kept + [] == kept;
        assert other != user ==> AltNamesOf(rows, other) == AltNamesOf(init, other) + [];
      }
    }
  }

  /** Appending rows for a user lists their names after the user's earlier ones. */
  lemma {:induction false} AltNamesOfAppended(rows: seq<AltRow>, firstId: nat, user: UserId, names: seq<string>)
    ensures AltNamesOf(rows + AltRowsFor(firstId, user, names), user) == AltNamesOf(rows, user) + names
  {
    if names != [] {
      var init := names[..|names| - 1];
      AltNamesOfAppended(rows, firstId, user, init);
      var appended := rows + AltRowsFor(firstId, user, names);
      assert appended[..|appended| - 1] == rows + AltRowsFor(firstId, user, init);
    } else {
      assert rows + AltRowsFor(firstId, user, names) == rows;
    }
  }

  // ---------------------------------------------------------------------------
  // what toggle_alt_accounts writes

  /** `num_alt_accounts` after the toggle: the accepted count, else the column default 0. */
  function AcceptedCount(enable: bool, reply: CountReply): int
  {
    if enable && reply.Number? && 1 <= reply.n <= MaxAlts then reply.n else 0
  }

  /** How many names the naming loop commits, given how many name replies arrived in time. */
  function NamedCount(enable: bool, reply: CountReply, replies: nat): nat
  {
    var n := AcceptedCount(enable, reply);
    if replies < n then replies else n
  }

  function ToggleOutcomeOf(enable: bool, reply: CountReply, replies: nat): ToggleOutcome
  {
    if !enable then Disabled
    else
      match reply
      case NoReply => CountTimedOut
      case NotANumber => CountNotANumber
      case Number(n) =>
        if n < 1 || n > MaxAlts then CountOutOfRange
        else if replies < n then NamingTimedOut(replies)
        else AllNamed(n)
  }

  /**
   * The toggle keeps the count within 0..10, commits one row per name that
   * arrived in time and never more than the accepted count, and reports how
   * far it got.
   */
  lemma ToggleOutcomeAgrees(enable: bool, reply: CountReply, replies: nat)
    ensures 0 <= AcceptedCount(enable, reply) <= MaxAlts
    ensures NamedCount(enable, reply, replies) <= replies
    ensures NamedCount(enable, reply, replies) <= AcceptedCount(enable, reply)
    ensures ToggleOutcomeOf(enable, reply, replies).AllNamed?
      <==> AcceptedCount(enable, reply) > 0 && NamedCount(enable, reply, replies) == AcceptedCount(enable, reply)
    ensures ToggleOutcomeOf(enable, reply, replies).NamingTimedOut?
      ==> ToggleOutcomeOf(enable, reply, replies).named == NamedCount(enable, reply, replies) < AcceptedCount(enable, reply)
    ensures AcceptedCount(enable, reply) == 0 ==> NamedCount(enable, reply, replies) == 0
  {
  }

  // ---------------------------------------------------------------------------
  // the store

  class SettingsStore {
    var userSettings: map<UserId, UserSettings>
    var altAccounts: seq<AltRow>
    /** The next `alt_accounts` id (SQLite's sequence for the AUTOINCREMENT key). */
    var nextAltId: nat

    ghost predicate Valid()
      reads this
    {
      (forall u :: u in userSettings ==> 0 <= userSettings[u].numAltAccounts <= MaxAlts)
      && AltIdsIncreasing(altAccounts, nextAltId)
    }

    /** `create_tables` on an empty database. */
    constructor ()
      ensures Valid()
      ensures userSettings == map[] && altAccounts == []
    {
      userSettings, altAccounts := map[], [];
      nextAltId := 1;
    }

    /**
     * `toggle_alt_accounts`: `INSERT OR REPLACE` the user's settings row with
     * the flag (so `num_alt_accounts` falls back to 0); when enabling, ask for
     * a count in 1..10, store it, then ask for that many names and commit each
     * one as it arrives. `names` are the name replies that arrived in time.
     */
    method ToggleAltAccounts(user: UserId, enable: bool, countReply: CountReply, names: seq<string>)
      returns (outcome: ToggleOutcome)
      requires Valid()
      modifies this`userSettings, this`altAccounts, this`nextAltId
      ensures Valid()
      ensures userSettings == old(userSettings)[user := UserSettings(enable, AcceptedCount(enable, countReply))]
      ensures altAccounts
        == old(altAccounts) + AltRowsFor(old(nextAltId), user, names[..NamedCount(enable, countReply, |names|)])
      ensures nextAltId == old(nextAltId) + NamedCount(enable, countReply, |names|)
      ensures outcome == ToggleOutcomeOf(enable, countReply, |names|)
      ensures AltNamesOf(altAccounts, user)
        == old(AltNamesOf(altAccounts, user)) + names[..NamedCount(enable, countReply, |names|)]
    {
      userSettings := userSettings[user := UserSettings(enable, 0)];
      // n stays 0 on every path that replies with a message and stops
      var n := 0;
      if !enable {
        outcome := Disabled;
      } else {
        match countReply {
          case NoReply =>
            outcome := CountTimedOut;
          case NotANumber =>
            outcome := CountNotANumber;
          case Number(m) =>
            if m < 1 || m > MaxAlts {
              outcome := CountOutOfRange;
            } else {
              n := m;
            }
        }
      }
      if n == 0 {
        assert names[..0] == [];
        return;
      }
      // UPDATE user_settings SET num_alt_accounts = ? WHERE discord_id = ?
      if user in userSettings {
        userSettings := userSettings[user := userSettings[user].(numAltAccounts := n)];
      }
      assert n == AcceptedCount(enable, countReply);
      assert userSettings == old(userSettings)[user := UserSettings(enable, n)];

      var named := CommitAltNames(user, n, names);
      if named < n {
        // the reply for alt account #named + 1 did not arrive in time
        return NamingTimedOut(named);
      }
      return AllNamed(n);
    }

    /**
     * The naming loop of `toggle_alt_accounts`: for alt accounts 1..n, take the
     * next name reply and commit it as a new row; stop at the first missing reply.
     * Returns how many names were committed.
     */
    method CommitAltNames(user: UserId, n: nat, names: seq<string>) returns (named: nat)
      requires AltIdsIncreasing(altAccounts, nextAltId)
      modifies this`altAccounts, this`nextAltId
      ensures named == if |names| < n then |names| else n
      ensures altAccounts == old(altAccounts) + AltRowsFor(old(nextAltId), user, names[..named])
      ensures nextAltId == old(nextAltId) + named
      ensures AltIdsIncreasing(altAccounts, nextAltId)
      ensures AltNamesOf(altAccounts, user) == old(AltNamesOf(altAccounts, user)) + names[..named]
    {
      var i := 1;
      while i <= n
        invariant 1 <= i <= n + 1 && i - 1 <= |names|
        invariant altAccounts == old(altAccounts) + AltRowsFor(old(nextAltId), user, names[..i - 1])
        invariant nextAltId == old(nextAltId) + (i - 1)
        invariant AltIdsIncreasing(altAccounts, nextAltId)
      {
        if |names| < i {
          AltNamesOfAppended(old(altAccounts), old(nextAltId), user, names[..i - 1]);
          return i - 1;
        }
        assert names[..i] == names[..i - 1] + [names[i - 1]];
        altAccounts := altAccounts + [AltRow(nextAltId, user, names[i - 1])];
        nextAltId := nextAltId + 1;
        i := i + 1;
      }
      AltNamesOfAppended(old(altAccounts), old(nextAltId), user, names[..n]);
      return n;
    }


    /**
     * `set_num_alts`: a count outside 0..10 is rejected and nothing changes;
     * otherwise an existing settings row takes the count (an UPDATE creates no
     * row) and all of the user's alt rows are deleted.
     */
    method SetNumAlts(user: UserId, n: int) returns (accepted: bool)
      requires Valid()
      modifies this`userSettings, this`altAccounts
      ensures Valid()
      ensures accepted <==> 0 <= n <= MaxAlts
      ensures !accepted ==> userSettings == old(userSettings) && altAccounts == old(altAccounts)
      ensures accepted ==> (userSettings
        == if user in old(userSettings)
           then old(userSettings)[user := old(userSettings)[user].(numAltAccounts := n)]
           else old(userSettings))
      ensures accepted ==> altAccounts == WithoutUser(old(altAccounts), user)
      ensures accepted ==> AltNamesOf(altAccounts, user) == []
      ensures forall other :: other != user ==> AltNamesOf(altAccounts, other) == old(AltNamesOf(altAccounts, other))
    {
      if n < 0 || n > MaxAlts {
        return false;
      }
      if user in userSettings {
        userSettings := userSettings[user := userSettings[user].(numAltAccounts := n)];
      }
      WithoutUserKeepsIds(altAccounts, nextAltId, user);
      forall other
        ensures AltNamesOf(WithoutUser(altAccounts, user), user) == []
        ensures other != user ==> AltNamesOf(WithoutUser(altAccounts, user), other) == AltNamesOf(altAccounts, other)
      {
        AltNamesOfWithoutUser(altAccounts, user, other);
      }
      altAccounts := WithoutUser(altAccounts, user);
      return true;
    }

    /**
     * `name_alt`: rejected when the user has no settings row or the number
     * exceeds `num_alt_accounts` (zero and negative numbers pass); otherwise a
     * new row is inserted, since the autoincrement id is the only key that
     * `INSERT OR REPLACE` could collide on.
     */
    method NameAlt(user: UserId, altNumber: int, name: string) returns (accepted: bool)
      requires Valid()
      modifies this`altAccounts, this`nextAltId
      ensures Valid()
      ensures accepted <==> user in userSettings && altNumber <= userSettings[user].numAltAccounts
      ensures accepted ==>
        altAccounts == old(altAccounts) + [AltRow(old(nextAltId), user, name)] && nextAltId == old(nextAltId) + 1
      ensures !accepted ==> altAccounts == old(altAccounts) && nextAltId == old(nextAltId)
      ensures accepted ==> AltNamesOf(altAccounts, user) == old(AltNamesOf(altAccounts, user)) + [name]
    {
      if user !in userSettings || altNumber > userSettings[user].numAltAccounts {
        return false;
      }
      AltNamesOfSnoc(altAccounts, AltRow(nextAltId, user, name), user);
      altAccounts := altAccounts + [AltRow(nextAltId, user, name)];
      nextAltId := nextAltId + 1;
      return true;
    }

    /** `list_alts`: the empty-list message, or the user's names numbered from 1. */
    method ListAlts(user: UserId) returns (reply: ListReply)
      ensures reply == NoAltsYet <==> AltNamesOf(altAccounts, user) == []
      ensures reply == NoAltsYet <==> forall k :: 0 <= k < |altAccounts| ==> altAccounts[k].user != user
      ensures reply.AltList? ==>
        |reply.entries| == |AltNamesOf(altAccounts, user)|
        && forall i :: 0 <= i < |reply.entries| ==>
             reply.entries[i] == (i + 1, AltNamesOf(altAccounts, user)[i])
    {
      var names := AltNamesOf(altAccounts, user);
      AltNamesOfEmpty(altAccounts, user);
      if names == [] {
        return NoAltsYet;
      }
      reply := AltList(seq(|names|, i requires 0 <= i < |names| => (i + 1, names[i])));
    }
  }
}
