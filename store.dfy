/**
 * The SQLite store of `database.py`: the `users`, `conversations` and
 * `user_stats` tables held in memory, with the effect of each query and
 * update on them.
 */
module Store {
  import opened Wrappers

  /** A row of `users` (the id is the map key). */
  datatype UserRow = UserRow(
    name: string, slang: string, persona: string, voiceEnabled: bool,
    createdAt: nat, lastActive: nat)

  /** A row of `user_stats` (the user id is the map key). */
  datatype StatsRow = StatsRow(
    totalMessages: int, totalSessions: int, favoriteSlang: string, favoritePersona: string)

  /** A row of `conversations`. */
  datatype ConversationRow = ConversationRow(
    id: int, userId: int, role: string, content: string, timestamp: nat)

  /** One item of the list `get_conversation_history` returns. */
  datatype HistoryEntry = HistoryEntry(role: string, content: string, timestamp: nat)

  /** The dictionary `get_user_stats` returns. */
  datatype UserStats = UserStats(
    name: string, currentSlang: string, currentPersona: string,
    createdAt: nat, lastActive: nat,
    totalMessages: int, totalSessions: int,
    favoriteSlang: string, favoritePersona: string)

  // ---------------------------------------------------------------------------
  // Queries over the conversation rows

  /**
   * The rows whose owner is `userId` (`mine`) or is not (`!mine`), in
   * their stored order: `WHERE user_id = ?` and its negation. With `true`
   * it is what a query of the user reads; with `false`, what deleting the
   * user's rows leaves behind.
   */
  function Select(rows: seq<ConversationRow>, userId: int, mine: bool): (picked: seq<ConversationRow>)
    ensures |picked| <= |rows|
  {
    if rows == [] then []
    else (if (rows[0].userId == userId) == mine then [rows[0]] else []) + Select(rows[1..], userId, mine)
  }

  /** A row is selected exactly when it is in the table and its owner matches. */
  lemma {:induction false} SelectMembers(rows: seq<ConversationRow>, userId: int, mine: bool)
    ensures forall r :: r in Select(rows, userId, mine) <==> r in rows && (r.userId == userId) == mine
  {
    if rows != [] {
      SelectMembers(rows[1..], userId, mine);
      assert rows == [rows[0]] + rows[1..];
    }
  }

  lemma {:induction false} SelectConcat(a: seq<ConversationRow>, b: seq<ConversationRow>, userId: int, mine: bool)
    ensures Select(a + b, userId, mine) == Select(a, userId, mine) + Select(b, userId, mine)
  {
    if a == [] {
      assert a + b == b;
    } else {
      var head := if (a[0].userId == userId) == mine then [a[0]] else [];
      calc {
        Select(a + b, userId, mine);
      == { assert (a + b)[0] == a[0]; assert (a + b)[1..] == a[1..] + b; }
        head + Select(a[1..] + b, userId, mine);
      == { SelectConcat(a[1..], b, userId, mine); }
        head + (Select(a[1..], userId, mine) + Select(b, userId, mine));
      ==
        (head + Select(a[1..], userId, mine)) + Select(b, userId, mine);
      }
    }
  }

  /** Selecting one more row of a prefix appends it when its owner matches. */
  lemma SelectExtend(rows: seq<ConversationRow>, i: nat, userId: int, mine: bool)
    requires i < |rows|
    ensures Select(rows[..i + 1], userId, mine)
         == Select(rows[..i], userId, mine) + (if (rows[i].userId == userId) == mine then [rows[i]] else [])
  {
    assert rows[..i + 1] == rows[..i] + [rows[i]];
    SelectConcat(rows[..i], [rows[i]], userId, mine);
  }

  /** Every row is owned by the user or not: the two selections share out the table. */
  lemma {:induction false} SelectPartition(rows: seq<ConversationRow>, userId: int)
    ensures |Select(rows, userId, true)| + |Select(rows, userId, false)| == |rows|
  {
    if rows != [] {
      SelectPartition(rows[1..], userId);
    }
  }

  /** Row ids grow strictly along the table (AUTOINCREMENT, rows never reordered). */
  predicate IdsIncreasing(rows: seq<ConversationRow>) {
    forall i, j | 0 <= i < j < |rows| :: rows[i].id < rows[j].id
  }

  /** A selection keeps the stored order. */
  lemma {:induction false} SelectIncreasing(rows: seq<ConversationRow>, userId: int, mine: bool)
    requires IdsIncreasing(rows)
    ensures IdsIncreasing(Select(rows, userId, mine))
  {
    if rows != [] {
      var rest := rows[1..];
      assert IdsIncreasing(rest) by {
        forall i, j | 0 <= i < j < |rest|
          ensures rest[i].id < rest[j].id
        {
          assert rest[i] == rows[i + 1] && rest[j] == rows[j + 1];
        }
      }
      SelectIncreasing(rest, userId, mine);
      var tail := Select(rest, userId, mine);
      SelectMembers(rest, userId, mine);
      forall r | r in tail
        ensures rows[0].id < r.id
      {
        var k :| 0 <= k < |rest| && rest[k] == r;
        assert rows[k + 1] == r;
      }
    }
  }

  /** A selection keeps the two facts the store relies on: ids in order and below the counter. */
  lemma SelectKeepsIds(rows: seq<ConversationRow>, userId: int, mine: bool, next: int)
    requires IdsIncreasing(rows) && forall r | r in rows :: 1 <= r.id < next
    ensures IdsIncreasing(Select(rows, userId, mine))
    ensures forall r | r in Select(rows, userId, mine) :: 1 <= r.id < next
  {
    SelectIncreasing(rows, userId, mine);
    SelectMembers(rows, userId, mine);
  }

  /** Clearing one user's rows leaves none of theirs and exactly everyone else's. */
  lemma {:induction false} ClearSelects(rows: seq<ConversationRow>, userId: int, other: int)
    ensures Select(Select(rows, userId, false), userId, true) == []
    ensures other != userId ==> Select(Select(rows, userId, false), other, true) == Select(rows, other, true)
  {
    if rows != [] {
      ClearSelects(rows[1..], userId, other);
      var head := if rows[0].userId != userId then [rows[0]] else [];
      SelectConcat(head, Select(rows[1..], userId, false), userId, true);
      SelectConcat(head, Select(rows[1..], userId, false), other, true);
    }
  }

  /** The last `limit` items of `s`; SQLite reads a negative `LIMIT` as no limit. */
  function LastN<T>(s: seq<T>, limit: int): (r: seq<T>)
    ensures |r| == (if limit < 0 || |s| <= limit then |s| else limit)
    ensures r == s[|s| - |r|..]
  {
    if limit < 0 || |s| <= limit then s else s[|s| - limit..]
  }

  /**
   * The rows `get_conversation_history` reads: `WHERE user_id = ? ORDER BY
   * id DESC LIMIT ?`, put back in chronological order.
   */
  function RecentRows(rows: seq<ConversationRow>, userId: int, limit: int): seq<ConversationRow> {
    LastN(Select(rows, userId, true), limit)  // the user's own rows
  }

  /** A suffix of rows in id order is in id order, and every row before it is older than every row in it. */
  lemma SuffixIsLatest(rows: seq<ConversationRow>, cut: nat)
    requires IdsIncreasing(rows) && cut <= |rows|
    ensures IdsIncreasing(rows[cut..])
    ensures forall r, t | r in rows && r !in rows[cut..] && t in rows[cut..] :: r.id < t.id
  {
    var recent := rows[cut..];
    forall i, j | 0 <= i < j < |recent|
      ensures recent[i].id < recent[j].id
    {
      assert recent[i] == rows[cut + i] && recent[j] == rows[cut + j];
    }
    forall k | cut <= k < |rows|
      ensures rows[k] in recent
    {
      assert recent[k - cut] == rows[k];
    }
    forall r, t | r in rows && r !in recent && t in recent
      ensures r.id < t.id
    {
      var i :| 0 <= i < |rows| && rows[i] == r;
      var j :| 0 <= j < |recent| && recent[j] == t;
      assert i < cut;
      assert rows[cut + j] == t;
    }
  }

  /**
   * The history holds only the user's rows, at most `limit` of them, in
   * chronological order, and they are the user's latest: every row of the
   * user that is left out is older than every row returned.
   */
  lemma RecentRowsFacts(rows: seq<ConversationRow>, userId: int, limit: int)
    requires IdsIncreasing(rows)
    ensures var recent := RecentRows(rows, userId, limit);
      && (forall r | r in recent :: r in rows && r.userId == userId)
      && (limit >= 0 ==> |recent| <= limit)
      && (limit < 0 || |Select(rows, userId, true)| <= limit ==> recent == Select(rows, userId, true))
      && IdsIncreasing(recent)
      && (forall r, t | r in rows && r.userId == userId && r !in recent && t in recent :: r.id < t.id)
  {
    var mine := Select(rows, userId, true);
    var recent := RecentRows(rows, userId, limit);
    SelectMembers(rows, userId, true);
    SelectIncreasing(rows, userId, true);
    SuffixIsLatest(mine, |mine| - |recent|);
  }

  /** A message just saved is the last history row of its user, and no other user's history changes. */
  lemma LatestMessageLast(rows: seq<ConversationRow>, row: ConversationRow, other: int, limit: int)
    ensures limit != 0 ==>
      var recent := RecentRows(rows + [row], row.userId, limit);
      |recent| > 0 && recent[|recent| - 1] == row
    ensures other != row.userId ==> RecentRows(rows + [row], other, limit) == RecentRows(rows, other, limit)
  {
    SelectConcat(rows, [row], row.userId, true);
    SelectConcat(rows, [row], other, true);
    assert Select([row], row.userId, true) == [row];
  }

  /** The `(role, content, timestamp)` dictionaries built from the rows, in the same order. */
  function Entries(rows: seq<ConversationRow>): (entries: seq<HistoryEntry>)
    ensures |entries| == |rows|
    ensures forall k | 0 <= k < |rows| ::
      entries[k] == HistoryEntry(rows[k].role, rows[k].content, rows[k].timestamp)
  {
    seq(|rows|, k requires 0 <= k < |rows| => HistoryEntry(rows[k].role, rows[k].content, rows[k].timestamp))
  }

  /** Python's truthiness of an optional string argument: present and not empty. */
  predicate Given(o: Option<string>) {
    o.Some? && o.value != ""
  }

  // ---------------------------------------------------------------------------
  // The database

  class Database {
    var users: map<int, UserRow>
    var stats: map<int, StatsRow>
    var conversations: seq<ConversationRow>
    /** The next AUTOINCREMENT id of `users`; ids are never reused. */
    var nextUserId: int
    /** The next AUTOINCREMENT id of `conversations`. */
    var nextConversationId: int

    /** Each user has one stats row, and every id stays below its counter. */
    ghost predicate Valid()
      reads this
    {
      && 1 <= nextUserId && 1 <= nextConversationId
      && users.Keys == stats.Keys
      && (forall id | id in users :: 1 <= id < nextUserId)
      && (forall r | r in conversations :: 1 <= r.id < nextConversationId)
      && IdsIncreasing(conversations)
    }

    /** `init_db`: three empty tables. */
    constructor ()
      ensures Valid()
      ensures users == map[] && stats == map[] && conversations == []
    {
      users := map[];
      stats := map[];
      conversations := [];
      nextUserId := 1;
      nextConversationId := 1;
    }

    /** The joined `users`/`user_stats` row of `get_user_stats`, or `None` when either is missing. */
    function GetUserStats(userId: int): (r: Option<UserStats>)
      reads this
      ensures r.Some? <==> userId in users && userId in stats
      ensures r.Some? ==>
        && r.value.name == users[userId].name
        && r.value.currentSlang == users[userId].slang
        && r.value.currentPersona == users[userId].persona
        && r.value.createdAt == users[userId].createdAt
        && r.value.lastActive == users[userId].lastActive
        && r.value.totalMessages == stats[userId].totalMessages
        && r.value.totalSessions == stats[userId].totalSessions
        && r.value.favoriteSlang == stats[userId].favoriteSlang
        && r.value.favoritePersona == stats[userId].favoritePersona
    {
      if userId in users && userId in stats then
        var u, s := users[userId], stats[userId];
        Some(UserStats(u.name, u.slang, u.persona, u.createdAt, u.lastActive,
                       s.totalMessages, s.totalSessions, s.favoriteSlang, s.favoritePersona))
      else None
    }

    /** `SELECT COUNT(*) FROM users`. */
    function GetAllUsersCount(): (count: nat)
      reads this
      ensures count == |users.Keys|
    {
      |users|
    }

    /** `SELECT COUNT(*) FROM conversations`. */
    function GetTotalConversations(): (count: nat)
      reads this
      ensures count == |conversations|
    {
      |conversations|
    }

    /**
     * `create_user`: one new user row with voice on and both timestamps
     * `now`, and its stats row with no messages, one session and the
     * given slang and persona as favourites.
     */
    method CreateUser(name: string, slang: string, persona: string, now: nat) returns (userId: int)
      requires Valid()
      modifies this
      ensures Valid()
      ensures userId == old(nextUserId) && userId !in old(users) && userId >= 1
      ensures users == old(users)[userId := UserRow(name, slang, persona, true, now, now)]
      ensures stats == old(stats)[userId := StatsRow(0, 1, slang, persona)]
      ensures conversations == old(conversations) && nextConversationId == old(nextConversationId)
      ensures GetAllUsersCount() == old(GetAllUsersCount()) + 1
      ensures GetUserStats(userId) == Some(UserStats(name, slang, persona, now, now, 0, 1, slang, persona))
    {
      userId := nextUserId;
      nextUserId := nextUserId + 1;
      users := users[userId := UserRow(name, slang, persona, true, now, now)];
      stats := stats[userId := StatsRow(0, 1, slang, persona)];
    }

    /**
     * `update_user_preferences`: each of slang, persona and name is
     * overwritten only when given non-empty; when any is, `last_active`
     * becomes `now`. With none given, or no such user, nothing changes.
     */
    method UpdateUserPreferences(userId: int, slang: Option<string>, persona: Option<string>,
                                 name: Option<string>, now: nat)
      requires Valid()
      modifies this
      ensures Valid()
      ensures users.Keys == old(users.Keys)
      ensures forall id | id in users && id != userId :: users[id] == old(users[id])
      ensures userId in users ==>
        var before, after := old(users[userId]), users[userId];
        && after.slang == (if Given(slang) then slang.value else before.slang)
        && after.persona == (if Given(persona) then persona.value else before.persona)
        && after.name == (if Given(name) then name.value else before.name)
        && after.voiceEnabled == before.voiceEnabled
        && after.createdAt == before.createdAt
        && after.lastActive == (if Given(slang) || Given(persona) || Given(name) then now else before.lastActive)
      ensures !(Given(slang) || Given(persona) || Given(name)) ==> users == old(users)
      ensures stats == old(stats) && conversations == old(conversations)
      ensures nextUserId == old(nextUserId) && nextConversationId == old(nextConversationId)
    {
      if (Given(slang) || Given(persona) || Given(name)) && userId in users {
        var row := users[userId];
        if Given(slang) {
          row := row.(slang := slang.value);
        }
        if Given(persona) {
          row := row.(persona := persona.value);
        }
        if Given(name) {
          row := row.(name := name.value);
        }
        row := row.(lastActive := now);
        users := users[userId := row];
      }
    }

    /**
     * `save_message`: appends one row with a fresh id, adds one to the
     * user's `total_messages` and sets their `last_active` to `now`. The
     * row is stored even for an unknown user (foreign keys are not enforced).
     */
    method SaveMessage(userId: int, role: string, content: string, now: nat)
      requires Valid()
      modifies this
      ensures Valid()
      ensures conversations == old(conversations) + [ConversationRow(old(nextConversationId), userId, role, content, now)]
      ensures GetTotalConversations() == old(GetTotalConversations()) + 1
      ensures stats.Keys == old(stats.Keys) && users.Keys == old(users.Keys)
      ensures userId in stats ==>
        stats[userId] == old(stats[userId]).(totalMessages := old(stats[userId].totalMessages) + 1)
      ensures userId in users ==> users[userId] == old(users[userId]).(lastActive := now)
      ensures forall id | id in stats && id != userId :: stats[id] == old(stats[id])
      ensures forall id | id in users && id != userId :: users[id] == old(users[id])
      ensures nextUserId == old(nextUserId)
    {
      var row := ConversationRow(nextConversationId, userId, role, content, now);
      conversations := conversations + [row];
      nextConversationId := nextConversationId + 1;
      if userId in stats {
        stats := stats[userId := stats[userId].(totalMessages := stats[userId].totalMessages + 1)];
      }
      if userId in users {
        users := users[userId := users[userId].(lastActive := now)];
      }
    }

    /**
     * `get_conversation_history`: scans the table from the newest row
     * back, taking the user's rows until `limit` are found, and returns
     * them oldest first.
     */
    method GetConversationHistory(userId: int, limit: int) returns (history: seq<HistoryEntry>)
      ensures history == Entries(RecentRows(conversations, userId, limit))
    {
      var picked: seq<ConversationRow> := [];
      var i := |conversations|;
      while i > 0 && (limit < 0 || |picked| < limit)
        invariant 0 <= i <= |conversations|
        invariant picked == Select(conversations[i..], userId, true)  // the user's rows from i on
        invariant limit >= 0 ==> |picked| <= limit
        decreases i
      {
        i := i - 1;
        assert conversations[i..][1..] == conversations[i + 1..];
        if conversations[i].userId == userId {
          picked := [conversations[i]] + picked;
        }
      }
      assert conversations[..i] + conversations[i..] == conversations;
      SelectConcat(conversations[..i], conversations[i..], userId, true);
      history := Entries(picked);
    }

    /** `clear_conversation_history`: deletes every row of the user and keeps the others in order. */
    method ClearConversationHistory(userId: int)
      requires Valid()
      modifies this
      ensures Valid()
      ensures conversations == Select(old(conversations), userId, false)  // every other user's rows
      ensures GetTotalConversations() == old(GetTotalConversations()) - |Select(old(conversations), userId, true)|
      ensures users == old(users) && stats == old(stats)
      ensures nextUserId == old(nextUserId) && nextConversationId == old(nextConversationId)
    {
      var rows := conversations;
      SelectKeepsIds(rows, userId, false, nextConversationId);
      SelectPartition(rows, userId);
      var kept: seq<ConversationRow> := [];
      for i := 0 to |rows|
        invariant kept == Select(rows[..i], userId, false)  // the other users' rows seen so far
        invariant unchanged(this)
      {
        SelectExtend(rows, i, userId, false);
        if rows[i].userId != userId {
          kept := kept + [rows[i]];
        }
      }
      assert rows[..|rows|] == rows;
      conversations := kept;
    }
  }
}
