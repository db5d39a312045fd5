/**
 * The bot's store. `DatabaseHandler` keeps two tables, `users` (one subscription
 * per Telegram user) and `sent_announcements` (one row per department and
 * announcement fingerprint already delivered); `JsonHandler` is the legacy store
 * that keeps, per department, the 50 most recent fingerprints and their titles.
 *
 * Each table is a sequence of rows in insertion order, as the document store
 * keeps them. The functions below the row types say what each operation does to
 * a table; the two classes hold the tables and apply those functions in place.
 */
module Database {
  import opened Wrappers

  datatype UserRow = UserRow(userId: int, username: string, department: string, active: bool)

  datatype SentRow = SentRow(department: string, hash: string, title: string, sentAt: int)

  datatype Stats = Stats(totalUsers: nat, activeUsers: nat, totalSentAnnouncements: nat)

  const SecondsPerDay: int := 86400

  // ===========================================================================
  // The users table

  /** Some row of `users` belongs to `uid`. */
  predicate HasUser(users: seq<UserRow>, uid: int)
  {
    exists i :: 0 <= i < |users| && users[i].userId == uid
  }

  /** The store never holds two rows for one user. */
  predicate UniqueUsers(users: seq<UserRow>)
  {
    forall i, j :: 0 <= i < j < |users| ==> users[i].userId != users[j].userId
  }

  /** `search(User.user_id == uid)[0]`, or `None` when the search is empty. */
  function FindUser(users: seq<UserRow>, uid: int): (r: Option<UserRow>)
    ensures r.Some? <==> HasUser(users, uid)
    ensures r.Some? ==> exists i :: 0 <= i < |users| && users[i] == r.value && r.value.userId == uid &&
                                    forall j :: 0 <= j < i ==> users[j].userId != uid
  {
    if users == [] then None
    else if users[0].userId == uid then
      assert users[0] == users[0];
      Some(users[0])
    else
      var r := FindUser(users[1..], uid);
      assert forall j :: 0 < j < |users| ==> users[j] == users[1..][j - 1];
      if r.Some? then
        var i :| 0 <= i < |users[1..]| && users[1..][i] == r.value && r.value.userId == uid &&
                 forall j :: 0 <= j < i ==> users[1..][j].userId != uid;
        assert users[i + 1] == r.value;
        r
      else r
  }

  /** `update(fields, User.user_id == uid)`: every row of `uid` is replaced by `row`. */
  function ReplaceUser(users: seq<UserRow>, uid: int, row: UserRow): (r: seq<UserRow>)
    ensures |r| == |users|
    ensures forall i :: 0 <= i < |r| ==> r[i] == if users[i].userId == uid then row else users[i]
  {
    if users == [] then []
    else [if users[0].userId == uid then row else users[0]] + ReplaceUser(users[1..], uid, row)
  }

  /** `add_user_subscription`: update the user's row if there is one, else append a new row. */
  function Upsert(users: seq<UserRow>, uid: int, username: string, department: string): (r: seq<UserRow>)
    ensures FindUser(r, uid) == Some(UserRow(uid, username, department, true))
    ensures |r| == if HasUser(users, uid) then |users| else |users| + 1
    ensures forall i :: 0 <= i < |users| && users[i].userId != uid ==> r[i] == users[i]
    ensures forall i :: 0 <= i < |users| && users[i].userId == uid ==> r[i] == UserRow(uid, username, department, true)
    ensures UniqueUsers(users) ==> UniqueUsers(r)
  {
    var row := UserRow(uid, username, department, true);
    if HasUser(users, uid) then
      ReplacedIsFound(users, row);
      ReplaceUser(users, uid, row)
    else
      AppendedIsFound(users, row);
      users + [row]
  }

  /** Replacing the rows of an existing user makes the replacement the row found for it,
      and keeps one row per user. */
  lemma {:induction false} ReplacedIsFound(users: seq<UserRow>, row: UserRow)
    requires HasUser(users, row.userId)
    ensures FindUser(ReplaceUser(users, row.userId, row), row.userId) == Some(row)
    ensures UniqueUsers(users) ==> UniqueUsers(ReplaceUser(users, row.userId, row))
  {
    var uid := row.userId;
    if users[0].userId != uid {
      var k :| 0 <= k < |users| && users[k].userId == uid;
      assert users[1..][k - 1] == users[k];
      ReplacedIsFound(users[1..], row);
      assert ReplaceUser(users, uid, row)[1..] == ReplaceUser(users[1..], uid, row);
    }
    ReplaceKeepsUnique(users, row);
  }

  lemma ReplaceKeepsUnique(users: seq<UserRow>, row: UserRow)
    ensures UniqueUsers(users) ==> UniqueUsers(ReplaceUser(users, row.userId, row))
  {
    var r := ReplaceUser(users, row.userId, row);
    if UniqueUsers(users) {
      forall i, j | 0 <= i < j < |r|
        ensures r[i].userId != r[j].userId
      {
        assert r[i].userId == users[i].userId && r[j].userId == users[j].userId;
      }
    }
  }

  /** Appending the row of a new user makes it the row found for that user. */
  lemma AppendedIsFound(users: seq<UserRow>, row: UserRow)
    requires !HasUser(users, row.userId)
    ensures FindUser(users + [row], row.userId) == Some(row)
    ensures UniqueUsers(users) ==> UniqueUsers(users + [row])
  {
    assert (users + [row])[|users|] == row;
  }

  /** `deactivate_user`: `active` becomes false on every row of `uid`. */
  function Deactivate(users: seq<UserRow>, uid: int): (r: seq<UserRow>)
    ensures |r| == |users|
    ensures forall i :: 0 <= i < |r| ==>
      r[i] == if users[i].userId == uid then users[i].(active := false) else users[i]
  {
    if users == [] then []
    else [if users[0].userId == uid then users[0].(active := false) else users[0]] + Deactivate(users[1..], uid)
  }

  /** `search((User.department == d) & (User.active == True))`: the active
      subscribers of `d`, in table order. */
  function ActiveSubscribers(users: seq<UserRow>, department: string): (r: seq<UserRow>)
    ensures forall x :: x in r <==> x in users && x.department == department && x.active
    ensures |r| <= |users|
  {
    if users == [] then []
    else
      var rest := ActiveSubscribers(users[1..], department);
      assert forall x :: x in users <==> x == users[0] || x in users[1..];
      if users[0].department == department && users[0].active then [users[0]] + rest else rest
  }

  /** The search keeps table order and lists each row once: it works run by run. */
  lemma {:induction false} ActiveSubscribersAppend(xs: seq<UserRow>, ys: seq<UserRow>, department: string)
    ensures ActiveSubscribers(xs + ys, department) == ActiveSubscribers(xs, department) + ActiveSubscribers(ys, department)
  {
    if xs != [] {
      assert (xs + ys)[0] == xs[0];
      assert (xs + ys)[1..] == xs[1..] + ys;
      ActiveSubscribersAppend(xs[1..], ys, department);
    } else {
      assert xs + ys == ys;
    }
  }

  /** One row is listed exactly when it is an active subscriber of the department. */
  lemma ActiveSubscribersSingle(u: UserRow, department: string)
    ensures ActiveSubscribers([u], department) == if u.department == department && u.active then [u] else []
  {
  }

  /** `search(Query().active == True)` counted. */
  function CountActive(users: seq<UserRow>): (n: nat)
    ensures n <= |users|
    ensures n == 0 <==> forall i :: 0 <= i < |users| ==> !users[i].active
    ensures n == |users| <==> forall i :: 0 <= i < |users| ==> users[i].active
  {
    if users == [] then 0
    else
      var n := CountActive(users[1..]);
      assert forall i :: 0 < i < |users| ==> users[i] == users[1..][i - 1];
      (if users[0].active then 1 else 0) + n
  }

  /** The count of active users adds up over a concatenation: every row is counted once, where it stands. */
  lemma {:induction false} CountActiveAppend(xs: seq<UserRow>, ys: seq<UserRow>)
    ensures CountActive(xs + ys) == CountActive(xs) + CountActive(ys)
  {
    if xs != [] {
      assert (xs + ys)[0] == xs[0];
      assert (xs + ys)[1..] == xs[1..] + ys;
      CountActiveAppend(xs[1..], ys);
    } else {
      assert xs + ys == ys;
    }
  }

  /** One row counts one exactly when it is active. */
  lemma CountActiveSingle(u: UserRow)
    ensures CountActive([u]) == if u.active then 1 else 0
  {
  }

  lemma {:induction false} UpsertSubscribes(users: seq<UserRow>, uid: int, username: string, department: string)
    requires UniqueUsers(users)
    ensures exists x :: x in ActiveSubscribers(Upsert(users, uid, username, department), department) && x.userId == uid
    ensures forall d :: d != department ==>
      forall x :: x in ActiveSubscribers(Upsert(users, uid, username, department), d) ==> x.userId != uid
  {
    var r := Upsert(users, uid, username, department);
    var row := UserRow(uid, username, department, true);
    var i :| 0 <= i < |r| && r[i] == row && row.userId == uid && forall j :: 0 <= j < i ==> r[j].userId != uid;
    assert row in r;
    forall d, x | d != department && x in ActiveSubscribers(r, d) ensures x.userId != uid {
      var k :| 0 <= k < |r| && r[k] == x;
    }
  }

  /** After `deactivate_user(uid)` the user is an active subscriber of no department. */
  lemma {:induction false} DeactivatedIsNowhere(users: seq<UserRow>, uid: int, department: string)
    ensures forall x :: x in ActiveSubscribers(Deactivate(users, uid), department) ==> x.userId != uid
  {
    var r := Deactivate(users, uid);
    forall x | x in ActiveSubscribers(r, department) ensures x.userId != uid {
      var k :| 0 <= k < |r| && r[k] == x;
      assert r[k] == if users[k].userId == uid then users[k].(active := false) else users[k];
    }
  }

  // ===========================================================================
  // The sent_announcements table

  /** `is_announcement_sent(d, h)`: a row records the pair. */
  predicate IsSent(rows: seq<SentRow>, department: string, hash: string)
  {
    exists i :: 0 <= i < |rows| && rows[i].department == department && rows[i].hash == hash
  }

  /** At most one row per (department, hash) pair. */
  predicate UniquePairs(rows: seq<SentRow>)
  {
    forall i, j :: 0 <= i < j < |rows| ==>
      rows[i].department != rows[j].department || rows[i].hash != rows[j].hash
  }

  /** `mark_announcement_sent(d, h, title)` at time `now`: insert the pair unless
      it is already there. */
  function MarkSent(rows: seq<SentRow>, department: string, hash: string, title: string, now: int): (r: seq<SentRow>)
    ensures IsSent(r, department, hash)
    ensures IsSent(rows, department, hash) ==> r == rows
    ensures !IsSent(rows, department, hash) ==> r == rows + [SentRow(department, hash, title, now)]
    ensures forall d, h :: d != department || h != hash ==> (IsSent(r, d, h) <==> IsSent(rows, d, h))
    ensures UniquePairs(rows) ==> UniquePairs(r)
  {
    if IsSent(rows, department, hash) then rows
    else
      var r := rows + [SentRow(department, hash, title, now)];
      assert r[|rows|].department == department && r[|rows|].hash == hash;
      assert forall d, h :: IsSent(rows, d, h) ==> IsSent(r, d, h) by {
        forall d, h | IsSent(rows, d, h) ensures IsSent(r, d, h) {
          var i :| 0 <= i < |rows| && rows[i].department == d && rows[i].hash == h;
          assert r[i] == rows[i];
        }
      }
      r
  }

  /** Marking a pair twice leaves the table as the first mark left it. */
  lemma MarkSentIdempotent(rows: seq<SentRow>, department: string, hash: string, t1: string, t2: string, now1: int, now2: int)
    ensures MarkSent(MarkSent(rows, department, hash, t1, now1), department, hash, t2, now2)
         == MarkSent(rows, department, hash, t1, now1)
  {
  }

  /** The cut-off of `cleanup_old_announcements(days)` run at `now`. */
  function Cutoff(now: int, daysToKeep: int): int
  {
    now - daysToKeep * SecondsPerDay
  }

  /** `remove(Announcement.sent_at < cutoff)`: keep, in order, the rows sent at or after the cut-off. */
  function Sweep(rows: seq<SentRow>, cutoff: int): (r: seq<SentRow>)
    ensures forall x :: x in r <==> x in rows && x.sentAt >= cutoff
    ensures |r| <= |rows|
    ensures UniquePairs(rows) ==> UniquePairs(r)
    ensures forall d, h :: IsSent(r, d, h) ==> IsSent(rows, d, h)
  {
    if rows == [] then []
    else
      var rest := Sweep(rows[1..], cutoff);
      assert forall x :: x in rows <==> x == rows[0] || x in rows[1..];
      var r := if rows[0].sentAt >= cutoff then [rows[0]] + rest else rest;
      SweepKeepsUnique(rows, rest, r);
      SweepKeepsSent(rows, r);
      r
  }

  lemma SweepKeepsSent(rows: seq<SentRow>, r: seq<SentRow>)
    requires forall x :: x in r ==> x in rows
    ensures forall d, h :: IsSent(r, d, h) ==> IsSent(rows, d, h)
  {
    forall d, h | IsSent(r, d, h) ensures IsSent(rows, d, h) {
      var i :| 0 <= i < |r| && r[i].department == d && r[i].hash == h;
      assert r[i] in rows;
    }
  }

  lemma SweepKeepsUnique(rows: seq<SentRow>, rest: seq<SentRow>, r: seq<SentRow>)
    requires rows != []
    requires forall x :: x in rest ==> x in rows[1..]
    requires UniquePairs(rows[1..]) ==> UniquePairs(rest)
    requires r == rest || r == [rows[0]] + rest
    ensures UniquePairs(rows) ==> UniquePairs(r)
  {
    if UniquePairs(rows) && r != rest {
      assert UniquePairs(rows[1..]) by {
        forall i, j | 0 <= i < j < |rows[1..]| ensures rows[1..][i].department != rows[1..][j].department || rows[1..][i].hash != rows[1..][j].hash {
          assert rows[1..][i] == rows[i + 1] && rows[1..][j] == rows[j + 1];
        }
      }
      forall j | 0 <= j < |rest| ensures rows[0].department != rest[j].department || rows[0].hash != rest[j].hash {
        assert rest[j] in rows[1..];
        var k :| 0 <= k < |rows[1..]| && rows[1..][k] == rest[j];
        assert rows[k + 1] == rest[j];
      }
      forall i, j | 0 <= i < j < |r| ensures r[i].department != r[j].department || r[i].hash != r[j].hash {
        if i > 0 { assert r[i] == rest[i - 1] && r[j] == rest[j - 1]; }
        else { assert r[j] == rest[j - 1]; }
      }
    }
  }

  /** Retention by age: a row 31 days old is swept by a 30-day cleanup, one 29 days old is kept. */
  lemma SweepByAge(rows: seq<SentRow>, now: int, old31: SentRow, young29: SentRow)
    requires old31 in rows && old31.sentAt == now - 31 * SecondsPerDay
    requires young29 in rows && young29.sentAt == now - 29 * SecondsPerDay
    ensures old31 !in Sweep(rows, Cutoff(now, 30))
    ensures young29 in Sweep(rows, Cutoff(now, 30))
  {
  }

  /** `search(Announcement.department == d)` counted. */
  function CountFor(rows: seq<SentRow>, department: string): (n: nat)
    ensures n <= |rows|
    ensures n == 0 <==> forall i :: 0 <= i < |rows| ==> rows[i].department != department
    ensures n == |rows| <==> forall i :: 0 <= i < |rows| ==> rows[i].department == department
  {
    if rows == [] then 0
    else
      var n := CountFor(rows[1..], department);
      assert forall i :: 0 < i < |rows| ==> rows[i] == rows[1..][i - 1];
      (if rows[0].department == department then 1 else 0) + n
  }

  /** The count for a department adds up over a concatenation: every row is counted once, where it stands. */
  lemma {:induction false} CountForAppend(xs: seq<SentRow>, ys: seq<SentRow>, department: string)
    ensures CountFor(xs + ys, department) == CountFor(xs, department) + CountFor(ys, department)
  {
    if xs != [] {
      assert (xs + ys)[0] == xs[0];
      assert (xs + ys)[1..] == xs[1..] + ys;
      CountForAppend(xs[1..], ys, department);
    } else {
      assert xs + ys == ys;
    }
  }

  /** One row counts one exactly when it was sent for the department. */
  lemma CountForSingle(row: SentRow, department: string)
    ensures CountFor([row], department) == if row.department == department then 1 else 0
  {
  }

  // ===========================================================================
  // The TinyDB-backed handler

  class DatabaseHandler {
    /** The `users` table, in insertion order. */
    var users: seq<UserRow>
    /** The `sent_announcements` table, in insertion order. */
    var sent: seq<SentRow>

    /** The invariant every operation keeps: one row per user, one row per pair. */
    ghost predicate Valid()
      reads this
    {
      UniqueUsers(users) && UniquePairs(sent)
    }

    /** Opens a store whose file holds `users0` and `sent0`. */
    constructor (users0: seq<UserRow>, sent0: seq<SentRow>)
      ensures users == users0 && sent == sent0
    {
      users := users0;
      sent := sent0;
    }

    method AddUserSubscription(userId: int, username: string, department: string)
      modifies this
      ensures users == Upsert(old(users), userId, username, department)
      ensures sent == old(sent)
      ensures old(Valid()) ==> Valid()
    {
      users := Upsert(users, userId, username, department);
    }

    function GetUsersByDepartment(department: string): (r: seq<UserRow>)
      reads this
      ensures r == ActiveSubscribers(users, department)
      ensures forall x :: x in r <==> x in users && x.department == department && x.active
    {
      ActiveSubscribers(users, department)
    }

    function GetUserSubscription(userId: int): (r: Option<UserRow>)
      reads this
      ensures r.Some? <==> HasUser(users, userId)
      ensures r.Some? ==> r.value in users && r.value.userId == userId
    {
      FindUser(users, userId)
    }

    method DeactivateUser(userId: int)
      modifies this
      ensures users == Deactivate(old(users), userId)
      ensures sent == old(sent)
      ensures old(Valid()) ==> Valid()
    {
      users := Deactivate(users, userId);
    }

    function IsAnnouncementSent(department: string, hash: string): (r: bool)
      reads this
      ensures r <==> exists i :: 0 <= i < |sent| && sent[i].department == department && sent[i].hash == hash
    {
      IsSent(sent, department, hash)
    }

    /** Records the pair with `now` (the clock reading) as its `sent_at`, unless it is already recorded. */
    method MarkAnnouncementSent(department: string, hash: string, title: string, now: int)
      modifies this
      ensures sent == MarkSent(old(sent), department, hash, title, now)
      ensures users == old(users)
      ensures old(Valid()) ==> Valid()
    {
      if !IsAnnouncementSent(department, hash) {
        sent := sent + [SentRow(department, hash, title, now)];
      }
    }

    function GetAllUsers(): (r: seq<UserRow>)
      reads this
      ensures r == users
    {
      users
    }

    /** With a department (a non-empty name), the rows of that department;
        with `None` or the empty name, every row. */
    function GetSentAnnouncementsCount(department: Option<string>): (n: nat)
      reads this
      ensures n <= |sent|
      ensures department.None? || department.value == [] ==> n == |sent|
      ensures department.Some? && department.value != [] ==> n == CountFor(sent, department.value)
      ensures department.Some? && department.value != [] ==>
        (n == 0 <==> forall i :: 0 <= i < |sent| ==> sent[i].department != department.value)
    {
      if department.Some? && department.value != [] then CountFor(sent, department.value) else |sent|
    }

    /** Removes the rows sent more than `daysToKeep` days before `now`. */
    method CleanupOldAnnouncements(daysToKeep: int, now: int)
      modifies this
      ensures sent == Sweep(old(sent), Cutoff(now, daysToKeep))
      ensures users == old(users)
      ensures old(Valid()) ==> Valid()
    {
      sent := Sweep(sent, Cutoff(now, daysToKeep));
    }

    function GetStats(): (r: Stats)
      reads this
      ensures r.activeUsers <= r.totalUsers == |users|
      ensures r.activeUsers == CountActive(users)
      ensures r.totalSentAnnouncements == |sent|
    {
      Stats(|users|, CountActive(users), |sent|)
    }
  }

  // ===========================================================================
  // The legacy JSON handler

  /** One department's entry: `sent_hashes` and `last_titles`, oldest first. */
  datatype History = History(sentHashes: seq<string>, lastTitles: seq<string>)

  /** How many fingerprints a department's history keeps. */
  const HistoryCap: nat := 50

  /** `s[-n:]`: the last `n` elements, or all of them when there are fewer. */
  function KeepLast<T>(s: seq<T>, n: nat): (r: seq<T>)
    ensures |r| <= n && |r| <= |s|
    ensures |s| <= n ==> r == s
    ensures |s| > n ==> |r| == n
    ensures forall i :: 0 <= i < |r| ==> r[i] == s[|s| - |r| + i]
  {
    if |s| > n then s[|s| - n..] else s
  }

  /** Hashes and titles that stay paired position by position. */
  predicate InLockstep(h: History)
  {
    |h.sentHashes| == |h.lastTitles|
  }

  /** The invariant of a history: in lockstep and at most 50 long. */
  predicate Bounded(h: History)
  {
    InLockstep(h) && |h.sentHashes| <= HistoryCap
  }

  /** The body of `JSONHandler.mark_announcement_sent` on one department's history. */
  function Record(h: History, hash: string, title: string): (r: History)
    ensures hash in r.sentHashes
    ensures hash in h.sentHashes ==> r == h
    ensures hash !in h.sentHashes ==> r.sentHashes[|r.sentHashes| - 1] == hash
    ensures hash !in h.sentHashes ==> |r.sentHashes| <= HistoryCap
    ensures hash !in h.sentHashes && |h.sentHashes| < HistoryCap ==> r.sentHashes == h.sentHashes + [hash]
    ensures hash !in h.sentHashes && |h.sentHashes| == HistoryCap ==> r.sentHashes == h.sentHashes[1..] + [hash]
    ensures Bounded(h) ==> Bounded(r)
  {
    if hash in h.sentHashes then h
    else
      var hashes := h.sentHashes + [hash];
      var titles := h.lastTitles + [title];
      if |hashes| > HistoryCap then
        SlideWindow(h.sentHashes, hash, HistoryCap);
        History(KeepLast(hashes, HistoryCap), KeepLast(titles, HistoryCap))
      else
        assert hashes[|hashes| - 1] == hash;
        History(hashes, titles)
  }

  /** Appending to a window that is already full drops its oldest element. */
  lemma SlideWindow<T>(s: seq<T>, x: T, n: nat)
    requires 0 < n <= |s|
    ensures var r := KeepLast(s + [x], n);
      |r| == n && r[n - 1] == x && (|s| == n ==> r == s[1..] + [x])
  {
    var r := KeepLast(s + [x], n);
    assert r[n - 1] == (s + [x])[|s|];
    if |s| == n {
      assert r == (s + [x])[1..];
      assert (s + [x])[1..] == s[1..] + [x];
    }
  }

  /** In a bounded history the title recorded beside each hash stays beside it. */
  lemma {:induction false} RecordKeepsPairs(h: History, hash: string, title: string, i: nat)
    requires Bounded(h) && hash !in h.sentHashes
    requires i < |Record(h, hash, title).sentHashes|
    ensures var r := Record(h, hash, title);
      var k := |h.sentHashes| + 1 - |r.sentHashes| + i;
      (k < |h.sentHashes| ==> r.sentHashes[i] == h.sentHashes[k] && r.lastTitles[i] == h.lastTitles[k]) &&
      (k == |h.sentHashes| ==> r.sentHashes[i] == hash && r.lastTitles[i] == title)
  {
    var hashes := h.sentHashes + [hash];
    var titles := h.lastTitles + [title];
    var r := Record(h, hash, title);
    var k := |h.sentHashes| + 1 - |r.sentHashes| + i;
    if |hashes| > HistoryCap {
      assert r.sentHashes[i] == hashes[k] && r.lastTitles[i] == titles[k];
    } else {
      assert r.sentHashes == hashes && r.lastTitles == titles;
    }
  }

  /** `self.data.get(d, {})`, with a missing department read as an empty history. */
  function EntryOf(data: map<string, History>, department: string): History
  {
    if department in data then data[department] else History([], [])
  }

  class JsonHandler {
    /** `self.data`: department name to its history. */
    var data: map<string, History>

    ghost predicate Valid()
      reads this
    {
      forall d :: d in data ==> Bounded(data[d])
    }

    /** Starts from the content `loaded` read from the JSON file (empty when the file is absent). */
    constructor (loaded: map<string, History>)
      ensures data == loaded
    {
      data := loaded;
    }

    function IsAnnouncementSent(department: string, hash: string): (r: bool)
      reads this
      ensures r <==> department in data && hash in data[department].sentHashes
    {
      hash in EntryOf(data, department).sentHashes
    }

    /** Appends the pair to the department's history (creating it), keeping the newest 50. */
    method MarkAnnouncementSent(department: string, hash: string, title: string)
      modifies this
      ensures data == old(data)[department := Record(EntryOf(old(data), department), hash, title)]
      ensures old(Valid()) ==> Valid()
      ensures forall d :: d != department ==> (d in data <==> d in old(data)) && (d in data ==> data[d] == old(data)[d])
    {
      if department !in data {
        data := data[department := History([], [])];
      }
      var entry := data[department];
      if hash !in entry.sentHashes {
        var hashes := entry.sentHashes + [hash];
        var titles := entry.lastTitles + [title];
        if |hashes| > HistoryCap {
          hashes := KeepLast(hashes, HistoryCap);
          titles := KeepLast(titles, HistoryCap);
        }
        data := data[department := History(hashes, titles)];
      }
    }
  }
}
