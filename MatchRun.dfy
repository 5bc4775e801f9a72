/**
 * The matching job as the source runs it: `matchUsers` walks the rows it
 * read, fills `availabilitiesByUser`, visits the users in turn while
 * growing `groupedMatches` and `usedEmails`, and then writes one `matches`
 * row and makes one `sendEmail` call per group member (`MatchUsers`).
 * `MatchUsersCorrected` is the same job with one call per group instead.
 * Each loop is proved equal to the functions of `Matching`, whose
 * properties are proved there.
 */
module MatchRun {
  import opened Wrappers
  import opened Availability
  import opened Matching

  /** `users` and `byUser` hold the users of `rows` and each one's slots. */
  ghost predicate Bucketed(users: seq<string>, byUser: map<string, seq<Row>>, rows: seq<Row>)
  {
    users == Users(rows) && KeysAreUsers(byUser, users) && ListsAreSlots(byUser, rows)
  }

  /** The keys of `byUser` are exactly the users. */
  ghost predicate KeysAreUsers(byUser: map<string, seq<Row>>, users: seq<string>)
  {
    forall e :: e in byUser <==> e in users
  }

  /** Each key's list is that user's slots. */
  ghost predicate ListsAreSlots(byUser: map<string, seq<Row>>, rows: seq<Row>)
  {
    forall e :: e in byUser ==> byUser[e] == SlotsOf(rows, e)
  }

  /** Filing a row of a new user: the user is appended and gets a list holding that row. */
  lemma BucketedSnocNew(users: seq<string>, byUser: map<string, seq<Row>>, rows: seq<Row>, row: Row)
    requires Bucketed(users, byUser, rows) && row.email !in byUser
    ensures Bucketed(users + [row.email], byUser[row.email := [row]], rows + [row])
  {
    UsersSnoc(rows, row);
    SlotsOfAbsent(rows, row.email);
    var byUser' := byUser[row.email := [row]];
    forall e | e in byUser'
      ensures byUser'[e] == SlotsOf(rows + [row], e)
    {
      SlotsOfSnoc(rows, row, e);
    }
  }

  /** Filing a row of a known user: the row is appended to that user's list. */
  lemma BucketedSnocKnown(users: seq<string>, byUser: map<string, seq<Row>>, rows: seq<Row>, row: Row)
    requires Bucketed(users, byUser, rows) && row.email in byUser
    ensures Bucketed(users, byUser[row.email := byUser[row.email] + [row]], rows + [row])
  {
    KnownUserKeys(users, byUser, rows, row);
    KnownUserSlots(byUser, rows, row);
  }

  /** A row of a known user leaves the user list and the keys as they were. */
  lemma KnownUserKeys(users: seq<string>, byUser: map<string, seq<Row>>, rows: seq<Row>, row: Row)
    requires users == Users(rows) && KeysAreUsers(byUser, users) && row.email in byUser
    ensures users == Users(rows + [row])
    ensures KeysAreUsers(byUser[row.email := byUser[row.email] + [row]], users)
  {
    UsersSnoc(rows, row);
  }

  /** A row of a known user, appended to that user's list, keeps every list equal to its user's slots. */
  lemma KnownUserSlots(byUser: map<string, seq<Row>>, rows: seq<Row>, row: Row)
    requires ListsAreSlots(byUser, rows) && row.email in byUser
    ensures ListsAreSlots(byUser[row.email := byUser[row.email] + [row]], rows + [row])
  {
    var byUser' := byUser[row.email := byUser[row.email] + [row]];
    forall e | e in byUser'
      ensures byUser'[e] == SlotsOf(rows + [row], e)
    {
      SlotsOfSnoc(rows, row, e);
    }
  }

  /**
   * `rows.forEach(...)` filling `availabilitiesByUser`: `users` holds the
   * keys in insertion order, `byUser` each user's rows in row order.
   */
  method BucketByEmail(rows: seq<Row>) returns (users: seq<string>, byUser: map<string, seq<Row>>)
    ensures users == Users(rows)
    ensures forall e :: e in byUser <==> e in users
    ensures forall e :: e in byUser ==> byUser[e] == SlotsOf(rows, e)
  {
    users, byUser := [], map[];
    var i := 0;
    while i < |rows|
      invariant 0 <= i <= |rows|
      invariant Bucketed(users, byUser, rows[..i])
    {
      var row := rows[i];
      assert rows[..i + 1] == rows[..i] + [row];
      if row.email !in byUser {
        // a new key gets a fresh list holding this row
        BucketedSnocNew(users, byUser, rows[..i], row);
        users := users + [row.email];
        byUser := byUser[row.email := [row]];
      } else {
        BucketedSnocKnown(users, byUser, rows[..i], row);
        byUser := byUser[row.email := byUser[row.email] + [row]];
      }
      i := i + 1;
    }
    assert rows[..i] == rows;
  }

  /**
   * `group.forEach(member => usedEmails.add(member.email))`: the used set
   * gains exactly the group's emails.
   */
  method MarkUsed(used: set<string>, group: seq<Row>) returns (used': set<string>)
    ensures used' == used + Emails(group)
  {
    used' := used;
    var k := 0;
    while k < |group|
      invariant 0 <= k <= |group|
      invariant used' == used + Emails(group[..k])
    {
      assert group[..k + 1] == group[..k] + [group[k]];
      EmailsAppend(group[..k], [group[k]]);
      used' := used' + {group[k].email};
      k := k + 1;
    }
    assert group[..k] == group;
  }

  /**
   * The second `groupedMatches.forEach(...)` as written: for every member
   * of every group, in order, one `matches` row and one `sendEmail` call,
   * so a group of n members is mailed n times.
   */
  method PersistMatchesAsWritten(groups: seq<MatchedGroup>) returns (matchRows: seq<MatchRow>, notifications: seq<Notification>)
    ensures matchRows == MatchRowsOf(groups)
    ensures notifications == NotificationsAsWritten(groups)
  {
    matchRows, notifications := [], [];
    var k := 0;
    while k < |groups|
      invariant 0 <= k <= |groups|
      invariant matchRows == MatchRowsOf(groups[..k])
      invariant notifications == NotificationsAsWritten(groups[..k])
    {
      var g := groups[k];
      var rowsBefore, notesBefore := matchRows, notifications;
      var j := 0;
      while j < |g.members|
        invariant 0 <= j <= |g.members|
        invariant matchRows == rowsBefore + seq(j, i requires 0 <= i < j => MemberRow(g.groupId, g.members[i]))
        invariant notifications == notesBefore + seq(j, i requires 0 <= i < j => NotificationFor(g.members))
      {
        matchRows := matchRows + [MemberRow(g.groupId, g.members[j])];
        notifications := notifications + [NotificationFor(g.members)];
        j := j + 1;
      }
      assert groups[..k + 1][..k] == groups[..k];
      assert groups[..k + 1][k] == g;
      k := k + 1;
    }
    assert groups[..k] == groups;
  }

  /**
   * The same loop with the `sendEmail` call moved after the loop over the
   * members: one `matches` row per member and one call per group, skipped
   * (as `sendEmail` itself does) when there is no recipient.
   */
  method PersistMatches(groups: seq<MatchedGroup>) returns (matchRows: seq<MatchRow>, notifications: seq<Notification>)
    ensures matchRows == MatchRowsOf(groups)
    ensures notifications == GroupNotifications(groups)
  {
    matchRows, notifications := [], [];
    var k := 0;
    while k < |groups|
      invariant 0 <= k <= |groups|
      invariant matchRows == MatchRowsOf(groups[..k])
      invariant notifications == GroupNotifications(groups[..k])
    {
      var g := groups[k];
      var rowsBefore := matchRows;
      var j := 0;
      while j < |g.members|
        invariant 0 <= j <= |g.members|
        invariant matchRows == rowsBefore + seq(j, i requires 0 <= i < j => MemberRow(g.groupId, g.members[i]))
      {
        matchRows := matchRows + [MemberRow(g.groupId, g.members[j])];
        j := j + 1;
      }
      if |g.members| > 0 {
        notifications := notifications + [NotificationFor(g.members)];
      }
      assert groups[..k + 1][..k] == groups[..k];
      assert groups[..k + 1][k] == g;
      k := k + 1;
    }
    assert groups[..k] == groups;
  }

  /**
   * One user's turn: skipped when the user's email is used or no slot has
   * two potential matches; otherwise the group is pushed with the next id
   * and its emails are marked used, as `Step` says.
   */
  method TakeTurn(groups: seq<MatchedGroup>, used: set<string>, userSlots: seq<Row>, rows: seq<Row>)
    returns (groups': seq<MatchedGroup>, used': set<string>)
    requires |userSlots| > 0
    ensures RunState(groups', used') == Step(RunState(groups, used), userSlots, rows)
  {
    groups', used' := groups, used;
    if userSlots[0].email !in used {
      var anchored := TryAnchor(userSlots, rows, used);
      if anchored.Some? {
        var group := anchored.value;
        groups' := groups + [MatchedGroup(|groups|, group)];
        used' := MarkUsed(used, group);
      }
    }
  }

  /**
   * The first `Object.values(availabilitiesByUser).forEach(...)`: the users
   * take their turns in first-appearance order, and the groups and used
   * emails grow exactly as `Grouping` says.
   */
  method FormGroups(rows: seq<Row>) returns (groups: seq<MatchedGroup>)
    requires |rows| > 0
    ensures groups == Grouping(rows).groups
  {
    var users, byUser := BucketByEmail(rows);
    ghost var buckets := Buckets(rows);
    BucketsAreBuckets(rows);
    groups := [];
    var used: set<string> := {};
    var i := 0;
    while i < |users|
      invariant 0 <= i <= |users| == |buckets|
      invariant RunState(groups, used) == RunUsers(buckets[..i], rows)
    {
      var userSlots := byUser[users[i]];
      assert userSlots == buckets[i];
      NextTurn(buckets, rows, i);
      groups, used := TakeTurn(groups, used, userSlots, rows);
      i := i + 1;
    }
    assert buckets[..i] == buckets;
  }

  /**
   * `matchUsers` on the rows the query returned, as written: the groups
   * are those of `Grouping`, numbered 0, 1, ... in the order they were
   * formed, with 3 or 4 members each and no email in two groups; every
   * member gets its `matches` row and, beside it, one `sendEmail` call to
   * the whole group, so a group of n members is mailed n times.
   * No rows, nothing at all.
   */
  method MatchUsers(rows: seq<Row>) returns (groups: seq<MatchedGroup>, matchRows: seq<MatchRow>, notifications: seq<Notification>)
    ensures groups == Grouping(rows).groups
    ensures forall k :: 0 <= k < |groups| ==> groups[k].groupId == k && 3 <= |groups[k].members| <= 4
    ensures forall k1, k2 :: 0 <= k1 < k2 < |groups| ==> Emails(groups[k1].members) !! Emails(groups[k2].members)
    ensures matchRows == MatchRowsOf(groups)
    ensures notifications == NotificationsAsWritten(groups)
    ensures |notifications| == |matchRows| == TotalMembers(groups)
    ensures |rows| == 0 ==> groups == [] && matchRows == [] && notifications == []
  {
    if |rows| == 0 {
      return [], [], [];
    }
    groups := FormGroups(rows);
    GroupingShape(rows);
    matchRows, notifications := PersistMatchesAsWritten(groups);
    MatchRowsCount(groups);
    NotificationsAsWrittenCount(groups);
  }

  /**
   * The same job with the evident correction: every member still gets its
   * `matches` row, and every group gets exactly one notification to all its
   * members.
   */
  method MatchUsersCorrected(rows: seq<Row>) returns (groups: seq<MatchedGroup>, matchRows: seq<MatchRow>, notifications: seq<Notification>)
    ensures groups == Grouping(rows).groups
    ensures forall k :: 0 <= k < |groups| ==> groups[k].groupId == k && 3 <= |groups[k].members| <= 4
    ensures forall k1, k2 :: 0 <= k1 < k2 < |groups| ==> Emails(groups[k1].members) !! Emails(groups[k2].members)
    ensures matchRows == MatchRowsOf(groups)
    ensures |notifications| == |groups|
    ensures forall k :: 0 <= k < |groups| ==> notifications[k] == NotificationFor(groups[k].members)
    ensures |rows| == 0 ==> groups == [] && matchRows == [] && notifications == []
  {
    if |rows| == 0 {
      return [], [], [];
    }
    groups := FormGroups(rows);
    GroupingShape(rows);
    matchRows, notifications := PersistMatches(groups);
    GroupNotificationsLayout(groups);
  }
}
