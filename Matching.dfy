/**
 * The greedy group matcher of matchAndEmail.js (`matchUsers`), as
 * functions: the potential-match filter, the choice of each user's anchor
 * slot, the formation of a group, the run over all users, and the rows and
 * notifications the run produces. The imperative run in MatchRun.dfy is
 * proved equal to these functions; the lemmas here state what they promise.
 */
module Matching {
  import opened Wrappers
  import opened Clock
  import opened Availability

  type Row = AvailabilityRow

  /** The location text that goes with every other one. */
  const OkWithBoth: string := "Ok with both"

  // ---------------------------------------------------------------------
  // Potential matches
  // ---------------------------------------------------------------------

  predicate LocationsCompatible(slotLocations: string, otherLocations: string)
  {
    otherLocations == slotLocations || slotLocations == OkWithBoth || otherLocations == OkWithBoth
  }

  /** Everything the filter asks of `other` except that its email is still unused. */
  predicate Compatible(slot: Row, other: Row)
  {
    && other.email != slot.email
    && other.date == slot.date
    && OverlapsAtLeastOneHour(slot.startTime, slot.endTime, other.startTime, other.endTime)
    && LocationsCompatible(slot.locations, other.locations)
  }

  /** The filter applied to every row when looking for partners of `slot`. */
  predicate IsPotentialMatch(slot: Row, other: Row, used: set<string>)
  {
    other.email !in used && Compatible(slot, other)
  }

  /**
   * For times written "HH:MM", as a time input sends them, a row is among
   * the potential matches exactly when it is a row of another, unused
   * email on the same date, with compatible locations, whose window shares
   * at least 60 minutes with the slot's: 60 minutes qualify, 59 do not.
   */
  lemma PotentialMatchInMinutes(rows: seq<Row>, slot: Row, other: Row, used: set<string>,
                                start1: nat, end1: nat, start2: nat, end2: nat)
    requires start1 < 24 * 60 && end1 < 24 * 60 && start2 < 24 * 60 && end2 < 24 * 60
    requires slot.startTime == FormatClock(start1) && slot.endTime == FormatClock(end1)
    requires other.startTime == FormatClock(start2) && other.endTime == FormatClock(end2)
    ensures other in PotentialMatches(rows, slot, used) <==>
      && other in rows
      && other.email != slot.email
      && other.email !in used
      && other.date == slot.date
      && Overlap(start1, end1, start2, end2) >= 60
      && LocationsCompatible(slot.locations, other.locations)
  {
    OneHourInMinutes(start1, end1, start2, end2);
  }

  /** Compatibility does not depend on which of the two rows is the anchor. */
  lemma CompatibleSymmetric(a: Row, b: Row)
    ensures Compatible(a, b) <==> Compatible(b, a)
  {
    CalculateOverlapSymmetric(a.startTime, a.endTime, b.startTime, b.endTime);
  }

  /** `rows.filter(...)`: the potential matches of `slot`, in row order. */
  function PotentialMatches(rows: seq<Row>, slot: Row, used: set<string>): (r: seq<Row>)
    ensures |r| <= |rows|
    ensures forall x :: x in r <==> x in rows && IsPotentialMatch(slot, x, used)
  {
    if |rows| == 0 then []
    else (if IsPotentialMatch(slot, rows[0], used) then [rows[0]] else [])
         + PotentialMatches(rows[1..], slot, used)
  }

  /** Filtering a concatenation filters each part and keeps them in order. */
  lemma {:induction false} PotentialMatchesAppend(a: seq<Row>, b: seq<Row>, slot: Row, used: set<string>)
    ensures PotentialMatches(a + b, slot, used) == PotentialMatches(a, slot, used) + PotentialMatches(b, slot, used)
    decreases |a|
  {
    if |a| == 0 {
      assert a + b == b;
    } else {
      assert (a + b)[0] == a[0];
      assert (a + b)[1..] == a[1..] + b;
      PotentialMatchesAppend(a[1..], b, slot, used);
    }
  }

  /** More used emails never add potential matches. */
  lemma {:induction false} PotentialMatchesShrink(rows: seq<Row>, slot: Row, used: set<string>, used': set<string>)
    requires used <= used'
    ensures |PotentialMatches(rows, slot, used')| <= |PotentialMatches(rows, slot, used)|
    decreases |rows|
  {
    if |rows| > 0 {
      PotentialMatchesShrink(rows[1..], slot, used, used');
    }
  }

  // ---------------------------------------------------------------------
  // Anchor choice and group formation
  // ---------------------------------------------------------------------

  /**
   * `userAvailabilities.find(...)` from position `k` on: the index of the
   * first slot with at least two potential matches.
   */
  function FirstAnchor(slots: seq<Row>, rows: seq<Row>, used: set<string>, k: nat): (r: Option<nat>)
    requires k <= |slots|
    ensures r.Some? ==> k <= r.value < |slots| && |PotentialMatches(rows, slots[r.value], used)| >= 2
    ensures r.Some? ==> forall j :: k <= j < r.value ==> |PotentialMatches(rows, slots[j], used)| < 2
    ensures r.None? ==> forall j :: k <= j < |slots| ==> |PotentialMatches(rows, slots[j], used)| < 2
    decreases |slots| - k
  {
    if k == |slots| then None
    else if |PotentialMatches(rows, slots[k], used)| >= 2 then Some(k)
    else FirstAnchor(slots, rows, used, k + 1)
  }

  /** `[bestSlot, ...potentialMatches.slice(0, 3)]`. */
  function FormGroup(anchor: Row, matches: seq<Row>): (g: seq<Row>)
    requires |matches| >= 2
    ensures 3 <= |g| <= 4
    ensures |g| == 4 <==> |matches| >= 3
    ensures g[0] == anchor && g[1..] == matches[..|g| - 1]
  {
    [anchor] + matches[..Min(3, |matches|)]
  }

  /** The emails of some rows, as a set. */
  function Emails(members: seq<Row>): set<string>
  {
    set m | m in members :: m.email
  }

  lemma EmailsAppend(a: seq<Row>, b: seq<Row>)
    ensures Emails(a + b) == Emails(a) + Emails(b)
  {
  }

  // ---------------------------------------------------------------------
  // Bucketing by email
  // ---------------------------------------------------------------------

  /** The emails of `rows` in order of first appearance: the keys of `availabilitiesByUser`. */
  function Users(rows: seq<Row>): (r: seq<string>)
    ensures forall e :: e in r <==> e in Emails(rows)
    ensures forall i, j :: 0 <= i < j < |r| ==> r[i] != r[j]
  {
    if |rows| == 0 then []
    else
      var u := Users(rows[..|rows| - 1]);
      assert rows == rows[..|rows| - 1] + [rows[|rows| - 1]];
      EmailsAppend(rows[..|rows| - 1], [rows[|rows| - 1]]);
      if rows[|rows| - 1].email in u then u else u + [rows[|rows| - 1].email]
  }

  /** The rows of one email, in row order: `availabilitiesByUser[email]`. */
  function SlotsOf(rows: seq<Row>, email: string): (r: seq<Row>)
    ensures |r| <= |rows|
    ensures forall x :: x in r <==> x in rows && x.email == email
  {
    if |rows| == 0 then []
    else
      assert rows == rows[..|rows| - 1] + [rows[|rows| - 1]];
      SlotsOf(rows[..|rows| - 1], email) + (if rows[|rows| - 1].email == email then [rows[|rows| - 1]] else [])
  }

  /** `Object.values(availabilitiesByUser)`: one bucket per user, users in first-appearance order. */
  function Buckets(rows: seq<Row>): (r: seq<seq<Row>>)
    ensures |r| == |Users(rows)|
    ensures forall i :: 0 <= i < |r| ==> r[i] == SlotsOf(rows, Users(rows)[i])
  {
    var users := Users(rows);
    seq(|users|, i requires 0 <= i < |users| => SlotsOf(rows, users[i]))
  }

  /** A user's bucket: non-empty, made of rows of the run, all with the first one's email. */
  predicate IsBucket(slots: seq<Row>, rows: seq<Row>)
  {
    |slots| > 0 && forall s :: s in slots ==> s in rows && s.email == slots[0].email
  }

  predicate AreBuckets(buckets: seq<seq<Row>>, rows: seq<Row>)
  {
    forall i :: 0 <= i < |buckets| ==> IsBucket(buckets[i], rows)
  }

  /** Each bucket holds rows of the run with one email, and none is empty. */
  lemma BucketsAreBuckets(rows: seq<Row>)
    ensures AreBuckets(Buckets(rows), rows)
  {
    var b := Buckets(rows);
    forall i | 0 <= i < |b|
      ensures IsBucket(b[i], rows)
    {
      var e := Users(rows)[i];
      assert e in Emails(rows);
      var x :| x in rows && x.email == e;
      assert x in b[i];
    }
  }

  /** Sum of the sizes of the buckets of `users`. */
  function BucketTotal(rows: seq<Row>, users: seq<string>): nat
  {
    if |users| == 0 then 0
    else BucketTotal(rows, users[..|users| - 1]) + |SlotsOf(rows, users[|users| - 1])|
  }

  lemma {:induction false} BucketTotalAppendRow(rows: seq<Row>, row: Row, users: seq<string>)
    requires forall i, j :: 0 <= i < j < |users| ==> users[i] != users[j]
    ensures BucketTotal(rows + [row], users) == BucketTotal(rows, users) + (if row.email in users then 1 else 0)
    decreases |users|
  {
    assert (rows + [row])[..|rows|] == rows;
    if |users| > 0 {
      var init := users[..|users| - 1];
      BucketTotalAppendRow(rows, row, init);
      assert users == init + [users[|users| - 1]];
      assert row.email in users <==> row.email in init || row.email == users[|users| - 1];
      assert !(row.email in init && row.email == users[|users| - 1]);
    }
  }

  lemma SlotsOfAbsent(rows: seq<Row>, email: string)
    requires email !in Emails(rows)
    ensures SlotsOf(rows, email) == []
  {
  }

  /** Every row lands in exactly one bucket: the bucket sizes add up to the number of rows. */
  lemma {:induction false} BucketsPartitionRows(rows: seq<Row>)
    ensures BucketTotal(rows, Users(rows)) == |rows|
    decreases |rows|
  {
    if |rows| > 0 {
      var init := rows[..|rows| - 1];
      var row := rows[|rows| - 1];
      assert rows == init + [row];
      BucketsPartitionRows(init);
      var u := Users(init);
      BucketTotalAppendRow(init, row, u);
      if row.email !in u {
        assert Users(rows) == u + [row.email];
        assert (u + [row.email])[..|u|] == u;
        assert row.email !in Emails(init);
        SlotsOfAbsent(init, row.email);
      }
    }
  }

  // ---------------------------------------------------------------------
  // The run
  // ---------------------------------------------------------------------

  /** A formed group: its id and its members, the anchor first. */
  datatype MatchedGroup = MatchedGroup(groupId: nat, members: seq<Row>)

  /** `groupedMatches` and `usedEmails` while the users are visited. */
  datatype RunState = RunState(groups: seq<MatchedGroup>, used: set<string>)

  /**
   * The group a user's slots give, if any: the first slot with at least
   * two potential matches, followed by its first potential matches
   * (lines 88-123 of the source, after the used-email check).
   */
  function TryAnchor(slots: seq<Row>, rows: seq<Row>, used: set<string>): Option<seq<Row>>
  {
    match FirstAnchor(slots, rows, used, 0)
    case None => None
    case Some(i) =>
      var matches := PotentialMatches(rows, slots[i], used);
      if |matches| >= 2 then Some(FormGroup(slots[i], matches)) else None
  }

  /**
   * One user's turn (the body of the `forEach` over users): skipped when
   * the user's email is used or no slot qualifies as anchor; otherwise the
   * group gets the number of groups before it as id, and all its emails
   * become used.
   */
  function Step(st: RunState, slots: seq<Row>, rows: seq<Row>): RunState
    requires |slots| > 0
  {
    if slots[0].email in st.used then st
    else
      match TryAnchor(slots, rows, st.used)
      case None => st
      case Some(group) =>
        RunState(st.groups + [MatchedGroup(|st.groups|, group)], st.used + Emails(group))
  }

  /**
   * A group formed for an unused user: 3 or 4 rows of the run, none with a
   * used email, every non-anchor member compatible with the anchor.
   */
  lemma TryAnchorGroup(slots: seq<Row>, rows: seq<Row>, used: set<string>)
    requires IsBucket(slots, rows) && slots[0].email !in used
    requires TryAnchor(slots, rows, used).Some?
    ensures var group := TryAnchor(slots, rows, used).value;
      && 3 <= |group| <= 4
      && (forall m :: m in group ==> m in rows)
      && Emails(group) !! used
      && (forall j :: 1 <= j < |group| ==> Compatible(group[0], group[j]))
  {
    var i := FirstAnchor(slots, rows, used, 0).value;
    var matches := PotentialMatches(rows, slots[i], used);
    var group := FormGroup(slots[i], matches);
    assert slots[i] in slots;
    forall m | m in group
      ensures m in rows && m.email !in used
    {
      if m != group[0] {
        assert m in group[1..];
        assert m in matches;
      }
    }
    forall j | 1 <= j < |group|
      ensures Compatible(group[0], group[j])
    {
      assert group[j] in group[1..];
      assert group[j] in matches;
    }
  }

  /** The state after the first users' turns. */
  function RunUsers(buckets: seq<seq<Row>>, rows: seq<Row>): RunState
    requires AreBuckets(buckets, rows)
  {
    if |buckets| == 0 then RunState([], {})
    else Step(RunUsers(buckets[..|buckets| - 1], rows), buckets[|buckets| - 1], rows)
  }

  /** The groups `matchUsers` forms from the rows it reads; no rows, no groups. */
  function Grouping(rows: seq<Row>): RunState
  {
    if |rows| == 0 then RunState([], {})
    else
      BucketsAreBuckets(rows);
      RunUsers(Buckets(rows), rows)
  }

  /** What the source promises of one group. */
  ghost predicate GroupWellFormed(g: MatchedGroup, k: nat, rows: seq<Row>, used: set<string>)
  {
    && g.groupId == k
    && 3 <= |g.members| <= 4
    && Emails(g.members) <= used
    && (forall m :: m in g.members ==> m in rows)
    && (forall j :: 1 <= j < |g.members| ==> Compatible(g.members[0], g.members[j]))
  }

  /**
   * The invariant of the run: every group well formed, no email in two
   * groups, and the used emails exactly the emails of the groups.
   */
  ghost predicate RunInvariant(st: RunState, rows: seq<Row>)
  {
    && (forall k :: 0 <= k < |st.groups| ==> GroupWellFormed(st.groups[k], k, rows, st.used))
    && (forall k1, k2 :: 0 <= k1 < k2 < |st.groups| ==>
          Emails(st.groups[k1].members) !! Emails(st.groups[k2].members))
    && (forall e :: e in st.used ==> exists k :: 0 <= k < |st.groups| && e in Emails(st.groups[k].members))
  }

  /**
   * One user's turn keeps the invariant; the used set only grows and the
   * earlier groups stay as they were, with at most one group added.
   */
  lemma StepPreservesInvariant(st: RunState, slots: seq<Row>, rows: seq<Row>)
    requires RunInvariant(st, rows) && IsBucket(slots, rows)
    ensures RunInvariant(Step(st, slots, rows), rows)
    ensures st.used <= Step(st, slots, rows).used
    ensures st.groups <= Step(st, slots, rows).groups
    ensures |Step(st, slots, rows).groups| <= |st.groups| + 1
  {
    if slots[0].email !in st.used && TryAnchor(slots, rows, st.used).Some? {
      var group := TryAnchor(slots, rows, st.used).value;
      TryAnchorGroup(slots, rows, st.used);
      AddGroupPreservesInvariant(st, group, rows);
    }
  }

  /** Appending a group of fresh emails keeps the invariant. */
  lemma AddGroupPreservesInvariant(st: RunState, group: seq<Row>, rows: seq<Row>)
    requires RunInvariant(st, rows)
    requires 3 <= |group| <= 4
    requires forall m :: m in group ==> m in rows
    requires Emails(group) !! st.used
    requires forall j :: 1 <= j < |group| ==> Compatible(group[0], group[j])
    ensures RunInvariant(RunState(st.groups + [MatchedGroup(|st.groups|, group)], st.used + Emails(group)), rows)
  {
    var n := |st.groups|;
    var st' := RunState(st.groups + [MatchedGroup(n, group)], st.used + Emails(group));
    forall k | 0 <= k < |st'.groups|
      ensures GroupWellFormed(st'.groups[k], k, rows, st'.used)
    {
      if k < n {
        assert st'.groups[k] == st.groups[k];
        GroupWellFormedGrows(st.groups[k], k, rows, st.used, st'.used);
      }
    }
    forall k1, k2 | 0 <= k1 < k2 < |st'.groups|
      ensures Emails(st'.groups[k1].members) !! Emails(st'.groups[k2].members)
    {
      assert st'.groups[k1] == st.groups[k1];
      if k2 == n {
        assert GroupWellFormed(st.groups[k1], k1, rows, st.used);
      } else {
        assert st'.groups[k2] == st.groups[k2];
      }
    }
    forall e | e in st'.used
      ensures exists k :: 0 <= k < |st'.groups| && e in Emails(st'.groups[k].members)
    {
      if e in st.used {
        var k :| 0 <= k < |st.groups| && e in Emails(st.groups[k].members);
        assert st'.groups[k] == st.groups[k];
      } else {
        assert e in Emails(st'.groups[n].members);
      }
    }
  }

  /** A group stays well formed when more emails become used. */
  lemma GroupWellFormedGrows(g: MatchedGroup, k: nat, rows: seq<Row>, used: set<string>, used': set<string>)
    requires GroupWellFormed(g, k, rows, used) && used <= used'
    ensures GroupWellFormed(g, k, rows, used')
  {
  }

  lemma {:induction false} RunUsersInvariant(buckets: seq<seq<Row>>, rows: seq<Row>)
    requires AreBuckets(buckets, rows)
    ensures RunInvariant(RunUsers(buckets, rows), rows)
    decreases |buckets|
  {
    if |buckets| > 0 {
      RunUsersInvariant(buckets[..|buckets| - 1], rows);
      StepPreservesInvariant(RunUsers(buckets[..|buckets| - 1], rows), buckets[|buckets| - 1], rows);
    }
  }

  /**
   * The run as a whole: every group has 3 or 4 members, all rows of the
   * run, every non-anchor member compatible with the anchor; group ids
   * are distinct; no email is in two groups; the used emails are exactly
   * the groups' emails.
   */
  lemma GroupingInvariant(rows: seq<Row>)
    ensures RunInvariant(Grouping(rows), rows)
  {
    if |rows| > 0 {
      BucketsAreBuckets(rows);
      RunUsersInvariant(Buckets(rows), rows);
    }
  }

  /** The turns up to bucket `i` are those before it followed by its own. */
  lemma NextTurn(b: seq<seq<Row>>, rows: seq<Row>, i: nat)
    requires AreBuckets(b, rows) && i < |b|
    ensures AreBuckets(b[..i], rows) && AreBuckets(b[..i + 1], rows)
    ensures RunUsers(b[..i + 1], rows) == Step(RunUsers(b[..i], rows), b[i], rows)
  {
    assert b[..i + 1][..i] == b[..i];
  }

  /** The groups of a run are numbered in order, have 3 or 4 members each and share no email. */
  lemma GroupingShape(rows: seq<Row>)
    ensures var groups := Grouping(rows).groups;
      && (forall k :: 0 <= k < |groups| ==> groups[k].groupId == k && 3 <= |groups[k].members| <= 4)
      && (forall k1, k2 :: 0 <= k1 < k2 < |groups| ==> Emails(groups[k1].members) !! Emails(groups[k2].members))
  {
    var st := Grouping(rows);
    GroupingInvariant(rows);
    forall k | 0 <= k < |st.groups|
      ensures st.groups[k].groupId == k && 3 <= |st.groups[k].members| <= 4
    {
      assert GroupWellFormed(st.groups[k], k, rows, st.used);
    }
  }

  /** Later turns only add: the used set grows and earlier groups are kept. */
  lemma {:induction false} RunUsersMonotone(buckets: seq<seq<Row>>, rows: seq<Row>, i: nat)
    requires AreBuckets(buckets, rows)
    requires i <= |buckets|
    ensures RunUsers(buckets[..i], rows).used <= RunUsers(buckets, rows).used
    ensures RunUsers(buckets[..i], rows).groups <= RunUsers(buckets, rows).groups
    decreases |buckets|
  {
    if i < |buckets| {
      var init := buckets[..|buckets| - 1];
      assert buckets[..i] == init[..i];
      RunUsersMonotone(init, rows, i);
      RunUsersInvariant(init, rows);
      StepPreservesInvariant(RunUsers(init, rows), buckets[|buckets| - 1], rows);
    } else {
      assert buckets[..i] == buckets;
    }
  }

  /** A user whose email is used, or who has no slot with two potential matches, forms no group. */
  lemma NoAnchorNoGroup(st: RunState, slots: seq<Row>, rows: seq<Row>)
    requires |slots| > 0
    requires slots[0].email in st.used
             || forall j :: 0 <= j < |slots| ==> |PotentialMatches(rows, slots[j], st.used)| < 2
    ensures Step(st, slots, rows) == st
  {
  }

  /**
   * A user whose email is unused and who has a slot with two potential
   * matches forms exactly one group: its first such slot, then the first
   * min(3, n) of the n potential matches in row order; their emails join
   * the used set.
   */
  lemma AnchorFormsGroup(st: RunState, slots: seq<Row>, rows: seq<Row>, i: nat)
    requires i < |slots| && slots[0].email !in st.used
    requires |PotentialMatches(rows, slots[i], st.used)| >= 2
    requires forall j :: 0 <= j < i ==> |PotentialMatches(rows, slots[j], st.used)| < 2
    ensures var matches := PotentialMatches(rows, slots[i], st.used);
      var group := [slots[i]] + matches[..Min(3, |matches|)];
      && Step(st, slots, rows).groups == st.groups + [MatchedGroup(|st.groups|, group)]
      && Step(st, slots, rows).used == st.used + Emails(group)
  {
    var r := FirstAnchor(slots, rows, st.used, 0);
    assert r.Some? && r.value == i;
    assert TryAnchor(slots, rows, st.used).Some?;
  }

  /** An empty row set forms no groups. */
  lemma NoRowsNoGroups()
    ensures Grouping([]).groups == [] && Grouping([]).used == {}
  {
  }

  // ---------------------------------------------------------------------
  // Bucketing one row at a time
  // ---------------------------------------------------------------------

  /** Adding a row adds its email to the users unless it is already there. */
  lemma UsersSnoc(rows: seq<Row>, r: Row)
    ensures Users(rows + [r]) == if r.email in Users(rows) then Users(rows) else Users(rows) + [r.email]
  {
    assert (rows + [r])[..|rows|] == rows;
  }

  /** Adding a row appends it to its own user's slots and to no other user's. */
  lemma SlotsOfSnoc(rows: seq<Row>, r: Row, email: string)
    ensures SlotsOf(rows + [r], email) == SlotsOf(rows, email) + (if r.email == email then [r] else [])
  {
    assert (rows + [r])[..|rows|] == rows;
  }

  /** The index of the first row with email `e`. */
  function FirstRow(rows: seq<Row>, e: string): (r: nat)
    requires e in Emails(rows)
    ensures r < |rows| && rows[r].email == e
    ensures forall k :: 0 <= k < r ==> rows[k].email != e
    decreases |rows|
  {
    if rows[0].email == e then 0
    else
      assert e in Emails(rows[1..]) by {
        var m :| m in rows && m.email == e;
        var k :| 0 <= k < |rows| && rows[k] == m;
        assert rows[1..][k - 1] == m;
      }
      1 + FirstRow(rows[1..], e)
  }

  /** Any index with email `e` and none before it is the first row of `e`. */
  lemma FirstRowUnique(rows: seq<Row>, e: string, k: nat)
    requires k < |rows| && rows[k].email == e
    requires forall k' :: 0 <= k' < k ==> rows[k'].email != e
    ensures e in Emails(rows) && FirstRow(rows, e) == k
  {
    assert rows[k] in rows;
  }

  /** Appending a row does not move the first row of an email already present. */
  lemma FirstRowSnoc(rows: seq<Row>, r: Row, e: string)
    requires e in Emails(rows)
    ensures e in Emails(rows + [r]) && FirstRow(rows + [r], e) == FirstRow(rows, e)
  {
    var k := FirstRow(rows, e);
    assert (rows + [r])[k] == rows[k];
    FirstRowUnique(rows + [r], e, k);
  }

  /**
   * The users come in order of first appearance: user i's first row comes
   * before user j's first row whenever i < j. This is the order in which
   * the keys of `availabilitiesByUser` are inserted, and so the order in
   * which the users take their turns.
   */
  lemma {:induction false} UsersFirstAppearance(rows: seq<Row>, i: nat, j: nat)
    requires i < j < |Users(rows)|
    ensures Users(rows)[i] in Emails(rows) && Users(rows)[j] in Emails(rows)
    ensures FirstRow(rows, Users(rows)[i]) < FirstRow(rows, Users(rows)[j])
    decreases |rows|
  {
    var init, r := rows[..|rows| - 1], rows[|rows| - 1];
    assert rows == init + [r];
    UsersSnoc(init, r);
    var u := Users(init);
    var ei, ej := Users(rows)[i], Users(rows)[j];
    if j < |u| {
      UsersFirstAppearance(init, i, j);
      FirstRowSnoc(init, r, ei);
      FirstRowSnoc(init, r, ej);
    } else {
      assert ej == r.email && ej !in Emails(init);
      assert ei in Emails(init);
      FirstRowSnoc(init, r, ei);
      forall k' | 0 <= k' < |init|
        ensures rows[k'].email != ej
      {
        assert rows[k'] == init[k'] && init[k'] in init;
      }
      FirstRowUnique(rows, ej, |init|);
    }
  }

  /** A user's slots keep row order: the slots of a concatenation are the slots of each part, in turn. */
  lemma {:induction false} SlotsOfAppend(a: seq<Row>, b: seq<Row>, e: string)
    ensures SlotsOf(a + b, e) == SlotsOf(a, e) + SlotsOf(b, e)
    decreases |b|
  {
    if |b| == 0 {
      assert a + b == a;
    } else {
      var init, r := b[..|b| - 1], b[|b| - 1];
      assert b == init + [r];
      SlotsOfAppend(a, init, e);
      SlotsOfAppendStep(a, init, r, e);
    }
  }

  lemma ConcatAssociates(x: seq<Row>, y: seq<Row>, z: seq<Row>)
    ensures x + (y + z) == (x + y) + z
  {
  }

  /** The inductive step of `SlotsOfAppend`: one more row at the end of the second part. */
  lemma SlotsOfAppendStep(a: seq<Row>, init: seq<Row>, r: Row, e: string)
    requires SlotsOf(a + init, e) == SlotsOf(a, e) + SlotsOf(init, e)
    ensures SlotsOf(a + (init + [r]), e) == SlotsOf(a, e) + SlotsOf(init + [r], e)
  {
    var last := if r.email == e then [r] else [];
    assert SlotsOf(a + (init + [r]), e) == SlotsOf(a + init, e) + last by {
      ConcatAssociates(a, init, [r]);
      SlotsOfSnoc(a + init, r, e);
    }
    assert SlotsOf(init + [r], e) == SlotsOf(init, e) + last by {
      SlotsOfSnoc(init, r, e);
    }
    ConcatAssociates(SlotsOf(a, e), SlotsOf(init, e), last);
  }

  // ---------------------------------------------------------------------
  // Persistence: `matches` rows and notifications
  // ---------------------------------------------------------------------

  /** A row of the `matches` table. */
  datatype MatchRow = MatchRow(groupId: nat, email: string, date: string, startTime: string, endTime: string, locations: string)

  /** The arguments of one `sendEmail(emails, date, time, locations)` call. */
  datatype Notification = Notification(emails: seq<string>, date: string, time: string, locations: string)

  function MemberRow(groupId: nat, member: Row): MatchRow
  {
    MatchRow(groupId, member.email, member.date, member.startTime, member.endTime, member.locations)
  }

  /** The `matches` rows of the groups, group by group, member by member. */
  function MatchRowsOf(groups: seq<MatchedGroup>): (r: seq<MatchRow>)
  {
    if |groups| == 0 then []
    else
      var g := groups[|groups| - 1];
      MatchRowsOf(groups[..|groups| - 1]) + seq(|g.members|, j requires 0 <= j < |g.members| => MemberRow(g.groupId, g.members[j]))
  }

  /** Number of members of the groups. */
  function TotalMembers(groups: seq<MatchedGroup>): nat
  {
    if |groups| == 0 then 0 else TotalMembers(groups[..|groups| - 1]) + |groups[|groups| - 1].members|
  }

  /**
   * One `matches` row per member per group: the rows of group k start
   * after the members of the groups before it, and the j-th carries the
   * group's id and that member's own email, date, times and locations.
   */
  lemma {:induction false} MatchRowsLayout(groups: seq<MatchedGroup>, k: nat, j: nat)
    requires k < |groups| && j < |groups[k].members|
    ensures |MatchRowsOf(groups)| == TotalMembers(groups)
    ensures TotalMembers(groups[..k]) + j < |MatchRowsOf(groups)|
    ensures MatchRowsOf(groups)[TotalMembers(groups[..k]) + j] == MemberRow(groups[k].groupId, groups[k].members[j])
    decreases |groups|
  {
    var init := groups[..|groups| - 1];
    if k < |groups| - 1 {
      MatchRowsLayout(init, k, j);
      assert init[..k] == groups[..k];
    } else {
      assert groups[..k] == init;
      MatchRowsCount(init);
    }
  }

  lemma {:induction false} MatchRowsCount(groups: seq<MatchedGroup>)
    ensures |MatchRowsOf(groups)| == TotalMembers(groups)
    decreases |groups|
  {
    if |groups| > 0 {
      MatchRowsCount(groups[..|groups| - 1]);
    }
  }

  function EmailList(members: seq<Row>): (r: seq<string>)
    ensures |r| == |members|
    ensures forall j :: 0 <= j < |members| ==> r[j] == members[j].email
  {
    seq(|members|, j requires 0 <= j < |members| => members[j].email)
  }

  lemma EmailListContains(members: seq<Row>, e: string)
    ensures e in EmailList(members) <==> e in Emails(members)
  {
    if e in Emails(members) {
      var m :| m in members && m.email == e;
      var j :| 0 <= j < |members| && members[j] == m;
      assert EmailList(members)[j] == e;
    }
  }

  /** The call for a group: all members' emails, the anchor's date, "start - end" window and locations. */
  function NotificationFor(members: seq<Row>): Notification
    requires |members| > 0
  {
    Notification(EmailList(members), members[0].date, members[0].startTime + " - " + members[0].endTime, members[0].locations)
  }

  /** The calls as written: `sendEmail` sits inside the loop over members, so a group of n makes n identical calls. */
  function NotificationsAsWritten(groups: seq<MatchedGroup>): seq<Notification>
  {
    if |groups| == 0 then []
    else
      var members := groups[|groups| - 1].members;
      NotificationsAsWritten(groups[..|groups| - 1])
        + seq(|members|, j requires 0 <= j < |members| => NotificationFor(members))
  }

  /**
   * As written, the calls line up with the `matches` rows: as many calls
   * as members, and the call made for member j of group k is that group's
   * notification.
   */
  lemma {:induction false} NotificationsAsWrittenLayout(groups: seq<MatchedGroup>, k: nat, j: nat)
    requires k < |groups| && j < |groups[k].members|
    ensures |NotificationsAsWritten(groups)| == TotalMembers(groups)
    ensures TotalMembers(groups[..k]) + j < |NotificationsAsWritten(groups)|
    ensures NotificationsAsWritten(groups)[TotalMembers(groups[..k]) + j] == NotificationFor(groups[k].members)
    decreases |groups|
  {
    var init := groups[..|groups| - 1];
    if k < |groups| - 1 {
      NotificationsAsWrittenLayout(init, k, j);
      assert init[..k] == groups[..k];
    } else {
      assert groups[..k] == init;
      NotificationsAsWrittenCount(init);
    }
  }

  lemma {:induction false} NotificationsAsWrittenCount(groups: seq<MatchedGroup>)
    ensures |NotificationsAsWritten(groups)| == TotalMembers(groups)
    decreases |groups|
  {
    if |groups| > 0 {
      NotificationsAsWrittenCount(groups[..|groups| - 1]);
    }
  }

  /** The calls as evidently intended: one per group. */
  function GroupNotifications(groups: seq<MatchedGroup>): (r: seq<Notification>)
    ensures |r| <= |groups|
  {
    if |groups| == 0 then []
    else
      var members := groups[|groups| - 1].members;
      GroupNotifications(groups[..|groups| - 1]) + (if |members| == 0 then [] else [NotificationFor(members)])
  }

  /** As written, a group of three members triggers the same notification three times. */
  lemma TripleNotification(g: MatchedGroup)
    requires |g.members| == 3
    ensures var n := NotificationFor(g.members);
      NotificationsAsWritten([g]) == [n, n, n]
  {
    assert [g][..0] == [];
  }

  /** Corrected: one notification per group, addressed to that group's members. */
  lemma {:induction false} GroupNotificationsLayout(groups: seq<MatchedGroup>)
    requires forall k :: 0 <= k < |groups| ==> |groups[k].members| > 0
    ensures |GroupNotifications(groups)| == |groups|
    ensures forall k :: 0 <= k < |groups| ==> GroupNotifications(groups)[k] == NotificationFor(groups[k].members)
    decreases |groups|
  {
    if |groups| > 0 {
      GroupNotificationsLayout(groups[..|groups| - 1]);
    }
  }

  /** An email lies in at most one of pairwise disjoint groups. */
  lemma UniqueGroupOf(st: RunState, rows: seq<Row>, e: string, k1: nat, k2: nat)
    requires RunInvariant(st, rows)
    requires k1 < |st.groups| && k2 < |st.groups|
    requires e in Emails(st.groups[k1].members) && e in Emails(st.groups[k2].members)
    ensures k1 == k2
  {
  }

  /** With the correction, every used email of a run is addressed by exactly one notification. */
  lemma EachMemberNotifiedOnce(rows: seq<Row>, e: string)
    requires e in Grouping(rows).used
    ensures var groups := Grouping(rows).groups;
      var notes := GroupNotifications(groups);
      && |notes| == |groups|
      && (exists k :: 0 <= k < |notes| && e in notes[k].emails)
      && (forall k1, k2 :: 0 <= k1 < |notes| && 0 <= k2 < |notes| && e in notes[k1].emails && e in notes[k2].emails ==> k1 == k2)
  {
    var st := Grouping(rows);
    var groups := st.groups;
    GroupingInvariant(rows);
    assert forall k :: 0 <= k < |groups| ==> |groups[k].members| > 0 by {
      forall k | 0 <= k < |groups| ensures |groups[k].members| > 0 {
        assert GroupWellFormed(groups[k], k, rows, st.used);
      }
    }
    GroupNotificationsLayout(groups);
    var notes := GroupNotifications(groups);
    forall k | 0 <= k < |groups|
      ensures e in notes[k].emails <==> e in Emails(groups[k].members)
    {
      EmailListContains(groups[k].members, e);
    }
    forall k1, k2 | 0 <= k1 < |notes| && 0 <= k2 < |notes| && e in notes[k1].emails && e in notes[k2].emails
      ensures k1 == k2
    {
      UniqueGroupOf(st, rows, e, k1, k2);
    }
  }
}
