/**
 * Whole runs of the matcher on small row sets, derived from the general
 * model in `Matching`: what the greedy, first-come strategy does when
 * everybody is compatible, and how one user's two slots can fill a group.
 */
module Scenarios {
  import opened Wrappers
  import opened Matching

  /** No two rows share an email: every user has exactly one slot. */
  predicate DistinctEmails(rows: seq<Row>)
  {
    forall i, j :: 0 <= i < j < |rows| ==> rows[i].email != rows[j].email
  }

  /** With distinct emails the users are the rows' emails, in row order. */
  lemma {:induction false} DistinctUsers(rows: seq<Row>)
    requires DistinctEmails(rows)
    ensures Users(rows) == seq(|rows|, i requires 0 <= i < |rows| => rows[i].email)
  {
    if |rows| > 0 {
      var init := rows[..|rows| - 1];
      assert DistinctEmails(init);
      DistinctUsers(init);
      assert rows[|rows| - 1].email !in Users(init);
    }
  }

  /** With distinct emails a row's user owns that row alone. */
  lemma {:induction false} DistinctSlots(rows: seq<Row>, k: nat)
    requires DistinctEmails(rows) && k < |rows|
    ensures SlotsOf(rows, rows[k].email) == [rows[k]]
  {
    var init := rows[..|rows| - 1];
    assert DistinctEmails(init);
    if k < |rows| - 1 {
      DistinctSlots(init, k);
    } else {
      assert forall j :: 0 <= j < |init| ==> init[j].email != rows[k].email;
      SlotsOfAbsent(init, rows[k].email);
    }
  }

  /** With distinct emails every row is a bucket of its own, in row order. */
  lemma DistinctBuckets(rows: seq<Row>)
    requires DistinctEmails(rows)
    ensures Buckets(rows) == seq(|rows|, i requires 0 <= i < |rows| => [rows[i]])
  {
    DistinctUsers(rows);
    forall k | 0 <= k < |rows|
      ensures Buckets(rows)[k] == [rows[k]]
    {
      DistinctSlots(rows, k);
    }
  }

  /** A filter every row passes keeps all of them, in order. */
  lemma {:induction false} AllPotentialMatches(rows: seq<Row>, slot: Row, used: set<string>)
    requires forall x :: x in rows ==> IsPotentialMatch(slot, x, used)
    ensures PotentialMatches(rows, slot, used) == rows
    decreases |rows|
  {
    if |rows| > 0 {
      assert rows[0] in rows;
      AllPotentialMatches(rows[1..], slot, used);
    }
  }

  /** A filter no row passes keeps none. */
  lemma {:induction false} NoPotentialMatches(rows: seq<Row>, slot: Row, used: set<string>)
    requires forall x :: x in rows ==> !IsPotentialMatch(slot, x, used)
    ensures PotentialMatches(rows, slot, used) == []
    decreases |rows|
  {
    if |rows| > 0 {
      assert rows[0] in rows;
      NoPotentialMatches(rows[1..], slot, used);
    }
  }

  /** A slot is never its own potential match. */
  lemma NotOwnMatch(slot: Row, used: set<string>)
    ensures PotentialMatches([slot], slot, used) == []
  {
    assert [slot][1..] == [];
  }

  /** A slot compatible with every other row has all of them as potential matches. */
  lemma AllButSelf(anchor: Row, rest: seq<Row>)
    requires forall x :: x in rest ==> Compatible(anchor, x)
    ensures PotentialMatches([anchor] + rest, anchor, {}) == rest
  {
    PotentialMatchesAppend([anchor], rest, anchor, {});
    NotOwnMatch(anchor, {});
    AllPotentialMatches(rest, anchor, {});
  }

  /** A first slot with at least two potential matches anchors the group. */
  lemma FirstSlotAnchors(anchor: Row, rest: seq<Row>)
    requires |rest| >= 2
    requires PotentialMatches([anchor] + rest, anchor, {}) == rest
    ensures TryAnchor([anchor], [anchor] + rest, {}) == Some(FormGroup(anchor, rest))
  {
    assert FirstAnchor([anchor], [anchor] + rest, {}, 0) == Some(0);
  }

  /**
   * The first user's turn, with a single slot compatible with every other
   * row: that slot anchors a group with the first rows after it.
   */
  lemma FirstTurn(anchor: Row, rest: seq<Row>)
    requires |rest| >= 2
    requires forall x :: x in rest ==> Compatible(anchor, x)
    ensures var group := FormGroup(anchor, rest);
      Step(RunState([], {}), [anchor], [anchor] + rest) == RunState([MatchedGroup(0, group)], Emails(group))
  {
    AllButSelf(anchor, rest);
    FirstSlotAnchors(anchor, rest);
  }

  /** A turn whose slot has no unused, compatible partner left changes nothing. */
  lemma IdleTurn(st: RunState, slot: Row, rows: seq<Row>)
    requires forall x :: x in rows ==> x.email in st.used || x.email == slot.email
    ensures Step(st, [slot], rows) == st
  {
    NoPotentialMatches(rows, slot, st.used);
    assert FirstAnchor([slot], rows, st.used, 0) == None;
  }

  /** Turns of users whose emails are all used already change nothing. */
  lemma {:induction false} GroupedTurns(b: seq<seq<Row>>, rows: seq<Row>, st: RunState, i: nat, j: nat)
    requires AreBuckets(b, rows) && i <= j <= |b|
    requires RunUsers(b[..i], rows) == st
    requires forall k :: i <= k < j ==> b[k][0].email in st.used
    ensures AreBuckets(b[..j], rows) && RunUsers(b[..j], rows) == st
    decreases j - i
  {
    if i < j {
      NextTurn(b, rows, i);
      NoAnchorNoGroup(st, b[i], rows);
      GroupedTurns(b, rows, st, i + 1, j);
    }
  }

  /** The run after the first user's turn is that turn's state. */
  lemma FirstTurnRun(b: seq<seq<Row>>, rows: seq<Row>, st: RunState)
    requires AreBuckets(b, rows) && |b| > 0
    requires Step(RunState([], {}), b[0], rows) == st
    ensures RunUsers(b[..1], rows) == st
  {
    NextTurn(b, rows, 0);
    assert b[..0] == [];
  }

  /** A last turn that changes nothing leaves the run where the turns before it left it. */
  lemma LastTurnRun(b: seq<seq<Row>>, rows: seq<Row>, st: RunState)
    requires AreBuckets(b, rows) && |b| > 0
    requires RunUsers(b[..|b| - 1], rows) == st
    requires Step(st, b[|b| - 1], rows) == st
    ensures RunUsers(b, rows) == st
  {
  }

  /**
   * A run whose first turn reaches `st`, whose middle users are all used
   * by then, and whose last turn changes nothing, ends in `st`.
   */
  lemma OneGroupRun(b: seq<seq<Row>>, rows: seq<Row>, st: RunState)
    requires AreBuckets(b, rows) && |b| >= 2
    requires Step(RunState([], {}), b[0], rows) == st
    requires forall k :: 1 <= k < |b| - 1 ==> b[k][0].email in st.used
    requires Step(st, b[|b| - 1], rows) == st
    ensures RunUsers(b, rows) == st
  {
    FirstTurnRun(b, rows, st);
    GroupedTurns(b, rows, st, 1, |b| - 1);
    LastTurnRun(b, rows, st);
  }

  /** The fifth of five one-slot users finds every other email used. */
  lemma FifthIsIdle(r0: Row, r1: Row, r2: Row, r3: Row, r4: Row, st: RunState)
    requires st.used == {r0.email, r1.email, r2.email, r3.email}
    ensures Step(st, [r4], [r0, r1, r2, r3, r4]) == st
  {
    IdleTurn(st, r4, [r0, r1, r2, r3, r4]);
  }

  /**
   * Five users with one slot each, where the first user's turn groups the
   * first four: the fifth user is left over, since every other email is
   * then used.
   */
  lemma FiveUsersOneLeftOver(r0: Row, r1: Row, r2: Row, r3: Row, r4: Row, st: RunState)
    requires DistinctEmails([r0, r1, r2, r3, r4])
    requires st.used == {r0.email, r1.email, r2.email, r3.email}
    requires Step(RunState([], {}), [r0], [r0, r1, r2, r3, r4]) == st
    ensures Grouping([r0, r1, r2, r3, r4]) == st
  {
    var rows := [r0, r1, r2, r3, r4];
    DistinctBuckets(rows);
    BucketsAreBuckets(rows);
    var b: seq<seq<Row>> := Buckets(rows);
    assert b == [[r0], [r1], [r2], [r3], [r4]];
    FifthIsIdle(r0, r1, r2, r3, r4, st);
    assert forall k: int :: 1 <= k < 4 ==> b[k][0].email in st.used;
    OneGroupRun(b, rows, st);
  }

  /** Compatible rows belong to different users. */
  lemma CompatibleDistinct(a: Row, b: Row)
    requires Compatible(a, b)
    ensures a.email != b.email
  {
  }

  /** The first of five rows, compatible with the four others, groups itself with the next three. */
  lemma FirstTurnOfFive(r0: Row, r1: Row, r2: Row, r3: Row, r4: Row)
    requires Compatible(r0, r1) && Compatible(r0, r2) && Compatible(r0, r3) && Compatible(r0, r4)
    ensures var group := [r0, r1, r2, r3];
      && Emails(group) == {r0.email, r1.email, r2.email, r3.email}
      && Step(RunState([], {}), [r0], [r0, r1, r2, r3, r4]) == RunState([MatchedGroup(0, group)], Emails(group))
  {
    var rest := [r1, r2, r3, r4];
    assert [r0, r1, r2, r3, r4] == [r0] + rest;
    FirstTurn(r0, rest);
    assert FormGroup(r0, rest) == [r0, r1, r2, r3];
  }

  /**
   * Five users with one slot each, all compatible with one another: the
   * first becomes the anchor of a group of four, and the fifth is left
   * over because every other email is then used.
   */
  lemma FivePairwiseCompatible(r0: Row, r1: Row, r2: Row, r3: Row, r4: Row)
    requires Compatible(r0, r1) && Compatible(r0, r2) && Compatible(r0, r3) && Compatible(r0, r4)
    requires Compatible(r1, r2) && Compatible(r1, r3) && Compatible(r1, r4)
    requires Compatible(r2, r3) && Compatible(r2, r4) && Compatible(r3, r4)
    ensures Grouping([r0, r1, r2, r3, r4]).groups == [MatchedGroup(0, [r0, r1, r2, r3])]
  {
    assert DistinctEmails([r0, r1, r2, r3, r4]) by {
      CompatibleDistinct(r0, r1);
      CompatibleDistinct(r0, r2);
      CompatibleDistinct(r0, r3);
      CompatibleDistinct(r0, r4);
      CompatibleDistinct(r1, r2);
      CompatibleDistinct(r1, r3);
      CompatibleDistinct(r1, r4);
      CompatibleDistinct(r2, r3);
      CompatibleDistinct(r2, r4);
      CompatibleDistinct(r3, r4);
    }
    var group := [r0, r1, r2, r3];
    FirstTurnOfFive(r0, r1, r2, r3, r4);
    FiveUsersOneLeftOver(r0, r1, r2, r3, r4, RunState([MatchedGroup(0, group)], Emails(group)));
  }

  /** A user's two rows after another user's one: two users, in first-appearance order. */
  lemma ThreeRowUsers(a: Row, b1: Row, b2: Row)
    requires a.email != b1.email && b1.email == b2.email
    ensures Users([a, b1, b2]) == [a.email, b1.email]
  {
    assert [a, b1, b2][..2] == [a, b1] && [a, b1][..1] == [a] && [a][..0] == [];
    assert Users([a]) == [a.email];
    assert b1.email !in [a.email];
    assert Users([a, b1]) == [a.email, b1.email];
    assert b2.email in [a.email, b1.email];
  }

  /** A user's two rows after another user's one: the slots of each. */
  lemma ThreeRowSlots(a: Row, b1: Row, b2: Row)
    requires a.email != b1.email && b1.email == b2.email
    ensures SlotsOf([a, b1, b2], a.email) == [a]
    ensures SlotsOf([a, b1, b2], b1.email) == [b1, b2]
  {
    assert [a, b1, b2][..2] == [a, b1] && [a, b1][..1] == [a] && [a][..0] == [];
    assert SlotsOf([a], a.email) == [a];
    assert SlotsOf([a, b1], a.email) == [a];
    assert SlotsOf([a], b1.email) == [];
    assert SlotsOf([a, b1], b1.email) == [b1];
  }

  /** A user's two rows after another user's one: two buckets, in first-appearance order. */
  lemma ThreeRowBuckets(a: Row, b1: Row, b2: Row)
    requires a.email != b1.email && b1.email == b2.email
    ensures Buckets([a, b1, b2]) == [[a], [b1, b2]]
  {
    ThreeRowUsers(a, b1, b2);
    ThreeRowSlots(a, b1, b2);
  }

  /** Two buckets, where the first user's turn already groups the second user. */
  lemma TwoTurns(b: seq<seq<Row>>, rows: seq<Row>, a: Row, b1: Row, b2: Row, st: RunState)
    requires AreBuckets(b, rows) && b == [[a], [b1, b2]]
    requires Step(RunState([], {}), [a], rows) == st
    requires b1.email in st.used
    ensures RunUsers(b, rows) == st
  {
    NextTurn(b, rows, 0);
    assert b[..0] == [];
    NextTurn(b, rows, 1);
    assert b[..2] == b;
  }

  /**
   * Two slots of the same other user can both join one anchor's group:
   * a group of three rows may hold only two people.
   */
  lemma SameUserTwice(a: Row, b1: Row, b2: Row)
    requires b1.email == b2.email
    requires Compatible(a, b1) && Compatible(a, b2)
    ensures Grouping([a, b1, b2]).groups == [MatchedGroup(0, [a, b1, b2])]
    ensures |Emails([a, b1, b2])| == 2
  {
    var rows := [a, b1, b2];
    CompatibleDistinct(a, b1);
    ThreeRowBuckets(a, b1, b2);
    BucketsAreBuckets(rows);
    FirstTurn(a, [b1, b2]);
    assert [a] + [b1, b2] == rows;
    assert FormGroup(a, [b1, b2]) == rows;
    assert Emails(rows) == {a.email, b1.email};
    TwoTurns(Buckets(rows), rows, a, b1, b2, RunState([MatchedGroup(0, rows)], Emails(rows)));
  }
}
