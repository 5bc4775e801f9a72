# Meetup matcher: availability intake and greedy group matching

This project models the two halves of a small meetup-matching service.

**Intake** (`server.js`). `POST /api/submit-availability` takes an email, a
list of time slots and a few options. It validates the request, turns each
slot into a row of the `availability` table, and inserts all rows in one
transaction. A slot dated before today aborts the transaction.

**Matching** (`matchAndEmail.js`). `matchUsers` reads every availability row
and buckets the rows by email. It then visits the users in order of first
appearance. For each user whose email is not yet used, it takes the first
slot with at least two *potential matches*. A potential match is a row of
another unused user, on the same date, overlapping by at least one hour,
with equal locations or one side saying "Ok with both". That slot and its
first two or three (at most three) potential matches form a group. The members' emails become
used. Finally every member of every group gets a row in the `matches`
table and a notification mail.

Modules, in dependency order:

- `Wrappers`: `Option`.
- `Clock`: parsing of "HH:MM[:SS]" times, as `new Date("1970-01-01T…Z")`
  reads them. Also the overlap of two windows (`calculateOverlap`) and the
  one-hour test.
- `StringOrder`: JavaScript's `<` on strings, and its agreement with
  calendar order on "YYYY-MM-DD" dates (the past-date check).
- `Availability`: the `availability` row, the request body with its
  defaults, and the column conversions (`? 1 : 0`, `join(', ')`). The
  class `AvailabilityTable` holds the rows and the AUTOINCREMENT counter.
  Its method `SubmitAvailability` is the handler.
- `Matching`: the matcher as functions (filter, anchor choice, group,
  run over users, `matches` rows, notifications), with the run's
  invariant and the lemmas about it.
- `Scenarios`: whole runs on small inputs, derived from the general model.
- `MatchRun`: `matchUsers` as loops (bucketing, user turns, marking
  emails used, persisting), each proved equal to the `Matching` functions.

Times are seconds since midnight. The source divides milliseconds by
3 600 000 and compares with 1, which is exact in floating point. It is
therefore the same test as "at least 3600 seconds". A time that
`new Date` cannot read gives NaN in the source; here it gives `None`, and
the one-hour test fails, as NaN `>= 1` does.

## Model

| member | source | states |
|---|---|---|
| Clock.ParseClock | matchAndEmail.js:78-79 | a time that parses lies within one day and has length 5 or 8; its shape and value are given by the round trips below |
| Clock.ParseFormatClock | matchAndEmail.js:78-79 | every minute of the day written as "HH:MM" parses back to that minute, in seconds |
| Clock.FormatParseClock | matchAndEmail.js:78-79 | every "HH:MM" that parses is a whole minute and formats back to the same text |
| Clock.Overlap | matchAndEmail.js:77-82 | overlap is never negative, is positive exactly when both windows are non-empty and intersect, and is at most either window's length |
| Clock.DisjointWindows | matchAndEmail.js:77-82 | windows that do not meet overlap by 0 (the `Math.max(0, …)` clamp) |
| Clock.OverlapSymmetric | matchAndEmail.js:77-82 | the overlap does not depend on the order of the two windows |
| Clock.NestedWindow | matchAndEmail.js:77-82 | a window inside another overlaps it by its own length |
| Clock.CalculateOverlap | matchAndEmail.js:77-82 | defined exactly when all four times parse, and then less than a day |
| Clock.CalculateOverlapSymmetric | matchAndEmail.js:94 | overlap and the one-hour test are symmetric in the two slots |
| Clock.MalformedNeverOverlaps | matchAndEmail.js:94 | an unreadable time never passes the one-hour test (NaN >= 1 is false) |
| Clock.OneHourInMinutes | matchAndEmail.js:94 | for "HH:MM" windows the test passes exactly when the overlap is at least 60 minutes |
| Clock.ParseFormatClockSeconds | matchAndEmail.js:78-79 | every second of the day written as "HH:MM:SS" parses back to that second |
| Clock.FormatParseClockSeconds | matchAndEmail.js:78-79 | every eight-character time that parses is the "HH:MM:SS" formatting of its own value |
| Clock.OneHourInSeconds | matchAndEmail.js:94 | for "HH:MM:SS" windows the test passes exactly when the overlap is at least 3600 seconds |
| StringOrder.LessThanIrreflexive | server.js:133 | no string is before itself |
| StringOrder.LessThanTransitive | server.js:133 | string order is transitive |
| StringOrder.LessThanTrichotomy | server.js:133 | any two distinct strings are ordered one way, never both |
| StringOrder.LessThanCommonPrefix | server.js:133 | a shared prefix does not change the order |
| StringOrder.LessThanDifferentHeads | server.js:133 | equal-length distinct heads decide the order whatever follows |
| StringOrder.DigitsOrder | server.js:133 | equal-length digit strings compare as their numbers |
| StringOrder.IsoDateOrder | server.js:132-133 | on "YYYY-MM-DD" dates `date < today` holds exactly when the date is an earlier calendar day |
| Availability.FlagColumn | server.js:151-154 | an option column is 0 or 1, and 1 exactly when the option is present and truthy |
| Availability.Join | server.js:139-140 | joining no items gives "" and one item gives that item |
| Availability.SplitList | server.js:139 | the reference inverse of the `join(', ')` at line 139 (the source never splits the column; it serves only the round trip): splitting always yields at least one item |
| Availability.SplitJoin | server.js:139 | a non-empty list of comma-free items joined with ", " splits back to itself |
| Availability.LocationsRoundTrip | server.js:139 | a locations array is recovered from its column |
| Availability.SlotRows | server.js:128-159 | one row per slot |
| Availability.SlotRowsAt | server.js:128-159 | the k-th row has id firstId+k, the request's email, the k-th slot's date, times and locations text, the converted options, and matched 0 |
| Availability.DefaultOptions | server.js:107-116 | with the options absent, a row gets 0 for every flag, "" for experiences and "all" as preference |
| Availability.PastDateIsEarlierDay | server.js:128-137 | on ISO dates, the request is refused for a past date exactly when some slot is an earlier day than today |
| Availability.AvailabilityTable.constructor | server.js:29-44 | the empty table, next id 1 |
| Availability.AvailabilityTable.SubmitAvailability | server.js:104-174 | answers 400 to an empty or missing email or slots, 500 to a past date, 200 otherwise; on success appends exactly the slots' rows with consecutive ids, on failure leaves the table unchanged; ids stay increasing |
| Matching.PotentialMatchInMinutes | matchAndEmail.js:89-101 | for "HH:MM" times, a row is among the potential matches exactly when it is a row of another, unused email, same date, compatible locations, and the windows share at least 60 minutes (60 qualify, 59 do not) |
| Matching.CompatibleSymmetric | matchAndEmail.js:91-99 | apart from the used check, the filter is symmetric in slot and row |
| Matching.PotentialMatches | matchAndEmail.js:89-101 | the filter keeps exactly the rows that are potential matches, never more rows than given |
| Matching.PotentialMatchesAppend | matchAndEmail.js:89-101 | filtering keeps row order: the filter of a concatenation is the concatenation of the filters |
| Matching.PotentialMatchesShrink | matchAndEmail.js:92 | more used emails never yield more potential matches |
| Matching.FirstAnchor | matchAndEmail.js:88-104 | the chosen slot is the first of the user's slots with at least two potential matches; none is chosen when no slot has two |
| Matching.FormGroup | matchAndEmail.js:122-123 | a group is the anchor followed by its first 2 or 3 potential matches, 4 members exactly when there are at least 3 |
| Matching.Users | matchAndEmail.js:65-71 | the users are exactly the emails of the rows, each once; their first-appearance order is stated by `UsersFirstAppearance` |
| Matching.SlotsOf | matchAndEmail.js:65-71 | a user's slots are exactly the rows with that email |
| Matching.FirstRow | matchAndEmail.js:65-71 | the index of an email's first row: it has that email and no earlier row does |
| Matching.UsersFirstAppearance | matchAndEmail.js:65-71 | users come in order of first appearance: for i < j, user i's first row precedes user j's, so users take their turns in that order |
| Matching.SlotsOfAppend | matchAndEmail.js:65-71 | a user's slots keep row order: the slots of a concatenation are the slots of the first part followed by those of the second, so the first slot tried is the user's earliest row |
| Matching.Buckets | matchAndEmail.js:65-71 | one bucket per user, in user order, holding that user's slots |
| Matching.BucketsAreBuckets | matchAndEmail.js:85-86 | every bucket is non-empty and holds only rows of one email |
| Matching.BucketsPartitionRows | matchAndEmail.js:65-71 | the bucket sizes add up to the number of rows: each row is in exactly one bucket |
| Matching.TryAnchorGroup | matchAndEmail.js:88-123 | a group formed for an unused user has 3 or 4 rows of the run, no used email, and every member compatible with the anchor |
| Matching.StepPreservesInvariant | matchAndEmail.js:85-129 | one user's turn keeps the run invariant, only adds used emails and at most one group |
| Matching.AddGroupPreservesInvariant | matchAndEmail.js:122-127 | pushing a group of fresh emails and marking them used keeps the invariant |
| Matching.RunUsersInvariant | matchAndEmail.js:85-129 | after any number of turns the invariant holds |
| Matching.GroupingInvariant | matchAndEmail.js:73-129 | every group is well formed (3 or 4 rows of the run, members compatible with the anchor), no email is in two groups, used emails are exactly the groups' emails |
| Matching.GroupingShape | matchAndEmail.js:122-125 | groups are numbered in order, have 3 or 4 members and share no email |
| Matching.RunUsersMonotone | matchAndEmail.js:85-129 | later turns keep earlier groups and used emails |
| Matching.NoAnchorNoGroup | matchAndEmail.js:85-106 | a used user, or one without a slot with two potential matches, changes nothing |
| Matching.AnchorFormsGroup | matchAndEmail.js:88-127 | an unused user's first qualifying slot forms the next group with its first potential matches, and their emails become used |
| Matching.NoRowsNoGroups | matchAndEmail.js:60-63 | no rows, no groups |
| Matching.NextTurn | matchAndEmail.js:85 | the turns up to a user are the turns before it followed by its own |
| Matching.MatchRowsLayout | matchAndEmail.js:131-137 | one `matches` row per member per group, in order, carrying the group id and the member's own email, date, times and locations |
| Matching.MatchRowsCount | matchAndEmail.js:131-137 | as many `matches` rows as group members |
| Matching.EmailList | matchAndEmail.js:139 | the recipients are the members' emails, in member order |
| Matching.NotificationsAsWrittenLayout | matchAndEmail.js:133-141 | as written, one call per member, lined up with the `matches` rows: the call for member j of group k is group k's notification to all its members |
| Matching.GroupNotifications | matchAndEmail.js:139-140 | corrected (see Findings), at most one notification per group |
| Matching.TripleNotification | matchAndEmail.js:133-141 | as written, a group of three members gets the same notification three times |
| Matching.GroupNotificationsLayout | matchAndEmail.js:139-140 | corrected, the k-th notification goes to the k-th group's members with the anchor's date, window and locations |
| Matching.EachMemberNotifiedOnce | matchAndEmail.js:131-141 | corrected, every grouped email is addressed by exactly one notification |
| Scenarios.DistinctBuckets | matchAndEmail.js:65-71 | with distinct emails every row is its own bucket, in row order |
| Scenarios.AllPotentialMatches | matchAndEmail.js:89-101 | a filter every row passes keeps all rows in order |
| Scenarios.NoPotentialMatches | matchAndEmail.js:89-101 | a filter no row passes keeps none |
| Scenarios.FirstTurn | matchAndEmail.js:85-127 | a first user with one slot compatible with all later rows groups itself with the first two or three (at most three) of them |
| Scenarios.IdleTurn | matchAndEmail.js:103-106 | a user with nobody unused left forms no group |
| Scenarios.GroupedTurns | matchAndEmail.js:86 | turns of users whose emails are already used leave the run unchanged |
| Scenarios.OneGroupRun | matchAndEmail.js:85-129 | a run whose first turn forms a group, whose middle users are then used and whose last turn finds nobody, ends with that one group |
| Scenarios.FiveUsersOneLeftOver | matchAndEmail.js:85-129 | five one-slot users whose first turn groups the first four: the fifth is left over |
| Scenarios.FivePairwiseCompatible | matchAndEmail.js:85-129 | five mutually compatible one-slot users: the first four form the only group, the fifth is left out |
| Scenarios.SameUserTwice | matchAndEmail.js:89-123 | two slots of one user can both join an anchor's group, so a group of three rows may hold two people |
| MatchRun.BucketByEmail | matchAndEmail.js:65-71 | the loop yields the users in insertion order and each user's rows |
| MatchRun.MarkUsed | matchAndEmail.js:127 | the used set gains exactly the group's emails |
| MatchRun.TakeTurn | matchAndEmail.js:85-127 | one user's turn, run in place on the group list and the used set, changes them exactly as `Step` says |
| MatchRun.FormGroups | matchAndEmail.js:73-129 | the user loop builds exactly the groups of `Grouping` |
| MatchRun.PersistMatchesAsWritten | matchAndEmail.js:131-142 | as written, one `matches` row and one notification per member |
| MatchRun.PersistMatches | matchAndEmail.js:131-142 | corrected, one `matches` row per member and one notification per group |
| MatchRun.MatchUsers | matchAndEmail.js:52-142 | as written: no rows gives nothing. Otherwise the groups are those of `Grouping`, numbered in order, of 3 or 4 members, pairwise disjoint; every member has its `matches` row; the calls are those of `NotificationsAsWritten`, one per member, as many as `matches` rows |
| MatchRun.MatchUsersCorrected | matchAndEmail.js:52-142 | corrected (see Findings): the same groups and `matches` rows, and group k gets exactly one notification, to its members |

## Left out

- Database, mail and web I/O are not modelled: SQLite, the SMTP transport, Express, the scheduler that starts the job, and the browser UI. The rows `matchUsers` reads are a parameter. The SQL `ORDER BY date, start_time, locations` is not modelled; the rows are taken in the order given.
- Console logging and the `db.all` error path are not modelled; they have no effect on the data.
- Group ids: the source stamps each group with `Date.now()`. The model numbers groups 0, 1, 2, …. Two groups formed in the same millisecond share an id in the source; the model does not capture that.
- Row ids: AUTOINCREMENT is modelled as a counter starting at 1. `created_at` (the insertion clock) is not modelled.
- `today` is a parameter. The source recomputes it for every slot, so a run across midnight could see two dates; the model does not capture this.
- Availability.AvailabilityTable.SubmitAvailability: insert failures (a NOT NULL column given null) are not modelled. Their asynchronous `reject` does not stop the queued COMMIT, so their effect depends on timing. Request values are typed as the handler reads them (strings, lists of strings, JSON flag values). Non-string emails or dates, and arrays holding non-strings, are not modelled.
- Availability.PreferenceColumn: an explicit `null` preference (stored as NULL, since the default only replaces an absent value) is not modelled; the preference is absent or a string.
- Availability.FlagColumn: fractional numbers and NaN are not modelled; flags are booleans, integers, text, null or composite values.
- Clock.ParseClock: only "HH:MM" and "HH:MM:SS" are accepted. Fractional seconds, "24:00" and the other forms `Date` also reads are treated as unreadable.
- StringOrder.LessThan compares Dafny characters. JavaScript compares UTF-16 code units, which differs only outside the Basic Multilingual Plane.
- Matching.Users follows insertion order. JavaScript lists integer-like keys first, so an email such as "12" would be visited earlier. An email equal to an `Object.prototype` member (such as "constructor") makes the source fail; the model does not capture either case.
- The columns `matching_preference`, the opt-out flags, `only_match_same_school` and `experiences` are stored but never read by the matcher, as in the source.
- The text of the mail (subject, greeting) is not modelled, only its recipients, date, time window and locations.

## Findings

| source | as written | input that shows it | evidently intended | confidence | as-written member | corrected member |
|---|---|---|---|---|---|---|
| matchAndEmail.js:133-141 | `sendEmail` is called inside `group.forEach(member => …)`, once per member, each time to the whole group | any group of three members: the same mail goes to all three recipients three times | one mail per group, sent after its `matches` rows | high (not executed) | Matching.TripleNotification, MatchRun.MatchUsers | Matching.EachMemberNotifiedOnce, MatchRun.MatchUsersCorrected |
