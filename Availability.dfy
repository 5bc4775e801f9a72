/**
 * The `availability` table and the submit-availability handler of
 * server.js: validation of the request, the destructuring defaults, the
 * conversion of each slot into a row, and the all-or-nothing append inside
 * BEGIN TRANSACTION ... COMMIT / ROLLBACK.
 */
module Availability {
  import opened Wrappers
  import opened StringOrder

  /**
   * One row of the `availability` table. `id` is the AUTOINCREMENT key;
   * flags are the INTEGER columns holding 0 or 1.
   */
  datatype AvailabilityRow = AvailabilityRow(
    id: nat,
    email: string,
    date: string,
    startTime: string,
    endTime: string,
    locations: string,
    matched: int,
    matchingPreference: string,
    optOut1to1: int,
    optOutRepeat: int,
    optOutSameSchool: int,
    onlyMatchSameSchool: int,
    experiences: string)

  /** Column defaults of the table: `matched` 0, `matching_preference` 'all'. */
  const NotMatched: int := 0
  const DefaultMatchingPreference: string := "all"

  /** The separator `Array.prototype.join(', ')` puts between elements. */
  const ListSeparator: string := ", "

  // ---------------------------------------------------------------------
  // The request body
  // ---------------------------------------------------------------------

  /** A JSON value given for one of the boolean options. */
  datatype FlagValue =
    | FlagBool(b: bool)
    | FlagNumber(n: int)
    | FlagText(s: string)
    | FlagNull
    | FlagComposite   // an array or an object

  /** A slot's `locations`: an array of labels, or any single text. */
  datatype Locations = LocationList(items: seq<string>) | LocationText(text: string)

  /** The request's `experiences`: an array of tags, or a value that is not an array. */
  datatype Experiences = ExperienceList(items: seq<string>) | NotAList

  datatype Slot = Slot(date: string, startTime: string, endTime: string, locations: Locations)

  /**
   * The JSON body of POST /api/submit-availability. `None` stands for an
   * absent field (or, for `email`, null); `slots` is `None` also when the
   * value is not an array.
   */
  datatype SubmitRequest = SubmitRequest(
    email: Option<string>,
    slots: Option<seq<Slot>>,
    optOut1to1: Option<FlagValue>,
    optOutRepeat: Option<FlagValue>,
    optOutSameSchool: Option<FlagValue>,
    onlyMatchSameSchool: Option<FlagValue>,
    experiences: Option<Experiences>,
    matchingPreference: Option<string>)

  /** The HTTP status and the JSON `{ success, message }` the handler answers with. */
  datatype Response = Response(status: int, success: bool, message: string)

  const Submitted: Response := Response(200, true, "Availability submitted successfully!")
  const InvalidSubmission: Response := Response(400, false, "Invalid submission data")
  const PastDateRejected: Response := Response(500, false, "Cannot submit availability for past dates.")

  // ---------------------------------------------------------------------
  // Conversions from request values to column values
  // ---------------------------------------------------------------------

  /** JavaScript truthiness of a flag value. */
  predicate Truthy(v: FlagValue)
  {
    match v
    case FlagBool(b) => b
    case FlagNumber(n) => n != 0
    case FlagText(s) => s != ""
    case FlagNull => false
    case FlagComposite => true
  }

  /** `flag ? 1 : 0`, where an absent flag takes the default `false`. */
  function FlagColumn(v: Option<FlagValue>): (r: int)
    ensures r == 0 || r == 1
    ensures r == 1 <==> v.Some? && Truthy(v.value)
  {
    match v
    case None => 0
    case Some(x) => if Truthy(x) then 1 else 0
  }

  /** `Array.prototype.join(sep)` on an array of strings. */
  function Join(items: seq<string>, sep: string): (r: string)
    ensures |items| == 0 ==> r == ""
    ensures |items| == 1 ==> r == items[0]
  {
    if |items| == 0 then ""
    else if |items| == 1 then items[0]
    else items[0] + sep + Join(items[1..], sep)
  }

  /** First index at or after `k` where ", " starts, or |s| when there is none. */
  function FindSeparator(s: string, k: nat): (i: nat)
    requires k <= |s|
    ensures k <= i <= |s|
    ensures i < |s| ==> i + 1 < |s| && s[i] == ',' && s[i + 1] == ' '
    decreases |s| - k
  {
    if k + 1 >= |s| then |s|
    else if s[k] == ',' && s[k + 1] == ' ' then k
    else FindSeparator(s, k + 1)
  }

  /** Splits a stored list column back into its elements at each ", ". */
  function SplitList(s: string): (r: seq<string>)
    ensures |r| >= 1
    decreases |s|
  {
    var i := FindSeparator(s, 0);
    if i == |s| then [s] else [s[..i]] + SplitList(s[i + 2..])
  }

  predicate NoComma(x: string) { forall j :: 0 <= j < |x| ==> x[j] != ',' }

  /** No separator starts inside a comma-free prefix. */
  lemma {:induction false} FindSeparatorSkips(x: string, rest: string, k: nat)
    requires NoComma(x) && k <= |x|
    ensures |rest| >= 2 && rest[0] == ',' && rest[1] == ' ' ==> FindSeparator(x + rest, k) == |x|
    ensures rest == [] ==> FindSeparator(x + rest, k) == |x|
    decreases |x| - k
  {
    var s := x + rest;
    if k < |x| {
      assert s[k] == x[k];
      FindSeparatorSkips(x, rest, k + 1);
    }
  }

  /** Splitting a comma-free label followed by ", " yields that label, then the split of the rest. */
  lemma SplitListStep(x: string, rest: string)
    requires NoComma(x)
    ensures SplitList(x + ListSeparator + rest) == [x] + SplitList(rest)
  {
    var s := x + ListSeparator + rest;
    assert s == x + (ListSeparator + rest);
    FindSeparatorSkips(x, ListSeparator + rest, 0);
    assert s[..|x|] == x;
    assert s[|x| + 2..] == rest;
  }

  /**
   * A list of labels joined with ", " and split again gives the list back,
   * as long as no label contains a comma.
   */
  lemma {:induction false} SplitJoin(items: seq<string>)
    requires |items| >= 1
    requires forall k :: 0 <= k < |items| ==> NoComma(items[k])
    ensures SplitList(Join(items, ListSeparator)) == items
    decreases |items|
  {
    if |items| == 1 {
      FindSeparatorSkips(items[0], [], 0);
      assert items[0] + [] == items[0];
    } else {
      SplitListStep(items[0], Join(items[1..], ListSeparator));
      SplitJoin(items[1..]);
      assert items == [items[0]] + items[1..];
    }
  }

  /** The `locations` column: an array is joined with ", ", anything else is stored as it is. */
  function LocationsColumn(loc: Locations): string
  {
    match loc
    case LocationList(items) => Join(items, ListSeparator)
    case LocationText(text) => text
  }

  /** The `experiences` column: absent means `[]`; an array is joined with ", ", anything else gives "". */
  function ExperiencesColumn(e: Option<Experiences>): string
  {
    match e
    case None => Join([], ListSeparator)
    case Some(ExperienceList(items)) => Join(items, ListSeparator)
    case Some(NotAList) => ""
  }

  /** The `matching_preference` column: the request's value, or 'all' when absent. */
  function PreferenceColumn(p: Option<string>): string
  {
    match p
    case None => DefaultMatchingPreference
    case Some(v) => v
  }

  /** The stored locations list reads back as the labels submitted, when none contains a comma. */
  lemma LocationsRoundTrip(items: seq<string>)
    requires |items| >= 1
    requires forall k :: 0 <= k < |items| ==> NoComma(items[k])
    ensures SplitList(LocationsColumn(LocationList(items))) == items
  {
    SplitJoin(items);
  }

  // ---------------------------------------------------------------------
  // The handler's decisions
  // ---------------------------------------------------------------------

  /** `!email || !slots || !Array.isArray(slots) || slots.length === 0` is false. */
  predicate IsValidSubmission(req: SubmitRequest)
  {
    req.email.Some? && req.email.value != "" && req.slots.Some? && |req.slots.value| > 0
  }

  /** Some slot's date is before today in JavaScript's string order. */
  predicate HasPastDate(slots: seq<Slot>, today: string)
  {
    exists k :: 0 <= k < |slots| && LessThan(slots[k].date, today)
  }

  /** The answer the handler gives. */
  function Outcome(req: SubmitRequest, today: string): Response
  {
    if !IsValidSubmission(req) then InvalidSubmission
    else if HasPastDate(req.slots.value, today) then PastDateRejected
    else Submitted
  }

  /** The row one slot becomes: INSERT of server.js with the column defaults filled in. */
  function SlotRow(req: SubmitRequest, email: string, slot: Slot, id: nat): AvailabilityRow
  {
    AvailabilityRow(
      id, email, slot.date, slot.startTime, slot.endTime, LocationsColumn(slot.locations),
      NotMatched,
      PreferenceColumn(req.matchingPreference),
      FlagColumn(req.optOut1to1),
      FlagColumn(req.optOutRepeat),
      FlagColumn(req.optOutSameSchool),
      FlagColumn(req.onlyMatchSameSchool),
      ExperiencesColumn(req.experiences))
  }

  /** The rows a list of slots becomes, numbered from `firstId` on. */
  function SlotRows(req: SubmitRequest, email: string, slots: seq<Slot>, firstId: nat): (r: seq<AvailabilityRow>)
    ensures |r| == |slots|
  {
    if |slots| == 0 then []
    else SlotRows(req, email, slots[..|slots| - 1], firstId) + [SlotRow(req, email, slots[|slots| - 1], firstId + |slots| - 1)]
  }

  /**
   * The k-th new row is the k-th slot's: the request's email, that slot's
   * date, times and locations, the id `firstId + k`, not matched, and the
   * options of the request, shared by every row.
   */
  lemma {:induction false} SlotRowsAt(req: SubmitRequest, email: string, slots: seq<Slot>, firstId: nat, k: nat)
    requires k < |slots|
    ensures var row := SlotRows(req, email, slots, firstId)[k];
      && row.id == firstId + k
      && row.email == email
      && row.date == slots[k].date
      && row.startTime == slots[k].startTime
      && row.endTime == slots[k].endTime
      && row.locations == LocationsColumn(slots[k].locations)
      && row.matched == NotMatched
      && row.matchingPreference == PreferenceColumn(req.matchingPreference)
      && row.optOut1to1 == FlagColumn(req.optOut1to1)
      && row.optOutRepeat == FlagColumn(req.optOutRepeat)
      && row.optOutSameSchool == FlagColumn(req.optOutSameSchool)
      && row.onlyMatchSameSchool == FlagColumn(req.onlyMatchSameSchool)
      && row.experiences == ExperiencesColumn(req.experiences)
    decreases |slots|
  {
    if k < |slots| - 1 {
      SlotRowsAt(req, email, slots[..|slots| - 1], firstId, k);
    }
  }

  /**
   * A request that leaves every option out stores flags 0, preference 'all',
   * empty experiences, and `matched` 0 in every row.
   */
  lemma DefaultOptions(req: SubmitRequest, email: string, slots: seq<Slot>, firstId: nat, k: nat)
    requires req.optOut1to1.None? && req.optOutRepeat.None? && req.optOutSameSchool.None?
    requires req.onlyMatchSameSchool.None? && req.experiences.None? && req.matchingPreference.None?
    requires k < |slots|
    ensures var row := SlotRows(req, email, slots, firstId)[k];
      && row.optOut1to1 == 0 && row.optOutRepeat == 0
      && row.optOutSameSchool == 0 && row.onlyMatchSameSchool == 0
      && row.matchingPreference == "all" && row.experiences == "" && row.matched == 0
  {
    SlotRowsAt(req, email, slots, firstId, k);
  }

  /**
   * When every slot date and today are ISO dates, the handler refuses the
   * submission exactly when some slot is on a day before today.
   */
  lemma PastDateIsEarlierDay(slots: seq<Slot>, today: string)
    requires IsIsoDate(today)
    requires forall k :: 0 <= k < |slots| ==> IsIsoDate(slots[k].date)
    ensures HasPastDate(slots, today) <==> exists k :: 0 <= k < |slots| && EarlierDate(slots[k].date, today)
  {
    forall k | 0 <= k < |slots|
      ensures LessThan(slots[k].date, today) <==> EarlierDate(slots[k].date, today)
    {
      IsoDateOrder(slots[k].date, today);
    }
  }

  // ---------------------------------------------------------------------
  // The table
  // ---------------------------------------------------------------------

  /** The `availability` table: its rows in insertion order and the next AUTOINCREMENT id. */
  class AvailabilityTable {
    var rows: seq<AvailabilityRow>
    var nextId: nat

    /** Ids are positive, increase along the table, and stay below `nextId`. */
    ghost predicate Valid()
      reads this
    {
      && nextId >= 1
      && (forall i :: 0 <= i < |rows| ==> 1 <= rows[i].id < nextId)
      && (forall i, j :: 0 <= i < j < |rows| ==> rows[i].id < rows[j].id)
    }

    /** An empty table, as CREATE TABLE leaves it. */
    constructor ()
      ensures Valid() && rows == [] && nextId == 1
    {
      rows := [];
      nextId := 1;
    }

    /**
     * POST /api/submit-availability with `today` the current UTC date as
     * "YYYY-MM-DD". An invalid request or a slot dated before today
     * leaves the table as it was; otherwise one row per slot is appended,
     * in slot order.
     */
    method SubmitAvailability(req: SubmitRequest, today: string) returns (resp: Response)
      requires Valid()
      modifies this
      ensures Valid()
      ensures resp == Outcome(req, today)
      ensures resp.success ==> req.email.Some? && req.slots.Some?
      ensures resp.success ==>
        && rows == old(rows) + SlotRows(req, req.email.value, req.slots.value, old(nextId))
        && nextId == old(nextId) + |req.slots.value|
      ensures !resp.success ==> rows == old(rows) && nextId == old(nextId)
    {
      if req.email.None? || req.email.value == "" || req.slots.None? || |req.slots.value| == 0 {
        return InvalidSubmission;
      }
      var email := req.email.value;
      var slots := req.slots.value;

      // BEGIN TRANSACTION: what a ROLLBACK restores
      var savedRows, savedNextId := rows, nextId;
      var i := 0;
      while i < |slots|
        invariant 0 <= i <= |slots|
        invariant Valid()
        invariant rows == savedRows + SlotRows(req, email, slots[..i], savedNextId)
        invariant nextId == savedNextId + i
        invariant forall k :: 0 <= k < i ==> !LessThan(slots[k].date, today)
      {
        var slot := slots[i];
        if LessThan(slot.date, today) {
          // reject, then ROLLBACK in the catch block
          rows, nextId := savedRows, savedNextId;
          return PastDateRejected;
        }
        assert slots[..i + 1][..i] == slots[..i];
        rows := rows + [SlotRow(req, email, slot, nextId)];
        nextId := nextId + 1;
        i := i + 1;
      }
      assert slots[..i] == slots;
      // COMMIT
      return Submitted;
    }
  }
}
