/**
 * backend/routes/matches.js: the `/matches` handlers over the `matches`
 * table. Every handler receives the id the auth gate verified, validates its
 * input in a fixed order before the table is touched, and reads or writes
 * only rows whose `user_id` is that id.
 */
module Matches {
  import opened Wrappers
  import opened Js
  import opened Validators
  import opened Sql
  import opened RequireAuth

  /** The `result` column: a win or a loss. */
  datatype Outcome = W | L

  function OutcomeText(r: Outcome): (s: string) {
    if r == W then "W" else "L"
  }

  /**
   * One row of the `matches` table. A null `score` or `notes` is `None`; a
   * present one holds the request value the row was written from.
   */
  datatype Match = Match(
    id: int,
    owner: UserId,
    date: Date,
    opponent: string,
    result: Outcome,
    score: Option<JsValue>,
    notes: Option<JsValue>,
    createdAt: int)

  /** A row as `SELECT` and `UPDATE ... RETURNING` report it: without `user_id`. */
  datatype MatchView = MatchView(
    id: int,
    date: Date,
    opponent: string,
    result: Outcome,
    score: Option<JsValue>,
    notes: Option<JsValue>,
    createdAt: int)

  function View(m: Match): (v: MatchView) {
    MatchView(m.id, m.date, m.opponent, m.result, m.score, m.notes, m.createdAt)
  }

  function Views(ms: seq<Match>): (vs: seq<MatchView>)
    ensures |vs| == |ms| && forall k :: 0 <= k < |ms| ==> vs[k] == View(ms[k])
  {
    seq(|ms|, k requires 0 <= k < |ms| => View(ms[k]))
  }

  /** The JSON body of a create or update request. */
  datatype MatchInput = MatchInput(
    matchDate: JsValue,
    opponentName: JsValue,
    result: JsValue,
    score: JsValue,
    notes: JsValue)

  /** The query string of a list request. */
  datatype ListQuery = ListQuery(opponent: JsValue, result: JsValue, from: JsValue, to: JsValue)

  /** What a handler sends back. */
  datatype Body =
    | CreatedMatch(created: Match)
    | OneMatch(row: MatchView)
    | MatchList(rows: seq<MatchView>)
    | DeletedMatch(message: string, id: int)
    | Error(error: string)

  datatype Reply = Reply(status: nat, body: Body)

  const FieldsRequired := "match_date, opponent_name, and result are required"
  const ResultInvalid := "result must be 'W' or 'L'"
  const DateInvalid := "match_date must be a real date in YYYY-MM-DD format"
  const FromInvalid := "from must be a real date in YYYY-MM-DD format"
  const ToInvalid := "to must be a real date in YYYY-MM-DD format"
  const IdNotInteger := "Match id must be an integer"
  const NotFound := "Match not found"
  const DeletedMessage := "Match deleted"

  /** The checked fields of a create or update request, as they are written. */
  datatype MatchFields = MatchFields(
    date: Date,
    opponent: string,
    result: Outcome,
    score: Option<JsValue>,
    notes: Option<JsValue>)

  /** `value || null`. */
  function OrNull(v: JsValue): (r: Option<JsValue>)
    ensures r.None? <==> !Truthy(v)
    ensures r.Some? ==> r.value == v
  {
    if Truthy(v) then Some(v) else None
  }

  predicate FieldsMissing(b: MatchInput) {
    !Truthy(b.matchDate) || CleanTrimmedString(b.opponentName) == "" || !Truthy(b.result)
  }

  predicate IsOutcomeText(v: JsValue) {
    v == Str("W") || v == Str("L")
  }

  /**
   * The checks shared by create and update, in the order the handlers make
   * them: required fields, then the result letter, then the calendar date.
   */
  function ValidateMatch(b: MatchInput): (r: Result<MatchFields, string>)
    ensures FieldsMissing(b) ==> r == Failure(FieldsRequired)
    ensures !FieldsMissing(b) && !IsOutcomeText(b.result) ==> r == Failure(ResultInvalid)
    ensures !FieldsMissing(b) && IsOutcomeText(b.result) && !IsValidISODate(b.matchDate) ==>
      r == Failure(DateInvalid)
    ensures r.Success? <==>
      !FieldsMissing(b) && IsOutcomeText(b.result) && IsValidISODate(b.matchDate)
    ensures r.Success? ==>
      && r.value.date == DateOf(b.matchDate.s)
      && r.value.opponent == CleanTrimmedString(b.opponentName)
      && b.result == Str(OutcomeText(r.value.result))
      && r.value.score == OrNull(b.score)
      && r.value.notes == OrNull(b.notes)
  {
    var opponent := CleanTrimmedString(b.opponentName);
    if !Truthy(b.matchDate) || opponent == "" || !Truthy(b.result) then Failure(FieldsRequired)
    else if b.result != Str("W") && b.result != Str("L") then Failure(ResultInvalid)
    else if !IsValidISODate(b.matchDate) then Failure(DateInvalid)
    else
      Success(MatchFields(
        DateOf(b.matchDate.s), opponent, if b.result == Str("W") then W else L,
        OrNull(b.score), OrNull(b.notes)))
  }

  /** What every stored row satisfies, because it was written from checked fields. */
  predicate StoredFields(date: Date, opponent: string, score: Option<JsValue>, notes: Option<JsValue>) {
    && IsCalendarDate(date) && 0 <= date.year <= 9999
    && opponent != ""
    && !IsWhiteSpace(opponent[0]) && !IsWhiteSpace(opponent[|opponent| - 1])
    && (score.Some? ==> Truthy(score.value))
    && (notes.Some? ==> Truthy(notes.value))
  }

  predicate StoredRow(m: Match) {
    StoredFields(m.date, m.opponent, m.score, m.notes)
  }

  lemma ValidatedFieldsAreStorable(b: MatchInput)
    requires ValidateMatch(b).Success?
    ensures var f := ValidateMatch(b).value; StoredFields(f.date, f.opponent, f.score, f.notes)
  {
  }

  /** A stored opponent name is already trimmed, so the query's `TRIM` leaves it alone. */
  lemma StoredOpponentUntrimmed(m: Match)
    requires StoredRow(m)
    ensures SqlTrim(m.opponent) == m.opponent
  {
    SqlTrimOfJsTrimmed(m.opponent);
  }

  predicate UniqueIds(rows: seq<Match>) {
    forall i, j :: 0 <= i < j < |rows| ==> rows[i].id != rows[j].id
  }

  // ---------------------------------------------------------------- statements

  /** `user_id = $k`, as a row filter. */
  function OwnerFilter(owner: UserId): (keep: Match -> bool) {
    (m: Match) => m.owner == owner
  }

  /** `id = $k AND user_id = $k'`, as a row filter. */
  function TargetFilter(id: int, owner: UserId): (keep: Match -> bool) {
    (m: Match) => m.id == id && m.owner == owner
  }

  /** The complement of `TargetFilter`, the rows a delete keeps. */
  function KeepFilter(id: int, owner: UserId): (keep: Match -> bool) {
    (m: Match) => !(m.id == id && m.owner == owner)
  }

  /** `WHERE user_id = $1`: the rows one user owns, in table order. */
  function OwnedBy(rows: seq<Match>, owner: UserId): (r: seq<Match>)
    ensures forall m :: m in r <==> m in rows && m.owner == owner
  {
    Where(rows, OwnerFilter(owner))
  }

  /** `SELECT ... WHERE id = $1 AND user_id = $2` and then `rows[0]`, if any. */
  function Lookup(rows: seq<Match>, id: int, owner: UserId): (r: Option<Match>)
    ensures r.Some? ==> r.value in rows && r.value.id == id && r.value.owner == owner
    ensures r.None? <==> forall m :: m in rows ==> !(m.id == id && m.owner == owner)
  {
    var found := Where(rows, TargetFilter(id, owner));
    if found == [] then None
    else
      assert found[0] in found;
      Some(found[0])
  }

  /** A lookup sees the same thing whether or not other users' rows exist. */
  lemma LookupSeesOnlyOwnRows(rows: seq<Match>, id: int, owner: UserId)
    ensures Lookup(rows, id, owner) == Lookup(OwnedBy(rows, owner), id, owner)
  {
    WhereNarrower(rows, OwnerFilter(owner), TargetFilter(id, owner));
  }

  /** With unique ids, the row a lookup finds is the only one with that id. */
  lemma LookupIsTheRow(rows: seq<Match>, id: int, owner: UserId, m: Match)
    requires UniqueIds(rows)
    requires m in rows && m.id == id
    ensures Lookup(rows, id, owner) == if m.owner == owner then Some(m) else None
  {
    var r := Lookup(rows, id, owner);
    if r.Some? {
      var i :| 0 <= i < |rows| && rows[i] == r.value;
      var j :| 0 <= j < |rows| && rows[j] == m;
      assert i == j;
    }
  }

  /** The row an update writes: the five request fields replaced, id, owner and creation time kept. */
  function Refill(m: Match, f: MatchFields): (r: Match)
    ensures r.id == m.id && r.owner == m.owner && r.createdAt == m.createdAt
    ensures r.date == f.date && r.opponent == f.opponent && r.result == f.result
    ensures r.score == f.score && r.notes == f.notes
  {
    m.(date := f.date, opponent := f.opponent, result := f.result, score := f.score, notes := f.notes)
  }

  /** `UPDATE matches SET ... WHERE id = $6 AND user_id = $7`. */
  function UpdateRows(rows: seq<Match>, id: int, owner: UserId, f: MatchFields): (r: seq<Match>)
    ensures |r| == |rows|
    ensures forall k :: 0 <= k < |rows| ==>
      r[k] == if rows[k].id == id && rows[k].owner == owner then Refill(rows[k], f) else rows[k]
  {
    if rows == [] then []
    else
      [if rows[0].id == id && rows[0].owner == owner then Refill(rows[0], f) else rows[0]]
      + UpdateRows(rows[1..], id, owner, f)
  }

  /** An update leaves every other user's rows exactly as they were. */
  lemma {:induction false} UpdateKeepsOthersRows(rows: seq<Match>, id: int, owner: UserId, f: MatchFields, other: UserId)
    requires other != owner
    ensures OwnedBy(UpdateRows(rows, id, owner, f), other) == OwnedBy(rows, other)
    decreases |rows|
  {
    if rows != [] {
      var r := UpdateRows(rows, id, owner, f);
      assert r == [r[0]] + UpdateRows(rows[1..], id, owner, f);
      assert r[0].owner == rows[0].owner;
      assert r[0].owner == other ==> r[0] == rows[0];
      UpdateKeepsOthersRows(rows[1..], id, owner, f, other);
    }
  }

  /** An update whose (id, owner) pair matches no row changes nothing. */
  lemma {:induction false} UpdateWithoutTarget(rows: seq<Match>, id: int, owner: UserId, f: MatchFields)
    requires Lookup(rows, id, owner).None?
    ensures UpdateRows(rows, id, owner, f) == rows
  {
    var r := UpdateRows(rows, id, owner, f);
    assert forall k :: 0 <= k < |rows| ==> rows[k] in rows;
    assert forall k :: 0 <= k < |rows| ==> r[k] == rows[k];
  }

  /** `DELETE FROM matches WHERE id = $1 AND user_id = $2`. */
  function DeleteRows(rows: seq<Match>, id: int, owner: UserId): (r: seq<Match>)
    ensures forall m :: m in r <==> m in rows && !(m.id == id && m.owner == owner)
  {
    Where(rows, KeepFilter(id, owner))
  }

  /** After a delete no row with that id and owner is left, so repeating it finds nothing. */
  lemma DeleteThenLookup(rows: seq<Match>, id: int, owner: UserId)
    ensures Lookup(DeleteRows(rows, id, owner), id, owner).None?
  {
  }

  /** A delete that finds its row removes exactly one row, when ids are unique. */
  lemma {:induction false} DeleteRemovesOneRow(rows: seq<Match>, id: int, owner: UserId)
    requires UniqueIds(rows) && Lookup(rows, id, owner).Some?
    ensures |DeleteRows(rows, id, owner)| == |rows| - 1
    decreases |rows|
  {
    var keep := KeepFilter(id, owner);
    assert rows == [rows[0]] + rows[1..];
    assert DeleteRows(rows, id, owner) == (if keep(rows[0]) then [rows[0]] else []) + Where(rows[1..], keep);
    if keep(rows[0]) {
      assert Lookup(rows[1..], id, owner).Some?;
      DeleteRemovesOneRow(rows[1..], id, owner);
    } else {
      forall m | m in rows[1..] ensures keep(m) {
        var k :| 0 <= k < |rows[1..]| && rows[1..][k] == m;
        assert rows[k + 1] == m;
      }
      KeepAllRows(rows[1..], keep);
    }
  }

  /** A delete whose (id, owner) pair matches no row changes nothing. */
  lemma DeleteWithoutTarget(rows: seq<Match>, id: int, owner: UserId)
    requires Lookup(rows, id, owner).None?
    ensures DeleteRows(rows, id, owner) == rows
  {
    KeepAllRows(rows, KeepFilter(id, owner));
  }

  lemma {:induction false} KeepAllRows(s: seq<Match>, keep: Match -> bool)
    requires forall m :: m in s ==> keep(m)
    ensures Where(s, keep) == s
    decreases |s|
  {
    if s != [] {
      assert forall m :: m in s[1..] ==> m in s;
      KeepAllRows(s[1..], keep);
    }
  }

  /** A delete leaves every other user's rows exactly as they were. */
  lemma DeleteKeepsOthersRows(rows: seq<Match>, id: int, owner: UserId, other: UserId)
    requires other != owner
    ensures OwnedBy(DeleteRows(rows, id, owner), other) == OwnedBy(rows, other)
  {
    WhereNarrower(rows, KeepFilter(id, owner), OwnerFilter(other));
  }

  // ---------------------------------------------------------------- listing

  /** A bound parameter `$k` of the list query. */
  datatype SqlParam = IntParam(n: int) | TextParam(s: string)

  /** One conjunct of the list query's `WHERE`, naming its placeholder `$p`. */
  datatype Condition =
    | OwnerIs(p: nat)                 // user_id = $p
    | TrimmedOpponentILike(p: nat)    // TRIM(opponent_name) ILIKE $p
    | ResultIs(p: nat)                // result = $p
    | DateAtLeast(p: nat)             // match_date >= $p
    | DateAtMost(p: nat)              // match_date <= $p

  /** Whether row `m` satisfies condition `c`, with `$k` bound to `values[k - 1]`. */
  predicate Holds(c: Condition, values: seq<SqlParam>, m: Match) {
    1 <= c.p <= |values| && Satisfies(c, values[c.p - 1], m)
  }

  /** Whether row `m` satisfies condition `c` when its placeholder is bound to `v`. */
  predicate Satisfies(c: Condition, v: SqlParam, m: Match) {
    match c
    case OwnerIs(_) => v == IntParam(m.owner)
    case TrimmedOpponentILike(_) => v.TextParam? && ILike(SqlTrim(m.opponent), v.s)
    case ResultIs(_) => v == TextParam(OutcomeText(m.result))
    case DateAtLeast(_) => v.TextParam? && IsValidISODate(Str(v.s)) && !DateBefore(m.date, DateOf(v.s))
    case DateAtMost(_) => v.TextParam? && IsValidISODate(Str(v.s)) && !DateBefore(DateOf(v.s), m.date)
  }

  /** `conditions.join(" AND ")`. */
  predicate HoldsAll(conditions: seq<Condition>, values: seq<SqlParam>, m: Match) {
    forall k :: 0 <= k < |conditions| ==> Holds(conditions[k], values, m)
  }

  /** Placeholder bookkeeping: `$k` of the k-th condition is `values[k - 1]`, and `i` is the next k. */
  predicate Numbered(conditions: seq<Condition>, values: seq<SqlParam>, i: int) {
    && |conditions| == |values|
    && i == |values| + 1
    && forall k :: 0 <= k < |conditions| ==> conditions[k].p == k + 1
  }

  /** Appending condition `c` with its value `v` at placeholder `$i`. */
  lemma PushCondition(conditions: seq<Condition>, values: seq<SqlParam>, i: int, c: Condition, v: SqlParam)
    requires Numbered(conditions, values, i) && c.p == i
    ensures Numbered(conditions + [c], values + [v], i + 1)
    ensures forall m :: HoldsAll(conditions + [c], values + [v], m) <==>
      HoldsAll(conditions, values, m) && Satisfies(c, v, m)
  {
    var cs, vs := conditions + [c], values + [v];
    forall m ensures HoldsAll(cs, vs, m) <==> HoldsAll(conditions, values, m) && Satisfies(c, v, m) {
      forall k | 0 <= k < |conditions| ensures Holds(cs[k], vs, m) == Holds(conditions[k], values, m) {
        assert cs[k] == conditions[k];
        assert vs[conditions[k].p - 1] == values[conditions[k].p - 1];
      }
      assert cs[|conditions|] == c && vs[c.p - 1] == v;
    }
  }

  /** Filter number `stage` of the list query, in the order the handler adds them. */
  predicate StageWanted(m: Match, q: ListQuery, stage: nat) {
    match stage
    case 1 => OpponentWanted(m, q)
    case 2 => ResultWanted(m, q)
    case 3 => FromWanted(m, q)
    case _ => ToWanted(m, q)
  }

  /** After `stage` filters, the built conditions select exactly the caller's rows passing them. */
  ghost predicate Built(conditions: seq<Condition>, values: seq<SqlParam>, userId: UserId, q: ListQuery, stage: nat) {
    forall m :: HoldsAll(conditions, values, m) <==>
      && m.owner == userId
      && (stage >= 1 ==> OpponentWanted(m, q))
      && (stage >= 2 ==> ResultWanted(m, q))
      && (stage >= 3 ==> FromWanted(m, q))
      && (stage >= 4 ==> ToWanted(m, q))
  }

  /** The handler's state after `stage` filters: numbered, starting with the owner condition, and selecting as `Built` says. */
  ghost predicate Building(conditions: seq<Condition>, values: seq<SqlParam>, i: int, userId: UserId, q: ListQuery, stage: nat) {
    && Numbered(conditions, values, i)
    && |conditions| >= 1 && conditions[0] == OwnerIs(1) && values[0] == IntParam(userId)
    && Built(conditions, values, userId, q, stage)
  }

  /** After the last filter the conditions select exactly the rows the request asks for. */
  lemma Finished(conditions: seq<Condition>, values: seq<SqlParam>, i: int, userId: UserId, q: ListQuery)
    requires Building(conditions, values, i, userId, q, 4)
    ensures Numbered(conditions, values, i)
    ensures |conditions| >= 1 && conditions[0] == OwnerIs(1) && values[0] == IntParam(userId)
    ensures forall m :: HoldsAll(conditions, values, m) <==> Wanted(m, userId, q)
  {
  }

  /** Pushing a condition that expresses the next filter. */
  lemma Advance(conditions: seq<Condition>, values: seq<SqlParam>, i: int, userId: UserId, q: ListQuery,
                stage: nat, c: Condition, v: SqlParam)
    requires Building(conditions, values, i, userId, q, stage) && c.p == i && stage < 4
    requires forall m :: Satisfies(c, v, m) <==> StageWanted(m, q, stage + 1)
    ensures Building(conditions + [c], values + [v], i + 1, userId, q, stage + 1)
  {
    PushCondition(conditions, values, i, c, v);
    assert (conditions + [c])[0] == conditions[0] && (values + [v])[0] == values[0];
  }

  /** The `opponent` filter: `TRIM(opponent_name) ILIKE $i` bound to the cleaned name. */
  lemma AddOpponent(conditions: seq<Condition>, values: seq<SqlParam>, i: int, userId: UserId, q: ListQuery)
    requires Building(conditions, values, i, userId, q, 0) && Truthy(q.opponent)
    ensures Building(conditions + [TrimmedOpponentILike(i)], values + [TextParam(CleanTrimmedString(q.opponent))], i + 1, userId, q, 1)
  {
    Advance(conditions, values, i, userId, q, 0, TrimmedOpponentILike(i), TextParam(CleanTrimmedString(q.opponent)));
  }

  /** The `result` filter: `result = $i` bound to the letter. */
  lemma AddResult(conditions: seq<Condition>, values: seq<SqlParam>, i: int, userId: UserId, q: ListQuery)
    requires Building(conditions, values, i, userId, q, 1)
    requires q.result == Str("W") || q.result == Str("L")
    ensures Building(conditions + [ResultIs(i)], values + [TextParam(q.result.s)], i + 1, userId, q, 2)
  {
    Advance(conditions, values, i, userId, q, 1, ResultIs(i), TextParam(q.result.s));
  }

  /** The `from` filter: `match_date >= $i` bound to the date text. */
  lemma AddFrom(conditions: seq<Condition>, values: seq<SqlParam>, i: int, userId: UserId, q: ListQuery)
    requires Building(conditions, values, i, userId, q, 2)
    requires Truthy(q.from) && IsValidISODate(q.from)
    ensures Building(conditions + [DateAtLeast(i)], values + [TextParam(q.from.s)], i + 1, userId, q, 3)
  {
    Advance(conditions, values, i, userId, q, 2, DateAtLeast(i), TextParam(q.from.s));
  }

  /** The `to` filter: `match_date <= $i` bound to the date text. */
  lemma AddTo(conditions: seq<Condition>, values: seq<SqlParam>, i: int, userId: UserId, q: ListQuery)
    requires Building(conditions, values, i, userId, q, 3)
    requires Truthy(q.to) && IsValidISODate(q.to)
    ensures Building(conditions + [DateAtMost(i)], values + [TextParam(q.to.s)], i + 1, userId, q, 4)
  {
    Advance(conditions, values, i, userId, q, 3, DateAtMost(i), TextParam(q.to.s));
  }

  /** Whether the query supplies filter number `stage`. */
  predicate Supplied(q: ListQuery, stage: nat) {
    match stage
    case 1 => Truthy(q.opponent)
    case 2 => Truthy(q.result)
    case 3 => Truthy(q.from)
    case _ => Truthy(q.to)
  }

  /** Skipping a filter the query does not supply. */
  lemma Skip(conditions: seq<Condition>, values: seq<SqlParam>, i: int, userId: UserId, q: ListQuery, stage: nat)
    requires stage < 4 && Building(conditions, values, i, userId, q, stage)
    requires !Supplied(q, stage + 1)
    ensures Building(conditions, values, i, userId, q, stage + 1)
  {
  }

  /** The query-string checks, in the handler's order. */
  function ListError(q: ListQuery): (r: Option<string>)
    ensures r.None? <==>
      && (Truthy(q.from) ==> IsValidISODate(q.from))
      && (Truthy(q.to) ==> IsValidISODate(q.to))
      && (Truthy(q.result) ==> IsOutcomeText(q.result))
    ensures Truthy(q.from) && !IsValidISODate(q.from) ==> r == Some(FromInvalid)
    ensures (Truthy(q.from) ==> IsValidISODate(q.from)) && Truthy(q.to) && !IsValidISODate(q.to) ==>
      r == Some(ToInvalid)
    ensures (Truthy(q.from) ==> IsValidISODate(q.from)) && (Truthy(q.to) ==> IsValidISODate(q.to))
            && Truthy(q.result) && q.result != Str("W") && q.result != Str("L") ==>
      r == Some(ResultInvalid)
  {
    if Truthy(q.from) && !IsValidISODate(q.from) then Some(FromInvalid)
    else if Truthy(q.to) && !IsValidISODate(q.to) then Some(ToInvalid)
    else if Truthy(q.result) && !IsOutcomeText(q.result) then Some(ResultInvalid)
    else None
  }

  /** `opponent`: the trimmed name, compared up to case. */
  predicate OpponentWanted(m: Match, q: ListQuery) {
    Truthy(q.opponent) ==> ILike(SqlTrim(m.opponent), CleanTrimmedString(q.opponent))
  }

  /** `result`: the same letter. */
  predicate ResultWanted(m: Match, q: ListQuery) {
    Truthy(q.result) ==> q.result == Str(OutcomeText(m.result))
  }

  /** `from`: no earlier than that date. */
  predicate FromWanted(m: Match, q: ListQuery) {
    Truthy(q.from) ==> IsValidISODate(q.from) && !DateBefore(m.date, DateOf(q.from.s))
  }

  /** `to`: no later than that date. */
  predicate ToWanted(m: Match, q: ListQuery) {
    Truthy(q.to) ==> IsValidISODate(q.to) && !DateBefore(DateOf(q.to.s), m.date)
  }

  /**
   * The rows a list request asks for: the caller's, and among those the ones
   * that pass every filter the query supplies.
   */
  predicate Wanted(m: Match, userId: UserId, q: ListQuery) {
    m.owner == userId && OpponentWanted(m, q) && ResultWanted(m, q) && FromWanted(m, q) && ToWanted(m, q)
  }

  function QueryFilter(userId: UserId, q: ListQuery): (keep: Match -> bool) {
    (m: Match) => Wanted(m, userId, q)
  }

  /** `ORDER BY match_date DESC, id DESC`. */
  predicate NewerFirst(a: Match, b: Match) {
    DateBefore(b.date, a.date) || (a.date == b.date && a.id > b.id)
  }

  lemma NewerFirstIsStrictWeakOrder()
    ensures StrictWeakOrder(NewerFirst)
  {
  }

  /** What a valid list request returns. */
  function Listed(rows: seq<Match>, userId: UserId, q: ListQuery): (listed: seq<Match>) {
    OrderBy(Where(rows, QueryFilter(userId, q)), NewerFirst)
  }

  /** Every listed row is one of the caller's rows and satisfies every supplied filter, and vice versa. */
  lemma ListedExactly(rows: seq<Match>, userId: UserId, q: ListQuery, m: Match)
    ensures m in Listed(rows, userId, q) <==> m in rows && Wanted(m, userId, q)
    ensures m in Listed(rows, userId, q) ==> m.owner == userId
  {
    var w := Where(rows, QueryFilter(userId, q));
    var r := OrderBy(w, NewerFirst);
    assert multiset(r) == multiset(w);
    assert m in r <==> m in multiset(r);
    assert m in w <==> m in multiset(w);
  }

  /** Each selected row is listed exactly once. */
  lemma ListedOnce(rows: seq<Match>, userId: UserId, q: ListQuery)
    requires UniqueIds(rows)
    ensures NoDuplicates(Listed(rows, userId, q))
    ensures multiset(Listed(rows, userId, q)) == multiset(Where(rows, QueryFilter(userId, q)))
  {
    var w := Where(rows, QueryFilter(userId, q));
    assert NoDuplicates(rows);
    NoDuplicatesIffMultiplicityOne(rows);
    NoDuplicatesIffMultiplicityOne(w);
    WhereSubMultiset(rows, QueryFilter(userId, q));
    PermutationKeepsNoDuplicates(w, Listed(rows, userId, q));
  }

  /** Listed rows run from the latest date to the earliest, and by descending id within a date. */
  lemma ListedNewestFirst(rows: seq<Match>, userId: UserId, q: ListQuery)
    requires UniqueIds(rows)
    ensures var r := Listed(rows, userId, q);
      forall i, j :: 0 <= i < j < |r| ==>
        DateBefore(r[j].date, r[i].date) || (r[i].date == r[j].date && r[i].id > r[j].id)
  {
    var r := Listed(rows, userId, q);
    NewerFirstIsStrictWeakOrder();
    OrderByOrdered(Where(rows, QueryFilter(userId, q)), NewerFirst);
    ListedOnce(rows, userId, q);
    forall i, j | 0 <= i < j < |r|
      ensures DateBefore(r[j].date, r[i].date) || (r[i].date == r[j].date && r[i].id > r[j].id)
    {
      ListedExactly(rows, userId, q, r[i]);
      ListedExactly(rows, userId, q, r[j]);
      assert r[i] != r[j];
      assert r[i].id != r[j].id by {
        var a :| 0 <= a < |rows| && rows[a] == r[i];
        var b :| 0 <= b < |rows| && rows[b] == r[j];
        assert a != b;
      }
      assert !NewerFirst(r[j], r[i]);
    }
  }

  /** Every row was written from checked fields and has an id below `nextId`. */
  predicate AllStored(rows: seq<Match>, nextId: int) {
    forall m :: m in rows ==> StoredRow(m) && m.id < nextId
  }

  /** Any filter keeps ids unique. */
  lemma {:induction false} WhereKeepsUniqueIds(rows: seq<Match>, keep: Match -> bool)
    requires UniqueIds(rows)
    ensures UniqueIds(Where(rows, keep))
    decreases |rows|
  {
    if rows != [] {
      var w := Where(rows[1..], keep);
      WhereKeepsUniqueIds(rows[1..], keep);
      forall m | m in w ensures m.id != rows[0].id {
        var k :| 0 <= k < |rows[1..]| && rows[1..][k] == m;
        assert rows[k + 1] == m;
      }
      if keep(rows[0]) {
        var r := [rows[0]] + w;
        forall a, b | 0 <= a < b < |r| ensures r[a].id != r[b].id {
          assert r[b] == w[b - 1] && r[b] in w;
          if a > 0 {
            assert r[a] == w[a - 1];
          }
        }
      } else {
        assert Where(rows, keep) == w;
      }
    }
  }

  /** A delete leaves a valid table valid. */
  lemma DeleteKeepsTableValid(rows: seq<Match>, id: int, owner: UserId, nextId: int)
    requires UniqueIds(rows) && AllStored(rows, nextId)
    ensures UniqueIds(DeleteRows(rows, id, owner)) && AllStored(DeleteRows(rows, id, owner), nextId)
  {
    WhereKeepsUniqueIds(rows, KeepFilter(id, owner));
  }

  /** An update with checked fields leaves a valid table valid. */
  lemma UpdateKeepsTableValid(rows: seq<Match>, id: int, owner: UserId, f: MatchFields, nextId: int)
    requires UniqueIds(rows) && AllStored(rows, nextId)
    requires StoredFields(f.date, f.opponent, f.score, f.notes)
    ensures UniqueIds(UpdateRows(rows, id, owner, f)) && AllStored(UpdateRows(rows, id, owner, f), nextId)
  {
    var r := UpdateRows(rows, id, owner, f);
    forall m | m in r ensures StoredRow(m) && m.id < nextId {
      var k :| 0 <= k < |r| && r[k] == m;
      assert rows[k] in rows;
    }
  }

  /** The table behind the routes. */
  class MatchStore {
    /** The rows of `matches`, in storage order. */
    var rows: seq<Match>
    /** The next value the `id` sequence hands out. */
    var nextId: int

    ghost predicate Valid()
      reads this
    {
      && nextId >= 1
      && UniqueIds(rows)
      && AllStored(rows, nextId)
    }

    constructor ()
      ensures Valid() && rows == [] && nextId == 1
    {
      rows, nextId := [], 1;
    }

    /**
     * POST /matches. Input is checked first; a valid request inserts one row
     * owned by the caller with a fresh id and the creation time `now`.
     */
    method Create(userId: UserId, input: MatchInput, now: int) returns (reply: Reply)
      requires Valid()
      modifies this
      ensures Valid()
      ensures ValidateMatch(input).Failure? ==>
        && reply == Reply(400, Error(ValidateMatch(input).error))
        && rows == old(rows) && nextId == old(nextId)
      ensures ValidateMatch(input).Success? ==>
        var f := ValidateMatch(input).value;
        var m := Match(old(nextId), userId, f.date, f.opponent, f.result, f.score, f.notes, now);
        && rows == old(rows) + [m]
        && nextId == old(nextId) + 1
        && reply == Reply(201, CreatedMatch(m))
    {
      var checked := ValidateMatch(input);
      if checked.Failure? {
        return Reply(400, Error(checked.error));
      }
      var f := checked.value;
      ValidatedFieldsAreStorable(input);
      var m := Match(nextId, userId, f.date, f.opponent, f.result, f.score, f.notes, now);
      rows := rows + [m];
      nextId := nextId + 1;
      reply := Reply(201, CreatedMatch(m));
    }

    /**
     * The `WHERE` clause of GET /matches, built as the handler builds it:
     * pushing onto `conditions` and `values` and counting placeholders with
     * `i`. `badResult` is the early 400 for a result other than W or L.
     */
    method BuildConditions(userId: UserId, q: ListQuery)
      returns (conditions: seq<Condition>, values: seq<SqlParam>, i: int, badResult: bool)
      requires Truthy(q.from) ==> IsValidISODate(q.from)
      requires Truthy(q.to) ==> IsValidISODate(q.to)
      ensures badResult <==> Truthy(q.result) && !IsOutcomeText(q.result)
      ensures !badResult ==>
        && Numbered(conditions, values, i)
        && |conditions| >= 1 && conditions[0] == OwnerIs(1) && values[0] == IntParam(userId)
        && forall m :: HoldsAll(conditions, values, m) <==> Wanted(m, userId, q)
    {
      conditions := [OwnerIs(1)];
      values := [IntParam(userId)];
      i := 2;
      badResult := false;
      assert Building(conditions, values, i, userId, q, 0) by {
        assert conditions[0] == OwnerIs(1) && values[0] == IntParam(userId);
      }

      if Truthy(q.opponent) {
        var c, v := TrimmedOpponentILike(i), TextParam(CleanTrimmedString(q.opponent));
        AddOpponent(conditions, values, i, userId, q);
        conditions, values, i := conditions + [c], values + [v], i + 1;
      } else {
        Skip(conditions, values, i, userId, q, 0);
      }

      if Truthy(q.result) {
        if !(q.result == Str("W") || q.result == Str("L")) {
          badResult := true;
          return;
        }
        var c, v := ResultIs(i), TextParam(q.result.s);
        AddResult(conditions, values, i, userId, q);
        conditions, values, i := conditions + [c], values + [v], i + 1;
      } else {
        Skip(conditions, values, i, userId, q, 1);
      }

      if Truthy(q.from) {
        var c, v := DateAtLeast(i), TextParam(q.from.s);
        AddFrom(conditions, values, i, userId, q);
        conditions, values, i := conditions + [c], values + [v], i + 1;
      } else {
        Skip(conditions, values, i, userId, q, 2);
      }

      if Truthy(q.to) {
        var c, v := DateAtMost(i), TextParam(q.to.s);
        AddTo(conditions, values, i, userId, q);
        conditions, values, i := conditions + [c], values + [v], i + 1;
      } else {
        Skip(conditions, values, i, userId, q, 3);
      }
      Finished(conditions, values, i, userId, q);
    }

    /**
     * GET /matches. Invalid `from`, `to` or `result` is a 400 before any
     * query; otherwise the caller's rows matching every supplied filter, newest
     * first.
     */
    method List(userId: UserId, q: ListQuery) returns (reply: Reply)
      requires Valid()
      ensures ListError(q).Some? ==> reply == Reply(400, Error(ListError(q).value))
      ensures ListError(q).None? ==> reply == Reply(200, MatchList(Views(Listed(rows, userId, q))))
    {
      if Truthy(q.from) && !IsValidISODate(q.from) {
        return Reply(400, Error(FromInvalid));
      }
      if Truthy(q.to) && !IsValidISODate(q.to) {
        return Reply(400, Error(ToInvalid));
      }
      var conditions, values, i, badResult := BuildConditions(userId, q);
      if badResult {
        return Reply(400, Error(ResultInvalid));
      }
      var sql := (m: Match) => HoldsAll(conditions, values, m);
      var found := Where(rows, sql);
      WhereAgrees(rows, sql, QueryFilter(userId, q));
      reply := Reply(200, MatchList(Views(OrderBy(found, NewerFirst))));
    }

    /**
     * GET /matches/:id, with `id` the value of `Number(req.params.id)`. A row
     * of another user gets the same 404 as an id nobody has.
     */
    method Get(userId: UserId, id: JsNumber) returns (reply: Reply)
      requires Valid()
      ensures !IsInteger(id) ==> reply == Reply(400, Error(IdNotInteger))
      ensures IsInteger(id) && (forall m :: m in rows && m.id == IntegerValue(id) ==> m.owner != userId) ==>
        reply == Reply(404, Error(NotFound))
      ensures IsInteger(id) ==> forall m :: m in rows && m.id == IntegerValue(id) && m.owner == userId ==>
        reply == Reply(200, OneMatch(View(m)))
      ensures reply.status == 200 ==> IsInteger(id) && exists m ::
        m in rows && m.id == IntegerValue(id) && m.owner == userId && reply == Reply(200, OneMatch(View(m)))
      ensures reply.status in {200, 400, 404}
    {
      if !IsInteger(id) {
        return Reply(400, Error(IdNotInteger));
      }
      var found := Lookup(rows, IntegerValue(id), userId);
      forall m | m in rows && m.id == IntegerValue(id) && m.owner == userId
        ensures found == Some(m)
      {
        LookupIsTheRow(rows, IntegerValue(id), userId, m);
      }
      if found.None? {
        return Reply(404, Error(NotFound));
      }
      reply := Reply(200, OneMatch(View(found.value)));
    }

    /**
     * PUT /matches/:id. The id is checked first, then the body as for
     * create; then the caller's row with that id, and only it, gets the five
     * new fields.
     */
    method Update(userId: UserId, id: JsNumber, input: MatchInput) returns (reply: Reply)
      requires Valid()
      modifies this
      ensures Valid() && nextId == old(nextId)
      ensures !IsInteger(id) ==> reply == Reply(400, Error(IdNotInteger)) && rows == old(rows)
      ensures IsInteger(id) && ValidateMatch(input).Failure? ==>
        reply == Reply(400, Error(ValidateMatch(input).error)) && rows == old(rows)
      ensures IsInteger(id) && ValidateMatch(input).Success? ==>
        var f, target := ValidateMatch(input).value, Lookup(old(rows), IntegerValue(id), userId);
        && rows == UpdateRows(old(rows), IntegerValue(id), userId, f)
        && (target.None? ==> reply == Reply(404, Error(NotFound)) && rows == old(rows))
        && (target.Some? ==> reply == Reply(200, OneMatch(View(Refill(target.value, f)))))
    {
      if !IsInteger(id) {
        return Reply(400, Error(IdNotInteger));
      }
      var checked := ValidateMatch(input);
      if checked.Failure? {
        return Reply(400, Error(checked.error));
      }
      var f := checked.value;
      var matchId := IntegerValue(id);
      ValidatedFieldsAreStorable(input);
      var target := Lookup(rows, matchId, userId);
      var updated := UpdateRows(rows, matchId, userId, f);
      UpdateKeepsTableValid(rows, matchId, userId, f, nextId);
      if target.None? {
        UpdateWithoutTarget(rows, matchId, userId, f);
      }
      rows := updated;
      if target.None? {
        return Reply(404, Error(NotFound));
      }
      reply := Reply(200, OneMatch(View(Refill(target.value, f))));
    }

    /** DELETE /matches/:id: removes the caller's row with that id and reports the id. */
    method Delete(userId: UserId, id: JsNumber) returns (reply: Reply)
      requires Valid()
      modifies this
      ensures Valid() && nextId == old(nextId)
      ensures !IsInteger(id) ==> reply == Reply(400, Error(IdNotInteger)) && rows == old(rows)
      ensures IsInteger(id) ==>
        && rows == DeleteRows(old(rows), IntegerValue(id), userId)
        && (Lookup(old(rows), IntegerValue(id), userId).None? ==>
              reply == Reply(404, Error(NotFound)) && rows == old(rows))
        && (Lookup(old(rows), IntegerValue(id), userId).Some? ==>
              reply == Reply(200, DeletedMatch(DeletedMessage, IntegerValue(id))))
    {
      if !IsInteger(id) {
        return Reply(400, Error(IdNotInteger));
      }
      var matchId := IntegerValue(id);
      var target := Lookup(rows, matchId, userId);
      var remaining := DeleteRows(rows, matchId, userId);
      DeleteKeepsTableValid(rows, matchId, userId, nextId);
      rows := remaining;
      if target.None? {
        DeleteWithoutTarget(old(rows), matchId, userId);
        return Reply(404, Error(NotFound));
      }
      reply := Reply(200, DeletedMatch(DeletedMessage, matchId));
    }
  }

  /** Deleting the same match twice: the first call succeeds, the second is a 404. */
  method DeleteTwice(store: MatchStore, userId: UserId, id: int) returns (first: Reply, second: Reply)
    requires store.Valid() && Lookup(store.rows, id, userId).Some?
    modifies store
    ensures first == Reply(200, DeletedMatch(DeletedMessage, id))
    ensures second == Reply(404, Error(NotFound))
  {
    first := store.Delete(userId, Finite(id as real));
    DeleteThenLookup(old(store.rows), id, userId);
    second := store.Delete(userId, Finite(id as real));
  }
}
