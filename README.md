# Tennis Tracker: a verified model of the back end

Tennis Tracker is a small Express and PostgreSQL service. Each player keeps a
log of their tennis matches in it: the date, the opponent, a win (`W`) or a
loss (`L`), and an optional score and optional notes. The player can list
their matches with filters, fetch, edit and delete one, and see a per-opponent
win/loss summary. Every match route sits behind a JWT cookie check, and the
accounts come from a signup/login router.

This project models that core in Dafny and proves what it promises:

- **`validators.dfy` (module `Validators`).** `isValidISODate` accepts
  exactly the strings of the form `DDDD-DD-DD` that name a real calendar
  date, counting leap years. `cleanTrimmedString` turns a non-string into
  `""` and trims a string the way JavaScript's `String.prototype.trim` does.
- **`require_auth.dfy` (module `RequireAuth`).** The middleware refuses to
  load without a secret. It answers 401 "Not logged in" when the cookie is
  missing. It answers 401 "Invalid or expired token" when the verifier
  rejects the token. Otherwise it attaches the user id and calls the next
  handler exactly once.
- **`matches.dfy` (module `Matches`).** The five match routes run over a
  table: a `MatchStore` class whose `rows` and `nextId` fields are changed
  by create, update and delete. The model covers:
  - the validation order;
  - the SQL `WHERE` conditions that the list route assembles step by step,
    with their `$n` numbering;
  - the `ORDER BY match_date DESC, id DESC` order;
  - the fact that a caller can never see, change or delete another user's
    rows.
- **`opponents.dfy` (module `Opponents`).** The `GROUP BY TRIM(opponent_name)`
  summary: `COUNT`, the two `SUM(CASE …)` counts, and the order
  `matches DESC, opponent_name ASC`.
- **`auth.dfy` (module `Auth`).**
  - Signup normalises the email by trimming and lower-casing it. A
    `UserStore` class holds the users table and its `SERIAL` counter.
  - Login, `/me` and logout are modelled, along with how they fit together:
    a token issued by login passes the middleware, and `/me` then returns
    the same user.
- **Support modules.** `js.dfy` models the JavaScript values and the
  built-ins the code relies on: truthiness, `Number.isInteger`, `trim` and
  `toLowerCase`. `text.dfy` holds the string algorithms behind them.
  `sql.dfy` models the SQL behaviour the queries rely on: `WHERE`,
  `DISTINCT`/`GROUP BY`, `ORDER BY` and PostgreSQL `TRIM`. PostgreSQL does not promise a stable sort. The model picks one, insertion sort, and both orders the routes use are total on the rows they sort, so every sort that honours them gives the same result. `match_date DESC, id DESC` is total because match ids are unique. `matches DESC, opponent_name ASC` is total because the grouped names are distinct (SummaryNamesDistinct).
  `wrappers.dfy` holds `Option` and `Result`.

bcrypt, `jwt.sign`, `jwt.verify` and the clock are parameters of the model
(`Hasher`, `Comparer`, `Signer`, `Verifier`, `now`). The database is the
`rows` and `users` sequences.

## Model

| member | source | states |
|---|---|---|
| Validators.DateBefore | backend/routes/matches.js:89 | Chronological order on dates, as PostgreSQL compares `DATE` values: by year, then month, then day. `match_date >= $i` is the negation of DateBefore in one direction, and `match_date <= $i` the negation in the other. |
| Validators.IsLeapYear | validators.js:12-19 | The Gregorian leap-year rule that the UTC `Date` applies, extended to years before 1582: divisible by 4, except centuries not divisible by 400, so year 0 is a leap year. |
| Validators.IsCalendarDate | validators.js:9-19 | A date passes the range checks and the `Date` round trip: month 1 to 12, and day 1 up to that month's length. |
| Validators.MatchesIsoPattern | validators.js:5 | The regular expression `^\d{4}-\d{2}-\d{2}$`: ten characters, dashes at positions 4 and 7 and ASCII digits elsewhere. |
| Validators.DaysInMonth | validators.js:12-19 | The month length that the UTC `Date` round trip enforces is 28 to 31 days. February has 29 days exactly in leap years. |
| Validators.Split | validators.js:7 | `split` always returns at least one piece. |
| Validators.SplitAtFirst | validators.js:7 | `split` cuts at the first separator and carries on with the rest. |
| Validators.SplitWithoutSeparator | validators.js:7 | A string with no separator splits into itself alone. |
| Validators.SplitIsoDate | validators.js:5-7 | A string that matches the date pattern splits on `-` into exactly its year, month and day fields. |
| Validators.DigitValue | validators.js:7 | `Number` of a single digit is between 0 and 9. |
| Validators.DecimalValue | validators.js:7 | `Number` of a run of digits is its base-10 value, read left to right. |
| Validators.NewUtcDate | validators.js:12-19 | A UTC date built from in-range fields is always a real date. It equals the requested date exactly when the day fits in the month; otherwise it rolls over. |
| Validators.IsValidISODate | validators.js:3-20 | Anything accepted is a string of the form `DDDD-DD-DD`. |
| Validators.IsoFields | validators.js:7 | The parsed year is between 0 and 9999. The parsed month and day are between 0 and 99. |
| Validators.DecimalValueOfFields | validators.js:7 | The fields that `map(Number)` reads are the decimal values of the three pieces of the split. |
| Validators.IsValidISODateIff | validators.js:3-20 | A value is accepted if and only if it is a string, it matches the pattern, and its fields name a real calendar date. |
| Validators.DateOf | validators.js:7-19 | An accepted string denotes a real calendar date with a year between 0 and 9999. |
| Validators.DigitChar | validators.js:5 | Each digit value has a character that `\d` accepts and that reads back as that value. |
| Validators.FormatIsoDate | validators.js:5 | The `YYYY-MM-DD` rendering of a date is ten characters long. |
| Validators.FormatIsoDateRoundTrip | validators.js:3-20 | Every real date in years 0 to 9999, once formatted, is accepted and parses back to the same date. |
| Validators.ShapedAs | validators.js:9-19 | For a string of the right shape, acceptance is decided by its fields alone. |
| Validators.LeapDayAccepted | validators.js:12-19 | `2024-02-29` is accepted. |
| Validators.February30Refused | validators.js:12-19 | `2024-02-30` is refused. |
| Validators.CommonYearLeapDayRefused | validators.js:12-19 | `2023-02-29` is refused. |
| Validators.YearZeroAccepted | validators.js:12-19 | `0000-02-29` is accepted, because year 0 is a leap year in the proleptic calendar. |
| Validators.MalformedDatesRefused | validators.js:4-10 | The following are all refused: month 13, letters in the year, one-digit fields, and a number in place of a string. |
| Validators.CleanTrimmedString | validators.js:22-25 | A non-string gives `""`. The result never starts or ends with whitespace. |
| Validators.CleanTrimmedStringIsInfix | validators.js:24 | The trimmed string is a contiguous piece of the input. Everything cut off on either side is whitespace. |
| Validators.CleanTrimmedStringIdempotent | validators.js:22-25 | Cleaning twice is the same as cleaning once. |
| Js.Truthy | backend/routes/matches.js:14 | JavaScript truthiness as the `!x` and `x \|\| null` tests use it: `undefined`, `null`, `false`, `0`, `NaN` and `""` are falsy, and everything else is truthy. |
| Js.IsInteger | backend/routes/matches.js:121 | `Number.isInteger`: the number is finite and has no fractional part. |
| Js.IsWhiteSpace | validators.js:24 | The characters `trim` removes: ECMAScript WhiteSpace and LineTerminator. |
| Js.IntegerValue | backend/routes/matches.js:121 | An id that passes `Number.isInteger` denotes exactly that integer. |
| Js.Trim | validators.js:24 | The result of `trim` has no leading or trailing whitespace. |
| Js.ToLowerCase | routes/auth.js:18 | `toLowerCase` keeps the length. |
| Text.LeadingCount | validators.js:24 | The count covers exactly the leading run of dropped characters. |
| Text.TrailingCount | validators.js:24 | The count covers exactly the trailing run of dropped characters. |
| Text.Strip | validators.js:24 | Stripping never lengthens the string. The ends of the result are not dropped characters. |
| Text.StripIsInfix | validators.js:24 | The stripped string is the input minus a dropped-only prefix and a dropped-only suffix. |
| Text.StripIdempotent | validators.js:24 | Stripping twice is the same as stripping once. |
| Text.StripNoOp | backend/routes/opponents.js:13 | A string that is already trimmed under a wider notion of space is unchanged by a narrower trim. |
| Text.LeadingCountPadded | validators.js:24 | The leading count of padding followed by a non-space is the length of the padding. |
| Text.TrailingCountPadded | validators.js:24 | The trailing count of a non-space followed by padding is the length of the padding. |
| Text.StripPadded | validators.js:24 | Stripping a trimmed core that is surrounded by padding gives back the core. |
| Text.LowerChar | routes/auth.js:18 | `A`–`Z` move to `a`–`z`. Every other character is unchanged. |
| Text.ToLowerAscii | routes/auth.js:18 | Lower-casing maps each character on its own and keeps the length. |
| Text.ToLowerAsciiAppend | routes/auth.js:18 | Lower-casing distributes over concatenation. |
| Text.ToLowerAsciiNoUpper | routes/auth.js:18 | A string with no upper-case letters is unchanged by lower-casing. |
| Text.ToLowerAsciiIdempotent | routes/auth.js:18 | Lower-casing twice is the same as lower-casing once. |
| Text.LexLessIrreflexive | backend/routes/opponents.js:20 | `opponent_name ASC` never puts a name before itself. |
| Text.LexLessAsymmetric | backend/routes/opponents.js:20 | Two names are never each before the other. |
| Text.LexLessTransitive | backend/routes/opponents.js:20 | The name order is transitive. |
| Text.LexLessTotal | backend/routes/opponents.js:20 | Any two different names are ordered one way or the other. |
| Sql.SqlTrim | backend/routes/opponents.js:13 | The result of PostgreSQL `TRIM` has no leading or trailing space. |
| Sql.SqlTrimOfJsTrimmed | backend/routes/opponents.js:13 | `TRIM` leaves a name stored through `trim()` unchanged. |
| Sql.ILike | backend/routes/matches.js:74 | The model's `ILIKE`: the two strings are equal once ASCII `A`–`Z` are lower-cased. |
| Sql.Where | backend/routes/matches.js:105 | `WHERE` keeps exactly the rows that satisfy the condition. |
| Sql.WhereSubMultiset | backend/routes/matches.js:105 | `WHERE` never invents or duplicates rows. |
| Sql.WhereAgrees | backend/routes/matches.js:105 | Two conditions that agree on every row select the same rows, in the same order. |
| Sql.WhereCons | backend/routes/matches.js:105 | `WHERE` on a table with a first row keeps that row exactly when the row satisfies the condition. |
| Sql.WhereAppend | backend/routes/matches.js:105 | `WHERE` distributes over concatenated tables. |
| Sql.WhereNarrower | backend/routes/matches.js:105 | Filtering with a wide condition and then with a narrower one is the same as filtering with the narrower one. |
| Sql.Distinct | backend/routes/opponents.js:19 | The groups are exactly the distinct keys that occur. |
| Sql.DistinctSnoc | backend/routes/opponents.js:19 | A key seen for the first time opens a new group at the end. |
| Sql.DistinctNoDuplicates | backend/routes/opponents.js:19 | No key forms two groups. |
| Sql.Insert | backend/routes/matches.js:106 | Inserting into an ordered result adds exactly one row. |
| Sql.InsertOrdered | backend/routes/matches.js:106 | Inserting into an ordered result keeps it ordered. |
| Sql.OrderBy | backend/routes/matches.js:106 | `ORDER BY` is a permutation of its input. |
| Sql.OrderByOrdered | backend/routes/matches.js:106 | `ORDER BY` under a strict weak order returns its rows in that order. |
| Sql.RemoveMatching | backend/routes/opponents.js:20 | Removing one matching row from each of two permutations leaves two permutations. |
| Sql.NoDuplicatesIffMultiplicityOne | backend/routes/matches.js:106 | A result has no duplicates if and only if every row occurs in it at most once. |
| Sql.PermutationKeepsNoDuplicates | backend/routes/matches.js:106 | Reordering keeps a duplicate-free result duplicate-free. |
| Sql.OrderedHeadsAgree | backend/routes/matches.js:106 | Two orderings of the same rows under a total order start with the same row. |
| Sql.OrderedPermutationUnique | backend/routes/matches.js:106 | Under an order that is total on the rows, the ordered result is unique. |
| RequireAuth.LoadGate | backend/middleware/requireAuth.js:4-7 | Loading succeeds if and only if the secret is set and non-empty, and it then keeps that secret. Otherwise it fails with "Missing JWT_SECRET in .env". |
| RequireAuth.Decide | backend/middleware/requireAuth.js:13-27 | Every rejection is a 401. A falsy cookie gets "Not logged in". The request proceeds if and only if the token is a non-empty string that the verifier accepts, and then with the verifier's user id. A truthy token that is rejected gets "Invalid or expired token". |
| RequireAuth.RejectionIsUniform | backend/middleware/requireAuth.js:20-26 | Every rejected token gets the same reply, so a reply never tells a malformed token from an expired one. |
| RequireAuth.Request.constructor | backend/middleware/requireAuth.js:14 | A new request carries its cookie and has no user id yet. |
| RequireAuth.Run | backend/middleware/requireAuth.js:13-27 | On success, `req.userId` is set to the token's user, `next` is called once, and there is no reply. On rejection, `req.userId` is unchanged, `next` is not called, and the reply is a 401 with the decision's error. |
| Matches.View | backend/routes/matches.js:101-103 | The columns a `SELECT` or `RETURNING` reports for a row: id, date, opponent, result, score, notes and `created_at`, without `user_id`. |
| Matches.Views | backend/routes/matches.js:100-110 | The JSON rows are the stored rows, one for one and in order. |
| Matches.OrNull | backend/routes/matches.js:40-41 | `score \|\| null` is null exactly for falsy values. Otherwise it is the value itself. |
| Matches.FieldsMissing | backend/routes/matches.js:14 | The body is missing a field when `match_date` is falsy, the trimmed opponent name is empty, or `result` is falsy. |
| Matches.IsOutcomeText | backend/routes/matches.js:20 | The result is exactly the string `"W"` or the string `"L"`. |
| Matches.ValidateMatch | backend/routes/matches.js:12-28 | The checks run in the source's order: missing fields, then the result, then the date, each with its message. The input is accepted if and only if it passes all three. An accepted input stores the parsed date, the trimmed opponent, the result, and the `\|\| null` score and notes. |
| Matches.ValidatedFieldsAreStorable | backend/routes/matches.js:12-28 | Accepted fields meet the table's invariant: a real date, and a trimmed, non-empty opponent. |
| Matches.StoredOpponentUntrimmed | backend/routes/opponents.js:13 | `TRIM` leaves every stored opponent name unchanged. |
| Matches.OwnedBy | backend/routes/matches.js:69-70 | The `user_id = $1` rows are exactly the caller's rows. |
| Matches.Lookup | backend/routes/matches.js:126-137 | The `WHERE id = $1 AND user_id = $2` lookup finds a row of the caller with that id. It finds nothing if and only if no such row exists. |
| Matches.LookupSeesOnlyOwnRows | backend/routes/matches.js:131 | Other users' rows never influence a lookup. |
| Matches.LookupIsTheRow | backend/routes/matches.js:131 | With unique ids, the lookup returns the row with that id if the caller owns it. If another user owns it, the lookup returns nothing, exactly as if the row did not exist. |
| Matches.Refill | backend/routes/matches.js:175-181 | The `SET` columns take the new fields. The id, the owner and `created_at` are kept. |
| Matches.UpdateRows | backend/routes/matches.js:174-192 | `UPDATE … WHERE id AND user_id` rewrites exactly the matching row in place and leaves every other row unchanged. |
| Matches.UpdateKeepsOthersRows | backend/routes/matches.js:181 | An update never changes another user's rows. |
| Matches.UpdateWithoutTarget | backend/routes/matches.js:194-196 | An update with no matching row changes nothing. |
| Matches.DeleteRows | backend/routes/matches.js:214-218 | `DELETE … WHERE id AND user_id` removes exactly the matching rows. |
| Matches.DeleteThenLookup | backend/routes/matches.js:214-223 | After a delete, that id is no longer found for that caller. |
| Matches.DeleteRemovesOneRow | backend/routes/matches.js:214-225 | With unique ids, a successful delete removes exactly one row. |
| Matches.DeleteWithoutTarget | backend/routes/matches.js:221-223 | A delete with no matching row changes nothing. |
| Matches.KeepAllRows | backend/routes/matches.js:216 | A condition that holds on every row keeps the whole table. |
| Matches.DeleteKeepsOthersRows | backend/routes/matches.js:216 | A delete never changes another user's rows. |
| Matches.Holds | backend/routes/matches.js:105 | What PostgreSQL evaluates for one conjunct: its placeholder `$p` is bound to the p-th value, which exists, and the row satisfies the conjunct with that value. |
| Matches.Satisfies | backend/routes/matches.js:69-98 | The meaning of each conjunct for a row and a bound value. `user_id = $p` matches the owner. `TRIM(opponent_name) ILIKE $p` matches the trimmed name up to case. `result = $p` matches the letter. `match_date >= $p` and `match_date <= $p` compare with the date that the bound text names. |
| Matches.HoldsAll | backend/routes/matches.js:105 | `conditions.join(" AND ")`: the row satisfies every conjunct. |
| Matches.PushCondition | backend/routes/matches.js:73-98 | Pushing a condition with placeholder `$i` and its value keeps conditions and values numbered in step, and adds that condition to the conjunction. |
| Matches.Finished | backend/routes/matches.js:69-105 | Once all four filters are handled, the assembled conditions are well numbered, start with `user_id = $1` bound to the caller, and select exactly the wanted rows. |
| Matches.Advance | backend/routes/matches.js:73-98 | Pushing the condition for the next filter keeps the assembly invariant. |
| Matches.AddOpponent | backend/routes/matches.js:73-77 | `TRIM(opponent_name) ILIKE $i`, bound to the trimmed query, implements the opponent filter. |
| Matches.AddResult | backend/routes/matches.js:79-86 | `result = $i` implements the result filter. |
| Matches.AddFrom | backend/routes/matches.js:88-92 | `match_date >= $i` implements the `from` filter. |
| Matches.AddTo | backend/routes/matches.js:94-98 | `match_date <= $i` implements the `to` filter. |
| Matches.Skip | backend/routes/matches.js:73-98 | A filter that was not supplied adds no condition and still keeps the invariant. |
| Matches.OpponentWanted | backend/routes/matches.js:73-77 | With a truthy `opponent`, the row's trimmed name equals the trimmed query up to case. Otherwise every row passes. |
| Matches.ResultWanted | backend/routes/matches.js:79-86 | With a truthy `result`, the row has that letter. Otherwise every row passes. |
| Matches.FromWanted | backend/routes/matches.js:88-92 | With a truthy `from`, the row's date is on or after that date. Otherwise every row passes. |
| Matches.ToWanted | backend/routes/matches.js:94-98 | With a truthy `to`, the row's date is on or before that date. Otherwise every row passes. |
| Matches.Wanted | backend/routes/matches.js:69-98 | The rows a list request asks for: the caller's rows (`user_id = $1`) that pass all four filters. |
| Matches.QueryFilter | backend/routes/matches.js:105 | The `WHERE` clause of the list query as a row predicate: exactly Wanted. |
| Matches.ListError | backend/routes/matches.js:57-67 | The query is accepted if and only if `from` and `to`, when truthy, are real dates and `result`, when truthy, is `W` or `L`. The first failing check picks the message: `from`, then `to`, then `result`, each with its own text. |
| Matches.Listed | backend/routes/matches.js:100-110 | The list query: the caller's rows that pass every supplied filter, ordered by `match_date DESC, id DESC`. Its properties are stated by ListedExactly, ListedOnce and ListedNewestFirst. |
| Matches.NewerFirst | backend/routes/matches.js:106 | `ORDER BY match_date DESC, id DESC`: a row comes first when its date is later, or when the dates are equal and its id is larger. |
| Matches.NewerFirstIsStrictWeakOrder | backend/routes/matches.js:106 | `match_date DESC, id DESC` is a strict weak order. |
| Matches.ListedExactly | backend/routes/matches.js:53-110 | A row is listed if and only if it is in the table and is one of the caller's wanted rows. Every listed row belongs to the caller. |
| Matches.ListedOnce | backend/routes/matches.js:100-109 | With unique ids, no row is listed twice, and the listing is a permutation of the filtered rows. |
| Matches.ListedNewestFirst | backend/routes/matches.js:106 | Listed rows come newest date first, and ties come in descending id. |
| Matches.WhereKeepsUniqueIds | backend/routes/matches.js:214-218 | Filtering a table keeps its ids unique. |
| Matches.DeleteKeepsTableValid | backend/routes/matches.js:214-218 | A delete keeps the ids unique and every row storable. |
| Matches.UpdateKeepsTableValid | backend/routes/matches.js:174-192 | An update with accepted fields keeps the ids unique and every row storable. |
| Matches.MatchStore.constructor | backend/routes/matches.js:31-34 | A new table is empty, and its `SERIAL` counter starts at 1. |
| Matches.MatchStore.Create | backend/routes/matches.js:10-45 | A rejected input gets a 400 with the validation message and leaves the table unchanged. An accepted input appends one row, with the next id, the caller as owner and the validated fields, and gets a 201 with that row. The table invariant is kept. |
| Matches.MatchStore.BuildConditions | backend/routes/matches.js:69-98 | An invalid `result` is caught here, as in the source. Otherwise the built conditions are numbered `$1…$i`, start with the owner condition, and select exactly the wanted rows. |
| Matches.MatchStore.List | backend/routes/matches.js:53-110 | An invalid query gets a 400 with its message. A valid one gets a 200 with the caller's wanted rows, newest first. |
| Matches.MatchStore.Get | backend/routes/matches.js:118-139 | A non-integer id gets a 400. An id that none of the caller's rows has gets a 404, even when another user has that id. When the caller owns a row with that id, the reply is a 200 with exactly that row. Every 200 comes from such a row. |
| Matches.MatchStore.Update | backend/routes/matches.js:147-198 | The checks run in order: the id, then the validation. A rejected request gets a 400 and changes nothing. An accepted one rewrites the caller's row with that id. The reply is a 404 with nothing changed when there is no such row, and otherwise a 200 with the new row. |
| Matches.MatchStore.Delete | backend/routes/matches.js:206-225 | A non-integer id gets a 400 and changes nothing. Otherwise exactly the caller's row with that id is removed. The reply is a 404 with the table unchanged when there was none, and otherwise a 200 "Match deleted" with the id. |
| Matches.DeleteTwice | backend/routes/matches.js:206-225 | Deleting an existing row twice gives a 200 and then a 404. |
| Opponents.Key | backend/routes/opponents.js:13 | The grouping expression `TRIM(opponent_name)` of one row. |
| Opponents.Keys | backend/routes/opponents.js:13 | There is one `TRIM(opponent_name)` key per row, in order. |
| Opponents.Group | backend/routes/opponents.js:19 | A group holds exactly the rows with its key. |
| Opponents.RowFor | backend/routes/opponents.js:13-16 | A summary row carries its group's name. |
| Opponents.RowsFor | backend/routes/opponents.js:13-19 | There is one summary row per group name, in order. |
| Opponents.Groups | backend/routes/opponents.js:13-19 | `GROUP BY`: one row per distinct key, carrying that group's `COUNT(*)` and its `W` and `L` counts. |
| Opponents.Summary | backend/routes/opponents.js:9-29 | The summary query: the caller's rows grouped by trimmed name, ordered by `matches DESC, opponent_name ASC`. Its properties are stated by SummaryRows, SummaryNamesDistinct, SummaryCounts, SummaryTotal and SummaryOrdered. |
| Opponents.TotalMatches | backend/routes/opponents.js:14 | The sum of the `matches` column over a list of summary rows. |
| Opponents.MoreMatchesFirst | backend/routes/opponents.js:20 | `ORDER BY matches DESC, opponent_name ASC`: a row comes first when it has more matches, or when the counts are equal and its name is smaller in code-point order. |
| Opponents.MoreMatchesFirstIsStrictWeakOrder | backend/routes/opponents.js:20 | `matches DESC, opponent_name ASC` is a strict weak order. |
| Opponents.KeysOfCaller | backend/routes/opponents.js:13-19 | A name is a key if and only if some row trims to it. |
| Opponents.EmptyGroup | backend/routes/opponents.js:19 | A name no row trims to has an empty group. |
| Opponents.NonEmptyGroup | backend/routes/opponents.js:19 | Every key has at least one row. |
| Opponents.WinsPlusLosses | backend/routes/opponents.js:15-16 | The `W` count plus the `L` count is the group size. |
| Opponents.GroupsMembers | backend/routes/opponents.js:13-19 | The grouped rows are exactly the keys' rows. |
| Opponents.GroupsNamesDistinct | backend/routes/opponents.js:19 | No opponent appears twice in the grouping. |
| Opponents.TotalAppend | backend/routes/opponents.js:14 | The total matches of concatenated rows is the sum of the two totals. |
| Opponents.TotalRemove | backend/routes/opponents.js:14 | The total is one row's count plus the total of the others. |
| Opponents.TotalPermutation | backend/routes/opponents.js:20 | Reordering does not change the total. |
| Opponents.GroupAfterRow | backend/routes/opponents.js:14 | One more row grows exactly its own group, by one. |
| Opponents.TotalRowsFor | backend/routes/opponents.js:14 | The total over a list of names is the first name's group size plus the rest. |
| Opponents.TotalAfterRow | backend/routes/opponents.js:14 | One more row adds one to the total exactly when its key is among the names. |
| Opponents.GroupsCover | backend/routes/opponents.js:14-19 | The groups' counts add up to the number of rows. |
| Opponents.NewGroup | backend/routes/opponents.js:19 | A row with a new key adds a group of size one. |
| Opponents.SummaryOnlyCallersRows | backend/routes/opponents.js:18 | The summary depends only on the caller's rows. |
| Opponents.SummaryIgnoresOthers | backend/routes/opponents.js:18 | Another user's new match does not change the caller's summary. |
| Opponents.SummaryRows | backend/routes/opponents.js:9-29 | A row is in the summary if and only if some caller's match trims to its name and its `matches`, `wins` and `losses` are the counts of that group. |
| Opponents.SummaryNamesDistinct | backend/routes/opponents.js:19 | Each trimmed opponent name appears in the summary exactly once. |
| Opponents.SummaryCounts | backend/routes/opponents.js:14-16 | Every summary row has at least one match, and its wins plus losses equal its matches. |
| Opponents.SummaryTotal | backend/routes/opponents.js:14-19 | The summary's matches add up to the caller's number of matches. |
| Opponents.SummaryOrdered | backend/routes/opponents.js:20 | The summary is ordered by more matches first, and ties by name ascending. |
| Opponents.WhereSingle | backend/routes/opponents.js:18 | `WHERE` on a single row keeps it exactly when it satisfies the condition. |
| Opponents.KeyOfTrimmed | backend/routes/opponents.js:13 | A name without surrounding spaces is its own key. |
| Opponents.AlexAndSam | backend/routes/opponents.js:9-29 | Take three of the caller's matches against Alex (W, W, L), one against Sam (W), and another user's match. The summary is Alex 3/2/1 and then Sam 1/1/0. |
| Opponents.SummaryOfCallersFour | backend/routes/opponents.js:9-29 | The same summary for any such five rows. |
| Opponents.SummaryOfFour | backend/routes/opponents.js:13-20 | The grouping of four rows, ordered, is the two expected rows. |
| Opponents.OrderByTwo | backend/routes/opponents.js:20 | Two rows already in order stay in order. |
| Opponents.GroupsOfFour | backend/routes/opponents.js:13-19 | The grouping of the four rows is Alex 3/2/1, then Sam 1/1/0. |
| Opponents.AlexRow | backend/routes/opponents.js:13-16 | Alex's counts are 3 matches, 2 wins and 1 loss. |
| Opponents.SamRow | backend/routes/opponents.js:13-16 | Sam's counts are 1 match, 1 win and 0 losses. |
| Opponents.DistinctOfFour | backend/routes/opponents.js:19 | The keys Alex, Alex, Alex, Sam form two groups, in first-seen order. |
| Opponents.AlexGroup | backend/routes/opponents.js:19 | Alex's group is the first three rows. |
| Opponents.SamGroup | backend/routes/opponents.js:19 | Sam's group is the fourth row. |
| Opponents.ResultsOfThree | backend/routes/opponents.js:15-16 | Among W, W, L, the wins are the first two and the loss is the third. |
| Auth.NormalizeEmail | routes/auth.js:18 | A non-string gives `""`. The result has no surrounding whitespace and no upper-case letters, and it is as long as the trimmed input. |
| Auth.NormalizeEmailIdempotent | routes/auth.js:17-18 | Normalising twice is the same as normalising once, so a stored email is already normal. |
| Auth.NormalizeIgnoresPaddingAndCase | routes/auth.js:17-18 | Padding around an email is ignored, and the result is the lower-cased core. |
| Auth.TestEmailExample | routes/auth.js:17 | `" Test@Email.com "` and `"test@email.com"` both normalise to `"test@email.com"`. |
| Auth.PaddedTestEmail | routes/auth.js:17-18 | `" Test@Email.com "` normalises to `"test@email.com"`. |
| Auth.PlainTestEmail | routes/auth.js:17-18 | `"test@email.com"` is already normal. |
| Auth.LowerTestEmail | routes/auth.js:18 | `"Test@Email.com"` lower-cases to `"test@email.com"`. |
| Auth.Public | routes/auth.js:28 | What a reply shows of a user (`RETURNING id, email`, and the `SELECT id, email` at routes/auth.js:96): its id and email, never the password hash. |
| Auth.FindByEmail | routes/auth.js:58-65 | `WHERE email = $1` finds a user with that email. It finds nothing if and only if there is none. |
| Auth.FindById | routes/auth.js:96-102 | `WHERE id = $1` finds a user with that id. It finds nothing if and only if there is none. |
| Auth.FindByEmailIsTheUser | routes/auth.js:58-67 | With unique emails, the lookup returns exactly that user. |
| Auth.FindByIdIsTheUser | routes/auth.js:96-104 | With unique ids, the lookup returns exactly that user. |
| Auth.AppendKeepsUniqueEmails | routes/auth.js:27-40 | Inserting a new email keeps the emails unique. |
| Auth.AppendKeepsUniqueUserIds | routes/auth.js:27-30 | Inserting a fresh id keeps the ids unique. |
| Auth.Login | routes/auth.js:48-91 | The status is 200, 400 or 500. Only a 200 sets the cookie. The reply is "Email and password are required" if and only if the normalised email is empty or the password is falsy. Every other 400 is "Invalid email or password". It is a 500 if and only if the email is known and the password is truthy but not a string, which makes bcrypt throw. A 200 comes from a user with that email whose hash matches the password, and it sets the cookie to `sign(id, secret)` and returns that user's id and email. |
| Auth.LoginAs | routes/auth.js:58-86 | A known user with a matching password gets the success reply and their token. |
| Auth.LoginSucceedsIff | routes/auth.js:48-86 | For string credentials of a known user, login succeeds if and only if the email and the password are non-empty and the password matches the hash. It then returns that user. |
| Auth.LoginUnknownEmail | routes/auth.js:63-65 | An unknown email gets a 400 "Invalid email or password", and no cookie is set. |
| Auth.LoginFailureIsUniform | routes/auth.js:63-72 | An unknown email and a wrong password get identical replies. |
| Auth.LoginTokenPassesGate | routes/auth.js:74-81 | With a verifier that accepts what the signer issues, the login cookie passes the middleware as the logged-in user. |
| Auth.Me | routes/auth.js:94-104 | It is a 200 with the user's id and email if and only if the id exists. Otherwise it is a 404 "User not found". |
| Auth.LoginThenMe | routes/auth.js:74-104 | After a successful login, `/me` with the issued cookie returns the same user. |
| Auth.SignupThenLogin | routes/auth.js:14-86 | After a signup, logging in with any spelling of the email that normalises to the same string, and with the same password, succeeds as the new user. |
| Auth.PaddedSignupLogsIn | routes/auth.js:17-86 | Signing up as `" Test@Email.com "` and then logging in as `"test@email.com"` succeeds. |
| Auth.UserStore.constructor | routes/auth.js:27-30 | A new users table is empty, and its counter starts at 1. |
| Auth.UserStore.Signup | routes/auth.js:14-45 | Missing fields get a 400 and change nothing. A truthy non-string password gets a 500 and changes nothing. A taken email gets a 400 "Email already exists": the users are unchanged, but the id counter has moved on. Otherwise one user is appended, with the next id, the normalised email and the hash of the password, and the reply is a 201 with the new id and email. The invariant is kept: ids and emails unique, and emails non-empty. |
| Auth.UserStore.Logout | routes/auth.js:112-120 | The reply is a 200 "Logged out" that clears the cookie. The users table is untouched. |

## Left out

- Database failures are not modelled: the connection, constraint violations other than the unique email, and out-of-range ids. The `catch` blocks that answer 500 ("Failed to create match", "Failed to fetch matches", "Failed to fetch match", "Failed to update match", "Failed to delete match", "Failed to fetch opponent summary", "Failed to fetch user") are therefore not reachable in the model. The only 500s modelled are those of signup and login with a truthy non-string password, where bcrypt throws.
- PostgreSQL's `DATE` type refuses year 0, but `isValidISODate` accepts dates such as `0000-02-29`. A create or update with such a date, or a `from`/`to` filter with one, passes validation and then fails in the database with a 500. The model instead stores the row, or applies the filter.
- RequireAuth.Decide: `jwt.verify` (signature, expiry, the `expiresIn: "7d"` lifetime) is a `Verifier` parameter. The model does not check the seven-day expiry itself.
- Auth.Login: bcrypt hashing and comparison are the `Hasher` and `Comparer` parameters. Salt, cost factor 10 and timing are not modelled. `jwt.sign` is the `Signer` parameter.
- Cookie attributes (`httpOnly`, `sameSite`, `secure`, `maxAge`) are not modelled. Only the token value and its clearing are.
- Js.ToLowerCase: only ASCII `A`–`Z` are lower-cased. Full Unicode case mapping is not modelled.
- Sql.ILike: case folding covers ASCII `A`–`Z` only. PostgreSQL folds case according to the database locale, and under a UTF-8 locale it also matches, for example, `Élodie` against `élodie`. The model does not list such a row.
- `ILIKE` is modelled as case-insensitive equality. The `%` and `_` wildcards and the `\` escape character that a query value could contain are not interpreted.
- Opponents.SummaryOrdered: `opponent_name ASC` is modelled as code-point order. The database collation's locale-specific order is not modelled.
- Sql.SqlTrim: PostgreSQL `TRIM` removes only spaces. The model keeps this, and it proves that it agrees with JavaScript `trim` on stored names. It does not model other characters.
- `to_char(match_date, 'YYYY-MM-DD')` and the JSON rendering of `created_at` are not modelled. Dates are returned as `Date` values, and `created_at` is the `now` parameter.
- Score and notes are kept as the JSON values sent. Their coercion to text by the database is not modelled.
- Js.IntegerValue: `Number(req.params.id)` is not modelled. The id arrives as an already converted JavaScript number, which can be NaN, infinite or fractional.
- The middleware reads `payload.userId` as an integer user id. Tokens whose payload carries something else are not modelled.
- Concurrency between requests and the asynchronous `await`s are not modelled. Each route runs to completion on the current table.
- `index.js`, `backend/index.js` (server wiring and CORS), `db.js` (the connection pool) and the React front end are not part of this model.
