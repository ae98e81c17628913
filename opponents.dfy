/**
 * backend/routes/opponents.js: GET /opponents/summary, one aggregate query
 * over the caller's matches, grouped by trimmed opponent name.
 *
 * The grouping is stated for any grouping expression `key`; the route uses
 * `Key`, the query's `TRIM(opponent_name)`.
 */
module Opponents {
  import opened Wrappers
  import opened Text
  import opened Sql
  import opened Validators
  import opened Matches
  import opened RequireAuth

  /** One output row: the group's name and its three counts. */
  datatype OpponentRow = OpponentRow(name: string, matches: nat, wins: nat, losses: nat)

  /** `TRIM(opponent_name)`, the route's grouping expression. */
  function Key(m: Match): (k: string) {
    SqlTrim(m.opponent)
  }

  /** The grouping expression of every row, in table order. */
  function Keys(ms: seq<Match>, key: Match -> string): (ks: seq<string>)
    ensures |ks| == |ms| && forall k :: 0 <= k < |ms| ==> ks[k] == key(ms[k])
  {
    seq(|ms|, k requires 0 <= k < |ms| => key(ms[k]))
  }

  function KeyFilter(name: string, key: Match -> string): (keep: Match -> bool) {
    (m: Match) => key(m) == name
  }

  function ResultFilter(r: Outcome): (keep: Match -> bool) {
    (m: Match) => m.result == r
  }

  /** The rows of the group called `name`. */
  function Group(ms: seq<Match>, name: string, key: Match -> string): (g: seq<Match>)
    ensures forall m :: m in g <==> m in ms && key(m) == name
  {
    Where(ms, KeyFilter(name, key))
  }

  /** `COUNT(*)` and the two `SUM(CASE WHEN result = ...)` columns of one group. */
  function RowFor(ms: seq<Match>, name: string, key: Match -> string): (r: OpponentRow)
    ensures r.name == name
  {
    var g := Group(ms, name, key);
    OpponentRow(name, |g|, |Where(g, ResultFilter(W))|, |Where(g, ResultFilter(L))|)
  }

  function RowsFor(ms: seq<Match>, names: seq<string>, key: Match -> string): (rs: seq<OpponentRow>)
    ensures |rs| == |names| && forall k :: 0 <= k < |names| ==> rs[k] == RowFor(ms, names[k], key)
  {
    if names == [] then [] else [RowFor(ms, names[0], key)] + RowsFor(ms, names[1..], key)
  }

  /** `GROUP BY key`: one row per distinct value of `key`, in no particular order. */
  function Groups(ms: seq<Match>, key: Match -> string): (rs: seq<OpponentRow>) {
    RowsFor(ms, Distinct(Keys(ms, key)), key)
  }

  /** `ORDER BY matches DESC, opponent_name ASC`. */
  predicate MoreMatchesFirst(a: OpponentRow, b: OpponentRow) {
    a.matches > b.matches || (a.matches == b.matches && LexLess(a.name, b.name))
  }

  /** What the summary route returns for the caller. */
  function Summary(rows: seq<Match>, userId: UserId): (rs: seq<OpponentRow>) {
    OrderBy(Groups(OwnedBy(rows, userId), Key), MoreMatchesFirst)
  }

  /** The sum of the `matches` column. */
  function TotalMatches(rs: seq<OpponentRow>): (n: nat) {
    if rs == [] then 0 else rs[0].matches + TotalMatches(rs[1..])
  }

  // ---------------------------------------------------------------- ordering

  lemma MoreMatchesFirstIsStrictWeakOrder()
    ensures StrictWeakOrder(MoreMatchesFirst)
  {
    forall a: OpponentRow, b: OpponentRow | MoreMatchesFirst(a, b) ensures !MoreMatchesFirst(b, a) {
      if a.matches == b.matches {
        LexLessAsymmetric(a.name, b.name);
      }
    }
    forall a: OpponentRow, b: OpponentRow, c: OpponentRow | !MoreMatchesFirst(a, b) && !MoreMatchesFirst(b, c)
      ensures !MoreMatchesFirst(a, c)
    {
      if a.matches == b.matches == c.matches && LexLess(a.name, c.name) {
        if a.name != b.name {
          LexLessTotal(a.name, b.name);
          LexLessTransitive(b.name, a.name, c.name);
        }
      }
    }
  }

  // ---------------------------------------------------------------- grouping

  lemma KeysOfCaller(ms: seq<Match>, name: string, key: Match -> string)
    ensures name in Keys(ms, key) <==> exists m :: m in ms && key(m) == name
  {
    if name in Keys(ms, key) {
      var k :| 0 <= k < |ms| && Keys(ms, key)[k] == name;
      assert ms[k] in ms;
    }
  }

  /** A group with no member is empty. */
  lemma EmptyGroup(ms: seq<Match>, name: string, key: Match -> string)
    requires name !in Keys(ms, key)
    ensures Group(ms, name, key) == []
  {
    if Group(ms, name, key) != [] {
      var m := Group(ms, name, key)[0];
      assert m in Group(ms, name, key);
      KeysOfCaller(ms, name, key);
    }
  }

  /** A group named by some row is not empty. */
  lemma NonEmptyGroup(ms: seq<Match>, name: string, key: Match -> string)
    requires name in Keys(ms, key)
    ensures |Group(ms, name, key)| >= 1
  {
    var k :| 0 <= k < |ms| && Keys(ms, key)[k] == name;
    assert ms[k] in Group(ms, name, key);
  }

  /** With only W and L results, a group's wins and losses add up to its size. */
  lemma {:induction false} WinsPlusLosses(g: seq<Match>)
    ensures |Where(g, ResultFilter(W))| + |Where(g, ResultFilter(L))| == |g|
    decreases |g|
  {
    if g != [] {
      WinsPlusLosses(g[1..]);
    }
  }

  /** The rows of the grouping are exactly one row per key, carrying that key's counts. */
  lemma GroupsMembers(ms: seq<Match>, x: OpponentRow, key: Match -> string)
    ensures x in Groups(ms, key) <==> x.name in Keys(ms, key) && x == RowFor(ms, x.name, key)
  {
    var ns := Distinct(Keys(ms, key));
    if x in Groups(ms, key) {
      var k :| 0 <= k < |ns| && Groups(ms, key)[k] == x;
      assert ns[k] in ns;
    }
    if x.name in Keys(ms, key) && x == RowFor(ms, x.name, key) {
      var k :| 0 <= k < |ns| && ns[k] == x.name;
      assert Groups(ms, key)[k] == x;
    }
  }

  lemma GroupsNamesDistinct(ms: seq<Match>, key: Match -> string)
    ensures NoDuplicates(Groups(ms, key))
    ensures forall i, j :: 0 <= i < j < |Groups(ms, key)| ==> Groups(ms, key)[i].name != Groups(ms, key)[j].name
  {
    var ns := Distinct(Keys(ms, key));
    DistinctNoDuplicates(Keys(ms, key));
    assert forall k :: 0 <= k < |ns| ==> Groups(ms, key)[k].name == ns[k];
  }

  // ---------------------------------------------------------------- totals

  lemma {:induction false} TotalAppend(a: seq<OpponentRow>, b: seq<OpponentRow>)
    ensures TotalMatches(a + b) == TotalMatches(a) + TotalMatches(b)
    decreases |a|
  {
    if a == [] {
      assert a + b == b;
    } else {
      assert (a + b)[1..] == a[1..] + b;
      TotalAppend(a[1..], b);
    }
  }

  lemma TotalRemove(b: seq<OpponentRow>, k: nat)
    requires k < |b|
    ensures TotalMatches(b) == b[k].matches + TotalMatches(b[..k] + b[k + 1..])
  {
    assert b == b[..k] + ([b[k]] + b[k + 1..]);
    TotalAppend(b[..k], [b[k]] + b[k + 1..]);
    assert ([b[k]] + b[k + 1..])[1..] == b[k + 1..];
    TotalAppend(b[..k], b[k + 1..]);
  }

  /** Reordering rows does not change the sum of a column. */
  lemma {:induction false} TotalPermutation(a: seq<OpponentRow>, b: seq<OpponentRow>)
    requires multiset(a) == multiset(b)
    ensures TotalMatches(a) == TotalMatches(b)
    decreases |a|
  {
    if a == [] {
      assert |b| == |multiset(b)| == 0;
    } else {
      assert a[0] in multiset(b);
      var k :| 0 <= k < |b| && b[k] == a[0];
      var rest := b[..k] + b[k + 1..];
      RemoveMatching(a, b, k);
      TotalPermutation(a[1..], rest);
      TotalRemove(b, k);
      assert TotalMatches(a) == a[0].matches + TotalMatches(a[1..]);
    }
  }

  /** Appending row `m` grows its own group by one and leaves the others alone. */
  lemma GroupAfterRow(p: seq<Match>, m: Match, name: string, key: Match -> string)
    ensures |Group(p + [m], name, key)| == |Group(p, name, key)| + (if key(m) == name then 1 else 0)
  {
    WhereAppend(p, [m], KeyFilter(name, key));
    assert [m][1..] == [];
  }

  lemma TotalRowsFor(ms: seq<Match>, ns: seq<string>, key: Match -> string)
    requires ns != []
    ensures TotalMatches(RowsFor(ms, ns, key)) == |Group(ms, ns[0], key)| + TotalMatches(RowsFor(ms, ns[1..], key))
  {
    assert RowsFor(ms, ns, key)[1..] == RowsFor(ms, ns[1..], key);
  }

  /** One more row `m` adds one to the total of the groups, when its key is among them. */
  lemma {:induction false} TotalAfterRow(p: seq<Match>, m: Match, ns: seq<string>, key: Match -> string)
    requires NoDuplicates(ns)
    ensures TotalMatches(RowsFor(p + [m], ns, key)) == TotalMatches(RowsFor(p, ns, key)) + (if key(m) in ns then 1 else 0)
    decreases |ns|
  {
    if ns != [] {
      var n, rest := ns[0], ns[1..];
      assert NoDuplicates(rest) && n !in rest && ns == [n] + rest by {
        assert forall k :: 0 <= k < |rest| ==> rest[k] == ns[k + 1];
      }
      GroupAfterRow(p, m, n, key);
      TotalRowsFor(p + [m], ns, key);
      TotalRowsFor(p, ns, key);
      TotalAfterRow(p, m, rest, key);
    }
  }

  /** Every match falls in exactly one group. */
  lemma {:induction false} GroupsCover(ms: seq<Match>, key: Match -> string)
    ensures TotalMatches(Groups(ms, key)) == |ms|
    decreases |ms|
  {
    if ms != [] {
      var p, m := ms[..|ms| - 1], ms[|ms| - 1];
      assert ms == p + [m];
      GroupsCover(p, key);
      var d := Distinct(Keys(p, key));
      assert Keys(ms, key) == Keys(p, key) + [key(m)];
      DistinctSnoc(Keys(p, key), key(m));
      DistinctNoDuplicates(Keys(p, key));
      TotalAfterRow(p, m, d, key);
      if key(m) !in d {
        NewGroup(p, m, d, key);
      }
    }
  }

  /** A row with a key no earlier row has opens a group of its own. */
  lemma NewGroup(p: seq<Match>, m: Match, d: seq<string>, key: Match -> string)
    requires d == Distinct(Keys(p, key)) && key(m) !in d
    ensures TotalMatches(RowsFor(p + [m], d + [key(m)], key)) == TotalMatches(RowsFor(p + [m], d, key)) + 1
  {
    var ms, ns := p + [m], d + [key(m)];
    var last := RowFor(ms, key(m), key);
    assert RowsFor(ms, ns, key) == RowsFor(ms, d, key) + [last];
    TotalAppend(RowsFor(ms, d, key), [last]);
    assert TotalMatches([last]) == last.matches;
    assert key(m) !in Keys(p, key);
    EmptyGroup(p, key(m), key);
    GroupAfterRow(p, m, key(m), key);
    assert last.matches == |Group(ms, key(m), key)| == 1;
  }

  // ---------------------------------------------------------------- the route

  /** Only the caller's matches contribute: other users' rows make no difference. */
  lemma SummaryOnlyCallersRows(rows: seq<Match>, userId: UserId)
    ensures Summary(rows, userId) == Summary(OwnedBy(rows, userId), userId)
  {
    WhereNarrower(rows, OwnerFilter(userId), OwnerFilter(userId));
  }

  /** A row of another user added to the table changes nothing. */
  lemma SummaryIgnoresOthers(rows: seq<Match>, userId: UserId, m: Match)
    requires m.owner != userId
    ensures Summary(rows + [m], userId) == Summary(rows, userId)
  {
    WhereAppend(rows, [m], OwnerFilter(userId));
    assert [m][1..] == [];
    assert rows + [m] != [] && Where([m], OwnerFilter(userId)) == [];
    assert OwnedBy(rows + [m], userId) == OwnedBy(rows, userId);
  }

  /**
   * The summary has exactly one row per distinct trimmed opponent name of
   * the caller, and that row counts the group's matches, wins and losses.
   */
  lemma SummaryRows(rows: seq<Match>, userId: UserId, x: OpponentRow)
    ensures var owned := OwnedBy(rows, userId);
      x in Summary(rows, userId) <==>
        && (exists m :: m in owned && Key(m) == x.name)
        && x.matches == |Group(owned, x.name, Key)|
        && x.wins == |Where(Group(owned, x.name, Key), ResultFilter(W))|
        && x.losses == |Where(Group(owned, x.name, Key), ResultFilter(L))|
  {
    var owned := OwnedBy(rows, userId);
    var s := Summary(rows, userId);
    assert x in s <==> x in multiset(s);
    assert x in Groups(owned, Key) <==> x in multiset(Groups(owned, Key));
    GroupsMembers(owned, x, Key);
    KeysOfCaller(owned, x.name, Key);
  }

  /** No name appears twice in the summary. */
  lemma SummaryNamesDistinct(rows: seq<Match>, userId: UserId)
    ensures var s := Summary(rows, userId);
      forall i, j :: 0 <= i < j < |s| ==> s[i].name != s[j].name
  {
    var owned := OwnedBy(rows, userId);
    var s := Summary(rows, userId);
    GroupsNamesDistinct(owned, Key);
    PermutationKeepsNoDuplicates(Groups(owned, Key), s);
    forall i, j | 0 <= i < j < |s| ensures s[i].name != s[j].name {
      assert s[i] in multiset(Groups(owned, Key)) && s[j] in multiset(Groups(owned, Key));
      GroupsMembers(owned, s[i], Key);
      GroupsMembers(owned, s[j], Key);
    }
  }

  /** Every row counts at least one match, and its wins and losses add up to it. */
  lemma SummaryCounts(rows: seq<Match>, userId: UserId, x: OpponentRow)
    requires x in Summary(rows, userId)
    ensures x.matches >= 1 && x.wins + x.losses == x.matches
  {
    var owned := OwnedBy(rows, userId);
    SummaryRows(rows, userId, x);
    KeysOfCaller(owned, x.name, Key);
    NonEmptyGroup(owned, x.name, Key);
    WinsPlusLosses(Group(owned, x.name, Key));
  }

  /** The `matches` column sums to the caller's number of matches. */
  lemma SummaryTotal(rows: seq<Match>, userId: UserId)
    ensures TotalMatches(Summary(rows, userId)) == |OwnedBy(rows, userId)|
  {
    var owned := OwnedBy(rows, userId);
    GroupsCover(owned, Key);
    TotalPermutation(Summary(rows, userId), Groups(owned, Key));
  }

  /** Rows run from most matches to fewest, and by name within equal counts. */
  lemma SummaryOrdered(rows: seq<Match>, userId: UserId)
    ensures var s := Summary(rows, userId);
      forall i, j :: 0 <= i < j < |s| ==>
        s[i].matches > s[j].matches || (s[i].matches == s[j].matches && LexLess(s[i].name, s[j].name))
  {
    var s := Summary(rows, userId);
    MoreMatchesFirstIsStrictWeakOrder();
    OrderByOrdered(Groups(OwnedBy(rows, userId), Key), MoreMatchesFirst);
    SummaryNamesDistinct(rows, userId);
    forall i, j | 0 <= i < j < |s|
      ensures s[i].matches > s[j].matches || (s[i].matches == s[j].matches && LexLess(s[i].name, s[j].name))
    {
      assert !MoreMatchesFirst(s[j], s[i]);
      LexLessTotal(s[i].name, s[j].name);
    }
  }

  // ---------------------------------------------------------------- examples

  function Played(id: int, owner: UserId, opponent: string, result: Outcome): (m: Match) {
    Match(id, owner, Date(2024, 5, id), opponent, result, None, None, 0)
  }

  lemma WhereSingle(m: Match, keep: Match -> bool)
    ensures Where([m], keep) == if keep(m) then [m] else []
  {
    assert [m][1..] == [];
  }

  lemma KeyOfTrimmed(m: Match)
    requires m.opponent != [] && !IsSpace(m.opponent[0]) && !IsSpace(m.opponent[|m.opponent| - 1])
    ensures Key(m) == m.opponent
  {
    StripNoOp(m.opponent, IsSpace, IsSpace);
  }

  /** Alex beaten twice and lost to once, Sam beaten once; another user's match is not counted. */
  lemma AlexAndSam()
    ensures Summary([Played(1, 7, "Alex", W), Played(2, 7, "Alex", W), Played(3, 7, "Alex", L),
                     Played(4, 7, "Sam", W), Played(5, 8, "Alex", L)], 7)
         == [OpponentRow("Alex", 3, 2, 1), OpponentRow("Sam", 1, 1, 0)]
  {
    KeyOfTrimmed(Played(1, 7, "Alex", W));
    KeyOfTrimmed(Played(2, 7, "Alex", W));
    KeyOfTrimmed(Played(3, 7, "Alex", L));
    KeyOfTrimmed(Played(4, 7, "Sam", W));
    SummaryOfCallersFour(Played(1, 7, "Alex", W), Played(2, 7, "Alex", W), Played(3, 7, "Alex", L),
                         Played(4, 7, "Sam", W), Played(5, 8, "Alex", L), 7);
  }

  /** Four matches of the caller against two trimmed names, and one of another user's. */
  lemma SummaryOfCallersFour(a1: Match, a2: Match, a3: Match, s4: Match, o5: Match, userId: UserId)
    requires a1.owner == a2.owner == a3.owner == s4.owner == userId != o5.owner
    requires Key(a1) == Key(a2) == Key(a3) == a1.opponent && Key(s4) == s4.opponent != a1.opponent
    requires a1.result == W && a2.result == W && a3.result == L && s4.result == W
    ensures Summary([a1, a2, a3, s4, o5], userId)
         == [OpponentRow(a1.opponent, 3, 2, 1), OpponentRow(s4.opponent, 1, 1, 0)]
  {
    var owned := [a1, a2, a3, s4];
    assert [a1, a2, a3, s4, o5] == owned + [o5];
    SummaryIgnoresOthers(owned, userId, o5);
    assert OwnedBy(owned, userId) == owned by {
      KeepAllRows(owned, OwnerFilter(userId));
    }
    SummaryOfFour(a1, a2, a3, s4, a1.opponent, s4.opponent, Key);
  }

  /**
   * Three matches against one opponent (won, won, lost) and one won against
   * another give one row each, the first ahead of the second.
   */
  lemma SummaryOfFour(a1: Match, a2: Match, a3: Match, s4: Match, alex: string, sam: string, key: Match -> string)
    requires key(a1) == key(a2) == key(a3) == alex && key(s4) == sam && alex != sam
    requires a1.result == W && a2.result == W && a3.result == L && s4.result == W
    ensures OrderBy(Groups([a1, a2, a3, s4], key), MoreMatchesFirst)
         == [OpponentRow(alex, 3, 2, 1), OpponentRow(sam, 1, 1, 0)]
  {
    GroupsOfFour(a1, a2, a3, s4, alex, sam, key);
    OrderByTwo(OpponentRow(alex, 3, 2, 1), OpponentRow(sam, 1, 1, 0));
  }

  /** Two rows already in summary order stay as they are. */
  lemma OrderByTwo(x: OpponentRow, y: OpponentRow)
    requires MoreMatchesFirst(x, y)
    ensures OrderBy([x, y], MoreMatchesFirst) == [x, y]
  {
    var s := OrderBy([x, y], MoreMatchesFirst);
    MoreMatchesFirstIsStrictWeakOrder();
    OrderByOrdered([x, y], MoreMatchesFirst);
    assert !MoreMatchesFirst(y, x);
    assert forall a, b :: a in [x, y] && b in [x, y] && a != b ==>
      MoreMatchesFirst(a, b) || MoreMatchesFirst(b, a);
    OrderedPermutationUnique([x, y], s, MoreMatchesFirst);
  }

  lemma GroupsOfFour(a1: Match, a2: Match, a3: Match, s4: Match, alex: string, sam: string, key: Match -> string)
    requires key(a1) == key(a2) == key(a3) == alex && key(s4) == sam && alex != sam
    requires a1.result == W && a2.result == W && a3.result == L && s4.result == W
    ensures Groups([a1, a2, a3, s4], key) == [OpponentRow(alex, 3, 2, 1), OpponentRow(sam, 1, 1, 0)]
  {
    var owned := [a1, a2, a3, s4];
    assert Keys(owned, key) == [alex, alex, alex, sam];
    DistinctOfFour(alex, sam);
    AlexRow(a1, a2, a3, s4, alex, key);
    SamRow(a1, a2, a3, s4, alex, sam, key);
  }

  lemma AlexRow(a1: Match, a2: Match, a3: Match, s4: Match, alex: string, key: Match -> string)
    requires key(a1) == key(a2) == key(a3) == alex && key(s4) != alex
    requires a1.result == W && a2.result == W && a3.result == L
    ensures RowFor([a1, a2, a3, s4], alex, key) == OpponentRow(alex, 3, 2, 1)
  {
    AlexGroup(a1, a2, a3, s4, alex, key);
    ResultsOfThree(a1, a2, a3);
  }

  lemma SamRow(a1: Match, a2: Match, a3: Match, s4: Match, alex: string, sam: string, key: Match -> string)
    requires key(a1) == key(a2) == key(a3) == alex && key(s4) == sam && alex != sam
    requires s4.result == W
    ensures RowFor([a1, a2, a3, s4], sam, key) == OpponentRow(sam, 1, 1, 0)
  {
    SamGroup(a1, a2, a3, s4, alex, sam, key);
    WhereSingle(s4, ResultFilter(W));
    WhereSingle(s4, ResultFilter(L));
  }

  lemma DistinctOfFour(alex: string, sam: string)
    requires alex != sam
    ensures Distinct([alex, alex, alex, sam]) == [alex, sam]
  {
    assert Distinct([alex]) == [alex] by {
      DistinctSnoc([], alex);
      assert [] + [alex] == [alex];
    }
    assert Distinct([alex, alex]) == [alex] by {
      DistinctSnoc([alex], alex);
      assert [alex] + [alex] == [alex, alex];
    }
    assert Distinct([alex, alex, alex]) == [alex] by {
      DistinctSnoc([alex, alex], alex);
      assert [alex, alex] + [alex] == [alex, alex, alex];
    }
    DistinctSnoc([alex, alex, alex], sam);
    assert [alex, alex, alex] + [sam] == [alex, alex, alex, sam];
  }

  lemma AlexGroup(a1: Match, a2: Match, a3: Match, s4: Match, alex: string, key: Match -> string)
    requires key(a1) == key(a2) == key(a3) == alex && key(s4) != alex
    ensures Group([a1, a2, a3, s4], alex, key) == [a1, a2, a3]
  {
    var g := [a1, a2, a3];
    assert [a1, a2, a3, s4] == g + [s4];
    WhereAppend(g, [s4], KeyFilter(alex, key));
    WhereSingle(s4, KeyFilter(alex, key));
    KeepAllRows(g, KeyFilter(alex, key));
  }

  lemma SamGroup(a1: Match, a2: Match, a3: Match, s4: Match, alex: string, sam: string, key: Match -> string)
    requires key(a1) == key(a2) == key(a3) == alex && key(s4) == sam && alex != sam
    ensures Group([a1, a2, a3, s4], sam, key) == [s4]
  {
    var g := [a1, a2, a3];
    assert [a1, a2, a3, s4] == g + [s4];
    WhereAppend(g, [s4], KeyFilter(sam, key));
    WhereSingle(s4, KeyFilter(sam, key));
    assert Keys(g, key) == [alex, alex, alex];
    EmptyGroup(g, sam, key);
  }

  lemma ResultsOfThree(a1: Match, a2: Match, a3: Match)
    requires a1.result == W && a2.result == W && a3.result == L
    ensures Where([a1, a2, a3], ResultFilter(W)) == [a1, a2]
    ensures Where([a1, a2, a3], ResultFilter(L)) == [a3]
  {
    assert [a1, a2, a3] == [a1] + ([a2] + [a3]);
    WhereSingle(a3, ResultFilter(W));
    WhereSingle(a3, ResultFilter(L));
    WhereCons(a2, [a3], ResultFilter(W));
    WhereCons(a2, [a3], ResultFilter(L));
    WhereCons(a1, [a2] + [a3], ResultFilter(W));
    WhereCons(a1, [a2] + [a3], ResultFilter(L));
  }
}
