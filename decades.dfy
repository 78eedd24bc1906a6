/** The decade aggregator of freq_generator.py (`find_peaks_by_decade`), from
    already-parsed rows on: date assembly and validation, the months column,
    the decade key, the order-preserving group-by and a peak finder applied to
    each group's values. The peak finder (SciPy's `find_peaks`) is a
    parameter. */
module DecadeAggregator {
  import opened PeakCounter

  /** One parsed line of the data file. */
  datatype Row = Row(year: int, month: int, value: real)

  datatype Error =
    | InvalidDate  // a (year, month) pair that `pd.to_datetime` rejects
    | EmptyInput   // `df.index[0]` on an empty frame

  datatype Result<T> = Ok(value: T) | Err(error: Error)

  /** The rows of one decade, in input order. */
  datatype Group = Group(decade: int, rows: seq<Row>)

  /** One entry of the returned Series: a decade and its in-group peak indices. */
  datatype DecadePeaks = DecadePeaks(decade: int, peaks: seq<int>)

  /** `np.floor(year / 10) * 10`: the multiple of ten at or below the year. */
  function Decade(year: int): (d: int)
    ensures d % 10 == 0 && d <= year < d + 10
  {
    (year / 10) * 10
  }

  /** The decade key is the only multiple of ten within ten years below. */
  lemma DecadeIsUnique(year: int, d: int)
    requires d % 10 == 0 && d <= year < d + 10
    ensures d == Decade(year)
  {
    var q := d / 10;
    assert d == 10 * q;
    assert year / 10 == q;
  }

  lemma DecadeMonotone(y1: int, y2: int)
    requires y1 <= y2
    ensures Decade(y1) <= Decade(y2)
  {
    assert y1 / 10 <= y2 / 10;
  }

  function DecadeOf(r: Row): int {
    Decade(r.year)
  }

  /** The calendar month that `pd.to_datetime` builds from a year, a month
      and day 1: it forms the integer year * 10000 + month * 100 + 1 and reads
      it back as YYYYMMDD (floor division by 10000, then by 100 modulo 100).
      A month field of 100 or more, or below 0, therefore carries into the
      year; an ordinary month is kept as it is. */
  function Assemble(year: int, month: int): (ym: (int, int))
    ensures ym.0 * 100 + ym.1 == year * 100 + month && 0 <= ym.1 < 100
    ensures 1 <= month <= 12 ==> ym == (year, month)
  {
    var t := year * 100 + month;
    (t / 100, t % 100)
  }

  /** A first-of-month date of the calendar inside the range of nanosecond
      timestamps (from 21 September 1677 to 11 April 2262, so from October
      1677 to April 2262 at day 1). */
  predicate InCalendar(year: int, month: int) {
    1 <= month <= 12 &&
    (year > 1677 || (year == 1677 && month >= 10)) &&
    (year < 2262 || (year == 2262 && month <= 4))
  }

  /** A (year, month) pair that `pd.to_datetime` accepts: the date it
      assembles is a real month within range. */
  predicate ValidDate(year: int, month: int) {
    var ym := Assemble(year, month);
    InCalendar(ym.0, ym.1)
  }

  predicate AllDatesValid(rows: seq<Row>) {
    forall i :: 0 <= i < |rows| ==> ValidDate(rows[i].year, rows[i].month)
  }

  predicate AllInCalendar(rows: seq<Row>) {
    forall i :: 0 <= i < |rows| ==> InCalendar(rows[i].year, rows[i].month)
  }

  /** The rows as the date index of line 24 sees them: each year and month
      replaced by the assembled calendar month. */
  function Dated(rows: seq<Row>): (d: seq<Row>)
    ensures |d| == |rows|
    ensures forall i :: 0 <= i < |rows| ==>
              d[i].value == rows[i].value && (d[i].year, d[i].month) == Assemble(rows[i].year, rows[i].month)
  {
    seq(|rows|, i requires 0 <= i < |rows| =>
      var ym := Assemble(rows[i].year, rows[i].month);
      Row(ym.0, ym.1, rows[i].value))
  }

  /** Valid input dates become calendar months in range. */
  lemma DatedIsInCalendar(rows: seq<Row>)
    requires AllDatesValid(rows)
    ensures AllInCalendar(Dated(rows))
  {
    var d := Dated(rows);
    forall i | 0 <= i < |d|
      ensures InCalendar(d[i].year, d[i].month)
    {
      assert ValidDate(rows[i].year, rows[i].month);
    }
  }

  /** Rows whose month fields are ordinary months are dated as they are. */
  lemma OrdinaryMonthsAreKept(rows: seq<Row>)
    requires forall i :: 0 <= i < |rows| ==> 1 <= rows[i].month <= 12
    ensures Dated(rows) == rows
  {
    var d := Dated(rows);
    forall i | 0 <= i < |rows|
      ensures d[i] == rows[i]
    {
      assert (d[i].year, d[i].month) == (rows[i].year, rows[i].month);
    }
  }

  /** The carry at work: month 101 of 1979 is January 1980 and month -88 of
      1981 is December 1980, both accepted; months 0 and 13 are rejected. */
  lemma MonthFieldCarries()
    ensures Assemble(1979, 101) == (1980, 1) && ValidDate(1979, 101)
    ensures Assemble(1981, -88) == (1980, 12) && ValidDate(1981, -88)
    ensures !ValidDate(1979, 0) && !ValidDate(1979, 13)
  {
    assert Assemble(1979, 0) == (1979, 0);
    assert Assemble(1979, 13) == (1979, 13);
  }

  /** Whole months between each calendar month and the first one: the `.n`
      of the period differences over the date index. Its argument is the
      dated rows, as `MonthsColumn` passes them. */
  function MonthsSinceFirst(rows: seq<Row>): (months: seq<int>)
    requires |rows| > 0
    ensures |months| == |rows| && months[0] == 0
  {
    seq(|rows|, i requires 0 <= i < |rows| =>
      12 * (rows[i].year - rows[0].year) + (rows[i].month - rows[0].month))
  }

  /** (year, month) a comes strictly before b in the calendar. */
  predicate Earlier(a: (int, int), b: (int, int)) {
    a.0 < b.0 || (a.0 == b.0 && a.1 < b.1)
  }

  /** Month offsets are an order embedding of calendar dates: a strictly
      later month gets a strictly larger offset. */
  lemma MonthsFollowDates(rows: seq<Row>, i: nat, j: nat)
    requires i < |rows| && j < |rows| && AllInCalendar(rows)
    requires Earlier((rows[i].year, rows[i].month), (rows[j].year, rows[j].month))
    ensures MonthsSinceFirst(rows)[i] < MonthsSinceFirst(rows)[j]
  {
    assert InCalendar(rows[i].year, rows[i].month) && InCalendar(rows[j].year, rows[j].month);
  }

  /** The `months` column of line 28, computed from the date index, so from
      the dated rows. */
  function MonthsColumn(rows: seq<Row>): (months: seq<int>)
    requires |rows| > 0 && AllDatesValid(rows)
    ensures |months| == |rows| && months[0] == 0
  {
    MonthsSinceFirst(Dated(rows))
  }

  /** With ordinary month fields the column is the offset of the parsed dates
      themselves. */
  lemma MonthsColumnOfOrdinaryMonths(rows: seq<Row>)
    requires |rows| > 0 && AllDatesValid(rows)
    requires forall i :: 0 <= i < |rows| ==> 1 <= rows[i].month <= 12
    ensures MonthsColumn(rows) == MonthsSinceFirst(rows)
  {
    OrdinaryMonthsAreKept(rows);
  }

  /** A row whose assembled date is later gets a larger months entry. */
  lemma MonthsColumnFollowsDates(rows: seq<Row>, i: nat, j: nat)
    requires i < |rows| && j < |rows| && AllDatesValid(rows)
    requires Earlier(Assemble(rows[i].year, rows[i].month), Assemble(rows[j].year, rows[j].month))
    ensures MonthsColumn(rows)[i] < MonthsColumn(rows)[j]
  {
    DatedIsInCalendar(rows);
    MonthsFollowDates(Dated(rows), i, j);
  }

  /** Month field 101 of 1979 is January 1980, one month after December
      1979, although the parsed fields differ by 89. */
  lemma CarriedMonthCountsOne()
    ensures MonthsSinceFirst([Row(1979, 12, 0.0), Row(1979, 101, 0.0)])[1] == 89
    ensures AllDatesValid([Row(1979, 12, 0.0), Row(1979, 101, 0.0)])
    ensures MonthsColumn([Row(1979, 12, 0.0), Row(1979, 101, 0.0)]) == [0, 1]
  {
    var rows := [Row(1979, 12, 0.0), Row(1979, 101, 0.0)];
    MonthFieldCarries();
    assert Assemble(1979, 12) == (1979, 12);
    assert AllDatesValid(rows);
    assert Dated(rows) == [Row(1979, 12, 0.0), Row(1980, 1, 0.0)];
  }

  /** The calendar month after (year, month). */
  function NextMonth(year: int, month: int): (int, int) {
    if month == 12 then (year + 1, 1) else (year, month + 1)
  }

  predicate Consecutive(rows: seq<Row>) {
    forall i :: 0 < i < |rows| ==> (rows[i].year, rows[i].month) == NextMonth(rows[i - 1].year, rows[i - 1].month)
  }

  /** For a gap-free monthly series the months column is just the row number. */
  lemma {:induction false} ConsecutiveMonthsCountRows(rows: seq<Row>, i: nat)
    requires Consecutive(rows) && i < |rows|
    ensures MonthsSinceFirst(rows)[i] == i
  {
    if i > 0 {
      ConsecutiveMonthsCountRows(rows, i - 1);
      assert (rows[i].year, rows[i].month) == NextMonth(rows[i - 1].year, rows[i - 1].month);
    }
  }

  /** The decades present in the input. */
  function DecadeSet(rows: seq<Row>): set<int>
    decreases |rows|
  {
    if rows == [] then {} else DecadeSet(rows[..|rows| - 1]) + {DecadeOf(rows[|rows| - 1])}
  }

  lemma DecadeSetSnoc(rows: seq<Row>, r: Row)
    ensures DecadeSet(rows + [r]) == DecadeSet(rows) + {DecadeOf(r)}
  {
    assert (rows + [r])[..|rows|] == rows;
  }

  /** A decade is in the set exactly when some row has it. */
  lemma {:induction false} DecadeSetMembers(rows: seq<Row>, k: int)
    ensures k in DecadeSet(rows) <==> exists i :: 0 <= i < |rows| && DecadeOf(rows[i]) == k
    decreases |rows|
  {
    if rows != [] {
      var init := rows[..|rows| - 1];
      DecadeSetMembers(init, k);
      if k in DecadeSet(init) {
        var i :| 0 <= i < |init| && DecadeOf(init[i]) == k;
        assert rows[i] == init[i];
      }
      if exists i :: 0 <= i < |rows| && DecadeOf(rows[i]) == k {
        var i :| 0 <= i < |rows| && DecadeOf(rows[i]) == k;
        if i < |init| {
          assert init[i] == rows[i];
        }
      }
    }
  }

  predicate Distinct(ks: seq<int>) {
    forall a, b :: 0 <= a < b < |ks| ==> ks[a] != ks[b]
  }

  /** The group keys of `groupby(decade, sort=False)`: each decade once, in
      the order in which it first occurs. */
  function Keys(rows: seq<Row>): (ks: seq<int>)
    ensures Distinct(ks)
    ensures forall k :: k in ks <==> k in DecadeSet(rows)
    decreases |rows|
  {
    if rows == [] then []
    else
      var init, last := rows[..|rows| - 1], rows[|rows| - 1];
      assert rows == init + [last];
      DecadeSetSnoc(init, last);
      var ks := Keys(init);
      if DecadeOf(last) in ks then ks else ks + [DecadeOf(last)]
  }

  /** The rows of decade d, in input order. */
  function Select(rows: seq<Row>, d: int): (g: seq<Row>)
    ensures forall x :: x in g ==> DecadeOf(x) == d
    decreases |rows|
  {
    if rows == [] then []
    else
      var init, last := rows[..|rows| - 1], rows[|rows| - 1];
      Select(init, d) + (if DecadeOf(last) == d then [last] else [])
  }

  /** A decade absent from the input selects no row. */
  lemma {:induction false} SelectAbsentDecade(rows: seq<Row>, d: int)
    requires d !in DecadeSet(rows)
    ensures Select(rows, d) == []
    decreases |rows|
  {
    if rows != [] {
      var init, last := rows[..|rows| - 1], rows[|rows| - 1];
      assert rows == init + [last];
      DecadeSetSnoc(init, last);
      SelectAbsentDecade(init, d);
    }
  }

  /** The groups in key order, each holding the rows of its decade. */
  function GroupsOver(ks: seq<int>, rows: seq<Row>): seq<Group> {
    seq(|ks|, i requires 0 <= i < |ks| => Group(ks[i], Select(rows, ks[i])))
  }

  /** `groupby(decade, sort=False)`: the groups of the first-seen keys, each
      under a different decade and holding only rows of that decade. */
  function GroupByDecade(rows: seq<Row>): (gs: seq<Group>)
    ensures forall a, b :: 0 <= a < b < |gs| ==> gs[a].decade != gs[b].decade
    ensures forall a, x :: 0 <= a < |gs| && x in gs[a].rows ==> DecadeOf(x) == gs[a].decade
  {
    GroupsOver(Keys(rows), rows)
  }

  /** All rows of the groups, group after group. */
  function Flatten(gs: seq<Group>): seq<Row> {
    if gs == [] then [] else Flatten(gs[..|gs| - 1]) + gs[|gs| - 1].rows
  }

  lemma {:induction false} SelectAppend(a: seq<Row>, b: seq<Row>, d: int)
    ensures Select(a + b, d) == Select(a, d) + Select(b, d)
    decreases |b|
  {
    if b == [] {
      assert a + b == a;
    } else {
      var binit := b[..|b| - 1];
      assert (a + b)[..|a + b| - 1] == a + binit;
      assert (a + b)[|a + b| - 1] == b[|b| - 1];
      SelectAppend(a, binit, d);
    }
  }

  /** Where row i sits inside its group: the number of earlier rows of the
      same decade. */
  function Rank(rows: seq<Row>, i: nat): nat
    requires i < |rows|
  {
    |Select(rows[..i], DecadeOf(rows[i]))|
  }

  lemma RowInItsGroup(rows: seq<Row>, i: nat)
    requires i < |rows|
    ensures Rank(rows, i) < |Select(rows, DecadeOf(rows[i]))|
    ensures Select(rows, DecadeOf(rows[i]))[Rank(rows, i)] == rows[i]
  {
    var d := DecadeOf(rows[i]);
    assert rows == rows[..i] + ([rows[i]] + rows[i + 1..]);
    SelectAppend(rows[..i], [rows[i]] + rows[i + 1..], d);
    SelectAppend([rows[i]], rows[i + 1..], d);
    assert Select([rows[i]], d) == [rows[i]] by {
      assert [rows[i]][..0] == [];
    }
  }

  /** Every row is in the group of its own decade, and rows of one decade
      keep their relative order inside it. */
  lemma GroupKeepsOrder(rows: seq<Row>, i: nat, j: nat)
    requires i < j < |rows| && DecadeOf(rows[i]) == DecadeOf(rows[j])
    ensures Rank(rows, i) < Rank(rows, j) < |Select(rows, DecadeOf(rows[i]))|
    ensures Select(rows, DecadeOf(rows[i]))[Rank(rows, i)] == rows[i]
    ensures Select(rows, DecadeOf(rows[i]))[Rank(rows, j)] == rows[j]
  {
    RowInItsGroup(rows, i);
    RowInItsGroup(rows, j);
    RankIncreases(rows, i, j);
  }

  lemma RankIncreases(rows: seq<Row>, i: nat, j: nat)
    requires i < j < |rows| && DecadeOf(rows[i]) == DecadeOf(rows[j])
    ensures Rank(rows, i) < Rank(rows, j)
  {
    var d := DecadeOf(rows[i]);
    var mid := rows[i + 1..j];
    assert rows[..j] == rows[..i] + ([rows[i]] + mid);
    SelectAppend(rows[..i], [rows[i]] + mid, d);
    SelectAppend([rows[i]], mid, d);
    assert Select([rows[i]], d) == [rows[i]] by {
      assert [rows[i]][..0] == [];
    }
  }

  /** The groups are keyed by distinct decades, exactly those of the input;
      no group is empty; a row is in a group exactly when the group's key is
      the row's decade. So each row lies in exactly one group. */
  lemma GroupsPartitionRows(rows: seq<Row>)
    ensures var gs := GroupByDecade(rows);
      && (forall a, b :: 0 <= a < b < |gs| ==> gs[a].decade != gs[b].decade)
      && (forall d :: d in DecadeSet(rows) <==> exists a :: 0 <= a < |gs| && gs[a].decade == d)
      && (forall a :: 0 <= a < |gs| ==> |gs[a].rows| > 0)
      && (forall a, i :: 0 <= a < |gs| && 0 <= i < |rows| ==>
            (rows[i] in gs[a].rows <==> gs[a].decade == DecadeOf(rows[i])))
  {
    var gs := GroupByDecade(rows);
    var ks := Keys(rows);
    forall d | d in DecadeSet(rows)
      ensures exists a :: 0 <= a < |gs| && gs[a].decade == d
    {
      var a :| 0 <= a < |ks| && ks[a] == d;
      assert gs[a].decade == d;
    }
    forall a | 0 <= a < |gs|
      ensures |gs[a].rows| > 0
    {
      DecadeSetMembers(rows, ks[a]);
      var i :| 0 <= i < |rows| && DecadeOf(rows[i]) == ks[a];
      RowInItsGroup(rows, i);
    }
    forall a, i | 0 <= a < |gs| && 0 <= i < |rows| && gs[a].decade == DecadeOf(rows[i])
      ensures rows[i] in gs[a].rows
    {
      RowInItsGroup(rows, i);
    }
  }

  lemma {:induction false} DistinctCard(ks: seq<int>)
    requires Distinct(ks)
    ensures |set k | k in ks| == |ks|
    decreases |ks|
  {
    if ks != [] {
      var init := ks[..|ks| - 1];
      var last := ks[|ks| - 1];
      assert ks == init + [last];
      DistinctCard(init);
      assert (set k | k in ks) == (set k | k in init) + {last};
      assert last !in (set k | k in init);
    }
  }

  /** There are as many groups as distinct decades in the input. */
  lemma GroupCountIsDecadeCount(rows: seq<Row>)
    ensures |GroupByDecade(rows)| == |DecadeSet(rows)|
  {
    var ks := Keys(rows);
    DistinctCard(ks);
    assert (set k | k in ks) == DecadeSet(rows);
  }

  /** Input that stays within one decade gives exactly one group. */
  lemma OneDecadeOneGroup(rows: seq<Row>)
    requires |rows| > 0
    requires forall i :: 0 <= i < |rows| ==> DecadeOf(rows[i]) == DecadeOf(rows[0])
    ensures |GroupByDecade(rows)| == 1
  {
    forall k
      ensures k in DecadeSet(rows) <==> k == DecadeOf(rows[0])
    {
      DecadeSetMembers(rows, k);
    }
    assert DecadeSet(rows) == {DecadeOf(rows[0])};
    GroupCountIsDecadeCount(rows);
  }

  lemma {:induction false} KeysPrefix(rows: seq<Row>, p: nat)
    requires p <= |rows|
    ensures Keys(rows[..p]) <= Keys(rows)
    decreases |rows|
  {
    if p < |rows| {
      var init := rows[..|rows| - 1];
      assert rows[..p] == init[..p];
      KeysPrefix(init, p);
    } else {
      assert rows[..p] == rows;
    }
  }

  /** Keys come in order of first occurrence, not in numeric order: any row
      of a later key is preceded by some row of every earlier key. */
  lemma KeysInFirstSeenOrder(rows: seq<Row>, a: nat, b: nat, p: nat)
    requires a < b < |Keys(rows)| && p < |rows| && DecadeOf(rows[p]) == Keys(rows)[b]
    ensures exists q :: 0 <= q < p && DecadeOf(rows[q]) == Keys(rows)[a]
  {
    var ks := Keys(rows);
    var pre := rows[..p + 1];
    KeysPrefix(rows, p + 1);
    var kp := Keys(pre);
    assert pre[p] == rows[p];
    DecadeSetMembers(pre, ks[b]);
    assert ks[b] in DecadeSet(pre);
    assert ks[b] in kp;
    var c :| 0 <= c < |kp| && kp[c] == ks[b];
    assert c == b;
    assert ks[a] == kp[a];
    assert ks[a] in DecadeSet(pre);
    DecadeSetMembers(pre, ks[a]);
    var q :| 0 <= q < |pre| && DecadeOf(pre[q]) == ks[a];
    assert q != p;
    assert rows[q] == pre[q];
  }

  /** A crafted input that revisits decades out of numeric order. */
  lemma FirstSeenNotNumeric()
    ensures Keys([Row(1995, 1, 0.0), Row(1985, 1, 0.0), Row(1991, 1, 0.0)]) == [1990, 1980]
  {
    var r := [Row(1995, 1, 0.0), Row(1985, 1, 0.0), Row(1991, 1, 0.0)];
    assert Keys(r[..1]) == [1990] by { assert r[..1][..0] == []; }
    assert r[..2][..1] == r[..1];
    assert Keys(r[..2]) == [1990, 1980];
    assert r[..3] == r;
    assert r[..2] == r[..|r| - 1];
  }

  /** The rows of the keys' groups, one group after the other. */
  function FlatOver(ks: seq<int>, rows: seq<Row>): seq<Row> {
    if ks == [] then [] else FlatOver(ks[..|ks| - 1], rows) + Select(rows, ks[|ks| - 1])
  }

  lemma {:induction false} FlattenIsFlatOver(ks: seq<int>, rows: seq<Row>)
    ensures Flatten(GroupsOver(ks, rows)) == FlatOver(ks, rows)
    decreases |ks|
  {
    if ks != [] {
      var k0 := ks[..|ks| - 1];
      FlattenIsFlatOver(k0, rows);
      assert GroupsOver(ks, rows)[..|ks| - 1] == GroupsOver(k0, rows);
    }
  }

  /** Appending a row of a decade outside ks changes none of their groups. */
  lemma {:induction false} FlatOverOtherDecade(ks: seq<int>, rows: seq<Row>, r: Row)
    requires DecadeOf(r) !in ks
    ensures FlatOver(ks, rows + [r]) == FlatOver(ks, rows)
    decreases |ks|
  {
    var s := rows + [r];
    assert s[..|s| - 1] == rows;
    if ks != [] {
      var k0, k := ks[..|ks| - 1], ks[|ks| - 1];
      FlatOverOtherDecade(k0, rows, r);
      assert Select(s, k) == Select(rows, k);
    }
  }

  /** Appending one row to the input adds it to the group of its decade and
      changes no other group. */
  lemma {:induction false} FlatOverSnocRow(ks: seq<int>, rows: seq<Row>, r: Row)
    requires Distinct(ks)
    ensures multiset(FlatOver(ks, rows + [r])) ==
            multiset(FlatOver(ks, rows)) + (if DecadeOf(r) in ks then multiset{r} else multiset{})
    decreases |ks|
  {
    var s := rows + [r];
    assert s[..|s| - 1] == rows;
    if ks != [] {
      var k0, k := ks[..|ks| - 1], ks[|ks| - 1];
      assert ks == k0 + [k];
      var f0s, f0r := FlatOver(k0, s), FlatOver(k0, rows);
      assert FlatOver(ks, s) == f0s + Select(s, k);
      assert FlatOver(ks, rows) == f0r + Select(rows, k);
      if DecadeOf(r) == k {
        assert DecadeOf(r) !in k0;
        FlatOverOtherDecade(k0, rows, r);
        assert Select(s, k) == Select(rows, k) + [r];
      } else {
        assert Distinct(k0);
        FlatOverSnocRow(k0, rows, r);
        assert Select(s, k) == Select(rows, k);
        assert (DecadeOf(r) in ks) == (DecadeOf(r) in k0);
      }
    }
  }

  lemma {:induction false} FlatOverHoldsAllRows(rows: seq<Row>)
    ensures multiset(FlatOver(Keys(rows), rows)) == multiset(rows)
    decreases |rows|
  {
    if rows != [] {
      var init, r := rows[..|rows| - 1], rows[|rows| - 1];
      assert rows == init + [r];
      var d := DecadeOf(r);
      var ks := Keys(init);
      FlatOverHoldsAllRows(init);
      assert multiset(rows) == multiset(init) + multiset{r};
      if d !in ks {
        FlatOverNewDecade(init, r);
      } else {
        assert Keys(rows) == ks;
        FlatOverSnocRow(ks, init, r);
      }
    }
  }

  /** The group-by loses and invents nothing: as a multiset, the groups hold
      exactly the input rows. */
  lemma GroupsHoldAllRows(rows: seq<Row>)
    ensures multiset(Flatten(GroupByDecade(rows))) == multiset(rows)
    ensures |Flatten(GroupByDecade(rows))| == |rows|
  {
    FlattenIsFlatOver(Keys(rows), rows);
    FlatOverHoldsAllRows(rows);
    assert |multiset(Flatten(GroupByDecade(rows)))| == |multiset(rows)|;
  }

  predicate YearsNondecreasing(rows: seq<Row>) {
    forall i, j :: 0 <= i < j < |rows| ==> rows[i].year <= rows[j].year
  }

  lemma {:induction false} LastKeyIsLastDecade(rows: seq<Row>)
    requires |rows| > 0 && YearsNondecreasing(rows)
    ensures |Keys(rows)| > 0 && Keys(rows)[|Keys(rows)| - 1] == DecadeOf(rows[|rows| - 1])
    decreases |rows|
  {
    var init, r := rows[..|rows| - 1], rows[|rows| - 1];
    assert rows == init + [r];
    var d := DecadeOf(r);
    if d in Keys(init) {
      assert d in DecadeSet(init);
      DecadeSetMembers(init, d);
      var i :| 0 <= i < |init| && DecadeOf(init[i]) == d;
      LastKeyIsLastDecade(init);
      DecadeMonotone(init[i].year, init[|init| - 1].year);
      DecadeMonotone(init[|init| - 1].year, r.year);
    }
  }

  lemma SortedPrefix(rows: seq<Row>, p: nat)
    requires p <= |rows| && YearsNondecreasing(rows)
    ensures YearsNondecreasing(rows[..p])
  {
  }

  /** In year order, a row whose decade was seen before belongs to the
      newest group. */
  lemma RepeatedDecadeIsLastKey(init: seq<Row>, r: Row)
    requires YearsNondecreasing(init + [r]) && DecadeOf(r) in Keys(init)
    ensures |Keys(init)| > 0 && Keys(init)[|Keys(init)| - 1] == DecadeOf(r)
  {
    var rows := init + [r];
    var d := DecadeOf(r);
    assert d in DecadeSet(init);
    DecadeSetMembers(init, d);
    var i :| 0 <= i < |init| && DecadeOf(init[i]) == d;
    assert rows[..|init|] == init;
    SortedPrefix(rows, |init|);
    LastKeyIsLastDecade(init);
    assert rows[i] == init[i] && rows[|init| - 1] == init[|init| - 1] && rows[|init|] == r;
    DecadeMonotone(init[i].year, init[|init| - 1].year);
    DecadeMonotone(init[|init| - 1].year, r.year);
  }

  lemma {:induction false} SortedFlatOver(rows: seq<Row>)
    requires YearsNondecreasing(rows)
    ensures FlatOver(Keys(rows), rows) == rows
    decreases |rows|
  {
    if rows != [] {
      var init, r := rows[..|rows| - 1], rows[|rows| - 1];
      assert rows == init + [r];
      SortedPrefix(rows, |rows| - 1);
      SortedFlatOver(init);
      if DecadeOf(r) !in Keys(init) {
        FlatOverNewDecade(init, r);
      } else {
        RepeatedDecadeIsLastKey(init, r);
        FlatOverSeenDecade(init, r);
      }
    }
  }

  /** A row of a new decade opens a new group at the end. */
  lemma FlatOverNewDecade(init: seq<Row>, r: Row)
    requires DecadeOf(r) !in Keys(init)
    ensures FlatOver(Keys(init + [r]), init + [r]) == FlatOver(Keys(init), init) + [r]
  {
    var rows, d, ks := init + [r], DecadeOf(r), Keys(init);
    assert rows[..|rows| - 1] == init;
    FlatOverOtherDecade(ks, init, r);
    assert Keys(rows) == ks + [d];
    assert (ks + [d])[..|ks|] == ks;
    SelectAbsentDecade(init, d);
    assert Select(rows, d) == [r];
  }

  /** A row whose decade is the newest group's joins the end of that group. */
  lemma FlatOverSeenDecade(init: seq<Row>, r: Row)
    requires |Keys(init)| > 0 && Keys(init)[|Keys(init)| - 1] == DecadeOf(r)
    ensures FlatOver(Keys(init + [r]), init + [r]) == FlatOver(Keys(init), init) + [r]
  {
    var ks := Keys(init);
    LastKeySplit(ks, DecadeOf(r));
    KeysSnocSeen(init, r);
    FlatOverJoinLastGroup(ks[..|ks| - 1], init, r);
  }

  lemma LastKeySplit(ks: seq<int>, d: int)
    requires |ks| > 0 && ks[|ks| - 1] == d && Distinct(ks)
    ensures ks == ks[..|ks| - 1] + [d] && d in ks && d !in ks[..|ks| - 1]
  {
  }

  /** With the row's decade as the last key, the row lands at the very end. */
  lemma FlatOverJoinLastGroup(k0: seq<int>, init: seq<Row>, r: Row)
    requires DecadeOf(r) !in k0
    ensures FlatOver(k0 + [DecadeOf(r)], init + [r]) == FlatOver(k0 + [DecadeOf(r)], init) + [r]
  {
    var d := DecadeOf(r);
    FlatOverSnocKey(k0, d, init + [r]);
    FlatOverSnocKey(k0, d, init);
    FlatOverOtherDecade(k0, init, r);
    SelectSnoc(init, r);
  }

  lemma KeysSnocSeen(init: seq<Row>, r: Row)
    requires DecadeOf(r) in Keys(init)
    ensures Keys(init + [r]) == Keys(init)
  {
    assert (init + [r])[..|init|] == init;
  }

  lemma SelectSnoc(init: seq<Row>, r: Row)
    ensures Select(init + [r], DecadeOf(r)) == Select(init, DecadeOf(r)) + [r]
  {
    assert (init + [r])[..|init|] == init;
  }

  lemma FlatOverSnocKey(ks: seq<int>, k: int, rows: seq<Row>)
    ensures FlatOver(ks + [k], rows) == FlatOver(ks, rows) + Select(rows, k)
  {
    assert (ks + [k])[..|ks|] == ks;
  }

  /** For input in nondecreasing year order the groups, read one after the
      other, give back the input. */
  lemma SortedInputIsReproduced(rows: seq<Row>)
    requires YearsNondecreasing(rows)
    ensures Flatten(GroupByDecade(rows)) == rows
  {
    FlattenIsFlatOver(Keys(rows), rows);
    SortedFlatOver(rows);
  }

  /** The `value` column of a group. */
  function Values(rows: seq<Row>): (v: seq<real>)
    ensures |v| == |rows|
  {
    seq(|rows|, i requires 0 <= i < |rows| => rows[i].value)
  }

  /** What SciPy's `find_peaks` is relied on to return: strictly increasing
      positions inside the array it was given. */
  predicate ValidPeaks(p: seq<int>, n: nat) {
    (forall a :: 0 <= a < |p| ==> 0 <= p[a] < n) && StrictlyIncreasing(p)
  }

  /** `find_peaks_by_decade` after the file has been read: invalid dates and
      an empty frame are errors; otherwise the rows are dated, grouped by
      decade, and each group gets one entry, in group order, holding the peak
      finder's indices over the group's values. */
  function FindPeaksByDecade(rows: seq<Row>, findPeaks: seq<real> -> seq<int>): (r: Result<seq<DecadePeaks>>)
    ensures r == Err(InvalidDate) <==> !AllDatesValid(rows)
    ensures r == Err(EmptyInput) <==> rows == []
    ensures r.Ok? ==>
              var gs := GroupByDecade(Dated(rows));
              |r.value| == |gs| &&
              forall a :: 0 <= a < |gs| ==>
                r.value[a].decade == gs[a].decade && r.value[a].peaks == findPeaks(Values(gs[a].rows))
  {
    if !AllDatesValid(rows) then Err(InvalidDate)
    else if rows == [] then Err(EmptyInput)
    else
      var gs := GroupByDecade(Dated(rows));
      Ok(seq(|gs|, a requires 0 <= a < |gs| => DecadePeaks(gs[a].decade, findPeaks(Values(gs[a].rows)))))
  }

  /** With a peak finder that keeps its contract, every decade's peak indices
      are strictly increasing positions inside that decade's group, and the
      decades are exactly those of the input, each once. */
  lemma PeaksStayInsideGroups(rows: seq<Row>, findPeaks: seq<real> -> seq<int>)
    requires forall v :: ValidPeaks(findPeaks(v), |v|)
    requires AllDatesValid(rows) && rows != []
    ensures FindPeaksByDecade(rows, findPeaks).Ok?
    ensures var out := FindPeaksByDecade(rows, findPeaks).value;
      var gs := GroupByDecade(Dated(rows));
      && (forall a :: 0 <= a < |out| ==> ValidPeaks(out[a].peaks, |gs[a].rows|))
      && (forall a, b :: 0 <= a < b < |out| ==> out[a].decade != out[b].decade)
      && (forall d :: d in DecadeSet(Dated(rows)) <==> exists a :: 0 <= a < |out| && out[a].decade == d)
  {
    GroupsPartitionRows(Dated(rows));
    var out := FindPeaksByDecade(rows, findPeaks).value;
    var gs := GroupByDecade(Dated(rows));
    forall a | 0 <= a < |out|
      ensures ValidPeaks(out[a].peaks, |gs[a].rows|)
    {
      assert ValidPeaks(findPeaks(Values(gs[a].rows)), |Values(gs[a].rows)|);
    }
  }

  /** One row makes one group holding that row. */
  lemma SingleRowGroup(r: Row)
    ensures GroupByDecade([r]) == [Group(DecadeOf(r), [r])]
  {
    assert [r][..0] == [];
    assert Keys([r]) == [DecadeOf(r)];
    assert Select([r], DecadeOf(r)) == [r];
  }

  /** A single row with a valid date gives one entry: the decade of its
      assembled year and the peaks of its one value. */
  lemma SingleRowReport(r: Row, findPeaks: seq<real> -> seq<int>)
    requires ValidDate(r.year, r.month)
    ensures FindPeaksByDecade([r], findPeaks) ==
            Ok([DecadePeaks(Decade(Assemble(r.year, r.month).0), findPeaks([r.value]))])
  {
    var ym := Assemble(r.year, r.month);
    var dated := Row(ym.0, ym.1, r.value);
    assert AllDatesValid([r]);
    assert Dated([r]) == [dated];
    SingleRowGroup(dated);
    assert Values([dated]) == [r.value];
    var out := FindPeaksByDecade([r], findPeaks);
    var e := DecadePeaks(Decade(ym.0), findPeaks([r.value]));
    assert out.Ok? && |out.value| == 1 && out.value[0] == e;
    assert out.value == [e];
  }

  /** A row with month field 101 of 1979 is dated January 1980 and lands in
      the 1980 group. */
  lemma CarriedRowJoinsNextDecade(findPeaks: seq<real> -> seq<int>)
    ensures FindPeaksByDecade([Row(1979, 101, 0.5)], findPeaks) ==
            Ok([DecadePeaks(1980, findPeaks([0.5]))])
  {
    MonthFieldCarries();
    SingleRowReport(Row(1979, 101, 0.5), findPeaks);
  }

  /** The years 1979, 1980 and 1991 have the decades 1970, 1980 and 1990. */
  lemma DecadeBoundary()
    ensures Decade(1979) == 1970 && Decade(1980) == 1980 && Decade(1991) == 1990
  {
  }
}
