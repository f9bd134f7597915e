/**
 * The year selector's data: the distinct `time` values of the loaded rows
 * (index.js line 27) and the rows of one chosen year (index.js lines 196-198).
 */
module Years {
  import opened Wrappers
  import opened Table

  const TIME_FIELD := "time"

  predicate NoDuplicates<T(==)>(s: seq<T>) {
    forall i, j :: 0 <= i < j < |s| ==> s[i] != s[j]
  }

  /** The position of the first occurrence of `x` in `s`. */
  function FirstIndex<T(==)>(s: seq<T>, x: T): (k: nat)
    requires x in s
    ensures k < |s| && s[k] == x
    ensures forall j :: 0 <= j < k ==> s[j] != x
  {
    if s[0] == x then 0 else 1 + FirstIndex(s[1..], x)
  }

  /** Appending to a sequence does not move the first occurrence of an element already in it. */
  lemma FirstIndexOfPrefix<T>(s: seq<T>, n: nat, x: T)
    requires n <= |s| && x in s[..n]
    ensures x in s && FirstIndex(s, x) == FirstIndex(s[..n], x)
  {
    var k, k' := FirstIndex(s, x), FirstIndex(s[..n], x);
    assert s[k'] == x;
    assert k <= k' < n;
    assert s[..n][k] == x;
  }

  /** `r` lists the elements of `s` once each, in the order of their first occurrence. */
  ghost predicate FirstSeenOrder<T(!new)>(r: seq<T>, s: seq<T>) {
    && NoDuplicates(r)
    && (forall x :: x in r <==> x in s)
    && (forall i, j :: 0 <= i < j < |r| ==> FirstIndex(s, r[i]) < FirstIndex(s, r[j]))
  }

  /** The first occurrences of a listing of a prefix do not move when the prefix grows to `s`. */
  lemma FirstIndicesKept<T>(init: seq<T>, s: seq<T>, n: nat)
    requires n <= |s| && forall x :: x in init ==> x in s[..n]
    ensures forall x :: x in init ==> x in s && FirstIndex(s, x) == FirstIndex(s[..n], x)
  {
    forall x | x in init ensures x in s && FirstIndex(s, x) == FirstIndex(s[..n], x) {
      FirstIndexOfPrefix(s, n, x);
    }
  }

  /** An element already listed adds nothing: the listing of the prefix is that of `s`. */
  lemma FirstSeenOrderKeep<T(!new)>(init: seq<T>, s: seq<T>)
    requires s != [] && FirstSeenOrder(init, s[..|s| - 1]) && s[|s| - 1] in init
    ensures FirstSeenOrder(init, s)
  {
    var n := |s| - 1;
    assert s == s[..n] + [s[n]];
    FirstIndicesKept(init, s, n);
  }

  /** A new element is listed last: its first occurrence is the last position. */
  lemma FirstSeenOrderExtend<T(!new)>(init: seq<T>, s: seq<T>)
    requires s != [] && FirstSeenOrder(init, s[..|s| - 1]) && s[|s| - 1] !in init
    ensures FirstSeenOrder(init + [s[|s| - 1]], s)
  {
    var n := |s| - 1;
    var last, r := s[n], init + [s[n]];
    assert s == s[..n] + [last];
    FirstIndicesKept(init, s, n);
    assert FirstIndex(s, last) == n;
    assert NoDuplicates(r) by {
      assert forall i :: 0 <= i < |init| ==> r[i] == init[i] && r[i] != last;
    }
    assert forall x :: x in r <==> x in s by {
      assert forall x :: x in r <==> x in init || x == last;
    }
    forall i, j | 0 <= i < j < |r| ensures FirstIndex(s, r[i]) < FirstIndex(s, r[j]) {
      assert r[i] == init[i] && init[i] in init;
      if j < |init| {
        assert r[j] == init[j] && init[j] in init;
      }
    }
  }

  /**
   * `[...new Set(s)]`: the elements of `s`, each once, in the order in which
   * they first occur (a JavaScript Set iterates in insertion order, and
   * inserting an element it already holds changes nothing).
   */
  function Distinct<T(==, !new)>(s: seq<T>): (r: seq<T>)
    ensures NoDuplicates(r)
    ensures forall x :: x in r <==> x in s
    ensures forall i, j :: 0 <= i < j < |r| ==> FirstIndex(s, r[i]) < FirstIndex(s, r[j])
  {
    if s == [] then []
    else
      var init := Distinct(s[..|s| - 1]);
      if s[|s| - 1] in init then
        FirstSeenOrderKeep(init, s);
        init
      else
        FirstSeenOrderExtend(init, s);
        init + [s[|s| - 1]]
  }

  /** `allYearsData.map((row) => row["time"])` */
  function Times(rows: seq<Row>): (ts: seq<Cell>)
    ensures |ts| == |rows|
    ensures forall i :: 0 <= i < |rows| ==> ts[i] == Field(rows[i], TIME_FIELD)
  {
    seq(|rows|, i requires 0 <= i < |rows| => Field(rows[i], TIME_FIELD))
  }

  /** The options of the year selector (index.js line 27). */
  function DistinctYears(rows: seq<Row>): (years: seq<Cell>)
    ensures NoDuplicates(years)
    ensures forall c :: c in years <==> c in Times(rows)
    ensures forall c :: c in years <==> exists i :: 0 <= i < |rows| && Field(rows[i], TIME_FIELD) == c
    ensures forall i, j :: 0 <= i < j < |years| ==>
      FirstIndex(Times(rows), years[i]) < FirstIndex(Times(rows), years[j])
  {
    var ts := Times(rows);
    assert forall c :: c in ts <==> exists i :: 0 <= i < |rows| && Field(rows[i], TIME_FIELD) == c by {
      forall c | c in ts ensures exists i :: 0 <= i < |rows| && Field(rows[i], TIME_FIELD) == c {
        var i := FirstIndex(ts, c);
      }
    }
    Distinct(ts)
  }

  /** The filter's test `row['time'] == year`. */
  predicate InYear(row: Row, year: string): (b: bool)
    ensures b <==> TIME_FIELD in row && row[TIME_FIELD] == year
  {
    Field(row, TIME_FIELD) == Some(year)
  }

  /** `allYearsData.filter((row) => row['time'] == year)` */
  function ByYear(rows: seq<Row>, year: string): (r: seq<Row>)
    ensures |r| <= |rows|
    ensures forall k :: 0 <= k < |r| ==> InYear(r[k], year)
  {
    if rows == [] then []
    else
      var last := rows[|rows| - 1];
      ByYear(rows[..|rows| - 1], year) + (if InYear(last, year) then [last] else [])
  }

  /** The rows the filter drops: those of every other year. */
  function OtherYears(rows: seq<Row>, year: string): (r: seq<Row>)
    ensures forall k :: 0 <= k < |r| ==> !InYear(r[k], year)
  {
    if rows == [] then []
    else
      var last := rows[|rows| - 1];
      OtherYears(rows[..|rows| - 1], year) + (if InYear(last, year) then [] else [last])
  }

  /** Reference definition of the selection: the positions, in increasing order, of the rows of `year`. */
  function YearIndices(rows: seq<Row>, year: string): (ix: seq<nat>)
    ensures forall k :: 0 <= k < |ix| ==> ix[k] < |rows| && InYear(rows[ix[k]], year)
    ensures forall k, l :: 0 <= k < l < |ix| ==> ix[k] < ix[l]
    ensures forall i :: 0 <= i < |rows| && InYear(rows[i], year) ==> i in ix
  {
    if rows == [] then []
    else
      var n := |rows| - 1;
      YearIndices(rows[..n], year) + (if InYear(rows[n], year) then [n] else [])
  }

  /**
   * The filter keeps exactly the rows of `year`, every one of them, in the
   * order of the source: its k-th row is the row at the k-th matching position.
   */
  lemma {:induction false} ByYearSelects(rows: seq<Row>, year: string)
    ensures |ByYear(rows, year)| == |YearIndices(rows, year)|
    ensures forall k :: 0 <= k < |ByYear(rows, year)| ==>
      ByYear(rows, year)[k] == rows[YearIndices(rows, year)[k]]
  {
    if rows != [] {
      var n := |rows| - 1;
      ByYearSelects(rows[..n], year);
      var ix := YearIndices(rows[..n], year);
      forall k | 0 <= k < |ix| ensures rows[..n][ix[k]] == rows[ix[k]] {
      }
    }
  }

  /** No row of the chosen year is dropped, and every kept row comes from the source. */
  lemma ByYearComplete(rows: seq<Row>, year: string)
    ensures forall i :: 0 <= i < |rows| && InYear(rows[i], year) ==> rows[i] in ByYear(rows, year)
    ensures forall r :: r in ByYear(rows, year) ==> r in rows && InYear(r, year)
  {
    ByYearSelects(rows, year);
    var r, ix := ByYear(rows, year), YearIndices(rows, year);
    forall i | 0 <= i < |rows| && InYear(rows[i], year) ensures rows[i] in r {
      var k :| 0 <= k < |ix| && ix[k] == i;
      assert r[k] == rows[i];
    }
    forall x | x in r ensures x in rows {
      var k :| 0 <= k < |r| && r[k] == x;
      assert rows[ix[k]] == x;
    }
  }

  /** Filtering the rows of a year again changes nothing. */
  lemma {:induction false} ByYearIdempotent(rows: seq<Row>, year: string)
    ensures ByYear(ByYear(rows, year), year) == ByYear(rows, year)
  {
    if rows != [] {
      var n := |rows| - 1;
      ByYearIdempotent(rows[..n], year);
      var prefix := ByYear(rows[..n], year);
      if InYear(rows[n], year) {
        assert (prefix + [rows[n]])[..|prefix|] == prefix;
      } else {
        assert prefix + [] == prefix;
      }
    }
  }

  /** Every row lands either in the chosen year or in the others, so nothing is lost or duplicated. */
  lemma {:induction false} ByYearPartition(rows: seq<Row>, year: string)
    ensures multiset(ByYear(rows, year)) + multiset(OtherYears(rows, year)) == multiset(rows)
  {
    if rows != [] {
      var n := |rows| - 1;
      var init, last := rows[..n], rows[n];
      ByYearPartition(init, year);
      assert rows == init + [last];
      assert multiset(rows) == multiset(init) + multiset{last};
      var kept, dropped := ByYear(init, year), OtherYears(init, year);
      if InYear(last, year) {
        assert ByYear(rows, year) == kept + [last];
        assert OtherYears(rows, year) == dropped + [];
        assert multiset(kept + [last]) == multiset(kept) + multiset{last};
      } else {
        assert ByYear(rows, year) == kept + [];
        assert OtherYears(rows, year) == dropped + [last];
        assert multiset(dropped + [last]) == multiset(dropped) + multiset{last};
      }
    }
  }

  /** Counting the rows kept and the rows dropped gives back the number of rows. */
  lemma ByYearCount(rows: seq<Row>, year: string)
    ensures |ByYear(rows, year)| + |OtherYears(rows, year)| == |rows|
  {
    ByYearPartition(rows, year);
    assert |multiset(ByYear(rows, year)) + multiset(OtherYears(rows, year))| == |multiset(rows)|;
  }
}
