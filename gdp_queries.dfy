/**
  What the two queries of the SQL pipeline select from the stored table, as functions of the
  stored rows: the countries at or above a GDP threshold, and the mean GDP of each region's top
  `n` countries by competition rank (`RANK() OVER (PARTITION BY Region ORDER BY GDP DESC)`),
  largest mean first. Means are exact: the floating-point `AVG` is not modelled.
*/
module GdpQueries {

  /** A row of the `Countries_by_GDP` table. */
  datatype StoredRow = StoredRow(id: int, country: string, gdpBillion: real, region: string, year: int)

  /** One row of the ranked query's answer. */
  datatype RegionMean = RegionMean(region: string, mean: real)

  // ---------------------------------------------------------------------------------------
  // `SELECT Country FROM t WHERE GDP_USD_billion >= n`
  // ---------------------------------------------------------------------------------------

  /** The rows the `WHERE` clause selects, each as often as it is stored, in stored order. */
  function AtOrAbove(rows: seq<StoredRow>, n: int): (r: seq<StoredRow>)
    ensures |r| <= |rows|
    ensures forall x :: multiset(r)[x] == if x.gdpBillion >= n as real then multiset(rows)[x] else 0
  {
    if rows == [] then []
    else
      assert rows == [rows[0]] + rows[1..];
      if rows[0].gdpBillion >= n as real then [rows[0]] + AtOrAbove(rows[1..], n)
      else AtOrAbove(rows[1..], n)
  }

  /** The selection keeps the stored order: it distributes over concatenation. */
  lemma {:induction false} AtOrAboveAppend(a: seq<StoredRow>, b: seq<StoredRow>, n: int)
    ensures AtOrAbove(a + b, n) == AtOrAbove(a, n) + AtOrAbove(b, n)
    decreases |a|
  {
    if a == [] {
      assert a + b == b;
    } else {
      assert (a + b)[1..] == a[1..] + b;
      AtOrAboveAppend(a[1..], b, n);
    }
  }

  /**
    The countries of the rows at or above the threshold, one per selected row, in stored order:
    the order in which SQLite scans this table, since the query has no `ORDER BY`.
  */
  function CountriesAtOrAbove(rows: seq<StoredRow>, n: int): (r: seq<string>)
    ensures |r| == |AtOrAbove(rows, n)|
    ensures forall i :: 0 <= i < |r| ==> r[i] == AtOrAbove(rows, n)[i].country
    ensures forall c :: c in r <==> exists x :: x in rows && x.country == c && x.gdpBillion >= n as real
  {
    if rows == [] then []
    else
      var rest := CountriesAtOrAbove(rows[1..], n);
      assert forall x :: x in rows <==> x == rows[0] || x in rows[1..];
      if rows[0].gdpBillion >= n as real then
        assert AtOrAbove(rows, n) == [rows[0]] + AtOrAbove(rows[1..], n);
        CountriesCons(rows[0], AtOrAbove(rows[1..], n), rest);
        [rows[0].country] + rest
      else
        assert AtOrAbove(rows, n) == AtOrAbove(rows[1..], n);
        rest
  }

  /** A selected row in front adds its country in front. */
  lemma {:induction false} CountriesCons(x: StoredRow, selected: seq<StoredRow>, countries: seq<string>)
    requires |countries| == |selected|
    requires forall i :: 0 <= i < |countries| ==> countries[i] == selected[i].country
    ensures |[x.country] + countries| == |[x] + selected|
    ensures forall i :: 0 <= i < |[x] + selected| ==> ([x.country] + countries)[i] == ([x] + selected)[i].country
  {
  }

  /** A threshold at or below every GDP returns one country per stored row. */
  lemma {:induction false} CountriesAtOrAboveAll(rows: seq<StoredRow>, n: int)
    requires forall x :: x in rows ==> x.gdpBillion >= n as real
    ensures |CountriesAtOrAbove(rows, n)| == |rows|
    ensures forall i :: 0 <= i < |rows| ==> CountriesAtOrAbove(rows, n)[i] == rows[i].country
  {
    AtOrAboveAll(rows, n);
  }

  /** A threshold at or below every GDP selects every row, in order. */
  lemma {:induction false} AtOrAboveAll(rows: seq<StoredRow>, n: int)
    requires forall x :: x in rows ==> x.gdpBillion >= n as real
    ensures AtOrAbove(rows, n) == rows
    decreases |rows|
  {
    if rows != [] {
      assert rows[0] in rows;
      assert forall x :: x in rows[1..] ==> x in rows;
      AtOrAboveAll(rows[1..], n);
    }
  }

  // ---------------------------------------------------------------------------------------
  // Competition rank within a region
  // ---------------------------------------------------------------------------------------

  /** How many rows of `region` have a GDP strictly greater than `gdp`. */
  function GreaterInRegion(rows: seq<StoredRow>, region: string, gdp: real): (c: nat)
    ensures c <= |rows|
  {
    if rows == [] then 0
    else (if rows[0].region == region && rows[0].gdpBillion > gdp then 1 else 0)
         + GreaterInRegion(rows[1..], region, gdp)
  }

  /** `RANK()`: one more than the number of rows of the same region with a greater GDP. */
  function Rank(rows: seq<StoredRow>, x: StoredRow): (r: nat)
    ensures 1 <= r <= |rows| + 1
  {
    1 + GreaterInRegion(rows, x.region, x.gdpBillion)
  }

  /** How many rows are in `region`. */
  function RegionSize(rows: seq<StoredRow>, region: string): (c: nat)
    ensures c <= |rows|
  {
    if rows == [] then 0
    else (if rows[0].region == region then 1 else 0) + RegionSize(rows[1..], region)
  }

  /** `WHERE Rank_Per_Region <= n`, in table order. */
  function RankKept(all: seq<StoredRow>, rows: seq<StoredRow>, n: int): (r: seq<StoredRow>)
    ensures |r| <= |rows|
    ensures forall x :: x in r <==> x in rows && Rank(all, x) <= n
    ensures forall x :: multiset(r)[x] == if Rank(all, x) <= n then multiset(rows)[x] else 0
  {
    if rows == [] then []
    else
      var rest := RankKept(all, rows[1..], n);
      assert rows == [rows[0]] + rows[1..];
      assert forall x :: x in rows <==> x == rows[0] || x in rows[1..];
      if Rank(all, rows[0]) <= n then [rows[0]] + rest else rest
  }

  /** The rank filter keeps the table order: it distributes over concatenation. */
  lemma {:induction false} RankKeptAppend(all: seq<StoredRow>, a: seq<StoredRow>, b: seq<StoredRow>, n: int)
    ensures RankKept(all, a + b, n) == RankKept(all, a, n) + RankKept(all, b, n)
    decreases |a|
  {
    if a == [] {
      assert a + b == b;
    } else {
      assert (a + b)[1..] == a[1..] + b;
      RankKeptAppend(all, a[1..], b, n);
    }
  }

  /** A row whose GDP is strictly below another's in the same region ranks strictly lower. */
  lemma {:induction false} GreaterInRegionMonotone(rows: seq<StoredRow>, region: string, hi: real, lo: real)
    requires lo <= hi
    ensures GreaterInRegion(rows, region, hi) <= GreaterInRegion(rows, region, lo)
    decreases |rows|
  {
    if rows != [] {
      GreaterInRegionMonotone(rows[1..], region, hi, lo);
    }
  }

  lemma {:induction false} GreaterInRegionStrict(rows: seq<StoredRow>, x: StoredRow, lo: real)
    requires x in rows && lo < x.gdpBillion
    ensures GreaterInRegion(rows, x.region, x.gdpBillion) + 1 <= GreaterInRegion(rows, x.region, lo)
    decreases |rows|
  {
    if rows[0] == x {
      GreaterInRegionMonotone(rows[1..], x.region, x.gdpBillion, lo);
    } else {
      GreaterInRegionStrict(rows[1..], x, lo);
    }
  }

  /** Greater GDP in the same region means a strictly smaller (better) rank. */
  lemma {:induction false} RankOrder(rows: seq<StoredRow>, x: StoredRow, y: StoredRow)
    requires x in rows && x.region == y.region && x.gdpBillion > y.gdpBillion
    ensures Rank(rows, x) < Rank(rows, y)
  {
    GreaterInRegionStrict(rows, x, y.gdpBillion);
  }

  /** Rows with the same region and GDP share a rank. */
  lemma {:induction false} RankTie(rows: seq<StoredRow>, x: StoredRow, y: StoredRow)
    requires x.region == y.region && x.gdpBillion == y.gdpBillion
    ensures Rank(rows, x) == Rank(rows, y)
  {
  }

  lemma {:induction false} GreaterInRegionBelowSize(rows: seq<StoredRow>, x: StoredRow)
    requires x in rows
    ensures GreaterInRegion(rows, x.region, x.gdpBillion) + 1 <= RegionSize(rows, x.region)
    decreases |rows|
  {
    if rows[0] == x {
      GreaterInRegionAtMostSize(rows[1..], x.region, x.gdpBillion);
    } else {
      GreaterInRegionBelowSize(rows[1..], x);
    }
  }

  lemma {:induction false} GreaterInRegionAtMostSize(rows: seq<StoredRow>, region: string, gdp: real)
    ensures GreaterInRegion(rows, region, gdp) <= RegionSize(rows, region)
    decreases |rows|
  {
    if rows != [] {
      GreaterInRegionAtMostSize(rows[1..], region, gdp);
    }
  }

  /** A rank never exceeds the size of the region, so a region of at most `n` rows is kept whole. */
  lemma {:induction false} RankAtMostRegionSize(rows: seq<StoredRow>, x: StoredRow)
    requires x in rows
    ensures Rank(rows, x) <= RegionSize(rows, x.region)
  {
    GreaterInRegionBelowSize(rows, x);
  }

  /** A row of greatest GDP within its region. */
  function TopOfRegion(rows: seq<StoredRow>, region: string): (t: StoredRow)
    requires exists x :: x in rows && x.region == region
    ensures t in rows && t.region == region
    ensures forall x :: x in rows && x.region == region ==> x.gdpBillion <= t.gdpBillion
  {
    if rows[0].region == region &&
       (forall x :: x in rows[1..] && x.region == region ==> x.gdpBillion <= rows[0].gdpBillion)
    then rows[0]
    else
      assert exists x :: x in rows[1..] && x.region == region;
      TopOfRegion(rows[1..], region)
  }

  lemma {:induction false} GreaterThanTopIsZero(rows: seq<StoredRow>, region: string, top: real)
    requires forall x :: x in rows && x.region == region ==> x.gdpBillion <= top
    ensures GreaterInRegion(rows, region, top) == 0
    decreases |rows|
  {
    if rows != [] {
      assert rows[0] in rows;
      assert forall x :: x in rows[1..] ==> x in rows;
      GreaterThanTopIsZero(rows[1..], region, top);
    }
  }

  /** Every region of the table has a row of rank 1. */
  lemma {:induction false} RegionHasRankOne(rows: seq<StoredRow>, region: string)
    requires exists x :: x in rows && x.region == region
    ensures exists x :: x in rows && x.region == region && Rank(rows, x) == 1
  {
    var t := TopOfRegion(rows, region);
    GreaterThanTopIsZero(rows, region, t.gdpBillion);
  }

  /** Rows that all rank within the cutoff are all kept, in order. */
  lemma {:induction false} RankKeptAll(all: seq<StoredRow>, rows: seq<StoredRow>, n: int)
    requires forall x :: x in rows ==> Rank(all, x) <= n
    ensures RankKept(all, rows, n) == rows
    decreases |rows|
  {
    if rows != [] {
      assert rows[0] in rows;
      assert forall x :: x in rows[1..] ==> x in rows;
      RankKeptAll(all, rows[1..], n);
    }
  }

  /** Ties at the cutoff are all kept: three equal rows all rank 1, so `n = 1` keeps three. */
  lemma {:induction false} TiesExceedCutoff(a: StoredRow, b: StoredRow, c: StoredRow)
    requires a.region == b.region == c.region
    requires a.gdpBillion == b.gdpBillion == c.gdpBillion
    ensures RankKept([a, b, c], [a, b, c], 1) == [a, b, c]
  {
    var rows := [a, b, c];
    GreaterThanTopIsZero(rows, a.region, a.gdpBillion);
    assert Rank(rows, a) == 1 && Rank(rows, b) == 1 && Rank(rows, c) == 1;
    RankKeptAll(rows, rows, 1);
  }

  // ---------------------------------------------------------------------------------------
  // Grouping by region and ordering by mean
  // ---------------------------------------------------------------------------------------

  /** The distinct regions of the rows, in order of first appearance. */
  function Regions(rows: seq<StoredRow>): (r: seq<string>)
    ensures forall i, j :: 0 <= i < j < |r| ==> r[i] != r[j]
    ensures forall g :: g in r <==> exists x :: x in rows && x.region == g
  {
    if rows == [] then []
    else
      var rest := Regions(rows[1..]);
      assert forall x :: x in rows <==> x == rows[0] || x in rows[1..];
      if rows[0].region in rest then rest else [rows[0].region] + rest
  }

  function SumInRegion(rows: seq<StoredRow>, region: string): real {
    if rows == [] then 0.0
    else (if rows[0].region == region then rows[0].gdpBillion else 0.0) + SumInRegion(rows[1..], region)
  }

  /** `AVG(GDP_USD_billion)` of the rows of `region`. */
  function MeanInRegion(rows: seq<StoredRow>, region: string): real
    requires RegionSize(rows, region) > 0
  {
    SumInRegion(rows, region) / RegionSize(rows, region) as real
  }

  lemma {:induction false} RegionSizePositive(rows: seq<StoredRow>, region: string)
    requires exists x :: x in rows && x.region == region
    ensures RegionSize(rows, region) > 0
    decreases |rows|
  {
    if rows[0].region != region {
      var x :| x in rows && x.region == region;
      assert x in rows[1..];
      RegionSizePositive(rows[1..], region);
    }
  }

  /** One answer row per region of `kept`, in the order of `regions`. */
  function Groups(kept: seq<StoredRow>, regions: seq<string>): (r: seq<RegionMean>)
    requires forall g :: g in regions ==> exists x :: x in kept && x.region == g
    ensures |r| == |regions|
    ensures forall i :: 0 <= i < |r| ==> r[i].region == regions[i]
    ensures forall i :: 0 <= i < |r| ==>
      RegionSize(kept, regions[i]) > 0 && r[i].mean == MeanInRegion(kept, regions[i])
  {
    if regions == [] then []
    else
      assert regions[0] in regions;
      assert forall g :: g in regions[1..] ==> g in regions;
      RegionSizePositive(kept, regions[0]);
      [RegionMean(regions[0], MeanInRegion(kept, regions[0]))] + Groups(kept, regions[1..])
  }

  predicate SortedByMeanDesc(s: seq<RegionMean>) {
    forall i, j :: 0 <= i < j < |s| ==> s[i].mean >= s[j].mean
  }

  /** No region has two answer rows. */
  predicate DistinctRegions(s: seq<RegionMean>) {
    forall i, j :: 0 <= i < j < |s| ==> s[i].region != s[j].region
  }

  function InsertByMean(x: RegionMean, s: seq<RegionMean>): (r: seq<RegionMean>)
    requires SortedByMeanDesc(s)
    ensures SortedByMeanDesc(r)
    ensures multiset(r) == multiset(s) + multiset{x}
    ensures forall e :: e in r <==> e == x || e in s
    ensures |r| == |s| + 1
    ensures r[0] == x || (s != [] && r[0] == s[0])
  {
    if s == [] || s[0].mean <= x.mean then
      [x] + s
    else
      var rest := InsertByMean(x, s[1..]);
      InsertByMeanStep(x, s, rest);
      [s[0]] + rest
  }

  /** The recursive case of `InsertByMean`: the head stays in front of the insertion into the tail. */
  lemma {:induction false} InsertByMeanStep(x: RegionMean, s: seq<RegionMean>, rest: seq<RegionMean>)
    requires SortedByMeanDesc(s) && s != [] && s[0].mean > x.mean
    requires SortedByMeanDesc(rest) && |rest| == |s|
    requires multiset(rest) == multiset(s[1..]) + multiset{x}
    requires rest[0] == x || (|s| > 1 && rest[0] == s[1])
    ensures SortedByMeanDesc([s[0]] + rest)
    ensures multiset([s[0]] + rest) == multiset(s) + multiset{x}
    ensures forall e :: e in [s[0]] + rest <==> e == x || e in s
  {
    assert s == [s[0]] + s[1..];
    SortedByMeanCons(s[0], rest);
    forall e ensures e in [s[0]] + rest <==> e == x || e in s {
      assert e in rest <==> e in multiset(rest);
      assert e in s[1..] <==> e in multiset(s[1..]);
    }
  }

  /** An answer row no smaller than the head of a sorted list may go in front of it. */
  lemma {:induction false} SortedByMeanCons(h: RegionMean, s: seq<RegionMean>)
    requires SortedByMeanDesc(s)
    requires s == [] || h.mean >= s[0].mean
    ensures SortedByMeanDesc([h] + s)
  {
    var r := [h] + s;
    forall i, j | 0 <= i < j < |r| ensures r[i].mean >= r[j].mean {
      assert r[j] == s[j - 1];
      if i > 0 {
        assert r[i] == s[i - 1];
      }
    }
  }

  /** `ORDER BY Mean_GDP DESC`. */
  function SortByMeanDesc(s: seq<RegionMean>): (r: seq<RegionMean>)
    ensures SortedByMeanDesc(r)
    ensures multiset(r) == multiset(s)
    ensures forall e :: e in r <==> e in s
    ensures |r| == |s|
  {
    if s == [] then []
    else
      assert s == [s[0]] + s[1..];
      InsertByMean(s[0], SortByMeanDesc(s[1..]))
  }

  lemma {:induction false} InsertByMeanDistinct(x: RegionMean, s: seq<RegionMean>)
    requires SortedByMeanDesc(s) && DistinctRegions(s)
    requires forall e :: e in s ==> e.region != x.region
    ensures DistinctRegions(InsertByMean(x, s))
    decreases |s|
  {
    if s != [] && s[0].mean > x.mean {
      assert forall e :: e in s[1..] ==> e in s;
      assert DistinctRegions(s[1..]) by {
        forall i, j | 0 <= i < j < |s[1..]| ensures s[1..][i].region != s[1..][j].region {
          assert s[1..][i] == s[i + 1] && s[1..][j] == s[j + 1];
        }
      }
      InsertByMeanDistinct(x, s[1..]);
      var rest := InsertByMean(x, s[1..]);
      forall e | e in rest ensures e.region != s[0].region {
        if e != x {
          var k :| 0 <= k < |s[1..]| && s[1..][k] == e;
          assert e == s[k + 1];
        }
      }
      DistinctRegionsCons(s[0], rest);
    } else {
      DistinctRegionsCons(x, s);
    }
  }

  /** A row whose region is new may go in front of rows with distinct regions. */
  lemma {:induction false} DistinctRegionsCons(h: RegionMean, s: seq<RegionMean>)
    requires DistinctRegions(s)
    requires forall e :: e in s ==> e.region != h.region
    ensures DistinctRegions([h] + s)
  {
    var r := [h] + s;
    forall i, j | 0 <= i < j < |r| ensures r[i].region != r[j].region {
      assert r[j] == s[j - 1] && s[j - 1] in s;
      if i > 0 {
        assert r[i] == s[i - 1];
      }
    }
  }

  lemma {:induction false} SortByMeanDescDistinct(s: seq<RegionMean>)
    requires DistinctRegions(s)
    ensures DistinctRegions(SortByMeanDesc(s))
    decreases |s|
  {
    if s != [] {
      assert DistinctRegions(s[1..]) by {
        forall i, j | 0 <= i < j < |s[1..]| ensures s[1..][i].region != s[1..][j].region {
          assert s[1..][i] == s[i + 1] && s[1..][j] == s[j + 1];
        }
      }
      SortByMeanDescDistinct(s[1..]);
      forall e | e in SortByMeanDesc(s[1..]) ensures e.region != s[0].region {
        var k :| 0 <= k < |s[1..]| && s[1..][k] == e;
        assert e == s[k + 1];
      }
      InsertByMeanDistinct(s[0], SortByMeanDesc(s[1..]));
    }
  }

  /** The answer of the ranked query for cutoff `n`. */
  function TopNMeanByRegion(rows: seq<StoredRow>, n: int): (r: seq<RegionMean>)
    ensures SortedByMeanDesc(r)
    ensures |r| == |Regions(RankKept(rows, rows, n))|
  {
    var kept := RankKept(rows, rows, n);
    SortByMeanDesc(Groups(kept, Regions(kept)))
  }

  /**
    The ranked query's answer: sorted by mean, largest first, with no region twice; each mean
    is the mean GDP of that region's rows of rank at most `n`.
  */
  lemma {:induction false} TopNMeanByRegionSpec(rows: seq<StoredRow>, n: int)
    ensures SortedByMeanDesc(TopNMeanByRegion(rows, n))
    ensures DistinctRegions(TopNMeanByRegion(rows, n))
    ensures forall e :: e in TopNMeanByRegion(rows, n) ==>
      RegionSize(RankKept(rows, rows, n), e.region) > 0 &&
      e.mean == MeanInRegion(RankKept(rows, rows, n), e.region)
  {
    var kept := RankKept(rows, rows, n);
    var groups := Groups(kept, Regions(kept));
    SortByMeanDescDistinct(groups);
    forall e | e in TopNMeanByRegion(rows, n)
      ensures RegionSize(kept, e.region) > 0 && e.mean == MeanInRegion(kept, e.region)
    {
      assert e in groups;
    }
  }

  /** Every region of the answer has a row of rank at most `n`. */
  lemma {:induction false} TopNMeanByRegionFrom(rows: seq<StoredRow>, n: int, e: RegionMean)
    requires e in TopNMeanByRegion(rows, n)
    ensures exists x :: x in rows && x.region == e.region && Rank(rows, x) <= n
  {
    var kept := RankKept(rows, rows, n);
    var regions := Regions(kept);
    var groups := Groups(kept, regions);
    assert e in groups;
    var k :| 0 <= k < |groups| && groups[k] == e;
    assert regions[k] in regions;
    var x :| x in kept && x.region == regions[k];
    assert x in rows && Rank(rows, x) <= n;
  }

  /** Every row of rank at most `n` has its region in the answer. */
  lemma {:induction false} TopNMeanByRegionCovers(rows: seq<StoredRow>, n: int, x: StoredRow)
    requires x in rows && Rank(rows, x) <= n
    ensures exists e :: e in TopNMeanByRegion(rows, n) && e.region == x.region
  {
    var kept := RankKept(rows, rows, n);
    var regions := Regions(kept);
    var groups := Groups(kept, regions);
    assert x in kept;
    assert x.region in regions;
    var k :| 0 <= k < |regions| && regions[k] == x.region;
    assert groups[k] in groups;
    assert groups[k] in TopNMeanByRegion(rows, n);
  }

  /** With `n >= 1` every region of the table is in the answer of the ranked query. */
  lemma {:induction false} EveryRegionAnswered(rows: seq<StoredRow>, n: int, g: string)
    requires n >= 1
    requires exists x :: x in rows && x.region == g
    ensures exists e :: e in TopNMeanByRegion(rows, n) && e.region == g
  {
    RegionHasRankOne(rows, g);
    var x :| x in rows && x.region == g && Rank(rows, x) == 1;
    TopNMeanByRegionCovers(rows, n, x);
  }
}
