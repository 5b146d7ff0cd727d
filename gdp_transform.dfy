/**
  `transform_gdp_data` of the SQL pipeline: drop the "World" row and the rows with a missing
  GDP or year, remove `[word digits]` footnotes from the year, convert both columns, express
  GDP in billions, and sort by GDP, largest first.

  Each DataFrame step reads only the frame the previous step left, so the function is the
  composition of the steps. GDP is converted from millions to billions exactly: the rounding
  to two decimals is floating-point work the model leaves out.
*/
module GdpTransform {
  import opened Wrappers
  import opened Text

  /** A scraped table row: country, GDP (millions of US dollars) and year, as text. */
  datatype RawRow = RawRow(country: string, gdp: string, year: string)

  datatype CleanRecord = CleanRecord(country: string, gdpBillion: real, year: int)

  /** Which column conversion failed, with the offending cell. */
  datatype TransformError = GdpNotNumber(gdpText: string) | YearNotInteger(yearText: string)

  const WorldLabel: string := "World"

  /** The em dash the table uses for a missing figure. */
  const MissingMark: string := "—"

  // ---------------------------------------------------------------------------------------
  // Row filters
  // ---------------------------------------------------------------------------------------

  /** `df[df["Country"] != "World"]`: every other row, as often as it occurs. */
  function DropWorld(rows: seq<RawRow>): (r: seq<RawRow>)
    ensures |r| <= |rows|
    ensures forall x :: x in r <==> x in rows && x.country != WorldLabel
    ensures forall x :: multiset(r)[x] == if x.country != WorldLabel then multiset(rows)[x] else 0
  {
    if rows == [] then []
    else
      assert rows == [rows[0]] + rows[1..];
      if rows[0].country == WorldLabel then DropWorld(rows[1..])
      else [rows[0]] + DropWorld(rows[1..])
  }

  /** The world filter keeps the table order: it distributes over concatenation. */
  lemma {:induction false} DropWorldAppend(a: seq<RawRow>, b: seq<RawRow>)
    ensures DropWorld(a + b) == DropWorld(a) + DropWorld(b)
    decreases |a|
  {
    if a == [] {
      assert a + b == b;
    } else {
      assert (a + b)[1..] == a[1..] + b;
      DropWorldAppend(a[1..], b);
    }
  }

  /** Both the GDP and the year are given. */
  predicate HasFigures(x: RawRow) {
    x.gdp != MissingMark && x.year != MissingMark
  }

  /** `df[(df["GDP"] != "—") & (df["Year"] != "—")]`: every row with both figures. */
  function DropMissing(rows: seq<RawRow>): (r: seq<RawRow>)
    ensures |r| <= |rows|
    ensures forall x :: x in r <==> x in rows && x.gdp != MissingMark && x.year != MissingMark
    ensures forall x :: multiset(r)[x] == if HasFigures(x) then multiset(rows)[x] else 0
  {
    if rows == [] then []
    else
      assert rows == [rows[0]] + rows[1..];
      if rows[0].gdp == MissingMark || rows[0].year == MissingMark then DropMissing(rows[1..])
      else [rows[0]] + DropMissing(rows[1..])
  }

  /** The missing-figure filter keeps the table order. */
  lemma {:induction false} DropMissingAppend(a: seq<RawRow>, b: seq<RawRow>)
    ensures DropMissing(a + b) == DropMissing(a) + DropMissing(b)
    decreases |a|
  {
    if a == [] {
      assert a + b == b;
    } else {
      assert (a + b)[1..] == a[1..] + b;
      DropMissingAppend(a[1..], b);
    }
  }

  /** The rows both filters keep. */
  predicate Retained(x: RawRow) {
    x.country != WorldLabel && x.gdp != MissingMark && x.year != MissingMark
  }

  // ---------------------------------------------------------------------------------------
  // Footnotes in the year: `re.sub(r"\[\w+ \d+\]", "", x)`
  // ---------------------------------------------------------------------------------------

  /**
    The length of the footnote `[word digits]` at the start of `s`, when there is one. The
    word and the digits are maximal runs, since the characters that must follow them (a space,
    a closing bracket) are neither word characters nor digits.
  */
  function FootnoteLength(s: string): (k: Option<nat>)
    ensures k.Some? ==> 4 <= k.value <= |s| && s[0] == '[' && s[k.value - 1] == ']'
  {
    if s == [] || s[0] != '[' then None
    else
      var t := s[1..];
      var w := LeadingWordChars(t);
      if w == 0 || w == |t| || t[w] != ' ' then None
      else
        var u := t[w + 1..];
        var d := LeadingDigits(u);
        if d == 0 || d == |u| || u[d] != ']' then None
        else Some(w + d + 3)
  }

  /** Deletes the footnotes left to right, as a regular-expression substitution scans. */
  function RemoveFootnotes(s: string): (r: string)
    ensures |r| <= |s|
    decreases |s|
  {
    if s == [] then []
    else match FootnoteLength(s)
      case Some(k) => RemoveFootnotes(s[k..])
      case None => [s[0]] + RemoveFootnotes(s[1..])
  }

  /** The year text that `astype(int)` sees. */
  function CleanYear(year: string): (r: string)
    ensures |r| <= |year|
    ensures r == [] || (!IsSpace(r[0]) && !IsSpace(r[|r| - 1]))
  {
    Trim(RemoveFootnotes(year))
  }

  /** One step of `FootnoteLength`: a bracket, a word, a space, digits and a closing bracket. */
  lemma {:induction false} FootnoteLengthIs(s: string, w: nat, d: nat)
    requires |s| > 0 && s[0] == '['
    requires LeadingWordChars(s[1..]) == w && 0 < w < |s| - 1 && s[1..][w] == ' '
    requires LeadingDigits(s[1..][w + 1..]) == d && 0 < d < |s[1..][w + 1..]|
    requires s[1..][w + 1..][d] == ']'
    ensures FootnoteLength(s) == Some(w + d + 3)
  {
  }

  /** The parts of a footnote text after its opening bracket. */
  lemma {:induction false} FootnoteParts(w: string, d: string, rest: string)
    ensures var s := "[" + w + " " + d + "]" + rest;
      |s| == |w| + |d| + 3 + |rest| && s[0] == '[' &&
      s[1..] == w + (" " + (d + ("]" + rest))) && s[1..][|w| + 1..] == d + ("]" + rest)
  {
    var s := "[" + w + " " + d + "]" + rest;
    var u := d + ("]" + rest);
    assert s == "[" + (w + (" " + u));
    assert (w + (" " + u))[|w| + 1..] == u;
  }

  lemma {:induction false} FootnoteOf(w: string, d: string, rest: string)
    requires |w| > 0 && AllWordChars(w)
    requires |d| > 0 && AllDigits(d)
    ensures FootnoteLength("[" + w + " " + d + "]" + rest) == Some(|w| + |d| + 3)
  {
    var s := "[" + w + " " + d + "]" + rest;
    FootnoteParts(w, d, rest);
    LeadingWordCharsOf(w, " " + (d + ("]" + rest)));
    LeadingDigitsOf(d, "]" + rest);
    FootnoteLengthIs(s, |w|, |d|);
  }

  /** A footnote followed by more text is deleted and the scan goes on after it. */
  lemma {:induction false} RemoveFootnotesDeletes(w: string, d: string, rest: string)
    requires |w| > 0 && AllWordChars(w)
    requires |d| > 0 && AllDigits(d)
    ensures RemoveFootnotes("[" + w + " " + d + "]" + rest) == RemoveFootnotes(rest)
  {
    var s := "[" + w + " " + d + "]" + rest;
    FootnoteOf(w, d, rest);
    assert s[|w| + |d| + 3..] == rest;
  }

  /** Text without a `[` passes through unchanged. */
  lemma {:induction false} RemoveFootnotesUnchanged(s: string)
    requires forall i :: 0 <= i < |s| ==> s[i] != '['
    ensures RemoveFootnotes(s) == s
    decreases |s|
  {
    if s != [] {
      assert FootnoteLength(s).None?;
      RemoveFootnotesUnchanged(s[1..]);
    }
  }

  /** Text without a `[` in front of the rest passes through unchanged. */
  lemma {:induction false} RemoveFootnotesPrefix(p: string, t: string)
    requires forall i :: 0 <= i < |p| ==> p[i] != '['
    ensures RemoveFootnotes(p + t) == p + RemoveFootnotes(t)
    decreases |p|
  {
    if p == [] {
      assert p + t == t;
    } else {
      var s := p + t;
      assert s[0] == p[0] && s[1..] == p[1..] + t;
      assert FootnoteLength(s).None?;
      RemoveFootnotesPrefix(p[1..], t);
    }
  }

  /** A year followed by one footnote cleans to the year itself. */
  lemma {:induction false} CleanYearWithFootnote(y: string, w: string, d: string)
    requires y != [] && AllDigits(y)
    requires |w| > 0 && AllWordChars(w)
    requires |d| > 0 && AllDigits(d)
    ensures CleanYear(y + "[" + w + " " + d + "]") == y
  {
    var note := "[" + w + " " + d + "]";
    assert y + "[" + w + " " + d + "]" == y + (note + []);
    assert forall i :: 0 <= i < |y| ==> y[i] != '[' by {
      assert AllDigits(y);
    }
    RemoveFootnotesPrefix(y, note + []);
    RemoveFootnotesDeletes(w, d, []);
    assert RemoveFootnotes([]) == [];
    assert y + [] == y;
    TrimDigits(y);
  }

  /** `"2024[n 1]"` becomes the year 2024. */
  lemma {:induction false} YearFootnoteExample(y: string)
    requires y == "2024[n 1]"
    ensures ParseInt(CleanYear(y)) == Some(2024)
  {
    assert y == "2024" + "[" + "n" + " " + "1" + "]";
    CleanYearWithFootnote("2024", "n", "1");
    YearText("2024");
  }

  lemma {:induction false} YearText(s: string)
    requires s == "2024"
    ensures ParseInt(s) == Some(2024)
  {
    NatToString2024(s);
    assert IntToString(2024) == s;
    ParseIntRoundTrip(2024);
  }

  // ---------------------------------------------------------------------------------------
  // Column conversion and the whole transform
  // ---------------------------------------------------------------------------------------

  /** `cells[i]` does not convert and every cell before it does. */
  ghost predicate FirstFailure<T>(cells: seq<string>, parse: string -> Option<T>, i: int) {
    0 <= i < |cells| && parse(cells[i]).None? && forall j :: 0 <= j < i ==> parse(cells[j]).Some?
  }

  /**
    `astype` of a column: every cell converted, or the first cell that does not convert.
  */
  function ConvertColumn<T>(cells: seq<string>, parse: string -> Option<T>): (r: Result<seq<T>, string>)
    ensures r.Ok? <==> forall i :: 0 <= i < |cells| ==> parse(cells[i]).Some?
    ensures r.Ok? ==> |r.value| == |cells|
    ensures r.Ok? ==> forall i :: 0 <= i < |cells| ==> parse(cells[i]) == Some(r.value[i])
    ensures r.Err? ==> exists i :: FirstFailure(cells, parse, i) && cells[i] == r.error
  {
    if cells == [] then Ok([])
    else match parse(cells[0])
      case None => Err(cells[0])
      case Some(v) =>
        match ConvertColumn(cells[1..], parse)
        case Err(e) =>
          assert forall j :: 1 <= j < |cells| ==> cells[j] == cells[1..][j - 1];
          Err(e)
        case Ok(vs) =>
          assert forall j :: 1 <= j < |cells| ==> cells[j] == cells[1..][j - 1];
          Ok([v] + vs)
  }

  function GdpCells(rows: seq<RawRow>): (r: seq<string>)
    ensures |r| == |rows| && forall i :: 0 <= i < |rows| ==> r[i] == rows[i].gdp
  {
    seq(|rows|, i requires 0 <= i < |rows| => rows[i].gdp)
  }

  function YearCells(rows: seq<RawRow>): (r: seq<string>)
    ensures |r| == |rows| && forall i :: 0 <= i < |rows| ==> r[i] == CleanYear(rows[i].year)
  {
    seq(|rows|, i requires 0 <= i < |rows| => CleanYear(rows[i].year))
  }

  /** `gdp_df["GDP"].astype(float)`. */
  function GdpColumn(rows: seq<RawRow>): (r: Result<seq<real>, string>)
    ensures r.Ok? <==> forall i :: 0 <= i < |rows| ==> ParseDecimal(rows[i].gdp).Some?
    ensures r.Ok? ==> |r.value| == |rows|
    ensures r.Ok? ==> forall i :: 0 <= i < |rows| ==> ParseDecimal(rows[i].gdp) == Some(r.value[i])
    ensures r.Err? ==> exists i :: 0 <= i < |rows| && rows[i].gdp == r.error && ParseDecimal(r.error).None?
  {
    var cells := GdpCells(rows);
    var r := ConvertColumn(cells, ParseDecimal);
    assert r.Err? ==> exists i :: FirstFailure(cells, ParseDecimal, i) && cells[i] == r.error;
    r
  }

  /** `gdp_df["Year"].astype(int)`, on the cleaned years. */
  function YearColumn(rows: seq<RawRow>): (r: Result<seq<int>, string>)
    ensures r.Ok? <==> forall i :: 0 <= i < |rows| ==> ParseInt(CleanYear(rows[i].year)).Some?
    ensures r.Ok? ==> |r.value| == |rows|
    ensures r.Ok? ==> forall i :: 0 <= i < |rows| ==> ParseInt(CleanYear(rows[i].year)) == Some(r.value[i])
    ensures r.Err? ==> exists i :: 0 <= i < |rows| && CleanYear(rows[i].year) == r.error && ParseInt(r.error).None?
  {
    var cells := YearCells(rows);
    var r := ConvertColumn(cells, ParseInt);
    assert r.Err? ==> exists i :: FirstFailure(cells, ParseInt, i) && cells[i] == r.error;
    r
  }

  /** A retained row whose two cells convert, as the record it becomes. */
  function Normalize(x: RawRow): (r: Option<CleanRecord>)
    ensures r.Some? <==> ParseDecimal(x.gdp).Some? && ParseInt(CleanYear(x.year)).Some?
  {
    if ParseDecimal(x.gdp).Some? && ParseInt(CleanYear(x.year)).Some? then
      Some(CleanRecord(x.country, ParseDecimal(x.gdp).value / 1000.0, ParseInt(CleanYear(x.year)).value))
    else None
  }

  function Records(rows: seq<RawRow>, gdps: seq<real>, years: seq<int>): (r: seq<CleanRecord>)
    requires |gdps| == |rows| && |years| == |rows|
    ensures |r| == |rows|
    ensures forall i :: 0 <= i < |rows| ==> r[i] == CleanRecord(rows[i].country, gdps[i] / 1000.0, years[i])
  {
    seq(|rows|, i requires 0 <= i < |rows| => CleanRecord(rows[i].country, gdps[i] / 1000.0, years[i]))
  }

  predicate SortedByGdpDesc(s: seq<CleanRecord>) {
    forall i, j :: 0 <= i < j < |s| ==> s[i].gdpBillion >= s[j].gdpBillion
  }

  /** Inserts `x` into a list sorted by GDP, keeping it sorted. */
  function InsertByGdp(x: CleanRecord, s: seq<CleanRecord>): (r: seq<CleanRecord>)
    requires SortedByGdpDesc(s)
    ensures SortedByGdpDesc(r)
    ensures multiset(r) == multiset(s) + multiset{x}
    ensures |r| == |s| + 1
    ensures r[0] == x || (s != [] && r[0] == s[0])
  {
    if s == [] || s[0].gdpBillion <= x.gdpBillion then
      [x] + s
    else
      var rest := InsertByGdp(x, s[1..]);
      InsertByGdpStep(x, s, rest);
      [s[0]] + rest
  }

  /** The recursive case of `InsertByGdp`: the head stays in front of the insertion into the tail. */
  lemma {:induction false} InsertByGdpStep(x: CleanRecord, s: seq<CleanRecord>, rest: seq<CleanRecord>)
    requires SortedByGdpDesc(s) && s != [] && s[0].gdpBillion > x.gdpBillion
    requires SortedByGdpDesc(rest) && |rest| == |s|
    requires multiset(rest) == multiset(s[1..]) + multiset{x}
    requires rest[0] == x || (|s| > 1 && rest[0] == s[1])
    ensures SortedByGdpDesc([s[0]] + rest)
    ensures multiset([s[0]] + rest) == multiset(s) + multiset{x}
  {
    assert s == [s[0]] + s[1..];
    SortedByGdpCons(s[0], rest);
  }

  /** A record no smaller than the head of a sorted list may go in front of it. */
  lemma {:induction false} SortedByGdpCons(h: CleanRecord, s: seq<CleanRecord>)
    requires SortedByGdpDesc(s)
    requires s == [] || h.gdpBillion >= s[0].gdpBillion
    ensures SortedByGdpDesc([h] + s)
  {
    var r := [h] + s;
    forall i, j | 0 <= i < j < |r| ensures r[i].gdpBillion >= r[j].gdpBillion {
      assert r[j] == s[j - 1];
      if i > 0 {
        assert r[i] == s[i - 1];
      }
    }
  }

  /** `sort_values(by=["GDP"], ascending=False)`: the same records, largest GDP first. */
  function SortByGdpDesc(s: seq<CleanRecord>): (r: seq<CleanRecord>)
    ensures SortedByGdpDesc(r)
    ensures multiset(r) == multiset(s)
    ensures |r| == |s|
  {
    if s == [] then []
    else
      assert s == [s[0]] + s[1..];
      InsertByGdp(s[0], SortByGdpDesc(s[1..]))
  }

  /** The rows that reach the conversions, in table order. */
  function Kept(rows: seq<RawRow>): (r: seq<RawRow>)
    ensures forall x :: x in r <==> x in rows && Retained(x)
    ensures forall x :: multiset(r)[x] == if Retained(x) then multiset(rows)[x] else 0
  {
    DropMissing(DropWorld(rows))
  }

  /** The kept rows of two pieces of the table are the kept rows of the whole, in order. */
  lemma {:induction false} KeptAppend(a: seq<RawRow>, b: seq<RawRow>)
    ensures Kept(a + b) == Kept(a) + Kept(b)
  {
    DropWorldAppend(a, b);
    DropMissingAppend(DropWorld(a), DropWorld(b));
  }

  /** A single row is kept exactly when both filters retain it. */
  lemma {:induction false} KeptSingle(x: RawRow)
    ensures Kept([x]) == if Retained(x) then [x] else []
  {
    assert [x][1..] == [];
  }

  /** `transform_gdp_data`. The GDP column is converted, and can fail, before the year column. */
  function Transform(rows: seq<RawRow>): (r: Result<seq<CleanRecord>, TransformError>)
    ensures r.Ok? ==> SortedByGdpDesc(r.value) && |r.value| == |Kept(rows)|
  {
    var kept := Kept(rows);
    match GdpColumn(kept)
    case Err(g) => Err(GdpNotNumber(g))
    case Ok(gdps) =>
      match YearColumn(kept)
      case Err(y) => Err(YearNotInteger(y))
      case Ok(years) => Ok(SortByGdpDesc(Records(kept, gdps, years)))
  }

  // ---------------------------------------------------------------------------------------
  // What the transform promises
  // ---------------------------------------------------------------------------------------

  /** The transform succeeds exactly when every kept row's GDP and cleaned year convert. */
  lemma {:induction false} TransformSucceeds(rows: seq<RawRow>)
    ensures Transform(rows).Ok? <==> forall x :: x in Kept(rows) ==> Normalize(x).Some?
  {
    var kept := Kept(rows);
    if forall x :: x in kept ==> Normalize(x).Some? {
      AllConvert(kept);
    }
    if Transform(rows).Ok? {
      assert GdpColumn(kept).Ok? && YearColumn(kept).Ok?;
      ConvertedAll(kept);
    }
  }

  lemma {:induction false} AllConvert(kept: seq<RawRow>)
    requires forall x :: x in kept ==> Normalize(x).Some?
    ensures GdpColumn(kept).Ok? && YearColumn(kept).Ok?
  {
    forall i | 0 <= i < |kept| ensures ParseDecimal(kept[i].gdp).Some? {
      assert Normalize(kept[i]).Some?;
    }
    forall i | 0 <= i < |kept| ensures ParseInt(CleanYear(kept[i].year)).Some? {
      assert Normalize(kept[i]).Some?;
    }
  }

  lemma {:induction false} ConvertedAll(kept: seq<RawRow>)
    requires GdpColumn(kept).Ok? && YearColumn(kept).Ok?
    ensures forall x :: x in kept ==> Normalize(x).Some?
  {
    forall x | x in kept ensures Normalize(x).Some? {
      var i :| 0 <= i < |kept| && kept[i] == x;
      assert ParseDecimal(kept[i].gdp).Some?;
      assert ParseInt(CleanYear(kept[i].year)).Some?;
    }
  }

  /** A GDP failure names a kept row's GDP cell that does not convert. */
  lemma {:induction false} TransformGdpError(rows: seq<RawRow>)
    requires Transform(rows).Err? && Transform(rows).error.GdpNotNumber?
    ensures exists x :: x in Kept(rows) && x.gdp == Transform(rows).error.gdpText && ParseDecimal(x.gdp).None?
  {
    var kept := Kept(rows);
    var g := GdpColumn(kept);
    assert g.Err? && Transform(rows).error.gdpText == g.error;
    var i :| 0 <= i < |kept| && kept[i].gdp == g.error && ParseDecimal(g.error).None?;
    assert kept[i] in kept;
  }

  /** A year failure happens only when every GDP converted, and names a kept row's year. */
  lemma {:induction false} TransformYearError(rows: seq<RawRow>)
    requires Transform(rows).Err? && Transform(rows).error.YearNotInteger?
    ensures forall x :: x in Kept(rows) ==> ParseDecimal(x.gdp).Some?
    ensures exists x :: x in Kept(rows) && CleanYear(x.year) == Transform(rows).error.yearText
                      && ParseInt(CleanYear(x.year)).None?
  {
    var kept := Kept(rows);
    assert GdpColumn(kept).Ok?;
    forall x | x in kept ensures ParseDecimal(x.gdp).Some? {
      var i :| 0 <= i < |kept| && kept[i] == x;
    }
    var i :| 0 <= i < |kept| && CleanYear(kept[i].year) == YearColumn(kept).error
             && ParseInt(CleanYear(kept[i].year)).None?;
    assert kept[i] in kept;
  }

  /**
    On success: sorted by GDP, largest first, and exactly the kept rows, each normalized, in some
    order. So no "World" row and no row with a missing figure, and every country is kept as it is.
  */
  lemma {:induction false} TransformOk(rows: seq<RawRow>)
    requires Transform(rows).Ok?
    ensures SortedByGdpDesc(Transform(rows).value)
    ensures |Transform(rows).value| == |Kept(rows)|
    ensures multiset(Transform(rows).value) == multiset(NormalizedAll(Kept(rows)))
  {
    var kept := Kept(rows);
    var gdps := GdpColumn(kept).value;
    var years := YearColumn(kept).value;
    var recs := Records(kept, gdps, years);
    assert Transform(rows).value == SortByGdpDesc(recs);
    RecordsNormalized(kept, gdps, years);
  }

  /** Converted columns that agree with the conversions give each row's normalized record. */
  lemma {:induction false} RecordsNormalized(kept: seq<RawRow>, gdps: seq<real>, years: seq<int>)
    requires |gdps| == |kept| && |years| == |kept|
    requires forall i :: 0 <= i < |kept| ==> ParseDecimal(kept[i].gdp) == Some(gdps[i])
    requires forall i :: 0 <= i < |kept| ==> ParseInt(CleanYear(kept[i].year)) == Some(years[i])
    ensures Records(kept, gdps, years) == NormalizedAll(kept)
  {
    var recs := Records(kept, gdps, years);
    forall i | 0 <= i < |kept| ensures recs[i] == NormalizedAll(kept)[i] {
      assert ParseDecimal(kept[i].gdp) == Some(gdps[i]);
      assert ParseInt(CleanYear(kept[i].year)) == Some(years[i]);
    }
  }

  /** Each row normalized, for rows that all convert. */
  function NormalizedAll(rows: seq<RawRow>): (r: seq<CleanRecord>)
    ensures |r| == |rows|
    ensures forall i :: 0 <= i < |rows| && Normalize(rows[i]).Some? ==> r[i] == Normalize(rows[i]).value
  {
    seq(|rows|, i requires 0 <= i < |rows| =>
      match Normalize(rows[i])
      case Some(c) => c
      case None => CleanRecord(rows[i].country, 0.0, 0))
  }

  /** Every output record comes from a kept row with the same country; none is "World". */
  lemma {:induction false} TransformKeepsCountries(rows: seq<RawRow>, c: CleanRecord)
    requires Transform(rows).Ok? && c in Transform(rows).value
    ensures c.country != WorldLabel
    ensures exists x :: x in rows && Retained(x) && x.country == c.country && Normalize(x) == Some(c)
  {
    TransformOk(rows);
    TransformSucceeds(rows);
    var kept := Kept(rows);
    assert c in multiset(NormalizedAll(kept));
    var i :| 0 <= i < |kept| && NormalizedAll(kept)[i] == c;
    assert kept[i] in kept;
  }
}
