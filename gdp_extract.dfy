/**
  The row loop of `extract_gdp_data` in the file pipeline: every table row is a list of cell
  texts; rows without cells are skipped, the "World" row and the rows whose IMF figure is the
  em dash are skipped, the year loses its bracketed notes, the GDP loses its thousands
  separators, and both are read with Python `int`. A failing `int` or a row with fewer than
  three cells raises, which ends the extraction.

  The loop is the method `ExtractGdpData`; the function `Extracted` is its specification, one
  row at a time, in the order the loop appends.
*/
module GdpExtract {
  import opened Wrappers
  import opened Text
  import GdpTransform

  /** One appended `[country, IMF_gdp, year]` entry; the GDP is in millions of US dollars. */
  datatype GdpRecord = GdpRecord(country: string, gdpMillions: int, year: int)

  /**
    Why the extraction stops: `gdp[1]` or `gdp[2]` of a row with one or two cells (IndexError),
    or an `int` that rejects the cleaned year or GDP text (ValueError).
  */
  datatype ExtractError =
    | MissingCell(cellCount: nat)
    | YearNotInteger(yearText: string)
    | GdpNotInteger(gdpText: string)

  /** What one row contributes. */
  datatype RowOutcome = Skipped | Parsed(record: GdpRecord) | Failed(error: ExtractError)

  // ---------------------------------------------------------------------------------------
  // Bracketed notes: `re.sub(r'\[.*?\]', '', year)`
  // ---------------------------------------------------------------------------------------

  /** No newline occurs before index `j` (`.` does not match a newline). */
  predicate LineUpTo(t: string, j: int) {
    forall i :: 0 <= i < j && i < |t| ==> t[i] != '\n'
  }

  /**
    The index of the `]` that ends the shortest `.*?\]` match at the start of `t`: the first
    `]`, provided no newline comes before it.
  */
  function CloserIndex(t: string): (k: Option<nat>)
    ensures k.Some? ==> k.value < |t| && t[k.value] == ']' && LineUpTo(t, k.value)
    ensures k.Some? ==> forall i :: 0 <= i < k.value ==> t[i] != ']'
    ensures k.None? ==> forall j :: 0 <= j < |t| && t[j] == ']' ==> !LineUpTo(t, j)
  {
    if t == [] then None
    else if t[0] == ']' then Some(0)
    else if t[0] == '\n' then None
    else
      match CloserIndex(t[1..])
      case None =>
        assert forall j :: 1 <= j < |t| ==> t[j] == t[1..][j - 1];
        None
      case Some(k) =>
        assert forall i :: 1 <= i < k + 1 ==> t[i] == t[1..][i - 1];
        Some(k + 1)
  }

  /** The length of the shortest bracketed note at the start of `s`, when there is one. */
  function NoteLength(s: string): (k: Option<nat>)
    ensures k.Some? ==> 2 <= k.value <= |s| && s[0] == '[' && s[k.value - 1] == ']'
  {
    if s == [] || s[0] != '[' then None
    else match CloserIndex(s[1..])
      case None => None
      case Some(j) => Some(j + 2)
  }

  /** Deletes the notes left to right, resuming after each match as the substitution does. */
  function RemoveBrackets(s: string): (r: string)
    ensures |r| <= |s|
    decreases |s|
  {
    if s == [] then []
    else match NoteLength(s)
      case Some(k) => RemoveBrackets(s[k..])
      case None => [s[0]] + RemoveBrackets(s[1..])
  }

  predicate NoOpenBracket(s: string) {
    forall i :: 0 <= i < |s| ==> s[i] != '['
  }

  /** Text without `[` comes through unchanged, and so does what follows it. */
  lemma {:induction false} RemoveBracketsPrefix(p: string, t: string)
    requires NoOpenBracket(p)
    ensures RemoveBrackets(p + t) == p + RemoveBrackets(t)
    decreases |p|
  {
    if p != [] {
      var s := p + t;
      assert s[0] == p[0] && s[1..] == p[1..] + t;
      assert p[0] != '[';
      assert NoteLength(s).None?;
      assert NoOpenBracket(p[1..]) by {
        assert forall i :: 0 <= i < |p| - 1 ==> p[1..][i] == p[i + 1];
      }
      calc {
        RemoveBrackets(s);
        [p[0]] + RemoveBrackets(p[1..] + t);
        { RemoveBracketsPrefix(p[1..], t); }
        [p[0]] + (p[1..] + RemoveBrackets(t));
        { ConsAppend(p[0], p[1..], RemoveBrackets(t)); }
        ([p[0]] + p[1..]) + RemoveBrackets(t);
        { SplitHead(p, []); }
        p + RemoveBrackets(t);
      }
    } else {
      assert p + t == t;
    }
  }

  /** A note on one line, without `]` inside, is deleted as a whole. */
  lemma {:induction false} RemoveBracketsNote(note: string, t: string)
    requires forall i :: 0 <= i < |note| ==> note[i] != ']' && note[i] != '\n'
    ensures RemoveBrackets("[" + note + "]" + t) == RemoveBrackets(t)
  {
    var s := "[" + note + "]" + t;
    var u := s[1..];
    assert u == note + ("]" + t);
    assert forall i :: 0 <= i < |note| ==> u[i] == note[i];
    assert u[|note|] == ']';
    assert LineUpTo(u, |note|);
    assert CloserIndex(u) == Some(|note|);
    assert NoteLength(s) == Some(|note| + 2);
    assert s[|note| + 2..] == t;
  }

  // ---------------------------------------------------------------------------------------
  // Thousands separators: `IMF_gdp.replace(',', '')`
  // ---------------------------------------------------------------------------------------

  function DeleteCommas(s: string): (r: string)
    ensures |r| <= |s|
    ensures forall i :: 0 <= i < |r| ==> r[i] != ','
  {
    if s == [] then []
    else if s[0] == ',' then DeleteCommas(s[1..])
    else [s[0]] + DeleteCommas(s[1..])
  }

  lemma {:induction false} DeleteCommasAppend(a: string, b: string)
    ensures DeleteCommas(a + b) == DeleteCommas(a) + DeleteCommas(b)
    decreases |a|
  {
    if a != [] {
      assert (a + b)[0] == a[0] && (a + b)[1..] == a[1..] + b;
      DeleteCommasAppend(a[1..], b);
      if a[0] != ',' {
        calc {
          DeleteCommas(a + b);
          [a[0]] + DeleteCommas(a[1..] + b);
          [a[0]] + (DeleteCommas(a[1..]) + DeleteCommas(b));
          { ConsAppend(a[0], DeleteCommas(a[1..]), DeleteCommas(b)); }
          ([a[0]] + DeleteCommas(a[1..])) + DeleteCommas(b);
        }
      }
    } else {
      assert a + b == b;
    }
  }

  lemma {:induction false} DeleteCommasOfDigits(s: string)
    requires AllDigits(s)
    ensures DeleteCommas(s) == s
    decreases |s|
  {
    if s != [] {
      assert IsDigit(s[0]);
      assert AllDigits(s[1..]) by {
        assert forall i :: 0 <= i < |s| - 1 ==> s[1..][i] == s[i + 1];
      }
      DeleteCommasOfDigits(s[1..]);
      SplitHead(s, []);
    }
  }

  /** Three digits, with leading zeros, for a group after a separator. */
  function Pad3(m: nat): (s: string)
    requires m < 1000
    ensures |s| == 3 && AllDigits(s)
  {
    [DigitChar(m / 100), DigitChar(m / 10 % 10), DigitChar(m % 10)]
  }

  /** How the GDP column writes a non-negative figure: digit groups of three between commas. */
  function GroupThousands(n: nat): (s: string)
    ensures |s| > 0
  {
    if n < 1000 then NatToString(n)
    else GroupThousands(n / 1000) + "," + Pad3(n % 1000)
  }

  lemma {:induction false} AllDigitsAppend(a: string, b: string)
    requires AllDigits(a) && AllDigits(b)
    ensures AllDigits(a + b)
  {
    forall i | 0 <= i < |a + b| ensures IsDigit((a + b)[i]) {
      if i >= |a| {
        assert (a + b)[i] == b[i - |a|];
      }
    }
  }

  lemma {:induction false} DigitsValueLast(s: string, c: char)
    requires AllDigits(s) && IsDigit(c)
    ensures AllDigits(s + [c])
    ensures DigitsValue(s + [c]) == DigitsValue(s) * 10 + DigitValue(c)
  {
    AllDigitsAppend(s, [c]);
    assert (s + [c])[..|s|] == s;
  }

  /** Appending one digit `d` multiplies by ten: the arithmetic step of `DigitsValueAppend`. */
  lemma {:induction false} ShiftDigit(x: int, p: int, y: int, d: int)
    ensures (x * p + y) * 10 + d == x * (10 * p) + (y * 10 + d)
  {
    assert (x * p) * 10 == x * (10 * p);
  }

  lemma {:induction false} Pow10Step(k: nat)
    requires k > 0
    ensures Pow10(k) == 10 * Pow10(k - 1)
  {
  }

  /** The value of digits followed by more digits. */
  lemma {:induction false} DigitsValueAppend(a: string, b: string)
    requires AllDigits(a) && AllDigits(b)
    ensures AllDigits(a + b)
    ensures DigitsValue(a + b) == DigitsValue(a) * Pow10(|b|) + DigitsValue(b)
    decreases |b|
  {
    AllDigitsAppend(a, b);
    if b == [] {
      assert a + b == a;
    } else {
      var b' := b[..|b| - 1];
      var c := b[|b| - 1];
      assert AllDigits(b') by {
        assert forall i :: 0 <= i < |b'| ==> b'[i] == b[i];
      }
      DigitsValueAppend(a, b');
      DigitsValueLast(a + b', c);
      assert a + b == (a + b') + [c];
      DigitsValueLast(b', c);
      assert b == b' + [c];
      Pow10Step(|b|);
      ShiftDigit(DigitsValue(a), Pow10(|b'|), DigitsValue(b'), DigitValue(c));
    }
  }

  lemma {:induction false} Pad3Value(m: nat)
    requires m < 1000
    ensures DigitsValue(Pad3(m)) == m
  {
    var c2, c1, c0 := DigitChar(m / 100), DigitChar(m / 10 % 10), DigitChar(m % 10);
    assert [c2] == [] + [c2] && Pad3(m) == [c2, c1] + [c0] && [c2, c1] == [c2] + [c1];
    DigitsValueLast([], c2);
    DigitsValueLast([c2], c1);
    DigitsValueLast([c2, c1], c0);
    ThreeDigits(m);
  }

  lemma {:induction false} ThreeDigits(m: nat)
    requires m < 1000
    ensures (m / 100 * 10 + m / 10 % 10) * 10 + m % 10 == m
  {
    var q := m / 10;
    assert m == q * 10 + m % 10;
    assert q / 10 == m / 100;
    assert q == q / 10 * 10 + q % 10;
  }

  /** Deleting the separators leaves the figure's decimal digits. */
  lemma {:induction false} DeleteCommasOfGrouped(n: nat)
    ensures AllDigits(DeleteCommas(GroupThousands(n)))
    ensures |DeleteCommas(GroupThousands(n))| > 0
    ensures DigitsValue(DeleteCommas(GroupThousands(n))) == n
    decreases n
  {
    if n < 1000 {
      DeleteCommasOfDigits(NatToString(n));
    } else {
      var a, p := GroupThousands(n / 1000), Pad3(n % 1000);
      DeleteCommasOfGrouped(n / 1000);
      DeleteCommasAppend(a + ",", p);
      DeleteCommasAppend(a, ",");
      assert DeleteCommas(",") == [];
      DeleteCommasOfDigits(p);
      var d := DeleteCommas(a);
      assert DeleteCommas(GroupThousands(n)) == d + p;
      DigitsValueAppend(d, p);
      Pad3Value(n % 1000);
      assert Pow10(3) == 1000;
    }
  }

  /** `int(x.replace(',', ''))` recovers every figure written with thousands separators. */
  lemma {:induction false} GdpTextRoundTrip(n: nat)
    ensures ParseInt(DeleteCommas(GroupThousands(n))) == Some(n)
  {
    var d := DeleteCommas(GroupThousands(n));
    DeleteCommasOfGrouped(n);
    TrimDigits(d);
    assert IsDigit(d[0]);
  }

  // ---------------------------------------------------------------------------------------
  // One row
  // ---------------------------------------------------------------------------------------

  /** The loop body for one row: skip, append one record, or raise. */
  function ParseRow(cells: seq<string>): (r: RowOutcome)
    ensures r.Parsed? ==> |cells| >= 3 && r.record.country == Trim(cells[0])
    ensures r.Parsed? ==> r.record.country != GdpTransform.WorldLabel
    ensures r.Parsed? ==> ParseInt(DeleteCommas(Trim(cells[1]))) == Some(r.record.gdpMillions)
    ensures r.Parsed? ==> ParseInt(RemoveBrackets(Trim(cells[2]))) == Some(r.record.year)
    ensures r.Failed? && r.error.MissingCell? <==> 0 < |cells| < 3
  {
    if |cells| == 0 then Skipped
    else if |cells| < 3 then Failed(MissingCell(|cells|))
    else
      var country, gdp, year := Trim(cells[0]), Trim(cells[1]), Trim(cells[2]);
      if country == GdpTransform.WorldLabel || gdp == GdpTransform.MissingMark then Skipped
      else match ParseInt(RemoveBrackets(year))
        case None => Failed(YearNotInteger(year))
        case Some(y) =>
          match ParseInt(DeleteCommas(gdp))
          case None => Failed(GdpNotInteger(gdp))
          case Some(g) => Parsed(GdpRecord(country, g, y))
  }

  /** A row with three cells that pass the filters and both parses gives their record. */
  lemma {:induction false} ParseRowAccepts(cells: seq<string>, rec: GdpRecord)
    requires |cells| >= 3 && rec.country == Trim(cells[0])
    requires rec.country != GdpTransform.WorldLabel
    requires Trim(cells[1]) != GdpTransform.MissingMark
    requires ParseInt(DeleteCommas(Trim(cells[1]))) == Some(rec.gdpMillions)
    requires ParseInt(RemoveBrackets(Trim(cells[2]))) == Some(rec.year)
    ensures ParseRow(cells) == Parsed(rec)
  {
  }

  /** Exactly the rows without cells, the World row and the rows without a figure are skipped. */
  lemma {:induction false} ParseRowSkips(cells: seq<string>)
    ensures ParseRow(cells).Skipped? <==>
      cells == [] ||
      (|cells| >= 3 &&
       (Trim(cells[0]) == GdpTransform.WorldLabel || Trim(cells[1]) == GdpTransform.MissingMark))
  {
  }

  /** A missing year is not filtered: the em dash reaches `int` and the extraction raises. */
  lemma {:induction false} DashYearFails(cells: seq<string>)
    requires |cells| >= 3
    requires Trim(cells[0]) != GdpTransform.WorldLabel
    requires Trim(cells[1]) != GdpTransform.MissingMark
    requires Trim(cells[2]) == GdpTransform.MissingMark
    ensures ParseRow(cells) == Failed(YearNotInteger(GdpTransform.MissingMark))
  {
    DashIsNotYear(GdpTransform.MissingMark);
  }

  lemma {:induction false} DashIsNotYear(m: string)
    requires m == "—"
    ensures RemoveBrackets(m) == m && ParseInt(m).None?
  {
    assert NoOpenBracket(m + []);
    RemoveBracketsPrefix(m, []);
    assert m + [] == m;
    assert !IsSpace(m[0]);
    TrimUnchanged(m);
  }

  /** `"2,500"` is the figure 2500. */
  lemma {:induction false} GdpCommaExample(s: string)
    requires s == "2,500"
    ensures ParseInt(DeleteCommas(s)) == Some(2500)
  {
    assert Pad3(500) == "500";
    assert NatToString(2) == "2";
    assert GroupThousands(2500) == "2" + "," + "500";
    GdpTextRoundTrip(2500);
  }

  /** A year followed by a note on the same line reads as the year. */
  lemma {:induction false} YearWithNote(year: nat, note: string)
    requires forall i :: 0 <= i < |note| ==> note[i] != ']' && note[i] != '\n'
    ensures ParseInt(RemoveBrackets(NatToString(year) + "[" + note + "]")) == Some(year)
  {
    var y := NatToString(year);
    var tail := "[" + note + "]" + [];
    assert NoOpenBracket(y) by {
      assert forall i :: 0 <= i < |y| ==> IsDigit(y[i]);
    }
    calc {
      RemoveBrackets(y + "[" + note + "]");
      { assert y + "[" + note + "]" == y + tail; }
      RemoveBrackets(y + tail);
      { RemoveBracketsPrefix(y, tail); }
      y + RemoveBrackets(tail);
      { RemoveBracketsNote(note, []); }
      y + RemoveBrackets([]);
      y;
    }
    assert IntToString(year) == y;
    ParseIntRoundTrip(year);
  }

  /** `"2024[d 1]"` is the year 2024. */
  lemma {:induction false} YearNoteExample(s: string)
    requires s == "2024[d 1]"
    ensures ParseInt(RemoveBrackets(s)) == Some(2024)
  {
    NatToString2024("2024");
    assert s == NatToString(2024) + "[" + "d 1" + "]";
    YearWithNote(2024, "d 1");
  }

  // ---------------------------------------------------------------------------------------
  // The loop
  // ---------------------------------------------------------------------------------------

  /** The outcome of every row, in table order. */
  function Outcomes(rows: seq<seq<string>>): (r: seq<RowOutcome>)
    ensures |r| == |rows|
    ensures forall i :: 0 <= i < |rows| ==> r[i] == ParseRow(rows[i])
  {
    seq(|rows|, i requires 0 <= i < |rows| => ParseRow(rows[i]))
  }

  /**
    What the loop makes of a run of row outcomes: the records appended so far, or the error of
    the first row that raised.
  */
  function Collect(outs: seq<RowOutcome>): (r: Result<seq<GdpRecord>, ExtractError>)
    ensures r.Ok? ==> |r.value| <= |outs|
  {
    if outs == [] then Ok([])
    else match Collect(outs[..|outs| - 1])
      case Err(e) => Err(e)
      case Ok(data) =>
        match outs[|outs| - 1]
        case Skipped => Ok(data)
        case Failed(e) => Err(e)
        case Parsed(x) => Ok(data + [x])
  }

  /** The result of the loop over the whole table. */
  function Extracted(rows: seq<seq<string>>): (r: Result<seq<GdpRecord>, ExtractError>)
    ensures r.Ok? ==> |r.value| <= |rows|
  {
    Collect(Outcomes(rows))
  }

  /** Once a row has raised, later rows change nothing. */
  lemma {:induction false} CollectStops(outs: seq<RowOutcome>, k: nat)
    requires k <= |outs| && Collect(outs[..k]).Err?
    ensures Collect(outs) == Collect(outs[..k])
    decreases |outs| - k
  {
    if k < |outs| {
      var next := outs[..k + 1];
      assert next[..k] == outs[..k];
      assert Collect(next) == Collect(outs[..k]);
      CollectStops(outs, k + 1);
    } else {
      assert outs[..k] == outs;
    }
  }

  /** The loop goes past a skipped row. */
  lemma {:induction false} CollectSkipStep(outs: seq<RowOutcome>, n: nat)
    requires n < |outs| && Collect(outs[..n]).Ok? && outs[n] == Skipped
    ensures Collect(outs[..n + 1]) == Collect(outs[..n])
  {
    assert outs[..n + 1][..n] == outs[..n];
  }

  /** The loop appends the record of a row that parses. */
  lemma {:induction false} CollectParsedStep(outs: seq<RowOutcome>, n: nat, x: GdpRecord)
    requires n < |outs| && Collect(outs[..n]).Ok? && outs[n] == Parsed(x)
    ensures Collect(outs[..n + 1]) == Ok(Collect(outs[..n]).value + [x])
  {
    assert outs[..n + 1][..n] == outs[..n];
  }

  /** The loop ends with the error of a row that raises. */
  lemma {:induction false} CollectFailStep(outs: seq<RowOutcome>, n: nat, e: ExtractError)
    requires n < |outs| && Collect(outs[..n]).Ok? && outs[n] == Failed(e)
    ensures Collect(outs) == Err(e)
  {
    assert outs[..n + 1][..n] == outs[..n];
    CollectStops(outs, n + 1);
  }

  /** `extract_gdp_data` from line 30 on, over the cell texts of the table's rows. */
  method ExtractGdpData(rows: seq<seq<string>>) returns (r: Result<seq<GdpRecord>, ExtractError>)
    ensures r == Extracted(rows)
  {
    ghost var outs := Outcomes(rows);
    var data: seq<GdpRecord> := [];
    for n := 0 to |rows|
      invariant Collect(outs[..n]) == Ok(data)
    {
      var gdp := rows[n];
      assert outs[n] == ParseRow(gdp);
      if |gdp| == 0 {
        CollectSkipStep(outs, n);
        continue;
      }
      if |gdp| < 3 {
        r := Err(MissingCell(|gdp|));
        CollectFailStep(outs, n, r.error);
        return;
      }
      var country := Trim(gdp[0]);
      var imfGdp := Trim(gdp[1]);
      var year := Trim(gdp[2]);
      if country == GdpTransform.WorldLabel || imfGdp == GdpTransform.MissingMark {
        CollectSkipStep(outs, n);
        continue;
      }
      var yearValue := ParseInt(RemoveBrackets(year));
      if yearValue.None? {
        r := Err(YearNotInteger(year));
        CollectFailStep(outs, n, r.error);
        return;
      }
      var gdpValue := ParseInt(DeleteCommas(imfGdp));
      if gdpValue.None? {
        r := Err(GdpNotInteger(imfGdp));
        CollectFailStep(outs, n, r.error);
        return;
      }
      CollectParsedStep(outs, n, GdpRecord(country, gdpValue.value, yearValue.value));
      data := data + [GdpRecord(country, gdpValue.value, yearValue.value)];
    }
    assert outs[..|rows|] == outs;
    r := Ok(data);
  }

  // ---------------------------------------------------------------------------------------
  // The loop against the list it builds
  // ---------------------------------------------------------------------------------------

  /** The records of the rows that parse, in row order: `[rec for row in rows if ...]`. */
  function Emitted(outs: seq<RowOutcome>): (r: seq<GdpRecord>)
    ensures |r| <= |outs|
  {
    if outs == [] then []
    else (if outs[0].Parsed? then [outs[0].record] else []) + Emitted(outs[1..])
  }

  /** Some row raises. */
  predicate AnyFails(outs: seq<RowOutcome>) {
    exists i :: 0 <= i < |outs| && outs[i].Failed?
  }

  lemma {:induction false} EmittedSnoc(outs: seq<RowOutcome>, o: RowOutcome)
    ensures Emitted(outs + [o]) == Emitted(outs) + (if o.Parsed? then [o.record] else [])
    decreases |outs|
  {
    if outs == [] {
      assert Emitted([o][1..]) == [];
    } else {
      assert (outs + [o])[0] == outs[0] && (outs + [o])[1..] == outs[1..] + [o];
      EmittedSnoc(outs[1..], o);
      var here := if outs[0].Parsed? then [outs[0].record] else [];
      AppendAssoc3(here, Emitted(outs[1..]), if o.Parsed? then [o.record] else []);
    }
  }

  /** The records of a concatenation are those of each part, in order. */
  lemma {:induction false} EmittedAppend(a: seq<RowOutcome>, b: seq<RowOutcome>)
    ensures Emitted(a + b) == Emitted(a) + Emitted(b)
    decreases |a|
  {
    if a != [] {
      assert (a + b)[0] == a[0] && (a + b)[1..] == a[1..] + b;
      EmittedAppend(a[1..], b);
      var here := if a[0].Parsed? then [a[0].record] else [];
      AppendAssoc3(here, Emitted(a[1..]), Emitted(b));
    } else {
      assert a + b == b;
    }
  }

  /**
    The loop succeeds exactly when no row raises, and then returns one record for every row
    that parses, in row order.
  */
  lemma {:induction false} CollectIsEmitted(outs: seq<RowOutcome>)
    ensures Collect(outs).Ok? <==> !AnyFails(outs)
    ensures Collect(outs).Ok? ==> Collect(outs).value == Emitted(outs)
    decreases |outs|
  {
    if outs != [] {
      var init, o := outs[..|outs| - 1], outs[|outs| - 1];
      assert outs == init + [o];
      CollectIsEmitted(init);
      EmittedSnoc(init, o);
      if AnyFails(init) {
        var i :| 0 <= i < |init| && init[i].Failed?;
        assert outs[i] == init[i];
      }
      if AnyFails(outs) && !AnyFails(init) {
        var i :| 0 <= i < |outs| && outs[i].Failed?;
        assert i == |init|;
      }
    }
  }

  /** The error is that of the first row that raises. */
  lemma {:induction false} CollectErrorIsFirst(outs: seq<RowOutcome>)
    requires Collect(outs).Err?
    ensures exists i :: (0 <= i < |outs| && outs[i] == Failed(Collect(outs).error)
                         && !AnyFails(outs[..i]))
    decreases |outs|
  {
    var init := outs[..|outs| - 1];
    if Collect(init).Err? {
      CollectErrorIsFirst(init);
      var i :| 0 <= i < |init| && init[i] == Failed(Collect(init).error) && !AnyFails(init[..i]);
      assert outs[i] == init[i] && outs[..i] == init[..i];
    } else {
      CollectIsEmitted(init);
    }
  }

  /** A skipped row, wherever it stands, changes nothing. */
  lemma {:induction false} CollectSkipped(a: seq<RowOutcome>, b: seq<RowOutcome>)
    ensures Collect(a + [Skipped] + b) == Collect(a + b)
    decreases |b|
  {
    var s, t := a + [Skipped] + b, a + b;
    if b == [] {
      assert s[..|s| - 1] == a && s[|s| - 1] == Skipped;
      assert t == a;
    } else {
      CollectSkipped(a, b[..|b| - 1]);
      assert s[..|s| - 1] == a + [Skipped] + b[..|b| - 1] && s[|s| - 1] == b[|b| - 1];
      assert t[..|t| - 1] == a + b[..|b| - 1] && t[|t| - 1] == b[|b| - 1];
    }
  }

  lemma {:induction false} OutcomesAppend(a: seq<seq<string>>, b: seq<seq<string>>)
    ensures Outcomes(a + b) == Outcomes(a) + Outcomes(b)
  {
    var s := a + b;
    forall i | 0 <= i < |s| ensures Outcomes(s)[i] == (Outcomes(a) + Outcomes(b))[i] {
      if i >= |a| { assert s[i] == b[i - |a|]; }
    }
  }

  /** Removing a row that the loop skips leaves the extraction as it was. */
  lemma {:induction false} SkippedRowIgnored(a: seq<seq<string>>, x: seq<string>, b: seq<seq<string>>)
    requires ParseRow(x).Skipped?
    ensures Extracted(a + [x] + b) == Extracted(a + b)
  {
    OutcomesAppend(a + [x], b);
    OutcomesAppend(a, [x]);
    OutcomesAppend(a, b);
    assert Outcomes([x]) == [Skipped];
    CollectSkipped(Outcomes(a), Outcomes(b));
  }

  /** Every record comes from a row that parses to it. */
  lemma {:induction false} ExtractedFromRows(rows: seq<seq<string>>, x: GdpRecord)
    requires Extracted(rows).Ok? && x in Extracted(rows).value
    ensures exists i :: 0 <= i < |rows| && ParseRow(rows[i]) == Parsed(x)
  {
    CollectIsEmitted(Outcomes(rows));
    EmittedFrom(Outcomes(rows), x);
  }

  lemma {:induction false} EmittedFrom(outs: seq<RowOutcome>, x: GdpRecord)
    requires x in Emitted(outs)
    ensures exists i :: 0 <= i < |outs| && outs[i] == Parsed(x)
    decreases |outs|
  {
    if !(outs[0].Parsed? && x == outs[0].record) {
      EmittedFrom(outs[1..], x);
      var i :| 0 <= i < |outs[1..]| && outs[1..][i] == Parsed(x);
      assert outs[i + 1] == outs[1..][i];
    }
  }

  lemma {:induction false} WorldRowSkipped(cells: seq<string>)
    requires cells == ["World", "110,000,000", "2024"]
    ensures ParseRow(cells) == Skipped
  {
    TrimUnchanged("World");
  }

  lemma {:induction false} DashRowSkipped(cells: seq<string>)
    requires cells == ["Syria", "—", "—"]
    ensures ParseRow(cells) == Skipped
  {
    TrimUnchanged("—");
    assert cells[1] == GdpTransform.MissingMark;
  }

  lemma {:induction false} CountryRowParsed(cells: seq<string>)
    requires cells == ["United States", "2,500", "2024[d 1]"]
    ensures ParseRow(cells) == Parsed(GdpRecord("United States", 2500, 2024))
  {
    CountryCellsTrimmed(cells);
    GdpCommaExample(Trim(cells[1]));
    YearNoteExample(Trim(cells[2]));
    ParseRowAccepts(cells, GdpRecord("United States", 2500, 2024));
  }

  lemma {:induction false} CountryCellsTrimmed(cells: seq<string>)
    requires cells == ["United States", "2,500", "2024[d 1]"]
    ensures Trim(cells[0]) == "United States" && Trim(cells[1]) == "2,500"
    ensures Trim(cells[2]) == "2024[d 1]"
  {
    TrimUnchanged("United States");
    TrimUnchanged("2,500");
    TrimUnchanged("2024[d 1]");
  }

  /** A small table: a row without cells, the World row, one country and a row without a figure. */
  lemma {:induction false} TableExample(header: seq<string>, world: seq<string>, us: seq<string>, nd: seq<string>)
    requires header == [] && world == ["World", "110,000,000", "2024"]
    requires us == ["United States", "2,500", "2024[d 1]"] && nd == ["Syria", "—", "—"]
    ensures Extracted([header, world, us, nd]) == Ok([GdpRecord("United States", 2500, 2024)])
  {
    WorldRowSkipped(world);
    CountryRowParsed(us);
    DashRowSkipped(nd);
    var rows := [header, world, us, nd];
    OutcomesOf4(header, world, us, nd);
    FourOutcomes(Outcomes(rows), GdpRecord("United States", 2500, 2024));
  }

  lemma {:induction false} OutcomesOf4(r0: seq<string>, r1: seq<string>, r2: seq<string>, r3: seq<string>)
    ensures Outcomes([r0, r1, r2, r3]) == [ParseRow(r0), ParseRow(r1), ParseRow(r2), ParseRow(r3)]
  {
  }

  /** Three skipped rows around one that parses give that one record. */
  lemma {:induction false} FourOutcomes(outs: seq<RowOutcome>, rec: GdpRecord)
    requires outs == [Skipped, Skipped, Parsed(rec), Skipped]
    ensures Collect(outs) == Ok([rec])
  {
    var o1, o2, o3 := [Skipped], [Skipped, Skipped], [Skipped, Skipped, Parsed(rec)];
    assert o1[..0] == [];
    assert Collect(o1) == Ok([]);
    assert o2[..1] == o1;
    assert Collect(o2) == Ok([]);
    assert o3[..2] == o2;
    assert Collect(o3) == Ok([] + [rec]);
    assert outs[..3] == o3;
    assert [] + [rec] == [rec];
  }
}
