/**
  The region reference of the SQL pipeline (`get_region_info`) and the left merge that gives
  every GDP record its region (`load_gdp_data`).
*/
module GdpEnrich {
  import opened Wrappers
  import opened GdpTransform

  /** One reference entry: the common country name and its region. */
  datatype RegionEntry = RegionEntry(country: string, region: string)

  /** A record after the merge; the region is absent when no reference entry matched. */
  datatype EnrichedRecord = EnrichedRecord(record: CleanRecord, region: Option<string>)

  // ---------------------------------------------------------------------------------------
  // Alias correction
  // ---------------------------------------------------------------------------------------

  /** The reference name of a country, as the GDP table spells it. */
  function CorrectedName(name: string): (r: string)
    ensures r != "Czechia" && r != "Republic of the Congo" && r != "Timor-Leste"
    ensures r == name || r == "Czech Republic" || r == "Congo" || r == "East Timor"
  {
    if name == "Czechia" then "Czech Republic"
    else if name == "Republic of the Congo" then "Congo"
    else if name == "Timor-Leste" then "East Timor"
    else name
  }

  /** `region_df.loc[region_df["Country"] == from, "Country"] = to`. */
  function Rename(entries: seq<RegionEntry>, from: string, to: string): (r: seq<RegionEntry>)
    ensures |r| == |entries|
    ensures forall i :: 0 <= i < |entries| ==>
      r[i] == RegionEntry(if entries[i].country == from then to else entries[i].country, entries[i].region)
  {
    seq(|entries|, i requires 0 <= i < |entries| =>
      RegionEntry(if entries[i].country == from then to else entries[i].country, entries[i].region))
  }

  /** The three renamings, one after the other, as `get_region_info` applies them. */
  function CorrectAliases(entries: seq<RegionEntry>): (r: seq<RegionEntry>)
    ensures |r| == |entries|
    ensures forall i :: 0 <= i < |r| ==> r[i].region == entries[i].region
    ensures forall i :: 0 <= i < |r| ==>
      r[i].country != "Czechia" && r[i].country != "Republic of the Congo" && r[i].country != "Timor-Leste"
  {
    assert "Congo" != "Czechia" && "East Timor" != "Czechia" && "East Timor" != "Republic of the Congo";
    var a := Rename(entries, "Czechia", "Czech Republic");
    var b := Rename(a, "Republic of the Congo", "Congo");
    Rename(b, "Timor-Leste", "East Timor")
  }

  /**
    Applied one after the other, the renamings correct every name at once: no new name is the
    old name of a later renaming. Regions and order stay as they were.
  */
  lemma {:induction false} CorrectAliasesIsCorrectedName(entries: seq<RegionEntry>)
    ensures |CorrectAliases(entries)| == |entries|
    ensures forall i :: 0 <= i < |entries| ==>
      CorrectAliases(entries)[i] == RegionEntry(CorrectedName(entries[i].country), entries[i].region)
  {
    var a := Rename(entries, "Czechia", "Czech Republic");
    var b := Rename(a, "Republic of the Congo", "Congo");
    forall i | 0 <= i < |entries|
      ensures CorrectAliases(entries)[i] == RegionEntry(CorrectedName(entries[i].country), entries[i].region)
    {
      assert "Czech Republic" != "Republic of the Congo" && "Czech Republic" != "Timor-Leste";
      assert "Congo" != "Timor-Leste";
    }
  }

  /** No corrected name is corrected again. */
  lemma {:induction false} CorrectedNameIdempotent(name: string)
    ensures CorrectedName(CorrectedName(name)) == CorrectedName(name)
  {
    assert "Czech Republic" != "Czechia" && "Czech Republic" != "Republic of the Congo";
    assert "Czech Republic" != "Timor-Leste";
    assert "Congo" != "Czechia" && "Congo" != "Republic of the Congo" && "Congo" != "Timor-Leste";
    assert "East Timor" != "Czechia" && "East Timor" != "Republic of the Congo";
    assert "East Timor" != "Timor-Leste";
  }

  /** Correcting the reference twice is correcting it once. */
  lemma {:induction false} CorrectAliasesIdempotent(entries: seq<RegionEntry>)
    ensures CorrectAliases(CorrectAliases(entries)) == CorrectAliases(entries)
  {
    var once := CorrectAliases(entries);
    CorrectAliasesIsCorrectedName(entries);
    CorrectAliasesIsCorrectedName(once);
    forall i | 0 <= i < |once| ensures CorrectAliases(once)[i] == once[i] {
      CorrectedNameIdempotent(entries[i].country);
    }
  }

  /** Only the three listed names change. */
  lemma {:induction false} CorrectedNameIdentity(name: string)
    requires name != "Czechia" && name != "Republic of the Congo" && name != "Timor-Leste"
    ensures CorrectedName(name) == name
  {
  }

  // ---------------------------------------------------------------------------------------
  // Left merge on Country
  // ---------------------------------------------------------------------------------------

  predicate HasEntry(reference: seq<RegionEntry>, country: string) {
    exists j :: 0 <= j < |reference| && reference[j].country == country
  }

  /** The regions of the entries for `country`, in reference order. */
  function RegionsOf(reference: seq<RegionEntry>, country: string): (r: seq<string>)
    ensures |r| <= |reference|
    ensures r == [] <==> !HasEntry(reference, country)
    ensures forall g :: g in r <==> RegionEntry(country, g) in reference
  {
    if reference == [] then []
    else
      var rest := RegionsOf(reference[1..], country);
      assert forall j :: 1 <= j < |reference| ==> reference[j] == reference[1..][j - 1];
      assert HasEntry(reference, country) <==>
        reference[0].country == country || HasEntry(reference[1..], country);
      if reference[0].country == country then [reference[0].region] + rest else rest
  }

  /** The merged rows for one record: one per matching entry, or one without a region. */
  function JoinRecord(rec: CleanRecord, reference: seq<RegionEntry>): (r: seq<EnrichedRecord>)
    ensures |r| >= 1
    ensures forall e :: e in r ==> e.record == rec
    ensures !HasEntry(reference, rec.country) ==> r == [EnrichedRecord(rec, None)]
    ensures HasEntry(reference, rec.country) ==>
      forall e :: e in r ==> e.region.Some? && RegionEntry(rec.country, e.region.value) in reference
    ensures HasEntry(reference, rec.country) ==>
      |r| == |RegionsOf(reference, rec.country)| &&
      forall i :: 0 <= i < |r| ==> r[i] == EnrichedRecord(rec, Some(RegionsOf(reference, rec.country)[i]))
  {
    var regions := RegionsOf(reference, rec.country);
    if regions == [] then [EnrichedRecord(rec, None)]
    else seq(|regions|, i requires 0 <= i < |regions| => EnrichedRecord(rec, Some(regions[i])))
  }

  /** `pd.merge(left=gdp_df, right=region_df, on="Country", how="left")`. */
  function LeftJoin(records: seq<CleanRecord>, reference: seq<RegionEntry>): (r: seq<EnrichedRecord>)
    ensures |r| >= |records|
    ensures r == [] <==> records == []
  {
    if records == [] then []
    else JoinRecord(records[0], reference) + LeftJoin(records[1..], reference)
  }

  /** A merged row comes from a left record; its region is absent exactly when nothing matched. */
  lemma {:induction false} LeftJoinRows(records: seq<CleanRecord>, reference: seq<RegionEntry>, e: EnrichedRecord)
    requires e in LeftJoin(records, reference)
    ensures e.record in records
    ensures e.region.None? <==> !HasEntry(reference, e.record.country)
    ensures e.region.Some? ==> RegionEntry(e.record.country, e.region.value) in reference
    decreases |records|
  {
    if e !in JoinRecord(records[0], reference) {
      LeftJoinRows(records[1..], reference, e);
    }
  }

  /** Every left record survives the merge. */
  lemma {:induction false} LeftJoinKeeps(records: seq<CleanRecord>, reference: seq<RegionEntry>, rec: CleanRecord)
    requires rec in records
    ensures exists e :: e in LeftJoin(records, reference) && e.record == rec
    decreases |records|
  {
    var here := JoinRecord(records[0], reference);
    if records[0] == rec {
      assert here[0] in LeftJoin(records, reference);
    } else {
      LeftJoinKeeps(records[1..], reference, rec);
      var e :| e in LeftJoin(records[1..], reference) && e.record == rec;
      assert e in LeftJoin(records, reference);
    }
  }

  /** Every matching entry gives its record a merged row with that entry's region. */
  lemma {:induction false} LeftJoinComplete(records: seq<CleanRecord>, reference: seq<RegionEntry>,
                                            rec: CleanRecord, region: string)
    requires rec in records && RegionEntry(rec.country, region) in reference
    ensures EnrichedRecord(rec, Some(region)) in LeftJoin(records, reference)
    decreases |records|
  {
    if records[0] == rec {
      var regions := RegionsOf(reference, rec.country);
      assert region in regions;
      var i :| 0 <= i < |regions| && regions[i] == region;
      assert HasEntry(reference, rec.country);
      var here := JoinRecord(rec, reference);
      assert here[i] == EnrichedRecord(rec, Some(region));
      assert here[i] in LeftJoin(records, reference);
    } else {
      LeftJoinComplete(records[1..], reference, rec, region);
      var e := EnrichedRecord(rec, Some(region));
      assert e in LeftJoin(records[1..], reference);
      assert e in LeftJoin(records, reference);
    }
  }

  /** The merge keeps the left order: it is the concatenation of the records' blocks. */
  lemma {:induction false} LeftJoinAppend(a: seq<CleanRecord>, b: seq<CleanRecord>, reference: seq<RegionEntry>)
    ensures LeftJoin(a + b, reference) == LeftJoin(a, reference) + LeftJoin(b, reference)
    decreases |a|
  {
    if a == [] {
      assert a + b == b;
    } else {
      var here := JoinRecord(a[0], reference);
      assert (a + b)[0] == a[0] && (a + b)[1..] == a[1..] + b;
      assert LeftJoin(a + b, reference) == here + LeftJoin(a[1..] + b, reference);
      LeftJoinAppend(a[1..], b, reference);
      assert LeftJoin(a, reference) == here + LeftJoin(a[1..], reference);
      ConcatAssoc(here, LeftJoin(a[1..], reference), LeftJoin(b, reference));
    }
  }

  lemma ConcatAssoc(x: seq<EnrichedRecord>, y: seq<EnrichedRecord>, z: seq<EnrichedRecord>)
    ensures x + (y + z) == (x + y) + z
  {
  }

  /** Every country appears at most once in the reference. */
  predicate UniqueCountries(reference: seq<RegionEntry>) {
    forall i, j :: 0 <= i < j < |reference| ==> reference[i].country != reference[j].country
  }

  lemma {:induction false} RegionsOfUnique(reference: seq<RegionEntry>, country: string)
    requires UniqueCountries(reference)
    ensures |RegionsOf(reference, country)| <= 1
    decreases |reference|
  {
    if reference != [] {
      RegionsOfUnique(reference[1..], country);
      if reference[0].country == country {
        assert !HasEntry(reference[1..], country) by {
          forall j | 0 <= j < |reference[1..]| ensures reference[1..][j].country != country {
            assert reference[1..][j] == reference[j + 1];
          }
        }
      }
    }
  }

  /** With one entry per country, a record has exactly one merged row. */
  lemma {:induction false} JoinRecordSingle(rec: CleanRecord, reference: seq<RegionEntry>)
    requires UniqueCountries(reference)
    ensures |JoinRecord(rec, reference)| == 1 && JoinRecord(rec, reference)[0].record == rec
  {
    RegionsOfUnique(reference, rec.country);
    var here := JoinRecord(rec, reference);
    assert here[0] in here;
  }

  /** With one entry per country the merge is one to one: the same records, in the same order. */
  lemma {:induction false} LeftJoinOneToOne(records: seq<CleanRecord>, reference: seq<RegionEntry>)
    requires UniqueCountries(reference)
    ensures |LeftJoin(records, reference)| == |records|
    ensures forall i :: 0 <= i < |records| ==> LeftJoin(records, reference)[i].record == records[i]
    decreases |records|
  {
    if records != [] {
      JoinRecordSingle(records[0], reference);
      LeftJoinOneToOne(records[1..], reference);
      var here := JoinRecord(records[0], reference);
      var rest := LeftJoin(records[1..], reference);
      var r := LeftJoin(records, reference);
      assert r == here + rest;
      forall i | 0 <= i < |records| ensures r[i].record == records[i] {
        if i == 0 {
          assert r[0] == here[0];
        } else {
          assert r[i] == rest[i - 1];
          assert rest[i - 1].record == records[1..][i - 1];
        }
      }
    }
  }

  /** The Czech Republic finds the region the reference lists under Czechia. */
  lemma {:induction false} CzechiaJoins(rec: CleanRecord, region: string)
    requires rec.country == "Czech Republic"
    ensures LeftJoin([rec], CorrectAliases([RegionEntry("Czechia", region)]))
            == [EnrichedRecord(rec, Some(region))]
  {
    var reference := CorrectAliases([RegionEntry("Czechia", region)]);
    CorrectAliasesIsCorrectedName([RegionEntry("Czechia", region)]);
    assert reference == [RegionEntry("Czech Republic", region)];
    assert RegionsOf(reference, rec.country) == [region];
    assert LeftJoin([rec], reference) == JoinRecord(rec, reference) + LeftJoin([], reference);
  }
}
