/** The TIGER/Line catalog of import_tiger_nhgis.py: how a geography table
    is described and named, where its shapefiles are downloaded from, the
    per-year list of tables, the list of state FIPS codes, and the loop that
    loads each state's shapefile unless its rows are already present. */
module Tiger {
  import opened Common
  import opened Text
  import opened Identifiers

  /** A GeographyTable: the fields __init__ assigns. */
  datatype GeographyTable = GeographyTable(levelName: string, year: int, downloadSubdir: string,
                                           downloadByState: bool, geoidColumnName: string)

  /** GeographyTable.__init__, its keyword defaults included: an absent
      download_subdir becomes the upper-cased level name. */
  function NewGeographyTable(levelName: string, year: int, downloadSubdir: Option<string> := None,
                             downloadByState: bool := true, geoidColumnName: string := "geoid"): (t: GeographyTable)
    ensures t.levelName == levelName && t.year == year
    ensures t.downloadByState == downloadByState && t.geoidColumnName == geoidColumnName
    ensures downloadSubdir.Some? ==> t.downloadSubdir == downloadSubdir.value
    ensures downloadSubdir.None? ==>
      |t.downloadSubdir| == |levelName| && forall i :: 0 <= i < |levelName| ==> t.downloadSubdir[i] == UpperChar(levelName[i])
  {
    GeographyTable(levelName, year, if downloadSubdir.None? then Upper(levelName) else downloadSubdir.value,
                   downloadByState, geoidColumnName)
  }

  /** geography_name: tl_{year}_{fips}_{level}. When neither the FIPS code
      nor the level holds a '_', splitting the name at '_' gives back its
      four parts. */
  function GeographyName(t: GeographyTable, stateFips: string): (r: string)
    ensures '_' !in stateFips && '_' !in t.levelName ==> Split(r, '_') == ["tl", Decimal(t.year), stateFips, t.levelName]
  {
    var r := "tl_" + Decimal(t.year) + "_" + stateFips + "_" + t.levelName;
    if '_' !in stateFips && '_' !in t.levelName then
      NameSplit(Decimal(t.year), stateFips, t.levelName);
      r
    else
      r
  }

  lemma NameSplit(year: string, fips: string, level: string)
    requires '_' !in year && '_' !in fips && '_' !in level
    ensures Split("tl_" + year + "_" + fips + "_" + level, '_') == ["tl", year, fips, level]
  {
    SplitFree("tl", '_');
    assert "tl_" + year == "tl" + ['_'] + year;
    SplitAppend("tl", year, '_');
    assert "tl_" + year + "_" + fips == ("tl_" + year) + ['_'] + fips;
    SplitAppend("tl_" + year, fips, '_');
    assert "tl_" + year + "_" + fips + "_" + level == ("tl_" + year + "_" + fips) + ['_'] + level;
    SplitAppend("tl_" + year + "_" + fips, level, '_');
  }

  /** geography_table_name: tiger_wgs84.tl_{year}_{level}, which
      get_schema and get_table_name read as schema tiger_wgs84 and table
      tl_{year}_{level} whenever the level has no '.'. */
  function GeographyTableName(t: GeographyTable): (r: string)
    ensures '.' !in t.levelName ==>
      && GetSchema(r) == "tiger_wgs84"
      && GetTableName(r) == "tl_" + Decimal(t.year) + "_" + t.levelName
    ensures r == "tiger_wgs84.tl_" + Decimal(t.year) + "_" + t.levelName
  {
    var table := "tl_" + Decimal(t.year) + "_" + t.levelName;
    if '.' !in t.levelName then
      TableNameParts(table, t.year, t.levelName);
      "tiger_wgs84." + table
    else
      "tiger_wgs84." + table
  }

  lemma TableNameParts(table: string, year: int, level: string)
    requires '.' !in level && table == "tl_" + Decimal(year) + "_" + level
    ensures GetSchema("tiger_wgs84." + table) == "tiger_wgs84"
    ensures GetTableName("tiger_wgs84." + table) == table
  {
    assert '.' !in Decimal(year);
    assert '.' !in table;
    assert "tiger_wgs84." + table == "tiger_wgs84" + "." + table;
    QualifiedNameParts("tiger_wgs84", table);
  }

  /** src: the download URL of one shapefile archive, under the year's TIGER
      directory and the table's download subdirectory. Its last path
      component is {geography_name}.zip, however many components the
      subdirectory has, when neither the FIPS code nor the level holds a '/'. */
  function Src(t: GeographyTable, stateFips: string): (r: string)
    ensures r == "https://www2.census.gov/geo/tiger/TIGER" + Decimal(t.year) + "/" + t.downloadSubdir + "/"
                 + GeographyName(t, stateFips) + ".zip"
    ensures StartsWith(r, "https://www2.census.gov/geo/tiger/TIGER" + Decimal(t.year) + "/" + t.downloadSubdir + "/")
    ensures '/' !in stateFips && '/' !in t.levelName ==>
      var parts := Split(r, '/'); parts[|parts| - 1] == GeographyName(t, stateFips) + ".zip"
  {
    var dir := "https://www2.census.gov/geo/tiger/TIGER" + Decimal(t.year) + "/" + t.downloadSubdir;
    var file := GeographyName(t, stateFips) + ".zip";
    var r := dir + "/" + file;
    assert r[..|dir + "/"|] == dir + "/";
    if '/' !in stateFips && '/' !in t.levelName then
      assert '/' !in Decimal(t.year);
      assert '/' !in file;
      SplitAppend(dir, file, '/');
      r
    else
      r
  }

  datatype TigerError = UnsupportedKeyword   // the year-2000 entry passes type=, which __init__ rejects

  /** geography_tables: the tables loaded for one census year. */
  function GeographyTables(year: int): (r: Result<seq<GeographyTable>, TigerError>)
    ensures r.Err? <==> year == 2000
    ensures r.Ok? ==> forall k :: 0 <= k < |r.value| ==> r.value[k].year == year
  {
    if year == 2000 then Err(UnsupportedKeyword)
    else if year == 2010 then Ok([
      NewGeographyTable("tract00", year, downloadSubdir := Some("TRACT/2000"), geoidColumnName := "ctidfp00"),
      NewGeographyTable("tract10", year, downloadSubdir := Some("TRACT/2010"), geoidColumnName := "geoid10"),
      NewGeographyTable("bg00", year, downloadSubdir := Some("BG/2000"), geoidColumnName := "bkgpidfp00"),
      NewGeographyTable("bg10", year, downloadSubdir := Some("BG/2010"), geoidColumnName := "geoid10"),
      NewGeographyTable("tabblock00", year, downloadSubdir := Some("TABBLOCK/2000"), geoidColumnName := "blkidfp00"),
      NewGeographyTable("tabblock10", year, downloadSubdir := Some("TABBLOCK/2010"), geoidColumnName := "geoid10"),
      NewGeographyTable("county00", year, downloadSubdir := Some("COUNTY/2000"), downloadByState := false, geoidColumnName := "cntyidfp00"),
      NewGeographyTable("county10", year, downloadSubdir := Some("COUNTY/2010"), downloadByState := false, geoidColumnName := "geoid10"),
      NewGeographyTable("state00", year, downloadSubdir := Some("STATE/2000"), downloadByState := false, geoidColumnName := "statefp00"),
      NewGeographyTable("state10", year, downloadSubdir := Some("STATE/2010"), downloadByState := false, geoidColumnName := "geoid10")])
    else if year == 2020 then Ok([
      NewGeographyTable("tract", year),
      NewGeographyTable("bg", year),
      NewGeographyTable("tabblock10", year, downloadSubdir := Some("TABBLOCK/2010"), geoidColumnName := "geoid10"),
      NewGeographyTable("tabblock20", year, downloadSubdir := Some("TABBLOCK/2020"), geoidColumnName := "geoid20"),
      NewGeographyTable("county", year, downloadByState := false),
      NewGeographyTable("state", year, downloadByState := false)])
    else Ok([
      NewGeographyTable("tract", year),
      NewGeographyTable("bg", year),
      NewGeographyTable("county", year, downloadByState := false),
      NewGeographyTable("state", year, downloadByState := false)])
  }

  /** A level of whole-country files: counties and states. */
  predicate NationalLevel(levelName: string)
  {
    StartsWith(levelName, "county") || StartsWith(levelName, "state")
  }

  /** Ten tables for 2010, six for 2020, four for every other year but 2000;
      county and state levels, and only they, are downloaded as one
      national file. */
  lemma GeographyTablesShape(year: int)
    requires year != 2000
    ensures var ts := GeographyTables(year).value;
      && |ts| == (if year == 2010 then 10 else if year == 2020 then 6 else 4)
      && forall k :: 0 <= k < |ts| ==> (ts[k].downloadByState <==> !NationalLevel(ts[k].levelName))
  {
    if year == 2010 {
      TablesByState2010();
    } else if year == 2020 {
      TablesByState2020(year);
    } else {
      TablesByStateOther(year);
    }
  }

  lemma TablesByState2010()
    ensures var ts := GeographyTables(2010).value;
      forall k :: 0 <= k < |ts| ==> (ts[k].downloadByState <==> !NationalLevel(ts[k].levelName))
  {
    Tables2010Spelled();
    ByStateRule(GeographyTables(2010).value);
  }

  lemma Tables2010Spelled()
    ensures var ts := GeographyTables(2010).value;
      forall k :: 0 <= k < |ts| ==>
        LevelSpelled(ts[k].levelName) && (ts[k].downloadByState <==> ts[k].levelName[0] == 't' || ts[k].levelName[0] == 'b')
  {
  }

  lemma TablesByState2020(year: int)
    requires year == 2020
    ensures var ts := GeographyTables(year).value;
      forall k :: 0 <= k < |ts| ==> (ts[k].downloadByState <==> !NationalLevel(ts[k].levelName))
  {
    ByStateRule(GeographyTables(year).value);
  }

  lemma TablesByStateOther(year: int)
    requires year != 2000 && year != 2010 && year != 2020
    ensures var ts := GeographyTables(year).value;
      forall k :: 0 <= k < |ts| ==> (ts[k].downloadByState <==> !NationalLevel(ts[k].levelName))
  {
    ByStateRule(GeographyTables(year).value);
  }

  /** Levels named after tracts, block groups and blocks start with 't' or
      'b'; those of counties and states with the whole word. */
  predicate LevelSpelled(l: string)
  {
    |l| > 0 && (l[0] == 't' || l[0] == 'b' || (|l| >= 6 && l[..6] == "county") || (|l| >= 5 && l[..5] == "state"))
  }

  lemma ByStateRule(ts: seq<GeographyTable>)
    requires forall k :: 0 <= k < |ts| ==>
      LevelSpelled(ts[k].levelName) && (ts[k].downloadByState <==> ts[k].levelName[0] == 't' || ts[k].levelName[0] == 'b')
    ensures forall k :: 0 <= k < |ts| ==> (ts[k].downloadByState <==> !NationalLevel(ts[k].levelName))
  {
    forall k | 0 <= k < |ts|
      ensures ts[k].downloadByState <==> !NationalLevel(ts[k].levelName)
    {
      var l := ts[k].levelName;
      if l[0] == 't' || l[0] == 'b' {
        PrefixDiffers(l, "county");
        PrefixDiffers(l, "state");
      }
    }
  }

  lemma PrefixDiffers(s: string, p: string)
    requires |s| > 0 && |p| > 0 && s[0] != p[0]
    ensures !StartsWith(s, p)
  {
  }

  /** The default subdirectory of the 2020 and later tract and block-group
      tables is the upper-cased level name. */
  lemma DefaultSubdirs(year: int)
    requires year != 2000 && year != 2010
    ensures GeographyTables(year).value[0].downloadSubdir == "TRACT"
    ensures GeographyTables(year).value[1].downloadSubdir == "BG"
  {
    assert Upper("tract") == "TRACT";
    assert Upper("bg") == "BG";
  }

  // ---------------------------------------------------------------------------
  // State FIPS codes

  /** The numbers behind all_state_fips, decade by decade, in the list's order. */
  const StateFips0x: seq<nat> := [1, 2, 4, 5, 6, 8, 9]
  const StateFips1x: seq<nat> := [10, 11, 12, 13, 15, 16, 17, 18, 19]
  const StateFips2x: seq<nat> := [20, 21, 22, 23, 24, 25, 26, 27, 28, 29]
  const StateFips3x: seq<nat> := [30, 31, 32, 33, 34, 35, 36, 37, 38, 39]
  const StateFips4x: seq<nat> := [40, 41, 42, 44, 45, 46, 47, 48, 49]
  const StateFips5x: seq<nat> := [50, 51, 53, 54, 55, 56]
  const StateFips6x7x: seq<nat> := [60, 66, 69, 72, 78]

  function StateFipsNumbers(): seq<nat>
  {
    StateFips0x + StateFips1x + StateFips2x + StateFips3x + StateFips4x + StateFips5x + StateFips6x7x
  }

  /** Strictly increasing and below `bound`. */
  predicate IncreasingBelow(ns: seq<nat>, bound: nat)
  {
    && (forall k :: 0 <= k < |ns| - 1 ==> ns[k] < ns[k + 1])
    && (forall k :: 0 <= k < |ns| ==> ns[k] < bound)
  }

  lemma IncreasingConcat(ns: seq<nat>, ms: seq<nat>, mid: nat, bound: nat)
    requires IncreasingBelow(ns, mid) && IncreasingBelow(ms, bound)
    requires mid <= bound && forall k :: 0 <= k < |ms| ==> mid <= ms[k]
    ensures IncreasingBelow(ns + ms, bound)
  {
    var c := ns + ms;
    forall k | 0 <= k < |c| - 1
      ensures c[k] < c[k + 1]
    {
      if k < |ns| - 1 {
        assert c[k] == ns[k] && c[k + 1] == ns[k + 1];
      } else if k == |ns| - 1 {
        assert c[k] == ns[k] && c[k + 1] == ms[0];
      } else {
        assert c[k] == ms[k - |ns|] && c[k + 1] == ms[k + 1 - |ns|];
      }
    }
  }

  /** Strictly increasing, from `lo` and below `hi`. */
  predicate Decade(ns: seq<nat>, lo: nat, hi: nat)
  {
    IncreasingBelow(ns, hi) && forall k :: 0 <= k < |ns| ==> lo <= ns[k]
  }

  lemma Decade0x() ensures Decade(StateFips0x, 0, 10) {}
  lemma Decade1x() ensures Decade(StateFips1x, 10, 20) {}
  lemma Decade2x() ensures Decade(StateFips2x, 20, 30) {}
  lemma Decade3x() ensures Decade(StateFips3x, 30, 40) {}
  lemma Decade4x() ensures Decade(StateFips4x, 40, 50) {}
  lemma Decade5x() ensures Decade(StateFips5x, 50, 60) {}
  lemma Decade6x7x() ensures Decade(StateFips6x7x, 60, 100) {}

  lemma StateFipsNumbersIncreasing()
    ensures |StateFipsNumbers()| == 56 && IncreasingBelow(StateFipsNumbers(), 100)
  {
    Decade0x(); Decade1x(); Decade2x(); Decade3x(); Decade4x(); Decade5x(); Decade6x7x();
    var ns := StateFips0x;
    IncreasingConcat(ns, StateFips1x, 10, 20);
    ns := ns + StateFips1x;
    IncreasingConcat(ns, StateFips2x, 20, 30);
    ns := ns + StateFips2x;
    IncreasingConcat(ns, StateFips3x, 30, 40);
    ns := ns + StateFips3x;
    IncreasingConcat(ns, StateFips4x, 40, 50);
    ns := ns + StateFips4x;
    IncreasingConcat(ns, StateFips5x, 50, 60);
    ns := ns + StateFips5x;
    IncreasingConcat(ns, StateFips6x7x, 60, 100);
    ns := ns + StateFips6x7x;
    assert ns == StateFipsNumbers();
  }

  /** A number below 100 written with two digits, zero-padded: 1 is "01". */
  function TwoDigitCode(n: nat): (r: string)
    requires n < 100
    ensures |r| == 2 && AllDigits(r)
  {
    [DigitChar(n / 10), DigitChar(n % 10)]
  }

  /** The two-digit codes of numbers below 100, in order. */
  function Codes(ns: seq<nat>): (r: seq<string>)
    requires forall k :: 0 <= k < |ns| ==> ns[k] < 100
    ensures |r| == |ns| && forall k :: 0 <= k < |ns| ==> r[k] == TwoDigitCode(ns[k])
  {
    seq(|ns|, k requires 0 <= k < |ns| => TwoDigitCode(ns[k]))
  }

  lemma CodesConcat(ns: seq<nat>, ms: seq<nat>)
    requires forall k :: 0 <= k < |ns| ==> ns[k] < 100
    requires forall k :: 0 <= k < |ms| ==> ms[k] < 100
    ensures Codes(ns + ms) == Codes(ns) + Codes(ms)
  {
    assert forall k :: 0 <= k < |ms| ==> (ns + ms)[|ns| + k] == ms[k];
  }

  /** all_state_fips: the 56 two-digit codes of the states, the District of
      Columbia and the territories. */
  function AllStateFips(): (r: seq<string>)
    ensures |r| == |StateFipsNumbers()| == 56 && TwoDigits(r)
    ensures forall k :: 0 <= k < |r| ==> StateFipsNumbers()[k] < 100 && r[k] == TwoDigitCode(StateFipsNumbers()[k])
  {
    StateFipsNumbersIncreasing();
    Codes(StateFipsNumbers())
  }

  lemma Codes0x() ensures Codes(StateFips0x) == ["01", "02", "04", "05", "06", "08", "09"] {}
  lemma Codes1x() ensures Codes(StateFips1x) == ["10", "11", "12", "13", "15", "16", "17", "18", "19"] {}
  lemma Codes2x() ensures Codes(StateFips2x) == ["20", "21", "22", "23", "24", "25", "26", "27", "28", "29"] {}
  lemma Codes3x() ensures Codes(StateFips3x) == ["30", "31", "32", "33", "34", "35", "36", "37", "38", "39"] {}
  lemma Codes4x() ensures Codes(StateFips4x) == ["40", "41", "42", "44", "45", "46", "47", "48", "49"] {}
  lemma Codes5x() ensures Codes(StateFips5x) == ["50", "51", "53", "54", "55", "56"] {}
  lemma Codes6x7x() ensures Codes(StateFips6x7x) == ["60", "66", "69", "72", "78"] {}

  /** all_state_fips, code by code as the module lists it (one decade per
      line). */
  lemma AllStateFipsListed()
    ensures AllStateFips() ==
      ["01", "02", "04", "05", "06", "08", "09"]
      + ["10", "11", "12", "13", "15", "16", "17", "18", "19"]
      + ["20", "21", "22", "23", "24", "25", "26", "27", "28", "29"]
      + ["30", "31", "32", "33", "34", "35", "36", "37", "38", "39"]
      + ["40", "41", "42", "44", "45", "46", "47", "48", "49"]
      + ["50", "51", "53", "54", "55", "56"]
      + ["60", "66", "69", "72", "78"]
  {
    CodesByDecade();
    Codes0x(); Codes1x(); Codes2x(); Codes3x(); Codes4x(); Codes5x(); Codes6x7x();
  }

  lemma CodesByDecade()
    ensures Decade(StateFips0x, 0, 10) && Decade(StateFips1x, 10, 20) && Decade(StateFips2x, 20, 30)
    ensures Decade(StateFips3x, 30, 40) && Decade(StateFips4x, 40, 50) && Decade(StateFips5x, 50, 60)
    ensures Decade(StateFips6x7x, 60, 100)
    ensures AllStateFips() == Codes(StateFips0x) + Codes(StateFips1x) + Codes(StateFips2x) + Codes(StateFips3x)
                              + Codes(StateFips4x) + Codes(StateFips5x) + Codes(StateFips6x7x)
  {
    Decade0x(); Decade1x(); Decade2x(); Decade3x(); Decade4x(); Decade5x(); Decade6x7x();
    var ns := StateFips0x;
    CodesConcat(ns, StateFips1x);
    ns := ns + StateFips1x;
    CodesConcat(ns, StateFips2x);
    ns := ns + StateFips2x;
    CodesConcat(ns, StateFips3x);
    ns := ns + StateFips3x;
    CodesConcat(ns, StateFips4x);
    ns := ns + StateFips4x;
    CodesConcat(ns, StateFips5x);
    ns := ns + StateFips5x;
    CodesConcat(ns, StateFips6x7x);
    ns := ns + StateFips6x7x;
    assert ns == StateFipsNumbers();
  }

  predicate TwoDigits(s: seq<string>)
  {
    forall k :: 0 <= k < |s| ==> |s[k]| == 2 && AllDigits(s[k])
  }

  predicate Ascending(s: seq<string>)
  {
    forall k :: 0 <= k < |s| - 1 ==> LexLess(s[k], s[k + 1])
  }

  /** Zero-padded codes sort as the numbers they write. */
  lemma TwoDigitCodeLess(n: nat, m: nat)
    requires n < m < 100
    ensures LexLess(TwoDigitCode(n), TwoDigitCode(m))
  {
    var a := TwoDigitCode(n);
    var b := TwoDigitCode(m);
    assert n / 10 <= m / 10;
    if n / 10 == m / 10 {
      assert n % 10 < m % 10;
      assert a[1..][0] < b[1..][0];
    }
  }

  /** Every element of an ascending list sorts before every later one. */
  lemma {:induction false} AscendingPairwise(s: seq<string>, i: int, j: int)
    requires Ascending(s) && 0 <= i < j < |s|
    ensures LexLess(s[i], s[j])
    decreases j - i
  {
    if j > i + 1 {
      AscendingPairwise(s, i, j - 1);
      LexLessTransitive(s[i], s[j - 1], s[j]);
    }
  }

  /** all_state_fips starts with Alabama's "01" and ends with the Virgin
      Islands' "78", and holds 56 two-digit codes in strictly increasing
      order, so no code appears twice. */
  lemma AllStateFipsSorted()
    ensures |AllStateFips()| == 56 && AllStateFips()[0] == "01" && AllStateFips()[55] == "78"
    ensures TwoDigits(AllStateFips()) && Ascending(AllStateFips())
    ensures forall i, j :: 0 <= i < j < |AllStateFips()| ==> AllStateFips()[i] != AllStateFips()[j]
  {
    var a := AllStateFips();
    var ns := StateFipsNumbers();
    StateFipsNumbersIncreasing();
    assert ns[0] == 1 && ns[55] == 78;
    assert a[0] == TwoDigitCode(1) == "01";
    assert a[55] == TwoDigitCode(78) == "78";
    forall k | 0 <= k < |a| - 1
      ensures LexLess(a[k], a[k + 1])
    {
      TwoDigitCodeLess(ns[k], ns[k + 1]);
    }
    forall i, j | 0 <= i < j < |a|
      ensures a[i] != a[j]
    {
      AscendingPairwise(a, i, j);
      LexLessIrreflexive(a[i]);
    }
  }

  // ---------------------------------------------------------------------------
  // load_geography_geometries

  /** The two-character suffix of levels ending in 10 or 20, else "". */
  function Suffix(levelName: string): (r: string)
    ensures r == "" || r == "10" || r == "20"
    ensures r != "" <==> EndsWith(levelName, "10") || EndsWith(levelName, "20")
    ensures r != "" ==> EndsWith(levelName, r)
  {
    if EndsWith(levelName, "10") || EndsWith(levelName, "20") then levelName[|levelName| - 2..] else ""
  }

  /** fips_list: every state, or the single national file "us". */
  function FipsList(t: GeographyTable): (r: seq<string>)
    ensures t.downloadByState ==> r == AllStateFips() && |r| == 56 && TwoDigits(r) && Ascending(r)
    ensures !t.downloadByState ==> r == ["us"]
  {
    if t.downloadByState then
      AllStateFipsSorted();
      AllStateFips()
    else ["us"]
  }

  /** state_filter: the geoid text range [fips, fips + 'z') for a state, nothing
      for a national file. The two comparisons it writes are the two that
      InStateRange reads: geoid >= fips and geoid < fips + "z". */
  function StateFilter(t: GeographyTable, fips: string): (r: string)
    ensures r == "" <==> !t.downloadByState
    ensures t.downloadByState ==>
      r == "WHERE " + t.geoidColumnName + " >= '" + fips + "' and " + t.geoidColumnName + " < '" + fips + "z" + "'"
  {
    if t.downloadByState then
      "WHERE " + t.geoidColumnName + " >= '" + fips + "' and " + t.geoidColumnName + " < '" + fips + "z'"
    else ""
  }

  /** The condition the state filter puts on one geoid. */
  predicate InStateRange(geoid: string, fips: string)
  {
    LexLe(fips, geoid) && LexLess(geoid, fips + "z")
  }

  /** For geoids whose characters all sort before 'z', such as digit strings,
      the state filter selects exactly the geoids that start with the code. */
  lemma {:induction false} InStateRangeIsPrefix(geoid: string, fips: string)
    requires forall i :: 0 <= i < |geoid| ==> geoid[i] < 'z'
    ensures InStateRange(geoid, fips) <==> StartsWith(geoid, fips)
    decreases |fips|
  {
    if |fips| == 0 {
      assert LexLe(fips, geoid);
      assert LexLess(geoid, fips + "z");
    } else if |geoid| > 0 {
      assert (fips + "z")[0] == fips[0] && (fips + "z")[1..] == fips[1..] + "z";
      if geoid[0] == fips[0] {
        InStateRangeIsPrefix(geoid[1..], fips[1..]);
        assert fips == geoid <==> fips[1..] == geoid[1..];
        assert StartsWith(geoid, fips) <==> StartsWith(geoid[1..], fips[1..]);
      }
    }
  }

  /** The existence check for one code: the table exists and has a row in the
      code's range (any row, for a national file). */
  predicate Present(table: Option<seq<string>>, t: GeographyTable, fips: string): (r: bool)
    ensures r ==> table.Some?
    ensures !t.downloadByState ==> (r <==> table.Some? && |table.value| > 0)
  {
    var r := table.Some? && exists i :: 0 <= i < |table.value| && (!t.downloadByState || InStateRange(table.value[i], fips));
    if !t.downloadByState && table.Some? && |table.value| > 0 then
      var first := table.value[0];  // the row the existential is witnessed by
      r
    else
      r
  }

  function RowsOf(table: Option<seq<string>>): seq<string>
  {
    if table.Some? then table.value else []
  }

  /** a is b with some elements left out, the rest in their order. */
  predicate IsSubsequence(a: seq<string>, b: seq<string>)
    decreases |b|
  {
    if |b| == 0 then |a| == 0
    else (|a| > 0 && a[0] == b[0] && IsSubsequence(a[1..], b[1..])) || IsSubsequence(a, b[1..])
  }

  /** The loop over fips_list, from a table (None when it does not exist):
      the codes found already loaded, in order, and the table after
      appending the shapefile rows of every other code. `shapefile` gives the
      geoid column of the shapefile named by geography_name. */
  function LoadRun(table: Option<seq<string>>, t: GeographyTable, fipsList: seq<string>,
                   shapefile: string -> seq<string>): (r: (seq<string>, Option<seq<string>>))
    ensures |r.0| <= |fipsList|
    ensures forall k :: 0 <= k < |r.0| ==> r.0[k] in fipsList
    ensures table.Some? ==> r.1.Some?
    decreases |fipsList|
  {
    if |fipsList| == 0 then ([], table)
    else
      var fips := fipsList[0];
      if Present(table, t, fips) then
        var rest := LoadRun(table, t, fipsList[1..], shapefile);
        ([fips] + rest.0, rest.1)
      else
        LoadRun(Some(RowsOf(table) + shapefile(GeographyName(t, fips))), t, fipsList[1..], shapefile)
  }

  /** The codes reported already loaded are codes of the list, in the list's
      order, each reported once per occurrence at most. */
  lemma {:induction false} LoadRunReportsSubsequence(table: Option<seq<string>>, t: GeographyTable, fipsList: seq<string>,
                                                     shapefile: string -> seq<string>)
    ensures IsSubsequence(LoadRun(table, t, fipsList, shapefile).0, fipsList)
    decreases |fipsList|
  {
    if |fipsList| > 0 {
      var fips := fipsList[0];
      LoadRunStep(table, t, fipsList, shapefile);
      if Present(table, t, fips) {
        LoadRunReportsSubsequence(table, t, fipsList[1..], shapefile);
        var rest := LoadRun(table, t, fipsList[1..], shapefile).0;
        assert ([fips] + rest)[1..] == rest;
      } else {
        LoadRunReportsSubsequence(Some(RowsOf(table) + shapefile(GeographyName(t, fips))), t, fipsList[1..], shapefile);
      }
    }
  }

  /** Rows are only ever appended, so what is present stays present. */
  lemma {:induction false} LoadRunKeepsRows(table: Option<seq<string>>, t: GeographyTable, fipsList: seq<string>,
                                            shapefile: string -> seq<string>)
    requires table.Some?
    ensures var out := LoadRun(table, t, fipsList, shapefile).1;
      out.Some? && |table.value| <= |out.value| && out.value[..|table.value|] == table.value
    decreases |fipsList|
  {
    if |fipsList| > 0 {
      var fips := fipsList[0];
      if Present(table, t, fips) {
        LoadRunKeepsRows(table, t, fipsList[1..], shapefile);
      } else {
        var next := Some(table.value + shapefile(GeographyName(t, fips)));
        LoadRunKeepsRows(next, t, fipsList[1..], shapefile);
        assert next.value[..|table.value|] == table.value;
      }
    }
  }

  lemma PresentGrows(table: seq<string>, bigger: seq<string>, t: GeographyTable, fips: string)
    requires Present(Some(table), t, fips)
    requires |table| <= |bigger| && bigger[..|table|] == table
    ensures Present(Some(bigger), t, fips)
  {
    var i :| 0 <= i < |table| && (!t.downloadByState || InStateRange(table[i], fips));
    assert bigger[i] == table[i];
  }

  /** A shapefile that covers its own code: non-empty, and every geoid in it
      falls in the code's range. */
  predicate Covers(t: GeographyTable, fips: string, shapefile: string -> seq<string>)
  {
    var rows := shapefile(GeographyName(t, fips));
    |rows| > 0 && forall i :: 0 <= i < |rows| ==> (!t.downloadByState || InStateRange(rows[i], fips))
  }

  /** After a run every code of the list is present, when each shapefile
      covers its code. */
  lemma {:induction false} LoadRunLoadsAll(table: Option<seq<string>>, t: GeographyTable, fipsList: seq<string>,
                                           shapefile: string -> seq<string>)
    requires forall k :: 0 <= k < |fipsList| ==> Covers(t, fipsList[k], shapefile)
    ensures forall k :: 0 <= k < |fipsList| ==> Present(LoadRun(table, t, fipsList, shapefile).1, t, fipsList[k])
    decreases |fipsList|
  {
    if |fipsList| > 0 {
      var fips := fipsList[0];
      var next := if Present(table, t, fips) then table else Some(RowsOf(table) + shapefile(GeographyName(t, fips)));
      assert next == table || LoadRun(table, t, fipsList, shapefile) == LoadRun(next, t, fipsList[1..], shapefile);
      if !Present(table, t, fips) {
        var rows := shapefile(GeographyName(t, fips));
        assert next.value[|RowsOf(table)|] == rows[0];
      }
      assert Present(next, t, fips);
      assert LoadRun(table, t, fipsList, shapefile).1 == LoadRun(next, t, fipsList[1..], shapefile).1;
      LoadRunLoadsAll(next, t, fipsList[1..], shapefile);
      LoadRunKeepsRows(next, t, fipsList[1..], shapefile);
      PresentGrows(next.value, LoadRun(next, t, fipsList[1..], shapefile).1.value, t, fips);
      forall k | 1 <= k < |fipsList|
        ensures Present(LoadRun(table, t, fipsList, shapefile).1, t, fipsList[k])
      {
        assert fipsList[k] == fipsList[1..][k - 1];
      }
    }
  }

  /** A run over codes that are all present changes nothing and reports
      every code as already loaded. */
  lemma {:induction false} LoadRunAllPresent(table: Option<seq<string>>, t: GeographyTable, fipsList: seq<string>,
                                             shapefile: string -> seq<string>)
    requires forall k :: 0 <= k < |fipsList| ==> Present(table, t, fipsList[k])
    ensures LoadRun(table, t, fipsList, shapefile) == (fipsList, table)
    decreases |fipsList|
  {
    if |fipsList| > 0 {
      LoadRunAllPresent(table, t, fipsList[1..], shapefile);
      assert [fipsList[0]] + fipsList[1..] == fipsList;
    }
  }

  /** Loading twice: when each shapefile covers its code, the second run
      finds every code already loaded and leaves the table as it was. */
  lemma LoadRunTwice(table: Option<seq<string>>, t: GeographyTable, shapefile: string -> seq<string>)
    requires forall k :: 0 <= k < |FipsList(t)| ==> Covers(t, FipsList(t)[k], shapefile)
    ensures var once := LoadRun(table, t, FipsList(t), shapefile).1;
      LoadRun(once, t, FipsList(t), shapefile) == (FipsList(t), once)
  {
    LoadRunLoadsAll(table, t, FipsList(t), shapefile);
    LoadRunAllPresent(LoadRun(table, t, FipsList(t), shapefile).1, t, FipsList(t), shapefile);
  }

  /** One turn of the loop: a code found present is reported and the rest
      of the run continues from the same table. */
  lemma LoadRunStep(table: Option<seq<string>>, t: GeographyTable, fipsList: seq<string>,
                    shapefile: string -> seq<string>)
    requires |fipsList| > 0
    ensures var fips := fipsList[0];
      var rest := LoadRun(table, t, fipsList[1..], shapefile);
      && (Present(table, t, fips) ==> LoadRun(table, t, fipsList, shapefile) == ([fips] + rest.0, rest.1))
      && (!Present(table, t, fips) ==>
            LoadRun(table, t, fipsList, shapefile)
              == LoadRun(Some(RowsOf(table) + shapefile(GeographyName(t, fips))), t, fipsList[1..], shapefile))
  {
  }

  /** The codes of the list that the starting table already holds, in order. */
  function AlreadyPresent(table: Option<seq<string>>, t: GeographyTable, fipsList: seq<string>): seq<string>
    decreases |fipsList|
  {
    if |fipsList| == 0 then []
    else (if Present(table, t, fipsList[0]) then [fipsList[0]] else []) + AlreadyPresent(table, t, fipsList[1..])
  }

  /** The shapefile rows of the codes the starting table does not hold, in
      list order. */
  function LoadedRows(table: Option<seq<string>>, t: GeographyTable, fipsList: seq<string>,
                      shapefile: string -> seq<string>): seq<string>
    decreases |fipsList|
  {
    if |fipsList| == 0 then []
    else (if Present(table, t, fipsList[0]) then [] else shapefile(GeographyName(t, fipsList[0])))
         + LoadedRows(table, t, fipsList[1..], shapefile)
  }

  /** No row lies in the range of `fips` (and the file is per state: any row
      of a national file makes every code present). */
  predicate Misses(t: GeographyTable, fips: string, rows: seq<string>)
  {
    t.downloadByState && forall k :: 0 <= k < |rows| ==> !InStateRange(rows[k], fips)
  }

  /** The shapefile loaded for a code never falls in the range of a later
      code of the list. */
  predicate Separate(t: GeographyTable, fipsList: seq<string>, shapefile: string -> seq<string>)
  {
    forall j, i :: 0 <= j < i < |fipsList| ==> Misses(t, fipsList[i], shapefile(GeographyName(t, fipsList[j])))
  }

  /** Appending rows outside a code's range does not change whether the code
      is present. */
  lemma PresentUnaffected(table: Option<seq<string>>, rows: seq<string>, t: GeographyTable, fips: string)
    requires Misses(t, fips, rows)
    ensures Present(Some(RowsOf(table) + rows), t, fips) <==> Present(table, t, fips)
  {
    var grown := RowsOf(table) + rows;
    if Present(Some(grown), t, fips) {
      var i :| 0 <= i < |grown| && (!t.downloadByState || InStateRange(grown[i], fips));
      assert grown[i] == RowsOf(table)[i];
    }
    if Present(table, t, fips) {
      var i :| 0 <= i < |table.value| && (!t.downloadByState || InStateRange(table.value[i], fips));
      assert grown[i] == table.value[i];
    }
  }

  lemma {:induction false} AlreadyPresentUnaffected(table: Option<seq<string>>, rows: seq<string>, t: GeographyTable,
                                                     fipsList: seq<string>, shapefile: string -> seq<string>)
    requires forall i :: 0 <= i < |fipsList| ==> Misses(t, fipsList[i], rows)
    ensures AlreadyPresent(Some(RowsOf(table) + rows), t, fipsList) == AlreadyPresent(table, t, fipsList)
    ensures LoadedRows(Some(RowsOf(table) + rows), t, fipsList, shapefile) == LoadedRows(table, t, fipsList, shapefile)
    decreases |fipsList|
  {
    if |fipsList| > 0 {
      PresentUnaffected(table, rows, t, fipsList[0]);
      AlreadyPresentUnaffected(table, rows, t, fipsList[1..], shapefile);
    }
  }

  /** When the shapefiles are separate, the run reports exactly the codes
      the starting table holds and appends exactly the shapefiles of the
      others, in list order. */
  lemma {:induction false} LoadRunFilters(table: Option<seq<string>>, t: GeographyTable, fipsList: seq<string>,
                                          shapefile: string -> seq<string>)
    requires Separate(t, fipsList, shapefile)
    ensures var run := LoadRun(table, t, fipsList, shapefile);
      && run.0 == AlreadyPresent(table, t, fipsList)
      && RowsOf(run.1) == RowsOf(table) + LoadedRows(table, t, fipsList, shapefile)
    decreases |fipsList|
  {
    if |fipsList| > 0 {
      var fips := fipsList[0];
      var rest := fipsList[1..];
      SeparateTail(t, fipsList, shapefile);
      LoadRunStep(table, t, fipsList, shapefile);
      if Present(table, t, fips) {
        LoadRunFilters(table, t, rest, shapefile);
      } else {
        var rows := shapefile(GeographyName(t, fips));
        var next := Some(RowsOf(table) + rows);
        AlreadyPresentUnaffected(table, rows, t, rest, shapefile);
        LoadRunFilters(next, t, rest, shapefile);
        FiltersAfterLoad(table, t, fipsList, shapefile, LoadRun(next, t, rest, shapefile));
      }
    }
  }

  /** The step of LoadRunFilters at a code that is loaded: what the rest of
      the run does from the grown table is what the whole run does. */
  lemma FiltersAfterLoad(table: Option<seq<string>>, t: GeographyTable, fipsList: seq<string>,
                         shapefile: string -> seq<string>, run: (seq<string>, Option<seq<string>>))
    requires |fipsList| > 0 && !Present(table, t, fipsList[0])
    requires var rows := shapefile(GeographyName(t, fipsList[0]));
      var next := Some(RowsOf(table) + rows);
      && AlreadyPresent(next, t, fipsList[1..]) == AlreadyPresent(table, t, fipsList[1..])
      && LoadedRows(next, t, fipsList[1..], shapefile) == LoadedRows(table, t, fipsList[1..], shapefile)
      && run.0 == AlreadyPresent(next, t, fipsList[1..])
      && RowsOf(run.1) == RowsOf(next) + LoadedRows(next, t, fipsList[1..], shapefile)
    ensures run.0 == AlreadyPresent(table, t, fipsList)
    ensures RowsOf(run.1) == RowsOf(table) + LoadedRows(table, t, fipsList, shapefile)
  {
    var rows := shapefile(GeographyName(t, fipsList[0]));
    LoadedRowsStep(table, t, fipsList, shapefile);
    AppendAssoc(RowsOf(table), rows, LoadedRows(table, t, fipsList[1..], shapefile));
  }

  lemma LoadedRowsStep(table: Option<seq<string>>, t: GeographyTable, fipsList: seq<string>,
                        shapefile: string -> seq<string>)
    requires |fipsList| > 0 && !Present(table, t, fipsList[0])
    ensures LoadedRows(table, t, fipsList, shapefile)
         == shapefile(GeographyName(t, fipsList[0])) + LoadedRows(table, t, fipsList[1..], shapefile)
  {
  }

  lemma AppendAssoc<T>(a: seq<T>, b: seq<T>, c: seq<T>)
    ensures a + b + c == a + (b + c)
  {
  }

  /** Separate lists stay separate without their head, which misses every
      later code. */
  lemma SeparateTail(t: GeographyTable, fipsList: seq<string>, shapefile: string -> seq<string>)
    requires |fipsList| > 0 && Separate(t, fipsList, shapefile)
    ensures Separate(t, fipsList[1..], shapefile)
    ensures forall i :: 0 <= i < |fipsList| - 1 ==>
      Misses(t, fipsList[1..][i], shapefile(GeographyName(t, fipsList[0])))
  {
    var rest := fipsList[1..];
    forall j, i | 0 <= j < i < |rest|
      ensures Misses(t, rest[i], shapefile(GeographyName(t, rest[j])))
    {
      assert rest[i] == fipsList[i + 1] && rest[j] == fipsList[j + 1];
    }
    forall i | 0 <= i < |rest|
      ensures Misses(t, rest[i], shapefile(GeographyName(t, fipsList[0])))
    {
      assert rest[i] == fipsList[i + 1];
    }
  }

  /** The real list qualifies: when each state's shapefile holds geoids that
      start with the state's code and sort below 'z', the shapefiles of the
      states are separate. */
  lemma StateShapefilesSeparate(t: GeographyTable, shapefile: string -> seq<string>)
    requires t.downloadByState
    requires forall k :: 0 <= k < |AllStateFips()| ==>
      var rows := shapefile(GeographyName(t, AllStateFips()[k]));
      forall r :: 0 <= r < |rows| ==> StartsWith(rows[r], AllStateFips()[k]) && forall c :: 0 <= c < |rows[r]| ==> rows[r][c] < 'z'
    ensures Separate(t, AllStateFips(), shapefile)
  {
    var a := AllStateFips();
    AllStateFipsSorted();
    forall j, i | 0 <= j < i < |a|
      ensures Misses(t, a[i], shapefile(GeographyName(t, a[j])))
    {
      var rows := shapefile(GeographyName(t, a[j]));
      forall r | 0 <= r < |rows|
        ensures !InStateRange(rows[r], a[i])
      {
        InStateRangeIsPrefix(rows[r], a[i]);
      }
    }
  }

  /** The invariant of the loading loop carried over one code: the run from
      the start is what is reported so far followed by the run of the rest. */
  lemma LoadRunAdvance(start: Option<seq<string>>, table: Option<seq<string>>, t: GeographyTable,
                       fipsList: seq<string>, i: int, done: seq<string>, shapefile: string -> seq<string>)
    requires 0 <= i < |fipsList|
    requires LoadRun(start, t, fipsList, shapefile)
          == (done + LoadRun(table, t, fipsList[i..], shapefile).0, LoadRun(table, t, fipsList[i..], shapefile).1)
    ensures var fips := fipsList[i];
      var next := if Present(table, t, fips) then table else Some(RowsOf(table) + shapefile(GeographyName(t, fips)));
      var done' := if Present(table, t, fips) then done + [fips] else done;
      LoadRun(start, t, fipsList, shapefile)
        == (done' + LoadRun(next, t, fipsList[i + 1..], shapefile).0, LoadRun(next, t, fipsList[i + 1..], shapefile).1)
  {
    var fips := fipsList[i];
    LoadRunStep(table, t, fipsList[i..], shapefile);
    assert fipsList[i..][0] == fips && fipsList[i..][1..] == fipsList[i + 1..];
    if Present(table, t, fips) {
      AppendAssoc(done, [fips], LoadRun(table, t, fipsList[i + 1..], shapefile).0);
    }
  }

  /** The tables after a table is written back, or removed when it does not exist. */
  function Store(tables: map<string, seq<string>>, name: string, table: Option<seq<string>>): (r: map<string, seq<string>>)
    ensures r.Keys == tables.Keys - {name} + (if table.Some? then {name} else {})
    ensures forall n :: n in tables && n != name ==> r[n] == tables[n]
    ensures table.Some? ==> r[name] == table.value
  {
    if table.Some? then tables[name := table.value] else tables - {name}
  }

  /** Writing a table back over an earlier write of it. */
  lemma StoreAgain(tables: map<string, seq<string>>, name: string, updated: map<string, seq<string>>, rows: seq<string>)
    requires updated.Keys == tables.Keys - {name} + {name} && updated[name] == rows
    requires forall n :: n in tables && n != name ==> updated[n] == tables[n]
    ensures updated == Store(tables, name, Some(rows))
  {
  }

  /** Dropping a table before writing it back changes nothing in the result. */
  lemma StoreOverDrop(tables: map<string, seq<string>>, dropped: map<string, seq<string>>, name: string,
                      table: Option<seq<string>>)
    requires dropped == tables || dropped == tables - {name}
    ensures Store(dropped, name, table) == Store(tables, name, table)
  {
  }

  /** The database as far as loading sees it: its schemas and, per table,
      the geoid column of its rows in insertion order. */
  class TigerDatabase {
    var schemas: set<string>
    var tables: map<string, seq<string>>

    constructor (schemas: set<string>, tables: map<string, seq<string>>)
      ensures this.schemas == schemas && this.tables == tables
    {
      this.schemas := schemas;
      this.tables := tables;
    }

    /** load_geography_geometries: create the schema, drop the table if
        asked, then check and load one code at a time. Returns
        already_loaded. */
    method LoadGeographyGeometries(t: GeographyTable, shapefile: string -> seq<string>, dropFirst: bool)
      returns (alreadyLoaded: seq<string>)
      modifies this
      ensures var name := GeographyTableName(t);
        var start := if dropFirst || name !in old(tables) then None else Some(old(tables)[name]);
        var run := LoadRun(start, t, FipsList(t), shapefile);
        && alreadyLoaded == run.0
        && tables == Store(old(tables), name, run.1)
        && schemas == old(schemas) + (if GetSchema(name) != "public" then {GetSchema(name)} else {})
    {
      var name := GeographyTableName(t);
      var schema := GetSchema(name);
      if schema != "public" {
        schemas := schemas + {schema};
      }
      if dropFirst {
        tables := tables - {name};
      }
      ghost var dropped := tables;
      ghost var start := if name in dropped then Some(dropped[name]) else None;
      alreadyLoaded := LoadEach(t, name, FipsList(t), shapefile);
      StoreOverDrop(old(tables), dropped, name, LoadRun(start, t, FipsList(t), shapefile).1);
    }

    /** The loop of load_geography_geometries over fips_list, against table `name`. */
    method LoadEach(t: GeographyTable, name: string, fipsList: seq<string>, shapefile: string -> seq<string>)
      returns (alreadyLoaded: seq<string>)
      modifies this
      ensures var start := if name in old(tables) then Some(old(tables)[name]) else None;
        var run := LoadRun(start, t, fipsList, shapefile);
        && alreadyLoaded == run.0
        && tables == Store(old(tables), name, run.1)
        && schemas == old(schemas)
    {
      var table := if name in tables then Some(tables[name]) else None;
      ghost var start := table;
      alreadyLoaded := [];
      var i := 0;
      assert fipsList[0..] == fipsList;
      assert [] + LoadRun(start, t, fipsList, shapefile).0 == LoadRun(start, t, fipsList, shapefile).0;
      while i < |fipsList|
        invariant 0 <= i <= |fipsList|
        invariant schemas == old(schemas)
        invariant tables == Store(old(tables), name, table)
        invariant LoadRun(start, t, fipsList, shapefile) == (alreadyLoaded + LoadRun(table, t, fipsList[i..], shapefile).0,
                                                             LoadRun(table, t, fipsList[i..], shapefile).1)
      {
        var fips := fipsList[i];
        LoadRunAdvance(start, table, t, fipsList, i, alreadyLoaded, shapefile);
        if Present(table, t, fips) {
          alreadyLoaded := alreadyLoaded + [fips];
        } else {
          table := Some(RowsOf(table) + shapefile(GeographyName(t, fips)));
          StoreAgain(old(tables), name, tables[name := table.value], table.value);
          tables := tables[name := table.value];
        }
        i := i + 1;
      }
      assert fipsList[i..] == [];
    }
  }
}
