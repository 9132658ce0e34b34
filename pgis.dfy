/** The SQL-literal helpers and the census-table lookup of pgis_utils.py:
    pgval/pggeom/pggeog/pgarray, which render values as SQL text, and
    find_nhgis_census_table, which searches basis years for an existing
    geometry table. Geometries are given by their SRID and their hex EWKB
    (what wkb.dumps(..., hex=True, include_srid=True) produces). */
module Pgis {
  import opened Common
  import opened Text
  import opened Identifiers

  /** What pgval accepts: a geometry or a string. */
  datatype PgValue = GeomValue(geom: Geometry) | TextValue(text: string)

  datatype PgError =
    | SridNotWgs84    // the assertion that the SRID is 4326
    | InvalidLevel(level: string)
    | TableNotFound

  /** A geometry as '<hex EWKB>'::<cast>, once its SRID is checked. */
  function GeometryLiteral(x: Geometry, cast: string): (r: Result<string, PgError>)
    ensures r.Ok? <==> x.srid == Wgs84Srid
    ensures r.Ok? ==> r.value == "'" + x.wkbHex + "'::" + cast
    ensures r.Ok? ==> StartsWith(r.value, "'" + x.wkbHex + "'") && EndsWith(r.value, "'::" + cast)
  {
    if x.srid != Wgs84Srid then Err(SridNotWgs84)
    else
      var r := "'" + x.wkbHex + "'::" + cast;
      assert r == ("'" + x.wkbHex + "'") + ("::" + cast);
      assert r == ("'" + x.wkbHex) + ("'::" + cast);
      Ok(r)
  }

  /** pggeom: the SRID must be 4326; the literal is cast to geometry. */
  function PgGeom(x: Geometry): (r: Result<string, PgError>)
    ensures r.Ok? <==> x.srid == Wgs84Srid
    ensures r.Ok? ==> r.value == "'" + x.wkbHex + "'::geometry"
  {
    GeometryLiteral(x, "geometry")
  }

  /** pggeog: the SRID must be 4326; the literal is cast to geography. */
  function PgGeog(x: Geometry): (r: Result<string, PgError>)
    ensures r.Ok? <==> x.srid == Wgs84Srid
    ensures r.Ok? ==> r.value == "'" + x.wkbHex + "'::geography"
  {
    GeometryLiteral(x, "geography")
  }

  /** pgval: a geometry through pggeom, a string between single quotes,
      unescaped. */
  function PgVal(x: PgValue): (r: Result<string, PgError>)
    ensures r.Err? <==> x.GeomValue? && x.geom.srid != Wgs84Srid
    ensures x.GeomValue? ==> r == PgGeom(x.geom)
    ensures x.TextValue? ==> r == Ok("'" + x.text + "'")
  {
    match x
    case GeomValue(g) => PgGeom(g)
    case TextValue(s) => Ok("'" + s + "'")
  }

  /** How PostgreSQL reads text after the opening quote of a string literal:
      '' stands for one quote, a lone quote closes the literal, and nothing
      may follow it. */
  function ReadQuoted(s: string): Option<string>
    decreases |s|
  {
    if |s| == 0 then None
    else if s[0] != '\'' then
      match ReadQuoted(s[1..])
      case None => None
      case Some(t) => Some([s[0]] + t)
    else if |s| == 1 then Some("")
    else if s[1] == '\'' then
      match ReadQuoted(s[2..])
      case None => None
      case Some(t) => Some("'" + t)
    else None
  }

  /** The string a single-quoted SQL literal denotes, if it is one. */
  function ReadLiteral(q: string): Option<string>
  {
    if |q| > 0 && q[0] == '\'' then ReadQuoted(q[1..]) else None
  }

  lemma {:induction false} ReadQuotedPlain(s: string)
    requires '\'' !in s
    ensures ReadQuoted(s + "'") == Some(s)
    decreases |s|
  {
    if |s| > 0 {
      assert (s + "'")[1..] == s[1..] + "'";
      ReadQuotedPlain(s[1..]);
      assert [s[0]] + s[1..] == s;
    }
  }

  /** A string without quotes comes back from the literal pgval writes. */
  lemma PgValTextRoundTrip(s: string)
    requires '\'' !in s
    ensures ReadLiteral(PgVal(TextValue(s)).value) == Some(s)
  {
    var q := "'" + s + "'";
    assert q[1..] == s + "'";
    ReadQuotedPlain(s);
  }

  /** A literal that reads back is longer than the string it denotes by one
      character per quote in it (each written twice) and the closing quote. */
  lemma {:induction false} ReadQuotedLength(w: string, y: string)
    requires ReadQuoted(w) == Some(y)
    ensures |w| == |y| + Count(y, '\'') + 1
    decreases |w|
  {
    if w[0] != '\'' {
      var t := ReadQuoted(w[1..]).value;
      ReadQuotedLength(w[1..], t);
      assert y == [w[0]] + t;
      assert multiset(y) == multiset([w[0]]) + multiset(t);
    } else if |w| > 1 {
      var t := ReadQuoted(w[2..]).value;
      ReadQuotedLength(w[2..], t);
      assert y == "'" + t;
      assert multiset(y) == multiset("'") + multiset(t);
    }
  }

  /** pgval's literal for a string reads back as that string exactly when the
      string holds no quote. */
  lemma PgValTextRoundTripIff(s: string)
    ensures ReadLiteral(PgVal(TextValue(s)).value) == Some(s) <==> '\'' !in s
  {
    var q := "'" + s + "'";
    assert q[1..] == s + "'";
    if '\'' !in s {
      ReadQuotedPlain(s);
    } else if ReadLiteral(q) == Some(s) {
      ReadQuotedLength(s + "'", s);
      CountAbsent(s, '\'');
    }
  }

  /** A quote inside the string is not escaped: the literal pgval writes for
      it is not read back as the string. */
  lemma PgValTextQuoteUnescaped()
    ensures PgVal(TextValue("it's")).value == "'it's'"
    ensures ReadLiteral(PgVal(TextValue("it's")).value) != Some("it's")
  {
    var q := "'it's'";
    assert q[1..] == "it's'";
    assert "it's'"[1..] == "t's'";
    assert "t's'"[1..] == "'s'";
    assert ReadQuoted("'s'") == None;
  }

  /** The pgval of each element, in order; the first element whose pgval
      fails makes the whole list fail. */
  function PgVals(elts: seq<PgValue>): (r: Result<seq<string>, PgError>)
    ensures r.Ok? <==> forall k :: 0 <= k < |elts| ==> PgVal(elts[k]).Ok?
    ensures r.Ok? ==> |r.value| == |elts| && forall k :: 0 <= k < |elts| ==> r.value[k] == PgVal(elts[k]).value
    decreases |elts|
  {
    if |elts| == 0 then Ok([])
    else
      assert forall k :: 1 <= k < |elts| ==> elts[k] == elts[1..][k - 1];
      match PgVal(elts[0])
      case Err(e) => Err(e)
      case Ok(v) =>
        match PgVals(elts[1..])
        case Err(e) => Err(e)
        case Ok(vs) => Ok([v] + vs)
  }

  /** pgarray: ARRAY[v1,v2,...]. */
  function PgArray(elts: seq<PgValue>): (r: Result<string, PgError>)
    ensures r.Ok? <==> forall k :: 0 <= k < |elts| ==> !elts[k].GeomValue? || elts[k].geom.srid == Wgs84Srid
    ensures r.Ok? ==> r.value == "ARRAY[" + Join(PgVals(elts).value, ",") + "]"
    ensures elts == [] ==> r == Ok("ARRAY[]")
  {
    var vals := PgVals(elts);
    if vals.Err? then Err(vals.error)
    else
      var a := "ARRAY[" + Join(vals.value, ",") + "]";
      assert elts == [] ==> vals.value == [] && a == "ARRAY[" + "" + "]";
      assert "ARRAY[" + "" + "]" == "ARRAY[]";
      Ok(a)
  }

  /** No rendered element holds a ','. */
  predicate CommaFree(elts: seq<PgValue>)
  {
    forall k :: 0 <= k < |elts| ==> (if elts[k].GeomValue? then ',' !in elts[k].geom.wkbHex else ',' !in elts[k].text)
  }

  /** Between ARRAY[ and ] the elements' literals appear in the list's order:
      splitting there at ',' gives back exactly one literal per element. */
  lemma PgArrayElements(elts: seq<PgValue>)
    requires |elts| >= 1 && CommaFree(elts)
    requires forall k :: 0 <= k < |elts| ==> PgVal(elts[k]).Ok?
    ensures var a := PgArray(elts).value;
      && StartsWith(a, "ARRAY[") && EndsWith(a, "]")
      && var inner := Split(a[6..|a| - 1], ',');
      |inner| == |elts| && forall k :: 0 <= k < |elts| ==> inner[k] == PgVal(elts[k]).value
  {
    var vs := PgVals(elts).value;
    forall k | 0 <= k < |vs|
      ensures ',' !in vs[k]
    {
      if elts[k].GeomValue? {
        var g := elts[k].geom;
        assert vs[k] == "'" + g.wkbHex + "'::geometry";
      } else {
        assert vs[k] == "'" + elts[k].text + "'";
      }
    }
    SplitJoin(vs, ',');
    var a := "ARRAY[" + Join(vs, ",") + "]";
    assert a[6..|a| - 1] == Join(vs, ",");
  }

  // ---------------------------------------------------------------------------
  // find_nhgis_census_table

  const ValidLevels: set<string> := {"county", "tract", "blockgroup", "block"}

  /** nhgis_geo_wgs84.{level}_{geom_year}_tl{by}: for every valid level this
      is schema nhgis_geo_wgs84 and table {level}_{geom_year}_tl{by} as
      get_schema and get_table_name read it. */
  function NhgisTableName(level: string, geomYear: int, basisYear: int): (r: string)
    ensures level in ValidLevels ==>
      && GetSchema(r) == "nhgis_geo_wgs84"
      && GetTableName(r) == level + "_" + Decimal(geomYear) + "_tl" + Decimal(basisYear)
      && r == GetSchema(r) + "." + GetTableName(r)
  {
    var table := level + "_" + Decimal(geomYear) + "_tl" + Decimal(basisYear);
    if level in ValidLevels then
      NhgisTableNameParts(level, table, geomYear, basisYear);
      assert "nhgis_geo_wgs84." + table == "nhgis_geo_wgs84" + "." + table;
      "nhgis_geo_wgs84." + table
    else
      "nhgis_geo_wgs84." + table
  }

  /** The table part holds no '.' for a valid level. */
  lemma NhgisTableNameParts(level: string, table: string, geomYear: int, basisYear: int)
    requires level in ValidLevels
    requires table == level + "_" + Decimal(geomYear) + "_tl" + Decimal(basisYear)
    ensures GetSchema("nhgis_geo_wgs84." + table) == "nhgis_geo_wgs84"
    ensures GetTableName("nhgis_geo_wgs84." + table) == table
  {
    assert '.' !in level;
    assert '.' !in Decimal(geomYear) && '.' !in Decimal(basisYear);
    assert '.' !in table;
    assert "nhgis_geo_wgs84." + table == "nhgis_geo_wgs84" + "." + table;
    QualifiedNameParts("nhgis_geo_wgs84", table);
  }

  /** basis_years: the given basis year, unless it is None or 0, else every
      year from the current one down to geom_year. */
  function BasisYears(geomYear: int, basisYear: Option<int>, currentYear: int): (ys: seq<int>)
    ensures basisYear.Some? && basisYear.value != 0 ==> ys == [basisYear.value]
  {
    if basisYear.Some? && basisYear.value != 0 then [basisYear.value]
    else
      var n := if currentYear + 1 - geomYear > 0 then currentYear + 1 - geomYear else 0;
      seq(n, k requires 0 <= k < n => currentYear - k)
  }

  /** Without a basis year the search covers each year from geom_year to the
      current year once, newest first, and nothing when geom_year is later
      than the current year. */
  lemma BasisYearsRange(geomYear: int, basisYear: Option<int>, currentYear: int)
    requires basisYear.None? || basisYear.value == 0
    ensures var ys := BasisYears(geomYear, basisYear, currentYear);
      && (forall y :: y in ys <==> geomYear <= y <= currentYear)
      && (forall i, j :: 0 <= i < j < |ys| ==> ys[i] > ys[j])
      && (ys == [] <==> geomYear > currentYear)
      && (ys != [] ==> ys[0] == currentYear && ys[|ys| - 1] == geomYear)
  {
    var ys := BasisYears(geomYear, basisYear, currentYear);
    forall y | geomYear <= y <= currentYear
      ensures y in ys
    {
      assert ys[currentYear - y] == y;
    }
  }

  /** find_nhgis_census_table, with the clock's year and engine.table_exists
      as parameters. Returns the result and the names looked up, in order. */
  method FindNhgisCensusTable(level: string, geomYear: int, basisYear: Option<int>, currentYear: int,
                              tableExists: string -> bool)
    returns (r: Result<string, PgError>, tried: seq<string>)
    ensures level !in ValidLevels ==> r == Err(InvalidLevel(level)) && tried == []
    ensures level in ValidLevels ==>
      var ys := BasisYears(geomYear, basisYear, currentYear);
      && |tried| <= |ys|
      && (forall k :: 0 <= k < |tried| ==> tried[k] == NhgisTableName(level, geomYear, ys[k]))
      && (r.Ok? ==> |tried| > 0 && r.value == tried[|tried| - 1] && tableExists(r.value))
      && (forall k :: 0 <= k < |tried| - 1 ==> !tableExists(tried[k]))
      && (r.Err? ==> r == Err(TableNotFound) && |tried| == |ys| && forall k :: 0 <= k < |ys| ==> !tableExists(tried[k]))
  {
    if level !in ValidLevels {
      return Err(InvalidLevel(level)), [];
    }
    r, tried := SearchBasisYears(level, geomYear, BasisYears(geomYear, basisYear, currentYear), tableExists);
  }

  /** The `for by in basis_years` loop with its early return. */
  method SearchBasisYears(level: string, geomYear: int, basisYears: seq<int>, tableExists: string -> bool)
    returns (r: Result<string, PgError>, tried: seq<string>)
    ensures |tried| <= |basisYears|
    ensures forall k :: 0 <= k < |tried| ==> tried[k] == NhgisTableName(level, geomYear, basisYears[k])
    ensures r.Ok? ==> |tried| > 0 && r.value == tried[|tried| - 1] && tableExists(r.value)
    ensures forall k :: 0 <= k < |tried| - 1 ==> !tableExists(tried[k])
    ensures r.Err? ==> r == Err(TableNotFound) && |tried| == |basisYears| && forall k :: 0 <= k < |tried| ==> !tableExists(tried[k])
  {
    tried := [];
    ghost var names := seq(|basisYears|, k requires 0 <= k < |basisYears| => NhgisTableName(level, geomYear, basisYears[k]));
    var i := 0;
    while i < |basisYears|
      invariant 0 <= i <= |basisYears| && tried == names[..i]
      invariant forall k :: 0 <= k < i ==> !tableExists(tried[k])
    {
      var geoTable := NhgisTableName(level, geomYear, basisYears[i]);
      assert names[..i + 1] == tried + [geoTable];
      tried := tried + [geoTable];
      if tableExists(geoTable) {
        return Ok(geoTable), tried;
      }
      i := i + 1;
    }
    r := Err(TableNotFound);
  }

  /** The search finds the first year, from the top, whose table exists. */
  lemma FindPicksNewestExisting(level: string, geomYear: int, currentYear: int, tableExists: string -> bool, k: nat)
    requires geomYear <= currentYear - k
    requires tableExists(NhgisTableName(level, geomYear, currentYear - k))
    requires forall y :: currentYear - k < y <= currentYear ==> !tableExists(NhgisTableName(level, geomYear, y))
    ensures var ys := BasisYears(geomYear, None, currentYear);
      k < |ys| && ys[k] == currentYear - k &&
      forall j :: 0 <= j < k ==> !tableExists(NhgisTableName(level, geomYear, ys[j]))
  {
    var ys := BasisYears(geomYear, None, currentYear);
    assert |ys| == currentYear + 1 - geomYear;
  }
}
