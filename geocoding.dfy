/** The batch-geocoding bookkeeping of epsql.py: splitting an index range into
    chunks, geocoding the unrated rows of one chunk in place, geocoding a whole
    table chunk by chunk, and geocode_batch's shared claim cursor. The
    PostGIS geocoder is an oracle function of the address text; the thread
    pools are run one worker after another. */
module Geocoding {
  import opened Common

  datatype GeocodeError =
    | EmptyTable        // min(idx) of an empty table is None, and None + 1 raises
    | ZeroChunkSize     // range() with a step of 0 raises
    | MissingEndIdx     // begin_idx given without end_idx: the SQL reads "idx <= None"

  // ---------------------------------------------------------------------------
  // Chunk partitioning (geocode_in_place)

  /** Python's range(start, stop, step) for a step other than 0. */
  function PyRange(start: int, stop: int, step: int): seq<int>
    requires step != 0
    decreases if step > 0 then stop - start else start - stop
  {
    if step > 0 then
      if start < stop then [start] + PyRange(start + step, stop, step) else []
    else
      if start > stop then [start] + PyRange(start + step, stop, step) else []
  }

  /** One chunk handed to geocode_chunk_in_place: begin_idx and end_idx. */
  datatype Chunk = Chunk(begin: int, end: int)

  function Min(a: int, b: int): int { if a <= b then a else b }

  /** range(min_idx, max_idx + 1, chunk_size), each begin c paired with the end
      min(c + chunk_size - 1, max_idx). */
  function Chunks(minIdx: int, maxIdx: int, chunkSize: int): (r: Result<seq<Chunk>, GeocodeError>)
    ensures r.Err? <==> chunkSize == 0
    ensures r.Err? ==> r.error == ZeroChunkSize
  {
    if chunkSize == 0 then Err(ZeroChunkSize)
    else
      var begins := PyRange(minIdx, maxIdx + 1, chunkSize);
      Ok(seq(|begins|, k requires 0 <= k < |begins| => Chunk(begins[k], Min(begins[k] + chunkSize - 1, maxIdx))))
  }

  lemma MulMono(a: int, b: int, c: int)
    requires a <= b && c >= 0
    ensures a * c <= b * c
  {
    var d := b - a;
    assert b * c == a * c + d * c;
  }

  lemma DivUnique(x: int, d: int, q: int, r: int)
    requires d > 0 && 0 <= r < d && x == q * d + r
    ensures x / d == q
  {
    var q', r' := x / d, x % d;
    assert x == q' * d + r';
    if q' < q {
      assert (q' + 1) * d == q' * d + d;
      MulMono(q' + 1, q, d);
    } else if q' > q {
      assert (q + 1) * d == q * d + d;
      MulMono(q + 1, q', d);
    }
  }

  lemma DivStep(x: int, step: int)
    requires step > 0 && x >= step
    ensures (x - step) / step + 1 == x / step
  {
    var q, m := (x - step) / step, (x - step) % step;
    assert x - step == q * step + m;
    assert (q + 1) * step == q * step + step;
    DivUnique(x, step, q + 1, m);
  }

  lemma DivSmall(x: int, step: int)
    requires 0 <= x < step
    ensures x / step == 0
  {
    DivUnique(x, step, 0, x);
  }

  /** A non-empty chunk list is its first chunk followed by the chunks of the
      range that starts chunk_size further on. */
  lemma ChunksUnfold(minIdx: int, maxIdx: int, chunkSize: int)
    requires chunkSize > 0 && minIdx <= maxIdx
    ensures Chunks(minIdx, maxIdx, chunkSize).value
         == [Chunk(minIdx, Min(minIdx + chunkSize - 1, maxIdx))] + Chunks(minIdx + chunkSize, maxIdx, chunkSize).value
  {
    var begins := PyRange(minIdx, maxIdx + 1, chunkSize);
    assert begins == [minIdx] + PyRange(minIdx + chunkSize, maxIdx + 1, chunkSize);
  }

  /** With a positive chunk size there are ceil((max - min + 1) / chunk_size)
      chunks, none at all when max < min. The first begins at min and each
      next one chunk_size later, right after the previous one ends; the last
      ends at max; each holds between 1 and chunk_size indices. */
  lemma {:induction false} ChunkShape(minIdx: int, maxIdx: int, chunkSize: int)
    requires chunkSize > 0
    ensures var cs := Chunks(minIdx, maxIdx, chunkSize).value;
      && (cs == [] <==> maxIdx < minIdx)
      && |cs| == (if maxIdx < minIdx then 0 else (maxIdx - minIdx + chunkSize) / chunkSize)
      && (cs != [] ==> cs[0].begin == minIdx && cs[|cs| - 1].end == maxIdx)
      && (forall k :: 0 <= k < |cs| ==> minIdx <= cs[k].begin <= cs[k].end <= maxIdx && cs[k].end - cs[k].begin < chunkSize)
      && (forall k :: 0 <= k < |cs| - 1 ==> cs[k + 1].begin == cs[k].begin + chunkSize == cs[k].end + 1)
    decreases maxIdx - minIdx
  {
    if minIdx <= maxIdx {
      ChunksUnfold(minIdx, maxIdx, chunkSize);
      ChunkShape(minIdx + chunkSize, maxIdx, chunkSize);
      if minIdx + chunkSize <= maxIdx {
        DivStep(maxIdx - minIdx + chunkSize, chunkSize);
      } else {
        DivSmall(maxIdx - minIdx, chunkSize);
        assert (maxIdx - minIdx) + chunkSize == 1 * chunkSize + (maxIdx - minIdx);
        DivUnique(maxIdx - minIdx + chunkSize, chunkSize, 1, maxIdx - minIdx);
      }
    }
  }

  /** Chunks earlier in the list lie wholly before later ones. */
  lemma {:induction false} ChunksDisjoint(minIdx: int, maxIdx: int, chunkSize: int)
    requires chunkSize > 0
    ensures var cs := Chunks(minIdx, maxIdx, chunkSize).value;
      forall j, k :: 0 <= j < k < |cs| ==> cs[j].end < cs[k].begin
    decreases maxIdx - minIdx
  {
    if minIdx <= maxIdx {
      var cs := Chunks(minIdx, maxIdx, chunkSize).value;
      ChunksUnfold(minIdx, maxIdx, chunkSize);
      ChunksDisjoint(minIdx + chunkSize, maxIdx, chunkSize);
      ChunkShape(minIdx + chunkSize, maxIdx, chunkSize);
      forall j, k | 0 <= j < k < |cs|
        ensures cs[j].end < cs[k].begin
      {
        if j == 0 {
          assert cs[k] == Chunks(minIdx + chunkSize, maxIdx, chunkSize).value[k - 1];
        }
      }
    }
  }

  /** Every index from min to max lies in some chunk. */
  lemma {:induction false} ChunksCover(minIdx: int, maxIdx: int, chunkSize: int, idx: int)
    requires chunkSize > 0 && minIdx <= idx <= maxIdx
    ensures var cs := Chunks(minIdx, maxIdx, chunkSize).value;
      exists k :: 0 <= k < |cs| && cs[k].begin <= idx <= cs[k].end
    decreases maxIdx - minIdx
  {
    var cs := Chunks(minIdx, maxIdx, chunkSize).value;
    ChunksUnfold(minIdx, maxIdx, chunkSize);
    if idx <= Min(minIdx + chunkSize - 1, maxIdx) {
      assert cs[0].begin <= idx <= cs[0].end;
    } else {
      ChunksCover(minIdx + chunkSize, maxIdx, chunkSize, idx);
      var rest := Chunks(minIdx + chunkSize, maxIdx, chunkSize).value;
      var k :| 0 <= k < |rest| && rest[k].begin <= idx <= rest[k].end;
      assert cs[k + 1] == rest[k];
    }
  }

  /** A negative step never reaches a stop above the start. */
  lemma PyRangeDescendingEmpty(start: int, stop: int, step: int)
    requires step < 0 && start <= stop
    ensures PyRange(start, stop, step) == []
  {
  }

  // ---------------------------------------------------------------------------
  // Chunk geocoding in place (geocode_chunk_in_place)

  /** A row of the address table: the column geocoding reads and the three it
      writes. */
  datatype AddressRow = AddressRow(fullAddress: string, rating: Option<int>,
                                   normalizedAddress: Option<string>, geom: Option<Geometry>)

  /** The best match the geocoder finds for an address: its rating, its
      normalized address and its location, already reprojected to WGS84. */
  datatype Match = Match(rating: int, normalizedAddress: string, geom: Geometry)

  /** The rows a chunk call names: all of them when begin_idx is None, or
      those with begin <= idx <= end. */
  datatype IdxRange = AllRows | Between(begin: int, end: int)

  predicate InRange(range: IdxRange, idx: int)
  {
    range.AllRows? || range.begin <= idx <= range.end
  }

  /** A row the chunk call geocodes: present, still unrated and in range. */
  predicate Pending(rows: map<int, AddressRow>, range: IdxRange, idx: int)
  {
    idx in rows && rows[idx].rating.None? && InRange(range, idx)
  }

  /** The result columns one geocoded row receives: the match's columns, or
      rating -1 and nulls when the left join found nothing. */
  function GeocodeRow(row: AddressRow, geocoder: string -> Option<Match>): AddressRow
  {
    match geocoder(row.fullAddress)
    case None => AddressRow(row.fullAddress, Some(-1), None, None)
    case Some(m) => AddressRow(row.fullAddress, Some(m.rating), Some(m.normalizedAddress), Some(m.geom))
  }

  /** The table after one chunk call with a valid range. */
  function GeocodedChunk(rows: map<int, AddressRow>, geocoder: string -> Option<Match>, range: IdxRange): (r: map<int, AddressRow>)
    ensures r.Keys == rows.Keys
    ensures forall idx :: idx in rows && !Pending(rows, range, idx) ==> r[idx] == rows[idx]
    ensures forall idx :: Pending(rows, range, idx) ==>
      && r[idx].fullAddress == rows[idx].fullAddress
      && r[idx].rating.Some?
      && (geocoder(rows[idx].fullAddress).None? ==> r[idx].rating == Some(-1) && r[idx].normalizedAddress.None? && r[idx].geom.None?)
      && (geocoder(rows[idx].fullAddress).Some? ==>
            var m := geocoder(rows[idx].fullAddress).value;
            r[idx].rating == Some(m.rating) && r[idx].normalizedAddress == Some(m.normalizedAddress) && r[idx].geom == Some(m.geom))
  {
    map idx | idx in rows :: if Pending(rows, range, idx) then GeocodeRow(rows[idx], geocoder) else rows[idx]
  }

  /** Every row a chunk call leaves behind in its range is rated. */
  lemma GeocodedChunkRated(rows: map<int, AddressRow>, geocoder: string -> Option<Match>, range: IdxRange)
    ensures forall idx :: idx in rows && InRange(range, idx) ==> GeocodedChunk(rows, geocoder, range)[idx].rating.Some?
  {
    forall idx | idx in rows && InRange(range, idx)
      ensures GeocodedChunk(rows, geocoder, range)[idx].rating.Some?
    {
      if !Pending(rows, range, idx) {
        assert rows[idx].rating.Some?;
      }
    }
  }

  /** A second run of the same chunk changes nothing. */
  lemma GeocodedChunkIdempotent(rows: map<int, AddressRow>, geocoder: string -> Option<Match>, range: IdxRange)
    ensures GeocodedChunk(GeocodedChunk(rows, geocoder, range), geocoder, range) == GeocodedChunk(rows, geocoder, range)
  {
    var once := GeocodedChunk(rows, geocoder, range);
    GeocodedChunkRated(rows, geocoder, range);
    assert forall idx :: !Pending(once, range, idx);
  }

  /** Chunk calls commute: the thread pool may run them in any order and the
      table ends the same. */
  lemma GeocodedChunksCommute(rows: map<int, AddressRow>, geocoder: string -> Option<Match>, a: IdxRange, b: IdxRange)
    ensures GeocodedChunk(GeocodedChunk(rows, geocoder, a), geocoder, b)
         == GeocodedChunk(GeocodedChunk(rows, geocoder, b), geocoder, a)
  {
    var ab := GeocodedChunk(GeocodedChunk(rows, geocoder, a), geocoder, b);
    var ba := GeocodedChunk(GeocodedChunk(rows, geocoder, b), geocoder, a);
    forall idx | idx in rows
      ensures ab[idx] == ba[idx]
    {
      GeocodedChunkRated(rows, geocoder, a);
      GeocodedChunkRated(rows, geocoder, b);
    }
  }

  /** Two adjacent chunk calls do what one call over both ranges does. */
  lemma GeocodedChunksJoin(rows: map<int, AddressRow>, geocoder: string -> Option<Match>, lo: int, mid: int, hi: int)
    requires lo <= mid + 1 && mid <= hi
    ensures GeocodedChunk(GeocodedChunk(rows, geocoder, Between(lo, mid)), geocoder, Between(mid + 1, hi))
         == GeocodedChunk(rows, geocoder, Between(lo, hi))
  {
    var two := GeocodedChunk(GeocodedChunk(rows, geocoder, Between(lo, mid)), geocoder, Between(mid + 1, hi));
    var one := GeocodedChunk(rows, geocoder, Between(lo, hi));
    forall idx | idx in rows
      ensures two[idx] == one[idx]
    {
      GeocodedChunkRated(rows, geocoder, Between(lo, mid));
    }
  }

  /** A range that holds every index of the table is the whole table. */
  lemma GeocodedChunkWhole(rows: map<int, AddressRow>, geocoder: string -> Option<Match>, lo: int, hi: int)
    requires forall idx :: idx in rows ==> lo <= idx <= hi
    ensures GeocodedChunk(rows, geocoder, Between(lo, hi)) == GeocodedChunk(rows, geocoder, AllRows)
  {
    var between := GeocodedChunk(rows, geocoder, Between(lo, hi));
    var all := GeocodedChunk(rows, geocoder, AllRows);
    forall idx | idx in rows
      ensures between[idx] == all[idx]
    {
      assert Pending(rows, Between(lo, hi), idx) == Pending(rows, AllRows, idx);
    }
  }

  /** An empty range leaves the table as it is. */
  lemma GeocodedChunkEmpty(rows: map<int, AddressRow>, geocoder: string -> Option<Match>, lo: int, hi: int)
    requires hi < lo
    ensures GeocodedChunk(rows, geocoder, Between(lo, hi)) == rows
  {
    var r := GeocodedChunk(rows, geocoder, Between(lo, hi));
    assert forall idx :: idx in rows ==> r[idx] == rows[idx];
  }

  /** The condition geocode_chunk_in_place puts on the rows it selects. */
  function ChunkRange(beginIdx: Option<int>, endIdx: Option<int>): (r: Result<IdxRange, GeocodeError>)
    ensures r.Err? <==> beginIdx.Some? && endIdx.None?
    ensures r.Ok? && beginIdx.None? ==> r.value == AllRows
    ensures r.Ok? && beginIdx.Some? ==> r.value == Between(beginIdx.value, endIdx.value)
  {
    match beginIdx
    case None => Ok(AllRows)
    case Some(b) => if endIdx.None? then Err(MissingEndIdx) else Ok(Between(b, endIdx.value))
  }

  /** What `select min(idx)` and `select max(idx)` answer: None for an empty
      table. */
  predicate IdxBounds(rows: map<int, AddressRow>, minIdx: Option<int>, maxIdx: Option<int>)
  {
    && (minIdx.None? <==> rows == map[])
    && (maxIdx.None? <==> rows == map[])
    && (minIdx.Some? ==> minIdx.value in rows && forall idx :: idx in rows ==> minIdx.value <= idx)
    && (maxIdx.Some? ==> maxIdx.value in rows && forall idx :: idx in rows ==> idx <= maxIdx.value)
  }

  /** An address table whose rows are keyed by idx. */
  class AddressTable {
    var rows: map<int, AddressRow>

    constructor (rows: map<int, AddressRow>)
      ensures this.rows == rows
    {
      this.rows := rows;
    }

    /** geocode_chunk_in_place: geocodes the unrated rows of the range and
        writes the results back; the table is left as it was when the SQL is
        malformed. */
    method GeocodeChunkInPlace(geocoder: string -> Option<Match>, beginIdx: Option<int>, endIdx: Option<int>)
      returns (err: Option<GeocodeError>)
      modifies this
      ensures err.Some? <==> beginIdx.Some? && endIdx.None?
      ensures err.Some? ==> err.value == MissingEndIdx && rows == old(rows)
      ensures err.None? ==> rows == GeocodedChunk(old(rows), geocoder, ChunkRange(beginIdx, endIdx).value)
    {
      var range := ChunkRange(beginIdx, endIdx);
      if range.Err? {
        return Some(range.error);
      }
      rows := GeocodedChunk(rows, geocoder, range.value);
      return None;
    }

    /** geocode_in_place: one chunk call per chunk of range(min, max + 1,
        chunk_size). With a positive chunk size every unrated row ends
        geocoded; a negative one yields no chunks and changes nothing.
        minIdx and maxIdx are the database's answers to the two aggregate
        queries. */
    method GeocodeInPlace(geocoder: string -> Option<Match>, chunkSize: int, minIdx: Option<int>, maxIdx: Option<int>)
      returns (err: Option<GeocodeError>)
      requires IdxBounds(rows, minIdx, maxIdx)
      modifies this
      ensures err.Some? <==> old(rows) == map[] || chunkSize == 0
      ensures err.Some? ==> rows == old(rows)
      ensures err.Some? && old(rows) == map[] ==> err.value == EmptyTable
      ensures err.Some? && old(rows) != map[] ==> err.value == ZeroChunkSize
      ensures err.None? ==> rows == if chunkSize > 0 then GeocodedChunk(old(rows), geocoder, AllRows) else old(rows)
    {
      if minIdx.None? || maxIdx.None? {
        return Some(EmptyTable);
      }
      var lo, hi := minIdx.value, maxIdx.value;
      var chunks := Chunks(lo, hi, chunkSize);
      if chunks.Err? {
        return Some(chunks.error);
      }
      var cs := chunks.value;
      if chunkSize > 0 {
        ChunkShape(lo, hi, chunkSize);
      } else {
        PyRangeDescendingEmpty(lo, hi + 1, chunkSize);
      }
      ghost var start := rows;
      GeocodedChunkEmpty(start, geocoder, lo, lo - 1);
      var i := 0;
      while i < |cs|
        invariant 0 <= i <= |cs|
        invariant rows == GeocodedChunk(start, geocoder, Between(lo, if i == 0 then lo - 1 else cs[i - 1].end))
      {
        assert cs[i].begin - 1 == if i == 0 then lo - 1 else cs[i - 1].end;
        var e := GeocodeChunkInPlace(geocoder, Some(cs[i].begin), Some(cs[i].end));
        GeocodedChunksJoin(start, geocoder, lo, cs[i].begin - 1, cs[i].end);
        i := i + 1;
      }
      if chunkSize > 0 {
        GeocodedChunkWhole(start, geocoder, lo, hi);
      }
      return None;
    }
  }

  // ---------------------------------------------------------------------------
  // The claim cursor of geocode_batch

  /** The shared counter `i` of geocode_batch's workers: claiming takes slot
      i - 1 and counts down, under the mutex, so that slots are claimed from
      n - 1 down to 0, each at most once; the finally block aborts by setting
      it to 0. `claimed` records the slots handed out. */
  class ClaimCursor {
    var next: nat
    ghost const total: nat
    ghost var claimed: seq<nat>
    ghost var aborted: bool

    ghost predicate Valid()
      reads this
    {
      && |claimed| <= total
      && (forall j :: 0 <= j < |claimed| ==> claimed[j] == total - 1 - j)
      && (if aborted then next == 0 else next == total - |claimed|)
    }

    constructor (n: nat)
      ensures Valid() && next == n && total == n && claimed == [] && !aborted
    {
      next := n;
      total := n;
      claimed := [];
      aborted := false;
    }

    method Claim() returns (slot: Option<nat>)
      requires Valid()
      modifies this
      ensures Valid() && aborted == old(aborted)
      ensures old(next) == 0 ==> slot.None? && next == 0 && claimed == old(claimed)
      ensures old(next) > 0 ==>
        slot == Some(old(next) - 1) && next == old(next) - 1 && claimed == old(claimed) + [old(next) - 1]
    {
      if next == 0 {
        return None;
      }
      next := next - 1;
      claimed := claimed + [next];
      return Some(next);
    }

    method Abort()
      requires Valid()
      modifies this
      ensures Valid() && next == 0 && aborted && claimed == old(claimed)
    {
      next := 0;
      aborted := true;
    }
  }

  /** Whether slot k, once claimed, was geocoded and its result stored. */
  predicate Stored<R(==), E>(ret: seq<Option<R>>, addresses: seq<string>, maxResults: int,
                         geocodeOne: (string, int) -> Result<R, E>, k: int)
    requires 0 <= k < |ret| && |ret| == |addresses|
  {
    if geocodeOne(addresses[k], maxResults).Ok? then ret[k] == Some(geocodeOne(addresses[k], maxResults).value)
    else ret[k].None?
  }

  /** One worker (geocode() inside geocode_batch): it claims slots until the
      cursor reaches 0, storing each result, and stops at the first address
      whose geocode raises. */
  method Worker<R(==), E>(cursor: ClaimCursor, ret: array<Option<R>>, addresses: seq<string>, maxResults: int,
                      geocodeOne: (string, int) -> Result<R, E>) returns (failure: Option<E>)
    requires cursor.Valid() && !cursor.aborted && cursor.total == |addresses| == ret.Length
    modifies cursor, ret
    ensures cursor.Valid() && !cursor.aborted && cursor.next <= old(cursor.next)
    ensures failure.None? ==> cursor.next == 0
    ensures failure.Some? ==>
      cursor.next < old(cursor.next) && geocodeOne(addresses[cursor.next], maxResults) == Err(failure.value)
    ensures forall k :: 0 <= k < ret.Length ==>
      if cursor.next <= k < old(cursor.next) && !(failure.Some? && k == cursor.next) then
        geocodeOne(addresses[k], maxResults).Ok? && ret[k] == Some(geocodeOne(addresses[k], maxResults).value)
      else ret[k] == old(ret[k])
  {
    failure := None;
    while true
      invariant cursor.Valid() && !cursor.aborted && cursor.next <= old(cursor.next)
      invariant forall k :: 0 <= k < ret.Length ==>
        if cursor.next <= k < old(cursor.next) then
          geocodeOne(addresses[k], maxResults).Ok? && ret[k] == Some(geocodeOne(addresses[k], maxResults).value)
        else ret[k] == old(ret[k])
      decreases cursor.next
    {
      var slot := cursor.Claim();
      if slot.None? {
        return;
      }
      var mine := slot.value;
      var res := geocodeOne(addresses[mine], maxResults);
      if res.Err? {
        return Some(res.error);
      }
      ret[mine] := Some(res.value);
    }
  }

  /** geocode_batch with its nthreads workers run one after another, each to
      its end: a result per address in order, or the error of the first
      worker that failed, which join re-raises after the cursor is aborted. */
  method GeocodeBatch<R(==), E>(addresses: seq<string>, maxResults: int, nthreads: int,
                            geocodeOne: (string, int) -> Result<R, E>) returns (r: Result<seq<Option<R>>, E>)
    ensures nthreads <= 0 ==> r.Ok? && |r.value| == |addresses| && forall k :: 0 <= k < |addresses| ==> r.value[k].None?
    ensures nthreads > 0 ==> (r.Ok? <==> forall k :: 0 <= k < |addresses| ==> geocodeOne(addresses[k], maxResults).Ok?)
    ensures r.Ok? ==> |r.value| == |addresses|
    ensures r.Ok? && nthreads > 0 ==> forall k :: 0 <= k < |addresses| ==>
      r.value[k] == Some(geocodeOne(addresses[k], maxResults).value)
    ensures r.Err? ==> exists k :: (0 <= k < |addresses| && geocodeOne(addresses[k], maxResults) == Err(r.error) &&
      forall j :: k < j < |addresses| ==> geocodeOne(addresses[j], maxResults).Ok?)
  {
    var n := |addresses|;
    var ret := new Option<R>[n];
    forall k | 0 <= k < n {
      ret[k] := None;
    }
    var cursor := new ClaimCursor(n);
    var firstFailure: Option<E> := None;
    var t := 0;
    while t < nthreads
      invariant cursor.Valid() && !cursor.aborted && cursor.total == n && ret.Length == n
      invariant t > 0 && firstFailure.None? ==> cursor.next == 0
      invariant 0 <= t && (nthreads <= 0 ==> t == 0)
      invariant t == 0 ==> firstFailure.None? && cursor.next == n
      invariant forall k :: 0 <= k < n ==> if cursor.next <= k then Stored(ret[..], addresses, maxResults, geocodeOne, k) else ret[k].None?
      invariant firstFailure.None? ==> forall k :: cursor.next <= k < n ==> geocodeOne(addresses[k], maxResults).Ok?
      invariant firstFailure.Some? ==> exists k :: (cursor.next <= k < n && geocodeOne(addresses[k], maxResults) == Err(firstFailure.value) &&
        forall j :: k < j < n ==> geocodeOne(addresses[j], maxResults).Ok?)
      decreases nthreads - t
    {
      ghost var before := cursor.next;
      var failure := Worker(cursor, ret, addresses, maxResults, geocodeOne);
      if failure.Some? && firstFailure.None? {
        firstFailure := failure;
        assert geocodeOne(addresses[cursor.next], maxResults) == Err(firstFailure.value);
      }
      t := t + 1;
    }
    cursor.Abort();
    if firstFailure.Some? {
      return Err(firstFailure.value);
    }
    return Ok(ret[..]);
  }
}
