/**
  The thread-safe bucketed grid of `SpatialIndex.h` / `SpatialIndex.cpp`.

  The square map [-mapSize, mapSize]^2 is cut into 16 x 16 square chunks;
  each chunk holds the ids of the agents registered in it. Every operation
  finds its chunk with `ChunkIndex`; the C++ code reaches the chunk with
  `std::vector::at`, which throws when the index is out of range, and that
  failure is the `OutOfRange` result here. The grid's mutex is not modelled.
 */
module SpatialIndex {
  import opened Vec2f
  import opened Buckets

  /** `divisions_per_dimension`: chunks along each axis. */
  const DivisionsPerDimension: int := 16

  /** Number of chunks in the grid. */
  const ChunkCount: int := DivisionsPerDimension * DivisionsPerDimension

  /** A grid operation either succeeds or hits `at()` with a chunk index out of range. */
  datatype Result<T> = Ok(value: T) | OutOfRange(chunk: int)

  /** The grid: the map half-size, the side of one chunk, and the chunks in row-major order. */
  datatype Index = Index(mapSize: real, chunkSize: real, chunks: seq<Bucket>)

  /** A grid as built for a positive map size. */
  predicate Valid(g: Index) {
    && g.mapSize > 0.0
    && g.chunkSize * (DivisionsPerDimension as real) == 2.0 * g.mapSize
    && |g.chunks| == ChunkCount
  }

  /** Two grids over the same map with the same number of chunks. */
  predicate SameShape(g: Index, h: Index) {
    g.mapSize == h.mapSize && g.chunkSize == h.chunkSize && |g.chunks| == |h.chunks|
  }

  /** Every chunk other than `c` holds the same ids in `g` and `h`. */
  predicate OthersUnchanged(g: Index, h: Index, c: int)
    requires |g.chunks| == |h.chunks|
  {
    forall k :: 0 <= k < |g.chunks| && k != c ==> h.chunks[k] == g.chunks[k]
  }

  /** A position inside the closed map square `[-half, half]²`. */
  predicate InMap(half: real, p: Vec2) {
    -half <= p.x <= half && -half <= p.y <= half
  }

  /** The constructor: 256 empty chunks, each `2 * mapSize / 16` wide. */
  function New(mapSize: real): (g: Index)
    ensures g.mapSize == mapSize
    ensures |g.chunks| == ChunkCount
    ensures forall c :: 0 <= c < |g.chunks| ==> g.chunks[c] == []
    ensures Total(g.chunks) == 0
    ensures g.chunkSize * (DivisionsPerDimension as real) == 2.0 * mapSize
    ensures mapSize > 0.0 ==> Valid(g)
  {
    var chunks := seq(ChunkCount, _ => []);
    TotalEmpty(chunks);
    Index(mapSize, (mapSize * 2.0) / (DivisionsPerDimension as real), chunks)
  }

  /** The number of ids held across all chunks. */
  function Total(chunks: seq<Bucket>): nat
    decreases |chunks|
  {
    if |chunks| == 0 then 0 else |chunks[0]| + Total(chunks[1..])
  }

  lemma {:induction false} TotalEmpty(chunks: seq<Bucket>)
    requires forall c :: 0 <= c < |chunks| ==> chunks[c] == []
    ensures Total(chunks) == 0
    decreases |chunks|
  {
    if |chunks| > 0 {
      TotalEmpty(chunks[1..]);
    }
  }

  /** Replacing one chunk changes the total by the difference in that chunk's size. */
  lemma {:induction false} TotalUpdate(chunks: seq<Bucket>, k: nat, b: Bucket)
    requires k < |chunks|
    ensures Total(chunks[k := b]) == Total(chunks) - |chunks[k]| + |b|
    decreases |chunks|
  {
    if k > 0 {
      assert chunks[k := b][1..] == chunks[1..][k - 1 := b];
      TotalUpdate(chunks[1..], k - 1, b);
    }
  }

  // ---------------------------------------------------------------------------
  // chunk_index
  // ---------------------------------------------------------------------------

  /** The C++ `(int)` conversion of a real: truncation toward zero. */
  function Truncate(r: real): (n: int)
    ensures 0.0 <= r ==> n as real <= r < n as real + 1.0
    ensures r < 0.0 ==> n as real - 1.0 < r <= n as real
  {
    if r >= 0.0 then r.Floor else -((-r).Floor)
  }

  /**
    The chunk column (or row) of one coordinate: shift by the map half-size,
    divide by the chunk size, truncate, and cap at the last column. There is
    no lower clamp.
   */
  function Column(g: Index, coord: real): (c: int)
    requires Valid(g)
    ensures c <= DivisionsPerDimension - 1
  {
    var t := Truncate((coord + g.mapSize) / g.chunkSize);
    if t < DivisionsPerDimension - 1 then t else DivisionsPerDimension - 1
  }

  /** `chunk_index`: the flat, row-major chunk id of a position. */
  function ChunkIndex(g: Index, p: Vec2): (c: int)
    requires Valid(g)
    ensures c < ChunkCount
  {
    Column(g, p.x) + Column(g, p.y) * DivisionsPerDimension
  }

  /** The chunk id of a position depends only on the grid's shape, not on its contents. */
  lemma ChunkIndexSameShape(g: Index, h: Index, p: Vec2)
    requires Valid(g) && Valid(h) && SameShape(g, h)
    ensures ChunkIndex(g, p) == ChunkIndex(h, p)
  {
  }

  /**
    The reference geometry of the partition: column `c` covers the half-open
    strip [-mapSize + c*chunkSize, -mapSize + (c+1)*chunkSize), and the last
    column also owns the far edge `mapSize`.
   */
  predicate InStrip(g: Index, coord: real, c: int) {
    && 0 <= c < DivisionsPerDimension
    && -g.mapSize + (c as real) * g.chunkSize <= coord
    && (coord < -g.mapSize + ((c + 1) as real) * g.chunkSize
        || (c == DivisionsPerDimension - 1 && coord == g.mapSize))
  }

  lemma LeQuotient(a: real, b: real, x: real)
    requires b > 0.0
    ensures x * b <= a <==> x <= a / b
  {
  }

  lemma GeQuotient(a: real, b: real, x: real)
    requires b > 0.0
    ensures a <= x * b <==> a / b <= x
  {
  }

  lemma LtQuotient(a: real, b: real, x: real)
    requires b > 0.0
    ensures a < x * b <==> a / b < x
  {
  }

  lemma ScaleMonotone(x: real, y: real, b: real)
    requires x <= y && b > 0.0
    ensures x * b <= y * b
  {
  }

  /**
    A coordinate's column is non-negative exactly when the coordinate lies
    less than one chunk to the left of the map: truncation rounds the small
    negative quotients of that band up to column 0.
   */
  lemma ColumnNonNegative(g: Index, coord: real)
    requires Valid(g)
    ensures 0 <= Column(g, coord) <==> -g.mapSize - g.chunkSize < coord
  {
    var cs := g.chunkSize;
    var a := coord + g.mapSize;
    var u := a / cs;
    var t := Truncate(u);
    assert Column(g, coord) == if t < 15 then t else 15;
    GeQuotient(a, cs, -1.0);
    assert a <= -cs <==> u <= -1.0;
  }

  /** Every coordinate of the closed map interval falls in the strip of its column. */
  lemma ColumnInStrip(g: Index, coord: real)
    requires Valid(g)
    requires -g.mapSize <= coord <= g.mapSize
    ensures InStrip(g, coord, Column(g, coord))
  {
    var cs := g.chunkSize;
    var a := coord + g.mapSize;
    var u := a / cs;
    var t := Truncate(u);
    var c := Column(g, coord);
    assert c == if t < 15 then t else 15;
    LeQuotient(a, cs, 0.0);
    assert 0.0 <= u;
    LeQuotient(a, cs, c as real);
    LtQuotient(a, cs, (c + 1) as real);
    if t >= 15 {
      LtQuotient(a, cs, 16.0);
      assert a < 16.0 * cs || a == 16.0 * cs;
    }
  }

  /** Strips of distinct columns are disjoint. */
  lemma StripUnique(g: Index, coord: real, c1: int, c2: int)
    requires Valid(g)
    requires InStrip(g, coord, c1) && InStrip(g, coord, c2)
    ensures c1 == c2
  {
    if c1 < c2 {
      StripsOrdered(g, coord, c1, c2);
    } else if c2 < c1 {
      StripsOrdered(g, coord, c2, c1);
    }
  }

  /** A lower column's strip ends before a higher column's strip begins. */
  lemma StripsOrdered(g: Index, coord: real, lo: int, hi: int)
    requires Valid(g)
    requires lo < hi && InStrip(g, coord, lo)
    ensures !InStrip(g, coord, hi)
  {
    ScaleMonotone((lo + 1) as real, hi as real, g.chunkSize);
  }

  /** Within the map, a coordinate's column is exactly the strip that contains it. */
  lemma ColumnIsStrip(g: Index, coord: real, c: int)
    requires Valid(g)
    requires -g.mapSize <= coord <= g.mapSize
    ensures InStrip(g, coord, c) <==> c == Column(g, coord)
  {
    ColumnInStrip(g, coord);
    if InStrip(g, coord, c) {
      StripUnique(g, coord, c, Column(g, coord));
    }
  }

  /** The position `mapSize` itself clamps to the last column. */
  lemma ColumnAtFarEdge(g: Index)
    requires Valid(g)
    ensures Column(g, g.mapSize) == DivisionsPerDimension - 1
  {
    var a := g.mapSize + g.mapSize;
    LeQuotient(a, g.chunkSize, 16.0);
    assert 16.0 <= a / g.chunkSize;
  }

  /** Distinct (column, row) cells of the 16 x 16 grid have distinct flat ids. */
  lemma CellIdInjective(x1: int, y1: int, x2: int, y2: int)
    requires 0 <= x1 < DivisionsPerDimension && 0 <= y1 < DivisionsPerDimension
    requires 0 <= x2 < DivisionsPerDimension && 0 <= y2 < DivisionsPerDimension
    requires x1 + y1 * DivisionsPerDimension == x2 + y2 * DivisionsPerDimension
    ensures x1 == x2 && y1 == y2
  {
  }

  /**
    Positions less than one chunk outside the left and bottom edges, and all
    positions inside the map, get a chunk id in [0, 256).
   */
  lemma ChunkIndexInRange(g: Index, p: Vec2)
    requires Valid(g)
    requires -g.mapSize - g.chunkSize < p.x && -g.mapSize - g.chunkSize < p.y
    ensures 0 <= Column(g, p.x) < DivisionsPerDimension
    ensures 0 <= Column(g, p.y) < DivisionsPerDimension
    ensures 0 <= ChunkIndex(g, p) < ChunkCount
  {
    ColumnNonNegative(g, p.x);
    ColumnNonNegative(g, p.y);
  }

  /** Every position of the closed map square has a chunk id in [0, 256). */
  lemma InMapChunkIndexInRange(g: Index, p: Vec2)
    requires Valid(g) && InMap(g.mapSize, p)
    ensures 0 <= ChunkIndex(g, p) < ChunkCount
  {
    assert g.chunkSize > 0.0;
    ChunkIndexInRange(g, p);
  }

  /**
    `chunk_index` partitions the map: an in-map position has chunk id
    `cx + 16 * cy` exactly when its coordinates lie in column `cx` and row `cy`.
   */
  lemma ChunkIndexIsCell(g: Index, p: Vec2, cx: int, cy: int)
    requires Valid(g) && InMap(g.mapSize, p)
    requires 0 <= cx < DivisionsPerDimension && 0 <= cy < DivisionsPerDimension
    ensures ChunkIndex(g, p) == cx + cy * DivisionsPerDimension
            <==> InStrip(g, p.x, cx) && InStrip(g, p.y, cy)
  {
    ColumnIsStrip(g, p.x, cx);
    ColumnIsStrip(g, p.y, cy);
    assert g.chunkSize > 0.0;
    ChunkIndexInRange(g, p);
    if ChunkIndex(g, p) == cx + cy * DivisionsPerDimension {
      CellIdInjective(Column(g, p.x), Column(g, p.y), cx, cy);
    }
  }

  // ---------------------------------------------------------------------------
  // set, remove, moved, close_to
  // ---------------------------------------------------------------------------

  /** Whether `at()` accepts the chunk id of `p`. */
  predicate Reachable(g: Index, p: Vec2)
    requires Valid(g)
  {
    0 <= ChunkIndex(g, p) < |g.chunks|
  }

  /** `set`: register agent `id` at position `p` by appending it to that position's chunk. */
  function Set(g: Index, id: nat, p: Vec2): (r: Result<Index>)
    requires Valid(g)
    ensures r.Ok? <==> Reachable(g, p)
    ensures r.OutOfRange? ==> r.chunk == ChunkIndex(g, p)
    ensures r.Ok? ==>
      var c := ChunkIndex(g, p);
      && Valid(r.value) && SameShape(g, r.value)
      && r.value.chunks[c] == g.chunks[c] + [id]
      && OthersUnchanged(g, r.value, c)
      && Total(r.value.chunks) == Total(g.chunks) + 1
  {
    var c := ChunkIndex(g, p);
    if 0 <= c < |g.chunks| then
      TotalUpdate(g.chunks, c, g.chunks[c] + [id]);
      Ok(g.(chunks := g.chunks[c := g.chunks[c] + [id]]))
    else
      OutOfRange(c)
  }

  /**
    `remove` with the erase-remove idiom completed: every copy of `id` leaves
    the chunk of `p`, the other ids keep their order, and nothing else changes.
   */
  function Remove(g: Index, id: nat, p: Vec2): (r: Result<Index>)
    requires Valid(g)
    ensures r.Ok? <==> Reachable(g, p)
    ensures r.OutOfRange? ==> r.chunk == ChunkIndex(g, p)
    ensures r.Ok? ==>
      var c := ChunkIndex(g, p);
      && Valid(r.value) && SameShape(g, r.value)
      && id !in r.value.chunks[c]
      && (forall x :: x != id ==> multiset(r.value.chunks[c])[x] == multiset(g.chunks[c])[x])
      && |r.value.chunks[c]| == |g.chunks[c]| - multiset(g.chunks[c])[id]
      && OthersUnchanged(g, r.value, c)
    ensures r.Ok? && id !in g.chunks[ChunkIndex(g, p)] ==> r.value == g
  {
    var c := ChunkIndex(g, p);
    if 0 <= c < |g.chunks| then
      var b := g.chunks[c];
      if id !in b then Ok(g)
      else
        KeptCounts(b, id);
        Ok(g.(chunks := g.chunks[c := Kept(b, id)]))
    else
      OutOfRange(c)
  }

  /**
    `remove` as the C++ code writes it: `std::remove` followed by an `erase`
    of the single element at the returned iterator.
   */
  function RemoveAsWritten(g: Index, id: nat, p: Vec2): (r: Result<Index>)
    requires Valid(g)
    ensures r.Ok? <==> Reachable(g, p)
    ensures r.Ok? ==>
      var c := ChunkIndex(g, p);
      && Valid(r.value) && SameShape(g, r.value)
      && OthersUnchanged(g, r.value, c)
      && (id in g.chunks[c] ==> |r.value.chunks[c]| == |g.chunks[c]| - 1)
    ensures r.Ok? && id !in g.chunks[ChunkIndex(g, p)] ==> r.value == g
  {
    var c := ChunkIndex(g, p);
    if 0 <= c < |g.chunks| then
      var b := g.chunks[c];
      if id !in b then Ok(g)
      else Ok(g.(chunks := g.chunks[c := RemoveThenEraseOne(b, id)]))
    else
      OutOfRange(c)
  }

  /** For an id registered at most once in its chunk, the code as written and the corrected removal agree. */
  lemma RemoveAsWrittenAgrees(g: Index, id: nat, p: Vec2)
    requires Valid(g) && Reachable(g, p)
    requires multiset(g.chunks[ChunkIndex(g, p)])[id] <= 1
    ensures RemoveAsWritten(g, id, p) == Remove(g, id, p)
  {
    var b := g.chunks[ChunkIndex(g, p)];
    if id in b {
      RemoveThenEraseOneSingle(b, id);
    }
  }

  /**
    With two copies of an id ahead of another id in one chunk, the removal as
    written drops both copies and duplicates the other id, while the corrected
    removal leaves the other id once.
   */
  lemma RemoveAsWrittenDuplicates(g: Index, p: Vec2)
    requires Valid(g) && Reachable(g, p)
    requires g.chunks[ChunkIndex(g, p)] == [7, 7, 3]
    ensures RemoveAsWritten(g, 7, p).value.chunks[ChunkIndex(g, p)] == [3, 3]
    ensures Remove(g, 7, p).value.chunks[ChunkIndex(g, p)] == [3]
  {
    RemoveThenEraseOneDuplicates();
    var b: Bucket := [7, 7, 3];
    assert Kept(b, 7) == [3] by {
      assert b[1..] == [7, 3];
      assert b[1..][1..] == [3];
      assert b[1..][1..][1..] == [];
    }
  }

  /**
    `moved`: when the old and new positions fall in different chunks, move the
    first copy of `id` from the old chunk to the end of the new one. A move
    within one chunk, or of an id the old chunk does not hold, changes nothing.
   */
  function Moved(g: Index, id: nat, oldPos: Vec2, newPos: Vec2): (r: Result<Index>)
    requires Valid(g)
    ensures ChunkIndex(g, oldPos) == ChunkIndex(g, newPos) ==> r == Ok(g)
    ensures (ChunkIndex(g, oldPos) != ChunkIndex(g, newPos) && Reachable(g, oldPos)
             && id !in g.chunks[ChunkIndex(g, oldPos)]) ==> r == Ok(g)
    ensures r.OutOfRange? <==>
      ChunkIndex(g, oldPos) != ChunkIndex(g, newPos)
      && (!Reachable(g, oldPos)
          || (id in g.chunks[ChunkIndex(g, oldPos)] && !Reachable(g, newPos)))
    ensures r.Ok? ==> Valid(r.value) && SameShape(g, r.value)
    ensures r.Ok? ==> Total(r.value.chunks) == Total(g.chunks)
    ensures (r.Ok? && ChunkIndex(g, oldPos) != ChunkIndex(g, newPos)
             && id in g.chunks[ChunkIndex(g, oldPos)]) ==>
      var co, cn := ChunkIndex(g, oldPos), ChunkIndex(g, newPos);
      && r.value.chunks[co] == EraseAt(g.chunks[co], Find(g.chunks[co], id))
      && multiset(r.value.chunks[co]) == multiset(g.chunks[co]) - multiset{id}
      && r.value.chunks[cn] == g.chunks[cn] + [id]
      && (forall k :: 0 <= k < |g.chunks| && k != co && k != cn ==> r.value.chunks[k] == g.chunks[k])
  {
    var co := ChunkIndex(g, oldPos);
    var cn := ChunkIndex(g, newPos);
    if co == cn then Ok(g)
    else if !(0 <= co < |g.chunks|) then OutOfRange(co)
    else
      var b := g.chunks[co];
      var k := Find(b, id);
      if k == |b| then Ok(g)
      else if !(0 <= cn < |g.chunks|) then OutOfRange(cn)
      else
        var erased := EraseAt(b, k);
        var mid := g.chunks[co := erased];
        EraseAtMultiset(b, k);
        TotalUpdate(g.chunks, co, erased);
        TotalUpdate(mid, cn, mid[cn] + [id]);
        Ok(g.(chunks := mid[cn := mid[cn] + [id]]))
  }

  /** `close_to`: the ids of the one chunk holding `p`; neighbouring chunks are not consulted. */
  function CloseTo(g: Index, p: Vec2): (r: Result<Bucket>)
    requires Valid(g)
    ensures r.Ok? <==> Reachable(g, p)
    ensures r.OutOfRange? ==> r.chunk == ChunkIndex(g, p)
  {
    var c := ChunkIndex(g, p);
    if 0 <= c < |g.chunks| then Ok(g.chunks[c]) else OutOfRange(c)
  }

  /**
    `close_to` reads only the chunk of `p`: two grids over the same map that
    agree on that chunk answer the same, whatever the neighbouring chunks hold.
   */
  lemma CloseToIsLocal(g: Index, h: Index, p: Vec2)
    requires Valid(g) && Valid(h) && SameShape(g, h)
    requires Reachable(g, p)
    requires g.chunks[ChunkIndex(g, p)] == h.chunks[ChunkIndex(h, p)]
    ensures CloseTo(g, p) == CloseTo(h, p)
    ensures CloseTo(g, p).value == g.chunks[ChunkIndex(g, p)]
  {
  }

  /** After `set(id, p)` the query at `p` reports `id`. */
  lemma SetThenCloseTo(g: Index, id: nat, p: Vec2)
    requires Valid(g) && Set(g, id, p).Ok?
    ensures CloseTo(Set(g, id, p).value, p).Ok?
    ensures id in CloseTo(Set(g, id, p).value, p).value
  {
    var c := ChunkIndex(g, p);
    assert Set(g, id, p).value.chunks[c] == g.chunks[c] + [id];
  }

  /** After `remove(id, p)` the query at `p` no longer reports `id`. */
  lemma RemoveThenCloseTo(g: Index, id: nat, p: Vec2)
    requires Valid(g) && Remove(g, id, p).Ok?
    ensures CloseTo(Remove(g, id, p).value, p).Ok?
    ensures id !in CloseTo(Remove(g, id, p).value, p).value
  {
  }

  /** Removing an id registered once, as the code is written, also hides it from the query at `p`. */
  lemma RemoveAsWrittenThenCloseTo(g: Index, id: nat, p: Vec2)
    requires Valid(g) && Reachable(g, p)
    requires multiset(g.chunks[ChunkIndex(g, p)])[id] == 1
    ensures RemoveAsWritten(g, id, p).Ok?
    ensures id !in CloseTo(RemoveAsWritten(g, id, p).value, p).value
  {
    RemoveAsWrittenAgrees(g, id, p);
    RemoveThenCloseTo(g, id, p);
  }

  /**
    After a cross-chunk `moved` of an id registered once at the old position,
    the query at the new position reports it and the query at the old one does not.
   */
  lemma MovedThenCloseTo(g: Index, id: nat, oldPos: Vec2, newPos: Vec2)
    requires Valid(g) && Reachable(g, oldPos) && Reachable(g, newPos)
    requires ChunkIndex(g, oldPos) != ChunkIndex(g, newPos)
    requires multiset(g.chunks[ChunkIndex(g, oldPos)])[id] == 1
    ensures Moved(g, id, oldPos, newPos).Ok?
    ensures CloseTo(Moved(g, id, oldPos, newPos).value, newPos).Ok?
    ensures CloseTo(Moved(g, id, oldPos, newPos).value, oldPos).Ok?
    ensures id in CloseTo(Moved(g, id, oldPos, newPos).value, newPos).value
    ensures id !in CloseTo(Moved(g, id, oldPos, newPos).value, oldPos).value
  {
    var co, cn := ChunkIndex(g, oldPos), ChunkIndex(g, newPos);
    assert id in g.chunks[co] by {
      assert id in multiset(g.chunks[co]);
    }
    var m := Moved(g, id, oldPos, newPos);
    assert m.Ok?;
    var r := m.value;
    assert r.chunks[cn] == g.chunks[cn] + [id];
    assert id in r.chunks[cn];
    assert multiset(r.chunks[co]) == multiset(g.chunks[co]) - multiset{id};
    assert id !in multiset(r.chunks[co]);
    ChunkIndexSameShape(g, r, newPos);
    ChunkIndexSameShape(g, r, oldPos);
  }

  /** `moved` of one id leaves the count of every other id in every chunk unchanged. */
  lemma MovedKeepsOthers(g: Index, id: nat, oldPos: Vec2, newPos: Vec2, x: nat, c: int)
    requires Valid(g) && Moved(g, id, oldPos, newPos).Ok?
    requires x != id && 0 <= c < |g.chunks|
    ensures multiset(Moved(g, id, oldPos, newPos).value.chunks[c])[x] == multiset(g.chunks[c])[x]
  {
    var co, cn := ChunkIndex(g, oldPos), ChunkIndex(g, newPos);
    var r := Moved(g, id, oldPos, newPos).value;
    if co != cn && id in g.chunks[co] {
      if c == cn {
        assert r.chunks[cn] == g.chunks[cn] + [id];
        assert multiset(r.chunks[cn]) == multiset(g.chunks[cn]) + multiset{id};
      } else if c == co {
        assert multiset(r.chunks[co]) == multiset(g.chunks[co]) - multiset{id};
      }
    }
  }

  /**
    Repeating a cross-chunk `moved` of an id registered once changes nothing:
    the second call no longer finds the id in the old chunk.
   */
  lemma MovedTwice(g: Index, id: nat, oldPos: Vec2, newPos: Vec2)
    requires Valid(g) && Reachable(g, oldPos) && Reachable(g, newPos)
    requires ChunkIndex(g, oldPos) != ChunkIndex(g, newPos)
    requires multiset(g.chunks[ChunkIndex(g, oldPos)])[id] == 1
    ensures Moved(g, id, oldPos, newPos).Ok?
    ensures Moved(Moved(g, id, oldPos, newPos).value, id, oldPos, newPos)
            == Moved(g, id, oldPos, newPos)
  {
    MovedThenCloseTo(g, id, oldPos, newPos);
  }
}
