/** How the master cuts a job's inclusive range into per-worker sub-ranges:
    a ceiling-sized chunk and a cursor that walks from the start, clamping
    the last piece to the end of the range. */
module Partition {
  import opened Common

  /** An inclusive integer range [start, end]. */
  datatype Range = Range(start: int, end: int)
  {
    /** How many integers the range holds; non-positive when end < start. */
    function Count(): int
    {
      end - start + 1
    }

    predicate Contains(x: int)
    {
      start <= x <= end
    }
  }

  /** Numbers per worker: max(1, ceil(total / workers)). */
  function ChunkSize(total: int, workers: int): (chunk: int)
    requires total > 0 && workers > 0
    ensures chunk >= 1
    ensures chunk * workers >= total
    ensures (chunk - 1) * workers < total
  {
    var q := (total + workers - 1) / workers;
    assert total + workers - 1 == workers * q + (total + workers - 1) % workers;
    Max(1, q)
  }

  /** The pieces the dispatch cursor produces from `cursor` on: each next
      piece starts one past the end of the previous one and holds `chunk`
      numbers, except that its end is clamped to `end`. */
  function Pieces(cursor: int, end: int, chunk: int): (ps: seq<Range>)
    requires chunk >= 1
    ensures ps == [] <==> cursor > end
    decreases end - cursor + 1
  {
    if cursor > end then []
    else
      var pieceEnd := Min(end, cursor + chunk - 1);
      [Range(cursor, pieceEnd)] + Pieces(pieceEnd + 1, end, chunk)
  }

  /** The walk makes ceil((end - cursor + 1) / chunk) pieces. */
  lemma {:induction false} PiecesCount(cursor: int, end: int, chunk: int)
    requires chunk >= 1 && cursor <= end
    ensures |Pieces(cursor, end, chunk)| == (end - cursor) / chunk + 1
    decreases end - cursor
  {
    var pieceEnd := Min(end, cursor + chunk - 1);
    QuotientStep(end - cursor, chunk);
    if pieceEnd < end {
      PiecesCount(pieceEnd + 1, end, chunk);
    }
  }

  /** Taking one chunk off a span lowers its quotient by one, and a span
      shorter than a chunk has quotient 0. */
  lemma QuotientStep(span: int, chunk: int)
    requires span >= 0 && chunk >= 1
    ensures span < chunk ==> span / chunk == 0
    ensures span >= chunk ==> (span - chunk) / chunk + 1 == span / chunk
  {
    if span < chunk {
      DivUnique(span, chunk, 0, span);
    } else {
      var q, m := span / chunk, span % chunk;
      assert span - chunk == chunk * (q - 1) + m;
      DivUnique(span - chunk, chunk, q - 1, m);
    }
  }

  /** `ps` cuts [start, end] into contiguous non-empty pieces of `chunk`
      numbers, the last of which may be shorter. */
  ghost predicate Tiles(ps: seq<Range>, start: int, end: int, chunk: int)
  {
    && |ps| >= 1
    && ps[0].start == start
    && ps[|ps| - 1].end == end
    && (forall k :: 0 <= k < |ps| ==> start <= ps[k].start <= ps[k].end <= end)
    && (forall k :: 0 <= k < |ps| - 1 ==> ps[k + 1].start == ps[k].end + 1)
    && (forall k :: 0 <= k < |ps| - 1 ==> ps[k].Count() == chunk)
    && 1 <= ps[|ps| - 1].Count() <= chunk
  }

  /** The cursor walk tiles the range. */
  lemma {:induction false} PiecesTile(start: int, end: int, chunk: int)
    requires chunk >= 1 && start <= end
    ensures Tiles(Pieces(start, end, chunk), start, end, chunk)
    decreases end - start
  {
    var pieceEnd := Min(end, start + chunk - 1);
    var rest := Pieces(pieceEnd + 1, end, chunk);
    assert Pieces(start, end, chunk) == [Range(start, pieceEnd)] + rest;
    if pieceEnd < end {
      PiecesTile(pieceEnd + 1, end, chunk);
      TilesCons(Range(start, pieceEnd), rest, end, chunk);
    } else {
      assert rest == [];
    }
  }

  /** A full first piece followed by a tiling of what remains is a tiling. */
  lemma TilesCons(p: Range, rest: seq<Range>, end: int, chunk: int)
    requires p.start <= p.end && p.Count() == chunk
    requires Tiles(rest, p.end + 1, end, chunk)
    ensures Tiles([p] + rest, p.start, end, chunk)
  {
    var ps := [p] + rest;
    assert forall k :: 1 <= k < |ps| ==> ps[k] == rest[k - 1];
  }

  /** A range holding at most chunk * k numbers is cut into at most k pieces,
      so no piece is left without a worker. */
  lemma {:induction false} PiecesFitWorkers(start: int, end: int, chunk: int, k: int)
    requires chunk >= 1 && k >= 0 && chunk * k >= end - start + 1
    ensures |Pieces(start, end, chunk)| <= k
    decreases k
  {
    if start <= end {
      var pieceEnd := Min(end, start + chunk - 1);
      if pieceEnd < end {
        assert chunk * (k - 1) >= end - (pieceEnd + 1) + 1;
        assert k >= 1;
        PiecesFitWorkers(pieceEnd + 1, end, chunk, k - 1);
      }
    }
  }

  /** Pieces of a tiling are pairwise disjoint: later pieces start after
      earlier ones end. */
  lemma {:induction false} TilesDisjoint(ps: seq<Range>, start: int, end: int, chunk: int, i: int, j: int)
    requires Tiles(ps, start, end, chunk)
    requires 0 <= i < j < |ps|
    ensures ps[i].end < ps[j].start
    decreases j - i
  {
    if j > i + 1 {
      TilesDisjoint(ps, start, end, chunk, i, j - 1);
    }
  }

  /** Every number of [start, end] lies in some piece of a tiling. */
  lemma {:induction false} TilesCover(ps: seq<Range>, start: int, end: int, chunk: int, x: int)
    requires Tiles(ps, start, end, chunk)
    requires start <= x <= end
    ensures exists k :: 0 <= k < |ps| && ps[k].Contains(x)
  {
    var k := 0;
    while ps[k].end < x
      invariant 0 <= k < |ps|
      invariant ps[k].start <= x
      decreases |ps| - k
    {
      k := k + 1;
    }
    assert ps[k].Contains(x);
  }

  /** Dropping the first piece of a tiling leaves a tiling of the rest. */
  lemma TilesTail(ps: seq<Range>, start: int, end: int, chunk: int)
    requires Tiles(ps, start, end, chunk) && |ps| > 1
    ensures Tiles(ps[1..], ps[0].end + 1, end, chunk)
  {
    var rest := ps[1..];
    assert forall k :: 0 <= k < |rest| ==> rest[k] == ps[k + 1];
    forall k | 0 <= k < |rest|
      ensures ps[0].end + 1 <= rest[k].start
    {
      TilesDisjoint(ps, start, end, chunk, 0, k + 1);
    }
  }

  /** A tiling is determined by its range and chunk size. */
  lemma {:induction false} TilesUnique(ps: seq<Range>, start: int, end: int, chunk: int)
    requires chunk >= 1
    requires Tiles(ps, start, end, chunk)
    ensures ps == Pieces(start, end, chunk)
    decreases |ps|
  {
    var pieceEnd := Min(end, start + chunk - 1);
    if |ps| == 1 {
      assert ps[0] == Range(start, end);
      assert Pieces(start, end, chunk) == [Range(start, pieceEnd)] + Pieces(pieceEnd + 1, end, chunk);
    } else {
      assert ps[0].end == start + chunk - 1;
      assert ps[1].start == pieceEnd + 1;
      assert pieceEnd < end;
      var rest := ps[1..];
      TilesTail(ps, start, end, chunk);
      TilesUnique(rest, pieceEnd + 1, end, chunk);
      assert ps == [ps[0]] + rest;
    }
  }

  /** [1, 100000] over three workers: two pieces of 33334 numbers and a
      clamped last piece of 33332. */
  lemma ThreeWorkerSplit()
    ensures ChunkSize(100000, 3) == 33334
    ensures Pieces(1, 100000, ChunkSize(100000, 3))
         == [Range(1, 33334), Range(33335, 66668), Range(66669, 100000)]
  {
  }

  /** Nine numbers over four workers: the ceiling chunk of 3 uses only three
      pieces, so the fourth worker gets no sub-range. */
  lemma NineOverFour()
    ensures ChunkSize(9, 4) == 3
    ensures Pieces(1, 9, ChunkSize(9, 4)) == [Range(1, 3), Range(4, 6), Range(7, 9)]
  {
  }
}
