/**
 * The MapReduce engine's intermediate store (MapReduce.h): a grid of
 * `mapNum * reduceNum` cells, one per (mapper, reducer) pair, each cell an
 * ordered list of blocks into which mappers append records.
 *
 * A block is the pair (allocation, filled prefix); the unused tail of the
 * allocation is never read, so it is not represented. The block's `count`
 * is the length of the filled prefix and its capacity is the size the
 * allocation was requested with.
 */
module MapReduceEngine {
  import opened Allocation
  import opened Results

  /** Default capacity of an intermediate block, in bytes. */
  const ImmDataSize: nat := 512

  datatype Block<T> = Block(chunk: Chunk, data: seq<T>)
  {
    /** The number of bytes in use (`count` in the source). */
    function Count(): nat { |data| }

    /** The number of bytes the block was allocated with. */
    function Capacity(): nat { chunk.size }

    /** A block never overflows its allocation; it is at least the default
        size; and a block larger than the default was sized for exactly one
        record, which fills it. */
    predicate WellFormed()
    {
      && Count() <= Capacity()
      && ImmDataSize <= Capacity()
      && (ImmDataSize < Capacity() ==> Count() == Capacity())
    }
  }

  /** The bytes of a cell as a reader sees them: the filled prefixes of its
      blocks, in insertion order. */
  function Contents<T>(cell: seq<Block<T>>): seq<T>
  {
    if cell == [] then [] else Contents(cell[..|cell| - 1]) + cell[|cell| - 1].data
  }

  /** Whether a record of `len` bytes is appended in place to the last
      block of `cell`; the test uses the default size, not the block's
      own capacity. */
  predicate FitsInLastBlock<T>(cell: seq<Block<T>>, len: nat)
    ensures FitsInLastBlock(cell, len) ==> cell != [] && len <= ImmDataSize
  {
    cell != [] && cell[|cell| - 1].Count() + len <= ImmDataSize
  }

  function Max(a: nat, b: nat): nat { if a < b then b else a }

  /** Position of the cell of (mapId, reduceId) in the grid. Distinct pairs
      get distinct positions, all inside the grid. */
  function CellIndex(mapId: nat, reduceId: nat, mapNum: nat, reduceNum: nat): (i: nat)
    requires mapId < mapNum && reduceId < reduceNum
    ensures i < mapNum * reduceNum
    ensures i / reduceNum == mapId && i % reduceNum == reduceId
  {
    RowMajor(mapId, reduceId, mapNum, reduceNum);
    mapId * reduceNum + reduceId
  }

  lemma RowMajor(m: nat, r: nat, rows: nat, cols: nat)
    requires m < rows && r < cols
    ensures m * cols + r < rows * cols
    ensures (m * cols + r) / cols == m && (m * cols + r) % cols == r
  {
    var i := m * cols + r;
    MulLeq(m + 1, rows, cols);
    var q, s := i / cols, i % cols;
    assert q * cols + s == i;
    if q > m {
      MulLeq(m + 1, q, cols);
      assert false;
    } else if q < m {
      MulLeq(q + 1, m, cols);
      assert false;
    }
  }

  lemma MulLeq(a: nat, b: nat, c: nat)
    requires a <= b
    ensures a * c <= b * c
  {
  }

  /** Every position of the grid is the cell of exactly one pair. */
  lemma CellIndexOnto(i: nat, mapNum: nat, reduceNum: nat)
    requires i < mapNum * reduceNum
    ensures reduceNum > 0 && i / reduceNum < mapNum && i % reduceNum < reduceNum
    ensures CellIndex(i / reduceNum, i % reduceNum, mapNum, reduceNum) == i
  {
    var q := i / reduceNum;
    if q >= mapNum {
      MulLeq(mapNum, q, reduceNum);
      assert false;
    }
  }

  /** The chunks held by a cell, with multiplicity. */
  ghost function CellChunks<T>(cell: seq<Block<T>>): multiset<Chunk>
  {
    multiset(seq(|cell|, k requires 0 <= k < |cell| => cell[k].chunk))
  }

  /** The chunks held by the whole grid, with multiplicity. */
  ghost function GridChunks<T>(grid: seq<seq<Block<T>>>): multiset<Chunk>
  {
    if grid == [] then multiset{} else CellChunks(grid[0]) + GridChunks(grid[1..])
  }

  lemma {:induction false} CellChunksSplit<T>(cell: seq<Block<T>>, j: nat)
    requires j < |cell|
    ensures CellChunks(cell[j..]) == multiset{cell[j].chunk} + CellChunks(cell[j + 1..])
    ensures CellChunks(cell[..j + 1]) == CellChunks(cell[..j]) + multiset{cell[j].chunk}
  {
    var s := seq(|cell|, k requires 0 <= k < |cell| => cell[k].chunk);
    assert seq(|cell[j..]|, k requires 0 <= k < |cell[j..]| => cell[j..][k].chunk) == [s[j]] + s[j + 1..];
    assert seq(|cell[j + 1..]|, k requires 0 <= k < |cell[j + 1..]| => cell[j + 1..][k].chunk) == s[j + 1..];
    assert seq(|cell[..j + 1]|, k requires 0 <= k < |cell[..j + 1]| => cell[..j + 1][k].chunk) == s[..j] + [s[j]];
    assert seq(|cell[..j]|, k requires 0 <= k < |cell[..j]| => cell[..j][k].chunk) == s[..j];
  }

  lemma CellChunksAppend<T>(cell: seq<Block<T>>, b: Block<T>)
    ensures CellChunks(cell + [b]) == CellChunks(cell) + multiset{b.chunk}
  {
    var s := seq(|cell|, k requires 0 <= k < |cell| => cell[k].chunk);
    assert seq(|cell + [b]|, k requires 0 <= k < |cell + [b]| => (cell + [b])[k].chunk) == s + [b.chunk];
  }

  lemma {:induction false} GridChunksConcat<T>(a: seq<seq<Block<T>>>, b: seq<seq<Block<T>>>)
    ensures GridChunks(a + b) == GridChunks(a) + GridChunks(b)
  {
    if a == [] {
      assert a + b == b;
    } else {
      assert (a + b)[0] == a[0];
      assert (a + b)[1..] == a[1..] + b;
      GridChunksConcat(a[1..], b);
    }
  }

  /** Replacing one cell replaces its chunks and leaves the others' alone. */
  lemma {:induction false} GridChunksUpdate<T>(grid: seq<seq<Block<T>>>, i: nat, cell: seq<Block<T>>)
    requires i < |grid|
    ensures GridChunks(grid[i := cell]) + CellChunks(grid[i]) == GridChunks(grid) + CellChunks(cell)
  {
    if i > 0 {
      assert grid[i := cell][0] == grid[0];
      assert grid[1..][i - 1] == grid[i];
      assert grid[i := cell][1..] == grid[1..][i - 1 := cell];
      GridChunksUpdate(grid[1..], i - 1, cell);
      var a, b, c := CellChunks(grid[0]), GridChunks(grid[1..][i - 1 := cell]), CellChunks(grid[i]);
      var d, e := GridChunks(grid[1..]), CellChunks(cell);
      assert a + b + c == a + (b + c);
      assert a + d + e == a + (d + e);
    } else {
      assert grid[i := cell][1..] == grid[1..];
    }
  }

  lemma {:induction false} GridChunksEmpty<T>(grid: seq<seq<Block<T>>>)
    requires forall i :: 0 <= i < |grid| ==> grid[i] == []
    ensures GridChunks(grid) == multiset{}
  {
    if grid != [] {
      GridChunksEmpty(grid[1..]);
    }
  }

  predicate CellWellFormed<T>(cell: seq<Block<T>>)
  {
    forall j :: 0 <= j < |cell| ==> cell[j].WellFormed()
  }

  predicate GridWellFormed<T>(grid: seq<seq<Block<T>>>)
  {
    forall i :: 0 <= i < |grid| ==> CellWellFormed(grid[i])
  }

  lemma AddAssoc(x: multiset<Chunk>, y: multiset<Chunk>, z: multiset<Chunk>)
    ensures x + (y + z) == (x + z) + y
  {
  }

  lemma Cancel(x: multiset<Chunk>, y: multiset<Chunk>, z: multiset<Chunk>)
    requires x + z == y + z
    ensures x == y
  {
    assert forall o :: x[o] == (x + z)[o] - z[o];
    assert forall o :: y[o] == (y + z)[o] - z[o];
  }

  /** Releasing the first of the chunks a caller still holds. */
  lemma ReleaseOne(live: set<Chunk>, c: Chunk, rest: multiset<Chunk>)
    requires multiset{c} + rest <= multiset(live)
    ensures c in live
    ensures rest <= multiset(live - {c})
    ensures multiset(live - {c}) + multiset{c} == multiset(live)
  {
    assert (multiset{c} + rest)[c] >= 1;
    forall o ensures rest[o] <= multiset(live - {c})[o] {
      assert (multiset{c} + rest)[o] <= multiset(live)[o];
    }
  }

  /** Appending in place adds the record after the cell's bytes. */
  lemma AppendInPlaceContents<T>(cell: seq<Block<T>>, record: seq<T>)
    requires cell != []
    ensures var last := cell[|cell| - 1];
            Contents(cell[..|cell| - 1] + [Block(last.chunk, last.data + record)]) == Contents(cell) + record
  {
    var n := |cell|;
    var last := cell[n - 1];
    var cell' := cell[..n - 1] + [Block(last.chunk, last.data + record)];
    assert cell'[..n - 1] == cell[..n - 1];
  }

  /** Appending a block adds its bytes after the cell's bytes. */
  lemma AppendBlockContents<T>(cell: seq<Block<T>>, b: Block<T>)
    ensures Contents(cell + [b]) == Contents(cell) + b.data
  {
    assert (cell + [b])[..|cell|] == cell;
  }

  /** The cell after appending `record` in place to its last block. */
  function AppendInPlace<T>(cell: seq<Block<T>>, record: seq<T>): (cell': seq<Block<T>>)
    requires cell != []
    ensures |cell'| == |cell| && cell'[..|cell| - 1] == cell[..|cell| - 1]
    ensures cell'[|cell| - 1].chunk == cell[|cell| - 1].chunk
  {
    var last := cell[|cell| - 1];
    cell[..|cell| - 1] + [Block(last.chunk, last.data + record)]
  }

  /** An in-place append that fits keeps the cell well formed and holds the
      same chunks. */
  lemma InPlaceCell<T>(cell: seq<Block<T>>, record: seq<T>)
    requires CellWellFormed(cell) && FitsInLastBlock(cell, |record|)
    ensures CellWellFormed(AppendInPlace(cell, record))
    ensures CellChunks(AppendInPlace(cell, record)) == CellChunks(cell)
  {
    var last := cell[|cell| - 1];
    CellChunksSplit(cell, |cell| - 1);
    CellChunksAppend(cell[..|cell| - 1], Block(last.chunk, last.data + record));
    assert cell[..|cell| - 1 + 1] == cell;
  }

  /** Replacing a cell by one holding the same chunks keeps the grid's
      chunks. */
  lemma SameChunks<T>(grid: seq<seq<Block<T>>>, index: nat, cell': seq<Block<T>>)
    requires index < |grid| && CellChunks(cell') == CellChunks(grid[index])
    ensures GridChunks(grid[index := cell']) == GridChunks(grid)
  {
    GridChunksUpdate(grid, index, cell');
    Cancel(GridChunks(grid[index := cell']), GridChunks(grid), CellChunks(grid[index]));
  }

  /** An in-place append keeps the grid well formed, keeps the chunks it
      holds, and adds the record after the cell's bytes. */
  lemma InPlaceStep<T>(grid: seq<seq<Block<T>>>, live: set<Chunk>, index: nat, record: seq<T>)
    requires index < |grid| && GridWellFormed(grid) && GridChunks(grid) <= multiset(live)
    requires FitsInLastBlock(grid[index], |record|)
    ensures var cell' := AppendInPlace(grid[index], record);
            && GridWellFormed(grid[index := cell'])
            && GridChunks(grid[index := cell']) == GridChunks(grid)
            && GridChunks(grid[index := cell']) <= multiset(live)
            && Contents(cell') == Contents(grid[index]) + record
  {
    var cell' := AppendInPlace(grid[index], record);
    AppendInPlaceContents(grid[index], record);
    InPlaceCell(grid[index], record);
    SameChunks(grid, index, cell');
    assert CellWellFormed(grid[index := cell'][index]);
  }

  /** Appending a block whose chunk is not live adds that chunk to the
      grid's chunks. */
  lemma NewBlockChunks<T>(grid: seq<seq<Block<T>>>, live: set<Chunk>, index: nat, block: Block<T>)
    requires index < |grid| && GridChunks(grid) <= multiset(live) && block.chunk !in live
    ensures GridChunks(grid[index := grid[index] + [block]]) <= multiset(live + {block.chunk})
  {
    var cell := grid[index];
    CellChunksAppend(cell, block);
    GridChunksUpdate(grid, index, cell + [block]);
    var g, g' := GridChunks(grid), GridChunks(grid[index := cell + [block]]);
    assert g' + CellChunks(cell) == (g + multiset{block.chunk}) + CellChunks(cell) by {
      assert g + (CellChunks(cell) + multiset{block.chunk}) == (g + multiset{block.chunk}) + CellChunks(cell);
    }
    Cancel(g', g + multiset{block.chunk}, CellChunks(cell));
    assert multiset(live + {block.chunk}) == multiset(live) + multiset{block.chunk};
  }

  /** Appending a well-formed block whose chunk was just allocated keeps the
      grid well formed, makes the grid hold that chunk too, and adds the
      block's bytes after the cell's bytes. */
  lemma NewBlockStep<T>(grid: seq<seq<Block<T>>>, live: set<Chunk>, index: nat, block: Block<T>)
    requires index < |grid| && GridWellFormed(grid) && GridChunks(grid) <= multiset(live)
    requires block.WellFormed() && block.chunk !in live
    ensures GridWellFormed(grid[index := grid[index] + [block]])
    ensures GridChunks(grid[index := grid[index] + [block]]) <= multiset(live + {block.chunk})
    ensures Contents(grid[index] + [block]) == Contents(grid[index]) + block.data
  {
    assert CellWellFormed(grid[index] + [block]);
    AppendBlockContents(grid[index], block);
    NewBlockChunks(grid, live, index, block);
  }

  lemma GridChunksSnoc<T>(grid: seq<seq<Block<T>>>, i: nat)
    requires i < |grid|
    ensures GridChunks(grid[..i + 1]) == GridChunks(grid[..i]) + CellChunks(grid[i])
    ensures GridChunks(grid[i..]) == CellChunks(grid[i]) + GridChunks(grid[i + 1..])
  {
    assert grid[..i + 1] == grid[..i] + [grid[i]];
    GridChunksConcat(grid[..i], [grid[i]]);
    assert GridChunks([grid[i]]) == CellChunks(grid[i]) + GridChunks([grid[i]][1..]);
    assert grid[i..][1..] == grid[i + 1..];
  }

  /** The reset has emptied the first `i` cells of `grid0`, released
      exactly their chunks from `live0`, and still holds the rest. */
  ghost predicate Cleared<T>(grid0: seq<seq<Block<T>>>, grid: seq<seq<Block<T>>>, i: nat,
                             live0: multiset<Chunk>, live: multiset<Chunk>)
  {
    && i <= |grid| == |grid0|
    && (forall k :: 0 <= k < i ==> grid[k] == [])
    && (forall k :: i <= k < |grid| ==> grid[k] == grid0[k])
    && live + GridChunks(grid0[..i]) == live0
    && GridChunks(grid0[i..]) <= live
  }

  /** Before cell `i` is released, its chunks and those of later cells are
      all live. */
  lemma ClearedNext<T>(grid0: seq<seq<Block<T>>>, grid: seq<seq<Block<T>>>, i: nat,
                       live0: multiset<Chunk>, live: multiset<Chunk>)
    requires Cleared(grid0, grid, i, live0, live) && i < |grid|
    ensures CellChunks(grid[i]) + GridChunks(grid0[i + 1..]) <= live
  {
    GridChunksSnoc(grid0, i);
  }

  /** Releasing the chunks of cell `i` and emptying it clears one more
      cell. */
  lemma ClearedStep<T>(grid0: seq<seq<Block<T>>>, grid: seq<seq<Block<T>>>, i: nat,
                       live0: multiset<Chunk>, live: multiset<Chunk>, live': multiset<Chunk>)
    requires Cleared(grid0, grid, i, live0, live) && i < |grid|
    requires live' + CellChunks(grid[i]) == live && GridChunks(grid0[i + 1..]) <= live'
    ensures Cleared(grid0, grid[i := []], i + 1, live0, live')
  {
    GridChunksSnoc(grid0, i);
    AddAssoc(live', GridChunks(grid0[..i]), CellChunks(grid0[i]));
  }

  /** Once every cell is cleared, the grid holds no chunk and every chunk
      it held has been released. */
  lemma ClearedAll<T>(grid0: seq<seq<Block<T>>>, grid: seq<seq<Block<T>>>, live0: multiset<Chunk>, live: multiset<Chunk>)
    requires Cleared(grid0, grid, |grid|, live0, live)
    ensures GridWellFormed(grid) && GridChunks(grid) == multiset{}
    ensures live + GridChunks(grid0) == live0
  {
    assert grid0[..|grid|] == grid0;
    GridChunksEmpty(grid);
  }

  class MapReduce<T> {
    const mapNum: nat
    const reduceNum: nat
    const allocator: Allocator
    var vec: seq<seq<Block<T>>>

    /** The grid keeps its shape, every block is well formed, and every block
        holds its own live chunk (no chunk is shared or already released). */
    ghost predicate Valid()
      reads this, allocator
    {
      && |vec| == mapNum * reduceNum
      && GridWellFormed(vec)
      && GridChunks(vec) <= multiset(allocator.live)
    }

    /** Builds a grid of `mapNum * reduceNum` empty cells. */
    constructor (mapNum: nat, reduceNum: nat, allocator: Allocator)
      ensures Valid()
      ensures this.mapNum == mapNum && this.reduceNum == reduceNum && this.allocator == allocator
      ensures |vec| == mapNum * reduceNum && forall i :: 0 <= i < |vec| ==> vec[i] == []
    {
      this.mapNum := mapNum;
      this.reduceNum := reduceNum;
      this.allocator := allocator;
      new;
      vec := [];
      var i := 0;
      while i < mapNum * reduceNum
        invariant i <= mapNum * reduceNum && |vec| == i
        invariant forall k :: 0 <= k < |vec| ==> vec[k] == []
      {
        vec := vec + [[]];
        i := i + 1;
      }
      GridChunksEmpty(vec);
    }

    /** Appends `record` to cell `index`: in place when it fits in the last
        block, else in one new block of `max(len, 512)` bytes. */
    method EmitIntermediate(index: nat, record: seq<T>) returns (ok: bool)
      requires Valid() && index < |vec|
      modifies this, allocator
      ensures Valid()
      ensures |vec| == |old(vec)| && vec == old(vec)[index := vec[index]]
      ensures ok ==> Contents(vec[index]) == Contents(old(vec[index])) + record
      ensures !ok ==> vec == old(vec) && allocator.live == old(allocator.live)
      ensures FitsInLastBlock(old(vec[index]), |record|) ==>
        var n := |old(vec[index])|;
        var last := old(vec[index])[n - 1];
        && ok
        && vec[index] == old(vec[index])[..n - 1] + [Block(last.chunk, last.data + record)]
        && allocator.live == old(allocator.live)
      ensures !FitsInLastBlock(old(vec[index]), |record|) && ok ==>
        var n := |old(vec[index])|;
        && |vec[index]| == n + 1
        && vec[index][..n] == old(vec[index])
        && vec[index][n].data == record
        && vec[index][n].Capacity() == Max(|record|, ImmDataSize)
        && fresh(vec[index][n].chunk)
        && allocator.live == old(allocator.live) + {vec[index][n].chunk}
    {
      var cell := vec[index];
      if cell != [] && cell[|cell| - 1].Count() + |record| <= ImmDataSize {
        InPlaceStep(vec, allocator.live, index, record);
        vec := vec[index := AppendInPlace(cell, record)];
        ok := true;
        return;
      }

      var newBlockSize := Max(|record|, ImmDataSize);
      var chunk := allocator.Allocate(newBlockSize);
      if chunk == null {
        ok := false;
        return;
      }
      var block := Block(chunk, record);
      NewBlockStep(vec, old(allocator.live), index, block);
      vec := vec[index := cell + [block]];
      ok := true;
    }

    /** Releases every block of every cell, each exactly once, and empties
        the cells; the grid keeps its shape. */
    method ResetIntermediateData()
      requires Valid()
      modifies this, allocator
      ensures Valid()
      ensures |vec| == |old(vec)| && forall i :: 0 <= i < |vec| ==> vec[i] == []
      ensures multiset(allocator.live) + GridChunks(old(vec)) == multiset(old(allocator.live))
    {
      ghost var grid0 := vec;
      var grid := ReleaseCells(vec);
      ClearedAll(grid0, grid, multiset(old(allocator.live)), multiset(allocator.live));
      vec := grid;
    }

    /** The outer loop of the reset: releases the blocks of each cell in
        turn and empties it. */
    method ReleaseCells(grid0: seq<seq<Block<T>>>) returns (grid: seq<seq<Block<T>>>)
      requires GridChunks(grid0) <= multiset(allocator.live)
      modifies allocator
      ensures Cleared(grid0, grid, |grid|, multiset(old(allocator.live)), multiset(allocator.live))
    {
      grid := grid0;
      var i := 0;
      while i < |grid|
        invariant Cleared(grid0, grid, i, multiset(old(allocator.live)), multiset(allocator.live))
      {
        ClearedNext(grid0, grid, i, multiset(old(allocator.live)), multiset(allocator.live));
        ghost var live := multiset(allocator.live);
        ReleaseBlocks(grid[i], GridChunks(grid0[i + 1..]));
        ClearedStep(grid0, grid, i, multiset(old(allocator.live)), live, multiset(allocator.live));
        grid := grid[i := []];
        i := i + 1;
      }
    }

    /** The inner loop of the reset: releases the blocks of one cell, front
        to back. */
    method ReleaseBlocks(cell: seq<Block<T>>, ghost others: multiset<Chunk>)
      requires CellChunks(cell) + others <= multiset(allocator.live)
      modifies allocator
      ensures multiset(allocator.live) + CellChunks(cell) == multiset(old(allocator.live))
      ensures others <= multiset(allocator.live)
    {
      var j := 0;
      while j < |cell|
        invariant j <= |cell|
        invariant multiset(allocator.live) + CellChunks(cell[..j]) == multiset(old(allocator.live))
        invariant CellChunks(cell[j..]) + others <= multiset(allocator.live)
      {
        CellChunksSplit(cell, j);
        ghost var rest := CellChunks(cell[j + 1..]) + others;
        assert multiset{cell[j].chunk} + rest <= multiset(allocator.live) by {
          assert CellChunks(cell[j..]) + others == multiset{cell[j].chunk} + rest;
        }
        ReleaseOne(allocator.live, cell[j].chunk, rest);
        allocator.Deallocate(cell[j].chunk);
        j := j + 1;
      }
      assert cell[..j] == cell;
      assert cell[j..] == [];
    }
  }

  /** Construction with the null-allocator check of the source. */
  method NewMapReduce<T>(mapNum: nat, reduceNum: nat, allocator: Allocator?) returns (r: Result<MapReduce<T>>)
    ensures r.Err? <==> allocator == null
    ensures r.Ok? ==>
      && fresh(r.value) && r.value.Valid()
      && r.value.mapNum == mapNum && r.value.reduceNum == reduceNum && r.value.allocator == allocator
      && |r.value.vec| == mapNum * reduceNum
      && forall i :: 0 <= i < |r.value.vec| ==> r.value.vec[i] == []
  {
    if allocator == null {
      return Err("Allocator cannot be null.");
    }
    var mr := new MapReduce(mapNum, reduceNum, allocator);
    return Ok(mr);
  }
}
