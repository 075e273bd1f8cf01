/**
 * The text-file data source of a K-means run.
 *
 * The file holds one point per line, its coordinates separated by blanks.
 * Loading keeps the lines with exactly `dim` values, in file order, skips
 * the others, fails when no line is kept, and packs the kept points into
 * one buffer of records of `dim + 1` doubles (the coordinates, then a label
 * slot that loading leaves unwritten), drawn from the allocator.
 *
 * Opening and reading the file and parsing its numbers are not modelled:
 * `perform_load` is given the file as it would be read, `None` when it
 * cannot be opened and otherwise the values parsed from each line.
 */
module DataSource {
  import opened Allocation
  import opened Results
  import opened DataManager
  import opened RecordLayout

  datatype Option<T> = None | Some(value: T)

  const NullAllocatorMessage: string := "Allocator cannot be null for KMeansTextFileDataSource."
  const ZeroDimensionMessage: string := "Dimension cannot be zero."
  const OpenFailureMessage: string := "Failed to open file: "
  const NoPointsMessage: string := "No valid data points were loaded from the file. Please check the file format and data types."
  const AllocationFailureMessage: string := "Failed to allocate buffer for KMeans data points."

  /** Whether a parsed line is a point: it has values, exactly `dim` of them. */
  predicate IsPoint(line: seq<real>, dim: nat)
    ensures IsPoint(line, dim) <==> dim != 0 && |line| == dim
  {
    |line| != 0 && |line| == dim
  }

  /** The lines loading keeps, in file order. */
  function Kept(lines: seq<seq<real>>, dim: nat): (kept: seq<seq<real>>)
    ensures |kept| <= |lines|
    ensures forall p :: p in kept ==> p in lines && IsPoint(p, dim)
  {
    if lines == [] then []
    else
      var last := lines[|lines| - 1];
      Kept(lines[..|lines| - 1], dim) + if IsPoint(last, dim) then [last] else []
  }

  /** Loading finds no point exactly when no line is one. */
  lemma {:induction false} KeptEmpty(lines: seq<seq<real>>, dim: nat)
    ensures Kept(lines, dim) == [] <==> forall k :: 0 <= k < |lines| ==> !IsPoint(lines[k], dim)
  {
    if lines != [] {
      var init := lines[..|lines| - 1];
      KeptEmpty(init, dim);
      assert forall k :: 0 <= k < |init| ==> init[k] == lines[k];
    }
  }

  /** Every line that is a point is kept, and kept in order: the kept points
      of two pieces of a file are those of the first, then those of the
      second. */
  lemma {:induction false} KeptConcat(a: seq<seq<real>>, b: seq<seq<real>>, dim: nat)
    ensures Kept(a + b, dim) == Kept(a, dim) + Kept(b, dim)
  {
    if b == [] {
      assert a + b == a;
    } else {
      assert (a + b)[..|a + b| - 1] == a + b[..|b| - 1];
      KeptConcat(a, b[..|b| - 1], dim);
    }
  }

  /** A file whose every line is a point loads all of its lines. */
  lemma {:induction false} KeptAll(lines: seq<seq<real>>, dim: nat)
    requires forall k :: 0 <= k < |lines| ==> IsPoint(lines[k], dim)
    ensures Kept(lines, dim) == lines
  {
    if lines != [] {
      var init := lines[..|lines| - 1];
      KeptAll(init, dim);
      assert init + [lines[|lines| - 1]] == lines;
    }
  }

  /** The filtering loop of `perform_load`. */
  method FilterLines(lines: seq<seq<real>>, dim: nat) returns (pointsVec: seq<seq<real>>)
    ensures pointsVec == Kept(lines, dim)
  {
    pointsVec := [];
    var i := 0;
    while i < |lines|
      invariant i <= |lines|
      invariant pointsVec == Kept(lines[..i], dim)
    {
      assert lines[..i + 1][..i] == lines[..i];
      var point := lines[i];
      if point != [] {
        if |point| == dim {
          pointsVec := pointsVec + [point];
        }
      }
      i := i + 1;
    }
    assert lines[..i] == lines;
  }

  /** `buf` holds the points `pts` laid out as records of `dim + 1` doubles,
      each point's coordinates at the front of its record; label slots are
      unconstrained. */
  ghost predicate Packs(buf: seq<real>, pts: seq<seq<real>>, dim: nat)
  {
    if pts == [] then buf == []
    else
      && |buf| >= Stride(dim)
      && var cut := |buf| - Stride(dim);
      && Packs(buf[..cut], pts[..|pts| - 1], dim)
      && buf[cut..cut + dim] == pts[|pts| - 1]
  }

  /** What packing promises, position by position: the buffer has
      `n * (dim + 1)` doubles and coordinate `j` of point `i` is at
      `i * (dim + 1) + j`. */
  lemma PacksAt(buf: seq<real>, pts: seq<seq<real>>, dim: nat, i: nat, j: nat)
    requires Packs(buf, pts, dim)
    requires i < |pts| && j < dim
    ensures |buf| == |pts| * Stride(dim)
    ensures i * Stride(dim) + j < |buf| && j < |pts[i]| && buf[i * Stride(dim) + j] == pts[i][j]
  {
    PacksLength(buf, pts, dim);
    PacksRecord(buf, pts, dim, i, j);
    RecordsEndIsOffset(0, |pts|, dim);
    RecordsEndIsOffset(0, i, dim);
  }

  /** ... with the offsets as `RecordsEnd`, which the recursion follows. */
  lemma {:induction false} PacksRecord(buf: seq<real>, pts: seq<seq<real>>, dim: nat, i: nat, j: nat)
    requires Packs(buf, pts, dim)
    requires i < |pts| && j < dim
    ensures RecordsEnd(0, i, dim) + j < |buf| && j < |pts[i]| && buf[RecordsEnd(0, i, dim) + j] == pts[i][j]
  {
    var n := |pts|;
    var cut := |buf| - Stride(dim);
    var x := RecordsEnd(0, i, dim) + j;
    PacksLength(buf, pts, dim);
    if i < n - 1 {
      var init := pts[..n - 1];
      PacksRecord(buf[..cut], init, dim, i, j);
      assert init[i] == pts[i];
      assert buf[..cut][x] == buf[x];
    } else {
      assert x == cut + j;
      assert buf[cut..cut + dim][j] == buf[x];
    }
  }

  lemma {:induction false} PacksLength(buf: seq<real>, pts: seq<seq<real>>, dim: nat)
    requires Packs(buf, pts, dim)
    ensures |buf| == RecordsEnd(0, |pts|, dim)
  {
    if pts != [] {
      PacksLength(buf[..|buf| - Stride(dim)], pts[..|pts| - 1], dim);
    }
  }

  /** Packing one more point behind a packed prefix. */
  lemma PacksSnoc(prefix: seq<real>, record: seq<real>, pts: seq<seq<real>>, p: seq<real>, dim: nat)
    requires Packs(prefix, pts, dim)
    requires |record| == Stride(dim) && record[..dim] == p
    ensures Packs(prefix + record, pts + [p], dim)
  {
    var buf := prefix + record;
    assert buf[..|prefix|] == prefix;
    assert buf[|prefix|..|prefix| + dim] == record[..dim];
    assert (pts + [p])[..|pts|] == pts;
  }

  /** The packing step over a snapshot of the buffer: the record behind a
      packed prefix holds the next point's coordinates. */
  lemma PacksExtend(b: seq<real>, at: nat, next: nat, pts: seq<seq<real>>, i: nat, dim: nat)
    requires next == at + Stride(dim) <= |b| && i < |pts|
    requires Packs(b[..at], pts[..i], dim)
    requires b[at..at + dim] == pts[i]
    ensures Packs(b[..next], pts[..i + 1], dim)
  {
    assert b[..next] == b[..at] + b[at..next];
    assert b[at..next][..dim] == b[at..at + dim];
    assert pts[..i + 1] == pts[..i] + [pts[i]];
    PacksSnoc(b[..at], b[at..next], pts[..i], pts[i], dim);
  }

  /** Compared with `b0`, buffer `b` is unchanged from `at` on and in the
      label slots of its first `i` records. */
  ghost predicate Untouched(b: seq<real>, b0: seq<real>, at: nat, i: nat, dim: nat)
  {
    && |b| == |b0| && at <= |b|
    && b[at..] == b0[at..]
    && (forall k :: 0 <= k < i ==> RecordsEnd(0, k, dim) + dim < at)
    && LabelSlotsKept(b, b0, i, dim)
  }

  /** The packing loop's state: the first `i` points are packed in
      `b[..at]`, and `b` is otherwise as it was in `b0`. */
  ghost predicate Packing(b: seq<real>, b0: seq<real>, pts: seq<seq<real>>, at: nat, i: nat, dim: nat)
  {
    i <= |pts| && Untouched(b, b0, at, i, dim) && Packs(b[..at], pts[..i], dim)
  }

  /** The label slots of the first `n` records of `b` hold what they held
      in `b0`. */
  ghost predicate LabelSlotsKept(b: seq<real>, b0: seq<real>, n: nat, dim: nat)
  {
    && |b| == |b0|
    && forall k :: 0 <= k < n ==> RecordsEnd(0, k, dim) + dim < |b| && b[RecordsEnd(0, k, dim) + dim] == b0[RecordsEnd(0, k, dim) + dim]
  }

  /** Writing the coordinates of record `i` keeps the label slots of the
      records before it and leaves its own label slot as it was. */
  lemma SlotsStep(b0: seq<real>, before: seq<real>, after: seq<real>, at: nat, i: nat, dim: nat)
    requires at == RecordsEnd(0, i, dim) && at + Stride(dim) <= |b0|
    requires Untouched(before, b0, at, i, dim) && |after| == |before|
    requires after[..at] == before[..at] && after[at + dim..] == before[at + dim..]
    ensures Untouched(after, b0, at + Stride(dim), i + 1, dim)
  {
    forall k | 0 <= k < i + 1
      ensures RecordsEnd(0, k, dim) + dim < at + Stride(dim) && after[RecordsEnd(0, k, dim) + dim] == b0[RecordsEnd(0, k, dim) + dim]
    {
      if k < i {
        var x := RecordsEnd(0, k, dim) + dim;
        assert after[x] == after[..at][x] == before[..at][x];
      } else {
        assert after[at + dim] == after[at + dim..][0] == before[at + dim..][0] == before[at..][dim] == b0[at..][dim];
      }
    }
    assert after[at + Stride(dim)..] == after[at + dim..][1..] == before[at + dim..][1..] == before[at..][Stride(dim)..];
    assert b0[at + Stride(dim)..] == b0[at..][Stride(dim)..];
  }

  /** One round of the packing loop: with the coordinates of point `i`
      written at `at`, the packed prefix grows by that record, and the
      label slots and everything after it are still as they were. */
  lemma PackStep(b0: seq<real>, before: seq<real>, after: seq<real>, at: nat, pts: seq<seq<real>>, i: nat, dim: nat)
    requires at == RecordsEnd(0, i, dim) && at + Stride(dim) <= |b0| && i < |pts|
    requires Untouched(before, b0, at, i, dim) && Packs(before[..at], pts[..i], dim) && |after| == |before|
    requires after[..at] == before[..at] && after[at..at + dim] == pts[i] && after[at + dim..] == before[at + dim..]
    ensures Packs(after[..at + Stride(dim)], pts[..i + 1], dim)
    ensures Untouched(after, b0, at + Stride(dim), i + 1, dim)
  {
    PacksExtend(after, at, at + Stride(dim), pts, i, dim);
    SlotsStep(b0, before, after, at, i, dim);
  }

  /** The inner loop of the packing: the coordinates of one point. */
  method WritePoint(buffer: array<real>, at: nat, p: seq<real>)
    requires at + |p| <= buffer.Length
    modifies buffer
    ensures buffer[..at] == old(buffer[..at])
    ensures buffer[at..at + |p|] == p
    ensures buffer[at + |p|..] == old(buffer[at + |p|..])
  {
    var j := 0;
    while j < |p|
      invariant j <= |p|
      invariant buffer[..at] == old(buffer[..at])
      invariant buffer[at..at + j] == p[..j]
      invariant buffer[at + j..] == old(buffer[at + j..])
    {
      buffer[at + j] := p[j];
      assert buffer[at..at + j + 1] == buffer[at..at + j] + [p[j]];
      j := j + 1;
    }
  }

  /** One round of the packing loop: the coordinates of point `i`, written
      after the `i` records already packed. */
  method PackOne(buffer: array<real>, at: nat, pts: seq<seq<real>>, i: nat, dim: nat, ghost b0: seq<real>)
    requires at == RecordsEnd(0, i, dim) && at + Stride(dim) <= buffer.Length && i < |pts| && |pts[i]| == dim
    requires Packing(buffer[..], b0, pts, at, i, dim)
    modifies buffer
    ensures Packing(buffer[..], b0, pts, at + Stride(dim), i + 1, dim)
  {
    ghost var before := buffer[..];
    WritePoint(buffer, at, pts[i]);
    ghost var after := buffer[..];
    assert after[..at] == before[..at] && after[at..at + dim] == pts[i] && after[at + dim..] == before[at + dim..];
    assert before[..at] == buffer[..at] == after[..at];
    PackStep(b0, before, after, at, pts, i, dim);
    assert after[..at + Stride(dim)] == buffer[..at + Stride(dim)];
  }

  /** The packing loop of `perform_load`. */
  method PackPoints(buffer: array<real>, pts: seq<seq<real>>, dim: nat)
    requires buffer.Length == RecordsEnd(0, |pts|, dim)
    requires forall p :: p in pts ==> |p| == dim
    modifies buffer
    ensures Packs(buffer[..], pts, dim)
    ensures LabelSlotsKept(buffer[..], old(buffer[..]), |pts|, dim)
  {
    ghost var b0 := buffer[..];
    var i: nat := 0;
    var at: nat := 0;
    while i < |pts|
      invariant i <= |pts| && at == RecordsEnd(0, i, dim)
      invariant Packing(buffer[..], b0, pts, at, i, dim)
    {
      RecordsEndMono(0, i + 1, |pts|, dim);
      assert pts[i] in pts;
      PackOne(buffer, at, pts, i, dim, b0);
      at := at + Stride(dim);
      i := i + 1;
    }
    assert buffer[..][..at] == buffer[..];
    assert pts[..i] == pts;
  }

  /** The buffer's size in bytes counts exactly the packed points as whole
      records, so cutting it into map shares sees every loaded point. */
  lemma {:induction false} PackedRecordCount(n: nat, dim: nat)
    ensures RecordCount(DoubleSize * (n * Stride(dim)), dim) == n
  {
    if n > 0 {
      MulAdd(n - 1, 1, Stride(dim));
      assert DoubleSize * (n * Stride(dim)) == DoubleSize * ((n - 1) * Stride(dim)) + ItemSize(dim);
      PackedRecordCount(n - 1, dim);
    }
  }

  class TextFileSource {
    const allocator: Allocator
    const filepath: string
    const dim: nat
    var buffer: array?<real>
    /** The allocation backing `buffer`. */
    ghost var bufferChunk: Chunk?
    var bufferSizeBytes: nat
    var isLoaded: bool
    /** How many times `perform_load` was started, and how many of those
        runs succeeded. */
    ghost var runs: nat
    ghost var successes: nat

    ghost function Latched(): Latch
      reads this
    {
      Latch(isLoaded, runs, successes)
    }

    ghost predicate Valid()
      reads this
    {
      && dim >= 1
      && Consistent(Latched())
      && (isLoaded ==> buffer != null)
      && (buffer != null ==> bufferSizeBytes == DoubleSize * buffer.Length)
    }

    constructor (filepath: string, dim: nat, allocator: Allocator)
      requires dim >= 1
      ensures Valid() && Latched() == Unloaded
      ensures this.filepath == filepath && this.dim == dim && this.allocator == allocator
      ensures buffer == null && bufferChunk == null && bufferSizeBytes == 0
    {
      this.allocator := allocator;
      this.filepath := filepath;
      this.dim := dim;
      buffer := null;
      bufferChunk := null;
      bufferSizeBytes := 0;
      isLoaded := false;
      runs := 0;
      successes := 0;
    }

    /** The loaded points: present once a load has succeeded. */
    function GetData(): (data: array?<real>)
      reads this
      ensures Valid() && isLoaded ==> data != null
    {
      buffer
    }

    /** The size in bytes of the loaded points: eight bytes per double
        of the buffer. */
    function GetSize(): (size: nat)
      reads this
      ensures Valid() && buffer != null ==> size == DoubleSize * buffer.Length
    {
      bufferSizeBytes
    }

    /** Filters the lines of `file`, then allocates and fills the buffer. */
    method PerformLoad(file: Option<seq<seq<real>>>) returns (r: Result<()>)
      modifies this, allocator
      ensures isLoaded == old(isLoaded) && runs == old(runs) && successes == old(successes)
      ensures file.None? ==>
        && r == Err(OpenFailureMessage + filepath)
        && buffer == old(buffer) && bufferChunk == old(bufferChunk) && bufferSizeBytes == old(bufferSizeBytes)
        && allocator.live == old(allocator.live)
      ensures file.Some? && Kept(file.value, dim) == [] ==>
        && r == Err(NoPointsMessage)
        && buffer == old(buffer) && bufferChunk == old(bufferChunk) && bufferSizeBytes == old(bufferSizeBytes)
        && allocator.live == old(allocator.live)
      ensures file.Some? && Kept(file.value, dim) != [] ==>
        var kept := Kept(file.value, dim);
        && GetSize() == DoubleSize * (|kept| * Stride(dim))
        && (r.Err? ==>
             && r.error == AllocationFailureMessage
             && buffer == null && bufferChunk == null
             && allocator.live == old(allocator.live))
        && (r.Ok? ==>
             && buffer != null && fresh(buffer) && Packs(buffer[..], kept, dim)
             && GetSize() == DoubleSize * buffer.Length
             && bufferChunk != null && fresh(bufferChunk) && bufferChunk.size == GetSize()
             && allocator.live == old(allocator.live) + {bufferChunk})
    {
      if file.None? {
        return Err(OpenFailureMessage + filepath);
      }
      var pointsVec := FilterLines(file.value, dim);
      if pointsVec == [] {
        return Err(NoPointsMessage);
      }
      var numPoints := |pointsVec|;
      var pointStride := dim + 1;
      bufferSizeBytes := DoubleSize * (numPoints * pointStride);
      var chunk := allocator.Allocate(bufferSizeBytes);
      if chunk == null {
        buffer := null;
        bufferChunk := null;
        return Err(AllocationFailureMessage);
      }
      var data := new real[numPoints * pointStride];
      RecordsEndIsOffset(0, numPoints, dim);
      PackPoints(data, pointsVec, dim);
      buffer := data;
      bufferChunk := chunk;
      return Ok(());
    }

    /** Runs `perform_load` unless a previous run succeeded; raises the
        flag only after a run that succeeded. */
    method Load(file: Option<seq<seq<real>>>) returns (r: Result<()>)
      requires Valid()
      modifies this, allocator
      ensures Valid()
      ensures Latched() == DataManager.Load(old(Latched()), r.Ok?)
      ensures old(isLoaded) ==>
        && r.Ok?
        && buffer == old(buffer) && bufferChunk == old(bufferChunk) && bufferSizeBytes == old(bufferSizeBytes)
        && allocator.live == old(allocator.live)
      ensures !old(isLoaded) && r.Ok? ==> file.Some? && Kept(file.value, dim) != []
      ensures !old(isLoaded) && (file.None? || Kept(file.value, dim) == []) ==>
        && buffer == old(buffer) && bufferChunk == old(bufferChunk) && bufferSizeBytes == old(bufferSizeBytes)
        && allocator.live == old(allocator.live)
      ensures !old(isLoaded) && file.Some? && Kept(file.value, dim) != [] ==>
        var kept := Kept(file.value, dim);
        && GetSize() == DoubleSize * (|kept| * Stride(dim))
        && (r.Err? ==>
             && buffer == null && bufferChunk == null
             && allocator.live == old(allocator.live))
        && (r.Ok? ==>
             && buffer != null && fresh(buffer) && Packs(buffer[..], kept, dim)
             && GetSize() == DoubleSize * buffer.Length
             && bufferChunk != null && fresh(bufferChunk) && bufferChunk.size == GetSize()
             && allocator.live == old(allocator.live) + {bufferChunk})
      ensures r.Err? ==>
        && (file.None? ==> r.error == OpenFailureMessage + filepath)
        && (file.Some? && Kept(file.value, dim) == [] ==> r.error == NoPointsMessage)
        && (file.Some? && Kept(file.value, dim) != [] ==> r.error == AllocationFailureMessage)
    {
      if !isLoaded {
        LoadKeepsConsistent(Latched(), false);
        LoadKeepsConsistent(Latched(), true);
        r := PerformLoad(file);
        runs := runs + 1;
        if r.Ok? {
          isLoaded := true;
          successes := successes + 1;
        }
      } else {
        r := Ok(());
      }
    }
  }

  /** Builds a data source, refusing a missing allocator and a zero
      dimension, in that order. */
  method NewTextFileSource(path: string, dimension: nat, allocator: Allocator?) returns (r: Result<TextFileSource>)
    ensures allocator == null ==> r == Err(NullAllocatorMessage)
    ensures allocator != null && dimension == 0 ==> r == Err(ZeroDimensionMessage)
    ensures r.Ok? <==> allocator != null && dimension != 0
    ensures r.Ok? ==>
      && fresh(r.value) && r.value.Valid() && r.value.Latched() == Unloaded
      && r.value.filepath == path && r.value.dim == dimension && r.value.allocator == allocator
      && r.value.GetData() == null && r.value.GetSize() == 0
  {
    if allocator == null {
      return Err(NullAllocatorMessage);
    }
    if dimension == 0 {
      return Err(ZeroDimensionMessage);
    }
    var source := new TextFileSource(path, dimension, allocator);
    return Ok(source);
  }
}
