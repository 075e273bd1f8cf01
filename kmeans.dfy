/**
 * The reference job (KMeans.h): iterative K-means over points packed as
 * records of `dim` coordinates followed by one label slot.
 *
 * Coordinates are reals; floating-point rounding is not modelled. The
 * engine moves records as bytes: a double becomes eight `Octet`s, the k-th
 * of which stands for the k-th byte of that double, so copying records into
 * blocks and reading them back is `EncodeRecord` / `DecodeAt`.
 */
module KMeansJob {
  import opened Allocation
  import opened Results
  import opened MapReduceEngine
  import opened RecordLayout

  /** The `lane`-th byte of the stored double `value`. */
  datatype Octet = Octet(value: real, lane: nat)

  /** The bytes of a run of doubles, as `memcpy` copies them. */
  function EncodeRecord(r: seq<real>): (b: seq<Octet>)
    ensures |b| == DoubleSize * |r|
  {
    seq(DoubleSize * |r|, x requires 0 <= x < DoubleSize * |r| => Octet(r[x / DoubleSize], x % DoubleSize))
  }

  /** The `count` doubles stored from byte offset `at` on. */
  function DecodeAt(b: seq<Octet>, at: nat, count: nat): (r: seq<real>)
    requires at + DoubleSize * count <= |b|
    ensures |r| == count
  {
    seq(count, k requires 0 <= k < count => b[at + DoubleSize * k].value)
  }

  /** Reading back what was copied gives the original doubles. */
  lemma DecodeEncode(r: seq<real>, prefix: seq<Octet>, suffix: seq<Octet>)
    ensures DecodeAt(prefix + EncodeRecord(r) + suffix, |prefix|, |r|) == r
  {
    var b := prefix + EncodeRecord(r) + suffix;
    forall k | 0 <= k < |r|
      ensures b[|prefix| + DoubleSize * k].value == r[k]
    {
      assert b[|prefix| + DoubleSize * k] == EncodeRecord(r)[DoubleSize * k];
      assert (DoubleSize * k) / DoubleSize == k;
    }
  }

  /** The whole records of a block's filled prefix, in order: a block of
      `count` bytes holds `count / item_size` of them. */
  function Records(data: seq<Octet>, dim: nat): (recs: seq<seq<real>>)
    ensures |recs| == |data| / ItemSize(dim)
    ensures forall i :: 0 <= i < |recs| ==> |recs[i]| == Stride(dim)
    decreases |data|
  {
    if |data| < ItemSize(dim) then []
    else
      DivStep(|data|, ItemSize(dim));
      [DecodeAt(data, 0, Stride(dim))] + Records(data[ItemSize(dim)..], dim)
  }

  /** The number of whole records in `n` bytes, `RecordCount`, is the
      quotient `n / item_size` the source computes. */
  lemma {:induction false} RecordCountIsQuotient(n: nat, dim: nat)
    ensures RecordCount(n, dim) == n / ItemSize(dim)
  {
    if n >= ItemSize(dim) {
      DivStep(n, ItemSize(dim));
      RecordCountIsQuotient(n - ItemSize(dim), dim);
    }
  }

  lemma DivStep(n: nat, d: nat)
    requires 0 < d <= n
    ensures n / d == (n - d) / d + 1
  {
    var q, r := (n - d) / d, (n - d) % d;
    assert n == (q + 1) * d + r;
    RowMajor(q + 1, r, q + 2, d);
  }

  /** Reading after dropping a prefix is reading further along. */
  lemma DecodeShift(data: seq<Octet>, drop: nat, at: nat, count: nat)
    requires drop <= |data| && at + DoubleSize * count <= |data| - drop
    ensures DecodeAt(data[drop..], at, count) == DecodeAt(data, drop + at, count)
  {
  }

  /** The `i`-th whole record of a block starts at byte `i * item_size`. */
  lemma {:induction false} RecordsAt(data: seq<Octet>, dim: nat, i: nat)
    requires i < |data| / ItemSize(dim)
    ensures (i + 1) * ItemSize(dim) <= |data|
    ensures Records(data, dim)[i] == DecodeAt(data, i * ItemSize(dim), Stride(dim))
  {
    var size := ItemSize(dim);
    DivStep(|data|, size);
    MulAdd(i, 1, size);
    if i > 0 {
      var off := (i - 1) * size;
      RecordsAt(data[size..], dim, i - 1);
      MulAdd(i - 1, 1, size);
      assert off + size == i * size;
      DecodeShift(data, size, off, Stride(dim));
    }
  }

  /** Cutting a byte run at a record boundary cuts its records there too. */
  lemma {:induction false} RecordsConcat(a: seq<Octet>, b: seq<Octet>, dim: nat)
    requires |a| % ItemSize(dim) == 0
    ensures Records(a + b, dim) == Records(a, dim) + Records(b, dim)
    decreases |a|
  {
    var size := ItemSize(dim);
    if |a| == 0 {
      assert a + b == b;
    } else {
      assert |a| >= size;
      assert (a + b)[size..] == a[size..] + b;
      assert |a[size..]| % size == 0 by { DivStep(|a|, size); }
      assert DecodeAt(a + b, 0, Stride(dim)) == DecodeAt(a, 0, Stride(dim));
      RecordsConcat(a[size..], b, dim);
    }
  }

  /** The records of one encoded record are that record alone. */
  lemma RecordsOfOne(r: seq<real>, dim: nat)
    requires |r| == Stride(dim)
    ensures Records(EncodeRecord(r), dim) == [r]
  {
    var b := EncodeRecord(r);
    DecodeEncode(r, [], []);
    assert [] + b + [] == b;
    assert b[ItemSize(dim)..] == [];
  }

  // ---------------------------------------------------------------------
  // Ownership of centroid rows by reducers.

  /** Centroid rows per reducer: `ceil(num_means / reduce_num)`. */
  function RowDis(numMeans: nat, reduceNum: nat): (d: nat)
    requires reduceNum >= 1
    ensures numMeans == 0 <==> d == 0
    ensures d <= numMeans
  {
    (numMeans + reduceNum - 1) / reduceNum
  }

  /** `RowDis` is the ceiling of the quotient: the least row count that lets
      `reduceNum` reducers cover every row. */
  lemma RowDisIsCeiling(numMeans: nat, reduceNum: nat)
    requires reduceNum >= 1
    ensures numMeans <= RowDis(numMeans, reduceNum) * reduceNum
    ensures RowDis(numMeans, reduceNum) * reduceNum < numMeans + reduceNum
    ensures numMeans >= 1 ==> RowDis(numMeans, reduceNum) >= 1
  {
    var n := numMeans + reduceNum - 1;
    var q, r := n / reduceNum, n % reduceNum;
    assert n == q * reduceNum + r;
  }

  function Min(a: nat, b: nat): nat { if a < b then a else b }

  /** First row owned by reducer `t`. */
  function OwnedStart(t: nat, rowDis: nat): nat { t * rowDis }

  /** One past the last row owned by reducer `t`. */
  function OwnedEnd(t: nat, rowDis: nat, numMeans: nat): nat { Min((t + 1) * rowDis, numMeans) }

  predicate Owns(t: nat, j: nat, rowDis: nat, numMeans: nat)
  {
    OwnedStart(t, rowDis) <= j < OwnedEnd(t, rowDis, numMeans)
  }

  /** The reducer a record labelled `clusterId` is sent to. */
  function Dest(clusterId: nat, rowDis: nat, reduceNum: nat): (r: nat)
    requires rowDis >= 1 && reduceNum >= 1
    ensures r < reduceNum
  {
    if clusterId / rowDis >= reduceNum then reduceNum - 1 else clusterId / rowDis
  }

  /** Row `j`'s records go to reducer `j / rowDis`, which owns row `j`. */
  lemma DestOwns(numMeans: nat, reduceNum: nat, j: nat)
    requires reduceNum >= 1 && j < numMeans
    ensures var rowDis := RowDis(numMeans, reduceNum);
            && rowDis >= 1
            && j / rowDis < reduceNum
            && Dest(j, rowDis, reduceNum) == j / rowDis
            && Owns(j / rowDis, j, rowDis, numMeans)
  {
    var rowDis := RowDis(numMeans, reduceNum);
    RowDisIsCeiling(numMeans, reduceNum);
    var o, r := j / rowDis, j % rowDis;
    assert j == o * rowDis + r;
    if o >= reduceNum {
      MulLeq(reduceNum, o, rowDis);
      assert false;
    }
    MulAdd(o, 1, rowDis);
  }

  /** No other reducer owns row `j`. */
  lemma OwnerUnique(numMeans: nat, reduceNum: nat, j: nat, t: nat)
    requires reduceNum >= 1 && j < numMeans
    requires Owns(t, j, RowDis(numMeans, reduceNum), numMeans)
    ensures t == j / RowDis(numMeans, reduceNum)
  {
    var rowDis := RowDis(numMeans, reduceNum);
    DestOwns(numMeans, reduceNum, j);
    var o := j / rowDis;
    if t < o {
      MulLeq(t + 1, o, rowDis);
      assert false;
    } else if t > o {
      MulLeq(o + 1, t, rowDis);
      assert false;
    }
  }

  /** The owned ranges partition the rows: every row has exactly one owner,
      and it is the reducer its records are sent to. */
  lemma OwnershipPartition(numMeans: nat, reduceNum: nat, j: nat, t: nat)
    requires reduceNum >= 1 && j < numMeans && t < reduceNum
    ensures var rowDis := RowDis(numMeans, reduceNum);
            && rowDis >= 1
            && Dest(j, rowDis, reduceNum) == j / rowDis
            && Owns(j / rowDis, j, rowDis, numMeans)
            && (Owns(t, j, rowDis, numMeans) <==> t == j / rowDis)
  {
    DestOwns(numMeans, reduceNum, j);
    if Owns(t, j, RowDis(numMeans, reduceNum), numMeans) {
      OwnerUnique(numMeans, reduceNum, j, t);
    }
  }

  /** A reducer whose first row is past the last centroid owns nothing. */
  lemma IdleReducerOwnsNothing(t: nat, j: nat, rowDis: nat, numMeans: nat)
    requires OwnedStart(t, rowDis) >= numMeans
    ensures !Owns(t, j, rowDis, numMeans)
  {
  }

  // ---------------------------------------------------------------------
  // Partitioning of the input among mappers.

  /** Items given to mapper `i` of `mapNum`: an equal share, the last mapper
      also taking the remainder. */
  function ItemsFor(i: nat, totalItems: nat, mapNum: nat): (n: nat)
    requires i < mapNum
    ensures totalItems / mapNum <= n < totalItems / mapNum + mapNum
  {
    var itemsPerMap := totalItems / mapNum;
    if i == mapNum - 1 then totalItems - itemsPerMap * (mapNum - 1) else itemsPerMap
  }

  /** The shares add up to all whole items: no item is dropped or repeated. */
  lemma ItemsForSum(totalItems: nat, mapNum: nat)
    requires mapNum >= 1
    ensures (totalItems / mapNum) * (mapNum - 1) <= totalItems
    ensures (totalItems / mapNum) * (mapNum - 1) + ItemsFor(mapNum - 1, totalItems, mapNum) == totalItems
  {
    var q, r := totalItems / mapNum, totalItems % mapNum;
    assert totalItems == q * mapNum + r;
    MulLeq(mapNum - 1, mapNum, q);
    assert q * (mapNum - 1) <= q * mapNum;
  }

  /** What `splice` has written once the first `|offsets|` mappers have
      their range: contiguous ranges from 0 whose lengths are the shares,
      ending at item `pos`. */
  ghost predicate Spliced(offsets: seq<nat>, lengths: seq<nat>, totalItems: nat, mapNum: nat, itemSize: nat, pos: nat)
  {
    && Contiguous(offsets, lengths)
    && |offsets| <= mapNum
    && (forall i :: 0 <= i < |lengths| ==> lengths[i] == ItemsFor(i, totalItems, mapNum) * itemSize)
    && (|offsets| > 0 ==> offsets[|offsets| - 1] + lengths[|offsets| - 1] == pos * itemSize)
    && (|offsets| < mapNum ==> pos == (totalItems / mapNum) * |offsets|)
    && (|offsets| == mapNum ==> pos == totalItems)
  }

  /** The arithmetic of one round of `splice`: mapper `i`'s share starts
      at item `pos`, is the share `ItemsFor` gives it, and ends where the
      next share starts (or, for the last mapper, at the last whole item). */
  lemma SpliceArith(i: nat, mapNum: nat, totalItems: nat, itemsPerMap: nat, pos: nat, itemSize: nat)
    requires i < mapNum && itemsPerMap == totalItems / mapNum && pos == itemsPerMap * i
    ensures pos <= totalItems
    ensures var items := if i == mapNum - 1 then totalItems - pos else itemsPerMap;
            && items == ItemsFor(i, totalItems, mapNum)
            && pos * itemSize + items * itemSize == (pos + items) * itemSize
            && (i + 1 < mapNum ==> pos + items == itemsPerMap * (i + 1))
            && (i + 1 == mapNum ==> pos + items == totalItems)
  {
    ItemsForSum(totalItems, mapNum);
    MulLeq(i, mapNum - 1, itemsPerMap);
    MulAdd(pos, ItemsFor(i, totalItems, mapNum), itemSize);
    MulAdd(i, 1, itemsPerMap);
  }

  /** Writing mapper `i`'s range after the first `i` keeps the ranges
      contiguous and the lengths the shares. */
  lemma SpliceStep(offsets: seq<nat>, lengths: seq<nat>, totalItems: nat, mapNum: nat, itemSize: nat, pos: nat,
                   offset: nat, length: nat, pos': nat)
    requires Spliced(offsets, lengths, totalItems, mapNum, itemSize, pos) && |offsets| < mapNum
    requires offset == pos * itemSize && length == ItemsFor(|offsets|, totalItems, mapNum) * itemSize
    requires offset + length == pos' * itemSize
    requires |offsets| + 1 < mapNum ==> pos' == (totalItems / mapNum) * (|offsets| + 1)
    requires |offsets| + 1 == mapNum ==> pos' == totalItems
    ensures Spliced(offsets + [offset], lengths + [length], totalItems, mapNum, itemSize, pos')
  {
    var offsets', lengths' := offsets + [offset], lengths + [length];
    if |offsets| > 0 {
      assert offsets'[|offsets|] == offsets'[|offsets| - 1] + lengths'[|offsets| - 1];
    }
  }

  /** Ranges laid end to end from 0: offset `i + 1` is where range `i` ends. */
  ghost predicate Contiguous(offsets: seq<nat>, lengths: seq<nat>)
  {
    && |offsets| == |lengths|
    && (|offsets| > 0 ==> offsets[0] == 0)
    && forall i :: 0 <= i < |offsets| - 1 ==> offsets[i + 1] == offsets[i] + lengths[i]
  }

  /** Contiguous ranges are disjoint and cover exactly `[0, end)`: every byte
      below the end lies in one range, and in no other. */
  lemma {:induction false} ContiguousPartition(offsets: seq<nat>, lengths: seq<nat>, x: nat, i: nat, i': nat)
    requires Contiguous(offsets, lengths) && |offsets| > 0
    requires i < |offsets| && i' < |offsets|
    requires offsets[i] <= x < offsets[i] + lengths[i]
    requires offsets[i'] <= x < offsets[i'] + lengths[i']
    ensures i == i'
  {
    if i < i' {
      RangesOrdered(offsets, lengths, i, i');
    } else if i' < i {
      RangesOrdered(offsets, lengths, i', i);
    }
  }

  lemma {:induction false} RangesOrdered(offsets: seq<nat>, lengths: seq<nat>, i: nat, i': nat)
    requires Contiguous(offsets, lengths)
    requires i < i' < |offsets|
    ensures offsets[i] + lengths[i] <= offsets[i']
    decreases i' - i
  {
    if i + 1 < i' {
      RangesOrdered(offsets, lengths, i + 1, i');
    }
  }

  lemma {:induction false} ContiguousCover(offsets: seq<nat>, lengths: seq<nat>, x: nat)
    requires Contiguous(offsets, lengths) && |offsets| > 0
    requires x < offsets[|offsets| - 1] + lengths[|offsets| - 1]
    ensures exists i :: 0 <= i < |offsets| && offsets[i] <= x < offsets[i] + lengths[i]
    decreases |offsets|
  {
    var n := |offsets|;
    if x < offsets[n - 1] {
      assert n > 1;
      ContiguousCover(offsets[..n - 1], lengths[..n - 1], x);
      var i :| 0 <= i < n - 1 && offsets[..n - 1][i] <= x < offsets[..n - 1][i] + lengths[..n - 1][i];
      assert offsets[i] <= x < offsets[i] + lengths[i];
    }
  }

  // ---------------------------------------------------------------------
  // Nearest centroid.

  /** Squared Euclidean distance over the first `n` coordinates. */
  function DistSq(p: seq<real>, c: seq<real>, n: nat): (d: real)
    requires n <= |p| && n <= |c|
    ensures d >= 0.0
    ensures p[..n] == c[..n] ==> d == 0.0
  {
    if n == 0 then 0.0
    else
      assert p[..n - 1] == p[..n][..n - 1] && c[..n - 1] == c[..n][..n - 1];
      DistSq(p, c, n - 1) + (p[n - 1] - c[n - 1]) * (p[n - 1] - c[n - 1])
  }

  /** Row `j` of a row-major table of `dim`-wide rows. */
  function Row(table: seq<real>, dim: nat, j: nat): (row: seq<real>)
    requires (j + 1) * dim <= |table|
    ensures |row| == dim
  {
    table[j * dim .. j * dim + dim]
  }

  lemma RowInTable(j: nat, numMeans: nat, dim: nat)
    requires j < numMeans
    ensures (j + 1) * dim <= numMeans * dim
  {
    MulLeq(j + 1, numMeans, dim);
  }

  /** The distances from `p` to the first `n` centroids. */
  function Distances(p: seq<real>, centroids: seq<real>, dim: nat, n: nat): (ds: seq<real>)
    requires dim <= |p| && n * dim <= |centroids|
    ensures |ds| == n
  {
    seq(n, j requires 0 <= j < n =>
      RowInTable(j, n, dim);
      DistSq(p, Row(centroids, dim, j), dim))
  }

  /** The first index of a minimum of `d[..n]`: later equal values do not
      replace it. */
  function FirstMin(d: seq<real>, n: nat): (b: nat)
    requires 0 < n <= |d|
    ensures b < n
    ensures forall j :: 0 <= j < n ==> d[b] <= d[j]
    ensures forall j :: 0 <= j < b ==> d[b] < d[j]
  {
    if n == 1 then 0
    else
      var b := FirstMin(d, n - 1);
      if d[n - 1] < d[b] then n - 1 else b
  }

  /** The label `map_func` writes: the first centroid at least as close to
      `p` as every other. */
  function Nearest(p: seq<real>, centroids: seq<real>, dim: nat, numMeans: nat): (b: nat)
    requires numMeans >= 1 && dim <= |p| && |centroids| == numMeans * dim
    ensures b < numMeans
  {
    FirstMin(Distances(p, centroids, dim, numMeans), numMeans)
  }

  /** The first-nearest index is unique: two indices that both are nearest
      with no strictly-nearer earlier index are the same. Hence the label is
      a function of the point and the centroid table alone. */
  lemma NearestIsFirstMinimum(p: seq<real>, centroids: seq<real>, dim: nat, numMeans: nat, b: nat)
    requires numMeans >= 1 && dim <= |p| && |centroids| == numMeans * dim && b < numMeans
    requires var ds := Distances(p, centroids, dim, numMeans);
             (forall j :: 0 <= j < numMeans ==> ds[b] <= ds[j]) &&
             (forall j :: 0 <= j < b ==> ds[b] < ds[j])
    ensures Nearest(p, centroids, dim, numMeans) == b
  {
    var ds := Distances(p, centroids, dim, numMeans);
    var n := Nearest(p, centroids, dim, numMeans);
    assert ds[n] <= ds[b] && ds[b] <= ds[n];
  }

  // ---------------------------------------------------------------------
  // What `map_func` does to the points and to the cells.

  /** The label `map_func` gives a point: its nearest centroid. */
  function Classify(centroids: seq<real>, dim: nat, numMeans: nat, p: seq<real>): (c: nat)
    ensures numMeans >= 1 ==> c < numMeans
  {
    if numMeans >= 1 && dim <= |p| && |centroids| == numMeans * dim then Nearest(p, centroids, dim, numMeans) else 0
  }

  /** The reducer `map_func` sends a point to: the owner of its label. */
  function Route(centroids: seq<real>, dim: nat, numMeans: nat, reduceNum: nat, p: seq<real>): (r: nat)
    ensures reduceNum >= 1 ==> r < reduceNum
  {
    if reduceNum >= 1 && RowDis(numMeans, reduceNum) >= 1
    then Dest(Classify(centroids, dim, numMeans, p), RowDis(numMeans, reduceNum), reduceNum)
    else 0
  }

  function Classifier(centroids: seq<real>, dim: nat, numMeans: nat): seq<real> -> nat
  {
    p => Classify(centroids, dim, numMeans, p)
  }

  function Router(centroids: seq<real>, dim: nat, numMeans: nat, reduceNum: nat): seq<real> -> nat
  {
    p => Route(centroids, dim, numMeans, reduceNum, p)
  }

  /** The buffer after labelling the records laid end to end in `[from, to)`
      (double indices): the label slot of each holds what `classify` gives
      the record's coordinates. */
  function Labelled(s: seq<real>, lo: nat, hi: nat, dim: nat, classify: seq<real> -> nat): (t: seq<real>)
    requires lo <= hi <= |s|
    ensures |t| == |s|
    decreases hi
  {
    if hi - lo < Stride(dim) then s
    else
      var at := hi - Stride(dim);
      Labelled(s, lo, at, dim, classify)[at + dim := classify(s[at .. at + dim]) as real]
  }

  /** Labelling leaves everything outside the labelled records alone. */
  lemma {:induction false} LabelledOutside(s: seq<real>, lo: nat, hi: nat, dim: nat, classify: seq<real> -> nat, x: nat)
    requires lo <= hi <= |s|
    requires x < lo || hi <= x < |s|
    ensures Labelled(s, lo, hi, dim, classify)[x] == s[x]
    decreases hi
  {
    if hi - lo >= Stride(dim) {
      LabelledOutside(s, lo, hi - Stride(dim), dim, classify, x);
    }
  }

  /** Labelling the `n` records from `lo` (which end at `hi`) writes the
      label slot of record `i` (which starts at `at`) and leaves its
      coordinates alone. */
  lemma {:induction false} LabelledRecord(s: seq<real>, lo: nat, hi: nat, n: nat, dim: nat, classify: seq<real> -> nat,
                                          i: nat, at: nat)
    requires hi == lo + n * Stride(dim) <= |s|
    requires i < n && at == lo + i * Stride(dim)
    ensures at + Stride(dim) <= hi
    ensures Labelled(s, lo, hi, dim, classify)[at .. at + dim] == s[at .. at + dim]
    ensures Labelled(s, lo, hi, dim, classify)[at + dim] == classify(s[at .. at + dim]) as real
    decreases n
  {
    var st := Stride(dim);
    MulLeq(i + 1, n, st);
    assert at + st == lo + (i + 1) * st;
    var last := hi - st;
    assert last == lo + (n - 1) * st;
    var t' := Labelled(s, lo, last, dim, classify);
    if i < n - 1 {
      LabelledRecord(s, lo, last, n - 1, dim, classify, i, at);
    } else {
      assert at == last;
      forall x | at <= x < at + dim
        ensures t'[x] == s[x]
      {
        LabelledOutside(s, lo, last, dim, classify, x);
      }
    }
  }

  /** The bytes `map_func` sends to reducer `r`: the records laid end to end
      in `[from, to)` that `route` sends to `r`, in order. */
  function Routed(t: seq<real>, lo: nat, hi: nat, dim: nat, route: seq<real> -> nat, r: nat): seq<Octet>
    requires lo <= hi <= |t|
    decreases hi
  {
    if hi - lo < Stride(dim) then []
    else
      var at := hi - Stride(dim);
      Routed(t, lo, at, dim, route, r)
        + (if route(t[at .. at + dim]) == r then EncodeRecord(t[at .. hi]) else [])
  }

  /** What is routed depends only on the records themselves. */
  lemma {:induction false} RoutedFrame(t: seq<real>, lo: nat, hi: nat, dim: nat, route: seq<real> -> nat, r: nat, x: nat, v: real)
    requires lo <= hi <= x < |t|
    ensures Routed(t[x := v], lo, hi, dim, route, r) == Routed(t, lo, hi, dim, route, r)
    decreases hi
  {
    if hi - lo >= Stride(dim) {
      var at := hi - Stride(dim);
      assert t[x := v][at .. hi] == t[at .. hi];
      assert t[x := v][at .. at + dim] == t[at .. at + dim];
      RoutedFrame(t, lo, at, dim, route, r, x, v);
    }
  }

  /** Every block of every cell holds whole records of `size` bytes. */
  ghost predicate WholeRecords(grid: seq<seq<Block<Octet>>>, size: nat)
  {
    size > 0 && forall c, b :: 0 <= c < |grid| && 0 <= b < |grid[c]| ==> |grid[c][b].data| % size == 0
  }

  /** An emit of one whole record, in either of its two forms, keeps every
      block of the cell a run of whole records. */
  lemma AddWhole(a: nat, size: nat)
    requires size > 0 && a % size == 0
    ensures (a + size) % size == 0
  {
    var q := a / size;
    assert a == q * size;
    RowMajor(q + 1, 0, q + 2, size);
    assert a + size == (q + 1) * size + 0;
  }

  lemma EmitKeepsWholeRecords(grid: seq<seq<Block<Octet>>>, grid': seq<seq<Block<Octet>>>, index: nat,
                              record: seq<Octet>, size: nat)
    requires WholeRecords(grid, size) && |record| == size
    requires index < |grid| && |grid'| == |grid| && grid' == grid[index := grid'[index]]
    requires var cell, cell' := grid[index], grid'[index];
             var n := |cell|;
             || (cell != [] && cell' == cell[..n - 1] + [Block(cell[n - 1].chunk, cell[n - 1].data + record)])
             || (|cell'| == n + 1 && cell'[..n] == cell && cell'[n].data == record)
    ensures WholeRecords(grid', size)
  {
    var cell, cell' := grid[index], grid'[index];
    var n := |cell|;
    forall b | 0 <= b < |cell'|
      ensures |cell'[b].data| % size == 0
    {
      if |cell'| == n + 1 && cell'[..n] == cell {
        if b < n {
          assert cell'[b] == cell'[..n][b];
        }
      } else {
        assert cell' == cell[..n - 1] + [Block(cell[n - 1].chunk, cell[n - 1].data + record)];
        if b < n - 1 {
          assert cell'[b] == cell[b];
        } else {
          assert |cell'[b].data| == |cell[b].data| + size;
          AddWhole(|cell[b].data|, size);
        }
      }
    }
  }

  // ---------------------------------------------------------------------
  // What `reduce_func` reads and writes.

  /** The records of a cell, block by block, in insertion order. */
  function CellRecords(cell: seq<Block<Octet>>, dim: nat): seq<seq<real>>
  {
    if cell == [] then [] else CellRecords(cell[..|cell| - 1], dim) + Records(cell[|cell| - 1].data, dim)
  }

  /** The records in cells (0, t) .. (m - 1, t): all reducer `t` reads from
      the first `m` mappers. */
  function Gathered(grid: seq<seq<Block<Octet>>>, mapNum: nat, reduceNum: nat, t: nat, m: nat, dim: nat): seq<seq<real>>
    requires |grid| == mapNum * reduceNum && t < reduceNum && m <= mapNum
  {
    if m == 0 then []
    else Gathered(grid, mapNum, reduceNum, t, m - 1, dim) + CellRecords(grid[CellIndex(m - 1, t, mapNum, reduceNum)], dim)
  }

  /** C++'s conversion of a double to int: truncation toward zero. */
  function Trunc(x: real): (n: int)
    ensures x >= 0.0 ==> 0 <= n && n as real <= x < n as real + 1.0
    ensures x < 0.0 ==> n <= 0 && n as real - 1.0 < x <= n as real
  {
    if x >= 0.0 then x.Floor else -((-x).Floor)
  }

  /** Whether a record is labelled with cluster `j`. */
  predicate LabelledWith(rec: seq<real>, j: int, dim: nat)
  {
    |rec| == Stride(dim) && Trunc(rec[dim]) == j
  }

  /** How many records are labelled `j`. */
  function Count(recs: seq<seq<real>>, j: int, dim: nat): nat
  {
    if recs == [] then 0
    else Count(recs[..|recs| - 1], j, dim) + (if LabelledWith(recs[|recs| - 1], j, dim) then 1 else 0)
  }

  /** The sum of coordinate `k` over the records labelled `j`. */
  function Sum(recs: seq<seq<real>>, j: int, k: nat, dim: nat): real
    requires k < dim
  {
    if recs == [] then 0.0
    else Sum(recs[..|recs| - 1], j, k, dim) + (if LabelledWith(recs[|recs| - 1], j, dim) then recs[|recs| - 1][k] else 0.0)
  }

  /** The centroid table after a reducer owning rows `[lo, hi)` has seen
      `recs`: an owned row with at least one record becomes the mean of its
      records; every other row keeps its value. */
  function Reduced(centroids: seq<real>, recs: seq<seq<real>>, lo: nat, hi: nat, dim: nat): (r: seq<real>)
    ensures |r| == |centroids|
  {
    if dim == 0 then centroids
    else
      seq(|centroids|, x requires 0 <= x < |centroids| =>
        var j := x / dim;
        if lo <= j < hi && Count(recs, j, dim) > 0
        then Sum(recs, j, x % dim, dim) / (Count(recs, j, dim) as real)
        else centroids[x])
  }

  lemma RowOf(x: nat, g: nat, dim: nat)
    requires dim > 0
    ensures (x / dim == g) <==> (g * dim <= x < g * dim + dim)
    ensures x / dim == g ==> x % dim == x - g * dim
  {
    var q, r := x / dim, x % dim;
    assert x == q * dim + r;
    if q < g {
      MulLeq(q + 1, g, dim);
    } else if q > g {
      MulLeq(g + 1, q, dim);
    }
  }

  /** Row by row: an owned row with records is their mean, coordinate by
      coordinate; any other row is unchanged. */
  lemma ReducedRow(centroids: seq<real>, recs: seq<seq<real>>, lo: nat, hi: nat, dim: nat, j: nat, k: nat)
    requires k < dim && (j + 1) * dim <= |centroids|
    ensures j * dim + k < |centroids|
    ensures Reduced(centroids, recs, lo, hi, dim)[j * dim + k]
         == if lo <= j < hi && Count(recs, j, dim) > 0
            then Sum(recs, j, k, dim) / (Count(recs, j, dim) as real)
            else centroids[j * dim + k]
  {
    var x := j * dim + k;
    RowOf(x, j, dim);
    assert x / dim == j && x % dim == k;
  }

  lemma ReducedNothing(centroids: seq<real>, recs: seq<seq<real>>, lo: nat, hi: nat, dim: nat)
    requires hi <= lo
    ensures Reduced(centroids, recs, lo, hi, dim) == centroids
  {
  }

  /** The running totals of `reduce_func` for rows `start ..`: a count and a
      per-coordinate sum for each row, over the records seen so far. */
  ghost predicate Tally(counts: seq<nat>, sums: seq<seq<real>>, recs: seq<seq<real>>, start: nat, dim: nat)
  {
    && |sums| == |counts|
    && (forall l :: 0 <= l < |counts| ==> counts[l] == Count(recs, start + l, dim))
    && (forall l :: 0 <= l < |sums| ==> |sums[l]| == dim)
    && (forall l, k :: 0 <= l < |sums| && 0 <= k < |sums[l]| ==> sums[l][k] == Sum(recs, start + l, k, dim))
  }

  /** Nothing seen, everything zero. */
  lemma TallyEmpty(count: nat, start: nat, dim: nat)
    ensures Tally(seq(count, _ => 0), seq(count, _ => seq(dim, _ => 0.0)), [], start, dim)
  {
  }

  /** Counting one more record: its row, if owned, gains one and the
      record's coordinates; every other row is unchanged. */
  lemma TallyStep(counts: seq<nat>, sums: seq<seq<real>>, recs: seq<seq<real>>, start: nat, dim: nat,
                  rec: seq<real>, counts': seq<nat>, sums': seq<seq<real>>)
    requires Tally(counts, sums, recs, start, dim) && |rec| == Stride(dim)
    requires var local := Trunc(rec[dim]) - start;
             if 0 <= local < |counts| then
               && counts' == counts[local := counts[local] + 1]
               && |sums'| == |sums| && (forall l :: 0 <= l < |sums| && l != local ==> sums'[l] == sums[l])
               && |sums'[local]| == dim && (forall k :: 0 <= k < dim ==> sums'[local][k] == sums[local][k] + rec[k])
             else counts' == counts && sums' == sums
    ensures Tally(counts', sums', recs + [rec], start, dim)
  {
    var all := recs + [rec];
    assert all[..|all| - 1] == recs;
    forall l | 0 <= l < |counts'|
      ensures counts'[l] == Count(all, start + l, dim)
    {
    }
    forall l, k | 0 <= l < |sums'| && 0 <= k < |sums'[l]|
      ensures sums'[l][k] == Sum(all, start + l, k, dim)
    {
    }
  }

  /** Labelling one more record extends the labelled prefix by it. */
  lemma LabelStep(s0: seq<real>, t: seq<real>, t': seq<real>, base: nat, at: nat, dim: nat, classify: seq<real> -> nat)
    requires base <= at && at + Stride(dim) <= |s0|
    requires t == Labelled(s0, base, at, dim, classify)
    requires t' == t[at + dim := classify(t[at .. at + dim]) as real]
    ensures t' == Labelled(s0, base, at + Stride(dim), dim, classify)
  {
    forall x | at <= x < at + dim
      ensures t[x] == s0[x]
    {
      LabelledOutside(s0, base, at, dim, classify, x);
    }
    assert t[at .. at + dim] == s0[at .. at + dim];
  }

  /** Routing one more record extends what reducer `r` is sent by that
      record, if it is routed to `r`. */
  lemma RoutedStep(t: seq<real>, t': seq<real>, base: nat, at: nat, dim: nat, route: seq<real> -> nat, r: nat, v: real)
    requires base <= at && at + Stride(dim) <= |t|
    requires t' == t[at + dim := v]
    ensures Routed(t', base, at + Stride(dim), dim, route, r)
         == Routed(t, base, at, dim, route, r)
            + (if route(t[at .. at + dim]) == r then EncodeRecord(t'[at .. at + Stride(dim)]) else [])
  {
    RoutedFrame(t, base, at, dim, route, r, at + dim, v);
    assert t'[at .. at + dim] == t[at .. at + dim];
  }

  /** What `map_func` has done once the records of its split in
      `[base, at)` are handled: `t` is the buffer `s0` with those records
      labelled, each cell of mapper `taskId` holds what it held in `grid0`
      plus what was routed to it, and no other cell has changed. */
  ghost predicate MapState(grid0: seq<seq<Block<Octet>>>, grid: seq<seq<Block<Octet>>>, s0: seq<real>, t: seq<real>,
                           mapNum: nat, reduceNum: nat, taskId: nat, base: nat, at: nat, dim: nat,
                           classify: seq<real> -> nat, route: seq<real> -> nat)
  {
    && |grid0| == mapNum * reduceNum && |grid| == mapNum * reduceNum && taskId < mapNum
    && base <= at <= |s0| && |t| == |s0|
    && t == Labelled(s0, base, at, dim, classify)
    && (forall c :: 0 <= c < |grid| && c / reduceNum != taskId ==> grid[c] == grid0[c])
    && forall r :: 0 <= r < reduceNum ==>
      Contents(grid[CellIndex(taskId, r, mapNum, reduceNum)])
        == Contents(grid0[CellIndex(taskId, r, mapNum, reduceNum)]) + Routed(t, base, at, dim, route, r)
  }

  lemma MapStateStart(grid0: seq<seq<Block<Octet>>>, s0: seq<real>, mapNum: nat, reduceNum: nat, taskId: nat,
                      base: nat, dim: nat, classify: seq<real> -> nat, route: seq<real> -> nat)
    requires |grid0| == mapNum * reduceNum && taskId < mapNum && base <= |s0|
    ensures MapState(grid0, grid0, s0, s0, mapNum, reduceNum, taskId, base, base, dim, classify, route)
  {
    forall r | 0 <= r < reduceNum
      ensures Routed(s0, base, base, dim, route, r) == []
    {
    }
  }

  /** Appending to one cell of mapper `taskId` leaves the cells of the other
      mappers as they were. */
  lemma OtherCellsStep(grid0: seq<seq<Block<Octet>>>, grid: seq<seq<Block<Octet>>>, grid': seq<seq<Block<Octet>>>,
                       mapNum: nat, reduceNum: nat, taskId: nat, dest: nat)
    requires taskId < mapNum && dest < reduceNum && |grid0| == |grid| == mapNum * reduceNum
    requires forall c :: 0 <= c < |grid| && c / reduceNum != taskId ==> grid[c] == grid0[c]
    requires var c := CellIndex(taskId, dest, mapNum, reduceNum); |grid'| == |grid| && grid' == grid[c := grid'[c]]
    ensures forall c :: 0 <= c < |grid'| && c / reduceNum != taskId ==> grid'[c] == grid0[c]
  {
    var c' := CellIndex(taskId, dest, mapNum, reduceNum);
    forall c | 0 <= c < |grid'| && c / reduceNum != taskId
      ensures grid'[c] == grid0[c]
    {
      assert c != c';
    }
  }

  /** Appending the record routed to `dest` to its cell extends what each
      cell of the mapper holds by what is routed to it. */
  lemma MapperCellsStep(grid0: seq<seq<Block<Octet>>>, grid: seq<seq<Block<Octet>>>, grid': seq<seq<Block<Octet>>>,
                        t: seq<real>, t': seq<real>, mapNum: nat, reduceNum: nat, taskId: nat,
                        base: nat, at: nat, dim: nat, route: seq<real> -> nat, dest: nat, record: seq<Octet>, v: real)
    requires taskId < mapNum && |grid0| == |grid| == mapNum * reduceNum && base <= at && at + Stride(dim) <= |t|
    requires forall r :: 0 <= r < reduceNum ==>
      Contents(grid[CellIndex(taskId, r, mapNum, reduceNum)])
        == Contents(grid0[CellIndex(taskId, r, mapNum, reduceNum)]) + Routed(t, base, at, dim, route, r)
    requires t' == t[at + dim := v]
    requires dest < reduceNum && route(t[at .. at + dim]) == dest && record == EncodeRecord(t'[at .. at + Stride(dim)])
    requires var c := CellIndex(taskId, dest, mapNum, reduceNum);
             |grid'| == |grid| && grid' == grid[c := grid'[c]] && Contents(grid'[c]) == Contents(grid[c]) + record
    ensures forall r :: 0 <= r < reduceNum ==>
      Contents(grid'[CellIndex(taskId, r, mapNum, reduceNum)])
        == Contents(grid0[CellIndex(taskId, r, mapNum, reduceNum)]) + Routed(t', base, at + Stride(dim), dim, route, r)
  {
    var c' := CellIndex(taskId, dest, mapNum, reduceNum);
    forall r | 0 <= r < reduceNum
      ensures Contents(grid'[CellIndex(taskId, r, mapNum, reduceNum)])
        == Contents(grid0[CellIndex(taskId, r, mapNum, reduceNum)]) + Routed(t', base, at + Stride(dim), dim, route, r)
    {
      var c := CellIndex(taskId, r, mapNum, reduceNum);
      RoutedStep(t, t', base, at, dim, route, r, v);
      var before := Routed(t, base, at, dim, route, r);
      if r == dest {
        assert Contents(grid'[c]) == (Contents(grid0[c]) + before) + record;
        AppendAssoc(Contents(grid0[c]), before, record);
      } else {
        assert c != c';
        assert Routed(t', base, at + Stride(dim), dim, route, r) == before + [];
        assert before + [] == before;
      }
    }
  }

  lemma AppendAssoc<U>(a: seq<U>, b: seq<U>, c: seq<U>)
    ensures (a + b) + c == a + (b + c)
  {
  }

  /** One step of `map_func`: labelling the record at `at` and appending it
      to the cell of the reducer it is routed to extends the labelled prefix
      by that record, and extends each cell of the mapper by what is routed
      to it. */
  lemma MapStep(grid0: seq<seq<Block<Octet>>>, grid: seq<seq<Block<Octet>>>, grid': seq<seq<Block<Octet>>>,
                s0: seq<real>, t: seq<real>, t': seq<real>, mapNum: nat, reduceNum: nat, taskId: nat,
                base: nat, at: nat, next: nat, dim: nat, classify: seq<real> -> nat, route: seq<real> -> nat,
                dest: nat, record: seq<Octet>)
    requires MapState(grid0, grid, s0, t, mapNum, reduceNum, taskId, base, at, dim, classify, route)
    requires next == at + Stride(dim) && next <= |t|
    requires t' == t[at + dim := classify(t[at .. at + dim]) as real]
    requires dest < reduceNum && route(t[at .. at + dim]) == dest && record == EncodeRecord(t'[at .. at + Stride(dim)])
    requires var c := CellIndex(taskId, dest, mapNum, reduceNum);
             |grid'| == |grid| && grid' == grid[c := grid'[c]] && Contents(grid'[c]) == Contents(grid[c]) + record
    ensures MapState(grid0, grid', s0, t', mapNum, reduceNum, taskId, base, next, dim, classify, route)
  {
    LabelStep(s0, t, t', base, at, dim, classify);
    OtherCellsStep(grid0, grid, grid', mapNum, reduceNum, taskId, dest);
    MapperCellsStep(grid0, grid, grid', t, t', mapNum, reduceNum, taskId, base, at, dim, route, dest, record,
                    classify(t[at .. at + dim]) as real);
  }

  // ---------------------------------------------------------------------
  // The K-means job.

  /** A row grown by one record: coordinate `k` gains the double stored at
      byte `off + 8 k`. */
  method AddPoint(row: seq<real>, data: seq<Octet>, off: nat, dim: nat) returns (row': seq<real>)
    requires |row| == dim && off + DoubleSize * dim <= |data|
    ensures |row'| == dim
    ensures forall k :: 0 <= k < dim ==> row'[k] == row[k] + data[off + DoubleSize * k].value
  {
    row' := row;
    var j := 0;
    while j < dim
      invariant j <= dim && |row'| == dim
      invariant forall k :: 0 <= k < j ==> row'[k] == row[k] + data[off + DoubleSize * k].value
      invariant forall k :: j <= k < dim ==> row'[k] == row[k]
    {
      row' := row'[j := row'[j] + data[off + DoubleSize * j].value];
      j := j + 1;
    }
  }

  /** Counts the record stored at byte `off`: if its label is one of the
      rows `start ..` being reduced, that row's count and sums grow. */
  method CountRecord(counts: seq<nat>, sums: seq<seq<real>>, data: seq<Octet>, off: nat, start: nat, dim: nat,
                     ghost recs: seq<seq<real>>) returns (counts': seq<nat>, sums': seq<seq<real>>)
    requires Tally(counts, sums, recs, start, dim) && off + ItemSize(dim) <= |data|
    ensures |counts'| == |counts|
    ensures Tally(counts', sums', recs + [DecodeAt(data, off, Stride(dim))], start, dim)
  {
    ghost var rec := DecodeAt(data, off, Stride(dim));
    var clusterId := Trunc(data[off + DoubleSize * dim].value);
    var local := clusterId - start;
    if 0 <= local < |counts| {
      counts' := counts[local := counts[local] + 1];
      var row := AddPoint(sums[local], data, off, dim);
      sums' := sums[local := row];
    } else {
      counts', sums' := counts, sums;
    }
    TallyStep(counts, sums, recs, start, dim, rec, counts', sums');
  }

  /** Counts the whole records of one block, front to back. */
  method CountBlock(counts: seq<nat>, sums: seq<seq<real>>, data: seq<Octet>, start: nat, dim: nat,
                    ghost recs: seq<seq<real>>) returns (counts': seq<nat>, sums': seq<seq<real>>)
    requires Tally(counts, sums, recs, start, dim)
    ensures |counts'| == |counts|
    ensures Tally(counts', sums', recs + Records(data, dim), start, dim)
  {
    ghost var all := Records(data, dim);
    var itemSize := ItemSize(dim);
    var numPointsInBlock := |data| / itemSize;
    counts', sums' := counts, sums;
    var i := 0;
    assert recs + all[..0] == recs;
    while i < numPointsInBlock
      invariant i <= numPointsInBlock == |all| && |counts'| == |counts|
      invariant Tally(counts', sums', recs + all[..i], start, dim)
    {
      RecordsAt(data, dim, i);
      var off := i * itemSize;
      MulAdd(i, 1, itemSize);
      counts', sums' := CountRecord(counts', sums', data, off, start, dim, recs + all[..i]);
      assert all[..i + 1] == all[..i] + [all[i]];
      AppendAssoc(recs, all[..i], [all[i]]);
      i := i + 1;
    }
    assert all[..i] == all;
  }

  /** Counts the records of one cell, block by block. */
  method CountCell(counts: seq<nat>, sums: seq<seq<real>>, cell: seq<Block<Octet>>, start: nat, dim: nat,
                   ghost recs: seq<seq<real>>) returns (counts': seq<nat>, sums': seq<seq<real>>)
    requires Tally(counts, sums, recs, start, dim)
    ensures |counts'| == |counts|
    ensures Tally(counts', sums', recs + CellRecords(cell, dim), start, dim)
  {
    counts', sums' := counts, sums;
    var b := 0;
    assert cell[..0] == [] && recs + [] == recs;
    while b < |cell|
      invariant b <= |cell| && |counts'| == |counts|
      invariant Tally(counts', sums', recs + CellRecords(cell[..b], dim), start, dim)
    {
      counts', sums' := CountBlock(counts', sums', cell[b].data, start, dim, recs + CellRecords(cell[..b], dim));
      assert cell[..b + 1][..b] == cell[..b] && cell[..b + 1][b] == cell[b];
      AppendAssoc(recs, CellRecords(cell[..b], dim), Records(cell[b].data, dim));
      b := b + 1;
    }
    assert cell[..b] == cell;
  }

  /** The first loop of `reduce_func`: the count and per-coordinate sums of
      rows `start .. start + count` over every record reducer `t` was sent,
      mapper by mapper. */
  method Gather(grid: seq<seq<Block<Octet>>>, mapNum: nat, reduceNum: nat, t: nat, start: nat, count: nat, dim: nat)
    returns (counts: seq<nat>, sums: seq<seq<real>>)
    requires |grid| == mapNum * reduceNum && t < reduceNum
    ensures |counts| == count
    ensures Tally(counts, sums, Gathered(grid, mapNum, reduceNum, t, mapNum, dim), start, dim)
  {
    counts := seq(count, _ => 0);
    sums := seq(count, _ => seq(dim, _ => 0.0));
    TallyEmpty(count, start, dim);
    var mapId := 0;
    while mapId < mapNum
      invariant mapId <= mapNum && |counts| == count
      invariant Tally(counts, sums, Gathered(grid, mapNum, reduceNum, t, mapId, dim), start, dim)
    {
      var cell := grid[CellIndex(mapId, t, mapNum, reduceNum)];
      counts, sums := CountCell(counts, sums, cell, start, dim, Gathered(grid, mapNum, reduceNum, t, mapId, dim));
      mapId := mapId + 1;
    }
  }

  /** Writing row `g` of the table — its mean if it has records, else
      nothing — extends the reduced rows `[lo, g)` to `[lo, g + 1)`. */
  lemma ReducedGrow(c0: seq<real>, recs: seq<seq<real>>, lo: nat, g: nat, dim: nat, table: seq<real>, table': seq<real>)
    requires lo <= g && (g + 1) * dim <= |c0|
    requires table == Reduced(c0, recs, lo, g, dim) && |table'| == |c0|
    requires forall x :: 0 <= x < |c0| ==>
      table'[x] == if g * dim <= x < g * dim + dim && Count(recs, g, dim) > 0
                   then Sum(recs, g, x - g * dim, dim) / (Count(recs, g, dim) as real)
                   else table[x]
    ensures table' == Reduced(c0, recs, lo, g + 1, dim)
  {
    if dim > 0 {
      var r := Reduced(c0, recs, lo, g + 1, dim);
      forall x | 0 <= x < |c0|
        ensures table'[x] == r[x]
      {
        RowOf(x, g, dim);
      }
    }
  }

  /** One round of `splice`: writes the range of mapper `i`, which starts
      at item `pos`, and returns the item where the next range starts. */
  method WriteShare(dataArr: array<nat>, dataDis: array<nat>, i: nat, pos: nat,
                    totalItems: nat, itemsPerMap: nat, itemSize: nat) returns (next: nat)
    requires dataArr.Length == dataDis.Length && i < dataArr.Length && dataArr != dataDis
    requires itemsPerMap == totalItems / dataArr.Length
    requires Spliced(dataArr[..i], dataDis[..i], totalItems, dataArr.Length, itemSize, pos)
    modifies dataArr, dataDis
    ensures Spliced(dataArr[..i + 1], dataDis[..i + 1], totalItems, dataArr.Length, itemSize, next)
  {
    var mapNum := dataArr.Length;
    SpliceArith(i, mapNum, totalItems, itemsPerMap, pos, itemSize);
    var itemsForThisMap: nat;
    if i == mapNum - 1 {
      itemsForThisMap := totalItems - pos;
    } else {
      itemsForThisMap := itemsPerMap;
    }
    var offset, length := pos * itemSize, itemsForThisMap * itemSize;
    ghost var offsets, lengths := dataArr[..i], dataDis[..i];
    dataArr[i] := offset;
    dataDis[i] := length;
    assert dataArr[..i + 1] == offsets + [offset];
    assert dataDis[..i + 1] == lengths + [length];
    next := pos + itemsForThisMap;
    SpliceStep(offsets, lengths, totalItems, mapNum, itemSize, pos, offset, length, next);
  }

  /** A K-means job over the shared intermediate store: the centroid table
      and the shape of the records it maps and reduces. */
  class KMeans {
    const engine: MapReduce<Octet>
    const numPoints: nat
    const dim: nat
    const numMeans: nat
    const rowDis: nat
    const clusterData: array<real>
    /** The allocation backing `clusterData`. */
    ghost const clusterChunk: Chunk

    ghost predicate Valid()
      reads this, engine, engine.allocator
    {
      && engine.Valid()
      && engine.mapNum >= 1 && engine.reduceNum >= 1 && numMeans >= 1
      && rowDis == RowDis(numMeans, engine.reduceNum)
      && clusterData.Length == numMeans * dim
      && WholeRecords(engine.vec, ItemSize(dim))
    }

    constructor (engine: MapReduce<Octet>, numPoints: nat, dim: nat, numMeans: nat, initialCentroids: seq<real>,
                 ghost clusterChunk: Chunk)
      requires engine.Valid() && engine.mapNum >= 1 && engine.reduceNum >= 1 && numMeans >= 1
      requires forall i :: 0 <= i < |engine.vec| ==> engine.vec[i] == []
      requires |initialCentroids| == numMeans * dim
      ensures Valid()
      ensures this.engine == engine && this.numPoints == numPoints && this.dim == dim && this.numMeans == numMeans
      ensures rowDis == RowDis(numMeans, engine.reduceNum)
      ensures fresh(clusterData) && clusterData[..] == initialCentroids && this.clusterChunk == clusterChunk
    {
      this.clusterChunk := clusterChunk;
      this.engine := engine;
      this.numPoints := numPoints;
      this.dim := dim;
      this.numMeans := numMeans;
      rowDis := RowDis(numMeans, engine.reduceNum);
      clusterData := new real[numMeans * dim](i requires 0 <= i < numMeans * dim => initialCentroids[i]);
    }

    /** Cuts `dataLength` bytes of records into one contiguous range per
        mapper: equal shares of whole records, the last mapper also taking
        the remainder. */
    method Splice(dataArr: array<nat>, dataDis: array<nat>, dataLength: nat)
      requires engine.mapNum >= 1
      requires dataArr.Length == engine.mapNum && dataDis.Length == engine.mapNum && dataArr != dataDis
      modifies dataArr, dataDis
      ensures Contiguous(dataArr[..], dataDis[..])
      ensures forall i :: 0 <= i < engine.mapNum ==> dataDis[i] == ItemsFor(i, dataLength / ItemSize(dim), engine.mapNum) * ItemSize(dim)
      ensures dataArr[engine.mapNum - 1] + dataDis[engine.mapNum - 1] == (dataLength / ItemSize(dim)) * ItemSize(dim)
    {
      var itemSize := ItemSize(dim);
      var totalItems := dataLength / itemSize;
      var itemsPerMap := totalItems / engine.mapNum;
      var currentItemPos: nat := 0;
      var i := 0;
      while i < engine.mapNum
        invariant i <= engine.mapNum
        invariant Spliced(dataArr[..i], dataDis[..i], totalItems, engine.mapNum, itemSize, currentItemPos)
      {
        currentItemPos := WriteShare(dataArr, dataDis, i, currentItemPos, totalItems, itemsPerMap, itemSize);
        i := i + 1;
      }
      assert dataArr[..i] == dataArr[..] && dataDis[..i] == dataDis[..];
    }

    /** Squared distance from the point at `at` to centroid `j`. */
    method SquaredDistance(points: array<real>, at: nat, j: nat) returns (d: real)
      requires clusterData.Length == numMeans * dim && at + dim <= points.Length && j < numMeans
      ensures (j + 1) * dim <= clusterData.Length
      ensures d == DistSq(points[at .. at + dim], Row(clusterData[..], dim, j), dim)
    {
      RowInTable(j, numMeans, dim);
      var row := j * dim;
      assert row + dim == (j + 1) * dim;
      ghost var p := points[at .. at + dim];
      ghost var c := clusterData[row .. row + dim];
      d := 0.0;
      var k := 0;
      while k < dim
        invariant k <= dim
        invariant d == DistSq(p, c, k)
      {
        var diff := points[at + k] - clusterData[row + k];
        assert diff == p[k] - c[k];
        assert DistSq(p, c, k + 1) == d + diff * diff;
        d := d + diff * diff;
        k := k + 1;
      }
      assert c == Row(clusterData[..], dim, j);
    }

    /** The first centroid nearest to the point at `at`. */
    method ClosestCluster(points: array<real>, at: nat) returns (best: nat)
      requires numMeans >= 1 && clusterData.Length == numMeans * dim && at + dim <= points.Length
      ensures best == Nearest(points[at .. at + dim], clusterData[..], dim, numMeans)
    {
      ghost var ds := Distances(points[at .. at + dim], clusterData[..], dim, numMeans);
      var bestClusterId: int := -1;
      var minDistanceSq: real := 0.0;
      var j := 0;
      while j < numMeans
        invariant j <= numMeans
        invariant j == 0 ==> bestClusterId == -1
        invariant j > 0 ==> 0 <= bestClusterId && bestClusterId == FirstMin(ds, j) && minDistanceSq == ds[bestClusterId]
      {
        var currentDistanceSq := SquaredDistance(points, at, j);
        assert currentDistanceSq == ds[j];
        assert j > 0 ==> FirstMin(ds, j + 1) == if ds[j] < ds[bestClusterId] then j else bestClusterId;
        if bestClusterId == -1 || currentDistanceSq < minDistanceSq {
          minDistanceSq := currentDistanceSq;
          bestClusterId := j;
        }
        j := j + 1;
      }
      best := bestClusterId;
    }
  
    /** The state `map_func` keeps between records, over the live store and
        buffer. */
    ghost predicate Mapped(points: array<real>, s0: seq<real>, vec0: seq<seq<Block<Octet>>>, taskId: nat, base: nat, i: nat)
      reads this, engine, engine.allocator, points, clusterData
    {
      && Valid()
      && MapState(vec0, engine.vec, s0, points[..], engine.mapNum, engine.reduceNum, taskId, base, RecordsEnd(base, i, dim), dim,
                  Classifier(clusterData[..], dim, numMeans), Router(clusterData[..], dim, numMeans, engine.reduceNum))
    }

    /** Labels the `dataLength / item_size` records of one split, from double
        index `base`, with their nearest centroid, and emits each labelled
        record to the cell of this mapper and the reducer owning the label. */
    method MapFunc(points: array<real>, base: nat, taskId: nat, dataLength: nat) returns (ok: bool)
      requires Valid() && taskId < engine.mapNum && points != clusterData
      requires RecordsEnd(base, RecordCount(dataLength, dim), dim) <= points.Length
      modifies points, engine, engine.allocator
      ensures Valid()
      ensures |engine.vec| == |old(engine.vec)|
      ensures ok ==> MapState(old(engine.vec), engine.vec, old(points[..]), points[..], engine.mapNum, engine.reduceNum,
                              taskId, base, RecordsEnd(base, RecordCount(dataLength, dim), dim), dim,
                              Classifier(clusterData[..], dim, numMeans),
                              Router(clusterData[..], dim, numMeans, engine.reduceNum))
    {
      var pointStride := Stride(dim);
      var numPointsInSplit := dataLength / ItemSize(dim);
      RecordCountIsQuotient(dataLength, dim);
      ghost var s0 := points[..];
      ghost var vec0 := engine.vec;
      MapStateStart(vec0, s0, engine.mapNum, engine.reduceNum, taskId, base, dim,
                    Classifier(clusterData[..], dim, numMeans), Router(clusterData[..], dim, numMeans, engine.reduceNum));
      var i := 0;
      var at := base;
      while i < numPointsInSplit
        invariant i <= numPointsInSplit && at == RecordsEnd(base, i, dim)
        invariant Mapped(points, s0, vec0, taskId, base, i)
      {
        RecordsEndMono(base, i + 1, numPointsInSplit, dim);
        ok := MapOne(points, base, i, at, taskId, s0, vec0);
        if !ok {
          return;
        }
        i := i + 1;
        at := at + pointStride;
      }
      ok := true;
    }

    /** Writes the nearest centroid into the label slot of the record at
        `at` and returns the reducer that owns that centroid. */
    method LabelPoint(points: array<real>, at: nat) returns (reduceId: nat)
      requires numMeans >= 1 && clusterData.Length == numMeans * dim && engine.reduceNum >= 1
      requires rowDis == RowDis(numMeans, engine.reduceNum)
      requires points != clusterData && at + Stride(dim) <= points.Length
      modifies points
      ensures var p := old(points[at .. at + dim]);
              && points[..] == old(points[..])[at + dim := Classifier(clusterData[..], dim, numMeans)(p) as real]
              && reduceId < engine.reduceNum
              && reduceId == Router(clusterData[..], dim, numMeans, engine.reduceNum)(p)
    {
      var bestClusterId := ClosestCluster(points, at);
      points[at + dim] := bestClusterId as real;
      RowDisIsCeiling(numMeans, engine.reduceNum);
      reduceId := Dest(bestClusterId, rowDis, engine.reduceNum);
    }

    /** The body of `map_func`'s loop: labels record `i` of the split at
        `base`, which starts at `at`, and emits it. */
    method MapOne(points: array<real>, base: nat, i: nat, at: nat, taskId: nat, ghost s0: seq<real>,
                  ghost vec0: seq<seq<Block<Octet>>>) returns (ok: bool)
      requires points != clusterData && at == RecordsEnd(base, i, dim) && at + Stride(dim) <= points.Length
      requires Mapped(points, s0, vec0, taskId, base, i)
      modifies points, engine, engine.allocator
      ensures Valid() && |engine.vec| == |old(engine.vec)|
      ensures !ok ==> engine.vec == old(engine.vec)
      ensures ok ==> MapState(vec0, engine.vec, s0, points[..], engine.mapNum, engine.reduceNum, taskId, base,
                              RecordsEnd(base, i + 1, dim), dim, Classifier(clusterData[..], dim, numMeans),
                              Router(clusterData[..], dim, numMeans, engine.reduceNum))
    {
      ghost var centroids := clusterData[..];
      ghost var classify := Classifier(centroids, dim, numMeans);
      ghost var route := Router(centroids, dim, numMeans, engine.reduceNum);
      ghost var t := points[..];
      var pointStride := Stride(dim);
      var reduceId := LabelPoint(points, at);
      ghost var t' := points[..];
      var record := EncodeRecord(points[at .. at + pointStride]);
      var index := CellIndex(taskId, reduceId, engine.mapNum, engine.reduceNum);
      ghost var grid := engine.vec;
      ok := engine.EmitIntermediate(index, record);
      if ok {
        ghost var grid' := engine.vec;
        assert points[..] == t' && clusterData[..] == centroids;
        EmitKeepsWholeRecords(grid, grid', index, record, ItemSize(dim));
        MapStep(vec0, grid, grid', s0, t, t', engine.mapNum, engine.reduceNum, taskId, base,
                at, RecordsEnd(base, i + 1, dim), dim, classify, route, reduceId, record);
      }
    }

    /** Overwrites the row starting at `at` with the mean `sums[k] / count`
        of each coordinate. */
    method WriteRow(at: nat, sums: seq<real>, count: nat)
      requires at + |sums| <= clusterData.Length && count > 0
      modifies clusterData
      ensures forall x :: 0 <= x < clusterData.Length ==>
        clusterData[x] == if at <= x < at + |sums| then sums[x - at] / (count as real) else old(clusterData[x])
    {
      var j := 0;
      while j < |sums|
        invariant j <= |sums|
        invariant forall x :: 0 <= x < clusterData.Length ==>
          clusterData[x] == if at <= x < at + j then sums[x - at] / (count as real) else old(clusterData[x])
      {
        clusterData[at + j] := sums[j] / (count as real);
        j := j + 1;
      }
    }

    /** The second loop of `reduce_func`: each of the rows `start ..` that
        has records becomes their mean. */
    method WriteMeans(start: nat, counts: seq<nat>, sums: seq<seq<real>>, ghost recs: seq<seq<real>>)
      requires clusterData.Length == numMeans * dim && start + |counts| <= numMeans
      requires Tally(counts, sums, recs, start, dim)
      modifies clusterData
      ensures clusterData[..] == Reduced(old(clusterData[..]), recs, start, start + |counts|, dim)
    {
      ghost var c0 := clusterData[..];
      ReducedNothing(c0, recs, start, start, dim);
      var i := 0;
      while i < |counts|
        invariant i <= |counts|
        invariant clusterData[..] == Reduced(c0, recs, start, start + i, dim)
      {
        var globalClusterId := start + i;
        RowInTable(globalClusterId, numMeans, dim);
        MulAdd(globalClusterId, 1, dim);
        ghost var table := clusterData[..];
        if counts[i] > 0 {
          WriteRow(globalClusterId * dim, sums[i], counts[i]);
        }
        ReducedGrow(c0, recs, start, globalClusterId, dim, table, clusterData[..]);
        i := i + 1;
      }
    }

    /** Recomputes the centroids reducer `taskId` owns from the records it
        was sent: each owned centroid with records becomes their mean; a
        reducer whose first row is past the last centroid does nothing. */
    method ReduceFunc(taskId: nat)
      requires Valid() && taskId < engine.reduceNum
      modifies clusterData
      ensures clusterData[..] == Reduced(old(clusterData[..]),
                                         Gathered(engine.vec, engine.mapNum, engine.reduceNum, taskId, engine.mapNum, dim),
                                         OwnedStart(taskId, rowDis), OwnedEnd(taskId, rowDis, numMeans), dim)
    {
      ghost var recs := Gathered(engine.vec, engine.mapNum, engine.reduceNum, taskId, engine.mapNum, dim);
      var startMeanIndex := taskId * rowDis;
      if startMeanIndex >= numMeans {
        ReducedNothing(clusterData[..], recs, OwnedStart(taskId, rowDis), OwnedEnd(taskId, rowDis, numMeans), dim);
        return;
      }
      var endMeanIndex := Min((taskId + 1) * rowDis, numMeans);
      var reducerMeansCount := endMeanIndex - startMeanIndex;
      var pointCounts, sums := Gather(engine.vec, engine.mapNum, engine.reduceNum, taskId, startMeanIndex,
                                      reducerMeansCount, dim);
      WriteMeans(startMeanIndex, pointCounts, sums, recs);
    }
  }

  /** Builds a job: the engine (refused without an allocator), then the
      centroid table of `numMeans * dim` doubles from the same allocator
      (refused when that allocation fails), seeded with `initialCentroids`. */
  method NewKMeans(mapNum: nat, reduceNum: nat, numPoints: nat, dim: nat, numMeans: nat, allocator: Allocator?,
                   initialCentroids: seq<real>) returns (r: Result<KMeans>)
    requires mapNum >= 1 && reduceNum >= 1 && numMeans >= 1 && |initialCentroids| == numMeans * dim
    modifies allocator
    ensures allocator == null ==> r.Err?
    ensures r.Err? && allocator != null ==> allocator.live == old(allocator.live)
    ensures r.Ok? ==>
      var job := r.value;
      && fresh(job) && fresh(job.engine) && fresh(job.clusterData) && job.Valid()
      && job.engine.mapNum == mapNum && job.engine.reduceNum == reduceNum && job.engine.allocator == allocator
      && (forall i :: 0 <= i < |job.engine.vec| ==> job.engine.vec[i] == [])
      && job.numPoints == numPoints && job.dim == dim && job.numMeans == numMeans
      && job.rowDis == RowDis(numMeans, reduceNum)
      && job.clusterData[..] == initialCentroids
      && job.clusterChunk.size == DoubleSize * dim * numMeans
      && job.clusterChunk !in old(allocator.live)
      && allocator.live == old(allocator.live) + {job.clusterChunk}
  {
    var engine := NewMapReduce<Octet>(mapNum, reduceNum, allocator);
    if engine.Err? {
      return Err(engine.error);
    }
    var chunk := allocator.Allocate(DoubleSize * dim * numMeans);
    if chunk == null {
      return Err("Failed to allocate memory for cluster centers.");
    }
    var job := new KMeans(engine.value, numPoints, dim, numMeans, initialCentroids, chunk);
    return Ok(job);
  }
}
