/**
 * What one mapper of a K-means iteration delivers to each reducer.
 *
 * `map_func` labels the records of its split one after another and appends
 * each to the cell of its own row and the reducer owning the label. The
 * lemmas here read a finished mapper's cells back as records: cell
 * `(task_id, r)` holds exactly the split's records routed to `r`, in point
 * order, and for every centroid row `r` owns it holds as many records
 * labelled with that row, with the same coordinate sums, as the whole split.
 */
module Delivery {
  import opened MapReduceEngine
  import opened KMeansJob
  import opened RecordLayout

  /** The `n` records of a split starting at double `base`, in order. */
  function SplitRecords(t: seq<real>, base: nat, n: nat, dim: nat): (recs: seq<seq<real>>)
    requires RecordsEnd(base, n, dim) <= |t|
    ensures |recs| == n
  {
    if n == 0 then []
    else
      var at := RecordsEnd(base, n - 1, dim);
      SplitRecords(t, base, n - 1, dim) + [t[at .. at + Stride(dim)]]
  }

  /** ... those of them that `route` sends to reducer `r`, in order. */
  function RoutedRecords(t: seq<real>, base: nat, n: nat, dim: nat, route: seq<real> -> nat, r: nat): (recs: seq<seq<real>>)
    requires RecordsEnd(base, n, dim) <= |t|
    ensures |recs| <= n
    ensures forall i :: 0 <= i < |recs| ==> |recs[i]| == Stride(dim)
  {
    if n == 0 then []
    else
      var at := RecordsEnd(base, n - 1, dim);
      RoutedRecords(t, base, n - 1, dim, route, r) + if route(t[at .. at + dim]) == r then [t[at .. at + Stride(dim)]] else []
  }

  /** Every record of the split carries in its label slot what `classify`
      gives its coordinates. */
  ghost predicate LabelsAgree(t: seq<real>, base: nat, n: nat, dim: nat, classify: seq<real> -> nat)
    requires RecordsEnd(base, n, dim) <= |t|
  {
    n == 0 ||
    (var at := RecordsEnd(base, n - 1, dim);
     LabelsAgree(t, base, n - 1, dim, classify) && t[at + dim] == classify(t[at .. at + dim]) as real)
  }

  /** A labelled split agrees with its labels, record by record. */
  lemma {:induction false} LabelledAgree(s0: seq<real>, t: seq<real>, base: nat, m: nat, n: nat, dim: nat,
                                         classify: seq<real> -> nat)
    requires m <= n && RecordsEnd(base, n, dim) <= |s0|
    requires t == Labelled(s0, base, RecordsEnd(base, n, dim), dim, classify)
    ensures RecordsEnd(base, m, dim) <= |t| && LabelsAgree(t, base, m, dim, classify)
  {
    RecordsEndMono(base, m, n, dim);
    if m > 0 {
      LabelledAgree(s0, t, base, m - 1, n, dim, classify);
      RecordsEndIsOffset(base, n, dim);
      RecordsEndIsOffset(base, m - 1, dim);
      LabelledRecord(s0, base, RecordsEnd(base, n, dim), n, dim, classify, m - 1, RecordsEnd(base, m - 1, dim));
    }
  }

  /** Whole multiples add up to whole multiples. */
  lemma ModAdd(a: nat, b: nat, size: nat)
    requires size > 0 && a % size == 0 && b % size == 0
    ensures (a + b) % size == 0
  {
    var q, q' := a / size, b / size;
    assert a == q * size && b == q' * size;
    MulAdd(q, q', size);
    RowMajor(q + q', 0, q + q' + 1, size);
  }

  /** Records laid end to end in memory, as successive `memcpy`s leave them. */
  function EncodeAll(recs: seq<seq<real>>): seq<Octet>
  {
    if recs == [] then [] else EncodeAll(recs[..|recs| - 1]) + EncodeRecord(recs[|recs| - 1])
  }

  lemma {:induction false} EncodeAllCons(x: seq<real>, rest: seq<seq<real>>)
    ensures EncodeAll([x] + rest) == EncodeRecord(x) + EncodeAll(rest)
  {
    if rest == [] {
      assert ([x] + rest)[..0] == [];
    } else {
      var init, last := rest[..|rest| - 1], rest[|rest| - 1];
      var whole := [x] + rest;
      assert whole[..|whole| - 1] == [x] + init && whole[|whole| - 1] == last;
      assert EncodeAll(whole) == EncodeAll([x] + init) + EncodeRecord(last);
      EncodeAllCons(x, init);
      var a, b, c := EncodeRecord(x), EncodeAll(init), EncodeRecord(last);
      assert (a + b) + c == a + (b + c);
      assert EncodeAll(rest) == b + c;
    }
  }

  /** Reading the front record off a buffer. */
  lemma RecordsCons(x: seq<real>, rest: seq<Octet>, dim: nat)
    requires |x| == Stride(dim)
    ensures Records(EncodeRecord(x) + rest, dim) == [x] + Records(rest, dim)
  {
    var e := EncodeRecord(x);
    DecodeEncode(x, [], rest);
    assert [] + e + rest == e + rest;
    assert (e + rest)[ItemSize(dim)..] == rest;
  }

  /** Records laid end to end read back as themselves. */
  lemma {:induction false} DecodeAll(recs: seq<seq<real>>, dim: nat)
    requires forall i :: 0 <= i < |recs| ==> |recs[i]| == Stride(dim)
    ensures Records(EncodeAll(recs), dim) == recs
  {
    if recs != [] {
      var rest := recs[1..];
      assert recs == [recs[0]] + rest;
      EncodeAllCons(recs[0], rest);
      RecordsCons(recs[0], EncodeAll(rest), dim);
      DecodeAll(rest, dim);
    }
  }

  /** One more record laid after the others. */
  lemma EncodeAllSnoc(prev: seq<seq<real>>, rec: seq<real>)
    ensures EncodeAll(prev + [rec]) == EncodeAll(prev) + EncodeRecord(rec)
  {
    assert (prev + [rec])[..|prev|] == prev;
  }

  /** The bytes of the last of `n` records are sent to `r`, or not. */
  lemma RoutedLastBytes(t: seq<real>, base: nat, n: nat, dim: nat, route: seq<real> -> nat, r: nat)
    requires 0 < n && RecordsEnd(base, n, dim) <= |t|
    ensures var at, hi := RecordsEnd(base, n - 1, dim), RecordsEnd(base, n, dim);
            Routed(t, base, hi, dim, route, r)
            == Routed(t, base, at, dim, route, r) + if route(t[at .. at + dim]) == r then EncodeRecord(t[at .. hi]) else []
  {
    var at, hi := RecordsEnd(base, n - 1, dim), RecordsEnd(base, n, dim);
    assert hi - Stride(dim) == at && hi - base >= Stride(dim);
  }

  /** The last of `n` records is routed to `r`, or not. */
  lemma RoutedLastRecord(t: seq<real>, base: nat, n: nat, dim: nat, route: seq<real> -> nat, r: nat)
    requires 0 < n && RecordsEnd(base, n, dim) <= |t|
    ensures var at, hi := RecordsEnd(base, n - 1, dim), RecordsEnd(base, n, dim);
            RoutedRecords(t, base, n, dim, route, r)
            == RoutedRecords(t, base, n - 1, dim, route, r) + if route(t[at .. at + dim]) == r then [t[at .. hi]] else []
  {
  }

  /** The bytes routed to `r` are the records routed to `r`, laid end to end. */
  lemma {:induction false} RoutedIsEncoded(t: seq<real>, base: nat, n: nat, dim: nat, route: seq<real> -> nat, r: nat)
    requires RecordsEnd(base, n, dim) <= |t|
    ensures Routed(t, base, RecordsEnd(base, n, dim), dim, route, r) == EncodeAll(RoutedRecords(t, base, n, dim, route, r))
  {
    if n > 0 {
      var at, hi := RecordsEnd(base, n - 1, dim), RecordsEnd(base, n, dim);
      assert hi == at + Stride(dim);
      var rec := t[at .. hi];
      var prev, before := RoutedRecords(t, base, n - 1, dim, route, r), Routed(t, base, at, dim, route, r);
      RoutedIsEncoded(t, base, n - 1, dim, route, r);
      RoutedLastBytes(t, base, n, dim, route, r);
      RoutedLastRecord(t, base, n, dim, route, r);
      if route(t[at .. at + dim]) == r {
        EncodeAllSnoc(prev, rec);
      } else {
        assert prev + [] == prev && before + [] == before;
      }
    }
  }

  /** The bytes routed to `r` read back as the records routed to `r`. */
  lemma RoutedAsRecords(t: seq<real>, base: nat, n: nat, dim: nat, route: seq<real> -> nat, r: nat)
    requires RecordsEnd(base, n, dim) <= |t|
    ensures Records(Routed(t, base, RecordsEnd(base, n, dim), dim, route, r), dim) == RoutedRecords(t, base, n, dim, route, r)
  {
    RoutedIsEncoded(t, base, n, dim, route, r);
    DecodeAll(RoutedRecords(t, base, n, dim, route, r), dim);
  }

  /** The bytes of a cell of whole-record blocks read back as the records
      of its blocks. */
  lemma {:induction false} CellRecordsAreContents(cell: seq<Block<Octet>>, dim: nat)
    requires forall b :: 0 <= b < |cell| ==> |cell[b].data| % ItemSize(dim) == 0
    ensures |Contents(cell)| % ItemSize(dim) == 0
    ensures CellRecords(cell, dim) == Records(Contents(cell), dim)
  {
    if cell != [] {
      var init := cell[..|cell| - 1];
      var last := cell[|cell| - 1];
      assert forall b :: 0 <= b < |init| ==> init[b] == cell[b];
      CellRecordsAreContents(init, dim);
      RecordsConcat(Contents(init), last.data, dim);
      ModAdd(|Contents(init)|, |last.data|, ItemSize(dim));
    }
  }

  /** After `map_func` of mapper `taskId` has handled `n` records, starting
      from an empty cell `(taskId, r)`, that cell holds exactly the records
      of the split routed to `r`, in point order. */
  lemma MapperDelivers(grid0: seq<seq<Block<Octet>>>, grid: seq<seq<Block<Octet>>>, s0: seq<real>, t: seq<real>,
                       mapNum: nat, reduceNum: nat, taskId: nat, base: nat, n: nat, dim: nat,
                       classify: seq<real> -> nat, route: seq<real> -> nat, r: nat)
    requires MapState(grid0, grid, s0, t, mapNum, reduceNum, taskId, base, RecordsEnd(base, n, dim), dim, classify, route)
    requires WholeRecords(grid, ItemSize(dim)) && r < reduceNum
    requires grid0[CellIndex(taskId, r, mapNum, reduceNum)] == []
    ensures RecordsEnd(base, n, dim) <= |t|
    ensures CellRecords(grid[CellIndex(taskId, r, mapNum, reduceNum)], dim) == RoutedRecords(t, base, n, dim, route, r)
  {
    var c := CellIndex(taskId, r, mapNum, reduceNum);
    var routed := Routed(t, base, RecordsEnd(base, n, dim), dim, route, r);
    assert Contents(grid[c]) == [] + routed;
    assert [] + routed == routed;
    CellRecordsAreContents(grid[c], dim);
    RoutedAsRecords(t, base, n, dim, route, r);
  }

  /** A record labelled with a row `j` that `r` owns is routed to `r`. */
  lemma LabelRoutesToOwner(centroids: seq<real>, dim: nat, numMeans: nat, reduceNum: nat, p: seq<real>, tag: real,
                           j: nat, r: nat)
    requires numMeans >= 1 && |centroids| == numMeans * dim && dim <= |p| && reduceNum >= 1
    requires tag == Classify(centroids, dim, numMeans, p) as real
    requires j < numMeans && Owns(r, j, RowDis(numMeans, reduceNum), numMeans)
    ensures Trunc(tag) == j ==> Router(centroids, dim, numMeans, reduceNum)(p) == r
  {
    if Trunc(tag) == j {
      DestOwns(numMeans, reduceNum, j);
      OwnerUnique(numMeans, reduceNum, j, r);
    }
  }

  /** Two lists of records give row `j` the same count and the same sum of
      every coordinate. */
  ghost predicate SameTally(a: seq<seq<real>>, b: seq<seq<real>>, j: nat, dim: nat)
  {
    && Count(a, j, dim) == Count(b, j, dim)
    && forall k :: 0 <= k < dim ==> Sum(a, j, k, dim) == Sum(b, j, k, dim)
  }

  lemma TallyBoth(a: seq<seq<real>>, b: seq<seq<real>>, rec: seq<real>, j: nat, dim: nat)
    requires SameTally(a, b, j, dim)
    ensures SameTally(a + [rec], b + [rec], j, dim)
  {
    assert (a + [rec])[..|a|] == a;
    assert (b + [rec])[..|b|] == b;
  }

  lemma TallySkip(a: seq<seq<real>>, b: seq<seq<real>>, rec: seq<real>, j: nat, dim: nat)
    requires SameTally(a, b, j, dim) && !LabelledWith(rec, j, dim)
    ensures SameTally(a, b + [rec], j, dim)
  {
    assert (b + [rec])[..|b|] == b;
  }

  /** Every record of the split labelled `j` is routed to `r`. */
  ghost predicate LabelRoutes(t: seq<real>, base: nat, n: nat, dim: nat, route: seq<real> -> nat, r: nat, j: nat)
    requires RecordsEnd(base, n, dim) <= |t|
  {
    n == 0 ||
    (var at := RecordsEnd(base, n - 1, dim);
     LabelRoutes(t, base, n - 1, dim, route, r, j) && (Trunc(t[at + dim]) == j ==> route(t[at .. at + dim]) == r))
  }

  /** When every point whose label truncates to `j` is routed to `r`, so is
      every record of a split whose label slots agree with `classify`. */
  lemma {:induction false} AgreedLabelsRoute(t: seq<real>, base: nat, n: nat, dim: nat, classify: seq<real> -> nat,
                                             route: seq<real> -> nat, r: nat, j: nat)
    requires RecordsEnd(base, n, dim) <= |t| && LabelsAgree(t, base, n, dim, classify)
    requires forall p :: |p| == dim && Trunc(classify(p) as real) == j ==> route(p) == r
    ensures LabelRoutes(t, base, n, dim, route, r, j)
  {
    if n > 0 {
      AgreedLabelsRoute(t, base, n - 1, dim, classify, route, r, j);
    }
  }

  /** In a split labelled by nearest centroid, every record labelled with a
      row that `r` owns is routed to `r`. */
  lemma OwnedLabelsRoute(t: seq<real>, base: nat, n: nat, dim: nat, centroids: seq<real>,
                         numMeans: nat, reduceNum: nat, r: nat, j: nat)
    requires RecordsEnd(base, n, dim) <= |t| && numMeans >= 1 && |centroids| == numMeans * dim && reduceNum >= 1
    requires LabelsAgree(t, base, n, dim, Classifier(centroids, dim, numMeans))
    requires j < numMeans && Owns(r, j, RowDis(numMeans, reduceNum), numMeans)
    ensures LabelRoutes(t, base, n, dim, Router(centroids, dim, numMeans, reduceNum), r, j)
  {
    var classify, route := Classifier(centroids, dim, numMeans), Router(centroids, dim, numMeans, reduceNum);
    forall p | |p| == dim && Trunc(classify(p) as real) == j
      ensures route(p) == r
    {
      LabelRoutesToOwner(centroids, dim, numMeans, reduceNum, p, classify(p) as real, j, r);
    }
    AgreedLabelsRoute(t, base, n, dim, classify, route, r, j);
  }

  /** One more record of the split: it joins both lists, or only the whole
      split when it is not labelled `j`. */
  lemma TallyStep(prevRouted: seq<seq<real>>, prevAll: seq<seq<real>>, rec: seq<real>, routed: bool,
                  routedNow: seq<seq<real>>, allNow: seq<seq<real>>, j: nat, dim: nat)
    requires SameTally(prevRouted, prevAll, j, dim)
    requires allNow == prevAll + [rec] && routedNow == if routed then prevRouted + [rec] else prevRouted
    requires !routed ==> !LabelledWith(rec, j, dim)
    ensures SameTally(routedNow, allNow, j, dim)
  {
    if routed {
      TallyBoth(prevRouted, prevAll, rec, j, dim);
    } else {
      TallySkip(prevRouted, prevAll, rec, j, dim);
    }
  }

  /** When every record labelled `j` is routed to `r`, the records routed to
      `r` hold as many records labelled `j`, with the same coordinate sums,
      as the whole split. */
  lemma {:induction false} DeliveredCount(t: seq<real>, base: nat, n: nat, dim: nat, route: seq<real> -> nat,
                                          r: nat, j: nat)
    requires RecordsEnd(base, n, dim) <= |t| && LabelRoutes(t, base, n, dim, route, r, j)
    ensures SameTally(RoutedRecords(t, base, n, dim, route, r), SplitRecords(t, base, n, dim), j, dim)
  {
    if n > 0 {
      var at := RecordsEnd(base, n - 1, dim);
      var rec := t[at .. at + Stride(dim)];
      var routed := route(t[at .. at + dim]) == r;
      DeliveredCount(t, base, n - 1, dim, route, r, j);
      assert rec[dim] == t[at + dim];
      TallyStep(RoutedRecords(t, base, n - 1, dim, route, r), SplitRecords(t, base, n - 1, dim), rec, routed,
                RoutedRecords(t, base, n, dim, route, r), SplitRecords(t, base, n, dim), j, dim);
    }
  }

  /** A finished mapper, started from an empty cell `(taskId, r)`, leaves in
      that cell, for every centroid row `j` that `r` owns, as many records
      labelled `j`, with the same coordinate sums, as its whole split holds:
      the reducer sees every point of the split nearest to one of its rows. */
  lemma MapperDeliversOwned(grid0: seq<seq<Block<Octet>>>, grid: seq<seq<Block<Octet>>>, s0: seq<real>, t: seq<real>,
                            mapNum: nat, reduceNum: nat, taskId: nat, base: nat, n: nat, dim: nat,
                            centroids: seq<real>, numMeans: nat, r: nat, j: nat)
    requires numMeans >= 1 && |centroids| == numMeans * dim
    requires MapState(grid0, grid, s0, t, mapNum, reduceNum, taskId, base, RecordsEnd(base, n, dim), dim,
                      Classifier(centroids, dim, numMeans), Router(centroids, dim, numMeans, reduceNum))
    requires WholeRecords(grid, ItemSize(dim)) && r < reduceNum
    requires grid0[CellIndex(taskId, r, mapNum, reduceNum)] == []
    requires j < numMeans && Owns(r, j, RowDis(numMeans, reduceNum), numMeans)
    ensures RecordsEnd(base, n, dim) <= |t|
    ensures SameTally(CellRecords(grid[CellIndex(taskId, r, mapNum, reduceNum)], dim), SplitRecords(t, base, n, dim), j, dim)
  {
    MapperDelivers(grid0, grid, s0, t, mapNum, reduceNum, taskId, base, n, dim,
                   Classifier(centroids, dim, numMeans), Router(centroids, dim, numMeans, reduceNum), r);
    LabelledAgree(s0, t, base, n, n, dim, Classifier(centroids, dim, numMeans));
    OwnedLabelsRoute(t, base, n, dim, centroids, numMeans, reduceNum, r, j);
    DeliveredCount(t, base, n, dim, Router(centroids, dim, numMeans, reduceNum), r, j);
  }
}
