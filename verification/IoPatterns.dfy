/** One pass over interleaved I/O rows of several devices: each row is sequential or random depending on the
    previous row of the same device only. */
module IoPatterns {
  import opened Options

  datatype Row = Row(dev: string, sector: int, sectors: int, rwbs: string, latency: real)

  datatype Segment = Segment(start: int, length: int, rwbs: string, sequential: bool, latency: real)

  datatype Bucket = Bucket(count: nat, size: int, time: real) {
    function Plus(size: int, time: real): Bucket {
      Bucket(count + 1, this.size + size, this.time + time)
    }
  }

  const EMPTY := Bucket(0, 0, 0.0)

  datatype Stats = Stats(sequential: Bucket, random: Bucket, readSequential: Bucket, readRandom: Bucket,
                         writeSequential: Bucket, writeRandom: Bucket)

  function Abs(x: int): nat {
    if x < 0 then -x else x
  }

  /** `prev` is the device's previous row. */
  predicate Follows(prev: Option<Row>, r: Row, threshold: int) {
    prev.Some? && Abs(r.sector - (prev.value.sector + prev.value.sectors)) <= threshold
  }

  // ---------------------------------------------------------------- one device on its own

  function OnDevice(rows: seq<Row>, dev: string): seq<Row> {
    if rows == [] then []
    else OnDevice(rows[..|rows| - 1], dev) + if rows[|rows| - 1].dev == dev then [rows[|rows| - 1]] else []
  }

  function LastOf(rows: seq<Row>): Option<Row> {
    if rows == [] then None else Some(rows[|rows| - 1])
  }

  /** The rows of a single device, each compared with the one before it. */
  function Classified(rows: seq<Row>, threshold: int): seq<Segment> {
    if rows == [] then []
    else
      var front, r := rows[..|rows| - 1], rows[|rows| - 1];
      Classified(front, threshold) + [Segment(r.sector, r.sectors, r.rwbs, Follows(LastOf(front), r, threshold), r.latency)]
  }

  // ---------------------------------------------------------------- totals over all rows

  datatype Direction = Any | Read | Write

  function DirectionOf(r: Row): Direction {
    if 'R' in r.rwbs then Read else if 'W' in r.rwbs then Write else Any
  }

  /** Totals of the rows with the given verdict and direction (`Any` takes every row). */
  function Tally(rows: seq<Row>, threshold: int, sectorSize: int, sequential: bool, d: Direction): Bucket {
    if rows == [] then EMPTY
    else
      var front, r := rows[..|rows| - 1], rows[|rows| - 1];
      var before := Tally(front, threshold, sectorSize, sequential, d);
      if Follows(LastOf(OnDevice(front, r.dev)), r, threshold) == sequential && (d == Any || d == DirectionOf(r))
      then before.Plus(r.sectors * sectorSize, r.latency) else before
  }

  // ---------------------------------------------------------------- the loop

  ghost predicate StatsAgree(rows: seq<Row>, threshold: int, sectorSize: int, s: Stats) {
    && s.sequential == Tally(rows, threshold, sectorSize, true, Any)
    && s.random == Tally(rows, threshold, sectorSize, false, Any)
    && s.readSequential == Tally(rows, threshold, sectorSize, true, Read)
    && s.readRandom == Tally(rows, threshold, sectorSize, false, Read)
    && s.writeSequential == Tally(rows, threshold, sectorSize, true, Write)
    && s.writeRandom == Tally(rows, threshold, sectorSize, false, Write)
  }

  function SegmentsOn(segments: map<string, seq<Segment>>, dev: string): seq<Segment> {
    if dev in segments then segments[dev] else []
  }

  function LastOn(last: map<string, Row>, dev: string): Option<Row> {
    if dev in last then Some(last[dev]) else None
  }

  /** The segments collected for a device are those of its own rows, as if no other device existed. */
  ghost predicate SegmentsAgree(rows: seq<Row>, threshold: int, segments: map<string, seq<Segment>>) {
    forall dev :: SegmentsOn(segments, dev) == Classified(OnDevice(rows, dev), threshold)
  }

  ghost predicate LastAgrees(rows: seq<Row>, last: map<string, Row>) {
    forall dev :: LastOn(last, dev) == LastOf(OnDevice(rows, dev))
  }

  method CountRow(s: Stats, ghost rows: seq<Row>, r: Row, threshold: int, sequential: bool, sectorSize: int)
    returns (t: Stats)
    requires StatsAgree(rows, threshold, sectorSize, s)
    requires sequential == Follows(LastOf(OnDevice(rows, r.dev)), r, threshold)
    ensures StatsAgree(rows + [r], threshold, sectorSize, t)
  {
    assert (rows + [r])[..|rows|] == rows;
    var size := r.sectors * sectorSize;
    t := s;
    if sequential {
      t := t.(sequential := t.sequential.Plus(size, r.latency));
    } else {
      t := t.(random := t.random.Plus(size, r.latency));
    }
    if 'R' in r.rwbs {
      if sequential {
        t := t.(readSequential := t.readSequential.Plus(size, r.latency));
      } else {
        t := t.(readRandom := t.readRandom.Plus(size, r.latency));
      }
    } else if 'W' in r.rwbs {
      if sequential {
        t := t.(writeSequential := t.writeSequential.Plus(size, r.latency));
      } else {
        t := t.(writeRandom := t.writeRandom.Plus(size, r.latency));
      }
    }
  }

  /** An empty table has no statistics. */
  method AnalyzeIoPatterns(rows: seq<Row>, threshold: int, sectorSize: int)
    returns (result: Option<Stats>, segments: map<string, seq<Segment>>)
    ensures result.None? <==> rows == []
    ensures result.Some? ==> AreTotals(rows, threshold, sectorSize, result.value)
    ensures forall dev :: dev in segments <==> exists k :: 0 <= k < |rows| && rows[k].dev == dev
    ensures forall dev :: dev in segments ==> AreSegments(rows, threshold, dev, segments[dev])
  {
    if |rows| == 0 {
      return None, map[];
    }
    var stats, last;
    stats, segments, last := CountRows(rows, threshold, sectorSize);
    TotalsAre(rows, threshold, sectorSize, stats);
    SegmentsAre(rows, threshold, segments);
    result := Some(stats);
  }

  method CountRows(rows: seq<Row>, threshold: int, sectorSize: int)
    returns (stats: Stats, segments: map<string, seq<Segment>>, last: map<string, Row>)
    ensures StatsAgree(rows, threshold, sectorSize, stats)
    ensures SegmentsAgree(rows, threshold, segments) && [] !in segments.Values
  {
    stats := Stats(EMPTY, EMPTY, EMPTY, EMPTY, EMPTY, EMPTY);
    segments := map[];
    last := map[];
    for n := 0 to |rows|
      invariant StatsAgree(rows[..n], threshold, sectorSize, stats)
      invariant SegmentsAgree(rows[..n], threshold, segments) && [] !in segments.Values
      invariant LastAgrees(rows[..n], last)
    {
      var r := rows[n];
      assert rows[..n + 1] == rows[..n] + [r];
      var sequential := false;
      if r.dev in last {
        var prevEnd := last[r.dev].sector + last[r.dev].sectors;
        if Abs(r.sector - prevEnd) <= threshold {
          sequential := true;
        }
      }
      NextRow(rows[..n], r, threshold, segments, last, sequential);
      var segment := Segment(r.sector, r.sectors, r.rwbs, sequential, r.latency);
      segments := segments[r.dev := SegmentsOn(segments, r.dev) + [segment]];
      last := last[r.dev := r];
      stats := CountRow(stats, rows[..n], r, threshold, sequential, sectorSize);
    }
    assert rows[..|rows|] == rows;
  }

  lemma OnDeviceGrows(rows: seq<Row>, r: Row, dev: string)
    ensures OnDevice(rows + [r], dev) == if r.dev == dev then OnDevice(rows, dev) + [r] else OnDevice(rows, dev)
  {
    assert (rows + [r])[..|rows|] == rows;
  }

  lemma NextRow(rows: seq<Row>, r: Row, threshold: int, segments: map<string, seq<Segment>>,
                last: map<string, Row>, sequential: bool)
    requires SegmentsAgree(rows, threshold, segments) && LastAgrees(rows, last)
    requires sequential == Follows(LastOn(last, r.dev), r, threshold)
    ensures sequential == Follows(LastOf(OnDevice(rows, r.dev)), r, threshold)
    ensures LastAgrees(rows + [r], last[r.dev := r])
    ensures var segment := Segment(r.sector, r.sectors, r.rwbs, sequential, r.latency);
            SegmentsAgree(rows + [r], threshold,
                          segments[r.dev := SegmentsOn(segments, r.dev) + [segment]])
  {
    var segment := Segment(r.sector, r.sectors, r.rwbs, sequential, r.latency);
    forall dev
      ensures LastOn(last[r.dev := r], dev) == LastOf(OnDevice(rows + [r], dev))
      ensures SegmentsOn(segments[r.dev := SegmentsOn(segments, r.dev) + [segment]], dev)
              == Classified(OnDevice(rows + [r], dev), threshold)
    {
      OnDeviceGrows(rows, r, dev);
      if dev == r.dev {
        ClassifiedGrows(OnDevice(rows, dev), r, threshold);
      }
    }
  }

  lemma ClassifiedGrows(own: seq<Row>, r: Row, threshold: int)
    ensures Classified(own + [r], threshold) ==
            Classified(own, threshold) + [Segment(r.sector, r.sectors, r.rwbs, Follows(LastOf(own), r, threshold), r.latency)]
    ensures LastOf(own + [r]) == Some(r)
  {
    assert (own + [r])[..|own|] == own;
  }

  // ---------------------------------------------------------------- the same in the fields of the rows

  /** Row `p` is the last row of row `n`'s device before it. */
  ghost predicate IsPrevious(rows: seq<Row>, p: nat, n: nat) {
    p < n < |rows| && rows[p].dev == rows[n].dev && forall q :: p < q < n ==> rows[q].dev != rows[n].dev
  }

  /** The row starts at most the threshold away from where its device's previous row ends. */
  ghost predicate IsSequential(rows: seq<Row>, threshold: int, n: nat) {
    exists p: nat :: IsPrevious(rows, p, n)
      && -threshold <= rows[n].sector - (rows[p].sector + rows[p].sectors) <= threshold
  }

  /** An R anywhere makes a row a read, a W without an R a write. */
  ghost predicate HasDirection(r: Row, d: Direction) {
    match d
    case Any => true
    case Read => 'R' in r.rwbs
    case Write => 'W' in r.rwbs && 'R' !in r.rwbs
  }

  /** Number, bytes and latency of the first `n` rows with the verdict and the direction. */
  ghost function Totals(rows: seq<Row>, n: nat, threshold: int, sectorSize: int, sequential: bool, d: Direction): Bucket
    requires n <= |rows|
  {
    if n == 0 then Bucket(0, 0, 0.0)
    else
      var b, r := Totals(rows, n - 1, threshold, sectorSize, sequential, d), rows[n - 1];
      if IsSequential(rows, threshold, n - 1) == sequential && HasDirection(r, d)
      then Bucket(b.count + 1, b.size + r.sectors * sectorSize, b.time + r.latency) else b
  }

  ghost predicate AreTotals(rows: seq<Row>, threshold: int, sectorSize: int, s: Stats) {
    var n := |rows|;
    && s.sequential == Totals(rows, n, threshold, sectorSize, true, Any)
    && s.random == Totals(rows, n, threshold, sectorSize, false, Any)
    && s.readSequential == Totals(rows, n, threshold, sectorSize, true, Read)
    && s.readRandom == Totals(rows, n, threshold, sectorSize, false, Read)
    && s.writeSequential == Totals(rows, n, threshold, sectorSize, true, Write)
    && s.writeRandom == Totals(rows, n, threshold, sectorSize, false, Write)
  }

  ghost predicate Increasing(at: seq<nat>) {
    forall i, j :: 0 <= i < j < |at| ==> at[i] < at[j]
  }

  /** `at` are the places of the device's rows among the first `n`. */
  ghost predicate AreOn(rows: seq<Row>, n: nat, dev: string, at: seq<nat>)
    requires n <= |rows|
  {
    Increasing(at) && forall k: nat :: k in at <==> k < n && rows[k].dev == dev
  }

  /** One segment for every row of the device, in order. */
  ghost predicate AreSegments(rows: seq<Row>, threshold: int, dev: string, segments: seq<Segment>) {
    exists at :: AreOn(rows, |rows|, dev, at) && Describe(rows, threshold, at, segments)
  }

  ghost predicate Describe(rows: seq<Row>, threshold: int, at: seq<nat>, segments: seq<Segment>) {
    |at| == |segments| && forall j :: 0 <= j < |at| ==>
      && at[j] < |rows|
      && var r := rows[at[j]];
         segments[j] == Segment(r.sector, r.sectors, r.rwbs, IsSequential(rows, threshold, at[j]), r.latency)
  }

  lemma {:induction false} OnDeviceAt(rows: seq<Row>, n: nat, dev: string) returns (at: seq<nat>)
    requires n <= |rows|
    ensures AreOn(rows, n, dev, at) && |at| == |OnDevice(rows[..n], dev)|
    ensures forall j :: 0 <= j < |at| ==> at[j] < n && OnDevice(rows[..n], dev)[j] == rows[at[j]]
  {
    at := [];
    if n > 0 {
      at := OnDeviceAt(rows, n - 1, dev);
      assert rows[..n][..n - 1] == rows[..n - 1];
      if rows[n - 1].dev == dev {
        at := at + [n - 1];
      }
    }
  }

  lemma NotBetween(at: seq<nat>, j: nat, q: nat)
    requires Increasing(at) && j <= |at| && (j > 0 ==> at[j - 1] < q) && (j < |at| ==> q < at[j])
    ensures q !in at
  {
    forall i | 0 <= i < |at| ensures at[i] != q {
    }
  }

  /** The last row of the device so far is the previous row. */
  lemma LastIsPrevious(rows: seq<Row>, n: nat, p: nat)
    requires n < |rows|
    ensures var last := LastOf(OnDevice(rows[..n], rows[n].dev));
            && (IsPrevious(rows, p, n) ==> last == Some(rows[p]))
            && (last.Some? ==> exists q: nat :: IsPrevious(rows, q, n) && last == Some(rows[q]))
  {
    var at := OnDeviceAt(rows, n, rows[n].dev);
    if at != [] {
      var last := at[|at| - 1];
      assert last in at;
      forall q: nat | last < q < n ensures rows[q].dev != rows[n].dev {
        NotBetween(at, |at|, q);
      }
      assert IsPrevious(rows, last, n);
    }
    if IsPrevious(rows, p, n) {
      assert p in at;
    }
  }

  lemma FollowsIs(rows: seq<Row>, threshold: int, n: nat)
    requires n < |rows|
    ensures Follows(LastOf(OnDevice(rows[..n], rows[n].dev)), rows[n], threshold) <==> IsSequential(rows, threshold, n)
  {
    LastIsPrevious(rows, n, 0);
    if IsSequential(rows, threshold, n) {
      var p: nat :| IsPrevious(rows, p, n)
        && -threshold <= rows[n].sector - (rows[p].sector + rows[p].sectors) <= threshold;
      LastIsPrevious(rows, n, p);
    }
  }

  lemma {:induction false} TallyIs(rows: seq<Row>, n: nat, threshold: int, sectorSize: int, sequential: bool, d: Direction)
    requires n <= |rows|
    ensures Tally(rows[..n], threshold, sectorSize, sequential, d) == Totals(rows, n, threshold, sectorSize, sequential, d)
  {
    if n > 0 {
      TallyIs(rows, n - 1, threshold, sectorSize, sequential, d);
      assert rows[..n][..n - 1] == rows[..n - 1];
      FollowsIs(rows, threshold, n - 1);
    }
  }

  lemma TotalsAre(rows: seq<Row>, threshold: int, sectorSize: int, s: Stats)
    requires StatsAgree(rows, threshold, sectorSize, s)
    ensures AreTotals(rows, threshold, sectorSize, s)
  {
    forall sequential, d
      ensures Tally(rows, threshold, sectorSize, sequential, d) == Totals(rows, |rows|, threshold, sectorSize, sequential, d)
    {
      TallyIs(rows, |rows|, threshold, sectorSize, sequential, d);
      assert rows[..|rows|] == rows;
    }
  }

  lemma {:induction false} ClassifiedAt(own: seq<Row>, threshold: int, j: nat)
    requires j < |own|
    ensures |Classified(own, threshold)| == |own|
    ensures Classified(own, threshold)[j] ==
            Segment(own[j].sector, own[j].sectors, own[j].rwbs, Follows(LastOf(own[..j]), own[j], threshold), own[j].latency)
  {
    var n := |own| - 1;
    if n > 0 {
      ClassifiedAt(own[..n], threshold, if j < n then j else 0);
    }
    if j < n {
      assert own[..n][..j] == own[..j];
    }
  }

  /** The device's rows before a row of its own are its rows before that place. */
  lemma OwnBefore(rows: seq<Row>, dev: string, at: seq<nat>, j: nat)
    requires AreOn(rows, |rows|, dev, at) && j < |at| && |OnDevice(rows, dev)| == |at|
    requires forall i :: 0 <= i < |at| ==> at[i] < |rows| && OnDevice(rows, dev)[i] == rows[at[i]]
    ensures LastOf(OnDevice(rows, dev)[..j]) == LastOf(OnDevice(rows[..at[j]], dev))
  {
    assert at[j] in at;
    var n := at[j];
    LastIsPrevious(rows, n, if j > 0 then at[j - 1] else 0);
    forall q: nat | (if j > 0 then at[j - 1] + 1 else 0) <= q < n ensures rows[q].dev != dev {
      NotBetween(at, j, q);
    }
    if j > 0 {
      assert at[j - 1] in at;
    }
  }

  lemma SegmentsOf(rows: seq<Row>, threshold: int, dev: string)
    ensures AreSegments(rows, threshold, dev, Classified(OnDevice(rows, dev), threshold))
    ensures OnDevice(rows, dev) == [] <==> forall k :: 0 <= k < |rows| ==> rows[k].dev != dev
  {
    var own := OnDevice(rows, dev);
    var segments := Classified(own, threshold);
    assert rows[..|rows|] == rows;
    var at := OnDeviceAt(rows, |rows|, dev);
    forall j | 0 <= j < |at|
      ensures |segments| == |at|
      ensures segments[j] == Segment(rows[at[j]].sector, rows[at[j]].sectors, rows[at[j]].rwbs,
                                     IsSequential(rows, threshold, at[j]), rows[at[j]].latency)
    {
      assert at[j] in at;
      ClassifiedAt(own, threshold, j);
      OwnBefore(rows, dev, at, j);
      FollowsIs(rows, threshold, at[j]);
    }
    assert Describe(rows, threshold, at, segments);
    assert forall k: nat :: k < |rows| && rows[k].dev == dev ==> k in at;
    if at != [] {
      assert at[0] in at;
    }
  }

  lemma SegmentsAre(rows: seq<Row>, threshold: int, segments: map<string, seq<Segment>>)
    requires SegmentsAgree(rows, threshold, segments) && [] !in segments.Values
    ensures forall dev :: dev in segments <==> exists k :: 0 <= k < |rows| && rows[k].dev == dev
    ensures forall dev :: dev in segments ==> AreSegments(rows, threshold, dev, segments[dev])
  {
    forall dev
      ensures dev in segments <==> exists k :: 0 <= k < |rows| && rows[k].dev == dev
      ensures dev in segments ==> AreSegments(rows, threshold, dev, segments[dev])
    {
      SegmentsOf(rows, threshold, dev);
      assert dev in segments ==> segments[dev] in segments.Values;
      assert SegmentsOn(segments, dev) == Classified(OnDevice(rows, dev), threshold);
    }
  }

  // ---------------------------------------------------------------- what the totals mean

  ghost predicate AllDirected(rows: seq<Row>) {
    forall r :: r in rows ==> DirectionOf(r) != Any
  }

  /** Every row is counted once as sequential or random; reads and writes never count more rows than there are,
      and count all of them exactly when every row is a read or a write. */
  lemma {:induction false} TotalsAccountForRows(rows: seq<Row>, threshold: int, sectorSize: int)
    ensures Tally(rows, threshold, sectorSize, true, Any).count + Tally(rows, threshold, sectorSize, false, Any).count == |rows|
    ensures var directed := Tally(rows, threshold, sectorSize, true, Read).count + Tally(rows, threshold, sectorSize, false, Read).count
                            + Tally(rows, threshold, sectorSize, true, Write).count + Tally(rows, threshold, sectorSize, false, Write).count;
            directed <= |rows| && (directed == |rows| <==> AllDirected(rows))
  {
    if rows != [] {
      var front, r := rows[..|rows| - 1], rows[|rows| - 1];
      TotalsAccountForRows(front, threshold, sectorSize);
      assert rows == front + [r];
      assert AllDirected(rows) <==> AllDirected(front) && DirectionOf(r) != Any by {
        assert r in rows && forall x :: x in front ==> x in rows;
      }
    }
  }
}
