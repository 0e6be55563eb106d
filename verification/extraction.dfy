/** The extraction loop: seek to the start frame, then, while the next
    sample's relative time is inside the requested window, read the frame,
    stamp a new row with the relative time and fill it region by region,
    and seek one interval further. A failed read ends the loop and the rows
    gathered so far are the table. */
module Extraction {
  import opened Wrappers
  import opened Cells
  import opened Sampling
  import opened BarGauge
  import opened RegionProcessor
  import Conversion

  /** The video source as seek-and-read: the frame at an absolute index,
      or `None` when the read fails (end of stream, or a closed capture). */
  type FrameSource = int -> Option<Image>

  /** What sample `k` yields: nothing when its frame cannot be read,
      otherwise the row built from that frame (or the error raised while
      building it). */
  function SampleAt(p: Plan, read: FrameSource, regions: seq<Region>, settings: Settings, ocr: Recogniser, k: nat): (s: Option<Result<Row, Error>>)
    requires ValidPlan(p)
    ensures s.None? <==> read(FrameIndex(p, k)).None?
    ensures s.Some? && s.value.Ok? ==> "time" in s.value.value
  {
    match read(FrameIndex(p, k))
    case None => None
    case Some(frame) => Some(SampleRow(RelTime(p, k), frame, regions, settings, ocr))
  }

  /** The whole run of samples as one function of `k`. */
  function Samples(p: Plan, read: FrameSource, regions: seq<Region>, settings: Settings, ocr: Recogniser): (f: nat -> Option<Result<Row, Error>>)
    requires ValidPlan(p)
    ensures forall k: nat :: f(k) == SampleAt(p, read, regions, settings, ocr, k)
  {
    (k: nat) => SampleAt(p, read, regions, settings, ocr, k)
  }

  /** Sample `k` is the first to fail, with `e`: every earlier sample read
      its frame and built its row. */
  predicate FailsAt(sample: nat -> Option<Result<Row, Error>>, k: nat, e: Error)
  {
    (forall j: nat :: j < k ==> sample(j).Some? && sample(j).value.Ok?)
    && sample(k) == Some(Err(e))
  }

  /** The loop itself, over any guard and any per-sample outcome: while
      the guard admits `k`, take sample `k`; stop with the rows so far when
      a sample is missing, and with its error when one fails. The guard
      admits exactly the indices below `n`. */
  method Collect(n: nat, inRange: nat -> bool, sample: nat -> Option<Result<Row, Error>>)
    returns (res: Result<seq<Row>, Error>)
    requires forall k: nat :: inRange(k) <==> k < n
    ensures res.Ok? ==> |res.value| <= n
    ensures res.Ok? ==> forall k :: 0 <= k < |res.value| ==> sample(k) == Some(Ok(res.value[k]))
    ensures res.Ok? && |res.value| < n ==> sample(|res.value|).None?
    ensures res.Err? ==> exists k: nat :: k < n && FailsAt(sample, k, res.error)
  {
    var rows: seq<Row> := [];
    var k: nat := 0;
    while inRange(k)
      invariant k == |rows| <= n
      invariant forall j :: 0 <= j < k ==> sample(j) == Some(Ok(rows[j]))
      decreases n - k
    {
      var s := sample(k);
      if s.None? {
        return Ok(rows);
      }
      if s.value.Err? {
        assert FailsAt(sample, k, s.value.error);
        return Err(s.value.error);
      }
      rows := rows + [s.value.value];
      k := k + 1;
    }
    return Ok(rows);
  }

  /** The table: row `k` is sample `k`, for consecutive `k` from 0. It has
      at most as many rows as the window admits samples, and fewer only
      when the next frame could not be read. An error while building a row
      abandons the whole table, and it is the error of the first sample
      that fails. */
  method Extract(p: Plan, read: FrameSource, regions: seq<Region>, settings: Settings, ocr: Recogniser)
    returns (res: Result<seq<Row>, Error>)
    requires ValidPlan(p)
    ensures res.Ok? ==> |res.value| <= NumSamples(p)
    ensures res.Ok? ==> forall k :: 0 <= k < |res.value| ==>
      Samples(p, read, regions, settings, ocr)(k) == Some(Ok(res.value[k]))
    ensures res.Ok? && |res.value| < NumSamples(p) ==> read(FrameIndex(p, |res.value|)).None?
    ensures res.Err? ==>
      exists k: nat :: k < NumSamples(p) && FailsAt(Samples(p, read, regions, settings, ocr), k, res.error)
  {
    forall k: nat
      ensures InRange(p, k) <==> k < NumSamples(p)
    {
      InRangeIff(p, k);
    }
    var sample := Samples(p, read, regions, settings, ocr);
    res := Collect(NumSamples(p), (k: nat) => InRange(p, k), sample);
  }

  /** The table on its way to `convert_to_float`: in the rows `Extract`
      returns, the `time` column holds only numbers, so the conversion
      keeps it whole, one relative time per row in sample order. */
  lemma TimeColumnConverts(p: Plan, read: FrameSource, regions: seq<Region>, settings: Settings, ocr: Recogniser,
                           rows: seq<Row>, names: seq<string>, i: nat)
    requires ValidPlan(p) && DistinctColumns(regions)
    requires forall k :: 0 <= k < |rows| ==> Samples(p, read, regions, settings, ocr)(k) == Some(Ok(rows[k]))
    requires i < |names| && names[i] == "time"
    ensures var col := Conversion.ConvertToFloat(Conversion.ToColumns(rows, names))[i];
      col.name == "time" && |col.cells| == |rows|
      && forall k :: 0 <= k < |rows| ==> col.cells[k] == Num(RelTime(p, k))
  {
    var frame := Conversion.ToColumns(rows, names);
    forall k | 0 <= k < |rows|
      ensures frame[i].cells[k] == Num(RelTime(p, k))
    {
      assert SampleAt(p, read, regions, settings, ocr, k) == Some(Ok(rows[k]));
      SampleTime(RelTime(p, k), read(FrameIndex(p, k)).value, regions, settings, ocr);
    }
    assert Conversion.Coercible(frame[i]);
    Conversion.AllOrNothing(frame, i);
  }

  /** With no regions and every frame readable, each sample's row is just
      its relative time. */
  lemma TimeOnlyRows(p: Plan, read: FrameSource, settings: Settings, ocr: Recogniser)
    requires ValidPlan(p)
    requires forall j :: read(j).Some?
    ensures forall k: nat :: SampleAt(p, read, [], settings, ocr, k) == Some(Ok(map["time" := Num(RelTime(p, k))]))
  {
  }

  /** When every frame can be read and no region is given, the table has
      exactly one row per sample the window admits, each holding only its
      relative time. */
  method TimeOnlyTable(p: Plan, read: FrameSource, settings: Settings, ocr: Recogniser) returns (rows: seq<Row>)
    requires ValidPlan(p)
    requires forall j :: read(j).Some?
    ensures |rows| == NumSamples(p)
    ensures forall k :: 0 <= k < |rows| ==> rows[k] == map["time" := Num(RelTime(p, k))]
  {
    TimeOnlyRows(p, read, settings, ocr);
    var res := Extract(p, read, [], settings, ocr);
    assert res.Ok?;
    rows := res.value;
  }

  /** The time column of a table built with every frame readable: one
      relative time per admitted sample, in order. */
  method SampleTimes(p: Plan, read: FrameSource, settings: Settings, ocr: Recogniser) returns (times: seq<Cell>)
    requires ValidPlan(p)
    requires forall j :: read(j).Some?
    ensures |times| == NumSamples(p)
    ensures forall k :: 0 <= k < |times| ==> times[k] == Num(RelTime(p, k))
  {
    var rows := TimeOnlyTable(p, read, settings, ocr);
    times := seq(|rows|, k requires 0 <= k < |rows| => Get(rows[k], "time"));
  }

  /** Sampling two seconds of 30 fps video every 30 frames, with every
      frame readable, gives exactly two rows, stamped 0 and 1 seconds. */
  method TwoSecondsEveryThirtyFrames() returns (times: seq<Cell>)
    ensures times == [Num(0.0), Num(1.0)]
  {
    var p := Plan(30.0, 0.0, 2.0, 30);
    Sampling.TwoSecondsEveryThirtyFrames();
    times := TwoSampleTimes(p);
  }

  method TwoSampleTimes(p: Plan) returns (times: seq<Cell>)
    requires ValidPlan(p) && NumSamples(p) == 2
    ensures times == [Num(RelTime(p, 0)), Num(RelTime(p, 1))]
  {
    var blank: Image := Image(0, []);
    times := SampleTimes(p, j => Some(blank), Settings(false, 0.0, false), (img, enhance) => []);
    assert times[0] == Num(RelTime(p, 0)) && times[1] == Num(RelTime(p, 1));
  }
}
