/** What one sampled frame contributes to the table: every region's cells,
    written region by region into the sample's row. A region is read as a
    vertical bar (not implemented in the source, so its cell stays empty),
    as a horizontal bar, or as text, in that order of precedence. */
module RegionProcessor {
  import opened Wrappers
  import opened Cells
  import opened BarGauge
  import TextNormaliser

  /** An operator-drawn region: its pixel bounds, the column it fills, and
      the two check boxes marking it as a vertical or a horizontal bar. */
  datatype Region = Region(x1: int, y1: int, x2: int, y2: int, name: string, vertBar: bool, horBar: bool)

  /** The run options that affect a region's cells. */
  datatype Settings = Settings(recordConfidence: bool, confThreshold: real, enhanceContrast: bool)

  /** One recognition candidate: the text read and its confidence. */
  datatype Candidate = Candidate(text: string, conf: real)

  /** The text recogniser, for the cropped grey region and the
      contrast-enhancement flag: the candidates in the order the detector
      reports them, possibly none; the source takes the first.
      The enhancement (a contrast stretch and a sharpening filter) happens
      inside it. */
  type Recogniser = (Image, bool) -> seq<Candidate>

  datatype Strategy = VerticalBar | HorizontalBar | TextRead

  /** The failures inside a frame that the source does not catch, each
      ending the whole extraction: `cv2.cvtColor` refusing an empty crop
      (a text region or bar strip with no rows or no columns),
      `np.argmax` of the empty gradient of a bar strip one column wide, and
      `np.tile` refusing the negative repeat count of a bar whose middle
      row lies above the frame. */
  datatype Error = EmptyCrop(column: string) | EmptyGradient(column: string) | NegativeRepeat(column: string)

  /** How region `r` is read: the vertical-bar flag wins over the
      horizontal one, and a region with neither flag is text. */
  function Dispatch(r: Region): (s: Strategy)
    ensures s == VerticalBar <==> r.vertBar
    ensures s == HorizontalBar <==> !r.vertBar && r.horBar
    ensures s == TextRead <==> !r.vertBar && !r.horBar
  {
    if r.vertBar then VerticalBar
    else if r.horBar then HorizontalBar
    else TextRead
  }

  /** The column that records a text region's confidence. */
  function ConfColumn(name: string): string
  {
    name + "_conf"
  }

  /** The columns region `r` may write. */
  function Columns(r: Region): set<string>
  {
    {r.name, ConfColumn(r.name)}
  }

  /** The strip of the frame that a horizontal bar is read from. */
  function BarStrip(frame: Image, r: Region): Image
  {
    var rows := StripRows(r.y1, r.y2);
    Crop(frame, rows.0, rows.1, r.x1, r.x2)
  }

  /** The part of the frame that a text region is read from. */
  function TextCrop(frame: Image, r: Region): Image
  {
    Crop(frame, r.y1, r.y2, r.x1, r.x2)
  }

  /** The cells a text region writes, given the recogniser's candidates:
      its value column is reset to empty; when there is a candidate, its
      confidence is recorded if asked for, whatever the threshold; and the
      value is set, normalised, only when that confidence is strictly above
      the threshold. Only the first candidate is ever looked at. */
  function Gate(name: string, cands: seq<Candidate>, settings: Settings): (w: Row)
    ensures name in w && w.Keys <= {name, ConfColumn(name)}
    ensures ConfColumn(name) in w <==> |cands| > 0 && settings.recordConfidence
    ensures ConfColumn(name) in w ==> w[ConfColumn(name)] == Num(cands[0].conf)
    ensures w[name] != Absent <==> |cands| > 0 && cands[0].conf > settings.confThreshold
    ensures w[name] != Absent ==> w[name] == Str(TextNormaliser.Normalise(cands[0].text, name))
  {
    assert |ConfColumn(name)| != |name|;
    var reset := map[name := Absent];
    if |cands| == 0 then reset
    else
      var top := cands[0];
      var recorded := if settings.recordConfidence then reset[ConfColumn(name) := Num(top.conf)] else reset;
      if top.conf > settings.confThreshold
      then recorded[name := Str(TextNormaliser.Normalise(top.text, name))]
      else recorded
  }

  /** The cells region `r` writes for `frame`, or the error that aborts the
      run. */
  function RegionWrites(frame: Image, r: Region, settings: Settings, ocr: Recogniser): (w: Result<Row, Error>)
    ensures w.Err? <==>
      (Dispatch(r) == HorizontalBar
       && (IsEmpty(BarStrip(frame, r)) || BarStrip(frame, r).width < 2 || r.y1 + Abs(r.y2 - r.y1) / 2 < 0))
      || (Dispatch(r) == TextRead && IsEmpty(TextCrop(frame, r)))
    ensures w.Err? && Dispatch(r) == HorizontalBar ==>
      w.error == if IsEmpty(BarStrip(frame, r)) then EmptyCrop(r.name)
                 else if BarStrip(frame, r).width < 2 then EmptyGradient(r.name)
                 else NegativeRepeat(r.name)
    ensures w.Err? && Dispatch(r) == TextRead ==> w.error == EmptyCrop(r.name)
    ensures w.Ok? ==> r.name in w.value && w.value.Keys <= Columns(r)
    ensures Dispatch(r) == VerticalBar ==> w == Ok(map[r.name := Absent])
    ensures Dispatch(r) == HorizontalBar && w.Ok? ==>
      w.value == map[r.name := Num(BarValue(BarStrip(frame, r)).value)]
    ensures Dispatch(r) == TextRead && w.Ok? ==>
      w.value == Gate(r.name, ocr(TextCrop(frame, r), settings.enhanceContrast), settings)
  {
    match Dispatch(r)
    case VerticalBar => Ok(map[r.name := Absent])
    case HorizontalBar =>
      var strip := BarStrip(frame, r);
      if IsEmpty(strip) then Err(EmptyCrop(r.name))
      else if strip.width < 2 then Err(EmptyGradient(r.name))
      else if Mid(r.y1, r.y2) < 0 then Err(NegativeRepeat(r.name))
      else Ok(map[r.name := Num(BarValue(strip).value)])
    case TextRead =>
      var crop := TextCrop(frame, r);
      if IsEmpty(crop) then Err(EmptyCrop(r.name))
      else Ok(Gate(r.name, ocr(crop, settings.enhanceContrast), settings))
  }

  /** Region `i` is the first whose read fails, and it fails with `e`. */
  predicate FirstFailure(frame: Image, regions: seq<Region>, settings: Settings, ocr: Recogniser, i: nat, e: Error)
  {
    i < |regions|
    && (forall j :: 0 <= j < i ==> RegionWrites(frame, regions[j], settings, ocr).Ok?)
    && RegionWrites(frame, regions[i], settings, ocr) == Err(e)
  }

  /** The regions in declaration order, each one's cells written over the
      row; the first error aborts the frame, and it is the error of the
      first region that fails. */
  function ProcessRegions(row: Row, frame: Image, regions: seq<Region>, settings: Settings, ocr: Recogniser): (res: Result<Row, Error>)
    ensures res.Ok? <==> forall i :: 0 <= i < |regions| ==> RegionWrites(frame, regions[i], settings, ocr).Ok?
    ensures res.Ok? ==> row.Keys <= res.value.Keys
    ensures res.Err? ==> exists i :: FirstFailure(frame, regions, settings, ocr, i, res.error)
    decreases |regions|
  {
    if |regions| == 0 then Ok(row)
    else
      match RegionWrites(frame, regions[0], settings, ocr)
      case Err(e) =>
        assert FirstFailure(frame, regions, settings, ocr, 0, e);
        Err(e)
      case Ok(w) =>
        var rest := ProcessRegions(row + w, frame, regions[1..], settings, ocr);
        assert forall i :: 1 <= i < |regions| ==> regions[i] == regions[1..][i - 1];
        assert rest.Err? ==> exists i :: FirstFailure(frame, regions, settings, ocr, i, rest.error) by {
          if rest.Err? {
            var i :| FirstFailure(frame, regions[1..], settings, ocr, i, rest.error);
            FirstFailureShift(frame, regions, settings, ocr, i, rest.error);
          }
        }
        rest
  }

  /** A first failure after a region that succeeds is the first failure of
      the longer list, one place later. */
  lemma FirstFailureShift(frame: Image, regions: seq<Region>, settings: Settings, ocr: Recogniser, i: nat, e: Error)
    requires |regions| > 0 && RegionWrites(frame, regions[0], settings, ocr).Ok?
    requires FirstFailure(frame, regions[1..], settings, ocr, i, e)
    ensures FirstFailure(frame, regions, settings, ocr, i + 1, e)
  {
    var rest := regions[1..];
    assert regions[i + 1] == rest[i];
    forall j | 0 <= j < i + 1
      ensures RegionWrites(frame, regions[j], settings, ocr).Ok?
    {
      if j > 0 {
        assert regions[j] == rest[j - 1];
      }
    }
  }

  /** The row of one sample: the relative time, then every region's cells. */
  function SampleRow(time: real, frame: Image, regions: seq<Region>, settings: Settings, ocr: Recogniser): (res: Result<Row, Error>)
    ensures res.Ok? <==> forall i :: 0 <= i < |regions| ==> RegionWrites(frame, regions[i], settings, ocr).Ok?
    ensures res.Ok? ==> "time" in res.value
    ensures res.Err? ==> exists i :: FirstFailure(frame, regions, settings, ocr, i, res.error)
  {
    ProcessRegions(map["time" := Num(time)], frame, regions, settings, ocr)
  }

  /** The regions' column sets are pairwise disjoint and leave `time` alone,
      as unique region names ending in neither `_conf` nor each other's
      confidence suffix guarantee. */
  predicate DistinctColumns(regions: seq<Region>)
  {
    (forall i, j :: 0 <= i < j < |regions| ==> Columns(regions[i]) !! Columns(regions[j]))
    && (forall i :: 0 <= i < |regions| ==> "time" !in Columns(regions[i]))
  }

  /** A column that no region owns keeps the value it had before the
      regions ran. */
  lemma {:induction false} Untouched(row: Row, frame: Image, regions: seq<Region>, settings: Settings, ocr: Recogniser, key: string)
    requires ProcessRegions(row, frame, regions, settings, ocr).Ok?
    requires forall i :: 0 <= i < |regions| ==> key !in Columns(regions[i])
    ensures Get(ProcessRegions(row, frame, regions, settings, ocr).value, key) == Get(row, key)
    decreases |regions|
  {
    if |regions| > 0 {
      var w := RegionWrites(frame, regions[0], settings, ocr).value;
      assert key !in w;
      assert forall i :: 0 <= i < |regions| - 1 ==> regions[1..][i] == regions[i + 1];
      Untouched(row + w, frame, regions[1..], settings, ocr, key);
    }
  }

  /** Region isolation: every column a region owns ends up holding exactly
      what that region's own processing wrote (or its earlier value, if the
      region left it unwritten); no other region's outcome reaches it. */
  lemma {:induction false} Isolation(row: Row, frame: Image, regions: seq<Region>, settings: Settings, ocr: Recogniser, i: nat, key: string)
    requires DistinctColumns(regions)
    requires ProcessRegions(row, frame, regions, settings, ocr).Ok?
    requires i < |regions| && key in Columns(regions[i])
    ensures RegionWrites(frame, regions[i], settings, ocr).Ok?
    ensures var w := RegionWrites(frame, regions[i], settings, ocr).value;
      Get(ProcessRegions(row, frame, regions, settings, ocr).value, key)
        == if key in w then w[key] else Get(row, key)
    decreases |regions|
  {
    var w := RegionWrites(frame, regions[0], settings, ocr).value;
    var rest := regions[1..];
    assert forall j :: 0 <= j < |rest| ==> rest[j] == regions[j + 1];
    if i == 0 {
      Untouched(row + w, frame, rest, settings, ocr, key);
    } else {
      assert DistinctColumns(rest);
      assert key !in w;
      Isolation(row + w, frame, rest, settings, ocr, i - 1, key);
    }
  }

  /** In a sample's row, each region's columns hold what that region wrote,
      and empty where it wrote nothing. */
  lemma SampleCellsAreOwn(time: real, frame: Image, regions: seq<Region>, settings: Settings, ocr: Recogniser, i: nat, key: string)
    requires DistinctColumns(regions)
    requires SampleRow(time, frame, regions, settings, ocr).Ok?
    requires i < |regions| && key in Columns(regions[i])
    ensures Get(SampleRow(time, frame, regions, settings, ocr).value, key)
      == Get(RegionWrites(frame, regions[i], settings, ocr).value, key)
  {
    Isolation(map["time" := Num(time)], frame, regions, settings, ocr, i, key);
  }

  /** A sample's `time` column holds its relative time. */
  lemma SampleTime(time: real, frame: Image, regions: seq<Region>, settings: Settings, ocr: Recogniser)
    requires DistinctColumns(regions)
    requires SampleRow(time, frame, regions, settings, ocr).Ok?
    ensures Get(SampleRow(time, frame, regions, settings, ocr).value, "time") == Num(time)
  {
    Untouched(map["time" := Num(time)], frame, regions, settings, ocr, "time");
  }

  /** The vertical-bar flag wins over the horizontal one, and a vertical
      bar's cells stay empty. */
  lemma VerticalBarStaysEmpty(frame: Image, r: Region, settings: Settings, ocr: Recogniser)
    requires r.vertBar
    ensures Dispatch(r) == VerticalBar
    ensures var w := RegionWrites(frame, r, settings, ocr);
      w.Ok? && Get(w.value, r.name) == Absent && Get(w.value, ConfColumn(r.name)) == Absent
  {
    assert |ConfColumn(r.name)| != |r.name|;
  }

  /** A text region with no width, the region a click without a drag
      draws, makes the grey conversion fail and ends the extraction. */
  lemma ZeroWidthTextFails(frame: Image, r: Region, settings: Settings, ocr: Recogniser)
    requires !r.vertBar && !r.horBar && r.x1 == r.x2
    ensures RegionWrites(frame, r, settings, ocr) == Err(EmptyCrop(r.name))
  {
    assert SliceLen(frame.width, r.x1, r.x2) == 0;
  }

  /** A one-row bar on the top row of a frame of two rows or more gets the
      strip `[-1:1]`, which numpy reads as `[height-1:1]`, an empty slice:
      the grey conversion fails and ends the extraction. */
  lemma TopRowBarFails(frame: Image, r: Region, settings: Settings, ocr: Recogniser)
    requires !r.vertBar && r.horBar && r.y1 == 0 && r.y2 == 1
    requires |frame.rows| >= 2
    ensures BarStrip(frame, r).rows == []
    ensures RegionWrites(frame, r, settings, ocr) == Err(EmptyCrop(r.name))
  {
    assert StripRows(0, 1) == (-1, 1);
    assert SliceLen(|frame.rows|, -1, 1) == 0;
  }

  /** A bar drawn above the frame, rows -20 to -4 of a frame 100 rows
      high and 10 wide: numpy's negative slice bounds still find a strip
      (rows 87 and 88), but the middle row -12 is a negative repeat count
      for the marker image, and the extraction ends. */
  lemma BarAboveFrameFails(frame: Image, name: string, settings: Settings, ocr: Recogniser)
    requires |frame.rows| == 100 && frame.width == 10
    ensures var r := Region(0, -20, 10, -4, name, false, true);
      BarStrip(frame, r).rows == [frame.rows[87], frame.rows[88]] && BarStrip(frame, r).width == 10
      && RegionWrites(frame, r, settings, ocr) == Err(NegativeRepeat(name))
  {
    assert StripRows(-20, -4) == (-13, -11);
    var rs := Slice(frame.rows, -13, -11);
    assert rs == frame.rows[87..89];
    assert Slice(rs[0], 0, 10) == rs[0] && Slice(rs[1], 0, 10) == rs[1];
  }

  /** The confidence gate is strict: a candidate whose confidence equals
      the threshold leaves the value empty, while its confidence is still
      recorded when asked for. */
  lemma GateIsStrict(name: string, cands: seq<Candidate>, settings: Settings)
    requires |cands| > 0 && cands[0].conf == settings.confThreshold
    ensures Get(Gate(name, cands, settings), name) == Absent
    ensures settings.recordConfidence ==>
      Get(Gate(name, cands, settings), ConfColumn(name)) == Num(settings.confThreshold)
  {
  }

  /** Only the first candidate counts: what follows it never matters. */
  lemma GateUsesFirstOnly(name: string, cands: seq<Candidate>, settings: Settings)
    requires |cands| > 0
    ensures Gate(name, cands, settings) == Gate(name, cands[..1], settings)
  {
  }

  /** The worked example: a candidate "1O5" at confidence 0.2 against a
      threshold of 0.3 leaves the value empty and records 0.2. */
  lemma LowConfidenceExample()
    ensures var w := Gate("speed", [Candidate("1O5", 0.2)], Settings(true, 0.3, false));
      Get(w, "speed") == Absent && Get(w, "speed_conf") == Num(0.2)
  {
    assert ConfColumn("speed") == "speed_conf";
  }

  /** The 5x5 sharpening kernel applied after the contrast stretch:
      `-(1/256)` times a binomial blur whose centre is `-476`. */
  const SharpeningKernel: seq<seq<real>> := [
    [1.0, 4.0, 6.0, 4.0, 1.0],
    [4.0, 16.0, 24.0, 16.0, 4.0],
    [6.0, 24.0, -476.0, 24.0, 6.0],
    [4.0, 16.0, 24.0, 16.0, 4.0],
    [1.0, 4.0, 6.0, 4.0, 1.0]]

  function RowSum(row: seq<real>): real
    requires |row| == 5
  {
    row[0] + row[1] + row[2] + row[3] + row[4]
  }

  function KernelSum(k: seq<seq<real>>): real
    requires |k| == 5 && forall i :: 0 <= i < 5 ==> |k[i]| == 5
  {
    RowSum(k[0]) + RowSum(k[1]) + RowSum(k[2]) + RowSum(k[3]) + RowSum(k[4])
  }

  /** The sharpening keeps the overall brightness: scaled by `-(1/256)`,
      the kernel's weights sum to exactly 1. */
  lemma KernelPreservesBrightness()
    ensures -(1.0 / 256.0) * KernelSum(SharpeningKernel) == 1.0
  {
  }
}
