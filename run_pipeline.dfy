/**
 * The detection loop of run.py: mapping a detector box to a spot id on a
 * 2 x 6 grid, fusing one frame's detections and OCR strings into a batch
 * for the occupancy store, the direct store writes of
 * `update_parking_state`, the frame-skip counter, and the three-slot buffer
 * of encoded frames served to the web page. The detector, the OCR engine
 * and the JPEG encoder are inputs: their results are given as sequences.
 */
module Pipeline {
  import opened Wrappers
  import opened ParkingStore
  import BoundedQueue

  /** `FRAME_SKIP_INTERVAL`: only every second received frame is processed. */
  const FrameSkipInterval: int := 2

  /** `frame_buffer = deque(maxlen=3)`. */
  const FrameBufferSize: nat := 3

  /** Detections below this confidence are dropped. */
  const MinDetectionConfidence: real := 0.3

  /** `int(a / b)` for a positive `b`: the quotient truncated toward zero. */
  function TruncDiv(a: int, b: int): (q: int)
    requires b > 0
    ensures a >= 0 ==> q * b <= a < (q + 1) * b
    ensures a < 0 ==> (q - 1) * b < a <= q * b
  {
    if a >= 0 then a / b else -((-a) / b)
  }

  /** The grid column of a box centre, `int((center_x / width) * 6)`. */
  function Column(centerX: int, width: int): int
    requires width > 0
  {
    TruncDiv(6 * centerX, width)
  }

  /**
   * `determine_spot_number`: the box centre picks one of six columns; the
   * top half of the frame holds spots 1..6, the bottom half 7..12. A centre
   * whose column falls outside 0..5 has no spot.
   */
  function DetermineSpotNumber(x1: int, y1: int, x2: int, y2: int, height: int, width: int): (r: Option<int>)
    requires width > 0
    ensures r.Some? ==> 1 <= r.value <= TotalSpots
    ensures r.Some? ==> (r.value <= 6 <==> (y1 + y2) / 2 < height / 2)
  {
    var centerX := (x1 + x2) / 2;
    var centerY := (y1 + y2) / 2;
    var col := Column(centerX, width);
    if centerY < height / 2 then
      if 1 <= col + 1 <= 6 then Some(col + 1) else None
    else
      if 7 <= col + 7 <= 12 then Some(col + 7) else None
  }

  lemma MulMono(a: int, b: int, w: int)
    requires a <= b && w > 0
    ensures a * w <= b * w
  {
    assert b * w - a * w == (b - a) * w;
  }

  /** The quotient of a non-negative number is the one multiple interval that holds it. */
  lemma DivUnique(a: int, w: int, c: int)
    requires a >= 0 && w > 0
    ensures c * w <= a < (c + 1) * w <==> c == a / w
  {
    var q := a / w;
    assert q * w <= a < (q + 1) * w;
    if c * w <= a < (c + 1) * w {
      if c < q {
        MulMono(c + 1, q, w);
      } else if c > q {
        MulMono(q + 1, c, w);
      }
    }
  }

  /**
   * Every centre inside the frame width lands in exactly one column: the
   * one whose sixth of the width holds it. Each half of the frame is
   * covered by its six spots with no gap and no overlap.
   */
  lemma ColumnsPartition(x1: int, y1: int, x2: int, y2: int, height: int, width: int, c: int)
    requires width > 0
    requires var centerX := (x1 + x2) / 2; 0 <= centerX < width
    ensures var centerX := (x1 + x2) / 2;
            (c * width <= 6 * centerX < (c + 1) * width) <==>
              && 0 <= c < 6
              && DetermineSpotNumber(x1, y1, x2, y2, height, width)
                 == Some(if (y1 + y2) / 2 < height / 2 then c + 1 else c + 7)
  {
    var a := 6 * ((x1 + x2) / 2);
    var col := a / width;
    assert Column((x1 + x2) / 2, width) == col;
    DivUnique(a, width, col);
    DivUnique(a, width, c);
    if col >= 6 {
      MulMono(6, col, width);
    }
    if col < 0 {
      MulMono(col + 1, 0, width);
    }
  }

  /** A centre at or past the right edge has no spot. */
  lemma RightOfFrameNoSpot(x1: int, y1: int, x2: int, y2: int, height: int, width: int)
    requires width > 0 && (x1 + x2) / 2 >= width
    ensures DetermineSpotNumber(x1, y1, x2, y2, height, width).None?
  {
    var a := 6 * ((x1 + x2) / 2);
    var col := a / width;
    assert Column((x1 + x2) / 2, width) == col;
    DivUnique(a, width, col);
    if col < 6 {
      MulMono(col + 1, 6, width);
    }
  }

  /**
   * Truncation toward zero puts a slightly negative centre in column 0, so
   * a box just past the left edge still maps to spot 1 or 7; farther left
   * there is no spot.
   */
  lemma LeftOfFrame(x1: int, y1: int, x2: int, y2: int, height: int, width: int)
    requires width > 0 && (x1 + x2) / 2 < 0
    ensures var r := DetermineSpotNumber(x1, y1, x2, y2, height, width);
            if -width < 6 * ((x1 + x2) / 2) then r == Some(if (y1 + y2) / 2 < height / 2 then 1 else 7)
            else r.None?
  {
    var a := 6 * ((x1 + x2) / 2);
    var q := (-a) / width;
    assert Column((x1 + x2) / 2, width) == -q;
    DivUnique(-a, width, 0);
  }

  /** One detector box: `xyxy` truncated to integers, the class and the confidence. */
  datatype Detection = Detection(x1: int, y1: int, x2: int, y2: int, cls: int, conf: real)

  /** A table keyed by the spot ids 1..12. */
  ghost predicate Covers(m: map<int, Spot>) {
    forall i :: i in m <==> 1 <= i <= TotalSpots
  }

  /**
   * The state of one `process_detections` call: the `current_detections`
   * dictionary, the OCR strings not yet handed out, and the store's table
   * as changed by the direct writes of `update_parking_state`.
   */
  datatype Fusion = Fusion(current: map<int, Spot>, numbers: seq<string>, table: map<int, Spot>)

  ghost predicate FusionValid(f: Fusion) {
    Covers(f.current) && Covers(f.table)
  }

  /** The spot a detection is fused into: none when its confidence is too low or its centre maps nowhere. */
  function TargetSpot(d: Detection, height: int, width: int): (r: Option<int>)
    requires width > 0
    ensures r.Some? ==> 1 <= r.value <= TotalSpots
  {
    if d.conf < MinDetectionConfidence then None
    else DetermineSpotNumber(d.x1, d.y1, d.x2, d.y2, height, width)
  }

  /** Class 1 is a car. */
  function DetectedStatus(d: Detection): string {
    if d.cls == 1 then "occupied" else "empty"
  }

  /**
   * The loop body for one box: a mapped occupied box takes the first
   * remaining OCR string as the spot's plate, the box's status is written,
   * and a truthy plate is written straight into the store.
   */
  function FuseStep(f: Fusion, d: Detection, height: int, width: int): (r: Fusion)
    requires width > 0 && FusionValid(f)
    ensures FusionValid(r)
  {
    match TargetSpot(d, height, width)
    case None => f
    case Some(s) =>
      var status := DetectedStatus(d);
      var popped := status == "occupied" && f.numbers != [];
      var cur := if popped then f.current[s := f.current[s].(plate := Some(f.numbers[0]))] else f.current;
      var nums := if popped then f.numbers[1..] else f.numbers;
      var cur' := cur[s := cur[s].(status := status)];
      var table := if Truthy(cur'[s].plate) then f.table[s := Spot("occupied", cur'[s].plate)] else f.table;
      Fusion(cur', nums, table)
  }

  /** The loop over all boxes of a frame, in detector order. */
  function Fuse(f: Fusion, dets: seq<Detection>, height: int, width: int): (r: Fusion)
    requires width > 0 && FusionValid(f)
    ensures FusionValid(r)
  {
    if dets == [] then f
    else FuseStep(Fuse(f, dets[..|dets| - 1], height, width), dets[|dets| - 1], height, width)
  }

  /** `current_detections` as the store receives it: ids 1..12 in order, each with a status and a plate. */
  function BatchOf(current: map<int, Spot>): (b: Batch)
    requires Covers(current)
    ensures |b| == TotalSpots
    ensures forall k :: 0 <= k < |b| ==> b[k] == (k + 1, Fields(Some(current[k + 1].status), current[k + 1].plate))
  {
    seq(TotalSpots, k requires 0 <= k < TotalSpots => (k + 1, Fields(Some(current[k + 1].status), current[k + 1].plate)))
  }

  /** The batch names every spot once, so the store applies a value to every spot. */
  lemma BatchUpdatesEverySpot(table: map<int, Spot>, current: map<int, Spot>, i: int)
    requires Covers(current) && Covers(table) && 1 <= i <= TotalSpots
    ensures ApplyBatch(table, BatchOf(current))[i]
            == ApplyEntry(table[i], Fields(Some(current[i].status), current[i].plate))
    ensures ApplyBatch(table, BatchOf(current))[i].status == current[i].status
  {
    var b := BatchOf(current);
    assert DistinctIds(b);
    LookupBatchOf(current, i, |b|);
    assert b[..|b|] == b;
    ApplyBatchAt(table, b, i);
  }

  lemma {:induction false} LookupBatchOf(current: map<int, Spot>, i: int, n: nat)
    requires Covers(current) && 1 <= i <= n <= TotalSpots
    ensures Lookup(BatchOf(current)[..n], i) == Some(Fields(Some(current[i].status), current[i].plate))
  {
    var b := BatchOf(current)[..n];
    assert b[..n - 1] == BatchOf(current)[..n - 1];
    if i < n {
      LookupBatchOf(current, i, n - 1);
    }
  }

  /** The number of spots among 1..n whose status in `current` is `'occupied'`. */
  function OccupiedSpots(current: map<int, Spot>, n: nat): nat
    requires Covers(current) && n <= TotalSpots
  {
    if n == 0 then 0 else OccupiedSpots(current, n - 1) + if current[n].status == "occupied" then 1 else 0
  }

  /**
   * Because the batch holds every spot once, the store's `occupied` after a
   * frame is the number of spots the frame left `'occupied'`.
   */
  lemma {:induction false} BatchOccupiedSpots(current: map<int, Spot>, n: nat)
    requires Covers(current) && n <= TotalSpots
    ensures OccupiedIn(SpotIds(), BatchOf(current)[..n]) == OccupiedSpots(current, n)
  {
    if n > 0 {
      BatchOccupiedSpots(current, n - 1);
      assert BatchOf(current)[..n][..n - 1] == BatchOf(current)[..n - 1];
    }
  }

  /** The status the last mapped box for spot `s` gives it, if any box maps there. */
  function LastStatus(dets: seq<Detection>, s: int, height: int, width: int): Option<string>
    requires width > 0
  {
    if dets == [] then None
    else if TargetSpot(dets[|dets| - 1], height, width) == Some(s) then Some(DetectedStatus(dets[|dets| - 1]))
    else LastStatus(dets[..|dets| - 1], s, height, width)
  }

  /** The last box mapped to a spot decides its status; a spot no box maps to keeps the batch default. */
  lemma {:induction false} FuseLastStatus(f: Fusion, dets: seq<Detection>, height: int, width: int, s: int)
    requires width > 0 && FusionValid(f) && 1 <= s <= TotalSpots
    ensures Fuse(f, dets, height, width).current[s].status
            == LastStatus(dets, s, height, width).GetOr(f.current[s].status)
  {
    if dets != [] {
      FuseLastStatus(f, dets[..|dets| - 1], height, width, s);
    }
  }

  /** Whether a box takes an OCR string: it is mapped to a spot and is a car. */
  predicate Consumes(d: Detection, height: int, width: int)
    requires width > 0
  {
    TargetSpot(d, height, width).Some? && d.cls == 1
  }

  /** The number of boxes that take an OCR string, while any are left. */
  function Consumers(dets: seq<Detection>, height: int, width: int): nat
    requires width > 0
  {
    if dets == [] then 0
    else Consumers(dets[..|dets| - 1], height, width) + if Consumes(dets[|dets| - 1], height, width) then 1 else 0
  }

  function Min(a: int, b: int): int {
    if a < b then a else b
  }

  /** The OCR strings are handed out first in, first out: one per consuming box while any remain. */
  lemma {:induction false} FuseNumbersFifo(f: Fusion, dets: seq<Detection>, height: int, width: int)
    requires width > 0 && FusionValid(f)
    ensures var c := Min(Consumers(dets, height, width), |f.numbers|);
            Fuse(f, dets, height, width).numbers == f.numbers[c..]
  {
    if dets != [] {
      var init := dets[..|dets| - 1];
      FuseNumbersFifo(f, init, height, width);
      var c := Min(Consumers(init, height, width), |f.numbers|);
      if c < |f.numbers| {
        assert f.numbers[c..][1..] == f.numbers[c + 1..];
      }
    }
  }

  /**
   * The k-th consuming box, counting from zero, is given the k-th OCR
   * string as its spot's plate when there are more than k strings.
   */
  lemma PlateOfConsumer(f: Fusion, dets: seq<Detection>, height: int, width: int, k: int)
    requires width > 0 && FusionValid(f) && 0 <= k < |dets|
    requires Consumes(dets[k], height, width)
    requires Consumers(dets[..k], height, width) < |f.numbers|
    ensures var s := TargetSpot(dets[k], height, width).value;
            Fuse(f, dets[..k + 1], height, width).current[s].plate
            == Some(f.numbers[Consumers(dets[..k], height, width)])
  {
    FuseNumbersFifo(f, dets[..k], height, width);
    assert dets[..k + 1][..k] == dets[..k];
  }

  /**
   * Once the OCR strings are used up, a consuming box takes no plate: its
   * spot is marked occupied, keeps the plate it had, and the list stays empty.
   */
  lemma {:induction false} PlateOfConsumerExhausted(f: Fusion, dets: seq<Detection>, height: int, width: int, k: int)
    requires width > 0 && FusionValid(f) && 0 <= k < |dets|
    requires Consumes(dets[k], height, width)
    requires Consumers(dets[..k], height, width) >= |f.numbers|
    ensures var s := TargetSpot(dets[k], height, width).value;
            var before := Fuse(f, dets[..k], height, width);
            var after := Fuse(f, dets[..k + 1], height, width);
            && after.current[s] == before.current[s].(status := "occupied")
            && after.numbers == [] && before.numbers == []
  {
    FuseNumbersFifo(f, dets[..k], height, width);
    FuseAt(f, dets, k, height, width);
  }

  /**
   * The plate the boxes give spot `s`: the OCR string taken by the last
   * consuming box mapped to `s` while strings remained, if any. The c-th
   * consuming box overall takes string c.
   */
  function LastPlate(dets: seq<Detection>, numbers: seq<string>, s: int, height: int, width: int): Option<string>
    requires width > 0
  {
    if dets == [] then None
    else
      var init := dets[..|dets| - 1];
      var d := dets[|dets| - 1];
      var c := Consumers(init, height, width);
      if Consumes(d, height, width) && TargetSpot(d, height, width) == Some(s) && c < |numbers| then Some(numbers[c])
      else LastPlate(init, numbers, s, height, width)
  }

  /**
   * Each spot's plate after the loop is the string its last plate-taking box
   * received, in first-in-first-out order; a spot no box gave a string keeps
   * the plate it started with.
   */
  lemma {:induction false} FuseLastPlate(f: Fusion, dets: seq<Detection>, height: int, width: int, s: int)
    requires width > 0 && FusionValid(f) && 1 <= s <= TotalSpots
    ensures var p := LastPlate(dets, f.numbers, s, height, width);
            Fuse(f, dets, height, width).current[s].plate == if p.Some? then p else f.current[s].plate
  {
    if dets != [] {
      var init := dets[..|dets| - 1];
      FuseLastPlate(f, init, height, width, s);
      FuseNumbersFifo(f, init, height, width);
      var c := Consumers(init, height, width);
      if c < |f.numbers| {
        assert Fuse(f, init, height, width).numbers[0] == f.numbers[c];
      }
    }
  }

  /** Boxes that are dropped or map to no spot change nothing. */
  function Mapped(dets: seq<Detection>, height: int, width: int): (r: seq<Detection>)
    requires width > 0
    ensures forall k :: 0 <= k < |r| ==> TargetSpot(r[k], height, width).Some?
  {
    if dets == [] then []
    else
      Mapped(dets[..|dets| - 1], height, width)
      + if TargetSpot(dets[|dets| - 1], height, width).Some? then [dets[|dets| - 1]] else []
  }

  /** The fusion of the first `k + 1` detections is one more step after the first `k`. */
  lemma FuseAt(f: Fusion, dets: seq<Detection>, k: nat, height: int, width: int)
    requires width > 0 && FusionValid(f) && k < |dets|
    ensures Fuse(f, dets[..k + 1], height, width) == FuseStep(Fuse(f, dets[..k], height, width), dets[k], height, width)
  {
    assert dets[..k + 1] == dets[..k] + [dets[k]];
    FuseSnoc(f, dets[..k], dets[k], height, width);
  }

  lemma FuseSnoc(f: Fusion, dets: seq<Detection>, d: Detection, height: int, width: int)
    requires width > 0 && FusionValid(f)
    ensures Fuse(f, dets + [d], height, width) == FuseStep(Fuse(f, dets, height, width), d, height, width)
  {
    assert (dets + [d])[..|dets|] == dets;
  }

  /** Removing the dropped and unmapped boxes gives the same fusion result. */
  lemma {:induction false} UnmappedIgnored(f: Fusion, dets: seq<Detection>, height: int, width: int)
    requires width > 0 && FusionValid(f)
    ensures Fuse(f, Mapped(dets, height, width), height, width) == Fuse(f, dets, height, width)
  {
    if dets != [] {
      var init := dets[..|dets| - 1];
      var d := dets[|dets| - 1];
      assert dets == init + [d];
      UnmappedIgnored(f, init, height, width);
      FuseSnoc(f, init, d, height, width);
      if TargetSpot(d, height, width).Some? {
        assert Mapped(dets, height, width) == Mapped(init, height, width) + [d];
        FuseSnoc(f, Mapped(init, height, width), d, height, width);
      } else {
        assert Mapped(dets, height, width) == Mapped(init, height, width);
      }
    }
  }

  /** The table after the two cars of the example below: spots 3 and 9 occupied with their plates. */
  function TwoCarsTable(): (t: map<int, Spot>)
    ensures Covers(t)
  {
    EmptyTable()[3 := Spot("occupied", Some("XYZ123"))][9 := Spot("occupied", Some("ABC999"))]
  }

  lemma TwoCarsFusion()
    ensures var dets := [Detection(120, 50, 140, 70, 1, 0.9), Detection(120, 150, 140, 170, 1, 0.9)];
            Fuse(Fusion(EmptyTable(), ["XYZ123", "ABC999"], EmptyTable()), dets, 240, 320)
            == Fusion(TwoCarsTable(), [], TwoCarsTable())
  {
    var d1 := Detection(120, 50, 140, 70, 1, 0.9);
    var d2 := Detection(120, 150, 140, 170, 1, 0.9);
    var dets := [d1, d2];
    var f0 := Fusion(EmptyTable(), ["XYZ123", "ABC999"], EmptyTable());
    assert Column(130, 320) == 2;
    assert TargetSpot(d1, 240, 320) == Some(3);
    assert TargetSpot(d2, 240, 320) == Some(9);
    var e := EmptyTable();
    var f1 := Fusion(e[3 := Spot("occupied", Some("XYZ123"))], ["ABC999"], e[3 := Spot("occupied", Some("XYZ123"))]);
    assert dets[..1] == [d1] && [d1][..0] == [];
    assert Fuse(f0, [d1], 240, 320) == f1;
  }

  lemma TwoCarsCount()
    ensures OccupiedSpots(TwoCarsTable(), TotalSpots) == 2
  {
    var t := TwoCarsTable();
    assert OccupiedSpots(t, 2) == 0;
    assert OccupiedSpots(t, 3) == 1;
    assert OccupiedSpots(t, 6) == 1;
    assert OccupiedSpots(t, 8) == 1;
    assert OccupiedSpots(t, 9) == 2;
    assert OccupiedSpots(t, 11) == 2;
  }

  /**
   * When the store already holds what the batch says, and no spot is
   * `'empty'` with a plate, applying the batch changes nothing.
   */
  lemma BatchOfOwnTable(cur: map<int, Spot>)
    requires Covers(cur)
    requires forall i :: i in cur && cur[i].status == "empty" ==> cur[i].plate == None
    ensures ApplyBatch(cur, BatchOf(cur)) == cur
  {
    forall i | i in cur
      ensures ApplyBatch(cur, BatchOf(cur))[i] == cur[i]
    {
      BatchUpdatesEverySpot(cur, cur, i);
    }
  }

  /**
   * Two cars, one over spot 3 and one over spot 9 of a 320 x 240 frame, with
   * the OCR strings "XYZ123" and "ABC999": each spot is marked occupied with
   * its plate in detection order, every other spot is reset, and the store
   * counts two occupied spots and ten available.
   */
  lemma TwoCarsExample()
    ensures var dets := [Detection(120, 50, 140, 70, 1, 0.9), Detection(120, 150, 140, 170, 1, 0.9)];
            var f := Fuse(Fusion(EmptyTable(), ["XYZ123", "ABC999"], EmptyTable()), dets, 240, 320);
            && ApplyBatch(f.table, BatchOf(f.current)) == TwoCarsTable()
            && OccupiedIn(SpotIds(), BatchOf(f.current)) == 2
            && TotalSpots - OccupiedIn(SpotIds(), BatchOf(f.current)) == 10
  {
    TwoCarsFusion();
    var cur := TwoCarsTable();
    BatchOfOwnTable(cur);
    BatchOccupiedSpots(cur, TotalSpots);
    assert BatchOf(cur)[..TotalSpots] == BatchOf(cur);
    TwoCarsCount();
  }

  /**
   * `update_parking_state`: a direct write of one spot's record, outside
   * the store's lock and without touching the counters.
   */
  method UpdateParkingState(store: ParkingState, spot: int, plate: string)
    requires store.Valid() && 1 <= spot <= TotalSpots
    modifies store.spots[spot]
    ensures store.Valid()
    ensures store.View() == old(store.View())[spot := Spot("occupied", Some(plate))]
    ensures store.available == old(store.available) && store.occupied == old(store.occupied)
  {
    store.SetRecord(spot, "occupied", Some(plate));
  }

  /** How many of `n` received frames, after `count` earlier ones, are processed. */
  function ProcessedFrames(count: int, n: nat): nat {
    if n == 0 then 0
    else ProcessedFrames(count, n - 1) + if (count + n) % FrameSkipInterval == 0 then 1 else 0
  }

  /** From a fresh counter, exactly every second received frame is processed. */
  lemma {:induction false} EverySecondFrame(n: nat)
    ensures ProcessedFrames(0, n) == n / 2
  {
    if n >= 2 {
      EverySecondFrame(n - 2);
      assert ProcessedFrames(0, n) == ProcessedFrames(0, n - 2) + 1;
    } else if n == 1 {
      assert ProcessedFrames(0, 1) == ProcessedFrames(0, 0);
    }
  }

  /**
   * The store after one frame whose table was `before`: the boxes are fused
   * into a fresh twelve-spot batch (making their direct writes), the batch is
   * applied to the table as those writes left it, `occupied` is counted from
   * the batch and `available` is the rest of the twelve.
   */
  ghost predicate FrameStored(store: ParkingState, before: map<int, Spot>, dets: seq<Detection>,
                              numbers: seq<string>, height: int, width: int)
    requires width > 0 && Covers(before)
    reads store, store.spots.Values
  {
    var f := Fuse(Fusion(EmptyTable(), numbers, before), dets, height, width);
    && store.View() == ApplyBatch(f.table, BatchOf(f.current))
    && store.occupied == OccupiedIn(SpotIds(), BatchOf(f.current))
    && store.available == TotalSpots - store.occupied
  }

  /**
   * The module-level state of run.py: the occupancy store, the frame
   * counter and the buffer of encoded frames for the web page.
   */
  class DetectionLoop<F> {
    const store: ParkingState
    var frameCount: int
    var frameBuffer: seq<F>

    ghost predicate Valid()
      reads this, store
    {
      store.Valid() && |frameBuffer| <= FrameBufferSize
    }

    constructor (store: ParkingState)
      requires store.Valid()
      ensures Valid() && this.store == store
      ensures frameCount == 0 && frameBuffer == []
    {
      this.store := store;
      frameCount := 0;
      frameBuffer := [];
    }

    /**
     * One turn of the `run_detection` loop up to the skip test: a missing
     * frame is retried without counting; a received frame is counted and is
     * processed when the count is a multiple of the interval.
     */
    method OnFrame(frame: Option<F>) returns (process: bool)
      requires Valid()
      modifies this
      ensures Valid() && frameBuffer == old(frameBuffer)
      ensures frameCount == old(frameCount) + if frame.Some? then 1 else 0
      ensures process <==> frame.Some? && frameCount % FrameSkipInterval == 0
    {
      if frame.None? {
        return false;
      }
      frameCount := frameCount + 1;
      process := frameCount % FrameSkipInterval == 0;
    }

    /** `get_latest_frame`: the newest buffered frame, or `None`. */
    method GetLatestFrame() returns (r: Option<F>)
      requires Valid()
      ensures r.None? <==> frameBuffer == []
      ensures r.Some? ==> r.value == frameBuffer[|frameBuffer| - 1]
    {
      if frameBuffer == [] {
        return None;
      }
      r := Some(frameBuffer[|frameBuffer| - 1]);
    }

    /** The loop body of `process_detections` for one box. */
    method FuseBox(current: map<int, Spot>, numbers: seq<string>, d: Detection, height: int, width: int)
      returns (current': map<int, Spot>, numbers': seq<string>)
      requires Valid() && width > 0 && FusionValid(Fusion(current, numbers, store.View()))
      modifies store.spots.Values
      ensures Valid()
      ensures Fusion(current', numbers', store.View())
              == FuseStep(Fusion(current, numbers, old(store.View())), d, height, width)
    {
      current', numbers' := current, numbers;
      if d.conf < MinDetectionConfidence {
        return;
      }
      var spot := DetermineSpotNumber(d.x1, d.y1, d.x2, d.y2, height, width);
      if spot.None? {
        return;
      }
      var s := spot.value;
      var status := if d.cls == 1 then "occupied" else "empty";
      if status == "occupied" && numbers' != [] {
        current' := current'[s := current'[s].(plate := Some(numbers'[0]))];
        numbers' := numbers'[1..];
      }
      current' := current'[s := current'[s].(status := status)];
      if Truthy(current'[s].plate) {
        UpdateParkingState(store, s, current'[s].plate.value);
      }
    }

    /** The detection loop of `process_detections`, from a fresh twelve-spot batch. */
    method FuseAll(dets: seq<Detection>, numbers: seq<string>, height: int, width: int)
      returns (current: map<int, Spot>, remaining: seq<string>)
      requires Valid() && width > 0
      modifies store.spots.Values
      ensures Valid()
      ensures Fusion(current, remaining, store.View())
              == Fuse(Fusion(EmptyTable(), numbers, old(store.View())), dets, height, width)
    {
      current := EmptyTable();
      remaining := numbers;
      ghost var f0 := Fusion(current, remaining, store.View());
      var k := 0;
      while k < |dets|
        invariant 0 <= k <= |dets|
        invariant Valid() && FusionValid(f0)
        invariant Fusion(current, remaining, store.View()) == Fuse(f0, dets[..k], height, width)
      {
        FuseAt(f0, dets, k, height, width);
        current, remaining := FuseBox(current, remaining, dets[k], height, width);
        k := k + 1;
      }
      assert dets[..k] == dets;
    }

    /** Fuse the boxes of one frame into a fresh twelve-spot batch and hand the batch to the store. */
    method FuseAndStore(dets: seq<Detection>, numbers: seq<string>, height: int, width: int)
      requires Valid() && width > 0
      modifies store, store.spots.Values
      ensures Valid()
      ensures FrameStored(store, old(store.View()), dets, numbers, height, width)
    {
      var current, remaining := FuseAll(dets, numbers, height, width);
      store.UpdateSpotsFromDetection(BatchOf(current));
    }

    /**
     * `process_detections`: fuse the boxes of one frame into a fresh
     * twelve-spot batch, hand the batch to the store, then buffer the
     * encoded frame (`None` when encoding failed).
     */
    method ProcessDetections(dets: seq<Detection>, numbers: seq<string>, height: int, width: int, webFrame: Option<F>)
      requires Valid() && width > 0
      modifies this, store, store.spots.Values
      ensures Valid() && frameCount == old(frameCount)
      ensures FrameStored(store, old(store.View()), dets, numbers, height, width)
      ensures frameBuffer == match webFrame
                             case None => old(frameBuffer)
                             case Some(x) => BoundedQueue.Append(old(frameBuffer), x, FrameBufferSize)
    {
      FuseAndStore(dets, numbers, height, width);
      match webFrame {
        case None =>
        case Some(x) =>
          frameBuffer := BoundedQueue.Append(frameBuffer, x, FrameBufferSize);
      }
    }
  }
}
