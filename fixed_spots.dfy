/**
 * The per-frame occupancy rule of your_project/detection.py: six fixed
 * rectangles P1..P6, a box counts for a spot only when it lies wholly inside
 * the rectangle, and the last such box of the frame decides (label 1 is
 * occupied, anything else empty). Every processed frame reports all six
 * spots, each with no car number, as the payload `update_parking_status`
 * posts.
 */
module FixedSpots {
  import opened Wrappers
  import CameraStream

  /** A rectangle `(x1, y1, x2, y2)` in pixels. */
  datatype Rect = Rect(x1: int, y1: int, x2: int, y2: int)

  /** A detected box: its corners and its class label. */
  datatype Box = Box(x1: int, y1: int, x2: int, y2: int, cls: int)

  datatype Spot = Spot(id: string, coords: Rect)

  /** The `parking_spots` table, in its insertion order. */
  const ParkingSpots: seq<Spot> := [
    Spot("P1", Rect(100, 100, 200, 200)),
    Spot("P2", Rect(250, 100, 350, 200)),
    Spot("P3", Rect(400, 100, 500, 200)),
    Spot("P4", Rect(100, 250, 200, 350)),
    Spot("P5", Rect(250, 250, 350, 350)),
    Spot("P6", Rect(400, 250, 500, 350))
  ]

  /** The box lies wholly inside the rectangle, edges included. */
  predicate Inside(b: Box, r: Rect) {
    b.x1 >= r.x1 && b.x2 <= r.x2 && b.y1 >= r.y1 && b.y2 <= r.y2
  }

  /** A box with its corners in order. */
  predicate Upright(b: Box) {
    b.x1 <= b.x2 && b.y1 <= b.y2
  }

  /** `spot_occupied` after the boxes, in order: the last box inside the rectangle decides. */
  function SpotOccupied(boxes: seq<Box>, r: Rect): bool {
    if boxes == [] then false
    else
      var b := boxes[|boxes| - 1];
      if Inside(b, r) then b.cls == 1 else SpotOccupied(boxes[..|boxes| - 1], r)
  }

  /** The boxes of all results of one frame, in order. */
  function Flatten(results: seq<seq<Box>>): (boxes: seq<Box>)
    ensures results == [] ==> boxes == []
  {
    if results == [] then [] else Flatten(results[..|results| - 1]) + results[|results| - 1]
  }

  lemma SpotOccupiedSnoc(boxes: seq<Box>, b: Box, r: Rect)
    ensures SpotOccupied(boxes + [b], r) == if Inside(b, r) then b.cls == 1 else SpotOccupied(boxes, r)
  {
    assert (boxes + [b])[..|boxes|] == boxes;
  }

  lemma FlattenSnoc(results: seq<seq<Box>>, boxes: seq<Box>)
    ensures Flatten(results + [boxes]) == Flatten(results) + boxes
  {
    assert (results + [boxes])[..|results|] == results;
  }

  /**
   * A spot is occupied exactly when some box inside it has label 1 and no
   * later box lies inside it.
   */
  lemma {:induction false} SpotOccupiedIff(boxes: seq<Box>, r: Rect)
    ensures SpotOccupied(boxes, r) <==>
              exists i :: 0 <= i < |boxes| && Inside(boxes[i], r) && boxes[i].cls == 1
                          && forall j :: i < j < |boxes| ==> !Inside(boxes[j], r)
    decreases |boxes|
  {
    if boxes != [] {
      var init := boxes[..|boxes| - 1];
      var b := boxes[|boxes| - 1];
      SpotOccupiedIff(init, r);
      assert boxes == init + [b];
      if Inside(b, r) {
        if b.cls == 1 {
          var i := |boxes| - 1;
          assert Inside(boxes[i], r) && boxes[i].cls == 1;
        } else {
          forall i | 0 <= i < |boxes| - 1 && Inside(boxes[i], r) && boxes[i].cls == 1
            ensures exists j :: i < j < |boxes| && Inside(boxes[j], r)
          {
            assert Inside(boxes[|boxes| - 1], r);
          }
        }
      } else {
        if SpotOccupied(init, r) {
          var i :| 0 <= i < |init| && Inside(init[i], r) && init[i].cls == 1
                   && forall j :: i < j < |init| ==> !Inside(init[j], r);
          assert Inside(boxes[i], r) && boxes[i].cls == 1;
          assert forall j :: i < j < |boxes| ==> !Inside(boxes[j], r);
        } else {
          forall i | 0 <= i < |boxes| && Inside(boxes[i], r) && boxes[i].cls == 1
            ensures exists j :: i < j < |boxes| && Inside(boxes[j], r)
          {
            assert i < |init| && init[i] == boxes[i];
            var j :| i < j < |init| && Inside(init[j], r);
            assert boxes[j] == init[j];
          }
        }
      }
    }
  }

  /** A spot that no box lies inside is reported empty. */
  lemma {:induction false} NoBoxEmpty(boxes: seq<Box>, r: Rect)
    requires forall i :: 0 <= i < |boxes| ==> !Inside(boxes[i], r)
    ensures !SpotOccupied(boxes, r)
    decreases |boxes|
  {
    if boxes != [] {
      var init := boxes[..|boxes| - 1];
      assert forall i :: 0 <= i < |init| ==> init[i] == boxes[i];
      NoBoxEmpty(init, r);
    }
  }

  /** An upright box lies inside at most one of the six rectangles. */
  lemma SpotsDisjoint(b: Box, p: nat, q: nat)
    requires Upright(b) && p < q < |ParkingSpots|
    ensures !(Inside(b, ParkingSpots[p].coords) && Inside(b, ParkingSpots[q].coords))
  {
  }

  /** A box with its corners swapped can lie inside two spots at once. */
  lemma InvertedBoxInTwoSpots()
    ensures var b := Box(250, 100, 200, 200, 1);
            !Upright(b) && Inside(b, ParkingSpots[0].coords) && Inside(b, ParkingSpots[1].coords)
  {
  }

  /** The JSON body `update_parking_status` posts for one spot. */
  datatype Payload = Payload(spotId: string, status: string, number: Option<string>)

  function StatusPayload(spotId: string, status: string, number: Option<string>): Payload {
    Payload(spotId, if status == "Occupied" then "occupied" else "empty", number)
  }

  /**
   * The payload is keyed by the spot id, carries the number unchanged, and
   * its status is `'occupied'` for `"Occupied"` and `'empty'` for anything else.
   */
  lemma PayloadStatus(spotId: string, status: string, number: Option<string>)
    ensures var p := StatusPayload(spotId, status, number);
            && p.spotId == spotId && p.number == number
            && (p.status == "occupied" <==> status == "Occupied")
            && (p.status == "occupied" || p.status == "empty")
  {
  }

  /** What the frame loop posts for spot `s`. */
  function SpotReport(results: seq<seq<Box>>, s: Spot): Payload {
    StatusPayload(s.id, if SpotOccupied(Flatten(results), s.coords) then "Occupied" else "Empty", None)
  }

  /** The two inner loops of the frame loop for one rectangle: over the results, then over each one's boxes. */
  method EvaluateSpot(results: seq<seq<Box>>, r: Rect) returns (occupied: bool)
    ensures occupied == SpotOccupied(Flatten(results), r)
  {
    occupied := false;
    var k := 0;
    while k < |results|
      invariant 0 <= k <= |results|
      invariant occupied == SpotOccupied(Flatten(results[..k]), r)
    {
      var boxes := results[k];
      ghost var done := Flatten(results[..k]);
      var j := 0;
      assert done + boxes[..0] == done;
      while j < |boxes|
        invariant 0 <= j <= |boxes|
        invariant occupied == SpotOccupied(done + boxes[..j], r)
      {
        var b := boxes[j];
        BoxStep(done, boxes, j, r);
        if b.x1 >= r.x1 && b.x2 <= r.x2 && b.y1 >= r.y1 && b.y2 <= r.y2 {
          occupied := b.cls == 1;
        }
        j := j + 1;
      }
      ResultStep(results, k, r);
      k := k + 1;
    }
    assert results[..k] == results;
  }

  lemma BoxStep(done: seq<Box>, boxes: seq<Box>, j: nat, r: Rect)
    requires j < |boxes|
    ensures SpotOccupied(done + boxes[..j + 1], r)
         == if Inside(boxes[j], r) then boxes[j].cls == 1 else SpotOccupied(done + boxes[..j], r)
  {
    assert done + boxes[..j + 1] == (done + boxes[..j]) + [boxes[j]];
    SpotOccupiedSnoc(done + boxes[..j], boxes[j], r);
  }

  lemma ResultStep(results: seq<seq<Box>>, k: nat, r: Rect)
    requires k < |results|
    ensures SpotOccupied(Flatten(results[..k + 1]), r)
         == SpotOccupied(Flatten(results[..k]) + results[k][..|results[k]|], r)
  {
    assert results[..k + 1] == results[..k] + [results[k]];
    assert results[k][..|results[k]|] == results[k];
    FlattenSnoc(results[..k], results[k]);
  }

  /**
   * One processed frame: every spot of the table, in order, with its
   * occupancy and no car number. The frame loop runs it on `ParkingSpots`.
   */
  method EvaluateFrame(spots: seq<Spot>, results: seq<seq<Box>>) returns (posted: seq<Payload>)
    ensures |posted| == |spots|
    ensures forall s :: 0 <= s < |spots| ==> posted[s] == SpotReport(results, spots[s])
  {
    posted := [];
    var s := 0;
    while s < |spots|
      invariant 0 <= s <= |spots| && |posted| == s
      invariant forall t :: 0 <= t < s ==> posted[t] == SpotReport(results, spots[t])
    {
      var spot := spots[s];
      var occupied := EvaluateSpot(results, spot.coords);
      posted := posted + [StatusPayload(spot.id, if occupied then "Occupied" else "Empty", None)];
      s := s + 1;
    }
  }

  /** The body of the frame loop: all six spots P1..P6, in table order, each without a car number. */
  method ProcessFrame(results: seq<seq<Box>>) returns (posted: seq<Payload>)
    ensures |posted| == 6
    ensures forall s :: 0 <= s < 6 ==> posted[s] == SpotReport(results, ParkingSpots[s])
    ensures forall s :: 0 <= s < 6 ==> posted[s].spotId == ParkingSpots[s].id && posted[s].number.None?
  {
    posted := EvaluateFrame(ParkingSpots, results);
  }

  /**
   * The frame loop reads a frame and skips it while more than one is still
   * queued. The producer thread may run between the read and the size test:
   * `between` is the grab of such a producer step, if one happens. The skip
   * fires exactly when the queue held two frames, the stream is running and
   * a good frame was put in between.
   */
  method NextFrame<F>(vs: CameraStream.VideoStream<F>, between: Option<Option<F>>)
    returns (frame: Option<F>, skip: bool)
    requires vs.Valid()
    modifies vs
    ensures vs.Valid()
    ensures frame.Some? <==> old(vs.queue) != []
    ensures frame.Some? ==> frame.value == old(vs.queue)[0]
    ensures skip == (|vs.queue| > 1)
    ensures skip <==> |old(vs.queue)| == 2 && !old(vs.stopped) && between.Some? && between.value.Some?
  {
    frame := vs.Read();
    if between.Some? {
      var _ := vs.ProducerStep(between.value);
    }
    skip := |vs.queue| > 1;
  }
}
