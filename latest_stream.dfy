/**
 * The camera reader and the per-box labelling of test.py. Its reader keeps
 * only the newest frame: a queue of one that is drained before every put.
 * A failed grab is retried rather than ending the producer, and the capture
 * is released at most once. `main` names each detected box by its label and
 * asks the plate reader only for occupied boxes when a reader exists.
 */
module LatestFrameStream {
  import opened Wrappers
  import BoundedQueue
  import CameraStream
  import PlateReader

  /** `queue.Queue(maxsize=1)`. */
  const QueueSize: nat := 1

  class LatestStream<F> {
    var queue: seq<F>
    var stopped: bool
    /** Whether the capture is still open. */
    var isOpen: bool
    /** How many times the capture has been released. */
    var releases: nat

    /** At most one queued frame; an open capture has not been released yet, a closed one exactly once. */
    ghost predicate Valid()
      reads this
    {
      && |queue| <= QueueSize
      && releases + (if isOpen then 1 else 0) == 1
    }

    constructor ()
      ensures Valid() && queue == [] && !stopped && isOpen && releases == 0
    {
      queue := [];
      stopped := false;
      isOpen := true;
      releases := 0;
    }

    /**
     * The constructor: a capture that did not open raises `ValueError`,
     * modelled as `None`; otherwise an empty, open, running stream.
     */
    static method Open(isOpened: bool) returns (r: Option<LatestStream<F>>)
      ensures r.None? <==> !isOpened
      ensures r.Some? ==> fresh(r.value) && r.value.Valid()
                          && r.value.queue == [] && !r.value.stopped && r.value.isOpen
    {
      if !isOpened {
        return None;
      }
      var s := new LatestStream<F>();
      r := Some(s);
    }

    /**
     * One turn of the `update` loop. A set stop event ends the loop. A failed
     * grab changes nothing and the loop goes on; a good one empties the queue
     * frame by frame and then queues the new frame.
     */
    method ProducerStep(grab: Option<F>) returns (running: bool)
      requires Valid()
      modifies this
      ensures Valid() && stopped == old(stopped) && isOpen == old(isOpen) && releases == old(releases)
      ensures running <==> !old(stopped)
      ensures old(stopped) || grab.None? ==> queue == old(queue)
      ensures !old(stopped) && grab.Some? ==> queue == [grab.value]
    {
      if stopped {
        return false;
      }
      if grab.None? {
        return true;
      }
      var n := 0;
      while queue != []
        invariant 0 <= n <= |old(queue)| && queue == old(queue)[n..]
        invariant stopped == old(stopped) && isOpen == old(isOpen) && releases == old(releases)
        decreases |queue|
      {
        queue := queue[1..];
        n := n + 1;
      }
      queue := queue + [grab.value];
      running := true;
    }

    /**
     * The `update` loop over the results of successive grabs until the stop
     * event is set: the queue ends up holding the newest frame grabbed, if any.
     */
    method Update(grabs: seq<Option<F>>)
      requires Valid()
      modifies this
      ensures Valid() && stopped == old(stopped) && isOpen == old(isOpen) && releases == old(releases)
      ensures old(stopped) ==> queue == old(queue)
      ensures !old(stopped) ==>
                queue == BoundedQueue.Window(old(queue) + CameraStream.Frames(grabs), QueueSize)
    {
      ghost var q0 := queue;
      assert q0 + CameraStream.Frames(grabs[..0]) == q0;
      var k := 0;
      var running := !stopped;
      while k < |grabs| && running
        invariant 0 <= k <= |grabs|
        invariant Valid() && stopped == old(stopped) && isOpen == old(isOpen) && releases == old(releases)
        invariant running <==> !old(stopped)
        invariant old(stopped) ==> queue == old(queue)
        invariant !old(stopped) ==> queue == BoundedQueue.Window(q0 + CameraStream.Frames(grabs[..k]), QueueSize)
      {
        running := ProducerStep(grabs[k]);
        if running {
          NewestAfter(q0, grabs, k);
        }
        k := k + 1;
      }
      if !old(stopped) {
        assert grabs[..k] == grabs;
      }
    }

    /**
     * `read`: the queued frame, removed. On an empty queue the source waits
     * a tenth of a second and answers `None`; the model answers `None` at once.
     */
    method Read() returns (r: Option<F>)
      requires Valid()
      modifies this
      ensures Valid() && stopped == old(stopped) && isOpen == old(isOpen) && releases == old(releases)
      ensures old(queue) == [] ==> r.None? && queue == []
      ensures old(queue) != [] ==> r == Some(old(queue)[0]) && queue == []
    {
      if queue == [] {
        return None;
      }
      r := Some(queue[0]);
      queue := queue[1..];
    }

    /** `stop`: set the stop event and release the capture if it is still open. */
    method Stop()
      requires Valid()
      modifies this
      ensures Valid() && stopped && !isOpen && queue == old(queue)
      ensures releases == 1
      ensures releases == if old(isOpen) then old(releases) + 1 else old(releases)
    {
      stopped := true;
      if isOpen {
        releases := releases + 1;
        isOpen := false;
      }
    }
  }

  /**
   * The window of one after one more grab: the good grab's frame, or what
   * the window held before a failed grab.
   */
  lemma NewestAfter<F>(q0: seq<F>, grabs: seq<Option<F>>, k: nat)
    requires k < |grabs|
    ensures BoundedQueue.Window(q0 + CameraStream.Frames(grabs[..k + 1]), QueueSize)
         == match grabs[k]
            case Some(f) => [f]
            case None => BoundedQueue.Window(q0 + CameraStream.Frames(grabs[..k]), QueueSize)
  {
    var seen := q0 + CameraStream.Frames(grabs[..k]);
    assert grabs[..k + 1][..k] == grabs[..k];
    match grabs[k]
    case Some(f) =>
      assert q0 + CameraStream.Frames(grabs[..k + 1]) == seen + [f];
      assert (seen + [f])[|seen|..] == [f];
    case None =>
      assert q0 + CameraStream.Frames(grabs[..k + 1]) == seen;
  }

  /** Any number of grabs, good or failed, never leaves more than one frame queued. */
  lemma NewestOnly<F>(q: seq<F>, frames: seq<F>)
    requires |q| <= QueueSize
    ensures var w := BoundedQueue.Window(q + frames, QueueSize);
            && |w| <= QueueSize
            && (frames != [] ==> w == [frames[|frames| - 1]])
            && (frames == [] ==> w == q)
  {
    if frames == [] {
      assert q + frames == q;
    } else {
      var s := q + frames;
      assert s[|s| - 1] == frames[|frames| - 1];
    }
  }

  /** The name shown for a box of class `cls`. */
  function ClassName(cls: int): string {
    if cls == 0 then "Empty" else "Occupied"
  }

  /** Label 0 is the only one shown as `"Empty"`; every other class is shown as `"Occupied"`. */
  lemma ClassNames(cls: int)
    ensures ClassName(cls) == "Empty" <==> cls == 0
    ensures ClassName(cls) == "Occupied" <==> cls != 0
  {
  }

  /**
   * One box of the detector's results, with what the plate reader's OCR
   * would answer for its crop (`None` when the OCR call raises).
   */
  datatype LabelledBox = LabelledBox(x1: int, y1: int, x2: int, y2: int, cls: int,
                                     ocr: Option<seq<PlateReader.Candidate>>)

  /** What `main` shows for a box: its class name and the plate read for it, if any. */
  datatype Annotation = Annotation(className: string, plate: Option<string>)

  /**
   * The plate shown for a box in an image of the given size. The plate
   * reader runs only for class 1 and only when it was created (its minimum
   * confidence is `None` when the reader failed to start).
   */
  function BoxPlate(imageWidth: int, imageHeight: int, reader: Option<real>, b: LabelledBox): Option<string> {
    if b.cls == 1 && reader.Some? then
      PlateReader.SelectPlate(imageWidth, imageHeight, b.x1, b.y1, b.x2, b.y2, reader.value, b.ocr).plate
    else None
  }

  /**
   * A plate is shown only for an occupied box when a reader exists, and it
   * is always a valid plate, read above the reader's minimum confidence.
   */
  lemma BoxPlateGated(imageWidth: int, imageHeight: int, reader: Option<real>, b: LabelledBox)
    ensures BoxPlate(imageWidth, imageHeight, reader, b).Some? ==>
              && b.cls == 1 && reader.Some? && b.ocr.Some?
              && PlateReader.IsValidPlate(BoxPlate(imageWidth, imageHeight, reader, b).value)
    ensures b.cls != 1 || reader.None? ==> BoxPlate(imageWidth, imageHeight, reader, b).None?
  {
    if b.cls == 1 && reader.Some? {
      PlateReader.SelectPlateSpec(imageWidth, imageHeight, b.x1, b.y1, b.x2, b.y2, reader.value, b.ocr);
    }
  }

  /** The inner loop of `main` over the boxes of one frame's results. */
  method AnnotateBoxes(imageWidth: int, imageHeight: int, reader: Option<real>, boxes: seq<LabelledBox>)
    returns (shown: seq<Annotation>)
    ensures |shown| == |boxes|
    ensures forall i :: 0 <= i < |boxes| ==>
              shown[i] == Annotation(ClassName(boxes[i].cls), BoxPlate(imageWidth, imageHeight, reader, boxes[i]))
  {
    shown := [];
    var k := 0;
    while k < |boxes|
      invariant 0 <= k <= |boxes| && |shown| == k
      invariant forall i :: 0 <= i < k ==>
                  shown[i] == Annotation(ClassName(boxes[i].cls), BoxPlate(imageWidth, imageHeight, reader, boxes[i]))
    {
      var b := boxes[k];
      var className := if b.cls == 0 then "Empty" else "Occupied";
      var plate: Option<string> := None;
      if b.cls == 1 && reader.Some? {
        var reading := PlateReader.DetectPlate(imageWidth, imageHeight, b.x1, b.y1, b.x2, b.y2, reader.value, b.ocr);
        plate := reading.plate;
      }
      shown := shown + [Annotation(className, plate)];
      k := k + 1;
    }
  }
}
