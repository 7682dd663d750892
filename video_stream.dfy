/**
 * The camera reader of detection/video_stream.py (your_project/detection.py
 * holds a copy of the same class): a producer moves grabbed frames into a
 * queue of two that drops its oldest frame when full, and stops for good
 * at the first failed grab. The producer thread is modelled as a sequence
 * of single steps; each grab's result is an input (`None` is a failed read).
 */
module CameraStream {
  import opened Wrappers
  import BoundedQueue

  /** `queue.Queue(maxsize=2)`. */
  const QueueSize: nat := 2

  class VideoStream<F> {
    var queue: seq<F>
    var stopped: bool
    /** How many times the capture has been released. */
    var releases: nat

    ghost predicate Valid()
      reads this
    {
      |queue| <= QueueSize
    }

    constructor ()
      ensures Valid() && queue == [] && !stopped && releases == 0
    {
      queue := [];
      stopped := false;
      releases := 0;
    }

    /** `stop`: set the flag and release the capture. */
    method Stop()
      modifies this
      ensures stopped && releases == old(releases) + 1 && queue == old(queue)
    {
      stopped := true;
      releases := releases + 1;
    }

    /**
     * One turn of the `update` loop. A stopped stream does nothing. Otherwise
     * a full queue loses its oldest frame first; then a failed grab stops the
     * stream and ends the producer, and a good one is queued last.
     */
    method ProducerStep(grab: Option<F>) returns (running: bool)
      requires Valid()
      modifies this
      ensures Valid()
      ensures old(stopped) ==> !running && queue == old(queue) && stopped && releases == old(releases)
      ensures !old(stopped) && grab.None? ==>
                && !running && stopped && releases == old(releases) + 1
                && queue == if |old(queue)| == QueueSize then old(queue)[1..] else old(queue)
      ensures !old(stopped) && grab.Some? ==>
                && running && !stopped && releases == old(releases)
                && queue == BoundedQueue.Append(old(queue), grab.value, QueueSize)
    {
      if stopped {
        return false;
      }
      if |queue| == QueueSize {
        queue := queue[1..];
      }
      if grab.None? {
        Stop();
        return false;
      }
      queue := queue + [grab.value];
      running := true;
    }

    /**
     * The `update` loop over the results of successive grabs, until the
     * stream is stopped, a grab fails, or the given grabs run out. Up to the
     * first failed grab every frame is queued with drop-oldest; the failed
     * grab still drops the head of a full queue, then stops and releases the
     * stream, and no later grab is queued.
     */
    method Update(grabs: seq<Option<F>>)
      requires Valid()
      modifies this
      ensures Valid()
      ensures old(stopped) ==> queue == old(queue) && stopped && releases == old(releases)
      ensures var i := FirstFailure(grabs);
              !old(stopped) && i == |grabs| ==>
                && !stopped && releases == old(releases)
                && queue == BoundedQueue.Window(old(queue) + Frames(grabs), QueueSize)
      ensures var i := FirstFailure(grabs);
              !old(stopped) && i < |grabs| ==>
                && stopped && releases == old(releases) + 1
                && queue == DropIfFull(BoundedQueue.Window(old(queue) + Frames(grabs[..i]), QueueSize))
    {
      if stopped {
        return;
      }
      ghost var q0 := queue;
      ghost var i := FirstFailure(grabs);
      var k := 0;
      var running := true;
      while k < |grabs| && running
        invariant 0 <= k <= |grabs|
        invariant Valid()
        invariant running ==> && !stopped && releases == old(releases) && k <= i
                              && queue == BoundedQueue.Window(q0 + Frames(grabs[..k]), QueueSize)
        invariant !running ==> && i < |grabs| && k == i + 1 && stopped && releases == old(releases) + 1
                               && queue == DropIfFull(BoundedQueue.Window(q0 + Frames(grabs[..i]), QueueSize))
      {
        if grabs[k].Some? {
          running := ProducerStep(grabs[k]);
          GrabStep(q0, grabs, k);
        } else {
          assert k == i;
          running := ProducerStep(grabs[k]);
        }
        k := k + 1;
      }
      if running {
        assert grabs[..k] == grabs;
      }
    }

    /**
     * `read`: the oldest queued frame, removed from the queue. On an empty
     * queue the source blocks until the producer puts one; the model answers
     * `None` and changes nothing.
     */
    method Read() returns (r: Option<F>)
      requires Valid()
      modifies this
      ensures Valid() && stopped == old(stopped) && releases == old(releases)
      ensures old(queue) == [] ==> r.None? && queue == []
      ensures old(queue) != [] ==> r == Some(old(queue)[0]) && queue == old(queue)[1..]
    {
      if queue == [] {
        return None;
      }
      r := Some(queue[0]);
      queue := queue[1..];
    }
  }

  /** The queue after a failed grab: a full queue has already lost its head. */
  function DropIfFull<F>(q: seq<F>): (r: seq<F>)
    ensures |q| == QueueSize ==> r == q[1..]
    ensures |q| != QueueSize ==> r == q
  {
    if |q| == QueueSize then q[1..] else q
  }

  /** The index of the first failed grab, or the number of grabs when all succeed. */
  function FirstFailure<F>(grabs: seq<Option<F>>): (i: nat)
    ensures i <= |grabs|
    ensures forall k :: 0 <= k < i ==> grabs[k].Some?
    ensures i < |grabs| ==> grabs[i].None?
  {
    if grabs == [] || grabs[0].None? then 0 else 1 + FirstFailure(grabs[1..])
  }

  /** The buffer after the good grab at index `k`. */
  lemma GrabStep<F>(q0: seq<F>, grabs: seq<Option<F>>, k: nat)
    requires |q0| <= QueueSize && k < |grabs| && grabs[k].Some?
    ensures BoundedQueue.Window(q0 + Frames(grabs[..k + 1]), QueueSize)
         == BoundedQueue.Append(BoundedQueue.Window(q0 + Frames(grabs[..k]), QueueSize), grabs[k].value, QueueSize)
  {
    var seen := q0 + Frames(grabs[..k]);
    FramesStep(grabs, k);
    assert q0 + Frames(grabs[..k + 1]) == seen + [grabs[k].value];
    BoundedQueue.WindowAppend(seen, grabs[k].value, QueueSize);
  }

  lemma FramesStep<F>(grabs: seq<Option<F>>, k: nat)
    requires k < |grabs| && grabs[k].Some?
    ensures Frames(grabs[..k + 1]) == Frames(grabs[..k]) + [grabs[k].value]
  {
    assert grabs[..k + 1] == grabs[..k] + [Some(grabs[k].value)];
    FramesSnoc(grabs[..k], grabs[k].value);
  }

  /** The frames of successful grabs, in order. */
  function Frames<F>(grabs: seq<Option<F>>): (fs: seq<F>)
    ensures |fs| <= |grabs|
  {
    if grabs == [] then []
    else Frames(grabs[..|grabs| - 1]) + match grabs[|grabs| - 1] case Some(f) => [f] case None => []
  }

  lemma FramesSnoc<F>(grabs: seq<Option<F>>, f: F)
    ensures Frames(grabs + [Some(f)]) == Frames(grabs) + [f]
  {
    assert (grabs + [Some(f)])[..|grabs|] == grabs;
  }
}
