/**
 * Bounded first-in-first-out buffers that make room by dropping their
 * oldest element: `collections.deque(maxlen=n).append` in run.py, and the
 * producer step of detection/video_stream.py once a full queue has lost its
 * head.
 */
module BoundedQueue {

  /** The last `cap` elements of `s`, in order (all of `s` when it is shorter). */
  function Window<T>(s: seq<T>, cap: nat): (r: seq<T>)
    ensures |r| == if |s| < cap then |s| else cap
    ensures r == s[|s| - |r|..]
  {
    if |s| <= cap then s else s[|s| - cap..]
  }

  /**
   * Appending to a full buffer first drops the head. The result is always
   * the newest `cap` elements of the history, newest last.
   */
  function Append<T>(q: seq<T>, x: T, cap: nat): (r: seq<T>)
    requires 0 < cap && |q| <= cap
    ensures 0 < |r| <= cap && r[|r| - 1] == x
    ensures r == Window(q + [x], cap)
  {
    if |q| == cap then q[1..] + [x] else q + [x]
  }

  /** Appending the elements of `xs` one after another. */
  function AppendAll<T>(q: seq<T>, xs: seq<T>, cap: nat): (r: seq<T>)
    requires 0 < cap && |q| <= cap
    ensures |r| <= cap
    decreases |xs|
  {
    if xs == [] then q else AppendAll(Append(q, xs[0], cap), xs[1..], cap)
  }

  /** Taking the window of a window after one more element loses nothing. */
  lemma WindowAppend<T>(s: seq<T>, x: T, cap: nat)
    requires 0 < cap
    ensures Window(Window(s, cap) + [x], cap) == Window(s + [x], cap)
  {
    var w := Window(s, cap);
    if |s| > cap {
      assert w + [x] == (s + [x])[|s| - cap..];
      assert Window(w + [x], cap) == (s + [x])[|s| + 1 - cap..];
    }
  }

  /**
   * However many elements are pushed, the buffer holds exactly the most
   * recent `cap` of everything it has seen, in arrival order.
   */
  lemma {:induction false} AppendAllIsWindow<T>(q: seq<T>, xs: seq<T>, cap: nat)
    requires 0 < cap && |q| <= cap
    ensures AppendAll(q, xs, cap) == Window(q + xs, cap)
    decreases |xs|
  {
    if xs == [] {
      assert q + xs == q;
    } else {
      var s := q + [xs[0]];
      var q' := Append(q, xs[0], cap);
      calc {
        AppendAll(q, xs, cap);
        AppendAll(q', xs[1..], cap);
        { AppendAllIsWindow(q', xs[1..], cap); }
        Window(q' + xs[1..], cap);
        { assert q' == Window(s, cap); }
        Window(Window(s, cap) + xs[1..], cap);
        { WindowSuffix(s, xs[1..], cap); }
        Window(s + xs[1..], cap);
        { assert s + xs[1..] == q + xs; }
        Window(q + xs, cap);
      }
    }
  }

  /** Window of (window of s) + t is the window of s + t. */
  lemma WindowSuffix<T>(s: seq<T>, t: seq<T>, cap: nat)
    requires 0 < cap
    ensures Window(Window(s, cap) + t, cap) == Window(s + t, cap)
  {
    if |s| > cap {
      var u := s + t;
      var w := Window(s, cap);
      assert w + t == u[|s| - cap..];
      assert Window(w + t, cap) == (w + t)[|t|..];
      assert (w + t)[|t|..] == u[|u| - cap..];
    } else {
      assert Window(s, cap) == s;
    }
  }
}
