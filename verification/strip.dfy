/**
 The strip driver as the engine sees it: a trace of `set_pixel`, `refresh` and
 `clear` calls. The engine only ever writes forward, so a trace is all there is
 to observe. Driver failures abort the process and are not modelled.
 */
module Strip {
  import opened LedTypes

  datatype StripEvent = SetPixel(index: int, color: Rgb) | Refresh | Clear

  /** The corner pixels left dark while the CIRCLE mask is on. */
  const Masked: set<int> := {0, 2, 14, 16}

  predicate Skipped(circle: bool, i: int) {
    circle && i in Masked
  }

  /** The pixel loop from `lo` up to N: every pixel gets colour c, except the
      masked ones while the mask is on. */
  function PaintFrom(lo: nat, n: nat, circle: bool, c: Rgb): (r: seq<StripEvent>)
    decreases n - lo
    ensures forall k :: 0 <= k < |r| ==>
              r[k].SetPixel? && r[k].color == c && lo <= r[k].index < n && !Skipped(circle, r[k].index)
    ensures forall i :: lo <= i < n && !Skipped(circle, i) ==> SetPixel(i, c) in r
    ensures forall k, k' :: 0 <= k < k' < |r| ==> r[k].index < r[k'].index
  {
    if lo >= n then []
    else (if Skipped(circle, lo) then [] else [SetPixel(lo, c)]) + PaintFrom(lo + 1, n, circle, c)
  }

  /** One full pass over the strip with a single colour. */
  function Paint(n: nat, circle: bool, c: Rgb): seq<StripEvent> {
    PaintFrom(0, n, circle, c)
  }

  function CountRefresh(es: seq<StripEvent>): nat {
    if es == [] then 0 else (if es[0].Refresh? then 1 else 0) + CountRefresh(es[1..])
  }

  function CountClear(es: seq<StripEvent>): nat {
    if es == [] then 0 else (if es[0].Clear? then 1 else 0) + CountClear(es[1..])
  }

  /** The indices passed to `set_pixel`, in call order. */
  function Written(es: seq<StripEvent>): seq<int> {
    if es == [] then []
    else if es[0].SetPixel? then [es[0].index] + Written(es[1..])
    else Written(es[1..])
  }

  /** No `set_pixel` call in the trace touches a masked index. */
  predicate AvoidsMask(es: seq<StripEvent>) {
    forall k :: 0 <= k < |es| && es[k].SetPixel? ==> es[k].index !in Masked
  }

  lemma {:induction false} CountsAppend(a: seq<StripEvent>, b: seq<StripEvent>)
    ensures CountRefresh(a + b) == CountRefresh(a) + CountRefresh(b)
    ensures CountClear(a + b) == CountClear(a) + CountClear(b)
    decreases |a|
  {
    if a == [] {
      assert a + b == b;
    } else {
      assert (a + b)[1..] == a[1..] + b;
      CountsAppend(a[1..], b);
    }
  }

  lemma {:induction false} WrittenAppend(a: seq<StripEvent>, b: seq<StripEvent>)
    ensures Written(a + b) == Written(a) + Written(b)
    decreases |a|
  {
    if a == [] {
      assert a + b == b;
    } else {
      assert (a + b)[1..] == a[1..] + b;
      assert (a + b)[0] == a[0];
      WrittenAppend(a[1..], b);
    }
  }

  /** A pixel pass makes no refresh or clear call, and with the mask on it never writes a masked pixel. */
  lemma PaintShape(n: nat, circle: bool, c: Rgb)
    ensures CountRefresh(Paint(n, circle, c)) == 0
    ensures CountClear(Paint(n, circle, c)) == 0
    ensures circle ==> AvoidsMask(Paint(n, circle, c))
  {
    NoRefreshOrClear(Paint(n, circle, c));
  }

  lemma {:induction false} NoRefreshOrClear(es: seq<StripEvent>)
    requires forall k :: 0 <= k < |es| ==> es[k].SetPixel?
    ensures CountRefresh(es) == 0 && CountClear(es) == 0
    decreases |es|
  {
    if es != [] {
      NoRefreshOrClear(es[1..]);
    }
  }

  /** With every call a `set_pixel`, the written indices are the events' indices in order. */
  lemma {:induction false} WrittenOfPixels(es: seq<StripEvent>)
    requires forall k :: 0 <= k < |es| ==> es[k].SetPixel?
    ensures |Written(es)| == |es|
    ensures forall k :: 0 <= k < |es| ==> Written(es)[k] == es[k].index
    decreases |es|
  {
    if es != [] {
      WrittenOfPixels(es[1..]);
    }
  }

  lemma AvoidsMaskAppend(a: seq<StripEvent>, b: seq<StripEvent>)
    requires AvoidsMask(a) && AvoidsMask(b)
    ensures AvoidsMask(a + b)
  {
    forall k | 0 <= k < |a + b| && (a + b)[k].SetPixel?
      ensures (a + b)[k].index !in Masked
    {
      if k >= |a| {
        assert (a + b)[k] == b[k - |a|];
      }
    }
  }

  // ---------------------------------------------------------------------------
  // Frames
  // ---------------------------------------------------------------------------

  /** One frame of a full-strip effect: every pixel (bar the masked ones when
      `circle` is set) gets `color`, then the buffer is flushed. */
  datatype Frame = Frame(circle: bool, color: Rgb)

  function FrameEvents(n: nat, f: Frame): seq<StripEvent> {
    Paint(n, f.circle, f.color) + [Refresh]
  }

  /** A frame flushes once, never clears, and drawn with the mask on leaves the masked pixels alone. */
  lemma FrameShape(n: nat, f: Frame)
    ensures CountRefresh(FrameEvents(n, f)) == 1 && CountClear(FrameEvents(n, f)) == 0
    ensures f.circle ==> AvoidsMask(FrameEvents(n, f))
  {
    var pass := Paint(n, f.circle, f.color);
    PaintShape(n, f.circle, f.color);
    CountsAppend(pass, [Refresh]);
    assert AvoidsMask([Refresh]);
    if f.circle {
      AvoidsMaskAppend(pass, [Refresh]);
    }
  }

  predicate AllMasked(fs: seq<Frame>) {
    forall k :: 0 <= k < |fs| ==> fs[k].circle
  }

  /** The strip calls of a run of frames, in order. Each frame flushes exactly
      once, nothing is cleared, and frames drawn with the mask on keep the
      masked pixels untouched. */
  function Render(n: nat, fs: seq<Frame>): (r: seq<StripEvent>)
    ensures CountRefresh(r) == |fs| && CountClear(r) == 0
    ensures AllMasked(fs) ==> AvoidsMask(r)
  {
    if fs == [] then []
    else
      var head := FrameEvents(n, fs[0]);
      var rest := Render(n, fs[1..]);
      FrameShape(n, fs[0]);
      CountsAppend(head, rest);
      if AllMasked(fs) then
        assert fs[0].circle && AllMasked(fs[1..]);
        AvoidsMaskAppend(head, rest);
        head + rest
      else
        head + rest
  }

  /** Frame j of a run writes every pixel below N it does not skip with its colour. */
  lemma {:induction false} RenderHasFrame(n: nat, fs: seq<Frame>, j: nat, i: nat)
    requires j < |fs| && i < n && !Skipped(fs[j].circle, i)
    ensures SetPixel(i, fs[j].color) in Render(n, fs)
    decreases j
  {
    var head := FrameEvents(n, fs[0]);
    assert Render(n, fs) == head + Render(n, fs[1..]);
    if j == 0 {
      assert SetPixel(i, fs[0].color) in Paint(n, fs[0].circle, fs[0].color);
      assert SetPixel(i, fs[0].color) in head;
    } else {
      assert fs[1..][j - 1] == fs[j];
      RenderHasFrame(n, fs[1..], j - 1, i);
    }
  }

  /** Rendering one more frame appends that frame's calls. */
  lemma {:induction false} RenderAppend(n: nat, fs: seq<Frame>, f: Frame)
    ensures Render(n, fs + [f]) == Render(n, fs) + FrameEvents(n, f)
    decreases |fs|
  {
    if fs == [] {
      assert [f][1..] == [];
      assert Render(n, [f]) == FrameEvents(n, f) + Render(n, []);
    } else {
      assert (fs + [f])[0] == fs[0];
      assert (fs + [f])[1..] == fs[1..] + [f];
      RenderAppend(n, fs[1..], f);
    }
  }
}
