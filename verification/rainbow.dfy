/**
 The rainbow chase: each sweep walks the three pixel groups `j = i, i+3, ...`
 (i = 0, 1, 2), gives pixel j the hue `j * 360 / N + start_rgb` at full
 saturation and value, flushes, clears, and moves on to the next group. After
 the three groups the 16-bit phase `start_rgb` advances by 60.

 The render loop checks the status only between sweeps, so a sweep is the unit
 of work here; the CIRCLE mask is read once per sweep.
 */
module Rainbow {
  import opened LedTypes
  import opened Strip
  import opened ColorMath

  /** The hue of pixel j: its share of the full circle plus the phase, kept to 16 bits. */
  function Hue(j: nat, n: nat, start: U16): U16
    requires n > 0
  {
    (j * 360 / n + start) % 0x1_0000
  }

  function PixelColor(j: nat, n: nat, start: U16): Rgb
    requires n > 0
  {
    Hsv2Rgb(Hue(j, n, start), 255, 0)
  }

  /** The phase advances by 60 per sweep on a 16-bit counter. */
  function NextStart(start: U16): U16 {
    (start + 60) % 0x1_0000
  }

  /** The indices the inner pixel loop visits from `from` in steps of 3 below
      N, leaving out the masked ones. */
  function GroupIndices(from: nat, n: nat, circle: bool): seq<int>
    decreases n - from
  {
    if from >= n then []
    else (if Skipped(circle, from) then [] else [from]) + GroupIndices(from + 3, n, circle)
  }

  /** An index above `from` in the same residue class mod 3 is at least `from + 3`. */
  lemma NextInClass(from: nat, i: nat)
    requires from < i && i % 3 == from % 3
    ensures from + 3 <= i && i % 3 == (from + 3) % 3
  {
  }

  /** Every index of a group lies in [from, N), is in the residue class of
      `from` mod 3, and is not masked. */
  lemma {:induction false} GroupBounds(from: nat, n: nat, circle: bool)
    ensures forall k :: 0 <= k < |GroupIndices(from, n, circle)| ==>
              from <= GroupIndices(from, n, circle)[k] < n
              && GroupIndices(from, n, circle)[k] % 3 == from % 3
              && !Skipped(circle, GroupIndices(from, n, circle)[k])
    decreases n - from
  {
    if from < n {
      GroupBounds(from + 3, n, circle);
      assert (from + 3) % 3 == from % 3;
    }
  }

  /** A group holds every unmasked index below N in the residue class of `from`, from `from` on. */
  lemma {:induction false} GroupCovers(from: nat, n: nat, circle: bool)
    ensures forall i: nat :: from <= i < n && i % 3 == from % 3 && !Skipped(circle, i) ==>
              i in GroupIndices(from, n, circle)
    decreases n - from
  {
    if from < n {
      var head: seq<int> := if Skipped(circle, from) then [] else [from];
      var rest := GroupIndices(from + 3, n, circle);
      GroupCovers(from + 3, n, circle);
      assert GroupIndices(from, n, circle) == head + rest;
      forall i: nat | from <= i < n && i % 3 == from % 3 && !Skipped(circle, i)
        ensures i in head + rest
      {
        if i != from {
          NextInClass(from, i);
          assert i in rest;
        }
      }
    }
  }

  /** A group is in ascending order. */
  lemma {:induction false} GroupAscending(from: nat, n: nat, circle: bool)
    ensures forall k, k' :: 0 <= k < k' < |GroupIndices(from, n, circle)| ==>
              GroupIndices(from, n, circle)[k] < GroupIndices(from, n, circle)[k']
    decreases n - from
  {
    if from < n {
      GroupAscending(from + 3, n, circle);
      GroupBounds(from + 3, n, circle);
    }
  }

  /** A group is exactly the unmasked indices below N in the residue class of
      `from` mod 3, from `from` on, in ascending order. */
  lemma GroupIndexFacts(from: nat, n: nat, circle: bool)
    ensures forall k :: 0 <= k < |GroupIndices(from, n, circle)| ==>
              from <= GroupIndices(from, n, circle)[k] < n
              && GroupIndices(from, n, circle)[k] % 3 == from % 3
              && !Skipped(circle, GroupIndices(from, n, circle)[k])
    ensures forall i: nat :: from <= i < n && i % 3 == from % 3 && !Skipped(circle, i) ==>
              i in GroupIndices(from, n, circle)
    ensures forall k, k' :: 0 <= k < k' < |GroupIndices(from, n, circle)| ==>
              GroupIndices(from, n, circle)[k] < GroupIndices(from, n, circle)[k']
  {
    GroupBounds(from, n, circle);
    GroupCovers(from, n, circle);
    GroupAscending(from, n, circle);
  }

  /** The `set_pixel` calls of one group, each pixel with its own hue. */
  function Group(from: nat, n: nat, circle: bool, start: U16): (r: seq<StripEvent>)
    requires n > 0
    ensures forall k :: 0 <= k < |r| ==> r[k].SetPixel? && 0 <= r[k].index < n && r[k].color == PixelColor(r[k].index, n, start)
  {
    var ix := GroupIndices(from, n, circle);
    GroupBounds(from, n, circle);
    seq(|ix|, k requires 0 <= k < |ix| => SetPixel(ix[k], PixelColor(ix[k], n, start)))
  }

  /** Every pixel call of `es` is for a pixel below N with that pixel's hue at phase `start`. */
  predicate HuesAt(es: seq<StripEvent>, n: nat, start: U16)
    requires n > 0
  {
    forall k :: 0 <= k < |es| && es[k].SetPixel? ==>
      0 <= es[k].index < n && es[k].color == PixelColor(es[k].index, n, start)
  }

  lemma HuesAtAppend(a: seq<StripEvent>, b: seq<StripEvent>, n: nat, start: U16)
    requires n > 0 && HuesAt(a, n, start) && HuesAt(b, n, start)
    ensures HuesAt(a + b, n, start)
  {
    forall k | 0 <= k < |a + b| && (a + b)[k].SetPixel?
      ensures 0 <= (a + b)[k].index < n && (a + b)[k].color == PixelColor((a + b)[k].index, n, start)
    {
      if k >= |a| {
        assert (a + b)[k] == b[k - |a|];
      } else {
        assert (a + b)[k] == a[k];
      }
    }
  }

  /** One group of a sweep: its pixels, a flush and a clear. */
  function Segment(from: nat, n: nat, circle: bool, start: U16): (r: seq<StripEvent>)
    requires n > 0
    ensures HuesAt(r, n, start)
  {
    var g := Group(from, n, circle, start);
    assert HuesAt(g, n, start);
    assert HuesAt([Refresh, Clear], n, start);
    HuesAtAppend(g, [Refresh, Clear], n, start);
    g + [Refresh, Clear]
  }

  /** One pass of the outer `while`: the three segments. Every pixel it
      writes gets the hue of its position plus the phase. */
  function Sweep(n: nat, circle: bool, start: U16): (r: seq<StripEvent>)
    requires n > 0
    ensures HuesAt(r, n, start)
  {
    var s0, s1, s2 := Segment(0, n, circle, start), Segment(1, n, circle, start), Segment(2, n, circle, start);
    HuesAtAppend(s0, s1, n, start);
    HuesAtAppend(s0 + s1, s2, n, start);
    s0 + s1 + s2
  }

  lemma {:induction false} StrictCount(s: seq<int>, x: int)
    requires forall k, k' :: 0 <= k < k' < |s| ==> s[k] < s[k']
    ensures multiset(s)[x] == if x in s then 1 else 0
    decreases |s|
  {
    if s != [] {
      assert s == [s[0]] + s[1..];
      StrictCount(s[1..], x);
      if x == s[0] {
        assert x !in s[1..];
      }
    }
  }

  /** Each group is a run of `set_pixel` calls whose indices are its group's indices. */
  lemma GroupShape(from: nat, n: nat, circle: bool, start: U16)
    requires n > 0
    ensures CountRefresh(Group(from, n, circle, start)) == 0
    ensures CountClear(Group(from, n, circle, start)) == 0
    ensures Written(Group(from, n, circle, start)) == GroupIndices(from, n, circle)
    ensures circle ==> AvoidsMask(Group(from, n, circle, start))
  {
    var g := Group(from, n, circle, start);
    GroupIndexFacts(from, n, circle);
    NoRefreshOrClear(g);
    WrittenOfPixels(g);
  }

  /** How often pixel x is written by the group starting at `from`. */
  lemma GroupCount(from: nat, n: nat, circle: bool, x: int)
    ensures multiset(GroupIndices(from, n, circle))[x] ==
            if from <= x < n && x % 3 == from % 3 && !Skipped(circle, x) then 1 else 0
  {
    GroupIndexFacts(from, n, circle);
    StrictCount(GroupIndices(from, n, circle), x);
  }

  /** The group starting at residue r < 3 writes x once exactly when x is an unmasked index below N in class r. */
  lemma ClassCount(r: nat, n: nat, circle: bool, x: int)
    requires r < 3
    ensures multiset(GroupIndices(r, n, circle))[x] ==
            if 0 <= x < n && x % 3 == r && !Skipped(circle, x) then 1 else 0
  {
    GroupCount(r, n, circle, x);
    if r == 0 {
    } else if r == 1 {
      assert 1 % 3 == 1;
    } else {
      assert 2 % 3 == 2;
    }
  }

  /** A segment flushes once, clears once, and writes its group's indices. */
  lemma SegmentShape(from: nat, n: nat, circle: bool, start: U16)
    requires n > 0
    ensures CountRefresh(Segment(from, n, circle, start)) == 1
    ensures CountClear(Segment(from, n, circle, start)) == 1
    ensures Written(Segment(from, n, circle, start)) == GroupIndices(from, n, circle)
    ensures circle ==> AvoidsMask(Segment(from, n, circle, start))
  {
    var g := Group(from, n, circle, start);
    var rc: seq<StripEvent> := [Refresh, Clear];
    GroupShape(from, n, circle, start);
    CountsAppend(g, rc);
    WrittenAppend(g, rc);
    assert Written(rc) == [];
    assert CountRefresh(rc) == 1 && CountClear(rc) == 1;
    if circle {
      assert AvoidsMask(rc);
      AvoidsMaskAppend(g, rc);
    }
  }

  lemma SweepCounts(n: nat, circle: bool, start: U16)
    requires n > 0
    ensures CountRefresh(Sweep(n, circle, start)) == 3
    ensures CountClear(Sweep(n, circle, start)) == 3
  {
    var s0, s1, s2 := Segment(0, n, circle, start), Segment(1, n, circle, start), Segment(2, n, circle, start);
    SegmentShape(0, n, circle, start);
    SegmentShape(1, n, circle, start);
    SegmentShape(2, n, circle, start);
    CountsAppend(s0, s1);
    CountsAppend(s0 + s1, s2);
  }

  lemma SweepWritten(n: nat, circle: bool, start: U16)
    requires n > 0
    ensures Written(Sweep(n, circle, start)) ==
            GroupIndices(0, n, circle) + GroupIndices(1, n, circle) + GroupIndices(2, n, circle)
    ensures circle ==> AvoidsMask(Sweep(n, circle, start))
  {
    var s0, s1, s2 := Segment(0, n, circle, start), Segment(1, n, circle, start), Segment(2, n, circle, start);
    SegmentShape(0, n, circle, start);
    SegmentShape(1, n, circle, start);
    SegmentShape(2, n, circle, start);
    WrittenAppend(s0, s1);
    WrittenAppend(s0 + s1, s2);
    if circle {
      AvoidsMaskAppend(s0, s1);
      AvoidsMaskAppend(s0 + s1, s2);
    }
  }

  /** The three residue classes together hold each unmasked index below N once. */
  lemma ThreeGroups(n: nat, circle: bool, x: int)
    ensures multiset(GroupIndices(0, n, circle) + GroupIndices(1, n, circle) + GroupIndices(2, n, circle))[x] ==
            if 0 <= x < n && !Skipped(circle, x) then 1 else 0
  {
    var g0, g1, g2 := GroupIndices(0, n, circle), GroupIndices(1, n, circle), GroupIndices(2, n, circle);
    assert multiset(g0 + g1) == multiset(g0) + multiset(g1);
    assert multiset(g0 + g1 + g2) == multiset(g0 + g1) + multiset(g2);
    ClassCount(0, n, circle, x);
    ClassCount(1, n, circle, x);
    ClassCount(2, n, circle, x);
    assert x % 3 == 0 || x % 3 == 1 || x % 3 == 2;
  }

  /** How often one sweep writes pixel x: once if it is below N and unmasked, otherwise never. */
  lemma SweepWrites(n: nat, circle: bool, start: U16, x: int)
    requires n > 0
    ensures multiset(Written(Sweep(n, circle, start)))[x] ==
            if 0 <= x < n && !Skipped(circle, x) then 1 else 0
  {
    SweepWritten(n, circle, start);
    ThreeGroups(n, circle, x);
  }

  /** One sweep writes every unmasked pixel below N exactly once and never a
      masked one, with three flushes and three clears. */
  lemma SweepCoverage(n: nat, circle: bool, start: U16)
    requires n > 0
    ensures CountRefresh(Sweep(n, circle, start)) == 3
    ensures CountClear(Sweep(n, circle, start)) == 3
    ensures forall x :: multiset(Written(Sweep(n, circle, start)))[x] ==
              if 0 <= x < n && !Skipped(circle, x) then 1 else 0
    ensures circle ==> AvoidsMask(Sweep(n, circle, start))
  {
    SweepCounts(n, circle, start);
    SweepWritten(n, circle, start);
    forall x
      ensures multiset(Written(Sweep(n, circle, start)))[x] ==
              if 0 <= x < n && !Skipped(circle, x) then 1 else 0
    {
      SweepWrites(n, circle, start, x);
    }
  }

  /** The phase after k sweeps, advanced one sweep at a time. */
  function StartAfter(start: U16, k: nat): U16
    decreases k
  {
    if k == 0 then start else StartAfter(NextStart(start), k - 1)
  }

  /** After k sweeps the phase has grown by 60 k, mod 2^16. */
  lemma {:induction false} StartAfterClosedForm(start: U16, k: nat)
    ensures StartAfter(start, k) == (start + 60 * k) % 0x1_0000
    decreases k
  {
    if k > 0 {
      StartAfterClosedForm(NextStart(start), k - 1);
      var m := 0x1_0000;
      var q := (start + 60) / m;
      assert start + 60 == q * m + NextStart(start);
      assert start + 60 * k == NextStart(start) + 60 * (k - 1) + q * m;
    }
  }

  /** A pixel index in the `set_pixel` calls of a trace belongs to one of its calls. */
  lemma {:induction false} WrittenMember(es: seq<StripEvent>, x: int)
    requires x in Written(es)
    ensures exists k :: 0 <= k < |es| && es[k].SetPixel? && es[k].index == x
    decreases |es|
  {
    if es[0].SetPixel? && es[0].index == x {
      assert es[0].SetPixel? && es[0].index == x;
    } else {
      assert x in Written(es[1..]);
      WrittenMember(es[1..], x);
      var k :| 0 <= k < |es[1..]| && es[1..][k].SetPixel? && es[1..][k].index == x;
      assert es[k + 1] == es[1..][k];
    }
  }

  /** One sweep writes every unmasked pixel below N with its hue at the sweep's phase. */
  lemma SweepPaints(n: nat, circle: bool, start: U16, x: nat)
    requires x < n && !Skipped(circle, x)
    ensures SetPixel(x, PixelColor(x, n, start)) in Sweep(n, circle, start)
  {
    var sw := Sweep(n, circle, start);
    SweepWrites(n, circle, start, x);
    assert x in multiset(Written(sw));
    WrittenMember(sw, x);
    var k :| 0 <= k < |sw| && sw[k].SetPixel? && sw[k].index == x;
    assert sw[k] == SetPixel(x, PixelColor(x, n, start));
  }

  datatype Trace = Trace(events: seq<StripEvent>, start: U16)

  predicate AllSet(circles: seq<bool>) {
    forall k :: 0 <= k < |circles| ==> circles[k]
  }

  /** The effect run for one sweep per status check that saw ON; `circles`
      holds the mask flag read in each sweep. Each sweep flushes three times
      and clears three times and moves the phase on by one step. */
  function Run(n: nat, circles: seq<bool>, start: U16): (t: Trace)
    requires n > 0
    ensures t.start == StartAfter(start, |circles|)
    ensures CountRefresh(t.events) == 3 * |circles|
    ensures CountClear(t.events) == 3 * |circles|
    ensures AllSet(circles) ==> AvoidsMask(t.events)
  {
    if circles == [] then Trace([], start)
    else
      var sweep := Sweep(n, circles[0], start);
      var rest := Run(n, circles[1..], NextStart(start));
      SweepCounts(n, circles[0], start);
      SweepWritten(n, circles[0], start);
      CountsAppend(sweep, rest.events);
      if AllSet(circles) then
        assert circles[0] && AllSet(circles[1..]);
        AvoidsMaskAppend(sweep, rest.events);
        Trace(sweep + rest.events, rest.start)
      else
        Trace(sweep + rest.events, rest.start)
  }

  /** Sweep i of a run writes every pixel below N that its mask flag leaves
      unmasked, with the pixel's hue at the phase after i sweeps. */
  lemma {:induction false} RunPaints(n: nat, circles: seq<bool>, start: U16, i: nat, x: nat)
    requires n > 0 && i < |circles| && x < n && !Skipped(circles[i], x)
    ensures SetPixel(x, PixelColor(x, n, StartAfter(start, i))) in Run(n, circles, start).events
    decreases i
  {
    var sweep := Sweep(n, circles[0], start);
    var rest := Run(n, circles[1..], NextStart(start));
    assert Run(n, circles, start).events == sweep + rest.events;
    if i == 0 {
      SweepPaints(n, circles[0], start, x);
    } else {
      assert circles[1..][i - 1] == circles[i];
      RunPaints(n, circles[1..], NextStart(start), i - 1, x);
    }
  }
}
