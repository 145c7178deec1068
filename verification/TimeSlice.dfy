/** The exponentially weighted average of the pool's time slices, over the reals. */
module TimeSlice {
  import opened Prelude

  const WEIGHT := 0.3
  const MIN_TIME_DIFF := 0.1
  const U32_RANGE: nat := 0x1_0000_0000

  /** What one update reads from the histograms: total seconds and number of samples. */
  datatype Sample = Sample(sum: real, count: nat)

  /** An accepted window: the time and the samples since the previous one. */
  datatype Window = Window(time: real, count: nat) {
    /** The divisor is the count cast to 32 bits; a zero divisor is a panic. */
    predicate Divisible() { count % U32_RANGE != 0 }

    function Average(): real
      requires Divisible()
    {
      time / (count % U32_RANGE) as real
    }
  }

  /** `poisoned` once an update has panicked: the mutex it held refuses every later one. */
  datatype Inspector = Inspector(ewma: real, mirror: real, lastSum: real, lastCount: nat, poisoned: bool)

  const Initial := Inspector(0.0, 0.0, 0.0, 0, false)

  function SaturatingSub(a: real, b: real): real { if a > b then a - b else 0.0 }

  /** The window that a sample closes, if it is long enough and holds any samples. */
  function WindowOf(i: Inspector, s: Sample): Option<Window> {
    var time := SaturatingSub(s.sum, i.lastSum);
    var count := if s.count > i.lastCount then s.count - i.lastCount else 0;
    if time < MIN_TIME_DIFF || count == 0 then None else Some(Window(time, count))
  }

  function Blend(average: real, ewma: real): real { average * WEIGHT + ewma * (1.0 - WEIGHT) }

  function Updated(i: Inspector, s: Sample): Inspector {
    if i.poisoned then i
    else match WindowOf(i, s)
      case None => i
      case Some(w) =>
        if !w.Divisible() then i.(poisoned := true)
        else var e := Blend(w.Average(), i.ewma); Inspector(e, e, s.sum, s.count, false)
  }

  function AfterRun(i: Inspector, samples: seq<Sample>): Inspector
    decreases |samples|
  {
    if samples == [] then i else AfterRun(Updated(i, samples[0]), samples[1..])
  }

  /** The windows a run accepts, in order. */
  function Windows(i: Inspector, samples: seq<Sample>): seq<Window>
    decreases |samples|
  {
    if samples == [] then []
    else
      var w := WindowOf(i, samples[0]);
      (if !i.poisoned && w.Some? && w.value.Divisible() then [w.value] else [])
      + Windows(Updated(i, samples[0]), samples[1..])
  }

  function TotalTime(ws: seq<Window>): real { if ws == [] then 0.0 else ws[0].time + TotalTime(ws[1..]) }

  function TotalCount(ws: seq<Window>): nat { if ws == [] then 0 else ws[0].count + TotalCount(ws[1..]) }

  /** The reference: fold the windows' averages, oldest first. */
  function Ewma(start: real, ws: seq<Window>): real
    requires forall w | w in ws :: w.Divisible()
    decreases |ws|
  {
    if ws == [] then start else Ewma(Blend(ws[0].Average(), start), ws[1..])
  }

  /** Over every run, panics included: the mirror is the average, the average is that of the accepted
      windows, and these partition the histogram's time and samples up to the last of them with nothing
      lost or counted twice. */
  lemma {:induction false} WindowsPartitionTheHistogram(i: Inspector, samples: seq<Sample>)
    requires i.mirror == i.ewma
    ensures var ws, e := Windows(i, samples), AfterRun(i, samples);
      && (forall w | w in ws :: w.Divisible() && w.time >= 0.1 && w.count > 0)
      && e.mirror == e.ewma == Ewma(i.ewma, ws)
      && e.lastSum == i.lastSum + TotalTime(ws)
      && e.lastCount == i.lastCount + TotalCount(ws)
    decreases |samples|
  {
    if samples != [] {
      var i' := Updated(i, samples[0]);
      WindowsPartitionTheHistogram(i', samples[1..]);
      var rest := Windows(i', samples[1..]);
      var w := WindowOf(i, samples[0]);
      if !i.poisoned && w.Some? && w.value.Divisible() {
        assert ([w.value] + rest)[1..] == rest;
      } else {
        assert [] + rest == rest;
      }
    }
  }

  /** No window is passed over: what an update leaves behind is less than a tenth of a second or holds no
      sample. What it takes is all that the histogram gained. */
  lemma UpdateTakesTheWindow(i: Inspector, s: Sample)
    requires !i.poisoned
    ensures var e := Updated(i, s);
      && (!e.poisoned ==> s.sum - e.lastSum < 0.1 || s.count <= e.lastCount)
      && (e.poisoned <==>
            s.sum - i.lastSum >= 0.1 && s.count > i.lastCount && (s.count - i.lastCount) % 0x1_0000_0000 == 0)
      && (e == i || e.poisoned || (e.lastSum == s.sum && e.lastCount == s.count))
      && (s.sum - i.lastSum < 0.1 || s.count <= i.lastCount ==> e == i)
  {
  }

  /** While the histogram holds fewer samples than fit in 32 bits, no update panics. */
  lemma {:induction false} SmallHistogramsNeverPanic(i: Inspector, samples: seq<Sample>)
    requires !i.poisoned && forall s | s in samples :: s.count < U32_RANGE
    ensures !AfterRun(i, samples).poisoned
    ensures forall w | w in Windows(i, samples) :: w.count < U32_RANGE
    decreases |samples|
  {
    if samples != [] {
      assert samples[0] in samples && forall s | s in samples[1..] :: s in samples;
      var w := WindowOf(i, samples[0]);
      assert w.Some? ==> 0 < w.value.count < U32_RANGE;
      SmallHistogramsNeverPanic(Updated(i, samples[0]), samples[1..]);
    }
  }

  /** The average stays between zero and any bound on the windows' averages. */
  lemma {:induction false} EwmaIsBounded(start: real, ws: seq<Window>, bound: real)
    requires forall w | w in ws :: w.Divisible() && w.time >= 0.0 && w.Average() <= bound
    requires 0.0 <= start <= bound
    ensures 0.0 <= Ewma(start, ws) <= bound
    decreases |ws|
  {
    if ws != [] {
      var w := ws[0];
      assert w in ws && 0.0 <= w.Average() <= bound;
      assert forall x | x in ws[1..] :: x in ws;
      hide Window.Average;
      EwmaIsBounded(Blend(w.Average(), start), ws[1..], bound);
    }
  }

  function Pow(x: real, n: nat): real { if n == 0 then 1.0 else x * Pow(x, n - 1) }

  /** Windows of equal average close in on it geometrically; from zero, `n` of them give
      `a * (1 - 0.7^n)`. */
  lemma {:induction false} EqualWindowsConverge(start: real, ws: seq<Window>, a: real)
    requires forall w | w in ws :: w.Divisible() && w.Average() == a
    ensures a - Ewma(start, ws) == (a - start) * Pow(0.7, |ws|)
    decreases |ws|
  {
    if ws != [] {
      assert ws[0] in ws && ws[0].Average() == a;
      assert forall x | x in ws[1..] :: x in ws;
      EqualWindowsConverge(Blend(a, start), ws[1..], a);
      hide Window.Average;
      var r := Pow(1.0 - WEIGHT, |ws| - 1);
      assert a - Blend(a, start) == (a - start) * (1.0 - WEIGHT);
      assert (a - start) * (1.0 - WEIGHT) * r == (a - start) * ((1.0 - WEIGHT) * r);
    }
  }

  /** The divisor's 32-bit cast: a window yields its true average if and only if its samples fit.
      Otherwise the update panics or takes a wrong average. */
  lemma CastIsExact(w: Window)
    requires w.count > 0 && w.time > 0.0
    ensures w.Divisible() && w.Average() == w.time / w.count as real <==> w.count < U32_RANGE
  {
    var d := w.count % U32_RANGE;
    if w.Divisible() {
      assert w.time / d as real * d as real == w.time;
      assert w.time / w.count as real * w.count as real == w.time;
      if w.Average() == w.time / w.count as real {
        assert w.Average() * d as real == w.Average() * w.count as real;
        assert w.Average() > 0.0;
        assert d as real == w.count as real;
      }
    }
  }

  /** Both failures: a second's worth of 2^32 + 1 samples averages to a second, and of 2^32 samples
      panics, and so does every later update. */
  lemma LargeWindowsGoWrong(later: seq<Sample>)
    ensures Updated(Initial, Sample(1.0, U32_RANGE + 1)).ewma == WEIGHT
    ensures AfterRun(Updated(Initial, Sample(1.0, U32_RANGE)), later) == Initial.(poisoned := true)
  {
    assert Window(1.0, U32_RANGE + 1).Average() == 1.0;
    PoisonStays(Initial.(poisoned := true), later);
  }

  lemma {:induction false} PoisonStays(i: Inspector, samples: seq<Sample>)
    requires i.poisoned
    ensures AfterRun(i, samples) == i
    decreases |samples|
  {
    if samples != [] {
      PoisonStays(i, samples[1..]);
    }
  }

  class TimeSliceInspector {
    var atomicEwma: real
    var ewma: real
    var lastSum: real
    var lastCount: nat
    var poisoned: bool

    ghost function View(): Inspector
      reads this
    {
      Inspector(ewma, atomicEwma, lastSum, lastCount, poisoned)
    }

    constructor ()
      ensures View() == Initial
    {
      atomicEwma, ewma, lastSum, lastCount, poisoned := 0.0, 0.0, 0.0, 0, false;
    }

    /** The samples of all levels are merged before the window is judged. */
    method Update(levels: seq<Sample>) returns (panicked: bool)
      modifies this
      ensures View() == Updated(old(View()), Merged(levels)) && panicked == poisoned
    {
      if poisoned {
        return true;
      }
      var sum, count: nat := 0.0, 0;
      for i := 0 to |levels|
        invariant Sample(sum, count) == Merged(levels[..i])
      {
        assert levels[..i + 1][..i] == levels[..i];
        sum, count := sum + levels[i].sum, count + levels[i].count;
      }
      assert levels[..|levels|] == levels;
      var time := SaturatingSub(sum, lastSum);
      var samples := if count > lastCount then count - lastCount else 0;
      if time < MIN_TIME_DIFF || samples == 0 {
        return false;
      }
      if samples % U32_RANGE == 0 {
        poisoned := true;
        return true;
      }
      var average := time / (samples % U32_RANGE) as real;
      ewma := average * WEIGHT + ewma * (1.0 - WEIGHT);
      lastSum, lastCount := sum, count;
      atomicEwma := ewma;
      return false;
    }
  }

  function Merged(levels: seq<Sample>): Sample {
    if levels == [] then Sample(0.0, 0)
    else
      var rest, last := Merged(levels[..|levels| - 1]), levels[|levels| - 1];
      Sample(rest.sum + last.sum, rest.count + last.count)
  }

  /** Every level counts once: merging is additive, and one level is itself. */
  lemma {:induction false} MergedIsTotal(a: seq<Sample>, b: seq<Sample>, one: Sample)
    ensures Merged([one]) == one
    ensures Merged(a + b) == Sample(Merged(a).sum + Merged(b).sum, Merged(a).count + Merged(b).count)
    decreases |b|
  {
    assert [one][..0] == [];
    if b == [] {
      assert a + b == a;
    } else {
      assert (a + b)[..|a + b| - 1] == a + b[..|b| - 1];
      MergedIsTotal(a, b[..|b| - 1], one);
    }
  }
}
