/** The client's `Debouncer` (MainActivity.kt): `submit` cancels the pending job and
    launches a new one that waits `delayMs` and then runs its block. Submissions are
    numbered 0, 1, ... in the order they are made; `ts[k]` is the time of submission `k`.
    A job whose due time has been reached when the next submission arrives has already
    started and is not cancelled. */
module Debounce {
  import opened Wrappers

  const ColorDelay: nat := 120
  const LocalBrightnessDelay: nat := 80
  const GlobalBrightnessDelay: nat := 80

  /** The launched job (its submission number and due time), and the submissions whose
      blocks have started, in order. */
  datatype Debouncer = Debouncer(pending: Option<(nat, int)>, ran: seq<nat>)

  const Idle := Debouncer(None, [])

  /** `submit` of submission `id` at time `t`: a pending job that is already due has run,
      one that is not is cancelled; the new job is due `delay` later. */
  function Submit(d: Debouncer, id: nat, t: int, delay: nat): (r: Debouncer)
    ensures r.pending == Some((id, t + delay))
    ensures d.pending.Some? && d.pending.value.1 <= t ==> r.ran == d.ran + [d.pending.value.0]
    ensures !(d.pending.Some? && d.pending.value.1 <= t) ==> r.ran == d.ran
  {
    var ran := if d.pending.Some? && d.pending.value.1 <= t then d.ran + [d.pending.value.0] else d.ran;
    Debouncer(Some((id, t + delay)), ran)
  }

  /** Everything that has run once time has moved past every due time. */
  function Settle(d: Debouncer): (r: seq<nat>)
    ensures d.pending.None? ==> r == d.ran
    ensures d.pending.Some? ==> r == d.ran + [d.pending.value.0]
  {
    match d.pending
    case None => d.ran
    case Some(job) => d.ran + [job.0]
  }

  /** The debouncer after the first `k` submissions. */
  function Feed(ts: seq<int>, delay: nat, k: nat): Debouncer
    requires k <= |ts|
  {
    if k == 0 then Idle else Submit(Feed(ts, delay, k - 1), k - 1, ts[k - 1], delay)
  }

  /** The submissions whose blocks run, once all of `ts` has been submitted and
      settled. */
  function Ran(ts: seq<int>, delay: nat): seq<nat>
  {
    Settle(Feed(ts, delay, |ts|))
  }

  // ---------------------------------------------------------------- the closed form

  /** Submission `i` runs when it is the last one or the next one comes at least `delay`
      after it. */
  predicate Runs(ts: seq<int>, delay: nat, i: nat)
    requires i < |ts|
  {
    i == |ts| - 1 || ts[i] + delay <= ts[i + 1]
  }

  /** The submissions below `m` (each with a successor) that run. */
  function RunsBelow(ts: seq<int>, delay: nat, m: nat): (r: seq<nat>)
    requires m < |ts|
    ensures forall i: nat :: i in r <==> i < m && Runs(ts, delay, i)
    ensures forall a, b :: 0 <= a < b < |r| ==> r[a] < r[b]
    ensures (forall i: nat :: i < m ==> !Runs(ts, delay, i)) ==> r == []
  {
    if m == 0 then []
    else
      var prev := RunsBelow(ts, delay, m - 1);
      assert forall a :: 0 <= a < |prev| ==> prev[a] in prev;
      if ts[m - 1] + delay <= ts[m] then assert Runs(ts, delay, m - 1); prev + [m - 1] else prev
  }

  /** After `k >= 1` submissions the last one is pending and the earlier ones that
      run have run. */
  lemma {:induction false} FeedState(ts: seq<int>, delay: nat, k: nat)
    requires 1 <= k <= |ts|
    ensures Feed(ts, delay, k).pending == Some((k - 1, ts[k - 1] + delay))
    ensures Feed(ts, delay, k).ran == RunsBelow(ts, delay, k - 1)
  {
    if k > 1 {
      FeedState(ts, delay, k - 1);
    }
  }

  /** Submission `i` runs exactly when `Runs` says so; the runs are in submission
      order with no repeats, and the last submission always runs. */
  lemma RanIsRuns(ts: seq<int>, delay: nat)
    requires |ts| > 0
    ensures forall i: nat :: i in Ran(ts, delay) <==> i < |ts| && Runs(ts, delay, i)
    ensures forall a, b :: 0 <= a < b < |Ran(ts, delay)| ==> Ran(ts, delay)[a] < Ran(ts, delay)[b]
    ensures Ran(ts, delay)[|Ran(ts, delay)| - 1] == |ts| - 1
  {
    FeedState(ts, delay, |ts|);
    var below := RunsBelow(ts, delay, |ts| - 1);
    var r := Ran(ts, delay);
    assert r == below + [|ts| - 1];
    forall i: nat ensures i in r <==> i < |ts| && Runs(ts, delay, i) {
      assert i in r <==> i in below || i == |ts| - 1;
    }
    forall a, b | 0 <= a < b < |r| ensures r[a] < r[b] {
      if b == |below| {
        assert r[a] == below[a] && below[a] in below;
      }
    }
  }

  /** With submission times in order, a submission runs exactly when no later one comes
      within `delay` of it. */
  lemma RunsIffQuiet(ts: seq<int>, delay: nat, i: nat)
    requires forall a, b :: 0 <= a <= b < |ts| ==> ts[a] <= ts[b]
    requires i < |ts|
    ensures Runs(ts, delay, i) <==> forall j :: i < j < |ts| ==> ts[i] + delay <= ts[j]
  {
  }

  /** A burst whose gaps are all shorter than `delay` runs only its last block. */
  lemma BurstRunsLast(ts: seq<int>, delay: nat)
    requires |ts| > 0
    requires forall k :: 0 <= k < |ts| - 1 ==> ts[k + 1] - ts[k] < delay
    ensures Ran(ts, delay) == [|ts| - 1]
  {
    FeedState(ts, delay, |ts|);
  }

  /** With the screen's 120 ms colour delay, a wheel drag whose reports come less than
      120 ms apart sends only the colour of its last report. */
  lemma WheelDragSendsLast(ts: seq<int>)
    requires |ts| > 0
    requires forall k :: 0 <= k < |ts| - 1 ==> ts[k + 1] - ts[k] < ColorDelay
    ensures Ran(ts, ColorDelay) == [|ts| - 1]
  {
    BurstRunsLast(ts, ColorDelay);
  }

  /** With the sliders' 80 ms delays, slider moves at least 80 ms apart each send their
      value. */
  lemma SpacedSlidesAllRun(ts: seq<int>)
    requires forall a, b :: 0 <= a < b < |ts| ==> ts[a] + LocalBrightnessDelay <= ts[b]
    ensures forall i :: 0 <= i < |ts| ==> Runs(ts, LocalBrightnessDelay, i)
    ensures forall i :: 0 <= i < |ts| ==> Runs(ts, GlobalBrightnessDelay, i)
  {
    forall i | 0 <= i < |ts|
      ensures Runs(ts, LocalBrightnessDelay, i) && Runs(ts, GlobalBrightnessDelay, i)
    {
      RunsIffQuiet(ts, LocalBrightnessDelay, i);
      RunsIffQuiet(ts, GlobalBrightnessDelay, i);
    }
  }
}
