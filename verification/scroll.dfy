/**
 * The scroll-until-stable loop (`scrollDown`): read the page's content height,
 * stop once it equals the previous reading, otherwise scroll to the bottom and
 * wait for lazy content to render, at most `scrollCount` times.
 *
 * The page is replaced by a height oracle and the browser calls by a trace.
 */
module Scroll {

  /** Milliseconds waited after each scroll. */
  const SettleMs: nat := 1000

  /** What the loop does to the page, in order. */
  datatype Event =
    | Measure(height: int)   // one `document.body.scrollHeight` reading
    | ScrollToBottom         // one `window.scrollTo(0, scrollHeight)`
    | Wait(ms: nat)          // one `waitForTimeout(ms)`

  datatype EventKind = MeasureKind | ScrollKind | WaitKind

  function KindOf(e: Event): EventKind {
    match e
    case Measure(_) => MeasureKind
    case ScrollToBottom => ScrollKind
    case Wait(_) => WaitKind
  }

  /** The page as the loop sees it: `heights(j)` is the j-th height reading
      (the loop reads exactly once per iteration, so j is also the iteration). */
  type HeightOracle = nat -> int

  /** How many iterations `for (i = 0; i < scrollCount; i++)` allows. */
  function IterationBudget(scrollCount: int): nat {
    if scrollCount < 0 then 0 else scrollCount
  }

  /** `previousHeight` when iteration j reads the page, provided every earlier
      iteration went on: 0 at the start, else the reading just before. */
  function PreviousHeight(heights: HeightOracle, j: nat): int {
    if j == 0 then 0 else heights(j - 1)
  }

  /** Iteration j finds the height unchanged, so the loop breaks there. */
  predicate Settled(heights: HeightOracle, j: nat) {
    heights(j) == PreviousHeight(heights, j)
  }

  /** The stopping rule: `scrolls` iterations scroll, and the loop ends at the
      first settled reading, or when the budget is used up. */
  predicate StopsAfter(heights: HeightOracle, scrollCount: int, scrolls: nat) {
    && scrolls <= IterationBudget(scrollCount)
    && (forall j: nat :: j < scrolls ==> !Settled(heights, j))
    && (scrolls < scrollCount ==> Settled(heights, scrolls))
  }

  /** Event k of the trace while every iteration scrolls: iteration k / 3
      contributes a reading, a scroll and a wait, in that order. */
  function ExpectedEvent(heights: HeightOracle, k: nat): Event {
    if k % 3 == 0 then Measure(heights(k / 3))
    else if k % 3 == 1 then ScrollToBottom
    else Wait(SettleMs)
  }

  /** The trace of a run with `scrolls` scrolling iterations: their events,
      then, if the loop broke early, the one reading that found the height settled. */
  predicate TraceOf(heights: HeightOracle, scrollCount: int, scrolls: nat, trace: seq<Event>) {
    var broke := scrolls < scrollCount;
    && |trace| == 3 * scrolls + (if broke then 1 else 0)
    && (forall k :: 0 <= k < 3 * scrolls ==> trace[k] == ExpectedEvent(heights, k))
    && (broke ==> trace[3 * scrolls] == Measure(heights(scrolls)))
  }

  /** Number of events of one kind in a trace. */
  function Occurrences(trace: seq<Event>, kind: EventKind): nat {
    if |trace| == 0 then 0
    else (if KindOf(trace[0]) == kind then 1 else 0) + Occurrences(trace[1..], kind)
  }

  function Scrolls(trace: seq<Event>): nat {
    Occurrences(trace, ScrollKind)
  }

  function Measurements(trace: seq<Event>): nat {
    Occurrences(trace, MeasureKind)
  }

  function Waits(trace: seq<Event>): nat {
    Occurrences(trace, WaitKind)
  }

  /** Counting distributes over concatenation. */
  lemma {:induction false} OccurrencesAppend(a: seq<Event>, b: seq<Event>, kind: EventKind)
    ensures Occurrences(a + b, kind) == Occurrences(a, kind) + Occurrences(b, kind)
  {
    if |a| > 0 {
      assert (a + b)[1..] == a[1..] + b;
      OccurrencesAppend(a[1..], b, kind);
    } else {
      assert a + b == b;
    }
  }

  /** A reading that finds the height settled adds one reading and nothing else. */
  lemma ReadingOccurrences(height: int, kind: EventKind)
    ensures Occurrences([Measure(height)], kind) == if kind == MeasureKind then 1 else 0
  {
  }

  /** An iteration that goes on contributes one event of each kind. */
  lemma IterationOccurrences(height: int, kind: EventKind)
    ensures Occurrences([Measure(height), ScrollToBottom, Wait(SettleMs)], kind) == 1
  {
    var step := [Measure(height), ScrollToBottom, Wait(SettleMs)];
    assert step[1..] == [ScrollToBottom, Wait(SettleMs)];
    assert step[1..][1..] == [Wait(SettleMs)];
    assert step[1..][1..][1..] == [];
    assert Occurrences(step[1..][1..], kind) == if kind == WaitKind then 1 else 0;
    assert Occurrences(step[1..], kind) == if kind == MeasureKind then 0 else 1;
  }

  /** `scrollDown(page, scrollCount)`. Returns the trace of page interactions;
      the JavaScript function returns nothing, and the model also exposes the
      loop's local `previousHeight` so that the contract can speak of it. */
  method ScrollDown(heights: HeightOracle, scrollCount: int) returns (trace: seq<Event>, previousHeight: int)
    ensures StopsAfter(heights, scrollCount, Scrolls(trace))
    ensures TraceOf(heights, scrollCount, Scrolls(trace), trace)
    ensures Measurements(trace) == Scrolls(trace) + (if Scrolls(trace) < scrollCount then 1 else 0)
    ensures Measurements(trace) <= IterationBudget(scrollCount)
    ensures Waits(trace) == Scrolls(trace)
    ensures previousHeight == PreviousHeight(heights, Scrolls(trace))
    ensures scrollCount <= 0 ==> trace == []
    ensures 0 < scrollCount && heights(0) == 0 ==> trace == [Measure(0)]
    ensures (forall j: nat :: j < scrollCount ==> !Settled(heights, j)) ==> Scrolls(trace) == IterationBudget(scrollCount)
  {
    previousHeight := 0;
    trace := [];
    var i: nat := 0;
    while i < scrollCount
      invariant i <= IterationBudget(scrollCount)
      invariant |trace| == 3 * i
      invariant forall k :: 0 <= k < |trace| ==> trace[k] == ExpectedEvent(heights, k)
      invariant forall j: nat :: j < i ==> !Settled(heights, j)
      // the case j = 0 of the invariant above, spelled out because the
      // first-reading-0 postcondition needs it and Dafny does not instantiate it
      invariant 0 < i ==> !Settled(heights, 0)
      invariant previousHeight == PreviousHeight(heights, i)
    {
      var currentHeight := heights(i);
      if currentHeight == previousHeight {
        assert i == 0 ==> trace + [Measure(currentHeight)] == [Measure(currentHeight)];
        trace := trace + [Measure(currentHeight)];
        break;
      }
      previousHeight := currentHeight;
      var step := [Measure(currentHeight), ScrollToBottom, Wait(SettleMs)];
      assert forall k :: |trace| <= k < |trace| + 3 ==> step[k - |trace|] == ExpectedEvent(heights, k);
      trace := trace + step;
      i := i + 1;
    }
    TraceOccurrences(heights, scrollCount, i, trace);
  }

  /** The stopping rule and the trace shape pin the run down completely: two
      runs over the same page and budget agree on every event. */
  lemma ScrollRunDeterministic(heights: HeightOracle, scrollCount: int,
                               scrolls1: nat, trace1: seq<Event>, scrolls2: nat, trace2: seq<Event>)
    requires StopsAfter(heights, scrollCount, scrolls1) && TraceOf(heights, scrollCount, scrolls1, trace1)
    requires StopsAfter(heights, scrollCount, scrolls2) && TraceOf(heights, scrollCount, scrolls2, trace2)
    ensures scrolls1 == scrolls2
    ensures trace1 == trace2
  {
  }

  /** The first `n` iterations, all scrolling, hold `n` events of each kind. */
  lemma {:induction false} IterationsOccurrences(heights: HeightOracle, n: nat, trace: seq<Event>, kind: EventKind)
    requires 3 * n <= |trace|
    requires forall k :: 0 <= k < 3 * n ==> trace[k] == ExpectedEvent(heights, k)
    ensures Occurrences(trace[..3 * n], kind) == n
  {
    if n == 0 {
      assert trace[..0] == [];
    } else {
      IterationsOccurrences(heights, n - 1, trace, kind);
      var last := 3 * (n - 1);
      assert ExpectedEvent(heights, last) == Measure(heights(n - 1));
      assert ExpectedEvent(heights, last + 1) == ScrollToBottom;
      assert ExpectedEvent(heights, last + 2) == Wait(SettleMs);
      assert trace[last..3 * n] == [Measure(heights(n - 1)), ScrollToBottom, Wait(SettleMs)];
      assert trace[..3 * n] == trace[..last] + trace[last..3 * n];
      IterationOccurrences(heights(n - 1), kind);
      OccurrencesAppend(trace[..last], trace[last..3 * n], kind);
    }
  }

  /** The event counts follow from the trace shape: one scroll and one wait
      per scrolling iteration, plus one final reading when the loop broke early. */
  lemma TraceOccurrences(heights: HeightOracle, scrollCount: int, scrolls: nat, trace: seq<Event>)
    requires TraceOf(heights, scrollCount, scrolls, trace)
    ensures Scrolls(trace) == scrolls && Waits(trace) == scrolls
    ensures Measurements(trace) == scrolls + (if scrolls < scrollCount then 1 else 0)
  {
    var body := trace[..3 * scrolls];
    var rest := trace[3 * scrolls..];
    assert trace == body + rest;
    forall kind: EventKind
      ensures Occurrences(trace, kind) == scrolls + (if kind == MeasureKind && scrolls < scrollCount then 1 else 0)
    {
      IterationsOccurrences(heights, scrolls, trace, kind);
      OccurrencesAppend(body, rest, kind);
      if scrolls < scrollCount {
        assert rest == [Measure(heights(scrolls))];
        ReadingOccurrences(heights(scrolls), kind);
      } else {
        assert rest == [];
      }
    }
  }
}
