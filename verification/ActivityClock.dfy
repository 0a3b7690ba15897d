/** The activity clock shared by the serving thread and the watchdog, step by step. Each thread
    reads the time and accesses the shared word in separate steps, in any interleaving. */
module ActivityClock {
  import opened Common

  /** `now` and `last` in milliseconds since the clock started. */
  datatype State = State(
    now: nat,                  // the monotonic clock
    last: nat,                 // the shared word
    touching: Option<nat>,     // the serving thread has read the time, and not stored it yet
    watching: Option<nat>,     // the watchdog has read the time, and not loaded the word yet
    verdict: Option<Verdict>,  // the watchdog has loaded the word, and not acted on it yet
    exited: bool)

  /** What one look of the watchdog saw. */
  datatype Verdict = Verdict(elapsed: nat, loaded: nat)

  datatype Step = Pass(ms: nat) | TouchRead | TouchStore | WatchRead | WatchLoad | WatchAct

  function SaturatingSub(a: nat, b: nat): nat {
    if a >= b then a - b else 0
  }

  function Idle(v: Verdict): nat {
    SaturatingSub(v.elapsed, v.loaded)
  }

  predicate Enabled(s: State, step: Step) {
    && !s.exited
    && match step
       case Pass(_) => true
       case TouchRead => s.touching.None?
       case TouchStore => s.touching.Some?
       case WatchRead => s.watching.None? && s.verdict.None?
       case WatchLoad => s.watching.Some?
       case WatchAct => s.verdict.Some?
  }

  function Next(s: State, step: Step, limit: nat): State
    requires Enabled(s, step)
  {
    match step
    case Pass(ms) => s.(now := s.now + ms)
    case TouchRead => s.(touching := Some(s.now))
    case TouchStore => s.(last := s.touching.value, touching := None)
    case WatchRead => s.(watching := Some(s.now))
    case WatchLoad => s.(verdict := Some(Verdict(s.watching.value, s.last)), watching := None)
    case WatchAct => s.(exited := Idle(s.verdict.value) >= limit, verdict := if Idle(s.verdict.value) >= limit then s.verdict else None)
  }

  const START := State(0, 0, None, None, None, false)

  /** states[i + 1] follows states[i] by steps[i]. */
  ghost predicate Run(states: seq<State>, steps: seq<Step>, limit: nat) {
    && |states| == |steps| + 1 && states[0] == START
    && forall i :: 0 <= i < |steps| ==> Enabled(states[i], steps[i]) && states[i + 1] == Next(states[i], steps[i], limit)
  }

  /** No time that was read lies in the future, and stored touches never go back. */
  ghost predicate Sane(s: State) {
    && s.last <= s.now
    && (s.touching.Some? ==> s.last <= s.touching.value <= s.now)
    && (s.watching.Some? ==> s.watching.value <= s.now)
    && (s.verdict.Some? ==> s.verdict.value.loaded <= s.last && s.verdict.value.elapsed <= s.now)
  }

  lemma {:induction false} AlwaysSane(states: seq<State>, steps: seq<Step>, limit: nat, i: nat)
    requires Run(states, steps, limit) && i <= |steps|
    ensures Sane(states[i])
  {
    if i > 0 {
      AlwaysSane(states, steps, limit, i - 1);
      assert states[i] == Next(states[i - 1], steps[i - 1], limit);
    }
  }

  /** Touches only move the shared word forward. */
  lemma {:induction false} LastGrows(states: seq<State>, steps: seq<Step>, limit: nat, i: nat, j: nat)
    requires Run(states, steps, limit) && i <= j <= |steps|
    ensures states[i].last <= states[j].last && states[i].now <= states[j].now
    decreases j - i
  {
    if i < j {
      LastGrows(states, steps, limit, i, j - 1);
      AlwaysSane(states, steps, limit, j - 1);
      assert states[j] == Next(states[j - 1], steps[j - 1], limit);
    }
  }

  /** The verdict acted on in state `j` was loaded at some earlier step, from the word as it was. */
  lemma {:induction false} VerdictLoaded(states: seq<State>, steps: seq<Step>, limit: nat, j: nat) returns (l: nat)
    requires Run(states, steps, limit) && j <= |steps| && states[j].verdict.Some?
    ensures l < j && steps[l] == WatchLoad && states[l].watching.Some?
    ensures states[j].verdict == Some(Verdict(states[l].watching.value, states[l].last))
    ensures forall k :: l < k <= j ==> states[k].verdict == states[j].verdict
  {
    assert j > 0;
    assert states[j] == Next(states[j - 1], steps[j - 1], limit);
    if steps[j - 1] == WatchLoad {
      l := j - 1;
    } else {
      l := VerdictLoaded(states, steps, limit, j - 1);
    }
  }

  /** The watchdog exits only on a verdict whose idle time, an exact difference with nothing cut
      off, reached the limit: every touch visible when it loaded the word was that much older than
      the time it had read. */
  lemma ExitWasIdleAtLoad(states: seq<State>, steps: seq<Step>, limit: nat, j: nat) returns (l: nat)
    requires Run(states, steps, limit) && j < |steps| && limit > 0
    requires steps[j] == WatchAct && states[j + 1].exited
    ensures l < j && steps[l] == WatchLoad && states[l].watching.Some?
    ensures states[l].last + limit <= states[l].watching.value <= states[l].now
    ensures forall i :: 0 <= i <= l ==> states[i].last + limit <= states[l].now
    ensures Idle(states[j].verdict.value) == states[l].watching.value - states[l].last
  {
    l := VerdictLoaded(states, steps, limit, j);
    AlwaysSane(states, steps, limit, l);
    assert states[j + 1] == Next(states[j], steps[j], limit);
    forall i | 0 <= i <= l
      ensures states[i].last + limit <= states[l].now
    {
      LastGrows(states, steps, limit, i, l);
    }
  }

  /** The time that a thread has read stays with it until it stores or compares it. */
  lemma {:induction false} ReadKept(states: seq<State>, steps: seq<Step>, limit: nat, i: nat, j: nat)
    requires Run(states, steps, limit) && i < j <= |steps|
    ensures steps[i] == TouchRead && (forall k :: i < k < j ==> steps[k] != TouchStore) ==>
      states[j].touching == Some(states[i].now)
    ensures steps[i] == WatchRead && (forall k :: i < k < j ==> steps[k] != WatchLoad) ==>
      states[j].watching == Some(states[i].now)
    ensures steps[i] == WatchLoad && (forall k :: i < k < j ==> steps[k] != WatchAct) ==>
      states[j].verdict == states[i + 1].verdict && states[j].verdict.Some? && states[j].watching.None?
    decreases j - i
  {
    assert states[j] == Next(states[j - 1], steps[j - 1], limit);
    if i < j - 1 {
      ReadKept(states, steps, limit, i, j - 1);
    } else {
      AlwaysExclusive(states, steps, limit, i);
    }
  }

  /** The watchdog is in one place at a time. */
  lemma {:induction false} AlwaysExclusive(states: seq<State>, steps: seq<Step>, limit: nat, i: nat)
    requires Run(states, steps, limit) && i <= |steps|
    ensures states[i].watching.None? || states[i].verdict.None?
  {
    if i > 0 {
      AlwaysExclusive(states, steps, limit, i - 1);
      assert states[i] == Next(states[i - 1], steps[i - 1], limit);
    }
  }

  /** A touch that is read and stored between the two reads of the watchdog keeps the process alive:
      the idle time is then zero, never a wrapped-around huge value, and acting on it exits for no
      limit but zero. */
  lemma TouchBetweenReadsKeepsAlive(states: seq<State>, steps: seq<Step>, limit: nat, w: nat, t: nat, k: nat, l: nat, j: nat)
    requires Run(states, steps, limit) && w < t < k < l < j < |steps|
    requires steps[w] == WatchRead && steps[l] == WatchLoad && forall i :: w < i < l ==> steps[i] != WatchLoad
    requires steps[t] == TouchRead && steps[k] == TouchStore && forall i :: t < i < k ==> steps[i] != TouchStore
    requires steps[j] == WatchAct && forall i :: l < i < j ==> steps[i] != WatchAct
    ensures states[l + 1].verdict.Some? && Idle(states[l + 1].verdict.value) == 0
    ensures states[j + 1].exited <==> limit == 0
  {
    ReadKept(states, steps, limit, w, l);
    ReadKept(states, steps, limit, t, k);
    ReadKept(states, steps, limit, l, j);
    LastGrows(states, steps, limit, w, t);
    LastGrows(states, steps, limit, k + 1, l);
    assert states[k + 1] == Next(states[k], steps[k], limit);
    assert states[l + 1] == Next(states[l], steps[l], limit);
    assert states[j + 1] == Next(states[j], steps[j], limit);
  }

  /** The shared word stays within a bound exactly when every time stored does. */
  lemma {:induction false} LastWithin(states: seq<State>, steps: seq<Step>, limit: nat, i: nat, j: nat, bound: int)
    requires Run(states, steps, limit) && i <= j <= |steps| && states[i].last <= bound
    ensures states[j].last <= bound <==> forall k :: i <= k < j && steps[k] == TouchStore ==> states[k].touching.value <= bound
    decreases j - i
  {
    if i < j {
      LastWithin(states, steps, limit, i, j - 1, bound);
      LastGrows(states, steps, limit, j - 1, j);
      assert states[j] == Next(states[j - 1], steps[j - 1], limit);
    }
  }

  /** At the moment of exit the agent has really been idle for `limit` exactly when every touch stored
      after the watchdog had loaded the word was read at least `limit` before. */
  lemma ExitIsIdleIff(states: seq<State>, steps: seq<Step>, limit: nat, j: nat) returns (l: nat)
    requires Run(states, steps, limit) && j < |steps|
    requires steps[j] == WatchAct && states[j + 1].exited
    ensures l < j && steps[l] == WatchLoad
    ensures states[j].last + limit <= states[j].now <==>
      forall k :: l < k < j && steps[k] == TouchStore ==> states[k].touching.value + limit <= states[j].now
  {
    l := VerdictLoaded(states, steps, limit, j);
    assert states[j + 1] == Next(states[j], steps[j], limit);
    AlwaysSane(states, steps, limit, l);
    LastGrows(states, steps, limit, l, j);
    LastWithin(states, steps, limit, l, j, states[j].now - limit);
  }

  /** Overtaking does happen: for every limit there is a run that exits with no idle time at all. */
  lemma ExitCanBeOvertaken(limit: nat) returns (states: seq<State>, steps: seq<Step>)
    requires limit > 0
    ensures Run(states, steps, limit) && |steps| == 6 && steps[5] == WatchAct && states[6].exited
    ensures states[5].last == states[5].now
  {
    steps := [Pass(limit), WatchRead, WatchLoad, TouchRead, TouchStore, WatchAct];
    var s1 := Next(START, steps[0], limit);
    var s2 := Next(s1, steps[1], limit);
    var s3 := Next(s2, steps[2], limit);
    var s4 := Next(s3, steps[3], limit);
    var s5 := Next(s4, steps[4], limit);
    var s6 := Next(s5, steps[5], limit);
    states := [START, s1, s2, s3, s4, s5, s6];
  }

  /** One look of the watchdog, however interleaved, exits exactly when the time it read is at least
      `limit` after the touch it loaded. */
  lemma LookExitsIff(states: seq<State>, steps: seq<Step>, limit: nat, w: nat, l: nat, j: nat)
    requires Run(states, steps, limit) && w < l < j < |steps| && limit > 0
    requires steps[w] == WatchRead && steps[l] == WatchLoad && forall i :: w < i < l ==> steps[i] != WatchLoad
    requires steps[j] == WatchAct && forall i :: l < i < j ==> steps[i] != WatchAct
    ensures states[j + 1].exited <==> states[w].now >= states[l].last + limit
  {
    ReadKept(states, steps, limit, w, l);
    ReadKept(states, steps, limit, l, j);
    assert states[l + 1] == Next(states[l], steps[l], limit);
    assert states[j + 1] == Next(states[j], steps[j], limit);
  }

  /** A touch shows the time at which it read the clock, once it has stored it. */
  lemma TouchShows(states: seq<State>, steps: seq<Step>, limit: nat, t: nat, k: nat)
    requires Run(states, steps, limit) && t < k < |steps|
    requires steps[t] == TouchRead && steps[k] == TouchStore && forall i :: t < i < k ==> steps[i] != TouchStore
    ensures states[k + 1].last == states[t].now
  {
    ReadKept(states, steps, limit, t, k);
    assert states[k + 1] == Next(states[k], steps[k], limit);
  }
}
