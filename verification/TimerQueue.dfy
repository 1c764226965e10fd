/** TimerQueue.cc: timers that wait, expire, run and are armed again, handled by one thread, added by any. */
module TimerQueue {
  import opened Registry
  import opened Blocks
  import Traces
  import opened Options

  // ------------------------------------------------------- what may happen, and when

  datatype Happening =
    | Added(tid: int, expire: int, repeats: nat, interval: int, conditional: bool, now: int)
    | Rejected(expire: int, now: int)             // AddTimer returned -1
    | Answered(tid: int, ok: bool)                // CancelTimer returned ok
    | Popped(tid: int, now: int)                  // taken out after the clock read now
    | Discarded(tid: int)                         // canceled, or its stop condition held
    | Ran(tid: int)
    | Ended(tid: int)                             // no repetition left
    | Rearmed(tid: int, read: int, now: int)      // expires an interval after read, added when the clock read now
    | Lost(tid: int, read: int, now: int)         // the same, but now was not before the new expiry

  /** asked is the number of repetitions first asked for, times how often the timer ran. */
  datatype Timer = Timer(expire: int, repeats: nat, interval: int, conditional: bool, asked: nat, times: nat)

  /** All timers ever added, and where they are: waiting, popped, or between their run and the next arming. */
  datatype Timers = Timers(
    info: map<int, Timer>, waiting: set<int>, popped: seq<int>, handling: Option<int>, canceled: set<int>)

  const EMPTY := Timers(map[], {}, [], None, {})

  /** No waiting timer expires later: TimerCmp puts the latest expiry on top. */
  predicate IsLatest(q: Timers, tid: int)
  {
    && tid in q.waiting && q.waiting <= q.info.Keys
    && forall other | other in q.waiting :: q.info[other].expire <= q.info[tid].expire
  }

  predicate IsHandled(q: Timers, tid: int)
  {
    q.handling == Some(tid) && tid in q.info
  }

  predicate IsNext(q: Timers, tid: int)
  {
    q.handling == None && q.popped != [] && q.popped[0] == tid && tid in q.info
  }

  predicate Enabled(q: Timers, h: Happening)
  {
    match h
    case Added(tid, expire, _, _, _, now) => tid !in q.info && expire > now
    case Rejected(expire, now) => expire <= now
    case Answered(tid, ok) => ok == (tid in q.waiting)
    case Popped(tid, now) => q.handling == None && IsLatest(q, tid) && q.info[tid].expire <= now
    case Discarded(tid) => IsNext(q, tid) && (tid in q.canceled || q.info[tid].conditional)
    case Ran(tid) => IsNext(q, tid) && tid !in q.canceled
    case Ended(tid) => IsHandled(q, tid) && q.info[tid].repeats == 0
    case Rearmed(tid, read, now) =>
      IsHandled(q, tid) && q.info[tid].repeats > 0 && read + q.info[tid].interval > now
    case Lost(tid, read, now) =>
      IsHandled(q, tid) && q.info[tid].repeats > 0 && read + q.info[tid].interval <= now
  }

  function Again(t: Timer, read: int): Timer
    requires t.repeats > 0
  {
    t.(expire := read + t.interval, repeats := t.repeats - 1)
  }

  function NewTimer(expire: int, repeats: nat, interval: int, conditional: bool): Timer
  {
    Timer(expire, repeats, interval, conditional, repeats, 0)
  }

  /** Nothing follows from what is not enabled. */
  function Next(q: Timers, h: Happening): Timers
  {
    if !Enabled(q, h) then q
    else match h
      case Added(tid, expire, repeats, interval, conditional, now) =>
        q.(info := q.info[tid := NewTimer(expire, repeats, interval, conditional)], waiting := q.waiting + {tid})
      case Rejected(_, _) => q
      case Answered(tid, ok) => if ok then q.(canceled := q.canceled + {tid}) else q
      case Popped(tid, _) => q.(waiting := q.waiting - {tid}, popped := q.popped + [tid])
      case Discarded(tid) => q.(popped := q.popped[1..])
      case Ran(tid) =>
        q.(popped := q.popped[1..], handling := Some(tid),
           info := q.info[tid := q.info[tid].(times := q.info[tid].times + 1)])
      case Ended(tid) => q.(handling := None)
      case Rearmed(tid, read, _) =>
        q.(handling := None, waiting := q.waiting + {tid}, info := q.info[tid := Again(q.info[tid], read)])
      case Lost(tid, read, _) => q.(handling := None, info := q.info[tid := Again(q.info[tid], read)])
  }

  function After(q: Timers, trace: seq<Happening>): Timers
  {
    Traces.After(Next, q, trace)
  }

  predicate Legal(q: Timers, trace: seq<Happening>)
  {
    Traces.Legal(Enabled, Next, q, trace)
  }

  lemma LegalNext(q: Timers, trace: seq<Happening>, h: Happening)
    requires Legal(q, trace) && Enabled(After(q, trace), h)
    ensures Legal(q, trace + [h]) && After(q, trace + [h]) == Next(After(q, trace), h)
  {
    Traces.LegalNext(Enabled, Next, q, trace, h);
  }

  lemma LegalConcat(q: Timers, a: seq<Happening>, b: seq<Happening>)
    requires Legal(q, a) && Legal(After(q, a), b)
    ensures Legal(q, a + b) && After(q, a + b) == After(After(q, a), b)
  {
    Traces.LegalConcat(Enabled, Next, q, a, b);
  }

  lemma LegalPrefix(q: Timers, trace: seq<Happening>, k: nat)
    requires Legal(q, trace) && k <= |trace|
    ensures Legal(q, trace[..k])
    ensures k < |trace| ==>
              && Legal(q, trace[..k + 1]) && Enabled(After(q, trace[..k]), trace[k])
              && After(q, trace[..k + 1]) == Next(After(q, trace[..k]), trace[k])
  {
    Traces.LegalPrefix(Enabled, Next, q, trace, k);
  }

  /** The last step of a run. */
  lemma LegalLast(q: Timers, trace: seq<Happening>)
    requires Legal(q, trace) && trace != []
    ensures var before, h := trace[..|trace| - 1], trace[|trace| - 1];
            Legal(q, before) && Enabled(After(q, before), h) && After(q, trace) == Next(After(q, before), h)
  {
    LegalPrefix(q, trace, |trace| - 1);
    assert trace[..|trace|] == trace;
  }

  // ------------------------------------------------------------- over every run

  /** A timer is in one place at a time. */
  ghost predicate OnePlace(q: Timers)
  {
    && q.waiting <= q.info.Keys && q.canceled <= q.info.Keys
    && (forall i | 0 <= i < |q.popped| :: q.popped[i] in q.info && q.popped[i] !in q.waiting)
    && (forall i, j | 0 <= i < j < |q.popped| :: q.popped[i] != q.popped[j])
    && (q.handling != None ==>
          var tid := q.handling.value;
          tid in q.info && tid !in q.waiting && tid !in q.popped && tid !in q.canceled)
  }

  /** Runs and repetitions left add up to what was asked for. */
  ghost predicate InBudget(q: Timers)
  {
    forall tid | tid in q.info ::
      var t := q.info[tid];
      && t.times <= t.asked + 1
      && (tid in q.waiting || tid in q.popped ==> t.times + t.repeats == t.asked)
      && (q.handling == Some(tid) ==> t.times + t.repeats == t.asked + 1)
  }

  lemma OnePlaceStep(q: Timers, h: Happening)
    requires OnePlace(q) && Enabled(q, h)
    ensures OnePlace(Next(q, h))
  {
  }

  lemma InBudgetStep(q: Timers, h: Happening)
    requires OnePlace(q) && InBudget(q) && Enabled(q, h)
    ensures InBudget(Next(q, h))
  {
  }

  lemma {:induction false} EveryTimer(trace: seq<Happening>)
    requires Legal(EMPTY, trace)
    ensures OnePlace(After(EMPTY, trace)) && InBudget(After(EMPTY, trace))
  {
    if trace != [] {
      var before, h := trace[..|trace| - 1], trace[|trace| - 1];
      LegalLast(EMPTY, trace);
      EveryTimer(before);
      OnePlaceStep(After(EMPTY, before), h);
      InBudgetStep(After(EMPTY, before), h);
    }
  }

  /** How often a timer ran. */
  function RunsOf(trace: seq<Happening>, tid: int): nat
  {
    if trace == [] then 0
    else RunsOf(trace[..|trace| - 1], tid) + if trace[|trace| - 1] == Ran(tid) then 1 else 0
  }

  /** The expiry a timer was last given. */
  function Expiry(trace: seq<Happening>, tid: int): int
    requires Legal(EMPTY, trace) && tid in After(EMPTY, trace).info
  {
    LegalLast(EMPTY, trace);
    var before, h := trace[..|trace| - 1], trace[|trace| - 1];
    if h.Added? && h.tid == tid then h.expire
    else if (h.Rearmed? || h.Lost?) && h.tid == tid then h.read + After(EMPTY, before).info[tid].interval
    else Expiry(before, tid)
  }

  lemma {:induction false} Recorded(trace: seq<Happening>, tid: int)
    requires Legal(EMPTY, trace)
    ensures RunsOf(trace, tid) == if tid in After(EMPTY, trace).info then After(EMPTY, trace).info[tid].times else 0
    ensures tid in After(EMPTY, trace).info ==> After(EMPTY, trace).info[tid].expire == Expiry(trace, tid)
  {
    if trace != [] {
      LegalLast(EMPTY, trace);
      Recorded(trace[..|trace| - 1], tid);
    }
  }

  lemma StaysStep(q: Timers, h: Happening, tid: int)
    requires Enabled(q, h) && tid in q.info
    ensures tid in Next(q, h).info && Next(q, h).info[tid].asked == q.info[tid].asked
    ensures q.canceled <= Next(q, h).canceled
  {
  }

  /** What was asked for a timer, and its cancelation, are never forgotten. */
  lemma {:induction false} Stays(trace: seq<Happening>, i: nat, tid: int)
    requires Legal(EMPTY, trace) && i <= |trace|
    ensures Legal(EMPTY, trace[..i])
    ensures var p, q := After(EMPTY, trace[..i]), After(EMPTY, trace);
            tid in p.info ==>
              tid in q.info && p.info[tid].asked == q.info[tid].asked && (tid in p.canceled ==> tid in q.canceled)
    decreases |trace|
  {
    hide Enabled, Next;
    LegalPrefix(EMPTY, trace, i);
    if i == |trace| {
      assert trace[..i] == trace;
    } else {
      LegalLast(EMPTY, trace);
      var before := trace[..|trace| - 1];
      assert before[..i] == trace[..i];
      Stays(before, i, tid);
      if tid in After(EMPTY, trace[..i]).info {
        StaysStep(After(EMPTY, before), trace[|trace| - 1], tid);
      }
    }
  }

  /** A timer runs at most once more than the repetitions asked for. */
  lemma AtMostAsked(trace: seq<Happening>, i: nat)
    requires Legal(EMPTY, trace) && i < |trace| && trace[i].Added?
    ensures RunsOf(trace, trace[i].tid) <= trace[i].repeats + 1
  {
    LegalPrefix(EMPTY, trace, i);
    Stays(trace, i + 1, trace[i].tid);
    EveryTimer(trace);
    Recorded(trace, trace[i].tid);
  }

  /** Once CancelTimer returned true the timer never runs again. */
  lemma CanceledNeverRuns(trace: seq<Happening>, i: nat, j: nat)
    requires Legal(EMPTY, trace) && i < j < |trace|
    requires trace[i].Answered? && trace[i].ok && trace[j].Ran?
    ensures trace[i].tid != trace[j].tid
  {
    LegalPrefix(EMPTY, trace, i);
    LegalPrefix(EMPTY, trace, j);
    EveryTimer(trace[..i]);
    assert trace[..j][..i + 1] == trace[..i + 1];
    Stays(trace[..j], i + 1, trace[i].tid);
  }

  /** At i the clock was read at or past the expiry of tid, and no run of tid has used that reading up. */
  ghost predicate ReadPastExpiry(trace: seq<Happening>, i: nat, tid: int)
    requires Legal(EMPTY, trace)
  {
    && i < |trace| && trace[i].Popped? && trace[i].tid == tid
    && Legal(EMPTY, trace[..i]) && tid in After(EMPTY, trace[..i]).info
    && Expiry(trace[..i], tid) <= trace[i].now
    && forall k | i < k < |trace| :: trace[k] != Ran(tid)
  }

  lemma ReadStays(before: seq<Happening>, h: Happening, i: nat, tid: int)
    requires Legal(EMPTY, before + [h]) && Legal(EMPTY, before) && ReadPastExpiry(before, i, tid) && h != Ran(tid)
    ensures ReadPastExpiry(before + [h], i, tid)
  {
    hide Legal, After, Expiry;
    assert before[..i] == (before + [h])[..i];
  }

  lemma ReadAtPop(before: seq<Happening>, h: Happening)
    requires Legal(EMPTY, before + [h]) && Legal(EMPTY, before)
    requires h.Popped? && Enabled(After(EMPTY, before), h)
    ensures ReadPastExpiry(before + [h], |before|, h.tid)
  {
    hide Legal, After, Expiry;
    assert (before + [h])[..|before|] == before;
    EveryTimer(before);
    Recorded(before, h.tid);
  }

  /** A step that leaves tid popped popped it, or found it so and did not run it. */
  lemma PoppedStep(q: Timers, h: Happening, tid: int)
    requires OnePlace(q) && Enabled(q, h) && tid in Next(q, h).popped && !(h.Popped? && h.tid == tid)
    ensures tid in q.popped && h != Ran(tid)
  {
  }

  lemma {:induction false} PoppedAfterExpiry(trace: seq<Happening>, tid: int)
    requires Legal(EMPTY, trace) && tid in After(EMPTY, trace).popped
    ensures exists i: nat :: ReadPastExpiry(trace, i, tid)
  {
    hide Enabled, Next, OnePlace, ReadPastExpiry;
    LegalLast(EMPTY, trace);
    var before, h := trace[..|trace| - 1], trace[|trace| - 1];
    assert trace == before + [h];
    EveryTimer(before);
    if h.Popped? && h.tid == tid {
      ReadAtPop(before, h);
    } else {
      PoppedStep(After(EMPTY, before), h, tid);
      PoppedAfterExpiry(before, tid);
      var i: nat :| ReadPastExpiry(before, i, tid);
      ReadStays(before, h, i, tid);
    }
  }

  /** Each run has a clock reading of its own before it, at or past the expiry the timer then had. */
  lemma RunsAfterExpiry(trace: seq<Happening>, j: nat)
    requires Legal(EMPTY, trace) && j < |trace| && trace[j].Ran?
    ensures Legal(EMPTY, trace[..j]) && exists i: nat :: ReadPastExpiry(trace[..j], i, trace[j].tid)
  {
    LegalPrefix(EMPTY, trace, j);
    PoppedAfterExpiry(trace[..j], trace[j].tid);
  }

  lemma AllKnown(q: Timers)
    requires OnePlace(q)
    ensures q.waiting <= q.info.Keys && q.canceled <= q.info.Keys
    ensures forall i | 0 <= i < |q.popped| :: q.popped[i] in q.info
    ensures q.handling != None ==> q.handling.value in q.info - q.waiting && q.handling.value !in q.canceled
  {
  }

  /** The step of a new timer changes nothing for the others. */
  lemma AfterAdded(q: Timers, h: Happening)
    requires OnePlace(q) && h.Added? && h.tid !in q.info && h.expire > h.now
    ensures Enabled(q, h) && OnePlace(Next(q, h))
    ensures Next(q, h) == q.(info := q.info[h.tid := NewTimer(h.expire, h.repeats, h.interval, h.conditional)],
                             waiting := q.waiting + {h.tid})
    ensures h.tid !in q.canceled
  {
    OnePlaceStep(q, h);
  }

  lemma AfterRejected(q: Timers, expire: int, now: int)
    requires expire <= now
    ensures Enabled(q, Rejected(expire, now)) && Next(q, Rejected(expire, now)) == q
  {
  }

  // ------------------------------------------------------------------- the queue

  class TimerStruct {
    var canceled: bool
    var tid: int
    var expire: int
    var repeatTimes: nat
    const repeatInterval: int
    const conditional: bool      // it has a stop condition

    constructor (expire: int, repeatTimes: nat, repeatInterval: int, conditional: bool)
      ensures !canceled && tid == -1 && this.expire == expire && this.repeatTimes == repeatTimes
      ensures this.repeatInterval == repeatInterval && this.conditional == conditional
    {
      canceled, tid := false, -1;
      this.expire, this.repeatTimes := expire, repeatTimes;
      this.repeatInterval, this.conditional := repeatInterval, conditional;
    }

    /** One repetition less, and an interval more. */
    method Repeat(read: int, ghost t: Timer)
      requires Is(tid, t, false) && t.repeats > 0
      modifies `repeatTimes, `expire
      ensures Is(tid, Again(t, read), false) && expire == read + repeatInterval
    {
      repeatTimes := repeatTimes - 1;
      expire := read + repeatInterval;
    }

    /** This is the timer tid, as the model describes it. */
    ghost predicate Is(tid: int, t: Timer, canceled: bool)
      reads this
    {
      && this.tid == tid && this.canceled == canceled
      && expire == t.expire && repeatTimes == t.repeats
      && repeatInterval == t.interval && conditional == t.conditional
    }
  }

  /** The objects of the live timers are as the model describes them. */
  ghost predicate Holds(live: map<int, TimerStruct>, q: Timers)
    reads live.Values
  {
    forall id | id in live :: id in q.info && live[id].Is(id, q.info[id], id in q.canceled)
  }

  ghost predicate Known(info: map<int, Timer>, next: nat)
  {
    forall id | id in info :: 0 <= id < next
  }

  /** The id map, the expired batch and the timer in hand point to the objects the model puts there. */
  ghost predicate Placed(
    timers: map<int, TimerStruct>, batch: seq<TimerStruct>, handling: Option<TimerStruct>,
    live: map<int, TimerStruct>, q: Timers)
  {
    && timers.Keys == q.waiting && live.Keys <= q.info.Keys
    && (forall id | id in timers :: id in live && live[id] == timers[id])
    && |batch| == |q.popped|
    && (forall i | 0 <= i < |batch| :: q.popped[i] in live && live[q.popped[i]] == batch[i])
    && (handling == None <==> q.handling == None)
    && (handling != None ==>
          && q.handling.value in live && live[q.handling.value] == handling.value
          && q.info[q.handling.value].repeats > 0)
  }

  lemma PlacedKeys(
    timers: map<int, TimerStruct>, batch: seq<TimerStruct>, handling: Option<TimerStruct>,
    live: map<int, TimerStruct>, q: Timers)
    requires Placed(timers, batch, handling, live, q)
    ensures timers.Keys == q.waiting && live.Keys <= q.info.Keys
    ensures forall id | id in timers :: id in live && live[id] == timers[id]
    ensures |batch| == |q.popped| && (handling == None <==> q.handling == None)
    ensures batch != [] ==> q.popped[0] in live && live[q.popped[0]] == batch[0]
    ensures handling != None ==>
              && q.handling.value in live && live[q.handling.value] == handling.value
              && q.info[q.handling.value].repeats > 0
  {
  }

  lemma PlacedAfterAnswered(
    timers: map<int, TimerStruct>, batch: seq<TimerStruct>, handling: Option<TimerStruct>,
    live: map<int, TimerStruct>, q: Timers, h: Happening)
    requires Placed(timers, batch, handling, live, q) && h.Answered? && Enabled(q, h)
    ensures Placed(timers, batch, handling, live, Next(q, h))
  {
  }

  lemma AfterPopped(
    timers: map<int, TimerStruct>, batch: seq<TimerStruct>, handling: Option<TimerStruct>,
    live: map<int, TimerStruct>, q: Timers, h: Happening)
    requires OnePlace(q) && Placed(timers, batch, handling, live, q) && Holds(live, q) && h.Popped? && Enabled(q, h)
    ensures h.tid in timers && OnePlace(Next(q, h)) && Holds(live, Next(q, h))
    ensures Placed(timers - {h.tid}, batch + [timers[h.tid]], handling, live, Next(q, h))
  {
    OnePlaceStep(q, h);
  }

  /** The first of the batch is dropped: nothing changes for the id map, although the code erases it there. */
  lemma AfterDiscarded(
    timers: map<int, TimerStruct>, batch: seq<TimerStruct>, handling: Option<TimerStruct>,
    live: map<int, TimerStruct>, q: Timers, h: Happening)
    requires OnePlace(q) && Placed(timers, batch, handling, live, q) && Holds(live, q) && h.Discarded? && Enabled(q, h)
    ensures timers - {h.tid} == timers && batch != [] && Next(q, h).info.Keys == q.info.Keys
    ensures OnePlace(Next(q, h)) && Holds(live - {h.tid}, Next(q, h))
    ensures Placed(timers, batch[1..], handling, live - {h.tid}, Next(q, h))
  {
    assert h.tid !in q.waiting;
    OnePlaceStep(q, h);
  }

  lemma AfterRan(
    timers: map<int, TimerStruct>, batch: seq<TimerStruct>, live: map<int, TimerStruct>, q: Timers, h: Happening)
    requires OnePlace(q) && Placed(timers, batch, None, live, q) && Holds(live, q) && h.Ran? && Enabled(q, h)
    requires q.info[h.tid].repeats > 0
    ensures batch != [] && OnePlace(Next(q, h)) && Holds(live, Next(q, h)) && Next(q, h).info.Keys == q.info.Keys
    ensures Placed(timers, batch[1..], Some(batch[0]), live, Next(q, h))
  {
    OnePlaceStep(q, h);
  }

  lemma AfterLastRun(
    timers: map<int, TimerStruct>, batch: seq<TimerStruct>, live: map<int, TimerStruct>, q: Timers, h: Happening)
    requires OnePlace(q) && Placed(timers, batch, None, live, q) && Holds(live, q) && h.Ran? && Enabled(q, h)
    requires q.info[h.tid].repeats == 0
    ensures var e := Ended(h.tid);
            && batch != [] && Enabled(Next(q, h), e)
            && OnePlace(Next(Next(q, h), e)) && Holds(live - {h.tid}, Next(Next(q, h), e))
            && Placed(timers, batch[1..], None, live - {h.tid}, Next(Next(q, h), e))
            && Next(Next(q, h), e).info.Keys == q.info.Keys
  {
    OnePlaceStep(q, h);
    OnePlaceStep(Next(q, h), Ended(h.tid));
  }

  lemma PlacedAfterAdded(
    timers: map<int, TimerStruct>, batch: seq<TimerStruct>, handling: Option<TimerStruct>,
    live: map<int, TimerStruct>, q: Timers, h: Happening, t: TimerStruct)
    requires OnePlace(q) && Placed(timers, batch, handling, live, q)
    requires h.Added? && h.tid !in q.info && h.expire > h.now
    ensures Placed(timers[h.tid := t], batch, handling, live[h.tid := t], Next(q, h))
  {
  }

  lemma HoldsAfterAdded(live: map<int, TimerStruct>, q: Timers, h: Happening, t: TimerStruct)
    requires Holds(live, q) && OnePlace(q) && h.Added? && h.tid !in q.info && h.expire > h.now
    requires t.Is(h.tid, NewTimer(h.expire, h.repeats, h.interval, h.conditional), false)
    ensures Holds(live[h.tid := t], Next(q, h))
  {
  }

  lemma HandledIsOut(
    waiting: seq<TimerStruct>, timers: map<int, TimerStruct>, live: map<int, TimerStruct>, q: Timers, id: int)
    requires Agree(waiting, timers) && Holds(live, q) && id in live && id !in timers
    requires forall a | a in timers :: a in live && live[a] == timers[a]
    ensures live[id] !in waiting && live[id] !in (live - {id}).Values && Holds(live - {id}, q)
    ensures id in q.info && live[id].Is(id, q.info[id], id in q.canceled)
  {
    assert live[id] in waiting ==> HasId(timers, live[id]);
    assert forall other | other in live && other != id :: live[other] != live[id];
  }

  lemma HoldsAfterHandled(live: map<int, TimerStruct>, q: Timers, id: int, read: int, next: Timers)
    requires id in live && id in q.info && q.info[id].repeats > 0 && id !in q.canceled
    requires Holds(live - {id}, q) && live[id].Is(id, Again(q.info[id], read), false)
    requires next.info == q.info[id := Again(q.info[id], read)] && next.canceled == q.canceled
    ensures Holds(live, next) && Holds(live - {id}, next)
  {
    assert forall other | other in live && other != id :: live[other] == (live - {id})[other];
  }

  lemma InHand(
    timers: map<int, TimerStruct>, batch: seq<TimerStruct>, t: TimerStruct, live: map<int, TimerStruct>, q: Timers)
    requires OnePlace(q) && Placed(timers, batch, Some(t), live, q) && Holds(live, q)
    ensures q.handling == Some(t.tid) && t.tid in live && live[t.tid] == t && t.tid !in timers
    ensures t.tid in q.info - q.canceled && q.info[t.tid].repeats > 0 && q.info[t.tid].interval == t.repeatInterval
    ensures forall a | a in timers :: a in live && live[a] == timers[a]
  {
  }

  lemma HandledPlaces(
    timers: map<int, TimerStruct>, batch: seq<TimerStruct>, t: TimerStruct,
    live: map<int, TimerStruct>, q: Timers, h: Happening)
    requires OnePlace(q) && Placed(timers, batch, Some(t), live, q) && (h.Rearmed? || h.Lost?) && Enabled(q, h)
    ensures OnePlace(Next(q, h)) && Next(q, h).info.Keys == q.info.Keys
    ensures Placed(if h.Rearmed? then timers[h.tid := t] else timers, batch, None,
                   if h.Rearmed? then live else live - {h.tid}, Next(q, h))
  {
    OnePlaceStep(q, h);
  }

  /** The timer in hand leaves it, armed again or lost. */
  lemma AfterHandled(
    waiting: seq<TimerStruct>, timers: map<int, TimerStruct>, batch: seq<TimerStruct>, t: TimerStruct,
    live: map<int, TimerStruct>, q: Timers, h: Happening, next: nat)
    requires Agree(waiting, timers) && OnePlace(q) && Placed(timers, batch, Some(t), live, q) && Holds(live, q)
    requires Known(q.info, next)
    requires (h.Rearmed? || h.Lost?) && h.tid == t.tid && h.Rearmed? == (h.read + t.repeatInterval > h.now)
    ensures t !in waiting && h.tid !in timers && h.tid in live && live[h.tid] == t
    ensures t !in (live - {h.tid}).Values && Holds(live - {h.tid}, q)
    ensures h.tid in q.info - q.canceled && q.info[h.tid].repeats > 0 && t.Is(h.tid, q.info[h.tid], false)
    ensures q.handling == Some(h.tid) && h == Repeated(q, h.read, h.now)
    ensures h.tid >= 0 && Enabled(q, h) && OnePlace(Next(q, h)) && Known(Next(q, h).info, next)
    ensures Next(q, h).info == q.info[h.tid := Again(q.info[h.tid], h.read)] && Next(q, h).canceled == q.canceled
    ensures Placed(if h.Rearmed? then timers[h.tid := t] else timers, batch, None,
                   if h.Rearmed? then live else live - {h.tid}, Next(q, h))
  {
    hide OnePlace, Placed, Holds, Agree;
    InHand(timers, batch, t, live, q);
    HandledIsOut(waiting, timers, live, q, h.tid);
    HandledPlaces(timers, batch, t, live, q, h);
  }

  /** What HandleTimer makes of the first popped timer; stop is what its stop condition returns. */
  function Handled(q: Timers, stop: bool): seq<Happening>
    requires q.popped != [] && q.popped[0] in q.info
  {
    var tid := q.popped[0];
    if tid in q.canceled || (q.info[tid].conditional && stop) then [Discarded(tid)]
    else if q.info[tid].repeats > 0 then [Ran(tid)]
    else [Ran(tid), Ended(tid)]
  }

  /** The task runs unless the timer was canceled or has a stop condition that holds; only the last run ends it. */
  lemma HandledMeans(q: Timers, stop: bool)
    requires q.popped != [] && q.popped[0] in q.info
    ensures var h, tid := Handled(q, stop), q.popped[0];
            && (Ran(tid) in h <==> tid !in q.canceled && !(stop && q.info[tid].conditional))
            && (Discarded(tid) in h <==> Ran(tid) !in h)
            && (Ended(tid) in h <==> Ran(tid) in h && q.info[tid].repeats == 0)
            && h[0] != Ended(tid) && forall e | e in h :: e == Ran(tid) || e == Discarded(tid) || e == Ended(tid)
  {
  }

  /** What becomes of the timer in hand. */
  function Repeated(q: Timers, read: int, now: int): Happening
    requires q.handling != None && q.handling.value in q.info
  {
    var tid := q.handling.value;
    if read + q.info[tid].interval > now then Rearmed(tid, read, now) else Lost(tid, read, now)
  }

  // --------------------------------------------------------- what a timeout pops

  /** Every waiting timer has expired. */
  predicate AllExpired(q: Timers, now: int)
  {
    forall tid | tid in q.waiting :: tid in q.info && q.info[tid].expire <= now
  }

  /** How many timers one call pops: none while any is unexpired, else half of them, rounded up. */
  function PopCount(q: Timers, now: int): nat
  {
    if AllExpired(q, now) then (|q.waiting| + 1) / 2 else 0
  }

  /** As many are left as are popped, or one fewer; or all are left. */
  lemma HalfIsLeft(q: Timers, now: int)
    ensures var left := |q.waiting| - PopCount(q, now);
            if AllExpired(q, now) then left == PopCount(q, now) || left == PopCount(q, now) - 1
            else left == |q.waiting|
  {
  }

  /** A timeout pops all the timers that have expired exactly when none has, or a single timer waits. */
  lemma PopsAllExpired(q: Timers, now: int)
    requires q.waiting <= q.info.Keys
    ensures var expired := set tid | tid in q.waiting && q.info[tid].expire <= now;
            PopCount(q, now) == |expired| <==> expired == {} || |q.waiting| <= 1
  {
    var expired := set tid | tid in q.waiting && q.info[tid].expire <= now;
    if AllExpired(q, now) {
      assert forall tid | tid in q.waiting :: tid in expired;
      assert expired == q.waiting;
    } else if |q.waiting| <= 1 {
      var other :| other in q.waiting && q.info[other].expire > now;
      assert |q.waiting - {other}| == 0;
      assert expired <= q.waiting - {other};
    }
  }

  class TimerQueue {
    const counter: Counter                    // next_timer_id
    var waiting: seq<TimerStruct>             // the priority queue, in no particular order
    var timers: map<int, TimerStruct>
    var batch: seq<TimerStruct>               // expired_timers of the current OnTimeout
    var handling: Option<TimerStruct>         // the timer whose task has run and that is to be armed again

    ghost var live: map<int, TimerStruct>
    ghost var model: Timers

    ghost predicate Valid()
      reads this, counter, live.Values
    {
      && Agree(waiting, timers)
      && OnePlace(model) && Placed(timers, batch, handling, live, model) && Holds(live, model)
      && Known(model.info, counter.next)
    }

    constructor (counter: Counter)
      ensures Valid() && this.counter == counter && model == EMPTY && live == map[]
    {
      this.counter := counter;
      waiting, timers, batch, handling, live, model := [], map[], [], None, map[], EMPTY;
    }

    method GetTimerNums() returns (n: nat)
      requires Valid()
      ensures n == |model.waiting|
    {
      assert |timers.Keys| == |model.waiting|;
      n := |waiting|;
    }

    /** The private overload: a timer that expires later than now enters the queue and the id map together. */
    method AddTimer(timer: TimerStruct, now: int) returns (tid: int)
      requires Agree(waiting, timers) && timer !in waiting && timer.tid !in timers
      requires timer.tid == -1 ==> counter.next !in timers
      modifies `waiting, `timers, counter, timer`tid
      ensures Agree(waiting, timers)
      ensures timer.expire <= now ==>
                tid == -1 && timers == old(timers) && counter.next == old(counter.next)
      ensures timer.expire <= now || old(timer.tid) != -1 ==> unchanged(timer)
      ensures timer.expire > now ==>
                && tid == timer.tid == (if old(timer.tid) == -1 then old(counter.next) else old(timer.tid))
                && timers == old(timers)[tid := timer]
                && counter.next == old(counter.next) + if old(timer.tid) == -1 then 1 else 0
    {
      if timer.expire <= now {
        return -1;
      }
      if timer.tid == -1 {
        timer.tid := counter.next;
        counter.next := counter.next + 1;
      }
      AgreeAfterPush(waiting, timers, timer.tid, timer);
      waiting := waiting + [timer];
      timers := timers[timer.tid := timer];
      return timer.tid;
    }

    /** The public overloads: a new timer, which is lost when it expires by the time the clock reads now. */
    method AddNewTimer(expire: int, repeats: nat, interval: int, conditional: bool, now: int) returns (tid: int)
      requires Valid()
      modifies `waiting, `timers, `live, `model, counter
      ensures Valid()
      ensures forall t | t in live.Values :: t in old(live.Values) || fresh(t)
      ensures var h := if expire <= now then Rejected(expire, now)
                       else Added(tid, expire, repeats, interval, conditional, now);
              Enabled(old(model), h) && model == Next(old(model), h)
      ensures expire <= now <==> tid == -1
    {
      hide Agree, OnePlace, Placed, Holds, Enabled, Next;
      AllKnown(model);
      assert timers.Keys == model.waiting by { PlacedKeys(timers, batch, handling, live, model); }
      var timer := new TimerStruct(expire, repeats, interval, conditional);
      tid := AddTimer(timer, now);
      ghost var h := Added(tid, expire, repeats, interval, conditional, now);
      if tid != -1 {
        AfterAdded(model, h);
        PlacedAfterAdded(old(timers), batch, handling, live, model, h, timer);
        HoldsAfterAdded(live, model, h, timer);
        model := Next(model, h);
        live := live[tid := timer];
      } else {
        AfterRejected(model, expire, now);
      }
    }

    method CancelTimer(tid: int) returns (ok: bool)
      requires Valid()
      modifies `model, live.Values
      ensures Valid()
      ensures Enabled(old(model), Answered(tid, ok)) && model == Next(old(model), Answered(tid, ok))
    {
      hide Agree, OnePlace, Placed;
      PlacedKeys(timers, batch, handling, live, model);
      if tid !in timers {
        return false;
      }
      OnePlaceStep(model, Answered(tid, true));
      PlacedAfterAnswered(timers, batch, handling, live, model, Answered(tid, true));
      timers[tid].canceled := true;
      model := Next(model, Answered(tid, true));
      return true;
    }

    /** TimerCmp puts the latest expiry on top of the queue; which of several is open. */
    predicate IsTop(k: nat)
      reads this, waiting
    {
      k < |waiting| && forall t | t in waiting :: t.expire <= waiting[k].expire
    }

    method Top() returns (k: nat)
      requires waiting != []
      ensures IsTop(k)
    {
      k := 0;
      for i := 0 to |waiting|
        invariant k < |waiting| && forall j | 0 <= j < i :: waiting[j].expire <= waiting[k].expire
      {
        if waiting[i].expire > waiting[k].expire {
          k := i;
        }
      }
    }

    lemma TopIsLatest(k: nat)
      requires Valid() && IsTop(k)
      ensures k < |waiting| && waiting[k].tid in model.info
      ensures IsLatest(model, waiting[k].tid) && waiting[k].expire == model.info[waiting[k].tid].expire
      ensures waiting[k].tid in timers && timers[waiting[k].tid] == waiting[k]
    {
      hide OnePlace;
      AllKnown(model);
      var a :| a in timers && timers[a] == waiting[k];
      assert forall id | id in timers :: timers[id] in waiting && timers[id].expire == model.info[id].expire;
    }

    /** The loop body of PopExpiredTimers. */
    method PopTop(k: nat, now: int) returns (h: Happening)
      requires Valid() && IsTop(k) && waiting[k].expire <= now && handling == None
      modifies `waiting, `timers, `batch, `model
      ensures Valid() && |waiting| == |old(waiting)| - 1
      ensures h == Popped(old(waiting[k].tid), now)
      ensures Enabled(old(model), h) && model == Next(old(model), h)
    {
      hide *;
      TopIsLatest(k);
      Open();
      PlacedKeys(timers, batch, handling, live, model);
      var timer := waiting[k];
      h := Popped(timer.tid, now);
      PopIsEnabled(model, h);
      AfterPopped(timers, batch, handling, live, model, h);
      AgreeAfterPop(waiting, timers, k, timer.tid);
      OnlyPopped(model, h);
      waiting := Without(waiting, k);
      timers := timers - {timer.tid};
      batch := batch + [timer];
      model := Next(model, h);
      Close();
    }

    /** The bound of the loop shrinks while the index grows. */
    method PopExpiredTimers(now: int) returns (happened: seq<Happening>)
      requires Valid() && handling == None
      modifies `waiting, `timers, `batch, `model
      ensures Valid() && |happened| == PopCount(old(model), now)
      ensures forall h | h in happened :: h.Popped? && h.now == now
      ensures Legal(old(model), happened) && model == After(old(model), happened)
    {
      hide Agree, OnePlace, Placed, Holds, Enabled, Next, Legal, After;
      happened := [];
      LegalStart(model);
      ghost var n := |waiting|;
      WaitingCount();
      var i := 0;
      while i < |waiting|
        invariant Valid() && i + |waiting| == n && i == |happened| && 2 * i <= n + 1
        invariant model.info == old(model).info && model.waiting <= old(model).waiting
        invariant i > 0 ==> AllExpired(old(model), now)
        invariant forall h | h in happened :: h.Popped? && h.now == now
        invariant Legal(old(model), happened) && model == After(old(model), happened)
      {
        var k := Top();
        TopIsLatest(k);
        if waiting[k].expire > now {
          break;
        }
        var h := PopTop(k, now);
        LegalNext(old(model), happened, h);
        OnlyPopped(After(old(model), happened), h);
        happened := happened + [h];
        i := i + 1;
      }
    }

    /**
     * HandleTimer up to the repetition: the first of the batch is dropped, or runs; a timer with no repetition
     * left is then deleted. stop is what its stop condition returns.
     */
    method HandleTimer(stop: bool) returns (happened: seq<Happening>)
      requires Valid() && batch != [] && handling == None
      modifies `timers, `batch, `handling, `live, `model
      ensures Valid() && live.Values <= old(live.Values)
      ensures |batch| == |old(batch)| - 1
      ensures old(model).popped != [] && old(model).popped[0] in old(model).info
      ensures happened == Handled(old(model), stop)
      ensures Legal(old(model), happened) && model == After(old(model), happened)
    {
      hide Agree, OnePlace, Placed, Enabled, Next, Legal, After;
      PlacedKeys(timers, batch, handling, live, model);
      AllKnown(model);
      var timer := batch[0];
      ghost var q := model;
      FirstIsNext(q, timer.tid);
      if timer.canceled || (timer.conditional && stop) {
        var h := Discarded(timer.tid);
        EnabledFirst(q, h);
        AfterDiscarded(timers, batch, handling, live, q, h);
        LegalOne(q, h);
        timers := timers - {timer.tid};
        live, model := live - {timer.tid}, Next(q, h);
        happened := [h];
      } else if timer.repeatTimes > 0 {
        var h := Ran(timer.tid);
        EnabledFirst(q, h);
        AfterRan(timers, batch, live, q, h);
        LegalOne(q, h);
        handling, model := Some(timer), Next(q, h);
        happened := [h];
      } else {
        var h := Ran(timer.tid);
        EnabledFirst(q, h);
        AfterLastRun(timers, batch, live, q, h);
        LegalOne(q, h);
        LegalNext(q, [h], Ended(timer.tid));
        live, model := live - {timer.tid}, Next(Next(q, h), Ended(timer.tid));
        happened := [h, Ended(timer.tid)];
        assert happened == [h] + [Ended(timer.tid)];
      }
      batch := batch[1..];
    }

    /** The repetition: read and now are the two readings of the clock. */
    method Rearm(read: int, now: int) returns (h: Happening)
      requires Valid() && handling != None
      modifies `waiting, `timers, `handling, `live, `model, counter, handling.value
      ensures Valid() && handling == None && live.Values <= old(live.Values)
      ensures old(model).handling != None && old(model).handling.value in old(model).info
      ensures h == Repeated(old(model), read, now)
      ensures Enabled(old(model), h) && model == Next(old(model), h)
    {
      hide *;
      Open();
      var timer := handling.value;
      var id := timer.tid;
      h := if read + timer.repeatInterval > now then Rearmed(id, read, now) else Lost(id, read, now);
      ghost var q := model;
      AfterHandled(waiting, timers, batch, timer, live, q, h, counter.next);
      Reinsert(timer, read, now, q.info[id]);
      HoldsAfterHandled(live, q, id, read, Next(q, h));
      model := Next(q, h);
      live := if h.Rearmed? then live else live - {id};
      Close();
    }

    /** The timer in hand is counted down and given back to the queue; t is what it was. */
    method Reinsert(timer: TimerStruct, read: int, now: int, ghost t: Timer)
      requires Agree(waiting, timers) && timer !in waiting && timer.tid !in timers && timer.tid >= 0
      requires timer.Is(timer.tid, t, false) && t.repeats > 0
      modifies `waiting, `timers, `handling, counter, timer
      ensures Agree(waiting, timers) && handling == None && counter.next == old(counter.next)
      ensures timer.Is(old(timer.tid), Again(t, read), false)
      ensures timers == if read + timer.repeatInterval > now then old(timers)[old(timer.tid) := timer] else old(timers)
    {
      hide *;
      timer.Repeat(read, t);
      handling := None;
      var _ := AddTimer(timer, now);
    }

    lemma Open()
      requires Valid()
      ensures Agree(waiting, timers) && OnePlace(model) && Placed(timers, batch, handling, live, model)
      ensures Holds(live, model) && Known(model.info, counter.next)
      ensures handling != None ==> handling.value in live.Values
    {
    }

    lemma Close()
      requires Agree(waiting, timers) && OnePlace(model) && Placed(timers, batch, handling, live, model)
      requires Holds(live, model) && Known(model.info, counter.next)
      ensures Valid()
    {
    }

    lemma WaitingCount()
      requires Valid()
      ensures |waiting| == |model.waiting|
    {
      assert |timers.Keys| == |model.waiting|;
    }
  }

  lemma PopIsEnabled(q: Timers, h: Happening)
    requires h.Popped? && q.handling == None && IsLatest(q, h.tid) && q.info[h.tid].expire <= h.now
    ensures Enabled(q, h)
  {
  }

  lemma OnlyPopped(q: Timers, h: Happening)
    requires h.Popped? && Enabled(q, h)
    ensures Next(q, h).info == q.info && Next(q, h).waiting <= q.waiting && Next(q, h).handling == q.handling
  {
  }

  lemma EnabledFirst(q: Timers, h: Happening)
    requires (h.Discarded? || h.Ran?) && IsNext(q, h.tid)
    requires if h.Ran? then h.tid !in q.canceled else h.tid in q.canceled || q.info[h.tid].conditional
    ensures Enabled(q, h)
  {
  }

  lemma FirstIsNext(q: Timers, tid: int)
    requires q.handling == None && q.popped != [] && q.popped[0] == tid && tid in q.info
    ensures IsNext(q, tid)
  {
  }

  lemma LegalOne(q: Timers, h: Happening)
    requires Enabled(q, h)
    ensures Legal(q, [h]) && After(q, [h]) == Next(q, h)
  {
    LegalNext(q, [], h);
  }

  lemma LegalStart(q: Timers)
    ensures Legal(q, []) && After(q, []) == q
  {
  }

  // ------------------------------------------------------------------ every schedule

  /** read and now are readings of the clock, which may go backwards. */
  datatype Action =
    | AddAt(when: int, now: int)
    | AddEvery(interval: int, repeats: nat, read: int, now: int)
    | AddUntil(interval: int, read: int, now: int)
    | Cancel(tid: int)
    | Timeout(now: int)
    | Handle(stop: bool)
    | Repeat(read: int, now: int)
    | Elsewhere(n: nat)             // other queues take n ids

  /** What a new timer comes to. */
  predicate IsAdd(happened: seq<Happening>, expire: int, repeats: nat, interval: int, conditional: bool, now: int)
  {
    && |happened| == 1
    && if expire <= now then happened[0] == Rejected(expire, now)
       else happened[0].Added? && happened[0] == Added(happened[0].tid, expire, repeats, interval, conditional, now)
  }

  /** What an action comes to in the state q; the handling thread pops only when it has nothing left to handle. */
  predicate Performed(q: Timers, a: Action, happened: seq<Happening>)
  {
    var idle := q.popped == [] && q.handling == None;
    match a
    case AddAt(when, now) => IsAdd(happened, when, 0, 0, false, now)
    case AddEvery(interval, repeats, read, now) => IsAdd(happened, read + interval, repeats, interval, false, now)
    case AddUntil(interval, read, now) => IsAdd(happened, read + interval, 0, interval, true, now)
    case Cancel(tid) => happened == [Answered(tid, tid in q.waiting)]
    case Timeout(now) =>
      && |happened| == (if idle then PopCount(q, now) else 0)
      && forall h | h in happened :: h.Popped? && h.now == now
    case Handle(stop) =>
      if q.handling == None && q.popped != [] then q.popped[0] in q.info && happened == Handled(q, stop)
      else happened == []
    case Repeat(read, now) =>
      if q.handling != None then q.handling.value in q.info && happened == [Repeated(q, read, now)]
      else happened == []
    case Elsewhere(_) => happened == []
  }

  method Perform(queue: TimerQueue, a: Action) returns (happened: seq<Happening>)
    requires queue.Valid()
    modifies queue, queue.counter, queue.live.Values
    ensures queue.Valid()
    ensures forall t | t in queue.live.Values :: t in old(queue.live.Values) || fresh(t)
    ensures Performed(old(queue.model), a, happened)
    ensures Legal(old(queue.model), happened) && queue.model == After(old(queue.model), happened)
  {
    hide Agree, OnePlace, Placed, Holds, Known, Enabled, Next, Legal, After, PopCount, Handled, Repeated;
    PlacedKeys(queue.timers, queue.batch, queue.handling, queue.live, queue.model);
    LegalStart(queue.model);
    happened := [];
    match a {
      case AddAt(when, now) =>
        happened := Add(queue, when, 0, 0, false, now);
      case AddEvery(interval, repeats, read, now) =>
        happened := Add(queue, read + interval, repeats, interval, false, now);
      case AddUntil(interval, read, now) =>
        happened := Add(queue, read + interval, 0, interval, true, now);
      case Cancel(tid) =>
        var ok := queue.CancelTimer(tid);
        AnswerIs(old(queue.model), tid, ok);
        LegalOne(old(queue.model), Answered(tid, ok));
        happened := [Answered(tid, ok)];
      case Timeout(now) =>
        if queue.batch == [] && queue.handling == None {
          happened := queue.PopExpiredTimers(now);
        }
      case Handle(stop) =>
        if queue.batch != [] && queue.handling == None {
          happened := queue.HandleTimer(stop);
        }
      case Repeat(read, now) =>
        if queue.handling != None {
          var h := queue.Rearm(read, now);
          LegalOne(old(queue.model), h);
          happened := [h];
        }
      case Elsewhere(n) =>
        queue.counter.next := queue.counter.next + n;
        KnownMore(queue.model.info, old(queue.counter.next), queue.counter.next);
    }
  }

  lemma AnswerIs(q: Timers, tid: int, ok: bool)
    requires Enabled(q, Answered(tid, ok))
    ensures ok == (tid in q.waiting)
  {
  }

  method Add(queue: TimerQueue, expire: int, repeats: nat, interval: int, conditional: bool, now: int)
    returns (happened: seq<Happening>)
    requires queue.Valid()
    modifies queue, queue.counter
    ensures queue.Valid()
    ensures forall t | t in queue.live.Values :: t in old(queue.live.Values) || fresh(t)
    ensures IsAdd(happened, expire, repeats, interval, conditional, now)
    ensures Legal(old(queue.model), happened) && queue.model == After(old(queue.model), happened)
  {
    hide *;
    var tid := queue.AddNewTimer(expire, repeats, interval, conditional, now);
    var h := if tid == -1 then Rejected(expire, now) else Added(tid, expire, repeats, interval, conditional, now);
    LegalOne(old(queue.model), h);
    happened := [h];
    assert IsAdd(happened, expire, repeats, interval, conditional, now) by {
      OneAdd(h, expire, repeats, interval, conditional, now);
    }
  }

  lemma OneAdd(h: Happening, expire: int, repeats: nat, interval: int, conditional: bool, now: int)
    requires if expire <= now then h == Rejected(expire, now)
             else h.Added? && h == Added(h.tid, expire, repeats, interval, conditional, now)
    ensures IsAdd([h], expire, repeats, interval, conditional, now)
  {
  }

  lemma KnownMore(info: map<int, Timer>, a: nat, b: nat)
    requires Known(info, a) && a <= b
    ensures Known(info, b)
  {
  }

  /** history tells for each action what happened: what must, given all that happened before. */
  ghost predicate Answers(actions: seq<Action>, history: seq<seq<Happening>>)
  {
    Traces.Answers(Performed, Next, EMPTY, actions, history)
  }

  lemma AnswersNext(actions: seq<Action>, history: seq<seq<Happening>>, a: Action, happened: seq<Happening>)
    requires Answers(actions, history) && Performed(After(EMPTY, Flatten(history)), a, happened)
    ensures Answers(actions + [a], history + [happened])
    ensures Flatten(history + [happened]) == Flatten(history) + happened
  {
    Traces.AnswersNext(Performed, Next, EMPTY, actions, history, a, happened);
  }

  /** Whatever adds, cancels and times out, whatever the clock reads, what happens is a legal run. */
  method Live(actions: seq<Action>) returns (history: seq<seq<Happening>>, waiting: nat)
    ensures Answers(actions, history) && Legal(EMPTY, Flatten(history))
    ensures waiting == |After(EMPTY, Flatten(history)).waiting|
  {
    hide *;
    history := [];
    var counter := new Counter();
    var queue := new TimerQueue(counter);
    NothingYet();
    for i := 0 to |actions|
      invariant queue.Valid() && fresh(queue) && fresh(queue.counter)
      invariant forall t | t in queue.live.Values :: fresh(t)
      invariant Answers(actions[..i], history)
      invariant Legal(EMPTY, Flatten(history)) && queue.model == After(EMPTY, Flatten(history))
    {
      var happened := Perform(queue, actions[i]);
      LegalConcat(EMPTY, Flatten(history), happened);
      AnswersNext(actions[..i], history, actions[i], happened);
      assert actions[..i + 1] == actions[..i] + [actions[i]];
      history := history + [happened];
    }
    assert actions[..|actions|] == actions;
    waiting := queue.GetTimerNums();
  }

  lemma NothingYet()
    ensures Legal(EMPTY, Flatten([])) && After(EMPTY, Flatten([])) == EMPTY && Answers([], [])
  {
  }
}
