/**
 * The timer's event queue.  Every event stores the time that passes between the one before
 * it and itself; its due time is the sum of the deltas up to it.
 */
module EventQueue {
  import Division

  const WORD64 := 0x1_0000_0000_0000_0000

  datatype Event = Event(tag: int, ns: nat, coreLocal: bool)
  datatype Timer = Timer(cpu: bool, quantum: nat, maxInterval: nat)

  /** The due times of all events, counted from `base`. */
  function Dues(queue: seq<Event>, base: nat): (r: seq<nat>)
    ensures |r| == |queue|
  {
    if |queue| == 0 then [] else [base + queue[0].ns] + Dues(queue[1..], base + queue[0].ns)
  }

  function Tags(queue: seq<Event>): (r: seq<int>)
    ensures |r| == |queue|
  {
    seq(|queue|, i requires 0 <= i < |queue| => queue[i].tag)
  }

  /** An event without its delta. */
  function Bare(e: Event): Event { e.(ns := 0) }

  /** Everything about the queued events but their deltas. */
  function Bares(queue: seq<Event>): (r: seq<Event>)
    ensures |r| == |queue|
  {
    seq(|queue|, i requires 0 <= i < |queue| => Bare(queue[i]))
  }

  /** The first delta counts from `base`, every other from the event before. */
  lemma {:induction false} DuesAdd(queue: seq<Event>, base: nat, i: nat)
    requires i < |queue|
    ensures Dues(queue, base)[i] == (if i == 0 then base else Dues(queue, base)[i - 1]) + queue[i].ns
  {
    if i > 0 { DuesAdd(queue[1..], base + queue[0].ns, i - 1); }
  }

  lemma {:induction false} DuesJoin(a: seq<Event>, b: seq<Event>, base: nat)
    ensures Dues(a + b, base) == Dues(a, base) + Dues(b, Last(a, base))
  {
    if |a| == 0 {
      assert a + b == b;
    } else {
      assert (a + b)[1..] == a[1..] + b;
      DuesJoin(a[1..], b, base + a[0].ns);
    }
  }

  /** The due time of the last event, or `base` when there is none. */
  function Last(queue: seq<Event>, base: nat): nat
  {
    if |queue| == 0 then base else Last(queue[1..], base + queue[0].ns)
  }

  lemma {:induction false} DuesGrow(queue: seq<Event>, base: nat)
    ensures forall i :: 0 <= i < |queue| ==> base <= Dues(queue, base)[i]
    ensures forall i, j :: 0 <= i <= j < |queue| ==> Dues(queue, base)[i] <= Dues(queue, base)[j]
  {
    if |queue| > 0 {
      DuesGrow(queue[1..], base + queue[0].ns);
    }
  }

  lemma {:induction false} DuesShift(queue: seq<Event>, base: nat, more: nat)
    ensures forall i :: 0 <= i < |queue| ==> Dues(queue, base + more)[i] == Dues(queue, base)[i] + more
  {
    if |queue| > 0 {
      DuesShift(queue[1..], base + queue[0].ns, more);
      assert base + more + queue[0].ns == base + queue[0].ns + more;
    }
  }

  // ------------------------------------------------------------ adding an event

  /** The queue with an event `event.ns` from now, before those due at the same time. */
  function Insert(queue: seq<Event>, event: Event): seq<Event>
  {
    if |queue| == 0 then [event]
    else if event.ns <= queue[0].ns then [event, queue[0].(ns := queue[0].ns - event.ns)] + queue[1..]
    else [queue[0]] + Insert(queue[1..], event.(ns := event.ns - queue[0].ns))
  }

  function Place(queue: seq<Event>, ns: nat): (k: nat)
    ensures k <= |queue|
  {
    if |queue| == 0 || ns <= queue[0].ns then 0 else 1 + Place(queue[1..], ns - queue[0].ns)
  }

  /** s with x put in at place k. */
  function PutAt<T>(s: seq<T>, k: nat, x: T): seq<T>
    requires k <= |s|
  {
    s[..k] + [x] + s[k..]
  }

  /** Every queued event keeps its due time and the new one is due when it was asked for. */
  lemma {:induction false} InsertKeepsDues(queue: seq<Event>, event: Event, base: nat)
    ensures var k := Place(queue, event.ns);
            && Dues(Insert(queue, event), base) == PutAt(Dues(queue, base), k, base + event.ns)
            && Bares(Insert(queue, event)) == PutAt(Bares(queue), k, Bare(event))
  {
    InsertDues(queue, event, base);
    InsertBares(queue, event);
  }

  /** It comes after what is due earlier and before what is due then or later. */
  lemma {:induction false} PlaceIsOrdered(queue: seq<Event>, ns: nat, base: nat)
    ensures var k := Place(queue, ns);
            && (forall i :: 0 <= i < k ==> Dues(queue, base)[i] < base + ns)
            && (forall i :: k <= i < |queue| ==> base + ns <= Dues(queue, base)[i])
    decreases |queue|
  {
    if |queue| > 0 {
      if ns <= queue[0].ns {
        DuesGrow(queue, base);
        assert Dues(queue, base)[0] == base + queue[0].ns;
      } else {
        PlaceIsOrdered(queue[1..], ns - queue[0].ns, base + queue[0].ns);
      }
    }
  }

  lemma {:induction false} InsertDues(queue: seq<Event>, event: Event, base: nat)
    ensures Dues(Insert(queue, event), base) == PutAt(Dues(queue, base), Place(queue, event.ns), base + event.ns)
    decreases |queue|
  {
    if |queue| == 0 {
      assert [event][1..] == [];
    } else if event.ns <= queue[0].ns {
      InsertDuesFirst(queue, event, base);
    } else {
      InsertDues(queue[1..], event.(ns := event.ns - queue[0].ns), base + queue[0].ns);
      InsertDuesLater(queue, event, base);
    }
  }

  lemma {:induction false} InsertDuesFirst(queue: seq<Event>, event: Event, base: nat)
    requires |queue| > 0 && event.ns <= queue[0].ns
    ensures Dues(Insert(queue, event), base) == PutAt(Dues(queue, base), Place(queue, event.ns), base + event.ns)
  {
    hide *;
    var later := queue[0].(ns := queue[0].ns - event.ns);
    var tail := Dues(queue[1..], base + queue[0].ns);
    FirstStep(queue, event, base);
    PutFirst(Dues(queue, base), base + event.ns);
    DuesCons(event, [later] + queue[1..], base);
    DuesCons(later, queue[1..], base + event.ns);
    assert base + event.ns + later.ns == base + queue[0].ns;
    assert Dues(Insert(queue, event), base) == [base + event.ns] + ([base + queue[0].ns] + tail);
  }

  lemma {:induction false} FirstStep(queue: seq<Event>, event: Event, base: nat)
    requires |queue| > 0 && event.ns <= queue[0].ns
    ensures var later := queue[0].(ns := queue[0].ns - event.ns);
            && Insert(queue, event) == [event] + ([later] + queue[1..])
            && Dues(queue, base) == [base + queue[0].ns] + Dues(queue[1..], base + queue[0].ns)
            && Place(queue, event.ns) == 0
  {
  }

  lemma {:induction false} PutFirst<T>(s: seq<T>, x: T)
    ensures PutAt(s, 0, x) == [x] + s
  {
  }

  lemma {:induction false} InsertDuesLater(queue: seq<Event>, event: Event, base: nat)
    requires |queue| > 0 && event.ns > queue[0].ns
    requires var rest, more := event.(ns := event.ns - queue[0].ns), base + queue[0].ns;
             Dues(Insert(queue[1..], rest), more) ==
             PutAt(Dues(queue[1..], more), Place(queue[1..], rest.ns), base + event.ns)
    ensures Dues(Insert(queue, event), base) == PutAt(Dues(queue, base), Place(queue, event.ns), base + event.ns)
  {
    hide *;
    var rest, more := event.(ns := event.ns - queue[0].ns), base + queue[0].ns;
    var tail := Dues(queue[1..], more);
    LaterStep(queue, event, base);
    DuesCons(queue[0], Insert(queue[1..], rest), base);
    PutInto(more, tail, Place(queue[1..], rest.ns), base + event.ns);
  }

  lemma {:induction false} LaterStep(queue: seq<Event>, event: Event, base: nat)
    requires |queue| > 0 && event.ns > queue[0].ns
    ensures var rest, more := event.(ns := event.ns - queue[0].ns), base + queue[0].ns;
            && Insert(queue, event) == [queue[0]] + Insert(queue[1..], rest)
            && Dues(queue, base) == [more] + Dues(queue[1..], more)
            && Place(queue, event.ns) == Place(queue[1..], rest.ns) + 1
  {
  }

  lemma {:induction false} InsertBares(queue: seq<Event>, event: Event)
    ensures Bares(Insert(queue, event)) == PutAt(Bares(queue), Place(queue, event.ns), Bare(event))
    decreases |queue|
  {
    if |queue| == 0 {
    } else if event.ns <= queue[0].ns {
      var later := queue[0].(ns := queue[0].ns - event.ns);
      assert Insert(queue, event) == [event] + ([later] + queue[1..]);
      hide Insert;
      BaresCons(event, [later] + queue[1..]);
      BaresCons(later, queue[1..]);
      assert [queue[0]] + queue[1..] == queue;
      BaresCons(queue[0], queue[1..]);
      PutFirst(Bares(queue), Bare(event));
    } else {
      var rest := event.(ns := event.ns - queue[0].ns);
      InsertBares(queue[1..], rest);
      LaterStep(queue, event, 0);
      hide Insert, Place, PutAt, Bares;
      BaresCons(queue[0], Insert(queue[1..], rest));
      assert [queue[0]] + queue[1..] == queue;
      BaresCons(queue[0], queue[1..]);
      PutInto(Bare(queue[0]), Bares(queue[1..]), Place(queue[1..], rest.ns), Bare(event));
    }
  }

  lemma {:induction false} BaresCons(e: Event, rest: seq<Event>)
    ensures Bares([e] + rest) == [Bare(e)] + Bares(rest)
  {
  }

  lemma {:induction false} DuesCons(e: Event, rest: seq<Event>, base: nat)
    ensures Dues([e] + rest, base) == [base + e.ns] + Dues(rest, base + e.ns)
  {
    assert ([e] + rest)[1..] == rest;
  }

  lemma {:induction false} PutInto<T>(x: T, s: seq<T>, k: nat, m: T)
    requires k <= |s|
    ensures [x] + PutAt(s, k, m) == PutAt([x] + s, k + 1, m)
  {
  }

  // ------------------------------------------------------------ taking time off

  /** `update_queue` subtracts from every delta, in 64-bit arithmetic. */
  function Updated(queue: seq<Event>, ns: nat): (r: seq<Event>)
    requires ns < WORD64
    ensures |r| == |queue|
  {
    seq(|queue|, i requires 0 <= i < |queue| => queue[i].(ns := (queue[i].ns - ns) % WORD64))
  }

  ghost predicate AllEarlierBy(queue: seq<Event>, after: seq<Event>, ns: nat)
  {
    |after| == |queue| && forall i :: 0 <= i < |queue| ==> Dues(after, 0)[i] + ns == Dues(queue, 0)[i]
  }

  /** So all due times come closer by that much only if nothing is subtracted, or at most one event is queued. */
  lemma {:induction false} UpdateShiftsIff(queue: seq<Event>, ns: nat)
    requires ns < WORD64 && forall i :: 0 <= i < |queue| ==> queue[i].ns < WORD64
    ensures AllEarlierBy(queue, Updated(queue, ns), ns) <==>
              |queue| == 0 || ns == 0 || (|queue| == 1 && ns <= queue[0].ns)
  {
    var after := Updated(queue, ns);
    if |queue| > 0 {
      DuesAt(queue);
      DuesAt(after);
      if ns == 0 {
        assert after == queue;
      } else if |queue| > 1 {
        Wraps(queue[0].ns, ns);
        Wraps(queue[1].ns, ns);
      } else {
        Wraps(queue[0].ns, ns);
      }
    }
  }

  lemma {:induction false} DuesAt(queue: seq<Event>)
    requires |queue| > 0
    ensures Dues(queue, 0)[0] == queue[0].ns
    ensures |queue| > 1 ==> Dues(queue, 0)[1] == queue[0].ns + queue[1].ns
  {
  }

  lemma {:induction false} Wraps(a: nat, b: nat)
    requires a < WORD64 && b < WORD64
    ensures (a - b) % WORD64 == if b <= a then a - b else a - b + WORD64
  {
    if b > a { assert a - b == -1 * WORD64 + (a - b + WORD64); }
  }

  /** A new event that is due before the front one stops the timer. */
  predicate Stops(queue: seq<Event>, event: Event)
  {
    |queue| > 0 && event.ns <= queue[0].ns
  }

  /** The queue that `schedule_on` puts the event into. */
  function Rebased(queue: seq<Event>, event: Event, elapsed: nat): (r: seq<Event>)
    requires elapsed < WORD64
    ensures |r| == |queue|
  {
    if Stops(queue, event) then Updated(queue, elapsed) else queue
  }

  /** How long before the call the deltas of that queue are counted from: a wait that is not stopped goes on. */
  function Since(queue: seq<Event>, event: Event, elapsed: nat): nat
  {
    if |queue| == 0 || Stops(queue, event) then 0 else elapsed
  }

  /** Counted from the call, every queued event is due as before and the new one when asked for. */
  ghost predicate DuesRight(queue: seq<Event>, event: Event, elapsed: nat)
    requires elapsed < WORD64
  {
    var was, since := Rebased(queue, event, elapsed), Since(queue, event, elapsed);
    var k, dues := Place(was, event.ns), Dues(Insert(was, event), 0);
    && |dues| == |queue| + 1 && dues[k] - since == event.ns
    && forall i :: 0 <= i < |queue| ==> dues[if i < k then i else i + 1] - since == Dues(queue, 0)[i] - elapsed
  }

  /**
   * `schedule_on` keeps all due times if and only if the queue is empty, no time has elapsed,
   * or the new event comes before a single one that is not overdue.
   */
  lemma {:induction false} ScheduleRightIff(queue: seq<Event>, event: Event, elapsed: nat)
    requires elapsed < WORD64 && forall i :: 0 <= i < |queue| ==> queue[i].ns < WORD64
    ensures DuesRight(queue, event, elapsed) <==>
            |queue| == 0 || elapsed == 0 || (|queue| == 1 && Stops(queue, event) && elapsed <= queue[0].ns)
  {
    hide Insert, Place, Dues, Updated, Rebased;
    InsertedDues(queue, event, elapsed);
    if Stops(queue, event) {
      UpdateShiftsIff(queue, elapsed);
      StoppedMeans(queue, event, elapsed);
    } else {
      GoesOnMeans(queue, event, elapsed);
    }
  }

  lemma {:induction false} InsertedDues(queue: seq<Event>, event: Event, elapsed: nat)
    requires elapsed < WORD64
    ensures var was := Rebased(queue, event, elapsed);
            var k, dues := Place(was, event.ns), Dues(Insert(was, event), 0);
            && |dues| == |queue| + 1 && dues[k] == event.ns
            && forall i :: 0 <= i < |queue| ==> dues[if i < k then i else i + 1] == Dues(was, 0)[i]
  {
    hide Insert, Place, Dues, Updated, Rebased;
    InsertKeepsDues(Rebased(queue, event, elapsed), event, 0);
  }

  /** When the timer is stopped, everything depends on the update. */
  lemma {:induction false} StoppedMeans(queue: seq<Event>, event: Event, elapsed: nat)
    requires elapsed < WORD64 && Stops(queue, event)
    ensures DuesRight(queue, event, elapsed) <==> AllEarlierBy(queue, Updated(queue, elapsed), elapsed)
  {
    hide Insert, Place, Dues, Updated;
    InsertedDues(queue, event, elapsed);
    if DuesRight(queue, event, elapsed) {
      assert forall i :: 0 <= i < |queue| ==> Dues(Updated(queue, elapsed), 0)[i] == Dues(queue, 0)[i] - elapsed;
    }
  }

  /** When it goes on, the queued events stay as they are and the new one comes early by what has elapsed. */
  lemma {:induction false} GoesOnMeans(queue: seq<Event>, event: Event, elapsed: nat)
    requires elapsed < WORD64 && !Stops(queue, event)
    ensures DuesRight(queue, event, elapsed) <==> |queue| == 0 || elapsed == 0
  {
    hide Insert, Place, Dues, Updated;
    InsertedDues(queue, event, elapsed);
  }

  /** 3 of 5 have passed and an event 4 from now comes: it goes behind the front one, and no timer is started. */
  lemma SilentExample()
    ensures var queue, event := [Event(0, 5, false)], Event(1, 4, false);
            Stops(queue, event) && event.ns > Rebased(queue, event, 3)[0].ns
  {
  }

  /** 3 of 5 have passed and an event 7 from now comes: it will be due 4 from now. */
  lemma {:induction false} LateExample()
    ensures !DuesRight([Event(0, 5, false)], Event(1, 7, false), 3)
  {
    ScheduleRightIff([Event(0, 5, false)], Event(1, 7, false), 3);
  }

  // ------------------------------------------------------------ starting a timer

  predicate Serves(t: Timer, e: Event)
  {
    t.cpu == e.coreLocal && t.quantum > 0
  }

  datatype Choice = Fits(timer: nat) | Chunks(best: nat, length: nat) | NoTimer

  predicate FitsTimer(t: Timer, e: Event)
  {
    Serves(t, e) && e.ns / t.quantum <= t.maxInterval
  }

  /** The timer loop of `schedule_next_event` from timer i on. */
  function Choose(timers: seq<Timer>, e: Event, i: nat, so: Choice): Choice
    requires i <= |timers| && !so.Fits?
    decreases |timers| - i
  {
    if i == |timers| then so
    else
      var t := timers[i];
      if !Serves(t, e) then Choose(timers, e, i + 1, so)
      else if e.ns / t.quantum <= t.maxInterval then Fits(i)
      else if t.maxInterval > (if so.Chunks? then so.length else 0) then
        Choose(timers, e, i + 1, Chunks(i, t.maxInterval * t.quantum))
      else Choose(timers, e, i + 1, so)
  }

  ghost predicate GoodChoice(timers: seq<Timer>, e: Event, c: Choice, n: nat)
    requires n <= |timers|
  {
    match c
    case Fits(j) => j < |timers| && FitsTimer(timers[j], e) && forall i :: 0 <= i < j ==> !FitsTimer(timers[i], e)
    case Chunks(j, length) =>
      && j < |timers| && Serves(timers[j], e)
      && length == timers[j].maxInterval * timers[j].quantum && 0 < length < e.ns
      && forall i :: 0 <= i < n ==> !FitsTimer(timers[i], e)
    case NoTimer => forall i :: 0 <= i < n ==>
      !FitsTimer(timers[i], e) && (Serves(timers[i], e) ==> timers[i].maxInterval == 0)
  }

  /** A timer is used whole if one can wait that long, else a timer whose longest wait is too short. */
  lemma {:induction false} ChooseIsGood(timers: seq<Timer>, e: Event, i: nat, so: Choice)
    requires i <= |timers| && !so.Fits? && GoodChoice(timers, e, so, i)
    ensures GoodChoice(timers, e, Choose(timers, e, i, so), |timers|)
    decreases |timers| - i
  {
    if i < |timers| {
      var t := timers[i];
      if Serves(t, e) && e.ns / t.quantum > t.maxInterval {
        LongWait(e.ns, t.quantum, t.maxInterval);
        var next := if t.maxInterval > (if so.Chunks? then so.length else 0)
                  then Chunks(i, t.maxInterval * t.quantum) else so;
        ChooseIsGood(timers, e, i + 1, next);
      } else if !Serves(t, e) {
        ChooseIsGood(timers, e, i + 1, so);
      }
    }
  }

  lemma {:induction false} LongWait(ns: nat, quantum: nat, interval: nat)
    requires quantum > 0 && ns / quantum > interval
    ensures interval * quantum < ns && (interval > 0 ==> interval * quantum > 0)
  {
    Division.DivSmall(ns, quantum, interval + 1);
    assert (interval + 1) * quantum == interval * quantum + quantum;
    if interval > 0 { Division.MulMono(1, interval, quantum); }
  }

  function Chunk(e: Event, length: nat): Event { Event(-1, length, e.coreLocal) }

  /** The front event split into whole waits of `length` and a rest. */
  function Split(queue: seq<Event>, length: nat): seq<Event>
    requires |queue| > 0 && length > 0
  {
    seq(queue[0].ns / length, i => Chunk(queue[0], length)) + [queue[0].(ns := queue[0].ns % length)] + queue[1..]
  }

  lemma {:induction false} ChunksDue(e: Event, length: nat, count: nat, base: nat)
    ensures Last(seq(count, i => Chunk(e, length)), base) == base + count * length
    decreases count
  {
    var chunks := seq(count, i => Chunk(e, length));
    if count > 0 {
      assert chunks[1..] == seq(count - 1, i => Chunk(e, length));
      ChunksDue(e, length, count - 1, base + length);
      assert count * length == length + (count - 1) * length;
    }
  }

  /** Splitting keeps the due time of every queued event; the inserted waits fit the timer exactly. */
  lemma {:induction false} SplitKeepsDues(queue: seq<Event>, length: nat, base: nat)
    requires |queue| > 0 && length > 0
    ensures var n := queue[0].ns / length;
            && |Split(queue, length)| == n + |queue|
            && Dues(Split(queue, length), base)[n..] == Dues(queue, base)
            && (forall i :: 0 <= i < n ==> Split(queue, length)[i] == Chunk(queue[0], length))
            && Bares(Split(queue, length))[n..] == Bares(queue)
  {
    var n := queue[0].ns / length;
    var chunks := seq(n, i => Chunk(queue[0], length));
    var rest := [queue[0].(ns := queue[0].ns % length)] + queue[1..];
    assert Split(queue, length) == chunks + rest;
    DuesJoin(chunks, rest, base);
    ChunksDue(queue[0], length, n, base);
    Division.DivMod(queue[0].ns, length);
    LaterStart(queue, queue[0].ns % length, base, n * length);
    assert Bares(chunks + rest)[n..] == Bares(rest) == Bares(queue);
  }

  /** Waiting a while first and shortening the front delta by as much changes no due time. */
  lemma {:induction false} LaterStart(queue: seq<Event>, ns: nat, base: nat, waited: nat)
    requires |queue| > 0 && waited + ns == queue[0].ns
    ensures Dues([queue[0].(ns := ns)] + queue[1..], base + waited) == Dues(queue, base)
  {
    var rest := [queue[0].(ns := ns)] + queue[1..];
    assert rest[1..] == queue[1..];
  }

  /** The queue after `schedule_next_event`; nothing changes where its assertions fail. */
  function Scheduled(queue: seq<Event>, timers: seq<Timer>): seq<Event>
  {
    if |queue| == 0 || queue[0].ns == 0 then queue
    else
      match Choose(timers, queue[0], 0, NoTimer)
      case Chunks(_, length) => if length > 0 then Split(queue, length) else queue
      case _ => queue
  }

  /** The old queue stands behind n new events: nothing is lost, changed or due at another time. */
  ghost predicate Behind(was: seq<Event>, now: seq<Event>, n: nat)
  {
    |now| == n + |was| && Dues(now, 0)[n..] == Dues(was, 0) && Bares(now)[n..] == Bares(was)
  }

  lemma {:induction false} BehindItself(queue: seq<Event>)
    ensures Behind(queue, queue, 0)
  {
  }

  lemma {:induction false} SplitBehind(queue: seq<Event>, length: nat)
    requires |queue| > 0 && length > 0
    ensures Behind(queue, Split(queue, length), queue[0].ns / length)
    ensures forall i :: 0 <= i < queue[0].ns / length ==>
              Split(queue, length)[i] == Event(-1, length, queue[0].coreLocal)
  {
    hide Split, Dues;
    SplitKeepsDues(queue, length, 0);
  }

  /** The timer is of the event's kind and can wait as long in one go. */
  predicate CanWait(t: Timer, e: Event)
  {
    t.cpu == e.coreLocal && t.quantum > 0 && e.ns / t.quantum <= t.maxInterval
  }

  // ------------------------------------------------------------ the manager's queue

  datatype Start = Idle | Started(timer: nat, interval: nat) | AssertionFails

  class EventManager {
    const timers: seq<Timer>
    var queue: seq<Event>

    constructor (timers: seq<Timer>)
      ensures this.timers == timers && queue == []
    {
      this.timers := timers;
      queue := [];
    }

    method UpdateQueue(ns: nat)
      requires ns < WORD64
      modifies this
      ensures queue == Updated(old(queue), ns)
    {
      var i := 0;
      while i < |queue|
        invariant 0 <= i <= |queue| == |old(queue)|
        invariant forall j :: 0 <= j < |queue| ==>
                  queue[j] == if j < i then Updated(old(queue), ns)[j] else old(queue)[j]
      {
        queue := queue[i := queue[i].(ns := (queue[i].ns - ns) % WORD64)];
        i := i + 1;
      }
    }

    /** `waits` is how many waits are put in front of the queue. */
    method ScheduleNextEvent() returns (r: Start, ghost waits: nat)
      modifies this
      ensures r.Started? ==>
                r.timer < |timers| && timers[r.timer].quantum > 0 && r.interval <= timers[r.timer].maxInterval
      // every event stays queued and due as before, behind waits of the longest interval of the timer
      ensures Behind(old(queue), queue, waits) && (waits == 0 ==> queue == old(queue))
      ensures waits > 0 ==>
                && r.Started? && |old(queue)| > 0 && r.interval == timers[r.timer].maxInterval
                && forall i :: 0 <= i < waits ==>
                     queue[i] ==
                     Event(-1, timers[r.timer].maxInterval * timers[r.timer].quantum, old(queue)[0].coreLocal)
      // which timer is started
      ensures r.Started? ==> |old(queue)| > 0 && timers[r.timer].cpu == old(queue)[0].coreLocal
      ensures r.Started? && waits == 0 ==> CanWait(timers[r.timer], old(queue)[0])
      ensures r.Started? && waits == 0 ==> forall i :: 0 <= i < r.timer ==> !CanWait(timers[i], old(queue)[0])
      ensures waits > 0 ==> forall i :: 0 <= i < |timers| ==> !CanWait(timers[i], old(queue)[0])
      ensures r.AssertionFails? <==>
                && |old(queue)| > 0
                && (|| old(queue)[0].ns == 0
                    || forall i ::
                         0 <= i < |timers| && timers[i].cpu == old(queue)[0].coreLocal && timers[i].quantum > 0 ==>
                           timers[i].maxInterval == 0 && !CanWait(timers[i], old(queue)[0]))
      ensures queue == Scheduled(old(queue), timers)
      ensures r.Idle? <==> |old(queue)| == 0
      // the timer waits for the front event, to within one quantum
      ensures r.Started? ==> |queue| > 0 && queue[0].ns / timers[r.timer].quantum == r.interval
      ensures r.AssertionFails? ==>
                queue[0].ns == 0 ||
                forall i :: 0 <= i < |timers| && Serves(timers[i], queue[0]) ==> timers[i].maxInterval == 0
    {
      hide Behind;
      BehindItself(queue);
      if |queue| == 0 {
        return Idle, 0;
      }
      var event := queue[0];
      if event.ns == 0 {
        return AssertionFails, 0;
      }
      var choice := ChooseTimer(event);
      ChooseIsGood(timers, event, 0, NoTimer);
      assert forall i :: 0 <= i < |timers| ==> FitsTimer(timers[i], event) == CanWait(timers[i], event);
      match choice {
        case Fits(j) =>
          return Started(j, event.ns / timers[j].quantum), 0;
        case NoTimer =>
          return AssertionFails, 0;
        case Chunks(j, length) =>
          SplitBehind(queue, length);
          ChunkInterval(timers[j].maxInterval, timers[j].quantum);
          LongerThanOne(event.ns, length);
          ghost var n := event.ns / length;
          queue := Split(queue, length);
          return Started(j, timers[j].maxInterval), n;
      }
    }

    method ChooseTimer(event: Event) returns (choice: Choice)
      ensures choice == Choose(timers, event, 0, NoTimer)
    {
      choice := NoTimer;
      var i := 0;
      while i < |timers|
        invariant 0 <= i <= |timers| && !choice.Fits?
        invariant Choose(timers, event, i, choice) == Choose(timers, event, 0, NoTimer)
      {
        var t := timers[i];
        if Serves(t, event) {
          var interval := event.ns / t.quantum;
          if interval <= t.maxInterval {
            return Fits(i);
          } else if t.maxInterval > (if choice.Chunks? then choice.length else 0) {
            choice := Chunks(i, t.maxInterval * t.quantum);
          }
        }
        i := i + 1;
      }
    }

    /**
     * Queues an event `event.ns` from now; `elapsed` is what the timer of the front event
     * reports when it is stopped.  `silent` tells that it was stopped and none was started.
     */
    method ScheduleOn(event: Event, elapsed: nat) returns (silent: bool, ghost waits: nat, ghost place: nat)
      requires event.ns < WORD64 && elapsed < WORD64 && forall i :: 0 <= i < |queue| ==> queue[i].ns < WORD64
      modifies this
      ensures var was := Rebased(old(queue), event, elapsed);
              queue == if |was| == 0 || event.ns <= was[0].ns
                       then Scheduled(Insert(was, event), timers) else Insert(was, event)
      ensures silent <==> Stops(old(queue), event) && event.ns > Rebased(old(queue), event, elapsed)[0].ns
      // nothing is lost: behind the waits stand all queued events, with the new one at its place
      ensures |queue| == waits + |old(queue)| + 1 && place <= |old(queue)|
      ensures Bares(queue)[waits..] == PutAt(Bares(old(queue)), place, Bare(event))
      ensures Dues(queue, 0)[waits..] == PutAt(Dues(Rebased(old(queue), event, elapsed), 0), place, event.ns)
      ensures forall i :: 0 <= i < |old(queue)| ==>
                (i < place <==> Dues(Rebased(old(queue), event, elapsed), 0)[i] < event.ns)
      ensures forall i :: 0 <= i < |old(queue)| ==>
                Rebased(old(queue), event, elapsed)[i].ns ==
                if event.ns <= old(queue)[0].ns then (old(queue)[i].ns - elapsed) % 0x1_0000_0000_0000_0000
                else old(queue)[i].ns
    {
      hide Insert, Scheduled, Updated, Behind, Dues, Bares, Place, PutAt;
      ghost var goal := Rebased(queue, event, elapsed);
      BehindItself(Insert(goal, event));
      place := Place(goal, event.ns);
      var left, i, updated := event, 0, false;
      ghost var was := queue;
      ProgressStart(queue, event);
      while i < |queue|
        invariant 0 <= i <= |queue| && queue == was && Progress(was, event, i, left)
        invariant updated ==> Stops(old(queue), event) && was == Rebased(old(queue), event, elapsed)
        invariant !updated ==> was == old(queue)
        decreases !updated, |queue| - i
      {
        ProgressStep(was, event, i, left);
        if left.ns <= queue[i].ns {
          if i == 0 && !updated {
            UpdateQueue(elapsed);
            was := queue;
            ProgressStart(queue, event);
            updated := true;
          } else {
            queue := queue[..i] + [left, queue[i].(ns := queue[i].ns - left.ns)] + queue[i + 1..];
            waits := 0;
            if i == 0 {
              var r;
              r, waits := ScheduleNextEvent();
            }
            Arrived(old(queue), event, elapsed, queue, waits);
            return updated && i > 0, waits, place;
          }
        } else {
          left := left.(ns := left.ns - queue[i].ns);
          i := i + 1;
        }
      }
      ProgressEnd(was, event, left);
      queue := queue + [left];
      waits := 0;
      if |queue| == 1 {
        var r;
        r, waits := ScheduleNextEvent();
      }
      Arrived(old(queue), event, elapsed, queue, waits);
      return updated, waits, place;
    }

    /** The loop of `handle_event`: the front event and those behind it with delta zero. */
    method FireDue() returns (fired: seq<int>)
      requires |queue| > 0
      modifies this
      ensures 0 < |fired| <= |old(queue)| && queue == old(queue)[|fired|..] && fired == Tags(old(queue))[..|fired|]
      ensures forall i :: 0 < i < |fired| ==> old(queue)[i].ns == 0
      ensures |fired| < |old(queue)| ==> old(queue)[|fired|].ns > 0
    {
      ghost var was := queue;
      fired, queue := [queue[0].tag], queue[1..];
      while |queue| > 0 && queue[0].ns == 0
        invariant 0 < |fired| <= |was| && queue == was[|fired|..] && fired == Tags(was)[..|fired|]
        invariant forall i :: 0 < i < |fired| ==> was[i].ns == 0
        decreases |queue|
      {
        fired, queue := fired + [queue[0].tag], queue[1..];
      }
    }

    /** Fires the front event and all that are due at the same time, then starts the next wait. */
    method HandleEvent() returns (fired: seq<int>, ghost waits: nat)
      modifies this
      ensures |fired| <= |old(queue)| && fired == Tags(old(queue))[..|fired|]
      ensures |old(queue)| > 0 ==> |fired| > 0
      ensures forall i :: 0 <= i < |old(queue)| ==> (i < |fired| <==> Dues(old(queue), 0)[i] == Dues(old(queue), 0)[0])
      ensures queue == Scheduled(old(queue)[|fired|..], timers)
      ensures forall i :: |fired| <= i < |old(queue)| ==>
                Dues(old(queue)[|fired|..], 0)[i - |fired|] + old(queue)[0].ns == Dues(old(queue), 0)[i]
      // nothing else is lost: behind the waits stand all events that did not fire, due as before,
      // counted from the time that just came
      ensures |queue| == waits + |old(queue)| - |fired|
      ensures Bares(queue)[waits..] == Bares(old(queue))[|fired|..]
      ensures StillDue(old(queue), |fired|, queue, waits)
    {
      hide *;
      ghost var was := queue;
      if |queue| == 0 {
        NothingScheduled(queue, timers);
        return [], 0;
      }
      fired := FireDue();
      FiredTogether(was, |fired|);
      var r;
      r, waits := ScheduleNextEvent();
      LeftBehind(was, |fired|, queue, waits);
    }
  }

  /** All but the first n events are due as before, counted from when the first was due, behind the waits. */
  ghost predicate StillDue(was: seq<Event>, n: nat, now: seq<Event>, waits: nat)
  {
    |now| == waits + |was| - n &&
    forall i :: n <= i < |was| ==> Dues(now, 0)[waits + i - n] + was[0].ns == Dues(was, 0)[i]
  }

  lemma {:induction false} LeftBehind(was: seq<Event>, n: nat, now: seq<Event>, waits: nat)
    requires 0 < n <= |was| && (forall i :: 0 < i < n ==> was[i].ns == 0) && (n < |was| ==> was[n].ns > 0)
    requires Behind(was[n..], now, waits)
    ensures |now| == waits + |was| - n && Bares(now)[waits..] == Bares(was)[n..] && StillDue(was, n, now, waits)
  {
    hide Dues, Bares, Behind;
    FiredTogether(was, n);
    BaresFrom(was, n);
    BehindMeans(was[n..], now, waits);
    forall i | n <= i < |was|
      ensures Dues(now, 0)[waits + i - n] + was[0].ns == Dues(was, 0)[i]
    {
      assert Dues(now, 0)[waits + (i - n)] == Dues(was[n..], 0)[i - n];
    }
  }

  lemma {:induction false} BehindMeans(was: seq<Event>, now: seq<Event>, n: nat)
    requires Behind(was, now, n)
    ensures |now| == n + |was| && Dues(now, 0)[n..] == Dues(was, 0) && Bares(now)[n..] == Bares(was)
    ensures forall i :: 0 <= i < |was| ==> Dues(now, 0)[n + i] == Dues(was, 0)[i]
  {
    hide Dues, Bares;
    assert forall i :: 0 <= i < |was| ==> Dues(now, 0)[n + i] == Dues(now, 0)[n..][i];
  }

  lemma {:induction false} NothingScheduled(queue: seq<Event>, timers: seq<Timer>)
    requires |queue| == 0
    ensures Scheduled(queue[0..], timers) == queue && Tags(queue)[..0] == [] && Bares(queue)[0..] == Bares(queue)
    ensures StillDue(queue, 0, queue, 0)
  {
  }

  lemma {:induction false} BaresFrom(queue: seq<Event>, n: nat)
    requires n <= |queue|
    ensures Bares(queue[n..]) == Bares(queue)[n..]
  {
  }

  /** What `schedule_on` leaves, once the queue stands behind the waits of `schedule_next_event`. */
  lemma {:induction false} Arrived(queue: seq<Event>, event: Event, elapsed: nat, now: seq<Event>, waits: nat)
    requires elapsed < WORD64 && Behind(Insert(Rebased(queue, event, elapsed), event), now, waits)
    ensures var was := Rebased(queue, event, elapsed);
            var place := Place(was, event.ns);
            && |now| == waits + |queue| + 1 && place <= |queue|
            && Bares(now)[waits..] == PutAt(Bares(queue), place, Bare(event))
            && Dues(now, 0)[waits..] == PutAt(Dues(was, 0), place, event.ns)
            && (forall i :: 0 <= i < |queue| ==> (i < place <==> Dues(was, 0)[i] < event.ns))
            && (forall i :: 0 <= i < |queue| ==>
                  was[i].ns == if event.ns <= queue[0].ns then (queue[i].ns - elapsed) % WORD64 else queue[i].ns)
  {
    hide Insert, Updated, Behind, Dues, Bares, Place, Rebased;
    var was := Rebased(queue, event, elapsed);
    RebasedMeans(queue, event, elapsed);
    InsertKeepsDues(was, event, 0);
    PlaceIsOrdered(was, event.ns, 0);
    InsertLonger(was, event);
    BehindMeans(Insert(was, event), now, waits);
  }

  lemma {:induction false} InsertLonger(queue: seq<Event>, event: Event)
    ensures |Insert(queue, event)| == |queue| + 1
    decreases |queue|
  {
    if |queue| > 0 && event.ns > queue[0].ns { InsertLonger(queue[1..], event.(ns := event.ns - queue[0].ns)); }
  }

  lemma {:induction false} RebasedMeans(queue: seq<Event>, event: Event, elapsed: nat)
    requires elapsed < WORD64
    ensures Bares(Rebased(queue, event, elapsed)) == Bares(queue)
    ensures forall i :: 0 <= i < |queue| ==>
              Rebased(queue, event, elapsed)[i].ns ==
              if event.ns <= queue[0].ns then (queue[i].ns - elapsed) % WORD64 else queue[i].ns
  {
  }

  lemma {:induction false} ProgressStart(queue: seq<Event>, event: Event)
    ensures Progress(queue, event, 0, event)
  {
    assert queue[0..] == queue && queue[..0] + Insert(queue, event) == Insert(queue, event);
  }

  /** `left` is what remains of the event behind the first i of the queue. */
  ghost predicate Progress(queue: seq<Event>, event: Event, i: nat, left: Event)
    requires i <= |queue|
  {
    && queue[..i] + Insert(queue[i..], left) == Insert(queue, event)
    && (i == 0 ==> left == event) && (i > 0 ==> event.ns > queue[0].ns)
  }

  lemma {:induction false} ProgressStep(queue: seq<Event>, event: Event, i: nat, left: Event)
    requires i < |queue| && Progress(queue, event, i, left)
    ensures left.ns <= queue[i].ns ==>
              queue[..i] + [left, queue[i].(ns := queue[i].ns - left.ns)] + queue[i + 1..] == Insert(queue, event)
    ensures left.ns > queue[i].ns ==> Progress(queue, event, i + 1, left.(ns := left.ns - queue[i].ns))
  {
    assert queue[i..][1..] == queue[i + 1..];
    assert queue[..i + 1] == queue[..i] + [queue[i]];
    if left.ns > queue[i].ns {
      var rest := Insert(queue[i + 1..], left.(ns := left.ns - queue[i].ns));
      assert queue[..i] + ([queue[i]] + rest) == queue[..i] + [queue[i]] + rest;
    }
  }

  lemma {:induction false} ProgressEnd(queue: seq<Event>, event: Event, left: Event)
    requires Progress(queue, event, |queue|, left)
    ensures queue + [left] == Insert(queue, event)
  {
    assert queue[|queue|..] == [] && queue[..|queue|] == queue;
  }

  lemma {:induction false} ChunkInterval(interval: nat, quantum: nat)
    requires quantum > 0
    ensures (interval * quantum) / quantum == interval
  {
    Division.DivUnique(interval * quantum, quantum, interval, 0);
  }

  lemma {:induction false} LongerThanOne(ns: nat, length: nat)
    requires 0 < length < ns
    ensures ns / length > 0
  {
  }

  /** The first n events are due together when all but the first of them have delta zero. */
  lemma {:induction false} FiredTogether(queue: seq<Event>, n: nat)
    requires 0 < n <= |queue| && (forall i :: 0 < i < n ==> queue[i].ns == 0) && (n < |queue| ==> queue[n].ns > 0)
    ensures forall i :: 0 <= i < |queue| ==> (i < n <==> Dues(queue, 0)[i] == Dues(queue, 0)[0])
    ensures forall i :: n <= i < |queue| ==> Dues(queue[n..], 0)[i - n] + queue[0].ns == Dues(queue, 0)[i]
  {
    var head, tail := queue[..n], queue[n..];
    assert queue == head + tail;
    DuesJoin(head, tail, 0);
    SameTime(head);
    DuesShift(tail, 0, queue[0].ns);
    DuesGrow(tail, queue[0].ns);
    if |tail| > 0 { assert Dues(tail, queue[0].ns)[0] == queue[0].ns + tail[0].ns; }
  }

  lemma {:induction false} SameTime(head: seq<Event>)
    requires |head| > 0 && forall i :: 0 < i < |head| ==> head[i].ns == 0
    ensures Last(head, 0) == head[0].ns && forall i :: 0 <= i < |head| ==> Dues(head, 0)[i] == head[0].ns
  {
    ZeroDeltas(head[1..], head[0].ns);
  }

  lemma {:induction false} ZeroDeltas(queue: seq<Event>, base: nat)
    requires forall i :: 0 <= i < |queue| ==> queue[i].ns == 0
    ensures Last(queue, base) == base && forall i :: 0 <= i < |queue| ==> Dues(queue, base)[i] == base
  {
    if |queue| > 0 { ZeroDeltas(queue[1..], base); }
  }

  /** Two events 5 apart after 3 have passed: the second comes 6 closer. */
  lemma {:induction false} UpdateExample()
    ensures var queue := [Event(0, 5, false), Event(1, 5, false)];
            Dues(queue, 0) == [5, 10] && Dues(Updated(queue, 3), 0) == [2, 4]
  {
    var queue := [Event(0, 5, false), Event(1, 5, false)];
    var after := Updated(queue, 3);
    assert queue[1..] == [Event(1, 5, false)] && after[1..] == [Event(1, 2, false)];
    assert queue[1..][1..] == [] && after[1..][1..] == [];
  }
}
