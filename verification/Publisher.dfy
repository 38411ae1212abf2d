/**
 The device-event daemon publishes device states from a second thread. The event thread records the
 requested action in the device configuration and queues the configuration; the publishing thread takes
 configurations from the queue and sets their parameters.

 The two threads interleave at every access to shared data. A step is one critical section or one
 unlocked access. `requested` is the unlocked action field of each configuration.
 */
module Publisher {

  type Conf = nat

  datatype DeviceAction = ActionAdd | ActionOther

  datatype Value = Added | Removed

  /** What the thread writes for an action it has read. */
  function ValueOf(a: DeviceAction): Value { if a == ActionAdd then Added else Removed }

  /** The published value tells whether the device was added. */
  predicate Tells(v: Value, a: DeviceAction) {
    v == Added <==> a == ActionAdd
  }

  /** The event thread: idle, action written, configuration queued, thread known to exist. */
  datatype Producer = Idle | Wrote(c: Conf) | Queued | Spawned

  /** The publishing thread, by what it does next and what it holds. */
  datatype Consumer =
    | NotStarted
    | Waiting
    | Taking
    | FoundNone
    | Took(c: Conf)
    | Reading(c: Conf)
    | Setting(c: Conf, v: Value)
    | Failed(c: Conf)
    | Requeued

  datatype State = State(
    queue: seq<Conf>, empty: bool, requested: map<Conf, DeviceAction>, published: map<Conf, Value>,
    producer: Producer, consumer: Consumer)

  const Start := State([], true, map[], map[], Idle, NotStarted)

  datatype Step =
    | Request(c: Conf, a: DeviceAction)
    | Enqueue
    | Spawn(ok: bool)
    | Signal
    | Wake
    | Take
    | MarkEmpty
    | MarkBusy
    | Read
    | Set(ok: bool)
    | Requeue
    | AfterRequeue

  predicate Enabled(s: State, a: Step) {
    match a
    case Request(_, _) => s.producer.Idle?
    case Enqueue => s.producer.Wrote?
    case Spawn(_) => s.producer.Queued?
    case Signal => s.producer.Spawned?
    case Wake => s.consumer.Waiting?
    case Take => s.consumer.Taking?
    case MarkEmpty => s.consumer.FoundNone?
    case MarkBusy => s.consumer.Took?
    case Read => s.consumer.Reading? && s.consumer.c in s.requested
    case Set(_) => s.consumer.Setting?
    case Requeue => s.consumer.Failed?
    case AfterRequeue => s.consumer.Requeued?
  }

  function Next(s: State, a: Step): State
    requires Enabled(s, a)
  {
    match a
    case Request(c, act) => s.(requested := s.requested[c := act], producer := Wrote(c))
    case Enqueue =>
      // a configuration whose list node is linked to itself is not in the queue
      s.(queue := if s.producer.c in s.queue then s.queue else s.queue + [s.producer.c], producer := Queued)
    case Spawn(ok) =>
      if !s.consumer.NotStarted? then s.(producer := Spawned)
      else if ok then s.(producer := Spawned, consumer := Waiting)
      else s.(producer := Idle)
    case Signal => s.(empty := false, producer := Idle)
    // the wait is timed, so it also ends without a signal
    case Wake => s.(consumer := Taking)
    case Take =>
      if s.queue == [] then s.(consumer := FoundNone) else s.(queue := s.queue[1..], consumer := Took(s.queue[0]))
    case MarkEmpty => s.(empty := true, consumer := Waiting)
    case MarkBusy => s.(empty := false, consumer := Reading(s.consumer.c))
    case Read => s.(consumer := Setting(s.consumer.c, ValueOf(s.requested[s.consumer.c])))
    case Set(ok) =>
      if ok then s.(published := s.published[s.consumer.c := s.consumer.v], consumer := Waiting)
      else s.(consumer := Failed(s.consumer.c))
    // unlike Enqueue, this does not look whether the configuration is queued already; `PublisherRing` has
    // what the list is then, and the runs here stop before it
    case Requeue => s.(queue := s.queue + [s.consumer.c], consumer := Requeued)
    case AfterRequeue => s.(empty := true, consumer := Waiting)
  }

  /** A failed set is retried before its configuration was requested again. */
  predicate CleanRetry(s: State, a: Step) {
    a.Requeue? && s.consumer.Failed? ==> s.consumer.c !in s.queue
  }

  function Run(steps: seq<Step>): State {
    if steps == [] then Start
    else
      var s := Run(steps[..|steps| - 1]);
      if Enabled(s, steps[|steps| - 1]) then Next(s, steps[|steps| - 1]) else s
  }

  /** An interleaving of the two threads whose retries are clean. */
  predicate Legal(steps: seq<Step>) {
    steps == [] ||
    var before, a := steps[..|steps| - 1], steps[|steps| - 1];
    Legal(before) && Enabled(Run(before), a) && CleanRetry(Run(before), a)
  }

  // ---- The invariant --------------------------------------------------------------

  predicate NoDuplicates(q: seq<Conf>) {
    forall i, j | 0 <= i < j < |q| :: q[i] != q[j]
  }

  /** The configuration will still be taken, or taken again. */
  predicate Pending(s: State, c: Conf) {
    c in s.queue || s.producer == Wrote(c)
  }

  /** The publishing thread has the configuration and has not yet looked at its action. */
  predicate InHand(s: State, c: Conf) {
    s.consumer == Took(c) || s.consumer == Reading(c) || s.consumer == Failed(c)
  }

  predicate UpToDate(s: State, c: Conf)
    requires c in s.requested
  {
    c in s.published && Tells(s.published[c], s.requested[c])
  }

  /** The last requested action of `c` is published, or some step that publishes it is still ahead. */
  predicate Covered(s: State, c: Conf)
    requires c in s.requested
  {
    || Pending(s, c)
    || InHand(s, c)
    || (if s.consumer.Setting? && s.consumer.c == c then Tells(s.consumer.v, s.requested[c]) else UpToDate(s, c))
  }

  function Held(k: Consumer): set<Conf> {
    if k.Took? || k.Reading? || k.Setting? || k.Failed? then {k.c} else {}
  }

  ghost predicate Inv(s: State) {
    && NoDuplicates(s.queue)
    && (forall c | c in s.queue || c in Held(s.consumer) :: c in s.requested)
    && (s.producer.Wrote? ==> s.producer.c in s.requested)
    && (forall c | c in s.requested :: Covered(s, c))
  }

  lemma StepKeepsCovered(s: State, a: Step, c: Conf)
    requires Inv(s) && Enabled(s, a) && c in Next(s, a).requested
    ensures Covered(Next(s, a), c)
  {
    if c in s.requested {
      assert Covered(s, c);
    }
    if a.Take? && s.queue != [] {
      assert s.queue == [s.queue[0]] + Next(s, a).queue;
    }
  }

  lemma StepKeepsQueue(s: State, a: Step)
    requires Inv(s) && Enabled(s, a) && CleanRetry(s, a)
    ensures var s1 := Next(s, a);
            && NoDuplicates(s1.queue)
            && (forall c | c in s1.queue || c in Held(s1.consumer) :: c in s1.requested)
            && (s1.producer.Wrote? ==> s1.producer.c in s1.requested)
  {
    if a.Take? && s.queue != [] {
      assert s.queue == [s.queue[0]] + Next(s, a).queue;
    }
  }

  lemma StepKeepsInv(s: State, a: Step)
    requires Inv(s) && Enabled(s, a) && CleanRetry(s, a)
    ensures Inv(Next(s, a))
  {
    StepKeepsQueue(s, a);
    forall c | c in Next(s, a).requested
      ensures Covered(Next(s, a), c)
    {
      StepKeepsCovered(s, a, c);
    }
  }

  lemma {:induction false} RunKeepsInv(steps: seq<Step>)
    requires Legal(steps)
    ensures Inv(Run(steps))
  {
    if steps != [] {
      RunKeepsInv(steps[..|steps| - 1]);
      StepKeepsInv(Run(steps[..|steps| - 1]), steps[|steps| - 1]);
    }
  }

  // ---- No update is lost ----------------------------------------------------------

  /** Both threads are between requests and the queue is empty. */
  predicate Quiet(s: State) {
    s.queue == [] && !s.producer.Wrote? && Held(s.consumer) == {}
  }

  /** The configurations requested in `steps`, with the last action of each. */
  function LastRequested(steps: seq<Step>): map<Conf, DeviceAction> {
    if steps == [] then map[]
    else
      var before, a := LastRequested(steps[..|steps| - 1]), steps[|steps| - 1];
      if a.Request? then before[a.c := a.a] else before
  }

  lemma OnlyRequestWrites(s: State, a: Step)
    requires Enabled(s, a)
    ensures Next(s, a).requested == if a.Request? then s.requested[a.c := a.a] else s.requested
  {
  }

  lemma {:induction false} FieldHoldsLastRequest(steps: seq<Step>)
    requires Legal(steps)
    ensures Run(steps).requested == LastRequested(steps)
  {
    if steps != [] {
      FieldHoldsLastRequest(steps[..|steps| - 1]);
      OnlyRequestWrites(Run(steps[..|steps| - 1]), steps[|steps| - 1]);
    }
  }

  lemma QuietIsUpToDate(s: State, c: Conf)
    requires Inv(s) && Quiet(s) && c in s.requested
    ensures UpToDate(s, c)
  {
    assert Covered(s, c);
  }

  /**
   Under every interleaving a configuration is queued at most once, and whenever the queue is empty and
   both threads are idle, every configuration ever requested is published with its last action.
   */
  lemma NoLostUpdate(steps: seq<Step>)
    requires Legal(steps)
    ensures var s, last := Run(steps), LastRequested(steps);
            && NoDuplicates(s.queue)
            && (Quiet(s) ==> forall c | c in last :: c in s.published && (s.published[c] == Added <==> last[c] == ActionAdd))
  {
    RunKeepsInv(steps);
    FieldHoldsLastRequest(steps);
    var s := Run(steps);
    if Quiet(s) {
      forall c | c in s.requested
        ensures UpToDate(s, c)
      {
        QuietIsUpToDate(s, c);
      }
    }
  }

  lemma Extend(steps: seq<Step>, a: Step)
    requires Legal(steps) && Enabled(Run(steps), a) && CleanRetry(Run(steps), a)
    ensures Legal(steps + [a]) && Run(steps + [a]) == Next(Run(steps), a)
  {
    assert (steps + [a])[..|steps|] == steps;
  }

  /** One configuration, requested and on its way to being published. */
  lemma OneRequestUnderWay() returns (steps: seq<Step>)
    ensures Legal(steps)
    ensures Run(steps) == State([], false, map[0 := ActionAdd], map[], Idle, Setting(0, Added))
  {
    var m := map[0 := ActionAdd];
    Extend([], Request(0, ActionAdd));
    steps := [] + [Request(0, ActionAdd)];
    assert Run(steps) == State([], true, m, map[], Wrote(0), NotStarted);
    Extend(steps, Enqueue);
    steps := steps + [Enqueue];
    assert Run(steps) == State([0], true, m, map[], Queued, NotStarted);
    Extend(steps, Spawn(true));
    steps := steps + [Spawn(true)];
    Extend(steps, Signal);
    steps := steps + [Signal];
    assert Run(steps) == State([0], false, m, map[], Idle, Waiting);
    Extend(steps, Wake);
    steps := steps + [Wake];
    Extend(steps, Take);
    steps := steps + [Take];
    assert Run(steps) == State([], false, m, map[], Idle, Took(0));
    Extend(steps, MarkBusy);
    steps := steps + [MarkBusy];
    Extend(steps, Read);
    steps := steps + [Read];
  }

  /** A second request while the first is being set, followed by a failure: the retry is not clean. */
  lemma RetryCanFindItQueued() returns (steps: seq<Step>)
    ensures Legal(steps) && Run(steps).consumer.Failed? && Run(steps).queue == [Run(steps).consumer.c]
  {
    steps := OneRequestUnderWay();
    Extend(steps, Request(0, ActionOther));
    steps := steps + [Request(0, ActionOther)];
    Extend(steps, Enqueue);
    steps := steps + [Enqueue];
    assert Run(steps).queue == [0];
    Extend(steps, Set(false));
    steps := steps + [Set(false)];
  }

  /** The thread has found nothing, and has yet to mark the queue empty. */
  lemma FoundNothing() returns (steps: seq<Step>)
    ensures Legal(steps)
    ensures Run(steps) == State([], false, map[0 := ActionAdd], map[0 := Added], Idle, FoundNone)
  {
    steps := OneRequestUnderWay();
    Extend(steps, Set(true));
    steps := steps + [Set(true)];
    assert Run(steps) == State([], false, map[0 := ActionAdd], map[0 := Added], Idle, Waiting);
    Extend(steps, Wake);
    steps := steps + [Wake];
    Extend(steps, Take);
    steps := steps + [Take];
  }

  /**
   The mark that the queue is empty is written without the lock, so it can overwrite the one of a new request:
   the thread then waits with a configuration queued, and only the end of the timed wait wakes it.
   */
  lemma WakeUpCanBeMissed() returns (steps: seq<Step>)
    ensures Legal(steps)
    ensures var s := Run(steps); s.queue == [0] && s.empty && s.producer.Idle? && s.consumer.Waiting?
  {
    steps := FoundNothing();
    Extend(steps, Request(0, ActionAdd));
    steps := steps + [Request(0, ActionAdd)];
    Extend(steps, Enqueue);
    steps := steps + [Enqueue];
    assert Run(steps).queue == [0] && Run(steps).consumer.FoundNone?;
    Extend(steps, Spawn(true));
    steps := steps + [Spawn(true)];
    Extend(steps, Signal);
    steps := steps + [Signal];
    assert !Run(steps).empty;
    Extend(steps, MarkEmpty);
    steps := steps + [MarkEmpty];
  }

  // ---- Progress -------------------------------------------------------------------

  /** The next step of the publishing thread when its sets succeed. */
  function Own(s: State): Step
    requires !s.consumer.NotStarted?
  {
    match s.consumer
    case Waiting => Wake
    case Taking => Take
    case FoundNone => MarkEmpty
    case Took(_) => MarkBusy
    case Reading(_) => Read
    case Setting(_, _) => Set(true)
    case Failed(_) => Requeue
    case Requeued => AfterRequeue
  }

  function Distance(k: Consumer): nat {
    match k
    case FoundNone => 5
    case Waiting => 4
    case Taking => 3
    case Took(_) => 7
    case Reading(_) => 6
    case Setting(_, _) => 5
    case Failed(_) => 14
    case Requeued => 5
    case NotStarted => 0
  }

  function Work(s: State): nat { 8 * |s.queue| + Distance(s.consumer) }

  lemma OwnStepWorks(s: State)
    requires Inv(s) && s.producer.Idle? && !s.consumer.NotStarted? && !Quiet(s)
    ensures Enabled(s, Own(s))
    ensures var s1 := Next(s, Own(s));
            && Work(s1) < Work(s) && s1.producer.Idle? && !s1.consumer.NotStarted? && !s1.consumer.Failed?
            && s1.requested == s.requested
  {
  }

  /** Nothing is left to do, and what was requested in `s` is what is published. */
  predicate Settled(s: State, end: State) {
    && Quiet(end) && end.requested == s.requested
    && forall c | c in s.requested :: c in end.published && (end.published[c] == Added <==> s.requested[c] == ActionAdd)
  }

  lemma SettledCarries(s: State, s1: State, end: State)
    requires Settled(s1, end) && s1.requested == s.requested
    ensures Settled(s, end)
  {
  }

  lemma SettledWhenQuiet(steps: seq<Step>)
    requires Legal(steps) && Quiet(Run(steps)) && CleanRetry(Run(steps), Requeue)
    ensures Settled(Run(steps), Run(steps))
  {
    NoLostUpdate(steps);
    FieldHoldsLastRequest(steps);
  }

  /** The next own step is possible, brings the end nearer and asks for nothing new. */
  lemma OneOwnStep(steps: seq<Step>) returns (next: seq<Step>)
    requires Legal(steps) && Run(steps).producer.Idle? && !Run(steps).consumer.NotStarted? && !Quiet(Run(steps))
    requires CleanRetry(Run(steps), Requeue)
    ensures next == steps + [Own(Run(steps))] && Legal(next)
    ensures Run(next).producer.Idle? && !Run(next).consumer.NotStarted? && !Run(next).consumer.Failed?
    ensures Work(Run(next)) < Work(Run(steps)) && Run(next).requested == Run(steps).requested
  {
    RunKeepsInv(steps);
    OwnStepWorks(Run(steps));
    Extend(steps, Own(Run(steps)));
    next := steps + [Own(Run(steps))];
  }

  /** A step of the publishing thread in which no set fails. */
  predicate OwnStep(a: Step) {
    a.Wake? || a.Take? || a.MarkEmpty? || a.MarkBusy? || a.Read? || a == Set(true) || a.Requeue? || a.AfterRequeue?
  }

  lemma {:induction false} DrainsWithin(steps: seq<Step>, n: nat) returns (all: seq<Step>)
    requires Legal(steps) && Run(steps).producer.Idle? && !Run(steps).consumer.NotStarted?
    requires CleanRetry(Run(steps), Requeue) && Work(Run(steps)) <= n
    ensures steps <= all && Legal(all) && Settled(Run(steps), Run(all))
    ensures forall i | |steps| <= i < |all| :: OwnStep(all[i])
    decreases n
  {
    if Quiet(Run(steps)) {
      all := steps;
      SettledWhenQuiet(steps);
    } else {
      var next := OneOwnStep(steps);
      all := DrainsWithin(next, n - 1);
      SettledCarries(Run(steps), Run(next), Run(all));
    }
  }

  /**
   Progress: with the event thread idle, the publishing thread alone reaches a quiet state, at which
   point everything requested is published.
   */
  lemma {:induction false} DrainsAlone(steps: seq<Step>) returns (more: seq<Step>)
    requires Legal(steps) && Run(steps).producer.Idle? && !Run(steps).consumer.NotStarted?
    requires CleanRetry(Run(steps), Requeue)
    ensures Legal(steps + more) && Settled(Run(steps), Run(steps + more))
    ensures forall i | 0 <= i < |more| :: OwnStep(more[i])
  {
    var all := DrainsWithin(steps, Work(Run(steps)));
    more := all[|steps|..];
    assert steps + more == all;
  }
}
