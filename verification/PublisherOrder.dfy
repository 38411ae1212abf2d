/** The order in which configurations are taken, and what the flags of the two threads mean. */
module PublisherOrder {
  import opened Publisher

  // ---- First in, first out ------------------------------------------------------------

  /** What a step puts into the queue. */
  function Entering(s: State, a: Step): seq<Conf> {
    if a.Enqueue? && s.producer.Wrote? && s.producer.c !in s.queue then [s.producer.c]
    else if a.Requeue? && s.consumer.Failed? then [s.consumer.c]
    else []
  }

  /** What a step hands to the publishing thread. */
  function Leaving(s: State, a: Step): seq<Conf> {
    if a.Take? && s.consumer.Taking? && Next(s, a).consumer.Took? then [Next(s, a).consumer.c] else []
  }

  function Entered(steps: seq<Step>): seq<Conf> {
    if steps == [] then []
    else Entered(steps[..|steps| - 1]) + Entering(Run(steps[..|steps| - 1]), steps[|steps| - 1])
  }

  function Left(steps: seq<Step>): seq<Conf> {
    if steps == [] then []
    else Left(steps[..|steps| - 1]) + Leaving(Run(steps[..|steps| - 1]), steps[|steps| - 1])
  }

  lemma StepIsFifo(s: State, a: Step)
    requires Enabled(s, a)
    ensures s.queue + Entering(s, a) == Leaving(s, a) + Next(s, a).queue
  {
    if a.Take? && s.queue != [] {
      assert s.queue == [s.queue[0]] + s.queue[1..];
    }
  }

  /**
   Under every interleaving, configurations are taken in the order in which they were queued, and a retry goes
   behind what waits: what was queued so far is what was taken followed by what is in the queue.
   */
  lemma {:induction false} TakenInOrder(steps: seq<Step>)
    requires Legal(steps)
    ensures Entered(steps) == Left(steps) + Run(steps).queue
  {
    if steps != [] {
      var before, a := steps[..|steps| - 1], steps[|steps| - 1];
      TakenInOrder(before);
      var s := Run(before);
      StepIsFifo(s, a);
      Regroup(Left(before), s.queue, Entering(s, a), Leaving(s, a), Next(s, a).queue);
    }
  }

  lemma Regroup(left: seq<Conf>, queue: seq<Conf>, entering: seq<Conf>, leaving: seq<Conf>, queue': seq<Conf>)
    requires queue + entering == leaving + queue'
    ensures (left + queue) + entering == (left + leaving) + queue'
  {
    assert (left + queue) + entering == left + (queue + entering);
  }

  // ---- The flags ------------------------------------------------------------------------

  /** The mark after a step: whoever writes it last decides it. */
  function Mark(a: Step, before: bool): bool {
    match a
    case Signal => false
    case MarkBusy => false
    case MarkEmpty => true
    case AfterRequeue => true
    case _ => before
  }

  /** The thread starts out with nothing to do. */
  function LastMark(steps: seq<Step>): bool {
    if steps == [] then true else Mark(steps[|steps| - 1], LastMark(steps[..|steps| - 1]))
  }

  lemma StepMarks(s: State, a: Step)
    requires Enabled(s, a) && (s.producer.Spawned? ==> !s.consumer.NotStarted?)
    ensures Next(s, a).empty == Mark(a, s.empty)
    ensures Next(s, a).producer.Spawned? ==> !Next(s, a).consumer.NotStarted?
  {
  }

  /**
   Under every interleaving the event thread signals only once there is a thread to wake, and the mark is the
   one written last: work after a signal or a configuration taken, none after a search that found nothing or a
   retry.
   */
  lemma {:induction false} MarkIsLastWritten(steps: seq<Step>)
    requires Legal(steps)
    ensures Run(steps).empty == LastMark(steps)
    ensures Run(steps).producer.Spawned? ==> !Run(steps).consumer.NotStarted?
  {
    if steps != [] {
      MarkIsLastWritten(steps[..|steps| - 1]);
      StepMarks(Run(steps[..|steps| - 1]), steps[|steps| - 1]);
    }
  }
}
