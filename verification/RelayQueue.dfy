/** The order in which the relay serves its appends: what becomes of each push, read off the
    steps of a run. */
module RelayQueue {
  import opened Ndjson
  import opened FirstWins
  import opened LogFile
  import opened RelayMachine
  import opened Sequences

  /** What becomes of a push: its job finishes, its write fails, or the process dies first. */
  datatype Fate = Finished(job: Job) | WriteFailed(batch: seq<Event>) | Dropped(batch: seq<Event>)

  function BatchOf(fate: Fate): seq<Event> {
    match fate
    case Finished(job) => job.batch
    case WriteFailed(batch) => batch
    case Dropped(batch) => batch
  }

  function BatchesOf(fates: seq<Fate>): (r: seq<seq<Event>>)
    ensures |r| == |fates|
  {
    seq(|fates|, i requires 0 <= i < |fates| => BatchOf(fates[i]))
  }

  function JobsOf(fates: seq<Fate>): seq<Job> {
    if fates == [] then []
    else (if fates[0].Finished? then [fates[0].job] else []) + JobsOf(fates[1..])
  }

  /** The batch being written, and then those not begun. */
  function Waiting(s: State): seq<seq<Event>> {
    (if s.phase.Writing? then [s.phase.batch] else []) + s.queue
  }

  /** A push is taken while the store is up. */
  function PushedBy(s: State, step: Step): seq<seq<Event>> {
    if step.Push? && s.up then [step.batch] else []
  }

  /** A crash drops whatever waits, a failure ends the write in progress, and a job that is
      new among the finished ones has finished. */
  function FatesBy(c: Codec, s: State, step: Step): seq<Fate> {
    var done := Next(c, s, step).done;
    if step == Crash then seq(|Waiting(s)|, i requires 0 <= i < |Waiting(s)| => Dropped(Waiting(s)[i]))
    else if step == Fail && s.phase.Writing? then [WriteFailed(s.phase.batch)]
    else if |done| == |s.done| + 1 then [Finished(done[|s.done|])]
    else []
  }

  function Pushed(c: Codec, s: State, steps: seq<Step>): seq<seq<Event>>
    decreases |steps|
  {
    if steps == [] then [] else PushedBy(s, steps[0]) + Pushed(c, Next(c, s, steps[0]), steps[1..])
  }

  function Fates(c: Codec, s: State, steps: seq<Step>): seq<Fate>
    decreases |steps|
  {
    if steps == [] then [] else FatesBy(c, s, steps[0]) + Fates(c, Next(c, s, steps[0]), steps[1..])
  }

  lemma StepServesInOrder(c: Codec, s: State, step: Step)
    ensures BatchesOf(FatesBy(c, s, step)) + Waiting(Next(c, s, step)) == Waiting(s) + PushedBy(s, step)
    ensures Next(c, s, step).done == s.done + JobsOf(FatesBy(c, s, step))
  {
    match step
    case Push(_) => PushServesInOrder(c, s, step);
    case Write(_) => QuietServesInOrder(c, s, step);
    case Reopen => QuietServesInOrder(c, s, step);
    case Crash =>
      DroppedAreNoJobs(FatesBy(c, s, step));
      CrashServesInOrder(c, s);
    case Fail =>
      DroppedAreNoJobs(FatesBy(c, s, step));
      FailServesInOrder(c, s);
    case Begin =>
      OneJob(c, s, step);
      BeginServesInOrder(c, s);
    case Publish =>
      OneJob(c, s, step);
      PublishServesInOrder(c, s);
  }

  lemma PushServesInOrder(c: Codec, s: State, step: Step)
    requires step.Push?
    ensures FatesBy(c, s, step) == [] && Next(c, s, step).done == s.done
    ensures Waiting(Next(c, s, step)) == Waiting(s) + PushedBy(s, step)
  {
  }

  lemma QuietServesInOrder(c: Codec, s: State, step: Step)
    requires step.Write? || step.Reopen?
    ensures FatesBy(c, s, step) == [] && Next(c, s, step).done == s.done
    ensures Waiting(Next(c, s, step)) == Waiting(s)
  {
  }

  lemma CrashServesInOrder(c: Codec, s: State)
    ensures BatchesOf(FatesBy(c, s, Crash)) == Waiting(s) && Waiting(Next(c, s, Crash)) == []
  {
  }

  lemma FailServesInOrder(c: Codec, s: State)
    ensures BatchesOf(FatesBy(c, s, Fail)) + Waiting(Next(c, s, Fail)) == Waiting(s)
  {
  }

  lemma BeginServesInOrder(c: Codec, s: State)
    ensures BatchesOf(FatesBy(c, s, Begin)) + Waiting(Next(c, s, Begin)) == Waiting(s)
  {
    if s.up && s.phase == Idle && s.queue != [] {
      assert s.queue == [s.queue[0]] + s.queue[1..];
    }
  }

  lemma PublishServesInOrder(c: Codec, s: State)
    ensures BatchesOf(FatesBy(c, s, Publish)) + Waiting(Next(c, s, Publish)) == Waiting(s)
  {
  }

  lemma {:induction false} DroppedAreNoJobs(fates: seq<Fate>)
    requires forall f | f in fates :: !f.Finished?
    ensures JobsOf(fates) == []
  {
    if fates != [] {
      DroppedAreNoJobs(fates[1..]);
    }
  }

  lemma OneJob(c: Codec, s: State, step: Step)
    requires step == Begin || step == Publish
    ensures Next(c, s, step).done == s.done + JobsOf(FatesBy(c, s, step))
  {
    var fates := FatesBy(c, s, step);
    if fates != [] {
      assert fates[1..] == [] && JobsOf(fates) == [fates[0].job];
    }
  }

  lemma BatchesConcat(a: seq<Fate>, b: seq<Fate>)
    ensures BatchesOf(a + b) == BatchesOf(a) + BatchesOf(b)
  {
  }

  lemma {:induction false} JobsConcat(a: seq<Fate>, b: seq<Fate>)
    ensures JobsOf(a + b) == JobsOf(a) + JobsOf(b)
  {
    if a == [] {
      assert a + b == b;
    } else {
      var first := if a[0].Finished? then [a[0].job] else [];
      assert (a + b)[0] == a[0] && (a + b)[1..] == a[1..] + b;
      JobsConcat(a[1..], b);
      Associate(first, JobsOf(a[1..]), JobsOf(b));
      assert JobsOf(a) == first + JobsOf(a[1..]) && JobsOf(a + b) == first + JobsOf(a[1..] + b);
    }
  }

  /** Over every run, crashes and failures included: the pushes taken meet their fates in the
      order in which they were made, and those that have met none yet are, in that order, the
      one being written and then the queue. */
  lemma {:induction false} PushesAreServedInOrder(c: Codec, s: State, steps: seq<Step>)
    ensures var s' := Run(c, s, steps);
            && BatchesOf(Fates(c, s, steps)) + Waiting(s') == Waiting(s) + Pushed(c, s, steps)
            && s'.done == s.done + JobsOf(Fates(c, s, steps))
    decreases |steps|
  {
    if steps != [] {
      var s1 := Next(c, s, steps[0]);
      var now, later := FatesBy(c, s, steps[0]), Fates(c, s1, steps[1..]);
      StepServesInOrder(c, s, steps[0]);
      PushesAreServedInOrder(c, s1, steps[1..]);
      BatchesConcat(now, later);
      JobsConcat(now, later);
      Chained(BatchesOf(now), BatchesOf(later), Waiting(s), Waiting(s1), Waiting(Run(c, s, steps)),
              PushedBy(s, steps[0]), Pushed(c, s1, steps[1..]));
    }
  }

  lemma Chained<T>(a: seq<T>, b: seq<T>, w: seq<T>, w1: seq<T>, w2: seq<T>, p: seq<T>, q: seq<T>)
    requires a + w1 == w + p && b + w2 == w1 + q
    ensures (a + b) + w2 == w + (p + q)
  {
    assert (a + b) + w2 == a + (b + w2) == a + (w1 + q) == (a + w1) + q == w + (p + q);
  }

  // ------------------------------------------------ runs in which nothing goes wrong

  /** The batches of a run's pushes, as they stand in the steps. */
  function PushBatches(steps: seq<Step>): seq<seq<Event>> {
    if steps == [] then []
    else (if steps[0].Push? then [steps[0].batch] else []) + PushBatches(steps[1..])
  }

  predicate Calm(steps: seq<Step>) {
    forall step | step in steps :: step != Crash && step != Fail
  }

  lemma {:induction false} AllPushesTaken(c: Codec, s: State, steps: seq<Step>)
    requires s.up && Calm(steps)
    ensures Pushed(c, s, steps) == PushBatches(steps) && Run(c, s, steps).up
    ensures forall f | f in Fates(c, s, steps) :: f.Finished?
    ensures CleanRun(c, s, steps)
    decreases |steps|
  {
    if steps != [] {
      assert steps[0] in steps && forall step | step in steps[1..] :: step in steps;
      AllPushesTaken(c, Next(c, s, steps[0]), steps[1..]);
    }
  }

  lemma {:induction false} AllFinished(fates: seq<Fate>)
    requires forall f | f in fates :: f.Finished?
    ensures Batches(JobsOf(fates)) == BatchesOf(fates)
  {
    if fates != [] {
      AllFinished(fates[1..]);
      assert fates[0].Finished? && fates == [fates[0]] + fates[1..];
      BatchesConcat([fates[0]], fates[1..]);
      assert Batches(JobsOf(fates)) == [fates[0].job.batch] + Batches(JobsOf(fates[1..]));
    }
  }

  /** Each job reports exactly the ids that its batch added to those before it. */
  ghost predicate Exact(done: seq<Job>) {
    forall i | 0 <= i < |done| :: done[i].accepted == AcceptedOf(Batches(done[..i]), done[i].batch)
  }

  function AcceptedOf(before: seq<seq<Event>>, batch: seq<Event>): seq<string> {
    IdList(Fresh(Ids(Flatten(before)), batch))
  }

  lemma ExactSnoc(done: seq<Job>, job: Job)
    requires Exact(done) && job.accepted == AcceptedOf(Batches(done), job.batch)
    ensures Exact(done + [job])
  {
    var all := done + [job];
    forall i | 0 <= i < |all| ensures all[i].accepted == AcceptedOf(Batches(all[..i]), all[i].batch) {
      assert all[..i] == done[..i];
      assert done[..|done|] == done;
    }
  }

  lemma StepKeepsExact(c: Codec, s: State, step: Step)
    requires JobInv(s) && Refines(c, s) && Exact(s.done)
    ensures Exact(Next(c, s, step).done)
  {
    var done := Next(c, s, step).done;
    FreshIds({}, Flatten(Batches(s.done)));
    assert Ids(Flatten(Batches(s.done))) - {} == Ids(Flatten(Batches(s.done)));
    if done != s.done {
      JobIsExact(c, s, step);
      AppendLast(s.done, done);
      ExactSnoc(s.done, done[|s.done|]);
    }
  }

  lemma AppendLast<T>(a: seq<T>, b: seq<T>)
    requires |b| == |a| + 1 && b[..|a|] == a
    ensures b == a + [b[|a|]]
  {
  }

  lemma JobIsExact(c: Codec, s: State, step: Step)
    requires JobInv(s) && Refines(c, s) && Next(c, s, step).done != s.done
    requires Ids(Log(c, s)) == Ids(Flatten(Batches(s.done)))
    ensures var done := Next(c, s, step).done;
            && |done| == |s.done| + 1 && done[..|s.done|] == s.done
            && done[|s.done|].accepted == AcceptedOf(Batches(s.done), done[|s.done|].batch)
  {
    match step
    case Begin => assert Fresh(Ids(s.events), s.queue[0]) == [] && IdList([]) == [];
    case Publish =>
  }

  lemma {:induction false} AcceptancesAreExact(c: Codec, s: State, steps: seq<Step>)
    requires JobInv(s) && Refines(c, s) && Exact(s.done) && CleanRun(c, s, steps)
    ensures Exact(Run(c, s, steps).done)
    decreases |steps|
  {
    if steps != [] {
      StepRefinesIff(c, s, steps[0]);
      StepKeepsExact(c, s, steps[0]);
      AcceptancesAreExact(c, Next(c, s, steps[0]), steps[1..]);
    }
  }

  /** While no write fails and no crash happens: the finished jobs are a beginning of the pushes
      as they stand in the run, the log is the first-wins set of that beginning, each job was
      told exactly what it added, and the other pushes wait in order. */
  lemma LogFollowsThePushes(c: Codec, steps: seq<Step>)
    requires Calm(steps)
    ensures var s, pushes := Run(c, Empty(), steps), PushBatches(steps);
            var n := |s.done|;
            && n <= |pushes| && Batches(s.done) == pushes[..n] && Waiting(s) == pushes[n..]
            && s.events == Fresh({}, Flatten(pushes[..n]))
            && forall i | 0 <= i < n :: s.done[i].accepted == AcceptedOf(pushes[..i], pushes[i])
  {
    CalmPushesAreServed(c, steps);
    CalmLog(c, steps);
    var s := Run(c, Empty(), steps);
    PrefixOfPushes(s.done, Batches(s.done), Waiting(s), PushBatches(steps));
  }

  lemma CalmPushesAreServed(c: Codec, steps: seq<Step>)
    requires Calm(steps)
    ensures var s := Run(c, Empty(), steps);
            Batches(s.done) + Waiting(s) == PushBatches(steps)
  {
    var s, fates := Run(c, Empty(), steps), Fates(c, Empty(), steps);
    AllPushesTaken(c, Empty(), steps);
    PushesAreServedInOrder(c, Empty(), steps);
    AllFinished(fates);
    assert s.done == [] + JobsOf(fates) == JobsOf(fates);
    assert Waiting(Empty()) == [];
    assert [] + PushBatches(steps) == PushBatches(steps);
  }

  lemma CalmLog(c: Codec, steps: seq<Step>)
    requires Calm(steps)
    ensures var s := Run(c, Empty(), steps);
            s.events == Fresh({}, Flatten(Batches(s.done))) && Exact(s.done)
  {
    EmptyRefines(c);
    AllPushesTaken(c, Empty(), steps);
    RunRefinesFirstWins(c, Empty(), steps);
    AcceptancesAreExact(c, Empty(), steps);
  }

  lemma PrefixOfPushes(done: seq<Job>, served: seq<seq<Event>>, waiting: seq<seq<Event>>, pushes: seq<seq<Event>>)
    requires served + waiting == pushes && Batches(done) == served && Exact(done)
    ensures |done| <= |pushes| && Batches(done) == pushes[..|done|] && waiting == pushes[|done|..]
    ensures forall i | 0 <= i < |done| :: done[i].accepted == AcceptedOf(pushes[..i], pushes[i])
  {
    forall i | 0 <= i < |done| ensures done[i].accepted == AcceptedOf(pushes[..i], pushes[i]) {
      assert Batches(done[..i]) == pushes[..i] && pushes[i] == done[i].batch;
    }
  }
}
