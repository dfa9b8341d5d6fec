/** One project's log as a machine whose steps are the points where the relay's
    asynchronous code can be interrupted: appends wait in a queue, a write reaches the
    disk piece by piece, and memory follows in one synchronous block. */
module RelayMachine {
  import opened Ndjson
  import opened FirstWins
  import opened LogFile

  /** A finished append: what was pushed and what its promise resolved to. */
  datatype Job = Job(batch: seq<Event>, accepted: seq<string>)

  datatype Phase = Idle | Writing(batch: seq<Event>, kept: seq<Event>, written: nat)

  /** `dirty` says that a write failed part way since the store was opened. */
  datatype State = State(
    file: string, up: bool, dirty: bool, events: seq<Event>,
    queue: seq<seq<Event>>, phase: Phase, done: seq<Job>)

  datatype Step =
    | Push(batch: seq<Event>)  // `append` chains a job on the tail
    | Begin                    // the job at the head runs: filter, start writing
    | Write(n: nat)            // n more characters reach the file
    | Publish                  // the write resolved: memory is updated, the job resolves
    | Fail                     // the write rejected: the job rejects, the chain lives on
    | Crash                    // the process dies: only the file is left
    | Reopen                   // a new process hydrates the file

  function Empty(): State {
    State("", true, false, [], [], Idle, [])
  }

  /** A step that is not possible in a state leaves the state as it is. */
  function Next(c: Codec, s: State, step: Step): State {
    match step
    case Push(batch) =>
      if s.up then s.(queue := s.queue + [batch]) else s
    case Begin =>
      if !s.up || s.phase != Idle || s.queue == [] then s
      else
        var batch := s.queue[0];
        var kept := Fresh(Ids(s.events), batch);
        if kept == [] then s.(queue := s.queue[1..], done := s.done + [Job(batch, [])])
        else s.(queue := s.queue[1..], phase := Writing(batch, kept, 0))
    case Write(n) =>
      if !s.phase.Writing? || s.phase.written + n > |Text(c, s.phase.kept)| then s
      else
        var w := s.phase.written;
        s.(file := s.file + Text(c, s.phase.kept)[w..w + n], phase := s.phase.(written := w + n))
    case Publish =>
      if !s.phase.Writing? || s.phase.written != |Text(c, s.phase.kept)| then s
      else s.(events := s.events + s.phase.kept,
              done := s.done + [Job(s.phase.batch, IdList(s.phase.kept))],
              phase := Idle)
    case Fail =>
      if !s.phase.Writing? then s
      else s.(phase := Idle, dirty := s.dirty || s.phase.written > 0)
    case Crash =>
      s.(up := false, dirty := false, events := [], queue := [], phase := Idle)
    case Reopen =>
      if s.up then s
      else match Load(c, s.file)
        case Loaded(events) => s.(up := true, events := events)
        case Rejected(_) => s
  }

  function Run(c: Codec, s: State, steps: seq<Step>): State
    decreases |steps|
  {
    if steps == [] then s else Run(c, Next(c, s, steps[0]), steps[1..])
  }

  lemma {:induction false} RunConcat(c: Codec, s: State, a: seq<Step>, b: seq<Step>)
    ensures Run(c, s, a + b) == Run(c, Run(c, s, a), b)
    decreases |a|
  {
    if a == [] {
      assert a + b == b;
    } else {
      assert (a + b)[1..] == a[1..] + b;
      RunConcat(c, Next(c, s, a[0]), a[1..], b);
    }
  }

  // ------------------------------------------------ memory, file and the durable log

  /** A job at the head of the queue begins, and has something to store. */
  predicate Stores(s: State, step: Step) {
    step == Begin && s.up && s.phase == Idle && s.queue != [] && Fresh(Ids(s.events), s.queue[0]) != []
  }

  /** Each write starts at a line boundary. */
  predicate LineStep(s: State, step: Step) {
    Stores(s, step) ==> Terminated(s.file)
  }

  predicate LineRun(c: Codec, s: State, steps: seq<Step>)
    decreases |steps|
  {
    steps == [] || (LineStep(s, steps[0]) && LineRun(c, Next(c, s, steps[0]), steps[1..]))
  }

  /** The file as it was when the write in progress began. */
  function Base(s: State): string
    requires s.phase.Writing? ==> s.phase.written <= |s.file|
  {
    if s.phase.Writing? then s.file[..|s.file| - s.phase.written] else s.file
  }

  ghost predicate WriteInProgress(c: Codec, s: State) {
    && s.phase.Writing? && s.up
    && s.phase.kept == Fresh(Ids(s.events), s.phase.batch)
    && s.phase.kept != []
    && s.phase.written <= |Text(c, s.phase.kept)|
    && s.phase.written <= |s.file|
    && Terminated(Base(s))
    && Load(c, Base(s)).Loaded?
    && s.file == Base(s) + Text(c, s.phase.kept)[..s.phase.written]
  }

  /** What the file held when the write in progress began, or holds when there is none. */
  function Stored(c: Codec, s: State): seq<Event>
    requires s.phase.Writing? ==> s.phase.written <= |s.file|
  {
    Load(c, Base(s)).events
  }

  /** The relation of memory to file, for each phase. */
  ghost predicate Inv(c: Codec, s: State) {
    && Load(c, s.file).Loaded?
    && IsFragment(c, Tail(s.file))
    && Distinct(s.events)
    && (!s.up ==> s.phase == Idle)
    && (s.phase.Writing? ==> WriteInProgress(c, s))
    && (s.up ==> Ids(s.events) <= Ids(Stored(c, s)))
    && (s.up && !s.dirty ==> s.events == Stored(c, s))
  }

  lemma EmptyInv(c: Codec)
    ensures Inv(c, Empty())
  {
    BlankLine(c, []);
    assert Split("") == [""];
    FragmentOf(c, Event("", ""), 0);
  }

  lemma WriteExtendsFile(c: Codec, s: State, n: nat)
    requires WriteInProgress(c, s)
    requires s.phase.written + n <= |Text(c, s.phase.kept)|
    ensures var s' := Next(c, s, Write(n));
            && s'.file == Base(s) + Text(c, s.phase.kept)[..s.phase.written + n]
            && Base(s') == Base(s)
  {
    CutGrows(Base(s), Text(c, s.phase.kept), s.phase.written, n);
  }

  lemma CutGrows(base: string, text: string, w: nat, n: nat)
    requires w + n <= |text|
    ensures base + text[..w] + text[w..w + n] == base + text[..w + n]
    ensures (base + text[..w + n])[..|base|] == base
  {
    assert text[..w + n] == text[..w] + text[w..w + n];
  }

  lemma WriteKeepsInv(c: Codec, s: State, n: nat)
    requires Lawful(c) && Inv(c, s) && s.phase.Writing?
    requires s.phase.written + n <= |Text(c, s.phase.kept)|
    ensures var s' := Next(c, s, Write(n));
            Inv(c, s') && Stored(c, s') == Stored(c, s)
  {
    WriteExtendsFile(c, s, n);
    LoadCutWrite(c, Base(s), s.phase.kept, s.phase.written + n);
  }

  /** At any point of a write, the file holds what it held before and then the landed events
      that it did not hold. */
  lemma FileDuringWrite(c: Codec, s: State)
    requires Lawful(c) && Inv(c, s) && s.phase.Writing?
    ensures var landed := s.phase.kept[..Landed(c, s.phase.kept, s.phase.written)];
            && Load(c, s.file).events == Stored(c, s) + Fresh(Ids(Stored(c, s)), landed)
            && (!s.dirty ==> Load(c, s.file).events == s.events + landed)
  {
    var n := Landed(c, s.phase.kept, s.phase.written);
    LoadCutWrite(c, Base(s), s.phase.kept, s.phase.written);
    FreshIds(Ids(s.events), s.phase.batch);
    FreshPrefix(Ids(s.events), s.phase.kept, n);
  }

  lemma FreshPrefix(seen: set<string>, kept: seq<Event>, n: nat)
    requires Distinct(kept) && Ids(kept) !! seen && n <= |kept|
    ensures Fresh(seen, kept[..n]) == kept[..n]
  {
    assert kept == kept[..n] + kept[n..];
    IdsConcat(kept[..n], kept[n..]);
    FreshOfNew(seen, kept[..n]);
  }

  /** A whole write leaves what the file held and the new events it did not hold. */
  lemma FileAfterWrite(c: Codec, s: State)
    requires Lawful(c) && Inv(c, s) && s.phase.Writing?
    requires s.phase.written == |Text(c, s.phase.kept)|
    ensures Load(c, s.file).events == Stored(c, s) + Fresh(Ids(Stored(c, s)), s.phase.kept)
  {
    FileDuringWrite(c, s);
    LandedWhole(c, s.phase.kept);
    assert s.phase.kept[..|s.phase.kept|] == s.phase.kept;
  }

  lemma PublishKeepsInv(c: Codec, s: State)
    requires Lawful(c) && Inv(c, s) && s.phase.Writing?
    requires s.phase.written == |Text(c, s.phase.kept)|
    ensures Inv(c, Next(c, s, Publish))
  {
    var kept, stored := s.phase.kept, Stored(c, s);
    FileAfterWrite(c, s);
    FreshIds(Ids(s.events), s.phase.batch);
    DistinctConcat(s.events, kept);
    PublishedIds(s.events, kept, stored);
    if !s.dirty {
      FreshOfNew(Ids(s.events), kept);
    }
  }

  lemma PublishedIds(events: seq<Event>, kept: seq<Event>, stored: seq<Event>)
    requires Ids(events) <= Ids(stored)
    ensures Ids(events + kept) <= Ids(stored + Fresh(Ids(stored), kept))
  {
    IdsConcat(events, kept);
    IdsConcat(stored, Fresh(Ids(stored), kept));
    FreshIds(Ids(stored), kept);
  }

  lemma FailKeepsInv(c: Codec, s: State)
    requires Lawful(c) && Inv(c, s) && s.phase.Writing?
    ensures Inv(c, Next(c, s, Fail))
  {
    FileHoldsStored(c, s);
    if s.phase.written == 0 {
      assert s.file == Base(s) + "" == Base(s);
    }
  }

  /** A write only adds to what the file holds. */
  lemma FileHoldsStored(c: Codec, s: State)
    requires Lawful(c) && Inv(c, s)
    ensures Stored(c, s) <= Load(c, s.file).events
    ensures Ids(Stored(c, s)) <= Ids(Load(c, s.file).events)
  {
    if s.phase.Writing? {
      FileDuringWrite(c, s);
      var landed := s.phase.kept[..Landed(c, s.phase.kept, s.phase.written)];
      IdsConcat(Stored(c, s), Fresh(Ids(Stored(c, s)), landed));
    }
  }

  lemma BeginKeepsInv(c: Codec, s: State)
    requires Inv(c, s) && Stores(s, Begin) && Terminated(s.file)
    ensures var s' := Next(c, s, Begin);
            Inv(c, s') && Base(s') == s.file
  {
    var s' := Next(c, s, Begin);
    assert Base(s') == s.file == s.file + Text(c, s'.phase.kept)[..0];
  }

  lemma StepKeepsInv(c: Codec, s: State, step: Step)
    requires Lawful(c) && Inv(c, s) && LineStep(s, step)
    ensures Inv(c, Next(c, s, step))
  {
    match step
    case Write(n) =>
      if s.phase.Writing? && s.phase.written + n <= |Text(c, s.phase.kept)| {
        WriteKeepsInv(c, s, n);
      }
    case Publish =>
      if s.phase.Writing? && s.phase.written == |Text(c, s.phase.kept)| {
        PublishKeepsInv(c, s);
      }
    case Fail => if s.phase.Writing? { FailKeepsInv(c, s); }
    case Reopen => ScanDistinct(c, Split(s.file), []);
    case Begin => if Stores(s, Begin) { BeginKeepsInv(c, s); }
    case Push(_) =>
    case Crash =>
  }

  /** Over every interleaving of pushes, partial and failed writes, crashes and reopens, as
      long as each write starts at a line boundary: the file can be read, every id that memory
      holds is in its index, and between jobs the two are equal unless a write has failed part
      way since the store was opened. */
  lemma {:induction false} MemoryNeverClaimsMoreThanTheFile(c: Codec, s: State, steps: seq<Step>)
    requires Lawful(c) && Inv(c, s) && LineRun(c, s, steps)
    ensures var s' := Run(c, s, steps);
            && Inv(c, s')
            && Load(c, s'.file).Loaded?
            && (s'.up ==> Ids(s'.events) <= Ids(Load(c, s'.file).events))
            && (s'.up && s'.phase == Idle && !s'.dirty ==> s'.events == Load(c, s'.file).events)
    decreases |steps|
  {
    if steps == [] {
      FileHoldsStored(c, s);
    } else {
      StepKeepsInv(c, s, steps[0]);
      MemoryNeverClaimsMoreThanTheFile(c, Next(c, s, steps[0]), steps[1..]);
    }
  }

  // --------------------------------------------------------- the order of the two

  /** One of the two lists goes on where the other ends. */
  predicate Along(a: seq<Event>, b: seq<Event>) {
    a <= b || b <= a
  }

  /** Each write will make memory what the file holds already, with more or less at the end.
      With no failed write behind it this is always so. */
  predicate OrderedStep(c: Codec, s: State, step: Step) {
    Stores(s, step) ==> Along(s.events + Fresh(Ids(s.events), s.queue[0]), Load(c, s.file).events)
  }

  predicate OrderedRun(c: Codec, s: State, steps: seq<Step>)
    decreases |steps|
  {
    steps == [] || (OrderedStep(c, s, steps[0]) && OrderedRun(c, Next(c, s, steps[0]), steps[1..]))
  }

  ghost predicate OrderInv(c: Codec, s: State) {
    && Inv(c, s)
    && (s.up ==> s.events <= Stored(c, s))
    && (s.phase.Writing? ==> Along(s.events + s.phase.kept, Stored(c, s)))
  }

  lemma PublishKeepsOrder(c: Codec, s: State)
    requires Lawful(c) && OrderInv(c, s) && s.phase.Writing?
    requires s.phase.written == |Text(c, s.phase.kept)|
    ensures OrderInv(c, Next(c, s, Publish))
  {
    PublishKeepsInv(c, s);
    FileAfterWrite(c, s);
    FreshIds(Ids(s.events), s.phase.batch);
    KeptAfterStored(s.events, s.phase.kept, Stored(c, s));
  }

  lemma KeptAfterStored(events: seq<Event>, kept: seq<Event>, stored: seq<Event>)
    requires kept != [] && Distinct(kept) && Ids(kept) !! Ids(events)
    requires events <= stored && Along(events + kept, stored)
    ensures events + kept <= stored + Fresh(Ids(stored), kept)
  {
    ExtendedIff(events, kept, stored, true);
    var extra := stored[|events|..];
    assert stored == events + extra;
    SamePrefix(events, extra, kept);
    SamePrefix(events, kept, extra);
  }

  lemma StepKeepsOrder(c: Codec, s: State, step: Step)
    requires Lawful(c) && OrderInv(c, s) && LineStep(s, step) && OrderedStep(c, s, step)
    ensures OrderInv(c, Next(c, s, step))
  {
    StepKeepsInv(c, s, step);
    match step
    case Write(n) =>
      if s.phase.Writing? && s.phase.written + n <= |Text(c, s.phase.kept)| {
        WriteKeepsInv(c, s, n);
      }
    case Publish =>
      if s.phase.Writing? && s.phase.written == |Text(c, s.phase.kept)| {
        PublishKeepsOrder(c, s);
      }
    case Fail => if s.phase.Writing? { FileHoldsStored(c, s); }
    case Reopen =>
    case Begin => if Stores(s, Begin) { BeginKeepsInv(c, s); }
    case Push(_) =>
    case Crash =>
  }

  /** When, besides, each write agrees with the order of the file, memory is at every moment
      a beginning of what the file holds. */
  lemma {:induction false} MemoryIsAPrefixOfTheFile(c: Codec, s: State, steps: seq<Step>)
    requires Lawful(c) && OrderInv(c, s) && LineRun(c, s, steps) && OrderedRun(c, s, steps)
    ensures var s' := Run(c, s, steps);
            OrderInv(c, s') && (s'.up ==> s'.events <= Load(c, s'.file).events)
    decreases |steps|
  {
    if steps == [] {
      FileHoldsStored(c, s);
    } else {
      StepKeepsOrder(c, s, steps[0]);
      MemoryIsAPrefixOfTheFile(c, Next(c, s, steps[0]), steps[1..]);
    }
  }

  /** What a reader gets now, or will get once the store is up again. */
  function Log(c: Codec, s: State): seq<Event> {
    if s.up then s.events else Load(c, s.file).events
  }

  /** Only a crash can shorten or reorder the log, and it does so unless memory is a beginning
      of what the file holds. */
  lemma StepExtendsLogIff(c: Codec, s: State, step: Step)
    requires !s.up ==> s.phase == Idle
    ensures Log(c, s) <= Log(c, Next(c, s, step))
            <==> (step == Crash && s.up ==> s.events <= Load(c, s.file).events)
  {
  }

  /** The log is append-only and order-preserving across crashes and reopens as well. */
  lemma {:induction false} LogIsAppendOnly(c: Codec, s: State, steps: seq<Step>)
    requires Lawful(c) && OrderInv(c, s) && LineRun(c, s, steps) && OrderedRun(c, s, steps)
    ensures Log(c, s) <= Log(c, Run(c, s, steps))
    ensures Distinct(Log(c, Run(c, s, steps)))
    decreases |steps|
  {
    if steps == [] {
      ScanDistinct(c, Split(s.file), []);
    } else {
      FileHoldsStored(c, s);
      StepExtendsLogIff(c, s, steps[0]);
      StepKeepsOrder(c, s, steps[0]);
      LogIsAppendOnly(c, Next(c, s, steps[0]), steps[1..]);
    }
  }

  /** From an empty directory: the plain claim, and, with the order respected, the full one. */
  lemma RelayFromTheStart(c: Codec, steps: seq<Step>)
    requires Lawful(c) && LineRun(c, Empty(), steps)
    ensures var s := Run(c, Empty(), steps);
            && Load(c, s.file).Loaded?
            && (s.up ==> Ids(s.events) <= Ids(Load(c, s.file).events))
            && (s.up && OrderedRun(c, Empty(), steps) ==> s.events <= Load(c, s.file).events)
  {
    EmptyInv(c);
    MemoryNeverClaimsMoreThanTheFile(c, Empty(), steps);
    if OrderedRun(c, Empty(), steps) {
      MemoryIsAPrefixOfTheFile(c, Empty(), steps);
    }
  }

  // -------------------------------------------------- refinement of first-wins

  function Batches(done: seq<Job>): (r: seq<seq<Event>>)
    ensures |r| == |done|
  {
    seq(|done|, i requires 0 <= i < |done| => done[i].batch)
  }

  function Accepted(done: seq<Job>): (r: seq<seq<string>>)
    ensures |r| == |done|
  {
    seq(|done|, i requires 0 <= i < |done| => done[i].accepted)
  }

  /** A crash is clean when the file's index is memory at that moment: nothing that was
      written is unpublished, and nothing published is unreadable. */
  predicate CleanStep(c: Codec, s: State, step: Step) {
    step == Crash && s.up ==> Load(c, s.file).events == s.events
  }

  predicate CleanRun(c: Codec, s: State, steps: seq<Step>)
    decreases |steps|
  {
    steps == [] || (CleanStep(c, s, steps[0]) && CleanRun(c, Next(c, s, steps[0]), steps[1..]))
  }

  /** The job in progress filtered its batch by what memory still holds. */
  ghost predicate JobInv(s: State) {
    && (!s.up ==> s.phase == Idle)
    && (s.phase.Writing? ==> s.phase.kept == Fresh(Ids(s.events), s.phase.batch))
  }

  /** The log is the ordered first-wins set of the finished batches, and the accepted
      lists, in job order, spell out its ids. */
  ghost predicate Refines(c: Codec, s: State) {
    && Log(c, s) == Fresh({}, Flatten(Batches(s.done)))
    && Flatten(Accepted(s.done)) == IdList(Log(c, s))
    && (forall j | j in s.done :: IsSubsequence(j.accepted, IdList(j.batch)))
  }

  lemma FinishBatch(log: seq<Event>, batches: seq<seq<Event>>, batch: seq<Event>)
    requires log == Fresh({}, Flatten(batches))
    ensures log + Fresh(Ids(log), batch) == Fresh({}, Flatten(batches + [batch]))
  {
    FlattenSnoc(batches, batch);
    FreshConcat({}, Flatten(batches), batch);
    FreshIds({}, Flatten(batches));
    assert {} + Ids(Flatten(batches)) == Ids(log);
  }

  lemma FinishJob(log: seq<Event>, done: seq<Job>, batch: seq<Event>)
    requires log == Fresh({}, Flatten(Batches(done)))
    requires Flatten(Accepted(done)) == IdList(log)
    ensures var kept := Fresh(Ids(log), batch);
            var done' := done + [Job(batch, IdList(kept))];
            && log + kept == Fresh({}, Flatten(Batches(done')))
            && Flatten(Accepted(done')) == IdList(log + kept)
            && IsSubsequence(IdList(kept), IdList(batch))
  {
    var kept := Fresh(Ids(log), batch);
    var done' := done + [Job(batch, IdList(kept))];
    assert Batches(done') == Batches(done) + [batch];
    FinishBatch(log, Batches(done), batch);
    AcceptedSnoc(done, batch, kept);
    IdListConcat(log, kept);
    FreshIsSubsequence(Ids(log), batch);
    SubsequenceIds(kept, batch);
  }

  lemma IdListConcat(a: seq<Event>, b: seq<Event>)
    ensures IdList(a + b) == IdList(a) + IdList(b)
  {
  }

  lemma AcceptedSnoc(done: seq<Job>, batch: seq<Event>, kept: seq<Event>)
    ensures Flatten(Accepted(done + [Job(batch, IdList(kept))])) == Flatten(Accepted(done)) + IdList(kept)
  {
    assert Accepted(done + [Job(batch, IdList(kept))]) == Accepted(done) + [IdList(kept)];
    FlattenSnoc(Accepted(done), IdList(kept));
  }

  lemma {:induction false} SubsequenceIds(sub: seq<Event>, whole: seq<Event>)
    requires IsSubsequence(sub, whole)
    ensures IsSubsequence(IdList(sub), IdList(whole))
    decreases |whole|
  {
    if sub != [] {
      assert IdList(whole)[1..] == IdList(whole[1..]);
      assert IdList(sub)[1..] == IdList(sub[1..]);
      if sub[0] == whole[0] {
        SubsequenceIds(sub[1..], whole[1..]);
      } else {
        SubsequenceIds(sub, whole[1..]);
        SkipSubsequence(IdList(sub), IdList(whole));
      }
    }
  }

  /** A step keeps the refinement unless it is a crash that is not clean. No assumption is
      made of the file, of failed writes or of the codec. */
  lemma StepRefinesIff(c: Codec, s: State, step: Step)
    requires JobInv(s) && Refines(c, s)
    ensures JobInv(Next(c, s, step))
    ensures Refines(c, Next(c, s, step)) <==> CleanStep(c, s, step)
  {
    var s' := Next(c, s, step);
    match step
    case Begin => if s' != s { BeginRefines(c, s); }
    case Publish => if s' != s { FinishJob(s.events, s.done, s.phase.batch); }
    case Push(_) =>
    case Write(_) =>
    case Fail =>
    case Crash =>
    case Reopen =>
  }

  lemma BeginRefines(c: Codec, s: State)
    requires JobInv(s) && Refines(c, s) && s.up && s.phase == Idle && s.queue != []
    ensures Refines(c, Next(c, s, Begin))
  {
    if Fresh(Ids(s.events), s.queue[0]) == [] {
      FinishJob(s.events, s.done, s.queue[0]);
      assert IdList([]) == [];
      assert s.events + [] == s.events;
    }
  }

  /** When a crash is clean, in terms of the write: unless a write had failed before, exactly
      when no event of a write in progress has landed; in general, when besides the file held
      just what memory holds. */
  lemma CleanCrashIff(c: Codec, s: State)
    requires Lawful(c) && Inv(c, s) && s.up
    ensures var landed := if s.phase.Writing? then Landed(c, s.phase.kept, s.phase.written) else 0;
            && (CleanStep(c, s, Crash) <==> Stored(c, s) == s.events && landed == 0)
            && (!s.dirty ==> (CleanStep(c, s, Crash) <==> landed == 0))
  {
    if s.phase.Writing? {
      var n := Landed(c, s.phase.kept, s.phase.written);
      FileDuringWrite(c, s);
      NothingNewIff(s.events, s.phase.batch, n, Stored(c, s));
    }
  }

  lemma NothingNewIff(events: seq<Event>, batch: seq<Event>, n: nat, stored: seq<Event>)
    requires Ids(events) <= Ids(stored) && n <= |Fresh(Ids(events), batch)|
    ensures stored + Fresh(Ids(stored), Fresh(Ids(events), batch)[..n]) == events <==> stored == events && n == 0
  {
    var landed := Fresh(Ids(events), batch)[..n];
    var more := Fresh(Ids(stored), landed);
    FreshIds(Ids(stored), landed);
    FreshIds(Ids(events), batch);
    FreshPrefix(Ids(events), Fresh(Ids(events), batch), n);
    if stored + more == events {
      NothingMore(events, stored, more);
    }
    assert stored + [] == stored;
  }

  lemma NothingMore(events: seq<Event>, stored: seq<Event>, more: seq<Event>)
    requires stored + more == events && Ids(events) <= Ids(stored) && Ids(more) !! Ids(stored)
    ensures more == [] && stored == events
  {
    IdsConcat(stored, more);
    if more != [] {
      IdsHead(more);
    }
  }

  /** The refinement holds at every moment of a run. */
  ghost predicate RefinesThroughout(c: Codec, s: State, steps: seq<Step>)
    decreases |steps|
  {
    Refines(c, s) && (steps == [] || RefinesThroughout(c, Next(c, s, steps[0]), steps[1..]))
  }

  /** Over every interleaving of queued appends, piecemeal writes, failed writes wherever they
      were cut, crashes and restarts: a read returns at every moment the first-wins set of
      exactly the finished batches, never a part of one, and what was accepted is what is
      stored, if and only if each crash is clean. */
  lemma {:induction false} RunRefinesFirstWins(c: Codec, s: State, steps: seq<Step>)
    requires JobInv(s) && Refines(c, s)
    ensures RefinesThroughout(c, s, steps) <==> CleanRun(c, s, steps)
    ensures CleanRun(c, s, steps) ==> Refines(c, Run(c, s, steps))
    decreases |steps|
  {
    if steps != [] {
      StepRefinesIff(c, s, steps[0]);
      if CleanStep(c, s, steps[0]) {
        RunRefinesFirstWins(c, Next(c, s, steps[0]), steps[1..]);
      } else {
        assert !RefinesThroughout(c, Next(c, s, steps[0]), steps[1..]);
      }
    }
  }

  lemma EmptyRefines(c: Codec)
    ensures Refines(c, Empty()) && JobInv(Empty())
  {
    assert Batches([]) == [] && Accepted([]) == [] && IdList([]) == [];
  }

  /** No id is accepted twice, by any two jobs of a run or within one. */
  lemma AcceptedOnce(c: Codec, s: State, steps: seq<Step>)
    requires s == Run(c, Empty(), steps) && CleanRun(c, Empty(), steps)
    ensures var all := Flatten(Accepted(s.done));
            && all == IdList(Log(c, s))
            && forall i, j | 0 <= i < j < |all| :: all[i] != all[j]
  {
    EmptyRefines(c);
    RunRefinesFirstWins(c, Empty(), steps);
    FreshIds({}, Flatten(Batches(s.done)));
  }

  /** Two runs that finish the same pushes in different orders store the same ids. */
  lemma SameIdsInAnyJobOrder(c: Codec, a: seq<Step>, b: seq<Step>)
    requires CleanRun(c, Empty(), a) && CleanRun(c, Empty(), b)
    requires multiset(Batches(Run(c, Empty(), a).done)) == multiset(Batches(Run(c, Empty(), b).done))
    ensures Ids(Log(c, Run(c, Empty(), a))) == Ids(Log(c, Run(c, Empty(), b)))
  {
    EmptyRefines(c);
    RunRefinesFirstWins(c, Empty(), a);
    RunRefinesFirstWins(c, Empty(), b);
    SameIdsInAnyOrder(Batches(Run(c, Empty(), a).done), Batches(Run(c, Empty(), b).done));
  }

  // ------------------------------------------------------- when runs are safe

  predicate Undisturbed(s: State, step: Step) {
    step != Fail && (step == Crash ==> s.phase == Idle)
  }

  predicate UndisturbedRun(c: Codec, s: State, steps: seq<Step>)
    decreases |steps|
  {
    steps == [] || (Undisturbed(s, steps[0]) && UndisturbedRun(c, Next(c, s, steps[0]), steps[1..]))
  }

  /** When no write fails and no crash interrupts one, the conditions above hold by
      themselves. */
  lemma {:induction false} UndisturbedRunsAreSafe(c: Codec, s: State, steps: seq<Step>)
    requires Lawful(c) && Inv(c, s) && UndisturbedRun(c, s, steps)
    requires !s.dirty && (s.phase == Idle ==> Terminated(s.file))
    ensures LineRun(c, s, steps) && OrderedRun(c, s, steps) && CleanRun(c, s, steps)
    ensures var s' := Run(c, s, steps);
            !s'.dirty && (s'.phase == Idle ==> Terminated(s'.file))
    decreases |steps|
  {
    if steps != [] {
      UndisturbedStep(c, s, steps[0]);
      UndisturbedRunsAreSafe(c, Next(c, s, steps[0]), steps[1..]);
    }
  }

  lemma UndisturbedStep(c: Codec, s: State, step: Step)
    requires Lawful(c) && Inv(c, s) && Undisturbed(s, step)
    requires !s.dirty && (s.phase == Idle ==> Terminated(s.file))
    ensures LineStep(s, step) && OrderedStep(c, s, step) && CleanStep(c, s, step)
    ensures var s' := Next(c, s, step);
            Inv(c, s') && !s'.dirty && (s'.phase == Idle ==> Terminated(s'.file))
  {
    StepKeepsInv(c, s, step);
    if step == Publish && s.phase.Writing? && s.phase.written == |Text(c, s.phase.kept)| {
      TextTerminated(c, s.phase.kept);
      TerminatedConcat(Base(s), Text(c, s.phase.kept));
      assert Text(c, s.phase.kept)[..s.phase.written] == Text(c, s.phase.kept);
    }
  }

  // ------------------------------------------------------------ crash recovery

  /** One append that nothing disturbs. */
  function AppendSteps(c: Codec, s: State, batch: seq<Event>): seq<Step> {
    [Push(batch), Begin, Write(|Text(c, Fresh(Ids(s.events), batch))|), Publish]
  }

  function Appended(c: Codec, s: State, batch: seq<Event>): State {
    var kept := Fresh(Ids(s.events), batch);
    s.(file := s.file + Text(c, kept), events := s.events + kept,
       done := s.done + [Job(batch, IdList(kept))])
  }

  lemma AppendRun(c: Codec, s: State, batch: seq<Event>)
    requires s.up && s.phase == Idle && s.queue == []
    ensures Run(c, s, AppendSteps(c, s, batch)) == Appended(c, s, batch)
  {
    var kept := Fresh(Ids(s.events), batch);
    var text := Text(c, kept);
    var s1 := Next(c, s, Push(batch));
    var s2 := Next(c, s1, Begin);
    var s3 := Next(c, s2, Write(|text|));
    var s4 := Next(c, s3, Publish);
    assert s1.queue == [batch] && s1.queue[1..] == [];
    assert text[0..|text|] == text;
    if kept == [] {
      assert IdList(kept) == [];
      assert s.file + text == s.file && s.events + kept == s.events;
    }
    assert s4 == Appended(c, s, batch);
    FourSteps(c, s, Push(batch), Begin, Write(|text|), Publish);
  }

  lemma TwoSteps(c: Codec, s: State, a: Step, b: Step)
    ensures Run(c, s, [a, b]) == Next(c, Next(c, s, a), b)
  {
    var s1 := Next(c, s, a);
    assert [a, b][1..] == [b] && [b][1..] == [];
    assert Run(c, s1, [b]) == Run(c, Next(c, s1, b), [b][1..]);
  }

  lemma FourSteps(c: Codec, s: State, a: Step, b: Step, d: Step, e: Step)
    ensures Run(c, s, [a, b, d, e]) == Next(c, Next(c, Next(c, Next(c, s, a), b), d), e)
  {
    assert [a, b, d, e] == [a, b] + [d, e];
    RunConcat(c, s, [a, b], [d, e]);
    TwoSteps(c, s, a, b);
    TwoSteps(c, Next(c, Next(c, s, a), b), d, e);
  }

  lemma SeenAfter(seen: set<string>, e: Event, rest: seq<Event>, m: nat)
    requires 0 < m <= |rest| + 1
    ensures seen + Ids(([e] + rest)[..m]) == (seen + {e.id}) + Ids(rest[..m - 1])
  {
    var front := ([e] + rest)[..m];
    assert front == [e] + rest[..m - 1];
    IdsHead(front);
    assert front[1..] == rest[..m - 1];
  }

  /** An append resumed after its first `m` kept events are already stored keeps exactly
      the others. */
  lemma {:induction false} FreshResume(seen: set<string>, batch: seq<Event>, m: nat)
    requires m <= |Fresh(seen, batch)|
    ensures Fresh(seen + Ids(Fresh(seen, batch)[..m]), batch) == Fresh(seen, batch)[m..]
    decreases |batch|
  {
    if m == 0 {
      assert seen + Ids(Fresh(seen, batch)[..0]) == seen;
    } else {
      if batch[0].id in seen {
        FreshResume(seen, batch[1..], m);
      } else {
        var seen' := seen + {batch[0].id};
        FreshResume(seen', batch[1..], m - 1);
        SeenAfter(seen, batch[0], Fresh(seen', batch[1..]), m);
        assert Fresh(seen, batch) == [batch[0]] + Fresh(seen', batch[1..]);
      }
    }
  }

  /** A crash at any character of a write: the store reopens with what the file held before
      followed by a prefix of what the batch adds to it. Pushing the whole batch again
      completes memory with nothing stored twice, and leaves the file holding the same if and
      only if there was nothing left to store or the crash cut the file at a line boundary.
      Unless a write had failed before, what the file held is what memory held. */
  lemma CrashRecovery(c: Codec, s: State)
    requires Lawful(c) && Inv(c, s) && s.phase.Writing?
    ensures var stored := Stored(c, s);
            var added := Fresh(Ids(stored), s.phase.batch);
            var s1 := Run(c, s, [Crash, Reopen]);
            var s2 := Run(c, s1, AppendSteps(c, s1, s.phase.batch));
            && s1.up && stored <= s1.events <= stored + added
            && s1.events == stored + Fresh(Ids(stored), s.phase.kept[..Landed(c, s.phase.kept, s.phase.written)])
            && s2.events == stored + added
            && Distinct(s2.events)
            && (Load(c, s2.file) == Loaded(s2.events) <==> s1.events == stored + added || Terminated(s.file))
            && (!s.dirty ==>
                  && stored == s.events && added == s.phase.kept
                  && s1.events == s.events + s.phase.kept[..Landed(c, s.phase.kept, s.phase.written)])
  {
    var stored, s1 := Stored(c, s), Run(c, s, [Crash, Reopen]);
    var added := Fresh(Ids(stored), s.phase.batch);
    var n := CrashReopens(c, s);
    RepushCompletes(c, stored, s.phase.batch, n, s1);
    StoredAndAddedDistinct(c, s);
    assert s1.events == stored + added <==> n == |added| by {
      assert |s1.events| == |stored| + n && (n == |added| ==> added[..n] == added);
    }
    if !s.dirty {
      CleanWrite(c, s);
    }
  }

  /** With no failed write behind it, a write adds to memory what the batch does. */
  lemma CleanWrite(c: Codec, s: State)
    requires Lawful(c) && Inv(c, s) && s.phase.Writing? && !s.dirty
    ensures var m := Landed(c, s.phase.kept, s.phase.written);
            && Stored(c, s) == s.events && Fresh(Ids(s.events), s.phase.batch) == s.phase.kept
            && m <= |s.phase.kept| && Fresh(Ids(s.events), s.phase.kept[..m]) == s.phase.kept[..m]
  {
    FreshIds(Ids(s.events), s.phase.batch);
    FreshPrefix(Ids(s.events), s.phase.kept, Landed(c, s.phase.kept, s.phase.written));
  }

  lemma CrashReopens(c: Codec, s: State) returns (n: nat)
    requires Lawful(c) && Inv(c, s) && s.phase.Writing?
    ensures var stored := Stored(c, s);
            var added := Fresh(Ids(stored), s.phase.batch);
            var s1 := Run(c, s, [Crash, Reopen]);
            && n <= |added| && s1.events == stored + added[..n]
            && s1.events == stored + Fresh(Ids(stored), s.phase.kept[..Landed(c, s.phase.kept, s.phase.written)])
            && s1.up && s1.phase == Idle && s1.queue == [] && s1.file == s.file
            && Load(c, s1.file) == Loaded(s1.events) && IsFragment(c, Tail(s1.file))
  {
    FileDuringWrite(c, s);
    TwoSteps(c, s, Crash, Reopen);
    n := FreshOfCut(Ids(s.events), Ids(Stored(c, s)), s.phase.batch, Landed(c, s.phase.kept, s.phase.written));
  }

  lemma StoredAndAddedDistinct(c: Codec, s: State)
    requires s.phase.Writing? && s.phase.written <= |s.file|
    ensures Distinct(Stored(c, s) + Fresh(Ids(Stored(c, s)), s.phase.batch))
  {
    ScanDistinct(c, Split(Base(s)), []);
    FreshIds(Ids(Stored(c, s)), s.phase.batch);
    DistinctConcat(Stored(c, s), Fresh(Ids(Stored(c, s)), s.phase.batch));
  }

  /** What a longer index keeps of a cut of what a shorter one keeps: a prefix of what it
      keeps of the batch. */
  lemma FreshOfCut(seen: set<string>, stored: set<string>, batch: seq<Event>, m: nat) returns (n: nat)
    requires seen <= stored && m <= |Fresh(seen, batch)|
    ensures n <= |Fresh(stored, batch)|
    ensures Fresh(stored, Fresh(seen, batch)[..m]) == Fresh(stored, batch)[..n]
  {
    var kept := Fresh(seen, batch);
    assert kept == kept[..m] + kept[m..];
    FreshConcat(stored, kept[..m], kept[m..]);
    FreshOfFresh(seen, stored, batch);
    n := |Fresh(stored, kept[..m])|;
  }

  lemma {:induction false} FreshOfFresh(seen: set<string>, stored: set<string>, batch: seq<Event>)
    requires seen <= stored
    ensures Fresh(stored, Fresh(seen, batch)) == Fresh(stored, batch)
    decreases |batch|
  {
    if batch != [] {
      var e := batch[0];
      if e.id in seen {
        FreshOfFresh(seen, stored, batch[1..]);
      } else {
        var rest := Fresh(seen + {e.id}, batch[1..]);
        assert ([e] + rest)[1..] == rest;
        FreshOfFresh(seen + {e.id}, stored + {e.id}, batch[1..]);
        if e.id in stored {
          assert stored + {e.id} == stored;
        }
      }
    }
  }

  lemma RepushCompletes(c: Codec, earlier: seq<Event>, batch: seq<Event>, n: nat, s1: State)
    requires Lawful(c) && n <= |Fresh(Ids(earlier), batch)|
    requires s1.up && s1.phase == Idle && s1.queue == []
    requires s1.events == earlier + Fresh(Ids(earlier), batch)[..n]
    requires Load(c, s1.file) == Loaded(s1.events) && IsFragment(c, Tail(s1.file))
    ensures var kept := Fresh(Ids(earlier), batch);
            var s2 := Run(c, s1, AppendSteps(c, s1, batch));
            && s2.events == earlier + kept
            && (Load(c, s2.file) == Loaded(s2.events) <==> n == |kept| || Terminated(s1.file))
  {
    ResumedEvents(earlier, batch, n, s1.events);
    AppendRun(c, s1, batch);
    if n < |Fresh(Ids(earlier), batch)| {
      AppendKeepsStepIff(c, s1.file, s1.events, batch);
    } else {
      assert s1.file + Text(c, []) == s1.file;
    }
  }

  lemma ResumedEvents(earlier: seq<Event>, batch: seq<Event>, n: nat, events: seq<Event>)
    requires n <= |Fresh(Ids(earlier), batch)| && events == earlier + Fresh(Ids(earlier), batch)[..n]
    ensures Fresh(Ids(events), batch) == Fresh(Ids(earlier), batch)[n..]
    ensures events + Fresh(Ids(events), batch) == earlier + Fresh(Ids(earlier), batch)
  {
    var kept := Fresh(Ids(earlier), batch);
    IdsConcat(earlier, kept[..n]);
    FreshResume(Ids(earlier), batch, n);
    assert kept == kept[..n] + kept[n..];
  }

  ghost predicate InStep(c: Codec, s: State) {
    && s.up && s.phase == Idle && s.queue == []
    && Load(c, s.file) == Loaded(s.events)
    && IsFragment(c, Tail(s.file))
  }

  /** The condition on the tail is needed. From any state whose file ends inside a line, an
      append is acknowledged and readable, and its first event is gone after one more
      restart. */
  lemma TornTailLosesTheNextAppend(c: Codec, s: State, batch: seq<Event>)
    requires Lawful(c) && InStep(c, s) && !Terminated(s.file)
    requires Fresh(Ids(s.events), batch) != []
    ensures var first := Fresh(Ids(s.events), batch)[0];
            var s' := Run(c, s, AppendSteps(c, s, batch));
            var reopened := Run(c, s', [Crash, Reopen]);
            && first in s'.events && |s'.done| > 0
            && first.id in s'.done[|s'.done| - 1].accepted
            && reopened.up && first.id !in Ids(reopened.events)
  {
    var kept := Fresh(Ids(s.events), batch);
    AppendRun(c, s, batch);
    var s' := Run(c, s, AppendSteps(c, s, batch));
    assert IdList(kept)[0] == kept[0].id;
    assert s'.events[|s.events|] == kept[0];
    TornAppendDropsFirst(c, s.file, s.events, batch);
    Restart(c, s');
  }

  lemma Restart(c: Codec, s: State)
    requires Load(c, s.file).Loaded?
    ensures var s' := Run(c, s, [Crash, Reopen]);
            s'.up && s'.events == Load(c, s.file).events && s'.file == s.file
  {
    TwoSteps(c, s, Crash, Reopen);
  }

  /** Such a state is reached by a single crash inside the first line of a file. */
  lemma TornStateIsReachable(c: Codec, e: Event, k: nat)
    requires Lawful(c) && 0 < k <= |c.encode(e)|
    ensures var s := Next(c, Run(c, Empty(), [Push([e]), Begin, Write(k), Crash]), Reopen);
            InStep(c, s) && !Terminated(s.file)
            && s.events == if k == |c.encode(e)| then [e] else []
  {
    CutFirstWrite(c, e, k);
    LoadCutLine(c, e, k);
  }

  lemma LoadCutLine(c: Codec, e: Event, k: nat)
    requires Lawful(c) && 0 < k <= |c.encode(e)|
    ensures var t := c.encode(e)[..k];
            && Load(c, t) == Loaded(if k == |c.encode(e)| then [e] else [])
            && IsFragment(c, Tail(t)) && !Terminated(t)
  {
    ScanCutFirstLine(c, e, k);
    CutLineIsTorn(c, e, k);
  }

  lemma ScanCutFirstLine(c: Codec, e: Event, k: nat)
    requires Lawful(c) && k <= |c.encode(e)|
    ensures Load(c, c.encode(e)[..k]) == Loaded(if k == |c.encode(e)| then [e] else [])
  {
    var none: seq<Event> := [];
    ScanCutLine(c, e, k, none);
    assert e.id !in Ids(none) && none + [e] == [e] && none + none == none;
  }

  lemma CutLineIsTorn(c: Codec, e: Event, k: nat)
    requires Lawful(c) && 0 < k <= |c.encode(e)|
    ensures IsFragment(c, Tail(c.encode(e)[..k])) && !Terminated(c.encode(e)[..k])
  {
    ScanCutLine(c, e, k, []);
    FragmentOf(c, e, k);
    StableThenTail(c.encode(e)[..k]);
  }

  lemma CutFirstWrite(c: Codec, e: Event, k: nat)
    requires k <= |c.encode(e)|
    ensures Run(c, Empty(), [Push([e]), Begin, Write(k), Crash])
         == Empty().(file := c.encode(e)[..k], up := false)
  {
    FourSteps(c, Empty(), Push([e]), Begin, Write(k), Crash);
    FreshOne({}, e);
    assert Ids([]) == {};
    assert Text(c, [e][1..]) == "";
    assert Text(c, [e])[0..k] == c.encode(e)[..k];
    var s1 := Next(c, Empty(), Push([e]));
    assert s1.queue == [[e]];
    var s2 := Next(c, s1, Begin);
    assert s2.phase == Writing([e], [e], 0);
  }
}
