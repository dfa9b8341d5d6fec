/** Pulling a log by watermark: the relay's `since` read and a client that inserts what it
    does not have and moves its watermark to the last id returned. */
module Watermark {
  import opened Ndjson
  import opened FirstWins
  import opened LogFile
  import opened RelayMachine
  import opened Sequences

  /** `findIndex` by id: the first match, or -1. */
  function FindId(log: seq<Event>, id: string): (i: int)
    ensures -1 <= i < |log|
    ensures i >= 0 ==> log[i].id == id && forall j | 0 <= j < i :: log[j].id != id
    ensures i == -1 ==> id !in Ids(log)
  {
    if log == [] then -1
    else if log[0].id == id then 0
    else
      var i := FindId(log[1..], id);
      IdsHead(log);
      if i == -1 then -1 else i + 1
  }

  /** No watermark, or one that is not stored, reads everything. */
  function ReadSince(log: seq<Event>, since: string): seq<Event> {
    if since == "" then log else log[FindId(log, since) + 1..]
  }

  datatype Client = Client(have: seq<Event>, mark: string)

  function Pull(client: Client, log: seq<Event>): Client {
    var got := ReadSince(log, client.mark);
    Client(client.have + Fresh(Ids(client.have), got),
           if got == [] then client.mark else got[|got| - 1].id)
  }

  /** The client holds the log up to its watermark. */
  ghost predicate CaughtUp(client: Client, log: seq<Event>) {
    && client.have <= log
    && (client.mark == "" || (client.have != [] && client.mark == client.have[|client.have| - 1].id))
  }

  lemma PositionIsUnique(log: seq<Event>, k: nat)
    requires Distinct(log) && k < |log|
    ensures FindId(log, log[k].id) == k
  {
    assert log[k].id in Ids(log);
  }

  /** What a prefix of the log lacks is all new to it, whether the prefix is read again or
      not. */
  lemma MissingIsFresh(have: seq<Event>, rest: seq<Event>)
    requires Distinct(have + rest)
    ensures Fresh(Ids(have), rest) == rest
    ensures Fresh(Ids(have), have + rest) == rest
  {
    DistinctParts(have, rest);
    FreshOfNew(Ids(have), rest);
    FreshConcat(Ids(have), have, rest);
    FreshOfOld(Ids(have), have);
    assert Ids(have) + Ids(have) == Ids(have);
  }

  /** A caught-up client that pulls from the log, or from any later extension of it, holds
      every event of it in order. The reply is exactly the part it lacked unless its
      watermark is an event's empty id, which asks for everything again. */
  lemma PullCatchesUp(client: Client, log: seq<Event>)
    requires Distinct(log) && CaughtUp(client, log)
    ensures Pull(client, log).have == log
    ensures CaughtUp(Pull(client, log), log)
    ensures client.have + ReadSince(log, client.mark) == log
            <==> client.mark != "" || client.have == []
  {
    ReplyToCaughtUp(client, log);
    HaveBecomesLog(client, log);
    MarkMovesToEnd(client, log);
    assert log == client.have + log[|client.have|..];
    if client.mark == "" && client.have != [] {
      assert |client.have + log| > |log|;
    }
  }

  lemma ReplyToCaughtUp(client: Client, log: seq<Event>)
    requires Distinct(log) && CaughtUp(client, log)
    ensures ReadSince(log, client.mark) == if client.mark == "" then log else log[|client.have|..]
  {
    if client.mark != "" {
      PositionIsUnique(log, |client.have| - 1);
    }
  }

  lemma HaveBecomesLog(client: Client, log: seq<Event>)
    requires Distinct(log) && CaughtUp(client, log)
    requires ReadSince(log, client.mark) == if client.mark == "" then log else log[|client.have|..]
    ensures Pull(client, log).have == log
  {
    var rest := log[|client.have|..];
    assert log == client.have + rest;
    MissingIsFresh(client.have, rest);
  }

  lemma MarkMovesToEnd(client: Client, log: seq<Event>)
    requires CaughtUp(client, log)
    requires ReadSince(log, client.mark) == if client.mark == "" then log else log[|client.have|..]
    ensures var mark := Pull(client, log).mark;
            mark == "" || (log != [] && mark == log[|log| - 1].id)
  {
    var got := ReadSince(log, client.mark);
    if got != [] {
      assert got[|got| - 1] == log[|log| - 1];
    } else if client.mark != "" {
      assert |client.have| == |log|;
    }
  }

  /** Whatever a client holds and whatever its watermark: after a pull it holds every event of
      the log if and only if it held those that the log places up to its watermark. A
      watermark that is empty, or not in the log, places none. */
  lemma PullCompleteIff(client: Client, log: seq<Event>)
    requires Distinct(log)
    ensures Ids(log) <= Ids(Pull(client, log).have)
            <==> client.mark == "" || Ids(log[..FindId(log, client.mark) + 1]) <= Ids(client.have)
  {
    var k := if client.mark == "" then 0 else FindId(log, client.mark) + 1;
    assert ReadSince(log, client.mark) == log[k..] && log == log[..k] + log[k..];
    HeldIff(client.have, log[..k], log[k..]);
  }

  lemma HeldIff(have: seq<Event>, before: seq<Event>, got: seq<Event>)
    requires Distinct(before + got)
    ensures Ids(before + got) <= Ids(have + Fresh(Ids(have), got)) <==> Ids(before) <= Ids(have)
  {
    DistinctParts(before, got);
    IdsConcat(before, got);
    IdsConcat(have, Fresh(Ids(have), got));
    FreshIds(Ids(have), got);
    assert Ids(have) + (Ids(got) - Ids(have)) == Ids(have) + Ids(got);
  }

  /** A watermark the log does not hold returns the whole log, so the client ends with
      every id whatever it held before. */
  lemma UnknownMarkOverReturns(client: Client, log: seq<Event>)
    requires client.mark !in Ids(log)
    ensures ReadSince(log, client.mark) == log
    ensures Ids(log) <= Ids(Pull(client, log).have)
  {
    assert client.mark != "" ==> FindId(log, client.mark) == -1 by {
      assert forall e | e in log :: e.id in Ids(log);
    }
    FreshIds(Ids(client.have), log);
    IdsConcat(client.have, Fresh(Ids(client.have), log));
  }

  /** Pulls at a series of moments. */
  function Pulls(client: Client, logs: seq<seq<Event>>): Client
    decreases |logs|
  {
    if logs == [] then client else Pulls(Pull(client, logs[0]), logs[1..])
  }

  function Replies(client: Client, logs: seq<seq<Event>>): seq<seq<Event>>
    decreases |logs|
  {
    if logs == [] then []
    else [ReadSince(logs[0], client.mark)] + Replies(Pull(client, logs[0]), logs[1..])
  }

  predicate Growing(logs: seq<seq<Event>>) {
    && (forall i | 0 <= i < |logs| :: Distinct(logs[i]))
    && (forall i | 0 <= i < |logs| - 1 :: logs[i] <= logs[i + 1])
  }

  /** However the log grows between pulls, the replies put end to end are the last log read:
      no gap, no repeat. Events with an empty id are left aside, since an empty watermark
      asks for everything. */
  lemma {:induction false} PullsConcatenateToLog(client: Client, logs: seq<seq<Event>>)
    requires logs != [] && Growing(logs) && CaughtUp(client, logs[0])
    requires client.mark != "" || client.have == []
    requires forall e | e in logs[|logs| - 1] :: e.id != ""
    ensures Pulls(client, logs).have == logs[|logs| - 1]
    ensures client.have + Flatten(Replies(client, logs)) == logs[|logs| - 1]
    decreases |logs|
  {
    var next := Pull(client, logs[0]);
    var first, tail := ReadSince(logs[0], client.mark), logs[1..];
    RepliesCons(client, logs);
    PullCatchesUp(client, logs[0]);
    if |logs| == 1 {
      assert Replies(next, tail) == [] && Pulls(next, tail) == next;
      assert first + [] == first;
    } else {
      NextPull(client, logs);
      assert tail[|tail| - 1] == logs[|logs| - 1];
      PullsConcatenateToLog(next, tail);
      Associate(client.have, first, Flatten(Replies(next, tail)));
    }
  }

  lemma RepliesCons(client: Client, logs: seq<seq<Event>>)
    requires logs != []
    ensures Flatten(Replies(client, logs))
         == ReadSince(logs[0], client.mark) + Flatten(Replies(Pull(client, logs[0]), logs[1..]))
  {
    var first, rest := ReadSince(logs[0], client.mark), Replies(Pull(client, logs[0]), logs[1..]);
    assert ([first] + rest)[1..] == rest;
  }

  /** After the first of several pulls the client is in the state the next one needs. */
  lemma NextPull(client: Client, logs: seq<seq<Event>>)
    requires |logs| > 1 && Growing(logs) && CaughtUp(client, logs[0])
    requires client.mark != "" || client.have == []
    requires forall e | e in logs[|logs| - 1] :: e.id != ""
    ensures var next := Pull(client, logs[0]);
            && Growing(logs[1..]) && CaughtUp(next, logs[1..][0])
            && (next.mark != "" || next.have == [])
  {
    PullCatchesUp(client, logs[0]);
    GrowingLast(logs);
    var next := Pull(client, logs[0]);
    assert logs[0] <= logs[0 + 1];
    if next.have != [] {
      assert next.have[|next.have| - 1] in logs[|logs| - 1];
    }
  }

  lemma {:induction false} GrowingLast(logs: seq<seq<Event>>)
    requires logs != [] && Growing(logs)
    ensures logs[0] <= logs[|logs| - 1]
    decreases |logs|
  {
    if |logs| > 1 {
      assert Growing(logs[1..]);
      GrowingLast(logs[1..]);
    }
  }

  /** Completeness over the relay itself: a client that was caught up before any run of
      pushes, writes, crashes and reopens is complete after its next pull. */
  lemma PullAfterAnyRun(c: Codec, s: State, steps: seq<Step>, client: Client)
    requires Lawful(c) && OrderInv(c, s) && LineRun(c, s, steps) && OrderedRun(c, s, steps)
    requires CaughtUp(client, Log(c, s)) && Run(c, s, steps).up
    ensures Pull(client, Run(c, s, steps).events).have == Run(c, s, steps).events
  {
    LogIsAppendOnly(c, s, steps);
    var log := Run(c, s, steps).events;
    assert Log(c, s) <= log;
    PullCatchesUp(client, log);
  }

  /** The same across a restart, from any state: the file's index decides. For a client that
      had caught up with memory, what counts is that the file places before its watermark
      nothing that memory had not told it. */
  lemma RestartedPullCompleteIff(c: Codec, s: State, client: Client)
    requires Load(c, s.file).Loaded?
    ensures var s' := Run(c, s, [Crash, Reopen]);
            var index := Load(c, s.file).events;
            && s'.up && s'.events == index
            && (Ids(s'.events) <= Ids(Pull(client, s'.events).have)
                <==> client.mark == "" || Ids(index[..FindId(index, client.mark) + 1]) <= Ids(client.have))
  {
    Restart(c, s);
    ScanDistinct(c, Split(s.file), []);
    PullCompleteIff(client, Load(c, s.file).events);
  }

  // ------------------------------------------ when a failed write is not re-pushed first

  /** A write of two events that fails once the first line is on disk. */
  function FailedWriteSteps(c: Codec, a: Event, b: Event): seq<Step> {
    [Push([a, b]), Begin, Write(|c.encode(a)| + 1), Fail]
  }

  lemma AfterFailedWrite(c: Codec, a: Event, b: Event)
    requires a.id != b.id
    ensures Run(c, Empty(), FailedWriteSteps(c, a, b))
         == Empty().(file := Text(c, [a]), dirty := true)
  {
    FourSteps(c, Empty(), Push([a, b]), Begin, Write(|c.encode(a)| + 1), Fail);
    assert [a, b] == [a] + [b];
    FreshConcat({}, [a], [b]);
    FreshOne({}, a);
    IdsHead([a]);
    assert Ids([a][1..]) == {};
    FreshOne({a.id}, b);
    assert {} + Ids([a]) == {a.id};
    assert Fresh({}, [a, b]) == [a, b];
    assert Ids([]) == {};
    assert Text(c, [a][1..]) == "";
    var s1 := Next(c, Empty(), Push([a, b]));
    assert s1.queue == [[a, b]];
    var s2 := Next(c, s1, Begin);
    assert s2.phase == Writing([a, b], [a, b], 0);
    assert Text(c, [a, b])[0..|c.encode(a)| + 1] == Text(c, [a]) by {
      assert [a, b][1..] == [b];
    }
  }

  lemma OneEventAppend(c: Codec, s: State, e: Event)
    requires s.up && s.phase == Idle && s.queue == [] && e.id !in Ids(s.events)
    ensures Run(c, s, AppendSteps(c, s, [e]))
         == s.(file := s.file + Text(c, [e]), events := s.events + [e],
               done := s.done + [Job([e], [e.id])])
  {
    AppendRun(c, s, [e]);
    FreshOne(Ids(s.events), e);
    assert IdList([e]) == [e.id];
  }

  /** The condition on the order is needed too. After such a failure memory and file can hold
      the same events in different orders, and a client that pulled before the restart never
      receives `a`. */
  lemma FailedWriteReordersTheLog(c: Codec, a: Event, b: Event, x: Event)
    requires Lawful(c) && a.id != b.id && a.id != x.id && b.id != x.id && x.id != ""
    ensures var s0 := Run(c, Empty(), FailedWriteSteps(c, a, b));
            var s1 := Run(c, s0, AppendSteps(c, s0, [x]));
            var s2 := Run(c, s1, AppendSteps(c, s1, [a]));
            var s3 := Run(c, s2, [Crash, Reopen]);
            var client := Pull(Client([], ""), s1.events);
            && s2.events == [x, a] && s3.up && s3.events == [a, x]
            && client.have == [x]
            && Pull(client, s3.events) == client
  {
    AfterFailedWrite(c, a, b);
    var s0 := Run(c, Empty(), FailedWriteSteps(c, a, b));
    assert Ids([]) == {};
    OneEventAppend(c, s0, x);
    var s1 := Run(c, s0, AppendSteps(c, s0, [x]));
    assert s1.events == [x];
    assert Ids([x]) == {x.id};
    OneEventAppend(c, s1, a);
    var s2 := Run(c, s1, AppendSteps(c, s1, [a]));
    assert s2.events == [x, a];
    ThreeLineFile(c, a, x);
    Restart(c, s2);
    FreshOne({}, x);
    assert FindId([a, x], x.id) == 1;
  }

  lemma ThreeLineFile(c: Codec, a: Event, x: Event)
    requires Lawful(c) && a.id != x.id
    ensures Load(c, Text(c, [a]) + Text(c, [x]) + Text(c, [a])) == Loaded([a, x])
  {
    TextConcat(c, [a], [x]);
    TextConcat(c, [a] + [x], [a]);
    var none: seq<Event> := [];
    ScanText(c, [a] + [x] + [a], none);
    FreshConcat(Ids(none), [a] + [x], [a]);
    IdsConcat([a], [x]);
    assert a in [a] && a.id in Ids([a]);
    FreshOne(Ids(none) + Ids([a] + [x]), a);
    FreshOfPair(a, x);
    assert none + [a, x] == [a, x];
  }

  lemma FreshOfPair(a: Event, x: Event)
    requires a.id != x.id
    ensures Fresh(Ids([]), [a] + [x]) == [a, x]
  {
    FreshConcat(Ids([]), [a], [x]);
    FreshOne(Ids([]), a);
    IdsHead([a]);
    assert Ids([a][1..]) == {} && Ids([]) + Ids([a]) == {a.id};
    FreshOne({a.id}, x);
  }

  lemma {:induction false} TextConcat(c: Codec, a: seq<Event>, b: seq<Event>)
    ensures Text(c, a + b) == Text(c, a) + Text(c, b)
  {
    if a == [] {
      assert a + b == b;
    } else {
      assert (a + b)[1..] == a[1..] + b;
      TextConcat(c, a[1..], b);
    }
  }
}
