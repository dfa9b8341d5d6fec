/** The device authorization grant (RFC 8628): pending rows, browser approval, and polling
    that delivers an approval once. */
module DeviceGrant {
  import opened Options

  const EXPIRES_IN_MS := 600_000
  const INTERVAL_MS := 5_000
  const CODE_RETRIES := 10

  // ------------------------------------------------------------------ user codes

  predicate IsCodeChar(ch: char) {
    'A' <= ch <= 'Z' || '0' <= ch <= '9'
  }

  /** The characters from A to Z and 0 to 9 in the full uppercase of one character. Beyond
      the basic letters, a few ligatures and accented letters uppercase to some. */
  function Kept(ch: char): (r: string)
    ensures forall k | k in r :: IsCodeChar(k)
    ensures IsCodeChar(ch) ==> r == [ch]
  {
    var n := ch as int;
    if IsCodeChar(ch) then [ch]
    else if 'a' <= ch <= 'z' then [(n - 'a' as int + 'A' as int) as char]
    else if n == 0xDF then "SS"
    else if n == 0x131 then "I"
    else if n == 0x149 then "N"
    else if n == 0x17F then "S"
    else if n == 0x1F0 then "J"
    else if n == 0x1E96 then "H"
    else if n == 0x1E97 then "T"
    else if n == 0x1E98 then "W"
    else if n == 0x1E99 then "Y"
    else if n == 0x1E9A then "A"
    else if n == 0xFB00 then "FF"
    else if n == 0xFB01 then "FI"
    else if n == 0xFB02 then "FL"
    else if n == 0xFB03 then "FFI"
    else if n == 0xFB04 then "FFL"
    else if n == 0xFB05 || n == 0xFB06 then "ST"
    else ""
  }

  /** Uppercased, with everything but letters and digits removed. */
  function Strip(input: string): string {
    if input == "" then "" else Kept(input[0]) + Strip(input[1..])
  }

  function Normalize(input: string): string {
    var s := Strip(input);
    if |s| == 8 then s[..4] + "-" + s[4..] else s
  }

  lemma {:induction false} StripConcat(a: string, b: string)
    ensures Strip(a + b) == Strip(a) + Strip(b)
  {
    if a == "" {
      assert a + b == b;
    } else {
      assert (a + b)[0] == a[0] && (a + b)[1..] == a[1..] + b;
      StripConcat(a[1..], b);
      assert Strip(a + b) == Kept(a[0]) + Strip(a[1..] + b);
    }
  }

  lemma {:induction false} StripOfCode(s: string)
    requires forall ch | ch in s :: IsCodeChar(ch)
    ensures Strip(s) == s
  {
    if s != "" {
      StripOfCode(s[1..]);
      assert s[0] in s && s == [s[0]] + s[1..];
    }
  }

  lemma {:induction false} StripIsCode(input: string)
    ensures forall ch | ch in Strip(input) :: IsCodeChar(ch)
  {
    if input != "" {
      StripIsCode(input[1..]);
    }
  }

  lemma StripGrouped(a: string, b: string)
    requires Strip(a) == a && Strip(b) == b
    ensures Strip(a + "-" + b) == a + b
  {
    StripConcat(a + "-", b);
    StripConcat(a, "-");
    assert Strip("-") == Kept('-') + Strip("-"[1..]) == "";
    assert a + "" == a;
  }

  /** A typed code is read the same however often it is normalized, and any typing of the
      same letters and digits reads as the code that was issued. */
  lemma NormalizeIsStable(input: string, other: string)
    ensures Normalize(Normalize(input)) == Normalize(input)
    ensures Strip(input) == Strip(other) ==> Normalize(input) == Normalize(other)
  {
    var s := Strip(input);
    StripIsCode(input);
    StripOfCode(s);
    if |s| == 8 {
      StripOfCode(s[..4]);
      StripOfCode(s[4..]);
      assert s[..4] + s[4..] == s;
      StripGrouped(s[..4], s[4..]);
    }
  }

  function Lowered(s: string): string
    requires forall ch | ch in s :: IsCodeChar(ch)
  {
    seq(|s|, i requires 0 <= i < |s| =>
      if 'A' <= s[i] <= 'Z' then (s[i] as int + 32) as char else s[i])
  }

  lemma {:induction false} StripLowered(s: string)
    requires forall ch | ch in s :: IsCodeChar(ch)
    ensures Strip(Lowered(s)) == s
  {
    if s != "" {
      StripLowered(s[1..]);
      assert Lowered(s)[1..] == Lowered(s[1..]);
      assert Kept(Lowered(s)[0]) == [s[0]];
      assert s == [s[0]] + s[1..];
    }
  }

  /** A code on the screen reads as itself when typed as shown, without the dash, or in lower
      case. */
  lemma ShownCodeReads(a: string, b: string)
    requires |a| == 4 && |b| == 4 && forall ch | ch in a + b :: IsCodeChar(ch)
    ensures Normalize(a + "-" + b) == a + "-" + b
    ensures Normalize(a + b) == a + "-" + b
    ensures Normalize(Lowered(a + b)) == a + "-" + b
  {
    assert (forall ch | ch in a :: ch in a + b) && (forall ch | ch in b :: ch in a + b);
    StripOfCode(a);
    StripOfCode(b);
    StripOfCode(a + b);
    StripGrouped(a, b);
    StripLowered(a + b);
    assert (a + b)[..4] == a && (a + b)[4..] == b;
  }

  // ------------------------------------------------------------------- the table

  datatype Status = Pending | Approved | Denied

  datatype Grant = Grant(userCode: string, account: Option<string>, status: Status, deviceLabel: string,
                         expiresAt: int, lastPolled: Option<int>)

  type Rows = map<string, Grant>

  predicate CodeInUse(rows: Rows, code: string) {
    exists d | d in rows :: rows[d].userCode == code
  }

  /** Rows that expired before `now` are deleted. */
  function Sweep(rows: Rows, now: int): Rows {
    map d | d in rows && rows[d].expiresAt >= now :: rows[d]
  }

  /** The first candidate not in use, or the last one tried. */
  function PickCode(rows: Rows, candidates: seq<string>): string
    requires candidates != []
  {
    if |candidates| == 1 || !CodeInUse(rows, candidates[0]) then candidates[0]
    else PickCode(rows, candidates[1..])
  }

  /** Storing the new row; a code still in use after all tries fails the insert, and only
      the sweep remains. */
  function StartDevice(rows: Rows, now: int, device: string, candidates: seq<string>, deviceLabel: string): Rows
    requires |candidates| == CODE_RETRIES + 1
  {
    var swept := Sweep(rows, now);
    var code := PickCode(swept, candidates);
    if device in swept || CodeInUse(swept, code) then swept
    else swept[device := Grant(code, None, Pending, deviceLabel, now + EXPIRES_IN_MS, None)]
  }

  ghost predicate UniqueCodes(rows: Rows) {
    forall d, d' | d in rows && d' in rows && d != d' :: rows[d].userCode != rows[d'].userCode
  }

  predicate Approvable(rows: Rows, device: string, code: string, now: int) {
    device in rows && rows[device].userCode == code
    && rows[device].status == Pending && rows[device].expiresAt >= now
  }

  function ApproveRow(rows: Rows, device: string, account: string): Rows
    requires device in rows
  {
    rows[device := rows[device].(status := Approved, account := Some(account))]
  }

  datatype Result =
    | StillPending
    | SlowDown
    | Expired
    | AccessDenied
    | Delivered(account: string, deviceLabel: string)

  function Poll(rows: Rows, device: string, now: int): (Rows, Result) {
    if device !in rows || rows[device].expiresAt < now then (rows, Expired)
    else
      var row := rows[device];
      if row.lastPolled.Some? && now - row.lastPolled.value < INTERVAL_MS then (rows, SlowDown)
      else
        var polled := rows[device := row.(lastPolled := Some(now))];
        if row.status == Denied then (polled, AccessDenied)
        else if row.status != Approved || row.account.None? then (polled, StillPending)
        else (polled - {device}, Delivered(row.account.value, row.deviceLabel))
  }

  // ------------------------------------------------------------------ whole runs

  datatype Approval = Approval(at: int, device: string, account: string, expiresAt: int)
  datatype Answer = Answer(at: int, device: string, result: Result)

  /** A device code handed out, with the user code and label it was handed out with. */
  datatype Begun = Begun(at: int, deviceLabel: string, userCode: string)

  /** The table, the clock, the device codes ever drawn, and what was begun, approved and
      answered so far. */
  datatype State = State(rows: Rows, now: int, issued: set<string>, begun: map<string, Begun>,
                         approvals: seq<Approval>, answers: seq<Answer>)

  datatype Step =
    | Tick(ms: nat)
    | Start(device: string, candidates: seq<string>, deviceLabel: string)
    | Approve(typed: string, account: string, device: string)
    | PollFor(device: string)

  /** In `Approve`, `device` names the row that the typed code selects; user codes are
      unique, so there is at most one. */
  function Next(s: State, step: Step): State {
    match step
    case Tick(ms) => s.(now := s.now + ms)
    case Start(device, candidates, deviceLabel) =>
      if device in s.issued || |candidates| != CODE_RETRIES + 1 then s
      else
        var rows := StartDevice(s.rows, s.now, device, candidates, deviceLabel);
        s.(rows := rows, issued := s.issued + {device},
           begun := if device !in rows then s.begun
                    else s.begun[device := Begun(s.now, deviceLabel, rows[device].userCode)])
    case Approve(typed, account, device) =>
      if !Approvable(s.rows, device, Normalize(typed), s.now) then s
      else s.(rows := ApproveRow(s.rows, device, account),
              approvals := s.approvals + [Approval(s.now, device, account, s.rows[device].expiresAt)])
    case PollFor(device) =>
      var r := Poll(s.rows, device, s.now);
      s.(rows := r.0, answers := s.answers + [Answer(s.now, device, r.1)])
  }

  function Run(s: State, steps: seq<Step>): State
    decreases |steps|
  {
    if steps == [] then s else Run(Next(s, steps[0]), steps[1..])
  }

  function Init(now: int): State {
    State(map[], now, {}, map[], [], [])
  }

  /** An answer that is neither a request to slow down nor an expiry. */
  predicate Paced(a: Answer) {
    a.result != SlowDown && a.result != Expired
  }

  ghost predicate RowsInv(s: State) {
    && s.rows.Keys <= s.issued
    && UniqueCodes(s.rows)
    && (forall d | d in s.rows && s.rows[d].status == Pending ::
          forall i | 0 <= i < |s.approvals| :: s.approvals[i].device != d)
    && (forall d | d in s.rows && s.rows[d].status == Approved ::
          exists i | 0 <= i < |s.approvals| ::
            s.approvals[i].device == d && Some(s.approvals[i].account) == s.rows[d].account)
  }

  ghost predicate ApprovalsInv(s: State) {
    && (forall i | 0 <= i < |s.approvals| ::
          s.approvals[i].device in s.issued && s.approvals[i].at <= s.now
          && s.approvals[i].at <= s.approvals[i].expiresAt)
    && (forall i, j | 0 <= i < j < |s.approvals| :: s.approvals[i].device != s.approvals[j].device)
  }

  /** A delivery ends the life of its device code. */
  ghost predicate DeliveryInv(s: State) {
    && (forall i | 0 <= i < |s.answers| && s.answers[i].result.Delivered? ::
          && s.answers[i].device in s.issued && s.answers[i].device !in s.rows
          && exists k | 0 <= k < |s.approvals| ::
               s.approvals[k].device == s.answers[i].device
               && s.approvals[k].account == s.answers[i].result.account
               && s.approvals[k].at <= s.answers[i].at)
    && (forall i, j | 0 <= i < j < |s.answers| && s.answers[i].result.Delivered?
                      && s.answers[j].device == s.answers[i].device ::
          s.answers[j].result == Expired)
  }

  ghost predicate PaceInv(s: State) {
    && (forall i | 0 <= i < |s.answers| :: s.answers[i].at <= s.now)
    && (forall i | 0 <= i < |s.answers| && Paced(s.answers[i]) ::
          && s.answers[i].device in s.issued
          && (s.answers[i].device in s.rows ==>
                s.rows[s.answers[i].device].lastPolled.Some?
                && s.answers[i].at <= s.rows[s.answers[i].device].lastPolled.value))
    && (forall i, j | 0 <= i < j < |s.answers| && Paced(s.answers[i]) && Paced(s.answers[j])
                      && s.answers[i].device == s.answers[j].device ::
          s.answers[j].at - s.answers[i].at >= INTERVAL_MS)
  }

  ghost predicate Collected(s: State, d: string) {
    exists i :: 0 <= i < |s.answers| && s.answers[i].device == d && s.answers[i].result.Delivered?
  }

  /** Handed out no more than ten minutes ago, and not collected. */
  ghost predicate Live(s: State, d: string) {
    d in s.begun && s.now <= s.begun[d].at + 600_000 && !Collected(s, d)
  }

  /** Less than five seconds after an answer that was neither a slow-down nor an expiry. */
  ghost predicate Hasty(s: State, d: string) {
    exists i :: 0 <= i < |s.answers| && s.answers[i].device == d && Paced(s.answers[i])
                && s.now - s.answers[i].at < 5_000
  }

  ghost predicate ApprovedBy(s: State, d: string, account: string) {
    exists i :: 0 <= i < |s.approvals| && s.approvals[i].device == d && s.approvals[i].account == account
  }

  /** The code is on the screen of a live device. */
  ghost predicate Shown(s: State, code: string) {
    exists d :: Live(s, d) && s.begun[d].userCode == code
  }

  /** The rows say what was begun, approved and answered. */
  ghost predicate RowsTellInv(s: State) {
    && s.begun.Keys <= s.issued
    && (forall d | Live(s, d) :: d in s.rows)
    && (forall d | d in s.rows ::
          && d in s.begun && !Collected(s, d)
          && RowTells(s.rows[d], s.begun[d])
          && (s.rows[d].status == Approved ==>
                s.rows[d].account.Some? && ApprovedBy(s, d, s.rows[d].account.value))
          && (s.rows[d].lastPolled.Some? ==> PolledAt(s, d)))
  }

  ghost predicate PolledAt(s: State, d: string)
    requires d in s.rows && s.rows[d].lastPolled.Some?
  {
    exists i :: 0 <= i < |s.answers| && s.answers[i].device == d && Paced(s.answers[i])
                && s.answers[i].at == s.rows[d].lastPolled.value
  }

  predicate RowTells(row: Grant, b: Begun) {
    && row.userCode == b.userCode && row.deviceLabel == b.deviceLabel && row.expiresAt == b.at + 600_000
    && row.status != Denied
  }

  ghost predicate Inv(s: State) {
    RowsInv(s) && ApprovalsInv(s) && DeliveryInv(s) && PaceInv(s) && RowsTellInv(s)
  }

  lemma StartKeepsRows(s: State, device: string, candidates: seq<string>, deviceLabel: string)
    requires RowsInv(s) && ApprovalsInv(s)
    ensures RowsInv(Next(s, Start(device, candidates, deviceLabel)))
  {
  }

  lemma StartKeepsLogs(s: State, device: string, candidates: seq<string>, deviceLabel: string)
    requires RowsInv(s) && ApprovalsInv(s) && DeliveryInv(s) && PaceInv(s)
    ensures var s' := Next(s, Start(device, candidates, deviceLabel));
            ApprovalsInv(s') && DeliveryInv(s') && PaceInv(s')
  {
    var s' := Next(s, Start(device, candidates, deviceLabel));
    StartFrame(s, device, candidates, deviceLabel);
    assert s.issued <= s'.issued;
  }

  /** A start adds at most the new device's row, and sweeps only expired ones. */
  lemma StartFrame(s: State, device: string, candidates: seq<string>, deviceLabel: string)
    requires s.rows.Keys <= s.issued
    ensures var s' := Next(s, Start(device, candidates, deviceLabel));
            && s'.now == s.now && s'.answers == s.answers && s'.approvals == s.approvals
            && (forall d | d in s'.rows && d != device :: d in s.rows && s'.rows[d] == s.rows[d])
            && (forall d | d in s.rows && s.rows[d].expiresAt >= s.now :: d in s'.rows && s'.rows[d] == s.rows[d])
            && (forall d | d != device :: (d in s'.begun <==> d in s.begun)
                                          && (d in s.begun ==> s'.begun[d] == s.begun[d]))
            && (device in s.issued ==> s' == s)
            && (device !in s.issued && device in s'.rows ==>
                  && s'.begun == s.begun[device := Begun(s.now, deviceLabel, s'.rows[device].userCode)]
                  && s'.rows[device].(userCode := "")
                     == Grant("", None, Pending, deviceLabel, s.now + 600_000, None))
            && (device !in s.issued && device !in s'.rows ==> s'.begun == s.begun)
  {
  }

  lemma StartKeepsRowsTell(s: State, device: string, candidates: seq<string>, deviceLabel: string)
    requires RowsInv(s) && DeliveryInv(s) && RowsTellInv(s)
    ensures RowsTellInv(Next(s, Start(device, candidates, deviceLabel)))
  {
    var s' := Next(s, Start(device, candidates, deviceLabel));
    StartFrame(s, device, candidates, deviceLabel);
    if s' != s {
      assert s'.issued == s.issued + {device};
      assert !Collected(s, device);
      assert forall d :: Collected(s', d) <==> Collected(s, d);
      forall d | Live(s', d) ensures d in s'.rows {
        if d != device {
          assert Live(s, d) && d in s.rows;
        }
      }
    }
  }

  lemma StartKeepsInv(s: State, device: string, candidates: seq<string>, deviceLabel: string)
    requires Inv(s)
    ensures Inv(Next(s, Start(device, candidates, deviceLabel)))
  {
    StartKeepsRows(s, device, candidates, deviceLabel);
    StartKeepsLogs(s, device, candidates, deviceLabel);
    StartKeepsRowsTell(s, device, candidates, deviceLabel);
  }

  lemma ApproveKeepsInv(s: State, typed: string, account: string, device: string)
    requires Inv(s)
    ensures Inv(Next(s, Approve(typed, account, device)))
  {
    ApproveKeepsRows(s, typed, account, device);
    ApproveKeepsLogs(s, typed, account, device);
    ApproveKeepsRowsTell(s, typed, account, device);
  }

  lemma ApproveKeepsLogs(s: State, typed: string, account: string, device: string)
    requires RowsInv(s) && ApprovalsInv(s) && DeliveryInv(s) && PaceInv(s)
    ensures var s' := Next(s, Approve(typed, account, device));
            ApprovalsInv(s') && DeliveryInv(s') && PaceInv(s')
  {
    var s' := Next(s, Approve(typed, account, device));
    if s' != s {
      assert forall i | 0 <= i < |s.approvals| :: s'.approvals[i] == s.approvals[i];
    }
  }

  lemma ApproveKeepsRows(s: State, typed: string, account: string, device: string)
    requires RowsInv(s)
    ensures RowsInv(Next(s, Approve(typed, account, device)))
  {
    var s' := Next(s, Approve(typed, account, device));
    if s' != s {
      var n := |s.approvals|;
      assert s'.approvals[n].device == device && Some(s'.approvals[n].account) == s'.rows[device].account;
      assert forall i | 0 <= i < n :: s'.approvals[i] == s.approvals[i];
    }
  }

  lemma ApproveKeepsRowsTell(s: State, typed: string, account: string, device: string)
    requires RowsTellInv(s)
    ensures RowsTellInv(Next(s, Approve(typed, account, device)))
  {
    var s' := Next(s, Approve(typed, account, device));
    ApprovalsGrow(s, typed, account, device);
    assert forall d :: Collected(s', d) <==> Collected(s, d);
    forall d | Live(s', d) ensures d in s'.rows {
      assert Live(s, d);
    }
    forall d | d in s'.rows && s'.rows[d].lastPolled.Some? ensures PolledAt(s', d) {
      assert PolledAt(s, d);
    }
  }

  /** A poll appends one answer; of the rows it touches only the polled one. */
  lemma PollFrame(s: State, device: string)
    ensures var s' := Next(s, PollFor(device));
            && s'.answers == s.answers + [Answer(s.now, device, Poll(s.rows, device, s.now).1)]
            && s'.rows.Keys <= s.rows.Keys
            && (forall d | d in s'.rows && d != device :: s'.rows[d] == s.rows[d])
            && (device in s'.rows ==> s'.rows[device].(lastPolled := None) == s.rows[device].(lastPolled := None))
            && s'.now == s.now && s'.issued == s.issued && s'.begun == s.begun && s'.approvals == s.approvals
  {
  }

  lemma PollKeepsRows(s: State, device: string)
    requires RowsInv(s)
    ensures RowsInv(Next(s, PollFor(device)))
  {
    PollFrame(s, device);
  }

  lemma PollKeepsDelivery(s: State, device: string)
    requires RowsInv(s) && ApprovalsInv(s) && DeliveryInv(s)
    ensures DeliveryInv(Next(s, PollFor(device)))
  {
    var s' := Next(s, PollFor(device));
    var n := |s.answers|;
    PollFrame(s, device);
    assert forall i | 0 <= i < n :: s'.answers[i] == s.answers[i];
    if s'.answers[n].result.Delivered? {
      var k :| 0 <= k < |s.approvals| &&
               s.approvals[k].device == device && Some(s.approvals[k].account) == s.rows[device].account;
      assert s.approvals[k].account == s'.answers[n].result.account;
    }
  }

  lemma PollKeepsPace(s: State, device: string)
    requires RowsInv(s) && PaceInv(s)
    ensures PaceInv(Next(s, PollFor(device)))
  {
    var s' := Next(s, PollFor(device));
    var n := |s.answers|;
    PollFrame(s, device);
    assert forall i | 0 <= i < n :: s'.answers[i] == s.answers[i];
  }

  lemma PollKeepsRowsTell(s: State, device: string)
    requires RowsTellInv(s)
    ensures RowsTellInv(Next(s, PollFor(device)))
  {
    var s' := Next(s, PollFor(device));
    var n := |s.answers|;
    PollFrame(s, device);
    assert forall i | 0 <= i < n :: s'.answers[i] == s.answers[i];
    assert forall d :: Collected(s, d) ==> Collected(s', d);
    forall d | Live(s', d) ensures d in s'.rows {
      assert Live(s, d);
      if d == device {
        assert !s'.answers[n].result.Delivered?;
      }
    }
    forall d | d in s'.rows ensures !Collected(s', d) && (s'.rows[d].lastPolled.Some? ==> PolledAt(s', d)) {
      if s'.rows[d].lastPolled.Some? {
        RowPolledAt(s, device, d);
      }
    }
  }

  lemma RowPolledAt(s: State, device: string, d: string)
    requires d in s.rows && d in Next(s, PollFor(device)).rows
    requires s.rows[d].lastPolled.Some? ==> PolledAt(s, d)
    requires Next(s, PollFor(device)).rows[d].lastPolled.Some?
    ensures PolledAt(Next(s, PollFor(device)), d)
  {
    var s' := Next(s, PollFor(device));
    var n := |s.answers|;
    if s'.rows[d] == s.rows[d] {
      var i :| 0 <= i < n && s.answers[i].device == d && Paced(s.answers[i])
               && s.answers[i].at == s.rows[d].lastPolled.value;
      assert s'.answers[i] == s.answers[i];
    } else {
      assert s'.answers[n].device == d && Paced(s'.answers[n]);
    }
  }

  lemma PollKeepsInv(s: State, device: string)
    requires Inv(s)
    ensures Inv(Next(s, PollFor(device)))
  {
    PollFrame(s, device);
    PollKeepsRows(s, device);
    PollKeepsDelivery(s, device);
    PollKeepsPace(s, device);
    PollKeepsRowsTell(s, device);
  }

  lemma StepKeepsInv(s: State, step: Step)
    requires Inv(s)
    ensures Inv(Next(s, step))
  {
    match step
    case Tick(_) =>
    case Start(device, candidates, deviceLabel) => StartKeepsInv(s, device, candidates, deviceLabel);
    case Approve(typed, account, device) => ApproveKeepsInv(s, typed, account, device);
    case PollFor(device) => PollKeepsInv(s, device);
  }

  lemma {:induction false} RunKeepsInv(s: State, steps: seq<Step>)
    requires Inv(s)
    ensures Inv(Run(s, steps))
    decreases |steps|
  {
    if steps != [] {
      StepKeepsInv(s, steps[0]);
      RunKeepsInv(Next(s, steps[0]), steps[1..]);
    }
  }

  /** Over any run: a device code is delivered at most once, every later poll of it reads as
      expired, and the delivery is to the one account whose approval arrived while the row
      was pending and unexpired. */
  lemma DeliveredOnceToItsApprover(now: int, steps: seq<Step>, i: nat)
    requires i < |Run(Init(now), steps).answers| && Run(Init(now), steps).answers[i].result.Delivered?
    ensures var s := Run(Init(now), steps);
            && (forall j | i < j < |s.answers| && s.answers[j].device == s.answers[i].device ::
                  s.answers[j].result == Expired)
            && exists k | 0 <= k < |s.approvals| ::
                 && s.approvals[k].device == s.answers[i].device
                 && s.approvals[k].account == s.answers[i].result.account
                 && s.approvals[k].at <= s.answers[i].at && s.approvals[k].at <= s.approvals[k].expiresAt
                 && forall m | 0 <= m < |s.approvals| && m != k :: s.approvals[m].device != s.answers[i].device
  {
    RunKeepsInv(Init(now), steps);
    var s := Run(Init(now), steps);
    var k :| 0 <= k < |s.approvals| && s.approvals[k].device == s.answers[i].device
             && s.approvals[k].account == s.answers[i].result.account
             && s.approvals[k].at <= s.answers[i].at;
    forall m | 0 <= m < |s.approvals| && m != k ensures s.approvals[m].device != s.answers[i].device {
      assert m < k || k < m;
    }
  }

  /** Over any run, two answers for one device code that are neither slow-down nor expiry are
      at least the polling interval apart. */
  lemma AnswersArePaced(now: int, steps: seq<Step>, i: nat, j: nat)
    requires i < j < |Run(Init(now), steps).answers|
    requires var a := Run(Init(now), steps).answers;
             Paced(a[i]) && Paced(a[j]) && a[i].device == a[j].device
    ensures var a := Run(Init(now), steps).answers;
            a[j].at - a[i].at >= INTERVAL_MS
  {
    RunKeepsInv(Init(now), steps);
  }

  // ---------------------------------------------- every reply from what went before

  lemma LiveIsUnexpired(s: State, d: string)
    requires RowsTellInv(s)
    ensures Live(s, d) <==> d in s.rows && s.now <= s.rows[d].expiresAt
  {
  }

  /** The reply to a poll, in any run, from the grants begun, the approvals and the answers so
      far: expired, unless the code is live; then slow down, if the last paced answer is less than
      five seconds back; then the approving account with the label given at the start; and
      pending as long as nobody approved. */
  lemma PollRepliesIff(now: int, steps: seq<Step>, d: string) returns (reply: Result)
    ensures var s := Run(Init(now), steps);
            && Next(s, PollFor(d)).answers == s.answers + [Answer(s.now, d, reply)]
            && (reply == Expired <==> !Live(s, d))
            && (reply == SlowDown <==> Live(s, d) && Hasty(s, d))
            && (reply == StillPending <==> Live(s, d) && !Hasty(s, d) && forall a :: !ApprovedBy(s, d, a))
            && (forall a, l :: reply == Delivered(a, l) <==>
                  Live(s, d) && !Hasty(s, d) && ApprovedBy(s, d, a) && l == s.begun[d].deviceLabel)
            && reply != AccessDenied
  {
    RunKeepsInv(Init(now), steps);
    var s := Run(Init(now), steps);
    reply := Poll(s.rows, d, s.now).1;
    LiveIsUnexpired(s, d);
    if d in s.rows {
      HastyByRow(s, d);
      ApprovedByRow(s, d);
    }
  }

  lemma HastyByRow(s: State, d: string)
    requires PaceInv(s) && RowsTellInv(s) && d in s.rows
    ensures Hasty(s, d) <==> s.rows[d].lastPolled.Some? && s.now - s.rows[d].lastPolled.value < 5_000
  {
  }

  lemma ApprovedByRow(s: State, d: string)
    requires RowsInv(s) && ApprovalsInv(s) && RowsTellInv(s) && d in s.rows
    ensures forall a :: ApprovedBy(s, d, a) <==> s.rows[d].status == Approved && s.rows[d].account == Some(a)
  {
    forall a | ApprovedBy(s, d, a) ensures s.rows[d].status == Approved && s.rows[d].account == Some(a) {
      var i :| 0 <= i < |s.approvals| && s.approvals[i].device == d && s.approvals[i].account == a;
      assert s.rows[d].status != Pending;
      var k :| 0 <= k < |s.approvals| && s.approvals[k].device == d
               && s.approvals[k].account == s.rows[d].account.value;
      assert !(i < k) && !(k < i);
    }
  }

  /** An approval is recorded, in any run, if and only if the device is live, shows the code that
      was typed, and has not been approved. */
  lemma ApprovalIff(now: int, steps: seq<Step>, typed: string, account: string, d: string)
    ensures var s := Run(Init(now), steps);
            var s' := Next(s, Approve(typed, account, d));
            && (ApprovedBy(s', d, account) && !ApprovedBy(s, d, account)
                <==> Live(s, d) && s.begun[d].userCode == Normalize(typed) && forall a :: !ApprovedBy(s, d, a))
            && (forall e, a | e != d || a != account :: ApprovedBy(s', e, a) <==> ApprovedBy(s, e, a))
  {
    RunKeepsInv(Init(now), steps);
    var s := Run(Init(now), steps);
    LiveIsUnexpired(s, d);
    if d in s.rows {
      ApprovedByRow(s, d);
    }
    ApprovalsGrow(s, typed, account, d);
  }

  lemma ApprovalsGrow(s: State, typed: string, account: string, d: string)
    ensures var s' := Next(s, Approve(typed, account, d));
            forall e, a :: ApprovedBy(s', e, a) <==>
              ApprovedBy(s, e, a) || (s' != s && e == d && a == account)
  {
    var s' := Next(s, Approve(typed, account, d));
    if s' != s {
      assert s'.approvals[|s.approvals|].device == d && s'.approvals[|s.approvals|].account == account;
      forall e, a | ApprovedBy(s, e, a) ensures ApprovedBy(s', e, a) {
        var i :| 0 <= i < |s.approvals| && s.approvals[i].device == e && s.approvals[i].account == a;
        assert s'.approvals[i] == s.approvals[i];
      }
    }
  }

  /** A start, in any run, hands the device the first of its eleven draws that no live device
      shows, and fails if and only if there is none. */
  lemma StartIff(now: int, steps: seq<Step>, d: string, candidates: seq<string>, deviceLabel: string, k: nat)
    requires d !in Run(Init(now), steps).issued && |candidates| == 11 && k <= 11
    requires forall j | 0 <= j < k :: Shown(Run(Init(now), steps), candidates[j])
    requires k < 11 ==> !Shown(Run(Init(now), steps), candidates[k])
    ensures var s := Run(Init(now), steps);
            Next(s, Start(d, candidates, deviceLabel)).begun
            == if k == 11 then s.begun else s.begun[d := Begun(s.now, deviceLabel, candidates[k])]
  {
    RunKeepsInv(Init(now), steps);
    var s := Run(Init(now), steps);
    forall code ensures CodeInUse(Sweep(s.rows, s.now), code) <==> Shown(s, code) {
      ShownByRow(s, code);
    }
    PickIsFirst(Sweep(s.rows, s.now), candidates, k);
    StartStores(s, d, candidates, deviceLabel);
  }

  lemma StartStores(s: State, d: string, candidates: seq<string>, deviceLabel: string)
    requires s.rows.Keys <= s.issued && d !in s.issued && |candidates| == 11
    ensures var code := PickCode(Sweep(s.rows, s.now), candidates);
            Next(s, Start(d, candidates, deviceLabel)).begun
            == if CodeInUse(Sweep(s.rows, s.now), code) then s.begun
               else s.begun[d := Begun(s.now, deviceLabel, code)]
  {
  }

  lemma ShownByRow(s: State, code: string)
    requires RowsTellInv(s)
    ensures CodeInUse(Sweep(s.rows, s.now), code) <==> Shown(s, code)
  {
    var swept := Sweep(s.rows, s.now);
    if d :| d in swept && swept[d].userCode == code {
      LiveIsUnexpired(s, d);
      assert Live(s, d) && s.begun[d].userCode == code;
    }
    if d :| Live(s, d) && s.begun[d].userCode == code {
      LiveIsUnexpired(s, d);
      assert d in swept && swept[d].userCode == code;
    }
  }

  lemma {:induction false} PickIsFirst(rows: Rows, candidates: seq<string>, k: nat)
    requires candidates != [] && k <= |candidates|
    requires forall j | 0 <= j < k :: CodeInUse(rows, candidates[j])
    requires k < |candidates| ==> !CodeInUse(rows, candidates[k])
    ensures k < |candidates| ==> PickCode(rows, candidates) == candidates[k]
    ensures k == |candidates| ==> CodeInUse(rows, PickCode(rows, candidates))
    decreases |candidates|
  {
    if k > 0 && |candidates| > 1 {
      assert forall j | 0 <= j < k - 1 :: candidates[1..][j] == candidates[j + 1];
      PickIsFirst(rows, candidates[1..], k - 1);
    }
  }

  // ------------------------------------------------------ what went before, step by step

  lemma {:induction false} RunSplitsLast(s: State, steps: seq<Step>)
    requires steps != []
    ensures Run(s, steps) == Next(Run(s, steps[..|steps| - 1]), steps[|steps| - 1])
    decreases |steps|
  {
    var last := |steps| - 1;
    if last == 0 {
      assert steps[..0] == [] && steps[1..] == [];
    } else {
      RunSplitsLast(Next(s, steps[0]), steps[1..]);
      assert steps[1..][..last - 1] == steps[..last][1..];
    }
  }

  /** A grant begun in a run is a start of it: with its label, at its time, with one of its
      draws. */
  lemma {:induction false} BegunIsAStart(now: int, steps: seq<Step>, d: string) returns (i: nat)
    requires d in Run(Init(now), steps).begun
    ensures i < |steps| && steps[i].Start? && steps[i].device == d
    ensures var b := Run(Init(now), steps).begun[d];
            && b.deviceLabel == steps[i].deviceLabel && b.userCode in steps[i].candidates
            && b.at == Run(Init(now), steps[..i]).now
    decreases |steps|
  {
    assert steps != [];
    var last := |steps| - 1;
    var s := Run(Init(now), steps[..last]);
    RunSplitsLast(Init(now), steps);
    RunKeepsInv(Init(now), steps[..last]);
    BegunStep(s, steps[last], d);
    if d in s.begun {
      i := BegunIsAStart(now, steps[..last], d);
      assert steps[..last][..i] == steps[..i];
    } else {
      i := last;
    }
  }

  lemma BegunStep(s: State, step: Step, d: string)
    requires s.rows.Keys <= s.issued && s.begun.Keys <= s.issued && d in Next(s, step).begun
    ensures var b := Next(s, step).begun[d];
            if d in s.begun then b == s.begun[d]
            else && step.Start? && step.device == d && step.candidates != [] && b.userCode in step.candidates
                 && b == Begun(s.now, step.deviceLabel, b.userCode)
  {
    if step.Start? && step.device !in s.issued && |step.candidates| == 11 {
      PickIsACandidate(Sweep(s.rows, s.now), step.candidates);
      StartStores(s, step.device, step.candidates, step.deviceLabel);
    }
  }

  lemma {:induction false} PickIsACandidate(rows: Rows, candidates: seq<string>)
    requires candidates != []
    ensures PickCode(rows, candidates) in candidates
  {
    if |candidates| > 1 {
      PickIsACandidate(rows, candidates[1..]);
    }
  }

  /** An approval in a run is an approving step of it, by its account, that found the device
      live and showing the code that was typed. */
  lemma {:induction false} ApprovalIsAStep(now: int, steps: seq<Step>, d: string, a: string) returns (i: nat)
    requires ApprovedBy(Run(Init(now), steps), d, a)
    ensures i < |steps| && steps[i].Approve? && steps[i].device == d && steps[i].account == a
    ensures var s := Run(Init(now), steps[..i]);
            Live(s, d) && s.begun[d].userCode == Normalize(steps[i].typed)
    decreases |steps|
  {
    assert steps != [];
    var last := |steps| - 1;
    var s := Run(Init(now), steps[..last]);
    RunSplitsLast(Init(now), steps);
    if ApprovedBy(s, d, a) {
      i := ApprovalIsAStep(now, steps[..last], d, a);
      assert steps[..last][..i] == steps[..i];
    } else {
      i := last;
      assert steps[last].Approve?;
      ApprovalIff(now, steps[..last], steps[last].typed, steps[last].account, steps[last].device);
    }
  }

  /** The device codes polled for, in order. */
  function Polls(steps: seq<Step>): seq<string> {
    if steps == [] then []
    else (if steps[0].PollFor? then [steps[0].device] else []) + Polls(steps[1..])
  }

  function Elapsed(steps: seq<Step>): nat {
    if steps == [] then 0 else (if steps[0].Tick? then steps[0].ms else 0) + Elapsed(steps[1..])
  }

  /** Every poll is answered, in order, and the clock is what has elapsed. */
  lemma {:induction false} EveryPollIsAnswered(s: State, steps: seq<Step>)
    ensures var s' := Run(s, steps);
            && |s'.answers| == |s.answers| + |Polls(steps)|
            && s.answers <= s'.answers
            && (forall k | 0 <= k < |Polls(steps)| :: s'.answers[|s.answers| + k].device == Polls(steps)[k])
            && s'.now == s.now + Elapsed(steps)
    decreases |steps|
  {
    if steps != [] {
      EveryPollIsAnswered(Next(s, steps[0]), steps[1..]);
    }
  }

  // ------------------------------------------------------ the table in place

  class DeviceTable {
    var rows: Rows

    constructor ()
      ensures rows == map[]
    {
      rows := map[];
    }

    method SweepExpired(now: int)
      modifies this
      ensures rows == Sweep(old(rows), now)
    {
      rows := map d | d in rows && rows[d].expiresAt >= now :: rows[d];
    }

    /** Re-rolls a user code in use at most ten times. */
    method StartDeviceAuth(now: int, device: string, candidates: seq<string>, deviceLabel: string) returns (ok: bool)
      requires |candidates| == CODE_RETRIES + 1
      modifies this
      ensures rows == StartDevice(old(rows), now, device, candidates, deviceLabel)
      ensures ok ==> device in rows && rows[device].status == Pending && rows[device].expiresAt == now + EXPIRES_IN_MS
      ensures !ok ==> rows == Sweep(old(rows), now)
    {
      SweepExpired(now);
      var userCode := candidates[0];
      var i := 0;
      assert candidates[0..] == candidates;
      while i < CODE_RETRIES && CodeInUse(rows, userCode)
        invariant 0 <= i <= CODE_RETRIES && userCode == candidates[i]
        invariant PickCode(rows, candidates) == PickCode(rows, candidates[i..])
        invariant rows == Sweep(old(rows), now)
      {
        assert candidates[i..][1..] == candidates[i + 1..];
        i := i + 1;
        userCode := candidates[i];
      }
      assert candidates[i..][0] == userCode;
      if device in rows || CodeInUse(rows, userCode) {
        return false;
      }
      rows := rows[device := Grant(userCode, None, Pending, deviceLabel, now + EXPIRES_IN_MS, None)];
      return true;
    }

    /** Looks the row up by the typed code; user codes are unique. */
    method ApproveDevice(typed: string, account: string, now: int) returns (ok: bool)
      requires UniqueCodes(rows)
      modifies this
      ensures UniqueCodes(rows)
      ensures ok <==> exists d :: Approvable(old(rows), d, Normalize(typed), now)
      ensures forall d :: Approvable(old(rows), d, Normalize(typed), now) ==> rows == ApproveRow(old(rows), d, account)
      ensures !ok ==> rows == old(rows)
    {
      var code := Normalize(typed);
      if d :| d in rows && rows[d].userCode == code {
        if rows[d].status != Pending || rows[d].expiresAt < now {
          return false;
        }
        rows := rows[d := rows[d].(status := Approved, account := Some(account))];
        assert Approvable(old(rows), d, code, now);
        return true;
      }
      return false;
    }

    method PollDeviceToken(device: string, now: int) returns (result: Result)
      modifies this
      ensures (rows, result) == Poll(old(rows), device, now)
      ensures result.Delivered? ==> device !in rows
    {
      if device !in rows || rows[device].expiresAt < now {
        return Expired;
      }
      var row := rows[device];
      if row.lastPolled.Some? && now - row.lastPolled.value < INTERVAL_MS {
        return SlowDown;
      }
      rows := rows[device := row.(lastPolled := Some(now))];
      if row.status == Denied {
        return AccessDenied;
      }
      if row.status != Approved || row.account.None? {
        return StillPending;
      }
      rows := rows - {device};
      return Delivered(row.account.value, row.deviceLabel);
    }
  }
}
