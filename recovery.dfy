/** `nrf_recover` (src/main.rs): locate Nordic's CTRL-AP, then reset the
    target, trigger ERASEALL, busy-poll ERASEALLSTATUS under a 15-second
    timeout, and always finish with a second reset and an ERASEALL clear.

    The debug transport is abstract. It answers the i-th CTRL-AP register
    operation of the run (numbered from 0) with an I/O error when
    `fails(i)`, and a status read numbered i reports a busy erase when
    `busy(i)`. The monotonic clock is `elapsed`: `elapsed(i)` is the value of
    `now.elapsed().as_secs()` taken right after operation i returned, where
    `now` is the instant sampled once, just before the diagnostic read.
    The methods return the transport's log of the operations asked of it
    (the trace); its length is the number of the next operation. */
module Recovery {
  import opened Wrappers
  import opened CtrlAp

  /** `UNLOCK_TIMEOUT`, in whole seconds. */
  const UnlockTimeout: nat := 15

  /** Operation numbers of the diagnostic status read and of the first poll-loop read. */
  const DiagnosticRead: nat := 3
  const FirstPoll: nat := 4

  /** A register operation on the access port with the given handle. Each
      register is reduced to the one boolean field the sequencer sets or tests. */
  datatype Op =
    | WriteReset(port: nat, hold: bool)
    | WriteEraseAll(port: nat, erase: bool)
    | ReadStatus(port: nat)

  datatype Transport = Transport(fails: nat -> bool, busy: nat -> bool)

  datatype RecoverError = CtrlApNotFound | TransportFailure | TimedOut

  ghost predicate Monotone(elapsed: nat -> nat) {
    forall i: nat, j: nat :: i <= j ==> elapsed(i) <= elapsed(j)
  }

  /** The assumption that makes the poll loop finite: the clock gets to the timeout. */
  ghost predicate ReachesTimeout(elapsed: nat -> nat) {
    exists k: nat :: elapsed(k) >= UnlockTimeout
  }

  /** Reset, reset release, erase trigger, diagnostic status read. */
  function Prologue(port: nat): seq<Op> {
    [WriteReset(port, true), WriteReset(port, false), WriteEraseAll(port, true), ReadStatus(port)]
  }

  /** The n status reads of the poll loop. */
  function Polls(port: nat, n: nat): seq<Op> {
    seq(n, _ => ReadStatus(port))
  }

  /** Reset, reset release, erase-trigger clear. */
  function Cleanup(port: nat): seq<Op> {
    [WriteReset(port, true), WriteReset(port, false), WriteEraseAll(port, false)]
  }

  /** Every operation of a run without I/O errors whose poll loop reads status n times. */
  function Schedule(port: nat, n: nat): seq<Op> {
    Prologue(port) + Polls(port, n) + Cleanup(port)
  }

  /** What loop read j (operation FirstPoll + j) reports. */
  predicate PollBusy(t: Transport, j: nat) {
    t.busy(FirstPoll + j)
  }

  /** The clock reading right after loop read j. */
  function PollTime(elapsed: nat -> nat, j: nat): nat {
    elapsed(FirstPoll + j)
  }

  /** Loop read j reported busy before the deadline, so the loop goes round again. */
  predicate Continues(t: Transport, elapsed: nat -> nat, j: nat) {
    PollBusy(t, j) && PollTime(elapsed, j) < UnlockTimeout
  }

  /** The poll loop, left to itself, stops at its n-th read. */
  predicate EndsAt(t: Transport, elapsed: nat -> nat, n: nat) {
    && n >= 1
    && (forall j: nat :: j < n - 1 ==> Continues(t, elapsed, j))
    && !Continues(t, elapsed, n - 1)
  }

  lemma EndsAtUnique(t: Transport, elapsed: nat -> nat, n: nat, m: nat)
    requires EndsAt(t, elapsed, n) && EndsAt(t, elapsed, m)
    ensures n == m
  {
  }

  lemma {:induction false} PollEndsFrom(t: Transport, elapsed: nat -> nat, k: nat, j: nat)
    requires Monotone(elapsed) && elapsed(k) >= UnlockTimeout
    requires forall i: nat :: i < j ==> Continues(t, elapsed, i)
    ensures exists n: nat :: EndsAt(t, elapsed, n)
    decreases k - j
  {
    if Continues(t, elapsed, j) {
      PollEndsFrom(t, elapsed, k, j + 1);
    } else {
      assert EndsAt(t, elapsed, j + 1);
    }
  }

  /** With a monotonic clock that reaches the timeout, the loop stops. */
  lemma PollEnds(t: Transport, elapsed: nat -> nat)
    requires Monotone(elapsed) && ReachesTimeout(elapsed)
    ensures exists n: nat :: EndsAt(t, elapsed, n)
  {
    var k: nat :| elapsed(k) >= UnlockTimeout;
    PollEndsFrom(t, elapsed, k, 0);
  }

  /** The number of status reads the poll loop issues when no read fails. */
  ghost function PollCount(t: Transport, elapsed: nat -> nat): (n: nat)
    requires Monotone(elapsed) && ReachesTimeout(elapsed)
    ensures EndsAt(t, elapsed, n)
  {
    PollEnds(t, elapsed);
    var n: nat :| EndsAt(t, elapsed, n);
    n
  }

  /** A loop read that reports "not busy" ends the loop as completed, however
      late it comes: the busy test is made before the deadline test. */
  lemma NotBusyWins(t: Transport, elapsed: nat -> nat, j: nat)
    requires Monotone(elapsed) && ReachesTimeout(elapsed)
    requires forall i: nat :: i < j ==> Continues(t, elapsed, i)
    requires !t.busy(FirstPoll + j)
    ensures PollCount(t, elapsed) == j + 1
    ensures !t.busy(FirstPoll + PollCount(t, elapsed) - 1)
  {
    EndsAtUnique(t, elapsed, j + 1, PollCount(t, elapsed));
  }

  /** The loop times out only on a busy read taken once the elapsed time has
      reached UnlockTimeout, every earlier loop read having reported busy. */
  lemma TimeoutOnlyAfterDeadline(t: Transport, elapsed: nat -> nat)
    requires Monotone(elapsed) && ReachesTimeout(elapsed)
    requires t.busy(FirstPoll + PollCount(t, elapsed) - 1)
    ensures PollTime(elapsed, PollCount(t, elapsed) - 1) >= UnlockTimeout
    ensures forall j: nat :: j < PollCount(t, elapsed) ==> PollBusy(t, j)
  {
    var n := PollCount(t, elapsed);
    forall j: nat | j < n ensures PollBusy(t, j) {
      if j < n - 1 {
        assert Continues(t, elapsed, j);
      }
    }
  }

  /** A target that stays busy makes the loop read until the first reading
      of the clock at or past the deadline. */
  lemma {:induction false} AlwaysBusyTimesOut(t: Transport, elapsed: nat -> nat)
    requires Monotone(elapsed) && ReachesTimeout(elapsed)
    requires forall i: nat :: t.busy(i)
    ensures PollTime(elapsed, PollCount(t, elapsed) - 1) >= UnlockTimeout
    ensures forall j: nat :: j < PollCount(t, elapsed) - 1 ==> PollTime(elapsed, j) < UnlockTimeout
  {
    var n := PollCount(t, elapsed);
    assert !Continues(t, elapsed, n - 1);
    forall j: nat | j < n - 1 ensures PollTime(elapsed, j) < UnlockTimeout {
      assert Continues(t, elapsed, j);
    }
  }

  /** The value of the diagnostic read decides nothing: two transports that
      differ only in what that read reports give the same poll loop. */
  lemma DiagnosticReadIgnored(t: Transport, u: Transport, elapsed: nat -> nat)
    requires Monotone(elapsed) && ReachesTimeout(elapsed)
    requires u.fails == t.fails
    requires forall i: nat :: i != DiagnosticRead ==> u.busy(i) == t.busy(i)
    ensures PollCount(u, elapsed) == PollCount(t, elapsed)
    ensures PollBusy(u, PollCount(u, elapsed) - 1) == PollBusy(t, PollCount(t, elapsed) - 1)
  {
    var n := PollCount(t, elapsed);
    forall j: nat ensures Continues(u, elapsed, j) == Continues(t, elapsed, j) {
      assert u.busy(FirstPoll + j) == t.busy(FirstPoll + j);
    }
    assert EndsAt(u, elapsed, n);
    EndsAtUnique(u, elapsed, n, PollCount(u, elapsed));
  }

  /** A clock that advances one second per operation, counted from `now`,
      which is sampled just before the diagnostic read (operation 3): the
      reading after operation i is i - 2 seconds. */
  function OneSecondPerOp(i: nat): nat {
    if i < DiagnosticRead - 1 then 0 else i - (DiagnosticRead - 1)
  }

  /** A target that reports busy on the first two loop reads and finished on
      the third, with a clock that advances one second per operation, ends
      the loop at its third read, as completed. */
  lemma BusyTwiceThenDone()
    ensures var t := Transport(_ => false, i => i < FirstPoll + 2);
      var elapsed := OneSecondPerOp;
      && Monotone(elapsed) && ReachesTimeout(elapsed)
      && PollCount(t, elapsed) == 3
      && !PollBusy(t, PollCount(t, elapsed) - 1)
  {
    var t := Transport(_ => false, i => i < FirstPoll + 2);
    var elapsed := OneSecondPerOp;
    assert elapsed(UnlockTimeout + 2) >= UnlockTimeout;
    assert Continues(t, elapsed, 0) && Continues(t, elapsed, 1);
    NotBusyWins(t, elapsed, 2);
  }

  /** A target that never finishes, with a clock that advances one second per
      operation, is polled until operation 17, the fourteenth loop read, whose
      clock reading is 15 s, and times out. */
  lemma NeverDoneTimesOut()
    ensures var t := Transport(_ => false, _ => true);
      var elapsed := OneSecondPerOp;
      && Monotone(elapsed) && ReachesTimeout(elapsed)
      && PollCount(t, elapsed) == 14
      && PollBusy(t, PollCount(t, elapsed) - 1)
  {
    var t := Transport(_ => false, _ => true);
    var elapsed := OneSecondPerOp;
    assert elapsed(UnlockTimeout + 2) >= UnlockTimeout;
    assert forall j: nat :: j < 13 ==> Continues(t, elapsed, j);
    assert EndsAt(t, elapsed, 14);
    EndsAtUnique(t, elapsed, 14, PollCount(t, elapsed));
  }

  /** Both outcomes of the loop are followed by the same cleanup, and a run
      starts with the same prologue, whatever the loop did. */
  lemma ScheduleShape(port: nat, n: nat)
    ensures |Schedule(port, n)| == |Prologue(port)| + n + |Cleanup(port)|
    ensures Schedule(port, n)[..|Prologue(port)|] == Prologue(port)
    ensures Schedule(port, n)[|Prologue(port)| + n..] == Cleanup(port)
    ensures forall i :: 0 <= i < |Schedule(port, n)| ==> Schedule(port, n)[i].port == port
    ensures forall i :: 0 <= i < |Schedule(port, n)| ==>
      (Schedule(port, n)[i].ReadStatus? <==> DiagnosticRead <= i < FirstPoll + n)
  {
  }

  /** `write_ap_register` on the transport. The trace is the transport's log
      of the operations asked of it so far; op becomes operation number |trace|. */
  method WriteApRegister(t: Transport, trace: seq<Op>, op: Op)
    returns (ok: bool, trace': seq<Op>)
    requires !op.ReadStatus?
    ensures ok == !t.fails(|trace|) && trace' == trace + [op]
  {
    ok := !t.fails(|trace|);
    trace' := trace + [op];
  }

  /** `read_ap_register` of ERASEALLSTATUS: the busy flag, or None on an I/O error. */
  method ReadApRegister(t: Transport, port: nat, trace: seq<Op>)
    returns (status: Option<bool>, trace': seq<Op>)
    ensures status == (if t.fails(|trace|) then None else Some(t.busy(|trace|)))
    ensures trace' == trace + [ReadStatus(port)]
  {
    status := if t.fails(|trace|) then None else Some(t.busy(|trace|));
    trace' := trace + [ReadStatus(port)];
  }

  /** The operations issued are the start of the fault-free schedule s: all
      of it, or everything up to and including the first one that failed. */
  ghost predicate IssuedPrefix(t: Transport, s: seq<Op>, trace: seq<Op>) {
    && 0 < |trace| <= |s|
    && trace == s[..|trace|]
    && (forall i :: 0 <= i < |trace| - 1 ==> !t.fails(i))
    && (|trace| < |s| ==> t.fails(|trace| - 1))
  }

  /** What the run reports, given the operations it issued. */
  ghost function Verdict(t: Transport, elapsed: nat -> nat, trace: seq<Op>): Result<(), RecoverError>
    requires Monotone(elapsed) && ReachesTimeout(elapsed)
    requires |trace| > 0
  {
    if t.fails(|trace| - 1) then Err(TransportFailure)
    else if PollBusy(t, PollCount(t, elapsed) - 1) then Err(TimedOut)
    else Ok(())
  }

  /** A transport's failures fix the trace: at most one prefix of s is the
      one a run on that transport issues. */
  lemma IssuedPrefixUnique(t: Transport, s: seq<Op>, trace: seq<Op>, other: seq<Op>)
    requires IssuedPrefix(t, s, trace) && IssuedPrefix(t, s, other)
    ensures trace == other
  {
  }

  /** End to end: runs on two transports that differ only in what the
      diagnostic read reports issue the same operations and report the same
      result. */
  lemma DiagnosticReadIgnoredByRun(t: Transport, u: Transport, elapsed: nat -> nat, port: nat,
                                   trace: seq<Op>, other: seq<Op>)
    requires Monotone(elapsed) && ReachesTimeout(elapsed)
    requires u.fails == t.fails
    requires forall i: nat :: i != DiagnosticRead ==> u.busy(i) == t.busy(i)
    requires IssuedPrefix(t, Schedule(port, PollCount(t, elapsed)), trace)
    requires IssuedPrefix(u, Schedule(port, PollCount(u, elapsed)), other)
    ensures trace == other
    ensures Verdict(t, elapsed, trace) == Verdict(u, elapsed, other)
  {
    DiagnosticReadIgnored(t, u, elapsed);
    IssuedPrefixUnique(t, Schedule(port, PollCount(t, elapsed)), trace, other);
  }

  /** Every operation issued so far is the next one of s, and all succeeded. */
  ghost predicate OnSchedule(t: Transport, s: seq<Op>, trace: seq<Op>) {
    && |trace| <= |s|
    && trace == s[..|trace|]
    && forall i :: 0 <= i < |trace| ==> !t.fails(i)
  }

  /** Issuing the next scheduled operation either keeps the run on schedule
      or, when the transport fails it, ends the run with a prefix of s. */
  lemma Advance(t: Transport, s: seq<Op>, trace: seq<Op>)
    requires OnSchedule(t, s, trace) && |trace| < |s|
    ensures !t.fails(|trace|) ==> OnSchedule(t, s, trace + [s[|trace|]])
    ensures t.fails(|trace|) ==> IssuedPrefix(t, s, trace + [s[|trace|]])
  {
  }

  /** Steps 1-4 of the sequence: reset, reset release, erase trigger and the
      diagnostic status read, whose value is discarded (it is only logged). */
  method StartErase(port: nat, t: Transport, ghost s: seq<Op>)
    returns (ok: bool, trace: seq<Op>)
    requires |Prologue(port)| < |s| && s[..|Prologue(port)|] == Prologue(port)
    ensures ok ==> |trace| == |Prologue(port)| && OnSchedule(t, s, trace)
    ensures !ok ==> IssuedPrefix(t, s, trace) && t.fails(|trace| - 1)
  {
    var eraseReg := true;
    var resetReg := true;
    trace := [];
    assert s[0] == WriteReset(port, true) && s[1] == WriteReset(port, false);
    assert s[2] == WriteEraseAll(port, true) && s[3] == ReadStatus(port);

    // Reset first
    Advance(t, s, trace);
    ok, trace := WriteApRegister(t, trace, WriteReset(port, resetReg));
    if !ok { return; }
    resetReg := false;
    Advance(t, s, trace);
    ok, trace := WriteApRegister(t, trace, WriteReset(port, resetReg));
    if !ok { return; }
    Advance(t, s, trace);
    ok, trace := WriteApRegister(t, trace, WriteEraseAll(port, eraseReg));
    if !ok { return; }

    // The clock starts here
    var status;
    Advance(t, s, trace);
    status, trace := ReadApRegister(t, port, trace);
    ok := status.Some?;
  }

  /** Step 5: the busy-poll loop. It stops at the first read that reports the
      erase finished (no timeout), or at the first busy read whose clock
      reading has reached UnlockTimeout (timeout), or at an I/O error. */
  method PollEraseStatus(port: nat, t: Transport, elapsed: nat -> nat, ghost s: seq<Op>, trace0: seq<Op>)
    returns (ok: bool, timedOut: bool, trace: seq<Op>)
    requires Monotone(elapsed) && ReachesTimeout(elapsed)
    requires |trace0| == FirstPoll && OnSchedule(t, s, trace0)
    requires |s| == FirstPoll + PollCount(t, elapsed) + |Cleanup(port)|
    requires forall i :: FirstPoll <= i < FirstPoll + PollCount(t, elapsed) ==> s[i] == ReadStatus(port)
    ensures ok ==> |trace| == FirstPoll + PollCount(t, elapsed) && OnSchedule(t, s, trace)
    ensures ok ==> timedOut == PollBusy(t, PollCount(t, elapsed) - 1)
    ensures !ok ==> IssuedPrefix(t, s, trace) && t.fails(|trace| - 1)
  {
    ghost var n := PollCount(t, elapsed);
    trace := trace0;
    var j := 0;
    while true
      invariant j < n && |trace| == FirstPoll + j
      invariant OnSchedule(t, s, trace)
      invariant forall i: nat :: i < j ==> Continues(t, elapsed, i)
      decreases n - j
    {
      Advance(t, s, trace);
      var status;
      status, trace := ReadApRegister(t, port, trace);
      if status.None? {
        return false, false, trace;
      }
      if !status.value {
        EndsAtUnique(t, elapsed, j + 1, n);
        return true, false, trace;
      }
      if elapsed(|trace| - 1) >= UnlockTimeout {
        EndsAtUnique(t, elapsed, j + 1, n);
        return true, true, trace;
      }
      j := j + 1;
    }
  }

  /** Steps 6-8, issued whatever the poll loop's outcome: reset, reset release,
      erase-trigger clear. */
  method FinishErase(port: nat, t: Transport, ghost s: seq<Op>, trace0: seq<Op>)
    returns (ok: bool, trace: seq<Op>)
    requires OnSchedule(t, s, trace0)
    requires |s| == |trace0| + |Cleanup(port)| && s[|trace0|..] == Cleanup(port)
    ensures ok ==> trace == s && forall i :: 0 <= i < |s| ==> !t.fails(i)
    ensures !ok ==> IssuedPrefix(t, s, trace) && t.fails(|trace| - 1)
  {
    trace := trace0;
    var eraseReg := true;
    var resetReg := true;
    ghost var k := |trace0|;
    assert s[k] == WriteReset(port, true) && s[k + 1] == WriteReset(port, false);
    assert s[k + 2] == WriteEraseAll(port, false);

    Advance(t, s, trace);
    ok, trace := WriteApRegister(t, trace, WriteReset(port, resetReg));
    if !ok { return; }
    resetReg := false;
    Advance(t, s, trace);
    ok, trace := WriteApRegister(t, trace, WriteReset(port, resetReg));
    if !ok { return; }
    eraseReg := false;
    Advance(t, s, trace);
    ok, trace := WriteApRegister(t, trace, WriteEraseAll(port, eraseReg));
  }

  /** The register sequence on the located CTRL-AP, with its handle port. */
  method EraseSequence(port: nat, t: Transport, elapsed: nat -> nat)
    returns (res: Result<(), RecoverError>, trace: seq<Op>)
    requires Monotone(elapsed) && ReachesTimeout(elapsed)
    ensures IssuedPrefix(t, Schedule(port, PollCount(t, elapsed)), trace)
    ensures res == Verdict(t, elapsed, trace)
  {
    ghost var n := PollCount(t, elapsed);
    ghost var s := Schedule(port, n);
    assert s[..|Prologue(port)|] == Prologue(port);
    assert s[FirstPoll + n..] == Cleanup(port);
    var ok, timedOut;
    ok, trace := StartErase(port, t, s);
    if !ok { return Err(TransportFailure), trace; }
    ok, timedOut, trace := PollEraseStatus(port, t, elapsed, s, trace);
    if !ok { return Err(TransportFailure), trace; }
    ok, trace := FinishErase(port, t, s, trace);
    if !ok { return Err(TransportFailure), trace; }
    if timedOut {
      res := Err(TimedOut);
    } else {
      res := Ok(());
    }
  }

  /** `nrf_recover`. Without a CTRL-AP it fails before any register operation.
      Otherwise the operations issued are the start of the fault-free
      schedule on that port: all of it, or up to and including the first one
      that failed. The result is a transport failure exactly when the last
      operation issued failed; otherwise it is Ok when the loop's last read
      reported the erase finished and a timeout when it reported busy. */
  method NrfRecover(ports: seq<Idr>, t: Transport, elapsed: nat -> nat)
    returns (res: Result<(), RecoverError>, trace: seq<Op>)
    requires Monotone(elapsed) && ReachesTimeout(elapsed)
    ensures FindCtrlAp(ports).None? ==> res == Err(CtrlApNotFound) && trace == []
    ensures FindCtrlAp(ports).Some? ==>
      && IssuedPrefix(t, Schedule(FindCtrlAp(ports).value, PollCount(t, elapsed)), trace)
      && res == (if t.fails(|trace| - 1) then Err(TransportFailure)
                 else if PollBusy(t, PollCount(t, elapsed) - 1) then Err(TimedOut)
                 else Ok(()))
  {
    var found := FindCtrlAp(ports);
    if found.None? {
      return Err(CtrlApNotFound), [];
    }
    res, trace := EraseSequence(found.value, t, elapsed);
  }
}
