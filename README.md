# nrf-recover, modelled in Dafny

nrf-recover unlocks a Nordic nRF52 whose debug access is blocked by
readback protection. It does this through Nordic's control access port
(CTRL-AP). First it asks the operator to confirm and picks a debug probe.
Then it finds the CTRL-AP among the target's access ports and runs a fixed
register sequence:

1. assert RESET, then release it;
2. set ERASEALL;
3. read ERASEALLSTATUS once, for the log only;
4. busy-poll ERASEALLSTATUS until it reports not busy, or until 15 seconds
   have passed;
5. assert and release RESET again, and clear ERASEALL.

Step 5 runs whether or not the poll timed out. A timeout makes the run fail.
An I/O error on any register access stops the run at that access.

The project models three parts of `src/main.rs`:

- `CtrlAp` (`ctrl_ap.dfy`): the IDR value, the `CTRL_AP_IDR` signature and
  the port match. The locator function has the contract assumed of
  probe-rs's `get_ap_by_idr`: it returns the first port, in the transport's
  order, whose IDR matches.
- `Recovery` (`recovery.dfy`): `nrf_recover`, written as imperative methods.
  - The debug transport is a value with two oracles, indexed by the number
    of the CTRL-AP operation (counting from 0). `fails(i)` says operation i
    hits an I/O error. `busy(i)` is what status read i reports.
  - The clock is `elapsed: nat -> nat`. `elapsed(i)` is
    `now.elapsed().as_secs()` read just after operation i. `now` is taken
    once, right before the diagnostic read.
  - The methods also return the trace: the transport's log of the register
    operations it was asked for, in order.
  - `PollCount` is the number of loop reads the poll loop issues when no
    read fails.
  - `Schedule(port, n)` is the full operation sequence of a run with no
    I/O errors and n loop reads.
  - `NrfRecover` is specified against these two functions: which operations
    it issues and in what order, where an I/O error stops it, and which
    result it returns.
- `Cli` (`cli.dfy`): the checks `main_try` makes before it touches any
  hardware. These are the `[y/N]` confirmation, the probe choice
  (`--probe-index` or the single attached probe) and the ST-Link refusal.
  All are pure functions.

`wrappers.dfy` holds `Option` and `Result`.

Termination of the poll loop depends on an assumption, stated as a
precondition: the clock never goes backwards, and some reading eventually
reaches 15 s. No fuel bound is used.

Details of the code the model follows:

- `CTRL_AP_IDR` has six fields, including the reserved `_RES0`, and the IDR
  equality compares all six. `IsCtrlAp` therefore also requires `res0 == 0`.
- The clock is started by `Instant::now()` at src/main.rs:129, just before
  the diagnostic read.
- The loop always issues at least one status read after the diagnostic read.
- After an I/O error, the trace is the full schedule's prefix that ends at
  the failed operation. If the last cleanup write fails, that prefix is the
  whole schedule.

## Model

| member | source | states |
|---|---|---|
| CtrlAp.IsCtrlAp | src/main.rs:97-104 | a port is the CTRL-AP exactly when its IDR has designer 0x0144, class Undefined, type JTAG_COM_AP, revision 0, variant 0 and reserved field 0 |
| CtrlAp.OneFieldOffIsRefused | src/main.rs:97-104 | an IDR that differs from the signature in any single field (designer, class, type, revision, variant or reserved field) is refused |
| CtrlAp.FindCtrlAp | src/main.rs:110-115 | the locator returns the index of the first matching port and no earlier port matches; it returns None exactly when no port matches |
| Recovery.EndsAtUnique | src/main.rs:132-140 | the poll loop can stop at only one read, so the loop length is well defined |
| Recovery.PollEndsFrom | src/main.rs:132-140 | with a monotonic clock that reaches the timeout, the loop started after any number of busy reads before the deadline stops |
| Recovery.PollEnds | src/main.rs:132-140 | with a monotonic clock that reaches the timeout, the poll loop stops after finitely many reads |
| Recovery.PollCount | src/main.rs:132-140 | the loop length: every loop read before the last reported busy before the deadline; the last reported not busy, or busy at or after the deadline |
| Recovery.NotBusyWins | src/main.rs:133-136 | the first loop read that reports not busy ends the loop as completed, whatever the clock says, because the busy test comes first |
| Recovery.TimeoutOnlyAfterDeadline | src/main.rs:132-140 | a timeout happens only on a busy read whose clock reading is at least 15 s, after loop reads that all reported busy |
| Recovery.AlwaysBusyTimesOut | src/main.rs:137-139 | a target that never finishes is polled until the first clock reading of at least 15 s, and no earlier reading reached it |
| Recovery.DiagnosticReadIgnored | src/main.rs:130-131 | what the diagnostic read reports changes neither the loop length nor the loop's outcome |
| Recovery.IssuedPrefixUnique | src/main.rs:117-146 | the transport's failures fix the trace: only one prefix of the schedule cut at the first failure exists |
| Recovery.DiagnosticReadIgnoredByRun | src/main.rs:130-131 | two runs whose transports differ only in the diagnostic read's answer issue the same operations and report the same result |
| Recovery.BusyTwiceThenDone | src/main.rs:132-140 | two busy reads and then a not-busy read give three loop reads and completion, with a clock that advances one second per operation from `now` (`OneSecondPerOp`) |
| Recovery.NeverDoneTimesOut | src/main.rs:132-140 | an always-busy target gets fourteen loop reads and a timeout, with a clock that advances one second per operation from `now` (`OneSecondPerOp`: the fourteenth loop read, operation 17, reads 15 s) |
| Recovery.ScheduleShape | src/main.rs:121-146 | the full schedule is reset, release, erase, diagnostic read, the loop reads, then reset, release, erase clear; every operation targets the CTRL-AP, and status reads sit exactly between the prologue writes and the cleanup |
| Recovery.WriteApRegister | src/main.rs:122 | a register write is issued as the next operation and succeeds exactly when the transport does not fail it |
| Recovery.ReadApRegister | src/main.rs:130 | an ERASEALLSTATUS read is issued as the next operation and yields the busy flag, or an I/O error |
| Recovery.StartErase | src/main.rs:117-131 | the first four operations are RESET=1, RESET=0, ERASEALL=1 and a status read, up to the first I/O error |
| Recovery.PollEraseStatus | src/main.rs:132-140 | the loop issues exactly PollCount status reads unless one fails, and times out exactly when the last read reported busy |
| Recovery.FinishErase | src/main.rs:141-146 | after the loop, always RESET=1, RESET=0, ERASEALL=0, up to the first I/O error |
| Recovery.EraseSequence | src/main.rs:117-154 | the operations are the schedule's prefix up to the first I/O error, and the result is a transport failure, a timeout or Ok as the last operation and the last loop read decide |
| Recovery.NrfRecover | src/main.rs:109-155 | with no CTRL-AP, fails with no register operation; otherwise issues the full schedule, or its prefix ending at the first failed operation; Ok exactly when nothing failed and the last loop read reported not busy, a timeout when it reported busy, a transport failure kept apart from the timeout |
| Cli.Lowercase | src/main.rs:58 | lower-casing keeps the length and lower-cases each character |
| Cli.Confirmed | src/main.rs:58-61 | the answer lets the run continue exactly when its first character is `y` or `Y`; an empty answer does not |
| Cli.SelectProbe | src/main.rs:66-81 | with an index: the probe at that index, or "probe not found" when it is out of range, whatever the list length; without one: the only probe, "more than a single probe" for two or more, "no supported probe" for none |
| Cli.CheckProbeType | src/main.rs:83-85 | an ST-Link is refused unless `--st-link` is given; any other probe passes unchanged |
| Cli.PreHardware | src/main.rs:49-85 | once the run may go on, a selection error aborts with that error; otherwise the probe `SelectProbe` chose is opened, or the ST-Link check's refusal aborts the run; an opened probe is always the selected one, is in the list, and is an ST-Link only with the override |
| Cli.DeclinedIff | src/main.rs:49-61 | the run stops at the prompt exactly when confirmation is asked, the answer was read, and it does not start with `y` or `Y` |
| Cli.ConfirmationBeforeProbes | src/main.rs:49-64 | declining, or failing to read the answer, is decided before the probe list is looked at, and does not depend on it |
| Cli.SkipIgnoresAnswer | src/main.rs:49 | with `--yes` the typed answer plays no part |

## Left out

- Register bit layouts, and the conversion of `CtrlAP`, `ERASEALL`, `ERASEALLSTATUS` and `RESET` to and from raw 32-bit words. These live in `src/custom_ap.rs`, which is not part of this model. Each register is reduced to the one boolean field `src/main.rs` sets or tests.
- The internals of probe-rs's `get_ap_by_idr`, `write_ap_register` and `read_ap_register`. They are assumed interfaces: the locator is modelled as "the first port whose IDR matches", and register accesses as oracle answers that can fail.
- The numeric IDR field widths and the wire codes of `APClass` and `APType`. The IDR is compared as a structured value. Only a few class and type variants are named.
- `Probe::list_all`, `Probe::open`, `select_protocol`, `attach_to_unspecified` and building the `ArmCommunicationInterface` (src/main.rs:64, 87-92). These are probe-rs I/O. The model only sees the probe list and the transport they produce. `PreHardware` ends where `Probe::open` would be called.
- Argument parsing with structopt, messages printed with `println!` and coloured output, `log::info!` (the diagnostic read's value is only logged), logger setup, and the 0 or 1 exit status. `Declined` stands for `process::exit(0)`, and an `Abort` or `Err` result stands for exit status 1.
- Real time. The clock is an injected function of whole seconds, assumed monotonic and assumed to reach 15 s. That assumption is what makes the poll loop finite. How long each read takes is not modelled.
- Cli.Lowercase: only ASCII letters are lower-cased. Rust's Unicode `to_lowercase` can map one character to several characters. No other character lower-cases to a string that starts with `y`, so `Confirmed` agrees with the source.
