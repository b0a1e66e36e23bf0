/** The decisions `main_try` (src/main.rs) takes before touching any hardware:
    the `[y/N]` confirmation, the choice of a debug probe from the list of
    attached ones, and the refusal of an ST-Link without the `--st-link`
    override. Console input and the probe list are parameters. */
module Cli {
  import opened Wrappers

  /** The command-line options `--yes`, `--probe-index <N>` and `--st-link`. */
  datatype Options = Options(skipConfirmation: bool, probeIndex: Option<nat>, stLink: bool)

  /** Of probe-rs's `DebugProbeType` only the ST-Link is singled out. */
  datatype ProbeType = STLink | OtherProbe(name: string)

  /** The part of probe-rs's `DebugProbeInfo` the program looks at. */
  datatype ProbeInfo = ProbeInfo(identifier: string, probeType: ProbeType)

  datatype CliError =
    | ConsoleFailed           // flushing stdout or reading stdin failed
    | ProbeNotFound(index: nat)
    | SeveralProbes
    | NoProbe
    | StLinkRefused

  /** How the run continues after the pre-hardware checks: the user said no
      (exit status 0 with nothing done), an error, or the probe to open. */
  datatype Plan = Declined | Abort(error: CliError) | Open(probe: ProbeInfo)

  /** Lower-casing of one character; only ASCII letters change. */
  function LowerChar(c: char): char {
    if 'A' <= c <= 'Z' then (c as int - 'A' as int + 'a' as int) as char else c
  }

  /** `to_lowercase`, character by character. */
  function Lowercase(s: string): (r: string)
    ensures |r| == |s|
    ensures forall i :: 0 <= i < |s| ==> r[i] == LowerChar(s[i])
  {
    if s == [] then [] else [LowerChar(s[0])] + Lowercase(s[1..])
  }

  /** `chars().next()`. */
  function FirstChar(s: string): Option<char> {
    if s == [] then None else Some(s[0])
  }

  /** The answer to "Do you want to continue [y/N]" lets the run go on exactly
      when it starts with `y` or `Y`; an empty answer means no. */
  function Confirmed(answer: string): (yes: bool)
    ensures yes <==> |answer| > 0 && (answer[0] == 'y' || answer[0] == 'Y')
  {
    match FirstChar(Lowercase(answer))
    case Some(c) => c == 'y'
    case None => false
  }

  /** `list.get(index)`. */
  function Get(list: seq<ProbeInfo>, index: nat): Option<ProbeInfo> {
    if index < |list| then Some(list[index]) else None
  }

  /** The `match opt.probe_index` that picks the probe to use. */
  function SelectProbe(list: seq<ProbeInfo>, index: Option<nat>): (r: Result<ProbeInfo, CliError>)
    ensures index.Some? ==>
      (r.Ok? <==> index.value < |list|) &&
      (r.Ok? ==> r.value == list[index.value]) &&
      (r.Err? ==> r.error == ProbeNotFound(index.value))
    ensures index.None? ==>
      (r.Ok? <==> |list| == 1) &&
      (r.Ok? ==> r.value == list[0]) &&
      (|list| > 1 ==> r == Err(SeveralProbes)) &&
      (|list| == 0 ==> r == Err(NoProbe))
  {
    match index
    case Some(i) =>
      (match Get(list, i)
       case Some(d) => Ok(d)
       case None => Err(ProbeNotFound(i)))
    case None =>
      if |list| > 1 then Err(SeveralProbes)
      else match First(list)
        case Some(d) => Ok(d)
        case None => Err(NoProbe)
  }

  /** `list.first()`. */
  function First(list: seq<ProbeInfo>): Option<ProbeInfo> {
    if list == [] then None else Some(list[0])
  }

  /** The ST-Link check: an ST-Link passes only with the override; any other
      probe passes unchanged. */
  function CheckProbeType(device: ProbeInfo, stLink: bool): (r: Result<ProbeInfo, CliError>)
    ensures r.Ok? <==> device.probeType != STLink || stLink
    ensures r.Ok? ==> r.value == device
    ensures r.Err? ==> r.error == StLinkRefused
  {
    if device.probeType == STLink && !stLink then Err(StLinkRefused) else Ok(device)
  }

  /** `main_try` up to `Probe::open`. The answer is read only when the
      confirmation is not skipped; None stands for a console I/O error. The
      probe list is enumerated only after the user agreed. */
  function PreHardware(opt: Options, answer: Option<string>, probes: seq<ProbeInfo>): (p: Plan)
    ensures p.Open? ==> p.probe in probes && (p.probe.probeType == STLink ==> opt.stLink)
    ensures var go := opt.skipConfirmation || (answer.Some? && Confirmed(answer.value));
      var sel := SelectProbe(probes, opt.probeIndex);
      && (go && sel.Err? ==> p == Abort(sel.error))
      && (go && sel.Ok? ==>
            p == match CheckProbeType(sel.value, opt.stLink)
                 case Ok(d) => Open(d)
                 case Err(e) => Abort(e))
      && (p.Open? ==> go && sel.Ok? && p.probe == sel.value)
  {
    if !opt.skipConfirmation && answer.None? then Abort(ConsoleFailed)
    else if !opt.skipConfirmation && !Confirmed(answer.value) then Declined
    else match SelectProbe(probes, opt.probeIndex)
      case Err(e) => Abort(e)
      case Ok(device) =>
        match CheckProbeType(device, opt.stLink)
        case Err(e) => Abort(e)
        case Ok(d) => Open(d)
  }

  /** The run is declined exactly when the confirmation is asked for, the
      answer could be read, and it does not start with `y` or `Y`. */
  lemma DeclinedIff(opt: Options, answer: Option<string>, probes: seq<ProbeInfo>)
    ensures PreHardware(opt, answer, probes) == Declined <==>
      !opt.skipConfirmation && answer.Some? && !Confirmed(answer.value)
  {
  }

  /** Declining, or failing to read the answer, is decided before the probe
      list is looked at: the list makes no difference to it. */
  lemma ConfirmationBeforeProbes(opt: Options, answer: Option<string>, probes: seq<ProbeInfo>, others: seq<ProbeInfo>)
    requires !opt.skipConfirmation && (answer.None? || !Confirmed(answer.value))
    ensures PreHardware(opt, answer, probes) == PreHardware(opt, answer, others)
    ensures PreHardware(opt, answer, probes) == if answer.None? then Abort(ConsoleFailed) else Declined
  {
  }

  /** With `--yes` the answer is never consulted. */
  lemma SkipIgnoresAnswer(opt: Options, answer: Option<string>, other: Option<string>, probes: seq<ProbeInfo>)
    requires opt.skipConfirmation
    ensures PreHardware(opt, answer, probes) == PreHardware(opt, other, probes)
  {
  }
}
