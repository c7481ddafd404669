/** `get_args` and `main`: classify the `--mac` argument (default `''`),
    replace it with a generated address only when it is non-empty and
    invalid, then consult the privilege gate and, if it lets the run
    proceed, reconfigure the interface. Typed answers, random draws, the
    environment and the query statuses are inputs. */
module MacChanger {
  import HexText
  import MacFormat
  import RandomMac
  import Privilege
  import Reconfigure

  /** Severity of the message `get_args` logs about the argument. */
  datatype Level = Debug | Warning

  /** How lines 44 to 49 treat the argument. */
  datatype MacArgument = Absent | Valid | Invalid

  /** Empty is never invalid; a non-empty argument is valid exactly when it
      is six hex pairs joined by one allowed separator (plus at most the one
      trailing newline `$` skips). */
  function ClassifyMacArgument(arg: string): (c: MacArgument)
    ensures c == Absent <==> arg == ""
    ensures c == Valid <==> arg != "" && MacFormat.InPatternLanguage(arg)
    ensures c == Invalid <==> arg != "" && !MacFormat.InPatternLanguage(arg)
  {
    MacFormat.MatchesMacPatternIsLanguage(arg);
    if arg == "" then Absent
    else if MacFormat.MatchesMacPattern(arg) then Valid
    else Invalid
  }

  /** The parsed arguments `main` uses. */
  datatype Args = Args(iface: string, newmac: string)

  /** What `get_args` ends in: the arguments together with the severity it
      logged, the `sys.exit` of a declined prompt, or end of input. */
  datatype ArgsResult = Ready(args: Args, level: Level) | Aborted | NoInput

  function GetArgs(iface: string, macArg: string, answers: seq<string>, d: RandomMac.Draws): (r: ArgsResult)
    requires d.InRange()
    ensures ClassifyMacArgument(macArg) != Invalid ==> r == Ready(Args(iface, macArg), Debug)
    ensures ClassifyMacArgument(macArg) == Invalid ==> r.Ready? ==>
      r == Ready(Args(iface, RandomMac.GenerateMac(d)), Warning)
    ensures r.Ready? ==> r.args.newmac == "" || MacFormat.MatchesMacPattern(r.args.newmac)
  {
    match ClassifyMacArgument(macArg)
    case Invalid =>
      (match RandomMac.GenerateRandomMac(answers, d)
       case Generated(mac) => Ready(Args(iface, mac), Warning)
       case UserAborted => Aborted
       case InputExhausted => NoInput)
    case _ => Ready(Args(iface, macArg), Debug)
  }

  /** Only a non-empty invalid argument reaches the prompt, and then the
      first decisive answer decides: `y` yields the generated address, `n`
      aborts. */
  lemma GetArgsPrompt(iface: string, macArg: string, answers: seq<string>, d: RandomMac.Draws)
    requires d.InRange()
    ensures !GetArgs(iface, macArg, answers, d).Ready? ==> ClassifyMacArgument(macArg) == Invalid
    ensures ClassifyMacArgument(macArg) == Invalid ==>
      (GetArgs(iface, macArg, answers, d).Ready? <==>
        exists i :: 0 <= i < |answers| && RandomMac.IsYes(answers[i]) && RandomMac.NoneDecisiveBefore(answers, i))
    ensures ClassifyMacArgument(macArg) == Invalid ==>
      (GetArgs(iface, macArg, answers, d).Aborted? <==>
        exists i :: 0 <= i < |answers| && RandomMac.IsNo(answers[i]) && RandomMac.NoneDecisiveBefore(answers, i))
  {
  }

  /** How a run of `main` ends. `Attempted` means `change_mac` returned: its
      `subprocess.call` steps may still have failed. */
  datatype Outcome = Attempted | NotAuthorized | Declined | InputEnded | QueryRaised

  /** The outcome, the privilege probes run and the interface commands
      issued. */
  datatype RunResult = RunResult(outcome: Outcome, probes: seq<Privilege.Probe>, trace: seq<Reconfigure.Command>)

  /** The address `main` hands to `change_mac`: the argument itself when it
      is empty or valid, otherwise the generated one; either way it is empty
      or passes the validator. */
  function ResolvedMac(macArg: string, d: RandomMac.Draws): (mac: string)
    requires d.InRange()
    ensures ClassifyMacArgument(macArg) != Invalid ==> mac == macArg
    ensures mac == "" || MacFormat.MatchesMacPattern(mac)
  {
    if ClassifyMacArgument(macArg) == Invalid then RandomMac.GenerateMac(d) else macArg
  }

  /** `main`: a run touches the interface only with permission, always
      starting with the first query against the given interface; probes run
      only once `get_args` has returned; a completed run issued the five
      planned commands with the resolved address. Each outcome has exactly
      one cause: the `sys.exit` after `n`, end of input at the prompt, a
      refused gate, a failing `check_output` query, or a normal return. */
  function Main(iface: string, macArg: string, answers: seq<string>, d: RandomMac.Draws,
                env: Privilege.Env, q: Reconfigure.QueryStatuses): (r: RunResult)
    requires d.InRange()
    ensures r.trace != [] ==> Privilege.HasPermission(env) && r.trace[0] == Reconfigure.ShowConfig(iface)
    ensures r.probes != [] ==> GetArgs(iface, macArg, answers, d).Ready?
    ensures r.outcome == Attempted ==> r.trace == Reconfigure.PlannedTrace(iface, ResolvedMac(macArg, d))
    ensures r.outcome == NotAuthorized ==> !Privilege.HasPermission(env) && r.trace == []
    ensures r.outcome == Declined <==> GetArgs(iface, macArg, answers, d).Aborted?
    ensures r.outcome == InputEnded <==> GetArgs(iface, macArg, answers, d).NoInput?
    ensures r.outcome == Attempted <==>
      GetArgs(iface, macArg, answers, d).Ready? && Privilege.HasPermission(env) && q.first == 0 && q.last == 0
    ensures r.outcome == QueryRaised <==>
      GetArgs(iface, macArg, answers, d).Ready? && Privilege.HasPermission(env) && (q.first != 0 || q.last != 0)
  {
    match GetArgs(iface, macArg, answers, d)
    case Aborted => RunResult(Declined, [], [])
    case NoInput => RunResult(InputEnded, [], [])
    case Ready(args, _) =>
      var gate := Privilege.DoRootPermission(env);
      if !Privilege.Truthy(gate.value) then
        var change := Reconfigure.ChangeMac(args.iface, args.newmac, q);
        RunResult(if change.raised then QueryRaised else Attempted, gate.probes, change.trace)
      else
        RunResult(NotAuthorized, gate.probes, [])
  }

  /** No interface command is issued without permission: a command is issued
      exactly when `get_args` completed and the euid is 0, or `sudo -n true`
      or `sudo -v` exited 0. Without permission the run is refused. */
  lemma NoCommandWithoutPermission(iface: string, macArg: string, answers: seq<string>, d: RandomMac.Draws,
                                   env: Privilege.Env, q: Reconfigure.QueryStatuses)
    requires d.InRange()
    ensures Main(iface, macArg, answers, d, env, q).trace != [] <==>
      GetArgs(iface, macArg, answers, d).Ready? && Privilege.HasPermission(env)
    ensures GetArgs(iface, macArg, answers, d).Ready? && !Privilege.HasPermission(env) ==>
      Main(iface, macArg, answers, d, env, q).outcome == NotAuthorized
    ensures Main(iface, macArg, answers, d, env, q).outcome == NotAuthorized ==>
      !Privilege.HasPermission(env) && Main(iface, macArg, answers, d, env, q).trace == []
  {
    var g := GetArgs(iface, macArg, answers, d);
  }

  /** The prompt comes before the gate: a declined prompt or ended input
      runs no probe and issues no command. */
  lemma PromptPrecedesGate(iface: string, macArg: string, answers: seq<string>, d: RandomMac.Draws,
                           env: Privilege.Env, q: Reconfigure.QueryStatuses)
    requires d.InRange()
    ensures !GetArgs(iface, macArg, answers, d).Ready? ==>
      Main(iface, macArg, answers, d, env, q).probes == [] && Main(iface, macArg, answers, d, env, q).trace == []
    ensures GetArgs(iface, macArg, answers, d).Ready? ==>
      Main(iface, macArg, answers, d, env, q).probes == Privilege.DoRootPermission(env).probes
  {
  }

  /** With permission and a successful first query, the five planned commands
      run against the given interface with the resolved address verbatim:
      an empty argument is passed on empty and a valid one unnormalised. */
  lemma MainAppliesResolvedMac(iface: string, macArg: string, answers: seq<string>, d: RandomMac.Draws,
                               env: Privilege.Env, q: Reconfigure.QueryStatuses)
    requires d.InRange()
    ensures Main(iface, macArg, answers, d, env, q).trace != [] ==>
      Main(iface, macArg, answers, d, env, q).trace[0] == Reconfigure.ShowConfig(iface)
    ensures (Main(iface, macArg, answers, d, env, q).trace != [] && q.first == 0) ==>
      Main(iface, macArg, answers, d, env, q).trace == Reconfigure.PlannedTrace(iface, ResolvedMac(macArg, d))
    ensures (Main(iface, macArg, answers, d, env, q).trace != [] && q.first != 0) ==>
      Main(iface, macArg, answers, d, env, q).trace == [Reconfigure.ShowConfig(iface)] &&
      Main(iface, macArg, answers, d, env, q).outcome == QueryRaised
  {
  }

  /** A valid argument, e.g. `AA:BB:CC:DD:EE:FF`, is applied as typed with no
      prompt, as long as the gate and the first query pass. */
  lemma ValidArgumentScenario(answers: seq<string>, d: RandomMac.Draws, q: Reconfigure.QueryStatuses)
    requires d.InRange() && q.first == 0
    ensures Main("eth0", "AA:BB:CC:DD:EE:FF", answers, d, Privilege.Env(0, 1, 1), q).trace ==
      Reconfigure.PlannedTrace("eth0", "AA:BB:CC:DD:EE:FF")
  {
    var mac := "AA:BB:CC:DD:EE:FF";
    assert MacFormat.MacShape(mac) by {
      assert forall i :: 0 <= i < 17 ==> if i % 3 == 2 then mac[i] == mac[2] else HexText.IsHexDigit(mac[i]);
    }
    assert ClassifyMacArgument(mac) == Valid;
    assert GetArgs("eth0", mac, answers, d) == Ready(Args("eth0", mac), Debug);
  }

  /** An empty argument prompts for nothing: `hw ether` is issued with an
      empty address. */
  lemma EmptyArgumentScenario(answers: seq<string>, d: RandomMac.Draws, q: Reconfigure.QueryStatuses)
    requires d.InRange() && q.first == 0
    ensures Main("eth0", "", answers, d, Privilege.Env(1000, 0, 1), q).trace ==
      Reconfigure.PlannedTrace("eth0", "")
    ensures Main("eth0", "", answers, d, Privilege.Env(1000, 0, 1), q).probes == [Privilege.SudoCached]
  {
    MainAppliesResolvedMac("eth0", "", answers, d, Privilege.Env(1000, 0, 1), q);
    NoCommandWithoutPermission("eth0", "", answers, d, Privilege.Env(1000, 0, 1), q);
  }

  /** `get_args` on `not-a-mac`: a `y` yields the generated address with a
      warning, an `n` aborts. */
  lemma NotAMacPrompt(d: RandomMac.Draws)
    requires d.InRange()
    ensures GetArgs("eth0", "not-a-mac", ["y"], d) == Ready(Args("eth0", RandomMac.GenerateMac(d)), Warning)
    ensures GetArgs("eth0", "not-a-mac", ["n"], d) == Aborted
  {
    MacFormat.NonHexRejected("not-a-mac", 1);
    RandomMac.DecisiveAnswers("y");
    RandomMac.DecisiveAnswers("n");
    assert ClassifyMacArgument("not-a-mac") == Invalid;
    assert RandomMac.AskConsent(["y"]) == RandomMac.Decided(0, true);
    assert RandomMac.AskConsent(["n"]) == RandomMac.Decided(0, false);
  }

  /** `not-a-mac` is replaced after a `y`: the address set starts with one of
      the four vendor prefixes; after an `n` nothing is probed or issued. */
  lemma InvalidArgumentScenario(d: RandomMac.Draws, env: Privilege.Env, q: Reconfigure.QueryStatuses)
    requires d.InRange() && q.first == 0 && Privilege.HasPermission(env)
    ensures GetArgs("eth0", "not-a-mac", ["y"], d).Ready? && GetArgs("eth0", "not-a-mac", ["y"], d).level == Warning
    ensures |Main("eth0", "not-a-mac", ["y"], d, env, q).trace| == 5
    ensures Main("eth0", "not-a-mac", ["y"], d, env, q).trace[2].mac[..8] in RandomMac.KnownPrefixes
    ensures Main("eth0", "not-a-mac", ["n"], d, env, q) == RunResult(Declined, [], [])
  {
    NotAMacPrompt(d);
    var mac := RandomMac.GenerateMac(d);
    assert Main("eth0", "not-a-mac", ["y"], d, env, q).trace == Reconfigure.PlannedTrace("eth0", mac);
  }

  /** Without root and with both `sudo` probes failing, the run is refused
      and the interface is never touched. */
  lemma NoPermissionScenario(macArg: string, answers: seq<string>, d: RandomMac.Draws, q: Reconfigure.QueryStatuses)
    requires d.InRange() && GetArgs("eth0", macArg, answers, d).Ready?
    ensures Main("eth0", macArg, answers, d, Privilege.Env(1000, 1, 1), q) ==
      RunResult(NotAuthorized, [Privilege.SudoCached, Privilege.SudoValidate], [])
  {
  }
}
