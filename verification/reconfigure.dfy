/** `change_mac`: five shell commands against one interface, in a fixed
    order. The three `subprocess.call` steps ignore their exit status. The
    two `check_output` queries raise when their command exits non-zero, and
    that ends the sequence. */
module Reconfigure {

  /** The `sudo ifconfig ...` commands `change_mac` issues. */
  datatype Command =
    | ShowConfig(iface: string)
    | LinkDown(iface: string)
    | SetHwEther(iface: string, mac: string)
    | LinkUp(iface: string)

  /** The steps of the sequence; `Finished` follows the last query. */
  datatype Step = QueryFirst | Down | Apply | Up | QueryLast | Finished

  /** Position of a step in the sequence. */
  function Rank(s: Step): (r: nat) {
    match s
    case QueryFirst => 0
    case Down => 1
    case Apply => 2
    case Up => 3
    case QueryLast => 4
    case Finished => 5
  }

  function Next(s: Step): (t: Step)
    requires s != Finished
  {
    match s
    case QueryFirst => Down
    case Down => Apply
    case Apply => Up
    case Up => QueryLast
    case QueryLast => Finished
  }

  /** The command of a step: it targets the interface, and only the
      `Apply` step sets an address, which is then `mac`. */
  function CommandAt(s: Step, iface: string, mac: string): (c: Command)
    requires s != Finished
    ensures c.iface == iface
    ensures c.SetHwEther? <==> s == Apply
    ensures c.SetHwEther? ==> c.mac == mac
  {
    match s
    case QueryFirst => ShowConfig(iface)
    case Down => LinkDown(iface)
    case Apply => SetHwEther(iface, mac)
    case Up => LinkUp(iface)
    case QueryLast => ShowConfig(iface)
  }

  /** Exit statuses of the two `check_output` queries. */
  datatype QueryStatuses = QueryStatuses(first: int, last: int)

  /** The commands issued and whether a query raised. */
  datatype ChangeRun = ChangeRun(trace: seq<Command>, raised: bool)

  /** Runs the sequence from step `s` on. At most the remaining steps issue
      a command, each against the interface; an address set is `mac`; a run
      that raised ended on a query. */
  function RunFrom(s: Step, iface: string, mac: string, q: QueryStatuses): (r: ChangeRun)
    ensures |r.trace| <= 5 - Rank(s)
    ensures s != Finished ==> r.trace != [] && r.trace[0] == CommandAt(s, iface, mac)
    ensures forall i :: 0 <= i < |r.trace| ==> r.trace[i].iface == iface
    ensures forall i :: 0 <= i < |r.trace| && r.trace[i].SetHwEther? ==> r.trace[i].mac == mac
    ensures r.raised ==> r.trace != [] && r.trace[|r.trace| - 1].ShowConfig?
    decreases 5 - Rank(s)
  {
    if s == Finished then ChangeRun([], false)
    else
      var cmd := CommandAt(s, iface, mac);
      var status := if s == QueryFirst then q.first else if s == QueryLast then q.last else 0;
      if cmd.ShowConfig? && status != 0 then ChangeRun([cmd], true)
      else
        var rest := RunFrom(Next(s), iface, mac, q);
        ChangeRun([cmd] + rest.trace, rest.raised)
  }

  /** The planned sequence: query, down, set the address, up, query. */
  function PlannedTrace(iface: string, mac: string): (t: seq<Command>) {
    [ShowConfig(iface), LinkDown(iface), SetHwEther(iface, mac), LinkUp(iface), ShowConfig(iface)]
  }

  /** From any step after the first query, the rest of the plan is issued in
      order; a query that fails raises only after it has been issued. */
  lemma {:induction false} RunFromFollowsPlan(s: Step, iface: string, mac: string, q: QueryStatuses)
    requires s != QueryFirst
    ensures RunFrom(s, iface, mac, q).trace == PlannedTrace(iface, mac)[Rank(s)..]
    ensures RunFrom(s, iface, mac, q).raised <==> s != Finished && q.last != 0
    decreases 5 - Rank(s)
  {
    if s != Finished {
      RunFromFollowsPlan(Next(s), iface, mac, q);
      assert PlannedTrace(iface, mac)[Rank(s)..] ==
        [CommandAt(s, iface, mac)] + PlannedTrace(iface, mac)[Rank(Next(s))..];
    }
  }

  /** `change_mac`: when the first query succeeds, exactly the five planned
      commands are issued, whatever the other steps return; when it fails,
      only that query is. A query failing is reported as raised. */
  function ChangeMac(iface: string, mac: string, q: QueryStatuses): (r: ChangeRun)
    ensures q.first == 0 ==> r.trace == PlannedTrace(iface, mac)
    ensures q.first != 0 ==> r.trace == [ShowConfig(iface)]
    ensures r.raised <==> q.first != 0 || q.last != 0
  {
    RunFromFollowsPlan(Down, iface, mac, q);
    RunFrom(QueryFirst, iface, mac, q)
  }
}
