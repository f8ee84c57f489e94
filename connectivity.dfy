/**
 * `check_internet_connectivity` and `ping_host`: one ping to each of three
 * public DNS servers in turn, stopping at the first that answers.
 */
module Connectivity {
  import opened Wrappers
  import opened Process

  /** Google, Cloudflare and OpenDNS resolvers, in the order they are tried. */
  const TestHosts: seq<string> := ["8.8.8.8", "1.1.1.1", "208.67.222.222"]

  /** One echo request with a three-second wait, in each platform's `ping` syntax. */
  function PingCommand(platform: Platform, host: string): Command {
    if platform == Windows then Program("ping", ["-n", "1", "-w", "3000", host])
    else Program("ping", ["-c", "1", "-W", "3", host])
  }

  /** `ping -n 1 -w 3000 <host>` on Windows, `ping -c 1 -W 3 <host>` elsewhere. */
  lemma PingCommandLine(platform: Platform, host: string)
    ensures platform == Windows ==> Argv(PingCommand(platform, host)) == ["ping", "-n", "1", "-w", "3000", host]
    ensures platform != Windows ==> Argv(PingCommand(platform, host)) == ["ping", "-c", "1", "-W", "3", host]
  {
    if platform == Windows {
      assert Argv(PingCommand(platform, host)) == ["ping"] + ["-n", "1", "-w", "3000", host];
    } else {
      assert Argv(PingCommand(platform, host)) == ["ping"] + ["-c", "1", "-W", "3", host];
    }
  }

  /** `ping_host`: the host answered when ping exited successfully; a spawn error counts as no answer. */
  function PingHost(platform: Platform, run: Command -> CmdOutcome, host: string): (answered: bool)
    ensures run(PingCommand(platform, host)).SpawnError? ==> !answered
    ensures run(PingCommand(platform, host)).Exited? ==> (answered <==> run(PingCommand(platform, host)).success)
  {
    Succeeded(run(PingCommand(platform, host)))
  }

  /** The position of the first host that answers, or `|hosts|` when none does. */
  function FirstAnswering(platform: Platform, run: Command -> CmdOutcome, hosts: seq<string>): (i: nat)
    ensures i <= |hosts|
    ensures i < |hosts| ==> PingHost(platform, run, hosts[i])
    ensures forall k :: 0 <= k < i ==> !PingHost(platform, run, hosts[k])
  {
    if hosts == [] then 0
    else if PingHost(platform, run, hosts[0]) then 0
    else 1 + FirstAnswering(platform, run, hosts[1..])
  }

  /**
   * `check_internet_connectivity`: `Ok(true)` exactly when some test host
   * answers, never an error.  `spawned` lists the pings it ran: the hosts in
   * order, up to and including the first that answered.
   */
  method CheckInternetConnectivity(platform: Platform, run: Command -> CmdOutcome) returns (r: Result<bool, string>, spawned: seq<Command>)
    ensures r.Ok?
    ensures r.value <==> exists k :: 0 <= k < |TestHosts| && PingHost(platform, run, TestHosts[k])
    ensures var n := FirstAnswering(platform, run, TestHosts);
      |spawned| == (if n < |TestHosts| then n + 1 else |TestHosts|)
      && forall k :: 0 <= k < |spawned| ==> spawned[k] == PingCommand(platform, TestHosts[k])
  {
    spawned := [];
    for i := 0 to |TestHosts|
      invariant |spawned| == i
      invariant forall k :: 0 <= k < i ==> spawned[k] == PingCommand(platform, TestHosts[k])
      invariant forall k :: 0 <= k < i ==> !PingHost(platform, run, TestHosts[k])
    {
      var host := TestHosts[i];
      spawned := spawned + [PingCommand(platform, host)];
      if PingHost(platform, run, host) {
        assert FirstAnswering(platform, run, TestHosts) == i;
        return Ok(true), spawned;
      }
    }
    assert FirstAnswering(platform, run, TestHosts) == |TestHosts|;
    return Ok(false), spawned;
  }
}
