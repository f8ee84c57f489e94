/**
 * `get_hostname`: the `hostname` command first, PowerShell's
 * `$env:COMPUTERNAME` second.  A spawn failure of either is returned as the
 * error at once, without trying anything further.
 */
module Hostname {
  import opened Wrappers
  import opened Process
  import opened Text

  const HostnameCommand := Program("hostname", [])

  const ComputerNameCommand := PowerShell(ComputerName)

  const NoHostnameError := "No se pudo obtener hostname por ningún método"

  /** The host name a command gives: its trimmed stdout, if it exited successfully and that is not empty. */
  function HostnameIn(o: CmdOutcome): (h: Option<string>)
    ensures h.Some? <==> Succeeded(o) && Trim(o.stdout) != ""
    ensures h.Some? ==> h.value == Trim(o.stdout) && h.value != [] && IsTrimmed(h.value)
  {
    if Succeeded(o) && Trim(o.stdout) != "" then Some(Trim(o.stdout)) else None
  }

  /**
   * `get_hostname`.  `spawned` lists the processes it started: the second
   * command runs only when the first was spawned and gave no host name.
   */
  method GetHostname(run: Command -> CmdOutcome) returns (r: Result<string, string>, spawned: seq<Command>)
    ensures r.Ok? ==> r.value != [] && IsTrimmed(r.value)
    ensures run(HostnameCommand).SpawnError? ==>
      spawned == [HostnameCommand] && r == Err(run(HostnameCommand).reason)
    ensures HostnameIn(run(HostnameCommand)).Some? ==>
      spawned == [HostnameCommand] && r == Ok(HostnameIn(run(HostnameCommand)).value)
    ensures run(HostnameCommand).Exited? && HostnameIn(run(HostnameCommand)).None? ==>
      && spawned == [HostnameCommand, ComputerNameCommand]
      && (run(ComputerNameCommand).SpawnError? ==> r == Err(run(ComputerNameCommand).reason))
      && (HostnameIn(run(ComputerNameCommand)).Some? ==> r == Ok(HostnameIn(run(ComputerNameCommand)).value))
      && (run(ComputerNameCommand).Exited? && HostnameIn(run(ComputerNameCommand)).None? ==> r == Err(NoHostnameError))
  {
    spawned := [HostnameCommand];
    var output := run(HostnameCommand);
    if output.SpawnError? {
      return Err(output.reason), spawned;
    }
    var hostname := HostnameIn(output);
    if hostname.Some? {
      return Ok(hostname.value), spawned;
    }

    spawned := spawned + [ComputerNameCommand];
    output := run(ComputerNameCommand);
    if output.SpawnError? {
      return Err(output.reason), spawned;
    }
    hostname := HostnameIn(output);
    if hostname.Some? {
      return Ok(hostname.value), spawned;
    }

    return Err(NoHostnameError), spawned;
  }
}
