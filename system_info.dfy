/**
 * The two records the front end asks for, `get_basic_system_info` and
 * `get_windows_specific_info`.  Each field falls back to a fixed text when
 * its probe fails, so both commands always succeed.
 */
module SystemInfo {
  import opened Wrappers
  import opened Process
  import opened Text
  import Serial
  import Activation
  import Hostname

  datatype BasicSystemInfo = BasicSystemInfo(os_name: string, os_version: string, hostname: string)

  datatype WindowsSpecificInfo = WindowsSpecificInfo(serial_number: string, activation_status: string)

  /** The text for a field whose probe gave nothing. */
  const UnknownField := "Unknown"

  /** The host name used when `get_hostname` fails. */
  const UnknownHostname := "Desconocido"

  /**
   * `get_basic_system_info`.  `osName` and `osVersion` are what the system
   * information library reports, `None` when it cannot tell.
   */
  method GetBasicSystemInfo(osName: Option<string>, osVersion: Option<string>, run: Command -> CmdOutcome)
    returns (r: Result<BasicSystemInfo, string>)
    ensures r.Ok?
    ensures r.value.os_name == osName.GetOr(UnknownField)
    ensures r.value.os_version == osVersion.GetOr(UnknownField)
    ensures r.value.hostname != [] && IsTrimmed(r.value.hostname)
    ensures var first := run(Hostname.HostnameCommand);
      && (first.SpawnError? ==> r.value.hostname == UnknownHostname)
      && (Hostname.HostnameIn(first).Some? ==> r.value.hostname == Hostname.HostnameIn(first).value)
      && (first.Exited? && Hostname.HostnameIn(first).None? ==>
            r.value.hostname == Hostname.HostnameIn(run(Hostname.ComputerNameCommand)).GetOr(UnknownHostname))
  {
    var name := osName.GetOr(UnknownField);
    var version := osVersion.GetOr(UnknownField);
    var found, _ := Hostname.GetHostname(run);
    var hostname := if found.Ok? then found.value else UnknownHostname;
    return Ok(BasicSystemInfo(name, version, hostname));
  }

  /**
   * `get_windows_specific_info`: the serial number chain and the activation
   * query, each falling back to "Unknown" on an error.  Since the chain itself
   * never fails, the serial is always an accepted one, and the status is
   * always one of the known names.
   */
  method GetWindowsSpecificInfo(platform: Platform, run: Command -> CmdOutcome)
    returns (r: Result<WindowsSpecificInfo, string>)
    ensures r.Ok?
    ensures r.value.serial_number == Serial.ChainSerial(Serial.Yields(platform, run))
    ensures Serial.IsAcceptedSerial(r.value.serial_number)
    ensures Activation.IsKnownStatus(r.value.activation_status)
    ensures r.value.activation_status ==
      match Activation.ActivationStatus(platform, run)
      case Ok(status) => status
      case Err(_) => UnknownField
  {
    var serialNumber, _ := Serial.GetSerialNumber(platform, run);
    var serial := match serialNumber
      case Ok(s) => s
      case Err(_) => UnknownField;
    assert Serial.IsAcceptedSerial(serial) by {
      Serial.ChainSerialAccepted(platform, run);
    }
    var status := Activation.ActivationStatus(platform, run);
    var activation := match status
      case Ok(name) => name
      case Err(_) => UnknownField;
    assert Activation.IsKnownStatus(activation) by {
      assert status.Ok? ==> Activation.IsKnownStatus(status.value);
    }
    return Ok(WindowsSpecificInfo(serial, activation));
  }
}
