/**
 * Spawning child processes (std::process::Command) as values.  A command is
 * either a PowerShell query or a program with its arguments; `output()` either
 * fails to spawn or gives the exit status and the captured standard output.
 * The environment that answers a command is a function, so every operation
 * that spawns processes is deterministic in the answers it gets.
 */
module Process {

  /** The build target: several commands differ between Windows and other systems. */
  datatype Platform = Windows | OtherOs

  /** The PowerShell command texts the back end runs, by purpose. */
  datatype Query =
    | BiosSerial
    | ProductIdentifyingNumber
    | EnclosureSerial
    | CimBiosSerial
    | WmicBiosSerial
    | WindowsLicenseStatus
    | AnyLicenseStatus
    | ComputerName

  /** The text handed to `powershell -Command` for each query. */
  function QueryText(q: Query): string {
    match q
    case BiosSerial => "Get-WmiObject -Class Win32_BIOS | Select-Object -ExpandProperty SerialNumber"
    case ProductIdentifyingNumber => "Get-WmiObject -Class Win32_ComputerSystemProduct | Select-Object -ExpandProperty IdentifyingNumber"
    case EnclosureSerial => "Get-WmiObject -Class Win32_SystemEnclosure | Select-Object -ExpandProperty SerialNumber"
    case CimBiosSerial => "(Get-CimInstance -ClassName Win32_BIOS).SerialNumber"
    case WmicBiosSerial => "wmic bios get serialnumber /value"
    case WindowsLicenseStatus =>
      "Get-WmiObject -Class SoftwareLicensingProduct | Where-Object {$_.PartialProductKey -and $_.Name -like '*Windows*'} | Select-Object -ExpandProperty LicenseStatus"
    case AnyLicenseStatus =>
      "Get-WmiObject -Class SoftwareLicensingProduct | Where-Object {$_.PartialProductKey} | Select-Object -ExpandProperty LicenseStatus"
    case ComputerName => "$env:COMPUTERNAME"
  }

  /** One child process: `powershell -Command <query>`, or `program args...`. */
  datatype Command =
    | PowerShell(query: Query)
    | Program(name: string, args: seq<string>)

  /** The command line the process is started with. */
  function Argv(c: Command): (argv: seq<string>)
    ensures argv != []
  {
    match c
    case PowerShell(q) => ["powershell", "-Command", QueryText(q)]
    case Program(name, args) => [name] + args
  }

  /** What `Command::output()` returns: an I/O error, or the exit status and stdout. */
  datatype CmdOutcome =
    | SpawnError(reason: string)
    | Exited(success: bool, stdout: string)

  /** Does the outcome stand for a process that ran and exited with a success status? */
  predicate Succeeded(o: CmdOutcome) {
    o.Exited? && o.success
  }
}
