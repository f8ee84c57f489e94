/**
 * `get_activation_status`: one PowerShell query for the Windows licence
 * record's LicenseStatus digit, mapped to its name.
 */
module Activation {
  import opened Wrappers
  import opened Process
  import opened Text

  /** The names of LicenseStatus values 0 to 6, indexed by the value. */
  const LicenseStatusNames: seq<string> :=
    ["Unlicensed", "Licensed", "OOBGrace", "OOTGrace", "NonGenuineGrace", "Notification", "ExtendedGrace"]

  /** The status reported for any other output, and when the query fails. */
  const UnknownStatus := "Unknown"

  /** The query; only the Windows build restricts it to licence records of Windows itself. */
  function ActivationCommand(platform: Platform): Command {
    if platform == Windows then
      PowerShell(WindowsLicenseStatus)
    else
      PowerShell(AnyLicenseStatus)
  }

  /** Both builds run `powershell -Command <query>`. */
  lemma ActivationCommandLine(platform: Platform)
    ensures Argv(ActivationCommand(platform)) ==
      ["powershell", "-Command", QueryText(if platform == Windows then WindowsLicenseStatus else AnyLicenseStatus)]
  {
  }

  /**
   * The name of a LicenseStatus code: a single digit `d` from 0 to 6 names
   * entry `d` of the table; every other text is "Unknown".
   */
  function StatusName(code: string): (name: string)
    ensures |code| == 1 && '0' <= code[0] <= '6' ==> name == LicenseStatusNames[code[0] as int - '0' as int]
    ensures !(|code| == 1 && '0' <= code[0] <= '6') ==> name == UnknownStatus
  {
    match code
    case "0" => "Unlicensed"
    case "1" => "Licensed"
    case "2" => "OOBGrace"
    case "3" => "OOTGrace"
    case "4" => "NonGenuineGrace"
    case "5" => "Notification"
    case "6" => "ExtendedGrace"
    case _ =>
      assert |code| == 1 ==> code == [code[0]];
      "Unknown"
  }

  /** Every status the back end can report. */
  predicate IsKnownStatus(s: string) {
    s in LicenseStatusNames || s == UnknownStatus
  }

  /** The names are distinct, so a reported name determines the code it came from. */
  lemma StatusNameInjective(c1: string, c2: string)
    requires StatusName(c1) == StatusName(c2) != UnknownStatus
    ensures c1 == c2
  {
    assert |c1| == 1 && |c2| == 1;
    assert c1 == [c1[0]] && c2 == [c2[0]];
  }

  /** "Licensed" is reported for the code "1" and for no other text. */
  lemma LicensedExactlyForOne(code: string)
    ensures StatusName(code) == "Licensed" <==> code == "1"
  {
    if StatusName(code) == "Licensed" {
      StatusNameInjective(code, "1");
    }
  }

  /**
   * `get_activation_status`: an error only when PowerShell cannot be spawned;
   * otherwise the name of the trimmed output's code, or "Unknown" when the
   * query exits with a failure status.
   */
  function ActivationStatus(platform: Platform, run: Command -> CmdOutcome): (r: Result<string, string>)
    ensures r.Err? <==> run(ActivationCommand(platform)).SpawnError?
    ensures r.Err? ==> r.error == run(ActivationCommand(platform)).reason
    ensures r.Ok? ==> IsKnownStatus(r.value)
    ensures Succeeded(run(ActivationCommand(platform))) ==>
      r == Ok(StatusName(Trim(run(ActivationCommand(platform)).stdout)))
    ensures run(ActivationCommand(platform)).Exited? && !run(ActivationCommand(platform)).success ==>
      r == Ok(UnknownStatus)
  {
    match run(ActivationCommand(platform))
    case SpawnError(reason) => Err(reason)
    case Exited(success, stdout) =>
      if success then Ok(StatusName(Trim(stdout))) else Ok(UnknownStatus)
  }

  /** The machine is reported "Licensed" exactly when the query exits successfully and prints "1", give or take white space. */
  lemma ActivationLicensedIff(platform: Platform, run: Command -> CmdOutcome)
    ensures ActivationStatus(platform, run) == Ok("Licensed") <==>
      Succeeded(run(ActivationCommand(platform))) && Trim(run(ActivationCommand(platform)).stdout) == "1"
  {
    var o := run(ActivationCommand(platform));
    if Succeeded(o) {
      LicensedExactlyForOne(Trim(o.stdout));
    }
  }
}
