/**
 * `get_serial_number`: five ways of asking Windows for the hardware serial
 * number, tried in a fixed order; the first that exits successfully with an
 * acceptable serial wins, and "Desconocido" stands in when none does.
 */
module Serial {
  import opened Wrappers
  import opened Process
  import opened Text

  /** The names of the methods; the back end only ever tests whether a name is "WMIC". */
  datatype MethodName = Win32Bios | Win32ComputerSystemProduct | Win32SystemEnclosure | Cim | Wmic

  /** The name as the method table spells it. */
  function NameText(n: MethodName): string {
    match n
    case Win32Bios => "Win32_BIOS"
    case Win32ComputerSystemProduct => "Win32_ComputerSystemProduct"
    case Win32SystemEnclosure => "Win32_SystemEnclosure"
    case Cim => "CIM"
    case Wmic => "WMIC"
  }

  /** Comparing the spelt name with "WMIC" picks out exactly the `Wmic` entry, so testing `n == Wmic` is that comparison. */
  lemma WmicNameTest(n: MethodName)
    ensures NameText(n) == "WMIC" <==> n == Wmic
  {
    match n
    case Win32Bios => assert |NameText(n)| != |"WMIC"|;
    case Win32ComputerSystemProduct => assert |NameText(n)| != |"WMIC"|;
    case Win32SystemEnclosure => assert |NameText(n)| != |"WMIC"|;
    case Cim => assert |NameText(n)| != |"WMIC"|;
    case Wmic =>
  }

  /** One entry of the method table: its name and its PowerShell query. */
  datatype SerialMethod = SerialMethod(name: MethodName, query: Query)

  /** The method table, in the order the methods are tried. */
  const SerialMethods: seq<SerialMethod> := [
    SerialMethod(Win32Bios, BiosSerial),
    SerialMethod(Win32ComputerSystemProduct, ProductIdentifyingNumber),
    SerialMethod(Win32SystemEnclosure, EnclosureSerial),
    SerialMethod(Cim, CimBiosSerial),
    SerialMethod(Wmic, WmicBiosSerial)
  ]

  /** The serial reported when no method gives an acceptable one. */
  const UnknownSerial := "Desconocido"

  /** The placeholder firmware vendors leave in unset serial fields, in lower case. */
  const OemPlaceholder := "to be filled by o.e.m."

  const SerialLinePrefix := "SerialNumber="

  /**
   * The process a method spawns: on Windows the WMIC method runs `wmic`
   * itself; every other method, and on other systems every method, runs its
   * command text through PowerShell.
   */
  function SerialCommand(m: SerialMethod, platform: Platform): Command {
    if platform == Windows && m.name == Wmic then Program("wmic", ["bios", "get", "serialnumber", "/value"])
    else PowerShell(m.query)
  }

  /**
   * The command lines: `wmic bios get serialnumber /value` for WMIC on
   * Windows, and `powershell -Command <query text>` otherwise.
   */
  lemma SerialCommandLine(m: SerialMethod, platform: Platform)
    ensures platform == Windows && m.name == Wmic ==>
      Argv(SerialCommand(m, platform)) == ["wmic", "bios", "get", "serialnumber", "/value"]
    ensures !(platform == Windows && m.name == Wmic) ==>
      Argv(SerialCommand(m, platform)) == ["powershell", "-Command", QueryText(m.query)]
  {
    if platform == Windows && m.name == Wmic {
      assert Argv(SerialCommand(m, platform)) == ["wmic"] + ["bios", "get", "serialnumber", "/value"];
    }
  }

  /** The index of the first line that starts with `p`, or `|lines|` when none does. */
  function FirstStartingWith(lines: seq<string>, p: string): (i: nat)
    ensures i <= |lines|
    ensures i < |lines| ==> StartsWith(lines[i], p)
    ensures forall j :: 0 <= j < i ==> !StartsWith(lines[j], p)
  {
    if lines == [] then 0
    else if StartsWith(lines[0], p) then 0
    else 1 + FirstStartingWith(lines[1..], p)
  }

  /**
   * The serial in `wmic ... /value` output: the first line starting with
   * `SerialNumber=`, its piece after the first `=`, trimmed; "" without such a line.
   */
  function WmicSerial(stdout: string): (serial: string)
    ensures IsTrimmed(serial)
  {
    SerialInLines(Lines(stdout))
  }

  /** The WMIC parse over the lines of the output; its meaning is stated by `SerialInLinesSpec`. */
  function SerialInLines(lines: seq<string>): (serial: string)
    ensures IsTrimmed(serial)
  {
    var i := FirstStartingWith(lines, SerialLinePrefix);
    var field := if i < |lines| then SplitNth(lines[i], '=', 1) else None;
    Trim(field.GetOr(""))
  }

  /** On a `SerialNumber=` line, the second `=`-piece is the text after the prefix up to the next `=`. */
  lemma SerialLineField(line: string)
    requires StartsWith(line, SerialLinePrefix)
    ensures SplitNth(line, '=', 1) == Some(UpTo(line[|SerialLinePrefix|..], '='))
  {
    assert line == "SerialNumber" + "=" + line[|SerialLinePrefix|..];
    SecondPieceAfter("SerialNumber", line[|SerialLinePrefix|..], '=');
  }

  /**
   * What `WmicSerial` finds in the lines of its output, stated without
   * `split`: the text between `SerialNumber=` and the next `=` (or the end of
   * that line) on the first line that starts with `SerialNumber=`, trimmed;
   * "" when no line does.
   */
  lemma SerialInLinesSpec(lines: seq<string>)
    ensures (forall j :: 0 <= j < |lines| ==> !StartsWith(lines[j], SerialLinePrefix)) ==> SerialInLines(lines) == ""
    ensures forall i :: (0 <= i < |lines| && StartsWith(lines[i], SerialLinePrefix)
        && (forall j :: 0 <= j < i ==> !StartsWith(lines[j], SerialLinePrefix))
        ==> SerialInLines(lines) == Trim(UpTo(lines[i][|SerialLinePrefix|..], '=')))
  {
    var first := FirstStartingWith(lines, SerialLinePrefix);
    if first < |lines| {
      SerialLineField(lines[first]);
      forall i | 0 <= i < |lines| && StartsWith(lines[i], SerialLinePrefix)
          && (forall j :: 0 <= j < i ==> !StartsWith(lines[j], SerialLinePrefix))
        ensures i == first
      {
        if i < first {
          assert false;
        } else if i > first {
          assert false;
        }
      }
    } else {
      assert Trim("") == "";
    }
  }

  /** A `wmic` listing with a `SerialNumber=<v>` line gives back `v`, trimmed. */
  lemma WmicSerialOfListing(before: seq<string>, v: string, after: seq<string>)
    requires forall k :: 0 <= k < |before| ==> '\n' !in before[k] && !StartsWith(before[k], SerialLinePrefix)
    requires forall k :: 0 <= k < |after| ==> '\n' !in after[k]
    requires '\n' !in v && '=' !in v
    ensures WmicSerial(JoinCrlf(before + [SerialLinePrefix + v] + after)) == Trim(v)
  {
    var lines := before + [SerialLinePrefix + v] + after;
    ListingHasNoNewline(before, v, after);
    LinesOfJoinCrlf(lines);
    SerialInListing(before, v, after);
  }

  /**
   * `wmic bios get serialnumber /value` ends its lines with `\r\r\n`; the
   * stray `\r` stays on each line and the trim removes it from the serial.
   */
  lemma WmicListingExample()
    ensures WmicSerial(JoinCrlf(["\r", "\r", "SerialNumber=ABCD1234\r", "\r", "\r"])) == "ABCD1234"
  {
    ExampleListingLines();
    WmicSerialOfListing(["\r", "\r"], "ABCD1234\r", ["\r", "\r"]);
    ExampleSerialTrimmed();
  }

  lemma ExampleListingLines()
    ensures ["\r", "\r"] + [SerialLinePrefix + "ABCD1234\r"] + ["\r", "\r"] == ["\r", "\r", "SerialNumber=ABCD1234\r", "\r", "\r"]
  {
    assert SerialLinePrefix + "ABCD1234\r" == "SerialNumber=ABCD1234\r";
  }

  lemma ExampleSerialTrimmed()
    ensures Trim("ABCD1234\r") == "ABCD1234"
  {
    ExampleTrimStart();
    ExampleTrimEnd();
  }

  lemma ExampleTrimStart()
    ensures TrimStart("ABCD1234\r") == "ABCD1234\r"
  {
    assert "ABCD1234\r"[0] == 'A';
  }

  lemma ExampleTrimEnd()
    ensures TrimEnd("ABCD1234\r") == "ABCD1234"
  {
    var v := "ABCD1234\r";
    assert v[|v| - 1] == '\r' && v[..|v| - 1] == "ABCD1234";
    assert "ABCD1234"[7] == '4';
  }

  lemma ListingHasNoNewline(before: seq<string>, v: string, after: seq<string>)
    requires forall k :: 0 <= k < |before| ==> '\n' !in before[k]
    requires forall k :: 0 <= k < |after| ==> '\n' !in after[k]
    requires '\n' !in v
    ensures var lines := before + [SerialLinePrefix + v] + after;
      forall k :: 0 <= k < |lines| ==> '\n' !in lines[k]
  {
    var line := SerialLinePrefix + v;
    assert '\n' !in line by {
      assert line == SerialLinePrefix + v;
    }
    ListingElements(before, line, after);
  }

  lemma SerialInListing(before: seq<string>, v: string, after: seq<string>)
    requires forall k :: 0 <= k < |before| ==> !StartsWith(before[k], SerialLinePrefix)
    requires '=' !in v
    ensures SerialInLines(before + [SerialLinePrefix + v] + after) == Trim(v)
  {
    var line := SerialLinePrefix + v;
    var lines := before + [line] + after;
    assert StartsWith(line, SerialLinePrefix) && line[|SerialLinePrefix|..] == v;
    ListingElements(before, line, after);
    SerialInLinesSpec(lines);
    assert UpTo(v, '=') == v;
  }

  lemma ListingElements(before: seq<string>, line: string, after: seq<string>)
    ensures var lines := before + [line] + after;
      |lines| == |before| + 1 + |after| && lines[|before|] == line
      && (forall k :: 0 <= k < |before| ==> lines[k] == before[k])
      && (forall k :: 0 <= k < |after| ==> lines[|before| + 1 + k] == after[k])
  {
  }

  /** The serial a method reads from its stdout: WMIC parses its listing, the others trim. */
  function ProcessedSerial(m: SerialMethod, stdout: string): (serial: string)
    ensures IsTrimmed(serial)
  {
    if m.name == Wmic then WmicSerial(stdout) else Trim(stdout)
  }

  /** A serial is accepted unless empty, "0", or the OEM placeholder in any letter case. */
  predicate IsAcceptedSerial(s: string) {
    s != "" && s != "0" && ToLowerAscii(s) != OemPlaceholder
  }

  /** `s` is `t` with some of `t`'s lower-case ASCII letters written in upper case. */
  predicate IsCaseVariant(s: string, t: string) {
    |s| == |t| && forall k :: 0 <= k < |s| ==> s[k] == t[k] || ('a' <= t[k] <= 'z' && s[k] as int == t[k] as int - 32)
  }

  /** The filter, with the placeholder test spelt out: anything but "", "0" and case variants of the placeholder. */
  lemma AcceptedSerialSpelled(s: string)
    ensures IsAcceptedSerial(s) <==> s != "" && s != "0" && !IsCaseVariant(s, OemPlaceholder)
  {
    RejectedPlaceholderSpellings(s);
  }

  lemma LowerAsciiIs(c: char, d: char)
    requires !('A' <= d <= 'Z')
    ensures LowerAscii(c) == d <==> c == d || ('a' <= d <= 'z' && c as int == d as int - 32)
  {
  }

  /** Lower-casing gives the placeholder exactly for its case variants, so those are the rejected spellings. */
  lemma {:induction false} RejectedPlaceholderSpellings(s: string)
    ensures ToLowerAscii(s) == OemPlaceholder <==> IsCaseVariant(s, OemPlaceholder)
  {
    if |s| == |OemPlaceholder| {
      ToLowerAsciiAt(s);
      forall k | 0 <= k < |s|
        ensures ToLowerAscii(s)[k] == OemPlaceholder[k] <==>
          (s[k] == OemPlaceholder[k] || ('a' <= OemPlaceholder[k] <= 'z' && s[k] as int == OemPlaceholder[k] as int - 32))
      {
        LowerAsciiIs(s[k], OemPlaceholder[k]);
      }
    }
  }

  /** The serial method `m` yields when its process returned `o`, if it is acceptable. */
  function SerialOf(m: SerialMethod, o: CmdOutcome): (r: Option<string>)
    ensures r.Some? <==> Succeeded(o) && IsAcceptedSerial(ProcessedSerial(m, o.stdout))
    ensures r.Some? ==> r.value == ProcessedSerial(m, o.stdout) && IsAcceptedSerial(r.value)
  {
    match o
    case SpawnError(_) => None
    case Exited(success, stdout) =>
      if !success then None
      else
        var serial := ProcessedSerial(m, stdout);
        if IsAcceptedSerial(serial) then Some(serial) else None
  }

  /** What each method of the table yields in environment `run`, in table order. */
  function Yields(platform: Platform, run: Command -> CmdOutcome): (ys: seq<Option<string>>)
    ensures |ys| == |SerialMethods|
  {
    seq(|SerialMethods|, i requires 0 <= i < |SerialMethods| =>
      SerialOf(SerialMethods[i], run(SerialCommand(SerialMethods[i], platform))))
  }

  /** The processes of the table's methods, in table order. */
  function SerialCommands(platform: Platform): (cs: seq<Command>)
    ensures |cs| == |SerialMethods|
  {
    seq(|SerialMethods|, i requires 0 <= i < |SerialMethods| => SerialCommand(SerialMethods[i], platform))
  }

  /** The position of the first method that yields a serial, or `|ys|` when none does. */
  function FirstFound(ys: seq<Option<string>>): (i: nat)
    ensures i <= |ys|
    ensures i < |ys| ==> ys[i].Some?
    ensures forall k :: 0 <= k < i ==> ys[k].None?
  {
    if ys == [] then 0 else if ys[0].Some? then 0 else 1 + FirstFound(ys[1..])
  }

  /** The serial the chain settles on: that of the first method that yields one, else "Desconocido". */
  function ChainSerial(ys: seq<Option<string>>): string {
    var i := FirstFound(ys);
    if i < |ys| then ys[i].value else UnknownSerial
  }

  /** How many methods the chain runs: up to and including the first that yields a serial. */
  function ChainLength(ys: seq<Option<string>>): (n: nat)
    ensures n <= |ys|
  {
    var i := FirstFound(ys);
    if i < |ys| then i + 1 else |ys|
  }

  /** Whatever the environment, the serial the chain settles on is itself acceptable. */
  lemma ChainSerialAccepted(platform: Platform, run: Command -> CmdOutcome)
    ensures IsAcceptedSerial(ChainSerial(Yields(platform, run)))
  {
    var ys := Yields(platform, run);
    var i := FirstFound(ys);
    if i < |ys| {
      assert ys[i] == SerialOf(SerialMethods[i], run(SerialCommand(SerialMethods[i], platform)));
    } else {
      assert |ToLowerAscii(UnknownSerial)| != |OemPlaceholder|;
    }
  }

  /** Entry `i` of `Yields` and of `SerialCommands` belong to method `i` of the table. */
  lemma YieldsAt(platform: Platform, run: Command -> CmdOutcome, i: nat)
    requires i < |SerialMethods|
    ensures SerialCommands(platform)[i] == SerialCommand(SerialMethods[i], platform)
    ensures Yields(platform, run)[i] == SerialOf(SerialMethods[i], run(SerialCommands(platform)[i]))
  {
  }

  /** The chain stops at the first method that yields a serial, after running it. */
  lemma ChainStopsAt(ys: seq<Option<string>>, i: nat)
    requires i < |ys| && ys[i].Some?
    requires forall k :: 0 <= k < i ==> ys[k].None?
    ensures ChainSerial(ys) == ys[i].value && ChainLength(ys) == i + 1
  {
    var j := FirstFound(ys);
    if j < i {
      assert false;
    } else if j > i {
      assert false;
    }
  }

  /** When no method yields a serial, the chain runs them all and settles on "Desconocido". */
  lemma ChainRunsOut(ys: seq<Option<string>>)
    requires forall k :: 0 <= k < |ys| ==> ys[k].None?
    ensures ChainSerial(ys) == UnknownSerial && ChainLength(ys) == |ys|
  {
    if FirstFound(ys) < |ys| {
      assert false;
    }
  }

  /**
   * One pass of the chain's loop body: spawn method `i`'s process and read
   * what it yields.
   */
  method TryMethod(platform: Platform, run: Command -> CmdOutcome, i: nat) returns (command: Command, found: Option<string>)
    requires i < |SerialMethods|
    ensures command == SerialCommands(platform)[i]
    ensures found == Yields(platform, run)[i]
    ensures found.Some? ==> IsAcceptedSerial(found.value)
  {
    var m := SerialMethods[i];
    command := SerialCommand(m, platform);
    var output := run(command);
    found := SerialOf(m, output);
    YieldsAt(platform, run, i);
  }

  /**
   * `get_serial_number`: tries the methods in table order, spawning each one's
   * process, and returns the serial of the first that yields an acceptable
   * one, without running the rest; it never fails.  `spawned` lists the
   * processes it started.
   */
  method GetSerialNumber(platform: Platform, run: Command -> CmdOutcome) returns (r: Result<string, string>, spawned: seq<Command>)
    ensures r == Ok(ChainSerial(Yields(platform, run)))
    ensures spawned == SerialCommands(platform)[..ChainLength(Yields(platform, run))]
  {
    ghost var ys := Yields(platform, run);
    ghost var cs := SerialCommands(platform);
    spawned := [];
    for i := 0 to |SerialMethods|
      invariant spawned == cs[..i]
      invariant forall k :: 0 <= k < i ==> ys[k].None?
    {
      var command, found := TryMethod(platform, run, i);
      spawned := spawned + [command];
      assert cs[..i + 1] == cs[..i] + [cs[i]];
      if found.Some? {
        ChainStopsAt(ys, i);
        return Ok(found.value), spawned;
      }
    }
    ChainRunsOut(ys);
    assert cs[..|cs|] == cs;
    return Ok(UnknownSerial), spawned;
  }
}
