/** The command-file protocol between the service and the root daemon
    (`LocationInjectorDaemon`): the daemon polls one file, reads it as a
    single command, acts on it and deletes it.

    Commands are `LOCATION,<lat>,<lng>[,<acc>]` and `STOP`; everything else
    is ignored. `Double.parseDouble` is the parameter `accepts`, which says
    whether a field parses; a parsed field is kept as its text (see Coords).
 */
module Protocol {
  import Text
  import Coords

  datatype Option<T> = None | Some(value: T)

  const CommandFile: string := "/data/local/tmp/location_command"
  const LocationTag: string := "LOCATION"
  const StopCommand: string := "STOP"

  /** The command the service sends for a position
      (`"LOCATION,$latitude,$longitude,$accuracy"`). */
  function LocationCommand(c: Coords.Coord): string
  {
    LocationTag + "," + Coords.Csv(c)
  }

  // ---------------------------------------------------------------------
  // Reading the file

  /** Java line terminators, as `\Z` in a regular expression sees them. */
  predicate IsLineBreak(c: char) {
    c == '\n' || c == '\r' || c == '\U{0085}' || c == '\U{2028}' || c == '\U{2029}'
  }

  /** A final line terminator, or nothing. */
  predicate FinalBreak(dropped: string) {
    dropped == "" || dropped == "\r\n" || (|dropped| == 1 && IsLineBreak(dropped[0]))
  }

  /** The file content without its final line terminator (`\r\n` counts as
      one), if it has one. */
  function StripFinalBreak(content: string): (r: string)
    ensures Text.StartsWith(content, r) && |content| - 2 <= |r| <= |content|
    ensures FinalBreak(content[|r|..])
    ensures |content| > 0 && !IsLineBreak(content[|content| - 1]) ==> r == content
  {
    if |content| >= 2 && content[|content| - 2..] == "\r\n" then content[..|content| - 2]
    else if |content| >= 1 && IsLineBreak(content[|content| - 1]) then content[..|content| - 1]
    else content
  }

  /** `readCommandFile`: a `Scanner` with delimiter `\Z` returns everything
      up to the final line terminator; an empty file makes `next()` throw,
      which is caught and read as the empty command. */
  function ReadCommandFile(content: string): (r: string)
    ensures Text.StartsWith(content, r) && |r| >= |content| - 2
    ensures FinalBreak(content[|r|..])
    ensures |content| > 0 && !IsLineBreak(content[|content| - 1]) ==> r == content
  {
    StripFinalBreak(content)
  }

  /** What `echo '<command>' > file` and `printf '%s' '<command>' > file`
      leave in the file is read back as the command itself, provided the
      command does not itself end in a line terminator. */
  lemma ReadBackWritten(cmd: string)
    requires |cmd| == 0 || !IsLineBreak(cmd[|cmd| - 1])
    ensures ReadCommandFile(cmd + "\n") == cmd
    ensures ReadCommandFile(cmd) == cmd
  {
    var echoed := cmd + "\n";
    if |cmd| >= 1 {
      assert echoed[|echoed| - 2] == cmd[|cmd| - 1];
      assert echoed[|echoed| - 2..] != "\r\n";
    }
    if |cmd| >= 2 {
      assert cmd[|cmd| - 1] == cmd[|cmd| - 2..][1];
    }
    assert echoed[..|echoed| - 1] == cmd;
  }

  // ---------------------------------------------------------------------
  // Parsing

  datatype Command = Locate(at: Coords.Coord) | Stop | Ignored

  /** `processCommand`'s decision: a `LOCATION` line with at least three
      fields whose numbers all parse, the exact text `STOP`, or nothing
      (which includes every line whose numbers fail to parse). The accuracy
      is the fourth field when there is one, else 10.0; further fields are
      ignored. */
  function ParseCommand(accepts: string -> bool, command: string): (r: Command)
    ensures r.Stop? <==> command == StopCommand
    ensures r.Locate? ==> Text.StartsWith(command, LocationTag + ",")
    ensures var parts := Text.JavaSplit(command, ',');
      r.Locate? <==>
        |parts| >= 3 && parts[0] == LocationTag && accepts(parts[1]) && accepts(parts[2])
        && (|parts| > 3 ==> accepts(parts[3]))
    ensures var parts := Text.JavaSplit(command, ',');
      r.Locate? ==>
        r.at == Coords.Coord(parts[1], parts[2], if |parts| > 3 then parts[3] else Coords.DefaultAccuracy)
  {
    var parts := Text.JavaSplit(command, ',');
    if |parts| >= 3 && parts[0] == LocationTag then
      var acc := if |parts| > 3 then parts[3] else Coords.DefaultAccuracy;
      if accepts(parts[1]) && accepts(parts[2]) && (|parts| > 3 ==> accepts(parts[3])) then
        LocationFields(command, parts);
        Locate(Coords.Coord(parts[1], parts[2], acc))
      else Ignored
    else if command == StopCommand then Stop
    else Ignored
  }

  /** A line whose first Java field is `LOCATION` and which has more than
      one field starts with `LOCATION,`. */
  lemma LocationFields(command: string, parts: seq<string>)
    requires parts == Text.JavaSplit(command, ',')
    requires |parts| >= 2 && parts[0] == LocationTag
    ensures Text.StartsWith(command, LocationTag + ",")
  {
    var pieces := Text.SplitOn(command, ',');
    assert ',' in command;
    assert parts == pieces[..|parts|];
    Text.JoinSplit(command, ',');
    assert |pieces| >= 2;
    assert pieces == [pieces[0]] + pieces[1..];
    assert Text.Join(pieces, ",") == pieces[0] + "," + Text.Join(pieces[1..], ",");
  }

  /** Java `split(",")` of a line built from comma-free fields whose last
      field is not empty gives the fields back. */
  lemma JavaSplitJoin(parts: seq<string>)
    requires |parts| >= 2 && parts[|parts| - 1] != ""
    requires forall k, i :: 0 <= k < |parts| && 0 <= i < |parts[k]| ==> parts[k][i] != ','
    ensures Text.JavaSplit(Text.Join(parts, ","), ',') == parts
  {
    var line := Text.Join(parts, ",");
    Text.SplitJoin(parts, ',');
    assert line == parts[0] + "," + Text.Join(parts[1..], ",");
    assert line[|parts[0]|] == ',';
  }

  lemma JoinThree(a: string, b: string, c: string)
    ensures Text.Join([a, b, c], ",") == a + "," + b + "," + c
  {
    assert [a, b, c][1..] == [b, c];
    assert [b, c][1..] == [c];
    assert Text.Join([b, c], ",") == b + "," + c;
    assert Text.Join([a, b, c], ",") == a + "," + (b + "," + c);
  }

  lemma CommandFields(c: Coords.Coord)
    ensures Text.Join([LocationTag, c.lat, c.lng, c.acc], ",") == LocationCommand(c)
  {
    JoinThree(c.lat, c.lng, c.acc);
    assert [LocationTag, c.lat, c.lng, c.acc][1..] == [c.lat, c.lng, c.acc];
  }

  /** The daemon reads back exactly the position the service sends, as
      long as the three numerals parse (they always do for the output of
      `Double.toString`). */
  lemma LocationRoundTrip(accepts: string -> bool, c: Coords.Coord)
    requires Coords.WellFormed(c) && c.acc != ""
    requires accepts(c.lat) && accepts(c.lng) && accepts(c.acc)
    ensures ParseCommand(accepts, LocationCommand(c)) == Locate(c)
  {
    CommandFields(c);
    JavaSplitJoin([LocationTag, c.lat, c.lng, c.acc]);
  }

  /** A three-field `LOCATION` line gets the default accuracy. */
  lemma DefaultAccuracyApplies(accepts: string -> bool, lat: Coords.Numeral, lng: Coords.Numeral)
    requires Coords.CommaFree(lat) && Coords.CommaFree(lng) && lng != ""
    requires accepts(lat) && accepts(lng)
    ensures ParseCommand(accepts, LocationTag + "," + lat + "," + lng)
      == Locate(Coords.Coord(lat, lng, Coords.DefaultAccuracy))
  {
    JoinThree(LocationTag, lat, lng);
    JavaSplitJoin([LocationTag, lat, lng]);
  }

  /** A number that fails to parse makes the daemon ignore the line. */
  lemma UnparsableIgnored(accepts: string -> bool, c: Coords.Coord)
    requires Coords.WellFormed(c) && c.acc != ""
    requires !accepts(c.lat) || !accepts(c.lng) || !accepts(c.acc)
    ensures ParseCommand(accepts, LocationCommand(c)) == Ignored
  {
    CommandFields(c);
    JavaSplitJoin([LocationTag, c.lat, c.lng, c.acc]);
  }

  // ---------------------------------------------------------------------
  // The daemon process

  /** The daemon's static state: whether its loop runs, the last position
      it took, and every position it injected, oldest first. */
  datatype Daemon = Daemon(running: bool, current: Coords.Coord, injected: seq<Coords.Coord>)

  const Initial: Daemon := Daemon(false, Coords.Coord("0.0", "0.0", Coords.DefaultAccuracy), [])

  /** `processCommand`: a position is taken and injected, `STOP` ends the
      process, anything else changes nothing. */
  function ProcessCommand(accepts: string -> bool, d: Daemon, command: string): (r: Daemon)
    ensures ParseCommand(accepts, command).Locate? ==>
      r == d.(current := ParseCommand(accepts, command).at, injected := d.injected + [ParseCommand(accepts, command).at])
    ensures command == StopCommand ==> !r.running && r.injected == d.injected
    ensures ParseCommand(accepts, command).Ignored? ==> r == d
  {
    match ParseCommand(accepts, command)
    case Locate(c) => d.(current := c, injected := d.injected + [c])
    case Stop => d.(running := false)
    case Ignored => d
  }

  /** `main`: the loop starts only with a package-name argument and when
      both the service manager and the location service were found. */
  function Boot(args: seq<string>, hasServiceManager: bool, hasLocationService: bool): (r: Daemon)
    ensures r.running <==> |args| >= 1 && hasServiceManager && hasLocationService
    ensures r.injected == []
  {
    if |args| < 1 || !hasServiceManager || !hasLocationService then Initial
    else Initial.(running := true)
  }

  /** The listening loop over successive polls, each either no file
      (`None`) or the file's content; a poll that finds a file processes
      it, and the loop stops once the daemon no longer runs. */
  function Listen(accepts: string -> bool, d: Daemon, polls: seq<Option<string>>): (r: Daemon)
    ensures !d.running ==> r == d
    ensures d.injected <= r.injected
    decreases |polls|
  {
    if !d.running || |polls| == 0 then d
    else match polls[0]
      case None => Listen(accepts, d, polls[1..])
      case Some(content) => Listen(accepts, ProcessCommand(accepts, d, ReadCommandFile(content)), polls[1..])
  }

  /** Once the daemon has stopped, later polls change nothing: the process
      has exited. */
  lemma {:induction false} ListenAfterStop(accepts: string -> bool, d: Daemon, polls: seq<Option<string>>, more: seq<Option<string>>)
    requires !Listen(accepts, d, polls).running
    ensures Listen(accepts, d, polls + more) == Listen(accepts, d, polls)
    decreases |polls|
  {
    if d.running && |polls| > 0 {
      assert (polls + more)[1..] == polls[1..] + more;
      match polls[0]
      case None => ListenAfterStop(accepts, d, polls[1..], more);
      case Some(content) =>
        ListenAfterStop(accepts, ProcessCommand(accepts, d, ReadCommandFile(content)), polls[1..], more);
    }
  }

  /** Whether a poll finds a file that reads as `STOP`. */
  predicate ReadsStop(poll: Option<string>) {
    poll.Some? && ReadCommandFile(poll.value) == StopCommand
  }

  /** The loop keeps running until it reads `STOP`, and it stops when it
      reads one. */
  lemma {:induction false} ListenRunsUntilStop(accepts: string -> bool, d: Daemon, polls: seq<Option<string>>)
    requires d.running
    ensures (forall k :: 0 <= k < |polls| ==> !ReadsStop(polls[k])) ==> Listen(accepts, d, polls).running
    ensures (exists k :: 0 <= k < |polls| && ReadsStop(polls[k])) ==> !Listen(accepts, d, polls).running
    decreases |polls|
  {
    if |polls| > 0 {
      var next := match polls[0]
        case None => d
        case Some(content) => ProcessCommand(accepts, d, ReadCommandFile(content));
      assert Listen(accepts, d, polls) == Listen(accepts, next, polls[1..]);
      if ReadsStop(polls[0]) {
        assert !next.running;
      } else {
        assert next.running;
        ListenRunsUntilStop(accepts, next, polls[1..]);
        if exists k :: 0 <= k < |polls| && ReadsStop(polls[k]) {
          var k :| 0 <= k < |polls| && ReadsStop(polls[k]);
          assert ReadsStop(polls[1..][k - 1]);
        }
        if forall k :: 0 <= k < |polls| ==> !ReadsStop(polls[k]) {
          assert forall k :: 0 <= k < |polls[1..]| ==> !ReadsStop(polls[1..][k]);
        }
      }
    }
  }

  /** A position the service writes with `echo` reaches a running daemon
      on its next poll: it becomes the current position and is injected. */
  lemma EchoedLocationDelivered(accepts: string -> bool, d: Daemon, c: Coords.Coord)
    requires d.running
    requires Coords.WellFormed(c) && c.acc != "" && !IsLineBreak(c.acc[|c.acc| - 1])
    requires accepts(c.lat) && accepts(c.lng) && accepts(c.acc)
    ensures Listen(accepts, d, [Some(LocationCommand(c) + "\n")])
      == d.(current := c, injected := d.injected + [c])
  {
    var cmd := LocationCommand(c);
    assert cmd[|cmd| - 1] == c.acc[|c.acc| - 1];
    ReadBackWritten(cmd);
    LocationRoundTrip(accepts, c);
    var next := ProcessCommand(accepts, d, cmd);
    assert Listen(accepts, d, [Some(cmd + "\n")]) == Listen(accepts, next, []);
  }
}
