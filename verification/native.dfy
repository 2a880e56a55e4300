/** The native library (`LocationInjector.cpp`): writing a fix into system
    properties and files, checking that it landed, starting the helper
    daemon and stopping injection.

    The device is reduced to the system properties and files the library
    touches, each with a flag saying whether writes to it succeed. The C
    `%f` rendering of a double and the clock are parameters.
 */
module Native {
  import Text
  import Nmea

  const MockLocationProperty: string := "persist.sys.mock_location"
  const MockValueProperty: string := "persist.sys.mock.location"
  const GpsConfPath: string := "/data/misc/location/gps.conf"
  const NmeaPath: string := "/data/misc/location/nmea.txt"
  const DaemonName: string := "location_injector"

  /** The system properties and files the library reads and writes. */
  datatype Device = Device(
    props: map<string, string>,
    files: map<string, string>,
    propsWritable: bool,
    filesWritable: bool)

  datatype Fix = Fix(lat: real, lng: real, acc: real)

  /** `__system_property_get`: the value, or the empty string when unset. */
  function Property(d: Device, key: string): (r: string)
    ensures key !in d.props ==> r == ""
  {
    if key in d.props then d.props[key] else ""
  }

  function SetProperty(d: Device, key: string, value: string): (r: Device)
    ensures r.propsWritable == d.propsWritable && r.filesWritable == d.filesWritable
    ensures r.files == d.files
    ensures d.propsWritable ==> Property(r, key) == value
    ensures forall k :: k != key ==> Property(r, k) == Property(d, k)
  {
    if d.propsWritable then d.(props := d.props[key := value]) else d
  }

  /** `open(path, O_WRONLY | O_CREAT | O_TRUNC)` then `write`. */
  function WriteFile(d: Device, path: string, content: string): (r: Device)
    ensures r.propsWritable == d.propsWritable && r.filesWritable == d.filesWritable
    ensures r.props == d.props
    ensures d.filesWritable ==> path in r.files && r.files[path] == content
    ensures forall p :: p != path ==> (p in r.files <==> p in d.files)
    ensures forall p :: p != path && p in d.files ==> r.files[p] == d.files[p]
  {
    if d.filesWritable then d.(files := d.files[path := content]) else d
  }

  /** `snprintf` into a buffer of `size` bytes keeps at most `size - 1`
      characters. */
  function Snprintf(s: string, size: nat): (r: string)
    requires size >= 1
    ensures |r| < size && Text.StartsWith(s, r)
    ensures |s| < size ==> r == s
  {
    Text.Take(s, size - 1)
  }

  /** A C string read from a buffer: the characters before the first NUL. */
  function UntilNul(s: string): (r: string)
    ensures Text.StartsWith(s, r)
    ensures forall i :: 0 <= i < |r| ==> r[i] != '\0'
    ensures |r| < |s| ==> s[|r|] == '\0'
  {
    if |s| == 0 || s[0] == '\0' then "" else [s[0]] + UntilNul(s[1..])
  }

  lemma {:induction false} UntilNulNone(s: string)
    requires forall i :: 0 <= i < |s| ==> s[i] != '\0'
    ensures UntilNul(s) == s
    decreases |s|
  {
    if |s| > 0 {
      UntilNulNone(s[1..]);
    }
  }

  /** The text `injectLocation` writes to gps.conf, before truncation. */
  function LocationData(fmt: real -> string, f: Fix, now: string): string
  {
    "latitude=" + fmt(f.lat) + "\nlongitude=" + fmt(f.lng) + "\naccuracy=" + fmt(f.acc)
      + "\nprovider=gps\ntime=" + now + "\n"
  }

  /** The GGA sentence `generateNmeaData` builds, without `$` and checksum;
      `field` renders a degree/minute pair the way `%02.0f%09.6f` (latitude)
      or `%03.0f%09.6f` (longitude) does. */
  function GgaSentence(clock: string, field: (real, real, nat) -> string, f: Fix): string
  {
    var la := Nmea.SplitDegrees(f.lat, 'N', 'S');
    var lo := Nmea.SplitDegrees(f.lng, 'E', 'W');
    "GPGGA," + clock + "," + field(la.degrees, la.minutes, 2) + "," + [la.letter]
      + "," + field(lo.degrees, lo.minutes, 3) + "," + [lo.letter] + ",1,08,1.0,0.0,M,0.0,M,,"
  }

  /** A native byte string as text, one character per byte. */
  function BytesText(b: seq<Nmea.Byte>): (r: string)
    ensures |r| == |b|
  {
    if |b| == 0 then "" else [b[0] as char] + BytesText(b[1..])
  }

  /** The clock as `injectLocation` prints it: seconds since the epoch
      (`%ld`) and the UTC time of day (`HHMMSS`). */
  datatype Clock = Clock(now: string, timeOfDay: string)

  datatype InjectResult = InjectResult(ok: bool, device: Device)

  /** `injectLocation`: enables the mock-location property, stores the
      fix in a second property, and writes gps.conf and the NMEA file;
      every failure is only logged. */
  function InjectLocation(d: Device, fmt: real -> string, field: (real, real, nat) -> string,
                          clock: Clock, f: Fix): (r: InjectResult)
    ensures r.ok
    ensures r.device.propsWritable == d.propsWritable && r.device.filesWritable == d.filesWritable
    ensures d.propsWritable ==> Property(r.device, MockLocationProperty) == "1"
    ensures d.filesWritable ==>
              (GpsConfPath in r.device.files
               && r.device.files[GpsConfPath] == Snprintf(LocationData(fmt, f, clock.now), 256))
  {
    var d1 := SetProperty(d, MockLocationProperty, "1");
    var d2 := SetProperty(d1, MockValueProperty, Snprintf(fmt(f.lat) + "," + fmt(f.lng) + "," + fmt(f.acc), 128));
    var d3 := WriteFile(d2, GpsConfPath, Snprintf(LocationData(fmt, f, clock.now), 256));
    var nmea := Nmea.NativeSentence(Nmea.CharBytes(GgaSentence(clock.timeOfDay, field, f)));
    var d4 := WriteFile(d3, NmeaPath, Snprintf(BytesText(nmea), 512));
    InjectResult(true, d4)
  }

  /** `checkInjectionSuccess`: the mock-location property must be set to
      something other than `0`, and the first 1023 bytes of gps.conf must
      contain both `latitude=<lat>` and `longitude=<lng>` (each needle cut
      to the 31 characters its 32-byte buffer holds). */
  function CheckInjectionSuccess(d: Device, fmt: real -> string, lat: real, lng: real): (r: bool)
    ensures r ==> Property(d, MockLocationProperty) != "" && Property(d, MockLocationProperty) != "0"
    ensures r ==> GpsConfPath in d.files
    ensures r <==>
              Property(d, MockLocationProperty) != "" && Property(d, MockLocationProperty) != "0"
              && GpsConfPath in d.files
              && Text.Contains(ReadBuffer(d.files[GpsConfPath]), LatNeedle(fmt, lat))
              && Text.Contains(ReadBuffer(d.files[GpsConfPath]), LngNeedle(fmt, lng))
  {
    var mock := Property(d, MockLocationProperty);
    if mock == "" || mock == "0" then false
    else if GpsConfPath !in d.files then false
    else
      var buffer := UntilNul(Text.Take(d.files[GpsConfPath], 1023));
      Text.Contains(buffer, Snprintf("latitude=" + fmt(lat), 32))
      && Text.Contains(buffer, Snprintf("longitude=" + fmt(lng), 32))
  }

  /** What the check sees of a file: at most 1023 bytes, up to the first
      NUL. */
  function ReadBuffer(content: string): (r: string)
    ensures Text.StartsWith(content, r) && |r| <= 1023
    ensures NoNul(r)
  {
    UntilNul(Text.Take(content, 1023))
  }

  function LatNeedle(fmt: real -> string, lat: real): string
  {
    Snprintf("latitude=" + fmt(lat), 32)
  }

  function LngNeedle(fmt: real -> string, lng: real): string
  {
    Snprintf("longitude=" + fmt(lng), 32)
  }

  /** `needle` occurs in `content` ending within the first 1023 bytes,
      with no NUL before its end. */
  predicate VisibleIn(content: string, needle: string) {
    exists i :: 0 <= i <= 1023 - |needle| && Text.OccursAt(content, needle, i) && NoNul(content[..i + |needle|])
  }

  /** The check passes exactly when the mock-location property is set to
      something other than `0` and gps.conf shows both needles within its
      first 1023 bytes, before any NUL. */
  lemma CheckIffNeedles(d: Device, fmt: real -> string, lat: real, lng: real)
    ensures CheckInjectionSuccess(d, fmt, lat, lng) <==>
              Property(d, MockLocationProperty) != "" && Property(d, MockLocationProperty) != "0"
              && GpsConfPath in d.files
              && VisibleIn(d.files[GpsConfPath], LatNeedle(fmt, lat))
              && VisibleIn(d.files[GpsConfPath], LngNeedle(fmt, lng))
  {
    if GpsConfPath in d.files {
      BufferIffVisible(d.files[GpsConfPath], LatNeedle(fmt, lat));
      BufferIffVisible(d.files[GpsConfPath], LngNeedle(fmt, lng));
    }
  }

  /** The read buffer contains a needle exactly when the needle is visible
      in the file. */
  lemma BufferIffVisible(content: string, needle: string)
    ensures Text.Contains(ReadBuffer(content), needle) <==> VisibleIn(content, needle)
  {
    if Text.Contains(ReadBuffer(content), needle) {
      BufferShowsVisible(content, needle);
    }
    if VisibleIn(content, needle) {
      VisibleInBuffer(content, needle);
    }
  }

  lemma BufferShowsVisible(content: string, needle: string)
    requires Text.Contains(ReadBuffer(content), needle)
    ensures VisibleIn(content, needle)
  {
    var buffer := ReadBuffer(content);
    Text.ContainsIffOccurs(buffer, needle);
    var i :| Text.OccursAt(buffer, needle, i);
    var n := i + |needle|;
    var prefix := content[..|buffer|];
    assert prefix == buffer;
    assert content[i..n] == prefix[i..n];
    assert content[..n] == prefix[..n];
    assert Text.OccursAt(content, needle, i);
  }

  lemma VisibleInBuffer(content: string, needle: string)
    requires VisibleIn(content, needle)
    ensures Text.Contains(ReadBuffer(content), needle)
  {
    var i :| 0 <= i <= 1023 - |needle| && Text.OccursAt(content, needle, i) && NoNul(content[..i + |needle|]);
    var n := i + |needle|;
    BufferCoversClean(content, n);
    var buffer := ReadBuffer(content);
    assert buffer[i..n] == content[i..n];
    Text.ContainsAt(buffer, needle, i);
  }

  /** A NUL-free start of the file, within the first 1023 bytes, is all in
      the read buffer. */
  lemma BufferCoversClean(content: string, n: nat)
    requires n <= 1023 && n <= |content| && NoNul(content[..n])
    ensures n <= |ReadBuffer(content)| && ReadBuffer(content)[..n] == content[..n]
  {
    var taken := Text.Take(content, 1023);
    var buffer := UntilNul(taken);
    assert taken[..n] == content[..n];
    if |buffer| < n {
      assert false;
    }
  }


  predicate NoNul(s: string) {
    forall i :: 0 <= i < |s| ==> s[i] != '\0'
  }

  /** An injection the device accepted is confirmed by the check: when both
      writes succeed and the gps.conf text fits its 256-byte buffer, the
      check for the same coordinates succeeds. */
  lemma InjectThenCheck(d: Device, fmt: real -> string, field: (real, real, nat) -> string, clock: Clock, f: Fix)
    requires d.propsWritable && d.filesWritable
    requires |LocationData(fmt, f, clock.now)| < 256 && NoNul(LocationData(fmt, f, clock.now))
    ensures CheckInjectionSuccess(InjectLocation(d, fmt, field, clock, f).device, fmt, f.lat, f.lng)
  {
    var data := LocationData(fmt, f, clock.now);
    var after := InjectLocation(d, fmt, field, clock, f).device;
    assert after.files[GpsConfPath] == data;
    UntilNulNone(data);
    assert UntilNul(Text.Take(data, 1023)) == data;
    DataHoldsNeedles(fmt, f, clock.now);
  }

  /** The gps.conf text holds both needles the check looks for. */
  lemma DataHoldsNeedles(fmt: real -> string, f: Fix, now: string)
    ensures Text.Contains(LocationData(fmt, f, now), Snprintf("latitude=" + fmt(f.lat), 32))
    ensures Text.Contains(LocationData(fmt, f, now), Snprintf("longitude=" + fmt(f.lng), 32))
  {
    var data := LocationData(fmt, f, now);
    var latNeedle := "latitude=" + fmt(f.lat);
    var lngNeedle := "longitude=" + fmt(f.lng);
    var rest := "\naccuracy=" + fmt(f.acc) + "\nprovider=gps\ntime=" + now + "\n";
    assert data == latNeedle + "\n" + lngNeedle + rest;
    assert Text.OccursAt(data, latNeedle, 0);
    Text.ContainsAt(data, latNeedle, 0);
    Text.ContainsPrefix(data, latNeedle, Snprintf(latNeedle, 32));
    var at := |latNeedle| + 1;
    assert data[at..at + |lngNeedle|] == lngNeedle;
    Text.ContainsAt(data, lngNeedle, at);
    Text.ContainsPrefix(data, lngNeedle, Snprintf(lngNeedle, 32));
  }

  datatype StopResult = StopResult(ok: bool, device: Device, shell: seq<string>)

  /** `stopInjection`: resets the mock-location property to `0` and asks
      the shell to kill the daemon; it reports success unconditionally. */
  function StopInjection(d: Device): (r: StopResult)
    ensures r.ok
    ensures r.shell == ["su -c \"pkill -f " + DaemonName + "\""]
    ensures r.device.files == d.files
  {
    StopResult(true, SetProperty(d, MockLocationProperty, "0"), ["su -c \"pkill -f " + DaemonName + "\""])
  }

  /** Once injection is stopped on a device that accepts the property
      write, no check succeeds until the next injection. */
  lemma StopThenCheckFails(d: Device, fmt: real -> string, lat: real, lng: real)
    requires d.propsWritable
    ensures !CheckInjectionSuccess(StopInjection(d).device, fmt, lat, lng)
  {
  }

  /** The outcomes of the three system calls `startInjectorDaemon` makes. */
  datatype LaunchEnv = LaunchEnv(fileExists: bool, chmodOk: bool, systemStatus: string -> int)

  datatype LaunchResult = LaunchResult(ok: bool, ran: seq<string>)

  /** The command line handed to `system`, truncated to its 512-byte buffer. */
  function LaunchCommand(packageName: string): string
  {
    Snprintf("su -c \"CLASSPATH=/data/app/" + packageName + "-*/base.apk /system/bin/app_process /system/bin "
      + DaemonName + " " + packageName + "\"", 512)
  }

  /** `startInjectorDaemon`: fails when the daemon file is missing or cannot
      be made executable (no command runs then), and otherwise reports
      whether `system` returned 0. */
  function StartInjectorDaemon(env: LaunchEnv, packageName: string): (r: LaunchResult)
    ensures r.ok <==> env.fileExists && env.chmodOk && env.systemStatus(LaunchCommand(packageName)) == 0
    ensures |r.ran| <= 1
    ensures r.ran != [] <==> env.fileExists && env.chmodOk
    ensures r.ran != [] ==> r.ran[0] == LaunchCommand(packageName)
  {
    if !env.fileExists || !env.chmodOk then LaunchResult(false, [])
    else
      var cmd := LaunchCommand(packageName);
      LaunchResult(env.systemStatus(cmd) == 0, [cmd])
  }
}
