/** The version normaliser (`getVersion`): one device record becomes the
    composite key `os + "%" + supervisor` that devices are counted by. */
module Version {
  import opened Wrappers
  import opened Strings
  import Semver

  /** The two projected fields of a device record; `None` stands for
      `null`/`undefined`. */
  datatype Device = Device(osVersion: Option<string>, supervisorVersion: Option<string>)

  /** Reading `.version` of the null that `semver.parse` returns for a
      missing or unparseable supervisor version throws a TypeError. */
  datatype VersionError = SupervisorUnparsed

  /** The OS version given to devices that report none. */
  const PreReleaseOs: string := "1.0.0-pre"

  /** The OS version given to devices whose reported version does not parse. */
  const UnknownOs: string := "Unknown"

  /** The separator of the composite key. */
  const KeySeparator: char := '%'

  /** JavaScript truthiness of an optional string: present and non-empty. */
  predicate IsTruthy(v: Option<string>) {
    v.Some? && v.value != ""
  }

  /** The normalised OS part of a device's key. */
  function OsVersion(parse: string -> Option<string>, d: Device): (os: string)
    ensures !IsTruthy(d.osVersion) ==> os == PreReleaseOs
    ensures os == PreReleaseOs || os == UnknownOs || (IsTruthy(d.osVersion) && parse(d.osVersion.value) == Some(os))
  {
    if IsTruthy(d.osVersion) then
      match parse(d.osVersion.value)
      case Some(v) => v
      case None => UnknownOs
    else PreReleaseOs
  }

  /** The composite key of an `os` and a `supervisor` version. */
  function Combine(os: string, supervisor: string): (key: string)
    ensures KeySeparator in key
  {
    os + [KeySeparator] + supervisor
  }

  /** `getVersion`: the key of a device, or the error thrown when its
      supervisor version is missing or does not parse. */
  function GetVersion(parse: string -> Option<string>, d: Device): (r: Result<string, VersionError>)
    ensures r.Ok? <==> d.supervisorVersion.Some? && parse(d.supervisorVersion.value).Some?
    ensures r.Ok? ==> r.value == Combine(OsVersion(parse, d), parse(d.supervisorVersion.value).value)
  {
    var supervisor := match d.supervisorVersion
      case Some(s) => parse(s)
      case None => None;
    match supervisor
    case Some(sv) => Ok(Combine(OsVersion(parse, d), sv))
    case None => Err(SupervisorUnparsed)
  }

  /** Both fallback literals are version strings, so neither contains the
      key separator. */
  lemma FallbacksAreVersionStrings()
    ensures Semver.IsVersionString(PreReleaseOs) && Semver.IsVersionString(UnknownOs)
  {
    assert PreReleaseOs == ['1', '.', '0', '.', '0', '-', 'p', 'r', 'e'];
    assert UnknownOs == ['U', 'n', 'k', 'n', 'o', 'w', 'n'];
  }

  /** A version string never contains `c` when `c` is not a version character. */
  lemma NotInVersionString(s: string, c: char)
    requires Semver.IsVersionString(s) && !Semver.IsVersionChar(c)
    ensures c !in s
  {
  }

  /** The OS part of every key is a version string, given a parser whose
      outputs are version strings. */
  lemma {:induction false} OsVersionIsVersionString(parse: string -> Option<string>, d: Device)
    requires Semver.ParsesToVersionStrings(parse)
    ensures Semver.IsVersionString(OsVersion(parse, d))
  {
    FallbacksAreVersionStrings();
    if IsTruthy(d.osVersion) && parse(d.osVersion.value).Some? {
      assert OsVersion(parse, d) == parse(d.osVersion.value).value;
    }
  }

  /** The normalisation of a device whose supervisor version parses: a
      falsy OS version becomes "1.0.0-pre", an unparseable one "Unknown",
      any other the canonical parsed string; the supervisor part is the
      canonical parsed supervisor version; and splitting the key on `%`
      gives back exactly these two parts. */
  lemma {:induction false} KeySplitsBack(parse: string -> Option<string>, d: Device)
    requires Semver.ParsesToVersionStrings(parse)
    requires d.supervisorVersion.Some? && parse(d.supervisorVersion.value).Some?
    ensures GetVersion(parse, d).Ok?
    ensures var parts := Split(GetVersion(parse, d).value, KeySeparator);
      && |parts| == 2
      && parts[1] == parse(d.supervisorVersion.value).value
      && (!IsTruthy(d.osVersion) ==> parts[0] == PreReleaseOs)
      && (IsTruthy(d.osVersion) && parse(d.osVersion.value).None? ==> parts[0] == UnknownOs)
      && (IsTruthy(d.osVersion) && parse(d.osVersion.value).Some? ==> parts[0] == parse(d.osVersion.value).value)
  {
    var os := OsVersion(parse, d);
    var supervisor := parse(d.supervisorVersion.value).value;
    OsVersionIsVersionString(parse, d);
    NotInVersionString(os, KeySeparator);
    NotInVersionString(supervisor, KeySeparator);
    SplitJoin2(os, supervisor, KeySeparator);
  }

  /** Two keys produced by `Combine` from separator-free parts are equal only
      when both parts are. */
  lemma CombineInjective(os1: string, sup1: string, os2: string, sup2: string)
    requires KeySeparator !in os1 && KeySeparator !in sup1
    requires KeySeparator !in os2 && KeySeparator !in sup2
    requires Combine(os1, sup1) == Combine(os2, sup2)
    ensures os1 == os2 && sup1 == sup2
  {
    SplitJoin2(os1, sup1, KeySeparator);
    SplitJoin2(os2, sup2, KeySeparator);
  }
}
