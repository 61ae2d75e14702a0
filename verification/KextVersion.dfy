/** Kext version numbers: what a version string means, its 64-bit code, and its canonical spelling. */
module KextVersion {
  import opened Base

  const NUL := '\0'

  const DEVELOPMENT := 1
  const ALPHA := 3
  const BETA := 5
  const CANDIDATE := 7
  const RELEASE := 9

  datatype Version = Version(major: nat, minor: nat, revision: nat, stage: nat, level: nat)

  /** What the parser can yield. */
  predicate Accepted(v: Version) {
    && v.major <= 9999 && v.minor <= 99 && v.revision <= 99 && v.level <= 255
    && v.stage in {DEVELOPMENT, ALPHA, BETA, CANDIDATE, RELEASE}
    && (v.stage == RELEASE ==> v.level == 0)
    && (v.stage == CANDIDATE ==> v.level > 0)
  }

  function Encode(v: Version): int {
    v.major * 100000000 + v.minor * 1000000 + v.revision * 10000 + v.stage * 1000 + v.level
  }

  /** Lexicographic order. */
  predicate Before(a: Version, b: Version) {
    if a.major != b.major then a.major < b.major
    else if a.minor != b.minor then a.minor < b.minor
    else if a.revision != b.revision then a.revision < b.revision
    else if a.stage != b.stage then a.stage < b.stage
    else a.level < b.level
  }

  /** Codes compare as versions do. */
  lemma EncodeOrders(a: Version, b: Version)
    requires Accepted(a) && Accepted(b)
    ensures Encode(a) < Encode(b) <==> Before(a, b)
    ensures Encode(a) == Encode(b) <==> a == b
  {
  }

  lemma EncodeRange(v: Version)
    requires Accepted(v)
    ensures 1000 <= Encode(v) <= 999999999000
  {
  }

  // ---- reading

  /** Index `at` can be read: it lies within the text or on its terminator. */
  predicate InText(s: string, at: nat) {
    at <= |s| && forall j :: 0 <= j < at ==> s[j] != NUL
  }

  /** The character at an index; the terminator is a NUL in the text or its end. */
  function At(s: string, at: nat): char
    requires InText(s, at)
  {
    if at < |s| then s[at] else NUL
  }

  predicate IsSpace(c: char) {
    c == ' ' || c == '\t' || c == '\r' || c == '\n'
  }

  predicate IsEnd(c: char) {
    IsSpace(c) || c == NUL
  }

  predicate IsDigit(c: char) {
    '0' <= c <= '9'
  }

  function DigitValue(c: char): (d: nat)
    requires IsDigit(c)
    ensures d <= 9
  {
    c as int - '0' as int
  }

  predicate IsReleaseState(c: char) {
    c == 'd' || c == 'a' || c == 'b' || c == 'f'
  }

  /** How the scan of one number ends: at the end of the text, at a stage letter, after a dot, or out of digits. */
  datatype Scan = Bad | End(v: nat) | State(v: nat, at: nat) | Dot(v: nat, at: nat) | Full(v: nat, at: nat)

  /** At most `left` more digits onto v; a dot ends the number where dots are allowed. */
  function ScanNumber(s: string, at: nat, v: nat, left: nat, dots: bool): (r: Scan)
    requires InText(s, at)
    ensures r.State? || r.Dot? || r.Full? ==> InText(s, r.at)
    ensures r.State? ==> IsReleaseState(At(s, r.at))
    decreases left
  {
    if left == 0 then Full(v, at)
    else
      var c := At(s, at);
      if IsEnd(c) then End(v)
      else if IsDigit(c) then ScanNumber(s, at + 1, v * 10 + DigitValue(c), left - 1, dots)
      else if IsReleaseState(c) then State(v, at)
      else if c == '.' && dots then Dot(v, at + 1)
      else Bad
  }

  /** Lines 237-243 and the like: after the last digit a dot is skipped and another digit refused. */
  function AfterFull(s: string, at: nat): (r: Option<nat>)
    requires InText(s, at)
    ensures r.Some? ==> InText(s, r.value)
  {
    var c := At(s, at);
    if c == '.' then Some(at + 1) else if IsDigit(c) then None else Some(at)
  }

  /** The stage code and where its level begins; None when there is no stage here. */
  function StageAt(s: string, at: nat): (r: Option<(nat, nat)>)
    requires InText(s, at)
    ensures r.Some? ==> InText(s, r.value.1) && IsDigit(At(s, r.value.1))
                        && r.value.0 in {DEVELOPMENT, ALPHA, BETA, CANDIDATE}
  {
    var c := At(s, at);
    if !IsReleaseState(c) then None
    else if IsDigit(At(s, at + 1)) then
      Some((if c == 'd' then DEVELOPMENT else if c == 'a' then ALPHA else if c == 'b' then BETA else CANDIDATE, at + 1))
    else if c == 'f' && At(s, at + 1) == 'c' && IsDigit(At(s, at + 2)) then Some((CANDIDATE, at + 2))
    else None
  }

  /** Up to three digits, ended by the end of the text. */
  function LevelAt(s: string, at: nat, v: nat, scanned: nat): (r: Option<nat>)
    requires InText(s, at) && scanned <= 3
    decreases 3 - scanned
  {
    var c := At(s, at);
    if scanned == 3 then (if IsEnd(c) && v <= 255 then Some(v) else None)
    else if IsEnd(c) then (if scanned > 0 then Some(v) else None)
    else if IsDigit(c) then LevelAt(s, at + 1, v * 10 + DigitValue(c), scanned + 1)
    else None
  }

  function FromStage(s: string, at: nat, major: nat, minor: nat, revision: nat): Option<Version>
    requires InText(s, at)
  {
    if IsEnd(At(s, at)) then Some(Version(major, minor, revision, RELEASE, 0))
    else
      var stage := StageAt(s, at);
      if stage.None? then None
      else
        var level := LevelAt(s, stage.value.1, 0, 0);
        if level.None? || (stage.value.0 == CANDIDATE && level.value == 0) then None
        else Some(Version(major, minor, revision, stage.value.0, level.value))
  }

  function FromRevision(s: string, at: nat, major: nat, minor: nat): Option<Version>
    requires InText(s, at)
  {
    match ScanNumber(s, at, 0, 2, false)
    case Bad => None
    case End(v) => Some(Version(major, minor, v, RELEASE, 0))
    case State(v, at') => FromStage(s, at', major, minor, v)
    case Dot(v, at') => None
    case Full(v, at') =>
      var next := AfterFull(s, at');
      if next.None? then None else FromStage(s, next.value, major, minor, v)
  }

  function FromMinor(s: string, at: nat, major: nat): Option<Version>
    requires InText(s, at)
  {
    match ScanNumber(s, at, 0, 2, true)
    case Bad => None
    case End(v) => Some(Version(major, v, 0, RELEASE, 0))
    case State(v, at') => FromStage(s, at', major, v, 0)
    case Dot(v, at') => FromRevision(s, at', major, v)
    case Full(v, at') =>
      var next := AfterFull(s, at');
      if next.None? then None else FromRevision(s, next.value, major, v)
  }

  /** What follows the scan of the major version. */
  function FromMajor(s: string, scan: Scan): Option<Version>
    requires scan.State? || scan.Dot? || scan.Full? ==> InText(s, scan.at)
  {
    match scan
    case Bad => None
    case End(v) => Some(Version(v, 0, 0, RELEASE, 0))
    case State(v, at) => FromStage(s, at, v, 0, 0)
    case Dot(v, at) => FromMinor(s, at, v)
    case Full(v, at) =>
      var next := AfterFull(s, at);
      if next.None? then None else FromMinor(s, next.value, v)
  }

  function ParseVersion(s: string): Option<Version> {
    if !IsDigit(At(s, 0)) then None
    else FromMajor(s, ScanNumber(s, 1, DigitValue(At(s, 0)), 3, true))
  }

  /** The code of a version string, -1 when it is not one. */
  function ParseCode(s: string): int {
    var v := ParseVersion(s);
    if v.Some? then Encode(v.value) else -1
  }

  lemma {:induction false} ScanBound(s: string, at: nat, v: nat, left: nat, dots: bool, bound: nat)
    requires InText(s, at) && left <= 4 && v < bound
    ensures var r := ScanNumber(s, at, v, left, dots);
            !r.Bad? ==> r.v < bound * (if left == 0 then 1 else if left == 1 then 10 else if left == 2 then 100
                                       else if left == 3 then 1000 else 10000)
    decreases left
  {
    if left > 0 && !IsEnd(At(s, at)) && IsDigit(At(s, at)) {
      ScanBound(s, at + 1, v * 10 + DigitValue(At(s, at)), left - 1, dots, bound * 10);
    }
  }

  lemma {:induction false} LevelBound(s: string, at: nat, v: nat, scanned: nat)
    requires InText(s, at) && scanned <= 3
    requires v < (if scanned == 0 then 1 else if scanned == 1 then 10 else if scanned == 2 then 100 else 1000)
    ensures var r := LevelAt(s, at, v, scanned); r.Some? ==> r.value <= 255
    decreases 3 - scanned
  {
    if scanned < 3 && !IsEnd(At(s, at)) && IsDigit(At(s, at)) {
      LevelBound(s, at + 1, v * 10 + DigitValue(At(s, at)), scanned + 1);
    }
  }

  lemma StageAccepted(s: string, at: nat, major: nat, minor: nat, revision: nat)
    requires InText(s, at) && major <= 9999 && minor <= 99 && revision <= 99
    ensures FromStage(s, at, major, minor, revision).Some? ==> Accepted(FromStage(s, at, major, minor, revision).value)
  {
    if !IsEnd(At(s, at)) && StageAt(s, at).Some? {
      LevelBound(s, StageAt(s, at).value.1, 0, 0);
    }
  }

  lemma RevisionAccepted(s: string, at: nat, major: nat, minor: nat)
    requires InText(s, at) && major <= 9999 && minor <= 99
    ensures FromRevision(s, at, major, minor).Some? ==> Accepted(FromRevision(s, at, major, minor).value)
  {
    ScanBound(s, at, 0, 2, false, 1);
    match ScanNumber(s, at, 0, 2, false)
    case State(v, at') => StageAccepted(s, at', major, minor, v);
    case Full(v, at') =>
      if AfterFull(s, at').Some? { StageAccepted(s, AfterFull(s, at').value, major, minor, v); }
    case _ =>
  }

  lemma MinorAccepted(s: string, at: nat, major: nat)
    requires InText(s, at) && major <= 9999
    ensures FromMinor(s, at, major).Some? ==> Accepted(FromMinor(s, at, major).value)
  {
    ScanBound(s, at, 0, 2, true, 1);
    match ScanNumber(s, at, 0, 2, true)
    case State(v, at') => StageAccepted(s, at', major, v, 0);
    case Dot(v, at') => RevisionAccepted(s, at', major, v);
    case Full(v, at') =>
      if AfterFull(s, at').Some? { RevisionAccepted(s, AfterFull(s, at').value, major, v); }
    case _ =>
  }

  /** Every string that parses yields a version in range; its code is between 1000 and 999999999000, never 0. */
  lemma ParsedIsAccepted(s: string)
    ensures ParseVersion(s).Some? ==> Accepted(ParseVersion(s).value) && 1000 <= ParseCode(s) <= 999999999000
    ensures ParseVersion(s).None? <==> ParseCode(s) == -1
  {
    if IsDigit(At(s, 0)) {
      ScanBound(s, 1, DigitValue(At(s, 0)), 3, true, 10);
      match ScanNumber(s, 1, DigitValue(At(s, 0)), 3, true)
      case State(v, at') => StageAccepted(s, at', v, 0, 0);
      case Dot(v, at') => MinorAccepted(s, at', v);
      case Full(v, at') =>
        if AfterFull(s, at').Some? { MinorAccepted(s, AfterFull(s, at').value, v); }
      case _ =>
    }
    if ParseVersion(s).Some? { EncodeRange(ParseVersion(s).value); }
  }

  // ---- writing

  function DigitChar(d: nat): (c: char)
    requires d <= 9
    ensures IsDigit(c) && DigitValue(c) == d
  {
    '0' + d as char
  }

  /** Decimal digits without leading zeros. */
  function Decimal(x: nat): (s: string)
    ensures |s| >= 1
  {
    if x < 10 then [DigitChar(x)] else Decimal(x / 10) + [DigitChar(x % 10)]
  }

  function StageString(stage: nat): Option<string> {
    if stage == DEVELOPMENT then Some("d")
    else if stage == ALPHA then Some("a")
    else if stage == BETA then Some("b")
    else if stage == CANDIDATE then Some("f")
    else if stage == RELEASE then Some("")
    else None
  }

  /** The parts of a code, as the printer takes it apart. */
  function Decode(n: nat): Version {
    var major := n / 100000000;
    var minor := (n - major * 100000000) / 1000000;
    var revision := (n - (major * 100000000 + minor * 1000000)) / 10000;
    var stage := (n - (major * 100000000 + minor * 1000000 + revision * 10000)) / 1000;
    Version(major, minor, revision, stage, n - (major * 100000000 + minor * 1000000 + revision * 10000 + stage * 1000))
  }

  function Spelling(v: Version): string {
    Decimal(v.major) + "." + Decimal(v.minor)
    + (if v.revision != 0 then "." + Decimal(v.revision) else "")
    + (if StageString(v.stage).Some? then StageString(v.stage).value else "")
    + (if v.stage < RELEASE then Decimal(v.level) else "")
  }

  const INVALID := "(invalid)"
  const MISSING := "(missing)"

  /** The text the printer leaves in the buffer. */
  function Print(n: int): string {
    if n < 0 then INVALID
    else if n == 0 then MISSING
    else
      var v := Decode(n);
      if v.major > 9999 || v.level > 255 || StageString(v.stage).None? then INVALID else Spelling(v)
  }

  lemma DecodeEncode(v: Version)
    requires Accepted(v)
    ensures Decode(Encode(v)) == v
  {
    var n := Encode(v);
    var stage := v.stage * 1000 + v.level;
    var revision := v.revision * 10000 + stage;
    var minor := v.minor * 1000000 + revision;
    MajorDigits(n, v.major, minor);
    MinorDigits(minor, v.minor, revision);
    RevisionDigits(revision, v.revision, stage);
    StageDigit(stage, v.stage, v.level);
    assert n - v.major * 100000000 == minor && n - (v.major * 100000000 + v.minor * 1000000) == revision;
  }

  lemma MajorDigits(n: nat, q: nat, r: nat)
    requires n == q * 100000000 + r && r < 100000000
    ensures n / 100000000 == q
  {
  }

  lemma MinorDigits(n: nat, q: nat, r: nat)
    requires n == q * 1000000 + r && r < 1000000
    ensures n / 1000000 == q
  {
  }

  lemma RevisionDigits(n: nat, q: nat, r: nat)
    requires n == q * 10000 + r && r < 10000
    ensures n / 10000 == q
  {
  }

  lemma StageDigit(n: nat, q: nat, r: nat)
    requires n == q * 1000 + r && r < 1000
    ensures n / 1000 == q
  {
  }

  lemma EncodeDecode(n: nat)
    ensures Encode(Decode(n)) == n
    ensures Decode(n).minor <= 99 && Decode(n).revision <= 99 && Decode(n).stage <= 9 && Decode(n).level <= 999
  {
  }
}
