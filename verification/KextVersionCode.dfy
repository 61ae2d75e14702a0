/** The scanning loops of the version parser and the buffer work of the version printer. */
module KextVersionCode {
  import opened Base
  import opened KextVersion
  import opened KextRoundTrip

  /** kOSKextVersionMaxLength. */
  const MAX_LENGTH := 20

  /** The digit loops at lines 213-233, 252-272 and 291-308. */
  method ScanDigitsLoop(s: string, from: nat, start: nat, scanned: nat, limit: nat, dots: bool) returns (r: Scan)
    requires InText(s, from) && scanned <= limit
    ensures r == ScanNumber(s, from, start, limit - scanned, dots)
  {
    var at: nat, v: nat, n: nat := from, start, scanned;
    while n < limit
      invariant scanned <= n <= limit && InText(s, at)
      invariant ScanNumber(s, at, v, limit - n, dots) == ScanNumber(s, from, start, limit - scanned, dots)
    {
      var c := At(s, at);
      if IsEnd(c) {
        return End(v);
      } else if IsDigit(c) {
        v := v * 10 + DigitValue(c);
        at := at + 1;
        n := n + 1;
      } else if IsReleaseState(c) {
        return State(v, at);
      } else if c == '.' && dots {
        return Dot(v, at + 1);
      } else {
        return Bad;
      }
    }
    r := Full(v, at);
  }

  /** The stage level loop, lines 338-373. */
  method ScanLevelLoop(s: string, from: nat) returns (level: Option<nat>)
    requires InText(s, from)
    ensures level == LevelAt(s, from, 0, 0)
  {
    var at: nat, v: nat, n: nat := from, 0, 0;
    while n < 3
      invariant 0 <= n <= 3 && InText(s, at)
      invariant LevelAt(s, at, v, n) == LevelAt(s, from, 0, 0)
    {
      var c := At(s, at);
      if IsEnd(c) {
        return if n > 0 then Some(v) else None;
      } else if IsDigit(c) {
        v := v * 10 + DigitValue(c);
        at := at + 1;
        n := n + 1;
      } else {
        return None;
      }
    }
    if !IsEnd(At(s, at)) {
      return None;
    }
    if v > 255 {
      return None;
    }
    level := Some(v);
  }

  /** Lines 320-388. */
  method ReleaseState(s: string, at: nat, major: nat, minor: nat, revision: nat) returns (result: int)
    requires InText(s, at)
    ensures result == Code(FromStage(s, at, major, minor, revision))
  {
    if IsEnd(At(s, at)) {
      return Finish(major, minor, revision, RELEASE, 0);
    }
    var stage := StageAt(s, at);
    if stage.None? {
      return -1;
    }
    var level := ScanLevelLoop(s, stage.value.1);
    if level.None? {
      return -1;
    }
    result := Finish(major, minor, revision, stage.value.0, level.value);
  }

  function Code(v: Option<Version>): int {
    if v.Some? then Encode(v.value) else -1
  }

  /** Lines 375-387. */
  function Finish(major: nat, minor: nat, revision: nat, stage: nat, level: nat): int {
    if stage == CANDIDATE && level == 0 then -1 else Encode(Version(major, minor, revision, stage, level))
  }

  method Revision(s: string, at: nat, major: nat, minor: nat) returns (result: int)
    requires InText(s, at)
    ensures result == Code(FromRevision(s, at, major, minor))
  {
    var scan := ScanDigitsLoop(s, at, 0, 0, 2, false);
    match scan
    case Bad => result := -1;
    case End(v) => result := Finish(major, minor, v, RELEASE, 0);
    case State(v, next) => result := ReleaseState(s, next, major, minor, v);
    case Dot(v, next) => result := -1;
    case Full(v, next) =>
      var go := AfterFull(s, next);
      if go.None? {
        return -1;
      }
      result := ReleaseState(s, go.value, major, minor, v);
  }

  method Minor(s: string, at: nat, major: nat) returns (result: int)
    requires InText(s, at)
    ensures result == Code(FromMinor(s, at, major))
  {
    var scan := ScanDigitsLoop(s, at, 0, 0, 2, true);
    match scan
    case Bad => result := -1;
    case End(v) => result := Finish(major, v, 0, RELEASE, 0);
    case State(v, next) => result := ReleaseState(s, next, major, v, 0);
    case Dot(v, next) => result := Revision(s, next, major, v);
    case Full(v, next) =>
      var go := AfterFull(s, next);
      if go.None? {
        return -1;
      }
      result := Revision(s, go.value, major, v);
  }

  /** OSKextParseVersionString; every character access is at or before the terminator. */
  method ParseVersionString(s: string) returns (result: int)
    ensures result == ParseCode(s)
    ensures result == -1 || 1000 <= result <= 999999999000
  {
    ParsedIsAccepted(s);
    if At(s, 0) == NUL || !IsDigit(At(s, 0)) {
      return -1;
    }
    var scan := ScanDigitsLoop(s, 1, DigitValue(At(s, 0)), 1, 4, true);
    match scan
    case Bad => result := -1;
    case End(v) => result := Finish(v, 0, 0, RELEASE, 0);
    case State(v, next) => result := ReleaseState(s, next, v, 0, 0);
    case Dot(v, next) => result := Minor(s, next, v);
    case Full(v, next) =>
      var go := AfterFull(s, next);
      if go.None? {
        return -1;
      }
      result := Minor(s, go.value, v);
  }

  // ---- printing into a buffer

  /** The C string at the start of a buffer. */
  function CString(b: seq<char>): string {
    if b == [] || b[0] == NUL then "" else [b[0]] + CString(b[1..])
  }

  lemma {:induction false} CStringOf(text: string, rest: seq<char>)
    requires rest != [] && rest[0] == NUL && forall j :: 0 <= j < |text| ==> text[j] != NUL
    ensures CString(text + rest) == text
  {
    if text == "" {
      assert text + rest == rest;
    } else {
      assert (text + rest)[1..] == text[1..] + rest;
      CStringOf(text[1..], rest);
    }
  }

  /** The buffer holds `text` and zeros to its end. */
  ghost predicate Holds(b: seq<char>, text: string) {
    && |text| < |b|
    && b[..|text|] == text
    && (forall j :: 0 <= j < |text| ==> text[j] != NUL)
    && forall j :: |text| <= j < |b| ==> b[j] == NUL
  }

  lemma HeldString(b: seq<char>, text: string)
    requires Holds(b, text)
    ensures CString(b) == text
  {
    assert b == text + b[|text|..];
    CStringOf(text, b[|text|..]);
  }

  /** snprintf, strlcat and single stores: `piece` goes to the end of the text, inside the buffer. */
  method Append(buffer: array<char>, cpos: nat, piece: string, ghost text: string) returns (cpos': nat)
    requires Holds(buffer[..], text) && cpos == |text| && |text| + |piece| < buffer.Length
    requires forall j :: 0 <= j < |piece| ==> piece[j] != NUL
    modifies buffer
    ensures Holds(buffer[..], text + piece) && cpos' == |text + piece|
  {
    ghost var before := buffer[..];
    forall i | 0 <= i < |piece| {
      buffer[cpos + i] := piece[i];
    }
    cpos' := cpos + |piece|;
    assert forall j :: 0 <= j < |text| ==> buffer[j] == before[j];
    assert buffer[..|text + piece|] == text + piece;
    assert forall j :: |text + piece| <= j < buffer.Length ==> buffer[j] == before[j];
  }

  /** strlcpy of a short message over whatever is there. */
  method Replace(buffer: array<char>, message: string)
    requires |message| < buffer.Length && forall j :: 0 <= j < |message| ==> message[j] != NUL
    modifies buffer
    ensures CString(buffer[..]) == message
  {
    forall i | 0 <= i < |message| {
      buffer[i] := message[i];
    }
    buffer[|message|] := NUL;
    assert buffer[..] == message + buffer[|message|..];
    CStringOf(message, buffer[|message|..]);
  }

  /** The longest spelling, with its terminator, takes 15 characters. */
  lemma SpellingFits(v: Version)
    requires Printable(v)
    ensures |Spelling(v)| <= 14 < MAX_LENGTH
    ensures |Decimal(v.major)| <= 4 && |Decimal(v.minor)| <= 2 && |Decimal(v.revision)| <= 2 && |Decimal(v.level)| <= 3
  {
    DecimalLength(v.major);
    DecimalLength(v.minor);
    DecimalLength(v.revision);
    DecimalLength(v.level);
  }

  /** The numbers in front of the stage. */
  function Numbers(v: Version): string {
    Decimal(v.major) + "." + Decimal(v.minor) + (if v.revision != 0 then "." + Decimal(v.revision) else "")
  }

  lemma PiecesFit(v: Version)
    requires v.major <= 9999 && v.minor <= 99 && v.revision <= 99
    ensures NUL !in Decimal(v.major) && NUL !in Decimal(v.minor) && NUL !in Decimal(v.revision)
    ensures |Decimal(v.major)| <= 4 && |Decimal(v.minor)| <= 2 && |Decimal(v.revision)| <= 2
  {
    DecimalLength(v.major);
    DecimalLength(v.minor);
    DecimalLength(v.revision);
    DecimalNoNul(v.major);
    DecimalNoNul(v.minor);
    DecimalNoNul(v.revision);
  }

  /** Lines 449-464: the numbers, for a version whose numbers are in range. */
  method PrintNumbers(buffer: array<char>, v: Version) returns (cpos: nat)
    requires buffer.Length >= MAX_LENGTH && Holds(buffer[..], "")
    requires v.major <= 9999 && v.minor <= 99 && v.revision <= 99
    modifies buffer
    ensures Holds(buffer[..], Numbers(v)) && cpos == |Numbers(v)| <= 10
  {
    PiecesFit(v);
    cpos := Append(buffer, 0, Decimal(v.major), "");
    assert "" + Decimal(v.major) == Decimal(v.major);
    cpos := AppendDotted(buffer, cpos, Decimal(v.minor), Decimal(v.major));
    if v.revision != 0 {
      cpos := AppendDotted(buffer, cpos, Decimal(v.revision), Decimal(v.major) + "." + Decimal(v.minor));
    }
    assert v.revision != 0 ==>
      Decimal(v.major) + "." + Decimal(v.minor) + "." + Decimal(v.revision) == Numbers(v);
  }

  /** A period and a number. */
  method AppendDotted(buffer: array<char>, cpos0: nat, digits: string, ghost text: string) returns (cpos: nat)
    requires Holds(buffer[..], text) && cpos0 == |text| && |text| + 1 + |digits| < buffer.Length && NUL !in digits
    modifies buffer
    ensures Holds(buffer[..], text + "." + digits) && cpos == |text + "." + digits|
  {
    cpos := Append(buffer, cpos0, ".", text);
    cpos := Append(buffer, cpos, digits, text + ".");
  }

  /** Lines 449-478. */
  method PrintParts(buffer: array<char>, v: Version)
    requires buffer.Length >= MAX_LENGTH && Holds(buffer[..], "")
    requires v.major <= 9999 && v.minor <= 99 && v.revision <= 99 && v.level <= 255
    modifies buffer
    ensures CString(buffer[..]) == if StageString(v.stage).Some? then Spelling(v) else INVALID
  {
    DecimalLength(v.level);
    DecimalNoNul(v.level);
    var cpos := PrintNumbers(buffer, v);
    PrintStage(buffer, v, cpos, Numbers(v));
  }

  method PrintStage(buffer: array<char>, v: Version, cpos0: nat, ghost text0: string)
    requires buffer.Length >= MAX_LENGTH && Holds(buffer[..], text0) && cpos0 == |text0| <= 10
    requires |Decimal(v.level)| <= 3 && forall j :: 0 <= j < |Decimal(v.level)| ==> Decimal(v.level)[j] != NUL
    modifies buffer
    ensures CString(buffer[..]) == if StageString(v.stage).None? then INVALID else
              text0 + StageString(v.stage).value + (if v.stage < RELEASE then Decimal(v.level) else "")
  {
    var stage := StageString(v.stage);
    if stage.None? {
      Replace(buffer, INVALID);
      return;
    }
    var cpos := cpos0;
    ghost var text := text0 + "";
    assert text == text0;
    if stage.value != "" {
      cpos := Append(buffer, cpos, stage.value, text);
      text := text + stage.value;
    }
    if v.stage < RELEASE {
      cpos := Append(buffer, cpos, Decimal(v.level), text);
      text := text + Decimal(v.level);
    }
    HeldString(buffer[..], text);
  }

  /** OSKextVersionGetString; a buffer of less than the guaranteed length is refused and left alone. */
  method GetString(aVersion: int, buffer: array<char>) returns (ok: bool)
    modifies buffer
    ensures ok <==> buffer.Length >= MAX_LENGTH
    ensures !ok ==> buffer[..] == old(buffer[..])
    ensures ok ==> CString(buffer[..]) == Print(aVersion)
  {
    if buffer.Length < MAX_LENGTH {
      return false;
    }
    forall i | 0 <= i < buffer.Length {
      buffer[i] := NUL;
    }
    ok := true;
    if aVersion < 0 {
      Replace(buffer, INVALID);
      return;
    }
    if aVersion == 0 {
      Replace(buffer, MISSING);
      return;
    }
    EncodeDecode(aVersion);
    var v := Decode(aVersion);
    if v.major > 9999 {
      Replace(buffer, INVALID);
      return;
    }
    if v.level > 255 {
      Replace(buffer, INVALID);
      return;
    }
    PrintParts(buffer, v);
  }
}
