/** Printing a version code and reading the text again. */
module KextRoundTrip {
  import opened Base
  import opened KextVersion

  predicate Digits(ds: string) {
    forall i :: 0 <= i < |ds| ==> IsDigit(ds[i])
  }

  /** v followed by the digits ds. */
  function Value(v: nat, ds: string): nat
    requires Digits(ds)
    decreases |ds|
  {
    if ds == "" then v else Value(v * 10 + DigitValue(ds[0]), ds[1..])
  }

  lemma {:induction false} ValueMore(v: nat, ds: string, c: char)
    requires Digits(ds) && IsDigit(c)
    ensures Digits(ds + [c]) && Value(v, ds + [c]) == Value(v, ds) * 10 + DigitValue(c)
    decreases |ds|
  {
    if ds == "" {
      assert (ds + [c])[1..] == "";
    } else {
      assert (ds + [c])[1..] == ds[1..] + [c];
      ValueMore(v * 10 + DigitValue(ds[0]), ds[1..], c);
    }
  }

  lemma {:induction false} DecimalValue(x: nat)
    ensures Digits(Decimal(x)) && Value(0, Decimal(x)) == x
  {
    if x < 10 {
      assert Decimal(x)[1..] == "";
    } else {
      DecimalValue(x / 10);
      ValueMore(0, Decimal(x / 10), DigitChar(x % 10));
    }
  }

  /** No leading zero: with DecimalValue, this fixes the digits. */
  lemma {:induction false} DecimalPlain(x: nat)
    ensures Decimal(x) != "" && (Decimal(x)[0] == '0' <==> x == 0)
    ensures x == 0 ==> Decimal(x) == "0"
  {
    if x >= 10 { DecimalPlain(x / 10); }
  }

  lemma {:induction false} DecimalLength(x: nat)
    ensures x <= 9999 ==> |Decimal(x)| <= 4
    ensures x <= 999 ==> |Decimal(x)| <= 3
    ensures x <= 99 ==> |Decimal(x)| <= 2
  {
    if x >= 10 { DecimalLength(x / 10); }
  }

  /** The text has `piece` at index `at`, and no terminator anywhere. */
  predicate HasAt(s: string, at: nat, piece: string) {
    && at + |piece| <= |s|
    && s[at..at + |piece|] == piece
    && forall j :: 0 <= j < |s| ==> s[j] != NUL
  }

  lemma {:induction false} ScanDigits(s: string, at: nat, v: nat, left: nat, dots: bool, ds: string)
    requires Digits(ds) && |ds| <= left && HasAt(s, at, ds)
    ensures ScanNumber(s, at, v, left, dots) == ScanNumber(s, at + |ds|, Value(v, ds), left - |ds|, dots)
    decreases |ds|
  {
    if ds != "" {
      assert At(s, at) == ds[0];
      assert s[at + 1..at + 1 + |ds[1..]|] == ds[1..];
      ScanDigits(s, at + 1, v * 10 + DigitValue(ds[0]), left - 1, dots, ds[1..]);
    }
  }

  lemma ScanDecimal(s: string, at: nat, left: nat, dots: bool, x: nat)
    requires |Decimal(x)| <= left && HasAt(s, at, Decimal(x))
    ensures ScanNumber(s, at, 0, left, dots) == ScanNumber(s, at + |Decimal(x)|, x, left - |Decimal(x)|, dots)
  {
    DecimalValue(x);
    ScanDigits(s, at, 0, left, dots, Decimal(x));
  }

  lemma {:induction false} LevelDigits(s: string, at: nat, v: nat, scanned: nat, ds: string)
    requires Digits(ds) && scanned + |ds| <= 3 && HasAt(s, at, ds)
    ensures LevelAt(s, at, v, scanned) == LevelAt(s, at + |ds|, Value(v, ds), scanned + |ds|)
    decreases |ds|
  {
    if ds != "" {
      assert At(s, at) == ds[0];
      assert s[at + 1..at + 1 + |ds[1..]|] == ds[1..];
      LevelDigits(s, at + 1, v * 10 + DigitValue(ds[0]), scanned + 1, ds[1..]);
    }
  }

  /** Stage letter and level, as printed. */
  function Tail(v: Version): string
    requires StageString(v.stage).Some?
  {
    StageString(v.stage).value + (if v.stage < RELEASE then Decimal(v.level) else "")
  }

  /** A stage with a printed level reads back, for every level up to 255, except a candidate's level 0. */
  lemma ReadTail(s: string, e: nat, v: Version)
    requires StageString(v.stage).Some? && v.level <= 255
    requires HasAt(s, e, Tail(v)) && e + |Tail(v)| == |s|
    ensures FromStage(s, e, v.major, v.minor, v.revision)
         == (if v.stage == RELEASE then Some(v.(level := 0))
             else if v.stage == CANDIDATE && v.level == 0 then None
             else Some(v))
    ensures At(s, e) == if v.stage == RELEASE then NUL else Tail(v)[0]
    ensures v.stage != RELEASE ==> IsReleaseState(At(s, e)) && !IsEnd(At(s, e))
  {
    if v.stage == RELEASE {
      assert Tail(v) == "";
    } else {
      var ds := Decimal(v.level);
      DecimalValue(v.level);
      DecimalLength(v.level);
      var letter := StageString(v.stage).value;
      assert |letter| == 1 && Tail(v) == letter + ds;
      assert s[e] == Tail(v)[0];
      assert s[e + 1..e + 1 + |ds|] == ds;
      assert s[e + 1] == ds[0];
      LevelDigits(s, e + 1, 0, 0, ds);
    }
  }

  /** What reading a printed version gives: release versions lose their level, candidates need one. */
  function Reread(v: Version): Option<Version> {
    if v.stage == RELEASE then Some(v.(level := 0))
    else if v.stage == CANDIDATE && v.level == 0 then None
    else Some(v)
  }

  predicate Printable(v: Version) {
    v.major <= 9999 && v.minor <= 99 && v.revision <= 99 && v.level <= 255 && StageString(v.stage).Some?
  }

  /** A nonzero revision of one or two digits and the tail. */
  lemma ReadRevision(s: string, b: nat, v: Version)
    requires Printable(v)
    requires HasAt(s, b, Decimal(v.revision) + Tail(v)) && b + |Decimal(v.revision) + Tail(v)| == |s|
    ensures FromRevision(s, b, v.major, v.minor) == Reread(v)
  {
    var ds := Decimal(v.revision);
    var e := b + |ds|;
    DecimalLength(v.revision);
    SubPiece(s, b, ds, Tail(v));
    ScanDecimal(s, b, 2, false, v.revision);
    ReadTail(s, e, v);
  }

  lemma SubPiece(s: string, at: nat, a: string, b: string)
    requires HasAt(s, at, a + b)
    ensures HasAt(s, at, a) && HasAt(s, at + |a|, b)
  {
    assert s[at..at + |a|] == (a + b)[..|a|];
    assert s[at + |a|..at + |a| + |b|] == (a + b)[|a|..];
  }

  /** No revision: after two digits of minor version the revision scan meets the tail at once. */
  lemma ReadNoRevision(s: string, e: nat, v: Version)
    requires Printable(v) && v.revision == 0
    requires HasAt(s, e, Tail(v)) && e + |Tail(v)| == |s|
    ensures FromRevision(s, e, v.major, v.minor) == Reread(v)
  {
    ReadTail(s, e, v);
  }

  function AfterMinor(v: Version): string
    requires StageString(v.stage).Some?
  {
    (if v.revision != 0 then "." + Decimal(v.revision) else "") + Tail(v)
  }

  lemma ReadMinor(s: string, a: nat, v: Version)
    requires Printable(v)
    requires HasAt(s, a, Decimal(v.minor) + AfterMinor(v)) && a + |Decimal(v.minor) + AfterMinor(v)| == |s|
    ensures FromMinor(s, a, v.major) == Reread(v)
  {
    var ds := Decimal(v.minor);
    DecimalLength(v.minor);
    SubPiece(s, a, ds, AfterMinor(v));
    ScanDecimal(s, a, 2, true, v.minor);
    if v.revision != 0 {
      ReadDotRevision(s, a, a + |ds|, v);
    } else {
      ReadMinorOnly(s, a, a + |ds|, v);
    }
  }

  /** The scan of the minor version stands behind its digits, at e. */
  predicate MinorScanned(s: string, a: nat, e: nat, v: Version)
    requires |Decimal(v.minor)| <= 2 && InText(s, a) && InText(s, e)
  {
    ScanNumber(s, a, 0, 2, true) == ScanNumber(s, e, v.minor, 2 - |Decimal(v.minor)|, true)
  }

  lemma ReadDotRevision(s: string, a: nat, e: nat, v: Version)
    requires Printable(v) && v.revision != 0 && |Decimal(v.minor)| <= 2 && InText(s, a) && InText(s, e)
    requires MinorScanned(s, a, e, v) && HasAt(s, e, AfterMinor(v)) && e + |AfterMinor(v)| == |s|
    ensures FromMinor(s, a, v.major) == Reread(v)
  {
    assert AfterMinor(v) == "." + (Decimal(v.revision) + Tail(v));
    SubPiece(s, e, ".", Decimal(v.revision) + Tail(v));
    assert At(s, e) == '.';
    ReadRevision(s, e + 1, v);
  }

  lemma ReadMinorOnly(s: string, a: nat, e: nat, v: Version)
    requires Printable(v) && v.revision == 0 && |Decimal(v.minor)| <= 2 && InText(s, a) && InText(s, e)
    requires MinorScanned(s, a, e, v) && HasAt(s, e, AfterMinor(v)) && e + |AfterMinor(v)| == |s|
    ensures FromMinor(s, a, v.major) == Reread(v)
  {
    assert AfterMinor(v) == Tail(v);
    ReadTail(s, e, v);
    if |Decimal(v.minor)| == 2 { ReadNoRevision(s, e, v); }
  }

  /** A leading digit is a number like any other. */
  lemma ParseFromStart(s: string)
    requires IsDigit(At(s, 0))
    ensures ParseVersion(s) == FromMajor(s, ScanNumber(s, 0, 0, 4, true))
  {
    assert ScanNumber(s, 0, 0, 4, true) == ScanNumber(s, 1, DigitValue(At(s, 0)), 3, true);
  }

  lemma SpellingParts(v: Version)
    requires StageString(v.stage).Some?
    ensures Spelling(v) == Decimal(v.major) + ("." + (Decimal(v.minor) + AfterMinor(v)))
  {
  }

  lemma SpellingHasNoNul(v: Version)
    requires StageString(v.stage).Some?
    ensures forall j :: 0 <= j < |Spelling(v)| ==> Spelling(v)[j] != NUL
  {
    DecimalNoNul(v.major);
    DecimalNoNul(v.minor);
    DecimalNoNul(v.revision);
    DecimalNoNul(v.level);
    assert NUL !in Spelling(v);
  }

  lemma DecimalNoNul(x: nat)
    ensures NUL !in Decimal(x)
  {
    DecimalValue(x);
  }

  lemma ReadSpelling(v: Version)
    requires Printable(v)
    ensures ParseVersion(Spelling(v)) == Reread(v)
  {
    SpellingParts(v);
    SpellingHasNoNul(v);
    ReadMajor(Spelling(v), v);
  }

  lemma ReadMajor(s: string, v: Version)
    requires Printable(v) && s == Decimal(v.major) + ("." + (Decimal(v.minor) + AfterMinor(v)))
    requires forall j :: 0 <= j < |s| ==> s[j] != NUL
    ensures ParseVersion(s) == Reread(v)
  {
    var ds, rest := Decimal(v.major), Decimal(v.minor) + AfterMinor(v);
    DecimalLength(v.major);
    assert HasAt(s, 0, ds + ("." + rest));
    SubPiece(s, 0, ds, "." + rest);
    SubPiece(s, |ds|, ".", rest);
    ScanMajor(s, v.major);
    assert At(s, |ds|) == '.';
    DotFollows(s, |ds|, v.major, 4 - |ds|);
    ReadMinor(s, |ds| + 1, v);
  }

  lemma ScanMajor(s: string, major: nat)
    requires |Decimal(major)| <= 4 && HasAt(s, 0, Decimal(major))
    ensures ParseVersion(s) == FromMajor(s, ScanNumber(s, |Decimal(major)|, major, 4 - |Decimal(major)|, true))
  {
    DecimalValue(major);
    assert At(s, 0) == Decimal(major)[0];
    ParseFromStart(s);
    ScanDecimal(s, 0, 4, true, major);
  }

  /** With or without digits to spare, a dot leads on to the minor version. */
  lemma DotFollows(s: string, at: nat, v: nat, left: nat)
    requires InText(s, at) && At(s, at) == '.'
    ensures FromMajor(s, ScanNumber(s, at, v, left, true)) == FromMinor(s, at + 1, v)
  {
  }

  /** Every string that parses: printing its code and parsing again gives the same code. */
  lemma ParsePrintParse(s: string)
    requires ParseCode(s) >= 0
    ensures ParseCode(Print(ParseCode(s))) == ParseCode(s)
  {
    ParsedIsAccepted(s);
    var v := ParseVersion(s).value;
    DecodeEncode(v);
    ReadSpelling(v);
  }

  /** Two strings mean the same version exactly when they have the same canonical spelling. */
  lemma CanonicalSpelling(s: string, s': string)
    requires ParseCode(s) >= 0 && ParseCode(s') >= 0
    ensures ParseCode(s) == ParseCode(s') <==> Print(ParseCode(s)) == Print(ParseCode(s'))
  {
    ParsePrintParse(s);
    ParsePrintParse(s');
  }

  lemma NotAVersion()
    ensures ParseCode(INVALID) == -1 && ParseCode(MISSING) == -1
  {
    assert At(INVALID, 0) == '(' && At(MISSING, 0) == '(';
  }

  /**
   For every integer, printed text reads back as that integer exactly when it is -1 or the code of a version
   the parser can yield.  In particular codes with a stage digit the parser never writes, a released version
   with a level, or a candidate without one do not survive.
   */
  lemma PrintParseIff(n: int)
    ensures ParseCode(Print(n)) == n <==> n == -1 || (n > 0 && Accepted(Decode(n)))
  {
    NotAVersion();
    if n > 0 {
      var v := Decode(n);
      EncodeDecode(n);
      if Printable(v) {
        ReadSpelling(v);
        ParsedIsAccepted(Spelling(v));
      }
    }
  }
}
