/** Which texts are version strings, as a grammar, and what they mean. */
module KextGrammar {
  import opened Base
  import opened KextVersion
  import opened KextRoundTrip

  // ---- the grammar, over a text without white space and terminator

  /** One to three digits, worth at most 255. */
  predicate LevelText(t: string, level: nat) {
    1 <= |t| <= 3 && Digits(t) && level == Value(0, t) <= 255
  }

  /** Nothing for a release; or d, a, b, or f with or without a c, and a level, which is not 0 behind f. */
  ghost predicate StageText(t: string, stage: nat, level: nat) {
    || (t == "" && stage == 9 && level == 0)
    || exists ds :: LevelText(ds, level) && (
         || (t == "d" + ds && stage == 1)
         || (t == "a" + ds && stage == 3)
         || (t == "b" + ds && stage == 5)
         || ((t == "f" + ds || t == "fc" + ds) && stage == 7 && level > 0))
  }

  /** At most two digits, none counting as 0; two digits may be followed by a period. */
  ghost predicate RevisionText(t: string, revision: nat, stage: nat, level: nat) {
    exists ds, rest :: RevisionAs(t, ds, rest, revision, stage, level)
  }

  ghost predicate RevisionAs(t: string, ds: string, rest: string, revision: nat, stage: nat, level: nat) {
    && Number(ds, 2) && revision == Value(0, ds) && StageText(rest, stage, level)
    && (t == ds + rest || (|ds| == 2 && t == ds + ("." + rest)))
  }

  /** At most two digits, then the stage, or a period and a revision. */
  ghost predicate MinorText(t: string, minor: nat, revision: nat, stage: nat, level: nat) {
    exists ds, rest :: MinorAs(t, ds, rest, minor, revision, stage, level)
  }

  ghost predicate MinorAs(t: string, ds: string, rest: string, minor: nat, revision: nat, stage: nat, level: nat) {
    && Number(ds, 2) && minor == Value(0, ds)
    && ((t == ds + rest && StageText(rest, stage, level) && revision == 0)
        || (t == ds + ("." + rest) && RevisionText(rest, revision, stage, level)))
  }

  /** One to four digits, then the stage, or a period and a minor version. */
  ghost predicate VersionText(t: string, v: Version) {
    exists ds, rest :: VersionAs(t, ds, rest, v)
  }

  ghost predicate VersionAs(t: string, ds: string, rest: string, v: Version) {
    && Number(ds, 4) && ds != "" && v.major == Value(0, ds)
    && ((t == ds + rest && StageText(rest, v.stage, v.level) && v.minor == 0 && v.revision == 0)
        || (t == ds + ("." + rest) && MinorText(rest, v.minor, v.revision, v.stage, v.level)))
  }

  predicate Number(ds: string, max: nat) {
    Digits(ds) && |ds| <= max
  }

  // ---- the text the parser reads

  /** The characters from `at` on, up to white space or the terminator. */
  function Tail(s: string, at: nat): (t: string)
    requires InText(s, at)
    ensures forall i :: 0 <= i < |t| ==> !IsEnd(t[i])
    decreases |s| - at
  {
    if IsEnd(At(s, at)) then "" else [At(s, at)] + Tail(s, at + 1)
  }

  lemma {:induction false} TailFrom(s: string, at: nat, k: nat)
    requires InText(s, at) && k <= |Tail(s, at)|
    ensures InText(s, at + k) && Tail(s, at + k) == Tail(s, at)[k..]
    decreases k
  {
    if k > 0 {
      TailFrom(s, at + 1, k - 1);
    }
  }

  /** The leading digits of a text, at most n of them. */
  function Lead(t: string, n: nat): (ds: string)
    ensures Number(ds, n) && |ds| <= |t| && ds == t[..|ds|]
    ensures |ds| < n && |ds| < |t| ==> !IsDigit(t[|ds|])
    decreases n
  {
    if n == 0 || t == "" || !IsDigit(t[0]) then ""
    else
      var rest := Lead(t[1..], n - 1);
      assert t == [t[0]] + t[1..];
      [t[0]] + rest
  }

  lemma {:induction false} LeadUnique(t: string, n: nat, ds: string, rest: string)
    requires Number(ds, n) && t == ds + rest && (rest == "" || !IsDigit(rest[0]))
    ensures Lead(t, n) == ds
    decreases n
  {
    if ds != "" {
      assert t[0] == ds[0] && t[1..] == ds[1..] + rest;
      LeadUnique(t[1..], n - 1, ds[1..], rest);
    }
  }

  /** How the scan of a number ends that reads the digits ds of t. */
  function Ending(t: string, ds: string, at: nat, v: nat, left: nat, dots: bool): Scan
    requires Digits(ds) && |ds| <= |t|
  {
    if |ds| == left then Full(Value(v, ds), at + |ds|)
    else if |ds| == |t| then End(Value(v, ds))
    else if IsReleaseState(t[|ds|]) then State(Value(v, ds), at + |ds|)
    else if t[|ds|] == '.' && dots then Dot(Value(v, ds), at + |ds| + 1)
    else Bad
  }

  lemma {:induction false} ScanMeans(s: string, at: nat, v: nat, left: nat, dots: bool)
    requires InText(s, at)
    ensures var t := Tail(s, at); ScanNumber(s, at, v, left, dots) == Ending(t, Lead(t, left), at, v, left, dots)
    decreases left
  {
    if left > 0 && IsDigit(At(s, at)) {
      var next, m := at + 1, left - 1;
      var v' := v * 10 + DigitValue(At(s, at));
      ScanMeans(s, next, v', m, dots);
      ScanDigit(s, at, next, v, v', left, m, dots);
    } else {
      ScanStops(s, at, v, left, dots);
    }
  }

  lemma {:induction false} ScanDigit(s: string, at: nat, next: nat, v: nat, v': nat, left: nat, m: nat, dots: bool)
    requires InText(s, at) && IsDigit(At(s, at)) && next == at + 1 && left == m + 1
    requires v' == v * 10 + DigitValue(At(s, at))
    requires ScanNumber(s, next, v', m, dots) == Ending(Tail(s, next), Lead(Tail(s, next), m), next, v', m, dots)
    ensures ScanNumber(s, at, v, left, dots) == Ending(Tail(s, at), Lead(Tail(s, at), left), at, v, left, dots)
  {
    assert ScanNumber(s, at, v, left, dots) == ScanNumber(s, next, v', m, dots);
    var t := Tail(s, at);
    assert t[0] == At(s, at) && t[1..] == Tail(s, next);
    LeadNext(t, left, m);
    EndingNext(t, Lead(t[1..], m), at, v, left, dots);
  }

  lemma {:induction false} LeadNext(t: string, n: nat, m: nat)
    requires n == m + 1 && t != "" && IsDigit(t[0])
    ensures Lead(t, n) == [t[0]] + Lead(t[1..], m) && |Lead(t[1..], m)| < |t|
  {
  }

  lemma {:induction false} ScanStops(s: string, at: nat, v: nat, left: nat, dots: bool)
    requires InText(s, at) && (left == 0 || !IsDigit(At(s, at)))
    ensures var t := Tail(s, at);
      Lead(t, left) == "" && ScanNumber(s, at, v, left, dots) == Ending(t, "", at, v, left, dots)
  {
  }

  lemma {:induction false} EndingNext(t: string, ds: string, at: nat, v: nat, left: nat, dots: bool)
    requires left > 0 && t != "" && IsDigit(t[0]) && Digits(ds) && |ds| < |t|
    ensures Digits([t[0]] + ds)
    ensures Ending(t, [t[0]] + ds, at, v, left, dots)
         == Ending(t[1..], ds, at + 1, v * 10 + DigitValue(t[0]), left - 1, dots)
  {
    assert ([t[0]] + ds)[1..] == ds;
  }

  lemma {:induction false} LevelIff(s: string, at: nat, level: nat)
    requires InText(s, at)
    ensures LevelAt(s, at, 0, 0) == Some(level) <==> LevelText(Tail(s, at), level)
  {
    LevelMeans(s, at, 0, 0);
  }

  lemma {:induction false} LevelMeans(s: string, at: nat, v: nat, scanned: nat)
    requires InText(s, at) && scanned <= 3
    requires v < (if scanned == 0 then 1 else if scanned == 1 then 10 else if scanned == 2 then 100 else 1000)
    ensures var t := Tail(s, at);
      LevelAt(s, at, v, scanned) ==
        if 1 <= scanned + |t| <= 3 && Digits(t) && Value(v, t) <= 255 then Some(Value(v, t)) else None
    decreases 3 - scanned
  {
    var t := Tail(s, at);
    if scanned < 3 && t != "" && IsDigit(t[0]) {
      LevelMeans(s, at + 1, v * 10 + DigitValue(t[0]), scanned + 1);
      assert t[1..] == Tail(s, at + 1);
      assert Digits(t) <==> Digits(t[1..]) by {
        assert t == [t[0]] + t[1..];
      }
    }
  }

  // ---- the parser accepts exactly the grammar

  lemma {:induction false} StageIff(s: string, at: nat, major: nat, minor: nat, revision: nat, v: Version)
    requires InText(s, at)
    ensures FromStage(s, at, major, minor, revision) == Some(v)
       <==> v.major == major && v.minor == minor && v.revision == revision && StageText(Tail(s, at), v.stage, v.level)
  {
    var t := Tail(s, at);
    if t != "" {
      TailFrom(s, at, 1);
      LevelIff(s, at + 1, v.level);
      if IsReleaseState(t[0]) {
        LetterIff(t, v.stage, v.level);
        if |t| > 1 && t[0] == 'f' && t[1] == 'c' {
          TailFrom(s, at, 2);
          LevelIff(s, at + 2, v.level);
        }
      } else {
        OnlyLetters(t, v.stage, v.level);
      }
    }
  }

  lemma {:induction false} OnlyLetters(t: string, stage: nat, level: nat)
    requires t != "" && !IsReleaseState(t[0])
    ensures !StageText(t, stage, level)
  {
  }

  /** What may follow the letter, by the letter. */
  lemma {:induction false} LetterIff(t: string, stage: nat, level: nat)
    requires t != "" && IsReleaseState(t[0])
    ensures StageText(t, stage, level) <==>
      || (t[0] == 'd' && stage == 1 && LevelText(t[1..], level))
      || (t[0] == 'a' && stage == 3 && LevelText(t[1..], level))
      || (t[0] == 'b' && stage == 5 && LevelText(t[1..], level))
      || (t[0] == 'f' && stage == 7 && level > 0
          && (LevelText(t[1..], level) || (|t| > 1 && t[1] == 'c' && LevelText(t[2..], level))))
  {
    assert t == [t[0]] + t[1..];
    assert |t| > 1 && t[1] == 'c' ==> t == [t[0]] + "c" + t[2..];
    forall ds: string
      ensures ("d" + ds)[1..] == ds && ("a" + ds)[1..] == ds && ("b" + ds)[1..] == ds && ("f" + ds)[1..] == ds
      ensures ("fc" + ds)[2..] == ds && ("fc" + ds)[1] == 'c'
    {
    }
  }

  /** Behind a period: what the text after it is. */
  ghost predicate Dotted(rest: string) {
    rest != "" && rest[0] == '.'
  }

  lemma {:induction false} DottedRest(t: string, ds: string, rest: string)
    requires t == ds + ("." + rest)
    ensures |ds| < |t| && Dotted(t[|ds|..]) && t[|ds|..][1..] == rest
  {
    assert t[|ds|..] == "." + rest;
  }

  lemma {:induction false} DottedIs(t: string, n: nat)
    requires n <= |t| && Dotted(t[n..])
    ensures t == t[..n] + ("." + t[n..][1..])
  {
    assert t[n..] == "." + t[n..][1..];
    assert t == t[..n] + t[n..];
  }

  /** The digits of a revision are all the leading ones. */
  lemma {:induction false} RevisionByLead(t: string, revision: nat, stage: nat, level: nat)
    ensures var ds := Lead(t, 2);
      var rest := t[|ds|..];
      RevisionText(t, revision, stage, level) <==>
        revision == Value(0, ds)
        && (StageText(rest, stage, level) || (|ds| == 2 && Dotted(rest) && StageText(rest[1..], stage, level)))
  {
    var ds := Lead(t, 2);
    var rest := t[|ds|..];
    assert t == ds + rest;
    if RevisionText(t, revision, stage, level) {
      var ds', rest' :| RevisionAs(t, ds', rest', revision, stage, level);
      RevisionDigits(t, ds', rest', revision, stage, level);
    }
    if StageText(rest, stage, level) {
      assert revision == Value(0, ds) ==> RevisionAs(t, ds, rest, revision, stage, level);
    }
    if |ds| == 2 && Dotted(rest) && StageText(rest[1..], stage, level) {
      DottedIs(t, |ds|);
      assert revision == Value(0, ds) ==> RevisionAs(t, ds, rest[1..], revision, stage, level);
    }
  }

  lemma {:induction false} RevisionDigits(t: string, ds: string, rest: string, revision: nat, stage: nat, level: nat)
    requires RevisionAs(t, ds, rest, revision, stage, level)
    ensures Lead(t, 2) == ds
    ensures t[|ds|..] == rest || (|ds| == 2 && Dotted(t[|ds|..]) && t[|ds|..][1..] == rest)
  {
    if t == ds + rest {
      StageBegins(rest, stage, level);
      LeadUnique(t, 2, ds, rest);
    } else {
      LeadUnique(t, 2, ds, "." + rest);
      DottedRest(t, ds, rest);
    }
  }

  lemma {:induction false} StageBegins(t: string, stage: nat, level: nat)
    requires StageText(t, stage, level)
    ensures t == "" || IsReleaseState(t[0])
  {
    if t != "" && !IsReleaseState(t[0]) {
      OnlyLetters(t, stage, level);
    }
  }

  /** Where a scan of at most n digits of the text from `at` on leads to. */
  lemma {:induction false} AfterDigits(s: string, at: nat, v: nat, n: nat, dots: bool)
    requires InText(s, at)
    ensures var t := Tail(s, at);
      var ds := Lead(t, n);
      && InText(s, at + |ds|) && Tail(s, at + |ds|) == t[|ds|..]
      && (|ds| < |t| ==> At(s, at + |ds|) == t[|ds|] && InText(s, at + |ds| + 1)
                         && Tail(s, at + |ds| + 1) == t[|ds|..][1..])
      && (|ds| == |t| ==> IsEnd(At(s, at + |ds|)))
      && ScanNumber(s, at, v, n, dots) == Ending(t, ds, at, v, n, dots)
  {
    var t := Tail(s, at);
    var ds := Lead(t, n);
    ScanMeans(s, at, v, n, dots);
    TailFrom(s, at, |ds|);
    if |ds| < |t| {
      TailFrom(s, at + |ds|, 1);
    }
  }

  lemma {:induction false} RevisionIff(s: string, at: nat, major: nat, minor: nat, v: Version)
    requires InText(s, at)
    ensures FromRevision(s, at, major, minor) == Some(v)
       <==> v.major == major && v.minor == minor && RevisionText(Tail(s, at), v.revision, v.stage, v.level)
  {
    var t := Tail(s, at);
    var ds := Lead(t, 2);
    var rest := t[|ds|..];
    AfterDigits(s, at, 0, 2, false);
    RevisionByLead(t, v.revision, v.stage, v.level);
    StageIff(s, at + |ds|, major, minor, Value(0, ds), v);
    if rest != "" {
      StageIff(s, at + |ds| + 1, major, minor, Value(0, ds), v);
      if !IsReleaseState(rest[0]) {
        OnlyLetters(rest, v.stage, v.level);
      }
    }
  }

  lemma {:induction false} MinorByLead(t: string, minor: nat, revision: nat, stage: nat, level: nat)
    ensures var ds := Lead(t, 2);
      var rest := t[|ds|..];
      MinorText(t, minor, revision, stage, level) <==>
        minor == Value(0, ds)
        && ((StageText(rest, stage, level) && revision == 0)
            || (Dotted(rest) && RevisionText(rest[1..], revision, stage, level)))
  {
    var ds := Lead(t, 2);
    var rest := t[|ds|..];
    assert t == ds + rest;
    if MinorText(t, minor, revision, stage, level) {
      var ds', rest' :| MinorAs(t, ds', rest', minor, revision, stage, level);
      DigitsFirst(t, 2, ds', rest', stage, level);
    }
    if StageText(rest, stage, level) && revision == 0 {
      assert minor == Value(0, ds) ==> MinorAs(t, ds, rest, minor, revision, stage, level);
    }
    if Dotted(rest) && RevisionText(rest[1..], revision, stage, level) {
      DottedIs(t, |ds|);
      assert minor == Value(0, ds) ==> MinorAs(t, ds, rest[1..], minor, revision, stage, level);
    }
  }

  lemma {:induction false} DigitsFirst(t: string, n: nat, ds: string, rest: string, stage: nat, level: nat)
    requires Number(ds, n) && ((t == ds + rest && StageText(rest, stage, level)) || t == ds + ("." + rest))
    ensures Lead(t, n) == ds
    ensures if t == ds + rest && StageText(rest, stage, level) then t[|ds|..] == rest
            else Dotted(t[|ds|..]) && t[|ds|..][1..] == rest
  {
    if t == ds + rest && StageText(rest, stage, level) {
      StageBegins(rest, stage, level);
      LeadUnique(t, n, ds, rest);
    } else {
      LeadUnique(t, n, ds, "." + rest);
      DottedRest(t, ds, rest);
    }
  }

  lemma {:induction false} MinorIff(s: string, at: nat, major: nat, v: Version)
    requires InText(s, at)
    ensures FromMinor(s, at, major) == Some(v)
       <==> v.major == major && MinorText(Tail(s, at), v.minor, v.revision, v.stage, v.level)
  {
    var t := Tail(s, at);
    var ds := Lead(t, 2);
    var rest := t[|ds|..];
    MinorByLead(t, v.minor, v.revision, v.stage, v.level);
    if |ds| == 2 {
      FullMinor(s, at, major, v, t, ds, rest);
    } else {
      ShortMinor(s, at, major, v, t, ds, rest);
    }
  }

  lemma {:induction false} ShortMinor(s: string, at: nat, major: nat, v: Version, t: string, ds: string, rest: string)
    requires InText(s, at) && t == Tail(s, at) && ds == Lead(t, 2) && |ds| < 2 && rest == t[|ds|..]
    ensures FromMinor(s, at, major) == Some(v) <==>
      && v.major == major && v.minor == Value(0, ds)
      && ((StageText(rest, v.stage, v.level) && v.revision == 0)
          || (Dotted(rest) && RevisionText(rest[1..], v.revision, v.stage, v.level)))
  {
    AfterDigits(s, at, 0, 2, true);
    StageIff(s, at + |ds|, major, Value(0, ds), 0, v);
    if rest != "" {
      RevisionIff(s, at + |ds| + 1, major, Value(0, ds), v);
      if !IsReleaseState(rest[0]) {
        OnlyLetters(rest, v.stage, v.level);
      }
    }
  }

  /** With two digits, what follows is looked at by the check for a third. */
  lemma {:induction false} FullMinor(s: string, at: nat, major: nat, v: Version, t: string, ds: string, rest: string)
    requires InText(s, at) && t == Tail(s, at) && ds == Lead(t, 2) && |ds| == 2 && rest == t[2..]
    ensures FromMinor(s, at, major) == Some(v) <==>
      && v.major == major && v.minor == Value(0, ds)
      && ((StageText(rest, v.stage, v.level) && v.revision == 0)
          || (Dotted(rest) && RevisionText(rest[1..], v.revision, v.stage, v.level)))
  {
    AfterDigits(s, at, 0, 2, true);
    StageIff(s, at + 2, major, Value(0, ds), 0, v);
    if rest == "" || !IsDigit(rest[0]) {
      NoDigitsIsStage(s, at + 2, major, Value(0, ds), v);
    }
    if rest != "" {
      RevisionIff(s, at + 3, major, Value(0, ds), v);
      if !IsReleaseState(rest[0]) {
        OnlyLetters(rest, v.stage, v.level);
      }
    }
  }

  /** Where neither a digit nor a period stands, reading a revision is reading the stage. */
  lemma {:induction false} NoDigitsIsStage(s: string, at: nat, major: nat, minor: nat, v: Version)
    requires InText(s, at) && !IsDigit(At(s, at))
    ensures FromRevision(s, at, major, minor) == Some(v) <==> FromStage(s, at, major, minor, 0) == Some(v)
  {
    StageIff(s, at, major, minor, 0, v);
    var t := Tail(s, at);
    if t != "" && !IsReleaseState(t[0]) {
      OnlyLetters(t, v.stage, v.level);
    }
  }

  lemma {:induction false} VersionByLead(t: string, v: Version)
    ensures var ds := Lead(t, 4);
      var rest := t[|ds|..];
      VersionText(t, v) <==>
        ds != "" && v.major == Value(0, ds)
        && ((StageText(rest, v.stage, v.level) && v.minor == 0 && v.revision == 0)
            || (Dotted(rest) && MinorText(rest[1..], v.minor, v.revision, v.stage, v.level)))
  {
    var ds := Lead(t, 4);
    var rest := t[|ds|..];
    assert t == ds + rest;
    if VersionText(t, v) {
      var ds', rest' :| VersionAs(t, ds', rest', v);
      DigitsFirst(t, 4, ds', rest', v.stage, v.level);
    }
    if ds != "" && v.major == Value(0, ds) {
      if StageText(rest, v.stage, v.level) && v.minor == 0 && v.revision == 0 {
        assert VersionAs(t, ds, rest, v);
      }
      if Dotted(rest) && MinorText(rest[1..], v.minor, v.revision, v.stage, v.level) {
        DottedIs(t, |ds|);
        assert VersionAs(t, ds, rest[1..], v);
      }
    }
  }

  /** Where neither a digit nor a period stands, reading a minor version is reading the stage. */
  lemma {:induction false} NoMinorIsStage(s: string, at: nat, major: nat, v: Version)
    requires InText(s, at) && !IsDigit(At(s, at)) && At(s, at) != '.'
    ensures FromMinor(s, at, major) == Some(v) <==> FromStage(s, at, major, 0, 0) == Some(v)
  {
    StageIff(s, at, major, 0, 0, v);
    var t := Tail(s, at);
    if t != "" && !IsReleaseState(t[0]) {
      OnlyLetters(t, v.stage, v.level);
    }
  }

  /** The parser reads exactly the version strings, up to white space or the terminator, and gives their meaning. */
  lemma {:induction false} ParseIff(s: string, v: Version)
    ensures ParseVersion(s) == Some(v) <==> VersionText(Tail(s, 0), v)
  {
    var t := Tail(s, 0);
    VersionByLead(t, v);
    if t != "" && IsDigit(t[0]) {
      TailFrom(s, 0, 1);
      MajorIff(s, v);
    }
  }

  lemma {:induction false} MajorIff(s: string, v: Version)
    requires IsDigit(At(s, 0)) && InText(s, 1)
    ensures var t := Tail(s, 0);
      var ds := Lead(t, 4);
      var rest := t[|ds|..];
      ParseVersion(s) == Some(v) <==>
        v.major == Value(0, ds)
        && ((StageText(rest, v.stage, v.level) && v.minor == 0 && v.revision == 0)
            || (Dotted(rest) && MinorText(rest[1..], v.minor, v.revision, v.stage, v.level)))
  {
    var t := Tail(s, 0);
    var ds := Lead(t, 4);
    var rest := t[|ds|..];
    AfterDigits(s, 0, 0, 4, true);
    assert ScanNumber(s, 0, 0, 4, true) == ScanNumber(s, 1, DigitValue(At(s, 0)), 3, true);
    StageIff(s, |ds|, Value(0, ds), 0, 0, v);
    if |ds| == 4 && (rest == "" || (!IsDigit(rest[0]) && rest[0] != '.')) {
      NoMinorIsStage(s, 4, Value(0, ds), v);
    }
    if rest != "" {
      MinorIff(s, |ds| + 1, Value(0, ds), v);
      if !IsReleaseState(rest[0]) {
        OnlyLetters(rest, v.stage, v.level);
      }
    }
  }

  /** The code of a text: that of the version it spells, and -1 if it spells none. */
  lemma CodeIff(s: string, v: Version)
    ensures VersionText(Tail(s, 0), v) ==> ParseCode(s) == Encode(v)
    ensures ParseCode(s) == -1 <==> forall u :: !VersionText(Tail(s, 0), u)
  {
    ParseIff(s, v);
    var p := ParseVersion(s);
    if p.Some? {
      ParseIff(s, p.value);
      ParsedIsAccepted(s);
    } else {
      forall u
        ensures !VersionText(Tail(s, 0), u)
      {
        ParseIff(s, u);
      }
    }
  }
}
