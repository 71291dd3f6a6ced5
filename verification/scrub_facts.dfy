/** What the scrubber of src/security/osmo-guard.ts does to particular texts, and
    where its first-occurrence placement of the placeholder departs from redacting
    the captured value. */
module ScrubFacts {
  import opened Wrappers
  import opened Text
  import opened Matcher
  import opened Patterns
  import opened PatternFacts
  import opened OsmoGuard

  // ---------------------------------------------------------------------------
  // When a pattern cannot match: each match contains a character the text lacks.

  lemma ApiKeyIdle(s: string)
    requires |s| < 20 || (':' !in s && '=' !in s)
    ensures NoMatchBetween(ApiKeyAt, s, 0, |s| + 1)
  {
  }

  lemma BearerIdle(s: string)
    requires |s| < 23 || ('b' !in s && 'B' !in s)
    ensures NoMatchBetween(BearerAt, s, 0, |s| + 1)
  {
  }

  lemma IPv4Idle(s: string)
    requires '.' !in s
    ensures NoMatchBetween(IPv4At, s, 0, |s| + 1)
  {
  }

  /** An IPv4 match starts on a digit. */
  lemma IPv4IdleBetween(s: string, lo: nat, hi: nat)
    requires forall j :: lo <= j < hi && j < |s| ==> !IsDigit(s[j])
    ensures NoMatchBetween(IPv4At, s, lo, hi)
  {
  }

  lemma WindowsIdle(s: string)
    requires '\\' !in s
    ensures NoMatchBetween(WindowsPathAt, s, 0, |s| + 1)
  {
  }

  lemma UnixIdle(s: string)
    requires '/' !in s
    ensures NoMatchBetween(UnixHomeAt, s, 0, |s| + 1)
  {
  }

  lemma MeasurementIdle(s: string)
    requires (':' !in s && '=' !in s) || forall k :: 0 <= k < |s| ==> !IsDigitOrDot(s[k])
    ensures NoMatchBetween(MeasurementAt, s, 0, |s| + 1)
  {
  }

  /** A measurement label is a run of word characters and spaces ending at `:` or
      `=`, so a character outside that class at `b` with no separator up to it
      blocks every match that starts from `lo` to `b`. */
  lemma MeasurementBlocked(s: string, lo: nat, b: nat)
    requires lo <= b < |s| && !IsWordOrSpace(s[b]) && s[b] != ':' && s[b] != '='
    requires forall j :: lo < j < b ==> s[j] != ':' && s[j] != '='
    ensures NoMatchBetween(MeasurementAt, s, lo, b + 1)
  {
    forall i | lo <= i <= b ensures MeasurementAt(s, i).None? {
      var k := i + RunLength(s, i, IsWordOrSpace);
      assert k <= b;
      assert k == i || (s[k] != ':' && s[k] != '=');
    }
  }

  /** No measurement starts on a character that cannot begin a label. */
  lemma MeasurementIdleAt(s: string, i: nat)
    requires i < |s| && !IsWordOrSpace(s[i])
    ensures !MatchesAt(MeasurementAt, s, i)
  {
  }

  /** No measurement starts at or after `lo` when nothing after `lo` separates a
      label from a value and `lo` itself cannot begin a label. */
  lemma MeasurementIdleFrom(s: string, lo: nat)
    requires forall j :: lo < j < |s| ==> s[j] != ':' && s[j] != '='
    requires lo < |s| ==> !IsWordOrSpace(s[lo])
    ensures NoMatchBetween(MeasurementAt, s, lo, |s| + 1)
  {
  }

  /** No unit follows a number that ends before a character that cannot begin one. */
  lemma UnitEndStops(s: string, e: nat)
    requires e <= |s|
    requires e < |s| ==>
      (!IsSpace(s[e]) && s[e] != '%' && !SameLetter(s[e], 'g') && !SameLetter(s[e], 'm') && !SameLetter(s[e], 'p'))
    ensures UnitEnd(s, e) == e
  {
    assert RunLength(s, e, IsSpace) == 0;
    assert !HasWordAt(s, e, "ml") by {
      if e + 2 <= |s| {
        assert !SameLetter(s[e + 0], "ml"[0]);
      }
    }
    assert !HasWordAt(s, e, "pts") by {
      if e + 3 <= |s| {
        assert !SameLetter(s[e + 0], "pts"[0]);
      }
    }
  }

  lemma CasIdle(s: string)
    requires '-' !in s
    ensures NoMatchBetween(CasAt, s, 0, |s| + 1)
  {
  }

  /** A CAS number ends with a hyphen, two digits, a hyphen and a digit, with a digit
      before the first hyphen; text where no two hyphens three apart follow a digit
      holds none. */
  lemma CasIdleHyphens(s: string)
    requires forall j :: 1 <= j && j + 5 <= |s| && s[j] == '-' && s[j + 3] == '-' ==> !IsDigit(s[j - 1])
    ensures NoMatchBetween(CasAt, s, 0, |s| + 1)
  {
  }

  lemma BatchIdle(s: string)
    requires '#' !in s
    ensures NoMatchBetween(BatchIdAt, s, 0, |s| + 1)
  {
  }

  // ---------------------------------------------------------------------------
  // An address between words (the IPv4 pattern, and nothing else, fires).

  /** The address `10.0.0.55` is one match of the IPv4 pattern and the only one. */
  lemma ServerAddressPass(s: string, t: string, placement: Placement)
    requires s == "Server at 10.0.0.55 is up" && t == "Server at [REDACTED] is up"
    ensures Pass(IPv4At, s, placement) == t
  {
    ServerAddressFound(s);
    ServerAddressAlone(s);
    PassWhole(IPv4At, s, 10, 19, placement);
    ServerSplice(s, t);
  }

  lemma ServerSplice(s: string, t: string)
    requires s == "Server at 10.0.0.55 is up" && t == "Server at [REDACTED] is up"
    ensures t == s[..10] + Placeholder + s[19..]
  {
    assert s[..10] == "Server at ";
    assert s[19..] == " is up";
  }

  lemma ServerAddressFound(s: string)
    requires s == "Server at 10.0.0.55 is up"
    ensures IPv4At(s, 10) == Some(Hit(19, Some(Group(10, 19))))
  {
    assert s[10..19] == "10" + ['.'] + ("0" + ['.'] + ("0" + ['.'] + "55"));
    assert IsOctet("10") && IsOctet("0") && IsOctet("55");
    IPv4AtOfOctets(s, 10, 19, "10", "0", "0", "55");
  }

  lemma ServerAddressAlone(s: string)
    requires s == "Server at 10.0.0.55 is up"
    ensures NoMatchBetween(IPv4At, s, 0, 10)
    ensures NoMatchBetween(IPv4At, s, 19, |s| + 1)
  {
    assert s[..10] == "Server at ";
    forall j | 0 <= j < 10 ensures !IsDigit(s[j]) {
      assert s[j] in s[..10];
    }
    IPv4IdleBetween(s, 0, 10);
    assert s[19..] == " is up";
    forall j | 19 <= j < |s| ensures !IsDigit(s[j]) {
      assert s[j] in s[19..];
    }
    IPv4IdleBetween(s, 19, |s| + 1);
  }

  /** `Server at 10.0.0.55 is up` becomes `Server at [REDACTED] is up`: the address is
      redacted and the words around it are kept. */
  lemma ServerAddressRedacted(s: string, t: string, placement: Placement)
    requires s == "Server at 10.0.0.55 is up" && t == "Server at [REDACTED] is up"
    ensures ScrubWith(Registry, s, placement) == t
  {
    ServerLineChars(s, t);
    ApiKeyIdle(s);
    BearerIdle(s);
    ServerAddressPass(s, t, placement);
    WindowsIdle(t);
    UnixIdle(t);
    MeasurementIdle(t);
    CasIdle(t);
    BatchIdle(t);
    ScrubSteps(s, placement);
  }

  lemma ServerLineChars(s: string, t: string)
    requires s == "Server at 10.0.0.55 is up" && t == "Server at [REDACTED] is up"
    ensures forall k :: 0 <= k < |s| ==> s[k] != ':' && s[k] != '=' && s[k] != 'b' && s[k] != 'B'
    ensures forall k :: 0 <= k < |t| ==>
      && t[k] != '\\' && t[k] != '/' && t[k] != ':' && t[k] != '=' && t[k] != '-' && t[k] != '#'
  {
  }

  /** The same, for the scrubber as written. */
  lemma ServerExample()
    ensures ScrubOutput("Server at 10.0.0.55 is up") == "Server at [REDACTED] is up"
  {
    ServerAddressRedacted("Server at 10.0.0.55 is up", "Server at [REDACTED] is up", FirstOccurrence);
  }

  // ---------------------------------------------------------------------------
  // Measurements: only the measurement pattern fires.

  /** Short text without dot or slashes in which the measurement pass produces `t`,
      and `t` holds no CAS number or batch identifier, is scrubbed to `t`. */
  lemma MeasurementOnly(s: string, t: string, placement: Placement)
    requires |s| < 20
    requires forall k :: 0 <= k < |s| ==> s[k] != '.' && s[k] != '\\' && s[k] != '/'
    requires Pass(MeasurementAt, s, placement) == t
    requires NoMatchBetween(CasAt, t, 0, |t| + 1) && NoMatchBetween(BatchIdAt, t, 0, |t| + 1)
    ensures ScrubWith(Registry, s, placement) == t
  {
    ApiKeyIdle(s);
    BearerIdle(s);
    IPv4Idle(s);
    WindowsIdle(s);
    UnixIdle(s);
    ScrubSteps(s, placement);
  }

  /** A label that contains its own value: in `step 1: 1` the label `step 1` is
      followed by the value `1`. */
  lemma StepFound(s: string)
    requires s == "step 1: 1"
    ensures MeasurementAt(s, 0) == Some(Hit(9, Some(Group(8, 9))))
  {
    assert RunLength(s, 0, IsWordOrSpace) == 6 by { RunLengthExact(s, 0, 6, IsWordOrSpace); }
    assert RunLength(s, 7, IsSpace) == 1 by { RunLengthExact(s, 7, 1, IsSpace); }
    assert RunLength(s, 8, IsDigitOrDot) == 1 by { RunLengthExact(s, 8, 1, IsDigitOrDot); }
    UnitEndStops(s, 9);
  }

  /** The value `1` occurs in the match first inside the label, five characters in. */
  lemma StepFirstOccurrence(s: string)
    requires s == "step 1: 1"
    ensures OccursAt(s[0..9], s[8..9], 5)
    ensures forall j :: 0 <= j < 5 ==> !OccursAt(s[0..9], s[8..9], j)
  {
    assert s[0..9] == s;
    assert s[8..9] == "1";
    forall j | 0 <= j < 5 ensures !OccursAt(s, "1", j) {
      assert s[j..j + 1][0] == s[j];
    }
  }

  lemma StepSplice(s: string, t: string, u: string)
    requires s == "step 1: 1" && t == "step [REDACTED]: 1" && u == "step 1: [REDACTED]"
    ensures t == s[..5] + Placeholder + s[6..]
    ensures u == s[..8] + Placeholder + s[9..]
  {
    assert s[..5] == "step ";
    assert s[6..] == ": 1";
    assert s[..8] == "step 1: ";
    assert s[9..] == "";
  }

  /** The measurement pass over `step 1: 1`: as written the placeholder lands on the
      `1` of the label and the value stays; over the group it lands on the value. */
  lemma StepPass(s: string, t: string, u: string)
    requires s == "step 1: 1" && t == "step [REDACTED]: 1" && u == "step 1: [REDACTED]"
    ensures Pass(MeasurementAt, s, FirstOccurrence) == t
    ensures Pass(MeasurementAt, s, AtGroup) == u
  {
    StepFound(s);
    assert NoMatchBetween(MeasurementAt, s, 9, 10);
    StepFirstOccurrence(s);
    var f := Found(0, Hit(9, Some(Group(8, 9))));
    OnlyMatch(MeasurementAt, s, f);
    PassSingleFirstOccurrence(MeasurementAt, s, f, Group(8, 9), 5);
    PassSingleAtGroup(MeasurementAt, s, f, Group(8, 9));
    StepSplice(s, t, u);
  }

  lemma StepChars(s: string, t: string, u: string)
    requires s == "step 1: 1" && t == "step [REDACTED]: 1" && u == "step 1: [REDACTED]"
    ensures forall k :: 0 <= k < |s| ==> s[k] != '.' && s[k] != '\\' && s[k] != '/'
    ensures forall k :: 0 <= k < |t| ==> t[k] != '-' && t[k] != '#'
    ensures forall k :: 0 <= k < |u| ==> u[k] != '-' && u[k] != '#'
  {
  }

  /** The scrubber as written turns `step 1: 1` into `step [REDACTED]: 1`, so the
      measured value is still there; placing the placeholder over the capture group
      gives `step 1: [REDACTED]`. */
  lemma MeasurementValueLeaks()
    ensures ScrubOutput("step 1: 1") == "step [REDACTED]: 1"
    ensures ScrubIntended("step 1: 1") == "step 1: [REDACTED]"
  {
    var s, t, u := "step 1: 1", "step [REDACTED]: 1", "step 1: [REDACTED]";
    StepChars(s, t, u);
    StepPass(s, t, u);
    CasIdle(t);
    BatchIdle(t);
    CasIdle(u);
    BatchIdle(u);
    MeasurementOnly(s, t, FirstOccurrence);
    MeasurementOnly(s, u, AtGroup);
  }

  // ---------------------------------------------------------------------------
  // Scrubbing twice: `1: 1: 1`.

  /** The label `1` with the value `1` at the start of `1: 1: 1`, and nothing after it. */
  lemma RepeatFound(a: string)
    requires a == "1: 1: 1"
    ensures MeasurementAt(a, 0) == Some(Hit(4, Some(Group(3, 4))))
  {
    assert RunLength(a, 0, IsWordOrSpace) == 1 by { RunLengthExact(a, 0, 1, IsWordOrSpace); }
    assert RunLength(a, 2, IsSpace) == 1 by { RunLengthExact(a, 2, 1, IsSpace); }
    assert RunLength(a, 3, IsDigitOrDot) == 1 by { RunLengthExact(a, 3, 1, IsDigitOrDot); }
    UnitEndStops(a, 4);
  }

  lemma RepeatAlone(a: string)
    requires a == "1: 1: 1"
    ensures NoMatchBetween(MeasurementAt, a, 4, |a| + 1)
  {
    MeasurementIdleFrom(a, 4);
  }

  lemma RepeatSplice(a: string, b: string, b': string)
    requires a == "1: 1: 1" && b == "[REDACTED]: 1: 1" && b' == "1: [REDACTED]: 1"
    ensures b == a[..0] + Placeholder + a[1..]
    ensures b' == a[..3] + Placeholder + a[4..]
  {
    assert a[1..] == ": 1: 1";
    assert a[..3] == "1: ";
    assert a[4..] == ": 1";
  }

  /** One measurement pass over `1: 1: 1`. */
  lemma RepeatPass(a: string, b: string, b': string)
    requires a == "1: 1: 1" && b == "[REDACTED]: 1: 1" && b' == "1: [REDACTED]: 1"
    ensures Pass(MeasurementAt, a, FirstOccurrence) == b
    ensures Pass(MeasurementAt, a, AtGroup) == b'
  {
    RepeatFound(a);
    RepeatAlone(a);
    var f := Found(0, Hit(4, Some(Group(3, 4))));
    assert OccursAt(a[0..4], a[3..4], 0);
    OnlyMatch(MeasurementAt, a, f);
    PassSingleFirstOccurrence(MeasurementAt, a, f, Group(3, 4), 0);
    PassSingleAtGroup(MeasurementAt, a, f, Group(3, 4));
    RepeatSplice(a, b, b');
  }

  /** In `[REDACTED]: 1: 1` the first measurement starts at the space after the
      placeholder's colon: label ` 1`, value `1`. */
  lemma AgainFound(b: string)
    requires b == "[REDACTED]: 1: 1"
    ensures MeasurementAt(b, 11) == Some(Hit(16, Some(Group(15, 16))))
  {
    assert RunLength(b, 11, IsWordOrSpace) == 2 by { RunLengthExact(b, 11, 2, IsWordOrSpace); }
    assert RunLength(b, 14, IsSpace) == 1 by { RunLengthExact(b, 14, 1, IsSpace); }
    assert RunLength(b, 15, IsDigitOrDot) == 1 by { RunLengthExact(b, 15, 1, IsDigitOrDot); }
    UnitEndStops(b, 16);
  }

  lemma AgainAlone(b: string)
    requires b == "[REDACTED]: 1: 1"
    ensures NoMatchBetween(MeasurementAt, b, 0, 11)
    ensures NoMatchBetween(MeasurementAt, b, 16, |b| + 1)
  {
    MeasurementBlocked(b, 0, 9);
    MeasurementIdleAt(b, 10);
    MeasurementIdleFrom(b, 16);
  }

  lemma AgainSplice(b: string, c: string)
    requires b == "[REDACTED]: 1: 1" && c == "[REDACTED]: [REDACTED]: 1"
    ensures c == b[..12] + Placeholder + b[13..]
  {
    assert b[..12] == "[REDACTED]: ";
    assert b[13..] == ": 1";
  }

  /** The measurement pass as written over its own output: the label's `1` goes. */
  lemma AgainPass(b: string, c: string)
    requires b == "[REDACTED]: 1: 1" && c == "[REDACTED]: [REDACTED]: 1"
    ensures Pass(MeasurementAt, b, FirstOccurrence) == c
  {
    AgainFound(b);
    AgainAlone(b);
    var f := Found(11, Hit(16, Some(Group(15, 16))));
    assert OccursAt(b[11..16], b[15..16], 1) by {
      SliceOfSlice(b, 11, 16, 1, 2);
      assert b[12] == b[15];
      assert b[12..13] == [b[12]] && b[15..16] == [b[15]];
    }
    assert !OccursAt(b[11..16], b[15..16], 0) by {
      assert b[11..16][0] == ' ';
    }
    OnlyMatch(MeasurementAt, b, f);
    PassSingleFirstOccurrence(MeasurementAt, b, f, Group(15, 16), 1);
    AgainSplice(b, c);
  }

  /** `1: [REDACTED]: 1` holds no measurement: after each label comes the
      placeholder or the end of the text. */
  lemma StableIdle(b': string)
    requires b' == "1: [REDACTED]: 1"
    ensures NoMatchBetween(MeasurementAt, b', 0, |b'| + 1)
  {
    StableStart(b');
    MeasurementIdleAt(b', 1);
    MeasurementBlocked(b', 2, 3);
    MeasurementBlocked(b', 3, 12);
    MeasurementIdleFrom(b', 13);
  }

  /** The label `1` at the start of `1: [REDACTED]: 1` is followed by the placeholder,
      not by a value. */
  lemma StableStart(b': string)
    requires b' == "1: [REDACTED]: 1"
    ensures !MatchesAt(MeasurementAt, b', 0)
  {
    assert RunLength(b', 0, IsWordOrSpace) == 1 by { RunLengthExact(b', 0, 1, IsWordOrSpace); }
    assert RunLength(b', 2, IsSpace) == 1 by { RunLengthExact(b', 2, 1, IsSpace); }
    assert RunLength(b', 3, IsDigitOrDot) == 0;
  }

  lemma RepeatChars(a: string, b: string, b': string, c: string)
    requires a == "1: 1: 1" && b == "[REDACTED]: 1: 1" && b' == "1: [REDACTED]: 1"
    requires c == "[REDACTED]: [REDACTED]: 1"
    ensures forall k :: 0 <= k < |a| ==> a[k] != '.' && a[k] != '\\' && a[k] != '/'
    ensures forall k :: 0 <= k < |b| ==> b[k] != '.' && b[k] != '\\' && b[k] != '/' && b[k] != '-' && b[k] != '#'
    ensures forall k :: 0 <= k < |b'| ==> b'[k] != '.' && b'[k] != '\\' && b'[k] != '/' && b'[k] != '-' && b'[k] != '#'
    ensures forall k :: 0 <= k < |c| ==> c[k] != '-' && c[k] != '#'
  {
  }

  /** The scrubber as written is not idempotent: scrubbing `1: 1: 1` once gives
      `[REDACTED]: 1: 1`, and scrubbing that again redacts one more `1`. */
  lemma ScrubOutputNotIdempotent()
    ensures ScrubOutput("1: 1: 1") == "[REDACTED]: 1: 1"
    ensures ScrubOutput("[REDACTED]: 1: 1") == "[REDACTED]: [REDACTED]: 1"
    ensures ScrubOutput(ScrubOutput("1: 1: 1")) != ScrubOutput("1: 1: 1")
  {
    var a, b, b', c := "1: 1: 1", "[REDACTED]: 1: 1", "1: [REDACTED]: 1", "[REDACTED]: [REDACTED]: 1";
    RepeatChars(a, b, b', c);
    RepeatPass(a, b, b');
    AgainPass(b, c);
    CasIdle(b);
    BatchIdle(b);
    CasIdle(c);
    BatchIdle(c);
    MeasurementOnly(a, b, FirstOccurrence);
    MeasurementOnly(b, c, FirstOccurrence);
    assert |b| != |c|;
  }

  /** With the placeholder over the capture group, the same text is scrubbed to
      `1: [REDACTED]: 1`, which a second scrub leaves as it is. */
  lemma ScrubIntendedSettles()
    ensures ScrubIntended("1: 1: 1") == "1: [REDACTED]: 1"
    ensures ScrubIntended(ScrubIntended("1: 1: 1")) == ScrubIntended("1: 1: 1")
  {
    var a, b, b', c := "1: 1: 1", "[REDACTED]: 1: 1", "1: [REDACTED]: 1", "[REDACTED]: [REDACTED]: 1";
    RepeatChars(a, b, b', c);
    RepeatPass(a, b, b');
    StableIdle(b');
    CasIdle(b');
    BatchIdle(b');
    MeasurementOnly(a, b', AtGroup);
    MeasurementOnly(b', b', AtGroup);
  }

  // ---------------------------------------------------------------------------
  // A unit glued to a drive letter: the Windows pattern runs before the
  // measurement pattern, so neither placement settles in one scrub.

  /** The Windows pattern finds nothing in `a: 5gC:\x`: the drive letter follows
      the word character `g`, so it does not start at a word boundary. */
  lemma GluedDriveIdle(s: string)
    requires s == "a: 5gC:\\x"
    ensures NoMatchBetween(WindowsPathAt, s, 0, |s| + 1)
  {
    forall j | 0 <= j < |s| + 1 ensures !MatchesAt(WindowsPathAt, s, j) {
      if j == 5 {
        assert !IsBoundary(s, 5);
      } else if j + 2 < |s| {
        assert s[j + 1] != ':' || s[j + 2] != '\\';
      }
    }
  }

  /** A `g` straight after the number is the unit grams. */
  lemma UnitEndGrams(s: string, e: nat)
    requires e < |s| && SameLetter(s[e], 'g')
    ensures UnitEnd(s, e) == e + 1
  {
    assert RunLength(s, e, IsSpace) == 0;
  }

  lemma GluedRuns(s: string)
    requires s == "a: 5gC:\\x"
    ensures |s| == 9 && s[1] == ':' && SameLetter(s[4], 'g')
    ensures RunLength(s, 0, IsWordOrSpace) == 1
    ensures RunLength(s, 2, IsSpace) == 1
    ensures RunLength(s, 3, IsDigitOrDot) == 1
  {
    RunLengthExact(s, 0, 1, IsWordOrSpace);
    RunLengthExact(s, 2, 1, IsSpace);
    RunLengthExact(s, 3, 1, IsDigitOrDot);
  }

  /** The measurement pattern takes `5g` after the label `a`. */
  lemma GluedMeasurement(s: string)
    requires s == "a: 5gC:\\x"
    ensures MeasurementAt(s, 0) == Some(Hit(5, Some(Group(3, 5))))
  {
    GluedRuns(s);
    UnitEndGrams(s, 4);
  }

  /** After `5g` no label is followed by a number. */
  lemma GluedMeasurementRest(s: string)
    requires s == "a: 5gC:\\x"
    ensures NoMatchBetween(MeasurementAt, s, 5, |s| + 1)
  {
    assert RunLength(s, 5, IsWordOrSpace) == 1 by { RunLengthExact(s, 5, 1, IsWordOrSpace); }
    assert RunLength(s, 7, IsSpace) == 0;
    assert RunLength(s, 7, IsDigitOrDot) == 0;
    assert MeasurementAt(s, 5).None?;
    MeasurementIdleAt(s, 6);
    MeasurementIdleAt(s, 7);
    assert RunLength(s, 8, IsWordOrSpace) == 1 by { RunLengthExact(s, 8, 1, IsWordOrSpace); }
    assert MeasurementAt(s, 8).None?;
    assert MeasurementAt(s, 9).None?;
  }

  /** `5g` first occurs in the match at its capture group, three characters in. */
  lemma GluedFirstOccurrence(s: string)
    requires s == "a: 5gC:\\x"
    ensures OccursAt(s[0..5], s[3..5], 3)
    ensures forall j :: 0 <= j < 3 ==> !OccursAt(s[0..5], s[3..5], j)
  {
    var m, c := s[0..5], s[3..5];
    assert c[0] == '5';
    forall j | 0 <= j < 3 ensures !OccursAt(m, c, j) {
      assert m[j] != '5';
      assert m[j..j + |c|][0] == m[j];
    }
    assert m[3..5] == c;
  }

  /** Both placements put the placeholder over `5g`. */
  lemma GluedMeasurementPass(s: string, t: string, placement: Placement)
    requires s == "a: 5gC:\\x" && t == "a: [REDACTED]C:\\x"
    ensures Pass(MeasurementAt, s, placement) == t
  {
    GluedMeasurement(s);
    GluedMeasurementRest(s);
    GluedFirstOccurrence(s);
    var f := Found(0, Hit(5, Some(Group(3, 5))));
    OnlyMatch(MeasurementAt, s, f);
    PassSingleFirstOccurrence(MeasurementAt, s, f, Group(3, 5), 3);
    PassSingleAtGroup(MeasurementAt, s, f, Group(3, 5));
    GluedSplice(s, t);
  }

  lemma GluedSplice(s: string, t: string)
    requires s == "a: 5gC:\\x" && t == "a: [REDACTED]C:\\x"
    ensures t == s[..0 + 3] + Placeholder + s[0 + 3 + (5 - 3)..]
    ensures t == s[..3] + Placeholder + s[5..]
  {
    assert s[..3] == "a: " && s[5..] == "C:\\x";
  }

  lemma GluedChars(s: string, t: string)
    requires s == "a: 5gC:\\x" && t == "a: [REDACTED]C:\\x"
    ensures '.' !in s && '/' !in s
    ensures '-' !in t && '#' !in t
  {
  }

  /** The first scrub redacts the measurement only. */
  lemma GluedFirstScrub(s: string, t: string, placement: Placement)
    requires s == "a: 5gC:\\x" && t == "a: [REDACTED]C:\\x"
    ensures ScrubWith(Registry, s, placement) == t
  {
    GluedChars(s, t);
    ApiKeyIdle(s);
    BearerIdle(s);
    IPv4Idle(s);
    GluedDriveIdle(s);
    UnixIdle(s);
    GluedMeasurementPass(s, t, placement);
    CasIdle(t);
    BatchIdle(t);
    ScrubSteps(s, placement);
  }

  /** After the redaction `C:\x` follows `]`, so it now starts at a word boundary
      and is one Windows path. */
  lemma FreedDrive(t: string)
    requires t == "a: [REDACTED]C:\\x"
    ensures IsFound(WindowsPathAt, t, Found(13, Hit(17, Some(Group(13, 17)))))
    ensures NoMatchBetween(WindowsPathAt, t, 0, 13)
    ensures NoMatchBetween(WindowsPathAt, t, 17, |t| + 1)
  {
    assert IsBoundary(t, 13);
    assert RunLength(t, 16, IsWindowsPathChar) == 1 by { RunLengthExact(t, 16, 1, IsWindowsPathChar); }
    forall j | 0 <= j < 13 ensures !MatchesAt(WindowsPathAt, t, j) {
      assert t[j + 1] != ':' || t[j + 2] != '\\';
    }
  }

  lemma FreedDriveChars(t: string, u: string)
    requires t == "a: [REDACTED]C:\\x" && u == "a: [REDACTED][REDACTED]"
    ensures forall k :: 0 <= k < |t| ==> t[k] != '.'
    ensures forall k :: 0 <= k < |u| ==> u[k] != '/' && u[k] != '-' && u[k] != '#' && !IsDigitOrDot(u[k])
  {
  }

  lemma FreedDrivePass(t: string, u: string, placement: Placement)
    requires t == "a: [REDACTED]C:\\x" && u == "a: [REDACTED][REDACTED]"
    ensures Pass(WindowsPathAt, t, placement) == u
  {
    FreedDrive(t);
    PassWhole(WindowsPathAt, t, 13, 17, placement);
    FreedDriveSplice(t, u);
  }

  lemma FreedDriveSplice(t: string, u: string)
    requires t == "a: [REDACTED]C:\\x" && u == "a: [REDACTED][REDACTED]"
    ensures u == t[..13] + Placeholder + t[17..]
  {
    assert t[..13] == "a: [REDACTED]";
    assert t[17..] == "";
  }

  /** The second scrub redacts the path the first one exposed. */
  lemma GluedSecondScrub(t: string, u: string, placement: Placement)
    requires t == "a: [REDACTED]C:\\x" && u == "a: [REDACTED][REDACTED]"
    ensures ScrubWith(Registry, t, placement) == u
  {
    FreedDriveChars(t, u);
    ApiKeyIdle(t);
    BearerIdle(t);
    IPv4Idle(t);
    FreedDrivePass(t, u, placement);
    UnixIdle(u);
    MeasurementIdle(u);
    CasIdle(u);
    BatchIdle(u);
    ScrubSteps(t, placement);
  }

  /** Neither placement makes the scrubber idempotent: scrubbing `a: 5gC:\x` gives
      `a: [REDACTED]C:\x`, and scrubbing that again redacts `C:\x`, because the
      Windows pattern runs before the measurement pattern that exposed it. */
  lemma ScrubNotIdempotentEither()
    ensures ScrubIntended("a: 5gC:\\x") == "a: [REDACTED]C:\\x"
    ensures ScrubIntended("a: [REDACTED]C:\\x") == "a: [REDACTED][REDACTED]"
    ensures ScrubIntended(ScrubIntended("a: 5gC:\\x")) != ScrubIntended("a: 5gC:\\x")
    ensures ScrubOutput(ScrubOutput("a: 5gC:\\x")) != ScrubOutput("a: 5gC:\\x")
  {
    var s, t, u := "a: 5gC:\\x", "a: [REDACTED]C:\\x", "a: [REDACTED][REDACTED]";
    GluedFirstScrub(s, t, AtGroup);
    GluedSecondScrub(t, u, AtGroup);
    GluedFirstScrub(s, t, FirstOccurrence);
    GluedSecondScrub(t, u, FirstOccurrence);
    assert |t| != |u|;
  }

  // ---------------------------------------------------------------------------
  // A CAS number after a label: the measurement pattern runs first.

  lemma CasLabelFound(s: string)
    requires s == "CAS: 123-45-6"
    ensures MeasurementAt(s, 0) == Some(Hit(8, Some(Group(5, 8))))
  {
    CasLabelRuns(s);
  }

  lemma CasLabelRuns(s: string)
    requires s == "CAS: 123-45-6"
    ensures RunLength(s, 0, IsWordOrSpace) == 3 && s[3] == ':'
    ensures RunLength(s, 4, IsSpace) == 1
    ensures RunLength(s, 5, IsDigitOrDot) == 3
    ensures UnitEnd(s, 8) == 8
  {
    CasLabelRun(s);
    CasValueRun(s);
  }

  lemma CasLabelRun(s: string)
    requires s == "CAS: 123-45-6"
    ensures RunLength(s, 0, IsWordOrSpace) == 3 && s[3] == ':'
    ensures RunLength(s, 4, IsSpace) == 1
  {
    RunLengthExact(s, 0, 3, IsWordOrSpace);
    RunLengthExact(s, 4, 1, IsSpace);
  }

  lemma CasValueRun(s: string)
    requires s == "CAS: 123-45-6"
    ensures RunLength(s, 5, IsDigitOrDot) == 3
    ensures UnitEnd(s, 8) == 8
  {
    RunLengthExact(s, 5, 3, IsDigitOrDot);
    UnitEndStops(s, 8);
  }

  lemma CasLabelAlone(s: string)
    requires s == "CAS: 123-45-6"
    ensures NoMatchBetween(MeasurementAt, s, 8, |s| + 1)
    ensures forall j :: 0 <= j < 5 ==> !OccursAt(s[0..8], s[5..8], j)
  {
    MeasurementIdleFrom(s, 8);
    forall j | 0 <= j < 5 ensures !OccursAt(s[0..8], s[5..8], j) {
      assert s[0..8][j..j + 3][0] == s[j] != s[5];
    }
  }

  /** The measurement pass over `CAS: 123-45-6` takes `123` as the value of the label
      `CAS`; both placements give `CAS: [REDACTED]-45-6`. */
  lemma CasLabelPass(s: string, t: string, placement: Placement)
    requires s == "CAS: 123-45-6" && t == "CAS: [REDACTED]-45-6"
    ensures Pass(MeasurementAt, s, placement) == t
  {
    CasLabelFound(s);
    CasLabelAlone(s);
    var f := Found(0, Hit(8, Some(Group(5, 8))));
    match placement
    case FirstOccurrence =>
      assert OccursAt(s[0..8], s[5..8], 5);
      OnlyMatch(MeasurementAt, s, f);
      PassSingleFirstOccurrence(MeasurementAt, s, f, Group(5, 8), 5);
      CasLabelSplice(s, t);
    case AtGroup =>
      PassSingleAtGroup(MeasurementAt, s, f, Group(5, 8));
      CasLabelSplice(s, t);
  }

  lemma CasLabelSplice(s: string, t: string)
    requires s == "CAS: 123-45-6" && t == "CAS: [REDACTED]-45-6"
    ensures t == s[..5] + Placeholder + s[8..]
  {
    assert s[..5] == "CAS: ";
    assert s[8..] == "-45-6";
  }

  lemma CasLabelChars(s: string, t: string)
    requires s == "CAS: 123-45-6" && t == "CAS: [REDACTED]-45-6"
    ensures forall k :: 0 <= k < |s| ==> s[k] != '.' && s[k] != '\\' && s[k] != '/'
    ensures forall k :: 0 <= k < |t| ==> t[k] != '#'
    ensures forall k :: 0 <= k < |t| && k != 15 && k != 18 ==> t[k] != '-'
    ensures !IsDigit(t[14])
  {
  }

  /** What is left of the CAS number is not one: its hyphens follow the placeholder. */
  lemma CasRemainderIdle(t: string)
    requires t == "CAS: [REDACTED]-45-6"
    ensures NoMatchBetween(CasAt, t, 0, |t| + 1)
  {
    CasLabelChars("CAS: 123-45-6", t);
    forall j | 1 <= j && j + 5 <= |t| && t[j] == '-' && t[j + 3] == '-' ensures !IsDigit(t[j - 1]) {
      assert j == 15;
    }
    CasIdleHyphens(t);
  }

  /** `CAS: 123-45-6` is scrubbed to `CAS: [REDACTED]-45-6`: the measurement pattern
      takes the digits before the first hyphen, and the CAS pattern, which runs after
      it, no longer finds a number. */
  lemma CasAfterMeasurement()
    ensures ScrubOutput("CAS: 123-45-6") == "CAS: [REDACTED]-45-6"
    ensures ScrubIntended("CAS: 123-45-6") == "CAS: [REDACTED]-45-6"
  {
    var s, t := "CAS: 123-45-6", "CAS: [REDACTED]-45-6";
    CasLabelChars(s, t);
    CasLabelPass(s, t, FirstOccurrence);
    CasLabelPass(s, t, AtGroup);
    CasRemainderIdle(t);
    BatchIdle(t);
    MeasurementOnly(s, t, FirstOccurrence);
    MeasurementOnly(s, t, AtGroup);
  }
}
