/** The eight redaction patterns of the guard, each written out as the anchored
    matcher its regular expression denotes.

    Every pattern is built from runs over character classes that are disjoint
    from what follows them, so backtracking never changes the outcome: at each
    position the greedy reading is the only one that can succeed, and these
    functions compute it directly. */
module Patterns {
  import opened Wrappers
  import opened Text
  import opened Matcher

  /** ASCII letters, digits and `.-_/+=`: the secret alphabet of the key and bearer patterns. */
  predicate IsSecretChar(c: char) {
    IsAsciiLetter(c) || IsDigit(c) || c == '.' || c == '-' || c == '_' || c == '/' || c == '+' || c == '='
  }

  /** A space or a single or double quote. */
  predicate IsSpaceOrQuote(c: char) {
    IsSpace(c) || c == '"' || c == '\''
  }

  /** Word characters, spaces, backslash, dot, underscore and hyphen: the tail of a Windows path. */
  predicate IsWindowsPathChar(c: char) {
    IsWord(c) || IsSpace(c) || c == '\\' || c == '.' || c == '_' || c == '-'
  }

  /** Word characters, dot and hyphen: the user-name part of a home directory. */
  predicate IsHomeNameChar(c: char) {
    IsWord(c) || c == '.' || c == '-'
  }

  /** A word character or a space: what a measurement label is made of. */
  predicate IsWordOrSpace(c: char) {
    IsWord(c) || IsSpace(c)
  }

  /** A digit or a dot: what a measurement value is made of. */
  predicate IsDigitOrDot(c: char) {
    IsDigit(c) || c == '.'
  }

  /** Word characters and hyphen: a batch identifier. */
  predicate IsIdChar(c: char) {
    IsWord(c) || c == '-'
  }

  // ---------------------------------------------------------------------------
  // Labelled secrets (src/security/osmo-guard.ts line 43, global, ASCII case
  // ignored): a secret label, `=` or `:`, at most one space or quote, then the
  // captured secret of sixteen or more secret characters, then at most one
  // space or quote.

  const SecretLabels: seq<string> :=
    ["key", "token", "password", "secret", "pwd", "auth", "credential", "apikey", "api_key", "api-key"]

  /** Length of the first label of `labels` found at `i`, ignoring ASCII case. */
  function LabelAt(s: string, i: nat, labels: seq<string>): (r: Option<nat>)
    ensures r.Some? ==> exists k :: 0 <= k < |labels| && |labels[k]| == r.value && HasWordAt(s, i, labels[k])
    ensures r.None? ==> forall k :: 0 <= k < |labels| ==> !HasWordAt(s, i, labels[k])
  {
    if |labels| == 0 then None
    else if HasWordAt(s, i, labels[0]) then Some(|labels[0]|)
    else
      var r := LabelAt(s, i, labels[1..]);
      assert forall k :: 1 <= k < |labels| ==> labels[k] == labels[1..][k - 1];
      r
  }

  /** At most one space or quote: one is taken when present. */
  function SkipOptionalQuote(s: string, j: nat): (r: nat)
    requires j <= |s|
    ensures j <= r <= j + 1 && r <= |s|
  {
    if j < |s| && IsSpaceOrQuote(s[j]) then j + 1 else j
  }

  function ApiKeyAt(s: string, i: nat): (r: Option<Hit>)
    ensures r.Some? ==> WellFormed(s, i, r.value) && r.value.group.Some? && r.value.end >= i + 20
    ensures r.Some? ==> exists j :: i < j < r.value.end && (s[j] == ':' || s[j] == '=')
  {
    match LabelAt(s, i, SecretLabels)
    case None => None
    case Some(len) =>
      var sep := i + len;
      if sep >= |s| || !(s[sep] == '=' || s[sep] == ':') then None
      else
        var g := SkipOptionalQuote(s, sep + 1);
        var n := RunLength(s, g, IsSecretChar);
        if n < 16 then None
        else
          assert len >= 3 by {
            var k :| 0 <= k < |SecretLabels| && |SecretLabels[k]| == len && HasWordAt(s, i, SecretLabels[k]);
          }
          Some(Hit(SkipOptionalQuote(s, g + n), Some(Group(g, g + n))))
  }

  // ---------------------------------------------------------------------------
  // Bearer tokens (line 45, global, ASCII case ignored): the word bearer, one
  // or more spaces, then the captured token of sixteen or more secret characters.

  function BearerAt(s: string, i: nat): (r: Option<Hit>)
    ensures r.Some? ==> WellFormed(s, i, r.value) && r.value.group.Some? && r.value.end >= i + 23
    ensures r.Some? ==> SameLetter(s[i], 'b')
  {
    if !HasWordAt(s, i, "bearer") then None
    else
      var w := RunLength(s, i + 6, IsSpace);
      var g := i + 6 + w;
      var n := RunLength(s, g, IsSecretChar);
      if w == 0 || n < 16 then None
      else
        assert SameLetter(s[i + 0], "bearer"[0]);
        Some(Hit(g + n, Some(Group(g, g + n))))
  }

  // ---------------------------------------------------------------------------
  // IPv4 addresses (line 47, global): between word boundaries, four groups of
  // one to three digits joined by dots, all of it captured.

  /** `\d{1,3}\.` at `p`: where it ends. */
  function OctetDot(s: string, p: nat): (r: Option<nat>)
    requires p <= |s|
    ensures r.Some? ==> p + 2 <= r.value <= p + 4 && r.value <= |s|
  {
    var n := RunLength(s, p, IsDigit);
    if 1 <= n <= 3 && p + n < |s| && s[p + n] == '.' then Some(p + n + 1) else None
  }

  function IPv4At(s: string, i: nat): (r: Option<Hit>)
    ensures r.Some? ==> WellFormed(s, i, r.value) && r.value.group == Some(Group(i, r.value.end))
    ensures r.Some? ==> i < |s| && IsDigit(s[i])
    ensures r.Some? ==> exists j :: i < j < r.value.end && s[j] == '.'
  {
    if i > |s| || !IsBoundary(s, i) then None
    else
      match OctetDot(s, i)
      case None => None
      case Some(p1) =>
        match OctetDot(s, p1)
        case None => None
        case Some(p2) =>
          match OctetDot(s, p2)
          case None => None
          case Some(p3) =>
            var n := RunLength(s, p3, IsDigit);
            if 1 <= n <= 3 && IsBoundary(s, p3 + n) then
              assert s[p1 - 1] == '.';
              assert IsDigit(s[i]) by {
                assert RunLength(s, i, IsDigit) >= 1;
              }
              Some(Hit(p3 + n, Some(Group(i, p3 + n))))
            else None
  }

  // ---------------------------------------------------------------------------
  // Windows paths (line 49, global): after a word boundary, a drive letter, a
  // colon, a backslash and one or more path characters, all of it captured.

  function WindowsPathAt(s: string, i: nat): (r: Option<Hit>)
    ensures r.Some? ==> WellFormed(s, i, r.value) && r.value.group == Some(Group(i, r.value.end))
    ensures r.Some? ==> i + 2 < |s| && IsAsciiLetter(s[i]) && s[i + 1] == ':' && s[i + 2] == '\\'
  {
    if i + 2 >= |s| || !IsBoundary(s, i) || !IsAsciiLetter(s[i]) || s[i + 1] != ':' || s[i + 2] != '\\' then None
    else
      var n := RunLength(s, i + 3, IsWindowsPathChar);
      if n == 0 then None else Some(Hit(i + 3 + n, Some(Group(i, i + 3 + n))))
  }

  // ---------------------------------------------------------------------------
  // Unix home directories (line 51, global, case kept): `/home/` or `/Users/`
  // and one or more user-name characters, all of it captured.

  function UnixHomeAt(s: string, i: nat): (r: Option<Hit>)
    ensures r.Some? ==> WellFormed(s, i, r.value) && r.value.group == Some(Group(i, r.value.end))
    ensures r.Some? ==> (OccursAt(s, "/home/", i) || OccursAt(s, "/Users/", i))
    ensures r.Some? ==> i < |s| && s[i] == '/'
  {
    var dir :=
      if OccursAt(s, "/home/", i) then 6
      else if OccursAt(s, "/Users/", i) then 7
      else 0;
    if dir == 0 then None
    else
      assert s[i] == s[i..i + dir][0];
      var n := RunLength(s, i + dir, IsHomeNameChar);
      if n == 0 then None else Some(Hit(i + dir + n, Some(Group(i, i + dir + n))))
  }

  // ---------------------------------------------------------------------------
  // Labelled measurements (line 55, global, ASCII case ignored): a label, then
  // spaces, `:` or `=`, spaces, and the captured value: digits and dots,
  // optionally followed by a percent sign or `g` (after optional spaces), `ml`
  // or `pts`.
  //
  // Every keyword label is itself a run of word characters and the last
  // alternative is any such run, so whichever alternative is taken, the label
  // and the spaces after it stop at the first character that is neither a word
  // character nor a space, and that character must be `:` or `=`.

  /** The optional unit after the number ending at `e` (spaces and a percent sign or
      `g`, else `ml`, else `pts`, ignoring ASCII case): where the match ends. */
  function UnitEnd(s: string, e: nat): (r: nat)
    requires e <= |s|
    ensures e <= r <= |s|
  {
    var w := RunLength(s, e, IsSpace);
    if e + w < |s| && (s[e + w] == '%' || SameLetter(s[e + w], 'g')) then e + w + 1
    else if HasWordAt(s, e, "ml") then e + 2
    else if HasWordAt(s, e, "pts") then e + 3
    else e
  }

  function MeasurementAt(s: string, i: nat): (r: Option<Hit>)
    ensures r.Some? ==> WellFormed(s, i, r.value) && r.value.group.Some? && r.value.end > i
    ensures r.Some? ==>
      exists j :: (i < j < r.value.end && (s[j] == ':' || s[j] == '=')
        && forall m :: i <= m < j ==> IsWordOrSpace(s[m]))
    ensures r.Some? ==> exists j :: i < j < r.value.end && IsDigitOrDot(s[j])
  {
    if i > |s| then None
    else
      var k := i + RunLength(s, i, IsWordOrSpace);
      if k == i || k >= |s| || !(s[k] == ':' || s[k] == '=') then None
      else
        var d := k + 1 + RunLength(s, k + 1, IsSpace);
        var n := RunLength(s, d, IsDigitOrDot);
        if n == 0 then None
        else
          assert IsDigitOrDot(s[d]);
          var end := UnitEnd(s, d + n);
          Some(Hit(end, Some(Group(d, end))))
  }

  // ---------------------------------------------------------------------------
  // CAS registry numbers (line 57, global): between word boundaries, two to
  // seven digits, a hyphen, two digits, a hyphen and one digit, all captured.

  function CasAt(s: string, i: nat): (r: Option<Hit>)
    ensures r.Some? ==> WellFormed(s, i, r.value) && r.value.group == Some(Group(i, r.value.end))
    ensures r.Some? ==> i < |s| && IsDigit(s[i])
    ensures r.Some? ==> exists j :: i < j < r.value.end && s[j] == '-'
    ensures r.Some? ==> var e := r.value.end;
      i + 7 <= e && s[e - 5] == '-' && s[e - 2] == '-' && IsDigit(s[e - 6])
  {
    if i > |s| || !IsBoundary(s, i) then None
    else
      var a := RunLength(s, i, IsDigit);
      var p := i + a + 1;
      if a < 2 || a > 7 || p > |s| || s[p - 1] != '-' then None
      else if RunLength(s, p, IsDigit) != 2 || p + 3 >= |s| + 1 || s[p + 2] != '-' then None
      else
        var q := p + 3;
        if q >= |s| || !IsDigit(s[q]) || !IsBoundary(s, q + 1) then None
        else
          assert IsDigit(s[i]);
          Some(Hit(q + 1, Some(Group(i, q + 1))))
  }

  // ---------------------------------------------------------------------------
  // Trial, batch and recipe identifiers (line 59, global, ASCII case ignored):
  // a batch label, spaces, `#`, spaces, then the captured identifier.

  const BatchLabels: seq<string> := ["trial", "batch", "recipe", "formula"]

  function BatchIdAt(s: string, i: nat): (r: Option<Hit>)
    ensures r.Some? ==> WellFormed(s, i, r.value) && r.value.group.Some? && r.value.end > i
    ensures r.Some? ==> exists j :: i < j < r.value.end && s[j] == '#'
  {
    match LabelAt(s, i, BatchLabels)
    case None => None
    case Some(len) =>
      assert len >= 5 by {
        var k :| 0 <= k < |BatchLabels| && |BatchLabels[k]| == len && HasWordAt(s, i, BatchLabels[k]);
      }
      IdAfterLabel(s, i + len)
  }

  /** What follows the label: spaces, `#`, spaces, then the captured identifier. */
  function IdAfterLabel(s: string, a: nat): (r: Option<Hit>)
    ensures r.Some? ==> WellFormed(s, a, r.value) && r.value.group.Some? && r.value.end > a
    ensures r.Some? ==> exists j :: a <= j < r.value.end && s[j] == '#'
  {
    if a > |s| then None
    else
      var h := a + RunLength(s, a, IsSpace);
      if h >= |s| || s[h] != '#' then None
      else
        var g := h + 1 + RunLength(s, h + 1, IsSpace);
        var n := RunLength(s, g, IsIdChar);
        if n == 0 then None else Some(Hit(g + n, Some(Group(g, g + n))))
  }
}

module PatternFacts {
  import opened Wrappers
  import opened Text
  import opened Matcher
  import opened Patterns

  predicate AllDigits(t: string) {
    forall k :: 0 <= k < |t| ==> IsDigit(t[k])
  }

  /** One to three decimal digits; no range check. */
  predicate IsOctet(t: string) {
    1 <= |t| <= 3 && AllDigits(t)
  }

  /** Exactly four dot-separated octets. */
  predicate IsDottedQuad(t: string) {
    var parts := Split(t, '.');
    |parts| == 4 && forall k :: 0 <= k < 4 ==> IsOctet(parts[k])
  }

  /** Two to seven digits, two digits and one check digit, separated by hyphens. */
  predicate IsCasNumber(t: string) {
    var parts := Split(t, '-');
    && |parts| == 3
    && 2 <= |parts[0]| <= 7 && |parts[1]| == 2 && |parts[2]| == 1
    && forall k :: 0 <= k < 3 ==> AllDigits(parts[k])
  }

  lemma DigitsExclude(t: string, c: char)
    requires AllDigits(t) && !IsDigit(c)
    ensures c !in t
  {
    forall k | 0 <= k < |t| ensures t[k] != c {
    }
  }

  /** Reading a slice that is a piece, a separator and a rest. */
  lemma SliceSplit(s: string, i: nat, e: nat, a: string, c: char, b: string)
    requires i <= e <= |s| && s[i..e] == a + [c] + b
    ensures i + |a| < e
    ensures forall k :: 0 <= k < |a| ==> s[i + k] == a[k]
    ensures s[i + |a|] == c
    ensures s[i + |a| + 1..e] == b
  {
    assert forall k :: 0 <= k < |a| ==> s[i + k] == s[i..e][k];
    assert s[i + |a|] == s[i..e][|a|];
    assert s[i + |a| + 1..e] == s[i..e][|a| + 1..];
  }

  /** An octet followed by a dot is what `OctetDot` reads. */
  lemma OctetDotReads(s: string, q: nat, e: nat, a: string, b: string)
    requires q <= e <= |s| && s[q..e] == a + ['.'] + b && IsOctet(a)
    ensures OctetDot(s, q) == Some(q + |a| + 1)
    ensures s[q + |a| + 1..e] == b
  {
    SliceSplit(s, q, e, a, '.', b);
    RunLengthExact(s, q, |a|, IsDigit);
  }

  /** Joining four pieces with dots. */
  lemma JoinFour(a: string, b: string, c: string, d: string)
    ensures Join([a, b, c, d], '.') == a + ['.'] + (b + ['.'] + (c + ['.'] + d))
  {
    assert Join([d], '.') == d;
    assert [c, d][1..] == [d];
    assert Join([c, d], '.') == c + ['.'] + d;
    assert [b, c, d][1..] == [c, d];
    assert Join([b, c, d], '.') == b + ['.'] + (c + ['.'] + d);
    assert [a, b, c, d][1..] == [b, c, d];
  }

  /** Joining three pieces with hyphens. */
  lemma JoinThree(a: string, b: string, c: string)
    ensures Join([a, b, c], '-') == a + ['-'] + (b + ['-'] + c)
  {
    assert Join([c], '-') == c;
    assert [b, c][1..] == [c];
    assert Join([b, c], '-') == b + ['-'] + c;
    assert [a, b, c][1..] == [b, c];
  }

  /** Four dot-free pieces joined with dots split back into those pieces. */
  lemma SplitFour(a: string, b: string, c: string, d: string)
    requires AllDigits(a) && AllDigits(b) && AllDigits(c) && AllDigits(d)
    ensures Split(a + ['.'] + (b + ['.'] + (c + ['.'] + d)), '.') == [a, b, c, d]
  {
    JoinFour(a, b, c, d);
    DigitsExclude(a, '.');
    DigitsExclude(b, '.');
    DigitsExclude(c, '.');
    DigitsExclude(d, '.');
    SplitJoin([a, b, c, d], '.');
  }

  /** Cutting a slice at a separator position. */
  lemma Glue(s: string, q: nat, r: nat, e: nat)
    requires q < r <= e <= |s|
    ensures s[q..e] == s[q..r - 1] + [s[r - 1]] + s[r..e]
  {
  }

  /** What `OctetDot` reads is an octet followed by a dot. */
  lemma OctetDotRead(s: string, q: nat, r: nat)
    requires q <= |s| && OctetDot(s, q) == Some(r)
    ensures q < r && IsOctet(s[q..r - 1]) && s[r - 1] == '.'
  {
  }

  /** The IPv4 pattern, unfolded into its octet steps. */
  lemma IPv4AtSteps(s: string, i: nat, e: nat)
    requires i <= e <= |s|
    requires IPv4At(s, i) == Some(Hit(e, Some(Group(i, e))))
    ensures IsBoundary(s, i) && IsBoundary(s, e)
    ensures OctetDot(s, i).Some? && OctetDot(s, i).value <= e
    ensures var p1 := OctetDot(s, i).value;
      OctetDot(s, p1).Some? && OctetDot(s, p1).value <= e
    ensures var p2 := OctetDot(s, OctetDot(s, i).value).value;
      OctetDot(s, p2).Some? && OctetDot(s, p2).value <= e
      && IsOctet(s[OctetDot(s, p2).value..e])
  {
    var p3 := OctetDot(s, OctetDot(s, OctetDot(s, i).value).value).value;
    assert e - p3 == RunLength(s, p3, IsDigit);
  }

  /** The IPv4 pattern, folded back from its octet steps. */
  lemma IPv4AtFromSteps(s: string, i: nat, p1: nat, p2: nat, p3: nat, e: nat)
    requires i <= p3 <= e <= |s|
    requires IsBoundary(s, i) && IsBoundary(s, e)
    requires OctetDot(s, i) == Some(p1) && p1 <= |s|
    requires OctetDot(s, p1) == Some(p2) && p2 <= |s|
    requires OctetDot(s, p2) == Some(p3)
    requires RunLength(s, p3, IsDigit) == e - p3 && 1 <= e - p3 <= 3
    ensures IPv4At(s, i) == Some(Hit(e, Some(Group(i, e))))
  {
  }

  /** What the IPv4 pattern matches is a dotted quad between word boundaries. */
  lemma IPv4AtSound(s: string, i: nat, e: nat)
    requires i <= e <= |s|
    requires IPv4At(s, i) == Some(Hit(e, Some(Group(i, e))))
    ensures IsBoundary(s, i) && IsDottedQuad(s[i..e]) && IsBoundary(s, e)
  {
    IPv4AtSteps(s, i, e);
    var p1 := OctetDot(s, i).value;
    var p2 := OctetDot(s, p1).value;
    var p3 := OctetDot(s, p2).value;
    OctetDotRead(s, i, p1);
    OctetDotRead(s, p1, p2);
    OctetDotRead(s, p2, p3);
    var a, b, c, d := s[i..p1 - 1], s[p1..p2 - 1], s[p2..p3 - 1], s[p3..e];
    Glue(s, p2, p3, e);
    Glue(s, p1, p2, e);
    Glue(s, i, p1, e);
    assert s[i..e] == a + ['.'] + (b + ['.'] + (c + ['.'] + d));
    SplitFour(a, b, c, d);
  }

  /** A dotted quad, taken apart into its four octets. */
  lemma DottedQuadParts(t: string) returns (a: string, b: string, c: string, d: string)
    requires IsDottedQuad(t)
    ensures IsOctet(a) && IsOctet(b) && IsOctet(c) && IsOctet(d)
    ensures t == a + ['.'] + (b + ['.'] + (c + ['.'] + d))
  {
    var parts := Split(t, '.');
    a, b, c, d := parts[0], parts[1], parts[2], parts[3];
    JoinSplit(t, '.');
    assert parts == [a, b, c, d];
    JoinFour(a, b, c, d);
  }

  /** Reading four octets laid out in `s` gives the steps of the IPv4 pattern. */
  lemma QuadReads(s: string, i: nat, e: nat, a: string, b: string, c: string, d: string)
    requires i <= e <= |s|
    requires IsOctet(a) && IsOctet(b) && IsOctet(c) && IsOctet(d)
    requires s[i..e] == a + ['.'] + (b + ['.'] + (c + ['.'] + d))
    ensures var p1 := i + |a| + 1; var p2 := p1 + |b| + 1; var p3 := p2 + |c| + 1;
      && p3 < e
      && OctetDot(s, i) == Some(p1) && OctetDot(s, p1) == Some(p2) && OctetDot(s, p2) == Some(p3)
      && (forall k :: p3 <= k < e ==> IsDigit(s[k])) && e - p3 == |d|
  {
    OctetDotReads(s, i, e, a, b + ['.'] + (c + ['.'] + d));
    TripleReads(s, i + |a| + 1, e, b, c, d);
  }

  /** The last three octets of a dotted quad, read from `q` on. */
  lemma TripleReads(s: string, q: nat, e: nat, b: string, c: string, d: string)
    requires q <= e <= |s|
    requires IsOctet(b) && IsOctet(c) && IsOctet(d)
    requires s[q..e] == b + ['.'] + (c + ['.'] + d)
    ensures var p2 := q + |b| + 1; var p3 := p2 + |c| + 1;
      && p3 < e
      && OctetDot(s, q) == Some(p2) && OctetDot(s, p2) == Some(p3)
      && (forall k :: p3 <= k < e ==> IsDigit(s[k])) && e - p3 == |d|
  {
    OctetDotReads(s, q, e, b, c + ['.'] + d);
    PairReads(s, q + |b| + 1, e, c, d);
  }

  /** The last two octets of a dotted quad, read from `q` on. */
  lemma PairReads(s: string, q: nat, e: nat, c: string, d: string)
    requires q <= e <= |s|
    requires IsOctet(c) && IsOctet(d)
    requires s[q..e] == c + ['.'] + d
    ensures var p3 := q + |c| + 1;
      && p3 < e
      && OctetDot(s, q) == Some(p3)
      && (forall k :: p3 <= k < e ==> IsDigit(s[k])) && e - p3 == |d|
  {
    OctetDotReads(s, q, e, c, d);
    DigitsOfSlice(s, q + |c| + 1, e, d);
  }

  /** A slice that is all digits has a digit at every position. */
  lemma DigitsOfSlice(s: string, q: nat, e: nat, d: string)
    requires q <= e <= |s| && s[q..e] == d && AllDigits(d)
    ensures forall k :: q <= k < e ==> IsDigit(s[k])
  {
    forall k | q <= k < e ensures IsDigit(s[k]) {
      assert s[k] == s[q..e][k - q];
    }
  }

  /** The last octet ends on a digit, so a word boundary after it ends the digit run. */
  lemma BoundaryEndsDigits(s: string, q: nat, e: nat)
    requires q < e <= |s| && IsBoundary(s, e)
    requires forall k :: q <= k < e ==> IsDigit(s[k])
    ensures RunLength(s, q, IsDigit) == e - q
  {
    assert IsDigit(s[e - 1]);
    RunLengthExact(s, q, e - q, IsDigit);
  }

  /** Four octets laid out between word boundaries are what the IPv4 pattern matches. */
  lemma IPv4AtOfOctets(s: string, i: nat, e: nat, a: string, b: string, c: string, d: string)
    requires i <= e <= |s| && IsBoundary(s, i) && IsBoundary(s, e)
    requires IsOctet(a) && IsOctet(b) && IsOctet(c) && IsOctet(d)
    requires s[i..e] == a + ['.'] + (b + ['.'] + (c + ['.'] + d))
    ensures IPv4At(s, i) == Some(Hit(e, Some(Group(i, e))))
  {
    var p1, p2, p3 := QuadSteps(s, i, e, a, b, c, d);
    IPv4AtFromSteps(s, i, p1, p2, p3, e);
  }

  /** The octet steps of four octets laid out before a word boundary. */
  lemma QuadSteps(s: string, i: nat, e: nat, a: string, b: string, c: string, d: string)
    returns (p1: nat, p2: nat, p3: nat)
    requires i <= e <= |s| && IsBoundary(s, e)
    requires IsOctet(a) && IsOctet(b) && IsOctet(c) && IsOctet(d)
    requires s[i..e] == a + ['.'] + (b + ['.'] + (c + ['.'] + d))
    ensures i <= p3 <= e
    ensures OctetDot(s, i) == Some(p1) && p1 <= |s|
    ensures OctetDot(s, p1) == Some(p2) && p2 <= |s|
    ensures OctetDot(s, p2) == Some(p3)
    ensures RunLength(s, p3, IsDigit) == e - p3 && 1 <= e - p3 <= 3
  {
    p1 := i + |a| + 1;
    p2 := p1 + |b| + 1;
    p3 := p2 + |c| + 1;
    QuadReads(s, i, e, a, b, c, d);
    BoundaryEndsDigits(s, p3, e);
  }

  /** Every dotted quad between word boundaries is what the IPv4 pattern matches there. */
  lemma IPv4AtComplete(s: string, i: nat, e: nat)
    requires i <= e <= |s|
    requires IsBoundary(s, i) && IsDottedQuad(s[i..e]) && IsBoundary(s, e)
    ensures IPv4At(s, i) == Some(Hit(e, Some(Group(i, e))))
  {
    var a, b, c, d := DottedQuadParts(s[i..e]);
    IPv4AtOfOctets(s, i, e, a, b, c, d);
  }

  /** The IPv4 pattern matches exactly the dotted quads of one to three digits per
      octet (no range check) that sit between word boundaries. */
  lemma IPv4AtIff(s: string, i: nat, e: nat)
    requires i <= e <= |s|
    ensures IPv4At(s, i) == Some(Hit(e, Some(Group(i, e))))
      <==> IsBoundary(s, i) && IsDottedQuad(s[i..e]) && IsBoundary(s, e)
  {
    if IPv4At(s, i) == Some(Hit(e, Some(Group(i, e)))) {
      IPv4AtSound(s, i, e);
    }
    if IsBoundary(s, i) && IsDottedQuad(s[i..e]) && IsBoundary(s, e) {
      IPv4AtComplete(s, i, e);
    }
  }

  /** The CAS pattern, unfolded into its digit runs. */
  lemma CasAtSteps(s: string, i: nat, e: nat)
    requires i <= e <= |s|
    requires CasAt(s, i) == Some(Hit(e, Some(Group(i, e))))
    ensures IsBoundary(s, i) && IsBoundary(s, e)
    ensures var n := RunLength(s, i, IsDigit);
      && 2 <= n <= 7 && e == i + n + 5
      && s[i + n] == '-' && IsDigit(s[i + n + 1]) && IsDigit(s[i + n + 2])
      && s[i + n + 3] == '-' && IsDigit(s[i + n + 4])
  {
  }

  /** Digit runs laid out as the CAS pattern reads them form a CAS number. */
  lemma CasLayout(s: string, i: nat, n: nat, e: nat)
    requires i + n + 5 == e <= |s| && 2 <= n <= 7
    requires forall k :: i <= k < i + n ==> IsDigit(s[k])
    requires s[i + n] == '-' && IsDigit(s[i + n + 1]) && IsDigit(s[i + n + 2])
    requires s[i + n + 3] == '-' && IsDigit(s[i + n + 4])
    ensures IsCasNumber(s[i..e])
  {
    var p := i + n + 1;
    var a, b, c := s[i..p - 1], s[p..p + 2], s[p + 3..e];
    assert s[i..e] == a + ['-'] + (b + ['-'] + c) by {
      Glue(s, p, p + 3, e);
      Glue(s, i, p, e);
    }
    DigitRange(s, i, p - 1);
    DigitRange(s, p, p + 2);
    DigitRange(s, p + 3, e);
    SplitThree(a, b, c);
  }

  /** A range of digits read as a slice. */
  lemma DigitRange(s: string, q: nat, e: nat)
    requires q <= e <= |s| && forall k :: q <= k < e ==> IsDigit(s[k])
    ensures AllDigits(s[q..e])
  {
    forall k | 0 <= k < e - q ensures IsDigit(s[q..e][k]) {
      assert s[q..e][k] == s[q + k];
    }
  }

  /** Three hyphen-free pieces joined with hyphens split back into those pieces. */
  lemma SplitThree(a: string, b: string, c: string)
    requires AllDigits(a) && AllDigits(b) && AllDigits(c)
    ensures Split(a + ['-'] + (b + ['-'] + c), '-') == [a, b, c]
  {
    JoinThree(a, b, c);
    DigitsExclude(a, '-');
    DigitsExclude(b, '-');
    DigitsExclude(c, '-');
    SplitJoin([a, b, c], '-');
  }

  /** What the CAS pattern matches is a CAS number between word boundaries. */
  lemma CasAtSound(s: string, i: nat, e: nat)
    requires i <= e <= |s|
    requires CasAt(s, i) == Some(Hit(e, Some(Group(i, e))))
    ensures IsBoundary(s, i) && IsCasNumber(s[i..e]) && IsBoundary(s, e)
  {
    CasAtSteps(s, i, e);
    CasLayout(s, i, RunLength(s, i, IsDigit), e);
  }

  /** The CAS pattern, folded back from its digit runs. */
  lemma CasAtFromSteps(s: string, i: nat, n: nat, e: nat)
    requires i + n + 5 == e <= |s|
    requires IsBoundary(s, i) && IsBoundary(s, e)
    requires RunLength(s, i, IsDigit) == n && 2 <= n <= 7
    requires s[i + n] == '-' && RunLength(s, i + n + 1, IsDigit) == 2
    requires s[i + n + 3] == '-' && IsDigit(s[i + n + 4])
    ensures CasAt(s, i) == Some(Hit(e, Some(Group(i, e))))
  {
  }

  /** A CAS number, taken apart into its three digit groups. */
  lemma CasNumberParts(t: string) returns (a: string, b: string, c: string)
    requires IsCasNumber(t)
    ensures AllDigits(a) && AllDigits(b) && AllDigits(c)
    ensures 2 <= |a| <= 7 && |b| == 2 && |c| == 1
    ensures t == a + ['-'] + (b + ['-'] + c)
  {
    var parts := Split(t, '-');
    a, b, c := parts[0], parts[1], parts[2];
    JoinSplit(t, '-');
    assert parts == [a, b, c];
    JoinThree(a, b, c);
  }

  /** Reading three digit groups laid out in `s` gives the steps of the CAS pattern. */
  lemma CasReads(s: string, i: nat, e: nat, a: string, b: string, c: string)
    requires i <= e <= |s|
    requires AllDigits(a) && AllDigits(b) && AllDigits(c)
    requires 2 <= |a| <= 7 && |b| == 2 && |c| == 1
    requires s[i..e] == a + ['-'] + (b + ['-'] + c)
    ensures var n := |a|;
      && i + n + 5 == e
      && RunLength(s, i, IsDigit) == n
      && s[i + n] == '-' && RunLength(s, i + n + 1, IsDigit) == 2
      && s[i + n + 3] == '-' && IsDigit(s[i + n + 4])
  {
    SliceSplit(s, i, e, a, '-', b + ['-'] + c);
    RunLengthExact(s, i, |a|, IsDigit);
    var p := i + |a| + 1;
    SliceSplit(s, p, e, b, '-', c);
    RunLengthExact(s, p, 2, IsDigit);
    assert s[p + 3..e] == c;
    assert s[p + 3] == c[0];
  }

  /** Every CAS number between word boundaries is what the CAS pattern matches there. */
  lemma CasAtComplete(s: string, i: nat, e: nat)
    requires i <= e <= |s|
    requires IsBoundary(s, i) && IsCasNumber(s[i..e]) && IsBoundary(s, e)
    ensures CasAt(s, i) == Some(Hit(e, Some(Group(i, e))))
  {
    var a, b, c := CasNumberParts(s[i..e]);
    CasReads(s, i, e, a, b, c);
    CasAtFromSteps(s, i, |a|, e);
  }

  /** The CAS pattern matches exactly the hyphenated numbers of two to seven, two
      and one digits that sit between word boundaries. */
  lemma CasAtIff(s: string, i: nat, e: nat)
    requires i <= e <= |s|
    ensures CasAt(s, i) == Some(Hit(e, Some(Group(i, e))))
      <==> IsBoundary(s, i) && IsCasNumber(s[i..e]) && IsBoundary(s, e)
  {
    if CasAt(s, i) == Some(Hit(e, Some(Group(i, e)))) {
      CasAtSound(s, i, e);
    }
    if IsBoundary(s, i) && IsCasNumber(s[i..e]) && IsBoundary(s, e) {
      CasAtComplete(s, i, e);
    }
  }

  // ---------------------------------------------------------------------------
  // Windows paths, home directories and batch identifiers: the `+` runs are
  // greedy and nothing follows them, so the match takes the whole run.

  /** A greedy run of class `p` that reaches `e` cannot go on past it. */
  predicate StopsAt(s: string, e: nat, p: char -> bool)
    requires e <= |s|
  {
    e == |s| || !p(s[e])
  }

  /** A drive letter, `:`, `\` and one or more path characters. */
  predicate IsWindowsPath(t: string) {
    && |t| >= 4 && IsAsciiLetter(t[0]) && t[1] == ':' && t[2] == '\\'
    && forall k :: 3 <= k < |t| ==> IsWindowsPathChar(t[k])
  }

  /** Every match of the Windows path pattern is a Windows path after a word
      boundary that takes the whole run of path characters. */
  lemma WindowsPathAtSound(s: string, i: nat, e: nat)
    requires i <= e <= |s|
    requires WindowsPathAt(s, i) == Some(Hit(e, Some(Group(i, e))))
    ensures IsBoundary(s, i) && IsWindowsPath(s[i..e]) && StopsAt(s, e, IsWindowsPathChar)
  {
    var t := s[i..e];
    assert t[0] == s[i] && t[1] == s[i + 1] && t[2] == s[i + 2];
    forall k | 3 <= k < |t| ensures IsWindowsPathChar(t[k]) {
      assert t[k] == s[i + k];
    }
  }

  /** Every Windows path after a word boundary that takes the whole run of path
      characters is what the Windows path pattern matches there. */
  lemma WindowsPathAtComplete(s: string, i: nat, e: nat)
    requires i <= e <= |s|
    requires IsBoundary(s, i) && IsWindowsPath(s[i..e]) && StopsAt(s, e, IsWindowsPathChar)
    ensures WindowsPathAt(s, i) == Some(Hit(e, Some(Group(i, e))))
  {
    var t := s[i..e];
    assert s[i] == t[0] && s[i + 1] == t[1] && s[i + 2] == t[2];
    forall k | i + 3 <= k < e ensures IsWindowsPathChar(s[k]) {
      assert s[k] == t[k - i];
    }
    RunLengthExact(s, i + 3, e - (i + 3), IsWindowsPathChar);
  }

  /** The Windows path pattern matches exactly the Windows paths after a word
      boundary, each taking the whole run of path characters after the backslash. */
  lemma WindowsPathAtIff(s: string, i: nat, e: nat)
    requires i <= e <= |s|
    ensures WindowsPathAt(s, i) == Some(Hit(e, Some(Group(i, e))))
      <==> IsBoundary(s, i) && IsWindowsPath(s[i..e]) && StopsAt(s, e, IsWindowsPathChar)
  {
    if WindowsPathAt(s, i) == Some(Hit(e, Some(Group(i, e)))) {
      WindowsPathAtSound(s, i, e);
    }
    if IsBoundary(s, i) && IsWindowsPath(s[i..e]) && StopsAt(s, e, IsWindowsPathChar) {
      WindowsPathAtComplete(s, i, e);
    }
  }

  /** `/home/` or `/Users/` followed by one or more user-name characters. */
  predicate IsHomePath(t: string) {
    || (|t| > 6 && OccursAt(t, "/home/", 0) && forall k :: 6 <= k < |t| ==> IsHomeNameChar(t[k]))
    || (|t| > 7 && OccursAt(t, "/Users/", 0) && forall k :: 7 <= k < |t| ==> IsHomeNameChar(t[k]))
  }

  /** A directory prefix at the start of a slice is one at the slice's start in the whole. */
  lemma PrefixOfSlice(s: string, i: nat, e: nat, pat: string)
    requires i + |pat| <= e <= |s|
    ensures OccursAt(s[i..e], pat, 0) <==> OccursAt(s, pat, i)
  {
    SliceOfSlice(s, i, e, 0, |pat|);
  }

  /** `/Users/` and `/home/` differ in their second character. */
  lemma UsersNotHome(s: string, i: nat, home: string, users: string)
    requires home == "/home/" && users == "/Users/"
    requires OccursAt(s, users, i)
    ensures !OccursAt(s, home, i)
  {
    assert s[i..i + |users|][1] == users[1];
    assert s[i + 1] != home[1];
    assert s[i..i + |home|][1] != home[1];
  }

  /** The home directory pattern's steps, read off one after the other, give its match. */
  lemma UnixHomeAtFromSteps(s: string, i: nat, dir: nat, e: nat)
    requires (dir == 6 && OccursAt(s, "/home/", i)) || (dir == 7 && !OccursAt(s, "/home/", i) && OccursAt(s, "/Users/", i))
    requires i + dir < e <= |s| && RunLength(s, i + dir, IsHomeNameChar) == e - (i + dir)
    ensures UnixHomeAt(s, i) == Some(Hit(e, Some(Group(i, e))))
  {
  }

  /** Every match of the home directory pattern is a home path that takes the
      whole run of user-name characters. */
  lemma UnixHomeAtSound(s: string, i: nat, e: nat)
    requires i <= e <= |s|
    requires UnixHomeAt(s, i) == Some(Hit(e, Some(Group(i, e))))
    ensures IsHomePath(s[i..e]) && StopsAt(s, e, IsHomeNameChar)
  {
    var t := s[i..e];
    if OccursAt(s, "/home/", i) {
      PrefixOfSlice(s, i, e, "/home/");
      forall k | 6 <= k < |t| ensures IsHomeNameChar(t[k]) {
        assert t[k] == s[i + k];
      }
    } else {
      PrefixOfSlice(s, i, e, "/Users/");
      forall k | 7 <= k < |t| ensures IsHomeNameChar(t[k]) {
        assert t[k] == s[i + k];
      }
    }
  }

  /** Every home path that takes the whole run of user-name characters is what
      the home directory pattern matches there. */
  lemma UnixHomeAtComplete(s: string, i: nat, e: nat)
    requires i <= e <= |s|
    requires IsHomePath(s[i..e]) && StopsAt(s, e, IsHomeNameChar)
    ensures UnixHomeAt(s, i) == Some(Hit(e, Some(Group(i, e))))
  {
    var t := s[i..e];
    var dir: nat;
    if |t| > 6 && OccursAt(t, "/home/", 0) && forall k :: 6 <= k < |t| ==> IsHomeNameChar(t[k]) {
      dir := 6;
      PrefixOfSlice(s, i, e, "/home/");
    } else {
      dir := 7;
      PrefixOfSlice(s, i, e, "/Users/");
      UsersNotHome(s, i, "/home/", "/Users/");
    }
    forall k | i + dir <= k < e ensures IsHomeNameChar(s[k]) {
      assert s[k] == t[k - i];
    }
    RunLengthExact(s, i + dir, e - (i + dir), IsHomeNameChar);
    UnixHomeAtFromSteps(s, i, dir, e);
  }

  /** The home directory pattern matches exactly the home paths, each taking the
      whole run of user-name characters. */
  lemma UnixHomeAtIff(s: string, i: nat, e: nat)
    requires i <= e <= |s|
    ensures UnixHomeAt(s, i) == Some(Hit(e, Some(Group(i, e))))
      <==> IsHomePath(s[i..e]) && StopsAt(s, e, IsHomeNameChar)
  {
    if UnixHomeAt(s, i) == Some(Hit(e, Some(Group(i, e)))) {
      UnixHomeAtSound(s, i, e);
    }
    if IsHomePath(s[i..e]) && StopsAt(s, e, IsHomeNameChar) {
      UnixHomeAtComplete(s, i, e);
    }
  }

  /** A batch label, ignoring ASCII case, from `i` to `a`. */
  predicate IsBatchLabel(s: string, i: nat, a: nat) {
    exists k :: 0 <= k < |BatchLabels| && HasWordAt(s, i, BatchLabels[k]) && a == i + |BatchLabels[k]|
  }

  /** After a label ending at `a`: spaces up to the `#` at `h`, spaces up to `g`,
      and the identifier from `g` to `e`, taking the whole run of identifier
      characters. */
  predicate IsIdLayout(s: string, a: nat, h: nat, g: nat, e: nat) {
    && a <= h < g < e <= |s|
    && (forall m :: a <= m < h ==> IsSpace(s[m]))
    && s[h] == '#'
    && (forall m :: h < m < g ==> IsSpace(s[m]))
    && (forall m :: g <= m < e ==> IsIdChar(s[m]))
    && StopsAt(s, e, IsIdChar)
  }

  /** A batch identifier laid out in `s`: a batch label from `i` to `a`, then the
      `#` at `h` and the identifier from `g` to `e`. */
  predicate IsBatchMatch(s: string, i: nat, a: nat, h: nat, g: nat, e: nat) {
    i < a && IsBatchLabel(s, i, a) && IsIdLayout(s, a, h, g, e)
  }

  /** Two batch labels found at the same place are the same label: their first
      letters differ. */
  lemma BatchLabelUnique(s: string, i: nat, k: nat)
    requires k < |BatchLabels| && HasWordAt(s, i, BatchLabels[k])
    ensures LabelAt(s, i, BatchLabels) == Some(|BatchLabels[k]|)
  {
    var r := LabelAt(s, i, BatchLabels);
    var j :| 0 <= j < |BatchLabels| && |BatchLabels[j]| == r.value && HasWordAt(s, i, BatchLabels[j]);
    assert SameLetter(s[i + 0], BatchLabels[j][0]) && SameLetter(s[i + 0], BatchLabels[k][0]);
    assert BatchLabels[j][0] == BatchLabels[k][0];
  }

  /** The label the batch pattern reads is a batch label. */
  lemma BatchLabelFound(s: string, i: nat, len: nat)
    requires LabelAt(s, i, BatchLabels) == Some(len)
    ensures len > 0 && IsBatchLabel(s, i, i + len)
  {
    var k :| 0 <= k < |BatchLabels| && |BatchLabels[k]| == len && HasWordAt(s, i, BatchLabels[k]);
  }

  /** A match of the batch pattern is a label followed by a match of what follows it. */
  lemma BatchIdAtSplit(s: string, i: nat, g: nat, e: nat) returns (len: nat)
    requires BatchIdAt(s, i) == Some(Hit(e, Some(Group(g, e))))
    ensures LabelAt(s, i, BatchLabels) == Some(len)
    ensures IdAfterLabel(s, i + len) == Some(Hit(e, Some(Group(g, e))))
  {
    len := LabelAt(s, i, BatchLabels).value;
  }

  /** A batch label followed by the laid-out identifier is a batch match. */
  lemma BatchMatchOf(s: string, i: nat, a: nat, h: nat, g: nat, e: nat)
    requires i < a && IsBatchLabel(s, i, a) && IsIdLayout(s, a, h, g, e)
    ensures exists a', h' :: IsBatchMatch(s, i, a', h', g, e)
  {
    assert IsBatchMatch(s, i, a, h, g, e);
  }

  /** After the label, the batch pattern is what follows the label. */
  lemma BatchIdAtOfLabel(s: string, i: nat, len: nat, r: Option<Hit>)
    requires LabelAt(s, i, BatchLabels) == Some(len)
    requires IdAfterLabel(s, i + len) == r
    ensures BatchIdAt(s, i) == r
  {
  }

  /** What follows the label, as matched, is laid out as the pattern reads it. */
  lemma IdAfterLabelLayout(s: string, a: nat, g: nat, e: nat) returns (h: nat)
    requires IdAfterLabel(s, a) == Some(Hit(e, Some(Group(g, e))))
    ensures IsIdLayout(s, a, h, g, e)
  {
    h := a + RunLength(s, a, IsSpace);
  }

  /** What follows a batch label, laid out as the pattern reads it, is matched. */
  lemma IdAfterLabelOfLayout(s: string, a: nat, h: nat, g: nat, e: nat)
    requires IsIdLayout(s, a, h, g, e)
    ensures IdAfterLabel(s, a) == Some(Hit(e, Some(Group(g, e))))
  {
    BatchRuns(s, a, h, g, e);
    IdAfterLabelFromSteps(s, a, h, g, e);
  }

  /** The steps after the label, read off one after the other, give its match. */
  lemma IdAfterLabelFromSteps(s: string, a: nat, h: nat, g: nat, e: nat)
    requires a <= h < g < e <= |s|
    requires RunLength(s, a, IsSpace) == h - a && s[h] == '#'
    requires RunLength(s, h + 1, IsSpace) == g - (h + 1)
    requires RunLength(s, g, IsIdChar) == e - g
    ensures IdAfterLabel(s, a) == Some(Hit(e, Some(Group(g, e))))
  {
  }

  /** The runs the batch pattern reads end where the layout says. */
  lemma BatchRuns(s: string, a: nat, h: nat, g: nat, e: nat)
    requires IsIdLayout(s, a, h, g, e)
    ensures RunLength(s, a, IsSpace) == h - a
    ensures RunLength(s, h + 1, IsSpace) == g - (h + 1)
    ensures RunLength(s, g, IsIdChar) == e - g
  {
    RunLengthExact(s, a, h - a, IsSpace);
    assert IsIdChar(s[g]);
    RunLengthExact(s, h + 1, g - (h + 1), IsSpace);
    RunLengthExact(s, g, e - g, IsIdChar);
  }

  /** Every match of the batch pattern is a laid-out batch identifier. */
  lemma BatchIdAtSound(s: string, i: nat, g: nat, e: nat)
    requires BatchIdAt(s, i) == Some(Hit(e, Some(Group(g, e))))
    ensures exists a, h :: IsBatchMatch(s, i, a, h, g, e)
  {
    var len := BatchIdAtSplit(s, i, g, e);
    BatchLabelFound(s, i, len);
    var h := IdAfterLabelLayout(s, i + len, g, e);
    BatchMatchOf(s, i, i + len, h, g, e);
  }

  /** Every laid-out batch identifier is what the batch pattern matches there. */
  lemma BatchIdAtComplete(s: string, i: nat, a: nat, h: nat, g: nat, e: nat)
    requires IsBatchMatch(s, i, a, h, g, e)
    ensures BatchIdAt(s, i) == Some(Hit(e, Some(Group(g, e))))
  {
    var k :| 0 <= k < |BatchLabels| && HasWordAt(s, i, BatchLabels[k]) && a == i + |BatchLabels[k]|;
    IdAfterLabelOfLayout(s, a, h, g, e);
    BatchLabelUnique(s, i, k);
    BatchIdAtOfLabel(s, i, a - i, Some(Hit(e, Some(Group(g, e)))));
  }

  /** The batch pattern matches exactly the laid-out batch identifiers, capturing
      the identifier. */
  lemma BatchIdAtIff(s: string, i: nat, g: nat, e: nat)
    ensures BatchIdAt(s, i) == Some(Hit(e, Some(Group(g, e))))
      <==> exists a, h :: IsBatchMatch(s, i, a, h, g, e)
  {
    if BatchIdAt(s, i) == Some(Hit(e, Some(Group(g, e)))) {
      BatchIdAtSound(s, i, g, e);
    }
    if exists a, h :: IsBatchMatch(s, i, a, h, g, e) {
      var a, h :| IsBatchMatch(s, i, a, h, g, e);
      BatchIdAtComplete(s, i, a, h, g, e);
    }
  }
}
