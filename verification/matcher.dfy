/** The redaction engine of the guard, independent of any particular pattern.

    A pattern is modelled by what a regular expression with one capture group
    answers when it is tried at one position of a text: either no match, or
    where the match ends and which span (if any) the capture group took.
    From that anchored matcher this module builds the leftmost search of
    `RegExp.prototype.exec`, the list of matches a global `String.prototype.replace`
    collects, the rewrite the guard's replacement callback makes of each match,
    and the sequential application of a list of patterns. */
module Matcher {
  import opened Wrappers
  import opened Text

  /** The literal every redacted span becomes. */
  const Placeholder: string := "[REDACTED]"

  /** Span of the capture group inside a match. */
  datatype Group = Group(start: nat, end: nat)

  /** A match found at some position: where it ends, and the capture group's span,
      `None` when the group did not take part in the match. */
  datatype Hit = Hit(end: nat, group: Option<Group>)

  /** A regular expression tried at one position of the whole text (so that `\b`
      can look at the character before that position). */
  type Anchored = (string, nat) -> Option<Hit>

  /** The hit lies inside the text and its group inside the match. */
  predicate WellFormed(s: string, start: nat, h: Hit) {
    && start <= h.end <= |s|
    && (h.group.Some? ==> start <= h.group.value.start <= h.group.value.end <= h.end)
  }

  /** `p` matches `s` at position `i`. An answer that does not lie inside the text
      is not a match. */
  predicate MatchesAt(p: Anchored, s: string, i: nat) {
    i <= |s| && p(s, i).Some? && WellFormed(s, i, p(s, i).value)
  }

  /** A match together with the position it starts at. */
  datatype Found = Found(start: nat, hit: Hit) {
    /** Where the next search begins: after the match, or one further for an
        empty match (`lastIndex` advanced by one). */
    function Resume(): nat {
      if hit.end == start then start + 1 else hit.end
    }
  }

  predicate IsFound(p: Anchored, s: string, f: Found) {
    MatchesAt(p, s, f.start) && p(s, f.start).value == f.hit
  }

  /** No match of `p` starts in `[lo, hi)`. */
  predicate NoMatchBetween(p: Anchored, s: string, lo: nat, hi: nat) {
    forall j :: lo <= j < hi ==> !MatchesAt(p, s, j)
  }

  /** `exec` of a global expression with `lastIndex == from`: the match that starts
      first at or after `from`, if any. */
  function Leftmost(p: Anchored, s: string, from: nat): (r: Option<Found>)
    ensures r.Some? ==> from <= r.value.start && IsFound(p, s, r.value)
    ensures r.Some? ==> NoMatchBetween(p, s, from, r.value.start)
    ensures r.None? ==> NoMatchBetween(p, s, from, |s| + 1)
    decreases |s| + 1 - from
  {
    if from > |s| then None
    else if MatchesAt(p, s, from) then Some(Found(from, p(s, from).value))
    else Leftmost(p, s, from + 1)
  }

  /** Declarative description of the matches a global replace visits from `from`:
      none when no match starts at or after `from`; otherwise the leftmost match
      at or after `from`, followed by the matches visited from where the search
      resumes after it. */
  predicate IsGlobalScan(p: Anchored, s: string, from: nat, fs: seq<Found>)
    decreases |fs|
  {
    if |fs| == 0 then NoMatchBetween(p, s, from, |s| + 1)
    else
      && from <= fs[0].start
      && IsFound(p, s, fs[0])
      && NoMatchBetween(p, s, from, fs[0].start)
      && IsGlobalScan(p, s, fs[0].Resume(), fs[1..])
  }

  /** The matches collected by `String.prototype.replace` with a global expression,
      searching from `from`. */
  function MatchesFrom(p: Anchored, s: string, from: nat): (r: seq<Found>)
    ensures IsGlobalScan(p, s, from, r)
    decreases |s| + 1 - from
  {
    match Leftmost(p, s, from)
    case None => []
    case Some(f) =>
      var rest := MatchesFrom(p, s, f.Resume());
      assert ([f] + rest)[1..] == rest;
      [f] + rest
  }

  function Matches(p: Anchored, s: string): seq<Found> {
    MatchesFrom(p, s, 0)
  }

  /** The global scan is determined: it is the only list of matches that fits the
      declarative description. */
  lemma {:induction false} GlobalScanUnique(p: Anchored, s: string, from: nat, fs: seq<Found>)
    requires IsGlobalScan(p, s, from, fs)
    ensures fs == MatchesFrom(p, s, from)
    decreases |s| + 1 - from
  {
    var l := Leftmost(p, s, from);
    if |fs| == 0 {
      assert l.None?;
    } else {
      var f := fs[0];
      assert MatchesAt(p, s, f.start);
      assert l.Some?;
      assert l.value.start == f.start;
      assert l == Some(f);
      GlobalScanUnique(p, s, f.Resume(), fs[1..]);
      assert fs == [f] + fs[1..];
    }
  }

  /** A replacement of the span `[start, end)` of the text by `text`. */
  datatype Region = Region(start: nat, end: nat, text: string)

  /** The regions lie inside the text, after `from`, in order and without overlap. */
  predicate Ordered(s: string, from: nat, rs: seq<Region>) {
    forall k :: 0 <= k < |rs| ==> RegionFloor(from, rs, k) <= rs[k].start <= rs[k].end <= |s|
  }

  /** Where the `k`-th region may begin at the earliest. */
  function RegionFloor(from: nat, rs: seq<Region>, k: nat): nat
    requires k <= |rs|
  {
    if k == 0 then from else rs[k - 1].end
  }

  /** The text from `from` on with every region replaced by its text and every
      character outside the regions copied unchanged (`SubstituteLayout`). */
  function Substitute(s: string, from: nat, rs: seq<Region>): (r: string)
    requires from <= |s|
    requires Ordered(s, from, rs)
    ensures |rs| == 0 ==> r == s[from..]
    ensures |rs| > 0 ==> s[from..rs[0].start] <= r
    ensures |rs| > 0 ==> EndsWith(r, s[rs[|rs| - 1].end..])
    decreases |rs|
  {
    if |rs| == 0 then s[from..]
    else
      OrderedTail(s, from, rs);
      var rest := Substitute(s, rs[0].end, rs[1..]);
      assert EndsWith(rest, s[rs[|rs| - 1].end..]) by {
        if |rs| > 1 {
          assert rs[1..][|rs[1..]| - 1] == rs[|rs| - 1];
        }
      }
      EndsWithAfter(s[from..rs[0].start] + rs[0].text, rest, s[rs[|rs| - 1].end..]);
      s[from..rs[0].start] + rs[0].text + rest
  }

  /** The regions after the first are ordered from where the first one ends. */
  lemma OrderedTail(s: string, from: nat, rs: seq<Region>)
    requires |rs| > 0 && Ordered(s, from, rs)
    ensures from <= rs[0].start <= rs[0].end <= |s|
    ensures Ordered(s, rs[0].end, rs[1..])
  {
    assert RegionFloor(from, rs, 0) <= rs[0].start <= rs[0].end <= |s|;
    forall k | 0 <= k < |rs[1..]|
      ensures RegionFloor(rs[0].end, rs[1..], k) <= rs[1..][k].start <= rs[1..][k].end <= |s|
    {
      assert rs[1..][k] == rs[k + 1];
      assert RegionFloor(rs[0].end, rs[1..], k) == RegionFloor(from, rs, k + 1);
    }
  }

  /** A suffix of `b` is a suffix of `a + b`. */
  lemma EndsWithAfter(a: string, b: string, t: string)
    requires EndsWith(b, t)
    ensures EndsWith(a + b, t)
  {
    assert (a + b)[|a + b| - |t|..] == b[|b| - |t|..];
  }

  /** How much longer the text has grown once the first `k` regions are replaced. */
  function Growth(rs: seq<Region>, k: nat): int
    requires k <= |rs|
  {
    if k == 0 then 0 else Growth(rs, k - 1) + |rs[k - 1].text| - (rs[k - 1].end - rs[k - 1].start)
  }

  /** Where the `k`-th stretch of untouched text ends: at the start of region `k`,
      or at the end of the text after the last region. It begins at
      `RegionFloor(from, rs, k)`. */
  function GapEnd(s: string, rs: seq<Region>, k: nat): nat
    requires k <= |rs|
  {
    if k < |rs| then rs[k].start else |s|
  }

  /** The `k`-th stretch of untouched text of `s` appears in `r`, shifted by the
      growth of the regions before it. */
  predicate GapKept(s: string, from: nat, rs: seq<Region>, r: string, k: nat)
    requires k <= |rs|
  {
    var a := RegionFloor(from, rs, k);
    var b := GapEnd(s, rs, k);
    var o := a - from + Growth(rs, k);
    a <= b <= |s| && 0 <= o && o + (b - a) <= |r| && r[o..o + (b - a)] == s[a..b]
  }

  /** The text of region `k` appears in `r` where the region began, shifted by the
      growth of the regions before it. */
  predicate TextPlaced(s: string, from: nat, rs: seq<Region>, r: string, k: nat)
    requires k < |rs|
  {
    var o := rs[k].start - from + Growth(rs, k);
    0 <= o && o + |rs[k].text| <= |r| && r[o..o + |rs[k].text|] == rs[k].text
  }

  /** The substituted text is made of the stretches between the regions, each
      copied unchanged, and the texts of the regions, in order: every stretch and
      every region text sits at the offset the lengths before it give. */
  lemma SubstituteLayout(s: string, from: nat, rs: seq<Region>)
    requires from <= |s| && Ordered(s, from, rs)
    ensures |Substitute(s, from, rs)| == |s| - from + Growth(rs, |rs|)
    ensures forall k :: 0 <= k <= |rs| ==> GapKept(s, from, rs, Substitute(s, from, rs), k)
    ensures forall k :: 0 <= k < |rs| ==> TextPlaced(s, from, rs, Substitute(s, from, rs), k)
  {
    SubstituteLength(s, from, rs);
    SubstituteGaps(s, from, rs);
    SubstituteTexts(s, from, rs);
  }

  /** Each region changes the length by the difference of its text and its span. */
  lemma {:induction false} SubstituteLength(s: string, from: nat, rs: seq<Region>)
    requires from <= |s| && Ordered(s, from, rs)
    ensures |Substitute(s, from, rs)| == |s| - from + Growth(rs, |rs|)
    decreases |rs|
  {
    if |rs| > 0 {
      OrderedTail(s, from, rs);
      SubstituteLength(s, rs[0].end, rs[1..]);
      SubstituteCons(s, from, rs);
      GrowthTail(rs, |rs|);
    }
  }

  /** Every stretch between the regions is copied at its shifted offset. */
  lemma {:induction false} SubstituteGaps(s: string, from: nat, rs: seq<Region>)
    requires from <= |s| && Ordered(s, from, rs)
    ensures forall k :: 0 <= k <= |rs| ==> GapKept(s, from, rs, Substitute(s, from, rs), k)
    decreases |rs|
  {
    if |rs| == 0 {
      LayoutEmpty(s, from, rs, Substitute(s, from, rs));
    } else {
      OrderedTail(s, from, rs);
      SubstituteGaps(s, rs[0].end, rs[1..]);
      SubstituteCons(s, from, rs);
      GapsStep(s, from, rs, s[from..rs[0].start] + rs[0].text,
        Substitute(s, rs[0].end, rs[1..]), Substitute(s, from, rs));
    }
  }

  /** Every region's text is placed at its shifted offset. */
  lemma {:induction false} SubstituteTexts(s: string, from: nat, rs: seq<Region>)
    requires from <= |s| && Ordered(s, from, rs)
    ensures forall k :: 0 <= k < |rs| ==> TextPlaced(s, from, rs, Substitute(s, from, rs), k)
    decreases |rs|
  {
    if |rs| > 0 {
      OrderedTail(s, from, rs);
      SubstituteTexts(s, rs[0].end, rs[1..]);
      SubstituteCons(s, from, rs);
      TextsStep(s, from, rs, s[from..rs[0].start] + rs[0].text,
        Substitute(s, rs[0].end, rs[1..]), Substitute(s, from, rs));
    }
  }

  /** One step of the substitution: the stretch before the first region, its
      text, then the substitution of the rest. */
  lemma SubstituteCons(s: string, from: nat, rs: seq<Region>)
    requires from <= |s| && Ordered(s, from, rs) && |rs| > 0
    ensures from <= rs[0].start <= rs[0].end <= |s| && Ordered(s, rs[0].end, rs[1..])
    ensures Substitute(s, from, rs)
      == s[from..rs[0].start] + rs[0].text + Substitute(s, rs[0].end, rs[1..])
  {
    OrderedTail(s, from, rs);
  }

  lemma LayoutEmpty(s: string, from: nat, rs: seq<Region>, r: string)
    requires from <= |s| && |rs| == 0 && r == s[from..]
    ensures GapKept(s, from, rs, r, 0)
  {
    assert Growth(rs, 0) == 0;
    assert RegionFloor(from, rs, 0) == from && GapEnd(s, rs, 0) == |s|;
    assert r[0..|s| - from] == s[from..|s|];
  }

  lemma GapsStep(s: string, from: nat, rs: seq<Region>, head: string, rest: string, r: string)
    requires |rs| > 0 && from <= rs[0].start <= rs[0].end <= |s|
    requires head == s[from..rs[0].start] + rs[0].text && r == head + rest
    requires forall k :: 0 <= k <= |rs| - 1 ==> GapKept(s, rs[0].end, rs[1..], rest, k)
    ensures forall k :: 0 <= k <= |rs| ==> GapKept(s, from, rs, r, k)
  {
    forall k | 0 <= k <= |rs| ensures GapKept(s, from, rs, r, k) {
      if k == 0 {
        assert r[0..rs[0].start - from] == s[from..rs[0].start];
      } else {
        GrowthTail(rs, k);
        GapShift(s, from, rs, head, rest, k);
      }
    }
  }

  lemma TextsStep(s: string, from: nat, rs: seq<Region>, head: string, rest: string, r: string)
    requires |rs| > 0 && from <= rs[0].start <= rs[0].end <= |s|
    requires head == s[from..rs[0].start] + rs[0].text && r == head + rest
    requires forall k :: 0 <= k < |rs| - 1 ==> TextPlaced(s, rs[0].end, rs[1..], rest, k)
    ensures forall k :: 0 <= k < |rs| ==> TextPlaced(s, from, rs, r, k)
  {
    forall k | 0 <= k < |rs| ensures TextPlaced(s, from, rs, r, k) {
      if k == 0 {
        assert r[rs[0].start - from..rs[0].start - from + |rs[0].text|] == rs[0].text;
      } else {
        GrowthTail(rs, k);
        TextShift(s, from, rs, head, rest, k);
      }
    }
  }

  /** The growth of the first `k` regions is that of the first one plus that of
      the next `k - 1`. */
  lemma {:induction false} GrowthTail(rs: seq<Region>, k: nat)
    requires 1 <= k <= |rs|
    ensures Growth(rs, k) == Growth(rs, 1) + Growth(rs[1..], k - 1)
  {
    if k > 1 {
      GrowthTail(rs, k - 1);
      assert rs[1..][k - 2] == rs[k - 1];
    }
  }

  /** A slice of the part after `head` is the same slice of `rest`, moved by `|head|`. */
  lemma SliceAfter(head: string, rest: string, i: nat, j: nat)
    requires i <= j <= |rest|
    ensures (head + rest)[|head| + i..|head| + j] == rest[i..j]
  {
  }

  /** A gap after the first region is where the layout of the rest puts it,
      moved by the length of what comes before the rest. */
  lemma GapShift(s: string, from: nat, rs: seq<Region>, head: string, rest: string, k: nat)
    requires 1 <= k <= |rs| && from <= rs[0].start <= rs[0].end <= |s|
    requires head == s[from..rs[0].start] + rs[0].text
    requires GapKept(s, rs[0].end, rs[1..], rest, k - 1)
    requires Growth(rs, k) == Growth(rs, 1) + Growth(rs[1..], k - 1)
    ensures GapKept(s, from, rs, head + rest, k)
  {
    var a := RegionFloor(from, rs, k);
    assert a == RegionFloor(rs[0].end, rs[1..], k - 1);
    var b := GapEnd(s, rs, k);
    assert b == GapEnd(s, rs[1..], k - 1);
    var o' := a - rs[0].end + Growth(rs[1..], k - 1);
    assert a - from + Growth(rs, k) == |head| + o';
    SliceAfter(head, rest, o', o' + (b - a));
  }

  /** A region text after the first is where the layout of the rest puts it,
      moved by the length of what comes before the rest. */
  lemma TextShift(s: string, from: nat, rs: seq<Region>, head: string, rest: string, k: nat)
    requires 1 <= k < |rs| && from <= rs[0].start <= rs[0].end <= |s|
    requires head == s[from..rs[0].start] + rs[0].text
    requires TextPlaced(s, rs[0].end, rs[1..], rest, k - 1)
    requires Growth(rs, k) == Growth(rs, 1) + Growth(rs[1..], k - 1)
    ensures TextPlaced(s, from, rs, head + rest, k)
  {
    assert rs[1..][k - 1] == rs[k];
    var o' := rs[k].start - rs[0].end + Growth(rs[1..], k - 1);
    assert rs[k].start - from + Growth(rs, k) == |head| + o';
    SliceAfter(head, rest, o', o' + |rs[k].text|);
  }

  /** Where the placeholder goes inside a match that has a captured string. */
  datatype Placement =
    | FirstOccurrence  // the source: `match.replace(captured, "[REDACTED]")`
    | AtGroup          // the capture group's own span

  /** What the replacement callback makes of one match: without a captured string,
      the whole match becomes the placeholder; with one, the placement decides. */
  function Rewrite(s: string, f: Found, placement: Placement): (r: Region)
    requires WellFormed(s, f.start, f.hit)
    ensures f.start <= r.start <= r.end <= f.hit.end
    ensures f.hit.group.None? ==> r == Region(f.start, f.hit.end, Placeholder)
  {
    var m := s[f.start..f.hit.end];
    match f.hit.group
    case None => Region(f.start, f.hit.end, Placeholder)
    case Some(g) =>
      match placement
      case FirstOccurrence => Region(f.start, f.hit.end, ReplaceFirst(m, s[g.start..g.end], Placeholder))
      case AtGroup => Region(g.start, g.end, Placeholder)
  }

  /** As written, the captured text is looked up again inside the match: the
      placeholder replaces its first occurrence, which lies at or before the
      group's own offset, and the rest of the match is kept around it. */
  lemma RewriteFirstOccurrence(s: string, f: Found, g: Group)
    requires WellFormed(s, f.start, f.hit)
    requires f.hit.group == Some(g)
    ensures
      var m := s[f.start..f.hit.end];
      var c := s[g.start..g.end];
      var k := IndexOf(m, c, 0);
      && 0 <= k <= g.start - f.start
      && Rewrite(s, f, FirstOccurrence).text == m[..k] + Placeholder + m[k + |c|..]
  {
    var m := s[f.start..f.hit.end];
    var c := s[g.start..g.end];
    SliceOfSlice(s, f.start, f.hit.end, g.start - f.start, g.start - f.start + |c|);
    IndexOfFinds(m, c, 0, g.start - f.start);
  }

  function Rewrites(s: string, fs: seq<Found>, placement: Placement): (rs: seq<Region>)
    requires forall k :: 0 <= k < |fs| ==> WellFormed(s, fs[k].start, fs[k].hit)
    ensures |rs| == |fs|
    ensures forall k :: 0 <= k < |fs| ==> rs[k] == Rewrite(s, fs[k], placement)
  {
    seq(|fs|, k requires 0 <= k < |fs| => Rewrite(s, fs[k], placement))
  }

  lemma OrderedCons(s: string, from: nat, r: Region, rs: seq<Region>)
    requires from <= r.start <= r.end <= |s|
    requires Ordered(s, r.end, rs)
    ensures Ordered(s, from, [r] + rs)
  {
    var all := [r] + rs;
    forall k | 0 <= k < |all|
      ensures RegionFloor(from, all, k) <= all[k].start <= all[k].end <= |s|
    {
      if k > 0 {
        assert all[k] == rs[k - 1];
        assert RegionFloor(from, all, k) == RegionFloor(r.end, rs, k - 1);
      }
    }
  }

  lemma OrderedWeaken(s: string, a: nat, b: nat, rs: seq<Region>)
    requires b <= a && Ordered(s, a, rs)
    ensures Ordered(s, b, rs)
  {
    forall k | 0 <= k < |rs|
      ensures RegionFloor(b, rs, k) <= rs[k].start <= rs[k].end <= |s|
    {
      assert RegionFloor(a, rs, k) <= rs[k].start;
    }
  }

  /** The rewrites of the matches of a global scan lie in order and do not overlap;
      with `FirstOccurrence` they are the match spans themselves, so the matches of a
      pass never overlap. */
  lemma {:induction false} RewritesOrdered(p: Anchored, s: string, from: nat, fs: seq<Found>, placement: Placement)
    requires IsGlobalScan(p, s, from, fs)
    ensures forall k :: 0 <= k < |fs| ==> WellFormed(s, fs[k].start, fs[k].hit)
    ensures Ordered(s, from, Rewrites(s, fs, placement))
    decreases |fs|
  {
    if |fs| > 0 {
      var f := fs[0];
      RewritesOrdered(p, s, f.Resume(), fs[1..], placement);
      assert forall k :: 0 <= k < |fs| ==> WellFormed(s, fs[k].start, fs[k].hit) by {
        forall k | 0 <= k < |fs| ensures WellFormed(s, fs[k].start, fs[k].hit) {
          if k > 0 {
            assert fs[k] == fs[1..][k - 1];
          }
        }
      }
      var r := Rewrite(s, f, placement);
      var rest := Rewrites(s, fs[1..], placement);
      assert Rewrites(s, fs, placement) == [r] + rest;
      OrderedWeaken(s, f.Resume(), r.end, rest);
      OrderedCons(s, from, r, rest);
    }
  }

  /** One global replace pass of a pattern over the text. */
  function Pass(p: Anchored, s: string, placement: Placement): (r: string)
    ensures NoMatchBetween(p, s, 0, |s| + 1) ==> r == s
  {
    var fs := Matches(p, s);
    RewritesOrdered(p, s, 0, fs, placement);
    Substitute(s, 0, Rewrites(s, fs, placement))
  }

  /** A replace pass keeps every stretch of text between its rewritten spans and
      puts each rewrite's text in place of its span, in order: the text outside the
      matches survives, wherever it lies. */
  lemma PassLayout(p: Anchored, s: string, placement: Placement)
    ensures forall k :: 0 <= k < |Matches(p, s)| ==> WellFormed(s, Matches(p, s)[k].start, Matches(p, s)[k].hit)
    ensures var rs := Rewrites(s, Matches(p, s), placement);
      var r := Pass(p, s, placement);
      && Ordered(s, 0, rs)
      && |r| == |s| + Growth(rs, |rs|)
      && (forall k :: 0 <= k <= |rs| ==> GapKept(s, 0, rs, r, k))
      && (forall k :: 0 <= k < |rs| ==> TextPlaced(s, 0, rs, r, k))
  {
    RewritesOrdered(p, s, 0, Matches(p, s), placement);
    SubstituteLayout(s, 0, Rewrites(s, Matches(p, s), placement));
  }

  /** Text before the first match passes through a replace pass unchanged. */
  lemma PassKeepsPrefix(p: Anchored, s: string, placement: Placement)
    requires |Matches(p, s)| > 0
    ensures Matches(p, s)[0].start <= |s|
    ensures s[..Matches(p, s)[0].start] <= Pass(p, s, placement)
  {
    var fs := Matches(p, s);
    RewritesOrdered(p, s, 0, fs, placement);
    var rs := Rewrites(s, fs, placement);
    assert rs[0] == Rewrite(s, fs[0], placement);
    assert s[..fs[0].start] <= s[0..rs[0].start];
  }

  /** Text after the last match passes through a replace pass unchanged. */
  lemma PassKeepsSuffix(p: Anchored, s: string, placement: Placement)
    requires |Matches(p, s)| > 0
    ensures Matches(p, s)[|Matches(p, s)| - 1].hit.end <= |s|
    ensures EndsWith(Pass(p, s, placement), s[Matches(p, s)[|Matches(p, s)| - 1].hit.end..])
  {
    var fs := Matches(p, s);
    RewritesOrdered(p, s, 0, fs, placement);
    var rs := Rewrites(s, fs, placement);
    var lastEnd := fs[|fs| - 1].hit.end;
    var r := Pass(p, s, placement);
    assert rs[|rs| - 1] == Rewrite(s, fs[|fs| - 1], placement);
    var e := rs[|rs| - 1].end;
    assert e <= lastEnd;
    assert EndsWith(r, s[e..]);
    SuffixOfSuffix(r, s, e, lastEnd);
  }

  lemma SuffixOfSuffix(r: string, s: string, e: nat, l: nat)
    requires e <= l <= |s|
    requires EndsWith(r, s[e..])
    ensures EndsWith(r, s[l..])
  {
    assert s[l..] == s[e..][l - e..];
  }

  /** The patterns applied one after another, each to the text the previous one produced. */
  function ScrubWith(ps: seq<Anchored>, s: string, placement: Placement): (r: string)
    ensures |ps| == 1 ==> r == Pass(ps[0], s, placement)
    decreases |ps|
  {
    if |ps| == 0 then s else ScrubWith(ps[1..], Pass(ps[0], s, placement), placement)
  }

  /** The first pattern runs on the text, the rest on its output. */
  lemma ScrubWithCons(ps: seq<Anchored>, s: string, placement: Placement)
    requires |ps| > 0
    ensures ScrubWith(ps, s, placement) == ScrubWith(ps[1..], Pass(ps[0], s, placement), placement)
  {
  }

  /** Running a list of patterns is running its first part and then, on that
      result, its second part. */
  lemma {:induction false} ScrubWithAppend(ps: seq<Anchored>, qs: seq<Anchored>, s: string, placement: Placement)
    ensures ScrubWith(ps + qs, s, placement) == ScrubWith(qs, ScrubWith(ps, s, placement), placement)
    decreases |ps|
  {
    if |ps| == 0 {
      assert ps + qs == qs;
    } else {
      assert (ps + qs)[1..] == ps[1..] + qs;
      ScrubWithAppend(ps[1..], qs, Pass(ps[0], s, placement), placement);
    }
  }

  /** Text in which no pattern of the list matches passes through unchanged. */
  lemma {:induction false} ScrubWithInert(ps: seq<Anchored>, s: string, placement: Placement)
    requires forall k :: 0 <= k < |ps| ==> NoMatchBetween(ps[k], s, 0, |s| + 1)
    ensures ScrubWith(ps, s, placement) == s
    decreases |ps|
  {
    if |ps| > 0 {
      assert NoMatchBetween(ps[0], s, 0, |s| + 1);
      ScrubWithInert(ps[1..], s, placement);
    }
  }

  /** A pass over text in which the pattern matches exactly once (searching on from
      after that match finds nothing) replaces that one rewritten span. */
  lemma PassSingle(p: Anchored, s: string, f: Found, placement: Placement)
    requires IsFound(p, s, f)
    requires NoMatchBetween(p, s, 0, f.start)
    requires NoMatchBetween(p, s, f.Resume(), |s| + 1)
    ensures Matches(p, s) == [f]
    ensures var r := Rewrite(s, f, placement);
      Pass(p, s, placement) == s[..r.start] + r.text + s[r.end..]
  {
    OnlyMatch(p, s, f);
    PassOfOnlyMatch(p, s, f, placement);
  }

  /** A match with no other before it and none after it is the only one. */
  lemma OnlyMatch(p: Anchored, s: string, f: Found)
    requires IsFound(p, s, f)
    requires NoMatchBetween(p, s, 0, f.start)
    requires NoMatchBetween(p, s, f.Resume(), |s| + 1)
    ensures Matches(p, s) == [f]
  {
    assert [f][1..] == [];
    assert IsGlobalScan(p, s, 0, [f]);
    GlobalScanUnique(p, s, 0, [f]);
  }

  /** A pass that visits one match replaces that match's rewritten span. */
  lemma PassOfOnlyMatch(p: Anchored, s: string, f: Found, placement: Placement)
    requires Matches(p, s) == [f]
    ensures WellFormed(s, f.start, f.hit)
    ensures var r := Rewrite(s, f, placement);
      Pass(p, s, placement) == s[..r.start] + r.text + s[r.end..]
  {
    assert IsGlobalScan(p, s, 0, [f]);
    RewritesOrdered(p, s, 0, [f], placement);
    var r := Rewrite(s, f, placement);
    assert Rewrites(s, [f], placement) == [r];
  }

  /** A single match whose group is the whole match is replaced by the placeholder,
      under either placement. */
  lemma PassWhole(p: Anchored, s: string, start: nat, end: nat, placement: Placement)
    requires IsFound(p, s, Found(start, Hit(end, Some(Group(start, end)))))
    requires NoMatchBetween(p, s, 0, start)
    requires NoMatchBetween(p, s, Found(start, Hit(end, Some(Group(start, end)))).Resume(), |s| + 1)
    ensures start <= end <= |s|
    ensures Pass(p, s, placement) == s[..start] + Placeholder + s[end..]
  {
    var f := Found(start, Hit(end, Some(Group(start, end))));
    PassSingle(p, s, f, placement);
    RewriteWholeMatch(s, f, placement);
  }

  /** With the group placement, a single match keeps everything but its captured
      span, which becomes the placeholder. */
  lemma PassSingleAtGroup(p: Anchored, s: string, f: Found, g: Group)
    requires IsFound(p, s, f) && f.hit.group == Some(g)
    requires NoMatchBetween(p, s, 0, f.start)
    requires NoMatchBetween(p, s, f.Resume(), |s| + 1)
    ensures g.start <= g.end <= |s|
    ensures Pass(p, s, AtGroup) == s[..g.start] + Placeholder + s[g.end..]
  {
    PassSingle(p, s, f, AtGroup);
  }

  /** As written, a single match is rebuilt with the placeholder at the first place
      inside it where the captured text occurs, `k` characters into the match. */
  lemma PassSingleFirstOccurrence(p: Anchored, s: string, f: Found, g: Group, k: nat)
    requires Matches(p, s) == [f]
    requires WellFormed(s, f.start, f.hit) && f.hit.group == Some(g)
    requires OccursAt(s[f.start..f.hit.end], s[g.start..g.end], k)
    requires forall j :: 0 <= j < k ==> !OccursAt(s[f.start..f.hit.end], s[g.start..g.end], j)
    ensures f.start + k + (g.end - g.start) <= f.hit.end <= |s|
    ensures Pass(p, s, FirstOccurrence)
      == s[..f.start + k] + Placeholder + s[f.start + k + (g.end - g.start)..]
  {
    PassAtOccurrence(p, s, f, g, k);
    SpliceThrough(Pass(p, s, FirstOccurrence), s, f.start, f.hit.end, k, g.end - g.start, Placeholder);
  }

  lemma PassAtOccurrence(p: Anchored, s: string, f: Found, g: Group, k: nat)
    requires Matches(p, s) == [f]
    requires WellFormed(s, f.start, f.hit) && f.hit.group == Some(g)
    requires OccursAt(s[f.start..f.hit.end], s[g.start..g.end], k)
    requires forall j :: 0 <= j < k ==> !OccursAt(s[f.start..f.hit.end], s[g.start..g.end], j)
    ensures var m := s[f.start..f.hit.end];
      Pass(p, s, FirstOccurrence)
        == s[..f.start] + (m[..k] + Placeholder + m[k + (g.end - g.start)..]) + s[f.hit.end..]
  {
    PassOfOnlyMatch(p, s, f, FirstOccurrence);
    RewriteAtOccurrence(s, f, g, k);
  }

  /** The source's rewrite of a match whose captured text first occurs `k`
      characters into it. */
  lemma RewriteAtOccurrence(s: string, f: Found, g: Group, k: nat)
    requires WellFormed(s, f.start, f.hit) && f.hit.group == Some(g)
    requires OccursAt(s[f.start..f.hit.end], s[g.start..g.end], k)
    requires forall j :: 0 <= j < k ==> !OccursAt(s[f.start..f.hit.end], s[g.start..g.end], j)
    ensures var m := s[f.start..f.hit.end];
      Rewrite(s, f, FirstOccurrence)
        == Region(f.start, f.hit.end, m[..k] + Placeholder + m[k + (g.end - g.start)..])
  {
    IndexOfExact(s[f.start..f.hit.end], s[g.start..g.end], k);
  }

  /** Rebuilding the span `[a, b)` with `t` in place of its characters `k` to
      `k + n` rebuilds the whole text the same way. */
  lemma SpliceThrough(x: string, s: string, a: nat, b: nat, k: nat, n: nat, t: string)
    requires a + k + n <= b <= |s|
    requires var m := s[a..b]; x == s[..a] + (m[..k] + t + m[k + n..]) + s[b..]
    ensures x == s[..a + k] + t + s[a + k + n..]
  {
    SpliceInside(s, a, b, k, n, t);
  }

  lemma SpliceInside(s: string, a: nat, b: nat, k: nat, n: nat, t: string)
    requires a + k + n <= b <= |s|
    ensures var m := s[a..b];
      s[..a] + (m[..k] + t + m[k + n..]) + s[b..] == s[..a + k] + t + s[a + k + n..]
  {
    var m := s[a..b];
    assert s[..a] + m[..k] == s[..a + k];
    assert m[k + n..] + s[b..] == s[a + k + n..];
  }

  /** When every pattern before `p` leaves the text alone and every pattern after
      it leaves `p`'s output alone, the whole list does what `p` does. */
  lemma ScrubWithOne(ps: seq<Anchored>, p: Anchored, qs: seq<Anchored>, s: string, placement: Placement)
    requires forall k :: 0 <= k < |ps| ==> NoMatchBetween(ps[k], s, 0, |s| + 1)
    requires var t := Pass(p, s, placement);
      forall k :: 0 <= k < |qs| ==> NoMatchBetween(qs[k], t, 0, |t| + 1)
    ensures ScrubWith(ps + [p] + qs, s, placement) == Pass(p, s, placement)
  {
    ScrubWithAppend(ps, [p] + qs, s, placement);
    assert ps + [p] + qs == ps + ([p] + qs);
    ScrubWithInert(ps, s, placement);
    assert ([p] + qs)[1..] == qs;
    ScrubWithInert(qs, Pass(p, s, placement), placement);
  }

  /** When the capture group is the whole match, both placements replace the whole
      match by the placeholder. */
  lemma RewriteWholeMatch(s: string, f: Found, placement: Placement)
    requires WellFormed(s, f.start, f.hit)
    requires f.hit.group == Some(Group(f.start, f.hit.end))
    ensures Rewrite(s, f, placement) == Region(f.start, f.hit.end, Placeholder)
  {
    var m := s[f.start..f.hit.end];
    assert OccursAt(m, m, 0);
  }

  /** When the captured text does not occur in the match before the group's own
      offset, the source's placement and the group placement agree: the text of the
      match around the group is kept and the group becomes the placeholder. */
  lemma PlacementsAgree(s: string, f: Found, g: Group)
    requires WellFormed(s, f.start, f.hit)
    requires f.hit.group == Some(g)
    requires forall j :: 0 <= j < g.start - f.start ==>
      !OccursAt(s[f.start..f.hit.end], s[g.start..g.end], j)
    ensures Rewrite(s, f, FirstOccurrence)
      == Region(f.start, f.hit.end, s[f.start..g.start] + Placeholder + s[g.end..f.hit.end])
    ensures Rewrite(s, f, AtGroup) == Region(g.start, g.end, Placeholder)
  {
    var m := s[f.start..f.hit.end];
    var c := s[g.start..g.end];
    var k := g.start - f.start;
    SliceOfSlice(s, f.start, f.hit.end, k, k + |c|);
    IndexOfExact(m, c, k);
    assert m[..k] == s[f.start..g.start];
    assert m[k + |c|..] == s[g.end..f.hit.end];
  }
}
