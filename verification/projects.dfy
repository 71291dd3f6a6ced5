/** The pure core of the project registry: the list operations behind adding and
    removing a project, and the rewrite of the project section of `MEMORY.md`.

    The registry file and `MEMORY.md` are not read or written here: a `Store`
    holds what reading them produced, and the operations return the store as it
    is after their writes. The fresh identifier and the clock reading that
    `addProject` takes from the runtime are parameters. */
module ProjectManager {
  import opened Wrappers
  import opened Text

  /** One registered project. */
  datatype Project = Project(
    id: string,
    name: string,
    description: string,
    subagentId: Option<string>,
    createdAt: int)

  /** The two files the registry touches: the registry itself (`None` when it is
      missing or does not parse) and `MEMORY.md` (`None` when it is missing). */
  datatype Store = Store(registry: Option<seq<Project>>, memory: Option<string>)

  /** `listProjects`: a missing or unreadable registry reads as the empty list. */
  function ListProjects(store: Store): (r: seq<Project>)
    ensures store.registry.None? ==> r == []
  {
    if store.registry.Some? then store.registry.value else []
  }

  // ---------------------------------------------------------------------------
  // Adding and removing

  /** What `addProject` returns, with the store after its writes. */
  datatype Added = Added(project: Project, store: Store)

  /** `addProject`: the new project goes at the end of the list, and both files are
      rewritten from the extended list. */
  function AddProject(store: Store, name: string, description: string, id: string, now: int): (r: Added)
    ensures r.project.id == id && r.project.name == name && r.project.description == description
    ensures r.project.subagentId.None? && r.project.createdAt == now
    ensures r.store.registry.Some?
    ensures var old_ := ListProjects(store); var new_ := r.store.registry.value;
      && |new_| == |old_| + 1
      && new_[..|old_|] == old_
      && new_[|old_|] == r.project
    ensures r.store.memory == UpdateMemory(store.memory, r.store.registry.value)
  {
    var project := Project(id, name, description, None, now);
    var projects := ListProjects(store) + [project];
    Added(project, Store(Some(projects), UpdateMemory(store.memory, projects)))
  }

  /** `projects.filter(p => p.id !== id)`. */
  function Without(ps: seq<Project>, id: string): (r: seq<Project>)
    ensures |r| <= |ps|
    ensures forall k :: 0 <= k < |r| ==> r[k].id != id && r[k] in ps
    ensures forall k :: 0 <= k < |ps| && ps[k].id != id ==> ps[k] in r
    ensures |r| == |ps| <==> forall k :: 0 <= k < |ps| ==> ps[k].id != id
  {
    if |ps| == 0 then []
    else
      var rest := Without(ps[1..], id);
      assert forall k :: 1 <= k < |ps| ==> ps[k] == ps[1..][k - 1];
      if ps[0].id == id then rest else [ps[0]] + rest
  }

  /** Filtering drops every copy of a project with the id and keeps every copy of
      the others. */
  lemma {:induction false} WithoutCounts(ps: seq<Project>, id: string)
    ensures forall p :: multiset(Without(ps, id))[p] == if p.id == id then 0 else multiset(ps)[p]
  {
    if |ps| > 0 {
      var rest := Without(ps[1..], id);
      WithoutCounts(ps[1..], id);
      assert multiset(ps) == multiset{ps[0]} + multiset(ps[1..]) by {
        assert ps == [ps[0]] + ps[1..];
      }
      if ps[0].id != id {
        assert multiset([ps[0]] + rest) == multiset{ps[0]} + multiset(rest);
      }
    }
  }

  /** What `removeProject` returns, with the store after its writes. */
  datatype Removal = Removal(removed: bool, store: Store)

  /** `removeProject`: when no project carries the id nothing is written and the
      answer is false; otherwise both files are rewritten from the filtered list. */
  function RemoveProject(store: Store, id: string): (r: Removal)
    ensures !r.removed <==> forall k :: 0 <= k < |ListProjects(store)| ==> ListProjects(store)[k].id != id
    ensures !r.removed ==> r.store == store
    ensures r.removed ==>
      var filtered := Without(ListProjects(store), id);
      && r.store == Store(Some(filtered), UpdateMemory(store.memory, filtered))
      && |filtered| < |ListProjects(store)|
  {
    var projects := ListProjects(store);
    var filtered := Without(projects, id);
    if |filtered| == |projects| then Removal(false, store)
    else Removal(true, Store(Some(filtered), UpdateMemory(store.memory, filtered)))
  }

  /** Filtering keeps the order of the list: it works piece by piece. */
  lemma {:induction false} WithoutAppend(a: seq<Project>, b: seq<Project>, id: string)
    ensures Without(a + b, id) == Without(a, id) + Without(b, id)
  {
    if |a| > 0 {
      assert (a + b)[0] == a[0];
      assert (a + b)[1..] == a[1..] + b;
      WithoutAppend(a[1..], b, id);
      if a[0].id == id {
        assert Without(a + b, id) == Without(a[1..] + b, id);
        assert Without(a, id) == Without(a[1..], id);
      } else {
        assert Without(a + b, id) == [a[0]] + Without(a[1..] + b, id);
        assert Without(a, id) == [a[0]] + Without(a[1..], id);
      }
    } else {
      assert a + b == b;
    }
  }

  /** A list without the id is left as it is by the filter. */
  lemma {:induction false} WithoutAbsent(ps: seq<Project>, id: string)
    requires forall k :: 0 <= k < |ps| ==> ps[k].id != id
    ensures Without(ps, id) == ps
  {
    if |ps| > 0 {
      WithoutAbsent(ps[1..], id);
    }
  }

  /** Removing a project that was just added with a fresh id gives back the list
      as it was before the addition. */
  lemma RemoveAfterAdd(store: Store, name: string, description: string, id: string, now: int)
    requires forall k :: 0 <= k < |ListProjects(store)| ==> ListProjects(store)[k].id != id
    ensures var added := AddProject(store, name, description, id, now);
      var removal := RemoveProject(added.store, id);
      removal.removed && removal.store.registry == Some(ListProjects(store))
  {
    var ps := ListProjects(store);
    var p := Project(id, name, description, None, now);
    var added := AddProject(store, name, description, id, now);
    assert ListProjects(added.store) == ps + [p];
    WithoutAddedLast(ps, p);
  }

  /** Filtering out the id of the last project, which no earlier project carries. */
  lemma WithoutAddedLast(ps: seq<Project>, p: Project)
    requires forall k :: 0 <= k < |ps| ==> ps[k].id != p.id
    ensures Without(ps + [p], p.id) == ps
  {
    WithoutAppend(ps, [p], p.id);
    WithoutAbsent(ps, p.id);
    assert Without([p], p.id) == [];
  }

  /** Reading the registry back after `addProject` gives the old list with the new
      project at its end. */
  lemma ListAfterAdd(store: Store, name: string, description: string, id: string, now: int)
    ensures var added := AddProject(store, name, description, id, now);
      ListProjects(added.store) == ListProjects(store) + [added.project]
  {
    var added := AddProject(store, name, description, id, now);
    var ps := ListProjects(store);
    var qs := ListProjects(added.store);
    assert qs == qs[..|ps|] + [qs[|ps|]];
  }

  /** Reading the registry back after `removeProject` gives the filtered list,
      whether or not anything was removed. */
  lemma ListAfterRemove(store: Store, id: string)
    ensures ListProjects(RemoveProject(store, id).store) == Without(ListProjects(store), id)
  {
    var ps := ListProjects(store);
    if !RemoveProject(store, id).removed {
      WithoutAbsent(ps, id);
      if store.registry.None? {
        assert ps == [];
      }
    }
  }

  /** Removing an id twice: the second removal finds nothing and writes nothing. */
  lemma RemoveTwice(store: Store, id: string)
    ensures var first := RemoveProject(store, id);
      var second := RemoveProject(first.store, id);
      !second.removed && second.store == first.store
  {
  }

  // ---------------------------------------------------------------------------
  // The project section of MEMORY.md

  /** The section header; its second word is U+1F4C2 (open file folder). */
  const SectionHeader: string := "## \U{1F4C2} Active Projects (Managed by Osmo)"

  /** The line that stands for an empty list, and the body it makes. */
  const EmptyLine: string := "_No active projects._"
  const EmptyNote: string := EmptyLine + "\n"

  /** What starts the next section. */
  const NextHeading: string := "\n## "

  predicate NoNewline(s: string) {
    forall k :: 0 <= k < |s| ==> s[k] != '\n'
  }

  /** No field of any project holds a line break. */
  predicate FieldsOnOneLine(ps: seq<Project>) {
    forall k :: 0 <= k < |ps| ==>
      NoNewline(ps[k].name) && NoNewline(ps[k].description) && NoNewline(ps[k].id)
  }

  /** The line of one project, without its line break. */
  function LineText(p: Project): string {
    "- **" + p.name + "**: " + p.description + " (ID: " + p.id + ")"
  }

  /** The text of each project's line, in list order. */
  function LineTexts(ps: seq<Project>): seq<string> {
    seq(|ps|, k requires 0 <= k < |ps| => LineText(ps[k]))
  }

  /** The lines of the projects, one per project, in list order. */
  function Lines(ps: seq<Project>): string {
    if |ps| == 0 then "" else LineText(ps[0]) + "\n" + Lines(ps[1..])
  }

  /** The text that replaces the section: the header line, then the note for an
      empty list or one line per project. */
  function RenderSection(header: string, ps: seq<Project>): (r: string)
    ensures NoNewline(header) && FieldsOnOneLine(ps) ==>
      Count(r, '\n') == 1 + (if |ps| == 0 then 1 else |ps|)
  {
    var body := if |ps| == 0 then EmptyNote else Lines(ps);
    SectionLineCount(header, ps, body);
    header + "\n" + body
  }

  /** The header line, then one line per project or the note that there are none. */
  lemma SectionLineCount(header: string, ps: seq<Project>, body: string)
    requires body == if |ps| == 0 then EmptyNote else Lines(ps)
    ensures NoNewline(header) && FieldsOnOneLine(ps) ==>
      Count(header + "\n" + body, '\n') == 1 + (if |ps| == 0 then 1 else |ps|)
  {
    assert header + "\n" + body == header + ("\n" + body);
    CountAppend(header, "\n" + body, '\n');
    CountAppend("\n", body, '\n');
    if NoNewline(header) && FieldsOnOneLine(ps) {
      CountAbsent(header, '\n');
      if |ps| == 0 {
        EmptyNoteCount();
      } else {
        LinesCount(ps);
      }
    }
  }

  /** Read line by line, the section is the header, then the note for an empty
      list or each project's line in list order, then nothing after the last
      line break. */
  lemma SectionLines(header: string, ps: seq<Project>)
    requires NoNewline(header) && FieldsOnOneLine(ps)
    ensures Split(RenderSection(header, ps), '\n')
      == [header] + (if |ps| == 0 then [EmptyLine] else LineTexts(ps)) + [""]
  {
    var body := if |ps| == 0 then EmptyNote else Lines(ps);
    assert '\n' !in header by {
      forall c | c in header ensures c != '\n' {
        var k :| 0 <= k < |header| && header[k] == c;
      }
    }
    assert RenderSection(header, ps) == header + ['\n'] + body;
    SplitAfterPiece(header, '\n', body);
    if |ps| == 0 {
      EmptyNoteSplit(EmptyNote, EmptyLine);
    } else {
      LinesSplit(ps);
    }
  }

  lemma EmptyNoteSplit(note: string, line: string)
    requires line == "_No active projects._" && note == line + "\n"
    ensures Split(note, '\n') == [line, ""]
  {
    assert '\n' !in line;
    assert note == line + ['\n'] + "";
    SplitAfterPiece(line, '\n', "");
  }

  /** Read line by line, the project list is each project's line, in order, then
      nothing after the last line break. */
  lemma {:induction false} LinesSplit(ps: seq<Project>)
    requires FieldsOnOneLine(ps)
    ensures Split(Lines(ps), '\n') == LineTexts(ps) + [""]
  {
    if |ps| == 0 {
      assert LineTexts(ps) == [];
    } else {
      var p := ps[0];
      LineTextOneLine(p);
      var t := LineText(p);
      assert '\n' !in t by {
        forall c | c in t ensures c != '\n' {
          var k :| 0 <= k < |t| && t[k] == c;
        }
      }
      assert FieldsOnOneLine(ps[1..]) by {
        forall k | 0 <= k < |ps[1..]|
          ensures NoNewline(ps[1..][k].name) && NoNewline(ps[1..][k].description) && NoNewline(ps[1..][k].id)
        {
          assert ps[1..][k] == ps[k + 1];
        }
      }
      LinesSplit(ps[1..]);
      assert Lines(ps) == t + ['\n'] + Lines(ps[1..]);
      SplitAfterPiece(t, '\n', Lines(ps[1..]));
      assert LineTexts(ps) == [t] + LineTexts(ps[1..]);
    }
  }

  /** The note for an empty list is one line. */
  lemma EmptyNoteCount()
    ensures Count(EmptyNote, '\n') == 1
  {
    NoteCount(EmptyNote, EmptyLine, "\n");
  }

  lemma NoteCount(note: string, text: string, nl: string)
    requires text == "_No active projects._" && nl == "\n" && note == text + nl
    ensures Count(note, '\n') == 1
  {
    CountAppend(text, nl, '\n');
    CountAbsent(text, '\n');
    assert Count(nl, '\n') == 1 + Count(nl[1..], '\n');
  }

  /** Where the section found at `start` ends: the first `"\n## "` at or after
      `start + 1`, or the end of the text. */
  function SectionEnd(content: string, start: nat): (e: nat)
    requires start < |content|
    ensures start < e <= |content|
    ensures e == |content| || OccursAt(content, NextHeading, e)
    ensures forall j :: start < j < e ==> !OccursAt(content, NextHeading, j)
  {
    var next := IndexOf(content, NextHeading, start + 1);
    if next >= 0 then next else |content|
  }

  /** The splice of `updateMemory`: the section replaces the span from the first
      occurrence of the header to the end of that section, or is appended after a
      blank line when the header does not occur. */
  function Splice(content: string, header: string, section: string): (r: string)
    requires |header| > 0
    ensures IndexOf(content, header, 0) == -1 ==> r == content + "\n\n" + section
  {
    var start := IndexOf(content, header, 0);
    if start >= 0 then
      content[..start] + section + content[SectionEnd(content, start)..]
    else
      content + "\n\n" + section
  }

  /** `updateMemory`: a missing `MEMORY.md` is left missing. */
  function UpdateMemory(memory: Option<string>, ps: seq<Project>): (r: Option<string>)
    ensures r.Some? <==> memory.Some?
  {
    if memory.None? then None
    else Some(Splice(memory.value, SectionHeader, RenderSection(SectionHeader, ps)))
  }

  // ---------------------------------------------------------------------------
  // Facts about the section text

  /** The lines appended one more project at a time: one line per project, in order. */
  lemma {:induction false} LinesAppend(ps: seq<Project>, p: Project)
    ensures Lines(ps + [p]) == Lines(ps) + (LineText(p) + "\n")
  {
    if |ps| == 0 {
      assert Lines([p]) == LineText(p) + "\n" + Lines([]);
    } else {
      assert (ps + [p])[1..] == ps[1..] + [p];
      LinesAppend(ps[1..], p);
    }
  }

  /** With every field on one line, the list has exactly one line per project. */
  lemma {:induction false} LinesCount(ps: seq<Project>)
    requires FieldsOnOneLine(ps)
    ensures Count(Lines(ps), '\n') == |ps|
  {
    if |ps| > 0 {
      var p := ps[0];
      LineTextOneLine(p);
      CountAbsent(LineText(p), '\n');
      CountAppend(LineText(p), "\n", '\n');
      CountAppend(LineText(p) + "\n", Lines(ps[1..]), '\n');
      assert FieldsOnOneLine(ps[1..]) by {
        forall k | 0 <= k < |ps[1..]| ensures NoNewline(ps[1..][k].name) {
          assert ps[1..][k] == ps[k + 1];
        }
      }
      LinesCount(ps[1..]);
    }
  }

  lemma NoNewlineConcat(a: string, b: string)
    requires NoNewline(a) && NoNewline(b)
    ensures NoNewline(a + b)
  {
    forall k | 0 <= k < |a + b| ensures (a + b)[k] != '\n' {
      if k >= |a| {
        assert (a + b)[k] == b[k - |a|];
      }
    }
  }

  lemma LineTextOneLine(p: Project)
    requires NoNewline(p.name) && NoNewline(p.description) && NoNewline(p.id)
    ensures NoNewline(LineText(p)) && LineText(p)[0] == '-'
  {
    var a, b, c, d := "- **", "**: ", " (ID: ", ")";
    assert NoNewline(a) && NoNewline(b) && NoNewline(c) && NoNewline(d);
    NoNewlineConcat(a, p.name);
    NoNewlineConcat(a + p.name, b);
    NoNewlineConcat(a + p.name + b, p.description);
    NoNewlineConcat(a + p.name + b + p.description, c);
    NoNewlineConcat(a + p.name + b + p.description + c, p.id);
    NoNewlineConcat(a + p.name + b + p.description + c + p.id, d);
  }

  /** Every line break of `s` but the last is followed by something other than `#`,
      and `s` ends with a line break: no `"\n## "` can start inside it. */
  predicate Closed(s: string) {
    && |s| > 0 && s[|s| - 1] == '\n'
    && forall j :: 0 <= j < |s| - 1 && s[j] == '\n' ==> s[j + 1] != '#'
  }

  lemma ClosedLine(t: string)
    requires NoNewline(t)
    ensures Closed(t + "\n")
  {
    forall j | 0 <= j < |t + "\n"| - 1 ensures (t + "\n")[j] != '\n' {
      assert (t + "\n")[j] == t[j];
    }
  }

  lemma ClosedAppend(a: string, b: string)
    requires Closed(a) && Closed(b) && b[0] != '#'
    ensures Closed(a + b)
  {
    var s := a + b;
    forall j | 0 <= j < |s| - 1 && s[j] == '\n' ensures s[j + 1] != '#' {
      if j >= |a| {
        assert s[j] == b[j - |a|] && s[j + 1] == b[j + 1 - |a|];
      } else if j < |a| - 1 {
        assert s[j] == a[j] && s[j + 1] == a[j + 1];
      } else {
        assert s[j + 1] == b[0];
      }
    }
    assert s[|s| - 1] == b[|b| - 1];
  }

  lemma {:induction false} ClosedLines(ps: seq<Project>)
    requires |ps| > 0 && FieldsOnOneLine(ps)
    ensures Closed(Lines(ps)) && Lines(ps)[0] == '-'
  {
    var p := ps[0];
    LineTextOneLine(p);
    ClosedLine(LineText(p));
    if |ps| == 1 {
      assert Lines(ps) == LineText(p) + "\n";
    } else {
      assert FieldsOnOneLine(ps[1..]) by {
        forall k | 0 <= k < |ps[1..]| ensures NoNewline(ps[1..][k].name) {
          assert ps[1..][k] == ps[k + 1];
        }
      }
      ClosedLines(ps[1..]);
      ClosedAppend(LineText(p) + "\n", Lines(ps[1..]));
    }
  }

  lemma EmptyNoteClosed()
    ensures Closed(EmptyNote) && EmptyNote[0] == '_'
  {
    ClosedLine("_No active projects._");
    assert EmptyNote == "_No active projects._" + "\n";
  }

  /** The rendered section begins with the header line and cannot hold the start of
      another section. */
  lemma {:induction false} SectionClosed(header: string, ps: seq<Project>)
    requires NoNewline(header) && FieldsOnOneLine(ps)
    ensures Closed(RenderSection(header, ps))
    ensures RenderSection(header, ps)[..|header|] == header
  {
    ClosedLine(header);
    if |ps| == 0 {
      EmptyNoteClosed();
      ClosedAppend(header + "\n", EmptyNote);
    } else {
      ClosedLines(ps);
      ClosedAppend(header + "\n", Lines(ps));
    }
  }

  lemma HeaderOneLine()
    ensures |SectionHeader| > 0 && NoNewline(SectionHeader)
  {
  }

  // ---------------------------------------------------------------------------
  // Occurrences and searches

  /** Whether a pattern occurs at `j` depends only on the text up to the pattern's end. */
  lemma OccursAtAgree(a: string, b: string, n: nat, pat: string, j: nat)
    requires n <= |a| && n <= |b| && a[..n] == b[..n] && j + |pat| <= n
    ensures OccursAt(a, pat, j) <==> OccursAt(b, pat, j)
  {
    assert a[j..j + |pat|] == a[..n][j..j + |pat|];
    assert b[j..j + |pat|] == b[..n][j..j + |pat|];
  }

  /** Occurrences inside the second half of a concatenation, counted from its start. */
  lemma OccursAtShift(p: string, t: string, pat: string, j: nat)
    ensures OccursAt(p + t, pat, |p| + j) <==> OccursAt(t, pat, j)
  {
    if j + |pat| <= |t| {
      assert (p + t)[|p| + j..|p| + j + |pat|] == t[j..j + |pat|];
    }
  }

  lemma IndexOfFrom(s: string, pat: string, from: nat, k: nat)
    requires from <= k && OccursAt(s, pat, k)
    requires forall j :: from <= j < k ==> !OccursAt(s, pat, j)
    ensures IndexOf(s, pat, from) == k
  {
    IndexOfFinds(s, pat, from, k);
  }

  lemma IndexOfNone(s: string, pat: string, from: nat)
    requires from <= |s|
    requires forall j :: from <= j <= |s| ==> !OccursAt(s, pat, j)
    ensures IndexOf(s, pat, from) == -1
  {
  }

  /** No `"\n## "` starts inside a closed text when what follows it is empty or
      starts with a line break. */
  lemma NoHeadingInside(s: string, t: string, j: nat)
    requires Closed(s) && (|t| == 0 || t[0] == '\n') && j < |s|
    ensures !OccursAt(s + t, NextHeading, j)
  {
    if j + 4 <= |s + t| {
      assert (s + t)[j] != '\n' || (s + t)[j + 1] != '#' by {
        if j < |s| - 1 {
          assert (s + t)[j] == s[j] && (s + t)[j + 1] == s[j + 1];
        } else {
          assert (s + t)[j + 1] == t[0];
        }
      }
      assert (s + t)[j..j + 4][0] == (s + t)[j] && (s + t)[j..j + 4][1] == (s + t)[j + 1];
      assert NextHeading[0] == '\n' && NextHeading[1] == '#';
    }
  }

  // ---------------------------------------------------------------------------
  // The splice

  /** With the header present, the text is divided at its first occurrence and at
      the end of that section; the parts outside are kept and only the span
      between is replaced. */
  lemma SpliceReplacesSpan(content: string, header: string, section: string)
    requires |header| > 0 && IndexOf(content, header, 0) >= 0
    ensures var start := IndexOf(content, header, 0);
      var r := Splice(content, header, section);
      && OccursAt(content, header, start)
      && (forall j :: 0 <= j < start ==> !OccursAt(content, header, j))
      && r[..start] == content[..start]
      && r[start..start + |section|] == section
      && r[start + |section|..] == content[SectionEnd(content, start)..]
  {
    var start := IndexOf(content, header, 0);
    var r := Splice(content, header, section);
    var rest := content[SectionEnd(content, start)..];
    assert r == content[..start] + section + rest;
    assert r[start..start + |section|] == section;
    assert r[start + |section|..] == rest;
  }

  /** A text that already holds the section in place, with the header occurring
      nowhere earlier and the next section (if any) right after it, is left as it
      is by the splice. */
  lemma SpliceStable(p: string, s: string, rest: string, header: string)
    requires |header| > 0 && |header| <= |s| && s[..|header|] == header && Closed(s)
    requires |rest| == 0 || OccursAt(rest, NextHeading, 0)
    requires forall j :: 0 <= j < |p| ==> !OccursAt(p + s + rest, header, j)
    ensures Splice(p + s + rest, header, s) == p + s + rest
  {
    var content := p + s + rest;
    assert content == p + (s + rest);
    assert OccursAt(content, header, |p|) by {
      assert content[|p|..|p| + |header|] == s[..|header|];
    }
    IndexOfExact(content, header, |p|);
    NoHeadingAfter(p, s, rest);
    if |rest| > 0 {
      assert content == (p + s) + rest;
      OccursAtShift(p + s, rest, NextHeading, 0);
      IndexOfFrom(content, NextHeading, |p| + 1, |p| + |s|);
    } else {
      IndexOfNone(content, NextHeading, |p| + 1);
    }
    assert SectionEnd(content, |p|) == |p| + |s|;
    assert content[..|p|] == p;
    assert content[|p| + |s|..] == rest;
  }

  /** No `"\n## "` starts inside a closed text placed between two others, when the
      one after it is empty or starts the next section. */
  lemma NoHeadingAfter(p: string, s: string, rest: string)
    requires Closed(s)
    requires |rest| == 0 || OccursAt(rest, NextHeading, 0)
    ensures forall j :: |p| <= j < |p| + |s| ==> !OccursAt(p + s + rest, NextHeading, j)
  {
    if |rest| > 0 {
      assert rest[..4] == NextHeading;
      assert rest[0] == '\n';
    }
    assert p + s + rest == p + (s + rest);
    forall j | |p| <= j < |p| + |s| ensures !OccursAt(p + (s + rest), NextHeading, j) {
      NoHeadingInside(s, rest, j - |p|);
      OccursAtShift(p, s + rest, NextHeading, j - |p|);
    }
  }

  /** After a splice, the header occurs nowhere before the spliced section. */
  lemma HeaderNotBefore(content: string, header: string, section: string, j: nat)
    requires |header| > 0 && NoNewline(header)
    requires |header| <= |section| && section[..|header|] == header
    ensures var r := Splice(content, header, section);
      var start := if IndexOf(content, header, 0) >= 0 then IndexOf(content, header, 0) else |content| + 2;
      j < start ==> !OccursAt(r, header, j)
  {
    var found := IndexOf(content, header, 0);
    if found >= 0 && j < found {
      HeaderNotBeforeReplaced(content, header, section, j);
    } else if found < 0 && j < |content| + 2 {
      HeaderNotBeforeAppended(content, header, section, j);
    }
  }

  lemma HeaderNotBeforeReplaced(content: string, header: string, section: string, j: nat)
    requires |header| > 0
    requires |header| <= |section| && section[..|header|] == header
    requires 0 <= j < IndexOf(content, header, 0)
    ensures !OccursAt(Splice(content, header, section), header, j)
  {
    var r := Splice(content, header, section);
    var found := IndexOf(content, header, 0);
    SpliceReplacesSpan(content, header, section);
    var n := found + |header|;
    assert r[..n] == content[..n] by {
      assert r[found..n] == section[..|header|];
      assert content[found..n] == header;
      assert r[..n] == r[..found] + r[found..n];
      assert content[..n] == content[..found] + content[found..n];
    }
    OccursAtAgree(r, content, n, header, j);
  }

  lemma HeaderNotBeforeAppended(content: string, header: string, section: string, j: nat)
    requires |header| > 0 && NoNewline(header)
    requires IndexOf(content, header, 0) == -1 && j < |content| + 2
    ensures !OccursAt(Splice(content, header, section), header, j)
  {
    var r := content + "\n\n" + section;
    if j + |header| <= |content| {
      assert r[..|content|] == content[..|content|];
      OccursAtAgree(r, content, |content|, header, j);
    } else if j + |header| <= |r| {
      var i := if j < |content| then |content| else j;
      assert r[i] == '\n';
      assert r[j..j + |header|][i - j] != header[i - j];
    }
  }

  /** Running the splice a second time with the same section changes nothing. */
  lemma SpliceIdempotent(content: string, header: string, section: string)
    requires |header| > 0 && NoNewline(header)
    requires |header| <= |section| && section[..|header|] == header && Closed(section)
    ensures var once := Splice(content, header, section);
      Splice(once, header, section) == once
  {
    var once := Splice(content, header, section);
    var found := IndexOf(content, header, 0);
    var p, rest;
    if found >= 0 {
      SpliceReplacesSpan(content, header, section);
      p, rest := content[..found], content[SectionEnd(content, found)..];
      var e := SectionEnd(content, found);
      if e < |content| {
        assert rest[0..4] == content[e..e + 4];
      }
    } else {
      p, rest := content + "\n\n", "";
    }
    assert once == p + section + rest;
    forall j | 0 <= j < |p| ensures !OccursAt(once, header, j) {
      HeaderNotBefore(content, header, section, j);
    }
    SpliceStable(p, section, rest, header);
  }

  /** Updating `MEMORY.md` a second time with the same list leaves it as it is,
      provided no name, description or id holds a line break. */
  lemma UpdateMemoryIdempotent(memory: Option<string>, ps: seq<Project>)
    requires FieldsOnOneLine(ps)
    ensures UpdateMemory(UpdateMemory(memory, ps), ps) == UpdateMemory(memory, ps)
  {
    if memory.Some? {
      HeaderOneLine();
      SectionClosed(SectionHeader, ps);
      SpliceIdempotent(memory.value, SectionHeader, RenderSection(SectionHeader, ps));
    }
  }
}
