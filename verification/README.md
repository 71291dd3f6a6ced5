# Osmo guard, project registry and project controller — a Dafny model

This project models three pieces of the Osmo fork of OpenClaw and proves properties of them.

- **The guard** (`src/security/osmo-guard.ts`) has three parts:
  - The output scrubber runs eight global regular expressions, in order, over tool output. Each match is rewritten to `[REDACTED]` by a callback.
  - The host-environment check refuses dangerous variable names, comparing them after upper-casing.
  - The strict-mode switch decides whether a session is forced into the sandbox.
- **The project registry** (`src/projects/project-manager.ts`) keeps the list of projects. Its list operations are modelled as pure functions: add at the end, and remove by id. Its rewrite of the "Active Projects" section of `MEMORY.md` is modelled as plain string work.
- **The projects controller of the web UI** (`ui/src/ui/controllers/projects.ts`) is modelled for two string transforms:
  - it derives an MCP server name (a slug) from the project name;
  - it splits the MCP command line into the program and its arguments.

The modules are:

| module | file | what it holds |
|---|---|---|
| `Wrappers` | wrappers.dfy | `Option` and `Result` |
| `Text` | text.dfy | the JavaScript string operations the code relies on, modelled in Dafny: character classes, `indexOf`, `replace` with a string pattern, `split`/`join` on one character, ASCII lower-casing, and upper-casing that also covers the non-ASCII characters whose upper-case form is ASCII or longer |
| `Matcher` | matcher.dfy | the generic redaction engine (see below) |
| `Patterns` | patterns.dfy | the eight patterns of lines 43-59 as anchored matchers |
| `PatternFacts` | patterns.dfy | declarative descriptions of the IPv4, Windows path, Unix home, CAS and batch patterns, proved equivalent to the matchers |
| `OsmoGuard` | guard.dfy | deny list, `validateOsmoHostEnv`, `shouldForceSandbox`, `scrubOutput` |
| `ScrubFacts` | scrub_facts.dfy | what the scrubber does to concrete texts |
| `ProjectManager` | projects.dfy | `addProject`, `removeProject`, `updateMemory` with the files abstracted |
| `ProjectsController` | ui_projects.dfy | the server-name slug and the command split |

The generic redaction engine in `Matcher` is built in five steps:

1. A regular expression is an *anchored matcher*: tried at one position of the text, it returns either no match, or where the match ends and the span of its capture group.
2. From the anchored matcher the model builds the leftmost search of `RegExp.prototype.exec`.
3. It then builds the match list of a global `String.prototype.replace`. This includes the one-step advance after an empty match.
4. Each match is rewritten by the callback at lines 70-80.
5. The patterns are applied one after another.

The rewrite comes in two placements:

- `FirstOccurrence` is the code as written, `match.replace(captured, "[REDACTED]")`. It puts the placeholder over the first place in the match where the captured text occurs.
- `AtGroup` puts the placeholder over the capture group's own span.

`OsmoGuard.ScrubOutput` is the scrubber as written. `OsmoGuard.ScrubIntended` is the same scrubber with `AtGroup`.

Each pattern is hand-coded as an anchored matcher that reads greedy runs of disjoint character classes. For these patterns backtracking cannot change the match that is found, so the hand-coded matcher returns the match the regular expression returns. The patterns carry no `u` flag, so:
- `\w`, `\d`, `\b` and the `i` flag are ASCII-only;
- `\s` is the full ECMAScript WhiteSpace and LineTerminator set.

## Model

| member | source | states |
|---|---|---|
| Text.IndexOf | src/projects/project-manager.ts:83 | `indexOf` answers the first position at or after the start where the text occurs, and -1 exactly when it occurs nowhere from there |
| Text.ReplaceFirst | src/security/osmo-guard.ts:76 | replacing with a string pattern changes only its first occurrence: the text before it and after it is kept, and nothing changes when there is none |
| Text.IndexOfExact | src/security/osmo-guard.ts:76 | an occurrence with none before it is the position `indexOf` reports |
| Text.ToUpper | src/security/osmo-guard.ts:98 | every character of the result is its own upper-case form, and the result is never shorter than the input (`ß` becomes `SS`) |
| Text.ToLower | ui/src/ui/controllers/projects.ts:35 | each character is lowered by the ASCII rule and the length is kept |
| Text.ToUpperIgnoresCase | src/security/osmo-guard.ts:98 | upper-casing ignores the ASCII case of the input |
| Text.ToUpperAppend | src/security/osmo-guard.ts:98 | upper-casing works character by character, so it distributes over concatenation |
| Text.JoinSplit | ui/src/ui/controllers/projects.ts:36-37 | joining the pieces of `split` with the separator gives the text back |
| Text.SplitJoin | ui/src/ui/controllers/projects.ts:36-37 | splitting a join of separator-free pieces gives those pieces back |
| Text.Split | ui/src/ui/controllers/projects.ts:36-37 | `split` yields one piece more than there are separators, and no piece holds the separator |
| Matcher.Leftmost | src/security/osmo-guard.ts:70 | the search finds the match that starts first at or after the search position, and no match starts before it |
| Matcher.MatchesFrom | src/security/osmo-guard.ts:43-59 | the global scan visits the leftmost match, then resumes after it (one further after an empty match) |
| Matcher.GlobalScanUnique | src/security/osmo-guard.ts:70 | exactly one match list fits the description of a global scan |
| Matcher.RewritesOrdered | src/security/osmo-guard.ts:70-80 | the matches of one pass lie in order and do not overlap, and neither do the spans their rewrites replace |
| Matcher.Substitute | src/security/osmo-guard.ts:70 | text before the first replaced span and after the last one is copied unchanged; the full layout is `Matcher.SubstituteLayout` |
| Matcher.SubstituteLayout | src/security/osmo-guard.ts:70 | splicing ordered spans gives text whose length is the input's plus each span's growth, in which every gap between spans is copied unchanged and every span's new text stands at its shifted offset; it combines the three lemmas below |
| Matcher.SubstituteLength | src/security/osmo-guard.ts:70 | splicing ordered spans changes the length by each span's text length minus its width |
| Matcher.SubstituteGaps | src/security/osmo-guard.ts:70 | every stretch of the input between spans is copied unchanged, at the offset the earlier spans' growth gives |
| Matcher.SubstituteTexts | src/security/osmo-guard.ts:70 | every span's new text stands at its start shifted by the earlier spans' growth |
| Matcher.Rewrite | src/security/osmo-guard.ts:70-80 | a match's rewrite replaces a span inside the match, and a match without a capture group is replaced whole by the placeholder |
| Matcher.Pass | src/security/osmo-guard.ts:70-80 | a pass over text in which the pattern never matches returns the text unchanged; the full layout is `Matcher.PassLayout` |
| Matcher.PassLayout | src/security/osmo-guard.ts:70-80 | in a pass, the rewrites of the matches lie in order; the text between them is copied unchanged and each rewrite's text stands at its shifted offset, and the length changes by the sum of the rewrites' growth |
| Matcher.PassKeepsPrefix | src/security/osmo-guard.ts:70 | text before the first match survives a pass unchanged |
| Matcher.PassKeepsSuffix | src/security/osmo-guard.ts:70 | text after the last match survives a pass unchanged |
| Matcher.RewriteFirstOccurrence | src/security/osmo-guard.ts:73-77 | as written, the placeholder lands on the first occurrence of the captured text in the match, at or before the group's own offset, and the rest of the match is kept |
| Matcher.RewriteWholeMatch | src/security/osmo-guard.ts:73-79 | a capture group that spans the whole match makes the whole match the placeholder under either placement |
| Matcher.PlacementsAgree | src/security/osmo-guard.ts:73-77 | when the captured text does not occur earlier in the match, the code's placement keeps the label and replaces exactly the group |
| Matcher.PassSingle | src/security/osmo-guard.ts:70-80 | a pass with one match replaces just that match's rewritten span |
| Matcher.PassSingleAtGroup | src/security/osmo-guard.ts:73-77 | with the group placement, a single match keeps everything but the captured span, which becomes the placeholder |
| Matcher.PassSingleFirstOccurrence | src/security/osmo-guard.ts:76 | as written, a single match is rebuilt with the placeholder where the captured text first occurs inside it |
| Matcher.PassWhole | src/security/osmo-guard.ts:76 | a single match captured whole becomes the placeholder |
| Matcher.ScrubWith | src/security/osmo-guard.ts:69-81 | a single pattern is one pass; the loop's meaning is carried by `Matcher.ScrubWithCons` and `Matcher.ScrubWithAppend` |
| Matcher.ScrubWithCons | src/security/osmo-guard.ts:69-71 | the first pattern runs on the input, and the rest run on its output |
| Matcher.ScrubWithAppend | src/security/osmo-guard.ts:69-71 | patterns apply strictly in list order, each on the previous output |
| Matcher.ScrubWithInert | src/security/osmo-guard.ts:65-84 | text that no pattern matches comes out unchanged |
| Matcher.ScrubWithOne | src/security/osmo-guard.ts:65-84 | when the patterns before one leave the text alone and those after it leave its output alone, the scrub is that one pass |
| Patterns.ApiKeyAt | src/security/osmo-guard.ts:43 | a labelled secret spans at least 20 characters, has a `:` or `=` inside it, and its group lies inside the match |
| Patterns.BearerAt | src/security/osmo-guard.ts:45 | a bearer match starts with `b` or `B`, spans at least 23 characters, and captures its token |
| Patterns.IPv4At | src/security/osmo-guard.ts:47 | an IPv4 match starts on a digit, contains a dot, and is captured whole |
| Patterns.WindowsPathAt | src/security/osmo-guard.ts:49 | a Windows path match starts with a letter, `:` and `\` and is captured whole (necessary conditions only; the two-way description is `PatternFacts.WindowsPathAtIff`) |
| Patterns.UnixHomeAt | src/security/osmo-guard.ts:51 | a home-directory match starts with `/home/` or `/Users/` and is captured whole (necessary conditions only; the two-way description is `PatternFacts.UnixHomeAtIff`) |
| Patterns.MeasurementAt | src/security/osmo-guard.ts:55 | a measurement match has a label of word characters and spaces ending at `:` or `=`, then a digit or dot, and its group lies inside the match (necessary conditions only) |
| Patterns.UnitEnd | src/security/osmo-guard.ts:55 | the optional unit after a number stays within the text (necessary conditions only) |
| Patterns.BatchIdAt | src/security/osmo-guard.ts:59 | a batch match holds a `#` after its start and its group lies inside the match (necessary conditions only; the two-way description is `PatternFacts.BatchIdAtIff`) |
| Patterns.CasAt | src/security/osmo-guard.ts:57 | a CAS match starts on a digit and ends with hyphen, two digits, hyphen, digit, with a digit before the first of those hyphens |
| Patterns.OctetDot | src/security/osmo-guard.ts:47 | one octet and its dot take two to four characters |
| Patterns.LabelAt | src/security/osmo-guard.ts:43 | the label found is one of the alternatives, and none is reported only when no alternative is present |
| PatternFacts.IPv4AtIff | src/security/osmo-guard.ts:47 | the IPv4 pattern matches exactly the four dot-separated runs of one to three digits between word boundaries, with no range check on the octets |
| PatternFacts.IPv4AtSound | src/security/osmo-guard.ts:47 | every IPv4 match is a dotted quad between word boundaries |
| PatternFacts.IPv4AtComplete | src/security/osmo-guard.ts:47 | every dotted quad between word boundaries is an IPv4 match |
| PatternFacts.WindowsPathAtIff | src/security/osmo-guard.ts:49 | the Windows path pattern matches exactly a letter, `:`, `\` and a maximal run of word characters, whitespace, `\`, `.`, `_` and `-`, starting at a word boundary, captured whole |
| PatternFacts.WindowsPathAtSound | src/security/osmo-guard.ts:49 | every Windows path match is such a path |
| PatternFacts.WindowsPathAtComplete | src/security/osmo-guard.ts:49 | every such path is a Windows path match |
| PatternFacts.UnixHomeAtIff | src/security/osmo-guard.ts:51 | the home-directory pattern matches exactly `/home/` or `/Users/` followed by a maximal non-empty run of word characters, `.` and `-`, captured whole |
| PatternFacts.UnixHomeAtSound | src/security/osmo-guard.ts:51 | every home-directory match is such a path |
| PatternFacts.UnixHomeAtComplete | src/security/osmo-guard.ts:51 | every such path is a home-directory match |
| PatternFacts.BatchIdAtIff | src/security/osmo-guard.ts:59 | the batch pattern matches exactly a batch label in any ASCII case, spaces, `#`, spaces and a maximal run of identifier characters, capturing the identifier |
| PatternFacts.BatchIdAtSound | src/security/osmo-guard.ts:59 | every batch match is laid out that way |
| PatternFacts.BatchIdAtComplete | src/security/osmo-guard.ts:59 | every batch identifier laid out that way is a batch match |
| PatternFacts.CasAtIff | src/security/osmo-guard.ts:57 | the CAS pattern matches exactly the numbers of two to seven, two and one digits joined by hyphens between word boundaries |
| PatternFacts.CasAtSound | src/security/osmo-guard.ts:57 | every CAS match is a CAS number between word boundaries |
| PatternFacts.CasAtComplete | src/security/osmo-guard.ts:57 | every CAS number between word boundaries is a CAS match |
| OsmoGuard.Classify | src/security/osmo-guard.ts:98-106 | a key is refused by name exactly when its upper-case form is in the deny set; it is refused by prefix exactly when it is not, and the upper-case form starts with `DYLD_`, `LD_` or `AWS_` |
| OsmoGuard.ValidateHostEnv | src/security/osmo-guard.ts:96-108 | validation passes exactly when no key is refused; otherwise it reports the first refused key in order, spelled as given, with its reason |
| OsmoGuard.ValidateIgnoresValues | src/security/osmo-guard.ts:96-108 | values are never inspected: environments with the same keys in the same order get the same verdict |
| OsmoGuard.ClassifyIgnoresCase | src/security/osmo-guard.ts:98 | a key and its lower-case spelling are refused for the same reason |
| OsmoGuard.ValidateIgnoresCase | src/security/osmo-guard.ts:97-106 | lower-casing every key keeps the verdict and the reason; only the reported spelling follows the input |
| OsmoGuard.MessageQuotesKey | src/security/osmo-guard.ts:100-105 | both error messages quote the key exactly as the caller spelled it |
| OsmoGuard.PathAllowed | src/security/osmo-guard.ts:96-108 | `PATH` passes |
| OsmoGuard.LowerCasePreloadRefused | src/security/osmo-guard.ts:98-101 | `ld_preload` carries the `LD_` prefix but is refused by name like `LD_PRELOAD`, because the exact check runs first |
| OsmoGuard.AwsPrefixRefused | src/security/osmo-guard.ts:104-105 | an `AWS_` name outside the list is refused by prefix |
| OsmoGuard.FirstOffenderReported | src/security/osmo-guard.ts:97-106 | the first refused key is reported even when later keys are refused too |
| OsmoGuard.ShouldForceSandbox | src/security/osmo-guard.ts:89-91 | the sandbox is forced exactly when the security section holds the boolean `true` |
| OsmoGuard.SandboxOnlyForTrue | src/security/osmo-guard.ts:90 | a missing section, a missing flag, `false` and truthy non-booleans all leave the sandbox off |
| OsmoGuard.QuietIsIdle | src/security/osmo-guard.ts:43-59 | text without any of the characters `:=./\-#bB` is matched by no pattern |
| OsmoGuard.ScrubOutput | src/security/osmo-guard.ts:65-84 | text without those characters comes out of the scrubber unchanged |
| OsmoGuard.PlaceholderIsInert | src/security/osmo-guard.ts:43-59 | the placeholder on its own is matched by no pattern and scrubs to itself |
| OsmoGuard.ScrubIntended | src/security/osmo-guard.ts:65-84 | the scrubber with the placeholder over the capture group leaves text without those characters unchanged |
| OsmoGuard.ScrubSteps | src/security/osmo-guard.ts:41-83 | the scrubber is the eight passes in array order, each on the previous output |
| ScrubFacts.ServerExample | src/security/osmo-guard.ts:47 | `Server at 10.0.0.55 is up` becomes `Server at [REDACTED] is up` |
| ScrubFacts.ServerAddressRedacted | src/security/osmo-guard.ts:47 | under either placement, `Server at 10.0.0.55 is up` becomes `Server at [REDACTED] is up`: the address is redacted and the words around it are kept |
| ScrubFacts.MeasurementOnly | src/security/osmo-guard.ts:55-59 | short text without dots or slashes, whose measurement pass leaves no CAS number or batch id, is scrubbed by that pass alone |
| ScrubFacts.MeasurementValueLeaks | src/security/osmo-guard.ts:55 | as written `step 1: 1` becomes `step [REDACTED]: 1`, so the measured value stays in the output; with the group placement it becomes `step 1: [REDACTED]` |
| ScrubFacts.ScrubOutputNotIdempotent | src/security/osmo-guard.ts:65-84 | as written, `1: 1: 1` scrubs to `[REDACTED]: 1: 1`, and scrubbing that again gives `[REDACTED]: [REDACTED]: 1` |
| ScrubFacts.ScrubIntendedSettles | src/security/osmo-guard.ts:65-84 | with the group placement, `1: 1: 1` scrubs to `1: [REDACTED]: 1`, which scrubs to itself; the label-side leak of `ScrubOutputNotIdempotent` is gone, but the group placement is not idempotent in general (`ScrubNotIdempotentEither`) |
| ScrubFacts.ScrubNotIdempotentEither | src/security/osmo-guard.ts:49-55 | under either placement `a: 5gC:\x` scrubs to `a: [REDACTED]C:\x`; the placeholder's `]` puts `C:\x` at a word boundary, so a second scrub redacts it too |
| ScrubFacts.CasAfterMeasurement | src/security/osmo-guard.ts:55-57 | `CAS: 123-45-6` becomes `CAS: [REDACTED]-45-6` under both placements: the measurement pattern takes `123`, and the CAS pattern no longer finds a number |
| ProjectManager.ListProjects | src/projects/project-manager.ts:31-42 | a missing registry reads as the empty list |
| ProjectManager.ListAfterAdd | src/projects/project-manager.ts:44-56 | after adding, the registry reads back as the old list with the new project at the end |
| ProjectManager.ListAfterRemove | src/projects/project-manager.ts:58-67 | after removing, the registry reads back as the old list without the projects carrying the id |
| ProjectManager.AddProject | src/projects/project-manager.ts:44-56 | the new project goes at the end of the list, earlier entries are unchanged, and both files are rewritten from the new list |
| ProjectManager.Without | src/projects/project-manager.ts:60 | the filter keeps exactly the projects whose id differs; the length stays the same exactly when none carries the id |
| ProjectManager.WithoutCounts | src/projects/project-manager.ts:60 | the filter drops every copy of a project with the id and keeps every copy of every other project |
| ProjectManager.WithoutAppend | src/projects/project-manager.ts:60 | the filter keeps list order: it works piece by piece |
| ProjectManager.RemoveProject | src/projects/project-manager.ts:58-67 | the answer is false, with nothing written, exactly when no project carries the id; otherwise the list shrinks, the registry is saved as exactly the filtered list, and `MEMORY.md` is updated from that list |
| ProjectManager.RemoveAfterAdd | src/projects/project-manager.ts:44-67 | removing a project just added under a fresh id restores the list as it was |
| ProjectManager.RemoveTwice | src/projects/project-manager.ts:58-67 | a second removal of the same id finds nothing and writes nothing |
| ProjectManager.LinesAppend | src/projects/project-manager.ts:89-91 | the section lists one line per project, in list order |
| ProjectManager.LinesCount | src/projects/project-manager.ts:89-91 | with every field on one line, the list holds exactly as many lines as there are projects |
| ProjectManager.RenderSection | src/projects/project-manager.ts:85-92 | with a one-line header and one-line fields, the section holds one line break for the header and then one for the note of an empty list or one per project; the content of the lines is `ProjectManager.SectionLines` |
| ProjectManager.SectionLines | src/projects/project-manager.ts:85-92 | with a one-line header and one-line fields, the section read line by line is the header, then `_No active projects._` for an empty list or each project's `- **name**: description (ID: id)` line in list order, and nothing after the last line break |
| ProjectManager.LinesSplit | src/projects/project-manager.ts:89-91 | with one-line fields, the project list read line by line is each project's line in list order, and nothing after the last line break |
| ProjectManager.SectionClosed | src/projects/project-manager.ts:85-92 | the rendered section starts with the header, ends with a line break, and has no line inside it that starts with `#`, so no later heading can be found inside it |
| ProjectManager.SectionEnd | src/projects/project-manager.ts:96-97 | the section ends at the first `"\n## "` after its first character, or at the end of the text |
| ProjectManager.Splice | src/projects/project-manager.ts:99-101 | without the header, the section is appended after a blank line |
| ProjectManager.SpliceReplacesSpan | src/projects/project-manager.ts:94-98 | with the header, the text before its first occurrence and from the end of its section onward is kept, and only the span between is replaced |
| ProjectManager.SpliceIdempotent | src/projects/project-manager.ts:94-101 | splicing the same section a second time changes nothing |
| ProjectManager.UpdateMemory | src/projects/project-manager.ts:76-79 | a missing `MEMORY.md` stays missing |
| ProjectManager.UpdateMemoryIdempotent | src/projects/project-manager.ts:81-104 | updating `MEMORY.md` twice with the same list leaves it as after the first update, when no name, description or id holds a line break |
| ProjectsController.CollapseSpaces | ui/src/ui/controllers/projects.ts:35 | the result holds no whitespace and is no longer than the input |
| ProjectsController.CollapseRun | ui/src/ui/controllers/projects.ts:35 | one maximal run of whitespace becomes exactly one `_` |
| ProjectsController.CollapseKeeps | ui/src/ui/controllers/projects.ts:35 | text without whitespace is left as it is |
| ProjectsController.Slug | ui/src/ui/controllers/projects.ts:35 | the server name holds no whitespace and no upper-case ASCII letter |
| ProjectsController.SlugOfWord | ui/src/ui/controllers/projects.ts:35 | a name without whitespace becomes its lower-case form |
| ProjectsController.SlugIdempotent | ui/src/ui/controllers/projects.ts:35 | deriving the server name from a server name changes nothing |
| ProjectsController.ServerFor | ui/src/ui/controllers/projects.ts:24-37 | an absent or empty command registers no server; otherwise the program holds no space, and there is one argument per space |
| ProjectsController.CommandRoundTrip | ui/src/ui/controllers/projects.ts:36-37 | joining the program and its arguments with single spaces rebuilds the command exactly |
| ProjectsController.CommandBeforeFirstSpace | ui/src/ui/controllers/projects.ts:36 | the program is the text before the first space, or the whole command when it has no space |
| ProjectsController.DoubleSpaceGivesEmptyArg | ui/src/ui/controllers/projects.ts:37 | two spaces in a row give an empty-string argument |

## Left out

- File and network I/O are not modelled. This covers `fs`, `JSON.parse`/`JSON.stringify`, the gateway calls, the config patch request, the chat auto-send and logging. A `Store` holds what reading the two files produced. `crypto.randomUUID()` and `Date.now()` become parameters of `ProjectManager.AddProject`.
- The singleton, the state directory and the `MEMORY.md` path are left out. They are plumbing.
- JSON shapes are not modelled. A registry file that parses to something other than a list makes `push` (line 52) or `filter` (line 60) throw; that error path is dropped, and the registry is always a list of projects or missing.
- `Object.keys` order is taken to be the order of the sequence of pairs. The engine's rule of integer-like keys first is not modelled.
- Strings are sequences of Unicode scalar values, not UTF-16 code units. The header emoji U+1F4C2 is two code units in JavaScript and one character here. The splice cuts at the same places either way.
- Text.ToUpper: it maps ASCII letters, plus the characters whose JavaScript upper-case form is entirely ASCII. It keeps every other character. Those other characters cannot turn a key into a denied name or prefix.
- ProjectsController.Slug: it lower-cases ASCII letters only. JavaScript `toLowerCase` also maps other letters, and can lengthen a string.
- The patterns at lines 43, 45 and 55 are not given a declarative description proved equivalent to the matcher. They are hand-coded matchers with contracts that state necessary conditions only. The IPv4, Windows path, Unix home, CAS and batch patterns have a full two-way description.
- Patterns.MeasurementAt: its contract states necessary conditions only. The matcher itself follows line 55.
- Patterns.UnitEnd: its contract states only that the unit stays within the text. The function itself follows the unit alternatives of line 55.
- Patterns.ApiKeyAt: its contract states necessary conditions only. The matcher itself follows line 43.
- Patterns.BearerAt: its contract states necessary conditions only. The matcher itself follows line 45.
- The scrubber is not idempotent under either placement, so no idempotence is promised. As written, the placeholder can land in a label (see Findings). Under both placements, a later pass can expose text to an earlier pattern: `ScrubFacts.ScrubNotIdempotentEither` shows `a: 5gC:\x`. No corrected idempotent scrubber is given, because that would need a different pass order or a placeholder that never ends a word, and the code shows neither.
- OsmoGuard.ScrubOutput: its contract covers texts no pattern can touch. What the scrubber does to other texts is stated per example in `ScrubFacts`.
- ProjectManager.UpdateMemoryIdempotent: it requires that no project field holds a line break. A name containing `"\n## "` would make the second update cut the section short.
- The `key=key=key=key=key=` example is not modelled. There the first occurrence of the captured text lies in the label, so the code as written gives `[REDACTED]key=`. `Matcher.RewriteFirstOccurrence` states the general rule.

## Findings

| source | as written | input that shows it | evidently intended | confidence | as-written member | corrected member |
|---|---|---|---|---|---|---|
| src/security/osmo-guard.ts:76 | the placeholder replaces the first occurrence of the captured text anywhere in the match, which can lie in the label | `step 1: 1` becomes `step [REDACTED]: 1`, and the measured value stays | the placeholder over the capture group itself, `step 1: [REDACTED]` | not executed | ScrubFacts.MeasurementValueLeaks | Matcher.PassSingleAtGroup |
| src/security/osmo-guard.ts:76 | same rewrite; it puts the placeholder over the label `1` instead of the value, so the value `1` is still there and, with the following `: 1`, forms a new measurement for a second scrub | `1: 1: 1` scrubs to `[REDACTED]: 1: 1`, and scrubbing that again gives `[REDACTED]: [REDACTED]: 1` | the value redacted in the first scrub, `1: [REDACTED]: 1`, which a second scrub leaves alone (this text only: neither placement is idempotent in general, see `ScrubFacts.ScrubNotIdempotentEither`) | not executed | ScrubFacts.ScrubOutputNotIdempotent | ScrubFacts.ScrubIntendedSettles |

A labelled CAS number is not redacted whole:
- In `CAS: 123-45-6` the measurement pattern at line 55 runs before the CAS pattern at line 57.
- It takes `CAS` as a label and `123` as the value.
- What is left, `[REDACTED]-45-6`, is no longer a CAS number.
- `ScrubFacts.CasAfterMeasurement` proves that both placements give `CAS: [REDACTED]-45-6`.
