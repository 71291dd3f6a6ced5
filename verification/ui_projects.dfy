/** The string work of the projects controller of the web UI when a project is
    added together with an MCP command: the server name derived from the project
    name, and the command line split into the program and its arguments. */
module ProjectsController {
  import opened Wrappers
  import opened Text

  /** The MCP server entry that `addProject` registers through a config patch. */
  datatype McpServer = McpServer(name: string, command: string, args: seq<string>)

  predicate NoSpace(s: string) {
    forall k :: 0 <= k < |s| ==> !IsSpace(s[k])
  }

  /** `s.replace(/\s+/g, '_')`: the global scan finds each maximal run of
      whitespace in turn and puts one `_` in its place. */
  function CollapseSpaces(s: string): (r: string)
    ensures NoSpace(r)
    ensures |r| <= |s|
    decreases |s|
  {
    if |s| == 0 then ""
    else if IsSpace(s[0]) then
      var n := RunLength(s, 0, IsSpace);
      "_" + CollapseSpaces(s[n..])
    else
      [s[0]] + CollapseSpaces(s[1..])
  }

  /** The server name: `name.toLowerCase().replace(/\s+/g, '_')`. */
  function Slug(name: string): (r: string)
    ensures NoSpace(r)
    ensures forall k :: 0 <= k < |r| ==> !IsAsciiUpper(r[k])
  {
    var lower := ToLower(name);
    SlugFromLower(lower);
    CollapseSpaces(lower)
  }

  /** Text without whitespace passes through the collapse unchanged. */
  lemma {:induction false} CollapseKeeps(s: string)
    requires NoSpace(s)
    ensures CollapseSpaces(s) == s
  {
    if |s| > 0 {
      assert !IsSpace(s[0]);
      CollapseKeeps(s[1..]);
      assert s == [s[0]] + s[1..];
    }
  }

  /** The collapse keeps every character that is not whitespace, and only those
      and `_`. */
  lemma {:induction false} CollapseChars(s: string)
    ensures forall k :: 0 <= k < |CollapseSpaces(s)| ==>
      CollapseSpaces(s)[k] == '_' || CollapseSpaces(s)[k] in s
    decreases |s|
  {
    if |s| > 0 {
      var r := CollapseSpaces(s);
      if IsSpace(s[0]) {
        var n := RunLength(s, 0, IsSpace);
        CollapseChars(s[n..]);
        forall k | 1 <= k < |r| ensures r[k] == '_' || r[k] in s {
          assert r[k] == CollapseSpaces(s[n..])[k - 1];
        }
      } else {
        CollapseChars(s[1..]);
        forall k | 1 <= k < |r| ensures r[k] == '_' || r[k] in s {
          assert r[k] == CollapseSpaces(s[1..])[k - 1];
        }
      }
    }
  }

  lemma SlugFromLower(lower: string)
    requires forall k :: 0 <= k < |lower| ==> !IsAsciiUpper(lower[k])
    ensures forall k :: 0 <= k < |CollapseSpaces(lower)| ==> !IsAsciiUpper(CollapseSpaces(lower)[k])
  {
    CollapseChars(lower);
  }

  /** One maximal run of whitespace between text without whitespace and text that
      does not start with whitespace becomes exactly one `_`. */
  lemma {:induction false} CollapseRun(a: string, w: string, b: string)
    requires NoSpace(a)
    requires |w| > 0 && forall k :: 0 <= k < |w| ==> IsSpace(w[k])
    requires |b| == 0 || !IsSpace(b[0])
    ensures CollapseSpaces(a + w + b) == a + "_" + CollapseSpaces(b)
    decreases |a|
  {
    var s := a + w + b;
    if |a| == 0 {
      assert s == w + b;
      RunLengthOfRun(w, b);
      assert s[|w|..] == b;
    } else {
      assert s[0] == a[0] && !IsSpace(a[0]);
      assert s[1..] == a[1..] + w + b;
      CollapseRun(a[1..], w, b);
      assert a == [a[0]] + a[1..];
    }
  }

  /** The whitespace run at the start of `w + b` is exactly `w`. */
  lemma RunLengthOfRun(w: string, b: string)
    requires forall k :: 0 <= k < |w| ==> IsSpace(w[k])
    requires |b| == 0 || !IsSpace(b[0])
    ensures RunLength(w + b, 0, IsSpace) == |w|
  {
    var s := w + b;
    forall k | 0 <= k < |w| ensures IsSpace(s[k]) {
      assert s[k] == w[k];
    }
    if |b| > 0 {
      assert s[|w|] == b[0];
    }
    RunLengthExact(s, 0, |w|, IsSpace);
  }

  /** A name without whitespace becomes its lower-case form. */
  lemma SlugOfWord(name: string)
    requires NoSpace(name)
    ensures Slug(name) == ToLower(name)
  {
    CollapseKeeps(ToLower(name));
  }

  /** Deriving the server name a second time changes nothing. */
  lemma SlugIdempotent(name: string)
    ensures Slug(Slug(name)) == Slug(name)
  {
    var r := Slug(name);
    assert ToLower(r) == r;
    CollapseKeeps(r);
  }

  /** `if (mcpCommand)`: an absent or empty command registers no server; otherwise
      the server is named after the project and the command is split on single
      spaces into the program and its arguments. */
  function ServerFor(name: string, mcpCommand: Option<string>): (r: Option<McpServer>)
    ensures r.None? <==> mcpCommand.None? || |mcpCommand.value| == 0
    ensures r.Some? ==> r.value.name == Slug(name) && ' ' !in r.value.command
    ensures r.Some? ==> |r.value.args| == Count(mcpCommand.value, ' ')
  {
    if mcpCommand.None? || |mcpCommand.value| == 0 then None
    else
      var parts := Split(mcpCommand.value, ' ');
      Some(McpServer(Slug(name), parts[0], parts[1..]))
  }

  /** Joining the program and its arguments with single spaces gives the command
      back exactly. */
  lemma CommandRoundTrip(name: string, cmd: string)
    requires |cmd| > 0
    ensures var server := ServerFor(name, Some(cmd)).value;
      Join([server.command] + server.args, ' ') == cmd
  {
    var parts := Split(cmd, ' ');
    assert [parts[0]] + parts[1..] == parts;
    JoinSplit(cmd, ' ');
  }

  /** The program is the text before the first space, or the whole command when
      it holds no space. */
  lemma CommandBeforeFirstSpace(name: string, cmd: string)
    requires |cmd| > 0
    ensures var c := ServerFor(name, Some(cmd)).value.command;
      && ' ' !in c
      && (c == cmd || (|c| < |cmd| && cmd[..|c|] == c && cmd[|c|] == ' '))
      && (c == cmd <==> ' ' !in cmd)
  {
    var parts := Split(cmd, ' ');
    var c := parts[0];
    JoinSplit(cmd, ' ');
    if |parts| > 1 {
      assert cmd == c + [' '] + Join(parts[1..], ' ');
      assert cmd[|c|] == ' ';
      assert cmd[..|c|] == c;
    }
  }

  /** Two spaces in a row give an empty argument. */
  lemma DoubleSpaceGivesEmptyArg(name: string, program: string, rest: string)
    requires ' ' !in program
    ensures var server := ServerFor(name, Some(program + "  " + rest)).value;
      server.command == program && |server.args| > 0 && server.args[0] == ""
  {
    var cmd := program + "  " + rest;
    assert cmd == program + [' '] + ([' '] + rest);
    SplitAfterPiece(program, ' ', [' '] + rest);
    assert [' '] + rest == "" + [' '] + rest;
    SplitAfterPiece("", ' ', rest);
  }
}
