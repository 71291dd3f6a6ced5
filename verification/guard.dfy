/** The guard of src/security/osmo-guard.ts: the host-environment deny list, the
    strict-mode sandbox switch and the output scrubber built from the eight
    redaction patterns. */
module OsmoGuard {
  import opened Wrappers
  import opened Text
  import opened Matcher
  import opened Patterns

  // ---------------------------------------------------------------------------
  // Host environment deny list (lines 12-36 and 96-108)

  /** Variable names that may never reach the host, compared after upper-casing. */
  const DangerousEnvVars: set<string> := {
    "LD_PRELOAD", "LD_LIBRARY_PATH", "LD_AUDIT",
    "DYLD_INSERT_LIBRARIES", "DYLD_LIBRARY_PATH",
    "NODE_OPTIONS", "NODE_PATH",
    "PYTHONPATH", "PYTHONHOME",
    "RUBYLIB", "PERL5LIB",
    "BASH_ENV", "ENV",
    "GCONV_PATH", "IFS",
    "SSLKEYLOGFILE",
    "AWS_ACCESS_KEY_ID", "AWS_SECRET_ACCESS_KEY", "AWS_SESSION_TOKEN",
    "GOOGLE_APPLICATION_CREDENTIALS",
    "AZURE_STORAGE_KEY", "AZURE_STORAGE_ACCOUNT",
    "GITHUB_TOKEN", "GITHUB_PAT",
    "OPENCLAW_GATEWAY_TOKEN", "OPENCLAW_GATEWAY_PASSWORD",
    "OPENCLAW_HOOKS_TOKEN",
    "DISCORD_BOT_TOKEN", "TELEGRAM_BOT_TOKEN", "SLACK_BOT_TOKEN", "SLACK_APP_TOKEN",
    "DATABASE_URL", "POSTGRES_PASSWORD", "MYSQL_PWD"
  }

  /** Prefixes that are refused whatever follows them, checked in this order. */
  const ForbiddenPrefixes: seq<string> := ["DYLD_", "LD_", "AWS_"]

  datatype ViolationKind = ForbiddenName | ForbiddenPrefix

  /** The error the validation throws: the offending key as the caller spelled it. */
  datatype Violation = Violation(key: string, kind: ViolationKind) {
    function Message(): string {
      match kind
      case ForbiddenName =>
        "Osmo Security Violation: Environment variable '" + key + "' is strictly forbidden on the host."
      case ForbiddenPrefix =>
        "Osmo Security Violation: Forbidden environment variable prefix '" + key + "'."
    }
  }

  predicate HasForbiddenPrefix(upper: string) {
    exists k :: 0 <= k < |ForbiddenPrefixes| && ForbiddenPrefixes[k] <= upper
  }

  /** What the validation decides about one key: the exact-name check comes first,
      the prefix check second, both on the upper-cased key. */
  function Classify(key: string): (r: Option<ViolationKind>)
    ensures r == Some(ForbiddenName) <==> ToUpper(key) in DangerousEnvVars
    ensures r == Some(ForbiddenPrefix) <==>
      ToUpper(key) !in DangerousEnvVars && HasForbiddenPrefix(ToUpper(key))
    ensures r.None? <==> ToUpper(key) !in DangerousEnvVars && !HasForbiddenPrefix(ToUpper(key))
  {
    var upper := ToUpper(key);
    if upper in DangerousEnvVars then Some(ForbiddenName)
    else if "DYLD_" <= upper || "LD_" <= upper || "AWS_" <= upper then
      assert ForbiddenPrefixes[0] <= upper || ForbiddenPrefixes[1] <= upper || ForbiddenPrefixes[2] <= upper;
      Some(ForbiddenPrefix)
    else None
  }

  /** An environment as `Object.keys` presents it: keys in enumeration order, with their values. */
  type Env = seq<(string, string)>

  /** `validateOsmoHostEnv`: the first key, in enumeration order, that the deny
      list refuses is reported; an environment without one passes. */
  function ValidateHostEnv(env: Env): (r: Result<(), Violation>)
    ensures r.Success? <==> forall k :: 0 <= k < |env| ==> Classify(env[k].0).None?
    ensures r.Failure? ==>
      exists k :: (0 <= k < |env|
        && r.error.key == env[k].0
        && Classify(env[k].0) == Some(r.error.kind)
        && forall j :: 0 <= j < k ==> Classify(env[j].0).None?)
  {
    if |env| == 0 then Success(())
    else
      match Classify(env[0].0)
      case Some(kind) => Failure(Violation(env[0].0, kind))
      case None =>
        var r := ValidateHostEnv(env[1..]);
        assert forall k :: 1 <= k < |env| ==> env[k] == env[1..][k - 1];
        if r.Failure? then
          var k :| 0 <= k < |env[1..]|
            && r.error.key == env[1..][k].0
            && Classify(env[1..][k].0) == Some(r.error.kind)
            && forall j :: 0 <= j < k ==> Classify(env[1..][j].0).None?;
          assert forall j :: 0 <= j < k + 1 ==> Classify(env[j].0).None?;
          r
        else r
  }

  /** The keys of an environment in enumeration order. */
  function Keys(env: Env): (r: seq<string>)
    ensures |r| == |env|
    ensures forall k :: 0 <= k < |env| ==> r[k] == env[k].0
  {
    seq(|env|, k requires 0 <= k < |env| => env[k].0)
  }

  /** Only the keys matter: two environments with the same keys in the same order
      get the same verdict, whatever their values. */
  lemma {:induction false} ValidateIgnoresValues(env1: Env, env2: Env)
    requires Keys(env1) == Keys(env2)
    ensures ValidateHostEnv(env1) == ValidateHostEnv(env2)
    decreases |env1|
  {
    if |env1| > 0 {
      assert env1[0].0 == Keys(env1)[0] == Keys(env2)[0] == env2[0].0;
      assert Keys(env1[1..]) == Keys(env1)[1..];
      assert Keys(env2[1..]) == Keys(env2)[1..];
      ValidateIgnoresValues(env1[1..], env2[1..]);
    }
  }

  /** The check does not see ASCII case: a key and its lower-cased spelling are
      refused for the same reason. */
  lemma ClassifyIgnoresCase(key: string)
    ensures Classify(ToLower(key)) == Classify(key)
  {
    ToUpperIgnoresCase(key);
  }

  /** Lower-casing every key changes neither the verdict nor the reason; only the
      reported spelling follows the input. */
  lemma {:induction false} ValidateIgnoresCase(env: Env, lowered: Env)
    requires |lowered| == |env|
    requires forall k :: 0 <= k < |env| ==> lowered[k].0 == ToLower(env[k].0)
    ensures ValidateHostEnv(lowered).Success? == ValidateHostEnv(env).Success?
    ensures ValidateHostEnv(lowered).Failure? ==>
      ValidateHostEnv(lowered).error.kind == ValidateHostEnv(env).error.kind
      && ValidateHostEnv(lowered).error.key == ToLower(ValidateHostEnv(env).error.key)
    decreases |env|
  {
    if |env| > 0 {
      ClassifyIgnoresCase(env[0].0);
      assert forall k :: 0 <= k < |env| - 1 ==> lowered[1..][k].0 == ToLower(env[1..][k].0) by {
        forall k | 0 <= k < |env| - 1 ensures lowered[1..][k].0 == ToLower(env[1..][k].0) {
          assert lowered[1..][k] == lowered[k + 1] && env[1..][k] == env[k + 1];
        }
      }
      ValidateIgnoresCase(env[1..], lowered[1..]);
    }
  }

  /** Upper-casing the ASCII lower-case spelling of upper-case ASCII text gives that text. */
  lemma UpperOfLowered(key: string)
    requires forall k :: 0 <= k < |key| ==> UpperOf(key[k]) == [key[k]]
    ensures ToUpper(ToLower(key)) == key && ToUpper(key) == key
  {
    ToUpperKeeps(key);
    ToUpperIgnoresCase(key);
  }

  /** `ld_preload` is the ASCII lower-case spelling of `LD_PRELOAD`. */
  lemma LowerPreload()
    ensures ToLower("LD_PRELOAD") == "ld_preload"
  {
    var s := "LD_PRELOAD";
    assert LowerChar(s[0]) == 'l' && LowerChar(s[1]) == 'd' && LowerChar(s[2]) == '_';
    assert LowerChar(s[3]) == 'p' && LowerChar(s[4]) == 'r' && LowerChar(s[5]) == 'e';
    assert LowerChar(s[6]) == 'l' && LowerChar(s[7]) == 'o' && LowerChar(s[8]) == 'a';
    assert LowerChar(s[9]) == 'd';
  }

  /** The error text quotes the key exactly as the caller spelled it. */
  lemma MessageQuotesKey(v: Violation)
    ensures v.kind == ForbiddenName ==>
      OccursAt(v.Message(), v.key, |"Osmo Security Violation: Environment variable '"|)
    ensures v.kind == ForbiddenPrefix ==>
      OccursAt(v.Message(), v.key, |"Osmo Security Violation: Forbidden environment variable prefix '"|)
  {
  }

  /** `PATH` is allowed. */
  lemma PathAllowed()
    ensures Classify("PATH").None?
    ensures ValidateHostEnv([("PATH", "/usr/bin")]) == Success(())
  {
    assert forall k :: 0 <= k < 4 ==> UpperOf("PATH"[k]) == ["PATH"[k]];
    ToUpperKeeps("PATH");
    assert "PATH" !in DangerousEnvVars;
    assert !("DYLD_" <= "PATH") && !("LD_" <= "PATH") && !("AWS_" <= "PATH");
  }

  /** `ld_preload` is refused by name, exactly like `LD_PRELOAD`: although it also
      carries the `LD_` prefix, the exact check runs first. */
  lemma LowerCasePreloadRefused()
    ensures HasForbiddenPrefix("LD_PRELOAD")
    ensures Classify("ld_preload") == Classify("LD_PRELOAD") == Some(ForbiddenName)
    ensures ValidateHostEnv([("ld_preload", "x")]) == Failure(Violation("ld_preload", ForbiddenName))
  {
    assert forall k :: 0 <= k < 10 ==> UpperOf("LD_PRELOAD"[k]) == ["LD_PRELOAD"[k]];
    UpperOfLowered("LD_PRELOAD");
    LowerPreload();
    assert "LD_PRELOAD" in DangerousEnvVars;
    assert ForbiddenPrefixes[1] <= "LD_PRELOAD";
  }

  /** An `AWS_` variable outside the named list is refused by its prefix. */
  lemma AwsPrefixRefused()
    ensures Classify("AWS_FOO") == Some(ForbiddenPrefix)
  {
    assert ToUpper("AWS_FOO") == "AWS_FOO" by {
      assert forall k :: 0 <= k < 7 ==> UpperOf("AWS_FOO"[k]) == ["AWS_FOO"[k]];
      ToUpperKeeps("AWS_FOO");
    }
    assert "AWS_FOO" !in DangerousEnvVars;
    assert "AWS_" <= "AWS_FOO";
  }

  /** The first refused key is the one reported, even when a later key is refused too. */
  lemma FirstOffenderReported()
    ensures ValidateHostEnv([("PATH", "/usr/bin"), ("AWS_FOO", "1"), ("LD_PRELOAD", "x")])
      == Failure(Violation("AWS_FOO", ForbiddenPrefix))
  {
    PathAllowed();
    AwsPrefixRefused();
    var env := [("PATH", "/usr/bin"), ("AWS_FOO", "1"), ("LD_PRELOAD", "x")];
    assert env[1..][0] == ("AWS_FOO", "1");
  }

  // ---------------------------------------------------------------------------
  // Strict mode (lines 89-91)

  /** The `strictMode` entry of the security section, as JSON can hold it. */
  datatype Setting = Absent | Boolean(value: bool) | OtherValue(json: string)

  datatype SecurityConfig = SecurityConfig(strictMode: Setting)

  datatype Config = Config(security: Option<SecurityConfig>)

  /** `shouldForceSandbox`: strict identity with `true`. */
  function ShouldForceSandbox(config: Config): (r: bool)
    ensures r <==> config.security.Some? && config.security.value.strictMode == Boolean(true)
  {
    match config.security
    case None => false
    case Some(sec) => sec.strictMode == Boolean(true)
  }

  /** Nothing but the boolean `true` forces the sandbox: a missing section, a missing
      flag, `false` and truthy non-booleans such as the string `"true"` all leave it off. */
  lemma SandboxOnlyForTrue(json: string)
    ensures !ShouldForceSandbox(Config(None))
    ensures !ShouldForceSandbox(Config(Some(SecurityConfig(Absent))))
    ensures !ShouldForceSandbox(Config(Some(SecurityConfig(Boolean(false)))))
    ensures !ShouldForceSandbox(Config(Some(SecurityConfig(OtherValue(json)))))
    ensures ShouldForceSandbox(Config(Some(SecurityConfig(Boolean(true)))))
  {
  }

  // ---------------------------------------------------------------------------
  // Output scrubbing (lines 41-84)

  /** The redaction patterns in the order the scrubber applies them. */
  const Registry: seq<Anchored> :=
    [ApiKeyAt, BearerAt, IPv4At, WindowsPathAt, UnixHomeAt, MeasurementAt, CasAt, BatchIdAt]

  /** Characters at least one of which every match of some pattern contains: the
      separators `:` and `=`, the dot, both slashes, the hyphen, `#`, and the
      initial of `Bearer`. */
  const Triggers: string := ":=.\\/-#bB"

  /** Text free of every trigger character. */
  predicate Quiet(s: string) {
    forall k :: 0 <= k < |s| ==> s[k] !in Triggers
  }

  /** No pattern of the registry matches quiet text. */
  lemma QuietIsIdle(s: string)
    requires Quiet(s)
    ensures forall k :: 0 <= k < |Registry| ==> NoMatchBetween(Registry[k], s, 0, |s| + 1)
  {
    assert ':' !in s && '=' !in s && '.' !in s && '\\' !in s && '/' !in s;
    assert '-' !in s && '#' !in s && 'b' !in s && 'B' !in s;
  }

  lemma QuietUnchanged(s: string, placement: Placement)
    ensures Quiet(s) ==> ScrubWith(Registry, s, placement) == s
  {
    if Quiet(s) {
      QuietIsIdle(s);
      ScrubWithInert(Registry, s, placement);
    }
  }

  /** `scrubOutput`: every pattern in registry order, each over the previous
      output, each match rewritten by placing the placeholder over the first
      occurrence of its captured text. Quiet text is returned unchanged. */
  function ScrubOutput(text: string): (r: string)
    ensures Quiet(text) ==> r == text
  {
    QuietUnchanged(text, FirstOccurrence);
    ScrubWith(Registry, text, FirstOccurrence)
  }

  /** The scrubber with the placeholder put over the capture group itself. */
  function ScrubIntended(text: string): (r: string)
    ensures Quiet(text) ==> r == text
  {
    QuietUnchanged(text, AtGroup);
    ScrubWith(Registry, text, AtGroup)
  }

  /** The placeholder is quiet, so scrubbing leaves it as it is. */
  lemma PlaceholderIsInert()
    ensures Quiet(Placeholder)
    ensures ScrubOutput(Placeholder) == Placeholder
    ensures ScrubIntended(Placeholder) == Placeholder
  {
  }

  /** The registry spelled out as eight passes, the first innermost. */
  lemma ScrubSteps(text: string, placement: Placement)
    ensures ScrubWith(Registry, text, placement) ==
      var t1 := Pass(ApiKeyAt, text, placement);
      var t2 := Pass(BearerAt, t1, placement);
      var t3 := Pass(IPv4At, t2, placement);
      var t4 := Pass(WindowsPathAt, t3, placement);
      var t5 := Pass(UnixHomeAt, t4, placement);
      var t6 := Pass(MeasurementAt, t5, placement);
      var t7 := Pass(CasAt, t6, placement);
      Pass(BatchIdAt, t7, placement)
  {
    var t1 := Pass(ApiKeyAt, text, placement);
    var t2 := Pass(BearerAt, t1, placement);
    var t3 := Pass(IPv4At, t2, placement);
    var t4 := Pass(WindowsPathAt, t3, placement);
    var t5 := Pass(UnixHomeAt, t4, placement);
    var t6 := Pass(MeasurementAt, t5, placement);
    var t7 := Pass(CasAt, t6, placement);
    var r1 := [BearerAt, IPv4At, WindowsPathAt, UnixHomeAt, MeasurementAt, CasAt, BatchIdAt];
    var r2 := [IPv4At, WindowsPathAt, UnixHomeAt, MeasurementAt, CasAt, BatchIdAt];
    var r3 := [WindowsPathAt, UnixHomeAt, MeasurementAt, CasAt, BatchIdAt];
    var r4 := [UnixHomeAt, MeasurementAt, CasAt, BatchIdAt];
    var r5 := [MeasurementAt, CasAt, BatchIdAt];
    var r6 := [CasAt, BatchIdAt];
    var r7 := [BatchIdAt];
    assert Registry[1..] == r1;
    ScrubWithCons(Registry, text, placement);
    ScrubWithCons(r1, t1, placement);
    assert r1[1..] == r2;
    ScrubWithCons(r2, t2, placement);
    assert r2[1..] == r3;
    ScrubWithCons(r3, t3, placement);
    assert r3[1..] == r4;
    ScrubWithCons(r4, t4, placement);
    assert r4[1..] == r5;
    ScrubWithCons(r5, t5, placement);
    assert r5[1..] == r6;
    ScrubWithCons(r6, t6, placement);
    assert r6[1..] == r7;
    ScrubWithCons(r7, t7, placement);
    assert r7[1..] == [];
  }
}
