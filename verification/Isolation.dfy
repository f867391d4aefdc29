/**
 The isolation context of a Playwright worker. It is computed from environment
 variables once and cached; applying it writes it back into the variables that are
 not set. A cached context must stay what a new computation would give.
 */
module Isolation {
  import opened Wrappers
  import opened Strings

  datatype Variable =
    | PlaywrightUserDataDir
    | PlaywrightRunId
    | PlaywrightWorkerId
    | PlaywrightNamespace
    | PlaywrightSessionPartition
    | PlaywrightDisableSingleInstanceLock
    | ElectronRemoteDebuggingPort
    | TestWorkerIndex
    | GithubRunId
    | PlaywrightSharedEnv

  type Env = map<Variable, string>

  const DEFAULT_REMOTE_DEBUGGING_PORT := 9333

  /** The isolation directory below the temporary directory, and the process id. */
  datatype Host = Host(root: string, pid: nat)

  predicate ValidHost(host: Host) {
    host.root != "" && !IsSpace(host.root[0])
  }

  datatype Context = Context(
    namespace: string,
    remoteDebuggingPort: string,
    runId: string,
    sessionPartition: string,
    userDataDir: string,
    workerIndex: string)

  // ----- Text -----

  /** The characters that trim removes, as far as they are ASCII. */
  predicate IsSpace(c: char) {
    c == ' ' || 9 <= c as int <= 13
  }

  function TrimStart(s: string): string {
    if s != "" && IsSpace(s[0]) then TrimStart(s[1..]) else s
  }

  function TrimEnd(s: string): string {
    if s != "" && IsSpace(s[|s| - 1]) then TrimEnd(s[..|s| - 1]) else s
  }

  function Trim(s: string): string {
    TrimEnd(TrimStart(s))
  }

  predicate IsSafe(c: char) {
    'A' <= c <= 'Z' || 'a' <= c <= 'z' || '0' <= c <= '9' || c == '_' || c == '-'
  }

  /** replace(/[^A-Za-z0-9_-]/g, '-') */
  function Sanitize(s: string): (r: string)
    ensures |r| == |s|
  {
    seq(|s|, i requires 0 <= i < |s| => if IsSafe(s[i]) then s[i] else '-')
  }

  /** Number.parseInt(s, 10) on a trimmed text: an optional sign and leading digits. */
  function ParseInt(s: string): Option<int> {
    if s != "" && (s[0] == '-' || s[0] == '+') then
      var digits := LeadingDigits(s[1..]);
      if digits == "" then None else Some(if s[0] == '-' then 0 - ParseDigits(digits) else ParseDigits(digits))
    else
      var digits := LeadingDigits(s);
      if digits == "" then None else Some(ParseDigits(digits))
  }

  function LeadingDigits(s: string): (digits: string)
    ensures AllDigits(digits)
  {
    if s == "" || !IsDigit(s[0]) then "" else [s[0]] + LeadingDigits(s[1..])
  }

  // ----- Computing and applying -----

  /** readEnv: the trimmed value, unless it is missing or blank. */
  function ReadEnv(env: Env, name: Variable): Option<string> {
    if name in env && Trim(env[name]) != "" then Some(Trim(env[name])) else None
  }

  function Or(value: Option<string>, default: string): string {
    if value.Some? then value.value else default
  }

  function LocalRunId(host: Host): string {
    "local-" + ToDecimal(host.pid)
  }

  function UserDataDir(host: Host, namespace: string): string {
    host.root + "/" + namespace + "/user-data"
  }

  function RunIdFrom(env: Env, host: Host): string {
    Sanitize(Or(ReadEnv(env, PlaywrightRunId), Or(ReadEnv(env, GithubRunId), LocalRunId(host))))
  }

  function NamespaceFrom(env: Env, runId: string, workerIndex: string): string {
    Sanitize(Or(ReadEnv(env, PlaywrightNamespace), "pw-" + runId + "-w" + workerIndex))
  }

  function DefaultPort(workerIndex: string): string {
    var offset := ParseInt(workerIndex);
    ToDecimal(DEFAULT_REMOTE_DEBUGGING_PORT + if offset.Some? then offset.value else 0)
  }

  function Compute(env: Env, host: Host): Option<Context> {
    if ReadEnv(env, PlaywrightUserDataDir).None? && ReadEnv(env, TestWorkerIndex).None? then None
    else
      var workerIndex := Or(ReadEnv(env, TestWorkerIndex), "0");
      var runId := RunIdFrom(env, host);
      var namespace := NamespaceFrom(env, runId, workerIndex);
      Some(Context(
        namespace,
        Or(ReadEnv(env, ElectronRemoteDebuggingPort), DefaultPort(workerIndex)),
        runId,
        Or(ReadEnv(env, PlaywrightSessionPartition), "persist:" + namespace),
        Or(ReadEnv(env, PlaywrightUserDataDir), UserDataDir(host, namespace)),
        workerIndex))
  }

  /** The variables that a context is written to. */
  function Defaults(c: Context): Env {
    var d1 := map[PlaywrightRunId := c.runId];
    var d2 := d1[PlaywrightWorkerId := c.workerIndex];
    var d3 := d2[PlaywrightNamespace := c.namespace];
    var d4 := d3[PlaywrightUserDataDir := c.userDataDir];
    var d5 := d4[PlaywrightSessionPartition := c.sessionPartition];
    var d6 := d5[PlaywrightDisableSingleInstanceLock := "true"];
    d6[ElectronRemoteDebuggingPort := c.remoteDebuggingPort]
  }

  /** `env.name ??= value`: variables that are set, even to a blank text, keep their values. */
  function SetMissing(env: Env, name: Variable, value: string): Env {
    if name in env then env else env[name := value]
  }

  function WriteBack(env: Env, c: Context): Env {
    var e1 := SetMissing(env, PlaywrightRunId, c.runId);
    var e2 := SetMissing(e1, PlaywrightWorkerId, c.workerIndex);
    var e3 := SetMissing(e2, PlaywrightNamespace, c.namespace);
    var e4 := SetMissing(e3, PlaywrightUserDataDir, c.userDataDir);
    var e5 := SetMissing(e4, PlaywrightSessionPartition, c.sessionPartition);
    var e6 := SetMissing(e5, PlaywrightDisableSingleInstanceLock, "true");
    SetMissing(e6, ElectronRemoteDebuggingPort, c.remoteDebuggingPort)
  }

  /** Variables that were set are as before; the others have their defaults. */
  ghost predicate IsWrittenBack(env: Env, defaults: Env, after: Env) {
    && after.Keys == env.Keys + defaults.Keys
    && forall v :: v in after ==> after[v] == if v in env then env[v] else defaults[v]
  }

  lemma OneMoreVariable(env: Env, defaults: Env, after: Env, name: Variable, value: string)
    requires IsWrittenBack(env, defaults, after) && name !in defaults
    ensures IsWrittenBack(env, defaults[name := value], SetMissing(after, name, value))
  {
  }

  lemma WriteBackKeepsSetVariables(env: Env, c: Context)
    ensures IsWrittenBack(env, Defaults(c), WriteBack(env, c))
  {
    var d1 := map[PlaywrightRunId := c.runId];
    var d2 := d1[PlaywrightWorkerId := c.workerIndex];
    var d3 := d2[PlaywrightNamespace := c.namespace];
    var d4 := d3[PlaywrightUserDataDir := c.userDataDir];
    var d5 := d4[PlaywrightSessionPartition := c.sessionPartition];
    var d6 := d5[PlaywrightDisableSingleInstanceLock := "true"];
    var e1 := SetMissing(env, PlaywrightRunId, c.runId);
    var e2 := SetMissing(e1, PlaywrightWorkerId, c.workerIndex);
    var e3 := SetMissing(e2, PlaywrightNamespace, c.namespace);
    var e4 := SetMissing(e3, PlaywrightUserDataDir, c.userDataDir);
    var e5 := SetMissing(e4, PlaywrightSessionPartition, c.sessionPartition);
    var e6 := SetMissing(e5, PlaywrightDisableSingleInstanceLock, "true");
    OneMoreVariable(env, map[], env, PlaywrightRunId, c.runId);
    assert map[][PlaywrightRunId := c.runId] == d1;
    OneMoreVariable(env, d1, e1, PlaywrightWorkerId, c.workerIndex);
    OneMoreVariable(env, d2, e2, PlaywrightNamespace, c.namespace);
    OneMoreVariable(env, d3, e3, PlaywrightUserDataDir, c.userDataDir);
    OneMoreVariable(env, d4, e4, PlaywrightSessionPartition, c.sessionPartition);
    OneMoreVariable(env, d5, e5, PlaywrightDisableSingleInstanceLock, "true");
    OneMoreVariable(env, d6, e6, ElectronRemoteDebuggingPort, c.remoteDebuggingPort);
  }

  lemma TrimKeeps(s: string)
    requires s != "" && !IsSpace(s[0]) && !IsSpace(s[|s| - 1])
    ensures Trim(s) == s
  {
  }

  /** Sanitized text has no blanks and is not changed by sanitizing it again. */
  lemma SanitizedSurvives(s: string)
    requires s != ""
    ensures Trim(Sanitize(s)) == Sanitize(s) && Sanitize(Sanitize(s)) == Sanitize(s)
  {
    TrimKeeps(Sanitize(s));
  }

  lemma DecimalSurvives(n: int)
    ensures ToDecimal(n) != "" && Trim(ToDecimal(n)) == ToDecimal(n)
  {
    var s := ToDecimal(n);
    var digits := if n < 0 then Digits(-n) else Digits(n);
    assert IsDigit(digits[0]) && IsDigit(digits[|digits| - 1]);
    TrimKeeps(s);
  }

  lemma DirectorySurvives(host: Host, namespace: string)
    requires ValidHost(host)
    ensures Trim(UserDataDir(host, namespace)) == UserDataDir(host, namespace) != ""
  {
    TrimKeeps(UserDataDir(host, namespace));
  }

  lemma PartitionSurvives(s: string)
    requires s != ""
    ensures Trim("persist:" + Sanitize(s)) == "persist:" + Sanitize(s)
  {
    TrimKeeps("persist:" + Sanitize(s));
  }

  /** A variable that is written back is read as the value that was computed for it. */
  lemma ReadsBack(env: Env, c: Context, after: Env, name: Variable, default: string)
    requires IsWrittenBack(env, Defaults(c), after)
    requires name in Defaults(c) && Defaults(c)[name] == Or(ReadEnv(env, name), default)
    requires Trim(default) == default != ""
    ensures Or(ReadEnv(after, name), default) == Or(ReadEnv(env, name), default)
  {
  }

  lemma ReadsBackSanitized(env: Env, c: Context, after: Env, name: Variable, default: string)
    requires IsWrittenBack(env, Defaults(c), after)
    requires name in Defaults(c) && Defaults(c)[name] == Sanitize(Or(ReadEnv(env, name), default)) && default != ""
    ensures Sanitize(Or(ReadEnv(after, name), default)) == Sanitize(Or(ReadEnv(env, name), default))
  {
    SanitizedSurvives(Or(ReadEnv(env, name), default));
  }

  /** The parts of a computed context, one by one. */
  ghost predicate Explains(env: Env, host: Host, c: Context) {
    && (ReadEnv(env, PlaywrightUserDataDir).Some? || ReadEnv(env, TestWorkerIndex).Some?)
    && c.workerIndex == Or(ReadEnv(env, TestWorkerIndex), "0")
    && c.runId == RunIdFrom(env, host)
    && c.namespace == NamespaceFrom(env, c.runId, c.workerIndex)
    && c.remoteDebuggingPort == Or(ReadEnv(env, ElectronRemoteDebuggingPort), DefaultPort(c.workerIndex))
    && c.sessionPartition == Or(ReadEnv(env, PlaywrightSessionPartition), "persist:" + c.namespace)
    && c.userDataDir == Or(ReadEnv(env, PlaywrightUserDataDir), UserDataDir(host, c.namespace))
  }

  lemma ComputedIsExplained(env: Env, host: Host, c: Context)
    ensures Compute(env, host) == Some(c) <==> Explains(env, host, c)
  {
  }

  lemma UntouchedVariable(env: Env, c: Context, after: Env, name: Variable)
    requires IsWrittenBack(env, Defaults(c), after) && name in {TestWorkerIndex, GithubRunId}
    ensures ReadEnv(after, name) == ReadEnv(env, name)
  {
  }

  lemma RunIdAgain(env: Env, c: Context, after: Env, host: Host)
    requires Explains(env, host, c) && IsWrittenBack(env, Defaults(c), after)
    ensures RunIdFrom(after, host) == c.runId
  {
    UntouchedVariable(env, c, after, GithubRunId);
    ReadsBackSanitized(env, c, after, PlaywrightRunId, Or(ReadEnv(env, GithubRunId), LocalRunId(host)));
  }

  lemma NamespaceAgain(env: Env, c: Context, after: Env, host: Host)
    requires Explains(env, host, c) && IsWrittenBack(env, Defaults(c), after)
    ensures NamespaceFrom(after, c.runId, c.workerIndex) == c.namespace
  {
    ReadsBackSanitized(env, c, after, PlaywrightNamespace, "pw-" + c.runId + "-w" + c.workerIndex);
  }

  lemma DirectoryAgain(env: Env, c: Context, after: Env, host: Host)
    requires ValidHost(host) && Explains(env, host, c) && IsWrittenBack(env, Defaults(c), after)
    ensures Or(ReadEnv(after, PlaywrightUserDataDir), UserDataDir(host, c.namespace)) == c.userDataDir
    ensures ReadEnv(env, PlaywrightUserDataDir).Some? ==> ReadEnv(after, PlaywrightUserDataDir).Some?
  {
    DirectorySurvives(host, c.namespace);
    ReadsBack(env, c, after, PlaywrightUserDataDir, UserDataDir(host, c.namespace));
  }

  lemma PartitionAgain(env: Env, c: Context, after: Env, host: Host)
    requires Explains(env, host, c) && IsWrittenBack(env, Defaults(c), after)
    ensures Or(ReadEnv(after, PlaywrightSessionPartition), "persist:" + c.namespace) == c.sessionPartition
  {
    PartitionSurvives(Or(ReadEnv(env, PlaywrightNamespace), "pw-" + c.runId + "-w" + c.workerIndex));
    ReadsBack(env, c, after, PlaywrightSessionPartition, "persist:" + c.namespace);
  }

  lemma PortAgain(env: Env, c: Context, after: Env, host: Host)
    requires Explains(env, host, c) && IsWrittenBack(env, Defaults(c), after)
    ensures Or(ReadEnv(after, ElectronRemoteDebuggingPort), DefaultPort(c.workerIndex)) == c.remoteDebuggingPort
  {
    DefaultPortSurvives(c.workerIndex);
    ReadsBack(env, c, after, ElectronRemoteDebuggingPort, DefaultPort(c.workerIndex));
  }

  lemma ExplainedAgain(env: Env, c: Context, after: Env, host: Host)
    requires ValidHost(host) && Explains(env, host, c) && IsWrittenBack(env, Defaults(c), after)
    ensures Explains(after, host, c)
  {
    RunIdAgain(env, c, after, host);
    NamespaceAgain(env, c, after, host);
    DirectoryAgain(env, c, after, host);
    PartitionAgain(env, c, after, host);
    PortAgain(env, c, after, host);
    UntouchedVariable(env, c, after, TestWorkerIndex);
  }

  /** For every environment, writing a context back does not change what is computed. */
  lemma WriteBackIsFixedPoint(env: Env, host: Host)
    requires ValidHost(host) && Compute(env, host).Some?
    ensures Compute(WriteBack(env, Compute(env, host).value), host) == Compute(env, host)
  {
    var c := Compute(env, host).value;
    var after := WriteBack(env, c);
    WriteBackKeepsSetVariables(env, c);
    ComputedIsExplained(env, host, c);
    ExplainedAgain(env, c, after, host);
    ComputedIsExplained(after, host, c);
  }

  lemma DefaultPortSurvives(workerIndex: string)
    ensures Trim(DefaultPort(workerIndex)) == DefaultPort(workerIndex) != ""
  {
    var offset := ParseInt(workerIndex);
    DecimalSurvives(DEFAULT_REMOTE_DEBUGGING_PORT + if offset.Some? then offset.value else 0);
  }

  // ----- The module's operations -----

  /** `cached` is None while it is undefined; it may hold the answer that there is no context. */
  datatype State = State(env: Env, cached: Option<Option<Context>>, dirs: set<string>)

  const CLEARED: set<Variable> := {
    PlaywrightRunId, PlaywrightWorkerId, PlaywrightNamespace, PlaywrightUserDataDir, PlaywrightSessionPartition,
    PlaywrightDisableSingleInstanceLock, ElectronRemoteDebuggingPort, TestWorkerIndex
  }

  function GetStep(s: State, host: Host): State {
    if s.cached.Some? then s else s.(cached := Some(Compute(s.env, host)))
  }

  function ApplyStep(s: State, host: Host): State {
    var got := GetStep(s, host);
    if got.cached.value.None? then got else got.(env := WriteBack(got.env, got.cached.value.value))
  }

  function ClearStep(s: State): State {
    s.(env := s.env - CLEARED, cached := None)
  }

  /** A test: its file name without extension, and its title unless the scope is the suite. */
  datatype TestInfo = TestInfo(fileName: string, parallelIndex: nat, retry: nat, title: Option<string>)

  /** After clearing, only the run id of the build server is left to consult. */
  function ResolveRunId(env: Env, host: Host): string {
    Sanitize(if GithubRunId in env then Trim(env[GithubRunId]) else LocalRunId(host))
  }

  function TitleSlug(info: TestInfo): string {
    var retrySuffix := "-r" + ToDecimal(info.retry);
    if info.title.Some? && info.title.value != "" then
      var title := Sanitize(info.title.value);
      "-" + (if |title| > 32 then title[..32] else title) + retrySuffix
    else retrySuffix
  }

  function NamespaceText(info: TestInfo, runId: string): string {
    "pw-" + runId + "-" + Sanitize(info.fileName) + "-w" + ToDecimal(info.parallelIndex) + TitleSlug(info)
  }

  function TestNamespace(info: TestInfo, runId: string): string {
    Sanitize(NamespaceText(info, runId))
  }

  function RootDir(host: Host, namespace: string): string {
    host.root + "/" + namespace
  }

  function WithoutDirectory(dirs: set<string>, root: string): set<string> {
    set d | d in dirs && d != root && !(root + "/" <= d)
  }

  /** The variables that an activation sets before it applies them. */
  function ActivationEnv(info: TestInfo, runId: string, host: Host): Env {
    var namespace := TestNamespace(info, runId);
    map[TestWorkerIndex := ToDecimal(info.parallelIndex),
        PlaywrightRunId := runId,
        PlaywrightNamespace := namespace,
        PlaywrightUserDataDir := RootDir(host, namespace) + "/user-data",
        PlaywrightSessionPartition := "persist:" + namespace,
        PlaywrightDisableSingleInstanceLock := "true",
        ElectronRemoteDebuggingPort := ToDecimal(DEFAULT_REMOTE_DEBUGGING_PORT + info.parallelIndex)]
  }

  predicate IsSharedEnvironmentRun(env: Env) {
    PlaywrightSharedEnv in env && env[PlaywrightSharedEnv] == "true"
  }

  function ActivateStep(s: State, info: TestInfo, host: Host): State {
    var cleared := ClearStep(s);
    if !IsSharedEnvironmentRun(cleared.env) then cleared
    else
      var runId := ResolveRunId(cleared.env, host);
      var rootDir := RootDir(host, TestNamespace(info, runId));
      var applied := ApplyStep(cleared.(env := cleared.env + ActivationEnv(info, runId, host)), host);
      if applied.cached.value.None? then applied
      else applied.(dirs := WithoutDirectory(applied.dirs, rootDir) + {applied.cached.value.value.userDataDir})
  }

  function CleanupStep(s: State, rootDir: Option<string>): State {
    if rootDir.None? then s else ClearStep(s.(dirs := WithoutDirectory(s.dirs, rootDir.value)))
  }

  datatype Operation = Get | Apply | Clear | Activate(info: TestInfo) | Cleanup(rootDir: Option<string>)

  function Perform(s: State, op: Operation, host: Host): State {
    match op
    case Get => GetStep(s, host)
    case Apply => ApplyStep(s, host)
    case Clear => ClearStep(s)
    case Activate(info) => ActivateStep(s, info, host)
    case Cleanup(rootDir) => CleanupStep(s, rootDir)
  }

  function PerformAll(s: State, ops: seq<Operation>, host: Host): State {
    if ops == [] then s else Perform(PerformAll(s, ops[..|ops| - 1], host), ops[|ops| - 1], host)
  }

  class IsolationModule {
    const host: Host
    var env: Env
    var cached: Option<Option<Context>>
    var dirs: set<string>

    ghost function View(): State
      reads this
    {
      State(env, cached, dirs)
    }

    constructor (host: Host, env: Env)
      ensures View() == State(env, None, {}) && this.host == host
    {
      this.host, this.env, cached, dirs := host, env, None, {};
    }

    method GetPlaywrightIsolationContext() returns (context: Option<Context>)
      modifies this`cached
      ensures View() == GetStep(old(View()), host)
      ensures cached == Some(context)
    {
      if cached.None? {
        cached := Some(Compute(env, host));
      }
      context := cached.value;
    }

    method SetIfMissing(name: Variable, value: string)
      modifies this`env
      ensures env == SetMissing(old(env), name, value)
    {
      if name !in env {
        env := env[name := value];
      }
    }

    method ApplyPlaywrightIsolationEnv() returns (context: Option<Context>)
      modifies this
      ensures View() == ApplyStep(old(View()), host)
      ensures cached == Some(context)
    {
      context := GetPlaywrightIsolationContext();
      if context.None? {
        return;
      }
      WriteVariables(context.value);
    }

    method WriteVariables(c: Context)
      modifies this`env
      ensures env == WriteBack(old(env), c)
    {
      SetIfMissing(PlaywrightRunId, c.runId);
      SetIfMissing(PlaywrightWorkerId, c.workerIndex);
      SetIfMissing(PlaywrightNamespace, c.namespace);
      SetIfMissing(PlaywrightUserDataDir, c.userDataDir);
      SetIfMissing(PlaywrightSessionPartition, c.sessionPartition);
      SetIfMissing(PlaywrightDisableSingleInstanceLock, "true");
      SetIfMissing(ElectronRemoteDebuggingPort, c.remoteDebuggingPort);
    }

    method ClearPlaywrightIsolationEnv()
      modifies this
      ensures View() == ClearStep(old(View()))
    {
      env := env - CLEARED;
      cached := None;
    }

    method ActivateIsolation(info: TestInfo) returns (context: Option<Context>)
      modifies this
      ensures View() == ActivateStep(old(View()), info, host)
      ensures context == if cached.Some? then cached.value else None
    {
      ClearPlaywrightIsolationEnv();
      if !IsSharedEnvironmentRun(env) {
        return None;
      }
      var runId := ResolveRunId(env, host);
      var rootDir := RootDir(host, TestNamespace(info, runId));
      env := env + ActivationEnv(info, runId, host);
      context := ApplyPlaywrightIsolationEnv();
      if context.Some? {
        dirs := WithoutDirectory(dirs, rootDir);
        dirs := dirs + {context.value.userDataDir};
      }
    }

    method CleanupIsolation(rootDir: Option<string>)
      modifies this
      ensures View() == CleanupStep(old(View()), rootDir)
    {
      if rootDir.Some? {
        dirs := WithoutDirectory(dirs, rootDir.value);
        ClearPlaywrightIsolationEnv();
      }
    }
  }

  // ----- Text, independently of how it is computed -----

  predicate IsBlank(s: string) {
    forall i :: 0 <= i < |s| ==> IsSpace(s[i])
  }

  lemma {:induction false} TrimStartCuts(s: string) returns (blank: string)
    ensures IsBlank(blank) && s == blank + TrimStart(s)
    ensures TrimStart(s) == "" || !IsSpace(TrimStart(s)[0])
  {
    blank := "";
    if s != "" && IsSpace(s[0]) {
      var rest := TrimStartCuts(s[1..]);
      blank := [s[0]] + rest;
    }
  }

  lemma {:induction false} TrimEndCuts(s: string) returns (blank: string)
    ensures IsBlank(blank) && s == TrimEnd(s) + blank
    ensures TrimEnd(s) == "" || !IsSpace(TrimEnd(s)[|TrimEnd(s)| - 1])
  {
    blank := "";
    if s != "" && IsSpace(s[|s| - 1]) {
      var rest := TrimEndCuts(s[..|s| - 1]);
      blank := rest + [s[|s| - 1]];
    }
  }

  /** trim takes blanks off both ends, and all of them. */
  lemma TrimIsMiddle(s: string)
    ensures exists before, after :: IsBlank(before) && IsBlank(after) && s == before + Trim(s) + after
    ensures Trim(s) != "" ==> !IsSpace(Trim(s)[0]) && !IsSpace(Trim(s)[|Trim(s)| - 1])
    ensures Trim(s) == "" <==> IsBlank(s)
  {
    var before := TrimStartCuts(s);
    var after := TrimEndCuts(TrimStart(s));
    assert s == before + Trim(s) + after;
    if Trim(s) != "" {
      assert Trim(s)[0] == TrimStart(s)[0];
      assert s[|before|] == Trim(s)[0];
    }
  }

  lemma {:induction false} LeadingDigitsOf(digits: string, rest: string)
    requires AllDigits(digits) && (rest == "" || !IsDigit(rest[0]))
    ensures LeadingDigits(digits + rest) == digits
  {
    if digits == "" {
      assert digits + rest == rest;
    } else {
      assert (digits + rest)[1..] == digits[1..] + rest;
      LeadingDigitsOf(digits[1..], rest);
    }
  }

  /** A text that starts with a numeral is read as its number. */
  lemma ParsedNumeral(n: nat, rest: string)
    requires rest == "" || !IsDigit(rest[0])
    ensures ParseInt(Digits(n) + rest) == Some(n)
    ensures ParseInt("") == None && ParseInt("x") == None
  {
    LeadingDigitsOf(Digits(n), rest);
    ParseOfDigits(n);
    assert IsDigit((Digits(n) + rest)[0]);
  }

  // ----- What a context consists of -----

  /** A context needs a user-data directory or a worker index. */
  lemma ContextIsNeeded(env: Env, host: Host)
    ensures Compute(env, host).Some?
            <==> (PlaywrightUserDataDir in env && !IsBlank(env[PlaywrightUserDataDir]))
                 || (TestWorkerIndex in env && !IsBlank(env[TestWorkerIndex]))
  {
    if PlaywrightUserDataDir in env {
      TrimIsMiddle(env[PlaywrightUserDataDir]);
    }
    if TestWorkerIndex in env {
      TrimIsMiddle(env[TestWorkerIndex]);
    }
  }

  /** Worker n gets port 9333 + n and names with its number, when only its index is set. */
  lemma DefaultContext(env: Env, host: Host, n: nat)
    requires env.Keys == {TestWorkerIndex} && env[TestWorkerIndex] == Digits(n)
    ensures var namespace := Sanitize("pw-" + Sanitize("local-" + Digits(host.pid)) + "-w" + Digits(n));
            Compute(env, host) == Some(Context(
              namespace, ToDecimal(9333 + n), Sanitize("local-" + Digits(host.pid)), "persist:" + namespace,
              host.root + "/" + namespace + "/user-data", Digits(n)))
  {
    DecimalSurvives(n);
    ParsedNumeral(n, "");
    assert Digits(n) + "" == Digits(n);
  }

  predicate IsSet(env: Env, name: Variable, value: string) {
    name in env && Trim(env[name]) == value != ""
  }

  /** Every variable that is set decides its part of the context, before all defaults. */
  lemma SetVariablesDecide(env: Env, host: Host, c: Context, value: string)
    requires Compute(env, host) == Some(c)
    ensures IsSet(env, TestWorkerIndex, value) ==> c.workerIndex == value
    ensures IsSet(env, PlaywrightRunId, value) ==> c.runId == Sanitize(value)
    ensures IsSet(env, GithubRunId, value) && PlaywrightRunId !in env ==> c.runId == Sanitize(value)
    ensures IsSet(env, PlaywrightNamespace, value) ==> c.namespace == Sanitize(value)
    ensures IsSet(env, PlaywrightSessionPartition, value) ==> c.sessionPartition == value
    ensures IsSet(env, PlaywrightUserDataDir, value) ==> c.userDataDir == value
    ensures IsSet(env, ElectronRemoteDebuggingPort, value) ==> c.remoteDebuggingPort == value
  {
  }

  /** Characters that are safe stay, and all others become hyphens. */
  lemma SanitizedCharacters(s: string, i: nat)
    requires i < |s|
    ensures Sanitize(s)[i] ==
            if IsDigit(s[i]) || 'A' <= s[i] <= 'Z' || 'a' <= s[i] <= 'z' || s[i] in "_-" then s[i] else '-'
  {
  }

  /** Clearing removes the eight variables, keeps the others, and forgets the context. */
  lemma ClearedState(s: State, name: Variable)
    ensures var after := ClearStep(s);
            && after.cached.None? && after.dirs == s.dirs
            && (name in after.env <==> name in s.env && name in {GithubRunId, PlaywrightSharedEnv})
            && (name in after.env ==> after.env[name] == s.env[name])
  {
  }

  ghost predicate IsAtOrBelow(dir: string, root: string) {
    dir == root || exists rest :: dir == root + "/" + rest
  }

  /** Cleaning up removes the directories at and below the root, and clears. */
  lemma CleanedUp(s: State, root: string, dir: string)
    ensures CleanupStep(s, None) == s
    ensures var after := CleanupStep(s, Some(root));
            && (dir in after.dirs <==> dir in s.dirs && !IsAtOrBelow(dir, root))
            && after.env == ClearStep(s).env && after.cached.None?
  {
    if root + "/" <= dir {
      assert dir == root + "/" + dir[|root| + 1..];
    }
    if rest :| dir == root + "/" + rest {
      assert root + "/" <= dir;
    }
  }

  /** The run id of an activation is that of the build server, or names the process. */
  lemma RunIdOfActivation(env: Env, host: Host, value: string)
    ensures IsSet(env, GithubRunId, value) ==> ResolveRunId(env, host) == Sanitize(value)
    ensures GithubRunId !in env ==> ResolveRunId(env, host) == Sanitize("local-" + Digits(host.pid))
  {
  }

  predicate IsSafeText(s: string) {
    forall i :: 0 <= i < |s| ==> IsSafe(s[i])
  }

  lemma SafeTextStays(s: string)
    requires IsSafeText(s)
    ensures Sanitize(s) == s
  {
  }

  lemma SafeConcat(x: string, y: string)
    requires IsSafeText(x) && IsSafeText(y)
    ensures IsSafeText(x + y)
  {
  }

  function Cut(s: string): string {
    if |s| <= 32 then s else s[..32]
  }

  /** The title, cut after 32 characters, if there is one, and the retry. */
  function SlugText(info: TestInfo): string {
    if info.title.Some? && info.title.value != "" then
      "-" + Cut(Sanitize(info.title.value)) + ("-r" + Digits(info.retry))
    else "-r" + Digits(info.retry)
  }

  lemma SlugIsSafe(info: TestInfo)
    ensures TitleSlug(info) == SlugText(info) && IsSafeText(SlugText(info)) && SlugText(info)[0] == '-'
  {
    var suffix := "-r" + Digits(info.retry);
    assert AllDigits(Digits(info.retry));
    SafeConcat("-r", Digits(info.retry));
    if info.title.Some? && info.title.value != "" {
      var cut := Cut(Sanitize(info.title.value));
      SafeConcat("-", cut);
      SafeConcat("-" + cut, suffix);
    }
  }

  function NamespaceStart(info: TestInfo, runId: string): string {
    "pw-" + runId + "-" + Sanitize(info.fileName) + "-w"
  }

  /** The namespace of a test, spelled out: run, file, worker, title and retry. */
  lemma NamespaceIs(info: TestInfo, runId: string)
    requires IsSafeText(runId)
    ensures TestNamespace(info, runId) == NamespaceStart(info, runId) + Digits(info.parallelIndex) + SlugText(info)
  {
    var digits := Digits(info.parallelIndex);
    assert AllDigits(digits);
    SlugIsSafe(info);
    SafeConcat("pw-", runId);
    SafeConcat("pw-" + runId, "-");
    SafeConcat("pw-" + runId + "-", Sanitize(info.fileName));
    SafeConcat("pw-" + runId + "-" + Sanitize(info.fileName), "-w");
    SafeConcat(NamespaceStart(info, runId), digits);
    SafeConcat(NamespaceStart(info, runId) + digits, SlugText(info));
    SafeTextStays(NamespaceText(info, runId));
  }

  /** After the start come the worker's digits and a hyphen. */
  lemma WorkerInNamespace(info: TestInfo, runId: string)
    requires IsSafeText(runId)
    ensures NamespaceStart(info, runId) <= TestNamespace(info, runId)
    ensures BeforeFirst('-', TestNamespace(info, runId)[|NamespaceStart(info, runId)|..]) == Digits(info.parallelIndex)
  {
    var start, digits, slug := NamespaceStart(info, runId), Digits(info.parallelIndex), SlugText(info);
    NamespaceIs(info, runId);
    SlugIsSafe(info);
    DigitsBeforeHyphen(digits, slug);
    DropStart(start, digits, slug);
  }

  lemma DropStart(start: string, digits: string, slug: string)
    ensures start <= start + digits + slug && (start + digits + slug)[|start|..] == digits + slug
  {
  }

  lemma DigitsBeforeHyphen(digits: string, slug: string)
    requires AllDigits(digits) && slug != "" && slug[0] == '-'
    ensures BeforeFirst('-', digits + slug) == digits
  {
    SplitAtFirst('-', digits, slug[1..]);
    assert digits + ['-'] + slug[1..] == digits + slug;
  }

  /** Two workers that run the same file in the same run never share a namespace. */
  lemma WorkersAreApart(info: TestInfo, other: TestInfo, runId: string)
    requires IsSafeText(runId) && info.fileName == other.fileName && info.parallelIndex != other.parallelIndex
    ensures TestNamespace(info, runId) != TestNamespace(other, runId)
  {
    WorkerInNamespace(info, runId);
    WorkerInNamespace(other, runId);
    ParseOfDigits(info.parallelIndex);
    ParseOfDigits(other.parallelIndex);
  }

  // ----- The results -----

  /** The cache is undefined or holds what would be computed now. */
  predicate CacheIsCurrent(s: State, host: Host) {
    s.cached.Some? ==> s.cached.value == Compute(s.env, host)
  }

  lemma ApplyKeepsCacheCurrent(s: State, host: Host)
    requires ValidHost(host) && CacheIsCurrent(s, host)
    ensures CacheIsCurrent(ApplyStep(s, host), host)
  {
    if Compute(s.env, host).Some? {
      WriteBackIsFixedPoint(s.env, host);
    }
  }

  lemma PerformKeepsCacheCurrent(s: State, op: Operation, host: Host)
    requires ValidHost(host) && CacheIsCurrent(s, host)
    ensures CacheIsCurrent(Perform(s, op, host), host)
  {
    match op
    case Apply =>
      ApplyKeepsCacheCurrent(s, host);
    case Activate(info) =>
      var cleared := ClearStep(s);
      var runId := ResolveRunId(cleared.env, host);
      ApplyKeepsCacheCurrent(cleared.(env := cleared.env + ActivationEnv(info, runId, host)), host);
    case _ =>
  }

  /** In every run of the operations, a cached context equals a new computation. */
  lemma {:induction false} CacheStaysCurrent(s: State, ops: seq<Operation>, host: Host)
    requires ValidHost(host) && CacheIsCurrent(s, host)
    ensures CacheIsCurrent(PerformAll(s, ops, host), host)
  {
    if ops != [] {
      CacheStaysCurrent(s, ops[..|ops| - 1], host);
      PerformKeepsCacheCurrent(PerformAll(s, ops[..|ops| - 1], host), ops[|ops| - 1], host);
    }
  }

  /**
   An activated context has the namespace of the test, its own directory below the
   root, and the port of its worker. It has the resolved run id exactly when that is
   not empty, as it is when the run id of the build server is set but blank.
   */
  lemma ActivatedContext(s: State, info: TestInfo, host: Host)
    requires ValidHost(host) && IsSharedEnvironmentRun(s.env)
    ensures var after := ActivateStep(s, info, host);
            var runId := ResolveRunId(s.env, host);
            var namespace := TestNamespace(info, runId);
            && after.cached.Some? && after.cached.value.Some?
            && var c := after.cached.value.value;
               && c.namespace == namespace
               && c.userDataDir == RootDir(host, namespace) + "/user-data" && c.userDataDir in after.dirs
               && c.sessionPartition == "persist:" + namespace
               && c.remoteDebuggingPort == ToDecimal(DEFAULT_REMOTE_DEBUGGING_PORT + info.parallelIndex)
               && c.workerIndex == ToDecimal(info.parallelIndex)
               && (c.runId == runId <==> runId != "")
  {
    var runId := ResolveRunId(s.env, host);
    var all := s.env - CLEARED + ActivationEnv(info, runId, host);
    ActivationIsRead(s.env - CLEARED, info, runId, host);
    ActivateComputes(s, info, host);
    if runId == "" {
      assert RunIdFrom(all, host) != "";
    } else {
      ActivationRunIdIsRead(s.env - CLEARED, info, runId, host);
    }
  }

  /** What an activation gives a variable, unless the variable belongs to the build server. */
  function ActivatedValue(v: Variable, info: TestInfo, runId: string, host: Host): Option<string> {
    match v
    case TestWorkerIndex => Some(Digits(info.parallelIndex))
    case PlaywrightWorkerId => Some(Digits(info.parallelIndex))
    case PlaywrightRunId => Some(runId)
    case PlaywrightNamespace => Some(TestNamespace(info, runId))
    case PlaywrightUserDataDir => Some(host.root + "/" + TestNamespace(info, runId) + "/user-data")
    case PlaywrightSessionPartition => Some("persist:" + TestNamespace(info, runId))
    case PlaywrightDisableSingleInstanceLock => Some("true")
    case ElectronRemoteDebuggingPort => Some(Digits(9333 + info.parallelIndex))
    case GithubRunId => None
    case PlaywrightSharedEnv => None
  }

  lemma ActivationEnvAt(v: Variable, info: TestInfo, runId: string, host: Host)
    ensures v in ActivationEnv(info, runId, host) <==>
            v != PlaywrightWorkerId && ActivatedValue(v, info, runId, host).Some?
    ensures v in ActivationEnv(info, runId, host) ==>
              Some(ActivationEnv(info, runId, host)[v]) == ActivatedValue(v, info, runId, host)
  {
  }

  lemma ClearedVariable(v: Variable)
    ensures v in CLEARED <==> v != GithubRunId && v != PlaywrightSharedEnv
  {
  }

  function EnvToApply(env: Env, info: TestInfo, host: Host): Env {
    env - CLEARED + ActivationEnv(info, ResolveRunId(env, host), host)
  }

  lemma ComputedWorker(env: Env, info: TestInfo, host: Host) returns (c: Context)
    requires ValidHost(host)
    ensures Compute(EnvToApply(env, info, host), host) == Some(c) && c.workerIndex == ToDecimal(info.parallelIndex)
  {
    assert ResolveRunId(env - CLEARED, host) == ResolveRunId(env, host);
    ActivationIsRead(env - CLEARED, info, ResolveRunId(env, host), host);
    c := Compute(EnvToApply(env, info, host), host).value;
  }

  lemma ApplyWrites(s: State, host: Host, c: Context)
    requires s.cached.None? && Compute(s.env, host) == Some(c)
    ensures ApplyStep(s, host).env == WriteBack(s.env, c)
  {
  }

  lemma ActivateApplies(s: State, info: TestInfo, host: Host)
    requires IsSharedEnvironmentRun(s.env)
    ensures var cleared := ClearStep(s);
            var runId := ResolveRunId(cleared.env, host);
            ActivateStep(s, info, host).env
            == ApplyStep(cleared.(env := cleared.env + ActivationEnv(info, runId, host)), host).env
  {
    assert IsSharedEnvironmentRun(ClearStep(s).env);
  }

  lemma AppliedEnv(s: State, info: TestInfo, host: Host, c: Context)
    requires IsSharedEnvironmentRun(s.env) && Compute(EnvToApply(s.env, info, host), host) == Some(c)
    ensures ActivateStep(s, info, host).env == WriteBack(EnvToApply(s.env, info, host), c)
  {
    var cleared := ClearStep(s);
    RunIdIsKept(s, host);
    ActivateApplies(s, info, host);
    ApplyWrites(cleared.(env := EnvToApply(s.env, info, host)), host, c);
  }

  lemma RunIdIsKept(s: State, host: Host)
    ensures ResolveRunId(ClearStep(s).env, host) == ResolveRunId(s.env, host)
  {
  }

  /** Every variable after an activation in a shared run. */
  lemma ActivatedVariable(s: State, info: TestInfo, host: Host, v: Variable)
    requires ValidHost(host) && IsSharedEnvironmentRun(s.env)
    ensures var after := ActivateStep(s, info, host).env;
            match ActivatedValue(v, info, ResolveRunId(s.env, host), host)
            case Some(value) => v in after && after[v] == value
            case None => (v in after <==> v in s.env) && (v in s.env ==> after[v] == s.env[v])
  {
    var env := EnvToApply(s.env, info, host);
    var c := ComputedWorker(s.env, info, host);
    AppliedEnv(s, info, host, c);
    EnvToApplyAt(s.env, info, host, v);
    EnvToApplyAt(s.env, info, host, PlaywrightWorkerId);
    WrittenBackAt(env, c, v);
  }

  lemma EnvToApplyAt(env: Env, info: TestInfo, host: Host, v: Variable)
    ensures var all := EnvToApply(env, info, host);
            match ActivatedValue(v, info, ResolveRunId(env, host), host)
            case Some(value) => if v == PlaywrightWorkerId then v !in all else v in all && all[v] == value
            case None => (v in all <==> v in env) && (v in env ==> all[v] == env[v])
  {
    ActivationEnvAt(v, info, ResolveRunId(env, host), host);
    ClearedVariable(v);
  }

  /** Writing back adds only defaults, and the worker's is its index. */
  lemma WrittenBackAt(env: Env, c: Context, v: Variable)
    ensures v in env ==> v in WriteBack(env, c) && WriteBack(env, c)[v] == env[v]
    ensures v in {GithubRunId, PlaywrightSharedEnv} && v !in env ==> v !in WriteBack(env, c)
    ensures PlaywrightWorkerId !in env ==>
              PlaywrightWorkerId in WriteBack(env, c) && WriteBack(env, c)[PlaywrightWorkerId] == c.workerIndex
  {
    WriteBackKeepsSetVariables(env, c);
  }

  /** Outside of shared runs an activation only clears. */
  lemma ActivationOutsideSharedRuns(s: State, info: TestInfo, host: Host)
    requires PlaywrightSharedEnv !in s.env || s.env[PlaywrightSharedEnv] != "true"
    ensures ActivateStep(s, info, host) == ClearStep(s)
  {
  }

  lemma ActivateComputes(s: State, info: TestInfo, host: Host)
    requires IsSharedEnvironmentRun(s.env)
    ensures var runId := ResolveRunId(s.env, host);
            var context := Compute(s.env - CLEARED + ActivationEnv(info, runId, host), host);
            var after := ActivateStep(s, info, host);
            after.cached == Some(context) && (context.Some? ==> context.value.userDataDir in after.dirs)
  {
    var cleared := ClearStep(s);
    assert IsSharedEnvironmentRun(cleared.env);
    assert ResolveRunId(cleared.env, host) == ResolveRunId(s.env, host);
  }

  lemma SetVariableIsRead(env: Env, over: Env, name: Variable)
    requires name in over && Trim(over[name]) == over[name] != ""
    ensures ReadEnv(env + over, name) == Some(over[name])
  {
  }

  /** A context whose parts are all set, and read unchanged, is computed. */
  lemma ContextFromReads(env: Env, host: Host, c: Context)
    requires ReadEnv(env, TestWorkerIndex) == Some(c.workerIndex) && c.runId == RunIdFrom(env, host)
    requires ReadEnv(env, PlaywrightNamespace) == Some(c.namespace) && Sanitize(c.namespace) == c.namespace
    requires ReadEnv(env, ElectronRemoteDebuggingPort) == Some(c.remoteDebuggingPort)
    requires ReadEnv(env, PlaywrightSessionPartition) == Some(c.sessionPartition)
    requires ReadEnv(env, PlaywrightUserDataDir) == Some(c.userDataDir)
    ensures Compute(env, host) == Some(c)
  {
    ComputedIsExplained(env, host, c);
  }

  lemma ActivatedNumbers(env: Env, info: TestInfo, runId: string, host: Host)
    ensures var all := env + ActivationEnv(info, runId, host);
            && ReadEnv(all, TestWorkerIndex) == Some(ToDecimal(info.parallelIndex))
            && ReadEnv(all, ElectronRemoteDebuggingPort)
               == Some(ToDecimal(DEFAULT_REMOTE_DEBUGGING_PORT + info.parallelIndex))
  {
    var over := ActivationEnv(info, runId, host);
    DecimalSurvives(info.parallelIndex);
    SetVariableIsRead(env, over, TestWorkerIndex);
    DecimalSurvives(DEFAULT_REMOTE_DEBUGGING_PORT + info.parallelIndex);
    SetVariableIsRead(env, over, ElectronRemoteDebuggingPort);
  }

  lemma ActivatedNames(env: Env, info: TestInfo, runId: string, host: Host)
    requires ValidHost(host)
    ensures var all, namespace := env + ActivationEnv(info, runId, host), TestNamespace(info, runId);
            && ReadEnv(all, PlaywrightNamespace) == Some(namespace) && Sanitize(namespace) == namespace
            && ReadEnv(all, PlaywrightSessionPartition) == Some("persist:" + namespace)
            && ReadEnv(all, PlaywrightUserDataDir) == Some(UserDataDir(host, namespace))
  {
    var namespace, over := TestNamespace(info, runId), ActivationEnv(info, runId, host);
    SanitizedSurvives(NamespaceText(info, runId));
    SetVariableIsRead(env, over, PlaywrightNamespace);
    PartitionSurvives(NamespaceText(info, runId));
    SetVariableIsRead(env, over, PlaywrightSessionPartition);
    DirectorySurvives(host, namespace);
    assert over[PlaywrightUserDataDir] == UserDataDir(host, namespace);
    SetVariableIsRead(env, over, PlaywrightUserDataDir);
  }

  /** The context that is computed from the variables of an activation. */
  lemma ActivationIsRead(env: Env, info: TestInfo, runId: string, host: Host)
    requires ValidHost(host) && runId == ResolveRunId(env, host)
    ensures var namespace := TestNamespace(info, runId);
            var all := env + ActivationEnv(info, runId, host);
            Compute(all, host) == Some(Context(
              namespace, ToDecimal(DEFAULT_REMOTE_DEBUGGING_PORT + info.parallelIndex), RunIdFrom(all, host),
              "persist:" + namespace, UserDataDir(host, namespace), ToDecimal(info.parallelIndex)))
  {
    var namespace, all := TestNamespace(info, runId), env + ActivationEnv(info, runId, host);
    ActivatedNumbers(env, info, runId, host);
    ActivatedNames(env, info, runId, host);
    ContextFromReads(all, host, Context(
      namespace, ToDecimal(DEFAULT_REMOTE_DEBUGGING_PORT + info.parallelIndex), RunIdFrom(all, host),
      "persist:" + namespace, UserDataDir(host, namespace), ToDecimal(info.parallelIndex)));
  }

  lemma ActivationRunIdIsRead(env: Env, info: TestInfo, runId: string, host: Host)
    requires runId == ResolveRunId(env, host) != ""
    ensures RunIdFrom(env + ActivationEnv(info, runId, host), host) == runId
  {
    SanitizedSurvives(if GithubRunId in env then Trim(env[GithubRunId]) else LocalRunId(host));
    SetVariableIsRead(env, ActivationEnv(info, runId, host), PlaywrightRunId);
  }
}
