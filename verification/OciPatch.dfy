/**
 * The OCI config patcher of docker/build-trust-runtime/spec.go on decoded values: envelope
 * validation, environment and mount injection.
 */
module OciPatch {

  import opened StrictJson
  import opened KeyedInjection
  import opened Wrappers

  const MAX_CONFIG_BYTES := 0x20_0000
  const MAX_ENV_ENTRIES := 1024
  const MAX_MOUNTS := 512

  datatype TrustSource = TrustSource(source: string, destination: string)

  /** One `NAME=value` assignment, already cut at its first equals sign. */
  datatype Assignment = Assignment(name: string, value: string) {
    function Text(): string { name + "=" + value }
  }

  const CA_BUNDLE := "/dev/ironcurtain/ca-bundle.pem"

  const INJECTED_ENVIRONMENT: seq<Assignment> := [
    Assignment("NODE_EXTRA_CA_CERTS", "/dev/ironcurtain/ca-cert.pem"),
    Assignment("SSL_CERT_FILE", CA_BUNDLE),
    Assignment("CURL_CA_BUNDLE", CA_BUNDLE),
    Assignment("GIT_SSL_CAINFO", CA_BUNDLE),
    Assignment("npm_config_cafile", CA_BUNDLE),
    Assignment("PIP_CERT", CA_BUNDLE),
    Assignment("REQUESTS_CA_BUNDLE", CA_BUNDLE),
    Assignment("CARGO_HTTP_CAINFO", CA_BUNDLE),
    Assignment("APT_CONFIG", "/dev/ironcurtain/apt.conf"),
    Assignment("npm_config_audit", "false"),
    Assignment("PIP_DISABLE_PIP_VERSION_CHECK", "1"),
    Assignment("UV_NATIVE_TLS", "1")
  ]

  const QUALIFIED_OCI_VERSION := "1.3.0"

  const QUALIFIED_CAPABILITIES: seq<string> := [
    "CAP_CHOWN", "CAP_DAC_OVERRIDE", "CAP_FSETID", "CAP_FOWNER", "CAP_MKNOD", "CAP_NET_RAW", "CAP_SETGID",
    "CAP_SETUID", "CAP_SETFCAP", "CAP_SETPCAP", "CAP_NET_BIND_SERVICE", "CAP_SYS_CHROOT", "CAP_KILL", "CAP_AUDIT_WRITE"
  ]

  const NO_NETWORK_NAMESPACES: seq<string> := ["pid", "ipc", "uts", "mount", "network", "cgroup"]
  const HOST_NETWORK_NAMESPACES: seq<string> := ["pid", "ipc", "uts", "mount", "cgroup"]

  const QUALIFIED_READONLY_PATHS: seq<string> :=
    ["/proc/bus", "/proc/fs", "/proc/irq", "/proc/sys", "/proc/sysrq-trigger"]

  const QUALIFIED_MASKED_PATHS: seq<string> := [
    "/proc/acpi", "/proc/asound", "/proc/kcore", "/proc/keys", "/proc/latency_stats", "/proc/timer_list",
    "/proc/timer_stats", "/proc/sched_debug", "/sys/firmware", "/sys/devices/virtual/powercap", "/proc/scsi"
  ]

  function StringValues(xs: seq<string>): Value {
    Array(seq(|xs|, i requires 0 <= i < |xs| => Str(xs[i])))
  }

  function MountValue(destination: string, mountType: string, source: string, options: seq<string>): Value {
    Object(map["destination" := Str(destination), "type" := Str(mountType), "source" := Str(source),
               "options" := StringValues(options)])
  }

  const QUALIFIED_DEV_MOUNTS: seq<Value> := [
    MountValue("/dev", "tmpfs", "tmpfs", ["nosuid", "strictatime", "mode=755", "size=65536k"]),
    MountValue(
      "/dev/pts", "devpts", "devpts", ["nosuid", "noexec", "newinstance", "ptmxmode=0666", "mode=0620", "gid=5"]),
    MountValue("/dev/shm", "tmpfs", "shm", ["nosuid", "noexec", "nodev", "mode=1777", "size=65536k"]),
    MountValue("/dev/mqueue", "mqueue", "mqueue", ["nosuid", "noexec", "nodev"])
  ]

  const BIND_OPTIONS: seq<string> := ["rbind", "ro", "rprivate", "nosuid", "nodev", "noexec"]

  function TrustMount(s: TrustSource): Value {
    MountValue(s.destination, "bind", s.source, BIND_OPTIONS)
  }

  // ---------------------------------------------------------------------
  // Text predicates
  // ---------------------------------------------------------------------

  predicate HasNul(s: string) { '\0' in s }

  predicate IsAlpha(c: char) { 'A' <= c <= 'Z' || 'a' <= c <= 'z' }

  /** ^[A-Za-z_][A-Za-z0-9_]*$ */
  predicate IsEnvName(s: string) {
    && s != [] && (IsAlpha(s[0]) || s[0] == '_')
    && forall i :: 0 <= i < |s| ==> IsAlpha(s[i]) || IsDigit(s[i]) || s[i] == '_'
  }

  /** path.Clean(s) == s for a rooted s: no empty, dot or dot-dot segment and no trailing slash. */
  predicate CleanSegments(s: string)
  {
    if s == [] then true
    else
      s[0] == '/' &&
      var n := IndexOf(s[1..], '/');
      var segment := s[1..][..n];
      segment != [] && segment != "." && segment != ".." && CleanSegments(s[1..][n..])
  }

  predicate IsCleanAbsolute(s: string) { s == "/" || (s != [] && CleanSegments(s)) }

  /** path.Base of a clean absolute path. */
  function Base(s: string): string {
    if '/' !in s then s else Base(s[IndexOf(s, '/') + 1..])
  }

  /** ^[a-z0-9]{25}$ */
  predicate IsBuildkitId(s: string) {
    |s| == 25 && forall i :: 0 <= i < |s| ==> 'a' <= s[i] <= 'z' || IsDigit(s[i])
  }

  function DigitsValue(s: string): nat
    requires forall i :: 0 <= i < |s| ==> IsDigit(s[i])
  {
    if s == [] then 0
    else
      assert IsDigit(s[|s| - 1]);
      DigitsValue(s[..|s| - 1]) * 10 + ((s[|s| - 1] as int) - ('0' as int))
  }

  /** exactNonNegativeInteger: an integer literal between 0 and `maximum`. */
  predicate IsIntegerUpTo(v: Value, maximum: nat) {
    v.Number? &&
    var negative := |v.text| > 0 && v.text[0] == '-';
    var digits := if negative then v.text[1..] else v.text;
    digits != [] && (forall i :: 0 <= i < |digits| ==> IsDigit(digits[i]))
    && DigitsValue(digits) <= (if negative then 0 else maximum)
  }

  // ---------------------------------------------------------------------
  // validateSpecEnvelope
  // ---------------------------------------------------------------------

  predicate ExactStringArray(v: Value, expected: seq<string>) {
    v.Array? && |v.items| == |expected| && forall i :: 0 <= i < |expected| ==> v.items[i] == Str(expected[i])
  }

  predicate ObjectAt(fields: map<string, Value>, key: string) { key in fields && fields[key].Object? }

  predicate ArrayAt(fields: map<string, Value>, key: string) { key in fields && fields[key].Array? }

  predicate StringAt(fields: map<string, Value>, key: string) { key in fields && fields[key].Str? }

  const MAX_ID := 0x7FFF_FFFF

  predicate ValidUser(user: map<string, Value>) {
    user.Keys == {"additionalGids", "gid", "uid"}
    && IsIntegerUpTo(user["uid"], MAX_ID) && IsIntegerUpTo(user["gid"], MAX_ID)
    && user["additionalGids"].Array? && |user["additionalGids"].items| <= 256
    && forall g :: g in user["additionalGids"].items ==> IsIntegerUpTo(g, MAX_ID)
  }

  predicate ValidCapabilities(capabilities: map<string, Value>) {
    capabilities.Keys == {"bounding", "effective", "permitted"}
    && forall k :: k in capabilities ==> ExactStringArray(capabilities[k], QUALIFIED_CAPABILITIES)
  }

  predicate ValidArgs(args: seq<Value>) {
    0 < |args| <= 4096 && forall a :: a in args ==> a.Str? && |a.s| <= MAX_STRING_BYTES && !HasNul(a.s)
  }

  predicate ValidProcess(process: map<string, Value>) {
    process.Keys == {"args", "capabilities", "cwd", "env", "user"}
    && process["args"].Array? && ValidArgs(process["args"].items)
    && process["cwd"].Str? && IsCleanAbsolute(process["cwd"].s)
    && |process["cwd"].s| <= 4096 && !HasNul(process["cwd"].s)
    && process["capabilities"].Object? && ValidCapabilities(process["capabilities"].fields)
    && process["user"].Object? && ValidUser(process["user"].fields)
  }

  predicate MatchesNamespaces(namespaces: seq<Value>, expected: seq<string>) {
    |namespaces| == |expected|
    && forall i :: 0 <= i < |expected| ==> namespaces[i] == Object(map["type" := Str(expected[i])])
  }

  predicate ValidLinux(linux: map<string, Value>) {
    linux.Keys == {"maskedPaths", "namespaces", "readonlyPaths", "seccomp"}
    && linux["namespaces"].Array?
    && (MatchesNamespaces(linux["namespaces"].items, NO_NETWORK_NAMESPACES)
        || MatchesNamespaces(linux["namespaces"].items, HOST_NETWORK_NAMESPACES))
    && ExactStringArray(linux["readonlyPaths"], QUALIFIED_READONLY_PATHS)
    && ExactStringArray(linux["maskedPaths"], QUALIFIED_MASKED_PATHS)
    && linux["seccomp"].Object?
  }

  predicate ValidEnvelope(spec: map<string, Value>, bundlePath: string) {
    spec.Keys == {"hostname", "linux", "mounts", "ociVersion", "process", "root"}
    && spec["ociVersion"] == Str(QUALIFIED_OCI_VERSION)
    && spec["hostname"].Str? && 0 < |spec["hostname"].s| <= 255 && !HasNul(spec["hostname"].s)
    && spec["process"].Object? && ValidProcess(spec["process"].fields)
    && IsCleanAbsolute(bundlePath) && IsBuildkitId(Base(bundlePath))
    && spec["root"] == Object(map["path" := Str(bundlePath + "/rootfs")])
    && spec["linux"].Object? && ValidLinux(spec["linux"].fields)
  }

  // ---------------------------------------------------------------------
  // Environment
  // ---------------------------------------------------------------------

  /** The name of an assignment entry; only meaningful for valid entries. */
  function EnvName(v: Value): string {
    if v.Str? then v.s[..IndexOf(v.s, '=')] else ""
  }

  function EnvValue(v: Value): string {
    if v.Str? && '=' in v.s then v.s[IndexOf(v.s, '=') + 1..] else ""
  }

  predicate ValidAssignment(v: Value) {
    v.Str? && |v.s| <= MAX_STRING_BYTES && '=' in v.s && IsEnvName(EnvName(v)) && !HasNul(EnvValue(v))
  }

  function Assignments(injected: seq<Assignment>): seq<Value> {
    seq(|injected|, i requires 0 <= i < |injected| => Str(injected[i].Text()))
  }

  const WANTED_ENVIRONMENT: seq<Value> := Assignments(INJECTED_ENVIRONMENT)

  /** Exactly when injectEnvironment succeeds. */
  predicate EnvAdmits(env: seq<Value>) {
    |env| <= MAX_ENV_ENTRIES
    && (forall i :: 0 <= i < |env| ==> ValidAssignment(env[i]))
    && DistinctBy(EnvName, env)
    && KeyDetermines(EnvName, env + WANTED_ENVIRONMENT)
    && |env| + |Missing(env, WANTED_ENVIRONMENT)| <= MAX_ENV_ENTRIES
  }

  function PatchedEnv(env: seq<Value>): seq<Value> {
    env + Missing(env, WANTED_ENVIRONMENT)
  }

  lemma CutJoins(v: Value)
    requires v.Str? && '=' in v.s
    ensures v.s == EnvName(v) + "=" + EnvValue(v)
  {
  }

  lemma {:induction false} FirstIndex(name: string, value: string, c: char)
    requires c !in name
    ensures IndexOf(name + [c] + value, c) == |name|
    decreases |name|
  {
    if name == [] {
      assert (name + [c] + value)[0] == c;
    } else {
      var s := name + [c] + value;
      assert s[0] == name[0] && name[0] in name;
      assert s[1..] == name[1..] + [c] + value;
      FirstIndex(name[1..], value, c);
    }
  }

  lemma CutOfText(a: Assignment)
    requires '=' !in a.name
    ensures EnvName(Str(a.Text())) == a.name && EnvValue(Str(a.Text())) == a.value && '=' in a.Text()
  {
    FirstIndex(a.name, a.value, '=');
    assert a.Text()[|a.name|] == '=';
  }

  predicate InjectableAssignment(a: Assignment) {
    IsEnvName(a.name) && !HasNul(a.value) && |a.name| + |a.value| < 100
  }

  lemma InjectedShortNames()
    ensures IsEnvName("SSL_CERT_FILE") && IsEnvName("CURL_CA_BUNDLE") && IsEnvName("GIT_SSL_CAINFO")
    ensures IsEnvName("PIP_CERT") && IsEnvName("APT_CONFIG") && IsEnvName("UV_NATIVE_TLS")
  {
  }

  lemma InjectedLongNames()
    ensures IsEnvName("NODE_EXTRA_CA_CERTS") && IsEnvName("npm_config_cafile") && IsEnvName("REQUESTS_CA_BUNDLE")
    ensures IsEnvName("CARGO_HTTP_CAINFO") && IsEnvName("npm_config_audit")
  {
  }

  lemma InjectedLongestName()
    ensures IsEnvName("PIP_DISABLE_PIP_VERSION_CHECK")
  {
  }

  lemma InjectedValues()
    ensures !HasNul("/dev/ironcurtain/ca-cert.pem") && !HasNul(CA_BUNDLE) && !HasNul("/dev/ironcurtain/apt.conf")
    ensures !HasNul("false") && !HasNul("1")
  {
  }

  lemma InjectedAreInjectable(i: nat)
    requires i < |INJECTED_ENVIRONMENT|
    ensures InjectableAssignment(INJECTED_ENVIRONMENT[i])
  {
    InjectedShortNames();
    InjectedLongNames();
    InjectedLongestName();
    InjectedValues();
  }

  lemma WantedEnvironmentIsValid()
    ensures |WANTED_ENVIRONMENT| == 12
    ensures forall i :: 0 <= i < |WANTED_ENVIRONMENT| ==>
      WANTED_ENVIRONMENT[i] == Str(INJECTED_ENVIRONMENT[i].Text())
      && ValidAssignment(WANTED_ENVIRONMENT[i])
      && EnvName(WANTED_ENVIRONMENT[i]) == INJECTED_ENVIRONMENT[i].name
      && EnvValue(WANTED_ENVIRONMENT[i]) == INJECTED_ENVIRONMENT[i].value
  {
    forall i | 0 <= i < |WANTED_ENVIRONMENT|
      ensures ValidAssignment(WANTED_ENVIRONMENT[i])
      ensures EnvName(WANTED_ENVIRONMENT[i]) == INJECTED_ENVIRONMENT[i].name
      ensures EnvValue(WANTED_ENVIRONMENT[i]) == INJECTED_ENVIRONMENT[i].value
    {
      InjectedAreInjectable(i);
      CutOfText(INJECTED_ENVIRONMENT[i]);
    }
  }

  // ---------------------------------------------------------------------
  // Mounts
  // ---------------------------------------------------------------------

  function DestinationOf(v: Value): string {
    if v.Object? && StringAt(v.fields, "destination") then v.fields["destination"].s else ""
  }

  const MOUNT_KEYS := {"destination", "type", "source", "options", "uidMappings", "gidMappings"}

  predicate ValidDestination(s: string) {
    IsCleanAbsolute(s) && |s| <= 4096 && !HasNul(s)
  }

  predicate ValidOptions(options: seq<Value>) {
    |options| <= 128 && forall o :: o in options ==> o.Str? && o.s != "" && |o.s| <= 4096 && !HasNul(o.s)
  }

  predicate ValidMount(v: Value) {
    v.Object? && v.fields.Keys <= MOUNT_KEYS
    && StringAt(v.fields, "destination") && ValidDestination(v.fields["destination"].s)
    && StringAt(v.fields, "type") && 0 < |v.fields["type"].s| <= 128
    && StringAt(v.fields, "source") && |v.fields["source"].s| <= 4096 && !HasNul(v.fields["source"].s)
    && ("options" in v.fields ==> v.fields["options"].Array? && ValidOptions(v.fields["options"].items))
  }

  /** What a trust source must satisfy for its own mount to be a valid one. */
  predicate ValidSource(s: TrustSource) {
    ValidDestination(s.destination) && |s.source| <= 4096 && !HasNul(s.source)
  }

  predicate ValidSources(sources: seq<TrustSource>) {
    forall i :: 0 <= i < |sources| ==> ValidSource(sources[i])
  }

  /** exactMount: the expected side always has the four keys of MountValue. */
  predicate ExactMount(actual: Value, destination: string, mountType: string, source: string, options: seq<string>) {
    actual.Object? && |actual.fields| == 4
    && "destination" in actual.fields && actual.fields["destination"] == Str(destination)
    && "type" in actual.fields && actual.fields["type"] == Str(mountType)
    && "source" in actual.fields && actual.fields["source"] == Str(source)
    && "options" in actual.fields && ExactStringArray(actual.fields["options"], options)
  }

  /** The field-by-field comparison leaves no room for anything but the expected mount. */
  lemma ExactMountIsEquality(
    actual: Value, destination: string, mountType: string, source: string, options: seq<string>)
    ensures ExactMount(actual, destination, mountType, source, options)
       <==> actual == MountValue(destination, mountType, source, options)
  {
    var four := {"destination", "type", "source", "options"};
    assert |four| == 4;
    if ExactMount(actual, destination, mountType, source, options) {
      assert four <= actual.fields.Keys;
      SameSizeSubset(four, actual.fields.Keys);
      assert actual.fields["options"] == StringValues(options);
      assert actual.fields == MountValue(destination, mountType, source, options).fields;
    }
    if actual == MountValue(destination, mountType, source, options) {
      assert actual.fields.Keys == four;
    }
  }

  lemma SameSizeSubset(a: set<string>, b: set<string>)
    requires a <= b && |a| == |b|
    ensures a == b
  {
    assert b == a + (b - a);
    assert |b| == |a| + |b - a|;
  }

  function TrustMounts(sources: seq<TrustSource>): seq<Value> {
    seq(|sources|, i requires 0 <= i < |sources| => TrustMount(sources[i]))
  }

  /** Exactly when injectMounts succeeds. */
  predicate MountsAdmit(mounts: seq<Value>, sources: seq<TrustSource>) {
    |mounts| <= MAX_MOUNTS
    && (forall i :: 0 <= i < |mounts| ==> ValidMount(mounts[i]))
    && DistinctBy(DestinationOf, mounts)
    && (forall i :: 0 <= i < |QUALIFIED_DEV_MOUNTS| ==> QUALIFIED_DEV_MOUNTS[i] in mounts)
    && KeyDetermines(DestinationOf, mounts + TrustMounts(sources))
    && |mounts| + |Missing(mounts, TrustMounts(sources))| <= MAX_MOUNTS
  }

  function PatchedMounts(mounts: seq<Value>, sources: seq<TrustSource>): seq<Value> {
    mounts + Missing(mounts, TrustMounts(sources))
  }

  // ---------------------------------------------------------------------
  // The two injections, as the code runs them
  // ---------------------------------------------------------------------

  function Itself(v: Value): Value { v }

  method ScanEnv(env: seq<Value>) returns (ok: bool, seen: map<string, string>)
    ensures ok <==> (forall i :: 0 <= i < |env| ==> ValidAssignment(env[i])) && DistinctBy(EnvName, env)
    ensures ok ==> Records(EnvName, EnvValue, seen, env)
  {
    seen := map[];
    for i := 0 to |env|
      invariant forall k :: 0 <= k < i ==> ValidAssignment(env[k])
      invariant Records(EnvName, EnvValue, seen, env[..i]) && DistinctBy(EnvName, env[..i])
    {
      var raw := env[i];
      if !raw.Str? || |raw.s| > MAX_STRING_BYTES { return false, seen; }
      var cut := IndexOf(raw.s, '=');
      if cut == |raw.s| { return false, seen; }
      var name, value := raw.s[..cut], raw.s[cut + 1..];
      assert EnvName(raw) == name && EnvValue(raw) == value;
      if !IsEnvName(name) || HasNul(value) { return false, seen; }
      if name in seen {
        RepeatedKey(EnvName, EnvValue, seen, env, i);
        return false, seen;
      }
      RecordsAppendPrefix(EnvName, EnvValue, seen, env, i);
      seen := seen[name := value];
    }
    assert env[..|env|] == env;
    return true, seen;
  }

  lemma SameAssignment(a: Value, b: Value)
    requires ValidAssignment(a) && ValidAssignment(b) && EnvName(a) == EnvName(b) && EnvValue(a) == EnvValue(b)
    ensures a == b
  {
    CutJoins(a);
    CutJoins(b);
  }

  lemma SameAssignments(env: seq<Value>, w: Value)
    requires (forall i :: 0 <= i < |env| ==> ValidAssignment(env[i])) && ValidAssignment(w)
    ensures forall i ::
      0 <= i < |env| && EnvName(env[i]) == EnvName(w) && EnvValue(env[i]) == EnvValue(w) ==> env[i] == w
  {
    forall i | 0 <= i < |env| && EnvName(env[i]) == EnvName(w) && EnvValue(env[i]) == EnvValue(w) ensures env[i] == w {
      SameAssignment(env[i], w);
    }
  }

  /** The assignment's text is a valid entry and cuts back into its two parts. */
  predicate CutsBack(a: Assignment) {
    var v := Str(a.Text());
    ValidAssignment(v) && EnvName(v) == a.name && EnvValue(v) == a.value
  }

  method AppendEnv(original: seq<Value>, recorded: map<string, string>, injected: seq<Assignment>)
    returns (ok: bool, env: seq<Value>)
    requires |original| <= MAX_ENV_ENTRIES && forall i :: 0 <= i < |original| ==> ValidAssignment(original[i])
    requires DistinctBy(EnvName, original) && Records(EnvName, EnvValue, recorded, original)
    requires forall i :: 0 <= i < |injected| ==> CutsBack(injected[i])
    ensures ok <==>
      && KeyDetermines(EnvName, original + Assignments(injected))
      && |original| + |Missing(original, Assignments(injected))| <= MAX_ENV_ENTRIES
    ensures ok ==> env == original + Missing(original, Assignments(injected))
  {
    ghost var wanted := Assignments(injected);
    var seen := recorded;
    env := original;
    UnderwayStart(EnvName, original, wanted);
    for j := 0 to |injected|
      invariant forall i :: 0 <= i < |env| ==> ValidAssignment(env[i])
      invariant Records(EnvName, EnvValue, seen, env) && |env| <= MAX_ENV_ENTRIES
      invariant Underway(EnvName, env, original, wanted, j)
    {
      var name, value, w := injected[j].name, injected[j].value, Str(injected[j].Text());
      assert w == wanted[j];
      if name in seen {
        SameAssignments(env, w);
        StepTaken(EnvName, EnvValue, seen, env, original, wanted, j);
        if seen[name] != value { return false, env; }
      } else {
        StepFree(EnvName, EnvValue, seen, env, original, wanted, j);
        if |env| >= MAX_ENV_ENTRIES { return false, env; }
        env := env + [w];
        seen := seen[name := value];
      }
    }
    UnderwayEnd(EnvName, env, original, wanted);
    return true, env;
  }

  method ScanMounts(mounts: seq<Value>) returns (ok: bool, taken: map<string, Value>)
    ensures ok <==> (forall i :: 0 <= i < |mounts| ==> ValidMount(mounts[i])) && DistinctBy(DestinationOf, mounts)
    ensures ok ==> Records(DestinationOf, Itself, taken, mounts)
  {
    taken := map[];
    for i := 0 to |mounts|
      invariant forall k :: 0 <= k < i ==> ValidMount(mounts[k])
      invariant Records(DestinationOf, Itself, taken, mounts[..i]) && DistinctBy(DestinationOf, mounts[..i])
    {
      if !ValidMount(mounts[i]) { return false, taken; }
      var destination := mounts[i].fields["destination"].s;
      if destination in taken {
        RepeatedKey(DestinationOf, Itself, taken, mounts, i);
        return false, taken;
      }
      RecordsAppendPrefix(DestinationOf, Itself, taken, mounts, i);
      taken := taken[destination := mounts[i]];
    }
    assert mounts[..|mounts|] == mounts;
    return true, taken;
  }

  /** Every qualified device mount is there, under its destination and with nothing different. */
  method CheckDevMounts(mounts: seq<Value>, taken: map<string, Value>, qualified: seq<Value>) returns (ok: bool)
    requires Records(DestinationOf, Itself, taken, mounts)
    ensures ok <==> forall i :: 0 <= i < |qualified| ==> qualified[i] in mounts
  {
    for i := 0 to |qualified|
      invariant forall k :: 0 <= k < i ==> qualified[k] in mounts
    {
      var destination := DestinationOf(qualified[i]);
      if destination !in taken || taken[destination] != qualified[i] {
        return false;
      }
      assert KeyUsed(DestinationOf, mounts, destination);
    }
    return true;
  }

  method AppendMounts(original: seq<Value>, recorded: map<string, Value>, sources: seq<TrustSource>)
    returns (ok: bool, mounts: seq<Value>)
    requires |original| <= MAX_MOUNTS && DistinctBy(DestinationOf, original)
    requires Records(DestinationOf, Itself, recorded, original)
    ensures ok <==>
      && KeyDetermines(DestinationOf, original + TrustMounts(sources))
      && |original| + |Missing(original, TrustMounts(sources))| <= MAX_MOUNTS
    ensures ok ==> mounts == PatchedMounts(original, sources)
  {
    ghost var wanted := TrustMounts(sources);
    var taken := recorded;
    mounts := original;
    UnderwayStart(DestinationOf, original, wanted);
    for j := 0 to |sources|
      invariant Records(DestinationOf, Itself, taken, mounts) && |mounts| <= MAX_MOUNTS
      invariant Underway(DestinationOf, mounts, original, wanted, j)
    {
      var destination, expected := sources[j].destination, TrustMount(sources[j]);
      assert expected == wanted[j];
      assert DestinationOf(expected) == destination;
      if destination in taken {
        ExactMountIsEquality(taken[destination], destination, "bind", sources[j].source, BIND_OPTIONS);
        StepTaken(DestinationOf, Itself, taken, mounts, original, wanted, j);
        if !ExactMount(taken[destination], destination, "bind", sources[j].source, BIND_OPTIONS) {
          return false, mounts;
        }
      } else {
        StepFree(DestinationOf, Itself, taken, mounts, original, wanted, j);
        if |mounts| >= MAX_MOUNTS { return false, mounts; }
        mounts := mounts + [expected];
        taken := taken[destination := expected];
      }
    }
    UnderwayEnd(DestinationOf, mounts, original, wanted);
    return true, mounts;
  }

  function WithEnv(fields: map<string, Value>, env: seq<Value>): map<string, Value>
    requires ObjectAt(fields, "process")
  {
    fields["process" := Object(fields["process"].fields["env" := Array(env)])]
  }

  function WithMounts(fields: map<string, Value>, mounts: seq<Value>): map<string, Value> {
    fields["mounts" := Array(mounts)]
  }

  class OciSpec {
    var fields: map<string, Value>

    constructor (fields: map<string, Value>)
      ensures this.fields == fields
    {
      this.fields := fields;
    }

    /** Checks the process environment, then appends the required assignments that are not there yet. */
    method InjectEnvironment() returns (ok: bool)
      requires ObjectAt(fields, "process")
      modifies this
      ensures ok <==> old(ArrayAt(fields["process"].fields, "env") && EnvAdmits(fields["process"].fields["env"].items))
      ensures !ok ==> fields == old(fields)
      ensures ok ==> fields == old(WithEnv(fields, PatchedEnv(fields["process"].fields["env"].items)))
    {
      var process := fields["process"].fields;
      if !ArrayAt(process, "env") || |process["env"].items| > MAX_ENV_ENTRIES { return false; }
      var env := process["env"].items;
      var fine, seen := ScanEnv(env);
      if !fine { return false; }
      WantedEnvironmentIsValid();
      ok, env := AppendEnv(env, seen, INJECTED_ENVIRONMENT);
      if ok {
        fields := fields["process" := Object(process["env" := Array(env)])];
      }
    }

    /** Checks the mounts, then appends the trust mounts that are not there yet. */
    method InjectMounts(sources: seq<TrustSource>) returns (ok: bool)
      modifies this
      ensures ok <==> old(ArrayAt(fields, "mounts") && MountsAdmit(fields["mounts"].items, sources))
      ensures !ok ==> fields == old(fields)
      ensures ok ==> fields == old(WithMounts(fields, PatchedMounts(fields["mounts"].items, sources)))
    {
      if !ArrayAt(fields, "mounts") || |fields["mounts"].items| > MAX_MOUNTS { return false; }
      var mounts := fields["mounts"].items;
      var fine, taken := ScanMounts(mounts);
      if !fine { return false; }
      fine := CheckDevMounts(mounts, taken, QUALIFIED_DEV_MOUNTS);
      if !fine { return false; }
      ok, mounts := AppendMounts(mounts, taken, sources);
      if ok {
        fields := fields["mounts" := Array(mounts)];
      }
    }
  }

  // ---------------------------------------------------------------------
  // patchQualifiedOCIConfig on values
  // ---------------------------------------------------------------------

  function EnvOf(spec: map<string, Value>): seq<Value>
    requires ObjectAt(spec, "process") && ArrayAt(spec["process"].fields, "env")
  {
    spec["process"].fields["env"].items
  }

  function MountsOf(spec: map<string, Value>): seq<Value>
    requires ArrayAt(spec, "mounts")
  {
    spec["mounts"].items
  }

  predicate Patchable(spec: map<string, Value>) {
    ObjectAt(spec, "process") && ArrayAt(spec["process"].fields, "env") && ArrayAt(spec, "mounts")
  }

  function Patched(spec: map<string, Value>, sources: seq<TrustSource>): Result<map<string, Value>> {
    if Patchable(spec) && EnvAdmits(EnvOf(spec)) && MountsAdmit(MountsOf(spec), sources)
    then Ok(WithMounts(WithEnv(spec, PatchedEnv(EnvOf(spec))), PatchedMounts(MountsOf(spec), sources)))
    else Err
  }

  method PatchQualified(spec: map<string, Value>, sources: seq<TrustSource>) returns (r: Result<map<string, Value>>)
    ensures r == Patched(spec, sources)
  {
    if !ObjectAt(spec, "process") { return Err; }
    var document := new OciSpec(spec);
    var ok := document.InjectEnvironment();
    if !ok { return Err; }
    ok := document.InjectMounts(sources);
    if !ok { return Err; }
    return Ok(document.fields);
  }

  /** Everything but the environment and the mounts is the same in both. */
  predicate SameElsewhere(a: map<string, Value>, b: map<string, Value>)
    requires ObjectAt(a, "process") && ObjectAt(b, "process")
  {
    a.Keys == b.Keys
    && (forall k :: k in a && k != "process" && k != "mounts" ==> a[k] == b[k])
    && a["process"].fields.Keys == b["process"].fields.Keys
    && (forall k :: k in a["process"].fields && k != "env" ==> a["process"].fields[k] == b["process"].fields[k])
  }

  /** The environment after patching: the old one, then only required assignments; all of them present; names unique. */
  lemma PatchedEnvironmentIsConservative(env: seq<Value>)
    requires EnvAdmits(env)
    ensures var after := PatchedEnv(env);
      && env <= after && |after| <= MAX_ENV_ENTRIES
      && DistinctBy(EnvName, after)
      && (forall i :: 0 <= i < |INJECTED_ENVIRONMENT| ==> Str(INJECTED_ENVIRONMENT[i].Text()) in after)
      && (forall x :: x in after[|env|..] ==> x in WANTED_ENVIRONMENT && x !in env)
  {
    MissingMembers(env, WANTED_ENVIRONMENT);
    MissingKeepsDistinct(EnvName, env, WANTED_ENVIRONMENT);
    WantedEnvironmentIsValid();
    assert PatchedEnv(env)[|env|..] == Missing(env, WANTED_ENVIRONMENT);
    forall i | 0 <= i < |INJECTED_ENVIRONMENT| ensures Str(INJECTED_ENVIRONMENT[i].Text()) in PatchedEnv(env) {
      assert WANTED_ENVIRONMENT[i] in WANTED_ENVIRONMENT;
    }
  }

  lemma PatchedMountsAreConservative(mounts: seq<Value>, sources: seq<TrustSource>)
    requires MountsAdmit(mounts, sources)
    ensures var after := PatchedMounts(mounts, sources);
      && mounts <= after && |after| <= MAX_MOUNTS
      && DistinctBy(DestinationOf, after)
      && (forall i :: 0 <= i < |sources| ==> TrustMount(sources[i]) in after)
      && (forall x :: x in after[|mounts|..] ==> x in TrustMounts(sources) && x !in mounts)
  {
    var wanted := TrustMounts(sources);
    MissingMembers(mounts, wanted);
    MissingKeepsDistinct(DestinationOf, mounts, wanted);
    assert PatchedMounts(mounts, sources)[|mounts|..] == Missing(mounts, wanted);
    forall i | 0 <= i < |sources| ensures TrustMount(sources[i]) in PatchedMounts(mounts, sources) {
      assert wanted[i] in wanted;
    }
  }

  /** Conservative as a whole: nothing outside the two lists is touched, and the envelope stays qualified. */
  lemma PatchIsConservative(spec: map<string, Value>, sources: seq<TrustSource>, bundlePath: string)
    requires Patched(spec, sources).Ok? && ValidEnvelope(spec, bundlePath)
    ensures var out := Patched(spec, sources).value;
      && Patchable(out) && SameElsewhere(spec, out) && ValidEnvelope(out, bundlePath)
      && EnvOf(out) == PatchedEnv(EnvOf(spec)) && MountsOf(out) == PatchedMounts(MountsOf(spec), sources)
  {
    var out := Patched(spec, sources).value;
    assert out.Keys == spec.Keys;
    assert out["process"].fields.Keys == spec["process"].fields.Keys;
    assert SameElsewhere(spec, out);
    assert ValidProcess(out["process"].fields);
  }

  lemma PatchKeepsEnvelope(spec: map<string, Value>, sources: seq<TrustSource>, bundlePath: string)
    requires Patched(spec, sources).Ok? && ValidEnvelope(spec, bundlePath)
    ensures ValidEnvelope(Patched(spec, sources).value, bundlePath)
  {
    PatchIsConservative(spec, sources, bundlePath);
  }

  lemma PatchedEnvironmentIsFixed(env: seq<Value>)
    requires EnvAdmits(env)
    ensures EnvAdmits(PatchedEnv(env)) && PatchedEnv(PatchedEnv(env)) == PatchedEnv(env)
  {
    var after := PatchedEnv(env);
    PatchedEnvironmentIsConservative(env);
    MissingIsIdempotent(EnvName, env, WANTED_ENVIRONMENT);
    WantedEnvironmentIsValid();
    MissingMembers(env, WANTED_ENVIRONMENT);
    forall i | 0 <= i < |after| ensures ValidAssignment(after[i]) {
      if i >= |env| { assert after[i] in Missing(env, WANTED_ENVIRONMENT); }
    }
    assert after + [] == after;
  }

  lemma TrustMountIsValid(s: TrustSource)
    requires ValidSource(s)
    ensures ValidMount(TrustMount(s)) && DestinationOf(TrustMount(s)) == s.destination
  {
    var m := TrustMount(s);
    assert m.fields.Keys <= MOUNT_KEYS;
    BindOptionsAreValid();
  }

  lemma BindOptionsAreValid()
    ensures ValidOptions(StringValues(BIND_OPTIONS).items)
  {
    var o := StringValues(BIND_OPTIONS).items;
    forall x | x in o ensures x.Str? && x.s in BIND_OPTIONS { }
    assert forall s :: s in BIND_OPTIONS ==> 0 < |s| < 10 && !HasNul(s);
  }

  lemma PatchedMountsAreFixed(mounts: seq<Value>, sources: seq<TrustSource>)
    requires MountsAdmit(mounts, sources) && ValidSources(sources)
    ensures MountsAdmit(PatchedMounts(mounts, sources), sources)
    ensures PatchedMounts(PatchedMounts(mounts, sources), sources) == PatchedMounts(mounts, sources)
  {
    var after, wanted := PatchedMounts(mounts, sources), TrustMounts(sources);
    PatchedMountsAreConservative(mounts, sources);
    MissingIsIdempotent(DestinationOf, mounts, wanted);
    MissingMembers(mounts, wanted);
    forall i | 0 <= i < |after| ensures ValidMount(after[i]) {
      if i >= |mounts| {
        assert after[i] in Missing(mounts, wanted);
        var k :| 0 <= k < |wanted| && wanted[k] == after[i];
        TrustMountIsValid(sources[k]);
      }
    }
    assert after + [] == after;
  }

  lemma RewriteSame(spec: map<string, Value>)
    requires Patchable(spec)
    ensures WithEnv(spec, EnvOf(spec)) == spec && WithMounts(spec, MountsOf(spec)) == spec
  {
    var process := spec["process"].fields;
    assert process["env"] == Array(EnvOf(spec));
    assert process["env" := Array(EnvOf(spec))] == process;
    assert spec["mounts"] == Array(MountsOf(spec));
  }

  lemma PatchedReads(spec: map<string, Value>, env: seq<Value>, mounts: seq<Value>)
    requires Patchable(spec)
    ensures var out := WithMounts(WithEnv(spec, env), mounts);
      Patchable(out) && EnvOf(out) == env && MountsOf(out) == mounts
  {
  }

  /** The patched value is accepted again and patched to itself. */
  lemma PatchIsIdempotent(spec: map<string, Value>, sources: seq<TrustSource>)
    requires Patched(spec, sources).Ok? && ValidSources(sources)
    ensures Patched(Patched(spec, sources).value, sources) == Patched(spec, sources)
  {
    var out := Patched(spec, sources).value;
    PatchedEnvironmentIsFixed(EnvOf(spec));
    PatchedMountsAreFixed(MountsOf(spec), sources);
    PatchedReads(spec, PatchedEnv(EnvOf(spec)), PatchedMounts(MountsOf(spec), sources));
    RewriteSame(out);
  }

  lemma {:induction false} CleanJoin(segment: string, rest: string)
    requires segment != "" && segment != "." && segment != ".." && '/' !in segment
    requires rest == [] || (rest[0] == '/' && CleanSegments(rest))
    ensures CleanSegments("/" + segment + rest)
  {
    var s := "/" + segment + rest;
    assert s[1..] == segment + rest;
    if rest == [] {
      assert s[1..] == segment;
      assert IndexOf(segment, '/') == |segment|;
    } else {
      assert segment + [rest[0]] + rest[1..] == segment + rest;
      FirstIndex(segment, rest[1..], '/');
    }
    assert s[1..][..|segment|] == segment && s[1..][|segment|..] == rest;
  }

  const TRUST_ROOT := "/ironcurtain-build-trust/"
  const DEVICE_ROOT := "/" + "dev" + "/" + "ironcurtain" + "/"

  const PRODUCTION_SOURCES: seq<TrustSource> := [
    TrustSource(TRUST_ROOT + "ca-cert.pem", DEVICE_ROOT + "ca-cert.pem"),
    TrustSource(TRUST_ROOT + "ca-bundle.pem", DEVICE_ROOT + "ca-bundle.pem"),
    TrustSource(TRUST_ROOT + "apt.conf", DEVICE_ROOT + "apt.conf")
  ]

  predicate IsLeaf(leaf: string) {
    leaf != "" && leaf != "." && leaf != ".." && '/' !in leaf && !HasNul(leaf) && |leaf| < 100
  }

  lemma NestedPath(a: string, b: string, leaf: string)
    ensures "/" + a + "/" + b + "/" + leaf == "/" + a + ("/" + b + ("/" + leaf + ""))
  {
  }

  lemma DeviceLeafIsClean(leaf: string)
    requires IsLeaf(leaf)
    ensures CleanSegments(DEVICE_ROOT + leaf)
  {
    var (a, b) := ("dev", "ironcurtain");
    CleanJoin(leaf, "");
    CleanJoin(b, "/" + leaf + "");
    CleanJoin(a, "/" + b + ("/" + leaf + ""));
    NestedPath(a, b, leaf);
  }

  lemma RootsHaveNoNul()
    ensures !HasNul(TRUST_ROOT) && !HasNul(DEVICE_ROOT)
  {
  }

  lemma LeafSourceIsValid(leaf: string)
    requires IsLeaf(leaf)
    ensures ValidSource(TrustSource(TRUST_ROOT + leaf, DEVICE_ROOT + leaf))
  {
    DeviceLeafIsClean(leaf);
    RootsHaveNoNul();
  }

  lemma ProductionLeaves()
    ensures IsLeaf("ca-cert.pem") && IsLeaf("ca-bundle.pem") && IsLeaf("apt.conf")
  {
  }

  /** The three production sources meet the condition, so production patching is idempotent. */
  lemma ProductionSourcesAreValid()
    ensures ValidSources(PRODUCTION_SOURCES)
  {
    ProductionLeaves();
    LeafSourceIsValid("ca-cert.pem");
    LeafSourceIsValid("ca-bundle.pem");
    LeafSourceIsValid("apt.conf");
  }

  lemma UnsoundMountIsInvalid(s: TrustSource)
    requires !ValidSource(s)
    ensures !ValidMount(TrustMount(s))
  {
  }

  /** One source whose own mount is not valid, and patching the output again is an error. */
  lemma UnsoundSourceIsRefusedAgain(spec: map<string, Value>, sources: seq<TrustSource>, k: nat)
    requires Patched(spec, sources).Ok? && k < |sources| && !ValidSource(sources[k])
    ensures Patched(Patched(spec, sources).value, sources) == Err
  {
    var out := Patched(spec, sources).value;
    PatchedMountsAreConservative(MountsOf(spec), sources);
    PatchedReads(spec, PatchedEnv(EnvOf(spec)), PatchedMounts(MountsOf(spec), sources));
    UnsoundMountIsInvalid(sources[k]);
    assert TrustMount(sources[k]) in MountsOf(out);
  }

  /** Patching is idempotent exactly for sources whose own mounts are valid, whatever the config. */
  lemma IdempotentIffSourcesValid(spec: map<string, Value>, sources: seq<TrustSource>)
    requires Patched(spec, sources).Ok?
    ensures Patched(Patched(spec, sources).value, sources) == Patched(spec, sources) <==> ValidSources(sources)
    ensures Patched(Patched(spec, sources).value, sources) == Err <==> !ValidSources(sources)
  {
    if ValidSources(sources) {
      PatchIsIdempotent(spec, sources);
    } else {
      var k :| 0 <= k < |sources| && !ValidSource(sources[k]);
      UnsoundSourceIsRefusedAgain(spec, sources, k);
    }
  }
}
