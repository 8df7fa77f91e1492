/**
 * A config that validateSpecEnvelope in docker/build-trust-runtime/spec.go qualifies and that the
 * three production sources can be patched into.
 */
module QualifiedConfig {

  import opened ConfigText
  import opened GoJson
  import opened KeyedInjection
  import opened OciPatch
  import opened StrictJson
  import opened Wrappers

  // ---------------------------------------------------------------------
  // Values that are well formed and bounded for simple reasons
  // ---------------------------------------------------------------------

  predicate ModestText(s: string) { |s| <= 4096 && IsAscii(s) }

  /** ASCII texts, short lists, and no more than `levels` levels. */
  predicate Modest(v: Value, levels: nat)
    decreases v
  {
    match v
    case Number(text) => IsNumber(text)
    case Str(s) => ModestText(s)
    case Array(items) => levels > 0 && |items| <= 100 && forall i :: 0 <= i < |items| ==> Modest(items[i], levels - 1)
    case Object(fields) =>
      levels > 0 && |fields| <= 100 && forall k :: k in fields ==> ModestText(k) && Modest(fields[k], levels - 1)
    case _ => true
  }

  lemma {:induction false} ModestIsWellFormed(v: Value, levels: nat)
    requires Modest(v, levels)
    ensures WellFormed(v)
    decreases v
  {
    match v
    case Str(s) => AsciiIsUtf8(s);
    case Array(items) =>
      forall i | 0 <= i < |items| ensures WellFormed(items[i]) { ModestIsWellFormed(items[i], levels - 1); }
    case Object(fields) =>
      forall k | k in fields ensures IsUtf8(k) && WellFormed(fields[k]) {
        AsciiIsUtf8(k);
        ModestIsWellFormed(fields[k], levels - 1);
      }
    case _ =>
  }

  lemma {:induction false} ModestIsBounded(v: Value, levels: nat, depth: nat)
    requires Modest(v, levels) && levels + depth <= MAX_JSON_DEPTH
    ensures Bounded(v, depth)
    decreases v
  {
    match v
    case Array(items) =>
      forall i | 0 <= i < |items| ensures Bounded(items[i], depth + 1) {
        ModestIsBounded(items[i], levels - 1, depth + 1);
      }
    case Object(fields) =>
      forall k | k in fields ensures |k| <= MAX_STRING_BYTES && Bounded(fields[k], depth + 1) {
        ModestIsBounded(fields[k], levels - 1, depth + 1);
      }
    case _ =>
  }

  lemma ModestStrings(xs: seq<string>, levels: nat)
    requires |xs| <= 100 && levels > 0 && forall x :: x in xs ==> ModestText(x)
    ensures Modest(StringValues(xs), levels)
  {
  }

  // ---------------------------------------------------------------------
  // The parts
  // ---------------------------------------------------------------------

  lemma CapabilityIsModest(x: string)
    requires x in QUALIFIED_CAPABILITIES
    ensures ModestText(x)
  {
  }

  lemma MaskedPathIsModest(x: string)
    requires x in QUALIFIED_MASKED_PATHS
    ensures ModestText(x)
  {
  }

  lemma ReadonlyPathIsModest(x: string)
    requires x in QUALIFIED_READONLY_PATHS
    ensures ModestText(x)
  {
  }

  lemma NamespaceIsModest(x: string)
    requires x in HOST_NETWORK_NAMESPACES
    ensures ModestText(x)
  {
  }

  // ---------------------------------------------------------------------
  // Keys told apart by a number
  // ---------------------------------------------------------------------

  /** The length and the sixth character. */
  function Tag(s: string): nat {
    |s| * 1000 + if |s| > 5 then s[5] as nat else 0
  }

  lemma TaggedKeysDiffer<T(!new)>(key: T -> string, xs: seq<T>, tags: seq<nat>)
    requires |tags| == |xs| && Distinct(tags) && forall i :: 0 <= i < |xs| ==> Tag(key(xs[i])) == tags[i]
    ensures DistinctBy(key, xs) && KeyDetermines(key, xs)
  {
    forall i, j | 0 <= i < |xs| && 0 <= j < |xs| && key(xs[i]) == key(xs[j]) ensures i == j {
      assert tags[i] == tags[j];
    }
  }

  const ENVIRONMENT_TAGS: seq<nat> := [
    19000 + 'E' as nat, 13000 + 'E' as nat, 14000 + 'C' as nat, 14000 + 'S' as nat, 17000 + 'o' as nat,
    8000 + 'E' as nat, 18000 + 'S' as nat, 17000 + '_' as nat, 10000 + 'O' as nat, 16000 + 'o' as nat,
    29000 + 'I' as nat, 13000 + 'T' as nat
  ]

  lemma EnvironmentTagIs(i: nat)
    requires i < |INJECTED_ENVIRONMENT|
    ensures |ENVIRONMENT_TAGS| == |INJECTED_ENVIRONMENT| && Tag(INJECTED_ENVIRONMENT[i].name) == ENVIRONMENT_TAGS[i]
  {
  }

  lemma NamedByTags(wanted: seq<Value>, injected: seq<Assignment>, tags: seq<nat>)
    requires |wanted| == |injected| == |tags| && Distinct(tags)
    requires forall i :: 0 <= i < |wanted| ==> EnvName(wanted[i]) == injected[i].name
    requires forall i :: 0 <= i < |wanted| ==> Tag(injected[i].name) == tags[i]
    ensures KeyDetermines(EnvName, wanted)
  {
    TaggedKeysDiffer(EnvName, wanted, tags);
  }

  lemma EnvironmentTagsDiffer()
    ensures Distinct(ENVIRONMENT_TAGS)
  {
  }

  lemma EnvironmentKeysDiffer()
    ensures |WANTED_ENVIRONMENT| == 12 && KeyDetermines(EnvName, WANTED_ENVIRONMENT)
  {
    WantedEnvironmentIsValid();
    EnvironmentTagsDiffer();
    forall i | 0 <= i < |INJECTED_ENVIRONMENT| ensures Tag(INJECTED_ENVIRONMENT[i].name) == ENVIRONMENT_TAGS[i] {
      EnvironmentTagIs(i);
    }
    NamedByTags(WANTED_ENVIRONMENT, INJECTED_ENVIRONMENT, ENVIRONMENT_TAGS);
  }

  lemma EmptyEnvironmentAdmits(env: seq<Value>)
    requires env == []
    ensures EnvAdmits(env)
  {
    EnvironmentKeysDiffer();
    NothingAdmits(EnvName, env, WANTED_ENVIRONMENT);
  }

  lemma NothingAdmits<T(!new)>(key: T -> string, none: seq<T>, wanted: seq<T>)
    requires none == [] && KeyDetermines(key, wanted)
    ensures KeyDetermines(key, none + wanted) && DistinctBy(key, none) && |Missing(none, wanted)| <= |wanted|
  {
    assert none + wanted == wanted;
    MissingIsNoLonger(none, wanted);
  }

  lemma {:induction false} MissingIsNoLonger<T(!new)>(present: seq<T>, wanted: seq<T>)
    ensures |Missing(present, wanted)| <= |wanted|
    decreases |wanted|
  {
    if wanted != [] {
      MissingIsNoLonger(if wanted[0] in present then present else present + [wanted[0]], wanted[1..]);
    }
  }

  // ---------------------------------------------------------------------
  // The mounts
  // ---------------------------------------------------------------------

  /** A path of one segment. */
  lemma SegmentIsClean(root: string)
    requires IsLeaf(root)
    ensures ValidDestination("/" + root)
  {
    CleanJoin(root, "");
    assert "/" + root + "" == "/" + root;
  }

  /** A path of one segment below another. */
  lemma SubsegmentIsClean(root: string, leaf: string)
    requires IsLeaf(root) && IsLeaf(leaf)
    ensures ValidDestination("/" + root + "/" + leaf)
  {
    SegmentIsClean(leaf);
    var below := "/" + leaf;
    CleanJoin(root, below);
    assert "/" + root + below == "/" + root + "/" + leaf;
  }

  predicate ModestOption(s: string) { ModestText(s) && s != "" && !HasNul(s) }

  lemma ModestMount(destination: string, mountType: string, source: string, options: seq<string>, levels: nat)
    requires ValidDestination(destination) && IsAscii(destination)
    requires ModestText(mountType) && 0 < |mountType| <= 128
    requires ModestText(source) && !HasNul(source)
    requires |options| <= 100 && forall o :: o in options ==> ModestOption(o)
    requires levels >= 2
    ensures var m := MountValue(destination, mountType, source, options);
      ValidMount(m) && Modest(m, levels) && DestinationOf(m) == destination
  {
    var m := MountValue(destination, mountType, source, options);
    assert m.fields.Keys == {"destination", "type", "source", "options"};
    assert m.fields.Keys <= MOUNT_KEYS;
    ModestStrings(options, levels - 1);
    forall k | k in m.fields ensures ModestText(k) { MountKeyIsAscii(k); }
    var list := StringValues(options).items;
    forall o | o in list ensures o.Str? && o.s in options { }
    assert ValidOptions(list);
  }

  datatype Bind = Bind(leaf: string, mountType: string, source: string, options: seq<string>)

  const DEV_BINDS: seq<Bind> := [
    Bind("", "tmpfs", "tmpfs", ["nosuid", "strictatime", "mode=755", "size=65536k"]),
    Bind("pts", "devpts", "devpts", ["nosuid", "noexec", "newinstance", "ptmxmode=0666", "mode=0620", "gid=5"]),
    Bind("shm", "tmpfs", "shm", ["nosuid", "noexec", "nodev", "mode=1777", "size=65536k"]),
    Bind("mqueue", "mqueue", "mqueue", ["nosuid", "noexec", "nodev"])
  ]

  function DevPath(leaf: string): string {
    if leaf == "" then "/" + "dev" else "/" + "dev" + "/" + leaf
  }

  lemma DevMountIs(i: nat)
    requires i < |QUALIFIED_DEV_MOUNTS|
    ensures |DEV_BINDS| == |QUALIFIED_DEV_MOUNTS|
    ensures var b := DEV_BINDS[i];
      QUALIFIED_DEV_MOUNTS[i] == MountValue(DevPath(b.leaf), b.mountType, b.source, b.options)
  {
    assert "/" + "dev" == "/dev" && "/" + "dev" + "/" + "pts" == "/dev/pts";
    assert "/" + "dev" + "/" + "shm" == "/dev/shm" && "/" + "dev" + "/" + "mqueue" == "/dev/mqueue";
  }

  predicate ModestTexts(b: Bind) {
    && (b.leaf == "" || IsLeaf(b.leaf)) && IsAscii(b.leaf) && |b.options| <= 100
    && ModestText(b.mountType) && 0 < |b.mountType| <= 128 && ModestText(b.source) && !HasNul(b.source)
  }

  predicate ModestBind(b: Bind) {
    ModestTexts(b) && forall o :: o in b.options ==> ModestOption(o)
  }

  lemma DevTextsAreModest(i: nat)
    requires i < |DEV_BINDS|
    ensures ModestTexts(DEV_BINDS[i])
  {
  }

  lemma DevOptionsAreModest(i: nat, o: string)
    requires i < |DEV_BINDS| && o in DEV_BINDS[i].options
    ensures ModestOption(o)
  {
    if i == 1 {
      PtsOptionIsModest(o);
    } else if i == 2 {
      ShmOptionIsModest(o);
    } else {
      DevOptionIsModest(o);
    }
  }

  lemma DevOptionIsModest(o: string)
    requires o in DEV_BINDS[0].options || o in DEV_BINDS[3].options
    ensures ModestOption(o)
  {
  }

  lemma PtsOptionIsModest(o: string)
    requires o in DEV_BINDS[1].options
    ensures ModestOption(o)
  {
  }

  lemma ShmOptionIsModest(o: string)
    requires o in DEV_BINDS[2].options
    ensures ModestOption(o)
  {
  }

  lemma DevBindIsModest(i: nat)
    requires i < |DEV_BINDS|
    ensures ModestBind(DEV_BINDS[i])
  {
    DevTextsAreModest(i);
    forall o | o in DEV_BINDS[i].options ensures ModestOption(o) { DevOptionsAreModest(i, o); }
  }

  lemma ModestBindIsValid(b: Bind, levels: nat)
    requires ModestBind(b) && levels >= 2
    ensures var m := MountValue(DevPath(b.leaf), b.mountType, b.source, b.options);
      ValidMount(m) && Modest(m, levels) && DestinationOf(m) == DevPath(b.leaf)
  {
    var dev := "dev";
    if b.leaf == "" { SegmentIsClean(dev); } else { SubsegmentIsClean(dev, b.leaf); }
    ModestMount(DevPath(b.leaf), b.mountType, b.source, b.options, levels);
  }

  lemma DevMountIsValid(i: nat, levels: nat)
    requires i < |QUALIFIED_DEV_MOUNTS| && levels >= 2
    ensures ValidMount(QUALIFIED_DEV_MOUNTS[i]) && Modest(QUALIFIED_DEV_MOUNTS[i], levels)
    ensures |DEV_BINDS| == |QUALIFIED_DEV_MOUNTS|
    ensures DestinationOf(QUALIFIED_DEV_MOUNTS[i]) == DevPath(DEV_BINDS[i].leaf)
  {
    DevMountIs(i);
    DevBindIsModest(i);
    ModestBindIsValid(DEV_BINDS[i], levels);
  }

  const MOUNT_TAGS: seq<nat> := [4000, 8000 + 'p' as nat, 8000 + 's' as nat, 11000 + 'm' as nat, 28000 + 'i' as nat,
                                 30000 + 'i' as nat, 25000 + 'i' as nat]

  lemma DevTagIs(i: nat)
    requires i < |DEV_BINDS|
    ensures |DEV_BINDS| == 4 && Tag(DevPath(DEV_BINDS[i].leaf)) == MOUNT_TAGS[i]
  {
  }

  lemma SourceTagIs(i: nat)
    requires i < |PRODUCTION_SOURCES|
    ensures |PRODUCTION_SOURCES| == 3 && Tag(PRODUCTION_SOURCES[i].destination) == MOUNT_TAGS[4 + i]
  {
    assert DEVICE_ROOT[5] == 'i' && |DEVICE_ROOT| == 17;
  }

  lemma MountTagsDiffer()
    ensures |MOUNT_TAGS| == 7 && Distinct(MOUNT_TAGS)
  {
  }

  lemma MountTagsFit(mounts: seq<Value>, trust: seq<Value>, tags: seq<nat>)
    requires |mounts| == 4 && |trust| == 3 && |tags| == 7 && Distinct(tags)
    requires forall i :: 0 <= i < 4 ==> Tag(DestinationOf(mounts[i])) == tags[i]
    requires forall i :: 0 <= i < 3 ==> Tag(DestinationOf(trust[i])) == tags[4 + i]
    ensures DistinctBy(DestinationOf, mounts) && KeyDetermines(DestinationOf, mounts + trust)
  {
    var all := mounts + trust;
    forall i | 0 <= i < |all| ensures Tag(DestinationOf(all[i])) == tags[i] {
      if i >= 4 { assert all[i] == trust[i - 4]; }
    }
    TaggedKeysDiffer(DestinationOf, all, tags);
    forall i, j | 0 <= i < j < |mounts| ensures DestinationOf(mounts[i]) != DestinationOf(mounts[j]) {
      assert all[i] == mounts[i] && all[j] == mounts[j];
    }
  }

  lemma DevMountKeysDiffer()
    ensures DistinctBy(DestinationOf, QUALIFIED_DEV_MOUNTS)
    ensures KeyDetermines(DestinationOf, QUALIFIED_DEV_MOUNTS + TrustMounts(PRODUCTION_SOURCES))
  {
    MountTagsDiffer();
    var trust := TrustMounts(PRODUCTION_SOURCES);
    forall i | 0 <= i < 4 ensures Tag(DestinationOf(QUALIFIED_DEV_MOUNTS[i])) == MOUNT_TAGS[i] {
      DevMountIsValid(i, 2);
      DevTagIs(i);
    }
    forall i | 0 <= i < 3 ensures Tag(DestinationOf(trust[i])) == MOUNT_TAGS[4 + i] {
      SourceTagIs(i);
      assert DestinationOf(TrustMount(PRODUCTION_SOURCES[i])) == PRODUCTION_SOURCES[i].destination;
    }
    MountTagsFit(QUALIFIED_DEV_MOUNTS, trust, MOUNT_TAGS);
  }

  lemma DevMountsAdmit(mounts: seq<Value>, sources: seq<TrustSource>)
    requires mounts == QUALIFIED_DEV_MOUNTS && sources == PRODUCTION_SOURCES
    ensures MountsAdmit(mounts, sources)
  {
    forall i | 0 <= i < |mounts| ensures ValidMount(mounts[i]) { DevMountIsValid(i, 2); }
    DevMountKeysDiffer();
    MissingIsNoLonger(mounts, TrustMounts(sources));
  }

  // ---------------------------------------------------------------------
  // The whole config
  // ---------------------------------------------------------------------

  function BuildId(): string { seq(25, _ => 'a') }

  function BundlePath(): string { "/" + BuildId() }

  lemma BaseOfOneSegment(id: string)
    requires '/' !in id
    ensures Base("/" + id) == id
  {
    var path := "/" + id;
    assert path[0] == '/' && path[1..] == id;
    assert Base(path) == Base(id);
  }

  lemma OneSegmentIsABundle(id: string, path: string)
    requires IsLeaf(id) && IsBuildkitId(id) && IsAscii(id) && path == "/" + id
    ensures IsCleanAbsolute(path) && IsBuildkitId(Base(path)) && ModestText(path + "/rootfs")
  {
    BaseOfOneSegment(id);
    CleanJoin(id, "");
    assert "/" + id + "" == path;
  }

  lemma BundlePathIsValid()
    ensures IsCleanAbsolute(BundlePath()) && IsBuildkitId(Base(BundlePath())) && ModestText(BundlePath() + "/rootfs")
  {
    assert BuildId()[0] == 'a';
    OneSegmentIsABundle(BuildId(), BundlePath());
  }

  /** An object of few members, all modest. */
  lemma MembersAreModest(fields: map<string, Value>, keys: set<string>, levels: nat)
    requires levels > 0 && fields.Keys == keys && |keys| <= 100
    requires forall k :: k in keys ==> ModestText(k) && Modest(fields[k], levels - 1)
    ensures Modest(Object(fields), levels)
  {
    assert |fields| == |fields.Keys|;
  }

  /** One more member. */
  lemma PutIsModest(fields: map<string, Value>, key: string, v: Value, levels: nat)
    returns (more: map<string, Value>)
    requires Modest(Object(fields), levels + 1) && |fields| < 100 && ModestText(key) && Modest(v, levels)
    ensures more == fields[key := v] && Modest(Object(more), levels + 1) && |more| <= |fields| + 1
  {
    more := fields[key := v];
    assert more.Keys == fields.Keys + {key};
    assert |more| == |more.Keys|;
    if key in fields { assert fields.Keys + {key} == fields.Keys; }
  }

  lemma PutThree(fields: map<string, Value>, a: string, x: Value, b: string, y: Value, c: string, z: Value, levels: nat)
    returns (more: map<string, Value>)
    requires Modest(Object(fields), levels + 1) && |fields| < 98 && ModestText(a) && ModestText(b) && ModestText(c)
    requires Modest(x, levels) && Modest(y, levels) && Modest(z, levels)
    ensures more == fields[a := x][b := y][c := z] && Modest(Object(more), levels + 1) && |more| <= |fields| + 3
  {
    more := PutIsModest(fields, a, x, levels);
    more := PutIsModest(more, b, y, levels);
    more := PutIsModest(more, c, z, levels);
  }

  lemma OneIsModest(key: string, v: Value, levels: nat)
    requires ModestText(key) && levels > 0 && Modest(v, levels - 1)
    ensures Modest(Object(map[key := v]), levels)
  {
    assert |map[key := v]| == 1;
  }

  lemma StringValuesAreExact(xs: seq<string>)
    ensures ExactStringArray(StringValues(xs), xs)
  {
  }

  lemma ConfigKeyIsModest(key: string)
    requires key in {"hostname", "linux", "mounts", "ociVersion", "process", "root", "path", "type"}
    ensures ModestText(key)
  {
  }

  lemma ProcessKeyIsModest(key: string)
    requires key in {"args", "capabilities", "cwd", "env", "user", "additionalGids", "gid", "uid"}
    ensures ModestText(key)
  {
  }

  lemma CapabilityKeyIsModest(key: string)
    requires key in {"bounding", "effective", "permitted"}
    ensures ModestText(key)
  {
  }

  lemma LinuxKeyIsModest(key: string)
    requires key in {"maskedPaths", "namespaces", "readonlyPaths", "seccomp"}
    ensures ModestText(key)
  {
  }

  lemma ExactListIsModest(xs: seq<string>, levels: nat) returns (v: Value)
    requires |xs| <= 100 && levels > 0 && forall x :: x in xs ==> ModestText(x)
    ensures ExactStringArray(v, xs) && Modest(v, levels)
  {
    v := StringValues(xs);
    ModestStrings(xs, levels);
  }

  lemma CapabilityListIsModest(levels: nat)
    requires levels > 0
    ensures Modest(StringValues(QUALIFIED_CAPABILITIES), levels)
  {
    forall x | x in QUALIFIED_CAPABILITIES ensures ModestText(x) { CapabilityIsModest(x); }
    ModestStrings(QUALIFIED_CAPABILITIES, levels);
  }

  lemma NoughtIsAnId()
    ensures IsIntegerUpTo(Number("0"), MAX_ID) && IsNumber("0")
  {
    assert "0"[..0] == "" && "0"[1..] == "";
    assert DigitsValue("0") == DigitsValue("") * 10 + 0;
  }

  function Capabilities(all: Value): map<string, Value> {
    map["bounding" := all, "effective" := all, "permitted" := all]
  }

  function User(nought: Value): map<string, Value> {
    map["additionalGids" := Array([]), "gid" := nought, "uid" := nought]
  }

  function Process(args: Value, all: Value, nought: Value): map<string, Value> {
    map["args" := args, "capabilities" := Object(Capabilities(all)), "cwd" := Str("/"), "env" := Array([]),
        "user" := Object(User(nought))]
  }

  lemma ProcessIsValid(args: Value, all: Value, nought: Value)
    requires args.Array? && ValidArgs(args.items) && ExactStringArray(all, QUALIFIED_CAPABILITIES)
    requires IsIntegerUpTo(nought, MAX_ID)
    ensures ValidProcess(Process(args, all, nought))
  {
    var process := Process(args, all, nought);
    assert process.Keys == {"args", "capabilities", "cwd", "env", "user"};
    assert Capabilities(all).Keys == {"bounding", "effective", "permitted"};
    assert User(nought).Keys == {"additionalGids", "gid", "uid"};
  }

  lemma CapabilitiesAreModest(all: Value, levels: nat) returns (v: Value)
    requires Modest(all, levels)
    ensures v == Object(Capabilities(all)) && Modest(v, levels + 1)
  {
    forall k | k in {"bounding", "effective", "permitted"} ensures ModestText(k) { CapabilityKeyIsModest(k); }
    var fields := PutThree(map[], "bounding", all, "effective", all, "permitted", all, levels);
    v := Object(fields);
  }

  lemma UserIsModest(nought: Value, levels: nat) returns (v: Value)
    requires nought.Number? && IsNumber(nought.text) && levels > 0
    ensures v == Object(User(nought)) && Modest(v, levels + 1)
  {
    forall k | k in {"additionalGids", "gid", "uid"} ensures ModestText(k) { ProcessKeyIsModest(k); }
    var none := Array([]);
    var fields := PutThree(map[], "additionalGids", none, "gid", nought, "uid", nought, levels);
    v := Object(fields);
  }

  lemma PutProcess(fields: map<string, Value>, key: string, v: Value, levels: nat) returns (more: map<string, Value>)
    requires key in {"args", "capabilities", "cwd", "env", "user"}
    requires Modest(Object(fields), levels + 1) && |fields| < 100 && Modest(v, levels)
    ensures more == fields[key := v] && Modest(Object(more), levels + 1) && |more| <= |fields| + 1
  {
    ProcessKeyIsModest(key);
    more := PutIsModest(fields, key, v, levels);
  }

  lemma ProcessWithCapabilities(args: Value, all: Value, levels: nat) returns (head: map<string, Value>)
    requires levels > 0 && Modest(args, levels) && Modest(all, levels - 1)
    ensures head == map["args" := args, "capabilities" := Object(Capabilities(all))]
    ensures Modest(Object(head), levels + 1) && |head| <= 2
  {
    head := PutProcess(map[], "args", args, levels);
    var capabilities := CapabilitiesAreModest(all, levels - 1);
    head := PutProcess(head, "capabilities", capabilities, levels);
  }

  lemma ProcessWithEnv(head: map<string, Value>, levels: nat) returns (more: map<string, Value>)
    requires levels > 0 && Modest(Object(head), levels + 1) && |head| <= 2
    ensures more == head["cwd" := Str("/")]["env" := Array([])]
    ensures Modest(Object(more), levels + 1) && |more| <= 4
  {
    var cwd, env := SmallParts(levels);
    more := PutProcess(head, "cwd", cwd, levels);
    more := PutProcess(more, "env", env, levels);
  }

  lemma SmallParts(levels: nat) returns (cwd: Value, env: Value)
    requires levels > 0
    ensures cwd == Str("/") && env == Array([]) && Modest(cwd, levels) && Modest(env, levels)
  {
    cwd, env := Str("/"), Array([]);
  }

  lemma ProcessWithUser(head: map<string, Value>, nought: Value, levels: nat) returns (more: map<string, Value>)
    requires levels >= 2 && nought.Number? && IsNumber(nought.text)
    requires Modest(Object(head), levels + 1) && |head| <= 4
    ensures more == head["user" := Object(User(nought))] && Modest(Object(more), levels + 1)
  {
    var user := UserIsModest(nought, levels - 1);
    more := PutProcess(head, "user", user, levels);
  }

  lemma ProcessIsModest(args: Value, all: Value, nought: Value, levels: nat) returns (process: map<string, Value>)
    requires levels >= 2 && Modest(args, levels) && Modest(all, levels - 1) && nought.Number? && IsNumber(nought.text)
    ensures process == Process(args, all, nought) && Modest(Object(process), levels + 1)
  {
    process := ProcessWithCapabilities(args, all, levels);
    process := ProcessWithEnv(process, levels);
    process := ProcessWithUser(process, nought, levels);
  }

  lemma ArgsAreValid()
    ensures StringValues(["x"]).Array? && ValidArgs(StringValues(["x"]).items)
  {
    assert StringValues(["x"]).items == [Str("x")];
  }

  lemma ArgsAreModest(levels: nat)
    requires levels > 0
    ensures Modest(StringValues(["x"]), levels)
  {
    ModestStrings(["x"], levels);
  }

  function TheProcess(): map<string, Value> {
    Process(StringValues(["x"]), StringValues(QUALIFIED_CAPABILITIES), Number("0"))
  }

  lemma TheProcessIsValid()
    ensures ValidProcess(TheProcess()) && TheProcess()["env"] == Array([])
  {
    ArgsAreValid();
    StringValuesAreExact(QUALIFIED_CAPABILITIES);
    NoughtIsAnId();
    ProcessIsValid(StringValues(["x"]), StringValues(QUALIFIED_CAPABILITIES), Number("0"));
  }

  lemma TheProcessIsModest(levels: nat)
    requires levels >= 2
    ensures Modest(Object(TheProcess()), levels + 1)
  {
    ArgsAreModest(levels);
    CapabilityListIsModest(levels - 1);
    NoughtIsAnId();
    var process := ProcessIsModest(StringValues(["x"]), StringValues(QUALIFIED_CAPABILITIES), Number("0"), levels);
  }

  lemma ProcessPart(levels: nat) returns (process: map<string, Value>)
    requires levels >= 2
    ensures ValidProcess(process) && ArrayAt(process, "env") && process["env"].items == []
    ensures Modest(Object(process), levels + 1)
  {
    process := TheProcess();
    TheProcessIsValid();
    TheProcessIsModest(levels);
  }

  lemma MaskedPathsPart(levels: nat) returns (v: Value)
    requires levels > 0
    ensures ExactStringArray(v, QUALIFIED_MASKED_PATHS) && Modest(v, levels)
  {
    forall x | x in QUALIFIED_MASKED_PATHS ensures ModestText(x) { MaskedPathIsModest(x); }
    v := ExactListIsModest(QUALIFIED_MASKED_PATHS, levels);
  }

  lemma ReadonlyPathsPart(levels: nat) returns (v: Value)
    requires levels > 0
    ensures ExactStringArray(v, QUALIFIED_READONLY_PATHS) && Modest(v, levels)
  {
    forall x | x in QUALIFIED_READONLY_PATHS ensures ModestText(x) { ReadonlyPathIsModest(x); }
    v := ExactListIsModest(QUALIFIED_READONLY_PATHS, levels);
  }

  lemma NamespacesOf(kinds: seq<string>, levels: nat) returns (v: Value)
    requires |kinds| <= 100 && levels >= 2 && forall x :: x in kinds ==> ModestText(x)
    ensures v.Array? && MatchesNamespaces(v.items, kinds) && Modest(v, levels)
  {
    v := Array(seq(|kinds|, i requires 0 <= i < |kinds| => Object(map["type" := Str(kinds[i])])));
    var key := "type";
    ConfigKeyIsModest(key);
    forall i | 0 <= i < |kinds| ensures Modest(v.items[i], levels - 1) {
      assert kinds[i] in kinds;
      OneIsModest(key, Str(kinds[i]), levels - 1);
    }
  }

  lemma NamespacesPart(levels: nat) returns (v: Value)
    requires levels >= 2
    ensures v.Array? && MatchesNamespaces(v.items, HOST_NETWORK_NAMESPACES) && Modest(v, levels)
  {
    forall x | x in HOST_NETWORK_NAMESPACES ensures ModestText(x) { NamespaceIsModest(x); }
    v := NamespacesOf(HOST_NETWORK_NAMESPACES, levels);
  }

  lemma LinuxOf(masked: Value, namespaces: Value, readonly: Value, levels: nat) returns (linux: map<string, Value>)
    requires levels > 0 && Modest(masked, levels) && Modest(namespaces, levels) && Modest(readonly, levels)
    ensures linux == map["maskedPaths" := masked, "namespaces" := namespaces, "readonlyPaths" := readonly,
                         "seccomp" := Object(map[])]
    ensures Modest(Object(linux), levels + 1)
  {
    linux := map["maskedPaths" := masked, "namespaces" := namespaces, "readonlyPaths" := readonly,
                 "seccomp" := Object(map[])];
    forall k | k in linux ensures ModestText(k) { LinuxKeyIsModest(k); }
    MembersAreModest(linux, {"maskedPaths", "namespaces", "readonlyPaths", "seccomp"}, levels + 1);
  }

  lemma LinuxPart(levels: nat) returns (linux: map<string, Value>)
    requires levels >= 2
    ensures ValidLinux(linux) && Modest(Object(linux), levels + 1)
  {
    var masked := MaskedPathsPart(levels);
    var readonly := ReadonlyPathsPart(levels);
    var namespaces := NamespacesPart(levels);
    linux := LinuxOf(masked, namespaces, readonly, levels);
    assert linux.Keys == {"maskedPaths", "namespaces", "readonlyPaths", "seccomp"};
  }

  lemma MountsPart(levels: nat) returns (mounts: seq<Value>)
    requires levels >= 3
    ensures MountsAdmit(mounts, PRODUCTION_SOURCES) && Modest(Array(mounts), levels)
  {
    mounts := QUALIFIED_DEV_MOUNTS;
    forall i | 0 <= i < |mounts| ensures Modest(mounts[i], levels - 1) { DevMountIsValid(i, levels - 1); }
    DevMountsAdmit(mounts, PRODUCTION_SOURCES);
  }

  lemma NamesPart(levels: nat) returns (hostname: Value, version: Value)
    ensures hostname.Str? && 0 < |hostname.s| <= 255 && !HasNul(hostname.s) && version == Str(QUALIFIED_OCI_VERSION)
    ensures Modest(hostname, levels) && Modest(version, levels)
  {
    hostname, version := Str("h"), Str(QUALIFIED_OCI_VERSION);
  }

  lemma ConfigHead(hostname: Value, linux: Value, mounts: Value, levels: nat) returns (head: map<string, Value>)
    requires Modest(hostname, levels) && Modest(linux, levels) && Modest(mounts, levels)
    ensures head == map["hostname" := hostname, "linux" := linux, "mounts" := mounts]
    ensures Modest(Object(head), levels + 1) && |head| <= 3
  {
    forall k | k in {"hostname", "linux", "mounts"} ensures ModestText(k) { ConfigKeyIsModest(k); }
    head := PutThree(map[], "hostname", hostname, "linux", linux, "mounts", mounts, levels);
  }

  lemma ConfigOf(head: map<string, Value>, version: Value, process: Value, root: Value, levels: nat)
    returns (spec: map<string, Value>)
    requires Modest(Object(head), levels + 1) && |head| <= 3
    requires Modest(version, levels) && Modest(process, levels) && Modest(root, levels)
    ensures spec == head["ociVersion" := version]["process" := process]["root" := root]
    ensures Modest(Object(spec), levels + 1)
  {
    forall k | k in {"ociVersion", "process", "root"} ensures ModestText(k) { ConfigKeyIsModest(k); }
    spec := PutThree(head, "ociVersion", version, "process", process, "root", root, levels);
  }

  lemma RootPart(path: string, levels: nat) returns (root: Value)
    requires ModestText(path) && levels > 0
    ensures root == Object(map["path" := Str(path)]) && Modest(root, levels)
  {
    var key := "path";
    ConfigKeyIsModest(key);
    OneIsModest(key, Str(path), levels);
    root := Object(map[key := Str(path)]);
  }

  lemma QualifiedAndPatchable(
    spec: map<string, Value>, hostname: Value, linux: map<string, Value>, mounts: seq<Value>,
    process: map<string, Value>, bundlePath: string)
    requires spec == map[
      "hostname" := hostname, "linux" := Object(linux), "mounts" := Array(mounts),
      "ociVersion" := Str(QUALIFIED_OCI_VERSION), "process" := Object(process),
      "root" := Object(map["path" := Str(bundlePath + "/rootfs")])]
    requires hostname.Str? && 0 < |hostname.s| <= 255 && !HasNul(hostname.s)
    requires IsCleanAbsolute(bundlePath) && IsBuildkitId(Base(bundlePath))
    requires ValidLinux(linux) && ValidProcess(process) && ArrayAt(process, "env") && process["env"].items == []
    requires MountsAdmit(mounts, PRODUCTION_SOURCES)
    ensures ValidEnvelope(spec, bundlePath) && Patched(spec, PRODUCTION_SOURCES).Ok?
  {
    assert spec.Keys == {"hostname", "linux", "mounts", "ociVersion", "process", "root"};
    EmptyEnvironmentAdmits(process["env"].items);
  }

  lemma SomeModestConfig(levels: nat) returns (spec: map<string, Value>, bundlePath: string)
    requires levels >= 4
    ensures ValidEnvelope(spec, bundlePath) && Patched(spec, PRODUCTION_SOURCES).Ok?
    ensures Modest(Object(spec), levels + 1)
  {
    bundlePath := BundlePath();
    BundlePathIsValid();
    var hostname, version := NamesPart(levels);
    var linux := LinuxPart(levels - 1);
    var mounts := MountsPart(levels);
    var process := ProcessPart(levels - 1);
    var root := RootPart(bundlePath + "/rootfs", levels);
    var head := ConfigHead(hostname, Object(linux), Array(mounts), levels);
    spec := ConfigOf(head, version, Object(process), root, levels);
    QualifiedAndPatchable(spec, hostname, linux, mounts, process, bundlePath);
  }

  /** There is a config that is qualified, well formed and bounded, and that production patching accepts. */
  lemma SomeConfigIsAccepted() returns (spec: map<string, Value>, bundlePath: string)
    ensures ValidEnvelope(spec, bundlePath) && Patched(spec, PRODUCTION_SOURCES).Ok?
    ensures WellFormed(Object(spec)) && Bounded(Object(spec), 0)
  {
    var levels := 4;
    spec, bundlePath := SomeModestConfig(levels);
    ModestIsWellFormed(Object(spec), levels + 1);
    ModestIsBounded(Object(spec), levels + 1, 0);
  }
}
