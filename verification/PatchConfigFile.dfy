/**
 * The whole step on one bundle, docker/build-trust-runtime/secure_linux.go:380-443
 * (patchConfigAt, commitPatchedConfigAt): check rootfs, read config.json through a descriptor,
 * patch its text, and replace the file only if the text has changed.
 */
module PatchConfigFile {

  import C = ConfigText
  import G = GoJson
  import R = ReplaceProtocol
  import O = OciPatch
  import opened Wrappers

  /** patchOCIConfig for given sources and bundle: a function of the text, which ConfigText describes. */
  type Patch = Bytes -> Result<Bytes>

  ghost predicate IsTrustPatch(
    patch: Patch, sources: seq<O.TrustSource>, bundlePath: string, lex: G.Lexer, marshal: G.Marshaller)
  {
    forall input :: patch(input) == C.PatchedText(input, sources, bundlePath, lex, marshal)
  }

  /** A text beyond the size bound is refused. */
  ghost predicate IsBounded(patch: Patch) {
    forall input :: patch(input).Ok? ==> |input| <= O.MAX_CONFIG_BYTES
  }

  /** A patched text, patched again, is not changed. */
  ghost predicate SettlesAtOnce(patch: Patch) {
    forall earlier, input, output ::
      patch(earlier) == Ok(input) && patch(input) == Ok(output) ==> output == input
  }

  /** What the code relies on outside itself, and the condition on the sources. */
  ghost predicate Sound(sources: seq<O.TrustSource>, lex: G.Lexer, marshal: G.Marshaller) {
    G.LexesWell(lex) && G.ReadsBack(lex, marshal) && O.ValidSources(sources) && C.Utf8Sources(sources)
  }

  lemma TrustPatchIsBounded(
    patch: Patch, sources: seq<O.TrustSource>, bundlePath: string, lex: G.Lexer, marshal: G.Marshaller)
    requires IsTrustPatch(patch, sources, bundlePath, lex, marshal)
    ensures IsBounded(patch)
  {
  }

  /** What an earlier run wrote is left alone: patching it changes nothing. */
  lemma SecondRunLeavesFileAlone(
    patch: Patch, sources: seq<O.TrustSource>, bundlePath: string, lex: G.Lexer, marshal: G.Marshaller)
    requires IsTrustPatch(patch, sources, bundlePath, lex, marshal) && Sound(sources, lex, marshal)
    ensures SettlesAtOnce(patch)
  {
    forall earlier, input, output | patch(earlier) == Ok(input) && patch(input) == Ok(output)
      ensures output == input
    {
      C.PatchTextTwice(earlier, sources, bundlePath, lex, marshal);
    }
  }

  // ---------------------------------------------------------------------
  // The checks
  // ---------------------------------------------------------------------

  /** Owner and permission bits of config.json and of rootfs. */
  datatype Policy = Policy(config: R.Meta, rootfs: R.Meta)

  /** mode & 0o022 is not zero. */
  predicate OthersMayWrite(mode: int) {
    mode / 0x10 % 2 != 0 || mode / 2 % 2 != 0
  }

  /** The checks on the file's owner, mode, links and size. */
  predicate Qualified(stat: R.Stat, policy: Policy) {
    && stat.meta == policy.config && !OthersMayWrite(stat.meta.mode)
    && stat.links == 1 && 0 < stat.size <= O.MAX_CONFIG_BYTES
  }

  predicate QualifiedRootfs(rootfs: R.Node, meta: R.Meta, bundle: R.Node, policy: Policy) {
    meta == policy.rootfs && !OthersMayWrite(meta.mode) && rootfs != bundle
  }

  /** The comparison as written: the device is the bundle's, the inode either directory's. */
  predicate Aliases(config: R.Node, bundle: R.Node, rootfs: R.Node) {
    config.dev == bundle.dev && (config.ino == bundle.ino || config.ino == rootfs.ino)
  }

  /** At some moments from `lo` on the entry rootfs was this directory, and it qualified. */
  ghost predicate RootfsSeen(trace: R.Trace, lo: nat, rootfs: R.Node, bundle: R.Node, policy: Policy) {
    exists found, stated :: lo <= found <= stated < |trace| && RootfsAt(trace, found, stated, rootfs, bundle, policy)
  }

  ghost predicate RootfsAt(
    trace: R.Trace, found: nat, stated: nat, rootfs: R.Node, bundle: R.Node, policy: Policy)
  {
    && found < |trace| && stated < |trace| && trace[found].fs.rootfs == Some(rootfs)
    && rootfs in trace[stated].fs.folders
    && QualifiedRootfs(rootfs, trace[stated].fs.folders[rootfs], bundle, policy)
  }

  /** At some moments from `lo` on config.json linked to a file that then had this status and these contents. */
  ghost predicate WasSeen(trace: R.Trace, lo: nat, original: R.Stat, contents: Bytes) {
    exists found, stated, read ::
      && lo <= found <= stated <= read < |trace|
      && R.WasOriginal(trace, found, stated, read, original, contents)
      && R.Links(trace[stated].fs, original.node) == original.links
  }

  // ---------------------------------------------------------------------
  // patchConfigAt
  // ---------------------------------------------------------------------

  datatype Run = Run(renamed: bool, at: nat, rootfs: R.Node, original: R.Stat, input: Bytes, output: Bytes)

  /**
   * A success means that config.json, as seen, was the patched text already, or that the patched text was
   * put in its place, synced and seen there with the same mode and owner. Nothing is renamed otherwise.
   */
  ghost predicate Kept(before: R.Trace, after: R.Trace, ok: bool, run: Run, policy: Policy, patch: Patch) {
    && before != []
    && (!run.renamed ==> R.Grows(before, after))
    && (run.renamed ==> R.Replaces(before, after, run.at, run.original, run.input, run.output))
    && (ok || run.renamed ==>
          && patch(run.input) == Ok(run.output) && (run.renamed <==> run.input != run.output)
          && Qualified(run.original, policy)
          && WasSeen(after, |before| - 1, run.original, run.input))
    && (ok && run.renamed ==> R.Synced(after, run.at) && R.Verified(after, run.at, policy.config, run.output))
  }

  /** Moments before and after a run in which nothing of ours touches config.json do not matter. */
  lemma KeptFurther(
    start: R.Trace, a: R.Trace, b: R.Trace, c: R.Trace, ok: bool, run: Run, policy: Policy, patch: Patch)
    requires start != [] && R.Grows(start, a) && Kept(a, b, ok, run, policy, patch) && R.Grows(b, c)
    ensures Kept(start, c, ok, run, policy, patch)
  {
    if run.renamed {
      R.ReplacementKept(start, a, b, c, run.at, run.original, run.input, run.output);
      if ok { R.LaterStill(b, c, run.at, policy.config, run.output); }
    } else {
      R.GrowsOn(start, a, b);
      R.GrowsOn(start, b, c);
    }
    if ok || run.renamed { SeenLater(b, c, |a| - 1, |start| - 1, run.original, run.input); }
  }

  lemma SeenLater(b: R.Trace, c: R.Trace, since: nat, lo: nat, original: R.Stat, contents: Bytes)
    requires b <= c && lo <= since && WasSeen(b, since, original, contents)
    ensures WasSeen(c, lo, original, contents)
  {
    var found, stated, read :| since <= found <= stated <= read < |b|
      && R.WasOriginal(b, found, stated, read, original, contents)
      && R.Links(b[stated].fs, original.node) == original.links;
    assert R.WasOriginal(c, found, stated, read, original, contents);
  }

  lemma RootfsSeenLater(b: R.Trace, c: R.Trace, since: nat, lo: nat, rootfs: R.Node, bundle: R.Node, policy: Policy)
    requires b <= c && lo <= since && RootfsSeen(b, since, rootfs, bundle, policy)
    ensures RootfsSeen(c, lo, rootfs, bundle, policy)
  {
    var found, stated :| since <= found <= stated < |b| && RootfsAt(b, found, stated, rootfs, bundle, policy);
    assert RootfsAt(c, found, stated, rootfs, bundle, policy);
  }

  lemma LongerTrace(a: R.Trace, b: R.Trace, run: Run)
    requires run.renamed ==> a != [] && R.Replaces(a, b, run.at, run.original, run.input, run.output)
    requires !run.renamed ==> R.Grows(a, b)
    ensures a <= b
  {
    if run.renamed { assert a <= b[..run.at] <= b; }
  }

  /** Open, fstat, check, and read through a limit; the descriptor stays open on success. */
  method OpenQualified(disk: R.Disk, bundle: R.Node, rootfs: R.Node, policy: Policy)
    returns (ok: bool, original: R.Stat, input: Bytes)
    requires disk.Valid()
    modifies disk`fs, disk`trace, disk`calls, disk`open
    ensures disk.Valid() && disk.open == old(disk.open) + (if ok then 1 else 0) && disk.fs.temp == old(disk.fs.temp)
    ensures R.Grows(old(disk.trace), disk.trace)
    ensures ok ==> Qualified(original, policy) && !Aliases(original.node, bundle, rootfs)
    ensures ok && |input| <= O.MAX_CONFIG_BYTES ==> WasSeen(disk.trace, |old(disk.trace)| - 1, original, input)
  {
    ghost var start := disk.trace;
    original, input := R.Stat(bundle, 0, policy.config, 0), [];
    var config, found := disk.OpenConfig();
    if config.None? { return false, original, input; }
    ghost var a := disk.trace;
    ghost var stated, read;
    ok, original, input, stated, read := ReadQualified(disk, config.value, bundle, rootfs, policy);
    R.GrowsOn(start, a, disk.trace);
    if !ok {
      a := disk.trace;
      var _ := disk.Close();
      R.GrowsOn(start, a, disk.trace);
    } else if |input| <= O.MAX_CONFIG_BYTES {
      assert R.WasOriginal(disk.trace, found, stated, read, original, input);
    }
  }

  method ReadQualified(disk: R.Disk, config: R.Node, bundle: R.Node, rootfs: R.Node, policy: Policy)
    returns (ok: bool, original: R.Stat, input: Bytes, ghost stated: nat, ghost read: nat)
    requires disk.Valid()
    modifies disk`fs, disk`trace, disk`calls
    ensures disk.Valid() && disk.fs.temp == old(disk.fs.temp) && R.Grows(old(disk.trace), disk.trace)
    ensures ok ==> Qualified(original, policy) && !Aliases(original.node, bundle, rootfs) && original.node == config
    ensures ok ==> |old(disk.trace)| - 1 <= stated <= read < |disk.trace|
    ensures ok ==> config in disk.trace[stated].fs.files && original == R.StatOf(disk.trace[stated].fs, config)
    ensures ok ==> config in disk.trace[read].fs.files
    ensures ok ==>
      input == R.First(disk.trace[read].fs.files[config].data, O.MAX_CONFIG_BYTES + 1)
  {
    ghost var start := disk.trace;
    ok, original, input, read := false, R.Stat(bundle, 0, policy.config, 0), [], 0;
    var stat;
    stat, stated := disk.Fstat(config);
    if stat.None? || !Qualified(stat.value, policy) || Aliases(config, bundle, rootfs) { return; }
    ghost var a := disk.trace;
    var data;
    data, read := disk.Read(config, O.MAX_CONFIG_BYTES + 1);
    R.GrowsOn(start, a, disk.trace);
    if data.None? { return; }
    return true, stat.value, data.value, stated, read;
  }

  /** Qualify, read, patch, and replace if anything changed; rootfs is open throughout. */
  method PatchBeside(disk: R.Disk, bundle: R.Node, rootfs: R.Node, policy: Policy, patch: Patch)
    returns (ok: bool, ghost run: Run)
    requires disk.Valid() && disk.fs.temp.None? && IsBounded(patch)
    modifies disk
    ensures disk.Valid() && disk.open == old(disk.open) && run.rootfs == rootfs
    ensures Kept(old(disk.trace), disk.trace, ok, run, policy, patch)
    ensures ok || run.renamed ==> !Aliases(run.original.node, bundle, rootfs)
    ensures disk.fs.temp.Some? <==> !run.renamed && disk.unlinksRefused > old(disk.unlinksRefused)
    ensures ok ==> disk.fs.temp.None?
  {
    ghost var start := disk.trace;
    run := Run(false, 0, rootfs, R.Stat(bundle, 0, policy.config, 0), [], []);
    var stat, input;
    ok, stat, input := OpenQualified(disk, bundle, rootfs, policy);
    if !ok { return; }
    ghost var a := disk.trace;
    ok, run := PatchRead(disk, rootfs, stat, input, policy, patch, start);
    ghost var b := disk.trace;
    var _ := disk.Close();
    KeptFurther(start, start, b, disk.trace, ok, run, policy, patch);
  }

  method PatchRead(
    disk: R.Disk, rootfs: R.Node, stat: R.Stat, input: Bytes, policy: Policy, patch: Patch, ghost start: R.Trace)
    returns (ok: bool, ghost run: Run)
    requires disk.Valid() && disk.fs.temp.None? && IsBounded(patch) && Qualified(stat, policy)
    requires start != [] && R.Grows(start, disk.trace)
    requires |input| <= O.MAX_CONFIG_BYTES ==> WasSeen(disk.trace, |start| - 1, stat, input)
    modifies disk
    ensures disk.Valid() && disk.open == old(disk.open) && run.rootfs == rootfs && run.original == stat
    ensures Kept(start, disk.trace, ok, run, policy, patch)
    ensures disk.fs.temp.Some? <==> !run.renamed && disk.unlinksRefused > old(disk.unlinksRefused)
    ensures ok ==> disk.fs.temp.None?
  {
    run := Run(false, 0, rootfs, stat, input, []);
    var patched := patch(input);
    if patched.Err? { return false, run; }
    run := run.(output := patched.value);
    if patched.value == input { return true, run; }
    ghost var b := disk.trace;
    ghost var renamed, at;
    ok, renamed, at := R.ReplaceConfigAt(disk, stat, input, patched.value, true, O.MAX_CONFIG_BYTES);
    run := run.(renamed := renamed, at := at);
    Spliced(start, b, disk.trace, run);
    if ok || renamed { SeenLater(b, disk.trace, |start| - 1, |start| - 1, stat, input); }
  }

  lemma Spliced(start: R.Trace, b: R.Trace, c: R.Trace, run: Run)
    requires start != [] && b != [] && R.Grows(start, b)
    requires if run.renamed then R.Replaces(b, c, run.at, run.original, run.input, run.output) else R.Grows(b, c)
    ensures if run.renamed then R.Replaces(start, c, run.at, run.original, run.input, run.output) else R.Grows(start, c)
    ensures b <= c
  {
    LongerTrace(b, c, run);
    if run.renamed {
      assert R.Grows(c, c);
      R.ReplacementKept(start, b, c, c, run.at, run.original, run.input, run.output);
    } else {
      R.GrowsOn(start, b, c);
    }
  }

  /**
   * patchConfigAt: what Kept says, and whenever anything was renamed or the call succeeds the
   * directory rootfs and the file had passed all checks. No descriptor is kept, and the temporary name
   * stays exactly if nothing was renamed and its removal was refused.
   */
  method PatchConfigAt(disk: R.Disk, bundle: R.Node, policy: Policy, patch: Patch)
    returns (ok: bool, ghost run: Run)
    requires disk.Valid() && disk.fs.temp.None? && IsBounded(patch)
    modifies disk
    ensures disk.Valid() && disk.open == old(disk.open)
    ensures Kept(old(disk.trace), disk.trace, ok, run, policy, patch)
    ensures ok || run.renamed ==> RootfsSeen(disk.trace, |old(disk.trace)| - 1, run.rootfs, bundle, policy)
    ensures ok || run.renamed ==> !Aliases(run.original.node, bundle, run.rootfs)
    ensures disk.fs.temp.Some? <==> !run.renamed && disk.unlinksRefused > old(disk.unlinksRefused)
    ensures ok ==> disk.fs.temp.None?
  {
    ghost var start := disk.trace;
    run := Run(false, 0, bundle, R.Stat(bundle, 0, policy.config, 0), [], []);
    var rootfs, found := disk.OpenRootfs();
    if rootfs.None? { return false, run; }
    ghost var a := disk.trace;
    var meta, stated := disk.FstatFolder(rootfs.value);
    R.GrowsOn(start, a, disk.trace);
    a := disk.trace;
    if meta.None? || !QualifiedRootfs(rootfs.value, meta.value, bundle, policy) {
      var _ := disk.Close();
      R.GrowsOn(start, a, disk.trace);
      return false, run;
    }
    assert RootfsAt(a, found, stated, rootfs.value, bundle, policy);
    ok, run := PatchBeside(disk, bundle, rootfs.value, policy, patch);
    ghost var b := disk.trace;
    var _ := disk.Close();
    KeptFurther(start, a, b, disk.trace, ok, run, policy, patch);
    if ok || run.renamed {
      LongerTrace(a, b, run);
      RootfsSeenLater(a, disk.trace, |start| - 1, |start| - 1, rootfs.value, bundle, policy);
    }
  }

  // ---------------------------------------------------------------------
  // With the trust patch: a second run leaves the file alone
  // ---------------------------------------------------------------------

  /** The text under config.json. */
  ghost predicate Holds(fs: R.Fs, contents: Bytes) {
    var file := R.Look(fs, fs.config);
    file.Some? && file.value.data == contents
  }

  lemma HoldsOutput(start: R.Trace, mid: R.Trace, run: Run, policy: Policy, patch: Patch)
    requires Kept(start, mid, true, run, policy, patch) && R.Alone(mid, |start|, |mid|)
    ensures Holds(mid[|mid| - 1].fs, run.output)
  {
    var last := |mid| - 1;
    if run.renamed {
      R.UntouchedSinceRename(start, mid, run.at, R.File(run.output, run.original.meta, true, true), last);
    } else {
      var found, stated, read :| |start| - 1 <= found <= stated <= read < |mid|
        && R.WasOriginal(mid, found, stated, read, run.original, run.input)
        && R.Links(mid[stated].fs, run.original.node) == run.original.links;
      R.AloneNothingMoves(start, mid, found);
      R.AloneNothingMoves(start, mid, read);
      R.AloneNothingMoves(start, mid, last);
    }
  }

  lemma ReplacesWhatIsThere(mid: R.Trace, end: R.Trace, run: Run, contents: Bytes)
    requires mid != [] && R.Replaces(mid, end, run.at, run.original, run.input, run.output)
    requires R.Alone(end, |mid|, |end|) && Holds(mid[|mid| - 1].fs, contents)
    ensures run.input == contents
  {
    var file := R.File(run.output, run.original.meta, true, true);
    var found, stated, read :| |mid| - 1 <= found <= stated <= read < run.at
      && R.WasOriginal(end, found, stated, read, run.original, run.input);
    R.UntouchedUntilRename(mid, end, run.at, file, found);
    R.UntouchedUntilRename(mid, end, run.at, file, read);
  }

  lemma AloneBefore(start: R.Trace, mid: R.Trace, end: R.Trace)
    requires start <= mid <= end && R.Alone(end, |start|, |end|)
    ensures R.Alone(mid, |start|, |mid|) && R.Alone(end, |mid|, |end|)
  {
    forall i | |start| <= i < |mid| ensures !mid[i].who.Others? { assert end[i] == mid[i]; }
  }

  lemma SecondRunRenamesNothing(
    start: R.Trace, mid: R.Trace, end: R.Trace, first: Run, ok: bool, second: Run, policy: Policy, patch: Patch)
    requires Kept(start, mid, true, first, policy, patch) && Kept(mid, end, ok, second, policy, patch)
    requires SettlesAtOnce(patch) && R.Alone(end, |start|, |end|)
    ensures !second.renamed
  {
    LongerTrace(start, mid, first);
    LongerTrace(mid, end, second);
    AloneBefore(start, mid, end);
    HoldsOutput(start, mid, first, policy, patch);
    if second.renamed {
      ReplacesWhatIsThere(mid, end, second, first.output);
    }
  }

  /**
   * The trust patch on a bundle, and once more after a success: if nobody else touches the directory
   * meanwhile, the second run renames nothing.
   */
  method PatchTwice(
    disk: R.Disk, bundle: R.Node, policy: Policy, patch: Patch,
    ghost sources: seq<O.TrustSource>, ghost bundlePath: string, ghost lex: G.Lexer, ghost marshal: G.Marshaller)
    returns (ok: bool, again: bool, ghost first: Run, ghost second: Run)
    requires disk.Valid() && disk.fs.temp.None?
    requires IsTrustPatch(patch, sources, bundlePath, lex, marshal) && Sound(sources, lex, marshal)
    modifies disk
    ensures disk.Valid() && disk.open == old(disk.open)
    ensures ok ==> patch(first.input) == Ok(first.output)
    ensures ok && R.Alone(disk.trace, |old(disk.trace)|, |disk.trace|) ==> !second.renamed
    ensures again ==> ok && patch(second.input) == Ok(second.output)
  {
    ghost var start := disk.trace;
    TrustPatchIsBounded(patch, sources, bundlePath, lex, marshal);
    SecondRunLeavesFileAlone(patch, sources, bundlePath, lex, marshal);
    ok, first := PatchConfigAt(disk, bundle, policy, patch);
    again, second := false, first;
    if !ok { return; }
    ghost var mid := disk.trace;
    again, second := PatchConfigAt(disk, bundle, policy, patch);
    if R.Alone(disk.trace, |start|, |disk.trace|) {
      SecondRunRenamesNothing(start, mid, disk.trace, first, again, second, policy, patch);
    }
  }
}
