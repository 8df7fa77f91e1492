/**
 * Replacing a file by a temporary name, docker/build-trust-runtime/secure_linux.go
 * (replaceConfigAt) and src/hardened-fs.ts (writeStableJsonAtomic): every system call may
 * fail, other processes act between any two of them, and the machine may stop at any moment.
 */
module ReplaceProtocol {

  import opened Wrappers

  /** A device and an inode on it. */
  datatype Node = Node(dev: int, ino: int)

  datatype Meta = Meta(mode: int, uid: int, gid: int)

  /** A file and which of its two halves a crash would leave as they are. */
  datatype File = File(data: Bytes, meta: Meta, dataSynced: bool, metaSynced: bool)

  /**
   * One directory with the names that matter, and the number of names each file has. `candidates` are
   * the links that config.json may turn out to have after a crash: the present one and those not yet
   * synced away.
   */
  datatype Fs = Fs(
    config: Option<Node>, temp: Option<Node>, rootfs: Option<Node>,
    files: map<Node, File>, links: map<Node, nat>, folders: map<Node, Meta>,
    candidates: set<Option<Node>>)

  function Links(fs: Fs, n: Node): nat {
    if n in fs.links then fs.links[n] else 0
  }

  function OneLess(links: map<Node, nat>, name: Option<Node>): map<Node, nat> {
    if name.Some? && name.value in links && links[name.value] > 0
    then links[name.value := links[name.value] - 1]
    else links
  }

  function Targets(names: set<Option<Node>>): set<Node> {
    set name | name in names && name.Some? :: name.value
  }

  function Look(fs: Fs, name: Option<Node>): Option<File> {
    if name.Some? && name.value in fs.files then Some(fs.files[name.value]) else None
  }

  /** The temporary name's file is reached by no other name. */
  predicate Sound(fs: Fs) {
    && fs.config in fs.candidates
    && (fs.temp.Some? ==> fs.temp.value in fs.files && fs.temp !in fs.candidates)
  }

  /** Others may do anything to config.json and to any file but the one only the random name reaches. */
  predicate OthersMay(a: Fs, b: Fs) {
    Sound(b) && b.temp == a.temp && Look(b, a.temp) == Look(a, a.temp)
  }

  // ---------------------------------------------------------------------
  // Traces
  // ---------------------------------------------------------------------

  datatype Actor = Others | Us | UsRenaming

  datatype Moment = Moment(who: Actor, fs: Fs)

  type Trace = seq<Moment>

  /** Neither the name config.json nor what a crash could make of it has changed. */
  ghost predicate LeavesConfig(a: Fs, b: Fs) {
    && b.config == a.config && Look(b, b.config) == Look(a, a.config)
    && b.candidates <= a.candidates
    && forall c :: c in b.candidates ==> Look(b, c) == Look(a, c)
  }

  /** Whoever acts, it is not this process renaming, and this process leaves config.json alone. */
  ghost predicate Harmless(trace: Trace, i: nat)
    requires i < |trace|
  {
    && !trace[i].who.UsRenaming?
    && (!trace[i].who.Others? ==> i > 0 && LeavesConfig(trace[i - 1].fs, trace[i].fs))
  }

  ghost predicate Grows(before: Trace, after: Trace) {
    before <= after && forall i {:trigger after[i]} :: |before| <= i < |after| ==> Harmless(after, i)
  }

  lemma GrowsOn(a: Trace, b: Trace, c: Trace)
    requires Grows(a, b) && Grows(b, c)
    ensures Grows(a, c)
  {
    forall i | |a| <= i < |c| ensures Harmless(c, i) {
      if i < |b| {
        assert b[i] == c[i];
        assert Harmless(b, i);
      }
    }
  }

  /** Step `at` makes config.json the complete file at one stroke; nothing else of ours touches it. */
  ghost predicate RenamesOnce(before: Trace, after: Trace, at: nat, file: File) {
    && |before| <= at < |after| && 0 < at
    && Grows(before, after[..at]) && Grows(after[..at + 1], after)
    && after[at].who.UsRenaming?
    && PutsFile(after[at - 1].fs, after[at].fs, file)
  }

  ghost predicate PutsFile(a: Fs, b: Fs, file: File) {
    && Look(b, b.config) == Some(file)
    && b.candidates == a.candidates + {b.config}
    && (forall c :: c in a.candidates ==> Look(b, c) == Look(a, c))
  }

  lemma GrowsThenRenames(a: Trace, b: Trace, c: Trace, at: nat, file: File)
    requires Grows(a, b) && RenamesOnce(b, c, at, file)
    ensures RenamesOnce(a, c, at, file)
  {
    GrowsOn(a, b, c[..at]);
  }

  lemma RenamesThenGrows(a: Trace, b: Trace, c: Trace, at: nat, file: File)
    requires RenamesOnce(a, b, at, file) && Grows(b, c)
    ensures RenamesOnce(a, c, at, file)
  {
    assert c[..at] == b[..at] && c[..at + 1] == b[..at + 1];
    assert c[at] == b[at] && c[at - 1] == b[at - 1];
    GrowsOn(b[..at + 1], b, c);
  }

  // ---------------------------------------------------------------------
  // System calls
  // ---------------------------------------------------------------------

  datatype Stat = Stat(node: Node, size: nat, meta: Meta, links: nat)

  lemma SomeNodeIsFree(taken: set<Node>) returns (free: Node)
    ensures free !in taken
  {
    var bound := InoBound(taken);
    free := Node(0, bound);
  }

  lemma {:induction false} InoBound(taken: set<Node>) returns (bound: int)
    ensures forall n :: n in taken ==> n.ino < bound
  {
    bound := 0;
    var left := taken;
    while left != {}
      invariant left <= taken
      invariant forall n :: n in taken - left ==> n.ino < bound
    {
      var n :| n in left;
      left := left - {n};
      if bound <= n.ino { bound := n.ino + 1; }
    }
  }

  /** The directory as this process meets it: `refuses(k)` tells whether its call number k fails. */
  class Disk {
    const refuses: nat -> bool
    var calls: nat
    var fs: Fs
    /** Descriptors this process holds. */
    var open: int
    ghost var trace: Trace
    /** How often removing the temporary name was refused. */
    ghost var unlinksRefused: nat

    ghost predicate Valid()
      reads this
    {
      Sound(fs) && trace != [] && trace[|trace| - 1].fs == fs
    }

    constructor (fs: Fs, refuses: nat -> bool)
      requires Sound(fs)
      ensures Valid() && this.fs == fs && this.refuses == refuses && calls == 0 && open == 0
    {
      this.fs, this.refuses, calls, open := fs, refuses, 0, 0;
      trace, unlinksRefused := [Moment(Others, fs)], 0;
    }

    /** Others act, or nobody does. */
    method Interfere()
      requires Valid()
      modifies this`fs, this`trace
      ensures Valid() && OthersMay(old(fs), fs) && Grows(old(trace), trace)
    {
      var next: Fs := *;
      if OthersMay(fs, next) {
        fs := next;
        trace := trace + [Moment(Others, next)];
      }
    }

    /** A step of this process that leaves config.json alone. */
    method Act(next: Fs)
      requires Valid() && Sound(next) && LeavesConfig(fs, next)
      modifies this`fs, this`trace
      ensures Valid() && fs == next && Grows(old(trace), trace)
    {
      fs := next;
      trace := trace + [Moment(Us, next)];
    }

    /** The next system call, which may fail and before which others may act. */
    method Refused() returns (refused: bool)
      requires Valid()
      modifies this`fs, this`trace, this`calls
      ensures Valid() && OthersMay(old(fs), fs) && Grows(old(trace), trace)
      ensures calls == old(calls) + 1 && refused == refuses(old(calls))
    {
      Interfere();
      refused := refuses(calls);
      calls := calls + 1;
    }

    /** openat(O_CREAT | O_EXCL) of the random name. */
    method CreateTemporary(mode: int) returns (t: Option<Node>)
      requires Valid() && fs.temp.None?
      modifies this`fs, this`trace, this`calls, this`open
      ensures Valid() && Grows(old(trace), trace) && fs.temp == t
      ensures t.Some? ==> fs.files[t.value].data == [] && fs.files[t.value].meta.mode == mode
      ensures t.Some? <==> !refuses(old(calls))
      ensures calls == old(calls) + 1 && open == old(open) + (if t.Some? then 1 else 0)
    {
      ghost var before := trace;
      var refused := Refused();
      ghost var middle := trace;
      if refused { return None; }
      ghost var free := SomeNodeIsFree(fs.files.Keys + Targets(fs.candidates));
      var node: Node :| node !in fs.files && Some(node) !in fs.candidates;
      var uid: int := *;
      var gid: int := *;
      var file := File([], Meta(mode, uid, gid), false, false);
      Act(fs.(temp := Some(node), files := fs.files[node := file], links := fs.links[node := 1]));
      GrowsOn(before, middle, trace);
      open := open + 1;
      return Some(node);
    }

    /** A change to the temporary file through its descriptor or its name. */
    method Change(t: Node, file: File)
      requires Valid() && fs.temp == Some(t)
      modifies this`fs, this`trace
      ensures Valid() && Grows(old(trace), trace)
      ensures fs.temp == Some(t) && fs.files[t] == file
    {
      Act(fs.(files := fs.files[t := file]));
    }

    method Chown(t: Node, uid: int, gid: int) returns (ok: bool)
      requires Valid() && fs.temp == Some(t)
      modifies this`fs, this`trace, this`calls
      ensures Valid() && Grows(old(trace), trace) && fs.temp == Some(t)
      ensures calls == old(calls) + 1 && ok == !refuses(old(calls))
      ensures var f := old(fs.files[t]); ok ==>
        fs.files[t] == f.(meta := f.meta.(uid := uid, gid := gid), metaSynced := false)
    {
      ghost var before := trace;
      var refused := Refused();
      ghost var middle := trace;
      if refused { return false; }
      var f := fs.files[t];
      Change(t, f.(meta := f.meta.(uid := uid, gid := gid), metaSynced := false));
      GrowsOn(before, middle, trace);
      return true;
    }

    method Chmod(t: Node, mode: int) returns (ok: bool)
      requires Valid() && fs.temp == Some(t)
      modifies this`fs, this`trace, this`calls
      ensures Valid() && Grows(old(trace), trace) && fs.temp == Some(t)
      ensures calls == old(calls) + 1 && ok == !refuses(old(calls))
      ensures var f := old(fs.files[t]); ok ==>
        fs.files[t] == f.(meta := f.meta.(mode := mode), metaSynced := false)
    {
      ghost var before := trace;
      var refused := Refused();
      ghost var middle := trace;
      if refused { return false; }
      var f := fs.files[t];
      Change(t, f.(meta := f.meta.(mode := mode), metaSynced := false));
      GrowsOn(before, middle, trace);
      return true;
    }

    /** A failed write may have written any part. */
    method Write(t: Node, data: Bytes) returns (ok: bool)
      requires Valid() && fs.temp == Some(t)
      modifies this`fs, this`trace, this`calls
      ensures Valid() && Grows(old(trace), trace) && fs.temp == Some(t)
      ensures calls == old(calls) + 1 && ok == !refuses(old(calls))
      ensures var f := old(fs.files[t]); ok ==>
        fs.files[t] == f.(data := f.data + data, dataSynced := false, metaSynced := false)
    {
      ghost var before := trace;
      var refused := Refused();
      ghost var middle := trace;
      var done: nat := *;
      var f := fs.files[t];
      var part := if refused && 0 <= done < |data| then data[..done] else data;
      Change(t, f.(data := f.data + part, dataSynced := false, metaSynced := false));
      GrowsOn(before, middle, trace);
      return !refused;
    }

    method Fsync(t: Node) returns (ok: bool)
      requires Valid() && fs.temp == Some(t)
      modifies this`fs, this`trace, this`calls
      ensures Valid() && Grows(old(trace), trace) && fs.temp == Some(t)
      ensures calls == old(calls) + 1 && ok == !refuses(old(calls))
      ensures var f := old(fs.files[t]); ok ==> fs.files[t] == f.(dataSynced := true, metaSynced := true)
    {
      ghost var before := trace;
      var refused := Refused();
      ghost var middle := trace;
      if refused { return false; }
      var f := fs.files[t];
      Change(t, f.(dataSynced := true, metaSynced := true));
      GrowsOn(before, middle, trace);
      return true;
    }

    /** The descriptor is gone even when close reports an error. */
    method Close() returns (ok: bool)
      requires Valid()
      modifies this`fs, this`trace, this`calls, this`open
      ensures Valid() && OthersMay(old(fs), fs) && Grows(old(trace), trace) && open == old(open) - 1
      ensures calls == old(calls) + 1 && ok == !refuses(old(calls))
    {
      open := open - 1;
      var refused := Refused();
      return !refused;
    }

    /** Closing a descriptor once more: it is gone, so the call always fails. */
    method CloseStale() returns (ok: bool)
      requires Valid()
      modifies this`fs, this`trace
      ensures Valid() && OthersMay(old(fs), fs) && Grows(old(trace), trace) && !ok
    {
      Interfere();
      return false;
    }

    /** unlinkat of the temporary name, if it is there. */
    method Unlink() returns (ok: bool)
      requires Valid()
      modifies this`fs, this`trace, this`calls, this`unlinksRefused
      ensures Valid() && Grows(old(trace), trace)
      ensures calls == old(calls) + 1 && ok == !refuses(old(calls))
      ensures fs.temp == if ok then None else old(fs.temp)
      ensures unlinksRefused == old(unlinksRefused) + (if ok then 0 else 1)
    {
      ghost var before := trace;
      var refused := Refused();
      ghost var middle := trace;
      if refused {
        unlinksRefused := unlinksRefused + 1;
        return false;
      }
      Act(fs.(temp := None, links := OneLess(fs.links, fs.temp)));
      GrowsOn(before, middle, trace);
      return true;
    }

    method Rename(t: Node) returns (ok: bool, ghost at: nat)
      requires Valid() && fs.temp == Some(t)
      modifies this`fs, this`trace, this`calls
      ensures Valid() && fs.temp == if ok then None else Some(t)
      ensures calls == old(calls) + 1 && ok == !refuses(old(calls))
      ensures !ok ==> Grows(old(trace), trace)
      ensures ok ==> RenamesOnce(old(trace), trace, at, old(fs.files[t]))
    {
      ghost var before := trace;
      var refused := Refused();
      at := |trace|;
      if refused { return false, at; }
      ghost var middle := trace;
      var next := fs.(config := Some(t), temp := None, candidates := fs.candidates + {Some(t)},
        links := OneLess(fs.links, fs.config));
      fs := next;
      trace := trace + [Moment(UsRenaming, next)];
      assert trace[..at] == middle && trace[..at + 1] == trace;
      return true, at;
    }

    /** fsync of the directory: a crash now finds the present link. */
    method FsyncDirectory() returns (ok: bool, ghost at: nat)
      requires Valid()
      modifies this`fs, this`trace, this`calls
      ensures Valid() && Grows(old(trace), trace) && fs.temp == old(fs.temp)
      ensures calls == old(calls) + 1 && ok == !refuses(old(calls))
      ensures |old(trace)| - 1 <= at < |trace|
      ensures ok ==> trace[at].fs.candidates == {trace[at].fs.config}
    {
      ghost var before := trace;
      var refused := Refused();
      if refused { return false, |trace| - 1; }
      ghost var middle := trace;
      Act(fs.(candidates := {fs.config}));
      GrowsOn(before, middle, trace);
      return true, |trace| - 1;
    }

    method OpenConfig() returns (n: Option<Node>, ghost at: nat)
      requires Valid()
      modifies this`fs, this`trace, this`calls, this`open
      ensures Valid() && OthersMay(old(fs), fs) && Grows(old(trace), trace)
      ensures open == old(open) + (if n.Some? then 1 else 0)
      ensures |old(trace)| - 1 <= at < |trace|
      ensures n.Some? ==> trace[at].fs.config == n
    {
      var refused := Refused();
      at := |trace| - 1;
      if refused || fs.config.None? { return None, at; }
      open := open + 1;
      return fs.config, at;
    }

    /** openat of rootfs as a directory. */
    method OpenRootfs() returns (n: Option<Node>, ghost at: nat)
      requires Valid()
      modifies this`fs, this`trace, this`calls, this`open
      ensures Valid() && OthersMay(old(fs), fs) && Grows(old(trace), trace)
      ensures open == old(open) + (if n.Some? then 1 else 0)
      ensures |old(trace)| - 1 <= at < |trace|
      ensures n.Some? ==> trace[at].fs.rootfs == n
    {
      var refused := Refused();
      at := |trace| - 1;
      if refused || fs.rootfs.None? { return None, at; }
      open := open + 1;
      return fs.rootfs, at;
    }

    method FstatFolder(n: Node) returns (meta: Option<Meta>, ghost at: nat)
      requires Valid()
      modifies this`fs, this`trace, this`calls
      ensures Valid() && OthersMay(old(fs), fs) && Grows(old(trace), trace)
      ensures |old(trace)| - 1 <= at < |trace|
      ensures meta.Some? ==> n in trace[at].fs.folders && trace[at].fs.folders[n] == meta.value
    {
      var refused := Refused();
      at := |trace| - 1;
      if refused || n !in fs.folders { return None, at; }
      return Some(fs.folders[n]), at;
    }

    method Fstat(n: Node) returns (s: Option<Stat>, ghost at: nat)
      requires Valid()
      modifies this`fs, this`trace, this`calls
      ensures Valid() && OthersMay(old(fs), fs) && Grows(old(trace), trace)
      ensures |old(trace)| - 1 <= at < |trace|
      ensures s.Some? ==> n in trace[at].fs.files && s.value == StatOf(trace[at].fs, n)
    {
      var refused := Refused();
      at := |trace| - 1;
      if refused || n !in fs.files { return None, at; }
      return Some(StatOf(fs, n)), at;
    }

    /** io.ReadAll through a LimitReader. */
    method Read(n: Node, limit: nat) returns (data: Option<Bytes>, ghost at: nat)
      requires Valid()
      modifies this`fs, this`trace, this`calls
      ensures Valid() && OthersMay(old(fs), fs) && Grows(old(trace), trace)
      ensures |old(trace)| - 1 <= at < |trace|
      ensures data.Some? ==> n in trace[at].fs.files
      ensures data.Some? ==> data.value == First(trace[at].fs.files[n].data, limit)
    {
      var refused := Refused();
      at := |trace| - 1;
      if refused || n !in fs.files { return None, at; }
      return Some(First(fs.files[n].data, limit)), at;
    }
  }

  function StatOf(fs: Fs, n: Node): Stat
    requires n in fs.files
  {
    Stat(n, |fs.files[n].data|, fs.files[n].meta, Links(fs, n))
  }

  function First(data: Bytes, n: nat): Bytes {
    if |data| <= n then data else data[..n]
  }

  // ---------------------------------------------------------------------
  // replaceConfigAt
  // ---------------------------------------------------------------------

  /** What the second fstat compares: device and inode, size, mode, user and group, but not the links. */
  predicate SameFile(a: Stat, b: Stat) {
    a.node == b.node && a.size == b.size && a.meta == b.meta
  }

  /** At some moments from `lo` on config.json linked to the original file, which had this metadata and text. */
  ghost predicate Unchanged(trace: Trace, lo: nat, hi: nat, original: Stat, contents: Bytes) {
    exists found, stated, read ::
      && lo <= found <= stated <= read < hi <= |trace|
      && WasOriginal(trace, found, stated, read, original, contents)
  }

  ghost predicate WasOriginal(trace: Trace, found: nat, stated: nat, read: nat, original: Stat, contents: Bytes) {
    && found < |trace| && stated < |trace| && read < |trace|
    && trace[found].fs.config == Some(original.node)
    && original.node in trace[stated].fs.files && original.node in trace[read].fs.files
    && trace[stated].fs.files[original.node].meta == original.meta
    && |trace[stated].fs.files[original.node].data| == original.size
    && trace[read].fs.files[original.node].data == contents
  }

  method FillTemporary(disk: Disk, t: Node, meta: Meta, output: Bytes) returns (ok: bool)
    requires disk.Valid() && disk.fs.temp == Some(t) && disk.fs.files[t].data == []
    modifies disk`fs, disk`trace, disk`calls
    ensures disk.Valid() && Grows(old(disk.trace), disk.trace) && disk.fs.temp == Some(t)
    ensures ok ==> disk.fs.files[t] == File(output, meta, true, true)
  {
    ghost var start := disk.trace;
    ok := disk.Chown(t, meta.uid, meta.gid);
    if !ok { return; }
    ghost var a := disk.trace;
    ok := disk.Chmod(t, meta.mode);
    GrowsOn(start, a, disk.trace);
    if !ok { return; }
    a := disk.trace;
    ok := disk.Write(t, output);
    GrowsOn(start, a, disk.trace);
    if !ok { return; }
    a := disk.trace;
    ok := disk.Fsync(t);
    GrowsOn(start, a, disk.trace);
  }

  /** The second look at config.json, by descriptor, before the rename. */
  method Reread(disk: Disk, original: Stat, contents: Bytes, limit: nat) returns (ok: bool)
    requires disk.Valid() && |contents| <= limit
    modifies disk`fs, disk`trace, disk`calls, disk`open
    ensures disk.Valid() && OthersMay(old(disk.fs), disk.fs) && Grows(old(disk.trace), disk.trace)
    ensures disk.open == old(disk.open)
    ensures ok ==> Unchanged(disk.trace, |old(disk.trace)| - 1, |disk.trace|, original, contents)
  {
    ghost var start := disk.trace;
    var current, found := disk.OpenConfig();
    if current.None? { return false; }
    ghost var a := disk.trace;
    var wrapped := *;
    if !wrapped {
      var _ := disk.Close();
      GrowsOn(start, a, disk.trace);
      return false;
    }
    var stat, stated := disk.Fstat(current.value);
    GrowsOn(start, a, disk.trace);
    a := disk.trace;
    if stat.None? || !SameFile(stat.value, original) {
      var _ := disk.Close();
      GrowsOn(start, a, disk.trace);
      return false;
    }
    var data, read := disk.Read(current.value, limit + 1);
    GrowsOn(start, a, disk.trace);
    a := disk.trace;
    var closed := disk.Close();
    GrowsOn(start, a, disk.trace);
    if data.None? || !closed || data.value != contents { return false; }
    assert WasOriginal(disk.trace, found, stated, read, original, contents);
    return true;
  }

  /** After the rename config.json was seen with the output, mode and owner it should have, and no other name. */
  ghost predicate Verified(trace: Trace, lo: nat, meta: Meta, output: Bytes) {
    exists found, stated, read ::
      && lo <= found <= stated <= read < |trace|
      && WasComplete(trace, found, stated, read, meta, output)
  }

  ghost predicate WasComplete(trace: Trace, found: nat, stated: nat, read: nat, meta: Meta, output: Bytes) {
    && found < |trace| && stated < |trace| && read < |trace|
    && var link := trace[found].fs.config;
    && link.Some? && link.value in trace[stated].fs.files && link.value in trace[read].fs.files
    && trace[stated].fs.files[link.value].meta == meta && Links(trace[stated].fs, link.value) == 1
    && trace[read].fs.files[link.value].data == output
  }

  method VerifyReplaced(disk: Disk, meta: Meta, output: Bytes) returns (ok: bool)
    requires disk.Valid()
    modifies disk`fs, disk`trace, disk`calls, disk`open
    ensures disk.Valid() && OthersMay(old(disk.fs), disk.fs) && Grows(old(disk.trace), disk.trace)
    ensures disk.open == old(disk.open)
    ensures ok ==> Verified(disk.trace, |old(disk.trace)| - 1, meta, output)
  {
    ghost var start := disk.trace;
    var post, found := disk.OpenConfig();
    if post.None? { return false; }
    ghost var a := disk.trace;
    var wrapped := *;
    if !wrapped {
      var _ := disk.Close();
      GrowsOn(start, a, disk.trace);
      return false;
    }
    var stat, stated := disk.Fstat(post.value);
    GrowsOn(start, a, disk.trace);
    a := disk.trace;
    if stat.None? || stat.value.meta != meta || stat.value.links != 1 || stat.value.size != |output| {
      var _ := disk.Close();
      GrowsOn(start, a, disk.trace);
      return false;
    }
    var data, read := disk.Read(post.value, |output| + 1);
    GrowsOn(start, a, disk.trace);
    a := disk.trace;
    var _ := disk.Close();
    GrowsOn(start, a, disk.trace);
    if data.None? || data.value != output { return false; }
    assert WasComplete(disk.trace, found, stated, read, meta, output);
    return true;
  }

  /** A directory sync after the rename has left the present link as the only one a crash can find. */
  ghost predicate Synced(trace: Trace, lo: nat) {
    exists i :: lo <= i < |trace| && trace[i].fs.candidates == {trace[i].fs.config}
  }

  lemma UnchangedStays(a: Trace, b: Trace, lo: nat, hi: nat, original: Stat, contents: Bytes)
    requires a <= b && |a| <= hi <= |b| && Unchanged(a, lo, |a|, original, contents)
    ensures Unchanged(b, lo, hi, original, contents)
  {
    var found, stated, read :| lo <= found <= stated <= read < |a|
      && WasOriginal(a, found, stated, read, original, contents);
    assert WasOriginal(b, found, stated, read, original, contents);
  }

  /** What the whole protocol promises about the moments it adds to a trace. */
  ghost predicate Replaces(before: Trace, after: Trace, at: nat, original: Stat, contents: Bytes, output: Bytes)
    requires before != []
  {
    && RenamesOnce(before, after, at, File(output, original.meta, true, true))
    && Unchanged(after, |before| - 1, at, original, contents)
  }

  /** From the renaming on: sync the directory and look at the result. */
  method Conclude(disk: Disk, meta: Meta, output: Bytes) returns (ok: bool)
    requires disk.Valid()
    modifies disk`fs, disk`trace, disk`calls, disk`open
    ensures disk.Valid() && disk.fs.temp == old(disk.fs.temp) && disk.open == old(disk.open)
    ensures Grows(old(disk.trace), disk.trace)
    ensures ok ==> Synced(disk.trace, |old(disk.trace)| - 1)
    ensures ok ==> Verified(disk.trace, |old(disk.trace)| - 1, meta, output)
  {
    ghost var start := disk.trace;
    var synced, at := disk.FsyncDirectory();
    if !synced { return false; }
    ghost var a := disk.trace;
    ok := VerifyReplaced(disk, meta, output);
    GrowsOn(start, a, disk.trace);
    assert disk.trace[at] == a[at];
  }

  /** Between the creation of the temporary file and the deferred clean-up. */
  method CommitTemporary(
    disk: Disk, t: Node, original: Stat, contents: Bytes, output: Bytes, proceed: bool, limit: nat)
    returns (ok: bool, renamed: bool, ghost at: nat)
    requires disk.Valid() && disk.fs.temp == Some(t) && disk.fs.files[t].data == [] && |contents| <= limit
    modifies disk`fs, disk`trace, disk`calls, disk`open
    ensures disk.Valid() && disk.open == old(disk.open)
    ensures !renamed ==> !ok && Grows(old(disk.trace), disk.trace) && disk.fs.temp == Some(t)
    ensures renamed ==> disk.fs.temp.None? && Replaces(old(disk.trace), disk.trace, at, original, contents, output)
    ensures ok ==> Synced(disk.trace, at) && Verified(disk.trace, at, original.meta, output)
  {
    ghost var start := disk.trace;
    at := 0;
    ok := FillTemporary(disk, t, original.meta, output);
    if !ok || !proceed { return false, false, at; }
    ghost var a := disk.trace;
    ok := Reread(disk, original, contents, limit);
    GrowsOn(start, a, disk.trace);
    if !ok { return false, false, at; }
    a := disk.trace;
    ok, at := disk.Rename(t);
    if !ok {
      GrowsOn(start, a, disk.trace);
      return false, false, at;
    }
    ghost var b := disk.trace;
    ok := Conclude(disk, original.meta, output);
    renamed := true;
    ReplacementStands(start, a, b, disk.trace, at, original, contents, output);
  }

  lemma ReplacementStands(
    start: Trace, a: Trace, b: Trace, c: Trace, at: nat, original: Stat, contents: Bytes, output: Bytes)
    requires start != [] && Grows(start, a) && Unchanged(a, |start| - 1, |a|, original, contents)
    requires RenamesOnce(a, b, at, File(output, original.meta, true, true)) && Grows(b, c)
    ensures Replaces(start, c, at, original, contents, output)
  {
    var file := File(output, original.meta, true, true);
    GrowsThenRenames(start, a, b, at, file);
    RenamesThenGrows(start, b, c, at, file);
    UnchangedStays(a, c, |start| - 1, at, original, contents);
  }

  /**
   * replaceConfigAt: true stands for a nil error. Whatever fails, the temporary name stays
   * behind exactly if nothing was renamed and removing it was refused; no descriptor is kept.
   */
  method ReplaceConfigAt(
    disk: Disk, original: Stat, contents: Bytes, output: Bytes, proceed: bool, limit: nat)
    returns (ok: bool, ghost renamed: bool, ghost at: nat)
    requires disk.Valid() && disk.fs.temp.None? && |contents| <= limit
    modifies disk
    ensures disk.Valid() && disk.open == old(disk.open)
    ensures !renamed ==> Grows(old(disk.trace), disk.trace)
    ensures renamed ==> Replaces(old(disk.trace), disk.trace, at, original, contents, output)
    ensures ok ==> renamed && Synced(disk.trace, at) && Verified(disk.trace, at, original.meta, output)
    ensures disk.fs.temp.Some? <==> !renamed && disk.unlinksRefused > old(disk.unlinksRefused)
  {
    ghost var start := disk.trace;
    at, renamed := 0, false;
    var temporary := disk.CreateTemporary(0x180);
    if temporary.None? { return false, renamed, at; }
    ghost var a := disk.trace;
    var wrapped := *;
    if !wrapped {
      var _ := CleanUp(disk, false);
      GrowsOn(start, a, disk.trace);
      return false, renamed, at;
    }
    var done, kept;
    done, kept, at := CommitTemporary(disk, temporary.value, original, contents, output, proceed, limit);
    renamed := kept;
    ghost var b := disk.trace;
    var closed := CleanUp(disk, kept);
    if kept {
      ReplacementKept(start, a, b, disk.trace, at, original, contents, output);
      if done { LaterStill(b, disk.trace, at, original.meta, output); }
    } else {
      GrowsOn(start, a, b);
      GrowsOn(start, b, disk.trace);
    }
    return done && closed, renamed, at;
  }

  /** The deferred function: close, then unlink unless renamed; the unlink's error is ignored. */
  method CleanUp(disk: Disk, renamed: bool) returns (closed: bool)
    requires disk.Valid() && (renamed ==> disk.fs.temp.None?)
    modifies disk
    ensures disk.Valid() && Grows(old(disk.trace), disk.trace) && disk.open == old(disk.open) - 1
    ensures renamed ==> disk.fs.temp.None? && disk.unlinksRefused == old(disk.unlinksRefused)
    ensures !renamed && old(disk.fs.temp.Some?) ==>
      (disk.fs.temp.Some? <==> disk.unlinksRefused > old(disk.unlinksRefused))
  {
    ghost var start := disk.trace;
    closed := disk.Close();
    if !renamed {
      ghost var a := disk.trace;
      var _ := disk.Unlink();
      GrowsOn(start, a, disk.trace);
    }
  }

  lemma ReplacementKept(
    start: Trace, a: Trace, b: Trace, c: Trace, at: nat, original: Stat, contents: Bytes, output: Bytes)
    requires start != [] && a != [] && Grows(start, a) && Replaces(a, b, at, original, contents, output) && Grows(b, c)
    ensures Replaces(start, c, at, original, contents, output)
  {
    var file := File(output, original.meta, true, true);
    GrowsThenRenames(start, a, b, at, file);
    RenamesThenGrows(start, b, c, at, file);
    var found, stated, read :| |a| - 1 <= found <= stated <= read < at
      && WasOriginal(b, found, stated, read, original, contents);
    assert WasOriginal(c, found, stated, read, original, contents);
  }

  lemma LaterStill(b: Trace, c: Trace, at: nat, meta: Meta, output: Bytes)
    requires b <= c && Synced(b, at) && Verified(b, at, meta, output)
    ensures Synced(c, at) && Verified(c, at, meta, output)
  {
    SyncedStill(b, c, at);
    var found, stated, read :| at <= found <= stated <= read < |b| && WasComplete(b, found, stated, read, meta, output);
    assert WasComplete(c, found, stated, read, meta, output);
  }

  // ---------------------------------------------------------------------
  // writeStableJsonAtomic
  // ---------------------------------------------------------------------

  /** None of the `n` calls from number `c` on is refused. */
  predicate Accepted(refuses: nat -> bool, c: nat, n: nat) {
    forall k: nat :: c <= k < c + n ==> !refuses(k)
  }

  lemma AcceptedStepByStep(refuses: nat -> bool, c: nat)
    ensures Accepted(refuses, c, 6) <==>
      && !refuses(c) && !refuses(c + 1) && !refuses(c + 2) && !refuses(c + 3) && !refuses(c + 4) && !refuses(c + 5)
    ensures Accepted(refuses, c, 10) <==>
      Accepted(refuses, c, 6) && Accepted(refuses, c + 6, 3) && !refuses(c + 9)
  {
  }

  /**
   * The refusals after which the JSON writer leaves its temporary name behind. Its calls are create, write,
   * fsync, close, chmod and rename, then those that sync the directory, and a removal. After a failed write
   * or fsync come a close and the removal, which is skipped if the close fails. A failed close is
   * fatal for the name: `finally` closes the stale descriptor once more, that throws, and nothing is removed.
   */
  predicate LeavesName(refuses: nat -> bool, c: nat) {
    && !refuses(c)
    && if refuses(c + 1) then refuses(c + 2) || refuses(c + 3)
       else if refuses(c + 2) then refuses(c + 3) || refuses(c + 4)
       else if refuses(c + 3) then true
       else if refuses(c + 4) then refuses(c + 5)
       else refuses(c + 5) && refuses(c + 6)
  }

  /**
   * The JSON writer; true stands for returning without an exception. The mode is set after the
   * file's sync and so may be lost in a crash, the contents may not.
   */
  method WriteStableJsonAtomic(disk: Disk, data: Bytes, mode: int)
    returns (ok: bool, ghost renamed: bool, ghost at: nat, ghost meta: Meta)
    requires disk.Valid() && disk.fs.temp.None?
    modifies disk
    ensures disk.Valid() && disk.open == old(disk.open)
    ensures !renamed ==> Grows(old(disk.trace), disk.trace)
    ensures renamed ==> meta.mode == mode && RenamesOnce(old(disk.trace), disk.trace, at, File(data, meta, true, false))
    ensures ok ==> renamed && Synced(disk.trace, at)
    ensures renamed <==> Accepted(disk.refuses, old(disk.calls), 6)
    ensures ok <==> Accepted(disk.refuses, old(disk.calls), 10)
    ensures disk.fs.temp.Some? <==> LeavesName(disk.refuses, old(disk.calls))
  {
    ghost var start := disk.trace;
    at, renamed, meta := 0, false, Meta(mode, 0, 0);
    AcceptedStepByStep(disk.refuses, disk.calls);
    var temporary := disk.CreateTemporary(0x180);
    if temporary.None? { return false, renamed, at, meta; }
    ghost var a := disk.trace;
    var filled := FillOrGiveUp(disk, temporary.value, data);
    GrowsOn(start, a, disk.trace);
    if !filled { return false, renamed, at, meta; }
    a := disk.trace;
    ok, renamed, at, meta := MoveAndRemove(disk, temporary.value, data, mode);
    if renamed {
      GrowsThenRenames(start, a, disk.trace, at, File(data, meta, true, false));
    } else {
      GrowsOn(start, a, disk.trace);
    }
  }

  /** The writer's steps on its descriptor, with the clean-up when one of them fails. */
  method FillOrGiveUp(disk: Disk, t: Node, data: Bytes) returns (ok: bool)
    requires disk.Valid() && disk.fs.temp == Some(t) && disk.fs.files[t].data == []
    modifies disk
    ensures disk.Valid() && Grows(old(disk.trace), disk.trace) && disk.open == old(disk.open) - 1
    ensures ok ==> disk.fs.temp == Some(t) && disk.calls == old(disk.calls) + 3
    ensures ok ==> disk.fs.files[t].data == data && disk.fs.files[t].dataSynced
    ensures var c := old(disk.calls); ok <==> !disk.refuses(c) && !disk.refuses(c + 1) && !disk.refuses(c + 2)
    ensures var c := old(disk.calls); !ok ==>
      (disk.fs.temp.Some? <==>
         if disk.refuses(c) then disk.refuses(c + 1) || disk.refuses(c + 2)
         else if disk.refuses(c + 1) then disk.refuses(c + 2) || disk.refuses(c + 3)
         else true)
  {
    ghost var start := disk.trace;
    var holding;
    ok, holding := FillAndClose(disk, t, data);
    if !ok {
      ghost var a := disk.trace;
      GiveUp(disk, holding);
      GrowsOn(start, a, disk.trace);
    }
  }

  /** The rest of the writer once its descriptor is closed. */
  method MoveAndRemove(disk: Disk, t: Node, data: Bytes, mode: int)
    returns (ok: bool, ghost renamed: bool, ghost at: nat, ghost meta: Meta)
    requires disk.Valid() && disk.fs.temp == Some(t) && disk.fs.files[t].data == data && disk.fs.files[t].dataSynced
    modifies disk
    ensures disk.Valid() && disk.open == old(disk.open)
    ensures !renamed ==> Grows(old(disk.trace), disk.trace)
    ensures renamed ==> meta.mode == mode && RenamesOnce(old(disk.trace), disk.trace, at, File(data, meta, true, false))
    ensures ok ==> renamed && Synced(disk.trace, at)
    ensures var c := old(disk.calls);
      && (renamed <==> !disk.refuses(c) && !disk.refuses(c + 1))
      && (ok <==> renamed && Accepted(disk.refuses, c + 2, 3) && !disk.refuses(c + 5))
      && (disk.fs.temp.Some? <==>
            if disk.refuses(c) then disk.refuses(c + 1) else disk.refuses(c + 1) && disk.refuses(c + 2))
  {
    ghost var start := disk.trace;
    var done, kept;
    done, kept, at, meta := MoveIntoPlace(disk, t, mode);
    renamed := kept;
    ghost var b := disk.trace;
    var removed := disk.Unlink();
    if kept {
      RenamesThenGrows(start, b, disk.trace, at, File(data, meta, true, false));
      if done { SyncedStill(b, disk.trace, at); }
    } else {
      GrowsOn(start, b, disk.trace);
    }
    return done && removed, renamed, at, meta;
  }

  lemma SyncedStill(b: Trace, c: Trace, at: nat)
    requires b <= c && Synced(b, at)
    ensures Synced(c, at)
  {
    var i :| at <= i < |b| && b[i].fs.candidates == {b[i].fs.config};
    assert c[i] == b[i];
  }

  /** Write, sync, close; `holding` tells whether the program still believes the descriptor open. */
  method FillAndClose(disk: Disk, t: Node, data: Bytes) returns (ok: bool, holding: Holding)
    requires disk.Valid() && disk.fs.temp == Some(t) && disk.fs.files[t].data == []
    modifies disk`fs, disk`trace, disk`calls, disk`open
    ensures disk.Valid() && Grows(old(disk.trace), disk.trace) && disk.fs.temp == Some(t)
    ensures disk.open == old(disk.open) - (if holding.Open? then 0 else 1)
    ensures ok <==> holding.Released?
    ensures ok ==> disk.fs.files[t].data == data && disk.fs.files[t].dataSynced
    ensures var c := old(disk.calls);
      if disk.refuses(c) then holding.Open? && disk.calls == c + 1
      else if disk.refuses(c + 1) then holding.Open? && disk.calls == c + 2
      else disk.calls == c + 3 && holding == if disk.refuses(c + 2) then Stale else Released
  {
    ghost var start := disk.trace;
    ok := disk.Write(t, data);
    if !ok { return false, Open; }
    ghost var a := disk.trace;
    ok := disk.Fsync(t);
    GrowsOn(start, a, disk.trace);
    if !ok { return false, Open; }
    a := disk.trace;
    ok := disk.Close();
    GrowsOn(start, a, disk.trace);
    return ok, if ok then Released else Stale;
  }

  /** The variable `descriptor`: defined and open, defined but already closed, or undefined. */
  datatype Holding = Open | Stale | Released

  /** `finally` before any rename: close what is still defined, and remove unless that throws. */
  method GiveUp(disk: Disk, holding: Holding)
    requires disk.Valid() && !holding.Released? && disk.fs.temp.Some?
    modifies disk
    ensures disk.Valid() && Grows(old(disk.trace), disk.trace)
    ensures disk.open == old(disk.open) - (if holding.Open? then 1 else 0)
    ensures var c := old(disk.calls);
      disk.fs.temp.Some? <==> holding.Stale? || disk.refuses(c) || disk.refuses(c + 1)
  {
    ghost var start := disk.trace;
    var closed;
    if holding.Open? { closed := disk.Close(); } else { closed := disk.CloseStale(); }
    if closed {
      ghost var a := disk.trace;
      var _ := disk.Unlink();
      GrowsOn(start, a, disk.trace);
    }
  }

  /** chmod by name, rename, and the directory's sync through a descriptor of its own. */
  method MoveIntoPlace(disk: Disk, t: Node, mode: int)
    returns (ok: bool, renamed: bool, ghost at: nat, ghost meta: Meta)
    requires disk.Valid() && disk.fs.temp == Some(t) && disk.fs.files[t].dataSynced
    modifies disk`fs, disk`trace, disk`calls, disk`open
    ensures disk.Valid() && disk.open == old(disk.open)
    ensures !renamed ==> !ok && Grows(old(disk.trace), disk.trace) && disk.fs.temp == Some(t)
    ensures renamed ==> disk.fs.temp.None? && meta.mode == mode
    ensures renamed ==>
      RenamesOnce(old(disk.trace), disk.trace, at, File(old(disk.fs.files[t].data), meta, true, false))
    ensures ok ==> renamed && Synced(disk.trace, at) && disk.calls == old(disk.calls) + 5
    ensures var c := old(disk.calls);
      if disk.refuses(c) then !renamed && disk.calls == c + 1
      else if disk.refuses(c + 1) then !renamed && disk.calls == c + 2
      else renamed && ok == Accepted(disk.refuses, c + 2, 3)
  {
    ghost var start := disk.trace;
    ghost var data := disk.fs.files[t].data;
    at, meta := 0, Meta(mode, 0, 0);
    ok := disk.Chmod(t, mode);
    if !ok { return false, false, at, meta; }
    meta := disk.fs.files[t].meta;
    ghost var a := disk.trace;
    ok, at := disk.Rename(t);
    if !ok {
      GrowsOn(start, a, disk.trace);
      return false, false, at, meta;
    }
    ghost var b := disk.trace;
    GrowsThenRenames(start, a, b, at, File(data, meta, true, false));
    renamed := true;
    ok := SyncDirectory(disk);
    RenamesThenGrows(start, b, disk.trace, at, File(data, meta, true, false));
  }

  /** Open, fsync and close the directory; a failed open is the end of it. */
  method SyncDirectory(disk: Disk) returns (ok: bool)
    requires disk.Valid()
    modifies disk`fs, disk`trace, disk`calls, disk`open
    ensures disk.Valid() && disk.fs.temp == old(disk.fs.temp) && disk.open == old(disk.open)
    ensures Grows(old(disk.trace), disk.trace)
    ensures ok ==> Synced(disk.trace, |old(disk.trace)| - 1) && disk.calls == old(disk.calls) + 3
    ensures ok == Accepted(disk.refuses, old(disk.calls), 3)
  {
    ghost var c := disk.calls;
    var refused := disk.Refused();
    if refused { return false; }
    ghost var start := old(disk.trace);
    disk.open := disk.open + 1;
    ghost var a := disk.trace;
    var synced, at := disk.FsyncDirectory();
    GrowsOn(start, a, disk.trace);
    ghost var b := disk.trace;
    var closed := disk.Close();
    GrowsOn(start, b, disk.trace);
    assert disk.trace[at] == b[at];
    assert Accepted(disk.refuses, c, 3) <==> !disk.refuses(c) && !disk.refuses(c + 1) && !disk.refuses(c + 2);
    return synced && closed;
  }

  /** The run that leaves the name: everything goes well until the close is refused. */
  method RefusedCloseLeavesName(fs: Fs, data: Bytes, mode: int) returns (ok: bool, after: Fs)
    requires Sound(fs) && fs.temp.None?
    ensures !ok && after.temp.Some?
  {
    var disk := new Disk(fs, (k: nat) => k == 3);
    assert disk.refuses(3);
    ghost var renamed, at, meta;
    ok, renamed, at, meta := WriteStableJsonAtomic(disk, data, mode);
    return ok, disk.fs;
  }

  // ---------------------------------------------------------------------
  // Old or new at every moment
  // ---------------------------------------------------------------------

  predicate Alone(trace: Trace, lo: nat, hi: nat) {
    forall i :: lo <= i < hi && i < |trace| ==> !trace[i].who.Others?
  }

  /** While nobody else acts, steps before the rename leave config.json and its crash states as they were. */
  lemma {:induction false} AloneNothingMoves(before: Trace, after: Trace, i: nat)
    requires before != [] && Grows(before, after) && |before| - 1 <= i < |after|
    requires Alone(after, |before|, i + 1)
    ensures LeavesConfig(before[|before| - 1].fs, after[i].fs)
    decreases i
  {
    if i >= |before| {
      AloneNothingMoves(before, after, i - 1);
      assert Harmless(after, i);
      Compose(before[|before| - 1].fs, after[i - 1].fs, after[i].fs);
    } else {
      assert after[i] == before[i];
    }
  }

  lemma Compose(a: Fs, b: Fs, c: Fs)
    requires LeavesConfig(a, b) && LeavesConfig(b, c)
    ensures LeavesConfig(a, c)
  {
  }

  lemma UntouchedUntilRename(before: Trace, after: Trace, at: nat, file: File, i: nat)
    requires before != [] && RenamesOnce(before, after, at, file)
    requires |before| - 1 <= i < at && Alone(after, |before|, |after|)
    ensures LeavesConfig(before[|before| - 1].fs, after[i].fs)
  {
    assert after[i] == after[..at][i];
    AloneNothingMoves(before, after[..at], i);
  }

  lemma UntouchedSinceRename(before: Trace, after: Trace, at: nat, file: File, i: nat)
    requires before != [] && RenamesOnce(before, after, at, file)
    requires at <= i < |after| && Alone(after, |before|, |after|)
    ensures LeavesConfig(after[at].fs, after[i].fs)
  {
    var renamed := after[..at + 1];
    assert renamed[at] == after[at];
    AloneNothingMoves(renamed, after, i);
  }

  /**
   * Undisturbed, config.json is at every moment what it was or the complete new file, and so
   * is whatever a crash at that moment could leave under its name.
   */
  lemma OldOrNew(before: Trace, after: Trace, at: nat, file: File, i: nat, link: Option<Node>)
    requires before != [] && RenamesOnce(before, after, at, file)
    requires |before| <= i < |after| && Alone(after, |before|, |after|)
    requires var start := before[|before| - 1].fs; start.candidates == {start.config}
    requires link in after[i].fs.candidates
    ensures var start := before[|before| - 1].fs;
      && Look(after[i].fs, after[i].fs.config) == (if i < at then Look(start, start.config) else Some(file))
      && (Look(after[i].fs, link) == Look(start, start.config) || Look(after[i].fs, link) == Some(file))
  {
    if i < at {
      UntouchedUntilRename(before, after, at, file, i);
    } else {
      UntouchedUntilRename(before, after, at, file, at - 1);
      UntouchedSinceRename(before, after, at, file, i);
    }
  }

  /** An error before the rename leaves config.json untouched. */
  lemma NoRenameNoChange(before: Trace, after: Trace)
    requires before != [] && Grows(before, after) && Alone(after, |before|, |after|)
    ensures LeavesConfig(before[|before| - 1].fs, after[|after| - 1].fs)
  {
    AloneNothingMoves(before, after, |after| - 1);
  }

  /** The link's file was put there by somebody else after moment `lo`. */
  ghost predicate Foreign(trace: Trace, lo: nat, hi: nat, file: Option<File>) {
    exists j :: lo <= j <= hi && j < |trace| && trace[j].who.Others?
      && Look(trace[j].fs, trace[j].fs.config) == file
  }

  lemma {:induction false} NothingButOthersMove(before: Trace, after: Trace, i: nat)
    requires before != [] && Grows(before, after) && |before| - 1 <= i < |after|
    ensures var now := Look(after[i].fs, after[i].fs.config); var start := before[|before| - 1].fs;
      now == Look(start, start.config) || Foreign(after, |before|, i, now)
    decreases i
  {
    if i >= |before| {
      NothingButOthersMove(before, after, i - 1);
      assert Harmless(after, i);
    } else {
      assert after[i] == before[i];
    }
  }

  /** Whatever others do, config.json always holds the old file, the complete output, or their last word. */
  lemma OldNewOrForeign(before: Trace, after: Trace, at: nat, file: File, i: nat)
    requires before != [] && RenamesOnce(before, after, at, file) && |before| <= i < |after|
    ensures var now := Look(after[i].fs, after[i].fs.config); var start := before[|before| - 1].fs;
      || now == Look(start, start.config)
      || now == Some(file)
      || Foreign(after, |before|, i, now)
  {
    var now := Look(after[i].fs, after[i].fs.config);
    if i < at {
      assert after[..at][i] == after[i];
      NothingButOthersMove(before, after[..at], i);
      if Foreign(after[..at], |before|, i, now) {
        var j :| |before| <= j <= i && j < at && after[..at][j].who.Others?
          && Look(after[..at][j].fs, after[..at][j].fs.config) == now;
        assert after[..at][j] == after[j];
      }
    } else {
      assert after[..at + 1][at] == after[at];
      NothingButOthersMove(after[..at + 1], after, i);
    }
  }

  predicate Shows(fs: Fs, node: Node, p: File -> bool) {
    node in fs.files && p(fs.files[node])
  }

  /** A difference that lasts from the start until `at`: another link, another text, or other metadata. */
  predicate Differs(trace: Trace, lo: nat, at: nat, original: Stat, contents: Bytes) {
    || (forall i :: lo <= i < at && i < |trace| ==> trace[i].fs.config != Some(original.node))
    || (forall i :: lo <= i < at && i < |trace| ==>
          !Shows(trace[i].fs, original.node, (f: File) => f.data == contents))
    || (forall i :: lo <= i < at && i < |trace| ==>
          !Shows(trace[i].fs, original.node, (f: File) => f.meta == original.meta && |f.data| == original.size))
  }

  lemma LastingChangePreventsRename(
    before: Trace, after: Trace, at: nat, original: Stat, contents: Bytes, output: Bytes)
    requires before != [] && Differs(after, |before| - 1, at, original, contents)
    ensures !Replaces(before, after, at, original, contents, output)
  {
    if Replaces(before, after, at, original, contents, output) {
      var found, stated, read :| |before| - 1 <= found <= stated <= read < at
        && WasOriginal(after, found, stated, read, original, contents);
      assert after[found].fs.config == Some(original.node);
      assert Shows(after[stated].fs, original.node,
          (f: File) => f.meta == original.meta && |f.data| == original.size);
      assert Shows(after[read].fs, original.node, (f: File) => f.data == contents);
    }
  }
}
