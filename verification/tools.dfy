/**
 `DirectoryCreate` and `FileExists` (src/tools.cpp:148-212): classify the
 path, then walk or query the local disk or the ActiveSync device.
 */
module Tools {
  import opened Wrappers
  import opened CppString
  import opened Walker
  import opened Backend

  /** Both backends the tools can reach. */
  datatype Host = Host(local: Store, device: Store)

  /** What `DirectoryCreate` leaves behind: both backends, the `subDir` values issued, and the failure, if any. */
  datatype Outcome = Outcome(host: Host, issued: seq<string>, failure: Option<Failure>)

  /** The backend the inline classification picks for `path`. */
  function ChannelFor(path: string): (ch: Channel)
    ensures ch == ActiveSync <==> IsDeviceSyncPath(path)
  {
    if IsDeviceSyncPath(path) then ActiveSync else LocalDisk
  }

  function Select(host: Host, ch: Channel): Store {
    match ch
    case LocalDisk => host.local
    case ActiveSync => host.device
  }

  function Update(host: Host, ch: Channel, st: Store): Host {
    match ch
    case LocalDisk => host.(local := st)
    case ActiveSync => host.(device := st)
  }

  /**
   The effect of `DirectoryCreate(dirName)`: every prefix the walk produces
   is created in order on the backend the path is classified to, until one
   create is refused. The other backend is never touched, an empty name
   issues nothing, and the names issued are the walk up to and including
   the refused one.
   */
  function DirectoryCreate(host: Host, dirName: Str): (o: Outcome)
    ensures |dirName| == 0 ==> o == Outcome(host, [], None)
    ensures IsDeviceSyncPath(dirName) ==> o.host.local == host.local
    ensures !IsDeviceSyncPath(dirName) ==> o.host.device == host.device
    ensures o.issued <= Prefixes(dirName)
    ensures o.failure.None? ==> o.issued == Prefixes(dirName)
    ensures o.failure.Some? ==> |o.issued| > 0 && o.failure.value.subDir == o.issued[|o.issued| - 1]
  {
    var ch := ChannelFor(dirName);
    var r := CreateAll(Select(host, ch), ch, Prefixes(dirName));
    Outcome(Update(host, ch, r.store), r.issued, r.failure)
  }

  /**
   How `DirectoryCreate` ends: on success `dirName` itself is taken on its
   backend; on a local failure it raises `EOperationFailed` naming the
   refused `subDir` and the error code; on the device the channel failure
   names it.
   */
  lemma DirectoryCreateReports(host: Host, dirName: Str)
    ensures var o := DirectoryCreate(host, dirName);
      && (o.failure.None? && |dirName| > 0 ==> Taken(Select(o.host, ChannelFor(dirName)), dirName))
      && (o.failure.Some? && !IsDeviceSyncPath(dirName) ==>
            var subDir := o.failure.value.subDir;
            subDir in host.local.refused && o.failure.value == OperationFailed(subDir, host.local.refused[subDir]))
      && (o.failure.Some? && IsDeviceSyncPath(dirName) ==>
            var subDir := o.failure.value.subDir;
            subDir in host.device.refused && o.failure.value == ChannelFailed(subDir))
  {
    var ch := ChannelFor(dirName);
    CreateAllEffect(Select(host, ch), ch, Prefixes(dirName));
    PrefixesShape(dirName);
  }

  /**
   The searches at the top of the loop body as written: the next separator
   from `pos`; a separator at position 0 followed by a backslash is a network
   path, cut after the machine and share names, any other is a device path,
   cut after the device name.
   */
  method NextCut(dirName: Str, pos: SizeT) returns (cut: SizeT)
    ensures IsCut(dirName, pos, cut)
  {
    cut := FindFirstOf(dirName, Seps, pos);
    FirstSepOf(dirName, pos);
    if cut == 0 {
      if CharAt(dirName, 1) == '\\' {
        // network path: skip the machine name and the share name
        cut := FindFirstOf(dirName, Seps, 2);
        ghost var machineEnd := cut;
        FirstSepOf(dirName, 2);
        cut := FindFirstOf(dirName, Seps, Inc(cut));
        FirstSepOf(dirName, Inc(machineEnd));
        assert IsFirstSep(dirName, 2, machineEnd) && IsFirstSep(dirName, Inc(machineEnd), cut);
      } else {
        // ActiveSync path: skip the device name
        cut := FindFirstOf(dirName, Seps, 1);
        FirstSepOf(dirName, 1);
      }
    }
  }

  /**
   The loop of `DirectoryCreate` as written: search for the next separator,
   skip the network or device root on a separator at position 0, issue the
   prefix before the cut, and step past it until the search returns `npos`.
   A refused local create stops the walk with `EOperationFailed`.
   */
  method DirectoryCreateWalk(host: Host, dirName: Str) returns (o: Outcome)
    ensures o == DirectoryCreate(host, dirName)
  {
    var ch := ChannelFor(dirName);
    var store := Select(host, ch);
    ghost var store0 := store;
    var issued: seq<string> := [];
    assert CreateAll(store0, ch, issued) == Report(store, issued, None);
    if |dirName| != 0 {
      var pos: SizeT := 0;
      while pos != NPOS
        invariant pos == NPOS || pos <= |dirName|
        invariant issued + (if pos == NPOS then [] else WalkFrom(dirName, pos)) == Prefixes(dirName)
        invariant CreateAll(store0, ch, issued) == Report(store, issued, None)
        decreases if pos == NPOS then 0 else |dirName| + 1 - pos
      {
        ghost var start := pos;
        pos := NextCut(dirName, pos);
        assert pos == Cut(dirName, start) by { CutCharacterised(dirName, start, pos); }
        var subDir := Head(dirName, pos);
        var (next, failure) := CreateOne(store, ch, subDir);
        WalkLoopStep(dirName, start, store0, ch, issued, store);
        issued := issued + [subDir];
        if failure.Some? {
          WalkResult(host, dirName, store, issued, failure);
          return Outcome(Update(host, ch, store), issued, failure);
        }
        store := next;
        if pos != NPOS {
          pos := pos + 1;
        }
      }
    }
    assert issued == Prefixes(dirName);
    WalkResult(host, dirName, store, issued, None);
    o := Outcome(Update(host, ch, store), issued, None);
  }

  /** The outcome of `DirectoryCreate` is what the create calls of its walk report. */
  lemma WalkResult(host: Host, dirName: Str, store: Store, issued: seq<string>, failure: Option<Failure>)
    requires var ch := ChannelFor(dirName);
      CreateAll(Select(host, ch), ch, Prefixes(dirName)) == Report(store, issued, failure)
    ensures DirectoryCreate(host, dirName) == Outcome(Update(host, ChannelFor(dirName), store), issued, failure)
  {
  }

  /**
   One pass of the loop keeps its invariant: the pass issues the next prefix
   of the walk, and either the create is tolerated and the walk goes on, or
   it fails and the whole walk ends right there.
   */
  lemma WalkLoopStep(d: Str, start: SizeT, store0: Store, ch: Channel, issued: seq<string>, store: Store)
    requires start <= |d|
    requires issued + WalkFrom(d, start) == Prefixes(d)
    requires CreateAll(store0, ch, issued) == Report(store, issued, None)
    ensures var c := Cut(d, start);
      var subDir := Head(d, c);
      var step := CreateOne(store, ch, subDir);
      && (step.1.None? ==>
            && CreateAll(store0, ch, issued + [subDir]) == Report(step.0, issued + [subDir], None)
            && issued + [subDir] + (if c == NPOS then [] else WalkFrom(d, c + 1)) == Prefixes(d))
      && (step.1.Some? ==>
            CreateAll(store0, ch, Prefixes(d)) == Report(store, issued + [subDir], step.1))
  {
    var c := Cut(d, start);
    var subDir := Head(d, c);
    var rest := if c == NPOS then [] else WalkFrom(d, c + 1);
    WalkStep(d, start);
    assert WalkFrom(d, start) == [subDir] + rest;
    assert Prefixes(d) == issued + [subDir] + rest;
    CreateAllSnoc(store0, ch, issued, subDir);
    var step := CreateOne(store, ch, subDir);
    if step.1.Some? {
      CreateAllStops(store0, ch, issued + [subDir], rest);
    }
  }

  /**
   `FileExists`: a device-sync path is answered by the device alone; any
   other path by whether the local open succeeds, with the device never
   consulted.
   */
  function FileExists(host: Host, fileName: string): (r: bool)
    ensures IsDeviceSyncPath(fileName) ==> (r <==> fileName in host.device.files)
    ensures !IsDeviceSyncPath(fileName) ==> (r <==> fileName in host.local.files)
  {
    fileName in Select(host, ChannelFor(fileName)).files
  }

  /**
   `DirectoryCreate` is idempotent: once it has succeeded, running it again
   on the resulting backends issues the same names, succeeds, and changes
   nothing.
   */
  lemma DirectoryCreateIdempotent(host: Host, dirName: Str)
    requires DirectoryCreate(host, dirName).failure.None?
    ensures var o := DirectoryCreate(host, dirName);
      DirectoryCreate(o.host, dirName) == Outcome(o.host, o.issued, None)
  {
    var ch := ChannelFor(dirName);
    var o := DirectoryCreate(host, dirName);
    CreateAllIdempotent(Select(host, ch), ch, Prefixes(dirName));
    assert Select(o.host, ch) == CreateAll(Select(host, ch), ch, Prefixes(dirName)).store;
  }

  /**
   `DirectoryCreate` succeeds exactly when none of the prefixes it walks is
   refused by the backend the path is classified to.
   */
  lemma DirectoryCreateSucceedsIff(host: Host, dirName: Str)
    ensures DirectoryCreate(host, dirName).failure.None? <==>
      forall k | 0 <= k < |Prefixes(dirName)| :: !Fatal(Select(host, ChannelFor(dirName)), Prefixes(dirName)[k])
  {
    var names := Prefixes(dirName);
    PrefixesShape(dirName);
    CreateAllSucceedsIff(Select(host, ChannelFor(dirName)), ChannelFor(dirName), names);
    forall k | 0 <= k < |names| ensures names[k] !in names[..k] {
      forall j | 0 <= j < k ensures names[..k][j] != names[k] {
        assert |names[j]| < |names[k]|;
      }
    }
  }

  /**
   `DirectoryCreate` only ever adds directories, and only names it issued,
   on the backend the path is classified to; files and refusals stay as
   they were.
   */
  lemma DirectoryCreateOnlyAddsIssued(host: Host, dirName: Str)
    ensures var o := DirectoryCreate(host, dirName);
      var before := Select(host, ChannelFor(dirName));
      var after := Select(o.host, ChannelFor(dirName));
      && after.files == before.files && after.refused == before.refused
      && before.dirs <= after.dirs
      && (forall x | x in after.dirs :: x in before.dirs || x in o.issued)
  {
    var ch := ChannelFor(dirName);
    CreateAllEffect(Select(host, ch), ch, Prefixes(dirName));
  }

  /** Creating directories never changes what `FileExists` answers, for any name. */
  lemma DirectoryCreateKeepsFileExists(host: Host, dirName: Str, fileName: string)
    ensures FileExists(DirectoryCreate(host, dirName).host, fileName) == FileExists(host, fileName)
  {
    var ch := ChannelFor(dirName);
    var o := DirectoryCreate(host, dirName);
    DirectoryCreateOnlyAddsIssued(host, dirName);
    var other := if ch == LocalDisk then ActiveSync else LocalDisk;
    assert Select(o.host, other) == Select(host, other);
  }
}
