/**
 The prefix walk of `DirectoryCreate` (src/tools.cpp:148-186): which
 sub-directory names the loop hands to the backend, in order, and how a
 path is classified as belonging to the ActiveSync device.
 */
module Walker {
  import opened CppString

  /** The separators the walk searches for with `find_first_of("/\\", pos)`. */
  const Seps: set<char> := {'/', '\\'}

  /**
   The inline test shared by `DirectoryCreate` and `FileExists`: a path of
   more than two characters starting with one backslash (but not two)
   names a file on the ActiveSync device.
   */
  predicate IsDeviceSyncPath(p: string) {
    |p| > 2 && p[0] == '\\' && p[1] != '\\'
  }

  /** A device-sync path is exactly a backslash, a non-backslash and at least one more character. */
  lemma DeviceSyncPathShape(p: string)
    ensures IsDeviceSyncPath(p) <==>
      exists c: char, rest: string :: c != '\\' && |rest| > 0 && p == ['\\', c] + rest
  {
    if IsDeviceSyncPath(p) {
      assert p == ['\\', p[1]] + p[2..];
    }
  }

  /**
   Where one pass of the loop body cuts the path when its search starts at
   `pos`: the next separator, except when that separator is the very first
   character. Then a second backslash marks a network path and the cut skips
   the machine and the share names; otherwise the cut skips the device name.
   */
  function Cut(d: Str, pos: SizeT): (c: SizeT)
    ensures c == NPOS || pos <= c < |d|
  {
    var p := FindFirstOf(d, Seps, pos);
    if p == 0 then
      if CharAt(d, 1) == '\\' then
        var q := FindFirstOf(d, Seps, 2);
        FindFirstOf(d, Seps, Inc(q))
      else
        FindFirstOf(d, Seps, 1)
    else
      p
  }

  /** `c` is the first separator of `d` at or after `from`, or `npos` when none is left. */
  predicate IsFirstSep(d: string, from: nat, c: SizeT) {
    if c == NPOS then
      forall i | from <= i < |d| :: d[i] !in Seps
    else
      from <= c < |d| && d[c] in Seps && forall i | from <= i < c :: d[i] !in Seps
  }

  /**
   One cut described without the searches: the first separator from `pos`,
   unless that is a separator at position 0. Then, with a backslash second,
   it is the first separator after the one that ends the machine name (that
   position plus one in `size_t` arithmetic); otherwise it is the first
   separator after the lead character.
   */
  predicate IsCut(d: Str, pos: SizeT, c: SizeT) {
    if pos == 0 && |d| > 0 && d[0] in Seps then
      if CharAt(d, 1) == '\\' then
        exists q: SizeT :: IsFirstSep(d, 2, q) && IsFirstSep(d, Inc(q), c)
      else
        IsFirstSep(d, 1, c)
    else
      IsFirstSep(d, pos, c)
  }

  /** `FindFirstOf` over the separators finds the first separator. */
  lemma FirstSepOf(d: Str, from: SizeT)
    ensures IsFirstSep(d, from, FindFirstOf(d, Seps, from))
  {
    FindFirstOfIsFirst(d, Seps, from);
  }

  /** There is only one first separator. */
  lemma FirstSepUnique(d: string, from: nat, a: SizeT, b: SizeT)
    requires IsFirstSep(d, from, a) && IsFirstSep(d, from, b)
    ensures a == b
  {
  }

  /** The description holds of exactly one position, the cut the loop body computes. */
  lemma CutCharacterised(d: Str, pos: SizeT, c: SizeT)
    ensures IsCut(d, pos, c) <==> c == Cut(d, pos)
  {
    var p := FindFirstOf(d, Seps, pos);
    FirstSepOf(d, pos);
    if pos == 0 && |d| > 0 && d[0] in Seps {
      assert p == 0;
      if CharAt(d, 1) == '\\' {
        var q := FindFirstOf(d, Seps, 2);
        FirstSepOf(d, 2);
        FirstSepOf(d, Inc(q));
        if IsCut(d, pos, c) {
          var q' :| IsFirstSep(d, 2, q') && IsFirstSep(d, Inc(q'), c);
          FirstSepUnique(d, 2, q, q');
          FirstSepUnique(d, Inc(q), FindFirstOf(d, Seps, Inc(q)), c);
        }
        if c == Cut(d, pos) {
          assert IsFirstSep(d, 2, q) && IsFirstSep(d, Inc(q), c);
        }
      } else {
        FirstSepOf(d, 1);
        if IsCut(d, pos, c) {
          FirstSepUnique(d, 1, FindFirstOf(d, Seps, 1), c);
        }
      }
    } else {
      assert p != 0;
      if IsCut(d, pos, c) {
        FirstSepUnique(d, pos, p, c);
      }
    }
  }

  /**
   The `subDir` values the loop issues from loop-head position `pos` on:
   each pass issues `std::string(d, 0, cut)` and continues after the cut
   until the cut is `npos`.
   */
  function WalkFrom(d: Str, pos: SizeT): (r: seq<string>)
    requires pos <= |d|
    ensures |r| > 0
    decreases |d| - pos
  {
    var c := Cut(d, pos);
    var subDir := Head(d, c);
    if c == NPOS then [subDir] else [subDir] + WalkFrom(d, c + 1)
  }

  /** The walk from `pos` ends with the whole path. */
  lemma {:induction false} WalkFromLast(d: Str, pos: SizeT)
    requires pos <= |d|
    ensures var r := WalkFrom(d, pos); r[|r| - 1] == d
    decreases |d| - pos
  {
    var c := Cut(d, pos);
    WalkStep(d, pos);
    if c != NPOS {
      WalkFromLast(d, c + 1);
      var rest := WalkFrom(d, c + 1);
      assert WalkFrom(d, pos) == [d[..c]] + rest;
    }
  }

  /** Every `subDir` of the walk from `pos` is a prefix of the path at least `pos` long. */
  lemma {:induction false} WalkFromBounds(d: Str, pos: SizeT)
    requires pos <= |d|
    ensures var r := WalkFrom(d, pos);
      forall k | 0 <= k < |r| :: r[k] <= d && pos <= |r[k]|
    decreases |d| - pos
  {
    var c := Cut(d, pos);
    if c != NPOS {
      WalkFromBounds(d, c + 1);
      WalkStep(d, pos);
      var r := WalkFrom(d, pos);
      var rest := WalkFrom(d, c + 1);
      assert r == [d[..c]] + rest;
      assert r[0] <= d && pos <= |r[0]|;
      assert forall k | 1 <= k < |r| :: r[k] == rest[k - 1];
    } else {
      WalkStep(d, pos);
    }
  }

  /** Each `subDir` of the walk is longer than the one before. */
  lemma {:induction false} WalkFromIncreasing(d: Str, pos: SizeT)
    requires pos <= |d|
    ensures var r := WalkFrom(d, pos);
      forall j, k | 0 <= j < k < |r| :: |r[j]| < |r[k]|
    decreases |d| - pos
  {
    var c := Cut(d, pos);
    if c != NPOS {
      WalkFromIncreasing(d, c + 1);
      WalkFromBounds(d, c + 1);
      WalkStep(d, pos);
      var r := WalkFrom(d, pos);
      var rest := WalkFrom(d, c + 1);
      assert r == [d[..c]] + rest;
      assert forall k | 1 <= k < |r| :: r[k] == rest[k - 1];
    }
  }

  /** One pass of the loop: the `subDir` at the cut, then the rest of the walk. */
  lemma WalkStep(d: Str, pos: SizeT)
    requires pos <= |d|
    ensures var c := Cut(d, pos);
      WalkFrom(d, pos) == if c == NPOS then [d] else [d[..c]] + WalkFrom(d, c + 1)
  {
  }

  /** Every `subDir` `DirectoryCreate` issues for `d`, in order; an empty path issues none. */
  function Prefixes(d: Str): (r: seq<string>)
    ensures r == [] <==> d == []
  {
    if |d| == 0 then [] else WalkFrom(d, 0)
  }

  /**
   Every issued `subDir` is a prefix of the path, each is longer than the
   one before (so none repeats), and the last one is the path itself.
   */
  lemma PrefixesShape(d: Str)
    ensures var r := Prefixes(d);
      && (r != [] ==> r[|r| - 1] == d)
      && (forall k | 0 <= k < |r| :: r[k] <= d)
      && (forall j, k | 0 <= j < k < |r| :: |r[j]| < |r[k]|)
  {
    if |d| > 0 {
      WalkFromLast(d, 0);
      WalkFromBounds(d, 0);
      WalkFromIncreasing(d, 0);
    }
  }

  /**
   Reference walk without any special root: one prefix for every separator
   at or after `from`, ending just before that separator, then the whole path.
   */
  function SplitPrefixes(d: string, from: nat): seq<string>
    decreases |d| - from
  {
    if from >= |d| then [d]
    else if d[from] in Seps then [d[..from]] + SplitPrefixes(d, from + 1)
    else SplitPrefixes(d, from + 1)
  }

  /** The number of separators in `s`. */
  function SepCount(s: string): nat {
    if |s| == 0 then 0
    else (if s[0] in Seps then 1 else 0) + SepCount(s[1..])
  }

  /** Characters that are not separators add nothing to the reference walk. */
  lemma {:induction false} SplitPrefixesSkip(d: string, from: nat, to: nat)
    requires from <= to <= |d|
    requires forall i | from <= i < to :: d[i] !in Seps
    ensures SplitPrefixes(d, from) == SplitPrefixes(d, to)
    decreases |d| - from
  {
    if from < to {
      SplitPrefixesSkip(d, from + 1, to);
    }
  }

  /** The reference walk issues one prefix per separator plus the whole path, which comes last. */
  lemma {:induction false} SplitPrefixesCount(d: string, from: nat)
    requires from <= |d|
    ensures var r := SplitPrefixes(d, from);
      |r| == SepCount(d[from..]) + 1 && r[|r| - 1] == d
    decreases |d| - from
  {
    if from == |d| {
      assert d[from..] == [];
    } else {
      SplitPrefixesCount(d, from + 1);
      assert d[from..][1..] == d[from + 1..];
    }
  }

  /**
   Every prefix of the reference walk but the last ends just before a
   separator at or after `from`, and the lengths strictly increase.
   */
  lemma {:induction false} SplitPrefixesCuts(d: string, from: nat)
    requires from <= |d|
    ensures var r := SplitPrefixes(d, from);
      && (forall k | 0 <= k < |r| - 1 ::
            from <= |r[k]| < |d| && d[|r[k]|] in Seps && r[k] == d[..|r[k]|])
      && (forall k | 0 <= k < |r| :: from <= |r[k]| <= |d|)
      && (forall j, k | 0 <= j < k < |r| :: |r[j]| < |r[k]|)
    decreases |d| - from
  {
    if from < |d| {
      SplitPrefixesCuts(d, from + 1);
      SplitPrefixesCount(d, from + 1);
      var r' := SplitPrefixes(d, from + 1);
      if d[from] in Seps {
        var r := SplitPrefixes(d, from);
        assert r == [d[..from]] + r';
        assert forall k | 1 <= k < |r| :: r[k] == r'[k - 1];
      }
    }
  }

  /** Every separator at or after `from` yields the prefix that ends just before it. */
  lemma {:induction false} SplitPrefixesComplete(d: string, from: nat)
    requires from <= |d|
    ensures forall i | from <= i < |d| && d[i] in Seps :: d[..i] in SplitPrefixes(d, from)
    decreases |d| - from
  {
    if from < |d| {
      SplitPrefixesComplete(d, from + 1);
    }
  }

  /**
   Past the root, the loop is the reference walk: once the search cannot
   find a separator at position 0, every cut is simply the next separator.
   */
  lemma {:induction false} WalkFromIsSplit(d: Str, pos: SizeT)
    requires pos <= |d|
    requires pos > 0 || |d| == 0 || d[0] !in Seps
    ensures WalkFrom(d, pos) == SplitPrefixes(d, pos)
    decreases |d| - pos
  {
    var p := FindFirstOf(d, Seps, pos);
    FindFirstOfIsFirst(d, Seps, pos);
    assert p != 0;
    if p == NPOS {
      SplitPrefixesSkip(d, pos, |d|);
    } else {
      SplitPrefixesSkip(d, pos, p);
      WalkFromIsSplit(d, p + 1);
    }
  }

  /** A name segment holds no separator. */
  predicate NoSep(s: string) {
    forall i | 0 <= i < |s| :: s[i] !in Seps
  }

  /**
   A path that does not start with a separator is walked separator by
   separator: one `subDir` per separator, each ending just before it, and
   then the whole path.
   */
  lemma {:induction false} PlainPathPrefixes(d: Str)
    requires |d| > 0 && d[0] !in Seps
    ensures var r := Prefixes(d);
      && |r| == SepCount(d) + 1
      && (forall k | 0 <= k < |r| - 1 ::
            |r[k]| < |d| && d[|r[k]|] in Seps && r[k] == d[..|r[k]|])
      && (forall i | 0 <= i < |d| && d[i] in Seps :: d[..i] in r)
  {
    WalkFromIsSplit(d, 0);
    SplitPrefixesCount(d, 0);
    SplitPrefixesCuts(d, 0);
    SplitPrefixesComplete(d, 0);
    assert d[0..] == d;
  }

  /**
   A path ending in a separator issues its last directory twice: once
   without the separator and once with it. Only the file system treats the
   two names as one directory.
   */
  lemma TrailingSeparatorRepeats(name: Str, s: char)
    requires |name| > 0 && NoSep(name) && s in Seps && |name| + 1 < NPOS
    ensures Prefixes(name + [s]) == [name, name + [s]]
  {
    var d: Str := name + [s];
    WalkFromIsSplit(d, 0);
    SplitPrefixesSkip(d, 0, |name|);
    assert d[..|name|] == name;
  }

  /**
   A network path `\\machine\share...` is first cut after the share name,
   so its first `subDir` is `\\machine\share` and nothing shorter is ever
   issued. The leading character may be either separator; the second must
   be a backslash.
   */
  lemma NetworkPathRoot(lead: char, machine: string, s1: char, share: string, tail: string)
    requires lead in Seps && s1 in Seps && NoSep(machine) && NoSep(share)
    requires tail == [] || tail[0] in Seps
    requires |machine| + |share| + |tail| + 3 < NPOS
    ensures var d := [lead, '\\'] + machine + [s1] + share + tail;
      var root := [lead, '\\'] + machine + [s1] + share;
      var r := Prefixes(d);
      r[0] == root && forall k | 0 <= k < |r| :: |root| <= |r[k]|
  {
    var d: Str := [lead, '\\'] + machine + [s1] + share + tail;
    var root := [lead, '\\'] + machine + [s1] + share;
    NetworkPathCut(lead, machine, s1, share, tail);
    assert Head(d, Cut(d, 0)) == root;
    FirstCutIsShortest(d);
  }

  /** The first cut of a network path falls right after the share name, or is `npos` when nothing follows it. */
  lemma NetworkPathCut(lead: char, machine: string, s1: char, share: string, tail: string)
    requires lead in Seps && s1 in Seps && NoSep(machine) && NoSep(share)
    requires tail == [] || tail[0] in Seps
    requires |machine| + |share| + |tail| + 3 < NPOS
    ensures var d := [lead, '\\'] + machine + [s1] + share + tail;
      var root := [lead, '\\'] + machine + [s1] + share;
      Cut(d, 0) == if tail == [] then NPOS else |root|
  {
    var d: Str := [lead, '\\'] + machine + [s1] + share + tail;
    var root := [lead, '\\'] + machine + [s1] + share;
    FindFirstOfAt(d, Seps, 0, 0);
    assert CharAt(d, 1) == '\\';
    var m := 2 + |machine|;
    assert forall i | 2 <= i < m :: d[i] == machine[i - 2];
    FindFirstOfAt(d, Seps, 2, m);
    assert Inc(m) == m + 1;
    assert forall i | m + 1 <= i < |root| :: d[i] == share[i - m - 1];
    if tail == [] {
      assert d == root;
      FindFirstOfNone(d, Seps, m + 1);
    } else {
      assert d[|root|] == tail[0];
      FindFirstOfAt(d, Seps, m + 1, |root|);
    }
  }

  /**
   The walk starts with the prefix before the first cut and never issues
   anything shorter.
   */
  lemma FirstCutIsShortest(d: Str)
    requires |d| > 0
    ensures var first := Head(d, Cut(d, 0));
      var r := Prefixes(d);
      r[0] == first && forall k | 0 <= k < |r| :: |first| <= |r[k]|
  {
    WalkFromFirst(d, 0);
  }

  /** The walk from `pos` starts at the first cut and never issues anything shorter. */
  lemma WalkFromFirst(d: Str, pos: SizeT)
    requires pos <= |d|
    ensures var first := Head(d, Cut(d, pos));
      var r := WalkFrom(d, pos);
      r[0] == first && forall k | 0 <= k < |r| :: |first| <= |r[k]|
  {
    var c := Cut(d, pos);
    WalkStep(d, pos);
    if c != NPOS {
      WalkFromBounds(d, c + 1);
      var r := WalkFrom(d, pos);
      var rest := WalkFrom(d, c + 1);
      assert r == [d[..c]] + rest;
      assert forall k | 1 <= k < |r| :: r[k] == rest[k - 1];
    }
  }

  /** The three cuts of the walk over a machine-only network path. */
  lemma MachineOnlyCuts(lead: char, machine: string)
    requires lead in Seps && NoSep(machine)
    requires |machine| + 2 < NPOS
    ensures var d := [lead, '\\'] + machine;
      Cut(d, 0) == 0 && Cut(d, 1) == 1 && Cut(d, 2) == NPOS
  {
    var d: Str := [lead, '\\'] + machine;
    assert Cut(d, 0) == 0 by {
      FindFirstOfAt(d, Seps, 0, 0);
      assert CharAt(d, 1) == '\\';
      assert forall i | 2 <= i < |d| :: d[i] == machine[i - 2];
      FindFirstOfNone(d, Seps, 2);
      assert Inc(NPOS) == 0;
    }
    assert Cut(d, 1) == 1 by {
      FindFirstOfAt(d, Seps, 1, 1);
    }
    assert Cut(d, 2) == NPOS by {
      assert forall i | 2 <= i < |d| :: d[i] == machine[i - 2];
      FindFirstOfNone(d, Seps, 2);
    }
  }

  /**
   A network path naming only a machine, with no separator after it, makes
   the second search return `npos`; `npos + 1` wraps to 0, the search from
   0 finds the leading separator, and the walk issues the empty string and
   the lone leading separator before the whole path.
   */
  lemma MachineOnlyPathWraps(lead: char, machine: string)
    requires lead in Seps && NoSep(machine)
    requires |machine| + 2 < NPOS
    ensures var d := [lead, '\\'] + machine;
      Prefixes(d) == ["", [lead], d]
  {
    var d: Str := [lead, '\\'] + machine;
    MachineOnlyCuts(lead, machine);
    var w2 := WalkFrom(d, 2);
    assert w2 == [d] by { WalkStep(d, 2); }
    var w1 := WalkFrom(d, 1);
    assert w1 == [[lead], d] by { WalkStep(d, 1); assert d[..1] == [lead]; }
    var w0 := WalkFrom(d, 0);
    assert w0 == ["", [lead], d] by { WalkStep(d, 0); }
  }

  /**
   A path `\dev...` whose first segment is the device name is first cut
   after that name, so its first `subDir` is `\dev` and nothing shorter is
   issued. The same cut applies after a leading `/`, but only a leading
   backslash on a path longer than two characters sends it to the device.
   */
  lemma DeviceSyncPathRoot(lead: char, dev: string, tail: string)
    requires lead in Seps && |dev| > 0 && NoSep(dev)
    requires tail == [] || tail[0] in Seps
    requires |dev| + |tail| + 1 < NPOS
    ensures var d := [lead] + dev + tail;
      var r := Prefixes(d);
      && (IsDeviceSyncPath(d) <==> lead == '\\' && |d| > 2)
      && r[0] == [lead] + dev
      && forall k | 0 <= k < |r| :: 1 + |dev| <= |r[k]|
  {
    var d: Str := [lead] + dev + tail;
    var root := [lead] + dev;
    DeviceSyncPathCut(lead, dev, tail);
    assert Head(d, Cut(d, 0)) == root;
    FirstCutIsShortest(d);
  }

  /** The first cut of a device path falls right after the device name, or is `npos` when nothing follows it. */
  lemma DeviceSyncPathCut(lead: char, dev: string, tail: string)
    requires lead in Seps && |dev| > 0 && NoSep(dev)
    requires tail == [] || tail[0] in Seps
    requires |dev| + |tail| + 1 < NPOS
    ensures var d := [lead] + dev + tail;
      Cut(d, 0) == if tail == [] then NPOS else 1 + |dev|
  {
    var d: Str := [lead] + dev + tail;
    var root := [lead] + dev;
    FindFirstOfAt(d, Seps, 0, 0);
    assert d[1] == dev[0];
    assert CharAt(d, 1) != '\\';
    assert forall i | 1 <= i < |root| :: d[i] == dev[i - 1];
    if tail == [] {
      assert d == root;
      FindFirstOfNone(d, Seps, 1);
    } else {
      assert d[|root|] == tail[0];
      FindFirstOfAt(d, Seps, 1, |root|);
    }
  }

  /**
   A device path whose device name is a single character is created on the
   device starting with `\c`, yet `\c` itself is too short to be
   classified as a device path.
   */
  lemma ShortDeviceRootIsNotDeviceSyncPath(c: char, tail: string)
    requires c !in Seps && |tail| > 0 && tail[0] in Seps
    requires |tail| + 2 < NPOS
    ensures var d := ['\\', c] + tail;
      IsDeviceSyncPath(d) && Prefixes(d)[0] == ['\\', c] && !IsDeviceSyncPath(Prefixes(d)[0])
  {
    DeviceSyncPathRoot('\\', [c], tail);
    assert ['\\'] + [c] + tail == ['\\', c] + tail;
  }

  /**
   A network path written with two forward slashes is not recognised as
   one: the walk issues the lone `/` and then `//server` on their own.
   */
  lemma ForwardSlashNetworkPath(server: string, tail: string)
    requires NoSep(server) && |tail| > 0 && tail[0] in Seps
    requires |server| + |tail| + 2 < NPOS
    ensures var d := ['/', '/'] + server + tail;
      var r := Prefixes(d);
      |r| >= 3 && r[0] == ['/'] && r[1] == ['/', '/'] + server
  {
    var d: Str := ['/', '/'] + server + tail;
    var m := 2 + |server|;
    ForwardSlashCuts(server, tail);
    var w2 := WalkFrom(d, 2);
    assert |w2| >= 2 && w2[0] == ['/', '/'] + server by {
      WalkStep(d, 2);
      assert w2 == [d[..m]] + WalkFrom(d, m + 1);
      assert d[..m] == ['/', '/'] + server;
    }
    assert WalkFrom(d, 0) == [['/']] + w2 by {
      WalkStep(d, 0);
      assert d[..1] == ['/'];
    }
  }

  /** The first two cuts of the walk over `//server/...`. */
  lemma ForwardSlashCuts(server: string, tail: string)
    requires NoSep(server) && |tail| > 0 && tail[0] in Seps
    requires |server| + |tail| + 2 < NPOS
    ensures var d := ['/', '/'] + server + tail;
      Cut(d, 0) == 1 && Cut(d, 2) == 2 + |server|
  {
    var d: Str := ['/', '/'] + server + tail;
    var m := 2 + |server|;
    assert Cut(d, 0) == 1 by {
      FindFirstOfAt(d, Seps, 0, 0);
      assert CharAt(d, 1) == '/';
      FindFirstOfAt(d, Seps, 1, 1);
    }
    assert Cut(d, 2) == m by {
      assert forall i | 2 <= i < m :: d[i] == server[i - 2];
      assert d[m] == tail[0];
      FindFirstOfAt(d, Seps, 2, m);
    }
  }
}
