/**
 The two places a directory can be created: the local file system, reached
 through `CreateDirectory`/`GetLastError`, and the ActiveSync device, reached
 through `CActiveSync::DirectoryCreate`. Both are abstract stores: the names
 already taken, plus an oracle saying which names a create refuses and why.
 */
module Backend {
  import opened Wrappers

  /** The `GetLastError` code `DirectoryCreate` tolerates (winerror.h). */
  const ERROR_ALREADY_EXISTS: nat := 183

  /** A `GetLastError` code for a create that failed for another reason. */
  type FailureCode = c: nat | c != ERROR_ALREADY_EXISTS witness 5

  /**
   One backend. `dirs` and `files` are the names already taken; `refused`
   is the failure oracle: a free name it maps is refused with that code.
   */
  datatype Store = Store(dirs: set<string>, files: set<string>, refused: map<string, FailureCode>)

  /** Which backend a path is routed to. */
  datatype Channel = LocalDisk | ActiveSync

  /** Why a walk stopped: the `EOperationFailed` thrown for a local create, or a device-side refusal. */
  datatype Failure =
    | OperationFailed(subDir: string, code: FailureCode)
    | ChannelFailed(subDir: string)

  /** The result of a sequence of creates: the store after it, the names issued, and the failure that stopped it. */
  datatype Report = Report(store: Store, issued: seq<string>, failure: Option<Failure>)

  /** A directory or a file already holds the name. */
  predicate Taken(st: Store, name: string) {
    name in st.dirs || name in st.files
  }

  /** A create of `name` that the walk does not tolerate, on either channel. */
  predicate Fatal(st: Store, name: string) {
    !Taken(st, name) && name in st.refused
  }

  /** The failure a refused create of `name` reports on `ch`. */
  function FailureOf(st: Store, ch: Channel, name: string): Failure
    requires name in st.refused
  {
    match ch
    case LocalDisk => OperationFailed(name, st.refused[name])
    case ActiveSync => ChannelFailed(name)
  }

  /**
   One create call. On the local disk a taken name makes `CreateDirectory`
   fail with `ERROR_ALREADY_EXISTS`, which is tolerated; a refused name fails
   with its code and raises `EOperationFailed` naming it. The device is
   assumed to tolerate existing names the same way and to fail otherwise.
   */
  function CreateOne(st: Store, ch: Channel, name: string): (r: (Store, Option<Failure>))
    ensures r.1.Some? <==> Fatal(st, name)
    ensures r.1.Some? ==> r.0 == st && r.1.value.subDir == name
    ensures r.1.Some? ==> r.1.value == FailureOf(st, ch, name)
    ensures r.1.None? ==> Taken(r.0, name) && r.0.dirs == st.dirs + (if Taken(st, name) then {} else {name})
    ensures r.0.files == st.files && r.0.refused == st.refused
  {
    if Taken(st, name) then
      (st, None)
    else if name in st.refused then
      match ch
      case LocalDisk => (st, Some(OperationFailed(name, st.refused[name])))
      case ActiveSync => (st, Some(ChannelFailed(name)))
    else
      (st.(dirs := st.dirs + {name}), None)
  }

  /**
   Issue `names` in order until one create is not tolerated. The names
   issued are a prefix of `names`: all of them when nothing failed, and
   ending at the failing one otherwise.
   */
  function CreateAll(st: Store, ch: Channel, names: seq<string>): (r: Report)
    ensures r.issued <= names
    ensures r.failure.None? ==> r.issued == names
    ensures r.failure.Some? ==> |r.issued| > 0 && r.failure.value.subDir == r.issued[|r.issued| - 1]
    decreases |names|
  {
    if |names| == 0 then
      Report(st, [], None)
    else
      var (st1, f) := CreateOne(st, ch, names[0]);
      if f.Some? then
        Report(st1, [names[0]], f)
      else
        var rest := CreateAll(st1, ch, names[1..]);
        assert names == [names[0]] + names[1..];
        Report(rest.store, [names[0]] + rest.issued, rest.failure)
  }

  /**
   What a walk leaves behind: after success every name is taken; after a
   failure the failing name is refused and reported as its channel reports
   it; only directories change, and only issued names are added.
   */
  lemma {:induction false} CreateAllEffect(st: Store, ch: Channel, names: seq<string>)
    ensures var r := CreateAll(st, ch, names);
      && (r.failure.None? ==> forall k | 0 <= k < |names| :: Taken(r.store, names[k]))
      && (r.failure.Some? ==>
            && Fatal(r.store, r.failure.value.subDir)
            && r.failure.value == FailureOf(r.store, ch, r.failure.value.subDir))
      && r.store.files == st.files && r.store.refused == st.refused
      && st.dirs <= r.store.dirs
      && (forall x | x in r.store.dirs :: x in st.dirs || x in r.issued)
    decreases |names|
  {
    if |names| > 0 {
      var (st1, f) := CreateOne(st, ch, names[0]);
      if f.None? {
        CreateAllEffect(st1, ch, names[1..]);
        var rest := CreateAll(st1, ch, names[1..]);
        assert names == [names[0]] + names[1..];
        forall k | 0 <= k < |names| && rest.failure.None? ensures Taken(rest.store, names[k]) {
          if k == 0 {
            assert Taken(st1, names[0]);
          } else {
            assert names[k] == names[1..][k - 1];
          }
        }
      }
    }
  }

  /** Extending a walk that has not failed by one more name is one more create. */
  lemma {:induction false} CreateAllSnoc(st: Store, ch: Channel, names: seq<string>, name: string)
    requires CreateAll(st, ch, names).failure.None?
    ensures var r := CreateAll(st, ch, names);
      var one := CreateOne(r.store, ch, name);
      CreateAll(st, ch, names + [name]) == Report(one.0, names + [name], one.1)
    decreases |names|
  {
    if |names| > 0 {
      var (st1, f) := CreateOne(st, ch, names[0]);
      assert (names + [name])[1..] == names[1..] + [name];
      CreateAllSnoc(st1, ch, names[1..], name);
      assert names == [names[0]] + names[1..];
    }
  }

  /** Once a create fails, nothing after it is attempted. */
  lemma {:induction false} CreateAllStops(st: Store, ch: Channel, names: seq<string>, more: seq<string>)
    requires CreateAll(st, ch, names).failure.Some?
    ensures CreateAll(st, ch, names + more) == CreateAll(st, ch, names)
    decreases |names|
  {
    var (st1, f) := CreateOne(st, ch, names[0]);
    assert (names + more)[0] == names[0];
    if f.None? {
      assert (names + more)[1..] == names[1..] + more;
      CreateAllStops(st1, ch, names[1..], more);
    }
  }

  /**
   A walk succeeds exactly when no name in it is refused, counting a name
   an earlier create in the same walk has already made as taken.
   */
  lemma {:induction false} CreateAllSucceedsIff(st: Store, ch: Channel, names: seq<string>)
    ensures CreateAll(st, ch, names).failure.None? <==>
      forall k | 0 <= k < |names| :: names[k] in names[..k] || !Fatal(st, names[k])
    decreases |names|
  {
    if |names| > 0 {
      var (st1, f) := CreateOne(st, ch, names[0]);
      CreateAllSucceedsIff(st1, ch, names[1..]);
      if f.None? {
        forall k | 1 <= k < |names|
          ensures (names[k] in names[..k] || !Fatal(st, names[k])) <==>
                  (names[1..][k - 1] in names[1..][..k - 1] || !Fatal(st1, names[1..][k - 1]))
        {
          assert names[..k] == [names[0]] + names[1..][..k - 1];
        }
      }
    }
  }

  /** Repeating a walk that succeeded succeeds again and changes nothing. */
  lemma {:induction false} CreateAllIdempotent(st: Store, ch: Channel, names: seq<string>)
    requires CreateAll(st, ch, names).failure.None?
    ensures var r := CreateAll(st, ch, names);
      CreateAll(r.store, ch, names) == Report(r.store, names, None)
  {
    var r := CreateAll(st, ch, names);
    CreateAllEffect(st, ch, names);
    AllTakenCreateNothing(r.store, ch, names);
  }

  /** Creating names that are all taken issues them all and changes nothing. */
  lemma {:induction false} AllTakenCreateNothing(st: Store, ch: Channel, names: seq<string>)
    requires forall k | 0 <= k < |names| :: Taken(st, names[k])
    ensures CreateAll(st, ch, names) == Report(st, names, None)
    decreases |names|
  {
    if |names| > 0 {
      AllTakenCreateNothing(st, ch, names[1..]);
      assert names == [names[0]] + names[1..];
    }
  }
}
