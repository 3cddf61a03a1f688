# Path handling of the Condor2Nav file tools

This project models the path logic of Condor2Nav's `src/tools.cpp`. It covers:

- how a path is classified as belonging to the ActiveSync device or to the local disk;
- how `DirectoryCreate` walks a path and creates one directory per prefix;
- how `FileExists` routes its question;
- how `FilePathSplit` cuts a path into a directory part and a file name.

Everything is a pure function over `seq<char>`, with two exceptions. `Tools.DirectoryCreateWalk` replays the `while` loop of `DirectoryCreate` step by step. `Tools.NextCut` performs the searches at the top of that loop's body.

Modules:

- `CppString` (cppstring.dfy) holds the parts of `std::string` the code relies on:
  - `size_t` positions with `npos`. `npos + 1` wraps around to 0. The source does not fix the width of `size_t`; the model assumes 64 bits. Only `npos + 1 == 0` and lengths below `npos` matter, so a 32-bit build behaves the same.
  - `find_first_of` and `find_last_of`.
  - The prefix constructor `std::string(s, 0, n)`.
  - The terminating NUL that `operator[]` reads at position `size()`.

  A `Str` is a string shorter than `npos`, as every `std::string` is.
- `Walker` (walker.dfy) covers the classification test and the prefix walk:
  - `Prefixes(d)` is exactly the sequence of `subDir` values the loop issues.
  - `SplitPrefixes` is an independent reference walk with one prefix per separator.
  - The lemmas about network paths (`\\machine\share`), device paths (`\Dev`) and plain paths.
- `Backend` (backend.dfy) holds the two stores a directory can be created in. Each store has:
  - the names already taken by a directory or a file;
  - a failure oracle, which maps a name to the `GetLastError` code its create fails with.

  It also defines one create call (`CreateOne`) and a run of them that stops at the first refused one (`CreateAll`).
- `Tools` (tools.dfy) covers `DirectoryCreate` as a function and as a loop, and `FileExists`.
- `PathSplit` (pathsplit.dfy) covers `FilePathSplit`.

Behaviour of the code as written, which the model follows:

- A `subDir` is the text before a separator, without the separator itself. For `C:\data\cfg` the walk issues `C:`, `C:\data`, `C:\data\cfg`.
- A network path `\\machine\share\dir` issues `\\machine\share` first, then `\\machine\share\dir`. The share root is issued without a trailing separator.
- A network path with nothing after the machine name, `\\machine`, goes wrong in the second search:
  - the search returns `npos`;
  - `npos + 1` wraps to 0;
  - the search from 0 finds the leading separator.

  The walk therefore issues `""`, then `\`, then `\\machine` (`Walker.MachineOnlyPathWraps`). The model keeps this `size_t` arithmetic as written.
- Only a backslash in the second position marks a network path. The first position may hold either separator.
  - `//server/share` is walked like a device path: it issues `/` and `//server` on their own (`Walker.ForwardSlashNetworkPath`).
  - `/\server\share` is walked like a network path.
- The device-name skip also applies after a leading `/`. Only a leading backslash on a path longer than two characters sends the creates to the device.
- A one-character device name such as in `\D\x` is created on the device as `\D`. Yet `\D` is too short to count as a device path itself (`Walker.ShortDeviceRootIsNotDeviceSyncPath`).
- `CreateDirectory` fails with `ERROR_ALREADY_EXISTS` (183) when a file already holds the name, and the walk tolerates that too. The model's `Taken` therefore covers both directories and files.
- `FileExists` answers a network path through the local open, like any path that is not a device path.
- `FilePathSplit` only splits at a backslash. A `/` stays in the file name.

## Model

| member | source | states |
|---|---|---|
| CppString.Inc | src/tools.cpp:163 | `pos + 1` on a `size_t` wraps around past `npos` (64-bit width assumed), so `npos + 1` is 0 |
| CppString.FindFirstOf | src/tools.cpp:157 | the result is `npos` or a position at or after the start that holds one of the searched characters |
| CppString.FindFirstOfIsFirst | src/tools.cpp:157 | no position between the start and the result holds a searched character, and none at all when the result is `npos` |
| CppString.FindLastOf | src/tools.cpp:226 | the result is the last position holding the character; `npos` exactly when the character does not occur |
| CppString.Head | src/tools.cpp:170 | `std::string(d, 0, pos)` is a prefix of `d`: `pos` characters long when `pos` is inside `d`, all of `d` for `npos` |
| CppString.CharAt | src/tools.cpp:159 | reading one past the last character gives the terminating NUL |
| Walker.DeviceSyncPathShape | src/tools.cpp:151-152 | a device path is exactly a backslash, then a character other than a backslash, then at least one more character |
| Walker.Cut | src/tools.cpp:157-169 | one pass of the loop cuts at `npos` or at a position inside the path no earlier than where its search started |
| Walker.WalkFrom | src/tools.cpp:156-184 | every loop run from a valid position issues at least one `subDir` |
| Walker.WalkFromLast | src/tools.cpp:182-183 | the last `subDir` the loop issues is the whole path |
| Walker.WalkFromBounds | src/tools.cpp:170 | every `subDir` is a prefix of the path and no shorter than the loop's starting position |
| Walker.WalkFromIncreasing | src/tools.cpp:157-183 | each issued `subDir` is strictly longer than the one before |
| Walker.Prefixes | src/tools.cpp:154 | an empty `dirName` issues no create at all, and a non-empty one issues at least one |
| Walker.PrefixesShape | src/tools.cpp:156-183 | every issued `subDir` is a prefix of `dirName`, lengths strictly increase, and the last one issued is `dirName` itself |
| Walker.WalkFromIsSplit | src/tools.cpp:157-183 | once the first position is not a separator, the loop issues exactly the reference walk, which cuts before every separator and then issues the whole path |
| Walker.PlainPathPrefixes | src/tools.cpp:157-183 | for a path not starting with a separator: one create per separator plus one; each non-final `subDir` ends right before a `/` or `\`; every separator produces its prefix |
| Walker.NetworkPathRoot | src/tools.cpp:158-164 | for `\\machine\share...` the first `subDir` is `\\machine\share` and no shorter prefix such as `\\machine` is ever issued |
| Walker.MachineOnlyPathWraps | src/tools.cpp:158-163 | for `\\machine` with no later separator, `npos + 1` wraps to 0 and the walk issues `""`, the lead separator, then the path |
| Walker.DeviceSyncPathRoot | src/tools.cpp:151-152 | for `\Dev...` the first `subDir` is `\Dev`, nothing shorter is issued, and the path is a device path exactly when it starts with a backslash and is longer than two characters |
| Walker.CutCharacterised | src/tools.cpp:157-169 | the description of a cut by first separators (the network and device skips included) holds of exactly one position, the one the loop computes |
| Walker.TrailingSeparatorRepeats | src/tools.cpp:157-170 | a path `name` + separator issues `name` and then `name` + separator, two names for the same directory |
| Walker.FirstCutIsShortest | src/tools.cpp:156-170 | the first issued `subDir` is the prefix before the first cut, and no later one is shorter |
| Walker.ShortDeviceRootIsNotDeviceSyncPath | src/tools.cpp:165-170 | for `\c\...` the device walk first issues `\c`, which is itself not classified as a device path |
| Walker.ForwardSlashNetworkPath | src/tools.cpp:157-167 | `//server/...` is not skipped as a network path: the walk first issues `/` and then `//server` |
| Backend.CreateOne | src/tools.cpp:172-180 | a create fails exactly when the name is free and refused; an existing name is tolerated; a local refusal is `EOperationFailed` with the name and its code; only the name can be added |
| Backend.CreateAll | src/tools.cpp:156-184 | the names issued are a prefix of the walk: all of it on success, and ending at the refused name on failure |
| Backend.CreateAllEffect | src/tools.cpp:177-179 | after success every name is taken; after failure the last name is refused and reported as its channel reports it; only issued names become directories |
| Backend.CreateAllStops | src/tools.cpp:179 | once a create fails, no later name is attempted |
| Backend.CreateAllSucceedsIff | src/tools.cpp:177-179 | a walk succeeds exactly when no name is refused, leaving aside names the same walk created earlier |
| Backend.CreateAllIdempotent | src/tools.cpp:178 | repeating a walk that succeeded succeeds again and changes nothing, because "already exists" is tolerated |
| Tools.ChannelFor | src/tools.cpp:150-152 | a path goes to the ActiveSync channel exactly when it passes the device-path test |
| Tools.DirectoryCreate | src/tools.cpp:148-186 | an empty name changes nothing; a device path leaves the local disk untouched and any other path leaves the device untouched; the issued names are the walk, or its prefix up to the refused one |
| Tools.DirectoryCreateReports | src/tools.cpp:172-180 | on success `dirName` is taken on its backend; a local failure is `EOperationFailed` with the refused `subDir` and its error code; a device failure names the `subDir` |
| Tools.NextCut | src/tools.cpp:157-169 | the searches return the first separator from `pos`. For a separator at position 0 they return the first separator from 1 when the second character is not a backslash. When it is a backslash, they return the first separator after the one that ends the machine name |
| Tools.DirectoryCreateWalk | src/tools.cpp:154-185 | the `while` loop, which stops at the first refused create, has exactly the effect of the functional `DirectoryCreate` |
| Tools.WalkLoopStep | src/tools.cpp:170-183 | one pass of the loop issues the next prefix; the walk either goes on after a tolerated create or ends at a refused one |
| Tools.DirectoryCreateIdempotent | src/tools.cpp:177-178 | running `DirectoryCreate` again after it succeeded succeeds, issues the same names and changes nothing |
| Tools.DirectoryCreateSucceedsIff | src/tools.cpp:172-180 | `DirectoryCreate` succeeds exactly when none of its prefixes is refused by the backend the path is classified to |
| Tools.DirectoryCreateOnlyAddsIssued | src/tools.cpp:172-180 | only directories change, only on the classified backend, and only issued names are added |
| Tools.DirectoryCreateKeepsFileExists | src/tools.cpp:198-211 | creating directories never changes any `FileExists` answer |
| Tools.FileExists | src/tools.cpp:198-212 | a device path is answered by the device alone; any other path by the local open alone |
| PathSplit.FilePathSplit | src/tools.cpp:224-235 | `dir + file` is the path; `file` has no backslash; with no backslash `dir` is empty and `file` is the path; otherwise `dir` ends with a backslash |
| PathSplit.FilePathSplitUnique | src/tools.cpp:226-234 | any empty-or-backslash-terminated `dir` followed by a backslash-free `file` that spells the path is the split returned |

## Left out

- `DDFF2DDMMFF`, `DDFF2DDMMSS`, `Deg2Rad`, `Rad2Deg` (src/tools.cpp:54-136): floating-point arithmetic and `stringstream` formatting.
- `KmH2MS` (src/tools.cpp:103-106): rounding through `double` arithmetic.
- `Exception` and `EOperationFailed` (src/tools.cpp:244-286): message holders. A failure value carries the `subDir` and the error code instead. The message text and `Convert(error)` are not modelled.
- `CreateDirectory`, `GetLastError` and `std::ifstream` are foreign calls. They become the `Store` oracle:
  - a taken name fails with `ERROR_ALREADY_EXISTS`;
  - a refused name fails with its code;
  - any other name is created;
  - a local open succeeds exactly for the names in `files`.
- `CActiveSync` (its singleton, `DirectoryCreate`, `FileExists`, `Read`) is not part of this model. Its `DirectoryCreate` is assumed to behave like the local side:
  - an existing name is tolerated;
  - a free name is created unless the device's `refused` map lists it;
  - a listed name fails.

  The result of `activeSync.DirectoryCreate(subDir)` is discarded at src/tools.cpp:174. So a device refusal ending the walk (`Backend.CreateAllStops` on the ActiveSync channel) assumes that `CActiveSync::DirectoryCreate` throws. Its `FileExists` is assumed to answer from the device's `files`.
- Backend.Store: names are compared as exact strings. There is no case folding, `/` and `\` are not treated as the same, and a trailing separator is not dropped. A `char` stands for one byte of the ANSI code page. Windows treats `a`, `A`, `a\` and `a/` as one directory, and the model does not. A `dirName` ending in a separator issues its last directory twice (`Walker.TrailingSeparatorRepeats`). Only the file system makes the second create harmless, by answering `ERROR_ALREADY_EXISTS`. So the model can report a refusal of `a\` right after creating `a`, where the real system succeeds. `Backend.CreateAllSucceedsIff`, `Tools.DirectoryCreateSucceedsIff` and `Tools.DirectoryCreateOnlyAddsIssued` therefore speak about exact names, not about directories.
- The `CActiveSync::Instance()` lookups (src/tools.cpp:173, 205) are not modelled. The device is the `device` store of the `Host` value passed in, so no connection state is modelled.
- src/istream.cpp (`CIStream`) is left out because it is I/O plumbing. It reads a whole file into a buffer and temporarily changes the working directory, and it depends on `CStream::Type()` and `CActiveSync::Read`, which are not part of this model. Its only path logic is the call to `FilePathSplit`, which is modelled. As written, the throw at src/istream.cpp:58 happens before the working directory is restored at src/istream.cpp:61-62, so a failed open leaves the process in the file's directory.
- A three-way classification (local, device, network share) and a count of root segments to skip do not exist in the code. The code has one boolean device test, and the walker skips the roots inline. The model follows the code.
- Concurrency and the process-wide singleton: the code is single-threaded and the model has no shared state.
