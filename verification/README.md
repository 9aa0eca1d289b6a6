# gpgfs, modelled and proved

gpgfs mounts a directory of `.gpg` files as a read-only tree of their decrypted contents, and stops
cleanly when it is told to. This project models the parts of it that carry state and proves what they
promise. `dafny verify dfyconfig.toml` checks everything.

| file | about |
|---|---|
| `Paths.dfy` | path strings: `strings.Split`, `TrimSuffix`, `filepath.Clean`, `Rel`, `Split`, and why strings and component lists are interchangeable |
| `Placing.dfy` | the mounted tree as a value, what adding files one at a time makes of it, and how such a run ends |
| `SecretTree.dfy` | the encrypted directory as a value, the tree it should give, and the theorems on mounting |
| `SecretPaths.dfy` | what a mounted store shows at a path, by looking the path up in the source |
| `StoreExamples.dfy` | concrete stores that do not mount as one would expect |
| `Preload.dfy` | `Fuse.Preload` over mutable inodes: walk, callback, directory chain, `AddChild` |
| `Walker.dfy` | the struct walker, with paths as Go slices whose arrays siblings share |
| `Container.dfy`, `ContainerProtocol.dfy` | the container as one goroutine sees it, and its operations as interleaved steps of any number of threads |
| `SecretBox.dfy`, `Base64Quantum.dfy`, `Base64Url.dfy` | sealing, and the padded base64url armour of section 5 of RFC 4648 |
| `Runs.dfy` | induction along runs of any transition system |
| `MountProtocol.dfy` | start, main loop and shutdown of the mount command as a labelled transition system |
| `Semaphore.dfy` | the counting semaphore over a Go channel |
| `FileReads.dfy` | windowed reads in 64-bit offsets, and the life of locked buffers |
| `Config.dfy` | the defaulting loops, and the order of defaults and settings in `Load` |

Methods model the imperative code and are proved against functions; the lemmas then say what those
functions mean. Outside effects are parameters: decryption is any function from bytes to bytes or
failure, a sidecar is absent, loaded or broken, the keystream and the authenticator of a box are any
functions of key, nonce and text, and slices grow by any policy.

## Where the code and the promise differ

- A file whose stem is empty, `.` or `..` loses its name when its path is relativised and cleaned. The
  mounted tree is the declared one exactly when no such stem occurs where it collapses
  (`SecretTree.MountsExactlyFaithful`; the store `a/.gpg` in `StoreExamples.EmptyStemCounterexample`).
- Such a file can take the place of a directory that a later file needs. Adding to a file inode then
  panics, so `Preload` finishes exactly when every sidecar loads and no file is in the way of a later
  one (`SecretTree.FinishesExactly`; the store `a/.gpg`, `a/b.gpg` in `StoreExamples.EmptyStemPanics`).
  Files that keep their names never make it panic.
- Or it takes the place of another file: `a/.gpg` and `a.gpg` both go to `a`, and the one walked later is
  silently not mounted (`StoreExamples.SharedPlaceCounterexample`). A file shares its place with no file
  that keeps its name, other than itself, exactly when it keeps its own (`SecretTree.PlacesUnique`).
- `README.md:31` promises a view of every `.gpg` file. A file `a.gpg` beside a folder `a` that holds a
  mountable file is silently hidden by the folder (`pkg/fuse/fuse.go:213`); the model follows the code.
  The promise is kept exactly when every sidecar loads, every file keeps its name and none is hidden by a
  folder (`SecretTree.EveryFileVisible`; a store in `StoreExamples.HiddenFileCounterexample`).
- Exit status 0 does not mean that every component stopped without error. It does exactly when no stop
  call failed on the way (`MountProtocol.CleanExitExactly`). A failing unmount is only logged and the
  exit status is 0 (`MountProtocol.ExitZeroDespiteUnmountFailure`); a failing telemetry shutdown counts
  itself out before its panic, which main can outrun (`MountProtocol.ExitZeroDespitePanic`). No run with
  status 0 leaves such a panic behind exactly when telemetry is off (`MountProtocol.NoPendingPanicExactly`).
- At the deadline of the context `done` stays open, so with a mounted file system only the grace timer
  ends the run (`MountProtocol.ExpiryEndsByTimerOnly`).
- A read panics for an empty file, which has no enclave, for an offset outside the file, and for an end
  offset beyond 64 bits, and for nothing else (`FileReads.WindowExactly`; an offset past the end of three
  bytes in `FileReads.PastEndCounterexample`). Such a read ends the process, and nothing else does
  (`FileReads.CrashesExactly`). So a client can read to the end of a file exactly when it is
  not empty and the request made there does not overflow (`FileReads.ReadOnCompletes`).
- The go-fuse server in use does not call `Done` on a result whose bytes are empty, so every read at the
  end of a file leaves its locked buffer behind. All buffers are destroyed in the end exactly when no read
  was answered with nothing (`FileReads.LeaksExactly`; one such read in `FileReads.EndOfFileLeaks`).
- `Decode` accepts line breaks and stray bits in the last character, so `Encode` does not always give an
  accepted text back. `Base64Url.EncodeDecodeExactly` says exactly when it does;
  `Base64Url.StrayBitsCounterexample` and `Base64Url.LineBreakCounterexample` are texts it does not give back.

## Model

| member | source | states |
|---|---|---|
| SecretPaths.PathsResolve | pkg/fuse/fuse.go:60-217 | when every sidecar loads and every file keeps its name, a path of the mounted tree is a file with a content and attributes exactly when the source has the encrypted file there, regular, readable and decrypting to that content, with that sidecar, and no mountable file lies below the path; and it is a directory exactly when it is the root or one lies below |
| SecretPaths.SidecarsAreApplied | pkg/fuse/fuse.go:152-203 | a visible file has the attributes of its sidecar, or mode 0400 and owner 0 without one |
| SecretPaths.CandidatesExactly | pkg/fuse/fuse.go:62-112 | the files that the walk mounts are exactly those that looking up a path with the suffix finds regular, readable and decryptable, each with the sidecar of its own path |
| StoreExamples.SidecarExample | pkg/fuse/fuse.go:152-203 | `/s/a.gpg` with the sidecar `/s/a.yml` mounts as `a` with exactly the sidecar's attributes |
| StoreExamples.SidecarBeforePanic | pkg/fuse/fuse.go:123-213 | below a file inode, a broken sidecar of a file in it stops the walk before the panic, and one of a file deeper down comes after it |
| SecretTree.PreloadMeetsSpecification | pkg/fuse/fuse.go:60-217 | for every source directory: the walk finishes exactly when no mountable file has a broken sidecar or stands in the way of a later one; then every path resolves as the source declares exactly when all names survive cleaning; and when they do, it never panics |
| SecretTree.MountsExactlyFaithful | pkg/fuse/fuse.go:112-215 | when every sidecar loads, the tree shows the content of each mountable file that no folder hides, and directories at exactly the proper prefixes, if and only if every stem is kept by relativising and cleaning |
| SecretTree.FinishesExactly | pkg/fuse/fuse.go:123-213 | for files of any names: the walk finishes exactly when every sidecar loads and no file resolves to a place above a later one before a directory is there |
| SecretTree.FaithfulIsClear | pkg/fuse/fuse.go:123-148 | files that keep their names are never in each other's way |
| StoreExamples.EmptyStemCounterexample | pkg/fuse/fuse.go:114-123 | a store whose only file is `a/.gpg` does not mount as declared, for any ciphertext that decrypts |
| StoreExamples.EmptyStemPanics | pkg/fuse/fuse.go:114-213 | a store of `a/.gpg` and `a/b.gpg` makes the walk panic |
| StoreExamples.HiddenFileCounterexample | pkg/fuse/fuse.go:213 | a store of `a/b.gpg` and `a.gpg` mounts as declared and does not show `a.gpg` |
| Placing.EndExactly | pkg/fuse/fuse.go:123-213 | for any list of files: the walk ends, finished, stopped or panicking, as the first callback that does not finish, which is told from the places of the files alone |
| Placing.InodesOf | pkg/fuse/fuse.go:123-213 | for any list of files: after a finished walk a path exists exactly when it leads to some file, and is a file exactly when a file came first there, whose content it holds |
| SecretTree.EveryPrefixShows | pkg/fuse/fuse.go:123-215 | after each callback of a run the tree is exactly the declared tree of the files walked so far |
| SecretTree.NoFileOnTheWay | pkg/fuse/fuse.go:123-213 | in the walk of any source directory whose files keep their names, when a file's turn comes no component of its path and not its own place resolves to a file, so nothing is displaced |
| SecretTree.WalkOrdered | pkg/fuse/fuse.go:60-62 | in a lexical walk of any nesting no file belongs at or above the target of a later one, so folder `a` is done before `a.gpg` |
| SecretTree.WalkGivesCandidates | pkg/fuse/fuse.go:60-148 | what the callback computes on path strings is the list of mountable files by components, in walk order |
| SecretTree.PlacementAtFile | pkg/fuse/fuse.go:87-123 | suffix test, trimming, `Rel`, `Clean` and `Split` on the path string give the folder and name that the source tree gives |
| SecretTree.RelOfFile | pkg/fuse/fuse.go:114-115 | the relative path of a trimmed file is its folder and stem, with the three special stems resolved away |
| SecretTree.FaithfulExactly | pkg/fuse/fuse.go:114-123 | a file keeps its own path exactly when its stem is neither empty nor a dot name that its folder absorbs |
| SecretTree.TargetsInvertible | pkg/fuse/fuse.go:112-148 | the place computed for a file leads back to its source path, by joining and putting `.gpg` back, exactly when the file keeps its name |
| SecretTree.PlacesUnique | pkg/fuse/fuse.go:112-148 | a file keeps its name exactly when no other file that keeps its name is given the same place |
| SecretTree.NoCompetition | pkg/fuse/fuse.go:112-213 | in the walk of a source directory whose files keep their names no two files are given one place |
| StoreExamples.SharedPlaceCounterexample | pkg/fuse/fuse.go:112-213 | of `a/.gpg` and `a.gpg` only the first is mounted, under the name `a` |
| SecretTree.FailureLeavesEarlierFiles | pkg/fuse/fuse.go:152-191 | when files keep their names: after a sidecar error the tree is that of the earlier files plus at most empty directories on the failing file's path |
| Placing.EndLeaves | pkg/fuse/fuse.go:123-191 | for any list of files: a walk that panics leaves the tree of the files before, and one that stops at a sidecar leaves that tree with the directories of the failing file |
| SecretTree.DirectoriesAreNeeded | pkg/fuse/fuse.go:123-148 | every directory of a mounted tree but the root has a file below it |
| SecretTree.EveryFileVisible | pkg/fuse/fuse.go:60-217 | the walk of any source directory shows every mountable file with its content exactly when every sidecar loads, every file keeps its name, and none shares its path with a folder that holds another |
| Placing.PlaceAllAppend | pkg/fuse/fuse.go:60-62 | a walk over two parts in a row does the second only if the first finished |
| Paths.SplitJoin | pkg/fuse/fuse.go:124 | splitting a joined list of components gives the components back |
| Paths.JoinSplit | pkg/fuse/fuse.go:124 | joining what a string was split into gives the string back |
| Paths.CleanRooted | pkg/fuse/fuse.go:246 | a cleaned absolute path consists of real names, and cleaning it again changes nothing |
| Paths.CleanLast | pkg/fuse/fuse.go:115-123 | cleaning drops an empty last component and ".", and ".." takes the one before it along |
| Paths.RelJoins | pkg/fuse/fuse.go:115 | the result of `Rel`, joined to the base, leads to the target, for any two absolute paths |
| Paths.SplitFileJoin | pkg/fuse/fuse.go:123-127 | file name and non-empty directory components of a cleaned path are its last component and all the others |
| Paths.SuffixOfPath | pkg/fuse/fuse.go:87-114 | testing and trimming the suffix on the whole path is testing and trimming it on the name |
| Paths.ExtensionNotLess | pkg/fuse/fuse.go:60 | a name never sorts before its own beginning |
| Preload.Fuse.Preload | pkg/fuse/fuse.go:53-218 | leaves the inode tree of the specification, and finishes, stops or panics as it says |
| Preload.Fuse.WalkDir | pkg/fuse/fuse.go:60-62 | walking any source node changes the tree as mounting its files in listing order does, up to the first error, also when a listing breaks off |
| Preload.Fuse.Visit | pkg/fuse/fuse.go:62-217 | the callback mounts a regular, readable, decryptable file with the suffix and skips everything else without error |
| Preload.Fuse.MountFile | pkg/fuse/fuse.go:123-215 | adds the missing directories even when the sidecar then fails, the file only where nothing is, and panics on a file inode before or after the sidecar is looked at |
| Preload.Fuse.Descend | pkg/fuse/fuse.go:123-148 | ends at the inode of the whole directory path, with exactly the missing components created as directories, unless a file inode is on the way, when it panics with the tree unchanged |
| Preload.Fuse.Enter | pkg/fuse/fuse.go:124-147 | one component: the child that is there, or a new directory in its place |
| Preload.Fuse.Attach | pkg/fuse/fuse.go:145-213 | hanging an inode below a directory adds one path and displaces nothing; below a file it panics |
| Preload.Fuse.constructor | pkg/fuse/fuse.go:233-263 | a new file system has an empty tree and a cleaned absolute source |
| Preload.Inode.AddChild | vendor/github.com/hanwen/go-fuse/v2/fs/inode.go:477-519 | an existing entry is kept unless overwriting is asked for, and the nil map of a file inode makes it panic |
| Preload.BaseNotEmpty | pkg/fuse/fuse.go:123-213 | for any source and any file the name it is mounted under is not empty |
| Walker.StructWalker.WalkIter | pkg/reflect/structs.go:16-72 | for any stateful callback and any growth of slices: the calls are the pre-order list cut by the callback's answers, each with the true path, and the caller's path survives all writes below it |
| Walker.StructWalker.WalkInside | pkg/reflect/structs.go:36-71 | a pointer's target is walked under the pointer's path, a struct field by field, anything else not at all |
| Walker.StructWalker.WalkFields | pkg/reflect/structs.go:45-68 | the loop over fields equals a run over the fields' pre-order lists in a row, although siblings share the array of the path |
| Walker.StructWalker.WalkField | pkg/reflect/structs.go:51-66 | one field is walked under the extended path and the prefix of the path is left as it was |
| Walker.StructWalker.WalkStruct | pkg/reflect/structs.go:74-91 | a struct or a pointer to one is walked, stopping early is no error, and anything else is refused without a call |
| Walker.StructWalker.Append | pkg/reflect/structs.go:52 | `append` extends the contents, in place when there is room, and never disturbs the part it extends |
| Walker.StructWalker.AppendTwice | pkg/reflect/structs.go:52 | a path kept across siblings is overwritten exactly when the array had room and the names differ |
| Walker.Run | pkg/reflect/structs.go:23-34 | a skip never escapes the walk as an error |
| Walker.RunAppend | pkg/reflect/structs.go:56-66 | a run over two lists reaches the second exactly if the first was not cut |
| Walker.AnswersObeyed | pkg/reflect/structs.go:23-34 | after an answer without error the walk goes on inside the value, after a skip past it, and after any other error nowhere |
| Walker.PreOrder | pkg/reflect/structs.go:36-71 | a value comes before what is inside it, a pointer's target under the pointer's path, and exported fields in declaration order |
| Walker.VisitsAreReachable | pkg/reflect/structs.go:36-68 | the pre-order list has a value at a path exactly when the exported field names of the path lead there, through pointers where needed; the root alone is left out |
| Walker.CallsFollowPreOrder | pkg/reflect/structs.go:23-68 | whatever the callback answers, the calls are entries of the pre-order list in its order, each at most once |
| Walker.UnobjectedRunSeesAll | pkg/reflect/structs.go:23-68 | a callback that never objects is called for every entry |
| Container.Store.constructor | pkg/crypto/container/container.go:191-209 | the container starts with the entries of the given map, which may be nil, in a new map of its own, and the window from `validAfter` for `ttl` |
| Container.GoMap.Copy | pkg/crypto/container/container.go:196-199 | the range loop, in any key order, fills a new map with exactly the entries |
| Container.Store.Refresh | pkg/crypto/container/container.go:36-42 | replaces both bounds and leaves the payload |
| Container.Store.Get | pkg/crypto/container/container.go:44-54 | finds a value exactly for a present key and changes nothing |
| Container.Store.Set | pkg/crypto/container/container.go:56-61 | binds one key and leaves the rest |
| Container.Store.Del | pkg/crypto/container/container.go:63-73 | removes one key and tells whether it was there |
| Container.Store.Clean | pkg/crypto/container/container.go:75-80 | gives the container a new empty map and leaves the window and the old map |
| Container.Store.Data | pkg/crypto/container/container.go:82-91 | the payload in a new map that the container does not keep |
| Container.Store.Validate | pkg/crypto/container/container.go:131-158 | a container is valid exactly strictly inside its window with the known version, and each refusal names the bound that failed |
| Container.ContentsAreLastWrites | pkg/crypto/container/container.go:36-80 | after any operations a key is bound to a value exactly if the last one to touch it set it, or none did and it was there from the start; the window is that of the last `Refresh` |
| Container.AnswersAreRight | pkg/crypto/container/container.go:44-91 | the answers to `Get`, `Del` and `Data` are what the last writes say |
| ContainerProtocol.EveryRunLinearizable | pkg/crypto/container/container.go:36-91 | for any number of threads and any interleaving of lock, access and unlock steps, the history is explained by one sequential order that keeps real time |
| ContainerProtocol.EveryRunAnswersRight | pkg/crypto/container/container.go:36-91 | for any number of threads and any interleaving there is one order, in keeping with real time, in which every `Get` and `Del` sees the value of the last `Set` of its key that no `Del` or `Clean` undid, or the one given to `New`, and every `Data` sees all of these |
| ContainerProtocol.MemoryIsLastWrites | pkg/crypto/container/container.go:36-91 | in every state of every run memory holds exactly what was last written, and the window of the last `Refresh` unless one is half done |
| ContainerProtocol.SnapshotOnReturn | pkg/crypto/container/container.go:82-91 | `Data` hands out a map nobody else could reach, holding the payload at one instant between call and return |
| ContainerProtocol.MapsAreNotShared | pkg/crypto/container/container.go:82-209 | over any stretch of any run, a returned snapshot or the map given to `New` stays as it is as long as no caller writes to it |
| ContainerProtocol.GivenMapIsKept | pkg/crypto/container/container.go:191-209 | the caller's map is never written by the container |
| ContainerProtocol.CallersDoNotReach | pkg/crypto/container/container.go:82-209 | what a caller writes to a map it holds never changes the container |
| ContainerProtocol.WriterAlone | pkg/crypto/container/container.go:36-91 | a thread inside a writing critical section is alone in its critical section |
| ContainerProtocol.Step | pkg/crypto/container/container.go:36-91 | every step keeps the lock discipline, the isolation of maps, and the agreement of memory with the sequential contents, also half way through `Refresh` and `Del` |
| ContainerProtocol.EffectIsSequential | pkg/crypto/container/container.go:36-91 | at the point where an operation takes effect, memory and result are those of the sequential operation |
| ContainerProtocol.RunKeepsInv | pkg/crypto/container/container.go:36-91 | every state of every run from `New` keeps the invariant |
| ContainerProtocol.RunsExtend | pkg/crypto/container/container.go:36-91 | no run is cut short by a reference outside memory: each enabled step continues it |
| SecretBox.SecretBoxSeal | pkg/crypto/secretbox.go:84-88 | byte by byte: the nonce, 16 bytes of authenticator over the ciphertext, and each byte of the message xored with its byte of the keystream |
| SecretBox.SecretBoxOpen | pkg/crypto/secretbox.go:90-109 | refuses a short box as ill-formed, fails to decrypt exactly when some byte of the authenticator does not belong to the rest of the box, and returns a message exactly when the box is byte for byte its seal under the nonce in front |
| SecretBox.Encrypt | pkg/crypto/container/container.go:113-120 | fails exactly when the entropy source runs dry, and else gives a box with the fresh nonce in front, the payload xored with the keystream, that opens to the payload |
| SecretBox.SealOpens | pkg/crypto/secretbox.go:84-109 | every sealed message opens to itself |
| SecretBox.OpensExactlySeals | pkg/crypto/secretbox.go:90-109 | what opens is exactly what sealing produces |
| Base64Url.Encode | pkg/crypto/container/container.go:172-177 | fills exactly `EncodedLen` bytes with the encoding |
| Base64Url.Decode | pkg/crypto/container/container.go:179-187 | for every input, malformed ones included, the cut at the reported count is in range and the result is the decoding without line breaks, or the error |
| Base64Url.DecodeInto | pkg/crypto/container/container.go:179-187 | the decoder's count never exceeds `DecodedLen`, and it succeeds exactly on well-formed input |
| Base64Url.EncodedLength | pkg/crypto/container/container.go:172-173 | an encoding is as long as the buffer made for it |
| Base64Url.EncodedGroups | pkg/crypto/container/container.go:172-177 | each three bytes, or what is left at the end, are spelled by their own four letters in order |
| Base64Url.DecodesExactly | pkg/crypto/container/container.go:179-187 | a text is accepted exactly if, without its line breaks, it is groups of four letters of the alphabet with at most two pads at the very end |
| Base64Url.TestVectors | pkg/crypto/container/container.go:172-177 | "foobar", "fo" and "f" encode as in section 10 of RFC 4648 |
| Base64Quantum.AlphabetEnds | pkg/crypto/container/container.go:18 | the alphabet's ranges end as in section 5 of RFC 4648, and its last two letters are - and _ |
| Base64Quantum.AlphabetNext | pkg/crypto/container/container.go:18 | within a range each letter follows the one before |
| Base64Quantum.QuantumSpellsBits | pkg/crypto/container/container.go:18 | the letters of a group are its bits read six at a time, zeros filled in, and padding where there is no byte |
| Base64Url.DecodeEncode | pkg/crypto/container/container.go:172-187 | decoding an encoding gives the bytes back |
| Base64Url.EncodeDecodeExactly | pkg/crypto/container/container.go:172-187 | encoding a decoding gives the text back exactly when it has no line breaks and no stray bits |
| Base64Url.StrayBitsCounterexample | pkg/crypto/container/container.go:172-187 | `QR==` decodes to the byte whose encoding is `QQ==` |
| Base64Url.LineBreakCounterexample | pkg/crypto/container/container.go:172-187 | every encoding is also accepted with a line break behind it, which is not given back |
| Base64Url.StoredContainerRoundTrip | pkg/crypto/container/container.go:113-187 | encrypted and encoded, then decoded and decrypted, every payload comes back |
| Base64Url.StoreAndLoad | pkg/crypto/container/container.go:113-187 | the same through the operations themselves, for any entropy that suffices for a nonce |
| Base64Quantum.QuantumRoundTrip | pkg/crypto/container/container.go:18 | one to three bytes survive the alphabet and the padding |
| Base64Quantum.QuantumCanonical | pkg/crypto/container/container.go:18 | four characters come back exactly when the unused bits of the last one are zero |
| MountProtocol.CountersAreExact | cli/cli.go:295-842 | in every state the wait group is not negative and, once the providers have run, counts the components not finished; `done` is closed at most once; the server goroutine's send never finds the channel full |
| MountProtocol.ExitZeroMeansStopped | cli/cli.go:822-857 | exit status 0 means that a stop signal made main close `done`, and that every registered component's stop call returned after that |
| MountProtocol.FailureIsFatal | cli/cli.go:320-830 | once the telemetry address, the mount, Preload or the notification fails, or main receives an error of the telemetry server, `done` is never closed and the run can only end with status 1 |
| MountProtocol.ExitOneExactly | cli/cli.go:825-857 | a run has exited with 1 exactly if the grace timer fired, or one of these failures happened and Fatal came of it |
| MountProtocol.ErrorIsTheServers | cli/cli.go:303-308 | the error that main can receive is the one that `ListenAndServe` returned |
| MountProtocol.LoopLeftExactly | cli/cli.go:822-842 | main is in its loop until it receives the deadline, an error or a stop signal, and a server that ended without error, the other signals and configuration updates leave it there |
| MountProtocol.StopSignalCloses | cli/cli.go:831-837 | a stop signal that main receives has `done` closed next, and it stays closed |
| MountProtocol.LoopReacts | cli/cli.go:822-842 | whatever waits for main in its loop can be taken, and an error of the server gets there |
| MountProtocol.CleanExitExactly | cli/cli.go:310-318 | after exit status 0 every component stopped without error exactly when no stop call failed on the way |
| MountProtocol.NoPendingPanicExactly | cli/cli.go:310-318 | no run with exit status 0 leaves a finaliser about to panic, exactly when telemetry is off |
| MountProtocol.ExitZeroDespiteUnmountFailure | cli/cli.go:768-777 | a run without telemetry that exits with 0 although the unmount failed |
| MountProtocol.ExitZeroDespitePanic | cli/cli.go:310-318 | a run that exits with 0 although the telemetry shutdown failed |
| MountProtocol.ShutdownEnds | cli/cli.go:844-857 | once the loop is left, a run takes fewer than 16 more steps, and when it cannot go on it has exited |
| MountProtocol.ShutdownProgresses | cli/cli.go:844-857 | after the loop every step of any goroutine lowers one measure |
| MountProtocol.ShutdownNeverStuck | cli/cli.go:844-857 | after the loop and before the exit some step of the process itself is enabled |
| MountProtocol.ExpiryEndsByTimerOnly | cli/cli.go:825-857 | after the deadline ends the loop the fuse finaliser never wakes, and only the grace timer ends the run, with status 1 |
| MountProtocol.RunKeepsInv | cli/cli.go:295-857 | every state of every run keeps the protocol's invariant, although the fuse component is added after its goroutine is launched |
| Semaphore.FillExactly | pkg/sync/sync.go:44-51 | the constructor returns exactly for an initial count between zero and the limit; otherwise it blocks forever |
| Semaphore.EveryUseIsSane | pkg/sync/sync.go:21-51 | on every reachable channel the count is within the limit, waiters imply an empty buffer, and count plus completed waits is the initial count plus successful posts |
| Semaphore.PostsReleaseOldest | pkg/sync/sync.go:26-34 | k posts release the k oldest waiters in order, and what is left over fills the buffer up to the limit |
| Semaphore.ReleasedInArrivalOrder | pkg/sync/sync.go:26-43 | whatever is done with a semaphore, the receivers released are the first of those that had to block, in the order in which they came, and the rest still wait in theirs |
| Semaphore.WaitersQueueUp | pkg/sync/sync.go:26-34 | those who wait on an empty semaphore are released by as many posts in the order they came |
| Semaphore.HoldersAreLimited | pkg/sync/sync.go:26-43 | for clients that acquire before they post, holders and free tokens add up to the initial count, and no post hits the limit |
| Semaphore.Semaphore.Post | pkg/sync/sync.go:26-33 | fails exactly at the limit with nobody waiting, else releases the oldest waiter or buffers a token |
| Semaphore.Semaphore.Wait | pkg/sync/sync.go:34 | takes a token, or joins the end of the queue of waiters |
| Semaphore.Semaphore.TryWait | pkg/sync/sync.go:35-42 | succeeds exactly when a token is there and never queues |
| Semaphore.Semaphore.constructor | pkg/sync/sync.go:44-51 | the channel starts with the initial number of tokens and no waiter |
| FileReads.WindowExactly | pkg/fuse/file.go:105-178 | in 64-bit arithmetic a read is answered exactly for a non-empty file, an offset up to its end and a request that does not overflow, with the bytes asked for, cut at the end of the file |
| FileReads.PastEndCounterexample | pkg/fuse/file.go:120-178 | a read at offset 5 of three bytes panics without any overflow |
| FileReads.ReadOnCompletes | pkg/fuse/file.go:105-178 | reading on from offset 0 in requests of any size yields exactly the content, if and only if there is one and no request overflows |
| FileReads.File.Read | pkg/fuse/file.go:105-126 | crashes exactly for an empty content, gives EIO when the enclave does not open, and else a fresh live buffer that serves the read asked for |
| FileReads.File.Getattr | pkg/fuse/file.go:136-153 | crashes and fails like a read, and else reports the content's size whatever the sidecar said and destroys its buffer |
| FileReads.ReadResult.Bytes | pkg/fuse/file.go:176-178 | before `Done` exactly the window of the content that the read asked for, after it none of the content |
| FileReads.ReadResult.Done | pkg/fuse/file.go:172-174 | destroys the buffer |
| FileReads.BuffersLiveUntilDone | pkg/fuse/file.go:105-178 | in every interleaving the live buffers are exactly those of undone results and of the one call inside the mutex, none is destroyed twice, and bytes are there until their own `Done` |
| FileReads.CrashesExactly | pkg/fuse/file.go:105-178 | a run has crashed exactly if it opened a file without content or took the bytes of a read that is out of range |
| FileReads.HarmlessNeverCrash | pkg/fuse/file.go:105-178 | a file with content never crashes the process if every read asked for is in range |
| FileReads.PastEndCrashes | pkg/fuse/file.go:120-178 | a run in which a read at offset 5 of three bytes ends the process |
| FileReads.NothingLeaks | pkg/fuse/file.go:105-178 | when every result is done and no call is in progress, every buffer ever opened has been destroyed |
| FileReads.LeaksExactly | vendor/github.com/hanwen/go-fuse/v2/fuse/server_linux.go:14-42 | a run that has come to rest has destroyed every buffer exactly if `Done` is called in any case or no read was answered without bytes |
| FileReads.EndOfFileLeaks | vendor/github.com/hanwen/go-fuse/v2/fuse/server_linux.go:14-20 | a run in which a read at the end of three bytes leaves its buffer behind |
| Config.Config.DefaultAll | pkg/config/config.go:46-62 | the loops of all sections terminate and leave the configuration with exactly its unset fields defaulted, set ones kept |
| Config.Config.Default | pkg/config/config.go:46-62 | creates the missing sections and the grace time, and keeps what is set |
| Config.FuseConfig.Default | pkg/fuse/config.go:13-23 | creates a missing key section and keeps a present one |
| Config.KeyConfig.Default | pkg/fuse/config.go:32-42 | sets the key format if it is empty |
| Config.TelemetryConfig.Default | pkg/telemetry/config.go:16-30 | sets address, path and timeout section, each only if unset |
| Config.TimeoutConfig.Default | pkg/server/config.go:12-24 | replaces timeouts that are not positive |
| Config.LogConfig.Default | pkg/log/config.go:18-28 | sets the level if it is empty |
| Config.DefaultsIdempotent | pkg/config/config.go:46-62 | defaulting twice is defaulting once |
| Config.OverlayKeepsAlike | pkg/config/config.go:155-158 | settings never tell apart two configurations that the defaults make equal |
| Config.EarlyDefaultsAreInvisible | pkg/config/config.go:145-166 | for any settings, defaults before and after them equal defaults after them |
| Config.Config.Set | pkg/config/config.go:155-158 | a source of settings, written into the objects in place, changes exactly the fields it sets, and creates or drops sections |
| Config.Config.ValidateAll | pkg/config/config.go:24-27 | runs the validators of the sections that are there, and accepts exactly a level, a path for an enabled telemetry server and a key path |
| Config.Load | pkg/config/config.go:145-171 | for any sources of settings every section is there, each field is what the last source that mentions it says, or its literal default where that leaves it unset, and `Load` succeeds exactly when the key path is not empty |
| Config.LoadedFields | pkg/config/config.go:145-166 | the same for the values, field by field over all eleven fields |
| Config.LoadValidatesExactly | pkg/config/config.go:163-166 | with the defaults in place a missing key path is the only thing validation can object to |

## Left out

- Key handling, OpenPGP and SSH (`pkg/fuse/key.go`): libraries; decryption is an arbitrary function.
- A key enclave that does not open when `Preload` starts is a panic before the walk and is not modelled.
- Preload.Fuse.Preload: for a source that is not a directory only the step-by-step result is stated, not a declarative tree.
- `yaml.Unmarshal`, user and group lookup, `os.Stat` and `os.ReadFile` of a sidecar: the outcome of loading is a parameter.
- memguard and go-fuse internals beyond the nil enclave of an empty content, the nil map of a file inode, and the order in which the server calls `Bytes` and `Done` on a result.
- msgpack, zstd and argon2: opaque libraries; payloads are plain bytes.
- Container.Store.Validate: reads the window without the lock in the source, so it is modelled for one goroutine only; `time.Now` is a parameter and times are unbounded integers.
- ContainerProtocol.EveryRunLinearizable: containers come from `New`, whose copy is finished before anyone else has the container; those that `Unmarshal` fills have no lock.
- ContainerProtocol.Step: the lock lets a reader in while a writer waits, which Go's `RWMutex` would not; the model has every schedule of the real lock and more.
- Byte slices are immutable values except in the buffers that sealing, encoding and decoding fill; sharing of a message's array with its caller is not captured.
- Base64Url.DecodeInto: the library's fast path for whole 8-byte blocks is not modelled, nor what it writes past the reported count.
- SecretBox.Encrypt: an entropy source is the bytes it can deliver; the generation and derivation of keys only call libraries.
- Walker.StructWalker.WalkStruct: cyclic pointers and a nil root pointer, which the source does not handle.
- Walker.StructWalker.Invoke: the callback reads the path during the call only; why it must not keep it is `Walker.StructWalker.AppendTwice`.
- MountProtocol.ShutdownEnds: a panic of `Preload` or of a served read ends the process at any time and is not a step here; the profile and trace modes in `cli/pprof.go`, which exit on their own, are taken to be off; the configuration bus is one slot; a signal before the signal channel is provided, which is after the two providers (`cli/cli.go:353-364`, `cli/cli.go:809-818`), kills the process, while here it waits in the channel.
- Config.Load: reading and decoding a source of settings, which can fail, is not modelled; the configuration library is taken to call `Default` on parents before the sections they create.
- HTTP server, CORS, telemetry collectors, logging, the other commands: thin wrappers.
- Nix and Make files.
