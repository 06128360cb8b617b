# sciuromorpha: tag checkout and sparse prune, in Dafny

sciuromorpha checks out a tag of a git repository onto disk. It then
narrows the working directory down to a sparse-checkout allowlist. Two
versions of the client live in the repository, and both are modelled:

- `gitclient.go` reaches libgit2 through the `Gitter` interface and its
  production implementation `gitterImpl`. It is modelled in the module
  `Sciuromorpha` (`sciuromorpha.dfy`).
- `lib/gitclient.go` is the older copy, which the command line uses. It
  holds the libgit2 repository directly. It is modelled in the module
  `SciuromorphaLib` (`sciuromorpha_lib.dfy`).

`CheckoutTag` works in the same order in both versions:

1. Look up the remote `origin`.
2. Fetch remote branches and all tags from it.
3. Find the tag by a linear scan of the object database.
4. Check out the tag's tree with fixed options, and point HEAD at
   `refs/tags/<tag>`.
5. Look for `.git/info/sparse-checkout`. If it is present, split it on
   newlines and delete every top-level entry of the repository directory
   that is neither listed nor hidden.

Every step returns at its first error. The versions differ as follows:

| | `gitclient.go` | `lib/gitclient.go` |
|---|---|---|
| allowlist match | the name, or the name followed by `/` | the name only |
| Odb() error | lost; reported as "tag not found" | returned as it is |
| missing `.git/info` | success, nothing pruned | the ERRNF error |
| missing `sparse-checkout` | success, nothing pruned | the ERRNF error (see Findings) |
| deletion | `os.RemoveAll` | `os.Remove`, which refuses a directory that has entries |

How the model is built:

- **Errors.** A Go error is modelled by its message (`Wrappers.Option`
  and `Wrappers.Result`). The source routes errors by comparing
  `err.Error()` with `"ERRNF"`, so the message is what matters.
- **libgit2** (`Libgit`). A `Repository` is an oracle. Each call returns a
  fixed answer, and every call that acts on the repository is appended to
  its `calls` log. The tag scan (`ScanTags`) is the `ForEach` callback
  written as a loop.
- **The filesystem** (`Files`). A `FileSystem` object holds the top-level
  entries of the repository directory, which removal changes. It also
  holds fixed answers for the other reads the workflow makes, and the
  errors removal meets. `getFileInfoByName`, `isHidden` and the prune
  are written out in full. The two source files contain identical copies
  of `getFileInfoByName` and `isHidden`, so one definition serves both.
- **Specification and implementation.** Each version's `CheckoutTag` is a
  method on a `GitClient` object, proved against the specification
  function `CheckoutTagRun`. That function gives the calls made, the
  error returned, and the entries left. The loop that deletes entries is
  proved against `Files.Prune`. The lemmas state what the workflow
  promises about these functions:
  - the order of the calls, and the early exits;
  - ERRNF routing versus the routing of other errors;
  - what a prune leaves behind, on success and on failure;
  - a second run succeeds and leaves what the first run left, even when its
    checkout brings back entries the first prune deleted;
  - newline splitting, including a trailing newline.

## Model

| member | source | states |
|---|---|---|
| Files.FindByName | gitclient.go:137-142 | finds no entry exactly when no entry has the name; otherwise returns the first entry with that name |
| Files.FileInfoByName | gitclient.go:132-143 | passes a listing error on unchanged; gives ERRNF exactly when no entry has the name; otherwise gives an entry of the listing with that name |
| Files.GetFileInfoByName | gitclient.go:132-143 | the range loop answers what FileInfoByName describes: the first match, ERRNF, or the listing error (lib/gitclient.go:56-67 is the same code) |
| Files.IsHidden | gitclient.go:156-158 | a name is hidden exactly when it starts with `.`; directory entries never have empty names, so the first character always exists |
| Files.Split | gitclient.go:218 | splitting on newline gives at least one piece, and no piece contains a newline |
| Files.SplitLength | gitclient.go:218 | content with k newlines gives k + 1 entries, so a trailing newline adds an empty last entry |
| Files.JoinSplit | gitclient.go:218 | joining the pieces with newlines gives back the file's contents |
| Files.SplitJoin | lib/gitclient.go:171 | splitting newline-free lines joined by newlines gives the lines back |
| Files.FileSystem.RemoveAll | gitclient.go:226 | os.RemoveAll fails only when the operating system refuses, and the entry is then still listed; on success the named entry, and only it, is gone; names stay distinct |
| Files.FileSystem.Remove | lib/gitclient.go:179 | os.Remove also refuses a directory that still has entries, with that directory's error; on success the named entry, and only it, is gone; names stay distinct |
| Files.ConfiguredLookups | gitclient.go:185-217 | when `.git`, `info` and `sparse-checkout` are all listed, each lookup finds its entry and the file reads as its contents |
| Files.SurvivorsMembers | gitclient.go:224-231 | the entries a prune keeps are exactly the listed entries that are covered or hidden |
| Files.FirstFailure | gitclient.go:224-231 | the first entry that is not kept and whose removal fails; every earlier entry is kept or removed cleanly |
| Files.PruneStep | gitclient.go:224-231 | one loop step either carries the invariant one entry further (earlier uncovered entries gone, the rest still listed) or stops with the prune's outcome |
| Files.PruneSucceeds | gitclient.go:224-231 | a prune succeeds exactly when every entry it must remove can be removed; it then leaves exactly the kept entries |
| Files.PruneAddsNothing | gitclient.go:224-231 | a prune only removes: every entry it leaves was listed |
| Files.PruneStops | gitclient.go:227-229 | a failed prune reports the first refused removal; entries before it are gone exactly when not kept; it and every later entry are still listed |
| Files.PruneIdempotent | gitclient.go:224-231 | pruning what a prune left removes nothing and succeeds |
| Libgit.Repository.LookupRemote | gitclient.go:46-48 | Remotes.Lookup answers with the repository's remote or its error, and is recorded |
| Libgit.Repository.Fetch | gitclient.go:168-171 | Fetch answers with the remote's fetch error, and is recorded with its refspecs and reflog message |
| Libgit.Repository.OpenOdb | gitclient.go:51-54 | Odb() answers with the object database or its error, and is recorded |
| Libgit.Repository.CheckoutTree | gitclient.go:87-90 | CheckoutTree answers with the checkout error, and is recorded with the tree and the options |
| Libgit.Repository.SetHead | gitclient.go:92-95 | SetHead answers with its error, and is recorded with the reference |
| Libgit.Reach | gitclient.go:58-62 | the scan inspects every object up to the first failed lookup, which aborts the enumeration |
| Libgit.LastTagBefore | gitclient.go:63-68 | no tag exactly when none of the first k objects is a tag with that name; otherwise the last such tag |
| Libgit.ScanTags | gitclient.go:57-70 | the ForEach loop keeps the last tag named exactly `tag` among the objects enumerated before the first failed lookup (inline in lib/gitclient.go:103-116) |
| Libgit.FoundTagIsLastExactMatch | gitclient.go:63-68 | a tag is found exactly when some object reached is a tag of that name; the found tag has that name, and no later match is reached |
| Libgit.FailureHidesLaterTags | gitclient.go:59-62 | a failed lookup hides every tag enumerated after it |
| Libgit.CheckoutStepsOrder | gitclient.go:74-97 | the checkout succeeds exactly when AsCommit, Tree, CheckoutTree and SetHead all succeed; SetHead runs only after a successful CheckoutTree; checkouts always use the fixed options (inline in lib/gitclient.go:123-142) |
| Sciuromorpha.CoversIffListed | gitclient.go:147-154 | an allowlist covers a name exactly when some entry is the name or the name followed by `/` |
| Sciuromorpha.Contains | gitclient.go:147-154 | the loop answers true exactly when the allowlist covers the name |
| Sciuromorpha.GitterImpl.RemotesLookup | gitclient.go:46-48 | the Gitter passes Remotes.Lookup through |
| Sciuromorpha.GitterImpl.GetTag | gitclient.go:50-72 | opens the object database, and returns either its error or the scanned tag with no error; a failed lookup inside the scan never surfaces |
| Sciuromorpha.GitterImpl.CheckoutTree | gitclient.go:74-97 | AsCommit, Tree, CheckoutTree, SetHead, stopping at the first error; the package options are used, not the ones passed in |
| Sciuromorpha.RemoveUncovered | gitclient.go:224-231 | the loop leaves the repository directory and the error exactly as Files.Prune describes: uncovered, unhidden entries removed in listing order, stopping at the first failure |
| Sciuromorpha.GitClient.constructor | gitclient.go:99-111 | a client over an opened repository, its directory and its ssh path |
| Sciuromorpha.GitClient.CheckoutTag | gitclient.go:161-235 | the libgit2 calls, the error and the entries left are those of CheckoutTagRun; the listing keeps distinct names, so it can run again |
| Sciuromorpha.GitClient.CheckoutHead | gitclient.go:161-182 | remote lookup, fetch, tag lookup and tree checkout make exactly the calls of GitPhase and return its error (the first failing step) |
| Sciuromorpha.GitClient.PruneToSparseCheckout | gitclient.go:185-234 | the metadata lookups and the prune return the error and leave the entries of SparsePhase; the listing keeps distinct names |
| Sciuromorpha.CoversExamples | gitclient_test.go:91-101 | ["first","second","third"] contains "second" and not "fourth"; "dir/" covers "dir" |
| Sciuromorpha.EmptyEntryCoversNothing | gitclient.go:218 | the empty entry a trailing newline leaves covers nothing |
| Sciuromorpha.CallOrder | gitclient.go:161-183 | calls come in the order lookup of origin, fetch, Odb, CheckoutTree of the found tag's tree, SetHead to refs/tags/<tag>; a run that stops early makes a prefix of them |
| Sciuromorpha.RemoteFailureStops | gitclient.go:162-171 | a failed lookup of origin or a failed fetch is returned, and nothing after it runs |
| Sciuromorpha.MissingTagStops | gitclient.go:173-178 | an Odb error, or no tag of that name, gives "Unabled to find specified tag" after exactly three calls, with nothing removed |
| Sciuromorpha.GitPhaseSucceeds | gitclient.go:161-183 | the git steps succeed exactly when every one of them does, and they then make all five calls, ending in SetHead |
| Sciuromorpha.NoRemovalBeforeHead | gitclient.go:180-231 | nothing is removed unless HEAD was moved to the tag first |
| Sciuromorpha.MissingGitDirFails | gitclient.go:185-189 | without `.git` the run fails with ERRNF; an unreadable directory gives its own error; nothing is removed (as gitclient_test.go:194-237 expects) |
| Sciuromorpha.MetadataLookupRouting | gitclient.go:191-211 | a missing `info` or `sparse-checkout` (ERRNF) succeeds with nothing removed; any other lookup error is returned, with nothing removed |
| Sciuromorpha.SparseDataFound | gitclient.go:185-217 | the lookups yield the allowlist file's contents exactly when `.git`, `info` and `sparse-checkout` are all in place |
| Sciuromorpha.SparsePhaseIsPrune | gitclient.go:212-231 | with the allowlist file in place, the filesystem half is the prune of the listing by the file's lines |
| Sciuromorpha.PruneOutcome | gitclient.go:218-231 | the prune succeeds exactly when no entry it must remove is refused; an entry then remains exactly when covered or hidden; nothing is added |
| Sciuromorpha.PruneStopsAtFailure | gitclient.go:224-231 | a failed removal is reported with the operating system's error; earlier uncovered entries stay deleted; it and every later entry are still listed |
| Sciuromorpha.CheckoutTagIdempotent | gitclient.go:161-235 | a second run on exactly what a successful run left (its checkout restores nothing) makes the same calls, succeeds, and removes nothing more |
| Sciuromorpha.RerunAfterRecheckout | gitclient.go:13-235 | a second run after a successful one, on any listing between what the first run left and what its checkout made (CheckoutRecreateMissing may restore pruned entries), makes the same calls, succeeds, and leaves exactly the entries the first run left |
| Sciuromorpha.ScenarioKeep | gitclient.go:225 | with the allowlist ["second"], `first` and `third` are deleted, while `second` and `.hidden` are kept |
| Sciuromorpha.PruneScenario | gitclient.go:218-231 | pruning first, second, third, .hidden by ["second"] succeeds and leaves `second` and `.hidden` only |
| SciuromorphaLib.CoversIffListed | lib/gitclient.go:71-78 | an allowlist covers a name exactly when some entry equals it |
| SciuromorphaLib.Contains | lib/gitclient.go:71-78 | the loop answers true exactly when some entry equals the name |
| SciuromorphaLib.RemoveUncovered | lib/gitclient.go:177-184 | the os.Remove loop leaves the directory and the error exactly as Files.Prune describes with os.Remove's refusals |
| SciuromorphaLib.GitClient.constructor | lib/gitclient.go:24-35 | a client over an opened repository, its directory and its ssh path |
| SciuromorphaLib.GitClient.CheckoutTag | lib/gitclient.go:85-188 | the libgit2 calls, the error (including what the bare return hands back) and the entries left are those of CheckoutTagRun; the listing keeps distinct names |
| SciuromorphaLib.GitClient.CheckoutHead | lib/gitclient.go:86-142 | remote lookup, fetch, object-database scan, tag target and tree, checkout and SetHead make exactly the calls of GitPhase and return its error |
| SciuromorphaLib.GitClient.PruneToSparseCheckout | lib/gitclient.go:144-187 | the metadata lookups and the prune return the error (ERRNF for a missing sparse-checkout file) and leave the entries of SparsePhase; the listing keeps distinct names |
| SciuromorphaLib.CoversExamples | lib/gitclient.go:71-78 | ["first","second","third"] contains "second" and not "fourth"; "dir/" does not cover "dir" |
| SciuromorphaLib.EmptyEntryCoversNothing | lib/gitclient.go:171 | the empty entry a trailing newline leaves covers nothing |
| SciuromorphaLib.CallOrder | lib/gitclient.go:86-142 | calls come in the order lookup of origin, fetch, Odb, CheckoutTree of the found tag's tree, SetHead; a run that stops early makes a prefix of them |
| SciuromorphaLib.RemoteFailureStops | lib/gitclient.go:86-95 | a failed lookup of origin or a failed fetch is returned, and nothing after it runs |
| SciuromorphaLib.MissingTagStops | lib/gitclient.go:97-121 | an Odb error is returned as it is; no tag of that name gives "Unabled to find specified tag"; either way there are three calls and nothing is removed |
| SciuromorphaLib.GitPhaseSucceeds | lib/gitclient.go:86-142 | the git steps succeed exactly when every one of them does, and they then make all five calls, ending in SetHead |
| SciuromorphaLib.NoRemovalBeforeHead | lib/gitclient.go:135-184 | nothing is removed unless HEAD was moved to the tag first |
| SciuromorphaLib.MissingGitDirFails | lib/gitclient.go:144-148 | without `.git` the run fails with ERRNF; an unreadable directory gives its own error; nothing is removed |
| SciuromorphaLib.MetadataLookupRouting | lib/gitclient.go:149-163 | every failed lookup under `.git` ends the run with its error, ERRNF included, and nothing is removed |
| SciuromorphaLib.MissingSparseFileFails | lib/gitclient.go:156-187 | as written, a missing `sparse-checkout` after a successful checkout fails the run with ERRNF |
| SciuromorphaLib.IntendedSkipsMissingFile | lib/gitclient.go:156-187 | the corrected phase: a missing `sparse-checkout` succeeds with nothing removed; a present one prunes by its lines |
| SciuromorphaLib.SparseDataFound | lib/gitclient.go:144-170 | the lookups yield the allowlist file's contents exactly when `.git`, `info` and `sparse-checkout` are all in place |
| SciuromorphaLib.SparsePhaseIsPrune | lib/gitclient.go:165-185 | with the allowlist file in place, the filesystem half is the os.Remove prune of the listing by the file's lines |
| SciuromorphaLib.PruneOutcome | lib/gitclient.go:171-184 | the prune succeeds exactly when every entry it must remove is neither refused nor a directory with entries; an entry then remains exactly when listed or hidden; nothing is added |
| SciuromorphaLib.PruneStopsAtFailure | lib/gitclient.go:177-184 | a failed removal is reported with the refusal, or with the error for a non-empty directory; earlier unlisted entries stay deleted; it and every later entry are still listed |
| SciuromorphaLib.CheckoutTagIdempotent | lib/gitclient.go:85-188 | a second run on exactly what a successful run left (its checkout restores nothing) makes the same calls, succeeds, and removes nothing more |
| SciuromorphaLib.RerunAfterRecheckout | lib/gitclient.go:13-188 | a second run after a successful one, on any listing between what the first run left and what its checkout made (CheckoutRecreateMissing may restore pruned entries), makes the same calls, succeeds, and leaves exactly the entries the first run left |

## Left out

- `Free` and the deferred `Free` calls are left out. Releasing native handles does not affect any error or directory state modelled here.
- `getFetchOpts` is left out. It holds the SSH credential and the always-accept certificate callbacks, which act inside libgit2's transport. They are visible only through `Fetch`'s answer, and the model takes that answer as given.
- `OpenRepository`'s failure path is left out. A `git.OpenRepository` error happens inside libgit2. The model starts from a repository that opened.
- The `Gitter` and `Fetcher` interfaces appear only through `gitterImpl`. The test double in gitclient_test.go is not part of this model.
- sciuromorpha.go, the command line, is not part of this model.
- libgit2's internals are oracle answers in the model. This covers object enumeration order, `Lookup`, `AsTag`, `AsCommit` and `Tree`, and what each checkout strategy flag means.
- What `CheckoutTree` writes to disk is not modelled. The `FileSystem` is the repository directory as the checkout left it. For a second run, what its checkout restores is a parameter of `RerunAfterRecheckout`.
- Files.FileSystem.RemoveAll: the contents of an entry are not modelled. `os.RemoveAll` keeps deleting a directory's children after an error and returns the first error, so a failed removal may already have emptied part of the failing entry. The model promises only that the entry is still listed.
- `ioutil.ReadDir` sorts by name. The model takes each listing in the order given. It assumes that names are distinct (`FileSystem.Valid`). Every removal keeps that true, and so does each `CheckoutTag`, so a client can run it again.
- `path.Join` is not modelled. Paths are sequences of components relative to `repoPath`. Reads of any path other than `.git`, `.git/info` and `.git/info/sparse-checkout` answer "no such file or directory".
- The second `ioutil.ReadDir(repoPath)` (gitclient.go:219, lib/gitclient.go:172) is modelled as giving the same answer as the first. Nothing happens on disk in between.
- `os.PathSeparator` is fixed to `/`, the Unix value.
- The error `os.Remove` returns for a non-empty directory is given per directory by `FileSystem.populated`. The model does not build that message text.
- `isHidden` on an empty name would panic in Go. Directory entries are never nameless, so the `Files.Name` type excludes the case.
- The sparse-checkout file is read as a string of characters. There is no byte encoding.
- A missing `sparse-checkout` ends in success only in gitclient.go. lib/gitclient.go returns the ERRNF error instead. The model follows the code there, and the corrected behaviour is modelled beside it (see Findings).

## Findings

| source | as written | input that shows it | evidently intended | confidence | as-written member | corrected member |
|---|---|---|---|---|---|---|
| lib/gitclient.go:156-187 | a missing `sparse-checkout` sets `sparseFlag = false`, but `err` is the named result and still holds ERRNF, so the bare `return` reports ERRNF | a tag that checks out into a repository with `.git/info` but no `.git/info/sparse-checkout` (what `git init` leaves) | succeed with nothing removed, as gitclient.go:234 does | high; not executed | SciuromorphaLib.MissingSparseFileFails | SciuromorphaLib.IntendedSkipsMissingFile |

`SciuromorphaLib.SparsePhase` and the `CheckoutTag` method keep the code's behaviour, because they model what the program does. `SciuromorphaLib.IntendedSparsePhase` is the corrected filesystem half. `IntendedSkipsMissingFile` proves the intended outcome for it.
