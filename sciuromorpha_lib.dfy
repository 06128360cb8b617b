/** lib/gitclient.go: the earlier copy of the client, holding the libgit2
    repository itself. CheckoutTag scans for the tag inline, passes an Odb()
    error on as it is, insists on `.git/info`, matches allowlist entries
    exactly, and deletes with os.Remove, which refuses a directory that still
    has entries. Its bare `return` hands back the named result `err`, which
    still holds the ERRNF of a missing `sparse-checkout`. */
module SciuromorphaLib {
  import opened Wrappers
  import opened Files
  import opened Libgit

  /** The error CheckoutTag reports when no tag was found. */
  const TAG_NOT_FOUND := "Unabled to find specified tag"

  /** What this version's sparseEntries.contains answers: some entry is
      exactly the name. */
  function Covers(se: seq<string>, name: string): bool {
    if se == [] then false
    else se[0] == name || Covers(se[1..], name)
  }

  /** An allowlist covers a name exactly when one of its entries matches it. */
  lemma {:induction false} CoversIffListed(se: seq<string>, name: string)
    ensures Covers(se, name) <==> exists k :: 0 <= k < |se| && se[k] == name
  {
    if se != [] {
      CoversIffListed(se[1..], name);
      assert forall k :: 0 <= k < |se[1..]| ==> se[1..][k] == se[k + 1];
    }
  }

  /** sparseEntries.contains: the range loop, returning true at the first
      entry equal to the name. */
  method Contains(se: seq<string>, name: string) returns (b: bool)
    ensures b == Covers(se, name)
  {
    var i := 0;
    while i < |se|
      invariant i <= |se|
      invariant forall k :: 0 <= k < i ==> se[k] != name
    {
      if se[i] == name {
        CoversIffListed(se, name);
        return true;
      }
      i := i + 1;
    }
    CoversIffListed(se, name);
    return false;
  }

  /** The entries the prune leaves alone: listed exactly, or hidden. */
  function Keep(se: seq<string>): FileInfo -> bool {
    (v: FileInfo) => Covers(se, v.name) || IsHidden(v.name)
  }

  lemma KeepEntry(se: seq<string>, v: FileInfo, covered: bool)
    requires covered == Covers(se, v.name)
    ensures Keep(se)(v) == (covered || IsHidden(v.name))
  {
  }

  /** The git half of CheckoutTag: the calls made and the error returned. */
  function GitPhase(repo: Repository, tag: string): Steps {
    match repo.remote
    case Err(e) => Steps([Call.RemotesLookup(ORIGIN)], Some(e))
    case Ok(rem) =>
      var fetched := [Call.RemotesLookup(ORIGIN), Call.Fetch(REFSPECS, "")];
      if rem.fetchError.Some? then Steps(fetched, rem.fetchError)
      else
        match repo.objects
        case Err(e) => Steps(fetched + [Call.Odb], Some(e))
        case Ok(objs) =>
          match FoundTag(objs, tag)
          case None => Steps(fetched + [Call.Odb], Some(TAG_NOT_FOUND))
          case Some(t) =>
            var s := CheckoutSteps(repo, t, tag);
            Steps(fetched + [Call.Odb] + s.calls, s.err)
  }

  /** The metadata lookups of CheckoutTag: the error that ends the run
      (Err; a missing `info` is one), no sparse-checkout configured
      (Ok(None): a missing `sparse-checkout` is not an error), or the
      contents of `.git/info/sparse-checkout`. */
  function SparseData(fs: FileSystem, entries: seq<FileInfo>): Result<Option<string>> {
    match FileInfoByName(ReadDir(fs, entries, []), GIT_DIR)
    case Err(e) => Err(e)
    case Ok(g) =>
      var gitPath := [g.name];
      match FileInfoByName(ReadDir(fs, entries, gitPath), INFO_DIR)
      case Err(e) => Err(e)
      case Ok(info) =>
        var infoPath := gitPath + [info.name];
        match FileInfoByName(ReadDir(fs, entries, infoPath), SPARSE_FILE)
        case Err(e) => if e == ERRNF then Ok(None) else Err(e)
        case Ok(sparse) =>
          match ReadFile(fs, infoPath + [sparse.name])
          case Err(e) => Err(e)
          case Ok(data) => Ok(Some(data))
  }

  /** The filesystem half of CheckoutTag, on the top-level entries left by
      the checkout: the error returned and the entries left. A missing
      `sparse-checkout` skips the prune, but the bare return still reports
      the lookup's ERRNF. */
  function SparsePhase(fs: FileSystem, entries: seq<FileInfo>): PruneRun {
    match SparseData(fs, entries)
    case Err(e) => PruneRun(Some(e), entries)
    case Ok(None) => PruneRun(Some(ERRNF), entries)
    case Ok(Some(data)) =>
      match ReadDir(fs, entries, [])
      case Err(e) => PruneRun(Some(e), entries)
      case Ok(dirContents) => Prune(dirContents, Keep(Split(data)), RemoveFailure(fs.faults, fs.populated))
  }

  /** One run of CheckoutTag: libgit2 calls, the error, the entries left. */
  datatype Run = Run(calls: seq<Call>, err: Option<string>, entries: seq<FileInfo>)

  function CheckoutTagRun(repo: Repository, fs: FileSystem, entries: seq<FileInfo>, tag: string): Run {
    var g := GitPhase(repo, tag);
    if g.err.Some? then Run(g.calls, g.err, entries)
    else
      var p := SparsePhase(fs, entries);
      Run(g.calls, p.err, p.entries)
  }

  /** The loop over dirContents: os.Remove, in listing order, of every entry
      that is neither listed nor hidden, stopping at the first refusal. */
  method RemoveUncovered(fs: FileSystem, dirContents: seq<FileInfo>, sparses: seq<string>) returns (err: Option<string>)
    requires fs.entries == dirContents && DistinctNames(dirContents)
    modifies fs
    ensures fs.Valid()
    ensures var p := Prune(dirContents, Keep(sparses), RemoveFailure(fs.faults, fs.populated));
      err == p.err && fs.entries == p.entries
  {
    ghost var keep, fails := Keep(sparses), RemoveFailure(fs.faults, fs.populated);
    err := None;
    var i := 0;
    while i < |dirContents|
      invariant i <= FirstFailure(dirContents, keep, fails)
      invariant fs.entries == Survivors(dirContents[..i], keep) + dirContents[i..]
      invariant err.None?
      invariant fs.Valid()
    {
      var v := dirContents[i];
      var covered := Contains(sparses, v.name);
      KeepEntry(sparses, v, covered);
      ghost var outcome := if keep(v) then None else fails(v);
      ghost var after := if keep(v) || outcome.Some? then fs.entries else Without(fs.entries, v.name);
      PruneStep(dirContents, i, keep, fails, fs.entries, outcome, after);
      if !covered && !IsHidden(v.name) {
        err := fs.Remove(v.name);
        assert err == outcome && fs.entries == after;
      } else {
        assert outcome.None? && fs.entries == after;
      }
      if err.Some? {
        return;
      }
      assert fs.entries == Survivors(dirContents[..i + 1], keep) + dirContents[i + 1..];
      i := i + 1;
    }
    assert dirContents[..i] == dirContents;
  }

  /** A GitClient: the libgit2 repository, the directory at repoPath, and
      sshPath. */
  class GitClient {
    const repository: Repository
    const repoDir: FileSystem
    const sshPath: string

    /** OpenRepository once git.OpenRepository has succeeded. */
    constructor (repository: Repository, repoDir: FileSystem, sshPath: string)
      ensures this.repository == repository && this.repoDir == repoDir && this.sshPath == sshPath
    {
      this.repository := repository;
      this.repoDir := repoDir;
      this.sshPath := sshPath;
    }

    /** CheckoutTag: each step runs only if every earlier one succeeded; the
        result is described by CheckoutTagRun and the lemmas about it. */
    method CheckoutTag(tag: string) returns (err: Option<string>)
      requires repoDir.Valid()
      modifies repository, repoDir
      ensures repoDir.Valid()
      ensures var run := CheckoutTagRun(repository, repoDir, old(repoDir.entries), tag);
        && repository.calls == old(repository.calls) + run.calls
        && err == run.err
        && repoDir.entries == run.entries
    {
      err := CheckoutHead(tag);
      if err.Some? {
        return;
      }
      err := PruneToSparseCheckout();
    }

    /** The first half of CheckoutTag (lib/gitclient.go:86-142): fetch from
        origin, scan the object database for the tag, check its tree out
        and point HEAD at it. */
    method CheckoutHead(tag: string) returns (err: Option<string>)
      modifies repository
      ensures var g := GitPhase(repository, tag);
        repository.calls == old(repository.calls) + g.calls && err == g.err
    {
      var r := repository.LookupRemote(ORIGIN);
      if r.Err? {
        return Some(r.msg);
      }
      err := repository.Fetch(r.value, REFSPECS, "");
      if err.Some? {
        return;
      }
      ghost var fetched := [Call.RemotesLookup(ORIGIN), Call.Fetch(REFSPECS, "")];
      assert repository.calls == old(repository.calls) + fetched;

      var odb := repository.OpenOdb();
      assert repository.calls == old(repository.calls) + (fetched + [Call.Odb]);
      if odb.Err? {
        return Some(odb.msg);
      }
      var t := ScanTags(odb.value, tag);
      if t.None? {
        return Some(TAG_NOT_FOUND);
      }

      if t.value.target.Err? {
        return Some(t.value.target.msg);
      }
      var tagCommit := t.value.target.value;
      if tagCommit.tree.Err? {
        return Some(tagCommit.tree.msg);
      }
      var tree := tagCommit.tree.value;
      err := repository.CheckoutTree(tree, CHECKOUT_OPTS);
      if err.Some? {
        return;
      }
      err := repository.SetHead(TAG_REF_PREFIX + tag);
    }

    /** The second half of CheckoutTag (lib/gitclient.go:144-187), run once
        HEAD points at the tag: the metadata lookups and the prune. The
        error is the one CheckoutTag returns. */
    method PruneToSparseCheckout() returns (err: Option<string>)
      requires repoDir.Valid()
      modifies repoDir
      ensures repoDir.Valid()
      ensures var p := SparsePhase(repoDir, old(repoDir.entries));
        err == p.err && repoDir.entries == p.entries
    {
      var workPath: Path := [];
      var g := GetFileInfoByName(ReadDir(repoDir, repoDir.entries, workPath), GIT_DIR);
      if g.Err? {
        return Some(g.msg);
      }
      workPath := workPath + [g.value.name];
      var info := GetFileInfoByName(ReadDir(repoDir, repoDir.entries, workPath), INFO_DIR);
      if info.Err? {
        return Some(info.msg);
      }
      workPath := workPath + [info.value.name];

      var sparseFlag := true;
      var sparse := GetFileInfoByName(ReadDir(repoDir, repoDir.entries, workPath), SPARSE_FILE);
      err := if sparse.Err? then Some(sparse.msg) else None;
      if err.Some? {
        if err.value != ERRNF {
          return;
        }
        sparseFlag := false;
      }

      if sparseFlag {
        // Errors in here are the block's own; the outer err stays None.
        workPath := workPath + [sparse.value.name];
        var sparseData := ReadFile(repoDir, workPath);
        if sparseData.Err? {
          return Some(sparseData.msg);
        }
        assert SparseData(repoDir, repoDir.entries) == Ok(Some(sparseData.value));
        var sparses := Split(sparseData.value);
        var dirContents: seq<FileInfo>;
        match ReadDir(repoDir, repoDir.entries, []) {
          case Err(e) => return Some(e);
          case Ok(listing) => dirContents := listing;
        }
        var removeErr := RemoveUncovered(repoDir, dirContents, sparses);
        if removeErr.Some? {
          return removeErr;
        }
      }
    }
  }

  // ---------------------------------------------------------------------------
  // What the model promises

  /** The sparseEntries tests; in this version an entry in directory form
      does not cover the directory. */
  lemma CoversExamples()
    ensures Covers(["first", "second", "third"], "second")
    ensures !Covers(["first", "second", "third"], "fourth")
    ensures !Covers(["dir/"], "dir")
  {
    CoversIffListed(["first", "second", "third"], "second");
    CoversIffListed(["first", "second", "third"], "fourth");
    CoversIffListed(["dir/"], "dir");
    assert ["first", "second", "third"][1] == "second";
    assert |["dir/"][0]| != |"dir"|;
  }

  /** The empty entry a trailing newline leaves covers no entry. */
  lemma EmptyEntryCoversNothing(se: seq<string>, name: Name)
    ensures Covers(se + [""], name) == Covers(se, name)
  {
    CoversIffListed(se + [""], name);
    CoversIffListed(se, name);
    var all := se + [""];
    if Covers(all, name) {
      var k :| 0 <= k < |all| && all[k] == name;
      assert k < |se| && se[k] == all[k];
    }
    if Covers(se, name) {
      var k :| 0 <= k < |se| && se[k] == name;
      assert all[k] == se[k];
    }
  }

  /** The libgit2 calls of a run come in the fixed order lookup of origin,
      fetch of the two refspecs, Odb, CheckoutTree with the package options,
      SetHead to the tag's ref, and a run that stops early makes a prefix of
      them; the tree checked out is that of the last tag found by exactly
      the requested name. */
  lemma CallOrder(repo: Repository, fs: FileSystem, entries: seq<FileInfo>, tag: string)
    ensures var run := CheckoutTagRun(repo, fs, entries, tag);
      && 1 <= |run.calls| <= 5
      && run.calls[0] == Call.RemotesLookup(ORIGIN)
      && (|run.calls| > 1 ==> run.calls[1] == Call.Fetch(REFSPECS, ""))
      && (|run.calls| > 2 ==> run.calls[2] == Call.Odb)
      && (|run.calls| > 3 ==>
            && repo.objects.Ok? && FoundTag(repo.objects.value, tag).Some?
            && FoundTag(repo.objects.value, tag).value.name == tag
            && var t := FoundTag(repo.objects.value, tag).value;
               t.target.Ok? && t.target.value.tree.Ok? &&
               run.calls[3] == Call.CheckoutTree(t.target.value.tree.value, CHECKOUT_OPTS))
      && (|run.calls| > 4 ==> run.calls[4] == Call.SetHead(TAG_REF_PREFIX + tag))
  {
    if repo.objects.Ok? {
      FoundTagIsLastExactMatch(repo.objects.value, tag);
    }
  }

  /** A failed lookup of origin or a failed fetch is returned as it is and
      nothing after it runs. */
  lemma RemoteFailureStops(repo: Repository, fs: FileSystem, entries: seq<FileInfo>, tag: string)
    requires repo.remote.Err? || repo.remote.value.fetchError.Some?
    ensures var run := CheckoutTagRun(repo, fs, entries, tag);
      && run.err == (if repo.remote.Err? then Some(repo.remote.msg) else repo.remote.value.fetchError)
      && |run.calls| == (if repo.remote.Err? then 1 else 2)
      && run.entries == entries
  {
  }

  /** An object database that cannot be opened ends the run with its own
      error; one that has no tag of that name before the first failed
      lookup ends it with the fixed tag-not-found error. Either way nothing
      is checked out and nothing removed. */
  lemma MissingTagStops(repo: Repository, fs: FileSystem, entries: seq<FileInfo>, tag: string)
    requires repo.remote.Ok? && repo.remote.value.fetchError.None?
    requires repo.objects.Err? || forall j :: 0 <= j < Reach(repo.objects.value) ==> !IsTagNamed(repo.objects.value[j], tag)
    ensures CheckoutTagRun(repo, fs, entries, tag) ==
      Run([Call.RemotesLookup(ORIGIN), Call.Fetch(REFSPECS, ""), Call.Odb],
          Some(if repo.objects.Err? then repo.objects.msg else TAG_NOT_FOUND), entries)
  {
  }

  /** The git half succeeds exactly when origin is found and fetched, the
      tag is found, and its commit, tree, checkout and SetHead all succeed;
      it has then made all five calls. */
  lemma GitPhaseSucceeds(repo: Repository, tag: string)
    ensures GitPhase(repo, tag).err.None? <==>
      && repo.remote.Ok? && repo.remote.value.fetchError.None?
      && repo.objects.Ok? && FoundTag(repo.objects.value, tag).Some?
      && var t := FoundTag(repo.objects.value, tag).value;
         t.target.Ok? && t.target.value.tree.Ok? && repo.checkoutError.None? && repo.setHeadError.None?
    ensures GitPhase(repo, tag).err.None? ==>
      |GitPhase(repo, tag).calls| == 5 && GitPhase(repo, tag).calls[4] == Call.SetHead(TAG_REF_PREFIX + tag)
  {
    if repo.remote.Ok? && repo.remote.value.fetchError.None? && repo.objects.Ok? && FoundTag(repo.objects.value, tag).Some? {
      CheckoutStepsOrder(repo, FoundTag(repo.objects.value, tag).value, tag);
    }
  }

  /** Nothing is removed unless HEAD was moved to the tag first. */
  lemma NoRemovalBeforeHead(repo: Repository, fs: FileSystem, entries: seq<FileInfo>, tag: string)
    ensures var run := CheckoutTagRun(repo, fs, entries, tag);
      run.entries != entries ==> |run.calls| == 5 && run.calls[4] == Call.SetHead(TAG_REF_PREFIX + tag) &&
                                 repo.setHeadError.None?
  {
    GitPhaseSucceeds(repo, tag);
  }

  /** Without `.git` in the repository directory the prune fails with
      ERRNF; when the directory cannot be listed its error is returned.
      Either way nothing is removed. */
  lemma MissingGitDirFails(fs: FileSystem, entries: seq<FileInfo>)
    requires fs.rootError.Some? || forall k :: 0 <= k < |entries| ==> entries[k].name != GIT_DIR
    ensures SparsePhase(fs, entries) ==
      PruneRun(Some(if fs.rootError.Some? then fs.rootError.value else ERRNF), entries)
  {
  }

  /** With `.git` present, every failed lookup below it ends the run with
      its error, ERRNF included: a missing `info` because it is returned at
      once, a missing `sparse-checkout` because the bare return hands back
      the error it left in `err`. Nothing is removed. */
  lemma MetadataLookupRouting(fs: FileSystem, entries: seq<FileInfo>)
    requires fs.rootError.None? && exists k :: 0 <= k < |entries| && entries[k].name == GIT_DIR
    ensures var p := SparsePhase(fs, entries);
      && ((fs.gitListing.Ok? && forall k :: 0 <= k < |fs.gitListing.value| ==> fs.gitListing.value[k].name != INFO_DIR)
            ==> p == PruneRun(Some(ERRNF), entries))
      && (fs.gitListing.Err? ==> p == PruneRun(Some(fs.gitListing.msg), entries))
      && (fs.gitListing.Ok? && (exists k :: 0 <= k < |fs.gitListing.value| && fs.gitListing.value[k].name == INFO_DIR) ==>
            && ((fs.infoListing.Ok? && forall k :: 0 <= k < |fs.infoListing.value| ==> fs.infoListing.value[k].name != SPARSE_FILE)
                  ==> p == PruneRun(Some(ERRNF), entries))
            && (fs.infoListing.Err? ==> p == PruneRun(Some(fs.infoListing.msg), entries)))
  {
    FoundByName(entries, GIT_DIR);
    if fs.gitListing.Ok? && exists k :: 0 <= k < |fs.gitListing.value| && fs.gitListing.value[k].name == INFO_DIR {
      FoundByName(fs.gitListing.value, INFO_DIR);
      assert [GIT_DIR] + [INFO_DIR] == [GIT_DIR, INFO_DIR];
    }
  }

  /** As written, a repository with `.git/info` but no sparse-checkout file
      makes a run whose git half succeeded fail with ERRNF, although it
      skipped the prune and removed nothing. */
  lemma MissingSparseFileFails(repo: Repository, fs: FileSystem, entries: seq<FileInfo>, tag: string)
    requires GitPhase(repo, tag).err.None?
    requires fs.rootError.None? && exists k :: 0 <= k < |entries| && entries[k].name == GIT_DIR
    requires fs.gitListing.Ok? && exists k :: 0 <= k < |fs.gitListing.value| && fs.gitListing.value[k].name == INFO_DIR
    requires fs.infoListing.Ok? && forall k :: 0 <= k < |fs.infoListing.value| ==> fs.infoListing.value[k].name != SPARSE_FILE
    ensures CheckoutTagRun(repo, fs, entries, tag) == Run(GitPhase(repo, tag).calls, Some(ERRNF), entries)
  {
    MetadataLookupRouting(fs, entries);
  }

  /** The filesystem half as evidently intended, and as the newer
      gitclient.go has it: a missing `sparse-checkout` skips the prune and
      the run succeeds; every other outcome is that of SparsePhase. */
  function IntendedSparsePhase(fs: FileSystem, entries: seq<FileInfo>): PruneRun {
    match SparseData(fs, entries)
    case Ok(None) => PruneRun(None, entries)
    case _ => SparsePhase(fs, entries)
  }

  /** The intended half succeeds without removing anything when the
      sparse-checkout file is missing, and prunes by the file's lines when
      it is in place. */
  lemma IntendedSkipsMissingFile(fs: FileSystem, entries: seq<FileInfo>, data: string)
    requires fs.rootError.None? && exists k :: 0 <= k < |entries| && entries[k].name == GIT_DIR
    requires fs.gitListing.Ok? && exists k :: 0 <= k < |fs.gitListing.value| && fs.gitListing.value[k].name == INFO_DIR
    ensures (fs.infoListing.Ok? && forall k :: 0 <= k < |fs.infoListing.value| ==> fs.infoListing.value[k].name != SPARSE_FILE)
      ==> IntendedSparsePhase(fs, entries) == PruneRun(None, entries)
    ensures SparseConfigured(fs, entries, data) ==>
      IntendedSparsePhase(fs, entries) == Prune(entries, Keep(Split(data)), RemoveFailure(fs.faults, fs.populated))
  {
    FoundByName(entries, GIT_DIR);
    FoundByName(fs.gitListing.value, INFO_DIR);
    assert [GIT_DIR] + [INFO_DIR] == [GIT_DIR, INFO_DIR];
    if SparseConfigured(fs, entries, data) {
      ConfiguredLookups(fs, entries, data);
    }
  }

  /** The metadata lookups yield the sparse-checkout file's contents
      exactly when `.git`, `info` and the file are all in place. */
  lemma SparseDataFound(fs: FileSystem, entries: seq<FileInfo>, data: string)
    ensures SparseData(fs, entries) == Ok(Some(data)) <==> SparseConfigured(fs, entries, data)
  {
    if SparseConfigured(fs, entries, data) {
      ConfiguredLookups(fs, entries, data);
    }
    if SparseData(fs, entries) == Ok(Some(data)) {
      assert [GIT_DIR] + [INFO_DIR] == [GIT_DIR, INFO_DIR];
      assert [GIT_DIR, INFO_DIR] + [SPARSE_FILE] == [GIT_DIR, INFO_DIR, SPARSE_FILE];
    }
  }

  /** With the sparse-checkout file in place, the filesystem half is the
      prune of the listing by the file's lines. */
  lemma SparsePhaseIsPrune(fs: FileSystem, entries: seq<FileInfo>, data: string)
    requires SparseConfigured(fs, entries, data)
    ensures SparsePhase(fs, entries) == Prune(entries, Keep(Split(data)), RemoveFailure(fs.faults, fs.populated))
  {
    ConfiguredLookups(fs, entries, data);
  }

  /** With the sparse-checkout file in place, the prune succeeds exactly when
      every entry it must remove is neither refused nor a directory with
      entries, and then an entry remains exactly when the file lists it or
      it is hidden. Nothing is ever added. */
  lemma PruneOutcome(fs: FileSystem, entries: seq<FileInfo>, data: string)
    requires SparseConfigured(fs, entries, data)
    ensures var p := SparsePhase(fs, entries);
      && (p.err.None? <==> forall k :: 0 <= k < |entries| ==>
            Covers(Split(data), entries[k].name) || IsHidden(entries[k].name) ||
            (entries[k].name !in fs.faults && entries[k].name !in fs.populated))
      && (p.err.None? ==> forall k :: 0 <= k < |entries| ==>
            (entries[k] in p.entries <==> Covers(Split(data), entries[k].name) || IsHidden(entries[k].name)))
      && (forall x :: x in p.entries ==> x in entries)
  {
    var keep, fails := Keep(Split(data)), RemoveFailure(fs.faults, fs.populated);
    SparsePhaseIsPrune(fs, entries, data);
    PruneSucceeds(entries, keep, fails);
    PruneAddsNothing(entries, keep, fails);
  }

  /** A removal that fails ends the prune with its error: k, the first
      entry whose removal fails, is the one reported, with the refusal of
      the operating system or, for a directory that still has entries, the
      "directory not empty" error; the entries listed before it are gone exactly
      when neither listed nor hidden (Keep), it and all later entries are
      still listed. */
  lemma PruneStopsAtFailure(fs: FileSystem, entries: seq<FileInfo>, data: string)
    requires SparseConfigured(fs, entries, data) && DistinctNames(entries)
    requires SparsePhase(fs, entries).err.Some?
    ensures var p, keep := SparsePhase(fs, entries), Keep(Split(data));
      var k := FirstFailure(entries, keep, RemoveFailure(fs.faults, fs.populated));
        && k < |entries|
        && (entries[k].name in fs.faults || entries[k].name in fs.populated)
        && p.err == Some(if entries[k].name in fs.faults then fs.faults[entries[k].name] else fs.populated[entries[k].name])
        && !keep(entries[k])
        && (forall j :: 0 <= j < k ==> (entries[j] in p.entries <==> keep(entries[j])))
        && (forall j :: k <= j < |entries| ==> entries[j] in p.entries)
  {
    SparsePhaseIsPrune(fs, entries, data);
    PruneStops(entries, Keep(Split(data)), RemoveFailure(fs.faults, fs.populated));
  }

  /** A second run after a successful one, on whatever its checkout left:
      CheckoutRecreateMissing may bring back entries the first prune
      deleted, so the second listing `again` lies between what the first
      run left and what its checkout had made. The second run makes the
      same calls, succeeds, and leaves exactly what the first run left. */
  lemma RerunAfterRecheckout(repo: Repository, fs: FileSystem, entries: seq<FileInfo>, again: seq<FileInfo>, tag: string)
    requires CheckoutTagRun(repo, fs, entries, tag).err.None?
    requires forall x :: x in again ==> x in entries
    requires forall x :: x in CheckoutTagRun(repo, fs, entries, tag).entries ==> x in again
    ensures var run, run2 := CheckoutTagRun(repo, fs, entries, tag), CheckoutTagRun(repo, fs, again, tag);
      && run2.calls == run.calls && run2.err.None?
      && forall x :: x in run2.entries <==> x in run.entries
  {
    assert GitPhase(repo, tag).err.None?;
    var sd := SparseData(fs, entries);
    assert sd.Ok? && sd.value.Some?;
    RerunPrunes(fs, entries, again, sd.value.value);
  }

  lemma RerunPrunes(fs: FileSystem, entries: seq<FileInfo>, again: seq<FileInfo>, data: string)
    requires SparseData(fs, entries) == Ok(Some(data)) && SparsePhase(fs, entries).err.None?
    requires forall x :: x in again ==> x in entries
    requires forall x :: x in SparsePhase(fs, entries).entries ==> x in again
    ensures SparsePhase(fs, again).err.None?
    ensures forall x :: x in SparsePhase(fs, again).entries <==> x in SparsePhase(fs, entries).entries
  {
    SparseDataFound(fs, entries, data);
    var keep, fails := Keep(Split(data)), RemoveFailure(fs.faults, fs.populated);
    SparsePhaseIsPrune(fs, entries, data);
    PruneSucceeds(entries, keep, fails);
    var k :| 0 <= k < |entries| && entries[k].name == GIT_DIR;
    assert keep(entries[k]);
    assert entries[k] in again;
    var k' :| 0 <= k' < |again| && again[k'] == entries[k];
    assert SparseConfigured(fs, again, data);
    SparsePhaseIsPrune(fs, again, data);
    forall j | 0 <= j < |again| ensures keep(again[j]) || fails(again[j]).None? {
      assert again[j] in entries;
      var i :| 0 <= i < |entries| && entries[i] == again[j];
    }
    PruneSucceeds(again, keep, fails);
  }

  /** Running CheckoutTag again on what a successful run left behaves the
      same and removes nothing more. */
  lemma CheckoutTagIdempotent(repo: Repository, fs: FileSystem, entries: seq<FileInfo>, tag: string)
    requires CheckoutTagRun(repo, fs, entries, tag).err.None?
    ensures var run := CheckoutTagRun(repo, fs, entries, tag);
      CheckoutTagRun(repo, fs, run.entries, tag) == run
  {
    var p := SparsePhase(fs, entries);
    if p.entries != entries {
      var data := SparseData(fs, entries).value.value;
      SparseDataFound(fs, entries, data);
      var keep, fails := Keep(Split(data)), RemoveFailure(fs.faults, fs.populated);
      SparsePhaseIsPrune(fs, entries, data);
      PruneSucceeds(entries, keep, fails);
      var k :| 0 <= k < |entries| && entries[k].name == GIT_DIR;
      assert keep(entries[k]);
      var k' :| 0 <= k' < |p.entries| && p.entries[k'] == entries[k];
      assert SparseConfigured(fs, p.entries, data);
      SparsePhaseIsPrune(fs, p.entries, data);
      PruneIdempotent(entries, keep, fails);
    }
  }

}
