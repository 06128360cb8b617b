/** gitclient.go: the git client that reaches the repository through the
    Gitter interface, here its production implementation gitterImpl over
    libgit2. CheckoutTag fetches from origin, resolves and checks out a tag,
    then prunes the top-level entries of the working directory that the
    sparse-checkout file does not list. */
module Sciuromorpha {
  import opened Wrappers
  import opened Files
  import opened Libgit

  /** The error CheckoutTag reports when no tag was found. */
  const TAG_NOT_FOUND := "Unabled to find specified tag"

  /** What sparseEntries.contains answers: some entry is the name itself,
      or the name followed by a path separator (the directory form). */
  function Covers(se: seq<string>, name: string): bool {
    if se == [] then false
    else se[0] == name || se[0] == name + [PATH_SEPARATOR] || Covers(se[1..], name)
  }

  /** An allowlist covers a name exactly when one of its entries matches it. */
  lemma {:induction false} CoversIffListed(se: seq<string>, name: string)
    ensures Covers(se, name) <==> exists k :: 0 <= k < |se| && (se[k] == name || se[k] == name + [PATH_SEPARATOR])
  {
    if se != [] {
      CoversIffListed(se[1..], name);
      assert forall k :: 0 <= k < |se[1..]| ==> se[1..][k] == se[k + 1];
    }
  }

  /** sparseEntries.contains: the range loop, returning true at the first
      entry that is the name or its directory form. */
  method Contains(se: seq<string>, name: string) returns (b: bool)
    ensures b == Covers(se, name)
  {
    var i := 0;
    while i < |se|
      invariant i <= |se|
      invariant forall k :: 0 <= k < i ==> se[k] != name && se[k] != name + [PATH_SEPARATOR]
    {
      if se[i] == name || se[i] == name + [PATH_SEPARATOR] {
        CoversIffListed(se, name);
        return true;
      }
      i := i + 1;
    }
    CoversIffListed(se, name);
    return false;
  }

  /** The entries the prune leaves alone: covered by the allowlist, or hidden. */
  function Keep(se: seq<string>): FileInfo -> bool {
    (v: FileInfo) => Covers(se, v.name) || IsHidden(v.name)
  }

  lemma KeepEntry(se: seq<string>, v: FileInfo, covered: bool)
    requires covered == Covers(se, v.name)
    ensures Keep(se)(v) == (covered || IsHidden(v.name))
  {
  }

  /** gitterImpl: the Gitter of a libgit2 repository. */
  class GitterImpl {
    const r: Repository

    constructor (r: Repository)
      ensures this.r == r
    {
      this.r := r;
    }

    method RemotesLookup(n: string) returns (f: Result<Remote>)
      modifies r
      ensures f == r.remote && r.calls == old(r.calls) + [Call.RemotesLookup(n)]
    {
      f := r.LookupRemote(n);
    }

    /** GetTag: opens the object database and scans it. Because the
        callback's error never reaches the caller, the error is that of
        Odb() alone. */
    method GetTag(tag: string) returns (t: Option<Tag>, err: Option<string>)
      modifies r
      ensures r.calls == old(r.calls) + [Call.Odb]
      ensures (t, err) == TagAnswer(r, tag)
    {
      var odb := r.OpenOdb();
      if odb.Err? {
        return None, Some(odb.msg);
      }
      t := ScanTags(odb.value, tag);
      err := None;
    }

    /** CheckoutTree: AsCommit, Tree, CheckoutTree, SetHead, stopping at the
        first failure; the options passed in are ignored in favour of the
        package-level checkoutOpts. */
    method CheckoutTree(t: Tag, tag: string, o: CheckoutOpts) returns (err: Option<string>)
      modifies r
      ensures var s := CheckoutSteps(r, t, tag);
        r.calls == old(r.calls) + s.calls && err == s.err
    {
      if t.target.Err? {
        return Some(t.target.msg);
      }
      var tagCommit := t.target.value;
      if tagCommit.tree.Err? {
        return Some(tagCommit.tree.msg);
      }
      var tree := tagCommit.tree.value;
      err := r.CheckoutTree(tree, CHECKOUT_OPTS);
      if err.Some? {
        return;
      }
      err := r.SetHead(TAG_REF_PREFIX + tag);
      if err.Some? {
        return;
      }
      return None;
    }
  }

  /** What gitterImpl.GetTag answers: the Odb() error, or the scanned tag
      (possibly none) with no error. */
  function TagAnswer(repo: Repository, tag: string): (Option<Tag>, Option<string>) {
    match repo.objects
    case Err(e) => (None, Some(e))
    case Ok(objs) => (FoundTag(objs, tag), None)
  }

  /** The git half of CheckoutTag: the calls made and the error returned. */
  function GitPhase(repo: Repository, tag: string): Steps {
    match repo.remote
    case Err(e) => Steps([Call.RemotesLookup(ORIGIN)], Some(e))
    case Ok(rem) =>
      var fetched := [Call.RemotesLookup(ORIGIN), Call.Fetch(REFSPECS, "")];
      if rem.fetchError.Some? then Steps(fetched, rem.fetchError)
      else
        var (t, err) := TagAnswer(repo, tag);
        if !(t.Some? && err.None?) then Steps(fetched + [Call.Odb], Some(TAG_NOT_FOUND))
        else
          var s := CheckoutSteps(repo, t.value, tag);
          Steps(fetched + [Call.Odb] + s.calls, s.err)
  }

  /** The metadata lookups of CheckoutTag: the error that ends the run
      (Err), no sparse-checkout configured (Ok(None): a missing `info` or
      `sparse-checkout` is not an error), or the contents of
      `.git/info/sparse-checkout`. */
  function SparseData(fs: FileSystem, entries: seq<FileInfo>): Result<Option<string>> {
    match FileInfoByName(ReadDir(fs, entries, []), GIT_DIR)
    case Err(e) => Err(e)
    case Ok(g) =>
      var gitPath := [g.name];
      match FileInfoByName(ReadDir(fs, entries, gitPath), INFO_DIR)
      case Err(e) => if e == ERRNF then Ok(None) else Err(e)
      case Ok(info) =>
        var infoPath := gitPath + [info.name];
        match FileInfoByName(ReadDir(fs, entries, infoPath), SPARSE_FILE)
        case Err(e) => if e == ERRNF then Ok(None) else Err(e)
        case Ok(sparse) =>
          match ReadFile(fs, infoPath + [sparse.name])
          case Err(e) => Err(e)
          case Ok(data) => Ok(Some(data))
  }

  /** The filesystem half of CheckoutTag, on the top-level entries left by
      the checkout: the error returned and the entries left. */
  function SparsePhase(fs: FileSystem, entries: seq<FileInfo>): PruneRun {
    match SparseData(fs, entries)
    case Err(e) => PruneRun(Some(e), entries)
    case Ok(None) => PruneRun(None, entries)
    case Ok(Some(data)) =>
      match ReadDir(fs, entries, [])
      case Err(e) => PruneRun(Some(e), entries)
      case Ok(dirContents) => Prune(dirContents, Keep(Split(data)), RemoveAllFailure(fs.faults))
  }

  /** One run of CheckoutTag: libgit2 calls, the error, the entries left. */
  datatype Run = Run(calls: seq<Call>, err: Option<string>, entries: seq<FileInfo>)

  function CheckoutTagRun(repo: Repository, fs: FileSystem, entries: seq<FileInfo>, tag: string): Run {
    var g := GitPhase(repo, tag);
    if g.err.Some? then Run(g.calls, g.err, entries)
    else
      var p := SparsePhase(fs, entries);
      Run(g.calls, p.err, p.entries)
  }

  /** The loop over dirContents: removes, in listing order, every entry that
      is neither covered nor hidden, and stops at the first failed removal. */
  method RemoveUncovered(fs: FileSystem, dirContents: seq<FileInfo>, sparses: seq<string>) returns (err: Option<string>)
    requires fs.entries == dirContents && DistinctNames(dirContents)
    modifies fs
    ensures fs.Valid()
    ensures var p := Prune(dirContents, Keep(sparses), RemoveAllFailure(fs.faults));
      err == p.err && fs.entries == p.entries
  {
    ghost var keep, fails := Keep(sparses), RemoveAllFailure(fs.faults);
    err := None;
    var i := 0;
    while i < |dirContents|
      invariant i <= FirstFailure(dirContents, keep, fails)
      invariant fs.entries == Survivors(dirContents[..i], keep) + dirContents[i..]
      invariant err.None?
      invariant fs.Valid()
    {
      var v := dirContents[i];
      var covered := Contains(sparses, v.name);
      KeepEntry(sparses, v, covered);
      ghost var outcome := if keep(v) then None else fails(v);
      ghost var after := if keep(v) || outcome.Some? then fs.entries else Without(fs.entries, v.name);
      PruneStep(dirContents, i, keep, fails, fs.entries, outcome, after);
      if !covered && !IsHidden(v.name) {
        err := fs.RemoveAll(v.name);
        assert err == outcome && fs.entries == after;
      } else {
        assert outcome.None? && fs.entries == after;
      }
      if err.Some? {
        return;
      }
      assert fs.entries == Survivors(dirContents[..i + 1], keep) + dirContents[i + 1..];
      i := i + 1;
    }
    assert dirContents[..i] == dirContents;
  }

  /** A GitClient: its Gitter, the directory at repoPath, and sshPath. */
  class GitClient {
    const repository: GitterImpl
    const repoDir: FileSystem
    const sshPath: string

    /** OpenRepository once git.OpenRepository has succeeded. */
    constructor (repository: GitterImpl, repoDir: FileSystem, sshPath: string)
      ensures this.repository == repository && this.repoDir == repoDir && this.sshPath == sshPath
    {
      this.repository := repository;
      this.repoDir := repoDir;
      this.sshPath := sshPath;
    }

    /** CheckoutTag: each step runs only if every earlier one succeeded; the
        result is described by CheckoutTagRun and the lemmas about it. */
    method CheckoutTag(tag: string) returns (err: Option<string>)
      requires repoDir.Valid()
      modifies repository.r, repoDir
      ensures repoDir.Valid()
      ensures var run := CheckoutTagRun(repository.r, repoDir, old(repoDir.entries), tag);
        && repository.r.calls == old(repository.r.calls) + run.calls
        && err == run.err
        && repoDir.entries == run.entries
    {
      err := CheckoutHead(tag);
      if err.Some? {
        return;
      }
      err := PruneToSparseCheckout();
    }

    /** The first half of CheckoutTag (gitclient.go:161-182): fetch from
        origin, find the tag and check its tree out. */
    method CheckoutHead(tag: string) returns (err: Option<string>)
      modifies repository.r
      ensures var g := GitPhase(repository.r, tag);
        repository.r.calls == old(repository.r.calls) + g.calls && err == g.err
    {
      var r := repository.RemotesLookup(ORIGIN);
      if r.Err? {
        return Some(r.msg);
      }
      err := repository.r.Fetch(r.value, REFSPECS, "");
      if err.Some? {
        return;
      }

      var t, tagErr := repository.GetTag(tag);
      if !(t.Some? && tagErr.None?) {
        return Some(TAG_NOT_FOUND);
      }

      err := repository.CheckoutTree(t.value, tag, CHECKOUT_OPTS);
    }

    /** The second half of CheckoutTag (gitclient.go:185-234), run once HEAD
        points at the tag: the metadata lookups and the prune. The error is
        the one CheckoutTag returns. */
    method PruneToSparseCheckout() returns (err: Option<string>)
      requires repoDir.Valid()
      modifies repoDir
      ensures repoDir.Valid()
      ensures var p := SparsePhase(repoDir, old(repoDir.entries));
        err == p.err && repoDir.entries == p.entries
    {
      var workPath: Path := [];
      var g := GetFileInfoByName(ReadDir(repoDir, repoDir.entries, workPath), GIT_DIR);
      if g.Err? {
        return Some(g.msg);
      }

      var sparseFlag := true;
      workPath := workPath + [g.value.name];
      var info := GetFileInfoByName(ReadDir(repoDir, repoDir.entries, workPath), INFO_DIR);
      if info.Err? {
        if info.msg != ERRNF {
          return Some(info.msg);
        }
        sparseFlag := false;
      }

      if sparseFlag {
        workPath := workPath + [info.value.name];
        var sparse := GetFileInfoByName(ReadDir(repoDir, repoDir.entries, workPath), SPARSE_FILE);
        if sparse.Err? {
          if sparse.msg != ERRNF {
            return Some(sparse.msg);
          }
          sparseFlag := false;
        }
        if sparse.Ok? {
          workPath := workPath + [sparse.value.name];
          var sparseData := ReadFile(repoDir, workPath);
          if sparseData.Err? {
            return Some(sparseData.msg);
          }
          var sparses := Split(sparseData.value);
          var dirContents: seq<FileInfo>;
          match ReadDir(repoDir, repoDir.entries, []) {
            case Err(e) => return Some(e);
            case Ok(listing) => dirContents := listing;
          }
          err := RemoveUncovered(repoDir, dirContents, sparses);
          if err.Some? {
            return;
          }
        }
      }
      return None;
    }
  }

  // ---------------------------------------------------------------------------
  // What the model promises

  /** The sparseEntries tests, and the directory form of an entry. */
  lemma CoversExamples()
    ensures Covers(["first", "second", "third"], "second")
    ensures !Covers(["first", "second", "third"], "fourth")
    ensures Covers(["dir/"], "dir")
  {
    CoversIffListed(["first", "second", "third"], "second");
    CoversIffListed(["first", "second", "third"], "fourth");
    CoversIffListed(["dir/"], "dir");
    assert ["first", "second", "third"][1] == "second";
    assert ["dir/"][0] == "dir" + [PATH_SEPARATOR];
  }

  /** The empty entry a trailing newline leaves covers no entry. */
  lemma EmptyEntryCoversNothing(se: seq<string>, name: Name)
    ensures Covers(se + [""], name) == Covers(se, name)
  {
    CoversIffListed(se + [""], name);
    CoversIffListed(se, name);
    var all := se + [""];
    assert |name + [PATH_SEPARATOR]| > 0;
    if Covers(all, name) {
      var k :| 0 <= k < |all| && (all[k] == name || all[k] == name + [PATH_SEPARATOR]);
      assert k < |se| && se[k] == all[k];
    }
    if Covers(se, name) {
      var k :| 0 <= k < |se| && (se[k] == name || se[k] == name + [PATH_SEPARATOR]);
      assert all[k] == se[k];
    }
  }

  /** The libgit2 calls of a run come in the fixed order lookup of origin,
      fetch of the two refspecs, Odb, CheckoutTree with the package options,
      SetHead to the tag's ref, and a run that stops early makes a prefix of
      them; the tree checked out is that of the last tag found by exactly
      the requested name. */
  lemma CallOrder(repo: Repository, fs: FileSystem, entries: seq<FileInfo>, tag: string)
    ensures var run := CheckoutTagRun(repo, fs, entries, tag);
      && 1 <= |run.calls| <= 5
      && run.calls[0] == Call.RemotesLookup(ORIGIN)
      && (|run.calls| > 1 ==> run.calls[1] == Call.Fetch(REFSPECS, ""))
      && (|run.calls| > 2 ==> run.calls[2] == Call.Odb)
      && (|run.calls| > 3 ==>
            && repo.objects.Ok? && FoundTag(repo.objects.value, tag).Some?
            && FoundTag(repo.objects.value, tag).value.name == tag
            && var t := FoundTag(repo.objects.value, tag).value;
               t.target.Ok? && t.target.value.tree.Ok? &&
               run.calls[3] == Call.CheckoutTree(t.target.value.tree.value, CHECKOUT_OPTS))
      && (|run.calls| > 4 ==> run.calls[4] == Call.SetHead(TAG_REF_PREFIX + tag))
  {
    if repo.objects.Ok? {
      FoundTagIsLastExactMatch(repo.objects.value, tag);
    }
  }

  /** A failed lookup of origin or a failed fetch is returned as it is and
      nothing after it runs. */
  lemma RemoteFailureStops(repo: Repository, fs: FileSystem, entries: seq<FileInfo>, tag: string)
    requires repo.remote.Err? || repo.remote.value.fetchError.Some?
    ensures var run := CheckoutTagRun(repo, fs, entries, tag);
      && run.err == (if repo.remote.Err? then Some(repo.remote.msg) else repo.remote.value.fetchError)
      && |run.calls| == (if repo.remote.Err? then 1 else 2)
      && run.entries == entries
  {
  }

  /** When the object database cannot be opened, or has no tag of that
      name before the first failed lookup, the run reports the fixed
      tag-not-found error (the Odb error itself is lost), checks nothing out
      and removes nothing. */
  lemma MissingTagStops(repo: Repository, fs: FileSystem, entries: seq<FileInfo>, tag: string)
    requires repo.remote.Ok? && repo.remote.value.fetchError.None?
    requires repo.objects.Err? || forall j :: 0 <= j < Reach(repo.objects.value) ==> !IsTagNamed(repo.objects.value[j], tag)
    ensures CheckoutTagRun(repo, fs, entries, tag) ==
      Run([Call.RemotesLookup(ORIGIN), Call.Fetch(REFSPECS, ""), Call.Odb], Some(TAG_NOT_FOUND), entries)
  {
  }

  /** The git half succeeds exactly when origin is found and fetched, the
      tag is found, and its commit, tree, checkout and SetHead all succeed;
      it has then made all five calls. */
  lemma GitPhaseSucceeds(repo: Repository, tag: string)
    ensures GitPhase(repo, tag).err.None? <==>
      && repo.remote.Ok? && repo.remote.value.fetchError.None?
      && repo.objects.Ok? && FoundTag(repo.objects.value, tag).Some?
      && var t := FoundTag(repo.objects.value, tag).value;
         t.target.Ok? && t.target.value.tree.Ok? && repo.checkoutError.None? && repo.setHeadError.None?
    ensures GitPhase(repo, tag).err.None? ==>
      |GitPhase(repo, tag).calls| == 5 && GitPhase(repo, tag).calls[4] == Call.SetHead(TAG_REF_PREFIX + tag)
  {
    if repo.remote.Ok? && repo.remote.value.fetchError.None? && repo.objects.Ok? && FoundTag(repo.objects.value, tag).Some? {
      CheckoutStepsOrder(repo, FoundTag(repo.objects.value, tag).value, tag);
    }
  }

  /** Nothing is removed unless HEAD was moved to the tag first. */
  lemma NoRemovalBeforeHead(repo: Repository, fs: FileSystem, entries: seq<FileInfo>, tag: string)
    ensures var run := CheckoutTagRun(repo, fs, entries, tag);
      run.entries != entries ==> |run.calls| == 5 && run.calls[4] == Call.SetHead(TAG_REF_PREFIX + tag) &&
                                 repo.setHeadError.None?
  {
    GitPhaseSucceeds(repo, tag);
  }

  /** Without `.git` in the repository directory (an empty directory, say)
      the prune fails with ERRNF; when the directory cannot be listed its
      error is returned. Either way nothing is removed. */
  lemma MissingGitDirFails(fs: FileSystem, entries: seq<FileInfo>)
    requires fs.rootError.Some? || forall k :: 0 <= k < |entries| ==> entries[k].name != GIT_DIR
    ensures SparsePhase(fs, entries) ==
      PruneRun(Some(if fs.rootError.Some? then fs.rootError.value else ERRNF), entries)
  {
  }

  /** With `.git` present, a missing `info` or a missing `sparse-checkout`
      ends the run successfully with nothing removed; any other error
      listing them is returned, again with nothing removed. */
  lemma MetadataLookupRouting(fs: FileSystem, entries: seq<FileInfo>)
    requires fs.rootError.None? && exists k :: 0 <= k < |entries| && entries[k].name == GIT_DIR
    ensures var p := SparsePhase(fs, entries);
      && ((fs.gitListing.Ok? && forall k :: 0 <= k < |fs.gitListing.value| ==> fs.gitListing.value[k].name != INFO_DIR)
            ==> p == PruneRun(None, entries))
      && (fs.gitListing.Err? ==> p == PruneRun(if fs.gitListing.msg == ERRNF then None else Some(fs.gitListing.msg), entries))
      && (fs.gitListing.Ok? && (exists k :: 0 <= k < |fs.gitListing.value| && fs.gitListing.value[k].name == INFO_DIR) ==>
            && ((fs.infoListing.Ok? && forall k :: 0 <= k < |fs.infoListing.value| ==> fs.infoListing.value[k].name != SPARSE_FILE)
                  ==> p == PruneRun(None, entries))
            && (fs.infoListing.Err? ==>
                  p == PruneRun(if fs.infoListing.msg == ERRNF then None else Some(fs.infoListing.msg), entries)))
  {
    FoundByName(entries, GIT_DIR);
    if fs.gitListing.Ok? && exists k :: 0 <= k < |fs.gitListing.value| && fs.gitListing.value[k].name == INFO_DIR {
      FoundByName(fs.gitListing.value, INFO_DIR);
      assert [GIT_DIR] + [INFO_DIR] == [GIT_DIR, INFO_DIR];
    }
  }

  /** The metadata lookups yield the sparse-checkout file's contents
      exactly when `.git`, `info` and the file are all in place. */
  lemma SparseDataFound(fs: FileSystem, entries: seq<FileInfo>, data: string)
    ensures SparseData(fs, entries) == Ok(Some(data)) <==> SparseConfigured(fs, entries, data)
  {
    if SparseConfigured(fs, entries, data) {
      ConfiguredLookups(fs, entries, data);
    }
    if SparseData(fs, entries) == Ok(Some(data)) {
      assert [GIT_DIR] + [INFO_DIR] == [GIT_DIR, INFO_DIR];
      assert [GIT_DIR, INFO_DIR] + [SPARSE_FILE] == [GIT_DIR, INFO_DIR, SPARSE_FILE];
    }
  }

  /** With the sparse-checkout file in place, the filesystem half is the
      prune of the listing by the file's lines. */
  lemma SparsePhaseIsPrune(fs: FileSystem, entries: seq<FileInfo>, data: string)
    requires SparseConfigured(fs, entries, data)
    ensures SparsePhase(fs, entries) == Prune(entries, Keep(Split(data)), RemoveAllFailure(fs.faults))
  {
    ConfiguredLookups(fs, entries, data);
  }

  /** With the sparse-checkout file in place, the prune succeeds exactly when
      no entry it must remove refuses removal, and then an entry remains
      exactly when the file lists it (or it in directory form) or it is
      hidden. Nothing is ever added. */
  lemma PruneOutcome(fs: FileSystem, entries: seq<FileInfo>, data: string)
    requires SparseConfigured(fs, entries, data)
    ensures var p := SparsePhase(fs, entries);
      && (p.err.None? <==> forall k :: 0 <= k < |entries| ==>
            Covers(Split(data), entries[k].name) || IsHidden(entries[k].name) || entries[k].name !in fs.faults)
      && (p.err.None? ==> forall k :: 0 <= k < |entries| ==>
            (entries[k] in p.entries <==> Covers(Split(data), entries[k].name) || IsHidden(entries[k].name)))
      && (forall x :: x in p.entries ==> x in entries)
  {
    var keep, fails := Keep(Split(data)), RemoveAllFailure(fs.faults);
    SparsePhaseIsPrune(fs, entries, data);
    PruneSucceeds(entries, keep, fails);
    PruneAddsNothing(entries, keep, fails);
  }

  /** A removal that fails ends the prune with its error: k, the first
      entry whose removal fails, is the one reported, the entries listed
      before it are gone exactly when neither covered nor hidden (Keep), it
      and all later entries are still listed. */
  lemma PruneStopsAtFailure(fs: FileSystem, entries: seq<FileInfo>, data: string)
    requires SparseConfigured(fs, entries, data) && DistinctNames(entries)
    requires SparsePhase(fs, entries).err.Some?
    ensures var p, keep := SparsePhase(fs, entries), Keep(Split(data));
      var k := FirstFailure(entries, keep, RemoveAllFailure(fs.faults));
        && k < |entries| && entries[k].name in fs.faults && p.err == Some(fs.faults[entries[k].name])
        && !keep(entries[k])
        && (forall j :: 0 <= j < k ==> (entries[j] in p.entries <==> keep(entries[j])))
        && (forall j :: k <= j < |entries| ==> entries[j] in p.entries)
  {
    SparsePhaseIsPrune(fs, entries, data);
    PruneStops(entries, Keep(Split(data)), RemoveAllFailure(fs.faults));
  }

  /** Running CheckoutTag again on what a successful run left behaves the
      same and removes nothing more. */
  lemma CheckoutTagIdempotent(repo: Repository, fs: FileSystem, entries: seq<FileInfo>, tag: string)
    requires CheckoutTagRun(repo, fs, entries, tag).err.None?
    ensures var run := CheckoutTagRun(repo, fs, entries, tag);
      CheckoutTagRun(repo, fs, run.entries, tag) == run
  {
    var p := SparsePhase(fs, entries);
    if p.entries != entries {
      var data := SparseData(fs, entries).value.value;
      SparseDataFound(fs, entries, data);
      var keep, fails := Keep(Split(data)), RemoveAllFailure(fs.faults);
      SparsePhaseIsPrune(fs, entries, data);
      PruneSucceeds(entries, keep, fails);
      var k :| 0 <= k < |entries| && entries[k].name == GIT_DIR;
      assert keep(entries[k]);
      var k' :| 0 <= k' < |p.entries| && p.entries[k'] == entries[k];
      assert SparseConfigured(fs, p.entries, data);
      SparsePhaseIsPrune(fs, p.entries, data);
      PruneIdempotent(entries, keep, fails);
    }
  }


  /** A second run after a successful one, on whatever its checkout left:
      CheckoutRecreateMissing may bring back entries the first prune
      deleted, so the second listing `again` lies between what the first
      run left and what its checkout had made. The second run makes the
      same calls, succeeds, and leaves exactly what the first run left. */
  lemma RerunAfterRecheckout(repo: Repository, fs: FileSystem, entries: seq<FileInfo>, again: seq<FileInfo>, tag: string)
    requires CheckoutTagRun(repo, fs, entries, tag).err.None?
    requires forall x :: x in again ==> x in entries
    requires forall x :: x in CheckoutTagRun(repo, fs, entries, tag).entries ==> x in again
    ensures var run, run2 := CheckoutTagRun(repo, fs, entries, tag), CheckoutTagRun(repo, fs, again, tag);
      && run2.calls == run.calls && run2.err.None?
      && forall x :: x in run2.entries <==> x in run.entries
  {
    assert GitPhase(repo, tag).err.None?;
    var sd := SparseData(fs, entries);
    if sd.Ok? && sd.value.Some? {
      RerunPrunes(fs, entries, again, sd.value.value);
    } else {
      RerunSkips(fs, entries, again);
    }
  }

  lemma RerunPrunes(fs: FileSystem, entries: seq<FileInfo>, again: seq<FileInfo>, data: string)
    requires SparseData(fs, entries) == Ok(Some(data)) && SparsePhase(fs, entries).err.None?
    requires forall x :: x in again ==> x in entries
    requires forall x :: x in SparsePhase(fs, entries).entries ==> x in again
    ensures SparsePhase(fs, again).err.None?
    ensures forall x :: x in SparsePhase(fs, again).entries <==> x in SparsePhase(fs, entries).entries
  {
    SparseDataFound(fs, entries, data);
    var keep, fails := Keep(Split(data)), RemoveAllFailure(fs.faults);
    SparsePhaseIsPrune(fs, entries, data);
    PruneSucceeds(entries, keep, fails);
    var k :| 0 <= k < |entries| && entries[k].name == GIT_DIR;
    assert keep(entries[k]);
    assert entries[k] in again;
    var k' :| 0 <= k' < |again| && again[k'] == entries[k];
    assert SparseConfigured(fs, again, data);
    SparsePhaseIsPrune(fs, again, data);
    forall j | 0 <= j < |again| ensures keep(again[j]) || fails(again[j]).None? {
      assert again[j] in entries;
      var i :| 0 <= i < |entries| && entries[i] == again[j];
    }
    PruneSucceeds(again, keep, fails);
  }

  lemma RerunSkips(fs: FileSystem, entries: seq<FileInfo>, again: seq<FileInfo>)
    requires SparsePhase(fs, entries).err.None? && !(SparseData(fs, entries).Ok? && SparseData(fs, entries).value.Some?)
    requires forall x :: x in SparsePhase(fs, entries).entries ==> x in again
    requires forall x :: x in again ==> x in entries
    ensures SparsePhase(fs, again).err.None?
    ensures forall x :: x in SparsePhase(fs, again).entries <==> x in SparsePhase(fs, entries).entries
  {
    assert FileInfoByName(ReadDir(fs, entries, []), GIT_DIR).Ok?;
    assert fs.rootError.None?;
    var k :| 0 <= k < |entries| && entries[k].name == GIT_DIR;
    assert entries[k] in again;
    var k' :| 0 <= k' < |again| && again[k'] == entries[k];
    FoundByName(entries, GIT_DIR);
    FoundByName(again, GIT_DIR);
    assert FileInfoByName(ReadDir(fs, again, []), GIT_DIR) == FileInfoByName(ReadDir(fs, entries, []), GIT_DIR);
  }

  /** The allowlist ["second"] covers `second` only; `.hidden` is hidden. */
  lemma ScenarioKeep()
    ensures !Keep(["second"])(FileInfo("first")) && Keep(["second"])(FileInfo("second"))
    ensures !Keep(["second"])(FileInfo("third")) && Keep(["second"])(FileInfo(".hidden"))
  {
    CoversIffListed(["second"], "first");
    CoversIffListed(["second"], "second");
    CoversIffListed(["second"], "third");
    assert ("first" + [PATH_SEPARATOR])[0] == 'f';
    assert ("third" + [PATH_SEPARATOR])[0] == 't';
  }

  /** With the allowlist ["second"], the prune of first, second, third,
      .hidden succeeds and leaves exactly `second` and `.hidden`. */
  lemma PruneScenario()
    ensures var es := [FileInfo("first"), FileInfo("second"), FileInfo("third"), FileInfo(".hidden")];
      var r := Prune(es, Keep(["second"]), RemoveAllFailure(map[]));
      && r.err.None?
      && FileInfo("second") in r.entries && FileInfo(".hidden") in r.entries
      && FileInfo("first") !in r.entries && FileInfo("third") !in r.entries
  {
    var es := [FileInfo("first"), FileInfo("second"), FileInfo("third"), FileInfo(".hidden")];
    var keep, fails := Keep(["second"]), RemoveAllFailure(map[]);
    ScenarioKeep();
    assert forall x :: fails(x).None?;
    PruneSucceeds(es, keep, fails);
    assert FileInfo("second") in es && FileInfo(".hidden") in es;
  }
}
