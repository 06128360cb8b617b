/** The filesystem as the checkout workflow sees it: directory listings, the
    sparse-checkout file, and removal of top-level entries of the repository
    directory. Paths are relative to the repository directory (`repoPath`). */
module Files {
  import opened Wrappers

  /** The error text getFileInfoByName returns when no entry has the name. */
  const ERRNF := "ERRNF"
  /** The error for a path the workflow never reads (no such file). */
  const NO_SUCH_FILE := "no such file or directory"
  /** os.PathSeparator on the Unix systems the tool runs on. */
  const PATH_SEPARATOR := '/'
  const NEWLINE := '\n'

  const GIT_DIR := ".git"
  const INFO_DIR := "info"
  const SPARSE_FILE := "sparse-checkout"

  /** A directory entry's name; a directory listing never reports an empty one. */
  type Name = s: string | |s| > 0 witness "."

  /** An os.FileInfo: the workflow only ever consults its Name(). */
  datatype FileInfo = FileInfo(name: Name)

  /** A path relative to the repository directory, as its components. */
  type Path = seq<string>

  /** A listing never holds two entries with one name. */
  predicate DistinctNames(es: seq<FileInfo>) {
    forall i, j :: 0 <= i < j < |es| ==> es[i].name != es[j].name
  }

  // ---------------------------------------------------------------------------
  // getFileInfoByName

  /** The loop of getFileInfoByName: the first listed entry called `name`. */
  function FindByName(es: seq<FileInfo>, name: string): (r: Option<FileInfo>)
    ensures r.None? <==> forall k :: 0 <= k < |es| ==> es[k].name != name
    ensures r.Some? ==> exists k :: 0 <= k < |es| && es[k] == r.value && r.value.name == name &&
                                    forall j :: 0 <= j < k ==> es[j].name != name
  {
    if es == [] then None
    else if es[0].name == name then Some(es[0])
    else
      var r := FindByName(es[1..], name);
      assert r.Some? ==> exists k :: 0 <= k < |es[1..]| && es[1..][k] == r.value && r.value.name == name &&
                                     forall j :: 0 <= j < k ==> es[1..][j].name != name;
      assert forall k :: 0 <= k < |es[1..]| ==> es[1..][k] == es[k + 1];
      r
  }

  /** What getFileInfoByName answers for the result of ReadDir(prefix): a listing error is
      passed on unchanged, a listing without the name gives ERRNF, and
      otherwise the first entry called `name` is returned. */
  function FileInfoByName(listing: Result<seq<FileInfo>>, name: string): (r: Result<FileInfo>)
    ensures listing.Err? ==> r == Err(listing.msg)
    ensures listing.Ok? ==> (r.Ok? <==> exists k :: 0 <= k < |listing.value| && listing.value[k].name == name)
    ensures listing.Ok? && r.Err? ==> r.msg == ERRNF
    ensures r.Ok? ==> r.value.name == name && r.value in listing.value
  {
    match listing
    case Err(e) => Err(e)
    case Ok(es) =>
      match FindByName(es, name)
      case Some(v) => Ok(v)
      case None => Err(ERRNF)
  }

  /** getFileInfoByName: the range loop over the listing, returning at the
      first entry with that name. */
  method GetFileInfoByName(listing: Result<seq<FileInfo>>, name: string) returns (r: Result<FileInfo>)
    ensures r == FileInfoByName(listing, name)
  {
    if listing.Err? {
      return Err(listing.msg);
    }
    var es := listing.value;
    var i := 0;
    while i < |es|
      invariant i <= |es|
      invariant FindByName(es, name) == FindByName(es[i..], name)
    {
      if es[i].name == name {
        return Ok(es[i]);
      }
      assert es[i..][1..] == es[i + 1..];
      i := i + 1;
    }
    return Err(ERRNF);
  }

  /** isHidden: the name starts with a dot. */
  predicate IsHidden(name: Name)
    ensures IsHidden(name) <==> "." <= name
  {
    name[0] == '.'
  }

  // ---------------------------------------------------------------------------
  // strings.Split(s, "\n") and its inverse

  /** strings.Split on "\n": the pieces between newlines, with the empty
      piece before a leading or after a trailing newline. */
  function Split(s: string): (parts: seq<string>)
    ensures |parts| >= 1
    ensures forall k :: 0 <= k < |parts| ==> NEWLINE !in parts[k]
  {
    if s == [] then [""]
    else
      var rest := Split(s[1..]);
      if s[0] == NEWLINE then [""] + rest
      else
        assert forall k :: 1 <= k < |rest| ==> rest[1..][k - 1] == rest[k];
        [[s[0]] + rest[0]] + rest[1..]
  }

  /** strings.Join on "\n". */
  function Join(parts: seq<string>): string
    requires |parts| >= 1
  {
    if |parts| == 1 then parts[0] else parts[0] + [NEWLINE] + Join(parts[1..])
  }

  function NewlineCount(s: string): nat {
    if s == [] then 0 else (if s[0] == NEWLINE then 1 else 0) + NewlineCount(s[1..])
  }

  /** Joining the pieces again gives back the file's contents. */
  lemma {:induction false} JoinSplit(s: string)
    ensures Join(Split(s)) == s
  {
    if s != [] {
      JoinSplit(s[1..]);
      var rest := Split(s[1..]);
      if s[0] != NEWLINE {
        if |rest| > 1 {
          assert Join(rest) == rest[0] + [NEWLINE] + Join(rest[1..]);
        }
      }
    }
  }

  /** Content with k newlines gives k + 1 pieces. */
  lemma {:induction false} SplitLength(s: string)
    ensures |Split(s)| == NewlineCount(s) + 1
  {
    if s != [] {
      SplitLength(s[1..]);
    }
  }

  /** Splitting newline-free pieces joined by newlines gives the pieces back. */
  lemma {:induction false} SplitJoin(parts: seq<string>)
    requires |parts| >= 1
    requires forall k :: 0 <= k < |parts| ==> NEWLINE !in parts[k]
    ensures Split(Join(parts)) == parts
  {
    if |parts| == 1 {
      SplitNoNewline(parts[0]);
    } else {
      SplitJoin(parts[1..]);
      SplitPrefix(parts[0], Join(parts[1..]));
    }
  }

  lemma {:induction false} SplitNoNewline(s: string)
    requires NEWLINE !in s
    ensures Split(s) == [s]
  {
    if s != [] {
      assert forall c :: c in s[1..] ==> c in s;
      SplitNoNewline(s[1..]);
      assert [s[0]] + s[1..] == s;
    }
  }

  lemma {:induction false} SplitPrefix(p: string, t: string)
    requires NEWLINE !in p
    ensures Split(p + [NEWLINE] + t) == [p] + Split(t)
  {
    if p != [] {
      var whole := p + [NEWLINE] + t;
      assert whole[0] == p[0] && whole[1..] == p[1..] + [NEWLINE] + t;
      assert forall c :: c in p[1..] ==> c in p;
      SplitPrefix(p[1..], t);
      var rest := Split(whole[1..]);
      assert rest == [p[1..]] + Split(t);
      assert Split(whole) == [[p[0]] + rest[0]] + rest[1..];
      assert [p[0]] + p[1..] == p;
      assert rest[1..] == Split(t);
    } else {
      assert p + [NEWLINE] + t == [NEWLINE] + t;
      assert ([NEWLINE] + t)[1..] == t;
    }
  }

  // ---------------------------------------------------------------------------
  // The filesystem oracle

  /** Removes every entry called `name`. */
  function Without(es: seq<FileInfo>, name: Name): seq<FileInfo> {
    if es == [] then [] else (if es[0].name == name then [] else [es[0]]) + Without(es[1..], name)
  }

  lemma {:induction false} WithoutAppend(a: seq<FileInfo>, b: seq<FileInfo>, name: Name)
    ensures Without(a + b, name) == Without(a, name) + Without(b, name)
  {
    if a != [] {
      assert (a + b)[1..] == a[1..] + b;
      WithoutAppend(a[1..], b, name);
    } else {
      assert a + b == b;
    }
  }

  /** Removing by name only drops entries, so names stay distinct. */
  lemma {:induction false} WithoutDistinct(es: seq<FileInfo>, name: Name)
    requires DistinctNames(es)
    ensures forall x :: x in Without(es, name) ==> x in es
    ensures DistinctNames(Without(es, name))
  {
    if es != [] {
      var tail := es[1..];
      assert DistinctNames(tail) by {
        forall i, j | 0 <= i < j < |tail| ensures tail[i].name != tail[j].name {
          assert tail[i] == es[i + 1] && tail[j] == es[j + 1];
        }
      }
      WithoutDistinct(tail, name);
      var w := Without(tail, name);
      forall x | x in w ensures x.name != es[0].name {
        var j :| 0 <= j < |tail| && tail[j] == x;
        assert es[j + 1] == x;
      }
      if es[0].name != name {
        ConsDistinct(es[0], w);
      }
    }
  }

  lemma ConsDistinct(h: FileInfo, w: seq<FileInfo>)
    requires DistinctNames(w) && forall x :: x in w ==> x.name != h.name
    ensures DistinctNames([h] + w)
  {
    var r := [h] + w;
    forall i, j | 0 <= i < j < |r| ensures r[i].name != r[j].name {
      assert r[j] == w[j - 1];
      if i > 0 {
        assert r[i] == w[i - 1];
      }
    }
  }

  lemma {:induction false} WithoutAbsent(a: seq<FileInfo>, name: Name)
    requires forall x :: x in a ==> x.name != name
    ensures Without(a, name) == a
  {
    if a != [] {
      WithoutAbsent(a[1..], name);
    }
  }

  /** What os.RemoveAll answers for a top-level entry: it fails only where
      the operating system refuses (`faults`). */
  function RemoveAllFailure(faults: map<Name, string>): FileInfo -> Option<string> {
    (v: FileInfo) => if v.name in faults then Some(faults[v.name]) else None
  }

  /** What os.Remove answers for a top-level entry: it also refuses a
      directory that still has entries (`populated`), with the operating
      system's "directory not empty" error. */
  function RemoveFailure(faults: map<Name, string>, populated: map<Name, string>): FileInfo -> Option<string> {
    (v: FileInfo) => if v.name in faults then Some(faults[v.name])
         else if v.name in populated then Some(populated[v.name])
         else None
  }

  /** The repository directory on disk, as it is after the tree was checked
      out: its top-level entries (which removal changes) and the fixed
      answers of every other read the workflow makes. */
  class FileSystem {
    /** Top-level entries of the repository directory, in ReadDir order. */
    var entries: seq<FileInfo>
    /** Set when the repository directory itself cannot be listed. */
    const rootError: Option<string>
    /** ReadDir of `.git` and of `.git/info`. */
    const gitListing: Result<seq<FileInfo>>
    const infoListing: Result<seq<FileInfo>>
    /** ReadFile of `.git/info/sparse-checkout`. */
    const sparseData: Result<string>
    /** Top-level names whose removal the operating system refuses. */
    const faults: map<Name, string>
    /** Top-level directories that still have entries, with the error
        os.Remove reports for each (ENOTEMPTY, naming the path). */
    const populated: map<Name, string>

    ghost predicate Valid()
      reads this
    {
      DistinctNames(entries)
    }

    constructor (entries: seq<FileInfo>, rootError: Option<string>,
                 gitListing: Result<seq<FileInfo>>, infoListing: Result<seq<FileInfo>>,
                 sparseData: Result<string>, faults: map<Name, string>, populated: map<Name, string>)
      requires DistinctNames(entries)
      ensures Valid()
      ensures this.entries == entries && this.rootError == rootError
      ensures this.gitListing == gitListing && this.infoListing == infoListing
      ensures this.sparseData == sparseData && this.faults == faults && this.populated == populated
    {
      this.entries := entries;
      this.rootError := rootError;
      this.gitListing := gitListing;
      this.infoListing := infoListing;
      this.sparseData := sparseData;
      this.faults := faults;
      this.populated := populated;
    }

    /** os.RemoveAll of a top-level entry. */
    method RemoveAll(name: Name) returns (err: Option<string>)
      requires Valid()
      modifies this
      ensures Valid()
      ensures err == if name in faults then Some(faults[name]) else None
      ensures entries == if err.Some? then old(entries) else Without(old(entries), name)
    {
      err := RemoveAllFailure(faults)(FileInfo(name));
      if err.None? {
        WithoutDistinct(entries, name);
        entries := Without(entries, name);
      }
    }

    /** os.Remove of a top-level entry. */
    method Remove(name: Name) returns (err: Option<string>)
      requires Valid()
      modifies this
      ensures Valid()
      ensures err == if name in faults then Some(faults[name]) else if name in populated then Some(populated[name]) else None
      ensures entries == if err.Some? then old(entries) else Without(old(entries), name)
    {
      err := RemoveFailure(faults, populated)(FileInfo(name));
      if err.None? {
        WithoutDistinct(entries, name);
        entries := Without(entries, name);
      }
    }
  }

  /** ioutil.ReadDir of a path, given the current top-level entries. */
  function ReadDir(fs: FileSystem, entries: seq<FileInfo>, p: Path): Result<seq<FileInfo>> {
    if p == [] then (if fs.rootError.Some? then Err(fs.rootError.value) else Ok(entries))
    else if p == [GIT_DIR] then fs.gitListing
    else if p == [GIT_DIR, INFO_DIR] then fs.infoListing
    else Err(NO_SUCH_FILE)
  }

  /** ioutil.ReadFile of a path. */
  function ReadFile(fs: FileSystem, p: Path): Result<string> {
    if p == [GIT_DIR, INFO_DIR, SPARSE_FILE] then fs.sparseData else Err(NO_SUCH_FILE)
  }

  /** The metadata a prune needs is all in place: the repository directory
      lists `.git`, `.git` lists `info`, `info` lists `sparse-checkout`, and
      that file reads as `data`. */
  predicate SparseConfigured(fs: FileSystem, entries: seq<FileInfo>, data: string) {
    && fs.rootError.None?
    && (exists k :: 0 <= k < |entries| && entries[k].name == GIT_DIR)
    && fs.gitListing.Ok? && (exists k :: 0 <= k < |fs.gitListing.value| && fs.gitListing.value[k].name == INFO_DIR)
    && fs.infoListing.Ok? && (exists k :: 0 <= k < |fs.infoListing.value| && fs.infoListing.value[k].name == SPARSE_FILE)
    && fs.sparseData == Ok(data)
  }

  /** A listing that holds `name` answers the lookup with that entry. */
  lemma FoundByName(listing: seq<FileInfo>, name: Name)
    requires exists k :: 0 <= k < |listing| && listing[k].name == name
    ensures FileInfoByName(Ok(listing), name) == Ok(FileInfo(name))
  {
  }

  /** Where the sparse-checkout file is in place, every lookup on the way to
      it succeeds. */
  lemma ConfiguredLookups(fs: FileSystem, entries: seq<FileInfo>, data: string)
    requires SparseConfigured(fs, entries, data)
    ensures ReadDir(fs, entries, []) == Ok(entries)
    ensures FileInfoByName(ReadDir(fs, entries, []), GIT_DIR) == Ok(FileInfo(GIT_DIR))
    ensures FileInfoByName(ReadDir(fs, entries, [GIT_DIR]), INFO_DIR) == Ok(FileInfo(INFO_DIR))
    ensures FileInfoByName(ReadDir(fs, entries, [GIT_DIR] + [INFO_DIR]), SPARSE_FILE) == Ok(FileInfo(SPARSE_FILE))
    ensures ReadFile(fs, [GIT_DIR] + [INFO_DIR] + [SPARSE_FILE]) == Ok(data)
  {
    FoundByName(entries, GIT_DIR);
    FoundByName(fs.gitListing.value, INFO_DIR);
    FoundByName(fs.infoListing.value, SPARSE_FILE);
    assert [GIT_DIR] + [INFO_DIR] == [GIT_DIR, INFO_DIR];
    assert [GIT_DIR] + [INFO_DIR] + [SPARSE_FILE] == [GIT_DIR, INFO_DIR, SPARSE_FILE];
  }

  // ---------------------------------------------------------------------------
  // Pruning: walk a listing, removing every entry not kept, stop at the first
  // removal that fails.

  datatype PruneRun = PruneRun(err: Option<string>, entries: seq<FileInfo>)

  /** The entries `keep` accepts, in listing order. */
  function Survivors(es: seq<FileInfo>, keep: FileInfo -> bool): (r: seq<FileInfo>)
    ensures |r| <= |es|
  {
    if es == [] then []
    else Survivors(es[..|es| - 1], keep) + (if keep(es[|es| - 1]) then [es[|es| - 1]] else [])
  }

  /** The survivors are exactly the listed entries that are kept. */
  lemma {:induction false} SurvivorsMembers(es: seq<FileInfo>, keep: FileInfo -> bool)
    ensures forall x :: x in Survivors(es, keep) ==> x in es && keep(x)
    ensures forall k :: 0 <= k < |es| && keep(es[k]) ==> es[k] in Survivors(es, keep)
  {
    if es != [] {
      var init := es[..|es| - 1];
      SurvivorsMembers(init, keep);
      forall k | 0 <= k < |es| - 1 ensures es[k] == init[k] { }
    }
  }

  /** The position of the first entry that is not kept and whose removal
      fails, or the length of the listing when there is none. */
  function FirstFailure(es: seq<FileInfo>, keep: FileInfo -> bool, fails: FileInfo -> Option<string>): (k: nat)
    ensures k <= |es|
    ensures forall j :: 0 <= j < k ==> keep(es[j]) || fails(es[j]).None?
    ensures k < |es| ==> !keep(es[k]) && fails(es[k]).Some?
  {
    if es == [] then 0
    else if !keep(es[0]) && fails(es[0]).Some? then 0
    else
      var k := FirstFailure(es[1..], keep, fails);
      assert forall j :: 1 <= j < k + 1 ==> es[j] == es[1..][j - 1];
      1 + k
  }

  /** The state a prune leaves: every entry before the first failed removal
      that is not kept is gone, the failing one and all after it are still listed. */
  function Prune(es: seq<FileInfo>, keep: FileInfo -> bool, fails: FileInfo -> Option<string>): PruneRun {
    var k := FirstFailure(es, keep, fails);
    if k == |es| then PruneRun(None, Survivors(es, keep))
    else PruneRun(fails(es[k]), Survivors(es[..k], keep) + es[k..])
  }

  /** One step of the prune loop over a kept entry: nothing is removed. */
  lemma AdvanceKept(es: seq<FileInfo>, i: nat, keep: FileInfo -> bool)
    requires i < |es| && keep(es[i])
    ensures Survivors(es[..i], keep) + es[i..] == Survivors(es[..i + 1], keep) + es[i + 1..]
  {
    assert es[..i + 1][..i] == es[..i];
    assert es[i..] == [es[i]] + es[i + 1..];
  }

  lemma NameUnique(es: seq<FileInfo>, i: nat)
    requires DistinctNames(es) && i < |es|
    ensures forall x :: x in es[..i] ==> x.name != es[i].name
    ensures forall x :: x in es[i + 1..] ==> x.name != es[i].name
  {
    forall x | x in es[..i] ensures x.name != es[i].name {
      var j :| 0 <= j < i && es[..i][j] == x;
      assert es[j] == x;
    }
    forall x | x in es[i + 1..] ensures x.name != es[i].name {
      var j :| 0 <= j < |es[i + 1..]| && es[i + 1..][j] == x;
      assert es[i + 1 + j] == x;
    }
  }

  /** One step of the prune loop over an entry that is not kept: removing it
      by name takes out exactly that entry, since names are distinct. */
  lemma AdvanceRemoved(es: seq<FileInfo>, i: nat, keep: FileInfo -> bool)
    requires DistinctNames(es) && i < |es| && !keep(es[i])
    ensures Without(Survivors(es[..i], keep) + es[i..], es[i].name) == Survivors(es[..i + 1], keep) + es[i + 1..]
  {
    NameUnique(es, i);
    var before, v, after := es[..i], es[i], es[i + 1..];
    assert es[..i + 1] == before + [v];
    assert es[i..] == [v] + after;
    RemoveOne(before, v, after, keep);
  }

  /** One whole step of a prune loop at position i, whose removal (when the
      entry is not kept) answered `err` and left `after`: either the loop
      goes on with its invariant one step further, or it stops with the
      prune's outcome. */
  lemma PruneStep(es: seq<FileInfo>, i: nat, keep: FileInfo -> bool, fails: FileInfo -> Option<string>,
                  before: seq<FileInfo>, err: Option<string>, after: seq<FileInfo>)
    requires DistinctNames(es) && i < |es| && i <= FirstFailure(es, keep, fails)
    requires before == Survivors(es[..i], keep) + es[i..]
    requires err == (if keep(es[i]) then None else fails(es[i]))
    requires after == (if keep(es[i]) || err.Some? then before else Without(before, es[i].name))
    ensures err.None? ==> i + 1 <= FirstFailure(es, keep, fails) && after == Survivors(es[..i + 1], keep) + es[i + 1..]
    ensures err.Some? ==> Prune(es, keep, fails) == PruneRun(err, after)
  {
    if keep(es[i]) {
      AdvanceKept(es, i, keep);
    } else if err.None? {
      AdvanceRemoved(es, i, keep);
    }
  }

  /** A prune loop that reached the end of the listing without a failed
      removal has produced the prune's outcome. */
  lemma PruneDone(es: seq<FileInfo>, keep: FileInfo -> bool, fails: FileInfo -> Option<string>)
    requires FirstFailure(es, keep, fails) == |es|
    ensures Prune(es, keep, fails) == PruneRun(None, Survivors(es[..|es|], keep) + es[|es|..])
  {
    assert es[..|es|] == es;
  }

  lemma RemoveOne(before: seq<FileInfo>, v: FileInfo, after: seq<FileInfo>, keep: FileInfo -> bool)
    requires !keep(v)
    requires forall x :: x in before ==> x.name != v.name
    requires forall x :: x in after ==> x.name != v.name
    ensures Without(Survivors(before, keep) + ([v] + after), v.name) == Survivors(before + [v], keep) + after
  {
    var s := Survivors(before, keep);
    var n := v.name;
    SurvivorsMembers(before, keep);
    assert (before + [v])[..|before|] == before;
    assert Survivors(before + [v], keep) == s;
    WithoutAbsent(s, n);
    WithoutAbsent(after, n);
    assert Without([v], n) == [];
    WithoutAppend([v], after, n);
    assert Without([v] + after, n) == after;
    WithoutAppend(s, [v] + after, n);
  }

  /** On success exactly the kept entries remain; a prune fails only when
      some unkept entry's removal fails. */
  lemma PruneSucceeds(es: seq<FileInfo>, keep: FileInfo -> bool, fails: FileInfo -> Option<string>)
    ensures Prune(es, keep, fails).err.None? <==> forall k :: 0 <= k < |es| ==> keep(es[k]) || fails(es[k]).None?
    ensures Prune(es, keep, fails).err.None? ==>
      forall x :: x in Prune(es, keep, fails).entries <==> x in es && keep(x)
  {
    SurvivorsMembers(es, keep);
  }

  /** A prune only ever removes: whatever remains was listed. */
  lemma PruneAddsNothing(es: seq<FileInfo>, keep: FileInfo -> bool, fails: FileInfo -> Option<string>)
    ensures forall x :: x in Prune(es, keep, fails).entries ==> x in es
  {
    var k := FirstFailure(es, keep, fails);
    SurvivorsMembers(es[..k], keep);
    SurvivorsMembers(es, keep);
    assert es == es[..k] + es[k..];
  }

  /** On failure: the error is that of the first refused removal; entries
      listed before it are gone exactly when not kept, it and every entry
      after it are still listed. */
  lemma PruneStops(es: seq<FileInfo>, keep: FileInfo -> bool, fails: FileInfo -> Option<string>)
    requires DistinctNames(es)
    requires Prune(es, keep, fails).err.Some?
    ensures var k, r := FirstFailure(es, keep, fails), Prune(es, keep, fails);
      && k < |es| && !keep(es[k]) && r.err == fails(es[k])
      && (forall j :: 0 <= j < k ==> (es[j] in r.entries <==> keep(es[j])))
      && (forall j :: k <= j < |es| ==> es[j] in r.entries)
  {
    var k := FirstFailure(es, keep, fails);
    var r := Prune(es, keep, fails);
    assert r.entries == Survivors(es[..k], keep) + es[k..];
    SurvivorsMembers(es[..k], keep);
    forall j | 0 <= j < k ensures es[j] in r.entries <==> keep(es[j]) {
      assert es[j] in es[..k];
    }
    forall j | k <= j < |es| ensures es[j] in r.entries {
      assert es[j] in es[k..];
    }
  }

  lemma {:induction false} SurvivorsTwice(es: seq<FileInfo>, keep: FileInfo -> bool)
    ensures Survivors(Survivors(es, keep), keep) == Survivors(es, keep)
  {
    if es != [] {
      var init := es[..|es| - 1];
      SurvivorsTwice(init, keep);
      var s := Survivors(init, keep);
      SurvivorsAppend(s, if keep(es[|es| - 1]) then [es[|es| - 1]] else [], keep);
    }
  }

  lemma {:induction false} SurvivorsAppend(a: seq<FileInfo>, b: seq<FileInfo>, keep: FileInfo -> bool)
    ensures Survivors(a + b, keep) == Survivors(a, keep) + Survivors(b, keep)
  {
    if b != [] {
      assert (a + b)[..|a + b| - 1] == a + b[..|b| - 1];
      SurvivorsAppend(a, b[..|b| - 1], keep);
    } else {
      assert a + b == a;
    }
  }

  /** A second prune of what a successful prune left removes nothing. */
  lemma PruneIdempotent(es: seq<FileInfo>, keep: FileInfo -> bool, fails: FileInfo -> Option<string>)
    ensures Prune(Survivors(es, keep), keep, fails) == PruneRun(None, Survivors(es, keep))
  {
    SurvivorsTwice(es, keep);
    SurvivorsMembers(es, keep);
  }
}
