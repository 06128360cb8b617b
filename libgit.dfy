/** The part of libgit2 (through git2go) that the checkout workflow uses, as an
    oracle: every call returns a fixed answer, and the calls that act on the
    repository are recorded, in order, in `calls`. */
module Libgit {
  import opened Wrappers

  const ORIGIN := "origin"
  /** Both versions fetch remote branches and all tags. */
  const REFSPECS: seq<string> := ["+refs/heads/*:refs/remotes/origin/*", "refs/tags/*:refs/tags/*"]
  const TAG_REF_PREFIX := "refs/tags/"

  type TreeId = nat

  /** A commit, with the answer of its Tree(). */
  datatype Commit = Commit(tree: Result<TreeId>)

  /** An annotated tag, with the answer of Target().AsCommit(). */
  datatype Tag = Tag(name: string, target: Result<Commit>)

  /** An object of the object database: AsTag() succeeds only on a tag. */
  datatype GitObject = TagObject(tag: Tag) | OtherObject

  /** A remote (a Fetcher), with the answer its Fetch gives. */
  datatype Remote = Remote(fetchError: Option<string>)

  /** The checkout strategy flags; what each one means is libgit2's business. */
  datatype Strategy = CheckoutSafe | CheckoutRecreateMissing | CheckoutAllowConflicts | CheckoutUseTheirs
  type CheckoutOpts = set<Strategy>

  /** The package-level checkoutOpts both versions pass to every checkout. */
  const CHECKOUT_OPTS: CheckoutOpts :=
    {CheckoutSafe, CheckoutRecreateMissing, CheckoutAllowConflicts, CheckoutUseTheirs}

  /** A call into libgit2, as recorded by the repository. */
  datatype Call =
    | RemotesLookup(name: string)
    | Fetch(refspecs: seq<string>, reflogMessage: string)
    | Odb
    | CheckoutTree(tree: TreeId, opts: CheckoutOpts)
    | SetHead(ref: string)

  /** The calls made and the error that ended them (None: all succeeded). */
  datatype Steps = Steps(calls: seq<Call>, err: Option<string>)

  /** An open repository. Its answers are fixed; `calls` logs what was asked
      of it. */
  class Repository {
    /** The answer of Remotes.Lookup. */
    const remote: Result<Remote>
    /** The answer of Odb(), and then of Lookup for each object id that
        ForEach enumerates, in enumeration order. */
    const objects: Result<seq<Result<GitObject>>>
    /** The answers of CheckoutTree and SetHead. */
    const checkoutError: Option<string>
    const setHeadError: Option<string>
    var calls: seq<Call>

    constructor (remote: Result<Remote>, objects: Result<seq<Result<GitObject>>>,
                 checkoutError: Option<string>, setHeadError: Option<string>)
      ensures this.remote == remote && this.objects == objects
      ensures this.checkoutError == checkoutError && this.setHeadError == setHeadError
      ensures calls == []
    {
      this.remote := remote;
      this.objects := objects;
      this.checkoutError := checkoutError;
      this.setHeadError := setHeadError;
      calls := [];
    }

    method LookupRemote(name: string) returns (r: Result<Remote>)
      modifies this
      ensures r == remote && calls == old(calls) + [Call.RemotesLookup(name)]
    {
      r := remote;
      calls := calls + [Call.RemotesLookup(name)];
    }

    /** Fetch on a remote of this repository. */
    method Fetch(rem: Remote, refspecs: seq<string>, reflogMessage: string) returns (err: Option<string>)
      modifies this
      ensures err == rem.fetchError && calls == old(calls) + [Call.Fetch(refspecs, reflogMessage)]
    {
      err := rem.fetchError;
      calls := calls + [Call.Fetch(refspecs, reflogMessage)];
    }

    method OpenOdb() returns (r: Result<seq<Result<GitObject>>>)
      modifies this
      ensures r == objects && calls == old(calls) + [Call.Odb]
    {
      r := objects;
      calls := calls + [Call.Odb];
    }

    method CheckoutTree(tree: TreeId, opts: CheckoutOpts) returns (err: Option<string>)
      modifies this
      ensures err == checkoutError && calls == old(calls) + [Call.CheckoutTree(tree, opts)]
    {
      err := checkoutError;
      calls := calls + [Call.CheckoutTree(tree, opts)];
    }

    method SetHead(ref: string) returns (err: Option<string>)
      modifies this
      ensures err == setHeadError && calls == old(calls) + [Call.SetHead(ref)]
    {
      err := setHeadError;
      calls := calls + [Call.SetHead(ref)];
    }
  }

  // ---------------------------------------------------------------------------
  // The tag scan: odb.ForEach with a callback that remembers the last tag
  // named `name` and aborts the enumeration when a lookup fails.

  predicate IsTagNamed(o: Result<GitObject>, name: string) {
    o.Ok? && o.value.TagObject? && o.value.tag.name == name
  }

  /** How many objects the scan inspects: all of them up to the first
      failed lookup. */
  function Reach(objects: seq<Result<GitObject>>): (k: nat)
    ensures k <= |objects|
    ensures forall j :: 0 <= j < k ==> objects[j].Ok?
    ensures k < |objects| ==> objects[k].Err?
  {
    if objects == [] || objects[0].Err? then 0
    else
      var k := Reach(objects[1..]);
      assert forall j :: 1 <= j < k + 1 ==> objects[j] == objects[1..][j - 1];
      1 + k
  }

  /** The last tag named `name` among the first k objects. */
  function LastTagBefore(objects: seq<Result<GitObject>>, name: string, k: nat): (t: Option<Tag>)
    requires k <= |objects|
    ensures t.None? <==> forall j :: 0 <= j < k ==> !IsTagNamed(objects[j], name)
    ensures t.Some? ==> exists j :: 0 <= j < k && IsTagNamed(objects[j], name) && objects[j].value.tag == t.value &&
                                    forall m :: j < m < k ==> !IsTagNamed(objects[m], name)
  {
    if k == 0 then None
    else if IsTagNamed(objects[k - 1], name) then Some(objects[k - 1].value.tag)
    else LastTagBefore(objects, name, k - 1)
  }

  /** The tag the scan finds. */
  function FoundTag(objects: seq<Result<GitObject>>, name: string): Option<Tag> {
    LastTagBefore(objects, name, Reach(objects))
  }

  /** The ForEach loop: returns the last tag named exactly `name` among the
      objects enumerated before the first failed lookup. */
  method ScanTags(objects: seq<Result<GitObject>>, name: string) returns (t: Option<Tag>)
    ensures t == FoundTag(objects, name)
  {
    t := None;
    var i := 0;
    while i < |objects|
      invariant i <= Reach(objects)
      invariant t == LastTagBefore(objects, name, i)
    {
      match objects[i]
      case Err(_) =>
        break;
      case Ok(obj) =>
        if obj.TagObject? && obj.tag.name == name {
          t := Some(obj.tag);
        }
      i := i + 1;
    }
  }

  /** The scan finds a tag exactly when some object before the first failed
      lookup is a tag with that very name, and then the tag has that name
      and no later such object precedes the failure. */
  lemma FoundTagIsLastExactMatch(objects: seq<Result<GitObject>>, name: string)
    ensures FoundTag(objects, name).Some? <==>
      exists j :: 0 <= j < Reach(objects) && IsTagNamed(objects[j], name)
    ensures FoundTag(objects, name).Some? ==> FoundTag(objects, name).value.name == name
    ensures FoundTag(objects, name).Some? ==>
      exists j :: 0 <= j < Reach(objects) && objects[j] == Ok(TagObject(FoundTag(objects, name).value)) &&
        forall m :: j < m < Reach(objects) ==> !IsTagNamed(objects[m], name)
  {
  }

  /** A failed lookup hides every tag enumerated after it. */
  lemma {:induction false} FailureHidesLaterTags(before: seq<Result<GitObject>>, e: string,
                                                 after: seq<Result<GitObject>>, name: string)
    ensures FoundTag(before + [Err(e)] + after, name) == FoundTag(before, name)
  {
    var all := before + [Err(e)] + after;
    var k := Reach(before);
    forall j | 0 <= j < k ensures all[j] == before[j] { }
    assert Reach(all) == k by {
      if k < |before| {
        assert all[k] == before[k];
      } else {
        assert all[k] == Err(e);
      }
    }
    SameTagPrefix(all, before, name, k);
  }

  lemma {:induction false} SameTagPrefix(a: seq<Result<GitObject>>, b: seq<Result<GitObject>>, name: string, k: nat)
    requires k <= |a| && k <= |b|
    requires forall j :: 0 <= j < k ==> a[j] == b[j]
    ensures LastTagBefore(a, name, k) == LastTagBefore(b, name, k)
  {
    if k > 0 {
      SameTagPrefix(a, b, name, k - 1);
    }
  }

  // ---------------------------------------------------------------------------
  // Checking out a tag's tree: AsCommit, Tree, CheckoutTree, SetHead.

  /** The calls the checkout of tag `t` makes and the error it ends with:
      each step runs only when every earlier one succeeded. */
  function CheckoutSteps(repo: Repository, t: Tag, tag: string): Steps {
    match t.target
    case Err(e) => Steps([], Some(e))
    case Ok(commit) =>
      match commit.tree
      case Err(e) => Steps([], Some(e))
      case Ok(tree) =>
        if repo.checkoutError.Some? then Steps([CheckoutTree(tree, CHECKOUT_OPTS)], repo.checkoutError)
        else Steps([CheckoutTree(tree, CHECKOUT_OPTS), SetHead(TAG_REF_PREFIX + tag)], repo.setHeadError)
  }

  /** The checkout succeeds exactly when every step does; it then has
      written the tag's tree with the fixed options and pointed HEAD at
      refs/tags/<tag>. Whatever the outcome, SetHead is only ever called
      after a successful CheckoutTree. */
  lemma CheckoutStepsOrder(repo: Repository, t: Tag, tag: string)
    ensures var s := CheckoutSteps(repo, t, tag);
      && (s.err.None? <==> t.target.Ok? && t.target.value.tree.Ok? && repo.checkoutError.None? && repo.setHeadError.None?)
      && (s.err.None? ==> s.calls == [CheckoutTree(t.target.value.tree.value, CHECKOUT_OPTS), SetHead(TAG_REF_PREFIX + tag)])
      && (forall i :: 0 <= i < |s.calls| && s.calls[i].SetHead? ==> i > 0 && s.calls[i - 1].CheckoutTree? && repo.checkoutError.None?)
      && (forall i :: 0 <= i < |s.calls| && s.calls[i].CheckoutTree? ==> s.calls[i].opts == CHECKOUT_OPTS)
  {
  }
}
