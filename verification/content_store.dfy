/** The remote content store behind `createStoryFile`, `getStoryContent` and
    `updateStoryFile`: a map from (repository, path) to the file's text and
    the version token (`sha`) of its current revision. A write that names a
    token must name the current one. Transport, authentication and base64
    are not modelled: whether the host answers at all is a parameter. None
    of the operations throws; each reports failure as a value. */
module ContentStore {
  import opened Wrappers

  type Sha = nat

  datatype Path = Path(repo: string, file: string)

  datatype Blob = Blob(content: string, sha: Sha)

  /** `nextSha` is the token the next write will produce. */
  datatype Store = Store(files: map<Path, Blob>, nextSha: Sha)

  /** What the host reports instead of a result. */
  datatype Failure = Unreachable | NotFound | AlreadyExists | StaleSha

  /** Every stored token was issued before `nextSha`, so a new token is
      never one a reader may still hold. */
  ghost predicate Valid(st: Store) {
    forall p :: p in st.files ==> st.files[p].sha < st.nextSha
  }

  /** The store after a successful write of `content` at `p`: the file
      gets the next token. */
  function Put(st: Store, p: Path, content: string): Store {
    Store(st.files[p := Blob(content, st.nextSha)], st.nextSha + 1)
  }

  /** `getStoryContent(repo, filename)`: the text and its token. */
  function GetStoryContent(st: Store, p: Path, reachable: bool): (r: Result<Blob, Failure>)
    ensures r.Ok? <==> reachable && p in st.files
    ensures r.Ok? ==> r.value == st.files[p]
    ensures r.Err? ==> (r.error == NotFound <==> reachable)
  {
    if !reachable then Err(Unreachable)
    else if p !in st.files then Err(NotFound)
    else Ok(st.files[p])
  }

  /** `updateStoryFile(repo, filename, content, message, sha)`: replaces the
      text when `sha` is the file's current token, and returns the new one. */
  function UpdateStoryFile(st: Store, p: Path, content: string, sha: Sha, reachable: bool)
    : (res: (Result<Sha, Failure>, Store))
    ensures res.0.Ok? <==> reachable && p in st.files && st.files[p].sha == sha
    ensures res.0.Err? ==> res.1 == st
    ensures res.0.Ok? ==>
      (res.0.value == st.nextSha && res.1 == Put(st, p, content))
    ensures Valid(st) ==> Valid(res.1)
  {
    if !reachable then (Err(Unreachable), st)
    else if p !in st.files then (Err(NotFound), st)
    else if st.files[p].sha != sha then (Err(StaleSha), st)
    else (Ok(st.nextSha), Put(st, p, content))
  }

  /** `createStoryFile(repo, filename, content, message)`: a write without a
      token, which the host refuses for a path that already has a file. */
  function CreateStoryFile(st: Store, p: Path, content: string, reachable: bool)
    : (res: (Result<Sha, Failure>, Store))
    ensures res.0.Ok? <==> reachable && p !in st.files
    ensures res.0.Err? ==> res.1 == st
    ensures res.0.Ok? ==>
      (res.0.value == st.nextSha && res.1 == Put(st, p, content))
    ensures Valid(st) ==> Valid(res.1)
  {
    if !reachable then (Err(Unreachable), st)
    else if p in st.files then (Err(AlreadyExists), st)
    else (Ok(st.nextSha), Put(st, p, content))
  }

  /** Reading right after a successful write returns what was written,
      with the token the write returned. */
  lemma ReadYourWrite(st: Store, p: Path, content: string, sha: Sha)
    requires UpdateStoryFile(st, p, content, sha, true).0.Ok?
    ensures var (r, st') := UpdateStoryFile(st, p, content, sha, true);
      GetStoryContent(st', p, true) == Ok(Blob(content, r.value))
  {
  }

  /** A write that names the token just read succeeds whenever the host
      answers: the read-then-write of a check-in can only fail upstream. */
  lemma WriteWithFreshSha(st: Store, p: Path, content: string, reachable: bool)
    requires GetStoryContent(st, p, true).Ok?
    ensures var sha := GetStoryContent(st, p, true).value.sha;
      UpdateStoryFile(st, p, content, sha, reachable).0.Ok? <==> reachable
  {
  }

  /** No lost update: of two writers that read the same token, the second
      to write is refused and the store keeps the first one's text. */
  lemma {:induction false} SecondWriterRefused(st: Store, p: Path, first: string, second: string)
    requires Valid(st) && p in st.files
    ensures var sha := st.files[p].sha;
      var (r1, st1) := UpdateStoryFile(st, p, first, sha, true);
      var (r2, st2) := UpdateStoryFile(st1, p, second, sha, true);
      r1.Ok? && r2 == Err(StaleSha) && st2 == st1 && st2.files[p].content == first
  {
    var sha := st.files[p].sha;
    var (r1, st1) := UpdateStoryFile(st, p, first, sha, true);
    assert st1.files[p].sha == st.nextSha != sha;
  }

  /** A file is created at most once: a second create on its path fails and
      leaves the first text in place. */
  lemma CreateOnce(st: Store, p: Path, first: string, second: string)
    requires p !in st.files
    ensures var (r1, st1) := CreateStoryFile(st, p, first, true);
      var (r2, st2) := CreateStoryFile(st1, p, second, true);
      r1.Ok? && r2 == Err(AlreadyExists) && st2 == st1 && st2.files[p] == Blob(first, r1.value)
  {
  }
}
