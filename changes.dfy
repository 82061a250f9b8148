/**
 * The version-change locator of src/utils/changes.js. For one workspace it
 * walks the commits that touched the workspace's manifest, newest first,
 * skips root commits, and returns the first commit whose manifest `version`
 * differs from the one at its parent; for a list of workspaces it collects
 * those answers into a map.
 *
 * The git helpers and `JSON.parse` are outside this model: they are the
 * oracle functions of a `Host`, and each of them may fail, which stands for
 * the promise it returns being rejected.
 */
module Changes {
  import opened Wrappers

  datatype Commit = Commit(hash: string)

  /**
   * Why a step was rejected: a git process that failed, a manifest that is not
   * JSON (`JSON.parse`'s SyntaxError), or reading `.version` off `null`.
   */
  datatype Failure = ProcessError(exitCode: int, stderr: string) | JsonError(message: string) | TypeError(message: string)

  /** A value `JSON.parse` returns; an object keeps its members in text order. */
  datatype Json =
    | JNull
    | JBool(b: bool)
    | JNumber(x: real)
    | JString(s: string)
    | JArray(items: seq<Json>)
    | JObject(members: seq<(string, Json)>)

  /** The repository the commands run in; its directory is the `cwd` of every git call. */
  datatype Repository = Repository(dir: string)

  /** A workspace, seen through the path of its package manifest. */
  datatype Workspace = Workspace(filePath: string)

  /**
   * The helpers the locator calls. `getCommitsToFile(path, cwd)` lists the commits
   * that touched `path`, newest first; `getCommitParent(commit, cwd)` is the parent,
   * or `None` for a root commit; `showFileAtCommit(commit, path, cwd)` is the file's
   * text at that commit; `jsonParse(text)` is `JSON.parse(text)`.
   */
  datatype Host = Host(
    getCommitsToFile: (string, string) -> Result<seq<Commit>, Failure>,
    getCommitParent: (Commit, string) -> Result<Option<Commit>, Failure>,
    showFileAtCommit: (Commit, string, string) -> Result<string, Failure>,
    jsonParse: string -> Result<Json, Failure>)

  /** The value of `key` among an object's members: the last one, as `JSON.parse` keeps the last duplicate. */
  function Member(members: seq<(string, Json)>, key: string): (r: Option<Json>)
    ensures r.None? <==> forall i :: 0 <= i < |members| ==> members[i].0 != key
    ensures r.Some? ==>
      exists i :: 0 <= i < |members| && members[i] == (key, r.value)
        && (forall j :: i < j < |members| ==> members[j].0 != key)
    decreases |members|
  {
    if members == [] then None
    else if members[|members| - 1].0 == key then Some(members[|members| - 1].1)
    else Member(members[..|members| - 1], key)
  }

  /**
   * `json.version`: reading it off `null` throws; an object gives its member,
   * and any other value has no such property (`undefined`, here `None`).
   */
  function VersionField(json: Json): (r: Result<Option<Json>, Failure>)
    ensures r.Err? <==> json.JNull?
    ensures r.Ok? && r.value.Some? ==> json.JObject?
  {
    match json
    case JNull => Err(TypeError("Cannot read property 'version' of null"))
    case JObject(members) => Ok(Member(members, "version"))
    case _ => Ok(None)
  }

  /**
   * JavaScript's `a !== b` for two values read from two separate parses:
   * `undefined` equals only itself, primitives compare by value, and an
   * array or object is a fresh object, unequal to anything from the other parse.
   */
  predicate StrictlyUnequal(a: Option<Json>, b: Option<Json>) {
    match (a, b)
    case (None, None) => false
    case (Some(x), Some(y)) => x.JArray? || x.JObject? || y.JArray? || y.JObject? || x != y
    case _ => true
  }

  predicate HasParent(host: Host, dir: string, c: Commit) {
    host.getCommitParent(c, dir).Ok? && host.getCommitParent(c, dir).value.Some?
  }

  /** The manifest's `version` field at commit `c`: its text read, parsed, and the field read. */
  function ManifestVersion(host: Host, dir: string, path: string, c: Commit): Result<Option<Json>, Failure> {
    match host.showFileAtCommit(c, path, dir)
    case Err(e) => Err(e)
    case Ok(text) =>
      match host.jsonParse(text)
      case Err(e) => Err(e)
      case Ok(json) => VersionField(json)
  }

  /**
   * The part of the loop body after the parent is known: whether the `version`
   * at commit `c` is unequal to the one at its parent `p`.
   */
  function VersionChanged(host: Host, dir: string, path: string, p: Commit, c: Commit): Result<bool, Failure> {
    match host.showFileAtCommit(p, path, dir)
    case Err(e) => Err(e)
    case Ok(before) =>
      match host.showFileAtCommit(c, path, dir)
      case Err(e) => Err(e)
      case Ok(after) =>
        match host.jsonParse(before)
        case Err(e) => Err(e)
        case Ok(jsonBefore) =>
          match host.jsonParse(after)
          case Err(e) => Err(e)
          case Ok(jsonAfter) =>
            match VersionField(jsonAfter)
            case Err(e) => Err(e)
            case Ok(versionAfter) =>
              match VersionField(jsonBefore)
              case Err(e) => Err(e)
              case Ok(versionBefore) => Ok(StrictlyUnequal(versionAfter, versionBefore))
  }

  /**
   * One pass of the loop body for commit `c`: `Ok(true)` when it is the match,
   * `Ok(false)` when the loop moves on, `Err` when a step is rejected. The steps
   * run in the order of the source: parent, text at the parent, text at the
   * commit, parse of the first, parse of the second, then the `version` of the
   * second and of the first, as `jsonAfter.version !== jsonBefore.version`
   * reads them.
   */
  function Examine(host: Host, dir: string, path: string, c: Commit): Result<bool, Failure>
  {
    match host.getCommitParent(c, dir)
    case Err(e) => Err(e)
    case Ok(None) => Ok(false)
    case Ok(Some(parent)) => VersionChanged(host, dir, path, parent, c)
  }

  /**
   * What one pass of the loop body decides: a root commit is passed over; a
   * commit is a match exactly when both `version`s are read and unequal; it is
   * passed over exactly when it is a root commit or both are read and not unequal.
   */
  lemma ExamineOutcome(host: Host, dir: string, path: string, c: Commit)
    ensures var r := Examine(host, dir, path, c);
      host.getCommitParent(c, dir) == Ok(None) ==> r == Ok(false)
    ensures var r := Examine(host, dir, path, c);
      r == Ok(true) <==>
      HasParent(host, dir, c)
      && ManifestVersion(host, dir, path, host.getCommitParent(c, dir).value.value).Ok?
      && ManifestVersion(host, dir, path, c).Ok?
      && StrictlyUnequal(ManifestVersion(host, dir, path, c).value,
                         ManifestVersion(host, dir, path, host.getCommitParent(c, dir).value.value).value)
    ensures var r := Examine(host, dir, path, c);
      r == Ok(false) <==>
      host.getCommitParent(c, dir) == Ok(None)
      || (HasParent(host, dir, c)
          && ManifestVersion(host, dir, path, host.getCommitParent(c, dir).value.value).Ok?
          && ManifestVersion(host, dir, path, c).Ok?
          && !StrictlyUnequal(ManifestVersion(host, dir, path, c).value,
                              ManifestVersion(host, dir, path, host.getCommitParent(c, dir).value.value).value))
  {
  }

  /** The definition of the search: the first commit examined as a match, stopping at the first rejection. */
  function Locate(host: Host, dir: string, path: string, commits: seq<Commit>): Result<Option<Commit>, Failure>
    decreases |commits|
  {
    if commits == [] then Ok(None)
    else
      match Examine(host, dir, path, commits[0])
      case Err(e) => Err(e)
      case Ok(true) => Ok(Some(commits[0]))
      case Ok(false) => Locate(host, dir, path, commits[1..])
  }

  /** `getLastVersionCommitForWorkspace` as a value: list the commits, then search them. */
  function LastVersionCommit(host: Host, repo: Repository, workspace: Workspace): Result<Option<Commit>, Failure> {
    match host.getCommitsToFile(workspace.filePath, repo.dir)
    case Err(e) => Err(e)
    case Ok(commits) => Locate(host, repo.dir, workspace.filePath, commits)
  }

  /** The commits among `commits` that have a parent, in order: the ones whose manifest is read. */
  function Parented(host: Host, dir: string, commits: seq<Commit>): (r: seq<Commit>)
    ensures forall c :: c in r ==> c in commits && HasParent(host, dir, c)
    ensures |r| <= |commits|
  {
    if commits == [] then []
    else
      Parented(host, dir, commits[..|commits| - 1])
      + (if HasParent(host, dir, commits[|commits| - 1]) then [commits[|commits| - 1]] else [])
  }

  /** The search from position `i` examines `commits[i]` and, when it is passed over, goes on from `i + 1`. */
  lemma LocateStep(host: Host, dir: string, path: string, commits: seq<Commit>, i: nat)
    requires i < |commits|
    ensures Locate(host, dir, path, commits[i..])
      == match Examine(host, dir, path, commits[i])
         case Err(e) => Err(e)
         case Ok(true) => Ok(Some(commits[i]))
         case Ok(false) => Locate(host, dir, path, commits[i + 1..])
  {
    assert commits[i..][0] == commits[i] && commits[i..][1..] == commits[i + 1..];
  }

  /** One more commit adds itself to `Parented` exactly when it has a parent. */
  lemma ParentedStep(host: Host, dir: string, commits: seq<Commit>, i: nat)
    requires i < |commits|
    ensures Parented(host, dir, commits[..i + 1])
      == Parented(host, dir, commits[..i]) + (if HasParent(host, dir, commits[i]) then [commits[i]] else [])
  {
    assert commits[..i + 1][..i] == commits[..i];
  }

  /** Commits every one of which the loop passes over. */
  predicate AllPass(host: Host, dir: string, path: string, commits: seq<Commit>) {
    forall j :: 0 <= j < |commits| ==> Examine(host, dir, path, commits[j]) == Ok(false)
  }

  /** Passing over a prefix of commits leaves the answer of the rest. */
  lemma {:induction false} LocateSkips(host: Host, dir: string, path: string, commits: seq<Commit>, i: nat)
    requires i <= |commits|
    requires AllPass(host, dir, path, commits[..i])
    ensures Locate(host, dir, path, commits) == Locate(host, dir, path, commits[i..])
    decreases i
  {
    if i > 0 {
      assert commits[..i][0] == commits[0];
      assert Examine(host, dir, path, commits[0]) == Ok(false);
      var rest := commits[1..];
      assert rest[..i - 1] == commits[1..i];
      forall j | 1 <= j < i
        ensures Examine(host, dir, path, commits[j]) == Ok(false)
      {
        assert commits[j] == commits[..i][j];
      }
      assert AllPass(host, dir, path, rest[..i - 1]);
      LocateSkips(host, dir, path, rest, i - 1);
      assert rest[i - 1..] == commits[i..];
    }
  }

  /** A found commit is in the list, is a match, and every commit before it is passed over. */
  lemma {:induction false} LocateFound(host: Host, dir: string, path: string, commits: seq<Commit>) returns (i: nat)
    requires Locate(host, dir, path, commits).Ok? && Locate(host, dir, path, commits).value.Some?
    ensures i < |commits| && commits[i] == Locate(host, dir, path, commits).value.value
    ensures Examine(host, dir, path, commits[i]) == Ok(true)
    ensures AllPass(host, dir, path, commits[..i])
    decreases |commits|
  {
    if Examine(host, dir, path, commits[0]) == Ok(true) {
      i := 0;
    } else {
      var j := LocateFound(host, dir, path, commits[1..]);
      i := j + 1;
      forall k | 0 <= k < i
        ensures Examine(host, dir, path, commits[..i][k]) == Ok(false)
      {
        if k > 0 {
          assert commits[..i][k] == commits[1..][..j][k - 1];
        }
      }
    }
  }

  /**
   * What a found commit is, in the terms of the source: one of the listed commits,
   * not a root commit, and one whose manifest `version` differs from its parent's.
   */
  lemma LocatedVersionChanged(host: Host, dir: string, path: string, commits: seq<Commit>)
    requires Locate(host, dir, path, commits).Ok? && Locate(host, dir, path, commits).value.Some?
    ensures var c := Locate(host, dir, path, commits).value.value;
      c in commits
      && HasParent(host, dir, c)
      && ManifestVersion(host, dir, path, c).Ok?
      && ManifestVersion(host, dir, path, host.getCommitParent(c, dir).value.value).Ok?
      && StrictlyUnequal(ManifestVersion(host, dir, path, c).value,
                         ManifestVersion(host, dir, path, host.getCommitParent(c, dir).value.value).value)
  {
    var i := LocateFound(host, dir, path, commits);
  }

  /** Conversely, the first match after commits that are all passed over is the one found. */
  lemma LocateFirstMatch(host: Host, dir: string, path: string, commits: seq<Commit>, i: nat)
    requires i < |commits|
    requires AllPass(host, dir, path, commits[..i])
    requires Examine(host, dir, path, commits[i]) == Ok(true)
    ensures Locate(host, dir, path, commits) == Ok(Some(commits[i]))
  {
    LocateSkips(host, dir, path, commits, i);
    assert commits[i..][0] == commits[i];
  }

  /** The search finds nothing exactly when every commit is passed over, the empty list included. */
  lemma {:induction false} LocateNone(host: Host, dir: string, path: string, commits: seq<Commit>)
    ensures Locate(host, dir, path, commits) == Ok(None) <==> AllPass(host, dir, path, commits)
    decreases |commits|
  {
    if commits != [] {
      LocateNone(host, dir, path, commits[1..]);
      if AllPass(host, dir, path, commits) {
        forall k | 0 <= k < |commits| - 1
          ensures Examine(host, dir, path, commits[1..][k]) == Ok(false)
        {
          assert commits[1..][k] == commits[k + 1];
        }
      }
      if Locate(host, dir, path, commits) == Ok(None) {
        forall k | 0 <= k < |commits|
          ensures Examine(host, dir, path, commits[k]) == Ok(false)
        {
          if k > 0 {
            assert commits[k] == commits[1..][k - 1];
          }
        }
      }
    }
  }

  /**
   * Both manifests are parsed before either `version` is read. So a commit whose
   * text is not JSON is rejected with the parse error, even when the parent's
   * manifest is `null` and reading its `version` would throw.
   */
  lemma ParseErrorFirst(host: Host, dir: string, path: string, c: Commit, p: Commit, before: string, after: string)
    requires host.getCommitParent(c, dir) == Ok(Some(p))
    requires host.showFileAtCommit(p, path, dir) == Ok(before)
    requires host.showFileAtCommit(c, path, dir) == Ok(after)
    requires host.jsonParse(before) == Ok(JNull) && host.jsonParse(after).Err?
    ensures ManifestVersion(host, dir, path, p).Err? && ManifestVersion(host, dir, path, p).error.TypeError?
    ensures Examine(host, dir, path, c) == Err(host.jsonParse(after).error)
  {
  }

  /** A rejected search stops at a commit whose own step was rejected, with that error, after passing over the ones before. */
  lemma {:induction false} LocateFailed(host: Host, dir: string, path: string, commits: seq<Commit>) returns (i: nat)
    requires Locate(host, dir, path, commits).Err?
    ensures i < |commits|
    ensures Examine(host, dir, path, commits[i]) == Err(Locate(host, dir, path, commits).error)
    ensures AllPass(host, dir, path, commits[..i])
    decreases |commits|
  {
    if Examine(host, dir, path, commits[0]).Err? {
      i := 0;
    } else {
      var j := LocateFailed(host, dir, path, commits[1..]);
      i := j + 1;
      forall k | 0 <= k < i
        ensures Examine(host, dir, path, commits[..i][k]) == Ok(false)
      {
        if k > 0 {
          assert commits[..i][k] == commits[1..][..j][k - 1];
        }
      }
    }
  }

  /** The commits `getCommitsToFile` lists for the workspace's manifest. */
  function Listing(host: Host, repo: Repository, workspace: Workspace): Result<seq<Commit>, Failure> {
    host.getCommitsToFile(workspace.filePath, repo.dir)
  }

  /**
   * Lines 19-25 of the loop body: both manifests read and parsed, then the
   * `version` of the commit's and of the parent's compared with `!==`; the
   * first rejected step ends the comparison with its error.
   */
  method CompareVersions(host: Host, cwd: string, filePath: string, parentCommit: Commit, commit: Commit)
    returns (r: Result<bool, Failure>)
    ensures r == VersionChanged(host, cwd, filePath, parentCommit, commit)
  {
    var before := host.showFileAtCommit(parentCommit, filePath, cwd);
    if before.Err? {
      return Err(before.error);
    }
    var after := host.showFileAtCommit(commit, filePath, cwd);
    if after.Err? {
      return Err(after.error);
    }
    var jsonBefore := host.jsonParse(before.value);
    if jsonBefore.Err? {
      return Err(jsonBefore.error);
    }
    var jsonAfter := host.jsonParse(after.value);
    if jsonAfter.Err? {
      return Err(jsonAfter.error);
    }

    var versionAfter := VersionField(jsonAfter.value);
    if versionAfter.Err? {
      return Err(versionAfter.error);
    }
    var versionBefore := VersionField(jsonBefore.value);
    if versionBefore.Err? {
      return Err(versionBefore.error);
    }
    return Ok(StrictlyUnequal(versionAfter.value, versionBefore.value));
  }

  /**
   * How far the loop got over the listed `commits`: it reached the first
   * `visited`, read manifests for exactly those with a parent, stopped right
   * after the first match or at the first rejected commit, and reached every
   * commit when there was neither.
   */
  ghost predicate Trace(host: Host, repo: Repository, workspace: Workspace, commits: seq<Commit>,
                        r: Result<Option<Commit>, Failure>, visited: nat, shown: seq<Commit>)
  {
    && visited <= |commits|
    && shown == Parented(host, repo.dir, commits[..visited])
    && (r.Ok? && r.value.Some? ==>
          0 < visited && commits[visited - 1] == r.value.value
          && forall j :: 0 <= j < visited - 1 ==> Examine(host, repo.dir, workspace.filePath, commits[j]) == Ok(false))
    && (r == Ok(None) ==> visited == |commits|)
    && (r.Err? ==>
          0 < visited && Examine(host, repo.dir, workspace.filePath, commits[visited - 1]) == Err(r.error)
          && forall j :: 0 <= j < visited - 1 ==> Examine(host, repo.dir, workspace.filePath, commits[j]) == Ok(false))
  }

  /** The loop stops at position `i`, with the match found there or the rejection met there. */
  lemma TraceAt(host: Host, repo: Repository, workspace: Workspace, commits: seq<Commit>,
                i: nat, r: Result<Option<Commit>, Failure>, shown: seq<Commit>)
    requires i < |commits|
    requires shown == Parented(host, repo.dir, commits[..i + 1])
    requires forall j :: 0 <= j < i ==> Examine(host, repo.dir, workspace.filePath, commits[j]) == Ok(false)
    requires r.Err? ==> Examine(host, repo.dir, workspace.filePath, commits[i]) == Err(r.error)
    requires r.Ok? ==> r.value == Some(commits[i])
    ensures Trace(host, repo, workspace, commits, r, i + 1, shown)
  {
  }

  /**
   * `getLastVersionCommitForWorkspace`. Besides the answer it reports, as ghost
   * outputs, how many listed commits the loop reached and which of them had
   * their manifest read.
   */
  method GetLastVersionCommitForWorkspace(host: Host, repo: Repository, workspace: Workspace)
    returns (r: Result<Option<Commit>, Failure>, ghost visited: nat, ghost shown: seq<Commit>)
    ensures r == LastVersionCommit(host, repo, workspace)
    ensures Listing(host, repo, workspace).Ok? ==> Trace(host, repo, workspace, Listing(host, repo, workspace).value, r, visited, shown)
  {
    var filePath := workspace.filePath;
    var cwd := repo.dir;
    var listing := host.getCommitsToFile(filePath, cwd);
    if listing.Err? {
      return Err(listing.error), 0, [];
    }
    var commits := listing.value;
    assert Listing(host, repo, workspace) == Ok(commits);
    assert LastVersionCommit(host, repo, workspace) == Locate(host, cwd, filePath, commits);
    var matchedCommit: Option<Commit> := None;
    var i := 0;
    shown := [];

    while i < |commits|
      invariant i <= |commits|
      invariant Locate(host, cwd, filePath, commits) == Locate(host, cwd, filePath, commits[i..])
      invariant shown == Parented(host, cwd, commits[..i])
      invariant forall j :: 0 <= j < i ==> Examine(host, cwd, filePath, commits[j]) == Ok(false)
      invariant matchedCommit == None
    {
      var commit := commits[i];
      ParentedStep(host, cwd, commits, i);
      LocateStep(host, cwd, filePath, commits, i);
      i := i + 1;

      var parentCommit := host.getCommitParent(commit, cwd);
      if parentCommit.Err? {
        TraceAt(host, repo, workspace, commits, i - 1, Err(parentCommit.error), shown);
        return Err(parentCommit.error), i, shown;
      }
      if parentCommit.value.None? {
        continue;
      }
      shown := shown + [commit];

      assert Examine(host, cwd, filePath, commit) == VersionChanged(host, cwd, filePath, parentCommit.value.value, commit);
      var changed := CompareVersions(host, cwd, filePath, parentCommit.value.value, commit);
      if changed.Err? {
        TraceAt(host, repo, workspace, commits, i - 1, Err(changed.error), shown);
        return Err(changed.error), i, shown;
      }
      if changed.value {
        matchedCommit := Some(commit);
        TraceAt(host, repo, workspace, commits, i - 1, Ok(matchedCommit), shown);
        break;
      }
    }

    return Ok(matchedCommit), i, shown;
  }

  /**
   * `getWorkspaceVersionCommits`: the locator run over the workspaces in order,
   * each answer stored under its workspace. A rejected lookup rejects the whole
   * call; `failedAt` names the workspace whose lookup it was.
   */
  method GetWorkspaceVersionCommits(host: Host, repo: Repository, workspaces: seq<Workspace>)
    returns (r: Result<map<Workspace, Option<Commit>>, Failure>, ghost failedAt: nat)
    ensures r.Ok? <==> forall i :: 0 <= i < |workspaces| ==> LastVersionCommit(host, repo, workspaces[i]).Ok?
    ensures r.Ok? ==> forall w :: w in r.value <==> w in workspaces
    ensures r.Ok? ==> forall w :: w in r.value ==> LastVersionCommit(host, repo, w) == Ok(r.value[w])
    ensures r.Err? ==>
      failedAt < |workspaces|
      && LastVersionCommit(host, repo, workspaces[failedAt]) == Err(r.error)
      && forall j :: 0 <= j < failedAt ==> LastVersionCommit(host, repo, workspaces[j]).Ok?
  {
    var versionCommits: map<Workspace, Option<Commit>> := map[];
    failedAt := 0;

    for i := 0 to |workspaces|
      invariant forall j :: 0 <= j < i ==> LastVersionCommit(host, repo, workspaces[j]).Ok?
      invariant forall w :: w in versionCommits <==> w in workspaces[..i]
      invariant forall w :: w in versionCommits ==> LastVersionCommit(host, repo, w) == Ok(versionCommits[w])
    {
      var commit;
      ghost var visited, shown;
      commit, visited, shown := GetLastVersionCommitForWorkspace(host, repo, workspaces[i]);
      if commit.Err? {
        return Err(commit.error), i;
      }
      assert workspaces[..i + 1] == workspaces[..i] + [workspaces[i]];
      versionCommits := versionCommits[workspaces[i] := commit.value];
    }

    assert workspaces[..|workspaces|] == workspaces;
    return Ok(versionCommits), failedAt;
  }
}
