/** Repository ingestion (Backend/repo_handler.py) around `build_file_tree`:
    the GitHub URL match, the strings built from its groups, the language
    tag, the metadata defaults, and the step-by-step skeletons of
    `fetch_file_content` and `process_github_repo`.

    The network is a function from URL to the outcome of `requests.get`;
    the archive extraction and `os.walk` of the extracted folder are inputs.
    A ghost log records the requests issued and the life of the temporary
    directory. */
module RepoHandler {
  import opened Wrappers
  import opened PyStr
  import opened PyValue
  import FileTree

  // ---------------------------------------------------------------------------
  // The URL pattern  https:\/\/github\.com\/([\w\-\.]+)\/([\w\-\.]+)

  const GitHubPrefix: string := "https://github.com/"

  /** The class `[\w\-\.]`, with `\w` read as ASCII letters, digits and `_`. */
  predicate IsSegmentChar(c: char) {
    ('a' <= c <= 'z') || ('A' <= c <= 'Z') || ('0' <= c <= '9') || c == '_' || c == '-' || c == '.'
  }

  /** A string the group `([\w\-\.]+)` can match. */
  predicate IsSegment(s: string) {
    s != [] && forall i :: 0 <= i < |s| ==> IsSegmentChar(s[i])
  }

  /** The two groups of a match: owner and repository name. */
  datatype RepoRef = RepoRef(owner: string, repo: string)

  predicate ValidRef(ref: RepoRef) {
    IsSegment(ref.owner) && IsSegment(ref.repo)
  }

  /** `https://github.com/{user}/{repo}`. */
  function RepoUrl(ref: RepoRef): string {
    GitHubPrefix + ref.owner + "/" + ref.repo
  }

  /** Where a greedy `[\w\-\.]+` starting at `from` stops: the end of the
      longest run of class characters. */
  function RunEnd(s: string, from: nat): (n: nat)
    requires from <= |s|
    ensures from <= n <= |s|
    ensures forall j :: from <= j < n ==> IsSegmentChar(s[j])
    ensures n == |s| || !IsSegmentChar(s[n])
    decreases |s| - from
  {
    if from < |s| && IsSegmentChar(s[from]) then RunEnd(s, from + 1) else from
  }

  /** `re.match(pattern, url.strip())` followed by `match.groups()`. */
  function MatchRepoUrl(url: string): Option<RepoRef> {
    MatchStripped(Strip(url, Whitespace))
  }

  /** The match on the stripped URL. The first group cannot give back
      characters (a shorter run would be followed by a class character, not
      `/`), and the second is greedy; `re.match` anchors only at the start,
      so any tail is accepted. */
  function MatchStripped(s: string): Option<RepoRef> {
    var p := |GitHubPrefix|;
    if !StartsWith(s, GitHubPrefix) then None
    else
      var e := RunEnd(s, p);
      if e == p || e == |s| || s[e] != '/' then None
      else
        var f := RunEnd(s, e + 1);
        if f == e + 1 then None else Some(RepoRef(s[p..e], s[e + 1..f]))
  }

  /** The stripped URL `s` matches with groups `ref`: it starts with
      `https://github.com/{owner}/{repo}`, both groups are non-empty runs of
      class characters, and the repository group is maximal. */
  predicate MatchesAs(s: string, ref: RepoRef) {
    var head := RepoUrl(ref);
    ValidRef(ref) && StartsWith(s, head) && (|s| == |head| || !IsSegmentChar(s[|head|]))
  }

  /** A run of class characters followed by a non-class character (or the
      end) is exactly where a greedy run stops. */
  lemma {:induction false} RunEndExact(s: string, from: nat, n: nat)
    requires from <= n <= |s|
    requires forall j :: from <= j < n ==> IsSegmentChar(s[j])
    requires n == |s| || !IsSegmentChar(s[n])
    ensures RunEnd(s, from) == n
    decreases n - from
  {
    if from < n {
      RunEndExact(s, from + 1, n);
    }
  }

  /** A greedy run reaches at least as far as any run of class characters. */
  lemma {:induction false} RunEndCovers(s: string, from: nat, n: nat)
    requires from <= n <= |s|
    requires forall j :: from <= j < n ==> IsSegmentChar(s[j])
    ensures RunEnd(s, from) >= n
    decreases n - from
  {
    if from < n {
      RunEndCovers(s, from + 1, n);
    }
  }

  /** The layout of a string that starts with `https://github.com/{owner}/{repo}`:
      the prefix, then the owner, a `/` and the name. */
  lemma RepoUrlLayout(s: string, ref: RepoRef)
    requires StartsWith(s, RepoUrl(ref))
    ensures var p, e := |GitHubPrefix|, |GitHubPrefix| + |ref.owner|;
      StartsWith(s, GitHubPrefix) && e < |s| && s[e] == '/' &&
      s[p..e] == ref.owner && e + 1 + |ref.repo| <= |s| && s[e + 1..e + 1 + |ref.repo|] == ref.repo
  {
    var p, e := |GitHubPrefix|, |GitHubPrefix| + |ref.owner|;
    var n := e + 1 + |ref.repo|;
    var head := RepoUrl(ref);
    assert s[..n] == head;
    assert head[..p] == GitHubPrefix && head[p..e] == ref.owner && head[e] == '/' && head[e + 1..n] == ref.repo;
    assert s[..p] == s[..n][..p];
    assert s[p..e] == s[..n][p..e];
    assert s[e + 1..n] == s[..n][e + 1..n];
  }

  /** The stripped string starts with the URL its groups spell. */
  lemma SplitHead(s: string, p: nat, e: nat, f: nat)
    requires p <= e < f <= |s| && s[e] == '/'
    ensures s[..f] == s[..p] + s[p..e] + "/" + s[e + 1..f]
  {
    assert s[..f] == s[..p] + s[p..e] + s[e..e + 1] + s[e + 1..f];
  }

  /** Whatever matches, matches as its groups say. */
  lemma MatchSound(s: string)
    requires MatchStripped(s).Some?
    ensures MatchesAs(s, MatchStripped(s).value)
  {
    var ref := MatchStripped(s).value;
    var p := |GitHubPrefix|;
    var e := RunEnd(s, p);
    var f := RunEnd(s, e + 1);
    SplitHead(s, p, e, f);
    assert s[..p] == GitHubPrefix;
    assert forall i :: 0 <= i < |ref.owner| ==> ref.owner[i] == s[p + i];
    assert forall i :: 0 <= i < |ref.repo| ==> ref.repo[i] == s[e + 1 + i];
  }

  /** Any string that starts with `https://github.com/`, an owner run, `/`
      and a repository run is accepted whatever follows; the owner group is
      that owner and the repository group extends that run. */
  lemma MatchComplete(s: string, ref: RepoRef)
    requires ValidRef(ref) && StartsWith(s, RepoUrl(ref))
    ensures MatchStripped(s).Some?
    ensures MatchStripped(s).value.owner == ref.owner
    ensures StartsWith(MatchStripped(s).value.repo, ref.repo)
  {
    var p, e := |GitHubPrefix|, |GitHubPrefix| + |ref.owner|;
    var n := e + 1 + |ref.repo|;
    RepoUrlLayout(s, ref);
    RunsAreSegments(s, ref);
    RunEndExact(s, p, e);
    RunEndCovers(s, e + 1, n);
    var f := RunEnd(s, e + 1);
    assert s[e + 1..f][..|ref.repo|] == s[e + 1..n];
  }

  /** Both groups of `https://github.com/{owner}/{repo}` are class runs in a
      string that starts with it. */
  lemma RunsAreSegments(s: string, ref: RepoRef)
    requires ValidRef(ref) && StartsWith(s, RepoUrl(ref))
    ensures var p, e := |GitHubPrefix|, |GitHubPrefix| + |ref.owner|;
      (forall j :: p <= j < e ==> IsSegmentChar(s[j])) &&
      (forall j :: e + 1 <= j < e + 1 + |ref.repo| ==> IsSegmentChar(s[j]))
  {
    var p, e := |GitHubPrefix|, |GitHubPrefix| + |ref.owner|;
    RepoUrlLayout(s, ref);
    forall j | p <= j < e ensures IsSegmentChar(s[j]) {
      assert s[j] == s[p..e][j - p];
    }
    forall j | e + 1 <= j < e + 1 + |ref.repo| ensures IsSegmentChar(s[j]) {
      assert s[j] == s[e + 1..e + 1 + |ref.repo|][j - e - 1];
    }
  }

  /** The match is exactly `MatchesAs`: the groups are determined by the
      URL, so `MatchesAs` holds for one `ref` at most. */
  lemma MatchExact(url: string, ref: RepoRef)
    ensures MatchRepoUrl(url) == Some(ref) <==> MatchesAs(Strip(url, Whitespace), ref)
  {
    MatchStrippedExact(Strip(url, Whitespace), ref);
  }

  lemma MatchStrippedExact(s: string, ref: RepoRef)
    ensures MatchStripped(s) == Some(ref) <==> MatchesAs(s, ref)
  {
    if MatchStripped(s) == Some(ref) {
      MatchSound(s);
    }
    if MatchesAs(s, ref) {
      var e := |GitHubPrefix| + |ref.owner|;
      MatchComplete(s, ref);
      RepoUrlLayout(s, ref);
      RunsAreSegments(s, ref);
      RunEndExact(s, e + 1, e + 1 + |ref.repo|);
    }
  }

  /** `https://github.com/{owner}/{repo}` followed by a tail that does not
      continue the name matches with exactly those groups. */
  lemma MatchesWithTail(ref: RepoRef, tail: string)
    requires ValidRef(ref) && (tail == [] || !IsSegmentChar(tail[0]))
    ensures MatchStripped(RepoUrl(ref) + tail) == Some(ref)
  {
    var head := RepoUrl(ref);
    var s := head + tail;
    assert s[..|head|] == head;
    if tail != [] {
      assert s[|head|] == tail[0];
    }
    MatchStrippedExact(s, ref);
  }

  /** Stripping a string that neither starts nor ends with a stripped
      character changes nothing. */
  lemma StripUnchanged(s: string)
    requires s != [] && !IsSpace(s[0]) && !IsSpace(s[|s| - 1])
    ensures Strip(s, Whitespace) == s
  {
    StripKeepsPrefix(s, Whitespace, s);
    assert s[..|s|] == s;
  }

  /** `https://github.com/{user}/{repo}` matches back to the same groups. */
  lemma RepoUrlReparses(ref: RepoRef)
    requires ValidRef(ref)
    ensures MatchRepoUrl(RepoUrl(ref)) == Some(ref)
  {
    var u := RepoUrl(ref);
    assert u[0] == 'h' && u[|u| - 1] == ref.repo[|ref.repo| - 1];
    StripUnchanged(u);
    MatchesWithTail(ref, []);
    assert u + [] == u;
  }

  // ---------------------------------------------------------------------------
  // Strings built from the groups and the metadata

  /** `https://api.github.com/repos/{user}/{repo}`. */
  function RepoApiUrl(ref: RepoRef): string {
    "https://api.github.com/repos/" + ref.owner + "/" + ref.repo
  }

  /** `https://github.com/{user}/{repo}/archive/refs/heads/{branch}.zip`. */
  function ArchiveUrl(ref: RepoRef, branch: Json): string {
    RepoUrl(ref) + ArchivePath(branch)
  }

  function ArchivePath(branch: Json): string {
    "/archive/refs/heads/" + Text(branch) + ".zip"
  }

  /** `{repo}-{branch}`, the folder the archive is expected to unpack to. */
  function ExtractedFolder(ref: RepoRef, branch: Json): string {
    ref.repo + "-" + Text(branch)
  }

  /** `https://api.github.com/repos/{user}/{repo}/contents/{file_path}?ref={branch}`. */
  function ContentUrl(ref: RepoRef, filePath: string, branch: Json): string {
    RepoApiUrl(ref) + "/contents/" + filePath + "?ref=" + Text(branch)
  }

  /** The archive URL names the repository it was built from: matching it
      against the pattern gives back the same owner and name, whatever the
      branch. */
  lemma ArchiveUrlReparses(ref: RepoRef, branch: Json)
    requires ValidRef(ref)
    ensures MatchRepoUrl(ArchiveUrl(ref, branch)) == Some(ref)
  {
    var u := ArchiveUrl(ref, branch);
    var tail := ArchivePath(branch);
    assert tail[0] == '/' && tail[|tail| - 1] == 'p';
    assert u[0] == 'h' && u[|u| - 1] == 'p';
    StripUnchanged(u);
    MatchesWithTail(ref, tail);
  }

  /** `meta.get("default_branch", "main")`. */
  function DefaultBranch(meta: JsonObject): Json {
    Get(meta, "default_branch", Str("main"))
  }

  /** `file_path.split(".")[-1]`. */
  function LanguageTag(filePath: string): string {
    var pieces := Split(filePath, '.');
    pieces[|pieces| - 1]
  }

  /** The tag is the text after the last `.`, or the whole path when it has
      none: a suffix with no `.` that is all of the path or follows a `.`.
      It is neither lower-cased nor emptied for a path without a dot. */
  lemma LanguageTagIsExtension(filePath: string)
    ensures var tag := LanguageTag(filePath);
      '.' !in tag && |tag| <= |filePath| && tag == filePath[|filePath| - |tag|..] &&
      (|tag| == |filePath| || filePath[|filePath| - |tag| - 1] == '.') &&
      ('.' !in filePath ==> tag == filePath)
  {
    var tag := LanguageTag(filePath);
    SplitLast(filePath, '.');
    if |tag| < |filePath| {
      assert filePath[|filePath| - |tag| - 1] in filePath;
    } else {
      assert filePath[|filePath| - |tag|..] == filePath;
    }
  }

  // ---------------------------------------------------------------------------
  // The fetchers

  /** What `requests.get(url)` gives: a response with its status and what
      `.json()` makes of its body (an object, or the message of the
      exception `.json()` or the following `.get` raises), or the message
      of the exception `requests.get` itself raises. */
  datatype Outcome = Got(status: int, body: Result<JsonObject>) | Raised(message: string)

  /** The ghost record of effects: requests issued, and the temporary
      directory's creation and removal. */
  datatype Event = Request(url: string) | TempCreated | TempRemoved

  /** What `zipfile` leaves in the temporary directory: the relative paths
      that exist afterwards, or the message of the exception that writing or
      extracting the archive raised. */
  datatype Unzip = Extracted(paths: set<string>) | UnzipFailed(message: string)

  /** `fetch_file_content`'s dict: `{"error": ...}` or
      `{"content": ..., "language": ...}`. */
  datatype FileReply = FileError(error: string) | FileContent(content: string, language: string)

  /** `process_github_repo`'s dict, or an exception it lets escape (those
      raised before its `with` block). */
  datatype RepoReply =
    | RepoError(error: string)
    | RepoSummary(name: Json, description: Json, stars: Json, language: Json, fileTree: FileTree.Node)
    | Raises(message: string)

  const InvalidUrl: string := "Invalid GitHub URL"
  const InvalidRepoUrl: string := "Invalid GitHub repo URL."
  const NoRepoInfo: string := "Cannot fetch repo info"
  const NoContent: string := "No content available"
  const RepoNotFound: string := "GitHub repo not found or API rate limited."
  const FolderMissing: string := "Unzipped repo folder not found."

  function FetchFailed(message: string): string {
    "Failed to fetch file: " + message
  }

  function ProcessingFailed(message: string): string {
    "Processing failed: " + message
  }

  /** `fetch_file_content(repo_url, file_path)`. `decode` stands for
      `base64.b64decode(content).decode("utf-8")`: the text, or the message
      of what it raises. Every exception becomes a "Failed to fetch file"
      error. */
  method FetchFileContent(repoUrl: string, filePath: string, net: string -> Outcome, decode: Json -> Result<string>)
    returns (r: FileReply, ghost log: seq<Event>)
    ensures MatchRepoUrl(repoUrl).None? ==> r == FileError(InvalidUrl)
    ensures MatchRepoUrl(repoUrl).Some? ==>
      var info := net(RepoApiUrl(MatchRepoUrl(repoUrl).value));
      (info.Raised? ==> r == FileError(FetchFailed(info.message))) &&
      (info.Got? && info.status != 200 ==> r == FileError(NoRepoInfo)) &&
      (info.Got? && info.status == 200 && info.body.Err? ==> r == FileError(FetchFailed(info.body.error)))
    ensures MatchRepoUrl(repoUrl).Some? ==>
      var ref := MatchRepoUrl(repoUrl).value;
      var info := net(RepoApiUrl(ref));
      info.Got? && info.status == 200 && info.body.Ok? ==>
        var body := info.body.value;
        var branch := if "default_branch" in body then body["default_branch"] else Str("main");
        var resp := net(ContentUrl(ref, filePath, branch));
        (resp.Raised? ==> r == FileError(FetchFailed(resp.message))) &&
        (resp.Got? && resp.status != 200 ==> r == FileError("File not found (HTTP " + IntText(resp.status) + ")")) &&
        (resp.Got? && resp.status == 200 && resp.body.Err? ==> r == FileError(FetchFailed(resp.body.error))) &&
        (resp.Got? && resp.status == 200 && resp.body.Ok? ==>
          var content := Get(resp.body.value, "content", Null);
          (!Truthy(content) ==> r == FileError(NoContent)) &&
          (Truthy(content) && decode(content).Err? ==> r == FileError(FetchFailed(decode(content).error))) &&
          (Truthy(content) && decode(content).Ok? ==> r == FileContent(decode(content).value, LanguageTag(filePath))))
    ensures MatchRepoUrl(repoUrl).None? ==> log == []
    ensures MatchRepoUrl(repoUrl).Some? ==>
      var ref := MatchRepoUrl(repoUrl).value;
      var info := net(RepoApiUrl(ref));
      if info.Got? && info.status == 200 && info.body.Ok?
      then
        var body := info.body.value;
        var branch := if "default_branch" in body then body["default_branch"] else Str("main");
        log == [Request(RepoApiUrl(ref)), Request(ContentUrl(ref, filePath, branch))]
      else log == [Request(RepoApiUrl(ref))]
  {
    log := [];
    var m := MatchRepoUrl(repoUrl);
    if m.None? {
      r := FileError(InvalidUrl);
      return;
    }
    var ref := m.value;
    var api := RepoApiUrl(ref);
    log := log + [Request(api)];
    var info := net(api);
    if info.Raised? {
      r := FileError(FetchFailed(info.message));
      return;
    }
    if info.status != 200 {
      r := FileError(NoRepoInfo);
      return;
    }
    if info.body.Err? {
      r := FileError(FetchFailed(info.body.error));
      return;
    }
    var branch := DefaultBranch(info.body.value);
    var url := ContentUrl(ref, filePath, branch);
    log := log + [Request(url)];
    var resp := net(url);
    if resp.Raised? {
      r := FileError(FetchFailed(resp.message));
      return;
    }
    if resp.status != 200 {
      r := FileError("File not found (HTTP " + IntText(resp.status) + ")");
      return;
    }
    if resp.body.Err? {
      r := FileError(FetchFailed(resp.body.error));
      return;
    }
    var content := Get(resp.body.value, "content", Null);
    if !Truthy(content) {
      r := FileError(NoContent);
      return;
    }
    var text := decode(content);
    if text.Err? {
      r := FileError(FetchFailed(text.error));
      return;
    }
    r := FileContent(text.value, LanguageTag(filePath));
  }

  /** `process_github_repo(url)`. The URL check and the metadata request come
      first, outside the `with` block, and what they raise escapes; after
      them, every outcome is returned from inside the block, so the log ends
      with the temporary directory's removal. */
  method ProcessGitHubRepo(url: string, net: string -> Outcome, unzip: Unzip, walk: seq<FileTree.WalkEntry>)
    returns (r: RepoReply, ghost log: seq<Event>)
    ensures MatchRepoUrl(url).None? ==> r == RepoError(InvalidRepoUrl)
    ensures MatchRepoUrl(url).Some? ==>
      var ref := MatchRepoUrl(url).value;
      var meta := net(RepoApiUrl(ref));
      (meta.Raised? ==> r == Raises(meta.message)) &&
      (meta.Got? && meta.status != 200 ==> r == RepoError(RepoNotFound)) &&
      (meta.Got? && meta.status == 200 && meta.body.Err? ==> r == Raises(meta.body.error)) &&
      (meta.Got? && meta.status == 200 && meta.body.Ok? ==> r == InTempDir(ref, meta.body.value, net, unzip, walk))
    ensures MatchRepoUrl(url).None? ==> log == []
    ensures MatchRepoUrl(url).Some? ==>
      var ref := MatchRepoUrl(url).value;
      var meta := net(RepoApiUrl(ref));
      if meta.Got? && meta.status == 200 && meta.body.Ok?
      then
        var body := meta.body.value;
        var branch := if "default_branch" in body then body["default_branch"] else Str("main");
        log == [Request(RepoApiUrl(ref)), TempCreated, Request(ArchiveUrl(ref, branch)), TempRemoved]
      else log == [Request(RepoApiUrl(ref))]
    ensures TempCreated in log ==> log[|log| - 1] == TempRemoved
  {
    log := [];
    var m := MatchRepoUrl(url);
    if m.None? {
      r := RepoError(InvalidRepoUrl);
      return;
    }
    var ref := m.value;
    var api := RepoApiUrl(ref);
    log := log + [Request(api)];
    var metaRes := net(api);
    if metaRes.Raised? {
      r := Raises(metaRes.message);
      return;
    }
    if metaRes.status != 200 {
      r := RepoError(RepoNotFound);
      return;
    }
    if metaRes.body.Err? {
      r := Raises(metaRes.body.error);
      return;
    }
    var meta := metaRes.body.value;
    log := log + [TempCreated];
    var inner, steps := ScanArchive(ref, meta, net, unzip, walk);
    log := log + steps + [TempRemoved];
    r := inner;
  }

  /** What the body of the `with` block returns: the `try` turns every
      exception into a "Processing failed" error. The name is read before
      the tree is built, so a missing `"name"` wins over a tree error. A
      summary comes back exactly when the archive downloaded, unpacked to
      `{repo}-{branch}`, the metadata has a name and the tree was built; it
      carries the metadata with the defaults for absent keys. */
  function InTempDir(ref: RepoRef, meta: JsonObject, net: string -> Outcome, unzip: Unzip, walk: seq<FileTree.WalkEntry>): (r: RepoReply)
    ensures var branch := if "default_branch" in meta then meta["default_branch"] else Str("main");
      var res := net(ArchiveUrl(ref, branch));
      r.RepoSummary? <==>
        res.Got? && res.status == 200 && unzip.Extracted? && ExtractedFolder(ref, branch) in unzip.paths &&
        "name" in meta && FileTree.Build(walk).Ok?
    ensures r.RepoSummary? ==>
      r.name == meta["name"] && r.fileTree == FileTree.Build(walk).value &&
      ("description" in meta ==> r.description == meta["description"]) &&
      ("description" !in meta ==> r.description == Str("No description.")) &&
      ("stargazers_count" in meta ==> r.stars == meta["stargazers_count"]) &&
      ("stargazers_count" !in meta ==> r.stars == Int(0)) &&
      ("language" in meta ==> r.language == meta["language"]) &&
      ("language" !in meta ==> r.language == Str("Unknown"))
    ensures !r.Raises?
  {
    var branch := DefaultBranch(meta);
    var zipUrl := ArchiveUrl(ref, branch);
    var res := net(zipUrl);
    if res.Raised? then RepoError(ProcessingFailed(res.message))
    else if res.status != 200 then RepoError("Failed to download ZIP from " + zipUrl)
    else if unzip.UnzipFailed? then RepoError(ProcessingFailed(unzip.message))
    else if ExtractedFolder(ref, branch) !in unzip.paths then RepoError(FolderMissing)
    else if "name" !in meta then RepoError(ProcessingFailed("'name'"))
    else
      match FileTree.Build(walk)
      case Err(e) => RepoError(ProcessingFailed(e))
      case Ok(tree) =>
        RepoSummary(meta["name"], Get(meta, "description", Str("No description.")),
                    Get(meta, "stargazers_count", Int(0)), Get(meta, "language", Str("Unknown")), tree)
  }

  /** The steps inside the `with` block, one early return per failure. */
  method ScanArchive(ref: RepoRef, meta: JsonObject, net: string -> Outcome, unzip: Unzip, walk: seq<FileTree.WalkEntry>)
    returns (r: RepoReply, ghost steps: seq<Event>)
    ensures r == InTempDir(ref, meta, net, unzip, walk)
    ensures steps == [Request(ArchiveUrl(ref, if "default_branch" in meta then meta["default_branch"] else Str("main")))]
  {
    var branch := DefaultBranch(meta);
    var zipUrl := ArchiveUrl(ref, branch);
    steps := [Request(zipUrl)];
    var res := net(zipUrl);
    if res.Raised? {
      r := RepoError(ProcessingFailed(res.message));
      return;
    }
    if res.status != 200 {
      r := RepoError("Failed to download ZIP from " + zipUrl);
      return;
    }
    if unzip.UnzipFailed? {
      r := RepoError(ProcessingFailed(unzip.message));
      return;
    }
    if ExtractedFolder(ref, branch) !in unzip.paths {
      r := RepoError(FolderMissing);
      return;
    }
    if "name" !in meta {
      r := RepoError(ProcessingFailed("'name'"));
      return;
    }
    var tree := FileTree.BuildFileTree(walk);
    if tree.Err? {
      r := RepoError(ProcessingFailed(tree.error));
      return;
    }
    r := RepoSummary(meta["name"], Get(meta, "description", Str("No description.")),
                     Get(meta, "stargazers_count", Int(0)), Get(meta, "language", Str("Unknown")), tree.value);
  }
}
