/**
 * `resolveDocsUriForFile`: from the active file's workspace, base name and
 * the configuration, find its documentation file under the documentation
 * root, first directly and then by the recursive search.
 *
 * The host's lookups are parameters: the workspace folder of the active file
 * (`None` when the file lies in no workspace) and `fs`, the node found at each
 * absolute path that exists. The active file's base name is an input.
 */
module Resolver {
  import opened Wrappers
  import opened PathExpander
  import opened FileTree

  predicate StartsWithDot(s: string)
  {
    |s| > 0 && s[0] == '.'
  }

  /**
   * The configured extension with a leading dot: the string that starts with
   * `.` and ends with `ext`, adding a dot only when `ext` lacks one.
   */
  function NormalizeExt(ext: string): (r: string)
    ensures StartsWithDot(r)
    ensures |ext| <= |r| <= |ext| + 1 && r[|r| - |ext|..] == ext
    ensures StartsWithDot(ext) ==> r == ext
  {
    if StartsWithDot(ext) then ext else "." + ext
  }

  /** Normalising twice changes nothing more. */
  lemma NormalizeExtIdempotent(ext: string)
    ensures NormalizeExt(NormalizeExt(ext)) == NormalizeExt(ext)
  {
  }

  /** `md` and `.md` normalise to the same extension. */
  lemma NormalizeExtDotOptional(ext: string)
    requires !StartsWithDot(ext)
    ensures NormalizeExt(ext) == NormalizeExt("." + ext)
  {
  }

  /**
   * The name searched for: the base name, then a dot, then the configured
   * extension without its own leading dot if it had one.
   */
  function TargetFileName(baseName: string, ext: string): (r: string)
    ensures |baseName| < |r| && |baseName| + |ext| <= |r| <= |baseName| + 1 + |ext|
    ensures r[..|baseName|] == baseName && r[|baseName|] == '.'
    ensures r[|r| - |ext|..] == ext
    ensures StartsWithDot(ext) ==> r == baseName + ext
    ensures !StartsWithDot(ext) ==> r == baseName + "." + ext
  {
    baseName + NormalizeExt(ext)
  }

  /** The found documentation file: the documentation root and the names below it. */
  datatype DocsLocation = DocsLocation(root: string, relative: seq<string>)

  /** The file-system path of a location, `path.join` applied name by name. */
  function JoinAll(base: string, names: seq<string>): (r: string)
    ensures |r| >= |base| && r[..|base|] == base
    ensures names == [] ==> r == base
    ensures names != [] ==>
      (|r| > |base| + |names[|names| - 1]| && r[|r| - |names[|names| - 1]| - 1..] == "/" + names[|names| - 1])
    decreases names
  {
    if names == [] then base else JoinAll(Join(base, names[0]), names[1..])
  }

  /** Joining names one by one is joining the last name under the join of the others. */
  lemma {:induction false} JoinAllLast(base: string, names: seq<string>)
    requires names != []
    ensures JoinAll(base, names) == Join(JoinAll(base, names[..|names| - 1]), names[|names| - 1])
    decreases names
  {
    if |names| > 1 {
      var rest := names[1..];
      JoinAllLast(Join(base, names[0]), rest);
      assert rest[..|rest| - 1] == names[..|names| - 1][1..];
    }
  }

  function FsPath(loc: DocsLocation): (r: string)
    ensures |r| >= |loc.root| && r[..|loc.root|] == loc.root
    ensures loc.relative != [] ==>
      var last := loc.relative[|loc.relative| - 1];
      |r| > |loc.root| + |last| && r[|r| - |last| - 1..] == "/" + last
  {
    JoinAll(loc.root, loc.relative)
  }

  /**
   * The path of a location with names below its root is the path of the
   * location one level up, joined with the last name.
   */
  lemma FsPathLast(loc: DocsLocation)
    requires loc.relative != []
    ensures var n := |loc.relative|;
      FsPath(loc) == Join(FsPath(DocsLocation(loc.root, loc.relative[..n - 1])), loc.relative[n - 1])
  {
    JoinAllLast(loc.root, loc.relative);
  }

  /** The stat of `root/target` succeeds. */
  predicate DirectHit(fs: map<string, Node>, root: string, target: string)
    ensures DirectHit(fs, root, target) ==> root in fs && FindFileRecursively(fs[root], target) == Some([target])
  {
    root in fs && HasDirectHit(fs[root], target)
  }

  /** `findFileRecursively` started at `root`; a root that does not exist yields `None`. */
  function SearchFrom(fs: map<string, Node>, root: string, target: string): (r: Option<DocsLocation>)
    ensures r.Some? ==> root in fs && r.value.root == root
    ensures r.Some? ==> FindFileRecursively(fs[root], target) == Some(r.value.relative)
    ensures root in fs && FindFileRecursively(fs[root], target).Some? ==> r.Some?
  {
    if root !in fs then None
    else match FindFileRecursively(fs[root], target)
      case None => None
      case Some(p) => Some(DocsLocation(root, p))
  }

  /**
   * The resolution once the root and the target name are known: a direct
   * hit under the root wins, and the recursive search decides the rest.
   */
  function ResolveUnder(fs: map<string, Node>, docsRoot: string, target: string): (r: Option<DocsLocation>)
    ensures r.Some? ==> r.value.root == docsRoot
    ensures r.Some? ==> (|r.value.relative| > 0 && r.value.relative[|r.value.relative| - 1] == target)
    ensures DirectHit(fs, docsRoot, target) ==> r == Some(DocsLocation(docsRoot, [target]))
    ensures r == SearchFrom(fs, docsRoot, target)
  {
    if DirectHit(fs, docsRoot, target) then Some(DocsLocation(docsRoot, [target]))
    else SearchFrom(fs, docsRoot, target)
  }

  /**
   * `resolveDocsUriForFile`: no workspace gives `None`; otherwise the
   * documentation root is expanded, the target name built, and the file
   * looked up under the root.
   */
  function ResolveDocsUriForFile(
    workspace: Option<string>, folder: string, ext: string, baseName: string, fs: map<string, Node>
  ): (r: Option<DocsLocation>)
    ensures workspace.None? ==> r.None?
    ensures r.Some? ==> workspace.Some? && r.value.root == ExpandDocsFolder(folder, workspace.value)
    ensures r.Some? ==>
      (|r.value.relative| > 0 && r.value.relative[|r.value.relative| - 1] == TargetFileName(baseName, ext))
    ensures (workspace.Some? &&
             DirectHit(fs, ExpandDocsFolder(folder, workspace.value), TargetFileName(baseName, ext))) ==>
      r == Some(DocsLocation(ExpandDocsFolder(folder, workspace.value), [TargetFileName(baseName, ext)]))
  {
    match workspace
    case None => None
    case Some(ws) => ResolveUnder(fs, ExpandDocsFolder(folder, ws), TargetFileName(baseName, ext))
  }

  /**
   * The direct check under the root repeats the first step of the recursive
   * search, so dropping it would give the same result.
   */
  lemma DirectCheckIsRedundant(
    workspace: Option<string>, folder: string, ext: string, baseName: string, fs: map<string, Node>
  )
    requires workspace.Some?
    ensures ResolveDocsUriForFile(workspace, folder, ext, baseName, fs) ==
      SearchFrom(fs, ExpandDocsFolder(folder, workspace.value), TargetFileName(baseName, ext))
  {
  }

  /**
   * Absence is reported exactly when the file lies in no workspace, the
   * documentation root does not exist, or no entry with the target name is
   * reachable under it; a found location always lies under the root.
   */
  lemma ResolvedIffReachable(
    workspace: Option<string>, folder: string, ext: string, baseName: string, fs: map<string, Node>
  )
    ensures var r := ResolveDocsUriForFile(workspace, folder, ext, baseName, fs);
      r.Some? <==>
        workspace.Some? && ExpandDocsFolder(folder, workspace.value) in fs &&
        exists p :: IsPathTo(fs[ExpandDocsFolder(folder, workspace.value)], p, TargetFileName(baseName, ext))
    ensures var r := ResolveDocsUriForFile(workspace, folder, ext, baseName, fs);
      r.Some? ==> r.value.root in fs && IsPathTo(fs[r.value.root], r.value.relative, TargetFileName(baseName, ext))
  {
    if workspace.Some? {
      var root := ExpandDocsFolder(folder, workspace.value);
      var target := TargetFileName(baseName, ext);
      DirectCheckIsRedundant(workspace, folder, ext, baseName, fs);
      if root in fs {
        FoundIffReachable(fs[root], target);
        FoundPathIsReal(fs[root], target);
      }
    }
  }

  /** An extension configured without its dot resolves exactly as the dotted one. */
  lemma ResolveDotOptional(
    workspace: Option<string>, folder: string, ext: string, baseName: string, fs: map<string, Node>
  )
    requires !StartsWithDot(ext)
    ensures ResolveDocsUriForFile(workspace, folder, ext, baseName, fs) ==
      ResolveDocsUriForFile(workspace, folder, "." + ext, baseName, fs)
  {
    NormalizeExtDotOptional(ext);
  }

  /**
   * Workspace `/ws`, folder `docs`, extension `.md`, active file `foo.ts`:
   * with `/ws/docs/guide/foo.md` present and `/ws/docs/foo.md` absent, the
   * result is `guide/foo.md` under `/ws/docs`.
   */
  lemma GuideExample()
    ensures ResolveDocsUriForFile(Some("/ws"), "docs", ".md", "foo",
                                  map["/ws/docs" := Dir("docs", [Dir("guide", [File("foo.md")])])])
      == Some(DocsLocation("/ws/docs", ["guide", "foo.md"]))
  {
    var fs := map["/ws/docs" := Dir("docs", [Dir("guide", [File("foo.md")])])];
    ExpandDefaultExample();
    assert StartsWithDot(".md");
    assert TargetFileName("foo", ".md") == "foo.md";
    NestedExample();
    assert SearchFrom(fs, "/ws/docs", "foo.md") == Some(DocsLocation("/ws/docs", ["guide", "foo.md"]));
    assert ResolveUnder(fs, "/ws/docs", "foo.md") == Some(DocsLocation("/ws/docs", ["guide", "foo.md"]));
  }

  /** That location is the path `/ws/docs/guide/foo.md`. */
  lemma GuidePathExample()
    ensures FsPath(DocsLocation("/ws/docs", ["guide", "foo.md"])) == "/ws/docs/guide/foo.md"
  {
    assert Join("/ws/docs", "guide") == "/ws/docs/guide";
    assert Join("/ws/docs/guide", "foo.md") == "/ws/docs/guide/foo.md";
    assert JoinAll("/ws/docs", ["guide", "foo.md"]) == JoinAll("/ws/docs/guide", ["foo.md"]);
    assert JoinAll("/ws/docs/guide", ["foo.md"]) == JoinAll("/ws/docs/guide/foo.md", []);
  }
}
