/**
 * `expandDocsFolder`: turns the configured documentation-folder specifier
 * into the documentation root.
 *
 * Paths follow a POSIX simplification of Node's `path` module: a path is
 * absolute when it starts with `/`, and joining two paths puts one `/`
 * between them without any further normalisation.
 */
module PathExpander {
  import opened Wrappers
  import opened Text

  /** The placeholder token a specifier may contain. */
  const Placeholder: string := "${workspaceFolder}"

  /** `path.isAbsolute`, POSIX form. */
  predicate IsAbsolute(p: string)
    ensures IsAbsolute(p) <==> "/" <= p
  {
    |p| > 0 && p[0] == '/'
  }

  /** `path.join(base, rel)`, without normalisation. */
  function Join(base: string, rel: string): (r: string)
    ensures |r| == |base| + 1 + |rel|
    ensures r[..|base|] == base && r[|base|] == '/' && r[|base| + 1..] == rel
    ensures IsAbsolute(base) ==> IsAbsolute(r)
  {
    base + "/" + rel
  }

  /**
   * The documentation root for `docsFolder` in the workspace at
   * `workspacePath`: the placeholder rule wins over the absolute-path rule,
   * which wins over joining under the workspace.
   */
  function ExpandDocsFolder(docsFolder: string, workspacePath: string): (r: string)
    ensures forall i: nat :: IsFirstOccurrence(docsFolder, Placeholder, i) ==>
      r == docsFolder[..i] + workspacePath + docsFolder[i + |Placeholder|..]
    ensures !Contains(docsFolder, Placeholder) && IsAbsolute(docsFolder) ==> r == docsFolder
    ensures !Contains(docsFolder, Placeholder) && !IsAbsolute(docsFolder) ==>
      r == Join(workspacePath, docsFolder)
  {
    if Contains(docsFolder, Placeholder) then ReplaceFirst(docsFolder, Placeholder, workspacePath)
    else if IsAbsolute(docsFolder) then docsFolder
    else Join(workspacePath, docsFolder)
  }

  /**
   * A specifier that holds the placeholder more than once keeps every later
   * occurrence: only the first one is substituted.
   */
  lemma ExpandKeepsLaterPlaceholders(docsFolder: string, workspacePath: string, i: nat, j: nat)
    requires IsFirstOccurrence(docsFolder, Placeholder, i)
    requires i < j && OccursAt(docsFolder, Placeholder, j)
    ensures i + |Placeholder| <= j
    ensures Contains(ExpandDocsFolder(docsFolder, workspacePath), Placeholder)
    ensures OccursAt(ExpandDocsFolder(docsFolder, workspacePath), Placeholder, j - |Placeholder| + |workspacePath|)
  {
    PlaceholderDoesNotOverlap(docsFolder, i, j);
    ReplaceFirstKeepsLaterOccurrences(docsFolder, Placeholder, workspacePath, i, j);
  }

  /**
   * Two occurrences of the placeholder never overlap: its only `$` is its
   * first character.
   */
  lemma PlaceholderDoesNotOverlap(s: string, i: nat, j: nat)
    requires i < j && OccursAt(s, Placeholder, i) && OccursAt(s, Placeholder, j)
    ensures i + |Placeholder| <= j
  {
    if j < i + |Placeholder| {
      CharOfOccurrence(s, Placeholder, j, 0);
      CharOfOccurrence(s, Placeholder, i, j - i);
      assert false;
    }
  }

  /**
   * The placeholder after a prefix free of `$` is the leftmost one, and the
   * expansion puts the workspace path in its place.
   */
  lemma ExpandAtPlaceholder(prefix: string, rest: string, workspacePath: string)
    requires forall k | 0 <= k < |prefix| :: prefix[k] != '$'
    ensures ExpandDocsFolder(prefix + Placeholder + rest, workspacePath) == prefix + workspacePath + rest
  {
    var s := prefix + Placeholder + rest;
    var n := |prefix|;
    assert s[..n] == prefix && s[n..n + |Placeholder|] == Placeholder && s[n + |Placeholder|..] == rest;
    forall j: nat | j < n ensures !OccursAt(s, Placeholder, j) {
      assert s[j] == prefix[j];
    }
    assert IsFirstOccurrence(s, Placeholder, n);
  }

  /** An absolute specifier with the placeholder is still substituted, not returned as it is. */
  lemma PlaceholderBeforeAbsolute(workspacePath: string)
    ensures ExpandDocsFolder("/srv/" + Placeholder, workspacePath) == "/srv/" + workspacePath
  {
    ExpandAtPlaceholder("/srv/", [], workspacePath);
    assert "/srv/" + Placeholder + [] == "/srv/" + Placeholder;
    assert "/srv/" + workspacePath + [] == "/srv/" + workspacePath;
  }

  /** `${workspaceFolder}/wiki` in the workspace `/ws` expands to `/ws/wiki`. */
  lemma ExpandWikiExample()
    ensures ExpandDocsFolder(Placeholder + "/wiki", "/ws") == "/ws/wiki"
  {
    ExpandAtPlaceholder([], "/wiki", "/ws");
    assert [] + Placeholder + "/wiki" == Placeholder + "/wiki";
  }

  /** The default specifier `docs` is joined under the workspace. */
  lemma ExpandDefaultExample()
    ensures ExpandDocsFolder("docs", "/ws") == "/ws/docs"
  {
    assert !Contains("docs", Placeholder);
  }
}
