/**
 * `findFileRecursively`: the depth-first, pre-order search for an entry
 * named `fileName` under a directory.
 *
 * The file system is a finite tree. A `Dir` is a directory that can be both
 * listed and searched (its entries can be looked up); an `Unreadable` entry is
 * a directory that allows neither its listing nor any lookup beneath it; a
 * `File` is any other entry. A found path is the sequence of names from the starting
 * directory down to the entry.
 */
module FileTree {
  import opened Wrappers

  datatype Node =
    | File(name: string)
    | Dir(name: string, children: seq<Node>)
    | Unreadable(name: string)

  /** The listing reports this entry with the type `FileType.Directory`. */
  predicate IsDirectory(n: Node)
  {
    n.Dir? || n.Unreadable?
  }

  /**
   * `stat(dir/fileName)` succeeds: some entry of the listing has that name,
   * whatever its type.
   */
  predicate HasEntry(entries: seq<Node>, fileName: string)
  {
    exists k | 0 <= k < |entries| :: entries[k].name == fileName
  }

  /** The stat of `dir/fileName` succeeds: exactly when it is a one-name path to the target. */
  predicate HasDirectHit(dir: Node, fileName: string)
    ensures HasDirectHit(dir, fileName) <==> IsPathTo(dir, [fileName], fileName)
  {
    dir.Dir? && HasEntry(dir.children, fileName)
  }

  /**
   * Search `dir` for `fileName`: a direct hit is returned at once; otherwise
   * the directory entries are searched in listed order. A node whose listing
   * cannot be read (an unreadable directory, or a file) yields `None`.
   */
  function FindFileRecursively(dir: Node, fileName: string): (r: Option<seq<string>>)
    ensures r.Some? ==> |r.value| > 0 && r.value[|r.value| - 1] == fileName
    ensures HasDirectHit(dir, fileName) ==> r == Some([fileName])
    ensures !dir.Dir? ==> r.None?
    decreases dir
  {
    match dir
    case Dir(_, entries) =>
      if HasEntry(entries, fileName) then Some([fileName])
      else SearchEntries(entries, fileName)
    case _ => None
  }

  /**
   * The `for` loop over the listing: only directory entries are searched,
   * and the first one whose subtree holds a match decides the result.
   */
  function SearchEntries(entries: seq<Node>, fileName: string): (r: Option<seq<string>>)
    ensures r.Some? ==> |r.value| > 1 && r.value[|r.value| - 1] == fileName
    ensures r.Some? ==> exists k | 0 <= k < |entries| :: IsDirectory(entries[k]) && entries[k].name == r.value[0]
    decreases entries
  {
    if entries == [] then None
    else
      var found := if IsDirectory(entries[0]) then FindFileRecursively(entries[0], fileName) else None;
      match found
      case Some(p) => Some([entries[0].name] + p)
      case None => SearchEntries(entries[1..], fileName)
  }

  // Reference definitions: where an entry named fileName can be reached,
  // and every match in the order a full traversal visits them.

  /** `p` leads from `dir` through readable directories to an entry named `fileName`. */
  ghost predicate IsPathTo(dir: Node, p: seq<string>, fileName: string)
    decreases dir
  {
    match dir
    case Dir(_, entries) =>
      (p == [fileName] && HasEntry(entries, fileName)) || IsPathInEntries(entries, p, fileName)
    case _ => false
  }

  /** `p` starts with a directory entry of `entries` and continues to `fileName` inside it. */
  ghost predicate IsPathInEntries(entries: seq<Node>, p: seq<string>, fileName: string)
    decreases entries
  {
    |p| > 1 &&
    exists k | 0 <= k < |entries| ::
      IsDirectory(entries[k]) && entries[k].name == p[0] && IsPathTo(entries[k], p[1..], fileName)
  }

  /** Each path of `paths`, with `name` in front. */
  function Prefixed(name: string, paths: seq<seq<string>>): (r: seq<seq<string>>)
    ensures |r| == |paths|
    ensures forall i | 0 <= i < |r| :: r[i] == [name] + paths[i]
  {
    seq(|paths|, i requires 0 <= i < |paths| => [name] + paths[i])
  }

  /**
   * Every match under `dir`, in pre-order: the direct hit first, then the
   * matches of each directory entry in listed order.
   */
  ghost function Matches(dir: Node, fileName: string): seq<seq<string>>
    decreases dir
  {
    match dir
    case Dir(_, entries) =>
      (if HasEntry(entries, fileName) then [[fileName]] else []) + EntryMatches(entries, fileName)
    case _ => []
  }

  /** Every match under the directory entries of `entries`, in listed order. */
  ghost function EntryMatches(entries: seq<Node>, fileName: string): seq<seq<string>>
    decreases entries
  {
    if entries == [] then []
    else
      (if IsDirectory(entries[0]) then Prefixed(entries[0].name, Matches(entries[0], fileName)) else [])
      + EntryMatches(entries[1..], fileName)
  }

  /** Option of the head of a sequence. */
  function Head<T>(s: seq<T>): (r: Option<T>)
    ensures r.None? <==> s == []
    ensures r.Some? ==> r.value == s[0]
  {
    if s == [] then None else Some(s[0])
  }

  /**
   * The early-exit search returns the first match of the full pre-order
   * traversal, and `None` exactly when the traversal finds nothing.
   */
  lemma {:induction false} FindIsFirstMatch(dir: Node, fileName: string)
    ensures FindFileRecursively(dir, fileName) == Head(Matches(dir, fileName))
    decreases dir
  {
    match dir
    case Dir(_, entries) =>
      if !HasEntry(entries, fileName) {
        SearchIsFirstMatch(entries, fileName);
      }
    case _ =>
  }

  /** The same for the loop over a listing. */
  lemma {:induction false} SearchIsFirstMatch(entries: seq<Node>, fileName: string)
    ensures SearchEntries(entries, fileName) == Head(EntryMatches(entries, fileName))
    decreases entries
  {
    if entries != [] {
      SearchIsFirstMatch(entries[1..], fileName);
      if IsDirectory(entries[0]) {
        FindIsFirstMatch(entries[0], fileName);
      }
    }
  }

  /** A found path really leads to an entry named `fileName` under `dir`. */
  lemma {:induction false} FoundPathIsReal(dir: Node, fileName: string)
    ensures FindFileRecursively(dir, fileName).Some? ==>
      IsPathTo(dir, FindFileRecursively(dir, fileName).value, fileName)
    decreases dir
  {
    match dir
    case Dir(_, entries) =>
      if !HasEntry(entries, fileName) {
        SearchedPathIsReal(entries, fileName);
      }
    case _ =>
  }

  /** The same for the loop over a listing. */
  lemma {:induction false} SearchedPathIsReal(entries: seq<Node>, fileName: string)
    ensures SearchEntries(entries, fileName).Some? ==>
      IsPathInEntries(entries, SearchEntries(entries, fileName).value, fileName)
    decreases entries
  {
    if entries != [] {
      var found := if IsDirectory(entries[0]) then FindFileRecursively(entries[0], fileName) else None;
      if found.Some? {
        FoundPathIsReal(entries[0], fileName);
        var p := [entries[0].name] + found.value;
        assert p[1..] == found.value;
        assert IsDirectory(entries[0]) && entries[0].name == p[0] && IsPathTo(entries[0], p[1..], fileName);
      } else {
        SearchedPathIsReal(entries[1..], fileName);
        if SearchEntries(entries, fileName).Some? {
          var p := SearchEntries(entries, fileName).value;
          var k :| 0 <= k < |entries[1..]| && IsDirectory(entries[1..][k]) && entries[1..][k].name == p[0]
            && IsPathTo(entries[1..][k], p[1..], fileName);
          assert entries[k + 1] == entries[1..][k];
        }
      }
    }
  }

  /** Whenever some entry named `fileName` is reachable under `dir`, the search finds one. */
  lemma {:induction false} ReachableIsFound(dir: Node, p: seq<string>, fileName: string)
    requires IsPathTo(dir, p, fileName)
    ensures FindFileRecursively(dir, fileName).Some?
    decreases dir
  {
    match dir
    case Dir(_, entries) =>
      if !HasEntry(entries, fileName) {
        ReachableInEntriesIsFound(entries, p, fileName);
      }
  }

  /** The same for the loop over a listing. */
  lemma {:induction false} ReachableInEntriesIsFound(entries: seq<Node>, p: seq<string>, fileName: string)
    requires IsPathInEntries(entries, p, fileName)
    ensures SearchEntries(entries, fileName).Some?
    decreases entries
  {
    var k :| 0 <= k < |entries| && IsDirectory(entries[k]) && entries[k].name == p[0]
      && IsPathTo(entries[k], p[1..], fileName);
    if k == 0 {
      ReachableIsFound(entries[0], p[1..], fileName);
    } else {
      assert entries[1..][k - 1] == entries[k];
      ReachableInEntriesIsFound(entries[1..], p, fileName);
    }
  }

  /**
   * The search reports absence exactly when no entry named `fileName` can be
   * reached through readable directories.
   */
  lemma FoundIffReachable(dir: Node, fileName: string)
    ensures FindFileRecursively(dir, fileName).Some? <==> exists p :: IsPathTo(dir, p, fileName)
  {
    FoundPathIsReal(dir, fileName);
    var r := FindFileRecursively(dir, fileName);
    if r.Some? {
      assert IsPathTo(dir, r.value, fileName);
    }
    if p :| IsPathTo(dir, p, fileName) {
      ReachableIsFound(dir, p, fileName);
      assert r.Some?;
      assert exists q :: IsPathTo(dir, q, fileName);
    }
  }

  /** A match that is the only one in the tree is found, however deep it lies. */
  lemma UniqueMatchIsFound(dir: Node, p: seq<string>, fileName: string)
    requires IsPathTo(dir, p, fileName)
    requires forall q :: IsPathTo(dir, q, fileName) ==> q == p
    ensures FindFileRecursively(dir, fileName) == Some(p)
  {
    ReachableIsFound(dir, p, fileName);
    FoundPathIsReal(dir, fileName);
  }

  /**
   * Searching a listing split in two: the second part is only searched when
   * the first part yields nothing.
   */
  lemma {:induction false} SearchEntriesAppend(a: seq<Node>, b: seq<Node>, fileName: string)
    ensures SearchEntries(a + b, fileName) ==
      if SearchEntries(a, fileName).Some? then SearchEntries(a, fileName) else SearchEntries(b, fileName)
    decreases a
  {
    if a == [] {
      assert a + b == b;
    } else {
      assert (a + b)[0] == a[0];
      assert (a + b)[1..] == a[1..] + b;
      SearchEntriesAppend(a[1..], b, fileName);
    }
  }

  /**
   * An entry whose subtree yields no match (an unreadable directory, a
   * directory without the file, or a plain file) is passed over, and its
   * later siblings are still searched.
   */
  lemma EntryWithoutMatchIsSkipped(before: seq<Node>, e: Node, after: seq<Node>, fileName: string)
    requires !IsDirectory(e) || FindFileRecursively(e, fileName).None?
    ensures SearchEntries(before + [e] + after, fileName) == SearchEntries(before + after, fileName)
  {
    SearchEntriesAppend(before, [e] + after, fileName);
    SearchEntriesAppend(before, after, fileName);
    assert before + [e] + after == before + ([e] + after);
    assert ([e] + after)[1..] == after;
  }

  /** An unreadable subdirectory yields nothing for its own subtree only. */
  lemma UnreadableIsSkipped(before: seq<Node>, name: string, after: seq<Node>, fileName: string)
    ensures SearchEntries(before + [Unreadable(name)] + after, fileName) == SearchEntries(before + after, fileName)
  {
    EntryWithoutMatchIsSkipped(before, Unreadable(name), after, fileName);
  }

  /** `docs/guide/foo.md` is found from `docs` when `docs/foo.md` does not exist. */
  lemma NestedExample()
    ensures FindFileRecursively(Dir("docs", [Dir("guide", [File("foo.md")])]), "foo.md")
      == Some(["guide", "foo.md"])
  {
    var guide := Dir("guide", [File("foo.md")]);
    assert HasEntry(guide.children, "foo.md") by { assert guide.children[0].name == "foo.md"; }
    assert !HasEntry([guide], "foo.md") by { assert [guide][0].name == "guide"; }
    assert FindFileRecursively(guide, "foo.md") == Some(["foo.md"]);
    assert SearchEntries([guide], "foo.md") == Some(["guide"] + ["foo.md"]);
    assert ["guide"] + ["foo.md"] == ["guide", "foo.md"];
    assert [guide] == Dir("docs", [guide]).children;
  }
}
