# Documentation-Hotlink resolver, modelled in Dafny

The extension opens the documentation file that belongs to the file active in
the editor. Its core is a pure resolver in `src/extension.ts`:

- **Path expansion** (`expandDocsFolder`): the configured documentation folder
  becomes the documentation root. A `${workspaceFolder}` placeholder is
  replaced by the workspace path (first occurrence only). Otherwise an absolute
  folder is kept as it is, and a relative one is joined under the workspace.
- **Target name**: the configured extension gets a leading dot if it lacks
  one, and the name searched for is the base name followed by that extension.
- **Search** (`findFileRecursively`, `resolveDocsUriForFile`): the direct
  entry under the root is tried first. Then comes a depth-first, pre-order
  search. Each directory checks for an entry with the target name, then
  recurses into its directory entries in listed order. The first hit wins.
  An unreadable or missing directory yields "nothing here", never an error.

Modules:

- `Wrappers` (wrappers.dfy): `Option`, standing for the source's `null` results.
- `Text` (text.dfy): `includes` and first-occurrence `replace`, with their
  meaning stated through `OccursAt` / `IsFirstOccurrence`.
- `PathExpander` (path_expander.dfy): `ExpandDocsFolder`.
- `FileTree` (file_tree.dfy): the file system as a tree
  `Node = File | Dir(children) | Unreadable`, the search
  `FindFileRecursively`/`SearchEntries`, and two reference definitions:
  - `IsPathTo`: a path that reaches an entry with the target name.
  - `Matches`: every match, in the order a full pre-order traversal visits them.
- `Resolver` (resolver.dfy): extension normalisation, the target name, and
  `ResolveDocsUriForFile`.

Modelling decisions:

- Paths use a POSIX simplification of Node's `path` module. A path is
  absolute when it starts with `/`. `Join(a, b)` is `a + "/" + b`.
- The host's lookups are parameters:
  - the active file's workspace folder is an `Option<string>`;
  - the file system is `fs: map<string, Node>`, the node at each absolute path
    that exists (a missing key is a root that does not exist);
  - the configured folder and extension, and the active file's base name, are
    plain inputs.
- A found file is a `DocsLocation`: the documentation root plus the names
  below it. `FsPath` joins them into a path.
- A `Dir` is a directory that can be both listed and searched. The `stat` of
  `dir/name` succeeds when `dir` is such a directory and some entry has exactly
  that name, whatever its type. It can match a directory too. An `Unreadable`
  entry allows neither its listing nor a lookup beneath it.
- Only entries listed as directories (`Dir`, `Unreadable`) are recursed into.
- The duplicated direct check of the root (the `stat` at
  src/extension.ts:86, repeated at src/extension.ts:39) is kept as written.
  `ResolveUnder` and `DirectCheckIsRedundant` prove it gives the same result
  as the search alone.

## Model

| member | source | states |
|---|---|---|
| `Text.Contains` | src/extension.ts:17 | `includes`: the empty pattern is in every string, and a pattern that occurs is no longer than the string |
| `Text.IndexOf` | src/extension.ts:17-18 | there is no index exactly when the placeholder does not occur; a returned index is the leftmost occurrence |
| `Text.ReplaceFirst` | src/extension.ts:18 | without an occurrence the string is unchanged; for the leftmost occurrence `i`, the result is the text before `i`, the literal replacement, then the text after the occurrence |
| `Text.ReplaceFirstKeepsLaterOccurrences` | src/extension.ts:18 | every later, non-overlapping occurrence is still present after the replacement, shifted by the length difference |
| `PathExpander.IsAbsolute` | src/extension.ts:20 | `path.isAbsolute` (POSIX): a path is absolute exactly when `/` is a prefix of it |
| `PathExpander.Join` | src/extension.ts:23 | `path.join` (no normalisation): the base, one `/`, then the relative part; joining under an absolute base gives an absolute path |
| `PathExpander.ExpandDocsFolder` | src/extension.ts:13-24 | a specifier containing the placeholder gets its first occurrence replaced by the workspace path (even when absolute); else an absolute specifier is returned unchanged; else it is joined under the workspace path |
| `PathExpander.ExpandAtPlaceholder` | src/extension.ts:17-18 | a placeholder preceded only by `$`-free text is the one substituted: the result is the prefix, the workspace path, then the rest |
| `PathExpander.ExpandKeepsLaterPlaceholders` | src/extension.ts:17-18 | every placeholder occurrence after the first one survives the expansion, shifted by the length difference between the workspace path and the placeholder |
| `PathExpander.PlaceholderDoesNotOverlap` | src/extension.ts:17-18 | two occurrences of `${workspaceFolder}` never overlap, so a later occurrence lies wholly after the substituted one |
| `PathExpander.PlaceholderBeforeAbsolute` | src/extension.ts:17-21 | an absolute specifier holding the placeholder is substituted, not returned as it is |
| `PathExpander.ExpandWikiExample` | src/extension.ts:17-18 | `${workspaceFolder}/wiki` in workspace `/ws` expands to `/ws/wiki` |
| `PathExpander.ExpandDefaultExample` | src/extension.ts:20-23 | the default relative folder `docs` in `/ws` expands to `/ws/docs` |
| `FileTree.HasDirectHit` | src/extension.ts:37-39 | the `stat` of `dir/fileName` succeeds exactly when `[fileName]` is a path from `dir` to an entry with the target name |
| `FileTree.FindFileRecursively` | src/extension.ts:31-64 | a found path is non-empty and ends in the target name; a direct hit returns `[fileName]` without descending; a node that cannot be listed yields `None` |
| `FileTree.SearchEntries` | src/extension.ts:49-57 | a result from the loop has at least two names, ends in the target name and starts with the name of a directory entry of the listing |
| `FileTree.FindIsFirstMatch` | src/extension.ts:31-64 | the early-exit search returns the first match of the full pre-order traversal, and `None` exactly when that traversal finds none |
| `FileTree.SearchIsFirstMatch` | src/extension.ts:49-57 | the loop over a listing returns the first match among the directory entries in listed order |
| `FileTree.FoundPathIsReal` | src/extension.ts:37-56 | a returned path leads through readable directories under the start to an entry with the target name |
| `FileTree.SearchedPathIsReal` | src/extension.ts:49-56 | a path returned by the loop goes through one of the listed directory entries to the target |
| `FileTree.ReachableIsFound` | src/extension.ts:35-59 | whenever an entry with the target name is reachable, the search returns some path |
| `FileTree.ReachableInEntriesIsFound` | src/extension.ts:49-57 | whenever a listed directory entry leads to the target, the loop returns some path |
| `FileTree.FoundIffReachable` | src/extension.ts:31-64 | the search reports absence exactly when no entry with the target name is reachable in the readable tree |
| `FileTree.UniqueMatchIsFound` | src/extension.ts:31-64 | a match that is the only one in the tree is returned, at any depth |
| `FileTree.SearchEntriesAppend` | src/extension.ts:49-57 | the entries after a point are searched only when the entries before it yield nothing |
| `FileTree.EntryWithoutMatchIsSkipped` | src/extension.ts:49-57 | an entry whose subtree yields nothing (or a non-directory entry) is passed over, and its later siblings are still searched |
| `FileTree.UnreadableIsSkipped` | src/extension.ts:52-62 | an unreadable subdirectory yields nothing for its own subtree only; the result is that of the listing without it |
| `FileTree.NestedExample` | src/extension.ts:31-64 | from `docs`, with only `docs/guide/foo.md` present, the search returns `guide/foo.md` |
| `Resolver.NormalizeExt` | src/extension.ts:76 | the normalised extension starts with `.`, ends with the configured extension and adds at most one character; a dotted extension is unchanged |
| `Resolver.NormalizeExtIdempotent` | src/extension.ts:76 | normalising twice equals normalising once |
| `Resolver.NormalizeExtDotOptional` | src/extension.ts:76 | `md` and `.md` normalise to the same extension |
| `Resolver.TargetFileName` | src/extension.ts:76-79 | the target name is exactly `baseName + ext` when `ext` starts with `.`, and `baseName + "." + ext` otherwise; so it is the base name, one `.`, then the extension without a doubled dot |
| `Resolver.JoinAll` | src/extension.ts:37-52 | joining names one by one under a base keeps the base as a prefix, and with at least one name the path ends in `/` and the last name |
| `Resolver.JoinAllLast` | src/extension.ts:37-52 | joining a list of names equals joining all but the last, then `path.join` of that path with the last name |
| `Resolver.FsPath` | src/extension.ts:82-90 | the path of a location starts with its root and, below the root, ends in `/` and the last name |
| `Resolver.FsPathLast` | src/extension.ts:37-52 | the path of a location below its root is the path of the location one level up, joined with the last name |
| `Resolver.DirectHit` | src/extension.ts:82-87 | a successful direct `stat` under the root agrees with the first step of the recursive search, which returns `[target]` |
| `Resolver.ResolveUnder` | src/extension.ts:81-91 | a result lies under the root and ends in the target; a direct hit gives `[target]`; the result equals the recursive search from the root alone |
| `Resolver.SearchFrom` | src/extension.ts:90 | a result lies under the given root and is the recursive search's path; a missing root yields `None` |
| `Resolver.ResolveDocsUriForFile` | src/extension.ts:66-92 | no workspace gives `None`; a result lies under the expanded root and ends in the target name; a direct hit under the root is returned as `[target]` |
| `Resolver.DirectCheckIsRedundant` | src/extension.ts:82-90 | with a workspace, the resolution equals the recursive search from the root alone |
| `Resolver.ResolvedIffReachable` | src/extension.ts:66-92 | absence is returned exactly when there is no workspace, the root does not exist, or no entry with the target name is reachable under it; a result is a real path under the root |
| `Resolver.ResolveDotOptional` | src/extension.ts:74-79 | an extension configured without its dot resolves exactly as the dotted one |
| `Resolver.GuideExample` | src/extension.ts:66-92 | workspace `/ws`, folder `docs`, extension `.md`, base name `foo`, with only `/ws/docs/guide/foo.md` present: the result is `guide/foo.md` under `/ws/docs` |
| `Resolver.GuidePathExample` | src/extension.ts:51 | that location joins to the path `/ws/docs/guide/foo.md` |

## Left out

- `activate`, `deactivate`, command registration and `context.subscriptions`: host lifecycle glue. A `None` result leads to a warning message naming the base name, folder and extension (src/extension.ts:105-111); the UI is not modelled.
- `openMarkdownPreview`, `showInformationMessage` and `showWarningMessage`: calls into the editor's UI.
- `getConfig`: the folder and extension are parameters; the open-to-side flag only matters to the preview and is not modelled.
- `vscode.workspace.getWorkspaceFolder`, `fs.stat`, `fs.readDirectory` and the async machinery: replaced by the `Option` workspace parameter, the `fs` map and the tree datatype.
- `path.parse(...).name`: the base name is an input.
- `PathExpander.Join`: Node's `path.join` normalisation (`..`, `.`, repeated or trailing separators) and Windows rules for `path.isAbsolute` are not modelled. A POSIX simplification is used instead.
- `FileTree.HasEntry`: entry names are compared exactly. The case folding of case-insensitive volumes (default macOS and Windows), where the `stat` of `foo.md` also succeeds for a listed `Foo.md`, and Unicode normalisation of names are not modelled.
- `Text.ReplaceFirst`: the `$&`, `$1`, `` $` `` and `$'` replacement patterns of `String.prototype.replace` are not interpreted. A workspace path containing `$` is substituted literally.
- Symbolic links: a listing reports a symlinked directory as `SymbolicLink | Directory`, which is not equal to `Directory`, so the source does not recurse into it. The tree has no links, so link cycles cannot arise either.
- `FileTree.HasDirectHit`: a `Dir` is a directory that is both listable and searchable, and an `Unreadable` one is taken to allow no lookup beneath it. A directory that can be traversed but not listed may still let the `stat` of a child succeed on a real system. A directory that can be listed but not searched (mode `r--`) is not modelled either: there every `stat` beneath it fails, so the source finds nothing in its subtree even though its listing names the target.
- A target name containing a path separator (through the base name or the extension) is compared as one entry name; the real `Uri.joinPath` would look it up one level deeper.
- Entries that disappear between the listing and the recursive call are not modelled; the tree is a snapshot.
