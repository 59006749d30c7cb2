# wcm-cli core, modelled in Dafny

This project models three parts of the wcm-cli web-component tool and proves
properties about them.

- **The newer dependency graph** (`dist/utilities/scanner.js`, modules `Scanner` and
  `Traversal`). Bower release manifests become package shorthands. The shorthands are
  stored in a table keyed by lower-cased name, and each carries a reference counter.
  `toReadable` sorts the table and checks that every child pointer resolves. The
  generator `traverseModule` walks the manifests depth-first. Its consumer inserts each
  yielded node before the walk resumes.
- **The older dependency graph** (`source/lib/index.ts`, module `LegacyGraph`). Its table
  is keyed by exact name. Its `toReadable` looks each child up by the whole pointer
  string. `copyModules` clears the output directory, then copies every module to
  `out/name/version`.
- **The asset rewrite pass** (`src/commands/prepare.ts`, module `Prepare`). `processFile`
  walks the file graph depth-first and records each visited path, so no file is visited
  twice.
  - Relative HTML imports are followed.
  - External imports and scripts become `wcm-link` / `wcm-script` placeholders.
  - Inline script bodies are moved into one generated `.js` file, named by a
    collision-avoiding loop.
  - Files that are not HTML are copied unchanged.
  - `exec` runs `processFile` over every configured entry file.

Supporting modules:

| module | role |
|---|---|
| `Wrappers` | `Option` and `Result` |
| `Strings` | `indexOf`, first-occurrence `replace`, `split`, ASCII `toLowerCase`, the `>` string comparison |
| `Sorting` | a sort with its permutation and sortedness contract |
| `Paths` | a normalising `path.join` / `path.resolve`, `dirname`, `basename`, `extname` |
| `Files` | a file tree as a map from path to content, with the filesystem helpers as methods of a `FileSystem` class |
| `Markup` | a page as the sequence of elements the selectors reach |

Tables are classes. Each has a `map` field and a `seq` field for the key insertion order,
the order a JavaScript object keeps. The traversal is also given as ghost functions over
a `Table` value, and the methods are proved equal to them. In the rewrite pass, the
source tree is a `map` value. The output tree is a `FileSystem` object, and
`processedPaths` is a `PathList` object shared by every recursive call.

## Model

| member | source | states |
|---|---|---|
| Scanner.Pointers | dist/utilities/scanner.js:27-29 | one `dep@spec` pointer per declared dependency, in key order, and nothing else |
| Scanner.NewShorthand | dist/utilities/scanner.js:20-30 | a new shorthand has the manifest's name, the given path, `_release` as version and zero references; its pointers are `Pointers` of the declared dependencies, one per dependency, and none when none are declared |
| Scanner.PointerRoundTrip | dist/utilities/scanner.js:97-102 | for a name and specifier without `@`, `split("@")` recovers both, and the rebuilt pointer equals the original |
| Scanner.RebuiltAllSpec | dist/utilities/scanner.js:96-103 | the `map` over the pointers keeps their number and rebuilds each one in place |
| Scanner.ChildListSpec | dist/utilities/scanner.js:95-106 | a node's projected children are a permutation of its rebuilt pointers, sorted case-insensitively |
| Scanner.DependencyGraph.constructor | dist/utilities/scanner.js:44-47 | a new graph has an empty table |
| Scanner.DependencyGraph.AddDependency | dist/utilities/scanner.js:51-54 | stores the node under its lower-cased name, overwriting any node there; other keys are unchanged; a fresh key is appended to the key order |
| Scanner.DependencyGraph.HasDependency | dist/utilities/scanner.js:59-62 | in a well-formed table, a name that is found is lower-case and listed in the key order |
| Scanner.DependencyGraph.MarkReference | dist/utilities/scanner.js:78-80 | succeeds exactly when the raw name is a key; then that node's counter rises by exactly one and nothing else changes; otherwise nothing changes |
| Scanner.Bumped | dist/utilities/scanner.js:79 | only the counter changes, by one |
| Scanner.AddKeepsValid | dist/utilities/scanner.js:53 | insertion keeps the table well formed: every key listed once, and every node under its lower-cased name |
| Scanner.BumpKeepsValid | dist/utilities/scanner.js:79 | bumping a counter keeps the table well formed |
| Scanner.NodesCounts | dist/utilities/scanner.js:90 | `Object.values` lists each node of the table exactly once and nothing else |
| Scanner.DependencyGraph.Children | dist/utilities/scanner.js:95-103 | the per-node `map` equals the reference definition: the first pointer whose name is not a key aborts with the message, otherwise the sorted rebuilt pointers |
| Scanner.DependencyGraph.Project | dist/utilities/scanner.js:94-108 | the `forEach` loop equals the reference projection of the sorted nodes |
| Scanner.DependencyGraph.ToReadable | dist/utilities/scanner.js:84-110 | `toReadable` equals the projection of the nodes sorted case-insensitively by name |
| Scanner.FirstMissingSpec | dist/utilities/scanner.js:96-101 | nothing is missing exactly when every pointer resolves; otherwise the reported name is the earliest pointer that does not resolve |
| Scanner.ChildrenOfOk | dist/utilities/scanner.js:96-101 | a node's entry is produced exactly when all its pointers resolve |
| Scanner.ProjectOfOk | dist/utilities/scanner.js:94-108 | the projection succeeds exactly when every node resolves |
| Scanner.ProjectOfValue | dist/utilities/scanner.js:94-108 | a successful projection lists, at each position, that node's name with its sorted children, and its name with its version |
| Scanner.ProjectOfAborts | dist/utilities/scanner.js:99-101 | once a prefix of the nodes throws, the whole projection throws the same message |
| Scanner.ProjectOfErr | dist/utilities/scanner.js:99-101 | a thrown message is `Missing dependency with the name X for Y` for some unresolved pointer X of some node Y |
| Scanner.ReadableSpec | dist/utilities/scanner.js:84-110 | `toReadable` succeeds exactly when every pointer of every node resolves. It then lists every node once, in case-insensitive name order, with its sorted children and its version. Otherwise it reports a missing child of some node |
| Scanner.ReadableOrderFree | dist/utilities/scanner.js:90-93 | the projection does not depend on the key insertion order |
| Traversal.TraverseOf | dist/utilities/scanner.js:154-166 | reference traversal: keys only grow; a missing manifest fails and leaves the table as it was |
| Traversal.VisitFrom | dist/utilities/scanner.js:158-165 | the loop over the declared dependencies only adds keys |
| Traversal.VisitOf | dist/utilities/scanner.js:159-164 | one dependency: an absent one is traversed at `join(modulePath, "..", dep)`, a present one bumps the parent's counter; keys only grow |
| Traversal.TraverseModule | dist/utilities/scanner.js:154-166 | the generator, with each yielded node inserted before it resumes, equals the reference traversal on the graph's table and keeps the table well formed |
| Traversal.VisitDependency | dist/utilities/scanner.js:159-164 | one step of the dependency loop equals `VisitOf` on the graph's table |
| Traversal.ResolveModuleDependencies | dist/utilities/scanner.js:142-149 | a fresh graph built by the traversal of the module's directory, or the traversal's error |
| Traversal.ProjectTraversals | dist/utilities/scanner.js:126-134 | the project loop over the declared dependencies only adds keys |
| Traversal.ResolveProjectDependencies | dist/utilities/scanner.js:121-136 | a fresh graph built by the traversal of each declared dependency under `bower_components`, in key order, or the first error |
| Traversal.ProjectTraversalsAbort | dist/utilities/scanner.js:126-134 | once one traversal of the project loop fails, the loop's outcome is that failure |
| Traversal.TraverseValid | dist/utilities/scanner.js:154-166 | a traversal keeps the table well formed |
| Traversal.VisitFromValid | dist/utilities/scanner.js:158-165 | the dependency loop keeps the table well formed |
| Traversal.VisitValid | dist/utilities/scanner.js:159-164 | one dependency step keeps the table well formed |
| Traversal.TraverseFrame | dist/utilities/scanner.js:154-166 | a traversal overwrites no node outside the module it starts at; after success the module is a key |
| Traversal.VisitFromFrame | dist/utilities/scanner.js:158-165 | the dependency loop overwrites no node but the current module's |
| Traversal.VisitFrame | dist/utilities/scanner.js:159-164 | one dependency step overwrites no node but the current module's |
| Traversal.TraverseYields | dist/utilities/scanner.js:157-160 | the module's own shorthand is yielded first; every yielded node ends up in the final table, up to its counter; no key is yielded twice; the keys added are exactly those yielded |
| Traversal.SingleYields | dist/utilities/scanner.js:157 | the first yield and its insertion add exactly the module's own key |
| Traversal.VisitYields | dist/utilities/scanner.js:159-161 | a dependency step yields only fresh keys, all of them recorded in the table, and changes no other node |
| Traversal.TraverseResolved | dist/utilities/scanner.js:154-166 | after success, every node the traversal reached has all its pointers resolved |
| Traversal.TraverseKeepsResolved | dist/utilities/scanner.js:154-166 | a traversal from a resolved table yields a resolved table on success |
| Traversal.ModuleReadable | dist/utilities/scanner.js:142-149 | a successful `resolveModuleDependencies` gives a graph whose `toReadable` does not throw |
| Traversal.ProjectResolved | dist/utilities/scanner.js:121-136 | a successful `resolveProjectDependencies` gives a graph whose `toReadable` does not throw |
| Traversal.TraverseSucceeds | dist/utilities/scanner.js:154-166 | with every declared dependency installed, the traversal terminates without error, on cycles and diamonds alike |
| Traversal.VisitFromSucceeds | dist/utilities/scanner.js:158-165 | with every declared dependency installed, the dependency loop does not fail |
| Traversal.ProjectSucceeds | dist/utilities/scanner.js:121-136 | with every declared dependency installed, the project traversal does not fail |
| Traversal.TraverseRevisits | dist/utilities/scanner.js:162-164 | when every dependency is already present, only the module itself is yielded, and its own counter rises by the number of dependencies |
| Traversal.VisitFromRevisits | dist/utilities/scanner.js:158-165 | over present dependencies, the loop yields nothing more and bumps the parent once per dependency |
| Traversal.RevisitStep | dist/utilities/scanner.js:163 | one present dependency bumps the parent's counter by one |
| LegacyGraph.GenerateDependencyPointer | source/lib/index.ts:150-154 | exactly the name, an `@`, then the version |
| LegacyGraph.PointerSplits | source/lib/index.ts:150-154 | splitting the pointer on `@` gives back name and version, when neither holds an `@` |
| LegacyGraph.PointerInjective | source/lib/index.ts:150-154 | distinct name-version pairs without `@` give distinct pointers |
| LegacyGraph.Shorthand.OwnPointer | source/lib/index.ts:36-40 | the shorthand's pointer is built from its own name and version |
| LegacyGraph.OwnPointerSplits | source/lib/index.ts:36-40 | a shorthand whose name and version hold no `@` splits its own pointer back into that name and version |
| LegacyGraph.DependencyGraph.constructor | source/lib/index.ts:57-59 | a new graph has an empty table |
| LegacyGraph.DependencyGraph.AddDependency | source/lib/index.ts:64-68 | afterwards `hasDependency(d.name)` holds. The entry under the exact name is `d`, overwriting any earlier node. Other keys are untouched |
| LegacyGraph.DependencyGraph.HasDependency | source/lib/index.ts:74-78 | in a well-formed table, a name that is found is listed in the key order and names a node whose own name is that name |
| LegacyGraph.AddKeepsValid | source/lib/index.ts:67 | insertion keeps every node under its exact name and every key listed once |
| LegacyGraph.DependencyGraph.ToReadable | source/lib/index.ts:98-116 | the nested loops yield the projection, or the `TypeError` of a pointer that is not a key; the graph is not modified |
| LegacyGraph.ReadableOk | source/lib/index.ts:107-110 | `toReadable` succeeds exactly when every pointer of every node is a key |
| LegacyGraph.ReadableChildrenArePointers | source/lib/index.ts:106-113 | on success, since each node sits under its own name, every `graph` entry is the node's pointer list itself, and there is one `shrinkwrap` entry per node |
| LegacyGraph.GeneratedPointerFails | source/lib/index.ts:107-110 | a pointer made by `generateDependencyPointer` is never a key of a table whose names hold no `@`, so `toReadable` throws |
| LegacyGraph.OrderCovers | source/lib/index.ts:90 | every key appears in the insertion order |
| LegacyGraph.DependencyGraph.CopyModules | source/lib/index.ts:85-93 | clears `out`, then copies each module in key order, as the reference `CopyEach` does, and reports the first failed copy |
| LegacyGraph.CopyEachOk | source/lib/index.ts:90-92 | when every target `out/name/version` lies below `out` and no module directory overlaps `out`, the copies all succeed exactly when every module directory exists |
| LegacyGraph.CopyEachAllExist | source/lib/index.ts:90-92 | in any setting, the copies all succeed when every module directory exists before the run |
| LegacyGraph.CopyEachFirstMissing | source/lib/index.ts:90-92 | when every target `out/name/version` lies below `out` and no module directory overlaps `out`, a failed run reports the first module, in key order, whose directory is missing |
| LegacyGraph.CopyEachReportsMissing | source/lib/index.ts:90-92 | in any setting, the path a failed run reports was missing before the run |
| LegacyGraph.CopyEachReportsModule | source/lib/index.ts:90-92 | in any setting, the path a failed run reports is the directory of one of the modules |
| LegacyGraph.CopyEachOutside | source/lib/index.ts:90-92 | when every target `out/name/version` lies below `out` and no module directory overlaps `out`, the copies change nothing outside `out` |
| LegacyGraph.CopyEachCopies | source/lib/index.ts:90-92 | after a successful run, each file of each module directory has a copy below `out/name/version` |
| LegacyGraph.CopyEachOnly | source/lib/index.ts:90-92 | when every target `out/name/version` lies below `out` and no module directory overlaps `out`, everything the run leaves below `out` was there before the run or is a copy of some module's file |
| LegacyGraph.CopyModulesSpec | source/lib/index.ts:85-93 | when every target `out/name/version` lies below `out` and no module directory overlaps `out`, after clearing and copying, nothing outside `out` has changed. Everything below `out` is a copy of a module file. On success every module file has its copy |
| LegacyGraph.CopyKeepsOutside | source/lib/index.ts:91 | one copy to a target below `out` changes nothing outside `out` |
| Files.RemoveTreeSpec | dist/lib/filesystem.js:29-42 | after the removal nothing exists at the directory; removing a directory that does not exist changes nothing; removing twice is removing once; every path that is neither below the directory nor above it still exists |
| Files.Copies | dist/lib/filesystem.js:48-60 | every file below the source lands at its rebased path below the target with the same content, and nothing else is produced |
| Files.CopyTree | dist/lib/filesystem.js:48-60 | the tree after a copy holds the old paths and the copies; nothing outside the target changes |
| Files.FileSystem.RemoveDirectory | dist/lib/filesystem.js:29-42 | the tree becomes `RemoveTree` of the old tree |
| Files.FileSystem.Copy | dist/lib/filesystem.js:48-60 | succeeds exactly when something exists at the source, and then does `CopyTree`; otherwise changes nothing |
| Files.FileSystem.Write | src/commands/prepare.ts:108 | `writeToFile` sets exactly that path |
| Files.FileSystem.Import | src/commands/prepare.ts:118 | copying from the source tree into the output tree adds exactly the copies, when the source exists |
| Strings.ReplaceFirstAt | src/commands/prepare.ts:98-101 | in `a + t + b` with no earlier occurrence of `t`, `replace(t, m)` gives `a + m + b`: only the first occurrence changes |
| Sorting.SortBy | dist/utilities/scanner.js:90-93 | the result is a permutation of the input, sorted by the key under the `>` string order |
| Sorting.SortedUnique | dist/utilities/scanner.js:90-93 | with distinct keys, two sorted permutations are equal, so the sort's result is determined |
| Prepare.GetDependencyName | src/commands/prepare.ts:166-168 | absent exactly when the URL has no character other than `.` and `/`; otherwise the leftmost maximal run of such characters |
| Prepare.GetDependencyLookup | src/commands/prepare.ts:170-176 | absent exactly when `[^./]+\/` matches nowhere; otherwise the rest of the line after the first match |
| Prepare.SpecifierSplits | src/commands/prepare.ts:166-176 | for `name/rest`, with `name` made of name characters, the name is `name` and the lookup is `rest` |
| Prepare.PackageImportExample | src/commands/prepare.ts:166-176 | `paper-button/paper-button.html` gives `paper-button` and `paper-button.html` |
| Prepare.UndefinedAttribute | src/commands/prepare.ts:128-129 | a missing attribute is read as the string `undefined`, giving the name `undefined` and no lookup |
| Prepare.IsHttpMeaning | src/commands/prepare.ts:162-164 | `isHttp` holds exactly when `http://` or `https://` occurs somewhere in the string |
| Prepare.IsRelative | src/commands/prepare.ts:154-160 | an undefined `relB` is never relative |
| Prepare.IsRelativeBelow | src/commands/prepare.ts:154-160 | from a page of plain segments below an absolute source directory, an href of plain segments resolves to the page's directory followed by the href, and counts as relative |
| Prepare.UndefinedNotRelative | src/commands/prepare.ts:155-159 | `path.resolve` on an undefined href throws; the caught result is undefined and counts as not relative |
| Prepare.LeavingNotRelative | src/commands/prepare.ts:156 | `../y.html` from `/a/x.html` resolves to `/y.html`, which does not contain `/a/`, so it is not relative |
| Prepare.SubstringRelative | src/commands/prepare.ts:156 | `includes` tests for a substring: `../b/a/c.html` from `/a/x.html` resolves to `/b/a/c.html`, outside `/a`, and still counts as relative |
| Prepare.LinkPlaceholder | src/commands/prepare.ts:125-130 | fails exactly when the href has no name character; with no lookup the import is removed; otherwise it becomes one `wcm-link` with the same `rel`, the first name run as `for` and the lookup as `path` |
| Prepare.LinkStep | src/commands/prepare.ts:121-131 | fails exactly for an external import without a name; an element that is no external import stays as it is; at most one element takes its place |
| Prepare.LinkStepShape | src/commands/prepare.ts:121-131 | one element is removed exactly when it is an external import with a name and no lookup; what takes its place is no external import and carries the same inline body |
| Prepare.LinksOk | src/commands/prepare.ts:92 | the link pass succeeds exactly when every external import has a name |
| Prepare.LinksAppend | src/commands/prepare.ts:92 | the link pass over two halves is the concatenation of the passes over each |
| Prepare.LinksKeep | src/commands/prepare.ts:92 | a successful link pass removes exactly the imports without a lookup, leaves no external import, and keeps the inline bodies and the scripts the script pass will remove |
| Prepare.StepKeepsScripts | src/commands/prepare.ts:121-131 | what one link step leaves holds the inline body of the element it replaces, and the script the script pass would remove there, if any |
| Prepare.MissingHref | src/commands/prepare.ts:125-130 | an import without `href` reads as `undefined`, which has a name but no lookup, so the `.attr("path", undefined)` getter hands `replaceWith` undefined and the import is removed, the rest of the page unchanged |
| Prepare.RemovedAlone | src/commands/prepare.ts:125-130 | a page of one removed import becomes the empty page |
| Prepare.ScriptStep | src/commands/prepare.ts:134-150 | fails exactly for a script without body or http(s) source, not relative and without a name; collects exactly the element's inline body; at most one element stays, a `wcm-script` or an http(s) script itself |
| Prepare.ScriptStepShape | src/commands/prepare.ts:134-150 | one element goes per inline body and per script without a lookup, and no inline script stays |
| Prepare.EmptyScriptRemoved | src/commands/prepare.ts:138-147 | `<script></script>`: `undefined` is not http and not relative, has a name and no lookup, so the script is removed |
| Prepare.UndefinedNotHttp | src/commands/prepare.ts:162-164 | the string `undefined` does not match the http pattern |
| Prepare.ScriptsOk | src/commands/prepare.ts:93 | the script pass succeeds exactly when every element's step does |
| Prepare.ScriptsBodies | src/commands/prepare.ts:93-94 | the collected results are exactly the inline bodies in document order, and the elements left, the bodies and the removed scripts add up to the page |
| Prepare.ScriptsRemoved | src/commands/prepare.ts:135-137 | no inline script survives the script pass |
| Prepare.ScriptsFailLater | src/commands/prepare.ts:93 | a failing element makes the whole script pass fail |
| Prepare.ProcessScripts | src/commands/prepare.ts:134-150 | the loop over the scripts equals the reference script pass |
| Prepare.SuffixShape | src/commands/prepare.ts:101 | the replacement `_k.js` holds no separator and ends with `.js` |
| Prepare.FirstOccurrence | src/commands/prepare.ts:98-101 | a string with an occurrence splits around its first one, where every replacement goes |
| Prepare.ReplaceShape | src/commands/prepare.ts:98-101 | replacing inside a normal relative path with a `.js`-ending middle keeps it normal and keeps a `.js` in it |
| Prepare.BaseShape | src/commands/prepare.ts:98 | the first candidate of an `.html` path is a normal path holding `.js` |
| Prepare.CandidateShape | src/commands/prepare.ts:97-102 | every candidate name is a normal path holding `.js` |
| Prepare.ReplaceLengthens | src/commands/prepare.ts:101 | each replacement lengthens the joined path |
| Prepare.CandidateGrows | src/commands/prepare.ts:100-101 | each collision makes the tested path strictly longer, so a finite tree bounds the loop |
| Prepare.FreeFromIsFirst | src/commands/prepare.ts:97-102 | the loop's result is the first candidate that does not exist in the source directory, and all earlier ones exist |
| Prepare.ScriptFileName | src/commands/prepare.ts:97-102 | the `while` loop ends with the first free candidate, a name that does not exist |
| Prepare.ReplaceAtEnd | src/commands/prepare.ts:101 | in `stem.js` with no `.js` in `stem`, the first `.js` is the final one |
| Prepare.NoJsExtend | src/commands/prepare.ts:101 | a counter `_k` adds no `.js` |
| Prepare.AccumulateStep | src/commands/prepare.ts:101 | one collision turns `prev.js` into `prev_k.js` |
| Prepare.CandidateAccumulates | src/commands/prepare.ts:97-102 | suffixes accumulate: after `k` collisions the name is `stem_1_2…_k.js` |
| Prepare.CandidateExample | src/commands/prepare.ts:98-101 | `a.html` is tried as `a.js`, then `a_1.js`, then `a_1_2.js` |
| Prepare.ReplacementInDirectory | src/commands/prepare.ts:98-106 | in `x.html/index.html` the first `.html` is in the directory name, so the script is `x.js/index.html` and the placeholder path is `index.html` |
| Prepare.BasenameAfter | src/commands/prepare.ts:106 | the base name is what follows the last separator |
| Prepare.PageScript | src/commands/prepare.ts:91-109 | a script file is produced exactly when there are inline bodies. Its content is their concatenation in document order and its name does not exist in the source. A `wcm-script` pointing to its base name ends the document. The document length plus the bodies, the removed imports and the removed scripts is the page length plus one for the appended placeholder |
| Prepare.WrittenFilesFrame | src/commands/prepare.ts:108-113 | writing the script file, when there is one, and then the page leaves both as the page output says, adds exactly those paths to the tree and leaves every other path's content as it was |
| Prepare.PathList.constructor | src/commands/prepare.ts:14 | `processedPaths` starts empty |
| Prepare.PathList.Push | src/commands/prepare.ts:76 | appends exactly one path |
| Prepare.GrowsTrans | src/commands/prepare.ts:73-77 | extension of the processed list is transitive |
| Prepare.GrowsKeeps | src/commands/prepare.ts:73-77 | a recorded path stays recorded |
| Prepare.PendingPush | src/commands/prepare.ts:76 | pushing an existing, unrecorded path shrinks what is left to visit |
| Prepare.PendingShrinks | src/commands/prepare.ts:73-77 | what is left to visit never grows |
| Prepare.ProcessFile | src/commands/prepare.ts:72-123 | the processed list only grows and never holds duplicates, and the resolved path is recorded; no output path is removed. A repeated path returns at once, changing nothing. A new path is pushed once, before the existence check. A missing file writes nothing. A non-HTML file is copied unchanged. A successful HTML file has its rewritten page and script, when there is one, written, and the page of every relative import is recorded as processed. For a page without relative imports, the new tree is exactly the old one plus the page and its script file, and the processed list gains only the page |
| Prepare.ProcessPage | src/commands/prepare.ts:87-114 | on success, the rewritten document and the script file are the reference page output, both are written, and the page of every relative import is recorded; no output path is removed. For a page without relative imports, the new tree is exactly the old one plus these two writes, and the processed list is unchanged |
| Prepare.ProcessLinks | src/commands/prepare.ts:92 | on success, the linked elements are the reference link pass and the page of every relative import is recorded; no output path is removed. Without relative imports, neither the tree nor the processed list changes |
| Prepare.LinkAt | src/commands/prepare.ts:92 | one element of the link loop extends the link pass over the prefix by its step, and records its page when it is a relative import; any other element changes neither the tree nor the processed list |
| Prepare.LinksStep | src/commands/prepare.ts:92 | one more link step extends the link pass over a prefix |
| Prepare.VisitedStep | src/commands/prepare.ts:121-123 | a recorded relative import stays recorded as the list grows, and one more recorded one extends the prefix |
| Prepare.ProcessLink | src/commands/prepare.ts:121-131 | on success, the link step: the placeholder for an external import, the element itself otherwise; the page of a relative import is recorded as processed, whether or not its processing succeeds; any other element changes neither the tree nor the processed list |
| Prepare.Visit | src/commands/prepare.ts:123 | the recursive `processFile` on the import's path keeps the processed list growing and free of duplicates, records the path, and removes no output path |
| Prepare.ProcessEntry | src/commands/prepare.ts:17-19 | every matched file of one entry is recorded, and the list stays free of duplicates |
| Prepare.EnsureArray | src/commands/prepare.ts:178-182 | an array is returned unchanged; a single value becomes a one-element list |
| Prepare.Exec | src/commands/prepare.ts:11-20 | the processed list is free of duplicates; on success every matched file of every entry of `ensureArray(main)` is recorded |

## Left out

- Names differing only in case are not fully merged. The table stores nodes under lower-cased keys, but `hasDependency` (`dist/utilities/scanner.js:61`) looks up the raw key. The model follows the code.
- Traversal.TraverseModule: requires `NamesMatch`: every manifest's lower-cased name is its directory's name. Without it the traversal need not terminate on cycles, because the raw-key `hasDependency` misses entries stored under lower-cased names. `TraverseSucceeds` asks for the stronger "name equals directory".
- The manifest store is a map from directory name to manifest. Reading `.bower.json` from disk is not modelled. The directory of a module path is its base name.
- Object key order: the model keeps keys in insertion order. JavaScript puts integer-like keys first, which the model ignores.
- `Lower` covers ASCII letters only. JavaScript `toLowerCase` is full Unicode.
- The sort comparator `a > b ? 1 : -1` never returns 0. For equal keys (two child pointers equal up to case) the engine's order is unspecified. The model uses one stable sort; `ChildListSpec` states only permutation and sortedness, which holds for any correct sort.
- `Less` compares by character values. JavaScript compares UTF-16 code units, and the two differ only outside the Basic Multilingual Plane.
- The scanner's `copyModules` (`dist/utilities/scanner.js:68-77`) is not modelled. Apart from its progress tracker it does what `LegacyGraph.DependencyGraph.CopyModules` does.
- LegacyGraph.CopyModulesSpec: proved only when every target `out/name/version` lies below `out` and no module directory overlaps `out`. Nothing in the source checks this. A name or version holding `..` segments, such as version `../../x`, sends `path.join` outside `out`, and the copy then writes there. A module directory below `out` is deleted by the clearing step before it is copied, and the copy then fails. When `out` lies inside a module directory, that module's copy also takes in what earlier copies wrote. The model still computes all of this through `CopyEach`, `CopyTree` and `RemoveTree`; only the lemmas assume the setting.
- CopyEachOk: the direction from a successful run back to directories that existed before the run assumes the same setting, because an earlier copy can create a later module's directory. `LegacyGraph.CopyEachAllExist` states the other direction in any setting.
- CopyEachFirstMissing: assumes the same setting, because an earlier copy can create an earlier module's directory. `LegacyGraph.CopyEachReportsMissing` and `LegacyGraph.CopyEachReportsModule` state that the reported path is a module directory missing before the run, in any setting.
- CopyEachOutside: assumes the same setting. Without it, the copies change paths outside `out`.
- CopyEachOnly: assumes the same setting. Without it, an earlier copy can add files to a later module's directory, and those files are then copied too.
- Prepare.EnsureArray: `OneOrMany` stands for the source's `typeof val === "object" && val.constructor === Array` test. A `null` or `undefined` `main` is not modelled; in the source the first throws at `.constructor`, and the second reaches `path.join`, which throws.
- LegacyGraph.CopyEachCopies: states that each copy is present, not its content. `Files.Copies` states the content of one copy.
- LegacyGraph.DependencyGraph.CopyModules: `copyModule` exits the process on error; the model reports the failed path and stops. `removeDirectory` is modelled as never failing.
- The `main` field of the scanner's shorthand is not modelled: nothing in the graph reads it. The manifest's other fields are left out as well.
- Traversal.TraverseRevisits: states only the yielded sequence and the parent's counter. It does not state the rest of the table.
- `glob.sync` in `exec` is a given function `matches` from an entry to relative file paths, each required to be normal (`..` segments first, then plain segments, no `.` segments).
- `processDir` is not modelled: its unawaited `forEach(async …)` is concurrency.
- The commented-out block of `exec`, logging, `warn` and progress trackers are not modelled. `src/utilities/config.ts` is not part of this model. The configuration enters `Exec` as parameters.
- `cheerio` parsing and `$.html()` are not modelled. A page is its element sequence, stored in the tree as a `Document`. A text file read as a page has no elements.
- `ensureDirectoryExists` is a no-op here: directories are implied by the paths below them.
- The link pass and the script pass run concurrently in the source (`Promise.all`). The model runs the link pass first, then the script pass. On a failure it stops the file at once, while pending writes in the source may still happen: a failing nested import, for instance, does not stop the source from writing the page's script file.
- A rejected promise (the `TypeError` of `getDependencyName` on a URL without a name character) is modelled as `ok == false`.
- The source tree and the output tree are separate values. The output directory is assumed to lie outside the source directory, so writes cannot feed back into reads.
- A script's body is the text of its first child node. A first child that is not text is not modelled.
- `isRelative` on a missing attribute: `path.resolve` throws, the `catch` returns undefined, and the model returns false.
- Prepare.ProcessFile: the HTML branch's contract covers only the successful case. After a failure, the contract states only that the processed list grows without duplicates and that no output path is removed.
- Prepare.ProcessFile: for an HTML page with relative imports, it states which pages the imports record, that the page and its script are written and that no output path is removed. It does not state the whole new tree, because the recursive calls write further paths. The same holds for Prepare.ProcessPage, Prepare.ProcessLinks and Prepare.LinkAt.
- Prepare.ProcessEntry: states the processed list, not the output tree. `ProcessFile` states the output tree for each file.
- Prepare.Visit: states the processed-list invariants, the recorded path and that no output path is removed. It calls `ProcessFile`, whose contract states what the call writes.
- Prepare.Exec: states the processed list, not the output tree. `ProcessFile` states the output tree for each file.
- Scanner.DependencyGraph.HasDependency, Traversal.TraverseModule, Scanner.DependencyGraph.MarkReference, Scanner.DependencyGraph.ToReadable, Scanner.ReadableSpec, Scanner.DependencyGraph.AddDependency, LegacyGraph.DependencyGraph.HasDependency, LegacyGraph.DependencyGraph.AddDependency, LegacyGraph.DependencyGraph.ToReadable: the tables are maps with no inherited keys. In JavaScript, `dependencies` is a plain object, so a name like `constructor` or `toString` is found through the prototype even when never added, and assigning to `__proto__` does not add a key. So `traverseModule` skips such a dependency and bumps the parent's counter, and `toReadable` does not throw for it. The model treats every name as an ordinary key.
- Paths: `Join`, `Resolve`, `Dirname` and `Basename` normalise as Node's `path` does for the paths the model feeds them, with four differences. `Join("", b)` gives `/b`, where Node gives `b`. `Dirname` and `Basename` do not ignore a trailing separator. `Resolve` of a relative path has no working directory to start from and stays relative. `Join` drops a trailing separator, which Node keeps: for `href="page.html/"`, Node looks up `…/page.html/`, finds no such file and skips it, while the model joins to `…/page.html` and processes that page.
- `isRelative` tests whether `sourcePath/` occurs anywhere in the resolved path (`includes`), not whether the path lies below `sourcePath`. The model keeps the substring test: `SubstringRelative` shows an href that leaves the source directory and still counts as relative. The substring test is also what lets a relative `rootDir` work, so it is kept as behaviour and not reported as a defect.
- A missing `href` or `src` reads as the string `undefined`, whose lookup is undefined. `.attr("path", undefined)` then reads instead of setting, `replaceWith` receives undefined, and the element is removed (`MissingHref`, `EmptyScriptRemoved`). `LinkPlaceholder` and `ScriptStep` model this removal for every external import or script without a lookup.
- Two behaviours are kept as written and proved, not corrected. `replace(".html", ".js")` changes the first `.html` even inside a directory name (`ReplacementInDirectory`). The older `toReadable` looks children up by whole pointer strings, so generated pointers never resolve (`GeneratedPointerFails`).
- Integers are unbounded: the collision counter `i` cannot overflow in the model.
