# log-buddy, modelled in Dafny

log-buddy is a small GTK log viewer. A file dropped on its window is
copied into a temporary directory. If the copy is an archive, it is
unpacked recursively: every archive found inside is unpacked in turn, next
to itself, into a directory named after it with a trailing `_`. The files
that are not archives are appended to a file list that the worker threads
share. When the GUI thread hears that the list changed, it rebuilds the
sidebar: a tree with one row per directory or file of the list, below a
root row "/".

This project models those two pieces of logic and proves what they promise.

- `paths.dfy`
  - `Wrappers`: an `Option` type.
  - `Paths`: absolute paths as the sequence of their names below "/", with
    the `std::path` operations the program uses: `parent`, `file_name`,
    `join` and `components`.
- `extract.dfy`, `Extract`: `Main::uncompress_recursive` as a recursive
  function over a finite content tree.
  - A `File` carries its bytes.
  - It also carries, as an oracle, the snapshot that unpacking it and
    walking the destination directory would produce.
  - The file-type sniffer (`infer`) is a `Classifier` parameter.
  - Every `unwrap()` that can fail becomes a `Panic` outcome. The outcome
    names the step that failed and the path it failed on.
- `sidebar.dfy`, `Sidebar`:
  - the GTK `TreeStore`, as a class whose fields hold the rows, the
    top-level order and each row's children in display order;
  - `SidebarFileList::update`, as imperative code with its nested loops.
    It keeps the `FileTree` index as a map from (row, name) to child row.
  - The panic on an unexpected path component becomes `ok == false`.
- `app.dfy`, `App`: the application object.
  - the copy destination and the copy-then-expand body of the thread that
    `load_file` spawns;
  - the locked block that appends to the shared `Option` list, as a method
    with a loop;
  - the receiver's guard, which rebuilds the sidebar only when a list
    exists.

## Model

| member | source | states |
|---|---|---|
| Paths.Parent | src/main.rs:245 | a path has a parent exactly when it is not the root; the parent is one name shorter and a prefix of the path |
| Paths.FileName | src/main.rs:247 | a path has a file name exactly when it is not the root |
| Paths.Join | src/main.rs:248 | joining a name onto a directory gives a path whose parent is that directory and whose file name is that name |
| Paths.JoinParentFileName | src/main.rs:245-248 | joining a path's parent and file name gives the path back |
| Paths.Components | src/sidebar_file_list.rs:64-65 | the components of an absolute path are RootDir followed by one Normal component per name, in order |
| Extract.SniffPrefix | src/main.rs:231-238 | the sniffer sees the first min(length, 1000) bytes of the file, and exactly those |
| Extract.SniffIgnoresTail | src/main.rs:236-238 | bytes after the first 1000 never change what the sniffer sees |
| Extract.ExpandIgnoresTail | src/main.rs:231-238 | only the classification reads the bytes: with what unpacking yields held fixed, bytes after the first 1000 never change the outcome |
| Extract.Dest | src/main.rs:245-248 | the unpack destination exists unless the path is the root; it has the archive's parent and the archive's file name plus "_", so it is a different path of the same length |
| Extract.Expand | src/main.rs:229-274 | a successful expansion is never empty; a readable file that is not an archive, or that cannot be classified, expands to exactly [path]; any other result lies entirely inside the unpack destination; an unreadable file panics at the open or read, an archive at the root panics at `parent()`/`file_name()`, and an archive the library rejects panics at `uncompress_archive` |
| Extract.ExpandPanicsExactlyOnFailure | src/main.rs:229-274 | the expansion panics if and only if some unwrap in the content tree fails, as the separate predicate `Fails` defines it: an unreadable file, an archive at the root, a rejected archive, or a walk item without metadata, at any depth |
| Extract.WalkPanicsExactlyOnFailure | src/main.rs:256-261 | the walk panics if and only if one of its items has no metadata or is a regular file whose expansion fails |
| Extract.WalkDoneWithoutFailure | src/main.rs:256-261 | a walk with no item lacking metadata, and in which every regular file expands without panicking, completes |
| Extract.ExpandWalk | src/main.rs:256-261 | the walk's result is empty exactly when the walk holds no regular file; everything in it lies inside the destination directory |
| Extract.ExpandFindsExactlyYields | src/main.rs:229-274 | a successful expansion contains exactly the files the content tree ends on: the file itself, or what its regular entries end on when it is an archive that unpacks to at least one regular file |
| Extract.WalkFindsExactlyYields | src/main.rs:256-261 | the walk contains exactly what its regular-file entries end on |
| Extract.WalkSplits | src/main.rs:256-261 | walking a + b gives the result of walking a followed by the result of walking b, with the first panic winning |
| Extract.WalkOfOneFile | src/main.rs:256-261 | a walk holding one regular file yields exactly that file's expansion |
| Extract.OnlyFiles | src/main.rs:258-259 | keeps exactly the walk items that get past the `is_file()` filter or whose metadata lookup panics in it: the regular files, and the items without metadata |
| Extract.OnlyFilesSplits | src/main.rs:258-259 | filtering a + b is filtering a followed by filtering b: kept items stay in walk order, repeats included |
| Extract.OnlyFilesOfOne | src/main.rs:258-259 | a single item is kept exactly when it is a regular file or lacks metadata |
| Extract.WalkSkipsNonFiles | src/main.rs:258-259 | directories, links and failed walk items contribute nothing: the walk equals the walk over OnlyFiles |
| Extract.WalkWithoutFilesFindsNothing | src/main.rs:256-261 | a walk with only directories and failed items yields nothing |
| Extract.WalkPanicsOnAnyFailure | src/main.rs:259-260 | one item whose metadata cannot be read, or one regular file whose expansion panics, anywhere in the walk makes the whole walk panic |
| Extract.EmptyArchiveIsItself | src/main.rs:269-271 | a readable archive at a non-root path whose walk holds only directories, links and error items expands to its own path, not to [] |
| Extract.ArchiveYieldsWalk | src/main.rs:256-261 | an archive with a regular file below it yields exactly the walk of its destination, and never its own path |
| Extract.ExpandStaysBeside | src/main.rs:245-261 | every path an expansion yields lies in the directory holding the expanded file |
| Extract.NestedFlattens | src/main.rs:244-261 | an archive nested to any depth around one non-archive file expands to that one file, at the path the nested `<name>_` directories give it |
| Extract.NestedZipExample | src/main.rs:229-274 | nested.zip, holding debug.log, expands to nested.zip_/debug.log |
| Extract.LogsArchiveWalk | src/main.rs:256-261 | the walk of logs.tar.gz_ finds app.log and then nested.zip_/debug.log, in walk order |
| Extract.LogsArchiveExample | src/main.rs:229-274 | logs.tar.gz, holding app.log and nested.zip, expands to app.log and then nested.zip_/debug.log, in walk order |
| Sidebar.TreeStore.constructor | src/sidebar_file_list.rs:19 | a new store is empty and well formed |
| Sidebar.TreeStore.Clear | src/sidebar_file_list.rs:47 | clearing empties the store |
| Sidebar.TreeStore.InsertWithValues | src/sidebar_file_list.rs:49 | the new row is appended with the given name and flags; it goes first among its parent's children, or first among the top-level rows; the store stays well formed |
| Sidebar.SidebarFileList.constructor | src/sidebar_file_list.rs:15-43 | a new sidebar owns a fresh, empty store |
| Sidebar.SidebarFileList.Update | src/sidebar_file_list.rs:45-93 | ok holds exactly when every component of every path is RootDir or Normal. Then the store shows the paths: a single top-level row "/" with both flags off; every path's names, and each of their prefixes, reach a row; every other row is such a prefix; no two rows share their names; no two siblings share a name; every row's flags were set when it was created; children are newest first; rows are inserted in the order of the first path that reaches them |
| Sidebar.SidebarFileList.InsertPath | src/sidebar_file_list.rs:61-87 | one path is walked in full exactly when all its components are accepted; its names then reach a row, and the earlier paths still do; the rows already in the store are kept as they were, and only rows for this path's names are added: no row is first reached by a later path |
| Sidebar.SidebarFileList.Step | src/sidebar_file_list.rs:65-85 | RootDir is skipped and leaves the cursor, the index and the store unchanged; a Normal name moves the cursor to the child reached by one more name, reusing the indexed child with the store unchanged or appending exactly one row with the `last` flags; any other component stops the walk, changes nothing and makes the path unsupported |
| Sidebar.SidebarFileList.Descend | src/sidebar_file_list.rs:70-82 | the cursor moves to the child with the name; an indexed child is reused and the store and the index are unchanged; otherwise exactly one row, with both flags equal to `index == count - 1`, is appended and put first among the cursor's children, and the index gains it; the index stays exact |
| Sidebar.NotIndexedNotPresent | src/sidebar_file_list.rs:70-72 | a name missing from the index under the cursor is reached by no row |
| Sidebar.InsertKeepsIndex | src/sidebar_file_list.rs:73-79 | inserting a missing child keeps the index exact and the rows' names distinct |
| Sidebar.NewRowFirstWith | src/sidebar_file_list.rs:73-79 | a row is inserted only by the first path that passes through it |
| Sidebar.FinalComponent | src/sidebar_file_list.rs:74 | `index == count - 1` holds exactly when the component is the path's final, Normal component |
| Sidebar.SupportedStep | src/sidebar_file_list.rs:66-84 | a component other than RootDir or Normal makes the whole path unsupported |
| Sidebar.PrependKeepsDecreasing | src/sidebar_file_list.rs:75 | putting a newer row at position 0 keeps the children newest first |
| Sidebar.BuiltShows | src/sidebar_file_list.rs:45-93 | what the loop keeps, once every path has been walked, gives everything update promises |
| Sidebar.BuiltCovers | src/sidebar_file_list.rs:61-87 | when every path's names reach a row, so does every prefix of them |
| Sidebar.CreatedOnlyInputs | src/sidebar_file_list.rs:61-87 | every row was created by some path it is a prefix of |
| Sidebar.UniqueDistinctSiblings | src/sidebar_file_list.rs:71-82 | when no two rows share their names, no row has two children with the same name |
| Sidebar.CreatedFlags | src/sidebar_file_list.rs:73-79 | a row's flags say whether its name was the final component of the first path that reached it; later paths never change them |
| Sidebar.FirstWithUnique | src/sidebar_file_list.rs:61-87 | at most one path is the first to pass through a row |
| Sidebar.RowsArePrefixes | src/sidebar_file_list.rs:61-87 | every row below the root is reached by a non-empty prefix of some path's names |
| Sidebar.PrefixesAreRows | src/sidebar_file_list.rs:61-87 | every non-empty prefix of a path's names reaches a row below the root |
| Sidebar.CreatedInputOrder | src/sidebar_file_list.rs:61-82 | a row inserted later was first reached by the same path or a later one |
| Sidebar.SiblingsByLatestPath | src/sidebar_file_list.rs:73-79 | of two children of one row, the one shown first was first reached by a strictly later path: siblings appear in reverse order of the paths that introduce them |
| Sidebar.OlderSiblingEarlierPath | src/sidebar_file_list.rs:73-79 | of two children of one row, the one inserted first was first reached by a strictly earlier path |
| Sidebar.RowsAreExactlyPrefixes | src/sidebar_file_list.rs:61-87 | after update, a sequence of names reaches a row below the root if and only if it is a non-empty prefix of some path's names |
| App.CopyDestination | src/main.rs:284 | the copy destination exists unless the dropped path is the root; it lies directly in the temporary directory and has the dropped file's name |
| App.Load | src/main.rs:283-289 | the root or an unreadable dropped file panics; a readable dropped file gives exactly the expansion of its copy at tmp/<its name>, so a non-archive is found there itself; a successful load is never empty, and everything it finds lies strictly inside the temporary directory |
| App.AppendedKeepsOrder | src/main.rs:296-303 | appending keeps every element already in the list in place, and puts the new files after them in order |
| App.AppendedTwice | src/main.rs:293-304 | two appends in a row equal one append of both batches |
| App.AppendedAllFlattens | src/main.rs:293-304 | after one or more loads the list exists and holds every file of every load, in the order of the loads |
| App.Main.constructor | src/main.rs:124 | the shared list starts as None |
| App.Main.AppendFiles | src/main.rs:293-304 | None becomes Some(files) and Some(old) becomes Some(old ++ files) |
| App.Main.LoadFile | src/main.rs:283-304 | the outcome is Load's; on success the list gets what was found appended; a panic leaves the list unchanged |
| App.Main.OnFileListUpdated | src/main.rs:154-164 | the sidebar is rebuilt exactly when the list exists, and then shows the list; otherwise the store is untouched |
| App.ComponentsRoundTrip | src/sidebar_file_list.rs:64-68 | keeping the Normal names of a path's components gives the path back, and update accepts all of the components |
| App.NamesOfComponents | src/sidebar_file_list.rs:64-68 | the Normal names of a path's components are the path's names |
| App.NamesOfComponentsPrefix | src/sidebar_file_list.rs:64-68 | the first k + 1 components hold the first k names |
| App.SidebarListsEveryFile | src/main.rs:154-164 | once the sidebar shows a list, every file of the list and every directory above it is a row below the root |

## Left out

- GTK: windows, the text view, the minimap, the drop target and the tree
  view columns (src/main.rs:42-224), and `expand_all`
  (src/sidebar_file_list.rs:91). A row's `TreeIter` is its index in the
  store.
- Threads, the `Arc<Mutex<..>>` and the glib channel (src/main.rs:283-308).
  LoadFile is the spawned thread's body run to its end. OnFileListUpdated
  is the receiver run once.
  - A poisoned or failing lock is not modelled.
  - Neither is the interleaving of two loads, nor the failure of `send`.
- src/file_handler.rs is not part of this model. It is a worker thread with
  an empty command handler.
- The `infer` signature database is the `Classifier` parameter. Only its
  `MatcherType` answer matters.
- `compress_tools::uncompress_archive` and `Ownership::Ignore` are replaced
  by the `unpack` oracle of a `File`. The oracle gives the archive's walk
  snapshot, or `Rejected` when unpacking fails.
- `WalkDir` is modelled as a given ordered snapshot of the destination.
  - The real walk is lazy. It can also visit `<name>_` directories that
    nested extraction creates during the walk. That is filesystem timing
    and is not modelled.
  - The directory entry the walk yields for the destination itself is
    modelled as an ordinary non-regular entry.
- File I/O: `open`, `read`, `seek`, `copy`, and the temporary directory's
  lifecycle (src/main.rs:233-237, 252, 287, 312-331).
  - Sniffing assumes that one `read` fills the buffer as far as the file
    allows. A short read is not modelled.
  - Overwriting an existing copy, and the state of the disk, are not
    modelled.
- `to_str().unwrap()` on a file name that is not UTF-8
  (src/main.rs:247, src/sidebar_file_list.rs:69): names are strings, so
  this panic cannot arise.
- Paths are absolute and normalised: every name is a `Paths.Name`, which
  is never empty, never "." or "..", and holds no '/'.
  - `Components` of such a path never yields `CurDir`, `ParentDir` or
    `Prefix`.
  - `Update` still handles those components, since it takes component
    lists.
- Sidebar.SidebarFileList.Update: when ok is false, the contract states
  only that the store is well formed. It does not state which rows the
  call inserted before it met the unsupported component. The source
  panics at that point.
- An archive with no regular files is not dropped: the code
  (src/main.rs:269-271) pushes the archive's own path
  (Extract.EmptyArchiveIsItself).
