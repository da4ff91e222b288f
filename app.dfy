// The sequential effect of the application object `Main` (src/main.rs): a
// dropped file is copied into the temporary directory and expanded there;
// the files found are appended to the shared file list; and when the GUI
// thread is told the list changed, the sidebar is rebuilt from it.
//
// The worker thread, the mutex around the list and the channel to the GUI
// thread are replaced by plain sequential calls: LoadFile is the body of
// the spawned thread, OnFileListUpdated is the receiver of the event.

module App {
  import opened Wrappers
  import opened Paths
  import opened Extract
  import opened Sidebar

  /** Where `load_file` copies a dropped file: its file name inside tmp. */
  function CopyDestination(tmp: Path, path: Path): (r: Option<Path>)
    ensures r.Some? <==> path != []
    ensures r.Some? ==> Parent(r.value) == Some(tmp) && FileName(r.value) == FileName(path)
  {
    match FileName(path)
    case None => None
    case Some(name) => Some(Join(tmp, name))
  }

  /** The shared file list after files were pushed onto it: a missing list
      is first replaced by an empty one. */
  function Appended(list: Option<seq<Path>>, files: seq<Path>): Option<seq<Path>>
  {
    match list
    case None => Some(files)
    case Some(existing) => Some(existing + files)
  }

  /** The list a sequence of appends leaves, from no list at all. */
  function AppendedAll(batches: seq<seq<Path>>): Option<seq<Path>>
  {
    if batches == [] then None
    else Appended(AppendedAll(batches[..|batches| - 1]), batches[|batches| - 1])
  }

  function Flatten(batches: seq<seq<Path>>): seq<Path>
  {
    if batches == [] then [] else Flatten(batches[..|batches| - 1]) + batches[|batches| - 1]
  }

  /** Appending keeps every element already in the list at its place and
      puts the new files, in order, after them. */
  lemma AppendedKeepsOrder(list: Option<seq<Path>>, files: seq<Path>)
    ensures var r := Appended(list, files).value;
      var before := if list.Some? then list.value else [];
      && |r| == |before| + |files|
      && (forall k :: 0 <= k < |before| ==> r[k] == before[k])
      && (forall k :: 0 <= k < |files| ==> r[|before| + k] == files[k])
  {
  }

  /** Two appends in a row leave what one append of both batches would. */
  lemma AppendedTwice(list: Option<seq<Path>>, a: seq<Path>, b: seq<Path>)
    ensures Appended(Appended(list, a), b) == Appended(list, a + b)
  {
    match list
    case None =>
    case Some(existing) =>
      assert existing + a + b == existing + (a + b);
  }

  /** After at least one load the list exists and holds every file of
      every load, in the order of the loads. */
  lemma {:induction false} AppendedAllFlattens(batches: seq<seq<Path>>)
    requires batches != []
    ensures AppendedAll(batches) == Some(Flatten(batches))
    decreases |batches|
  {
    var init := batches[..|batches| - 1];
    if init != [] {
      AppendedAllFlattens(init);
    } else {
      assert [] + batches[0] == batches[0];
    }
  }

  /** The body of the thread `load_file` spawns, as a function: copy the
      dropped file f from path into tmp, then expand the copy. An unreadable
      dropped file already makes the copy panic, so the expansion only ever
      sees a readable copy. */
  function Load(classify: Classifier, tmp: Path, path: Path, f: File): (r: Outcome<seq<Path>>)
    ensures path != [] && f.readable && !IsArchive(classify, f) ==> r == Done([tmp + [path[|path| - 1]]])
    ensures r.Done? ==> r.value != [] && forall q :: q in r.value ==> IsPrefix(tmp, q) && |q| > |tmp|
    ensures path == [] || !f.readable ==> r.Panic?
    ensures path != [] && f.readable ==> r == Expand(classify, tmp + [path[|path| - 1]], f)
  {
    match CopyDestination(tmp, path)
    case None => Panic(NoFileName(path))
    case Some(dest) =>
      if !f.readable then Panic(CopyFailed(path))
      else
        var r := Expand(classify, dest, f);
        if r.Done? then
          ExpandStaysBeside(classify, dest, f, r.value);
          assert forall q :: q in r.value ==> |q| > |tmp| by {
            forall q | q in r.value ensures |q| > |tmp| {
              if r.value != [dest] {
                assert IsPrefix(Dest(dest).value, q);
              }
            }
          }
          r
        else r
  }

  /** The names of every path of a list, as `Path::components` splits them. */
  function ComponentLists(list: seq<Path>): (r: seq<seq<Component>>)
    ensures |r| == |list| && forall k :: 0 <= k < |list| ==> r[k] == Components(list[k])
  {
    seq(|list|, k requires 0 <= k < |list| => Components(list[k]))
  }

  /** Splitting a path into components and keeping the Normal names gives
      the path back, and update accepts every component. */
  lemma ComponentsRoundTrip(p: Path)
    ensures Names(Components(p)) == p && Supported(Components(p))
  {
    NamesOfComponents(p);
  }

  lemma NamesOfComponents(p: Path)
    ensures Names(Components(p)) == p
  {
    var cs := Components(p);
    NamesOfComponentsPrefix(p, |p|);
    assert cs[..|p| + 1] == cs && p[..|p|] == p;
  }

  lemma {:induction false} NamesOfComponentsPrefix(p: Path, k: nat)
    requires k <= |p|
    ensures Names(Components(p)[..k + 1]) == p[..k]
    decreases k
  {
    var cs := Components(p);
    NamesStep(cs, k);
    if k == 0 {
      assert cs[..0] == [];
    } else {
      NamesOfComponentsPrefix(p, k - 1);
      assert cs[k] == Normal(p[k - 1]);
      assert p[..k] == p[..k - 1] + [p[k - 1]];
    }
  }

  /** Once the sidebar has been rebuilt from a list, every non-root path in
      the list, and every directory above it, is a row below the root. */
  lemma SidebarListsEveryFile(rows: seq<Row>, tops: seq<nat>, kids: seq<seq<nat>>, list: seq<Path>, k: nat, d: Path)
    requires Shows(rows, tops, kids, ComponentLists(list))
    requires k < |list| && d != [] && IsPrefix(d, list[k])
    ensures exists n :: 1 <= n < |rows| && PathOf(rows, n) == d
  {
    ComponentsRoundTrip(list[k]);
    PrefixesAreRows(rows, ComponentLists(list), k, d);
  }

  /** The application object: the temporary directory dropped files are
      copied into, the sidebar, and the file list shared with the loading
      threads (None until the first load finishes). */
  class Main {
    const tmp: Path
    const sidebar: SidebarFileList
    var fileList: Option<seq<Path>>

    constructor (tmp: Path, sidebar: SidebarFileList)
      ensures this.tmp == tmp && this.sidebar == sidebar && fileList == None
    {
      this.tmp := tmp;
      this.sidebar := sidebar;
      fileList := None;
    }

    /** The locked block of `load_file`: make the list exist, then push the
        files onto it one by one. */
    method AppendFiles(files: seq<Path>)
      modifies this
      ensures fileList == Appended(old(fileList), files)
    {
      if fileList.None? {
        fileList := Some([]);
      }
      ghost var before := fileList.value;
      var k := 0;
      assert before + files[..0] == before;
      while k < |files|
        invariant 0 <= k <= |files|
        invariant fileList == Some(before + files[..k])
      {
        assert before + files[..k + 1] == before + files[..k] + [files[k]];
        fileList := Some(fileList.value + [files[k]]);
        k := k + 1;
      }
      assert before + files[..k] == before + files;
      assert old(fileList).None? ==> before + files == files;
    }

    /** `load_file(path)` for the file f found at path, run to its end: the
        copy and expansion of Load, then, unless it panicked, the append of
        what it found to the shared list. A panic ends the thread before the
        list is locked and leaves the list as it was. */
    method LoadFile(classify: Classifier, path: Path, f: File) returns (outcome: Outcome<seq<Path>>)
      modifies this
      ensures outcome == Load(classify, tmp, path, f)
      ensures outcome.Done? ==> fileList == Appended(old(fileList), outcome.value)
      ensures outcome.Panic? ==> fileList == old(fileList)
    {
      outcome := Load(classify, tmp, path, f);
      if outcome.Done? {
        AppendFiles(outcome.value);
      }
    }

    /** The receiver of UpdateFileListEvent: the sidebar is rebuilt from the
        file list when there is one, and left alone otherwise. */
    method OnFileListUpdated() returns (refreshed: bool)
      modifies sidebar.store
      ensures refreshed <==> fileList.Some?
      ensures refreshed ==> sidebar.store.Valid()
      ensures refreshed ==>
                Shows(sidebar.store.rows, sidebar.store.tops, sidebar.store.kids, ComponentLists(fileList.value))
      ensures !refreshed ==> unchanged(sidebar.store)
    {
      match fileList
      case None =>
        refreshed := false;
      case Some(list) =>
        var paths := ComponentLists(list);
        forall q | 0 <= q < |paths| ensures Supported(paths[q]) {
          ComponentsRoundTrip(list[q]);
        }
        var ok := sidebar.Update(paths);
        refreshed := true;
    }
  }
}
