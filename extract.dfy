// The recursive archive expansion of `Main::uncompress_recursive`
// (src/main.rs): a file is sniffed by its leading bytes; a file that is not
// an archive stands for itself, and an archive is unpacked next to itself
// into "<name>_" and every regular file the unpacking produced is expanded
// in turn, in walk order.
//
// The file system is replaced by a finite content tree. A File carries its
// bytes and, as an oracle, what unpacking it and walking the destination
// would produce; that snapshot is only consulted when the sniffer says
// Archive. Every `unwrap()` of the source that can fail becomes a Panic
// outcome naming the path and the step that failed.

module Extract {
  import opened Wrappers
  import opened Paths

  type Byte = b: int | 0 <= b < 256

  /** BUFFER_LEN: how many leading bytes are read to sniff the file type. */
  const BufferLen: nat := 1000

  /** `infer::MatcherType`: the family of a recognised file type. */
  datatype MatcherType = App | Archive | Audio | Book | Doc | Font | Image | Text | Video | Custom

  /** The signature database (`infer::Infer::get`): a pure function of the
      sniffed bytes; None when no signature matches. */
  type Classifier = seq<Byte> -> Option<MatcherType>

  /** A file as the expansion sees it. readable is false when opening it or
      reading its first bytes fails; unpack is what `uncompress_archive`
      followed by the walk of the destination yields for this content. */
  datatype File = File(readable: bool, bytes: seq<Byte>, unpack: Unpacked)

  datatype Unpacked =
    | Rejected                       // the archive library refuses the content
    | Produced(entries: seq<Entry>)  // the walk of the destination, in walk order

  /** A path relative to the destination directory of an unpacking, naming
      something strictly below it. */
  type RelPath = s: seq<Name> | s != [] witness ["a"]

  /** One item of the `WalkDir` walk of a destination directory. */
  datatype Entry =
    | Regular(rel: RelPath, file: File)  // a regular file at dest/rel
    | NotRegular(at: seq<Name>)        // a directory, link, ...: `is_file()` is false
    | WalkFailed                         // an error item, dropped by `filter_map(|e| e.ok())`
    | NoMetadata(at: seq<Name>)        // `metadata()` fails and its unwrap panics

  /** Why the expansion panicked: the `unwrap()` that failed, and on what. */
  datatype Cause =
    | OpenOrReadFailed(path: Path)  // `File::open` or `read` of the sniff buffer
    | NoFileName(path: Path)        // `parent()` or `file_name()` of the root
    | UnpackFailed(path: Path)      // `uncompress_archive`
    | MetadataFailed(path: Path)    // `metadata()` of a walk entry
    | CopyFailed(path: Path)        // `std::fs::copy` in `load_file`, before any expansion;
                                    // only App.Load produces it

  datatype Outcome<+T> = Done(value: T) | Panic(cause: Cause)

  function Min(a: nat, b: nat): nat { if a <= b then a else b }

  /** The bytes the sniffer sees: what one `read` into the 1000-byte buffer
      returns, the whole file when it is shorter. */
  function SniffPrefix(bytes: seq<Byte>): (r: seq<Byte>)
    ensures |r| == Min(|bytes|, BufferLen) && IsPrefix(r, bytes)
  {
    if |bytes| <= BufferLen then bytes else bytes[..BufferLen]
  }

  predicate IsArchive(classify: Classifier, f: File)
  {
    classify(SniffPrefix(f.bytes)) == Some(Archive)
  }

  /** The directory an archive at path is unpacked into: "<file name>_"
      beside it, in the same parent directory. */
  function Dest(path: Path): (r: Option<Path>)
    ensures r.Some? <==> path != []
    ensures r.Some? ==> Parent(r.value) == Parent(path)
    ensures r.Some? ==> FileName(r.value) == Some(FileName(path).value + "_")
    ensures r.Some? ==> r.value != path && |r.value| == |path|
  {
    match (Parent(path), FileName(path))
    case (Some(parent), Some(name)) =>
      var name' := name + "_";
      assert |name'| != |name| && name'[|name'| - 1] == '_';
      assert forall k :: 0 <= k < |name| ==> name'[k] == name[k];
      Some(Join(parent, name'))
    case _ => None
  }

  /** `uncompress_recursive(path)` for the file f stored at path. A Done
      result is never empty; a non-archive stands for itself; anything else
      found lies below the destination directory. An unreadable file, an
      archive at the root and an archive the library rejects panic at the
      unwrap that fails. */
  function Expand(classify: Classifier, path: Path, f: File): (r: Outcome<seq<Path>>)
    ensures r.Done? ==> r.value != []
    ensures f.readable && !IsArchive(classify, f) ==> r == Done([path])
    ensures !f.readable ==> r == Panic(OpenOrReadFailed(path))
    ensures f.readable && IsArchive(classify, f) && path == [] ==> r == Panic(NoFileName(path))
    ensures f.readable && IsArchive(classify, f) && path != [] && f.unpack.Rejected? ==> r == Panic(UnpackFailed(path))
    ensures r.Done? && r.value != [path] ==>
              Dest(path).Some? && forall q :: q in r.value ==> IsPrefix(Dest(path).value, q)
    decreases f, 1, 0
  {
    if !f.readable then Panic(OpenOrReadFailed(path))
    else if !IsArchive(classify, f) then Done([path])
    else
      match Dest(path)
      case None => Panic(NoFileName(path))
      case Some(dest) =>
        match f.unpack
        case Rejected => Panic(UnpackFailed(path))
        case Produced(entries) =>
          match ExpandWalk(classify, dest, f, entries)
          case Panic(cause) => Panic(cause)
          case Done(found) => if found == [] then Done([path]) else Done(found)
  }

  /** The walk over the entries es of the destination dest, expanding each
      regular file in turn and concatenating the results; the first panic
      ends it. owner is the archive the entries came from: it only carries
      the termination argument. The result is empty exactly when the walk
      holds no regular file, and everything in it lies below dest. */
  function ExpandWalk(classify: Classifier, dest: Path, owner: File, es: seq<Entry>): (r: Outcome<seq<Path>>)
    requires owner.unpack.Produced? && forall e | e in es :: e in owner.unpack.entries
    ensures r.Done? ==> (r.value == [] <==> forall e :: e in es ==> !e.Regular?)
    ensures r.Done? ==> forall q :: q in r.value ==> IsPrefix(dest, q)
    decreases owner, 0, |es|
  {
    if es == [] then Done([])
    else
      var rest := ExpandWalk(classify, dest, owner, es[1..]);
      match es[0]
      case NotRegular(_) => rest
      case WalkFailed => rest
      case NoMetadata(at) => Panic(MetadataFailed(dest + at))
      case Regular(rel, file) =>
        assert es[0] in owner.unpack.entries;
        match Expand(classify, dest + rel, file)
        case Panic(cause) => Panic(cause)
        case Done(leaves) =>
          match rest
          case Panic(cause) => Panic(cause)
          case Done(more) =>
            assert forall q :: q in leaves ==> IsPrefix(dest, q) by {
              forall q | q in leaves ensures IsPrefix(dest, q) {
                if leaves != [dest + rel] {
                  var d := Dest(dest + rel).value;
                  assert IsPrefix(dest, d) by { assert d[..|dest|] == dest; }
                  PrefixTransitive(dest, d, q);
                }
              }
            }
            assert es[0] in es && |leaves + more| > 0;
            Done(leaves + more)
  }

  // ---------------------------------------------------------------------
  // What the expansion finds, stated without the walk.

  /** q is a file the expansion of the file f at path ends on: f itself
      when it is not an archive that unpacks to at least one regular file,
      otherwise something one of those regular files ends on. */
  ghost predicate Yields(classify: Classifier, path: Path, f: File, q: Path)
    decreases f
  {
    if IsArchive(classify, f) && Dest(path).Some? && f.unpack.Produced?
       && exists e :: e in f.unpack.entries && e.Regular?
    then exists e :: e in f.unpack.entries && e.Regular? && Yields(classify, Dest(path).value + e.rel, e.file, q)
    else q == path
  }

  /** A successful expansion lists exactly the files the expansion ends on. */
  lemma {:induction false} ExpandFindsExactlyYields(classify: Classifier, path: Path, f: File, r: seq<Path>)
    requires Expand(classify, path, f) == Done(r)
    ensures forall q :: q in r <==> Yields(classify, path, f, q)
    decreases f, 1, 0
  {
    if IsArchive(classify, f) {
      var dest := Dest(path).value;
      var es := f.unpack.entries;
      var found := ExpandWalk(classify, dest, f, es).value;
      WalkFindsExactlyYields(classify, dest, f, es, found);
    }
  }

  lemma {:induction false} WalkFindsExactlyYields(classify: Classifier, dest: Path, owner: File, es: seq<Entry>, r: seq<Path>)
    requires owner.unpack.Produced? && forall e | e in es :: e in owner.unpack.entries
    requires ExpandWalk(classify, dest, owner, es) == Done(r)
    ensures forall q :: q in r <==> exists e :: e in es && e.Regular? && Yields(classify, dest + e.rel, e.file, q)
    decreases owner, 0, |es|
  {
    if es != [] {
      var more := ExpandWalk(classify, dest, owner, es[1..]).value;
      WalkFindsExactlyYields(classify, dest, owner, es[1..], more);
      assert forall e :: e in es <==> e == es[0] || e in es[1..];
      if es[0].Regular? {
        assert es[0] in owner.unpack.entries;
        var leaves := Expand(classify, dest + es[0].rel, es[0].file).value;
        ExpandFindsExactlyYields(classify, dest + es[0].rel, es[0].file, leaves);
        assert r == leaves + more;
      }
    }
  }

  // ---------------------------------------------------------------------
  // When the expansion panics, stated without the walk.

  /** Some `unwrap()` fails while the file f at path is expanded: f cannot
      be read, or it is an archive that sits at the root, that the archive
      library rejects, or whose walk holds an item without metadata or a
      regular file whose own expansion fails. */
  ghost predicate Fails(classify: Classifier, path: Path, f: File)
    decreases f
  {
    || !f.readable
    || (&& IsArchive(classify, f)
        && (|| path == []
            || f.unpack.Rejected?
            || exists e :: e in f.unpack.entries &&
                 (e.NoMetadata? || (e.Regular? && Fails(classify, Dest(path).value + e.rel, e.file)))))
  }

  /** The expansion panics exactly when some unwrap in the content tree fails. */
  lemma {:induction false} ExpandPanicsExactlyOnFailure(classify: Classifier, path: Path, f: File)
    ensures Expand(classify, path, f).Panic? <==> Fails(classify, path, f)
    decreases f, 1, 0
  {
    if f.readable && IsArchive(classify, f) && path != [] && f.unpack.Produced? {
      WalkPanicsExactlyOnFailure(classify, Dest(path).value, f, f.unpack.entries);
    }
  }

  /** The walk panics exactly when one of its items has no metadata or is a
      regular file whose expansion fails. */
  lemma {:induction false} WalkPanicsExactlyOnFailure(classify: Classifier, dest: Path, owner: File, es: seq<Entry>)
    requires owner.unpack.Produced? && forall e | e in es :: e in owner.unpack.entries
    ensures ExpandWalk(classify, dest, owner, es).Panic? <==>
              exists e :: e in es && (e.NoMetadata? || (e.Regular? && Fails(classify, dest + e.rel, e.file)))
    decreases owner, 0, |es|
  {
    if es != [] {
      WalkPanicsExactlyOnFailure(classify, dest, owner, es[1..]);
      assert forall e :: e in es <==> e == es[0] || e in es[1..];
      if es[0].Regular? {
        assert es[0] in owner.unpack.entries;
        ExpandPanicsExactlyOnFailure(classify, dest + es[0].rel, es[0].file);
      }
    }
  }

  // ---------------------------------------------------------------------
  // The walk: concatenation in walk order, only regular files, first panic.

  /** Running one part of a walk, then the rest: the first panic wins,
      otherwise the results are concatenated in order. */
  function Then(a: Outcome<seq<Path>>, b: Outcome<seq<Path>>): Outcome<seq<Path>>
  {
    match a
    case Panic(_) => a
    case Done(x) =>
      match b
      case Panic(_) => b
      case Done(y) => Done(x + y)
  }

  /** The walk over a + b is the walk over a followed by the walk over b. */
  lemma {:induction false} WalkSplits(classify: Classifier, dest: Path, owner: File, a: seq<Entry>, b: seq<Entry>)
    requires owner.unpack.Produced? && forall e | e in a + b :: e in owner.unpack.entries
    ensures ExpandWalk(classify, dest, owner, a + b)
            == Then(ExpandWalk(classify, dest, owner, a), ExpandWalk(classify, dest, owner, b))
    decreases |a|
  {
    if a == [] {
      assert a + b == b;
      var wb := ExpandWalk(classify, dest, owner, b);
      if wb.Done? { assert [] + wb.value == wb.value; }
    } else {
      assert (a + b)[0] == a[0] && (a + b)[1..] == a[1..] + b;
      WalkSplits(classify, dest, owner, a[1..], b);
      if a[0].Regular? {
        assert a[0] in owner.unpack.entries;
        var leaves := Expand(classify, dest + a[0].rel, a[0].file);
        if leaves.Done? && ExpandWalk(classify, dest, owner, a[1..]).Done?
           && ExpandWalk(classify, dest, owner, b).Done? {
          assert leaves.value + (ExpandWalk(classify, dest, owner, a[1..]).value + ExpandWalk(classify, dest, owner, b).value)
              == (leaves.value + ExpandWalk(classify, dest, owner, a[1..]).value) + ExpandWalk(classify, dest, owner, b).value;
        }
      }
    }
  }

  /** A walk holding one regular file yields that file's expansion. */
  lemma {:induction false} WalkOfOneFile(classify: Classifier, dest: Path, owner: File, rel: RelPath, f: File)
    requires owner.unpack.Produced? && Regular(rel, f) in owner.unpack.entries
    ensures ExpandWalk(classify, dest, owner, [Regular(rel, f)]) == Expand(classify, dest + rel, f)
  {
    var rest := ExpandWalk(classify, dest, owner, []);
    assert rest == Done([]);
    var leaves := Expand(classify, dest + rel, f);
    if leaves.Done? {
      assert leaves.value + [] == leaves.value;
    }
  }

  /** The walk items that get past the `filter` on `is_file()`: the regular
      files, and the items whose metadata lookup panics there. */
  function OnlyFiles(es: seq<Entry>): (r: seq<Entry>)
    ensures forall e :: e in r <==> e in es && (e.Regular? || e.NoMetadata?)
  {
    if es == [] then []
    else
      assert forall e :: e in es <==> e == es[0] || e in es[1..];
      (if es[0].Regular? || es[0].NoMetadata? then [es[0]] else []) + OnlyFiles(es[1..])
  }

  /** The filter works item by item: filtering a + b filters a, then b, so
      the kept items stay in walk order, repeats included. */
  lemma {:induction false} OnlyFilesSplits(a: seq<Entry>, b: seq<Entry>)
    ensures OnlyFiles(a + b) == OnlyFiles(a) + OnlyFiles(b)
    decreases |a|
  {
    if a == [] {
      assert a + b == b;
    } else {
      var head := if a[0].Regular? || a[0].NoMetadata? then [a[0]] else [];
      assert (a + b)[0] == a[0] && (a + b)[1..] == a[1..] + b;
      OnlyFilesSplits(a[1..], b);
      calc {
        OnlyFiles(a + b);
        head + OnlyFiles(a[1..] + b);
        head + (OnlyFiles(a[1..]) + OnlyFiles(b));
        (head + OnlyFiles(a[1..])) + OnlyFiles(b);
        OnlyFiles(a) + OnlyFiles(b);
      }
    }
  }

  /** One item is kept exactly when it is a regular file or lacks metadata. */
  lemma OnlyFilesOfOne(e: Entry)
    ensures OnlyFiles([e]) == if e.Regular? || e.NoMetadata? then [e] else []
  {
    assert [e][1..] == [];
  }

  /** Directories, links and unreadable walk items contribute nothing. */
  lemma {:induction false} WalkSkipsNonFiles(classify: Classifier, dest: Path, owner: File, es: seq<Entry>)
    requires owner.unpack.Produced? && forall e | e in es :: e in owner.unpack.entries
    ensures ExpandWalk(classify, dest, owner, es) == ExpandWalk(classify, dest, owner, OnlyFiles(es))
  {
    if es != [] {
      var rest := OnlyFiles(es[1..]);
      assert forall e | e in rest :: e in owner.unpack.entries;
      WalkSkipsNonFiles(classify, dest, owner, es[1..]);
      if es[0].Regular? || es[0].NoMetadata? {
        var fs := OnlyFiles(es);
        assert fs == [es[0]] + rest;
        assert fs[0] == es[0] && fs[1..] == rest;
      } else {
        assert OnlyFiles(es) == rest;
      }
    }
  }

  /** A walk with no regular file and no unreadable metadata finds nothing. */
  lemma {:induction false} WalkWithoutFilesFindsNothing(classify: Classifier, dest: Path, owner: File, es: seq<Entry>)
    requires owner.unpack.Produced? && forall e | e in es :: e in owner.unpack.entries
    requires forall e :: e in es ==> e.NotRegular? || e.WalkFailed?
    ensures ExpandWalk(classify, dest, owner, es) == Done([])
  {
    if es != [] {
      assert es[0] in es;
      WalkWithoutFilesFindsNothing(classify, dest, owner, es[1..]);
    }
  }

  /** One failing item anywhere in the walk aborts the whole walk: an item
      whose metadata cannot be read, or a regular file whose expansion
      panics. */
  lemma {:induction false} WalkPanicsOnAnyFailure(classify: Classifier, dest: Path, owner: File, es: seq<Entry>, k: nat)
    requires owner.unpack.Produced? && forall e | e in es :: e in owner.unpack.entries
    requires k < |es|
    requires es[k].NoMetadata? || (es[k].Regular? && Expand(classify, dest + es[k].rel, es[k].file).Panic?)
    ensures ExpandWalk(classify, dest, owner, es).Panic?
  {
    if k > 0 {
      WalkPanicsOnAnyFailure(classify, dest, owner, es[1..], k - 1);
      if es[0].Regular? {
        assert es[0] in owner.unpack.entries;
      }
    }
  }

  /** A walk in which no item lacks metadata and every regular file expands
      without panicking completes. */
  lemma {:induction false} WalkDoneWithoutFailure(classify: Classifier, dest: Path, owner: File, es: seq<Entry>)
    requires owner.unpack.Produced? && forall e | e in es :: e in owner.unpack.entries
    requires forall k :: 0 <= k < |es| ==>
               !es[k].NoMetadata? && (es[k].Regular? ==> Expand(classify, dest + es[k].rel, es[k].file).Done?)
    ensures ExpandWalk(classify, dest, owner, es).Done?
  {
    if es != [] {
      assert forall k :: 1 <= k < |es| ==> es[1..][k - 1] == es[k];
      WalkDoneWithoutFailure(classify, dest, owner, es[1..]);
      if es[0].Regular? {
        assert es[0] in owner.unpack.entries;
      }
    }
  }

  /** The owner argument of the walk only serves termination. */
  lemma {:induction false} WalkOwnerIrrelevant(classify: Classifier, dest: Path, o1: File, o2: File, es: seq<Entry>)
    requires o1.unpack.Produced? && forall e | e in es :: e in o1.unpack.entries
    requires o2.unpack.Produced? && forall e | e in es :: e in o2.unpack.entries
    ensures ExpandWalk(classify, dest, o1, es) == ExpandWalk(classify, dest, o2, es)
  {
    if es != [] {
      WalkOwnerIrrelevant(classify, dest, o1, o2, es[1..]);
      if es[0].Regular? {
        assert es[0] in o1.unpack.entries && es[0] in o2.unpack.entries;
      }
    }
  }

  // ---------------------------------------------------------------------
  // Properties of a single expansion.

  /** An archive whose walk holds no regular file (and no unreadable
      metadata) expands to its own path, not to nothing. */
  lemma {:induction false} EmptyArchiveIsItself(classify: Classifier, path: Path, f: File)
    requires f.readable && IsArchive(classify, f) && path != []
    requires f.unpack.Produced?
    requires forall e :: e in f.unpack.entries ==> e.NotRegular? || e.WalkFailed?
    ensures Expand(classify, path, f) == Done([path])
  {
    WalkWithoutFilesFindsNothing(classify, Dest(path).value, f, f.unpack.entries);
  }

  /** An archive with at least one regular file below it yields what the
      walk of its destination yields, and never its own path. */
  lemma {:induction false} ArchiveYieldsWalk(classify: Classifier, path: Path, f: File, r: seq<Path>)
    requires f.readable && IsArchive(classify, f) && f.unpack.Produced?
    requires exists e :: e in f.unpack.entries && e.Regular?
    requires Expand(classify, path, f) == Done(r)
    ensures Dest(path).Some? && ExpandWalk(classify, Dest(path).value, f, f.unpack.entries) == Done(r)
    ensures path !in r
  {
    var dest := Dest(path).value;
    var found := ExpandWalk(classify, dest, f, f.unpack.entries);
    assert found.Done? && found.value != [];
  }

  /** Every path an expansion yields lies in the directory holding the
      expanded file. */
  lemma {:induction false} ExpandStaysBeside(classify: Classifier, path: Path, f: File, r: seq<Path>)
    requires path != [] && Expand(classify, path, f) == Done(r)
    ensures forall q :: q in r ==> IsPrefix(Parent(path).value, q)
  {
    var parent := Parent(path).value;
    forall q | q in r ensures IsPrefix(parent, q) {
      if r == [path] {
        assert q == path;
      } else {
        var dest := Dest(path).value;
        assert IsPrefix(parent, dest) by { assert dest[..|parent|] == parent; }
        PrefixTransitive(parent, dest, q);
      }
    }
  }

  /** Sniffing reads at most BufferLen bytes: what follows them is never seen. */
  lemma {:induction false} SniffIgnoresTail(bytes: seq<Byte>, tail: seq<Byte>)
    requires |bytes| >= BufferLen
    ensures SniffPrefix(bytes + tail) == SniffPrefix(bytes)
  {
    assert (bytes + tail)[..BufferLen] == bytes[..BufferLen];
  }

  /** Only the classification reads the bytes of a file: with what its
      unpacking yields held fixed, bytes past the first BufferLen never change
      the outcome. (The archive library itself reads the whole file; its
      result is the unpack oracle, which this lemma keeps.) */
  lemma {:induction false} ExpandIgnoresTail(classify: Classifier, path: Path, f: File, tail: seq<Byte>)
    requires |f.bytes| >= BufferLen
    ensures Expand(classify, path, f.(bytes := f.bytes + tail)) == Expand(classify, path, f)
  {
    var g := f.(bytes := f.bytes + tail);
    SniffIgnoresTail(f.bytes, tail);
    if f.readable && IsArchive(classify, f) && path != [] && f.unpack.Produced? {
      WalkOwnerIrrelevant(classify, Dest(path).value, f, g, f.unpack.entries);
    }
  }

  // ---------------------------------------------------------------------
  // Nesting depth.

  /** An archive holding one file called name that is itself such an
      archive, depth levels deep, around the file leaf. */
  function Nested(depth: nat, archive: seq<Byte>, name: Name, leaf: File): File
  {
    if depth == 0 then leaf
    else File(true, archive, Produced([Regular([name], Nested(depth - 1, archive, name, leaf))]))
  }

  /** Where the innermost file of Nested(depth, ...) ends up when the
      outermost one is expanded at path. */
  function NestedLeafPath(path: Path, depth: nat, name: Name): Path
    requires path != []
    decreases depth
  {
    if depth == 0 then path else NestedLeafPath(Dest(path).value + [name], depth - 1, name)
  }

  /** However deep the nesting, the expansion flattens it to the single
      innermost file. */
  lemma {:induction false} NestedFlattens(classify: Classifier, path: Path, depth: nat, archive: seq<Byte>, name: Name, leaf: File)
    requires path != [] && classify(SniffPrefix(archive)) == Some(Archive)
    requires leaf.readable && !IsArchive(classify, leaf)
    ensures Expand(classify, path, Nested(depth, archive, name, leaf)) == Done([NestedLeafPath(path, depth, name)])
    decreases depth
  {
    if depth > 0 {
      var f := Nested(depth, archive, name, leaf);
      var inner := Nested(depth - 1, archive, name, leaf);
      var dest := Dest(path).value;
      var leafPath := NestedLeafPath(dest + [name], depth - 1, name);
      NestedFlattens(classify, dest + [name], depth - 1, archive, name, leaf);
      WalkOfOneFile(classify, dest, f, [name], inner);
      assert ExpandWalk(classify, dest, f, f.unpack.entries) == Done([leafPath]);
      assert IsArchive(classify, f) && f.readable;
    }
  }

  // ---------------------------------------------------------------------
  // A worked example: logs.tar.gz holds app.log and nested.zip, and
  // nested.zip holds debug.log.

  const Tmp: Name := "tmp"
  const LogsTarGzName: Name := "logs.tar.gz"
  const LogsDir: Name := "logs.tar.gz_"
  const AppLog: Name := "app.log"
  const NestedZipName: Name := "nested.zip"
  const NestedDir: Name := "nested.zip_"
  const DebugLog: Name := "debug.log"

  /** A two-signature sniffer: gzip and zip are archives, nothing else is recognised. */
  function GzipZipSniff(prefix: seq<Byte>): Option<MatcherType>
  {
    if |prefix| >= 3 && prefix[..3] == [0x1f, 0x8b, 0x08] then Some(Archive)
    else if |prefix| >= 4 && prefix[..4] == [0x50, 0x4b, 0x03, 0x04] then Some(Archive)
    else None
  }

  function LogFile(): File { File(true, [0x61], Rejected) }

  function NestedZip(): File
  {
    File(true, [0x50, 0x4b, 0x03, 0x04], Produced([NotRegular([]), Regular([DebugLog], LogFile())]))
  }

  function LogsTarGz(): File
  {
    File(true, [0x1f, 0x8b, 0x08], Produced([NotRegular([]), Regular([AppLog], LogFile()), Regular([NestedZipName], NestedZip())]))
  }

  lemma NestedZipExample()
    ensures Expand(GzipZipSniff, [Tmp, LogsDir, NestedZipName], NestedZip())
            == Done([[Tmp, LogsDir, NestedDir, DebugLog]])
  {
    var zip := NestedZip();
    var source: Path := [Tmp, LogsDir, NestedZipName];
    var inner: Path := [Tmp, LogsDir, NestedDir];
    var debug := inner + [DebugLog];
    assert SniffPrefix(zip.bytes)[..4] == [0x50, 0x4b, 0x03, 0x04];
    assert Dest(source) == Some(inner) by {
      assert NestedZipName + "_" == NestedDir;
      assert source[..2] + [NestedDir] == inner;
    }
    assert Expand(GzipZipSniff, debug, LogFile()) == Done([debug]) by {
      assert SniffPrefix(LogFile().bytes) == [0x61];
    }
    var es := zip.unpack.entries;
    assert ExpandWalk(GzipZipSniff, inner, zip, es[2..]) == Done([]);
    assert ExpandWalk(GzipZipSniff, inner, zip, es[1..]) == Done([debug]) by {
      assert [debug] + [] == [debug];
    }
    assert ExpandWalk(GzipZipSniff, inner, zip, es) == Done([debug]);
    assert IsArchive(GzipZipSniff, zip);
    assert debug == [Tmp, LogsDir, NestedDir, DebugLog];
  }

  /** The walk of logs.tar.gz_ finds app.log, then what nested.zip expands to. */
  lemma LogsArchiveWalk()
    ensures ExpandWalk(GzipZipSniff, [Tmp, LogsDir], LogsTarGz(), LogsTarGz().unpack.entries)
            == Done([[Tmp, LogsDir, AppLog], [Tmp, LogsDir, NestedDir, DebugLog]])
  {
    var tgz := LogsTarGz();
    var top: Path := [Tmp, LogsDir];
    var app := top + [AppLog];
    var debug := [Tmp, LogsDir, NestedDir, DebugLog];
    assert Expand(GzipZipSniff, app, LogFile()) == Done([app]) by {
      assert SniffPrefix(LogFile().bytes) == [0x61];
    }
    NestedZipExample();
    assert top + [NestedZipName] == [Tmp, LogsDir, NestedZipName];
    var es := tgz.unpack.entries;
    assert ExpandWalk(GzipZipSniff, top, tgz, es[3..]) == Done([]);
    assert ExpandWalk(GzipZipSniff, top, tgz, es[2..]) == Done([debug]) by {
      assert [debug] + [] == [debug];
    }
    assert ExpandWalk(GzipZipSniff, top, tgz, es[1..]) == Done([app, debug]) by {
      assert [app] + [debug] == [app, debug];
    }
    assert app == [Tmp, LogsDir, AppLog];
  }

  /** logs.tar.gz, holding app.log and nested.zip with debug.log inside,
      expands to app.log and debug.log, in that order. */
  lemma LogsArchiveExample()
    ensures Expand(GzipZipSniff, [Tmp, LogsTarGzName], LogsTarGz())
            == Done([[Tmp, LogsDir, AppLog], [Tmp, LogsDir, NestedDir, DebugLog]])
  {
    var tgz := LogsTarGz();
    var source: Path := [Tmp, LogsTarGzName];
    var top: Path := [Tmp, LogsDir];
    assert SniffPrefix(tgz.bytes)[..3] == [0x1f, 0x8b, 0x08];
    assert Dest(source) == Some(top) by {
      assert LogsTarGzName + "_" == LogsDir;
      assert source[..1] + [LogsDir] == top;
    }
    LogsArchiveWalk();
    assert IsArchive(GzipZipSniff, tgz);
  }
}
