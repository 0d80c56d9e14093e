/**
 * The file-system helpers of `src/fs/mod.ts`: `stat` and the three queries that degrade every
 * failure to `false`, the path-only projections of `readDir` and `walk`, the forced flags of
 * `walkFiles`/`walkDirectories`, the `readFileStream` loop, and `copyFileStream` with its
 * option merge, chunk loop and timestamp step. Every path is normalised with `toSlashAll`
 * before it reaches the operating system.
 */
module Fs {
  import opened Wrappers
  import opened Path
  import opened Os

  // ---------------------------------------------------------------------------------------------
  // stat, exists, isFile, isDirectory
  // ---------------------------------------------------------------------------------------------

  /** `stat(path)`: `Deno.stat` on the normalised path. */
  function Stat(fs: FileSystem, path: string): (r: Result<FileInfo, FsError>)
    ensures var q := ToSlashAll(path);
      && (r.Success? <==> q in fs.entries && q !in fs.denied)
      && (r.Failure? ==> r.error == (if q in fs.denied then PermissionDenied else NotFound))
      && (r.Success? ==>
            && r.value.isFile == fs.entries[q].File? && r.value.isDirectory == fs.entries[q].Directory?
            && r.value.atime == fs.entries[q].atime && r.value.mtime == fs.entries[q].mtime)
  {
    Os.Stat(fs, ToSlashAll(path))
  }

  /** `exists(path)`: `true` when `stat` resolves; any rejection becomes `false`. */
  function Exists(fs: FileSystem, path: string): (r: bool)
    ensures r <==> ToSlashAll(path) in fs.entries && ToSlashAll(path) !in fs.denied
  {
    Stat(fs, path).Success?
  }

  /** `isFile(path)`: the `isFile` flag of `stat`, and `false` when `stat` rejects. */
  function IsFile(fs: FileSystem, path: string): (r: bool)
    ensures r <==> var q := ToSlashAll(path); q in fs.entries && q !in fs.denied && fs.entries[q].File?
  {
    match Stat(fs, path)
    case Success(info) => info.isFile
    case Failure(_) => false
  }

  /** `isDirectory(path)`: the `isDirectory` flag of `stat`, and `false` when `stat` rejects. */
  function IsDirectory(fs: FileSystem, path: string): (r: bool)
    ensures r <==> var q := ToSlashAll(path); q in fs.entries && q !in fs.denied && fs.entries[q].Directory?
  {
    match Stat(fs, path)
    case Success(info) => info.isDirectory
    case Failure(_) => false
  }

  /** A failing `stat` makes all three queries `false`; a succeeding one makes the path exist as exactly one kind. */
  lemma QueriesDegradeToFalse(fs: FileSystem, path: string)
    ensures Stat(fs, path).Failure? ==> !Exists(fs, path) && !IsFile(fs, path) && !IsDirectory(fs, path)
    ensures Stat(fs, path).Success? ==> Exists(fs, path) && (IsFile(fs, path) != IsDirectory(fs, path))
  {
  }

  /** The queries do not depend on which separator style the caller wrote the path in. */
  lemma {:induction false} QueriesIgnoreSeparatorStyle(fs: FileSystem, path: string)
    ensures Stat(fs, ToBackslashAll(path)) == Stat(fs, path)
    ensures Exists(fs, ToBackslashAll(path)) == Exists(fs, path)
    ensures IsFile(fs, ToBackslashAll(path)) == IsFile(fs, path)
    ensures IsDirectory(fs, ToBackslashAll(path)) == IsDirectory(fs, path)
  {
    ToSlashAllIgnoresStyle(path);
  }

  // ---------------------------------------------------------------------------------------------
  // readDir and walk: projections over the library's entry sequences
  // ---------------------------------------------------------------------------------------------

  /** An entry of `Deno.readDir`. */
  datatype DirEntry = DirEntry(name: string, isFile: bool, isDirectory: bool, isSymlink: bool)

  /** An entry of the library `walk`. */
  datatype WalkEntry = WalkEntry(path: string, name: string, isFile: bool, isDirectory: bool, isSymlink: bool)

  /** What `readDir`/`walk` hand back: the library's entries untouched, or one path string per entry. */
  datatype Listing<E> = Entries(entries: seq<E>) | Paths(paths: seq<string>)

  /** The path `readDir` yields for an entry in path-only mode. */
  function EntryPath(dir: string, name: string): string {
    dir + "/" + name
  }

  /**
   * `readDir(path, pathOnly)`. `listDir` stands for `Deno.readDir`, called with the normalised
   * path; with `pathOnly` each entry becomes that path, a `/` and the entry's name.
   */
  function ReadDir(listDir: string -> seq<DirEntry>, path: string, pathOnly: Option<bool>): (r: Listing<DirEntry>)
    ensures !pathOnly.GetOr(false) ==> r == Entries(listDir(ToSlashAll(path)))
    ensures pathOnly.GetOr(false) ==>
      var es := listDir(ToSlashAll(path));
      && r.Paths? && |r.paths| == |es|
      && forall i :: 0 <= i < |es| ==> r.paths[i] == EntryPath(ToSlashAll(path), es[i].name)
  {
    var dir := ToSlashAll(path);
    var es := listDir(dir);
    if pathOnly.GetOr(false) then Paths(seq(|es|, i requires 0 <= i < |es| => EntryPath(dir, es[i].name)))
    else Entries(es)
  }

  /**
   * The `i`-th path of a path-only `readDir` holds no backslash, its basename is the entry's
   * name, and its dirname is the normalised directory without trailing separators, whenever the
   * name holds no separator.
   */
  lemma {:induction false} ReadDirPathsSplitBack(listDir: string -> seq<DirEntry>, path: string, i: nat)
    requires i < |listDir(ToSlashAll(path))|
    requires NoneIn(listDir(ToSlashAll(path))[i].name, Separators)
    ensures var p := ReadDir(listDir, path, Some(true)).paths[i];
      && '\\' !in p
      && Basename(p) == listDir(ToSlashAll(path))[i].name
      && Dirname(p) == TrimEnd(ToSlashAll(path), Separators, true)
  {
    var dir, name := ToSlashAll(path), listDir(ToSlashAll(path))[i].name;
    var p := ReadDir(listDir, path, Some(true)).paths[i];
    assert p == dir + "/" + name;
    assert '\\' !in p by {
      forall j | 0 <= j < |p| ensures p[j] != '\\' {
        if j < |dir| { assert p[j] == dir[j]; } else if j > |dir| { assert p[j] == name[j - |dir| - 1]; }
      }
    }
    BasenameOfJoin(dir + "/", name);
    assert dir + "/" + name == (dir + "/") + name;
    DirnameAfterSeparatorRun(dir, "/", name);
  }

  /** The options of the library `walk` (`denoFs.WalkOptions`); a field left out is `None`. */
  datatype LibWalkOptions = LibWalkOptions(
    maxDepth: Option<nat>,
    includeFiles: Option<bool>,
    includeDirs: Option<bool>,
    followSymlinks: Option<bool>,
    exts: Option<seq<string>>)

  /** `WalkOption`: the library's options plus `pathOnly`. */
  datatype WalkOptions = WalkOptions(
    maxDepth: Option<nat>,
    includeFiles: Option<bool>,
    includeDirs: Option<bool>,
    followSymlinks: Option<bool>,
    exts: Option<seq<string>>,
    pathOnly: Option<bool>)

  /** `options ?? {}`. */
  function OrEmpty(options: Option<WalkOptions>): WalkOptions {
    options.GetOr(WalkOptions(None, None, None, None, None, None))
  }

  /**
   * `const { pathOnly, ..._options } = options ?? {}`: the options handed on to the library
   * are the caller's, every field kept as given, with `pathOnly` taken out.
   */
  function WithoutPathOnly(options: Option<WalkOptions>): (rest: LibWalkOptions)
    ensures var o := OrEmpty(options);
      && rest.maxDepth == o.maxDepth && rest.includeFiles == o.includeFiles
      && rest.includeDirs == o.includeDirs && rest.followSymlinks == o.followSymlinks
      && rest.exts == o.exts
  {
    var o := OrEmpty(options);
    LibWalkOptions(o.maxDepth, o.includeFiles, o.includeDirs, o.followSymlinks, o.exts)
  }

  /**
   * `walk(path, options)`. `walker` stands for the library `walk`, called with the normalised
   * path and the options less `pathOnly`; with `pathOnly` each entry becomes its `path`.
   */
  function Walk(walker: (string, LibWalkOptions) -> seq<WalkEntry>, path: string, options: Option<WalkOptions>)
    : (r: Listing<WalkEntry>)
    ensures var es := walker(ToSlashAll(path), WithoutPathOnly(options));
      && (!OrEmpty(options).pathOnly.GetOr(false) ==> r == Entries(es))
      && (OrEmpty(options).pathOnly.GetOr(false) ==>
            r.Paths? && |r.paths| == |es| && forall i :: 0 <= i < |es| ==> r.paths[i] == es[i].path)
  {
    var es := walker(ToSlashAll(path), WithoutPathOnly(options));
    if OrEmpty(options).pathOnly.GetOr(false) then Paths(seq(|es|, i requires 0 <= i < |es| => es[i].path))
    else Entries(es)
  }

  /** A path-only walk is the `path` projection of the full walk with the same other options. */
  lemma {:induction false} WalkPathOnlyIsProjection(
    walker: (string, LibWalkOptions) -> seq<WalkEntry>, path: string, o: WalkOptions)
    ensures var full := Walk(walker, path, Some(o.(pathOnly := None)));
      var paths := Walk(walker, path, Some(o.(pathOnly := Some(true))));
      && full.Entries? && paths.Paths? && |paths.paths| == |full.entries|
      && forall i :: 0 <= i < |full.entries| ==> paths.paths[i] == full.entries[i].path
  {
    assert WithoutPathOnly(Some(o.(pathOnly := None))) == WithoutPathOnly(Some(o.(pathOnly := Some(true))));
  }

  /** `{ ...options, includeFiles: false }`: the forced flag is written after the spread, so it wins. */
  function ForceIncludeFiles(options: Option<WalkOptions>): WalkOptions {
    OrEmpty(options).(includeFiles := Some(false))
  }

  /** `{ ...options, includeDirs: false }`. */
  function ForceIncludeDirs(options: Option<WalkOptions>): WalkOptions {
    OrEmpty(options).(includeDirs := Some(false))
  }

  /** `walkDirectories(path, options)`. */
  function WalkDirectories(walker: (string, LibWalkOptions) -> seq<WalkEntry>, path: string, options: Option<WalkOptions>)
    : (r: Listing<WalkEntry>)
    ensures var es := walker(ToSlashAll(path), WithoutPathOnly(options).(includeFiles := Some(false)));
      && (!OrEmpty(options).pathOnly.GetOr(false) ==> r == Entries(es))
      && (OrEmpty(options).pathOnly.GetOr(false) ==>
            r.Paths? && |r.paths| == |es| && forall i :: 0 <= i < |es| ==> r.paths[i] == es[i].path)
  {
    Walk(walker, path, Some(ForceIncludeFiles(options)))
  }

  /** `walkFiles(path, options)`. */
  function WalkFiles(walker: (string, LibWalkOptions) -> seq<WalkEntry>, path: string, options: Option<WalkOptions>)
    : (r: Listing<WalkEntry>)
    ensures var es := walker(ToSlashAll(path), WithoutPathOnly(options).(includeDirs := Some(false)));
      && (!OrEmpty(options).pathOnly.GetOr(false) ==> r == Entries(es))
      && (OrEmpty(options).pathOnly.GetOr(false) ==>
            r.Paths? && |r.paths| == |es| && forall i :: 0 <= i < |es| ==> r.paths[i] == es[i].path)
  {
    Walk(walker, path, Some(ForceIncludeDirs(options)))
  }

  /**
   * `walkDirectories` asks the library for no files, whatever the caller passed, and hands on
   * every other option unchanged; `walkFiles` does the same with directories.
   */
  lemma WalkFlagsAreForced(path: string, options: Option<WalkOptions>)
    ensures var lib := WithoutPathOnly(Some(ForceIncludeFiles(options)));
      && lib.includeFiles == Some(false)
      && lib.(includeFiles := None) == WithoutPathOnly(options).(includeFiles := None)
    ensures var lib := WithoutPathOnly(Some(ForceIncludeDirs(options)));
      && lib.includeDirs == Some(false)
      && lib.(includeDirs := None) == WithoutPathOnly(options).(includeDirs := None)
  {
  }

  /** Since the forced flag wins, the caller's own value of it makes no difference. */
  lemma WalkFlagsIgnoreCaller(
    walker: (string, LibWalkOptions) -> seq<WalkEntry>, path: string, o: WalkOptions, files: Option<bool>, dirs: Option<bool>)
    ensures WalkDirectories(walker, path, Some(o.(includeFiles := files))) == WalkDirectories(walker, path, Some(o))
    ensures WalkFiles(walker, path, Some(o.(includeDirs := dirs))) == WalkFiles(walker, path, Some(o))
  {
    assert ForceIncludeFiles(Some(o.(includeFiles := files))) == ForceIncludeFiles(Some(o));
    assert ForceIncludeDirs(Some(o.(includeDirs := dirs))) == ForceIncludeDirs(Some(o));
  }

  // ---------------------------------------------------------------------------------------------
  // readFileStream
  // ---------------------------------------------------------------------------------------------

  /** The settled value of `readFileStream`: `{ data }`, or `{ data, error }` when something threw. */
  datatype ReadFileResult = ReadFileResult(data: seq<byte>, error: Option<FsError>)

  /**
   * What the slice loop gathers from a file holding `content`, through a `BufReader` created with
   * `size`, at least the length of the file. With the buffer that large, only the first slice call
   * can find its buffer full without a newline: unless that call faults, it throws `BufferFull`
   * and nothing is gathered. Otherwise the slice call with index `k` faults, for `k` at most the
   * number of slices (the call after the last slice is the one that returns `null`): the first
   * `k` slices and the fault. Otherwise: all slices, in order, and no error.
   */
  function SlicesRead(content: seq<byte>, faultAt: Option<nat>, size: nat): ReadFileResult
    requires |content| <= size
  {
    var lines := Pieces(content, AtDelimiter(Newline));
    if faultAt != Some(0) && SliceOverflows(content, Newline, BufReaderSize(size)) then
      ReadFileResult([], Some(BufferFull))
    else if faultAt.Some? && faultAt.value <= |lines| then
      ReadFileResult(Flatten(lines[..faultAt.value]), Some(Interrupted))
    else ReadFileResult(Flatten(lines), None)
  }

  /**
   * What reading `path` settles to when the `BufReader` is created with the file's size plus
   * `headroom`: no data and the error when the open fails, else what the slice loop gathers.
   */
  function ReadFileSpec(fs: FileSystem, path: string, headroom: nat): ReadFileResult {
    match OpenRead(fs, ToSlashAll(path))
    case Failure(e) => ReadFileResult([], Some(e))
    case Success(file) => SlicesRead(file.content, file.readFaultAt, |file.content| + headroom)
  }

  /** Open the normalised path for reading, then run the slice loop with a `BufReader` of the file's size plus `headroom`. */
  method ReadFileWith(fs: FileSystem, path: string, headroom: nat) returns (r: ReadFileResult)
    ensures r == ReadFileSpec(fs, path, headroom)
  {
    var source := OpenRead(fs, ToSlashAll(path));
    if source.Failure? {
      return ReadFileResult([], Some(source.error));
    }
    var reader := new FileReader(source.value);
    r := ReadSlices(reader, |source.value.content| + headroom);
  }

  /** `readFileStream(path)` as written: the `BufReader` is exactly as large as the file. */
  method ReadFileStream(fs: FileSystem, path: string) returns (r: ReadFileResult)
    ensures r == ReadFileSpec(fs, path, 0)
  {
    r := ReadFileWith(fs, path, 0);
  }

  /** `readFileStream(path)` with a `BufReader` one byte larger than the file, so that its buffer never fills up. */
  method ReadFileStreamFitted(fs: FileSystem, path: string) returns (r: ReadFileResult)
    ensures r == ReadFileSpec(fs, path, 1)
  {
    r := ReadFileWith(fs, path, 1);
  }

  /**
   * The loop of `readFileStream`: read slice by slice up to each newline and grow the result by
   * copying it into a new array one slice longer, until `readSlice` returns `null`; a throw
   * ends the loop with the bytes gathered so far and the error.
   */
  method ReadSlices(reader: FileReader, size: nat) returns (r: ReadFileResult)
    requires reader.Valid() && reader.pos == 0 && reader.calls == 0 && |reader.content| <= size
    modifies reader
    ensures r == SlicesRead(reader.content, reader.faultAt, size)
  {
    var result := new byte[0];
    ghost var c := reader.content;
    ghost var lines := Pieces(c, AtDelimiter(Newline));
    ghost var overflows := SliceOverflows(c, Newline, BufReaderSize(size));
    assert c[0..] == c && c[..0] == [] && lines[0..] == lines;
    ghost var count := 0;
    var done := false;
    while !done
      invariant reader.Valid() && reader.content == c
      invariant count <= |lines| && reader.calls == if done then count + 1 else count
      invariant count == 0 ==> reader.pos == 0
      invariant (count > 0 || done) ==> !overflows
      invariant Pieces(c[reader.pos..], AtDelimiter(Newline)) == lines[count..]
      invariant result[..] == c[..reader.pos]
      invariant reader.faultAt.Some? ==> reader.faultAt.value >= reader.calls
      invariant done ==> count == |lines|
      decreases |lines| - count, !done
    {
      ghost var pos := reader.pos;
      var slice := reader.ReadSlice(Newline, size);
      match slice
      case Fault(e) =>
        if e == BufferFull {
          assert pos == 0 && count == 0;
          return ReadFileResult([], Some(BufferFull));
        }
        assert reader.faultAt == Some(count);
        PiecesSplitAt(c, AtDelimiter(Newline), pos, count);
        return ReadFileResult(result[..], Some(Interrupted));
      case Eof =>
        PiecesExhausted(c, AtDelimiter(Newline), count);
        done := true;
      case Got(line) =>
        PiecesAdvance(c, AtDelimiter(Newline), pos, reader.pos, count, line);
        result := Concat(result, line);
        count := count + 1;
    }
    PiecesSplitAt(c, AtDelimiter(Newline), reader.pos, count);
    assert lines[..count] == lines;
    r := ReadFileResult(result[..], None);
  }

  /**
   * Nothing is dropped or reordered: without an error the data is the whole content. With one,
   * the data is the content up to a slice boundary: empty, ending in a newline, or everything
   * (when the call that would return `null` faults). The error is the fault, or `BufferFull`,
   * which leaves no data and happens only on a newline-free file that fills the whole buffer.
   */
  lemma {:induction false} SlicesReadOutcome(content: seq<byte>, faultAt: Option<nat>, size: nat)
    requires |content| <= size
    ensures var r := SlicesRead(content, faultAt, size);
      && (r.error.None? ==> r.data == content)
      && (r.error.Some? ==> r.error == Some(Interrupted) || r.error == Some(BufferFull))
      && (r.error == Some(BufferFull) ==>
            r.data == [] && |content| == BufReaderSize(size) && Newline !in content)
      && |r.data| <= |content| && r.data == content[..|r.data|]
      && (r.data == [] || r.data[|r.data| - 1] == Newline || r.data == content)
  {
    var cut := AtDelimiter(Newline);
    PiecesFlatten(content, cut);
    if faultAt != Some(0) && SliceOverflows(content, Newline, BufReaderSize(size)) {
      assert content[..BufReaderSize(size)] == content;
    } else if faultAt.Some? && faultAt.value <= |Pieces(content, cut)| {
      PiecesPrefix(content, cut, faultAt.value);
      LinesEndAtDelimiter(content, Newline, faultAt.value);
    }
  }

  /**
   * A handle that never faults, read through a buffer that does not overflow, delivers the whole
   * content; one that faults on its first call delivers nothing.
   */
  lemma SlicesReadEdges(content: seq<byte>, faultAt: Option<nat>, size: nat)
    requires |content| <= size
    ensures faultAt.None? && !SliceOverflows(content, Newline, BufReaderSize(size)) ==>
      SlicesRead(content, faultAt, size) == ReadFileResult(content, None)
    ensures faultAt == Some(0) ==> SlicesRead(content, faultAt, size) == ReadFileResult([], Some(Interrupted))
  {
    PiecesFlatten(content, AtDelimiter(Newline));
  }

  /**
   * As written, the `BufReader` is exactly as large as the file, so a file of at least 16 bytes
   * without a newline overflows it on the first slice: unless that call faults, nothing is read
   * and the error is `BufferFull`. Files shorter than 16 bytes get the larger minimum buffer.
   */
  lemma SlicesOverflowOnNewlineFreeFile(content: seq<byte>, faultAt: Option<nat>)
    ensures SlicesRead(content, faultAt, |content|).error == Some(BufferFull) <==>
      |content| >= MinBufferSize && Newline !in content && faultAt != Some(0)
    ensures SlicesRead(content, faultAt, |content|).error == Some(BufferFull) ==>
      SlicesRead(content, faultAt, |content|).data == []
  {
    assert content[..|content|] == content;
    if Newline in content && |content| >= MinBufferSize {
      assert !SliceOverflows(content, Newline, BufReaderSize(|content|));
    }
  }

  /** A `BufReader` one byte larger than the file never overflows: a handle that never faults delivers the whole content. */
  lemma FittedSlicesDeliverFile(content: seq<byte>, faultAt: Option<nat>)
    ensures SlicesRead(content, faultAt, |content| + 1).error != Some(BufferFull)
    ensures faultAt.None? ==> SlicesRead(content, faultAt, |content| + 1) == ReadFileResult(content, None)
  {
    assert !SliceOverflows(content, Newline, BufReaderSize(|content| + 1));
    SlicesReadEdges(content, faultAt, |content| + 1);
  }

  /** A missing, forbidden or directory path gives no data and the error of the open. */
  lemma ReadFileOpenErrors(fs: FileSystem, path: string, headroom: nat)
    ensures var q := ToSlashAll(path);
      && (q in fs.denied ==> ReadFileSpec(fs, path, headroom) == ReadFileResult([], Some(PermissionDenied)))
      && (q !in fs.denied && q !in fs.entries ==> ReadFileSpec(fs, path, headroom) == ReadFileResult([], Some(NotFound)))
      && (q !in fs.denied && q in fs.entries && fs.entries[q].Directory? ==>
            ReadFileSpec(fs, path, headroom) == ReadFileResult([], Some(IsADirectory)))
  {
  }

  // ---------------------------------------------------------------------------------------------
  // copyFileStream
  // ---------------------------------------------------------------------------------------------

  /** The options argument of `copyFileStream`; a field left out is `None`. */
  datatype CopyOptionsInput = CopyOptionsInput(overwrite: Option<bool>, copyTimeStamp: Option<bool>, bufferSize: Option<nat>)

  /** The options after the merge with the defaults. */
  datatype CopyOptions = CopyOptions(overwrite: bool, copyTimeStamp: bool, bufferSize: nat)

  /** `CopyFileStreamDefaultOption`. */
  const CopyDefaults := CopyOptions(true, true, 32)

  /**
   * `{ ...CopyFileStreamDefaultOption, ...options }`: a field the caller gives wins, a field the
   * caller leaves out (or no options at all) takes the default.
   */
  function MergeCopyOptions(options: Option<CopyOptionsInput>): (o: CopyOptions)
    ensures options.None? ==> o == CopyOptions(true, true, 32)
    ensures options.Some? ==>
      && (options.value.overwrite.Some? ==> o.overwrite == options.value.overwrite.value)
      && (options.value.overwrite.None? ==> o.overwrite)
      && (options.value.copyTimeStamp.Some? ==> o.copyTimeStamp == options.value.copyTimeStamp.value)
      && (options.value.copyTimeStamp.None? ==> o.copyTimeStamp)
      && (options.value.bufferSize.Some? ==> o.bufferSize == options.value.bufferSize.value)
      && (options.value.bufferSize.None? ==> o.bufferSize == 32)
  {
    var given := options.GetOr(CopyOptionsInput(None, None, None));
    CopyOptions(
      given.overwrite.GetOr(CopyDefaults.overwrite),
      given.copyTimeStamp.GetOr(CopyDefaults.copyTimeStamp),
      given.bufferSize.GetOr(CopyDefaults.bufferSize))
  }

  /**
   * The options the destination is opened with: `{ create: true, createNew: !overwrite }`, to
   * which the stream wrapper adds `read: false, write: true`. `truncate` is `false` in the
   * code as written; the corrected copy sets it.
   */
  function DestOpenOptions(overwrite: bool, truncate: bool): (o: OpenOptions)
    ensures ValidOpenOptions(o)
    ensures o.write && o.create && o.createNew == !overwrite && o.truncate == truncate
    ensures !o.read && !o.append
  {
    OpenOptions(read := false, write := true, append := false, truncate := truncate, create := true, createNew := !overwrite)
  }

  /** The destination's content after the chunk loop, and whether a read faulted. */
  datatype Transfer = Transfer(dest: seq<byte>, fault: bool)

  /**
   * What the chunk loop does to a destination holding `dest`: each chunk the reads return is
   * written at the writer's cursor, from offset 0 on. The read call with index `k` faults, for
   * `k` at most the number of chunks: the first `k` chunks are written. Otherwise every chunk
   * is, followed by the empty slice of the final `null` read.
   */
  function ChunkLoop(src: seq<byte>, faultAt: Option<nat>, size: nat, dest: seq<byte>): Transfer
    requires size > 0
  {
    var chunks := Pieces(src, EverySize(size));
    if faultAt.Some? && faultAt.value <= |chunks| then
      Transfer(WriteAt(dest, 0, Flatten(chunks[..faultAt.value])), true)
    else Transfer(WriteAt(dest, 0, Flatten(chunks)), false)
  }

  /**
   * The loop's effect in terms of the source: without a fault the whole source is written over
   * the start of the destination; with a fault at read call `k`, the first `k` buffers' worth of
   * the source (or all of it, if shorter) is, so nothing read before the fault is lost.
   */
  lemma ChunkLoopWrites(src: seq<byte>, faultAt: Option<nat>, size: nat, dest: seq<byte>)
    requires size > 0
    ensures !ChunkLoop(src, faultAt, size, dest).fault ==> ChunkLoop(src, faultAt, size, dest).dest == WriteAt(dest, 0, src)
    ensures ChunkLoop(src, faultAt, size, dest).fault ==>
      && faultAt.Some?
      && ChunkLoop(src, faultAt, size, dest).dest == WriteAt(dest, 0, src[..Min(faultAt.value * size, |src|)])
    ensures faultAt.None? ==> !ChunkLoop(src, faultAt, size, dest).fault
  {
    PiecesFlatten(src, EverySize(size));
    if faultAt.Some? && faultAt.value <= |Pieces(src, EverySize(size))| {
      ChunksDelivered(src, size, faultAt.value);
    }
  }

  /** The chunk loop over open handles, with the one `chunk` buffer it reuses for every read. */
  method CopyChunks(reader: FileReader, writer: FileWriter, chunk: array<byte>) returns (fault: bool)
    requires reader.Valid() && reader.pos == 0 && reader.calls == 0
    requires writer.Valid() && writer.pos == 0 && chunk.Length > 0
    modifies reader, writer, chunk
    ensures Transfer(writer.content, fault) == ChunkLoop(reader.content, reader.faultAt, chunk.Length, old(writer.content))
  {
    ghost var c, orig := reader.content, writer.content;
    ghost var cut := EverySize(chunk.Length);
    ghost var chunks := Pieces(c, cut);
    assert c[0..] == c && c[..0] == [] && chunks[0..] == chunks;
    assert WriteAt(orig, 0, []) == orig;
    ghost var count := 0;
    var eof := false;
    while !eof
      invariant reader.Valid() && writer.Valid() && reader.content == c
      invariant count <= |chunks| && reader.calls == if eof then count + 1 else count
      invariant Pieces(c[reader.pos..], cut) == chunks[count..]
      invariant writer.content == WriteAt(orig, 0, c[..reader.pos]) && writer.pos == reader.pos
      invariant reader.faultAt.Some? ==> reader.faultAt.value >= reader.calls
      invariant eof ==> count == |chunks|
      decreases |chunks| - count, !eof
    {
      ghost var pos := reader.pos;
      var readBytes := reader.Read(chunk);
      if readBytes.Fault? {
        PiecesSplitAt(c, cut, pos, count);
        return true;
      }
      eof := readBytes.Eof?;
      var writeBytes := if readBytes.Eof? then 0 else readBytes.value;
      if eof {
        PiecesExhausted(c, cut, count);
      } else {
        PiecesAdvance(c, cut, pos, reader.pos, count, chunk[..writeBytes]);
        count := count + 1;
      }
      WriteAtNext(orig, c, pos, reader.pos, chunk[..writeBytes]);
      writer.Write(chunk[..writeBytes]);
    }
    PiecesSplitAt(c, cut, reader.pos, count);
    assert chunks[..count] == chunks;
    fault := false;
  }

  /** How a `copyFileStream` call settles, and the file system it leaves behind. */
  datatype CopyResult = CopyResult(outcome: Outcome<FsError>, fs: FileSystem)

  /**
   * The timestamp step: `getTimestamp(src)` (a `stat`), a throw when either time is `null`,
   * then `setTimestamp(target, atime, mtime)` (a `utime` on the normalised target).
   */
  function CopyTimestamps(fs: FileSystem, src: string, target: string): (r: CopyResult)
    ensures r.outcome.Pass? ==>
      && Stat(fs, src).Success? && Stat(fs, src).value.atime.Some? && Stat(fs, src).value.mtime.Some?
      && ToSlashAll(target) in fs.entries && ToSlashAll(target) in r.fs.entries
      && r.fs.entries[ToSlashAll(target)].atime == Stat(fs, src).value.atime
      && r.fs.entries[ToSlashAll(target)].mtime == Stat(fs, src).value.mtime
    ensures r.outcome.Fail? ==> r.fs == fs
    ensures Stat(fs, src).Failure? ==> r == CopyResult(Fail(Stat(fs, src).error), fs)
    ensures Stat(fs, src).Success? && (Stat(fs, src).value.atime.None? || Stat(fs, src).value.mtime.None?) ==>
      r == CopyResult(Fail(MissingTimestamp), fs)
    ensures Stat(fs, src).Success? && Stat(fs, src).value.atime.Some? && Stat(fs, src).value.mtime.Some? ==>
      && (r.outcome.Pass? <==> ToSlashAll(target) in fs.entries && ToSlashAll(target) !in fs.denied)
      && (r.outcome.Fail? ==> r.outcome.error == if ToSlashAll(target) in fs.denied then PermissionDenied else NotFound)
  {
    match Stat(fs, src)
    case Failure(e) => CopyResult(Fail(e), fs)
    case Success(info) =>
      if info.atime.None? || info.mtime.None? then CopyResult(Fail(MissingTimestamp), fs)
      else
        match Utime(fs, ToSlashAll(target), info.atime.value, info.mtime.value)
        case Failure(e) => CopyResult(Fail(e), fs)
        case Success(stamped) => CopyResult(Pass, stamped)
  }

  /**
   * What `copyFileStream(src, dest, options)` settles to, for merged `options`, with the
   * destination opened with `truncate` set as given. A failing open rejects before anything is
   * written; a read fault rejects with whatever was written so far left in the destination;
   * after the loop, the timestamp step runs only when `copyTimeStamp` is set.
   */
  function CopySpec(fs: FileSystem, src: string, dest: string, options: CopyOptions, truncate: bool): CopyResult
    requires options.bufferSize > 0
  {
    var s, d := ToSlashAll(src), ToSlashAll(dest);
    match OpenRead(fs, s)
    case Failure(e) => CopyResult(Fail(e), fs)
    case Success(file) =>
      match OpenWrite(fs, d, DestOpenOptions(options.overwrite, truncate))
      case Failure(e) => CopyResult(Fail(e), fs)
      case Success(table) =>
        var t := ChunkLoop(file.content, file.readFaultAt, options.bufferSize, table.entries[d].content);
        var copied := StoreContent(table, d, t.dest);
        if t.fault then CopyResult(Fail(Interrupted), copied)
        else if !options.copyTimeStamp then CopyResult(Pass, copied)
        else CopyTimestamps(copied, src, dest)
  }

  /** The steps of `copyFileStream` for merged options, with the destination opened with `truncate` as given. */
  method CopyWith(fs: FileSystem, src: string, dest: string, options: CopyOptions, truncate: bool) returns (r: CopyResult)
    requires options.bufferSize > 0
    ensures r == CopySpec(fs, src, dest, options, truncate)
  {
    var s, d := ToSlashAll(src), ToSlashAll(dest);
    var readStream := OpenRead(fs, s);
    if readStream.Failure? {
      return CopyResult(Fail(readStream.error), fs);
    }
    var writeStream := OpenWrite(fs, d, DestOpenOptions(options.overwrite, truncate));
    if writeStream.Failure? {
      return CopyResult(Fail(writeStream.error), fs);
    }
    var table := writeStream.value;
    var reader := new FileReader(readStream.value);
    var writer := new FileWriter(table.entries[d].content);
    var chunk := new byte[options.bufferSize];
    var fault := CopyChunks(reader, writer, chunk);
    var copied := StoreContent(table, d, writer.content);
    if fault {
      return CopyResult(Fail(Interrupted), copied);
    }
    if !options.copyTimeStamp {
      return CopyResult(Pass, copied);
    }
    r := CopyTimestamps(copied, src, dest);
  }

  /**
   * `copyFileStream(src, dest, options)` as written: the destination is opened without
   * `truncate`, so the source is written over the start of any existing destination.
   */
  method CopyFileStream(fs: FileSystem, src: string, dest: string, options: Option<CopyOptionsInput>) returns (r: CopyResult)
    requires MergeCopyOptions(options).bufferSize > 0
    ensures r == CopySpec(fs, src, dest, MergeCopyOptions(options), false)
  {
    r := CopyWith(fs, src, dest, MergeCopyOptions(options), false);
  }

  /** `copyFileStream` as evidently intended: the destination is opened with `truncate`, so it ends up equal to the source. */
  method CopyFileStreamReplacing(fs: FileSystem, src: string, dest: string, options: Option<CopyOptionsInput>) returns (r: CopyResult)
    requires MergeCopyOptions(options).bufferSize > 0
    ensures r == CopySpec(fs, src, dest, MergeCopyOptions(options), true)
  {
    r := CopyWith(fs, src, dest, MergeCopyOptions(options), true);
  }

  /** The source of a copy opens for reading as a file that never faults. */
  predicate HealthySource(fs: FileSystem, s: string) {
    s in fs.entries && s !in fs.denied && fs.entries[s].File? && fs.entries[s].readFaultAt.None?
  }

  /**
   * Copying onto a path that does not exist yet: the new file holds exactly the source's bytes
   * (none, for an empty source). Without `copyTimeStamp` it settles at once and keeps the
   * creation times; with it, the new file carries the source's times, or the copy rejects when
   * the source has a `null` one.
   */
  lemma CopyToNewFile(fs: FileSystem, src: string, dest: string, options: CopyOptions, truncate: bool)
    requires options.bufferSize > 0 && HealthySource(fs, ToSlashAll(src))
    requires ToSlashAll(dest) !in fs.entries && ToSlashAll(dest) !in fs.denied
    ensures var file, d, r := fs.entries[ToSlashAll(src)], ToSlashAll(dest), CopySpec(fs, src, dest, options, truncate);
      && d in r.fs.entries && r.fs.entries[d].File? && r.fs.entries[d].content == file.content
      && (!options.copyTimeStamp ==>
            r.outcome.Pass? && r.fs.entries[d].atime == Some(fs.now) && r.fs.entries[d].mtime == Some(fs.now))
      && (options.copyTimeStamp && file.atime.Some? && file.mtime.Some? ==>
            r.outcome.Pass? && r.fs.entries[d].atime == file.atime && r.fs.entries[d].mtime == file.mtime)
      && (options.copyTimeStamp && (file.atime.None? || file.mtime.None?) ==> r.outcome == Fail(MissingTimestamp))
  {
    var file := fs.entries[ToSlashAll(src)];
    ChunkLoopWrites(file.content, None, options.bufferSize, []);
    WriteAtStart([], file.content);
  }

  /** With `overwrite: false` an existing destination is refused before anything is written. */
  lemma CopyRefusesExisting(fs: FileSystem, src: string, dest: string, options: CopyOptions, truncate: bool)
    requires options.bufferSize > 0 && !options.overwrite
    requires OpenRead(fs, ToSlashAll(src)).Success?
    requires ToSlashAll(dest) in fs.entries && ToSlashAll(dest) !in fs.denied
    ensures CopySpec(fs, src, dest, options, truncate) == CopyResult(Fail(AlreadyExists), fs)
  {
  }

  /** A read that faults on the first call rejects the copy and leaves the opened destination as it was. */
  lemma CopyFaultOnFirstRead(fs: FileSystem, src: string, dest: string, options: CopyOptions, truncate: bool)
    requires options.bufferSize > 0
    requires var s := ToSlashAll(src);
      s in fs.entries && s !in fs.denied && fs.entries[s].File? && fs.entries[s].readFaultAt == Some(0)
    requires var d := ToSlashAll(dest);
      d in fs.entries && d !in fs.denied && fs.entries[d].File? && options.overwrite && !truncate
    ensures CopySpec(fs, src, dest, options, truncate) == CopyResult(Fail(Interrupted), fs)
  {
    var d := ToSlashAll(dest);
    assert WriteAt(fs.entries[d].content, 0, []) == fs.entries[d].content;
    assert fs.entries[d := fs.entries[d]] == fs.entries;
  }

  /**
   * A copy changes no entry but the destination: every other path keeps its node (the timestamp
   * step writes only to the destination), no entry other than the destination appears, and the
   * forbidden paths and the clock are untouched.
   */
  lemma CopyChangesOnlyDest(fs: FileSystem, src: string, dest: string, options: CopyOptions, truncate: bool, p: string)
    requires options.bufferSize > 0
    ensures var r := CopySpec(fs, src, dest, options, truncate);
      && r.fs.denied == fs.denied && r.fs.now == fs.now
      && r.fs.entries.Keys <= fs.entries.Keys + {ToSlashAll(dest)}
      && (p in fs.entries && p != ToSlashAll(dest) ==> p in r.fs.entries && r.fs.entries[p] == fs.entries[p])
  {
    var s, d := ToSlashAll(src), ToSlashAll(dest);
    if OpenRead(fs, s).Success? && OpenWrite(fs, d, DestOpenOptions(options.overwrite, truncate)).Success? {
      var file, table := OpenRead(fs, s).value, OpenWrite(fs, d, DestOpenOptions(options.overwrite, truncate)).value;
      var t := ChunkLoop(file.content, file.readFaultAt, options.bufferSize, table.entries[d].content);
      var copied := StoreContent(table, d, t.dest);
      assert copied.entries.Keys == table.entries.Keys;
      if !t.fault && options.copyTimeStamp {
        TimestampsTouchOnlyTarget(copied, src, dest, p);
      }
    }
  }

  /** The timestamp step changes at most the normalised target's entry. */
  lemma TimestampsTouchOnlyTarget(fs: FileSystem, src: string, target: string, p: string)
    ensures var r := CopyTimestamps(fs, src, target);
      && r.fs.denied == fs.denied && r.fs.now == fs.now && r.fs.entries.Keys == fs.entries.Keys
      && (p in fs.entries && p != ToSlashAll(target) ==> r.fs.entries[p] == fs.entries[p])
  {
  }

  /**
   * As written, overwriting a longer existing file leaves that file's tail behind the source's
   * bytes: the destination is not a copy of the source.
   */
  lemma CopyOverLongerFileKeepsTail(fs: FileSystem, src: string, dest: string, options: CopyOptions)
    requires options.bufferSize > 0 && options.overwrite && HealthySource(fs, ToSlashAll(src))
    requires var d := ToSlashAll(dest);
      && d != ToSlashAll(src) && d in fs.entries && d !in fs.denied && fs.entries[d].File?
      && |fs.entries[d].content| > |fs.entries[ToSlashAll(src)].content|
    ensures var s, d, r := ToSlashAll(src), ToSlashAll(dest), CopySpec(fs, src, dest, options, false);
      && d in r.fs.entries
      && r.fs.entries[d].content == fs.entries[s].content + fs.entries[d].content[|fs.entries[s].content|..]
      && r.fs.entries[d].content != fs.entries[s].content
  {
    var s, d := ToSlashAll(src), ToSlashAll(dest);
    ChunkLoopWrites(fs.entries[s].content, None, options.bufferSize, fs.entries[d].content);
    WriteAtStart(fs.entries[d].content, fs.entries[s].content);
  }

  /** With `truncate`, an existing destination file ends up holding exactly the source's bytes. */
  lemma ReplacingCopyYieldsSource(fs: FileSystem, src: string, dest: string, options: CopyOptions)
    requires options.bufferSize > 0 && options.overwrite && HealthySource(fs, ToSlashAll(src))
    requires var d := ToSlashAll(dest);
      d != ToSlashAll(src) && d in fs.entries && d !in fs.denied && fs.entries[d].File?
    ensures var r := CopySpec(fs, src, dest, options, true);
      ToSlashAll(dest) in r.fs.entries && r.fs.entries[ToSlashAll(dest)].content == fs.entries[ToSlashAll(src)].content
  {
    var s := ToSlashAll(src);
    ChunkLoopWrites(fs.entries[s].content, None, options.bufferSize, []);
    WriteAtStart([], fs.entries[s].content);
  }

  /** `result = new Uint8Array(a.length + b.length); result.set(a); result.set(b, a.length)`. */
  method Concat(a: array<byte>, b: seq<byte>) returns (next: array<byte>)
    ensures fresh(next) && next[..] == a[..] + b
  {
    next := new byte[a.Length + |b|];
    forall i | 0 <= i < a.Length {
      next[i] := a[i];
    }
    forall i | 0 <= i < |b| {
      next[a.Length + i] := b[i];
    }
    assert next[..] == a[..] + b;
  }
}
