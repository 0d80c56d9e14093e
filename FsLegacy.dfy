/**
 * The older `copyFileStream` of `src/fs/index.ts`. Its other helpers (`stat`, `exists`,
 * `isFile`, `isDirectory`, `readDir`, `walk`, `walkFiles`, `walkDirectories`,
 * `readFileStream`) behave as those of `src/fs/mod.ts` and are modelled once, in `Fs`.
 *
 * This copy opens both handles at once, streams the source's chunks into a buffered writer
 * and flushes it, and copies the timestamps onto the source rather than the destination. Its
 * stream wrapper hands the open options to the runtime unchanged, so the destination is
 * opened with `create`/`createNew` but without `write`.
 */
module FsLegacy {
  import opened Wrappers
  import opened Path
  import opened Os
  import opened Fs

  // ---------------------------------------------------------------------------------------------
  // BufWriter
  // ---------------------------------------------------------------------------------------------

  /** The size of a `BufWriter`'s buffer when none is given. */
  const DefaultBufferSize: nat := 4096

  /**
   * `BufWriter` of the standard `io` module over a write handle: bytes are gathered in `buf`
   * and handed to `sink` when they no longer fit, and on `flush`.
   */
  class BufWriter {
    const sink: FileWriter
    const buf: array<byte>
    var used: nat
    /** The content of the sink's file when it was wrapped. */
    ghost const origin: seq<byte>
    /** Every byte handed to `write` so far, in order. */
    ghost var accepted: seq<byte>

    /** The sink holds the accepted bytes up to its cursor, and the buffer holds the rest. */
    ghost predicate Valid()
      reads this, sink, buf
    {
      && buf.Length > 0 && used <= buf.Length
      && sink.Valid() && sink.pos <= |accepted|
      && sink.content == WriteAt(origin, 0, accepted[..sink.pos])
      && buf[..used] == accepted[sink.pos..]
    }

    /** `new BufWriter(sink, size)` over a handle positioned at the start of its file. */
    constructor(sink: FileWriter, size: nat)
      requires sink.Valid() && sink.pos == 0 && size > 0
      ensures Valid() && this.sink == sink && fresh(buf) && buf.Length == size
      ensures origin == sink.content && accepted == [] && used == 0
    {
      this.sink := sink;
      buf := new byte[size];
      used := 0;
      origin := sink.content;
      accepted := [];
      new;
      assert WriteAt(origin, 0, []) == origin;
    }

    /** `flush()`: hand the buffered bytes to the sink and empty the buffer. */
    method Flush()
      requires Valid()
      modifies this, sink
      ensures Valid() && used == 0 && accepted == old(accepted)
      ensures sink.pos == |accepted| && sink.content == WriteAt(origin, 0, accepted)
    {
      if used == 0 {
        assert accepted[..sink.pos] == accepted;
        return;
      }
      var pending := buf[..used];
      assert accepted == accepted[..sink.pos] + pending;
      WriteAtSequential(origin, accepted[..sink.pos], pending);
      sink.Write(pending);
      used := 0;
      assert accepted[..sink.pos] == accepted;
    }

    /**
     * `write(data)`: while `data` does not fit in what is left of the buffer, either hand it to
     * the sink directly (the buffer being empty) or fill the buffer and flush; then buffer the
     * rest.
     */
    method Write(data: seq<byte>)
      requires Valid()
      modifies this, buf, sink
      ensures Valid() && accepted == old(accepted) + data
    {
      if |data| == 0 {
        assert data == [];
        assert accepted + data == accepted;
        return;
      }
      var rest := data;
      while |rest| > buf.Length - used
        invariant Valid() && accepted + rest == old(accepted) + data
        decreases |rest|, used
      {
        if used == 0 {
          assert accepted[..sink.pos] == accepted;
          WriteAtSequential(origin, accepted, rest);
          sink.Write(rest);
          accepted := accepted + rest;
          assert accepted[..sink.pos] == accepted;
          rest := [];
        } else {
          var n := Min(|rest|, buf.Length - used);
          Buffer(rest[..n]);
          Flush();
          assert accepted + rest[n..] == old(accepted) + data by {
            assert rest == rest[..n] + rest[n..];
          }
          rest := rest[n..];
        }
      }
      Buffer(rest);
    }

    /** `copy(data, buf, used)` for data that fits, and the count of used bytes grown by it. */
    method Buffer(data: seq<byte>)
      requires Valid() && used + |data| <= buf.Length
      modifies this, buf
      ensures Valid() && accepted == old(accepted) + data && used == old(used) + |data|
      ensures sink.pos == old(sink.pos)
    {
      forall i | 0 <= i < |data| {
        buf[used + i] := data[i];
      }
      used := used + |data|;
      accepted := accepted + data;
      assert buf[..used] == old(buf[..used]) + data;
    }
  }

  // ---------------------------------------------------------------------------------------------
  // copyFileStream
  // ---------------------------------------------------------------------------------------------

  /** The options argument of the older `copyFileStream`; a field left out is `None`. */
  datatype LegacyCopyOptionsInput = LegacyCopyOptionsInput(overwrite: Option<bool>, copyTimeStamp: Option<bool>)

  /** The merged options of the older `copyFileStream`. */
  datatype LegacyCopyOptions = LegacyCopyOptions(overwrite: bool, copyTimeStamp: bool)

  /** `{ ...CopyFileStreamOption, ...options }`: a field the caller gives wins, a field left out is `true`. */
  function MergeLegacyCopyOptions(options: LegacyCopyOptionsInput): (o: LegacyCopyOptions)
    ensures options.overwrite.Some? ==> o.overwrite == options.overwrite.value
    ensures options.overwrite.None? ==> o.overwrite
    ensures options.copyTimeStamp.Some? ==> o.copyTimeStamp == options.copyTimeStamp.value
    ensures options.copyTimeStamp.None? ==> o.copyTimeStamp
  {
    LegacyCopyOptions(options.overwrite.GetOr(true), options.copyTimeStamp.GetOr(true))
  }

  /** `{ create: true, createNew: !overwrite }`, handed to the runtime as it is: no `write`. */
  function WriterOpenOptions(overwrite: bool): (o: OpenOptions)
    ensures o.create && o.createNew == !overwrite
    ensures !o.write && !o.append && !o.read && !o.truncate
  {
    OpenOptions(read := false, write := false, append := false, truncate := false, create := true, createNew := !overwrite)
  }

  /** The runtime refuses those options, whatever the file system holds. */
  lemma WriterOpenAlwaysRefused(fs: FileSystem, path: string, overwrite: bool)
    ensures !ValidOpenOptions(WriterOpenOptions(overwrite))
    ensures OpenWrite(fs, path, WriterOpenOptions(overwrite)) == Failure(InvalidOptions)
  {
  }

  /** How the two opens of the older copy settle, with the file system they leave behind. */
  datatype Opened =
    | BothOpen(file: Node, table: FileSystem)
    | OpenFailed(error: FsError, table: FileSystem)

  /**
   * `Promise.all([createFileReader(src), createFileWriter(dest, ...)])`. Both opens start at once,
   * and a rejection of one does not stop the other. Options the runtime refuses reject before
   * either open does any work, so that rejection settles first. Otherwise the reader's error is
   * reported before the writer's, and a destination the writer's open created stays created
   * even when the reader's open fails.
   */
  function OpenBoth(fs: FileSystem, s: string, d: string, writerOptions: OpenOptions): (r: Opened)
    ensures r.BothOpen? <==>
      ValidOpenOptions(writerOptions) && OpenRead(fs, s).Success? && OpenWrite(fs, d, writerOptions).Success?
    ensures r.BothOpen? ==> r.file == fs.entries[s] && r.table == OpenWrite(fs, d, writerOptions).value
    ensures !ValidOpenOptions(writerOptions) ==> r == OpenFailed(InvalidOptions, fs)
    ensures ValidOpenOptions(writerOptions) && OpenRead(fs, s).Failure? ==>
      && r.error == OpenRead(fs, s).error
      && r.table == if OpenWrite(fs, d, writerOptions).Success? then OpenWrite(fs, d, writerOptions).value else fs
    ensures OpenRead(fs, s).Success? && OpenWrite(fs, d, writerOptions).Failure? ==>
      r == OpenFailed(OpenWrite(fs, d, writerOptions).error, fs)
  {
    if !ValidOpenOptions(writerOptions) then OpenFailed(InvalidOptions, fs)
    else
      var writer := OpenWrite(fs, d, writerOptions);
      match OpenRead(fs, s)
      case Failure(e) => OpenFailed(e, if writer.Success? then writer.value else fs)
      case Success(file) =>
        match writer
        case Failure(e) => OpenFailed(e, fs)
        case Success(table) => BothOpen(file, table)
  }

  /** Whether the source's chunks fault before the readable ends. */
  predicate SourceFaults(file: Node, chunkSize: nat)
    requires file.File? && chunkSize > 0
  {
    ChunkLoop(file.content, file.readFaultAt, chunkSize, []).fault
  }

  /**
   * What the older copy settles to, with the destination opened with `writerOptions` and the
   * source's readable delivering chunks of `chunkSize` bytes. A failing open rejects before
   * anything is written, with whatever the other open did to the file system. Without a fault, the flushed destination holds the source written
   * over its start, and the timestamp step reads the source's times and sets them on the
   * source again. `None` when a read faults: how much the buffered writer had flushed by then
   * is not fixed here (see `BufferedCopy`).
   */
  function BufferedCopySpec(fs: FileSystem, src: string, dest: string, options: LegacyCopyOptions,
                            writerOptions: OpenOptions, chunkSize: nat): Option<CopyResult>
    requires chunkSize > 0
  {
    var s, d := ToSlashAll(src), ToSlashAll(dest);
    match OpenBoth(fs, s, d, writerOptions)
    case OpenFailed(e, after) => Some(CopyResult(Fail(e), after))
    case BothOpen(file, table) =>
      if SourceFaults(file, chunkSize) then None
      else
        var copied := StoreContent(table, d, WriteAt(table.entries[d].content, 0, file.content));
        if !options.copyTimeStamp then Some(CopyResult(Pass, copied))
        else Some(CopyTimestamps(copied, src, src))
  }

  /** After a fault, the destination holds a prefix of the source written over its start, and nothing else changed. */
  ghost predicate FaultLeavesPrefix(fs: FileSystem, s: string, d: string, writerOptions: OpenOptions, after: FileSystem)
    requires OpenBoth(fs, s, d, writerOptions).BothOpen?
  {
    var file, table := OpenBoth(fs, s, d, writerOptions).file, OpenBoth(fs, s, d, writerOptions).table;
    exists n: nat :: n <= |file.content| &&
      after == StoreContent(table, d, WriteAt(table.entries[d].content, 0, file.content[..n]))
  }

  /** The older copy's steps for merged options and the given writer options. */
  method BufferedCopy(fs: FileSystem, src: string, dest: string, options: LegacyCopyOptions,
                      writerOptions: OpenOptions, chunkSize: nat) returns (r: CopyResult)
    requires chunkSize > 0
    ensures var spec := BufferedCopySpec(fs, src, dest, options, writerOptions, chunkSize);
      && (spec.Some? ==> r == spec.value)
      && (spec.None? ==>
            && r.outcome == Fail(Interrupted)
            && OpenBoth(fs, ToSlashAll(src), ToSlashAll(dest), writerOptions).BothOpen?
            && FaultLeavesPrefix(fs, ToSlashAll(src), ToSlashAll(dest), writerOptions, r.fs))
  {
    var s, d := ToSlashAll(src), ToSlashAll(dest);
    var both := OpenBoth(fs, s, d, writerOptions);
    if both.OpenFailed? {
      return CopyResult(Fail(both.error), both.table);
    }
    var file, table := both.file, both.table;
    var reader := new FileReader(file);
    var writer := new FileWriter(table.entries[d].content);
    var bufWriter := new BufWriter(writer, DefaultBufferSize);
    var fault := StreamChunks(reader, bufWriter, chunkSize);
    if fault {
      var n := writer.pos;
      assert bufWriter.accepted[..n] == file.content[..n];
      assert writer.content == WriteAt(table.entries[d].content, 0, file.content[..n]);
      return CopyResult(Fail(Interrupted), StoreContent(table, d, writer.content));
    }
    bufWriter.Flush();
    var copied := StoreContent(table, d, writer.content);
    if !options.copyTimeStamp {
      return CopyResult(Pass, copied);
    }
    r := CopyTimestamps(copied, src, src);
  }

  /**
   * `for await (const chunk of reader.readable) { bufWriter.write(chunk); }`: every chunk of the
   * readable is handed to the buffered writer, in order, until the readable ends or a read
   * faults.
   */
  method StreamChunks(reader: FileReader, bufWriter: BufWriter, chunkSize: nat) returns (fault: bool)
    requires reader.Valid() && reader.pos == 0 && reader.calls == 0
    requires bufWriter.Valid() && bufWriter.accepted == [] && chunkSize > 0
    modifies reader, bufWriter, bufWriter.buf, bufWriter.sink
    ensures bufWriter.Valid()
    ensures fault == ChunkLoop(reader.content, reader.faultAt, chunkSize, []).fault
    ensures !fault ==> bufWriter.accepted == reader.content
    ensures fault ==> |bufWriter.accepted| <= |reader.content| && bufWriter.accepted == reader.content[..|bufWriter.accepted|]
  {
    var chunk := new byte[chunkSize];
    ghost var c, cut := reader.content, EverySize(chunkSize);
    ghost var chunks := Pieces(c, cut);
    assert c[0..] == c && c[..0] == [] && chunks[0..] == chunks;
    ghost var count := 0;
    var done := false;
    while !done
      invariant reader.Valid() && reader.content == c && bufWriter.Valid()
      invariant fresh(chunk)
      invariant count <= |chunks| && reader.calls == if done then count + 1 else count
      invariant Pieces(c[reader.pos..], cut) == chunks[count..]
      invariant bufWriter.accepted == c[..reader.pos]
      invariant reader.faultAt.Some? ==> reader.faultAt.value >= reader.calls
      invariant done ==> count == |chunks|
      decreases |chunks| - count, !done
    {
      ghost var pos := reader.pos;
      var read := reader.Read(chunk);
      if read.Fault? {
        PiecesSplitAt(c, cut, pos, count);
        return true;
      }
      if read.Eof? {
        PiecesExhausted(c, cut, count);
        done := true;
      } else {
        PiecesAdvance(c, cut, pos, reader.pos, count, chunk[..read.value]);
        bufWriter.Write(chunk[..read.value]);
        count := count + 1;
      }
    }
    PiecesSplitAt(c, cut, reader.pos, count);
    assert chunks[..count] == chunks;
    PiecesFlatten(c, cut);
    fault := false;
  }

  /**
   * The older `copyFileStream(src, dest, options)` as written: the destination is opened
   * without `write`, which the runtime refuses, so every call rejects with that error and
   * leaves the file system as it was.
   */
  method CopyFileStream(fs: FileSystem, src: string, dest: string, options: LegacyCopyOptionsInput, chunkSize: nat)
    returns (r: CopyResult)
    requires chunkSize > 0
    ensures r == CopyResult(Fail(InvalidOptions), fs)
  {
    var merged := MergeLegacyCopyOptions(options);
    r := BufferedCopy(fs, src, dest, merged, WriterOpenOptions(merged.overwrite), chunkSize);
  }

  /**
   * The older copy with the destination opened for writing, as `src/fs/mod.ts` does it; the
   * rest as written, including the timestamp step on the source.
   */
  method CopyFileStreamWritable(fs: FileSystem, src: string, dest: string, options: LegacyCopyOptionsInput, chunkSize: nat)
    returns (r: CopyResult)
    requires chunkSize > 0
    ensures var merged := MergeLegacyCopyOptions(options);
      var spec := BufferedCopySpec(fs, src, dest, merged, DestOpenOptions(merged.overwrite, false), chunkSize);
      && (spec.Some? ==> r == spec.value)
      && (spec.None? ==>
            && r.outcome == Fail(Interrupted)
            && OpenBoth(fs, ToSlashAll(src), ToSlashAll(dest), DestOpenOptions(merged.overwrite, false)).BothOpen?
            && FaultLeavesPrefix(fs, ToSlashAll(src), ToSlashAll(dest), DestOpenOptions(merged.overwrite, false), r.fs))
  {
    var merged := MergeLegacyCopyOptions(options);
    r := BufferedCopy(fs, src, dest, merged, DestOpenOptions(merged.overwrite, false), chunkSize);
  }

  /**
   * With the destination opened for writing, a copy onto a new path gives it the source's
   * bytes, but the timestamp step writes the source's own times back onto the source: the
   * destination keeps its creation times, and the source is left as it was.
   */
  lemma WritableCopyKeepsDestTimes(fs: FileSystem, src: string, dest: string, options: LegacyCopyOptions, chunkSize: nat)
    requires chunkSize > 0 && options.copyTimeStamp && HealthySource(fs, ToSlashAll(src))
    requires var file := fs.entries[ToSlashAll(src)]; file.atime.Some? && file.mtime.Some?
    requires ToSlashAll(dest) !in fs.entries && ToSlashAll(dest) !in fs.denied
    ensures var s, d := ToSlashAll(src), ToSlashAll(dest);
      var spec := BufferedCopySpec(fs, src, dest, options, DestOpenOptions(options.overwrite, false), chunkSize);
      && spec.Some? && spec.value.outcome == Pass
      && d in spec.value.fs.entries && s in spec.value.fs.entries
      && spec.value.fs.entries[d].content == fs.entries[s].content
      && spec.value.fs.entries[d].atime == Some(fs.now) && spec.value.fs.entries[d].mtime == Some(fs.now)
      && spec.value.fs.entries[s] == fs.entries[s]
  {
    var file := fs.entries[ToSlashAll(src)];
    ChunkLoopWrites(file.content, None, chunkSize, []);
    WriteAtStart([], file.content);
  }

  /**
   * `Promise.all` lets the writer's open run even when the reader's open rejects: a copy from a
   * missing source onto a new path rejects with `NotFound`, yet leaves an empty destination,
   * stamped with the clock, behind.
   */
  lemma MissingSourceLeavesEmptyDest(fs: FileSystem, src: string, dest: string, options: LegacyCopyOptions, chunkSize: nat)
    requires chunkSize > 0
    requires ToSlashAll(src) !in fs.entries && ToSlashAll(src) !in fs.denied
    requires ToSlashAll(dest) !in fs.entries && ToSlashAll(dest) !in fs.denied
    ensures var d := ToSlashAll(dest);
      var spec := BufferedCopySpec(fs, src, dest, options, DestOpenOptions(options.overwrite, false), chunkSize);
      && spec == Some(CopyResult(Fail(NotFound), spec.value.fs))
      && spec.value.fs.entries == fs.entries[d := File([], Some(fs.now), Some(fs.now), None)]
  {
    var d := ToSlashAll(dest);
    var after := OpenWrite(fs, d, DestOpenOptions(options.overwrite, false)).value;
    assert after.entries == fs.entries[d := File([], Some(fs.now), Some(fs.now), None)];
  }

  /**
   * A copy that settles without a read fault changes no entry but the destination. The source
   * is stamped with its own times, which leaves it as it was.
   */
  lemma BufferedCopyChangesOnlyDest(fs: FileSystem, src: string, dest: string, options: LegacyCopyOptions,
                                    writerOptions: OpenOptions, chunkSize: nat, p: string)
    requires chunkSize > 0
    ensures var spec := BufferedCopySpec(fs, src, dest, options, writerOptions, chunkSize);
      spec.Some? ==>
        && spec.value.fs.denied == fs.denied && spec.value.fs.now == fs.now
        && spec.value.fs.entries.Keys <= fs.entries.Keys + {ToSlashAll(dest)}
        && (p in fs.entries && p != ToSlashAll(dest) ==> p in spec.value.fs.entries && spec.value.fs.entries[p] == fs.entries[p])
  {
  }
}
