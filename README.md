# Path and file-system helpers of a Deno utility library, in Dafny

This project models the core of a small Deno utility library:

- **The path-string library** (`src/path/mod.ts`, repeated in `src/path/index.ts`). It has six
  regular-expression one-liners: `toSlashAll`, `toBackslashAll`, `isUNC`, `basename`, `extname`
  and `dirname`.
- **The file-system layer** (`src/fs/mod.ts` and its older copy `src/fs/index.ts`). The model
  covers the following.
  - `stat` and the three queries that turn every failure into `false`.
  - The path-only projections of `readDir` and `walk`, and the forced flags of `walkFiles` and
    `walkDirectories`.
  - The `readFileStream` loop, which grows a byte array one newline-terminated slice at a time,
    including the buffer-full error of the `BufReader` it reads through.
  - Both versions of `copyFileStream`: the option merge, the chunk loop over one reused buffer
    (or a buffered writer) and the timestamp step.

## Layout

- `Wrappers.dfy` holds `Option`, `Result` and `Outcome`, the settlement of a `Promise<void>`.
- `Path.dfy` holds each regular expression written out over `seq<char>`.
  - `Split` is the JavaScript `split` on a one-character class.
  - `basename` is the last field of that split.
  - `dirname` is two suffix trims.
- `PathExamples.dfy` holds the calls of `src/path/test.ts` and the edge cases of `isUNC` and
  `extname`. The basename, dirname and extname examples are proved through the general lemmas;
  the separator-run and `isUNC` examples are proved by evaluation.
- `Os.dfy` is the operating system the layer calls, as a value: a table of files and directories
  (`FileSystem`), the paths it may not touch, and a clock.
  - `stat`, `open` (with the runtime's option check) and `utime` are functions on this table.
  - File handles are classes with a cursor: `FileReader` with `readSlice`/`read`, and
    `FileWriter` with `write` at its cursor.
  - A device fault is the index of the read call that throws.
  - `Pieces` cuts a content the way successive reads return it: after each delimiter (for
    `readSlice`) or every `size` bytes (for `read(buf)`).
- `Fs.dfy` holds the helpers of `src/fs/mod.ts`. The loops are methods with loop invariants,
  proved against specification functions (`SlicesRead`, `ChunkLoop`, `CopySpec`).
- `FsLegacy.dfy` holds the older `copyFileStream` of `src/fs/index.ts`, with the standard
  library's `BufWriter` as a class.
  - The other helpers of `src/fs/index.ts` behave like those of `src/fs/mod.ts`, so `Fs` models
    them once: `exists`, `isDirectory` and `isFile` (lines 8-16), `readDir` (29-48), `walk`
    (57-76), `walkDirectories`/`walkFiles` (78-84) and `readFileStream` (92-115).
  - `src/path/index.ts` lines 1–12 are the same definitions as `src/path/mod.ts` lines 1–12,
    without the `export` keywords, so `Path` models both.

Where the code does something other than a plain reading of its names suggests, the model
follows the code:

- `toSlashAll` rewrites separators one for one and does not collapse runs: `a\\b` becomes
  `a//b`.
- `isUNC` needs three leading separators of one kind. Two backslashes are not enough.
- `extname("README")` is `".README"`, not `""` or `"."`.

## Model

| member | source | states |
|---|---|---|
| Path.ReplaceSeps | src/path/mod.ts:1 | the global one-character separator class rewrites each `/` or `\` to the given character, one for one, and keeps every other character |
| Path.ToSlashAll | src/path/mod.ts:7 | same length; the separators sit at the same places; every other character is kept; no `\` is left |
| Path.ToBackslashAll | src/path/mod.ts:8 | same length; the separators sit at the same places; every other character is kept; no `/` is left |
| Path.ToSlashAllIdempotent | src/path/mod.ts:7 | rewriting to `/` twice equals rewriting once |
| Path.ToBackslashAllIdempotent | src/path/mod.ts:8 | rewriting to `\` twice equals rewriting once |
| Path.ToSlashAllIgnoresStyle | src/path/mod.ts:7-8 | `toSlashAll(toBackslashAll(p)) == toSlashAll(p)`, and the mirror equation |
| Path.IsUNC | src/path/mod.ts:5 | true exactly when the path starts with three copies of one separator |
| Path.Split | src/path/mod.ts:10 | a split yields at least one field |
| Path.SplitSingleField | src/path/mod.ts:10 | a split yields one field exactly when the path contains no split character |
| Path.LastFieldIsTail | src/path/mod.ts:10 | the last field of a split is the longest suffix without split characters |
| Path.SuffixRun | src/path/mod.ts:2 | the length of the maximal suffix run inside (or outside) a character class: every character in it matches and the character before it does not |
| Path.SuffixRunUnique | src/path/mod.ts:2 | those two facts determine the run length |
| Path.TrimEnd | src/path/mod.ts:12 | `replace(/[…]+$/, "")`: a prefix of the input; what was removed is all in (or all out of) the class; the result does not end in the removed kind |
| Path.Basename | src/path/mod.ts:10 | a suffix of the path without separators, preceded by a separator when shorter than the path; the whole path when it has no separator; empty when the path ends in a separator |
| Path.Extname | src/path/mod.ts:11 | starts with `.` and continues with the part of the basename after its last dot |
| Path.ExtnameCorners | src/path/mod.ts:11 | a dot-free basename is its own extension after `.`; an empty basename, or one ending in `.`, gives `"."` |
| Path.Dirname | src/path/mod.ts:12 | a prefix of the path that never ends in a separator; empty when the path has no separator |
| Path.DirnameTrimsBeforeBasename | src/path/mod.ts:10-12 | the dirname is the text before the basename with its trailing separators removed |
| Path.Reconstruction | src/path/mod.ts:10-12 | the path is the dirname, then a run of separators, then the basename; the run is non-empty exactly when the path contains a separator |
| Path.BasenameOfJoin | src/path/mod.ts:10 | the basename of `a + b`, where `a` ends in a separator and `b` has none, is `b` |
| Path.DirnameOfJoin | src/path/mod.ts:12 | the dirname of `d + s + b` is `d`, where `d` does not end in a separator, `s` is a non-empty run of separators and `b` has none |
| Path.DirnameAfterSeparatorRun | src/path/mod.ts:12 | the dirname of `q + s + b` is `q` without its trailing separators |
| Path.ExtnameOfJoin | src/path/mod.ts:11 | a basename `a + e`, with `a` ending in `.` and `e` dot-free, has extension `"." + e` |
| PathExamples.BasenameOfBackslashPath | src/path/test.ts:4 | `basename("abc\\def\\ghi") == "ghi"` |
| PathExamples.BasenameOfRealmPath | src/path/test.ts:5 | the basename of `abc\def\ghi\database.sqlite.realm` is `database.sqlite.realm` |
| PathExamples.ExtnameTakesLastDotSegment | src/path/test.ts:5 | `extname("abc\\def\\ghi\\database.sqlite.realm") == ".realm"` |
| PathExamples.DirnameOfSlashPath | src/path/test.ts:6 | `dirname("abc/def/ghi") == "abc/def"` |
| PathExamples.DirnameStripsTrailingSlashes | src/path/test.ts:7 | `dirname("abc//def//ghi//") == "abc//def//ghi"` |
| PathExamples.DirnameOfBackslashPath | src/path/test.ts:8 | `dirname("abc\\def\\ghi") == "abc\\def"` |
| PathExamples.DirnameStripsTrailingBackslash | src/path/test.ts:9 | `dirname("abc\\def\\ghi\\") == "abc\\def\\ghi"` |
| PathExamples.ExtnameWithoutDot | src/path/index.ts:11 | `extname("README") == ".README"` |
| PathExamples.ExtnameOfDoubleExtension | src/path/index.ts:11 | `extname("archive.tar.gz") == ".gz"` |
| PathExamples.SeparatorRunsAreKept | src/path/index.ts:7-8 | runs of separators are rewritten one for one, not collapsed |
| PathExamples.UNCNeedsThreeSeparators | src/path/index.ts:5 | two leading backslashes are not a UNC prefix; three backslashes or three slashes are; a mixed prefix is not |
| Os.Stat | src/fs/mod.ts:5 | `Deno.stat` succeeds exactly on an existing entry the process may see, reports its kind (file or directory, never both) and its times, and rejects with `PermissionDenied` or `NotFound` otherwise |
| Os.ValidOpenOptions | src/stream/index.ts:4 | the runtime's open-option check: valid options open for reading, writing or appending; `write` alone is always valid, as is `read` without `truncate`/`create`/`createNew`; `truncate` without `write`, or `create`/`createNew` without `write` or `append`, is refused |
| Os.Utime | src/fs/mod.ts:106 | `Deno.utime` succeeds exactly on an existing entry the process may see; it sets both times of that entry, keeps its kind and content, and changes no other entry |
| Os.OpenRead | src/stream/mod.ts:4 | opening for reading succeeds exactly on an existing file the process may see, and the handle reads that file's stored content; otherwise it rejects with `PermissionDenied`, `NotFound` or `IsADirectory`, in that order |
| Os.OpenWrite | src/stream/mod.ts:5 | opening for writing succeeds exactly when the options are valid, the path may be touched, and it is an existing file without `createNew` or a missing path with `create` or `createNew`; the errors otherwise, in the runtime's order; on success an existing file is kept (emptied with `truncate`), a missing one is created empty with the clock's times, and every other entry is unchanged |
| Os.WriteAtStart | src/fs/mod.ts:170 | writing from offset 0 replaces the first bytes and keeps a longer old tail |
| Os.WriteAtSequential | src/fs/mod.ts:170 | two writes at consecutive offsets equal one write of both |
| Os.WriteAtNext | src/fs/mod.ts:166-171 | writing the next piece of `c` after `c[..pos]` leaves `c[..next]` written |
| Os.FlattenAppend | src/fs/mod.ts:123-127 | concatenating a concatenation of parts distributes over `+` |
| Os.FlattenSnoc | src/fs/mod.ts:123-127 | appending one more part appends its bytes |
| Os.LineLen | src/fs/mod.ts:121 | the next slice of a non-empty rest has between one byte and all of it |
| Os.LineLenStopsAtDelimiter | src/fs/mod.ts:121 | the slice holds no delimiter before its last byte, and ends at a delimiter or at the end |
| Os.PieceLen | src/fs/mod.ts:167 | every read while bytes remain returns at least one byte and at most what remains |
| Os.PiecesStep | src/fs/mod.ts:120-128 | the pieces are the next piece followed by the pieces of the rest |
| Os.PiecesAdvance | src/fs/mod.ts:120-128 | one read step: the piece read is the next one in order, and the bytes before the cursor grow by it |
| Os.PiecesExhausted | src/fs/mod.ts:122 | a read at the end comes after every piece has been read |
| Os.PiecesSplitAt | src/fs/mod.ts:120-130 | the pieces read before the cursor make up exactly the bytes before it |
| Os.PiecesFlatten | src/fs/mod.ts:120-128 | the pieces concatenate back to the content: nothing dropped, nothing reordered |
| Os.PiecesPrefix | src/fs/mod.ts:129-130 | the first `k` pieces make up a prefix of the content |
| Os.PiecesHead | src/fs/mod.ts:166-171 | the first `k` pieces are the first piece followed by `k - 1` pieces of the rest |
| Os.LinesShape | src/fs/mod.ts:121 | every slice is non-empty, holds the delimiter at most as its last byte, and every slice but the last ends with it |
| Os.LinesEndAtDelimiter | src/fs/mod.ts:129-130 | the first `k` slices are empty, end in the delimiter, or are the whole content |
| Os.ChunksShape | src/fs/mod.ts:164-167 | every chunk fills the buffer except the last, which holds between one byte and a full buffer |
| Os.ChunksDelivered | src/fs/mod.ts:166-171 | the first `k` chunks are the first `min(k * size, length)` bytes |
| Os.FileReader.constructor | src/fs/mod.ts:117 | a fresh handle holds the file's content and fault index, with its cursor at 0 |
| Os.FileReader.ReadSlice | src/fs/mod.ts:118-121 | `readSlice` of a `BufReader` created with `size` (raised to at least 16): a device fault exactly at the faulting call index; otherwise `null` at the end; `BufferFull` exactly when the first buffer-size bytes of the rest hold no delimiter; otherwise the next slice up to and including the delimiter with the cursor moved past it |
| Os.FileReader.Read | src/fs/mod.ts:167 | a fault exactly at the faulting call index; otherwise `null` at the end, or `min(buf.length, remaining)` bytes copied into the buffer, the rest of the buffer untouched, and the cursor moved past them |
| Os.FileWriter.constructor | src/fs/mod.ts:163 | a fresh handle holds the file's content, with its cursor at 0 |
| Os.FileWriter.Write | src/fs/mod.ts:170 | the data is written over the content at the cursor and the cursor moves past it |
| Fs.Stat | src/fs/mod.ts:5 | `stat` on the normalised path: succeeds exactly when that path exists and may be seen, with its kind and times; the error otherwise |
| Fs.Exists | src/fs/mod.ts:5-9 | true exactly when the normalised path is in the table and not forbidden |
| Fs.IsFile | src/fs/mod.ts:13 | true exactly when the normalised path is an allowed file |
| Fs.IsDirectory | src/fs/mod.ts:11 | true exactly when the normalised path is an allowed directory |
| Fs.QueriesDegradeToFalse | src/fs/mod.ts:9-13 | a failing `stat` makes all three queries false; a succeeding one makes the path exist as exactly one kind |
| Fs.QueriesIgnoreSeparatorStyle | src/fs/mod.ts:5 | the queries give the same answer for the path written with backslashes |
| Fs.ReadDir | src/fs/mod.ts:49-68 | without `pathOnly`, the runtime's entries untouched; with it, one path per entry, in order, each the normalised directory, `/` and the entry's name |
| Fs.ReadDirPathsSplitBack | src/fs/mod.ts:63 | a path-only entry holds no backslash, its basename is the entry's name and its dirname is the directory without trailing separators |
| Fs.WithoutPathOnly | src/fs/mod.ts:71 | the options handed to the library are the caller's, every field kept, with `pathOnly` removed |
| Fs.Walk | src/fs/mod.ts:70-89 | without `pathOnly`, the library's entries untouched; with it, each entry's `path`, in order |
| Fs.WalkDirectories | src/fs/mod.ts:91-96 | the library walk is called with the normalised path and the caller's options with `includeFiles` set to `false`; its entries come back untouched, or as their paths in order with `pathOnly` |
| Fs.WalkFiles | src/fs/mod.ts:98-103 | the library walk is called with the normalised path and the caller's options with `includeDirs` set to `false`; its entries come back untouched, or as their paths in order with `pathOnly` |
| Fs.WalkPathOnlyIsProjection | src/fs/mod.ts:70-89 | a path-only walk is the `path` projection of the full walk with the same other options |
| Fs.WalkFlagsAreForced | src/fs/mod.ts:91-103 | `walkDirectories` asks for no files and `walkFiles` for no directories, with every other option unchanged |
| Fs.WalkFlagsIgnoreCaller | src/fs/mod.ts:91-103 | the caller's own value of the forced flag makes no difference |
| Fs.ReadFileWith | src/fs/mod.ts:111-134 | the settled value equals `ReadFileSpec` for a `BufReader` of the file's size plus the given headroom: the open's error with no data, or what the slice loop gathers |
| Fs.ReadFileStream | src/fs/mod.ts:111-134 | `readFileStream` as written, with the `BufReader` exactly as large as the file, settles as `ReadFileSpec` with no headroom |
| Fs.ReadFileStreamFitted | src/fs/mod.ts:118 | the corrected read, with a `BufReader` one byte larger than the file, settles as `ReadFileSpec` with one byte of headroom |
| Fs.ReadSlices | src/fs/mod.ts:118-131 | the loop's result equals `SlicesRead`: nothing and `BufferFull` when the first slice overflows the buffer, else all slices in order without error, or the slices before the faulting call and the fault |
| Fs.SlicesReadOutcome | src/fs/mod.ts:118-133 | without an error the data is the whole file; with one, the data is a prefix of the file that is empty, ends in a newline, or is everything, and the error is the device fault or `BufferFull`; `BufferFull` leaves no data and needs a newline-free file exactly as long as the buffer |
| Fs.SlicesReadEdges | src/fs/mod.ts:118-133 | a handle that never faults, read through a buffer its first slice does not overflow, delivers the whole content; one that faults at once delivers nothing |
| Fs.SlicesOverflowOnNewlineFreeFile | src/fs/mod.ts:118-121 | as written, the read ends in `BufferFull` with no data exactly when the file has at least 16 bytes, no newline, and does not fault on the first call |
| Fs.FittedSlicesDeliverFile | src/fs/mod.ts:118-121 | with a buffer one byte larger than the file, `BufferFull` never happens, and a handle that never faults delivers the whole content |
| Fs.ReadFileOpenErrors | src/fs/mod.ts:116-130 | a forbidden, missing or directory path settles with no data and the open's error |
| Fs.MergeCopyOptions | src/fs/mod.ts:157-161 | a field the caller gives wins; a field left out takes the default (`overwrite` true, `copyTimeStamp` true, `bufferSize` 32) |
| Fs.DestOpenOptions | src/fs/mod.ts:163 | the destination is opened to write, with `create`, `createNew == !overwrite`, `truncate` as given; the runtime accepts these options |
| Fs.ChunkLoopWrites | src/fs/mod.ts:164-171 | without a fault the whole source is written over the start of the destination; with a fault at read `k`, exactly the first `min(k * bufferSize, length)` bytes are |
| Fs.CopyChunks | src/fs/mod.ts:164-171 | the loop over the reused chunk buffer leaves the destination and fault flag of `ChunkLoop` |
| Fs.CopyTimestamps | src/fs/mod.ts:176-182 | a failing `stat` of the source rejects with its error; a `null` time rejects with `MissingTimestamp`; with both times set, the step passes exactly when the target exists and may be touched, and otherwise rejects with `PermissionDenied` or `NotFound`; on success the target's times are the source's; on failure the table is unchanged |
| Fs.CopyWith | src/fs/mod.ts:158-183 | the steps of the copy settle as `CopySpec` says |
| Fs.CopyFileStream | src/fs/mod.ts:158-183 | `copyFileStream` as written settles as `CopySpec` with the merged options and no truncation |
| Fs.CopyFileStreamReplacing | src/fs/mod.ts:158-183 | the corrected copy settles as `CopySpec` with truncation |
| Fs.CopyToNewFile | src/fs/mod.ts:161-182 | a copy onto a new path gives it exactly the source's bytes (none for an empty source); without `copyTimeStamp` it passes and keeps the creation times; with it, it carries the source's times, or rejects when one is null |
| Fs.CopyRefusesExisting | src/fs/mod.ts:163 | with `overwrite: false` an existing destination is refused and nothing changes |
| Fs.CopyFaultOnFirstRead | src/fs/mod.ts:167 | a source that faults on the first read rejects and leaves the destination as it was |
| Fs.CopyChangesOnlyDest | src/fs/mod.ts:158-183 | a copy, passing or rejecting, keeps the forbidden paths and the clock, adds no entry but the destination, and leaves every other entry as it was |
| Fs.TimestampsTouchOnlyTarget | src/fs/mod.ts:176-182 | the timestamp step adds and removes no entry and changes no entry but the target |
| Fs.CopyOverLongerFileKeepsTail | src/fs/mod.ts:163-170 | as written, copying over a longer file leaves that file's tail after the source's bytes, so the destination differs from the source |
| Fs.ReplacingCopyYieldsSource | src/fs/mod.ts:163 | opened with `truncate`, an existing destination ends up equal to the source |
| Fs.Concat | src/fs/mod.ts:123-127 | the grown array holds the old bytes followed by the slice |
| FsLegacy.BufWriter.constructor | src/fs/index.ts:149 | a fresh buffered writer over a handle at offset 0, with an empty buffer |
| FsLegacy.BufWriter.Flush | src/fs/index.ts:151 | after a flush the buffer is empty and the file holds every accepted byte from offset 0 |
| FsLegacy.BufWriter.Write | src/fs/index.ts:150 | the accepted bytes grow by the data, and the sink and buffer together still hold them all |
| FsLegacy.BufWriter.Buffer | src/fs/index.ts:150 | data that fits is appended to the buffer |
| FsLegacy.MergeLegacyCopyOptions | src/fs/index.ts:142-144 | a field the caller gives wins; a field left out is true |
| FsLegacy.WriterOpenOptions | src/fs/index.ts:147 | the destination options have `create` and `createNew == !overwrite` but no `write` or `append` |
| FsLegacy.WriterOpenAlwaysRefused | src/fs/index.ts:147 | the runtime refuses those options whatever the file system holds |
| FsLegacy.OpenBoth | src/fs/index.ts:145-148 | `Promise.all` of the two opens: both handles exactly when the options are valid and both opens succeed; invalid options reject first with nothing changed; a failing reader rejects with its error while a successful writer open still creates or keeps its file; a failing writer rejects with nothing changed |
| FsLegacy.StreamChunks | src/fs/index.ts:150 | every chunk of the readable is handed to the writer in order; the accepted bytes are the whole source, or a prefix of it after a fault, which happens exactly when `ChunkLoop` faults |
| FsLegacy.BufferedCopy | src/fs/index.ts:143-158 | the older copy settles as `BufferedCopySpec`: a failed open rejects with the table `OpenBoth` leaves; after a read fault it rejects with the destination holding a prefix of the source |
| FsLegacy.CopyFileStream | src/fs/index.ts:143-158 | as written, every call rejects with the invalid-options error and leaves the file system as it was |
| FsLegacy.CopyFileStreamWritable | src/fs/index.ts:143-158 | with the destination opened to write, the older copy settles as `BufferedCopySpec`; after a read fault it rejects, both opens succeeded, and the destination holds a prefix of the source with nothing else changed |
| FsLegacy.MissingSourceLeavesEmptyDest | src/fs/index.ts:145-148 | with a missing source and a new destination, the copy rejects with `NotFound`, yet the writer's open has created an empty destination |
| FsLegacy.BufferedCopyChangesOnlyDest | src/fs/index.ts:143-158 | the older copy keeps the forbidden paths and the clock, adds no entry but the destination, and leaves every other entry as it was, the source included |
| FsLegacy.WritableCopyKeepsDestTimes | src/fs/index.ts:153-157 | a copy onto a new path gives it the source's bytes, but the destination keeps its creation times and the source is left as it was |

## Left out

- `script`/`exe` of both path files: they read the module URL and the executable path, which are
  runtime state.
- Explicit `undefined` option values: a JavaScript spread copies an `undefined` field over the
  default. The model treats a field left out and a field set to `undefined` alike.
- Short reads and writes: every `write` writes all its bytes. A file `read` returns as many
  bytes as fit or remain.
- Faults other than a read fault: write faults, a failing `stream.stat()` in `readFileStream`,
  and close errors.
- Writes do not update the modification time, and reads never update the access time. A file
  created by `open` gets the clock's time for both timestamps. The timestamp step of both copies
  (`src/fs/mod.ts:177`, `src/fs/index.ts:153`) therefore sees the times the source had before
  the copy read it, and `Fs.CopyToNewFile` states the destination's access time as the source's
  stored one; on a file system that records access times, the copied access time is the time of
  the copy's own reads.
- Closing handles: `src/fs/mod.ts` closes them only on the success path (no `finally`). Open
  handles are not tracked.
- Os.FileReader.ReadSlice: the `BufReader` behaviour (a buffer of at least 16 bytes, `BufferFull` when it fills without a delimiter) belongs to Deno's standard library, which is not part of this model. The model assumes every underlying file read fills the free buffer space or reaches the end of the file.
- Os.OpenRead: opening a directory for reading is refused at the open. On Linux and macOS `Deno.open` succeeds there and the first read throws, so a copy from a directory to a new path would create an empty destination before it rejects; the model rejects without creating it.
- Os.FileSystem: entries are keyed by the normalised path string. `a//x` and `a/x` name two entries in the model but one file on disk. Symbolic links and hard links are not modelled either. Lemmas that assume two paths differ, such as `Fs.CopyOverLongerFileKeepsTail`, `Fs.ReplacingCopyYieldsSource` and `Fs.CopyToNewFile`, therefore assume two different files.
- Os.Node: only files and directories exist. For a FIFO, socket or device, Deno's `stat` reports neither flag, so `Fs.QueriesDegradeToFalse`'s "exactly one kind" does not cover them.
- Os.OpenWrite: creating a file does not require its parent directory to exist.
- Fs.WithoutPathOnly: the walk options model `maxDepth`, `includeFiles`, `includeDirs`, `followSymlinks` and `exts`. The library's `match` and `skip` fields, and the `includeSymlinks`/`canonicalize` fields of later standard-library versions, are passed on the same way but are not modelled.
- `BufWriter` error latching (`this.err`) is not modelled, because write faults are not modelled.
- A source that is also the destination: the read handle sees the content as it was at open time.
- The traversal of `Deno.readDir` and the library `walk` (order, depth, filters, symlinks): each
  is a function parameter, and only the projection on top of it is modelled. The async-iterator
  plumbing is not modelled, and neither is an error raised while iterating (a directory removed
  or made unreadable during the walk): the entries are a finished sequence.
- `readFile` (text decoding), `writeFileStream`, `mkdir`/`mkdirs`, `rmdir`/`rmdirs`: these are
  text decoding and operating-system effects outside the modelled helpers.
- `getTimestamp`/`setTimestamp` are modelled only as the timestamp step of the copy
  (`Fs.CopyTimestamps`).
- `src/hash`, `src/bufferConverter`, `src/deps.ts` and `src/mod.ts` are not part of this model.
  They are foreign cryptography, text encodings and re-exports.
- `bufferSize` is never validated by the code. The model takes it as a natural number. A
  zero-length buffer would make the copy loop write empty slices forever, so the copy methods
  require `bufferSize > 0`. A negative size, which makes `new Uint8Array(bufferSize)`
  (`src/fs/mod.ts:164`) throw a `RangeError` after both opens (so a new destination already
  exists, empty), and a fractional size, which the array constructor truncates, are not
  modelled.
- The size of the chunks `reader.readable` delivers is the `chunkSize` parameter.
- FsLegacy.BufferedCopy: after a read fault, the contract says only that the destination holds
  some prefix of the source. The exact prefix is whatever the buffered writer had flushed, and
  the contract does not fix it.
- FsLegacy.OpenBoth: when both opens of `Promise.all` fail at the file system, the model reports
  the reader's error. The order in which two I/O rejections settle is not fixed by the code. The
  two opens are applied to the table one after the other, so a source that is also the
  destination is read as it was before the writer's open.
- FsLegacy.StreamChunks: `bufWriter.write(chunk)` is not awaited in the source. The model runs
  each write to completion before the next read, so interleaved flushes are not modelled.

## Findings

| source | as written | input that shows it | evidently intended | confidence | as-written member | corrected member |
|---|---|---|---|---|---|---|
| src/fs/mod.ts:163 | the destination is opened with `create`/`createNew` but without `truncate`, and the chunks are written from offset 0 | `overwrite` left at its default, destination an existing 10-byte file, source a 3-byte file: the destination ends as the 3 source bytes followed by the old file's last 7 | the destination becomes a copy of the source | high, not executed | Fs.CopyOverLongerFileKeepsTail | Fs.ReplacingCopyYieldsSource |
| src/fs/mod.ts:118 | the `BufReader` is created with the file's size, so its buffer is exactly as large as a file of 16 bytes or more; `readSlice` throws `BufferFull` when the buffer fills without a newline before the end of the file is known | a 16-byte file `aaaaaaaaaaaaaaaa` with no newline: the first `readSlice` fills the buffer, finds no newline and throws, and `readFileStream` settles with empty data and the error | every file is read completely, whatever its lines | high (the `BufReader` code is Deno's standard library, which is not part of this model), not executed | Fs.SlicesOverflowOnNewlineFreeFile | Fs.FittedSlicesDeliverFile |
| src/fs/index.ts:147 | the writer is opened with `{ create: true, createNew: !overwrite }` only, because the older stream wrapper passes the options on unchanged (`src/stream/index.ts:4`); the runtime refuses `create`/`createNew` without `write` or `append` | any call, such as copying an existing file to a new path | the destination is opened for writing, as in `src/fs/mod.ts` | medium (the option check is Deno's own code, which is not part of this model), not executed | FsLegacy.CopyFileStream | FsLegacy.CopyFileStreamWritable |
| src/fs/index.ts:157 | the timestamps read from `src` are set on `src` again | copying a file with non-null times to a new path with `copyTimeStamp` true: the new file keeps its creation times | the times are set on `dest`, as `src/fs/mod.ts:182` does | high, not executed | FsLegacy.WritableCopyKeepsDestTimes | Fs.CopyToNewFile |
