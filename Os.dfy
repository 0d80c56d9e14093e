/**
 * The operating-system services the fs layer calls, as an abstract model: a table of files and
 * directories keyed by (already normalised) path, `stat`, `open` with its option checks,
 * `utime`, and the file handles the fs layer reads and writes through. The handles are
 * objects with a cursor that their methods advance, as the runtime's file handles are.
 *
 * A device fault is modelled by a read-call index stored with the file: the read call with
 * that index, on a handle of that file, throws instead of returning data.
 */
module Os {
  import opened Wrappers

  newtype byte = x: int | 0 <= x < 256

  /** `"\n".charCodeAt(0)`, the delimiter `readFileStream` slices at. */
  const Newline: byte := 10

  /** A point in time; the model never compares or computes with it. */
  datatype Date = Date(epochMillis: int)

  /** A directory entry. `atime`/`mtime` are `None` where the platform reports `null`. */
  datatype Node =
    | File(content: seq<byte>, atime: Option<Date>, mtime: Option<Date>, readFaultAt: Option<nat>)
    | Directory(atime: Option<Date>, mtime: Option<Date>)

  /** The part of `Deno.FileInfo` the fs layer reads. */
  datatype FileInfo = FileInfo(isFile: bool, isDirectory: bool, atime: Option<Date>, mtime: Option<Date>)

  /** The errors the calls below reject with. */
  datatype FsError =
    | NotFound
    | AlreadyExists
    | PermissionDenied
    | IsADirectory
    | Interrupted        // a device fault during a read
    | InvalidOptions     // an `OpenOptions` combination the runtime refuses
    | MissingTimestamp   // the "Do not exists time stamp" error of the copy
    | BufferFull         // `BufReader.readSlice` found no delimiter in a full buffer

  /** The file system: its entries, the paths the process may not touch, and the clock. */
  datatype FileSystem = FileSystem(entries: map<string, Node>, denied: set<string>, now: Date)

  /** `Deno.OpenOptions`; a field the caller leaves out is `false`. */
  datatype OpenOptions = OpenOptions(
    read: bool, write: bool, append: bool, truncate: bool, create: bool, createNew: bool)

  // ---------------------------------------------------------------------------------------------
  // System calls on the table
  // ---------------------------------------------------------------------------------------------

  /** `Deno.stat`: the kind and times of an entry the process may see. */
  function Stat(fs: FileSystem, path: string): (r: Result<FileInfo, FsError>)
    ensures r.Success? <==> path in fs.entries && path !in fs.denied
    ensures r.Failure? ==> r.error == (if path in fs.denied then PermissionDenied else NotFound)
    ensures r.Success? ==>
      && r.value.isFile == fs.entries[path].File? && r.value.isDirectory == fs.entries[path].Directory?
      && r.value.isFile != r.value.isDirectory
      && r.value.atime == fs.entries[path].atime && r.value.mtime == fs.entries[path].mtime
  {
    if path in fs.denied then Failure(PermissionDenied)
    else if path !in fs.entries then Failure(NotFound)
    else
      var n := fs.entries[path];
      Success(FileInfo(n.File?, n.Directory?, n.atime, n.mtime))
  }

  /**
   * The runtime's check of open options before any file is touched: at least one option must
   * be set, `truncate` needs `write`, and `create`/`createNew` need `write` or `append`.
   */
  function ValidOpenOptions(o: OpenOptions): (b: bool)
    ensures b ==> o.read || o.write || o.append
    ensures o.write ==> b
    ensures o.read && !o.truncate && !o.create && !o.createNew ==> b
    ensures o.truncate && !o.write ==> !b
    ensures (o.create || o.createNew) && !o.write && !o.append ==> !b
  {
    && (o.read || o.write || o.append || o.truncate || o.create || o.createNew)
    && (o.truncate ==> o.write)
    && (o.create || o.createNew ==> o.write || o.append)
  }

  /** `Deno.open(path)` for reading: the file node whose content the handle will deliver. */
  function OpenRead(fs: FileSystem, path: string): (r: Result<Node, FsError>)
    ensures r.Success? <==> path in fs.entries && path !in fs.denied && fs.entries[path].File?
    ensures r.Success? ==> r.value == fs.entries[path]
    ensures r.Failure? ==>
      r.error == if path in fs.denied then PermissionDenied else if path !in fs.entries then NotFound else IsADirectory
  {
    if path in fs.denied then Failure(PermissionDenied)
    else if path !in fs.entries then Failure(NotFound)
    else if fs.entries[path].Directory? then Failure(IsADirectory)
    else Success(fs.entries[path])
  }

  /**
   * `Deno.open(path, o)` for writing: the table after the open, in which `path` is a file.
   * `createNew` refuses an existing entry; otherwise an existing file is kept, and emptied only
   * with `truncate`; a missing file is created empty, stamped with the clock, when `create` or
   * `createNew` is set.
   */
  function OpenWrite(fs: FileSystem, path: string, o: OpenOptions): (r: Result<FileSystem, FsError>)
    ensures r.Success? <==>
      && ValidOpenOptions(o) && path !in fs.denied
      && (path in fs.entries ==> !o.createNew && fs.entries[path].File?)
      && (path !in fs.entries ==> o.create || o.createNew)
    ensures r.Failure? ==>
      r.error ==
        if !ValidOpenOptions(o) then InvalidOptions
        else if path in fs.denied then PermissionDenied
        else if path !in fs.entries then NotFound
        else if o.createNew then AlreadyExists
        else IsADirectory
    ensures r.Success? ==>
      && r.value.denied == fs.denied && r.value.now == fs.now
      && r.value.entries.Keys == fs.entries.Keys + {path}
      && (forall q :: q in fs.entries && q != path ==> r.value.entries[q] == fs.entries[q])
      && r.value.entries[path].File?
      && (path in fs.entries ==>
            r.value.entries[path] == if o.truncate then fs.entries[path].(content := []) else fs.entries[path])
      && (path !in fs.entries ==> r.value.entries[path] == File([], Some(fs.now), Some(fs.now), None))
  {
    if !ValidOpenOptions(o) then Failure(InvalidOptions)
    else if path in fs.denied then Failure(PermissionDenied)
    else if path in fs.entries then
      if o.createNew then Failure(AlreadyExists)
      else if fs.entries[path].Directory? then Failure(IsADirectory)
      else if o.truncate then Success(fs.(entries := fs.entries[path := fs.entries[path].(content := [])]))
      else Success(fs)
    else if o.create || o.createNew then
      Success(fs.(entries := fs.entries[path := File([], Some(fs.now), Some(fs.now), None)]))
    else Failure(NotFound)
  }

  /** `Deno.utime`: set both timestamps of an entry. */
  function Utime(fs: FileSystem, path: string, atime: Date, mtime: Date): (r: Result<FileSystem, FsError>)
    ensures r.Success? <==> path in fs.entries && path !in fs.denied
    ensures r.Failure? ==> r.error == (if path in fs.denied then PermissionDenied else NotFound)
    ensures r.Success? ==>
      && r.value.denied == fs.denied && r.value.now == fs.now
      && r.value.entries.Keys == fs.entries.Keys
      && r.value.entries[path].atime == Some(atime) && r.value.entries[path].mtime == Some(mtime)
      && r.value.entries[path].File? == fs.entries[path].File?
      && (fs.entries[path].File? ==> r.value.entries[path].content == fs.entries[path].content)
      && forall p :: p in fs.entries && p != path ==> r.value.entries[p] == fs.entries[p]
  {
    if path in fs.denied then Failure(PermissionDenied)
    else if path !in fs.entries then Failure(NotFound)
    else Success(fs.(entries := fs.entries[path := fs.entries[path].(atime := Some(atime), mtime := Some(mtime))]))
  }

  /** The table after a write handle on the file at `path` leaves `content` behind. */
  function StoreContent(fs: FileSystem, path: string, content: seq<byte>): FileSystem
    requires path in fs.entries && fs.entries[path].File?
  {
    fs.(entries := fs.entries[path := fs.entries[path].(content := content)])
  }

  // ---------------------------------------------------------------------------------------------
  // Byte sequences
  // ---------------------------------------------------------------------------------------------

  function Min(a: int, b: int): int {
    if a <= b then a else b
  }

  /** The content of a file after `data` is written at offset `pos`: bytes are overwritten, never removed. */
  function WriteAt(c: seq<byte>, pos: nat, data: seq<byte>): seq<byte>
    requires pos <= |c|
  {
    if pos + |data| < |c| then c[..pos] + data + c[pos + |data|..] else c[..pos] + data
  }

  /** Writing at the start replaces the first bytes and keeps any longer tail of the old content. */
  lemma WriteAtStart(c: seq<byte>, data: seq<byte>)
    ensures |data| >= |c| ==> WriteAt(c, 0, data) == data
    ensures |data| < |c| ==> WriteAt(c, 0, data) == data + c[|data|..]
  {
  }

  /** Two writes in a row at consecutive offsets are one write of both. */
  lemma {:induction false} WriteAtSequential(c: seq<byte>, w: seq<byte>, x: seq<byte>)
    ensures |w| <= |WriteAt(c, 0, w)|
    ensures WriteAt(WriteAt(c, 0, w), |w|, x) == WriteAt(c, 0, w + x)
  {
    var c1 := WriteAt(c, 0, w);
    if |w| + |x| < |c| {
      assert c1 == w + c[|w|..];
      assert c1[..|w|] == w;
      assert c1[|w| + |x|..] == c[|w| + |x|..];
    } else if |w| < |c| {
      assert c1 == w + c[|w|..];
      assert c1[..|w|] == w;
    } else {
      assert c1 == w;
    }
  }

  /** A loop that writes `c` piece by piece from offset 0: writing `c[pos..next]` after `c[..pos]` leaves `c[..next]` written. */
  lemma WriteAtNext(orig: seq<byte>, c: seq<byte>, pos: nat, next: nat, piece: seq<byte>)
    requires pos <= next <= |c| && piece == c[pos..next]
    ensures pos <= |WriteAt(orig, 0, c[..pos])|
    ensures WriteAt(WriteAt(orig, 0, c[..pos]), pos, piece) == WriteAt(orig, 0, c[..next])
  {
    WriteAtSequential(orig, c[..pos], piece);
    assert c[..pos] + piece == c[..next];
  }

  /** The concatenation of a sequence of byte strings. */
  function Flatten(parts: seq<seq<byte>>): seq<byte> {
    if parts == [] then [] else parts[0] + Flatten(parts[1..])
  }

  lemma {:induction false} FlattenAppend(a: seq<seq<byte>>, b: seq<seq<byte>>)
    ensures Flatten(a + b) == Flatten(a) + Flatten(b)
  {
    if a == [] {
      assert a + b == b;
    } else {
      assert (a + b)[1..] == a[1..] + b;
      FlattenAppend(a[1..], b);
    }
  }

  /** Appending one more part to a prefix of parts appends its bytes. */
  lemma FlattenSnoc(parts: seq<seq<byte>>, k: nat)
    requires k < |parts|
    ensures Flatten(parts[..k + 1]) == Flatten(parts[..k]) + parts[k]
  {
    assert parts[..k + 1] == parts[..k] + [parts[k]];
    FlattenAppend(parts[..k], [parts[k]]);
    assert Flatten([parts[k]]) == parts[k] + Flatten([]);
  }

  /** The length of the first slice `readSlice(delim)` returns: up to and including the first `delim`, or all. */
  function LineLen(c: seq<byte>, delim: byte): (n: nat)
    requires c != []
    ensures 1 <= n <= |c|
  {
    if c[0] == delim || |c| == 1 then 1 else 1 + LineLen(c[1..], delim)
  }

  /** The first slice stops at the first delimiter, or at the end. */
  lemma {:induction false} LineLenStopsAtDelimiter(c: seq<byte>, delim: byte)
    requires c != []
    ensures forall i :: 0 <= i < LineLen(c, delim) - 1 ==> c[i] != delim
    ensures c[LineLen(c, delim) - 1] == delim || LineLen(c, delim) == |c|
  {
    if !(c[0] == delim || |c| == 1) {
      LineLenStopsAtDelimiter(c[1..], delim);
      assert forall i :: 1 <= i < LineLen(c, delim) - 1 ==> c[i] == c[1..][i - 1];
    }
  }

  /**
   * How a read handle cuts the content into the pieces its successive calls return:
   * `readSlice(delim)` cuts just after each delimiter, `read(buf)` every `buf.length` bytes.
   */
  datatype Cut = AtDelimiter(delim: byte) | EverySize(size: nat)

  /** A cut that always makes progress: a buffer is never empty. */
  predicate ValidCut(cut: Cut) {
    cut.EverySize? ==> cut.size > 0
  }

  /** The length of the piece the next call returns while bytes remain. */
  function PieceLen(c: seq<byte>, cut: Cut): (n: nat)
    requires c != [] && ValidCut(cut)
    ensures 1 <= n <= |c|
  {
    match cut
    case AtDelimiter(delim) => LineLen(c, delim)
    case EverySize(size) => Min(size, |c|)
  }

  /** The pieces successive calls return before the end of the file, in order. */
  function Pieces(c: seq<byte>, cut: Cut): seq<seq<byte>>
    requires ValidCut(cut)
    decreases |c|
  {
    if c == [] then [] else var n := PieceLen(c, cut); [c[..n]] + Pieces(c[n..], cut)
  }

  /** The piece one call returns when bytes remain. */
  function NextPiece(c: seq<byte>, cut: Cut): seq<byte>
    requires c != [] && ValidCut(cut)
  {
    c[..PieceLen(c, cut)]
  }

  /** The pieces are the next piece followed by the pieces of what follows it. */
  lemma PiecesStep(c: seq<byte>, cut: Cut)
    requires c != [] && ValidCut(cut)
    ensures |NextPiece(c, cut)| <= |c|
    ensures Pieces(c, cut) == [NextPiece(c, cut)] + Pieces(c[|NextPiece(c, cut)|..], cut)
  {
  }

  /**
   * The reading step of a loop over the pieces: if the pieces of what is left from `pos` are
   * the pieces of `c` from index `k`, the next piece is piece `k`; after it, at the position
   * `next` the reader moves to, the pieces from index `k + 1` are left, and the bytes up to
   * `next` are those up to `pos` followed by the piece.
   */
  lemma PiecesAdvance(c: seq<byte>, cut: Cut, pos: nat, next: nat, k: nat, piece: seq<byte>)
    requires ValidCut(cut) && pos < |c| && k <= |Pieces(c, cut)|
    requires Pieces(c[pos..], cut) == Pieces(c, cut)[k..]
    requires piece == NextPiece(c[pos..], cut) && next == pos + |piece|
    ensures next <= |c| && k < |Pieces(c, cut)| && Pieces(c, cut)[k] == piece
    ensures Pieces(c[next..], cut) == Pieces(c, cut)[k + 1..]
    ensures c[..next] == c[..pos] + piece
  {
    var rest, pieces := c[pos..], Pieces(c, cut);
    PiecesStep(rest, cut);
    assert c[next..] == rest[|piece|..];
    assert pieces[k + 1..] == pieces[k..][1..];
    assert c[..next] == c[..pos] + c[pos..next];
  }

  /** When nothing is left, every piece has been read. */
  lemma PiecesExhausted(c: seq<byte>, cut: Cut, k: nat)
    requires ValidCut(cut) && k <= |Pieces(c, cut)|
    requires Pieces(c[|c|..], cut) == Pieces(c, cut)[k..]
    ensures k == |Pieces(c, cut)|
  {
    assert c[|c|..] == [];
  }

  /** Where the pieces of the rest start at index `k`, the first `k` pieces make up what precedes the rest. */
  lemma PiecesSplitAt(c: seq<byte>, cut: Cut, pos: nat, k: nat)
    requires ValidCut(cut) && pos <= |c| && k <= |Pieces(c, cut)|
    requires Pieces(c[pos..], cut) == Pieces(c, cut)[k..]
    ensures Flatten(Pieces(c, cut)[..k]) == c[..pos]
  {
    var pieces := Pieces(c, cut);
    PiecesFlatten(c, cut);
    PiecesFlatten(c[pos..], cut);
    assert pieces == pieces[..k] + pieces[k..];
    FlattenAppend(pieces[..k], pieces[k..]);
    assert c == c[..pos] + c[pos..];
  }

  /** Concatenating the pieces gives back the content: nothing dropped, nothing reordered. */
  lemma {:induction false} PiecesFlatten(c: seq<byte>, cut: Cut)
    requires ValidCut(cut)
    ensures Flatten(Pieces(c, cut)) == c
    decreases |c|
  {
    if c != [] {
      var n := PieceLen(c, cut);
      PiecesFlatten(c[n..], cut);
      assert c == c[..n] + c[n..];
    }
  }

  /** The first `k` pieces make up a prefix of the content. */
  lemma {:induction false} PiecesPrefix(c: seq<byte>, cut: Cut, k: nat)
    requires ValidCut(cut) && k <= |Pieces(c, cut)|
    ensures |Flatten(Pieces(c, cut)[..k])| <= |c|
    ensures Flatten(Pieces(c, cut)[..k]) == c[..|Flatten(Pieces(c, cut)[..k])|]
  {
    var ps := Pieces(c, cut);
    PiecesFlatten(c, cut);
    assert ps == ps[..k] + ps[k..];
    FlattenAppend(ps[..k], ps[k..]);
  }

  /**
   * The slices of `readSlice(delim)`: every slice is non-empty and holds the delimiter at most
   * as its last byte, and every slice but the last ends with the delimiter.
   */
  lemma {:induction false} LinesShape(c: seq<byte>, delim: byte, k: nat)
    requires k < |Pieces(c, AtDelimiter(delim))|
    ensures var line := Pieces(c, AtDelimiter(delim))[k];
      && |line| > 0
      && (forall i :: 0 <= i < |line| - 1 ==> line[i] != delim)
      && (k < |Pieces(c, AtDelimiter(delim))| - 1 ==> line[|line| - 1] == delim)
    decreases |c|
  {
    var n := LineLen(c, delim);
    if k > 0 {
      LinesShape(c[n..], delim, k - 1);
    } else {
      LineLenStopsAtDelimiter(c, delim);
      if 0 < |Pieces(c, AtDelimiter(delim))| - 1 {
        assert c[n..] != [];
      }
    }
  }

  /** The first `k` slices of `readSlice(delim)` end at a delimiter, unless they are none or all of them. */
  lemma LinesEndAtDelimiter(c: seq<byte>, delim: byte, k: nat)
    requires k <= |Pieces(c, AtDelimiter(delim))|
    ensures var d := Flatten(Pieces(c, AtDelimiter(delim))[..k]);
      d == [] || d[|d| - 1] == delim || d == c
  {
    var lines := Pieces(c, AtDelimiter(delim));
    if k == |lines| {
      assert lines[..k] == lines;
      PiecesFlatten(c, AtDelimiter(delim));
    } else if k > 0 {
      FlattenSnoc(lines, k - 1);
      LinesShape(c, delim, k - 1);
    }
  }

  /**
   * The chunks of `read(buf)` with a buffer of `size` bytes: every chunk but the last fills the
   * buffer, and the last holds between one byte and a full buffer.
   */
  lemma {:induction false} ChunksShape(c: seq<byte>, size: nat, k: nat)
    requires size > 0 && k < |Pieces(c, EverySize(size))|
    ensures 0 < |Pieces(c, EverySize(size))[k]| <= size
    ensures k < |Pieces(c, EverySize(size))| - 1 ==> |Pieces(c, EverySize(size))[k]| == size
    decreases |c|
  {
    var n := Min(size, |c|);
    if k > 0 {
      ChunksShape(c[n..], size, k - 1);
    } else if 0 < |Pieces(c, EverySize(size))| - 1 {
      assert c[n..] != [];
    }
  }

  /** The first `k` pieces are the first piece followed by the first `k - 1` pieces of the rest. */
  lemma PiecesHead(c: seq<byte>, cut: Cut, k: nat)
    requires ValidCut(cut) && 0 < k <= |Pieces(c, cut)|
    ensures c != [] && Flatten(Pieces(c, cut)[..k]) ==
      NextPiece(c, cut) + Flatten(Pieces(c[|NextPiece(c, cut)|..], cut)[..k - 1])
  {
    var piece := NextPiece(c, cut);
    PiecesStep(c, cut);
    var rest := Pieces(c[|piece|..], cut);
    assert Pieces(c, cut)[..k] == [piece] + rest[..k - 1];
    FlattenAppend([piece], rest[..k - 1]);
    assert Flatten([piece]) == piece + Flatten([]);
  }

  /** The first `k` chunks of `read(buf)` with a buffer of `size` bytes are the first `k * size` bytes, or all. */
  lemma {:induction false} ChunksDelivered(c: seq<byte>, size: nat, k: nat)
    requires size > 0 && k <= |Pieces(c, EverySize(size))|
    ensures Flatten(Pieces(c, EverySize(size))[..k]) == c[..Min(k * size, |c|)]
    decreases |c|
  {
    if k > 0 {
      PiecesHead(c, EverySize(size), k);
      var n := Min(size, |c|);
      ChunksDelivered(c[n..], size, k - 1);
      var m := Min((k - 1) * size, |c| - n);
      assert n + m == Min(k * size, |c|) by {
        assert (k - 1) * size + size == k * size;
        if |c| <= size {
          assert c[n..] == [];
        }
      }
      assert c[..n + m] == c[..n] + c[n..][..m];
    }
  }

  // ---------------------------------------------------------------------------------------------
  // File handles
  // ---------------------------------------------------------------------------------------------

  /** What a read call gives: a value, the end of the file (`null`), or a thrown error. */
  datatype ReadResult<T> = Got(value: T) | Eof | Fault(error: FsError)

  /** The smallest buffer a `BufReader` allocates: a requested size below it is raised to it. */
  const MinBufferSize: nat := 16

  /** The buffer size of `new BufReader(handle, size)`. */
  function BufReaderSize(size: nat): nat {
    if size < MinBufferSize then MinBufferSize else size
  }

  /**
   * `BufReader.readSlice` throws when its buffer fills up before the delimiter is found and before
   * a read has reported the end of the file: the first `capacity` bytes of the unread rest are
   * all there and none of them is the delimiter.
   */
  predicate SliceOverflows(rest: seq<byte>, delim: byte, capacity: nat) {
    capacity <= |rest| && delim !in rest[..capacity]
  }

  /** An open read handle: the file's content, the fault index, and a cursor. */
  class FileReader {
    const content: seq<byte>
    const faultAt: Option<nat>
    var pos: nat
    var calls: nat

    predicate Valid()
      reads this
    {
      pos <= |content|
    }

    /** A fresh handle on a file node. */
    constructor(file: Node)
      requires file.File?
      ensures content == file.content && faultAt == file.readFaultAt
      ensures pos == 0 && calls == 0 && Valid()
    {
      content, faultAt := file.content, file.readFaultAt;
      pos, calls := 0, 0;
    }

    /**
     * `readSlice(delim)` of a `BufReader` created on this handle with `new BufReader(handle, size)`:
     * the next slice up to and including `delim` (or the rest of the file), `null` at the end. When
     * the buffer fills up without a delimiter it throws `BufferFull`, dropping the buffered bytes.
     */
    method ReadSlice(delim: byte, size: nat) returns (r: ReadResult<seq<byte>>)
      requires Valid()
      modifies this
      ensures Valid() && calls == old(calls) + 1
      ensures r.Fault? ==> r.error == Interrupted || r.error == BufferFull
      ensures r == Fault(Interrupted) <==> faultAt.Some? && faultAt.value == old(calls)
      ensures r == Fault(BufferFull) <==>
        && !(faultAt.Some? && faultAt.value == old(calls))
        && SliceOverflows(content[old(pos)..], delim, BufReaderSize(size))
      ensures r == Fault(Interrupted) ==> pos == old(pos)
      ensures r == Fault(BufferFull) ==> pos == old(pos) + BufReaderSize(size)
      ensures !r.Fault? && old(pos) == |content| ==> r == Eof && pos == old(pos)
      ensures !r.Fault? && old(pos) < |content| ==>
        && r == Got(NextPiece(content[old(pos)..], AtDelimiter(delim))) && pos == old(pos) + |r.value|
        && r.value == content[old(pos)..pos]
    {
      var capacity := BufReaderSize(size);
      if faultAt.Some? && faultAt.value == calls {
        r := Fault(Interrupted);
      } else if pos == |content| {
        r := Eof;
      } else if SliceOverflows(content[pos..], delim, capacity) {
        r := Fault(BufferFull);
        pos := pos + capacity;
      } else {
        var n := LineLen(content[pos..], delim);
        assert NextPiece(content[pos..], AtDelimiter(delim)) == content[pos..pos + n];
        r := Got(content[pos..pos + n]);
        pos := pos + n;
      }
      calls := calls + 1;
    }

    /**
     * `FsFile.read(buf)`: fills `buf` with the next bytes, as many as fit, and returns their
     * number; `null` at the end of the file.
     */
    method Read(buf: array<byte>) returns (r: ReadResult<nat>)
      requires Valid() && buf.Length > 0
      modifies this, buf
      ensures Valid() && calls == old(calls) + 1
      ensures r.Fault? <==> faultAt.Some? && faultAt.value == old(calls)
      ensures r.Fault? ==> r.error == Interrupted && pos == old(pos) && buf[..] == old(buf[..])
      ensures !r.Fault? && old(pos) == |content| ==> r == Eof && pos == old(pos) && buf[..] == old(buf[..])
      ensures !r.Fault? && old(pos) < |content| ==>
        && r == Got(Min(buf.Length, |content| - old(pos)))
        && pos == old(pos) + r.value
        && buf[..r.value] == content[old(pos)..pos]
        && buf[..r.value] == NextPiece(content[old(pos)..], EverySize(buf.Length))
        && buf[r.value..] == old(buf[r.value..])
    {
      if faultAt.Some? && faultAt.value == calls {
        r := Fault(Interrupted);
      } else if pos == |content| {
        r := Eof;
      } else {
        var n := Min(buf.Length, |content| - pos);
        forall i | 0 <= i < n {
          buf[i] := content[pos + i];
        }
        r := Got(n);
        pos := pos + n;
      }
      calls := calls + 1;
    }
  }

  /** An open write handle: the file's content as this handle leaves it, and a cursor. */
  class FileWriter {
    var content: seq<byte>
    var pos: nat

    predicate Valid()
      reads this
    {
      pos <= |content|
    }

    /** A fresh handle on a file holding `c`, positioned at its start. */
    constructor(c: seq<byte>)
      ensures content == c && pos == 0 && Valid()
    {
      content, pos := c, 0;
    }

    /** `FsFile.write(data)`, all of `data` at the cursor. */
    method Write(data: seq<byte>)
      requires Valid()
      modifies this
      ensures Valid()
      ensures content == WriteAt(old(content), old(pos), data) && pos == old(pos) + |data|
    {
      content := WriteAt(content, pos, data);
      pos := pos + |data|;
    }
  }
}
