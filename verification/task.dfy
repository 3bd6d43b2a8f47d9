/** The `node` task: an incremental reader that opens its file on the first
    `Run` and afterwards appends one fixed-size chunk per `Run`, until an
    error (end of file included) is recorded. The file system is an oracle:
    `Run` takes the replies of the open and of the read as parameters, and
    `RunOn` obtains them from a static `FileSystem`. */
module FileTask {
  import opened Basics

  /** The size of the read buffer of `Run`. */
  const ChunkSize: nat := 5

  /** The buffer handed to `ReadAt`; reading never changes its length. */
  type Chunk = s: seq<byte> | |s| == ChunkSize witness [0, 0, 0, 0, 0]

  /** The errors the file system can report: a path that does not exist,
      the end of the file, and a read at a negative offset. */
  datatype IoError = NotExist | Eof | NegativeOffset

  /** A task's progress: `isOpen` says the file handle is non-nil. */
  datatype Task = Task(path: string, isOpen: bool, content: seq<byte>, off: int, err: Option<IoError>)

  /** `nodeNew` followed by setting the path: the buffer already holds one
      chunk of zero bytes. */
  function NewTask(path: string): (t: Task)
    ensures !t.isOpen && t.err.None? && t.off == 0
    ensures |t.content| == ChunkSize && forall i :: 0 <= i < |t.content| ==> t.content[i] == 0
  {
    Task(path, false, Zeros(ChunkSize), 0, None)
  }

  predicate IsContinue(t: Task) {
    t.err.None?
  }

  /** Builds the grown buffer as the source does, element by element: the
      old content first, then the chunk. */
  method GrowContent(prior: seq<byte>, chunk: Chunk) returns (content: seq<byte>)
    ensures |content| == |prior| + ChunkSize
    ensures content[..|prior|] == prior && content[|prior|..] == chunk
  {
    content := Zeros(|prior| + ChunkSize);
    var i := 0;
    while i < |prior|
      invariant 0 <= i <= |prior|
      invariant |content| == |prior| + ChunkSize
      invariant forall k :: 0 <= k < i ==> content[k] == prior[k]
    {
      content := content[i := prior[i]];
      i := i + 1;
    }
    i := 0;
    while i < ChunkSize
      invariant 0 <= i <= ChunkSize
      invariant |content| == |prior| + ChunkSize
      invariant forall k :: 0 <= k < |prior| ==> content[k] == prior[k]
      invariant forall k :: 0 <= k < i ==> content[|prior| + k] == chunk[k]
    {
      content := content[|prior| + i := chunk[i]];
      i := i + 1;
    }
    assert content[..|prior|] == prior;
    assert content[|prior|..] == chunk;
  }

  /** One step of the task. Without a file it only records the outcome of
      opening; with one it appends the chunk read at the offset, advances the
      offset by the chunk size and records the read's error, even when that
      error is set. */
  function Run(t: Task, opening: Option<IoError>, chunk: Chunk, readErr: Option<IoError>): (r: Task)
    ensures r.path == t.path
    ensures !t.isOpen ==>
              r.content == t.content && r.off == t.off && r.err == opening
              && (r.isOpen <==> opening.None?)
    ensures t.isOpen ==>
              && r.isOpen && r.err == readErr
              && |r.content| == |t.content| + ChunkSize
              && r.content[..|t.content|] == t.content && r.content[|t.content|..] == chunk
              && r.off == t.off + ChunkSize
  {
    if !t.isOpen then
      t.(isOpen := opening.None?, err := opening)
    else
      t.(content := t.content + chunk, off := t.off + ChunkSize, err := readErr)
  }

  /** A static file system: the contents of every existing path. */
  type FileSystem = map<string, seq<byte>>

  function Data(fs: FileSystem, path: string): seq<byte> {
    if path in fs then fs[path] else []
  }

  function Open(fs: FileSystem, path: string): Option<IoError> {
    if path in fs then None else Some(NotExist)
  }

  function Min(a: int, b: int): int {
    if a <= b then a else b
  }

  /** `ReadAt` into a fresh zeroed chunk: the bytes of the file from `off`
      on, as many as fit, and the end-of-file error exactly when fewer than
      a chunk's worth remain. */
  function ReadAt(fs: FileSystem, path: string, off: int): (r: (Chunk, Option<IoError>))
    ensures off < 0 ==> r.1 == Some(NegativeOffset)
    ensures off >= 0 ==> (r.1.None? <==> off + ChunkSize <= |Data(fs, path)|)
    ensures off >= 0 ==> r.1.None? || r.1 == Some(Eof)
    ensures off >= 0 ==>
              forall i :: 0 <= i < ChunkSize ==>
                r.0[i] == if off + i < |Data(fs, path)| then Data(fs, path)[off + i] else 0
  {
    if off < 0 then
      (Zeros(ChunkSize), Some(NegativeOffset))
    else
      var data := Data(fs, path);
      var got := if off >= |data| then [] else data[off..Min(off + ChunkSize, |data|)];
      (got + Zeros(ChunkSize - |got|), if |got| < ChunkSize then Some(Eof) else None)
  }

  /** How many more steps the task can take before it records an error. */
  function Remaining(fs: FileSystem, t: Task): nat {
    (if t.isOpen then 0 else 1) + Reads(fs, t.path, t.off)
  }

  function Reads(fs: FileSystem, path: string, off: int): nat {
    var size := |Data(fs, path)|;
    if 0 <= off <= size then (size - off) / ChunkSize + 1 else 1
  }

  /** One step of the task against the file system. A step after which the
      task may continue brings it closer to its last step. */
  function RunOn(fs: FileSystem, t: Task): (r: Task)
    ensures r.path == t.path
    ensures IsContinue(r) ==> Remaining(fs, r) < Remaining(fs, t)
  {
    var (chunk, readErr) := ReadAt(fs, t.path, t.off);
    Run(t, Open(fs, t.path), chunk, readErr)
  }

  /** The first step of a task opens its path: it is open, and may go on,
      exactly when the path exists; otherwise it records the open error. */
  lemma OpenStep(fs: FileSystem, t: Task)
    requires !t.isOpen
    ensures RunOn(fs, t).isOpen <==> t.path in fs
    ensures IsContinue(RunOn(fs, t)) <==> t.path in fs
    ensures t.path !in fs ==> RunOn(fs, t).err == Some(NotExist)
  {
  }

  /** A step of an opened task may go on exactly when a whole chunk of the
      file lies at its offset; otherwise the read's error stops it. */
  lemma ReadContinues(fs: FileSystem, t: Task)
    requires t.isOpen
    ensures IsContinue(RunOn(fs, t)) <==> 0 <= t.off && t.off + ChunkSize <= |Data(fs, t.path)|
    ensures !IsContinue(RunOn(fs, t)) ==>
              RunOn(fs, t).err == if t.off < 0 then Some(NegativeOffset) else Some(Eof)
  {
  }

  /** The task as it stands after being run until it records an error: the
      buffer only grew, in lockstep with the offset. */
  function Finish(fs: FileSystem, t: Task): (r: Task)
    ensures !IsContinue(r)
    ensures r.path == t.path
    ensures |t.content| <= |r.content| && r.content[..|t.content|] == t.content
    ensures r.off - t.off == |r.content| - |t.content|
    decreases Remaining(fs, t)
  {
    var next := RunOn(fs, t);
    if IsContinue(next) then Finish(fs, next) else next
  }

  /** A read that fits inside the file returns the next chunk of it. */
  lemma ReadWithin(fs: FileSystem, path: string, off: int)
    requires 0 <= off && off + ChunkSize <= |Data(fs, path)|
    ensures ReadAt(fs, path, off) == (Data(fs, path)[off..off + ChunkSize], None)
  {
    var got := Data(fs, path)[off..off + ChunkSize];
    assert Min(off + ChunkSize, |Data(fs, path)|) == off + ChunkSize;
    assert got + Zeros(0) == got;
  }

  /** A read that reaches past the end returns the rest of the file padded
      with zero bytes, and the end-of-file error. */
  lemma ReadPastEnd(fs: FileSystem, path: string, off: int)
    requires 0 <= off <= |Data(fs, path)| < off + ChunkSize
    ensures ReadAt(fs, path, off)
              == (Data(fs, path)[off..] + Zeros(ChunkSize - (|Data(fs, path)| - off)), Some(Eof))
  {
    var d := Data(fs, path);
    if off < |d| {
      assert d[off..Min(off + ChunkSize, |d|)] == d[off..];
    } else {
      assert d[off..] == [];
    }
  }

  /** The last chunk boundary at or below a size is where fewer than a chunk
      of it remain. */
  lemma LastBoundary(size: nat, off: nat)
    requires off % ChunkSize == 0 && off <= size < off + ChunkSize
    ensures size / ChunkSize * ChunkSize == off && size % ChunkSize == size - off
  {
  }

  /** A step of an opened task that reads a whole chunk inside the file
      extends its content by that chunk and may continue. */
  lemma ReadChunkStep(fs: FileSystem, t: Task, pre: seq<byte>)
    requires t.isOpen && t.path in fs
    requires 0 <= t.off && t.off + ChunkSize <= |fs[t.path]|
    requires t.content == pre + fs[t.path][..t.off]
    ensures RunOn(fs, t)
              == t.(content := pre + fs[t.path][..t.off + ChunkSize], off := t.off + ChunkSize, err := None)
  {
  }

  /** The step of an opened task at the last chunk boundary appends the rest
      of the file and zero padding, and records the end of the file. */
  lemma ReadLastStep(fs: FileSystem, t: Task, pre: seq<byte>)
    requires t.isOpen && t.path in fs
    requires 0 <= t.off <= |fs[t.path]| < t.off + ChunkSize && t.off % ChunkSize == 0
    requires t.content == pre + fs[t.path][..t.off]
    ensures var d := fs[t.path];
            RunOn(fs, t)
              == Task(t.path, true, pre + d + Zeros(ChunkSize - |d| % ChunkSize),
                      ChunkSize * (|d| / ChunkSize + 1), Some(Eof))
  {
    ReadPastEnd(fs, t.path, t.off);
    LastBoundary(|fs[t.path]|, t.off);
  }

  /** Reading an opened file to its end from a chunk boundary appends the
      rest of the file and then zero bytes up to the next full chunk. */
  lemma {:induction false} FinishReading(fs: FileSystem, t: Task, pre: seq<byte>)
    requires t.isOpen && t.path in fs
    requires 0 <= t.off <= |fs[t.path]| && t.off % ChunkSize == 0
    requires t.content == pre + fs[t.path][..t.off]
    ensures var d := fs[t.path];
            Finish(fs, t)
              == Task(t.path, true, pre + d + Zeros(ChunkSize - |d| % ChunkSize),
                      ChunkSize * (|d| / ChunkSize + 1), Some(Eof))
    decreases |fs[t.path]| - t.off
  {
    if t.off + ChunkSize <= |fs[t.path]| {
      ReadChunkStep(fs, t, pre);
      var next := RunOn(fs, t);
      assert Finish(fs, t) == Finish(fs, next);
      FinishReading(fs, next, pre);
    } else {
      ReadLastStep(fs, t, pre);
      assert Finish(fs, t) == RunOn(fs, t);
    }
  }

  /** What a fresh task delivers once run to its end: for a missing path the
      error of opening and the initial zero chunk; for an existing file one
      zero chunk, the whole file and zero padding to a full chunk, with the
      end-of-file error. */
  lemma FinishFresh(fs: FileSystem, path: string)
    ensures Finish(fs, NewTask(path))
              == if path in fs then
                   var d := fs[path];
                   Task(path, true, Zeros(ChunkSize) + d + Zeros(ChunkSize - |d| % ChunkSize),
                        ChunkSize * (|d| / ChunkSize + 1), Some(Eof))
                 else Task(path, false, Zeros(ChunkSize), 0, Some(NotExist))
  {
    var t := NewTask(path);
    if path in fs {
      var next := RunOn(fs, t);
      assert next == t.(isOpen := true);
      assert fs[path][..0] == [];
      assert next.content == Zeros(ChunkSize) + fs[path][..0];
      FinishReading(fs, next, Zeros(ChunkSize));
    }
  }
}
