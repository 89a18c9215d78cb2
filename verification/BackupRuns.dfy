/** Runs of a backup session in which the library's account of a file comes to be false, although
    every callback does its work. */
module BackupRuns {
  import opened Prelude
  import opened BackupSession
  import opened BackupFiles
  import opened BackupContents
  import opened BackupReports

  /** A turn that is not cancelled and whose callback does its work; a stream passes on at most `n`
      bytes. */
  function Works(op: Op, n: nat): Turn {
    Turn(op, false, Applied, n, 0, None)
  }

  const BLANK := Start(false, false, map[], [])

  /** After the turns the session is in state s, in which nothing can be cancelled. */
  ghost predicate Arrives(turns: seq<Turn>, s: Session) {
    Leads(BLANK, turns, s) && !s.cancellable && forall i :: 0 <= i < |turns| ==> Honest(turns[i])
  }

  /** One more turn. */
  lemma OneMore(turns: seq<Turn>, s: Session, op: Op, n: nat, cb: Callback) returns (s': Session)
    requires Arrives(turns, s) && Enabled(s, op) && CallbackOf(s, op) == Some(cb)
    requires op.Create? || op.Rename? || op.Copy? || op.Write? || op.DropWriter?
    ensures Arrives(turns + [Works(op, n)], s')
    ensures s'.host == Perform(s.host, cb, n)
    ensures s'.writers == if op.Create? then s.writers[s.next := HostPath(op.path)]
                          else if op.DropWriter? then s.writers - {op.writer} else s.writers
    ensures s'.next == if op.Create? then s.next + 1 else s.next
    ensures forall p :: Reported(s'.trace, p) == ReportedAfter(s.trace, cb, p)
  {
    var t := Works(op, n);
    LeadsSnoc(BLANK, turns, s, t);
    s' := After(s, t);
    assert s'.trace[..|s.trace|] == s.trace;
  }

  function ReportedAfter(trace: seq<Event>, cb: Callback, p: Path): Option<Chunk> {
    var before := Reported(trace, p);
    match cb
    case CreateFile(q) => if q == p then Some([]) else before
    case WriteChunk(q, c) => if q == p && before.Some? then Some(before.value + c) else before
    case RenameFile(a, b) => if p == b then Reported(trace, a) else if p == a then None else before
    case CopyFile(a, b) => if p == b then Reported(trace, a) else before
    case _ => before
  }

  /** One file created, written and, if `drop`, closed. */
  lemma WrittenOnce(path: Path, chunk: Chunk, n: nat) returns (s: Session)
    requires NulFree(path) && chunk != []
    ensures Arrives([Works(Create(path), 0)] + [Works(Write(0, chunk), n)], s)
    ensures s.writers == map[0 := path] && s.next == 1
    ensures n == 0 ==> s.host == Host(map[path := Stream(0, 0, chunk)], map[path := 0], [[]])
    ensures n == |chunk| ==> s.host == Host(map[path := Stream(0, |chunk|, [])], map[path := 0], [chunk])
    ensures forall p :: Reported(s.trace, p) == if p == path then Some(chunk) else None
  {
    var s1 := OneMore([], BLANK, Create(path), 0, CreateFile(path));
    assert [] + [Works(Create(path), 0)] == [Works(Create(path), 0)];
    assert s1.host == Host(map[path := Stream(0, 0, [])], map[path := 0], [[]]);
    s := OneMore([Works(Create(path), 0)], s1, Write(0, chunk), n, WriteChunk(path, chunk));
    var none: Chunk := [];
    assert none + chunk == chunk && chunk[..|chunk|] == chunk && chunk[|chunk|..] == [] && chunk[..0] == [] && chunk[0..] == chunk;
  }

  /** A write to an empty file that is passed on at once. */
  lemma WrittenThrough(h: Host, q: Path, b: byte)
    requires q in h.open && h.open[q].pos == 0 && h.open[q].pending == []
    requires h.open[q].file < |h.data| && h.data[h.open[q].file] == []
    ensures Perform(h, WriteChunk(q, [b]), 1).data == h.data[h.open[q].file := [b]]
  {
    var none: Chunk := [];
    assert none + [b] == [b] && [b][..1] == [b];
  }

  /** A write at the start of a file of two bytes, passed on when the stream is closed. */
  lemma OverwrittenOnClose(h: Host, q: Path, x: byte, y: byte, b: byte)
    requires q in h.open && h.open[q].pos == 0 && h.open[q].pending == []
    requires h.open[q].file < |h.data| && h.data[h.open[q].file] == [x, y]
    ensures Closed(Perform(h, WriteChunk(q, [b]), 0), q).data == h.data[h.open[q].file := [b, y]]
  {
    var h1 := Perform(h, WriteChunk(q, [b]), 0);
    var none: Chunk := [];
    assert none + [b] == [b];
    assert h1.data == h.data && h1.open[q] == Stream(h.open[q].file, 0, [b]);
    assert [b][..1] == [b] && Overlay([x, y], 0, [b]) == [b, y];
  }

  lemma FirstOfTwoClosed() returns (turns: seq<Turn>, s: Session)
    ensures Arrives(turns, s)
    ensures s.host == Host(map[], map["f" := 0], [[]]) && s.writers == map[1 := "f"]
    ensures Reported(s.trace, "f") == Some([])
  {
    var s1 := OneMore([], BLANK, Create("f"), 0, CreateFile("f"));
    assert s1.host == Host(map["f" := Stream(0, 0, [])], map["f" := 0], [[]]);
    turns := [] + [Works(Create("f"), 0)];
    var s2 := OneMore(turns, s1, Create("f"), 0, CreateFile("f"));
    assert s2.host == s1.host && s2.writers == map[0 := "f", 1 := "f"];
    turns := turns + [Works(Create("f"), 0)];
    s := OneMore(turns, s2, DropWriter(0), 0, CloseFile("f"));
    turns := turns + [Works(DropWriter(0), 0)];
  }

  /** With two writers on one path, closing the first takes the stream from the second: a later
      write is reported as successful and lost for good. */
  lemma SecondWriterLosesItsData() returns (turns: seq<Turn>, end: Session)
    ensures Arrives(turns, end)
    ensures Reported(end.trace, "f") == Some([1]) && FileAt(end.host, "f") == Some([]) && end.host.open == map[]
  {
    var before, s := FirstOfTwoClosed();
    end := OneMore(before, s, Write(1, [1]), 1, WriteChunk("f", [1]));
    turns := before + [Works(Write(1, [1]), 1)];
    var none: Chunk := [];
    assert none + [1] == [1];
  }

  lemma RenamedAndCreatedAfresh() returns (turns: seq<Turn>, s: Session)
    ensures Arrives(turns, s)
    ensures s.host == Host(map["a" := Stream(0, 0, []), "b" := Stream(0, 0, [])], map["b" := 0], [[]])
    ensures s.writers == map[0 := "a", 1 := "b"] && Reported(s.trace, "b") == Some([])
  {
    var s1 := OneMore([], BLANK, Create("a"), 0, CreateFile("a"));
    assert s1.host == Host(map["a" := Stream(0, 0, [])], map["a" := 0], [[]]);
    turns := [] + [Works(Create("a"), 0)];
    var s2 := OneMore(turns, s1, Rename("a", "b"), 0, RenameFile("a", "b"));
    assert s2.host == Host(map["a" := Stream(0, 0, [])], map["b" := 0], [[]]);
    turns := turns + [Works(Rename("a", "b"), 0)];
    s := OneMore(turns, s2, Create("b"), 0, CreateFile("b"));
    turns := turns + [Works(Create("b"), 0)];
  }

  /** A file renamed while it is written takes its stream along: when its new name is created afresh,
      a write through the old writer ends up in the new file, of which it was not reported. */
  lemma RenamedWriterSpoilsTheNewFile() returns (turns: seq<Turn>, end: Session)
    ensures Arrives(turns, end)
    ensures end.writers == map[0 := "a", 1 := "b"]
    ensures Reported(end.trace, "b") == Some([]) && FileAt(end.host, "b") == Some([1])
  {
    var before, s := RenamedAndCreatedAfresh();
    end := OneMore(before, s, Write(0, [1]), 1, WriteChunk("a", [1]));
    turns := before + [Works(Write(0, [1]), 1)];
    WrittenThrough(s.host, "a", 1);
  }

  /** A copy made while its source is being written lacks the bytes still pending, and goes on lacking
      them when the source is closed. */
  lemma CopyOfAnOpenFileStaysShort() returns (turns: seq<Turn>, end: Session)
    ensures Arrives(turns, end)
    ensures Reported(end.trace, "b") == Some([1]) && FileAt(end.host, "b") == Some([])
    ensures FileAt(end.host, "a") == Some([1]) && end.host.open == map[]
  {
    var s2 := WrittenOnce("a", [1], 0);
    turns := [Works(Create("a"), 0)] + [Works(Write(0, [1]), 0)];
    var s3 := OneMore(turns, s2, Copy("a", "b"), 0, CopyFile("a", "b"));
    assert s3.host == Host(map["a" := Stream(0, 0, [1])], map["a" := 0, "b" := 1], [[], []]);
    turns := turns + [Works(Copy("a", "b"), 0)];
    end := OneMore(turns, s3, DropWriter(0), 0, CloseFile("a"));
    turns := turns + [Works(DropWriter(0), 0)];
    assert end.host == Closed(s3.host, "a");
    assert s3.host.open["a"].pending[..1] == [1];
    var none: Chunk := [];
    assert none + [1] == [1];
  }

  lemma WrittenAndClosed() returns (s: Session)
    ensures Arrives([Works(Create("a"), 0)] + [Works(Write(0, [1, 2]), 2)] + [Works(DropWriter(0), 0)], s)
    ensures s.host == Host(map[], map["a" := 0], [[1, 2]]) && s.writers == map[] && s.next == 1
    ensures forall p :: Reported(s.trace, p) == if p == "a" then Some([1, 2]) else None
  {
    var turns := [Works(Create("a"), 0)] + [Works(Write(0, [1, 2]), 2)];
    var s2 := WrittenOnce("a", [1, 2], 2);
    s := OneMore(turns, s2, DropWriter(0), 0, CloseFile("a"));
    assert s.host.open == map[];
  }

  lemma CopiedUnderAStream() returns (turns: seq<Turn>, s: Session)
    ensures Arrives(turns, s)
    ensures s.host == Host(map["b" := Stream(1, 0, [])], map["a" := 0, "b" := 1], [[1, 2], [1, 2]]) && s.writers == map[1 := "b"]
    ensures Reported(s.trace, "b") == Some([1, 2])
  {
    turns := [Works(Create("a"), 0)] + [Works(Write(0, [1, 2]), 2)] + [Works(DropWriter(0), 0)];
    var s3 := WrittenAndClosed();
    var s4 := OneMore(turns, s3, Create("b"), 0, CreateFile("b"));
    assert s4.host == Host(map["b" := Stream(1, 0, [])], map["a" := 0, "b" := 1], [[1, 2], []]);
    turns := turns + [Works(Create("b"), 0)];
    s := OneMore(turns, s4, Copy("a", "b"), 0, CopyFile("a", "b"));
    turns := turns + [Works(Copy("a", "b"), 0)];
  }

  /** A stream writes at its own position: a file copied onto while its writer has it open is
      overwritten from the beginning, not extended, by the next write. */
  lemma CopyUnderAStreamIsOverwritten() returns (turns: seq<Turn>, end: Session)
    ensures Arrives(turns, end)
    ensures Reported(end.trace, "b") == Some([1, 2, 9]) && FileAt(end.host, "b") == Some([9, 2]) && end.host.open == map[]
  {
    var before, s5 := CopiedUnderAStream();
    var s6 := OneMore(before, s5, Write(1, [9]), 0, WriteChunk("b", [9]));
    end := OneMore(before + [Works(Write(1, [9]), 0)], s6, DropWriter(1), 0, CloseFile("b"));
    turns := before + [Works(Write(1, [9]), 0)] + [Works(DropWriter(1), 0)];
    OverwrittenOnClose(s5.host, "b", 1, 2, 9);
    var copied: Chunk := [1, 2];
    assert copied + [9] == [1, 2, 9];
  }

  // An empty file copied onto one that was just created.
  const COPIED_EMPTY := [Works(Create("x"), 0), Works(DropWriter(0), 0), Works(Create("a"), 0), Works(Copy("x", "a"), 0)]

  lemma EmptyClosed() returns (s: Session)
    ensures Arrives([Works(Create("x"), 0)] + [Works(DropWriter(0), 0)], s)
    ensures s.host == Host(map[], map["x" := 0], [[]]) && s.writers == map[] && s.next == 1
    ensures Reported(s.trace, "x") == Some([])
  {
    var s1 := OneMore([], BLANK, Create("x"), 0, CreateFile("x"));
    assert [] + [Works(Create("x"), 0)] == [Works(Create("x"), 0)];
    assert s1.host == Host(map["x" := Stream(0, 0, [])], map["x" := 0], [[]]);
    s := OneMore([Works(Create("x"), 0)], s1, DropWriter(0), 0, CloseFile("x"));
  }

  lemma EmptyCopiedUnderAStream() returns (s: Session)
    ensures Arrives(COPIED_EMPTY, s)
    ensures s.host == Host(map["a" := Stream(1, 0, [])], map["x" := 0, "a" := 1], [[], []]) && s.writers == map[1 := "a"]
    ensures Reported(s.trace, "a") == Some([])
  {
    var turns := [Works(Create("x"), 0)] + [Works(DropWriter(0), 0)];
    var s2 := EmptyClosed();
    var s3 := OneMore(turns, s2, Create("a"), 0, CreateFile("a"));
    assert s3.host == Host(map["a" := Stream(1, 0, [])], map["x" := 0, "a" := 1], [[], []]);
    s := OneMore(turns + [Works(Create("a"), 0)], s3, Copy("x", "a"), 0, CopyFile("x", "a"));
    assert COPIED_EMPTY == turns + [Works(Create("a"), 0)] + [Works(Copy("x", "a"), 0)];
  }

  /** Something else may have truncated a file under its stream and done no harm: copying nothing onto
      a file that is empty so far. So whether a stream is at its file's end cannot be told from whether
      anything else has touched the file. */
  lemma DisturbedStreamMayBeAtItsEnd() returns (s: Session, end: Session)
    ensures Arrives(COPIED_EMPTY, s) && AtItsEnd(s.host, s.trace, "a")
    ensures Arrives(COPIED_EMPTY + [Works(Write(1, [1]), 1)], end)
    ensures Reported(end.trace, "a") == Some([1]) && FileAt(end.host, "a") == Some([1])
  {
    s := EmptyCopiedUnderAStream();
    end := OneMore(COPIED_EMPTY, s, Write(1, [1]), 1, WriteChunk("a", [1]));
    WrittenThrough(s.host, "a", 1);
    RunKeepsStreamsTraced(BLANK, COPIED_EMPTY, s);
    assert StreamTraced(s.host, s.trace, "a");
    var none: Chunk := [];
    assert none + [1] == [1];
  }
}
