/** What the backup library is told about its files, and when it is true. */
module BackupReports {
  import opened Prelude
  import opened BackupSession
  import opened BackupFiles
  import opened BackupContents

  // ----- when a successful write is lost -----

  /** The last create or close of the path that did its work is a create. */
  function StreamOpen(trace: seq<Event>, p: Path): bool {
    if trace == [] then false
    else
      var before := StreamOpen(trace[..|trace| - 1], p);
      match Effective(trace[|trace| - 1])
      case Some(CreateFile(q)) => before || q == p
      case Some(CloseFile(q)) => before && q != p
      case _ => before
  }

  /** The bytes written on the path since its stream was opened. */
  function Sent(trace: seq<Event>, p: Path): nat {
    if trace == [] then 0
    else
      var rest := trace[..|trace| - 1];
      match Effective(trace[|trace| - 1])
      case Some(CreateFile(q)) => if q == p then 0 else Sent(rest, p)
      case Some(WriteChunk(q, c)) => Sent(rest, p) + if q == p && StreamOpen(rest, p) then |c| else 0
      case _ => Sent(rest, p)
  }

  /** The content of the file the path's stream has open, were the stream closed now. */
  function Landed(h: Host, p: Path): Option<Chunk> {
    if p in h.open && h.open[p].file < |h.data| then Some(Closed(h, p).data[h.open[p].file]) else None
  }

  /** The stream's file has come to be longer by the chunk. */
  ghost predicate Reached(h: Host, h': Host, p: Path, c: Chunk) {
    Landed(h, p).Some? && Landed(h', p) == Some(Landed(h, p).value + c)
  }

  /** The stream's file is, or will be, as long as what was written through the stream. */
  ghost predicate AtItsEnd(h: Host, trace: seq<Event>, p: Path) {
    Landed(h, p).Some? && |Landed(h, p).value| == Sent(trace, p)
  }

  ghost predicate StreamTraced(h: Host, trace: seq<Event>, q: Path) {
    && (q in h.open <==> StreamOpen(trace, q))
    && (q in h.open ==> h.open[q].file < |h.data| && h.open[q].pos + |h.open[q].pending| == Sent(trace, q))
  }

  ghost predicate StreamsTraced(s: Session) {
    forall q :: StreamTraced(s.host, s.trace, q)
  }

  lemma CreatingStreams(h: Host, p: Path, q: Path)
    requires q in h.open ==> h.open[q].file < |h.data|
    ensures var h' := Perform(h, CreateFile(p), 0);
      && h'.open.Keys == h.open.Keys + {p}
      && (q in h'.open ==> h'.open[q].file < |h'.data|)
      && h'.open[p].pos == 0 && h'.open[p].pending == []
      && (q in h.open && q != p ==> h'.open[q] == h.open[q])
  {
  }

  lemma WritingStreams(h: Host, p: Path, c: Chunk, flush: nat, q: Path)
    requires q in h.open ==> h.open[q].file < |h.data|
    ensures var h' := Perform(h, WriteChunk(p, c), flush);
      && h'.open.Keys == h.open.Keys && |h'.data| == |h.data|
      && (q in h.open ==> h'.open[q].file == h.open[q].file)
      && (q in h.open ==>
        h'.open[q].pos + |h'.open[q].pending| == h.open[q].pos + |h.open[q].pending| + if q == p then |c| else 0)
  {
  }

  lemma EventKeepsStreamTraced(h: Host, trace: seq<Event>, e: Event, q: Path)
    requires StreamTraced(h, trace, q)
    ensures StreamTraced(HostAfter(h, e.call), trace + [e], q)
  {
    assert (trace + [e])[..|trace|] == trace;
    match Effective(e)
    case Some(CreateFile(p)) => CreatingStreams(h, p, q);
    case Some(WriteChunk(p, c)) => WritingStreams(h, p, c, e.call.value.flush, q);
    case _ =>
  }

  lemma {:induction false} RunKeepsStreamsTraced(s: Session, turns: seq<Turn>, end: Session)
    requires StreamsTraced(s) && Leads(s, turns, end)
    ensures StreamsTraced(end)
    decreases |turns|
  {
    if turns != [] {
      forall q ensures StreamTraced(After(s, turns[0]).host, After(s, turns[0]).trace, q) {
        EventKeepsStreamTraced(s.host, s.trace, EventOf(s, turns[0]), q);
      }
      RunKeepsStreamsTraced(After(s, turns[0]), turns[1..], end);
    }
  }

  /** Writing in two goes is writing in one. */
  lemma OverlayTwice(f: Chunk, pos: nat, a: Chunk, b: Chunk)
    ensures Overlay(Overlay(f, pos, a), pos + |a|, b) == Overlay(f, pos, a + b)
  {
    if a == [] {
      assert a + b == b;
    } else if b == [] {
      assert a + b == a;
    } else {
      var once, end := Overlay(f, pos, a), pos + |a|;
      var padded := if |f| < pos then f + seq(pos - |f|, _ => 0) else f;
      assert once[..end] == padded[..pos] + a;
      assert once[end..] == if end < |f| then f[end..] else [];
      assert end + |b| < |once| ==> once[end + |b|..] == f[end + |b|..];
      assert once[..end] + b == padded[..pos] + (a + b);
    }
  }

  lemma ClosingLands(h: Host, p: Path)
    requires p in h.open && h.open[p].file < |h.data|
    ensures Landed(h, p) == Some(Overlay(h.data[h.open[p].file], h.open[p].pos, h.open[p].pending))
  {
    assert h.open[p].pending[..|h.open[p].pending|] == h.open[p].pending;
  }

  /** When a stream passes its bytes on makes no difference in the end. */
  lemma FlushingLands(h: Host, p: Path, n: nat)
    requires p in h.open && h.open[p].file < |h.data|
    ensures Landed(Flushed(h, p, n), p) == Landed(h, p)
  {
    var s := h.open[p];
    var k := if n < |s.pending| then n else |s.pending|;
    assert s.pending[..k] + s.pending[k..] == s.pending && |s.pending[..k]| == k;
    OverlayTwice(h.data[s.file], s.pos, s.pending[..k], s.pending[k..]);
    ClosingLands(h, p);
    ClosingLands(Flushed(h, p, n), p);
  }

  lemma GivingLands(h: Host, p: Path, c: Chunk)
    requires p in h.open && h.open[p].file < |h.data|
    ensures Landed(h, p).Some?
    ensures Landed(Given(h, p, c), p) == Some(Overlay(Landed(h, p).value, h.open[p].pos + |h.open[p].pending|, c))
  {
    ClosingLands(h, p);
    ClosingLands(Given(h, p, c), p);
    OverlayTwice(h.data[h.open[p].file], h.open[p].pos, h.open[p].pending, c);
  }

  lemma WritingLands(h: Host, p: Path, c: Chunk, flush: nat)
    requires p in h.open && h.open[p].file < |h.data|
    ensures Landed(h, p).Some?
    ensures Landed(Perform(h, WriteChunk(p, c), flush), p) ==
      Some(Overlay(Landed(h, p).value, h.open[p].pos + |h.open[p].pending|, c))
  {
    FlushingLands(Given(h, p, c), p, flush);
    GivingLands(h, p, c);
  }

  lemma OverlayExtendsExactly(f: Chunk, pos: nat, c: Chunk)
    requires c != []
    ensures Overlay(f, pos, c) == f + c <==> pos == |f|
  {
    assert |f + c| == |f| + |c|;
  }

  lemma OpenWriteReachesExactly(h: Host, trace: seq<Event>, p: Path, c: Chunk, flush: nat)
    requires StreamTraced(h, trace, p) && p in h.open && c != []
    ensures Reached(h, Perform(h, WriteChunk(p, c), flush), p, c) <==> AtItsEnd(h, trace, p)
  {
    WritingLands(h, p, c, flush);
    OverlayExtendsExactly(Landed(h, p).value, Sent(trace, p), c);
  }

  /** A host that has not changed, or has no stream, was not reached. */
  lemma NothingReached(h: Host, p: Path, c: Chunk)
    requires c != []
    ensures !Reached(h, h, p, c)
    ensures p !in h.open ==> forall flush: nat :: Perform(h, WriteChunk(p, c), flush) == h
  {
    if Landed(h, p).Some? {
      assert |Landed(h, p).value + c| > |Landed(h, p).value|;
    }
  }

  /** In every run: a non-empty write that was reported as successful makes its stream's file longer by
      the chunk exactly when the callback did not throw (the trampoline swallows the exception and
      reports success); of the creates and closes of that path that did their work, the last was a
      create (otherwise the host has no stream to write to, and says nothing); and the file is, or
      will be, as long as what was written through the stream before (otherwise something else
      truncated or extended it, and the stream writes somewhere inside it or behind a gap). */
  lemma SuccessfulWriteReachesTheFileExactly(cancellable: bool, reporting: bool, disk: map<Path, nat>, data: seq<Chunk>,
                                             turns: seq<Turn>, s: Session, t: Turn)
    requires Leads(Start(cancellable, reporting, disk, data), turns, s)
    requires t.op.Write? && Enabled(s, t.op) && t.op.chunk != [] && ReplyTo(s, t).Done?
    ensures var p := s.writers[t.op.writer];
      (Reached(s.host, After(s, t).host, p, t.op.chunk) <==>
        !t.outcome.Swallowed? && StreamOpen(s.trace, p) && AtItsEnd(s.host, s.trace, p))
  {
    RunKeepsStreamsTraced(Start(cancellable, reporting, disk, data), turns, s);
    var p, c := s.writers[t.op.writer], t.op.chunk;
    assert StreamTraced(s.host, s.trace, p);
    if p in s.host.open && t.outcome.Applied? {
      OpenWriteReachesExactly(s.host, s.trace, p, c, t.flush);
    } else {
      NothingReached(s.host, p, c);
    }
  }

  /** What the trace tells of that condition: a stream is at the end of its file whenever the file has
      a name and the trace tells its content, which it does unless the file was created afresh or
      copied onto while a stream had it open. */
  lemma UndisturbedStreamIsAtItsEnd(cancellable: bool, reporting: bool, disk: map<Path, nat>, data: seq<Chunk>,
                                    turns: seq<Turn>, s: Session, q: Path)
    requires ProperDisk(disk, data)
    requires Leads(Start(cancellable, reporting, disk, data), turns, s)
    requires var r := Read(OfDisk(disk, data), s.trace); q in r.at && r.at[q].Some? && r.at[q].value in r.content
    ensures StreamOpen(s.trace, q) && AtItsEnd(s.host, s.trace, q)
    ensures Landed(s.host, q) == Some(Read(OfDisk(disk, data), s.trace).content[Read(OfDisk(disk, data), s.trace).at[q].value])
  {
    RunFromDisk(cancellable, reporting, disk, data, turns, s);
    RunKeepsStreamsTraced(Start(cancellable, reporting, disk, data), turns, s);
    var r := Read(OfDisk(disk, data), s.trace);
    var p := r.at[q].value;
    assert StreamTraced(s.host, s.trace, q) && ContentRead(s.host, r, p) && StreamOn(s.host, q, p);
    assert s.host.open[q].pending[..|s.host.open[q].pending|] == s.host.open[q].pending;
  }

  // ----- the library's account of the files -----

  /** The callback of an event whose reply told the library that it succeeded. */
  function Acknowledged(e: Event): Option<Callback> {
    if e.call.Some? && (e.reply.Done? || e.reply.Opened?) then Some(e.call.value.callback) else None
  }

  /** The content the library has reason to expect: the chunks whose write on that path was reported
      as successful, in order, since the create; renames and copies take it along. */
  function Reported(trace: seq<Event>, p: Path): Option<Chunk> {
    if trace == [] then None
    else
      var rest := trace[..|trace| - 1];
      var before := Reported(rest, p);
      match Acknowledged(trace[|trace| - 1])
      case Some(CreateFile(q)) => if q == p then Some([]) else before
      case Some(WriteChunk(q, c)) => if q == p && before.Some? then Some(before.value + c) else before
      case Some(RemoveFile(q)) => if q == p then None else before
      case Some(RenameFile(a, b)) => if p == b then Reported(rest, a) else if p == a then None else before
      case Some(CopyFile(a, b)) => if p == b then Reported(rest, a) else before
      case _ => before
  }

  ghost predicate Accounts(h: Host, trace: seq<Event>, p: Path) {
    Reported(trace, p).Some? ==> ComesTo(h, p, Reported(trace, p).value)
  }

  /** The library's account is true of every file. */
  ghost predicate ReportTrue(h: Host, trace: seq<Event>) {
    forall p :: Accounts(h, trace, p)
  }

  /** Of the files anything was reported of, the stream of path q has open the one named q and no
      other. */
  ghost predicate Harmless(h: Host, trace: seq<Event>, q: Path) {
    forall p :: Reported(trace, p).Some? ==> (StreamOn(h, q, p) <==> p == q)
  }

  /** What a callback must not do for the account to stay true: create a file, or copy onto or from
      one, that a stream has open; write a file other than it is reported to write. */
  ghost predicate Allowed(h: Host, trace: seq<Event>, cb: Callback) {
    match cb
    case CreateFile(q) => !OnFile(h, q)
    case WriteChunk(q, _) => Harmless(h, trace, q)
    case CopyFile(a, b) => a == b || Reported(trace, a).None? || (!OnFile(h, a) && !OnFile(h, b))
    case _ => true
  }

  /** What the library must not ask for: a second writer on a path, and what is not allowed. */
  ghost predicate Disciplined(s: Session, op: Op)
    requires Enabled(s, op)
  {
    && (op.Create? ==> forall w :: w in s.writers ==> s.writers[w] != HostPath(op.path))
    && (CallbackOf(s, op).Some? ==> Allowed(s.host, s.trace, CallbackOf(s, op).value))
  }

  /** The callbacks of this turn do not throw, and a close that is made succeeds. */
  predicate Honest(t: Turn) {
    !t.outcome.Swallowed? && (t.op.DropWriter? ==> t.outcome.Applied?)
  }

  ghost predicate LeadsHonestly(s: Session, turns: seq<Turn>, end: Session)
    decreases |turns|
  {
    if turns == [] then s == end
    else
      && Enabled(s, turns[0].op) && Disciplined(s, turns[0].op) && Honest(turns[0])
      && LeadsHonestly(After(s, turns[0]), turns[1..], end)
  }

  /** The open streams belong to the live writers, one each. */
  ghost predicate Match(open: set<Path>, writers: map<nat, Path>, next: nat) {
    && (forall w :: w in writers ==> w < next && writers[w] in open)
    && (forall v, w :: v in writers && w in writers && writers[v] == writers[w] ==> v == w)
    && (forall p :: p in open ==> exists w :: w in writers && writers[w] == p)
  }

  ghost predicate StreamsMatchWriters(s: Session) {
    Match(s.host.open.Keys, s.writers, s.next)
  }

  lemma OpenAfter(h: Host, cb: Callback, flush: nat)
    ensures Perform(h, cb, flush).open.Keys ==
      match cb
      case CreateFile(p) => h.open.Keys + {p}
      case CloseFile(p) => h.open.Keys - {p}
      case _ => h.open.Keys
  {
  }

  lemma MatchAdd(open: set<Path>, writers: map<nat, Path>, next: nat, p: Path)
    requires Match(open, writers, next) && forall w :: w in writers ==> writers[w] != p
    ensures Match(open + {p}, writers[next := p], next + 1)
  {
    var writers' := writers[next := p];
    forall q | q in open + {p} ensures exists w :: w in writers' && writers'[w] == q {
      if q in open {
        var w :| w in writers && writers[w] == q;
        assert w in writers' && writers'[w] == q;
      } else {
        assert next in writers' && writers'[next] == q;
      }
    }
  }

  lemma MatchDrop(open: set<Path>, writers: map<nat, Path>, next: nat, w: nat)
    requires Match(open, writers, next) && w in writers
    ensures Match(open - {writers[w]}, writers - {w}, next)
  {
    var writers' := writers - {w};
    forall q | q in open - {writers[w]} ensures exists v :: v in writers' && writers'[v] == q {
      var v :| v in writers && writers[v] == q;
      assert v in writers' && writers'[v] == q;
    }
  }

  lemma TurnKeepsStreams(s: Session, t: Turn)
    requires StreamsMatchWriters(s) && Enabled(s, t.op) && Disciplined(s, t.op) && Honest(t)
    ensures StreamsMatchWriters(After(s, t))
  {
    if CallOf(s, t).Some? {
      OpenAfter(s.host, CallOf(s, t).value.callback, t.flush);
    }
    if ReplyTo(s, t).Opened? {
      MatchAdd(s.host.open.Keys, s.writers, s.next, HostPath(t.op.path));
    } else if t.op.DropWriter? {
      MatchDrop(s.host.open.Keys, s.writers, s.next, t.op.writer);
    }
  }

  /** The callbacks that may change what is under a name. */
  predicate Alters(cb: Callback) {
    cb.CreateFile? || cb.WriteChunk? || cb.RemoveFile? || cb.RenameFile? || cb.CopyFile?
  }

  /** The library is told of such a callback what the host did. */
  predicate SeenAsDone(e: Event) {
    e.call.Some? && Alters(e.call.value.callback) ==> Acknowledged(e) == Effective(e)
  }

  lemma EventKeepsAccount(h: Host, trace: seq<Event>, e: Event, p: Path)
    requires Intact(h) && ReportTrue(h, trace) && SeenAsDone(e)
    requires Effective(e).Some? ==> Allowed(h, trace, Effective(e).value)
    ensures Accounts(HostAfter(h, e.call), trace + [e], p)
  {
    assert (trace + [e])[..|trace|] == trace;
    assert Accounts(h, trace, p);
    if Reported(trace + [e], p).Some? {
      match Effective(e)
      case Some(CreateFile(q)) => if p == q { CreatingGives(h, q); } else { CreatingKeeps(h, q, p, Reported(trace, p).value); }
      case Some(WriteChunk(q, c)) => WritingKeeps(h, q, c, e.call.value.flush, p, Reported(trace, p).value);
      case Some(CloseFile(q)) => ClosingKeeps(h, q, p, Reported(trace, p).value);
      case Some(RemoveFile(q)) => RemovingKeeps(h, q, p, Reported(trace, p).value);
      case Some(RenameFile(a, b)) => RenamingKeepsAccount(h, trace, e, a, b, p);
      case Some(CopyFile(a, b)) => CopyingKeepsAccount(h, trace, e, a, b, p);
      case _ =>
    }
  }

  lemma RenamingKeepsAccount(h: Host, trace: seq<Event>, e: Event, a: Path, b: Path, p: Path)
    requires Intact(h) && ReportTrue(h, trace) && Effective(e) == Acknowledged(e) == Some(RenameFile(a, b))
    ensures Accounts(HostAfter(h, e.call), trace + [e], p)
  {
    assert (trace + [e])[..|trace|] == trace;
    assert Accounts(h, trace, p) && Accounts(h, trace, a);
    if Reported(trace + [e], p).Some? {
      if p == b {
        RenamingMoves(h, a, b, Reported(trace, a).value);
      } else {
        RenamingKeeps(h, a, b, p, Reported(trace, p).value);
      }
    }
  }

  lemma CopyingKeepsAccount(h: Host, trace: seq<Event>, e: Event, a: Path, b: Path, p: Path)
    requires Intact(h) && ReportTrue(h, trace) && Effective(e) == Acknowledged(e) == Some(CopyFile(a, b))
    requires Allowed(h, trace, CopyFile(a, b))
    ensures Accounts(HostAfter(h, e.call), trace + [e], p)
  {
    assert (trace + [e])[..|trace|] == trace;
    assert Accounts(h, trace, p) && Accounts(h, trace, a);
    if Reported(trace + [e], p).Some? {
      if p == b && a != b {
        ComesToOnDisk(h, a, Reported(trace, a).value);
        CopyingGives(h, a, b);
      } else {
        CopyingKeeps(h, a, b, p, Reported(trace, p).value);
      }
    }
  }

  lemma TurnIsSeenAsDone(s: Session, t: Turn)
    requires Enabled(s, t.op) && Honest(t)
    ensures SeenAsDone(EventOf(s, t))
  {
  }

  lemma TurnKeepsReport(s: Session, t: Turn)
    requires Intact(s.host) && ReportTrue(s.host, s.trace) && Enabled(s, t.op) && Disciplined(s, t.op) && Honest(t)
    ensures ReportTrue(After(s, t).host, After(s, t).trace)
  {
    TurnIsSeenAsDone(s, t);
    forall p ensures Accounts(After(s, t).host, After(s, t).trace, p) {
      EventKeepsAccount(s.host, s.trace, EventOf(s, t), p);
    }
  }

  lemma {:induction false} RunKeepsAccount(s: Session, turns: seq<Turn>, end: Session, start: Reading)
    requires ReadsTrue(s.host, Read(start, s.trace)) && StreamsMatchWriters(s) && ReportTrue(s.host, s.trace)
    requires LeadsHonestly(s, turns, end)
    ensures ReadsTrue(end.host, Read(start, end.trace)) && StreamsMatchWriters(end) && ReportTrue(end.host, end.trace)
    decreases |turns|
  {
    if turns != [] {
      EventKeepsReading(s.host, start, s.trace, EventOf(s, turns[0]));
      TurnKeepsStreams(s, turns[0]);
      TurnKeepsReport(s, turns[0]);
      RunKeepsAccount(After(s, turns[0]), turns[1..], end, start);
    }
  }

  /** With a host that does not throw and a disciplined library, for every interleaving of writers and
      whenever the streams pass their bytes on: every path comes to hold exactly the chunks whose
      write on it was reported as successful, in order, since it was created, through renames and
      copies. On disk that is all of it when no stream has the file open, so for every path once all
      writers are dropped, and a beginning of it otherwise. And the open-file map has exactly the
      live writers' paths. */
  lemma FilesHoldTheChunksWritten(cancellable: bool, reporting: bool, disk: map<Path, nat>, data: seq<Chunk>,
                                  turns: seq<Turn>, end: Session, p: Path)
    requires ProperDisk(disk, data)
    requires LeadsHonestly(Start(cancellable, reporting, disk, data), turns, end)
    ensures Reported(end.trace, p).Some? ==> FileAt(end.host, p).Some? && FileAt(end.host, p).value <= Reported(end.trace, p).value
    ensures Reported(end.trace, p).Some? && !OnFile(end.host, p) ==> FileAt(end.host, p) == Reported(end.trace, p)
    ensures end.writers == map[] ==> !OnFile(end.host, p)
    ensures p in end.host.open <==> exists w :: w in end.writers && end.writers[w] == p
    ensures forall v, w :: v in end.writers && w in end.writers && end.writers[v] == end.writers[w] ==> v == w
  {
    DiskReadsTrue(disk, data);
    RunKeepsAccount(Start(cancellable, reporting, disk, data), turns, end, OfDisk(disk, data));
    assert Accounts(end.host, end.trace, p);
    if Reported(end.trace, p).Some? {
      ComesToOnDisk(end.host, p, Reported(end.trace, p).value);
    }
  }

  // ----- why the discipline is there -----

  lemma HarmfulWriteBreaksTruth(h: Host, trace: seq<Event>, e: Event, q: Path, c: Chunk)
    requires Intact(h) && ReportTrue(h, trace) && c != []
    requires Effective(e) == Acknowledged(e) == Some(WriteChunk(q, c))
    requires !Harmless(h, trace, q)
    ensures !ReportTrue(HostAfter(h, e.call), trace + [e])
  {
    var p :| Reported(trace, p).Some? && !(StreamOn(h, q, p) <==> p == q);
    var v := Reported(trace, p).value;
    assert (trace + [e])[..|trace|] == trace;
    assert |v + c| > |v|;
    assert Accounts(h, trace, p);
    WritingKeeps(h, q, c, e.call.value.flush, p, v);
    if Accounts(HostAfter(h, e.call), trace + [e], p) {
      ComesToOneContent(HostAfter(h, e.call), p, if StreamOn(h, q, p) then v + c else v, if p == q then v + c else v);
    }
  }

  /** In every run: a write that did its work and was reported keeps a true account true exactly when
      the host has open, under the writer's path, the file of that name and no other that anything
      was reported of. */
  lemma WriteKeepsReportExactly(cancellable: bool, reporting: bool, disk: map<Path, nat>, data: seq<Chunk>,
                                turns: seq<Turn>, s: Session, t: Turn)
    requires ProperDisk(disk, data)
    requires Leads(Start(cancellable, reporting, disk, data), turns, s)
    requires ReportTrue(s.host, s.trace) && t.op.Write? && Enabled(s, t.op)
    requires t.op.chunk != [] && t.outcome.Applied? && ReplyTo(s, t).Done?
    ensures ReportTrue(After(s, t).host, After(s, t).trace) <==> Harmless(s.host, s.trace, s.writers[t.op.writer])
  {
    RunFromDisk(cancellable, reporting, disk, data, turns, s);
    var q, e := s.writers[t.op.writer], EventOf(s, t);
    if Harmless(s.host, s.trace, q) {
      forall p ensures Accounts(After(s, t).host, After(s, t).trace, p) {
        EventKeepsAccount(s.host, s.trace, e, p);
      }
    } else {
      HarmfulWriteBreaksTruth(s.host, s.trace, e, q, t.op.chunk);
    }
  }
}
