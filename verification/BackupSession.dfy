/** What a backup session does, as a state machine: the library's delegate calls and writer
    operations, the host callbacks they lead to, and the host's files
    (ffi/src/mobilebackup2.rs, cpp/src/mobilebackup2.cpp, cpp/examples/mobilebackup2.cpp). */
module BackupSession {
  import opened Prelude

  type Path = string
  type Chunk = seq<byte>

  // ----- the host -----

  /** An open std::ofstream: the file it has open, where in it the next byte will be written, and
      the bytes it was given but has not passed on yet. */
  datatype Stream = Stream(file: nat, pos: nat, pending: Chunk)

  /** The host's files: `open` is g_open_files, `disk` names the files, `data` holds their bytes.
      An open stream keeps its file even when the name is taken away. */
  datatype Host = Host(open: map<Path, Stream>, disk: map<Path, nat>, data: seq<Chunk>)

  datatype Callback =
    | CreateFile(path: Path)
    | WriteChunk(path: Path, chunk: Chunk)
    | CloseFile(path: Path)
    | CreateDirAll(path: Path)
    | RemoveFile(path: Path)
    | RenameFile(from: Path, to: Path)
    | CopyFile(src: Path, dst: Path)
    | OpenFileRead(path: Path)
    | FreeDiskSpace(path: Path)
    | Exists(path: Path)
    | IsDir(path: Path)
    | OnProgress

  function FileAt(h: Host, p: Path): Option<Chunk> {
    if p in h.disk && h.disk[p] < |h.data| then Some(h.data[h.disk[p]]) else None
  }

  /** Opening for writing truncates the file of that name, or makes one. */
  function Truncated(h: Host, p: Path, content: Chunk): (r: Host)
    ensures FileAt(r, p) == Some(content) && r.open == h.open
  {
    if FileAt(h, p).Some? then h.(data := h.data[h.disk[p] := content])
    else h.(disk := h.disk[p := |h.data|], data := h.data + [content])
  }

  /** Writing bytes at a position: what is there is overwritten, and a gap is filled with zeros. */
  function Overlay(content: Chunk, pos: nat, bytes: Chunk): (r: Chunk)
    ensures pos == |content| ==> r == content + bytes
    ensures bytes != [] ==> |r| == if |content| < pos + |bytes| then pos + |bytes| else |content|
  {
    if bytes == [] then content
    else
      var padded := if |content| < pos then content + seq(pos - |content|, _ => 0) else content;
      padded[..pos] + bytes + if pos + |bytes| < |content| then content[pos + |bytes|..] else []
  }

  /** The stream of the path passes its first `n` pending bytes on, or all when it has fewer. */
  function Flushed(h: Host, p: Path, n: nat): (r: Host)
    ensures r.disk == h.disk && |r.data| == |h.data| && r.open.Keys == h.open.Keys
  {
    if p in h.open && h.open[p].file < |h.data| then
      var s := h.open[p];
      var k := if n < |s.pending| then n else |s.pending|;
      h.(open := h.open[p := Stream(s.file, s.pos + k, s.pending[k..])],
         data := h.data[s.file := Overlay(h.data[s.file], s.pos, s.pending[..k])])
    else h
  }

  /** Closing a stream passes everything on first. */
  function Closed(h: Host, p: Path): (r: Host)
    ensures r.disk == h.disk && |r.data| == |h.data| && r.open.Keys == h.open.Keys - {p}
  {
    if p in h.open then
      var h' := Flushed(h, p, |h.open[p].pending|);
      h'.(open := h'.open - {p})
    else h
  }

  /** The path's stream is given a chunk. */
  function Given(h: Host, p: Path, c: Chunk): Host {
    if p in h.open then h.(open := h.open[p := h.open[p].(pending := h.open[p].pending + c)]) else h
  }

  /** A callback that does its work. Creating truncates the file before the path's old stream, if it
      has one, is closed; a write passes on as many bytes as the stream sees fit. */
  function Perform(h: Host, cb: Callback, flush: nat): Host {
    match cb
    case CreateFile(p) =>
      var h' := Closed(Truncated(h, p, []), p);
      h'.(open := h'.open[p := Stream(h'.disk[p], 0, [])])
    case WriteChunk(p, c) => Flushed(Given(h, p, c), p, flush)
    case CloseFile(p) => Closed(h, p)
    case RemoveFile(p) => h.(disk := h.disk - {p})
    case RenameFile(a, b) => if a in h.disk && a != b then h.(disk := (h.disk - {a})[b := h.disk[a]]) else h
    case CopyFile(a, b) => if FileAt(h, a).Some? then Truncated(h, b, FileAt(h, a).value) else h
    case _ => h
  }

  /** How a callback ends: it does its work and reports success; it does nothing and reports an
      error (a C host); it throws before doing anything, and the C++ trampoline reports success
      (except for open_file_read, whose trampoline turns a throw into an error). */
  datatype Outcome = Applied | Refused | Swallowed

  // ----- the session -----

  datatype Op =
    | Create(path: Path)
    | Write(writer: nat, chunk: Chunk)
    | DropWriter(writer: nat)
    | CreateDir(path: Path)
    | Remove(path: Path)
    | Rename(from: Path, to: Path)
    | Copy(src: Path, dst: Path)
    | OpenRead(path: Path)
    | AskFreeSpace(path: Path)
    | AskExists(path: Path)
    | AskIsDir(path: Path)
    | ListDir(path: Path)
    | Progress

  datatype DirEntry = DirEntry(name: string, isDir: bool, isFile: bool, size: nat, modified: Option<int>)

  /** One operation with what the environment contributes: the answer of the cancellation
      callback, should it be asked; how the host callback ends, should it be made; how many bytes
      the stream passes on, should it be a write; the value a query returns; and what reading a
      directory yields, where an entry whose metadata cannot be had is `None` and so is a directory
      that cannot be read. */
  datatype Turn = Turn(
    op: Op, poll: bool, outcome: Outcome, flush: nat, answer: nat, listing: Option<seq<Option<DirEntry>>>)

  datatype Reply =
    | Done
    | Failed
    | Opened(writer: nat)
    | Answer(value: nat)
    | Content(bytes: Chunk)
    | Entries(entries: seq<DirEntry>)

  datatype Call = Call(callback: Callback, outcome: Outcome, flush: nat)

  /** What one operation came to: the poll, if there was one; the host callback, if one was made;
      the writer it was made for (for a create, the number the writer gets); and the reply. */
  datatype Event = Event(op: Op, poll: Option<bool>, call: Option<Call>, writer: Option<nat>, reply: Reply)

  datatype Session = Session(
    host: Host,
    writers: map<nat, Path>,        // the live writers, with the host path of each
    next: nat,                      // writers below `next` have been handed out
    trace: seq<Event>,
    cancellable: bool,              // the optional cancellation callback is present
    reporting: bool)                // the optional progress callback is present

  predicate Enabled(s: Session, op: Op) {
    match op
    case Write(w, _) => w in s.writers
    case DropWriter(w) => w in s.writers
    case _ => true
  }

  /** Every operation asks the cancellation callback first, except dropping a writer. */
  predicate Asks(s: Session, op: Op) {
    s.cancellable && !op.DropWriter?
  }

  predicate Cancelled(s: Session, t: Turn) {
    Asks(s, t.op) && t.poll
  }

  /** path_to_cstring: a path that holds a NUL becomes the empty one. */
  function HostPath(p: Path): Path {
    if NulFree(p) then p else ""
  }

  /** The host callback an operation leads to when it is not cancelled. Listing a directory reads
      the file system directly. */
  function CallbackOf(s: Session, op: Op): Option<Callback>
    requires Enabled(s, op)
  {
    match op
    case Create(p) => Some(CreateFile(HostPath(p)))
    case Write(w, c) => Some(WriteChunk(s.writers[w], c))
    case DropWriter(w) => Some(CloseFile(s.writers[w]))
    case CreateDir(p) => Some(CreateDirAll(HostPath(p)))
    case Remove(p) => Some(RemoveFile(HostPath(p)))
    case Rename(a, b) => Some(RenameFile(HostPath(a), HostPath(b)))
    case Copy(a, b) => Some(CopyFile(HostPath(a), HostPath(b)))
    case OpenRead(p) => Some(OpenFileRead(HostPath(p)))
    case AskFreeSpace(p) => Some(FreeDiskSpace(HostPath(p)))
    case AskExists(p) => Some(Exists(HostPath(p)))
    case AskIsDir(p) => Some(IsDir(HostPath(p)))
    case ListDir(_) => None
    case Progress => if s.reporting then Some(OnProgress) else None
  }

  function PollOf(s: Session, t: Turn): Option<bool> {
    if Asks(s, t.op) then Some(t.poll) else None
  }

  function CallOf(s: Session, t: Turn): Option<Call>
    requires Enabled(s, t.op)
  {
    if Cancelled(s, t) then None
    else match CallbackOf(s, t.op) case None => None case Some(cb) => Some(Call(cb, t.outcome, t.flush))
  }

  function WriterOf(s: Session, op: Op): Option<nat> {
    match op
    case Create(_) => Some(s.next)
    case Write(w, _) => Some(w)
    case DropWriter(w) => Some(w)
    case _ => None
  }

  predicate IsQuery(op: Op) {
    op.AskFreeSpace? || op.AskExists? || op.AskIsDir?
  }

  /** A listing is complete or nothing: one entry that cannot be read fails it. */
  function Gathered(listing: seq<Option<DirEntry>>): Option<seq<DirEntry>> {
    if listing == [] then Some([])
    else match (listing[0], Gathered(listing[1..]))
      case (Some(e), Some(es)) => Some([e] + es)
      case _ => None
  }

  /** The reply of a cancelled operation. */
  function CancelledReply(op: Op): Reply {
    if IsQuery(op) then Answer(0) else if op.DropWriter? || op.Progress? then Done else Failed
  }

  function ReplyTo(s: Session, t: Turn): Reply {
    if Cancelled(s, t) then CancelledReply(t.op)
    else match t.op
      case DropWriter(_) => Done
      case Progress => Done
      case ListDir(_) => (
        match t.listing
        case None => Failed
        case Some(l) => match Gathered(l) case None => Failed case Some(es) => Entries(es))
      case OpenRead(p) =>
        if t.outcome.Applied? && FileAt(s.host, HostPath(p)).Some? then Content(FileAt(s.host, HostPath(p)).value) else Failed
      case Create(_) => if t.outcome.Refused? then Failed else Opened(s.next)
      case _ => if IsQuery(t.op) then Answer(t.answer) else if t.outcome.Refused? then Failed else Done
  }

  function EventOf(s: Session, t: Turn): Event
    requires Enabled(s, t.op)
  {
    Event(t.op, PollOf(s, t), CallOf(s, t), WriterOf(s, t.op), ReplyTo(s, t))
  }

  function HostAfter(h: Host, call: Option<Call>): Host {
    match call
    case None => h
    case Some(c) => if c.outcome.Applied? then Perform(h, c.callback, c.flush) else h
  }

  function WritersAfter(s: Session, t: Turn): map<nat, Path> {
    if ReplyTo(s, t).Opened? && t.op.Create? then s.writers[s.next := HostPath(t.op.path)]
    else if t.op.DropWriter? then s.writers - {t.op.writer}
    else s.writers
  }

  function After(s: Session, t: Turn): Session
    requires Enabled(s, t.op)
  {
    s.(host := HostAfter(s.host, CallOf(s, t)),
       writers := WritersAfter(s, t),
       next := if ReplyTo(s, t).Opened? then s.next + 1 else s.next,
       trace := s.trace + [EventOf(s, t)])
  }

  function Start(cancellable: bool, reporting: bool, disk: map<Path, nat>, data: seq<Chunk>): Session {
    Session(Host(map[], disk, data), map[], 0, [], cancellable, reporting)
  }

  ghost predicate Leads(s: Session, turns: seq<Turn>, end: Session)
    decreases |turns|
  {
    if turns == [] then s == end
    else Enabled(s, turns[0].op) && Leads(After(s, turns[0]), turns[1..], end)
  }

  lemma {:induction false} LeadsSnoc(s: Session, turns: seq<Turn>, mid: Session, t: Turn)
    requires Leads(s, turns, mid) && Enabled(mid, t.op)
    ensures Leads(s, turns + [t], After(mid, t))
    decreases |turns|
  {
    if turns == [] {
      assert [t][1..] == [] && [] + [t] == [t];
    } else {
      assert (turns + [t])[1..] == turns[1..] + [t];
      LeadsSnoc(After(s, turns[0]), turns[1..], mid, t);
    }
  }

  // ----- every writer is closed exactly once -----

  /** The create that handed writer w out. */
  predicate HandsOut(e: Event, w: nat) {
    e.call.Some? && e.call.value.callback.CreateFile? && !e.call.value.outcome.Refused? && e.writer == Some(w)
  }

  /** A close made for writer w. */
  predicate ClosesWriter(e: Event, w: nat) {
    e.call.Some? && e.call.value.callback.CloseFile? && e.writer == Some(w)
  }

  /** Successful creates for writer w in the trace. */
  function Creates(trace: seq<Event>, w: nat): nat {
    if trace == [] then 0
    else Creates(trace[..|trace| - 1], w) + if HandsOut(trace[|trace| - 1], w) then 1 else 0
  }

  /** close_file calls for writer w in the trace. */
  function Closes(trace: seq<Event>, w: nat): nat {
    if trace == [] then 0
    else Closes(trace[..|trace| - 1], w) + if ClosesWriter(trace[|trace| - 1], w) then 1 else 0
  }

  /** The host path writer w was last created on. */
  function CreatedOn(trace: seq<Event>, w: nat): Option<Path> {
    if trace == [] then None
    else if HandsOut(trace[|trace| - 1], w) then Some(trace[|trace| - 1].call.value.callback.path)
    else CreatedOn(trace[..|trace| - 1], w)
  }

  /** On the trace alone: writer w was created once if it was handed out, closed never while it
      lives and once when it is gone; and it is the path it was created on that it lives under. */
  ghost predicate WriterAccounted(s: Session, w: nat) {
    && Creates(s.trace, w) == (if w < s.next then 1 else 0)
    && Closes(s.trace, w) == (if w < s.next && w !in s.writers then 1 else 0)
    && (w in s.writers ==> w < s.next && CreatedOn(s.trace, w) == Some(s.writers[w]))
  }

  ghost predicate Accounted(s: Session) {
    forall w: nat :: WriterAccounted(s, w)
  }

  /** A close is made under the path its writer was created on, earlier in the trace. */
  ghost predicate ClosesWhatItOpened(trace: seq<Event>) {
    forall j, w: nat :: 0 <= j < |trace| && ClosesWriter(trace[j], w) ==>
      CreatedOn(trace[..j], w) == Some(trace[j].call.value.callback.path)
  }

  lemma TurnKeepsAccount(s: Session, t: Turn, w: nat)
    requires Accounted(s) && Enabled(s, t.op)
    ensures WriterAccounted(After(s, t), w)
  {
    var e := EventOf(s, t);
    assert WriterAccounted(s, w) && WriterAccounted(s, s.next);
    assert (s.trace + [e])[..|s.trace|] == s.trace;
  }

  lemma TurnKeepsClosing(s: Session, t: Turn)
    requires Accounted(s) && ClosesWhatItOpened(s.trace) && Enabled(s, t.op)
    ensures ClosesWhatItOpened(After(s, t).trace)
  {
    var trace := s.trace + [EventOf(s, t)];
    forall j, w: nat | 0 <= j < |trace| && ClosesWriter(trace[j], w)
      ensures CreatedOn(trace[..j], w) == Some(trace[j].call.value.callback.path)
    {
      assert WriterAccounted(s, w);
      if j < |s.trace| {
        assert trace[..j] == s.trace[..j] && trace[j] == s.trace[j];
      } else {
        assert trace[..j] == s.trace;
      }
    }
  }

  /** In every run, whatever the polls and the host answer, and read off the trace alone: each
      writer handed out was created once, is closed never while it lives and exactly once when it
      is gone, always under the path it was created on; and nothing else is ever closed. */
  lemma {:induction false} EveryWriterClosedExactlyOnce(s: Session, turns: seq<Turn>, end: Session)
    requires Accounted(s) && ClosesWhatItOpened(s.trace) && Leads(s, turns, end)
    ensures Accounted(end) && ClosesWhatItOpened(end.trace)
    ensures end.writers == map[] ==> forall w: nat :: Closes(end.trace, w) == Creates(end.trace, w)
    decreases |turns|
  {
    if turns != [] {
      forall w: nat ensures WriterAccounted(After(s, turns[0]), w) {
        TurnKeepsAccount(s, turns[0], w);
      }
      TurnKeepsClosing(s, turns[0]);
      EveryWriterClosedExactlyOnce(After(s, turns[0]), turns[1..], end);
    } else {
      assert forall w: nat :: WriterAccounted(end, w) ==> (end.writers == map[] ==> Closes(end.trace, w) == Creates(end.trace, w));
    }
  }

  // ----- every operation makes its own callback -----

  /** The path the host is told for a path of the library: the same, or the empty one for a path that
      holds a NUL. */
  predicate SaidAs(given: Path, told: Path) {
    if NulFree(given) then told == given else told == ""
  }

  /** The callback is the one of the operation; a writer's is made under the path it was created on,
      earlier in the trace. */
  ghost predicate CallFits(before: seq<Event>, op: Op, cb: Callback) {
    match op
    case Create(p) => cb.CreateFile? && SaidAs(p, cb.path)
    case Write(w, c) => cb.WriteChunk? && cb.chunk == c && CreatedOn(before, w) == Some(cb.path)
    case DropWriter(w) => cb.CloseFile? && CreatedOn(before, w) == Some(cb.path)
    case CreateDir(p) => cb.CreateDirAll? && SaidAs(p, cb.path)
    case Remove(p) => cb.RemoveFile? && SaidAs(p, cb.path)
    case Rename(a, b) => cb.RenameFile? && SaidAs(a, cb.from) && SaidAs(b, cb.to)
    case Copy(a, b) => cb.CopyFile? && SaidAs(a, cb.src) && SaidAs(b, cb.dst)
    case OpenRead(p) => cb.OpenFileRead? && SaidAs(p, cb.path)
    case AskFreeSpace(p) => cb.FreeDiskSpace? && SaidAs(p, cb.path)
    case AskExists(p) => cb.Exists? && SaidAs(p, cb.path)
    case AskIsDir(p) => cb.IsDir? && SaidAs(p, cb.path)
    case ListDir(_) => false
    case Progress => cb.OnProgress?
  }

  /** The reply tells how the operation went. */
  predicate ReplyFits(e: Event) {
    if e.poll == Some(true) then
      if IsQuery(e.op) then e.reply == Answer(0) else e.reply == if e.op.Progress? then Done else Failed
    else
      match e.op
      case DropWriter(_) => e.reply.Done?
      case Progress => e.reply.Done?
      case ListDir(_) => e.reply.Entries? || e.reply.Failed?
      case _ =>
        e.call.Some? &&
        var refused := e.call.value.outcome.Refused?;
        match e.op
        case Create(_) => e.writer.Some? && e.reply == if refused then Failed else Opened(e.writer.value)
        case OpenRead(_) => e.reply.Failed? || (e.reply.Content? && e.call.value.outcome.Applied?)
        case _ => if IsQuery(e.op) then e.reply.Answer? else e.reply == if refused then Failed else Done
  }

  /** One event in order: the poll is made when there is a callback for it, except for a drop; unless it
      is answered with true, the operation's own callback is made, and no other; and the reply fits. */
  ghost predicate InOrder(before: seq<Event>, e: Event, cancellable: bool, reporting: bool) {
    && (e.poll.Some? <==> cancellable && !e.op.DropWriter?)
    && (e.call.Some? <==> e.poll != Some(true) && !e.op.ListDir? && (e.op.Progress? ==> reporting))
    && (e.call.Some? ==> CallFits(before, e.op, e.call.value.callback))
    && ReplyFits(e)
  }

  ghost predicate AllInOrder(s: Session) {
    forall i :: 0 <= i < |s.trace| ==> InOrder(s.trace[..i], s.trace[i], s.cancellable, s.reporting)
  }

  lemma TurnInOrder(s: Session, t: Turn)
    requires Accounted(s) && Enabled(s, t.op)
    ensures InOrder(s.trace, EventOf(s, t), s.cancellable, s.reporting)
  {
    if t.op.Write? || t.op.DropWriter? {
      assert WriterAccounted(s, t.op.writer);
    }
  }

  /** In every run, whatever the polls and the host answer: every operation polls, makes its own callback
      with its own arguments unless it is cancelled, and replies accordingly. */
  lemma {:induction false} EveryOperationMakesItsCallback(s: Session, turns: seq<Turn>, end: Session)
    requires Accounted(s) && AllInOrder(s) && Leads(s, turns, end)
    ensures AllInOrder(end)
    decreases |turns|
  {
    if turns != [] {
      var s' := After(s, turns[0]);
      TurnInOrder(s, turns[0]);
      forall i | 0 <= i < |s'.trace| ensures InOrder(s'.trace[..i], s'.trace[i], s'.cancellable, s'.reporting) {
        if i < |s.trace| {
          assert s'.trace[..i] == s.trace[..i] && s'.trace[i] == s.trace[i];
        } else {
          assert s'.trace[..i] == s.trace;
        }
      }
      forall w: nat ensures WriterAccounted(s', w) {
        TurnKeepsAccount(s, turns[0], w);
      }
      EveryOperationMakesItsCallback(s', turns[1..], end);
    }
  }

  // ----- every create is closed -----

  /** What an event does to the number of streams the host has been made to open on a path. */
  function Effect(e: Event, p: Path): int {
    match e.call
    case None => 0
    case Some(c) => if c.callback == CreateFile(p) && !c.outcome.Refused? then 1 else if c.callback == CloseFile(p) then -1 else 0
  }

  /** Successful creates on the path minus closes on it, read off the trace alone. */
  function Unclosed(trace: seq<Event>, p: Path): int {
    if trace == [] then 0 else Unclosed(trace[..|trace| - 1], p) + Effect(trace[|trace| - 1], p)
  }

  ghost function WritersOn(writers: map<nat, Path>, p: Path): set<nat> {
    set w | w in writers && writers[w] == p
  }

  lemma WriterAdded(writers: map<nat, Path>, w: nat, q: Path, p: Path)
    requires w !in writers
    ensures |WritersOn(writers[w := q], p)| == |WritersOn(writers, p)| + if q == p then 1 else 0
  {
    assert WritersOn(writers[w := q], p) == WritersOn(writers, p) + if q == p then {w} else {};
  }

  lemma WriterDropped(writers: map<nat, Path>, w: nat, p: Path)
    requires w in writers
    ensures |WritersOn(writers - {w}, p)| == |WritersOn(writers, p)| - if writers[w] == p then 1 else 0
  {
    assert WritersOn(writers - {w}, p) == WritersOn(writers, p) - if writers[w] == p then {w} else {};
  }

  /** Every successful create on the path has been matched by a close, but for those whose writer
      is still live. */
  ghost predicate Balanced(trace: seq<Event>, writers: map<nat, Path>, p: Path) {
    Unclosed(trace, p) == |WritersOn(writers, p)|
  }

  lemma TurnKeepsBalance(s: Session, t: Turn, p: Path)
    requires s.next !in s.writers && Enabled(s, t.op) && Balanced(s.trace, s.writers, p)
    ensures Balanced(s.trace + [EventOf(s, t)], WritersAfter(s, t), p)
  {
    assert (s.trace + [EventOf(s, t)])[..|s.trace|] == s.trace;
    if ReplyTo(s, t).Opened? && t.op.Create? {
      WriterAdded(s.writers, s.next, HostPath(t.op.path), p);
    } else if t.op.DropWriter? {
      WriterDropped(s.writers, t.op.writer, p);
    }
  }

  /** In every run, and for every path: the host has seen as many closes as successful creates,
      but for the writers still live; so once all are dropped each create was closed once. */
  lemma {:induction false} EveryCreateIsClosed(s: Session, turns: seq<Turn>, end: Session, p: Path)
    requires Accounted(s) && Balanced(s.trace, s.writers, p) && Leads(s, turns, end)
    ensures Balanced(end.trace, end.writers, p)
    ensures end.writers == map[] ==> Unclosed(end.trace, p) == 0
    decreases |turns|
  {
    if turns != [] {
      assert WriterAccounted(s, s.next);
      TurnKeepsBalance(s, turns[0], p);
      forall w: nat ensures WriterAccounted(After(s, turns[0]), w) {
        TurnKeepsAccount(s, turns[0], w);
      }
      EveryCreateIsClosed(After(s, turns[0]), turns[1..], end, p);
    } else if end.writers == map[] {
      assert WritersOn(end.writers, p) == {};
    }
  }

  // ----- cancellation -----

  /** All that may still happen once the session is cancelled: a close, and replies that say
      nothing. */
  predicate Quiet(e: Event) {
    && (e.call.Some? ==> e.call.value.callback.CloseFile?)
    && e.reply == CancelledReply(e.op)
  }

  /** From the first poll that was answered with true on, all is quiet. */
  ghost predicate QuietAfterCancel(trace: seq<Event>) {
    forall i, j :: 0 <= i <= j < |trace| && trace[i].poll == Some(true) ==> Quiet(trace[j])
  }

  /** The cancellation callback never takes a true back. */
  ghost predicate Latched(turns: seq<Turn>) {
    forall i, j :: 0 <= i < j < |turns| && turns[i].poll && !turns[i].op.DropWriter? ==> turns[j].poll
  }

  ghost predicate AllCancelled(turns: seq<Turn>) {
    forall i :: 0 <= i < |turns| ==> turns[i].poll
  }

  /** A run in which every poll is answered with true leaves a quiet trace, hands out no writer,
      changes no name and makes no file. */
  lemma {:induction false} CancelledRunIsQuiet(s: Session, turns: seq<Turn>, end: Session)
    requires s.cancellable && AllCancelled(turns) && Leads(s, turns, end)
    ensures |s.trace| <= |end.trace| && end.trace[..|s.trace|] == s.trace
    ensures forall j :: |s.trace| <= j < |end.trace| ==> Quiet(end.trace[j])
    ensures end.next == s.next && end.host.disk == s.host.disk && |end.host.data| == |s.host.data|
    decreases |turns|
  {
    if turns != [] {
      var s' := After(s, turns[0]);
      CancelledRunIsQuiet(s', turns[1..], end);
      assert end.trace[|s.trace|] == s'.trace[|s.trace|] == EventOf(s, turns[0]);
    }
  }

  /** In every run with a latching callback: from the first poll answered with true on, no host
      callback but close_file is made, every fallible operation fails, every query is answered with
      0 or false, and so no writer is handed out. */
  lemma {:induction false} CancellationSilencesTheHost(s: Session, turns: seq<Turn>, end: Session)
    requires s.cancellable && Latched(turns) && Leads(s, turns, end)
    requires forall i :: 0 <= i < |s.trace| ==> s.trace[i].poll != Some(true)
    ensures QuietAfterCancel(end.trace)
    decreases |turns|
  {
    if turns != [] {
      var t := turns[0];
      var s' := After(s, t);
      if Cancelled(s, t) {
        CancelledRunIsQuiet(s, turns, end);
        assert forall i :: 0 <= i < |s.trace| ==> end.trace[i] == s.trace[i];
      } else {
        CancellationSilencesTheHost(s', turns[1..], end);
      }
    }
  }
}
