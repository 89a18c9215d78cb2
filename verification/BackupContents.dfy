/** What reaches the host's files in a backup session. */
module BackupContents {
  import opened Prelude
  import opened BackupSession
  import opened BackupFiles

  // ----- reading the trace -----

  /** The callback of an event that did its work. */
  function Effective(e: Event): Option<Callback> {
    if e.call.Some? && e.call.value.outcome.Applied? then Some(e.call.value.callback) else None
  }

  /** What a trace tells of the host: which names there are; for each open stream, the name of the
      file it has open, if that has a name; and the content each file has or will have once its
      stream has passed everything on, as far as that can be told. */
  datatype Reading = Reading(names: set<Path>, at: map<Path, Option<Path>>, content: map<Path, Chunk>)

  /** A stream has the file of this name open. */
  ghost predicate Busy(r: Reading, p: Path) {
    exists q :: q in r.at && r.at[q] == Some(p)
  }

  function Set(content: map<Path, Chunk>, p: Path, v: Option<Chunk>): map<Path, Chunk> {
    if v.Some? then content[p := v.value] else content - {p}
  }

  function Known(r: Reading, p: Path): Option<Chunk> {
    if p in r.content then Some(r.content[p]) else None
  }

  /** One effective callback. The content of a file that is created or copied onto while a stream has
      it open cannot be told from then on, nor that of a copy made while a stream has the source
      open. */
  ghost function ReadingAfter(r: Reading, cb: Callback): Reading {
    match cb
    case CreateFile(p) =>
      Reading(r.names + {p}, r.at[p := Some(p)], Set(r.content, p, if Busy(r, p) then None else Some([])))
    case WriteChunk(q, c) =>
      if q in r.at && r.at[q].Some? && r.at[q].value in r.content then
        r.(content := r.content[r.at[q].value := r.content[r.at[q].value] + c])
      else r
    case CloseFile(q) => r.(at := r.at - {q})
    case RemoveFile(p) =>
      Reading(r.names - {p}, map q | q in r.at :: if r.at[q] == Some(p) then None else r.at[q], r.content - {p})
    case RenameFile(a, b) =>
      if a !in r.names || a == b then r
      else Reading(r.names - {a} + {b},
                   map q | q in r.at :: if r.at[q] == Some(a) then Some(b) else if r.at[q] == Some(b) then None else r.at[q],
                   Set(r.content, b, Known(r, a)) - {a})
    case CopyFile(a, b) =>
      if a !in r.names || a == b then r
      else r.(names := r.names + {b},
              content := Set(r.content, b, if Busy(r, a) || Busy(r, b) then None else Known(r, a)))
    case _ => r
  }

  ghost function Read(start: Reading, trace: seq<Event>): Reading {
    if trace == [] then start
    else
      var before := Read(start, trace[..|trace| - 1]);
      match Effective(trace[|trace| - 1])
      case None => before
      case Some(cb) => ReadingAfter(before, cb)
  }

  /** The disk a session starts on, where every content is known. */
  function OfDisk(disk: map<Path, nat>, data: seq<Chunk>): Reading {
    Reading(disk.Keys, map[], map p | p in disk && disk[p] < |data| :: data[disk[p]])
  }

  // ----- every event keeps the reading true -----

  ghost predicate NamesRead(h: Host, r: Reading) {
    && r.names == h.disk.Keys
    && r.at.Keys == h.open.Keys
    && (forall q, p :: StreamOn(h, q, p) <==> q in r.at && r.at[q] == Some(p))
  }

  ghost predicate ContentRead(h: Host, r: Reading, p: Path) {
    p in r.content ==> ComesTo(h, p, r.content[p])
  }

  ghost predicate ReadsTrue(h: Host, r: Reading) {
    Intact(h) && NamesRead(h, r) && forall p :: ContentRead(h, r, p)
  }

  lemma BusyIsOnFile(h: Host, r: Reading, p: Path)
    requires NamesRead(h, r)
    ensures Busy(r, p) <==> OnFile(h, p)
  {
    if q :| q in r.at && r.at[q] == Some(p) {
      assert StreamOn(h, q, p);
    }
    if q :| StreamOn(h, q, p) {
      assert q in r.at && r.at[q] == Some(p);
    }
  }

  lemma CallbackKeepsNames(h: Host, r: Reading, cb: Callback, flush: nat)
    requires Intact(h) && NamesRead(h, r)
    ensures Intact(Perform(h, cb, flush)) && NamesRead(Perform(h, cb, flush), ReadingAfter(r, cb))
  {
    match cb
    case CreateFile(q) => CreatingIsRead(h, r, q, flush);
    case WriteChunk(q, c) => WritingIsRead(h, r, q, c, flush);
    case CloseFile(q) => ClosingIsRead(h, r, q, flush);
    case RemoveFile(q) => RemovingIsRead(h, r, q, flush);
    case RenameFile(a, b) => RenamingIsRead(h, r, a, b, flush);
    case CopyFile(a, b) => CopyingIsRead(h, r, a, b, flush);
    case _ =>
  }

  lemma CreatingIsRead(h: Host, r: Reading, q: Path, flush: nat)
    requires Intact(h) && NamesRead(h, r)
    ensures Intact(Perform(h, CreateFile(q), flush))
    ensures NamesRead(Perform(h, CreateFile(q), flush), ReadingAfter(r, CreateFile(q)))
  {
    CreatingOpens(h, q);
  }

  lemma WritingIsRead(h: Host, r: Reading, q: Path, c: Chunk, flush: nat)
    requires Intact(h) && NamesRead(h, r)
    ensures Intact(Perform(h, WriteChunk(q, c), flush))
    ensures NamesRead(Perform(h, WriteChunk(q, c), flush), ReadingAfter(r, WriteChunk(q, c)))
  {
    WritingKeepsNames(h, q, c, flush);
  }

  lemma ClosingIsRead(h: Host, r: Reading, q: Path, flush: nat)
    requires Intact(h) && NamesRead(h, r)
    ensures Intact(Perform(h, CloseFile(q), flush))
    ensures NamesRead(Perform(h, CloseFile(q), flush), ReadingAfter(r, CloseFile(q)))
  {
    ClosingKeepsTheRest(h, q);
  }

  lemma CopyingIsRead(h: Host, r: Reading, a: Path, b: Path, flush: nat)
    requires Intact(h) && NamesRead(h, r)
    ensures Intact(Perform(h, CopyFile(a, b), flush))
    ensures NamesRead(Perform(h, CopyFile(a, b), flush), ReadingAfter(r, CopyFile(a, b)))
  {
    if a in h.disk {
      CopyingKeepsNames(h, a, b);
    }
  }

  lemma RemovingIsRead(h: Host, r: Reading, q: Path, flush: nat)
    requires Intact(h) && NamesRead(h, r)
    ensures Intact(Perform(h, RemoveFile(q), flush))
    ensures NamesRead(Perform(h, RemoveFile(q), flush), ReadingAfter(r, RemoveFile(q)))
  {
    RemovingNames(h, q);
  }

  lemma RenamingIsRead(h: Host, r: Reading, a: Path, b: Path, flush: nat)
    requires Intact(h) && NamesRead(h, r)
    ensures Intact(Perform(h, RenameFile(a, b), flush))
    ensures NamesRead(Perform(h, RenameFile(a, b), flush), ReadingAfter(r, RenameFile(a, b)))
  {
    if a in h.disk && a != b {
      RenamingNames(h, a, b);
    }
  }

  lemma WritingKeepsNames(h: Host, q: Path, c: Chunk, flush: nat)
    requires Intact(h)
    ensures var h' := Perform(h, WriteChunk(q, c), flush);
      && Intact(h') && h'.disk == h.disk && h'.open.Keys == h.open.Keys
      && forall r, p :: StreamOn(h', r, p) <==> StreamOn(h, r, p)
  {
  }

  lemma CopyingKeepsNames(h: Host, a: Path, b: Path)
    requires Intact(h) && a in h.disk
    ensures var h' := Perform(h, CopyFile(a, b), 0);
      && Intact(h') && h'.disk.Keys == h.disk.Keys + {b} && h'.open == h.open
      && forall r, p :: StreamOn(h', r, p) <==> StreamOn(h, r, p)
  {
    TruncatingKeepsIntact(h, b, h.data[h.disk[a]]);
  }

  lemma CallbackKeepsContent(h: Host, r: Reading, cb: Callback, flush: nat, p: Path)
    requires ReadsTrue(h, r)
    ensures ContentRead(Perform(h, cb, flush), ReadingAfter(r, cb), p)
  {
    assert ContentRead(h, r, p);
    if p in ReadingAfter(r, cb).content {
      match cb
      case CreateFile(q) => CreatingKeepsContent(h, r, q, p);
      case WriteChunk(q, c) => WritingKeeps(h, q, c, flush, p, r.content[p]);
      case CloseFile(q) => ClosingKeeps(h, q, p, r.content[p]);
      case RemoveFile(q) => RemovingKeeps(h, q, p, r.content[p]);
      case RenameFile(a, b) => RenamingKeepsContent(h, r, a, b, p);
      case CopyFile(a, b) => CopyingKeepsContent(h, r, a, b, p);
      case _ =>
    }
  }

  lemma CreatingKeepsContent(h: Host, r: Reading, q: Path, p: Path)
    requires ReadsTrue(h, r) && p in ReadingAfter(r, CreateFile(q)).content
    ensures ComesTo(Perform(h, CreateFile(q), 0), p, ReadingAfter(r, CreateFile(q)).content[p])
  {
    assert ContentRead(h, r, p);
    BusyIsOnFile(h, r, q);
    if p == q {
      CreatingGives(h, q);
    } else {
      CreatingKeeps(h, q, p, r.content[p]);
    }
  }

  lemma RenamingKeepsContent(h: Host, r: Reading, a: Path, b: Path, p: Path)
    requires ReadsTrue(h, r) && p in ReadingAfter(r, RenameFile(a, b)).content
    ensures ComesTo(Perform(h, RenameFile(a, b), 0), p, ReadingAfter(r, RenameFile(a, b)).content[p])
  {
    assert ContentRead(h, r, p) && ContentRead(h, r, a);
    if a in r.names && a != b {
      if p == b {
        RenamingMoves(h, a, b, r.content[a]);
      } else {
        RenamingKeeps(h, a, b, p, r.content[p]);
      }
    }
  }

  lemma CopyingKeepsContent(h: Host, r: Reading, a: Path, b: Path, p: Path)
    requires ReadsTrue(h, r) && p in ReadingAfter(r, CopyFile(a, b)).content
    ensures ComesTo(Perform(h, CopyFile(a, b), 0), p, ReadingAfter(r, CopyFile(a, b)).content[p])
  {
    assert ContentRead(h, r, p) && ContentRead(h, r, a);
    if p == b && a != b && a in r.names {
      BusyIsOnFile(h, r, a);
      BusyIsOnFile(h, r, b);
      ComesToOnDisk(h, a, r.content[a]);
      CopyingGives(h, a, b);
    } else if a in r.names {
      CopyingKeeps(h, a, b, p, r.content[p]);
    }
  }

  lemma EventKeepsReading(h: Host, start: Reading, trace: seq<Event>, e: Event)
    requires ReadsTrue(h, Read(start, trace))
    ensures ReadsTrue(HostAfter(h, e.call), Read(start, trace + [e]))
  {
    assert (trace + [e])[..|trace|] == trace;
    if Effective(e).Some? {
      var cb, flush := Effective(e).value, e.call.value.flush;
      CallbackKeepsNames(h, Read(start, trace), cb, flush);
      forall p ensures ContentRead(Perform(h, cb, flush), ReadingAfter(Read(start, trace), cb), p) {
        CallbackKeepsContent(h, Read(start, trace), cb, flush, p);
      }
    }
  }

  // ----- every run -----

  lemma {:induction false} RunKeepsReading(s: Session, turns: seq<Turn>, end: Session, start: Reading)
    requires ReadsTrue(s.host, Read(start, s.trace)) && Leads(s, turns, end)
    ensures ReadsTrue(end.host, Read(start, end.trace))
    decreases |turns|
  {
    if turns != [] {
      EventKeepsReading(s.host, start, s.trace, EventOf(s, turns[0]));
      RunKeepsReading(After(s, turns[0]), turns[1..], end, start);
    }
  }

  /** The disk a session starts on: names lead to distinct files. */
  ghost predicate ProperDisk(disk: map<Path, nat>, data: seq<Chunk>) {
    Intact(Host(map[], disk, data))
  }

  lemma DiskReadsTrue(disk: map<Path, nat>, data: seq<Chunk>)
    requires ProperDisk(disk, data)
    ensures ReadsTrue(Host(map[], disk, data), OfDisk(disk, data))
  {
    var h, r := Host(map[], disk, data), OfDisk(disk, data);
    assert forall q, p :: !StreamOn(h, q, p);
    forall p ensures ContentRead(h, r, p) {
    }
  }

  lemma RunFromDisk(cancellable: bool, reporting: bool, disk: map<Path, nat>, data: seq<Chunk>, turns: seq<Turn>, end: Session)
    requires ProperDisk(disk, data) && Leads(Start(cancellable, reporting, disk, data), turns, end)
    ensures ReadsTrue(end.host, Read(OfDisk(disk, data), end.trace))
  {
    DiskReadsTrue(disk, data);
    RunKeepsReading(Start(cancellable, reporting, disk, data), turns, end, OfDisk(disk, data));
  }

  /** What the reading says of the disk. */
  ghost predicate OnDiskAsRead(h: Host, r: Reading, p: Path) {
    && (p in r.names <==> FileAt(h, p).Some?)
    && (Busy(r, p) <==> OnFile(h, p))
    && (p in r.content ==> FileAt(h, p).Some? && FileAt(h, p).value <= r.content[p])
    && (p in r.content && !Busy(r, p) ==> FileAt(h, p) == Some(r.content[p]))
  }

  /** After every run, whatever the writers, the polls, the renames and copies, the host's answers
      and the moments its streams pass bytes on: the trace and the disk it started on tell exactly
      which names there are; and for every name whose content they tell, the file on disk has
      exactly that content if no stream has it open, and a beginning of it otherwise. */
  lemma FilesHoldWhatTheTraceTells(cancellable: bool, reporting: bool, disk: map<Path, nat>, data: seq<Chunk>,
                                   turns: seq<Turn>, end: Session, p: Path)
    requires ProperDisk(disk, data)
    requires Leads(Start(cancellable, reporting, disk, data), turns, end)
    ensures OnDiskAsRead(end.host, Read(OfDisk(disk, data), end.trace), p)
  {
    RunFromDisk(cancellable, reporting, disk, data, turns, end);
    var r := Read(OfDisk(disk, data), end.trace);
    BusyIsOnFile(end.host, r, p);
    assert ContentRead(end.host, r, p);
    if p in r.content {
      ComesToOnDisk(end.host, p, r.content[p]);
    }
  }

  /** Reading a file back through the delegate yields a beginning of its content, and all of it
      exactly when no bytes of it are pending in a stream, so whenever no stream has it open. */
  lemma ReadingBackIsExact(cancellable: bool, reporting: bool, disk: map<Path, nat>, data: seq<Chunk>,
                           turns: seq<Turn>, s: Session, t: Turn)
    requires ProperDisk(disk, data)
    requires Leads(Start(cancellable, reporting, disk, data), turns, s)
    requires t.op.OpenRead? && HostPath(t.op.path) in Read(OfDisk(disk, data), s.trace).content
    ensures Cancelled(s, t) || !t.outcome.Applied? ==> ReplyTo(s, t) == Failed
    ensures !Cancelled(s, t) && t.outcome.Applied? ==>
      var r, p := Read(OfDisk(disk, data), s.trace), HostPath(t.op.path);
      && ReplyTo(s, t).Content? && ReplyTo(s, t).bytes <= r.content[p]
      && (ReplyTo(s, t).bytes == r.content[p] <==> NothingPending(s.host, p))
      && (!Busy(r, p) ==> NothingPending(s.host, p))
  {
    var r, p := Read(OfDisk(disk, data), s.trace), HostPath(t.op.path);
    RunFromDisk(cancellable, reporting, disk, data, turns, s);
    assert ContentRead(s.host, r, p);
    ComesToOnDisk(s.host, p, r.content[p]);
    BusyIsOnFile(s.host, r, p);
  }

  lemma CopyIsBeginning(h: Host, r: Reading, a: Path, b: Path)
    requires ReadsTrue(h, r) && a in r.content && !Busy(r, b)
    ensures FileAt(h, a).Some? && FileAt(h, a).value <= r.content[a]
    ensures ComesTo(Perform(h, CopyFile(a, b), 0), b, FileAt(h, a).value)
    ensures FileAt(h, a).value == r.content[a] <==> NothingPending(h, a)
    ensures !Busy(r, a) ==> NothingPending(h, a)
  {
    assert ContentRead(h, r, a);
    ComesToOnDisk(h, a, r.content[a]);
    BusyIsOnFile(h, r, a);
    BusyIsOnFile(h, r, b);
    CopyingGives(h, a, b);
  }

  /** A copy to a name that no stream has open has a beginning of the source's content, for good; it
      has all of it exactly when no bytes of the source were pending, so whenever no stream had the
      source open. */
  lemma CopyingIsExact(cancellable: bool, reporting: bool, disk: map<Path, nat>, data: seq<Chunk>,
                       turns: seq<Turn>, s: Session, a: Path, b: Path) returns (copied: Chunk)
    requires ProperDisk(disk, data)
    requires Leads(Start(cancellable, reporting, disk, data), turns, s)
    requires var r := Read(OfDisk(disk, data), s.trace); a in r.content && !Busy(r, b)
    ensures ComesTo(Perform(s.host, CopyFile(a, b), 0), b, copied)
    ensures var r := Read(OfDisk(disk, data), s.trace);
      && copied <= r.content[a]
      && (copied == r.content[a] <==> NothingPending(s.host, a))
      && (!Busy(r, a) ==> NothingPending(s.host, a))
  {
    RunFromDisk(cancellable, reporting, disk, data, turns, s);
    CopyIsBeginning(s.host, Read(OfDisk(disk, data), s.trace), a, b);
    copied := FileAt(s.host, a).value;
  }
}
