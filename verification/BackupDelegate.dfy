/** The code of a backup session: the host program's file table, the delegate that polls for
    cancellation before every callback, the writer object, and a library that uses them. Every
    operation is proved to take the step of the session that BackupSession describes and to return
    the reply it describes, and so every use of the objects is a run of the session. */
module BackupDelegates {
  import opened Prelude
  import opened BackupSession
  import opened BackupFiles
  import opened BackupContents

  /** The host program: g_open_files over the files on disk (cpp/examples/mobilebackup2.cpp). */
  class HostFiles {
    var open: map<Path, Stream>
    var disk: map<Path, nat>
    var data: seq<Chunk>

    constructor (disk: map<Path, nat>, data: seq<Chunk>)
      ensures View() == Host(map[], disk, data)
    {
      open, this.disk, this.data := map[], disk, data;
    }

    ghost function View(): Host
      reads this
    {
      Host(open, disk, data)
    }

    /** std::ofstream(path, trunc), or the default mode followed by one write: the path names a file
        with just this content, and nothing else has changed. */
    method OpenTruncated(path: Path, content: Chunk) returns (file: nat)
      modifies this`disk, this`data
      ensures FileAt(View(), path) == Some(content) && file == disk[path]
      ensures FileAt(old(View()), path).Some? ==> disk == old(disk)
      ensures disk - {path} == old(disk) - {path}
      ensures |old(data)| <= |data| && forall i :: 0 <= i < |old(data)| && i != file ==> data[i] == old(data[i])
      ensures View() == Truncated(old(View()), path, content)
    {
      if path in disk && disk[path] < |data| {
        data := data[disk[path] := content];
      } else {
        disk := disk[path := |data|];
        data := data + [content];
      }
      file := disk[path];
    }

    /** The stream of the path writes its first `n` pending bytes, or all when it has fewer, into its
        file at its position, and moves on by as many. Nothing else has changed. */
    method PassOn(path: Path, n: nat)
      requires path in open && open[path].file < |data|
      modifies this`open, this`data
      ensures path in open && open - {path} == old(open) - {path}
      ensures var s, k := old(open[path]), if n < |old(open[path]).pending| then n else |old(open[path]).pending|;
        && open[path] == Stream(s.file, s.pos + k, s.pending[k..])
        && data == old(data)[s.file := Overlay(old(data)[s.file], s.pos, s.pending[..k])]
      ensures View() == Flushed(old(View()), path, n)
    {
      var s := open[path];
      var k := if n < |s.pending| then n else |s.pending|;
      data := data[s.file := Overlay(data[s.file], s.pos, s.pending[..k])];
      open := open[path := Stream(s.file, s.pos + k, s.pending[k..])];
    }

    /** The path's stream, if it has one, has written all it was given into its file and is gone; every
        other stream, name and file is as before. */
    method FsCloseFile(path: Path)
      modifies this`open, this`data
      ensures open == old(open) - {path} && |data| == |old(data)|
      ensures forall i :: 0 <= i < |data| && (path in old(open) ==> i != old(open)[path].file) ==> data[i] == old(data)[i]
      ensures path in old(open) && old(open)[path].file < |data| ==>
        var s := old(open)[path]; data[s.file] == Overlay(old(data)[s.file], s.pos, s.pending)
      ensures View() == Perform(old(View()), CloseFile(path), 0)
    {
      if path in open {
        ghost var s := open[path];
        assert s.pending[..|s.pending|] == s.pending;
        if open[path].file < |data| {
          PassOn(path, |open[path].pending|);
        }
        open := open - {path};
      }
      assert open == old(open) - {path};
    }

    /** The path names a file, empty unless the path's old stream had unwritten bytes for that very
        file, and has a stream at its start; no other name or stream, and no file but this one and the
        old stream's, has changed. */
    method FsCreateFileWrite(path: Path)
      modifies this
      ensures path in disk && disk[path] < |data| && path in open && open[path] == Stream(disk[path], 0, [])
      ensures path !in old(open) || old(open)[path].file != disk[path] ==> data[disk[path]] == []
      ensures open - {path} == old(open) - {path} && disk - {path} == old(disk) - {path} && |old(data)| <= |data|
      ensures forall i :: 0 <= i < |old(data)| && i != disk[path] && (path in old(open) ==> i != old(open)[path].file) ==>
        data[i] == old(data)[i]
      ensures View() == Perform(old(View()), CreateFile(path), 0)
    {
      var file := OpenTruncated(path, []);
      FsCloseFile(path);
      open := open[path := Stream(file, 0, [])];
      assert open - {path} == old(open) - {path};
    }

    /** The path's stream, if it has one, has been given the chunk, and has written some beginning of
        what it had not written yet into its file at its position; no other file or stream, and no
        name, has changed. */
    method FsWriteChunk(path: Path, chunk: Chunk, flush: nat)
      modifies this`open, this`data
      ensures open.Keys == old(open).Keys && open - {path} == old(open) - {path} && |data| == |old(data)|
      ensures path in open && open[path].file < |data| ==>
        var s, all, k := old(open)[path], old(open)[path].pending + chunk, open[path].pos - old(open)[path].pos;
        && 0 <= k <= |all| && open[path] == Stream(s.file, s.pos + k, all[k..])
        && data[s.file] == Overlay(old(data)[s.file], s.pos, all[..k])
      ensures forall i :: 0 <= i < |data| && (path in open ==> i != old(open)[path].file) ==> data[i] == old(data)[i]
      ensures View() == Perform(old(View()), WriteChunk(path, chunk), flush)
    {
      if path in open {
        open := open[path := open[path].(pending := open[path].pending + chunk)];
        if open[path].file < |data| {
          PassOn(path, flush);
        }
      }
    }

    /** The name is gone; every other name is as before, and so are all streams and all files. */
    method FsRemove(path: Path)
      modifies this`disk
      ensures path !in disk && forall p :: p != path ==> (p in disk <==> p in old(disk)) && (p in disk ==> disk[p] == old(disk)[p])
      ensures View() == Perform(old(View()), RemoveFile(path), 0)
    {
      if path in disk {
        disk := disk - {path};
      }
      assert disk == old(disk) - {path};
    }

    /** The new name leads to the file the old name led to and the old name is gone, unless there was
        none or the names are the same; no other name, and no stream or file, has changed. */
    method FsRename(from: Path, to: Path)
      modifies this`disk
      ensures from in old(disk) ==> to in disk && disk[to] == old(disk)[from] && (from != to ==> from !in disk)
      ensures disk - {from, to} == old(disk) - {from, to}
      ensures from !in old(disk) || from == to ==> disk == old(disk)
      ensures View() == Perform(old(View()), RenameFile(from, to), 0)
    {
      if from in disk && from != to {
        var file := disk[from];
        disk := disk - {from};
        disk := disk[to := file];
        assert disk - {from, to} == old(disk) - {from, to};
      }
    }

    /** The destination has the content of the source, if there is one; no other name or file, and no
        stream, has changed. */
    method FsCopy(src: Path, dst: Path)
      modifies this`disk, this`data
      ensures FileAt(old(View()), src).Some? ==> FileAt(View(), dst) == FileAt(old(View()), src)
      ensures FileAt(old(View()), src).None? ==> View() == old(View())
      ensures disk - {dst} == old(disk) - {dst} && |old(data)| <= |data|
      ensures forall i :: 0 <= i < |old(data)| && (dst !in disk || i != disk[dst]) ==> data[i] == old(data[i])
      ensures View() == Perform(old(View()), CopyFile(src, dst), 0)
    {
      var content := FsOpenFileRead(src);
      if content.Some? {
        var _ := OpenTruncated(dst, content.value);
      }
    }

    /** The bytes of the file the path names; a missing file is a throw. */
    method FsOpenFileRead(path: Path) returns (content: Option<Chunk>)
      ensures content == FileAt(View(), path)
    {
      if path in disk && disk[path] < |data| {
        return Some(data[disk[path]]);
      }
      return None;
    }
  }

  /** What create_dir_all, remove, rename and copy do to the host's files, for paths without a NUL: the
      first changes none; the second leaves no file of that name; the third makes the new name lead to
      the old one's file; the fourth makes the destination hold what is on disk of the source. No other
      name changes what it leads to, and no stream is touched. */
  ghost predicate HostEffect(op: Op, h: Host, h': Host) {
    && h'.open == h.open
    && match op
       case CreateDir(_) => h' == h
       case Remove(p) => NulFree(p) ==> FileAt(h', p).None? && p !in h'.disk && h'.disk == h.disk - {p} && h'.data == h.data
       case Rename(a, b) => NulFree(a) && NulFree(b) ==>
         && h'.data == h.data && h'.disk - {a, b} == h.disk - {a, b}
         && (a in h.disk ==> FileAt(h', b) == FileAt(h, a) && b in h'.disk && h'.disk[b] == h.disk[a] && (a != b ==> a !in h'.disk))
         && (a !in h.disk ==> h'.disk == h.disk)
       case Copy(a, b) => NulFree(a) && NulFree(b) ==>
         && h'.disk - {b} == h.disk - {b}
         && (FileAt(h, a).Some? ==> FileAt(h', b) == FileAt(h, a))
         && (FileAt(h, a).None? ==> h' == h)
       case _ => true
  }

  lemma RenamingHasItsEffect(h: Host, a: Path, b: Path, flush: nat)
    ensures HostEffect(Rename(a, b), h, Perform(h, RenameFile(HostPath(a), HostPath(b)), flush))
  {
  }

  lemma CopyingHasItsEffect(h: Host, a: Path, b: Path, flush: nat)
    ensures HostEffect(Copy(a, b), h, Perform(h, CopyFile(HostPath(a), HostPath(b)), flush))
  {
  }

  lemma CallbackHasItsEffect(h: Host, op: Op, flush: nat) returns (cb: Callback)
    requires op.CreateDir? || op.Remove? || op.Rename? || op.Copy?
    ensures op.CreateDir? ==> cb == CreateDirAll(HostPath(op.path))
    ensures op.Remove? ==> cb == RemoveFile(HostPath(op.path))
    ensures op.Rename? ==> cb == RenameFile(HostPath(op.from), HostPath(op.to))
    ensures op.Copy? ==> cb == CopyFile(HostPath(op.src), HostPath(op.dst))
    ensures HostEffect(op, h, Perform(h, cb, flush))
  {
    match op
    case CreateDir(p) => cb := CreateDirAll(HostPath(p));
    case Remove(p) => cb := RemoveFile(HostPath(p));
    case Rename(a, b) => cb := RenameFile(HostPath(a), HostPath(b)); RenamingHasItsEffect(h, a, b, flush);
    case Copy(a, b) => cb := CopyFile(HostPath(a), HostPath(b)); CopyingHasItsEffect(h, a, b, flush);
  }

  /** The turn of an operation that only makes its callback and reports its error. */
  lemma FallibleTurn(s: Session, t: Turn)
    requires t.op.CreateDir? || t.op.Remove? || t.op.Rename? || t.op.Copy?
    ensures var call := CallOf(s, t);
      After(s, t) == s.(
        host := HostAfter(s.host, call),
        trace := s.trace + [Event(t.op, PollOf(s, t), call, None, ReplyTo(s, t))])
    ensures ReplyTo(s, t) == if CallOf(s, t).None? || t.outcome.Refused? then Failed else Done
  {
  }

  /** The turn of a create: a writer exactly when it was neither cancelled nor refused. */
  lemma CreateTurn(s: Session, t: Turn)
    requires t.op.Create?
    ensures var call, reply := CallOf(s, t), ReplyTo(s, t);
      After(s, t) == s.(
        host := HostAfter(s.host, call),
        writers := if reply.Opened? then s.writers[s.next := HostPath(t.op.path)] else s.writers,
        next := if reply.Opened? then s.next + 1 else s.next,
        trace := s.trace + [Event(t.op, PollOf(s, t), call, Some(s.next), reply)])
    ensures ReplyTo(s, t) == if CallOf(s, t).None? || t.outcome.Refused? then Failed else Opened(s.next)
  {
  }

  /** The callback table with the trampolines behind it, and the record of what was called. */
  class Delegate {
    const host: HostFiles
    const cancellable: bool
    const reporting: bool
    var next: nat
    ghost var writers: map<nat, Path>
    ghost var trace: seq<Event>
    ghost var polled: Option<bool>     // the poll of the operation under way
    ghost var called: Option<Call>     // its host callback

    constructor (host: HostFiles, cancellable: bool, reporting: bool)
      requires host.open == map[]
      ensures this.host == host && Idle()
      ensures View() == Start(cancellable, reporting, host.disk, host.data)
    {
      this.host, this.cancellable, this.reporting := host, cancellable, reporting;
      next, writers, trace, polled, called := 0, map[], [], None, None;
    }

    ghost function View(): Session
      reads this, host
    {
      Session(host.View(), writers, next, trace, cancellable, reporting)
    }

    /** No operation is under way. */
    ghost predicate Idle()
      reads this
    {
      polled.None? && called.None?
    }

    /** is_cancelled: an absent callback never cancels. */
    method IsCancelled(poll: bool) returns (b: bool)
      requires Idle()
      modifies this`polled
      ensures b == (cancellable && poll)
      ensures polled == if cancellable then Some(poll) else None
    {
      if !cancellable {
        return false;
      }
      polled := Some(poll);
      b := poll;
    }

    /** One callback through its trampoline. Returns whether an error came back, and what was read.
        An error comes back when the host refuses, or when open_file_read throws; every other throw
        is reported as a success. */
    method Invoke(cb: Callback, outcome: Outcome, flush: nat) returns (err: bool, content: Chunk)
      requires called.None?
      modifies this`called, host
      ensures !cb.OpenFileRead? ==> (err <==> outcome.Refused?)
      ensures cb.OpenFileRead? ==> (!err <==> outcome.Applied? && FileAt(old(host.View()), cb.path).Some?)
      ensures cb.OpenFileRead? && !err ==> FileAt(old(host.View()), cb.path) == Some(content)
      ensures called == Some(Call(cb, outcome, flush))
      ensures host.View() == HostAfter(old(host.View()), called)
    {
      called := Some(Call(cb, outcome, flush));
      err, content := outcome.Refused?, [];
      if outcome.Applied? {
        match cb
        case CreateFile(p) => host.FsCreateFileWrite(p);
        case WriteChunk(p, c) => host.FsWriteChunk(p, c, flush);
        case CloseFile(p) => host.FsCloseFile(p);
        case RemoveFile(p) => host.FsRemove(p);
        case RenameFile(a, b) => host.FsRename(a, b);
        case CopyFile(a, b) => host.FsCopy(a, b);
        case OpenFileRead(p) =>
          var read := host.FsOpenFileRead(p);
          err := read.None?;
          content := if read.Some? then read.value else [];
        case _ =>
      } else {
        err := outcome.Refused? || cb.OpenFileRead?;
      }
    }

    /** Closes the record of the operation. */
    ghost method EndTurn(op: Op, writer: Option<nat>, reply: Reply)
      modifies this`trace, this`polled, this`called
      ensures Idle()
      ensures trace == old(trace) + [Event(op, old(polled), old(called), writer, reply)]
    {
      trace, polled, called := trace + [Event(op, polled, called, writer, reply)], None, None;
    }

    /** create_dir_all, remove, rename and copy: fail when cancelled, otherwise make the callback and
        report its error. */
    method Fallible(t: Turn) returns (r: Reply)
      requires Idle() && (t.op.CreateDir? || t.op.Remove? || t.op.Rename? || t.op.Copy?)
      modifies this`trace, this`polled, this`called, host
      ensures Idle() && View() == After(old(View()), t) && r == ReplyTo(old(View()), t)
      ensures r == if (cancellable && t.poll) || t.outcome.Refused? then Failed else Done
      ensures !(cancellable && t.poll) && t.outcome.Applied? ==> HostEffect(t.op, old(host.View()), host.View())
      ensures (cancellable && t.poll) || !t.outcome.Applied? ==> host.View() == old(host.View())
    {
      r := Failed;
      var cancelled := IsCancelled(t.poll);
      if !cancelled {
        var err := CallBack(t);
        r := if err then Failed else Done;
      }
      assert called == CallOf(old(View()), t);
      FallibleTurn(old(View()), t);
      EndTurn(t.op, None, r);
    }

    /** The callback of such an operation. */
    method CallBack(t: Turn) returns (err: bool)
      requires called.None? && (t.op.CreateDir? || t.op.Remove? || t.op.Rename? || t.op.Copy?)
      modifies this`called, host
      ensures err <==> t.outcome.Refused?
      ensures called.Some? && CallbackOf(old(View()), t.op) == Some(called.value.callback)
      ensures called.value.outcome == t.outcome && called.value.flush == t.flush
      ensures host.View() == HostAfter(old(host.View()), called)
      ensures t.outcome.Applied? ==> HostEffect(t.op, old(host.View()), host.View())
    {
      var cb := match t.op
        case CreateDir(p) => CreateDirAll(HostPath(p))
        case Remove(p) => RemoveFile(HostPath(p))
        case Rename(a, b) => RenameFile(HostPath(a), HostPath(b))
        case Copy(a, b) => CopyFile(HostPath(a), HostPath(b));
      ghost var same := CallbackHasItsEffect(host.View(), t.op, t.flush);
      assert cb == same;
      var e, _ := Invoke(cb, t.outcome, t.flush);
      err := e;
    }

    /** open_file_read: the whole content, or an error. */
    method ReadFile(t: Turn) returns (r: Reply)
      requires Idle() && t.op.OpenRead?
      modifies this`trace, this`polled, this`called, host
      ensures Idle() && View() == After(old(View()), t) && r == ReplyTo(old(View()), t)
      ensures host.View() == old(host.View()) && (r.Failed? || r.Content?)
      ensures NulFree(t.op.path) && r.Content? ==> FileAt(host.View(), t.op.path) == Some(r.bytes)
    {
      r := Failed;
      var cancelled := IsCancelled(t.poll);
      if !cancelled {
        var err, content := Invoke(OpenFileRead(HostPath(t.op.path)), t.outcome, t.flush);
        r := if err then Failed else Content(content);
      }
      EndTurn(t.op, None, r);
    }

    /** get_free_disk_space, exists and is_dir: nothing (0, false) when cancelled. */
    method Query(t: Turn) returns (r: Reply)
      requires Idle() && IsQuery(t.op)
      modifies this`trace, this`polled, this`called, host
      ensures Idle() && View() == After(old(View()), t) && r == ReplyTo(old(View()), t)
      ensures r == Answer(if cancellable && t.poll then 0 else t.answer) && host.View() == old(host.View())
    {
      r := Answer(0);
      var cancelled := IsCancelled(t.poll);
      if !cancelled {
        var cb := match t.op
          case AskFreeSpace(p) => FreeDiskSpace(HostPath(p))
          case AskExists(p) => Exists(HostPath(p))
          case AskIsDir(p) => IsDir(HostPath(p));
        assert CallbackOf(old(View()), t.op) == Some(cb);
        var _, _ := Invoke(cb, t.outcome, t.flush);
        r := Answer(t.answer);
      }
      EndTurn(t.op, None, r);
    }

    /** The entries pushed one by one; the first that cannot be read ends the listing. */
    method Gather(listing: seq<Option<DirEntry>>) returns (r: Option<seq<DirEntry>>)
      ensures r == Gathered(listing)
      ensures r.Some? <==> forall i :: 0 <= i < |listing| ==> listing[i].Some?
      ensures r.Some? ==> |r.value| == |listing| && forall i :: 0 <= i < |listing| ==> Some(r.value[i]) == listing[i]
    {
      var out: seq<DirEntry> := [];
      assert listing[0..] == listing && forall es: seq<DirEntry> :: [] + es == es;
      for i := 0 to |listing|
        invariant |out| == i && forall k :: 0 <= k < i ==> Some(out[k]) == listing[k]
        invariant Gathered(listing) == Prepended(out, Gathered(listing[i..]))
      {
        assert listing[i..][0] == listing[i] && listing[i..][1..] == listing[i + 1..];
        if listing[i].None? {
          return None;
        }
        assert forall es :: out + ([listing[i].value] + es) == (out + [listing[i].value]) + es;
        out := out + [listing[i].value];
      }
      assert listing[|listing|..] == [] && out + [] == out;
      r := Some(out);
    }

    /** list_dir reads the directory itself, without the host. */
    method ListDirectory(t: Turn) returns (r: Reply)
      requires Idle() && t.op.ListDir?
      modifies this`trace, this`polled, this`called
      ensures Idle() && View() == After(old(View()), t) && r == ReplyTo(old(View()), t)
      ensures r.Failed? <==>
        (cancellable && t.poll) || t.listing.None? || exists i :: 0 <= i < |t.listing.value| && t.listing.value[i].None?
      ensures !r.Failed? ==> r.Entries? && |r.entries| == |t.listing.value|
      ensures !r.Failed? ==> forall i :: 0 <= i < |r.entries| ==> Some(r.entries[i]) == t.listing.value[i]
    {
      r := Failed;
      var cancelled := IsCancelled(t.poll);
      if !cancelled && t.listing.Some? {
        var entries := Gather(t.listing.value);
        r := if entries.Some? then Entries(entries.value) else Failed;
      }
      EndTurn(t.op, None, r);
    }

    method OnProgressReport(t: Turn)
      requires Idle() && t.op.Progress?
      modifies this`trace, this`polled, this`called, host
      ensures Idle() && View() == After(old(View()), t)
    {
      var cancelled := IsCancelled(t.poll);
      if !cancelled && reporting {
        var _, _ := Invoke(OnProgress, t.outcome, t.flush);
      }
      EndTurn(t.op, None, Done);
    }

    /** The operations that do not concern a writer. */
    method AnswerTo(t: Turn) returns (r: Reply)
      requires Idle() && !t.op.Create? && !t.op.Write? && !t.op.DropWriter?
      modifies this`trace, this`polled, this`called, host
      ensures Idle() && View() == After(old(View()), t) && r == ReplyTo(old(View()), t)
    {
      if t.op.OpenRead? {
        r := ReadFile(t);
      } else if t.op.ListDir? {
        r := ListDirectory(t);
      } else if t.op.Progress? {
        OnProgressReport(t);
        r := Done;
      } else if IsQuery(t.op) {
        r := Query(t);
      } else {
        r := Fallible(t);
      }
    }

    /** create_file_write: a writer under the host path, or an error. */
    method CreateFileWrite(t: Turn) returns (r: Option<FfiFileWriter>)
      requires Idle() && t.op.Create?
      modifies this, host
      ensures Idle() && View() == After(old(View()), t)
      ensures ReplyTo(old(View()), t) == if r.Some? then Opened(r.value.id) else Failed
      ensures r.Some? ==> fresh(r.value) && r.value.Live() && r.value.delegate == this && r.value.path == HostPath(t.op.path)
    {
      var cancelled := IsCancelled(t.poll);
      var granted := false;
      if !cancelled {
        var err, _ := Invoke(CreateFile(HostPath(t.op.path)), t.outcome, t.flush);
        granted := !err;
      }
      assert called == CallOf(old(View()), t);
      CreateTurn(old(View()), t);
      EndTurn(t.op, Some(next), if granted then Opened(next) else Failed);
      if !granted {
        return None;
      }
      writers := writers[next := HostPath(t.op.path)];
      var w := new FfiFileWriter(this, next, HostPath(t.op.path));
      next := next + 1;
      return Some(w);
    }
  }

  function Prepended<T>(xs: seq<T>, ys: Option<seq<T>>): Option<seq<T>> {
    if ys.Some? then Some(xs + ys.value) else None
  }

  class FfiFileWriter {
    const delegate: Delegate
    const id: nat
    const path: Path

    constructor (delegate: Delegate, id: nat, path: Path)
      ensures this.delegate == delegate && this.id == id && this.path == path
    {
      this.delegate, this.id, this.path := delegate, id, path;
    }

    /** This writer has not been dropped yet. */
    ghost predicate Live()
      reads delegate
    {
      id in delegate.writers && delegate.writers[id] == path
    }

    /** Write::write: all of the buffer or an error. */
    method Write(t: Turn) returns (r: Reply)
      requires Live() && delegate.Idle() && t.op.Write? && t.op.writer == id
      modifies delegate`trace, delegate`polled, delegate`called, delegate.host
      ensures Live() && delegate.Idle()
      ensures delegate.View() == After(old(delegate.View()), t) && r == ReplyTo(old(delegate.View()), t)
    {
      r := Failed;
      var cancelled := delegate.IsCancelled(t.poll);
      if !cancelled {
        var err, _ := delegate.Invoke(WriteChunk(path, t.op.chunk), t.outcome, t.flush);
        r := if err then Failed else Done;
      }
      delegate.EndTurn(t.op, Some(id), r);
    }

    /** Drop::drop: closes without asking, and ignores the answer. */
    method Drop(t: Turn)
      requires Live() && delegate.Idle() && t.op == DropWriter(id)
      modifies delegate, delegate.host
      ensures !Live() && delegate.Idle()
      ensures delegate.View() == After(old(delegate.View()), t)
    {
      var _, _ := delegate.Invoke(CloseFile(path), t.outcome, t.flush);
      delegate.EndTurn(t.op, Some(id), Done);
      delegate.writers := delegate.writers - {id};
    }
  }

  // ----- any use of the objects is a run of the session -----

  /** The turns of a script that can be taken: those that name a writer that is not there are passed
      over. */
  ghost function Taken(s: Session, script: seq<Turn>): seq<Turn>
    decreases |script|
  {
    if script == [] then []
    else if Enabled(s, script[0].op) then [script[0]] + Taken(After(s, script[0]), script[1..])
    else Taken(s, script[1..])
  }

  lemma TakenAt(s: Session, script: seq<Turn>, i: nat)
    requires i < |script|
    ensures Taken(s, script[i..]) ==
      if Enabled(s, script[i].op) then [script[i]] + Taken(After(s, script[i]), script[i + 1..]) else Taken(s, script[i + 1..])
  {
    assert script[i..][0] == script[i] && script[i..][1..] == script[i + 1..];
  }

  /** The trace has grown by one event for each reply, and these are their replies. */
  ghost predicate Answers(before: seq<Event>, after: seq<Event>, replies: seq<Reply>) {
    && before <= after && |after| == |before| + |replies|
    && forall i :: 0 <= i < |replies| ==> replies[i] == after[|before| + i].reply
  }

  /** The first i turns of the script have been seen to: `done` of them were taken. */
  ghost predicate Underway(start: Session, script: seq<Turn>, i: nat, done: seq<Turn>, s: Session, replies: seq<Reply>) {
    && i <= |script|
    && Leads(start, done, s)
    && Taken(start, script) == done + Taken(s, script[i..])
    && Answers(start.trace, s.trace, replies)
  }

  lemma TurnTaken(start: Session, script: seq<Turn>, i: nat, done: seq<Turn>, s: Session, replies: seq<Reply>)
    requires Underway(start, script, i, done, s, replies) && i < |script| && Enabled(s, script[i].op)
    ensures var t := script[i];
      Underway(start, script, i + 1, done + [t], After(s, t), replies + [ReplyTo(s, t)])
  {
    TakenAt(s, script, i);
    LeadsSnoc(start, done, s, script[i]);
  }

  lemma TurnPassedOver(start: Session, script: seq<Turn>, i: nat, done: seq<Turn>, s: Session, replies: seq<Reply>)
    requires Underway(start, script, i, done, s, replies) && i < |script| && !Enabled(s, script[i].op)
    ensures Underway(start, script, i + 1, done, s, replies)
  {
    TakenAt(s, script, i);
  }

  /** The backup library: it holds the writers it was given. */
  class Library {
    const delegate: Delegate
    var writers: map<nat, FfiFileWriter>

    constructor (delegate: Delegate)
      requires delegate.Idle() && delegate.writers == map[]
      ensures this.delegate == delegate && Valid()
    {
      this.delegate, writers := delegate, map[];
    }

    ghost predicate Valid()
      reads this, delegate
    {
      && delegate.Idle()
      && writers.Keys == delegate.writers.Keys
      && (forall w :: w in writers ==>
        writers[w].delegate == delegate && writers[w].id == w && writers[w].path == delegate.writers[w])
    }

    /** One operation on the object it belongs to. */
    method Do(t: Turn) returns (r: Reply)
      requires Valid() && Enabled(delegate.View(), t.op)
      modifies this, delegate, delegate.host
      ensures Valid()
      ensures delegate.View() == After(old(delegate.View()), t) && r == ReplyTo(old(delegate.View()), t)
    {
      if t.op.Create? {
        var w := delegate.CreateFileWrite(t);
        if w.Some? {
          writers := writers[w.value.id := w.value];
        }
        r := if w.Some? then Opened(w.value.id) else Failed;
      } else if t.op.Write? {
        r := writers[t.op.writer].Write(t);
      } else if t.op.DropWriter? {
        writers[t.op.writer].Drop(t);
        writers := writers - {t.op.writer};
        r := Done;
      } else {
        r := delegate.AnswerTo(t);
      }
    }

    /** Whatever the library does with the delegate and the writers it was given, and whatever the
        polls and the host answer: what the objects go through is a run of the session, the replies
        are those of its trace, and nothing that can be done is left out. */
    method Run(script: seq<Turn>) returns (replies: seq<Reply>)
      requires Valid()
      modifies this, delegate, delegate.host
      ensures Valid()
      ensures Leads(old(delegate.View()), Taken(old(delegate.View()), script), delegate.View())
      ensures Answers(old(delegate.trace), delegate.trace, replies)
    {
      replies := [];
      ghost var start, done: seq<Turn> := delegate.View(), [];
      assert script[0..] == script;
      for i := 0 to |script|
        invariant Valid()
        invariant Underway(start, script, i, done, delegate.View(), replies)
      {
        var t := script[i];
        if (t.op.Write? || t.op.DropWriter?) && t.op.writer !in writers {
          TurnPassedOver(start, script, i, done, delegate.View(), replies);
        } else {
          TurnTaken(start, script, i, done, delegate.View(), replies);
          var r := Do(t);
          replies, done := replies + [r], done + [t];
        }
      }
      assert done == Taken(start, script);
    }
  }

  /** A whole backup over fresh objects: what holds of every run of the session holds of them. */
  method Backup(disk: map<Path, nat>, data: seq<Chunk>, cancellable: bool, reporting: bool, script: seq<Turn>)
    returns (delegate: Delegate, replies: seq<Reply>)
    requires ProperDisk(disk, data)
    ensures fresh(delegate) && Answers([], delegate.trace, replies)
    ensures var start := Start(cancellable, reporting, disk, data); Leads(start, Taken(start, script), delegate.View())
    ensures forall p :: OnDiskAsRead(delegate.host.View(), Read(OfDisk(disk, data), delegate.trace), p)
    ensures Accounted(delegate.View()) && ClosesWhatItOpened(delegate.trace) && AllInOrder(delegate.View())
  {
    var host := new HostFiles(disk, data);
    delegate := new Delegate(host, cancellable, reporting);
    var library := new Library(delegate);
    replies := library.Run(script);
    ghost var start := Start(cancellable, reporting, disk, data);
    forall p ensures OnDiskAsRead(delegate.host.View(), Read(OfDisk(disk, data), delegate.trace), p) {
      FilesHoldWhatTheTraceTells(cancellable, reporting, disk, data, Taken(start, script), delegate.View(), p);
    }
    StartIsAccounted(start);
    EveryWriterClosedExactlyOnce(start, Taken(start, script), delegate.View());
    EveryOperationMakesItsCallback(start, Taken(start, script), delegate.View());
  }

  lemma StartIsAccounted(s: Session)
    requires s.trace == [] && s.writers == map[] && s.next == 0
    ensures Accounted(s) && ClosesWhatItOpened(s.trace)
  {
  }
}
