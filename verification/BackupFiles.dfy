/** What the host's callbacks do to its files while streams have some of them open. */
module BackupFiles {
  import opened Prelude
  import opened BackupSession

  /** Names lead to files, no two names to the same one, and streams to files. */
  ghost predicate Intact(h: Host) {
    && (forall p :: p in h.disk ==> h.disk[p] < |h.data|)
    && (forall q :: q in h.open ==> h.open[q].file < |h.data|)
    && (forall p, q :: p in h.disk && q in h.disk && h.disk[p] == h.disk[q] ==> p == q)
  }

  /** The stream of path q has the file open that p names. */
  ghost predicate StreamOn(h: Host, q: Path, p: Path) {
    q in h.open && p in h.disk && h.open[q].file == h.disk[p]
  }

  /** Some stream has the file open that p names. */
  ghost predicate OnFile(h: Host, p: Path) {
    exists q :: StreamOn(h, q, p)
  }

  ghost predicate NothingPending(h: Host, p: Path) {
    forall q :: StreamOn(h, q, p) ==> h.open[q].pending == []
  }

  /** The file named p has content v, or will have it once the one stream that has it open has passed
      everything on; that stream writes at the file's end. */
  ghost predicate ComesTo(h: Host, p: Path, v: Chunk) {
    && p in h.disk && h.disk[p] < |h.data|
    && (forall q :: StreamOn(h, q, p) ==>
      h.open[q].pos == |h.data[h.disk[p]]| && h.data[h.disk[p]] + h.open[q].pending == v)
    && (forall q, r :: StreamOn(h, q, p) && StreamOn(h, r, p) ==> q == r)
    && (!OnFile(h, p) ==> h.data[h.disk[p]] == v)
  }

  /** What that says of the disk: a beginning of the content at least, and all of it exactly when
      nothing is pending, in particular when no stream has the file open. */
  lemma ComesToOnDisk(h: Host, p: Path, v: Chunk)
    requires ComesTo(h, p, v)
    ensures FileAt(h, p).Some? && FileAt(h, p).value <= v
    ensures FileAt(h, p).value == v <==> NothingPending(h, p)
    ensures !OnFile(h, p) ==> FileAt(h, p).value == v
  {
    if q :| StreamOn(h, q, p) {
      assert |FileAt(h, p).value + h.open[q].pending| == |v|;
    }
  }

  lemma ComesToOneContent(h: Host, p: Path, v: Chunk, w: Chunk)
    requires ComesTo(h, p, v) && ComesTo(h, p, w)
    ensures v == w
  {
    if q :| StreamOn(h, q, p) {
    }
  }

  // ----- streams passing bytes on -----

  /** Bytes written at a position, place by place: what is there is replaced, a gap is filled with zeros,
      and everything else stays. */
  lemma OverlayAt(content: Chunk, pos: nat, bytes: Chunk, k: nat)
    requires bytes != []
    ensures |Overlay(content, pos, bytes)| == if |content| < pos + |bytes| then pos + |bytes| else |content|
    ensures k < pos && k < |content| ==> Overlay(content, pos, bytes)[k] == content[k]
    ensures |content| <= k < pos ==> Overlay(content, pos, bytes)[k] == 0
    ensures pos <= k < pos + |bytes| ==> Overlay(content, pos, bytes)[k] == bytes[k - pos]
    ensures pos + |bytes| <= k < |content| ==> Overlay(content, pos, bytes)[k] == content[k]
    ensures Overlay(content, pos, []) == content
  {
  }

  lemma FlushingKeeps(h: Host, q: Path, n: nat, p: Path, v: Chunk)
    requires Intact(h) && ComesTo(h, p, v)
    ensures Intact(Flushed(h, q, n)) && ComesTo(Flushed(h, q, n), p, v)
  {
    var h' := Flushed(h, q, n);
    if q in h.open {
      assert forall r :: StreamOn(h', r, p) <==> StreamOn(h, r, p);
      if StreamOn(h, q, p) {
        var k := if n < |h.open[q].pending| then n else |h.open[q].pending|;
        assert h.open[q].pending == h.open[q].pending[..k] + h.open[q].pending[k..];
      }
    }
  }

  lemma ClosingKeeps(h: Host, q: Path, p: Path, v: Chunk)
    requires Intact(h) && ComesTo(h, p, v)
    ensures ComesTo(Closed(h, q), p, v)
  {
    if q in h.open {
      var h1 := Flushed(h, q, |h.open[q].pending|);
      FlushingKeeps(h, q, |h.open[q].pending|, p, v);
      var h' := Closed(h, q);
      assert forall r :: StreamOn(h', r, p) <==> r != q && StreamOn(h1, r, p);
    }
  }

  lemma ClosingKeepsTheRest(h: Host, q: Path)
    requires Intact(h)
    ensures Intact(Closed(h, q))
    ensures forall r, p :: StreamOn(Closed(h, q), r, p) <==> r != q && StreamOn(h, r, p)
  {
  }

  lemma GivingKeeps(h: Host, q: Path, c: Chunk, p: Path, v: Chunk)
    requires Intact(h) && ComesTo(h, p, v)
    ensures Intact(Given(h, q, c))
    ensures ComesTo(Given(h, q, c), p, if StreamOn(h, q, p) then v + c else v)
  {
    var h' := Given(h, q, c);
    assert forall r :: StreamOn(h', r, p) <==> StreamOn(h, r, p);
    if StreamOn(h, q, p) {
      assert h.data[h.disk[p]] + (h.open[q].pending + c) == v + c;
    }
  }

  /** A write adds the chunk to what the file of its stream comes to, and to nothing else. */
  lemma WritingKeeps(h: Host, q: Path, c: Chunk, flush: nat, p: Path, v: Chunk)
    requires Intact(h) && ComesTo(h, p, v)
    ensures ComesTo(Perform(h, WriteChunk(q, c), flush), p, if StreamOn(h, q, p) then v + c else v)
  {
    GivingKeeps(h, q, c, p, v);
    FlushingKeeps(Given(h, q, c), q, flush, p, if StreamOn(h, q, p) then v + c else v);
  }

  // ----- names -----

  lemma TruncatingKeepsIntact(h: Host, p: Path, content: Chunk)
    requires Intact(h)
    ensures Intact(Truncated(h, p, content))
    ensures Truncated(h, p, content).disk.Keys == h.disk.Keys + {p}
    ensures forall q, r :: StreamOn(Truncated(h, p, content), q, r) <==> StreamOn(h, q, r)
  {
  }

  lemma TruncatingKeeps(h: Host, q: Path, content: Chunk, p: Path, v: Chunk)
    requires Intact(h) && ComesTo(h, p, v) && p != q
    ensures ComesTo(Truncated(h, q, content), p, v)
  {
    TruncatingKeepsIntact(h, q, content);
  }

  lemma TruncatingGives(h: Host, p: Path, content: Chunk)
    requires Intact(h) && !OnFile(h, p)
    ensures ComesTo(Truncated(h, p, content), p, content) && !OnFile(Truncated(h, p, content), p)
  {
    TruncatingKeepsIntact(h, p, content);
  }

  /** The host between truncating the file and opening the new stream. */
  function Cleared(h: Host, q: Path): Host {
    Closed(Truncated(h, q, []), q)
  }

  lemma CreatingOpens(h: Host, q: Path)
    requires Intact(h)
    ensures Intact(Cleared(h, q)) && Intact(Perform(h, CreateFile(q), 0))
    ensures Perform(h, CreateFile(q), 0).disk.Keys == h.disk.Keys + {q}
    ensures Perform(h, CreateFile(q), 0).open.Keys == h.open.Keys + {q}
    ensures forall r, p :: StreamOn(Perform(h, CreateFile(q), 0), r, p) <==> if r == q then p == q else StreamOn(h, r, p)
  {
    TruncatingKeepsIntact(h, q, []);
    ClosingKeepsTheRest(Truncated(h, q, []), q);
  }

  lemma CreatingKeeps(h: Host, q: Path, p: Path, v: Chunk)
    requires Intact(h) && ComesTo(h, p, v) && p != q
    ensures ComesTo(Perform(h, CreateFile(q), 0), p, v)
  {
    TruncatingKeepsIntact(h, q, []);
    TruncatingKeeps(h, q, [], p, v);
    ClosingKeeps(Truncated(h, q, []), q, p, v);
    CreatingOpens(h, q);
    assert forall r :: StreamOn(Perform(h, CreateFile(q), 0), r, p) <==> StreamOn(Cleared(h, q), r, p);
  }

  lemma CreatingGives(h: Host, q: Path)
    requires Intact(h) && !OnFile(h, q)
    ensures ComesTo(Perform(h, CreateFile(q), 0), q, [])
  {
    TruncatingKeepsIntact(h, q, []);
    TruncatingGives(h, q, []);
    ClosingKeeps(Truncated(h, q, []), q, q, []);
    CreatingOpens(h, q);
    ClosingKeepsTheRest(Truncated(h, q, []), q);
    assert StreamOn(Perform(h, CreateFile(q), 0), q, q);
    ComesToOnDisk(Cleared(h, q), q, []);
  }

  lemma RemovingKeeps(h: Host, q: Path, p: Path, v: Chunk)
    requires Intact(h) && ComesTo(h, p, v) && p != q
    ensures ComesTo(Perform(h, RemoveFile(q), 0), p, v)
  {
    assert forall r :: StreamOn(Perform(h, RemoveFile(q), 0), r, p) <==> StreamOn(h, r, p);
  }

  lemma RemovingNames(h: Host, q: Path)
    requires Intact(h)
    ensures Intact(Perform(h, RemoveFile(q), 0))
    ensures forall r, p :: StreamOn(Perform(h, RemoveFile(q), 0), r, p) <==> p != q && StreamOn(h, r, p)
  {
  }

  lemma RenamingNames(h: Host, a: Path, b: Path)
    requires Intact(h) && a in h.disk && a != b
    ensures Intact(Perform(h, RenameFile(a, b), 0))
    ensures forall r, p :: StreamOn(Perform(h, RenameFile(a, b), 0), r, p) <==>
      if p == b then StreamOn(h, r, a) else p != a && StreamOn(h, r, p)
  {
  }

  /** The new name has what the old one had. */
  lemma RenamingMoves(h: Host, a: Path, b: Path, v: Chunk)
    requires Intact(h) && ComesTo(h, a, v)
    ensures ComesTo(Perform(h, RenameFile(a, b), 0), b, v)
  {
    if a != b {
      RenamingNames(h, a, b);
      assert forall r :: StreamOn(Perform(h, RenameFile(a, b), 0), r, b) <==> StreamOn(h, r, a);
    }
  }

  lemma RenamingKeeps(h: Host, a: Path, b: Path, p: Path, v: Chunk)
    requires Intact(h) && ComesTo(h, p, v) && p != a && p != b
    ensures ComesTo(Perform(h, RenameFile(a, b), 0), p, v)
  {
    if a in h.disk && a != b {
      RenamingNames(h, a, b);
      assert forall r :: StreamOn(Perform(h, RenameFile(a, b), 0), r, p) <==> StreamOn(h, r, p);
    }
  }

  /** A copy has what is on disk of the source; no stream may have the destination open. */
  lemma CopyingGives(h: Host, a: Path, b: Path)
    requires Intact(h) && a in h.disk && !OnFile(h, b)
    ensures ComesTo(Perform(h, CopyFile(a, b), 0), b, h.data[h.disk[a]])
  {
    TruncatingGives(h, b, h.data[h.disk[a]]);
  }

  lemma CopyingKeeps(h: Host, a: Path, b: Path, p: Path, v: Chunk)
    requires Intact(h) && ComesTo(h, p, v) && (p != b || a == b)
    ensures ComesTo(Perform(h, CopyFile(a, b), 0), p, v)
  {
    if a in h.disk {
      if a == b {
        assert h.data[h.disk[a] := h.data[h.disk[a]]] == h.data;
      } else {
        TruncatingKeeps(h, b, h.data[h.disk[a]], p, v);
      }
    }
  }
}
