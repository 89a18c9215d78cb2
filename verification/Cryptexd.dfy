/** Installed cryptexes and raw data crossing the boundary (ffi/src/cryptexd.rs,
    cpp/src/cryptexd.cpp). */
module Cryptexd {
  import opened Prelude
  import opened CHeap
  import opened Owned

  datatype InstalledCryptex = InstalledCryptex(identifier: string, version: string)

  datatype Error = Device(message: string) | FfiInvalidString

  predicate Convertible(c: InstalledCryptex) {
    NulFree(c.identifier) && NulFree(c.version)
  }

  /** The two pointers of each entry, in order. */
  function Fields(entries: seq<InstalledCryptexC>): seq<Ptr> {
    if entries == [] then [] else [entries[0].identifier, entries[0].version] + Fields(entries[1..])
  }

  function FieldTexts(list: seq<InstalledCryptex>): seq<Block> {
    if list == [] then [] else [CStr(list[0].identifier), CStr(list[0].version)] + FieldTexts(list[1..])
  }

  lemma {:induction false} FieldsSnoc(entries: seq<InstalledCryptexC>, e: InstalledCryptexC)
    ensures Fields(entries + [e]) == Fields(entries) + [e.identifier] + [e.version]
  {
    if entries != [] {
      assert (entries + [e])[1..] == entries[1..] + [e];
      FieldsSnoc(entries[1..], e);
    }
  }

  lemma {:induction false} FieldTextsSnoc(list: seq<InstalledCryptex>, c: InstalledCryptex)
    ensures FieldTexts(list + [c]) == FieldTexts(list) + [CStr(c.identifier)] + [CStr(c.version)]
  {
    if list != [] {
      assert (list + [c])[1..] == list[1..] + [c];
      FieldTextsSnoc(list[1..], c);
    }
  }

  /** installed_to_c: both strings or neither. `ps` and `bs` are the strings made before. */
  method InstalledToC(heap: Heap, cryptex: InstalledCryptex, ghost base: Memory, ghost ps: seq<Ptr>, ghost bs: seq<Block>)
    returns (r: Result<InstalledCryptexC, Error>)
    requires Holds(heap.blocks, ps, bs) && Grown(base, heap.blocks, Owns(ps))
    modifies heap
    ensures r.Ok? <==> Convertible(cryptex)
    ensures r.Err? ==> r.error == FfiInvalidString && heap.blocks == old(heap.blocks)
    ensures r.Ok? ==> Holds(heap.blocks, ps + [r.value.identifier] + [r.value.version],
                            bs + [CStr(cryptex.identifier)] + [CStr(cryptex.version)])
    ensures r.Ok? ==> Grown(base, heap.blocks, Owns(ps + [r.value.identifier] + [r.value.version]))
  {
    if !NulFree(cryptex.identifier) {
      return Err(FfiInvalidString);
    }
    var identifier := Box(heap, CStr(cryptex.identifier), base, ps, bs);
    if !NulFree(cryptex.version) {
      heap.Free(identifier);
      return Err(FfiInvalidString);
    }
    var version := Box(heap, CStr(cryptex.version), base, ps + [identifier], bs + [CStr(cryptex.identifier)]);
    return Ok(InstalledCryptexC(identifier, version));
  }

  /** The array and the strings of a list that arrived. */
  ghost predicate Installed(mem: Memory, arr: Ptr, entries: seq<InstalledCryptexC>, list: seq<InstalledCryptex>) {
    && |entries| == |list|
    && PointsTo(mem, arr, Cryptexes(entries))
    && Holds(mem, Fields(entries), FieldTexts(list))
    && Own(arr) !! Owns(Fields(entries))
  }

  /** The first n entries are convertible, and no more of them are. */
  ghost predicate ConvertibleUpTo(installed: seq<InstalledCryptex>, n: nat) {
    && n <= |installed|
    && (forall k :: 0 <= k < n ==> Convertible(installed[k]))
    && (n < |installed| ==> !Convertible(installed[n]))
  }

  /** The conversion loop. It stops at the first entry that cannot be converted, and what it has
      made so far stays in memory. */
  method ConvertAll(heap: Heap, installed: seq<InstalledCryptex>) returns (ok: bool, list: seq<InstalledCryptexC>)
    modifies heap
    ensures ConvertibleUpTo(installed, |list|) && (ok <==> |list| == |installed|)
    ensures Holds(heap.blocks, Fields(list), FieldTexts(installed[..|list|]))
    ensures Grown(old(heap.blocks), heap.blocks, Owns(Fields(list)))
  {
    list := [];
    for i := 0 to |installed|
      invariant |list| == i && forall k :: 0 <= k < i ==> Convertible(installed[k])
      invariant Holds(heap.blocks, Fields(list), FieldTexts(installed[..i]))
      invariant Grown(old(heap.blocks), heap.blocks, Owns(Fields(list)))
    {
      var c := InstalledToC(heap, installed[i], old(heap.blocks), Fields(list), FieldTexts(installed[..i]));
      if c.Err? {
        return false, list;
      }
      FieldsSnoc(list, c.value);
      FieldTextsSnoc(installed[..i], installed[i]);
      assert installed[..i + 1] == installed[..i] + [installed[i]];
      list := list + [c.value];
    }
    return true, list;
  }

  /** What a failed conversion leaves in memory, and all it leaves: the strings of the entries before
      the first that could not be converted. */
  ghost predicate Leaked(before: Memory, now: Memory, installed: seq<InstalledCryptex>, entries: seq<InstalledCryptexC>) {
    && ConvertibleUpTo(installed, |entries|) && |entries| < |installed|
    && Holds(now, Fields(entries), FieldTexts(installed[..|entries|]))
    && Grown(before, now, Owns(Fields(entries)))
  }

  /** cryptexd_copy_installed on the device's list. */
  method CryptexdCopyInstalled(heap: Heap, device: Result<seq<InstalledCryptex>, Error>)
    returns (r: Result<(Ptr, nat), Error>, ghost entries: seq<InstalledCryptexC>)
    modifies heap
    ensures r.Ok? <==> device.Ok? && forall c :: c in device.value ==> Convertible(c)
    ensures r.Err? ==> r.error == if device.Err? then device.error else FfiInvalidString
    ensures r.Ok? ==> r.value.1 == |entries| && Installed(heap.blocks, r.value.0, entries, device.value)
    ensures r.Ok? ==> Grown(old(heap.blocks), heap.blocks, Owns(Fields(entries)) + Own(r.value.0))
    ensures device.Err? ==> heap.blocks == old(heap.blocks)
    ensures device.Ok? && r.Err? ==> Leaked(old(heap.blocks), heap.blocks, device.value, entries)
  {
    if device.Err? {
      return Err(device.error), [];
    }
    var ok, list := ConvertAll(heap, device.value);
    entries := list;
    if !ok {
      return Err(FfiInvalidString), list;
    }
    assert device.value[..|list|] == device.value;
    ghost var mem := heap.blocks;
    var arr := BoxSlice(heap, Cryptexes(list));
    assert forall k :: 0 <= k < |Fields(list)| ==> PointsTo(mem, Fields(list)[k], FieldTexts(device.value)[k]);
    r := Ok((arr, |list|));
  }

  /** take_installed: copies the strings an entry points to. */
  method TakeInstalled(heap: Heap, c: InstalledCryptexC) returns (out: InstalledCryptex)
    requires c.identifier.At? ==> c.identifier.addr in heap.blocks && heap.blocks[c.identifier.addr].CStr?
    requires c.version.At? ==> c.version.addr in heap.blocks && heap.blocks[c.version.addr].CStr?
    ensures out.identifier == if c.identifier.At? then UntilNul(heap.blocks[c.identifier.addr].text) else ""
    ensures out.version == if c.version.At? then UntilNul(heap.blocks[c.version.addr].text) else ""
  {
    out := InstalledCryptex("", "");
    if c.identifier.At? {
      out := out.(identifier := UntilNul(heap.blocks[c.identifier.addr].text));
    }
    if c.version.At? {
      out := out.(version := UntilNul(heap.blocks[c.version.addr].text));
    }
  }

  lemma {:induction false} FieldsAt(entries: seq<InstalledCryptexC>, list: seq<InstalledCryptex>, i: nat)
    requires i < |entries| == |list|
    ensures |Fields(entries)| == |FieldTexts(list)| == 2 * |entries|
    ensures Fields(entries)[2 * i] == entries[i].identifier && Fields(entries)[2 * i + 1] == entries[i].version
    ensures FieldTexts(list)[2 * i] == CStr(list[i].identifier) && FieldTexts(list)[2 * i + 1] == CStr(list[i].version)
    decreases |entries|
  {
    if i > 0 {
      FieldsAt(entries[1..], list[1..], i - 1);
    } else if |entries| > 1 {
      FieldsAt(entries[1..], list[1..], 0);
    }
  }

  lemma EntryAt(mem: Memory, arr: Ptr, entries: seq<InstalledCryptexC>, list: seq<InstalledCryptex>, i: nat)
    requires Installed(mem, arr, entries, list) && i < |list|
    ensures PointsTo(mem, entries[i].identifier, CStr(list[i].identifier))
    ensures PointsTo(mem, entries[i].version, CStr(list[i].version))
    ensures arr.At? && mem[arr.addr] == Cryptexes(entries)
  {
    FieldsAt(entries, list, i);
    assert PointsTo(mem, Fields(entries)[2 * i], FieldTexts(list)[2 * i]);
    assert PointsTo(mem, Fields(entries)[2 * i + 1], FieldTexts(list)[2 * i + 1]);
  }

  /** The first i entries of the list. */
  ghost predicate Copied(out: seq<InstalledCryptex>, list: seq<InstalledCryptex>, i: nat) {
    i <= |list| && out == list[..i]
  }

  lemma CopiedSnoc(out: seq<InstalledCryptex>, list: seq<InstalledCryptex>, i: nat)
    requires Copied(out, list, i) && i < |list|
    ensures Copied(out + [list[i]], list, i + 1)
  {
  }

  /** A convertible entry is read back as it was. */
  method CopyEntry(heap: Heap, arr: Ptr, i: nat, ghost entries: seq<InstalledCryptexC>, ghost list: seq<InstalledCryptex>)
    returns (c: InstalledCryptex)
    requires Installed(heap.blocks, arr, entries, list) && i < |list| && Convertible(list[i])
    ensures c == list[i]
  {
    EntryAt(heap.blocks, arr, entries, list, i);
    c := TakeInstalled(heap, heap.blocks[arr.addr].entries[i]);
  }

  method CopyEntries(heap: Heap, arr: Ptr, n: nat, ghost entries: seq<InstalledCryptexC>, ghost list: seq<InstalledCryptex>)
    returns (out: seq<InstalledCryptex>)
    requires Installed(heap.blocks, arr, entries, list) && n == |list|
    requires forall c :: c in list ==> Convertible(c)
    ensures out == list
  {
    out := [];
    for i := 0 to n
      invariant Copied(out, list, i)
    {
      assert list[i] in list;
      var c := CopyEntry(heap, arr, i, entries, list);
      CopiedSnoc(out, list, i);
      out := out + [c];
    }
  }

  /** cryptexd_free_installed: the array is taken apart, then every string of every entry is
      released. */
  method FreeInstalled(heap: Heap, arr: Ptr, n: nat, ghost base: Memory, ghost entries: seq<InstalledCryptexC>,
                       ghost list: seq<InstalledCryptex>)
    requires Installed(heap.blocks, arr, entries, list) && n == |list|
    requires Grown(base, heap.blocks, Owns(Fields(entries)) + Own(arr))
    modifies heap
    ensures heap.blocks == base
  {
    ghost var mem := heap.blocks;
    var all: seq<InstalledCryptexC> := [];
    if arr.At? {
      all := heap.blocks[arr.addr].entries;
      heap.Free(arr);
    }
    assert all == entries;
    assert forall k :: 0 <= k < |Fields(entries)| ==> PointsTo(mem, Fields(entries)[k], FieldTexts(list)[k]);
    assert entries[0..] == entries && list[0..] == list;
    for i := 0 to |all|
      invariant Holds(heap.blocks, Fields(entries[i..]), FieldTexts(list[i..]))
      invariant Grown(base, heap.blocks, Owns(Fields(entries[i..])))
    {
      FreeInstalledFields(heap, all[i], base, entries[i..], list[i..]);
      assert entries[i..][1..] == entries[i + 1..] && list[i..][1..] == list[i + 1..];
    }
    assert Owns(Fields(entries[|all|..])) == {};
  }

  /** free_installed_fields. */
  method FreeInstalledFields(heap: Heap, c: InstalledCryptexC, ghost base: Memory, ghost entries: seq<InstalledCryptexC>,
                             ghost list: seq<InstalledCryptex>)
    requires entries != [] && list != [] && entries[0] == c
    requires Holds(heap.blocks, Fields(entries), FieldTexts(list)) && Grown(base, heap.blocks, Owns(Fields(entries)))
    modifies heap
    ensures Holds(heap.blocks, Fields(entries[1..]), FieldTexts(list[1..]))
    ensures Grown(base, heap.blocks, Owns(Fields(entries[1..])))
  {
    ghost var ps, bs := Fields(entries), FieldTexts(list);
    assert ps[0] == c.identifier && ps[1..][0] == c.version && ps[1..][1..] == Fields(entries[1..]);
    assert bs[0] == CStr(list[0].identifier) && bs[1..][1..] == FieldTexts(list[1..]);
    assert PointsTo(heap.blocks, ps[0], bs[0]);
    if c.identifier != Null {
      Unbox(heap, c.identifier, base, {}, ps, bs);
    }
    assert PointsTo(heap.blocks, ps[1..][0], bs[1..][0]);
    if c.version != Null {
      Unbox(heap, c.version, base, {}, ps[1..], bs[1..]);
    }
  }

  /** Cryptexd::copy_installed: succeeds exactly when no string of the device's list holds a NUL;
      then the result is that list and every string and the array have been released. Otherwise
      nobody releases the strings converted before the offending entry. */
  method CopyInstalled(heap: Heap, device: Result<seq<InstalledCryptex>, Error>)
    returns (r: Result<seq<InstalledCryptex>, Error>, ghost leaked: seq<InstalledCryptexC>)
    modifies heap
    ensures r.Ok? <==> device.Ok? && forall c :: c in device.value ==> Convertible(c)
    ensures r.Ok? ==> r == device && heap.blocks == old(heap.blocks)
    ensures r.Err? ==> r.error == if device.Err? then device.error else FfiInvalidString
    ensures device.Err? ==> heap.blocks == old(heap.blocks)
    ensures device.Ok? && r.Err? ==> Leaked(old(heap.blocks), heap.blocks, device.value, leaked)
  {
    var answer, entries := CryptexdCopyInstalled(heap, device);
    if answer.Err? {
      return Err(answer.error), entries;
    }
    var (arr, n) := answer.value;
    var out := CopyEntries(heap, arr, n, entries, device.value);
    FreeInstalled(heap, arr, n, old(heap.blocks), entries, device.value);
    return Ok(out), [];
  }

  // ----- byte buffers -----

  /** write_data. */
  method WriteData(heap: Heap, data: seq<byte>) returns (p: Ptr, len: nat)
    modifies heap
    ensures len == |data| && PointsTo(heap.blocks, p, Bytes(data)) && Own(p) !! old(heap.blocks).Keys
    ensures heap.blocks == if p.At? then old(heap.blocks)[p.addr := Bytes(data)] else old(heap.blocks)
  {
    p := BoxSlice(heap, Bytes(data));
    len := |data|;
  }

  /** take_data: copies when there is anything to copy and releases in every case. */
  method TakeData(heap: Heap, p: Ptr, len: nat, ghost data: seq<byte>) returns (out: seq<byte>)
    requires PointsTo(heap.blocks, p, Bytes(data)) && len == |data|
    modifies heap
    ensures out == data && heap.blocks == old(heap.blocks) - Own(p)
  {
    out := [];
    if p != Null && len > 0 {
      out := heap.blocks[p.addr].data[..len];
    }
    DataFree(heap, p, len, data);
  }

  /** idevice_data_free: rebuilds the vector from pointer and length and drops it. */
  method DataFree(heap: Heap, p: Ptr, len: nat, ghost data: seq<byte>)
    requires p != Null ==> PointsTo(heap.blocks, p, Bytes(data)) && len == |data|
    modifies heap
    ensures heap.blocks == old(heap.blocks) - Own(p)
  {
    if p != Null && len > 0 {
      heap.Free(p);
    }
  }

  /** A buffer of any length, the empty one included, makes the crossing unchanged and leaves
      nothing behind. */
  method DataCrossing(heap: Heap, data: seq<byte>) returns (out: seq<byte>)
    modifies heap
    ensures out == data && heap.blocks == old(heap.blocks)
  {
    var p, len := WriteData(heap, data);
    out := TakeData(heap, p, len, data);
  }
}
