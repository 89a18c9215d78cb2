/** A directory listing crossing the boundary as a NULL-terminated array of C strings plus a
    count (ffi/src/afc.rs fills it, cpp/src/afc.cpp copies and releases it). */
module AfcListing {
  import opened Prelude
  import opened CHeap
  import opened Owned

  /** The names that survive CString::new(..).ok(). */
  function Listed(items: seq<string>): seq<string> {
    Filter(NulFree, items)
  }

  /** The listing as Rust leaves it: the array is written in every slot, its last slot and no
      other is null, and the slots before it lead to the names. */
  ghost predicate Listing(mem: Memory, entries: Ptr, ps: seq<Ptr>, names: seq<string>) {
    && entries.At? && entries.addr in mem
    && mem[entries.addr] == Ptrs(Written(ps + [Null]))
    && Holds(mem, ps, Texts(names))
    && entries.addr !in Owns(ps)
  }

  /** afc_list_directory; `device` is the device's answer. */
  method AfcListDirectory(heap: Heap, device: Result<seq<string>, string>)
    returns (r: Result<(Ptr, nat), string>, ghost ps: seq<Ptr>)
    modifies heap
    ensures r.Err? <==> device.Err?
    ensures r.Err? ==> heap.blocks == old(heap.blocks)
    ensures r.Ok? ==> r.value.1 == |Listed(device.value)| == |ps|
    ensures r.Ok? ==> Listing(heap.blocks, r.value.0, ps, Listed(device.value))
    ensures r.Ok? ==> Grown(old(heap.blocks), heap.blocks, Owns(ps) + Own(r.value.0))
  {
    ps := [];
    if device.Err? {
      return Err(device.error), [];
    }
    var cstrings := CollectCStrings(heap, device.value);
    ps := cstrings;
    var entries := FillEntries(heap, cstrings);
    r := Ok((entries, |cstrings|));
  }

  /** Allocates one slot per string and one more, writes the strings' pointers in order and null
      behind them. */
  method FillEntries(heap: Heap, cstrings: seq<Ptr>) returns (entries: Ptr)
    modifies heap
    ensures entries.At? && entries.addr !in old(heap.blocks)
    ensures heap.blocks == old(heap.blocks)[entries.addr := Ptrs(Written(cstrings + [Null]))]
  {
    var count := |cstrings|;
    var slots: seq<Option<Ptr>> := seq(count + 1, _ => None);
    entries := heap.Alloc(Ptrs(slots));
    for i := 0 to count
      invariant |slots| == count + 1
      invariant forall k :: 0 <= k < i ==> slots[k] == Some(cstrings[k])
      invariant heap.blocks == old(heap.blocks)[entries.addr := Ptrs(slots)]
    {
      slots := slots[i := Some(cstrings[i])];
      heap.Write(entries, Ptrs(slots));
    }
    slots := slots[count := Some(Null)];
    heap.Write(entries, Ptrs(slots));
    assert slots == Written(cstrings + [Null]);
  }

  /** items.into_iter().filter_map(|s| CString::new(s).ok()).collect() */
  method CollectCStrings(heap: Heap, items: seq<string>) returns (ps: seq<Ptr>)
    modifies heap
    ensures Holds(heap.blocks, ps, Texts(Listed(items))) && Grown(old(heap.blocks), heap.blocks, Owns(ps))
  {
    ps := [];
    for i := 0 to |items|
      invariant Holds(heap.blocks, ps, Texts(Listed(items[..i]))) && Grown(old(heap.blocks), heap.blocks, Owns(ps))
    {
      FilterSnoc(NulFree, items[..i], items[i]);
      assert items[..i + 1] == items[..i] + [items[i]];
      if NulFree(items[i]) {
        var p := Box(heap, CStr(items[i]), old(heap.blocks), ps, Texts(Listed(items[..i])));
        assert Texts(Listed(items[..i])) + [CStr(items[i])] == Texts(Listed(items[..i + 1]));
        ps := ps + [p];
      }
    }
    assert items[..|items|] == items;
  }

  /** Halfway through the copying loop: the array is intact, and besides it only the strings
      from slot i on are left. */
  ghost predicate Remaining(base: Memory, mem: Memory, entries: Ptr, ps: seq<Ptr>, names: seq<string>, i: nat)
    requires i <= |ps| == |names|
  {
    && entries.At? && entries.addr in mem && mem[entries.addr] == Ptrs(Written(ps + [Null]))
    && Holds(mem, ps[i..], Texts(names)[i..])
    && {entries.addr} !! Owns(ps[i..]) && Grown(base, mem, Owns(ps[i..]) + {entries.addr})
  }

  /** Copies the string in slot i, when there is one, and releases it. */
  method TakeEntry(heap: Heap, entries: Ptr, i: nat, ghost base: Memory, ghost ps: seq<Ptr>, ghost names: seq<string>)
    returns (name: Option<string>)
    requires i < |ps| == |names| && Remaining(base, heap.blocks, entries, ps, names, i)
    modifies heap
    ensures name == Some(UntilNul(names[i]))
    ensures Remaining(base, heap.blocks, entries, ps, names, i + 1)
  {
    ghost var rest, texts := ps[i..], Texts(names)[i..];
    assert rest[0] == ps[i] && texts[0] == CStr(names[i]) && PointsTo(heap.blocks, rest[0], texts[0]);
    assert rest[1..] == ps[i + 1..] && texts[1..] == Texts(names)[i + 1..];
    var p := heap.blocks[entries.addr].slots[i].value;
    if p == Null {
      return None;
    }
    name := Some(UntilNul(heap.blocks[p.addr].text));
    OwnsHead(rest);
    Unbox(heap, p, base, {entries.addr}, rest, texts);
  }

  /** AfcClient::list_directory: the copying loop releases each string as soon as it is copied,
      then the array. The memory is left as it was found. */
  method ListDirectory(heap: Heap, device: Result<seq<string>, string>) returns (r: Result<seq<string>, string>)
    modifies heap
    ensures heap.blocks == old(heap.blocks)
    ensures r == match device case Err(e) => Err(e) case Ok(items) => Ok(Listed(items))
  {
    var answer, ps := AfcListDirectory(heap, device);
    if answer.Err? {
      return Err(device.error);
    }
    assert ps[0..] == ps;
    var result := CopyEntries(heap, answer.value.0, answer.value.1, old(heap.blocks), ps, Listed(device.value));
    NamesAreNulFree(device.value);
    assert result == Listed(device.value);
    r := Ok(result);
  }

  /** The first i names have been copied. */
  ghost predicate Copied(result: seq<string>, names: seq<string>, i: nat) {
    |result| == i <= |names| && forall k :: 0 <= k < i ==> result[k] == UntilNul(names[k])
  }

  lemma CopiedSnoc(result: seq<string>, names: seq<string>, i: nat)
    requires Copied(result, names, i) && i < |names|
    ensures Copied(result + [UntilNul(names[i])], names, i + 1)
  {
  }

  method CopyEntries(heap: Heap, entries: Ptr, count: nat, ghost base: Memory, ghost ps: seq<Ptr>, ghost names: seq<string>)
    returns (result: seq<string>)
    requires count == |ps| == |names| && Remaining(base, heap.blocks, entries, ps, names, 0)
    modifies heap
    ensures heap.blocks == base
    ensures Copied(result, names, |names|)
  {
    result := [];
    for i := 0 to count
      invariant Copied(result, names, i)
      invariant Remaining(base, heap.blocks, entries, ps, names, i)
    {
      var name := TakeEntry(heap, entries, i, base, ps, names);
      if name.Some? {
        CopiedSnoc(result, names, i);
        result := result + [name.value];
      }
    }
    FreeEntries(heap, entries, base, ps, names);
  }

  method FreeEntries(heap: Heap, entries: Ptr, ghost base: Memory, ghost ps: seq<Ptr>, ghost names: seq<string>)
    requires |ps| == |names| && Remaining(base, heap.blocks, entries, ps, names, |ps|)
    modifies heap
    ensures heap.blocks == base
  {
    assert Owns(ps[|ps|..]) == {};
    heap.Free(entries);
  }

  lemma {:induction false} NamesAreNulFree(items: seq<string>)
    ensures forall n :: n in Listed(items) ==> NulFree(n) && n in items
  {
    if items != [] { NamesAreNulFree(items[1..]); }
  }

  /** The caller gets the device's list itself exactly when no name holds a NUL. */
  lemma ListingIsCompleteExactly(items: seq<string>)
    ensures Listed(items) == items <==> forall n :: n in items ==> NulFree(n)
  {
    FilterIsIdentity(NulFree, items);
  }
}
