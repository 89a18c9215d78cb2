/** Lists of notification names crossing the boundary in two encodings: an array closed by a
    null pointer, and an array with a count (cpp/src/notification_proxy.cpp,
    ffi/src/notification_proxy.rs). */
module Notifications {
  import opened Prelude
  import opened CHeap
  import opened Owned

  datatype Error = InvalidArg | InvalidString

  /** The names live in memory the caller keeps: pointer k leads to the text of name k. */
  ghost predicate Names(mem: Memory, cstrs: seq<Ptr>, names: seq<string>) {
    |cstrs| == |names| && forall k :: 0 <= k < |cstrs| ==> PointsTo(mem, cstrs[k], CStr(names[k]))
  }

  /** What a reader of the C strings gets: each name up to its first NUL, provided all are UTF-8. */
  function Seen(names: seq<string>): seq<string> {
    seq(|names|, k requires 0 <= k < |names| => UntilNul(names[k]))
  }

  ghost predicate AllValid(utf8: Utf8, names: seq<string>) {
    forall n :: n in Seen(names) ==> utf8.valid(n)
  }

  /** What the device is asked to observe under either encoding. */
  ghost function Terminated(utf8: Utf8, names: seq<string>): Result<seq<string>, Error> {
    if AllValid(utf8, names) then Ok(Seen(names)) else Err(InvalidString)
  }

  ghost function Counted(utf8: Utf8, names: seq<string>): Result<seq<string>, Error> {
    if names == [] then Err(InvalidArg) else Terminated(utf8, names)
  }

  // ----- the Rust decoders -----

  /** notification_proxy_observe_multiple: reads slots until it meets a null one. The slot behind
      the sentinel is never read, and every slot it reads has been written. */
  method DecodeTerminated(heap: Heap, utf8: Utf8, arr: Ptr, ghost cstrs: seq<Ptr>, ghost names: seq<string>)
    returns (r: Result<seq<string>, Error>)
    requires arr != Null ==> arr.At? && arr.addr in heap.blocks && heap.blocks[arr.addr] == Ptrs(Written(cstrs + [Null]))
    requires Names(heap.blocks, cstrs, names)
    ensures arr == Null ==> r == Err(InvalidArg)
    ensures arr != Null ==> r == Terminated(utf8, names)
  {
    if arr == Null {
      return Err(InvalidArg);
    }
    var decoded := [];
    var i := 0;
    while true
      invariant 0 <= i <= |cstrs|
      invariant decoded == Seen(names)[..i]
      invariant forall n :: n in decoded ==> utf8.valid(n)
      decreases |cstrs| - i
    {
      assert Written(cstrs + [Null])[i] == Some((cstrs + [Null])[i]);
      var p := heap.blocks[arr.addr].slots[i].value;
      assert p == Null <==> i == |cstrs| by { if i < |cstrs| { assert PointsTo(heap.blocks, cstrs[i], CStr(names[i])); } }
      if p == Null {
        break;
      }
      var text := TextAt(heap.blocks, p);
      assert text == Seen(names)[i];
      if !utf8.valid(text) {
        assert text in Seen(names);
        return Err(InvalidString);
      }
      decoded := decoded + [text];
      i := i + 1;
    }
    assert Seen(names)[..|cstrs|] == Seen(names);
    r := Ok(decoded);
  }

  /** remote_notification_proxy_observe_multiple. */
  method DecodeCounted(heap: Heap, utf8: Utf8, arr: Ptr, len: nat, ghost cstrs: seq<Ptr>, ghost names: seq<string>)
    returns (r: Result<seq<string>, Error>)
    requires arr != Null ==> PointsTo(heap.blocks, arr, Ptrs(Written(cstrs)))
    requires Names(heap.blocks, cstrs, names) && len == |cstrs|
    ensures arr == Null ==> r == Err(InvalidArg)
    ensures arr != Null ==> r == Terminated(utf8, names)
  {
    if arr == Null {
      return Err(InvalidArg);
    }
    var collected := [];
    for i := 0 to len
      invariant collected == Seen(names)[..i]
      invariant forall n :: n in collected ==> utf8.valid(n)
    {
      assert Written(cstrs)[i] == Some(cstrs[i]) && PointsTo(heap.blocks, cstrs[i], CStr(names[i])) && Written(cstrs) != [];
      var p := heap.blocks[arr.addr].slots[i].value;
      if p == Null {
        return Err(InvalidArg);
      }
      var text := TextAt(heap.blocks, p);
      assert text == Seen(names)[i];
      if !utf8.valid(text) {
        assert text in Seen(names);
        return Err(InvalidString);
      }
      collected := collected + [text];
    }
    assert Seen(names)[..|cstrs|] == Seen(names);
    r := Ok(collected);
  }

  // ----- the C++ encoders, each around the call it makes -----

  /** NotificationProxy::observe_notifications: one pointer per name, then null. */
  method ObserveTerminated(heap: Heap, utf8: Utf8, cstrs: seq<Ptr>, ghost names: seq<string>) returns (r: Result<seq<string>, Error>)
    requires Names(heap.blocks, cstrs, names)
    modifies heap
    ensures heap.blocks == old(heap.blocks)
    ensures r == Terminated(utf8, names)
  {
    var ptrs: seq<Ptr> := [];
    for i := 0 to |cstrs|
      invariant ptrs == cstrs[..i]
    {
      ptrs := ptrs + [cstrs[i]];
    }
    ptrs := ptrs + [Null];
    assert ptrs == cstrs + [Null];
    var arr := heap.Alloc(Ptrs(Written(ptrs)));
    NamesStay(old(heap.blocks), heap.blocks, cstrs, names);
    r := DecodeTerminated(heap, utf8, arr, cstrs, names);
    heap.Free(arr);
  }

  /** RemoteNotificationProxy::observe_notifications: no array at all for an empty list. */
  method ObserveCounted(heap: Heap, utf8: Utf8, cstrs: seq<Ptr>, ghost names: seq<string>) returns (r: Result<seq<string>, Error>)
    requires Names(heap.blocks, cstrs, names)
    modifies heap
    ensures heap.blocks == old(heap.blocks)
    ensures r == Counted(utf8, names)
  {
    var ptrs: seq<Ptr> := [];
    for i := 0 to |cstrs|
      invariant ptrs == cstrs[..i]
    {
      ptrs := ptrs + [cstrs[i]];
    }
    assert ptrs == cstrs;
    if ptrs == [] {
      r := DecodeCounted(heap, utf8, Null, 0, [], []);
    } else {
      var arr := heap.Alloc(Ptrs(Written(ptrs)));
      NamesStay(old(heap.blocks), heap.blocks, cstrs, names);
      r := DecodeCounted(heap, utf8, arr, |ptrs|, cstrs, names);
      heap.Free(arr);
    }
  }

  lemma NamesStay(mem: Memory, now: Memory, cstrs: seq<Ptr>, names: seq<string>)
    requires Names(mem, cstrs, names) && (forall a :: a in mem ==> a in now && now[a] == mem[a])
    ensures Names(now, cstrs, names)
  {
    forall k | 0 <= k < |cstrs| ensures PointsTo(now, cstrs[k], CStr(names[k])) {
      assert PointsTo(mem, cstrs[k], CStr(names[k]));
    }
  }

  // ----- the two encodings compared -----

  /** Which lists fail, and how: a name that is not UTF-8 up to its first NUL fails either encoding as an
      invalid string, an empty list fails the counted one as an invalid argument, and nothing else
      fails; what arrives otherwise is each name up to its first NUL. */
  lemma FailsExactly(utf8: Utf8, names: seq<string>)
    ensures Terminated(utf8, names).Err? <==> exists k :: 0 <= k < |names| && !utf8.valid(UntilNul(names[k]))
    ensures Counted(utf8, names).Err? <==> names == [] || Terminated(utf8, names).Err?
    ensures Terminated(utf8, names).Err? ==> Terminated(utf8, names).error == InvalidString
    ensures Counted(utf8, names).Err? ==> Counted(utf8, names).error == if names == [] then InvalidArg else InvalidString
    ensures Terminated(utf8, names).Ok? ==> |Terminated(utf8, names).value| == |names|
    ensures Terminated(utf8, names).Ok? ==> forall k :: 0 <= k < |names| ==> Terminated(utf8, names).value[k] == UntilNul(names[k])
  {
    forall k | 0 <= k < |names| ensures Seen(names)[k] in Seen(names) && Seen(names)[k] == UntilNul(names[k]) {
    }
  }

  /** The encodings agree on exactly the non-empty lists: the counted one refuses the empty list,
      which the terminated one accepts. Each delivers the very list it was given exactly when every
      name is NUL-free UTF-8 (and, for the counted one, there is one). */
  lemma DeliveredUnchangedExactly(utf8: Utf8, names: seq<string>)
    ensures Terminated(utf8, names) == Counted(utf8, names) <==> names != []
    ensures Terminated(utf8, names) == Ok(names) <==> forall n :: n in names ==> NulFree(n) && utf8.valid(n)
    ensures Counted(utf8, names) == Ok(names) <==> names != [] && forall n :: n in names ==> NulFree(n) && utf8.valid(n)
  {
    if forall n :: n in names ==> NulFree(n) && utf8.valid(n) {
      assert forall k :: 0 <= k < |names| ==> names[k] in names && UntilNul(names[k]) == names[k];
      assert Seen(names) == names;
    }
    if Seen(names) == names {
      forall n | n in names ensures NulFree(n) {
        var k :| 0 <= k < |names| && names[k] == n;
        assert Seen(names)[k] == UntilNul(n);
      }
    }
  }
}
