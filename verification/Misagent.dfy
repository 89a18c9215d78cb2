/** Provisioning profiles crossing the boundary as two parallel arrays, one of pointers and one
    of lengths (ffi/src/misagent.rs, cpp/src/misagent.cpp). */
module Misagent {
  import opened Prelude
  import opened CHeap
  import opened Owned

  function Lengths(profiles: seq<seq<byte>>): seq<nat> {
    seq(|profiles|, k requires 0 <= k < |profiles| => |profiles[k]|)
  }

  /** The two arrays are parallel, slot k leads to profile k, and an empty array or profile is
      not backed by any block. */
  ghost predicate Parallel(mem: Memory, ptrs: Ptr, lens: Ptr, ps: seq<Ptr>, profiles: seq<seq<byte>>) {
    && PointsTo(mem, ptrs, Ptrs(Written(ps)))
    && PointsTo(mem, lens, Sizes(Lengths(profiles)))
    && Holds(mem, ps, Slices(profiles))
    && Own(ptrs) !! Own(lens) && Own(ptrs) + Own(lens) !! Owns(ps)
  }

  /** misagent_copy_all on the device's profiles. */
  method MisagentCopyAll(heap: Heap, device: Result<seq<seq<byte>>, string>)
    returns (r: Result<(Ptr, Ptr, nat), string>, ghost ps: seq<Ptr>)
    modifies heap
    ensures r.Err? <==> device.Err?
    ensures r.Err? ==> heap.blocks == old(heap.blocks)
    ensures r.Ok? ==> r.value.2 == |ps| == |device.value|
    ensures r.Ok? ==> Parallel(heap.blocks, r.value.0, r.value.1, ps, device.value)
    ensures r.Ok? ==> Grown(old(heap.blocks), heap.blocks, Owns(ps) + Own(r.value.0) + Own(r.value.1))
  {
    if device.Err? {
      return Err(device.error), [];
    }
    var profiles := device.value;
    var profilePtrs, profileLens := BoxProfiles(heap, profiles);
    ps := profilePtrs;
    ghost var base, mem := old(heap.blocks), heap.blocks;
    var ptrs := BoxSlice(heap, Ptrs(Written(profilePtrs)));
    var lens := BoxSlice(heap, Sizes(profileLens));
    assert forall k :: 0 <= k < |ps| ==> PointsTo(mem, ps[k], Slices(profiles)[k]);
    r := Ok((ptrs, lens, |profiles|));
  }

  /** The loop that boxes each profile and pushes its pointer and its length. */
  method BoxProfiles(heap: Heap, profiles: seq<seq<byte>>) returns (ps: seq<Ptr>, lens: seq<nat>)
    modifies heap
    ensures lens == Lengths(profiles)
    ensures Holds(heap.blocks, ps, Slices(profiles)) && Grown(old(heap.blocks), heap.blocks, Owns(ps))
  {
    ps, lens := [], [];
    ghost var slices := Slices(profiles);
    for i := 0 to |profiles|
      invariant |lens| == i && forall k :: 0 <= k < i ==> lens[k] == |profiles[k]|
      invariant Holds(heap.blocks, ps, slices[..i]) && Grown(old(heap.blocks), heap.blocks, Owns(ps))
    {
      assert slices[..i] + [Bytes(profiles[i])] == slices[..i + 1];
      var p := Box(heap, Bytes(profiles[i]), old(heap.blocks), ps, slices[..i]);
      ps := ps + [p];
      lens := lens + [|profiles[i]|];
    }
    assert slices[..|profiles|] == slices;
  }

  /** Reading slot k of an array behind `p`; an array of no elements has no slots to read. */
  function PtrAt(mem: Memory, p: Ptr, k: nat): Ptr
    requires p.At? && p.addr in mem && mem[p.addr].Ptrs? && k < |mem[p.addr].slots| && mem[p.addr].slots[k].Some?
  {
    mem[p.addr].slots[k].value
  }

  function LenAt(mem: Memory, p: Ptr, k: nat): nat
    requires p.At? && p.addr in mem && mem[p.addr].Sizes? && k < |mem[p.addr].sizes|
  {
    mem[p.addr].sizes[k]
  }

  /** The C++ copying loop. */
  method CopyProfiles(heap: Heap, ptrs: Ptr, lens: Ptr, count: nat, ghost ps: seq<Ptr>, ghost profiles: seq<seq<byte>>)
    returns (result: seq<seq<byte>>)
    requires Parallel(heap.blocks, ptrs, lens, ps, profiles) && count == |profiles|
    ensures result == profiles
  {
    result := [];
    for i := 0 to count
      invariant result == profiles[..i]
    {
      assert PointsTo(heap.blocks, ps[i], Slices(profiles)[i]) && Written(ps) != [] && Lengths(profiles) != [];
      var p, n := PtrAt(heap.blocks, ptrs, i), LenAt(heap.blocks, lens, i);
      if p != Null && n > 0 {
        result := result + [heap.blocks[p.addr].data[..n]];
      } else {
        result := result + [[]];
      }
      assert result[i] == profiles[i] && profiles[..i + 1] == profiles[..i] + [profiles[i]];
    }
  }

  /** misagent_free_profiles: nothing at all for an empty list, otherwise every profile with the
      length recorded beside it, then both arrays. */
  method MisagentFreeProfiles(heap: Heap, ptrs: Ptr, lens: Ptr, count: nat, ghost base: Memory, ghost ps: seq<Ptr>,
                              ghost profiles: seq<seq<byte>>)
    requires Parallel(heap.blocks, ptrs, lens, ps, profiles) && count == |profiles|
    requires Grown(base, heap.blocks, Owns(ps) + Own(ptrs) + Own(lens))
    modifies heap
    ensures heap.blocks == base
  {
    if count == 0 {
      assert Owns(ps) == {};
      return;
    }
    ghost var arrays := Own(ptrs) + Own(lens);
    assert ps[0..] == ps && Slices(profiles)[0..] == Slices(profiles);
    for i := 0 to count
      invariant StillHeld(base, heap.blocks, ptrs, lens, ps, profiles, i)
    {
      FreeProfile(heap, ptrs, lens, i, base, ps, profiles);
    }
    assert Owns(ps[count..]) == {};
    heap.Free(ptrs);
    heap.Free(lens);
  }

  ghost predicate StillHeld(base: Memory, mem: Memory, ptrs: Ptr, lens: Ptr, ps: seq<Ptr>, profiles: seq<seq<byte>>, i: nat)
    requires i <= |ps| == |profiles|
  {
    && PointsTo(mem, ptrs, Ptrs(Written(ps))) && PointsTo(mem, lens, Sizes(Lengths(profiles)))
    && Own(ptrs) !! Own(lens)
    && Holds(mem, ps[i..], Slices(profiles)[i..])
    && Own(ptrs) + Own(lens) !! Owns(ps[i..])
    && Grown(base, mem, Owns(ps[i..]) + (Own(ptrs) + Own(lens)))
  }

  /** Rebuilds the boxed slice from pointer and length and drops it. The length must be the one
      the slice was allocated with. */
  method FreeProfile(heap: Heap, ptrs: Ptr, lens: Ptr, i: nat, ghost base: Memory, ghost ps: seq<Ptr>, ghost profiles: seq<seq<byte>>)
    requires i < |ps| == |profiles| && StillHeld(base, heap.blocks, ptrs, lens, ps, profiles, i)
    modifies heap
    ensures StillHeld(base, heap.blocks, ptrs, lens, ps, profiles, i + 1)
  {
    ghost var rest, slices := ps[i..], Slices(profiles)[i..];
    assert rest[0] == ps[i] && slices[0] == Bytes(profiles[i]) && PointsTo(heap.blocks, rest[0], slices[0]);
    assert rest[1..] == ps[i + 1..] && slices[1..] == Slices(profiles)[i + 1..];
    assert Written(ps) != [] && Lengths(profiles) != [];
    var p, n := PtrAt(heap.blocks, ptrs, i), LenAt(heap.blocks, lens, i);
    if p != Null {
      assert if n == 0 then p == Dangling else |heap.blocks[p.addr].data| == n;
      OwnsHead(rest);
      Unbox(heap, p, base, Own(ptrs) + Own(lens), rest, slices);
    }
  }

  /** Misagent::copy_all: the device's profiles, all of them and unchanged, empty ones included,
      and the memory as it was found. */
  method CopyAll(heap: Heap, device: Result<seq<seq<byte>>, string>) returns (r: Result<seq<seq<byte>>, string>)
    modifies heap
    ensures r == device
    ensures heap.blocks == old(heap.blocks)
  {
    var answer, ps := MisagentCopyAll(heap, device);
    if answer.Err? {
      return Err(device.error);
    }
    var (ptrs, lens, count) := answer.value;
    var result := [];
    if ptrs != Null && lens != Null {
      result := CopyProfiles(heap, ptrs, lens, count, ps, device.value);
      MisagentFreeProfiles(heap, ptrs, lens, count, old(heap.blocks), ps, device.value);
    }
    return Ok(result);
  }
}
