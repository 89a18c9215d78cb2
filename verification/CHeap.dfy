/** One abstract allocator for the memory both sides of the C boundary allocate and free. */
module CHeap {
  import opened Prelude

  /** `Dangling` is the non-null pointer Rust gives to a slice of zero elements: nothing is
      allocated behind it and releasing it releases nothing. */
  datatype Ptr = Null | Dangling | At(addr: nat)

  /** `InstalledCryptexC` (ffi/src/cryptexd.rs:34-39). */
  datatype InstalledCryptexC = InstalledCryptexC(identifier: Ptr, version: Ptr)

  datatype Block =
    | CStr(text: string)                          // the characters before the terminator
    | Bytes(data: seq<byte>)
    | Ptrs(slots: seq<Option<Ptr>>)               // None: allocated but not yet written
    | Sizes(sizes: seq<nat>)
    | Cryptexes(entries: seq<InstalledCryptexC>)
    | Command(name: Ptr, argv: Ptr, argc: nat)    // DebugserverCommandHandle

  type Memory = map<nat, Block>

  class Heap {
    var blocks: Memory

    constructor ()
      ensures blocks == map[]
    {
      blocks := map[];
    }

    /** Allocates at some address that is not in use; nothing more is known about it. */
    method Alloc(b: Block) returns (p: Ptr)
      modifies this
      ensures p.At? && p.addr !in old(blocks) && blocks == old(blocks)[p.addr := b]
    {
      var a := 0;
      while a in blocks
        invariant blocks == old(blocks)
        decreases Above(blocks.Keys, a)
      {
        AboveShrinks(blocks.Keys, a);
        a := a + 1;
      }
      blocks := blocks[a := b];
      p := At(a);
    }

    /** Releasing anything but a live block is an error, so a second release is too. */
    method Free(p: Ptr)
      requires p.At? && p.addr in blocks
      modifies this
      ensures blocks == old(blocks) - {p.addr}
    {
      blocks := blocks - {p.addr};
    }

    method Write(p: Ptr, b: Block)
      requires p.At? && p.addr in blocks
      modifies this
      ensures blocks == old(blocks)[p.addr := b]
    {
      blocks := blocks[p.addr := b];
    }
  }

  ghost function Above(s: set<nat>, a: nat): set<nat> {
    set k | k in s && a <= k
  }

  lemma AboveShrinks(s: set<nat>, a: nat)
    requires a in s
    ensures Above(s, a + 1) < Above(s, a)
  {
    assert a in Above(s, a) && a !in Above(s, a + 1);
  }

  /** `now` is `base` with the blocks at the addresses `own` added and nothing else changed. */
  ghost predicate Grown(base: Memory, now: Memory, own: set<nat>) {
    && own !! base.Keys
    && now.Keys == base.Keys + own
    && forall a :: a in base ==> now[a] == base[a]
  }
}
