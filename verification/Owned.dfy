/** Which blocks of the shared memory a list of raw pointers owns. */
module Owned {
  import opened Prelude
  import opened CHeap

  /** Blocks Rust never allocates: a boxed slice of no elements. A C string has its terminator. */
  predicate ZeroSize(b: Block) {
    match b
    case Bytes(d) => d == []
    case Ptrs(s) => s == []
    case Sizes(s) => s == []
    case Cryptexes(e) => e == []
    case _ => false
  }

  function Own(p: Ptr): set<nat> {
    match p case At(a) => {a} case _ => {}
  }

  ghost function Owns(ps: seq<Ptr>): set<nat> {
    set k | 0 <= k < |ps| && ps[k].At? :: ps[k].addr
  }

  /** What CStr::from_ptr reads. */
  function TextAt(mem: Memory, p: Ptr): string
    requires p.At? && p.addr in mem && mem[p.addr].CStr?
  {
    UntilNul(mem[p.addr].text)
  }

  /** Pointer p leads to content b. */
  ghost predicate PointsTo(mem: Memory, p: Ptr, b: Block) {
    if ZeroSize(b) then p == Dangling else p.At? && p.addr in mem && mem[p.addr] == b
  }

  /** The pointers lead to the contents, each to a block of its own. */
  ghost predicate Holds(mem: Memory, ps: seq<Ptr>, bs: seq<Block>) {
    && |ps| == |bs|
    && (forall k :: 0 <= k < |ps| ==> PointsTo(mem, ps[k], bs[k]))
    && (forall j, k :: 0 <= j < k < |ps| && ps[j].At? ==> ps[j] != ps[k])
  }

  /** The content of a fully written pointer array. */
  function Written(ps: seq<Ptr>): seq<Option<Ptr>> {
    seq(|ps|, k requires 0 <= k < |ps| => Some(ps[k]))
  }

  function Texts(texts: seq<string>): seq<Block> {
    seq(|texts|, k requires 0 <= k < |texts| => CStr(texts[k]))
  }

  function Slices(data: seq<seq<byte>>): seq<Block> {
    seq(|data|, k requires 0 <= k < |data| => Bytes(data[k]))
  }

  lemma OwnsSnoc(ps: seq<Ptr>, p: Ptr)
    ensures Owns(ps + [p]) == Owns(ps) + Own(p)
  {
    var qs := ps + [p];
    forall a | a in Owns(ps) + Own(p) ensures a in Owns(qs) {
      if a in Owns(ps) {
        var k :| 0 <= k < |ps| && ps[k] == At(a);
        assert qs[k] == ps[k];
      } else {
        assert qs[|ps|] == p;
      }
    }
    forall a | a in Owns(qs) ensures a in Owns(ps) + Own(p) {
      var k :| 0 <= k < |qs| && qs[k] == At(a);
    }
  }

  lemma OwnsHead(ps: seq<Ptr>)
    requires ps != []
    ensures Owns(ps) == Own(ps[0]) + Owns(ps[1..])
  {
    var tail := ps[1..];
    forall a | a in Owns(ps) ensures a in Own(ps[0]) + Owns(tail) {
      var k :| 0 <= k < |ps| && ps[k] == At(a);
      if k > 0 { assert tail[k - 1] == ps[k]; }
    }
    forall a | a in Owns(tail) ensures a in Owns(ps) {
      var k :| 0 <= k < |tail| && tail[k] == At(a);
      assert ps[k + 1] == tail[k];
    }
  }

  /** Box::into_raw / CString::into_raw / mem::forget of a slice that is the list's next element. */
  method Box(heap: Heap, b: Block, ghost base: Memory, ghost ps: seq<Ptr>, ghost bs: seq<Block>) returns (p: Ptr)
    requires Holds(heap.blocks, ps, bs) && Grown(base, heap.blocks, Owns(ps))
    modifies heap
    ensures PointsTo(heap.blocks, p, b) && Own(p) !! old(heap.blocks).Keys
    ensures p.At? ==> heap.blocks == old(heap.blocks)[p.addr := b]
    ensures !p.At? ==> heap.blocks == old(heap.blocks)
    ensures Holds(heap.blocks, ps + [p], bs + [b]) && Grown(base, heap.blocks, Owns(ps + [p]))
  {
    if ZeroSize(b) {
      p := Dangling;
    } else {
      p := heap.Alloc(b);
    }
    OwnsSnoc(ps, p);
  }

  /** A boxed slice on its own. */
  method BoxSlice(heap: Heap, b: Block) returns (p: Ptr)
    modifies heap
    ensures PointsTo(heap.blocks, p, b) && Own(p) !! old(heap.blocks).Keys && p != Null
    ensures heap.blocks == if p.At? then old(heap.blocks)[p.addr := b] else old(heap.blocks)
  {
    if ZeroSize(b) {
      p := Dangling;
    } else {
      p := heap.Alloc(b);
    }
  }

  /** Releasing the first of the remaining pointers leaves the rest, and the blocks `extra`, in
      place. A pointer behind which nothing was allocated releases nothing. */
  method Unbox(heap: Heap, p: Ptr, ghost base: Memory, ghost extra: set<nat>, ghost ps: seq<Ptr>, ghost bs: seq<Block>)
    requires ps != [] && ps[0] == p && Holds(heap.blocks, ps, bs)
    requires extra !! Owns(ps) && Grown(base, heap.blocks, Owns(ps) + extra)
    modifies heap
    ensures heap.blocks == old(heap.blocks) - Own(p)
    ensures Holds(heap.blocks, ps[1..], bs[1..])
    ensures extra !! Owns(ps[1..]) && Grown(base, heap.blocks, Owns(ps[1..]) + extra)
  {
    OwnsHead(ps);
    assert forall k :: 1 <= k < |ps| ==> ps[1..][k - 1] == ps[k];
    if p.At? {
      assert p.addr !in Owns(ps[1..]);
      heap.Free(p);
    }
    assert old(heap.blocks) - Own(p) == heap.blocks;
  }

  /** Makes a C string of each text in turn. */
  method BoxStrings(heap: Heap, texts: seq<string>) returns (ps: seq<Ptr>)
    modifies heap
    ensures Holds(heap.blocks, ps, Texts(texts)) && Grown(old(heap.blocks), heap.blocks, Owns(ps))
  {
    ps := [];
    ghost var bs := Texts(texts);
    for i := 0 to |texts|
      invariant Holds(heap.blocks, ps, bs[..i]) && Grown(old(heap.blocks), heap.blocks, Owns(ps))
    {
      assert bs[..i] + [CStr(texts[i])] == bs[..i + 1];
      var p := Box(heap, CStr(texts[i]), old(heap.blocks), ps, bs[..i]);
      ps := ps + [p];
    }
    assert bs[..|texts|] == bs;
  }

  /** Memory that only grows still holds what it held. */
  lemma HoldsStay(mem: Memory, now: Memory, own: set<nat>, ps: seq<Ptr>, bs: seq<Block>)
    requires Holds(mem, ps, bs) && Grown(mem, now, own)
    ensures Holds(now, ps, bs) && own !! Owns(ps)
  {
    forall k | 0 <= k < |ps| ensures PointsTo(now, ps[k], bs[k]) {
      assert PointsTo(mem, ps[k], bs[k]);
    }
    assert forall k :: 0 <= k < |ps| && ps[k].At? ==> PointsTo(mem, ps[k], bs[k]);
  }
}
