/** Building, reading back and releasing a debugserver command (ffi/src/debug_proxy.rs). */
module DebugCommands {
  import opened Prelude
  import opened CHeap
  import opened Owned

  /** What the caller passes: each pointer is null or leads to a C string. */
  ghost predicate CallerString(mem: Memory, p: Ptr) {
    p == Null || (p.At? && p.addr in mem && mem[p.addr].CStr?)
  }

  /** The text an argument contributes: none when the pointer is null or its text is not UTF-8. */
  ghost function Argument(mem: Memory, utf8: Utf8, p: Ptr): seq<string>
    requires CallerString(mem, p)
  {
    if p != Null && utf8.valid(TextAt(mem, p)) then [TextAt(mem, p)] else []
  }

  /** The in-order subsequence of the valid arguments. */
  ghost function Arguments(mem: Memory, utf8: Utf8, ps: seq<Ptr>): seq<string>
    requires forall k :: 0 <= k < |ps| ==> CallerString(mem, ps[k])
  {
    if ps == [] then [] else Arguments(mem, utf8, ps[..|ps| - 1]) + Argument(mem, utf8, ps[|ps| - 1])
  }

  /** One more argument adds its text at the end when it is there and is UTF-8, and nothing otherwise. */
  lemma OneMoreArgument(mem: Memory, utf8: Utf8, ps: seq<Ptr>, p: Ptr)
    requires (forall k :: 0 <= k < |ps| ==> CallerString(mem, ps[k])) && CallerString(mem, p)
    ensures p == Null || !utf8.valid(TextAt(mem, p)) ==> Arguments(mem, utf8, ps + [p]) == Arguments(mem, utf8, ps)
    ensures p != Null && utf8.valid(TextAt(mem, p)) ==> Arguments(mem, utf8, ps + [p]) == Arguments(mem, utf8, ps) + [TextAt(mem, p)]
  {
    assert (ps + [p])[..|ps|] == ps;
  }

  /** The pointer leads to a text that is UTF-8. */
  ghost predicate ValidArgument(mem: Memory, utf8: Utf8, p: Ptr) {
    p.At? && p.addr in mem && mem[p.addr].CStr? && utf8.valid(TextAt(mem, p))
  }

  /** The texts are those of the valid pointers, in the order of the pointers; `kept` gives the place each
      comes from. */
  ghost predicate KeptFrom(mem: Memory, utf8: Utf8, ps: seq<Ptr>, kept: seq<nat>, texts: seq<string>) {
    && |kept| == |texts|
    && (forall j, k :: 0 <= j < k < |kept| ==> kept[j] < kept[k])
    && (forall j :: 0 <= j < |kept| ==>
      kept[j] < |ps| && ValidArgument(mem, utf8, ps[kept[j]]) && texts[j] == TextAt(mem, ps[kept[j]]))
    && (forall i :: 0 <= i < |ps| && ValidArgument(mem, utf8, ps[i]) ==> i in kept)
  }

  lemma KeptSnoc(mem: Memory, utf8: Utf8, ps: seq<Ptr>, kept: seq<nat>, texts: seq<string>, p: Ptr)
    requires KeptFrom(mem, utf8, ps, kept, texts)
    ensures ValidArgument(mem, utf8, p) ==> KeptFrom(mem, utf8, ps + [p], kept + [|ps|], texts + [TextAt(mem, p)])
    ensures !ValidArgument(mem, utf8, p) ==> KeptFrom(mem, utf8, ps + [p], kept, texts)
  {
    if ValidArgument(mem, utf8, p) {
      assert (kept + [|ps|])[|kept|] == |ps|;
      assert forall i :: i in kept ==> i in kept + [|ps|];
    }
  }

  /** The arguments kept are exactly the valid ones, in order. */
  lemma {:induction false} ArgumentsKept(mem: Memory, utf8: Utf8, ps: seq<Ptr>) returns (kept: seq<nat>)
    requires forall k :: 0 <= k < |ps| ==> CallerString(mem, ps[k])
    ensures KeptFrom(mem, utf8, ps, kept, Arguments(mem, utf8, ps))
  {
    if ps == [] {
      kept := [];
    } else {
      var init, p := ps[..|ps| - 1], ps[|ps| - 1];
      kept := ArgumentsKept(mem, utf8, init);
      assert init + [p] == ps;
      OneMoreArgument(mem, utf8, init, p);
      KeptSnoc(mem, utf8, init, kept, Arguments(mem, utf8, init), p);
      kept := if ValidArgument(mem, utf8, p) then kept + [|init|] else kept;
    }
  }

  /** Arguments that are all valid come through unchanged, place by place. */
  lemma {:induction false} ValidArgumentsUnchanged(mem: Memory, utf8: Utf8, ps: seq<Ptr>)
    requires forall k :: 0 <= k < |ps| ==> CallerString(mem, ps[k])
    requires forall k :: 0 <= k < |ps| ==> ValidArgument(mem, utf8, ps[k])
    ensures |Arguments(mem, utf8, ps)| == |ps|
    ensures forall k :: 0 <= k < |ps| ==> ValidArgument(mem, utf8, ps[k]) && Arguments(mem, utf8, ps)[k] == TextAt(mem, ps[k])
  {
    if ps != [] {
      var init, p := ps[..|ps| - 1], ps[|ps| - 1];
      ValidArgumentsUnchanged(mem, utf8, init);
      assert init + [p] == ps;
      OneMoreArgument(mem, utf8, init, p);
    }
  }

  /** The argv array as the caller lays it out. */
  ghost predicate CallerArgv(mem: Memory, argv: Ptr, ps: seq<Ptr>) {
    && (argv == Null || ps == [] || PointsTo(mem, argv, Ptrs(Written(ps))))
    && forall k :: 0 <= k < |ps| ==> CallerString(mem, ps[k])
  }

  /** The arguments the caller means: none without an array. */
  ghost function Meant(mem: Memory, utf8: Utf8, argv: Ptr, ps: seq<Ptr>): seq<string>
    requires CallerArgv(mem, argv, ps)
  {
    if argv == Null then [] else Arguments(mem, utf8, ps)
  }

  /** A command as it lies in memory: the handle, the array of argument pointers (null when there
      are no arguments), and `ps`, the pointers to the name and then to the arguments. */
  ghost predicate IsCommand(mem: Memory, h: Ptr, argv: Ptr, ps: seq<Ptr>, name: string, args: seq<string>) {
    && Holds(mem, ps, Texts([name] + args))
    && h.At? && h.addr in mem && mem[h.addr] == Command(ps[0], argv, |args|)
    && (if args == [] then argv == Null else argv.At? && argv.addr in mem && mem[argv.addr] == Ptrs(Written(ps[1..])))
    && h != argv
    && Own(h) + Own(argv) !! Owns(ps)
  }

  /** The loop that keeps the valid arguments. */
  method CollectArguments(heap: Heap, utf8: Utf8, argv: Ptr, argc: nat, ghost ps: seq<Ptr>) returns (args: seq<string>)
    requires CallerArgv(heap.blocks, argv, ps) && argc == |ps|
    ensures args == Meant(heap.blocks, utf8, argv, ps)
    ensures forall a :: a in args ==> NulFree(a) && utf8.valid(a)
  {
    args := [];
    if argv != Null && argc > 0 {
      for i := 0 to argc
        invariant args == Arguments(heap.blocks, utf8, ps[..i])
        invariant forall a :: a in args ==> NulFree(a) && utf8.valid(a)
      {
        assert ps[..i + 1][..i] == ps[..i] && Written(ps)[i] == Some(ps[i]) && Written(ps) != [];
        var p := heap.blocks[argv.addr].slots[i].value;
        if p != Null {
          var text := TextAt(heap.blocks, p);
          if utf8.valid(text) {
            args := args + [text];
          }
        }
      }
      assert ps[..argc] == ps;
    }
  }

  /** debugserver_command_new. The name and the arguments come out of C strings, so making C
      strings of them again cannot fail. */
  method CommandNew(heap: Heap, utf8: Utf8, name: Ptr, argv: Ptr, argc: nat, ghost callerPs: seq<Ptr>)
    returns (h: Ptr, ghost arr: Ptr, ghost ps: seq<Ptr>)
    requires CallerString(heap.blocks, name) && CallerArgv(heap.blocks, argv, callerPs) && argc == |callerPs|
    modifies heap
    ensures h == Null <==> name == Null || !utf8.valid(TextAt(old(heap.blocks), name))
    ensures h == Null ==> heap.blocks == old(heap.blocks)
    ensures h != Null ==> IsCommand(heap.blocks, h, arr, ps, TextAt(old(heap.blocks), name),
                                    Meant(old(heap.blocks), utf8, argv, callerPs))
    ensures h != Null ==> Grown(old(heap.blocks), heap.blocks, Owns(ps) + (Own(h) + Own(arr)))
  {
    if name == Null {
      return Null, Null, [];
    }
    var text := TextAt(heap.blocks, name);
    if !utf8.valid(text) {
      return Null, Null, [];
    }
    var args := CollectArguments(heap, utf8, argv, argc, callerPs);
    h, arr, ps := BoxCommand(heap, text, args);
  }

  /** Name, arguments, array and handle, allocated in this order. */
  method BoxCommand(heap: Heap, name: string, args: seq<string>) returns (h: Ptr, ghost arr: Ptr, ghost ps: seq<Ptr>)
    modifies heap
    ensures IsCommand(heap.blocks, h, arr, ps, name, args)
    ensures Grown(old(heap.blocks), heap.blocks, Owns(ps) + (Own(h) + Own(arr)))
  {
    var strings := BoxStrings(heap, [name] + args);
    ghost var mem := heap.blocks;
    var argv := Null;
    if args != [] {
      argv := heap.Alloc(Ptrs(Written(strings[1..])));
    }
    h := heap.Alloc(Command(strings[0], argv, |args|));
    arr, ps := argv, strings;
    HoldsStay(mem, heap.blocks, Own(h) + Own(arr), ps, Texts([name] + args));
  }

  /** What debug_proxy_send_command rebuilds before it sends. */
  method ReadBack(heap: Heap, utf8: Utf8, h: Ptr, ghost arr: Ptr, ghost ps: seq<Ptr>, ghost name: string, ghost args: seq<string>)
    returns (n: string, argv: seq<string>)
    requires IsCommand(heap.blocks, h, arr, ps, name, args)
    ensures n == utf8.lossy(UntilNul(name))
    ensures |argv| == |args| && forall k :: 0 <= k < |args| ==> argv[k] == utf8.lossy(UntilNul(args[k]))
  {
    var Command(nameP, argvP, argc) := heap.blocks[h.addr];
    assert PointsTo(heap.blocks, ps[0], Texts([name] + args)[0]);
    n := utf8.lossy(TextAt(heap.blocks, nameP));
    argv := [];
    if argvP != Null {
      for i := 0 to argc
        invariant |argv| == i && forall k :: 0 <= k < i ==> argv[k] == utf8.lossy(UntilNul(args[k]))
      {
        assert PointsTo(heap.blocks, ps[i + 1], Texts([name] + args)[i + 1]);
        var p := heap.blocks[argvP.addr].slots[i].value;
        argv := argv + [utf8.lossy(TextAt(heap.blocks, p))];
      }
    }
  }

  /** debugserver_command_free. */
  method CommandFree(heap: Heap, h: Ptr, ghost base: Memory, ghost arr: Ptr, ghost ps: seq<Ptr>, ghost name: string, ghost args: seq<string>)
    requires h != Null ==> IsCommand(heap.blocks, h, arr, ps, name, args)
    requires h != Null ==> Grown(base, heap.blocks, Owns(ps) + (Own(h) + Own(arr)))
    requires h == Null ==> heap.blocks == base
    modifies heap
    ensures heap.blocks == base
  {
    if h == Null {
      return;
    }
    var Command(nameP, argvP, argc) := heap.blocks[h.addr];
    ghost var bs := Texts([name] + args);
    Unbox(heap, nameP, base, Own(h) + Own(arr), ps, bs);
    if argvP != Null && argc > 0 {
      FreeArguments(heap, h, argvP, argc, base, ps[1..], bs[1..]);
      heap.Free(argvP);
    }
    assert args == [] ==> Owns(ps[1..]) == {};
    heap.Free(h);
  }

  method FreeArguments(heap: Heap, ghost h: Ptr, argv: Ptr, argc: nat, ghost base: Memory, ghost ps: seq<Ptr>, ghost bs: seq<Block>)
    requires Holds(heap.blocks, ps, bs) && argc == |ps|
    requires forall k :: 0 <= k < |bs| ==> !ZeroSize(bs[k])
    requires argv.At? && argv.addr in heap.blocks && heap.blocks[argv.addr] == Ptrs(Written(ps))
    requires Own(h) + Own(argv) !! Owns(ps) && Grown(base, heap.blocks, Owns(ps) + (Own(h) + Own(argv)))
    modifies heap
    ensures Grown(base, heap.blocks, Own(h) + Own(argv))
  {
    assert ps[0..] == ps && bs[0..] == bs;
    for i := 0 to argc
      invariant argv.addr in heap.blocks && heap.blocks[argv.addr] == Ptrs(Written(ps))
      invariant Holds(heap.blocks, ps[i..], bs[i..])
      invariant Own(h) + Own(argv) !! Owns(ps[i..]) && Grown(base, heap.blocks, Owns(ps[i..]) + (Own(h) + Own(argv)))
    {
      assert ps[i..][0] == ps[i] && ps[i..][1..] == ps[i + 1..] && bs[i..][1..] == bs[i + 1..];
      assert PointsTo(heap.blocks, ps[i..][0], bs[i..][0]) && bs[i..][0] == bs[i];
      var p := heap.blocks[argv.addr].slots[i].value;
      if p != Null {
        OwnsHead(ps[i..]);
        Unbox(heap, p, base, Own(h) + Own(argv), ps[i..], bs[i..]);
      }
    }
    assert Owns(ps[argc..]) == {};
  }

  lemma {:induction false} ArgumentsAreText(mem: Memory, utf8: Utf8, ps: seq<Ptr>)
    requires forall k :: 0 <= k < |ps| ==> CallerString(mem, ps[k])
    ensures forall a :: a in Arguments(mem, utf8, ps) ==> NulFree(a) && utf8.valid(a)
  {
    if ps != [] {
      ArgumentsAreText(mem, utf8, ps[..|ps| - 1]);
    }
  }

  /** A command makes the crossing and comes back: the name is the one given, the arguments are
      the caller's in order without the null and the non-UTF-8 ones, and releasing the command
      leaves the memory as it was. No command comes about exactly for a null or non-UTF-8 name. */
  method RoundTrip(heap: Heap, utf8: Utf8, name: Ptr, argv: Ptr, argc: nat, ghost callerPs: seq<Ptr>)
    returns (r: Option<(string, seq<string>)>)
    requires utf8.Lawful()
    requires CallerString(heap.blocks, name) && CallerArgv(heap.blocks, argv, callerPs) && argc == |callerPs|
    modifies heap
    ensures heap.blocks == old(heap.blocks)
    ensures r.Some? <==> name != Null && utf8.valid(TextAt(old(heap.blocks), name))
    ensures r.Some? ==> r.value == (TextAt(old(heap.blocks), name), Meant(old(heap.blocks), utf8, argv, callerPs))
  {
    var h, arr, ps := CommandNew(heap, utf8, name, argv, argc, callerPs);
    if h == Null {
      return None;
    }
    ghost var text, args := TextAt(old(heap.blocks), name), Meant(old(heap.blocks), utf8, argv, callerPs);
    var n, back := ReadBack(heap, utf8, h, arr, ps, text, args);
    ArgumentsAreText(old(heap.blocks), utf8, callerPs);
    assert forall k :: 0 <= k < |args| ==> args[k] in args;
    assert back == args;
    CommandFree(heap, h, old(heap.blocks), arr, ps, text, args);
    return Some((n, back));
  }
}
