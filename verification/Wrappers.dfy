/** The C++ wrapper objects themselves, over the ledger: construction, moves, copies, closing,
    destruction and the hand-over of a handle to a consuming Rust function. Every method is
    proved to do to the ledger what the step of the same name says, aliasing included. */
module Wrappers {
  import opened Prelude
  import opened Ledger

  /** The Rust side: which handles it gave out, released and took over, and (for the proof) which
      wrapper objects exist. */
  class Library {
    var next: Handle
    var freed: multiset<Handle>
    var consumed: multiset<Handle>
    var client: map<Handle, Handle>
    ghost var live: set<Wrapper>

    constructor ()
      ensures View() == Ledger.Empty()
    {
      next, freed, consumed, client, live := 0, multiset{}, multiset{}, map[], {};
    }

    ghost function View(): Book<Wrapper>
      reads this, live
    {
      Book(map w | w in live :: w.handle, next, freed, consumed, client)
    }

    /** Box::into_raw of a new object. */
    method NewHandle() returns (h: Handle)
      modifies this`next
      ensures h == old(next) && next == old(next) + 1
    {
      h := next;
      next := next + 1;
    }

    /** afc_file_close, idevice_free, idevice_restore_cancel_handle_free, ...: null is ignored.
        The handle is gone whatever the call reports. */
    method FreeHandle(h: Option<Handle>)
      modifies this`freed
      ensures freed == match h case None => old(freed) case Some(v) => old(freed) + multiset{v}
    {
      if h.Some? {
        freed := freed + multiset{h.value};
      }
    }

    /** rsd_handshake_clone. */
    method CloneHandle(h: Option<Handle>) returns (copy: Option<Handle>)
      modifies this`next
      ensures h.None? ==> copy == None && next == old(next)
      ensures h.Some? ==> copy == Some(old(next)) && next == old(next) + 1
    {
      if h.None? { return None; }
      var h' := NewHandle();
      copy := Some(h');
    }

    /** A consuming constructor such as afc_client_new, mobilebackup2_new, core_device_proxy_new,
        core_device_proxy_create_tcp_adapter or house_arrest_vend_container. Null is refused
        before anything is touched. */
    method Consume(h: Option<Handle>, callee: Callee) returns (out: Option<Handle>)
      modifies this`next, this`freed, this`consumed, this`client
      ensures out == if h.Some? && callee.Accepts? then Some(old(next)) else None
      ensures out.Some? ==> next == old(next) + 1 && freed == old(freed) && consumed == old(consumed) + multiset{h.value}
      ensures out.Some? ==> client == old(client)[h.value := old(next)]
      ensures out.None? ==> next == old(next) && consumed == old(consumed) && client == old(client)
      ensures out.None? ==> freed == old(freed) + if h.Some? && callee.FailsAfter? then multiset{h.value} else multiset{}
      ensures View() == Consumed(old(View()), h, callee)
    {
      if h.None? || callee.Refuses? {
        return None;
      }
      if callee.FailsAfter? {
        FreeHandle(h);
        return None;
      }
      var boxed := NewHandle();
      consumed := consumed + multiset{h.value};
      client := client[h.value := boxed];
      return Some(boxed);
    }
  }

  /** What a consuming function does to the books when it is passed `h`. */
  function Consumed<C>(b: Book<C>, h: Option<Handle>, callee: Callee): Book<C> {
    if h.None? || callee.Refuses? then b
    else if callee.FailsAfter? then Free(b, h)
    else TakeOver(b, h.value)
  }

  /** A copy that lands in a temporary, changes places with d's handle and takes that one along
      when the temporary goes, is a copy that lands in d. */
  lemma CopyAndDrop<C>(b: Book<C>, temp: C, d: C, s: C)
    requires temp !in b.cells && d in b.cells && s in b.cells && d != s
    ensures var copied := Clone(b, temp, b.cells[s]);
      Drop(Free(Put(copied, d, copied.cells[temp]), b.cells[d]), temp) == Next(b, Ledger.Step.CopyAssign(d, s))
  {
    var copied := Clone(b, temp, b.cells[s]);
    assert copied.cells[d := copied.cells[temp]] - {temp} == b.cells[d := copied.cells[temp]];
  }

  /** What a cell held last no longer shows once it is dropped. */
  lemma DropForgets<C>(b: Book<C>, c: C, v: Option<Handle>)
    ensures Drop(Free(Put(b, c, v), v), c) == Drop(Free(b, v), c)
  {
    assert b.cells[c := v] - {c} == b.cells - {c};
  }

  /** What releasing a wrapper's handle adds to the releases. */
  function Once(h: Option<Handle>): multiset<Handle> {
    match h case None => multiset{} case Some(v) => multiset{v}
  }

  /** Nothing but releases has happened on the Rust side. */
  twostate predicate OnlyReleased(lib: Library, released: multiset<Handle>)
    reads lib
  {
    && lib.freed == old(lib.freed) + released
    && lib.next == old(lib.next) && lib.consumed == old(lib.consumed) && lib.client == old(lib.client)
  }

  /** Every other wrapper is still there and its handle has not changed. */
  twostate predicate OthersKept(lib: Library, changed: set<Wrapper>)
    reads lib, lib.live
  {
    forall w :: w in old(lib.live) && w !in changed ==> w in lib.live && w.handle == old(w.handle)
  }

  /** What the callee makes of the handle h of a wrapper that is handed over: it is in one client, held
      by a new wrapper, and no longer in its own; or it was dropped; or nothing happened to it. */
  twostate predicate HandedOver(lib: Library, socket: Wrapper, h: Option<Handle>, callee: Callee, new r: Option<Wrapper>)
    reads lib, lib.live, socket, if r.Some? then {r.value} else {}
  {
    && OthersKept(lib, {socket})
    && (r.Some? ==>
      && h.Some? && r.value.handle == Some(old(lib.next)) && socket.handle == None
      && lib.next == old(lib.next) + 1 && lib.freed == old(lib.freed)
      && lib.consumed == old(lib.consumed) + Once(h) && lib.client == old(lib.client)[h.value := old(lib.next)])
    && (r.None? ==> OnlyReleased(lib, if h.Some? && callee.FailsAfter? then Once(h) else multiset{}))
  }

  class Wrapper {
    var handle: Option<Handle>

    /** adopt(raw). */
    constructor (lib: Library, raw: Option<Handle>)
      modifies lib`live
      ensures fresh(this) && handle == raw && lib.live == old(lib.live) + {this}
      ensures lib.View() == Put(old(lib.View()), this, raw)
    {
      handle := raw;
      new;
      lib.live := lib.live + {this};
    }

    /** Opening something new and wrapping it. */
    constructor Open(lib: Library)
      modifies lib
      ensures fresh(this) && lib.live == old(lib.live) + {this}
      ensures handle == Some(old(lib.next)) && lib.next == old(lib.next) + 1
      ensures lib.View() == Next(old(lib.View()), Adopt(this))
    {
      handle := Some(lib.next);
      new;
      var h := lib.NewHandle();
      lib.live := lib.live + {this};
    }

    /** The move constructor. */
    constructor MoveFrom(lib: Library, o: Wrapper)
      requires o in lib.live
      modifies lib`live, o
      ensures fresh(this) && lib.live == old(lib.live) + {this}
      ensures handle == old(o.handle) && o.handle == None
      ensures OnlyReleased(lib, multiset{}) && OthersKept(lib, {o})
      ensures lib.View() == Next(old(lib.View()), MoveConstruct(this, o))
    {
      handle := o.handle;
      new;
      o.handle := None;
      lib.live := lib.live + {this};
    }

    /** The copy constructor of a clonable wrapper. */
    constructor CopyFrom(lib: Library, o: Wrapper)
      requires o in lib.live
      modifies lib
      ensures fresh(this) && this !in old(lib.live) && lib.live == old(lib.live) + {this}
      ensures handle == if o.handle.Some? then Some(old(lib.next)) else None
      ensures lib.next == old(lib.next) + if o.handle.Some? then 1 else 0
      ensures lib.freed == old(lib.freed) && lib.consumed == old(lib.consumed) && lib.client == old(lib.client)
      ensures OthersKept(lib, {})
      ensures lib.View() == Next(old(lib.View()), CopyConstruct(this, o))
    {
      handle := None;
      new;
      var copy := lib.CloneHandle(o.handle);
      handle := copy;
      lib.live := lib.live + {this};
    }

    /** release(): the handle leaves the wrapper without being released. */
    method ReleaseFrom(ghost lib: Library) returns (raw: Option<Handle>)
      requires this in lib.live
      modifies this
      ensures raw == old(handle) && handle == None
      ensures lib.View() == Put(old(lib.View()), this, None)
    {
      raw := handle;
      handle := None;
    }

    /** The destructor: afterwards the object no longer exists. */
    method Destroy(lib: Library)
      requires this in lib.live
      modifies this, lib
      ensures lib.live == old(lib.live) - {this}
      ensures OnlyReleased(lib, Once(old(handle))) && OthersKept(lib, {this})
      ensures lib.View() == Next(old(lib.View()), Ledger.Step.Destroy(this))
    {
      lib.live := lib.live - {this};
      assert lib.View().cells == old(lib.View()).cells - {this};
      if handle.Some? {
        lib.FreeHandle(handle);
        handle := None;
      }
    }

    /** close(). */
    method Close(lib: Library)
      requires this in lib.live
      modifies this, lib
      ensures handle == None
      ensures OnlyReleased(lib, Once(old(handle))) && OthersKept(lib, {this})
      ensures lib.View() == Next(old(lib.View()), Ledger.Step.Close(this)) && lib.live == old(lib.live)
    {
      if handle.None? { return; }
      lib.FreeHandle(handle);
      handle := None;
    }

    /** Move assignment; `o` may be this very object. */
    method MoveAssign(lib: Library, o: Wrapper)
      requires this in lib.live && o in lib.live
      modifies this, o, lib
      ensures this != o ==> handle == old(o.handle) && o.handle == None && OnlyReleased(lib, Once(old(handle)))
      ensures this == o ==> handle == old(handle) && OnlyReleased(lib, multiset{})
      ensures OthersKept(lib, {this, o})
      ensures lib.View() == Next(old(lib.View()), Ledger.Step.MoveAssign(this, o)) && lib.live == old(lib.live)
    {
      if this != o {
        if handle.Some? {
          lib.FreeHandle(handle);
        }
        handle := o.handle;
        o.handle := None;
      }
    }

    /** std::swap. */
    method Swap(ghost lib: Library, temp: Wrapper)
      requires this in lib.live && temp in lib.live && this != temp
      modifies this, temp
      ensures handle == old(temp.handle) && temp.handle == old(handle)
      ensures lib.View() == Put(Put(old(lib.View()), this, old(temp.handle)), temp, old(handle))
    {
      handle, temp.handle := temp.handle, handle;
    }

    /** std::swap with a temporary, and the end of the temporary. */
    method SwapWithTemporary(lib: Library, temp: Wrapper)
      requires this in lib.live && temp in lib.live && this != temp
      modifies this, temp, lib
      ensures handle == old(temp.handle)
      ensures OnlyReleased(lib, Once(old(handle))) && OthersKept(lib, {this, temp})
      ensures lib.View() == Drop(Free(Put(old(lib.View()), this, old(temp.handle)), old(handle)), temp)
      ensures lib.live == old(lib.live) - {temp}
    {
      Swap(lib, temp);
      temp.Destroy(lib);
      DropForgets(Put(old(lib.View()), this, old(temp.handle)), temp, old(handle));
    }

    /** Copy assignment by copying into a temporary, swapping, and destroying the temporary. */
    method CopyAssign(lib: Library, o: Wrapper)
      requires this in lib.live && o in lib.live
      modifies this, lib
      ensures this != o ==> handle == (if o.handle.Some? then Some(old(lib.next)) else None)
      ensures this != o ==> lib.next == old(lib.next) + (if o.handle.Some? then 1 else 0)
      ensures this != o ==> lib.freed == old(lib.freed) + Once(old(handle))
      ensures this == o ==> handle == old(handle) && lib.next == old(lib.next) && lib.freed == old(lib.freed)
      ensures lib.consumed == old(lib.consumed) && lib.client == old(lib.client) && OthersKept(lib, {this})
      ensures lib.View() == Next(old(lib.View()), Ledger.Step.CopyAssign(this, o)) && lib.live == old(lib.live)
    {
      if this != o {
        ghost var b := lib.View();
        var temp := new Wrapper.CopyFrom(lib, o);
        assert lib.View() == Clone(b, temp, b.cells[o]);
        SwapWithTemporary(lib, temp);
        CopyAndDrop(b, temp, this, o);
        assert lib.live == old(lib.live);
      }
    }

    /** A consuming factory that passes the raw pointer and releases the wrapper on success. */
    static method ConvertReleasingOnSuccess(lib: Library, socket: Wrapper, callee: Callee) returns (r: Option<Wrapper>)
      requires socket in lib.live
      modifies socket, lib
      ensures r.Some? <==> old(socket.handle).Some? && callee.Accepts?
      ensures r.Some? ==> fresh(r.value)
      ensures HandedOver(lib, socket, old(socket.handle), callee, r)
      ensures r.None? ==> socket.handle == old(socket.handle)
      ensures lib.View() ==
        Transfer(old(lib.View()), if r.Some? then r.value else socket, socket, ReleaseOnSuccess, callee)
    {
      var out := lib.Consume(socket.handle, callee);
      if out.None? {
        return None;
      }
      var _ := socket.ReleaseFrom(lib);
      var w := new Wrapper(lib, out);
      return Some(w);
    }

    /** A consuming factory that releases the wrapper before the call. */
    static method ConvertReleasingFirst(lib: Library, socket: Wrapper, callee: Callee) returns (r: Option<Wrapper>)
      requires socket in lib.live
      modifies socket, lib
      ensures r.Some? <==> old(socket.handle).Some? && callee.Accepts?
      ensures r.Some? ==> fresh(r.value)
      ensures HandedOver(lib, socket, old(socket.handle), callee, r)
      ensures r.None? ==> socket.handle == None
      ensures lib.View() ==
        Transfer(old(lib.View()), if r.Some? then r.value else socket, socket, ReleaseFirst, callee)
    {
      var raw := socket.ReleaseFrom(lib);
      var out := lib.Consume(raw, callee);
      assert OthersKept(lib, {socket});
      if out.None? {
        return None;
      }
      var w := new Wrapper(lib, out);
      return Some(w);
    }
  }

  // ----- any use of the objects is a run of the ledger -----

  /** What a program does with its wrappers, which it knows by number. */
  datatype Action =
    | OpenNew
    | MoveNew(src: nat)
    | CopyNew(src: nat)
    | MoveTo(dst: nat, src: nat)
    | CopyTo(dst: nat, src: nat)
    | CloseIt(dst: nat)
    | DestroyIt(dst: nat)
    | HandOver(src: nat, how: Convention, callee: Callee)

  /** The wrappers the action names are there. */
  predicate Named(a: Action, there: set<nat>) {
    match a
    case OpenNew => true
    case MoveNew(s) => s in there
    case CopyNew(s) => s in there
    case MoveTo(d, s) => d in there && s in there
    case CopyTo(d, s) => d in there && s in there
    case CloseIt(d) => d in there
    case DestroyIt(d) => d in there
    case HandOver(s, _, _) => s in there
  }

  predicate WellPaired(a: Action) {
    a.HandOver? ==> Paired(a.how, a.callee)
  }

  /** The step an action means; `out` is the wrapper it makes, if it makes one. */
  ghost function Meant(a: Action, objs: map<nat, Wrapper>, out: Wrapper): Step<Wrapper>
    requires Named(a, objs.Keys)
  {
    match a
    case OpenNew => Adopt(out)
    case MoveNew(s) => MoveConstruct(out, objs[s])
    case CopyNew(s) => CopyConstruct(out, objs[s])
    case MoveTo(d, s) => Step.MoveAssign(objs[d], objs[s])
    case CopyTo(d, s) => Step.CopyAssign(objs[d], objs[s])
    case CloseIt(d) => Step.Close(objs[d])
    case DestroyIt(d) => Step.Destroy(objs[d])
    case HandOver(s, how, callee) => Convert(out, objs[s], how, callee)
  }

  /** Where a program stands: its wrappers by number, how many it has made, and the books. */
  datatype Stage = Stage(objs: map<nat, Wrapper>, made: nat, book: Book<Wrapper>)

  /** The action leaves the program with one more wrapper. */
  ghost predicate Makes(a: Action, s: Stage)
    requires Named(a, s.objs.Keys) && forall i :: i in s.objs ==> s.objs[i] in s.book.cells
  {
    a.OpenNew? || a.MoveNew? || a.CopyNew? || (a.HandOver? && Succeeds(s.book, s.objs[a.src], a.callee))
  }

  /** Where the action leads from stage s, when the wrapper it makes, if it makes one, is `out`. */
  ghost function StageAfter(a: Action, s: Stage, out: Wrapper): Stage
    requires Named(a, s.objs.Keys) && forall i :: i in s.objs ==> s.objs[i] in s.book.cells
    requires Enabled(s.book, Meant(a, s.objs, out))
  {
    Stage(if Makes(a, s) then s.objs[s.made := out] else if a.DestroyIt? then s.objs - {a.dst} else s.objs,
          if Makes(a, s) then s.made + 1 else s.made,
          Next(s.book, Meant(a, s.objs, out)))
  }

  /** From s to s' the program took the one step the action means, or none when a wrapper the action
      names is not there. */
  ghost predicate Follows(s: Stage, a: Action, step: Option<Step<Wrapper>>, s': Stage) {
    match step
    case None => !Named(a, s.objs.Keys) && s' == s
    case Some(x) => (
      && Named(a, s.objs.Keys) && (forall i :: i in s.objs ==> s.objs[i] in s.book.cells)
      && x == Meant(a, s.objs, x.dst) && Enabled(s.book, x)
      && s' == StageAfter(a, s, x.dst))
  }

  /** The script, played action by action. */
  ghost predicate Played(script: seq<Action>, stages: seq<Stage>, steps: seq<Option<Step<Wrapper>>>) {
    && |stages| == |script| + 1 && |steps| == |script|
    && forall i :: 0 <= i < |script| ==> Follows(stages[i], script[i], steps[i], stages[i + 1])
  }

  ghost function Taken<C>(steps: seq<Option<Step<C>>>): seq<Step<C>> {
    if steps == [] then []
    else Taken(steps[..|steps| - 1]) + match steps[|steps| - 1] case None => [] case Some(x) => [x]
  }

  /** The first i actions have been played, from `start` to `now`. */
  ghost predicate Underway(start: Stage, script: seq<Action>, i: nat, stages: seq<Stage>,
                           steps: seq<Option<Step<Wrapper>>>, now: Stage) {
    && i <= |script| && Played(script[..i], stages, steps)
    && stages[0] == start && stages[i] == now
    && Ledger.Leads(start.book, Taken(steps), now.book)
  }

  lemma PlayedSnoc(script: seq<Action>, i: nat, stages: seq<Stage>, steps: seq<Option<Step<Wrapper>>>,
                   step: Option<Step<Wrapper>>, s: Stage)
    requires i < |script| && Played(script[..i], stages, steps) && Follows(stages[i], script[i], step, s)
    ensures Played(script[..i + 1], stages + [s], steps + [step])
  {
    var script', stages', steps' := script[..i + 1], stages + [s], steps + [step];
    forall k | 0 <= k <= i ensures Follows(stages'[k], script'[k], steps'[k], stages'[k + 1]) {
      if k < i {
        assert Follows(stages[k], script[..i][k], steps[k], stages[k + 1]);
      }
    }
  }

  lemma OneMoreAction(start: Stage, script: seq<Action>, i: nat, stages: seq<Stage>, steps: seq<Option<Step<Wrapper>>>,
                      now: Stage, step: Option<Step<Wrapper>>, s: Stage)
    requires Underway(start, script, i, stages, steps, now) && i < |script| && Follows(now, script[i], step, s)
    requires step.Some? ==> Fits(now.book, step.value)
    ensures Underway(start, script, i + 1, stages + [s], steps + [step], s)
  {
    PlayedSnoc(script, i, stages, steps, step, s);
    assert (steps + [step])[..|steps|] == steps;
    if step.Some? {
      LeadsSnoc(start.book, Taken(steps), now.book, step.value);
    } else {
      assert Taken(steps) + [] == Taken(steps);
    }
  }

  /** A program that holds wrappers and uses them in any way. */
  class Program {
    const lib: Library
    var objs: map<nat, Wrapper>
    var made: nat

    constructor (lib: Library)
      ensures this.lib == lib && Valid()
    {
      this.lib, objs, made := lib, map[], 0;
    }

    /** Each wrapper exists and has one number. */
    ghost predicate Valid()
      reads this, lib
    {
      && (forall i :: i in objs ==> i < made && objs[i] in lib.live)
      && (forall i, j :: i in objs && j in objs && objs[i] == objs[j] ==> i == j)
    }

    ghost function Now(): Stage
      reads this, lib, lib.live
    {
      Stage(objs, made, lib.View())
    }

    method Keep(w: Wrapper)
      requires Valid() && w in lib.live && forall i :: i in objs ==> objs[i] != w
      modifies this
      ensures Valid() && objs == old(objs)[old(made) := w] && made == old(made) + 1
    {
      objs, made := objs[made := w], made + 1;
    }

    method HandOver(socket: Wrapper, how: Convention, callee: Callee) returns (r: Option<Wrapper>)
      requires Valid() && socket in lib.live
      modifies socket, lib
      ensures lib.View() == Transfer(old(lib.View()), if r.Some? then r.value else socket, socket, how, callee)
      ensures r.Some? <==> old(Succeeds(lib.View(), socket, callee))
      ensures r.Some? ==> fresh(r.value)
    {
      if how.ReleaseOnSuccess? {
        r := Wrapper.ConvertReleasingOnSuccess(lib, socket, callee);
      } else {
        r := Wrapper.ConvertReleasingFirst(lib, socket, callee);
      }
    }

    /** One action on the objects is the step it means. */
    method Do(a: Action) returns (ghost out: Wrapper)
      requires Valid() && Named(a, objs.Keys)
      modifies this, lib, lib.live
      ensures Valid() && fresh(lib.live - old(lib.live))
      ensures Enabled(old(lib.View()), Meant(a, old(objs), out)) && Now() == StageAfter(a, old(Now()), out)
    {
      if a.OpenNew? || a.MoveNew? || a.CopyNew? {
        out := Make(a);
      } else if a.HandOver? {
        var socket := objs[a.src];
        var r := HandOver(socket, a.how, a.callee);
        out := if r.Some? then r.value else socket;
        assert lib.live == lib.View().cells.Keys;
        if r.Some? {
          Keep(r.value);
        }
      } else {
        out := objs[a.dst];
        Change(a);
      }
    }

    /** The constructors. */
    method Make(a: Action) returns (w: Wrapper)
      requires Valid() && Named(a, objs.Keys) && (a.OpenNew? || a.MoveNew? || a.CopyNew?)
      modifies this, lib, lib.live
      ensures Valid() && fresh(lib.live - old(lib.live))
      ensures Enabled(old(lib.View()), Meant(a, old(objs), w)) && Now() == StageAfter(a, old(Now()), w)
    {
      if a.OpenNew? {
        w := new Wrapper.Open(lib);
      } else if a.MoveNew? {
        w := new Wrapper.MoveFrom(lib, objs[a.src]);
      } else {
        w := new Wrapper.CopyFrom(lib, objs[a.src]);
      }
      assert lib.live == lib.View().cells.Keys == old(lib.live) + {w};
      Keep(w);
    }

    /** The actions that make no wrapper. */
    method Change(a: Action)
      requires Valid() && Named(a, objs.Keys) && (a.MoveTo? || a.CopyTo? || a.CloseIt? || a.DestroyIt?)
      modifies this, lib, lib.live
      ensures Valid() && lib.live <= old(lib.live)
      ensures Enabled(old(lib.View()), Meant(a, old(objs), old(objs[a.dst])))
      ensures Now() == StageAfter(a, old(Now()), old(objs[a.dst]))
    {
      if a.MoveTo? {
        objs[a.dst].MoveAssign(lib, objs[a.src]);
      } else if a.CopyTo? {
        objs[a.dst].CopyAssign(lib, objs[a.src]);
      } else {
        End(a);
      }
    }

    method End(a: Action)
      requires Valid() && Named(a, objs.Keys) && (a.CloseIt? || a.DestroyIt?)
      modifies this, lib, lib.live
      ensures Valid() && lib.live <= old(lib.live)
      ensures Enabled(old(lib.View()), Meant(a, old(objs), old(objs[a.dst])))
      ensures Now() == StageAfter(a, old(Now()), old(objs[a.dst]))
    {
      if a.CloseIt? {
        objs[a.dst].Close(lib);
      } else {
        objs[a.dst].Destroy(lib);
        objs := objs - {a.dst};
      }
    }

    /** Whatever a program does with wrappers, as long as hand-overs are paired: each action whose
        wrappers are there takes the one step it means, the others take none; together the steps are
        a run of the ledger, and the conservation law holds after it. */
    method Run(script: seq<Action>) returns (ghost stages: seq<Stage>, ghost steps: seq<Option<Step<Wrapper>>>)
      requires Valid() && Law(lib.View())
      requires forall i :: 0 <= i < |script| ==> WellPaired(script[i])
      modifies this, lib, lib.live
      ensures Valid() && Law(lib.View())
      ensures Played(script, stages, steps) && stages[0] == old(Now()) && stages[|script|] == Now()
      ensures Ledger.Leads(old(lib.View()), Taken(steps), lib.View())
    {
      stages, steps := [Now()], [];
      for i := 0 to |script|
        invariant Valid() && fresh(lib.live - old(lib.live))
        invariant Underway(old(Now()), script, i, stages, steps, Now())
      {
        ghost var before, step: Option<Step<Wrapper>> := Now(), None;
        if Named(script[i], objs.Keys) {
          ghost var out := Do(script[i]);
          step := Some(Meant(script[i], before.objs, out));
        }
        OneMoreAction(old(Now()), script, i, stages, steps, before, step, Now());
        stages, steps := stages + [Now()], steps + [step];
      }
      assert script[..|script|] == script;
      RunKeepsLaw(old(lib.View()), Taken(steps), lib.View());
    }
  }
}
