/** Ownership of the raw handles that C++ wrappers hold and Rust clients consume.

    A wrapper is a cell that holds at most one handle. The ledger records, besides the cells,
    every release of a handle and every handle a Rust client took over; releases are counted,
    not just noted, so that a second release of the same handle shows. */
module Ledger {
  import opened Prelude

  type Handle = nat

  datatype Book<C> = Book(
    cells: map<C, Option<Handle>>,    // the wrappers that exist
    next: Handle,                     // handles below `next` have been allocated
    freed: multiset<Handle>,          // releases
    consumed: multiset<Handle>,       // handles taken over by a Rust client
    client: map<Handle, Handle>)      // which client took a consumed handle over

  /** How a consuming callee ends. */
  datatype Callee =
    | Accepts            // takes the handle over and returns a client
    | Refuses            // fails before it touches the handle
    | FailsAfter         // took the handle over, then failed and dropped it

  datatype Convention = ReleaseOnSuccess | ReleaseFirst

  datatype Step<C> =
    | Adopt(dst: C)                                   // a new wrapper around a new handle
    | MoveConstruct(dst: C, src: C)
    | MoveAssign(dst: C, src: C)
    | CopyConstruct(dst: C, src: C)
    | CopyAssign(dst: C, src: C)
    | Close(dst: C)
    | Destroy(dst: C)
    | Convert(dst: C, src: C, how: Convention, callee: Callee)  // hand src over, wrap the client, if any, in dst

  predicate Enabled<C>(b: Book<C>, step: Step<C>) {
    match step
    case Adopt(d) => d !in b.cells
    case MoveConstruct(d, s) => d !in b.cells && s in b.cells
    case MoveAssign(d, s) => d in b.cells && s in b.cells
    case CopyConstruct(d, s) => d !in b.cells && s in b.cells
    case CopyAssign(d, s) => d in b.cells && s in b.cells
    case Close(d) => d in b.cells
    case Destroy(d) => d in b.cells
    case Convert(d, s, _, callee) => s in b.cells && (d !in b.cells || !Succeeds(b, s, callee))
  }

  /** The callee takes a live handle over, so that there will be a wrapper for the client. */
  predicate Succeeds<C>(b: Book<C>, src: C, callee: Callee)
    requires src in b.cells
  {
    b.cells[src].Some? && callee.Accepts?
  }

  // ----- the elementary effects -----

  function Put<C>(b: Book<C>, c: C, h: Option<Handle>): Book<C> {
    b.(cells := b.cells[c := h])
  }

  function Drop<C>(b: Book<C>, c: C): Book<C> {
    b.(cells := b.cells - {c})
  }

  /** The library's free function, which ignores null. */
  function Free<C>(b: Book<C>, h: Option<Handle>): Book<C> {
    match h case None => b case Some(v) => b.(freed := b.freed + multiset{v})
  }

  /** A client object takes `h` over; the client's own handle is the next one. */
  function TakeOver<C>(b: Book<C>, h: Handle): Book<C> {
    b.(consumed := b.consumed + multiset{h}, client := b.client[h := b.next], next := b.next + 1)
  }

  /** Cloning null gives null. */
  function Clone<C>(b: Book<C>, dst: C, h: Option<Handle>): Book<C> {
    match h
    case None => Put(b, dst, None)
    case Some(_) => Put(b.(next := b.next + 1), dst, Some(b.next))
  }

  /** A conversion. The callee refuses null whatever it does otherwise. */
  function Transfer<C>(b: Book<C>, dst: C, src: C, how: Convention, callee: Callee): Book<C>
    requires src in b.cells
  {
    match b.cells[src]
    case None => b
    case Some(h) =>
      var kept := how.ReleaseOnSuccess? && !callee.Accepts?;
      var released := if kept then b else Put(b, src, None);
      match callee
      case Accepts => Put(TakeOver(released, h), dst, Some(b.next))
      case Refuses => released
      case FailsAfter => Free(released, Some(h))
  }

  function Next<C>(b: Book<C>, step: Step<C>): Book<C>
    requires Enabled(b, step)
  {
    match step
    case Adopt(d) => Put(b.(next := b.next + 1), d, Some(b.next))
    case MoveConstruct(d, s) => Put(Put(b, d, b.cells[s]), s, None)
    case MoveAssign(d, s) => if d == s then b else Put(Put(Free(b, b.cells[d]), d, b.cells[s]), s, None)
    case CopyConstruct(d, s) => Clone(b, d, b.cells[s])
    case CopyAssign(d, s) => if d == s then b else Clone(Free(b, b.cells[d]), d, b.cells[s])
    case Close(d) => Put(Free(b, b.cells[d]), d, None)
    case Destroy(d) => Drop(Free(b, b.cells[d]), d)
    case Convert(d, s, how, callee) => Transfer(b, d, s, how, callee)
  }

  // ----- the conservation law -----

  ghost function Holders<C>(cells: map<C, Option<Handle>>, h: Handle): set<C> {
    set c | c in cells && cells[c] == Some(h)
  }

  /** How often handle h is accounted for: once for each wrapper that holds it, once for each
      release, once for each client that took it over. */
  ghost function Shares<C>(b: Book<C>, h: Handle): nat {
    |Holders(b.cells, h)| + b.freed[h] + b.consumed[h]
  }

  /** Every allocated handle has exactly one share, no other handle has any. */
  ghost predicate OneShareEach<C>(b: Book<C>) {
    forall h: Handle :: Shares(b, h) == if h < b.next then 1 else 0
  }

  /** A handle was consumed exactly when the record says by which client; the client is younger
      than the handle, and no client consumed two. */
  ghost predicate ClientsRecorded<C>(b: Book<C>) {
    && (forall h: Handle :: h in b.client <==> b.consumed[h] == 1)
    && (forall h :: h in b.client ==> h < b.client[h] < b.next)
    && (forall h, k :: h in b.client && k in b.client && b.client[h] == b.client[k] ==> h == k)
  }

  ghost predicate Law<C>(b: Book<C>) {
    OneShareEach(b) && ClientsRecorded(b)
  }

  lemma HoldersAfterPut<C>(cells: map<C, Option<Handle>>, c: C, v: Option<Handle>, h: Handle)
    ensures |Holders(cells[c := v], h)| ==
      |Holders(cells, h)| - (if c in cells && cells[c] == Some(h) then 1 else 0) + (if v == Some(h) then 1 else 0)
  {
    var before, after := Holders(cells, h), Holders(cells[c := v], h);
    if v == Some(h) {
      assert after == before + {c};
    } else {
      assert after == before - {c};
    }
  }

  lemma HoldersAfterDrop<C>(cells: map<C, Option<Handle>>, c: C, h: Handle)
    ensures |Holders(cells - {c}, h)| == |Holders(cells, h)| - (if c in cells && cells[c] == Some(h) then 1 else 0)
  {
    assert Holders(cells - {c}, h) == Holders(cells, h) - {c};
  }

  // ----- every step keeps it -----

  /** The pairings the conventions are made for: a callee that fails only before it touches the
      handle is called with the handle still in the wrapper, one that always consumes after it was
      released. */
  predicate Paired(how: Convention, callee: Callee) {
    callee.Accepts? || (how.ReleaseOnSuccess? <==> callee.Refuses?)
  }

  predicate Fits<C>(b: Book<C>, step: Step<C>)
    requires Enabled(b, step)
  {
    step.Convert? ==> b.cells[step.src].None? || Paired(step.how, step.callee)
  }

  /** Moving src's handle into d, whose own handle is released, if it has one. */
  lemma ShareAfterMove<C>(b: Book<C>, d: C, s: C, h: Handle)
    requires s in b.cells && d != s
    ensures d !in b.cells ==> Shares(Put(Put(b, d, b.cells[s]), s, None), h) == Shares(b, h)
    ensures d in b.cells ==> Shares(Put(Put(Free(b, b.cells[d]), d, b.cells[s]), s, None), h) == Shares(b, h)
  {
    HoldersAfterPut(b.cells, d, b.cells[s], h);
    HoldersAfterPut(b.cells[d := b.cells[s]], s, None, h);
  }

  lemma ShareAfterRelease<C>(b: Book<C>, d: C, h: Handle)
    requires d in b.cells
    ensures Shares(Put(Free(b, b.cells[d]), d, None), h) == Shares(b, h)
    ensures Shares(Drop(Free(b, b.cells[d]), d), h) == Shares(b, h)
  {
    HoldersAfterPut(b.cells, d, None, h);
    HoldersAfterDrop(b.cells, d, h);
  }

  /** The share of one handle after one step. */
  lemma ShareAfterStep<C>(b: Book<C>, step: Step<C>, h: Handle)
    requires OneShareEach(b) && Enabled(b, step) && Fits(b, step)
    ensures Shares(Next(b, step), h) == if h < Next(b, step).next then 1 else 0
  {
    assert Shares(b, h) == if h < b.next then 1 else 0;
    match step
    case Adopt(d) => HoldersAfterPut(b.cells, d, Some(b.next), h);
    case MoveConstruct(d, s) => ShareAfterMove(b, d, s, h);
    case MoveAssign(d, s) => if d != s { ShareAfterMove(b, d, s, h); }
    case CopyConstruct(d, s) => ShareAfterClone(b, d, b.cells[s], h);
    case CopyAssign(d, s) => if d != s { ShareAfterClone(b, d, b.cells[s], h); }
    case Close(d) => ShareAfterRelease(b, d, h);
    case Destroy(d) => ShareAfterRelease(b, d, h);
    case Convert(d, s, how, callee) => ShareAfterTransfer(b, d, s, how, callee, h);
  }

  lemma ShareAfterClone<C>(b: Book<C>, d: C, v: Option<Handle>, h: Handle)
    ensures |Holders(Clone(b, d, v).cells, h)| == |Holders(b.cells, h)|
      - (if d in b.cells && b.cells[d] == Some(h) then 1 else 0) + (if v.Some? && h == b.next then 1 else 0)
  {
    HoldersAfterPut(b.cells, d, if v.None? then None else Some(b.next), h);
  }

  /** What a hand-over of a live handle does to the share of any handle. The pairing decides: a
      mismatched one leaves the handed-over handle with two shares or with none. */
  lemma ShareAfterTransfer<C>(b: Book<C>, d: C, s: C, how: Convention, callee: Callee, h: Handle)
    requires s in b.cells && (d !in b.cells || !Succeeds(b, s, callee))
    requires OneShareEach(b)
    ensures b.cells[s].None? ==> Transfer(b, d, s, how, callee) == b
    ensures b.cells[s].Some? && h != b.cells[s].value ==>
      Shares(Transfer(b, d, s, how, callee), h) == if h < Transfer(b, d, s, how, callee).next then 1 else 0
    ensures b.cells[s] == Some(h) ==> h < b.next
    ensures b.cells[s] == Some(h) ==>
      Shares(Transfer(b, d, s, how, callee), h) == if Paired(how, callee) then 1 else if how.ReleaseOnSuccess? then 2 else 0
  {
    if b.cells[s].Some? {
      assert Shares(b, h) == if h < b.next then 1 else 0;
      assert s in Holders(b.cells, b.cells[s].value) && |Holders(b.cells, b.cells[s].value)| >= 1;
      assert Shares(b, b.cells[s].value) >= 1;
      HoldersAfterPut(b.cells, s, None, h);
      if callee.Accepts? {
        HoldersAfterPut(b.cells[s := None], d, Some(b.next), h);
      }
    }
  }

  /** A wrapper's handle has been allocated, was neither released nor consumed, and sits in no
      other wrapper. */
  lemma HeldHandle<C>(b: Book<C>, c: C)
    requires Law(b) && c in b.cells && b.cells[c].Some?
    ensures var h := b.cells[c].value;
      && h < b.next && b.freed[h] == 0 && b.consumed[h] == 0
      && forall d :: d in b.cells && b.cells[d] == Some(h) ==> d == c
  {
    var h := b.cells[c].value;
    var holders := Holders(b.cells, h);
    assert c in holders && Shares(b, h) <= 1;
    assert |holders - {c}| == |holders| - 1 && holders - {c} == {};
    forall d | d in b.cells && b.cells[d] == Some(h) ensures d == c {
      assert d in holders;
    }
  }

  lemma TakeOverKeepsClients<C>(b: Book<C>, h: Handle)
    requires ClientsRecorded(b) && h < b.next && b.consumed[h] == 0
    ensures ClientsRecorded(TakeOver(b, h))
  {
  }

  lemma StepKeepsClients<C>(b: Book<C>, step: Step<C>)
    requires Law(b) && Enabled(b, step) && Fits(b, step)
    ensures ClientsRecorded(Next(b, step))
  {
    if step.Convert? && b.cells[step.src].Some? && step.callee.Accepts? {
      HeldHandle(b, step.src);
      TakeOverKeepsClients(Put(b, step.src, None), b.cells[step.src].value);
    } else {
      assert Next(b, step).client == b.client && Next(b, step).consumed == b.consumed;
    }
  }

  lemma StepKeepsLaw<C>(b: Book<C>, step: Step<C>)
    requires Law(b) && Enabled(b, step) && Fits(b, step)
    ensures Law(Next(b, step))
  {
    forall h: Handle ensures Shares(Next(b, step), h) == if h < Next(b, step).next then 1 else 0 {
      ShareAfterStep(b, step, h);
    }
    StepKeepsClients(b, step);
  }

  /** Which pairing of a convention with a callee is sound, on every book that satisfies the law:
      exactly those the conventions are made for, and any at all when the wrapper is empty. */
  lemma ConventionsExactly<C>(b: Book<C>, d: C, s: C, how: Convention, callee: Callee)
    requires Law(b) && d !in b.cells && s in b.cells
    ensures Law(Transfer(b, d, s, how, callee)) <==> b.cells[s].None? || Paired(how, callee)
  {
    if b.cells[s].None? || Paired(how, callee) {
      StepKeepsLaw(b, Convert(d, s, how, callee));
    } else {
      ShareAfterTransfer(b, d, s, how, callee, b.cells[s].value);
    }
  }

  // ----- the two conventions refine one linear transfer -----

  /** The linear transfer: either the wrapper keeps its live handle and nothing happened, or it is
      empty and Rust disposed of the handle, keeping it in exactly one client or dropping it. No other
      wrapper is touched. */
  ghost predicate LinearTransfer<C>(b: Book<C>, b': Book<C>, dst: C, src: C)
    requires src in b.cells && src in b'.cells
  {
    && b'.cells - {dst, src} == b.cells - {dst, src}
    && (b' == b || (b.cells[src].Some? && b'.cells[src] == None && Disposed(b, b', dst, b.cells[src].value)))
  }

  /** Rust has disposed of h: one client keeps it and dst wraps that client, or it was released. */
  ghost predicate Disposed<C>(b: Book<C>, b': Book<C>, dst: C, h: Handle) {
    || (b'.consumed == b.consumed + multiset{h} && b'.freed == b.freed && h in b'.client
        && dst in b'.cells && b'.cells[dst] == Some(b'.client[h]))
    || (b'.freed == b.freed + multiset{h} && b'.consumed == b.consumed && dst !in b'.cells)
  }

  /** For every outcome of the callee, both conventions come down to the linear transfer, and the
      wrapper still holds its handle after the call exactly when the callee refused it. */
  lemma BothConventionsRefineTheLinearTransfer<C>(b: Book<C>, dst: C, src: C, how: Convention, callee: Callee)
    requires Law(b) && dst !in b.cells && src in b.cells && Paired(how, callee)
    ensures var b' := Transfer(b, dst, src, how, callee);
      && Law(b')
      && src in b'.cells && LinearTransfer(b, b', dst, src)
      && (b.cells[src].Some? ==> (b'.cells[src].Some? <==> callee.Refuses?))
  {
    StepKeepsLaw(b, Convert(dst, src, how, callee));
  }

  // ----- runs -----

  ghost predicate Leads<C>(b: Book<C>, steps: seq<Step<C>>, end: Book<C>)
    decreases |steps|
  {
    if steps == [] then b == end
    else Enabled(b, steps[0]) && Fits(b, steps[0]) && Leads(Next(b, steps[0]), steps[1..], end)
  }

  lemma {:induction false} LeadsSnoc<C>(b: Book<C>, steps: seq<Step<C>>, mid: Book<C>, step: Step<C>)
    requires Leads(b, steps, mid) && Enabled(mid, step) && Fits(mid, step)
    ensures Leads(b, steps + [step], Next(mid, step))
    decreases |steps|
  {
    if steps == [] {
      assert [step][1..] == [] && steps + [step] == [step];
    } else {
      assert (steps + [step])[1..] == steps[1..] + [step];
      LeadsSnoc(Next(b, steps[0]), steps[1..], mid, step);
    }
  }

  function Empty<C>(): Book<C> {
    Book(map[], 0, multiset{}, multiset{}, map[])
  }

  lemma {:induction false} RunKeepsLaw<C>(b: Book<C>, steps: seq<Step<C>>, end: Book<C>)
    requires Law(b) && Leads(b, steps, end)
    ensures Law(end)
    decreases |steps|
  {
    if steps != [] {
      StepKeepsLaw(b, steps[0]);
      RunKeepsLaw(Next(b, steps[0]), steps[1..], end);
    }
  }

  /** After every run whose hand-overs are paired as the conventions are made for: every handle ever
      allocated is in exactly one of three places: one live wrapper, one consuming client, or released,
      once. */
  lemma EveryHandleInExactlyOnePlace<C>(steps: seq<Step<C>>, end: Book<C>, h: Handle)
    requires Leads(Empty(), steps, end)
    ensures h < end.next ==> |Holders(end.cells, h)| + end.freed[h] + end.consumed[h] == 1
    ensures h >= end.next ==> Holders(end.cells, h) == {} && end.freed[h] == 0 && h !in end.client
    ensures h in end.client <==> end.consumed[h] == 1
    ensures forall k :: h in end.client && k in end.client && end.client[h] == end.client[k] ==> h == k
  {
    assert forall k: Handle :: Holders<C>(map[], k) == {};
    RunKeepsLaw(Empty(), steps, end);
    assert Shares(end, h) == if h < end.next then 1 else 0;
  }

  /** No wrapper that exists after such a run holds a released or consumed handle, and no two hold the
      same. */
  lemma NoWrapperDangles<C>(steps: seq<Step<C>>, end: Book<C>, c: C)
    requires Leads(Empty(), steps, end) && c in end.cells && end.cells[c].Some?
    ensures end.freed[end.cells[c].value] == 0 && end.cells[c].value !in end.client
    ensures forall d :: d in end.cells && end.cells[d] == end.cells[c] ==> d == c
  {
    assert forall k: Handle :: Holders<C>(map[], k) == {};
    RunKeepsLaw(Empty(), steps, end);
    HeldHandle(end, c);
  }
}
