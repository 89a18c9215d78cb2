/** The boot component list crosses the boundary as one newline-joined C string
    (ffi/src/restore.rs builds it, cpp/src/restore.cpp takes it apart). */
module ComponentNames {
  import opened Prelude
  import opened CHeap

  /** `join("\n")`. */
  function Join(names: seq<string>): string {
    if names == [] then ""
    else if |names| == 1 then names[0]
    else names[0] + "\n" + Join(names[1..])
  }

  /** `std::string::find(c, from)`: the first position at or after `from`, if there is one. */
  function Find(s: string, c: char, from: nat): (r: Option<nat>)
    requires from <= |s|
    ensures r.Some? ==> from <= r.value < |s| && s[r.value] == c
    ensures forall i :: from <= i < (if r.Some? then r.value else |s|) ==> s[i] != c
    decreases |s| - from
  {
    if from == |s| then None
    else if s[from] == c then Some(from)
    else Find(s, c, from + 1)
  }

  /** The fields of the text from `start` on, between newlines; a newline at the very end opens no
      further field. */
  function SplitFrom(s: string, start: nat): seq<string>
    requires start <= |s|
    decreases |s| - start
  {
    if start == |s| then []
    else match Find(s, '\n', start)
      case None => [s[start..]]
      case Some(nl) => [s[start..nl]] + SplitFrom(s, nl + 1)
  }

  function Split(s: string): seq<string> {
    SplitFrom(s, 0)
  }

  lemma AppendField(out: seq<string>, f: string, rest: seq<string>)
    ensures out + ([f] + rest) == (out + [f]) + rest
  {
  }

  /** The field loop over a received string. */
  method SplitLoop(s: string) returns (out: seq<string>)
    ensures out == Split(s)
  {
    out := [];
    var start := 0;
    ghost var whole := Split(s);
    while start < |s|
      invariant 0 <= start <= |s|
      invariant out + SplitFrom(s, start) == whole
      decreases |s| - start
    {
      var found := Find(s, '\n', start);
      if found.None? {
        out := out + [s[start..]];
        return;
      }
      AppendField(out, s[start..found.value], SplitFrom(s, found.value + 1));
      out := out + [s[start..found.value]];
      start := found.value + 1;
    }
  }

  /** No field holds a newline, whatever the string. */
  lemma {:induction false} FieldsHoldNoNewline(s: string, start: nat)
    requires start <= |s|
    ensures forall f :: f in SplitFrom(s, start) ==> '\n' !in f
    decreases |s| - start
  {
    if start < |s| && Find(s, '\n', start).Some? {
      FieldsHoldNoNewline(s, Find(s, '\n', start).value + 1);
    }
  }

  /** What splitting drops: one trailing newline. */
  function Trailer(s: string): string {
    if s != "" && s[|s| - 1] == '\n' then "\n" else ""
  }

  lemma {:induction false} SpellingIsJoin(s: string, start: nat, names: seq<string>)
    requires start <= |s| && Spells(s, start, names)
    ensures s[start..] == Join(names)
    decreases |names|
  {
    if |names| > 1 {
      var end := start + |names[0]|;
      SpellingIsJoin(s, end + 1, names[1..]);
      assert s[start..] == s[start..end] + "\n" + s[end + 1..];
    }
  }

  /** The text without the trailing newline, if it has one. */
  function Body(s: string): string {
    s[..|s| - |Trailer(s)|]
  }

  lemma SpellsCons(t: string, start: nat, end: nat, names: seq<string>)
    requires start <= end <= |t|
    requires if names == [] then end == |t| else end < |t| && t[end] == '\n' && Spells(t, end + 1, names)
    ensures Spells(t, start, [t[start..end]] + names)
  {
    assert ([t[start..end]] + names)[1..] == names;
  }

  lemma BodyKeepsAllButTheTrailer(s: string, start: nat, end: nat)
    requires start <= end <= |s|
    ensures |s| - 1 <= |Body(s)| <= |s|
    ensures |Body(s)| < |s| ==> s[|s| - 1] == '\n'
    ensures end == |s| && s != "" && s[|s| - 1] != '\n' ==> Body(s) == s
    ensures end < |s| && s[end] == '\n' ==> end <= |Body(s)| && (end == |s| - 1 ==> |Body(s)| == end)
    ensures end <= |Body(s)| ==> Body(s)[start..end] == s[start..end]
    ensures end < |Body(s)| ==> Body(s)[end] == s[end]
  {
  }

  /** The first field ends at a newline or at the end of the text. */
  lemma FirstField(s: string, start: nat) returns (end: nat, rest: seq<string>)
    requires start < |s|
    ensures start <= end <= |s| && SplitFrom(s, start) == [s[start..end]] + rest
    ensures rest == if end + 1 < |s| then SplitFrom(s, end + 1) else []
    ensures rest == [] <==> end + 1 >= |s|
    ensures s[if end < |s| then end else end - 1] == '\n' <==> end < |s|
  {
    var found := Find(s, '\n', start);
    end := if found.Some? then found.value else |s|;
    rest := if found.Some? then SplitFrom(s, end + 1) else [];
    assert found.None? ==> s[start..end] == s[start..] && [s[start..]] + [] == [s[start..]];
  }

  /** How a field that ends at `end` sits in the text without its trailer. */
  lemma BodyAt(s: string, start: nat, end: nat)
    requires start < |s| && start <= end <= |s| && (end < |s| ==> s[end] == '\n') && (end == |s| ==> s[|s| - 1] != '\n')
    ensures end <= |Body(s)| && Body(s)[start..end] == s[start..end]
    ensures if end + 1 >= |s| then end == |Body(s)| else end < |Body(s)| && Body(s)[end] == '\n'
  {
    BodyKeepsAllButTheTrailer(s, start, end);
  }

  /** The fields spell the text, but for a trailing newline. */
  lemma {:induction false} FieldsSpell(s: string, start: nat)
    requires start < |s|
    ensures Spells(Body(s), start, SplitFrom(s, start))
    decreases |s| - start
  {
    var end, rest := FirstField(s, start);
    if end + 1 < |s| {
      FieldsSpell(s, end + 1);
    }
    BodyAt(s, start, end);
    SpellsCons(Body(s), start, end, rest);
  }

  /** Rejoining the fields gives the string back, up to exactly one trailing newline. */
  lemma RejoinRestores(s: string)
    ensures s == Join(Split(s)) + Trailer(s)
  {
    if s != "" {
      FieldsSpell(s, 0);
    }
    SpellingIsJoin(Body(s), 0, Split(s));
    assert Body(s)[0..] + Trailer(s) == s;
  }

  ghost predicate Joinable(names: seq<string>) {
    (forall n :: n in names ==> '\n' !in n) && (names == [] || names[|names| - 1] != "")
  }

  /** Searching a text whose next field is `f`. */
  lemma {:induction false} FindAfterField(s: string, c: char, from: nat, end: nat)
    requires from <= end <= |s| && c !in s[from..end] && (end < |s| ==> s[end] == c)
    ensures Find(s, c, from) == if end < |s| then Some(end) else None
    decreases end - from
  {
    if from < end {
      assert s[from] == s[from..end][0] && s[from + 1..end] == s[from..end][1..];
      FindAfterField(s, c, from + 1, end);
    }
  }

  /** From `start` on, `s` consists of the names with newlines between them. */
  ghost predicate Spells(s: string, start: nat, names: seq<string>)
    decreases |names|
  {
    if names == [] then start == |s|
    else
      var end := start + |names[0]|;
      end <= |s| && s[start..end] == names[0]
      && (if |names| == 1 then end == |s| else end < |s| && s[end] == '\n' && Spells(s, end + 1, names[1..]))
  }

  lemma {:induction false} JoinSpells(pre: string, names: seq<string>)
    ensures Spells(pre + Join(names), |pre|, names)
    decreases |names|
  {
    if |names| > 1 {
      var s, pre' := pre + Join(names), pre + names[0] + "\n";
      JoinSpells(pre', names[1..]);
      assert s == pre' + Join(names[1..]);
      assert s[|pre'| - 1] == '\n';
    }
  }

  lemma {:induction false} SplitReadsSpelling(s: string, start: nat, names: seq<string>)
    requires start <= |s| && Spells(s, start, names) && Joinable(names)
    ensures SplitFrom(s, start) == names
    decreases |names|
  {
    if names != [] {
      var f, end := names[0], start + |names[0]|;
      assert f in names;
      FindAfterField(s, '\n', start, end);
      if |names| == 1 {
        assert s[start..] == f && names == [f];
      } else {
        assert names[1..][|names| - 2] == names[|names| - 1];
        SplitReadsSpelling(s, end + 1, names[1..]);
        assert names == [f] + names[1..];
      }
    }
  }

  lemma {:induction false} JoinEndsWithLast(names: seq<string>)
    requires names != []
    ensures names[|names| - 1] == "" ==> Join(names) == "" || Join(names)[|Join(names)| - 1] == '\n'
    ensures Join(names) == "" ==> |names| == 1
  {
    if |names| > 1 {
      JoinEndsWithLast(names[1..]);
      assert Join(names) == names[0] + "\n" + Join(names[1..]);
    }
  }

  /** Splitting inverts joining for exactly the newline-free lists whose last name is not empty. */
  lemma SplitJoinExact(names: seq<string>)
    ensures Split(Join(names)) == names <==> Joinable(names)
  {
    var s := Join(names);
    if Joinable(names) {
      JoinSpells("", names);
      assert "" + s == s;
      SplitReadsSpelling(s, 0, names);
    } else if Split(s) == names {
      FieldsHoldNoNewline(s, 0);
      JoinEndsWithLast(names);
      RejoinRestores(s);
      assert false;
    }
  }

  // ----- across the boundary -----

  /** `CString::new(joined).unwrap_or_default()`: a NUL anywhere loses the whole text. */
  function CStringOrDefault(s: string): string {
    if NulFree(s) then s else ""
  }

  /** What the C++ caller gets for the component names the Rust side found. */
  function Received(names: seq<string>): seq<string> {
    Split(UntilNul(CStringOrDefault(Join(names))))
  }

  /** idevice_restore_boot_component_names: `None` is a build identity that is no dictionary. */
  method JoinedNames(heap: Heap, identity: Option<seq<string>>) returns (joined: Result<Ptr, string>)
    modifies heap
    ensures joined.Err? <==> identity.None?
    ensures joined.Err? ==> heap.blocks == old(heap.blocks)
    ensures joined.Ok? ==> joined.value.At? && joined.value.addr !in old(heap.blocks)
    ensures joined.Ok? ==>
      heap.blocks == old(heap.blocks)[joined.value.addr := CStr(CStringOrDefault(Join(identity.value)))]
  {
    match identity
    case None => joined := Err("build_identity is not a plist dictionary");
    case Some(names) =>
      var p := heap.Alloc(CStr(CStringOrDefault(Join(names))));
      joined := Ok(p);
  }

  /** boot_component_names: fetch the joined string, copy it, release it, split the copy. */
  method BootComponentNames(heap: Heap, identity: Option<seq<string>>) returns (r: Result<seq<string>, string>)
    modifies heap
    ensures heap.blocks == old(heap.blocks)
    ensures r.Ok? <==> identity.Some?
    ensures r.Ok? ==> r.value == Received(identity.value)
  {
    var joined := JoinedNames(heap, identity);
    match joined
    case Err(e) => r := Err(e);
    case Ok(p) =>
      var s := UntilNul(heap.blocks[p.addr].text);
      heap.Free(p);
      var out := SplitLoop(s);
      r := Ok(out);
  }

  lemma {:induction false} JoinNulFree(names: seq<string>)
    ensures NulFree(Join(names)) <==> forall n :: n in names ==> NulFree(n)
  {
    if |names| == 1 {
      assert names == [names[0]];
    } else if |names| > 1 {
      var s, rest := Join(names), Join(names[1..]);
      JoinNulFree(names[1..]);
      assert forall n :: n in names <==> n == names[0] || n in names[1..];
      assert s == names[0] + "\n" + rest;
      assert '\0' in s <==> '\0' in names[0] || '\0' in rest;
      if NulFree(s) {
        forall n | n in names ensures NulFree(n) { assert n == names[0] || n in names[1..]; }
      } else if NulFree(names[0]) {
        var n :| n in names[1..] && !NulFree(n);
        assert n in names;
      }
    }
  }

  /** The list arrives unchanged for exactly the lists in which no name holds a newline or a
      NUL and the last name is not empty. */
  lemma ArrivesIntactExactly(names: seq<string>)
    ensures Received(names) == names <==> Joinable(names) && forall n :: n in names ==> NulFree(n)
  {
    JoinNulFree(names);
    SplitJoinExact(names);
  }

  /** A NUL in any one name loses the entire list. */
  lemma OneNulLosesTheList(names: seq<string>, bad: string)
    requires bad in names && !NulFree(bad)
    ensures Received(names) == []
  {
    JoinNulFree(names);
  }
}
