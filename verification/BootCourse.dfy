/** The course a boot takes: what is uploaded and what the device is told, in order
    (cpp/examples/restore.cpp). */
module BootCourse {
  import opened Prelude
  import opened BootTrace

  /** What a step of the driver does to the device: a component that has gone up, a command, the closing
      of an upload, the device found again, auto-boot set. */
  datatype Deed =
    | Sent(name: string, required: bool)
    | Told(text: string, request: nat)
    | ClosedUpload
    | FoundAgain
    | SetAutoboot

  /** A command counts whether or not the device accepted it. */
  function DeedOf(e: Event): seq<Deed> {
    match e
    case Upload(name, _, required, ok) => if ok then [Sent(name, required)] else []
    case Command(text, request, _) => [Told(text, request)]
    case FinishTransfer(_) => [ClosedUpload]
    case Reconnect(ok) => if ok then [FoundAgain] else []
    case AutobootOff(_) => [SetAutoboot]
    case _ => []
  }

  function Deeds(t: seq<Event>): seq<Deed> {
    if t == [] then [] else Deeds(t[..|t| - 1]) + DeedOf(t[|t| - 1])
  }

  lemma DeedsSnoc(t: seq<Event>, e: Event)
    ensures Deeds(t + [e]) == Deeds(t) + DeedOf(e)
  {
    assert (t + [e])[..|t|] == t;
  }

  // ----- the parts of the course -----

  /** iBEC is uploaded and started with request 1; the device goes away and is found again. */
  function IbecPart(): seq<Deed> {
    [Sent("iBEC", true), Told("go", 1), ClosedUpload, FoundAgain]
  }

  function LogoPart(): seq<Deed> {
    [Sent("RestoreLogo", false), Told("setpicture 4", 0), Told("bgcolor 0 0 0", 0)]
  }

  /** Each listed component, followed by the command that loads it. */
  function ListedPart(listed: seq<string>): seq<Deed> {
    if listed == [] then []
    else ListedPart(listed[..|listed| - 1]) + [Sent(listed[|listed| - 1], true), Told("firmware", 0)]
  }

  function RamdiskPart(): seq<Deed> {
    [Sent("RestoreRamDisk", true), Told("ramdisk", 0)]
  }

  function TreePart(): seq<Deed> {
    [Sent("RestoreDeviceTree", true), Told("devicetree", 0)]
  }

  function SepPart(): seq<Deed> {
    [Sent("RestoreSEP", false), Told("rsepfirmware", 0)]
  }

  function KernelPart(): seq<Deed> {
    [Sent("RestoreKernelCache", true), ClosedUpload, Told(BOOT_ARGS, 0), Told("bootx", 1)]
  }

  function If(b: bool, part: seq<Deed>): seq<Deed> {
    if b then part else []
  }

  /** What precedes the listed components. */
  function Opening(ibec: bool, logo: bool): seq<Deed> {
    If(ibec, IbecPart()) + [SetAutoboot] + If(logo, LogoPart())
  }

  /** The whole course, for a device that started in recovery mode or not, with or without the logo and
      the SEP image. */
  function Course(ibec: bool, logo: bool, sep: bool, listed: seq<string>): seq<Deed> {
    Opening(ibec, logo) + ListedPart(listed) + RamdiskPart() + TreePart() + If(sep, SepPart()) + KernelPart()
  }

  // ----- advancing along it -----

  /** From `before` to `after` a beginning of the part was done, and all of it when `ok`. */
  predicate Advances(before: seq<Deed>, after: seq<Deed>, part: seq<Deed>, ok: bool) {
    before <= after <= before + part && (ok ==> after == before + part)
  }

  lemma ThenAdvances(a: seq<Deed>, b: seq<Deed>, c: seq<Deed>, p: seq<Deed>, q: seq<Deed>, ok: bool)
    requires Advances(a, b, p, true) && Advances(b, c, q, ok)
    ensures Advances(a, c, p + q, ok)
  {
    Assoc(a, p, q);
  }

  lemma StopsAdvancing(a: seq<Deed>, b: seq<Deed>, p: seq<Deed>, q: seq<Deed>)
    requires Advances(a, b, p, false)
    ensures Advances(a, b, p + q, false)
  {
    assert a + p + q == a + (p + q);
  }

  lemma ListedPartGrows(listed: seq<string>, i: nat)
    requires i < |listed|
    ensures ListedPart(listed[..i + 1]) == ListedPart(listed[..i]) + [Sent(listed[i], true), Told("firmware", 0)]
  {
    assert listed[..i + 1][..i] == listed[..i];
  }

  lemma {:induction false} ListedPartBegins(listed: seq<string>, i: nat)
    requires i <= |listed|
    ensures ListedPart(listed[..i]) <= ListedPart(listed)
    decreases |listed| - i
  {
    if i < |listed| {
      ListedPartGrows(listed, i);
      ListedPartBegins(listed, i + 1);
    } else {
      assert listed[..i] == listed;
    }
  }

  /** The closing part, from the ramdisk on. */
  function Closing(sep: bool): seq<Deed> {
    RamdiskPart() + TreePart() + If(sep, SepPart()) + KernelPart()
  }

  lemma CourseInParts(ibec: bool, logo: bool, sep: bool, listed: seq<string>)
    ensures Course(ibec, logo, sep, listed) == Opening(ibec, logo) + ListedPart(listed) + Closing(sep)
  {
  }

  lemma OneMoreLoaded(listed: seq<string>, i: nat, done: seq<Deed>, before: seq<Deed>, after: seq<Deed>, ok: bool)
    requires i < |listed| && before == done + ListedPart(listed[..i])
    requires Advances(before, after, [Sent(listed[i], true), Told("firmware", 0)], ok)
    ensures ok ==> after == done + ListedPart(listed[..i + 1])
    ensures !ok ==> Advances(done, after, ListedPart(listed), false)
  {
    ListedPartGrows(listed, i);
    ListedPartBegins(listed, i + 1);
    Further(done, ListedPart(listed[..i]), before, after, [Sent(listed[i], true), Told("firmware", 0)], ListedPart(listed), ok);
  }

  lemma Further(a: seq<Deed>, p: seq<Deed>, b: seq<Deed>, c: seq<Deed>, q: seq<Deed>, whole: seq<Deed>, ok: bool)
    requires b == a + p && Advances(b, c, q, ok) && p + q <= whole
    ensures ok ==> c == a + (p + q)
    ensures Advances(a, c, whole, false)
  {
    assert a + p + q == a + (p + q);
    var rest := whole[|p + q|..];
    assert whole == p + q + rest;
    assert a + whole == b + q + rest;
  }

  /** The kernel part is what precedes the command to boot, and that command. */
  lemma KernelInTwo(before: seq<Deed>, after: seq<Deed>, ok: bool)
    requires Advances(before, after, [Sent("RestoreKernelCache", true), ClosedUpload, Told(BOOT_ARGS, 0)], ok)
    ensures Advances(before, after, KernelPart(), false)
    ensures ok ==> after + [Told("bootx", 1)] == before + KernelPart()
  {
    var first: seq<Deed> := [Sent("RestoreKernelCache", true), ClosedUpload, Told(BOOT_ARGS, 0)];
    assert KernelPart() == first + [Told("bootx", 1)];
    StopsAdvancing(before, after, first, [Told("bootx", 1)]);
    assert before + first + [Told("bootx", 1)] == before + KernelPart();
  }

  lemma ThroughIbec(a: seq<Deed>, b: seq<Deed>, c: seq<Deed>, found: bool)
    requires b == a + [Sent("iBEC", true), Told("go", 1), ClosedUpload] && c == b + if found then [FoundAgain] else []
    ensures Advances(a, c, IbecPart(), found) && Advances(a, c, IbecPart(), false)
  {
    var first: seq<Deed> := [Sent("iBEC", true), Told("go", 1), ClosedUpload];
    assert IbecPart() == first + [FoundAgain];
    Assoc(a, first, [FoundAgain]);
  }

  lemma LogoInTwo(before: seq<Deed>)
    ensures before + [Sent("RestoreLogo", false)] + [Told("setpicture 4", 0), Told("bgcolor 0 0 0", 0)] == before + LogoPart()
  {
  }

  lemma ClosingStops(before: seq<Deed>, after: seq<Deed>, sep: bool)
    requires Advances(before, after, RamdiskPart() + TreePart(), false)
    ensures Advances(before, after, Closing(sep), false)
  {
    StopsAdvancing(before, after, RamdiskPart() + TreePart(), If(sep, SepPart()) + KernelPart());
    assert Closing(sep) == RamdiskPart() + TreePart() + (If(sep, SepPart()) + KernelPart());
  }

  lemma ClosingDone(a: seq<Deed>, b: seq<Deed>, c: seq<Deed>, d: seq<Deed>, sep: bool, ok: bool)
    requires Advances(a, b, RamdiskPart() + TreePart(), true) && c == b + If(sep, SepPart()) && Advances(c, d, KernelPart(), ok)
    ensures Advances(a, d, Closing(sep), ok)
  {
    ThenAdvances(a, b, c, RamdiskPart() + TreePart(), If(sep, SepPart()), true);
    ThenAdvances(a, c, d, RamdiskPart() + TreePart() + If(sep, SepPart()), KernelPart(), ok);
  }

  lemma Assoc(a: seq<Deed>, b: seq<Deed>, c: seq<Deed>)
    ensures a + b + c == a + (b + c)
  {
  }

  lemma FromNothing(a: seq<Deed>)
    ensures [] + a == a
  {
  }

  /** A boot that stopped within iBEC's part, or once auto-boot was set. */
  lemma CourseStops(ds: seq<Deed>, ibec: bool, stage: nat, listed: seq<string>)
    requires if stage == 0 then Advances([], ds, If(ibec, IbecPart()), false) else ds == If(ibec, IbecPart()) + [SetAutoboot]
    ensures Advances([], ds, Course(ibec, false, false, listed), false)
  {
    var first, tail := If(ibec, IbecPart()), ListedPart(listed) + Closing(false);
    CourseInParts(ibec, false, false, listed);
    assert Opening(ibec, false) == first + [SetAutoboot];
    Assoc(first + [SetAutoboot], ListedPart(listed), Closing(false));
    Assoc(first, [SetAutoboot], tail);
    if stage == 0 {
      StopsAdvancing([], ds, first, [SetAutoboot] + tail);
    } else {
      StopsAdvancing([], ds, first + [SetAutoboot], tail);
    }
  }

  lemma CourseDone(begun: seq<Deed>, ds: seq<Deed>, ibec: bool, logo: bool, sep: bool, listed: seq<string>, ok: bool)
    requires begun == Opening(ibec, logo) && Advances(begun, ds, ListedPart(listed) + Closing(sep), ok)
    ensures Advances([], ds, Course(ibec, logo, sep, listed), ok)
  {
    CourseInParts(ibec, logo, sep, listed);
    Assoc(begun, ListedPart(listed), Closing(sep));
    FromNothing(begun);
    ThenAdvances([], begun, ds, begun, ListedPart(listed) + Closing(sep), ok);
  }

  // ----- the course and the trace, place by place -----

  /** This step does this deed. */
  predicate Does(e: Event, d: Deed) {
    match d
    case Sent(name, required) => e.Upload? && e.ok && e.name == name && e.required == required
    case Told(text, request) => e.Command? && e.text == text && e.request == request
    case ClosedUpload => e.FinishTransfer?
    case FoundAgain => e.Reconnect? && e.ok
    case SetAutoboot => e.AutobootOff?
  }

  /** The steps that count: uploads that went through, every command, every closing of an upload, the
      device found again, auto-boot set. */
  predicate Counts(e: Event) {
    e.Command? || e.FinishTransfer? || e.AutobootOff? || ((e.Upload? || e.Reconnect?) && e.ok)
  }

  /** Places in the trace, in order: the k-th is the step that does the k-th deed, and no other step
      counts. */
  ghost predicate Places(t: seq<Event>, pos: seq<nat>, ds: seq<Deed>) {
    && |pos| == |ds|
    && (forall k :: 0 <= k < |pos| ==> pos[k] < |t| && Does(t[pos[k]], ds[k]))
    && (forall j, k :: 0 <= j < k < |pos| ==> pos[j] < pos[k])
    && (forall i :: 0 <= i < |t| && Counts(t[i]) ==> i in pos)
  }

  lemma OneDeed(e: Event)
    ensures if Counts(e) then |DeedOf(e)| == 1 && Does(e, DeedOf(e)[0]) else DeedOf(e) == []
  {
  }

  lemma PlacesSnoc(t: seq<Event>, e: Event, pos: seq<nat>, ds: seq<Deed>, d: seq<Deed>)
    requires Places(t, pos, ds)
    requires if Counts(e) then |d| == 1 && Does(e, d[0]) else d == []
    ensures Places(t + [e], if Counts(e) then pos + [|t|] else pos, ds + d)
  {
    var t', pos' := t + [e], if Counts(e) then pos + [|t|] else pos;
    forall k | 0 <= k < |pos'| ensures pos'[k] < |t'| && Does(t'[pos'[k]], (ds + d)[k]) {
      if k < |pos| {
        assert t'[pos[k]] == t[pos[k]];
      }
    }
    forall i | 0 <= i < |t'| && Counts(t'[i]) ensures i in pos' {
      if i < |t| {
        assert i in pos;
      } else {
        assert pos'[|pos|] == i;
      }
    }
  }

  lemma OneMorePlace(t: seq<Event>, e: Event, pos: seq<nat>) returns (pos': seq<nat>)
    requires Places(t, pos, Deeds(t))
    ensures Places(t + [e], pos', Deeds(t + [e]))
  {
    DeedsSnoc(t, e);
    OneDeed(e);
    PlacesSnoc(t, e, pos, Deeds(t), DeedOf(e));
    pos' := if Counts(e) then pos + [|t|] else pos;
  }

  lemma {:induction false} DeedsInPlace(t: seq<Event>) returns (pos: seq<nat>)
    ensures Places(t, pos, Deeds(t))
  {
    if t == [] {
      pos := [];
    } else {
      var init, e := t[..|t| - 1], t[|t| - 1];
      var before := DeedsInPlace(init);
      pos := OneMorePlace(init, e, before);
      assert init + [e] == t;
    }
  }

  lemma {:induction false} ListedPartAt(listed: seq<string>, i: nat)
    requires i < |listed|
    ensures |ListedPart(listed)| == 2 * |listed|
    ensures ListedPart(listed)[2 * i] == Sent(listed[i], true) && ListedPart(listed)[2 * i + 1] == Told("firmware", 0)
  {
    var init := listed[..|listed| - 1];
    if i < |init| {
      ListedPartAt(init, i);
    } else if init != [] {
      ListedPartAt(init, 0);
    }
  }

  /** Where the listed components begin. */
  function AtListed(ibec: bool, logo: bool): nat {
    (if ibec then 5 else 1) + if logo then 3 else 0
  }

  /** Where the ramdisk is sent. */
  function AtRamdisk(ibec: bool, logo: bool, n: nat): nat {
    AtListed(ibec, logo) + 2 * n
  }

  lemma OpeningAt(ibec: bool, logo: bool)
    ensures var o, at := Opening(ibec, logo), if ibec then 4 else 0;
      && |o| == AtListed(ibec, logo) && o[at] == SetAutoboot
      && (ibec ==> o[0] == Sent("iBEC", true) && o[1] == Told("go", 1) && o[2] == ClosedUpload && o[3] == FoundAgain)
      && (logo ==> o[at + 1] == Sent("RestoreLogo", false) && o[at + 2] == Told("setpicture 4", 0) && o[at + 3] == Told("bgcolor 0 0 0", 0))
  {
  }

  lemma ClosingAt(sep: bool)
    ensures var t, k := Closing(sep), 4 + if sep then 2 else 0;
      && |t| == k + 4
      && t[0] == Sent("RestoreRamDisk", true) && t[1] == Told("ramdisk", 0)
      && t[2] == Sent("RestoreDeviceTree", true) && t[3] == Told("devicetree", 0)
      && (sep ==> t[4] == Sent("RestoreSEP", false) && t[5] == Told("rsepfirmware", 0))
      && t[k] == Sent("RestoreKernelCache", true) && t[k + 1] == ClosedUpload
      && t[k + 2] == Told("setenv boot-args rd=md0 nand-enable-reformat=1 -progress", 0) && t[k + 3] == Told("bootx", 1)
  {
  }

  /** The opening of the course, place by place. */
  lemma CourseOpens(ibec: bool, logo: bool, sep: bool, listed: seq<string>)
    ensures var c, at := Course(ibec, logo, sep, listed), if ibec then 4 else 0;
      && |c| >= AtListed(ibec, logo) && c[at] == SetAutoboot
      && (ibec ==> c[0] == Sent("iBEC", true) && c[1] == Told("go", 1) && c[2] == ClosedUpload && c[3] == FoundAgain)
      && (logo ==> c[at + 1] == Sent("RestoreLogo", false) && c[at + 2] == Told("setpicture 4", 0) && c[at + 3] == Told("bgcolor 0 0 0", 0))
  {
    var o := Opening(ibec, logo);
    OpeningAt(ibec, logo);
    CourseInParts(ibec, logo, sep, listed);
    assert o <= Course(ibec, logo, sep, listed);
    assert forall k :: 0 <= k < |o| ==> Course(ibec, logo, sep, listed)[k] == o[k];
  }

  /** Its listed components. */
  lemma CourseLists(ibec: bool, logo: bool, sep: bool, listed: seq<string>, i: nat)
    requires i < |listed|
    ensures var c, k := Course(ibec, logo, sep, listed), AtListed(ibec, logo) + 2 * i;
      k + 1 < |c| && c[k] == Sent(listed[i], true) && c[k + 1] == Told("firmware", 0)
  {
    OpeningAt(ibec, logo);
    ListedPartAt(listed, i);
    CourseInParts(ibec, logo, sep, listed);
  }

  /** Its closing, from where the ramdisk is sent. */
  lemma CourseCloses(ibec: bool, logo: bool, sep: bool, listed: seq<string>)
    ensures var c, r := Course(ibec, logo, sep, listed), AtRamdisk(ibec, logo, |listed|);
      r <= |c| && var t, k := c[r..], 4 + if sep then 2 else 0;
      && |t| == k + 4
      && t[0] == Sent("RestoreRamDisk", true) && t[1] == Told("ramdisk", 0)
      && t[2] == Sent("RestoreDeviceTree", true) && t[3] == Told("devicetree", 0)
      && (sep ==> t[4] == Sent("RestoreSEP", false) && t[5] == Told("rsepfirmware", 0))
      && t[k] == Sent("RestoreKernelCache", true) && t[k + 1] == ClosedUpload
      && t[k + 2] == Told("setenv boot-args rd=md0 nand-enable-reformat=1 -progress", 0) && t[k + 3] == Told("bootx", 1)
  {
    OpeningAt(ibec, logo);
    ListedLength(listed);
    ClosingAt(sep);
    CourseInParts(ibec, logo, sep, listed);
    Behind(Opening(ibec, logo) + ListedPart(listed), Closing(sep));
  }

  lemma Behind<T>(a: seq<T>, b: seq<T>)
    ensures (a + b)[|a|..] == b
  {
  }

  lemma {:induction false} ListedLength(listed: seq<string>)
    ensures |ListedPart(listed)| == 2 * |listed|
  {
    if listed != [] {
      ListedLength(listed[..|listed| - 1]);
    }
  }

  // ----- what a whole course says of the trace -----

  /** A deed that may be missing, and the one that follows it. */
  predicate Used(d: Deed, next: Deed) {
    d.Sent? && !d.required ==>
      || (d.name == "RestoreLogo" && next == Told("setpicture 4", 0))
      || (d.name == "RestoreSEP" && next == Told("rsepfirmware", 0))
  }

  /** What one deed of a boot can be: iBEC's start only as the second, with request 1; the logo and the SEP
      image only right before their commands. */
  ghost predicate InItsPlace(ds: seq<Deed>, m: nat, ibec: bool)
    requires m < |ds|
  {
    && (ds[m].Told? && ds[m].text == "go" ==> ibec && m == 1 && ds[m].request == 1)
    && (ds[m].Sent? && !ds[m].required ==> m + 1 < |ds| && Used(ds[m], ds[m + 1]))
  }

  lemma OpeningInPlace(ibec: bool, logo: bool, m: nat)
    requires m < |Opening(ibec, logo)|
    ensures InItsPlace(Opening(ibec, logo), m, ibec)
  {
    OpeningAt(ibec, logo);
  }

  lemma {:induction false} ListedInPlace(listed: seq<string>, m: nat)
    requires m < |ListedPart(listed)|
    ensures ListedPart(listed)[m].Told? ==> ListedPart(listed)[m].text == "firmware"
    ensures ListedPart(listed)[m].Sent? ==> ListedPart(listed)[m].required
    ensures ListedPart(listed)[m].Told? || ListedPart(listed)[m].Sent?
  {
    if m < |ListedPart(listed[..|listed| - 1])| {
      ListedInPlace(listed[..|listed| - 1], m);
    }
  }

  lemma ClosingInPlace(sep: bool, m: nat)
    requires m < |Closing(sep)|
    ensures InItsPlace(Closing(sep), m, false)
  {
    ClosingAt(sep);
  }

  lemma CourseInPlace(ibec: bool, logo: bool, sep: bool, listed: seq<string>, m: nat)
    requires m < |Course(ibec, logo, sep, listed)|
    ensures InItsPlace(Course(ibec, logo, sep, listed), m, ibec)
  {
    var o, l, t := Opening(ibec, logo), ListedPart(listed), Closing(sep);
    CourseInParts(ibec, logo, sep, listed);
    if m < |o| {
      OpeningInPlace(ibec, logo, m);
      assert m + 1 < |o| ==> (o + l + t)[m + 1] == o[m + 1];
    } else if m < |o| + |l| {
      ListedInPlace(listed, m - |o|);
      assert (o + l + t)[m] == l[m - |o|];
      assert |"firmware"| != |"go"|;
    } else {
      ClosingInPlace(sep, m - |o| - |l|);
      assert (o + l + t)[m] == t[m - |o| - |l|];
      assert m + 1 < |o + l + t| ==> (o + l + t)[m + 1] == t[m + 1 - |o| - |l|];
    }
  }

  lemma NothingBetween(t: seq<Event>, pos: seq<nat>, ds: seq<Deed>, m: nat, k: nat)
    requires Places(t, pos, ds) && m < |pos| && pos[m] < k < |t|
    requires m + 1 < |pos| ==> k < pos[m + 1]
    ensures !Counts(t[k])
  {
    if k in pos {
      var n :| 0 <= n < |pos| && pos[n] == k;
      assert false;
    }
  }

  /** A `go` in the trace of a boot that was told everything is the second deed's. */
  lemma GoIsSecond(t: seq<Event>, pos: seq<nat>, ibec: bool, logo: bool, sep: bool, listed: seq<string>, j: nat)
    requires Places(t, pos, Course(ibec, logo, sep, listed))
    requires j < |t| && t[j].Command? && t[j].text == "go"
    ensures ibec && t[j].request == 1 && |pos| > 1 && j == pos[1]
  {
    var c := Course(ibec, logo, sep, listed);
    assert Counts(t[j]);
    var m :| 0 <= m < |pos| && pos[m] == j;
    CourseInPlace(ibec, logo, sep, listed, m);
    GoDeed(t[j], c[m]);
  }

  lemma GoDeed(e: Event, d: Deed)
    requires Does(e, d) && e.Command?
    ensures d == Told(e.text, e.request)
  {
  }

  /** A boot that was told everything and went through iBEC started it: after iBEC was uploaded and before
      the device was found again, with request 1. */
  lemma IbecIsStarted(t: seq<Event>, logo: bool, sep: bool, listed: seq<string>) returns (i: nat, j: nat, k: nat)
    requires Deeds(t) == Course(true, logo, sep, listed)
    ensures i < j < k < |t| && UploadOf(t[i], "iBEC") && t[k] == Reconnect(true)
    ensures t[j].Command? && t[j].text == "go" && t[j].request == 1
  {
    var c := Course(true, logo, sep, listed);
    var pos := DeedsInPlace(t);
    CourseOpens(true, logo, sep, listed);
    i, j, k := pos[0], pos[1], pos[3];
    assert Does(t[i], c[0]) && Does(t[j], c[1]) && Does(t[k], c[3]);
  }

  /** No `go` is sent unless the boot goes through iBEC, and then only one. */
  lemma IbecIsStartedOnce(t: seq<Event>, ibec: bool, logo: bool, sep: bool, listed: seq<string>, j: nat, k: nat)
    requires Deeds(t) == Course(ibec, logo, sep, listed)
    requires j < |t| && t[j].Command? && t[j].text == "go" && k < |t| && t[k].Command? && t[k].text == "go"
    ensures ibec && j == k
  {
    var pos := DeedsInPlace(t);
    GoIsSecond(t, pos, ibec, logo, sep, listed, j);
    GoIsSecond(t, pos, ibec, logo, sep, listed, k);
  }

  lemma SentDeed(e: Event, d: Deed)
    requires Does(e, d) && e.Upload?
    ensures d == Sent(e.name, e.required)
  {
  }

  lemma UsedDeed(e: Event, d: Deed, f: Event, next: Deed)
    requires e.Upload? && !e.required && Does(e, d) && Does(f, next) && Used(d, next)
    ensures f.Command? && f.request == 0
    ensures (e.name == "RestoreLogo" && f.text == "setpicture 4") || (e.name == "RestoreSEP" && f.text == "rsepfirmware")
  {
  }

  /** Whenever the logo or the SEP image was uploaded as one that may be missing, the next thing done to the
      device is to use it. */
  lemma OptionalUploadsAreUsed(t: seq<Event>, ibec: bool, logo: bool, sep: bool, listed: seq<string>, i: nat) returns (j: nat)
    requires Deeds(t) == Course(ibec, logo, sep, listed)
    requires i < |t| && t[i].Upload? && t[i].ok && !t[i].required
    ensures i < j < |t| && t[j].Command? && t[j].request == 0
    ensures (t[i].name == "RestoreLogo" && t[j].text == "setpicture 4") || (t[i].name == "RestoreSEP" && t[j].text == "rsepfirmware")
    ensures forall k :: i < k < j ==> !Counts(t[k])
  {
    var c := Course(ibec, logo, sep, listed);
    var pos := DeedsInPlace(t);
    assert Counts(t[i]);
    var m :| 0 <= m < |pos| && pos[m] == i;
    SentDeed(t[i], c[m]);
    CourseInPlace(ibec, logo, sep, listed, m);
    j := pos[m + 1];
    UsedDeed(t[i], c[m], t[j], c[m + 1]);
    forall k | i < k < j ensures !Counts(t[k]) {
      NothingBetween(t, pos, c, m, k);
    }
  }

  lemma BootxIsLast(ibec: bool, logo: bool, sep: bool, listed: seq<string>)
    ensures var c := Course(ibec, logo, sep, listed); |c| > 0 && c[|c| - 1] == Told("bootx", 1)
  {
    CourseCloses(ibec, logo, sep, listed);
  }

  lemma BootxDeed(e: Event, d: Deed)
    requires Does(e, d) && d == Told("bootx", 1)
    ensures e.Command? && e.text == "bootx" && e.request == 1
  {
  }

  /** The last thing the device is told is `bootx`, with request 1. */
  lemma BootxEndsTheCourse(t: seq<Event>, ibec: bool, logo: bool, sep: bool, listed: seq<string>) returns (i: nat)
    requires Deeds(t) == Course(ibec, logo, sep, listed)
    ensures i < |t| && t[i].Command? && t[i].text == "bootx" && t[i].request == 1
    ensures forall k :: i < k < |t| ==> !Counts(t[k])
  {
    var c := Course(ibec, logo, sep, listed);
    var pos := DeedsInPlace(t);
    BootxIsLast(ibec, logo, sep, listed);
    i := pos[|pos| - 1];
    BootxDeed(t[i], c[|c| - 1]);
    forall k | i < k < |t| ensures !Counts(t[k]) {
      NothingBetween(t, pos, c, |pos| - 1, k);
    }
  }
}
