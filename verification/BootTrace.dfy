/** The steps of a boot, as the device in recovery mode and the firmware archive see them, and the
    discipline they have to follow (cpp/examples/restore.cpp). */
module BootTrace {
  import opened Prelude

  /** A component stitched into a personalised image. */
  datatype Image = Img4(raw: seq<byte>, ticket: seq<byte>, fourcc: Option<string>)

  /** The firmware: the archive's components, the four-character overrides some of them get, the
      component names iBoot loads itself (`None` when the list cannot be had), and whether the
      build identity names a SEP image. */
  datatype Firmware = Firmware(
    files: map<string, seq<byte>>, fourcc: map<string, string>, listed: Option<seq<string>>, hasSep: bool)

  /** The steps of the driver, each with how it ended. A component may be sent as one that is required
      or as one that may be missing. */
  datatype Event =
    | Opened(ok: bool)
    | Reconnect(ok: bool)                // the device was looked for again after iBEC was started
    | ListComponents(ok: bool)
    | ReadComponent(name: string, required: bool, ok: bool)
    | Stitch(name: string, required: bool, ok: bool)
    | Upload(name: string, image: Image, required: bool, ok: bool)
    | Command(text: string, request: nat, ok: bool)
    | FinishTransfer(ok: bool)
    | Getenv(ready: bool)
    | AutobootOff(ok: bool)

  const BOOT_ARGS := "setenv boot-args rd=md0 nand-enable-reformat=1 -progress"

  function Stitched(fw: Firmware, ticket: seq<byte>, name: string): Image
    requires name in fw.files
  {
    Img4(fw.files[name], ticket, if name in fw.fourcc then Some(fw.fourcc[name]) else None)
  }

  // ----- what a trace amounts to -----

  /** What has happened so far. */
  datatype Progress = Progress(
    tried: seq<string>,                  // components the driver set out to send
    names: seq<string>,                  // components uploaded
    last: Option<string>,                // the last upload, if it went through
    loads: seq<(string, string)>,        // accepted load commands, each with the component it found
    polls: nat,                          // looks at the build version
    found: bool,                         // the last look found it
    autobootOff: bool,
    finished: bool,                      // the last upload was closed with a finishing transfer
    argsSet: bool,
    booted: bool)

  const START := Progress([], [], None, [], 0, false, false, false, false, false)

  predicate IsLoad(text: string) {
    text == "firmware" || text == "ramdisk" || text == "devicetree"
  }

  /** A failure the driver cannot go on after. */
  predicate Fatal(e: Event) {
    match e
    case Opened(ok) => !ok
    case Reconnect(ok) => !ok
    case ListComponents(ok) => !ok
    case ReadComponent(_, required, ok) => required && !ok
    case Stitch(_, required, ok) => required && !ok
    case Upload(_, _, required, ok) => required && !ok
    case Command(text, _, ok) => (IsLoad(text) || text == BOOT_ARGS) && !ok
    case AutobootOff(ok) => !ok
    case _ => false
  }

  /** Kind by kind: opening the device, finding it again, the component list and auto-boot must not fail;
      nor must the reading, stitching or upload of a required component, a command that loads one, or the
      one that sets the boot arguments. Any other step may. */
  lemma FatalExactly(e: Event)
    ensures e.Opened? || e.Reconnect? || e.ListComponents? || e.AutobootOff? ==> (Fatal(e) <==> !e.ok)
    ensures e.ReadComponent? || e.Stitch? || e.Upload? ==> (Fatal(e) <==> e.required && !e.ok)
    ensures e.Command? && e.text in {"firmware", "ramdisk", "devicetree"} ==> (Fatal(e) <==> !e.ok)
    ensures e.Command? && e.text == "setenv boot-args rd=md0 nand-enable-reformat=1 -progress" ==> (Fatal(e) <==> !e.ok)
    ensures e.Command? && e.text in {"go", "setpicture 4", "bgcolor 0 0 0", "rsepfirmware", "bootx"} ==> !Fatal(e)
    ensures e.FinishTransfer? || e.Getenv? ==> !Fatal(e)
  {
  }

  /** A step has failed that must not. */
  predicate Failed(t: seq<Event>) {
    t != [] && (Failed(t[..|t| - 1]) || Fatal(t[|t| - 1]))
  }

  function Commanded(p: Progress, text: string, ok: bool): (r: Progress)
    ensures r.tried == p.tried && r.names == p.names && r.last == p.last && r.polls == p.polls && r.found == p.found
  {
    if text == "bootx" then p.(booted := true)
    else if text == BOOT_ARGS && ok then p.(argsSet := true)
    else if IsLoad(text) && ok && p.last.Some? then p.(loads := p.loads + [(text, p.last.value)])
    else p
  }

  function Observe(p: Progress, e: Event): Progress {
    match e
    case ReadComponent(name, _, _) => p.(tried := p.tried + [name])
    case Upload(name, _, _, ok) =>
      if ok then p.(names := p.names + [name], last := Some(name), finished := false)
      else p.(last := None, finished := false)
    case Command(text, _, ok) => Commanded(p, text, ok)
    case FinishTransfer(_) => p.(finished := true)
    case Getenv(ready) => p.(polls := p.polls + 1, found := ready)
    case AutobootOff(ok) => if ok then p.(autobootOff := true) else p
    case _ => p
  }

  /** What one step adds to the names and to the looks. */
  lemma ObservedNames(p: Progress, e: Event)
    ensures Observe(p, e).names == p.names + if e.Upload? && e.ok then [e.name] else []
    ensures Observe(p, e).polls == p.polls + if e.Getenv? then 1 else 0
    ensures Observe(p, e).found == if e.Getenv? then e.ready else p.found
  {
    match e
    case Command(_, _, _) =>
    case _ =>
  }

  function Seen(t: seq<Event>): Progress {
    if t == [] then START
    else Observe(Seen(t[..|t| - 1]), t[|t| - 1])
  }

  lemma SeenSnoc(t: seq<Event>, e: Event)
    ensures Seen(t + [e]) == Observe(Seen(t), e)
  {
    assert (t + [e])[..|t|] == t;
  }

  // ----- the discipline -----

  function Listed(fw: Firmware): seq<string> {
    match fw.listed case Some(l) => l case None => []
  }

  /** The uploads of a complete boot; iBEC, the logo and the SEP image may be missing. */
  function Plan(ibec: bool, logo: bool, sep: bool, listed: seq<string>): seq<string> {
    Head(ibec, logo) + listed + ["RestoreRamDisk", "RestoreDeviceTree"]
    + (if sep then ["RestoreSEP"] else []) + ["RestoreKernelCache"]
  }

  function Head(ibec: bool, logo: bool): seq<string> {
    (if ibec then ["iBEC"] else []) + (if logo then ["RestoreLogo"] else [])
  }

  function FirmwareLoads(listed: seq<string>): seq<(string, string)> {
    seq(|listed|, k requires 0 <= k < |listed| => ("firmware", listed[k]))
  }

  /** The names are a beginning of the uploads of some complete boot. */
  ghost predicate Begins(names: seq<string>, listed: seq<string>) {
    exists ibec, logo, sep :: names <= Plan(ibec, logo, sep, listed)
  }

  /** The plan as it grows: the head and some listed components, then the fixed ones. */
  lemma PlanGrows(ibec: bool, logo: bool, listed: seq<string>, i: nat)
    requires i <= |listed|
    ensures Begins(Head(ibec, logo) + listed[..i], listed)
    ensures Begins(Head(ibec, logo) + listed + ["RestoreRamDisk"], listed)
    ensures Begins(Head(ibec, logo) + listed + ["RestoreRamDisk", "RestoreDeviceTree"], listed)
    ensures Begins(Head(ibec, logo) + listed + ["RestoreRamDisk", "RestoreDeviceTree", "RestoreSEP"], listed)
  {
    var head := Head(ibec, logo);
    var plan, withSep := Plan(ibec, logo, false, listed), Plan(ibec, logo, true, listed);
    assert listed == listed[..i] + listed[i..];
    assert plan == head + listed[..i] + (listed[i..] + ["RestoreRamDisk", "RestoreDeviceTree", "RestoreKernelCache"]);
    assert plan == head + listed + ["RestoreRamDisk"] + ["RestoreDeviceTree", "RestoreKernelCache"];
    assert plan == head + listed + ["RestoreRamDisk", "RestoreDeviceTree"] + ["RestoreKernelCache"];
    assert withSep == head + listed + ["RestoreRamDisk", "RestoreDeviceTree", "RestoreSEP"] + ["RestoreKernelCache"];
  }

  /** Nothing, iBEC, the logo, or both are a beginning. */
  lemma HeadBegins(ibec: bool, logo: bool, listed: seq<string>)
    ensures Begins(Head(ibec, logo), listed)
  {
    PlanGrows(ibec, logo, listed, 0);
    assert Head(ibec, logo) + listed[..0] == Head(ibec, logo);
  }

  lemma OneMoreListed(ibec: bool, logo: bool, listed: seq<string>, i: nat)
    requires i < |listed|
    ensures Begins(Head(ibec, logo) + listed[..i], listed) && Begins(Head(ibec, logo) + listed[..i] + [listed[i]], listed)
    ensures Head(ibec, logo) + listed[..i] + [listed[i]] == Head(ibec, logo) + listed[..i + 1]
    ensures FirmwareLoads(listed)[..i] + [("firmware", listed[i])] == FirmwareLoads(listed)[..i + 1]
    ensures Fits("firmware", Some(listed[i]), listed)
  {
    PlanGrows(ibec, logo, listed, i);
    PlanGrows(ibec, logo, listed, i + 1);
    assert Head(ibec, logo) + listed[..i] + [listed[i]] == Head(ibec, logo) + listed[..i + 1];
  }

  /** Everything a boot needs has been done: every component was at least tried (the logo always,
      the SEP image when there is one), all but the optional ones were uploaded, each in its place;
      the listed components, the ramdisk and the device tree were loaded; auto-boot is off, the
      kernel upload is finished and the boot arguments are set. */
  ghost predicate Complete(p: Progress, fw: Firmware) {
    && (exists ibec, logo, sep ::
          p.names == Plan(ibec, logo, sep, Listed(fw)) && p.tried == Plan(ibec, true, fw.hasSep, Listed(fw)))
    && p.loads == FirmwareLoads(Listed(fw)) + [("ramdisk", "RestoreRamDisk"), ("devicetree", "RestoreDeviceTree")]
    && p.autobootOff && p.finished && p.argsSet
  }

  /** The component a command works on. */
  predicate Fits(text: string, last: Option<string>, listed: seq<string>) {
    && (text == "go" ==> last == Some("iBEC"))
    && (text == "setpicture 4" ==> last == Some("RestoreLogo"))
    && (text == "firmware" ==> last.Some? && last.value in listed)
    && (text == "ramdisk" ==> last == Some("RestoreRamDisk"))
    && (text == "devicetree" ==> last == Some("RestoreDeviceTree"))
    && (text == "rsepfirmware" ==> last == Some("RestoreSEP"))
  }

  /** The image holds the archive's bytes of the component, the ticket, and the override the component
      has, if it has one. */
  predicate Personalised(image: Image, fw: Firmware, ticket: seq<byte>, name: string)
    requires name in fw.files
  {
    && image.raw == fw.files[name] && image.ticket == ticket
    && (name in fw.fourcc ==> image.fourcc == Some(fw.fourcc[name]))
    && (name !in fw.fourcc ==> image.fourcc == None)
  }

  /** May `e` come next? Nothing may once the device was told to boot; only the logo and the SEP image
      may be sent as optional; an upload must carry its own component stitched with the one ticket; a
      command must find the component it is about as the last upload; the build version is looked at
      until a look finds it, at most thirty times, and only then is auto-boot set; and `bootx` must find
      everything uploaded, loaded and set. */
  ghost predicate Permitted(p: Progress, e: Event, fw: Firmware, ticket: seq<byte>) {
    && !p.booted
    && (e.ReadComponent? || e.Stitch? || e.Upload? ==> e.required || e.name == "RestoreLogo" || e.name == "RestoreSEP")
    && (e.Upload? ==> e.name in fw.files && Personalised(e.image, fw, ticket, e.name))
    && (e.Command? ==> Fits(e.text, p.last, Listed(fw)))
    && (e.Getenv? ==> p.polls < 30 && !p.found)
    && (e.AutobootOff? ==> 1 <= p.polls <= 30 && (p.found || p.polls == 30))
    && (e.Command? && e.text == "bootx" ==> Complete(p, fw))
  }

  /** Every step may come next where it comes, and none comes after a failure that must not happen. */
  ghost predicate Disciplined(t: seq<Event>, fw: Firmware, ticket: seq<byte>) {
    forall i :: 0 <= i < |t| ==> !Failed(t[..i]) && Permitted(Seen(t[..i]), t[i], fw, ticket)
  }

  lemma FailedSnoc(t: seq<Event>, e: Event)
    ensures Failed(t + [e]) == (Failed(t) || Fatal(e))
  {
    assert (t + [e])[..|t|] == t;
  }

  lemma DisciplinedSnoc(t: seq<Event>, e: Event, fw: Firmware, ticket: seq<byte>)
    requires Disciplined(t, fw, ticket) && !Failed(t) && Permitted(Seen(t), e, fw, ticket)
    ensures Disciplined(t + [e], fw, ticket)
  {
    var t' := t + [e];
    forall i | 0 <= i < |t'| ensures !Failed(t'[..i]) && Permitted(Seen(t'[..i]), t'[i], fw, ticket) {
      if i < |t| {
        assert t'[..i] == t[..i] && t'[i] == t[i];
      } else {
        assert t'[..i] == t;
      }
    }
  }

  /** In an orderly trace a step that must not fail has failed exactly when the last one has. */
  lemma FailureIsLast(t: seq<Event>, fw: Firmware, ticket: seq<byte>)
    requires Disciplined(t, fw, ticket)
    ensures Failed(t) <==> t != [] && Fatal(t[|t| - 1])
    ensures forall i :: 0 <= i < |t| - 1 ==> !Fatal(t[i])
  {
    FailedSomewhere(t);
    forall i | 0 <= i < |t| - 1 ensures !Fatal(t[i]) {
      FailedSomewhere(t[..i + 1]);
      assert t[..i + 1][i] == t[i] && !Failed(t[..i + 1]);
    }
  }

  lemma {:induction false} FailedSomewhere(t: seq<Event>)
    ensures Failed(t) <==> exists i :: 0 <= i < |t| && Fatal(t[i])
  {
    if t != [] {
      var init := t[..|t| - 1];
      FailedSomewhere(init);
      if i :| 0 <= i < |t| && Fatal(t[i]) {
        if i < |init| { assert init[i] == t[i]; }
      }
      if Failed(init) {
        var i :| 0 <= i < |init| && Fatal(init[i]);
        assert Fatal(t[i]);
      }
    }
  }

  /** Looks at the build version in the trace. */
  function Looks(t: seq<Event>): nat {
    if t == [] then 0 else Looks(t[..|t| - 1]) + if t[|t| - 1].Getenv? then 1 else 0
  }

  lemma {:induction false} LooksSeen(t: seq<Event>)
    ensures Seen(t).polls == Looks(t)
    ensures Seen(t).found ==> exists j :: 0 <= j < |t| && t[j] == Getenv(true)
    ensures !Seen(t).found && t != [] && t[|t| - 1].Getenv? ==> !t[|t| - 1].ready
  {
    if t != [] {
      var init := t[..|t| - 1];
      LooksSeen(init);
      ObservedNames(Seen(init), t[|t| - 1]);
      if Seen(init).found {
        var j :| 0 <= j < |init| && init[j] == Getenv(true);
        assert t[j] == Getenv(true);
      }
      if t[|t| - 1] == Getenv(true) {
        assert t[|t| - 1] == Getenv(true);
      }
    }
  }

  /** In an orderly trace auto-boot is set after one to thirty looks at the build version, and after fewer
      than thirty only when a look has found it; and a look that found it is the last. */
  lemma AutobootAfterLooking(t: seq<Event>, fw: Firmware, ticket: seq<byte>, i: nat)
    requires Disciplined(t, fw, ticket) && i < |t|
    ensures t[i].AutobootOff? ==>
      1 <= Looks(t[..i]) <= 30 && (Looks(t[..i]) < 30 ==> exists j :: 0 <= j < i && t[j] == Getenv(true))
    ensures t[i].Getenv? ==> Looks(t[..i]) < 30 && (i > 0 && t[i - 1].Getenv? ==> !t[i - 1].ready)
  {
    assert Permitted(Seen(t[..i]), t[i], fw, ticket);
    LooksSeen(t[..i]);
    if Seen(t[..i]).found {
      var j :| 0 <= j < i && t[..i][j] == Getenv(true);
      assert t[j] == Getenv(true);
    }
    if i > 0 {
      assert t[..i][i - 1] == t[i - 1];
    }
  }

  // ----- what the discipline gives, position by position -----

  predicate UploadOf(e: Event, name: string) {
    e.Upload? && e.name == name && e.ok
  }

  lemma {:induction false} UploadedSomewhere(t: seq<Event>, name: string)
    ensures name in Seen(t).names <==> exists j :: 0 <= j < |t| && UploadOf(t[j], name)
  {
    if t != [] {
      var init, e := t[..|t| - 1], t[|t| - 1];
      UploadedSomewhere(init, name);
      ObservedNames(Seen(init), e);
      if j :| 0 <= j < |t| && UploadOf(t[j], name) {
        if j < |init| { assert init[j] == t[j]; }
      }
      if name in Seen(init).names {
        var j :| 0 <= j < |init| && UploadOf(init[j], name);
        assert UploadOf(t[j], name);
      }
    }
  }

  /** Position j holds a successful upload of the component, and no upload follows it. */
  ghost predicate Latest(t: seq<Event>, j: nat, name: string) {
    j < |t| && UploadOf(t[j], name) && forall k :: j < k < |t| ==> !t[k].Upload?
  }

  lemma {:induction false} LastUploadIs(t: seq<Event>) returns (j: nat)
    requires Seen(t).last.Some?
    ensures Latest(t, j, Seen(t).last.value)
  {
    if t[|t| - 1].Upload? {
      j := |t| - 1;
    } else {
      j := LastUploadIs(t[..|t| - 1]);
      assert t[..|t| - 1][j] == t[j];
      assert forall k :: j < k < |t| - 1 ==> t[k] == t[..|t| - 1][k];
    }
  }

  lemma NothingFollowsBoot(t: seq<Event>, fw: Firmware, ticket: seq<byte>)
    requires Disciplined(t, fw, ticket)
    ensures forall i :: 0 <= i < |t| ==> !Seen(t[..i]).booted
  {
    assert forall i :: 0 <= i < |t| ==> Permitted(Seen(t[..i]), t[i], fw, ticket);
  }

  /** In a disciplined trace, whatever stands before a `bootx` includes the successful upload of
      every listed component, of the ramdisk, the device tree and the kernel cache, each carrying
      that component stitched with the ticket; and `bootx` is the last thing sent. */
  lemma BootxComesLast(t: seq<Event>, fw: Firmware, ticket: seq<byte>, i: nat, name: string)
    requires Disciplined(t, fw, ticket) && i < |t| && t[i].Command? && t[i].text == "bootx"
    requires name in Listed(fw) + ["RestoreRamDisk", "RestoreDeviceTree", "RestoreKernelCache"]
    ensures i == |t| - 1
    ensures exists j :: 0 <= j < i && UploadOf(t[j], name) && name in fw.files && Personalised(t[j].image, fw, ticket, name)
  {
    assert Permitted(Seen(t[..i]), t[i], fw, ticket);
    assert Seen(t[..i + 1]).booted by { assert t[..i + 1] == t[..i] + [t[i]]; SeenSnoc(t[..i], t[i]); }
    NothingFollowsBoot(t, fw, ticket);
    var ibec, logo, sep :| Seen(t[..i]).names == Plan(ibec, logo, sep, Listed(fw));
    assert name in Plan(ibec, logo, sep, Listed(fw));
    UploadedSomewhere(t[..i], name);
    var j :| 0 <= j < i && UploadOf(t[..i][j], name);
    assert t[..i][j] == t[j] && Permitted(Seen(t[..j]), t[j], fw, ticket);
  }

  /** In a disciplined trace, the upload before a load command, with no other upload in between,
      is a successful one of the component the command is about. */
  lemma LoadFollowsItsUpload(t: seq<Event>, fw: Firmware, ticket: seq<byte>, i: nat)
    requires Disciplined(t, fw, ticket) && i < |t| && t[i].Command?
    requires t[i].text in {"go", "setpicture 4", "firmware", "ramdisk", "devicetree", "rsepfirmware"}
    ensures exists j: nat, name :: Latest(t[..i], j, name) && Fits(t[i].text, Some(name), Listed(fw))
  {
    assert Permitted(Seen(t[..i]), t[i], fw, ticket);
    var j := LastUploadIs(t[..i]);
  }
}
