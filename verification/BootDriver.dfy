/** Placing a device into restore mode (`boot_to_restore`, cpp/examples/restore.cpp), against a
    device that may refuse or fail anything at any point. An exception that leaves the driver is
    an `ok` of false. */
module BootDriver {
  import opened Prelude
  import opened RecoveryScan
  import opened BootTrace
  import opened BootCourse

  class Session {
    const fw: Firmware
    const ticket: seq<byte>
    const bus: Bus
    var trace: seq<Event>              // what was asked of the device
    var devref: Option<UsbHandle>      // the open USB device

    constructor (fw: Firmware, ticket: seq<byte>, bus: Bus, devref: Option<UsbHandle>)
      ensures this.fw == fw && this.ticket == ticket && this.bus == bus && this.devref == devref && trace == []
    {
      this.fw, this.ticket, this.bus, this.devref, trace := fw, ticket, bus, devref, [];
    }

    ghost function P(): Progress
      reads this`trace
    {
      Seen(trace)
    }

    /** What has been done to the device. */
    ghost function D(): seq<Deed>
      reads this`trace
    {
      Deeds(trace)
    }

    ghost predicate Orderly()
      reads this`trace
    {
      Stands(true)
    }

    /** All steps so far were in order, the device was not told to boot yet, and none has failed that
        must not (`good`), or the last one has. */
    ghost predicate Stands(good: bool)
      reads this`trace
    {
      Disciplined(trace, fw, ticket) && !P().booted && (Failed(trace) <==> !good)
    }

    /** One step of the driver. It must be in order, and needs the open USB device, unless it is the
        one that looks for it. */
    method Record(e: Event)
      requires (devref.Some? || e.Reconnect?) && Orderly() && Permitted(P(), e, fw, ticket)
      modifies this`trace
      ensures Disciplined(trace, fw, ticket) && P() == Observe(old(P()), e) && (Failed(trace) <==> Fatal(e))
      ensures trace == old(trace) + [e] && D() == old(D()) + DeedOf(e)
    {
      SeenSnoc(trace, e);
      DeedsSnoc(trace, e);
      FailedSnoc(trace, e);
      DisciplinedSnoc(trace, e, fw, ticket);
      trace := trace + [e];
    }

    /** How the device, the archive or the stitching answers: any way it likes. */
    method Answers() returns (ok: bool) {
      ok := *;
    }

    /** send_command: true when the device accepted it. */
    method SendCommand(text: string, request: nat) returns (ok: bool)
      requires devref.Some? && Orderly() && Fits(text, P().last, Listed(fw))
      requires text == "bootx" ==> Complete(P(), fw)
      modifies this`trace
      ensures Disciplined(trace, fw, ticket) && P() == Observe(old(P()), Command(text, request, ok))
      ensures Failed(trace) <==> Fatal(Command(text, request, ok))
      ensures D() == old(D()) + [Told(text, request)]
    {
      ok := Answers();
      Record(Command(text, request, ok));
    }

    /** A command that is not checked. */
    method Tell(text: string, request: nat)
      requires devref.Some? && Orderly() && Fits(text, P().last, Listed(fw))
      requires !IsLoad(text) && text != BOOT_ARGS && text != "bootx"
      modifies this`trace
      ensures Orderly() && P() == old(P()) && D() == old(D()) + [Told(text, request)]
    {
      var _ := SendCommand(text, request);
    }

    /** A command that loads the component just sent; it must be accepted. */
    method Load(command: string) returns (ok: bool)
      requires devref.Some? && Orderly() && IsLoad(command) && Fits(command, P().last, Listed(fw)) && P().last.Some?
      modifies this`trace
      ensures Stands(ok) && D() == old(D()) + [Told(command, 0)]
      ensures P() == old(P()).(loads := old(P()).loads + if ok then [(command, old(P()).last.value)] else [])
    {
      ok := SendCommand(command, 0);
    }

    /** The command to boot. */
    method Boot()
      requires devref.Some? && Orderly() && Complete(P(), fw)
      modifies this`trace
      ensures Disciplined(trace, fw, ticket) && !Failed(trace)
      ensures P() == old(P()).(booted := true) && D() == old(D()) + [Told("bootx", 1)]
    {
      var _ := SendCommand("bootx", 1);
    }

    method Finish()
      requires devref.Some? && Orderly()
      modifies this`trace
      ensures Orderly() && P() == old(P()).(finished := true) && D() == old(D()) + [ClosedUpload]
    {
      var ok := Answers();
      Record(FinishTransfer(ok));
    }

    /** RecoveryDevice::open. */
    method OpenDevice() returns (ok: bool)
      requires devref.Some? && Orderly()
      modifies this`trace
      ensures Stands(ok) && P() == old(P()) && D() == old(D())
    {
      ok := Answers();
      Record(Opened(ok));
    }

    /** The steps a component takes leave everything but the components alone. */
    ghost predicate OnlyComponents(p: Progress, q: Progress) {
      q.loads == p.loads && q.polls == p.polls && q.found == p.found && q.autobootOff == p.autobootOff && q.argsSet == p.argsSet
    }

    /** The component from the archive. */
    method ReadFromArchive(name: string, required: bool) returns (ok: bool)
      requires devref.Some? && Orderly()
      requires required || name == "RestoreLogo" || name == "RestoreSEP"
      modifies this`trace
      ensures Stands(ok || !required) && P() == old(P()).(tried := old(P()).tried + [name]) && D() == old(D())
      ensures ok ==> name in fw.files
    {
      ok := Answers();
      ok := ok && name in fw.files;
      Record(ReadComponent(name, required, ok));
    }

    /** img4_stitch_component. */
    method StitchIt(name: string, required: bool) returns (ok: bool)
      requires devref.Some? && Orderly()
      requires required || name == "RestoreLogo" || name == "RestoreSEP"
      modifies this`trace
      ensures Stands(ok || !required) && P() == old(P()) && D() == old(D())
    {
      ok := Answers();
      Record(Stitch(name, required, ok));
    }

    /** send_buffer. */
    method SendBuffer(name: string, image: Image, required: bool) returns (ok: bool)
      requires devref.Some? && Orderly() && name in fw.files && Personalised(image, fw, ticket, name)
      requires required || name == "RestoreLogo" || name == "RestoreSEP"
      modifies this`trace
      ensures Stands(ok || !required) && D() == old(D()) + if ok then [Sent(name, required)] else []
      ensures P() == old(P()).(names := old(P()).names + (if ok then [name] else []), last := if ok then Some(name) else None, finished := false)
    {
      ok := Answers();
      Record(Upload(name, image, required, ok));
    }

    /** send_component, or send_component_optional when it is not required: read, stitch with the
        ticket, upload. */
    method SendComponent(name: string, required: bool) returns (ok: bool)
      requires devref.Some? && Orderly()
      requires required || name == "RestoreLogo" || name == "RestoreSEP"
      modifies this`trace
      ensures Stands(ok || !required) && OnlyComponents(old(P()), P())
      ensures P().tried == old(P().tried) + [name]
      ensures P().names == old(P().names) + if ok then [name] else []
      ensures ok ==> P().last == Some(name)
      ensures D() == old(D()) + if ok then [Sent(name, required)] else []
    {
      ok := ReadFromArchive(name, required);
      if !ok { return; }
      ok := StitchIt(name, required);
      if !ok { return; }
      ok := SendBuffer(name, Stitched(fw, ticket, name), required);
    }

    /** The USB device is open, or there is none; no other handle has been left open. */
    ghost predicate HandlesKept(others: set<nat>)
      reads this`devref, bus
    {
      && bus.Valid()
      && bus.openHandles == others + (if devref.Some? then {devref.value.h} else {})
      && (devref.Some? ==> devref.value.h !in others)
    }

    /** Upload iBEC and jump to it; the jump is not checked. */
    method JumpToIbec() returns (ok: bool)
      requires devref.Some? && Orderly() && P() == START
      modifies this`trace
      ensures Stands(ok) && OnlyComponents(START, P()) && P().tried == ["iBEC"]
      ensures P().names == if ok then ["iBEC"] else []
      ensures D() == old(D()) + if ok then [Sent("iBEC", true), Told("go", 1), ClosedUpload] else []
    {
      ok := SendComponent("iBEC", true);
      if ok {
        Tell("go", 1);
        Finish();
      }
    }

    /** The device that is open, if one is, is the first qualifying one with this identifier of some list
        the bus gave. */
    ghost predicate Reconnected(ecid: nat)
      reads this`devref
    {
      devref.Some? ==> exists k: nat :: Chosen(DevicesOf(bus.scans(k)), devref.value, true, ecid)
    }

    /** devref.reset() and find_recovery. */
    method FindAgain(ecid: nat, ghost others: set<nat>)
      requires devref.Some? && HandlesKept(others) && bus.ClockAdvances()
      modifies this`devref, bus
      ensures HandlesKept(others) && Reconnected(ecid)
    {
      bus.Close(devref.value.h);
      devref := None;
      devref := bus.FindRecovery(true, ecid, 30);
    }

    /** Whether it was found. */
    method NoteFound()
      requires Orderly()
      modifies this`trace
      ensures Stands(devref.Some?) && P() == old(P())
      ensures D() == old(D()) + if devref.Some? then [FoundAgain] else []
    {
      Record(Reconnect(devref.Some?));
    }

    /** Give the USB device up and find it again. */
    method Rescan(ecid: nat, ghost others: set<nat>) returns (found: bool)
      requires devref.Some? && Orderly() && HandlesKept(others) && bus.ClockAdvances()
      modifies this`trace, this`devref, bus
      ensures HandlesKept(others) && Reconnected(ecid)
      ensures Stands(found) && P() == old(P()) && (found <==> devref.Some?)
      ensures D() == old(D()) + if found then [FoundAgain] else []
    {
      FindAgain(ecid, others);
      NoteFound();
      found := devref.Some?;
    }

    /** From recovery mode: jump to iBEC, wait for the device to come back, open it again. */
    method EnterIbec(ecid: nat, ghost others: set<nat>) returns (ok: bool)
      requires devref.Some? && Orderly() && P() == START
      requires HandlesKept(others) && bus.ClockAdvances()
      modifies this`trace, this`devref, bus
      ensures Stands(ok) && HandlesKept(others) && OnlyComponents(START, P()) && P().tried == ["iBEC"]
      ensures ok ==> devref.Some? && P().names == ["iBEC"]
      ensures P().names == [] || P().names == ["iBEC"]
      ensures Advances(old(D()), D(), IbecPart(), ok)
      ensures ok ==> Reconnected(ecid)
    {
      ok := JumpToIbec();
      ghost var started := D();
      if !ok { return; }
      ok := Rescan(ecid, others);
      ThroughIbec(old(D()), started, D(), ok);
      if !ok { return; }
      ok := OpenDevice();
    }

    /** One look at the build version. */
    method Look() returns (ready: bool)
      requires devref.Some? && Orderly() && P().polls < 30 && !P().found
      modifies this`trace
      ensures Orderly() && P() == old(P()).(polls := old(P()).polls + 1, found := ready) && D() == old(D())
    {
      ready := Answers();
      Record(Getenv(ready));
    }

    /** Poll the build version until it can be read, at most thirty times. */
    method WaitForIbec()
      requires devref.Some? && Orderly() && P().polls == 0 && !P().found
      modifies this`trace
      ensures Orderly() && 1 <= P().polls <= 30 && P() == old(P()).(polls := P().polls, found := P().found)
      ensures P().polls < 30 ==> P().found
      ensures D() == old(D())
    {
      for i := 0 to 30
        invariant Orderly() && P() == old(P()).(polls := i) && D() == old(D())
      {
        var ready := Look();
        if ready {
          break;
        }
      }
    }

    /** Wait until iBEC answers, then switch auto-boot off. */
    method DisableAutoboot() returns (ok: bool)
      requires devref.Some? && Orderly() && P().polls == 0 && !P().found
      modifies this`trace
      ensures Stands(ok) && P() == old(P()).(polls := P().polls, found := P().found, autobootOff := P().autobootOff)
      ensures 1 <= P().polls <= 30 && (P().polls < 30 ==> P().found)
      ensures D() == old(D()) + [SetAutoboot]
      ensures ok ==> P().autobootOff
    {
      WaitForIbec();
      ok := Answers();
      Record(AutobootOff(ok));
    }

    /** The two commands that put the logo on the screen; neither is checked. */
    method ShowPicture()
      requires devref.Some? && Orderly() && P().last == Some("RestoreLogo")
      modifies this`trace
      ensures Orderly() && P() == old(P()) && D() == old(D()) + [Told("setpicture 4", 0), Told("bgcolor 0 0 0", 0)]
    {
      Tell("setpicture 4", 0);
      Tell("bgcolor 0 0 0", 0);
    }

    /** The logo on the screen, if it can be had. */
    method ShowLogo() returns (ghost logo: bool)
      requires devref.Some? && Orderly()
      modifies this`trace
      ensures Orderly() && OnlyComponents(old(P()), P()) && P().tried == old(P().tried) + ["RestoreLogo"]
      ensures P().names == old(P().names) + if logo then ["RestoreLogo"] else []
      ensures D() == old(D()) + If(logo, LogoPart())
    {
      var shown := SendComponent("RestoreLogo", false);
      logo := shown;
      if shown {
        ShowPicture();
        LogoInTwo(old(D()));
      }
    }

    /** A component and the command that loads it; either may fail. */
    method SendAndLoad(name: string, command: string) returns (ok: bool)
      requires devref.Some? && Orderly() && IsLoad(command) && Fits(command, Some(name), Listed(fw))
      modifies this`trace
      ensures Stands(ok) && P().autobootOff == old(P().autobootOff) && P().argsSet == old(P().argsSet)
      ensures P().tried == old(P().tried) + [name]
      ensures P().names == old(P().names) || P().names == old(P().names) + [name]
      ensures ok ==> P().names == old(P().names) + [name] && P().loads == old(P().loads) + [(command, name)]
      ensures Advances(old(D()), D(), [Sent(name, true), Told(command, 0)], ok)
    {
      var sent := SendComponent(name, true);
      if !sent {
        return false;
      }
      ok := Load(command);
    }

    /** The first `i` listed components have been sent and loaded. */
    ghost predicate ListedUpTo(i: nat, ibec: bool, logo: bool)
      requires i <= |Listed(fw)|
      reads this`trace
    {
      && P().names == Head(ibec, logo) + Listed(fw)[..i]
      && P().tried == Head(ibec, true) + Listed(fw)[..i]
      && P().loads == FirmwareLoads(Listed(fw))[..i]
    }

    method LoadOne(i: nat, ghost ibec: bool, ghost logo: bool, ghost done: seq<Deed>) returns (ok: bool)
      requires devref.Some? && Orderly() && i < |Listed(fw)| && ListedUpTo(i, ibec, logo)
      requires D() == done + ListedPart(Listed(fw)[..i])
      modifies this`trace
      ensures Stands(ok) && P().autobootOff == old(P().autobootOff) && Begins(P().names, Listed(fw))
      ensures ok ==> ListedUpTo(i + 1, ibec, logo) && D() == done + ListedPart(Listed(fw)[..i + 1])
      ensures !ok ==> Advances(done, D(), ListedPart(Listed(fw)), false)
    {
      OneMoreListed(ibec, logo, Listed(fw), i);
      OneMoreListed(ibec, true, Listed(fw), i);
      ok := SendAndLoad(Listed(fw)[i], "firmware");
      OneMoreLoaded(Listed(fw), i, done, old(D()), D(), ok);
    }

    /** The components iBoot loads, each followed by its firmware command. */
    method LoadListed(ghost ibec: bool, ghost logo: bool) returns (ok: bool)
      requires devref.Some? && Orderly()
      requires P().names == Head(ibec, logo) && P().loads == [] && P().tried == Head(ibec, true)
      modifies this`trace
      ensures Stands(ok) && P().autobootOff == old(P().autobootOff) && Begins(P().names, Listed(fw))
      ensures ok ==> ListedUpTo(|Listed(fw)|, ibec, logo)
      ensures Advances(old(D()), D(), ListedPart(Listed(fw)), ok)
    {
      PlanGrows(ibec, logo, Listed(fw), 0);
      assert Head(ibec, logo) + Listed(fw)[..0] == Head(ibec, logo);
      ok := FetchList();
      if !ok { return; }
      assert ListedUpTo(0, ibec, logo);
      for i := 0 to |fw.listed.value|
        invariant Orderly() && P().autobootOff == old(P().autobootOff)
        invariant ListedUpTo(i, ibec, logo) && Begins(P().names, Listed(fw))
        invariant D() == old(D()) + ListedPart(Listed(fw)[..i])
      {
        ok := LoadOne(i, ibec, logo, old(D()));
        if !ok { return; }
      }
      assert Listed(fw)[..|Listed(fw)|] == Listed(fw);
      ok := true;
    }

    /** boot_component_names. */
    method FetchList() returns (ok: bool)
      requires devref.Some? && Orderly()
      modifies this`trace
      ensures Stands(ok) && P() == old(P()) && D() == old(D()) && (ok <==> fw.listed.Some?)
    {
      ok := fw.listed.Some?;
      Record(ListComponents(ok));
    }

    /** Ramdisk and device tree, each loaded before the next is sent. */
    method LoadRamdiskAndTree(ghost head: seq<string>, ghost tried: seq<string>) returns (ok: bool)
      requires devref.Some? && Orderly() && P().names == head && P().tried == tried
      modifies this`trace
      ensures Stands(ok) && P().autobootOff == old(P().autobootOff)
      ensures || P().names == head || P().names == head + ["RestoreRamDisk"]
              || P().names == head + ["RestoreRamDisk", "RestoreDeviceTree"]
      ensures ok ==> P().names == head + ["RestoreRamDisk", "RestoreDeviceTree"]
      ensures ok ==> P().tried == tried + ["RestoreRamDisk", "RestoreDeviceTree"]
      ensures ok ==> P().loads == old(P().loads) + [("ramdisk", "RestoreRamDisk"), ("devicetree", "RestoreDeviceTree")]
      ensures Advances(old(D()), D(), RamdiskPart() + TreePart(), ok)
    {
      ok := SendAndLoad("RestoreRamDisk", "ramdisk");
      ghost var d1 := D();
      if !ok {
        StopsAdvancing(old(D()), d1, RamdiskPart(), TreePart());
        return;
      }
      assert head + ["RestoreRamDisk"] + ["RestoreDeviceTree"] == head + ["RestoreRamDisk", "RestoreDeviceTree"];
      assert tried + ["RestoreRamDisk"] + ["RestoreDeviceTree"] == tried + ["RestoreRamDisk", "RestoreDeviceTree"];
      ok := SendAndLoad("RestoreDeviceTree", "devicetree");
      ThenAdvances(old(D()), d1, D(), RamdiskPart(), TreePart(), ok);
    }

    /** The SEP image, when there is one and it can be had. */
    method LoadSep() returns (ghost sep: bool)
      requires devref.Some? && Orderly()
      modifies this`trace
      ensures Orderly() && OnlyComponents(old(P()), P())
      ensures P().names == old(P().names) + if sep then ["RestoreSEP"] else []
      ensures P().tried == old(P().tried) + if fw.hasSep then ["RestoreSEP"] else []
      ensures D() == old(D()) + If(sep, SepPart())
    {
      sep := false;
      if fw.hasSep {
        var sent := SendComponent("RestoreSEP", false);
        sep := sent;
        if sent {
          Tell("rsepfirmware", 0);
        }
      }
    }

    /** Close the last upload and set the boot arguments. */
    method SetBootArgs() returns (ok: bool)
      requires devref.Some? && Orderly()
      modifies this`trace
      ensures Stands(ok) && P() == old(P()).(finished := true, argsSet := ok || old(P()).argsSet)
      ensures D() == old(D()) + [ClosedUpload, Told(BOOT_ARGS, 0)]
    {
      Finish();
      ok := SendCommand(BOOT_ARGS, 0);
    }

    /** The kernel cache, closed, and the boot arguments. */
    method SendKernel() returns (ok: bool)
      requires devref.Some? && Orderly()
      modifies this`trace
      ensures Stands(ok) && P().autobootOff == old(P().autobootOff) && P().loads == old(P().loads)
      ensures P().tried == old(P().tried) + ["RestoreKernelCache"]
      ensures P().names == old(P().names) || P().names == old(P().names) + ["RestoreKernelCache"]
      ensures ok ==> P().names == old(P().names) + ["RestoreKernelCache"] && P().finished && P().argsSet
      ensures Advances(old(D()), D(), [Sent("RestoreKernelCache", true), ClosedUpload, Told(BOOT_ARGS, 0)], ok)
    {
      ok := SendComponent("RestoreKernelCache", true);
      if !ok { return; }
      ok := SetBootArgs();
      assert old(D()) + [Sent("RestoreKernelCache", true)] + [ClosedUpload, Told(BOOT_ARGS, 0)]
          == old(D()) + [Sent("RestoreKernelCache", true), ClosedUpload, Told(BOOT_ARGS, 0)];
    }

    /** The kernel cache, the boot arguments, and the command to boot. */
    method BootKernel(ghost ibec: bool, ghost logo: bool, ghost sep: bool) returns (ok: bool)
      requires devref.Some? && Orderly() && P().autobootOff
      requires P().names + ["RestoreKernelCache"] == Plan(ibec, logo, sep, Listed(fw))
      requires P().tried + ["RestoreKernelCache"] == Plan(ibec, true, fw.hasSep, Listed(fw))
      requires P().loads == FirmwareLoads(Listed(fw)) + [("ramdisk", "RestoreRamDisk"), ("devicetree", "RestoreDeviceTree")]
      modifies this`trace
      ensures Disciplined(trace, fw, ticket) && (P().booted <==> ok) && (Failed(trace) <==> !ok)
      ensures P().names <= Plan(ibec, logo, sep, Listed(fw))
      ensures ok ==> Complete(P(), fw) && P().names == Plan(ibec, logo, sep, Listed(fw))
      ensures Advances(old(D()), D(), KernelPart(), ok)
      ensures ok ==> P().tried == Plan(ibec, true, fw.hasSep, Listed(fw))
    {
      ok := SendKernel();
      KernelInTwo(old(D()), D(), ok);
      if !ok { return; }
      assert Complete(P(), fw);
      Boot();
    }

    /** Everything from the listed components to the command to boot. */
    method LoadAndBoot(ghost ibec: bool, ghost logo: bool) returns (ok: bool, ghost sep: bool)
      requires devref.Some? && Orderly() && P().autobootOff
      requires P().names == Head(ibec, logo) && P().loads == [] && P().tried == Head(ibec, true)
      modifies this`trace
      ensures Disciplined(trace, fw, ticket) && (P().booted <==> ok) && (Failed(trace) <==> !ok)
      ensures Begins(P().names, Listed(fw))
      ensures ok ==> P().names == Plan(ibec, logo, sep, Listed(fw)) && P().tried == Plan(ibec, true, fw.hasSep, Listed(fw))
      ensures Advances(old(D()), D(), ListedPart(Listed(fw)) + Closing(sep), ok)
    {
      ghost var listed := Listed(fw);
      ghost var head, tried := Head(ibec, logo) + listed, Head(ibec, true) + listed;
      sep := false;
      ok := LoadListed(ibec, logo);
      ghost var d1 := D();
      if !ok {
        StopsAdvancing(old(D()), d1, ListedPart(listed), Closing(sep));
        return;
      }
      PlanGrows(ibec, logo, listed, |listed|);
      assert listed[..|listed|] == listed && FirmwareLoads(listed)[..|listed|] == FirmwareLoads(listed);
      ok, sep := LoadRest(ibec, logo, head, tried);
      ThenAdvances(old(D()), d1, D(), ListedPart(listed), Closing(sep), ok);
    }

    /** Ramdisk, device tree, SEP image and kernel. */
    method LoadRest(ghost ibec: bool, ghost logo: bool, ghost head: seq<string>, ghost tried: seq<string>)
      returns (ok: bool, ghost sep: bool)
      requires devref.Some? && Orderly() && P().autobootOff
      requires head == Head(ibec, logo) + Listed(fw) && tried == Head(ibec, true) + Listed(fw)
      requires P().names == head && P().tried == tried && P().loads == FirmwareLoads(Listed(fw))
      modifies this`trace
      ensures Disciplined(trace, fw, ticket) && (P().booted <==> ok) && (Failed(trace) <==> !ok)
      ensures Begins(P().names, Listed(fw))
      ensures ok ==> P().names == Plan(ibec, logo, sep, Listed(fw)) && P().tried == Plan(ibec, true, fw.hasSep, Listed(fw))
      ensures Advances(old(D()), D(), Closing(sep), ok)
    {
      sep := false;
      PlanGrows(ibec, logo, Listed(fw), |Listed(fw)|);
      assert Listed(fw)[..|Listed(fw)|] == Listed(fw);
      ok := LoadRamdiskAndTree(head, tried);
      ghost var d1 := D();
      if !ok {
        ClosingStops(old(D()), d1, sep);
        return;
      }
      sep := LoadSep();
      assert P().names + ["RestoreKernelCache"] == Plan(ibec, logo, sep, Listed(fw));
      assert P().tried + ["RestoreKernelCache"] == Plan(ibec, true, fw.hasSep, Listed(fw));
      ghost var d2 := D();
      ok := BootKernel(ibec, logo, sep);
      ClosingDone(old(D()), d1, d2, D(), sep, ok);
    }

    /** Open the device and, when it is in recovery mode, go through iBEC. */
    method Reach(ecid: nat, ghost others: set<nat>) returns (ok: bool)
      requires devref.Some? && trace == [] && HandlesKept(others) && bus.ClockAdvances()
      modifies this`trace, this`devref, bus
      ensures Stands(ok) && HandlesKept(others) && OnlyComponents(START, P())
      ensures ok ==> devref.Some?
      ensures var recovery := IsRecoveryMode(old(devref.value.pid));
        && Advances([], D(), If(recovery, IbecPart()), ok)
        && (ok ==> P().names == Head(recovery, false) && P().tried == Head(recovery, false))
        && (ok && recovery ==> Reconnected(ecid))
      ensures P().names == Head(false, false) || P().names == Head(true, false)
    {
      ok := OpenDevice();
      if ok && IsRecoveryMode(devref.value.pid) {
        ok := EnterIbec(ecid, others);
      }
    }

    /** Set auto-boot and show the logo. */
    method GetReady(ghost recovery: bool) returns (ok: bool, ghost logo: bool)
      requires devref.Some? && Orderly() && OnlyComponents(START, P()) && D() == If(recovery, IbecPart())
      requires P().names == Head(recovery, false) && P().tried == Head(recovery, false)
      modifies this`trace
      ensures Stands(ok)
      ensures !ok ==> D() == If(recovery, IbecPart()) + [SetAutoboot] && P().names == Head(recovery, false)
      ensures ok ==> D() == Opening(recovery, logo) && P().names == Head(recovery, logo) && P().tried == Head(recovery, true)
      ensures ok ==> P().autobootOff && P().loads == []
    {
      logo := false;
      ok := DisableAutoboot();
      if !ok { return; }
      logo := ShowLogo();
    }

    /** boot_to_restore. Whatever fails, and wherever: every step taken was in order; what was done to
        the device is a beginning of the course of a boot through iBEC, if it started in recovery mode, or
        of one without; the driver ends normally exactly when no step has failed that must not, and then
        the course is complete and the device was told to boot; and the only USB handle left open is the
        one the caller gets back, behind which, after iBEC, is the device with the right identifier. */
    method BootToRestore(ecid: nat, ghost others: set<nat>) returns (ok: bool, ghost logo: bool, ghost sep: bool)
      requires devref.Some? && trace == [] && HandlesKept(others) && bus.ClockAdvances()
      modifies this`trace, this`devref, bus
      ensures Disciplined(trace, fw, ticket)
      ensures Begins(P().names, Listed(fw))
      ensures P().booted <==> ok
      ensures ok <==> !Failed(trace)
      ensures var recovery := 0x1280 <= old(devref.value.pid) <= 0x1283;
        && Advances([], D(), Course(recovery, logo, sep, Listed(fw)), ok)
        && (ok ==> P().names == Plan(recovery, logo, sep, Listed(fw)) && P().tried == Plan(recovery, true, fw.hasSep, Listed(fw)))
        && (ok && recovery ==> Reconnected(ecid))
      ensures ok ==> devref.Some?
      ensures HandlesKept(others)
    {
      HeadBegins(true, false, Listed(fw));
      HeadBegins(false, false, Listed(fw));
      logo, sep := false, false;
      var recovery := IsRecoveryMode(devref.value.pid);
      ok := Reach(ecid, others);
      if !ok {
        CourseStops(D(), recovery, 0, Listed(fw));
        return;
      }
      ok, logo := GetReady(recovery);
      if !ok {
        logo := false;
        CourseStops(D(), recovery, 1, Listed(fw));
        return;
      }
      ghost var begun := D();
      ok, sep := LoadAndBoot(recovery, logo);
      CourseDone(begun, D(), recovery, logo, sep, Listed(fw), ok);
    }
  }
}
