/** Scanning USB for an Apple device in recovery or DFU mode (cpp/examples/restore.cpp). */
module RecoveryScan {
  import opened Prelude
  import opened Ecid

  const APPLE_VID := 0x05AC

  predicate IsRecoveryPid(pid: nat) {
    0x1280 <= pid <= 0x1283 || pid == 0x1222 || pid == 0x1227
  }

  /** Recovery (iBoot), not DFU or WTF. */
  predicate IsRecoveryMode(pid: nat) {
    0x1280 <= pid <= 0x1283
  }

  /** What the bus answers about one listed device. A serial string that cannot be read is `None`. */
  datatype Device = Device(readable: bool, vendor: nat, pid: nat, opens: bool, serial: Option<string>)

  /** One device list; the call that fetches it may fail, and then there is no list to free. */
  datatype Scan = NoList | List(devices: seq<Device>)

  /** An opened device. */
  datatype UsbHandle = UsbHandle(h: nat, pid: nat, serial: string)

  function SerialOf(d: Device): string {
    match d.serial case Some(s) => s case None => ""
  }

  /** A device that can be opened, is an Apple recovery or DFU device and, when that is asked for,
      has the given identifier. */
  predicate Qualifies(d: Device, matchEcid: bool, ecid: nat) {
    && d.readable && d.vendor == APPLE_VID && IsRecoveryPid(d.pid) && d.opens
    && (matchEcid ==> EcidFromSerial(SerialOf(d)) == ecid)
  }

  function DevicesOf(s: Scan): seq<Device> {
    match s case NoList => [] case List(ds) => ds
  }

  predicate NoneQualifies(ds: seq<Device>, matchEcid: bool, ecid: nat) {
    forall i :: 0 <= i < |ds| ==> !Qualifies(ds[i], matchEcid, ecid)
  }

  ghost predicate FirstQualifying(ds: seq<Device>, i: nat, matchEcid: bool, ecid: nat) {
    i < |ds| && Qualifies(ds[i], matchEcid, ecid) && NoneQualifies(ds[..i], matchEcid, ecid)
  }

  /** The device behind this handle is the first of the list that qualifies. */
  ghost predicate Chosen(ds: seq<Device>, u: UsbHandle, matchEcid: bool, ecid: nat) {
    exists i: nat ::
      FirstQualifying(ds, i, matchEcid, ecid) && u.pid == ds[i].pid && u.serial == SerialOf(ds[i])
  }

  /** What is known of the device behind the handle: it is an Apple device in recovery, DFU or WTF mode that
      could be read and opened, with the identifier that was asked for, and no device listed before it
      was that. */
  lemma ChosenIsTheDevice(ds: seq<Device>, u: UsbHandle, matchEcid: bool, ecid: nat) returns (i: nat)
    requires Chosen(ds, u, matchEcid, ecid)
    ensures i < |ds| && ds[i].readable && ds[i].opens && ds[i].vendor == 0x05AC && u.pid == ds[i].pid
    ensures u.pid in {0x1280, 0x1281, 0x1282, 0x1283, 0x1222, 0x1227}
    ensures matchEcid ==> EcidFromSerial(u.serial) == ecid
    ensures ds[i].serial.Some? ==> u.serial == ds[i].serial.value
    ensures forall j :: 0 <= j < i ==>
      (ds[j].readable && ds[j].opens && ds[j].vendor == 0x05AC &&
       ds[j].pid in {0x1280, 0x1281, 0x1282, 0x1283, 0x1222, 0x1227} ==>
         matchEcid && EcidFromSerial(if ds[j].serial.Some? then ds[j].serial.value else "") != ecid)
  {
    i :| FirstQualifying(ds, i, matchEcid, ecid) && u.pid == ds[i].pid && u.serial == SerialOf(ds[i]);
    assert forall j :: 0 <= j < i ==> ds[..i][j] == ds[j];
  }

  /** The bus, with the clock beside it: `scans(k)` is what the k-th request for a list will find,
      `clock(k)` what the k-th look at the clock will show. */
  class Bus {
    const scans: nat -> Scan
    const clock: nat -> nat
    var scanned: nat
    var looked: nat
    var nextHandle: nat
    var openHandles: set<nat>
    var lists: set<nat>          // fetched and not yet freed

    constructor (scans: nat -> Scan, clock: nat -> nat)
      ensures this.scans == scans && this.clock == clock
      ensures scanned == 0 && looked == 0 && openHandles == {} && lists == {} && Valid()
    {
      this.scans, this.clock := scans, clock;
      scanned, looked, nextHandle, openHandles, lists := 0, 0, 0, {}, {};
    }

    ghost predicate Valid()
      reads this
    {
      (forall h :: h in openHandles ==> h < nextHandle) && (forall l :: l in lists ==> l < scanned)
    }

    /** The steady clock never goes back and passes every point in time. */
    ghost predicate ClockAdvances() {
      && (forall j: nat, k: nat :: j <= k ==> clock(j) <= clock(k))
      && (forall t: nat :: Passes(t))
    }

    ghost predicate Passes(t: nat) {
      exists k: nat :: clock(k) >= t
    }

    method Now() returns (t: nat)
      modifies this`looked
      ensures t == clock(old(looked)) && looked == old(looked) + 1
    {
      t := clock(looked);
      looked := looked + 1;
    }

    /** libusb_get_device_list. The list is known by its number. */
    method GetDeviceList() returns (list: nat, scan: Scan)
      requires Valid()
      modifies this`scanned, this`lists
      ensures list == old(scanned) && scan == scans(list) && scanned == list + 1
      ensures lists == old(lists) + (if scan.List? then {list} else {}) && list !in old(lists)
      ensures Valid()
    {
      list := scanned;
      scan := scans(list);
      scanned := scanned + 1;
      if scan.List? {
        lists := lists + {list};
      }
    }

    /** libusb_free_device_list: a list that never came about is ignored, any other must not have
        been freed before. */
    method FreeDeviceList(list: nat, scan: Scan)
      requires scan.List? ==> list in lists
      modifies this`lists
      ensures lists == old(lists) - (if scan.List? then {list} else {})
    {
      if scan.List? {
        lists := lists - {list};
      }
    }

    method Open(d: Device) returns (h: Option<nat>)
      requires Valid()
      modifies this`openHandles, this`nextHandle
      ensures h.Some? <==> d.opens
      ensures h.Some? ==> h.value !in old(openHandles) && openHandles == old(openHandles) + {h.value}
      ensures h.None? ==> openHandles == old(openHandles)
      ensures Valid()
    {
      if !d.opens {
        return None;
      }
      h := Some(nextHandle);
      openHandles := openHandles + {nextHandle};
      nextHandle := nextHandle + 1;
    }

    /** libusb_close: only an open handle can be closed. */
    method Close(h: nat)
      requires h in openHandles && Valid()
      modifies this`openHandles
      ensures openHandles == old(openHandles) - {h} && Valid()
    {
      openHandles := openHandles - {h};
    }

    /** One pass over a device list: opens the first device that qualifies and no other. Handles
        opened only to read a serial string are closed again. */
    method Examine(devices: seq<Device>, matchEcid: bool, ecid: nat) returns (found: Option<UsbHandle>)
      requires Valid()
      modifies this`openHandles, this`nextHandle
      ensures Valid()
      ensures found.None? ==> NoneQualifies(devices, matchEcid, ecid) && openHandles == old(openHandles)
      ensures found.Some? ==> found.value.h !in old(openHandles) && openHandles == old(openHandles) + {found.value.h}
      ensures found.Some? ==> Chosen(devices, found.value, matchEcid, ecid)
    {
      for i := 0 to |devices|
        invariant Valid() && openHandles == old(openHandles)
        invariant NoneQualifies(devices[..i], matchEcid, ecid)
      {
        assert devices[..i + 1] == devices[..i] + [devices[i]];
        var d := devices[i];
        if !d.readable {
          continue;
        }
        if d.vendor != APPLE_VID || !IsRecoveryPid(d.pid) {
          continue;
        }
        var h := Open(d);
        if h.None? {
          continue;
        }
        var serial := SerialOf(d);
        if matchEcid && EcidFromSerial(serial) != ecid {
          Close(h.value);
          continue;
        }
        assert FirstQualifying(devices, i, matchEcid, ecid);
        return Some(UsbHandle(h.value, d.pid, serial));
      }
      assert devices[..|devices|] == devices;
      found := None;
    }

    /** Fetch a list, examine it, free it. */
    method ScanOnce(matchEcid: bool, ecid: nat) returns (dev: Option<UsbHandle>)
      requires Valid()
      modifies this`scanned, this`lists, this`openHandles, this`nextHandle
      ensures Valid() && lists == old(lists) && scanned == old(scanned) + 1
      ensures dev.None? ==> NoneQualifies(DevicesOf(scans(old(scanned))), matchEcid, ecid) && openHandles == old(openHandles)
      ensures dev.Some? ==> dev.value.h !in old(openHandles) && openHandles == old(openHandles) + {dev.value.h}
      ensures dev.Some? ==> Chosen(DevicesOf(scans(old(scanned))), dev.value, matchEcid, ecid)
    {
      var list, scan := GetDeviceList();
      dev := Examine(DevicesOf(scan), matchEcid, ecid);
      FreeDeviceList(list, scan);
    }

    /** A look at the clock. Before the deadline it is one of the looks before `last`. */
    method TimeIsUp(deadline: nat, ghost last: nat) returns (over: bool)
      requires ClockAdvances() && clock(last) >= deadline
      modifies this`looked
      ensures looked == old(looked) + 1
      ensures if over then clock(looked - 1) >= deadline else looked - 1 < last
    {
      var now := Now();
      over := now >= deadline;
    }

    /** No list from `first` on, up to `last`, has a device that qualifies. */
    ghost predicate NoneIn(first: nat, last: nat, matchEcid: bool, ecid: nat) {
      forall k: nat :: first <= k < last ==> NoneQualifies(DevicesOf(scans(k)), matchEcid, ecid)
    }

    /** find_recovery: every list that was fetched is freed, whatever the scan comes to. A device
        is the first qualifying one of the last list, none of the earlier lists having any; with
        no device, no list had one, and the deadline has passed. */
    method FindRecovery(matchEcid: bool, ecid: nat, timeout: nat) returns (dev: Option<UsbHandle>)
      requires Valid() && ClockAdvances()
      modifies this
      ensures Valid() && lists == old(lists) && scanned > old(scanned)
      ensures looked > old(looked)
      ensures dev.None? ==> openHandles == old(openHandles) && clock(looked - 1) >= clock(old(looked)) + timeout
      ensures dev.Some? ==> dev.value.h !in old(openHandles) && openHandles == old(openHandles) + {dev.value.h}
      ensures NoneIn(old(scanned), if dev.Some? then scanned - 1 else scanned, matchEcid, ecid)
      ensures dev.Some? ==> Chosen(DevicesOf(scans(scanned - 1)), dev.value, matchEcid, ecid)
    {
      var start := Now();
      var deadline := start + timeout;
      assert Passes(deadline);
      ghost var last: nat :| clock(last) >= deadline;
      while true
        invariant Valid() && lists == old(lists) && openHandles == old(openHandles)
        invariant scanned >= old(scanned) && looked > old(looked) && deadline == clock(old(looked)) + timeout
        invariant NoneIn(old(scanned), scanned, matchEcid, ecid)
        decreases if looked <= last then last - looked + 1 else 0
      {
        dev := ScanOnce(matchEcid, ecid);
        if dev.Some? {
          return;
        }
        var over := TimeIsUp(deadline, last);
        if over {
          return;
        }
      }
    }
  }
}
