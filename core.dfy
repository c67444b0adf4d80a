/** The state libusb keeps between calls — the device registry usb_devs
    and the open-handle registry open_devs — and the operations that change
    or read it: discovery (scan_device, scan_busdir, libusb_find_devices),
    iteration (libusb_get_devices, libusb_dev_next), the handle lifecycle
    (libusb_open, do_close, libusb_close, libusb_exit) and the poll
    snapshot (libusb_get_pollfds). */
module Core {
  import opened UsbTypes
  import opened Fetch
  import opened Scanner

  /** A discovered device (struct libusb_dev). Its fields are set once,
      before it is linked into the registry. */
  class Device {
    const desc: DeviceDescriptor
    const configs: seq<ConfigDescriptor>
    const nodePath: string

    constructor (desc: DeviceDescriptor, configs: seq<ConfigDescriptor>, nodePath: string)
      ensures this.desc == desc && this.configs == configs && this.nodePath == nodePath
    {
      this.desc := desc;
      this.configs := configs;
      this.nodePath := nodePath;
    }
  }

  /** An open device (struct libusb_dev_handle). */
  class Handle {
    const fd: int
    const dev: Device

    constructor (fd: int, dev: Device)
      ensures this.fd == fd && this.dev == dev
    {
      this.fd := fd;
      this.dev := dev;
    }
  }

  /** What a registered device records. */
  function Info(d: Device): DeviceInfo
  {
    DeviceInfo(d.desc, d.configs, d.nodePath)
  }

  function Infos(ds: seq<Device>): (r: seq<DeviceInfo>)
    ensures |r| == |ds|
    ensures forall k :: 0 <= k < |ds| ==> r[k] == Info(ds[k])
  {
    if ds == [] then [] else [Info(ds[0])] + Infos(ds[1..])
  }

  predicate Distinct<T(==)>(s: seq<T>)
  {
    forall i, j :: 0 <= i < j < |s| ==> s[i] != s[j]
  }

  /** s is t with zero or more entries put in front of it, one at a time. */
  predicate EndsWith<T(==)>(s: seq<T>, t: seq<T>)
    decreases |s|
  {
    if |s| <= |t| then s == t else EndsWith(s[1..], t)
  }

  /** The same relation read as a slice: what s ends with is exactly t. */
  lemma {:induction false} EndsWithSlice<T>(s: seq<T>, t: seq<T>)
    ensures EndsWith(s, t) <==> |s| >= |t| && s[|s| - |t|..] == t
    decreases |s|
  {
    if |s| > |t| {
      EndsWithSlice(s[1..], t);
      assert s[1..][|s| - 1 - |t|..] == s[|s| - |t|..];
    }
  }

  lemma EndsWithTrans<T>(a: seq<T>, b: seq<T>, c: seq<T>)
    requires EndsWith(a, b) && EndsWith(b, c)
    ensures EndsWith(a, c)
  {
    EndsWithSlice(a, b);
    EndsWithSlice(b, c);
    EndsWithSlice(a, c);
    assert a[|a| - |c|..] == a[|a| - |b|..][|b| - |c|..];
  }

  /** One turn of a readdir loop that skips hidden entries: the registry
      keeps what it had and grows by the entry's devices at its head, while
      the attempted paths and the system calls grow at their end. */
  lemma WalkStep(names: seq<string>, i: nat, found: string -> seq<DeviceInfo>,
                 paths: string -> seq<string>, calls: string -> seq<Syscall>,
                 d0: seq<Device>, d1: seq<Device>, d2: seq<Device>,
                 a0: seq<string>, a1: seq<string>, a2: seq<string>,
                 t0: seq<Syscall>, t1: seq<Syscall>, t2: seq<Syscall>)
    requires i < |names|
    requires EndsWith(d1, d0) && Infos(d1) == Newest(names[..i], found) + Infos(d0)
    requires a1 == a0 + InOrder(names[..i], paths) && t1 == t0 + InOrder(names[..i], calls)
    requires EndsWith(d2, d1) && Infos(d2) == Visit(names[i], found) + Infos(d1)
    requires a2 == a1 + Visit(names[i], paths) && t2 == t1 + Visit(names[i], calls)
    ensures EndsWith(d2, d0) && Infos(d2) == Newest(names[..i + 1], found) + Infos(d0)
    ensures a2 == a0 + InOrder(names[..i + 1], paths) && t2 == t0 + InOrder(names[..i + 1], calls)
  {
    EndsWithTrans(d2, d1, d0);
    NewestStep(names, i, found, Infos(d0));
    InOrderStep(names, i, paths, a0);
    InOrderStep(names, i, calls, t0);
  }

  /** Position of x in s. */
  function IndexOf<T(==)>(s: seq<T>, x: T): (i: nat)
    requires x in s
    ensures i < |s| && s[i] == x
    ensures forall k :: 0 <= k < i ==> s[k] != x
  {
    if s[0] == x then 0 else 1 + IndexOf(s[1..], x)
  }

  /** list_del: s without the element x. */
  function Without<T(==)>(s: seq<T>, x: T): (w: seq<T>)
    requires x in s
    ensures multiset(w) == multiset(s) - multiset{x}
  {
    var i := IndexOf(s, x);
    assert s == s[..i] + [x] + s[i + 1..];
    s[..i] + s[i + 1..]
  }

  /** The poll entries registered for a list of open handles. */
  function PollSetOf(hs: seq<Handle>): set<PollFd>
  {
    set h | h in hs :: PollFd(h.fd, POLLOUT)
  }

  /** usbi_remove_pollfd(fd): the poll set without fd's entries. */
  function WithoutFd(ps: set<PollFd>, fd: int): set<PollFd>
  {
    set p | p in ps && p.fd != fd
  }

  /** What do_close issues for each handle of hs, in order. */
  function CloseTrace(hs: seq<Handle>): seq<Syscall>
  {
    if hs == [] then [] else CloseTrace(hs[..|hs| - 1]) + [RemovePollFd(hs[|hs| - 1].fd), CloseFd(hs[|hs| - 1].fd)]
  }

  /** No two open handles share a descriptor, and none is negative. */
  predicate FdsValid(hs: seq<Handle>)
  {
    && (forall k :: 0 <= k < |hs| ==> hs[k].fd >= 0)
    && (forall i, j :: 0 <= i < j < |hs| ==> hs[i].fd != hs[j].fd)
  }

  /** The library's global state between libusb_init and libusb_exit. */
  class Context {
    /** usb_devs, from its first entry: the newest device comes first. */
    var devices: seq<Device>
    /** open_devs, from its first entry: the newest handle comes first. */
    var openHandles: seq<Handle>
    /** The descriptors the I/O layer polls, with their events. */
    ghost var pollSet: set<PollFd>
    /** Every system call issued on a device-node descriptor and every poll
        registration change, in order. */
    ghost var trace: seq<Syscall>
    /** Every device-node path scan_device has tried, in order. */
    ghost var attempted: seq<string>

    ghost predicate Valid()
      reads this
    {
      && Distinct(devices)
      && FdsValid(openHandles)
      && pollSet == PollSetOf(openHandles)
    }

    /** libusb_init: both registries empty, nothing polled. */
    constructor ()
      ensures Valid()
      ensures devices == [] && openHandles == []
      ensures pollSet == {} && trace == [] && attempted == []
    {
      devices := [];
      openHandles := [];
      pollSet := {};
      trace := [];
      attempted := [];
    }

    /** scan_device: opens busdir/devnum, fetches its descriptors and puts
        the device at the head of the registry only if every step
        succeeded. The descriptor is closed whenever it was opened. */
    method ScanDevice(busdir: string, devnum: string, fs: UsbFs) returns (r: int)
      requires Valid()
      modifies this
      ensures Valid()
      ensures Infos(devices) == ScanOutcome(fs, busdir, devnum) + Infos(old(devices))
      ensures r == 0 <==> ScanOutcome(fs, busdir, devnum) != []
      ensures r == 0 || r == -1
      ensures r == 0 ==> fresh(devices[0]) && devices[1..] == old(devices)
      ensures r != 0 ==> devices == old(devices)
      ensures openHandles == old(openHandles) && pollSet == old(pollSet)
      ensures trace == old(trace) + ScanTrace(fs, JoinPath(busdir, devnum))
      ensures attempted == old(attempted) + [JoinPath(busdir, devnum)]
    {
      var path := JoinPath(busdir, devnum);
      attempted := attempted + [path];
      var entry := OpenNode(fs, path);
      var fd, node := entry.0, entry.1;
      if fd < 0 {
        ScanNotOpened(fs, busdir, devnum);
        return -1;
      }
      var f := FetchDescriptors(node);
      ScanOpened(fs, busdir, devnum, fd, node, f);
      if f.Fetched? {
        AddDevice(f.desc, f.configs, path);
        r := 0;
      } else {
        r := -1;
      }
      trace := trace + (ReadTrace(fd, f.requests) + [CloseFd(fd)]);
    }

    /** list_add of a new device at the head of usb_devs. */
    method AddDevice(desc: DeviceDescriptor, configs: seq<ConfigDescriptor>, path: string)
      requires Valid()
      modifies this
      ensures Valid()
      ensures |devices| == |old(devices)| + 1 && fresh(devices[0]) && devices[1..] == old(devices)
      ensures Infos(devices) == [DeviceInfo(desc, configs, path)] + Infos(old(devices))
      ensures openHandles == old(openHandles) && pollSet == old(pollSet)
      ensures trace == old(trace) && attempted == old(attempted)
    {
      var dev := new Device(desc, configs, path);
      devices := [dev] + devices;
      assert devices[1..] == old(devices);
    }

    /** scan_busdir: scans every entry of the bus directory that does not
        start with '.', whatever the outcome of each; -1 only when the
        directory cannot be opened. */
    method ScanBusdir(busnum: string, fs: UsbFs) returns (r: int)
      requires Valid()
      modifies this
      ensures Valid()
      ensures EndsWith(devices, old(devices))
      ensures r == -1 <==> BusDir(busnum) !in fs.buses
      ensures r == 0 || r == -1
      ensures Infos(devices) == BusPart(fs, busnum) + Infos(old(devices))
      ensures attempted == old(attempted) + BusPartPaths(fs, busnum)
      ensures trace == old(trace) + BusPartTrace(fs, busnum)
      ensures openHandles == old(openHandles) && pollSet == old(pollSet)
    {
      var dirpath := BusDir(busnum);
      if dirpath !in fs.buses {
        return -1;
      }
      var names := fs.buses[dirpath];
      var i := 0;
      while i < |names|
        invariant 0 <= i <= |names|
        invariant Valid()
        invariant EndsWith(devices, old(devices))
        invariant Infos(devices) == Newest(names[..i], DeviceOutcome(fs, dirpath)) + Infos(old(devices))
        invariant attempted == old(attempted) + InOrder(names[..i], NodePath(dirpath))
        invariant trace == old(trace) + InOrder(names[..i], DeviceTrace(fs, dirpath))
        invariant openHandles == old(openHandles) && pollSet == old(pollSet)
      {
        ghost var d1, a1, t1 := devices, attempted, trace;
        ScanEntry(dirpath, names[i], fs);
        WalkStep(names, i, DeviceOutcome(fs, dirpath), NodePath(dirpath), DeviceTrace(fs, dirpath),
                 old(devices), d1, devices, old(attempted), a1, attempted, old(trace), t1, trace);
        i := i + 1;
      }
      assert names[..i] == names;
      r := 0;
    }

    /** One iteration of scan_busdir's readdir loop: an entry starting
        with '.' is skipped, any other is scanned. */
    method ScanEntry(dirpath: string, name: string, fs: UsbFs)
      requires Valid()
      modifies this
      ensures Valid()
      ensures EndsWith(devices, old(devices))
      ensures Infos(devices) == Visit(name, DeviceOutcome(fs, dirpath)) + Infos(old(devices))
      ensures attempted == old(attempted) + Visit(name, NodePath(dirpath))
      ensures trace == old(trace) + Visit(name, DeviceTrace(fs, dirpath))
      ensures openHandles == old(openHandles) && pollSet == old(pollSet)
    {
      if !IsHidden(name) {
        var _ := ScanDevice(dirpath, name, fs);
      }
    }

    /** libusb_find_devices: scans every bus entry of the usbfs root that
        does not start with '.', whatever the outcome of each; -1 only when
        the root cannot be opened. */
    method FindDevices(fs: UsbFs) returns (r: int)
      requires Valid()
      modifies this
      ensures Valid()
      ensures EndsWith(devices, old(devices))
      ensures r == -1 <==> fs.root.None?
      ensures r == 0 || r == -1
      ensures fs.root.Some? ==> Infos(devices) == AllDevices(fs, fs.root.value) + Infos(old(devices))
      ensures fs.root.Some? ==> attempted == old(attempted) + AllPaths(fs, fs.root.value)
      ensures fs.root.Some? ==> trace == old(trace) + AllTrace(fs, fs.root.value)
      ensures fs.root.None? ==> unchanged(this)
      ensures openHandles == old(openHandles) && pollSet == old(pollSet)
    {
      if fs.root.None? {
        return -1;
      }
      var buses := fs.root.value;
      var i := 0;
      while i < |buses|
        invariant 0 <= i <= |buses|
        invariant Valid()
        invariant EndsWith(devices, old(devices))
        invariant Infos(devices) == Newest(buses[..i], BusOutcome(fs)) + Infos(old(devices))
        invariant attempted == old(attempted) + InOrder(buses[..i], BusNodePaths(fs))
        invariant trace == old(trace) + InOrder(buses[..i], BusTrace(fs))
        invariant openHandles == old(openHandles) && pollSet == old(pollSet)
      {
        ghost var d1, a1, t1 := devices, attempted, trace;
        BusEntry(buses[i], fs);
        WalkStep(buses, i, BusOutcome(fs), BusNodePaths(fs), BusTrace(fs),
                 old(devices), d1, devices, old(attempted), a1, attempted, old(trace), t1, trace);
        i := i + 1;
      }
      assert buses[..i] == buses;
      r := 0;
    }

    /** One iteration of libusb_find_devices's readdir loop: an entry
        starting with '.' is skipped, any other bus is scanned. */
    method BusEntry(bus: string, fs: UsbFs)
      requires Valid()
      modifies this
      ensures Valid()
      ensures EndsWith(devices, old(devices))
      ensures Infos(devices) == Visit(bus, BusOutcome(fs)) + Infos(old(devices))
      ensures attempted == old(attempted) + Visit(bus, BusNodePaths(fs))
      ensures trace == old(trace) + Visit(bus, BusTrace(fs))
      ensures openHandles == old(openHandles) && pollSet == old(pollSet)
    {
      if !IsHidden(bus) {
        var _ := ScanBusdir(bus, fs);
      }
    }

    /** libusb_get_devices: the head of the registry, or null when it is empty. */
    function GetDevices(): (d: Device?)
      reads this
      ensures d == null <==> devices == []
      ensures d != null ==> d == devices[0]
    {
      if devices == [] then null else devices[0]
    }

    /** libusb_dev_next: the device after dev, or null after the last one. */
    function DevNext(dev: Device): (next: Device?)
      reads this
      requires Distinct(devices) && dev in devices
      ensures next == null <==> dev == devices[|devices| - 1]
      ensures next != null ==> exists k :: 0 <= k < |devices| - 1 && devices[k] == dev && devices[k + 1] == next
    {
      var i := IndexOf(devices, dev);
      if i + 1 == |devices| then null else devices[i + 1]
    }

    /** The device reached after k steps of libusb_dev_next from libusb_get_devices. */
    function Walk(k: nat): Device?
      reads this
      requires Distinct(devices)
    {
      if k == 0 then GetDevices()
      else
        var prev := Walk(k - 1);
        if prev == null || prev !in devices then null else DevNext(prev)
    }

    /** Iterating with get_devices and dev_next visits the whole registry
        in order, each device once, and then stops. */
    lemma {:induction false} WalkVisitsAll(k: nat)
      requires Distinct(devices)
      requires k <= |devices|
      ensures k < |devices| ==> Walk(k) == devices[k]
      ensures k == |devices| ==> Walk(k) == null
    {
      if k > 0 {
        WalkVisitsAll(k - 1);
        var prev := devices[k - 1];
        assert IndexOf(devices, prev) == k - 1;
      }
    }

    /** libusb_open: opens the device's node and, when that succeeds,
        puts a new handle at the head of open_devs and registers its
        descriptor with POLLOUT. */
    method Open(dev: Device, fs: UsbFs) returns (h: Handle?)
      requires Valid()
      requires forall g :: g in openHandles ==> g.fd != OpenNode(fs, dev.nodePath).0
      modifies this
      ensures Valid()
      ensures var fd := OpenNode(fs, dev.nodePath).0;
              && (fd < 0 ==> h == null && unchanged(this))
              && (fd >= 0 ==> && h != null && fresh(h) && h.fd == fd && h.dev == dev
                              && openHandles == [h] + old(openHandles)
                              && pollSet == old(pollSet) + {PollFd(fd, POLLOUT)}
                              && trace == old(trace) + [AddPollFd(fd, POLLOUT)])
      ensures devices == old(devices) && attempted == old(attempted)
    {
      var fd := OpenNode(fs, dev.nodePath).0;
      if fd < 0 {
        return null;
      }
      h := new Handle(fd, dev);
      openHandles := [h] + openHandles;
      pollSet := pollSet + {PollFd(fd, POLLOUT)};
      trace := trace + [AddPollFd(fd, POLLOUT)];
      assert forall k :: 1 <= k < |openHandles| ==> openHandles[k] == old(openHandles)[k - 1];
    }

    /** do_close: unregisters the handle's descriptor from the poll set,
        then closes it. */
    method DoClose(h: Handle)
      modifies this
      ensures pollSet == WithoutFd(old(pollSet), h.fd)
      ensures trace == old(trace) + [RemovePollFd(h.fd), CloseFd(h.fd)]
      ensures devices == old(devices) && openHandles == old(openHandles) && attempted == old(attempted)
    {
      pollSet := WithoutFd(pollSet, h.fd);
      trace := trace + [RemovePollFd(h.fd), CloseFd(h.fd)];
    }

    /** libusb_close: a null handle is ignored; otherwise the handle is
        unlinked from open_devs and closed. */
    method Close(h: Handle?)
      requires Valid()
      requires h != null ==> h in openHandles
      modifies this
      ensures Valid()
      ensures h == null ==> unchanged(this)
      ensures h != null ==> && openHandles == Without(old(openHandles), h)
                            && pollSet == old(pollSet) - {PollFd(h.fd, POLLOUT)}
                            && trace == old(trace) + [RemovePollFd(h.fd), CloseFd(h.fd)]
      ensures devices == old(devices) && attempted == old(attempted)
    {
      if h == null {
        return;
      }
      WithoutRemovesExactlyOne(openHandles, h);
      PollSetWithout(openHandles, h);
      openHandles := Without(openHandles, h);
      DoClose(h);
    }

    /** libusb_exit: closes every handle still open. The handles stay
        linked in open_devs, so the registry no longer matches the poll set. */
    method Exit()
      requires Valid()
      modifies this
      ensures pollSet == {}
      ensures trace == old(trace) + CloseTrace(openHandles)
      ensures openHandles == old(openHandles) && devices == old(devices) && attempted == old(attempted)
    {
      var i := 0;
      while i < |openHandles|
        invariant 0 <= i <= |openHandles|
        invariant openHandles == old(openHandles) && devices == old(devices) && attempted == old(attempted)
        invariant pollSet == PollSetOf(openHandles[i..])
        invariant trace == old(trace) + CloseTrace(openHandles[..i])
      {
        PollSetDrop(openHandles, i);
        assert openHandles[..i + 1][..i] == openHandles[..i];
        DoClose(openHandles[i]);
        i := i + 1;
      }
      assert openHandles[..i] == openHandles;
    }

    /** libusb_get_pollfds: counts the open handles, then fills a fresh
        zeroed array with one POLLOUT entry per handle, in registry order. */
    method GetPollFds() returns (cnt: nat, ret: array<PollFd>)
      ensures cnt == |openHandles| && ret.Length == cnt && fresh(ret)
      ensures forall k :: 0 <= k < cnt ==> ret[k] == PollFd(openHandles[k].fd, POLLOUT)
      ensures Valid() ==> (set k | 0 <= k < ret.Length :: ret[k]) == pollSet
    {
      cnt := 0;
      var i := 0;
      while i < |openHandles|
        invariant 0 <= i <= |openHandles| && cnt == i
      {
        cnt := cnt + 1;
        i := i + 1;
      }
      ret := new PollFd[cnt](_ => PollFd(0, 0));
      i := 0;
      while i < cnt
        invariant 0 <= i <= cnt
        invariant forall k :: 0 <= k < i ==> ret[k] == PollFd(openHandles[k].fd, POLLOUT)
      {
        ret[i] := ret[i].(fd := openHandles[i].fd);
        ret[i] := ret[i].(events := POLLOUT);
        i := i + 1;
      }
      SnapshotIsPollSet(openHandles, ret[..]);
    }
  }

  /** The reads of scan_device on an open node: the device descriptor,
      the bound checks on bNumConfigurations, then the configurations.
      Any failure abandons the fetch. This is the statement-by-statement
      form of FetchDevice that drives the ReadConfigs loop; its contract
      ties the two together. */
  method FetchDescriptors(node: Node) returns (f: FetchResult)
    ensures f == FetchDevice(node)
  {
    var raw := ReadAt(node, 0, DEVICE_DESC_LENGTH);
    if !Full(raw, DEVICE_DESC_LENGTH) {
      return Rejected([DEVICE_DESC_LENGTH]);
    }
    var desc := ParseDeviceDescriptor(raw.bytes);
    if desc.bNumConfigurations > USB_MAXCONFIG || desc.bNumConfigurations < 1 {
      return Rejected([DEVICE_DESC_LENGTH]);
    }
    var progress := ReadConfigs(node, desc.bNumConfigurations as nat);
    if progress.Aborted? {
      return Rejected(progress.requests);
    }
    return Fetched(desc, progress.configs, progress.pos, progress.requests);
  }

  /** scan_device's loop over the n configurations, stopping at the first
      failed iteration. */
  method ReadConfigs(node: Node, n: nat) returns (progress: Progress)
    ensures progress == ConfigsAfter(node, n)
  {
    progress := InProgress(DEVICE_DESC_LENGTH, [], [DEVICE_DESC_LENGTH]);
    var i := 0;
    while i < n
      invariant 0 <= i <= n
      invariant progress.InProgress? && ConfigsAfter(node, i) == progress
    {
      var next, _ := ReadConfig(node, progress);
      if next.Aborted? {
        AbortedStays(node, i + 1, n);
        return next;
      }
      progress := next;
      i := i + 1;
    }
  }

  /** Iteration i + 1 of scan_device's configuration loop, from the
      cursor of progress: an 8-byte header, the bounds check on its
      wTotalLength, then the remaining bytes read into a buffer that starts
      with the header; the assembled buffer goes to the configuration
      parser. The byte counts it asks for are returned in issued. */
  method ReadConfig(node: Node, progress: Progress) returns (next: Progress, issued: seq<nat>)
    requires progress.InProgress?
    ensures next == FetchConfig(node, progress)
    ensures next.requests == progress.requests + issued
  {
    var pos, configs, requests := progress.pos, progress.configs, progress.requests;
    var header := ReadAt(node, pos, CONFIG_HEADER_LENGTH);
    issued := [CONFIG_HEADER_LENGTH];
    if !Full(header, CONFIG_HEADER_LENGTH) {
      return Aborted(requests + issued), issued;
    }
    var total := TotalLength(header.bytes);
    if total < CONFIG_HEADER_LENGTH {
      return Aborted(requests + issued), issued;
    }
    var bigbuffer := NewBuffer(total, header.bytes);
    var body := ReadAt(node, pos + CONFIG_HEADER_LENGTH, total - CONFIG_HEADER_LENGTH);
    issued := issued + [total - CONFIG_HEADER_LENGTH];
    assert requests + [CONFIG_HEADER_LENGTH] + [total - CONFIG_HEADER_LENGTH] == requests + issued;
    if !Full(body, total - CONFIG_HEADER_LENGTH) {
      return Aborted(requests + issued), issued;
    }
    CopyAt(bigbuffer, CONFIG_HEADER_LENGTH, body.bytes);
    next := InProgress(pos + total, configs + [ParseConfiguration(bigbuffer[..])], requests + issued);
  }

  /** malloc(size) followed by memcpy of prefix to its start. */
  method NewBuffer(size: nat, prefix: seq<byte>) returns (buf: array<byte>)
    requires |prefix| <= size
    ensures fresh(buf) && buf.Length == size && buf[..|prefix|] == prefix
  {
    buf := new byte[size];
    forall k | 0 <= k < |prefix| {
      buf[k] := prefix[k];
    }
  }

  /** A read of exactly |bytes| bytes into buf at offset off, which ends the buffer. */
  method CopyAt(buf: array<byte>, off: nat, bytes: seq<byte>)
    requires off + |bytes| == buf.Length
    modifies buf
    ensures buf[..] == old(buf[..off]) + bytes
  {
    forall k | off <= k < buf.Length {
      buf[k] := bytes[k - off];
    }
  }

  // ---------------------------------------------------------------------
  // Lemmas about the handle registry

  /** Where each element of Without(s, x) comes from in s. */
  lemma WithoutShape<T>(s: seq<T>, x: T)
    requires x in s
    ensures var w, i := Without(s, x), IndexOf(s, x);
      && |w| == |s| - 1
      && (forall k :: 0 <= k < |w| ==> w[k] == (if k < i then s[k] else s[k + 1]))
  {
  }

  /** list_del of a member removes exactly that element and keeps the
      others distinct. */
  lemma WithoutRemovesExactlyOne<T>(s: seq<T>, x: T)
    requires x in s && Distinct(s)
    ensures var w := Without(s, x);
      && |w| == |s| - 1
      && x !in w
      && (forall y :: y in w <==> y in s && y != x)
      && Distinct(w)
  {
    var i := IndexOf(s, x);
    var w := Without(s, x);
    WithoutShape(s, x);
    forall y | y in s && y != x ensures y in w {
      var k :| 0 <= k < |s| && s[k] == y;
      assert w[if k < i then k else k - 1] == y;
    }
  }

  /** Dropping a handle keeps the descriptors distinct and non-negative. */
  lemma FdsValidWithout(hs: seq<Handle>, h: Handle)
    requires h in hs && FdsValid(hs)
    ensures FdsValid(Without(hs, h))
  {
    var i := IndexOf(hs, h);
    var w := Without(hs, h);
    WithoutShape(hs, h);
    forall a, b | 0 <= a < b < |w| ensures w[a].fd != w[b].fd {
      var a', b' := if a < i then a else a + 1, if b < i then b else b + 1;
      assert w[a] == hs[a'] && w[b] == hs[b'];
    }
  }

  /** The handles left after dropping h are exactly those on another descriptor. */
  lemma HandlesWithout(hs: seq<Handle>, h: Handle)
    requires h in hs && FdsValid(hs)
    ensures forall g :: g in Without(hs, h) <==> g in hs && g.fd != h.fd
  {
    forall g ensures g in Without(hs, h) <==> g in hs && g.fd != h.fd {
      if g in Without(hs, h) {
        LeftByWithout(hs, h, g);
      }
      if g in hs && g.fd != h.fd {
        KeptByWithout(hs, h, g);
      }
    }
  }

  lemma KeptByWithout(hs: seq<Handle>, h: Handle, g: Handle)
    requires h in hs && g in hs && g.fd != h.fd
    ensures g in Without(hs, h)
  {
    var i := IndexOf(hs, h);
    WithoutShape(hs, h);
    var k :| 0 <= k < |hs| && hs[k] == g;
    assert Without(hs, h)[if k < i then k else k - 1] == g;
  }

  lemma LeftByWithout(hs: seq<Handle>, h: Handle, g: Handle)
    requires h in hs && FdsValid(hs) && g in Without(hs, h)
    ensures g in hs && g.fd != h.fd
  {
    var i := IndexOf(hs, h);
    var w := Without(hs, h);
    WithoutShape(hs, h);
    var k :| 0 <= k < |w| && w[k] == g;
    var k' := if k < i then k else k + 1;
    assert g == hs[k'];
    assert k' != i;
  }

  /** Closing a handle drops exactly its poll entry. */
  lemma PollSetWithout(hs: seq<Handle>, h: Handle)
    requires h in hs && FdsValid(hs)
    ensures FdsValid(Without(hs, h))
    ensures PollSetOf(Without(hs, h)) == PollSetOf(hs) - {PollFd(h.fd, POLLOUT)}
    ensures PollSetOf(Without(hs, h)) == WithoutFd(PollSetOf(hs), h.fd)
  {
    FdsValidWithout(hs, h);
    HandlesWithout(hs, h);
  }

  /** Closing the i-th handle of a list with distinct descriptors leaves the
      poll entries of the handles after it. */
  lemma PollSetDrop(hs: seq<Handle>, i: nat)
    requires i < |hs| && FdsValid(hs)
    ensures WithoutFd(PollSetOf(hs[i..]), hs[i].fd) == PollSetOf(hs[i + 1..])
  {
    assert hs[i..] == [hs[i]] + hs[i + 1..];
    forall g | g in hs[i + 1..] ensures g.fd != hs[i].fd {
      var k :| 0 <= k < |hs[i + 1..]| && hs[i + 1..][k] == g;
      assert g == hs[i + 1 + k];
    }
  }

  /** The snapshot holds exactly the registered poll entries. */
  lemma SnapshotIsPollSet(hs: seq<Handle>, entries: seq<PollFd>)
    requires |entries| == |hs|
    requires forall k :: 0 <= k < |hs| ==> entries[k] == PollFd(hs[k].fd, POLLOUT)
    ensures (set k | 0 <= k < |entries| :: entries[k]) == PollSetOf(hs)
  {
    forall p | p in PollSetOf(hs) ensures p in (set k | 0 <= k < |entries| :: entries[k]) {
      var h :| h in hs && p == PollFd(h.fd, POLLOUT);
      var k :| 0 <= k < |hs| && hs[k] == h;
      assert entries[k] == p;
    }
  }

  /** libusb_exit issues one poll removal and one close per open handle,
      in registry order. */
  lemma {:induction false} CloseTraceShape(hs: seq<Handle>)
    ensures |CloseTrace(hs)| == 2 * |hs|
    ensures forall k :: 0 <= k < |hs| ==>
              CloseTrace(hs)[2 * k] == RemovePollFd(hs[k].fd) && CloseTrace(hs)[2 * k + 1] == CloseFd(hs[k].fd)
  {
    if hs != [] {
      CloseTraceShape(hs[..|hs| - 1]);
    }
  }
}
