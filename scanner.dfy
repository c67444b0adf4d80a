/** What the bus walk of libusb_find_devices, scan_busdir and scan_device
    produces, stated as functions over a snapshot of usbfs: which node
    paths are tried, which devices are found and which system calls the
    fetch issues on the node's descriptor. */
module Scanner {
  import opened UsbTypes
  import opened Fetch

  /** What opendir/readdir/open report for usbfs during one scan. */
  datatype UsbFs = UsbFs(
    /** Entries of USBFS_PATH in readdir order; None when it cannot be opened. */
    root: Option<seq<string>>,
    /** Entries of each bus directory that can be opened, keyed by its path. */
    buses: map<string, seq<string>>,
    /** For each device node path: the descriptor open(2) returns (negative
        on failure) and what reading the node yields. */
    nodes: map<string, (int, Node)>)

  /** A device as recorded in the registry. */
  datatype DeviceInfo = DeviceInfo(desc: DeviceDescriptor, configs: seq<ConfigDescriptor>, nodePath: string)

  /** open(path, O_RDWR): a node missing from the snapshot cannot be opened. */
  function OpenNode(fs: UsbFs, path: string): (int, Node)
  {
    if path in fs.nodes then fs.nodes[path] else (-1, Node([], false))
  }

  /** What scan_device adds to the registry for busdir/devnum: the fetched
      device, or nothing when the open or the fetch fails. */
  function ScanOutcome(fs: UsbFs, busdir: string, devnum: string): (r: seq<DeviceInfo>)
    ensures |r| <= 1
    ensures r != [] ==> r[0].nodePath == JoinPath(busdir, devnum) && OpenNode(fs, r[0].nodePath).0 >= 0
    ensures r != [] ==> 1 <= |r[0].configs| <= USB_MAXCONFIG
    ensures r != [] ==> |r[0].configs| == r[0].desc.bNumConfigurations as int
  {
    var path := JoinPath(busdir, devnum);
    var (fd, node) := OpenNode(fs, path);
    var f := FetchDevice(node);
    if fd >= 0 && f.Fetched? then [DeviceInfo(f.desc, f.configs, path)] else []
  }

  /** One Read call per requested byte count, in order. */
  function ReadTrace(fd: int, counts: seq<nat>): seq<Syscall>
  {
    if counts == [] then [] else ReadTrace(fd, counts[..|counts| - 1]) + [Read(fd, counts[|counts| - 1])]
  }

  /** The k-th read asks for the k-th byte count. */
  lemma {:induction false} ReadTraceShape(fd: int, counts: seq<nat>)
    ensures |ReadTrace(fd, counts)| == |counts|
    ensures forall k :: 0 <= k < |counts| ==> ReadTrace(fd, counts)[k] == Read(fd, counts[k])
  {
    if counts != [] {
      ReadTraceShape(fd, counts[..|counts| - 1]);
    }
  }

  /** The system calls scan_device issues on the node's descriptor: the
      fetch's reads, then one close; nothing when the open failed. */
  function ScanTrace(fs: UsbFs, path: string): (r: seq<Syscall>)
    ensures r == [] <==> OpenNode(fs, path).0 < 0
    ensures r != [] ==> && r[0] == Read(OpenNode(fs, path).0, DEVICE_DESC_LENGTH)
                        && r[|r| - 1] == CloseFd(OpenNode(fs, path).0)
  {
    var (fd, node) := OpenNode(fs, path);
    if fd < 0 then []
    else
      var requests := FetchDevice(node).requests;
      ReadTraceShape(fd, requests);
      ReadTrace(fd, requests) + [CloseFd(fd)]
  }

  /** scan_device's outcome and system calls once the node is open on fd
      and its fetch has given f. */
  lemma ScanOpened(fs: UsbFs, busdir: string, devnum: string, fd: int, node: Node, f: FetchResult)
    requires OpenNode(fs, JoinPath(busdir, devnum)) == (fd, node) && fd >= 0
    requires f == FetchDevice(node)
    ensures ScanOutcome(fs, busdir, devnum) == (if f.Fetched? then [DeviceInfo(f.desc, f.configs, JoinPath(busdir, devnum))] else [])
    ensures ScanTrace(fs, JoinPath(busdir, devnum)) == ReadTrace(fd, f.requests) + [CloseFd(fd)]
  {
  }

  /** scan_device on a node that does not open: nothing found, no call issued. */
  lemma ScanNotOpened(fs: UsbFs, busdir: string, devnum: string)
    requires OpenNode(fs, JoinPath(busdir, devnum)).0 < 0
    ensures ScanOutcome(fs, busdir, devnum) == []
    ensures ScanTrace(fs, JoinPath(busdir, devnum)) == []
  {
  }

  /** What one readdir entry contributes: nothing when it is hidden. */
  function Visit<T>(name: string, f: string -> seq<T>): seq<T>
  {
    if IsHidden(name) then [] else f(name)
  }

  /** The results of a readdir loop that skips hidden entries and
      inserts each entry's results at the head of a list: the last entry's
      come first. */
  function Newest<T>(names: seq<string>, f: string -> seq<T>): seq<T>
  {
    if names == [] then []
    else
      var name := names[|names| - 1];
      Visit(name, f) + Newest(names[..|names| - 1], f)
  }

  /** The results of a readdir loop that skips hidden entries, in readdir order. */
  function InOrder<T>(names: seq<string>, f: string -> seq<T>): seq<T>
  {
    if names == [] then []
    else
      var name := names[|names| - 1];
      InOrder(names[..|names| - 1], f) + Visit(name, f)
  }

  /** What scan_device adds for each entry of dirpath. */
  function DeviceOutcome(fs: UsbFs, dirpath: string): string -> seq<DeviceInfo>
  {
    name => ScanOutcome(fs, dirpath, name)
  }

  /** The node path scan_device tries for each entry of dirpath. */
  function NodePath(dirpath: string): string -> seq<string>
  {
    name => [JoinPath(dirpath, name)]
  }

  /** The system calls scan_device issues for each entry of dirpath. */
  function DeviceTrace(fs: UsbFs, dirpath: string): string -> seq<Syscall>
  {
    name => ScanTrace(fs, JoinPath(dirpath, name))
  }

  /** Bus directory path for a bus entry of the root. */
  function BusDir(bus: string): string
  {
    JoinPath(USBFS_PATH, bus)
  }

  /** What scan_busdir(bus) adds, newest first: nothing when its directory cannot be opened. */
  function BusPart(fs: UsbFs, bus: string): (r: seq<DeviceInfo>)
    ensures BusDir(bus) in fs.buses ==> |r| <= |fs.buses[BusDir(bus)]|
    ensures BusDir(bus) !in fs.buses ==> r == []
  {
    if BusDir(bus) in fs.buses then
      var names, f := fs.buses[BusDir(bus)], DeviceOutcome(fs, BusDir(bus));
      NewestAtMostOne(names, f);
      Newest(names, f)
    else []
  }

  /** A walk whose entries yield at most one result each yields at most
      one per entry. */
  lemma {:induction false} NewestAtMostOne<T>(names: seq<string>, f: string -> seq<T>)
    requires forall n :: |f(n)| <= 1
    ensures |Newest(names, f)| <= |names|
  {
    if names != [] {
      NewestAtMostOne(names[..|names| - 1], f);
    }
  }

  /** Node paths scan_busdir(bus) tries, in order. */
  function BusPartPaths(fs: UsbFs, bus: string): seq<string>
  {
    if BusDir(bus) in fs.buses then InOrder(fs.buses[BusDir(bus)], NodePath(BusDir(bus))) else []
  }

  /** System calls scan_busdir(bus) issues, in order. */
  function BusPartTrace(fs: UsbFs, bus: string): seq<Syscall>
  {
    if BusDir(bus) in fs.buses then InOrder(fs.buses[BusDir(bus)], DeviceTrace(fs, BusDir(bus))) else []
  }

  /** What scan_busdir adds for each entry of the root. */
  function BusOutcome(fs: UsbFs): string -> seq<DeviceInfo>
  {
    bus => BusPart(fs, bus)
  }

  /** The node paths scan_busdir tries for each entry of the root. */
  function BusNodePaths(fs: UsbFs): string -> seq<string>
  {
    bus => BusPartPaths(fs, bus)
  }

  /** The system calls scan_busdir issues for each entry of the root. */
  function BusTrace(fs: UsbFs): string -> seq<Syscall>
  {
    bus => BusPartTrace(fs, bus)
  }

  /** Devices libusb_find_devices adds for the root's entries, newest first. */
  function AllDevices(fs: UsbFs, buses: seq<string>): seq<DeviceInfo>
  {
    Newest(buses, BusOutcome(fs))
  }

  /** Node paths libusb_find_devices tries, in order. */
  function AllPaths(fs: UsbFs, buses: seq<string>): seq<string>
  {
    InOrder(buses, BusNodePaths(fs))
  }

  /** System calls libusb_find_devices issues, in order. */
  function AllTrace(fs: UsbFs, buses: seq<string>): seq<Syscall>
  {
    InOrder(buses, BusTrace(fs))
  }

  // ---------------------------------------------------------------------
  // Lemmas about the walk

  /** Walking a + b puts b's results in front of a's: whatever happens to
      one entry, the entries after it are still walked. */
  lemma {:induction false} NewestAppend<T>(a: seq<string>, b: seq<string>, f: string -> seq<T>)
    ensures Newest(a + b, f) == Newest(b, f) + Newest(a, f)
    decreases |b|
  {
    if b == [] {
      assert a + b == a;
    } else {
      var b', name := b[..|b| - 1], b[|b| - 1];
      var x := Visit(name, f);
      assert Newest(a + b, f) == x + Newest(a + b', f) by {
        assert (a + b)[..|a + b| - 1] == a + b' && (a + b)[|a + b| - 1] == name;
      }
      NewestAppend(a, b', f);
      assert Newest(b, f) == x + Newest(b', f);
      assert x + (Newest(b', f) + Newest(a, f)) == (x + Newest(b', f)) + Newest(a, f);
    }
  }

  /** The entries of names, last first. */
  function Rev(names: seq<string>): (r: seq<string>)
    ensures |r| == |names|
    ensures forall k :: 0 <= k < |names| ==> r[k] == names[|names| - 1 - k]
  {
    if names == [] then [] else [names[|names| - 1]] + Rev(names[..|names| - 1])
  }

  /** Inserting at the head collects the same results as appending at the
      end, with the entries walked in the opposite order. */
  lemma {:induction false} NewestSameResults<T>(names: seq<string>, f: string -> seq<T>)
    ensures Newest(names, f) == InOrder(Rev(names), f)
    ensures multiset(Newest(names, f)) == multiset(InOrder(names, f))
  {
    if names != [] {
      var prefix, last := names[..|names| - 1], names[|names| - 1];
      NewestSameResults(prefix, f);
      assert InOrder([last], f) == Visit(last, f) by {
        assert [last][..0] == [];
      }
      InOrderAppend([last], Rev(prefix), f);
    }
  }

  /** The same for the paths tried, which keep readdir order. */
  lemma {:induction false} InOrderAppend<T>(a: seq<string>, b: seq<string>, f: string -> seq<T>)
    ensures InOrder(a + b, f) == InOrder(a, f) + InOrder(b, f)
    decreases |b|
  {
    if b == [] {
      assert a + b == a;
    } else {
      var b', name := b[..|b| - 1], b[|b| - 1];
      var x := Visit(name, f);
      assert InOrder(a + b, f) == InOrder(a + b', f) + x by {
        assert (a + b)[..|a + b| - 1] == a + b' && (a + b)[|a + b| - 1] == name;
      }
      InOrderAppend(a, b', f);
      assert InOrder(b, f) == InOrder(b', f) + x;
      assert (InOrder(a, f) + InOrder(b', f)) + x == InOrder(a, f) + (InOrder(b', f) + x);
    }
  }

  /** One more entry of the walk: its results go in front of those of the
      entries before it. */
  lemma NewestStep<T>(names: seq<string>, i: nat, f: string -> seq<T>, rest: seq<T>)
    requires i < |names|
    ensures Newest(names[..i + 1], f) + rest == Visit(names[i], f) + (Newest(names[..i], f) + rest)
  {
    assert names[..i + 1][..i] == names[..i];
  }

  /** One more entry of the walk: its results go after those of the
      entries before it. */
  lemma InOrderStep<T>(names: seq<string>, i: nat, f: string -> seq<T>, rest: seq<T>)
    requires i < |names|
    ensures rest + InOrder(names[..i + 1], f) == (rest + InOrder(names[..i], f)) + Visit(names[i], f)
  {
    assert names[..i + 1][..i] == names[..i];
  }

  /** The walk's results are exactly the results of its non-hidden entries. */
  lemma {:induction false} NewestFound<T>(names: seq<string>, f: string -> seq<T>, x: T)
    ensures x in Newest(names, f) <==> exists k :: 0 <= k < |names| && !IsHidden(names[k]) && x in f(names[k])
    ensures x in InOrder(names, f) <==> exists k :: 0 <= k < |names| && !IsHidden(names[k]) && x in f(names[k])
  {
    if names != [] {
      var last := |names| - 1;
      var prefix := names[..last];
      NewestFound(prefix, f, x);
      if exists k :: 0 <= k < |names| && !IsHidden(names[k]) && x in f(names[k]) {
        var k :| 0 <= k < |names| && !IsHidden(names[k]) && x in f(names[k]);
        if k < last {
          assert prefix[k] == names[k];
        }
      }
      if exists k :: 0 <= k < |prefix| && !IsHidden(prefix[k]) && x in f(prefix[k]) {
        var k :| 0 <= k < |prefix| && !IsHidden(prefix[k]) && x in f(prefix[k]);
        assert names[k] == prefix[k];
      }
    }
  }

  /** A walk whose every entry yields one result yields one per non-hidden entry, in order. */
  lemma {:induction false} InOrderVisible<T>(names: seq<string>, f: string -> seq<T>)
    requires forall n :: |f(n)| == 1
    ensures |InOrder(names, f)| == |Visible(names)|
    ensures forall k :: 0 <= k < |Visible(names)| ==> InOrder(names, f)[k] == f(Visible(names)[k])[0]
  {
    if names != [] {
      InOrderVisible(names[..|names| - 1], f);
    }
  }

  /** The entries readdir returns that the walk does not skip, in order. */
  function Visible(names: seq<string>): (v: seq<string>)
    ensures forall k :: 0 <= k < |v| ==> !IsHidden(v[k]) && v[k] in names
    ensures forall n :: n in names && !IsHidden(n) ==> n in v
  {
    if names == [] then []
    else Visible(names[..|names| - 1]) + (if IsHidden(names[|names| - 1]) then [] else [names[|names| - 1]])
  }

  /** Every entry of a bus directory that is not hidden is tried, in
      readdir order, at the path "dirpath/name"; no hidden one is. */
  lemma BusPathsVisible(dirpath: string, names: seq<string>)
    ensures |InOrder(names, NodePath(dirpath))| == |Visible(names)|
    ensures forall k :: 0 <= k < |Visible(names)| ==>
              InOrder(names, NodePath(dirpath))[k] == JoinPath(dirpath, Visible(names)[k])
  {
    InOrderVisible(names, NodePath(dirpath));
  }

  /** The devices one bus contributes are exactly those at a non-hidden
      entry of its directory whose node opens and whose fetch succeeds. */
  lemma BusPartFound(fs: UsbFs, bus: string, d: DeviceInfo)
    ensures d in BusPart(fs, bus) <==> FoundOnBus(fs, bus, d)
  {
    var dir := BusDir(bus);
    if dir in fs.buses {
      var names := fs.buses[dir];
      var f := DeviceOutcome(fs, dir);
      NewestFound(names, f, d);
      if d in BusPart(fs, bus) {
        var k :| 0 <= k < |names| && !IsHidden(names[k]) && d in f(names[k]);
        assert FoundIn(fs, dir, k, d);
      }
      if FoundOnBus(fs, bus, d) {
        var j :| 0 <= j < |names| && FoundIn(fs, dir, j, d);
        assert !IsHidden(names[j]) && d in f(names[j]);
      }
    }
  }

  /** The devices the whole walk finds are exactly those on a non-hidden
      bus entry whose directory opens, at a non-hidden entry whose node
      opens and whose fetch succeeds; a failing bus or device does not hide
      the others. */
  lemma AllDevicesFound(fs: UsbFs, buses: seq<string>, d: DeviceInfo)
    ensures d in AllDevices(fs, buses) <==>
              exists k :: 0 <= k < |buses| && !IsHidden(buses[k]) && FoundOnBus(fs, buses[k], d)
  {
    NewestFound(buses, BusOutcome(fs), d);
    forall k | 0 <= k < |buses|
      ensures d in BusOutcome(fs)(buses[k]) <==> FoundOnBus(fs, buses[k], d)
    {
      BusPartFound(fs, buses[k], d);
    }
  }

  /** The directory of bus opens and one of its entries yields d. */
  predicate FoundOnBus(fs: UsbFs, bus: string, d: DeviceInfo)
  {
    BusDir(bus) in fs.buses && exists j :: 0 <= j < |fs.buses[BusDir(bus)]| && FoundIn(fs, BusDir(bus), j, d)
  }

  /** Entry j of directory dir is not hidden and its scan yields d. */
  predicate FoundIn(fs: UsbFs, dir: string, j: int, d: DeviceInfo)
    requires dir in fs.buses
  {
    0 <= j < |fs.buses[dir]| && !IsHidden(fs.buses[dir][j]) && d in DeviceOutcome(fs, dir)(fs.buses[dir][j])
  }
}
