/** scan_device, libusb_open and libusb_get_pollfds exactly as their
    checks are written, next to inputs on which they misbehave. The rest
    of the model (modules Fetch, Scanner and Core) uses the corrected
    behaviour; the lemmas here exhibit each difference. */
module AsWritten {
  import opened UsbTypes
  import opened Fetch

  /** 2^64: size_t on a 64-bit target. */
  const SIZE_T_RANGE: int := 0x1_0000_0000_0000_0000

  /** SSIZE_MAX on a 64-bit target: read(2) fails for a larger count. */
  const SSIZE_MAX: int := 0x7FFF_FFFF_FFFF_FFFF

  /** Conversion of an int to size_t: wraps modulo 2^64. */
  function SizeT(n: int): (u: nat)
    ensures u < SIZE_T_RANGE
    ensures 0 <= n < SIZE_T_RANGE ==> u == n
    ensures -SIZE_T_RANGE <= n < 0 ==> u == n + SIZE_T_RANGE
  {
    n % SIZE_T_RANGE
  }

  /** What read(2) returns to scan_device: the byte count and the bytes,
      or -1; a negative descriptor cannot be read from, and a count above
      SSIZE_MAX (a negative int converted to size_t) fails. */
  datatype Got = Got(r: int, bytes: seq<byte>)

  function ReadFd(fd: int, node: Node, pos: nat, count: nat): (g: Got)
    ensures g.r == -1 || (g.r == |g.bytes| <= count)
    ensures fd < 0 || count > SSIZE_MAX ==> g == Got(-1, [])
    ensures fd >= 0 && count <= SSIZE_MAX && ReadAt(node, pos, count).ReadOk? ==> g == Got(|g.bytes|, ReadAt(node, pos, count).bytes)
    ensures fd >= 0 && ReadAt(node, pos, count).ReadError? ==> g == Got(-1, [])
  {
    if fd < 0 || count > SSIZE_MAX then Got(-1, [])
    else match ReadAt(node, pos, count)
      case ReadError => Got(-1, [])
      case ReadOk(bytes) => Got(|bytes|, bytes)
  }

  /** A stack buffer after a read that delivered got: those bytes first,
      then whatever the buffer held before. */
  function Fill(got: seq<byte>, stale: seq<byte>): (buf: seq<byte>)
    requires |got| <= |stale|
    ensures |buf| == |stale| && buf[..|got|] == got && buf[|got|..] == stale[|got|..]
  {
    got + stale[|got|..]
  }

  /** The visible effects of one scan_device call: its return value, the
      byte counts of the reads issued, whether the device went into the
      registry, whether close was called on the descriptor, and whether the
      header copy overran a buffer of wTotalLength bytes. */
  datatype Outcome = Outcome(ret: int, requests: seq<nat>, added: bool, closed: bool, overflow: bool)

  /** Where the configuration loop ends: the return value of the first
      iteration that jumps to the error path, if any. */
  datatype LoopEnd = LoopEnd(failure: Option<int>, requests: seq<nat>, overflow: bool)

  /** The configuration loop as written: the header check compares the
      int result with a size_t, the body length wTotalLength - 8 is an
      int passed to read as a size_t, and the body check compares ints. */
  function ConfigLoopAsWritten(fd: int, node: Node, pos: nat, left: nat, staleHeader: seq<byte>,
                               requests: seq<nat>, overflow: bool): (e: LoopEnd)
    requires |staleHeader| == CONFIG_HEADER_LENGTH
    ensures |requests| < |e.requests| || (left == 0 && e.requests == requests)
    ensures e.requests[..|requests|] == requests
    ensures overflow ==> e.overflow
    ensures e.failure.None? ==> |e.requests| == |requests| + 2 * left
    decreases left
  {
    if left == 0 then LoopEnd(None, requests, overflow)
    else
      var h := ReadFd(fd, node, pos, CONFIG_HEADER_LENGTH);
      if SizeT(h.r) < CONFIG_HEADER_LENGTH then LoopEnd(Some(h.r), requests + [CONFIG_HEADER_LENGTH], overflow)
      else
        var total := TotalLength(Fill(h.bytes, staleHeader));
        var tmp := total - CONFIG_HEADER_LENGTH;
        var b := ReadFd(fd, node, pos + |h.bytes|, SizeT(tmp));
        var requests' := requests + [CONFIG_HEADER_LENGTH, SizeT(tmp)];
        var overflow' := overflow || total < CONFIG_HEADER_LENGTH;
        if b.r < tmp then LoopEnd(Some(b.r), requests', overflow')
        else ConfigLoopAsWritten(fd, node, pos + |h.bytes| + |b.bytes|, left - 1, staleHeader, requests', overflow')
  }

  /** scan_device as written, on the descriptor open returned for the
      node: open failure is tested as fd == 0, a short device-descriptor
      read is accepted, and the error path returns the last read's result. */
  function ScanDeviceAsWritten(fd: int, node: Node, staleDesc: seq<byte>, staleHeader: seq<byte>): (o: Outcome)
    requires |staleDesc| == DEVICE_DESC_LENGTH && |staleHeader| == CONFIG_HEADER_LENGTH
    ensures o.closed <==> fd != 0
    ensures fd != 0 ==> 1 <= |o.requests| && o.requests[0] == DEVICE_DESC_LENGTH
    ensures o.added ==> o.ret == 0 && 3 <= |o.requests| <= 1 + 2 * USB_MAXCONFIG
  {
    if fd == 0 then Outcome(-1, [], false, false, false)
    else
      var d := ReadFd(fd, node, 0, DEVICE_DESC_LENGTH);
      if d.r < 0 then Outcome(d.r, [DEVICE_DESC_LENGTH], false, true, false)
      else
        var n := ParseDeviceDescriptor(Fill(d.bytes, staleDesc)).bNumConfigurations;
        if n > USB_MAXCONFIG || n < 1 then Outcome(-1, [DEVICE_DESC_LENGTH], false, true, false)
        else
          var end := ConfigLoopAsWritten(fd, node, |d.bytes|, n as nat, staleHeader, [DEVICE_DESC_LENGTH], false);
          match end.failure
          case Some(r) => Outcome(r, end.requests, false, true, end.overflow)
          case None => Outcome(0, end.requests, true, true, end.overflow)
  }

  /** A device descriptor of a device with one configuration. */
  const OneConfig: seq<byte> := seq(DEVICE_DESC_LENGTH, k => if k == DEVICE_DESC_LENGTH - 1 then 1 else 0)

  /** open(2) reports failure as -1, which passes the fd == 0 test:
      scan_device reads from descriptor -1 and closes it. */
  lemma FailedOpenAsWritten(node: Node, staleDesc: seq<byte>, staleHeader: seq<byte>)
    requires |staleDesc| == DEVICE_DESC_LENGTH && |staleHeader| == CONFIG_HEADER_LENGTH
    ensures ScanDeviceAsWritten(-1, node, staleDesc, staleHeader) == Outcome(-1, [DEVICE_DESC_LENGTH], false, true, false)
  {
  }

  /** A short device-descriptor read is not rejected: the configuration
      count comes from what the stack buffer held before, and the loop goes
      on to read a configuration header from a 10-byte node. */
  lemma ShortDescriptorAsWritten()
    ensures var node := Node(seq(10, _ => 0), false);
      && ScanDeviceAsWritten(3, node, OneConfig, seq(8, _ => 0)).requests == [DEVICE_DESC_LENGTH, CONFIG_HEADER_LENGTH]
      && FetchDevice(node) == Rejected([DEVICE_DESC_LENGTH])
  {
    var node := Node(seq(10, _ => 0), false);
    var d := ReadFd(3, node, 0, DEVICE_DESC_LENGTH);
    assert d.bytes == node.data;
    assert Fill(d.bytes, OneConfig)[17] == 1;
  }

  /** A failed header read returns -1, which as a size_t is not below 8:
      on an unplugged node holding only its device descriptor, the stale
      header bytes become a configuration and the device is registered. */
  lemma FailedHeaderReadAsWritten()
    ensures var node := Node(OneConfig, true);
      && ScanDeviceAsWritten(3, node, OneConfig, [0, 0, 8, 0, 0, 0, 0, 0])
         == Outcome(0, [DEVICE_DESC_LENGTH, CONFIG_HEADER_LENGTH, 0], true, true, false)
      && FetchDevice(node) == Rejected([DEVICE_DESC_LENGTH, CONFIG_HEADER_LENGTH])
  {
    var node := Node(OneConfig, true);
    DescriptorOfOneConfig(node);
    FailedHeaderLoop(node);
  }

  /** Reading the device descriptor of a node that starts with OneConfig. */
  lemma DescriptorOfOneConfig(node: Node)
    requires |node.data| >= DEVICE_DESC_LENGTH && node.data[..DEVICE_DESC_LENGTH] == OneConfig
    ensures ReadFd(3, node, 0, DEVICE_DESC_LENGTH) == Got(DEVICE_DESC_LENGTH, OneConfig)
    ensures Full(ReadAt(node, 0, DEVICE_DESC_LENGTH), DEVICE_DESC_LENGTH)
    ensures ReadAt(node, 0, DEVICE_DESC_LENGTH).bytes == OneConfig
    ensures ParseDeviceDescriptor(Fill(OneConfig, OneConfig)).bNumConfigurations == 1
  {
    assert Fill(OneConfig, OneConfig) == OneConfig;
  }

  lemma FailedHeaderLoop(node: Node)
    requires node == Node(OneConfig, true)
    ensures ConfigLoopAsWritten(3, node, DEVICE_DESC_LENGTH, 1, [0, 0, 8, 0, 0, 0, 0, 0], [DEVICE_DESC_LENGTH], false)
         == LoopEnd(None, [DEVICE_DESC_LENGTH, CONFIG_HEADER_LENGTH, 0], false)
    ensures ConfigsAfter(node, 1) == Aborted([DEVICE_DESC_LENGTH, CONFIG_HEADER_LENGTH])
  {
    var header: seq<byte> := [0, 0, 8, 0, 0, 0, 0, 0];
    assert ReadFd(3, node, DEVICE_DESC_LENGTH, CONFIG_HEADER_LENGTH) == Got(-1, []);
    assert SizeT(-1) == SIZE_T_RANGE - 1;
    assert Fill([], header) == header;
    assert TotalLength(header) == 8;
    assert ReadFd(3, node, DEVICE_DESC_LENGTH, 0) == Got(0, []);
  }

  /** A header declaring wTotalLength 4 makes wTotalLength - 8 negative:
      the 8-byte header is copied into a 4-byte buffer, the body read asks
      for 2^64 - 4 bytes and fails, -1 is not below -4, and the device is
      registered. */
  lemma ShortTotalLengthAsWritten()
    ensures var node := Node(OneConfig + [0, 0, 4, 0, 0, 0, 0, 0], false);
      && ScanDeviceAsWritten(3, node, OneConfig, seq(8, _ => 0))
         == Outcome(0, [DEVICE_DESC_LENGTH, CONFIG_HEADER_LENGTH, SIZE_T_RANGE - 4], true, true, true)
      && FetchDevice(node) == Rejected([DEVICE_DESC_LENGTH, CONFIG_HEADER_LENGTH])
  {
    var node := Node(OneConfig + [0, 0, 4, 0, 0, 0, 0, 0], false);
    assert node.data[..DEVICE_DESC_LENGTH] == OneConfig;
    DescriptorOfOneConfig(node);
    ShortTotalLengthLoop(node);
  }

  lemma ShortTotalLengthLoop(node: Node)
    requires node == Node(OneConfig + [0, 0, 4, 0, 0, 0, 0, 0], false)
    ensures ConfigLoopAsWritten(3, node, DEVICE_DESC_LENGTH, 1, seq(8, _ => 0), [DEVICE_DESC_LENGTH], false)
         == LoopEnd(None, [DEVICE_DESC_LENGTH, CONFIG_HEADER_LENGTH, SIZE_T_RANGE - 4], true)
    ensures ConfigsAfter(node, 1) == Aborted([DEVICE_DESC_LENGTH, CONFIG_HEADER_LENGTH])
  {
    var header: seq<byte> := [0, 0, 4, 0, 0, 0, 0, 0];
    assert node.data[DEVICE_DESC_LENGTH..DEVICE_DESC_LENGTH + CONFIG_HEADER_LENGTH] == header;
    assert ReadAt(node, DEVICE_DESC_LENGTH, CONFIG_HEADER_LENGTH) == ReadOk(header);
    assert ReadFd(3, node, DEVICE_DESC_LENGTH, CONFIG_HEADER_LENGTH) == Got(8, header);
    assert Fill(header, seq(8, _ => 0)) == header;
    assert TotalLength(header) == 4;
    assert SizeT(-4) == SIZE_T_RANGE - 4;
    assert ReadFd(3, node, DEVICE_DESC_LENGTH + CONFIG_HEADER_LENGTH, SIZE_T_RANGE - 4) == Got(-1, []);
  }

  /** A short header read jumps to the error path with r holding the byte
      count: scan_device returns 5 and does not register the device. */
  lemma ShortHeaderAsWritten()
    ensures var node := Node(OneConfig + [1, 2, 3, 4, 5], false);
      && ScanDeviceAsWritten(3, node, OneConfig, seq(8, _ => 0))
         == Outcome(5, [DEVICE_DESC_LENGTH, CONFIG_HEADER_LENGTH], false, true, false)
  {
    var tail: seq<byte> := [1, 2, 3, 4, 5];
    var node := Node(OneConfig + tail, false);
    assert node.data[..DEVICE_DESC_LENGTH] == OneConfig;
    assert ReadFd(3, node, 0, DEVICE_DESC_LENGTH).bytes == OneConfig;
    assert Fill(OneConfig, OneConfig) == OneConfig;
    assert node.data[DEVICE_DESC_LENGTH..] == tail;
    assert ReadFd(3, node, DEVICE_DESC_LENGTH, CONFIG_HEADER_LENGTH) == Got(5, tail);
    assert ParseDeviceDescriptor(OneConfig).bNumConfigurations == 1;
  }

  /** A short configuration-body read jumps to the error path the same way:
      with wTotalLength 12 and only 2 body bytes left, scan_device returns 2
      and does not register the device. */
  lemma ShortBodyAsWritten()
    ensures var node := Node(OneConfig + [0, 0, 12, 0, 0, 0, 0, 0] + [7, 7], false);
      && ScanDeviceAsWritten(3, node, OneConfig, seq(8, _ => 0))
         == Outcome(2, [DEVICE_DESC_LENGTH, CONFIG_HEADER_LENGTH, 4], false, true, false)
  {
    var header: seq<byte> := [0, 0, 12, 0, 0, 0, 0, 0];
    var body: seq<byte> := [7, 7];
    var node := Node(OneConfig + header + body, false);
    assert node.data[..DEVICE_DESC_LENGTH] == OneConfig;
    assert ReadFd(3, node, 0, DEVICE_DESC_LENGTH).bytes == OneConfig;
    assert Fill(OneConfig, OneConfig) == OneConfig;
    assert ParseDeviceDescriptor(OneConfig).bNumConfigurations == 1;
    assert node.data[DEVICE_DESC_LENGTH..DEVICE_DESC_LENGTH + CONFIG_HEADER_LENGTH] == header;
    assert ReadFd(3, node, DEVICE_DESC_LENGTH, CONFIG_HEADER_LENGTH) == Got(8, header);
    assert Fill(header, seq(8, _ => 0)) == header;
    assert TotalLength(header) == 12;
    assert |node.data| == 28 && node.data[26..28] == body;
    assert ReadAt(node, 26, 4) == ReadOk(body);
    assert ReadFd(3, node, DEVICE_DESC_LENGTH + CONFIG_HEADER_LENGTH, 4) == Got(2, body);
  }

  /** libusb_open's check as written: a handle for every descriptor but 0. */
  function OpenAsWritten(fd: int): (h: Option<int>)
    ensures h.None? <==> fd == 0
    ensures h.Some? ==> h.value == fd
  {
    if fd == 0 then None else Some(fd)
  }

  /** A failed open yields a handle on descriptor -1, and a successful
      open that returns descriptor 0 yields none. */
  lemma OpenCheckAsWritten()
    ensures OpenAsWritten(-1) == Some(-1)
    ensures OpenAsWritten(0) == None
  {
  }

  /** libusb_get_pollfds's fill loop as written, over the descriptors of
      open_devs in order: the post-increment stores each descriptor in
      entry i but its POLLOUT in entry i + 1. The array has one slot past
      the cnt that calloc provides, to hold the write beyond its end. */
  method GetPollFdsAsWritten(fds: seq<int>) returns (ret: array<PollFd>)
    ensures ret.Length == |fds| + 1
    ensures forall k :: 0 <= k < |fds| ==> ret[k].fd == fds[k]
    ensures |fds| > 0 ==> ret[0].events == 0
    ensures forall k :: 1 <= k <= |fds| ==> ret[k].events == POLLOUT
    ensures ret[|fds|].fd == 0
  {
    ret := new PollFd[|fds| + 1](_ => PollFd(0, 0));
    var i := 0;
    while i < |fds|
      invariant 0 <= i <= |fds|
      invariant forall k :: 0 <= k < i ==> ret[k].fd == fds[k]
      invariant i > 0 ==> ret[0].events == 0
      invariant forall k :: 1 <= k <= i ==> ret[k].events == POLLOUT
      invariant forall k :: i < k <= |fds| ==> ret[k] == PollFd(0, 0)
      invariant forall k :: i <= k <= |fds| ==> ret[k].fd == 0
      invariant i == 0 ==> ret[0] == PollFd(0, 0)
    {
      ret[i] := ret[i].(fd := fds[i]);
      i := i + 1;
      ret[i] := ret[i].(events := POLLOUT);
    }
  }
}
