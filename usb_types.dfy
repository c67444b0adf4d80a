/** Values shared by the whole model: bytes and words, the constants the
    core relies on, the two USB descriptor layouts it decodes, the poll
    entry it exports and the system calls it issues. */
module UsbTypes {

  type byte = b: int | 0 <= b < 256
  type word = w: int | 0 <= w < 0x1_0000

  datatype Option<T> = None | Some(value: T)

  /** Length in bytes of a standard device descriptor (section 9.6.1 of the USB 2.0 specification). */
  const DEVICE_DESC_LENGTH: nat := 18
  /** Bytes probed first from every configuration: enough for bLength, bDescriptorType and wTotalLength. */
  const CONFIG_HEADER_LENGTH: nat := 8
  /** Largest configuration count the scanner accepts. */
  const USB_MAXCONFIG: nat := 8
  /** Root of the usbfs bus hierarchy. */
  const USBFS_PATH: string := "/dev/bus/usb"
  /** The poll(2) interest bit for write-readiness on Linux. */
  const POLLOUT: int := 4

  /** Device descriptor decoded with the field layout "bbWbbbbWWWbbbb". */
  datatype DeviceDescriptor = DeviceDescriptor(
    bLength: byte,
    bDescriptorType: byte,
    bcdUSB: word,
    bDeviceClass: byte,
    bDeviceSubClass: byte,
    bDeviceProtocol: byte,
    bMaxPacketSize0: byte,
    idVendor: word,
    idProduct: word,
    bcdDevice: word,
    iManufacturer: byte,
    iProduct: byte,
    iSerialNumber: byte,
    bNumConfigurations: byte)

  /** A configuration as handed to the configuration parser: the complete
      buffer, header included. The parser itself is not part of this model,
      so the parsed configuration is represented by the bytes it was given. */
  datatype ConfigDescriptor = ConfigDescriptor(raw: seq<byte>)

  /** One entry of the poll snapshot (struct libusb_pollfd). */
  datatype PollFd = PollFd(fd: int, events: int)

  /** The system calls the core issues on device-node descriptors, in order. */
  datatype Syscall =
    | Read(fd: int, count: nat)
    | CloseFd(fd: int)
    | AddPollFd(fd: int, events: int)
    | RemovePollFd(fd: int)

  /** Little-endian 16-bit word at offset i. */
  function Word(s: seq<byte>, i: nat): (w: word)
    requires i + 2 <= |s|
    ensures w % 256 == s[i] && w / 256 == s[i + 1]
  {
    s[i] as int + 256 * (s[i + 1] as int)
  }

  /** The two bytes of w, low byte first. */
  function WordBytes(w: word): (s: seq<byte>)
    ensures |s| == 2 && Word(s, 0) == w
  {
    [w % 256, w / 256]
  }

  /** Decodes the fixed-length device descriptor. */
  function ParseDeviceDescriptor(raw: seq<byte>): DeviceDescriptor
    requires |raw| == DEVICE_DESC_LENGTH
  {
    DeviceDescriptor(raw[0], raw[1], Word(raw, 2), raw[4], raw[5], raw[6], raw[7],
                     Word(raw, 8), Word(raw, 10), Word(raw, 12),
                     raw[14], raw[15], raw[16], raw[17])
  }

  /** Lays a device descriptor out in the format ParseDeviceDescriptor reads. */
  function EncodeDeviceDescriptor(d: DeviceDescriptor): (raw: seq<byte>)
    ensures |raw| == DEVICE_DESC_LENGTH
  {
    [d.bLength, d.bDescriptorType] + WordBytes(d.bcdUSB)
    + [d.bDeviceClass, d.bDeviceSubClass, d.bDeviceProtocol, d.bMaxPacketSize0]
    + WordBytes(d.idVendor) + WordBytes(d.idProduct) + WordBytes(d.bcdDevice)
    + [d.iManufacturer, d.iProduct, d.iSerialNumber, d.bNumConfigurations]
  }

  lemma DescriptorRoundTrip(d: DeviceDescriptor)
    ensures ParseDeviceDescriptor(EncodeDeviceDescriptor(d)) == d
  {
  }

  lemma {:induction false} RawDescriptorRoundTrip(raw: seq<byte>)
    requires |raw| == DEVICE_DESC_LENGTH
    ensures EncodeDeviceDescriptor(ParseDeviceDescriptor(raw)) == raw
  {
    var d := ParseDeviceDescriptor(raw);
    var e := EncodeDeviceDescriptor(d);
    forall k | 0 <= k < DEVICE_DESC_LENGTH ensures e[k] == raw[k] {
      WordSplit(raw, 2);
      WordSplit(raw, 8);
      WordSplit(raw, 10);
      WordSplit(raw, 12);
    }
  }

  lemma WordSplit(s: seq<byte>, i: nat)
    requires i + 2 <= |s|
    ensures WordBytes(Word(s, i)) == s[i..i + 2]
  {
  }

  /** wTotalLength of a configuration, read from bytes 2 and 3 of its
      header (layout "bbw", section 9.6.3 of the USB 2.0 specification). */
  function TotalLength(header: seq<byte>): (total: word)
    requires |header| >= 4
    ensures total % 256 == header[2] && total / 256 == header[3]
  {
    Word(header, 2)
  }

  /** The configuration parser, applied to a fully assembled buffer. */
  function ParseConfiguration(buffer: seq<byte>): (c: ConfigDescriptor)
    ensures c.raw == buffer
  {
    ConfigDescriptor(buffer)
  }

  /** A configuration whose header declares exactly its own length. */
  predicate SelfDescribing(c: ConfigDescriptor)
  {
    |c.raw| >= CONFIG_HEADER_LENGTH && TotalLength(c.raw) == |c.raw|
  }

  /** "%s/%s": a directory path and one of its entries. */
  function JoinPath(dir: string, name: string): string
  {
    dir + "/" + name
  }

  /** Two entries of one directory have the same path only when they are
      the same entry. */
  lemma JoinPathInjective(dir: string, a: string, b: string)
    ensures JoinPath(dir, a) == JoinPath(dir, b) <==> a == b
  {
    if JoinPath(dir, a) == JoinPath(dir, b) {
      assert a == JoinPath(dir, a)[|dir| + 1..];
      assert b == JoinPath(dir, b)[|dir| + 1..];
    }
  }

  /** Directory entries whose name starts with '.' are skipped. */
  predicate IsHidden(name: string)
  {
    |name| > 0 && name[0] == '.'
  }
}
