# libusb core: device discovery, handle registry and poll snapshot

This project models the core of the early libusb `libusb/core.c` in Dafny and proves properties of the model. That core keeps two process-wide registries: `usb_devs`, the devices found under usbfs, and `open_devs`, the open device handles.

- **Discovery.** `libusb_find_devices` walks the bus directories of `/dev/bus/usb`. `scan_busdir` walks the device nodes of one bus. `scan_device` reads one node. It reads the 18-byte device descriptor, checks that `bNumConfigurations` lies in 1..8, then reads each configuration in two phases: an 8-byte header, then the remaining `wTotalLength - 8` bytes. A device goes into the registry only when every step succeeds.
- **Iteration.** `libusb_get_devices` and `libusb_dev_next` walk the device registry.
- **Handle lifecycle.** `libusb_open` opens a device node, links a handle and registers its descriptor for `POLLOUT`. `do_close` and `libusb_close` undo that. `libusb_exit` closes every handle still open.
- **Poll snapshot.** `libusb_get_pollfds` copies one poll entry per open handle.

The project has five modules:

- `UsbTypes` (`usb_types.dfy`): bytes, words, the constants, and the device-descriptor layout with its round trip.
- `Fetch` (`fetch.dfy`): the two-phase read protocol of `scan_device`, as functions over a device node (`FetchDevice`). The lemmas prove:
  - what a fetched device is;
  - that a node holding a well-formed encoding is read back exactly;
  - that truncated or malformed nodes are rejected.
- `Scanner` (`scanner.dfy`): the outcome of the whole bus walk, as functions over a snapshot of usbfs. The lemmas prove exactly which devices are found and which node paths are tried.
- `Core` (`core.dfy`): the imperative part.
  - Class `Context` holds the two registries, the poll set and a log of the system calls issued. Its methods are the library's entry points, each proved against the functions above.
  - `FetchDescriptors`, `ReadConfigs` and `ReadConfig` are the read loop of `scan_device`. They are proved equal to `FetchDevice`.
- `AsWritten` (`as_written.dfy`): the checks that behave differently from what the code evidently intends, modelled as written, with concrete inputs that show each difference (see "## Findings"). The other modules model the corrected behaviour.

The operating system is a parameter. A `UsbFs` value says:

- what `opendir`/`readdir` list;
- which descriptor `open` returns for each path;
- which bytes each device node yields.

A `Node` is a byte stream. `read` returns the next `min(count, remaining)` bytes, and fails only when count > 0 and nothing is left of an unplugged device. A read of 0 bytes returns 0.

`list_add` inserts at the head of a list (the kernel-style list of `libusbi.h`, which is not part of this model). So both registries hold the newest entry first, and every contract here is stated that way. The device walk therefore visits the last device found first, and the poll snapshot lists the newest handle first.

## Model

| member | source | states |
|---|---|---|
| UsbTypes.Word | libusb/core.c:72 | a little-endian `W` field: low byte is the word mod 256, high byte the word div 256 |
| UsbTypes.ParseDeviceDescriptor | libusb/core.c:72 | the "bbWbbbbWWWbbbb" decode of the 18 bytes read: the body is the model; DescriptorRoundTrip and RawDescriptorRoundTrip prove it loses nothing and inverts the encoding |
| UsbTypes.TotalLength | libusb/core.c:107 | the "bbw" decode of a configuration header: `wTotalLength` is the little-endian word in bytes 2 and 3 |
| UsbTypes.JoinPath | libusb/core.c:56 | `"%s/%s"`: the directory path, a '/', then the entry name (the body is the model) |
| UsbTypes.JoinPathInjective | libusb/core.c:152-164 | two entries of one directory give the same node path only when they are the same entry |
| UsbTypes.IsHidden | libusb/core.c:161 | an entry is skipped exactly when its first character is '.'; the body is the model, and an empty name is not skipped |
| UsbTypes.ParseConfiguration | libusb/core.c:124 | stands in for `usbi_parse_configuration`: the configuration keeps exactly the assembled buffer it was given |
| UsbTypes.DescriptorRoundTrip | libusb/core.c:72 | decoding the "bbWbbbbWWWbbbb" layout of an encoded device descriptor gives back every field |
| UsbTypes.RawDescriptorRoundTrip | libusb/core.c:72 | every 18-byte buffer is the encoding of the descriptor decoded from it: decoding loses nothing |
| Fetch.ReadAt | libusb/core.c:65-69 | a read returns at most the count asked for, the next bytes of the stream; it is short only at the end of the stream, and fails exactly when more than 0 bytes are asked for and nothing is left of an unplugged device |
| Fetch.FetchConfig | libusb/core.c:100-127 | one iteration only appends to the requests issued; after a failed read nothing changes; a successful iteration adds one configuration and moves the cursor by at least a header |
| Fetch.ConfigsAfter | libusb/core.c:96-128 | after i iterations the first request is still the 18-byte device-descriptor read; a loop still running holds exactly i configurations, with the cursor at least 8 bytes per configuration past the descriptor |
| Fetch.FetchDevice | libusb/core.c:65-128 | the first request is always the 18-byte device-descriptor read; a fetched device has exactly `bNumConfigurations` configurations, between 1 and 8, and consumed at least 18 bytes plus 8 per configuration |
| Fetch.AbortedStays | libusb/core.c:101-122 | once a read fails (`goto err`), later iterations change nothing |
| Fetch.FetchConfigStep | libusb/core.c:100-127 | a successful iteration consumes exactly one configuration at the cursor, whose header declares its own length, with one 8-byte and one `wTotalLength - 8` request |
| Fetch.FetchConfigReadsBack | libusb/core.c:100-127 | conversely, a self-describing configuration at the cursor is read back whole and the cursor moves past it |
| Fetch.ConfigsAfterLayout | libusb/core.c:96-128 | while the loop runs, the configurations read so far tile the stream after the device descriptor, each self-describing, with two requests each |
| Fetch.ShortDescriptorRejected | libusb/core.c:65-70 | a short or failed device-descriptor read rejects the device with no configuration read issued |
| Fetch.BadConfigCountRejected | libusb/core.c:75-85 | `bNumConfigurations` above 8 or below 1 rejects the device with no configuration read issued |
| Fetch.FetchedLayout | libusb/core.c:65-128 | a fetched device is well formed (count in 1..8, that many self-describing configurations) and is exactly the bytes its node holds, read with the two-phase pattern |
| Fetch.ConfigsAfterEncoded | libusb/core.c:96-128 | on a node holding encoded configurations, loop state after i iterations is exactly the first i configurations and their requests |
| Fetch.FetchEncoded | libusb/core.c:65-128 | round trip: a node holding the encoding of a well-formed device, followed by anything, is fetched as exactly that device, consuming exactly its encoding |
| Fetch.ReadTruncated | libusb/core.c:65-69 | a read that was full stays the same on a truncated stream that still holds it, and is short or fails once it crosses the end |
| Fetch.FetchConfigTruncated | libusb/core.c:100-122 | one iteration on a truncated node agrees with the full node or aborts |
| Fetch.ConfigsAfterTruncated | libusb/core.c:96-128 | on a truncated node the loop agrees with the full node up to the truncation point and aborts after it |
| Fetch.TruncatedNodeRejected | libusb/core.c:65-128 | a node cut before the last byte a successful fetch needs is rejected: no partial device is produced |
| Scanner.Visit | libusb/core.c:161-164 | one readdir entry: nothing when its name starts with '.' (`continue`), otherwise what scanning it yields; the body is the model, and NewestFound and Visible state its effect on the walk |
| Scanner.OpenNode | libusb/core.c:58 | `open(path, O_RDWR)` answered from the snapshot: the body is the model, and a path missing from it gives -1 |
| Scanner.ScanOutcome | libusb/core.c:43-144 | `scan_device` adds at most one device, recorded at the node path it tried, only when that node opened, with exactly `bNumConfigurations` configurations, between 1 and 8 |
| Scanner.ScanTrace | libusb/core.c:58-144 | no call is issued on a node exactly when its open fails; otherwise the first call reads the 18-byte descriptor and the last closes the descriptor |
| Scanner.ReadTraceShape | libusb/core.c:96-128 | the k-th read issued on the node asks for the k-th byte count of the fetch |
| Scanner.Newest | libusb/core.c:135 | the walk with head insertion (`list_add`); the body is the model, and NewestAppend, NewestFound and NewestSameResults state its properties |
| Scanner.InOrder | libusb/core.c:160-165 | the paths tried and calls issued, in readdir order; the body is the model, and InOrderAppend, NewestFound and InOrderVisible state its properties |
| Scanner.NewestSameResults | libusb/core.c:135 | head insertion yields exactly what appending in readdir order yields over the entries reversed, and so the same results as readdir order (as a multiset) |
| Scanner.NewestAppend | libusb/core.c:160-165 | with head insertion, walking entries a then b leaves b's devices in front of a's; a failing entry does not stop the walk |
| Scanner.InOrderAppend | libusb/core.c:160-165 | the node paths tried and the system calls issued by walking a then b are a's followed by b's |
| Scanner.NewestFound | libusb/core.c:160-165 | a walk yields exactly the results of its entries that do not start with '.' |
| Scanner.Visible | libusb/core.c:160-162 | the entries walked are exactly those readdir lists that do not start with '.' |
| Scanner.BusPathsVisible | libusb/core.c:152-165 | every entry of a bus directory not starting with '.' is tried, in readdir order, at "dirpath/name", and no other is |
| Scanner.BusDir | libusb/core.c:152 | the bus directory path `USBFS_PATH/busnum`, built with `"%s/%s"`; the body is the model |
| Scanner.BusPart | libusb/core.c:146-168 | nothing when the bus directory does not open, otherwise at most one device per directory entry |
| Scanner.NewestAtMostOne | libusb/core.c:160-165 | a walk whose entries each add at most one device adds at most one per entry |
| Scanner.BusPartFound | libusb/core.c:146-168 | a bus contributes exactly the devices at a non-hidden entry whose node opens and whose fetch succeeds |
| Scanner.AllDevices | libusb/core.c:170-191 | what `libusb_find_devices` adds to the registry: each non-hidden bus's `BusPart`, the last bus's first; the body is the model, and AllDevicesFound characterises its members |
| Scanner.AllDevicesFound | libusb/core.c:170-191 | the whole walk finds exactly the devices of non-hidden buses whose directory opens, at non-hidden entries whose fetch succeeds; a failing bus or device hides no other |
| Core.Device.constructor | libusb/core.c:47-130 | a `struct libusb_dev` holding the decoded device descriptor, the configurations read and the node path, set once before it is linked |
| Core.Handle.constructor | libusb/core.c:232-239 | a `struct libusb_dev_handle` holding the open descriptor and the device it was opened on |
| Core.Context.constructor | libusb/core.c:291-299 | `libusb_init`: both registries empty, nothing polled |
| Core.Context.ScanDevice | libusb/core.c:43-144 | the registry gains the fetched device at its head exactly when the open and the fetch succeed; returns 0 then and -1 otherwise; the reads follow the fetch's requests and the descriptor is closed exactly when it was opened |
| Core.Context.AddDevice | libusb/core.c:135 | `list_add`: a fresh device at the head of `usb_devs`, the rest unchanged |
| Core.Context.ScanBusdir | libusb/core.c:146-168 | -1 exactly when the bus directory does not open; otherwise the registry gains `BusPart` in front of the device objects already there, which stay unchanged and in order, and the paths tried and calls issued are those of every non-hidden entry in order |
| Core.Context.ScanEntry | libusb/core.c:160-165 | one readdir entry: skipped when it starts with '.', scanned otherwise; the device objects already registered stay, in order, behind any new one |
| Core.Context.FindDevices | libusb/core.c:170-191 | -1 exactly when the usbfs root does not open, with nothing changed; otherwise the registry gains `AllDevices` in front of the device objects already there, which stay unchanged and in order, whatever individual buses and devices do |
| Core.Context.BusEntry | libusb/core.c:182-188 | one root entry: skipped when it starts with '.', its bus scanned otherwise; the device objects already registered stay, in order, behind any new one |
| Core.Context.GetDevices | libusb/core.c:193-198 | null exactly when the registry is empty, its head otherwise |
| Core.Context.DevNext | libusb/core.c:200-206 | null exactly after the last device, otherwise the device right after `dev` |
| Core.Context.WalkVisitsAll | libusb/core.c:193-206 | `libusb_get_devices` then `libusb_dev_next` visit every registered device once, in registry order, then stop |
| Core.Context.Open | libusb/core.c:220-243 | a failed open (negative descriptor) changes nothing and gives null; otherwise a fresh handle on that descriptor heads `open_devs` and its descriptor is polled for `POLLOUT` |
| Core.Context.DoClose | libusb/core.c:245-249 | the descriptor leaves the poll set, then it is closed, in that order |
| Core.Context.Close | libusb/core.c:251-260 | null is ignored; otherwise exactly that handle leaves `open_devs`, the others keep their order, and exactly its poll entry goes |
| Core.Context.Exit | libusb/core.c:301-310 | every open handle is closed, in registry order, and nothing is polled afterwards |
| Core.Context.GetPollFds | libusb/core.c:312-336 | one entry per open handle, in registry order, each with `POLLOUT`; as a set they are exactly the poll set |
| Core.FetchDescriptors | libusb/core.c:65-128 | the reads of `scan_device` on an open node compute `FetchDevice` |
| Core.ReadConfigs | libusb/core.c:96-128 | the configuration loop, stopping at the first failed iteration, computes `ConfigsAfter` |
| Core.ReadConfig | libusb/core.c:100-127 | one iteration computes `FetchConfig` and reports the byte counts it requested |
| Core.NewBuffer | libusb/core.c:109-114 | `malloc(wTotalLength)` then `memcpy` of the header: a fresh buffer of that size starting with the header |
| Core.CopyAt | libusb/core.c:116-117 | the body read fills the buffer after the header and leaves the header alone |
| Core.Without | libusb/core.c:257 | `list_del`: the list loses exactly one occurrence of the handle (as a multiset) |
| Core.WithoutRemovesExactlyOne | libusb/core.c:257 | `list_del` of a member of a duplicate-free list removes exactly it and keeps the rest duplicate-free |
| Core.FdsValidWithout | libusb/core.c:257 | unlinking a handle keeps the open descriptors distinct and non-negative |
| Core.HandlesWithout | libusb/core.c:257 | the handles left after unlinking h are exactly those on another descriptor |
| Core.WithoutFd | libusb/core.c:247 | `usbi_remove_pollfd(fd)`: the poll set without the entries on fd; the body is the model, and PollSetWithout proves that closing a handle removes exactly its entry |
| Core.PollSetWithout | libusb/core.c:257-258 | closing a handle removes exactly its poll entry, as `usbi_remove_pollfd` on its descriptor |
| Core.PollSetDrop | libusb/core.c:307-308 | while `libusb_exit` closes the handles in order, the poll set is that of the handles not yet closed |
| Core.SnapshotIsPollSet | libusb/core.c:329-332 | one `POLLOUT` entry per open handle is, as a set, exactly the poll set |
| Core.CloseTraceShape | libusb/core.c:307-308 | `libusb_exit` issues, per handle in order, one poll removal followed by one close |
| AsWritten.SizeT | libusb/core.c:102 | an int converted to size_t wraps modulo 2^64: -1 becomes 2^64 - 1 |
| AsWritten.ReadFd | libusb/core.c:65-66 | `read` as `scan_device` sees it: -1, or a byte count no larger than asked that matches the bytes delivered; a negative descriptor, a count above SSIZE_MAX (the size_t of a negative `tmp`) or a failed read gives -1, otherwise the bytes are exactly the node's next ones |
| AsWritten.Fill | libusb/core.c:65 | a read into a stack buffer replaces only the bytes delivered; the rest keeps what it held |
| AsWritten.ConfigLoopAsWritten | libusb/core.c:96-128 | the configuration loop as written: it only appends requests, an overrun once seen stays seen, and a loop that runs to the end issues two requests per configuration |
| AsWritten.ScanDeviceAsWritten | libusb/core.c:43-144 | `scan_device` as written: the descriptor is closed exactly when it is not 0 (so -1 is closed too); the first request is the 18-byte descriptor read; a registered device returns 0 after 3 to 17 requests |
| AsWritten.FailedOpenAsWritten | libusb/core.c:58-68 | as written, a failed open (-1) passes the `!fd` test: the descriptor read is issued on -1 and -1 is closed |
| AsWritten.ShortDescriptorAsWritten | libusb/core.c:65-85 | as written, a 10-byte node is not rejected: the count comes from stale stack bytes and a header read follows, where the corrected fetch issues only the descriptor read |
| AsWritten.FailedHeaderReadAsWritten | libusb/core.c:101-105 | as written, a failed header read (-1) passes the size_t comparison and a device with a configuration of stale bytes is registered |
| AsWritten.ShortTotalLengthAsWritten | libusb/core.c:109-122 | as written, `wTotalLength` 4 makes `tmp` negative: the 8-byte header overruns the 4-byte buffer, a read of 2^64 - 4 bytes is issued and the device is registered |
| AsWritten.ShortHeaderAsWritten | libusb/core.c:101-104 | as written, a 5-byte header read makes `scan_device` return 5 and not register the device; core.c:141 frees only when the result is negative |
| AsWritten.ShortBodyAsWritten | libusb/core.c:116-121 | as written, a header declaring `wTotalLength` 12 followed by only 2 body bytes makes `scan_device` return 2 and not register the device |
| AsWritten.OpenAsWritten | libusb/core.c:226-230 | `libusb_open`'s test as written: no handle exactly when the descriptor is 0, otherwise a handle on that descriptor |
| AsWritten.OpenCheckAsWritten | libusb/core.c:226-230 | as written, a failed open (-1) yields a handle and a successful open on descriptor 0 yields none |
| AsWritten.GetPollFdsAsWritten | libusb/core.c:329-332 | as written, entry k gets the k-th descriptor but the k-th `POLLOUT` lands in entry k + 1: the first entry has no events and one write lands past the array's end |

## Left out

- Paths are joined without the `snprintf` truncation at `PATH_MAX`: `JoinPath` never truncates. Only paths longer than `PATH_MAX` would differ.
- The OS calls `open`, `read`, `close`, `opendir` and `readdir` are not modelled as calls. Their results come from a `UsbFs` snapshot and a deterministic `Node` stream. Signals, `errno`, concurrent unplugging during the walk, and reads that return less than is available are not modelled.
- Every allocation succeeds. Failures of `malloc`, `calloc` and `strdup` are not modelled, and neither is the `-ENOMEM` return of `libusb_get_pollfds`.
- `usbi_parse_configuration` is not part of this model. A configuration is kept as the buffer handed to the parser. The parser's "data still left" result and its warning are ignored, as the code ignores them.
- The fields of the device descriptor are decoded; the descriptor parser `usbi_parse_descriptor` is modelled only for the two layouts this file uses.
- Logging (`usbi_dbg`, `usbi_err`, `usbi_warn`, `usbi_log`) is left out.
- `usbi_io_init` and the internals of the poll registry are left out. The poll set is a ghost set of entries.
- Values whose definitions are outside this model are taken as given: `DEVICE_DESC_LENGTH` 18, `USB_MAXCONFIG` 8 and `USBFS_PATH` "/dev/bus/usb" from `libusbi.h`; little-endian decoding for both the 'W' and the 'w' letters of `usbi_parse_descriptor`; a 64-bit `size_t` and `SSIZE_MAX` 2^63 - 1 in `AsWritten`.
- Memory release (`free`) is left out. Handles and devices are garbage-collected objects.
- The accessors `libusb_dev_get_descriptor`, `libusb_dev_get_config` and `libusb_devh_get_dev` are left out, and so are `libusb_claim_interface` and `libusb_release_interface`. They are one-line field reads or `ioctl` calls outside this core.
- The int that holds `read`'s `ssize_t` result is assumed wide enough for the byte counts involved (at most 65535).
- Core.Context.Open: requires that the descriptor `open` returns is not one an open handle already holds. The OS guarantees this for live descriptors; the model takes it as given.
- Core.Context.Close: requires the handle to be on `open_devs`. The code's `list_del` on any other handle is undefined.
- Core.Context.Exit: does not re-establish `Valid()`: the closed handles stay linked on `open_devs`, as the code neither unlinks nor frees them.
- AsWritten.ConfigLoopAsWritten: the stale header buffer has the same contents on every iteration. The real stack buffer would hold the previous iteration's header.

## Findings

| source | as written | input that shows it | evidently intended | confidence | as-written member | corrected member |
|---|---|---|---|---|---|---|
| libusb/core.c:58-63 | `if (!fd)` treats only descriptor 0 as an open failure, but `open` reports failure as -1 | a node whose open fails: `read(-1, …, 18)` and `close(-1)` are issued | fail when `fd < 0`, issue no read or close | not executed | AsWritten.FailedOpenAsWritten | Core.Context.ScanDevice |
| libusb/core.c:226-230 | the same `!fd` test in `libusb_open` | open fails with -1: a handle on descriptor -1 is linked and -1 is polled; open succeeds with 0: no handle | return NULL exactly when `fd < 0` | not executed | AsWritten.OpenCheckAsWritten | Core.Context.Open |
| libusb/core.c:65-70 | a short device-descriptor read is accepted, and the rest of `raw_desc` keeps stale stack bytes | a 10-byte node, with the stack holding a descriptor whose count is 1: a configuration header read follows | reject the device after the short read | not executed | AsWritten.ShortDescriptorAsWritten | Fetch.ShortDescriptorRejected |
| libusb/core.c:101-102 | `r < sizeof(buffer)` compares an int with a size_t, so `r = -1` is not below 8 | an unplugged node holding only a descriptor with count 1, and a stale header declaring `wTotalLength` 8: the failed header read passes, the body read then asks for 0 bytes, which under this model's reads returns 0 even at the end of an unplugged stream (on a real disconnected device it could fail with -1 and reject the device; the size_t comparison passes -1 either way), and a device with a stale configuration is registered | treat `r < 8`, including -1, as failure | not executed | AsWritten.FailedHeaderReadAsWritten | Fetch.FetchedLayout |
| libusb/core.c:109-118 | `wTotalLength` below 8 is not rejected | header declaring `wTotalLength` 4: the 8-byte copy overruns a 4-byte buffer, a read of 2^64 - 4 bytes is issued, and the device is registered | reject a configuration shorter than its header | not executed | AsWritten.ShortTotalLengthAsWritten | Fetch.FetchedLayout |
| libusb/core.c:101-104 | a short read jumps to `err` with `r` holding a non-negative byte count | node with a descriptor (count 1) and a 5-byte header: `scan_device` returns 5 and does not register the device; a header declaring `wTotalLength` 12 followed by 2 body bytes returns 2 the same way | return -1 and release the device | not executed | AsWritten.ShortHeaderAsWritten | Core.Context.ScanDevice |
| libusb/core.c:329-332 | `ret[i++].fd = …; ret[i].events = POLLOUT;` increments between the two writes | one open handle on descriptor 7: the snapshot is `{7, 0}`, and `POLLOUT` is written one past the end | both fields of the same entry | not executed | AsWritten.GetPollFdsAsWritten | Core.Context.GetPollFds |
