/** The two-phase descriptor fetch of scan_device, stated as functions over
    a device node: the fixed-length device descriptor, the bounds check on
    bNumConfigurations, then for every configuration an 8-byte header probe
    followed by a read of the remaining wTotalLength - 8 bytes. */
module Fetch {
  import opened UsbTypes

  /** What a freshly opened device node yields to successive requests: its
      bytes in order, and whether reading past them fails (the device was
      unplugged) or merely returns nothing. */
  datatype Node = Node(data: seq<byte>, unplugged: bool)

  datatype Reply = ReadError | ReadOk(bytes: seq<byte>)

  /** read(fd, buf, count) with the node's cursor at pos: at most count
      bytes, the next ones in the stream; an error only when count > 0
      and nothing is left of an unplugged device. */
  function ReadAt(node: Node, pos: nat, count: nat): (r: Reply)
    ensures r.ReadOk? ==> |r.bytes| <= count
    ensures r.ReadOk? && |r.bytes| > 0 ==> pos + |r.bytes| <= |node.data| && r.bytes == node.data[pos..pos + |r.bytes|]
    ensures r.ReadOk? && |r.bytes| < count ==> pos + |r.bytes| >= |node.data|
    ensures r.ReadError? <==> count > 0 && pos >= |node.data| && node.unplugged
  {
    var avail := if pos <= |node.data| then |node.data| - pos else 0;
    if avail == 0 then
      (if count > 0 && node.unplugged then ReadError else ReadOk([]))
    else
      ReadOk(node.data[pos..pos + (if count < avail then count else avail)])
  }

  /** A read that delivered everything it asked for. */
  predicate Full(r: Reply, count: nat)
  {
    r.ReadOk? && |r.bytes| == count
  }

  /** State of the configuration loop: still going (cursor, configurations
      so far, read requests issued so far) or abandoned after a failed read. */
  datatype Progress =
    | InProgress(pos: nat, configs: seq<ConfigDescriptor>, requests: seq<nat>)
    | Aborted(requests: seq<nat>)

  /** One iteration of the configuration loop. */
  function FetchConfig(node: Node, s: Progress): (r: Progress)
    ensures s.requests <= r.requests
    ensures s.Aborted? ==> r == s
    ensures r.InProgress? ==> s.InProgress? && r.pos >= s.pos + CONFIG_HEADER_LENGTH && |r.configs| == |s.configs| + 1
  {
    match s
    case Aborted(_) => s
    case InProgress(pos, configs, requests) =>
      var header := ReadAt(node, pos, CONFIG_HEADER_LENGTH);
      if !Full(header, CONFIG_HEADER_LENGTH) then Aborted(requests + [CONFIG_HEADER_LENGTH])
      else
        var total := TotalLength(header.bytes);
        if total < CONFIG_HEADER_LENGTH then Aborted(requests + [CONFIG_HEADER_LENGTH])
        else
          var body := ReadAt(node, pos + CONFIG_HEADER_LENGTH, total - CONFIG_HEADER_LENGTH);
          var requests' := requests + [CONFIG_HEADER_LENGTH, total - CONFIG_HEADER_LENGTH];
          if !Full(body, total - CONFIG_HEADER_LENGTH) then Aborted(requests')
          else InProgress(pos + total, configs + [ParseConfiguration(header.bytes + body.bytes)], requests')
  }

  /** The loop state after i iterations, the device descriptor having been read. */
  function ConfigsAfter(node: Node, i: nat): (r: Progress)
    ensures 1 <= |r.requests| && r.requests[0] == DEVICE_DESC_LENGTH
    ensures r.InProgress? ==> |r.configs| == i && r.pos >= DEVICE_DESC_LENGTH + CONFIG_HEADER_LENGTH * i
  {
    if i == 0 then InProgress(DEVICE_DESC_LENGTH, [], [DEVICE_DESC_LENGTH])
    else FetchConfig(node, ConfigsAfter(node, i - 1))
  }

  datatype FetchResult =
    | Fetched(desc: DeviceDescriptor, configs: seq<ConfigDescriptor>, consumed: nat, requests: seq<nat>)
    | Rejected(requests: seq<nat>)

  /** The whole fetch of one device node: what is decoded, how many bytes
      are consumed, and the byte counts of the requests issued, in order. */
  function FetchDevice(node: Node): (r: FetchResult)
    ensures 1 <= |r.requests| && r.requests[0] == DEVICE_DESC_LENGTH
    ensures r.Fetched? ==> && 1 <= |r.configs| <= USB_MAXCONFIG
                           && |r.configs| == r.desc.bNumConfigurations as nat
                           && r.consumed >= DEVICE_DESC_LENGTH + CONFIG_HEADER_LENGTH * |r.configs|
  {
    var raw := ReadAt(node, 0, DEVICE_DESC_LENGTH);
    if !Full(raw, DEVICE_DESC_LENGTH) then Rejected([DEVICE_DESC_LENGTH])
    else
      var desc := ParseDeviceDescriptor(raw.bytes);
      if desc.bNumConfigurations > USB_MAXCONFIG || desc.bNumConfigurations < 1 then
        Rejected([DEVICE_DESC_LENGTH])
      else
        match ConfigsAfter(node, desc.bNumConfigurations as nat)
        case Aborted(requests) => Rejected(requests)
        case InProgress(pos, configs, requests) => Fetched(desc, configs, pos, requests)
  }

  /** The bytes of all configurations, one after the other. */
  function Concat(cs: seq<ConfigDescriptor>): seq<byte>
  {
    if cs == [] then [] else Concat(cs[..|cs| - 1]) + cs[|cs| - 1].raw
  }

  /** The read requests two-phase reading of cs issues: 8, then the rest, per configuration. */
  function ReadPattern(cs: seq<ConfigDescriptor>): seq<nat>
  {
    if cs == [] then []
    else
      var c := cs[|cs| - 1];
      ReadPattern(cs[..|cs| - 1]) + [CONFIG_HEADER_LENGTH, if |c.raw| >= CONFIG_HEADER_LENGTH then |c.raw| - CONFIG_HEADER_LENGTH else 0]
  }

  /** What the device node of a well-formed device holds: the device
      descriptor followed by every configuration. */
  function EncodeDevice(desc: DeviceDescriptor, configs: seq<ConfigDescriptor>): seq<byte>
  {
    EncodeDeviceDescriptor(desc) + Concat(configs)
  }

  predicate WellFormed(desc: DeviceDescriptor, configs: seq<ConfigDescriptor>)
  {
    && 1 <= desc.bNumConfigurations <= USB_MAXCONFIG
    && |configs| == desc.bNumConfigurations as int
    && forall k :: 0 <= k < |configs| ==> SelfDescribing(configs[k])
  }

  // ---------------------------------------------------------------------
  // Lemmas about the protocol

  /** A failed read ends the loop for good: later iterations change nothing. */
  lemma {:induction false} AbortedStays(node: Node, i: nat, j: nat)
    requires i <= j && ConfigsAfter(node, i).Aborted?
    ensures ConfigsAfter(node, j) == ConfigsAfter(node, i)
    decreases j - i
  {
    if i < j {
      AbortedStays(node, i, j - 1);
    }
  }

  /** A successful iteration consumes one self-describing configuration,
      exactly the bytes at the cursor, with one header and one body request. */
  lemma FetchConfigStep(node: Node, pos: nat, cs: seq<ConfigDescriptor>, requests: seq<nat>) returns (c: ConfigDescriptor)
    requires FetchConfig(node, InProgress(pos, cs, requests)).InProgress?
    ensures SelfDescribing(c)
    ensures pos + |c.raw| <= |node.data| && node.data[pos..pos + |c.raw|] == c.raw
    ensures FetchConfig(node, InProgress(pos, cs, requests))
         == InProgress(pos + |c.raw|, cs + [c], requests + [CONFIG_HEADER_LENGTH, |c.raw| - CONFIG_HEADER_LENGTH])
  {
    var header := ReadAt(node, pos, CONFIG_HEADER_LENGTH);
    var total := TotalLength(header.bytes);
    var body := ReadAt(node, pos + CONFIG_HEADER_LENGTH, total - CONFIG_HEADER_LENGTH);
    c := ParseConfiguration(header.bytes + body.bytes);
    assert c.raw[..4] == header.bytes[..4];
    if total > CONFIG_HEADER_LENGTH {
      assert node.data[pos..pos + total]
          == node.data[pos..pos + CONFIG_HEADER_LENGTH] + node.data[pos + CONFIG_HEADER_LENGTH..pos + total];
    }
  }

  /** The configurations of s tile the stream right after the device
      descriptor, each declares its own length, and exactly two requests
      were issued per configuration. */
  predicate Laid(node: Node, s: Progress, i: nat)
  {
    && s.InProgress?
    && |s.configs| == i
    && DEVICE_DESC_LENGTH <= s.pos <= |node.data|
    && node.data[DEVICE_DESC_LENGTH..s.pos] == Concat(s.configs)
    && s.requests == [DEVICE_DESC_LENGTH] + ReadPattern(s.configs)
    && forall k :: 0 <= k < i ==> SelfDescribing(s.configs[k])
  }

  /** Appending the self-describing configuration found at the cursor
      extends the layout by one. */
  lemma LaidExtend(node: Node, s: Progress, i: nat, c: ConfigDescriptor)
    requires Laid(node, s, i)
    requires SelfDescribing(c)
    requires s.pos + |c.raw| <= |node.data| && node.data[s.pos..s.pos + |c.raw|] == c.raw
    ensures Laid(node, InProgress(s.pos + |c.raw|, s.configs + [c],
                                  s.requests + [CONFIG_HEADER_LENGTH, |c.raw| - CONFIG_HEADER_LENGTH]), i + 1)
  {
    var end := s.pos + |c.raw|;
    var cs := s.configs + [c];
    ConcatAppend(s.configs, c);
    assert node.data[DEVICE_DESC_LENGTH..end]
        == node.data[DEVICE_DESC_LENGTH..s.pos] + node.data[s.pos..end];
    assert [DEVICE_DESC_LENGTH] + ReadPattern(cs)
        == s.requests + [CONFIG_HEADER_LENGTH, |c.raw| - CONFIG_HEADER_LENGTH];
    forall k | 0 <= k < i + 1 ensures SelfDescribing(cs[k]) {
      if k < i {
        assert cs[k] == s.configs[k];
      }
    }
  }

  /** A successful iteration extends the layout by one configuration. */
  lemma LaidStep(node: Node, s: Progress, i: nat)
    requires Laid(node, s, i)
    requires FetchConfig(node, s).InProgress?
    ensures Laid(node, FetchConfig(node, s), i + 1)
  {
    var c := FetchConfigStep(node, s.pos, s.configs, s.requests);
    LaidExtend(node, s, i, c);
  }

  /** While the loop is going, its state is laid out as Laid says. */
  lemma {:induction false} ConfigsAfterLayout(node: Node, i: nat)
    requires |node.data| >= DEVICE_DESC_LENGTH
    requires ConfigsAfter(node, i).InProgress?
    ensures Laid(node, ConfigsAfter(node, i), i)
  {
    if i > 0 {
      var prev := ConfigsAfter(node, i - 1);
      assert prev.InProgress?;
      ConfigsAfterLayout(node, i - 1);
      LaidStep(node, prev, i - 1);
    }
  }

  /** A short or failed device-descriptor read rejects the device before
      any configuration read. */
  lemma ShortDescriptorRejected(node: Node)
    requires !Full(ReadAt(node, 0, DEVICE_DESC_LENGTH), DEVICE_DESC_LENGTH)
    ensures FetchDevice(node) == Rejected([DEVICE_DESC_LENGTH])
    ensures |node.data| < DEVICE_DESC_LENGTH
  {
  }

  /** Rejection of an out-of-range configuration count happens before any
      configuration read: the only read issued is the device descriptor's. */
  lemma BadConfigCountRejected(node: Node)
    requires Full(ReadAt(node, 0, DEVICE_DESC_LENGTH), DEVICE_DESC_LENGTH)
    requires var n := ParseDeviceDescriptor(node.data[..DEVICE_DESC_LENGTH]).bNumConfigurations;
             n > USB_MAXCONFIG || n < 1
    ensures FetchDevice(node) == Rejected([DEVICE_DESC_LENGTH])
  {
  }

  /** A fetched device is exactly the descriptor and the configurations
      its node holds, in order, read with the two-phase pattern, and nothing
      beyond its declared lengths was consumed. */
  lemma FetchedLayout(node: Node)
    requires FetchDevice(node).Fetched?
    ensures var f := FetchDevice(node);
      && WellFormed(f.desc, f.configs)
      && f.consumed <= |node.data|
      && node.data[..f.consumed] == EncodeDevice(f.desc, f.configs)
      && f.requests == [DEVICE_DESC_LENGTH] + ReadPattern(f.configs)
  {
    var f := FetchDevice(node);
    var raw := node.data[..DEVICE_DESC_LENGTH];
    var n := f.desc.bNumConfigurations as nat;
    ConfigsAfterLayout(node, n);
    RawDescriptorRoundTrip(raw);
    assert node.data[..f.consumed] == raw + node.data[DEVICE_DESC_LENGTH..f.consumed];
  }

  lemma ConcatAppend(cs: seq<ConfigDescriptor>, c: ConfigDescriptor)
    ensures Concat(cs + [c]) == Concat(cs) + c.raw
    ensures |c.raw| >= CONFIG_HEADER_LENGTH ==>
              ReadPattern(cs + [c]) == ReadPattern(cs) + [CONFIG_HEADER_LENGTH, |c.raw| - CONFIG_HEADER_LENGTH]
  {
    assert (cs + [c])[..|cs|] == cs;
  }

  lemma {:induction false} ConcatPrefix(cs: seq<ConfigDescriptor>, i: nat)
    requires i < |cs|
    ensures Concat(cs[..i + 1]) == Concat(cs[..i]) + cs[i].raw
    ensures |Concat(cs[..i])| + |cs[i].raw| <= |Concat(cs)|
    decreases |cs| - i
  {
    ConcatAppend(cs[..i], cs[i]);
    assert cs[..i + 1] == cs[..i] + [cs[i]];
    if i + 1 < |cs| {
      ConcatPrefix(cs, i + 1);
    } else {
      assert cs[..i + 1] == cs;
    }
  }

  /** One iteration over a node that holds a self-describing configuration
      at the cursor reads back exactly that configuration. */
  lemma FetchConfigReadsBack(node: Node, s: Progress, c: ConfigDescriptor)
    requires s.InProgress?
    requires SelfDescribing(c)
    requires s.pos + |c.raw| <= |node.data| && node.data[s.pos..s.pos + |c.raw|] == c.raw
    ensures FetchConfig(node, s)
         == InProgress(s.pos + |c.raw|, s.configs + [c], s.requests + [CONFIG_HEADER_LENGTH, |c.raw| - CONFIG_HEADER_LENGTH])
  {
    var end := s.pos + |c.raw|;
    var header := ReadAt(node, s.pos, CONFIG_HEADER_LENGTH);
    SubSlice(node.data, s.pos, end, 0, CONFIG_HEADER_LENGTH);
    assert header.bytes == c.raw[..CONFIG_HEADER_LENGTH];
    assert TotalLength(header.bytes) == |c.raw|;
    var body := ReadAt(node, s.pos + CONFIG_HEADER_LENGTH, |c.raw| - CONFIG_HEADER_LENGTH);
    SubSlice(node.data, s.pos, end, CONFIG_HEADER_LENGTH, |c.raw| - CONFIG_HEADER_LENGTH);
    assert body.bytes == c.raw[CONFIG_HEADER_LENGTH..];
    assert header.bytes + body.bytes == c.raw;
  }

  lemma ConcatSlice(cs: seq<ConfigDescriptor>, i: nat)
    requires i < |cs|
    ensures var off := |Concat(cs[..i])|;
            off + |cs[i].raw| <= |Concat(cs)| && Concat(cs)[off..off + |cs[i].raw|] == cs[i].raw
  {
    ConcatPrefix(cs, i);
    ConcatIsPrefix(cs, i + 1);
  }

  /** The loop over a node holding well-formed configurations after the
      device descriptor reads them back one by one. */
  lemma {:induction false} ConfigsAfterEncoded(node: Node, configs: seq<ConfigDescriptor>, i: nat)
    requires i <= |configs|
    requires forall k :: 0 <= k < |configs| ==> SelfDescribing(configs[k])
    requires DEVICE_DESC_LENGTH + |Concat(configs)| <= |node.data|
    requires node.data[DEVICE_DESC_LENGTH..DEVICE_DESC_LENGTH + |Concat(configs)|] == Concat(configs)
    ensures ConfigsAfter(node, i) == EncodedProgress(configs, i)
  {
    if i > 0 {
      ConfigsAfterEncoded(node, configs, i - 1);
      EncodedNodeStep(node, configs, i - 1);
    }
  }

  /** The loop state expected after reading back the first i of configs. */
  function EncodedProgress(configs: seq<ConfigDescriptor>, i: nat): Progress
    requires i <= |configs|
  {
    InProgress(DEVICE_DESC_LENGTH + |Concat(configs[..i])|, configs[..i],
               [DEVICE_DESC_LENGTH] + ReadPattern(configs[..i]))
  }

  /** Reading back configuration i of a node holding the encoded configurations. */
  lemma EncodedNodeStep(node: Node, configs: seq<ConfigDescriptor>, i: nat)
    requires i < |configs|
    requires forall k :: 0 <= k < |configs| ==> SelfDescribing(configs[k])
    requires DEVICE_DESC_LENGTH + |Concat(configs)| <= |node.data|
    requires node.data[DEVICE_DESC_LENGTH..DEVICE_DESC_LENGTH + |Concat(configs)|] == Concat(configs)
    ensures FetchConfig(node, EncodedProgress(configs, i)) == EncodedProgress(configs, i + 1)
  {
    EncodedAt(node.data, configs, i);
    EncodedStep(node, configs, i);
  }

  /** Reading back configuration i of an encoded node, found at the cursor. */
  lemma EncodedStep(node: Node, configs: seq<ConfigDescriptor>, i: nat)
    requires i < |configs|
    requires SelfDescribing(configs[i])
    requires var pos, c := EncodedProgress(configs, i).pos, configs[i];
             pos + |c.raw| <= |node.data| && node.data[pos..pos + |c.raw|] == c.raw
    ensures FetchConfig(node, EncodedProgress(configs, i)) == EncodedProgress(configs, i + 1)
  {
    var s, c := EncodedProgress(configs, i), configs[i];
    var want := InProgress(s.pos + |c.raw|, s.configs + [c], s.requests + [CONFIG_HEADER_LENGTH, |c.raw| - CONFIG_HEADER_LENGTH]);
    FetchConfigReadsBack(node, s, c);
    assert FetchConfig(node, s) == want;
    EncodedNext(configs, i);
    assert EncodedProgress(configs, i + 1) == want;
  }

  /** The expected state after configuration i + 1 extends the one after
      configuration i by that configuration. */
  lemma EncodedNext(configs: seq<ConfigDescriptor>, i: nat)
    requires i < |configs|
    requires SelfDescribing(configs[i])
    ensures var s, c := EncodedProgress(configs, i), configs[i];
      EncodedProgress(configs, i + 1)
        == InProgress(s.pos + |c.raw|, s.configs + [c], s.requests + [CONFIG_HEADER_LENGTH, |c.raw| - CONFIG_HEADER_LENGTH])
  {
    var prefix, c := configs[..i], configs[i];
    assert configs[..i + 1] == prefix + [c];
    ConcatAppend(prefix, c);
    var pattern := [CONFIG_HEADER_LENGTH, |c.raw| - CONFIG_HEADER_LENGTH];
    assert [DEVICE_DESC_LENGTH] + ReadPattern(configs[..i + 1])
        == ([DEVICE_DESC_LENGTH] + ReadPattern(prefix)) + pattern;
  }

  /** Configuration i of a node's encoded configurations sits right after the ones before it. */
  lemma EncodedAt(data: seq<byte>, configs: seq<ConfigDescriptor>, i: nat)
    requires i < |configs|
    requires DEVICE_DESC_LENGTH + |Concat(configs)| <= |data|
    requires data[DEVICE_DESC_LENGTH..DEVICE_DESC_LENGTH + |Concat(configs)|] == Concat(configs)
    ensures var pos, c := EncodedProgress(configs, i).pos, configs[i];
            pos + |c.raw| <= |data| && data[pos..pos + |c.raw|] == c.raw
  {
    var all := Concat(configs);
    var off := |Concat(configs[..i])|;
    ConcatSlice(configs, i);
    SubSlice(data, DEVICE_DESC_LENGTH, DEVICE_DESC_LENGTH + |all|, off, |configs[i].raw|);
  }

  lemma SubSlice<T>(s: seq<T>, a: nat, b: nat, off: nat, len: nat)
    requires a <= b <= |s| && off + len <= b - a
    ensures s[a..b][off..off + len] == s[a + off..a + off + len]
  {
    var x, y := s[a..b][off..off + len], s[a + off..a + off + len];
    forall k | 0 <= k < len ensures x[k] == y[k] {
      assert x[k] == s[a..b][off + k];
    }
  }

  lemma {:induction false} ConcatIsPrefix(cs: seq<ConfigDescriptor>, i: nat)
    requires i <= |cs|
    ensures Concat(cs[..i]) <= Concat(cs)
    decreases |cs| - i
  {
    if i < |cs| {
      ConcatIsPrefix(cs, i + 1);
      ConcatPrefix(cs, i);
    } else {
      assert cs[..i] == cs;
    }
  }

  /** Round trip: a node holding the encoding of a well-formed device
      (followed by anything) is fetched back as exactly that device, with
      exactly the two-phase read pattern. */
  lemma FetchEncoded(desc: DeviceDescriptor, configs: seq<ConfigDescriptor>, trailing: seq<byte>, unplugged: bool)
    requires WellFormed(desc, configs)
    ensures var node := Node(EncodeDevice(desc, configs) + trailing, unplugged);
      FetchDevice(node)
        == Fetched(desc, configs, |EncodeDevice(desc, configs)|, [DEVICE_DESC_LENGTH] + ReadPattern(configs))
  {
    var node := Node(EncodeDevice(desc, configs) + trailing, unplugged);
    EncodedDescriptor(desc, configs, node, trailing);
    EncodedLoop(desc, configs, node, trailing);
    FetchedFrom(node, desc, InProgress(|EncodeDevice(desc, configs)|, configs, [DEVICE_DESC_LENGTH] + ReadPattern(configs)));
  }

  /** The device descriptor of an encoded node reads back in full. */
  lemma EncodedDescriptor(desc: DeviceDescriptor, configs: seq<ConfigDescriptor>, node: Node, trailing: seq<byte>)
    requires node.data == EncodeDevice(desc, configs) + trailing
    ensures Full(ReadAt(node, 0, DEVICE_DESC_LENGTH), DEVICE_DESC_LENGTH)
    ensures ParseDeviceDescriptor(ReadAt(node, 0, DEVICE_DESC_LENGTH).bytes) == desc
  {
    EncodedParts(desc, configs, node.data, trailing);
    DescriptorRoundTrip(desc);
  }

  /** The configuration loop on an encoded node reads every configuration back. */
  lemma EncodedLoop(desc: DeviceDescriptor, configs: seq<ConfigDescriptor>, node: Node, trailing: seq<byte>)
    requires WellFormed(desc, configs)
    requires node.data == EncodeDevice(desc, configs) + trailing
    ensures ConfigsAfter(node, desc.bNumConfigurations as nat)
         == InProgress(|EncodeDevice(desc, configs)|, configs, [DEVICE_DESC_LENGTH] + ReadPattern(configs))
  {
    EncodedParts(desc, configs, node.data, trailing);
    ConfigsAfterEncoded(node, configs, |configs|);
    assert configs[..|configs|] == configs;
  }

  /** A node whose device descriptor reads back as desc, with a count in
      range, and whose configuration loop completes as p, is fetched as p says. */
  lemma FetchedFrom(node: Node, desc: DeviceDescriptor, p: Progress)
    requires Full(ReadAt(node, 0, DEVICE_DESC_LENGTH), DEVICE_DESC_LENGTH)
    requires ParseDeviceDescriptor(ReadAt(node, 0, DEVICE_DESC_LENGTH).bytes) == desc
    requires 1 <= desc.bNumConfigurations <= USB_MAXCONFIG
    requires ConfigsAfter(node, desc.bNumConfigurations as nat) == p && p.InProgress?
    ensures FetchDevice(node) == Fetched(desc, p.configs, p.pos, p.requests)
  {
  }

  /** Where the descriptor and the configurations sit in an encoded node. */
  lemma EncodedParts(desc: DeviceDescriptor, configs: seq<ConfigDescriptor>, data: seq<byte>, trailing: seq<byte>)
    requires data == EncodeDevice(desc, configs) + trailing
    ensures |data| >= DEVICE_DESC_LENGTH + |Concat(configs)|
    ensures data[..DEVICE_DESC_LENGTH] == EncodeDeviceDescriptor(desc)
    ensures data[DEVICE_DESC_LENGTH..DEVICE_DESC_LENGTH + |Concat(configs)|] == Concat(configs)
  {
  }

  /** A read that was full on a node stays full on its truncation as long
      as it ends within the truncated stream, and is short or fails otherwise. */
  lemma ReadTruncated(node: Node, m: nat, u: bool, pos: nat, count: nat)
    requires m <= |node.data|
    requires Full(ReadAt(node, pos, count), count)
    ensures pos + count <= m ==> ReadAt(Node(node.data[..m], u), pos, count) == ReadAt(node, pos, count)
    ensures pos <= m < pos + count ==> !Full(ReadAt(Node(node.data[..m], u), pos, count), count)
  {
  }

  /** One iteration on a truncated node, from a cursor within it. */
  lemma FetchConfigTruncated(node: Node, m: nat, u: bool, p: Progress)
    requires m <= |node.data|
    requires p.InProgress? && p.pos <= m
    requires FetchConfig(node, p).InProgress?
    ensures var s := FetchConfig(node, p);
            var t := FetchConfig(Node(node.data[..m], u), p);
            && (s.pos <= m ==> t == s)
            && (s.pos > m ==> t.Aborted?)
  {
    var header := ReadAt(node, p.pos, CONFIG_HEADER_LENGTH);
    ReadTruncated(node, m, u, p.pos, CONFIG_HEADER_LENGTH);
    if p.pos + CONFIG_HEADER_LENGTH <= m {
      var total := TotalLength(header.bytes);
      ReadTruncated(node, m, u, p.pos + CONFIG_HEADER_LENGTH, total - CONFIG_HEADER_LENGTH);
    }
  }

  /** On a truncated node the loop agrees with the full node up to the
      truncation point and is abandoned once a read would cross it. */
  lemma {:induction false} ConfigsAfterTruncated(node: Node, m: nat, u: bool, i: nat)
    requires DEVICE_DESC_LENGTH <= m <= |node.data|
    requires ConfigsAfter(node, i).InProgress?
    ensures var s := ConfigsAfter(node, i);
            var t := ConfigsAfter(Node(node.data[..m], u), i);
            && (s.pos <= m ==> t == s)
            && (s.pos > m ==> t.Aborted?)
  {
    if i > 0 {
      var trunc := Node(node.data[..m], u);
      var prev := ConfigsAfter(node, i - 1);
      assert prev.InProgress?;
      ConfigsAfterTruncated(node, m, u, i - 1);
      var s := ConfigsAfter(node, i);
      assert s == FetchConfig(node, prev);
      var c := FetchConfigStep(node, prev.pos, prev.configs, prev.requests);
      if prev.pos <= m {
        FetchConfigTruncated(node, m, u, prev);
      }
    }
  }

  /** A node that ends before the last byte a successful fetch needs is
      rejected: no partially read device is ever produced. */
  lemma TruncatedNodeRejected(node: Node, m: nat, u: bool)
    requires FetchDevice(node).Fetched?
    requires m < FetchDevice(node).consumed
    ensures FetchDevice(Node(node.data[..m], u)).Rejected?
  {
    var f := FetchDevice(node);
    var n := f.desc.bNumConfigurations as nat;
    ConfigsAfterLayout(node, n);
    if m >= DEVICE_DESC_LENGTH {
      ReadTruncated(node, m, u, 0, DEVICE_DESC_LENGTH);
      ConfigsAfterTruncated(node, m, u, n);
    } else {
      ReadTruncated(node, m, u, 0, DEVICE_DESC_LENGTH);
    }
  }
}
