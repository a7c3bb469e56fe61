/** Padding of small IP packets to the size that suits the tunnel, and its removal.  Lengths are those of section 3.1
    of RFC 791 (IPv4) and section 3 of RFC 8200 (IPv6). */
module Padding {
  import opened Results
  import opened Numbers
  import opened ByteStrings

  const OPTIMAL_PADDED_SIZE := 768
  const PADDING_THRESHOLD := 256
  const PADDING_MARKER: Byte := 0xFF

  datatype Class = ICMP | DNS | TCPCtrl | TCPData | UDPSmall | UDPLarge

  function Version(s: Bytes): nat
    requires s != []
  {
    s[0] / 16
  }

  function HeaderSize(version: nat): nat { if version == 6 then 40 else 20 }

  /** The total length a packet declares, if its header is there. */
  function Declared(s: Bytes): Option<nat> {
    if s == [] then None
    else if Version(s) == 4 && |s| >= 20 then Some(Word(s[2], s[3]))
    else if Version(s) == 6 && |s| >= 40 then Some(40 + Word(s[4], s[5]))
    else None
  }

  /** The traffic class of a packet whose declared length is its size; `None` for other protocols and for transport
      headers that are cut off. */
  function Classify(s: Bytes): Option<Class>
    requires Declared(s).Some?
  {
    var header := HeaderSize(Version(s));
    var protocol := if Version(s) == 4 then s[9] else s[6];
    if protocol == 1 || protocol == 58 then Some(ICMP)
    else if protocol == 6 then
      if |s| < header + 14 then None
      else if s[header + 13] % 8 != 0 then Some(TCPCtrl)
      else Some(TCPData)
    else if protocol == 17 then
      if |s| < header + 8 then None
      else if Word(s[header], s[header + 1]) == 53 || Word(s[header + 2], s[header + 3]) == 53 then Some(DNS)
      else if |s| < PADDING_THRESHOLD then Some(UDPSmall)
      else Some(UDPLarge)
    else None
  }

  predicate NeedsPadding(kind: Class, size: nat) {
    match kind
    case DNS => true
    case UDPSmall => true
    case UDPLarge => false
    case _ => size < PADDING_THRESHOLD
  }

  /** The class that is counted for a packet: none unless padding is on, the packet leaves room for the length and the
      marker, and declares its own size. */
  function Counted(enabled: bool, s: Bytes): Option<Class> {
    if enabled && 0 < |s| < OPTIMAL_PADDED_SIZE - 2 && Declared(s) == Some(|s|) then Classify(s) else None
  }

  predicate Pads(enabled: bool, s: Bytes) { Counted(enabled, s).Some? && NeedsPadding(Counted(enabled, s).value, |s|) }

  /** The packet, its length in two bytes, the marker, and zeros. */
  function PaddedBytes(s: Bytes): Bytes
    requires |s| < OPTIMAL_PADDED_SIZE - 2
  {
    s + [|s| / 256, |s| % 256, PADDING_MARKER] + seq(OPTIMAL_PADDED_SIZE - 3 - |s|, _ => 0)
  }

  lemma PaddedSize(s: Bytes)
    requires |s| < OPTIMAL_PADDED_SIZE - 2
    ensures |PaddedBytes(s)| == OPTIMAL_PADDED_SIZE
  {}

  /** A buffer of the padded size that declares a shorter packet and holds its length and the marker behind it. */
  predicate LooksPadded(data: Bytes) {
    && |data| == OPTIMAL_PADDED_SIZE && Declared(data).Some?
    && var d := Declared(data).value;
       && HeaderSize(Version(data)) <= d < OPTIMAL_PADDED_SIZE - 2
       && data[d + 2] == PADDING_MARKER && Word(data[d], data[d + 1]) == d
  }

  // ---------------------------------------------------------------------------------------------
  // Counters

  datatype Stats = Stats(icmp: U64, dns: U64, tcpCtrl: U64, tcpData: U64, udpSmall: U64, udpLarge: U64, padded: U64)

  const NO_PACKETS := Stats(0, 0, 0, 0, 0, 0, 0)

  function Bump(s: Stats, kind: Class): Stats {
    match kind
    case ICMP => s.(icmp := Inc64(s.icmp))
    case DNS => s.(dns := Inc64(s.dns))
    case TCPCtrl => s.(tcpCtrl := Inc64(s.tcpCtrl))
    case TCPData => s.(tcpData := Inc64(s.tcpData))
    case UDPSmall => s.(udpSmall := Inc64(s.udpSmall))
    case UDPLarge => s.(udpLarge := Inc64(s.udpLarge))
  }

  function StatsAfter(s: Stats, enabled: bool, packet: Bytes): Stats {
    var c := Counted(enabled, packet);
    if c.None? then s
    else
      var t := Bump(s, c.value);
      if NeedsPadding(c.value, |packet|) then t.(padded := Inc64(t.padded)) else t
  }

  function Total(s: Stats): nat { s.icmp + s.dns + s.tcpCtrl + s.tcpData + s.udpSmall + s.udpLarge }

  function StatsRun(enabled: bool, packets: seq<Bytes>): Stats {
    if packets == [] then NO_PACKETS
    else StatsAfter(StatsRun(enabled, packets[..|packets| - 1]), enabled, packets[|packets| - 1])
  }

  /** Over any run of fewer than 2^64 packets, the padded count never exceeds the sum of the class counters, which is
      the number of packets that had a class. */
  lemma {:induction false} PaddedWithinTotal(enabled: bool, packets: seq<Bytes>)
    requires |packets| < MOD64
    ensures var s := StatsRun(enabled, packets); s.padded <= Total(s) == ClassCount(enabled, packets) <= |packets|
  {
    hide Counted, NeedsPadding, StatsAfter, Total;
    if packets == [] {
      NothingCounted();
    } else {
      PaddedWithinTotal(enabled, packets[..|packets| - 1]);
      StatsStep(StatsRun(enabled, packets[..|packets| - 1]), enabled, packets[|packets| - 1]);
    }
  }

  lemma NothingCounted()
    ensures Total(NO_PACKETS) == 0
  {}

  lemma BumpTotal(s: Stats, kind: Class)
    requires Total(s) + 1 < MOD64
    ensures Total(Bump(s, kind)) == Total(s) + 1 && Bump(s, kind).padded == s.padded
  {
    hide Inc64;
    IncSmall(s.icmp); IncSmall(s.dns); IncSmall(s.tcpCtrl);
    IncSmall(s.tcpData); IncSmall(s.udpSmall); IncSmall(s.udpLarge);
  }

  lemma IncSmall(n: U64)
    ensures n + 1 < MOD64 ==> Inc64(n) == n + 1
  {}

  lemma StatsStep(s: Stats, enabled: bool, packet: Bytes)
    requires s.padded <= Total(s) && Total(s) + 1 < MOD64
    ensures Total(StatsAfter(s, enabled, packet)) == Total(s) + if Counted(enabled, packet).Some? then 1 else 0
    ensures StatsAfter(s, enabled, packet).padded <= Total(StatsAfter(s, enabled, packet))
  {
    hide Counted, NeedsPadding, Bump, Inc64;
    var c := Counted(enabled, packet);
    if c.Some? {
      BumpTotal(s, c.value);
      IncSmall(s.padded);
    }
  }

  function ClassCount(enabled: bool, packets: seq<Bytes>): nat {
    if packets == [] then 0
    else ClassCount(enabled, packets[..|packets| - 1]) + if Counted(enabled, packets[|packets| - 1]).Some? then 1 else 0
  }

  function Counter(s: Stats, kind: Class): U64 {
    match kind
    case ICMP => s.icmp
    case DNS => s.dns
    case TCPCtrl => s.tcpCtrl
    case TCPData => s.tcpData
    case UDPSmall => s.udpSmall
    case UDPLarge => s.udpLarge
  }

  /** How many packets of a run are of a class. */
  function OfClass(enabled: bool, packets: seq<Bytes>, kind: Class): nat {
    if packets == [] then 0
    else OfClass(enabled, packets[..|packets| - 1], kind)
         + if Counted(enabled, packets[|packets| - 1]) == Some(kind) then 1 else 0
  }

  /** How many of them are padded. */
  function PadCount(enabled: bool, packets: seq<Bytes>): nat {
    if packets == [] then 0
    else PadCount(enabled, packets[..|packets| - 1]) + if Pads(enabled, packets[|packets| - 1]) then 1 else 0
  }

  /** Below the wrap every counter is the number of packets of its class, and the padded count that of padded packets.
      */
  lemma {:induction false} CountersExact(enabled: bool, packets: seq<Bytes>, kind: Class)
    requires |packets| < MOD64
    ensures Counter(StatsRun(enabled, packets), kind) == OfClass(enabled, packets, kind) <= |packets|
    ensures StatsRun(enabled, packets).padded == PadCount(enabled, packets) <= |packets|
  {
    hide Counted, NeedsPadding, Inc64;
    if packets != [] {
      CountersExact(enabled, packets[..|packets| - 1], kind);
      IncSmall(Counter(StatsRun(enabled, packets[..|packets| - 1]), kind));
      IncSmall(StatsRun(enabled, packets[..|packets| - 1]).padded);
    }
  }

  // ---------------------------------------------------------------------------------------------
  // Padding in place

  /** The part of the buffer that counts as the packet: a length outside the buffer is clamped and never padded. */
  function PacketOf(buf: Bytes, n: int): Bytes { if n < 0 then [] else if n > |buf| then buf else buf[..n] }

  class Classifier {
    const enabled: bool
    var stats: Stats

    constructor (enabled: bool)
      ensures this.enabled == enabled && stats == NO_PACKETS
    {
      this.enabled, this.stats := enabled, NO_PACKETS;
    }

    method ClassifyAndPad(buf: array<Byte>, n: int) returns (out: array<Byte>, length: int, padded: bool)
      modifies this
      ensures var valid := 0 <= n <= buf.Length; var packet := PacketOf(buf[..], n);
              && padded == (valid && Pads(enabled, packet))
              && stats == (if valid then StatsAfter(old(stats), enabled, packet) else old(stats))
              && (padded ==> fresh(out) && length == OPTIMAL_PADDED_SIZE && out[..] == PaddedBytes(packet))
              && (!padded ==> out == buf && length == |packet|)
              && (valid ==> 0 <= length <= out.Length && out[..length] == Sent(enabled, packet))
    {
      hide PaddedBytes, Classify, NeedsPadding, Bump;
      out, length, padded := buf, if n < 0 then 0 else if n > buf.Length then buf.Length else n, false;
      if !enabled || n <= 0 || n > buf.Length || n + 2 >= OPTIMAL_PADDED_SIZE { return; }
      ghost var packet := buf[..n];
      var version := buf[0] / 16;
      var total, protocol := 0, 0;
      if version == 4 {
        if n < 20 { return; }
        total, protocol := Word(buf[2], buf[3]), buf[9];
      } else if version == 6 {
        if n < 40 { return; }
        total, protocol := 40 + Word(buf[4], buf[5]), buf[6];
      } else {
        return;
      }
      assert Declared(packet) == Some(total);
      if total != n { return; }
      var needsPadding := Count(buf, n, version, protocol);
      if !needsPadding { return; }
      stats := stats.(padded := Inc64(stats.padded));
      out := PadTo(buf, n);
      length, padded := OPTIMAL_PADDED_SIZE, true;
      PaddedSize(packet);
      assert out[..length] == out[..];
    }

    /** Copies the packet into a fresh buffer and writes its length and the marker behind it. */
    method PadTo(buf: array<Byte>, n: nat) returns (out: array<Byte>)
      requires n <= buf.Length && n + 2 < OPTIMAL_PADDED_SIZE
      ensures fresh(out) && out[..] == PaddedBytes(buf[..n])
    {
      out := new Byte[OPTIMAL_PADDED_SIZE](_ => 0);
      for i := 0 to n
        invariant forall j :: 0 <= j < i ==> out[j] == buf[j]
        invariant forall j :: i <= j < OPTIMAL_PADDED_SIZE ==> out[j] == 0
      {
        out[i] := buf[i];
      }
      out[n], out[n + 1], out[n + 2] := n / 256, n % 256, PADDING_MARKER;
    }

    /** The protocol switch: counts the packet's class and says whether it is padded. */
    method Count(buf: array<Byte>, n: int, version: nat, protocol: Byte) returns (needsPadding: bool)
      requires 0 < n <= buf.Length && n < OPTIMAL_PADDED_SIZE - 2 && enabled
      requires Declared(buf[..n]) == Some(n) && version == Version(buf[..n])
      requires protocol == if version == 4 then buf[9] else buf[6]
      modifies this
      ensures var c := Counted(enabled, buf[..n]);
              && needsPadding == Pads(enabled, buf[..n])
              && stats == (if c.Some? then Bump(old(stats), c.value) else old(stats))
    {
      hide Inc64;
      var offset := if version == 6 then 40 else 20;
      ghost var packet := buf[..n];
      needsPadding := false;
      if protocol == 1 || protocol == 58 {
        stats := stats.(icmp := Inc64(stats.icmp));
        needsPadding := n < PADDING_THRESHOLD;
      } else if protocol == 6 {
        if n >= offset + 14 {
          var flags := buf[offset + 13];
          assert flags == packet[offset + 13];
          var syn, fin, rst := flags / 2 % 2 != 0, flags % 2 != 0, flags / 4 % 2 != 0;
          FlagBits(flags);
          if syn || fin || rst {
            stats := stats.(tcpCtrl := Inc64(stats.tcpCtrl));
          } else {
            stats := stats.(tcpData := Inc64(stats.tcpData));
          }
          needsPadding := n < PADDING_THRESHOLD;
        }
      } else if protocol == 17 {
        if n >= offset + 8 {
          if Word(buf[offset], buf[offset + 1]) == 53 || Word(buf[offset + 2], buf[offset + 3]) == 53 {
            stats := stats.(dns := Inc64(stats.dns));
            needsPadding := true;
          } else if n < PADDING_THRESHOLD {
            stats := stats.(udpSmall := Inc64(stats.udpSmall));
            needsPadding := true;
          } else {
            stats := stats.(udpLarge := Inc64(stats.udpLarge));
          }
        }
      }
    }

    method Unpad(data: array<Byte>) returns (length: nat)
      ensures length == UnpaddedLength(enabled, data[..])
    {
      var n := data.Length;
      if !enabled || n != OPTIMAL_PADDED_SIZE { return n; }
      var version := data[0] / 16;
      var total := 0;
      if version == 4 {
        total := Word(data[2], data[3]);
      } else if version == 6 {
        total := 40 + Word(data[4], data[5]);
      } else {
        return n;
      }
      var minSize := if version == 6 then 40 else 20;
      if minSize <= total < OPTIMAL_PADDED_SIZE - 2 {
        if data[total + 2] == PADDING_MARKER && Word(data[total], data[total + 1]) == total { return total; }
      }
      return n;
    }
  }

  /** One of the three lowest flags is set. */
  lemma FlagBits(flags: Byte)
    ensures flags % 8 != 0 <==> flags / 2 % 2 != 0 || flags % 2 != 0 || flags / 4 % 2 != 0
  {}

  function UnpaddedLength(enabled: bool, data: Bytes): nat {
    if enabled && LooksPadded(data) then Declared(data).value else |data|
  }

  // ---------------------------------------------------------------------------------------------
  // Which packets are padded, and which buffers are cut

  /** A whole IPv4 or IPv6 packet, with the offset and the number of its transport protocol. */
  ghost predicate Whole(s: Bytes, header: nat, protocol: nat) {
    || (|s| >= 20 && s[0] / 16 == 4 && s[2] == |s| / 256 && s[3] == |s| % 256 && header == 20 && protocol == s[9])
    || (|s| >= 40 && s[0] / 16 == 6 && s[4] == (|s| - 40) / 256 && s[5] == (|s| - 40) % 256
        && header == 40 && protocol == s[6])
  }

  lemma WholeExactly(s: Bytes)
    ensures Declared(s) == Some(|s|) <==> exists header, protocol :: Whole(s, header, protocol)
  {
    if Declared(s) == Some(|s|) {
      assert Whole(s, HeaderSize(Version(s)), if Version(s) == 4 then s[9] else s[6]);
    }
  }

  /** The transport header is there, as far as it is read: 14 bytes of TCP, 8 of UDP. */
  ghost predicate Known(s: Bytes, header: nat, protocol: nat) {
    protocol == 1 || protocol == 58 || (protocol == 6 && header + 14 <= |s|) || (protocol == 17 && header + 8 <= |s|)
  }

  ghost predicate PortIs(s: Bytes, header: nat, port: nat) {
    var high, low := port / 256, port % 256;
    && header + 4 <= |s|
    && ((s[header] == high && s[header + 1] == low) || (s[header + 2] == high && s[header + 3] == low))
  }

  /** The counter of a packet: ICMP and ICMPv6 together, TCP by its synchronise, finish and reset flags, UDP by port 53
      and then by size. */
  lemma CountedExactly(s: Bytes, header: nat, protocol: nat)
    requires Whole(s, header, protocol)
    ensures Counted(true, s).Some? <==> |s| < 766 && Known(s, header, protocol)
    ensures Counted(true, s).Some? ==>
              match Counted(true, s).value
              case ICMP => protocol == 1 || protocol == 58
              case TCPCtrl => protocol == 6 && s[header + 13] % 8 > 0
              case TCPData => protocol == 6 && s[header + 13] % 8 == 0
              case DNS => protocol == 17 && PortIs(s, header, 53)
              case UDPSmall => protocol == 17 && !PortIs(s, header, 53) && |s| < 256
              case UDPLarge => protocol == 17 && !PortIs(s, header, 53) && |s| >= 256
  {}

  /** A packet is padded exactly when padding is on, it is whole and of a known protocol, and it has fewer than 256
      bytes, or belongs to DNS and leaves room for the trailer: flags make no difference. */
  lemma PadsExactly(enabled: bool, s: Bytes)
    ensures Pads(enabled, s)
       <==> enabled && exists header, protocol ::
              && Whole(s, header, protocol) && Known(s, header, protocol)
              && (|s| < 256 || (protocol == 17 && |s| < 766 && PortIs(s, header, 53)))
  {
    hide Declared, Classify, Whole, Known, PortIs;
    WholeExactly(s);
    forall header, protocol | Whole(s, header, protocol)
      ensures Pads(true, s) <==> Known(s, header, protocol)
                                 && (|s| < 256 || (protocol == 17 && |s| < 766 && PortIs(s, header, 53))) {
      CountedExactly(s, header, protocol);
      WholeNotEmpty(s, header, protocol);
    }
  }

  lemma WholeNotEmpty(s: Bytes, header: nat, protocol: nat)
    requires Whole(s, header, protocol)
    ensures |s| >= 20
  {}

  /** A buffer is cut to `d` bytes exactly when it has the padded size and these bytes are a whole packet with its
      length and the marker behind it. */
  lemma CutExactly(data: Bytes, d: nat)
    requires d < |data|
    ensures UnpaddedLength(true, data) == d
       <==> && |data| == 768 && d < 766 && (exists header, protocol :: Whole(data[..d], header, protocol))
            && data[d] == d / 256 && data[d + 1] == d % 256 && data[d + 2] == 0xFF
  {
    if d < 766 && |data| == 768 {
      WholeExactly(data[..d]);
      if Declared(data[..d]) == Some(d) { assert Declared(data) == Some(d); }
      if LooksPadded(data) && Declared(data) == Some(d) { assert Declared(data[..d]) == Some(d); }
    }
  }

  // ---------------------------------------------------------------------------------------------
  // Round trip

  lemma PaddedHeader(s: Bytes)
    requires |s| < OPTIMAL_PADDED_SIZE - 2 && Declared(s) == Some(|s|)
    ensures Declared(PaddedBytes(s)) == Some(|s|) && Version(PaddedBytes(s)) == Version(s)
  {
    var p := PaddedBytes(s);
    assert forall i :: 0 <= i < |s| ==> p[i] == s[i];
  }

  /** Unpadding restores a padded packet to its exact length and bytes. */
  lemma UnpadUndoesPad(s: Bytes)
    requires Pads(true, s)
    ensures var p := PaddedBytes(s); |p| == OPTIMAL_PADDED_SIZE && UnpaddedLength(true, p) == |s| && p[..|s|] == s
    ensures forall i :: |s| + 3 <= i < OPTIMAL_PADDED_SIZE ==> PaddedBytes(s)[i] == 0
  {
    hide Classify;
    var p := PaddedBytes(s);
    PaddedHeader(s);
    var n := |s|;
    assert p[n] == n / 256 && p[n + 1] == n % 256 && p[n + 2] == PADDING_MARKER;
    assert p[..n] == s;
  }

  /** The bytes that leave the sender for a packet. */
  function Sent(enabled: bool, s: Bytes): Bytes { if Pads(enabled, s) then PaddedBytes(s) else s }

  /** The receiver cuts what arrives back to the very packet exactly when it was padded or does not look padded. */
  lemma TransitExact(s: Bytes)
    ensures (var n := UnpaddedLength(true, Sent(true, s)); n <= |Sent(true, s)| && Sent(true, s)[..n] == s)
            <==> Pads(true, s) || !LooksPadded(s)
  {
    hide Pads, PaddedBytes;
    if Pads(true, s) {
      UnpadUndoesPad(s);
    } else if LooksPadded(s) {
      assert UnpaddedLength(true, s) < |s|;
    } else {
      assert s[..|s|] == s;
    }
  }

  /** A packet of another size, or one that declares its own size, always arrives whole. */
  lemma HonestPacketArrives(s: Bytes)
    requires |s| != OPTIMAL_PADDED_SIZE || Declared(s) == Some(|s|)
    ensures var n := UnpaddedLength(true, Sent(true, s)); n <= |Sent(true, s)| && Sent(true, s)[..n] == s
  {
    hide Pads, PaddedBytes;
    TransitExact(s);
  }

  /** A padded packet that is handed to the sender again is not padded twice but is cut to the inner packet: looking
      padded really does lose bytes. */
  lemma PaddedAgainIsCut(s: Bytes)
    requires Pads(true, s)
    ensures var p := PaddedBytes(s); !Pads(true, p) && Sent(true, p) == p && UnpaddedLength(true, p) == |s| < |p|
  {
    UnpadUndoesPad(s);
    hide Classify, LooksPadded, PaddedBytes;
  }
}
