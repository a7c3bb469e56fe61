/** The MQTT 3.1.1 wire format: remaining lengths (section 2.2.3), length-prefixed strings (section 1.5.3), packets and
    packet streams. */
module Mqtt {
  import opened Results
  import opened ByteStrings

  datatype WireError = UnexpectedEOF | MalformedLength | UnsupportedQoS | InvalidFilter

  // ---------------------------------------------------------------------------------------------
  // Remaining lengths

  function Pow128(k: nat): nat { if k == 0 then 1 else 128 * Pow128(k - 1) }

  /** Seven bits a byte, least significant first; the high bit says that more follow. */
  function LengthBytes(n: nat): Bytes {
    if n < 128 then [n] else [n % 128 + 128] + LengthBytes(n / 128)
  }

  method EncodeRemainingLength(length: nat) returns (out: Bytes)
    ensures out == LengthBytes(length)
  {
    out := [];
    var n := length;
    while true
      invariant out + LengthBytes(n) == LengthBytes(length)
      decreases n
    {
      var digit: Byte := n % 128;
      var more := n / 128 > 0;
      if more { digit := digit + 128; }
      assert more ==> out + ([digit] + LengthBytes(n / 128)) == (out + [digit]) + LengthBytes(n / 128);
      assert !more ==> LengthBytes(n) == [digit];
      n := n / 128;
      out := out + [digit];
      if !more { break; }
    }
  }

  /** The number that a length's bytes stand for: seven bits each, the first the least. */
  function LengthValue(bytes: Bytes): nat {
    if bytes == [] then 0 else bytes[0] % 128 + 128 * LengthValue(bytes[1..])
  }

  /** The bytes stand for the length, every one but the last has its high bit set, and there is no spare zero byte. */
  lemma {:induction false} LengthLayout(n: nat)
    ensures var b := LengthBytes(n);
            && b != [] && LengthValue(b) == n && (|b| > 1 ==> b[|b| - 1] > 0)
            && forall i :: 0 <= i < |b| ==> (b[i] < 128 <==> i == |b| - 1)
  {
    if n >= 128 {
      LengthLayout(n / 128);
      var b := LengthBytes(n);
      assert b[1..] == LengthBytes(n / 128) && b[0] % 128 == n % 128;
    } else {
      assert LengthBytes(n) == [n] && LengthValue([]) == 0;
    }
  }

  datatype Read<+T> = Got(value: T, rest: Bytes) | Failed(error: WireError)

  /** Reads a length of at most `digits` bytes. */
  function ReadLength(input: Bytes, digits: nat): Read<nat> {
    if digits == 0 then Failed(MalformedLength)
    else if input == [] then Failed(UnexpectedEOF)
    else if input[0] < 128 then Got(input[0], input[1..])
    else
      var r := ReadLength(input[1..], digits - 1);
      if r.Failed? then r else Got(input[0] - 128 + 128 * r.value, r.rest)
  }

  /** A length takes at most `k` bytes exactly when it is below 128^k; within four bytes that is below 2^28. */
  lemma {:induction false} LengthSize(n: nat, k: nat)
    requires k > 0
    ensures |LengthBytes(n)| <= k <==> n < Pow128(k)
  {
    if n >= 128 && k > 1 {
      LengthSize(n / 128, k - 1);
    } else if n >= 128 {
      assert Pow128(1) == 128 * Pow128(0) && |LengthBytes(n / 128)| >= 1;
    } else {
      Pow128Grows(k);
    }
  }

  lemma {:induction false} Pow128Grows(k: nat)
    requires k > 0
    ensures Pow128(k) >= 128
  {
    if k > 1 { Pow128Grows(k - 1); }
  }

  lemma Pow128Of4()
    ensures Pow128(4) == 0x1000_0000
  {
    assert Pow128(2) == 16384;
  }

  /** Reading back an encoded length with room for `digits` bytes gives the length and the bytes after it, exactly when
      the length fits; otherwise it is malformed. */
  lemma {:induction false} LengthRoundTrip(n: nat, rest: Bytes, digits: nat)
    ensures ReadLength(LengthBytes(n) + rest, digits) ==
              if n < Pow128(digits) && digits > 0 then Got(n, rest) else Failed(MalformedLength)
  {
    if digits > 0 {
      var input := LengthBytes(n) + rest;
      if n < 128 {
        Pow128Grows(digits);
        assert input[1..] == rest;
      } else {
        assert input[1..] == LengthBytes(n / 128) + rest && input[0] == n % 128 + 128;
        hide LengthBytes;
        LengthRoundTrip(n / 128, rest, digits - 1);
      }
    }
  }

  /** A fifth digit is never read: four that ask for more are malformed, whatever follows. */
  lemma {:induction false} TooManyDigits(input: Bytes, digits: nat)
    requires digits <= |input| && forall i :: 0 <= i < digits ==> input[i] >= 128
    ensures ReadLength(input, digits) == Failed(MalformedLength)
  {
    if digits > 0 { TooManyDigits(input[1..], digits - 1); }
  }

  // ---------------------------------------------------------------------------------------------
  // Packets

  datatype Packet = Packet(kind: Byte, flags: Byte, payload: Bytes)

  /** Packet type and flags are four bits each. */
  predicate WellFormed(p: Packet) { p.kind < 16 && p.flags < 16 }

  const MAX_PAYLOAD := 0x1000_0000

  function PacketBytes(p: Packet): Bytes
    requires WellFormed(p)
  {
    [p.kind * 16 + p.flags] + LengthBytes(|p.payload|) + p.payload
  }

  /** The packet type is the high half of the first byte and the flags are the low half; then come the length and the
      payload. */
  lemma PacketLayout(p: Packet)
    requires WellFormed(p)
    ensures var b := PacketBytes(p); var n := |b| - |p.payload|;
            && n >= 2 && b[0] / 16 == p.kind && b[0] % 16 == p.flags
            && LengthValue(b[1..n]) == |p.payload| && b[n..] == p.payload
  {
    hide LengthBytes, LengthValue;
    var b, l := PacketBytes(p), LengthBytes(|p.payload|);
    LengthLayout(|p.payload|);
    assert b[1..1 + |l|] == l && b[1 + |l|..] == p.payload;
  }

  function ReadPacket(input: Bytes): Read<Packet> {
    if input == [] then Failed(UnexpectedEOF)
    else
      var length := ReadLength(input[1..], 4);
      if length.Failed? then Failed(length.error)
      else if |length.rest| < length.value then Failed(UnexpectedEOF)
      else Got(Packet(input[0] / 16, input[0] % 16, length.rest[..length.value]), length.rest[length.value..])
  }

  lemma {:induction false} ReadLengthConsumes(input: Bytes, digits: nat)
    ensures ReadLength(input, digits).Got? ==> |ReadLength(input, digits).rest| < |input|
  {
    if digits > 0 && input != [] && input[0] >= 128 { ReadLengthConsumes(input[1..], digits - 1); }
  }

  lemma PacketRoundTrip(p: Packet, rest: Bytes)
    requires WellFormed(p)
    ensures ReadPacket(PacketBytes(p) + rest) ==
              if |p.payload| < MAX_PAYLOAD then Got(p, rest) else Failed(MalformedLength)
  {
    hide LengthBytes;
    var input := PacketBytes(p) + rest;
    assert input[1..] == LengthBytes(|p.payload|) + (p.payload + rest);
    LengthRoundTrip(|p.payload|, p.payload + rest, 4);
    Pow128Of4();
    assert (p.payload + rest)[..|p.payload|] == p.payload && (p.payload + rest)[|p.payload|..] == rest;
  }

  /** What a failed read leaves: nothing when the input ended, and what follows the malformed length otherwise. */
  predicate AfterError(input: Bytes, used: nat, e: WireError, rest: Bytes) {
    if e == UnexpectedEOF then rest == [] else used <= |input| && rest == input[used..]
  }

  /** A buffered connection: what is still to read, and what was written. */
  class Stream {
    var unread: Bytes
    var written: Bytes

    constructor (unread: Bytes)
      ensures this.unread == unread && written == []
    {
      this.unread, this.written := unread, [];
    }

    method ReadByte() returns (b: Option<Byte>)
      modifies this`unread
      ensures old(unread) == [] ==> b == None && unread == []
      ensures old(unread) != [] ==> b == Some(old(unread)[0]) && unread == old(unread)[1..]
    {
      if |unread| == 0 { return None; }
      b := Some(unread[0]);
      unread := unread[1..];
    }

    /** Up to four digits, each weighed by a multiplier that grows by 128. */
    method ReadRemainingLength() returns (r: Result<nat, WireError>)
      modifies this`unread
      ensures match ReadLength(old(unread), 4)
              case Got(v, rest) => r == Ok(v) && unread == rest
              case Failed(e) => r == Err(e) && AfterError(old(unread), 4, e, unread)
    {
      hide Weighed, ReadLength;
      var multiplier: nat, value: nat := 1, 0;
      WeighEnds(unread, 4);
      for i := 0 to 4
        invariant i <= |old(unread)| && unread == old(unread)[i..]
        invariant ReadLength(old(unread), 4) == Weighed(value, multiplier, ReadLength(unread, 4 - i))
      {
        WeighStep(value, multiplier, unread, 4 - i);
        var digit := ReadByte();
        if digit.None? { return Err(UnexpectedEOF); }
        var d: nat := digit.value % 128;
        value := value + d * multiplier;
        if digit.value < 128 { return Ok(value); }
        multiplier := multiplier * 128;
      }
      WeighStep(value, multiplier, unread, 0);
      return Err(MalformedLength);
    }

    method ReadMQTTPacket() returns (r: Result<Packet, WireError>)
      modifies this`unread
      ensures match ReadPacket(old(unread))
              case Got(p, rest) => r == Ok(p) && unread == rest
              case Failed(e) => r == Err(e) && AfterError(old(unread), 5, e, unread)
    {
      var header := ReadByte();
      if header.None? { return Err(UnexpectedEOF); }
      var remaining := ReadRemainingLength();
      if remaining.Err? { return Err(remaining.error); }
      if |unread| < remaining.value {
        unread := [];
        return Err(UnexpectedEOF);
      }
      var payload := unread[..remaining.value];
      unread := unread[remaining.value..];
      return Ok(Packet(header.value / 16, header.value % 16, payload));
    }

    method WriteMQTTPacket(p: Packet)
      requires WellFormed(p)
      modifies this`written
      ensures written == old(written) + PacketBytes(p)
    {
      var fixed := [p.kind * 16 + p.flags];
      var length := EncodeRemainingLength(|p.payload|);
      fixed := fixed + length;
      written := written + fixed;
      if |p.payload| > 0 { written := written + p.payload; }
    }
  }

  /** What has been read so far, plus the rest at its weight. */
  function Weighed(value: nat, multiplier: nat, r: Read<nat>): Read<nat> {
    if r.Failed? then r else Got(value + multiplier * r.value, r.rest)
  }

  lemma MoreDigits(value: nat, multiplier: nat, d: nat, r: Read<nat>)
    ensures Weighed(value, multiplier, if r.Failed? then r else Got(d + 128 * r.value, r.rest))
         == Weighed(value + d * multiplier, multiplier * 128, r)
  {
    if r.Got? {
      assert multiplier * (d + 128 * r.value) == multiplier * d + multiplier * 128 * r.value;
    }
  }

  lemma WeighEnds(input: Bytes, digits: nat)
    ensures Weighed(0, 1, ReadLength(input, digits)) == ReadLength(input, digits)
  {
    hide ReadLength;
  }

  lemma WeighStep(value: nat, multiplier: nat, input: Bytes, digits: nat)
    ensures Weighed(value, multiplier, ReadLength(input, digits)) ==
              if digits == 0 then Failed(MalformedLength)
              else if input == [] then Failed(UnexpectedEOF)
              else if input[0] < 128 then Got(value + input[0] % 128 * multiplier, input[1..])
              else Weighed(value + input[0] % 128 * multiplier, multiplier * 128, ReadLength(input[1..], digits - 1))
  {
    if digits > 0 && input != [] {
      MoreDigits(value, multiplier, input[0] % 128, ReadLength(input[1..], digits - 1));
    }
  }

  // ---------------------------------------------------------------------------------------------
  // Packet streams

  function StreamBytes(ps: seq<Packet>): Bytes
    requires forall p :: p in ps ==> WellFormed(p)
  {
    if ps == [] then [] else PacketBytes(ps[0]) + StreamBytes(ps[1..])
  }

  /** Reads packets until the bytes are used up. */
  function ReadStream(input: Bytes): Result<seq<Packet>, WireError>
    decreases |input|
  {
    if input == [] then Ok([])
    else
      var r := ReadPacket(input);
      if r.Failed? then Err(r.error)
      else
        ReadLengthConsumes(input[1..], 4);
        var more := ReadStream(r.rest);
        if more.Err? then more else Ok([r.value] + more.value)
  }

  /** Reading the concatenation of any packets gives them back and consumes every byte, exactly when every payload is
      below 2^28 bytes; otherwise the first longer one has a malformed length. */
  lemma {:induction false} StreamRoundTrip(ps: seq<Packet>)
    requires forall p :: p in ps ==> WellFormed(p)
    ensures ReadStream(StreamBytes(ps))
         == if forall p :: p in ps ==> |p.payload| < MAX_PAYLOAD then Ok(ps) else Err(MalformedLength)
  {
    hide PacketBytes, ReadPacket;
    if ps != [] {
      var p, rest := ps[0], StreamBytes(ps[1..]);
      assert ps == [p] + ps[1..];
      PacketNotEmpty(p);
      PacketRoundTrip(p, rest);
      StreamRoundTrip(ps[1..]);
    }
  }

  lemma PacketNotEmpty(p: Packet)
    requires WellFormed(p)
    ensures PacketBytes(p) != []
  {}

  // ---------------------------------------------------------------------------------------------
  // Strings, publishes and subscriptions

  /** `appendUTF8` to nothing: a two-byte length and at most 65535 bytes of the value. */
  function TextBytes(value: Bytes): Bytes {
    var v := if |value| > 65535 then value[..65535] else value;
    [|v| / 256, |v| % 256] + v
  }

  /** The length comes first, its high byte in front, and then the text. */
  lemma TextLayout(value: Bytes)
    requires |value| <= 65535
    ensures var b := TextBytes(value);
            |b| == |value| + 2 && b[0] == |value| / 256 && b[1] == |value| % 256 && b[2..] == value
  {
    assert TextBytes(value)[2..] == value;
  }

  function ReadText(buf: Bytes): Read<Bytes> {
    if |buf| < 2 || |buf| - 2 < Word(buf[0], buf[1]) then Failed(UnexpectedEOF)
    else
      var n := Word(buf[0], buf[1]);
      Got(buf[2..2 + n], buf[2 + n..])
  }

  /** A string reads back whole exactly when it has at most 65535 bytes. */
  lemma TextRoundTrip(value: Bytes, rest: Bytes)
    ensures ReadText(TextBytes(value) + rest) == Got(if |value| > 65535 then value[..65535] else value, rest)
  {
    var v := if |value| > 65535 then value[..65535] else value;
    var buf := TextBytes(value) + rest;
    assert Word(buf[0], buf[1]) == |v|;
    assert buf[2..2 + |v|] == v && buf[2 + |v|..] == rest;
  }

  /** `decodePublish`: topic and payload of a publish without quality of service. */
  function DecodePublish(flags: Byte, payload: Bytes): Read<Bytes> {
    if flags / 2 % 4 != 0 then Failed(UnsupportedQoS) else ReadText(payload)
  }

  /** A published message arrives as it was sent, if its flags ask for no quality of service and its topic fits. */
  lemma PublishRoundTrip(flags: Byte, topic: Bytes, message: Bytes)
    requires |topic| <= 65535
    ensures DecodePublish(flags, TextBytes(topic) + message) ==
              if flags / 2 % 4 == 0 then Got(topic, message) else Failed(UnsupportedQoS)
  {
    hide TextBytes, ReadText;
    TextRoundTrip(topic, message);
  }

  /** A subscription's filters with their requested quality of service. */
  function FilterBytes(filters: seq<Bytes>): Bytes {
    if filters == [] then [] else TextBytes(filters[0]) + [0] + FilterBytes(filters[1..])
  }

  /** The filters of a subscription body. */
  function ReadFilters(rest: Bytes, valid: Bytes -> bool): Result<seq<Bytes>, WireError>
    decreases |rest|
  {
    if rest == [] then Ok([])
    else
      var r := ReadText(rest);
      if r.Failed? then Err(r.error)
      else if |r.rest| < 1 then Err(UnexpectedEOF)
      else if !valid(r.value) then Err(InvalidFilter)
      else
        var more := ReadFilters(r.rest[1..], valid);
        if more.Err? then more else Ok([r.value] + more.value)
  }

  method ParseSubscribe(payload: Bytes, valid: Bytes -> bool) returns (r: Result<(nat, seq<Bytes>), WireError>)
    ensures |payload| < 3 ==> r == Err(UnexpectedEOF)
    ensures |payload| >= 3 ==>
              match ReadFilters(payload[2..], valid)
              case Err(e) => r == Err(e)
              case Ok(filters) => r == Ok((Word(payload[0], payload[1]), filters))
  {
    if |payload| < 3 { return Err(UnexpectedEOF); }
    var rest := payload[2..];
    var filters: seq<Bytes> := [];
    PrependNothing(ReadFilters(rest, valid));
    while |rest| > 0
      invariant ReadFilters(payload[2..], valid) == Prepend(filters, ReadFilters(rest, valid))
      invariant filters == [] ==> rest != []
      decreases |rest|
    {
      var text := ReadText(rest);
      if text.Failed? { return Err(text.error); }
      if |text.rest| < 1 { return Err(UnexpectedEOF); }
      if !valid(text.value) { return Err(InvalidFilter); }
      PrependMore(filters, text.value, ReadFilters(text.rest[1..], valid));
      filters := filters + [text.value];
      rest := text.rest[1..];
    }
    assert filters + [] == filters;
    return Ok((Word(payload[0], payload[1]), filters));
  }

  function Prepend(filters: seq<Bytes>, r: Result<seq<Bytes>, WireError>): Result<seq<Bytes>, WireError> {
    if r.Err? then r else Ok(filters + r.value)
  }

  lemma PrependNothing(r: Result<seq<Bytes>, WireError>)
    ensures Prepend([], r) == r
  {
    if r.Ok? { assert [] + r.value == r.value; }
  }

  lemma PrependMore(filters: seq<Bytes>, f: Bytes, r: Result<seq<Bytes>, WireError>)
    ensures Prepend(filters, if r.Err? then r else Ok([f] + r.value)) == Prepend(filters + [f], r)
  {
    if r.Ok? { assert filters + ([f] + r.value) == (filters + [f]) + r.value; }
  }

  /** Every list of valid filters of at most 65535 bytes is read back from the body it is encoded in. */
  lemma {:induction false} FiltersRoundTrip(filters: seq<Bytes>, valid: Bytes -> bool)
    requires forall f :: f in filters ==> |f| <= 65535
    ensures ReadFilters(FilterBytes(filters), valid)
         == if forall f :: f in filters ==> valid(f) then Ok(filters) else Err(InvalidFilter)
  {
    hide TextBytes, ReadText;
    if filters != [] {
      var f, more := filters[0], FilterBytes(filters[1..]);
      assert filters == [f] + filters[1..];
      assert FilterBytes(filters) == TextBytes(f) + ([0] + more);
      TextNotEmpty(f);
      TextRoundTrip(f, [0] + more);
      assert ([0] + more)[1..] == more;
      FiltersRoundTrip(filters[1..], valid);
    }
  }

  lemma TextNotEmpty(value: Bytes)
    ensures |TextBytes(value)| >= 2
  {}
}
