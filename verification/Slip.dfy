/**
 SLIP framing (RFC 1055) as tools/tunslip.c writes and reads it: the escaping in
 write_to_serial and the resumable reader serial_to_tun.
 */
module Slip {
  import opened Bytes
  import opened IpCheck
  import opened IpMemory

  const END: u8 := 0xC0
  const ESC: u8 := 0xDB
  const ESC_END: u8 := 0xDC
  const ESC_ESC: u8 := 0xDD
  const BUFSIZE := 2000

  // ------------------------------------------------------------------ writing

  function EncodeByte(c: u8): bytes {
    if c == END then [ESC, ESC_END] else if c == ESC then [ESC, ESC_ESC] else [c]
  }

  function Escaped(p: bytes): bytes {
    if p == [] then [] else EncodeByte(p[0]) + Escaped(p[1..])
  }

  function Encode(p: bytes): bytes {
    Escaped(p) + [END]
  }

  function EncodeAll(packets: seq<bytes>): bytes {
    if packets == [] then [] else Encode(packets[0]) + EncodeAll(packets[1..])
  }

  lemma {:induction false} EscapedAppend(p: bytes, c: u8)
    ensures Escaped(p + [c]) == Escaped(p) + EncodeByte(c)
    decreases |p|
  {
    if p == [] {
      assert p + [c] == [c];
      assert Escaped([c][1..]) == [];
    } else {
      assert (p + [c])[1..] == p[1..] + [c];
      EscapedAppend(p[1..], c);
    }
  }

  /** The bytes on the wire, as in RFC 1055: END is C0 and goes out as DB DC, ESC is DB and goes out as
      DB DD, every other byte as itself. */
  lemma WireBytes(c: u8)
    ensures Escaped([0xC0]) == [0xDB, 0xDC] && Escaped([0xDB]) == [0xDB, 0xDD]
    ensures c != 0xC0 && c != 0xDB ==> Escaped([c]) == [c]
  {
    assert Escaped([]) == [];
    assert [0xC0][1..] == [] && [0xDB][1..] == [] && [c][1..] == [];
  }

  /** END occurs once in an encoded packet, as its last byte. */
  lemma {:induction false} OnlyLastIsEnd(p: bytes)
    ensures 0xC0 !in Escaped(p) && Encode(p) == Escaped(p) + [0xC0]
    decreases |p|
  {
    if p != [] {
      OnlyLastIsEnd(p[1..]);
    }
  }

  // ------------------------------------------------------------------ reading

  type Inbuf = b: bytes | |b| == BUFSIZE witness seq(BUFSIZE, _ => 0)

  /** `pushed` is an ESC put back because its partner had not arrived. */
  datatype Reader = Reader(inbuf: Inbuf, ptr: nat, pushed: bool)

  ghost predicate InBounds(d: Reader) {
    d.ptr < BUFSIZE
  }

  /** What the buffer held when an END closed a frame of `len` bytes. */
  datatype Frame = Frame(mem: Inbuf, len: nat)

  /** Store one byte; a full buffer is silently started over. */
  function Store(d: Reader, c: u8): (r: Reader)
    requires InBounds(d)
    ensures InBounds(r)
  {
    d.(inbuf := d.inbuf[d.ptr := c], ptr := if d.ptr + 1 >= BUFSIZE then 0 else d.ptr + 1)
  }

  function Unescape(c: u8): u8 {
    if c == ESC_END then END else if c == ESC_ESC then ESC else c
  }

  /** Reading until the input runs dry. */
  function Decode(d: Reader, input: bytes): (r: (Reader, seq<Frame>))
    requires InBounds(d)
    ensures InBounds(r.0)
    decreases |input|
  {
    if input == [] then (d, [])
    else if input[0] == END then
      if d.ptr > 0 then
        var (e, frames) := Decode(d.(ptr := 0), input[1..]);
        (e, [Frame(d.inbuf, d.ptr)] + frames)
      else Decode(d, input[1..])
    else if input[0] == ESC then
      if |input| == 1 then (d.(pushed := true), [])
      else Decode(Store(d, Unescape(input[1])), input[2..])
    else Decode(Store(d, input[0]), input[1..])
  }

  /** One call of serial_to_tun with `chunk` available. */
  function Feed(d: Reader, chunk: bytes): (r: (Reader, seq<Frame>))
    requires InBounds(d)
    ensures InBounds(r.0)
  {
    Decode(d.(pushed := false), if d.pushed then [ESC] + chunk else chunk)
  }

  function FeedAll(d: Reader, chunks: seq<bytes>): (r: (Reader, seq<Frame>))
    requires InBounds(d)
    ensures InBounds(r.0)
    decreases |chunks|
  {
    if chunks == [] then (d, []) else
    var (e, first) := Feed(d, chunks[0]);
    var (f, rest) := FeedAll(e, chunks[1..]);
    (f, first + rest)
  }

  function Flatten(chunks: seq<bytes>): bytes {
    if chunks == [] then [] else chunks[0] + Flatten(chunks[1..])
  }

  /** Cutting the input anywhere, even between ESC and its partner, changes nothing. */
  lemma {:induction false} DecodeSplit(d: Reader, a: bytes, b: bytes)
    requires InBounds(d) && !d.pushed
    ensures var (e, first) := Decode(d, a);
            var (f, rest) := Feed(e, b);
            Decode(d, a + b) == (f, first + rest)
    decreases |a|
  {
    if a == [] {
      assert a + b == b;
      assert d.(pushed := false) == d && [] + Feed(d, b).1 == Feed(d, b).1;
    } else if a[0] == ESC && |a| == 1 {
      assert a == [ESC];
      var e := d.(pushed := true);
      assert e.(pushed := false) == d && Decode(d, a) == (e, []);
      assert [] + Feed(e, b).1 == Feed(e, b).1;
    } else if a[0] == ESC {
      assert (a + b)[2..] == a[2..] + b;
      DecodeSplit(Store(d, Unescape(a[1])), a[2..], b);
    } else if a[0] == END {
      assert (a + b)[1..] == a[1..] + b;
      var e := d.(ptr := 0);
      DecodeSplit(e, a[1..], b);
      if d.ptr == 0 {
        assert e == d;
      } else {
        var (f, first) := Decode(e, a[1..]);
        var closed := [Frame(d.inbuf, d.ptr)];
        assert closed + (first + Feed(f, b).1) == (closed + first) + Feed(f, b).1;
      }
    } else {
      assert (a + b)[1..] == a[1..] + b;
      DecodeSplit(Store(d, a[0]), a[1..], b);
    }
  }

  /** Chunking does not matter: feeding chunk by chunk is decoding the whole stream. */
  lemma {:induction false} ChunkingIrrelevant(d: Reader, chunks: seq<bytes>)
    requires InBounds(d)
    ensures FeedAll(d, chunks) == if chunks == [] then (d, []) else Feed(d, Flatten(chunks))
    decreases |chunks|
  {
    if chunks != [] {
      var first := if d.pushed then [ESC] + chunks[0] else chunks[0];
      var e := d.(pushed := false);
      var rest := Flatten(chunks[1..]);
      ChunkingIrrelevant(Feed(d, chunks[0]).0, chunks[1..]);
      DecodeSplit(e, first, rest);
      assert first + rest == if d.pushed then [ESC] + Flatten(chunks) else Flatten(chunks);
      if chunks[1..] == [] {
        assert rest == [] && first + rest == first;
      }
    }
  }

  /** How a byte is stored: at the index, which then moves on, and from the last of 2000 places back
      to the first. */
  lemma StoreMeaning(d: Reader, c: u8)
    requires InBounds(d)
    ensures var e := Store(d, c);
            && e.inbuf[d.ptr] == c && (forall i :: 0 <= i < 2000 && i != d.ptr ==> e.inbuf[i] == d.inbuf[i])
            && e.ptr == (if d.ptr == 1999 then 0 else d.ptr + 1) && e.pushed == d.pushed
  {
  }

  /** An END with nothing before it closes no frame. */
  lemma EmptyFrame(d: Reader, rest: bytes)
    requires InBounds(d) && d.ptr == 0
    ensures Decode(d, [0xC0] + rest) == Decode(d, rest)
  {
    assert ([0xC0] + rest)[1..] == rest;
  }

  /** After ESC any byte but DC and DD stands for itself, END and ESC too. */
  lemma UnknownEscape(d: Reader, c: u8, rest: bytes)
    requires InBounds(d) && c != 0xDC && c != 0xDD
    ensures Decode(d, [0xDB, c] + rest) == Decode(Store(d, c), rest)
  {
    assert ([0xDB, c] + rest)[2..] == rest;
  }

  // ------------------------------------------------------------------ round trip

  /** The reader has collected the first `ptr` bytes of packet p. */
  ghost predicate Collected(d: Reader, p: bytes) {
    && InBounds(d) && !d.pushed && d.ptr <= |p| < BUFSIZE
    && d.inbuf[..d.ptr] == p[..d.ptr]
  }

  lemma CollectNext(d: Reader, p: bytes)
    requires Collected(d, p) && d.ptr < |p|
    ensures Collected(Store(d, p[d.ptr]), p) && Store(d, p[d.ptr]).ptr == d.ptr + 1
  {
    var e := Store(d, p[d.ptr]);
    assert e.inbuf[..e.ptr] == d.inbuf[..d.ptr] + [p[d.ptr]];
  }

  lemma {:induction false} DecodePacket(d: Reader, p: bytes, rest: bytes)
    requires Collected(d, p) && |p| > 0
    ensures exists mem: Inbuf :: mem[..|p|] == p
              && var (e, frames) := Decode(Reader(mem, 0, false), rest);
                 Decode(d, Escaped(p[d.ptr..]) + [END] + rest) == (e, [Frame(mem, |p|)] + frames)
    decreases |p| - d.ptr
  {
    var input := Escaped(p[d.ptr..]) + [END] + rest;
    if d.ptr == |p| {
      assert input[1..] == rest && input[0] == END;
      assert d.(ptr := 0) == Reader(d.inbuf, 0, false);
      assert d.inbuf[..|p|] == p;
    } else {
      var c := p[d.ptr];
      var e := Store(d, c);
      CollectNext(d, p);
      assert p[d.ptr..][1..] == p[e.ptr..];
      var tail := Escaped(p[e.ptr..]) + [END] + rest;
      assert input == EncodeByte(c) + tail;
      DecodePacket(e, p, rest);
      if c == END || c == ESC {
        assert input[2..] == tail && input[0] == ESC && Unescape(input[1]) == c;
      } else {
        assert input[1..] == tail && input[0] == c;
      }
      assert Decode(d, input) == Decode(e, tail);
    }
  }

  ghost predicate Carries(frames: seq<Frame>, packets: seq<bytes>) {
    && |frames| == |packets|
    && forall k :: 0 <= k < |packets| ==>
         frames[k].len == |packets[k]| < BUFSIZE && frames[k].mem[..frames[k].len] == packets[k]
  }

  lemma {:induction false} DecodeAll(d: Reader, packets: seq<bytes>)
    requires InBounds(d) && !d.pushed && d.ptr == 0
    requires forall k :: 0 <= k < |packets| ==> 1 <= |packets[k]| < BUFSIZE
    ensures var (e, frames) := Decode(d, EncodeAll(packets));
            Carries(frames, packets) && e.ptr == 0 && !e.pushed
    decreases |packets|
  {
    if packets != [] {
      var p, rest := packets[0], EncodeAll(packets[1..]);
      assert d.inbuf[..0] == p[..0] && p[0..] == p;
      DecodePacket(d, p, rest);
      assert EncodeAll(packets) == Escaped(p) + [END] + rest;
      var mem: Inbuf :| mem[..|p|] == p
        && var (e, frames) := Decode(Reader(mem, 0, false), rest);
           Decode(d, Escaped(p[d.ptr..]) + [END] + rest) == (e, [Frame(mem, |p|)] + frames);
      DecodeAll(Reader(mem, 0, false), packets[1..]);
    }
  }

  // ------------------------------------------------------------------ what becomes of a frame

  datatype Event =
    | ToTun(packet: bytes)
    | ToServer(packet: bytes)
    | Address(addr: bytes)
    | Text(text: bytes)
    | Dropped(len: nat, code: int)

  predicate SensibleString(mem: bytes, len: nat)
    requires len <= |mem|
  {
    forall i :: 1 <= i < len ==> mem[i] in {0, 13, 10, 9} || 32 <= mem[i] <= 126
  }

  /** A DHCP request on its way to the server port, when the relay is on. */
  predicate DhcpRequest(mem: bytes) {
    && At(mem, 9) == 17 && Region(mem, 16, 4) == [255, 255, 255, 255]
    && Region(mem, 20, 4) == [0, 68, 0, 67]
  }

  function Dispatch(f: Frame, relay: bool): Event
    requires 0 < f.len <= BUFSIZE
  {
    var code := CheckIp(f.mem, f.len);
    if code < 0 && f.len == 8 && f.mem[..4] == [61, 73, 80, 65] then Address(f.mem[4..8])
    else if code < 0 then
      if f.mem[0] == 13 then Text(f.mem[1..f.len])
      else if SensibleString(f.mem, f.len) then Text(f.mem[..f.len])
      else Dropped(f.len, code)
    else if relay && DhcpRequest(f.mem) then ToServer(f.mem[..f.len])
    else ToTun(f.mem[..f.len])
  }

  /** What becomes of a frame, by its bytes.  Accepted packets go to the tunnel, but with the relay on
      UDP broadcasts from port 68 to port 67 go to the DHCP server.  Of refused frames, eight bytes
      that begin "=IPA" set the address; a carriage return marks debug output; text is shown; the
      rest is dropped with its length and check_ip's result. */
  lemma DispatchMeaning(f: Frame, relay: bool)
    requires 0 < f.len <= BUFSIZE
    ensures var e, m := Dispatch(f, relay), f.mem;
            var bad := CheckIp(m, f.len) < 0;
            var named := f.len == 8 && m[..4] == [61, 73, 80, 65];
            var request := m[9] == 17 && m[16..20] == [255, 255, 255, 255] && m[20..24] == [0, 68, 0, 67];
            var readable := forall i :: 1 <= i < f.len ==> m[i] in {0, 9, 10, 13} || 32 <= m[i] <= 126;
            && (!bad && !(relay && request) <==> e == ToTun(m[..f.len]))
            && (!bad && relay && request <==> e == ToServer(m[..f.len]))
            && (bad && named <==> e.Address?) && (e.Address? ==> e.addr == m[4..8])
            && (bad && !named && m[0] == 13 ==> e == Text(m[1..f.len]))
            && (bad && !named && m[0] != 13 && readable ==> e == Text(m[..f.len]))
            && (bad && !named && m[0] != 13 && !readable <==> e.Dropped?)
            && (e.Dropped? ==> e == Dropped(f.len, CheckIp(m, f.len)))
  {
    assert Region(f.mem, 16, 4) == f.mem[16..20] && Region(f.mem, 20, 4) == f.mem[20..24];
  }

  /** SLIP transport: whatever the chunking of the byte stream, the reader recovers exactly the
      packets that were encoded, in order, and hands on unchanged every valid one whose verdict
      does not hang on the memory behind it. */
  lemma SlipTransport(d: Reader, packets: seq<bytes>, chunks: seq<bytes>, relay: bool)
    requires InBounds(d) && !d.pushed && d.ptr == 0
    requires forall k :: 0 <= k < |packets| ==> 1 <= |packets[k]| < BUFSIZE
    requires Flatten(chunks) == EncodeAll(packets)
    ensures var (e, frames) := FeedAll(d, chunks);
            && Carries(frames, packets) && e.ptr == 0 && !e.pushed
            && forall k :: 0 <= k < |packets| && Robust(packets[k], |packets[k]|)
                           && CheckIp(packets[k], |packets[k]|) == 0 ==>
                 && CheckIp(frames[k].mem, frames[k].len) == 0
                 && (Dispatch(frames[k], relay) == ToTun(packets[k])
                     || (relay && Dispatch(frames[k], relay) == ToServer(packets[k])))
  {
    ChunkingIrrelevant(d, chunks);
    DecodeAll(d, packets);
    assert d.(pushed := false) == d;
    var (e, frames) := FeedAll(d, chunks);
    assert packets == [] || chunks != [];
    if chunks == [] {
      assert Decode(d, EncodeAll(packets)) == (d, []);
    }
    assert (e, frames) == Decode(d, EncodeAll(packets));
    forall k | 0 <= k < |packets| && Robust(packets[k], |packets[k]|)
               && CheckIp(packets[k], |packets[k]|) == 0
      ensures CheckIp(frames[k].mem, frames[k].len) == 0
    {
      var p := packets[k];
      assert p[..|p|] == p;
      RobustIff(p, |p|);
    }
  }
}
