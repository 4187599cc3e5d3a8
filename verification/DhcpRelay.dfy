/**
 relay_dhcp_to_client of tools/tunslip.c: the DHCP option filter (options as in section 2 of
 RFC 2132) and the IP and UDP headers built around the result.
 */
module DhcpRelay {
  import opened Bytes
  import opened Checksum
  import opened IpCheck

  // ------------------------------------------------------------------ options

  datatype Opt = Opt(kind: u8, data: bytes)

  const SUBNET_MASK: u8 := 1
  const ROUTER: u8 := 3
  const DNS_SERVER: u8 := 6
  const LEASE_TIME: u8 := 51
  const MSG_TYPE: u8 := 53
  const SERVER_ID: u8 := 54
  const END: u8 := 255

  /** An option with a length byte; a DNS option names at least one server. */
  predicate OptShape(o: Opt) {
    o.kind != 0 && o.kind != END && |o.data| < 256 && (o.kind == DNS_SERVER ==> |o.data| >= 4)
  }

  function EncodeOpt(o: Opt): bytes
    requires OptShape(o)
  {
    [o.kind, |o.data|] + o.data
  }

  function EncodeOpts(opts: seq<Opt>): bytes
    requires forall o :: o in opts ==> OptShape(o)
  {
    if opts == [] then [] else EncodeOpt(opts[0]) + EncodeOpts(opts[1..])
  }

  /** The bytes an option takes: kind, length and data. */
  function OptLen(b: bytes): nat
    requires |b| >= 2
  {
    b[1] as int + 2
  }

  datatype Parsed = Malformed | Options(opts: seq<Opt>)

  /** A list of options up to END; a pad byte (kind 0) before END is not accepted here. */
  function Parse(b: bytes): (r: Parsed)
    ensures r.Options? ==> forall o :: o in r.opts ==> OptShape(o)
    decreases |b|
  {
    if b == [] then Malformed
    else if b[0] == END then Options([])
    else if |b| < 2 || |b| < OptLen(b) then Malformed
    else
      var o := Opt(b[0], b[2..OptLen(b)]);
      var rest := Parse(b[OptLen(b)..]);
      if OptShape(o) && rest.Options? then Options([o] + rest.opts) else Malformed
  }

  lemma {:induction false} ParseEncoded(opts: seq<Opt>, tail: bytes)
    requires forall o :: o in opts ==> OptShape(o)
    ensures Parse(EncodeOpts(opts) + [END] + tail) == Options(opts)
    decreases |opts|
  {
    var b := EncodeOpts(opts) + [END] + tail;
    if opts != [] {
      var o := opts[0];
      var rest := EncodeOpts(opts[1..]) + [END] + tail;
      assert b == EncodeOpt(o) + rest;
      assert b[2..OptLen(b)] == o.data && b[OptLen(b)..] == rest;
      ParseEncoded(opts[1..], tail);
      assert [o] + opts[1..] == opts;
    }
  }

  /** What the client gets of one option. */
  function Relayed(o: Opt): seq<Opt>
    requires OptShape(o)
  {
    if o.kind in {MSG_TYPE, SUBNET_MASK, ROUTER, LEASE_TIME, SERVER_ID} then [o]
    else if o.kind == DNS_SERVER then [Opt(DNS_SERVER, o.data[..4])]
    else []
  }

  function Filter(opts: seq<Opt>): (r: seq<Opt>)
    requires forall o :: o in opts ==> OptShape(o)
    ensures forall o :: o in r ==> OptShape(o)
  {
    if opts == [] then [] else Relayed(opts[0]) + Filter(opts[1..])
  }

  lemma EncodeRelayed(o: Opt, rest: seq<Opt>)
    requires OptShape(o) && forall p :: p in rest ==> OptShape(p)
    ensures EncodeOpts(Relayed(o) + rest) ==
            (if Relayed(o) == [] then [] else EncodeOpt(Relayed(o)[0])) + EncodeOpts(rest)
  {
    if Relayed(o) == [] {
      assert Relayed(o) + rest == rest;
    } else {
      assert (Relayed(o) + rest)[1..] == rest;
    }
  }

  lemma {:induction false} FilteredNoLonger(opts: seq<Opt>)
    requires forall o :: o in opts ==> OptShape(o)
    ensures |EncodeOpts(Filter(opts))| <= |EncodeOpts(opts)|
    decreases |opts|
  {
    if opts != [] {
      EncodeRelayed(opts[0], Filter(opts[1..]));
      FilteredNoLonger(opts[1..]);
    }
  }

  /** The bytes parsed are at least those of the options found, and END. */
  lemma {:induction false} ParsedLength(b: bytes)
    requires Parse(b).Options?
    ensures |EncodeOpts(Parse(b).opts)| + 1 <= |b|
    decreases |b|
  {
    if b[0] != END {
      ParsedLength(b[OptLen(b)..]);
      var opts := Parse(b).opts;
      assert opts[1..] == Parse(b[OptLen(b)..]).opts;
    }
  }

  /** A parsed list starts with the encoding of its options, and END. */
  lemma {:induction false} ParsedPrefix(b: bytes)
    requires Parse(b).Options?
    ensures var k := |EncodeOpts(Parse(b).opts)|;
            k < |b| && b[..k] == EncodeOpts(Parse(b).opts) && b[k] == END
    decreases |b|
  {
    if b[0] != END {
      var n := OptLen(b);
      var o, rest := Opt(b[0], b[2..n]), Parse(b[n..]).opts;
      ParsedPrefix(b[n..]);
      assert Parse(b).opts == [o] + rest && ([o] + rest)[1..] == rest;
      var k := |EncodeOpts(rest)|;
      assert b[..n] == EncodeOpt(o);
      assert b[..n + k] == b[..n] + b[n..][..k];
    }
  }

  // ------------------------------------------------------------------ the copying loop

  predicate Copied(kind: u8) {
    kind == MSG_TYPE || kind == SUBNET_MASK || kind == ROUTER || kind == LEASE_TIME || kind == SERVER_ID
  }

  /** The loop takes every byte but END for a kind that a length follows, and reads on behind what
      was received.  mem is the memory from the first option on. */
  function StepLen(mem: bytes, p: nat): nat {
    At(mem, p + 1) as int + 2
  }

  /** What one turn of the copying loop appends. */
  function Piece(mem: bytes, p: nat): bytes {
    if Copied(At(mem, p)) then Region(mem, p, StepLen(mem, p))
    else if At(mem, p) == DNS_SERVER then [DNS_SERVER, 4] + Region(mem, p + 2, 4)
    else []
  }

  /** What the turns from p on append, for `end` bytes received. */
  function Emitted(mem: bytes, p: nat, end: nat): bytes
    decreases end - p
  {
    if p >= end || At(mem, p) == END then [] else Piece(mem, p) + Emitted(mem, p + StepLen(mem, p), end)
  }

  /** Does the loop stop at an END? */
  predicate Ended(mem: bytes, p: nat, end: nat)
    decreases end - p
  {
    p < end && (At(mem, p) == END || Ended(mem, p + StepLen(mem, p), end))
  }

  /** All options sent on.  `op` is what the variable held that is only set inside the loop. */
  function Output(mem: bytes, end: nat, op: u8): bytes {
    Emitted(mem, 0, end) + if Ended(mem, 0, end) || (end == 0 && op == END) then [END] else []
  }

  lemma {:induction false} EncodingShape(opts: seq<Opt>)
    requires forall o :: o in opts ==> OptShape(o)
    ensures |EncodeOpts(opts)| >= |opts|
    decreases |opts|
  {
    if opts != [] {
      EncodingShape(opts[1..]);
    }
  }

  lemma PieceOf(mem: bytes, p: nat, o: Opt, rest: bytes, last: bytes)
    requires OptShape(o) && p + |EncodeOpt(o)| <= |mem| && mem[p..] == EncodeOpt(o) + rest
    ensures At(mem, p) == o.kind && StepLen(mem, p) == |EncodeOpt(o)|
    ensures Piece(mem, p) == if Relayed(o) == [] then [] else EncodeOpt(Relayed(o)[0])
    ensures mem[p + StepLen(mem, p)..] == rest
  {
    var e := EncodeOpt(o);
    assert forall i :: p <= i < p + |e| ==> At(mem, i) == mem[p..][i - p] == e[i - p];
    assert mem[p + |e|..] == mem[p..][|e|..];
    assert Region(mem, p, |e|) == e;
    if o.kind == DNS_SERVER {
      assert Region(mem, p + 2, 4) == o.data[..4];
    }
  }

  /** Over a well-formed list the loop emits the encoding of the filtered options, whether END or
      the end of what was received stops it. */
  lemma {:induction false} EmittedIsFilter(mem: bytes, p: nat, end: nat, opts: seq<Opt>)
    requires forall o :: o in opts ==> OptShape(o)
    requires p <= |mem| && end <= |mem| && EncodeOpts(opts) <= mem[p..]
    requires var k := p + |EncodeOpts(opts)|; k == end || (k < end && mem[k] == END)
    ensures Emitted(mem, p, end) == EncodeOpts(Filter(opts))
    ensures Ended(mem, p, end) <==> p + |EncodeOpts(opts)| < end
    decreases |opts|
  {
    if opts != [] {
      var o, more := opts[0], EncodeOpts(opts[1..]);
      var rest := mem[p..][|EncodeOpt(o)|..];
      assert EncodeOpts(opts) == EncodeOpt(o) + more;
      assert mem[p..] == EncodeOpt(o) + rest;
      PieceOf(mem, p, o, rest, more);
      var p1 := p + StepLen(mem, p);
      assert rest == mem[p1..] && more <= rest;
      EmittedIsFilter(mem, p1, end, opts[1..]);
      EncodeRelayed(o, Filter(opts[1..]));
    }
  }

  /** With nothing received behind the cookie, what the unset variable held decides about an END. */
  lemma NothingReceived(mem: bytes, op: u8)
    ensures Output(mem, 0, op) == if op == 255 then [255] else []
  {
  }

  /** The kinds by their numbers in RFC 2132: subnet mask, router, lease time, message type and server
      identifier are kept, of DNS servers the first, of all else nothing; and in order. */
  lemma FilterKinds(o: Opt, rest: seq<Opt>)
    requires OptShape(o) && forall p :: p in rest ==> OptShape(p)
    ensures o.kind in {1, 3, 51, 53, 54} ==> Filter([o] + rest) == [o] + Filter(rest)
    ensures o.kind == 6 ==> Filter([o] + rest) == [Opt(6, o.data[..4])] + Filter(rest)
    ensures o.kind !in {1, 3, 6, 51, 53, 54} ==> Filter([o] + rest) == Filter(rest)
  {
    assert ([o] + rest)[1..] == rest;
    assert [] + Filter(rest) == Filter(rest);
  }

  /** A DNS option shorter than one address takes four bytes all the same: here the END and what lies
      behind it, and the END again. */
  lemma ShortDnsReadsOn(op: u8)
    ensures Output([6, 0, 255], 3, op) == [6, 4, 255, 0, 0, 0, 255]
  {
    var mem: bytes := [6, 0, 255];
    assert At(mem, 0) == 6 && StepLen(mem, 0) == 2 && At(mem, 2) == 255;
    assert Region(mem, 2, 4) == [255, 0, 0, 0];
    assert Emitted(mem, 2, 3) == [] && Ended(mem, 2, 3);
    assert Emitted(mem, 0, 3) == Piece(mem, 0) + Emitted(mem, 2, 3);
  }

  /** A pad byte (kind 0, section 3.1 of RFC 2132) has no length, but the loop takes the next byte
      for one: the message type behind it is lost. */
  lemma PadSwallows(op: u8)
    requires op != END
    ensures Output([0, MSG_TYPE, 1, 5, END], 5, op) == []
  {
    var mem: bytes := [0, MSG_TYPE, 1, 5, END];
    assert At(mem, 0) == 0 && StepLen(mem, 0) == 55;
    assert Emitted(mem, 55, 5) == [] && !Ended(mem, 55, 5);
    assert Emitted(mem, 0, 5) == Piece(mem, 0) + Emitted(mem, 55, 5);
  }

  /** One turn of the copying loop. */
  method CopyOne(mem: bytes, p: nat) returns (t: bytes)
    ensures t == Piece(mem, p)
  {
    var op := At(mem, p);
    t := [];
    if Copied(op) {
      t := Region(mem, p, StepLen(mem, p));
    } else if op == DNS_SERVER {
      t := [op, 4];
      t := t + Region(mem, p + 2, 4);
    }
  }

  /** The copying loop. */
  method CopyOptions(mem: bytes, end: nat, stale: u8) returns (t: bytes)
    ensures t == Output(mem, end, stale)
  {
    assert [] + Emitted(mem, 0, end) == Emitted(mem, 0, end);
    t := [];
    var p, op := 0, stale;
    while p < end && At(mem, p) != END
      invariant Rest(mem, end, t, p)
      invariant p == 0 ==> op == stale
      invariant p > 0 ==> op != END && end > 0
    {
      op := At(mem, p);
      RestStep(mem, end, t, p);
      var piece := CopyOne(mem, p);
      t := t + piece;
      p := p + StepLen(mem, p);
    }
    RestDone(mem, end, t, p);
    if p < end {
      op := At(mem, p);
    }
    if op == END {
      t := t + [END];
    }
  }

  /** t holds what the turns before p appended. */
  ghost predicate Rest(mem: bytes, end: nat, t: bytes, p: nat) {
    Emitted(mem, 0, end) == t + Emitted(mem, p, end) && Ended(mem, 0, end) == Ended(mem, p, end)
  }

  lemma RestStep(mem: bytes, end: nat, t: bytes, p: nat)
    requires Rest(mem, end, t, p) && p < end && At(mem, p) != END
    ensures Rest(mem, end, t + Piece(mem, p), p + StepLen(mem, p))
  {
    CopyStep(t, Piece(mem, p), Emitted(mem, p + StepLen(mem, p), end));
  }

  lemma RestDone(mem: bytes, end: nat, t: bytes, p: nat)
    requires Rest(mem, end, t, p) && (p >= end || At(mem, p) == END)
    ensures Emitted(mem, 0, end) == t && (Ended(mem, 0, end) <==> p < end)
  {
    assert t + [] == t;
  }

  lemma CopyStep(t: bytes, piece: bytes, rest: bytes)
    ensures t + (piece + rest) == (t + piece) + rest
  {
  }

  /** For a well-formed option area what is sent parses to the filtered list. */
  lemma OutputFiltered(mem: bytes, end: nat, op: u8)
    requires end <= |mem| && Parse(mem[..end]).Options?
    ensures var opts := Filter(Parse(mem[..end]).opts);
            && Output(mem, end, op) == EncodeOpts(opts) + [END]
            && Parse(Output(mem, end, op)) == Options(opts) && |Output(mem, end, op)| <= end
  {
    var b := mem[..end];
    var opts := Parse(b).opts;
    var k := |EncodeOpts(opts)|;
    ParsedPrefix(b);
    assert b[..k] == mem[0..][..k] && b[k] == mem[k];
    EmittedIsFilter(mem, 0, end, opts);
    FilteredEnd(b, Output(mem, end, op));
  }

  /** ... and a list that no END closes is filtered just so, and not closed either. */
  lemma OutputUnclosed(mem: bytes, end: nat, opts: seq<Opt>, op: u8)
    requires end <= |mem| && opts != [] && (forall o :: o in opts ==> OptShape(o)) && mem[..end] == EncodeOpts(opts)
    ensures Output(mem, end, op) == EncodeOpts(Filter(opts))
  {
    EncodingShape(opts);
    assert mem[0..][..end] == EncodeOpts(opts);
    EmittedIsFilter(mem, 0, end, opts);
  }

  lemma FilteredEnd(b: bytes, t: bytes)
    requires Parse(b).Options? && t == EncodeOpts(Filter(Parse(b).opts)) + [END]
    ensures Parse(t) == Options(Filter(Parse(b).opts)) && |t| <= |b|
  {
    var opts := Filter(Parse(b).opts);
    ParseEncoded(opts, []);
    assert t == EncodeOpts(opts) + [END] + [];
    FilteredNoLonger(Parse(b).opts);
    ParsedLength(b);
  }

  // ------------------------------------------------------------------ the packet around them

  const BASE_LEN := 44
  const HOLE_LEN := 192
  const OPTIONS_LEN := 312
  const MESSAGE_LEN := BASE_LEN + HOLE_LEN + OPTIONS_LEN

  /** Header bytes with a zero checksum. */
  function Header0(src: bytes, dst: bytes, id: u16, ipLen: u16): bytes {
    [0x45, 0, ipLen / 0x100, ipLen % 0x100, id / 0x100, id % 0x100, 0, 0, 64, 17, 0, 0] + src + dst
  }

  function Udp0(udpLen: u16, message: bytes): bytes {
    [0, 67, 0, 68, udpLen / 0x100, udpLen % 0x100, 0, 0] + message
  }

  /** The checksum field that complements a sum. */
  function Complement(sum: u16): u16 {
    0xffff - sum
  }

  /** A UDP checksum of 0 would mean none, so 0xffff is sent for it. */
  function UdpComplement(sum: u16): u16 {
    if sum != 0xffff then 0xffff - sum else 0xffff
  }

  function Header(src: bytes, dst: bytes, id: u16, ipLen: u16): (r: bytes)
    requires |src| == |dst| == 4
    ensures |r| == 20
  {
    var h := Header0(src, dst, id, ipLen);
    PutWord(h, 10, Complement(Ip4Sum(0, h)))
  }

  function Datagram(addresses: bytes, message: bytes): (r: bytes)
    requires |message| + 8 < 0x1_0000 - 17
    ensures |r| == |message| + 8
  {
    Sealed(17 + |message| + 8, addresses, Udp0(|message| + 8, message))
  }

  /** The datagram u with the checksum that its words, the addresses a and `start` ask for. */
  function Sealed(start: u16, a: bytes, u: bytes): (r: bytes)
    requires |u| >= 8
    ensures |r| == |u|
  {
    PutWord(u, 6, UdpComplement(Ip4Sum(Ip4Sum(start, a), u)))
  }

  function Packet(src: bytes, dst: bytes, id: u16, message: bytes): bytes
    requires |src| == |dst| == 4 && |message| + 28 < 0x1_0000 - 17
  {
    Header(src, dst, id, |message| + 28) + Datagram(src + dst, message)
  }

  /** n plus the complement of its norm is zero in one's complement. */
  lemma ComplementZero(n: nat)
    ensures Acceptable(Norm(n + Complement(Norm(n)))) && Acceptable(Norm(n + UdpComplement(Norm(n))))
  {
    var q := NormCongruent(n);
    NormZero(q + 1);
    NormZero(q + 2);
  }

  lemma HeaderSum(src: bytes, dst: bytes, id: u16, ipLen: u16)
    requires |src| == |dst| == 4
    ensures Acceptable(Norm(WordSum(Header(src, dst, id, ipLen))))
  {
    var h := Header0(src, dst, id, ipLen);
    var c := Complement(Ip4Sum(0, h));
    SumMeaning(0, h);
    WordSumUpdate(h, 10, c / 0x100, c % 0x100);
    ComplementZero(WordSum(h));
  }

  lemma SealedSum(start: u16, a: bytes, u: bytes)
    requires |a| == 8 && |u| >= 8 && u[6] == 0 && u[7] == 0
    ensures var r := Sealed(start, a, u);
            Acceptable(Norm(start + WordSum(a) + WordSum(r))) && Word(r[6], r[7]) != 0
  {
    var c := UdpComplement(Ip4Sum(Ip4Sum(start, a), u));
    TwoPartsMeaning(start, a, u);
    WordSumUpdate(u, 6, c / 0x100, c % 0x100);
    ComplementZero(start + WordSum(a) + WordSum(u));
  }

  lemma DatagramSum(addresses: bytes, message: bytes)
    requires |addresses| == 8 && |message| + 8 < 0x1_0000 - 17
    ensures Acceptable(Norm(17 + |message| + 8 + WordSum(addresses) + WordSum(Datagram(addresses, message))))
    ensures var u := Datagram(addresses, message); Word(u[6], u[7]) != 0
  {
    SealedSum(17 + |message| + 8, addresses, Udp0(|message| + 8, message));
  }

  /** Where things are in the packet. */
  lemma PacketLayout(src: bytes, dst: bytes, id: u16, message: bytes)
    requires |src| == |dst| == 4 && |message| + 28 < 0x1_0000 - 17
    ensures var p := Packet(src, dst, id, message);
            && |p| == |message| + 28
            && At(p, 0) == 0x45 && At(p, 9) == 17 && Word(At(p, 2), At(p, 3)) == |p|
            && Region(p, 0, 20) == Header(src, dst, id, |p|) && Region(p, 12, 8) == src + dst
            && Region(p, 20, |message| + 8) == Datagram(src + dst, message)
            && p[28..] == message
  {
    var p := Packet(src, dst, id, message);
    var h, u := Header(src, dst, id, |p|), Datagram(src + dst, message);
    assert p == h + u;
    assert Region(p, 0, 20) == h;
    assert Region(p, 12, 8) == h[12..20] == src + dst;
    assert Region(p, 20, |u|) == u;
    assert p[28..] == u[8..] == message;
  }

  lemma AcceptedBySums(p: bytes)
    requires 28 <= |p| < 0x1_0000 - 17
    requires At(p, 0) == 0x45 && At(p, 9) == 17 && Word(At(p, 2), At(p, 3)) == |p|
    requires Acceptable(Norm(WordSum(Region(p, 0, 20))))
    requires Acceptable(Norm(17 + (|p| - 20) + WordSum(Region(p, 12, 8)) + WordSum(Region(p, 20, |p| - 20))))
    ensures CheckIp(p, |p|) == 0
  {
    HeaderMeaning(p);
    PayloadMeaning(p, |p|);
    PlainHeader(p);
  }

  lemma PlainHeader(p: bytes)
    requires 28 <= |p| < 0x1_0000 - 17 && At(p, 0) == 0x45 && At(p, 9) == 17
    ensures HeaderLength(p) == 20 && PayloadLength(p, |p|) == |p| - 20
    ensures PseudoStart(p, |p|) == 17 + (|p| - 20)
  {
  }

  /** Every packet so built passes check_ip and carries a UDP checksum. */
  lemma PacketAccepted(src: bytes, dst: bytes, id: u16, message: bytes)
    requires |src| == |dst| == 4 && |message| + 28 < 0x1_0000 - 17
    ensures var p := Packet(src, dst, id, message);
            CheckIp(p, |p|) == 0 && GetWord(p, 26) != 0
  {
    var p := Packet(src, dst, id, message);
    PacketLayout(src, dst, id, message);
    HeaderSum(src, dst, id, |p|);
    DatagramSum(src + dst, message);
    AcceptedBySums(p);
    var u := Region(p, 20, |message| + 8);
    assert At(p, 26) == u[6] && At(p, 27) == u[7];
  }

  /** The fixed part sent on: one more hop, no gateway address. */
  function ClientBase(inm: bytes): (r: bytes)
    requires |inm| >= BASE_LEN
    ensures |r| == BASE_LEN
  {
    inm[..3] + [(inm[3] as int + 1) % 256] + inm[4..24] + [0, 0, 0, 0] + inm[28..BASE_LEN]
  }

  datatype Reply = NoReply | Send(packet: bytes)

  /** Where the parts of a reply are. */
  lemma ReplyParts(src: bytes, dst: bytes, id: u16, base: bytes, cookie: bytes, options: bytes)
    requires |src| == |dst| == 4 && |base| == 44 && |cookie| == 4 && |options| < 0x1000
    ensures var p := Packet(src, dst, id, base + cookie + options);
            && |p| >= 76 && GetWord(p, 4) == id && p[12..16] == src && p[16..20] == dst
            && p[28..72] == base && p[72..76] == cookie && p[76..] == options
  {
    var message := base + cookie + options;
    var p := Packet(src, dst, id, message);
    PacketLayout(src, dst, id, message);
    assert p[28..][..44] == base && p[28..][44..48] == cookie && p[28..][48..] == options;
    assert p[12..20] == Region(p, 12, 8);
    assert GetWord(p, 4) == id;
  }

  /** The header fields of a reply: IPv4 with 20 bytes of header, no fragments, 64 hops, UDP from
      port 67 to port 68, and both lengths. */
  lemma ReplyHeader(src: bytes, dst: bytes, id: u16, message: bytes)
    requires |src| == |dst| == 4 && |message| + 28 < 0x1_0000 - 17
    ensures var p := Packet(src, dst, id, message);
            && |p| == |message| + 28 && p[0] == 0x45 && p[1] == 0 && GetWord(p, 2) == |p| && GetWord(p, 6) == 0
            && p[8] == 64 && p[9] == 17
            && GetWord(p, 20) == 67 && GetWord(p, 22) == 68 && GetWord(p, 24) == |p| - 20
  {
    var p := Packet(src, dst, id, message);
    var h, u := Header(src, dst, id, |message| + 28), Datagram(src + dst, message);
    assert p == h + u;
    HeaderBytes(src, dst, id, |message| + 28);
    DatagramBytes(src + dst, message);
    assert p[20] == u[0] && p[21] == u[1] && p[22] == u[2] && p[23] == u[3] && p[24] == u[4] && p[25] == u[5];
  }

  lemma HeaderBytes(src: bytes, dst: bytes, id: u16, ipLen: u16)
    requires |src| == |dst| == 4
    ensures var h := Header(src, dst, id, ipLen);
            && h[0] == 0x45 && h[1] == 0 && Word(h[2], h[3]) == ipLen
            && h[6] == 0 && h[7] == 0 && h[8] == 64 && h[9] == 17
  {
  }

  lemma DatagramBytes(addresses: bytes, message: bytes)
    requires |message| + 8 < 0x1_0000 - 17
    ensures var u := Datagram(addresses, message);
            && u[0] == 0 && u[1] == 67 && u[2] == 0 && u[3] == 68 && Word(u[4], u[5]) == |message| + 8
  {
  }

  /** Bytes received behind the cookie. */
  function OptionBytes(n: nat): nat {
    if n < BASE_LEN + HOLE_LEN + 4 then 0 else n - BASE_LEN - HOLE_LEN - 4
  }

  /** The bytes in front of the options: an accepted UDP packet from port 67 to port 68, with the
      fixed part of the message received, one more hop and no gateway, and the cookie. */
  ghost predicate ReplyFront(p: bytes, inm: bytes, giaddr: bytes, id: u16) {
    && |inm| >= 240 && 76 <= |p| && CheckIp(p, |p|) == 0 && GetWord(p, 26) != 0
    && p[0] == 0x45 && p[1] == 0 && GetWord(p, 2) == |p| && GetWord(p, 4) == id && GetWord(p, 6) == 0
    && p[8] == 64 && p[9] == 17 && p[12..16] == giaddr
    && GetWord(p, 20) == 67 && GetWord(p, 22) == 68 && GetWord(p, 24) == |p| - 20
    && p[31] == (inm[3] as int + 1) % 256 && p[52..56] == [0, 0, 0, 0]
    && (forall i :: 0 <= i < 44 && i != 3 && !(24 <= i < 28) ==> p[28 + i] == inm[i])
    && p[72..76] == inm[236..240]
  }

  lemma ReplyBuilt(inm: bytes, giaddr: bytes, dst: bytes, id: u16, options: bytes)
    requires |inm| >= 240 && |giaddr| == |dst| == 4 && |options| < 0x1000
    ensures var p := Packet(giaddr, dst, id, ClientBase(inm) + inm[236..240] + options);
            ReplyFront(p, inm, giaddr, id) && p[16..20] == dst && p[76..] == options
  {
    var message := ClientBase(inm) + inm[236..240] + options;
    var p := Packet(giaddr, dst, id, message);
    PacketAccepted(giaddr, dst, id, message);
    ReplyHeader(giaddr, dst, id, message);
    ReplyParts(giaddr, dst, id, ClientBase(inm), inm[236..240], options);
    BaseBytes(inm, p);
  }

  lemma BaseBytes(inm: bytes, p: bytes)
    requires |inm| >= BASE_LEN && |p| >= 72 && p[28..72] == ClientBase(inm)
    ensures p[31] == (inm[3] as int + 1) % 256 && p[52..56] == [0, 0, 0, 0]
    ensures forall i :: 0 <= i < 44 && i != 3 && !(24 <= i < 28) ==> p[28 + i] == inm[i]
  {
    var b := ClientBase(inm);
    assert forall i :: 0 <= i < 44 ==> p[28 + i] == p[28..72][i] == b[i];
    assert p[52..56] == b[24..28] == [0, 0, 0, 0];
  }

  /** relay_dhcp_to_client.  `inm` is the memory from the message buffer on, `n` the number of
      bytes received, `stale` the initial content of a variable the source does not set.  The
      reply goes to everyone if the client set the broadcast bit and else to its new address; for
      a well-formed option area it carries the filtered list. */
  method RelayToClient(inm: bytes, n: nat, giaddr: bytes, id: u16, stale: u8) returns (r: Reply)
    requires n <= MESSAGE_LEN <= |inm| && |giaddr| == 4
    requires |Output(inm[240..], OptionBytes(n), stale)| <= OPTIONS_LEN - 4
    ensures inm[0] != 2 <==> r.NoReply?
    ensures r.Send? ==> ReplyFront(r.packet, inm, giaddr, id)
    ensures r.Send? && inm[10] >= 128 ==> r.packet[16..20] == [255, 255, 255, 255]
    ensures r.Send? && inm[10] < 128 ==> r.packet[16..20] == inm[16..20]
    ensures r.Send? ==> r.packet[76..] == Output(inm[240..], if n < 240 then 0 else n - 240, stale)
    ensures r.Send? && n >= 240 && Parse(inm[240..n]).Options? ==>
              Parse(r.packet[76..]) == Options(Filter(Parse(inm[240..n]).opts))
  {
    if inm[0] != 2 {
      return NoReply;
    }
    var options := CopyOptions(inm[240..], OptionBytes(n), stale);
    var message := ClientBase(inm) + inm[236..240] + options;
    var dst := ReplyAddress(inm);
    r := Send(Packet(giaddr, dst, id, message));
    ReplyBuilt(inm, giaddr, dst, id, options);
    ReplyFiltered(inm, n, stale);
  }

  /** Bit 15 of the flags asks for a broadcast. */
  method ReplyAddress(inm: bytes) returns (dst: bytes)
    requires |inm| >= BASE_LEN
    ensures |dst| == 4
    ensures inm[10] >= 128 ==> dst == [255, 255, 255, 255]
    ensures inm[10] < 128 ==> dst == inm[16..20]
  {
    dst := if inm[10] >= 128 then [255, 255, 255, 255] else inm[16..20];
  }

  lemma ReplyFiltered(inm: bytes, n: nat, stale: u8)
    requires n <= |inm|
    ensures n >= 240 && Parse(inm[240..n]).Options? ==>
              Parse(Output(inm[240..], n - 240, stale)) == Options(Filter(Parse(inm[240..n]).opts))
  {
    if n >= 240 && Parse(inm[240..n]).Options? {
      assert inm[240..][..n - 240] == inm[240..n];
      OutputFiltered(inm[240..], n - 240, stale);
    }
  }
}
