/**
 relay_dhcp_to_server of tools/tunslip.c: a client's request goes on to the server with the
 relay's own options put in over its last byte.
 */
module DhcpRequest {
  import opened Bytes
  import opened DhcpRelay

  const AGENT: u8 := 82
  const SUBNET_SELECTION: u8 := 118

  datatype Addresses = Addresses(gateway: bytes, net: bytes, circuit: bytes)

  predicate AddressShape(a: Addresses) {
    |a.gateway| == |a.net| == |a.circuit| == 4
  }

  /** Subnet selection (RFC 3011) and relay agent information (RFC 3046). */
  function RelayOptions(a: Addresses): (r: seq<Opt>)
    requires AddressShape(a)
    ensures forall o :: o in r ==> OptShape(o)
  {
    [Opt(SUBNET_SELECTION, a.net), Opt(AGENT, [5, 4] + a.net + [1, 4] + a.circuit + [3, 4] + a.gateway)]
  }

  /** The option area sent on: the last byte is taken to be END and moved behind the new options. */
  function Extended(b: bytes, extra: seq<Opt>): bytes
    requires |b| > 0 && forall o :: o in extra ==> OptShape(o)
  {
    b[..|b| - 1] + EncodeOpts(extra) + [END]
  }

  lemma {:induction false} EncodeConcat(a: seq<Opt>, b: seq<Opt>)
    requires (forall o :: o in a ==> OptShape(o)) && (forall o :: o in b ==> OptShape(o))
    ensures EncodeOpts(a + b) == EncodeOpts(a) + EncodeOpts(b)
    decreases |a|
  {
    if a == [] {
      assert a + b == b;
    } else {
      assert (a + b)[1..] == a[1..] + b;
      EncodeConcat(a[1..], b);
    }
  }

  /** END is the last byte: nothing follows it. */
  ghost predicate EndsAtEnd(b: bytes)
    requires Parse(b).Options?
  {
    |EncodeOpts(Parse(b).opts)| + 1 == |b|
  }

  /** The server finds the client's options followed by the new ones exactly when the client put
      nothing behind its END; otherwise the new ones are behind an END and not found. */
  lemma SeenByServerIff(b: bytes, extra: seq<Opt>)
    requires Parse(b).Options? && extra != [] && forall o :: o in extra ==> OptShape(o)
    ensures Parse(Extended(b, extra)) == Options(Parse(b).opts + extra) <==> EndsAtEnd(b)
    ensures !EndsAtEnd(b) ==> Parse(Extended(b, extra)) == Options(Parse(b).opts)
  {
    var opts := Parse(b).opts;
    ParsedPrefix(b);
    if EndsAtEnd(b) {
      EndedExtension(b, EncodeOpts(opts), extra);
      EncodeConcat(opts, extra);
      ParseEncoded(opts + extra, []);
    } else {
      var tail := PaddedExtension(b, EncodeOpts(opts), extra);
      ParseEncoded(opts, tail);
      assert |opts + extra| > |opts|;
    }
  }

  /** One byte behind END is enough: whatever the client's options, the server finds only them. */
  lemma PaddingHides(opts: seq<Opt>, pad: u8, a: Addresses)
    requires AddressShape(a) && forall o :: o in opts ==> OptShape(o)
    ensures var b := EncodeOpts(opts) + [END] + [pad];
            && Parse(b) == Options(opts) && !EndsAtEnd(b)
            && Parse(Extended(b, RelayOptions(a))) == Options(opts) != Options(opts + RelayOptions(a))
  {
    var b := EncodeOpts(opts) + [END] + [pad];
    ParseEncoded(opts, [pad]);
    SeenByServerIff(b, RelayOptions(a));
  }

  lemma EndedExtension(b: bytes, e: bytes, extra: seq<Opt>)
    requires |b| == |e| + 1 && b[..|e|] == e && forall o :: o in extra ==> OptShape(o)
    ensures Extended(b, extra) == (e + EncodeOpts(extra)) + [END] + []
  {
  }

  lemma PaddedExtension(b: bytes, e: bytes, extra: seq<Opt>) returns (tail: bytes)
    requires |b| > |e| + 1 && b[..|e|] == e && b[|e|] == END && forall o :: o in extra ==> OptShape(o)
    ensures Extended(b, extra) == e + [END] + tail
  {
    var k := |e|;
    tail := b[k + 1..|b| - 1] + EncodeOpts(extra) + [END];
    assert b[..|b| - 1] == e + [END] + b[k + 1..|b| - 1];
  }

  /** The fixed part sent on: one more hop, the broadcast flag, the relay as gateway. */
  function ServerBase(inm: bytes, gateway: bytes): (r: bytes)
    requires |inm| >= BASE_LEN && |gateway| == 4
    ensures |r| == BASE_LEN
  {
    inm[..3] + [(inm[3] as int + 1) % 256] + inm[4..10] + [0x80, 0] + inm[12..24] + gateway + inm[28..BASE_LEN]
  }

  /** The writes at optptr. */
  method ExtendOptions(b: bytes, a: Addresses) returns (t: bytes)
    requires |b| > 0 && AddressShape(a)
    ensures t == Extended(b, RelayOptions(a)) && |t| == |b| + 26
  {
    t := b[..|b| - 1];
    t := t + ([SUBNET_SELECTION, 4] + a.net);
    var agent: bytes := [5, 4] + a.net + [1, 4] + a.circuit + [3, 4] + a.gateway;
    t := t + ([AGENT, 18] + agent);
    t := t + [END];
    RelayOptionBytes(a);
  }

  /** The client's message with room for the names a server may put in. */
  function Forwarded(inm: bytes, gateway: bytes): (r: bytes)
    requires |inm| >= BASE_LEN && |gateway| == 4
    ensures |r| == |inm| + HOLE_LEN
  {
    ServerBase(inm, gateway) + seq(HOLE_LEN, _ => 0) + inm[BASE_LEN..]
  }

  /** Where the parts of a forwarded request with a cookie and options are. */
  lemma RequestParts(inm: bytes, gateway: bytes, extra: seq<Opt>)
    requires |inm| > BASE_LEN + 4 && |gateway| == 4 && forall o :: o in extra ==> OptShape(o)
    ensures var p := Extended(Forwarded(inm, gateway), extra);
            && |p| >= 240 && p[..44] == ServerBase(inm, gateway) && (forall i :: 44 <= i < 236 ==> p[i] == 0)
            && p[236..240] == inm[44..48] && p[240..] == Extended(inm[48..], extra)
  {
    var f := Forwarded(inm, gateway);
    assert f[240..] == inm[48..] && f[236..240] == inm[44..48] && f[..44] == ServerBase(inm, gateway);
    assert f[..|f| - 1][240..] == inm[48..][..|inm| - 49];
  }

  lemma ServerBytes(inm: bytes, gateway: bytes, p: bytes)
    requires |inm| >= BASE_LEN && |gateway| == 4 && |p| >= 44 && p[..44] == ServerBase(inm, gateway)
    ensures p[3] == (inm[3] as int + 1) % 256 && p[10] == 0x80 && p[11] == 0 && p[24..28] == gateway
    ensures forall i :: 0 <= i < 44 && i != 3 && i != 10 && i != 11 && !(24 <= i < 28) ==> p[i] == inm[i]
  {
    var b := ServerBase(inm, gateway);
    assert forall i :: 0 <= i < 44 ==> p[i] == p[..44][i] == b[i];
    assert p[24..28] == b[24..28] == gateway;
  }

  /** The last bytes of an extended message: subnet selection (118) with the net; agent information
      (82) with link selection (5), circuit (1) and agent (3); END. */
  lemma ExtensionBytes(m: bytes, a: Addresses)
    requires |m| > 0 && AddressShape(a)
    ensures var p := Extended(m, RelayOptions(a));
            && |p| == |m| + 26 && p[..|m| - 1] == m[..|m| - 1]
            && p[|m| - 1..]
               == [118, 4] + a.net + [82, 18, 5, 4] + a.net + [1, 4] + a.circuit + [3, 4] + a.gateway + [255]
  {
    RelayOptionBytes(a);
    var p := Extended(m, RelayOptions(a));
    assert p[|m| - 1..] == EncodeOpts(RelayOptions(a)) + [END];
  }

  /** relay_dhcp_to_server for the UDP payload `inm`: one more hop, the broadcast bit set, the relay
      as gateway, zeros for the names a server may put in, and the relay's options over the last
      byte, whatever that byte is.  When there is a cookie and an option area, the server finds the
      options of both exactly if END was the last byte. */
  method RelayToServer(inm: bytes, a: Addresses) returns (r: Reply)
    requires AddressShape(a) && BASE_LEN <= |inm| <= BASE_LEN + OPTIONS_LEN - 26
    ensures inm[0] != 1 <==> r.NoReply?
    ensures r.Send? ==>
              var p, k := r.packet, |inm| + 191;
              && |p| == |inm| + 218
              && p[k..] == [118, 4] + a.net + [82, 18, 5, 4] + a.net + [1, 4] + a.circuit + [3, 4] + a.gateway + [255]
              && p[3] == (inm[3] as int + 1) % 256 && p[10] == 0x80 && p[11] == 0 && p[24..28] == a.gateway
              && (forall i :: 0 <= i < 44 && i != 3 && i != 10 && i != 11 && !(24 <= i < 28) ==> p[i] == inm[i])
              && (forall i :: 44 <= i < 235 ==> p[i] == 0)
              && (|inm| > 44 ==> p[235] == 0 && p[236..k] == inm[44..|inm| - 1])
    ensures r.Send? && |inm| > 48 && Parse(inm[48..]).Options? ==>
              (Parse(r.packet[240..]) == Options(Parse(inm[48..]).opts + RelayOptions(a)) <==> EndsAtEnd(inm[48..]))
  {
    if inm[0] != 1 {
      return NoReply;
    }
    var m := ServerBase(inm, a.gateway) + seq(HOLE_LEN, _ => 0) + inm[44..];
    var p := ExtendOptions(m, a);
    r := Send(p);
    ExtensionBytes(m, a);
    ForwardedBytes(inm, a.gateway, m, p);
    if |inm| > 48 {
      RequestParts(inm, a.gateway, RelayOptions(a));
      if Parse(inm[48..]).Options? {
        SeenByServerIff(inm[48..], RelayOptions(a));
      }
    }
  }

  lemma ForwardedBytes(inm: bytes, gateway: bytes, m: bytes, p: bytes)
    requires |inm| >= BASE_LEN && |gateway| == 4 && m == Forwarded(inm, gateway)
    requires |p| >= |m| && p[..|m| - 1] == m[..|m| - 1]
    ensures p[3] == (inm[3] as int + 1) % 256 && p[10] == 0x80 && p[11] == 0 && p[24..28] == gateway
    ensures forall i :: 0 <= i < 44 && i != 3 && i != 10 && i != 11 && !(24 <= i < 28) ==> p[i] == inm[i]
    ensures forall i :: 44 <= i < 235 ==> p[i] == 0
    ensures |inm| > 44 ==> p[235] == 0 && p[236..|inm| + 191] == inm[44..|inm| - 1]
  {
    assert forall i :: 0 <= i < |m| - 1 ==> p[i] == p[..|m| - 1][i] == m[i];
    assert p[..44] == m[..44] == ServerBase(inm, gateway);
    ServerBytes(inm, gateway, p);
    if |inm| > 44 {
      assert p[236..|inm| + 191] == m[236..|inm| + 191] == inm[44..|inm| - 1];
    }
  }

  lemma RelayOptionBytes(a: Addresses)
    requires AddressShape(a)
    ensures EncodeOpts(RelayOptions(a))
         == ([SUBNET_SELECTION, 4] + a.net) + ([AGENT, 18] + ([5, 4] + a.net + [1, 4] + a.circuit + [3, 4] + a.gateway))
  {
    var r := RelayOptions(a);
    assert r[1..] == [r[1]] && r[1..][1..] == [];
    assert EncodeOpts(r[1..]) == EncodeOpt(r[1]) + EncodeOpts(r[1..][1..]);
  }
}
