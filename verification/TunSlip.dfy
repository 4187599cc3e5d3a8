/**
 The static state of tools/tunslip.c: the serial reader's inbuf, the output queue and the
 identification counter, with the functions that update them in place.
 */
module TunSlip {
  import opened Bytes
  import opened Checksum
  import opened IpCheck
  import opened IpPatch
  import opened IpMemory
  import Slip
  import SlipQueue

  class SerialReader {
    const inbuf: array<u8>
    var ptr: nat
    var pushed: bool     // an ESC was put back into the stream

    ghost predicate Valid()
      reads this
    {
      inbuf.Length == Slip.BUFSIZE && ptr < Slip.BUFSIZE
    }

    ghost function State(): Slip.Reader
      requires Valid()
      reads this, inbuf
    {
      Slip.Reader(inbuf[..], ptr, pushed)
    }

    constructor ()
      ensures Valid() && fresh(inbuf) && ptr == 0 && !pushed
    {
      inbuf := new u8[Slip.BUFSIZE](_ => 0);
      ptr, pushed := 0, false;
    }

    method StoreByte(c: u8)
      requires Valid()
      modifies this`ptr, inbuf
      ensures Valid() && State() == Slip.Store(old(State()), c)
    {
      inbuf[ptr] := c;
      ptr := ptr + 1;
      if ptr >= Slip.BUFSIZE {
        ptr := 0;
      }
    }

    /** serial_to_tun: read what is there and report the frames that were closed. */
    method ReadSerial(chunk: bytes) returns (frames: seq<Slip.Frame>)
      requires Valid()
      modifies this, inbuf
      ensures Valid() && (State(), frames) == Slip.Feed(old(State()), chunk)
    {
      var input := if pushed then [Slip.ESC] + chunk else chunk;
      pushed := false;
      frames := [];
      ghost var start := State();
      var i := 0;
      while i < |input|
        invariant Valid() && i <= |input| && !pushed
        invariant Rest(start, input, State(), input[i..], frames)
      {
        var c := input[i];
        ghost var before := State();
        assert input[i..][1..] == input[i + 1..];
        if c == Slip.END {
          if ptr > 0 {
            frames := frames + [Slip.Frame(inbuf[..], ptr)];
            ptr := 0;
          }
          i := i + 1;
        } else if c == Slip.ESC {
          if i + 1 == |input| {
            pushed := true;
            assert input[i..] == [Slip.ESC] && Slip.Decode(before, [Slip.ESC]) == (State(), []);
            assert frames + [] == frames;
            return;
          }
          assert input[i..][2..] == input[i + 2..];
          StoreByte(Slip.Unescape(input[i + 1]));
          i := i + 2;
        } else {
          StoreByte(c);
          i := i + 1;
        }
      }
      assert input[i..] == [] && Slip.Decode(State(), []) == (State(), []);
      assert frames + [] == frames;
    }
  }

  /** Decoding the input from the start is decoding what is left, after the frames so far. */
  ghost predicate Rest(start: Slip.Reader, input: bytes, now: Slip.Reader, left: bytes, frames: seq<Slip.Frame>) {
    && Slip.InBounds(start) && Slip.InBounds(now)
    && Slip.Decode(start, input).0 == Slip.Decode(now, left).0
    && Slip.Decode(start, input).1 == frames + Slip.Decode(now, left).1
  }

  datatype Outcome = Accepted | Refused(code: int) | Overflow

  class SerialWriter {
    const bigEndian: bool
    const buf: array<u8>
    var begin: nat
    var end: nat
    var ipId: u16

    ghost predicate Valid()
      reads this, buf
    {
      buf.Length == SlipQueue.SIZE && SlipQueue.InRange(SlipQueue.Queue(buf[..], begin, end))
    }

    ghost function State(): SlipQueue.Queue
      requires Valid()
      reads this, buf
    {
      SlipQueue.Queue(buf[..], begin, end)
    }

    constructor (bigEndian: bool)
      ensures Valid() && fresh(buf) && this.bigEndian == bigEndian && ipId == 0
      ensures SlipQueue.Pending(State()) == []
    {
      this.bigEndian := bigEndian;
      buf := new u8[SlipQueue.SIZE](_ => 0);
      begin, end, ipId := 0, 0, 0;
    }

    /** slip_send; a full buffer ends the program. */
    method SendByte(c: u8) returns (ok: bool)
      requires Valid()
      modifies this`end, buf
      ensures Valid() && ok == (old(end) < SlipQueue.SIZE)
      ensures State() == if ok then SlipQueue.Push(old(State()), c) else old(State())
      ensures SlipQueue.Pending(State()) == old(SlipQueue.Pending(State())) + if ok then [c] else []
    {
      ok := end < SlipQueue.SIZE;
      if ok {
        buf[end] := c;
        end := end + 1;
      }
    }

    /** slip_flushbuf; the bytes written are returned. */
    method FlushBuffer(wrote: int) returns (out: bytes)
      requires Valid() && -1 <= wrote <= end - begin
      modifies this`begin, this`end
      ensures Valid() && State() == SlipQueue.Flushed(old(State()), wrote)
      ensures out + SlipQueue.Pending(State()) == old(SlipQueue.Pending(State()))
    {
      out := [];
      if end == 0 || wrote == -1 {
        return;
      }
      out := buf[begin..begin + wrote];
      begin := begin + wrote;
      if begin == end {
        begin, end := 0, 0;
      }
    }

    method SendEscaped(c: u8) returns (ok: bool)
      requires Valid()
      modifies this`end, buf
      ensures Valid() && ok == (old(end) + |Slip.EncodeByte(c)| <= SlipQueue.SIZE)
      ensures ok ==> end == old(end) + |Slip.EncodeByte(c)|
      ensures ok ==> SlipQueue.Pending(State()) == old(SlipQueue.Pending(State())) + Slip.EncodeByte(c)
    {
      if c == Slip.END || c == Slip.ESC {
        ok := SendByte(Slip.ESC);
        if ok {
          ok := SendByte(if c == Slip.END then Slip.ESC_END else Slip.ESC_ESC);
        }
      } else {
        ok := SendByte(c);
      }
    }

    /** The loop of write_to_serial over the packet, and the closing END. */
    method SendPacket(packet: bytes) returns (ok: bool)
      requires Valid()
      modifies this`end, buf
      ensures Valid() && ok == (old(end) + |Slip.Encode(packet)| <= SlipQueue.SIZE)
      ensures ok ==> SlipQueue.Pending(State()) == old(SlipQueue.Pending(State())) + Slip.Encode(packet)
    {
      var i := 0;
      ghost var before := SlipQueue.Pending(State());
      while i < |packet|
        invariant Valid() && i <= |packet|
        invariant end == old(end) + |Slip.Escaped(packet[..i])|
        invariant SlipQueue.Pending(State()) == before + Slip.Escaped(packet[..i])
      {
        EscapedNext(packet, i);
        ok := SendEscaped(packet[i]);
        if !ok {
          EscapedPrefix(packet, i + 1);
          return;
        }
        i := i + 1;
      }
      assert packet[..i] == packet;
      ok := SendByte(Slip.END);
    }

    /** The packet as write_to_serial sends it. */
    function Outgoing(mem: bytes, id: u16): bytes
      requires |mem| >= 20
    {
      if NeedsId(mem, bigEndian) then Patch(mem, id, bigEndian) else mem
    }

    method StoreWord(p: array<u8>, i: nat, w: u16)
      requires i + 1 < p.Length
      modifies p
      ensures p[..] == PutWord(old(p[..]), i, w)
    {
      p[i], p[i + 1] := w / 0x100, w % 0x100;
    }

    /** The new checksum word: `iphdr->ip_sum += ~nid`, with the carry added. */
    method AddComplement(s: u16, id: u16) returns (w: u16)
      ensures w == PatchedWord(s, id, bigEndian)
    {
      var nid := 0xffff - Load(bigEndian, id);
      var sum := (Load(bigEndian, s) + nid) % 0x1_0000;
      if sum < nid {
        sum := sum + 1;
      }
      w := Load(bigEndian, sum);
    }

    method PatchHeader(p: array<u8>)
      requires p.Length >= 20
      modifies this`ipId, p
      ensures p[..] == Patch(old(p[..]), old(ipId), bigEndian)
      ensures ipId == (old(ipId) + 1) % 0x1_0000
    {
      var id := ipId;
      ipId := (ipId + 1) % 0x1_0000;
      var sum := AddComplement(Word(p[10], p[11]), id);
      StoreWord(p, 4, id);
      StoreWord(p, 10, sum);
    }

    /** Drops the packet? */
    predicate Drops(mem: bytes, len: nat, id: u16) {
      CheckIp(mem, len) < 0 || (NeedsId(mem, bigEndian) && !PatchKeeps(mem, len, id, bigEndian))
    }

    /** The checks and the patch of write_to_serial. */
    method Prepare(p: array<u8>, len: nat) returns (code: int)
      requires Valid() && 20 <= p.Length && len <= p.Length && p != buf
      modifies this`ipId, p
      ensures code == CheckIp(p[..], len) <= 0 && (code < 0 <==> Drops(old(p[..]), len, old(ipId)))
      ensures p[..] == if CheckIp(old(p[..]), len) < 0 then old(p[..]) else Outgoing(old(p[..]), old(ipId))
      ensures CheckIp(old(p[..]), len) < 0 || !NeedsId(old(p[..]), bigEndian) ==> ipId == old(ipId)
    {
      ghost var mem := p[..];
      code := CheckIp(p[..], len);
      CheckCodes(mem, len);
      if code == 0 && NeedsId(p[..], bigEndian) {
        PatchAcceptedExactly(mem, len, ipId, bigEndian);
        PatchHeader(p);
        code := CheckIp(p[..], len);
        CheckCodes(p[..], len);
      }
    }

    /** write_to_serial: an accepted packet goes out whole, patched if it has no identification;
        it is dropped exactly when check_ip refuses it, or the patch spoils it. */
    method WriteToSerial(p: array<u8>, len: nat) returns (r: Outcome)
      requires Valid() && 20 <= p.Length && len <= p.Length && p != buf
      modifies this, buf, p
      ensures Valid()
      ensures r.Refused? <==> Drops(old(p[..]), len, old(ipId))
      ensures r.Refused? ==> r.code == CheckIp(p[..], len) < 0 && State() == old(State())
      ensures p[..] == if CheckIp(old(p[..]), len) < 0 then old(p[..]) else Outgoing(old(p[..]), old(ipId))
      ensures r.Accepted? ==> CheckIp(p[..], len) == 0
      ensures r.Accepted? ==> SlipQueue.Pending(State()) == old(SlipQueue.Pending(State())) + Slip.Encode(p[..len])
      ensures r.Overflow? ==> old(end) + |Slip.Encode(p[..len])| > SlipQueue.SIZE
    {
      var code := Prepare(p, len);
      if code < 0 {
        return Refused(code);
      }
      var ok := SendPacket(p[..len]);
      r := if ok then Accepted else Overflow;
    }
  }

  lemma CheckCodes(mem: bytes, len: nat)
    ensures CheckIp(mem, len) <= 0
  {
  }

  lemma EscapedNext(p: bytes, k: nat)
    requires k < |p|
    ensures Slip.Escaped(p[..k + 1]) == Slip.Escaped(p[..k]) + Slip.EncodeByte(p[k])
  {
    assert p[..k + 1] == p[..k] + [p[k]];
    Slip.EscapedAppend(p[..k], p[k]);
  }

  lemma {:induction false} EscapedPrefix(p: bytes, k: nat)
    requires k <= |p|
    ensures |Slip.Escaped(p[..k])| <= |Slip.Escaped(p)|
    decreases |p| - k
  {
    if k == |p| {
      assert p[..k] == p;
    } else {
      EscapedNext(p, k);
      EscapedPrefix(p, k + 1);
    }
  }

  // ------------------------------------------------------------------ from queue to reader

  /** The whole line: packets queued in any interleaving with partial and refused writes, and
      all written in the end, are read back in any chunks as the same packets in the same order,
      and robust valid ones are accepted again. */
  lemma SerialLine(ops: seq<SlipQueue.Op>, q: SlipQueue.Queue, packets: seq<bytes>, d: Slip.Reader, chunks: seq<bytes>)
    requires q.begin == q.end == 0 && SlipQueue.AllowedRun(q, ops) && SlipQueue.Sent(ops) == Slip.EncodeAll(packets)
    requires SlipQueue.Pending(SlipQueue.Run(q, ops).0) == [] && Slip.Flatten(chunks) == SlipQueue.Run(q, ops).1
    requires Slip.InBounds(d) && !d.pushed && d.ptr == 0
    requires forall k :: 0 <= k < |packets| ==> 1 <= |packets[k]| < Slip.BUFSIZE
    ensures var (e, frames) := Slip.FeedAll(d, chunks);
            && Slip.Carries(frames, packets) && e.ptr == 0 && !e.pushed
            && forall k :: 0 <= k < |packets| ==>
                 (Robust(packets[k], |packets[k]|) && CheckIp(packets[k], |packets[k]|) == 0 ==>
                    CheckIp(frames[k].mem, frames[k].len) == 0)
  {
    SlipQueue.QueueIsFifo(q, ops);
    var (r, wire) := SlipQueue.Run(q, ops);
    assert SlipQueue.Pending(q) == [];
    WireIs(wire, SlipQueue.Pending(r), SlipQueue.Pending(q), SlipQueue.Sent(ops));
    Slip.SlipTransport(d, packets, chunks, false);
  }

  lemma WireIs(wire: bytes, left: bytes, start: bytes, sent: bytes)
    requires wire + left == start + sent && left == [] && start == []
    ensures wire == sent
  {
    assert wire + [] == wire && [] + sent == sent;
  }
}
