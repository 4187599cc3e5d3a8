/**
 The state struct `s` of apps/codeprop/codeprop.c with the protothreads' steps as methods.
 Both threads of a node share it; `thread` tells which of them a step belongs to.
 */
module CodePropObject {
  import opened Bytes
  import opened CodePropModel

  class CodeProp {
    var active: bool       // recv_udpthread is inside the receiving loop
    var sending: bool      // STATE_SENDING_UDPDATA
    var id: nat
    var addr: nat
    var len: nat
    const eeprom: array<u8>

    ghost predicate Valid()
      reads this
    {
      eeprom.Length == STORE && addr <= STORE && len < STORE
    }

    ghost function AsReceiver(): Receiver
      requires Valid()
      reads this, eeprom
    {
      Receiver(active, id, addr, len, eeprom[..])
    }

    ghost function AsSender(): Sender
      requires Valid()
      reads this, eeprom
    {
      Sender(sending, id, addr, len, eeprom[..])
    }

    constructor ()
      ensures Valid() && fresh(eeprom) && !active && !sending && id == 0 && addr == 0 && len == 0
    {
      active, sending, id, addr, len := false, false, 0, 0, 0;
      eeprom := new u8[STORE](_ => 0);
    }

    method EepromWrite(at: nat, data: bytes)
      requires eeprom.Length == STORE && at + |data| <= STORE
      modifies eeprom
      ensures eeprom[..] == Write(old(eeprom[..]), at, data)
    {
      var i := 0;
      while i < |data|
        invariant 0 <= i <= |data|
        invariant eeprom[..] == old(eeprom[..at]) + data[..i] + old(eeprom[at + i..])
      {
        eeprom[at + i] := data[i];
        i := i + 1;
      }
    }

    /** One pass of the receiving loop; `shown` is what the packet header reads. */
    method Process(shown: nat, data: bytes) returns (out: seq<Msg>)
      requires Valid() && (shown == addr ==> addr + |data| < STORE)
      modifies this, eeprom
      ensures Valid() && (AsReceiver(), out) == Take(old(AsReceiver()), shown, data)
      ensures sending == old(sending)
    {
      out := [];
      if shown == addr {
        if |data| > 0 {
          EepromWrite(addr, data);
          addr := addr + |data|;
        } else {
          assert Write(eeprom[..], addr, data) == eeprom[..];
        }
      } else if shown > addr {
        out := [Nack(addr)];
      }
      active := addr < len;
    }

    method ReceiveData(m: Msg) returns (out: seq<Msg>)
      requires Valid() && Receivable(AsReceiver(), m) && m.len < STORE
      modifies this, eeprom
      ensures Valid() && (AsReceiver(), out) == OnData(old(AsReceiver()), m)
      ensures sending == old(sending)
    {
      out := [];
      if !active && m.id > id {
        var shown := m.addr;
        if shown != 0 {
          out := [Nack(0)];
          shown := 0;      // send_nack wrote its own address into the header
        }
        addr, id, len := 0, m.id, m.len;
        if addr < len {
          var more := Process(shown, m.data);
          out := out + more;
        }
      } else if active && m.id == id {
        out := Process(m.addr, m.data);
      }
    }

    method NackTimeout() returns (out: seq<Msg>)
      requires Valid()
      ensures out == OnTimeout(AsReceiver())
    {
      out := if active then [Nack(addr)] else [];
    }

    method SendTurn() returns (out: seq<Msg>)
      requires Valid()
      modifies this
      ensures Valid() && (AsSender(), out) == Turn(old(AsSender()))
      ensures active == old(active)
    {
      out := [];
      if sending {
        if addr < len {
          var n := if len - addr > UDPDATASIZE then UDPDATASIZE else len - addr;
          var data := eeprom[addr..addr + n];
          assert data == Chunk(eeprom[..len], addr);
          out := [Data(id, addr, len, data)];
          addr := addr + n;
        } else {
          sending := false;
        }
      }
    }

    method ReceiveNack(a: nat)
      requires Valid()
      modifies this
      ensures Valid() && AsSender() == OnNack(old(AsSender()), a)
      ensures active == old(active)
    {
      if sending && a <= addr {
        addr := a;
      }
    }

    /** codeprop_start_broadcast: the first n stored bytes are the new image. */
    method StartBroadcast(n: nat)
      requires Valid() && n < STORE
      modifies this
      ensures Valid() && AsSender() == Broadcast(old(AsSender()), eeprom[..n])
    {
      assert Write(eeprom[..], 0, eeprom[..n]) == eeprom[..];
      addr := 0;
      len := n;
      id := id + 1;
      sending := true;
    }

    /** Append one segment's bytes to what is stored of the stream behind the header. */
    method StoreNext(segment: bytes, ghost stream: bytes)
      requires eeprom.Length == STORE && addr + |segment| < STORE
      requires 4 + addr + |segment| <= |stream| && stream[4 + addr..4 + addr + |segment|] == segment
      requires eeprom[..addr] == stream[4..4 + addr]
      modifies this`addr, eeprom
      ensures addr == old(addr) + |segment|
      ensures eeprom[..addr] == stream[4..4 + addr]
    {
      ghost var before := eeprom[..];
      EepromWrite(addr, segment);
      StoreSegment(before, stream, addr, segment);
      addr := addr + |segment|;
    }

    /** recv_tcpthread: the image arrives as TCP segments behind a 4-byte header whose first
        two bytes are its length.  However the stream is cut, the loop is left exactly when
        the payload is all there, at the first segment that completes it, and the store then
        begins with the payload. */
    method ReceiveTcp(segments: seq<bytes>) returns (done: bool, used: nat)
      requires Valid() && |segments| > 0 && |segments[0]| >= 4
      requires |Joined(segments)| - 4 < STORE
      modifies this, eeprom
      ensures Valid() && used <= |segments| && len == 256 * segments[0][0] as int + segments[0][1] as int
      ensures done <==> |Joined(segments)| - 4 >= len
      ensures done ==> eeprom[..len] == Joined(segments)[4..4 + len]
      ensures done ==> addr == Reached(segments, used) - 4 >= len
      ensures forall k :: 1 <= k < used ==> Reached(segments, k) - 4 < len
    {
      ghost var stream := Joined(segments);
      len := Word(segments[0]);
      FirstSegment(segments);
      addr := 0;
      StoreNext(segments[0][4..], stream);
      used := 1;
      while addr < len && used < |segments|
        invariant 1 <= used <= |segments| && eeprom.Length == STORE && len == Word(segments[0])
        invariant 4 + addr == Reached(segments, used) <= |stream|
        invariant eeprom[..addr] == stream[4..4 + addr]
        invariant forall k :: 1 <= k < used ==> Reached(segments, k) - 4 < len
      {
        NextSegment(segments, used);
        StoreNext(segments[used], stream);
        used := used + 1;
      }
      done := addr >= len;
      AllReached(segments);
      assert done ==> eeprom[..len] == eeprom[..addr][..len];
    }
  }

  function Joined(segments: seq<bytes>): bytes {
    if segments == [] then [] else Joined(segments[..|segments| - 1]) + segments[|segments| - 1]
  }

  /** The bytes of the first k segments. */
  function Reached(segments: seq<bytes>, k: nat): nat
    requires k <= |segments|
  {
    |Joined(segments[..k])|
  }

  lemma AllReached(segments: seq<bytes>)
    ensures Reached(segments, |segments|) == |Joined(segments)|
  {
    assert segments[..|segments|] == segments;
  }

  /** The 16-bit big-endian length at the head of the stream. */
  function Word(b: bytes): nat
    requires |b| >= 2
    ensures Word(b) < STORE
  {
    256 * (b[0] as int) + b[1] as int
  }

  lemma JoinedNext(segments: seq<bytes>, k: nat)
    requires k < |segments|
    ensures Joined(segments[..k + 1]) == Joined(segments[..k]) + segments[k]
  {
    assert segments[..k + 1][..k] == segments[..k];
  }

  lemma {:induction false} JoinedPrefix(segments: seq<bytes>, k: nat)
    requires k <= |segments|
    ensures Joined(segments[..k]) <= Joined(segments)
    decreases |segments| - k
  {
    if k == |segments| {
      assert segments[..k] == segments;
    } else {
      JoinedNext(segments, k);
      JoinedPrefix(segments, k + 1);
    }
  }

  lemma FirstSegment(segments: seq<bytes>)
    requires |segments| > 0
    ensures Reached(segments, 1) == |segments[0]| && segments[0] <= Joined(segments)
  {
    JoinedPrefix(segments, 1);
    JoinedNext(segments, 0);
    assert segments[..0] == [];
  }

  lemma NextSegment(segments: seq<bytes>, k: nat)
    requires k < |segments|
    ensures var n := Reached(segments, k);
            && Reached(segments, k + 1) == n + |segments[k]| <= |Joined(segments)|
            && Joined(segments)[n..n + |segments[k]|] == segments[k]
  {
    JoinedNext(segments, k);
    JoinedPrefix(segments, k + 1);
    var n := |Joined(segments[..k])|;
    assert Joined(segments[..k + 1])[n..] == segments[k];
  }

  lemma StoreSegment(eeprom: Eeprom, stream: bytes, addr: nat, segment: bytes)
    requires 4 + addr + |segment| <= |stream| && addr + |segment| <= STORE
    requires eeprom[..addr] == stream[4..4 + addr]
    requires stream[4 + addr..4 + addr + |segment|] == segment
    ensures Write(eeprom, addr, segment)[..addr + |segment|] == stream[4..4 + addr + |segment|]
  {
    assert stream[4..4 + addr + |segment|] == stream[4..4 + addr] + segment;
  }

  /** Two ways of cutting one stream announce the same length, the stream's first two bytes, and so
      (ReceiveTcp) store the same image. */
  lemma SegmentationIrrelevant(a: seq<bytes>, b: seq<bytes>)
    requires |a| > 0 && |b| > 0 && |a[0]| >= 4 && |b[0]| >= 4 && Joined(a) == Joined(b)
    ensures |Joined(a)| >= 4 && Word(a[0]) == Word(b[0]) == 256 * Joined(a)[0] as int + Joined(a)[1] as int
  {
    FirstSegment(a);
    FirstSegment(b);
    assert a[0][0] == Joined(a)[0] && a[0][1] == Joined(a)[1];
    assert b[0][0] == Joined(b)[0] && b[0][1] == Joined(b)[1];
  }
}
