/**
 check_ip of tools/tunslip.c reads fields behind a short packet.  What its verdict depends on,
 and exactly which accepted packets are accepted whatever memory follows them.
 */
module IpMemory {
  import opened Bytes
  import opened Checksum
  import opened IpCheck

  /** Every byte check_ip looks at lies inside the packet. */
  predicate SelfContained(mem: bytes, len: nat) {
    20 <= len <= |mem| && HeaderLength(mem) <= len && (At(mem, 9) == 17 ==> 28 <= len)
  }

  /** For such packets the verdict does not depend on the memory behind the packet. */
  lemma CheckDependsOnPacket(a: bytes, b: bytes, len: nat)
    requires SelfContained(a, len) && len <= |b| && a[..len] == b[..len]
    ensures CheckIp(a, len) == CheckIp(b, len) && SelfContained(b, len)
  {
    assert forall i :: 0 <= i < len ==> At(a, i) == a[..len][i] == b[..len][i] == At(b, i);
    assert Region(a, 12, 8) == Region(b, 12, 8);
    var hl := HeaderLength(a);
    assert Region(a, 0, hl) == Region(b, 0, hl);
    if len < 0x1_0000 {
      assert Region(a, hl, PayloadLength(a, len)) == Region(b, hl, PayloadLength(b, len));
    }
  }

  /** Without it, it can: the four bytes 40 00 00 04 pass or fail with what lies behind them. */
  lemma ShortPacketsReadBehind()
    ensures CheckIp(SHORT, 4) == 0
    ensures CheckIp(SHORT + [0, 0, 0, 0, 0, 1], 4) == -7
  {
    ShortVerdict(SHORT);
    ShortVerdict(SHORT + [0, 0, 0, 0, 0, 1]);
  }

  lemma ShortVerdict(mem: bytes)
    requires SHORT <= mem
    ensures At(mem, 9) == 0 ==> CheckIp(mem, 4) == 0
    ensures At(mem, 9) == 1 ==> CheckIp(mem, 4) == -7
  {
    ShortHeader(mem);
    ShortSum();
  }

  const SHORT: bytes := [0x40, 0, 0, 4]

  lemma ShortHeader(mem: bytes)
    requires SHORT <= mem
    ensures CheckIp(mem, 4) == CheckPayload(mem, 4)
    ensures HeaderLength(mem) == 0 && PayloadLength(mem, 4) == 4 && Region(mem, 0, 4) == SHORT
  {
    assert forall i :: 0 <= i < 4 ==> At(mem, i) == mem[..4][i] == SHORT[i];
    assert Region(mem, 0, 0) == [];
  }

  lemma ShortSum()
    ensures Ip4Sum(0, SHORT) == 0x4004
  {
    assert SHORT[2..] == [0, 4] && [0, 4][2..] == [];
    SumMeaning(0, SHORT);
  }

  // ------------------------------------------------------------------ accepted in any memory

  /** b holds the same packet of len bytes. */
  ghost predicate SamePacket(a: bytes, b: bytes, len: nat) {
    len <= |a| && len <= |b| && a[..len] == b[..len]
  }

  /** The header is inside the packet, and so is whatever the protocol's checksum needs: the
      addresses, and for UDP with a wrong sum the field that says there is none. */
  predicate Robust(mem: bytes, len: nat) {
    && 10 <= len && HeaderLength(mem) <= len
    && (At(mem, 9) == 6 ==> 20 <= len)
    && (At(mem, 9) == 17 ==> 20 <= len && (28 <= len || Acceptable(PayloadSum(mem, len))))
  }

  lemma SameBytes(a: bytes, b: bytes, len: nat, at: nat, n: nat)
    requires SamePacket(a, b, len) && at + n <= len
    ensures Region(a, at, n) == Region(b, at, n)
  {
    assert forall i :: 0 <= i < len ==> At(a, i) == a[..len][i] == b[..len][i] == At(b, i);
  }

  lemma SameByte(a: bytes, b: bytes, len: nat, k: nat)
    requires SamePacket(a, b, len) && k < len
    ensures At(a, k) == At(b, k)
  {
    assert a[..len][k] == b[..len][k];
  }

  /** With the header inside the packet, only the payload check can tell two memories apart. */
  lemma SameHeader(a: bytes, b: bytes, len: nat)
    requires SamePacket(a, b, len) && CheckIp(a, len) == 0 && 4 <= len && HeaderLength(a) <= len
    ensures HeaderLength(b) == HeaderLength(a) && PayloadLength(a, len) == len - HeaderLength(a)
    ensures Region(a, HeaderLength(a), PayloadLength(a, len)) == Region(b, HeaderLength(b), PayloadLength(b, len))
    ensures CheckIp(b, len) == CheckPayload(b, len)
  {
    SameByte(a, b, len, 0);
    SameByte(a, b, len, 2);
    SameByte(a, b, len, 3);
    SameBytes(a, b, len, 0, HeaderLength(a));
    SameBytes(a, b, len, HeaderLength(a), len - HeaderLength(a));
  }

  /** A robust packet is accepted in every memory. */
  lemma RobustAccepted(a: bytes, b: bytes, len: nat)
    requires Robust(a, len) && CheckIp(a, len) == 0 && SamePacket(a, b, len)
    ensures CheckIp(b, len) == 0
  {
    SameHeader(a, b, len);
    SameByte(a, b, len, 9);
    if At(a, 9) == 6 || At(a, 9) == 17 {
      SameBytes(a, b, len, 12, 8);
      if 28 <= len {
        SameByte(a, b, len, 26);
        SameByte(a, b, len, 27);
      }
    }
  }

  // ------------------------------------------------------------------ and no other is

  /** a with enough zero bytes behind it. */
  function Padded(a: bytes, len: nat): (r: bytes)
    ensures |r| == |a| + len + 64 && forall j :: 0 <= j ==> At(r, j) == At(a, j)
  {
    Region(a, 0, |a| + len + 64)
  }

  lemma PaddedSame(a: bytes, len: nat)
    requires len <= |a|
    ensures SamePacket(a, Padded(a, len), len)
  {
    assert forall j :: 0 <= j < len ==> Padded(a, len)[j] == At(a, j) == a[j];
  }

  /** A byte behind the packet may hold anything. */
  lemma PutBehind(a: bytes, b: bytes, len: nat, j: nat, x: u8)
    requires SamePacket(a, b, len) && len <= j < |b|
    ensures SamePacket(a, b[j := x], len)
  {
    assert b[j := x][..len] == b[..len];
  }

  function Other(x: u8): (y: u8)
    ensures y != x && -1 <= y as int - x as int <= 1
  {
    if x == 0 then 1 else x - 1
  }

  /** Fewer than four bytes: the total length is behind the packet. */
  lemma NoLength(a: bytes, len: nat) returns (b: bytes)
    requires len < 4 && len <= |a| && CheckIp(a, len) == 0
    ensures SamePacket(a, b, len) && CheckIp(b, len) != 0
  {
    var p := Padded(a, len);
    PaddedSame(a, len);
    PutBehind(a, p, len, 3, Other(p[3]));
    b := p[3 := Other(p[3])];
    assert Word(At(b, 2), At(b, 3)) != Word(At(a, 2), At(a, 3));
  }

  /** The low byte of the word at i of region at..at + n becomes another one. */
  lemma OtherLow(b: bytes, i: nat, at: nat, n: nat)
    requires i + 1 < |b| && at <= i && i + 2 <= at + n && (i - at) % 2 == 0
    ensures var d := Other(b[i + 1]) as int - b[i + 1] as int;
            && WordSum(Region(b[i + 1 := Other(b[i + 1])], at, n)) == WordSum(Region(b, at, n)) + d
            && (d == 1 || d == -1)
  {
    var w: u16 := Word(b[i], Other(b[i + 1]));
    RegionPutWord(b, i, w, at, n);
    WordBytes(b[i], Other(b[i + 1]));
    assert PutWord(b, i, w) == b[i + 1 := Other(b[i + 1])];
  }

  lemma WordBytes(hi: u8, lo: u8)
    ensures Word(hi, lo) as int / 0x100 == hi && Word(hi, lo) as int % 0x100 == lo
  {
  }

  /** A header whose last byte becomes another one no longer adds up. */
  lemma OtherHeader(p: bytes, b: bytes, hl: nat)
    requires hl == HeaderLength(p) == HeaderLength(b) && 8 <= hl <= |p| && b == p[hl - 1 := Other(p[hl - 1])]
    requires Acceptable(Norm(HeaderWords(p)))
    ensures !Acceptable(Norm(HeaderWords(b)))
  {
    HeaderEnd(p);
    OtherLow(p, hl - 2, 0, hl);
    ModShift(HeaderWords(p), HeaderWords(b));
  }

  lemma BadHeaderRefused(b: bytes, len: nat)
    requires !Acceptable(Norm(HeaderWords(b)))
    ensures CheckIp(b, len) != 0
  {
    HeaderMeaning(b);
  }

  lemma AcceptedHeader(a: bytes, p: bytes, len: nat)
    requires CheckIp(a, len) == 0 && forall j :: 0 <= j ==> At(p, j) == At(a, j)
    ensures HeaderLength(p) == HeaderLength(a) && Acceptable(Norm(HeaderWords(p)))
  {
    SameRegion(a, p, 0, HeaderLength(a));
    HeaderMeaning(a);
  }

  /** A header that ends behind the packet. */
  lemma NoHeader(a: bytes, len: nat) returns (b: bytes)
    requires 4 <= len < HeaderLength(a) && len <= |a| && CheckIp(a, len) == 0
    ensures SamePacket(a, b, len) && CheckIp(b, len) != 0
  {
    var p, hl := Padded(a, len), HeaderLength(a);
    HeaderEnd(a);
    PaddedSame(a, len);
    AcceptedHeader(a, p, len);
    PutBehind(a, p, len, hl - 1, Other(p[hl - 1]));
    b := p[hl - 1 := Other(p[hl - 1])];
    SameByte(a, b, len, 0);
    OtherHeader(p, b, hl);
    BadHeaderRefused(b, len);
  }

  lemma HeaderEnd(mem: bytes)
    ensures HeaderLength(mem) % 4 == 0
  {
  }

  lemma SameRegion(a: bytes, b: bytes, at: nat, n: nat)
    requires forall j :: 0 <= j ==> At(a, j) == At(b, j)
    ensures Region(a, at, n) == Region(b, at, n)
  {
  }

  /** Addresses behind the packet can be chosen so that no TCP or UDP sum is right. */
  lemma NoAddresses(p: bytes, len: nat) returns (b: bytes)
    requires 4 <= len < 20 && HeaderLength(p) <= len && 28 <= |p| && len < 0x1_0000
    requires At(p, 9) == 6 || (At(p, 9) == 17 && At(p, 27) != 0)
    ensures CheckPayload(b, len) != 0 && |b| == |p| && forall j :: 0 <= j < |p| && j != 19 ==> b[j] == p[j]
  {
    if Acceptable(PayloadSum(p, len)) {
      b := p[19 := Other(p[19])];
      OtherLow(p, 18, 12, 8);
      PayloadBefore(p, b, len);
      PayloadMeaning(p, len);
      PayloadMeaning(b, len);
      ModShift(PseudoWords(p, len), PseudoWords(b, len));
    } else {
      b := p;
    }
  }

  lemma PayloadBefore(p: bytes, b: bytes, len: nat)
    requires len < 20 && HeaderLength(p) <= len && |b| == |p| && |p| >= 28
    requires forall j :: 0 <= j < |p| && j != 19 ==> b[j] == p[j]
    ensures PayloadWords(b, len) == PayloadWords(p, len) && PseudoStart(b, len) == PseudoStart(p, len)
  {
    assert HeaderLength(b) == HeaderLength(p) && PayloadLength(p, len) == len - HeaderLength(p);
    assert Region(b, HeaderLength(b), PayloadLength(b, len)) == Region(p, HeaderLength(p), PayloadLength(p, len));
  }

  /** Protocol or addresses are behind the packet. */
  lemma NoPseudoHeader(a: bytes, len: nat) returns (b: bytes)
    requires 4 <= len < 20 && HeaderLength(a) <= len <= |a| && CheckIp(a, len) == 0
    requires len < 10 || At(a, 9) == 6 || At(a, 9) == 17
    ensures SamePacket(a, b, len) && CheckIp(b, len) != 0
  {
    var p := Padded(a, len);
    PaddedSame(a, len);
    PutBehind(a, p, len, 27, 1);
    p := p[27 := 1];
    if len < 10 {
      PutBehind(a, p, len, 9, 6);
      p := p[9 := 6];
    }
    SameByte(a, p, len, 0);
    b := NoAddresses(p, len);
    assert b == p[19 := b[19]];
    PutBehind(a, p, len, 19, b[19]);
    SameHeader(a, b, len);
  }

  /** The field that says a UDP packet has no checksum is behind the packet. */
  lemma NoUdpChecksum(a: bytes, len: nat) returns (b: bytes)
    requires 20 <= len < 28 && HeaderLength(a) <= len <= |a| && CheckIp(a, len) == 0
    requires At(a, 9) == 17 && !Acceptable(PayloadSum(a, len))
    ensures SamePacket(a, b, len) && CheckIp(b, len) != 0
  {
    var p := Padded(a, len);
    PaddedSame(a, len);
    PutBehind(a, p, len, 27, 1);
    b := p[27 := 1];
    SameHeader(a, b, len);
    SameBytes(a, b, len, 12, 8);
    SameByte(a, b, len, 9);
  }

  lemma NotRobust(a: bytes, len: nat) returns (b: bytes)
    requires len <= |a| && CheckIp(a, len) == 0 && !Robust(a, len)
    ensures SamePacket(a, b, len) && CheckIp(b, len) != 0
  {
    if len < 4 {
      b := NoLength(a, len);
    } else if len < HeaderLength(a) {
      b := NoHeader(a, len);
    } else if len < 20 {
      b := NoPseudoHeader(a, len);
    } else {
      b := NoUdpChecksum(a, len);
    }
  }

  /** An accepted packet is accepted in every memory exactly when it is robust. */
  lemma RobustIff(a: bytes, len: nat)
    requires len <= |a| && CheckIp(a, len) == 0
    ensures (forall b :: SamePacket(a, b, len) ==> CheckIp(b, len) == 0) <==> Robust(a, len)
  {
    if Robust(a, len) {
      forall b | SamePacket(a, b, len)
        ensures CheckIp(b, len) == 0
      {
        RobustAccepted(a, b, len);
      }
    } else {
      var b := NotRobust(a, len);
    }
  }
}
