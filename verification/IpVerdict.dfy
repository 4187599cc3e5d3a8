/**
 What each result of check_ip (tools/tunslip.c:364-413) means, in terms of plain word sums
 modulo 0xffff.
 */
module IpVerdict {
  import opened Bytes
  import opened Checksum
  import opened IpCheck
  import opened IpPatch

  /** Version 4, and a total length that is the length given. */
  ghost predicate Plausible(mem: bytes, len: nat) {
    At(mem, 0) / 16 == 4 && 0x100 * At(mem, 2) as int + At(mem, 3) as int == len
  }

  /** The header's words add up to 0 modulo 0xffff. */
  ghost predicate HeaderRight(mem: bytes) {
    Multiple(WordSum(Region(mem, 0, 4 * (At(mem, 0) % 16))))
  }

  /** The payload's words, from behind the header to the end of the packet. */
  ghost function PayloadPart(mem: bytes, len: nat): bytes {
    Region(mem, 4 * (At(mem, 0) % 16), (len - 4 * (At(mem, 0) % 16)) % 0x1_0000)
  }

  /** Protocol, payload length, addresses and payload. */
  ghost function PseudoTotal(mem: bytes, len: nat): nat {
    (At(mem, 9) as int + |PayloadPart(mem, len)|) % 0x1_0000
    + WordSum(Region(mem, 12, 8)) + WordSum(PayloadPart(mem, len))
  }

  /** They add up to 0 modulo 0xffff. */
  ghost predicate PseudoRight(mem: bytes, len: nat) {
    Multiple(PseudoTotal(mem, len))
  }

  lemma HeaderVerdictIs(mem: bytes)
    ensures Acceptable(Ip4Sum(0, Region(mem, 0, HeaderLength(mem)))) <==> HeaderRight(mem)
  {
    HeaderMeaning(mem);
    AcceptableIff(HeaderWords(mem));
  }

  lemma PartIs(mem: bytes, len: nat)
    ensures PayloadWords(mem, len) == WordSum(PayloadPart(mem, len))
    ensures PseudoWords(mem, len) == PseudoTotal(mem, len)
  {
    assert Region(mem, HeaderLength(mem), PayloadLength(mem, len)) == PayloadPart(mem, len);
  }

  lemma PayloadVerdictIs(mem: bytes, len: nat)
    ensures Acceptable(PayloadSum(mem, len)) <==> PseudoRight(mem, len)
    ensures Acceptable(Ip4Sum(0, Region(mem, HeaderLength(mem), PayloadLength(mem, len))))
       <==> Multiple(WordSum(PayloadPart(mem, len)))
  {
    PayloadMeaning(mem, len);
    PartIs(mem, len);
    AcceptableIff(PseudoTotal(mem, len));
    AcceptableIff(WordSum(PayloadPart(mem, len)));
  }

  /** The payload half: TCP (6) needs a right sum; so does UDP (17) unless its checksum field is zero;
      ICMP (1) is summed without addresses; nothing else is looked at. */
  lemma PayloadResults(mem: bytes, len: nat)
    ensures var r, protocol := CheckPayload(mem, len), At(mem, 9);
            && (r == -5 <==> protocol == 6 && !PseudoRight(mem, len))
            && (r == -6 <==> protocol == 17 && !PseudoRight(mem, len) && (At(mem, 26) != 0 || At(mem, 27) != 0))
            && (r == -7 <==> protocol == 1 && !Multiple(WordSum(PayloadPart(mem, len))))
            && r in {0, -5, -6, -7}
  {
    PayloadVerdictIs(mem, len);
  }

  /** Every result of check_ip. */
  lemma CheckResults(mem: bytes, len: nat)
    ensures var r, total := CheckIp(mem, len), 0x100 * At(mem, 2) as int + At(mem, 3) as int;
            && (r == -1 <==> At(mem, 0) / 16 != 4)
            && (r == -2 <==> At(mem, 0) / 16 == 4 && total > len)
            && (r == -3 <==> At(mem, 0) / 16 == 4 && total < len)
            && (r == -4 <==> Plausible(mem, len) && !HeaderRight(mem))
            && (Plausible(mem, len) && HeaderRight(mem) ==> r == CheckPayload(mem, len))
            && (r < -4 || r == 0 ==> Plausible(mem, len) && HeaderRight(mem))
  {
    HeaderVerdictIs(mem);
    PayloadResults(mem, len);
  }

  /** A packet is accepted exactly when version and length are right, the header adds up, and the
      payload does where its protocol has a checksum. */
  lemma AcceptedMeaning(mem: bytes, len: nat)
    ensures CheckIp(mem, len) == 0 <==>
              && Plausible(mem, len) && HeaderRight(mem)
              && (At(mem, 9) == 6 ==> PseudoRight(mem, len))
              && (At(mem, 9) == 17 ==> PseudoRight(mem, len) || (At(mem, 26) == 0 && At(mem, 27) == 0))
              && (At(mem, 9) == 1 ==> Multiple(WordSum(PayloadPart(mem, len))))
  {
    CheckResults(mem, len);
    PayloadResults(mem, len);
  }

  /** The word sum in so many words: big-endian pairs, and an odd last byte in the high place. */
  lemma WordSumMeaning(a: u8, b: u8, rest: bytes)
    ensures WordSum([]) == 0 && WordSum([a]) == 256 * a as int
    ensures WordSum([a, b] + rest) == 256 * a as int + b as int + WordSum(rest)
  {
    assert ([a, b] + rest)[2..] == rest;
  }

  /** Bit 6 of a byte is set. */
  ghost predicate Bit6(c: u8) {
    64 <= c < 128 || 192 <= c
  }

  lemma NoId(mem: bytes)
    ensures GetWord(mem, 4) == 0 <==> At(mem, 4) == 0 && At(mem, 5) == 0
  {
  }

  lemma FlagByte(hi: u8, lo: u8, flags: u16)
    requires flags == 0x100 * hi as int + lo as int
    ensures DontFragment(flags) <==> Bit6(hi)
  {
  }

  lemma NeedsIdFlags(mem: bytes, bigEndian: bool, flags: u16)
    requires flags == if bigEndian then GetWord(mem, 6) else Swap(GetWord(mem, 6))
    ensures NeedsId(mem, bigEndian) <==> GetWord(mem, 4) == 0 && DontFragment(flags)
  {
  }

  /** The identification is filled in when it is zero and the "don't fragment" bit is set in host byte
      order.  On a big-endian host that is bit 6 of the first flag byte. */
  lemma NeedsIdBig(mem: bytes)
    ensures NeedsId(mem, true) <==> At(mem, 4) == 0 && At(mem, 5) == 0 && Bit6(At(mem, 6))
  {
    NoId(mem);
    NeedsIdFlags(mem, true, Word(At(mem, 6), At(mem, 7)));
    FlagByte(At(mem, 6), At(mem, 7), Word(At(mem, 6), At(mem, 7)));
  }

  /** On a little-endian host it is bit 6 of the second. */
  lemma NeedsIdLittle(mem: bytes)
    ensures NeedsId(mem, false) <==> At(mem, 4) == 0 && At(mem, 5) == 0 && Bit6(At(mem, 7))
  {
    NoId(mem);
    SwappedWord(At(mem, 6), At(mem, 7));
    NeedsIdFlags(mem, false, Word(At(mem, 7), At(mem, 6)));
    FlagByte(At(mem, 7), At(mem, 6), Word(At(mem, 7), At(mem, 6)));
  }

  lemma SwappedWord(hi: u8, lo: u8)
    ensures Swap(Word(hi, lo)) == Word(lo, hi)
  {
    var w: int := 0x100 * hi as int + lo as int;
    assert w / 0x100 == hi && w % 0x100 == lo;
  }

  /** The patch puts the id at bytes 4 and 5 in network order and touches, besides, only the checksum
      field. */
  lemma PatchMeaning(mem: bytes, id: u16, bigEndian: bool)
    requires |mem| >= 20
    ensures var r := Patch(mem, id, bigEndian);
            && |r| == |mem| && 256 * r[4] as int + r[5] as int == id
            && forall j :: 0 <= j < |mem| && j !in {4, 5, 10, 11} ==> r[j] == mem[j]
  {
  }
}
