/**
 The patch of write_to_serial (tools/tunslip.c:643-656): an identification is put where there
 was none, and its complement is added to the header checksum, so that check_ip accepts again.
 When it does, and on which hosts, is exact here for every packet.
 */
module IpPatch {
  import opened Bytes
  import opened Checksum
  import opened IpCheck

  /** A 16-bit field as the host reads it from its two bytes. */
  function Load(bigEndian: bool, w: u16): u16 {
    if bigEndian then w else Swap(w)
  }

  function Swap(w: u16): u16 {
    0x100 * (w % 0x100) + w / 0x100
  }

  /** The checksum word that the patch writes: the complement of the id is added in host byte order
      with end-around carry. */
  function PatchedWord(s: u16, id: u16, bigEndian: bool): u16 {
    Load(bigEndian, Add1c(Load(bigEndian, s), 0xffff - Load(bigEndian, id)))
  }

  /** The header after `ip_id` is set to `id` and its complement is added to `ip_sum`. */
  function Patch(mem: bytes, id: u16, bigEndian: bool): (r: bytes)
    requires |mem| >= 20
    ensures |r| == |mem|
  {
    PutIdAndSum(mem, id, PatchedWord(GetWord(mem, 10), id, bigEndian))
  }

  function PutIdAndSum(mem: bytes, id: u16, sum: u16): (r: bytes)
    requires |mem| >= 20
    ensures |r| == |mem|
  {
    PutWord(PutWord(mem, 4, id), 10, sum)
  }

  /** Byte swapping is multiplication by 256 modulo 0xffff. */
  lemma SwapIsTimes256(w: u16)
    ensures Swap(w) == 0x100 * w - 0xffff * (w / 0x100)
  {
  }

  /** In either byte order the new checksum word is the old one minus the id, modulo 0xffff. */
  lemma PatchedSum(s: u16, id: u16, bigEndian: bool) returns (q: int)
    ensures Load(bigEndian, Add1c(Load(bigEndian, s), 0xffff - Load(bigEndian, id))) == s - id + 0xffff * q
  {
    if bigEndian {
      q := if s + 0xffff - id < 0x1_0000 then 1 else 0;
    } else {
      var c := 0xffff - Swap(id);
      var r := Add1c(Swap(s), c);
      SwapIsTimes256(s);
      SwapIsTimes256(id);
      SwapIsTimes256(r);
      var carry := if Swap(s) + c < 0x1_0000 then 0 else 1;
      q := s - id + 0x100 * (id / 0x100 - s / 0x100 + 1 - carry) - r / 0x100;
    }
  }

  /** The patch writes the id and the checksum word, and nothing else that check_ip reads. */
  lemma PatchFields(mem: bytes, id: u16, sum: u16, j: nat)
    requires |mem| >= 20 && j != 4 && j != 5 && j != 10 && j != 11
    ensures At(PutIdAndSum(mem, id, sum), j) == At(mem, j)
  {
  }

  /** The change of the word sum of at..end under the patch. */
  function PatchShift(id: u16, s: u16, sum: u16, at: nat, end: nat): int {
    ShiftIn(4, 0, id, at, end) + ShiftIn(10, s, sum, at, end)
  }

  lemma PatchRegion(mem: bytes, id: u16, sum: u16, at: nat, n: nat)
    requires |mem| >= 20 && GetWord(mem, 4) == 0 && at % 2 == 0
    ensures WordSum(Region(PutIdAndSum(mem, id, sum), at, n))
         == WordSum(Region(mem, at, n)) + PatchShift(id, GetWord(mem, 10), sum, at, at + n)
  {
    EvenDistance(at);
    RegionPutWord(mem, 4, id, at, n);
    PutKeepsWord(mem, id);
    RegionPutWord(PutWord(mem, 4, id), 10, sum, at, n);
  }

  lemma EvenDistance(at: nat)
    requires at % 2 == 0
    ensures (4 - at) % 2 == 0 && (10 - at) % 2 == 0
  {
  }

  lemma PutKeepsWord(mem: bytes, id: u16)
    requires |mem| >= 20
    ensures GetWord(PutWord(mem, 4, id), 10) == GetWord(mem, 10)
  {
  }

  /** r is mem with `id` put where 0 was and `sum` in place of the checksum word s. */
  ghost predicate PatchOf(mem: bytes, r: bytes, id: u16, s: u16, sum: u16) {
    && (forall j :: 0 <= j && j != 4 && j != 5 && j != 10 && j != 11 ==> At(r, j) == At(mem, j))
    && (forall at, n :: 0 <= at && 0 <= n && at % 2 == 0 ==>
          WordSum(Region(r, at, n)) == WordSum(Region(mem, at, n)) + PatchShift(id, s, sum, at, at + n))
  }

  lemma PutIsPatch(mem: bytes, id: u16, sum: u16)
    requires |mem| >= 20 && GetWord(mem, 4) == 0
    ensures PatchOf(mem, PutIdAndSum(mem, id, sum), id, GetWord(mem, 10), sum)
  {
    var r := PutIdAndSum(mem, id, sum);
    forall j | 0 <= j && j != 4 && j != 5 && j != 10 && j != 11
      ensures At(r, j) == At(mem, j)
    {
      PatchFields(mem, id, sum, j);
    }
    forall at, n | 0 <= at && 0 <= n && at % 2 == 0
      ensures WordSum(Region(r, at, n))
           == WordSum(Region(mem, at, n)) + PatchShift(id, GetWord(mem, 10), sum, at, at + n)
    {
      PatchRegion(mem, id, sum, at, n);
    }
  }

  /** Where the payload that check_ip sums ends; its length is a 16-bit difference. */
  function PayloadEnd(hl: nat, len: nat): nat {
    if hl <= len then len else 0x1_0000 + len
  }

  lemma PayloadEndIs(mem: bytes, len: nat)
    requires len < 0x1_0000
    ensures HeaderLength(mem) + PayloadLength(mem, len) == PayloadEnd(HeaderLength(mem), len)
    ensures HeaderLength(mem) % 4 == 0 && HeaderLength(mem) <= 60
  {
  }

  // ------------------------------------------------------------------ sums modulo 0xffff

  predicate Multiple(d: int) {
    d % 0xffff == 0
  }

  lemma AcceptableIff(n: nat)
    ensures Acceptable(Norm(n)) <==> Multiple(n)
  {
    var q := NormCongruent(n);
    var r: int := Norm(n);
    Remainder(n, r, q);
  }

  lemma Remainder(n: int, r: int, q: int)
    requires n == r + 0xffff * q && 0 <= r <= 0xffff
    ensures Multiple(n) <==> r == 0 || r == 0xffff
  {
  }

  /** A sum that was acceptable stays so exactly when it changes by a multiple of 0xffff. */
  lemma ShiftIff(a: nat, b: nat, d: int)
    requires b == a + d && Acceptable(Norm(a))
    ensures Acceptable(Norm(b)) <==> Multiple(d)
  {
    AcceptableIff(a);
    AcceptableIff(b);
    MultipleSum(a, d);
  }

  lemma MultipleSum(a: int, d: int)
    requires Multiple(a)
    ensures Multiple(a + d) <==> Multiple(d)
  {
    assert a == 0xffff * (a / 0xffff);
    assert (a + d) % 0xffff == d % 0xffff;
  }

  lemma MultipleOfId(id: u16, q: int)
    ensures Multiple(0xffff * q)
    ensures Multiple(id) <==> id == 0 || id == 0xffff
    ensures Multiple(0xffff * q - id) <==> id == 0 || id == 0xffff
  {
    Remainder(id, id, 0);
    Remainder(0xffff * q - id, 0xffff - id, q - 1);
    assert 0xffff * q == 0 + 0xffff * q;
    Remainder(0xffff * q, 0, q);
  }

  // ------------------------------------------------------------------ the verdict after the patch

  /** Does check_ip look at a checksum over the payload? */
  predicate PayloadChecked(mem: bytes) {
    var protocol := At(mem, 9);
    protocol == 1 || protocol == 6 || (protocol == 17 && (At(mem, 26) != 0 || At(mem, 27) != 0))
  }

  lemma PayloadVerdict(mem: bytes, r: bytes, len: nat, d: int)
    requires forall j :: 12 <= j < 20 ==> At(r, j) == At(mem, j)
    requires At(r, 9) == At(mem, 9) && At(r, 26) == At(mem, 26) && At(r, 27) == At(mem, 27)
    requires PayloadLength(r, len) == PayloadLength(mem, len)
    requires PayloadWords(r, len) == PayloadWords(mem, len) + d
    requires CheckPayload(mem, len) == 0
    ensures CheckPayload(r, len) == 0 <==> (PayloadChecked(mem) ==> Multiple(d))
  {
    assert Region(r, 12, 8) == Region(mem, 12, 8);
    PayloadMeaning(mem, len);
    PayloadMeaning(r, len);
    var protocol := At(mem, 9);
    if protocol == 1 {
      ShiftIff(PayloadWords(mem, len), PayloadWords(r, len), d);
    } else if PayloadChecked(mem) {
      ShiftIff(PseudoWords(mem, len), PseudoWords(r, len), d);
    }
  }

  /** The header sum covers both words, neither, or (with a header of 8 bytes) the identification
      only; a payload sum that covers part of them changes too. */
  predicate ShiftsVanish(hl: nat, end: nat, checked: bool, id: u16, s: u16, sum: u16) {
    (hl == 8 ==> id == 0 || id == 0xffff) && (checked ==> Multiple(PatchShift(id, s, sum, hl, end)))
  }

  predicate PatchKeeps(mem: bytes, len: nat, id: u16, bigEndian: bool) {
    var hl, s := HeaderLength(mem), GetWord(mem, 10);
    ShiftsVanish(hl, PayloadEnd(hl, len), PayloadChecked(mem), id, s, PatchedWord(s, id, bigEndian))
  }

  lemma HeaderVerdict(mem: bytes, r: bytes, id: u16, s: u16, sum: u16, q: int)
    requires PatchOf(mem, r, id, s, sum) && sum == s - id + 0xffff * q
    requires Acceptable(Norm(HeaderWords(mem)))
    ensures HeaderLength(r) == HeaderLength(mem)
    ensures Acceptable(Norm(HeaderWords(r))) <==> (HeaderLength(mem) == 8 ==> id == 0 || id == 0xffff)
  {
    assert At(r, 0) == At(mem, 0);
    var hl := HeaderLength(mem);
    HeaderShift(hl, id, s, sum, q);
    MultipleOfId(id, q);
    ShiftIff(HeaderWords(mem), HeaderWords(r), PatchShift(id, s, sum, 0, hl));
  }

  lemma HeaderShift(hl: nat, id: u16, s: u16, sum: u16, q: int)
    requires hl % 4 == 0 && sum == s - id + 0xffff * q
    ensures PatchShift(id, s, sum, 0, hl) == if hl < 8 then 0 else if hl == 8 then id as int else 0xffff * q
  {
  }

  /** After the patch check_ip accepts again exactly when PatchKeeps says so. */
  lemma PatchAcceptedExactly(mem: bytes, len: nat, id: u16, bigEndian: bool)
    requires 20 <= |mem| && CheckIp(mem, len) == 0 && GetWord(mem, 4) == 0
    ensures CheckIp(Patch(mem, id, bigEndian), len) == 0 <==> PatchKeeps(mem, len, id, bigEndian)
  {
    var s := GetWord(mem, 10);
    var sum := PatchedWord(s, id, bigEndian);
    var q := PatchedSum(s, id, bigEndian);
    PutIsPatch(mem, id, sum);
    AcceptedExactly(mem, PutIdAndSum(mem, id, sum), len, id, s, sum, q);
  }

  lemma AcceptedExactly(mem: bytes, r: bytes, len: nat, id: u16, s: u16, sum: u16, q: int)
    requires PatchOf(mem, r, id, s, sum) && sum == s - id + 0xffff * q && CheckIp(mem, len) == 0
    ensures var hl := HeaderLength(mem);
            CheckIp(r, len) == 0 <==> ShiftsVanish(hl, PayloadEnd(hl, len), PayloadChecked(mem), id, s, sum)
  {
    var hl := HeaderLength(mem);
    SameFront(mem, r, len);
    HeaderVerdict(mem, r, id, s, sum, q);
    PatchedPayload(mem, r, len, id, s, sum);
  }

  /** The two halves of the verdict. */
  lemma SameFront(mem: bytes, r: bytes, len: nat)
    requires CheckIp(mem, len) == 0 && At(r, 0) == At(mem, 0) && At(r, 2) == At(mem, 2) && At(r, 3) == At(mem, 3)
    ensures len < 0x1_0000 && Acceptable(Norm(HeaderWords(mem))) && CheckPayload(mem, len) == 0
    ensures CheckIp(r, len) == 0 <==> Acceptable(Norm(HeaderWords(r))) && CheckPayload(r, len) == 0
  {
    HeaderMeaning(mem);
    HeaderMeaning(r);
  }

  lemma PatchedPayload(mem: bytes, r: bytes, len: nat, id: u16, s: u16, sum: u16)
    requires PatchOf(mem, r, id, s, sum) && CheckPayload(mem, len) == 0 && len < 0x1_0000
    ensures var hl := HeaderLength(mem);
            CheckPayload(r, len) == 0 <==>
            (PayloadChecked(mem) ==> Multiple(PatchShift(id, s, sum, hl, PayloadEnd(hl, len))))
  {
    assert At(r, 0) == At(mem, 0);
    PayloadEndIs(mem, len);
    PayloadVerdict(mem, r, len, PatchShift(id, s, sum, HeaderLength(mem), PayloadEnd(HeaderLength(mem), len)));
  }

  /** For packets of 12 bytes and more: exactly when the header does not end between the
      identification and the checksum, or the new id is 0 modulo 0xffff. */
  lemma PatchAcceptedIff(mem: bytes, len: nat, id: u16, bigEndian: bool)
    requires 12 <= len && 20 <= |mem| && CheckIp(mem, len) == 0 && GetWord(mem, 4) == 0
    ensures CheckIp(Patch(mem, id, bigEndian), len) == 0
      <==> (HeaderLength(mem) != 8 || id == 0 || id == 0xffff)
  {
    PatchAcceptedExactly(mem, len, id, bigEndian);
    LongKeeps(mem, len, id, bigEndian);
  }

  lemma LongKeeps(mem: bytes, len: nat, id: u16, bigEndian: bool)
    requires 12 <= len
    ensures PatchKeeps(mem, len, id, bigEndian) <==> HeaderLength(mem) != 8 || id == 0 || id == 0xffff
  {
    var s := GetWord(mem, 10);
    var q := PatchedWordIs(s, id, bigEndian);
    HeaderLengthShape(mem);
    LongVanish(HeaderLength(mem), PayloadEnd(HeaderLength(mem), len), PayloadChecked(mem), id, s,
               PatchedWord(s, id, bigEndian), q);
  }

  lemma HeaderLengthShape(mem: bytes)
    ensures HeaderLength(mem) % 4 == 0
  {
  }

  lemma PatchedWordIs(s: u16, id: u16, bigEndian: bool) returns (q: int)
    ensures PatchedWord(s, id, bigEndian) == s - id + 0xffff * q
  {
    q := PatchedSum(s, id, bigEndian);
  }

  lemma LongVanish(hl: nat, end: nat, checked: bool, id: u16, s: u16, sum: u16, q: int)
    requires hl % 4 == 0 && end >= 12 && sum == s - id + 0xffff * q
    ensures ShiftsVanish(hl, end, checked, id, s, sum) <==> hl != 8 || id == 0 || id == 0xffff
  {
    LongShift(hl, end, id, s, sum, q);
    MultipleOfId(id, q);
  }

  lemma LongShift(hl: nat, end: nat, id: u16, s: u16, sum: u16, q: int)
    requires hl % 4 == 0 && end >= 12 && sum == s - id + 0xffff * q
    ensures PatchShift(id, s, sum, hl, end) == if hl < 8 then 0xffff * q else if hl == 8 then 0xffff * q - id else 0
  {
  }

  // ------------------------------------------------------------------ with the guard of the source

  /** Does write_to_serial fill in the identification?  Both fields are read in host order. */
  predicate NeedsId(mem: bytes, bigEndian: bool) {
    GetWord(mem, 4) == 0 && DontFragment(Load(bigEndian, GetWord(mem, 6)))
  }

  /** Bit 14 of the flags is set. */
  predicate DontFragment(flags: u16) {
    0x4000 <= flags < 0x8000 || 0xc000 <= flags
  }

  lemma DontFragmentIsBit(flags: u16)
    ensures DontFragment(flags) <==> flags as int / 0x4000 % 2 == 1
  {
  }

  /** On a big-endian host no accepted packet that fits the tun buffer has the header length that
      the patch spoils and wants an identification. */
  lemma BigEndianKeeps(mem: bytes, len: nat, id: u16)
    requires 12 <= len <= 2000 && 20 <= |mem| && CheckIp(mem, len) == 0 && NeedsId(mem, true)
    ensures HeaderLength(mem) != 8 && CheckIp(Patch(mem, id, true), len) == 0
  {
    ShortHeaderFlags(mem, len);
    PatchAcceptedIff(mem, len, id, true);
  }

  /** An accepted packet with an 8-byte header and no identification has no such bit. */
  lemma ShortHeaderFlags(mem: bytes, len: nat)
    requires 0 < len <= 2000 && CheckIp(mem, len) == 0 && GetWord(mem, 4) == 0
    ensures HeaderLength(mem) == 8 ==> !DontFragment(GetWord(mem, 6))
  {
    if HeaderLength(mem) == 8 {
      HeaderMeaning(mem);
      FirstWords(mem);
      AcceptableIff(HeaderWords(mem));
      NoFragmentBit(GetWord(mem, 0), len, GetWord(mem, 6));
    }
  }

  lemma NextWord(mem: bytes, at: nat, n: nat)
    requires n >= 2
    ensures WordSum(Region(mem, at, n)) == GetWord(mem, at) + WordSum(Region(mem, at + 2, n - 2))
  {
    assert Region(mem, at, n)[2..] == Region(mem, at + 2, n - 2);
  }

  lemma FirstWords(mem: bytes)
    requires HeaderLength(mem) == 8
    ensures HeaderWords(mem) == GetWord(mem, 0) + GetWord(mem, 2) + GetWord(mem, 4) + GetWord(mem, 6)
  {
    NextWord(mem, 0, 8);
    NextWord(mem, 2, 6);
    NextWord(mem, 4, 4);
    NextWord(mem, 6, 2);
  }

  /** A first word 0x42.., a length of at most 2000 and the flags add up to 0xffff. */
  lemma NoFragmentBit(first: u16, len: nat, flags: u16)
    requires 0x4200 <= first <= 0x42ff && 0 < len <= 2000 && Multiple(first + len + flags)
    ensures !DontFragment(flags)
  {
    var n: int := first + len + flags;
    assert 0 < n < 2 * 0xffff;
    assert n == 0xffff;
  }

  /** 42 00 00 14, no identification, flags BD EB, protocol 0. */
  predicate Strange(mem: bytes) {
    && |mem| >= 20 && At(mem, 0) == 0x42 && GetWord(mem, 0) == 0x4200 && GetWord(mem, 2) == 20 && GetWord(mem, 4) == 0
    && GetWord(mem, 6) == 0xbdeb && At(mem, 9) == 0
  }

  /** On a little-endian host such a packet is accepted, patched, and then dropped. */
  lemma LittleEndianDrops(mem: bytes, id: u16)
    requires Strange(mem) && id != 0 && id != 0xffff
    ensures CheckIp(mem, 20) == 0 && NeedsId(mem, false) && CheckIp(Patch(mem, id, false), 20) != 0
  {
    StrangeAccepted(mem);
    StrangeNeedsId(mem);
    PatchAcceptedIff(mem, 20, id, false);
  }

  lemma StrangeNeedsId(mem: bytes)
    requires Strange(mem)
    ensures NeedsId(mem, false)
  {
    assert Swap(0xbdeb) == 0xebbd;
  }

  lemma StrangeAccepted(mem: bytes)
    requires Strange(mem)
    ensures CheckIp(mem, 20) == 0 && HeaderLength(mem) == 8
  {
    FirstWords(mem);
    HeaderMeaning(mem);
    VerdictOf(mem, 20);
  }

  /** The verdict on a packet of no checked protocol. */
  lemma VerdictOf(mem: bytes, len: nat)
    requires At(mem, 0) / 16 == 4 && GetWord(mem, 2) == len && At(mem, 9) == 0
    requires Acceptable(Ip4Sum(0, Region(mem, 0, HeaderLength(mem))))
    ensures CheckIp(mem, len) == 0
  {
  }

  const STRANGE: bytes := [0x42, 0, 0, 20, 0, 0, 0xbd, 0xeb] + seq(12, _ => 0)

  lemma StrangeBytes(b: bytes)
    requires |b| >= 20 && b[0] == 0x42 && b[1] == 0 && b[2] == 0 && b[3] == 20 && b[4] == 0 && b[5] == 0
    requires b[6] == 0xbd && b[7] == 0xeb && b[9] == 0
    ensures Strange(b)
  {
  }

  lemma StrangeExists()
    ensures Strange(STRANGE)
  {
    StrangeBytes(STRANGE);
  }
}
