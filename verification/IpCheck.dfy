/**
 check_ip of tools/tunslip.c, its sums as congruences, and the detection of damaged header
 words.

 `mem` is the memory that starts at the packet.  check_ip reads header fields whatever the
 stated length, so it takes `mem` and not only the packet; a read past the end of `mem`
 gives 0.
 */
module IpCheck {
  import opened Bytes
  import opened Checksum

  function At(mem: bytes, i: nat): u8 {
    if i < |mem| then mem[i] else 0
  }

  function Region(mem: bytes, at: nat, n: nat): (r: bytes)
    ensures |r| == n
    ensures forall i :: 0 <= i < n ==> r[i] == At(mem, at + i)
  {
    seq<u8>(n, i requires 0 <= i < n => At(mem, at + i))
  }

  function HeaderLength(mem: bytes): nat {
    4 * (At(mem, 0) % 16)
  }

  /** `ip_len - ip_hl` in a 16-bit variable. */
  function PayloadLength(mem: bytes, len: nat): u16 {
    (len - HeaderLength(mem)) % 0x1_0000
  }

  function PseudoStart(mem: bytes, len: nat): u16 {
    (At(mem, 9) as int + PayloadLength(mem, len)) % 0x1_0000
  }

  function PayloadSum(mem: bytes, len: nat): u16 {
    Ip4Sum(Ip4Sum(PseudoStart(mem, len), Region(mem, 12, 8)),
           Region(mem, HeaderLength(mem), PayloadLength(mem, len)))
  }

  function CheckPayload(mem: bytes, len: nat): int {
    var protocol := At(mem, 9);
    if protocol == 6 || protocol == 17 then
      if Acceptable(PayloadSum(mem, len)) then 0
      else if protocol == 6 then -5
      else if At(mem, 26) != 0 || At(mem, 27) != 0 then -6
      else 0
    else if protocol == 1 then
      if Acceptable(Ip4Sum(0, Region(mem, HeaderLength(mem), PayloadLength(mem, len)))) then 0 else -7
    else 0
  }

  function CheckIp(mem: bytes, len: nat): int {
    var total := Word(At(mem, 2), At(mem, 3));
    if At(mem, 0) / 16 != 4 then -1
    else if total > len then -2
    else if total < len then -3
    else if !Acceptable(Ip4Sum(0, Region(mem, 0, HeaderLength(mem)))) then -4
    else CheckPayload(mem, len)
  }

  // ------------------------------------------------------------------ sums as congruences

  function HeaderWords(mem: bytes): nat {
    WordSum(Region(mem, 0, HeaderLength(mem)))
  }

  function PayloadWords(mem: bytes, len: nat): nat {
    WordSum(Region(mem, HeaderLength(mem), PayloadLength(mem, len)))
  }

  function PseudoWords(mem: bytes, len: nat): nat {
    PseudoStart(mem, len) + WordSum(Region(mem, 12, 8)) + PayloadWords(mem, len)
  }

  lemma HeaderMeaning(mem: bytes)
    ensures Ip4Sum(0, Region(mem, 0, HeaderLength(mem))) == Norm(HeaderWords(mem))
  {
    SumMeaning(0, Region(mem, 0, HeaderLength(mem)));
  }

  lemma PayloadMeaning(mem: bytes, len: nat)
    ensures PayloadSum(mem, len) == Norm(PseudoWords(mem, len))
    ensures Ip4Sum(0, Region(mem, HeaderLength(mem), PayloadLength(mem, len))) == Norm(PayloadWords(mem, len))
  {
    var payload := Region(mem, HeaderLength(mem), PayloadLength(mem, len));
    TwoPartsMeaning(PseudoStart(mem, len), Region(mem, 12, 8), payload);
    SumMeaning(0, payload);
  }

  lemma TwoPartsMeaning(start: u16, a: bytes, b: bytes)
    requires |a| % 2 == 0
    ensures Ip4Sum(Ip4Sum(start, a), b) == Norm(start + WordSum(a) + WordSum(b))
  {
    SumComposes(start, a, b);
    WordSumAppend(a, b);
    SumMeaning(start, a + b);
  }

  function Put(b: bytes, i: nat, hi: u8, lo: u8): (r: bytes)
    requires i + 1 < |b|
    ensures |r| == |b| && r[i] == hi && r[i + 1] == lo
    ensures forall j :: 0 <= j < |b| && j != i && j != i + 1 ==> r[j] == b[j]
  {
    b[i := hi][i + 1 := lo]
  }

  lemma {:induction false} WordSumUpdate(b: bytes, i: nat, hi: u8, lo: u8)
    requires i % 2 == 0 && i + 1 < |b|
    ensures WordSum(Put(b, i, hi, lo)) == WordSum(b) - Word(b[i], b[i + 1]) + Word(hi, lo)
    decreases |b|
  {
    var c := Put(b, i, hi, lo);
    if i == 0 {
      assert c[2..] == b[2..];
    } else {
      assert c[2..] == Put(b[2..], i - 2, hi, lo);
      WordSumUpdate(b[2..], i - 2, hi, lo);
    }
  }

  function PutWord(mem: bytes, i: nat, w: u16): (r: bytes)
    requires i + 1 < |mem|
    ensures |r| == |mem| && Word(r[i], r[i + 1]) == w
    ensures forall j :: 0 <= j < |mem| && j != i && j != i + 1 ==> r[j] == mem[j]
  {
    Put(mem, i, w / 0x100, w % 0x100)
  }

  function GetWord(mem: bytes, i: nat): u16 {
    Word(At(mem, i), At(mem, i + 1))
  }

  /** How the word sum of the region at..end changes when the word at i becomes w instead of v.  A
      region of odd length takes only the high byte of its last word. */
  function ShiftIn(i: nat, v: u16, w: u16, at: nat, end: nat): int {
    if at <= i && i + 2 <= end then w as int - v as int
    else if at <= i && i + 1 == end then 0x100 * (w as int / 0x100 - v as int / 0x100)
    else 0
  }

  lemma RegionPutWord(mem: bytes, i: nat, w: u16, at: nat, n: nat)
    requires i + 1 < |mem| && (i - at) % 2 == 0
    ensures WordSum(Region(PutWord(mem, i, w), at, n))
         == WordSum(Region(mem, at, n)) + ShiftIn(i, GetWord(mem, i), w, at, at + n)
  {
    var before, after := Region(mem, at, n), Region(PutWord(mem, i, w), at, n);
    if at <= i && i + 1 < at + n {
      var hi: u8, lo: u8 := w / 0x100, w % 0x100;
      assert after == Put(before, i - at, hi, lo);
      WordSumUpdate(before, i - at, hi, lo);
    } else if at <= i && i + 1 == at + n {
      LastByte(before, after, At(mem, i), w / 0x100);
    } else {
      assert after == before;
    }
  }

  /** The odd last byte is the high byte of a word. */
  lemma LastByte(before: bytes, after: bytes, v: u8, w: u8)
    requires |before| == |after| && |before| % 2 == 1 && before[|before| - 1] == v && after[|before| - 1] == w
    requires before[..|before| - 1] == after[..|before| - 1]
    ensures WordSum(after) == WordSum(before) + 0x100 * (w as int - v as int)
  {
    var front := before[..|before| - 1];
    assert before == front + [v] && after == front + [w];
    WordSumAppend(front, [v]);
    WordSumAppend(front, [w]);
  }

  // ------------------------------------------------------------------ damaged headers

  /** Changing one header word of an accepted packet (not version and length, not the total
      length) is reported as a checksum error unless it swaps 0x0000 and 0xffff. */
  lemma HeaderWordChange(mem: bytes, len: nat, i: nat, w: u16)
    requires CheckIp(mem, len) == 0 && i % 2 == 0 && 4 <= i && i + 1 < HeaderLength(mem) && i + 1 < |mem|
    requires w != GetWord(mem, i)
    ensures CheckIp(PutWord(mem, i, w), len) == -4 <==> {w, GetWord(mem, i)} != {0, 0xffff}
  {
    var r := PutWord(mem, i, w);
    var v := GetWord(mem, i);
    HeaderMeaning(mem);
    HeaderMeaning(r);
    assert HeaderLength(r) == HeaderLength(mem);
    RegionPutWord(mem, i, w, 0, HeaderLength(mem));
    assert HeaderWords(r) == HeaderWords(mem) + w - v;
    ModShift(HeaderWords(mem), HeaderWords(r));
    assert {w, v} == {0, 0xffff} <==> (w == 0 && v == 0xffff) || (w == 0xffff && v == 0) by {
      if {w, v} == {0, 0xffff} {
        assert w in {0, 0xffff} && v in {0, 0xffff};
      }
    }
  }
}
