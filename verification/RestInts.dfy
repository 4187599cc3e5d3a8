/** The integer codecs of apps/rest-common/rest-util.c. */
module RestInts {
  import opened Bytes

  const WORD32 := 0x1_0000_0000

  function BigEndian(b: bytes): nat {
    if b == [] then 0 else 0x100 * BigEndian(b[..|b| - 1]) + b[|b| - 1] as int
  }

  /** read_int: at most four bytes, most significant first; any other size reads as 0. */
  function ReadInt(buf: bytes, size: nat): nat
    requires size <= |buf|
  {
    if 1 <= size <= 4 then BigEndian(buf[..size]) else 0
  }

  function ToBytes(data: nat): (r: bytes)
    requires data < WORD32
    ensures |r| == 4
  {
    [data / 0x100_0000, data / 0x1_0000 % 0x100, data / 0x100 % 0x100, data % 0x100]
  }

  /** write_int: the low-order `size` bytes of a 32-bit value. */
  function WriteInt(data: nat, size: nat): bytes
    requires data < WORD32
  {
    if 1 <= size <= 4 then ToBytes(data)[4 - size..] else []
  }

  function WriteVariableInt(data: nat): bytes
    requires data < WORD32
  {
    WriteInt(data, if data <= 0xff then 1 else if data <= 0xffff then 2 else if data <= 0xff_ffff then 3 else 4)
  }

  lemma BigEndianUnfold(b: bytes)
    requires |b| <= 4
    ensures |b| == 1 ==> BigEndian(b) == b[0]
    ensures |b| == 2 ==> BigEndian(b) == 0x100 * b[0] as int + b[1] as int
    ensures |b| == 3 ==> BigEndian(b) == 0x1_0000 * b[0] as int + 0x100 * b[1] as int + b[2] as int
    ensures |b| == 4 ==>
              BigEndian(b) == 0x100_0000 * b[0] as int + 0x1_0000 * b[1] as int + 0x100 * b[2] as int + b[3] as int
  {
    if |b| > 1 {
      var c := b[..|b| - 1];
      BigEndianUnfold(c);
    }
  }

  /** read_int inverts write_variable_int for every 32-bit value. */
  lemma VariableIntRoundTrip(data: nat)
    requires data < WORD32
    ensures var w := WriteVariableInt(data); 1 <= |w| <= 4 && ReadInt(w, |w|) == data
  {
    var w := WriteVariableInt(data);
    assert w[..|w|] == w;
    BigEndianUnfold(w);
    BytesOf(data);
  }

  lemma BytesOf(data: nat)
    requires data < WORD32
    ensures data == 0x100_0000 * (data / 0x100_0000) + 0x1_0000 * (data / 0x1_0000 % 0x100)
                    + 0x100 * (data / 0x100 % 0x100) + data % 0x100
    ensures data <= 0xff_ffff ==> data / 0x100_0000 == 0
    ensures data <= 0xffff ==> data / 0x1_0000 % 0x100 == 0
    ensures data <= 0xff ==> data / 0x100 % 0x100 == 0
  {
    var q := data / 0x100;
    assert data / 0x1_0000 == q / 0x100 && data / 0x100_0000 == q / 0x100 / 0x100;
  }

  /** ... and no shorter byte string reads back as the value. */
  lemma VariableIntMinimal(data: nat, b: bytes)
    requires data < WORD32 && 1 <= |b| <= 4 && ReadInt(b, |b|) == data
    ensures |WriteVariableInt(data)| <= |b|
  {
    assert b[..|b|] == b;
    BigEndianUnfold(b);
  }

  /** Sizes other than 1 to 4 read as 0 and write nothing. */
  lemma OtherSizes(data: nat, buf: bytes, size: nat)
    requires data < WORD32 && size <= |buf| && (size == 0 || size > 4)
    ensures ReadInt(buf, size) == 0 && WriteInt(data, size) == []
  {
  }

  /** Of 1 to 4 bytes read, the first counts most; bytes behind them do not count. */
  lemma ReadMeaning(buf: bytes, size: nat)
    requires 1 <= size <= 4 && size <= |buf|
    ensures size == 1 ==> ReadInt(buf, size) == buf[0]
    ensures size == 2 ==> ReadInt(buf, size) == 256 * buf[0] as int + buf[1] as int
    ensures size == 3 ==> ReadInt(buf, size) == 65536 * buf[0] as int + 256 * buf[1] as int + buf[2] as int
    ensures size == 4 ==>
              ReadInt(buf, size)
              == 16777216 * buf[0] as int + 65536 * buf[1] as int + 256 * buf[2] as int + buf[3] as int
  {
    BigEndianUnfold(buf[..size]);
  }

  /** A fixed-size write keeps the low bytes: reading them back gives the value modulo 256^size. */
  lemma WriteMeaning(data: nat, size: nat)
    requires data < WORD32 && 1 <= size <= 4
    ensures var w := WriteInt(data, size);
            && |w| == size
            && ReadInt(w, size) == data % (if size == 1 then 0x100 else if size == 2 then 0x1_0000
                                           else if size == 3 then 0x100_0000 else WORD32)
  {
    var w := WriteInt(data, size);
    ReadMeaning(w, size);
    BytesOf(data);
    LowBytes(data);
  }

  lemma LowBytes(data: nat)
    ensures data % 0x1_0000 == 0x100 * (data / 0x100 % 0x100) + data % 0x100
    ensures data % 0x100_0000 == 0x1_0000 * (data / 0x1_0000 % 0x100) + 0x100 * (data / 0x100 % 0x100) + data % 0x100
  {
    var q := data / 0x100;
    var r := q / 0x100;
    assert data / 0x1_0000 == r;
    assert q == 0x100 * r + q % 0x100 && data == 0x100 * q + data % 0x100;
    assert data == 0x1_0000 * r + (0x100 * (q % 0x100) + data % 0x100);
    assert r == 0x100 * (r / 0x100) + r % 0x100;
    assert data == 0x100_0000 * (r / 0x100) + (0x1_0000 * (r % 0x100) + 0x100 * (q % 0x100) + data % 0x100);
  }

  function Pow2(n: nat): nat {
    if n == 0 then 1 else 2 * Pow2(n - 1)
  }

  /** The floor logarithm, with 0 for 0. */
  ghost predicate IsLog2(value: nat, r: nat) {
    if value == 0 then r == 0 else Pow2(r) <= value < Pow2(r + 1)
  }

  /** log_2: shift right until nothing is left. */
  method Log2(value: u16) returns (r: nat)
    ensures IsLog2(value, r)
  {
    var v: nat, result := value / 2, 1;
    while v != 0
      invariant 1 <= result
      invariant v == 0 ==> IsLog2(value, result - 1)
      invariant v != 0 ==> v * Pow2(result) <= value < (v + 1) * Pow2(result)
    {
      HalfStep(value, v, result);
      v := v / 2;
      result := result + 1;
    }
    r := result - 1;
  }

  lemma HalfStep(value: nat, v: nat, k: nat)
    requires v != 0 && v * Pow2(k) <= value < (v + 1) * Pow2(k)
    ensures v / 2 == 0 ==> IsLog2(value, k)
    ensures v / 2 != 0 ==> v / 2 * Pow2(k + 1) <= value < (v / 2 + 1) * Pow2(k + 1)
  {
    var p := Pow2(k);
    assert Pow2(k + 1) == 2 * p;
    if v / 2 != 0 {
      assert 2 * (v / 2) * p <= v * p;
      assert (v + 1) * p <= 2 * (v / 2 + 1) * p;
      assert v / 2 * (2 * p) == 2 * (v / 2) * p;
      assert (v / 2 + 1) * (2 * p) == 2 * (v / 2 + 1) * p;
    } else {
      assert v == 1;
    }
  }

  lemma {:induction false} Pow2Monotone(a: nat, b: nat)
    requires a <= b
    ensures 0 < Pow2(a) <= Pow2(b)
    decreases b
  {
    if b > 0 {
      Pow2Monotone(if a == b then a - 1 else a, b - 1);
    }
  }

  /** The logarithm is unique, so Log2 has only one possible result. */
  lemma Log2Unique(value: nat, r: nat, s: nat)
    requires IsLog2(value, r) && IsLog2(value, s)
    ensures r == s
  {
    if value != 0 && r < s {
      Pow2Monotone(r + 1, s);
      assert false;
    } else if value != 0 && s < r {
      Pow2Monotone(s + 1, r);
      assert false;
    }
  }
}
