/**
 The streaming base64 decoder of apps/shell/shell-base64.c against the encoding of section 4
 of RFC 4648.  Characters are bytes.
 */
module Base64 {
  import opened Bytes

  const MAX_DATA := 57                  // 3 * BASE64_MAX_LINELEN / 4
  const ULONG := 0x1_0000_0000          // unsigned long

  // ------------------------------------------------------------------ the encoding

  /** Table 1 of RFC 4648. */
  function EncodeSextet(v: nat): u8
    requires v < 64
  {
    if v < 26 then 65 + v else if v < 52 then 97 + (v - 26) else if v < 62 then 48 + (v - 52)
    else if v == 62 then 43 else 47
  }

  const PAD: u8 := 61

  function EncodeGroup(a: u8, b: u8, c: u8): bytes {
    [EncodeSextet(a / 4), EncodeSextet(a % 4 * 16 + b / 16), EncodeSextet(b % 16 * 4 + c / 64), EncodeSextet(c % 64)]
  }

  function Encode(x: bytes): bytes {
    if x == [] then []
    else if |x| == 1 then EncodeGroup(x[0], 0, 0)[..2] + [PAD, PAD]
    else if |x| == 2 then EncodeGroup(x[0], x[1], 0)[..3] + [PAD]
    else EncodeGroup(x[0], x[1], x[2]) + Encode(x[3..])
  }

  // ------------------------------------------------------------------ the decoder

  predicate IsSpace(c: u8) {
    c == 32 || 9 <= c <= 13
  }

  function DecodeChar(c: u8): (v: nat)
    ensures v < 64
  {
    if 65 <= c <= 90 then c - 65
    else if 97 <= c <= 122 then c - 97 + 26
    else if 48 <= c <= 57 then c - 48 + 52
    else if c == 43 then 62
    else if c == 47 then 63
    else 0
  }

  /** "foobar" is "Zm9vYmFy" and "foob" is "Zm9vYg==" (section 10 of RFC 4648); the bytes FB FF are
      "+/8=". */
  lemma KnownEncodings()
    ensures Encode([102, 111, 111, 98, 97, 114]) == [90, 109, 57, 118, 89, 109, 70, 121]
    ensures Encode([102, 111, 111, 98]) == [90, 109, 57, 118, 89, 103, 61, 61]
    ensures Encode([0xfb, 0xff]) == [43, 47, 56, 61]
  {
    var x: bytes, y: bytes := [102, 111, 111, 98, 97, 114], [102, 111, 111, 98];
    assert x[3..] == [98, 97, 114] && [98, 97, 114][3..] == [] && y[3..] == [98];
    assert Encode([98, 97, 114]) == EncodeGroup(98, 97, 114) + Encode([]);
    assert Encode([98]) == EncodeGroup(98, 0, 0)[..2] + [61, 61];
  }

  /** White space is blank, tab, line feed, vertical tab, form feed and carriage return. */
  lemma SpaceIs(c: u8)
    ensures IsSpace(c) <==> c in {32, 9, 10, 11, 12, 13}
  {
  }

  /** A character outside the alphabet, '=' among them, counts as 'A'. */
  lemma StrangerIsZero(c: u8)
    requires forall v :: 0 <= v < 64 ==> c != EncodeSextet(v)
    ensures DecodeChar(c) == 0
  {
    assert DecodeChar(c) != 0 ==> c == EncodeSextet(DecodeChar(c));
  }

  type Data = d: bytes | |d| == MAX_DATA witness seq(MAX_DATA, _ => 0)

  datatype Decoder = Decoder(data: Data, dataptr: nat, tmpdata: nat, sextets: nat, padding: nat)

  predicate InRange(s: Decoder) {
    s.dataptr <= MAX_DATA && s.dataptr % 3 == 0 && s.sextets < 4 && s.tmpdata < ULONG
  }

  function Shifted(tmp: nat, c: u8): nat {
    (tmp * 64 + DecodeChar(c)) % ULONG
  }

  /** base64_add_char. */
  function AddChar(s: Decoder, c: u8): (r: Decoder)
    requires InRange(s)
    ensures InRange(r)
  {
    if IsSpace(c) || s.dataptr >= MAX_DATA then s else
    var tmp := Shifted(s.tmpdata, c);
    var padding := if c == PAD then s.padding + 1 else s.padding;
    if s.sextets + 1 == 4 then
      Decoder(s.data[s.dataptr := tmp / 0x1_0000 % 256][s.dataptr + 1 := tmp / 0x100 % 256][s.dataptr + 2 := tmp % 256],
              s.dataptr + 3, tmp, 0, padding)
    else
      Decoder(s.data, s.dataptr, tmp, s.sextets + 1, padding)
  }

  function AddChars(s: Decoder, input: bytes): (r: Decoder)
    requires InRange(s)
    ensures InRange(r)
    decreases |input|
  {
    if input == [] then s else AddChars(AddChar(s, input[0]), input[1..])
  }

  /** The bytes handed to the shell. */
  function Output(s: Decoder): bytes
    requires InRange(s)
  {
    if s.padding <= s.dataptr then s.data[..s.dataptr - s.padding] else []
  }

  // ------------------------------------------------------------------ white space and splitting

  function StripSpaces(input: bytes): bytes {
    if input == [] then []
    else if IsSpace(input[0]) then StripSpaces(input[1..])
    else [input[0]] + StripSpaces(input[1..])
  }

  lemma {:induction false} SpacesIgnored(s: Decoder, input: bytes)
    requires InRange(s)
    ensures AddChars(s, input) == AddChars(s, StripSpaces(input))
    decreases |input|
  {
    if input != [] {
      SpacesIgnored(AddChar(s, input[0]), input[1..]);
      if !IsSpace(input[0]) {
        assert StripSpaces(input)[1..] == StripSpaces(input[1..]);
      }
    }
  }

  lemma {:induction false} SplitIrrelevant(s: Decoder, a: bytes, b: bytes)
    requires InRange(s)
    ensures AddChars(AddChars(s, a), b) == AddChars(s, a + b)
    decreases |a|
  {
    if a == [] {
      assert a + b == b;
    } else {
      assert (a + b)[1..] == a[1..] + b;
      SplitIrrelevant(AddChar(s, a[0]), a[1..], b);
    }
  }

  lemma {:induction false} FullIgnores(s: Decoder, input: bytes)
    requires InRange(s) && s.dataptr == MAX_DATA
    ensures AddChars(s, input) == s
    decreases |input|
  {
    if input != [] {
      FullIgnores(s, input[1..]);
    }
  }

  // ------------------------------------------------------------------ one group of four

  /** The low bits of the accumulator after one more sextet. */
  lemma ShiftLow(tmp: nat, c: u8, m: nat, k: nat)
    requires m > 0 && ULONG == 64 * m * k
    ensures Shifted(tmp, c) % (64 * m) == tmp % m * 64 + DecodeChar(c)
  {
    var v := DecodeChar(c);
    var q, r := tmp / m, tmp % m;
    var n := tmp * 64 + v;
    var low := 64 * r + v;
    assert tmp == m * q + r;
    assert n == (64 * m) * q + low by {
      assert 64 * (m * q) == (64 * m) * q;
    }
    assert low < 64 * m by {
      assert r + 1 <= m;
    }
    var w := n / ULONG;
    var t := n % ULONG;
    assert n == ULONG * w + t;
    assert ULONG * w == (64 * m) * (k * w);
    assert t == (64 * m) * (q - k * w) + low by {
      assert (64 * m) * q - (64 * m) * (k * w) == (64 * m) * (q - k * w);
    }
    ModUnique(t, 64 * m, q - k * w, low);
  }

  lemma ModUnique(n: nat, d: nat, q: int, r: nat)
    requires d > 0 && n == d * q + r && r < d
    ensures n % d == r && n / d == q
  {
    var p := n / d;
    assert n == d * p + n % d;
    assert p < q ==> d * q >= d * (p + 1);
    assert p > q ==> d * p >= d * (q + 1);
  }

  /** Four sextets determine the low 24 bits, whatever the accumulator held before. */
  lemma FourSextets(tmp: nat, c0: u8, c1: u8, c2: u8, c3: u8)
    ensures Shifted(Shifted(Shifted(Shifted(tmp, c0), c1), c2), c3) % 0x100_0000 ==
            DecodeChar(c0) * 0x4_0000 + DecodeChar(c1) * 0x1000 + DecodeChar(c2) * 0x40 + DecodeChar(c3)
  {
    var t0 := Shifted(tmp, c0);
    var t1 := Shifted(t0, c1);
    var t2 := Shifted(t1, c2);
    ShiftLow(tmp, c0, 1, 0x400_0000);
    ShiftLow(t0, c1, 64, 0x10_0000);
    ShiftLow(t1, c2, 0x1000, 0x4000);
    ShiftLow(t2, c3, 0x4_0000, 0x100);
  }

  lemma SextetRoundTrip(v: nat)
    requires v < 64
    ensures DecodeChar(EncodeSextet(v)) == v && EncodeSextet(v) != PAD && !IsSpace(EncodeSextet(v))
  {
  }

  lemma GroupBytes(tmp: nat, a: u8, b: u8, c: u8)
    requires tmp % 0x100_0000 == a * 0x1_0000 + b * 0x100 + c
    ensures tmp / 0x1_0000 % 256 == a && tmp / 0x100 % 256 == b && tmp % 256 == c
  {
    var q := tmp / 0x100_0000;
    ModUnique(tmp, 0x1_0000, 0x100 * q + a, b * 0x100 + c);
    ModUnique(0x100 * q + a, 0x100, q, a);
    ModUnique(tmp, 0x100, 0x1_0000 * q + 0x100 * a + b, c);
    ModUnique(0x1_0000 * q + 0x100 * a + b, 0x100, 0x100 * q + a, b);
  }

  /** The three bytes that four sextets carry. */
  lemma GroupValue(a: u8, b: u8, c: u8)
    ensures (a / 4) * 0x4_0000 + (a % 4 * 16 + b / 16) * 0x1000 + (b % 16 * 4 + c / 64) * 0x40 + c % 64
            == a * 0x1_0000 + b * 0x100 + c
  {
  }

  ghost predicate Aligned(s: Decoder) {
    InRange(s) && s.sextets == 0 && s.padding == 0
  }

  function Paddings(c: u8): nat {
    if c == PAD then 1 else 0
  }

  lemma AddEarly(s: Decoder, c: u8)
    requires InRange(s) && s.dataptr < MAX_DATA && s.sextets < 3 && !IsSpace(c)
    ensures AddChar(s, c) == Decoder(s.data, s.dataptr, Shifted(s.tmpdata, c), s.sextets + 1, s.padding + Paddings(c))
  {
  }

  lemma AddFourth(s: Decoder, c: u8)
    requires InRange(s) && s.dataptr < MAX_DATA && s.sextets == 3 && !IsSpace(c)
    ensures var r, tmp := AddChar(s, c), Shifted(s.tmpdata, c);
            && s.dataptr + 3 <= MAX_DATA && r.dataptr == s.dataptr + 3 && r.sextets == 0 && r.tmpdata == tmp
            && r.padding == s.padding + Paddings(c)
            && r.data[..r.dataptr] == s.data[..s.dataptr] + [tmp / 0x1_0000 % 256, tmp / 0x100 % 256, tmp % 256]
  {
  }

  lemma FourSteps(s: Decoder, q: bytes)
    requires InRange(s) && |q| == 4
    ensures AddChars(s, q) == AddChar(AddChar(AddChar(AddChar(s, q[0]), q[1]), q[2]), q[3])
  {
    var q1, q2, q3 := q[1..], q[2..], q[3..];
    assert q1[1..] == q2 && q2[1..] == q3 && q3[1..] == [];
    var s1 := AddChar(s, q[0]);
    var s2 := AddChar(s1, q[1]);
    var s3 := AddChar(s2, q[2]);
    assert AddChars(s3, q3) == AddChar(s3, q[3]);
    assert AddChars(s2, q2) == AddChars(s3, q3);
    assert AddChars(s1, q1) == AddChars(s2, q2);
  }

  /** Four characters that are not white space store three bytes. */
  lemma FourChars(s: Decoder, q: bytes)
    requires Aligned(s) && s.dataptr < MAX_DATA && |q| == 4
    requires !IsSpace(q[0]) && !IsSpace(q[1]) && !IsSpace(q[2]) && !IsSpace(q[3])
    ensures var r := AddChars(s, q);
            var tmp := Shifted(Shifted(Shifted(Shifted(s.tmpdata, q[0]), q[1]), q[2]), q[3]);
            && s.dataptr + 3 <= MAX_DATA && r.dataptr == s.dataptr + 3 && r.sextets == 0 && r.tmpdata == tmp
            && r.padding == Paddings(q[0]) + Paddings(q[1]) + Paddings(q[2]) + Paddings(q[3])
            && r.data[..r.dataptr] == s.data[..s.dataptr] + [tmp / 0x1_0000 % 256, tmp / 0x100 % 256, tmp % 256]
  {
    FourSteps(s, q);
    AddEarly(s, q[0]);
    var s1 := AddChar(s, q[0]);
    AddEarly(s1, q[1]);
    var s2 := AddChar(s1, q[1]);
    AddEarly(s2, q[2]);
    AddFourth(AddChar(s2, q[2]), q[3]);
  }

  /** One encoded group. */
  lemma EncodedGroup(s: Decoder, q: bytes, a: u8, b: u8, c: u8)
    requires Aligned(s) && s.dataptr < MAX_DATA && |q| == 4
    requires !IsSpace(q[0]) && !IsSpace(q[1]) && !IsSpace(q[2]) && !IsSpace(q[3])
    requires DecodeChar(q[0]) == a / 4 && DecodeChar(q[1]) == a % 4 * 16 + b / 16
    requires DecodeChar(q[2]) == b % 16 * 4 + c / 64 && DecodeChar(q[3]) == c % 64
    ensures var r := AddChars(s, q);
            && s.dataptr + 3 <= MAX_DATA && r.dataptr == s.dataptr + 3 && r.sextets == 0
            && r.padding == Paddings(q[0]) + Paddings(q[1]) + Paddings(q[2]) + Paddings(q[3])
            && r.data[..r.dataptr] == s.data[..s.dataptr] + [a, b, c]
  {
    FourChars(s, q);
    FourSextets(s.tmpdata, q[0], q[1], q[2], q[3]);
    GroupValue(a, b, c);
    GroupBytes(AddChars(s, q).tmpdata, a, b, c);
  }

  function Min(a: nat, b: nat): nat {
    if a < b then a else b
  }

  /** Decoding the encoding of x appends the bytes of x, as far as there is room. */
  lemma {:induction false} DecodeEncoded(s: Decoder, x: bytes)
    requires Aligned(s)
    ensures Output(AddChars(s, Encode(x))) == s.data[..s.dataptr] + x[..Min(|x|, MAX_DATA - s.dataptr)]
    decreases |x|
  {
    if s.dataptr == MAX_DATA {
      FullIgnores(s, Encode(x));
    } else if |x| == 1 {
      LastGroup(s, x, x[0], 0, 0);
    } else if |x| == 2 {
      LastGroup(s, x, x[0], x[1], 0);
    } else if |x| >= 3 {
      var q, rest := EncodeGroup(x[0], x[1], x[2]), Encode(x[3..]);
      FullGroup(s, x[0], x[1], x[2]);
      SplitIrrelevant(s, q, rest);
      var r := AddChars(s, q);
      DecodeEncoded(r, x[3..]);
      FirstThree(s.data[..s.dataptr], x, Min(|x|, MAX_DATA - s.dataptr));
    }
  }

  lemma FirstThree(before: bytes, x: bytes, n: nat)
    requires 3 <= n <= |x|
    ensures (before + [x[0], x[1], x[2]]) + x[3..][..n - 3] == before + x[..n]
  {
    assert x[..n] == [x[0], x[1], x[2]] + x[3..][..n - 3];
  }

  lemma FullGroup(s: Decoder, a: u8, b: u8, c: u8)
    requires Aligned(s) && s.dataptr < MAX_DATA
    ensures var r := AddChars(s, EncodeGroup(a, b, c));
            && Aligned(r) && s.dataptr + 3 <= MAX_DATA && r.dataptr == s.dataptr + 3
            && r.data[..r.dataptr] == s.data[..s.dataptr] + [a, b, c]
  {
    SextetRoundTrip(a / 4);
    SextetRoundTrip(a % 4 * 16 + b / 16);
    SextetRoundTrip(b % 16 * 4 + c / 64);
    SextetRoundTrip(c % 64);
    EncodedGroup(s, EncodeGroup(a, b, c), a, b, c);
  }

  lemma LastGroup(s: Decoder, x: bytes, a: u8, b: u8, c: u8)
    requires Aligned(s) && s.dataptr < MAX_DATA && 1 <= |x| <= 2
    requires a == x[0] && b == (if |x| == 1 then 0 else x[1]) && c == 0
    ensures Output(AddChars(s, Encode(x))) == s.data[..s.dataptr] + x
  {
    var q := Encode(x);
    PaddedGroup(x, a, b);
    EncodedGroup(s, q, a, b, c);
    var r := AddChars(s, q);
    assert [a, b, c][..|x|] == x;
    assert r.data[..r.dataptr][..s.dataptr + |x|] == s.data[..s.dataptr] + x;
  }

  lemma PaddedGroup(x: bytes, a: u8, b: u8)
    requires 1 <= |x| <= 2 && a == x[0] && b == if |x| == 1 then 0 else x[1]
    ensures var q := Encode(x);
            && |q| == 4 && !IsSpace(q[0]) && !IsSpace(q[1]) && !IsSpace(q[2]) && !IsSpace(q[3])
            && DecodeChar(q[0]) == a / 4 && DecodeChar(q[1]) == a % 4 * 16 + b / 16
            && DecodeChar(q[2]) == b % 16 * 4 && DecodeChar(q[3]) == 0
            && Paddings(q[0]) + Paddings(q[1]) + Paddings(q[2]) + Paddings(q[3]) == 3 - |x|
  {
    SextetRoundTrip(a / 4);
    SextetRoundTrip(a % 4 * 16 + b / 16);
    SextetRoundTrip(b % 16 * 4);
  }

  /** The decoder as the dec64 command starts it; the accumulator is not initialised. */
  function Started(data: Data, tmpdata: nat): Decoder {
    Decoder(data, 0, tmpdata, 0, 0)
  }

  /** For every byte string x, every way of strewing white space over its encoding and every
      split of the result into two parts, the command outputs the first 57 bytes of x, or all
      of x if it is shorter, whatever the buffer and the accumulator held before. */
  lemma DecodesAnySplit(x: bytes, part1: bytes, part2: bytes, data: Data, tmpdata: nat)
    requires tmpdata < ULONG && StripSpaces(part1 + part2) == Encode(x)
    ensures Output(AddChars(AddChars(Started(data, tmpdata), part1), part2)) == x[..Min(|x|, 57)]
  {
    var s := Started(data, tmpdata);
    SplitIrrelevant(s, part1, part2);
    SpacesIgnored(s, part1 + part2);
    DecodeEncoded(s, x);
  }

  // ------------------------------------------------------------------ in place

  class DecoderState {
    const data: array<u8>
    var dataptr: nat
    var tmpdata: nat
    var sextets: nat
    var padding: nat

    ghost predicate Valid()
      reads this
    {
      data.Length == MAX_DATA && dataptr <= MAX_DATA && dataptr % 3 == 0 && sextets < 4 && tmpdata < ULONG
    }

    ghost function State(): Decoder
      requires Valid()
      reads this, data
    {
      Decoder(data[..], dataptr, tmpdata, sextets, padding)
    }

    constructor (tmpdata: nat)
      requires tmpdata < ULONG
      ensures Valid() && fresh(data) && this.tmpdata == tmpdata
      ensures dataptr == 0 && sextets == 0 && padding == 0
    {
      data := new u8[MAX_DATA](_ => 0);
      dataptr, sextets, padding := 0, 0, 0;
      this.tmpdata := tmpdata;
    }

    method AddOne(c: u8) returns (more: bool)
      requires Valid()
      modifies this, data
      ensures Valid() && State() == AddChar(old(State()), c)
      ensures more <==> !IsSpace(c) && old(dataptr) < MAX_DATA && dataptr < MAX_DATA
    {
      if IsSpace(c) || dataptr >= MAX_DATA {
        return false;
      }
      if c == PAD {
        padding := padding + 1;
      }
      tmpdata := (tmpdata * 64 + DecodeChar(c)) % ULONG;
      sextets := sextets + 1;
      if sextets == 4 {
        sextets := 0;
        data[dataptr] := tmpdata / 0x1_0000 % 256;
        data[dataptr + 1] := tmpdata / 0x100 % 256;
        data[dataptr + 2] := tmpdata % 256;
        dataptr := dataptr + 3;
      }
      more := dataptr < MAX_DATA;
    }

    method AddPart(part: bytes)
      requires Valid()
      modifies this, data
      ensures Valid() && State() == AddChars(old(State()), part)
    {
      var i := 0;
      assert part[0..] == part;
      while i < |part|
        invariant Valid() && i <= |part|
        invariant AddChars(State(), part[i..]) == AddChars(old(State()), part)
      {
        assert part[i..][1..] == part[i + 1..];
        var more := AddOne(part[i]);
        i := i + 1;
      }
    }

    /** One shell input: its two parts are decoded and the output is what comes of them. */
    method Dec64(part1: bytes, part2: bytes, ghost x: bytes) returns (out: bytes)
      requires Valid()
      modifies this, data
      ensures Valid()
      ensures StripSpaces(part1 + part2) == Encode(x) ==> out == x[..Min(|x|, 57)]
    {
      sextets, dataptr, padding := 0, 0, 0;
      ghost var before: Data, tmp := data[..], tmpdata;
      AddPart(part1);
      AddPart(part2);
      if StripSpaces(part1 + part2) == Encode(x) {
        DecodesAnySplit(x, part1, part2, before, tmp);
      }
      out := if padding <= dataptr then data[..dataptr - padding] else [];
    }
  }
}
