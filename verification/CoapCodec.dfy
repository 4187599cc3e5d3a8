/**
 The CoAP codec of apps/rest-coap as values: the sorted option list that coap_set_option
 keeps, serialize_packet and parse_message.  The coding is the draft with a 4-bit option
 delta, a 4-bit length with one extension byte, and the option count in the header.
 */
module CoapCodec {
  import opened Bytes
  import opened RestInts

  datatype Opt = Opt(number: u16, value: bytes)

  /** The 2-bit version and message type. */
  type u2 = x: int | 0 <= x < 4

  datatype Packet = Packet(ver: u2, kind: u2, code: u8, tid: u16, options: seq<Opt>, payload: bytes)

  // ------------------------------------------------------------------ the option list

  /** coap_set_option: before the first option with a higher number. */
  function Insert(opts: seq<Opt>, o: Opt): seq<Opt> {
    if opts == [] || opts[0].number > o.number then [o] + opts
    else [opts[0]] + Insert(opts[1..], o)
  }

  function InsertAll(opts: seq<Opt>, calls: seq<Opt>): seq<Opt>
    decreases |calls|
  {
    if calls == [] then opts else InsertAll(Insert(opts, calls[0]), calls[1..])
  }

  ghost predicate Sorted(opts: seq<Opt>) {
    forall i, j :: 0 <= i < j < |opts| ==> opts[i].number <= opts[j].number
  }

  /** The values set for one number, in list order. */
  function ValuesOf(opts: seq<Opt>, number: u16): seq<bytes> {
    if opts == [] then []
    else (if opts[0].number == number then [opts[0].value] else []) + ValuesOf(opts[1..], number)
  }

  lemma {:induction false} InsertAt(opts: seq<Opt>, o: Opt, k: nat)
    requires k <= |opts| && (forall i :: 0 <= i < k ==> opts[i].number <= o.number)
    requires k < |opts| ==> opts[k].number > o.number
    ensures Insert(opts, o) == opts[..k] + [o] + opts[k..]
    decreases k
  {
    if k > 0 {
      InsertAt(opts[1..], o, k - 1);
      assert opts[..k] == [opts[0]] + opts[1..][..k - 1];
    }
  }

  lemma {:induction false} InsertMembers(opts: seq<Opt>, o: Opt)
    ensures |Insert(opts, o)| == |opts| + 1
    ensures forall p :: p in Insert(opts, o) <==> p == o || p in opts
    decreases |opts|
  {
    if opts != [] && opts[0].number <= o.number {
      InsertMembers(opts[1..], o);
      assert opts == [opts[0]] + opts[1..];
    }
  }

  lemma {:induction false} InsertCounts(opts: seq<Opt>, o: Opt)
    ensures multiset(Insert(opts, o)) == multiset(opts) + multiset{o}
    decreases |opts|
  {
    if opts != [] && opts[0].number <= o.number {
      InsertCounts(opts[1..], o);
      assert opts == [opts[0]] + opts[1..];
    }
  }

  lemma {:induction false} InsertSorted(opts: seq<Opt>, o: Opt)
    requires Sorted(opts)
    ensures Sorted(Insert(opts, o))
    decreases |opts|
  {
    if opts != [] && opts[0].number <= o.number {
      var rest := opts[1..];
      InsertSorted(rest, o);
      InsertMembers(rest, o);
      var r := Insert(rest, o);
      assert forall p :: p in rest ==> opts[0].number <= p.number;
      assert forall j :: 0 <= j < |r| ==> r[j] in r;
    }
  }

  /** Insertion is stable: options of one number stay in the order they were set. */
  lemma {:induction false} InsertValues(opts: seq<Opt>, o: Opt, number: u16)
    requires Sorted(opts)
    ensures ValuesOf(Insert(opts, o), number) == ValuesOf(opts, number) + if o.number == number then [o.value] else []
    decreases |opts|
  {
    if opts == [] || opts[0].number > o.number {
      assert ([o] + opts)[1..] == opts;
      if o.number == number {
        NoValues(opts, number);
      }
    } else {
      InsertValues(opts[1..], o, number);
      assert ([opts[0]] + Insert(opts[1..], o))[1..] == Insert(opts[1..], o);
    }
  }

  lemma {:induction false} NoValues(opts: seq<Opt>, number: u16)
    requires forall p :: p in opts ==> p.number > number
    ensures ValuesOf(opts, number) == []
    decreases |opts|
  {
    if opts != [] {
      NoValues(opts[1..], number);
    }
  }

  /** The list after any calls is sorted, and nothing is lost or invented. */
  lemma {:induction false} SetOptionsSorted(opts: seq<Opt>, calls: seq<Opt>)
    requires Sorted(opts)
    ensures var all := InsertAll(opts, calls);
            Sorted(all) && |all| == |opts| + |calls| && multiset(all) == multiset(opts) + multiset(calls)
    decreases |calls|
  {
    if calls != [] {
      InsertSorted(opts, calls[0]);
      InsertMembers(opts, calls[0]);
      InsertCounts(opts, calls[0]);
      SetOptionsSorted(Insert(opts, calls[0]), calls[1..]);
      assert calls == [calls[0]] + calls[1..];
    }
  }

  /** ... and holds, for every number, the values in the order in which they were set. */
  lemma {:induction false} SetOptionsStable(opts: seq<Opt>, calls: seq<Opt>, number: u16)
    requires Sorted(opts)
    ensures ValuesOf(InsertAll(opts, calls), number) == ValuesOf(opts, number) + ValuesOf(calls, number)
    decreases |calls|
  {
    if calls != [] {
      var o := calls[0];
      InsertSorted(opts, o);
      InsertValues(opts, o, number);
      SetOptionsStable(Insert(opts, o), calls[1..], number);
      Concat3(ValuesOf(opts, number), if o.number == number then [o.value] else [], ValuesOf(calls[1..], number));
    }
  }

  lemma Concat3(a: seq<bytes>, b: seq<bytes>, c: seq<bytes>)
    ensures (a + b) + c == a + (b + c)
  {
  }

  datatype Found = Absent | Present(value: bytes)

  /** coap_get_option: the first option with the number. */
  function Get(opts: seq<Opt>, number: u16): Found {
    if opts == [] then Absent
    else if opts[0].number == number then Present(opts[0].value)
    else Get(opts[1..], number)
  }

  lemma {:induction false} GetIsFirst(opts: seq<Opt>, number: u16)
    ensures Get(opts, number) == if ValuesOf(opts, number) == [] then Absent else Present(ValuesOf(opts, number)[0])
    decreases |opts|
  {
    if opts != [] {
      GetIsFirst(opts[1..], number);
    }
  }

  /** coap_get_option returns the earliest value set for a number, and nothing if none was. */
  lemma GetReturnsEarliest(calls: seq<Opt>, number: u16)
    ensures Get(InsertAll([], calls), number) == Get(calls, number)
  {
    SetOptionsStable([], calls, number);
    GetIsFirst(InsertAll([], calls), number);
    GetIsFirst(calls, number);
  }

  // ------------------------------------------------------------------ serialising

  /** Bitwise or of two numbers of `width` bits. */
  function Or(a: nat, b: nat, width: nat): (r: nat)
    requires a < Pow2(width) && b < Pow2(width)
    ensures r < Pow2(width)
  {
    if width == 0 then 0
    else 2 * Or(a / 2, b / 2, width - 1) + if a % 2 == 1 || b % 2 == 1 then 1 else 0
  }

  /** `ver << 6 | type << 4 | option_count`: the first two do not overlap; the count's high bits,
      if it has any, run into them. */
  function HeaderByte(ver: u2, kind: u2, count: u8): (r: u8) {
    if count < 16 then 64 * ver as int + 16 * kind as int + count as int
    else Overrun(4 * ver as int + kind as int, count)
  }

  function Overrun(high: nat, count: u8): u8
    requires high < 16
  {
    assert Pow2(4) == 16;
    16 * Or(high, count as int / 16, 4) + count as int % 16
  }

  /** A 16-bit sum or difference of two 16-bit numbers. */
  function Wrapped(n: int): u16
    requires -0x1_0000 < n < 0x2_0000
  {
    if n < 0 then n + 0x1_0000 else if n < 0x1_0000 then n else n - 0x1_0000
  }

  function Delta(o: Opt, prev: u16): u16 {
    Wrapped(o.number - prev)
  }

  /** The one or two bytes before an option's value; the shifted delta keeps only its low four bits. */
  function OptionHead(delta: u16, len: nat): bytes {
    if len < 15 then [delta % 16 * 16 + len] else [delta % 16 * 16 + 15, (len - 15) % 256]
  }

  function EncodeOption(o: Opt, prev: u16): bytes {
    OptionHead(Delta(o, prev), |o.value|) + o.value
  }

  function EncodeOptions(opts: seq<Opt>, prev: u16): bytes
    decreases |opts|
  {
    if opts == [] then []
    else EncodeOption(opts[0], prev) + EncodeOptions(opts[1..], opts[0].number)
  }

  /** option_count is an 8-bit counter of the coap_set_option calls. */
  function Count(opts: seq<Opt>): u8 {
    |opts| % 256
  }

  function Head(p: Packet): (r: bytes)
    ensures |r| == 4
  {
    [HeaderByte(p.ver, p.kind, Count(p.options)), p.code, p.tid / 256, p.tid % 256]
  }

  function Serialize(p: Packet): bytes {
    Head(p) + EncodeOptions(p.options, 0) + p.payload
  }

  /** The first four bytes: version, type and option count, code, and the id with its high byte first. */
  lemma HeaderLayout(p: Packet)
    requires |p.options| < 16
    ensures var s := Serialize(p);
            && s[..4] == [64 * p.ver as int + 16 * p.kind as int + |p.options|, p.code, p.tid / 256, p.tid % 256]
            && s[4..] == EncodeOptions(p.options, 0) + p.payload
  {
    FrontAndRest(Head(p), EncodeOptions(p.options, 0), p.payload);
  }

  lemma FrontAndRest(head: bytes, options: bytes, payload: bytes)
    requires |head| == 4
    ensures var s := head + options + payload;
            s[..4] == head && s[4..] == options + payload
  {
  }

  /** An option: the step of its number and its length share a byte, a length of 15 or more goes on in
      a second one; both fields keep only what fits. */
  lemma OptionLayout(o: Opt, prev: u16)
    ensures var step, len := (o.number - prev) % 16, |o.value|;
            EncodeOption(o, prev)
            == (if len < 15 then [16 * step + len] else [16 * step + 15, (len - 15) % 256]) + o.value
  {
  }

  /** Bit k of n. */
  predicate Bit(n: nat, k: nat) {
    if k == 0 then n % 2 == 1 else Bit(n / 2, k - 1)
  }

  lemma OrHalf(a: nat, b: nat, width: nat)
    requires 0 < width && a < Pow2(width) && b < Pow2(width)
    ensures a / 2 < Pow2(width - 1) && b / 2 < Pow2(width - 1)
    ensures Or(a, b, width) / 2 == Or(a / 2, b / 2, width - 1)
    ensures Or(a, b, width) % 2 == 1 <==> a % 2 == 1 || b % 2 == 1
  {
    LowBitOf(Or(a / 2, b / 2, width - 1), if a % 2 == 1 || b % 2 == 1 then 1 else 0);
  }

  lemma LowBitOf(high: nat, low: nat)
    requires low < 2
    ensures (2 * high + low) / 2 == high && (2 * high + low) % 2 == low
  {
  }

  lemma {:induction false} OrBit(a: nat, b: nat, width: nat, k: nat)
    requires a < Pow2(width) && b < Pow2(width) && k < width
    ensures Bit(Or(a, b, width), k) <==> Bit(a, k) || Bit(b, k)
    decreases width
  {
    OrHalf(a, b, width);
    if k > 0 {
      OrBit(a / 2, b / 2, width - 1, k - 1);
    }
  }

  lemma {:induction false} NoBit(k: nat)
    ensures !Bit(0, k)
  {
    if k > 0 {
      NoBit(k - 1);
    }
  }

  /** Every bit of the first byte: those of version and type, or'ed with those of the 8-bit counter. */
  lemma HeaderBits(ver: u2, kind: u2, count: u8, k: nat)
    requires k < 4
    ensures var b := HeaderByte(ver, kind, count) as int;
            && b % 16 == count as int % 16
            && (Bit(b / 16, k) <==> Bit(4 * ver as int + kind as int, k) || Bit(count as int / 16, k))
  {
    var high := 4 * ver as int + kind as int;
    assert Pow2(4) == 16;
    if count < 16 {
      NibblesOf(high, count as int, HeaderByte(ver, kind, count));
      NoBit(k);
    } else {
      NibblesOf(Or(high, count as int / 16, 4), count as int % 16, HeaderByte(ver, kind, count));
      OrBit(high, count as int / 16, 4, k);
    }
  }

  lemma NibblesOf(high: nat, low: nat, b: int)
    requires low < 16 && b == 16 * high + low
    ensures b / 16 == high && b % 16 == low
  {
  }

  // ------------------------------------------------------------------ parsing

  datatype Parsed = PastEnd | Parsed(opts: seq<Opt>, rest: bytes)

  function HeadLength(b: bytes): nat
    requires |b| > 0
  {
    if b[0] % 16 == 15 then 2 else 1
  }

  function ValueLength(b: bytes): nat
    requires |b| > 0 && |b| >= HeadLength(b)
  {
    if b[0] % 16 == 15 then 15 + b[1] as int else b[0] % 16
  }

  /** The option loop of parse_message.  The source has no boundary control; PastEnd marks the
      inputs on which it would read behind the buffer. */
  function ParseOptions(b: bytes, count: nat, prev: u16): Parsed
    decreases count
  {
    if count == 0 then Parsed([], b)
    else if |b| == 0 || |b| < HeadLength(b) || |b| < HeadLength(b) + ValueLength(b) then PastEnd
    else
      var n, len := HeadLength(b), ValueLength(b);
      var o := Opt(Wrapped(prev as int + b[0] as int / 16), b[n..n + len]);
      var more := ParseOptions(b[n + len..], count - 1, o.number);
      if more.PastEnd? then PastEnd else Parsed([o] + more.opts, more.rest)
  }

  datatype Message = Unreadable | Message(packet: Packet)

  function Parse(buf: bytes): Message {
    if |buf| < 4 then Unreadable else
    var r := ParseOptions(buf[4..], buf[0] as int % 16, 0);
    if r.PastEnd? then Unreadable
    else
      var tid := 256 * buf[2] as int + buf[3] as int;
      Message(Packet(buf[0] as int / 64, buf[0] as int / 16 % 4, buf[1], tid, r.opts, r.rest))
  }

  // ------------------------------------------------------------------ round trip

  ghost predicate OptionFits(o: Opt, prev: u16) {
    Delta(o, prev) < 16 && |o.value| <= 270
  }

  ghost predicate OptionsFit(opts: seq<Opt>, prev: u16)
    decreases |opts|
  {
    opts == [] || (OptionFits(opts[0], prev) && OptionsFit(opts[1..], opts[0].number))
  }

  /** At most 15 options, whose steps and lengths fit their fields. */
  ghost predicate Encodable(p: Packet) {
    |p.options| < 16 && OptionsFit(p.options, 0)
  }

  lemma HeaderByteFields(ver: u2, kind: u2, count: u8)
    requires count < 16
    ensures var b := HeaderByte(ver, kind, count) as int;
            b / 64 == ver && b / 16 % 4 == kind && b % 16 == count
  {
    FieldsOf(ver, kind, count, HeaderByte(ver, kind, count));
  }

  lemma FieldsOf(ver: int, kind: int, count: int, b: int)
    requires 0 <= kind < 4 && 0 <= count < 16 && b == 64 * ver + 16 * kind + count
    ensures b / 64 == ver && b / 16 % 4 == kind && b % 16 == count
  {
  }

  /** What the parser makes of one encoded option. */
  lemma OptionHeadParsed(o: Opt, prev: u16, tail: bytes)
    ensures var b := EncodeOption(o, prev) + tail;
            var n := if |o.value| < 15 then 1 else 2;
            && |b| > 0 && HeadLength(b) == n && |b| >= n
            && b[0] as int / 16 == Delta(o, prev) % 16
            && ValueLength(b) == (if |o.value| < 15 then |o.value| else 15 + (|o.value| - 15) % 256)
            && b[n..] == o.value + tail
  {
  }

  lemma StepNumber(number: u16, prev: u16, delta: u16)
    requires delta == Wrapped(number - prev)
    ensures Wrapped(prev as int + delta as int % 16) == number <==> delta < 16
  {
  }

  lemma StepLength(len: nat)
    ensures (if len < 15 then len else 15 + (len - 15) % 256) == len <==> len <= 270
  {
  }

  /** The first option read from an encoded list. */
  lemma FirstOption(o: Opt, prev: u16, tail: bytes, count: nat)
    requires count > 0
    ensures var b := EncodeOption(o, prev) + tail;
            var r := ParseOptions(b, count, prev);
            if OptionFits(o, prev) then
              var more := ParseOptions(tail, count - 1, o.number);
              r == if more.PastEnd? then PastEnd else Parsed([o] + more.opts, more.rest)
            else
              r.PastEnd? || r.opts[0].number != o.number || |r.opts[0].value| != |o.value|
  {
    var b := EncodeOption(o, prev) + tail;
    OptionHeadParsed(o, prev, tail);
    StepNumber(o.number, prev, Delta(o, prev));
    StepLength(|o.value|);
    var n := HeadLength(b);
    if OptionFits(o, prev) {
      assert b[n..][..|o.value|] == o.value && b[n..][|o.value|..] == tail;
      assert b[n..n + |o.value|] == o.value && b[n + |o.value|..] == tail;
    }
  }

  /** Parsing the encoded options gives them back exactly when all of them fit. */
  lemma {:induction false} OptionsRoundTripIff(opts: seq<Opt>, prev: u16, tail: bytes)
    ensures ParseOptions(EncodeOptions(opts, prev) + tail, |opts|, prev) == Parsed(opts, tail)
      <==> OptionsFit(opts, prev)
    decreases |opts|
  {
    if opts == [] {
      assert EncodeOptions(opts, prev) + tail == tail;
    } else {
      var o := opts[0];
      var rest := EncodeOptions(opts[1..], o.number) + tail;
      assert EncodeOptions(opts, prev) + tail == EncodeOption(o, prev) + rest;
      FirstOption(o, prev, rest, |opts|);
      OptionsRoundTripIff(opts[1..], o.number, tail);
      assert opts == [o] + opts[1..];
      var more := ParseOptions(rest, |opts| - 1, o.number);
      assert more.Parsed? && [o] + more.opts == opts ==> more.opts == ([o] + more.opts)[1..];
    }
  }

  lemma {:induction false} ParsedCount(b: bytes, count: nat, prev: u16)
    ensures var r := ParseOptions(b, count, prev); r.Parsed? ==> |r.opts| == count
    decreases count
  {
    if count > 0 && |b| > 0 && |b| >= HeadLength(b) && |b| >= HeadLength(b) + ValueLength(b) {
      var n, len := HeadLength(b), ValueLength(b);
      ParsedCount(b[n + len..], count - 1, Wrapped(prev as int + b[0] as int / 16));
    }
  }

  /** `s` carries the packet's header, encoded options and payload. */
  ghost predicate Framed(p: Packet, s: bytes) {
    && |s| >= 4 && s[0] == HeaderByte(p.ver, p.kind, Count(p.options)) && s[1] == p.code
    && 256 * s[2] as int + s[3] as int == p.tid
    && s[4..] == EncodeOptions(p.options, 0) + p.payload
  }

  lemma SerializedFramed(p: Packet)
    ensures Framed(p, Serialize(p))
  {
    var s := Serialize(p);
    assert s[4..] == EncodeOptions(p.options, 0) + p.payload;
  }

  /** The parser never finds more than 15 options. */
  lemma ParsedNarrow(buf: bytes)
    ensures var m := Parse(buf);
            m.Message? ==> |m.packet.options| < 16
  {
    if |buf| >= 4 {
      ParsedCount(buf[4..], buf[0] as int % 16, 0);
    }
  }

  lemma RecoveredIff(p: Packet, s: bytes)
    requires |s| >= 4 && s[1] == p.code && 256 * s[2] as int + s[3] as int == p.tid
    requires s[0] as int / 64 == p.ver && s[0] as int / 16 % 4 == p.kind && s[0] as int % 16 == |p.options|
    requires s[4..] == EncodeOptions(p.options, 0) + p.payload
    ensures Parse(s) == Message(p) <==> OptionsFit(p.options, 0)
  {
    OptionsRoundTripIff(p.options, 0, p.payload);
  }

  lemma WideIsLost(p: Packet, s: bytes)
    requires |p.options| >= 16
    ensures Parse(s) != Message(p)
  {
    ParsedNarrow(s);
  }

  lemma NarrowIff(p: Packet, s: bytes)
    requires |p.options| < 16 && Framed(p, s)
    ensures Parse(s) == Message(p) <==> OptionsFit(p.options, 0)
  {
    HeaderByteFields(p.ver, p.kind, |p.options|);
    RecoveredIff(p, s);
  }

  lemma FramedIff(p: Packet, s: bytes)
    requires Framed(p, s)
    ensures Parse(s) == Message(p) <==> Encodable(p)
  {
    if |p.options| < 16 {
      NarrowIff(p, s);
    } else {
      WideIsLost(p, s);
    }
  }

  /** The end-to-end law: parse_message gives back what serialize_packet was given exactly when
      the packet fits the format. */
  lemma RoundTripIff(p: Packet)
    ensures Parse(Serialize(p)) == Message(p) <==> Encodable(p)
  {
    SerializedFramed(p);
    FramedIff(p, Serialize(p));
  }

  /** Options set by number at most 15 and length at most 270 always fit: every packet built by
      up to 15 coap_set_option calls is recovered. */
  lemma BuiltPacketsRoundTrip(calls: seq<Opt>, kind: u2, code: u8, tid: u16, payload: bytes)
    requires |calls| < 16
    requires forall o :: o in calls ==> o.number <= 15 && |o.value| <= 270
    ensures var p := Packet(1, kind, code, tid, InsertAll([], calls), payload);
            Parse(Serialize(p)) == Message(p)
  {
    var opts := InsertAll([], calls);
    SetOptionsSorted([], calls);
    SameMembers(opts, calls);
    SortedFit(opts, 0);
    RoundTripIff(Packet(1, kind, code, tid, opts, payload));
  }

  lemma SameMembers(a: seq<Opt>, b: seq<Opt>)
    requires multiset(a) == multiset([]) + multiset(b)
    ensures forall o :: o in a ==> o in b
  {
    forall o | o in a
      ensures o in b
    {
      assert o in multiset(a);
    }
  }

  lemma {:induction false} SortedFit(opts: seq<Opt>, prev: u16)
    requires Sorted(opts) && forall o :: o in opts ==> prev <= o.number <= 15 && |o.value| <= 270
    ensures OptionsFit(opts, prev)
    decreases |opts|
  {
    if opts != [] {
      SortedFit(opts[1..], opts[0].number);
    }
  }
}
