/**
 The CoAP packet as apps/rest-coap keeps it: a record with a linked list of options that
 coap_set_option splices in place, serialize_packet walks and parse_message builds.
 */
module CoapPacket {
  import opened Bytes
  import opened CoapCodec
  import BumpBuffer

  /** sizeof(header_option_t) with 16-bit pointers. */
  const NODE_SIZE := 8

  /** The 16-bit size allocate_header_option asks for. */
  function NodeBytes(len: nat): u16 {
    (NODE_SIZE + len) % 0x1_0000
  }

  class HeaderOption {
    var next: HeaderOption?
    var number: u16
    var value: bytes

    /** `next` holds whatever the memory held. */
    constructor (number: u16, value: bytes)
      ensures this.number == number && this.value == value
    {
      this.number, this.value := number, value;
    }
  }

  /** What becomes of data that is copied into a block of the arena: the size is asked for in 16
      bits, so for the longest data the block is too small and the copy runs over its end. */
  datatype Stored = Done | NoRoom | Overrun

  /** The longest value for which a node's block holds node and value. */
  const MAX_VALUE := 0xfff6

  lemma BlockHolds(len: nat)
    requires len < 0x1_0000
    ensures NODE_SIZE + len <= BumpBuffer.Rounded(NodeBytes(len)) <==> len <= MAX_VALUE
  {
  }

  /** allocate_header_option, and the copy of the value. */
  method AllocateHeaderOption(arena: BumpBuffer.Buffer, number: u16, value: bytes)
      returns (r: Stored, option: HeaderOption?)
    requires |value| < 0x1_0000
    modifies arena
    ensures arena.State() == BumpBuffer.Allocate(old(arena.State()), NodeBytes(|value|)).0
    ensures r.NoRoom? <==> BumpBuffer.Allocate(old(arena.State()), NodeBytes(|value|)).1.Failed?
    ensures !r.NoRoom? ==> (r.Done? <==> NODE_SIZE + |value| <= BumpBuffer.Rounded(NodeBytes(|value|)))
    ensures r.Done? <==> option != null
    ensures r.Done? ==> fresh(option) && option.number == number && option.value == value && option.next == null
  {
    var block := arena.AllocateBuffer(NodeBytes(|value|));
    BlockHolds(|value|);
    r, option := NoRoom, null;
    if block.Allocated? && |value| > MAX_VALUE {
      r := Overrun;
    } else if block.Allocated? {
      r := Done;
      option := new HeaderOption(number, value);
      option.next := null;
    }
  }

  ghost predicate Distinct(spine: seq<HeaderOption>) {
    forall i, j :: 0 <= i < j < |spine| ==> spine[i] != spine[j]
  }

  ghost predicate Chained(spine: seq<HeaderOption>)
    reads spine
  {
    forall i :: 0 <= i < |spine| - 1 ==> spine[i].next == spine[i + 1]
  }

  /** The k-th node, or null behind the last. */
  ghost function NodeAt(spine: seq<HeaderOption>, k: nat): HeaderOption? {
    if k < |spine| then spine[k] else null
  }

  ghost function ValuesIn(spine: seq<HeaderOption>): (r: seq<Opt>)
    reads spine
    ensures |r| == |spine| && forall i :: 0 <= i < |r| ==> r[i] == Opt(spine[i].number, spine[i].value)
  {
    seq(|spine|, i requires 0 <= i < |spine| reads spine => Opt(spine[i].number, spine[i].value))
  }

  /** The value of the last option with the number: what url and query point to. */
  function LastOf(opts: seq<Opt>, number: u16): Found {
    if opts == [] then Absent
    else if opts[|opts| - 1].number == number then Present(opts[|opts| - 1].value)
    else LastOf(opts[..|opts| - 1], number)
  }

  lemma SplicedNodes(nodes: seq<HeaderOption>, option: HeaderOption, k: nat)
    requires k <= |nodes|
    ensures var all := nodes[..k] + [option] + nodes[k..];
            && (forall n :: n in all ==> n in nodes || n == option)
            && ValuesIn(all) == ValuesIn(nodes)[..k] + [Opt(option.number, option.value)] + ValuesIn(nodes)[k..]
  {
  }

  lemma NextCount(n: nat)
    ensures (n + 1) % 256 == if n % 256 == 255 then 0 else n % 256 + 1
  {
  }

  /** Copies `src` to buffer[at..]. */
  method CopyInto(buffer: array<u8>, at: nat, src: bytes)
    requires at + |src| <= buffer.Length
    modifies buffer
    ensures buffer[..at + |src|] == old(buffer[..at]) + src
    ensures forall i :: at + |src| <= i < buffer.Length ==> buffer[i] == old(buffer[i])
  {
    var i := 0;
    while i < |src|
      invariant 0 <= i <= |src|
      invariant buffer[..at + i] == old(buffer[..at]) + src[..i]
      invariant forall j :: at + i <= j < buffer.Length ==> buffer[j] == old(buffer[j])
    {
      buffer[at + i] := src[i];
      i := i + 1;
    }
    assert src[..i] == src;
  }

  class CoapPacket {
    var ver: u2
    var kind: u2
    var optionCount: u8
    var code: u8
    var tid: u16
    var options: HeaderOption?
    var url: Found
    var query: Found
    var payload: Found
    ghost var spine: seq<HeaderOption>

    /** The list starts at `options` and runs through the nodes of the spine. */
    ghost predicate Linked()
      reads this, spine
    {
      options == NodeAt(spine, 0) && Distinct(spine) && Chained(spine)
    }

    ghost predicate Terminated()
      reads this, spine
    {
      spine != [] ==> spine[|spine| - 1].next == null
    }

    /** Made by coap_set_option: ends in null, and the counter follows the length. */
    ghost predicate Built()
      reads this, spine
    {
      Linked() && Terminated() && optionCount == |spine| % 256
    }

    ghost function Options(): seq<Opt>
      reads this, spine
    {
      ValuesIn(spine)
    }

    ghost function Value(): Packet
      reads this, spine
    {
      Packet(ver, kind, code, tid, Options(), if payload.Present? then payload.value else [])
    }

    constructor ()
      ensures Built() && Value() == Packet(1, 0, 0, 0, [], []) && spine == []
      ensures url == query == payload == Absent
    {
      new;
      InitPacket();
    }

    /** init_packet */
    method InitPacket()
      modifies this
      ensures Built() && Value() == Packet(1, 0, 0, 0, [], []) && spine == []
      ensures url == query == payload == Absent
    {
      ver, kind, optionCount, code, tid := 1, 0, 0, 0, 0;
      options, url, query, payload := null, Absent, Absent, Absent;
      spine := [];
    }

    /** The loop of coap_set_option: the first node with a higher number, and the one before it. */
    method FindPlace(number: u16) returns (prev: HeaderOption?, current: HeaderOption?, ghost k: nat)
      requires Built()
      ensures k <= |spine| && current == NodeAt(spine, k)
      ensures prev == if k == 0 then null else spine[k - 1]
      ensures forall i :: 0 <= i < k ==> spine[i].number <= number
      ensures k < |spine| ==> spine[k].number > number
    {
      current, prev, k := options, null, 0;
      while current != null
        invariant k <= |spine| && current == NodeAt(spine, k)
        invariant prev == if k == 0 then null else spine[k - 1]
        invariant forall i :: 0 <= i < k ==> spine[i].number <= number
        decreases |spine| - k
      {
        if current.number > number {
          return;
        }
        prev := current;
        current := current.next;
        k := k + 1;
      }
    }

    /** The pointer updates of coap_set_option. */
    method Splice(option: HeaderOption, prev: HeaderOption?, current: HeaderOption?, ghost k: nat)
      requires Linked() && Terminated() && option !in spine && option.next == null
      requires k <= |spine| && current == NodeAt(spine, k)
      requires prev == if k == 0 then null else spine[k - 1]
      modifies this`options, this`spine, option`next, spine`next
      ensures Linked() && Terminated() && spine == old(spine[..k]) + [option] + old(spine[k..])
    {
      if prev == null {
        if current != null {
          option.next := current;
        }
        options := option;
      } else {
        option.next := current;
        prev.next := option;
      }
      spine := spine[..k] + [option] + spine[k..];
    }

    /** Links a new node into the list and counts it. */
    method AddNode(option: HeaderOption) returns (ghost k: nat)
      requires Built() && option !in spine && option.next == null
      modifies this`options, this`optionCount, this`spine, option`next, spine`next
      ensures Built() && k <= |old(spine)| && spine == old(spine[..k]) + [option] + old(spine[k..])
      ensures forall i :: 0 <= i < k ==> old(spine)[i].number <= option.number
      ensures k < |old(spine)| ==> old(spine)[k].number > option.number
    {
      var prev, current;
      prev, current, k := FindPlace(option.number);
      NextCount(|spine|);
      optionCount := if optionCount == 255 then 0 else optionCount + 1;
      Splice(option, prev, current, k);
    }

    method AddOption(option: HeaderOption)
      requires Built() && option !in spine && option.next == null
      modifies this`options, this`optionCount, this`spine, option`next, spine`next
      ensures Built() && forall n :: n in spine ==> n in old(spine) || n == option
      ensures Options() == Insert(old(Options()), Opt(option.number, option.value))
    {
      var k := AddNode(option);
      SplicedNodes(old(spine), option, k);
      assert ValuesIn(old(spine)) == old(Options());
      InsertAt(old(Options()), Opt(option.number, option.value), k);
    }

    /** coap_set_option.  After an overrun nothing is said of the packet. */
    method SetOption(arena: BumpBuffer.Buffer, number: u16, value: bytes) returns (r: Stored)
      requires Built() && |value| < 0x1_0000
      modifies this`options, this`optionCount, this`spine, spine`next, arena
      ensures !r.Overrun? ==> Built() && forall n :: n in spine ==> n in old(spine) || fresh(n)
      ensures arena.State() == BumpBuffer.Allocate(old(arena.State()), NodeBytes(|value|)).0
      ensures r.NoRoom? <==> BumpBuffer.Allocate(old(arena.State()), NodeBytes(|value|)).1.Failed?
      ensures r.Overrun? ==> |value| > MAX_VALUE
      ensures r.Done? ==> |value| <= MAX_VALUE && Options() == Insert(old(Options()), Opt(number, value))
      ensures r.NoRoom? ==> Options() == old(Options())
    {
      var option;
      r, option := AllocateHeaderOption(arena, number, value);
      BlockHolds(|value|);
      assert Options() == old(Options());
      if r.Done? {
        AddOption(option);
      }
    }

    /** coap_get_option: looks at the first `optionCount` nodes. */
    method GetOption(number: u16) returns (found: HeaderOption?)
      requires Linked() && optionCount <= |spine|
      ensures found != null ==> found in spine && found.number == number
      ensures Get(Options()[..optionCount], number) == if found == null then Absent else Present(found.value)
    {
      var i, current := 0, options;
      ghost var opts := Options()[..optionCount];
      while i < optionCount
        invariant 0 <= i <= optionCount
        invariant i < optionCount ==> current == spine[i]
        invariant Get(opts, number) == Get(opts[i..], number)
      {
        if current.number == number {
          return current;
        }
        assert opts[i..][1..] == opts[i + 1..];
        current := current.next;
        i := i + 1;
      }
      return null;
    }

    /** coap_set_payload.  Of a payload of 0xffff bytes, which gets an empty block, nothing is said. */
    method SetPayload(arena: BumpBuffer.Buffer, data: bytes) returns (r: Stored)
      requires |data| < 0x1_0000
      modifies this`payload, arena
      ensures arena.State() == BumpBuffer.Allocate(old(arena.State()), |data|).0
      ensures r.NoRoom? <==> BumpBuffer.Allocate(old(arena.State()), |data|).1.Failed?
      ensures r.Overrun? ==> BumpBuffer.Rounded(|data|) < |data|
      ensures r.Done? ==> |data| <= BumpBuffer.Rounded(|data|) && payload == Present(data)
      ensures r.NoRoom? ==> payload == Absent
    {
      var block := arena.AllocateBuffer(|data|);
      BumpBuffer.RoundedLargeEnough(|data|);
      if block.Failed? {
        r, payload := NoRoom, Absent;
      } else {
        r := if |data| == 0xffff then Overrun else Done;
        payload := Present(data);
      }
    }

    /** The option loop of serialize_packet. */
    method WriteOptions(buffer: array<u8>, at: nat) returns (n: nat)
      requires Built() && at + |EncodeOptions(Options(), 0)| <= buffer.Length
      modifies buffer
      ensures n == at + |EncodeOptions(Options(), 0)|
      ensures buffer[..n] == old(buffer[..at]) + EncodeOptions(Options(), 0)
      ensures forall i :: n <= i < buffer.Length ==> buffer[i] == old(buffer[i])
    {
      ghost var opts, k := Options(), 0;
      ghost var whole := buffer[..at] + EncodeOptions(opts, 0);
      var option, last: u16 := options, 0;
      n := at;
      assert opts[0..] == opts;
      while option != null
        invariant k <= |spine| && option == NodeAt(spine, k)
        invariant at <= n <= |whole| && buffer[..n] + EncodeOptions(opts[k..], last) == whole
        invariant forall i :: n <= i < buffer.Length ==> buffer[i] == old(buffer[i])
        decreases |spine| - k
      {
        EncodeNext(buffer[..n], opts, k, last);
        n := WriteOption(buffer, n, last, Opt(option.number, option.value));
        last := option.number;
        option := option.next;
        k := k + 1;
      }
    }

    method WriteHeader(buffer: array<u8>)
      requires Built() && buffer.Length >= 4
      modifies buffer
      ensures buffer[..4] == Head(Value())
      ensures forall i :: 4 <= i < buffer.Length ==> buffer[i] == old(buffer[i])
    {
      var id: bytes := [tid / 256, tid % 256];
      CopyInto(buffer, 0, [HeaderByte(ver, kind, optionCount), code] + id);
    }

    method WritePayload(buffer: array<u8>, at: nat) returns (n: nat)
      requires at + |Value().payload| <= buffer.Length
      modifies buffer
      ensures n == at + |Value().payload| && buffer[..n] == old(buffer[..at]) + Value().payload
      ensures forall i :: n <= i < buffer.Length ==> buffer[i] == old(buffer[i])
    {
      n := at;
      if payload.Present? {
        CopyInto(buffer, at, payload.value);
        n := at + |payload.value|;
      }
    }

    /** serialize_packet: the buffer has to be large enough. */
    method SerializePacket(buffer: array<u8>) returns (n: nat)
      requires Built() && |Serialize(Value())| <= buffer.Length
      modifies buffer
      ensures n == |Serialize(Value())| && buffer[..n] == Serialize(Value())
      ensures forall i :: n <= i < buffer.Length ==> buffer[i] == old(buffer[i])
    {
      WriteHeader(buffer);
      n := WriteOptions(buffer, 4);
      assert buffer[..n] == Head(Value()) + EncodeOptions(Options(), 0);
      n := WritePayload(buffer, n);
    }
    /** Appends a parsed node behind `prev`, the last one. */
    method AppendNode(node: HeaderOption, prev: HeaderOption?)
      requires Linked() && node !in spine && prev == LastNode()
      modifies this`options, this`spine, spine`next
      ensures Linked() && spine == old(spine) + [node]
      ensures Options() == old(Options()) + [Opt(node.number, node.value)]
    {
      if prev == null {
        options := node;
      } else {
        prev.next := node;
      }
      spine := spine + [node];
    }

    ghost function LastNode(): HeaderOption?
      reads this
    {
      if spine == [] then null else spine[|spine| - 1]
    }

    /** Remembers path and query options. */
    method NoteOption(o: Opt, ghost done: seq<Opt>)
      requires url == LastOf(done, URI_PATH) && query == LastOf(done, URI_QUERY)
      modifies this`url, this`query
      ensures url == LastOf(done + [o], URI_PATH) && query == LastOf(done + [o], URI_QUERY)
    {
      assert (done + [o])[..|done|] == done;
      if o.number == URI_PATH {
        url := Present(o.value);
      } else if o.number == URI_QUERY {
        query := Present(o.value);
      }
    }

    /** The list and the path and query shortcuts are those of the options in `done`. */
    ghost predicate ListHolds(last: HeaderOption?, done: seq<Opt>)
      reads this, spine
    {
      && Linked() && Options() == done && last == LastNode()
      && url == LastOf(done, URI_PATH) && query == LastOf(done, URI_QUERY)
    }

    /** One round of the option loop of parse_message. */
    method ReadNext(buf: bytes, i: nat, prev: HeaderOption?, ghost opts: seq<Opt>, ghost at: seq<nat>, ghost k: nat)
        returns (node: HeaderOption, n: nat)
      requires k < |opts| && Laid(buf, opts, at) && i == at[k]
      requires ListHolds(prev, opts[..k])
      modifies this`options, this`spine, this`url, this`query, spine`next
      ensures fresh(node) && spine == old(spine) + [node] && n == at[k + 1]
      ensures ListHolds(node, opts[..k + 1])
    {
      PrevNumber(prev, opts, k);
      node, n := ReadOption(buf, i, if prev == null then 0 else prev.number, opts[k], at[k + 1]);
      assert opts[..k + 1] == opts[..k] + [opts[k]];
      NoteOption(Opt(node.number, node.value), opts[..k]);
      AppendNode(node, prev);
    }

    /** The last node carries the number that the next delta is added to. */
    lemma PrevNumber(prev: HeaderOption?, opts: seq<Opt>, k: nat)
      requires k <= |opts| && ListHolds(prev, opts[..k])
      ensures prev == null <==> k == 0
      ensures k > 0 ==> prev.number == opts[k - 1].number
    {
      assert |spine| == k;
    }

    /** The option loop of parse_message. */
    method ReadLoop(buf: bytes, count: nat, ghost opts: seq<Opt>, ghost at: seq<nat>)
        returns (i: nat, ghost last: HeaderOption?)
      requires |opts| == count && Laid(buf, opts, at) && spine == [] && ListHolds(null, [])
      modifies this`options, this`spine, this`url, this`query
      ensures fresh(spine) && i == at[count] && ListHolds(last, opts)
    {
      var index, prev: HeaderOption? := 0, null;
      i := 0;
      assert opts[..0] == [];
      while index < count
        invariant index <= count && i == at[index] && fresh(spine)
        invariant ListHolds(prev, opts[..index])
      {
        prev, i := ReadNext(buf, i, prev, opts, at, index);
        index := index + 1;
      }
      assert opts[..count] == opts;
      last := prev;
    }

    method ReadOptions(buf: bytes, count: nat, ghost whole: Parsed) returns (i: nat)
      requires spine == [] && options == null && url == query == Absent && Reading(buf, count, 0, whole)
      modifies this`options, this`spine, this`url, this`query
      ensures Linked() && fresh(spine) && Options() == whole.opts && i <= |buf| && whole.rest == buf[i..]
      ensures url == LastOf(whole.opts, URI_PATH) && query == LastOf(whole.opts, URI_QUERY)
    {
      assert buf[0..] == buf;
      ghost var at := Layout(buf, 0, count, 0, whole);
      ghost var last;
      i, last := ReadLoop(buf, count, whole.opts, at);
    }

    method ReadHeader(buf: bytes)
      requires 4 <= |buf|
      modifies this
      ensures spine == [] && options == null && url == query == payload == Absent
      ensures HeaderOf(buf)
    {
      InitPacket();
      ver, kind, optionCount := buf[0] as int / 64, buf[0] as int / 16 % 4, buf[0] as int % 16;
      code, tid := buf[1], 256 * buf[2] as int + buf[3] as int;
    }

    ghost predicate HeaderOf(buf: bytes)
      requires 4 <= |buf|
      reads this
    {
      && ver == buf[0] as int / 64 && kind == buf[0] as int / 16 % 4 && optionCount == buf[0] as int % 16
      && code == buf[1] && tid == 256 * buf[2] as int + buf[3] as int
    }

    method ReadBody(buf: bytes, size: u16, ghost r: Parsed)
      requires spine == [] && options == null && url == query == payload == Absent
      requires 4 <= |buf| && size <= |buf| && Reading(buf[4..], optionCount, 0, r)
      modifies this`options, this`spine, this`url, this`query, this`payload
      ensures Linked() && fresh(spine) && Options() == r.opts && payload == PayloadOf(r.rest, |buf| - size)
      ensures url == LastOf(r.opts, URI_PATH) && query == LastOf(r.opts, URI_QUERY)
    {
      var n := ReadOptions(buf[4..], optionCount, r);
      assert buf[4..][n..] == buf[4 + n..];
      TakePayload(buf, 4 + n, size, r.rest);
    }

    /** parse_message.  `buf` is the memory from the start of the message on, `size` the length of
        the message: the source does not stop the option loop at the end of the message. */
    method ParseMessage(arena: BumpBuffer.Buffer, buf: bytes, size: u16, ghost r: Parsed) returns (ok: bool)
      requires 4 <= |buf| && size <= |buf| && Reading(buf[4..], buf[0] as int % 16, 0, r)
      modifies this, arena
      ensures Linked() && fresh(spine) && HeaderOf(buf)
      ensures ok <==> Reserved(old(arena.State()), optionCount)
      ensures ok ==> Options() == r.opts && payload == PayloadOf(r.rest, |buf| - size)
      ensures ok ==> url == LastOf(r.opts, 9) && query == LastOf(r.opts, 15)
      ensures !ok ==> spine == [] && url == query == payload == Absent
    {
      ReadHeader(buf);
      ok := Reserve(arena, optionCount);
      if ok {
        ReadBody(buf, size, r);
      }
    }

    method TakePayload(buf: bytes, processed: nat, size: u16, ghost rest: bytes)
      requires processed <= |buf| && size <= |buf| && rest == buf[processed..] && payload == Absent
      modifies this`payload
      ensures payload == PayloadOf(rest, |buf| - size)
    {
      if processed < size {
        payload := Present(buf[processed..size]);
      }
    }

    /** When no memory behind the message counts, the packet is the one Parse gives. */
    lemma ParsedValue(buf: bytes, r: Parsed)
      requires 4 <= |buf| && HeaderOf(buf) && Reading(buf[4..], optionCount, 0, r)
      requires Options() == r.opts && payload == PayloadOf(r.rest, 0)
      ensures Parse(buf) == Message(Value())
    {
      assert r.rest[..|r.rest|] == r.rest;
    }
  }

  /** Whether a table of `count` options can be had; none is needed for no options. */
  ghost predicate Reserved(arena: BumpBuffer.Arena, count: u8) {
    count == 0 || BumpBuffer.Allocate(arena, NODE_SIZE * count as int).1.Allocated?
  }

  method Reserve(arena: BumpBuffer.Buffer, count: u8) returns (ok: bool)
    modifies arena
    ensures ok <==> Reserved(old(arena.State()), count)
    ensures arena.State() == if count == 0 then old(arena.State())
                             else BumpBuffer.Allocate(old(arena.State()), NODE_SIZE * count as int).0
  {
    ok := true;
    if count != 0 {
      var block := arena.AllocateBuffer(NODE_SIZE * count as int);
      ok := block.Allocated?;
    }
  }

  /** What is left of a message when `behind` more bytes of memory follow it. */
  function PayloadOf(rest: bytes, behind: nat): Found {
    if |rest| > behind then Present(rest[..|rest| - behind]) else Absent
  }

  ghost predicate Reading(b: bytes, count: nat, last: u16, r: Parsed) {
    r.Parsed? && r == ParseOptions(b, count, last)
  }

  const URI_PATH: u16 := 9
  const URI_QUERY: u16 := 15

  /** Option o is encoded at buf[at..end], behind one with number `last`. */
  ghost predicate Lies(buf: bytes, at: nat, last: u16, o: Opt, end: nat) {
    && at < |buf| && at + HeadLength(buf[at..]) <= |buf|
    && end == at + HeadLength(buf[at..]) + ValueLength(buf[at..]) <= |buf|
    && o == Opt(Wrapped(last as int + buf[at] as int / 16), buf[at + HeadLength(buf[at..])..end])
  }

  /** The options lie one behind the other, the k-th from at[k] to at[k + 1]. */
  ghost predicate LaidFrom(buf: bytes, opts: seq<Opt>, at: seq<nat>, start: nat, last: u16) {
    && |at| == |opts| + 1 && at[0] == start
    && forall k :: 0 <= k < |opts| ==> Lies(buf, at[k], if k == 0 then last else opts[k - 1].number, opts[k], at[k + 1])
  }

  ghost predicate Laid(buf: bytes, opts: seq<Opt>, at: seq<nat>) {
    LaidFrom(buf, opts, at, 0, 0)
  }

  /** Where the parsed options lie. */
  lemma {:induction false} Layout(buf: bytes, start: nat, count: nat, last: u16, r: Parsed) returns (at: seq<nat>)
    requires start <= |buf| && Reading(buf[start..], count, last, r)
    ensures |r.opts| == count && LaidFrom(buf, r.opts, at, start, last)
    ensures at[count] <= |buf| && r.rest == buf[at[count]..]
    decreases count
  {
    if count == 0 {
      at := [start];
    } else {
      var o, end, more := FirstLies(buf, start, count, last, r);
      var rest := Layout(buf, end, count - 1, o.number, more);
      at := [start] + rest;
      LaidCons(buf, o, more.opts, start, last, rest);
    }
  }

  /** The first option parsed, and the rest. */
  lemma FirstLies(buf: bytes, start: nat, count: nat, last: u16, r: Parsed) returns (o: Opt, end: nat, more: Parsed)
    requires start <= |buf| && count > 0 && Reading(buf[start..], count, last, r)
    ensures Lies(buf, start, last, o, end) && end <= |buf|
    ensures Reading(buf[end..], count - 1, o.number, more) && r == Parsed([o] + more.opts, more.rest)
  {
    var b := buf[start..];
    FirstParsed(b, count, last, r);
    var n := HeadLength(b);
    end := start + n + ValueLength(b);
    SliceOfSuffix(buf, start, start + n, end);
    o := Opt(Wrapped(last as int + buf[start] as int / 16), buf[start + n..end]);
    more := ParseOptions(buf[end..], count - 1, o.number);
  }

  lemma LaidCons(buf: bytes, o: Opt, opts: seq<Opt>, start: nat, last: u16, rest: seq<nat>)
    requires |rest| == |opts| + 1 && Lies(buf, start, last, o, rest[0]) && LaidFrom(buf, opts, rest, rest[0], o.number)
    ensures LaidFrom(buf, [o] + opts, [start] + rest, start, last)
  {
    var all, at := [o] + opts, [start] + rest;
    forall k | 0 <= k < |all|
      ensures Lies(buf, at[k], if k == 0 then last else all[k - 1].number, all[k], at[k + 1])
    {
      if k > 0 {
        assert Lies(buf, rest[k - 1], if k == 1 then o.number else opts[k - 2].number, opts[k - 1], rest[k]);
      }
    }
  }

  lemma FirstParsed(b: bytes, count: nat, last: u16, r: Parsed)
    requires count > 0 && Reading(b, count, last, r)
    ensures |b| > 0 && |b| >= HeadLength(b) && |b| >= HeadLength(b) + ValueLength(b)
    ensures var n, len := HeadLength(b), ValueLength(b);
            var o := Opt(Wrapped(last as int + b[0] as int / 16), b[n..n + len]);
            var more := ParseOptions(b[n + len..], count - 1, o.number);
            more.Parsed? && r == Parsed([o] + more.opts, more.rest)
  {
  }

  lemma SliceOfSuffix(buf: bytes, at: nat, lo: nat, hi: nat)
    requires at <= lo <= hi <= |buf|
    ensures buf[at..][lo - at..hi - at] == buf[lo..hi] && buf[at..][hi - at..] == buf[hi..]
  {
  }

  /** One round of the option loop of parse_message. */
  method ReadOption(buf: bytes, at: nat, last: u16, ghost o: Opt, ghost end: nat) returns (node: HeaderOption, n: nat)
    requires Lies(buf, at, last, o, end)
    ensures fresh(node) && Opt(node.number, node.value) == o && n == end
  {
    var delta, len: nat := buf[at] as int / 16, buf[at] as int % 16;
    n := at + 1;
    if len == 0xf {
      len := len + buf[n] as int;
      n := n + 1;
    }
    node := new HeaderOption(Wrapped(last as int + delta), buf[n..n + len]);
    n := n + len;
  }

  /** LastOf is the last value set for the number, if one was. */
  lemma {:induction false} LastOfMeaning(opts: seq<Opt>, number: u16)
    ensures LastOf(opts, number) == Absent <==> forall i :: 0 <= i < |opts| ==> opts[i].number != number
    ensures forall i :: 0 <= i < |opts| && opts[i].number == number
                        && (forall j :: i < j < |opts| ==> opts[j].number != number) ==>
              LastOf(opts, number) == Present(opts[i].value)
    decreases |opts|
  {
    if opts != [] && opts[|opts| - 1].number != number {
      var n := |opts| - 1;
      LastOfMeaning(opts[..n], number);
      assert forall i :: 0 <= i < n ==> opts[..n][i] == opts[i];
    }
  }

  /** The payload is what lies between the options and the end of the message, if anything does. */
  lemma PayloadMeaning(buf: bytes, processed: nat, size: nat)
    requires processed <= |buf| && size <= |buf|
    ensures PayloadOf(buf[processed..], |buf| - size)
         == if processed < size then Present(buf[processed..size]) else Absent
  {
  }

  /** One round of the option loop of serialize_packet. */
  method WriteOption(buffer: array<u8>, at: nat, last: u16, o: Opt) returns (n: nat)
    requires at + |EncodeOption(o, last)| <= buffer.Length
    modifies buffer
    ensures n == at + |EncodeOption(o, last)|
    ensures buffer[..n] == old(buffer[..at]) + EncodeOption(o, last)
    ensures forall i :: n <= i < buffer.Length ==> buffer[i] == old(buffer[i])
  {
    ghost var start := buffer[..at];
    var delta := Wrapped(o.number - last);
    buffer[at] := delta % 16 * 16;
    if |o.value| < 0xf {
      buffer[at] := buffer[at] + |o.value|;
      n := at + 1;
    } else {
      buffer[at] := buffer[at] + 0xf;
      buffer[at + 1] := (|o.value| - 0xf) % 256;
      n := at + 2;
    }
    assert buffer[..n] == start + OptionHead(delta, |o.value|);
    CopyInto(buffer, n, o.value);
    n := n + |o.value|;
  }

  lemma EncodeNext(done: bytes, opts: seq<Opt>, k: nat, last: u16)
    requires k < |opts|
    ensures done + EncodeOptions(opts[k..], last)
         == (done + EncodeOption(opts[k], last)) + EncodeOptions(opts[k + 1..], opts[k].number)
  {
    assert opts[k..][1..] == opts[k + 1..];
  }

  // ------------------------------------------------------------------ from packet to packet

  /** What the parser makes of the serialisation of a packet that fits the format. */
  lemma SerializedReading(p: Packet) returns (r: Parsed)
    requires Encodable(p)
    ensures var s := Serialize(p);
            && |s| >= 4 && s[0] as int % 16 == |p.options|
            && Reading(s[4..], s[0] as int % 16, 0, r) && r.opts == p.options && Parse(s) == Message(p)
  {
    RoundTripIff(p);
    var s := Serialize(p);
    r := ParseOptions(s[4..], s[0] as int % 16, 0);
    ParsedCount(s[4..], s[0] as int % 16, 0);
  }

  /** A packet serialised by one node and parsed by another is the same packet. */
  method Transmit(sender: CoapPacket, buffer: array<u8>, receiver: CoapPacket, arena: BumpBuffer.Buffer)
      returns (ok: bool)
    requires sender.Built() && Encodable(sender.Value()) && receiver != sender
    requires |Serialize(sender.Value())| <= buffer.Length && |Serialize(sender.Value())| < 0x1_0000
    modifies buffer, receiver, arena
    ensures receiver.Linked() && fresh(receiver.spine)
    ensures ok <==> Reserved(old(arena.State()), |old(sender.Value()).options|)
    ensures ok ==> receiver.Value() == old(sender.Value())
  {
    ghost var p := sender.Value();
    ghost var r := SerializedReading(p);
    var n := sender.SerializePacket(buffer);
    ok := receiver.ParseMessage(arena, buffer[..n], n, r);
    if ok {
      receiver.ParsedValue(Serialize(p), r);
    }
  }
}
