/**
 One Deluge node as a value: its page table, its receive and transmit cursors, and what
 each message handler and each timer does to them (apps/deluge/deluge.c).

 A C bitmap is the set of its set bit positions.  The flash file is a sequence of whole
 pages.  The clock, the CRC function and the outcome of `malloc` are parameters.
 */
module DelugeNode {
  import opened Bytes

  const S_PKT := 64
  const N_PKT := 4
  const S_PAGE := 256
  const T_LOW := 2
  const T_HIGH := 64
  const CONST_K := 1
  const CONST_LAMBDA := 2

  const ALL_PACKETS: set<nat> := {0, 1, 2, 3}
  const EIGHT_BITS: set<nat> := {0, 1, 2, 3, 4, 5, 6, 7}

  type PageImage = s: bytes | |s| == S_PAGE witness seq(S_PAGE, _ => 0)
  type Payload = s: bytes | |s| == S_PKT witness seq(S_PKT, _ => 0)

  datatype Page = Page(version: u8, packetSet: set<nat>, complete: bool, lastRequest: nat, lastData: nat)

  datatype Phase = Maintain | Rx | Tx

  datatype Node = Node(
    file: seq<PageImage>,      // what cfs_read returns, page by page
    pages: seq<Page>,
    version: u8,
    updateVersion: u8,
    rxPage: nat,
    txPage: int,
    txSet: set<nat>,
    buffer: PageImage,         // current_page
    requests: nat,
    phase: Phase,
    inconsistent: bool,
    advertisements: nat,       // recv_adv
    oldSummary: bool,
    profileDue: bool,          // broadcast_profile
    interval: nat,             // r_interval
    summaryFrom: nat)

  datatype Msg =
    | Summary(version: u8, highest: nat)
    | Request(version: u8, pagenum: nat, requestSet: set<nat>)
    | Packet(version: u8, pagenum: nat, packetnum: nat, crc: nat, payload: Payload)
    | Profile(version: u8, vector: seq<u8>)

  /** The test that command_dispatcher makes before a profile is handled: as it is written, or
      with one byte asked for per page, which is what send_profile sends. */
  datatype Dispatch = AsWritten | ByLength

  /** The platform: the checksum of lib/crc16.c, CLOCK_SECOND, and the dispatcher's test. */
  datatype Platform = Platform(crc: bytes -> nat, second: nat, dispatch: Dispatch)

  // ------------------------------------------------------------------ pages and slots

  predicate Sized(s: Node) {
    |s.file| == |s.pages|
  }

  /** The number of leading complete pages; also the index of the first missing page. */
  function HighestAvailable(pages: seq<Page>): (h: nat)
    ensures h <= |pages|
    ensures forall i :: 0 <= i < h ==> pages[i].complete
    ensures h < |pages| ==> !pages[h].complete
  {
    if pages == [] || !pages[0].complete then 0 else 1 + HighestAvailable(pages[1..])
  }

  /** The two contract clauses above leave only one possible value. */
  lemma HighestAvailableIs(pages: seq<Page>, h: nat)
    requires h <= |pages|
    requires forall i :: 0 <= i < h ==> pages[i].complete
    requires h < |pages| ==> !pages[h].complete
    ensures HighestAvailable(pages) == h
  {}

  function Slot(page: PageImage, k: nat): Payload
    requires k < N_PKT
  {
    page[S_PKT * k..S_PKT * k + S_PKT]
  }

  function Splice(page: PageImage, k: nat, payload: Payload): PageImage
    requires k < N_PKT
  {
    page[..S_PKT * k] + payload + page[S_PKT * k + S_PKT..]
  }

  lemma SlotOfSplice(page: PageImage, k: nat, payload: Payload, j: nat)
    requires k < N_PKT && j < N_PKT
    ensures Slot(Splice(page, k, payload), j) == if j == k then payload else Slot(page, j)
  {
    var spliced := Splice(page, k, payload);
    if j < k {
      assert spliced[S_PKT * j..S_PKT * j + S_PKT] == page[S_PKT * j..S_PKT * j + S_PKT];
    } else if j > k {
      assert spliced[S_PKT * j..S_PKT * j + S_PKT] == page[S_PKT * j..S_PKT * j + S_PKT];
    }
  }

  lemma SlotsDeterminePage(a: PageImage, b: PageImage)
    requires forall k :: k in ALL_PACKETS ==> Slot(a, k) == Slot(b, k)
    ensures a == b
  {
    assert a == Slot(a, 0) + Slot(a, 1) + Slot(a, 2) + Slot(a, 3);
    assert b == Slot(b, 0) + Slot(b, 1) + Slot(b, 2) + Slot(b, 3);
    assert 0 in ALL_PACKETS && 1 in ALL_PACKETS && 2 in ALL_PACKETS && 3 in ALL_PACKETS;
  }

  // ------------------------------------------------------------------ start of the object

  function HeldPage(version: u8): Page {
    Page(version, ALL_PACKETS, true, 0, 0)
  }

  function NewPage(): Page {
    Page(0, {}, false, 0, 0)
  }

  const BLANK: PageImage := seq(S_PAGE, _ => 0)

  function InitObject(file: seq<PageImage>, version: u8): Node {
    Node(file, seq(|file|, _ => HeldPage(version)), version, version, 0, 0, {}, BLANK, 0, Maintain,
         false, 0, false, false, T_LOW, 0)
  }

  // ------------------------------------------------------------------ message handlers

  /** The pair (oldest_request, oldest_data) after looking at pages[..n]; the second
      comparison reads `last_request`, as the source does. */
  function Oldest(pages: seq<Page>, n: nat, now: nat): (nat, nat)
    requires n <= |pages|
  {
    if n == 0 then (now, now) else
    var (request, data) := Oldest(pages, n - 1, now);
    var p := pages[n - 1];
    (if p.lastRequest < request then p.lastRequest else request,
     if p.lastRequest < data then p.lastData else data)
  }

  predicate Suppressed(pages: seq<Page>, n: nat, now: nat, interval: nat, second: nat)
    requires n <= |pages| && second > 0
  {
    var (request, data) := Oldest(pages, n, now);
    (now - request) / second <= 2 * interval || (now - data) / second <= interval
  }

  /** Rule M.5. */
  function Followed(s: Node, m: Msg, sender: nat, now: nat, env: Platform): Node
    requires m.Summary? && env.second > 0
  {
    if m.version == s.updateVersion && m.highest > HighestAvailable(s.pages) && m.highest <= |s.pages|
       && !Suppressed(s.pages, m.highest, now, s.interval, env.second)
    then s.(summaryFrom := sender, phase := Rx)
    else s
  }

  function OnSummary(s: Node, m: Msg, sender: nat, now: nat, env: Platform): Node
    requires m.Summary? && env.second > 0
  {
    var s1 := if m.version != s.version || m.highest != HighestAvailable(s.pages)
              then s.(inconsistent := true)
              else s.(advertisements := s.advertisements + 1);
    var s2 := if m.version < s.version then s1.(oldSummary := true, profileDue := true) else s1;
    Followed(s2, m, sender, now, env)
  }

  /** A page number stored in the `int8_t` field current_tx_page. */
  function ToInt8(p: nat): int {
    var b := p % 256;
    if b < 128 then b else b - 256
  }

  /** Rule M.6: the request is for the held version and for a page up to, and including,
      the first missing one. */
  predicate Serves(s: Node, m: Msg)
    requires m.Request?
  {
    m.pagenum < |s.pages| && m.version == s.version && m.pagenum <= HighestAvailable(s.pages)
  }

  /** Rule T.1. */
  function Queued(s: Node, m: Msg, now: nat): Node
    requires m.Request? && m.pagenum < |s.pages|
  {
    var s1 := s.(pages := s.pages[m.pagenum := s.pages[m.pagenum].(lastRequest := now)], phase := Tx);
    if m.pagenum == s.txPage
    then s1.(txSet := s.txSet + m.requestSet)
    else s1.(txPage := ToInt8(m.pagenum), txSet := m.requestSet)
  }

  function OnRequest(s: Node, m: Msg, now: nat): Node
    requires m.Request?
  {
    if m.pagenum >= |s.pages| then s else
    var s1 := if m.version != s.version then s.(inconsistent := true) else s;
    if Serves(s, m) then Queued(s1, m, now) else s1
  }

  predicate PacketInRange(m: Msg, npages: nat)
    requires m.Packet?
  {
    m.pagenum < npages && m.packetnum < N_PKT
  }

  /** Only a packet for the page at the cursor is looked at, and has to be in range. */
  predicate PacketFits(s: Node, m: Msg)
    requires m.Packet?
  {
    m.pagenum == s.rxPage ==> PacketInRange(m, |s.pages|)
  }

  predicate Accepts(s: Node, m: Msg)
    requires m.Packet? && PacketFits(s, m)
  {
    m.pagenum == s.rxPage && m.version == s.pages[m.pagenum].version && !s.pages[m.pagenum].complete
  }

  /** An accepted packet: copied into its slot first, then tested against its CRC. */
  function Absorb(s: Node, m: Msg, now: nat, env: Platform): Node
    requires Sized(s) && m.Packet? && PacketInRange(m, |s.pages|)
  {
    var buffer := Splice(s.buffer, m.packetnum, m.payload);
    if m.crc != env.crc(m.payload) then s.(buffer := buffer) else
    var page := s.pages[m.pagenum];
    var received := page.packetSet + {m.packetnum};
    if received == ALL_PACKETS then
      s.(buffer := buffer,
         file := s.file[m.pagenum := buffer],
         pages := s.pages[m.pagenum := Page(m.version, received, true, page.lastRequest, now)],
         rxPage := s.rxPage + 1,
         version := if m.pagenum == |s.pages| - 1 then s.updateVersion else s.version,
         phase := Maintain)
    else
      s.(buffer := buffer, pages := s.pages[m.pagenum := page.(packetSet := received, lastData := now)])
  }

  function OnPacket(s: Node, m: Msg, now: nat, env: Platform): Node
    requires Sized(s) && m.Packet? && PacketFits(s, m)
  {
    if m.pagenum != s.rxPage then s else
    var s1 := if m.version != s.version then s.(inconsistent := true) else s;
    if Accepts(s, m) then Absorb(s1, m, now, env) else s1
  }

  function MergePage(p: Page, version: u8): Page {
    if version > p.version then p.(packetSet := {}, complete := false, version := version) else p
  }

  function MergedPages(pages: seq<Page>, vector: seq<u8>): (r: seq<Page>)
    ensures |r| == |vector|
  {
    seq(|vector|, i requires 0 <= i < |vector| =>
      if i < |pages| then MergePage(pages[i], vector[i]) else NewPage())
  }

  function ResizedFile(file: seq<PageImage>, n: nat): (r: seq<PageImage>)
    ensures |r| == n
  {
    seq(n, i requires 0 <= i < n => if i < |file| then file[i] else BLANK)
  }

  /** The table after a version vector, and the cursor at its first missing page. */
  function Installed(s: Node, vector: seq<u8>): Node {
    var pages := MergedPages(s.pages, vector);
    s.(pages := pages, file := ResizedFile(s.file, |vector|), rxPage := HighestAvailable(pages))
  }

  /** A newer profile takes over the page table. */
  function Adopt(s: Node, m: Msg): Node
    requires m.Profile?
  {
    Installed(s, m.vector).(txSet := {}, updateVersion := m.version, phase := Rx)
  }

  /** The object's size is set before the table is allocated: a failure leaves the first pages of
      the old table, which has to be long enough. */
  predicate ProfileFits(s: Node, m: Msg, alloc: bool)
    requires m.Profile?
  {
    m.version > s.updateVersion && !alloc ==> |m.vector| <= |s.pages|
  }

  /** `alloc` says whether the new page table could be allocated. */
  function OnProfile(s: Node, m: Msg, alloc: bool): Node
    requires Sized(s) && m.Profile? && ProfileFits(s, m, alloc)
  {
    if m.version <= s.updateVersion then s
    else if !alloc then s.(txSet := {}, pages := s.pages[..|m.vector|], file := s.file[..|m.vector|])
    else Adopt(s, m)
  }

  // ------------------------------------------------------------------ the dispatcher

  /** The bytes in front of a profile's version vector. */
  const PROFILE_HEADER := 4

  function ProfileNeeds(vector: seq<u8>, dispatch: Dispatch): nat {
    PROFILE_HEADER + |vector| * if dispatch.ByLength? then 1 else if vector == [] then 0 else vector[0] as int
  }

  /** The length test of command_dispatcher; all other messages have a fixed length. */
  predicate Passes(m: Msg, env: Platform) {
    m.Profile? ==> PROFILE_HEADER + |m.vector| >= ProfileNeeds(m.vector, env.dispatch)
  }

  /** As the test is written, a profile passes exactly when it is empty or its first page has
      version 0 or 1. */
  lemma ProfilePassesIff(m: Msg, env: Platform)
    requires m.Profile?
    ensures Passes(m, env) <==> env.dispatch.ByLength? || m.vector == [] || m.vector[0] <= 1
  {
    if m.vector != [] && m.vector[0] >= 2 {
      assert |m.vector| * m.vector[0] as int >= |m.vector| * 2;
    }
  }

  /** What handling the message takes for granted. */
  predicate Fits(s: Node, m: Msg, alloc: bool) {
    && Sized(s) && (m.Packet? ==> PacketFits(s, m)) && (m.Profile? ==> ProfileFits(s, m, alloc))
  }

  function OnMessage(s: Node, m: Msg, sender: nat, now: nat, alloc: bool, env: Platform): Node
    requires Fits(s, m, alloc) && env.second > 0
  {
    if !Passes(m, env) then s else
    match m
    case Summary(_, _) => OnSummary(s, m, sender, now, env)
    case Request(_, _, _) => OnRequest(s, m, now)
    case Packet(_, _, _, _, _) => OnPacket(s, m, now, env)
    case Profile(_, _) => OnProfile(s, m, alloc)
  }

  // ------------------------------------------------------------------ timers

  /** The page at the cursor; behind the table that is whatever the memory holds there. */
  function PageAtCursor(s: Node, behind: Page): Page {
    if s.rxPage < |s.pages| then s.pages[s.rxPage] else behind
  }

  function RequestTimer(s: Node, behind: Page): (r: (Node, seq<Msg>)) {
    var page := PageAtCursor(s, behind);
    var m := Request(page.version, s.rxPage, EIGHT_BITS - page.packetSet);
    if s.requests + 1 == CONST_LAMBDA
    then (s.(requests := 0, phase := Maintain), [m])
    else (s.(requests := s.requests + 1), [m])
  }

  function SummaryTimer(s: Node): (r: (Node, seq<Msg>)) {
    (s, if s.advertisements >= CONST_K then [] else [Summary(s.updateVersion, HighestAvailable(s.pages))])
  }

  function Versions(pages: seq<Page>): seq<u8> {
    seq(|pages|, i requires 0 <= i < |pages| => pages[i].version)
  }

  function ProfileTimer(s: Node): (r: (Node, seq<Msg>)) {
    if s.profileDue && s.advertisements < CONST_K
    then (s.(profileDue := false), [Profile(s.version, Versions(s.pages))])
    else (s, [])
  }

  function PacketOf(s: Node, p: nat, k: nat, env: Platform): Msg
    requires Sized(s) && p < |s.pages| && k < N_PKT
  {
    Packet(s.pages[p].version, p, k, env.crc(Slot(s.file[p], k)), Slot(s.file[p], k))
  }

  /** The packets numbered below `n` of page `p` that the transmit set asks for. */
  function PagePackets(s: Node, p: nat, n: nat, env: Platform): (r: seq<Msg>)
    requires Sized(s) && p < |s.pages| && n <= N_PKT
    ensures forall m :: m in r <==> exists k :: 0 <= k < n && k in s.txSet && m == PacketOf(s, p, k, env)
  {
    if n == 0 then []
    else if n - 1 in s.txSet then PagePackets(s, p, n - 1, env) + [PacketOf(s, p, n - 1, env)]
    else PagePackets(s, p, n - 1, env)
  }

  /** The transmit cursor points into the table; an invariant of every run. */
  predicate TxInRange(s: Node) {
    s.txSet != {} ==> s.txPage < |s.pages|
  }

  function SendTimer(s: Node, env: Platform): (r: (Node, seq<Msg>))
    requires Sized(s) && TxInRange(s)
  {
    if s.txPage >= 0 && s.txSet != {}
    then (s.(txSet := {}, txPage := -1, phase := Maintain), PagePackets(s, s.txPage, N_PKT, env))
    else (s, [])
  }

  /** One turn of the round loop: rules M.2 and M.3. */
  function RoundTimer(s: Node): Node {
    s.(interval := if s.inconsistent then T_LOW else if 2 * s.interval >= T_HIGH then T_HIGH else 2 * s.interval,
       inconsistent := false, advertisements := 0, oldSummary := false)
  }
}
