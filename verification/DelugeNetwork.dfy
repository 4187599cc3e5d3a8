/**
 N Deluge nodes over a channel that may lose, duplicate and reorder: a message once sent
 stays available and may be delivered to any node any number of times, or never.  A run is
 a sequence of actions; an action that is not possible leaves the network alone.
 */
module DelugeNetwork {
  import opened Bytes
  import opened DelugeNode

  datatype Action =
    | Deliver(node: nat, msg: Msg, sender: nat, now: nat, alloc: bool)
    | RequestExpires(node: nat, behind: Page)
    | SendExpires(node: nat)
    | SummaryExpires(node: nat)
    | ProfileExpires(node: nat)
    | RoundExpires(node: nat)

  datatype Network = Network(nodes: seq<Node>, air: set<Msg>)

  predicate CanReact(s: Node, a: Action, env: Platform) {
    env.second > 0 && Sized(s) && TxInRange(s) && (a.Deliver? ==> Fits(s, a.msg, a.alloc))
  }

  /** What one node does in an action, and what it sends. */
  function React(s: Node, a: Action, env: Platform): (Node, seq<Msg>)
    requires CanReact(s, a, env)
  {
    match a
    case Deliver(_, m, sender, now, alloc) => (OnMessage(s, m, sender, now, alloc, env), [])
    case RequestExpires(_, behind) => RequestTimer(s, behind)
    case SendExpires(_) => SendTimer(s, env)
    case SummaryExpires(_) => SummaryTimer(s)
    case ProfileExpires(_) => ProfileTimer(s)
    case RoundExpires(_) => (RoundTimer(s), [])
  }

  predicate Possible(net: Network, a: Action, env: Platform) {
    && a.node < |net.nodes|
    && (a.Deliver? ==> a.msg in net.air)
    && CanReact(net.nodes[a.node], a, env)
  }

  function Perform(net: Network, a: Action, env: Platform): Network {
    if !Possible(net, a, env) then net else
    var (s, out) := React(net.nodes[a.node], a, env);
    Network(net.nodes[a.node := s], net.air + (set m | m in out))
  }

  function Exec(net: Network, acts: seq<Action>, env: Platform): Network
    decreases |acts|
  {
    if acts == [] then net else Exec(Perform(net, acts[0], env), acts[1..], env)
  }

  function Start(files: seq<seq<PageImage>>, versions: seq<u8>): Network
    requires |files| == |versions|
  {
    Network(seq(|files|, i requires 0 <= i < |files| => InitObject(files[i], versions[i])), {})
  }

  // ------------------------------------------------------------------ shape of the page tables

  ghost predicate AllComplete(pages: seq<Page>) {
    forall i :: 0 <= i < |pages| ==> pages[i].complete
  }

  ghost predicate UniformVector(v: seq<u8>) {
    forall i :: 0 <= i < |v| ==> v[i] == v[0]
  }

  /** A page is complete exactly when all its packets are in. */
  ghost predicate PageShape(p: Page) {
    p.packetSet <= ALL_PACKETS && (p.complete <==> p.packetSet == ALL_PACKETS)
  }

  /** Everything before the receive cursor is complete; unless the whole object is, the page
      at the cursor is incomplete and nothing after it has been started. */
  ghost predicate CursorShape(pages: seq<Page>, rx: nat) {
    && rx <= |pages|
    && (forall i :: 0 <= i < rx ==> pages[i].complete)
    && (AllComplete(pages)
        || (rx < |pages| && !pages[rx].complete && forall i :: rx < i < |pages| ==> pages[i].packetSet == {}))
  }

  ghost predicate UniformPages(pages: seq<Page>) {
    forall i :: 0 <= i < |pages| ==> pages[i].version == pages[0].version
  }

  ghost predicate TableShape(pages: seq<Page>, rx: nat) {
    && UniformPages(pages)
    && (forall i :: 0 <= i < |pages| ==> PageShape(pages[i]))
    && CursorShape(pages, rx)
  }

  ghost predicate VersionOrder(s: Node) {
    && s.version <= s.updateVersion
    && forall i :: 0 <= i < |s.pages| ==> s.updateVersion <= s.pages[i].version
  }

  ghost predicate NodeShape(s: Node, n: nat) {
    && |s.file| == |s.pages| == n
    && VersionOrder(s)
    && TableShape(s.pages, s.rxPage)
    && TxInRange(s) && -128 <= s.txPage < 128
    && T_LOW <= s.interval <= T_HIGH
  }

  ghost predicate MsgShape(m: Msg, n: nat) {
    match m
    case Summary(_, highest) => highest <= n
    case Request(_, pagenum, bits) => pagenum <= n && (pagenum < n ==> bits != {})
    case Packet(_, pagenum, packetnum, _, _) => pagenum < n && packetnum < N_PKT
    case Profile(version, vector) =>
      |vector| == n && UniformVector(vector) && forall i :: 0 <= i < n ==> version <= vector[i]
  }

  ghost predicate NetShape(net: Network, n: nat) {
    && (forall i :: 0 <= i < |net.nodes| ==> NodeShape(net.nodes[i], n))
    && (forall m :: m in net.air ==> MsgShape(m, n))
  }

  /** Replacing the page at the cursor by one of the same version: the cursor stays while the
      page is incomplete, and moves on when it is complete. */
  lemma CursorPageKeepsTable(pages: seq<Page>, rx: nat, q: Page)
    requires TableShape(pages, rx) && rx < |pages| && !pages[rx].complete
    requires q.version == pages[rx].version && PageShape(q)
    ensures TableShape(pages[rx := q], if q.complete then rx + 1 else rx)
  {
    var t := pages[rx := q];
    assert forall i :: 0 <= i < |pages| && i != rx ==> t[i] == pages[i];
    if q.complete && rx + 1 < |t| {
      assert PageShape(pages[rx + 1]);
      assert 0 in ALL_PACKETS;
      assert !t[rx + 1].complete;
    }
  }

  lemma StampKeepsTable(pages: seq<Page>, rx: nat, p: nat, now: nat)
    requires TableShape(pages, rx) && p < |pages|
    ensures TableShape(pages[p := pages[p].(lastRequest := now)], rx)
  {
    var t := pages[p := pages[p].(lastRequest := now)];
    assert forall i :: 0 <= i < |pages| ==>
      t[i].version == pages[i].version && t[i].complete == pages[i].complete && t[i].packetSet == pages[i].packetSet;
    assert forall i :: 0 <= i < |t| ==> PageShape(pages[i]);
  }

  /** What an accepted packet makes of the page at the cursor. */
  function ReceivedPage(p: Page, m: Msg, now: nat): Page
    requires m.Packet?
  {
    var received := p.packetSet + {m.packetnum};
    Page(p.version, received, received == ALL_PACKETS, p.lastRequest, now)
  }

  lemma AbsorbedState(s: Node, m: Msg, now: nat, env: Platform)
    requires Sized(s) && m.Packet? && PacketFits(s, m) && Accepts(s, m) && m.crc == env.crc(m.payload)
    ensures var t := OnPacket(s, m, now, env);
            var q := ReceivedPage(s.pages[s.rxPage], m, now);
            && t.pages == s.pages[s.rxPage := q] && |t.file| == |s.file|
            && t.rxPage == (if q.complete then s.rxPage + 1 else s.rxPage)
            && t.version == (if q.complete && s.rxPage == |s.pages| - 1 then s.updateVersion else s.version)
            && t.updateVersion == s.updateVersion
            && t.txSet == s.txSet && t.txPage == s.txPage && t.interval == s.interval
  {
  }

  lemma PacketKeepsShape(s: Node, m: Msg, now: nat, env: Platform, n: nat)
    requires NodeShape(s, n) && m.Packet? && MsgShape(m, n)
    ensures NodeShape(OnPacket(s, m, now, env), n)
  {
    if Accepts(s, m) && m.crc == env.crc(m.payload) {
      AbsorbedKeepsShape(s, OnPacket(s, m, now, env), m, now, env, n);
    }
  }

  lemma AbsorbedKeepsShape(s: Node, t: Node, m: Msg, now: nat, env: Platform, n: nat)
    requires NodeShape(s, n) && m.Packet? && MsgShape(m, n) && Accepts(s, m) && m.crc == env.crc(m.payload)
    requires t == OnPacket(s, m, now, env)
    ensures NodeShape(t, n)
  {
    AbsorbedState(s, m, now, env);
    assert m.packetnum in ALL_PACKETS;
    assert PageShape(s.pages[s.rxPage]);
    CursorPageKeepsTable(s.pages, s.rxPage, ReceivedPage(s.pages[s.rxPage], m, now));
  }

  /** A uniform profile lifts every page or none. */
  lemma ProfileLiftsAllOrNone(s: Node, m: Msg, n: nat)
    requires NodeShape(s, n) && m.Profile? && MsgShape(m, n)
    ensures (MergedPages(s.pages, m.vector) == s.pages)
         || (forall i :: 0 <= i < n ==>
               && s.pages[i].version < m.vector[i]
               && MergedPages(s.pages, m.vector)[i] ==
                  s.pages[i].(packetSet := {}, complete := false, version := m.vector[i]))
  {
    if n > 0 && m.vector[0] > s.pages[0].version {
      assert forall i :: 0 <= i < n ==> m.vector[i] == m.vector[0] && s.pages[i].version == s.pages[0].version;
    } else {
      assert forall i :: 0 <= i < n ==> m.vector[i] == m.vector[0] && s.pages[i].version == s.pages[0].version;
      assert MergedPages(s.pages, m.vector) == s.pages;
    }
  }

  lemma FreshTable(pages: seq<Page>)
    requires UniformPages(pages)
    requires forall i :: 0 <= i < |pages| ==> !pages[i].complete && pages[i].packetSet == {}
    ensures HighestAvailable(pages) == 0 && TableShape(pages, 0)
  {
    assert 0 in ALL_PACKETS;
  }

  lemma SameTable(pages: seq<Page>, rx: nat)
    requires TableShape(pages, rx)
    ensures TableShape(pages, HighestAvailable(pages))
    ensures !AllComplete(pages) ==> HighestAvailable(pages) == rx
  {
    if !AllComplete(pages) {
      HighestAvailableIs(pages, rx);
    }
  }

  lemma FailureKeepsTable(s: Node, m: Msg, n: nat)
    requires NodeShape(s, n) && m.Profile? && MsgShape(m, n) && m.version > s.updateVersion
    ensures OnProfile(s, m, false) == s.(txSet := {})
  {
    assert s.pages[..n] == s.pages && s.file[..n] == s.file;
  }

  lemma ProfileKeepsShape(s: Node, m: Msg, alloc: bool, n: nat)
    requires NodeShape(s, n) && m.Profile? && MsgShape(m, n)
    ensures NodeShape(OnProfile(s, m, alloc), n)
  {
    if m.version > s.updateVersion && !alloc {
      FailureKeepsTable(s, m, n);
    } else if m.version > s.updateVersion {
      ProfileLiftsAllOrNone(s, m, n);
      var pages := MergedPages(s.pages, m.vector);
      assert TableShape(pages, HighestAvailable(pages)) by {
        if pages == s.pages {
          SameTable(pages, s.rxPage);
        } else {
          FreshTable(pages);
        }
      }
    }
  }

  /** The page table with a new request time, and a new transmission. */
  lemma QueuedShape(s: Node, m: Msg, now: nat, n: nat)
    requires NodeShape(s, n) && m.Request? && m.pagenum < n
    ensures NodeShape(Queued(s, m, now), n)
  {
    StampKeepsTable(s.pages, s.rxPage, m.pagenum, now);
  }

  lemma RequestKeepsShape(s: Node, m: Msg, now: nat, n: nat)
    requires NodeShape(s, n) && m.Request?
    ensures NodeShape(OnRequest(s, m, now), n)
  {
    if Serves(s, m) {
      QueuedShape(s, m, now, n);
    }
  }

  /** s and t differ at most in what the node hears of its neighbours. */
  ghost predicate SameObject(s: Node, t: Node) {
    && t.file == s.file && t.pages == s.pages && t.version == s.version && t.updateVersion == s.updateVersion
    && t.rxPage == s.rxPage && t.txPage == s.txPage && t.txSet == s.txSet && t.buffer == s.buffer
    && t.interval == s.interval
  }

  lemma SummarySameObject(s: Node, m: Msg, sender: nat, now: nat, env: Platform)
    requires m.Summary? && env.second > 0
    ensures SameObject(s, OnSummary(s, m, sender, now, env))
  {
  }

  lemma SummaryKeepsShape(s: Node, m: Msg, sender: nat, now: nat, env: Platform, n: nat)
    requires NodeShape(s, n) && m.Summary? && env.second > 0
    ensures NodeShape(OnSummary(s, m, sender, now, env), n)
  {
    SummarySameObject(s, m, sender, now, env);
  }

  lemma MessageKeepsShape(s: Node, m: Msg, sender: nat, now: nat, alloc: bool, env: Platform, n: nat)
    requires NodeShape(s, n) && MsgShape(m, n) && Fits(s, m, alloc) && env.second > 0
    ensures NodeShape(OnMessage(s, m, sender, now, alloc, env), n)
  {
    match m
    case Summary(_, _) => SummaryKeepsShape(s, m, sender, now, env, n);
    case Request(_, _, _) => RequestKeepsShape(s, m, now, n);
    case Packet(_, _, _, _, _) => PacketKeepsShape(s, m, now, env, n);
    case Profile(_, _) => ProfileKeepsShape(s, m, alloc, n);
  }

  lemma RequestTimerShape(s: Node, behind: Page, n: nat)
    requires NodeShape(s, n)
    ensures var (t, out) := RequestTimer(s, behind);
            NodeShape(t, n) && forall m :: m in out ==> MsgShape(m, n)
  {
    if s.rxPage < n {
      assert PageShape(s.pages[s.rxPage]);
      assert 4 in EIGHT_BITS - s.pages[s.rxPage].packetSet;
    }
  }

  lemma SendTimerShape(s: Node, env: Platform, n: nat)
    requires NodeShape(s, n)
    ensures var (t, out) := SendTimer(s, env);
            NodeShape(t, n) && forall m :: m in out ==> MsgShape(m, n)
  {
  }

  lemma ProfileTimerShape(s: Node, n: nat)
    requires NodeShape(s, n)
    ensures var (t, out) := ProfileTimer(s);
            NodeShape(t, n) && forall m :: m in out ==> MsgShape(m, n)
  {
    assert UniformVector(Versions(s.pages));
  }

  lemma TimerKeepsShape(s: Node, a: Action, env: Platform, n: nat)
    requires NodeShape(s, n) && CanReact(s, a, env) && !a.Deliver?
    ensures NodeShape(React(s, a, env).0, n)
    ensures forall m :: m in React(s, a, env).1 ==> MsgShape(m, n)
  {
    match a
    case RequestExpires(_, behind) => RequestTimerShape(s, behind, n);
    case SendExpires(_) => SendTimerShape(s, env, n);
    case SummaryExpires(_) =>
    case ProfileExpires(_) => ProfileTimerShape(s, n);
    case RoundExpires(_) =>
  }

  lemma ReactKeepsShape(s: Node, a: Action, env: Platform, n: nat)
    requires NodeShape(s, n) && CanReact(s, a, env)
    requires a.Deliver? ==> MsgShape(a.msg, n)
    ensures NodeShape(React(s, a, env).0, n)
    ensures forall m :: m in React(s, a, env).1 ==> MsgShape(m, n)
  {
    if a.Deliver? {
      MessageKeepsShape(s, a.msg, a.sender, a.now, a.alloc, env, n);
    } else {
      TimerKeepsShape(s, a, env, n);
    }
  }

  lemma StepKeepsShape(net: Network, a: Action, env: Platform, n: nat)
    requires NetShape(net, n)
    ensures NetShape(Perform(net, a, env), n)
  {
    if Possible(net, a, env) {
      ReactKeepsShape(net.nodes[a.node], a, env, n);
    }
  }

  lemma {:induction false} RunKeepsShape(net: Network, acts: seq<Action>, env: Platform, n: nat)
    requires NetShape(net, n)
    ensures NetShape(Exec(net, acts, env), n)
    decreases |acts|
  {
    if acts != [] {
      StepKeepsShape(net, acts[0], env, n);
      RunKeepsShape(Perform(net, acts[0], env), acts[1..], env, n);
    }
  }

  lemma StartHasShape(files: seq<seq<PageImage>>, versions: seq<u8>, n: nat)
    requires |files| == |versions|
    requires forall i :: 0 <= i < |files| ==> |files[i]| == n
    ensures NetShape(Start(files, versions), n)
  {
  }
}
