/**
 Progress of a Deluge download: a node that asks a holder of its version for the page it is
 missing, is served and hears the packets, has that page; after as many such exchanges as
 pages are missing it has the whole object and is promoted.
 */
module DelugeProgress {
  import opened Bytes
  import opened DelugeNode
  import opened DelugeNetwork
  import opened DelugeSafety

  // ------------------------------------------------------------------ one page

  /** An intact packet of page p, version v. */
  ghost predicate PacketFor(m: Msg, p: nat, v: u8, env: Platform) {
    m.Packet? && m.pagenum == p && m.version == v && m.packetnum < N_PKT && m.crc == env.crc(m.payload)
  }

  ghost predicate AllFor(msgs: seq<Msg>, p: nat, v: u8, env: Platform) {
    forall m :: m in msgs ==> PacketFor(m, p, v, env)
  }

  /** The packets arrive one after the other. */
  function Feed(s: Node, msgs: seq<Msg>, now: nat, env: Platform): Node
    requires Sized(s) && forall m :: m in msgs ==> m.Packet? && PacketInRange(m, |s.pages|)
    decreases |msgs|
  {
    if msgs == [] then s else Feed(OnPacket(s, msgs[0], now, env), msgs[1..], now, env)
  }

  ghost predicate Covered(got: set<nat>, msgs: seq<Msg>) {
    forall k :: k in ALL_PACKETS ==> k in got || exists m :: m in msgs && m.Packet? && m.packetnum == k
  }

  /** t is s with page p completed, and promoted if p was the last page. */
  ghost predicate PageDone(s: Node, t: Node, p: nat) {
    && |t.pages| == |s.pages| && p < |s.pages| && t.rxPage == p + 1 && t.updateVersion == s.updateVersion
    && t.pages[p].complete && t.pages[p].version == s.pages[p].version
    && (forall i :: 0 <= i < |s.pages| && i != p ==> t.pages[i] == s.pages[i])
    && (p == |s.pages| - 1 ==> t.version == s.updateVersion)
  }

  lemma {:induction false} FeedLate(s: Node, msgs: seq<Msg>, now: nat, env: Platform, p: nat, v: u8)
    requires Sized(s) && p < |s.pages| && s.rxPage != p && AllFor(msgs, p, v, env)
    ensures Feed(s, msgs, now, env) == s
    decreases |msgs|
  {
    if msgs != [] {
      assert PacketFor(msgs[0], p, v, env);
      FeedLate(s, msgs[1..], now, env, p, v);
    }
  }

  /** Whatever their order and however often each comes, packets that cover what is missing of
      the page at the cursor complete it. */
  lemma {:induction false} PageCompletes(s: Node, msgs: seq<Msg>, now: nat, env: Platform, n: nat)
    requires NodeShape(s, n) && s.rxPage < n && !s.pages[s.rxPage].complete
    requires AllFor(msgs, s.rxPage, s.pages[s.rxPage].version, env)
    requires Covered(s.pages[s.rxPage].packetSet, msgs)
    ensures PageDone(s, Feed(s, msgs, now, env), s.rxPage)
    decreases |msgs|
  {
    var p, got := s.rxPage, s.pages[s.rxPage].packetSet;
    assert PageShape(s.pages[p]);
    CoverNeeded(got, msgs);
    var m := msgs[0];
    assert PacketFor(m, p, s.pages[p].version, env);
    var s1 := OnPacket(s, m, now, env);
    PacketKeepsShape(s, m, now, env, n);
    AbsorbedState(s, m, now, env);
    CoveredRest(got, msgs);
    if s1.pages[p].complete {
      FeedLate(s1, msgs[1..], now, env, p, s.pages[p].version);
    } else {
      PageCompletes(s1, msgs[1..], now, env, n);
    }
  }

  lemma CoverNeeded(got: set<nat>, msgs: seq<Msg>)
    requires Covered(got, msgs) && got <= ALL_PACKETS && got != ALL_PACKETS
    ensures msgs != []
  {
    var k :| k in ALL_PACKETS && k !in got;
  }

  lemma CoveredRest(got: set<nat>, msgs: seq<Msg>)
    requires msgs != [] && msgs[0].Packet? && Covered(got, msgs)
    ensures Covered(got + {msgs[0].packetnum}, msgs[1..])
  {
    forall k | k in ALL_PACKETS && k !in got + {msgs[0].packetnum}
      ensures exists m :: m in msgs[1..] && m.Packet? && m.packetnum == k
    {
      var m :| m in msgs && m.Packet? && m.packetnum == k;
      assert m in msgs[1..];
    }
  }

  // ------------------------------------------------------------------ request, serve, receive

  /** Every page of s is complete in version v. */
  ghost predicate Whole(s: Node, v: u8, n: nat) {
    |s.pages| == n && AllComplete(s.pages) && forall i :: 0 <= i < n ==> s.pages[i].version == v
  }

  /** q holds the whole object and goes by its version. */
  ghost predicate Holder(q: Node, v: u8, n: nat) {
    NodeShape(q, n) && Whole(q, v, n) && q.version == v
  }

  /** s wants version v and misses a page. */
  ghost predicate Wanting(s: Node, v: u8, n: nat) {
    && NodeShape(s, n) && s.rxPage < n && !s.pages[s.rxPage].complete
    && forall i :: 0 <= i < n ==> s.pages[i].version == v
  }

  function RequestOf(s: Node): Msg
    requires s.rxPage < |s.pages|
  {
    Request(s.pages[s.rxPage].version, s.rxPage, EIGHT_BITS - s.pages[s.rxPage].packetSet)
  }

  lemma HolderServes(q: Node, m: Msg, now: nat, v: u8, n: nat)
    requires Holder(q, v, n) && n <= 128 && m.Request? && m.version == v && m.pagenum < n
    ensures var q1 := OnRequest(q, m, now);
            && Serves(q, m) && q1.txPage == m.pagenum && m.requestSet <= q1.txSet && Holder(q1, v, n)
            && q1.file == q.file && q1.advertisements == q.advertisements
  {
    HighestAvailableIs(q.pages, n);
    RequestKeepsShape(q, m, now, n);
  }

  /** The holder's answer covers everything the request asked for. */
  lemma AnswerCovers(q1: Node, got: set<nat>, env: Platform, p: nat, v: u8)
    requires Sized(q1) && p < |q1.pages| && q1.txPage == p && EIGHT_BITS - got <= q1.txSet && q1.pages[p].version == v
    ensures var out := PagePackets(q1, p, N_PKT, env);
            AllFor(out, p, v, env) && Covered(got, out)
  {
    var out := PagePackets(q1, p, N_PKT, env);
    forall k | k in ALL_PACKETS && k !in got
      ensures exists m :: m in out && m.Packet? && m.packetnum == k
    {
      assert k in EIGHT_BITS;
      assert PacketOf(q1, p, k, env) in out;
    }
  }

  lemma Asks(s: Node, behind: Page, v: u8, n: nat)
    requires Wanting(s, v, n)
    ensures RequestTimer(s, behind).1 == [RequestOf(s)] && RequestOf(s).requestSet != {} && RequestOf(s).version == v
    ensures var s1 := RequestTimer(s, behind).0;
            Wanting(s1, v, n) && s1 == s.(requests := s1.requests, phase := s1.phase)
  {
    assert PageShape(s.pages[s.rxPage]);
    assert 4 in RequestOf(s).requestSet;
  }

  /** What the send timer makes of a served request. */
  lemma Answers(q1: Node, s: Node, env: Platform, v: u8, n: nat)
    requires Wanting(s, v, n) && Holder(q1, v, n)
    requires q1.txPage == s.rxPage && RequestOf(s).requestSet <= q1.txSet && RequestOf(s).requestSet != {}
    ensures var (q2, out) := SendTimer(q1, env);
            && Holder(q2, v, n) && q2.file == q1.file && q2.advertisements == q1.advertisements
            && AllFor(out, s.rxPage, v, env) && Covered(s.pages[s.rxPage].packetSet, out)
  {
    AnswerCovers(q1, s.pages[s.rxPage].packetSet, env, s.rxPage, v);
  }

  // ------------------------------------------------------------------ in the network

  lemma {:induction false} ExecConcat(net: Network, a: seq<Action>, b: seq<Action>, env: Platform)
    ensures Exec(net, a + b, env) == Exec(Exec(net, a, env), b, env)
    ensures Disciplined(net, a, env) && Disciplined(Exec(net, a, env), b, env) ==> Disciplined(net, a + b, env)
    decreases |a|
  {
    if a == [] {
      assert a + b == b;
    } else {
      assert (a + b)[1..] == a[1..] + b;
      ExecConcat(Perform(net, a[0], env), a[1..], b, env);
    }
  }

  lemma ExecOne(net: Network, a: Action, env: Platform)
    ensures Exec(net, [a], env) == Perform(net, a, env)
    ensures (a.Deliver? ==> !a.msg.Request?) ==> Disciplined(net, [a], env)
  {
    assert [a][1..] == [];
    assert Exec(Perform(net, a, env), [], env) == Perform(net, a, env);
  }

  function Deliveries(i: nat, msgs: seq<Msg>, now: nat): seq<Action> {
    seq(|msgs|, k requires 0 <= k < |msgs| => Deliver(i, msgs[k], 0, now, true))
  }

  /** Delivering the packets is feeding them to the node. */
  lemma {:induction false} DeliveriesFeed(net: Network, i: nat, msgs: seq<Msg>, now: nat, env: Platform,
                                          n: nat, p: nat, v: u8)
    requires NetShape(net, n) && i < |net.nodes| && env.second > 0 && p < n
    requires AllFor(msgs, p, v, env) && forall m :: m in msgs ==> m in net.air
    ensures var last := Exec(net, Deliveries(i, msgs, now), env);
            last == Network(net.nodes[i := Feed(net.nodes[i], msgs, now, env)], net.air)
    ensures Disciplined(net, Deliveries(i, msgs, now), env)
    decreases |msgs|
  {
    var acts := Deliveries(i, msgs, now);
    if msgs == [] {
      assert net.nodes[i := net.nodes[i]] == net.nodes;
    } else {
      var m := msgs[0];
      assert PacketFor(m, p, v, env) && m in net.air;
      var next := Perform(net, acts[0], env);
      var s1 := OnPacket(net.nodes[i], m, now, env);
      assert next == Network(net.nodes[i := s1], net.air) by {
        assert net.air + (set x | x in []) == net.air;
      }
      StepKeepsShape(net, acts[0], env, n);
      DeliveriesFeed(next, i, msgs[1..], now, env, n, p, v);
      assert acts[1..] == Deliveries(i, msgs[1..], now);
    }
  }

  /** i wants version v; j is another node. */
  ghost predicate Matched(net: Network, i: nat, j: nat, env: Platform, v: u8, n: nat) {
    && NetShape(net, n) && n <= 128 && env.second > 0 && i < |net.nodes| && j < |net.nodes| && i != j
    && Wanting(net.nodes[i], v, n)
  }

  lemma AskStep(net: Network, i: nat, j: nat, env: Platform, v: u8, n: nat, behind: Page)
    requires Matched(net, i, j, env, v, n)
    ensures var next := Exec(net, [RequestExpires(i, behind)], env);
            var s, s1 := net.nodes[i], RequestTimer(net.nodes[i], behind).0;
            && next.nodes == net.nodes[i := s1] && RequestOf(s) in next.air && RequestOf(s1) == RequestOf(s)
            && Matched(next, i, j, env, v, n) && Disciplined(net, [RequestExpires(i, behind)], env)
  {
    ExecOne(net, RequestExpires(i, behind), env);
    Asks(net.nodes[i], behind, v, n);
    StepKeepsShape(net, RequestExpires(i, behind), env, n);
  }

  lemma ServeStep(net: Network, i: nat, j: nat, now: nat, env: Platform, v: u8, n: nat)
    requires Matched(net, i, j, env, v, n) && Holder(net.nodes[j], v, n) && RequestOf(net.nodes[i]) in net.air
    ensures var m := RequestOf(net.nodes[i]);
            var a := Deliver(j, m, i, now, true);
            var next := Exec(net, [a], env);
            && next.nodes == net.nodes[j := OnRequest(net.nodes[j], m, now)]
            && Matched(next, i, j, env, v, n) && Disciplined(net, [a], env)
  {
    var q, m := net.nodes[j], RequestOf(net.nodes[i]);
    var a := Deliver(j, m, i, now, true);
    ExecOne(net, a, env);
    Asks(net.nodes[i], NewPage(), v, n);
    HolderServes(q, m, now, v, n);
    StepKeepsShape(net, a, env, n);
    HighestAvailableIs(q.pages, n);
    assert !ServesMissing(q, m);
    assert Disciplined(Perform(net, a, env), [a][1..], env);
  }

  lemma AnswerStep(net: Network, i: nat, j: nat, env: Platform, v: u8, n: nat)
    requires Matched(net, i, j, env, v, n)
    ensures var (q2, out) := SendTimer(net.nodes[j], env);
            var next := Exec(net, [SendExpires(j)], env);
            && next.nodes == net.nodes[j := q2] && (forall m :: m in out ==> m in next.air)
            && Matched(next, i, j, env, v, n) && Disciplined(net, [SendExpires(j)], env)
  {
    ExecOne(net, SendExpires(j), env);
    StepKeepsShape(net, SendExpires(j), env, n);
  }

  /** Nodes other than i and j are as they were, and j heard no advertisement. */
  ghost predicate OthersStay(net: Network, last: Network, i: nat, j: nat)
    requires j < |net.nodes|
  {
    && |last.nodes| == |net.nodes|
    && (forall k :: 0 <= k < |net.nodes| && k != i && k != j ==> last.nodes[k] == net.nodes[k])
    && last.nodes[j].advertisements == net.nodes[j].advertisements
  }

  /** A request at its holder, the answer, and the packets back: the page at the cursor is
      complete, and the holder still is one. */
  lemma PageExchange(net: Network, i: nat, j: nat, now: nat, env: Platform, v: u8, n: nat) returns (acts: seq<Action>)
    requires Matched(net, i, j, env, v, n) && Holder(net.nodes[j], v, n)
    ensures var last := Exec(net, acts, env);
            && OthersStay(net, last, i, j) && NetShape(last, n) && Disciplined(net, acts, env)
            && PageDone(net.nodes[i], last.nodes[i], net.nodes[i].rxPage) && Holder(last.nodes[j], v, n)
  {
    var s, q := net.nodes[i], net.nodes[j];
    var m := RequestOf(s);
    Asks(s, NewPage(), v, n);
    var ask := [RequestExpires(i, NewPage())];
    AskStep(net, i, j, env, v, n, NewPage());
    var n1 := Exec(net, ask, env);
    ServeStep(n1, i, j, now, env, v, n);
    var serve := [Deliver(j, m, i, now, true)];
    var n2 := Exec(n1, serve, env);
    HolderServes(q, m, now, v, n);
    AnswerStep(n2, i, j, env, v, n);
    var n3 := Exec(n2, [SendExpires(j)], env);
    var s1, out := n3.nodes[i], SendTimer(n2.nodes[j], env).1;
    Answers(n2.nodes[j], s1, env, v, n);
    var feed := Deliveries(i, out, now);
    DeliveriesFeed(n3, i, out, now, env, n, s.rxPage, v);
    PageCompletes(s1, out, now, env, n);
    acts := FourParts(net, ask, serve, [SendExpires(j)], feed, env);
    RunKeepsShape(net, acts, env, n);
  }

  lemma FourParts(net: Network, a: seq<Action>, b: seq<Action>, c: seq<Action>, d: seq<Action>, env: Platform)
      returns (acts: seq<Action>)
    ensures Exec(net, acts, env) == Exec(Exec(Exec(Exec(net, a, env), b, env), c, env), d, env)
    ensures (&& Disciplined(net, a, env) && Disciplined(Exec(net, a, env), b, env)
             && Disciplined(Exec(Exec(net, a, env), b, env), c, env)
             && Disciplined(Exec(Exec(Exec(net, a, env), b, env), c, env), d, env))
         ==> Disciplined(net, acts, env)
  {
    ExecConcat(net, a, b, env);
    ExecConcat(net, a + b, c, env);
    ExecConcat(net, a + b + c, d, env);
    acts := a + b + c + d;
  }

  /** i has every page of version v and is promoted. */
  ghost predicate Delivered(net: Network, last: Network, i: nat, v: u8, n: nat)
    requires i < |net.nodes|
  {
    && i < |last.nodes| && Whole(last.nodes[i], v, n)
    && last.nodes[i].version == last.nodes[i].updateVersion == net.nodes[i].updateVersion
  }

  /** Progress: from every state in which i misses pages of a version that j holds, a run
      leads to i having every page and being promoted. */
  lemma {:induction false} ObjectCompletes(net: Network, i: nat, j: nat, now: nat, env: Platform, v: u8, n: nat)
      returns (acts: seq<Action>)
    requires Matched(net, i, j, env, v, n) && Holder(net.nodes[j], v, n)
    ensures var last := Exec(net, acts, env);
            && OthersStay(net, last, i, j) && NetShape(last, n) && Disciplined(net, acts, env)
            && Delivered(net, last, i, v, n) && Holder(last.nodes[j], v, n)
    decreases n - net.nodes[i].rxPage
  {
    var s := net.nodes[i];
    acts := PageExchange(net, i, j, now, env, v, n);
    var mid := Exec(net, acts, env);
    var t := mid.nodes[i];
    NextStillMissing(s, t, n);
    if !AllComplete(t.pages) {
      var more := ObjectCompletes(mid, i, j, now, env, v, n);
      ExecConcat(net, acts, more, env);
      acts := acts + more;
    }
  }

  lemma NextStillMissing(s: Node, t: Node, n: nat)
    requires NodeShape(s, n) && s.rxPage < n && !s.pages[s.rxPage].complete && PageDone(s, t, s.rxPage)
    ensures s.rxPage + 1 < n ==> !t.pages[s.rxPage + 1].complete
  {
    if s.rxPage + 1 < n {
      assert PageShape(s.pages[s.rxPage + 1]) && 0 in ALL_PACKETS;
    }
  }

  /** ... and, if the network held right content, i then has exactly the bytes of version v. */
  lemma ObjectDelivered(net: Network, i: nat, j: nat, now: nat, env: Platform, v: u8, n: nat, origin: Origin)
      returns (acts: seq<Action>)
    requires Matched(net, i, j, env, v, n) && Holder(net.nodes[j], v, n)
    requires OriginShape(origin, n) && NetContent(net, origin, n) && v in origin
    ensures var last := Exec(net, acts, env);
            && Delivered(net, last, i, v, n) && last.nodes[i].file == origin[v]
            && OthersStay(net, last, i, j) && NetContent(last, origin, n) && Holder(last.nodes[j], v, n)
  {
    acts := ObjectCompletes(net, i, j, now, env, v, n);
    RunKeepsContent(net, acts, env, origin, n);
    AllHeldIsOrigin(Exec(net, acts, env).nodes[i], origin, v, n);
  }

  lemma AllHeldIsOrigin(s: Node, origin: Origin, v: u8, n: nat)
    requires OriginShape(origin, n) && NodeContent(s, origin, n) && Whole(s, v, n) && v in origin
    ensures s.file == origin[v]
  {
    assert forall p :: 0 <= p < n ==> s.pages[p].complete && s.file[p] == origin[s.pages[p].version][p];
  }
}
