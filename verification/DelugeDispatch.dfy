/**
 What the length test of command_dispatcher (apps/deluge/deluge.c:607-611), as it is written,
 makes of the protocol: only the update from version 0 to version 1 is ever adopted, and no
 request then reaches data of a missing page, so content safety needs no further condition.
 */
module DelugeDispatch {
  import opened Bytes
  import opened DelugeNode
  import opened DelugeNetwork
  import opened DelugeSafety

  // ------------------------------------------------------------------ two stages of a node

  ghost predicate AllOf(pages: seq<Page>, v: u8) {
    forall i :: 0 <= i < |pages| ==> pages[i].version == v
  }

  /** No data slot waits for transmission. */
  ghost predicate Silent(s: Node) {
    s.txSet * ALL_PACKETS == {}
  }

  /** The node holds the whole object in its one version. */
  ghost predicate Settled(s: Node) {
    AllComplete(s.pages) && AllOf(s.pages, s.version) && s.updateVersion == s.version
  }

  /** The node gave up version 0 and misses pages of version 1. */
  ghost predicate Updating(s: Node) {
    !AllComplete(s.pages) && AllOf(s.pages, 1) && s.version == 0 && s.updateVersion == 1
  }

  ghost predicate Stage(s: Node, n: nat) {
    NodeShape(s, n) && n > 0 && (Settled(s) || Updating(s)) && (s.version == 0 ==> Silent(s))
  }

  /** A request for version 0 asks for no data slot. */
  ghost predicate MsgStage(m: Msg, n: nat) {
    MsgShape(m, n) && (m.Request? && m.pagenum < n && m.version == 0 ==> m.requestSet * ALL_PACKETS == {})
  }

  ghost predicate NetStage(net: Network, n: nat) {
    && (forall i :: 0 <= i < |net.nodes| ==> Stage(net.nodes[i], n))
    && (forall m :: m in net.air ==> MsgStage(m, n))
  }

  /** No message of such a run asks for data of the receiver's first missing page. */
  lemma NeverServesMissing(s: Node, m: Msg, n: nat)
    requires Stage(s, n) && MsgStage(m, n)
    ensures !ServesMissing(s, m)
  {
    if Settled(s) {
      HighestAvailableIs(s.pages, n);
    }
  }

  lemma RequestKeepsStage(s: Node, m: Msg, now: nat, n: nat)
    requires Stage(s, n) && m.Request? && MsgStage(m, n)
    ensures Stage(OnRequest(s, m, now), n)
  {
    RequestKeepsShape(s, m, now, n);
    if Serves(s, m) {
      var t := OnRequest(s, m, now);
      ServedFields(s, t, m, now);
      QueuedStage(s, t, m, n);
    }
  }

  lemma ServedFields(s: Node, t: Node, m: Msg, now: nat)
    requires m.Request? && Serves(s, m) && t == OnRequest(s, m, now)
    ensures t.version == s.version && t.updateVersion == s.updateVersion && |t.pages| == |s.pages|
    ensures forall i :: 0 <= i < |s.pages| ==>
              t.pages[i].version == s.pages[i].version && t.pages[i].complete == s.pages[i].complete
    ensures t.txSet == m.requestSet || t.txSet == s.txSet + m.requestSet
  {
  }

  lemma QueuedStage(s: Node, t: Node, m: Msg, n: nat)
    requires Stage(s, n) && m.Request? && MsgStage(m, n) && m.pagenum < n && m.version == s.version && NodeShape(t, n)
    requires t.version == s.version && t.updateVersion == s.updateVersion
    requires forall i :: 0 <= i < n ==>
               t.pages[i].version == s.pages[i].version && t.pages[i].complete == s.pages[i].complete
    requires t.txSet == m.requestSet || t.txSet == s.txSet + m.requestSet
    ensures Stage(t, n)
  {
    assert (s.txSet + m.requestSet) * ALL_PACKETS == s.txSet * ALL_PACKETS + m.requestSet * ALL_PACKETS;
    assert AllComplete(t.pages) <==> AllComplete(s.pages);
  }

  lemma SummaryKeepsStage(s: Node, m: Msg, sender: nat, now: nat, env: Platform, n: nat)
    requires Stage(s, n) && m.Summary? && env.second > 0
    ensures Stage(OnSummary(s, m, sender, now, env), n)
  {
    SummarySameObject(s, m, sender, now, env);
    SameStage(s, OnSummary(s, m, sender, now, env), n);
  }

  lemma SameStage(s: Node, t: Node, n: nat)
    requires Stage(s, n) && SameObject(s, t)
    ensures Stage(t, n)
  {
  }

  lemma PacketKeepsStage(s: Node, m: Msg, now: nat, env: Platform, n: nat)
    requires Stage(s, n) && m.Packet? && MsgShape(m, n)
    ensures Stage(OnPacket(s, m, now, env), n)
  {
    PacketKeepsShape(s, m, now, env, n);
    if Accepts(s, m) && m.crc == env.crc(m.payload) {
      AbsorbedState(s, m, now, env);
      AbsorbedStage(s, OnPacket(s, m, now, env), m, now, n);
    }
  }

  /** Completing the last missing page promotes the node; no other page does. */
  lemma AbsorbedStage(s: Node, t: Node, m: Msg, now: nat, n: nat)
    requires Stage(s, n) && m.Packet? && s.rxPage < n && !s.pages[s.rxPage].complete && NodeShape(t, n)
    requires t.pages == s.pages[s.rxPage := ReceivedPage(s.pages[s.rxPage], m, now)]
    requires t.version == if t.pages[s.rxPage].complete && s.rxPage == n - 1 then s.updateVersion else s.version
    requires t.updateVersion == s.updateVersion && t.txSet == s.txSet
    ensures Stage(t, n)
  {
    assert AllOf(t.pages, 1);
    if s.rxPage < n - 1 {
      assert PageShape(s.pages[s.rxPage + 1]) && 0 in ALL_PACKETS;
      assert !t.pages[s.rxPage + 1].complete;
    }
  }

  /** The only profile that passes and is adopted takes a node from version 0 to version 1. */
  lemma AdoptedIsFirst(s: Node, m: Msg, env: Platform, n: nat)
    requires Stage(s, n) && m.Profile? && MsgShape(m, n) && env.dispatch.AsWritten?
    requires Passes(m, env) && m.version > s.updateVersion
    ensures Settled(s) && s.version == 0 && m.version == 1
    ensures forall i :: 0 <= i < n ==> m.vector[i] == 1
  {
    ProfilePassesIff(m, env);
  }

  lemma ProfileKeepsStage(s: Node, m: Msg, alloc: bool, env: Platform, n: nat)
    requires Stage(s, n) && m.Profile? && MsgShape(m, n) && env.dispatch.AsWritten? && Passes(m, env)
    ensures Stage(OnProfile(s, m, alloc), n)
  {
    ProfileKeepsShape(s, m, alloc, n);
    if m.version > s.updateVersion {
      AdoptedIsFirst(s, m, env, n);
      if alloc {
        AdoptedStage(s, OnProfile(s, m, alloc), m, n);
      } else {
        FailureKeepsTable(s, m, n);
      }
    }
  }

  lemma AdoptedStage(s: Node, t: Node, m: Msg, n: nat)
    requires Stage(s, n) && Settled(s) && s.version == 0 && m.Profile? && m.version == 1 && |m.vector| == n
    requires forall i :: 0 <= i < n ==> m.vector[i] == 1
    requires t == Adopt(s, m) && NodeShape(t, n)
    ensures Stage(t, n) && Updating(t)
  {
    assert !t.pages[0].complete;
  }

  lemma MessageKeepsStage(s: Node, m: Msg, sender: nat, now: nat, alloc: bool, env: Platform, n: nat)
    requires Stage(s, n) && MsgStage(m, n) && Fits(s, m, alloc) && env.second > 0 && env.dispatch.AsWritten?
    ensures Stage(OnMessage(s, m, sender, now, alloc, env), n)
  {
    match m
    case Summary(_, _) => SummaryKeepsStage(s, m, sender, now, env, n);
    case Request(_, _, _) => RequestKeepsStage(s, m, now, n);
    case Packet(_, _, _, _, _) => PacketKeepsStage(s, m, now, env, n);
    case Profile(_, _) =>
      if Passes(m, env) {
        ProfileKeepsStage(s, m, alloc, env, n);
      }
  }

  /** A node that holds version 0 has all pages, so its request asks for none of the data slots. */
  lemma RequestTimerStage(s: Node, behind: Page, n: nat)
    requires Stage(s, n)
    ensures var (t, out) := RequestTimer(s, behind);
            Stage(t, n) && forall m :: m in out ==> MsgStage(m, n)
  {
    RequestTimerShape(s, behind, n);
    if s.rxPage < n {
      assert PageShape(s.pages[s.rxPage]);
      assert (EIGHT_BITS - ALL_PACKETS) * ALL_PACKETS == {};
    }
  }

  lemma TimerKeepsStage(s: Node, a: Action, env: Platform, n: nat)
    requires Stage(s, n) && CanReact(s, a, env) && !a.Deliver?
    ensures Stage(React(s, a, env).0, n)
    ensures forall m :: m in React(s, a, env).1 ==> MsgStage(m, n)
  {
    if a.RequestExpires? {
      RequestTimerStage(s, a.behind, n);
    } else {
      TimerKeepsShape(s, a, env, n);
      var t := React(s, a, env).0;
      assert t.pages == s.pages && t.version == s.version && t.updateVersion == s.updateVersion;
    }
  }

  lemma StepKeepsStage(net: Network, a: Action, env: Platform, n: nat)
    requires NetStage(net, n) && env.dispatch.AsWritten?
    ensures NetStage(Perform(net, a, env), n)
    ensures Possible(net, a, env) && a.Deliver? ==> !ServesMissing(net.nodes[a.node], a.msg)
  {
    if Possible(net, a, env) {
      if a.Deliver? {
        NeverServesMissing(net.nodes[a.node], a.msg, n);
        MessageKeepsStage(net.nodes[a.node], a.msg, a.sender, a.now, a.alloc, env, n);
      } else {
        TimerKeepsStage(net.nodes[a.node], a, env, n);
      }
    }
  }

  lemma {:induction false} RunKeepsStage(net: Network, acts: seq<Action>, env: Platform, n: nat)
    requires NetStage(net, n) && env.dispatch.AsWritten?
    ensures NetStage(Exec(net, acts, env), n) && Disciplined(net, acts, env)
    decreases |acts|
  {
    if acts != [] {
      StepKeepsStage(net, acts[0], env, n);
      RunKeepsStage(Perform(net, acts[0], env), acts[1..], env, n);
    }
  }

  lemma StartStage(files: seq<seq<PageImage>>, versions: seq<u8>, n: nat)
    requires |files| == |versions| && n > 0 && forall i :: 0 <= i < |files| ==> |files[i]| == n
    ensures NetStage(Start(files, versions), n)
  {
    StartHasShape(files, versions, n);
  }

  // ------------------------------------------------------------------ main theorems

  lemma TableLength(files: seq<seq<PageImage>>, versions: seq<u8>, n: nat, acts: seq<Action>, env: Platform, i: nat)
    requires |files| == |versions| && forall j :: 0 <= j < |files| ==> |files[j]| == n
    requires i < |Exec(Start(files, versions), acts, env).nodes|
    ensures |Exec(Start(files, versions), acts, env).nodes[i].pages| == n
  {
    StartHasShape(files, versions, n);
    RunKeepsShape(Start(files, versions), acts, env, n);
    assert NodeShape(Exec(Start(files, versions), acts, env).nodes[i], n);
  }

  /** With the dispatcher as it is written, content safety holds in every run. */
  lemma DispatchedSafety(files: seq<seq<PageImage>>, versions: seq<u8>, n: nat,
                         acts: seq<Action>, env: Platform, i: nat, p: nat)
    requires Coherent(files, versions, n) && n <= 255 && env.dispatch.AsWritten?
    requires i < |Exec(Start(files, versions), acts, env).nodes|
    requires p < |Exec(Start(files, versions), acts, env).nodes[i].pages|
    requires Exec(Start(files, versions), acts, env).nodes[i].pages[p].complete
    ensures var s := Exec(Start(files, versions), acts, env).nodes[i];
            && p < |s.file| && p < n
            && exists j :: 0 <= j < |files| && versions[j] == s.pages[p].version && s.file[p] == files[j][p]
  {
    TableLength(files, versions, n, acts, env, i);
    StartStage(files, versions, n);
    RunKeepsStage(Start(files, versions), acts, env, n);
    ContentSafety(files, versions, n, acts, env, i, p);
  }

  /** Only an adopted profile changes the update version. */
  lemma OnlyProfilesUpdate(s: Node, a: Action, env: Platform)
    requires CanReact(s, a, env) && React(s, a, env).0.updateVersion != s.updateVersion
    ensures a.Deliver? && a.msg.Profile? && Passes(a.msg, env) && a.msg.version > s.updateVersion
    ensures React(s, a, env).0.updateVersion == a.msg.version
  {
  }

  /** ... and an update version changes only from 0 to 1. */
  lemma UpdatesOnlyToFirst(net: Network, a: Action, env: Platform, n: nat, i: nat)
    requires NetStage(net, n) && env.dispatch.AsWritten? && i < |net.nodes|
    ensures var s, t := net.nodes[i], Perform(net, a, env).nodes[i];
            t.updateVersion != s.updateVersion ==> s.updateVersion == 0 && t.updateVersion == 1
  {
    if Perform(net, a, env).nodes[i].updateVersion != net.nodes[i].updateVersion {
      assert Possible(net, a, env) && a.node == i;
      OnlyProfilesUpdate(net.nodes[i], a, env);
      AdoptedIsFirst(net.nodes[i], a.msg, env, n);
    }
  }

  /** In every reachable state a node has its first version, or 1 in place of 0. */
  lemma {:induction false} VersionsStay(net: Network, acts: seq<Action>, env: Platform, n: nat, i: nat)
    requires NetStage(net, n) && env.dispatch.AsWritten? && i < |net.nodes|
    ensures var s, t := net.nodes[i], Exec(net, acts, env);
            && i < |t.nodes|
            && (t.nodes[i].updateVersion == s.updateVersion || (s.updateVersion == 0 && t.nodes[i].updateVersion == 1))
    decreases |acts|
  {
    if acts != [] {
      StepKeepsStage(net, acts[0], env, n);
      UpdatesOnlyToFirst(net, acts[0], env, n, i);
      VersionsStay(Perform(net, acts[0], env), acts[1..], env, n, i);
    }
  }
}
