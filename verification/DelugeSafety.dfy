/**
 What every Deluge run keeps: the bytes of complete pages, the promotion of versions, and
 the order of version numbers.  `origin` gives, for each version some node started with,
 the file that carries it.
 */
module DelugeSafety {
  import opened Bytes
  import opened DelugeNode
  import opened DelugeNetwork

  type Origin = map<u8, seq<PageImage>>

  ghost predicate OriginShape(origin: Origin, n: nat) {
    forall v :: v in origin ==> |origin[v]| == n
  }

  // ------------------------------------------------------------------ content

  /** A complete page holds the bytes its version had at the start. */
  ghost predicate PagesHeld(file: seq<PageImage>, pages: seq<Page>, origin: Origin)
    requires |file| == |pages| && OriginShape(origin, |pages|)
  {
    forall i :: 0 <= i < |pages| ==>
      && pages[i].version in origin
      && (pages[i].complete ==> file[i] == origin[pages[i].version][i])
  }

  /** Each set bit of the page being received marks a correct slot of current_page. */
  ghost predicate SlotsHeld(s: Node, origin: Origin)
    requires Sized(s) && OriginShape(origin, |s.pages|)
  {
    s.rxPage < |s.pages| && !s.pages[s.rxPage].complete && s.pages[s.rxPage].version in origin ==>
      forall k :: k in ALL_PACKETS && k in s.pages[s.rxPage].packetSet ==>
        Slot(s.buffer, k) == Slot(origin[s.pages[s.rxPage].version][s.rxPage], k)
  }

  /** Packets waiting for transmission are of a complete page. */
  ghost predicate TxBacked(s: Node) {
    s.txSet * ALL_PACKETS != {} && s.txPage >= 0 ==> s.txPage < |s.pages| && s.pages[s.txPage].complete
  }

  ghost predicate NodeContent(s: Node, origin: Origin, n: nat)
    requires OriginShape(origin, n)
  {
    && NodeShape(s, n)
    && PagesHeld(s.file, s.pages, origin)
    && SlotsHeld(s, origin)
    && TxBacked(s)
  }

  ghost predicate Authentic(m: Msg, origin: Origin, n: nat)
    requires OriginShape(origin, n)
  {
    && MsgShape(m, n)
    && (m.Packet? ==> m.version in origin && m.payload == Slot(origin[m.version][m.pagenum], m.packetnum))
    && (m.Profile? ==> forall i :: 0 <= i < n ==> m.vector[i] in origin)
  }

  ghost predicate NetContent(net: Network, origin: Origin, n: nat)
    requires OriginShape(origin, n)
  {
    && (forall i :: 0 <= i < |net.nodes| ==> NodeContent(net.nodes[i], origin, n))
    && (forall m :: m in net.air ==> Authentic(m, origin, n))
  }

  /** The buffer after an authentic packet is right in every slot received so far. */
  lemma PacketFillsSlot(s: Node, m: Msg, origin: Origin, n: nat, k: nat)
    requires OriginShape(origin, n) && NodeContent(s, origin, n)
    requires m.Packet? && Authentic(m, origin, n) && Accepts(s, m)
    requires k in ALL_PACKETS && (k == m.packetnum || k in s.pages[s.rxPage].packetSet)
    ensures Slot(Splice(s.buffer, m.packetnum, m.payload), k) == Slot(origin[m.version][s.rxPage], k)
  {
    SlotOfSplice(s.buffer, m.packetnum, m.payload, k);
  }

  /** The page table after an accepted packet, given what happened at the cursor. */
  lemma AbsorbedPagesHeld(s: Node, t: Node, origin: Origin, n: nat)
    requires OriginShape(origin, n) && NodeContent(s, origin, n) && s.rxPage < n && !s.pages[s.rxPage].complete
    requires |t.pages| == |t.file| == n && t.pages[s.rxPage].version == s.pages[s.rxPage].version
    requires forall i :: 0 <= i < n && i != s.rxPage ==> t.pages[i] == s.pages[i] && t.file[i] == s.file[i]
    requires t.pages[s.rxPage].complete ==> t.file[s.rxPage] == origin[s.pages[s.rxPage].version][s.rxPage]
    requires t.txSet == s.txSet && t.txPage == s.txPage
    ensures PagesHeld(t.file, t.pages, origin) && TxBacked(t)
  {
  }

  lemma PacketBuffer(s: Node, m: Msg, origin: Origin, n: nat)
    requires OriginShape(origin, n) && NodeContent(s, origin, n)
    requires m.Packet? && Authentic(m, origin, n) && Accepts(s, m)
    ensures var buffer := Splice(s.buffer, m.packetnum, m.payload);
            var received := s.pages[s.rxPage].packetSet + {m.packetnum};
            && (forall k :: k in ALL_PACKETS && k in received ==>
                  Slot(buffer, k) == Slot(origin[m.version][s.rxPage], k))
            && (received == ALL_PACKETS ==> buffer == origin[m.version][s.rxPage])
  {
    var buffer := Splice(s.buffer, m.packetnum, m.payload);
    var received := s.pages[s.rxPage].packetSet + {m.packetnum};
    forall k | k in ALL_PACKETS && k in received
      ensures Slot(buffer, k) == Slot(origin[m.version][s.rxPage], k)
    {
      PacketFillsSlot(s, m, origin, n, k);
    }
    if received == ALL_PACKETS {
      SlotsDeterminePage(buffer, origin[m.version][s.rxPage]);
    }
  }

  lemma PacketKeepsPages(s: Node, m: Msg, now: nat, env: Platform, origin: Origin, n: nat)
    requires OriginShape(origin, n) && NodeContent(s, origin, n)
    requires m.Packet? && Authentic(m, origin, n) && Accepts(s, m)
    ensures var t := OnPacket(s, m, now, env);
            |t.file| == |t.pages| == n && PagesHeld(t.file, t.pages, origin) && TxBacked(t)
  {
    PacketBuffer(s, m, origin, n);
    var t := OnPacket(s, m, now, env);
    AcceptedState(s, t, m, now, env);
    AbsorbedPagesHeld(s, t, origin, n);
  }

  /** The fields an accepted packet leaves behind. */
  lemma AcceptedState(s: Node, t: Node, m: Msg, now: nat, env: Platform)
    requires Sized(s) && m.Packet? && PacketFits(s, m) && Accepts(s, m) && t == OnPacket(s, m, now, env)
    ensures |t.file| == |t.pages| == |s.pages| && t.txSet == s.txSet && t.txPage == s.txPage
    ensures forall i :: 0 <= i < |s.pages| && i != s.rxPage ==> t.pages[i] == s.pages[i] && t.file[i] == s.file[i]
    ensures t.buffer == Splice(s.buffer, m.packetnum, m.payload)
    ensures var p, q := s.pages[s.rxPage], t.pages[s.rxPage];
            && q.version == p.version
            && (q.complete ==>
                  && p.packetSet + {m.packetnum} == ALL_PACKETS
                  && t.file[s.rxPage] == t.buffer && t.rxPage == s.rxPage + 1)
            && (!q.complete ==> t.rxPage == s.rxPage && q.packetSet <= p.packetSet + {m.packetnum})
  {
  }

  lemma PacketKeepsSlots(s: Node, m: Msg, now: nat, env: Platform, origin: Origin, n: nat)
    requires OriginShape(origin, n) && NodeContent(s, origin, n)
    requires m.Packet? && Authentic(m, origin, n) && Accepts(s, m)
    ensures var t := OnPacket(s, m, now, env);
            |t.file| == |t.pages| == n && SlotsHeld(t, origin)
  {
    PacketBuffer(s, m, origin, n);
    var t := OnPacket(s, m, now, env);
    AcceptedState(s, t, m, now, env);
    AcceptedSlots(s, t, m, origin, n);
  }

  lemma AcceptedSlots(s: Node, t: Node, m: Msg, origin: Origin, n: nat)
    requires OriginShape(origin, n) && NodeShape(s, n) && Sized(t) && |t.pages| == n
    requires s.rxPage < n && !s.pages[s.rxPage].complete && s.pages[s.rxPage].version in origin
    requires forall i :: 0 <= i < n && i != s.rxPage ==> t.pages[i] == s.pages[i]
    requires m.Packet? && forall k :: k in ALL_PACKETS && k in s.pages[s.rxPage].packetSet + {m.packetnum} ==>
               Slot(t.buffer, k) == Slot(origin[s.pages[s.rxPage].version][s.rxPage], k)
    requires t.rxPage == if t.pages[s.rxPage].complete then s.rxPage + 1 else s.rxPage
    requires t.pages[s.rxPage].version == s.pages[s.rxPage].version
    requires !t.pages[s.rxPage].complete ==> t.pages[s.rxPage].packetSet <= s.pages[s.rxPage].packetSet + {m.packetnum}
    ensures SlotsHeld(t, origin)
  {
    if t.rxPage == s.rxPage + 1 < n {
      assert s.pages[s.rxPage + 1].packetSet == {};
    }
  }

  lemma PacketKeepsContent(s: Node, m: Msg, now: nat, env: Platform, origin: Origin, n: nat)
    requires OriginShape(origin, n) && NodeContent(s, origin, n) && m.Packet? && Authentic(m, origin, n)
    ensures NodeContent(OnPacket(s, m, now, env), origin, n)
  {
    PacketKeepsShape(s, m, now, env, n);
    if Accepts(s, m) {
      PacketKeepsPages(s, m, now, env, origin, n);
      PacketKeepsSlots(s, m, now, env, origin, n);
    }
  }

  /** An adopted profile resets every page, or none. */
  lemma AdoptionKeepsPages(s: Node, t: Node, m: Msg, origin: Origin, n: nat)
    requires OriginShape(origin, n) && NodeContent(s, origin, n) && m.Profile? && Authentic(m, origin, n)
    requires m.version > s.updateVersion && t == Adopt(s, m)
    ensures |t.file| == |t.pages| == n && PagesHeld(t.file, t.pages, origin) && SlotsHeld(t, origin)
  {
    ProfileLiftsAllOrNone(s, m, n);
    assert t.file == s.file;
    if t.pages == s.pages && !AllComplete(s.pages) {
      SameTable(s.pages, s.rxPage);
    }
  }

  lemma ProfileKeepsContent(s: Node, m: Msg, alloc: bool, origin: Origin, n: nat)
    requires OriginShape(origin, n) && NodeContent(s, origin, n) && m.Profile? && Authentic(m, origin, n)
    ensures NodeContent(OnProfile(s, m, alloc), origin, n)
  {
    ProfileKeepsShape(s, m, alloc, n);
    if m.version > s.updateVersion && !alloc {
      FailureKeepsTable(s, m, n);
    } else if m.version > s.updateVersion {
      AdoptionKeepsPages(s, OnProfile(s, m, alloc), m, origin, n);
    }
  }

  lemma SummaryKeepsContent(s: Node, m: Msg, sender: nat, now: nat, env: Platform, origin: Origin, n: nat)
    requires OriginShape(origin, n) && NodeContent(s, origin, n) && m.Summary? && env.second > 0
    ensures NodeContent(OnSummary(s, m, sender, now, env), origin, n)
  {
    SummaryKeepsShape(s, m, sender, now, env, n);
  }

  // ------------------------------------------------------------------ serving a missing page

  /** The guard of rule M.6 also lets through the first missing page.  Such a request is
      stored for transmission when the page number fits the `int8_t` cursor. */
  ghost predicate ServesMissing(s: Node, m: Msg) {
    && m.Request? && Serves(s, m) && m.requestSet * ALL_PACKETS != {}
    && m.pagenum == HighestAvailable(s.pages) && ToInt8(m.pagenum) >= 0
  }

  lemma ServedState(s: Node, m: Msg, now: nat, n: nat)
    requires NodeShape(s, n) && n <= 255 && m.Request? && Serves(s, m)
    ensures var t := OnRequest(s, m, now);
            && t.file == s.file && |t.pages| == n
            && (forall i :: 0 <= i < n ==> t.pages[i] == s.pages[i].(lastRequest := t.pages[i].lastRequest))
            && (t.txPage >= 0 ==> t.txPage == m.pagenum)
            && (t.txPage >= 0 <==> ToInt8(m.pagenum) >= 0)
  {
    assert m.pagenum < 256;
  }

  /** A request leaves only complete pages queued exactly when it is not for a missing page. */
  lemma RequestBackedIff(s: Node, m: Msg, now: nat, n: nat)
    requires NodeShape(s, n) && n <= 255 && TxBacked(s) && m.Request?
    ensures TxBacked(OnRequest(s, m, now)) <==> !ServesMissing(s, m)
  {
    if Serves(s, m) {
      ServedState(s, m, now, n);
      var t := OnRequest(s, m, now);
      var h := HighestAvailable(s.pages);
      assert t.pages[m.pagenum].complete <==> m.pagenum < h;
    }
  }

  lemma RequestKeepsContent(s: Node, m: Msg, now: nat, origin: Origin, n: nat)
    requires OriginShape(origin, n) && n <= 255 && NodeContent(s, origin, n) && m.Request?
    requires !ServesMissing(s, m)
    ensures NodeContent(OnRequest(s, m, now), origin, n)
  {
    RequestKeepsShape(s, m, now, n);
    RequestBackedIff(s, m, now, n);
    if Serves(s, m) {
      ServedState(s, m, now, n);
    }
  }

  /** One packet read from the file is authentic exactly when its slot is right. */
  lemma PacketAuthenticIff(s: Node, p: nat, k: nat, env: Platform, origin: Origin, n: nat)
    requires OriginShape(origin, n) && NodeShape(s, n) && p < n && k < N_PKT && s.pages[p].version in origin
    ensures Authentic(PacketOf(s, p, k, env), origin, n)
       <==> Slot(s.file[p], k) == Slot(origin[s.pages[p].version][p], k)
  {
  }

  lemma SentPacketsAuthenticIff(s: Node, env: Platform, origin: Origin, n: nat)
    requires OriginShape(origin, n) && NodeShape(s, n) && s.txSet != {} && 0 <= s.txPage
    requires s.pages[s.txPage].version in origin
    ensures (forall m :: m in SendTimer(s, env).1 ==> Authentic(m, origin, n))
      <==> (forall k :: k in ALL_PACKETS && k in s.txSet ==>
              Slot(s.file[s.txPage], k) == Slot(origin[s.pages[s.txPage].version][s.txPage], k))
  {
    var p, out := s.txPage, SendTimer(s, env).1;
    forall k | k in ALL_PACKETS
      ensures Authentic(PacketOf(s, p, k, env), origin, n)
         <==> Slot(s.file[p], k) == Slot(origin[s.pages[p].version][p], k)
    {
      PacketAuthenticIff(s, p, k, env, origin, n);
    }
    assert forall k :: k in ALL_PACKETS && k in s.txSet ==> PacketOf(s, p, k, env) in out;
  }

  /** What a served request puts on the air is authentic exactly when the page was not
      missing, or when the stale file happens to hold the newer bytes already. */
  lemma ServedPacketsAuthenticIff(s: Node, m: Msg, now: nat, env: Platform, origin: Origin, n: nat)
    requires OriginShape(origin, n) && n <= 255 && NodeContent(s, origin, n)
    requires m.Request? && Serves(s, m) && s.txSet == {}
    ensures TxInRange(OnRequest(s, m, now)) && s.pages[m.pagenum].version in origin
    ensures (forall p :: p in SendTimer(OnRequest(s, m, now), env).1 ==> Authentic(p, origin, n))
      <==> (ServesMissing(s, m) ==>
              forall k :: k in ALL_PACKETS && k in m.requestSet ==>
                Slot(s.file[m.pagenum], k) == Slot(origin[s.pages[m.pagenum].version][m.pagenum], k))
  {
    RequestKeepsShape(s, m, now, n);
    ServedState(s, m, now, n);
    var t := OnRequest(s, m, now);
    assert t.txSet == m.requestSet;
    if t.txPage >= 0 && t.txSet != {} {
      SentPacketsAuthenticIff(t, env, origin, n);
      assert forall k :: k in ALL_PACKETS && k in m.requestSet ==> k in m.requestSet * ALL_PACKETS;
      assert m.requestSet * ALL_PACKETS == {} || ServesMissing(s, m) || s.pages[m.pagenum].complete;
    }
  }

  /** In this run no node is handed a request for its own first missing page. */
  ghost predicate Disciplined(net: Network, acts: seq<Action>, env: Platform)
    decreases |acts|
  {
    acts != [] ==>
      && (Possible(net, acts[0], env) && acts[0].Deliver? ==> !ServesMissing(net.nodes[acts[0].node], acts[0].msg))
      && Disciplined(Perform(net, acts[0], env), acts[1..], env)
  }

  lemma DeliveryKeepsContent(s: Node, a: Action, env: Platform, origin: Origin, n: nat)
    requires OriginShape(origin, n) && n <= 255 && NodeContent(s, origin, n) && CanReact(s, a, env)
    requires a.Deliver? && Authentic(a.msg, origin, n) && !ServesMissing(s, a.msg)
    ensures NodeContent(React(s, a, env).0, origin, n)
  {
    match a.msg
    case Summary(_, _) => SummaryKeepsContent(s, a.msg, a.sender, a.now, env, origin, n);
    case Request(_, _, _) => RequestKeepsContent(s, a.msg, a.now, origin, n);
    case Packet(_, _, _, _, _) => PacketKeepsContent(s, a.msg, a.now, env, origin, n);
    case Profile(_, _) => ProfileKeepsContent(s, a.msg, a.alloc, origin, n);
  }

  /** The send timer puts only slots of complete pages on the air. */
  lemma SendKeepsContent(s: Node, env: Platform, origin: Origin, n: nat)
    requires OriginShape(origin, n) && NodeContent(s, origin, n)
    ensures var (t, out) := SendTimer(s, env);
            NodeContent(t, origin, n) && forall m :: m in out ==> Authentic(m, origin, n)
  {
    SendTimerShape(s, env, n);
    if s.txSet != {} && s.txPage >= 0 {
      assert forall k :: k in ALL_PACKETS && k in s.txSet ==> k in s.txSet * ALL_PACKETS;
      SentPacketsAuthenticIff(s, env, origin, n);
    }
  }

  lemma TimerKeepsContent(s: Node, a: Action, env: Platform, origin: Origin, n: nat)
    requires OriginShape(origin, n) && n <= 255 && NodeContent(s, origin, n) && CanReact(s, a, env) && !a.Deliver?
    ensures NodeContent(React(s, a, env).0, origin, n)
    ensures forall m :: m in React(s, a, env).1 ==> Authentic(m, origin, n)
  {
    if a.SendExpires? {
      SendKeepsContent(s, env, origin, n);
    } else {
      TimerKeepsShape(s, a, env, n);
    }
  }

  lemma StepKeepsContent(net: Network, a: Action, env: Platform, origin: Origin, n: nat)
    requires OriginShape(origin, n) && n <= 255 && NetContent(net, origin, n)
    requires Possible(net, a, env) && a.Deliver? ==> !ServesMissing(net.nodes[a.node], a.msg)
    ensures NetContent(Perform(net, a, env), origin, n)
  {
    if Possible(net, a, env) {
      if a.Deliver? {
        DeliveryKeepsContent(net.nodes[a.node], a, env, origin, n);
      } else {
        TimerKeepsContent(net.nodes[a.node], a, env, origin, n);
      }
    }
  }

  lemma {:induction false} RunKeepsContent(net: Network, acts: seq<Action>, env: Platform, origin: Origin, n: nat)
    requires OriginShape(origin, n) && n <= 255 && NetContent(net, origin, n) && Disciplined(net, acts, env)
    ensures NetContent(Exec(net, acts, env), origin, n)
    decreases |acts|
  {
    if acts != [] {
      StepKeepsContent(net, acts[0], env, origin, n);
      RunKeepsContent(Perform(net, acts[0], env), acts[1..], env, origin, n);
    }
  }

  // ------------------------------------------------------------------ main theorems

  /** Nodes that start with the same version start with the same bytes. */
  ghost predicate Coherent(files: seq<seq<PageImage>>, versions: seq<u8>, n: nat) {
    && |files| == |versions|
    && (forall i :: 0 <= i < |files| ==> |files[i]| == n)
    && (forall i, j :: 0 <= i < |files| && 0 <= j < |files| && versions[i] == versions[j] ==> files[i] == files[j])
  }

  ghost predicate OriginOf(origin: Origin, files: seq<seq<PageImage>>, versions: seq<u8>) {
    && |files| == |versions|
    && (forall i :: 0 <= i < |files| ==> versions[i] in origin && origin[versions[i]] == files[i])
    && (forall v :: v in origin ==> exists j :: 0 <= j < |files| && versions[j] == v && origin[v] == files[j])
  }

  lemma {:induction false} CoherentOrigin(files: seq<seq<PageImage>>, versions: seq<u8>, n: nat)
      returns (origin: Origin)
    requires Coherent(files, versions, n)
    ensures OriginOf(origin, files, versions) && OriginShape(origin, n)
    decreases |files|
  {
    if files == [] {
      origin := map[];
    } else {
      var last := |files| - 1;
      var smaller := CoherentOrigin(files[..last], versions[..last], n);
      origin := smaller[versions[last] := files[last]];
      forall i | 0 <= i < |files|
        ensures versions[i] in origin && origin[versions[i]] == files[i]
      {
        if i < last {
          assert files[..last][i] == files[i] && versions[..last][i] == versions[i];
        }
      }
      forall v | v in origin
        ensures exists j :: 0 <= j < |files| && versions[j] == v && origin[v] == files[j]
      {
        if v == versions[last] {
          assert origin[v] == files[last];
        } else {
          var j :| 0 <= j < last && versions[..last][j] == v && smaller[v] == files[..last][j];
          assert versions[j] == v && origin[v] == files[j];
        }
      }
    }
  }

  lemma StartHasContent(files: seq<seq<PageImage>>, versions: seq<u8>, n: nat, origin: Origin)
    requires Coherent(files, versions, n) && OriginOf(origin, files, versions) && OriginShape(origin, n)
    ensures NetContent(Start(files, versions), origin, n)
  {
    StartHasShape(files, versions, n);
  }

  /** A complete page of a node that holds `origin` content comes from one of the files. */
  lemma HeldFromFile(s: Node, origin: Origin, files: seq<seq<PageImage>>, versions: seq<u8>, n: nat, p: nat)
    requires OriginShape(origin, n) && OriginOf(origin, files, versions) && NodeContent(s, origin, n)
    requires p < |s.pages| && s.pages[p].complete && forall j :: 0 <= j < |files| ==> |files[j]| == n
    ensures p < |s.file| && p < n
    ensures exists j :: 0 <= j < |files| && versions[j] == s.pages[p].version && s.file[p] == files[j][p]
  {
    var v := s.pages[p].version;
    var j :| 0 <= j < |files| && versions[j] == v && origin[v] == files[j];
    assert s.file[p] == files[j][p];
  }

  /** Content safety: in every disciplined run from a coherent start, every complete page of
      every node holds the bytes that some node started with for that page and version. */
  lemma ContentSafety(files: seq<seq<PageImage>>, versions: seq<u8>, n: nat,
                      acts: seq<Action>, env: Platform, i: nat, p: nat)
    requires Coherent(files, versions, n) && n <= 255
    requires Disciplined(Start(files, versions), acts, env)
    requires i < |Exec(Start(files, versions), acts, env).nodes|
    requires p < |Exec(Start(files, versions), acts, env).nodes[i].pages|
    requires Exec(Start(files, versions), acts, env).nodes[i].pages[p].complete
    ensures var s := Exec(Start(files, versions), acts, env).nodes[i];
            && p < |s.file| && p < n
            && exists j :: 0 <= j < |files| && versions[j] == s.pages[p].version && s.file[p] == files[j][p]
  {
    var origin := CoherentOrigin(files, versions, n);
    StartHasContent(files, versions, n, origin);
    RunKeepsContent(Start(files, versions), acts, env, origin, n);
    HeldFromFile(Exec(Start(files, versions), acts, env).nodes[i], origin, files, versions, n, p);
  }

  lemma PacketPromotes(s: Node, m: Msg, now: nat, env: Platform, n: nat)
    requires NodeShape(s, n) && m.Packet? && MsgShape(m, n)
    ensures var t := OnPacket(s, m, now, env);
            t.version != s.version ==> t.version == s.updateVersion == t.updateVersion && AllComplete(t.pages)
  {
    if Accepts(s, m) && m.crc == env.crc(m.payload) {
      AbsorbedState(s, m, now, env);
      assert forall j :: 0 <= j < s.rxPage ==> s.pages[j].complete;
    }
  }

  lemma OthersKeepVersion(s: Node, a: Action, env: Platform)
    requires CanReact(s, a, env) && !(a.Deliver? && a.msg.Packet?)
    ensures React(s, a, env).0.version == s.version
  {
  }

  /** Promotion: a node's version moves only to its update version, and only in a step that
      leaves every page complete. */
  lemma PromotionStep(net: Network, a: Action, env: Platform, n: nat, i: nat)
    requires NetShape(net, n) && i < |net.nodes|
    ensures var s, t := net.nodes[i], Perform(net, a, env).nodes[i];
            t.version != s.version ==> t.version == s.updateVersion == t.updateVersion && AllComplete(t.pages)
  {
    if Possible(net, a, env) && a.node == i {
      if a.Deliver? && a.msg.Packet? {
        PacketPromotes(net.nodes[i], a.msg, a.now, env, n);
      } else {
        OthersKeepVersion(net.nodes[i], a, env);
      }
    }
  }

  /** Promotion: in every reachable state the pages below the receive cursor are complete, a
      page is complete exactly when all its packets are in, and version <= update version <=
      page version. */
  lemma PromotionInvariant(files: seq<seq<PageImage>>, versions: seq<u8>, n: nat,
                           acts: seq<Action>, env: Platform, i: nat)
    requires |files| == |versions| && forall j :: 0 <= j < |files| ==> |files[j]| == n
    requires i < |Exec(Start(files, versions), acts, env).nodes|
    ensures var s := Exec(Start(files, versions), acts, env).nodes[i];
            && |s.pages| == n && s.rxPage <= n
            && (forall p :: 0 <= p < s.rxPage ==> s.pages[p].complete)
            && (forall p :: 0 <= p < n ==> (s.pages[p].complete <==> s.pages[p].packetSet == ALL_PACKETS))
            && s.version <= s.updateVersion
            && (forall p :: 0 <= p < n ==> s.updateVersion <= s.pages[p].version)
  {
    StartHasShape(files, versions, n);
    RunKeepsShape(Start(files, versions), acts, env, n);
    var s := Exec(Start(files, versions), acts, env).nodes[i];
    assert NodeShape(s, n);
    assert forall p :: 0 <= p < n ==> PageShape(s.pages[p]);
  }

  /** Uniformity: all page versions of a node agree, and so do those of every profile sent. */
  lemma Uniformity(files: seq<seq<PageImage>>, versions: seq<u8>, n: nat, acts: seq<Action>, env: Platform)
    requires |files| == |versions| && forall j :: 0 <= j < |files| ==> |files[j]| == n
    ensures var net := Exec(Start(files, versions), acts, env);
            && (forall i :: 0 <= i < |net.nodes| ==> UniformPages(net.nodes[i].pages))
            && (forall m :: m in net.air && m.Profile? ==> UniformVector(m.vector))
  {
    StartHasShape(files, versions, n);
    RunKeepsShape(Start(files, versions), acts, env, n);
    var net := Exec(Start(files, versions), acts, env);
    assert forall i :: 0 <= i < |net.nodes| ==> NodeShape(net.nodes[i], n);
    assert forall m :: m in net.air ==> MsgShape(m, n);
  }

  /** t is a later state of the node s: no version number went down. */
  ghost predicate NotOlder(s: Node, t: Node) {
    && s.version <= t.version && s.updateVersion <= t.updateVersion
    && |s.pages| == |t.pages|
    && forall p :: 0 <= p < |s.pages| ==> s.pages[p].version <= t.pages[p].version
  }

  lemma RequestNotOlder(s: Node, m: Msg, now: nat, n: nat)
    requires NodeShape(s, n) && m.Request?
    ensures NotOlder(s, OnRequest(s, m, now))
  {
  }

  lemma PacketNotOlder(s: Node, m: Msg, now: nat, env: Platform, n: nat)
    requires NodeShape(s, n) && m.Packet? && MsgShape(m, n)
    ensures NotOlder(s, OnPacket(s, m, now, env))
  {
  }

  lemma SummaryNotOlder(s: Node, m: Msg, sender: nat, now: nat, env: Platform)
    requires m.Summary? && env.second > 0
    ensures NotOlder(s, OnSummary(s, m, sender, now, env))
  {
  }

  lemma ProfileNotOlder(s: Node, m: Msg, alloc: bool, n: nat)
    requires NodeShape(s, n) && m.Profile? && MsgShape(m, n)
    ensures NotOlder(s, OnProfile(s, m, alloc))
  {
    if m.version > s.updateVersion && !alloc {
      FailureKeepsTable(s, m, n);
    }
  }

  lemma TimerNotOlder(s: Node, a: Action, env: Platform)
    requires CanReact(s, a, env) && !a.Deliver?
    ensures NotOlder(s, React(s, a, env).0)
  {
  }

  lemma ReactNotOlder(s: Node, a: Action, env: Platform, n: nat)
    requires NodeShape(s, n) && CanReact(s, a, env)
    requires a.Deliver? ==> MsgShape(a.msg, n)
    ensures NotOlder(s, React(s, a, env).0)
  {
    if a.Deliver? {
      match a.msg
      case Summary(_, _) => SummaryNotOlder(s, a.msg, a.sender, a.now, env);
      case Request(_, _, _) => RequestNotOlder(s, a.msg, a.now, n);
      case Packet(_, _, _, _, _) => PacketNotOlder(s, a.msg, a.now, env, n);
      case Profile(_, _) => ProfileNotOlder(s, a.msg, a.alloc, n);
    } else {
      TimerNotOlder(s, a, env);
    }
  }

  /** Monotonicity: along any run version numbers never decrease and messages never vanish. */
  lemma {:induction false} Monotonicity(net: Network, acts: seq<Action>, env: Platform, n: nat)
    requires NetShape(net, n)
    ensures var last := Exec(net, acts, env);
            && |last.nodes| == |net.nodes| && net.air <= last.air
            && forall i :: 0 <= i < |net.nodes| ==> NotOlder(net.nodes[i], last.nodes[i])
    decreases |acts|
  {
    if acts != [] {
      var a := acts[0];
      var next := Perform(net, a, env);
      if Possible(net, a, env) {
        ReactNotOlder(net.nodes[a.node], a, env, n);
      }
      StepKeepsShape(net, a, env, n);
      Monotonicity(next, acts[1..], env, n);
      assert forall i :: 0 <= i < |net.nodes| ==> NotOlder(net.nodes[i], next.nodes[i]);
      var last := Exec(net, acts, env);
      forall i | 0 <= i < |net.nodes|
        ensures NotOlder(net.nodes[i], last.nodes[i])
      {
        assert NotOlder(next.nodes[i], last.nodes[i]);
      }
    }
  }

  // ------------------------------------------------------------------ damaged packets

  /** The payload is copied before its CRC is tested.  A packet that then fails the test
      keeps the slots correct exactly when its slot was not received yet, or when the payload
      is right after all. */
  lemma DamagedPacketIff(s: Node, m: Msg, now: nat, env: Platform, origin: Origin, n: nat)
    requires OriginShape(origin, n) && NodeContent(s, origin, n)
    requires m.Packet? && MsgShape(m, n) && Accepts(s, m) && m.crc != env.crc(m.payload)
    ensures m.version in origin
    ensures SlotsHeld(OnPacket(s, m, now, env), origin)
      <==> (m.packetnum in s.pages[m.pagenum].packetSet ==>
              m.payload == Slot(origin[m.version][m.pagenum], m.packetnum))
  {
    var t := OnPacket(s, m, now, env);
    assert m.packetnum in ALL_PACKETS;
    forall k | k in ALL_PACKETS
      ensures Slot(t.buffer, k) == if k == m.packetnum then m.payload else Slot(s.buffer, k)
    {
      SlotOfSplice(s.buffer, m.packetnum, m.payload, k);
    }
  }
}
