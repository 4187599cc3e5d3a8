/**
 The handlers behind a dispatcher that lets every profile of the length send_profile sends
 through.  Then the `<=` of rule M.6 (apps/deluge/deluge.c:415) breaks content safety: in a
 run of three nodes, one that has already adopted version 2, but still holds the bytes of
 version 1, serves an old request and labels the stale bytes with version 2.  The dispatcher
 as it is written drops the profile this needs; see DelugeDispatch.
 */
module DelugeStaleServe {
  import opened Bytes
  import opened DelugeNode
  import opened DelugeNetwork
  import opened DelugeSafety

  const ENV := Platform(_ => 0, 1, ByLength)

  function Image(v: u8): PageImage {
    seq(S_PAGE, _ => v)
  }

  const FILES: seq<seq<PageImage>> := [[Image(0)], [Image(1)], [Image(2)]]
  const VERSIONS: seq<u8> := [0, 1, 2]

  const S0 := Summary(0, 1)
  const S1 := Summary(1, 1)
  const P1 := Profile(1, [1])
  const P2 := Profile(2, [2])
  const R1 := Request(1, 0, EIGHT_BITS)

  function Stale(k: nat): Msg
    requires k < N_PKT
  {
    Packet(2, 0, k, 0, Slot(Image(1), k))
  }

  /** Some run from the three start files leads to this network. */
  ghost predicate Reachable(net: Network) {
    exists acts :: Exec(Start(FILES, VERSIONS), acts, ENV) == net
  }

  lemma {:induction false} ExecThen(net: Network, acts: seq<Action>, a: Action, env: Platform)
    ensures Exec(net, acts + [a], env) == Perform(Exec(net, acts, env), a, env)
    decreases |acts|
  {
    if acts == [] {
      assert acts + [a] == [a];
      assert Exec(Perform(net, a, env), [], env) == Perform(net, a, env);
    } else {
      assert (acts + [a])[1..] == acts[1..] + [a];
      ExecThen(Perform(net, acts[0], env), acts[1..], a, env);
    }
  }

  lemma Advance(net: Network, a: Action, s: Node, out: seq<Msg>, after: Network)
    requires Reachable(net) && Possible(net, a, ENV) && React(net.nodes[a.node], a, ENV) == (s, out)
    requires after == Network(net.nodes[a.node := s], net.air + (set m | m in out))
    ensures Reachable(after)
  {
    var acts :| Exec(Start(FILES, VERSIONS), acts, ENV) == net;
    ExecThen(Start(FILES, VERSIONS), acts, a, ENV);
  }

  const MISSING: Page := Page(0, {}, false, 0, 0)

  const D1: Node := InitObject(FILES[0], 0).(pages := [MISSING.(version := 1)], updateVersion := 1, phase := Rx)
  const D2: Node := D1.(inconsistent := true, summaryFrom := 1)
  const D3: Node := D2.(requests := 1)
  const D4: Node := D3.(pages := [MISSING.(version := 2)], updateVersion := 2)
  const A2: Node := InitObject(FILES[1], 1).(inconsistent := true, oldSummary := true)
  const A3: Node := A2.(pages := [MISSING.(version := 2)], updateVersion := 2, phase := Rx)
  const A4: Node := A3.(pages := [MISSING.(version := 2, lastRequest := 100)], phase := Tx, txSet := EIGHT_BITS)
  const A5: Node := A4.(phase := Maintain, txSet := {}, txPage := -1)
  const C1: Node := InitObject(FILES[2], 2).(inconsistent := true, oldSummary := true, profileDue := true)
  const C2: Node := C1.(profileDue := false)

  lemma HeldTable(file: seq<PageImage>, v: u8)
    requires |file| == 1
    ensures InitObject(file, v).pages == [HeldPage(v)] && HighestAvailable([HeldPage(v)]) == 1
  {
  }

  lemma AdoptsProfile1()
    ensures OnProfile(InitObject(FILES[0], 0), P1, true) == D1
  {
    HeldTable(FILES[0], 0);
    assert MergedPages([HeldPage(0)], [1]) == [MISSING.(version := 1)];
    assert ResizedFile(FILES[0], 1) == FILES[0];
  }

  lemma HearsSummary1()
    ensures OnSummary(D1, S1, 1, 100, ENV) == D2
  {
    assert HighestAvailable(D1.pages) == 0;
    assert Oldest(D1.pages, 0, 100) == (100, 100);
    assert Oldest(D1.pages, 1, 100) == (0, 0);
  }

  lemma HearsSummary0(file: seq<PageImage>, v: u8)
    requires |file| == 1 && v > 0
    ensures var s := InitObject(file, v);
            OnSummary(s, S0, 0, 0, ENV) == s.(inconsistent := true, oldSummary := true, profileDue := true)
  {
    HeldTable(file, v);
  }

  const D0: Node := InitObject(FILES[0], 0)
  const A0: Node := InitObject(FILES[1], 1)
  const C0: Node := InitObject(FILES[2], 2)
  const A1: Node := A2.(profileDue := true)

  /** Nodes 1 and 2 hear that node 0 still has version 0. */
  lemma Run1()
    ensures Reachable(Network([D0, A1, C1], {S0}))
  {
    var n0 := Start(FILES, VERSIONS);
    assert n0 == Network([D0, A0, C0], {});
    assert Exec(n0, [], ENV) == n0;
    HeldTable(FILES[0], 0);
    var n1 := Network([D0, A0, C0], {S0});
    Advance(n0, SummaryExpires(0), D0, [S0], n1);
    HearsSummary0(FILES[1], 1);
    var n2 := Network([D0, A1, C0], {S0});
    Advance(n1, Deliver(1, S0, 0, 0, true), A1, [], n2);
    HearsSummary0(FILES[2], 2);
    Advance(n2, Deliver(2, S0, 0, 0, true), C1, [], Network([D0, A1, C1], {S0}));
  }

  /** Node 0 adopts the profile of version 1. */
  lemma Run2()
    ensures Reachable(Network([D1, A2, C1], {S0, P1}))
  {
    Run1();
    HeldTable(FILES[1], 1);
    assert Versions([HeldPage(1)]) == [1];
    var n1 := Network([D0, A2, C1], {S0, P1});
    Advance(Network([D0, A1, C1], {S0}), ProfileExpires(1), A2, [P1], n1);
    AdoptsProfile1();
    Advance(n1, Deliver(0, P1, 1, 0, true), D1, [], Network([D1, A2, C1], {S0, P1}));
  }

  /** Node 0 picks node 1 and asks it for page 0 of version 1. */
  lemma Run3()
    ensures Reachable(Network([D3, A2, C1], {S0, P1, S1, R1}))
  {
    Run2();
    HeldTable(FILES[1], 1);
    var n1 := Network([D1, A2, C1], {S0, P1, S1});
    Advance(Network([D1, A2, C1], {S0, P1}), SummaryExpires(1), A2, [S1], n1);
    HearsSummary1();
    var n2 := Network([D2, A2, C1], {S0, P1, S1});
    Advance(n1, Deliver(0, S1, 1, 100, true), D2, [], n2);
    assert EIGHT_BITS - D2.pages[0].packetSet == EIGHT_BITS;
    Advance(n2, RequestExpires(0, MISSING), D3, [R1], Network([D3, A2, C1], {S0, P1, S1, R1}));
  }

  lemma AdoptProfile2()
    ensures OnProfile(A2, P2, true) == A3 && OnProfile(D3, P2, true) == D4
  {
    HeldTable(FILES[1], 1);
    assert MergedPages([HeldPage(1)], [2]) == [MISSING.(version := 2)];
    assert MergedPages([MISSING.(version := 1)], [2]) == [MISSING.(version := 2)];
    assert ResizedFile(FILES[1], 1) == FILES[1] && ResizedFile(FILES[0], 1) == FILES[0];
  }

  /** Version 2 overtakes: nodes 1 and 0 adopt its profile. */
  lemma Run4()
    ensures Reachable(Network([D4, A3, C2], {S0, P1, S1, R1, P2}))
  {
    Run3();
    HeldTable(FILES[2], 2);
    assert Versions([HeldPage(2)]) == [2];
    var air := {S0, P1, S1, R1, P2};
    var n1 := Network([D3, A2, C2], air);
    Advance(Network([D3, A2, C1], {S0, P1, S1, R1}), ProfileExpires(2), C2, [P2], n1);
    AdoptProfile2();
    var n2 := Network([D3, A3, C2], air);
    Advance(n1, Deliver(1, P2, 2, 0, true), A3, [], n2);
    Advance(n2, Deliver(0, P2, 2, 0, true), D4, [], Network([D4, A3, C2], air));
  }

  lemma SendsStale()
    ensures SendTimer(A4, ENV) == (A5, [Stale(0), Stale(1), Stale(2), Stale(3)])
  {
    assert PagePackets(A4, 0, 0, ENV) == [];
    assert PagePackets(A4, 0, 1, ENV) == [Stale(0)];
    assert PagePackets(A4, 0, 2, ENV) == [Stale(0), Stale(1)];
    assert PagePackets(A4, 0, 3, ENV) == [Stale(0), Stale(1), Stale(2)];
    assert PagePackets(A4, 0, 4, ENV) == [Stale(0), Stale(1), Stale(2), Stale(3)];
  }

  /** Node 1 takes the old request for its own first missing page. */
  lemma Run5()
    ensures Reachable(Network([D4, A4, C2], {S0, P1, S1, R1, P2}))
  {
    Run4();
    var n0 := Network([D4, A3, C2], {S0, P1, S1, R1, P2});
    assert HighestAvailable(A3.pages) == 0 && Serves(A3, R1);
    assert OnRequest(A3, R1, 100) == A4;
    Advance(n0, Deliver(1, R1, 0, 100, true), A4, [], Network([D4, A4, C2], n0.air));
  }

  /** ... and sends its old bytes. */
  lemma Run6() returns (net: Network)
    ensures Reachable(net) && net.nodes == [D4, A5, C2]
    ensures Stale(0) in net.air && Stale(1) in net.air && Stale(2) in net.air && Stale(3) in net.air
  {
    Run5();
    net := SendAdvances(Network([D4, A4, C2], {S0, P1, S1, R1, P2}));
  }

  lemma SendAdvances(n0: Network) returns (net: Network)
    requires Reachable(n0) && n0.nodes == [D4, A4, C2]
    ensures Reachable(net) && net.nodes == [D4, A5, C2]
    ensures Stale(0) in net.air && Stale(1) in net.air && Stale(2) in net.air && Stale(3) in net.air
  {
    SendsStale();
    var out := [Stale(0), Stale(1), Stale(2), Stale(3)];
    net := Network(n0.nodes[1 := A5], n0.air + (set m | m in out));
    Advance(n0, SendExpires(1), A5, out, net);
  }

  /** Node 0 with the stale packets of `bits` received. */
  ghost predicate Filling(s: Node, bits: set<nat>) {
    && s.rxPage == 0 && |s.pages| == |s.file| == 1 && s.updateVersion == 2 && TxInRange(s)
    && s.pages[0].version == 2 && s.pages[0].packetSet == bits && !s.pages[0].complete
    && forall k :: k in ALL_PACKETS && k in bits ==> Slot(s.buffer, k) == Slot(Image(1), k)
  }

  lemma FillSlot(s: Node, bits: set<nat>, k: nat)
    requires Filling(s, bits) && k < N_PKT
    ensures forall j :: j in ALL_PACKETS && j in bits + {k} ==>
              Slot(Splice(s.buffer, k, Slot(Image(1), k)), j) == Slot(Image(1), j)
  {
    forall j | j in ALL_PACKETS && j in bits + {k}
      ensures Slot(Splice(s.buffer, k, Slot(Image(1), k)), j) == Slot(Image(1), j)
    {
      SlotOfSplice(s.buffer, k, Slot(Image(1), k), j);
    }
  }

  /** One more stale packet reaches node 0. */
  lemma FillStep(net: Network, bits: set<nat>, k: nat) returns (after: Network)
    requires Reachable(net) && |net.nodes| == 3 && k < N_PKT && Stale(k) in net.air
    requires Filling(net.nodes[0], bits) && bits + {k} != ALL_PACKETS
    ensures Reachable(after) && |after.nodes| == 3 && after.air == net.air
    ensures Filling(after.nodes[0], bits + {k})
  {
    FillSlot(net.nodes[0], bits, k);
    var s := OnPacket(net.nodes[0], Stale(k), 101 + k, ENV);
    after := Network(net.nodes[0 := s], net.air);
    Advance(net, Deliver(0, Stale(k), 1, 101 + k, true), s, [], after);
  }

  lemma FillLast(s: Node, now: nat)
    requires Filling(s, {0, 1, 2})
    ensures var t := OnPacket(s, Stale(3), now, ENV);
            |t.pages| == |t.file| == 1 && t.pages[0].complete && t.pages[0].version == 2 == t.version
            && t.file[0] == Image(1)
  {
    FillSlot(s, {0, 1, 2}, 3);
    assert {0, 1, 2} + {3} == ALL_PACKETS;
    SlotsDeterminePage(Splice(s.buffer, 3, Slot(Image(1), 3)), Image(1));
  }

  /** Three stale packets reach node 0. */
  lemma Run7() returns (net: Network)
    ensures Reachable(net) && |net.nodes| == 3 && Stale(3) in net.air && Filling(net.nodes[0], {0, 1, 2})
  {
    var n0 := Run6();
    var n1 := FillStep(n0, {}, 0);
    var n2 := FillStep(n1, {} + {0}, 1);
    net := FillStep(n2, {} + {0} + {1}, 2);
    assert {} + {0} + {1} + {2} == {0, 1, 2};
  }

  /** Page 0 of node 0 is complete, marked version 2, and holds the bytes of version 1. */
  ghost predicate HoldsStale(net: Network) {
    && |net.nodes| == 3 && |net.nodes[0].pages| == |net.nodes[0].file| == 1 && net.nodes[0].version == 2
    && net.nodes[0].pages[0].complete && net.nodes[0].pages[0].version == 2
    && net.nodes[0].file[0] == FILES[1][0]
  }

  lemma Run8() returns (last: Network)
    ensures Reachable(last) && HoldsStale(last)
  {
    var net := Run7();
    var s := OnPacket(net.nodes[0], Stale(3), 104, ENV);
    FillLast(net.nodes[0], 104);
    last := Network(net.nodes[0 := s], net.air);
    Advance(net, Deliver(0, Stale(3), 1, 104, true), s, [], last);
  }

  /** The start files are coherent, yet a run ends with node 0 promoted to version 2 while its
      complete page holds the bytes of version 1. */
  lemma ContentSafetyFails()
    ensures Coherent(FILES, VERSIONS, 1)
    ensures exists net :: Reachable(net) && HoldsStale(net)
    ensures forall j :: 0 <= j < |FILES| && VERSIONS[j] == 2 ==> FILES[j][0] != FILES[1][0]
  {
    assert Image(2)[0] == 2 && Image(1)[0] == 1;
    var last := Run8();
  }
}
