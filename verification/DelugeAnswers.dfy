/**
 What one Deluge node does with what it hears, said without the handlers' own words: which
 packets a request brings (rules M.6 and T.1), when a summary makes it a receiver (M.5),
 what a profile does to each page, and which phase every handler leaves it in.
 */
module DelugeAnswers {
  import opened Bytes
  import opened DelugeNode
  import opened DelugeNetwork
  import opened DelugeProgress

  // ------------------------------------------------------------------ requests

  /** m asks for a page of the held version, at most one page behind the complete ones. */
  ghost predicate Answered(s: Node, m: Msg) {
    && m.Request? && m.version == s.version && m.pagenum < |s.pages| && m.pagenum < 128
    && forall i :: 0 <= i < m.pagenum ==> s.pages[i].complete
  }

  /** Packet k of page p goes out when the send timer runs out. */
  ghost predicate Sends(s: Node, p: nat, k: nat, env: Platform)
    requires Sized(s) && TxInRange(s) && p < |s.pages| && k < N_PKT
  {
    Packet(s.pages[p].version, p, k, env.crc(Slot(s.file[p], k)), Slot(s.file[p], k)) in SendTimer(s, env).1
  }

  /** Exactly the waiting packets of the transmit page go out. */
  lemma SendsIff(s: Node, p: nat, k: nat, env: Platform)
    requires Sized(s) && TxInRange(s) && p < |s.pages| && k < N_PKT
    ensures Sends(s, p, k, env) <==> s.txPage == p && k in s.txSet
  {
    if s.txPage >= 0 && s.txSet != {} {
      var m := Packet(s.pages[p].version, p, k, env.crc(Slot(s.file[p], k)), Slot(s.file[p], k));
      if s.txPage == p && k in s.txSet {
        assert m == PacketOf(s, p, k, env);
      }
    }
  }

  lemma AnsweredIsServed(s: Node, m: Msg)
    requires Answered(s, m)
    ensures m.pagenum <= HighestAvailable(s.pages)
  {
    var h := HighestAvailable(s.pages);
    assert h < |s.pages| ==> !s.pages[h].complete;
  }

  /** An answered request keeps file and versions, and leaves the send timer something to send. */
  lemma AnswerState(s: Node, m: Msg, now: nat)
    requires Sized(s) && TxInRange(s) && Answered(s, m)
    ensures var t := OnRequest(s, m, now);
            && Sized(t) && TxInRange(t) && t.file == s.file && t.version == s.version && |t.pages| == |s.pages|
            && t.txPage == m.pagenum && t.phase == Tx
            && forall i :: 0 <= i < |s.pages| ==>
                 t.pages[i] == if i == m.pagenum then s.pages[i].(lastRequest := now) else s.pages[i]
  {
    AnsweredIsServed(s, m);
  }

  /** Rule T.1.  For the page already being sent, what was waiting stays waiting; for another page
      only what is asked for goes out. */
  lemma RequestSends(s: Node, m: Msg, now: nat, env: Platform, k: nat)
    requires Sized(s) && TxInRange(s) && Answered(s, m) && k < N_PKT
    ensures var t := OnRequest(s, m, now);
            && Sized(t) && TxInRange(t) && |t.pages| == |s.pages|
            && (Sends(t, m.pagenum, k, env) <==> k in m.requestSet || (s.txPage == m.pagenum && k in s.txSet))
            && forall p :: 0 <= p < |s.pages| && p != m.pagenum ==> !Sends(t, p, k, env)
  {
    AnswerState(s, m, now);
    AnsweredIsServed(s, m);
    var t := OnRequest(s, m, now);
    SendsIff(t, m.pagenum, k, env);
    forall p | 0 <= p < |s.pages| && p != m.pagenum
      ensures !Sends(t, p, k, env)
    {
      SendsIff(t, p, k, env);
    }
  }

  /** Two neighbours ask for one page before the send timer runs out: the packets sent are those
      that one or the other asked for, and those that were waiting for that page already. */
  lemma TwoRequestsSend(s: Node, m1: Msg, m2: Msg, t1: nat, t2: nat, env: Platform, k: nat)
    requires Sized(s) && TxInRange(s) && Answered(s, m1) && k < N_PKT
    requires m2.Request? && m2.version == m1.version && m2.pagenum == m1.pagenum
    ensures var u := OnRequest(OnRequest(s, m1, t1), m2, t2);
            && Sized(u) && TxInRange(u) && |u.pages| == |s.pages|
            && (Sends(u, m1.pagenum, k, env) <==>
                  k in m1.requestSet || k in m2.requestSet || (s.txPage == m1.pagenum && k in s.txSet))
  {
    AnswerState(s, m1, t1);
    var t := OnRequest(s, m1, t1);
    assert Answered(t, m2);
    RequestSends(s, m1, t1, env, k);
    SendsIff(t, m1.pagenum, k, env);
    RequestSends(t, m2, t2, env, k);
  }

  /** So each of the two gets everything it misses of the page. */
  lemma BothCovered(s: Node, m1: Msg, m2: Msg, got1: set<nat>, got2: set<nat>, t1: nat, t2: nat, env: Platform)
    requires Sized(s) && TxInRange(s) && Answered(s, m1)
    requires m2.Request? && m2.version == m1.version && m2.pagenum == m1.pagenum
    requires m1.requestSet == EIGHT_BITS - got1 && m2.requestSet == EIGHT_BITS - got2
    ensures var u := OnRequest(OnRequest(s, m1, t1), m2, t2);
            && Sized(u) && TxInRange(u)
            && Covered(got1, SendTimer(u, env).1) && Covered(got2, SendTimer(u, env).1)
  {
    var u := OnRequest(OnRequest(s, m1, t1), m2, t2);
    AnswerState(s, m1, t1);
    assert Answered(OnRequest(s, m1, t1), m2);
    AnswerState(OnRequest(s, m1, t1), m2, t2);
    var p := m1.pagenum;
    forall k | k in ALL_PACKETS && (k !in got1 || k !in got2)
      ensures exists x :: x in SendTimer(u, env).1 && x.Packet? && x.packetnum == k
    {
      assert k in EIGHT_BITS;
      TwoRequestsSend(s, m1, m2, t1, t2, env, k);
      var x := Packet(u.pages[p].version, p, k, env.crc(Slot(u.file[p], k)), Slot(u.file[p], k));
      assert x in SendTimer(u, env).1;
    }
  }

  /** Any other request changes nothing but the mark for a differing version. */
  lemma RequestRefused(s: Node, m: Msg, now: nat)
    requires m.Request?
    requires m.pagenum >= |s.pages| || m.version != s.version || exists i :: 0 <= i < m.pagenum && !s.pages[i].complete
    ensures OnRequest(s, m, now)
         == s.(inconsistent := s.inconsistent || (m.pagenum < |s.pages| && m.version != s.version))
  {
    if m.pagenum < |s.pages| && m.version == s.version {
      var i :| 0 <= i < m.pagenum && !s.pages[i].complete;
      assert HighestAvailable(s.pages) <= i;
    }
  }

  /** What has been sent is not sent again. */
  lemma SentOnce(s: Node, env: Platform)
    requires Sized(s) && TxInRange(s)
    ensures var t := SendTimer(s, env).0;
            Sized(t) && TxInRange(t) && SendTimer(t, env).1 == []
    ensures s.txPage >= 0 && s.txSet != {} ==> SendTimer(s, env).0.phase == Maintain
  {
  }

  /** The cursor field of eight bits: the page number modulo 256, as a signed value. */
  lemma Int8Meaning(p: nat)
    ensures -128 <= ToInt8(p) < 128 && (p - ToInt8(p)) % 256 == 0
    ensures ToInt8(p) == p <==> p < 128
  {
  }

  // ------------------------------------------------------------------ requests of its own

  /** Every request names the page at the cursor, its version, and what is missing of it; the second
      one (CONST_LAMBDA) ends reception. */
  lemma RequestsEnd(s: Node, b1: Page, b2: Page)
    requires s.rxPage < |s.pages| && s.requests == 0
    ensures var (t, out) := RequestTimer(s, b1);
            var (u, again) := RequestTimer(t, b2);
            && t == s.(requests := 1) && u == s.(phase := Maintain) && out == again && |out| == 1
            && out[0].Request? && out[0].version == s.pages[s.rxPage].version && out[0].pagenum == s.rxPage
            && forall k :: 0 <= k < 8 ==> (k in out[0].requestSet <==> k !in s.pages[s.rxPage].packetSet)
  {
  }

  // ------------------------------------------------------------------ summaries

  /** The whole seconds since a time. */
  function Age(now: nat, time: nat, env: Platform): int
    requires env.second > 0
  {
    (now - time) / env.second
  }

  /** The summary is of the wanted version and offers more than the complete pages. */
  ghost predicate Wanted(s: Node, m: Msg) {
    && m.Summary? && m.version == s.updateVersion && m.highest <= |s.pages|
    && exists i :: 0 <= i < m.highest && !s.pages[i].complete
  }

  lemma WantedIs(s: Node, m: Msg)
    requires m.Summary?
    ensures Wanted(s, m) <==> m.version == s.updateVersion && HighestAvailable(s.pages) < m.highest <= |s.pages|
  {
    var h := HighestAvailable(s.pages);
    if h < m.highest <= |s.pages| {
      assert !s.pages[h].complete;
    }
  }

  lemma {:induction false} OldestRequest(pages: seq<Page>, n: nat, now: nat)
    requires n <= |pages|
    ensures var r := Oldest(pages, n, now).0;
            && r <= now && (forall i :: 0 <= i < n ==> r <= pages[i].lastRequest)
            && (r == now || exists i :: 0 <= i < n && r == pages[i].lastRequest)
    decreases n
  {
    if n > 0 {
      OldestRequest(pages, n - 1, now);
      assert pages[n - 1].lastRequest == pages[n - 1].lastRequest;
    }
  }

  lemma {:induction false} OldestData(pages: seq<Page>, n: nat, now: nat)
    requires n <= |pages|
    ensures var d := Oldest(pages, n, now).1;
            && (d == now || exists i :: 0 <= i < n && d == pages[i].lastData)
            && (d == now && n > 0 && (forall i :: 0 <= i < n ==> pages[i].lastData < now) ==>
                  forall i :: 0 <= i < n ==> pages[i].lastRequest >= now)
    decreases n
  {
    if n > 0 {
      OldestData(pages, n - 1, now);
      assert pages[n - 1].lastData == pages[n - 1].lastData;
    }
  }

  /** Which data time the second comparison keeps: it compares request times with it.  The time of
      page j is kept when j was asked for before every earlier data time, and no later page was
      asked for before it. */
  ghost predicate KeepsData(pages: seq<Page>, n: nat, now: nat, j: nat) {
    && j < n <= |pages| && pages[j].lastRequest < now
    && (forall i :: 0 <= i < j ==> pages[j].lastRequest < pages[i].lastData)
    && (forall i :: j < i < n ==> pages[j].lastData <= pages[i].lastRequest)
  }

  lemma {:induction false} KeptData(pages: seq<Page>, n: nat, now: nat, j: nat)
    requires KeepsData(pages, n, now, j)
    ensures Oldest(pages, n, now).1 == pages[j].lastData
    decreases n
  {
    if n == j + 1 {
      OldestData(pages, j, now);
    } else {
      KeptData(pages, n - 1, now, j);
    }
  }

  /** The node takes the sender as its source. */
  ghost predicate Follows(t: Node, sender: nat) {
    t.phase == Rx && t.summaryFrom == sender
  }

  /** The node's own course is as before. */
  ghost predicate Undecided(s: Node, t: Node) {
    t.phase == s.phase && t.summaryFrom == s.summaryFrom
  }

  /** A summary that offers nothing wanted is not followed. */
  lemma UnwantedNotFollowed(s: Node, m: Msg, sender: nat, now: nat, env: Platform)
    requires m.Summary? && env.second > 0 && !Wanted(s, m)
    ensures Undecided(s, OnSummary(s, m, sender, now, env))
  {
    WantedIs(s, m);
  }

  /** If every advertised page was asked for at most 2 * interval seconds ago, a summary is not
      followed, whatever data was heard. */
  lemma RecentRequestsSuppress(s: Node, m: Msg, sender: nat, now: nat, env: Platform)
    requires m.Summary? && env.second > 0 && m.highest <= |s.pages|
    requires forall i :: 0 <= i < m.highest ==> Age(now, s.pages[i].lastRequest, env) <= 2 * s.interval
    ensures Undecided(s, OnSummary(s, m, sender, now, env))
  {
    OldestRequest(s.pages, m.highest, now);
  }

  /** If the data time that is kept is at most interval seconds back, a summary is not followed,
      whenever pages were asked for. */
  lemma RecentDataSuppresses(s: Node, m: Msg, sender: nat, now: nat, env: Platform, j: nat)
    requires m.Summary? && env.second > 0 && KeepsData(s.pages, m.highest, now, j)
    requires Age(now, s.pages[j].lastData, env) <= s.interval
    ensures Undecided(s, OnSummary(s, m, sender, now, env))
  {
    KeptData(s.pages, m.highest, now, j);
  }

  /** A wanted summary is followed when some advertised page was asked for longer ago than
      2 * interval seconds and the data time that is kept lies further back than interval. */
  lemma StaleIsFollowed(s: Node, m: Msg, sender: nat, now: nat, env: Platform, i: nat, j: nat)
    requires env.second > 0 && Wanted(s, m) && KeepsData(s.pages, m.highest, now, j)
    requires i < m.highest && Age(now, s.pages[i].lastRequest, env) > 2 * s.interval
    requires Age(now, s.pages[j].lastData, env) > s.interval
    ensures Follows(OnSummary(s, m, sender, now, env), sender)
  {
    WantedIs(s, m);
    OldestRequest(s.pages, m.highest, now);
    KeptData(s.pages, m.highest, now, j);
    OlderAge(now, Oldest(s.pages, m.highest, now).0, s.pages[i].lastRequest, env);
  }

  lemma OlderAge(now: nat, a: nat, b: nat, env: Platform)
    requires env.second > 0 && a <= b
    ensures Age(now, a, env) >= Age(now, b, env)
  {
    QuotientMonotone(now - b, now - a, env.second);
  }

  lemma QuotientMonotone(x: int, y: int, d: nat)
    requires d > 0 && x <= y
    ensures x / d <= y / d
  {
    assert d * (x / d) <= x && y < d * (y / d) + d;
    NextMultiple(d, y / d, x / d);
  }

  lemma NextMultiple(d: nat, a: int, b: int)
    ensures a < b ==> d * a + d <= d * b
  {
    if a < b {
      assert d * b == d * (a + 1) + d * (b - a - 1);
    }
  }

  /** When nothing was asked for or heard within 2 * interval seconds, a wanted summary is followed. */
  lemma QuietIsFollowed(s: Node, m: Msg, sender: nat, now: nat, env: Platform)
    requires env.second > 0 && Wanted(s, m)
    requires forall i :: 0 <= i < m.highest ==>
               && Age(now, s.pages[i].lastRequest, env) > 2 * s.interval
               && Age(now, s.pages[i].lastData, env) > 2 * s.interval
    ensures Follows(OnSummary(s, m, sender, now, env), sender)
  {
    WantedIs(s, m);
    KeptAreOld(s.pages, m.highest, now, 2 * s.interval, env);
    OldIsFollowed(s, m, sender, now, env);
  }

  lemma OldIsFollowed(s: Node, m: Msg, sender: nat, now: nat, env: Platform)
    requires env.second > 0 && m.Summary? && m.version == s.updateVersion
    requires HighestAvailable(s.pages) < m.highest <= |s.pages|
    requires Age(now, Oldest(s.pages, m.highest, now).0, env) > 2 * s.interval
    requires Age(now, Oldest(s.pages, m.highest, now).1, env) > 2 * s.interval
    ensures Follows(OnSummary(s, m, sender, now, env), sender)
  {
  }

  /** If all times are old, those that are kept are. */
  lemma KeptAreOld(pages: seq<Page>, n: nat, now: nat, limit: nat, env: Platform)
    requires env.second > 0 && 0 < n <= |pages|
    requires forall i :: 0 <= i < n ==>
               Age(now, pages[i].lastRequest, env) > limit && Age(now, pages[i].lastData, env) > limit
    ensures Age(now, Oldest(pages, n, now).0, env) > limit && Age(now, Oldest(pages, n, now).1, env) > limit
  {
    forall i | 0 <= i < n
      ensures pages[i].lastRequest < now && pages[i].lastData < now
    {
      AgePast(now, pages[i].lastRequest, env);
      AgePast(now, pages[i].lastData, env);
    }
    OldestRequest(pages, n, now);
    OldestData(pages, n, now);
    assert pages[0].lastRequest < now;
  }

  lemma AgePast(now: nat, time: nat, env: Platform)
    requires env.second > 0 && Age(now, time, env) > 0
    ensures time < now
  {
    if time >= now {
      QuotientMonotone(now - time, 0, env.second);
    }
  }

  /** What else a summary does: agreement is counted, a difference is marked, and an older version
      makes a profile due. */
  lemma SummaryNoted(s: Node, m: Msg, sender: nat, now: nat, env: Platform)
    requires m.Summary? && env.second > 0
    ensures var t := OnSummary(s, m, sender, now, env);
            var agrees := m.version == s.version && m.highest == HighestAvailable(s.pages);
            && t.advertisements == s.advertisements + (if agrees then 1 else 0)
            && t.inconsistent == (s.inconsistent || !agrees)
            && t.profileDue == (s.profileDue || m.version < s.version)
            && t.oldSummary == (s.oldSummary || m.version < s.version)
            && SameObject(s, t) && t.requests == s.requests
  {
  }

  // ------------------------------------------------------------------ packets and profiles

  /** A packet for the page at the cursor of another version than the node's is marked; one for
      another page is not looked at. */
  lemma PacketNoted(s: Node, m: Msg, now: nat, env: Platform)
    requires Sized(s) && m.Packet? && PacketFits(s, m)
    ensures var t := OnPacket(s, m, now, env);
            && t.inconsistent == (s.inconsistent || (m.pagenum == s.rxPage && m.version != s.version))
            && (m.pagenum != s.rxPage ==> t == s)
            && t.requests == s.requests && t.interval == s.interval && t.advertisements == s.advertisements
            && t.profileDue == s.profileDue && t.txSet == s.txSet && t.txPage == s.txPage
  {
  }

  /** An intact packet of the page being received is noted with its time; the last one ends
      reception. */
  lemma IntactPacketNoted(s: Node, m: Msg, now: nat, env: Platform)
    requires Sized(s) && m.Packet? && PacketFits(s, m) && m.pagenum == s.rxPage
    requires m.version == s.pages[s.rxPage].version && !s.pages[s.rxPage].complete && m.crc == env.crc(m.payload)
    requires s.pages[s.rxPage].packetSet <= {0, 1, 2, 3}
    ensures var t := OnPacket(s, m, now, env);
            var p, q := s.pages[s.rxPage], t.pages[s.rxPage];
            && q.packetSet == p.packetSet + {m.packetnum} && q.lastData == now && q.lastRequest == p.lastRequest
            && (q.complete <==> 0 in q.packetSet && 1 in q.packetSet && 2 in q.packetSet && 3 in q.packetSet)
            && (t.phase == if q.complete then Maintain else s.phase)
  {
  }

  /** An adopted profile: each page gets the higher of its version and the profile's; a page that is
      raised loses its packets, any other stays as it is; pages behind the old table begin at
      version 0 with nothing.  The bytes stay, transmission stops, reception begins. */
  lemma ProfileAdopted(s: Node, m: Msg)
    requires Sized(s) && m.Profile? && m.version > s.updateVersion
    ensures var t := OnProfile(s, m, true);
            && |t.pages| == |t.file| == |m.vector| && t.updateVersion == m.version && t.version == s.version
            && t.txSet == {} && t.phase == Rx
            && (forall i :: 0 <= i < |m.vector| && i < |s.pages| ==>
                  && t.pages[i].version
                     == (if s.pages[i].version < m.vector[i] then m.vector[i] else s.pages[i].version)
                  && (t.pages[i].version == s.pages[i].version ==> t.pages[i] == s.pages[i])
                  && (t.pages[i].version != s.pages[i].version ==> !t.pages[i].complete && t.pages[i].packetSet == {})
                  && t.pages[i].lastRequest == s.pages[i].lastRequest && t.pages[i].lastData == s.pages[i].lastData
                  && t.file[i] == s.file[i])
            && (forall i :: |s.pages| <= i < |m.vector| ==>
                  && t.pages[i].version == 0 && !t.pages[i].complete && t.pages[i].packetSet == {}
                  && t.pages[i].lastRequest == 0 && t.pages[i].lastData == 0)
            && (forall i :: 0 <= i < t.rxPage ==> i < |t.pages| && t.pages[i].complete)
            && (t.rxPage < |t.pages| ==> !t.pages[t.rxPage].complete)
  {
    var t := OnProfile(s, m, true);
    assert forall i :: |s.pages| <= i < |m.vector| ==> t.pages[i] == NewPage();
  }

  /** A profile that is no newer is not looked at. */
  lemma OldProfileIgnored(s: Node, m: Msg, alloc: bool)
    requires Sized(s) && m.Profile? && ProfileFits(s, m, alloc) && m.version <= s.updateVersion
    ensures OnProfile(s, m, alloc) == s
  {
  }

  /** A page behind the old table cannot be received: it wants version 0, so that every packet of
      the profile's version is refused when the cursor comes to it. */
  lemma GrownPageStuck(s: Node, m: Msg, x: Msg, now: nat, env: Platform, u: Node)
    requires Sized(s) && m.Profile? && m.version > s.updateVersion && |s.pages| < |m.vector|
    requires Sized(u) && |u.pages| == |m.vector| && u.rxPage < |m.vector| && |s.pages| <= u.rxPage
    requires u.pages[u.rxPage] == OnProfile(s, m, true).pages[u.rxPage]
    requires x.Packet? && x.pagenum == u.rxPage && x.packetnum < N_PKT && x.version == m.vector[u.rxPage] != 0
    ensures var v := OnPacket(u, x, now, env);
            v.pages == u.pages && v.rxPage == u.rxPage && v.file == u.file && v.version == u.version
  {
    ProfileAdopted(s, m);
  }
}
