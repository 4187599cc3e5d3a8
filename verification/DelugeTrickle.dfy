/**
 The trickle timer of apps/deluge/deluge.c over whole rounds: the interval doubles while
 neighbours agree and falls back when one differs, one agreeing neighbour keeps the node
 silent for the rest of a round, and a summary sent makes those that lack pages receivers.
 */
module DelugeTrickle {
  import opened Bytes
  import opened RestInts
  import opened DelugeNode
  import opened DelugeNetwork
  import opened DelugeAnswers

  /** The state after k rounds in which nothing is heard. */
  function Rounds(s: Node, k: nat): Node
    decreases k
  {
    if k == 0 then s else Rounds(RoundTimer(s), k - 1)
  }

  /** A round begins with no advertisement heard and no difference noticed, and touches nothing
      else but the interval. */
  lemma RoundBegins(s: Node)
    ensures RoundTimer(s) == s.(inconsistent := false, advertisements := 0, oldSummary := false,
                                interval := RoundTimer(s).interval)
    ensures s.inconsistent ==> RoundTimer(s).interval == 2
  {
  }

  /** While neighbours agree the interval doubles every round, up to 64 seconds. */
  lemma {:induction false} IntervalDoubles(s: Node, k: nat)
    requires !s.inconsistent && 2 <= s.interval <= 64
    ensures Rounds(s, k).interval == if Pow2(k) * s.interval >= 64 then 64 else Pow2(k) * s.interval
    ensures !Rounds(s, k).inconsistent
    decreases k
  {
    if k > 0 {
      var t := RoundTimer(s);
      IntervalDoubles(t, k - 1);
      Pow2Monotone(0, k - 1);
      Doubled(Pow2(k - 1), s.interval);
    }
  }

  lemma Doubled(p: nat, interval: nat)
    requires p > 0
    ensures p * (2 * interval) == 2 * p * interval
    ensures p * 64 >= 64
    ensures 2 * interval >= 64 ==> 2 * p * interval >= 64
  {
    assert p * (2 * interval) == 2 * p * interval;
    if 2 * interval >= 64 {
      Grows(p, 2 * interval);
    }
  }

  lemma Grows(p: nat, n: nat)
    requires p > 0
    ensures p * n >= n
  {
    assert p * n == n + (p - 1) * n;
  }

  /** A differing summary sends the interval back to 2 seconds, whatever it had grown to. */
  lemma DifferenceResets(s: Node, m: Msg, sender: nat, now: nat, env: Platform)
    requires m.Summary? && env.second > 0
    requires m.version != s.version || m.highest != HighestAvailable(s.pages)
    ensures RoundTimer(OnSummary(s, m, sender, now, env)).interval == 2
  {
    SummaryNoted(s, m, sender, now, env);
  }

  /** So does a request or a packet of another version that is looked at. */
  lemma OtherVersionResets(s: Node, m: Msg, now: nat, env: Platform)
    requires Sized(s)
    ensures m.Request? && m.pagenum < |s.pages| && m.version != s.version ==>
              RoundTimer(OnRequest(s, m, now)).interval == 2
    ensures m.Packet? && PacketFits(s, m) && m.pagenum == s.rxPage && m.version != s.version ==>
              RoundTimer(OnPacket(s, m, now, env)).interval == 2
  {
    if m.Packet? && PacketFits(s, m) {
      PacketNoted(s, m, now, env);
    }
  }

  // ------------------------------------------------------------------ advertising

  /** A node that heard no advertisement this round says which version it wants and how many leading
      pages it has; one that did is silent.  Its state does not change. */
  lemma AdvertisesIff(s: Node)
    ensures var (t, out) := SummaryTimer(s);
            && t == s
            && (s.advertisements >= 1 ==> out == [])
            && (s.advertisements == 0 ==>
                  && |out| == 1 && out[0].Summary? && out[0].version == s.updateVersion
                  && out[0].highest <= |s.pages| && (forall i :: 0 <= i < out[0].highest ==> s.pages[i].complete)
                  && (out[0].highest < |s.pages| ==> !s.pages[out[0].highest].complete))
  {
  }

  /** One agreeing summary silences the node until the next round. */
  lemma AgreementSilences(s: Node, m: Msg, sender: nat, now: nat, env: Platform)
    requires m.Summary? && env.second > 0 && m.version == s.version && m.highest == HighestAvailable(s.pages)
    ensures var t := OnSummary(s, m, sender, now, env);
            SummaryTimer(t).1 == [] && ProfileTimer(t).1 == [] && |SummaryTimer(RoundTimer(t)).1| == 1
  {
    SummaryNoted(s, m, sender, now, env);
    AdvertisesIff(OnSummary(s, m, sender, now, env));
    RoundBegins(OnSummary(s, m, sender, now, env));
    AdvertisesIff(RoundTimer(OnSummary(s, m, sender, now, env)));
  }

  /** A due profile goes out once, and only while no advertisement was heard; it carries the held
      version and the version of every page. */
  lemma ProfileOnce(s: Node)
    ensures var (t, out) := ProfileTimer(s);
            && ProfileTimer(t).1 == []
            && (out != [] <==> s.profileDue && s.advertisements == 0)
            && (out == [] ==> t == s)
            && (out != [] ==>
                  && t == s.(profileDue := false) && |out| == 1 && out[0].Profile? && out[0].version == s.version
                  && |out[0].vector| == |s.pages|
                  && forall i :: 0 <= i < |s.pages| ==> out[0].vector[i] == s.pages[i].version)
  {
  }

  /** Two nodes that update to the same version: what one advertises makes the other its receiver
      when it has more leading pages and nothing was asked for or heard of late. */
  lemma AdvertisementFollowed(s: Node, t: Node, sender: nat, now: nat, env: Platform)
    requires env.second > 0 && s.advertisements == 0 && s.updateVersion == t.updateVersion && |s.pages| == |t.pages|
    requires HighestAvailable(t.pages) < HighestAvailable(s.pages)
    requires forall i :: 0 <= i < |t.pages| ==>
               && Age(now, t.pages[i].lastRequest, env) > 2 * t.interval
               && Age(now, t.pages[i].lastData, env) > 2 * t.interval
    ensures var out := SummaryTimer(s).1;
            |out| == 1 && out[0].Summary? && Follows(OnSummary(t, out[0], sender, now, env), sender)
  {
    AdvertisesIff(s);
    var m := SummaryTimer(s).1[0];
    HighestAvailableIs(s.pages, m.highest);
    WantedIs(t, m);
    QuietIsFollowed(t, m, sender, now, env);
  }

  /** How a node starts: all pages of the file held in the given version, at rest, nothing waiting,
      rounds of 2 seconds. */
  lemma StartMeaning(file: seq<PageImage>, version: u8)
    ensures var s := InitObject(file, version);
            && s.file == file && |s.pages| == |file| && s.version == s.updateVersion == version
            && (forall i :: 0 <= i < |file| ==>
                  s.pages[i].complete && s.pages[i].version == version && s.pages[i].packetSet == {0, 1, 2, 3}
                  && s.pages[i].lastRequest == 0 && s.pages[i].lastData == 0)
            && s.rxPage == 0 && s.txSet == {} && s.requests == 0 && s.phase == Maintain && s.interval == 2
            && !s.inconsistent && s.advertisements == 0 && !s.profileDue
  {
  }
}
