/**
 The static `current_object` of apps/deluge/deluge.c with its handlers as methods that
 update it in place.  Each method is proved to move the object exactly as the function of
 the same name in DelugeNode says.
 */
module DelugeObject {
  import opened Bytes
  import opened DelugeNode
  import opened DelugeNetwork

  class Deluge {
    const env: Platform
    var file: seq<PageImage>
    var pages: seq<Page>
    var version: u8
    var updateVersion: u8
    var rxPage: nat
    var txPage: int
    var txSet: set<nat>
    const currentPage: array<u8>
    var requests: nat
    var phase: Phase
    var inconsistent: bool
    var advertisements: nat
    var oldSummary: bool
    var profileDue: bool
    var interval: nat
    var summaryFrom: nat

    ghost predicate Valid()
      reads this
    {
      currentPage.Length == S_PAGE && env.second > 0 && |file| == |pages|
    }

    ghost function State(): Node
      requires Valid()
      reads this, currentPage
    {
      Node(file, pages, version, updateVersion, rxPage, txPage, txSet, currentPage[..], requests, phase,
           inconsistent, advertisements, oldSummary, profileDue, interval, summaryFrom)
    }

    /** init_object: every page of the stored file is taken to be held. */
    constructor (env: Platform, file: seq<PageImage>, version: u8)
      requires env.second > 0
      ensures Valid() && fresh(currentPage) && this.env == env
      ensures State() == InitObject(file, version)
    {
      this.env := env;
      this.file := file;
      this.version, updateVersion := version, version;
      rxPage, txPage, txSet, requests := 0, 0, {}, 0;
      phase, inconsistent, advertisements, oldSummary, profileDue := Maintain, false, 0, false, false;
      interval, summaryFrom := T_LOW, 0;
      currentPage := new u8[S_PAGE](_ => 0);
      pages := [];
      new;
      var i := 0;
      while i < |file|
        invariant 0 <= i <= |file|
        invariant pages == seq(i, _ => HeldPage(version))
        invariant this.file == file && this.version == updateVersion == version
        invariant rxPage == 0 && txPage == 0 && txSet == {} && requests == 0 && phase == Maintain
        invariant !inconsistent && advertisements == 0 && !oldSummary && !profileDue
        invariant interval == T_LOW && summaryFrom == 0 && currentPage[..] == BLANK
      {
        pages := pages + [HeldPage(version)];
        i := i + 1;
      }
    }

    /** highest_available_page: everything before the result is held and the page at the
        result is not. */
    method Highest() returns (h: nat)
      requires Valid()
      ensures h <= |pages|
      ensures forall i :: 0 <= i < h ==> pages[i].complete
      ensures h < |pages| ==> !pages[h].complete
      ensures h == HighestAvailable(pages)
    {
      h := 0;
      while h < |pages| && pages[h].complete
        invariant h <= |pages|
        invariant forall i :: 0 <= i < h ==> pages[i].complete
      {
        h := h + 1;
      }
      HighestAvailableIs(pages, h);
    }

    /** The loop of rule M.5 over the advertised pages. */
    method RecentlyActive(n: nat, now: nat) returns (recent: bool)
      requires Valid() && n <= |pages|
      ensures recent == Suppressed(pages, n, now, interval, env.second)
    {
      var oldestRequest, oldestData := now, now;
      var i := 0;
      while i < n
        invariant 0 <= i <= n
        invariant (oldestRequest, oldestData) == Oldest(pages, i, now)
      {
        var page := pages[i];
        if page.lastRequest < oldestRequest {
          oldestRequest := page.lastRequest;
        }
        if page.lastRequest < oldestData {
          oldestData := page.lastData;
        }
        i := i + 1;
      }
      recent := (now - oldestRequest) / env.second <= 2 * interval || (now - oldestData) / env.second <= interval;
    }

    /** Rule M.5: a neighbour of the wanted version holds more pages, and nobody has asked for
        them of late. */
    method Follow(m: Msg, h: nat, sender: nat, now: nat)
      requires Valid() && m.Summary? && h == HighestAvailable(pages)
      modifies this`summaryFrom, this`phase
      ensures State() == Followed(old(State()), m, sender, now, env)
    {
      if m.version == updateVersion && m.highest > h {
        if m.highest > |pages| {
          return;
        }
        var quiet := RecentlyActive(m.highest, now);
        if quiet {
          return;
        }
        summaryFrom := sender;
        phase := Rx;
      }
    }

    method HandleSummary(m: Msg, sender: nat, now: nat)
      requires Valid() && m.Summary?
      modifies this
      ensures Valid() && State() == OnSummary(old(State()), m, sender, now, env)
    {
      var h := Highest();
      if m.version != version || m.highest != h {
        inconsistent := true;
      } else {
        advertisements := advertisements + 1;
      }
      if m.version < version {
        oldSummary := true;
        profileDue := true;
      }
      Follow(m, h, sender, now);
    }

    /** Rule T.1: the page asked for becomes the transmit page, or its set grows. */
    method Queue(m: Msg, now: nat)
      requires Valid() && m.Request? && m.pagenum < |pages|
      modifies this`pages, this`txPage, this`txSet, this`phase
      ensures Valid() && State() == Queued(old(State()), m, now)
    {
      pages := pages[m.pagenum := pages[m.pagenum].(lastRequest := now)];
      if m.pagenum == txPage {
        txSet := txSet + m.requestSet;
      } else {
        txPage := ToInt8(m.pagenum);
        txSet := m.requestSet;
      }
      phase := Tx;
    }

    method HandleRequest(m: Msg, now: nat)
      requires Valid() && m.Request?
      modifies this
      ensures Valid() && State() == OnRequest(old(State()), m, now)
    {
      if m.pagenum >= |pages| {
        return;
      }
      if m.version != version {
        inconsistent := true;
      }
      var h := Highest();
      if m.version == version && m.pagenum <= h {
        Queue(m, now);
      }
    }

    /** memcpy of one packet's payload into its slot of current_page. */
    method CopyPayload(k: nat, payload: Payload)
      requires Valid() && k < N_PKT
      modifies currentPage
      ensures currentPage[..] == Splice(old(currentPage[..]), k, payload)
    {
      var at := S_PKT * k;
      var i := 0;
      while i < S_PKT
        invariant 0 <= i <= S_PKT
        invariant currentPage[..] == old(currentPage[..at]) + payload[..i] + old(currentPage[at + i..])
      {
        currentPage[at + i] := payload[i];
        i := i + 1;
      }
    }

    method AbsorbPacket(m: Msg, now: nat)
      requires Valid() && m.Packet? && PacketInRange(m, |pages|)
      modifies this, currentPage
      ensures Valid() && State() == Absorb(old(State()), m, now, env)
    {
      CopyPayload(m.packetnum, m.payload);
      if m.crc != env.crc(m.payload) {
        return;
      }
      var page := pages[m.pagenum];
      page := page.(lastData := now, packetSet := page.packetSet + {m.packetnum});
      if page.packetSet == ALL_PACKETS {
        file := file[m.pagenum := currentPage[..]];
        page := page.(version := m.version, complete := true);
        rxPage := rxPage + 1;
        if m.pagenum == |pages| - 1 {
          version := updateVersion;
        }
        phase := Maintain;
      }
      pages := pages[m.pagenum := page];
    }

    method HandlePacket(m: Msg, now: nat)
      requires Valid() && m.Packet? && PacketFits(State(), m)
      modifies this, currentPage
      ensures Valid() && State() == OnPacket(old(State()), m, now, env)
    {
      if m.pagenum != rxPage {
        return;
      }
      if m.version != version {
        inconsistent := true;
      }
      var page := pages[m.pagenum];
      if m.version == page.version && !page.complete {
        AbsorbPacket(m, now);
      }
    }

    /** The two loops of handle_profile over the reallocated page table. */
    method MergeTable(vector: seq<u8>) returns (table: seq<Page>)
      ensures table == MergedPages(pages, vector)
    {
      table := pages;
      var n := if |vector| < |pages| then |vector| else |pages|;
      var i := 0;
      while i < n
        invariant 0 <= i <= n && |table| == |pages|
        invariant forall j :: 0 <= j < i ==> table[j] == MergePage(pages[j], vector[j])
        invariant forall j :: i <= j < |pages| ==> table[j] == pages[j]
      {
        if vector[i] > table[i].version {
          table := table[i := table[i].(packetSet := {}, complete := false, version := vector[i])];
        }
        i := i + 1;
      }
      table := table[..n];
      while i < |vector|
        invariant n <= i <= |vector| && |table| == i
        invariant forall j :: 0 <= j < i ==> table[j] == MergedPages(pages, vector)[j]
      {
        table := table + [NewPage()];
        i := i + 1;
      }
    }

    /** The new table, its file, and the receive cursor set to the first missing page. */
    method InstallTable(vector: seq<u8>)
      requires Valid()
      modifies this`pages, this`file, this`rxPage
      ensures Valid() && State() == Installed(old(State()), vector)
    {
      var table := MergeTable(vector);
      pages, file := table, ResizedFile(file, |vector|);
      rxPage := Highest();
    }

    method AdoptProfile(m: Msg)
      requires Valid() && m.Profile?
      modifies this
      ensures Valid() && State() == Adopt(old(State()), m)
    {
      InstallTable(m.vector);
      txSet, updateVersion, phase := {}, m.version, Rx;
    }

    method HandleProfile(m: Msg, alloc: bool)
      requires Valid() && m.Profile? && ProfileFits(State(), m, alloc)
      modifies this
      ensures Valid() && State() == OnProfile(old(State()), m, alloc)
    {
      if m.version <= updateVersion {
        return;
      }
      if alloc {
        AdoptProfile(m);
      } else {
        txSet := {};
        pages, file := pages[..|m.vector|], file[..|m.vector|];
      }
    }

    /** command_dispatcher: the length test, then the handler.  A well-formed message keeps the
        node's invariant. */
    method Receive(m: Msg, sender: nat, now: nat, alloc: bool)
      requires Valid() && Fits(State(), m, alloc)
      modifies this, currentPage
      ensures Valid() && State() == OnMessage(old(State()), m, sender, now, alloc, env)
      ensures NodeShape(old(State()), old(|pages|)) && MsgShape(m, old(|pages|)) ==> NodeShape(State(), old(|pages|))
    {
      ghost var before, n := State(), |pages|;
      if NodeShape(before, n) && MsgShape(m, n) {
        MessageKeepsShape(before, m, sender, now, alloc, env, n);
      }
      match m
      case Summary(_, _) => HandleSummary(m, sender, now);
      case Request(_, _, _) => HandleRequest(m, now);
      case Packet(_, _, _, _, _) => HandlePacket(m, now);
      case Profile(_, vector) =>
        var factor: nat := if env.dispatch.ByLength? then 1 else if vector == [] then 0 else vector[0];
        var needs := PROFILE_HEADER + |vector| * factor;
        if PROFILE_HEADER + |vector| >= needs {
          HandleProfile(m, alloc);
        }
    }

    /** `behind` is what the memory holds behind the page table. */
    method SendRequest(behind: Page) returns (out: seq<Msg>)
      requires Valid()
      modifies this
      ensures Valid() && (State(), out) == RequestTimer(old(State()), behind)
      ensures NodeShape(old(State()), old(|pages|)) ==> NodeShape(State(), old(|pages|))
    {
      if NodeShape(State(), |pages|) {
        RequestTimerShape(State(), behind, |pages|);
      }
      var page := if rxPage < |pages| then pages[rxPage] else behind;
      out := [Request(page.version, rxPage, EIGHT_BITS - page.packetSet)];
      requests := requests + 1;
      if requests == CONST_LAMBDA {
        requests := 0;
        phase := Maintain;
      }
    }

    method AdvertiseSummary() returns (out: seq<Msg>)
      requires Valid()
      ensures (State(), out) == SummaryTimer(State())
    {
      if advertisements >= CONST_K {
        return [];
      }
      var h := Highest();
      out := [Summary(updateVersion, h)];
    }

    method SendProfile() returns (out: seq<Msg>)
      requires Valid()
      modifies this
      ensures Valid() && (State(), out) == ProfileTimer(old(State()))
      ensures NodeShape(old(State()), old(|pages|)) ==> NodeShape(State(), old(|pages|))
    {
      if NodeShape(State(), |pages|) {
        ProfileTimerShape(State(), |pages|);
      }
      out := [];
      if profileDue && advertisements < CONST_K {
        profileDue := false;
        var vector: seq<u8> := [];
        var i := 0;
        while i < |pages|
          invariant 0 <= i <= |pages|
          invariant vector == Versions(pages[..i])
        {
          vector := vector + [pages[i].version];
          i := i + 1;
        }
        assert pages[..i] == pages;
        out := [Profile(version, vector)];
      }
    }

    /** tx_callback with send_page: the requested packets of one page, in packet order. */
    method TransmitPage() returns (out: seq<Msg>)
      requires Valid() && TxInRange(State())
      modifies this
      ensures Valid() && (State(), out) == SendTimer(old(State()), env)
      ensures NodeShape(old(State()), old(|pages|)) ==> NodeShape(State(), old(|pages|))
    {
      if NodeShape(State(), |pages|) {
        SendTimerShape(State(), env, |pages|);
      }
      out := [];
      if txPage >= 0 && txSet != {} {
        ghost var before := State();
        var buf := file[txPage];
        var k := 0;
        while k < N_PKT
          invariant 0 <= k <= N_PKT
          invariant out == PagePackets(before, txPage, k, env)
        {
          if k in txSet {
            var payload := buf[S_PKT * k..S_PKT * k + S_PKT];
            out := out + [Packet(pages[txPage].version, txPage, k, env.crc(payload), payload)];
          }
          k := k + 1;
        }
        txSet := {};
        txPage := -1;
        phase := Maintain;
      }
    }

    method Round()
      requires Valid()
      modifies this
      ensures Valid() && State() == RoundTimer(old(State()))
      ensures NodeShape(old(State()), old(|pages|)) ==> NodeShape(State(), old(|pages|))
    {
      if inconsistent {
        interval := T_LOW;
        inconsistent := false;
      } else {
        interval := if 2 * interval >= T_HIGH then T_HIGH else 2 * interval;
      }
      advertisements := 0;
      oldSummary := false;
    }
  }
}
