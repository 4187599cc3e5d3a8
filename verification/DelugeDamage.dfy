/**
 What the copy before the CRC test (apps/deluge/deluge.c:454-461) can lead to: a node adopts
 version 1, hears its packets, and one packet once more with a damaged payload.  The CRC test
 refuses the damaged packet, and the page still completes with its bytes.
 */
module DelugeDamage {
  import opened Bytes
  import opened DelugeNode
  import opened DelugeNetwork
  import opened DelugeProgress

  function Good(image: PageImage, k: nat, env: Platform): Msg
    requires k < N_PKT
  {
    Packet(1, 0, k, env.crc(Slot(image, k)), Slot(image, k))
  }

  /** Packet 0 with its own CRC and another payload. */
  function Damaged(image: PageImage, bad: Payload, env: Platform): Msg {
    Packet(1, 0, 0, env.crc(Slot(image, 0)), bad)
  }

  /** A node that has the packets in `got`, and `buffer` in current_page. */
  ghost predicate Filling(s: Node, got: set<nat>, buffer: PageImage) {
    && Sized(s) && |s.pages| == 1 && s.rxPage == 0 && s.updateVersion == 1 && s.buffer == buffer
    && s.pages[0].version == 1 && s.pages[0].packetSet == got && !s.pages[0].complete
  }

  lemma Adopted(was: PageImage, env: Platform) returns (s: Node)
    requires env.second > 0
    ensures s == OnMessage(InitObject([was], 0), Profile(1, [1]), 0, 0, true, env)
    ensures Filling(s, {}, BLANK)
  {
    var s0 := InitObject([was], 0);
    ProfilePassesIff(Profile(1, [1]), env);
    s := OnMessage(s0, Profile(1, [1]), 0, 0, true, env);
    assert MergedPages(s0.pages, [1]) == [s0.pages[0].(packetSet := {}, complete := false, version := 1)];
  }

  lemma GoodArrives(s: Node, got: set<nat>, buffer: PageImage, image: PageImage, k: nat, now: nat, env: Platform)
    requires Filling(s, got, buffer) && k < N_PKT && got + {k} != ALL_PACKETS
    ensures Filling(OnPacket(s, Good(image, k, env), now, env), got + {k}, Splice(buffer, k, Slot(image, k)))
  {
  }

  lemma DamagedArrives(s: Node, got: set<nat>, buffer: PageImage, image: PageImage, bad: Payload,
                       now: nat, env: Platform)
    requires Filling(s, got, buffer) && env.crc(bad) != env.crc(Slot(image, 0))
    ensures Filling(OnPacket(s, Damaged(image, bad, env), now, env), got, Splice(buffer, 0, bad))
  {
  }

  lemma LastArrives(s: Node, buffer: PageImage, image: PageImage, now: nat, env: Platform)
    requires Filling(s, {0, 1, 2}, buffer)
    ensures var t := OnPacket(s, Good(image, 3, env), now, env);
            && |t.pages| == |t.file| == 1 && t.pages[0].complete && t.pages[0].version == 1 == t.version
            && t.file[0] == Splice(buffer, 3, Slot(image, 3))
  {
    assert {0, 1, 2} + {3} == ALL_PACKETS;
  }

  /** The buffer `before` after packet 0, its damaged copy, and packets 1 to 3. */
  function Spoiled(before: PageImage, image: PageImage, bad: Payload): PageImage {
    Splice(Splice(Splice(Splice(Splice(before, 0, Slot(image, 0)), 0, bad), 1, Slot(image, 1)), 2, Slot(image, 2)),
           3, Slot(image, 3))
  }

  lemma SpoiledIs(before: PageImage, image: PageImage, bad: Payload)
    ensures Spoiled(before, image, bad) == Splice(image, 0, bad)
  {
    forall k | k in ALL_PACKETS
      ensures Slot(Spoiled(before, image, bad), k) == Slot(Splice(image, 0, bad), k)
    {
      SpoiledSlot(before, image, bad, k);
      SlotOfSplice(image, 0, bad, k);
    }
    SlotsDeterminePage(Spoiled(before, image, bad), Splice(image, 0, bad));
  }

  lemma SpoiledSlot(before: PageImage, image: PageImage, bad: Payload, k: nat)
    requires k < N_PKT
    ensures Slot(Spoiled(before, image, bad), k) == if k == 0 then bad else Slot(image, k)
  {
    var b := Splice(Splice(before, 0, Slot(image, 0)), 0, bad);
    var b1 := Splice(b, 1, Slot(image, 1));
    var b2 := Splice(b1, 2, Slot(image, 2));
    SlotOfSplice(Splice(before, 0, Slot(image, 0)), 0, bad, k);
    SlotOfSplice(b, 1, Slot(image, 1), k);
    SlotOfSplice(b1, 2, Slot(image, 2), k);
    SlotOfSplice(b2, 3, Slot(image, 3), k);
  }

  lemma FeedNext(s: Node, m: Msg, rest: seq<Msg>, now: nat, env: Platform)
    requires Sized(s) && |s.pages| == 1 && forall x :: x in [m] + rest ==> x.Packet? && PacketInRange(x, 1)
    ensures Feed(s, [m] + rest, now, env) == Feed(OnPacket(s, m, now, env), rest, now, env)
  {
    assert ([m] + rest)[1..] == rest && ([m] + rest)[0] == m;
  }

  function GoodFrom(image: PageImage, k: nat, env: Platform): seq<Msg>
    requires k <= N_PKT
    decreases N_PKT - k
  {
    if k == N_PKT then [] else [Good(image, k, env)] + GoodFrom(image, k + 1, env)
  }

  lemma {:induction false} GoodFromRange(image: PageImage, k: nat, env: Platform)
    requires k <= N_PKT
    ensures forall x :: x in GoodFrom(image, k, env) ==> x.Packet? && PacketInRange(x, 1)
    decreases N_PKT - k
  {
    if k < N_PKT {
      GoodFromRange(image, k + 1, env);
    }
  }

  /** The page after packets 1 to 3, when packet 0 was taken for received and the buffer held b. */
  lemma RestCompletes(s: Node, b: PageImage, image: PageImage, now: nat, env: Platform)
    requires Filling(s, {0}, b) && forall x :: x in GoodFrom(image, 1, env) ==> x.Packet? && PacketInRange(x, 1)
    ensures var t := Feed(s, GoodFrom(image, 1, env), now, env);
            && |t.pages| == |t.file| == 1 && t.pages[0].complete && t.pages[0].version == 1 == t.version
            && t.file[0] == Splice(Splice(Splice(b, 1, Slot(image, 1)), 2, Slot(image, 2)), 3, Slot(image, 3))
  {
    var b1 := Splice(b, 1, Slot(image, 1));
    var s1 := OnPacket(s, Good(image, 1, env), now, env);
    var s2 := OnPacket(s1, Good(image, 2, env), now, env);
    assert {0} + {1} == {0, 1} && {0, 1} + {2} == {0, 1, 2};
    GoodArrives(s, {0}, b, image, 1, now, env);
    GoodArrives(s1, {0, 1}, b1, image, 2, now, env);
    LastArrives(s2, Splice(b1, 2, Slot(image, 2)), image, now, env);
    FeedNext(s, Good(image, 1, env), GoodFrom(image, 2, env), now, env);
    FeedNext(s1, Good(image, 2, env), GoodFrom(image, 3, env), now, env);
    FeedNext(s2, Good(image, 3, env), [], now, env);
  }

  /** For every image, every payload that the CRC tells from its first slot, and every CRC: the page
      completes in version 1 with the damaged payload in it. */
  lemma DamageSpoilsPage(was: PageImage, image: PageImage, bad: Payload, now: nat, env: Platform)
    requires env.second > 0 && env.crc(bad) != env.crc(Slot(image, 0))
    ensures var s := OnMessage(InitObject([was], 0), Profile(1, [1]), 0, 0, true, env);
            var msgs := [Good(image, 0, env)] + ([Damaged(image, bad, env)] + GoodFrom(image, 1, env));
            && Sized(s) && |s.pages| == 1 && (forall x :: x in msgs ==> x.Packet? && PacketInRange(x, 1))
            && var t := Feed(s, msgs, now, env);
               && |t.pages| == |t.file| == 1 && t.pages[0].complete && t.pages[0].version == 1 == t.version
               && t.file[0] == Splice(image, 0, bad) != image
  {
    var s := Adopted(was, env);
    var good, damaged, rest := Good(image, 0, env), Damaged(image, bad, env), GoodFrom(image, 1, env);
    GoodFromRange(image, 1, env);
    GoodArrives(s, {}, BLANK, image, 0, now, env);
    var s1, b1 := OnPacket(s, good, now, env), Splice(BLANK, 0, Slot(image, 0));
    assert {} + {0} == {0};
    DamagedArrives(s1, {0}, b1, image, bad, now, env);
    var s2 := OnPacket(s1, damaged, now, env);
    RestCompletes(s2, Splice(b1, 0, bad), image, now, env);
    FeedNext(s, good, [damaged] + rest, now, env);
    FeedNext(s1, damaged, rest, now, env);
    SpoiledIs(BLANK, image, bad);
    SlotOfSplice(image, 0, bad, 0);
  }
}
