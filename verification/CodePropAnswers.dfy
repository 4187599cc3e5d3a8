/**
 What each thread of apps/codeprop/codeprop.c does with each packet, case by case, and what a
 NACK for a gap leads to in the network.
 */
module CodePropAnswers {
  import opened Bytes
  import opened CodePropModel
  import opened CodePropNetwork

  // ------------------------------------------------------------------ the receiver

  /** Writing touches the bytes at its address and no others. */
  lemma WriteMeaning(eeprom: Eeprom, at: nat, data: bytes, i: nat)
    requires at + |data| <= STORE && i < STORE
    ensures Write(eeprom, at, data)[i] == if at <= i < at + |data| then data[i - at] else eeprom[i]
  {
  }

  /** In the loop: a packet in order is stored behind what is there and not answered. */
  lemma InOrderStored(r: Receiver, m: Msg)
    requires Receivable(r, m) && r.active && m.id == r.id && m.addr == r.addr
    ensures var (t, out) := OnData(r, m);
            && out == [] && t.id == r.id && t.len == r.len && t.addr == r.addr + |m.data|
            && (t.active <==> t.addr < t.len)
            && t.eeprom[..t.addr] == r.eeprom[..r.addr] + m.data && t.eeprom[t.addr..] == r.eeprom[t.addr..]
  {
  }

  /** In the loop: a packet ahead is answered with the offset of the first missing byte, and not
      stored. */
  lemma AheadAnswered(r: Receiver, m: Msg)
    requires Receivable(r, m) && r.active && r.addr < r.len && m.id == r.id && m.addr > r.addr
    ensures OnData(r, m) == (r, [Nack(r.addr)])
  {
  }

  /** In the loop: a packet behind is neither stored nor answered. */
  lemma BehindIgnored(r: Receiver, m: Msg)
    requires Receivable(r, m) && r.active && r.addr < r.len && m.id == r.id && m.addr < r.addr
    ensures OnData(r, m) == (r, [])
  {
  }

  /** In the loop, packets of every other image are ignored, newer ones too; outside it, those of no
      newer image. */
  lemma OthersIgnored(r: Receiver, m: Msg)
    requires Receivable(r, m) && if r.active then m.id != r.id else m.id <= r.id
    ensures OnData(r, m) == (r, [])
  {
  }

  /** Outside the loop, a packet of any newer image is joined.  From address 0 it is the image's
      first; at any other address NACK 0 goes out, and the packet is stored at 0 all the same. */
  lemma NewerJoined(r: Receiver, m: Msg)
    requires Receivable(r, m) && !r.active && m.id > r.id && m.len > 0
    ensures var (t, out) := OnData(r, m);
            && out == (if m.addr == 0 then [] else [Nack(0)])
            && t.id == m.id && t.len == m.len && t.addr == |m.data| && (t.active <==> |m.data| < m.len)
            && t.eeprom[..|m.data|] == m.data && t.eeprom[|m.data|..] == r.eeprom[|m.data|..]
  {
  }

  /** An empty image is joined and over at once. */
  lemma EmptyJoined(r: Receiver, m: Msg)
    requires Receivable(r, m) && !r.active && m.id > r.id && m.len == 0
    ensures OnData(r, m) == (r.(id := m.id, len := 0, addr := 0), if m.addr == 0 then [] else [Nack(0)])
  {
  }

  /** The NACK timer is silent outside the loop. */
  lemma IdleSilent(r: Receiver)
    requires !r.active
    ensures OnTimeout(r) == []
  {
  }

  // ------------------------------------------------------------------ the sender

  /** A turn sends the next 32 bytes, or what is left; behind the last byte it ends the broadcast. */
  lemma TurnMeaning(s: Sender)
    requires SenderReady(s)
    ensures var (t, out) := Turn(s);
            && (!s.sending ==> t == s && out == [])
            && (s.sending && s.addr >= s.len ==> t == s.(sending := false) && out == [])
            && (s.sending && s.addr < s.len ==>
                  var n := if s.len - s.addr < 32 then s.len - s.addr else 32;
                  t == s.(addr := s.addr + n) && out == [Data(s.id, s.addr, s.len, s.eeprom[s.addr..s.addr + n])])
  {
    if s.sending && s.addr < s.len {
      var n := if s.len - s.addr < 32 then s.len - s.addr else 32;
      assert Chunk(s.eeprom[..s.len], s.addr) == s.eeprom[s.addr..s.addr + n];
    }
  }

  /** A NACK takes the sender back and never ahead, and changes nothing else. */
  lemma NackMeaning(s: Sender, addr: nat)
    ensures OnNack(s, addr) == s.(addr := OnNack(s, addr).addr)
    ensures OnNack(s, addr).addr == if s.sending && addr < s.addr then addr else s.addr
  {
  }

  /** A new broadcast begins at byte 0 under the next id, with the image in front of the store. */
  lemma BroadcastMeaning(s: Sender, image: bytes)
    requires |image| < STORE
    ensures var t := Broadcast(s, image);
            && t.sending && t.id == s.id + 1 && t.addr == 0 && t.len == |image|
            && t.eeprom[..|image|] == image && t.eeprom[|image|..] == s.eeprom[|image|..]
  {
  }

  // ------------------------------------------------------------------ in the network

  /** A packet ahead reaches a waiting receiver: it stays where it is, and its NACK is on the air. */
  lemma GapAnswered(net: Net, i: nat, m: Msg)
    requires Waiting(net, i) && m in net.air && m.Data? && m.id == net.receivers[i].id
    requires m.addr > net.receivers[i].addr
    ensures var asked := Perform(net, DataArrives(i, m));
            && Waiting(asked, i) && asked.receivers == net.receivers && asked.sender == net.sender
            && asked.images == net.images && asked.air == net.air + {Nack(net.receivers[i].addr)}
  {
    var r := net.receivers[i];
    assert HoldsPrefix(r, net.images) && Genuine(m, net.images);
    assert Receivable(r, m);
    AheadAnswered(r, m);
    StepKeepsInv(net, DataArrives(i, m));
    assert net.receivers[i := r] == net.receivers;
    assert (set x | x in [Nack(r.addr)]) == {Nack(r.addr)};
  }

  /** A gap heals: the packet ahead, the NACK it provokes, and as many packets as are missing leave
      the receiver with the whole image. */
  lemma GapHeals(net: Net, i: nat, m: Msg)
    requires Waiting(net, i) && m in net.air && m.Data? && m.id == net.receivers[i].id
    requires net.receivers[i].addr < m.addr && net.receivers[i].addr <= net.receivers[i].len
    ensures var asked := Perform(net, DataArrives(i, m));
            var rewound := Perform(asked, NackArrives(Nack(net.receivers[i].addr)));
            && InStep(rewound, i) && rewound.receivers == net.receivers && rewound.images == net.images
            && Complete(Rounds(rewound, i, Missing(net.receivers[i])), i, net.receivers[i].id)
            && Rounds(rewound, i, Missing(net.receivers[i])).images == net.images
  {
    GapAnswered(net, i, m);
    var asked := Perform(net, DataArrives(i, m));
    NackRewinds(asked, i);
    RoundsComplete(Perform(asked, NackArrives(Nack(net.receivers[i].addr))), i, Missing(net.receivers[i]));
  }
}
