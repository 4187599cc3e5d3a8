/**
 One sender and any number of receivers over UDP broadcast: packets and NACKs may be lost,
 duplicated and reordered.  `images[k]` is the image broadcast under id k; id 0 is the empty
 image every node boots with.
 */
module CodePropNetwork {
  import opened Bytes
  import opened CodePropModel

  datatype Action =
    | Upload(image: bytes)
    | SenderTurn
    | NackArrives(msg: Msg)
    | DataArrives(node: nat, msg: Msg)
    | Timeout(node: nat)

  datatype Net = Net(sender: Sender, receivers: seq<Receiver>, images: seq<bytes>, air: set<Msg>)

  predicate Possible(net: Net, a: Action) {
    match a
    case Upload(image) => |image| < STORE
    case SenderTurn => SenderReady(net.sender)
    case NackArrives(m) => m in net.air && m.Nack?
    case DataArrives(i, m) => m in net.air && i < |net.receivers| && Receivable(net.receivers[i], m)
    case Timeout(i) => i < |net.receivers|
  }

  function Sent(net: Net, out: seq<Msg>): Net {
    net.(air := net.air + (set m | m in out))
  }

  function Perform(net: Net, a: Action): Net {
    if !Possible(net, a) then net else
    match a
    case Upload(image) => net.(sender := Broadcast(net.sender, image), images := net.images + [image])
    case SenderTurn => var (s, out) := Turn(net.sender); Sent(net.(sender := s), out)
    case NackArrives(m) => net.(sender := OnNack(net.sender, m.addr))
    case DataArrives(i, m) =>
      var (r, out) := OnData(net.receivers[i], m);
      Sent(net.(receivers := net.receivers[i := r]), out)
    case Timeout(i) => Sent(net, OnTimeout(net.receivers[i]))
  }

  function Exec(net: Net, acts: seq<Action>): Net
    decreases |acts|
  {
    if acts == [] then net else Exec(Perform(net, acts[0]), acts[1..])
  }

  const BLANK: Eeprom := seq(STORE, _ => 0)

  function Start(n: nat): Net {
    Net(Sender(false, 0, 0, 0, BLANK), seq(n, _ => Receiver(false, 0, 0, 0, BLANK)), [[]], {})
  }

  // ------------------------------------------------------------------ invariants

  /** The store begins with the first `addr` bytes of the image whose id the receiver holds;
      outside the receiving loop that is the whole image. */
  ghost predicate HoldsPrefix(r: Receiver, images: seq<bytes>) {
    && r.id < |images| && r.len == |images[r.id]| < STORE
    && r.addr <= r.len && (r.active <==> r.addr < r.len)
    && r.eeprom[..r.addr] == images[r.id][..r.addr]
  }

  ghost predicate SenderOk(s: Sender, images: seq<bytes>) {
    && s.id + 1 == |images| && s.len == |images[s.id]| < STORE
    && s.addr <= s.len && s.eeprom[..s.len] == images[s.id]
  }

  ghost predicate Genuine(m: Msg, images: seq<bytes>) {
    m.Data? ==>
      && m.id < |images| && m.len == |images[m.id]| < STORE
      && m.addr < m.len && m.data == Chunk(images[m.id], m.addr)
  }

  ghost predicate Inv(net: Net) {
    && SenderOk(net.sender, net.images)
    && (forall i :: 0 <= i < |net.receivers| ==> HoldsPrefix(net.receivers[i], net.images))
    && (forall m :: m in net.air ==> Genuine(m, net.images))
  }

  /** A receiver joins in the middle of an image. */
  ghost predicate LateJoin(r: Receiver, m: Msg) {
    Joins(r, m) && m.addr != 0
  }

  /** A genuine DATA packet keeps the receiver's prefix exactly when it is not a join in the
      middle of the image (or when the bytes there happen to repeat the image's beginning). */
  lemma DataKeepsPrefixIff(r: Receiver, m: Msg, images: seq<bytes>)
    requires HoldsPrefix(r, images) && m.Data? && Genuine(m, images) && Receivable(r, m)
    ensures HoldsPrefix(OnData(r, m).0, images)
      <==> (LateJoin(r, m) ==> m.data == images[m.id][..|m.data|])
  {
    if Joins(r, m) {
      JoinStores(r, m, images);
    } else if Continues(r, m) && m.addr == r.addr {
      TakeInOrder(r, m, images);
    }
  }

  lemma JoinStores(r: Receiver, m: Msg, images: seq<bytes>)
    requires m.Data? && Genuine(m, images) && Receivable(r, m) && Joins(r, m)
    ensures var t := OnData(r, m).0;
            && t.id == m.id && t.len == m.len && t.addr == |m.data| && (t.active <==> t.addr < t.len)
            && t.eeprom[..t.addr] == m.data
  {
  }

  lemma TakeInOrder(r: Receiver, m: Msg, images: seq<bytes>)
    requires HoldsPrefix(r, images) && m.Data? && Genuine(m, images) && Receivable(r, m)
    requires Continues(r, m) && m.addr == r.addr
    ensures HoldsPrefix(OnData(r, m).0, images) && OnData(r, m).0.addr == r.addr + |m.data|
  {
    var image := images[r.id];
    var t := OnData(r, m).0;
    assert image[..t.addr] == image[..r.addr] + m.data;
  }

  lemma SenderKeepsOk(s: Sender, images: seq<bytes>)
    requires SenderOk(s, images)
    ensures SenderOk(Turn(s).0, images)
    ensures forall m :: m in Turn(s).1 ==> Genuine(m, images)
  {
  }

  lemma NewImageKeeps(net: Net, image: bytes)
    requires Inv(net) && |image| < STORE
    ensures Inv(Perform(net, Upload(image)))
  {
    var after := Perform(net, Upload(image));
    assert after.images == net.images + [image];
    assert after.sender.eeprom[..|image|] == image;
    assert forall i :: 0 <= i < |net.images| ==> after.images[i] == net.images[i];
    forall m | m in after.air
      ensures Genuine(m, after.images)
    {
      assert Genuine(m, net.images);
    }
  }

  lemma StepKeepsInv(net: Net, a: Action)
    requires Inv(net)
    requires a.DataArrives? && Possible(net, a) ==> !LateJoin(net.receivers[a.node], a.msg)
    ensures Inv(Perform(net, a))
  {
    if Possible(net, a) {
      match a
      case Upload(image) => NewImageKeeps(net, image);
      case SenderTurn => SenderKeepsOk(net.sender, net.images);
      case NackArrives(m) =>
      case DataArrives(i, m) => DataKeepsPrefixIff(net.receivers[i], m, net.images);
      case Timeout(i) =>
    }
  }

  /** No receiver joins in the middle of an image. */
  ghost predicate JoinsAtStart(net: Net, acts: seq<Action>)
    decreases |acts|
  {
    acts != [] ==>
      && (acts[0].DataArrives? && Possible(net, acts[0]) ==> !LateJoin(net.receivers[acts[0].node], acts[0].msg))
      && JoinsAtStart(Perform(net, acts[0]), acts[1..])
  }

  lemma {:induction false} RunKeepsInv(net: Net, acts: seq<Action>)
    requires Inv(net) && JoinsAtStart(net, acts)
    ensures Inv(Exec(net, acts))
    decreases |acts|
  {
    if acts != [] {
      StepKeepsInv(net, acts[0]);
      RunKeepsInv(Perform(net, acts[0]), acts[1..]);
    }
  }

  lemma StartInv(n: nat)
    ensures Inv(Start(n))
  {
    assert BLANK[..0] == [];
  }

  // ------------------------------------------------------------------ main theorems

  /** Safety: whatever is lost, duplicated, reordered or NACKed, each receiver's store begins
      with a prefix of the one image whose id it holds, and with all of it once it has left
      the receiving loop; the sender's offset stays inside its image. */
  lemma PropagationSafety(n: nat, acts: seq<Action>, i: nat)
    requires JoinsAtStart(Start(n), acts)
    requires i < |Exec(Start(n), acts).receivers|
    ensures var net := Exec(Start(n), acts);
            var r := net.receivers[i];
            && r.id < |net.images| && r.addr <= r.len == |net.images[r.id]| < STORE
            && r.eeprom[..r.addr] == net.images[r.id][..r.addr]
            && (!r.active ==> r.eeprom[..r.len] == net.images[r.id])
            && net.sender.id < |net.images| && net.sender.addr <= net.sender.len == |net.images[net.sender.id]|
  {
    StartInv(n);
    RunKeepsInv(Start(n), acts);
    var net := Exec(Start(n), acts);
    assert HoldsPrefix(net.receivers[i], net.images);
    assert SenderOk(net.sender, net.images);
  }

  /** Ids only increase, an id keeps its image, and within one id the offset only grows. */
  lemma {:induction false} IdsIncrease(net: Net, acts: seq<Action>)
    ensures var last := Exec(net, acts);
            && |last.receivers| == |net.receivers|
            && net.images <= last.images && net.sender.id <= last.sender.id
            && forall i :: 0 <= i < |net.receivers| ==>
                 var r, t := net.receivers[i], last.receivers[i];
                 r.id < t.id || (r.id == t.id && r.addr <= t.addr && r.len == t.len)
    decreases |acts|
  {
    if acts != [] {
      IdsIncrease(Perform(net, acts[0]), acts[1..]);
    }
  }

  /** The run in which a receiver misses the first packet: it stores the second one at 0. */
  lemma SafetyFailsOnLateJoin(image: bytes)
    requires |image| == 64 && image[..32] != image[32..]
    ensures var acts := [Upload(image), SenderTurn, SenderTurn, DataArrives(0, Data(1, 32, 64, image[32..]))];
            var net := Exec(Start(1), acts);
            && |net.receivers| == 1 && net.receivers[0].id == 1 && net.receivers[0].addr == 32
            && net.images == [[], image] && net.receivers[0].eeprom[..32] != image[..32]
  {
    var n0 := Start(1);
    var n1 := Perform(n0, Upload(image));
    assert n1.sender.eeprom[..64] == image;
    var n2 := Perform(n1, SenderTurn);
    assert n2.sender.addr == 32 && n2.receivers == n0.receivers && n2.sender.sending;
    var n3 := Perform(n2, SenderTurn);
    var m := Data(1, 32, 64, image[32..]);
    assert DataOf(n2.sender) == m && m in n3.air;
    var a := DataArrives(0, m);
    var n4 := Perform(n3, a);
    assert n4.receivers[0].eeprom[..32] == image[32..];
    var acts := [Upload(image), SenderTurn, SenderTurn, a];
    assert acts[1..] == [SenderTurn, SenderTurn, a];
    assert acts[1..][1..] == [SenderTurn, a];
    assert acts[1..][1..][1..] == [a];
    assert [a][1..] == [];
    assert Exec(n3, [a]) == n4;
    assert Exec(n2, [SenderTurn, a]) == n4;
    assert Exec(n1, [SenderTurn, SenderTurn, a]) == n4;
  }

  // ------------------------------------------------------------------ progress

  /** The sender and receiver i are at the same offset of the same unfinished image. */
  ghost predicate InStep(net: Net, i: nat) {
    && Inv(net) && i < |net.receivers| && net.sender.sending
    && net.receivers[i].active && net.receivers[i].id == net.sender.id
    && net.receivers[i].addr == net.sender.addr
  }

  /** The sender takes a turn and its packet reaches receiver i. */
  function Round(net: Net, i: nat): Net
    requires SenderReady(net.sender) && net.sender.addr <= net.sender.len
  {
    Perform(Perform(net, SenderTurn), DataArrives(i, DataOf(net.sender)))
  }

  /** Each round stores the next packet and strictly decreases what is missing. */
  lemma RoundProgress(net: Net, i: nat)
    requires InStep(net, i)
    ensures var r, after := net.receivers[i], Round(net, i);
            && Inv(after) && i < |after.receivers| && after.images == net.images
            && after.receivers[i].id == r.id && after.receivers[i].len == r.len
            && after.receivers[i].addr == (if r.len - r.addr > UDPDATASIZE then r.addr + UDPDATASIZE else r.len)
            && (after.receivers[i].active ==> InStep(after, i))
  {
    var m := DataOf(net.sender);
    var mid := Perform(net, SenderTurn);
    StepKeepsInv(net, SenderTurn);
    assert m in mid.air && mid.receivers == net.receivers;
    assert Genuine(m, mid.images);
    assert Receivable(net.receivers[i], m);
    TakeInOrder(net.receivers[i], m, net.images);
    StepKeepsInv(mid, DataArrives(i, m));
  }

  ghost function Rounds(net: Net, i: nat, k: nat): Net
    requires Inv(net)
    ensures k == 0 ==> Rounds(net, i, k) == net
    decreases k
  {
    if k == 0 || !InStep(net, i) then net else
    RoundProgress(net, i);
    Rounds(Round(net, i), i, k - 1)
  }

  /** ceil((len - offset) / 32): the packets that are missing. */
  function Missing(r: Receiver): nat
    requires r.addr <= r.len
  {
    (r.len - r.addr + UDPDATASIZE - 1) / UDPDATASIZE
  }

  lemma MissingStep(r: Receiver, t: Receiver)
    requires r.addr < r.len == t.len
    requires t.addr == if r.len - r.addr > UDPDATASIZE then r.addr + UDPDATASIZE else r.len
    ensures Missing(t) == Missing(r) - 1 && (t.addr == t.len <==> Missing(r) == 1)
  {
  }

  /** Receiver i has left the loop with the whole of image `id`. */
  ghost predicate Complete(net: Net, i: nat, id: nat) {
    && i < |net.receivers| && id < |net.images| && net.receivers[i].id == id && !net.receivers[i].active
    && net.receivers[i].len == |net.images[id]| < STORE
    && net.receivers[i].eeprom[..net.receivers[i].len] == net.images[id]
  }

  lemma LastRound(net: Net, i: nat)
    requires Inv(net) && i < |net.receivers| && !net.receivers[i].active
    ensures Complete(net, i, net.receivers[i].id)
  {
    assert HoldsPrefix(net.receivers[i], net.images);
  }

  lemma {:induction false} RoundsComplete(net: Net, i: nat, k: nat)
    requires InStep(net, i) && net.receivers[i].addr <= net.receivers[i].len && k == Missing(net.receivers[i])
    ensures Inv(Rounds(net, i, k)) && Rounds(net, i, k).images == net.images
    ensures Complete(Rounds(net, i, k), i, net.receivers[i].id)
    decreases k
  {
    assert HoldsPrefix(net.receivers[i], net.images);
    RoundProgress(net, i);
    var after := Round(net, i);
    assert HoldsPrefix(after.receivers[i], after.images);
    MissingStep(net.receivers[i], after.receivers[i]);
    if after.receivers[i].active {
      RoundsComplete(after, i, k - 1);
    } else {
      assert Rounds(net, i, 1) == Rounds(after, i, 0);
      LastRound(after, i);
    }
  }

  /** Receiver i waits for more of the image being sent, at an offset the sender has reached. */
  ghost predicate Waiting(net: Net, i: nat) {
    && Inv(net) && i < |net.receivers| && net.sender.sending && net.receivers[i].active
    && net.receivers[i].id == net.sender.id && net.receivers[i].addr <= net.sender.addr
  }

  /** An accepted NACK puts the sender back to the receiver's offset. */
  lemma NackRewinds(net: Net, i: nat)
    requires Waiting(net, i) && Nack(net.receivers[i].addr) in net.air
    ensures var rewound := Perform(net, NackArrives(Nack(net.receivers[i].addr)));
            InStep(rewound, i) && rewound.receivers == net.receivers && rewound.images == net.images
  {
    StepKeepsInv(net, NackArrives(Nack(net.receivers[i].addr)));
  }

  /** The receiver's NACK timer runs out and its NACK reaches the sender. */
  function Rewound(net: Net, i: nat): Net
    requires i < |net.receivers|
  {
    Perform(Perform(net, Timeout(i)), NackArrives(Nack(net.receivers[i].addr)))
  }

  /** The timer of a waiting receiver brings the sender back to its offset. */
  lemma TimeoutRewinds(net: Net, i: nat)
    requires Waiting(net, i)
    ensures var rewound := Rewound(net, i);
            InStep(rewound, i) && rewound.receivers == net.receivers && rewound.images == net.images
  {
    StepKeepsInv(net, Timeout(i));
    NackRewinds(Perform(net, Timeout(i)), i);
  }

  /** Progress: whatever has happened before, once a waiting receiver's timer has run out and its
      NACK has arrived, the next ceil((len - offset) / 32) packets that arrive complete the image. */
  lemma Progress(net: Net, i: nat)
    requires Waiting(net, i) && net.receivers[i].addr <= net.receivers[i].len
    ensures var rewound := Rewound(net, i);
            && InStep(rewound, i) && rewound.images == net.images
            && Complete(Rounds(rewound, i, Missing(net.receivers[i])), i, net.receivers[i].id)
            && Rounds(rewound, i, Missing(net.receivers[i])).images == net.images
  {
    TimeoutRewinds(net, i);
    RoundsComplete(Rewound(net, i), i, Missing(net.receivers[i]));
  }
}
