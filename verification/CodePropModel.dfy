/**
 The code propagator of apps/codeprop/codeprop.c as values: the go-back-N sender, the
 receiver thread, and the EEPROM they read and write.  Addresses and lengths are 16-bit and
 are taken not to wrap; `STORE` bytes are behind the code address.
 */
module CodePropModel {
  import opened Bytes

  const UDPDATASIZE := 32
  const STORE := 0x1_0000

  type Eeprom = s: bytes | |s| == STORE witness seq(STORE, _ => 0)

  datatype Msg =
    | Data(id: nat, addr: nat, len: nat, data: bytes)
    | Nack(addr: nat)

  /** `active` means the thread is inside the receiving loop. */
  datatype Receiver = Receiver(active: bool, id: nat, addr: nat, len: nat, eeprom: Eeprom)

  datatype Sender = Sender(sending: bool, id: nat, addr: nat, len: nat, eeprom: Eeprom)

  function Write(eeprom: Eeprom, at: nat, data: bytes): Eeprom
    requires at + |data| <= STORE
  {
    eeprom[..at] + data + eeprom[at + |data|..]
  }

  // ------------------------------------------------------------------ receiver

  /** No 16-bit overflow when `data` is stored behind what is already there. */
  predicate Fits(r: Receiver, data: bytes) {
    r.addr + |data| < STORE
  }

  /** One pass of the receiving loop over a packet whose header shows address `addr`. */
  function Take(r: Receiver, addr: nat, data: bytes): (Receiver, seq<Msg>)
    requires addr == r.addr ==> Fits(r, data)
  {
    var (t, out) :=
      if addr == r.addr then (r.(eeprom := Write(r.eeprom, r.addr, data), addr := r.addr + |data|), [])
      else if addr > r.addr then (r, [Nack(r.addr)])
      else (r, []);
    (t.(active := t.addr < t.len), out)
  }

  predicate Joins(r: Receiver, m: Msg) {
    m.Data? && !r.active && m.id > r.id
  }

  predicate Continues(r: Receiver, m: Msg) {
    m.Data? && r.active && m.id == r.id
  }

  /** A packet that is stored has to fit: behind address 0 on a join, else behind what is there. */
  predicate Receivable(r: Receiver, m: Msg) {
    m.Data? && |m.data| < STORE && (Continues(r, m) && m.addr == r.addr ==> Fits(r, m.data))
  }

  /** A DATA packet.  On a join at a nonzero address the thread answers NACK 0 in the very
      buffer that holds the packet, so that the tests that follow read address 0. */
  function OnData(r: Receiver, m: Msg): (Receiver, seq<Msg>)
    requires Receivable(r, m)
  {
    if Joins(r, m) then
      var joined := r.(addr := 0, id := m.id, len := m.len);
      var nack := if m.addr != 0 then [Nack(0)] else [];
      if m.len == 0 then (joined, nack) else
      var (t, out) := Take(joined, 0, m.data);
      (t, nack + out)
    else if Continues(r, m) then Take(r, m.addr, m.data)
    else (r, [])
  }

  /** The NACK timer of the receiving loop. */
  function OnTimeout(r: Receiver): seq<Msg> {
    if r.active then [Nack(r.addr)] else []
  }

  // ------------------------------------------------------------------ sender

  /** The bytes of the packet at `addr`: 32 of them, or what is left. */
  function Chunk(image: bytes, addr: nat): bytes
    requires addr <= |image|
  {
    if |image| - addr > UDPDATASIZE then image[addr..addr + UDPDATASIZE] else image[addr..]
  }

  predicate SenderReady(s: Sender) {
    s.len < STORE
  }

  function DataOf(s: Sender): Msg
    requires SenderReady(s) && s.addr <= s.len
  {
    Data(s.id, s.addr, s.len, Chunk(s.eeprom[..s.len], s.addr))
  }

  /** One turn of the sending loop: send and advance, or leave the loop. */
  function Turn(s: Sender): (Sender, seq<Msg>)
    requires SenderReady(s)
  {
    if !s.sending then (s, [])
    else if s.addr < s.len then (s.(addr := s.addr + |DataOf(s).data|), [DataOf(s)])
    else (s.(sending := false), [])
  }

  /** Only a NACK for a lower (or the same) byte rewinds. */
  function OnNack(s: Sender, addr: nat): Sender {
    if s.sending && addr <= s.addr then s.(addr := addr) else s
  }

  /** A new image, put at the start of the store, begins to be broadcast. */
  function Broadcast(s: Sender, image: bytes): Sender
    requires |image| < STORE
  {
    Sender(true, s.id + 1, 0, |image|, Write(s.eeprom, 0, image))
  }
}
