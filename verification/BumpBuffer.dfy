/**
 The bump allocator of apps/rest-common/buffer.c.  Blocks are identified by their offset in
 the buffer; sizes are 16-bit.
 */
module BumpBuffer {
  import opened Bytes

  datatype Arena = Arena(present: bool, size: u16, index: u16)

  datatype Block = Block(at: nat, len: nat)

  datatype Result = Failed | Allocated(at: nat)

  const EMPTY := Arena(false, 0, 0)

  function Deleted(a: Arena): Arena {
    if a.present then EMPTY else a
  }

  /** `granted` says whether malloc succeeded. */
  function Initialised(a: Arena, size: u16, granted: bool): Arena {
    if granted then Arena(true, size, 0) else Deleted(a).(index := 0)
  }

  /** Odd sizes are rounded up, in 16 bits. */
  function Rounded(size: u16): u16 {
    if size % 2 == 1 then (size + 1) % 0x1_0000 else size
  }

  function Allocate(a: Arena, size: u16): (Arena, Result) {
    if a.index + Rounded(size) < a.size
    then (a.(index := a.index + Rounded(size)), Allocated(a.index))
    else (a, Failed)
  }

  /** When a request succeeds: the size, made even, has to fit with a byte to spare; the block begins
      where the last one ended.  Without success nothing changes. */
  lemma AllocateMeaning(a: Arena, size: u16)
    requires size != 0xffff
    ensures var even := size as int + size as int % 2;
            var (b, r) := Allocate(a, size);
            && (a.index as int + even < a.size ==>
                  r == Allocated(a.index) && b == Arena(a.present, a.size, a.index + even))
            && (a.index as int + even >= a.size ==> r == Failed && b == a)
  {
  }

  /** A new buffer has room from its start; one that was refused, or is deleted, has none. */
  lemma FreshRoom(a: Arena, n: u16, size: u16)
    requires size != 0xffff && (!a.present ==> a.size == 0)
    ensures Allocate(Initialised(a, n, true), size).1
         == if size as int + size as int % 2 < n then Allocated(0) else Failed
    ensures Allocate(Initialised(a, n, false), size).1 == Failed
    ensures Allocate(Deleted(a), size).1 == Failed
  {
  }

  // ------------------------------------------------------------------ runs

  datatype Op = Init(size: u16, granted: bool) | Alloc(size: u16) | Delete

  datatype Heap = Heap(arena: Arena, live: seq<Block>)

  /** One operation; a new or deleted buffer ends the life of all blocks. */
  function Step(h: Heap, op: Op): Heap {
    match op
    case Init(size, granted) => Heap(Initialised(h.arena, size, granted), [])
    case Delete => Heap(Deleted(h.arena), if h.arena.present then [] else h.live)
    case Alloc(size) =>
      var (a, r) := Allocate(h.arena, size);
      Heap(a, if r.Failed? then h.live else h.live + [Block(r.at, size)])
  }

  function Run(h: Heap, ops: seq<Op>): Heap
    decreases |ops|
  {
    if ops == [] then h else Run(Step(h, ops[0]), ops[1..])
  }

  ghost predicate Sound(h: Heap) {
    && (!h.arena.present ==> h.arena.size == 0)
    && h.arena.index <= h.arena.size && h.arena.index % 2 == 0
    && (forall i :: 0 <= i < |h.live| ==> h.live[i].at % 2 == 0 && h.live[i].at + h.live[i].len <= h.arena.index)
    && (forall i, j :: 0 <= i < j < |h.live| ==> h.live[i].at + h.live[i].len <= h.live[j].at)
  }

  /** A block is as large as was asked for exactly when rounding up does not wrap. */
  lemma RoundedLargeEnough(size: u16)
    ensures Rounded(size) % 2 == 0
    ensures Rounded(size) >= size <==> size != 0xffff
  {
  }

  lemma StepKeepsSound(h: Heap, op: Op)
    requires Sound(h) && (op.Alloc? ==> op.size != 0xffff)
    ensures Sound(Step(h, op))
  {
    if op.Alloc? {
      RoundedLargeEnough(op.size);
    }
  }

  /** Over any run from the empty state, live blocks are even-aligned, inside the buffer and
      pairwise disjoint, and a missing buffer has size 0. */
  lemma {:induction false} AllocationsDisjoint(h: Heap, ops: seq<Op>)
    requires Sound(h)
    requires forall k :: 0 <= k < |ops| && ops[k].Alloc? ==> ops[k].size != 0xffff
    ensures Sound(Run(h, ops))
    decreases |ops|
  {
    if ops != [] {
      StepKeepsSound(h, ops[0]);
      AllocationsDisjoint(Step(h, ops[0]), ops[1..]);
    }
  }

  /** Asking for 0xffff bytes wraps to none: the next block starts at the same place. */
  lemma WrapOverlaps()
    ensures var h := Run(Heap(EMPTY, []), [Init(100, true), Alloc(0xffff), Alloc(2)]);
            h.live == [Block(0, 0xffff), Block(0, 2)]
  {
    var ops: seq<Op> := [Init(100, true), Alloc(0xffff), Alloc(2)];
    var h1 := Step(Heap(EMPTY, []), ops[0]);
    var h2 := Step(h1, ops[1]);
    var h3 := Step(h2, ops[2]);
    assert ops[1..][1..] == [Alloc(2)] && ops[1..][1..][1..] == [];
    assert Run(h2, ops[1..][1..]) == h3;
    assert Run(h1, ops[1..]) == h3;
  }

  // ------------------------------------------------------------------ in place

  class Buffer {
    var present: bool
    var size: u16
    var index: u16

    ghost function State(): Arena
      reads this
    {
      Arena(present, size, index)
    }

    constructor ()
      ensures State() == EMPTY
    {
      present, size, index := false, 0, 0;
    }

    method DeleteBuffer()
      modifies this
      ensures State() == Deleted(old(State()))
    {
      if present {
        present, index, size := false, 0, 0;
      }
    }

    method InitBuffer(n: u16, granted: bool)
      modifies this
      ensures State() == Initialised(old(State()), n, granted)
    {
      DeleteBuffer();
      if granted {
        present, size := true, n;
      }
      index := 0;
    }

    method AllocateBuffer(n: u16) returns (r: Result)
      modifies this
      ensures (State(), r) == Allocate(old(State()), n)
    {
      var even := if n % 2 == 1 then (n + 1) % 0x1_0000 else n;
      if index + even < size {
        r := Allocated(index);
        index := index + even;
      } else {
        r := Failed;
      }
    }
  }
}
