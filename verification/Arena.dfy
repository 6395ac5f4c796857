/** The bump arena and the size-header allocator on top of it. */
module Arena {
  import opened Machine
  import opened Options

  /** Rounds up to a word with size_t arithmetic, wrap-around included. */
  function AlignUp(value: nat): nat {
    var w := Wrapped(value + (WORD - 1));
    w - w % WORD
  }

  ghost predicate IsRoundUp(value: nat, r: nat) {
    r % WORD == 0 && value <= r < value + WORD
  }

  /** It rounds up exactly for the values whose round-up still fits. */
  lemma AlignUpExact(value: nat)
    requires value <= SIZE_MAX
    ensures IsRoundUp(value, AlignUp(value)) <==> value <= SIZE_MAX - (WORD - 1)
  {
  }

  /** The overflow guard of calloc rejects exactly the products that do not fit. */
  lemma CallocGuardExact(count: nat, size: nat)
    requires count > 0
    ensures SIZE_MAX / count < size <==> count * size > SIZE_MAX
  {
    var q, r := SIZE_MAX / count, SIZE_MAX % count;
    assert SIZE_MAX == q * count + r;
    if size <= q {
      assert count * size <= count * q by { MulMono(count, size, q); }
    } else {
      assert count * (q + 1) <= count * size by { MulMono(count, q + 1, size); }
      assert count * (q + 1) == count * q + count;
    }
  }

  lemma MulMono(c: nat, x: nat, y: nat)
    requires x <= y
    ensures c * x <= c * y
  {
    assert c * y == c * x + c * (y - x);
  }

  datatype Block = Block(capacity: nat, used: nat)

  /** A place inside a block; blocks are numbered in the order they were obtained. */
  datatype Address = Address(block: nat, offset: nat) {
    function At(k: nat): Address { Address(block, offset + k) }
  }

  /** The allocations handed out, by payload address, with the bytes reserved behind each. */
  type Reservations = map<Address, nat>

  ghost predicate Inside(blocks: seq<Block>, p: Address, size: nat) {
    && p.block < |blocks| && p.offset % WORD == 0 && WORD <= p.offset
    && p.offset + size <= blocks[p.block].used
  }

  /** Header and payload of one allocation end before those of the other begin. */
  predicate Apart(p: Address, n: nat, q: Address, m: nat) {
    p.block != q.block || p.offset + n <= q.offset - WORD || q.offset + m <= p.offset - WORD
  }

  ghost predicate LayoutOk(blocks: seq<Block>, reserved: Reservations) {
    && (forall b :: 0 <= b < |blocks| ==> blocks[b].used <= blocks[b].capacity <= OBJECT_MAX)
    && (forall p :: p in reserved ==> Inside(blocks, p, reserved[p]))
    && (forall p, q :: p in reserved && q in reserved && p != q ==> Apart(p, reserved[p], q, reserved[q]))
  }

  /** Bytes of different allocations, and headers and payloads, never coincide. */
  lemma AllocationsDisjoint(blocks: seq<Block>, reserved: Reservations, p: Address, q: Address, i: nat, j: nat)
    requires LayoutOk(blocks, reserved) && p in reserved && q in reserved
    requires p != q && i < reserved[p]
    ensures j < reserved[q] ==> p.At(i) != q.At(j)
    ensures j < WORD ==> p.At(i) != Address(q.block, q.offset - WORD + j)
  {
    assert Apart(p, reserved[p], q, reserved[q]);
  }

  /** What malloc is asked for in front of a block's bytes. */
  const BLOCK_HEADER: nat := 3 * WORD

  /** The place behind the bytes used so far, and the test for room, in size_t arithmetic. */
  predicate FitsIn(b: Block, aligned: nat) {
    Wrapped(AlignUp(b.used) + aligned) <= b.capacity
  }

  /** The newest block passes the test for room. */
  predicate HasRoom(blocks: seq<Block>, size: nat) {
    |blocks| > 0 && FitsIn(blocks[|blocks| - 1], AlignUp(size))
  }

  /** The test for room is right exactly when the sum does not wrap to a small number. */
  lemma FitsInExact(b: Block, aligned: nat)
    requires b.used <= b.capacity <= OBJECT_MAX && aligned <= SIZE_MAX
    ensures (FitsIn(b, aligned) <==> AlignUp(b.used) + aligned <= b.capacity) <==>
            (AlignUp(b.used) + aligned <= SIZE_MAX || AlignUp(b.used) + aligned - SIZE_MAX - 1 > b.capacity)
  {
    AlignUpExact(b.used);
  }

  function NewCapacity(blockSize: nat, aligned: nat): nat {
    if blockSize < aligned then aligned else blockSize
  }

  /** No sum made for taking a number of bytes wraps. */
  predicate NoWrap(blocks: seq<Block>, blockSize: nat, size: nat) {
    && size <= SIZE_MAX - (WORD - 1)
    && BLOCK_HEADER + NewCapacity(blockSize, AlignUp(size)) <= SIZE_MAX
    && (|blocks| > 0 ==> AlignUp(blocks[|blocks| - 1].used) + AlignUp(size) <= SIZE_MAX)
  }

  /** A request with its header is refused by the guard, or makes no sum wrap. */
  predicate Safe(blocks: seq<Block>, blockSize: nat, request: nat) {
    Granted(request) > SIZE_MAX - WORD || NoWrap(blocks, blockSize, WORD + Granted(request))
  }

  /** malloc refuses a block for so many bytes. */
  predicate TooLarge(blockSize: nat, size: nat) {
    BLOCK_HEADER + NewCapacity(blockSize, AlignUp(size)) > OBJECT_MAX
  }

  /** malloc turns down the block that a request with its header needs: because it is out
      of memory, or, where no sum wraps, because the block is larger than any object. */
  predicate Denied(blocks: seq<Block>, blockSize: nat, request: nat, available: bool) {
    && Granted(request) <= SIZE_MAX - WORD && !HasRoom(blocks, WORD + Granted(request))
    && (!available || (NoWrap(blocks, blockSize, WORD + Granted(request)) &&
                       TooLarge(blockSize, WORD + Granted(request))))
  }

  /** What the absence of wrapping gives, and what the test for room then admits. */
  lemma NoWrapFacts(blocks: seq<Block>, blockSize: nat, size: nat)
    requires NoWrap(blocks, blockSize, size)
    ensures IsRoundUp(size, AlignUp(size))
    ensures Wrapped(BLOCK_HEADER + NewCapacity(blockSize, AlignUp(size))) ==
            BLOCK_HEADER + NewCapacity(blockSize, AlignUp(size))
    ensures AlignUp(0) == 0 && AlignUp(size) <= NewCapacity(blockSize, AlignUp(size))
    ensures |blocks| > 0 ==> AlignUp(blocks[|blocks| - 1].used) + AlignUp(size) <= SIZE_MAX
    ensures TooLarge(blockSize, size) <==> BLOCK_HEADER + NewCapacity(blockSize, AlignUp(size)) > OBJECT_MAX
  {
    AlignUpExact(size);
  }

  lemma RoomTaken(b: Block, aligned: nat)
    requires b.used <= b.capacity <= OBJECT_MAX && AlignUp(b.used) + aligned <= SIZE_MAX
    ensures IsRoundUp(b.used, AlignUp(b.used))
    ensures Wrapped(AlignUp(b.used) + aligned) == AlignUp(b.used) + aligned
    ensures FitsIn(b, aligned) <==> AlignUp(b.used) + aligned <= b.capacity
  {
    AlignUpExact(b.used);
  }

  /** Whatever has been handed out, every request up to half the address space is safe. */
  lemma SmallIsSafe(blocks: seq<Block>, reserved: Reservations, blockSize: nat, request: nat)
    requires LayoutOk(blocks, reserved) && blockSize <= SIZE_MAX - BLOCK_HEADER
    requires request <= OBJECT_MAX - 2 * WORD
    ensures Safe(blocks, blockSize, request)
  {
    AlignUpExact(WORD + Granted(request));
    if |blocks| > 0 {
      AlignUpExact(blocks[|blocks| - 1].used);
    }
  }

  class Allocator {
    var blocks: seq<Block>
    const blockSize: nat
    /** Payload contents; a byte never written is absent. */
    var bytes: map<Address, Byte>
    /** The header word in front of each payload, by payload address. */
    var sizes: map<Address, nat>
    ghost var reserved: Reservations

    ghost predicate Valid()
      reads this
    {
      && blockSize <= SIZE_MAX
      && LayoutOk(blocks, reserved)
      && sizes.Keys == reserved.Keys
      && (forall p :: p in sizes ==> sizes[p] <= reserved[p])
    }

    constructor (size: nat)
      requires size <= SIZE_MAX
      ensures Valid() && reserved == map[] && blocks == []
      ensures blockSize == if size == 0 then 1024 * 1024 else size
    {
      blockSize := if size == 0 then 1024 * 1024 else size;
      blocks, bytes, sizes, reserved := [], map[], map[], map[];
    }

    /** Takes an aligned stretch from the newest block, or from a new one.
        `available` says whether malloc would succeed on a size it accepts. */
    method LarenaAlloc(request: nat, available: bool) returns (r: Option<Address>)
      requires Valid() && request <= SIZE_MAX
      modifies `blocks
      ensures old(NoWrap(blocks, blockSize, Granted(request))) ==>
        && (r.None? ==> blocks == old(blocks) && (!available || TooLarge(blockSize, Granted(request))))
        && (r.Some? ==>
              && |old(blocks)| <= |blocks| && r.value.block == |blocks| - 1
              && (forall b :: 0 <= b < |old(blocks)| ==>
                    blocks[b].capacity == old(blocks)[b].capacity && old(blocks)[b].used <= blocks[b].used)
              && (forall b :: 0 <= b < |blocks| ==> blocks[b].used <= blocks[b].capacity <= OBJECT_MAX)
              && r.value.offset % WORD == 0
              && r.value.offset + request <= blocks[r.value.block].used
              && (r.value.block < |old(blocks)| ==> old(blocks)[r.value.block].used <= r.value.offset))
      ensures old(HasRoom(blocks, Granted(request))) ==>
        r == Some(Address(|old(blocks)| - 1, AlignUp(old(blocks)[|old(blocks)| - 1].used))) && |blocks| == |old(blocks)|
      ensures !old(HasRoom(blocks, Granted(request))) && !available ==> r.None? && blocks == old(blocks)
      ensures old(NoWrap(blocks, blockSize, Granted(request))) && !old(HasRoom(blocks, Granted(request))) ==>
        (r.None? <==> !available || TooLarge(blockSize, Granted(request)))
      ensures old(NoWrap(blocks, blockSize, Granted(request))) && !old(HasRoom(blocks, Granted(request))) && r.Some? ==>
        var needed := AlignUp(Granted(request));
        && r == Some(Address(|old(blocks)|, 0))
        && blocks == old(blocks) + [Block(if blockSize < needed then needed else blockSize, needed)]
      ensures old(NoWrap(blocks, blockSize, Granted(request))) && old(HasRoom(blocks, Granted(request))) ==>
        var last := |old(blocks)| - 1;
        var used := AlignUp(old(blocks)[last].used) + AlignUp(Granted(request));
        blocks == old(blocks)[last := old(blocks)[last].(used := used)]
    {
      hide AlignUp, NoWrap, FitsIn, Wrapped, TooLarge;
      var size := Granted(request);
      var aligned := AlignUp(size);
      ghost var safe := NoWrap(blocks, blockSize, size);
      if safe {
        NoWrapFacts(blocks, blockSize, size);
      }
      if |blocks| == 0 || !FitsIn(blocks[|blocks| - 1], aligned) {
        var capacity := NewCapacity(blockSize, aligned);
        if !available || Wrapped(BLOCK_HEADER + capacity) > OBJECT_MAX {
          return None;
        }
        blocks := blocks + [Block(capacity, 0)];
      }
      var head := blocks[|blocks| - 1];
      if safe {
        RoomTaken(head, aligned);
      }
      if !FitsIn(head, aligned) {
        return None;
      }
      var offset := AlignUp(head.used);
      blocks := blocks[|blocks| - 1 := head.(used := Wrapped(offset + aligned))];
      r := Some(Address(|blocks| - 1, offset));
    }

    /** The header word in front, the payload behind it, zeroed on request. */
    method AllocWithHeader(request: nat, zero: bool, available: bool) returns (r: Option<Address>)
      requires Valid() && request <= SIZE_MAX
      modifies this
      ensures Granted(request) > SIZE_MAX - WORD ==> r.None?
      ensures old(Denied(blocks, blockSize, request, available)) ==> r.None?
      ensures r.None? ==> reserved == old(reserved) && bytes == old(bytes) && sizes == old(sizes)
      ensures r.Some? ==> sizes == old(sizes)[r.value := Granted(request)]
      ensures !zero ==> bytes == old(bytes)
      ensures r.Some? && zero ==> forall k :: 0 <= k < Granted(request) ==> ByteAt(bytes, r.value, k) == Some(0)
      ensures old(Safe(blocks, blockSize, request)) ==>
        && Valid()
        && (r.None? <==> Granted(request) > SIZE_MAX - WORD || old(Denied(blocks, blockSize, request, available)))
        && (r.Some? ==> r.value !in old(reserved) && reserved == old(reserved)[r.value := Granted(request)])
        && (forall p, k :: p in old(reserved) && 0 <= k < old(reserved)[p] ==>
              ByteAt(bytes, p, k) == old(ByteAt(bytes, p, k)))
    {
      hide LayoutOk, Inside, AlignUp, NoWrap, HasRoom, ByteAt, Apart, TooLarge;
      var size := Granted(request);
      if SIZE_MAX - size < WORD {
        return None;
      }
      var base := LarenaAlloc(WORD + size, available);
      if base.None? {
        return None;
      }
      var p := base.value.At(WORD);
      ghost var safe := NoWrap(old(blocks), blockSize, WORD + size);
      if safe {
        LayoutBounds(old(blocks), old(reserved));
        NewAllocation(old(blocks), blocks, reserved, base.value, size);
      }
      reserved := reserved[p := size];
      sizes := sizes[p := size];
      if zero {
        bytes := Filled(bytes, p, size, 0);
        FilledWith(old(bytes), p, size, 0);
        if safe {
          FillTouchesNothing(blocks, reserved, old(bytes), p, size, 0);
        }
      }
      r := Some(p);
    }

    method Malloc(size: nat, available: bool) returns (r: Option<Address>)
      requires Valid() && size <= SIZE_MAX
      modifies this
      ensures Granted(size) > SIZE_MAX - WORD ==> r.None?
      ensures old(Denied(blocks, blockSize, size, available)) ==> r.None?
      ensures r.None? ==> reserved == old(reserved) && bytes == old(bytes) && sizes == old(sizes)
      ensures r.Some? ==> sizes == old(sizes)[r.value := Granted(size)]
      ensures old(Safe(blocks, blockSize, size)) ==>
        && Valid()
        && (r.None? <==> Granted(size) > SIZE_MAX - WORD || old(Denied(blocks, blockSize, size, available)))
        && (r.Some? ==> r.value !in old(reserved) && reserved == old(reserved)[r.value := Granted(size)])
        && (forall p, k :: p in old(reserved) && 0 <= k < old(reserved)[p] ==>
              ByteAt(bytes, p, k) == old(ByteAt(bytes, p, k)))
    {
      hide *;
      r := AllocWithHeader(size, false, available);
    }

    /** An array of zeros, refused when the product does not fit. */
    method Calloc(count: nat, size: nat, available: bool) returns (r: Option<Address>)
      requires Valid() && count <= SIZE_MAX && size <= SIZE_MAX
      modifies this
      ensures count * size > SIZE_MAX - WORD ==> r.None?
      ensures old(Denied(blocks, blockSize, count * size, available)) ==> r.None?
      ensures r.None? ==> reserved == old(reserved) && bytes == old(bytes) && sizes == old(sizes)
      ensures r.Some? ==> sizes == old(sizes)[r.value := Granted(count * size)]
      ensures r.Some? ==> forall k :: 0 <= k < Granted(count * size) ==> ByteAt(bytes, r.value, k) == Some(0)
      ensures count * size > SIZE_MAX || old(Safe(blocks, blockSize, count * size)) ==>
        && Valid()
        && (r.None? <==> Granted(count * size) > SIZE_MAX - WORD ||
                         old(Denied(blocks, blockSize, count * size, available)))
        && (r.Some? ==> r.value !in old(reserved) && reserved == old(reserved)[r.value := Granted(count * size)])
        && (forall p, k :: p in old(reserved) && 0 <= k < old(reserved)[p] ==>
              ByteAt(bytes, p, k) == old(ByteAt(bytes, p, k)))
    {
      hide *;
      GrantedIs(count * size);
      if count == 0 || size == 0 {
        assert count * size == 0;
        r := AllocWithHeader(0, true, available);
        return;
      }
      CallocGuardExact(count, size);
      if SIZE_MAX / count < size {
        return None;
      }
      r := AllocWithHeader(count * size, true, available);
    }

    /** Shrinks in place, otherwise moves: the header remembers the last size asked
        for, and the first bytes survive either way. */
    method Realloc(ptr: Option<Address>, size: nat, available: bool) returns (r: Option<Address>)
      requires Valid() && size <= SIZE_MAX && (ptr.Some? ==> ptr.value in sizes)
      modifies this
      ensures ptr.Some? && size == 0 ==> r.None?
      ensures (ptr.Some? ==> size > old(sizes)[ptr.value]) && old(Denied(blocks, blockSize, size, available)) ==> r.None?
      ensures r.None? ==> reserved == old(reserved) && bytes == old(bytes) && sizes == old(sizes)
      ensures r.Some? ==> r.value in sizes && sizes[r.value] == Granted(size)
      ensures ptr.Some? && 0 < size <= old(sizes)[ptr.value] ==>
        && Valid() && r == ptr
        && sizes == old(sizes)[ptr.value := size] && reserved == old(reserved) && bytes == old(bytes)
      ensures old(Safe(blocks, blockSize, size)) ==>
        && Valid()
        && (r.None? <==> (ptr.Some? && size == 0) ||
                         ((ptr.Some? ==> size > old(sizes)[ptr.value]) &&
                          (Granted(size) > SIZE_MAX - WORD || old(Denied(blocks, blockSize, size, available)))))
        && (ptr.Some? && r.Some? && size > old(sizes)[ptr.value] ==>
              && r.value !in old(reserved) && reserved == old(reserved)[r.value := size]
              && (forall k :: 0 <= k < old(sizes)[ptr.value] && old(ByteAt(bytes, ptr.value, k)).Some? ==>
                    ByteAt(bytes, r.value, k) == old(ByteAt(bytes, ptr.value, k))))
        && (forall p, k :: p in old(reserved) && 0 <= k < old(reserved)[p] ==>
              ByteAt(bytes, p, k) == old(ByteAt(bytes, p, k)))
    {
      hide LayoutOk, ByteAt, Safe, Denied;
      if ptr.None? {
        r := Malloc(size, available);
        return;
      }
      if size == 0 {
        return None;
      }
      var oldSize := sizes[ptr.value];
      if size <= oldSize {
        sizes := sizes[ptr.value := size];
        return ptr;
      }
      r := Malloc(size, available);
      if r.Some? {
        CopyTo(ptr.value, r.value, oldSize);
      }
    }

    /** Copies the old payload into a fresh allocation, touching nothing else. */
    method CopyTo(from: Address, to: Address, n: nat)
      modifies `bytes
      ensures old(Valid()) && from in reserved && to in reserved && from != to &&
              n <= reserved[from] && n <= reserved[to] ==>
        && Valid()
        && (forall k :: 0 <= k < n && old(ByteAt(bytes, from, k)).Some? ==>
              ByteAt(bytes, to, k) == old(ByteAt(bytes, from, k)))
        && (forall p, k :: p in reserved && p != to && 0 <= k < reserved[p] ==>
              ByteAt(bytes, p, k) == old(ByteAt(bytes, p, k)))
    {
      hide Copied, ByteAt;
      if Valid() && from in reserved && to in reserved && n <= reserved[from] && n <= reserved[to] && from != to {
        forall k | 0 <= k < n && ByteAt(bytes, from, k).Some?
          ensures ByteAt(Copied(bytes, from, to, n), to, k) == ByteAt(bytes, from, k)
        {
          CopiedAt(bytes, from, to, n, k);
        }
        forall q, k | q in reserved && q != to && 0 <= k < reserved[q]
          ensures ByteAt(Copied(bytes, from, to, n), q, k) == ByteAt(bytes, q, k)
        {
          forall i | 0 <= i < n ensures to.At(i) != q.At(k) {
            AllocationsDisjoint(blocks, reserved, to, q, i, k);
          }
          CopiedElsewhere(bytes, from, to, n, q, k);
        }
      }
      bytes := Copied(bytes, from, to, n);
    }
  }

  /** A request for nothing gets one byte. */
  function Granted(request: nat): nat {
    if request == 0 then 1 else request
  }

  function ByteAt(bytes: map<Address, Byte>, p: Address, k: nat): Option<Byte> {
    if p.At(k) in bytes then Some(bytes[p.At(k)]) else None
  }

  /** memset. */
  function Filled(bytes: map<Address, Byte>, p: Address, n: nat, value: Byte): map<Address, Byte> {
    bytes + map k | 0 <= k < n :: p.At(k) := value
  }

  lemma FilledAt(bytes: map<Address, Byte>, p: Address, n: nat, value: Byte, k: nat)
    requires k < n
    ensures ByteAt(Filled(bytes, p, n, value), p, k) == Some(value)
  {
    assert p.At(k) in map i | 0 <= i < n :: p.At(i) := value;
  }

  lemma FilledElsewhere(bytes: map<Address, Byte>, p: Address, n: nat, value: Byte, q: Address, k: nat)
    requires forall i :: 0 <= i < n ==> p.At(i) != q.At(k)
    ensures ByteAt(Filled(bytes, p, n, value), q, k) == ByteAt(bytes, q, k)
  {
  }

  /** memcpy; a byte never written stays unwritten. */
  function Copied(bytes: map<Address, Byte>, from: Address, to: Address, n: nat): map<Address, Byte> {
    bytes + CopyOf(bytes, from, to, n)
  }

  function CopyOf(bytes: map<Address, Byte>, from: Address, to: Address, n: nat): map<Address, Byte> {
    map k | 0 <= k < n && from.At(k) in bytes :: to.At(k) := bytes[from.At(k)]
  }

  lemma CopiedAt(bytes: map<Address, Byte>, from: Address, to: Address, n: nat, k: nat)
    requires k < n && ByteAt(bytes, from, k).Some?
    ensures ByteAt(Copied(bytes, from, to, n), to, k) == ByteAt(bytes, from, k)
  {
    assert to.At(k) in CopyOf(bytes, from, to, n);
  }

  lemma CopiedElsewhere(bytes: map<Address, Byte>, from: Address, to: Address, n: nat, q: Address, k: nat)
    requires forall i :: 0 <= i < n ==> to.At(i) != q.At(k)
    ensures ByteAt(Copied(bytes, from, to, n), q, k) == ByteAt(bytes, q, k)
  {
    assert q.At(k) !in CopyOf(bytes, from, to, n);
  }

  lemma GrantedIs(request: nat)
    ensures Granted(request) == if request == 0 then 1 else request
  {
  }

  lemma LayoutBounds(blocks: seq<Block>, reserved: Reservations)
    requires LayoutOk(blocks, reserved)
    ensures forall b :: 0 <= b < |blocks| ==> blocks[b].used <= blocks[b].capacity <= OBJECT_MAX
  {
  }

  lemma FilledWith(bytes: map<Address, Byte>, p: Address, n: nat, value: Byte)
    ensures forall k :: 0 <= k < n ==> ByteAt(Filled(bytes, p, n, value), p, k) == Some(value)
  {
    hide Filled, ByteAt;
    forall k | 0 <= k < n ensures ByteAt(Filled(bytes, p, n, value), p, k) == Some(value) {
      FilledAt(bytes, p, n, value, k);
    }
  }

  /** Filling one allocation leaves the bytes of all others alone. */
  lemma FillTouchesNothing(blocks: seq<Block>, reserved: Reservations, bytes: map<Address, Byte>,
                           p: Address, n: nat, value: Byte)
    requires LayoutOk(blocks, reserved) && p in reserved && n <= reserved[p]
    ensures forall q, k :: q in reserved && q != p && 0 <= k < reserved[q] ==>
      ByteAt(Filled(bytes, p, n, value), q, k) == ByteAt(bytes, q, k)
  {
    hide Filled, ByteAt;
    forall q, k | q in reserved && q != p && 0 <= k < reserved[q]
      ensures ByteAt(Filled(bytes, p, n, value), q, k) == ByteAt(bytes, q, k)
    {
      forall i | 0 <= i < n ensures p.At(i) != q.At(k) {
        AllocationsDisjoint(blocks, reserved, p, q, i, k);
      }
      FilledElsewhere(bytes, p, n, value, q, k);
    }
  }

  /** A stretch taken behind everything used so far is apart from all allocations. */
  lemma NewAllocation(before: seq<Block>, after: seq<Block>, reserved: Reservations, base: Address, size: nat)
    requires LayoutOk(before, reserved) && |before| <= |after| && base.block == |after| - 1
    requires forall b :: 0 <= b < |before| ==>
      after[b].capacity == before[b].capacity && before[b].used <= after[b].used
    requires forall b :: 0 <= b < |after| ==> after[b].used <= after[b].capacity <= OBJECT_MAX
    requires base.offset % WORD == 0 && base.offset + WORD + size <= after[base.block].used
    requires base.block < |before| ==> before[base.block].used <= base.offset
    ensures base.At(WORD) !in reserved
    ensures LayoutOk(after, reserved[base.At(WORD) := size])
  {
    var p := base.At(WORD);
    forall q | q in reserved ensures Apart(p, size, q, reserved[q]) && Apart(q, reserved[q], p, size) && q != p {
      assert Inside(before, q, reserved[q]);
    }
    forall q | q in reserved ensures Inside(after, q, reserved[q]) {
      assert Inside(before, q, reserved[q]);
    }
  }
}
