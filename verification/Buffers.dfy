/** Byte buffers (`buffer::Buffer`), the pool that slices one block into them, and concatenation. */
module Buffers {
  import opened Prelude

  type byte = x: int | 0 <= x < 256

  /** A buffer over a range of a block of memory, with the number of shared pointers to it. */
  class Buffer {
    const mem: array<byte>
    const base: nat
    const max: nat
    var size: nat
    var useCount: nat

    ghost predicate Valid()
      reads this
    {
      base + max <= mem.Length && size <= max
    }

    ghost function Contents(): (r: seq<byte>)
      requires Valid()
      reads this, mem
      ensures |r| == size
    {
      mem[base..base + size]
    }

    /** A slice of memory owned by someone else; a new buffer claims its whole capacity as size. */
    constructor NotOwned(mem: array<byte>, base: nat, max: nat)
      requires base + max <= mem.Length
      ensures Valid() && this.mem == mem && this.base == base && this.max == max && size == max && useCount == 1
    {
      this.mem, this.base, this.max, this.size, this.useCount := mem, base, max, max, 1;
    }

    constructor Allocate(max: nat)
      ensures Valid() && fresh(mem) && base == 0 && this.max == max == mem.Length && size == max && useCount == 1
    {
      mem := new byte[max](_ => 0);
      base, this.max, size, useCount := 0, max, max, 1;
    }

    /** Asked through a temporary pointer of its own, next to the one in the pool. */
    method IsInUse() returns (r: bool)
      requires useCount >= 1
      ensures r <==> useCount > 1
    {
      var count := useCount + 1;
      assert count >= 2;
      r := count > 2;
    }

    method SetSize(sz: nat)
      requires Valid() && sz <= max
      modifies this`size
      ensures Valid() && size == sz
    {
      size := sz;
    }

    method Assign(data: seq<byte>)
      requires Valid() && |data| <= max
      modifies this`size, mem
      ensures Valid() && Contents() == data
      ensures forall i :: 0 <= i < mem.Length && !(base <= i < base + max) ==> mem[i] == old(mem[i])
    {
      size := 0;
      Append(data);
    }

    method Append(data: seq<byte>)
      requires Valid() && size + |data| <= max
      modifies this`size, mem
      ensures Valid() && Contents() == old(Contents()) + data
      ensures forall i :: 0 <= i < mem.Length && !(base <= i < base + max) ==> mem[i] == old(mem[i])
    {
      forall i | 0 <= i < |data| {
        mem[base + size + i] := data[i];
      }
      size := size + |data|;
    }
  }

  /** Two buffers that cover no byte together. */
  ghost predicate Apart(a: Buffer, b: Buffer)
  {
    a.mem != b.mem || a.base + a.max <= b.base || b.base + b.max <= a.base
  }

  /** The slices of a block, one after the other. */
  method Sliced(memory: array<byte>, number: nat, size: nat) returns (bufs: seq<Buffer>)
    requires memory.Length == number * size
    ensures |bufs| == number && forall j, k :: 0 <= j < k < number ==> bufs[j] != bufs[k]
    ensures forall j :: 0 <= j < number ==>
              var b := bufs[j];
              fresh(b) && b.Valid() && b.mem == memory && b.base == j * size && b.max == size && b.useCount == 1
  {
    bufs := [];
    var mem := 0;
    for i := 0 to number
      invariant mem == i * size && |bufs| == i
      invariant forall j, k :: 0 <= j < k < i ==> bufs[j] != bufs[k]
      invariant forall j :: 0 <= j < i ==>
                  var b := bufs[j];
                  fresh(b) && b.Valid() && b.mem == memory && b.base == j * size && b.max == size && b.useCount == 1
    {
      SliceFits(i, number, size);
      assert (i + 1) * size == i * size + size;
      assert forall j :: 0 <= j < i ==> fresh(bufs[j]);
      var b := new Buffer.NotOwned(memory, mem, size);
      bufs := bufs + [b];
      mem := mem + size;
    }
  }

  /** A pool of `number` slices of `size` bytes of one block. */
  class Pool {
    const number: nat
    const size: nat
    const block: array<byte>
    const buffers: seq<Buffer>
    /** Buffers with a pointer outside the pool. */
    ghost var live: set<Buffer>

    /** Slice i of the block; it is live when the pool's pointer is not the only one. */
    ghost predicate Slice(b: Buffer, i: nat)
      reads this, b
    {
      && b.Valid() && b.mem == block && b.base == i * size && b.max == size
      && b.useCount >= 1 && (b in live <==> b.useCount > 1)
    }

    ghost predicate Valid()
      reads this, buffers, live
    {
      && block.Length == number * size && |buffers| == number
      && (forall i :: 0 <= i < number ==> Slice(buffers[i], i))
      && (forall i, j :: 0 <= i < j < number ==> buffers[i] != buffers[j])
      && (forall b <- live :: b.Valid() && b.useCount >= 1 && (b in buffers || b.mem != block))
      && (forall a <- live, b <- live :: a != b ==> Apart(a, b))
    }

    constructor (number: nat, size: nat)
      ensures Valid() && this.number == number && this.size == size && live == {}
    {
      this.number, this.size := number, size;
      var memory := new byte[number * size](_ => 0);
      var bufs := Sliced(memory, number, size);
      block, buffers, live := memory, bufs, {};
    }

    /**
     A buffer of at least sz bytes that nobody else holds: the first free slice, or a new buffer when
     sz does not fit a slice or every slice is in use.
     */
    method Get(sz: nat) returns (b: Buffer)
      requires Valid()
      modifies this`live, buffers`useCount
      ensures Valid()
      ensures b !in old(live) && live == old(live) + {b}
      ensures b.Valid() && b.max == if sz > size then sz else size
      ensures if b in buffers then b.mem == block else fresh(b) && fresh(b.mem)
      ensures b in buffers <==> sz <= size && exists i :: 0 <= i < number && old(buffers[i].useCount) == 1
      ensures b in buffers ==> old(b.useCount) == 1
      ensures b.useCount == if b in buffers then 2 else 1
      ensures forall c <- buffers :: c != b ==> c.useCount == old(c.useCount)
    {
      if sz <= size {
        var i := FindFree();
        if i < number {
          b := buffers[i];
          HandOut(b, i);
          return;
        }
      }
      b := new Buffer.Allocate(if sz > size then sz else size);
      live := live + {b};
    }

    /** The scan for a slice that nobody holds. */
    method FindFree() returns (i: nat)
      requires Valid()
      ensures i <= number && (i < number ==> buffers[i].useCount == 1)
      ensures forall j :: 0 <= j < i ==> buffers[j].useCount > 1
    {
      i := 0;
      while i < |buffers|
        invariant i <= number
        invariant forall j :: 0 <= j < i ==> buffers[j].useCount > 1
      {
        var inUse := buffers[i].IsInUse();
        if !inUse {
          return;
        }
        i := i + 1;
      }
    }

    /** The pointer that a caller of get receives. */
    method HandOut(b: Buffer, ghost i: nat)
      requires Valid() && i < number && buffers[i] == b && b.useCount == 1
      modifies this`live, b`useCount
      ensures Valid() && live == old(live) + {b} && b.useCount == 2
    {
      SlicesApart(b);
      b.useCount := b.useCount + 1;
      live := live + {b};
    }

    /** A pointer to a live buffer is copied. */
    method Share(b: Buffer)
      requires Valid() && b in live
      modifies b`useCount
      ensures Valid() && b.useCount == old(b.useCount) + 1
    {
      b.useCount := b.useCount + 1;
    }

    /** A pointer to a live buffer goes away. */
    method Release(b: Buffer)
      requires Valid() && b in live
      modifies this`live, b`useCount
      ensures Valid() && b.useCount == old(b.useCount) - 1
      ensures live == if b.useCount == (if b in buffers then 1 else 0) then old(live) - {b} else old(live)
    {
      b.useCount := b.useCount - 1;
      if b.useCount == (if b in buffers then 1 else 0) {
        live := live - {b};
      }
    }

    /** A slice is apart from every other live buffer. */
    lemma SlicesApart(b: Buffer)
      requires b in buffers
      requires block.Length == number * size && |buffers| == number
      requires forall i :: 0 <= i < number ==> buffers[i].mem == block && buffers[i].base == i * size && buffers[i].max == size
      requires forall c <- live :: c in buffers || c.mem != block
      ensures forall c <- live :: c != b ==> Apart(b, c) && Apart(c, b)
    {
      var i :| 0 <= i < number && buffers[i] == b;
      forall c <- live | c != b && c in buffers
        ensures Apart(b, c) && Apart(c, b)
      {
        var j :| 0 <= j < number && buffers[j] == c;
        if i < j { SliceFits(i, j, size); } else { SliceFits(j, i, size); }
      }
    }
  }

  /** Slice i ends before slice n begins. */
  lemma SliceFits(i: nat, n: nat, size: nat)
    requires i < n
    ensures i * size + size <= n * size
  {
    MulDiff(size, n, i);
    if size > 0 {
      assert size * (n - i) >= size by { MulAtLeast(size, n - i); }
    }
  }

  /** Writing to a live buffer leaves every other live buffer alone. */
  method AppendBeside(pool: Pool, a: Buffer, b: Buffer, data: seq<byte>)
    requires pool.Valid() && a in pool.live && b in pool.live && a != b && a.size + |data| <= a.max
    modifies a`size, a.mem
    ensures pool.Valid()
    ensures a.Valid() && a.Contents() == old(a.Contents()) + data
    ensures b.Valid() && b.Contents() == old(b.Contents())
  {
    assert Apart(a, b);
    a.Append(data);
    assert b.Contents() == old(b.Contents());
  }

  // ----- Concatenation -------------------------------------------------------------------------

  /** A possibly null buffer, by its contents. */
  type Part = Option<seq<byte>>

  function Bytes(p: Part): seq<byte> { if p.Some? then p.value else [] }

  function Joined(parts: seq<Part>): seq<byte>
  {
    if parts == [] then [] else Bytes(parts[0]) + Joined(parts[1..])
  }

  lemma {:induction false} JoinedAppend(a: seq<Part>, b: seq<Part>)
    ensures Joined(a + b) == Joined(a) + Joined(b)
  {
    if a == [] {
      assert a + b == b;
    } else {
      assert (a + b)[1..] == a[1..] + b;
      JoinedAppend(a[1..], b);
    }
  }

  /** One buffer is its contents, and a null one is nothing. */
  lemma JoinedOne(x: seq<byte>)
    ensures Joined([Some(x)]) == x && Joined([None]) == []
  {
    var one: seq<Part> := [Some(x)];
    var none: seq<Part> := [None];
    assert one[1..] == [] && none[1..] == [];
  }

  /** `realloc` to a larger size: the old bytes, then anything. */
  method Grow(blob: array?<byte>, size: nat) returns (r: array<byte>)
    requires blob != null ==> blob.Length <= size
    ensures fresh(r) && r.Length == size
    ensures blob != null ==> r[..blob.Length] == blob[..]
  {
    r := new byte[size](_ => 0);
    if blob != null {
      forall i | 0 <= i < blob.Length {
        r[i] := blob[i];
      }
    }
  }

  /** `memcpy` behind the `used` bytes that stand at `base`. */
  method CopyIn(blob: array<byte>, base: nat, used: nat, data: seq<byte>)
    requires base + used + |data| <= blob.Length
    modifies blob
    ensures blob[base..base + used + |data|] == old(blob[base..base + used]) + data
    ensures forall i :: 0 <= i < blob.Length && !(base + used <= i < base + used + |data|) ==> blob[i] == old(blob[i])
  {
    forall i | 0 <= i < |data| {
      blob[base + used + i] := data[i];
    }
  }

  /** The first `used` bytes of a blob that may be null. */
  ghost function Filled(blob: array?<byte>, used: nat): seq<byte>
    requires if blob == null then used == 0 else used <= blob.Length
    reads blob
  {
    if blob == null then [] else blob[..used]
  }

  /** One part behind the `used` bytes of a blob that grows when the part does not fit. */
  method AppendGrowing(blob: array?<byte>, used: nat, size: nat, part: seq<byte>) returns (blob': array?<byte>, used': nat, size': nat)
    requires used <= size && if blob == null then size == 0 else blob.Length == size
    modifies blob
    ensures used' == used + |part| && used' <= size'
    ensures size' == if used + |part| > size then size + 2 * |part| else size
    ensures if blob' == null then size' == 0 else blob'.Length == size'
    ensures blob' == null <==> blob == null && part == []
    ensures blob' == blob || fresh(blob')
    ensures Filled(blob', used') == old(Filled(blob, used)) + part
  {
    blob', used', size' := blob, used, size;
    if |part| > 0 {
      if used + |part| > size {
        blob' := Grow(blob, size + |part| * 2);
        size' := size + |part| * 2;
      }
      assert blob'[0..0 + used] == old(Filled(blob, used));
      CopyIn(blob', 0, used, part);
      used' := used + |part|;
      assert blob'[0..0 + used'] == blob'[..used'];
    }
  }

  /** Copies the parts behind the `used` bytes of a blob that grows as needed. */
  method ConcatGrowing(blob: array?<byte>, used: nat, size: nat, parts: seq<Part>) returns (blob': array?<byte>, used': nat, size': nat)
    requires used <= size && if blob == null then size == 0 else blob.Length == size
    modifies blob
    decreases |parts|
    ensures used' == used + |Joined(parts)| && used' <= size'
    ensures if blob' == null then size' == 0 else blob'.Length == size'
    ensures blob' == null <==> blob == null && Joined(parts) == []
    ensures blob' == blob || fresh(blob')
    ensures Filled(blob', used') == old(Filled(blob, used)) + Joined(parts)
  {
    blob', used', size' := blob, used, size;
    if parts == [] {
      return;
    }
    ghost var before, first, rest := Filled(blob, used), Bytes(parts[0]), Joined(parts[1..]);
    blob', used', size' := AppendGrowing(blob, used, size, Bytes(parts[0]));
    blob', used', size' := ConcatGrowing(blob', used', size', parts[1..]);
    assert (before + first) + rest == before + (first + rest);
  }

  /** The first `used` bytes of a buffer. */
  ghost function Prefix(b: Buffer, used: nat): (r: seq<byte>)
    requires b.Valid() && used <= b.max
    reads b, b.mem
  {
    b.mem[b.base..b.base + used]
  }

  /** One part behind the `used` bytes of a buffer, when it fits. */
  method AppendFixed(b: Buffer, used: nat, part: seq<byte>)
    requires b.Valid() && used + |part| <= b.max
    modifies b.mem
    ensures Prefix(b, used + |part|) == old(Prefix(b, used)) + part
    ensures forall i :: 0 <= i < b.mem.Length && !(b.base + used <= i < b.base + b.max) ==> b.mem[i] == old(b.mem[i])
  {
    CopyIn(b.mem, b.base, used, part);
  }

  /** Copies the parts into a blob of fixed size; false when they do not fit. */
  method ConcatFixed(b: Buffer, used: nat, parts: seq<Part>) returns (ok: bool, used': nat)
    requires b.Valid() && used <= b.max
    modifies b.mem
    decreases |parts|
    ensures ok <==> used + |Joined(parts)| <= b.max
    ensures ok ==> used' == used + |Joined(parts)| && Prefix(b, used') == old(Prefix(b, used)) + Joined(parts)
    ensures forall i :: 0 <= i < b.mem.Length && !(b.base + used <= i < b.base + b.max) ==> b.mem[i] == old(b.mem[i])
  {
    ok, used' := true, used;
    if parts == [] {
      return;
    }
    ghost var before, first, rest := Prefix(b, used), Bytes(parts[0]), Joined(parts[1..]);
    var size := |Bytes(parts[0])|;
    if used + size > b.max {
      return false, used;
    }
    AppendFixed(b, used, Bytes(parts[0]));
    ok, used' := ConcatFixed(b, used + size, parts[1..]);
    assert (before + first) + rest == before + (first + rest);
  }

  /** `Buffer::concat`: needs some byte to copy, as it asserts. */
  method ConcatNew(parts: seq<Part>) returns (b: Buffer)
    requires Joined(parts) != []
    ensures fresh(b) && fresh(b.mem) && b.Valid() && b.Contents() == Joined(parts)
  {
    var blob, used, size := ConcatGrowing(null, 0, 0, parts);
    b := new Buffer.NotOwned(blob, 0, size);
    b.SetSize(used);
  }

  /** The parts in a buffer of the pool, when they fit it. */
  method ConcatInto(pool: Pool, b: Buffer, parts: seq<Part>) returns (used: nat)
    requires pool.Valid() && b in pool.live && Joined(parts) != []
    modifies b`size, b.mem
    ensures pool.Valid()
    ensures used == if |Joined(parts)| <= b.max then |Joined(parts)| else 0
    ensures used > 0 ==> b.Contents() == Joined(parts)
    ensures forall c <- pool.live :: c != b ==> c.Valid() && c.Contents() == old(c.Contents())
  {
    var ok;
    ok, used := ConcatFixed(b, 0, parts);
    forall c <- pool.live | c != b
      ensures c.Valid() && c.Contents() == old(c.Contents())
    {
      assert Apart(b, c);
    }
    if !ok {
      return 0;
    }
    assert b.mem[b.base..b.base + used] == Joined(parts);
    b.SetSize(used);
  }

  /**
   `Pool::concat`: the same contents either way; into a buffer of the pool's get when they fit one of
   its slices, into a new one exactly when they do not. Nobody else's buffer changes.
   */
  method ConcatPooled(pool: Pool, parts: seq<Part>) returns (b: Buffer, fallback: bool)
    requires pool.Valid() && Joined(parts) != []
    modifies pool`live, pool.buffers`useCount, pool.buffers`size, pool.block
    ensures pool.Valid() && (pool.live == if fallback then old(pool.live) else old(pool.live) + {b})
    ensures b !in old(pool.live) && b.Valid() && b.Contents() == Joined(parts)
    ensures fallback <==> |Joined(parts)| > pool.size
    ensures forall c <- old(pool.live) :: c.Valid() && c.Contents() == old(c.Contents())
  {
    b := pool.Get(0);
    var used := ConcatInto(pool, b, parts);
    fallback := used == 0;
    if fallback {
      pool.Release(b);
      b := ConcatNew(parts);
    }
  }
}
