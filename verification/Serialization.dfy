/** The serializer on buffers (`serializer::Serializer`): growth, and the round trip. */
module Serialization {
  import opened Prelude
  import opened Buffers

  /** A value: the bytes of a number or an enumerator, or a string. */
  datatype Value = Number(bytes: seq<byte>) | Text(chars: seq<byte>)
  datatype Shape = NumberShape(width: nat) | TextShape

  function ShapeOf(v: Value): Shape { if v.Number? then NumberShape(|v.bytes|) else TextShape }

  const SIZE_WIDTH := 8

  function Power(k: nat): nat { if k == 0 then 1 else 256 * Power(k - 1) }

  /** A size that fits size_t. */
  predicate Fits(v: Value) { v.Text? ==> |v.chars| < Power(SIZE_WIDTH) }

  /** The k low bytes of n, the lowest first. */
  function ToBytes(n: nat, k: nat): (r: seq<byte>)
    ensures |r| == k
  {
    if k == 0 then [] else [n % 256] + ToBytes(n / 256, k - 1)
  }

  function FromBytes(bs: seq<byte>): nat
  {
    if bs == [] then 0 else bs[0] + 256 * FromBytes(bs[1..])
  }

  lemma {:induction false} BytesRoundTrip(n: nat, k: nat)
    requires n < Power(k)
    ensures FromBytes(ToBytes(n, k)) == n
  {
    if k > 0 {
      BytesRoundTrip(n / 256, k - 1);
      assert ToBytes(n, k)[1..] == ToBytes(n / 256, k - 1);
    }
  }

  lemma DivideTwice(n: nat, p: nat)
    requires p > 0
    ensures n / 256 / p == n / (256 * p)
  {
    var q := n / 256 / p;
    var r := n / 256 - p * q;
    assert n == 256 * (p * q + r) + n % 256 && 256 * p * q == 256 * (p * q);
    DivisionIs(n, 256 * p, q, 256 * r + n % 256);
  }

  lemma {:induction false} PowerPositive(k: nat)
    ensures Power(k) > 0
  {
    if k > 0 {
      PowerPositive(k - 1);
    }
  }

  /** Byte i is digit i of the size in base 256, the lowest first. */
  lemma {:induction false} ByteIsDigit(n: nat, k: nat, i: nat)
    requires i < k
    ensures Power(i) > 0 && ToBytes(n, k)[i] == n / Power(i) % 256
  {
    PowerPositive(i);
    if i > 0 {
      ByteIsDigit(n / 256, k - 1, i - 1);
      PowerPositive(i - 1);
      DivideTwice(n, Power(i - 1));
    }
  }

  function Encoded(v: Value): seq<byte>
  {
    match v
    case Number(bytes) => bytes
    case Text(chars) => ToBytes(|chars|, SIZE_WIDTH) + chars
  }

  /** A string is the eight bytes of its size, and then its characters. */
  lemma TextLayout(chars: seq<byte>, i: nat)
    requires i < 8
    ensures var bytes := Encoded(Text(chars));
            && |bytes| == 8 + |chars| && bytes[8..] == chars
            && Power(i) > 0 && bytes[i] == |chars| / Power(i) % 256
  {
    ByteIsDigit(|chars|, 8, i);
  }

  function EncodedAll(vs: seq<Value>): seq<byte>
  {
    if vs == [] then [] else Encoded(vs[0]) + EncodedAll(vs[1..])
  }

  /** What reading a shape takes off the bytes: the value, and the bytes after it; None when they run out. */
  function Decoded(shape: Shape, bytes: seq<byte>): Option<(Value, seq<byte>)>
  {
    match shape
    case NumberShape(width) =>
      if width <= |bytes| then Some((Number(bytes[..width]), bytes[width..])) else None
    case TextShape =>
      if |bytes| < SIZE_WIDTH then None
      else
        var n := FromBytes(bytes[..SIZE_WIDTH]);
        if SIZE_WIDTH + n <= |bytes| then Some((Text(bytes[SIZE_WIDTH..SIZE_WIDTH + n]), bytes[SIZE_WIDTH + n..])) else None
  }

  function DecodedAll(shapes: seq<Shape>, bytes: seq<byte>): Option<(seq<Value>, seq<byte>)>
    decreases shapes
  {
    if shapes == [] then Some(([], bytes))
    else match Decoded(shapes[0], bytes)
      case None => None
      case Some((v, rest)) =>
        match DecodedAll(shapes[1..], rest)
        case None => None
        case Some((vs, rest')) => Some(([v] + vs, rest'))
  }

  function Shapes(vs: seq<Value>): seq<Shape>
  {
    if vs == [] then [] else [ShapeOf(vs[0])] + Shapes(vs[1..])
  }

  lemma DecodeEncoded(v: Value, rest: seq<byte>)
    requires Fits(v)
    ensures Decoded(ShapeOf(v), Encoded(v) + rest) == Some((v, rest))
  {
    var bytes := Encoded(v) + rest;
    if v.Text? {
      BytesRoundTrip(|v.chars|, SIZE_WIDTH);
      assert bytes[..SIZE_WIDTH] == ToBytes(|v.chars|, SIZE_WIDTH);
    }
  }

  /** Reading the shapes of encoded values gives the values back and leaves nothing over. */
  lemma {:induction false} DecodeAllEncoded(vs: seq<Value>)
    requires forall i :: 0 <= i < |vs| ==> Fits(vs[i])
    ensures DecodedAll(Shapes(vs), EncodedAll(vs)) == Some((vs, []))
  {
    if vs != [] {
      DecodeEncoded(vs[0], EncodedAll(vs[1..]));
      DecodeAllEncoded(vs[1..]);
      assert Shapes(vs)[1..] == Shapes(vs[1..]);
      assert vs == [vs[0]] + vs[1..];
    }
  }

  // ----- Growth --------------------------------------------------------------------------------

  const SLICE := 16384
  const LIMIT := 2048 * 1024

  function Max(a: nat, b: nat): nat { if a > b then a else b }

  /** The capacity of what the pool gives for a request. */
  function PoolCapacity(size: nat): nat { Max(size, SLICE) }

  /** The capacity after a reallocation that makes room for n bytes. */
  function NewCapacity(max: nat, size: nat, n: nat): nat
  {
    PoolCapacity(if max * 2 < LIMIT && size + n < max * 2 then max * 2 else size + n * 2)
  }

  /** The capacity, in numbers: doubled while the double is below 2 MiB and has room, and else as needed. */
  lemma CapacityIs(max: nat, size: nat, n: nat)
    requires 16384 <= max
    ensures NewCapacity(max, size, n) ==
            if max * 2 < 0x20_0000 && size + n < max * 2 then max * 2
            else if size + n * 2 < 16384 then 16384 else size + n * 2
  {
  }

  /** A reallocation doubles the capacity exactly below the limit, or when the write is large. */
  lemma DoublesExactlyWhen(max: nat, size: nat, n: nat)
    requires SLICE <= max && size <= max && size + n >= max
    ensures NewCapacity(max, size, n) >= 2 * max <==> max * 2 < LIMIT || size + n * 2 >= 2 * max
    ensures size + n <= NewCapacity(max, size, n)
  {
  }

  /** Capacity, bytes in use, and all bytes that reallocations have copied. */
  datatype Growth = Growth(max: nat, size: nat, copied: nat)

  predicate Reallocates(g: Growth, n: nat) { g.size + n >= g.max }

  function Written(g: Growth, n: nat): Growth
  {
    if Reallocates(g, n) then Growth(NewCapacity(g.max, g.size, n), g.size + n, g.copied + g.size)
    else g.(size := g.size + n)
  }

  function WrittenAll(g: Growth, ns: seq<nat>): Growth
    decreases ns
  {
    if ns == [] then g else WrittenAll(Written(g, ns[0]), ns[1..])
  }

  /** The writes that a value, and a list of them, is made of. */
  function WritesOf(v: Value): seq<nat>
  {
    if v.Number? then [|v.bytes|] else [SIZE_WIDTH, |v.chars|]
  }

  function AllWrites(vs: seq<Value>): seq<nat>
  {
    if vs == [] then [] else WritesOf(vs[0]) + AllWrites(vs[1..])
  }

  lemma {:induction false} WrittenAppend(g: Growth, a: seq<nat>, b: seq<nat>)
    ensures WrittenAll(g, a + b) == WrittenAll(WrittenAll(g, a), b)
    decreases a
  {
    if a == [] {
      assert a + b == b;
    } else {
      assert (a + b)[1..] == a[1..] + b;
      WrittenAppend(Written(g, a[0]), a[1..], b);
    }
  }

  /** A value is one write, or that of its size and then that of its characters. */
  lemma WrittenValue(g: Growth, v: Value)
    ensures WrittenAll(g, WritesOf(v)) ==
            if v.Number? then Written(g, |v.bytes|) else Written(Written(g, SIZE_WIDTH), |v.chars|)
  {
    if v.Text? {
      var g', n := Written(g, SIZE_WIDTH), |v.chars|;
      assert WritesOf(v)[1..] == [n] && [n][1..] == [];
      assert WrittenAll(g', [n]) == WrittenAll(Written(g', n), []);
    }
  }

  /** Every reallocation of the run starts from a capacity whose double is below the limit. */
  predicate BelowLimit(g: Growth, ns: seq<nat>)
    decreases ns
  {
    ns == [] || ((Reallocates(g, ns[0]) ==> g.max * 2 < LIMIT) && BelowLimit(Written(g, ns[0]), ns[1..]))
  }

  /** Below the limit, all copying together never exceeds the current capacity. */
  lemma {:induction false} CopyingIsAmortized(g: Growth, ns: seq<nat>)
    requires SLICE <= g.max && g.size <= g.max && g.copied <= g.max && BelowLimit(g, ns)
    ensures var r := WrittenAll(g, ns); r.size <= r.max && r.copied <= r.max
    decreases ns
  {
    if ns != [] {
      if Reallocates(g, ns[0]) {
        DoublesExactlyWhen(g.max, g.size, ns[0]);
      }
      CopyingIsAmortized(Written(g, ns[0]), ns[1..]);
    }
  }

  lemma {:induction false} SizeGrows(g: Growth, ns: seq<nat>)
    ensures WrittenAll(g, ns).size >= g.size
    decreases ns
  {
    if ns != [] {
      SizeGrows(Written(g, ns[0]), ns[1..]);
    }
  }

  /** Up to a megabyte of data every reallocation is below the limit. */
  lemma {:induction false} MegabyteIsBelowLimit(g: Growth, ns: seq<nat>)
    requires WrittenAll(g, ns).size < 0x10_0000
    ensures BelowLimit(g, ns)
    decreases ns
  {
    if ns != [] {
      var g' := Written(g, ns[0]);
      SizeGrows(g', ns[1..]);
      MegabyteIsBelowLimit(g', ns[1..]);
    }
  }

  /** Above the limit growth is linear: the write after a reallocation reallocates too, unless it is smaller. */
  lemma ReallocatesEveryTime(g: Growth, n: nat, n': nat)
    requires g.max * 2 >= LIMIT && g.size <= g.max && Reallocates(g, n) && n <= n'
    ensures Reallocates(Written(g, n), n') && Written(Written(g, n), n').copied == g.copied + g.size + g.size + n
  {
  }

  // ----- The object ----------------------------------------------------------------------------

  datatype Mode = Read | Write
  datatype ValidType = Invalid | NoData | DataReady

  class Serializer {
    var buffer: Buffer?
    var readPos: nat
    const mode: Mode
    var valid: ValidType
    ghost var growth: Growth

    ghost predicate Ok()
      reads this, buffer
    {
      && (buffer != null ==> buffer.Valid())
      && (valid != Invalid ==> buffer != null)
      && (buffer != null && mode == Write ==> growth.max == buffer.max && growth.size == buffer.size && SLICE <= buffer.max)
      && (buffer != null ==> readPos <= buffer.size)
    }

    ghost predicate Ready() reads this { valid != Invalid }

    ghost function Contents(): seq<byte>
      requires buffer != null && buffer.Valid()
      reads this, buffer, buffer.mem
    {
      buffer.Contents()
    }

    constructor Writer()
      ensures Ok() && Ready() && mode == Write && fresh(buffer) && fresh(buffer.mem)
      ensures Contents() == [] && growth == Growth(SLICE, 0, 0) && readPos == 0 && buffer.max == 16384
    {
      mode, readPos, valid := Write, 0, NoData;
      var b := new Buffer.Allocate(PoolCapacity(SLICE));
      b.SetSize(0);
      buffer, growth := b, Growth(SLICE, 0, 0);
    }

    constructor Reader(b: Buffer)
      requires b.Valid()
      ensures Ok() && mode == Read && readPos == 0
      ensures Ready() <==> b.size != 0
      ensures Ready() ==> buffer == b
    {
      mode, readPos := Mode.Read, 0;
      if b.size == 0 {
        buffer, valid := null, Invalid;
      } else {
        buffer, valid := b, DataReady;
      }
      growth := Growth(0, 0, 0);
    }

    method Realloc(n: nat)
      requires Ok() && Ready() && mode == Write && buffer.size + n >= buffer.max
      modifies this`buffer, this`growth
      ensures Ok() && fresh(buffer) && fresh(buffer.mem) && Contents() == old(Contents())
      ensures growth == Growth(NewCapacity(old(growth.max), old(growth.size), n), old(growth.size), old(growth.copied) + old(growth.size))
      ensures var max, size := old(buffer.max), old(buffer.size);
              buffer.max == if max * 2 < 0x20_0000 && size + n < max * 2 then max * 2
                            else if size + n * 2 < 16384 then 16384 else size + n * 2
    {
      CapacityIs(buffer.max, buffer.size, n);
      var newSize;
      var step := buffer.max * 2;
      if step < LIMIT && buffer.size + n < step {
        newSize := step;
      } else {
        newSize := buffer.size + n * 2;
      }
      var b := new Buffer.Allocate(PoolCapacity(newSize));
      b.SetSize(0);
      b.Append(buffer.mem[buffer.base..buffer.base + buffer.size]);
      assert b.Contents() == old(Contents());
      growth := Growth(b.max, b.size, growth.copied + b.size);
      buffer := b;
    }

    method WriteBytes(data: seq<byte>)
      requires Ok() && Ready() && mode == Write
      modifies this`buffer, this`growth, buffer`size, buffer.mem
      ensures Ok() && Contents() == old(Contents()) + data
      ensures buffer != old(buffer) ==> fresh(buffer) && fresh(buffer.mem)
      ensures buffer == old(buffer) <==> old(buffer.size) + |data| < old(buffer.max)
      ensures growth == Written(old(growth), |data|)
    {
      if buffer.size + |data| >= buffer.max {
        DoublesExactlyWhen(buffer.max, buffer.size, |data|);
        Realloc(|data|);
      }
      buffer.Append(data);
      growth := growth.(size := buffer.size);
    }

    method WriteValue(v: Value)
      requires Ok() && Ready() && mode == Write
      modifies this`buffer, this`growth, buffer`size, buffer.mem
      ensures Ok() && Contents() == old(Contents()) + Encoded(v)
      ensures buffer != old(buffer) ==> fresh(buffer) && fresh(buffer.mem)
      ensures growth == WrittenAll(old(growth), WritesOf(v))
    {
      WrittenValue(growth, v);
      match v
      case Number(bytes) =>
        WriteBytes(bytes);
      case Text(chars) =>
        WriteBytes(ToBytes(|chars|, SIZE_WIDTH));
        WriteBytes(chars);
    }

    /** The bytes that have not been read. */
    ghost function Rest(): seq<byte>
      requires Ok() && buffer != null
      reads this, buffer, buffer.mem
    {
      Contents()[readPos..]
    }

    method ReadBytes(n: nat) returns (data: seq<byte>)
      requires Ok() && Ready() && mode == Read && readPos + n <= buffer.size
      modifies this`readPos
      ensures Ok() && readPos == old(readPos) + n && data == Contents()[old(readPos)..readPos]
      ensures data == old(Rest())[..n] && Rest() == old(Rest())[n..]
    {
      data := buffer.mem[buffer.base + readPos..buffer.base + readPos + n];
      SliceOfSlice(buffer.mem[..], buffer.base, buffer.size, readPos, n);
      assert buffer.mem[..][buffer.base..buffer.base + buffer.size] == Contents();
      SlicesOfRest(Contents(), readPos, n);
      readPos := readPos + n;
    }

    /** Reads a value of the given shape; it is required that the bytes do not run out. */
    method ReadValue(shape: Shape) returns (v: Value)
      requires Ok() && Ready() && mode == Mode.Read && Decoded(shape, Contents()[readPos..]).Some?
      modifies this`readPos
      ensures Ok() && old(readPos) <= readPos
      ensures Some((v, Contents()[readPos..])) == Decoded(shape, old(Contents()[readPos..]))
    {
      ghost var rest := Rest();
      match shape
      case NumberShape(width) =>
        var data := ReadBytes(width);
        v := Number(data);
      case TextShape =>
        var size := ReadBytes(SIZE_WIDTH);
        var n := FromBytes(size);
        var data := ReadBytes(n);
        SlicesOfRest(rest, SIZE_WIDTH, n);
        v := Text(data);
    }
  }

  lemma SliceOfSlice(m: seq<byte>, base: nat, size: nat, k: nat, n: nat)
    requires base + size <= |m| && k + n <= size
    ensures m[base..base + size][k..k + n] == m[base + k..base + k + n]
  {
    var s := m[base..base + size];
    assert forall i :: k <= i < k + n ==> s[i] == m[base + i];
  }

  lemma SlicesOfRest(rest: seq<byte>, k: nat, n: nat)
    requires k + n <= |rest|
    ensures rest[k..][..n] == rest[k..k + n] && rest[k..][n..] == rest[k + n..]
  {
  }

  /** Writes values in turn. */
  method WriteAll(s: Serializer, vs: seq<Value>)
    requires s.Ok() && s.Ready() && s.mode == Write
    modifies s`buffer, s`growth, s.buffer`size, s.buffer.mem
    decreases |vs|
    ensures s.Ok() && s.Ready() && s.Contents() == old(s.Contents()) + EncodedAll(vs)
    ensures s.buffer != old(s.buffer) ==> fresh(s.buffer) && fresh(s.buffer.mem)
    ensures s.growth == WrittenAll(old(s.growth), AllWrites(vs))
  {
    if vs == [] {
      assert s.Contents() + [] == s.Contents();
      return;
    }
    EncodedAfter(s.Contents(), vs);
    WrittenAppend(s.growth, WritesOf(vs[0]), AllWrites(vs[1..]));
    s.WriteValue(vs[0]);
    WriteAll(s, vs[1..]);
  }

  /**
   Writing any values with a new serializer: while no reallocation starts from a megabyte or more, all
   bytes copied together never exceed the capacity of the buffer.
   */
  method WriteNew(vs: seq<Value>) returns (capacity: nat, used: nat, ghost copied: nat)
    ensures used == |EncodedAll(vs)| && used <= capacity
    ensures Growth(capacity, used, copied) == WrittenAll(Growth(SLICE, 0, 0), AllWrites(vs))
    ensures BelowLimit(Growth(SLICE, 0, 0), AllWrites(vs)) ==> copied <= capacity
    ensures used < 0x10_0000 ==> copied <= capacity
  {
    var s := new Serializer.Writer();
    WriteAll(s, vs);
    capacity, used, copied := s.buffer.max, s.buffer.size, s.growth.copied;
    assert s.growth == Growth(capacity, used, copied);
    if used < 0x10_0000 {
      MegabyteIsBelowLimit(Growth(SLICE, 0, 0), AllWrites(vs));
    }
    if BelowLimit(Growth(SLICE, 0, 0), AllWrites(vs)) {
      CopyingIsAmortized(Growth(SLICE, 0, 0), AllWrites(vs));
    }
    assert [] + EncodedAll(vs) == EncodedAll(vs);
  }

  lemma EncodedAfter(before: seq<byte>, vs: seq<Value>)
    requires vs != []
    ensures before + EncodedAll(vs) == before + Encoded(vs[0]) + EncodedAll(vs[1..])
  {
  }

  /** Reads shapes in turn. */
  method ReadAll(s: Serializer, shapes: seq<Shape>) returns (vs: seq<Value>)
    requires s.Ok() && s.Ready() && s.mode == Mode.Read && DecodedAll(shapes, s.Contents()[s.readPos..]).Some?
    modifies s`readPos
    ensures s.Ok() && Some((vs, s.Contents()[s.readPos..])) == DecodedAll(shapes, old(s.Contents()[s.readPos..]))
  {
    if shapes == [] {
      return [];
    }
    var v := s.ReadValue(shapes[0]);
    var rest := ReadAll(s, shapes[1..]);
    vs := [v] + rest;
  }

  /**
   The round trip, across any number of reallocations: reading the shapes of what was written gives
   the values back, every read is in bounds, and the last one ends at the end of the buffer.
   */
  method RoundTrip(vs: seq<Value>) returns (read: seq<Value>, position: nat, size: nat)
    requires EncodedAll(vs) != [] && forall i :: 0 <= i < |vs| ==> Fits(vs[i])
    ensures read == vs && position == size == |EncodedAll(vs)|
  {
    var writer := new Serializer.Writer();
    WriteAll(writer, vs);
    assert writer.Contents() == EncodedAll(vs);
    var reader := new Serializer.Reader(writer.buffer);
    assert reader.Contents()[0..] == EncodedAll(vs);
    DecodeAllEncoded(vs);
    read := ReadAll(reader, Shapes(vs));
    assert |reader.Contents()[reader.readPos..]| == 0;
    position, size := reader.readPos, reader.buffer.size;
  }

  /** A list of values is written as nothing only when it has no value with a byte; then a reader is invalid. */
  lemma NonEmptyListsAreReadable(vs: seq<Value>)
    requires vs != [] && (vs[0].Number? ==> vs[0].bytes != [])
    ensures EncodedAll(vs) != []
  {
  }
}
