/** The incremental search for a needle in a stream of chunks (`buffer::Wait`). */
module WaitSearch {
  import opened Prelude
  import opened Buffers

  predicate MatchesAt(hay: seq<byte>, needle: seq<byte>, i: nat)
  {
    i + |needle| <= |hay| && hay[i..i + |needle|] == needle
  }

  ghost predicate Contains(hay: seq<byte>, needle: seq<byte>)
  {
    exists i :: MatchesAt(hay, needle, i)
  }

  ghost predicate FirstAt(hay: seq<byte>, needle: seq<byte>, i: nat)
  {
    MatchesAt(hay, needle, i) && forall j: nat :: j < i ==> !MatchesAt(hay, needle, j)
  }

  function SearchFrom(hay: seq<byte>, needle: seq<byte>, i: nat): (at: Option<nat>)
    ensures at.Some? ==> i <= at.value && MatchesAt(hay, needle, at.value)
    ensures forall j: nat :: i <= j && (at.Some? ==> j < at.value) ==> !MatchesAt(hay, needle, j)
    decreases |hay| - i
  {
    if i + |needle| > |hay| then None
    else if MatchesAt(hay, needle, i) then Some(i)
    else SearchFrom(hay, needle, i + 1)
  }

  /** The first occurrence of the needle, which for an empty needle is the start. */
  function Search(hay: seq<byte>, needle: seq<byte>): (at: Option<nat>)
    ensures at.Some? ==> FirstAt(hay, needle, at.value)
    ensures at.Some? <==> Contains(hay, needle)
  {
    var at := SearchFrom(hay, needle, 0);
    assert at.None? ==> forall j: nat :: !MatchesAt(hay, needle, j);
    at
  }

  /** `memmem`. */
  method Memmem(hay: seq<byte>, needle: seq<byte>) returns (at: Option<nat>)
    ensures at == Search(hay, needle)
  {
    var i := 0;
    while i + |needle| <= |hay|
      invariant SearchFrom(hay, needle, 0) == SearchFrom(hay, needle, i)
    {
      if hay[i..i + |needle|] == needle {
        return Some(i);
      }
      i := i + 1;
    }
    at := None;
  }

  /** What the receiver gets: the bytes and where the needle begins in them, or a null buffer. */
  datatype Emission = Found(data: seq<byte>, at: nat) | Overflow

  /** One call of feed, on the bytes held: what it leaves held, and what it emits. */
  function FeedOne(needle: seq<byte>, limit: nat, held: Option<seq<byte>>, chunk: seq<byte>): (Option<seq<byte>>, seq<Emission>)
  {
    var data := if held.Some? then held.value + chunk else chunk;
    if held.Some? && |data| > limit then (None, [Overflow])
    else if Search(data, needle).Some? then (None, [Found(data, Search(data, needle).value)])
    else (Some(data), [])
  }

  class Wait {
    const needle: seq<byte>
    const limit: nat
    var held: Buffer?
    /** What has been emitted, to the one receiver, which takes the buffer. */
    ghost var emitted: seq<Emission>

    ghost predicate Valid()
      reads this, held
    {
      held != null ==> held.Valid()
    }

    ghost function Held(): Option<seq<byte>>
      requires Valid()
      reads this, held, if held == null then {} else {held.mem}
    {
      if held == null then None else Some(held.Contents())
    }

    constructor (needle: seq<byte>, limit: nat)
      ensures Valid() && Held() == None && emitted == [] && this.needle == needle && this.limit == limit
    {
      this.needle, this.limit, held, emitted := needle, limit, null, [];
    }

    /** The chunk is handed over to the object; the pool's buffer is modelled by a new one. */
    method Feed(chunk: Buffer)
      requires Valid() && chunk.Valid()
      modifies this, held, if held == null then {} else {held.mem}
      ensures Valid()
      ensures var (h, e) := FeedOne(needle, limit, old(Held()), old(chunk.Contents()));
              Held() == h && emitted == old(emitted) + e
      ensures held == null || held == old(held) || held == chunk || (fresh(held) && fresh(held.mem))
      ensures (|emitted| > |old(emitted)| && emitted[|emitted| - 1] == Overflow) <==> old(held != null && held.size + chunk.size > limit)
    {
      if held == null {
        Begin(chunk);
      } else {
        Continue(chunk.mem[chunk.base..chunk.base + chunk.size]);
      }
    }

    /** Nothing is held: the chunk has the needle, or is held. */
    method Begin(chunk: Buffer)
      requires held == null && chunk.Valid()
      modifies this`held, this`emitted
      ensures Valid() && (held == null || held == chunk)
      ensures |emitted| > |old(emitted)| ==> emitted[|emitted| - 1] != Overflow
      ensures var (h, e) := FeedOne(needle, limit, None, old(chunk.Contents()));
              Held() == h && emitted == old(emitted) + e
    {
      var bytes := chunk.mem[chunk.base..chunk.base + chunk.size];
      if chunk.size >= |needle| {
        var found := Memmem(bytes, needle);
        if found.Some? {
          emitted := emitted + [Found(bytes, found.value)];
          return;
        }
      }
      held := chunk;
    }

    /** Something is held: it is extended and searched, unless it would be too long. */
    method Continue(bytes: seq<byte>)
      requires Valid() && held != null
      modifies this`held, this`emitted, held`size, held.mem
      ensures Valid() && (held == null || held == old(held) || (fresh(held) && fresh(held.mem)))
      ensures (|emitted| > |old(emitted)| && emitted[|emitted| - 1] == Overflow) <==> old(held.size) + |bytes| > limit
      ensures var (h, e) := FeedOne(needle, limit, Some(old(held.Contents())), bytes);
              Held() == h && emitted == old(emitted) + e
    {
      if held.size + |bytes| > limit {
        held := null;
        emitted := emitted + [Overflow];
        return;
      }
      Extend(bytes);
      if held.size >= |needle| {
        var data := held.mem[held.base..held.base + held.size];
        var found := Memmem(data, needle);
        if found.Some? {
          emitted := emitted + [Found(data, found.value)];
          held := null;
        }
      }
    }

    /** Appends to the held bytes, in a buffer of the full size when they are not in one. */
    method Extend(bytes: seq<byte>)
      requires Valid() && held != null && held.size + |bytes| <= limit
      modifies this`held, held`size, held.mem
      ensures Valid() && Held() == Some(old(held.Contents()) + bytes)
      ensures held == old(held) || (fresh(held) && fresh(held.mem))
      ensures held == old(held) <==> old(held.size) == limit
      ensures held != old(held) ==> held.max == limit
    {
      if held.size < limit {
        var buf := new Buffer.Allocate(limit);
        buf.Assign(held.mem[held.base..held.base + held.size]);
        held := buf;
      }
      held.Append(bytes);
    }
  }

  // ----- Whole streams -------------------------------------------------------------------------

  /** A run of feed over the chunks. */
  function FeedAll(needle: seq<byte>, limit: nat, held: Option<seq<byte>>, chunks: seq<seq<byte>>): (Option<seq<byte>>, seq<Emission>)
    decreases chunks
  {
    if chunks == [] then (held, [])
    else
      var (h, first) := FeedOne(needle, limit, held, chunks[0]);
      var (h', rest) := FeedAll(needle, limit, h, chunks[1..]);
      (h', first + rest)
  }

  /** After k chunks since the last emission there is something to emit. */
  ghost predicate Due(needle: seq<byte>, limit: nat, chunks: seq<seq<byte>>, k: nat)
    requires k <= |chunks|
  {
    k > 0 && (TooLong(limit, chunks, k) || Contains(Flatten(chunks[..k]), needle))
  }

  /** Appending to a held buffer would exceed the limit; a single chunk is never too long. */
  ghost predicate TooLong(limit: nat, chunks: seq<seq<byte>>, k: nat)
    requires k <= |chunks|
  {
    k > 1 && |Flatten(chunks[..k])| > limit
  }

  /** A match in the accumulated bytes ends in the newest chunk, for there was none before it. */
  lemma MatchEndsInNewestChunk(held: seq<byte>, chunk: seq<byte>, needle: seq<byte>, i: nat)
    requires !Contains(held, needle) && MatchesAt(held + chunk, needle, i)
    ensures i + |needle| > |held|
  {
    if i + |needle| <= |held| {
      assert (held + chunk)[i..i + |needle|] == held[i..i + |needle|];
      assert MatchesAt(held, needle, i);
    }
  }

  lemma FlattenLast(chunks: seq<seq<byte>>, k: nat)
    requires 0 < k <= |chunks|
    ensures Flatten(chunks[..k]) == Flatten(chunks[..k - 1]) + chunks[k - 1]
  {
    assert chunks[..k] == chunks[..k - 1] + [chunks[k - 1]];
    FlattenAppend(chunks[..k - 1], [chunks[k - 1]]);
    assert Flatten([chunks[k - 1]]) == chunks[k - 1] + Flatten([]);
  }

  /** What is held after k chunks without an emission. */
  function Accumulated(chunks: seq<seq<byte>>, k: nat): Option<seq<byte>>
    requires k <= |chunks|
  {
    if k == 0 then None else Some(Flatten(chunks[..k]))
  }

  /** One more chunk: it is held when nothing is due, and else it is emitted. */
  lemma FeedNext(needle: seq<byte>, limit: nat, chunks: seq<seq<byte>>, k: nat)
    requires k < |chunks|
    ensures FeedOne(needle, limit, Accumulated(chunks, k), chunks[k]) ==
            if !Due(needle, limit, chunks, k + 1) then (Accumulated(chunks, k + 1), [])
            else (None, [EmissionAt(needle, limit, chunks, k + 1)])
  {
    FlattenLast(chunks, k + 1);
    if k == 0 {
      assert Flatten(chunks[..1]) == chunks[0];
    }
  }

  /** Null when the bytes are too long, and else the bytes with the first occurrence in them. */
  ghost function EmissionAt(needle: seq<byte>, limit: nat, chunks: seq<seq<byte>>, k: nat): Emission
    requires k <= |chunks| && Due(needle, limit, chunks, k)
  {
    if TooLong(limit, chunks, k) then Overflow
    else Found(Flatten(chunks[..k]), Search(Flatten(chunks[..k]), needle).value)
  }

  /** While nothing is due, feed holds everything and emits nothing. */
  lemma {:induction false} HoldsUntilDue(needle: seq<byte>, limit: nat, chunks: seq<seq<byte>>, k: nat)
    requires k <= |chunks| && forall j :: k < j <= |chunks| ==> !Due(needle, limit, chunks, j)
    ensures FeedAll(needle, limit, Accumulated(chunks, k), chunks[k..]) == (Accumulated(chunks, |chunks|), [])
    decreases |chunks| - k
  {
    if k < |chunks| {
      FeedNext(needle, limit, chunks, k);
      assert chunks[k..][1..] == chunks[k + 1..];
      assert !Due(needle, limit, chunks, k + 1);
      HoldsUntilDue(needle, limit, chunks, k + 1);
      NothingBefore(FeedAll(needle, limit, Accumulated(chunks, k + 1), chunks[k + 1..]).1);
    }
  }

  lemma NothingBefore(emitted: seq<Emission>)
    ensures [] + emitted == emitted
  {
  }

  /**
   Let k be the first number of chunks after which something is due: the accumulated bytes contain
   the needle, or there are two chunks or more and their bytes exceed the limit. Then feed emits
   nothing before chunk k, the emission of k at it, and goes on afresh.
   */
  lemma {:induction false} EmitsAtFirstDue(needle: seq<byte>, limit: nat, chunks: seq<seq<byte>>, i: nat, k: nat)
    requires i < k <= |chunks| && Due(needle, limit, chunks, k)
    requires forall j :: i < j < k ==> !Due(needle, limit, chunks, j)
    ensures var (h, rest) := FeedAll(needle, limit, None, chunks[k..]);
            FeedAll(needle, limit, Accumulated(chunks, i), chunks[i..]) == (h, [EmissionAt(needle, limit, chunks, k)] + rest)
    decreases k - i
  {
    FeedNext(needle, limit, chunks, i);
    assert chunks[i..][1..] == chunks[i + 1..];
    if i + 1 < k {
      assert !Due(needle, limit, chunks, i + 1);
      EmitsAtFirstDue(needle, limit, chunks, i + 1, k);
      NothingBefore(FeedAll(needle, limit, Accumulated(chunks, i + 1), chunks[i + 1..]).1);
    }
  }

  /** The first number of chunks after which something is due, or one more than there are. */
  ghost function FirstDue(needle: seq<byte>, limit: nat, chunks: seq<seq<byte>>, k: nat): (r: nat)
    requires 0 < k <= |chunks| + 1
    ensures k <= r <= |chunks| + 1
    ensures r <= |chunks| ==> Due(needle, limit, chunks, r)
    ensures forall j :: k <= j < r ==> !Due(needle, limit, chunks, j)
    decreases |chunks| + 1 - k
  {
    if k > |chunks| || Due(needle, limit, chunks, k) then k else FirstDue(needle, limit, chunks, k + 1)
  }

  /** The naive search: cut the stream at the first chunk where something is due, and start again. */
  ghost function NaiveSearch(needle: seq<byte>, limit: nat, chunks: seq<seq<byte>>): seq<Emission>
    decreases |chunks|
  {
    var k := FirstDue(needle, limit, chunks, 1);
    if k > |chunks| then [] else [EmissionAt(needle, limit, chunks, k)] + NaiveSearch(needle, limit, chunks[k..])
  }

  /** Feeding any stream of chunks emits what the naive search finds. */
  lemma {:induction false} FeedIsNaiveSearch(needle: seq<byte>, limit: nat, chunks: seq<seq<byte>>)
    ensures FeedAll(needle, limit, None, chunks).1 == NaiveSearch(needle, limit, chunks)
    decreases |chunks|
  {
    var k := FirstDue(needle, limit, chunks, 1);
    assert chunks[0..] == chunks;
    if k > |chunks| {
      HoldsUntilDue(needle, limit, chunks, 0);
    } else {
      EmitsAtFirstDue(needle, limit, chunks, 0, k);
      FeedIsNaiveSearch(needle, limit, chunks[k..]);
    }
  }

  /** A chunk arrives in a buffer of its own. */
  method FeedBytes(w: Wait, bytes: seq<byte>) returns (ghost emission: seq<Emission>)
    requires w.Valid()
    modifies w, w.held, if w.held == null then {} else {w.held.mem}
    ensures w.Valid() && (w.Held(), emission) == FeedOne(w.needle, w.limit, old(w.Held()), bytes)
    ensures w.emitted == old(w.emitted) + emission
    ensures w.held == null || w.held == old(w.held) || (fresh(w.held) && fresh(w.held.mem))
  {
    var chunk := new Buffer.Allocate(|bytes|);
    chunk.Assign(bytes);
    emission := FeedOne(w.needle, w.limit, w.Held(), bytes).1;
    w.Feed(chunk);
  }

  /** Chunks arrive one by one. */
  method FeedStream(w: Wait, chunks: seq<seq<byte>>)
    requires w.Valid()
    modifies w, w.held, if w.held == null then {} else {w.held.mem}
    decreases |chunks|
    ensures w.Valid()
    ensures w.Held() == FeedAll(w.needle, w.limit, old(w.Held()), chunks).0
    ensures w.emitted == old(w.emitted) + FeedAll(w.needle, w.limit, old(w.Held()), chunks).1
  {
    if chunks == [] {
      return;
    }
    FeedMore(w.needle, w.limit, w.Held(), chunks, w.emitted);
    ghost var first := FeedBytes(w, chunks[0]);
    FeedStream(w, chunks[1..]);
  }

  /** The first chunk, and then the others. */
  lemma FeedMore(needle: seq<byte>, limit: nat, held: Option<seq<byte>>, chunks: seq<seq<byte>>, before: seq<Emission>)
    requires chunks != []
    ensures var (h, first) := FeedOne(needle, limit, held, chunks[0]);
            var all, rest := FeedAll(needle, limit, held, chunks), FeedAll(needle, limit, h, chunks[1..]);
            all.0 == rest.0 && before + all.1 == before + first + rest.1
  {
    var (h, first) := FeedOne(needle, limit, held, chunks[0]);
    var rest := FeedAll(needle, limit, h, chunks[1..]);
    assert FeedAll(needle, limit, held, chunks) == (rest.0, first + rest.1);
    assert before + (first + rest.1) == before + first + rest.1;
  }

  /** A new object that is fed a whole stream emits what the naive search finds in it. */
  method SearchStream(needle: seq<byte>, limit: nat, chunks: seq<seq<byte>>) returns (ghost emitted: seq<Emission>, w: Wait)
    ensures w.emitted == emitted == NaiveSearch(needle, limit, chunks)
  {
    w := new Wait(needle, limit);
    FeedStream(w, chunks);
    FeedIsNaiveSearch(needle, limit, chunks);
    emitted := w.emitted;
  }
}
