/** The upload queue of the HTTP client: buffers, a cursor into them, and the read callback of curl. */
module UploadQueue {
  import opened Prelude
  import opened Buffers

  /** What the read callback returns: a number of bytes, or the request to pause; or its assertion fails. */
  datatype ReadResult = Count(n: nat) | Pause | Fails

  class Upload {
    var buffers: seq<seq<byte>>
    var pos: nat
    var offset: nat
    var paused: bool
    var writeEnd: bool
    /** Whether there is a connection. */
    var connected: bool
    /** Histories: all bytes written, and all bytes delivered to curl. */
    ghost var written: seq<byte>
    ghost var delivered: seq<byte>

    /** The bytes after the cursor. */
    ghost function Undelivered(): seq<byte>
      requires pos <= |buffers| && offset <= |Flatten(buffers[pos..])|
      reads this
    {
      Flatten(buffers[pos..])[offset..]
    }

    /** The next buffer is an empty one. */
    ghost predicate AtEmpty()
      requires buffers != [] ==> pos < |buffers|
      reads this
    {
      buffers != [] && offset == 0 && buffers[pos] == []
    }

    /**
     The cursor is inside a buffer, or at an empty one, or the list is empty; what is delivered and what is left is what
     was written; and a paused transfer has nothing to deliver and is not at its end.
     */
    ghost predicate Valid()
      reads this
    {
      && (if buffers == [] then pos == 0 && offset == 0 else pos < |buffers| && (offset < |buffers[pos]| || AtEmpty()))
      && offset <= |Flatten(buffers[pos..])|
      && delivered + Undelivered() == written
      && (paused ==> buffers == [] && !writeEnd)
    }

    constructor ()
      ensures Valid() && written == [] && delivered == [] && !connected && !paused && !writeEnd
    {
      buffers, pos, offset, paused, writeEnd, connected := [], 0, 0, false, false, false;
      written, delivered := [], [];
    }

    /** `init`: a connection when there is none yet; `accepted` says whether curl takes it. */
    method Connect(accepted: bool)
      modifies this`connected
      ensures connected == (old(connected) || accepted)
    {
      if connected {
        return;
      }
      connected := accepted;
    }

    /** The transfer is over. */
    method Disconnect()
      modifies this`connected
      ensures !connected
    {
      connected := false;
    }

    /** The `write` overloads: queue a buffer, and resume a paused transfer. */
    method Write(data: seq<byte>)
      requires Valid()
      modifies this
      ensures Valid() && delivered == old(delivered) && connected == old(connected) && writeEnd == old(writeEnd)
      ensures written == if connected then old(written) + data else old(written)
      ensures connected ==> !paused
      ensures !old(AtEmpty()) && data != [] ==> !AtEmpty()
    {
      if !connected {
        return;
      }
      QueueGrows(buffers, pos, offset, data);
      assert delivered + (Undelivered() + data) == written + data;
      buffers := buffers + [data];
      written := written + data;
      if paused {
        paused := false;
      }
    }

    method EndWrite()
      requires Valid()
      modifies this`writeEnd, this`paused
      ensures Valid() && (connected ==> writeEnd && !paused)
      ensures !connected ==> writeEnd == old(writeEnd) && paused == old(paused)
    {
      if !connected {
        return;
      }
      writeEnd := true;
      if paused {
        paused := false;
      }
    }

    /** The read callback, with room for `capacity` bytes; `alive` says that the client still exists. */
    method Read(capacity: nat, alive: bool) returns (data: seq<byte>, r: ReadResult)
      requires Valid()
      modifies this
      ensures Valid() && written == old(written) && writeEnd == old(writeEnd) && connected == old(connected)
      ensures delivered == old(delivered) + data
      ensures data <= old(Undelivered()) && |data| <= capacity
      ensures r.Count? ==> r.n == |data|
      ensures alive && old(buffers) != [] && !old(AtEmpty()) ==>
                var left := old(|buffers[pos]| - offset); |data| == if capacity < left then capacity else left
      ensures r.Pause? ==> alive && delivered == written && !writeEnd && data == []
      ensures r == Count(0) && capacity > 0 ==> !alive || (delivered == written && writeEnd)
      ensures r.Fails? <==> alive && old(AtEmpty())
      ensures r.Fails? ==> data == []
      ensures alive && !old(AtEmpty()) && old(delivered) != old(written) ==> r.Count? && (capacity > 0 ==> r.n > 0)
      ensures paused == (r.Pause? || old(paused))
    {
      data := [];
      if !alive {
        return [], Count(0);
      }
      if buffers == [] {
        if writeEnd {
          return [], Count(0);
        }
        paused := true;
        return [], Pause;
      }
      var buffer := buffers[pos];
      if offset >= |buffer| {
        return [], Fails;
      }
      var toread := if capacity < |buffer| - offset then capacity else |buffer| - offset;
      data := buffer[offset..offset + toread];
      Advance(toread, data);
      r := Count(toread);
    }

    /** Moves the cursor over delivered bytes of the buffer that it is in. */
    method Advance(toread: nat, ghost data: seq<byte>)
      requires Valid() && buffers != [] && offset + toread <= |buffers[pos]| && data == buffers[pos][offset..offset + toread]
      modifies this`buffers, this`pos, this`offset, this`delivered
      ensures Valid() && delivered == old(delivered) + data && data <= old(Undelivered())
    {
      ghost var left := Undelivered();
      CursorMoves(buffers, pos, offset, toread);
      Delivers(delivered, written, left, data, toread);
      delivered := delivered + data;
      if offset + toread == |buffers[pos]| {
        offset := 0;
        pos := pos + 1;
        if pos == |buffers| {
          buffers := [];
          pos := 0;
        }
        assert Undelivered() == left[toread..];
      } else {
        offset := offset + toread;
        assert Undelivered() == left[toread..];
      }
    }
  }

  /** Bytes go from the front of what is left to the end of what is delivered. */
  lemma Delivers(delivered: seq<byte>, written: seq<byte>, left: seq<byte>, data: seq<byte>, n: nat)
    requires delivered + left == written && n <= |left| && data == left[..n]
    ensures data <= left && delivered + data + left[n..] == written
  {
    assert left == data + left[n..];
  }

  lemma QueueGrows(buffers: seq<seq<byte>>, pos: nat, offset: nat, data: seq<byte>)
    requires pos <= |buffers| && offset <= |Flatten(buffers[pos..])|
    ensures Flatten((buffers + [data])[pos..]) == Flatten(buffers[pos..]) + data
    ensures Flatten((buffers + [data])[pos..])[offset..] == Flatten(buffers[pos..])[offset..] + data
  {
    assert (buffers + [data])[pos..] == buffers[pos..] + [data];
    FlattenAppend(buffers[pos..], [data]);
    assert Flatten([data]) == data + Flatten([]);
  }

  /** Taking bytes of the buffer under the cursor takes them off the front of what is left. */
  lemma CursorMoves(buffers: seq<seq<byte>>, pos: nat, offset: nat, n: nat)
    requires pos < |buffers| && offset + n <= |buffers[pos]|
    ensures var left := Flatten(buffers[pos..]);
            && offset + n <= |left|
            && left[offset..][..n] == buffers[pos][offset..offset + n]
            && left[offset..][n..] == left[offset + n..]
            && (offset + n == |buffers[pos]| ==> left[offset + n..] == Flatten(buffers[pos + 1..]))
  {
    assert buffers[pos..][1..] == buffers[pos + 1..];
  }
}
