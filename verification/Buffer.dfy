/** The growable, compacting socket buffer, refining an unbounded byte queue. */
module Buffers {

  /** Size of the side array that a scattered read spills into. */
  const SIDE_SIZE := 65535

  /** How the last call on a connection ended: it moved bytes, or it is to be made again later, or it failed for good. */
  datatype Io = Moved | WouldBlock | Broken

  class Buffer {
    var data: array<char>
    var lPos: nat
    var rPos: nat
    ghost var received: string  // every byte ever put in
    ghost var consumed: string  // every byte ever taken out

    /** The cursors stay ordered and inside the array, and no byte is lost, duplicated or reordered. */
    ghost predicate Valid()
      reads this, data
    {
      && lPos <= rPos <= data.Length
      && received == consumed + data[lPos..rPos]
    }

    /** The queue the buffer stands for. */
    ghost function Pending(): string
      reads this, data
      requires Valid()
    {
      data[lPos..rPos]
    }

    constructor (initSize: nat)
      ensures Valid() && fresh(data)
      ensures Pending() == "" && received == "" && consumed == ""
    {
      data := new char[initSize];
      lPos, rPos := 0, 0;
      received, consumed := "", "";
    }

    /** The unread bytes, as the parsers see them between `Peek` and `BeginWriteConst`. */
    method Peek() returns (s: string)
      requires Valid()
      ensures s == Pending()
    {
      s := data[lPos..rPos];
    }

    method UnHandleBytes() returns (n: nat)
      requires Valid()
      ensures n == |Pending()|
    {
      n := rPos - lPos;
    }

    method AddHandled(len: nat)
      requires Valid() && len <= |Pending()|
      modifies this`lPos, this`consumed
      ensures Valid() && Pending() == old(Pending())[len..]
      ensures received == old(received) && consumed == old(consumed) + old(Pending())[..len]
    {
      consumed := consumed + data[lPos..rPos][..len];
      lPos := lPos + len;
    }

    method AddHandledAll()
      requires Valid()
      modifies this`lPos, this`rPos, this`consumed, data
      ensures Valid() && Pending() == ""
      ensures received == old(received) && consumed == old(received)
    {
      consumed := received;
      forall i | 0 <= i < data.Length {
        data[i] := '\0';
      }
      lPos, rPos := 0, 0;
    }

    /** Grows the array, or slides the unread bytes to its front when that frees enough. */
    method MakeSpace(len: nat)
      requires Valid() && data.Length - rPos < len
      modifies this`data, this`lPos, this`rPos, data
      ensures Valid() && (data == old(data) || fresh(data))
      ensures data == old(data) <==> old(data.Length) - old(|Pending()|) >= len
      ensures Pending() == old(Pending()) && received == old(received) && consumed == old(consumed)
      ensures data.Length - rPos >= len
    {
      hide Buffer.Valid, Buffer.Pending;
      Bounds();
      if data.Length - rPos + lPos < len {
        Grow(len);
      } else {
        Slide();
      }
    }

    lemma Bounds()
      requires Valid()
      ensures lPos <= rPos <= data.Length && |Pending()| == rPos - lPos
    {
    }

    /** Moves everything to a larger array. */
    method Grow(len: nat)
      requires Valid()
      modifies this`data
      ensures Valid() && fresh(data) && Pending() == old(Pending()) && data.Length - rPos >= len
    {
      var bigger := new char[rPos + len + 1];
      forall i | 0 <= i < rPos {
        bigger[i] := data[i];
      }
      assert bigger[lPos..rPos] == data[lPos..rPos];
      data := bigger;
    }

    /** Moves the unread bytes to the front of the array, one by one. */
    method Slide()
      requires Valid()
      modifies this`lPos, this`rPos, data
      ensures Valid() && Pending() == old(Pending()) && lPos == 0 && rPos == old(rPos - lPos)
    {
      ghost var pending := data[lPos..rPos];
      var readable := rPos - lPos;
      var i := 0;
      while i < readable
        invariant 0 <= i <= readable && lPos == old(lPos) && rPos == old(rPos)
        invariant forall k :: 0 <= k < i ==> data[k] == pending[k]
        invariant forall k :: i <= k < readable ==> data[lPos + k] == pending[k]
      {
        data[i] := data[lPos + i];
        i := i + 1;
      }
      assert data[0..readable] == pending;
      lPos, rPos := 0, readable;
    }

    method EnsureFreeBytes(len: nat)
      requires Valid()
      modifies this`data, this`lPos, this`rPos, data
      ensures Valid() && (data == old(data) || fresh(data))
      ensures Pending() == old(Pending()) && received == old(received) && consumed == old(consumed)
      ensures data.Length - rPos >= len
    {
      if data.Length - rPos < len {
        MakeSpace(len);
      }
    }

    method Append(str: string)
      requires Valid()
      modifies this, data
      ensures Valid() && (data == old(data) || fresh(data))
      ensures Pending() == old(Pending()) + str
      ensures received == old(received) + str && consumed == old(consumed)
    {
      EnsureFreeBytes(|str|);
      CopyIn(str);
    }

    /** Copies into free space the caller has made sure of, and moves the write cursor. */
    method CopyIn(str: string)
      requires Valid() && |str| <= data.Length - rPos
      modifies this`rPos, this`received, data
      ensures Valid() && Pending() == old(Pending()) + str
      ensures received == old(received) + str && consumed == old(consumed)
      ensures rPos == old(rPos) + |str|
    {
      ghost var pending := data[lPos..rPos];
      forall i | 0 <= i < |str| {
        data[rPos + i] := str[i];
      }
      assert data[lPos..rPos + |str|] == pending + str;
      assert received + str == consumed + (pending + str);
      received := received + str;
      rPos := rPos + |str|;
    }

    /** `readv` on a connection with the bytes `queued`: some of them arrive, as many as the free space and the side
        array can take. What fits goes behind the write cursor, the rest through the side array. With nothing queued the
        result is zero if the peer has closed, and negative otherwise. The call may fail, whatever is queued. */
    method ReadFd(queued: string, fails: bool) returns (len: int)
      requires Valid()
      modifies this, data
      ensures Valid() && (data == old(data) || fresh(data))
      ensures if fails then len == -1 else if queued == "" then -1 <= len <= 0 else 0 < len <= |queued|
      ensures var arrived := if len <= 0 then "" else queued[..len];
              && Pending() == old(Pending()) + arrived
              && received == old(received) + arrived && consumed == old(consumed)
    {
      hide Buffer.Valid, Buffer.Pending;
      Bounds();
      var writable := data.Length - rPos;
      if fails || queued == "" {
        NothingBehind(Pending(), received);
        len :| -1 <= len <= 0 && (fails ==> len == -1);
        return;
      }
      assert 1 <= |queued| && 1 <= writable + SIDE_SIZE;
      len :| 0 < len <= |queued| && len <= writable + SIDE_SIZE;
      if len <= writable {
        CopyIn(queued[..len]);
      } else {
        TwoParts(Pending(), queued, writable, len);
        TwoParts(received, queued, writable, len);
        CopyIn(queued[..writable]);
        Append(queued[writable..len]);
      }
    }

    /** `write` of the unread bytes: some of them are accepted, or none with a result that is zero or negative. */
    method WriteFd() returns (len: int, accepted: string)
      requires Valid()
      modifies this`lPos, this`consumed
      ensures Valid() && -1 <= len <= |old(Pending())|
      ensures accepted == if len <= 0 then "" else old(Pending())[..len]
      ensures Pending() == old(Pending())[|accepted|..]
      ensures received == old(received) && consumed == old(consumed) + accepted
    {
      hide Buffer.Valid, Buffer.Pending;
      var pending := Peek();
      len :| -1 <= len <= |pending|;
      accepted := if len <= 0 then "" else pending[..len];
      AddHandled(|accepted|);
      assert pending[..|accepted|] == accepted;
    }

    method UnhandleToStr() returns (str: string)
      requires Valid()
      modifies this`lPos, this`rPos, this`consumed, data
      ensures Valid() && str == old(Pending()) && Pending() == ""
      ensures received == old(received) && consumed == old(consumed) + str
    {
      str := data[lPos..rPos];
      AddHandledAll();
    }
  }

  lemma NothingBehind(a: string, b: string)
    ensures a + "" == a && b + "" == b
  {
  }

  lemma TwoParts(front: string, s: string, i: nat, j: nat)
    requires i <= j <= |s|
    ensures front + s[..i] + s[i..j] == front + s[..j]
  {
    assert s[..i] + s[i..j] == s[..j];
  }
}
