/** The send buffer: a byte FIFO in one chunk, compacted in place when its tail reaches the end. */
module SendBuffers {
  import opened Bytes

  class SendBuffer {
    var data: array<Byte>
    var headOff: int
    var tailOff: int
    var len: int
    var cumLen: int        // octets ever put
    var headSeq: U32       // sequence number of the first buffered octet
    const initSeq: U32

    ghost predicate Valid()
      reads this
    {
      && 0 <= headOff && 0 <= len <= cumLen && tailOff == headOff + len <= data.Length
      && headSeq == Wrap(initSeq + cumLen - len)
    }

    // The buffered octets, oldest first.
    ghost function Contents(): (s: seq<Byte>)
      requires Valid()
      reads this, data
      ensures |s| == len
    {
      data[headOff..tailOff]
    }

    // SBInit
    constructor (size: nat, seqno: U32)
      ensures Valid() && Contents() == [] && data.Length == size && fresh(data)
      ensures headSeq == initSeq == seqno && cumLen == 0
    {
      data := new Byte[size];
      headOff, tailOff, len, cumLen := 0, 0, 0, 0;
      headSeq, initSeq := seqno, seqno;
    }

    // The octets go in at the tail as far as there is room.
    method SBPut(bytes: seq<Byte>) returns (ret: int)
      requires Valid()
      modifies this, data
      ensures Valid() && data == old(data) && headSeq == old(headSeq)
      ensures var n := Min(|bytes|, data.Length - old(len));
              && Contents() == old(Contents()) + bytes[..n] && cumLen == old(cumLen) + n
              && ret == (if bytes == [] then 0 else if n == 0 then -2 else n)
    {
      hide Wrap;
      if |bytes| <= 0 {
        return 0;
      }
      var toPut := Min(|bytes|, data.Length - len);
      if toPut <= 0 {
        return -2;
      }
      ghost var was := Contents();
      if tailOff + toPut < data.Length {
        CopyIn(tailOff, bytes[..toPut]);
        tailOff := tailOff + toPut;
      } else {
        MoveToFront();
        headOff := 0;
        CopyIn(len, bytes[..toPut]);
        tailOff := len + toPut;
      }
      len := len + toPut;
      cumLen := cumLen + toPut;
      assert Contents() == was + bytes[..toPut];
      ret := toPut;
    }

    // memcpy(data + at, bytes)
    method CopyIn(at: int, bytes: seq<Byte>)
      requires 0 <= at && at + |bytes| <= data.Length
      modifies data
      ensures data[at..at + |bytes|] == bytes && data[..at] == old(data[..at])
    {
      forall k | 0 <= k < |bytes| {
        data[at + k] := bytes[k];
      }
    }

    // memmove(data, head, len)
    method MoveToFront()
      requires Valid()
      modifies data
      ensures data[..len] == old(Contents())
    {
      forall k | 0 <= k < len {
        data[k] := data[headOff + k];
      }
    }

    // The oldest n octets leave; an emptied buffer starts over at its front.
    method SBRemove(n: int) returns (ret: int)
      requires Valid()
      modifies this
      ensures Valid() && data == old(data) && cumLen == old(cumLen)
      ensures var m := Max(0, Min(n, old(len)));
              && Contents() == old(Contents())[m..] && headSeq == Wrap(old(headSeq) + m)
              && ret == (if n <= 0 then 0 else if m == 0 then -2 else m)
    {
      if n <= 0 {
        return 0;
      }
      var toRemove := Min(n, len);
      if toRemove <= 0 {
        return -2;
      }
      WrapAdd(initSeq + cumLen - len, toRemove);
      headOff := headOff + toRemove;
      headSeq := Wrap(headSeq + toRemove);
      len := len - toRemove;
      assert data[headOff..tailOff] == old(Contents())[toRemove..];
      if len == 0 && headOff > 0 {
        headOff, tailOff := 0, 0;
      }
      ret := toRemove;
    }
  }
}
