/** Descriptors that deliver and accept bytes piecemeal, and the loops that hide it (src/net_utils.c). */
module Io {
  import opened Bytes

  datatype ReadResult = ReadInterrupted | ReadFailed | Got(bytes: text)
  datatype WriteResult = WriteInterrupted | WouldBlock | WriteFailed | Wrote(count: nat)

  /**
   * A readable descriptor. `data` is everything it will ever deliver and `broken` says whether it
   * then reports an error or end of file. How many bytes one read returns and when a signal
   * interrupts it is not determined; only finitely many interruptions (`hiccups`) happen.
   */
  class Source {
    const data: text
    const broken: bool
    var pos: nat
    var hiccups: nat

    ghost predicate Valid() reads this { pos <= |data| }

    ghost function Rest(): text
      reads this
      requires Valid()
    {
      data[pos..]
    }

    constructor (data: text, broken: bool, hiccups: nat)
      ensures Valid() && Rest() == data && this.data == data && this.broken == broken && pos == 0
    {
      this.data, this.broken, this.pos, this.hiccups := data, broken, 0, hiccups;
    }

    /** read(2). */
    method Read(want: nat) returns (r: ReadResult)
      requires Valid() && want > 0
      modifies this
      ensures Valid()
      ensures r.ReadInterrupted? ==> pos == old(pos) && hiccups < old(hiccups)
      ensures r.ReadFailed? ==> pos == old(pos) == |data| && broken && hiccups == old(hiccups)
      ensures r.Got? ==>
        pos == old(pos) + |r.bytes| && |r.bytes| <= want && r.bytes == data[old(pos)..pos] && hiccups == old(hiccups)
      ensures r == Got([]) ==> pos == |data| && !broken
    {
      var interrupt: bool := *;
      if hiccups > 0 && interrupt {
        hiccups := hiccups - 1;
        return ReadInterrupted;
      }
      if pos == |data| {
        return if broken then ReadFailed else Got([]);
      }
      var n: nat :| 1 <= n <= want && pos + n <= |data|;
      r := Got(data[pos..pos + n]);
      pos := pos + n;
    }

    /** readn followed by read_full: all `n` bytes, or failure with the rest swallowed. */
    method ReadFull(n: nat) returns (r: Option<text>)
      requires Valid()
      modifies this
      ensures Valid()
      ensures |old(Rest())| >= n ==> r == Some(old(Rest())[..n]) && Rest() == old(Rest())[n..]
      ensures |old(Rest())| < n ==> r == None && Rest() == []
    {
      var left := n;
      var buf: text := [];
      while left > 0
        invariant Valid() && left == n - |buf| && pos == old(pos) + |buf|
        invariant buf == data[old(pos)..pos]
        decreases left, hiccups
      {
        var got := Read(left);
        match got {
          case ReadInterrupted =>
          case ReadFailed => return None;
          case Got(bytes) =>
            if bytes == [] {
              return None;
            }
            buf := buf + bytes;
            left := left - |bytes|;
        }
      }
      assert buf == old(Rest())[..n];
      r := Some(buf);
    }
  }

  /**
   * A writable descriptor that takes `room` more bytes before it fails for good, in pieces of any
   * size, with finitely many interruptions, full buffers and empty writes in between.
   */
  class Sink {
    var sent: text
    var room: nat
    var hiccups: nat

    constructor (room: nat, hiccups: nat)
      ensures sent == [] && this.room == room
    {
      this.sent, this.room, this.hiccups := [], room, hiccups;
    }

    /** write(2). */
    method Write(bytes: text) returns (r: WriteResult)
      requires bytes != []
      modifies this
      ensures r.WriteInterrupted? || r.WouldBlock? || r == Wrote(0) ==>
        sent == old(sent) && room == old(room) && hiccups < old(hiccups)
      ensures r.WriteFailed? ==> sent == old(sent) && room == old(room) == 0
      ensures r.Wrote? ==>
        r.count <= |bytes| && r.count <= old(room) && room == old(room) - r.count &&
        sent == old(sent) + bytes[..r.count]
    {
      var interrupt: bool := *;
      if hiccups > 0 && interrupt {
        hiccups := hiccups - 1;
        var kind: nat := *;
        return if kind == 0 then WriteInterrupted else if kind == 1 then WouldBlock else Wrote(0);
      }
      if room == 0 {
        return WriteFailed;
      }
      var n: nat :| 1 <= n <= |bytes| && n <= room;
      sent, room := sent + bytes[..n], room - n;
      r := Wrote(n);
    }

    /** writen / write_full: everything arrives in order, or exactly the bytes before the cut do. */
    method WriteFull(bytes: text) returns (ok: bool)
      modifies this
      ensures ok <==> |bytes| <= old(room)
      ensures sent == old(sent) + bytes[..Min(|bytes|, old(room))]
      ensures room == old(room) - Min(|bytes|, old(room))
    {
      var done := 0;
      while done < |bytes|
        invariant 0 <= done <= |bytes| && done <= old(room) && room == old(room) - done
        invariant sent == old(sent) + bytes[..done]
        decreases |bytes| - done, hiccups
      {
        var r := Write(bytes[done..]);
        match r {
          case WriteInterrupted =>
          case WouldBlock =>
          case WriteFailed => return false;
          case Wrote(n) =>
            assert bytes[..done] + bytes[done..][..n] == bytes[..done + n];
            done := done + n;
        }
      }
      assert bytes[..done] == bytes;
      ok := true;
    }
  }
}
