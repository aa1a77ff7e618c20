/**
 * The USB bulk transport, as both programs see it: every transfer (the
 * request write and each bulk read) gets one outcome from the camera, in
 * order.  The outcomes are a parameter of the model; the real device, the
 * simulation files and libusb are not modelled.
 */
module Transport {
  import opened Dcm300Types

  /** The outcome of one bulk transfer: the bytes the camera sent, or an error. */
  datatype Transfer = Ok(data: seq<byte>) | Failed

  /** The outcome of transfer number p; a camera that has stopped answering fails. */
  function Reply(replies: seq<Transfer>, p: nat): (t: Transfer)
    ensures p < |replies| ==> t == replies[p]
    ensures p >= |replies| ==> t == Failed
  {
    if p < |replies| then replies[p] else Failed
  }

  /** The bytes a read of at most want bytes copies into the caller's buffer. */
  function Taken(t: Transfer, want: nat): (got: seq<byte>)
    ensures |got| <= want
    ensures t.Ok? ==> got <= t.data && |got| == Min(|t.data|, want)
    ensures t.Failed? ==> got == []
  {
    if t.Failed? then [] else if |t.data| <= want then t.data else t.data[..want]
  }

  /**
   * The read's return value: the number of bytes delivered, or a negative
   * value on error (-1 stands for every error code).
   */
  function Count(t: Transfer, want: nat): (n: int)
    ensures n < 0 <==> t.Failed?
    ensures n >= 0 ==> n == |Taken(t, want)| <= want
    ensures n == want <==> t.Ok? && |t.data| >= want
  {
    if t.Failed? then -1 else |Taken(t, want)|
  }

  /** The endpoint pair of the opened camera. */
  class Port {
    /** Outcomes of the transfers to come, in order. */
    const replies: seq<Transfer>
    /** Number of transfers made so far. */
    var pos: nat
    /** The bytes of every write made so far. */
    var sent: seq<seq<byte>>

    constructor(replies: seq<Transfer>)
      ensures this.replies == replies && pos == 0 && sent == []
    {
      this.replies := replies;
      pos := 0;
      sent := [];
    }

    /** A bulk write; it succeeds unless the camera reports an error. */
    method Write(data: seq<byte>) returns (ok: bool)
      modifies this
      ensures pos == old(pos) + 1 && sent == old(sent) + [data]
      ensures ok <==> Reply(replies, old(pos)).Ok?
    {
      ok := Reply(replies, pos).Ok?;
      sent := sent + [data];
      pos := pos + 1;
    }

    /**
     * A bulk read of at most want bytes into buf[at..at + want]: the bytes
     * delivered are stored from buf[at] on and nothing else in buf changes.
     */
    method Read(buf: array<byte>, at: int, want: int) returns (n: int)
      requires 0 <= at && 0 <= want && at + want <= buf.Length
      modifies this, buf
      ensures pos == old(pos) + 1 && sent == old(sent)
      ensures n == Count(Reply(replies, old(pos)), want)
      ensures buf[at..at + |Taken(Reply(replies, old(pos)), want)|] == Taken(Reply(replies, old(pos)), want)
      ensures forall q :: 0 <= q < buf.Length && !(at <= q < at + |Taken(Reply(replies, old(pos)), want)|) ==>
        buf[q] == old(buf[q])
    {
      var got := Taken(Reply(replies, pos), want);
      var k := 0;
      while k < |got|
        invariant 0 <= k <= |got| && pos == old(pos) && sent == old(sent)
        invariant buf[at..at + k] == got[..k]
        invariant forall q :: 0 <= q < buf.Length && !(at <= q < at + k) ==> buf[q] == old(buf[q])
      {
        buf[at + k] := got[k];
        k := k + 1;
      }
      n := Count(Reply(replies, pos), want);
      pos := pos + 1;
    }
  }
}
