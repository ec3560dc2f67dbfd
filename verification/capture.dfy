/** Bounded output capture: the head of a stream and its rolling tail. */
module Capture {

  const USIZE_MAX: nat := 0xFFFF_FFFF_FFFF_FFFF

  type Bytes = seq<nat>

  function Min(a: nat, b: nat): nat {
    if a < b then a else b
  }

  function SaturatingSub(a: nat, b: nat): nat {
    if a < b then 0 else a - b
  }

  /** The last `n` bytes, or all of them. */
  function LastOf(s: Bytes, n: nat): Bytes {
    if |s| <= n then s else s[|s| - n..]
  }

  /** The part of a stream that a capture keeps: its first bytes, and the last ones
      of what follows them. */
  function HeadOf(stream: Bytes, headLimit: nat): Bytes {
    stream[..Min(|stream|, headLimit)]
  }

  function TailOf(stream: Bytes, limit: nat, headLimit: nat): Bytes
    requires headLimit <= limit
  {
    LastOf(stream[Min(|stream|, headLimit)..], limit - headLimit)
  }

  /** The tail can be kept up to date from itself: bytes that were dropped never
      come back. */
  lemma TailRolls(rest: Bytes, more: Bytes, n: nat)
    ensures LastOf(LastOf(rest, n) + more, n) == LastOf(rest + more, n)
  {
    if |rest| > n {
      var kept := rest[|rest| - n..];
      assert rest + more == rest[..|rest| - n] + (kept + more);
    }
  }

  /** One chunk more: what is kept of the longer stream comes from what was kept. */
  lemma KeptRolls(stream: Bytes, chunk: Bytes, limit: nat, headLimit: nat)
    requires headLimit <= limit
    ensures var take := Min(SaturatingSub(headLimit, |HeadOf(stream, headLimit)|), |chunk|);
            && HeadOf(stream + chunk, headLimit) == HeadOf(stream, headLimit) + chunk[..take]
            && TailOf(stream + chunk, limit, headLimit)
               == LastOf(TailOf(stream, limit, headLimit) + chunk[take..], limit - headLimit)
  {
    var take := Min(SaturatingSub(headLimit, |HeadOf(stream, headLimit)|), |chunk|);
    var cut := Min(|stream|, headLimit);
    assert (stream + chunk)[Min(|stream + chunk|, headLimit)..] == stream[cut..] + chunk[take..];
    TailRolls(stream[cut..], chunk[take..], limit - headLimit);
  }

  /** Nothing is lost up to the limit; beyond it, exactly a middle part is, and the
      tail is the end of the stream. */
  lemma KeptParts(stream: Bytes, limit: nat, headLimit: nat)
    requires headLimit <= limit
    ensures var head, tail := HeadOf(stream, headLimit), TailOf(stream, limit, headLimit);
            && |head| + |tail| == Min(|stream|, limit)
            && (|stream| <= limit ==> head + tail == stream)
            && head <= stream && tail == stream[|stream| - |tail|..]
  {
    var cut := Min(|stream|, headLimit);
    assert stream == stream[..cut] + stream[cut..];
  }

  lemma TailFits(stream: Bytes, limit: nat, headLimit: nat)
    requires headLimit <= limit
    ensures |TailOf(stream, limit, headLimit)| <= limit - headLimit
  {
  }

  datatype Payload = Payload(retained: Bytes, totalBytes: nat, retainedBytes: nat, droppedBytes: nat, truncated: bool)

  class BoundedCapture {
    const limit: nat
    const headLimit: nat
    var head: Bytes
    var tail: Bytes
    var totalBytes: nat
    ghost var stream: Bytes  // everything appended so far

    ghost predicate Valid()
      reads this
    {
      && headLimit <= limit <= USIZE_MAX
      && head == HeadOf(stream, headLimit)
      && tail == TailOf(stream, limit, headLimit)
      && totalBytes == Min(|stream|, USIZE_MAX)
    }

    constructor (limit: nat, headLimit: nat)
      requires limit <= USIZE_MAX
      ensures Valid() && stream == []
      ensures this.limit == limit && this.headLimit == Min(headLimit, limit)
    {
      this.limit := limit;
      this.headLimit := Min(headLimit, limit);
      head, tail, totalBytes, stream := [], [], 0, [];
    }

    /** However the stream is cut into chunks, what is kept depends only on the
        stream: `Valid` says so of the new one. */
    method Append(chunk: Bytes)
      requires Valid()
      modifies this
      ensures Valid() && stream == old(stream) + chunk
    {
      hide HeadOf, TailOf;
      KeptRolls(stream, chunk, limit, headLimit);
      stream := stream + chunk;
      totalBytes := if totalBytes + |chunk| > USIZE_MAX then USIZE_MAX else totalBytes + |chunk|;
      var headTake := Min(SaturatingSub(headLimit, |head|), |chunk|);
      if headTake > 0 {
        head := head + chunk[..headTake];
      } else {
        assert head + chunk[..headTake] == head;
      }
      var remainder := chunk[headTake..];
      var tailLimit := SaturatingSub(limit, headLimit);
      assert |tail| <= tailLimit by {
        TailFits(old(stream), limit, headLimit);
      }
      if tailLimit == 0 || remainder == [] {
        assert LastOf(tail + remainder, tailLimit) == tail;
        return;
      }
      tail := tail + remainder;
      if |tail| > tailLimit {
        var overflow := |tail| - tailLimit;
        tail := tail[overflow..];
      }
    }

    method TakePayload() returns (p: Payload)
      requires Valid()
      ensures p.retained == HeadOf(stream, headLimit) + TailOf(stream, limit, headLimit)
      ensures p.retainedBytes == |p.retained| == Min(|stream|, limit)
      ensures p.totalBytes == Min(|stream|, USIZE_MAX)
      ensures p.droppedBytes == p.totalBytes - p.retainedBytes
      ensures p.truncated <==> |stream| > limit && limit < USIZE_MAX
      ensures p.retainedBytes + p.droppedBytes == |stream| <==> |stream| <= USIZE_MAX
    {
      KeptParts(stream, limit, headLimit);
      var retained := head + tail;
      p := Payload(retained, totalBytes, |retained|, SaturatingSub(totalBytes, |retained|), totalBytes > |retained|);
    }

    /** The tail's true place in the stream, exactly while the count has not saturated. */
    function TailStartOffset(): (offset: nat)
      requires Valid()
      reads this
      ensures |stream| <= USIZE_MAX ==> offset <= |stream| && tail == stream[offset..]
      ensures offset == |stream| - |tail| <==> |stream| <= USIZE_MAX
    {
      KeptParts(stream, limit, headLimit);
      SaturatingSub(totalBytes, |tail|)
    }
  }
}
