/**
 The input callback of the service: a cursor over a mapped file that hands out
 at most the bytes asked for.
 */
module RpcServer {

  import opened Arith
  import opened Wire

  /** The negated tag "EOF ". */
  const AVERROR_EOF: int := -541478725

  lemma EofIsTag()
    ensures -AVERROR_EOF == 'E' as int + 0x100 * 'O' as int + 0x1_0000 * 'F' as int + 0x100_0000 * ' ' as int
  {
  }

  // ---------- one request and a run of requests ----------

  /** What one request on `left` delivers, leaves and returns. */
  datatype Answer = Answer(chunk: seq<Byte>, left: seq<Byte>, result: int)

  function Reply(left: seq<Byte>, request: nat): (a: Answer)
    ensures |a.chunk| <= request && a.chunk + a.left == left
  {
    var n := Min(request, |left|);
    Answer(left[..n], left[n..], if n == 0 then AVERROR_EOF else n)
  }

  /** The same of a run of requests on `rest`, the next request last. */
  datatype Session = Session(delivered: seq<Byte>, left: seq<Byte>, results: seq<int>)

  function Run(rest: seq<Byte>, requests: seq<nat>): (s: Session)
  {
    if requests == [] then Session([], rest, [])
    else
      var before := Run(rest, requests[..|requests| - 1]);
      var a := Reply(before.left, requests[|requests| - 1]);
      Session(before.delivered + a.chunk, a.left, before.results + [a.result])
  }

  function Total(requests: seq<nat>): (t: nat)
  {
    if requests == [] then 0 else Total(requests[..|requests| - 1]) + requests[|requests| - 1]
  }

  lemma NextPrefix(rest: seq<Byte>, m: nat, request: nat)
    requires m <= |rest|
    ensures var a, n := Reply(rest[m..], request), Min(m + request, |rest|);
            rest[..m] + a.chunk == rest[..n] && a.left == rest[n..]
  {
    var n := Min(m + request, |rest|);
    assert rest[m..][..n - m] == rest[m..n];
  }

  /**
   The sizes of the requests do not matter to what arrives: a run delivers
   the first bytes of the file, as many as were asked for in all or as there
   are, and leaves the others.
   */
  lemma {:induction false} DeliversAPrefix(rest: seq<Byte>, requests: seq<nat>)
    ensures var s := Run(rest, requests);
            var n := Min(Total(requests), |rest|);
            s.delivered == rest[..n] && s.left == rest[n..] && |s.results| == |requests|
  {
    if requests != [] {
      var before := requests[..|requests| - 1];
      DeliversAPrefix(rest, before);
      NextPrefix(rest, Min(Total(before), |rest|), requests[|requests| - 1]);
    }
  }

  /**
   Every result of a run: the end is reported exactly for a request of zero
   bytes and once the earlier requests have covered the file, and from then
   on for ever.
   */
  lemma {:induction false} ResultAt(rest: seq<Byte>, requests: seq<nat>, k: nat)
    requires k < |requests|
    ensures |Run(rest, requests).results| == |requests|
    ensures var asked := Total(requests[..k]);
            Run(rest, requests).results[k]
            == if requests[k] == 0 || asked >= |rest| then AVERROR_EOF else Min(requests[k], |rest| - asked)
    decreases |requests|
  {
    var last := |requests| - 1;
    DeliversAPrefix(rest, requests[..last]);
    if k < last {
      ResultAt(rest, requests[..last], k);
      assert requests[..last][..k] == requests[..k];
    }
  }

  // ---------- the callback ----------

  class BufferData {
    const data: array<Byte>
    var ptr: nat
    var size: nat

    ghost predicate Valid() reads this { ptr + size <= data.Length }

    /** The bytes that were not handed out yet. */
    ghost function Remaining(): (rest: seq<Byte>)
      requires Valid()
      reads this, data
    {
      data[ptr..ptr + size]
    }

    constructor (file: array<Byte>)
      ensures data == file && Valid() && Remaining() == file[..]
    {
      data, ptr, size := file, 0, file.Length;
    }

    /** One request; what it delivers is copied to the front of `buf`. */
    method ReadPacket(buf: array<Byte>, bufSize: nat) returns (ret: int)
      requires Valid() && buf != data && bufSize <= buf.Length
      modifies this`ptr, this`size, buf
      ensures Valid()
      ensures var a := Reply(old(Remaining()), bufSize);
              && ret == a.result
              && Remaining() == a.left
              && buf[..] == a.chunk + old(buf[..])[|a.chunk|..]
    {
      ghost var was := Remaining();
      var n := Min(bufSize, size);
      if n == 0 {
        return AVERROR_EOF;
      }
      forall i | 0 <= i < n {
        buf[i] := data[ptr + i];
      }
      ptr, size := ptr + n, size - n;
      ghost var a := Reply(was, bufSize);
      assert buf[..n] == a.chunk && buf[n..] == old(buf[..])[n..];
      assert buf[..] == buf[..n] + buf[n..];
      return n;
    }
  }
}
