/** The chunked download of the native broker: network chunks are queued and handed out in the sizes
    the caller asks for. */
module DownloadStream {
  import opened Common

  const MAX_IPC_CHUNK_BYTES := 8 * 1024 * 1024

  type Byte = b: nat | b < 256

  /** What the response yields next: a network chunk, or a failure or cancellation. */
  datatype NetworkEvent = Data(bytes: seq<Byte>) | Broken

  function Bytes(events: seq<NetworkEvent>): seq<Byte> {
    if events == [] then [] else
    (if events[0].Data? then events[0].bytes else []) + Bytes(events[1..])
  }

  /** No failure, and no network chunk above the limit. */
  predicate Smooth(events: seq<NetworkEvent>) {
    forall i | 0 <= i < |events| :: events[i].Data? && |events[i].bytes| <= MAX_IPC_CHUNK_BYTES
  }

  datatype ChunkResult = Chunk(bytes: seq<Byte>, done: bool) | ChunkError

  /** The next chunk, as a slice of the body: it depends on what was delivered and on the sizes, not
      on how the network cut the body. */
  function NextChunk(body: seq<Byte>, size: nat, delivered: nat, maximum: nat): seq<Byte>
    requires delivered <= |body| && delivered <= size
  {
    body[delivered..delivered + Min(Min(maximum, size - delivered), |body| - delivered)]
  }

  /** What moving bytes from the queue and the network to the output does to the body. */
  lemma SliceOfBody(
      body: seq<Byte>, delivered: seq<Byte>, queued: seq<Byte>, unread: seq<Byte>,
      output: seq<Byte>, queued': seq<Byte>, unread': seq<Byte>, size: nat, maximum: nat)
    requires delivered + queued + unread == body && |delivered| <= size
    requires output + queued' + unread' == queued + unread
    requires var target := Min(maximum, size - |delivered|);
             |output| <= target && (|output| == target || queued' + unread' == [])
    ensures output == NextChunk(body, size, |delivered|, maximum)
    ensures (delivered + output) + queued' + unread' == body
  {
    var left := queued' + unread';
    assert delivered + (queued + unread) == body;
    assert output + left == queued + unread;
    assert delivered + (output + left) == body;
    assert output == body[|delivered|..|delivered| + |output|];
    assert |body| - |delivered| == |output| + |left|;
  }

  class DownloadTransfer {
    const size: nat
    var pending: seq<Byte>
    var transferred: nat
    var response: seq<NetworkEvent>
    ghost const body: seq<Byte>
    ghost var delivered: seq<Byte>

    /** Nothing is lost, duplicated or reordered: delivered, queued and unread bytes are the body. */
    ghost predicate Valid()
      reads this
    {
      && delivered + pending + Bytes(response) == body
      && transferred == |delivered| <= size
    }

    constructor (size: nat, response: seq<NetworkEvent>)
      ensures Valid() && this.size == size && body == Bytes(response) && delivered == []
    {
      this.size := size;
      this.pending := [];
      this.transferred := 0;
      this.response := response;
      this.body := Bytes(response);
      this.delivered := [];
    }

    /** The inner loop: bytes move from the queue to the output. */
    method TakeQueued(target: nat, taken: seq<Byte>) returns (output: seq<Byte>)
      requires |taken| <= target
      modifies `pending
      ensures output + pending == taken + old(pending) && |taken| <= |output| <= target
      ensures |output| == target || pending == []
    {
      output := taken;
      while |output| < target && pending != []
        invariant |taken| <= |output| <= target
        invariant output + pending == taken + old(pending)
        decreases |pending|
      {
        output := output + [pending[0]];
        pending := pending[1..];
      }
    }

    /** Drains the queue and refills it from the network until the target is met or the body ends. */
    method Collect(target: nat) returns (output: seq<Byte>, failed: bool)
      modifies `pending, `response
      ensures !failed ==>
                && output + pending + Bytes(response) == old(pending) + Bytes(old(response))
                && |output| <= target && (|output| == target || (pending == [] && response == []))
      ensures Smooth(old(response)) ==> !failed && Smooth(response)
    {
      output, failed := [], false;
      while |output| < target
        invariant |output| <= target
        invariant output + pending + Bytes(response) == old(pending) + Bytes(old(response))
        invariant Smooth(old(response)) ==> Smooth(response)
        decreases |response|, target - |output|
      {
        var queued := pending;
        var before := output;
        output := TakeQueued(target, before);
        assert output + pending + Bytes(response) == before + queued + Bytes(response);
        if |output| == target { break; }
        if response == [] { break; }
        var event := response[0];
        ghost var rest := response;
        response := response[1..];
        if event.Broken? { return output, true; }
        if |event.bytes| > MAX_IPC_CHUNK_BYTES || |pending| + |event.bytes| > MAX_IPC_CHUNK_BYTES {
          return output, true;
        }
        assert Bytes(rest) == event.bytes + Bytes(response);
        pending := pending + event.bytes;
      }
    }

    /** A successful call hands out the next slice of the body and keeps every byte accounted for. On
        a well-behaved network it can fail only when bytes are missing. */
    method DownloadChunk(maximum: nat) returns (r: ChunkResult)
      requires Valid() && 1 <= maximum <= MAX_IPC_CHUNK_BYTES
      modifies `pending, `transferred, `response, `delivered
      ensures r.Chunk? ==>
                && Valid()
                && r.bytes == NextChunk(body, size, |old(delivered)|, maximum)
                && delivered == old(delivered) + r.bytes
                && (r.done <==> transferred == size)
      ensures Smooth(old(response)) ==> Smooth(response)
      ensures Smooth(old(response)) && (|old(delivered)| == size || |old(delivered)| < |body|) ==> r.Chunk?
    {
      var output, failed := Collect(Min(maximum, size - transferred));
      if failed { return ChunkError; }
      SliceOfBody(body, delivered, old(pending), Bytes(old(response)), output, pending, Bytes(response), size, maximum);
      if output == [] && transferred < size { return ChunkError; }
      transferred := transferred + |output|;
      delivered := delivered + output;
      return Chunk(output, transferred == size);
    }

    /** Finishing succeeds exactly when `size` bytes were delivered and none is left in the queue; all
        bytes pulled from the network have then been handed out. */
    method Finish() returns (ok: bool)
      requires Valid()
      ensures ok <==> |delivered| == size && pending == []
      ensures ok ==> delivered == body[..size] && delivered + Bytes(response) == body
    {
      ok := transferred == size && pending == [];
      assert delivered == body[..|delivered|];
    }
  }

  // ----- whole sessions -----

  /** Everything handed out by a list of requests. */
  function Served(body: seq<Byte>, size: nat, requests: seq<nat>): (s: seq<Byte>)
    ensures |s| <= |body| && |s| <= size
  {
    if requests == [] then [] else
    var n := |requests| - 1;
    var before := Served(body, size, requests[..n]);
    before + NextChunk(body, size, |before|, requests[n])
  }

  function Total(requests: seq<nat>): nat {
    if requests == [] then 0 else Total(requests[..|requests| - 1]) + requests[|requests| - 1]
  }

  /** For every split of the body into network chunks and every list of requested sizes, what has been
      handed out is a prefix of the body, as long as was asked for, declared and present. */
  lemma {:induction false} ServedIsAPrefix(body: seq<Byte>, size: nat, requests: seq<nat>)
    ensures Served(body, size, requests) == body[..Min(Min(Total(requests), size), |body|)]
  {
    if requests != [] {
      var n := |requests| - 1;
      ServedIsAPrefix(body, size, requests[..n]);
      var before := Served(body, size, requests[..n]);
      assert before == body[..|before|];
      assert before + NextChunk(body, size, |before|, requests[n])
          == body[..|before| + |NextChunk(body, size, |before|, requests[n])|];
    }
  }

  function Concatenated(chunks: seq<seq<Byte>>): seq<Byte> {
    if chunks == [] then [] else Concatenated(chunks[..|chunks| - 1]) + chunks[|chunks| - 1]
  }

  lemma ConcatenatedNext(chunks: seq<seq<Byte>>, chunk: seq<Byte>)
    ensures Concatenated(chunks + [chunk]) == Concatenated(chunks) + chunk
  {
    assert (chunks + [chunk])[..|chunks|] == chunks;
  }

  /** A client that asks for one chunk after another. Together the chunks are the prefix of the body that
      the sizes ask for, however the network cut it; on a well-behaved network that carries the declared
      size no request fails. */
  method DownloadAll(transfer: DownloadTransfer, requests: seq<nat>) returns (chunks: seq<seq<Byte>>, ok: bool)
    requires transfer.Valid() && transfer.delivered == []
    requires forall i | 0 <= i < |requests| :: 1 <= requests[i] <= MAX_IPC_CHUNK_BYTES
    modifies transfer
    ensures ok ==>
              && transfer.Valid() && Concatenated(chunks) == transfer.delivered
              && transfer.delivered
                 == transfer.body[..Min(Min(Total(requests), transfer.size), |transfer.body|)]
    ensures Smooth(old(transfer.response)) && transfer.size <= |transfer.body| ==> ok
  {
    chunks, ok := [], true;
    for i := 0 to |requests|
      invariant transfer.Valid() && Concatenated(chunks) == transfer.delivered
      invariant transfer.delivered == Served(transfer.body, transfer.size, requests[..i])
      invariant Smooth(old(transfer.response)) ==> Smooth(transfer.response)
    {
      var r := transfer.DownloadChunk(requests[i]);
      if r.ChunkError? { return chunks, false; }
      assert requests[..i + 1][..i] == requests[..i];
      ConcatenatedNext(chunks, r.bytes);
      chunks := chunks + [r.bytes];
    }
    assert requests[..|requests|] == requests;
    ServedIsAPrefix(transfer.body, transfer.size, requests);
  }
}
