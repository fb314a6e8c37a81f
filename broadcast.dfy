/** The broadcast loop of the upstream `data` handler (server.js:79-92) and
    what it delivers to one viewer over a run of chunks. */
module Broadcast {
  import opened Builtins
  import opened Realign

  /** A viewer's response object, by identity. */
  type ViewerId = nat

  /** What the proxy does to a viewer's response: `writeHead` with the
      `Content-Type` it announces, `write` of bytes, or `end`. */
  datatype Output =
    | Head(to: ViewerId, contentType: string)
    | Write(to: ViewerId, bytes: seq<byte>)
    | End(to: ViewerId)

  /** The bytes written to viewer `v`, in order. */
  function Received(out: seq<Output>, v: ViewerId): seq<byte>
  {
    if out == [] then []
    else
      var last := out[|out| - 1];
      Received(out[..|out| - 1], v) + (if last.Write? && last.to == v then last.bytes else [])
  }

  lemma {:induction false} ReceivedAppend(a: seq<Output>, b: seq<Output>, v: ViewerId)
    ensures Received(a + b, v) == Received(a, v) + Received(b, v)
    decreases |b|
  {
    if b != [] {
      assert (a + b)[..|a + b| - 1] == a + b[..|b| - 1];
      ReceivedAppend(a, b[..|b| - 1], v);
    } else {
      assert a + b == a;
    }
  }

  /** The bytes one viewer is sent from one chunk (server.js:83-91). `data` is
      the chunk after repair and `p` the marker's index in the chunk before
      repair (`buff`). A viewer still waiting for alignment gets `data` from
      `p` on, or nothing when there is no marker; any other viewer gets all
      of `data`. */
  function Share(waiting: bool, p: int, data: seq<byte>): seq<byte>
    requires p <= |data|
  {
    if !waiting then data else if p >= 0 then data[p..] else []
  }

  /** The writes made for one viewer: none for a waiting viewer when the chunk
      has no marker, otherwise one. */
  function Serve(v: ViewerId, pending: seq<ViewerId>, p: int, data: seq<byte>): seq<Output>
    requires p <= |data|
  {
    if v in pending && p < 0 then [] else [Write(v, Share(v in pending, p, data))]
  }

  /** The writes of the loop `for (var i = audience.length; i--;)` over
      `visit`: the last viewer is served first. */
  function FanOut(visit: seq<ViewerId>, pending: seq<ViewerId>, p: int, data: seq<byte>): seq<Output>
    requires p <= |data|
  {
    if visit == [] then []
    else FanOut(visit[1..], pending, p, data) + Serve(visit[0], pending, p, data)
  }

  /** One more turn of the loop: visiting index `i` appends that viewer's writes. */
  lemma FanOutStep(visit: seq<ViewerId>, i: int, pending: seq<ViewerId>, p: int, data: seq<byte>)
    requires 0 <= i < |visit| && p <= |data|
    ensures FanOut(visit[i..], pending, p, data) == FanOut(visit[i + 1..], pending, p, data) + Serve(visit[i], pending, p, data)
  {
    assert visit[i..][1..] == visit[i + 1..];
  }

  /** Each viewer of the audience receives its share exactly once, and nobody
      outside the audience receives anything. */
  lemma {:induction false} FanOutDelivers(visit: seq<ViewerId>, pending: seq<ViewerId>, p: int, data: seq<byte>, v: ViewerId)
    requires NoDup(visit) && p <= |data|
    ensures Received(FanOut(visit, pending, p, data), v)
            == if v in visit then Share(v in pending, p, data) else []
  {
    if visit != [] {
      FanOutDelivers(visit[1..], pending, p, data, v);
      ReceivedAppend(FanOut(visit[1..], pending, p, data), Serve(visit[0], pending, p, data), v);
      assert Received(Serve(visit[0], pending, p, data), v)
             == if v == visit[0] then Share(v in pending, p, data) else [] by {
        var s := Serve(visit[0], pending, p, data);
        if s != [] {
          assert s[..0] == [];
        }
      }
      assert v == visit[0] ==> v !in visit[1..];
      assert v in visit <==> v == visit[0] || v in visit[1..];
    }
  }

  /** The bytes each viewer has received after a fan-out appended to a log. */
  lemma FanOutExtends(log: seq<Output>, visit: seq<ViewerId>, pending: seq<ViewerId>, p: int, data: seq<byte>)
    requires NoDup(visit) && p <= |data|
    ensures forall v ::
              Received(log + FanOut(visit, pending, p, data), v)
              == Received(log, v) + if v in visit then Share(v in pending, p, data) else []
  {
    forall v
      ensures Received(log + FanOut(visit, pending, p, data), v)
              == Received(log, v) + if v in visit then Share(v in pending, p, data) else []
    {
      ReceivedAppend(log, FanOut(visit, pending, p, data), v);
      FanOutDelivers(visit, pending, p, data, v);
    }
  }

  /** With no viewer waiting, every viewer gets the same chunk, in reverse
      index order. */
  lemma {:induction false} FanOutInReverseOrder(visit: seq<ViewerId>, p: int, data: seq<byte>)
    requires p <= |data|
    ensures var out := FanOut(visit, [], p, data);
            |out| == |visit| && forall i :: 0 <= i < |out| ==> out[i] == Write(visit[|visit| - 1 - i], data)
  {
    if visit != [] {
      FanOutInReverseOrder(visit[1..], p, data);
    }
  }

  /** Everything one viewer receives while the chunks `chunks` arrive on one
      upstream response, starting with the carried bytes `tail` and, when
      `waiting`, not yet aligned. */
  function Delivered(waiting: bool, tail: Option<(byte, byte)>, boundary: string, chunks: seq<seq<byte>>): seq<byte>
    decreases |chunks|
  {
    if chunks == [] then []
    else
      var p := MarkerIndex(boundary, chunks[0]);
      var data := Repair(tail, boundary, chunks[0]);
      Share(waiting, p, data) + Delivered(waiting && p < 0, TailOf(data), boundary, chunks[1..])
  }

  predicate StartsWith<T(==)>(s: seq<T>, prefix: seq<T>) {
    |prefix| <= |s| && s[..|prefix|] == prefix
  }

  /** How many bytes of the aligned stream a viewer that joins before
      `chunks` misses: everything up to the first chunk holding a marker, and
      in that chunk everything before the marker's index. */
  function Skipped(tail: Option<(byte, byte)>, boundary: string, chunks: seq<seq<byte>>): nat
    decreases |chunks|
  {
    if chunks == [] then 0
    else
      var p := MarkerIndex(boundary, chunks[0]);
      var data := Repair(tail, boundary, chunks[0]);
      if p >= 0 then p else |data| + Skipped(TailOf(data), boundary, chunks[1..])
  }

  /** A viewer that joins while the stream runs receives a suffix of what an
      aligned viewer receives: no gap and no repeated byte after its start. */
  lemma {:induction false} LateJoinerReceivesSuffix(tail: Option<(byte, byte)>, boundary: string, chunks: seq<seq<byte>>)
    ensures var full := Delivered(false, tail, boundary, chunks);
            var k := Skipped(tail, boundary, chunks);
            k <= |full| && Delivered(true, tail, boundary, chunks) == full[k..]
    decreases |chunks|
  {
    if chunks != [] {
      var full := Delivered(false, tail, boundary, chunks);
      var p := MarkerIndex(boundary, chunks[0]);
      var data := Repair(tail, boundary, chunks[0]);
      var rest := Delivered(false, TailOf(data), boundary, chunks[1..]);
      assert full == data + rest;
      if p >= 0 {
        assert |chunks[0]| <= |data|;
        assert full[p..] == data[p..] + rest;
      } else {
        LateJoinerReceivesSuffix(TailOf(data), boundary, chunks[1..]);
        var k := Skipped(TailOf(data), boundary, chunks[1..]);
        assert full[|data| + k..] == rest[k..];
      }
    }
  }

  /** A prefix of a sequence stays a prefix when more is appended. */
  lemma StartsWithAppend<T>(s: seq<T>, more: seq<T>, prefix: seq<T>)
    requires StartsWith(s, prefix)
    ensures StartsWith(s + more, prefix)
  {
    assert (s + more)[..|prefix|] == s[..|prefix|];
  }

  /** In a chunk holding a marker, the repaired chunk from the marker's index
      in the received chunk starts with the marker, or with CRLF and the marker
      when the repair fired. */
  lemma ShareStartsAtMarker(tail: Option<(byte, byte)>, boundary: string, chunk: seq<byte>)
    requires MarkerIndex(boundary, chunk) >= 0
    ensures var p := MarkerIndex(boundary, chunk);
            var data := Repair(tail, boundary, chunk);
            StartsWith(data[p..], Marker(boundary)) || StartsWith(data[p..], [CR, LF] + Marker(boundary))
  {
    var m := Marker(boundary);
    var p := MarkerIndex(boundary, chunk);
    var data := Repair(tail, boundary, chunk);
    assert chunk[p..p + |m|] == m;
    if data == chunk {
      assert data[p..][..|m|] == chunk[p..p + |m|];
    } else {
      assert data[p..] == [CR, LF] + chunk[p..];
      assert data[p..][..|m| + 2] == [CR, LF] + chunk[p..p + |m|];
    }
  }

  /** A late joiner's first bytes are a boundary marker, or CRLF and a marker
      when the chunk it starts on was repaired: the start index is taken in the
      unrepaired chunk and applied to the repaired one. */
  lemma {:induction false} LateJoinerStartsAtMarker(tail: Option<(byte, byte)>, boundary: string, chunks: seq<seq<byte>>)
    ensures var got := Delivered(true, tail, boundary, chunks);
            got == [] || StartsWith(got, Marker(boundary)) || StartsWith(got, [CR, LF] + Marker(boundary))
    decreases |chunks|
  {
    if chunks != [] {
      var p := MarkerIndex(boundary, chunks[0]);
      var data := Repair(tail, boundary, chunks[0]);
      DeliveredFirst(true, tail, boundary, chunks);
      if p >= 0 {
        var rest := Delivered(false, TailOf(data), boundary, chunks[1..]);
        assert Delivered(true, tail, boundary, chunks) == data[p..] + rest;
        ShareStartsAtMarker(tail, boundary, chunks[0]);
        if StartsWith(data[p..], Marker(boundary)) {
          StartsWithAppend(data[p..], rest, Marker(boundary));
        } else {
          StartsWithAppend(data[p..], rest, [CR, LF] + Marker(boundary));
        }
      } else {
        LateJoinerStartsAtMarker(TailOf(data), boundary, chunks[1..]);
      }
    }
  }

  /** A run of `data` events on one upstream response, as the data handler
      leaves the state after each: `outs[i]`, `pendings[i]` and `tails[i]` are
      the log, the waiting list and the carried bytes before chunk `i`; the
      audience and the boundary do not change while chunks arrive. */
  ghost predicate DataRun(audience: seq<ViewerId>, boundary: string, chunks: seq<seq<byte>>,
                          outs: seq<seq<Output>>, pendings: seq<seq<ViewerId>>, tails: seq<Option<(byte, byte)>>)
  {
    && |outs| == |pendings| == |tails| == |chunks| + 1
    && forall i {:trigger chunks[i]} :: 0 <= i < |chunks| ==>
         var p := MarkerIndex(boundary, chunks[i]);
         var data := Repair(tails[i], boundary, chunks[i]);
         && outs[i + 1] == outs[i] + FanOut(audience, pendings[i], p, data)
         && pendings[i + 1] == (if p >= 0 then [] else pendings[i])
         && tails[i + 1] == TailOf(data)
  }

  /** A run minus its first chunk is a run. */
  lemma DataRunRest(audience: seq<ViewerId>, boundary: string, chunks: seq<seq<byte>>,
                    outs: seq<seq<Output>>, pendings: seq<seq<ViewerId>>, tails: seq<Option<(byte, byte)>>)
    requires chunks != [] && DataRun(audience, boundary, chunks, outs, pendings, tails)
    ensures DataRun(audience, boundary, chunks[1..], outs[1..], pendings[1..], tails[1..])
  {
    forall i | 0 <= i < |chunks| - 1
      ensures var p := MarkerIndex(boundary, chunks[1..][i]);
              var data := Repair(tails[1..][i], boundary, chunks[1..][i]);
              && outs[1..][i + 1] == outs[1..][i] + FanOut(audience, pendings[1..][i], p, data)
              && pendings[1..][i + 1] == (if p >= 0 then [] else pendings[1..][i])
              && tails[1..][i + 1] == TailOf(data)
    {
      assert chunks[1..][i] == chunks[i + 1];
    }
  }

  /** The first event of a run sends each viewer its share of the first chunk. */
  lemma DataRunFirst(audience: seq<ViewerId>, boundary: string, chunks: seq<seq<byte>>,
                     outs: seq<seq<Output>>, pendings: seq<seq<ViewerId>>,
                     tails: seq<Option<(byte, byte)>>, v: ViewerId)
    requires NoDup(audience) && chunks != []
    requires DataRun(audience, boundary, chunks, outs, pendings, tails)
    ensures var p := MarkerIndex(boundary, chunks[0]);
            var data := Repair(tails[0], boundary, chunks[0]);
            && p <= |data|
            && Received(outs[1], v) == Received(outs[0], v) + (if v in audience then Share(v in pendings[0], p, data) else [])
            && (v in pendings[1] <==> v in pendings[0] && p < 0)
            && tails[1] == TailOf(data)
  {
    var p := MarkerIndex(boundary, chunks[0]);
    var data := Repair(tails[0], boundary, chunks[0]);
    ReceivedAppend(outs[0], FanOut(audience, pendings[0], p, data), v);
    FanOutDelivers(audience, pendings[0], p, data, v);
  }

  /** One viewer's bytes over a run of chunks are its share of the first chunk
      followed by its bytes over the rest. */
  lemma DeliveredFirst(waiting: bool, tail: Option<(byte, byte)>, boundary: string, chunks: seq<seq<byte>>)
    requires chunks != []
    ensures var p := MarkerIndex(boundary, chunks[0]);
            var data := Repair(tail, boundary, chunks[0]);
            && p <= |data|
            && Delivered(waiting, tail, boundary, chunks)
               == Share(waiting, p, data) + Delivered(waiting && p < 0, TailOf(data), boundary, chunks[1..])
  {
  }

  /** The first event of a run, followed by what the rest of the run sends,
      is what the whole run sends: `r0`, `r1` and `rn` are a viewer's bytes
      before the run, after its first event and after all of it. */
  lemma RunStep(member: bool, r0: seq<byte>, r1: seq<byte>, rn: seq<byte>,
                share: seq<byte>, rest: seq<byte>, whole: seq<byte>)
    requires r1 == r0 + (if member then share else [])
    requires rn == r1 + (if member then rest else [])
    requires whole == share + rest
    ensures rn == r0 + (if member then whole else [])
  {
    if member {
      assert rn == (r0 + share) + rest;
    }
  }

  /** Over a run of `data` events, each viewer of the audience is sent exactly
      what `Delivered` says, starting waiting exactly when it was pending; a
      viewer outside the audience is sent nothing. */
  lemma {:induction false} RunDelivers(audience: seq<ViewerId>, boundary: string, chunks: seq<seq<byte>>,
                                       outs: seq<seq<Output>>, pendings: seq<seq<ViewerId>>,
                                       tails: seq<Option<(byte, byte)>>, v: ViewerId)
    requires NoDup(audience)
    requires DataRun(audience, boundary, chunks, outs, pendings, tails)
    ensures Received(outs[|chunks|], v)
            == Received(outs[0], v)
               + if v in audience then Delivered(v in pendings[0], tails[0], boundary, chunks) else []
    decreases |chunks|
  {
    if chunks != [] {
      var n := |chunks|;
      DataRunRest(audience, boundary, chunks, outs, pendings, tails);
      RunDelivers(audience, boundary, chunks[1..], outs[1..], pendings[1..], tails[1..], v);
      assert outs[1..][n - 1] == outs[n];
      assert outs[1..][0] == outs[1] && pendings[1..][0] == pendings[1] && tails[1..][0] == tails[1];
      DataRunFirst(audience, boundary, chunks, outs, pendings, tails, v);
      var p := MarkerIndex(boundary, chunks[0]);
      var data := Repair(tails[0], boundary, chunks[0]);
      DeliveredFirst(v in pendings[0], tails[0], boundary, chunks);
      RunStep(v in audience, Received(outs[0], v), Received(outs[1], v), Received(outs[n], v),
              Share(v in pendings[0], p, data), Delivered(v in pendings[1], tails[1], boundary, chunks[1..]),
              Delivered(v in pendings[0], tails[0], boundary, chunks));
    }
  }
}
