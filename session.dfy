/** The `MjpegProxy` object (server.js:25-134): one upstream MJPEG request
    shared by every viewer, the arrays of viewers, and the events that change
    them — a viewer attaching, the upstream response arriving, its chunks, its
    end, and a viewer's socket closing. Node runs one callback at a time, so
    each event is one method call. */
module Session {
  import opened Builtins
  import opened Boundary
  import opened Realign
  import opened Broadcast

  /** An upstream request, numbered in the order the proxy issued them. */
  type RequestId = nat

  /** `'' + self.boundary`: a boundary not yet known prints as `null`. */
  function BoundaryText(b: Option<string>): string {
    match b
    case None => "null"
    case Some(s) => s
  }

  /** The `end()` calls of the loop over the audience at server.js:95-98, the
      last viewer first. */
  function Ends(visit: seq<ViewerId>): seq<Output> {
    if visit == [] then [] else Ends(visit[1..]) + [End(visit[0])]
  }

  /** Every viewer of the audience is ended once, in reverse index order. */
  lemma {:induction false} EndsEveryViewerInReverse(visit: seq<ViewerId>)
    ensures |Ends(visit)| == |visit|
    ensures forall i :: 0 <= i < |visit| ==> Ends(visit)[i] == End(visit[|visit| - 1 - i])
  {
    if visit != [] {
      EndsEveryViewerInReverse(visit[1..]);
    }
  }

  /** What is left of the viewers waiting for alignment once the broadcast
      loop has visited `audience[i..]`: those it has not visited yet, or all of
      them when the chunk holds no marker. */
  ghost predicate PendingAfter(pending: seq<ViewerId>, pending0: seq<ViewerId>, audience: seq<ViewerId>, i: int, p: int)
    requires 0 <= i <= |audience|
  {
    && NoDup(pending)
    && (forall w :: w in pending ==> w in pending0)
    && (forall w :: w in pending0 && w in audience[..i] ==> w in pending)
    && (p >= 0 ==> forall w :: w in pending ==> w in audience[..i])
    && (p < 0 ==> pending == pending0)
  }

  /** Serving a waiting viewer at index `i` removes it and keeps the others. */
  lemma ServedLeavesPending(pending: seq<ViewerId>, pending0: seq<ViewerId>, audience: seq<ViewerId>, i: int, p: int)
    requires NoDup(audience) && 0 <= i < |audience| && p >= 0
    requires audience[i] in pending && PendingAfter(pending, pending0, audience, i + 1, p)
    ensures audience[i] in pending0
    ensures PendingAfter(Remove(pending, audience[i]), pending0, audience, i, p)
  {
    NotBefore(audience, i);
    assert audience[..i + 1] == audience[..i] + [audience[i]];
    RemoveDropsOnly(pending, audience[i]);
  }

  /** Without a marker the waiting viewers stay as they are. */
  lemma PendingAfterKeep(pending: seq<ViewerId>, pending0: seq<ViewerId>, audience: seq<ViewerId>, i: int, p: int)
    requires 0 <= i < |audience| && p < 0
    requires PendingAfter(pending, pending0, audience, i + 1, p)
    ensures PendingAfter(pending, pending0, audience, i, p)
  {
  }

  /** Visiting a viewer that is not waiting leaves the waiting ones as they are. */
  lemma PendingAfterSkip(pending: seq<ViewerId>, pending0: seq<ViewerId>, audience: seq<ViewerId>, i: int, p: int)
    requires NoDup(audience) && 0 <= i < |audience|
    requires audience[i] !in pending && PendingAfter(pending, pending0, audience, i + 1, p)
    ensures audience[i] !in pending0
    ensures PendingAfter(pending, pending0, audience, i, p)
  {
    NotBefore(audience, i);
    assert audience[..i + 1] == audience[..i] + [audience[i]];
  }

  class ProxySession {
    /** `mjpegUrl`, the upstream camera stream. */
    const upstream: string
    /** `audienceResponses`: the viewers being streamed to, in attach order. */
    var audience: seq<ViewerId>
    /** `newAudienceResponses`: viewers not yet aligned on a boundary. */
    var pending: seq<ViewerId>
    /** `boundary`: the last boundary extracted, `None` for `null`. */
    var boundary: Option<string>
    /** `globalMjpegResponse`: the upstream response that arrived last. */
    var response: Option<RequestId>
    /** `mjpegRequest`: the upstream request viewers share, `None` for `null`. */
    var request: Option<RequestId>
    /** How many upstream requests have been issued; their ids are below it. */
    var issued: nat
    /** Requests whose response has not arrived yet, with the viewer whose
        attach issued each one (the callback's captured `res`). */
    var awaiting: map<RequestId, ViewerId>
    /** Responses that arrived, with their `data` handler's carried bytes
        (`lastByte2`, `lastByte1`). */
    var tails: map<RequestId, Option<(byte, byte)>>
    /** Responses on which `destroy()` was called. */
    var destroyed: set<RequestId>
    /** Everything written to viewers' responses, in order. */
    var out: seq<Output>
    /** Every viewer that ever attached: each request brings a new response object. */
    ghost var seen: set<ViewerId>

    /** The arrays hold no viewer twice, every pending viewer is in the
        audience, a viewer waiting for the upstream response is in neither, and
        a boundary is known exactly when a response has arrived. */
    ghost predicate Valid()
      reads this
    {
      && NoDup(audience) && NoDup(pending)
      && (forall v :: v in pending ==> v in audience)
      && (forall v :: v in audience ==> v in seen)
      && (forall id :: id in awaiting ==>
            id < issued && id !in tails && awaiting[id] in seen && awaiting[id] !in audience)
      && (forall id1, id2 :: id1 in awaiting && id2 in awaiting && awaiting[id1] == awaiting[id2] ==> id1 == id2)
      && (forall id :: id in tails ==> id < issued && response.Some?)
      && (request.Some? ==> request.value < issued)
      && (response.Some? <==> boundary.Some?)
      && (response.Some? ==> response.value in tails)
    }

    /** `new MjpegProxy(mjpegUrl)`: nobody watching, nothing requested, no
        boundary known. An empty URL throws. */
    constructor(url: string)
      requires url != ""
      ensures Valid() && upstream == url
      ensures audience == [] && pending == [] && out == []
      ensures boundary == None && response == None && request == None
      ensures issued == 0 && awaiting == map[] && tails == map[] && destroyed == {} && seen == {}
    {
      upstream := url;
      audience := [];
      pending := [];
      boundary := None;
      response := None;
      request := None;
      issued := 0;
      awaiting := map[];
      tails := map[];
      destroyed := {};
      out := [];
      seen := {};
    }

    /** `proxyRequest(req, res)` for a new viewer `v`. With no socket nothing
        happens; while an upstream request exists the viewer joins at once;
        otherwise a fresh upstream request is issued and the viewer waits for
        its response. */
    method ProxyRequest(v: ViewerId, socketOpen: bool)
      requires Valid() && v !in seen
      modifies this`audience, this`pending, this`out, this`request, this`issued, this`awaiting, this`seen
      ensures Valid() && seen == old(seen) + {v}
      ensures !socketOpen ==>
                audience == old(audience) && pending == old(pending) && out == old(out)
                && request == old(request) && issued == old(issued) && awaiting == old(awaiting)
      ensures socketOpen && old(request).Some? ==>
                audience == old(audience) + [v] && pending == old(pending) + [v]
                && out == old(out) + [Head(v, ContentTypeFor(BoundaryText(boundary)))]
                && request == old(request) && issued == old(issued) && awaiting == old(awaiting)
      ensures socketOpen && old(request).None? ==>
                request == Some(old(issued)) && issued == old(issued) + 1
                && awaiting == old(awaiting)[old(issued) := v]
                && audience == old(audience) && pending == old(pending) && out == old(out)
    {
      seen := seen + {v};
      if !socketOpen {
        return;
      }
      if request.Some? {
        NewClient(v);
      } else {
        request := Some(issued);
        awaiting := awaiting[issued := v];
        issued := issued + 1;
      }
    }

    /** `_newClient(req, res)`: announce the current boundary (`null` when none
        is known yet) and add the viewer to the audience and to the viewers
        waiting for alignment. */
    method NewClient(v: ViewerId)
      requires Valid() && v in seen && v !in audience
      requires forall id :: id in awaiting ==> awaiting[id] != v
      modifies this`audience, this`pending, this`out
      ensures Valid()
      ensures audience == old(audience) + [v] && pending == old(pending) + [v]
      ensures out == old(out) + [Head(v, ContentTypeFor(BoundaryText(boundary)))]
    {
      out := out + [Head(v, ContentTypeFor(BoundaryText(boundary)))];
      audience := audience + [v];
      pending := pending + [v];
    }

    /** The response callback of request `id` (server.js:52-100): it becomes
        the global response, its `Content-Type` sets the boundary, the viewer
        that issued it joins, and its `data` handler starts with no carried
        bytes. */
    method OnResponse(id: RequestId, contentType: string)
      requires Valid() && id in awaiting
      modifies this`audience, this`pending, this`out, this`boundary, this`response, this`awaiting, this`tails
      ensures Valid()
      ensures var v := old(awaiting)[id];
              var b := ExtractBoundary(contentType);
              && response == Some(id) && boundary == Some(b)
              && awaiting == old(awaiting) - {id} && tails == old(tails)[id := None]
              && audience == old(audience) + [v] && pending == old(pending) + [v]
              && out == old(out) + [Head(v, ContentTypeFor(b))]
    {
      var v := awaiting[id];
      awaiting := awaiting - {id};
      response := Some(id);
      boundary := Some(ExtractBoundary(contentType));
      tails := tails[id := None];
      NewClient(v);
    }

    /** The `data` handler of response `id` (server.js:61-93): repair the
        chunk, carry its last two bytes, and write to every viewer, last first.
        The marker is searched in the chunk as received; an aligned viewer
        gets the whole repaired chunk, a waiting one the repaired chunk from
        that index on and stops waiting, or nothing while no marker arrives. */
    method OnData(id: RequestId, chunk: seq<byte>)
      requires Valid() && id in tails
      modifies this`out, this`pending, this`tails
      ensures Valid()
      ensures var data := Repair(old(tails)[id], BoundaryText(boundary), chunk);
              tails == old(tails)[id := TailOf(data)]
      ensures var b := BoundaryText(boundary);
              out == old(out) + FanOut(audience, old(pending), MarkerIndex(b, chunk), Repair(old(tails)[id], b, chunk))
      ensures pending == if MarkerIndex(BoundaryText(boundary), chunk) >= 0 then [] else old(pending)
    {
      var b := BoundaryText(boundary);
      var buff := chunk;
      var data := Repair(tails[id], b, chunk);
      tails := tails[id := TailOf(data)];
      WriteToAudience(b, buff, data);
    }

    /** The loop of server.js:79-92 over the audience, last viewer first: a
        waiting viewer is written the repaired chunk `data` from the marker's
        index in the received chunk `buff` and stops waiting, or is skipped when
        `buff` holds no marker; any other viewer is written all of `data`. */
    method WriteToAudience(b: string, buff: seq<byte>, data: seq<byte>)
      requires Valid() && |buff| <= |data|
      modifies this`out, this`pending
      ensures Valid()
      ensures out == old(out) + FanOut(audience, old(pending), MarkerIndex(b, buff), data)
      ensures pending == if MarkerIndex(b, buff) >= 0 then [] else old(pending)
    {
      ghost var p := MarkerIndex(b, buff);
      ghost var pending0 := pending;
      ghost var out0 := out;
      var i := |audience|;
      while i > 0
        invariant 0 <= i <= |audience|
        invariant out == out0 + FanOut(audience[i..], pending0, p, data)
        invariant PendingAfter(pending, pending0, audience, i, p)
      {
        i := i - 1;
        var v := audience[i];
        FanOutStep(audience, i, pending0, p, data);
        if Find(pending, v) >= 0 {
          var q := MarkerIndex(b, buff);
          if q >= 0 {
            out := out + [Write(v, data[q..])];
            ServedLeavesPending(pending, pending0, audience, i, p);
            pending := Remove(pending, v);
          } else {
            PendingAfterKeep(pending, pending0, audience, i, p);
          }
        } else {
          PendingAfterSkip(pending, pending0, audience, i, p);
          out := out + [Write(v, data)];
        }
      }
      if pending != [] {
        assert pending[0] in pending;
      }
    }

    /** The `end` handler of response `id` (server.js:94-99): end every
        viewer's response, last first. Nobody leaves the audience and the
        upstream request stays set. */
    method OnEnd(id: RequestId)
      requires Valid() && id in tails
      modifies this`out
      ensures Valid()
      ensures out == old(out) + Ends(audience)
    {
      var i := |audience|;
      while i > 0
        invariant 0 <= i <= |audience|
        invariant out == old(out) + Ends(audience[i..])
      {
        i := i - 1;
        assert audience[i..][1..] == audience[i + 1..];
        out := out + [End(audience[i])];
      }
    }

    /** The `close` handler of viewer `v`'s socket (server.js:120-132): drop
        the viewer from both arrays; when nobody is left, forget the upstream
        request, so the next viewer opens a fresh one, and destroy the global
        response. The boundary and the response reference are kept. */
    method Close(v: ViewerId)
      requires Valid() && v in audience
      modifies this`audience, this`pending, this`request, this`destroyed
      ensures Valid()
      ensures audience == Remove(old(audience), v) && |audience| == |old(audience)| - 1
      ensures pending == if v in old(pending) then Remove(old(pending), v) else old(pending)
      ensures v !in audience && v !in pending
      ensures forall w :: w != v ==> (w in audience <==> w in old(audience)) && (w in pending <==> w in old(pending))
      ensures audience == [] ==>
                request == None
                && destroyed == old(destroyed) + (if response.Some? then {response.value} else {})
      ensures audience != [] ==> request == old(request) && destroyed == old(destroyed)
    {
      RemoveDropsOnly(audience, v);
      audience := Remove(audience, v);
      if Find(pending, v) >= 0 {
        RemoveDropsOnly(pending, v);
        pending := Remove(pending, v);
      }
      if |audience| == 0 {
        request := None;
        if response.Some? {
          destroyed := destroyed + {response.value};
        }
      }
    }
  }

  /** A viewer that attaches while the first upstream request is still
      waiting for its response is told `boundary=null`. */
  method EarlyViewerSeesNullBoundary() returns (s: ProxySession)
    ensures fresh(s) && s.Valid() && s.seen == {0, 1}
    ensures s.out == [Head(1, "multipart/x-mixed-replace;boundary=null")]
    ensures s.audience == [1] && s.pending == [1] && s.awaiting == map[0 := 0]
    ensures s.request == Some(0) && s.issued == 1 && s.response == None && s.destroyed == {}
  {
    s := new ProxySession("http://camera/stream");
    s.ProxyRequest(0, true);
    s.ProxyRequest(1, true);
    assert ContentTypeFor("null") == "multipart/x-mixed-replace;boundary=null";
  }

  /** Two upstream requests can be outstanding at once: the early viewer
      leaves before the first response arrives, which forgets that request
      without cancelling it, and the next viewer issues another. Each response
      that arrives registers its own `data` handler. */
  method TwoRequestsOutstanding() returns (s: ProxySession)
    ensures s.awaiting == map[0 := 0, 1 := 2] && s.request == Some(1)
    ensures s.audience == [] && s.destroyed == {}
  {
    s := EarlyViewerSeesNullBoundary();
    s.Close(1);
    assert s.request == None && s.destroyed == {};
    s.ProxyRequest(2, true);
  }
}
