/**
 `CacheManager`: decrypted payloads under their requests, the oldest one dropped first.
 */
module PayloadCache {
  import opened Options
  import opened ByteStrings

  const MAX_SIZE: nat := 1500

  datatype Entry = Entry(request: string, payload: Bytes)

  function Requests(es: seq<Entry>): (rs: seq<string>)
    ensures |rs| == |es| && forall i :: 0 <= i < |es| ==> rs[i] == es[i].request
  {
    seq(|es|, i requires 0 <= i < |es| => es[i].request)
  }

  function Payloads(es: seq<Entry>): map<string, Bytes> {
    if es == [] then map[] else Payloads(es[..|es| - 1])[es[|es| - 1].request := es[|es| - 1].payload]
  }

  predicate Distinct(es: seq<Entry>) {
    forall i, j :: 0 <= i < j < |es| ==> es[i].request != es[j].request
  }

  /** The last n entries of a history. */
  function Last(history: seq<Entry>, n: nat): seq<Entry> {
    if |history| <= n then history else history[|history| - n..]
  }

  lemma {:induction false} PayloadAt(es: seq<Entry>, i: nat)
    requires Distinct(es) && i < |es|
    ensures es[i].request in Payloads(es) && Payloads(es)[es[i].request] == es[i].payload
    decreases |es|
  {
    var k := |es| - 1;
    if i < k {
      PayloadAt(es[..k], i);
      assert es[i].request != es[k].request;
    }
  }

  lemma {:induction false} PayloadFrom(es: seq<Entry>, r: string)
    requires r in Payloads(es)
    ensures exists i :: 0 <= i < |es| && es[i].request == r
    decreases |es|
  {
    var k := |es| - 1;
    if r != es[k].request {
      PayloadFrom(es[..k], r);
      var i :| 0 <= i < k && es[..k][i].request == r;
      assert es[i].request == r;
    }
  }

  lemma {:induction false} PayloadsCount(es: seq<Entry>)
    requires Distinct(es)
    ensures |Payloads(es)| == |es|
    decreases |es|
  {
    if es != [] {
      var k := |es| - 1;
      PayloadsCount(es[..k]);
      if es[k].request in Payloads(es[..k]) {
        PayloadFrom(es[..k], es[k].request);
        assert false;
      }
    }
  }

  /** Map and entries of a sequence without repeated requests. */
  lemma PayloadsHolds(es: seq<Entry>)
    requires Distinct(es)
    ensures forall r :: r in Payloads(es) ==> exists i :: 0 <= i < |es| && es[i].request == r
    ensures forall i :: 0 <= i < |es| ==> es[i].request in Payloads(es) && Payloads(es)[es[i].request] == es[i].payload
    ensures |Payloads(es)| == |es|
  {
    hide Payloads, Distinct;
    PayloadsCount(es);
    forall r | r in Payloads(es) ensures exists i :: 0 <= i < |es| && es[i].request == r {
      PayloadFrom(es, r);
    }
    forall i | 0 <= i < |es|
      ensures es[i].request in Payloads(es) && Payloads(es)[es[i].request] == es[i].payload
    {
      PayloadAt(es, i);
    }
  }

  /** Dropping the oldest entry from the map is building the map without it. */
  lemma {:induction false} PayloadsDropFirst(es: seq<Entry>)
    requires es != [] && Distinct(es)
    ensures Payloads(es) - {es[0].request} == Payloads(es[1..])
  {
    var k := |es| - 1;
    if k == 0 {
      assert es[..0] == [] == es[1..];
    } else {
      PayloadsDropFirst(es[..k]);
      assert es[1..][..k - 1] == es[..k][1..];
      assert es[k].request != es[0].request;
    }
  }

  class CacheManager {
    var entries: map<string, Bytes>  // the TreeMap
    var stack: seq<string>           // the LinkedList, used as a queue
    ghost var history: seq<Entry>    // all additions so far

    /** The cache holds exactly the last 1500 additions, each request once. */
    ghost predicate Valid()
      reads this
    {
      var last := Last(history, MAX_SIZE);
      Distinct(last) && stack == Requests(last) && entries == Payloads(last)
    }

    constructor ()
      ensures Valid() && history == []
    {
      entries := map[];
      stack := [];
      history := [];
    }

    /** `addPayload`; a missing argument or an empty request is refused. */
    method AddPayload(request: Option<string>, payload: Option<Bytes>) returns (ok: bool)
      requires Valid()
      modifies this
      ensures ok <==> request.Some? && payload.Some? && request.value != ""
      ensures !ok ==> unchanged(this)
      ensures ok ==> history == old(history) + [Entry(request.value, payload.value)]
      ensures ok ==> (Valid() <==> request.value !in old(entries))
    {
      if request.None? || payload.None? || request.value == "" {
        return false;
      }
      ghost var e := Entry(request.value, payload.value);
      if request.value !in entries {
        FreshAddition(history, e);
      } else {
        RepeatedAddition(history, e);
      }
      hide Distinct, Requests, Payloads, Last;
      entries := entries[request.value := payload.value];
      stack := stack + [request.value];
      if |entries| > MAX_SIZE {
        var oldest := stack[0];
        stack := stack[1..];
        entries := entries - {oldest};
      }
      history := history + [e];
      return true;
    }

    /** `getPayload`. */
    method GetPayload(request: Option<string>) returns (ok: bool, payload: Option<Bytes>)
      requires Valid()
      ensures ok <==> request.Some? && request.value != ""
      ensures ok ==> payload == if request.value in entries then Some(entries[request.value]) else None
      ensures ok ==>
                (payload.Some? <==>
                 exists i :: 0 <= i < |history| && |history| - 1500 <= i && history[i].request == request.value)
      ensures ok ==>
                forall i :: 0 <= i < |history| && |history| - 1500 <= i && history[i].request == request.value ==>
                  payload == Some(history[i].payload)
    {
      if request.Some? {
        CacheHoldsLastAdditions(history, request.value);
      }
      hide Payloads, Distinct, Last;
      payload := None;
      ok := request.Some? && request.value != "";
      if ok && request.value in entries {
        payload := Some(entries[request.value]);
      }
    }
  }

  lemma LastGrows(history: seq<Entry>, e: Entry)
    ensures var last := Last(history, MAX_SIZE);
            && |last| == (if |history| < MAX_SIZE then |history| else MAX_SIZE)
            && Last(history + [e], MAX_SIZE) == if |last| < MAX_SIZE then last + [e] else (last + [e])[1..]
  {
  }

  lemma PayloadsAppend(es: seq<Entry>, e: Entry)
    ensures Payloads(es + [e]) == Payloads(es)[e.request := e.payload]
    ensures Requests(es + [e]) == Requests(es) + [e.request]
  {
    assert (es + [e])[..|es|] == es;
  }

  /** A request that is not in the cache: what both branches of `addPayload` make of map and queue. */
  lemma FreshAddition(history: seq<Entry>, e: Entry)
    requires var last := Last(history, MAX_SIZE); Distinct(last) && e.request !in Payloads(last)
    ensures var last, more := Last(history, MAX_SIZE), Last(history + [e], MAX_SIZE);
            var m, q := Payloads(last)[e.request := e.payload], Requests(last) + [e.request];
            && Distinct(more)
            && (if |m| > MAX_SIZE then more != [] && m - {q[0]} == Payloads(more) && q[1..] == Requests(more)
                else m == Payloads(more) && q == Requests(more))
  {
    hide Payloads, Last, Requests;
    var last := Last(history, MAX_SIZE);
    var all := last + [e];
    LastGrows(history, e);
    PayloadsAppend(last, e);
    DistinctAppend(last, e);
    DropDistinct(all);
  }

  lemma DistinctAppend(es: seq<Entry>, e: Entry)
    requires Distinct(es) && e.request !in Payloads(es)
    ensures Distinct(es + [e])
  {
    PayloadsHolds(es);
    hide Payloads;
  }

  /** What dropping the oldest entry does to map and queue. */
  lemma DropDistinct(es: seq<Entry>)
    requires es != [] && Distinct(es)
    ensures |Payloads(es)| == |es| && Distinct(es[1..])
    ensures Payloads(es) - {Requests(es)[0]} == Payloads(es[1..]) && Requests(es)[1..] == Requests(es[1..])
  {
    PayloadsHolds(es);
    PayloadsDropFirst(es);
    RequestsDropFirst(es);
    hide Payloads, Requests;
  }

  lemma RequestsDropFirst(es: seq<Entry>)
    requires es != []
    ensures Requests(es)[0] == es[0].request && Requests(es)[1..] == Requests(es[1..])
  {
  }

  /** One that is: the queue then holds it twice, and is no longer the queue of the last additions. */
  lemma RepeatedAddition(history: seq<Entry>, e: Entry)
    requires var last := Last(history, MAX_SIZE); Distinct(last) && e.request in Payloads(last)
    ensures var last, more := Last(history, MAX_SIZE), Last(history + [e], MAX_SIZE);
            var m, q := Payloads(last)[e.request := e.payload], Requests(last) + [e.request];
            |m| <= MAX_SIZE && (!Distinct(more) || q != Requests(more))
  {
    var last := Last(history, MAX_SIZE);
    LastGrows(history, e);
    PayloadsHolds(last);
    var i :| 0 <= i < |last| && last[i].request == e.request;
    assert Payloads(last)[e.request := e.payload].Keys == Payloads(last).Keys;
    if |last| < MAX_SIZE {
      assert (last + [e])[i].request == (last + [e])[|last|].request;
    }
  }

  /** The cache discipline of `requestDecrypt`: a payload is added only when the lookup found none. */
  method LookUpOrAdd(cache: CacheManager, request: string, compute: string -> Bytes) returns (payload: Bytes)
    requires cache.Valid() && request != ""
    modifies cache
    ensures cache.Valid()
    ensures payload == if request in old(cache.entries) then old(cache.entries[request]) else compute(request)
    ensures cache.history
         == if request in old(cache.entries) then old(cache.history)
            else old(cache.history) + [Entry(request, payload)]
  {
    var ok, found := cache.GetPayload(Some(request));
    if found.Some? {
      return found.value;
    }
    payload := compute(request);
    ok := cache.AddPayload(Some(request), Some(payload));
  }

  /** A cached request is one of the last 1500 additions, with the payload it was added with. */
  lemma CacheHoldsLastAdditions(history: seq<Entry>, r: string)
    requires Distinct(Last(history, MAX_SIZE))
    ensures var es := Payloads(Last(history, MAX_SIZE));
            && |es| == |Last(history, MAX_SIZE)| <= MAX_SIZE
            && (r in es <==> exists i :: 0 <= i < |history| && |history| - 1500 <= i && history[i].request == r)
            && (forall i :: 0 <= i < |history| && |history| - 1500 <= i && history[i].request == r ==>
                  r in es && es[r] == history[i].payload)
  {
    var last := Last(history, MAX_SIZE);
    PayloadsHolds(last);
    var es := Payloads(last);
    hide Payloads, Distinct;
    var d := |history| - |last|;
    assert last == history[d..];
    hide Last;
    forall i | d <= i < |history| && history[i].request == r
      ensures r in es && es[r] == history[i].payload
    {
      assert last[i - d] == history[i];
    }
    if r in es {
      var j :| 0 <= j < |last| && last[j].request == r;
      assert history[d + j].request == r;
    }
  }
}
