/** The per-connection packet cache: while a message type is being cached,
    packets of that type are parked as `"<ordinal>:<data>"` records instead of
    going to the transport, until the cache is flushed. The transport is an
    append-only trace of the packets handed to it. */
module PacketCache {
  import opened Wrappers
  import opened JavaText
  import opened Protocol

  /** The outbound side of one connection: the types being cached, the
      pending records in arrival order, and every packet handed to the
      transport so far. */
  datatype Outbox = Outbox(cached: set<MsgType>, pending: seq<string>, sent: seq<Packet>)

  /** `cachePacketTypes`: start caching the given types, on top of those
      already cached. */
  function CachePacketTypes(o: Outbox, types: seq<MsgType>): (r: Outbox)
    ensures o.cached <= r.cached
    ensures forall t :: t in r.cached <==> t in o.cached || t in types
    ensures r.pending == o.pending && r.sent == o.sent
  {
    o.(cached := o.cached + set t | t in types)
  }

  /** `sendData`: a packet of a cached type is appended to the pending list
      and nothing is transmitted; any other packet is transmitted at once and
      the pending list is left alone. */
  function SendData(o: Outbox, p: Packet): (r: Outbox)
    ensures r.cached == o.cached
    ensures p.kind in o.cached ==> r.sent == o.sent && r.pending == o.pending + [EncodeRecord(p)]
    ensures p.kind !in o.cached ==> r.sent == o.sent + [p] && r.pending == o.pending
  {
    if p.kind in o.cached then o.(pending := o.pending + [EncodeRecord(p)])
    else o.(sent := o.sent + [p])
  }

  /** Reading back the pending records in order, as the loop of
      `sendCachedPackets` does; the first record that does not decode
      throws. */
  function DecodeAll(records: seq<string>): (r: Result<seq<Packet>, Exception>)
    ensures r.Success? ==> |r.value| == |records|
    decreases records
  {
    if records == [] then Success([])
    else
      match DecodeRecord(records[0])
      case Failure(e) => Failure(e)
      case Success(p) =>
        match DecodeAll(records[1..])
        case Failure(e) => Failure(e)
        case Success(ps) => Success([p] + ps)
  }

  /** `sendCachedPackets`: empty the cached-type set first, send every
      pending packet through `sendData` in order, then empty the pending
      list. The loop decodes and sends one record at a time; as a throw
      leaves no result here, decoding all records before the first send
      gives the same outcomes. */
  function SendCachedPackets(o: Outbox): (r: Result<Outbox, Exception>)
    ensures r.Success? ==> r.value.cached == {} && r.value.pending == []
    ensures r.Success? ==> o.sent <= r.value.sent
  {
    match DecodeAll(o.pending)
    case Failure(e) => Failure(e)
    case Success(ps) => Success(SendAll(o.(cached := {}), ps).(pending := []))
  }

  /** The records `sendData` leaves for the packets `ps`, in order. */
  function Records(ps: seq<Packet>): (rs: seq<string>)
    ensures |rs| == |ps|
  {
    if ps == [] then [] else [EncodeRecord(ps[0])] + Records(ps[1..])
  }

  /** The packets of `ps` whose type is in `c`, in order. */
  function Deferred(ps: seq<Packet>, c: set<MsgType>): seq<Packet>
  {
    if ps == [] then []
    else (if ps[0].kind in c then [ps[0]] else []) + Deferred(ps[1..], c)
  }

  /** The packets of `ps` whose type is not in `c`, in order. */
  function Immediate(ps: seq<Packet>, c: set<MsgType>): seq<Packet>
  {
    if ps == [] then []
    else (if ps[0].kind in c then [] else [ps[0]]) + Immediate(ps[1..], c)
  }

  /** `sendData` called on each of `ps` in turn. */
  function SendAll(o: Outbox, ps: seq<Packet>): (r: Outbox)
    ensures r.cached == o.cached && o.sent <= r.sent
    decreases ps
  {
    if ps == [] then o else SendAll(SendData(o, ps[0]), ps[1..])
  }

  /** Every pending record can be read back by the flush. */
  predicate Decodable(o: Outbox)
  {
    forall i :: 0 <= i < |o.pending| ==> DecodeRecord(o.pending[i]).Success?
  }

  /** A run of sends splits the packets by type: those of a cached type go,
      in order, to the pending list and never reach the transport; the
      others reach the transport, in order; the cached set is untouched. */
  lemma {:induction false} SendAllSplits(o: Outbox, ps: seq<Packet>)
    ensures SendAll(o, ps)
         == Outbox(o.cached, o.pending + Records(Deferred(ps, o.cached)), o.sent + Immediate(ps, o.cached))
  {
    SendAllPending(o, ps);
    SendAllSent(o, ps);
  }

  /** The pending list after a run gains the records of its cached-type
      packets, in order. */
  lemma {:induction false} SendAllPending(o: Outbox, ps: seq<Packet>)
    ensures SendAll(o, ps).pending == o.pending + Records(Deferred(ps, o.cached))
    decreases ps
  {
    if ps != [] {
      var c, p, rest := o.cached, ps[0], ps[1..];
      var o1 := SendData(o, p);
      SendAllPending(o1, rest);
      var d := Deferred(rest, c);
      if p.kind in c {
        assert Deferred(ps, c) == [p] + d;
        PendingAfterCachedSend(o.pending, p, d);
      } else {
        assert Deferred(ps, c) == d;
      }
    }
  }

  /** A cached send's record followed by the rest of a run's records is
      the records of the whole run. */
  lemma {:induction false} PendingAfterCachedSend(pending: seq<string>, p: Packet, d: seq<Packet>)
    ensures pending + [EncodeRecord(p)] + Records(d) == pending + Records([p] + d)
  {
    RecordsCons(p, d);
    AppendOneThenMore(pending, EncodeRecord(p), Records(d));
  }

  /** Appending one record and then more is appending them together. */
  lemma {:induction false} AppendOneThenMore(pending: seq<string>, e: string, rs: seq<string>)
    ensures pending + [e] + rs == pending + ([e] + rs)
  {
  }

  /** The transport after a run gains its other packets, in order. */
  lemma {:induction false} SendAllSent(o: Outbox, ps: seq<Packet>)
    ensures SendAll(o, ps).sent == o.sent + Immediate(ps, o.cached)
    decreases ps
  {
    if ps != [] {
      var c, p, rest := o.cached, ps[0], ps[1..];
      var o1 := SendData(o, p);
      SendAllSent(o1, rest);
      var m := Immediate(rest, c);
      if p.kind in c {
        assert Immediate(ps, c) == m;
      } else {
        assert Immediate(ps, c) == [p] + m;
        assert o1.sent + m == o.sent + ([p] + m);
      }
    }
  }

  /** The records of a run that starts with `p` start with `p`'s record. */
  lemma {:induction false} RecordsCons(p: Packet, ps: seq<Packet>)
    ensures Records([p] + ps) == [EncodeRecord(p)] + Records(ps)
  {
    assert ([p] + ps)[1..] == ps;
  }

  /** The records of a run that ends with `p` end with `p`'s record. */
  lemma {:induction false} RecordsSnoc(ps: seq<Packet>, p: Packet)
    ensures Records(ps + [p]) == Records(ps) + [EncodeRecord(p)]
    decreases ps
  {
    if ps != [] {
      var q, rest := ps[0], ps[1..];
      assert ps == [q] + rest;
      assert ps + [p] == [q] + (rest + [p]);
      RecordsCons(q, rest + [p]);
      RecordsSnoc(rest, p);
      RecordsCons(q, rest);
      AppendAroundRecords(EncodeRecord(q), Records(rest), EncodeRecord(p));
    }
  }

  /** A record put in front and one put behind can be added in either order. */
  lemma {:induction false} AppendAroundRecords(x: string, rs: seq<string>, y: string)
    ensures [x] + (rs + [y]) == ([x] + rs) + [y]
  {
  }

  /** Every packet's record decodes back to it, so the records of a run
      decode to the run. */
  lemma {:induction false} DecodeAllRecords(ps: seq<Packet>)
    ensures DecodeAll(Records(ps)) == Success(ps)
    decreases ps
  {
    if ps != [] {
      var rs := Records(ps);
      assert rs[0] == EncodeRecord(ps[0]) && rs[1..] == Records(ps[1..]);
      RecordRoundTrip(ps[0]);
      DecodeAllRecords(ps[1..]);
      assert [ps[0]] + ps[1..] == ps;
    }
  }

  /** Reading back fails exactly when some record cannot be read. */
  lemma {:induction false} DecodeAllSucceedsIff(records: seq<string>)
    ensures DecodeAll(records).Success?
        <==> forall i :: 0 <= i < |records| ==> DecodeRecord(records[i]).Success?
    decreases records
  {
    if records != [] {
      DecodeAllSucceedsIff(records[1..]);
      assert forall i :: 1 <= i < |records| ==> records[i] == records[1..][i - 1];
    }
  }

  /** `sendCachedPackets` succeeds exactly on outboxes whose records all
      decode. */
  lemma {:induction false} FlushSucceedsIff(o: Outbox)
    ensures SendCachedPackets(o).Success? <==> Decodable(o)
  {
    DecodeAllSucceedsIff(o.pending);
  }

  /** Sending keeps every pending record readable. */
  lemma {:induction false} SendDataKeepsDecodable(o: Outbox, p: Packet)
    requires Decodable(o)
    ensures Decodable(SendData(o, p))
  {
    RecordRoundTrip(p);
  }

  /** Flushing transmits each pending packet exactly once, in its original
      order, re-caches none of them, and leaves both the cached set and the
      pending list empty. */
  lemma {:induction false} FlushDelivers(o: Outbox, ps: seq<Packet>)
    requires o.pending == Records(ps)
    ensures SendCachedPackets(o) == Success(Outbox({}, [], o.sent + ps))
  {
    DecodeAllRecords(ps);
    SendAllSplits(o.(cached := {}), ps);
    NothingDeferredWhenUncached(ps);
  }

  /** With no type cached, every packet goes straight through. */
  lemma {:induction false} NothingDeferredWhenUncached(ps: seq<Packet>)
    ensures Deferred(ps, {}) == [] && Immediate(ps, {}) == ps
    decreases ps
  {
    if ps != [] {
      NothingDeferredWhenUncached(ps[1..]);
      assert [ps[0]] + ps[1..] == ps;
    }
  }

  /** Cache some types, send a run of packets, flush: the transport sees the
      uncached packets as they were sent, then the cached ones in their
      original order, each exactly once. */
  lemma {:induction false} CacheSendFlush(o: Outbox, types: seq<MsgType>, ps: seq<Packet>)
    requires o.pending == []
    ensures var c := o.cached + set t | t in types;
      SendCachedPackets(SendAll(CachePacketTypes(o, types), ps))
        == Success(Outbox({}, [], o.sent + Immediate(ps, c) + Deferred(ps, c)))
  {
    var o1 := CachePacketTypes(o, types);
    SendAllSplits(o1, ps);
    var o2 := SendAll(o1, ps);
    assert o2.pending == Records(Deferred(ps, o1.cached));
    FlushDelivers(o2, Deferred(ps, o1.cached));
  }
}
