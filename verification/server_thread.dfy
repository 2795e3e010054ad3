/** The send operations of one server-side connection and the tracking of
    the item the remote player holds. Every send goes through `sendData`, so
    every one of them is subject to the packet cache. */
module ServerThread {
  import opened Wrappers
  import opened JavaText
  import opened Protocol
  import opened PacketCache

  /** The part of a connection the send operations touch: its outbox and
      the item its remote player is tracked as holding. */
  datatype Session<Item> = Session(outbox: Outbox, activeItem: Option<Item>)

  /** `sendError`: the message goes out as one INVALID packet, or waits as
      its record while INVALID is being cached. */
  function SendError(o: Outbox, message: string): (r: Outbox)
    ensures r.cached == o.cached
    ensures Invalid !in o.cached ==> r.sent == o.sent + [Packet(Invalid, message)] && r.pending == o.pending
    ensures Invalid in o.cached ==>
      r.sent == o.sent && r.pending == o.pending + [EncodeRecord(Packet(Invalid, message))]
  {
    SendData(o, Packet(Invalid, message))
  }

  /** A cached error is not lost: the next flush delivers it as an INVALID
      packet carrying the message, after the packets that were pending
      before it. */
  lemma {:induction false} CachedErrorDelivered(o: Outbox, ps: seq<Packet>, message: string)
    requires Invalid in o.cached && o.pending == Records(ps)
    ensures SendCachedPackets(SendError(o, message))
         == Success(Outbox({}, [], o.sent + ps + [Packet(Invalid, message)]))
  {
    var p := Packet(Invalid, message);
    var o1 := SendError(o, message);
    RecordsSnoc(ps, p);
    assert o1.pending == Records(ps + [p]);
    FlushDelivers(o1, ps + [p]);
    DeliveredThenOne(o.sent, ps, p);
  }

  /** Sending `x` and then `y` appends `[x, y]`. */
  lemma {:induction false} SentThenTwo(sent: seq<Packet>, x: Packet, y: Packet)
    ensures sent + [x] + [y] == sent + [x, y]
  {
  }

  /** Delivering a batch that ends in `p` is delivering the batch, then `p`. */
  lemma {:induction false} DeliveredThenOne(sent: seq<Packet>, ps: seq<Packet>, p: Packet)
    ensures sent + (ps + [p]) == sent + ps + [p]
  {
  }

  /** An entity id (or any `int`) and a string joined by ';'. */
  function JoinWithId(id: Int32, rest: string): (p: string)
    ensures var k := |IntToString(id)|;
      && k < |p| && p[k] == ';' && ';' !in p[..k]
      && p[..k] == IntToString(id) && p[k + 1..] == rest
  {
    var digits := IntToString(id);
    NoSemicolonInInt(id);
    SplitAround(digits, ';', rest);
    digits + [';'] + rest
  }

  /** The text of an `int` holds no ';'. */
  lemma {:induction false} NoSemicolonInInt(n: Int32)
    ensures ';' !in IntToString(n)
  {
    IntToStringDigits(n);
  }

  /** The pieces of `a + [c] + b` around position `|a|`. */
  lemma {:induction false} SplitAround(a: string, c: char, b: string)
    ensures var p := a + [c] + b;
      |a| < |p| && p[|a|] == c && p[..|a|] == a && p[|a| + 1..] == b
  {
    var p := a + [c] + b;
    assert p[..|a|] == a;
    assert p[|a| + 1..] == b;
  }

  /** The reading side of `JoinWithId`: the `int` before the first ';' and
      everything after it. */
  function SplitId(payload: string): Option<(Int32, string)>
  {
    var k := IndexOf(payload, ';');
    if k < 0 then None
    else
      match ParseInt(payload[..k], 10)
      case None => None
      case Some(n) => Some((n, payload[k + 1..]))
  }

  /** `SplitId` recovers the id and the exact rest, ';' in the rest
      included. */
  lemma {:induction false} SplitIdJoin(id: Int32, rest: string)
    ensures SplitId(JoinWithId(id, rest)) == Some((id, rest))
  {
    var digits := IntToString(id);
    var p := JoinWithId(id, rest);
    IndexOfAfter(digits, ';', rest);
    assert p == digits + [';'] + rest;
    assert p[..|digits|] == digits;
    assert p[|digits| + 1..] == rest;
    ParseIntOfIntToString(id);
  }

  /** `sendEntityUpdate`: an empty update string sends nothing; any other
      sends one ENTITY packet `eid;update`. */
  function SendEntityUpdate(o: Outbox, eid: Int32, update: string): (r: Outbox)
    ensures update == [] ==> r == o
    ensures update != [] ==> r == SendData(o, Packet(Entity, JoinWithId(eid, update)))
    ensures update != [] ==> SplitId(JoinWithId(eid, update)) == Some((eid, update))
  {
    SplitIdJoin(eid, update);
    if |update| > 0 then SendData(o, Packet(Entity, JoinWithId(eid, update))) else o
  }

  /** `sendEntityAddition`, given what `Save.writeEntity` produced for the
      entity (None for null): null or empty output sends nothing, anything
      else goes out as one ADD packet. */
  function SendEntityAddition(o: Outbox, serialized: Option<string>): (r: Outbox)
    ensures serialized == None || serialized == Some([]) ==> r == o
    ensures serialized.Some? && serialized.value != [] ==> r == SendData(o, Packet(Add, serialized.value))
  {
    if serialized.None? || |serialized.value| == 0 then o
    else SendData(o, Packet(Add, serialized.value))
  }

  /** `sendEntityRemoval`: one REMOVE packet holding the id in decimal. */
  function SendEntityRemoval(o: Outbox, eid: Int32): (r: Outbox)
    ensures exists p :: r == SendData(o, p) && p.kind == Remove && ParseInt(p.data, 10) == Some(eid)
  {
    ParseIntOfIntToString(eid);
    SendData(o, Packet(Remove, IntToString(eid)))
  }

  /** `sendPlayerHurt`: one HURT packet `damage;attackDir`, from which the
      receiver reads back both numbers. */
  function SendPlayerHurt(o: Outbox, damage: Int32, attackDir: Int32): (r: Outbox)
    ensures exists p ::
              && r == SendData(o, p) && p.kind == Hurt
              && SplitId(p.data) == Some((damage, IntToString(attackDir)))
              && ParseInt(SplitId(p.data).value.1, 10) == Some(attackDir)
  {
    var data := JoinWithId(damage, IntToString(attackDir));
    HurtPayload(damage, attackDir, data);
    SendData(o, Packet(Hurt, data))
  }

  /** The HURT payload splits into the damage and the direction's text, and
      that text parses back to the direction. */
  lemma {:induction false} HurtPayload(damage: Int32, attackDir: Int32, data: string)
    requires data == JoinWithId(damage, IntToString(attackDir))
    ensures SplitId(data) == Some((damage, IntToString(attackDir)))
    ensures ParseInt(SplitId(data).value.1, 10) == Some(attackDir)
  {
    SplitIdJoin(damage, IntToString(attackDir));
    ParseIntOfIntToString(attackDir);
  }

  /** What an INTERACT packet carries for the held item: its data, or the
      literal "null" for an empty hand. */
  function HeldData<Item>(held: Option<Item>, getData: Item -> string): (d: string)
    ensures held.None? ==> d == "null"
    ensures held.Some? ==> d == getData(held.value)
  {
    if held.None? then "null" else getData(held.value)
  }

  /** `updatePlayerActiveItem`, with `Item.matches` and `Item.getData` as
      parameters. Both null, or an old item that matches the new one: nothing
      happens. An old null item with a new non-null one dereferences null.
      Otherwise CHESTOUT(old) is sent, the tracked item becomes the new one,
      and INTERACT(new data or "null") is sent. */
  function UpdatePlayerActiveItem<Item(==)>(s: Session<Item>, held: Option<Item>,
                                            matches: (Item, Option<Item>) -> bool,
                                            getData: Item -> string): (r: Result<Session<Item>, Exception>)
    ensures r.Failure? <==> s.activeItem.None? && held.Some?
    ensures r.Failure? ==> r.error == NullPointer
    ensures s.activeItem.None? && held.None? ==> r == Success(s)
    ensures s.activeItem.Some? && matches(s.activeItem.value, held) ==> r == Success(s)
    ensures s.activeItem.Some? && !matches(s.activeItem.value, held) ==>
      r == Success(Session(SendData(SendData(s.outbox, Packet(ChestOut, getData(s.activeItem.value))),
                                    Packet(Interact, HeldData(held, getData))), held))
  {
    if s.activeItem.None? && held.None? then Success(s)
    else if s.activeItem.None? then Failure(NullPointer)
    else if matches(s.activeItem.value, held) then Success(s)
    else
      // the old item is non-null here, so the guard before CHESTOUT holds
      var o1 := SendData(s.outbox, Packet(ChestOut, getData(s.activeItem.value)));
      var o2 := SendData(o1, Packet(Interact, HeldData(held, getData)));
      Success(Session(o2, held))
  }

  /** When neither type is being cached, a real item change puts exactly
      CHESTOUT(old) and then INTERACT(new) on the transport. */
  lemma {:induction false} ChestOutBeforeInteract<Item>(s: Session<Item>, held: Option<Item>,
                                         matches: (Item, Option<Item>) -> bool, getData: Item -> string)
    requires s.activeItem.Some? && !matches(s.activeItem.value, held)
    requires ChestOut !in s.outbox.cached && Interact !in s.outbox.cached
    ensures var r := UpdatePlayerActiveItem(s, held, matches, getData);
      && r.Success?
      && r.value.activeItem == held
      && r.value.outbox.pending == s.outbox.pending
      && r.value.outbox.sent == s.outbox.sent + [Packet(ChestOut, getData(s.activeItem.value)),
                                                 Packet(Interact, HeldData(held, getData))]
  {
  }

  /** When only CHESTOUT is being cached, INTERACT overtakes it: the update
      sends INTERACT at once and leaves CHESTOUT pending, so after the flush
      the transport holds INTERACT before CHESTOUT. */
  lemma {:induction false} InteractOvertakesCachedChestOut<Item>(s: Session<Item>, held: Option<Item>,
                                         matches: (Item, Option<Item>) -> bool, getData: Item -> string)
    requires s.activeItem.Some? && !matches(s.activeItem.value, held)
    requires ChestOut in s.outbox.cached && Interact !in s.outbox.cached
    requires s.outbox.pending == []
    ensures var r := UpdatePlayerActiveItem(s, held, matches, getData);
      && r.Success?
      && SendCachedPackets(r.value.outbox)
         == Success(Outbox({}, [], s.outbox.sent + [Packet(Interact, HeldData(held, getData)),
                                                    Packet(ChestOut, getData(s.activeItem.value))]))
  {
    var chest := Packet(ChestOut, getData(s.activeItem.value));
    var interact := Packet(Interact, HeldData(held, getData));
    var o := UpdatePlayerActiveItem(s, held, matches, getData).value.outbox;
    assert o.sent == s.outbox.sent + [interact];
    assert o.pending == Records([chest]);
    FlushDelivers(o, [chest]);
    SentThenTwo(s.outbox.sent, interact, chest);
  }

  /** With an item-equivalence that is reflexive on the new item, repeating
      a successful update changes nothing and sends nothing. */
  lemma {:induction false} RepeatedUpdateIsNoOp<Item>(s: Session<Item>, held: Option<Item>,
                                       matches: (Item, Option<Item>) -> bool, getData: Item -> string)
    requires UpdatePlayerActiveItem(s, held, matches, getData).Success?
    requires held.Some? ==> matches(held.value, held)
    ensures var s1 := UpdatePlayerActiveItem(s, held, matches, getData).value;
      UpdatePlayerActiveItem(s1, held, matches, getData) == Success(s1)
  {
  }
}
