/** Message types and the `"<ordinal>:<data>"` record under which the server
    thread keeps a deferred packet in its pending list. */
module Protocol {
  import opened Wrappers
  import opened JavaText

  /** The `InputType` values this connection sends. */
  datatype MsgType = Invalid | Entity | Add | Remove | Hurt | ChestOut | Interact | Player

  /** `InputType.values`: every type, at the index of its ordinal. */
  const Values: seq<MsgType> := [Invalid, Entity, Add, Remove, Hurt, ChestOut, Interact, Player]

  /** `InputType.ordinal()`: the inverse of indexing `Values`. */
  function Ordinal(t: MsgType): (n: nat)
    ensures n < |Values| && Values[n] == t
  {
    match t
    case Invalid => 0
    case Entity => 1
    case Add => 2
    case Remove => 3
    case Hurt => 4
    case ChestOut => 5
    case Interact => 6
    case Player => 7
  }

  /** One outbound message: its type and its payload string. */
  datatype Packet = Packet(kind: MsgType, data: string)

  /** The pending-list form of a deferred packet: `ordinal + ":" + data`.
      Its first ':' ends the ordinal, so everything after it is the data. */
  function EncodeRecord(p: Packet): (r: string)
    ensures ':' in r
    ensures r[IndexOf(r, ':') + 1..] == p.data
  {
    var digits := IntToString(Ordinal(p.kind));
    IndexOfAfter(digits, ':', p.data);
    var r := digits + ":" + p.data;
    assert r[|digits| + 1..] == p.data;
    r
  }

  /** Reading a pending record back when the cache is flushed: the decimal
      ordinal before the first ':' picks the type from `Values`, the rest is
      the payload. No ':' makes `substring(0, -1)` throw, a prefix that is
      not a number makes `parseInt` throw, and an ordinal outside `Values`
      makes the array access throw. */
  function DecodeRecord(r: string): (res: Result<Packet, Exception>)
    ensures res.Success? ==> ':' in r && res.value.data == r[IndexOf(r, ':') + 1..]
    ensures ':' !in r ==> res == Failure(IndexOutOfBounds)
  {
    var k := IndexOf(r, ':');
    if k < 0 then Failure(IndexOutOfBounds)
    else
      match ParseInt(r[..k], 10)
      case None => Failure(NumberFormat)
      case Some(n) =>
        if 0 <= n < |Values| then Success(Packet(Values[n], r[k + 1..]))
        else Failure(IndexOutOfBounds)
  }

  /** Splitting a record at its first ':' gives back the type and the exact
      payload, also when the payload itself contains ':'. */
  lemma {:induction false} RecordRoundTrip(p: Packet)
    ensures DecodeRecord(EncodeRecord(p)) == Success(p)
  {
    var digits := IntToString(Ordinal(p.kind));
    IndexOfAfter(digits, ':', p.data);
    var r := EncodeRecord(p);
    assert r == digits + [':'] + p.data;
    assert r[..|digits|] == digits;
    ParseIntOfIntToString(Ordinal(p.kind));
  }
}
