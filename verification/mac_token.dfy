/** The hardware-address token written as the first line of a remote
    player's save file: each address byte as the last two characters of
    `Integer.toHexString((int) b)`, and the reverse reading with
    `Byte.parseByte(pair, 16)` over `len / 2` pairs. */
module MacToken {
  import opened Wrappers
  import opened JavaText

  /** The byte's value as an unsigned number, 0..255. */
  function Unsigned(b: Byte): (u: nat)
    ensures u < 256 && u % 256 == b % 256
  {
    if b < 0 then b + 256 else b
  }

  /** One byte of the token. `toHexString` of the sign-extended byte has a
      single digit for 0x00..0x0F, so taking its last two characters throws;
      negative bytes give eight digits whose last two are the byte's. */
  function EncodeByte(b: Byte): (r: Option<string>)
    ensures r.None? <==> 0 <= b < 16
    ensures r.Some? ==> r.value == [ForDigit(Unsigned(b) / 16, 16), ForDigit(Unsigned(b) % 16, 16)]
  {
    HexOfByte(b);
    var h := ToHexString(b);
    if |h| < 2 then None else Some(h[|h| - 2..])
  }

  /** What `toHexString` gives for a sign-extended byte: one digit below
      0x10, otherwise at least two whose last two are the byte's. */
  lemma {:induction false} HexOfByte(b: Byte)
    ensures var h := ToHexString(b);
      && (|h| < 2 <==> 0 <= b < 16)
      && (|h| >= 2 ==> h[|h| - 2..] == [ForDigit(Unsigned(b) / 16, 16), ForDigit(Unsigned(b) % 16, 16)])
  {
    var n: nat := if b < 0 then b + 0x1_0000_0000 else b;
    assert ToHexString(b) == NatToString(n, 16);
    if n >= 16 {
      LastTwoDigits(n, 16);
      if b < 0 {
        SignExtendedDigits(b);
      }
    }
  }

  /** The two low hex digits of a sign-extended negative byte are those of
      its unsigned value. */
  lemma {:induction false} SignExtendedDigits(b: Byte)
    requires b < 0
    ensures var n := b + 0x1_0000_0000;
      (n / 16) % 16 == Unsigned(b) / 16 && n % 16 == Unsigned(b) % 16
  {
    var n := b + 0x1_0000_0000;
    var u := Unsigned(b);
    assert n == 16 * (0x0FFF_FFF0 + u / 16) + u % 16;
    assert n / 16 == 0x0FFF_FFF0 + u / 16;
  }

  /** The token for a whole address; the first byte that cannot be encoded
      throws. */
  function EncodeMac(mac: seq<Byte>): (r: Option<string>)
    ensures r.Some? <==> forall i :: 0 <= i < |mac| ==> !(0 <= mac[i] < 16)
    ensures r.Some? ==> |r.value| == 2 * |mac|
    ensures r.Some? ==> forall i :: 0 <= i < |r.value| ==> r.value[i] != '\n' && r.value[i] != '\r' && r.value[i] > ' '
  {
    if mac == [] then Some([])
    else
      match EncodeByte(mac[0])
      case None => None
      case Some(h) =>
        match EncodeMac(mac[1..])
        case None => None
        case Some(t) => Some(h + t)
  }

  /** The `i`-th two-character pair of a token. */
  function Pair(t: string, i: nat): string
    requires 2 * i + 2 <= |t|
  {
    t[2 * i..2 * i + 2]
  }

  /** Reading a token back: `len / 2` pairs, each through
      `Byte.parseByte(pair, 16)`; a trailing odd character is never read, and
      the first pair that does not parse throws. */
  function DecodeToken(t: string): (r: Option<seq<Byte>>)
    ensures r.Some? ==> |r.value| == |t| / 2
    decreases |t|
  {
    if |t| < 2 then Some([])
    else
      match ParseByte(t[..2], 16)
      case None => None
      case Some(b) =>
        match DecodeToken(t[2..])
        case None => None
        case Some(bs) => Some([b] + bs)
  }

  /** `DecodeToken` is the loop of `getRemotePlayerFile`: it succeeds exactly
      when every pair `i < len / 2` parses, and byte `i` is pair `i`. */
  lemma {:induction false} DecodeTokenIsPairwise(t: string)
    ensures DecodeToken(t).Some? <==> forall i :: 0 <= i < |t| / 2 ==> ParseByte(Pair(t, i), 16).Some?
    ensures DecodeToken(t).Some? ==>
      forall i :: 0 <= i < |t| / 2 ==> ParseByte(Pair(t, i), 16) == Some(DecodeToken(t).value[i])
    decreases |t|
  {
    if |t| >= 2 {
      DecodeTokenIsPairwise(t[2..]);
      assert forall i :: 0 <= i < |t[2..]| / 2 ==> Pair(t[2..], i) == Pair(t, i + 1);
      assert forall i :: 1 <= i < |t| / 2 ==> Pair(t, i) == Pair(t[2..], i - 1);
      assert Pair(t, 0) == t[..2];
    }
  }

  /** Every byte of the address lies in 0x10..0x7F. */
  predicate InTokenRange(mac: seq<Byte>)
  {
    forall i :: 0 <= i < |mac| ==> 16 <= mac[i] < 128
  }

  /** A byte's two characters parse back to it when it is non-negative; a
      negative byte's pair is "80".."ff", above what `parseByte` accepts. */
  lemma {:induction false} ParseEncodedByte(b: Byte)
    requires EncodeByte(b).Some?
    ensures ParseByte(EncodeByte(b).value, 16) == if b >= 0 then Some(b) else None
  {
    var u := Unsigned(b);
    assert 16 <= u;
    var h := NatToString(u, 16);
    assert u / 16 < 16;
    assert h == NatToString(u / 16, 16) + [ForDigit(u % 16, 16)];
    assert h == EncodeByte(b).value;
    ParseIntOfNatToString(u, 16);
  }

  /** A token that starts with a full pair reads that pair, then the rest. */
  lemma {:induction false} DecodeAfterPair(h: string, t: string)
    requires |h| == 2
    ensures DecodeToken(h + t)
         == match ParseByte(h, 16)
            case None => None
            case Some(b) => (match DecodeToken(t) case None => None case Some(bs) => Some([b] + bs))
  {
    assert (h + t)[..2] == h;
    assert (h + t)[2..] == t;
  }

  /** No byte of the address is negative. */
  predicate NonNegative(mac: seq<Byte>)
  {
    forall i :: 0 <= i < |mac| ==> mac[i] >= 0
  }

  /** An address is non-negative when its head and its tail are. */
  lemma {:induction false} NonNegativeCons(mac: seq<Byte>)
    requires mac != []
    ensures NonNegative(mac) <==> mac[0] >= 0 && NonNegative(mac[1..])
  {
    assert forall i :: 1 <= i < |mac| ==> mac[i] == mac[1..][i - 1];
  }

  /** The token of a non-empty address is its head's pair, then its tail's. */
  lemma {:induction false} EncodeMacCons(mac: seq<Byte>)
    requires mac != [] && EncodeMac(mac).Some?
    ensures EncodeByte(mac[0]).Some? && EncodeMac(mac[1..]).Some?
    ensures EncodeMac(mac).value == EncodeByte(mac[0]).value + EncodeMac(mac[1..]).value
  {
  }

  /** Reading back a token the encoder wrote gives the address exactly when
      no byte is negative, and fails otherwise. */
  lemma {:induction false} TokenDecodes(mac: seq<Byte>)
    requires EncodeMac(mac).Some?
    ensures DecodeToken(EncodeMac(mac).value) == if NonNegative(mac) then Some(mac) else None
    decreases mac
  {
    if mac != [] {
      EncodeMacCons(mac);
      DecodeAfterPair(EncodeByte(mac[0]).value, EncodeMac(mac[1..]).value);
      ParseEncodedByte(mac[0]);
      TokenDecodes(mac[1..]);
      NonNegativeCons(mac);
      assert [mac[0]] + mac[1..] == mac;
    }
  }

  /** For an address whose bytes all lie in 0x10..0x7F the token has two
      characters per byte and reads back as the same address. */
  lemma {:induction false} TokenRoundTrip(mac: seq<Byte>)
    requires InTokenRange(mac)
    ensures EncodeMac(mac).Some?
    ensures |EncodeMac(mac).value| == 2 * |mac|
    ensures DecodeToken(EncodeMac(mac).value) == Some(mac)
  {
    TokenDecodes(mac);
  }

  /** An address with a byte of 0x80 or above is written out, but its token
      cannot be read back. */
  lemma {:induction false} HighByteTokenUnreadable(mac: seq<Byte>, i: nat)
    requires EncodeMac(mac).Some?
    requires i < |mac| && mac[i] < 0
    ensures DecodeToken(EncodeMac(mac).value) == None
  {
    TokenDecodes(mac);
  }

  /** A token with a pair of hex digits worth 0x80 or more cannot be read:
      `parseByte` rejects the pair and the whole lookup throws. */
  lemma {:induction false} HighPairUnreadable(t: string, i: nat)
    requires 2 * i + 2 <= |t|
    requires AllDigits(Pair(t, i), 16) && DigitsValue(Pair(t, i), 16) >= 0x80
    ensures DecodeToken(t) == None
  {
    DecodeTokenIsPairwise(t);
    var h := Pair(t, i);
    assert CharDigit(h[0], 16) >= 0;
    assert ParseInt(h, 16) == ParseMagnitude(false, h, 16);
  }

  /** A trailing odd character is never read. A Java `char` is one UTF-16
      code unit, so the character is one from the Basic Multilingual Plane. */
  lemma {:induction false} OddCharIgnored(t: string, c: char)
    requires |t| % 2 == 0 && c as int < 0x1_0000
    ensures DecodeToken(t + [c]) == DecodeToken(t)
    decreases |t|
  {
    if |t| >= 2 {
      assert (t + [c])[..2] == t[..2];
      assert (t + [c])[2..] == t[2..] + [c];
      OddCharIgnored(t[2..], c);
    }
  }
}
