/** Finding, loading and writing a remote player's save file. The save
    directory is the sequence of files the server enumerates, each a name
    and its text; the first line of a file is the token of the hardware
    address it belongs to, the rest is the player's data. */
module SaveFiles {
  import opened Wrappers
  import opened JavaText
  import opened MacToken

  /** One file of the remote-player save directory. */
  datatype SaveFile = SaveFile(name: string, content: string)

  /** The network interface found for the connection's address: the lookup
      may have failed and left it null, and a found interface may report no
      hardware address. */
  datatype Interface = Unresolved | Resolved(hardwareAddress: Option<seq<Byte>>)

  /** The address a save file holds: its first line, trimmed, read as a
      token. An empty file makes `readLine` return null and `trim` on it
      throws; a pair that does not parse throws. Neither is caught. */
  function StoredAddress(f: SaveFile): (r: Result<seq<Byte>, Exception>)
    ensures f.content == [] ==> r == Failure(NullPointer)
  {
    match ReadLine(f.content)
    case None => Failure(NullPointer)
    case Some(line) =>
      match DecodeToken(Trim(line))
      case None => Failure(NumberFormat)
      case Some(mac) => Success(mac)
  }

  /** A file whose first line is a token with blanks around it holds the
      address the token reads as; a token that does not read makes the read
      throw. */
  lemma {:induction false} StoredAddressOfPaddedLine(n: string, pre: string, t: string, post: string, rest: string)
    requires forall i :: 0 <= i < |pre| ==> pre[i] <= ' ' && pre[i] != '\n' && pre[i] != '\r'
    requires forall i :: 0 <= i < |post| ==> post[i] <= ' ' && post[i] != '\n' && post[i] != '\r'
    requires |t| > 0 && t[0] > ' ' && t[|t| - 1] > ' '
    requires forall i :: 0 <= i < |t| ==> t[i] != '\n' && t[i] != '\r'
    ensures StoredAddress(SaveFile(n, pre + t + post + "\n" + rest))
         == match DecodeToken(t) case None => Failure(NumberFormat) case Some(m) => Success(m)
  {
    var line := pre + t + post;
    forall i | 0 <= i < |line|
      ensures line[i] != '\n' && line[i] != '\r'
    {
      if i < |pre| {
        assert line[i] == pre[i];
      } else if i < |pre| + |t| {
        assert line[i] == t[i - |pre|];
      } else {
        assert line[i] == post[i - |pre| - |t|];
      }
    }
    LineBodyOfLine(line, rest);
    TrimPadded(pre, t, post);
  }

  /** What reading each file's address gives, in enumeration order. */
  function StoredAddresses(files: seq<SaveFile>): (addrs: seq<Result<seq<Byte>, Exception>>)
    ensures |addrs| == |files|
  {
    seq(|files|, j requires 0 <= j < |files| => StoredAddress(files[j]))
  }

  /** Addresses `lo` up to `hi` were all read, and none of them is `hw`. */
  predicate NoMatch(addrs: seq<Result<seq<Byte>, Exception>>, hw: Option<seq<Byte>>, lo: nat, hi: nat)
    requires lo <= hi <= |addrs|
  {
    forall j :: lo <= j < hi ==> addrs[j].Success? && Some(addrs[j].value) != hw
  }

  /** Address `i` is the first one from `lo` on that is `hw`. */
  predicate IsFirstMatch(addrs: seq<Result<seq<Byte>, Exception>>, hw: seq<Byte>, lo: nat, i: nat)
  {
    lo <= i < |addrs| && NoMatch(addrs, Some(hw), lo, i) && addrs[i] == Success(hw)
  }

  /** The scan of `getRemotePlayerFile` from file `lo` on. Each file's address
      is read before the interface is asked for its own, so a null interface
      throws at the first file; an interface without an address matches
      nothing; a file whose address cannot be read ends the scan with its
      exception. */
  function FindFrom(addrs: seq<Result<seq<Byte>, Exception>>, iface: Interface, lo: nat)
    : (r: Result<Option<nat>, Exception>)
    requires lo <= |addrs|
    ensures r.Success? && r.value.Some? ==>
      iface.Resolved? && iface.hardwareAddress.Some? && IsFirstMatch(addrs, iface.hardwareAddress.value, lo, r.value.value)
    ensures r == Success(None) <==> lo == |addrs| || (iface.Resolved? && NoMatch(addrs, iface.hardwareAddress, lo, |addrs|))
    ensures iface.Resolved? && iface.hardwareAddress.Some? ==>
      forall i: nat :: IsFirstMatch(addrs, iface.hardwareAddress.value, lo, i) ==> r == Success(Some(i))
    decreases |addrs| - lo
  {
    if lo == |addrs| then Success(None)
    else
      match addrs[lo]
      case Failure(e) => Failure(e)
      case Success(mac) =>
        match iface
        case Unresolved => Failure(NullPointer)
        case Resolved(hw) =>
          if hw == Some(mac) then Success(Some(lo)) else FindFrom(addrs, iface, lo + 1)
  }

  /** `getRemotePlayerFile`: the position of the first file, in enumeration
      order, whose stored address equals the interface's, or None. */
  function GetRemotePlayerFile(files: seq<SaveFile>, iface: Interface): (r: Result<Option<nat>, Exception>)
    ensures r.Success? && r.value.Some? ==>
      && iface.Resolved? && iface.hardwareAddress.Some?
      && IsFirstMatch(StoredAddresses(files), iface.hardwareAddress.value, 0, r.value.value)
    ensures r == Success(None) <==>
      files == [] || (iface.Resolved? && NoMatch(StoredAddresses(files), iface.hardwareAddress, 0, |files|))
    ensures iface.Resolved? && iface.hardwareAddress.Some? ==>
      forall i: nat :: IsFirstMatch(StoredAddresses(files), iface.hardwareAddress.value, 0, i) ==> r == Success(Some(i))
  {
    FindFrom(StoredAddresses(files), iface, 0)
  }

  /** `content.substring(content.indexOf("\n") + 1)`: everything after the
      first newline, or the whole text when there is none. */
  function StripTokenLine(content: string): (payload: string)
    ensures '\n' !in content ==> payload == content
    ensures '\n' in content ==> exists k :: 0 <= k < |content| && content[k] == '\n' && '\n' !in content[..k] && payload == content[k + 1..]
  {
    content[IndexOf(content, '\n') + 1..]
  }

  /** `getRemotePlayerFileData`: the stored data of this player's file, or
      the empty string when there is none. */
  function GetRemotePlayerFileData(files: seq<SaveFile>, iface: Interface): (r: Result<string, Exception>)
    ensures r.Failure? <==> GetRemotePlayerFile(files, iface).Failure?
    ensures GetRemotePlayerFile(files, iface) == Success(None) ==> r == Success([])
    ensures GetRemotePlayerFile(files, iface).Success? && GetRemotePlayerFile(files, iface).value.Some? ==>
      var i := GetRemotePlayerFile(files, iface).value.value;
      i < |files| && r == Success(StripTokenLine(files[i].content))
  {
    match GetRemotePlayerFile(files, iface)
    case Failure(e) => Failure(e)
    case Success(None) => Success([])
    case Success(Some(i)) => Success(StripTokenLine(files[i].content))
  }

  /** The name of a new save file: "RemotePlayer", then decimal digits that
      read as the number of files already there, then the save extension. */
  function NewSaveName(count: nat, ext: string): (name: string)
    ensures |name| > 12 + |ext|
    ensures name[..12] == "RemotePlayer" && name[|name| - |ext|..] == ext
    ensures AllDigits(name[12..|name| - |ext|], 10) && DigitsValue(name[12..|name| - |ext|], 10) == count
    ensures |name| > 13 + |ext| ==> name[12] != '0'
  {
    var digits := NatToString(count, 10);
    DigitsValueOfNatToString(count, 10);
    var name := "RemotePlayer" + digits + ext;
    assert name[12..|name| - |ext|] == digits;
    assert name[|name| - |ext|..] == ext;
    name
  }

  /** Different file counts give different new names. */
  lemma {:induction false} NewSaveNamesDiffer(c1: nat, c2: nat, ext: string)
    requires c1 != c2
    ensures NewSaveName(c1, ext) != NewSaveName(c2, ext)
  {
  }

  /** The text a token and a payload are saved as: the token is the first
      line and the payload follows the first newline. */
  function SaveText(token: string, payload: string): (text: string)
    ensures '\n' !in token ==> StripTokenLine(text) == payload
    ensures (forall i :: 0 <= i < |token| ==> token[i] != '\n' && token[i] != '\r') ==> ReadLine(text) == Some(token)
  {
    var text := token + "\n" + payload;
    assert '\n' !in token ==> StripTokenLine(text) == payload by {
      if '\n' !in token {
        IndexOfAfter(token, '\n', payload);
      }
    }
    assert (forall i :: 0 <= i < |token| ==> token[i] != '\n' && token[i] != '\r') ==> ReadLine(text) == Some(token) by {
      if forall i :: 0 <= i < |token| ==> token[i] != '\n' && token[i] != '\r' {
        LineBodyOfLine(token, payload);
      }
    }
    text
  }

  /** A saved text's first line is the token when the token holds no line
      terminator and no character that `trim` drops. */
  lemma {:induction false} SavedAddress(name: string, mac: seq<Byte>, payload: string)
    requires EncodeMac(mac).Some?
    ensures StoredAddress(SaveFile(name, SaveText(EncodeMac(mac).value, payload)))
         == match DecodeToken(EncodeMac(mac).value) case None => Failure(NumberFormat) case Some(m) => Success(m)
  {
  }

  /** `writeClientSave`: the file to write, or None when the interface has
      no hardware address. The name is that of the player's existing file,
      or a new one numbered by the count of files; the text is the address
      token, a newline, then the payload. The lookup's exceptions, a null
      interface and a byte the encoder cannot write all throw. */
  function WriteClientSave(files: seq<SaveFile>, iface: Interface, payload: string, ext: string)
    : (r: Result<Option<SaveFile>, Exception>)
    ensures iface.Unresolved? ==> r.Failure?
    ensures iface == Resolved(None) ==> (r == Success(None) <==> GetRemotePlayerFile(files, iface).Success?)
    ensures r.Success? && r.value.Some? ==>
      && iface.Resolved? && iface.hardwareAddress.Some?
      && EncodeMac(iface.hardwareAddress.value).Some?
      && ReadLine(r.value.value.content) == EncodeMac(iface.hardwareAddress.value)
      && StripTokenLine(r.value.value.content) == payload
    ensures r.Success? && r.value.Some? ==>
      match GetRemotePlayerFile(files, iface)
      case Success(Some(i)) => i < |files| && r.value.value.name == files[i].name
      case _ => r.value.value.name == NewSaveName(|files|, ext)
    ensures GetRemotePlayerFile(files, iface).Failure? ==> r == Failure(GetRemotePlayerFile(files, iface).error)
    ensures iface.Resolved? && iface.hardwareAddress.Some? && GetRemotePlayerFile(files, iface).Success? ==>
      var token := EncodeMac(iface.hardwareAddress.value);
      && (r.Success? <==> token.Some?)
      && (r.Success? ==> r.value.Some? && r.value.value.content == SaveText(token.value, payload))
      && (r.Failure? ==> r.error == IndexOutOfBounds)
  {
    match GetRemotePlayerFile(files, iface)
    case Failure(e) => Failure(e)
    case Success(found) =>
      var name := if found.Some? then files[found.value].name else NewSaveName(|files|, ext);
      match iface
      case Unresolved => Failure(NullPointer)
      case Resolved(None) => Success(None)
      case Resolved(Some(mac)) =>
        match EncodeMac(mac)
        case None => Failure(IndexOutOfBounds)
        case Some(token) =>
          Success(Some(SaveFile(name, SaveText(token, payload))))
  }

  /** The position of the first file called `name`, or -1. */
  function NameIndex(files: seq<SaveFile>, name: string): (k: int)
    ensures -1 <= k < |files|
    ensures k >= 0 ==> files[k].name == name && forall j :: 0 <= j < k ==> files[j].name != name
    ensures k == -1 <==> forall j :: 0 <= j < |files| ==> files[j].name != name
  {
    if files == [] then -1
    else if files[0].name == name then 0
    else
      var k := NameIndex(files[1..], name);
      if k < 0 then -1 else k + 1
  }

  /** Writing a file into the directory: an existing file of that name is
      overwritten in place, otherwise the new file comes last. */
  function Store(files: seq<SaveFile>, f: SaveFile): (r: seq<SaveFile>)
    ensures f in r
    ensures NameIndex(files, f.name) >= 0 ==> |r| == |files| && r[NameIndex(files, f.name)] == f
    ensures NameIndex(files, f.name) < 0 ==> |r| == |files| + 1 && r[|files|] == f
    ensures forall j :: 0 <= j < |files| && files[j].name != f.name ==> r[j] == files[j]
  {
    var k := NameIndex(files, f.name);
    if k < 0 then files + [f]
    else
      var r := files[k := f];
      assert r[k] == f;
      r
  }

  /** No two files share a name. */
  predicate UniqueNames(files: seq<SaveFile>)
  {
    forall i, j :: 0 <= i < j < |files| ==> files[i].name != files[j].name
  }

  lemma {:induction false} StoredAddressesAt(files: seq<SaveFile>, j: nat)
    requires j < |files|
    ensures StoredAddresses(files)[j] == StoredAddress(files[j])
  {
  }

  /** Two directories that agree on their first `i` files agree on whether
      those files hold `hw`. */
  lemma {:induction false} NoMatchOfSamePrefix(files: seq<SaveFile>, files': seq<SaveFile>, hw: Option<seq<Byte>>, i: nat)
    requires i <= |files| && i <= |files'|
    requires forall j :: 0 <= j < i ==> files'[j] == files[j]
    requires NoMatch(StoredAddresses(files), hw, 0, i)
    ensures NoMatch(StoredAddresses(files'), hw, 0, i)
  {
    forall j | 0 <= j < i
      ensures StoredAddresses(files')[j] == StoredAddresses(files)[j]
    {
      StoredAddressesAt(files, j);
      StoredAddressesAt(files', j);
    }
  }

  /** With unique names, the first file called like file `i` is file `i`. */
  lemma {:induction false} NameIndexOfUnique(files: seq<SaveFile>, i: nat)
    requires UniqueNames(files) && i < |files|
    ensures NameIndex(files, files[i].name) == i
  {
  }

  /** The file a save writes holds the address it was written for. */
  lemma {:induction false} WrittenFileHoldsAddress(files: seq<SaveFile>, mac: seq<Byte>, payload: string, ext: string)
    requires InTokenRange(mac)
    requires GetRemotePlayerFile(files, Resolved(Some(mac))).Success?
    ensures var w := WriteClientSave(files, Resolved(Some(mac)), payload, ext);
      && w.Success? && w.value.Some?
      && StoredAddress(w.value.value) == Success(mac)
      && StripTokenLine(w.value.value.content) == payload
  {
    TokenRoundTrip(mac);
    var f := WriteClientSave(files, Resolved(Some(mac)), payload, ext).value.value;
    SavedAddress(f.name, mac, payload);
  }

  /** An address with a byte of 0x80 or more, and none below 0x10, is
      saved, but the file written cannot be read back: the next lookup
      reaches it before any match and throws. */
  lemma {:induction false} HighByteSaveUnreadable(files: seq<SaveFile>, mac: seq<Byte>, payload: string, ext: string, i: nat)
    requires EncodeMac(mac).Some? && i < |mac| && mac[i] < 0
    requires UniqueNames(files)
    requires GetRemotePlayerFile(files, Resolved(Some(mac))).Success?
    ensures var w := WriteClientSave(files, Resolved(Some(mac)), payload, ext);
      && w.Success? && w.value.Some?
      && StoredAddress(w.value.value) == Failure(NumberFormat)
      && GetRemotePlayerFile(Store(files, w.value.value), Resolved(Some(mac))).Failure?
  {
    HighByteTokenUnreadable(mac, i);
    var f := WriteClientSave(files, Resolved(Some(mac)), payload, ext).value.value;
    SavedAddress(f.name, mac, payload);
    match GetRemotePlayerFile(files, Resolved(Some(mac)))
    case Success(Some(k)) =>
      NameIndexOfUnique(files, k);
      assert Store(files, f) == files[k := f];
      UnreadableAfterPrefix(files, files[k := f], mac, k);
    case Success(None) =>
      var j := NameIndex(files, f.name);
      if j < 0 {
        assert Store(files, f) == files + [f];
        UnreadableAfterPrefix(files, files + [f], mac, |files|);
      } else {
        assert Store(files, f) == files[j := f];
        UnreadableAfterPrefix(files, files[j := f], mac, j);
      }
  }

  /** A directory that agrees with `files` before position `k`, where
      `files` holds no `hw`, and has an unreadable file at `k`, makes the
      lookup of `hw` throw. */
  lemma {:induction false} UnreadableAfterPrefix(files: seq<SaveFile>, files': seq<SaveFile>, hw: seq<Byte>, k: nat)
    requires k <= |files| && k < |files'|
    requires forall j :: 0 <= j < k ==> files'[j] == files[j]
    requires NoMatch(StoredAddresses(files), Some(hw), 0, k)
    requires StoredAddress(files'[k]).Failure?
    ensures GetRemotePlayerFile(files', Resolved(Some(hw))).Failure?
  {
    NoMatchOfSamePrefix(files, files', Some(hw), k);
    StoredAddressesAt(files', k);
    UnreadableFileAbortsLookup(files', Resolved(Some(hw)), k);
  }

  /** A first match at `i` is what the scan from the start returns. */
  lemma {:induction false} FirstMatchFound(addrs: seq<Result<seq<Byte>, Exception>>, hw: seq<Byte>, i: nat)
    requires i < |addrs| && NoMatch(addrs, Some(hw), 0, i) && addrs[i] == Success(hw)
    ensures FindFrom(addrs, Resolved(Some(hw)), 0) == Success(Some(i))
  {
    assert IsFirstMatch(addrs, hw, 0, i);
  }

  /** Overwriting file `i` with a file that holds `hw` makes it the first
      match when no earlier file held `hw`. */
  lemma {:induction false} OverwrittenFileFound(files: seq<SaveFile>, hw: seq<Byte>, i: nat, f: SaveFile)
    requires i < |files| && NoMatch(StoredAddresses(files), Some(hw), 0, i)
    requires StoredAddress(f) == Success(hw)
    ensures GetRemotePlayerFile(files[i := f], Resolved(Some(hw))) == Success(Some(i))
  {
    var files' := files[i := f];
    NoMatchOfSamePrefix(files, files', Some(hw), i);
    StoredAddressesAt(files', i);
    FirstMatchFound(StoredAddresses(files'), hw, i);
  }

  /** Appending a file that holds `hw` to a directory where no file does
      makes it the match. */
  lemma {:induction false} AppendedFileFound(files: seq<SaveFile>, hw: seq<Byte>, f: SaveFile)
    requires NoMatch(StoredAddresses(files), Some(hw), 0, |files|)
    requires StoredAddress(f) == Success(hw)
    ensures GetRemotePlayerFile(files + [f], Resolved(Some(hw))) == Success(Some(|files|))
  {
    var files' := files + [f];
    NoMatchOfSamePrefix(files, files', Some(hw), |files|);
    StoredAddressesAt(files', |files|);
    FirstMatchFound(StoredAddresses(files'), hw, |files|);
  }

  /** A save for a player whose file is `i` overwrites file `i`, and the
      next lookup finds it there with the new payload. */
  lemma {:induction false} ResaveThenLoad(files: seq<SaveFile>, mac: seq<Byte>, payload: string, ext: string, i: nat)
    requires InTokenRange(mac) && UniqueNames(files)
    requires GetRemotePlayerFile(files, Resolved(Some(mac))) == Success(Some(i))
    ensures var w := WriteClientSave(files, Resolved(Some(mac)), payload, ext);
      && w.Success? && w.value.Some?
      && GetRemotePlayerFile(Store(files, w.value.value), Resolved(Some(mac))) == Success(Some(i))
      && GetRemotePlayerFileData(Store(files, w.value.value), Resolved(Some(mac))) == Success(payload)
  {
    WrittenFileHoldsAddress(files, mac, payload, ext);
    var f := WriteClientSave(files, Resolved(Some(mac)), payload, ext).value.value;
    NameIndexOfUnique(files, i);
    assert Store(files, f) == files[i := f];
    OverwrittenFileFound(files, mac, i, f);
  }

  /** A first save appends a file under a fresh name, and the next lookup
      finds it at the end with the payload. */
  lemma {:induction false} FirstSaveThenLoad(files: seq<SaveFile>, mac: seq<Byte>, payload: string, ext: string)
    requires InTokenRange(mac)
    requires GetRemotePlayerFile(files, Resolved(Some(mac))) == Success(None)
    requires NameIndex(files, NewSaveName(|files|, ext)) < 0
    ensures var w := WriteClientSave(files, Resolved(Some(mac)), payload, ext);
      && w.Success? && w.value.Some?
      && GetRemotePlayerFile(Store(files, w.value.value), Resolved(Some(mac))) == Success(Some(|files|))
      && GetRemotePlayerFileData(Store(files, w.value.value), Resolved(Some(mac))) == Success(payload)
  {
    WrittenFileHoldsAddress(files, mac, payload, ext);
    var f := WriteClientSave(files, Resolved(Some(mac)), payload, ext).value.value;
    assert Store(files, f) == files + [f];
    AppendedFileFound(files, mac, f);
  }

  /** Saving and then loading gives back the payload: whether the player's
      file already existed (it is overwritten in place) or a new one is
      created (it must not reuse an existing name), the next lookup finds the
      file just written, at the same place, and strips the token line. */
  lemma {:induction false} SaveThenLoad(files: seq<SaveFile>, mac: seq<Byte>, payload: string, ext: string)
    requires InTokenRange(mac)
    requires UniqueNames(files)
    requires GetRemotePlayerFile(files, Resolved(Some(mac))).Success?
    requires GetRemotePlayerFile(files, Resolved(Some(mac))) == Success(None) ==>
      NameIndex(files, NewSaveName(|files|, ext)) < 0
    ensures var w := WriteClientSave(files, Resolved(Some(mac)), payload, ext);
      && w.Success? && w.value.Some?
      && GetRemotePlayerFile(Store(files, w.value.value), Resolved(Some(mac)))
         == Success(Some(GetRemotePlayerFile(files, Resolved(Some(mac))).value.GetOr(|files|)))
      && GetRemotePlayerFileData(Store(files, w.value.value), Resolved(Some(mac))) == Success(payload)
  {
    match GetRemotePlayerFile(files, Resolved(Some(mac)))
    case Success(Some(i)) => ResaveThenLoad(files, mac, payload, ext, i);
    case Success(None) => FirstSaveThenLoad(files, mac, payload, ext);
  }

  /** A player never seen before, with an address the token can carry: the
      first save creates "RemotePlayer<count><ext>" at the end of the
      directory, a load returns that save's payload, and a second save
      overwrites the same file, leaving the number of files unchanged. */
  lemma {:induction false} FreshSaveThenResave(files: seq<SaveFile>, mac: seq<Byte>, first: string, second: string, ext: string)
    requires InTokenRange(mac)
    requires UniqueNames(files)
    requires NoMatch(StoredAddresses(files), Some(mac), 0, |files|)
    requires NameIndex(files, NewSaveName(|files|, ext)) < 0
    ensures var iface := Resolved(Some(mac));
      var w1 := WriteClientSave(files, iface, first, ext);
      && w1.Success? && w1.value.Some?
      && w1.value.value.name == NewSaveName(|files|, ext)
      && var files1 := Store(files, w1.value.value);
      && files1 == files + [w1.value.value]
      && GetRemotePlayerFileData(files1, iface) == Success(first)
      && var w2 := WriteClientSave(files1, iface, second, ext);
      && w2.Success? && w2.value.Some?
      && w2.value.value.name == w1.value.value.name
      && |Store(files1, w2.value.value)| == |files1|
      && GetRemotePlayerFileData(Store(files1, w2.value.value), iface) == Success(second)
  {
    var iface := Resolved(Some(mac));
    FirstSaveThenLoad(files, mac, first, ext);
    var f1 := WriteClientSave(files, iface, first, ext).value.value;
    assert Store(files, f1) == files + [f1];
    AppendKeepsUnique(files, f1);
    ResaveThenLoad(files + [f1], mac, second, ext, |files|);
  }

  /** Appending a file under a name not yet used keeps names unique. */
  lemma {:induction false} AppendKeepsUnique(files: seq<SaveFile>, f: SaveFile)
    requires UniqueNames(files) && NameIndex(files, f.name) < 0
    ensures UniqueNames(files + [f])
  {
  }

  /** The new name is the count of files, not a free name: when a file of
      another address already has it, saving a new player replaces that
      file. */
  lemma {:induction false} NameCollisionOverwrites(files: seq<SaveFile>, mac: seq<Byte>, payload: string, ext: string, j: nat)
    requires InTokenRange(mac)
    requires UniqueNames(files)
    requires NoMatch(StoredAddresses(files), Some(mac), 0, |files|)
    requires j < |files| && files[j].name == NewSaveName(|files|, ext)
    ensures var w := WriteClientSave(files, Resolved(Some(mac)), payload, ext);
      && w.Success? && w.value.Some?
      && StoredAddress(files[j]).Success? && StoredAddress(files[j]).value != mac
      && var files' := Store(files, w.value.value);
      && |files'| == |files|
      && StoredAddress(files'[j]) == Success(mac)
  {
    var iface := Resolved(Some(mac));
    TokenRoundTrip(mac);
    var f := WriteClientSave(files, iface, payload, ext).value.value;
    SavedAddress(f.name, mac, payload);
    NameIndexOfUnique(files, j);
    StoredAddressesAt(files, j);
  }

  /** A file whose first line is not a readable token ends the scan with an
      exception instead of being skipped, unless an earlier file matched. */
  lemma {:induction false} UnreadableFileAbortsLookup(files: seq<SaveFile>, iface: Interface, j: nat)
    requires iface.Resolved?
    requires j < |files| && StoredAddresses(files)[j].Failure?
    requires NoMatch(StoredAddresses(files), iface.hardwareAddress, 0, j)
    ensures GetRemotePlayerFile(files, iface).Failure?
  {
    ScanStopsAtFailure(StoredAddresses(files), iface, j);
  }

  /** The scan fails at an unreadable address that no earlier one matched. */
  lemma {:induction false} ScanStopsAtFailure(addrs: seq<Result<seq<Byte>, Exception>>, iface: Interface, j: nat)
    requires iface.Resolved?
    requires j < |addrs| && addrs[j].Failure?
    requires NoMatch(addrs, iface.hardwareAddress, 0, j)
    ensures FindFrom(addrs, iface, 0).Failure?
  {
  }
}
