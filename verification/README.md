# MinicraftServerThread: outbound packets and remote-player saves

A Dafny model of the pure core of the server-side connection handler in
`src/minicraft/network/MinicraftServerThread.java`. The model covers three
parts of it:

- **The per-connection packet cache.** A set of message types being cached,
  the pending list of `"<ordinal>:<data>"` records, and the trace of packets
  handed to the transport. This is `cachePacketTypes`, `sendData` and
  `sendCachedPackets`.
- **The send operations built on `sendData`.** `sendError`,
  `sendEntityUpdate`, `sendEntityAddition`, `sendEntityRemoval`,
  `sendPlayerHurt`, and the active-item tracking of `updatePlayerActiveItem`.
- **Remote-player identity and saves.** The hardware-address token is a hex
  string written as the first line of a save file and read back pair by pair
  with `Byte.parseByte(.., 16)`. The model covers the lookup of a player's
  file in the save directory, stripping the token line on load, and choosing
  the file name and text on save.

Java behaviour is modelled as follows:

- A thrown exception is a `Failure` carrying `NullPointer`, `NumberFormat` or
  `IndexOutOfBounds`.
- The library calls the code relies on are written out in `JavaText`:
  - `Integer.toString`, `Integer.toHexString` and `Integer.parseInt`;
  - `Byte.parseByte`;
  - `String.indexOf` and `String.trim`;
  - the first `BufferedReader.readLine`.

  `Integer.parseInt` includes the sign, the digits and the range check.
  `Integer.toHexString` reads the two's-complement bits of a sign-extended
  byte.
- The save directory is a sequence of (name, content) files.
- The connection's network interface is `Unresolved` (null), or `Resolved`
  with an optional hardware address.
- `Item.matches`, `Item.getData` and the output of `Save.writeEntity` are
  parameters.

Modules and files:

- `wrappers.dfy`: `Option` and `Result`.
- `java_text.dfy`: `JavaText`, the Java `int`/`byte` ranges and the library
  calls above.
- `protocol.dfy`: `Protocol`, the message types and the pending-record codec.
- `packet_cache.dfy`: `PacketCache`, the cache, send and flush.
- `server_thread.dfy`: `ServerThread`, the send operations and the active
  item.
- `mac_token.dfy`: `MacToken`, the hex token codec.
- `save_files.dfy`: `SaveFiles`, the lookup, load and save.

### Where the code departs from what one would expect

In each case below, the model follows the code.

- **A save file whose first line cannot be read stops the lookup.** One
  would expect such a file to be skipped. In the code, an empty file makes
  `readLine()` return null and `trim()` throw. A pair that is not a hex byte
  makes `parseByte` throw. Neither exception is caught, so the whole lookup
  fails (`UnreadableFileAbortsLookup`).
- **Some bytes have no two-digit form.** One would expect every byte to
  become two zero-padded hex digits. In the code:
  - `toHexString(b).substring(len-2)` throws for bytes 0x00..0x0F.
  - A negative byte is written as its last two digits, "80".."ff".
  - `parseByte` rejects those pairs, so such a file is written but its later
    lookup throws (`HighByteTokenUnreadable`, `HighByteSaveUnreadable`).
- **A missing interface is not treated as a new player.** One would expect
  it to be, but a null interface makes the lookup throw at its first file. It
  also makes the save throw (`WriteClientSave`).
- **A new file's name can already be taken.** The name is
  "RemotePlayer" + the number of existing files + the extension. If a file
  of another player already has that name, it is overwritten
  (`NameCollisionOverwrites`).
- **CHESTOUT can arrive after INTERACT.** `updatePlayerActiveItem` sends
  CHESTOUT before INTERACT, but each goes through the cache. If only CHESTOUT
  is being cached, INTERACT reaches the transport first
  (`InteractOvertakesCachedChestOut`).

## Model

| member | source | states |
|---|---|---|
| Protocol.Ordinal | src/minicraft/network/MinicraftServerThread.java:73 | `InputType.values[t.ordinal()]` is `t`: the ordinal written into a record picks the same type when read back |
| Protocol.EncodeRecord | src/minicraft/network/MinicraftServerThread.java:83 | the record contains ':', and everything after its first ':' is the packet's data, whatever the data holds |
| Protocol.DecodeRecord | src/minicraft/network/MinicraftServerThread.java:72-74 | a record with no ':' throws an index error; a record that is read gives exactly the text after the first ':' as the payload |
| Protocol.RecordRoundTrip | src/minicraft/network/MinicraftServerThread.java:73-83 | reading back `ordinal + ":" + data` gives the original type and the exact data, also when the data holds ':' |
| PacketCache.CachePacketTypes | src/minicraft/network/MinicraftServerThread.java:65-67 | the cached set only grows and becomes old set ∪ the listed types; pending list and transport trace are untouched |
| PacketCache.SendData | src/minicraft/network/MinicraftServerThread.java:81-86 | a packet of a cached type is appended to the pending list as its record and nothing is transmitted; any other packet is transmitted and the pending list is unchanged; the cached set never changes |
| PacketCache.DecodeAll | src/minicraft/network/MinicraftServerThread.java:72-76 | a successful read-back of the pending records yields one packet per record |
| PacketCache.SendCachedPackets | src/minicraft/network/MinicraftServerThread.java:69-79 | after a successful flush both the cached set and the pending list are empty and the transport trace has only grown |
| PacketCache.SendAllSplits | src/minicraft/network/MinicraftServerThread.java:81-86 | a run of sends splits by type: cached-type packets become pending records in order, the rest reach the transport in order, the cached set is unchanged |
| PacketCache.SendAllPending | src/minicraft/network/MinicraftServerThread.java:81-83 | the pending list after a run gains the records of exactly its cached-type packets, in order |
| PacketCache.SendAllSent | src/minicraft/network/MinicraftServerThread.java:81-85 | the transport after a run gains exactly its other packets, in order |
| PacketCache.DecodeAllRecords | src/minicraft/network/MinicraftServerThread.java:72-83 | the records written for a run of packets read back as that run |
| PacketCache.DecodeAllSucceedsIff | src/minicraft/network/MinicraftServerThread.java:72-76 | reading the pending list back succeeds if and only if every record reads back |
| PacketCache.FlushSucceedsIff | src/minicraft/network/MinicraftServerThread.java:69-79 | the flush throws exactly when some pending record is unreadable |
| PacketCache.SendDataKeepsDecodable | src/minicraft/network/MinicraftServerThread.java:81-86 | sending never puts an unreadable record in the pending list |
| PacketCache.FlushDelivers | src/minicraft/network/MinicraftServerThread.java:69-79 | the flush transmits every pending packet exactly once, in original order, re-caches none, and empties both the cached set and the pending list |
| PacketCache.NothingDeferredWhenUncached | src/minicraft/network/MinicraftServerThread.java:70-75 | with the cached set cleared, every packet goes straight to the transport |
| PacketCache.CacheSendFlush | src/minicraft/network/MinicraftServerThread.java:65-86 | cache some types, send a run, flush: the transport sees the uncached packets as sent, then the cached ones in original order, each once, and both buffers end empty |
| JavaText.IntToString | src/minicraft/network/MinicraftServerThread.java:105 | `String.valueOf(n)` is never empty and starts with '-' exactly when `n` is negative |
| JavaText.IntToStringDigits | src/minicraft/network/MinicraftServerThread.java:105 | apart from that '-', `String.valueOf(n)` is all decimal digits worth `n` or `-n`, with no leading zero: the first digit is '0' only for zero |
| JavaText.NatToString | src/minicraft/network/MinicraftServerThread.java:197 | the digits `Integer.toString` and `toHexString` write have no leading zero (the first is '0' exactly for zero), and there is one digit exactly when the number is below the radix |
| JavaText.DecimalNumeralUnique | src/minicraft/network/MinicraftServerThread.java:197 | a decimal numeral without a leading zero is the text `Integer.toString` writes for its value, so the count in a save name is written one way only |
| JavaText.CharDigit | src/minicraft/network/MinicraftServerThread.java:152 | `Character.digit` gives a value below the radix or -1, and only ASCII digits and letters have a value |
| JavaText.CharDigitCase | src/minicraft/network/MinicraftServerThread.java:152 | a capital letter is worth what its lower-case form is, and every digit is the character `forDigit` writes for its value or that character's capital, so an upper-case token reads like a lower-case one |
| JavaText.ToHexString | src/minicraft/network/MinicraftServerThread.java:214 | `Integer.toHexString(x)` is hex digits whose value is `x`, or `x + 2^32` for a negative `x` |
| JavaText.ParseInt | src/minicraft/network/MinicraftServerThread.java:73 | `Integer.parseInt` succeeds only on text that starts with a digit, or with '-' or '+' and at least one more character, and whose every later character is a digit |
| JavaText.ParseIntOfDigits | src/minicraft/network/MinicraftServerThread.java:73 | text made only of digits parses to its value when that is below 2^31, and fails otherwise |
| JavaText.ParseIntOfSigned | src/minicraft/network/MinicraftServerThread.java:73 | '-' or '+' followed by digits parses to their value, negated after '-', when that fits in an `int`, and fails otherwise |
| JavaText.ParseByte | src/minicraft/network/MinicraftServerThread.java:152 | `Byte.parseByte` succeeds exactly when `parseInt` does with a value in -128..127, and gives that value |
| JavaText.ParseDigitPair | src/minicraft/network/MinicraftServerThread.java:152 | two digits parse as `radix·first + second` when that is below 128, and fail otherwise |
| JavaText.ParseSignedDigit | src/minicraft/network/MinicraftServerThread.java:152 | a sign and one digit parse as the digit, negated after '-' |
| JavaText.ParsePairRejected | src/minicraft/network/MinicraftServerThread.java:152 | a pair whose second character is not a digit, or whose first is neither a digit nor a sign, fails |
| JavaText.ParseIntOfIntToString | src/minicraft/network/MinicraftServerThread.java:73 | `Integer.parseInt` reads back what `String.valueOf` wrote, for every `int` including negative ones |
| JavaText.IndexOf | src/minicraft/network/MinicraftServerThread.java:73-74 | the result is the first position of the character, or -1 exactly when it does not occur |
| JavaText.IndexOfAfter | src/minicraft/network/MinicraftServerThread.java:177 | in `a + c + b` with no `c` in `a`, the first `c` is the one right after `a` |
| JavaText.ReadLine | src/minicraft/network/MinicraftServerThread.java:140 | `readLine` gives null exactly for an empty file; otherwise it gives the text up to the first '\n' or '\r', which contains neither |
| JavaText.Trim | src/minicraft/network/MinicraftServerThread.java:140 | the result is the slice of the text that starts right after its leading characters at or below space, and everything after the slice is at or below space too; a non-empty result starts and ends above space, so exactly the leading and trailing blanks are removed; text with no such character is unchanged |
| JavaText.LineBodyOfLine | src/minicraft/network/MinicraftServerThread.java:140 | a line without terminators followed by '\n' reads back as exactly that line |
| ServerThread.SendError | src/minicraft/network/MinicraftServerThread.java:60-63 | the message goes out as one INVALID packet with the message as its data; if INVALID is being cached, nothing goes out and the packet's `"<ordinal>:<message>"` record is appended to the pending list; the cached set is unchanged |
| ServerThread.CachedErrorDelivered | src/minicraft/network/MinicraftServerThread.java:60-79 | an error sent while INVALID is cached is not lost: the next flush delivers it as an INVALID packet with the message, after the packets that were pending before it |
| ServerThread.JoinWithId | src/minicraft/network/MinicraftServerThread.java:91 | `id;rest` has the id's text before its first ';' and exactly `rest` after it |
| ServerThread.NoSemicolonInInt | src/minicraft/network/MinicraftServerThread.java:109 | the text of an `int` holds no ';', so in `damage;attackDir` and `eid;update` the first ';' is the separator |
| ServerThread.SplitIdJoin | src/minicraft/network/MinicraftServerThread.java:91 | an `id;rest` payload splits back into the id and the exact rest, ';' in the rest included |
| ServerThread.SendEntityUpdate | src/minicraft/network/MinicraftServerThread.java:88-94 | an empty update sends nothing and changes nothing; otherwise exactly one ENTITY packet whose payload reads back as the entity id and the update |
| ServerThread.SendEntityAddition | src/minicraft/network/MinicraftServerThread.java:96-102 | a null or empty serialisation sends nothing and changes nothing; otherwise exactly one ADD packet with the serialisation |
| ServerThread.SendEntityRemoval | src/minicraft/network/MinicraftServerThread.java:104-106 | exactly one REMOVE packet whose payload parses back to the entity id |
| ServerThread.HurtPayload | src/minicraft/network/MinicraftServerThread.java:109 | the HURT payload splits into the damage and the direction's text, and that text parses back to the direction |
| ServerThread.HeldData | src/minicraft/network/MinicraftServerThread.java:122 | INTERACT carries the held item's data, or the literal text "null" for an empty hand |
| ServerThread.SendPlayerHurt | src/minicraft/network/MinicraftServerThread.java:108-110 | exactly one HURT packet whose payload reads back as the damage and the attack direction |
| ServerThread.UpdatePlayerActiveItem | src/minicraft/network/MinicraftServerThread.java:112-123 | both null or an old item that matches: nothing changes; old null with a new item: a `NullPointer` failure; otherwise CHESTOUT(old) then INTERACT(new data or "null") go through `sendData` and the tracked item becomes the new one |
| ServerThread.ChestOutBeforeInteract | src/minicraft/network/MinicraftServerThread.java:118-122 | when neither type is cached, an item change appends exactly CHESTOUT(old) and then INTERACT(new) to the transport |
| ServerThread.InteractOvertakesCachedChestOut | src/minicraft/network/MinicraftServerThread.java:118-122 | when only CHESTOUT is cached, the transport after the next flush holds INTERACT before CHESTOUT |
| ServerThread.RepeatedUpdateIsNoOp | src/minicraft/network/MinicraftServerThread.java:112-116 | with a matches relation reflexive on the new item, repeating a successful update changes nothing and sends nothing |
| MacToken.EncodeByte | src/minicraft/network/MinicraftServerThread.java:214-216 | a byte in 0x00..0x0F cannot be written; any other byte becomes the two hex digits of its unsigned value |
| MacToken.HexOfByte | src/minicraft/network/MinicraftServerThread.java:214-216 | `toHexString` of a sign-extended byte has one digit exactly for 0x00..0x0F, otherwise ends in the byte's two unsigned hex digits |
| MacToken.EncodeMac | src/minicraft/network/MinicraftServerThread.java:212-217 | the token exists exactly when no byte is in 0x00..0x0F; it has two characters per byte and no line terminator or blank |
| MacToken.DecodeToken | src/minicraft/network/MinicraftServerThread.java:150-153 | a token that reads back gives `len/2` bytes, so a trailing odd character is dropped |
| MacToken.DecodeTokenIsPairwise | src/minicraft/network/MinicraftServerThread.java:150-153 | the token reads back exactly when every one of its `len/2` pairs parses as a byte, and byte `i` is pair `i` |
| MacToken.ParseEncodedByte | src/minicraft/network/MinicraftServerThread.java:152 | a written byte's pair parses back to it when the byte is non-negative and is rejected when negative |
| MacToken.TokenDecodes | src/minicraft/network/MinicraftServerThread.java:150-153 | a written token reads back as the address exactly when no byte is negative, and fails otherwise |
| MacToken.TokenRoundTrip | src/minicraft/network/MinicraftServerThread.java:212-217 | an address with all bytes in 0x10..0x7F has a token of length 2·n that reads back as the same address |
| MacToken.HighByteTokenUnreadable | src/minicraft/network/MinicraftServerThread.java:150-153 | the token of an address with a byte of 0x80 or more is written but cannot be read back |
| MacToken.HighPairUnreadable | src/minicraft/network/MinicraftServerThread.java:152 | any token holding a hex pair above "7f" cannot be read |
| MacToken.OddCharIgnored | src/minicraft/network/MinicraftServerThread.java:150 | a trailing odd character, one UTF-16 code unit, does not change what the token reads as |
| SaveFiles.StoredAddress | src/minicraft/network/MinicraftServerThread.java:138-153 | an empty file throws a `NullPointer` failure instead of being skipped |
| SaveFiles.StoredAddressOfPaddedLine | src/minicraft/network/MinicraftServerThread.java:140-153 | a file whose first line is a token with blanks around it holds the address that token reads as, and throws `NumberFormat` when the token does not read |
| SaveFiles.FindFrom | src/minicraft/network/MinicraftServerThread.java:134-165 | a found position is the first file whose address is the interface's; none is found exactly when every address was read and none matched; an earlier first match is always the one returned |
| SaveFiles.GetRemotePlayerFile | src/minicraft/network/MinicraftServerThread.java:131-168 | the first file, in enumeration order, whose stored address equals the interface's, or none exactly when the directory is empty or every file was read without a match |
| SaveFiles.StripTokenLine | src/minicraft/network/MinicraftServerThread.java:177 | the text after the first newline, or the whole text when there is none |
| SaveFiles.GetRemotePlayerFileData | src/minicraft/network/MinicraftServerThread.java:170-186 | fails exactly when the lookup fails; is "" when no file matches; for a matched file is the text after that file's first newline |
| SaveFiles.NewSaveName | src/minicraft/network/MinicraftServerThread.java:197 | a new name is "RemotePlayer", then decimal digits worth the file count with no leading zero, then the extension |
| SaveFiles.NewSaveNamesDiffer | src/minicraft/network/MinicraftServerThread.java:195-197 | different file counts give different new names |
| SaveFiles.SaveText | src/minicraft/network/MinicraftServerThread.java:219 | the saved text's first line reads back as the token when the token has no line terminator, and the load strips exactly the token line when the token has no newline |
| SaveFiles.SavedAddress | src/minicraft/network/MinicraftServerThread.java:138-219 | the address read from a saved file is what its token decodes to, and a token that does not decode makes the read throw a number-format failure |
| SaveFiles.WriteClientSave | src/minicraft/network/MinicraftServerThread.java:188-219 | a lookup exception is rethrown and a null interface throws; with no hardware address nothing is written, exactly when the lookup does not throw; with an address and a lookup that succeeds, a file is written exactly when the token can be formed, and otherwise an index error is thrown; a written file's text is the token, a newline and the payload, and its name is the matched file's name or "RemotePlayer" + file count + extension |
| SaveFiles.Store | src/minicraft/network/MinicraftServerThread.java:221-224 | a file of an existing name is overwritten in place, otherwise it is added last, and the other files are untouched |
| SaveFiles.WrittenFileHoldsAddress | src/minicraft/network/MinicraftServerThread.java:212-219 | for an address the token can carry, the written file reads back as that address and its load gives the payload |
| SaveFiles.ScanStopsAtFailure | src/minicraft/network/MinicraftServerThread.java:134-165 | the scan throws at the first unreadable address reached before any match |
| SaveFiles.HighByteSaveUnreadable | src/minicraft/network/MinicraftServerThread.java:140-224 | an address with a byte of 0x80 or more and none below 0x10 is saved, but the written file's address cannot be read, and the next lookup of that address throws |
| SaveFiles.ResaveThenLoad | src/minicraft/network/MinicraftServerThread.java:191-193 | a returning player's save overwrites their file, and the next load finds that file with the new payload |
| SaveFiles.FirstSaveThenLoad | src/minicraft/network/MinicraftServerThread.java:194-198 | a new player's first save adds a file at the end, and the next load finds it with the payload |
| SaveFiles.SaveThenLoad | src/minicraft/network/MinicraftServerThread.java:170-219 | for an address the token can carry, a save followed by a load returns the payload, from the player's existing file position or from a new last file |
| SaveFiles.FreshSaveThenResave | src/minicraft/network/MinicraftServerThread.java:188-219 | a first save names the file by the file count, and a second save reuses that name without adding a file |
| SaveFiles.NameCollisionOverwrites | src/minicraft/network/MinicraftServerThread.java:195-197 | when another player's file already has the new name, a new player's save replaces it |
| SaveFiles.UnreadableFileAbortsLookup | src/minicraft/network/MinicraftServerThread.java:138-153 | an unreadable first line before any match makes the whole lookup fail |

## Left out

- Threads, the socket transport and the `synchronized` discipline: the model is sequential, and the transport is an append-only trace.
- The constructor, `parsePacket`, `getClient`, `respawnPlayer`, `endConnection` and `toString`: they depend on the world, the server and DNS.
- `src/minicraft/screen/Display.java`: it has no behaviour to verify.
- Debug printing and logging (`Game.debug`, `System.out`, `System.err`): no effect on the modelled state.
- File and network I/O: the directory listing, reading a file and the interface lookup are inputs.
- `SaveFiles.Store`: assumes that the directory listing puts a newly created file after the existing ones. `getRemotePlayerFiles` is not part of this model, and `File.listFiles` promises no order. The positions `|files|` that `FirstSaveThenLoad`, `SaveThenLoad` and `FreshSaveThenResave` state depend on this assumption; the payloads they state do not.
- `SaveFiles.Store`: stands for `Save.writeToFile` and assumes the text is stored as given. The split into lines at line 224 and `Load.loadFromFile` are not part of this model.
- `rpFile.exists()`: assumed true for a file found by the lookup.
- The world path: not modelled, because a file name stands for the file.
- `Save.extention`: its value is the parameter `ext`.
- `Protocol.Ordinal`: InputType.java is not part of this model. Only the eight types this file sends exist, numbered in the order they are declared here.
- `PacketCache.SendCachedPackets`: on an unreadable record it returns only the exception. The Java code has by then cleared the cached set and sent the earlier records.
- `SaveFiles.GetRemotePlayerFile`: on failure it returns only the exception.
- `MacToken.DecodeToken`: a string is a sequence of Unicode characters here, not of UTF-16 code units. `length()` and `substring` at lines 150-152 count code units, so a first line holding a character outside the Basic Multilingual Plane is split into pairs differently, and a line that throws in Java can read as an address here.
- `JavaText.CharDigit`: only ASCII digits and letters are read. `Character.digit` also accepts other Unicode digits.
- An `IOException` while reading or writing a save file: not modelled, because reading and writing are assumed to succeed.
- A save file that cannot be opened (`FileNotFoundException`, lines 145-148): every listed file is assumed readable, so the empty token it would leave behind is not modelled.
