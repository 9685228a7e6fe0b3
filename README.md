# HomeKit accessory server core, modelled in Dafny

This project models the core of a small HomeKit Accessory Protocol (HAP) server written in
C++. It covers the parts that do not talk to the network:

- **TLV8 codec** (`Hap/HapTlv.h`). Pair-setup messages are written in this format.
  - `Tlv::Parse` scans a buffer into an offset table. It has accessors for the type, length and value of each item, integer reads, and reassembly of values split into fragments.
  - `Tlv::Create` appends integers, byte strings and fragmented values to a bounded buffer.
- **HTTP server core** (`Hap/HapHttp.cpp`).
  - The session slot pool: `Server::Open` and `Server::Close`.
  - The process-wide pairing record: `srp`, `srp_owner` and `srp_auth_count`.
  - The routing part of `Server::Process`.
  - The pair-setup handlers `PairSetup_M1`, `PairSetup_M3` and `PairSetup_M5`.
- **Accessory database** (`HapDb/HapDb.h`).
  - The fixed-size object arrays (`ObjArrayBase`).
  - The permission mask and its list of names.
  - The status codes and `StatusStr`.
  - Characteristics, services and accessories with their `setId` / `init` numbering and their `Write` / `Read` dispatch.
  - The top-level `Db::Write` (PUT /characteristics) and `Db::Read` (GET /characteristics). This includes the parsing of the query string and the id list, and how the item statuses become the HTTP status.
- **Test program** (`HapTest/HapTest.cpp`): `bin2hex`, the `t_random` stand-in for the random source, and the rule that keeps the Bonjour "not paired" flag in step with the pairing list.

Entities that the C++ code updates in place are Dafny classes:

| Dafny class | C++ entity | state |
|---|---|---|
| `Tlv.Parse` | `Tlv::Parse` | an offset array and a count |
| `Tlv.Create` | `Tlv::Create` | an output `array<byte>` and a cursor |
| `DbArray.ObjArray` | `ObjArrayBase` | an `array` of slots and a fill mark |
| `Http.Server` | the server | its session slots, the pairing record and the stored pairings |
| `HapTest.Config` | the configuration | the status flags |

The database tree is modelled as values, each level a sequence of optional slots, as the tree's `ObjArrayStatic` members hold them. `setId`, `init`, `Write` and `Read` are methods with loops that return the updated object.

Each method is proved against a specification function. Lemmas then prove what the protocol promises about that function. These include:

- TLV round trips: parsing an encoding, re-encoding a parse, and reassembling fragmented values;
- the check order and outcomes of the pair-setup steps;
- the numbering of the tree as consecutive ids;
- first-match dispatch;
- the 200/204/207/400 aggregation rules;
- the query and id-list round trip;
- `bin2hex` being injective.

## Model

| member | source | states |
|---|---|---|
| Tlv.Parse.constructor | Hap/HapTlv.h:63-71 | A parser with an offset table of maxTlv entries and no items. |
| Tlv.Parse.Parse | Hap/HapTlv.h:73-103 | parse records the items of the buffer (at most maxTlv of them) and returns their number, which is count(). |
| Tlv.OffsetsShape | Hap/HapTlv.h:83-100 | The recorded offsets start at the buffer's start, lie inside the buffer and strictly increase, each one being the cursor after the previous item. The items are those at the offsets. |
| Tlv.ScanStops | Hap/HapTlv.h:83-100 | The scan ends inside the buffer. When it found fewer items than the table holds, fewer than two bytes were left. |
| Tlv.ClampIsLast | Hap/HapTlv.h:95-99 | An item whose declared length runs past the buffer is the last one recorded, and the cursor is clamped to the buffer's end. |
| Tlv.ClampOnlyLast | Hap/HapTlv.h:95-99 | Every recorded item has its header inside the buffer, and every one but the last declares a length that ends inside it. |
| Tlv.TruncatedHeaderKept | Hap/HapTlv.h:83-100 | For every list of whole items within the table size, a buffer that holds their encoding followed by a header cut after its type byte still parses to exactly those items. |
| Tlv.ParseEncoded | Hap/HapTlv.h:73-103 | Parsing the encoding of any list of items (each at most 255 bytes, no more than the table holds), followed by fewer than two stray bytes, gives back exactly those items, and the scan ends where the encoding ends. |
| Tlv.EncodeParsed | Hap/HapTlv.h:73-103 | Re-encoding the items parsed from a buffer made of whole items reproduces the buffer. |
| Tlv.Parse.Count | Hap/HapTlv.h:106-109 | count() is the number of items recorded, at most the table size. |
| Tlv.Parse.TypeAt | Hap/HapTlv.h:112-118 | type(i) is the type of item i, or Invalid past the last item. |
| Tlv.Parse.Length | Hap/HapTlv.h:121-127 | length(i) is the declared length byte: 0 past the last item, never less than the bytes the item holds, equal to them iff the declared value ends inside the buffer, and equal to them for every item but the last. |
| Tlv.Parse.Value | Hap/HapTlv.h:130-136 | value(i) is the item's bytes, which lie in the buffer right after its header. It is empty past the last item. |
| Tlv.Parse.GetInt | Hap/HapTlv.h:139-149 | getInt(i) is the little-endian value of item i's bytes. |
| Tlv.Parse.Get | Hap/HapTlv.h:153-165 | get(t, v) gives the integer of the first item of type t, or reports that there is none. |
| Tlv.FindSpec | Hap/HapTlv.h:156-163 | The item found is the first of type t. None is found iff no item has type t. |
| Tlv.ByteOf | Hap/HapTlv.h:153-165 | get into a uint8_t enumeration finds a value iff some item has type t, and that value is the first byte (0 for an empty value) of the first item of type t. |
| Tlv.LeValueLowByte | Hap/HapTlv.h:160 | Casting the integer to 8 bits keeps the first byte. |
| Tlv.Parse.GetBytes | Hap/HapTlv.h:169-172 | getBytes, with the count it copies corrected from the declared length(i) to the bytes the item holds (the Findings table), copies value(i) to the destination and changes nothing else. |
| Tlv.Parse.GetData | Hap/HapTlv.h:178-202 | getData, with the guard corrected, fails iff the run of same-type fragments starting at i is longer than size. On success it copies exactly that run. Bytes from size on are untouched. |
| Tlv.Parse.CopyFragment | Hap/HapTlv.h:184-199 | One turn of getData's loop continues the run exactly when item j has type t, and it copies item j's bytes behind the d gathered so far exactly when they fit into size; otherwise the data is unchanged. |
| Tlv.GetDataGuardReversed | Hap/HapTlv.h:192 | As written, a 5-byte value is reported copied into a 3-byte buffer and a 1-byte value is refused by a 10-byte one. |
| Tlv.DeclaredLengthOverruns | Hap/HapTlv.h:121-127 | The buffer [Identifier, 5, 0xAA] declares 5 value bytes but holds 1, so length(0) takes reads past the buffer's end. |
| Tlv.Create.constructor | Hap/HapTlv.h:213-218 | create(buf, size) starts an empty image bounded by size. |
| Tlv.Create.Length | Hap/HapTlv.h:220-223 | length() is the size of the encoding of the items added so far. It never passes size. |
| Tlv.Create.AddInt | Hap/HapTlv.h:226-251 | addInt succeeds iff v >= 0 and the item ends before size. It then appends the item holding v's minimal little-endian bytes, and otherwise leaves the item list alone. |
| Tlv.Create.StoreLe | Hap/HapTlv.h:236-247 | The byte loop writes the minimal little-endian bytes and the raised length byte. It fails exactly when it reaches size: always for a negative v, whose arithmetic shift never reaches zero. |
| Tlv.LeValueMinLe | Hap/HapTlv.h:226-251 | Decoding the bytes addInt stores gives back the integer. |
| Tlv.MinLeMinimal | Hap/HapTlv.h:237-247 | The stored encoding has a zero top byte only for 0. |
| Tlv.MinLeShort | Hap/HapTlv.h:226-251 | A 32-bit value never takes more than 4 bytes. |
| Tlv.Create.Add | Hap/HapTlv.h:253-257 | add of an enumeration value appends [t, 1, v] iff that 3-byte item ends before size (addInt refuses an item ending exactly at size). |
| Tlv.Create.AddBytes | Hap/HapTlv.h:260-274 | addBytes appends [t, l, d] iff l + 2 bytes are free. Otherwise the image is unchanged. |
| Tlv.Create.AddData | Hap/HapTlv.h:277-293 | addData appends the 255-byte chunks and then the rest, and succeeds iff they all fit. A failure leaves a prefix of the chunks added. |
| Tlv.ChunksShape | Hap/HapTlv.h:277-293 | Every chunk has type t and 1 to 255 bytes, and all but the last have exactly 255. |
| Tlv.ChunksReassemble | Hap/HapTlv.h:178-202 | The run starting at the first chunk reassembles the value when the next item has another type. |
| Tlv.FragmentRoundTrip | Hap/HapTlv.h:277-293 | Parsing what addData wrote behind earlier items and reassembling from the first chunk gives the value back. |
| Http.Server.constructor | Hap/HapHttp.cpp:11-15 | All session slots are closed, there is no pairing record (the owner is sid_invalid, the count 0), and nothing is paired. |
| Http.Server.Open | Hap/HapHttp.cpp:19-35 | Open opens the lowest closed slot and returns it. It returns sid_invalid, changing nothing, iff every slot is open. |
| Http.Server.Close | Hap/HapHttp.cpp:39-58 | Close fails, changing nothing, iff the slot is out of range or not open. Otherwise it closes the slot and frees the pairing record only if this slot owns it. |
| Http.RouteSpec | Hap/HapHttp.cpp:137-233 | A handler runs iff the request is a POST to /pair-setup with both headers and a State of M1, M3 or M5, and it gets the parsed items. A POST to /identify is always refused. Bad headers and unknown paths get 400. |
| Http.RouteEncodedM1 | Hap/HapHttp.cpp:161-192 | A body that encodes State M1 followed by items is routed to M1 with exactly those items. |
| Http.Server.PairSetupM1 | Hap/HapHttp.cpp:239-366 | The response and the new pairing record are those of the M1 specification, given the SRP outcomes and the salt. |
| Http.M1CheckOrder | Hap/HapHttp.cpp:253-291 | M1 checks Method, then Unavailable, then MaxTries, then Busy. A bad Method answers Unknown and frees the record. The other three refusals leave the record alone. |
| Http.M1DestroysForeignRecord | Hap/HapHttp.cpp:257-266 | An M1 without the right Method from any slot destroys a record owned by another slot (RetErr frees unconditionally). |
| Http.M1CountStep | Hap/HapHttp.cpp:278-302 | srp_auth_count only goes up by one, and only from at most 100, so it never passes 101 and never wraps. |
| Http.M1Success | Hap/HapHttp.cpp:296-351 | The response has no Error item iff M1 goes through. The caller then owns the record, the count went up, and the PublicKey items reassemble the key and the Salt item holds the salt. |
| Http.BusyUntilClosed | Hap/HapHttp.cpp:286-291 | A second slot is told Busy while the first owns the record, and goes through once the first slot closes. |
| Http.Server.PairSetupM3 | Hap/HapHttp.cpp:368-470 | The response and the new pairing record are those of the M3 specification, given the SRP outcomes. |
| Http.M3Outcomes | Hap/HapHttp.cpp:388-460 | M3 answers State M4. Without its own record it answers Unknown and keeps the record. A failed proof answers Authentication and keeps it. Missing inputs or a failure tear it down. Otherwise the Proof items are appended. |
| Http.M3ErrorFree | Hap/HapHttp.cpp:388-460 | An M3 response has no Error item iff the proofs were exchanged. |
| Http.M3Retry | Hap/HapHttp.cpp:431-437 | A failed proof check can be retried from the same slot. |
| Http.Server.PairSetupM5 | Hap/HapHttp.cpp:472-590 | The response, the record and the pairing list are those of the M5 specification, given the decryption and Pairings::Add outcomes. |
| Http.M5Outcomes | Hap/HapHttp.cpp:489-583 | M5 answers State M4, and every answer has an Error item. Authentication and MaxPeers keep the record, Unknown frees the caller's record, and a stored pairing also ends in Unknown. |
| Http.M5Stores | Hap/HapHttp.cpp:502-569 | A pairing is stored iff the caller owns the record, the EncryptedData fits, the tag matches, the three sub-items are present and Add accepts. The pairing stored is (identifier, key, Admin). |
| Http.SetupIsOneTime | Hap/HapHttp.cpp:253-275 | After M5 stored a pairing, no M1 from any slot goes through: one with the pair-setup method is answered Unavailable and leaves the record alone, and any other is answered Unknown and frees the record. |
| Http.M5LayoutBounds | Hap/HapHttp.cpp:500-516 | The split stays inside srp_data iff 16 <= n <= 512. |
| DbArray.ObjArray.constructor | HapDb/HapDb.h:561-569 | ObjArrayStatic<Count> is an empty array of Count null slots. |
| DbArray.ObjArray.Size | HapDb/HapDb.h:450-453 | size() is the number of slots below the mark, at most the capacity. |
| DbArray.ObjArray.Append | HapDb/HapDb.h:456-460 | set(obj) appends while there is room and ignores the call when the array is full. |
| DbArray.ObjArray.SetAt | HapDb/HapDb.h:463-471 | set(obj, i) stores at slot i and raises the mark to i + 1 when needed. The slots it passes over stay null. An index at or past the capacity changes nothing. |
| DbArray.PlaceSpec | HapDb/HapDb.h:463-471 | After set(obj, i), slot i holds obj and every other slot, old or new, is what it was or null. |
| DbArray.ObjArray.Get | HapDb/HapDb.h:474-479 | get(i) is null at or above the mark, else slot i. |
| DbArray.ObjArray.GetObj | HapDb/HapDb.h:496-507 | GetObj(match) returns the first non-null slot below the mark that match accepts. |
| DbArray.FirstMatchSpec | HapDb/HapDb.h:496-507 | The result is null iff no slot matches, and otherwise it is the lowest matching slot's object. |
| DbArray.PresentMembers | HapDb/HapDb.h:484-488 | An object is among those the scans visit iff it sits in some slot (null slots skipped). |
| DbStatus.Code | HapDb/HapDb.h:10-24 | The Status enumerators are 0 to 11, and only Success is 0. |
| DbStatus.CodeInjective | HapDb/HapDb.h:10-24 | Distinct statuses have distinct values. |
| DbStatus.StatusStr | HapDb/HapDb.h:25-43 | StatusStr gives "0" for Success and the HAP code -70400 - n otherwise. |
| DbStatus.StatusStrInjective | HapDb/HapDb.h:25-43 | No two statuses have the same text. |
| DbStatus.BitsMeet | HapDb/HapDb.h:718-721 | isEnabled(p) holds iff the permissions and p share a set bit. |
| DbStatus.SingleBit | HapDb/HapDb.h:741-743 | isEnabled(1 << i) holds iff bit i is set. |
| DbStatus.PermList | HapDb/HapDb.h:723-765 | The perms JSON's names are those the loop over bits 0 to 4 lists. |
| DbStatus.PermNamesSpec | HapDb/HapDb.h:725-760 | A name is listed iff its bit (below 5) is set. The names come in ascending bit order with no repeats, and "hd" never appears. |
| DbStatus.ErrCountSpec | HapDb/HapDb.h:1585-1586 | errcnt is 0 iff every status is Success, and equals the count iff none is. |
| DbStatus.WriteResult | HapDb/HapDb.h:1612-1623 | PUT gives 204 (no body) iff every write succeeded, 400 iff every one failed, and 207 iff both kinds occur. |
| DbStatus.ReadResult | HapDb/HapDb.h:1869-1875 | GET gives 200 iff no read failed, 400 iff every read failed, and 207 iff both kinds occur. |
| DbStatus.StickyStatusSpreads | HapDb/HapDb.h:1815-1857 | As written, once an id fails, every later id is reported failed. |
| DbStatus.StickyStatusMasksSuccess | HapDb/HapDb.h:1815-1875 | "id=1.1,2.1" with no accessory 1 gets 400 as written, but 207 when each read starts fresh. |
| DbQuery.KeyUnique | HapDb/HapDb.h:1644-1741 | At most one key of the if-chain matches at any position. |
| DbQuery.ParseParam | HapDb/HapDb.h:1644-1747 | One turn of the parameter loop, with id_length corrected to restart at each id parameter (the Findings table), gives the next position and state, or 400. |
| DbQuery.ParseQuery | HapDb/HapDb.h:1642-1748 | The parameter loop, with id_length corrected to restart at each id parameter (the Findings table), ends with the state of the query's parameters, each id parameter replacing the last, or 400. |
| DbQuery.QuerySpanInside | HapDb/HapDb.h:1651-1685 | The id span stays inside the query and covers only digits, '.' and ','. |
| DbQuery.LineAccepted | HapDb/HapDb.h:1642-1748 | Any sequence of well-formed parameters, each followed by '&', ';' or '#' except that the last may end the query without one (unless it is a bare "id="), is accepted. The flags are those turned on, and the ids are the last list. |
| DbQuery.QueryOfLine | HapDb/HapDb.h:1642-1753 | A query a client writes parses, with the flags it sets and the id list it gives last, whether or not its last parameter is followed by a separator. |
| DbQuery.LineOfQuery | HapDb/HapDb.h:1642-1748 | Conversely, every query the parameter loop accepts is such a line: well-formed parameters separated by '&', ';' or '#', the last one perhaps ending the query. |
| DbQuery.IdLengthAccumulates | HapDb/HapDb.h:1638-1671 | As written, "id=1.1&id=2.2" leaves a span of 6 characters at offset 10, past the end of the 13-character query. |
| DbQuery.IdLengthReplaced | HapDb/HapDb.h:1651-1671 | With the length restarting, the span is "2.2". |
| DbQuery.DecodeIdList | HapDb/HapDb.h:1767-1859 | The id loop decodes a list "a.i,a.i,..." into its pairs, in order. |
| DbObjects.Characteristic.SetId | HapDb/HapDb.h:835-839 | setId gives the characteristic id, changes nothing else, and returns id + 1 mod 2^32. |
| DbObjects.Characteristic.Write | HapDb/HapDb.h:913-958 | A wrong iid answers ResourceNotExist and changes nothing. Otherwise: a value without PairedWrite gives CannotWrite, and a value that does not convert gives InvalidValue. An ev without Events gives NotificationNotSupported, except that a later value error overwrites it. A write with no failing step keeps the status. The value and ev flag change only through a permitted step, and then to the requested value. Identity and permissions never change. |
| DbObjects.WriteStatusLocal | HapDb/HapDb.h:913-958 | Whether a write is found, and its status, depend only on the iid and the permissions. |
| DbObjects.Characteristic.Read | HapDb/HapDb.h:960-1107 | A wrong iid answers ResourceNotExist with nothing printed. Otherwise the status becomes CannotRead exactly without PairedRead and is kept otherwise, and the properties printed are ReadProps for the read permission, the query's flags and the properties held. |
| DbObjects.ReadPropsMembers | HapDb/HapDb.h:970-1104 | The value is printed iff it may be read, format iff meta=1, and perms, type and ev iff their flag is on. |
| DbObjects.ReadPropsMeta | HapDb/HapDb.h:989-1065 | unit, minValue, maxValue, minStep and maxLen are each printed iff meta=1 and the characteristic holds that property. |
| DbObjects.ReadPropsOrdered | HapDb/HapDb.h:970-1104 | Nothing but those ten properties is printed, and they come out in the source's order. |
| DbObjects.PrintListMembers | HapDb/HapDb.h:970-1104 | Going through the keys in order, a key is listed iff it is one of them and printed. |
| DbObjects.PrintListAscending | HapDb/HapDb.h:970-1104 | Going through the keys in order lists them in that order. |
| DbObjects.HasSpec | HapDb/HapDb.h:882-889 | GetProperty(k) finds a property iff one with key k is in a slot. |
| DbObjects.Service.SetId | HapDb/HapDb.h:1187-1201 | The service takes id and its characteristics, in slot order, take the consecutive ids after it. The next free id is returned, and nothing else changes. |
| DbObjects.RunDistinct | HapDb/HapDb.h:1187-1201 | Without wrap-around, the ids handed out are distinct. |
| DbObjects.IndexOf | HapDb/HapDb.h:1240-1250 | The scan stops at the first characteristic with the id, or passes them all iff none has it. |
| DbObjects.Service.Write | HapDb/HapDb.h:1238-1253 | The first characteristic with the iid takes the write and nothing else changes. With none, the write is not found and the status is left alone. |
| DbObjects.Service.Read | HapDb/HapDb.h:1255-1270 | The first characteristic with the iid answers. With none, the read is not found and the status is left alone. |
| DbTree.Accessory.Init | HapDb/HapDb.h:1300-1314 | init sets the aid and numbers the services, each followed by its characteristics, with consecutive ids from id on. It returns the next id, changes nothing else, and without wrap-around the ids are distinct. |
| DbTree.Accessory.Write | HapDb/HapDb.h:1352-1372 | Another aid answers ResourceNotExist. Otherwise only the first characteristic with the iid takes the write, and the status is what it leaves. |
| DbTree.Accessory.Read | HapDb/HapDb.h:1374-1394 | Another aid answers ResourceNotExist. Otherwise the first characteristic with the iid across all services answers. |
| DbTree.Db.AccSlot | HapDb/HapDb.h:1407 | GetAcc(aid) finds the first slot holding an accessory with that aid. |
| DbTree.Db.AccSlotIsGetObj | HapDb/HapDb.h:482-493 | That slot is where GetObj's scan matching on the aid stops. |
| DbTree.Db.WriteItem | HapDb/HapDb.h:1573-1586 | One write item gets ResourceNotExist when no accessory has the aid or none takes it. Otherwise it gets what the characteristic leaves, and only that accessory changes. |
| DbTree.Db.Write | HapDb/HapDb.h:1440-1623 | A malformed body gets 400. Otherwise the items are applied in order, each from a fresh status, and a malformed item ends the request with 400. The reply is 204, 400 or 207 as the statuses say. |
| DbTree.ItemStatusSkeleton | HapDb/HapDb.h:1486-1604 | An item's status does not depend on the values and ev flags earlier writes changed. |
| DbTree.ItemWrittenSkeleton | HapDb/HapDb.h:1573-1583 | A write changes only values and ev flags. |
| DbTree.Db.ReadOne | HapDb/HapDb.h:1815-1831 | One id pair is read through GetAcc and Accessory::Read, and a missing accessory or characteristic gives ResourceNotExist. |
| DbTree.Db.ReadIds | HapDb/HapDb.h:1767-1859 | The id loop decodes the list and reads each pair as it completes. It fails iff the list is malformed. |
| DbTree.Db.Read | HapDb/HapDb.h:1631-1876 | Db::Read with both HapDb faults of the Findings table corrected: id_length restarts at each id parameter, and each id is read from a fresh Success status. A bad query, a missing id list or a malformed one gets 400. Otherwise each listed pair is read in order and the reply follows ReadResult. |
| DbTree.Db.StickyAnswers | HapDb/HapDb.h:1633-1858 | Db::Read as written, where one rd_prm serves every id and only aid and iid are reset: one answer per pair. |
| DbTree.Db.StickyAnswersStatuses | HapDb/HapDb.h:1815-1857 | As written, the statuses are the sticky fold of each read's own failures. |
| DbTree.Db.FreshStatuses | HapDb/HapDb.h:1819-1836 | Starting each read from Success, every id reports its own outcome. |
| DbTree.Db.ReadCarried | HapDb/HapDb.h:1819-1828 | A read gives the same answer from any starting status, except that a success keeps the status it started with. |
| HapTest.Hex | HapTest/HapTest.cpp:10-23 | bin2hex prints two upper-case hex digits per byte. |
| HapTest.UnhexHex | HapTest/HapTest.cpp:10-23 | Reading the printed digits back gives the bytes. |
| HapTest.HexInjective | HapTest/HapTest.cpp:10-23 | Different byte strings print differently. |
| HapTest.Bin2Hex | HapTest/HapTest.cpp:10-23 | The first 2·size characters are Hex of the bytes, followed by a NUL, and the rest of s is untouched. |
| HapTest.Counting | HapTest/HapTest.cpp:410-417 | Byte i of t_random's output is i & 0xFF. |
| HapTest.TRandom | HapTest/HapTest.cpp:410-417 | t_random writes the counting pattern into the first size bytes and nothing else. |
| HapTest.StatusRule | HapTest/HapTest.cpp:280-293 | The NotPaired bit ends up set iff the pairing list is empty. The other bits are unchanged, and mdns is updated iff the bit flipped. |
| HapTest.StatusRuleSettles | HapTest/HapTest.cpp:283-293 | Applying the rule a second time changes nothing and signals nothing. |
| HapTest.Config.constructor | HapTest/HapTest.cpp:190-210 | Reset (which Restore falls into) sets the status flags to NotPaired and NotConfiguredForWiFi, and no other bit. |
| HapTest.ResetFlagsSettled | HapTest/HapTest.cpp:203-209 | The flags Reset writes agree with the empty pairing list it leaves: the rule then changes nothing, and once a pairing exists it clears only NotPaired and signals mdns. |
| HapTest.Config.Update | HapTest/HapTest.cpp:278-299 | The Update callback applies the rule to the flags and reports whether mdns must be updated. |

## Left out

- **Transport and parsing.** Leaving them out is safe because the model takes their results.
  - The HTTP receive/send loop and the HTTP request parser are not modelled: a request enters routing already split into verb, path, headers and body.
  - The responses built with `sess->rsp` are summarised as an action.
- **Cryptography.** SRP, HKDF, the ChaCha20-Poly1305 decryption and the signature checks are not modelled. Each handler is given the outcomes of those calls as a parameter.
  - The M1 salt is a parameter. For the test build, `HapTest.TRandom` states its value.
  - `Pairings::Add` is given as its outcome.
- **Database text and conversion.** The JSON text is left out because it only formats results already modelled.
  - The JSON parser of `Db::Write` is not modelled: a write request arrives parsed, with a malformed item as `None`.
  - The value conversion `hap_type<F>::Write` is not modelled: a request carries whether it produced a value.
  - All `snprintf` JSON text is not modelled. This covers the `getDb` descriptions and the response bodies of `Db::Read` / `Db::Write`. A read reports the list of properties it prints; `DbStatus.PermList` states the perms list.
  - The HTTP 500 answers for a full response buffer are not modelled.
- **The database tree.**
  - The tree is built from values, so pointer aliasing between objects is not captured.
  - The constructors that fill the slots (`AddCharacteristic`, `AddService`, `AddAcc`, `AddProperty`) are represented by the slot sequences themselves.
  - `GetObj(iid_t)` is modelled only in its one use, `Db::GetAcc` (`DbTree.Db.AccSlotIsGetObj`). Calling `getId` through a generic array would need a heap-reading predicate.
- **Other files.** `HapLinux.cpp`, `HapTcp.h`, mdns and TCP, `MyConfig` persistence (`Config::Save`, `Config::Restore`) and `main` are not part of this model. The mdns update is only signalled.
- `Hap.h` is not part of this model. Three constants come from the HAP specification instead:
  - `Bonjour::NotPaired` (bit 0, 0x01) and `Bonjour::NotConfiguredForWiFi` (bit 1, 0x02);
  - `Tlv::Method::PairSetupNonMfi`, taken as 0, the HAP value for pair setup. The enumeration in `HapTlv.h` does not list it.
- Http.SidInvalid and Http.Server.Close: `sid_t`, `sid_max`, `sid_invalid` and `MaxHttpSessions` also come from `Hap.h`.
  - `sid_invalid` is modelled as -1, a value that is never a slot index.
  - The model assumes `sid_max == sizeofarr(_sess) - 1`: the range check `sid > sid_max` of Close (HapHttp.cpp:41) is modelled as `sid >= sess.Length`.
  - `Server::Process` quits for a sid above `MaxHttpSessions`, and on slot `MaxHttpSessions` it only sends the response buffer as it stands, the "too many sessions" case (HapHttp.cpp:69-79). So that slot, which Open can hand out, serves no request. The model's routing (`Http.Route`) does not take the slot index, so these checks are not modelled.
- DbArray.ObjArray.SetAt: a negative index, which writes before the array in C++, is excluded by the precondition.
- DbArray.ObjArray.Get: a negative index, which reads before the array in C++, is excluded by the precondition `0 <= i`. Every call in the model passes an index of at least 0.
- DbArray.ObjArray.constructor: the slots start null, as they do for the statically allocated database. A stack-allocated array would start with indeterminate pointers.
- DbObjects.Characteristic.Read: the early return once the response buffer is full (`p.max <= 0`) is not modelled; the list is what a large enough buffer receives.
- Tlv.Parse.GetInt: the 32-bit `int` of the source is not modelled. A 4-byte item whose top byte is 0x80 or more overflows `int`, and from the fifth byte on the shift `<< (8 * i)` is undefined. The model gives the unbounded little-endian value, and of the bytes the item holds (the corrected length of the Findings table), not of the declared length.
- `tlvi.get(Type, buf, size)` (HapHttp.cpp:400, 409, 502) is not declared in `HapTlv.h`. The model reads it as `Http.DataOf`: the value that starts at the first item of that type, reassembled with the fragments that follow it, when it fits into size bytes. A reading that copies one item only would differ for values longer than 255 bytes.
- `tlvo.add(Type, data, len)` (HapHttp.cpp:348, 449) is read as `addData`, that is `Tlv.Chunks`: the value split into 255-byte fragments.
- `Tlv::Item` and `tlv.get(Type, Item)` (HapHttp.cpp:509-558) are not declared in `HapTlv.h`. They are read as `Tlv.First`: the first item of the given type in the decrypted sub-TLV.
- Failures of `sess->tlvo.add` on a full response buffer are not modelled: a reply is always the full item list.
- `_db.Open(sid)` and `_db.Close(sid)` (HapHttp.cpp:29, 47) are not modelled in `Http.Server.Open` and `Http.Server.Close`: the `Db` of `HapDb.h` declares no such methods, so what they do is not part of this model.
- Tlv.Parse.GetData: requires i to name an item whose type is not Invalid. Otherwise the C++ loop's uint8_t index wraps.

## Findings

| source | as written | input that shows it | evidently intended | confidence | as-written member | corrected member |
|---|---|---|---|---|---|---|
| Hap/HapTlv.h:192 | getData stops with false when a fragment is shorter than the room left, and otherwise copies it whatever its size. | A single 5-byte Salt item with size 3 returns true after copying 5 bytes; a 1-byte item with size 10 returns false. | Refuse a fragment longer than the room: `length(i) > max`. | not executed | Tlv.GetDataGuardReversed | Tlv.Parse.GetData |
| Hap/HapTlv.h:121-127 | length(i) returns the declared length byte, and getBytes / getInt copy that many bytes even when parse clamped the item at the buffer's end. | The buffer [Identifier, 5, 0xAA]: length(0) is 5, but one value byte follows. | Use the clamped length, the bytes actually in the buffer. | not executed | Tlv.DeclaredLengthOverruns | Tlv.Parse.Value |
| HapDb/HapDb.h:1633-1857 | One rd_prm serves every id of a GET. Only aid and iid are reset, so a failed id's status carries into every later id. | "id=1.1,2.1" with no accessory 1 and a readable 2.1: both report -70409 and the reply is 400. | Each id starts from Success, so one success and one failure give 207. | not executed | DbTree.Db.StickyAnswersStatuses | DbTree.Db.Read |
| HapDb/HapDb.h:1638-1671 | id_length is never reset, so a second id parameter adds its length to the first one's while `id` moves to the second. | "id=1.1&id=2.2": the span is offset 10 with length 6, three characters past the end of the 13-character query. | Each id parameter replaces the previous list: `id_length = 0` at `id = r`. | not executed | DbQuery.IdLengthAccumulates | DbTree.Db.Read |
