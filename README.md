# I2P zone layer of the Cuprate peer-to-peer stack, modelled in Dafny

This project models four small parts of the node's peer-to-peer layer and proves what they promise:

- **`GarlicAddr`**, the I2P address value. It holds a 32-byte destination digest and a `u16` virtual port. The model covers:
  - its constructor and accessors;
  - its log display form: base 64 of bytes 0..8, then `...`, then base 64 of bytes 24..32, then `:` and the port. Base 64 is the standard alphabet with padding, section 4 of RFC 4648;
  - its string parser, which cuts at the last `:` and reads the tail as a `u16`;
  - its epee wire object, which writes the fields `destination` then `port`, and whose builder always refuses.
- **The I2P zone's address capability** (`set_port`, `ban_id`, `make_canonical`, `should_add_to_peer_list`) and the zone's three policy constants.
- **`CrossNetworkInternalPeerId`**, the tagged union of the three zones' internal peer IDs, with its three total conversions.
- **`initialize_zones_p2p`**, the zone-startup routine, and the result shape of `start_zone_p2p`. Clearnet starts first and its failure panics. I2P starts only when enabled, and its failure is swallowed. One oneshot sender for the incoming-transaction handler is collected per started zone, clearnet first.

Files, one module each: `wrappers.dfy` (Option, Result), `bytes.dfy` (`u8`/`u16`/`u64`, `to_le_bytes`), `base64.dfy`, `decimal.dfy` (`u16` display and `u16::from_str`), `garlic_addr.dfy`, `i2p_zone.dfy`, `network_address.dfy`, `p2p.dfy`.

Modelling choices:

- Fixed-width integers are `int` subset types. No arithmetic in the core can overflow.
- A fresh `DefaultHasher`'s `finish()` value is the parameter `emptyHash` of the parser. Rust does not fix that value.
- The `&mut self` methods act on `AddrSlot`, a class that holds one `GarlicAddr`.
- `initialize_network` is one function per zone, from the request-handler maker to the zone's outcome. The class `ZoneLauncher` holds these functions. It also logs which zone starts were attempted, in order, and counts the oneshot channels opened.
- The `unwrap` panic is the outcome `Panicked`.
- `InternalPeerID<A>`, the socket and onion addresses, `NetworkInterface<N>`, `BoxError` and `IncomingTxHandler` are abstract types.

Where the intended design goes further than the code, the model follows the code:

- Parsing the display form recovers only the port (`ParseDisplay`).
- The destination a parse yields is the same constant for every input (see Findings).
- The wire builder decodes nothing.

## Model

| member | source | states |
|---|---|---|
| `GarlicAddress.GarlicAddr.New` | net/wire/src/network_address/garlic_addr.rs:29-41 | `destination()` and `port()` of `new(d, p)` are `d` and `p` |
| `Base64.Encode` | net/wire/src/network_address/garlic_addr.rs:50-51 | the output is 4 symbols per started 3-byte group (12 for the 8 bytes shown), each a symbol of the standard alphabet or `=` |
| `Base64.DecodeEncode` | net/wire/src/network_address/garlic_addr.rs:50-51 | decoding the encoding gives the bytes back, for every byte string |
| `Base64.EncodeInjective` | net/wire/src/network_address/garlic_addr.rs:50-51 | two byte strings encode alike if and only if they are equal |
| `Base64.EncodeHasNoColon` | net/wire/src/network_address/garlic_addr.rs:49-51 | no encoding contains `:` |
| `Decimal.ToDecimal` | net/wire/src/network_address/garlic_addr.rs:52 | the port is written as digits with no leading zero ("0" for zero), and their value is the port |
| `Decimal.ToDecimalInjective` | net/wire/src/network_address/garlic_addr.rs:52 | two numbers display alike if and only if they are equal |
| `Decimal.ToDecimalHasNoColon` | net/wire/src/network_address/garlic_addr.rs:49-52 | the port digits contain no `:` |
| `GarlicAddress.Display` | net/wire/src/network_address/garlic_addr.rs:44-54 | `Display::fmt`: the text is 28 characters plus the port's digits, with `...` at 12..15 and `:` at 27; `DisplayLayout`, `DisplayEqualIff` and `ParseDisplay` specify it fully |
| `GarlicAddress.DisplayLayout` | net/wire/src/network_address/garlic_addr.rs:47-53 | the display is 12 symbols for bytes 0..8, `...`, 12 symbols for bytes 24..32, `:` at index 27 and nowhere else, then the port digits |
| `GarlicAddress.DisplayEqualIff` | net/wire/src/network_address/garlic_addr.rs:47-53 | two addresses display alike if and only if they agree on bytes 0..8, bytes 24..32 and the port, so bytes 8..24 are never shown |
| `GarlicAddress.LastColon` | net/wire/src/network_address/garlic_addr.rs:62 | returns None exactly when `s` has no `:`; otherwise an index holding `:` with no `:` after it |
| `GarlicAddress.LastColonAt` | net/wire/src/network_address/garlic_addr.rs:62 | a `:` with no `:` after it is the one the split uses |
| `GarlicAddress.SplitAtLastColon` | net/wire/src/network_address/garlic_addr.rs:62-74 | splitting `dest + ":" + port` gives `dest` and `port` back when `port` holds no `:` |
| `GarlicAddress.HashedDestination` | net/wire/src/network_address/garlic_addr.rs:78-83 | bytes 0..8 are the hash's little-endian bytes and bytes 8..32 are zero |
| `GarlicAddress.Parse` | net/wire/src/network_address/garlic_addr.rs:60-86 | fails with "Invalid garlic address format" exactly when there is no `:`; every other error is "Invalid port"; every success carries the one fixed destination |
| `GarlicAddress.ParseSplitsAtLastColon` | net/wire/src/network_address/garlic_addr.rs:62-74 | for any prefix (empty, or holding more colons) and colon-free tail, the port is the tail read as a `u16`, else "Invalid port" |
| `GarlicAddress.ParseSamePortSameAddr` | net/wire/src/network_address/garlic_addr.rs:78-85 | two successful parses with the same port give equal addresses |
| `GarlicAddress.ParseIgnoresDestinationText` | net/wire/src/network_address/garlic_addr.rs:78-85 | texts that differ only before the last `:` parse to the same result |
| `GarlicAddress.ParseDisplay` | net/wire/src/network_address/garlic_addr.rs:47-85 | parsing any display form succeeds and recovers the port, but not the destination |
| `GarlicAddress.FromStr` | net/wire/src/network_address/garlic_addr.rs:60-86 | the backward scan for the last `:` and the port parse give exactly `Parse`'s result |
| `GarlicAddress.FillDestination` | net/wire/src/network_address/garlic_addr.rs:78-83 | filling the zeroed 32-byte buffer with the 8 hash bytes gives `HashedDestination` |
| `GarlicAddress.ParseHashed` | net/wire/src/network_address/garlic_addr.rs:76-85 | the intended parser: fails with the format error exactly when there is no `:` |
| `GarlicAddress.ParseHashedAgrees` | net/wire/src/network_address/garlic_addr.rs:60-85 | for every input, the intended parser fails exactly when the written one does, with the same error, and succeeds with the same port |
| `GarlicAddress.ParseHashedSeparates` | net/wire/src/network_address/garlic_addr.rs:79-83 | for a port that parses, destination texts with different hashes give different addresses and the same port as the written parser |
| `Bytes.LeBytes` | net/wire/src/network_address/garlic_addr.rs:83 | `n` bytes, from which the value is recovered when it fits in `n` bytes |
| `Bytes.ToLeBytes` | net/wire/src/network_address/garlic_addr.rs:83 | `to_le_bytes` gives 8 bytes whose little-endian value is the hash |
| `Bytes.ToLeBytesInjective` | net/wire/src/network_address/garlic_addr.rs:83 | distinct hash values give distinct destination prefixes |
| `Decimal.ParseU16` | net/wire/src/network_address/garlic_addr.rs:70-72 | `parts[0].parse::<u16>()`: a success needs a non-empty text other than `+`, made of digits with at most one leading `+`; the `Decimal.Parse*` lemmas pin the cases (empty, non-digit, overflow, `+`, leading zero, round trip through `ToDecimal`) |
| `Decimal.ParseToDecimal` | net/wire/src/network_address/garlic_addr.rs:70-72 | the displayed port parses back to the port |
| `Decimal.ParseRejectsEmpty` | net/wire/src/network_address/garlic_addr.rs:70-72 | an empty port text and a lone `+` are rejected |
| `Decimal.ParseRejectsNonDigit` | net/wire/src/network_address/garlic_addr.rs:70-72 | any character that is neither a digit nor the one leading `+` is rejected |
| `Decimal.ParseRejectsOverflow` | net/wire/src/network_address/garlic_addr.rs:70-72 | digits worth more than 65535 are rejected, with or without `+` |
| `Decimal.ParseAcceptsPlus` | net/wire/src/network_address/garlic_addr.rs:70-72 | one leading `+` is accepted and leaves the value unchanged |
| `Decimal.ParseAcceptsLeadingZero` | net/wire/src/network_address/garlic_addr.rs:70-72 | leading zeros are accepted and leave the value unchanged |
| `Decimal.LeadingZeroValue` | net/wire/src/network_address/garlic_addr.rs:70 | a leading `0` does not change a digit string's value |
| `GarlicAddress.AddField` | net/wire/src/network_address/garlic_addr.rs:90-92 | every `add_field` fails with Format("Garlic address builder not implemented") |
| `GarlicAddress.Finish` | net/wire/src/network_address/garlic_addr.rs:94-96 | `finish` always fails with the same Format error, so decoding never yields an address |
| `GarlicAddress.NumberOfFields` | net/wire/src/network_address/garlic_addr.rs:102-104 | an address has two fields, which `ObjectFields` and `WriteFields` confirm are `destination` and `port` |
| `GarlicAddress.ObjectFields` | net/wire/src/network_address/garlic_addr.rs:102-115 | the written field list has exactly `number_of_fields` (2) entries |
| `GarlicAddress.ObjectFieldsInjective` | net/wire/src/network_address/garlic_addr.rs:110-113 | the two fields determine the address: the encoding loses nothing |
| `GarlicAddress.FieldWriter.WriteField` | net/wire/src/network_address/garlic_addr.rs:111-113 | appends exactly one named field to the buffer |
| `GarlicAddress.WriteFields` | net/wire/src/network_address/garlic_addr.rs:106-115 | appends `destination` (the 32 bytes), then `port`, and nothing else; exactly `number_of_fields` fields |
| `I2pZone.BanIdOf` | p2p/p2p-core/src/network_zones/i2p.rs:29-31 | the ban key is the destination |
| `I2pZone.BanIdIgnoresPort` | p2p/p2p-core/src/network_zones/i2p.rs:25-31 | two addresses share a ban key exactly when they share a destination; changing the port keeps the key |
| `I2pZone.AddrSlot.SetPort` | p2p/p2p-core/src/network_zones/i2p.rs:25-27 | the port becomes `p`; the destination and the ban key are unchanged |
| `I2pZone.AddrSlot.MakeCanonical` | p2p/p2p-core/src/network_zones/i2p.rs:33-36 | the address is unchanged, so the operation is idempotent |
| `I2pZone.ShouldAddToPeerList` | p2p/p2p-core/src/network_zones/i2p.rs:38-42 | true for every address |
| `I2pZone.ZonePolicy` | p2p/p2p-core/src/network_zones/i2p.rs:50-56 | NAME is "I2p", CHECK_NODE_ID is false, BROADCAST_OWN_ADDR is true |
| `NetworkAddress.FromClearNet` | binaries/cuprated/src/p2p/network_address.rs:17-21 | always the `ClearNet` variant wrapping the given ID |
| `NetworkAddress.FromTor` | binaries/cuprated/src/p2p/network_address.rs:23-27 | always the `Tor` variant wrapping the given ID |
| `NetworkAddress.FromI2p` | binaries/cuprated/src/p2p/network_address.rs:29-33 | always the `I2p` variant wrapping the given ID |
| `NetworkAddress.ConversionsInjective` | binaries/cuprated/src/p2p/network_address.rs:7-33 | under derived equality, converted IDs are equal exactly when the typed IDs are |
| `NetworkAddress.ZonesNeverCollide` | binaries/cuprated/src/p2p/network_address.rs:8-33 | IDs converted from different zones are never equal |
| `NetworkAddress.EveryIdIsOneConversion` | binaries/cuprated/src/p2p/network_address.rs:8-15 | every value is exactly one variant, and equals the conversion of its payload |
| `P2p.StartZoneP2p` | binaries/cuprated/src/p2p.rs:126-145 | an `initialize_network` error passes through unchanged; on success the returned sender belongs to the channel whose receiver the maker holds, and the maker had no handler yet |
| `P2p.AwaitingMakerIsUnique` | binaries/cuprated/src/p2p.rs:128-134 | the maker built for a channel is unique |
| `P2p.NetworkInterfaces.New` | binaries/cuprated/src/p2p.rs:42-50 | stores both interfaces unchanged |
| `P2p.ZoneLauncher.StartClearnet` | binaries/cuprated/src/p2p.rs:64-71 | one clearnet start on a new channel, logged |
| `P2p.ZoneLauncher.StartI2p` | binaries/cuprated/src/p2p.rs:79-87 | one I2P start on a new channel, logged |
| `P2p.InitializeZonesP2p` | binaries/cuprated/src/p2p.rs:55-107 | clearnet is attempted first. Its failure gives `Panicked` with no other start. With I2P disabled, no I2P start, no I2P interface and senders `[clearnet]`. With I2P enabled: on success `Some` and `[clearnet, i2p]`; on failure `None` and `[clearnet]`, clearnet untouched. 1 or 2 senders, 2 exactly when I2P is up, each on its own channel |

## Left out

- The async runtime is not modelled: tokio's oneshot channel, `.shared()` futures and the `.await` points. Channels are named by a counter. Resolving a sender, and "resolving twice is rejected", are not modelled.
- The request-handler maker's read handles and context service are left out, and so are the `CoreSyncService` adapter, the write handles (unused by the routine) and the internals of `initialize_network`. Each zone's `initialize_network` is a function from the maker to the zone's outcome.
- Configuration loading (`clearnet_p2p_config`, `i2p_p2p_config`, the transport config conversions) and tracing (`info!`, `warn!`, `debug!`) are not modelled; the I2P enable flag is a parameter.
- p2p/p2p-transport is not part of this model. It holds the I2P transport stub: async I/O whose streams stay pending, and whose `connect_to_peer` and listener return `NotConnected`.
- The `NetZoneAddress` and `NetworkZone` traits are generic capabilities. Only their I2P instance is modelled; the clearnet and Tor address types and constants are not part of this model.
- `DefaultHasher` internals are not modelled. The empty hasher's `finish()` is the parameter `emptyHash`; the corrected parser takes the hash as a function `hashOf`.
- The epee binary layout of `write_field` is not modelled: the buffer is the ordered list of (name, value) fields. The epee reader that drives the builder is not part of this model; `AddField` and `Finish` say what it receives.
- Derived `Clone`, `Copy`, `Debug` and `Hash` are not modelled; `PartialEq`/`Eq` are Dafny's datatype equality.
- `GarlicAddress.WriteFields`: always returns `Ok`. The field list stands for the byte buffer, so `write_field`'s errors (passed on by `?`) are not modelled: the model assumes the buffer has room for both fields.

## Findings

| source | as written | input that shows it | evidently intended | confidence | as-written member | corrected member |
|---|---|---|---|---|---|---|
| net/wire/src/network_address/garlic_addr.rs:79-83 | `dest_str` is hashed into a clone of the hasher, and `finish()` is called on the untouched original. Bytes 0..8 of the destination are then one constant for every input, and bytes 8..32 are zero | `"a:1"` and `"b:1"` parse to the same address | the destination bytes come from the hash of the text before the last `:`, so texts with different hashes give different addresses (`ParseHashedSeparates`) | high; not executed | `GarlicAddress.ParseIgnoresDestinationText` | `GarlicAddress.ParseHashed` |

`FromStr` and `Parse` keep the written behaviour, because they describe the code as it stands. `ParseHashed` is the corrected definition, and the lemma `ParseHashedSeparates` proves the intended property of it.
