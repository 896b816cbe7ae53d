# Teredo relay state and queries

This project models the state record of miredo's `TeredoRelay` (a Teredo
relay/client, which tunnels IPv6 over IPv4 UDP through NATs) and the
constant queries that read it. The record has three parts:

- the relay's own 128-bit Teredo address;
- the qualification probe: two deadlines, an 8-byte nonce, a 2-bit phase
  and a 3-bit retry counter;
- the secondary server IPv4 `server_ip2`.

Most queries extract a field of the Teredo address; `GetServerIP2` returns
the stored `server_ip2`. `IsClient` and `IsRelay` are derived from the
server IPv4 in the address, and `IsRunning` from the address prefix and the
probe phase `probe.state`.

The address layout follows section 4 of RFC 4380, "Teredo Addresses". In
network byte order it holds:

- a 32-bit prefix;
- the 32-bit server IPv4;
- 16 bits of flags, whose most significant bit is the cone flag;
- the 16-bit mapped UDP port, stored bit-complemented;
- the 32-bit mapped IPv4, stored bit-complemented.

The queries give back the mapped port and IPv4 un-complemented.

Modules:

- `Bits` (`bits.dfy`) defines byte, 16-bit and 32-bit words, the
  network-order value of a byte string and its inverse, and bitwise
  complements, with the round trips between them.
- `TeredoAddr` (`teredo_addr.dfy`) defines the address as sixteen bytes.
  It has one extractor per field, an encoder from fields to an address, a
  decoder back, and the round trips between them.
- `Relay` (`relay.dfy`) defines the state record as a datatype. It holds
  the bit-field stores, the queries of `class TeredoRelay`, and lemmas
  about them.

Every query in the source is a `const` member function. In this model the
state is a datatype value, and each query is a function of that value, so
no query can change `addr`, `probe` or `server_ip2`. Lemmas state which
parts of the state each query actually reads.

`IsRunning` requires `probe.state == 0` (libteredo/relay.h:202); the model
names that phase `IdleState`.

## Model

| member | source | states |
|---|---|---|
| `Bits.FromBytes` | libteredo/relay.h:159-187 | the network-order value of n bytes is below 256^n |
| `Bits.ToBytes` | libteredo/relay.h:159-187 | the n network-order bytes of a value that fits read back as that value |
| `Bits.ToBytesOfFromBytes` | libteredo/relay.h:159-187 | every byte string is the encoding of its own value, so encodings of one width are unique |
| `Bits.FromBytesZero` | libteredo/relay.h:189-197 | a field's value is zero iff every one of its bytes is zero |
| `Bits.FromBytesNot` | libteredo/relay.h:179-187 | complementing every stored byte complements the field's value within its width |
| `Bits.Not16Bytes` | libteredo/relay.h:179-182 | the bytes of the complemented 16-bit port are the complemented bytes of the port |
| `Bits.Not32Bytes` | libteredo/relay.h:184-187 | the bytes of the complemented 32-bit IPv4 are the complemented bytes of the IPv4 |
| `TeredoAddr.Prefix` | libteredo/relay.h:159-162 | the prefix is the value whose network-order bytes are address bytes 0-3 |
| `TeredoAddr.ServerIP` | libteredo/relay.h:164-167 | the server IPv4 is the value whose network-order bytes are address bytes 4-7 |
| `TeredoAddr.IsCone` | libteredo/relay.h:174-177 | the cone flag is set iff the 16-bit flags field has its most significant bit set |
| `TeredoAddr.MappedPort` | libteredo/relay.h:179-182 | the mapped port, complemented, is what bytes 10-11 store, so its own bytes are the bitwise complement of those bytes |
| `TeredoAddr.MappedIP` | libteredo/relay.h:184-187 | the mapped IPv4, complemented, is what bytes 12-15 store, so its own bytes are the bitwise complement of those bytes |
| `TeredoAddr.Encode` | libteredo/relay.h:159-187 | encoding fields (port and IPv4 obfuscated) and reading them back with the extractors gives every field back un-complemented |
| `TeredoAddr.Decode` | libteredo/relay.h:159-187 | re-encoding the fields read from any address gives that same address back |
| `TeredoAddr.DecodeEncode` | libteredo/relay.h:159-187 | decoding an encoded address is the identity on fields |
| `TeredoAddr.SameFieldsSameAddress` | libteredo/relay.h:159-187 | two addresses on which all five extractors agree are equal, so every byte belongs to some field |
| `TeredoAddr.DecodeInjective` | libteredo/relay.h:159-187 | two addresses have the same fields iff they are the same address |
| `TeredoAddr.ExtractorsReadOwnField` | libteredo/relay.h:159-187 | each extractor reads one fixed field: addresses that agree on that field's bytes agree on it |
| `TeredoAddr.ConeOfEncode` | libteredo/relay.h:174-177 | an encoded address is cone iff the top bit of the flags it was given is set |
| `TeredoAddr.ServerIPZero` | libteredo/relay.h:164-167 | the server IPv4 is zero iff its four bytes are all zero |
| `Relay.StoreState` | libteredo/relay.h:55 | storing into the 2-bit phase keeps the value modulo 4 and leaves the other probe fields as they were |
| `Relay.StoreCount` | libteredo/relay.h:56 | storing into the 3-bit counter keeps the value modulo 8 and leaves the other probe fields as they were |
| `Relay.StoreInRange` | libteredo/relay.h:55-56 | a phase below 4 and a count below 8 are stored unchanged |
| `Relay.StoreWraps` | libteredo/relay.h:55-56 | the phase wraps at 4 and the counter wraps at 8 |
| `Relay.GetPrefix` | libteredo/relay.h:159-162 | returns the prefix held in the relay's address bytes 0-3 |
| `Relay.GetServerIP` | libteredo/relay.h:164-167 | returns the server IPv4 held in the relay's address bytes 4-7 |
| `Relay.GetServerIP2` | libteredo/relay.h:169-172 | returns the stored `server_ip2` field |
| `Relay.IsCone` | libteredo/relay.h:174-177 | true iff the cone bit of the relay's address flags is set |
| `Relay.GetMappedPort` | libteredo/relay.h:179-182 | returns the un-complemented port whose complement the relay's address bytes 10-11 hold |
| `Relay.GetMappedIP` | libteredo/relay.h:184-187 | returns the un-complemented IPv4 whose complement the relay's address bytes 12-15 hold |
| `Relay.IsClient` | libteredo/relay.h:189-192 | true iff some byte of the embedded server IPv4 is non-zero |
| `Relay.IsRelay` | libteredo/relay.h:194-197 | true iff every byte of the embedded server IPv4 is zero |
| `Relay.ClientXorRelay` | libteredo/relay.h:189-197 | exactly one of IsClient and IsRelay holds in every state |
| `Relay.ClientIffServerIP` | libteredo/relay.h:189-197 | IsClient iff the server IPv4 is non-zero; IsRelay iff it is zero |
| `Relay.IsRunning` | libteredo/relay.h:199-203 | a running relay has a prefix that `validPrefix` accepts and a probe in phase 0 |
| `Relay.RunningIffValidPrefixAndIdleProbe` | libteredo/relay.h:199-203 | the relay runs iff its prefix is valid and its probe is in phase 0: an invalid prefix or a non-zero phase is never running |
| `Relay.RunningReadsPrefixAndPhase` | libteredo/relay.h:199-203 | two states with the same prefix bytes and phase agree on IsRunning, whatever their other fields hold |
| `Relay.RunningAfterStoreState` | libteredo/relay.h:199-203 | after storing v into the phase, the relay runs iff its prefix is valid and v is 0 modulo 4 |
| `Relay.RunningIgnoresCount` | libteredo/relay.h:199-203 | storing any value into the retry counter never changes IsRunning |
| `Relay.ServerIP2IgnoresAddr` | libteredo/relay.h:169-172 | GetServerIP2 returns the stored field, and replacing the address does not change it |
| `Relay.AddressQueriesIgnoreProbe` | libteredo/relay.h:159-197 | the address queries and IsClient/IsRelay do not depend on the probe or on `server_ip2` |
| `Relay.QueriesOfEncodedAddress` | libteredo/relay.h:159-192 | a relay whose address encodes some fields reports those fields, port and IPv4 un-complemented, and is a client iff the server field is non-zero |

## Left out

- `SendPacket`, `ReceivePacket` and `Process` (libteredo/relay.h:135, 143, 152) are left out. They do UDP I/O, and their bodies are not part of this model.
- The peer list (`peer`, `head`, `AllocatePeer`, `FindPeer`) and the `OutQueue`/`InQueue` classes are left out. They are only declared in this header.
- The socket wrapper `sock`, `operator!` and `RegisterReadSet` are left out. They concern the socket and `fd_set` integration.
- `SendUnreach` is left out. It builds and sends ICMPv6.
- The host callbacks `SendIPv6Packet`, `NotifyUp` and `NotifyDown` are left out. Subclasses supply them.
- Both constructors are left out. Their bodies are not part of this model.
- The static tunables `QualificationRetries`, `QualificationTimeOut` and `RestartDelay` are left out. Only code outside this header reads them.
- Thread-safety and re-entrancy are left out. The model is a value with no concurrency.
- The `struct timeval` deadlines and the nonce are carried in `Probe` but never interpreted. They hold wall-clock time and randomness.
- `is_valid_teredo_prefix` is not part of this model. `IsRunning` takes it as a parameter, `validPrefix`, so it stays abstract and no prefix constant is assumed.
- The `IN6_TEREDO_*` macros and `union teredo_addr` are not part of this model. The extractors follow the layout of section 4 of RFC 4380.
- Byte order: the extractors return the numeric value of each network-order field. The C code returns the stored word as it is. The bits are the same, but on a little-endian host the two are different integers. Tests against zero agree either way. `IsRunning` also passes the prefix to `is_valid_teredo_prefix`; since the model takes that test as an arbitrary parameter `validPrefix`, a predicate on the stored word corresponds to one on the numeric value, so the model stays sound.
