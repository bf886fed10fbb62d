# Reference-counted blocklist snapshot

This project models the in-memory index behind the registry snapshot of
u2ckdump. The index maps each blocked value to the ids of the registry records
that name it. The values are IPv4 and IPv6 addresses, IPv4 and IPv6 subnets,
URLs, domains and decision digests.

- `RefCount` (set_string.dfy) is the reference-counted membership map
  (`StringIntSet`). Each value maps to the set of record ids that claim it.
  `Add` reports the first reference to a value and `Delete` reports the last
  one. The class `RefMap<K>` holds the map and updates it in place. It is
  generic over the key type, so it also stands for the `uint32`-keyed IPv4 map
  and the `uint64`-keyed decision map, which have the same shape. The functions
  `Inserted` and `Removed` give the map after each call. `Claims` is an
  independent reference definition: the relation of (value, id) pairs. The
  lemmas show that `Add` adds one pair, `Delete` removes one pair, and under the
  invariant the pairs determine the map.
- `Dump` (parse.dfy) is the snapshot container (`TDump`). It holds seven
  category maps, the CIDR trie `net` shared by IPv4 and IPv6 subnets (modelled
  as the set of subnet strings it holds), the `Content` record map and the
  registry update time `utime`. Its wrappers change only their own map. The
  subnet wrappers touch the trie only on the first-reference and
  last-reference edges. `Snapshot` is the value of the whole container and
  `Apply` gives the effect of one wrapper call. `Inv` is the invariant: every
  key has a claiming id, and the trie equals the union of the two subnet maps'
  keys. Every wrapper keeps it, and so does any sequence of wrapper calls.
  `Parse2` stamps every record and the snapshot with the registry update time.
- `Cidr` (cidr.dfy) gives the syntax of the subnet strings that Go's
  `net.ParseCIDR` accepts, following the address grammar of Go's `net/netip`
  parser. IPv6 fields count toward eight 16-bit fields, with at most one `::`
  and an optional dotted-quad tail. The wrappers need it because both families
  share one trie. It is proved that no string is a subnet of both families.
- `Ints` (ints.dfy) gives the Go integer types `int32`, `int64`, `uint32` and
  `uint64` as newtypes. The core does no arithmetic on them.

`NewStringSet` (set_string.go:7-9) builds an empty string-existence map, which
is modelled as `RefCount.NewStringSet` returning the empty set. Its size
argument is only a capacity hint.

When parsing fails, `AddSubnet` has already added the string to the subnet
map. The code logs the error and then dereferences the nil network
(parse.go:74-79). The model leaves this failure path out:
`AddSubnet`/`AddSubnet6` require a subnet string that `net.ParseCIDR` accepts.

## Model

| member | source | states |
|---|---|---|
| `RefCount.NewStringSet` | set_string.go:7-9 | the new existence map holds no string, for every size hint, which is only a capacity hint |
| `RefCount.RefMap.constructor` | parse.go:46-52 | a new map has no keys and meets the invariant |
| `RefCount.RefMap.Add` | set_string.go:32-44 | returns true exactly when `s` was not a key; afterwards `s` is a key whose collection is the old one plus `id`; every other key and its collection is unchanged; the non-empty invariant is kept |
| `RefCount.RefMap.Delete` | set_string.go:15-29 | on an absent key: returns false and changes nothing; otherwise returns true exactly when removing `id` empties the collection, and then the key is gone; when it returns false on a present key, `s` maps to the old collection minus `id`, which is non-empty; no other key changes; the invariant is kept |
| `RefCount.InsertedClaims` | set_string.go:35-41 | `Add` adds exactly the pair (`s`, `id`) to the claim relation |
| `RefCount.RemovedClaims` | set_string.go:16-25 | `Delete` removes exactly the pair (`s`, `id`) from the claim relation |
| `RefCount.KeyIffClaimed` | set_string.go:15-44 | under the invariant, a value is a key exactly when some id claims it |
| `RefCount.ClaimsDetermine` | set_string.go:12 | under the invariant, two maps with the same claim relation are equal, so the relation is a complete reference definition |
| `RefCount.InsertedKeepsNonEmpty` | set_string.go:35-41 | `Add` keeps every collection non-empty and leaves `id` in `s`'s collection |
| `RefCount.RemovedKeepsNonEmpty` | set_string.go:16-25 | `Delete` keeps every collection non-empty; `s` stays a key exactly when it was one and this was not its last reference |
| `RefCount.TwoClaimers` | set_string.go:15-44 | two different ids on a fresh value: the second `Add` is not a first reference; deleting one id keeps the key with the other id; deleting the second is the last reference and restores the original map |
| `RefCount.SharedValue` | set_string.go:15-44 | the same scenario through the class: first `Add` true, second false, first `Delete` false with the key kept, second `Delete` true |
| `Cidr.ShortAddressRejected` | parse.go:98-104 | `1:2/64` is not an IPv6 subnet: two fields without `::` do not fill eight |
| `Cidr.LongFieldRejected` | parse.go:98-104 | `12345::/8` is not an IPv6 subnet: a field has at most four hexadecimal digits |
| `Cidr.FamiliesDisjoint` | parse.go:73-121 | no string is both a well-formed IPv4 subnet and a well-formed IPv6 subnet, so the two subnet maps sharing one trie never hold the same string |
| `Dump.TDump.constructor` | parse.go:43-56 | all category maps, `Content` and the trie are empty, `utime` is 0, and the invariant holds |
| `Dump.EmptyInv` | parse.go:43-56 | the empty snapshot meets the invariant, trie synchrony included |
| `Dump.TDump.AddIp` | parse.go:58-60 | the IPv4 map gains the claim; nothing else changes |
| `Dump.TDump.DeleteIp` | parse.go:62-64 | the IPv4 map loses the claim; nothing else changes |
| `Dump.TDump.AddIp6` | parse.go:66-68 | the IPv6 address map gains the claim; nothing else changes |
| `Dump.TDump.DeleteIp6` | parse.go:69-71 | the IPv6 address map loses the claim; nothing else changes |
| `Dump.TDump.AddSubnet` | parse.go:73-84 | the IPv4 subnet map gains the claim; the trie gains `s` exactly when it was not a key before, and is otherwise untouched; nothing else changes; the invariant is kept |
| `Dump.TDump.DeleteSubnet` | parse.go:85-96 | the IPv4 subnet map loses the claim; the trie loses `s` exactly when this was its last reference, and is otherwise untouched; nothing else changes; the invariant is kept |
| `Dump.TDump.AddSubnet6` | parse.go:98-109 | as `AddSubnet`, for the IPv6 subnet map |
| `Dump.TDump.DeleteSubnet6` | parse.go:110-121 | as `DeleteSubnet`, for the IPv6 subnet map |
| `Dump.TDump.AddUrl` | parse.go:123-125 | the URL map gains the claim; nothing else changes |
| `Dump.TDump.DeleteUrl` | parse.go:126-128 | the URL map loses the claim; nothing else changes |
| `Dump.TDump.AddDomain` | parse.go:130-132 | the domain map gains the claim; nothing else changes |
| `Dump.TDump.DeleteDomain` | parse.go:133-135 | the domain map loses the claim; nothing else changes |
| `Dump.TDump.AddDecision` | parse.go:137-139 | the decision map gains the claim; nothing else changes |
| `Dump.TDump.DeleteDecision` | parse.go:140-142 | the decision map loses the claim; nothing else changes |
| `Dump.ClaimKeepsTrie` | parse.go:73-84 | inserting into the trie on the first-reference edge keeps the trie equal to the union of the subnet keys |
| `Dump.ReleaseKeepsTrie` | parse.go:85-96 | removing from the trie on the last-reference edge keeps the trie equal to the union of the subnet keys, provided the other subnet map does not hold the same string |
| `Dump.SubnetChangeKeepsInv` | parse.go:73-121 | each of the four subnet wrappers keeps the snapshot invariant, including trie = keys(subnet) ∪ keys(subnet6) |
| `Dump.ApplyKeepsInv` | parse.go:58-142 | every wrapper call keeps the snapshot invariant: non-empty collections, subnet keys of their own family, trie = keys(subnet) ∪ keys(subnet6) |
| `Dump.ApplyAllKeepsInv` | parse.go:58-142 | any sequence of wrapper calls keeps the snapshot invariant |
| `Dump.OnlyOwnCategory` | parse.go:58-142 | a wrapper other than the four subnet wrappers changes neither the trie, the subnet maps, `Content` nor `utime` |
| `Dump.SharedSubnet` | parse.go:73-96 | a subnet claimed by two records stays in the trie after one release and leaves it after both, which restores the trie |
| `Dump.SharedSubnetInTrie` | parse.go:73-96 | the same scenario through the class, on a new snapshot |
| `Dump.TDump.Parse2` | parse.go:152-159 | every record in `Content` gets `RegistryUpdateTime` = the given time, and `utime` is set to it; no `Content` key is added or removed and no category map or the trie changes |

## Left out

- The reconciliation pass `Parse` and the `Stats` counters it updates: the source of `Parse` is not part of this model. The fixtures and assertions of parse_xml_test.go are not modelled either.
- Locking: the `sync.RWMutex` of `TDump` and its use in `Parse2` are concurrency. `Parse2` is a plain sequential method.
- `Parse2` works on the global `DumpSnap` in the source. Here it is a method of `TDump`.
- CIDR parsing and the trie internals belong to foreign code (`net.ParseCIDR`, cidranger). The trie is the set of subnet strings it holds, and distinct strings are taken to denote distinct networks. In Go, a string with host bits set, such as 10.4.0.1/16, names the same network as 10.4.0.0/16. The model does not capture that.
- `Cidr.Cidr4` and `Cidr.Cidr6` follow the grammar of current Go releases, where `net.ParseCIDR` reads the address with `net/netip`. Older releases also accepted IPv4 octets with leading zeros and IPv6 fields of more than four digits with leading zeros; the model does not. Zones (`%eth0`) are refused, as `net.ParseCIDR` refuses them.
- The trie's `Insert`/`Remove` error results are only logged in the source. The model takes them to succeed. Under the invariant, `Insert` only sees an absent subnet and `Remove` only a present one.
- Dump.TDump.AddSubnet: requires `Cidr4(s)` and `AddSubnet6` requires `Cidr6(s)`. In the source, a failed parse dereferences a nil network (parse.go:75-79). A string of the wrong family would parse, but it would let the two subnet maps share a key and desynchronise the shared trie.
- `ArrayIntSet` is a set of ids here. The order of ids in the source's array, and how it treats a repeated `Add`, are not modelled; its code is not part of this model. `IP4Set` and `DecisionSet` are assumed to have the same `Add`/`Delete` shape.
- `MinContent` has only its `RegistryUpdateTime` field here; its other fields are not part of this model. A nil pointer in `Content` is not modelled.
- Logging through `Debug` and `logInit` is I/O.
