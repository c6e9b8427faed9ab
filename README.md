# snet IPv4 subnet calculator, in Dafny

This project models the IPv4 core of `snet`, a command-line subnet calculator.
A network is given by a base address and a subnet mask length, in CIDR notation
such as `192.168.147.0/28`. From it the calculator derives:

- the classful network class (A to E);
- the net mask and the subnet mask;
- the number of subnets and the number of hosts per subnet;
- the list of subnet addresses;
- the full listing of the network, where each address is labelled network,
  subnet, host, subnet broadcast or network broadcast.

A network is only created if its mask length is at most 32 and its base address
is not reserved. The reserved addresses are the loopback block 127/8 and the
local broadcast address 255.255.255.255. A network can be built from four octets
and a mask length, or parsed from `A.B.C.D/len` text.

Addresses and masks are 32-bit words (`bv32`). Octets and mask lengths are
bytes (`bv8`). So the shifts, complements and 32-bit subtractions of the source
are written with the same operators. Their integer meaning is given by
`Words.Value`, a bit-by-bit reading of a word, and by `Words.Word`, its inverse.

Modules, in dependency order:

- `Wrappers`: Option and Result.
- `Words`: word arithmetic, powers of two, prefix masks, ranges and zero counts.
- `Decimal`: decimal text of numbers, and the `u8` parser that `str::parse` provides.
- `Patterns`: the first-match scan over (mask, pattern) tables.
- `Classes`: the network classes.
- `Reserved`: the reserved addresses.
- `Errors`: the three construction errors.
- `Address`: octets, dotted-decimal and binary text, and the roles in a listing.
- `Networks`: the network value, its masks, its counts and its summary text.
- `Enumerations`: `subnets()` and `addresses()` as finite sequences.
- `Cidr`: parsing of `A.B.C.D/len`.
- `Examples`: the unit tests of `ipv4.rs`, derived from the general definitions.

## Model

| member | source | states |
|---|---|---|
| Patterns.FirstMatch | snet/src/ipv4.rs:63-72 | The scan returns the first table entry, in table order, whose pattern the address carries; it returns None exactly when no entry matches. |
| Classes.ExactlyOneClass | snet/src/ipv4.rs:30-60 | For every 32-bit address, exactly one of the five (mask, pattern) pairs matches: the one its leading bits select. |
| Classes.ScanFindsLeadingBitsClass | snet/src/ipv4.rs:63-72 | The scan in the order E, D, C, B, A always finds a class, so `unreachable!()` is dead code. |
| Classes.Classify | snet/src/ipv4.rs:63-72 | `Class::from` gives the class that the leading bits determine (0, 10, 110, 1110, 1111). |
| Classes.ClassifyExclusive | snet/src/ipv4.rs:63-72 | The class found matches its own pattern, and any class whose pattern matches is that class. |
| Classes.ClassExamples | snet/src/ipv4.rs:373-388 | The tests' class table: 125.0.0.0 is A, 128.122.0.0 is B, 192.168.147.0 is C, 224.12.98.255 is D and 255.255.255.254 is E. |
| Reserved.LoopbackFacts | snet/src/ipv4.rs:103-115 | The loopback entry matches exactly the addresses with leading octet 127; the local broadcast entry matches only all-ones. |
| Reserved.Detect | snet/src/ipv4.rs:86-116 | The result is LocalBroadcast iff the address is 255.255.255.255, Loopback iff its leading octet is 127, and None otherwise. |
| Address.OctetsOfAssemble | snet/src/ipv4.rs:137-147 | Display's octets `x >> 8k & 0xFF` of the address assembled from a, b, c and d (each shifted into its byte and or-ed together) are a, b, c and d again. |
| Address.AssembleOctets | snet/src/ipv4.rs:254-257 | Assembling an address's own four octets gives the address back. |
| Address.LeadingOctet | snet/src/ipv4.rs:254-261 | The leading octet of an assembled address is the first part, and the address is all ones iff all four parts are 255. |
| Address.Assemble | snet/src/ipv4.rs:254-257 | The address assembled from four octets. Its contract is given by OctetsOfAssemble and AssembleOctets, which make it a bijection between octet quadruples and addresses. |
| Address.Octet | snet/src/ipv4.rs:141-144 | Octet k of an address, `x >> 8k & 0xFF`. Its contract is given by OctetsOfAssemble and AssembleOctets, as the inverse of Assemble. |
| Address.DottedDecimal | snet/src/ipv4.rs:137-147 | The `Display` text of an address. Cidr.DottedDecimalJoin states that it is the four octet texts joined with '.'. Cidr.ParseDisplayed states that, for the base address of a valid network, followed by '/' and the mask length, it parses back to that network. |
| Address.BinaryDigitsMeaning | snet/src/ipv4.rs:149-153 | Digit i of the k-digit zero-padded binary text of n is '1' when n / 2^(k - 1 - i) is odd and '0' otherwise, so every digit is '0' or '1'. |
| Address.BinaryBits | snet/src/ipv4.rs:149-153 | Digit 31 - i of the `{:032b}` text of an address is '1' exactly when bit i of the address is set. |
| Address.FromBinaryBinary | snet/src/ipv4.rs:149-153 | Reading the binary text back gives the address, so the text determines the address. |
| Address.AddressType.Label | snet/src/ipv4.rs:176-186 | The display text of a role: a constant string per kind, and a network's class label. LabelDeterminesKind states that it distinguishes every kind and every network class. |
| Address.LabelDeterminesKind | snet/src/ipv4.rs:176-186 | Two roles show the same label exactly when they are of the same kind, and for networks of the same class, whose label a network shows. |
| Errors.Error.Message | snet/src/errors.rs:7-12 | The display text of an error: two constant strings, and a fixed prefix followed by the reserved kind's label. MessageDeterminesError states that it distinguishes every error. |
| Errors.MessageDeterminesError | snet/src/errors.rs:7-12 | Two errors show the same message exactly when they are the same error, including the reserved kind that the third message shows. |
| Networks.FromParts | snet/src/ipv4.rs:243-267 | A mask length over 32 gives InvalidSubnetMask before any reserved check. Otherwise 127.x.x.x gives Loopback and 255.255.255.255 gives LocalBroadcast. Ok exactly otherwise, storing the mask length and the assembled octets unchanged. |
| Networks.FromOwnParts | snet/src/ipv4.rs:243-267 | Every network is rebuilt from its own four octets and mask length. |
| Networks.NetworkClass | snet/src/ipv4.rs:269-271 | `class()` is the class of the base address. Classes.Classify states it: the class its leading bits determine. |
| Networks.NetMask | snet/src/ipv4.rs:273-277 | There is a net mask exactly for classes with network bits (A, B, C). |
| Networks.NetMaskIsPrefix | snet/src/ipv4.rs:273-277 | The net mask is n leading ones then zeros; for A, B and C it is 0xFF000000, 0xFFFF0000 and 0xFFFFFF00. |
| Networks.SubnetMask | snet/src/ipv4.rs:279-285 | The subnet mask is 0 iff the mask length is 0. |
| Networks.SubnetMaskIsPrefix | snet/src/ipv4.rs:279-285 | The subnet mask has exactly len leading ones followed by zeros. |
| Networks.SubnetMaskZeros | snet/src/ipv4.rs:297 | `count_zeros` of a nonzero subnet mask is 32 - len. |
| Networks.NumSubnets | snet/src/ipv4.rs:287-299 | None for classes D and E; Some(0) without a subnet mask; otherwise 2^(len - n) - 2 for n network bits. |
| Networks.SubnetCount | snet/src/ipv4.rs:292-298 | `((net_mask ^ subnet_mask) >> count_zeros) - 1` denotes 2^(len - n) - 2 when the subnet mask is longer than the net mask. |
| Networks.SubnetCountValue | snet/src/ipv4.rs:297 | The same count, computed on the masks with the zero count given. |
| Networks.NumHostsPerSubnet | snet/src/ipv4.rs:301-309 | 0 when len is over 30; 2^(32 - len) - 2 when len is from 1 to 30; with len 0, `!net_mask - 1` (2^(32 - n) - 2), or 2^28 - 2 from the class mask for D and E. |
| Networks.SummaryWithoutCounts | snet/src/ipv4.rs:197-212 | For classes D and E the summary shows the class and "N/A" for both counts. |
| Networks.Summary | snet/src/ipv4.rs:197-212 | The `Display` text of a network. SummaryWithCounts and SummaryWithoutCounts state what it shows. |
| Networks.SummaryWithCounts | snet/src/ipv4.rs:197-212 | For classes A, B and C with n network bits and mask length len, the summary is the class label, then 2^(len - n) - 2 subnets (0 without a subnet mask), then 2^(32 - len) - 2 hosts per subnet. Hosts are 0 for masks over 30 bits, and 2^(32 - n) - 2 without a subnet mask. Both counts are in decimal. |
| Decimal.ToDecimal | snet/src/ipv4.rs:139-145 | The decimal text of a number, as `{}` prints an integer. ToDecimalMeaning states it. |
| Decimal.ToDecimalMeaning | snet/src/ipv4.rs:139-145 | The decimal text of n is nonempty, all digits, denotes n and has no leading zero. |
| Decimal.ParseU8 | snet/src/ipv4.rs:225-230 | `str::parse::<u8>`. ParseU8Meaning states it. |
| Decimal.ParseU8Meaning | snet/src/ipv4.rs:225 | `u8` parsing succeeds iff, after an optional '+', the text is one or more digits denoting at most 255; the value is what the digits denote. |
| Decimal.ParseU8ToDecimal | snet/src/ipv4.rs:225 | Parsing the decimal text of a byte gives the byte back. |
| Decimal.ParseU8AcceptsSignAndZeros | snet/src/ipv4.rs:225 | "+7" and "007" both parse as 7. |
| Decimal.ParseU8Bound | snet/src/ipv4.rs:230 | "255" parses and "256" does not. |
| Decimal.ParseU8Rejects | snet/src/ipv4.rs:225 | The empty text, a lone '+', a minus sign and a trailing letter are rejected. |
| Cidr.Split | snet/src/ipv4.rs:219-224 | `split` gives at least one piece, and no piece contains the separator. |
| Cidr.JoinSplit | snet/src/ipv4.rs:219-224 | Joining the pieces with the separator gives the text back. |
| Cidr.SplitJoin | snet/src/ipv4.rs:219-224 | Pieces free of the separator, joined and split again, come back unchanged. |
| Cidr.SplitAfter | snet/src/ipv4.rs:219-222 | A separator-free prefix followed by the separator splits off as the first piece. |
| Cidr.ParseOctets | snet/src/ipv4.rs:224-226 | `collect` over the parsed tokens succeeds iff every token parses. Then it holds one octet per token, in order. |
| Cidr.ParseNetwork | snet/src/ipv4.rs:214-240 | `Network::try_from(&str)`. ParseWellFormed, ParseInvalidAddress, ParseIgnoresRest and ParseNeedsMask state it. |
| Cidr.ParseWellFormed | snet/src/ipv4.rs:214-240 | With one '/', four dot-separated tokens that each parse as a u8 and a mask that parses as a u8, the text parses to what `from_dotted_decimal_parts` returns for the parsed values. |
| Cidr.ParseCidrText | snet/src/ipv4.rs:214-240 | The text `a.b.c.d/len` of any octets and mask length parses to what `from_dotted_decimal_parts` returns for them. This covers InvalidSubnetMask for lengths 33 to 255. |
| Cidr.ParseDisplayed | snet/src/ipv4.rs:137-147 | Every network parses back from its dotted-decimal address followed by '/' and its mask length. |
| Cidr.ParseInvalidAddress | snet/src/ipv4.rs:217-236 | With one '/', parsing yields InvalidAddress iff the address part has a dot-token count other than 4, a token that is not a u8, or a mask that is not a u8. |
| Cidr.ParseIgnoresRest | snet/src/ipv4.rs:218-232 | Everything after a second '/' is ignored. |
| Cidr.ParseNeedsMask | snet/src/ipv4.rs:227-229 | Text without '/' is an InvalidAddress. |
| Cidr.ParseMaskLength | snet/src/ipv4.rs:227-238 | A mask that is no u8 (256 and above, or not a number) gives InvalidAddress; a u8 above 32 gives InvalidSubnetMask. |
| Enumerations.Subnets | snet/src/ipv4.rs:311-317 | No subnets for classes D and E or without a subnet mask. Otherwise exactly 2^(len - n) - 2, the subnet count. |
| Enumerations.SubnetList | snet/src/ipv4.rs:313-316 | Entry j is the base or-ed with j + 1 shifted left by 32 - len, for the range `1..=count`. |
| Enumerations.SubnetsKeepNetworkPart | snet/src/ipv4.rs:311-317 | For every base address, each subnet address has the base's bits under the class net mask. |
| Enumerations.SubnetsKeepHostBits | snet/src/ipv4.rs:311-317 | For every base address, each subnet address has the base's host bits, those the subnet mask leaves out. |
| Enumerations.SubnetsHaveNoHostBits | snet/src/ipv4.rs:311-317 | When the base has zero bits outside the class net mask, every subnet address has zero host bits under the subnet mask. |
| Enumerations.SubnetsNumbered | snet/src/ipv4.rs:311-317 | When the base has zero bits outside the class net mask, the subnet field of the j-th address (from 0) holds j + 1. |
| Enumerations.SubnetsDistinct | snet/src/ipv4.rs:311-317 | When the base has zero bits outside the class net mask, the subnet addresses are pairwise distinct. |
| Enumerations.RoleByValue | snet/src/ipv4.rs:338-345 | With a mask of len bits, let p = 2^(32 - len) be the size of a subnet. An address is a subnet broadcast iff its value mod p is p - 1, a subnet iff its value mod p is 0 and len < 32, and a host iff its value mod p lies strictly between 0 and p - 1. |
| Enumerations.ListedRole | snet/src/ipv4.rs:336-346 | When the base has no host bits, the i-th listed address `base + !subnet_mask + i` has the label that PositionLabel gives i. |
| Enumerations.Listing | snet/src/ipv4.rs:336-346 | `(1..count)` has count - 1 entries. Entry j is the role of `base + !subnet_mask + (j + 1)`. |
| Enumerations.Addresses | snet/src/ipv4.rs:319-349 | The network and its class come first, alone for D and E. For A, B and C, 2^(32 - n) - 2 * 2^(32 - len) + 2 entries in all. The network broadcast, the base or-ed with `!net_mask`, comes last. Every entry between is the role of its listed address. |
| Enumerations.AddressCountOf | snet/src/ipv4.rs:330-331 | `!net_mask - 2 * !subnet_mask` denotes 2^(32 - n) - 2 * 2^(32 - len) + 1 and is not 0. |
| Enumerations.AddressesByPosition | snet/src/ipv4.rs:336-346 | When the base has no host bits, an entry's role follows from its position j alone. j mod 2^(32 - len) = 1 is a subnet, 0 a subnet broadcast, anything else a host. |
| Enumerations.AddressesConsecutive | snet/src/ipv4.rs:336-337 | The listed addresses are consecutive: each is one more than the one before. |
| Enumerations.PositionLabel | snet/src/ipv4.rs:339-345 | The reference labelling by position, which AddressesByPosition and ListedRole compare the listing with. Its ensures says the label is one of subnet broadcast, subnet or host. |
| Examples.FromPartsExample | snet/src/ipv4.rs:365-370 | Parts (192, 168, 147, 0, 28) give address 0xC0A89300 with mask length 28. |
| Examples.ParseExample | snet/src/ipv4.rs:357-363 | "192.168.147.0/28" parses to what the parts (192, 168, 147, 0, 28) build. |
| Examples.ParseLenientExample | snet/src/ipv4.rs:214-240 | "192.168.147.00/+28" parses to what the parts (192, 168, 147, 0, 28) build, because `u8` parsing takes leading zeros and a '+' sign. |
| Examples.ParseClassC | snet/src/ipv4.rs:420-456 | "192.168.147.0/len" parses to that class C network, for every mask length up to 32. |
| Examples.ParseClassA | snet/src/ipv4.rs:373-388 | "125.0.0.0/0" parses to 0x7D000000 with mask length 0. |
| Examples.ParseClassB | snet/src/ipv4.rs:373-388 | "128.122.0.0/0" parses to 0x807A0000 with mask length 0. |
| Examples.ParseClassD | snet/src/ipv4.rs:373-388 | "224.12.98.255/0" parses to 0xE00C62FF with mask length 0. |
| Examples.ParseClassE | snet/src/ipv4.rs:373-388 | "255.255.255.254/32" parses to 0xFFFFFFFE with mask length 32. |
| Examples.ParseReserved | snet/src/ipv4.rs:390-403 | "127.0.0.1/0" fails with Loopback and "255.255.255.255/32" with LocalBroadcast. |
| Examples.ParseMaskBeforeReserved | snet/src/ipv4.rs:250-261 | "127.0.0.1/33" fails with InvalidSubnetMask, not with Loopback. |
| Examples.MasksExample | snet/src/ipv4.rs:405-418 | For 192.168.147.0/28 the net mask is 0xFFFFFF00 and the subnet mask 0xFFFFFFF0. |
| Examples.SubnetCountTable | snet/src/ipv4.rs:420-437 | On 192.168.147.0 the subnet counts are: /0 gives 0, /27 6, /28 14, /30 62, /31 126, /32 254. |
| Examples.HostCountTable | snet/src/ipv4.rs:439-456 | On 192.168.147.0 the hosts per subnet are: /0 gives 254, /27 30, /28 14, /30 2, /31 0, /32 0. |
| Examples.SummaryExample | snet/src/ipv4.rs:458-467 | 192.168.147.0/28 is shown as "class C network", "Subnets:      14", "Hosts/subnet: 14". |
| Examples.SubnetsExample | snet/src/ipv4.rs:469-493 | The subnets of 192.168.147.0/28 are 192.168.147.16, .32, …, .224. |
| Examples.UnalignedSubnetsRepeat | snet/src/ipv4.rs:311-317 | For 192.168.13.160/28, whose base has bits set in the subnet field, `subnets()` lists 192.168.13.176 both first and third. |
| Examples.FirstSubnetText | snet/src/ipv4.rs:476 | The first of them displays as "192.168.147.16". |
| Examples.AddressesClassCEnds | snet/src/ipv4.rs:495-510 | The listing of 192.168.147.0/28 has 226 entries. It starts with "class C network" and ends with "network broadcast". |
| Examples.AddressesClassCRoles | snet/src/ipv4.rs:500-508 | Entries 1, 2, 15, 16, 17, 18 and 224 are subnet, host, host, subnet broadcast, subnet, host and subnet broadcast. |
| Examples.ParseClassDExample | snet/src/ipv4.rs:512-515 | "224.12.98.255/28" parses. |
| Examples.AddressesClassD | snet/src/ipv4.rs:512-519 | That class D network lists only itself, labelled "class D network". |

## Left out

- Networks.NumSubnets: `HasSubnetCount` is a precondition. Without it, a mask length from 1 to the class's network bits makes the `- 1` underflow. Rust panics in debug builds and wraps in release builds, and neither is modelled.
- Enumerations.Subnets: has the same precondition, because it counts through `num_subnets()`.
- Enumerations.Addresses: `HasAddressList` is a precondition. Without it, a class A, B or C mask length up to the network bits makes `!net_mask - 2 * !subnet_mask` leave the 32-bit range. Without a subnet mask, `2 * !subnet_mask` overflows. For a mask of 1 to n bits, the subtraction underflows.
- Networks.Summary: `HasSubnetCount` is a precondition, as for NumSubnets, whose count it shows. It has no `ensures` of its own. SummaryWithCounts states it for classes A, B and C, and SummaryWithoutCounts for classes D and E.
- Cidr.ParseNetwork: has no `ensures` of its own. For text with one '/', ParseWellFormed and ParseInvalidAddress state it. ParseIgnoresRest covers more than one '/', and ParseNeedsMask covers none.
- Laziness: `subnets()` and `addresses()` return lazy iterators (`impl Iterator`, `Box<dyn Iterator>`), which are modelled as finite sequences. Laziness cannot be observed.
- Address's `Debug` output is not modelled. It pads with the formatter's width and fill settings.
- Rust's generic `str::parse` is not modelled in general. Only its `u8` instance is modelled: an optional '+', then ASCII digits, with value at most 255.
- `strum` display derivation is not modelled. Its labels are constant strings.
- `thiserror` is not modelled. The error messages are constant strings in `Errors.Error.Message`.
- `snet4/src/main.rs`, the command-line front end, is not part of this model. Its argument handling and printing are I/O.
- Examples.SubnetsExample: states the subnet addresses as words. Of their dotted-decimal texts, only the first is spelled out, in FirstSubnetText. DottedDecimal gives the rest.
