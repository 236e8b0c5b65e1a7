# IPv4 subnet calculator and last digit of a large power, in Dafny

This project models two small Python programs and proves what they compute.

**ip_calculator.py** is an IPv4 subnet calculator. It takes an address such as `192.168.1.10/24` and derives several figures from it:

- the network and broadcast addresses;
- the network class;
- the netmask;
- the minimum and maximum host addresses;
- the number of hosts.

Each address figure comes in two views: a dotted string of 8-bit binary octets (`bin`) and a dotted string of decimal octets (`dec`).

The model follows the source's string handling step by step. Python's `split`, `join`, `replace`, `count`, slicing, padding, `int` and `str` become functions over `string`, in `text.dfy` and `binary.dfy`. The calculator's own functions are in `ip_calculator.dfy`:

- `dec2binary`, `validate`, `get_net_address` and `get_broadcast_address` contain loops. They are methods, and each one is proved against a specification function.
- The other calculator functions are pure functions over the same strings.

`ip_properties.dfy` relates these string functions to the four octet values of an address and to its 32-bit view. `subnet.dfy` composes them the way `subnet_calculator` does.

The model keeps the source's behaviour where it departs from textbook subnetting:

- A prefix that is a multiple of 8 (/8, /16, /24, /32) also overwrites the octet just before the prefix boundary. For example, 192.168.1.10/24 gives the network 192.168.0.0.
- Class B is never named. The test for a leading `0` comes before the test for `01`, so `'01'` can never match.
- The minimum host reads the network's last octet bit string as a decimal number before adding one. This is harmless when the octet is 0 (always the case for a prefix of at most 24), but an octet `00000100` becomes 101.
- The host count for /32 is −1.

**last_digit_of_a_large_number.py** finds the last digit of `n1 ** n2` by looking it up in a table. The table holds the cycle of last digits that the powers of each digit run through. The model proves that the lookup agrees with the power for every positive exponent.

As written, the table literal lacks a comma after the row for 8, so the file does not parse. The model uses the evidently intended table.

## Model

| member | source | states |
|---|---|---|
| `Binary.Dec2Binary` | ip_calculator.py:93-98 | `dec2binary(num, length)` terminates for num ≥ 0. Its result is binary digits whose base-2 value is num: exactly `length` of them when num < 2^length, more (never truncated) otherwise |
| `Binary.ToBinaryValue` | ip_calculator.py:93-98 | the rendering reads back as num; its length is `length` exactly when num < 2^length, greater otherwise; for num = 0 it is `length` zeros |
| `Binary.BitsValue` | ip_calculator.py:94-97 | the digits the loop collects read back as n; they begin with '1' and are empty only for n = 0 |
| `Binary.ToBinaryOfValue` | ip_calculator.py:93-98 | round trip: any binary string is `dec2binary` of its own base-2 value at its own width |
| `Binary.FromBinaryInjective` | ip_calculator.py:113 | two binary strings of one width with the same `int(s, 2)` are equal |
| `Binary.FromBinaryBound` | ip_calculator.py:113 | `int(s, 2)` of a w-digit binary string is below 2^w |
| `Binary.FromBinaryAppend` | ip_calculator.py:113 | the base-2 value of a concatenation is the head's value shifted by the tail's width, plus the tail's value |
| `Binary.BinaryPrefix` | ip_calculator.py:128-137 | a binary string starts with t exactly when its value lies in t's block [t·2^r, (t+1)·2^r) (`InBlock`) |
| `Binary.PadRightValue` | ip_calculator.py:112-113 | `f'{s:0<8}'` (or with '1') read with `int(…, 2)` is s's value shifted left by the added width, plus all-ones in the added bits when the fill is '1' |
| `Text.JoinSplit` | ip_calculator.py:72-75 | `Split` keeps every character of its input: joining the fields of `s.split(sep)` with sep gives s back, as Python's `sep.join(s.split(sep)) == s` |
| `Text.SplitJoin` | ip_calculator.py:121 | splitting a join of separator-free fields gives the fields back |
| `Text.ToDecimalValue` | ip_calculator.py:122 | `str(n)` read back with `int` is n, and has no leading zero |
| `Text.CountRemove` | ip_calculator.py:198 | removing the dots leaves the count of every other character unchanged, so `mask_bin.count('0')` on the dotted mask counts the '0's of its 32 bits (used by `HostsNumberOfMask`) |
| `IpCalculator.Validate` | ip_calculator.py:71-90 | true exactly when there are four dot-separated parts, each numeric and in [0, 255], and the prefix is in [0, 32] (32 accepted). Every check runs; none stops early |
| `IpCalculator.GetNetAddress` | ip_calculator.py:101-123 | the loop that clones and overwrites the octets returns the views of `NetOctets`: host octets 0 and the boundary octet's net part kept |
| `IpCalculator.GetBroadcastAddress` | ip_calculator.py:151-173 | same as the network address, with host octets 255 and the boundary octet padded with ones |
| `IpCalculator.OctetIndex` | ip_calculator.py:108-110 | `ceil(mask_short / 8) - 1` as a list index is always one of the four octets; -1 for /0 is the last octet |
| `IpCalculator.NetPart` | ip_calculator.py:110-113 | the rewritten boundary octet, defined on values: the octet rounded down to a multiple of 2^(8 − net_bytes), plus 2^(8 − net_bytes) − 1 when padding with '1'; it is again an octet (below 256) |
| `IpCalculator.NetPartString` | ip_calculator.py:110-113 | the source's string steps (`dec2binary(octet, 8)`, keep the first net_bytes characters, right-pad with the pad character to 8, `int(…, 2)`) give exactly the value `NetPart` defines, below 256 |
| `IpCalculator.OverwrittenByLoop` | ip_calculator.py:115-119 | four octets holding the host fill from octet_number on, the string-built boundary octet at octet_number − 1 and the input elsewhere are `Overwritten` |
| `IpCalculator.GetNetClass` | ip_calculator.py:126-137 | class B is never returned |
| `IpCalculator.GetNetMask` | ip_calculator.py:140-148 | no contract of its own: `NetMaskOfOctets` proves that for n ≤ 32 it is `Render(MaskOctets(n))`, the views of the octets 256 − 2^(8 − MaskOnes(n, i)); `NetMaskBits` and `NetMaskDecimal` give its two views part by part |
| `IpCalculator.GetMinHost` | ip_calculator.py:176-184 | no contract of its own: `NetworkMinHost` proves that on the network address it is `MinHostViews` of the network's 32 bits, which is the network with last octet 1 whenever that octet is 0; `MinHostOfOctets` gives it for any last octet, including the base-10 reading |
| `IpCalculator.GetMaxHost` | ip_calculator.py:187-194 | no contract of its own: `MaxHostOfRendering` proves that for a nonzero last octet it is the address with that octet one less, in both views; `BroadcastMaxHost` proves the broadcast address always qualifies |
| `IpCalculator.MinHostBits` | ip_calculator.py:177 | the cut-and-padded `min_host_bin` is a binary string of at least 32 characters |
| `IpCalculator.MinHostLast` | ip_calculator.py:179 | the new last part of the minimum host is a binary string |
| `IpCalculator.MaxHostBits` | ip_calculator.py:188-189 | `max_host_bin` keeps the 0/1/dot alphabet of the broadcast string |
| `IpCalculator.GetHostsNumber` | ip_calculator.py:197-198 | the host count is never below −1 |
| `IpProperties.RenderAgrees` | ip_calculator.py:120-123 | the `bin` and `dec` views describe the same four octets. Their parts are the 8-bit and decimal renderings, which read back (base 2, base 10) as the octets |
| `IpProperties.RenderFlat` | ip_calculator.py:121 | the `bin` view is the four 8-bit blocks joined by dots; with the dots removed it is the 32-bit address |
| `IpProperties.OverwrittenBits` | ip_calculator.py:106-119 | bit by bit, the network (broadcast) address keeps the bits the rewrite does not reach and has 0 (1) everywhere else |
| `IpProperties.OverwrittenOctets` | ip_calculator.py:115-119 | octets past the boundary become 0 / 255, octets before it are copied, and for a prefix 8k (k = 1..4) octet k − 1 is forced to 0 / 255 as well |
| `IpProperties.NetAddressBits` | ip_calculator.py:101-123 | for prefix 0 or a prefix not divisible by 8, the network address is the input with every bit from the prefix on cleared and every other bit kept |
| `IpProperties.BroadcastAddressBits` | ip_calculator.py:151-173 | same as the network address, with every bit from the prefix on set |
| `IpProperties.Slash24Example` | ip_calculator.py:115-119 | 192.168.1.10/24 gives network 192.168.0.0 and broadcast 192.168.255.255 |
| `IpProperties.LeadingBitTests` | ip_calculator.py:128-137 | each leading-bit test on an 8-bit octet holds exactly when the octet's value lies in the matching range |
| `IpProperties.NetClassOfOctet` | ip_calculator.py:126-137 | for first octet v: A below 128, nothing for 128–191, C for 192–223, D for 224–239, E for 240–255 |
| `IpProperties.NetClassOfAddress` | ip_calculator.py:126-137 | the class of an address's `bin` view is decided by its first octet as above |
| `IpProperties.MaskBitsShape` | ip_calculator.py:141 | for n ≤ 32, `mask_bin` is n ones followed by 32 − n zeros |
| `IpProperties.MaskPartsShape` | ip_calculator.py:142-144 | octet i of the mask holds MaskOnes(n, i) leading ones, so its base-2 value is 256 − 2^(8 − MaskOnes(n, i)); the four octets concatenate to `mask_bin` |
| `IpProperties.NetMaskBits` | ip_calculator.py:140-148 | the mask's `bin` view splits into those four octets; without dots it is n ones then 32 − n zeros |
| `IpProperties.NetMaskDecimal` | ip_calculator.py:144-148 | each part of the mask's `dec` view is the decimal rendering of the matching binary part's base-2 value, 256 − 2^(8 − MaskOnes(n, i)) |
| `IpProperties.HostsNumberOfMask` | ip_calculator.py:197-198 | the host count of the /n mask is 2^(32 − n) − 2 |
| `IpProperties.NetMaskOfOctets` | ip_calculator.py:140-148 | for n ≤ 32, both views of `get_net_mask(n)` are the renderings of the four octet values 256 − 2^(8 − MaskOnes(n, i)) |
| `IpProperties.MaskOctetsExamples` | ip_calculator.py:140-148 | the /24, /18, /0 and /32 masks are 255.255.255.0, 255.255.192.0, 0.0.0.0 and 255.255.255.255 |
| `IpProperties.HostsNumberExamples` | ip_calculator.py:197-198 | 254 hosts for /24, 0 for /31, −1 for /32 |
| `IpProperties.MinHostOfRendering` | ip_calculator.py:176-184 | on an address whose bits after mask_short + 1 are zero, the padded `min_host_bin` is the address's own 32 bits |
| `IpProperties.MinHostViewsOfBlocks` | ip_calculator.py:178-184 | the minimum host of four 8-bit blocks keeps the first three blocks and replaces only the last |
| `IpProperties.NetworkMinHost` | ip_calculator.py:176-184 | on the network address the first three octets are kept; the network's last octet is 0 whenever the prefix is at most 24, and a last octet of 0 becomes 1 |
| `IpProperties.MinHostOfOctets` | ip_calculator.py:176-184 | the minimum host of an address's 32 bits is the address with last octet 1 when that octet is 0; otherwise the first three octets are kept and the last is the base-10 reading of its bits, plus one |
| `IpProperties.MinHostZeroLast` | ip_calculator.py:179 | a last octet of 0 reads as 0 in base 10 too, so the minimum host is the address with last octet 1 |
| `IpProperties.MinHostReadsDecimal` | ip_calculator.py:179 | a last octet of 4 (`00000100`, read in base 10 as one hundred) gives a minimum host ending in 101, not 5 |
| `IpProperties.DottedDecimalOfRendering` | ip_calculator.py:190-193 | reading each dotted part of an address's `bin` view in base 2 gives its `dec` view |
| `IpProperties.MaxHostBitsOfRendering` | ip_calculator.py:188-189 | the last 8 characters of the `bin` view are the last octet; `max_host_bin` is the `bin` view of the address with that octet decremented |
| `IpProperties.MaxHostOfRendering` | ip_calculator.py:187-194 | when the last octet is not 0, the maximum host has everything before the last octet unchanged and the last octet one less, in both views |
| `IpProperties.BroadcastLastOctetOdd` | ip_calculator.py:160-169 | the broadcast's last bit is always set (for /32 through the rewrite of octet 4), so its last octet is odd; it is 255 for a prefix of at most 24 |
| `IpProperties.BroadcastMaxHost` | ip_calculator.py:187-194 | on the broadcast address the decrement never goes below 0, and the maximum host is the broadcast with its last octet one less (that octet is odd, by `BroadcastLastOctetOdd`) |
| `Subnet.Pipeline` | ip_calculator.py:18-48 | the calculator's string functions, applied to the network and broadcast views, produce the report `Expected`. `Expected` is built from octet values: the network and broadcast octets, the class of the first network octet, the mask's octet values `MaskOctets`, `MinHostOfNetwork` of the network octets, the broadcast with its last octet one less, and 2^(32 − p) − 2. `NetOctets` and `BroadcastOctets` use the arithmetic `NetPart` (the string steps equal it by `NetPartString`), so the only string step left in `Expected` is the base-10 reading of a nonzero last network octet in `MinHostOfNetwork` |
| `Subnet.SubnetCalculator` | ip_calculator.py:7-49 | nothing for an address `validate` rejects; otherwise the report of its octets and prefix |
| `LastDigit.EndingsShape` | last_digit_of_a_large_number.py:1-12 | the table has a row for each digit 0–9 and no others; each row has 1 to 4 entries, all digits |
| `LastDigit.LastDigit` | last_digit_of_a_large_number.py:15-19 | the result is always a digit 0–9 |
| `LastDigit.LastDigitZeroExponent` | last_digit_of_a_large_number.py:16-17 | a zero exponent gives 1 for every n1, including 0, as `0 ** 0 == 1` |
| `LastDigit.PyIndexWrap` | last_digit_of_a_large_number.py:19 | the index `n2 % len - 1`, with −1 read as the last element, is (n2 − 1) mod len |
| `LastDigit.EndingsStep` | last_digit_of_a_large_number.py:1-12 | multiplying an entry of row d by d gives, mod 10, the next entry, the last wrapping round to the first |
| `LastDigit.EndingsDistinct` | last_digit_of_a_large_number.py:1-12 | a row's entries are distinct, so each row is exactly one period |
| `LastDigit.EndingsCycle` | last_digit_of_a_large_number.py:1-12 | entry (k − 1) mod len of row d is d^k mod 10, for every k ≥ 1 |
| `LastDigit.PowLastDigit` | last_digit_of_a_large_number.py:18 | the last digit of n1^k depends only on n1 % 10 |
| `LastDigit.LastDigitCorrect` | last_digit_of_a_large_number.py:15-19 | for n2 ≥ 1, `last_digit(n1, n2)` is `(n1 ** n2) % 10`, negative n1 included |
| `LastDigit.LastDigitOfKey` | last_digit_of_a_large_number.py:18 | the result depends on n1 only through Python's non-negative `n1 % 10` |
| `LastDigit.LastDigitPeriodic` | last_digit_of_a_large_number.py:19 | for n2 ≥ 1, adding the row's length to n2 does not change the result |

## Left out

- `get_local_address` (ip_calculator.py:52-68) is not part of this model. It runs the Windows `wmic` tool and parses its XML output, which is I/O and a foreign call.
- `SubnetCalculator` has no branch for a call without arguments. That branch reads the local address through `get_local_address`.
- All printing is left out. `SubnetCalculator` returns the printed figures as a `Report`. The module-level calls at the end of both files are not modelled, and neither are `validate`'s diagnostic messages: `Validate` returns only the flag.
- Python exceptions are replaced by preconditions:
  - `Validate` and `SubnetCalculator` require a `/` followed by a prefix of unsigned ASCII digits. At ip_calculator.py:87 the source raises an `IndexError` without a `/` and a `ValueError` when `int` cannot read the prefix. But Python's `int` also reads signed, space-padded or underscored prefixes such as `-1`, `+24`, ` 24` or `2_4`, and these addresses lie outside the model. In particular, `validate`'s rejection of a negative prefix (the `int(ip[1]) < 0` test at ip_calculator.py:87) is not modelled: with unsigned digits that test can never hold.
  - `FromBinary` and `DecimalValue` require binary and decimal digits.
  - `GetNetClass` requires the first dotted part of its argument to be non-empty. The source's `first_octet[0]` at ip_calculator.py:128 raises an `IndexError` on an empty part, and the model proves that every rendered network address meets this requirement (`NetClassOfAddress`).
  - `GetMaxHost` requires a last octet of at least 1. The source's `dec2binary(-1, 8)` would never return, and the model proves that a broadcast address always meets this requirement.
- `str.isnumeric` is modelled for ASCII digits only. Unicode numerals that it also accepts are outside the model.
- `FromBinary("")` is 0, whereas Python's `int("", 2)` raises. The model only applies it to the non-empty parts the calculator produces, and to the parts of a `bin` view.
- `Dec2Binary` takes a `nat`: for a negative `num` the source loops forever, because `-1 // 2 == -1`.
- `LastDigitCorrect` is stated for n2 ≥ 1 only. For negative n2, Python's `n1 ** n2` is a float or raises; `LastDigit` still follows the source's lookup there.
