# Wake-on-LAN packet path, modelled in Dafny

This project models the only real logic of the Android Wake-on-LAN app: the
path from a stored host record to the UDP datagram that wakes the host.

- **Address conversion** (`toByteArray`). The address text is split on a
  separator. Every piece is parsed with `Integer.parseInt` in a radix. Every
  value is stored as a Java signed byte. The wake handler calls it with `":"`
  and radix 16 for the MAC text, and with `"[.]"` and radix 10 for the IPv4
  text. The port is a single decimal `Integer.parseInt`.
- **Magic packet assembly**. A 102-byte array is allocated and bytes 0-5 are
  set to -1 (0xFF). The first six MAC bytes are then copied to offsets 6, 12,
  ..., 96. This is the layout of AMD's "Magic Packet Technology" white paper.

Bytes are `seq<int>` holding Java signed byte values (-128..127). The Java
exceptions on this path become `Results.Failure` values:
`NumberFormat(text)` for `Integer.parseInt` and `IndexOutOfBounds` for
`System.arraycopy`. None of them is caught in the source, so a failure means
no datagram is built.

Modules, leaves first:

- `Results` holds the failures and a failure-compatible `Result`.
- `JavaInt` models `Integer.parseInt`, `Character.digit`, the `(byte)` cast
  and the unsigned reading. It also has a formatter (`Integer.toString`) that
  serves as the parser's inverse.
- `JavaSplit` models `String.split` on a one-character literal pattern, with
  `Join` as its inverse.
- `AddressCodec` models `toByteArray` and its two call sites, plus the port
  parse. It also has the textual form of a byte array (`FormatBytes`), which
  serves as the converter's inverse.
- `MagicPacket` models `System.arraycopy`, the 16 copies and the packet. It
  also has a reference layout (`IsMagicPacketFor`) and reads the MAC back
  (`MacOf`).
- `Wake` models the handler from the three text fields to the datagram it
  hands to the socket.

What the code does not check, and how it fails:

- The code checks no segment count when it converts the MAC. A MAC text with
  seven pieces gives seven bytes, and the seventh is ignored by the packet. A
  MAC text with fewer than six pieces fails only at the first
  `System.arraycopy`, with `IndexOutOfBounds`.
- The code checks no segment count when it converts the IP either. The IP
  bytes reach `InetAddress.getByAddress` (HostList.java line 161). That call
  throws `UnknownHostException` unless there are 4 or 16 bytes. The exception
  is caught and printed inside the send's `try` block, so no datagram is
  sent. The send is not modelled, so `Wake.PrepareWake` still produces a
  datagram for an IP of any length.
- The code checks no segment range. A segment outside 0..255 is narrowed by
  the cast: `"1.2.3.256"` gives the bytes 1, 2, 3, 0 (`OutOfRangeSegmentWraps`).
  A negative segment such as `-1` is accepted too.
- The code does not check the port range at parse time. Every 32-bit `int`
  is accepted (`PortRangeNotChecked`). Java range-checks the port later, when
  the `DatagramPacket` is built. That is inside the send's `try` block, which
  is not modelled.
- Every failure in the modelled steps (HostList.java lines 124-157) is a
  `NumberFormatException` or an `ArrayIndexOutOfBoundsException`. They come
  in the order port, MAC, IP, packet. The record fetch before these steps
  (lines 118-123) can throw other exceptions; it is not modelled.

## Model

| member | source | states |
|---|---|---|
| JavaInt.ParseInt | src/net/lopht/wakeonlan/HostList.java:175 | `Integer.parseInt` succeeds exactly when the text is an optional sign (`+` or `-`, the Java SE 7 rule) followed by at least one digit of a valid radix and its value fits in 32 bits; the result is that value; every failure carries the text |
| JavaInt.ParseFormatRoundTrip | src/net/lopht/wakeonlan/HostList.java:175 | every 32-bit int, formatted in any radix from 2 to 36, parses back to itself |
| JavaInt.ToByte | src/net/lopht/wakeonlan/HostList.java:176 | the `(byte)` cast gives the unique value in -128..127 congruent to its argument modulo 256 |
| JavaInt.NarrowUnsigned | src/net/lopht/wakeonlan/HostList.java:176 | narrowing undoes the unsigned reading of every value in -128..127 |
| JavaInt.UnsignedNarrow | src/net/lopht/wakeonlan/HostList.java:176 | the unsigned reading undoes narrowing of every value in 0..255 |
| JavaInt.MagnitudeLeadingZero | src/net/lopht/wakeonlan/HostList.java:175 | a leading zero digit does not change the value of a digit string |
| JavaInt.MagnitudeZeros | src/net/lopht/wakeonlan/HostList.java:175 | any number of leading zero digits does not change the value of a digit string |
| JavaInt.PaddedParse | src/net/lopht/wakeonlan/HostList.java:175 | a non-negative 32-bit value written with any number of leading zeros parses back to itself, so `"0a"` and `"a"` read alike |
| JavaInt.IntegerTextExcludes | src/net/lopht/wakeonlan/HostList.java:175 | a text that `Integer.parseInt` accepts contains no character that is neither a digit of the radix nor a sign |
| JavaSplit.Pieces | src/net/lopht/wakeonlan/HostList.java:172 | cutting at every separator gives one more piece than there are separators; no piece contains the separator; joining the pieces gives back the input |
| JavaSplit.Split | src/net/lopht/wakeonlan/HostList.java:172 | `split` returns the whole input when the separator does not occur; otherwise it returns the pieces minus the empty ones at the end, and its last piece is non-empty |
| JavaSplit.SplitJoin | src/net/lopht/wakeonlan/HostList.java:172 | splitting the join of separator-free pieces whose last piece is non-empty (or of a single piece) gives back exactly those pieces |
| JavaSplit.PiecesJoin | src/net/lopht/wakeonlan/HostList.java:172 | cutting the join of separator-free pieces at every separator gives back exactly those pieces, empty ones included |
| AddressCodec.StoreByte | src/net/lopht/wakeonlan/HostList.java:176 | the stored byte is the plain narrowing of the parsed value; for 0..255 it equals the value up to 127 and the value minus 256 above, and reads back unsigned as the value |
| AddressCodec.ConvertSegments | src/net/lopht/wakeonlan/HostList.java:173-177 | succeeds exactly when every piece parses; then one signed byte per piece, byte i derived from piece i alone; otherwise fails with the first piece that does not parse |
| AddressCodec.ToByteArray | src/net/lopht/wakeonlan/HostList.java:171-179 | one signed byte per piece of the split, in order, each the stored value of its own piece; fails, producing no bytes, exactly when some piece does not parse, and then with the first such piece |
| AddressCodec.ParsePort | src/net/lopht/wakeonlan/HostList.java:124-125 | the port text is accepted exactly when it is an optional sign followed by decimal digits whose value fits in 32 bits; the port is that value; otherwise it fails with a number-format error carrying the text |
| AddressCodec.ParseMac | src/net/lopht/wakeonlan/HostList.java:129 | the MAC text succeeds exactly when every piece of its split on `:` parses in radix 16; then one signed byte per piece, each the stored value of its own piece; otherwise it fails with the first piece that does not parse |
| AddressCodec.ParseIp | src/net/lopht/wakeonlan/HostList.java:132 | the IP text succeeds exactly when every piece of its split on `.` parses in radix 10; then one signed byte per piece, each the stored value of its own piece; otherwise it fails with the first piece that does not parse |
| AddressCodec.SplitFormatted | src/net/lopht/wakeonlan/HostList.java:172 | splitting a non-empty byte array's textual form on a non-digit separator gives back exactly one text per byte, in order |
| AddressCodec.TextRoundTrip | src/net/lopht/wakeonlan/HostList.java:171-179 | any non-empty signed byte array, written as unsigned digits of the radix joined by a non-digit separator, converts back to the same bytes |
| AddressCodec.ConvertByteTexts | src/net/lopht/wakeonlan/HostList.java:173-177 | the per-byte texts of a signed byte array convert back to that array |
| AddressCodec.ConvertParsedTexts | src/net/lopht/wakeonlan/HostList.java:173-177 | pieces that each parse to the unsigned value of the matching byte convert back to those bytes |
| AddressCodec.TextsRoundTrip | src/net/lopht/wakeonlan/HostList.java:171-179 | any non-empty list of piece texts that parse to the bytes' unsigned values (either letter case, leading zeros allowed), joined by a separator that is neither a digit nor a sign, converts back to the bytes |
| AddressCodec.OutOfRangeSegmentWraps | src/net/lopht/wakeonlan/HostList.java:175-176 | a piece holding any 32-bit value is accepted and stored as its low eight bits; no range is checked |
| AddressCodec.PortRangeNotChecked | src/net/lopht/wakeonlan/HostList.java:124-125 | every 32-bit int, negative or above 65535 included, is accepted as a port |
| MagicPacket.SyncedBuffer | src/net/lopht/wakeonlan/HostList.java:135-141 | the fresh buffer has 102 bytes and bytes 0 to 5 are -1 (0xFF) |
| MagicPacket.ArrayCopy | src/net/lopht/wakeonlan/HostList.java:142 | `System.arraycopy` succeeds exactly when both ranges are inside their arrays; it then changes only the destination range, which receives the source range element by element; otherwise it throws an index error |
| MagicPacket.CopyRepetitions | src/net/lopht/wakeonlan/HostList.java:142-157 | the remaining copies succeed exactly when no copy remains or the address has at least six bytes; bytes before the first remaining copy are untouched and every later byte is the address byte at its position within the copy |
| MagicPacket.BuildPacket | src/net/lopht/wakeonlan/HostList.java:135-157 | the packet is built exactly when the address has at least six bytes (otherwise an index error); it has 102 bytes, bytes 0-5 are -1, and every byte from 6 to 101 is the address byte at its position within its six-byte copy |
| MagicPacket.BuildMatchesLayout | src/net/lopht/wakeonlan/HostList.java:135-157 | the built packet equals the reference layout: six 0xFF bytes followed by sixteen copies of the first six address bytes |
| MagicPacket.MacCopyAt | src/net/lopht/wakeonlan/HostList.java:142-157 | for every copy k in 0..15 and byte j in 0..5, packet byte 6 + 6k + j is address byte j |
| MagicPacket.SamePacketIffSamePrefix | src/net/lopht/wakeonlan/HostList.java:142-157 | two addresses give the same packet exactly when their first six bytes agree: extra bytes are ignored, and building twice from one prefix gives identical packets |
| MagicPacket.RecoverMac | src/net/lopht/wakeonlan/HostList.java:142 | bytes 6 to 11 of a built packet are the first six address bytes |
| Wake.AssembleDatagram | src/net/lopht/wakeonlan/HostList.java:135-162 | from parsed values, a datagram is produced exactly when the MAC has at least six bytes (otherwise an index error); it carries the given IP bytes and port and the reference packet of the MAC's first six bytes |
| Wake.AssembleSixByteMac | src/net/lopht/wakeonlan/HostList.java:135-162 | a six-byte MAC yields exactly six 0xFF bytes followed by sixteen copies of that MAC, addressed to the given IP and port |
| Wake.PrepareWake | src/net/lopht/wakeonlan/HostList.java:124-157 | a datagram is produced exactly when the port, MAC and IP texts all convert and the MAC has at least six bytes; failures come in source order (port, then MAC, then IP, then the copy); the datagram carries the parsed port, the parsed IP bytes and the magic packet of the MAC's first six bytes |
| Wake.WakeRoundTrip | src/net/lopht/wakeonlan/HostList.java:124-157 | a record whose MAC text is six hexadecimal pieces joined by `:`, whose IP text is decimal pieces joined by `.` and whose port text is decimal, in any spelling `Integer.parseInt` reads (either letter case, leading zeros as in `00:1A:...`), yields exactly the magic packet for that MAC, addressed to that IP and port |
| Wake.MacTextsParse | src/net/lopht/wakeonlan/HostList.java:129 | six hexadecimal piece texts joined by `:` convert to the six bytes they spell |
| Wake.IpTextsParse | src/net/lopht/wakeonlan/HostList.java:132 | decimal piece texts joined by `.` convert to the bytes they spell |
| Wake.WakeFormattedRoundTrip | src/net/lopht/wakeonlan/HostList.java:124-157 | the record as the formatter writes it (lower-case digits without leading zeros) yields exactly the magic packet for that MAC, addressed to that IP and port |

## Left out

- The send (HostList.java lines 159-168) is left out. It covers `InetAddress.getByAddress` (which rejects an IP that is not 4 or 16 bytes long), the `DatagramPacket` port check, the `DatagramSocket` and the catch-and-print. These are network I/O and foreign library calls. `Wake.PrepareWake` stops at the datagram handed to them.
- The record fetch (lines 118-123) is left out, and so is `HostDbAdapter.java`. It is a thin wrapper over Android SQLite. The three text fields are parameters instead. As written, the table definition (HostDbAdapter.java line 54) lacks a space before `text`, so the MAC column is created as `mactext`. The query for `mac` (lines 166-168) therefore fails before line 124 is reached. The model starts from the three text fields regardless.
- The list and edit activities (`HostEdit.java`, `trunk/`, the menu handlers of `HostList.java`) are left out. They are Android UI glue with no packet logic.
- JavaSplit.Split covers only a one-character literal pattern. That is all `":"` and `"[.]"` match. General regular expressions and split limits are not modelled, and no equivalence with the JDK is claimed.
- JavaInt.DigitValue accepts only ASCII digits and letters. `Character.digit` also accepts other Unicode digits and full-width letters.
- JavaInt.ParseInt computes the unbounded value and then checks the 32-bit range. It does not follow Java's negative accumulation loop step by step. The accepted texts and the values are the same.
- JavaInt.ParseInt follows the sign rule of Java SE 7 and later, where a leading `+` is accepted. Java SE 6 and earlier reject a leading `+` with `NumberFormatException`, and that rule is not modelled.
