# RNP: a verified model of the OpenPGP transducers, containers and key state

RNP is an OpenPGP library (RFC 4880). Much of it is made of stateful byte machines that must agree
with a plain meaning on octet strings: writers stacked on each other, a cipher object whose register
survives between calls, packet framers with partial lengths, text canonicalisers, container formats
with back-patched fields, and small heap and array structures below them. This project models those
machines in Dafny in the form the C code has (objects with fields, loops, in-place patches) and proves
each against a specification function, then proves what the specification promises.

The block cipher and SHA-1 are arbitrary functions; nothing below depends on a property of either.
Random octets and clock values are parameters. Octets are integers from 0 to 255, C integers are
unbounded with every truncation that matters written out.

| file | models |
|---|---|
| `Octets.dfy` | octets, big-endian integers, exclusive or, sequence algebra |
| `Cfb.dfy` | the CFB cipher object of `src/lib/symmetric.c` |
| `Framing.dfy` | definite and partial packet lengths of `src/lib/writer.c` |
| `SeIp.dfy` | the streaming and the one-shot encrypting writers, and the receiver of RFC 4880 |
| `ClearSign.dfy` | the dash-escaping, canonicalising clear-sign writer |
| `Armor.dfy` | Radix-64, the line breaker, and the decoder of the SSH key store |
| `Memory.dfy` | the growing memory buffer of `src/lib/misc.c` |
| `Sexp.dfy`, `G10.dfy` | S-expressions and the unprotected G10 secret-key records |
| `Kbx.dfy`, `KbxImage.dfy`, `KbxForeign.dfy`, `KbxCounts.dfy` | keybox blobs: the back-patching writer, the reader, whole stores, blobs of other programs, counts over 16 bits |
| `Signature.dfy` | the version 4 signature builder and the verifier's digest input |
| `SecretPacket.dfy` | the secret part of a key packet: integers, iteration counts, the checked and the encrypted form |
| `PacketLength.dfy` | declared and written lengths of key packets |
| `KeyProtection.dfy` | lock, unlock, protect and unprotect over whole runs, on the stored packets |
| `LinkedList.dfy`, `GapBuffer.dfy` | the linked list and the gap buffer as sequences |

`dafny verify dfyconfig.toml` checks the whole project.

Writer and reader share most of their specification functions, and a round trip alone would not
notice if such a function were wrong on both sides. So each format is also stated in literal octets,
without those functions: the lemmas named `...InOctets` and `...InCharacters`, and clauses of the
methods that write a whole object (`SeIp.EncryptSession`, `Signature.SignSession`,
`KeyProtection.PgpKey.Protect`, `ClearSign.ClearSignSession`, `Armor.ArmorSession`).

## Where the code and its promise part

Each of these is stated exactly, as an if-and-only-if, beside the theorem it limits; where one half
is open, the last section says so.

- The CFB block loop masks the length with a 32-bit constant: what it leaves for the tail fits the
  register exactly for calls with fewer than 2^32 octets beyond what the register had left
  (`Cfb.TailFitsBlock`).
- The encrypting writer indexes its buffer with a 32-bit unsigned: exactly the buffers of more than
  2^32 octets can be encrypted wrongly, the first octets a second time (`SeIp.FedExactly`).
- The first streamed literal chunk counts 6 header octets and no file name. With a file name the
  chunk is longer than its header says (`SeIp.FirstChunkMatches`), octets after the buffer are taken
  (`SeIp.LitdataConsumedExactly`), and a receiver takes an octet of the data for the next length
  (`SeIp.StreamWithName`). Without one, a 32-bit cast drops data from 0x1_4000_0000 - 6 octets on.
- The one-shot packet checks its plaintext size against `UINT_MAX` and then declares one more: at the
  boundary the declared length is zero (`SeIp.PktsetReads`, `SeIp.EncryptOneShot`).
- The clear-sign writer hashes the canonical text unless the text ends in CR; then one LF is missing
  (`ClearSign.HashedIsCanonical`).
- The base64 decoder counts a symbol only when input remains after it: armor decoded without a final
  line end loses a sextet unless it ends in padding (`Armor.ArmorBodyAlone`).
- Equal sibling atoms of an S-expression are merged, and empty lists and atoms do not parse: printing
  and parsing is the identity on the well-formed trees and on no other (`Sexp.RoundTripExactly`). So a
  G10 integer whose octets equal its own field name is lost with the whole key, and so is a zero, for
  which the writer looks at an octet nothing has set, unless that octet is high (`G10.KeyRoundTrip`).
- Inserting into a gap buffer while text follows the cursor: the spare octet counts as free, and
  growing copies one octet over all that text (`GapBuffer.InsertExactly`, `GapBuffer.SurvivesWithGap`).
- The two areas of a signature have two-octet counts: signer and verifier hash the same octets exactly
  when the hashed area is below 65536 octets, the unhashed one, cut to its count, ends on a subpacket,
  and what is read passes the parser's checks by type (`Signature.DigestsAgree`).
- A keybox user id length is stored through a pointer taken before an append: it is right exactly when
  that append leaves the buffer where it was (`Kbx.WriteUid`, `KbxImage.LengthsRightExactly`).
- Keybox record counts have 16 bits: a key with 65536 records of a kind is never read back as it was
  stored (`KbxImage.WrittenBlobReadsExactly`). With 65536 keys the blob is refused
  (`KbxCounts.NoKeysCounted`), surplus signatures are dropped and two taken for the times
  (`KbxCounts.SurplusSigs`), and the first surplus user id record is read as the count of the signatures,
  which refuses some blobs and lets others pass (`KbxCounts.SurplusUids`, `KbxCounts.ManyUidsTaken`).
- One key over the blob size limit makes the whole keybox image unreadable (`KbxImage.StoreReads`).
- Key packets declare no octets for the key material of the encrypt-only and sign-only RSA identifiers
  and of Elgamal, and two too few for version 2 and 3 keys (`PacketLength.PublicPacketReads`). So
  protecting or unprotecting a secret key of these algorithms stores a packet that the right password
  does not open, and locking it then loses the key (`KeyProtection.WriteLoses`,
  `KeyProtection.ElgamalIsLost`).
- A protected key's check value is all that tells a wrong password from the right one. A key is sound
  all through a run exactly when no wrong password ever passes it and, for the algorithms just named,
  nothing is written (`KeyProtection.RunSound`). Keys before version 4 are never written, but a refused
  write has already replaced their protection parameters (`KeyProtection.PgpKey.Protect`,
  `KeyProtection.PgpKey.Unprotect`).

## Model

| member | source | states |
|---|---|---|
| Octets.XorInvolution | src/lib/symmetric.c:182-344 | C's exclusive or undoes itself on octets, bit by bit |
| Octets.XorBit | src/lib/symmetric.c:192 | bit k of an exclusive or is set if and only if bits k of the two octets differ |
| Octets.XorLaws | src/lib/symmetric.c:192 | zero is neutral, an octet cancels itself, and the order does not matter |
| Octets.BigEndianValue | src/lib/writer.c:126-139 | writing an integer in a fixed number of octets keeps it modulo 256 to that number |
| Octets.InOctets | src/lib/writer.c:126-139 | the two- and four-octet forms are the digits to base 256, most significant first |
| Cfb.TailFitsBlock | src/lib/symmetric.c:189-255 | what a call leaves for the tail loop fits the register if and only if the call has fewer than 2^32 octets beyond the register's unused ones |
| Cfb.CfbConcat | src/lib/symmetric.c:182-258 | CFB of a concatenation is CFB of the parts, the register handed on |
| Cfb.CfbBlock | src/lib/symmetric.c:211-239 | from a block boundary a whole block is the block xor the enciphered register, and the ciphertext becomes the register |
| Cfb.CryptBlock | src/lib/symmetric.c:214-232 | the one- and two-word branches agree with the octet machine in output and register |
| Cfb.CryptBatch | src/lib/symmetric.c:211-237 | a batch of blocks agrees with the octet machine |
| Cfb.PgpCrypt.constructor | src/lib/symmetric.c:121-156 | a started cipher has the given register, or zeros without one, and nothing left of it |
| Cfb.PgpCrypt.CryptOctets | src/lib/symmetric.c:190-196 | the boundary and tail loops agree with the octet machine on heap state |
| Cfb.PgpCrypt.CryptBlocks | src/lib/symmetric.c:202-240 | the block loop leaves less than a block and agrees with the octet machine on what it took |
| Cfb.PgpCrypt.Crypt | src/lib/symmetric.c:181-344 | each such call, in either direction, from any register state and also in place, refines the octet-at-a-time machine in output and in final `(iv, remaining)`, and every octet of its output is the input octet xor the key octet of its place, in the formula of the next row |
| Cfb.CfbInOctets | src/lib/symmetric.c:181-344 | what any octet is combined with, without the machine: what the register had left, and from there on the cipher applied to the block of ciphertext before it; and the register is what was sent since the last boundary and the rest of that key block |
| Cfb.SplitIndependence | src/lib/symmetric.c:181-344 | every way of cutting a text into calls gives the same output and the same final state |
| Cfb.DecryptInverts | src/lib/symmetric.c:262-344 | decryption from the same register returns the plaintext and the same final register |
| Cfb.RoundTripAcrossSplits | src/lib/symmetric.c:181-344 | encrypting in some calls and decrypting in any others is the identity and leaves both sides in one state |
| Framing.LengthHeaderReads | src/lib/writer.c:183-198 | the 1-, 2- and 5-octet lengths read back as what was written |
| Framing.LengthHeaderOctets | src/lib/writer.c:183-198 | one octet up to 191, two up to 8383 of which the first is 192 to 223, else 255 and four, with the values section 4.2.2 of RFC 4880 gives them |
| Framing.FirstLengthOctet | src/lib/writer.c:1365-1378 | what each first octet means to a reader: up to 191, 192 to 223, 224 to 254 for a power of two, and 255 |
| Framing.HeadersDecodeUniquely | src/lib/writer.c:183-198 | the length headers are a prefix code |
| Framing.PartialIsNotFinal | src/lib/writer.c:1365-1378 | no partial length can be taken for a definite one |
| Framing.ReadDefiniteBody | src/lib/writer.c:183-198 | a reader gets the body and leaves what follows it |
| Framing.ExponentUnique | src/lib/writer.c:1342-1362 | the chunk exponent is the only one between the limits, that is, the largest power of two |
| Framing.PartialDataLen | src/lib/writer.c:1342-1362 | the mask loop finds the largest power of two not above min(len, 2^30), and zero for nothing |
| Framing.WritePartialLen | src/lib/writer.c:1365-1378 | the octet written for a power of two encodes its exponent |
| Framing.StreamWriteLitdata | src/lib/writer.c:1381-1393 | the chunking loop writes the specified run of chunks |
| Framing.PartialRunChunks | src/lib/writer.c:1381-1393 | the chunks of a string are a run of partial chunks holding exactly it |
| Framing.PartialRunConcat | src/lib/writer.c:1381-1393 | runs of partial chunks of successive writes join into one |
| Framing.ReadPartialRun | src/lib/writer.c:1381-1450 | a reader of a partial run followed by a final part gets the joined body |
| Framing.ChunkOctets | src/lib/writer.c:1381-1393 | framing costs one octet a chunk |
| Framing.ChunkCountIsBinary | src/lib/writer.c:1342-1393 | the number of chunks is len div 2^30 plus the number of one bits of the remainder |
| SeIp.EncryptWriter | src/lib/writer.c:813-845 | the encrypting writer, 1024 octets at a time, is CFB of the octets its 32-bit index picks, and of the buffer itself up to 2^32 octets |
| SeIp.FedExactly | src/lib/writer.c:813-845 | the index picks every buffer of a size in order if and only if the size is at most 2^32 |
| SeIp.LitdataConsumedExactly | src/lib/writer.c:1395-1443 | the first write takes exactly its buffer if and only if there is no file name and the 32-bit cast keeps the size; with a name it takes as many octets more as the name has |
| SeIp.FirstChunkMatches | src/lib/writer.c:1422-1436 | the first chunk has the size its header declares if and only if there is no file name; with one it is longer by the name |
| SeIp.StreamWriteLitdataFirst | src/lib/writer.c:1395-1443 | the opening for any file name: its first chunk declares at least 512 octets, and it holds header, buffer and what is taken after it |
| SeIp.LitdataFirstRuns | src/lib/writer.c:1395-1443 | without a file name the opening is a partial run of the literal header and exactly what was taken |
| SeIp.StreamWithoutName | src/lib/writer.c:1395-1450 | a receiver of the whole inner stream then gets what was taken and all later writes |
| SeIp.StreamStart | src/lib/writer.c:1395-1443 | a streamed literal starts with tag CB, a partial length of at least 512, the octet 62, the size of the name, the name and the time |
| SeIp.StreamWithName | src/lib/writer.c:1395-1450 | with a file name a receiver never gets the literal, unless the octet of the data it meets as second length header looks like a partial length |
| SeIp.AccidentalFraming | src/lib/writer.c:1395-1450 | that exception is real: data that repeats the next header, under a four-octet name, is received as if nothing had happened |
| SeIp.StreamWriteSeIp | src/lib/writer.c:1452-1473 | further data becomes chunks holding its encryption from the current register |
| SeIp.StreamWriteSeIpFirst | src/lib/writer.c:1475-1525 | the first chunk declares at least 512 octets; version octet in clear, then the encrypted prefix and data |
| SeIp.StreamWriteSeIpLast | src/lib/writer.c:1527-1577 | the last part has a definite length and ends in the MDC over everything hashed |
| SeIp.LitdataReads | src/lib/packet-create.c:1077-1104 | the one-shot literal packet reads back with its name, time and data if and only if its body length fits 32 bits |
| SeIp.WriteSeIpPktset | src/lib/writer.c:1049-1130 | one packet with the encryption of prefix, data and MDC; refused exactly when that exceeds `UINT_MAX` |
| SeIp.PktsetReads | src/lib/writer.c:1049-1130 | the packet reads back while its body length fits 32 bits; at the boundary it reads as empty with everything left over |
| SeIp.OpenSealed | src/lib/misc.c:316-354 | decrypting prefix, data and D3 14 H(prefix, data, D3 14) and checking both returns the data |
| SeIp.SealedInOrder | src/lib/misc.c:333-343 | decrypting a sealed packet from the zero register gives, in this order: the random block, its last two octets again, the inner packet, D3, 14, and 20 octets that are the hash of everything before them, D3 14 included |
| SeIp.ReceiveSealed | src/lib/writer.c:1049-1130 | any framing of a sealed inner packet is received as that packet |
| SeIp.StreamEncryptor.Write | src/lib/writer.c:1579-1636 | each write of any size, buffered, opening or streaming, keeps the invariant that all output so far is two nested streams over prefix and literal data, and adds its octets to them |
| SeIp.StreamEncryptor.WriteMore | src/lib/writer.c:1579-1636 | a write after the stream is open extends both runs, the hash and the register together |
| SeIp.StreamEncryptor.Finalise | src/lib/writer.c:1639-1678 | below 512 octets the receiver recovers exactly what was written, under any file name; a stream is received as the two theorems above say |
| SeIp.EncryptSession | src/lib/writer.c:1579-1678 | for every sequence of writes and every file name the output is one packet with tag D2 and version 1; decrypted from the zero register it is prefix, inner packet, D3 14 and the hash of all that precedes the hash, octet by octet; the inner packet starts as a literal with that name and time; and the receiver gets the concatenation if and only if it stayed below 512 octets, or there is no file name and the opening write stays within the cast |
| SeIp.EncryptOneShot | src/lib/writer.c:967-1130 | the one-shot path, for any file name and data: tag, length, version and, decrypted, prefix, literal packet, D3 14 and the hash of all that precedes it, octet by octet; and the receiver gets the data back if and only if every length on the way fits 32 bits |
| ClearSign.DashEscWriter.WriteOctet | src/lib/writer.c:457-504 | one octet of the writer's loop takes the step of the transducer in flags, pending blanks, hash and output |
| ClearSign.DashEscWriter.Write | src/lib/writer.c:435-506 | a write is the transducer's run over it, so only the concatenation of the writes matters |
| ClearSign.RunConcat | src/lib/writer.c:435-506 | the transducer over a concatenation is the transducer over the parts |
| ClearSign.RunText | src/lib/writer.c:435-506 | hash input and output are the canonical and the dash-escaped text, up to one LF owed after a final CR |
| ClearSign.LinesAndEnds | src/lib/writer.c:457-488 | lines and their ends put together again are the text; no line holds CR or LF, every end is CRLF, CR or LF, and no CR and LF that belong together are parted |
| ClearSign.StripIs | src/lib/writer.c:491-499 | a stripped line does not end in octet 32 or 9, and what was taken from it is nothing but 32 and 9 |
| ClearSign.HashedIsCanonical | src/lib/writer.c:435-506 | the octets hashed are the canonical text of section 7.1 if and only if the text does not end in CR |
| ClearSign.LinesOfOutput | src/lib/writer.c:457-504 | the lines written are the lines of the text, dash-escaped |
| ClearSign.OutputRecovers | src/lib/writer.c:435-506 | un-escaping and canonicalising the output gives the canonical text, always |
| ClearSign.EmittedDashes | src/lib/writer.c:460-484 | every emitted line that begins with a dash begins with dash and space |
| ClearSign.ClearSignSession | src/lib/writer.c:435-548 | all three for every run of writes on a fresh writer; each line of the hashed text is a prefix of the line of the input, does not end in 32 or 9, and is followed there only by 32 and 9; each line written is the line of the input, behind 45 32 if it starts with 45; and every line end of both is CRLF, but for a CR the text itself ends in |
| Armor.RunEncodes | src/lib/writer.c:575-620 | the streaming encoder and the final sextet give the sextets of the whole string |
| Armor.EncodeInCharacters | src/lib/writer.c:572-700 | character i of the encoding, counted from the data: the letter of the i-th six bits, `=` where no data is left, and as many in all as three octets make four |
| Armor.ArmorWriter.Base64Octet | src/lib/writer.c:575-620 | each octet takes the encoder's step and its characters go through the line breaker |
| Armor.ArmorWriter.LineBreakWrite | src/lib/writer.c:631-654 | the breaker's loop inserts its line ends where the specification does |
| Armor.ArmorWriter.FinishData | src/lib/writer.c:656-700 | the finaliser writes the pending sextet and the padding |
| Armor.ArmorSession | src/lib/writer.c:575-700 | every run of writes gives the broken encoding of the concatenation: joined, its lines are the letters and pads of that string; each has 76 and the last at most 76; the line ends are CRLF |
| Armor.RunBreaks | src/lib/writer.c:631-654 | breaking as the octets come is breaking the whole string at 76 |
| Armor.BrokenLines | src/lib/writer.c:629-654 | every line but the last has 76 octets and none has more |
| Armor.NextSymbol | src/librekey/key_store_ssh.c:102-109 | the inner loop finds the next symbol that is counted |
| Armor.GatherGroup | src/librekey/key_store_ssh.c:101-114 | up to four counted symbols, in order |
| Armor.FromBase64 | src/librekey/key_store_ssh.c:89-127 | the decoder is the group decoding of the counted symbols |
| Armor.DecodeSextets | src/librekey/key_store_ssh.c:115-124 | decoding the sextets of a string gives the string |
| Armor.TableIs | src/librekey/key_store_ssh.c:69-87 | the decoder takes the 64 letters of the alphabet, each with its value, and no other octet |
| Armor.SymbolsOfArmor | src/librekey/key_store_ssh.c:69-87 | once line breaks and padding are skipped, armor holds exactly the sextets of the data |
| Armor.ArmorRoundTrip | src/librekey/key_store_ssh.c:89-127 | armor followed by a line end decodes to the original, for every octet string |
| Armor.ArmorBodyAlone | src/librekey/key_store_ssh.c:106 | without a line end it does so if and only if the string is empty or its armor ends in padding |
| Armor.ArmorAndDecode | src/lib/writer.c:575-700 | any run of writes through the writers and back through the decoder returns the concatenation, and the text between is its Radix-64 form character by character, in lines of 76 |
| Memory.PgpMemory.Pad | src/lib/misc.c:401-426 | room is made, the contents stay, and the buffer moves exactly when it must, to twice its size and the request |
| Memory.PgpMemory.Add | src/lib/misc.c:435-444 | the contents grow by exactly the octets added |
| Memory.RoomEnough | src/lib/misc.c:401-444 | a buffer large enough for a run of appends is the same at its end |
| Memory.PgpMemory.PlaceInt | src/lib/misc.c:448-458 | a big-endian integer replaces exactly its octets, or nothing happens when the buffer is too small |
| Memory.PgpMemory.MakePacket | src/lib/misc.c:493-517 | the contents become tag, length and the old contents |
| Memory.MakePacketReads | src/lib/misc.c:493-517 | a packet made in memory reads as one made by `pgp_write_length` |
| Sexp.AddBlock | src/librekey/key_store_g10.c:160-193 | a block equal to one already there is not added |
| Sexp.Parse | src/librekey/key_store_g10.c:229-313 | the recursive parser over a moving position computes the specified parse and strictly shortens the input |
| Sexp.StrtolDecimal | src/librekey/key_store_g10.c:271-293 | the length prefix printed in decimal is the length scanned |
| Sexp.DecimalInOctets | src/librekey/key_store_g10.c:1087-1106 | a length is printed in decimal digits, the last one its remainder by ten, without a leading zero |
| Sexp.StrtolScans | src/librekey/key_store_g10.c:271-293 | the scan passes blanks, one sign and the digits up to the first other octet, and saturates; without a digit it stays at the start |
| Sexp.BlockReadExactly | src/librekey/key_store_g10.c:271-303 | a block is read if and only if its scanned length is above 0 and below 2^63 - 1, a colon follows, and so many octets and at least one more are there |
| Sexp.ParsedIsWellFormed | src/librekey/key_store_g10.c:229-313 | every accepted tree has non-empty lists and distinct non-empty sibling atoms |
| Sexp.WriteSexp | src/librekey/key_store_g10.c:1087-1128 | the printer appends the specified text, recursion and all |
| Sexp.TextInOctets | src/librekey/key_store_g10.c:1087-1128 | a block is its length, octet 58 and its octets; a list is octet 40, its elements one after the other, and octet 41 |
| Sexp.ListRoundTrip | src/librekey/key_store_g10.c:229-313 | for a well-formed tree and any suffix, parsing the print returns the tree and leaves the suffix |
| Sexp.PrefixThenFail | src/librekey/key_store_g10.c:249-303 | a list is refused when one element is, whatever good ones come before it |
| Sexp.RoundTripExactly | src/librekey/key_store_g10.c:160-313 | it does so for no other tree |
| Sexp.ReprintedText | src/librekey/key_store_g10.c:1087-1128 | whatever was accepted prints to a text that parses to the same tree |
| G10.WriteBignum | src/librekey/key_store_g10.c:392-425 | name and value blocks, with a zero octet before a high bit, de-duplicated |
| G10.BignumBlockValue | src/librekey/key_store_g10.c:362-425 | the octets of a written integer read as that integer, leading zero or not |
| G10.BlockInOctets | src/librekey/key_store_g10.c:392-425 | the octets of an integer other than zero have its value, a clear top bit, and a zero in front only before a set one |
| G10.OneOctet | src/librekey/key_store_g10.c:392-425 | an integer's block equals its one-letter name if and only if the integer is that letter's code |
| G10.WriteFields | src/librekey/key_store_g10.c:1130-1242 | public and secret fields in order under the algorithm name |
| G10.WriteKey | src/librekey/key_store_g10.c:1469-1519 | the printed tree of an RSA or DSA key; an Elgamal key is refused |
| G10.NamesSpelled | src/librekey/key_store_g10.c:884-952 | every name the writer and the reader use, spelled out |
| G10.FieldsInOrder | src/librekey/key_store_g10.c:1130-1242 | which integer is written under which name, in order |
| G10.RecordInOctets | src/librekey/key_store_g10.c:1130-1519 | the whole text of a record, from `(11:private-key(3:` to the two closing parentheses |
| G10.LookupVariable | src/librekey/key_store_g10.c:338-360 | the scan returns the first sub-list of that name, and fails on a short one before it |
| G10.LookupField | src/librekey/key_store_g10.c:338-390 | a field is found if and only if it and every field before it kept its value block |
| G10.ReadTree | src/librekey/key_store_g10.c:427-560 | reading the fields of a built tree returns the key or nothing |
| G10.ReadFrom | src/librekey/key_store_g10.c:427-560 | which name each integer of a key that is read comes from, Elgamal keys included |
| G10.ElgamalReads | src/librekey/key_store_g10.c:427-560 | an Elgamal record, which is never written, is read field by field if and only if every value was kept |
| G10.StrncmpIs | src/librekey/key_store_g10.c:884-952 | a block matches a name if and only if they agree up to the end of the block, or up to a zero after the whole name |
| G10.AlgsSpelled | src/librekey/key_store_g10.c:918-957 | which spelled names select RSA, Elgamal and DSA |
| G10.FieldFound | src/librekey/key_store_g10.c:338-390 | in a record of any writer the value of a field is the block after its name, whatever blocks and other fields stand before it or behind |
| G10.ForeignRecord | src/librekey/key_store_g10.c:847-960 | a record of another writer is read if and only if it is the name `private-key` and one list with a known algorithm in front and all its integers |
| G10.TreeFails | src/librekey/key_store_g10.c:392-425 | a record with a zero written as an empty block is refused as a whole |
| G10.KeyRoundTrip | src/librekey/key_store_g10.c:847-960 | build, print, parse and look-up return the key if and only if no integer is its own field name and no zero met a low octet in the buffer |
| G10.ParseSeckey | src/librekey/key_store_g10.c:847-1010 | the reader, parsing and looking up field by field, computes the specified key or refuses |
| G10.StoreAndLoad | src/librekey/key_store_g10.c:847-1519 | writing a key and reading what was written, for every RSA and DSA key; Elgamal keys are not written |
| G10.WritableBelow | src/librekey/key_store_g10.c:392-403 | the integers that fit the buffer are those below 256^8191 |
| Kbx.WriteKeyInfos | src/librekey/key_store_kbx.c:520-536 | a record for each key, with the offset of its last 8 fingerprint octets |
| Kbx.WriteUid | src/librekey/key_store_kbx.c:592-605 | the offset is patched in place; the length is right if the user id fits what is allocated, is empty or is appended without moving the buffer, and zero if not |
| Kbx.PatchUidInfos | src/librekey/key_store_kbx.c:592-605 | patching a field of one record changes that field alone |
| Kbx.FinishBlob | src/librekey/key_store_kbx.c:607-661 | keyblock, the three patched fields and the checksum over the patched octets |
| Kbx.FixedInOctets | src/librekey/key_store_kbx.c:483-518 | the first 20 octets of a blob: length, 2, 1, no flags, the keyblock fields, the number of keys and 28 |
| Kbx.RecordsInOctets | src/librekey/key_store_kbx.c:520-560 | the octets of a key record and of a user id record |
| Kbx.HeadsInOctets | src/librekey/key_store_kbx.c:537-590 | the octets between the records and after the signatures |
| Kbx.PacketsFirst | src/librekey/key_store_kbx.c:607-634 | a keyblock is the packets of the first key in order, then those of the others |
| Kbx.ChecksumInOctets | src/librekey/key_store_kbx.c:640-661 | the last 20 octets of a blob are the hash of all before them |
| Kbx.WritePgp | src/librekey/key_store_kbx.c:483-660 | the memory grows by exactly one blob: its length counts the checksum, its keyblock fields say where the packets are, and its user id fields are those that sizes, allocation and allocator determine; refused exactly for a key without packets or with an empty one |
| Kbx.WriteKeyPackets | src/lib/pgp-key.c:1046-1061 | the packets one after the other, or a refusal when there are none or one is empty |
| KbxImage.ParsePgpBlob | src/librekey/key_store_kbx.c:114-300 | the moving-pointer parser with its record loops is the specified parse, refusals included |
| KbxImage.ParseBlob | src/librekey/key_store_kbx.c:302-372 | the blob type decides; unknown types, short blobs, bad headers and empty or unreadable keyblocks are refused |
| KbxImage.FromMem | src/librekey/key_store_kbx.c:374-436 | the reading loop visits the blobs of the specification, or refuses the image |
| KbxImage.BlobsCoverImage | src/librekey/key_store_kbx.c:374-436 | the blobs of any accepted image, joined, are the whole image |
| KbxImage.HeaderInOctets | src/librekey/key_store_kbx.c:463-481 | the 32 octets of the header blob |
| KbxImage.HeaderTaken | src/librekey/key_store_kbx.c:63-112 | a header blob is taken if and only if it has 32 octets, version 1 and the letters KBXF in either case |
| KbxForeign.BlobKinds | src/librekey/key_store_kbx.c:302-436 | for any octets: length and type decide what becomes of a blob, and exactly when it is refused |
| KbxForeign.ForeignBlobReads | src/librekey/key_store_kbx.c:114-300 | a key blob of any layout, with longer records, a serial number and anything behind the fields, is parsed if and only if the version is 1, the keyblock starts in it and ends in it modulo 2^32, there is a key, and the records hold their fields; each field is then the one at its place in its record |
| KbxImage.KeyInfosRead | src/librekey/key_store_kbx.c:167-188 | the key records written are the key records read |
| KbxImage.UidInfosRead | src/librekey/key_store_kbx.c:224-247 | the user id records written are the ones read |
| KbxImage.WordsRead | src/librekey/key_store_kbx.c:262-273 | the signature words written are the ones read, modulo 2^32 |
| KbxImage.WrittenBlobParses | src/librekey/key_store_kbx.c:114-300 | for counts that fit 16 bits and a size that fits 32 the reader finds every field the writer stored |
| KbxImage.KeyblockFound | src/librekey/key_store_kbx.c:607-634 | the slice at the patched offset and length is the primary's packets followed by its subkeys' packets |
| KbxImage.KeyIdFound | src/librekey/key_store_kbx.c:520-536 | every key-id offset points at the last 8 octets of that key's fingerprint |
| KbxImage.UidFound | src/librekey/key_store_kbx.c:592-605 | every user id offset points at the octets of that user id |
| KbxImage.WrittenBlobReads | src/librekey/key_store_kbx.c:374-436 | a written blob, with anything after it, is visited as itself if and only if it is within the size limit and its keyblock is non-empty and accepted |
| KbxImage.WrittenBlobReadsExactly | src/librekey/key_store_kbx.c:374-436 | for every key the blob is visited as itself if and only if its counts fit 16 bits, it is within the size limit and its keyblock is accepted |
| KbxImage.WriteKeys | src/librekey/key_store_kbx.c:690-699 | one blob for each primary key in order with that turn's clock values, none for subkeys; stops at a key that cannot be written |
| KbxImage.WriteX509 | src/librekey/key_store_kbx.c:666-678 | the X.509 blobs among those read before are copied unchanged, and no others |
| KbxImage.CertificatesFirst | src/librekey/key_store_kbx.c:666-678 | these are the blobs of type 3, in order |
| KbxImage.PrimariesFirst | src/librekey/key_store_kbx.c:690-699 | the keys that are written are the primary ones, in order |
| KbxImage.ToMem | src/librekey/key_store_kbx.c:680-708 | the memory holds header, key blobs and X.509 blobs, determined by the keys, the clock, the allocation and the allocator |
| KbxImage.LengthsRightExactly | src/librekey/key_store_kbx.c:592-605 | every user id length of a written store is right if and only if no append of a non-empty user id outgrows the allocation and is moved by the allocator |
| KbxImage.RoomForAll | src/librekey/key_store_kbx.c:592-605 | an allocation for the whole image is enough for that, whatever the allocator does |
| KbxImage.StoreReads | src/librekey/key_store_kbx.c:374-708 | when counts and sizes fit their fields the written image is read back blob for blob, or refused exactly when some key blob cannot be taken |
| KbxImage.StoreReadsExactly | src/librekey/key_store_kbx.c:374-708 | for every store the written image is read back blob for blob if and only if every key has counts that fit and can be taken |
| KbxImage.SaveAndLoad | src/librekey/key_store_kbx.c:374-708 | saving any store and loading it gives the header, the blob of each primary key in order with times and user id fields, and the X.509 blobs, if and only if every key qualifies; saving fails exactly for unwritable keys |
| KbxCounts.NoKeysCounted | src/librekey/key_store_kbx.c:145-156 | a blob with 65536 keys, or a multiple, counts none and is refused |
| KbxCounts.SurplusSigs | src/librekey/key_store_kbx.c:251-300 | with any number of signatures the blob is taken whenever its keyblock is; from 65536 on only the low 16 bits of them are read, and two of the rest become the times |
| KbxCounts.SurplusUids | src/librekey/key_store_kbx.c:217-273 | from 65536 user ids on the blob is taken if and only if its keyblock is and the offset in the first uncounted record passes as a count and size of signatures |
| KbxCounts.ManyUidsTaken | src/librekey/key_store_kbx.c:217-273 | with exactly 65536 user ids and no subkeys or signatures it always does |
| Signature.AreaSnoc | src/lib/packet-create.c:110-118 | a subpacket added is appended to the area with its length and type |
| Signature.CreateSig.constructor | src/lib/signature.c:626-760 | the builder starts with the keys and user id hashed, nothing of a document, and a zero count at the known place |
| Signature.PrefixInOctets | src/lib/signature.c:380-401 | what is signed, case by case: 99, two octets of size and the key, then 99, size and subkey, or B4, four octets of size and the user id |
| Signature.HashPieces | src/lib/signature.c:771-775 | a document in any pieces is hashed as the document |
| Signature.CreateSig.AddSubpacket | src/lib/signature.c:938-1028 | a subpacket goes to the area of the current phase and nothing else changes |
| Signature.CreateSig.EndHashed | src/lib/signature.c:785-793 | the hashed count is patched and the unhashed area opened, keeping the layout invariant |
| Signature.CreateSig.Write | src/lib/signature.c:807-936 | the packet written has both counts patched; what is hashed is header, count, hashed area and trailer |
| Signature.AreaParses | src/librepgp/packet-parse.c:1967-1995 | an area re-parses to the subpackets that were added, in order, or is refused if one fails the checks by type |
| Signature.PrefixParses | src/librepgp/packet-parse.c:1967-1995 | the first octets of an area parse if and only if they are whole subpackets that pass the checks |
| Signature.PacketParses | src/librepgp/packet-parse.c:2012-2103 | with areas that fit, the parser finds both, the signature octets and the hashed part at its place, or refuses a subpacket |
| Signature.ParsedInOctets | src/librepgp/packet-parse.c:2012-2103 | where any packet that parses holds tag, version 4, both counts, both areas and the rest |
| Signature.PacketReads | src/librepgp/packet-parse.c:2012-2103 | with a hashed area that fits, a packet parses if and only if its subpackets pass and the unhashed area cut to its count is whole subpackets that pass |
| Signature.DigestsAgree | src/lib/signature.c:380-424 | signer and verifier hash the same octets, with 6 plus the area size in the trailer, if and only if the hashed area is below 65536 octets and passes, and the unhashed one, cut to its count, is whole subpackets that pass |
| Signature.InputTells | src/lib/signature.c:506-625 | with bodies below 65536 octets and user ids below 2^32, the verifier computes the same octets for two keys, subkeys or user ids of one case only if they are the same |
| Signature.DigestTells | src/lib/signature.c:660-760 | and so for the signer: two sessions of one case that hash the same octets signed the same keys, subkeys and ids |
| Signature.TruncatedCount | src/lib/signature.c:785-793 | a longer area is cut short by the parser |
| Signature.SignSession | src/lib/signature.c:626-936 | a whole builder run over documents in pieces, user ids, subkeys or bare keys, with areas of any size: the octets hashed are what is signed, 4, kind, algorithms, count, area, 4, FF and four octets of 6 plus the area size, and the packet is given octet by octet too; the verifier computes the signer's digest input in exactly the case `DigestsAgree` states, and when both areas fit the packet parses to what was added |
| SecretPacket.MpisRead | src/lib/writer.c:146-158 | written integers read back in order, whatever follows |
| SecretPacket.MpiInOctets | src/lib/writer.c:146-158 | an integer is its number of bits in two octets and its value in as many octets as that takes |
| SecretPacket.MinBytesBits | src/librepgp/packet-parse.c:644-694 | the bit count announces exactly the octets and the top bit the reader insists on |
| SecretPacket.RoundedSurvives | src/lib/crypto/s2k.c:104-136 | a rounded iteration count survives its one-octet code |
| SecretPacket.IterationTable | src/lib/crypto/s2k.c:104-109 | the counts behind the codes: 1024 and steps of 64, doubled every 16 codes |
| SecretPacket.RoundsUp | src/lib/crypto/s2k.c:111-136 | rounding never lowers a count up to 65011712, picks the least code value that is enough, and cuts larger counts to that one |
| SecretPacket.PlainTailDecodes | src/lib/packet-create.c:405-450 | an unprotected packet tail decodes to its integers |
| SecretPacket.PlainTailInOctets | src/lib/packet-create.c:405-450 | an unprotected tail is 0, the integers, and the sum of their octets in two |
| SecretPacket.SealedTailDecodes | src/lib/packet-create.c:283-398 | a protected tail decodes to its integers under its own password, when its hash algorithm can derive a key |
| SecretPacket.OtherSpecifiersRead | src/librepgp/packet-parse.c:2539-2640 | tails with the simple and the salted specifier, which are never chosen for writing, decode too |
| SecretPacket.SealedTailInOctets | src/lib/packet-create.c:283-398 | a protected tail is 254, cipher, 3, hash, salt, count, initial vector, and integers and hash, the first block of which is xored with the key that password, hash, salt and count give for the initial vector, each later one with that for the block before |
| SecretPacket.OtherPasswordFails | src/librepgp/packet-parse.c:2622 | for any two different passwords there is a cipher under which what is written with one does not decode with the other |
| SecretPacket.CutDoesNotOpen | src/librepgp/packet-parse.c:2682-2776 | integers with a check value, cut anywhere, are refused |
| SecretPacket.CutSealedTail | src/librepgp/packet-parse.c:2539-2776 | a protected tail cut anywhere is refused under its own password |
| KeyProtection.DecodedIsGood | src/librepgp/packet-parse.c:644-694 | whatever a packet decodes to, under any password, is a full set of integers that can be written again |
| KeyProtection.WritesIff | src/lib/packet-create.c:613-696 | a packet is written if and only if the format is known, the key is version 4 with a public part that can be written, and cipher and hash algorithm are known |
| KeyProtection.StoredInOctets | src/lib/packet-create.c:613-696 | a protected packet is tag, length and public part, and that tail under that password; the length is the whole of it if and only if the algorithm is one of 1, 17, 18, 19, 22 and 99 |
| KeyProtection.ClearInOctets | src/lib/packet-create.c:613-696 | an unprotected packet is tag, length and public part, 0, the integers and their sum |
| KeyProtection.WrittenTailReads | src/librepgp/packet-parse.c:3184-3300 | a reader of the written packet gets its whole secret part if the algorithm is measured, and less or nothing if not |
| KeyProtection.WrittenDecodes | src/lib/pgp-key.c:391-415 | a written packet, header included, decodes under its password to the integers written if the algorithm is measured, and to nothing if not |
| KeyProtection.PasswordsDiffer | src/lib/packet-create.c:339 | for any two different passwords there is a cipher under which the stored packet decodes with the one it was written with and not with the other |
| KeyProtection.HeadersRead | src/librepgp/packet-parse.c:3184-3300 | both packet header formats are read, the old one with sizes in one, two and four octets |
| KeyProtection.RightPassword | src/lib/pgp-key.c:417-464 | the current password decrypts the stored packet of a sound key to the original integers |
| KeyProtection.PgpKey.WriteRawPacket | src/lib/pgp-key.c:781-829 | the stored packet is replaced by tag, declared length and body with these integers under that protection, or is left alone |
| KeyProtection.PgpKey.EncryptSecret | src/lib/packet-create.c:352-388 | integers and their hash written through the encrypting writer are the encryption of both together |
| KeyProtection.PgpKey.Lock | src/lib/pgp-key.c:762-779 | a locked secret key holds no integers; nothing else changes; it succeeds exactly for the tags 5 and 7 |
| KeyProtection.PgpKey.Unlock | src/lib/pgp-key.c:720-760 | it succeeds exactly for a secret key that is unlocked already or whose stored packet decrypts; the integers then come from there; otherwise nothing changes |
| KeyProtection.PgpKey.Protect | src/lib/pgp-key.c:855-920 | the packet is re-encrypted under the new password and flagged, octet by octet as the row on stored packets says, with cipher 9, hash 8 and 65536 iterations by default; it succeeds in exactly the stated case, version and hash algorithm included, and a refused write leaves only the protection parameters changed |
| KeyProtection.PgpKey.Unprotect | src/lib/pgp-key.c:922-959 | the packet is stored in clear, octet by octet, and the flag dropped; it succeeds in exactly the stated case, and a failed call changes at most the protection parameters of an unlocked key |
| KeyProtection.PgpKey.Apply | src/lib/pgp-key.c:720-959 | every operation, failed or not, takes the object to the specified state |
| KeyProtection.StepSound | src/lib/pgp-key.c:720-959 | a sound key is sound after an operation, failed or not, if and only if no wrong password passed the check value in it and, unless the algorithm is measured, it wrote nothing |
| KeyProtection.RunSound | src/lib/pgp-key.c:720-959 | over every run on a sound key, failed calls included, it is sound all along if and only if no wrong password ever passes a check value and, unless its algorithm is measured, no write succeeds |
| KeyProtection.OldKeysNeverWrite | src/lib/packet-create.c:621-624 | for keys that are not version 4 none does |
| KeyProtection.WriteLoses | src/lib/packet-create.c:201-224 | a key whose algorithm is not measured, once written and locked, stays locked and without integers through every run with the right passwords |
| KeyProtection.LoadedIsSound | src/librepgp/packet-parse.c:2502-2786 | an unprotected key in a packet whose header declares its length is sound as it is loaded, whatever its version and algorithm |
| KeyProtection.ElgamalIsLost | src/lib/pgp-key.c:855-920 | protecting an unlocked Elgamal key with the default parameters succeeds and, once it is locked, loses it |
| KeyProtection.AlwaysOffered | src/lib/pgp-key.c:417-464 | offering the password of the moment to every unlock and unprotect is enough for the next row |
| KeyProtection.RunRight | src/lib/pgp-key.c:720-959 | when the right password is offered wherever one is needed, and the algorithm is measured or nothing is written, nothing is fooled and the run goes as the flags alone say |
| KeyProtection.RunKey | src/lib/pgp-key.c:391-959 | every run of the object on a loaded key ends in the specified state; if the algorithm is measured or nothing is written, and no wrong password passed a check value, the packet decodes under the current password to the original integers, an unlocked key holds exactly them, a locked one none, and the flag says whether the packet is encrypted |
| PacketLength.PublicLengthExact | src/lib/packet-create.c:151-280 | the declared length is the number of octets written if and only if the key is version 4 and its algorithm is one of 1, 17, 18, 19, 22 and 99; it is never more |
| PacketLength.SecretLengthExact | src/lib/packet-create.c:283-461 | the same for secret keys, each s2k usage and specifier |
| PacketLength.DeclaredProtected | src/lib/packet-create.c:613-696 | the length declared for a protected key, part by part, for usages 254 and 255 and each specifier |
| PacketLength.HeadInOctets | src/lib/packet-create.c:226-247 | where version, creation time, days of validity and algorithm stand |
| PacketLength.PublicInOctets | src/lib/packet-create.c:226-280 | behind that the integers in order, or curve identifier, point and the key derivation fields of ECDH |
| PacketLength.PublicPacketReads | src/lib/packet-create.c:454-461 | a public-key packet reads back as its body in exactly those cases |
| PacketLength.SecretPacketReads | src/lib/packet-create.c:613-696 | a secret-key packet reads back as its body in exactly those cases |
| LinkedList.List.DoInsert | src/lib/list.c:59-113 | a node enters before the given one or at the end, the sequence of nodes and of data otherwise kept; empty data is refused |
| LinkedList.List.Append | src/lib/list.c:115-120 | the data is appended |
| LinkedList.List.Insert | src/lib/list.c:144-154 | the data is put first |
| LinkedList.List.InsertBefore | src/lib/list.c:133-142 | the data is put just before a member |
| LinkedList.List.InsertAfter | src/lib/list.c:122-131 | the data is put just after a member |
| LinkedList.List.Remove | src/lib/list.c:215-238 | exactly that node is unlinked, first, last, only or inner |
| LinkedList.List.Forward | src/lib/list.c:156-204 | front and next visit the sequence |
| LinkedList.List.Backward | src/lib/list.c:162-213 | back and previous visit it in reverse |
| LinkedList.ReverseAt | src/lib/list.c:206-213 | reversal mirrors every position |
| LinkedList.List.Find | src/lib/list.c:182-187 | the first node whose data begins with the given octets, or none; none for no octets |
| LinkedList.List.FindNext | src/lib/list.c:189-195 | the first such node after a given one, or none; none for no octets |
| LinkedList.List.FindAll | src/lib/list.c:182-195 | find and find-next together list all matches in order |
| LinkedList.List.Destroy | src/lib/list.c:240-255 | each node is freed once and the list is empty |
| LinkedList.RunList | src/lib/list.c:59-255 | every run of operations, emptying and refilling included, refines the sequence; both traversals, length and destroy agree with it |
| GapBuffer.BufGap.constructor | src/lib/bufgap.c:127-167 | an opened buffer holds the file after an empty cursor; the character counts miss what follows the first NUL, so nothing if and only if there is none |
| GapBuffer.StrlenStops | src/lib/bufgap.c:86-94 | the character count stops at the first NUL |
| GapBuffer.BufGap.Forwards | src/lib/bufgap.c:177-228 | moves the cursor and never the text, or refuses, in either unit and also with uncounted octets |
| GapBuffer.BufGap.Backwards | src/lib/bufgap.c:230-281 | moves the cursor and never the text, or refuses |
| GapBuffer.BufGap.Seek | src/lib/bufgap.c:283-348 | lands at the requested place exactly when it is within reach of the unit, else stays |
| GapBuffer.SeekLands | src/lib/bufgap.c:283-348 | where each kind of seek leaves the cursor, in either unit |
| GapBuffer.BufGap.Delete | src/lib/bufgap.c:428-449 | removes that many octets at the cursor, or nothing |
| GapBuffer.BufGap.Grow | src/lib/bufgap.c:405-411 | seek to the end, doubling, seek back: what is before the cursor is kept, what follows becomes copies of the octet before it |
| GapBuffer.BufGap.Insert | src/lib/bufgap.c:392-426 | inserting any string into any gap: both halves and the size afterwards, and an edit at the cursor if and only if the text after it survives; with uncounted octets, any string that fits the array |
| GapBuffer.InsertExactly | src/lib/bufgap.c:404-424 | what an insert leaves is the edited text if and only if the text after the cursor is what growing and the last place write over it |
| GapBuffer.SurvivesWithGap | src/lib/bufgap.c:404-424 | shorter than the gap always, filling it only before the same octet, and growing once only before copies of the octet that filled it |
| GapBuffer.BufGap.InsertOctet | src/lib/bufgap.c:412-424 | the whole effect of one octet, with and without the spare place |
| GapBuffer.BufGap.InsertIntoFullGap | src/lib/bufgap.c:392-426 | without the spare place the edit is right if and only if nothing follows the cursor or the octet is already there |
| GapBuffer.BufGap.Peek | src/lib/bufgap.c:451-467 | returns the octet at the distance, restores the text, and the cursor unless it was past what the characters count |
| GapBuffer.BufGap.GetText | src/lib/bufgap.c:469-486 | returns the asked slice, restores the text, and the cursor unless it was past what the characters count |
| GapBuffer.BufGap.Write | src/lib/bufgap.c:488-500 | both halves of the array written out are the text |
| GapBuffer.SafeAnyTime | src/lib/bufgap.c:283-449 | seeks and deletes are always among the operations of the next row, and so is every insert that leaves an octet of the gap |
| GapBuffer.RunGap | src/lib/bufgap.c:127-500 | every run of seeks, deletes, inserts, peeks and slices on any opened file, NULs included, gives the replies, the written text and the cursor of the edited sequence, as long as each insert survives and leaves a spare octet |

## Left out

- Compression, and `encrypt_se_ip_writer` called more than once on one cipher object: each `EncryptOneShot` starts with a fresh cipher.
- Session-key packets, public-key primitives, S2K hashing and the block ciphers: arbitrary functions or absent.
- Failing allocations and failing random generators; a full disk or closed descriptor below the writers.
- The general packet parser, dearmoring, CRC-24 and the armor header and trailer lines; small readers written from RFC 4880 stand in their place.
- SeIp.EncryptSession: says nothing of a streamed session with a file name whose data has, where a receiver looks for the second length, an octet from 224 on: such data can frame itself by accident, as `AccidentalFraming` shows, so no converse holds there.
- Cfb.PgpCrypt.Crypt: the in-place 64-bit word buffers are octet strings here.
- Armor.FromBase64: input octets below 128, since the C code indexes its table with a signed character.
- Sexp.Parse: the node arrays are values; the parser's recursion depth on the C stack is not bounded.
- G10: protected and shadowed records, the key grip, the protected-at time, and integers of 8192 octets or more, which do not fit the C buffer.
- Kbx.WriteUid: which reallocations move the buffer is a parameter; a store through the old pointer is then lost, while in C it goes to freed memory.
- KbxImage.ParsePgp: the header blob's two times, which the code reads at other offsets than it writes them, are not modelled; a read outside the memory is a refusal here.
- KbxImage.StoreReads: whether the packet reader accepts a keyblock is a parameter.
- Signature.SignSession: packets whose body length fits 32 bits.
- Signature.ParseArea: the checks by subpacket type (src/librepgp/packet-parse.c:1656-1930) are a parameter, any predicate on type and body; types that the parser passes over without reading their body are not modelled. Partial lengths inside an area are refused. Version 3 signatures are not modelled.
- KeyProtection: G10-format keys, and calls without a password provider; a provider is the password it gives, or none.
- KeyProtection.OpenTail: usages other than 0 and 254, and 254 for keys before version 4, are read by a parameter, any function to full sets of integers; they are never written.
- KeyProtection.ReadPacket: old-format packets of indeterminate length are refused.
- KeyProtection.Decode: reads the first packet of the stored octets, its public part by its length. The parser goes on behind a packet it cannot read; what it makes of octets past a declared end is not modelled.
- PacketLength: `pgp_write_struct_seckey` accepts usage 255 when it computes the length and then refuses to write the body; only the length function has that case.
- LinkedList: the head allocated on first use and the zero-filled element for a null data pointer.
- LinkedList.List.Find: an item shorter than the searched data is no match here; the C code compares past the end of the item.
- LinkedList.List.FindNext: the same.
- GapBuffer.BufGap.Forwards: with the cursor past the first NUL of a file the character count is a huge unsigned number and the C code runs past the text; the caller must stay inside it.
- GapBuffer.BufGap.Grow: buffers opened on files without a NUL; with one, growing seeks to the end of what was counted only, and octets of the new half that nothing has set become text.
- GapBuffer.BufGap.Insert: with a NUL in the file, no insert for which the array grows, for the same reason.
- GapBuffer: line counts, line seeks, and the build with multi-octet runes.
- User ids, capability tables, name tables, key generation, the command line and the JSON layers: easy or outside the machines above.
