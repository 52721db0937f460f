# libSRTP in Dafny

This project models the core of libSRTP, the Secure Real-time Transport Protocol library, and proves what
it promises of it: how packets are protected and unprotected, how replay is detected, how streams are
created, re-keyed and freed, and the primitives underneath.

The layers, from the bottom:

* `Words`, `BitVectors`, `OctetStrings`: 32-bit words, the bit vectors of the replay databases in their
  portable and their SSSE3 form, and the constant-time comparison in both of its forms.
* `CounterMode`, `AesCipher`, `Sha1Hash`, `HmacSha1`: AES counter mode with its keystream buffer, AES by
  tables against FIPS 197, SHA-1 fed in pieces against FIPS 180, HMAC over a reusable context against
  RFC 2104. `Fips197` and `Fips180` tie the definitions to the standards without repeating them: products in the
  field as remainders of polynomials, rows by position, constants by where they come from, and the examples the
  standards print. `Suites` puts the primitives together into the session keys that the protocol uses.
* `ReplayWindow`, `RtcpReplay`, `ReplayDatabases`: index estimation and the two replay windows, as values
  and as the structures in memory that implement them.
* `HeaderExtensions`, `ExtensionMasks`: header extension encryption (RFC 6904), as a whole and octet by octet.
* `Packets`, `Transforms`, `RoundTrips`, `Nonces`, `Layouts`, `PacketBuffers`: what protection does to the octets
  of one packet, that unprotection undoes it, that no initialization vector is formed twice, what every octet of a
  vector is, and the same in buffers that may be one and the same.
* `Sessions`, `SessionRuns`, `OnTheWire`, `EndToEnd`, `RtcpEndToEnd`: a session with many streams, whole runs of
  it, what exactly goes out and what must hold of a packet to be let in, and a sender and a receiver with a bad
  network between them, for RTP and for RTCP.
* `Allocations`, `Rekeying`, `StreamObjects`, `StreamLists`, `SessionObjects`, `Trailers`: streams as objects
  that share key material with a template, the list that is iterated while entries are removed from it, and
  the life of a session from allocation to deallocation.

`Status` holds the status codes and `Slices` facts about sequences.

How the source's entities appear: an `srtp_t` is the class `SessionObjects.Srtp`, whose value is a
`Sessions.Session`; it holds its streams in a `StreamLists.StreamList`, the array that the library grows and
compacts. An `srtp_stream_ctx_t` is `StreamObjects.StreamCtx`. The replay databases are embedded
in it as values; `ReplayDatabases` shows that the C structures act on those values. A block cipher is a
function on blocks, an authenticator a function from messages to tags, AES-GCM a pair of functions of which
the second undoes the first. The event of a key reaching its hard limit is a parameter, `expired`, of the
calls that count key usage. Memory allocation always succeeds. An SSRC stays in network byte order, as four
octets. Packet buffers are the caller's memory, apart from the library's, and shorter than 2^63 octets.

Some promises turn out to hold only under a condition, which is stated exactly:

* A packet index is never used twice, except when repeated transmission is allowed and the window still
  holds the index (`ReplayWindow.RepeatIff`); the repeated packet then goes out under the index it had
  (`ReplayWindow.RepeatedIndex`).
* The index stays below 2^48 unless a packet of the next cycle arrives in the second half of the last cycle
  with no rollover counter announced; that packet is given the index its number had in the first cycle
  (`ReplayWindow.OutgrownIff`), which is then not the nearest (`ReplayWindow.EstimateIsNearest`).
* No SRTCP index is accepted twice on an SSRC that is not also sent on (`SessionRuns.NoRtcpAcceptedTwice`,
  `RtcpEndToEnd.Delivery`). Sending moves the start of the window under its bits: an index of the window then
  counts as a replay exactly if the one before it was accepted (`RtcpReplay.SendingMisaligns`). So every packet
  that a new stream has delivered is delivered again after a send under the same SSRC
  (`RtcpEndToEnd.DeliveredAgain`).
* The MKI of an RTCP packet is looked up at the RTP tag length. The lookup works if the two tag lengths agree
  or the transform is AEAD (`RoundTrips.RtcpKeyFound`). Otherwise, whatever the ciphers, the authenticators, the
  key and the packet, there is an identifier with which it fails (`RoundTrips.RtcpKeyMissed`).
* Unprotecting RTCP writes no octet beyond the room the caller gave, except for an AEAD packet that is not
  encrypted, comes from another buffer, and for which the room holds the packet but not the packet with its
  tag (`PacketBuffers.OpenRtcpAeadInto`, `SessionObjects.Srtp.UnprotectRtcp`). Every such packet, opened into a
  buffer of just its plain length, is one (`RoundTrips.ExactRoomOverruns`).
* Re-keying keeps every stream and every block of memory accounted for, except when the new policy's window
  size is refused: then a stream that was to be re-keyed is gone (`Rekeying.StreamUpdateLoses`), and a template
  that was to be replaced leaves blocks behind (`SessionObjects.Srtp.UpdateTemplate`).
* Iterating over the streams visits each once, whatever the callback removes. What it removes is the stream
  visited if SSRCs are distinct (`StreamLists.StreamList.ForEach`); with an SSRC listed twice it is the first
  one (`StreamLists.WrongOneLeaves`).
* An AES key schedule is turned into one for decryption if the context counts the right number of rounds
  before the call; what any other count leaves is `AesCipher.ExpandedKey.ExpandDecryptionKey`.

## Model

| member | source | states |
|---|---|---|
| `Words.ShiftedBit` | libsrtp/crypto/math/datatypes.c:386-403 | bit i of the shifted words is bit i + shift of the words before, or clear if there is none |
| `BitVectors.ShiftPortable` | libsrtp/crypto/math/datatypes.c:375-403 | the word loop in place yields the shifted words |
| `BitVectors.ShiftSsse3` | libsrtp/crypto/math/datatypes.c:317-371 | the vector loop, its last store and the zero fill yield the same shifted words as the portable form |
| `BitVectors.V128ShiftPortable` | libsrtp/crypto/math/datatypes.c:231-257 | a 128-bit value shifted by any amount, in place |
| `BitVectors.V128ShiftSsse3` | libsrtp/crypto/math/datatypes.c:206-227 | the shuffle-and-shift form yields the same 128-bit value |
| `BitVectors.FirstLoadInside` | libsrtp/crypto/math/datatypes.c:310-320 | once the guard on the truncated shift has passed, the first vector loaded lies inside the vector exactly if truncation lost nothing |
| `BitVectors.Allocate` | libsrtp/crypto/math/datatypes.c:263-291 | fails exactly for no bits or no memory; else the length is rounded up to whole words and every bit is clear |
| `BitVectors.BitVector.LeftShiftPortable` | libsrtp/crypto/math/datatypes.c:375-403 | the bits are the old bits moved down, the words beyond the length stay zero |
| `BitVectors.BitVector.LeftShiftSsse3` | libsrtp/crypto/math/datatypes.c:310-371 | the same bits and the same words as the portable form, for every shift that is not mangled by truncation |
| `OctetStrings.EqualPortable` | libsrtp/crypto/math/datatypes.c:407-487 | word-wise accumulation says equal if and only if the strings are |
| `OctetStrings.EqualSse2` | libsrtp/crypto/math/datatypes.c:407-487 | the vector form with its stages of 32, 16, 8 and 1 octets says equal if and only if the strings are |
| `CounterMode.AdvancedCounts` | libsrtp/crypto/cipher/aes_icm.c:266-286 | clocking adds one to the 16-bit counter and leaves the other fourteen octets alone, until the counter is used up |
| `CounterMode.CryptCancels` | libsrtp/crypto/cipher/aes_icm.c:297-414 | encrypting twice at the same position gives back the data |
| `CounterMode.CryptSplits` | libsrtp/crypto/cipher/aes_icm.c:297-414 | encrypting in pieces is encrypting at once: the leftover of a block carries over |
| `CounterMode.CounterBlocksDiffer` | libsrtp/crypto/cipher/aes_icm.c:266-286 | two counter blocks coincide only with the same first fourteen octets and the same count |
| `CounterMode.NewBlocksExact` | libsrtp/crypto/cipher/aes_icm.c:316-321 | the number of new blocks computed before encrypting is the number that will be used |
| `CounterMode.Icm.SetIv` | libsrtp/crypto/cipher/aes_icm.c:236-259 | the counter is the salt XOR-ed with the vector and the keystream starts over |
| `CounterMode.Icm.Encrypt` | libsrtp/crypto/cipher/aes_icm.c:297-414 | from one buffer to another or in place, the destination gets the data XOR the keystream at the current position; terminus exactly if the counter would run out, and then nothing changes |
| `CounterMode.Icm.Output` | libsrtp/crypto/cipher/cipher.c:102-112 | encrypting zeros yields the keystream at the current position |
| `AesCipher.DecryptInvertsEncrypt` | libsrtp/crypto/cipher/aes.c:2102-2160 | under FIPS 197 with a bijective S-box, the inverse cipher with the inverse key schedule undoes the cipher |
| `AesCipher.AesRound` | libsrtp/crypto/cipher/aes.c:1648-1671 | four table lookups per column are a round of FIPS 197, in place |
| `AesCipher.AesInvRound` | libsrtp/crypto/cipher/aes.c:1673-1696 | the inverse tables are a round of the equivalent inverse cipher, in place |
| `AesCipher.ExpandedKey.Expand128` | libsrtp/crypto/cipher/aes.c:1404-1443 | the round keys of FIPS 197 for a 128-bit key |
| `AesCipher.ExpandedKey.Expand256` | libsrtp/crypto/cipher/aes.c:1445-1496 | the round keys of FIPS 197 for a 256-bit key |
| `AesCipher.ExpandedKey.ExpandEncryptionKey` | libsrtp/crypto/cipher/aes.c:1498-1515 | the round keys for 16 and 32 octets, bad_param and no change for any other length |
| `AesCipher.ExpandedKey.ExpandDecryptionKey` | libsrtp/crypto/cipher/aes.c:1517-1644 | for every round count on entry, which entry of the expanded schedule ends up where and which are unmixed; the decryption schedule if the count was right, the plain schedule if it was below two |
| `AesCipher.Encrypt` | libsrtp/crypto/cipher/aes.c:2102-2130 | the sixteen octets become the cipher of FIPS 197 under the round keys held |
| `AesCipher.Decrypt` | libsrtp/crypto/cipher/aes.c:2132-2160 | the sixteen octets become the inverse cipher under the round keys held |
| `AesCipher.EncryptThenDecrypt` | libsrtp/crypto/cipher/aes.c:1498-2160 | expanding a key both ways and running both ciphers gives back the block |
| `Fips197.Times2Doubles` | libsrtp/crypto/cipher/aes.c:1392-1400 | doubling takes the remainder of a product by x^8 + x^4 + x^3 + x + 1 to the remainder of twice the product, with products of polynomials defined on their own |
| `Fips197.Multiples` | libsrtp/crypto/cipher/aes.c:1392-1400 | the multiples by 2, 3, 9, 11, 13 and 14 that the tables hold are products in that field |
| `Fips197.ProductUnique` | libsrtp/crypto/cipher/aes.c:1392-1400 | a product in the field is determined by its factors |
| `Fips197.PrintedProducts` | libsrtp/crypto/cipher/aes.c:1392-1400 | {57} times {02}, {04}, {08}, {10} and {13} are what FIPS 197 prints |
| `Fips197.PrintedConstants` | libsrtp/crypto/cipher/aes.c:1404-1443 | the round constants are 01 02 04 08 10 20 40 80 1b 36 |
| `Fips197.RowsShift` | libsrtp/crypto/cipher/aes.c:1648-1671 | row r of the state moves by r places |
| `Fips197.RowsShiftBack` | libsrtp/crypto/cipher/aes.c:1673-1696 | and back in the inverse cipher |
| `Fips197.WordTurns` | libsrtp/crypto/cipher/aes.c:1404-1443 | a word of the key schedule turns by one octet before it is substituted |
| `Fips197.Expands128` | libsrtp/crypto/cipher/aes.c:1404-1443 | the round key of appendix A.1 of FIPS 197, for any S-box that agrees with it on the octets used |
| `Fips197.Expands256` | libsrtp/crypto/cipher/aes.c:1445-1496 | the words of appendix A.3, up to the one that is substituted without turning |
| `Fips197.FirstRound` | libsrtp/crypto/cipher/aes.c:2102-2130 | the first round of the example in appendix B, from input and key |
| `Sha1Hash.PaddedMessage` | libsrtp/crypto/hash/sha1.c:278-440 | the tail words the finishing code writes are the padding of FIPS 180, in one block or in two |
| `Sha1Hash.Core` | libsrtp/crypto/hash/sha1.c:91-212 | eighty rounds over the expanded block are the compression function |
| `Sha1Hash.Sha1Ctx.Update` | libsrtp/crypto/hash/sha1.c:230-271 | after any sequence of pieces the context holds the hash of their whole blocks, the tail and the bit count |
| `Sha1Hash.Sha1Ctx.Final` | libsrtp/crypto/hash/sha1.c:278-463 | the digest is that of FIPS 180 of everything fed |
| `Fips180.Roots` | libsrtp/crypto/hash/sha1.c:74-77 | the round constants are the square roots of 2, 3, 5 and 10 with thirty fractional bits |
| `Fips180.InitialCounts` | libsrtp/crypto/hash/sha1.c:214-222 | the octets of the initial value |
| `Fips180.WordFunctions` | libsrtp/crypto/hash/sha1.c:59-66 | rotations by 1, 5 and 30, choice, parity and majority, on all combinations of bits |
| `Fips180.ScheduleIs` | libsrtp/crypto/hash/sha1.c:127-140 | word t of the schedule comes from words t - 3, t - 8, t - 14 and t - 16 |
| `Fips180.FirstRounds` | libsrtp/crypto/hash/sha1.c:91-212 | the first two rounds of the example that hashes "abc" |
| `Fips180.CompressAdds` | libsrtp/crypto/hash/sha1.c:91-212 | the rounds are added to the value before, modulo 2^32, and the digest is the five words in order |
| `Fips180.PaddingIs` | libsrtp/crypto/hash/sha1.c:278-440 | a one bit, zeros and the length in bits fill up to the next multiple of 64 octets |
| `Fips180.LengthIs` | libsrtp/crypto/hash/sha1.c:278-440 | the length in bits is eight octets, the high four zero |
| `HmacSha1.HmacCtx.Init` | libsrtp/crypto/hash/hmac.c:115-155 | a key of up to twenty octets is accepted, a longer one refused; the context has absorbed the inner padding |
| `HmacSha1.HmacCtx.Start` | libsrtp/crypto/hash/hmac.c:157-164 | whatever was authenticated before, the next message starts afresh |
| `HmacSha1.HmacCtx.Compute` | libsrtp/crypto/hash/hmac.c:181-229 | the tag is the truncated HMAC of RFC 2104 of the octets since the last start |
| `Fips180.HmacIs` | libsrtp/crypto/hash/hmac.c:132-142 | the construction of RFC 2104, with every octet of the inner and the outer pad |
| `Suites.EncryptBlock` | libsrtp/crypto/cipher/aes_icm.c:266-275 | encrypting a block in place under an expanded key is the block function that counter mode runs on |
| `Suites.PacketTag` | libsrtp/srtp/srtp.c:2480-2500 | start, update over the packet and compute over the rollover counter yield the tag the packet carries |
| `Suites.SuiteIsLawful` | libsrtp/srtp/srtp.c:3341-3361 | AES-128 and AES-256 counter mode with HMAC-SHA1, for any number of master keys, any two tag lengths up to 16, any services, with or without a header extension cipher, meets what the protocol asks of its transforms |
| `Suites.TagIsPrefix` | libsrtp/crypto/hash/hmac.c:216-222 | a tag is the first octets of the HMAC |
| `ReplayWindow.EstimateFollowsDelta` | libsrtp/crypto/replay/rdbx.c:112-145 | the estimate has the packet's sequence number and is the index that delta points at modulo 2^48, equal to it exactly within 48 bits |
| `ReplayWindow.EstimateIsNearest` | libsrtp/crypto/replay/rdbx.c:112-145 | for every local index, no index with that sequence number is nearer than the estimate, if and only if the packet does not belong to the cycle after the last |
| `ReplayWindow.EstimateFindsTrueIndex` | libsrtp/crypto/replay/rdbx.c:280-299 | a packet less than 2^15 away from the local index is placed at its true index |
| `ReplayWindow.AnnouncedIs` | libsrtp/srtp/srtp.c:1790-1834 | with an announced rollover counter a packet is placed under it; ahead or behind exactly if more than 2^15 from the local index |
| `ReplayWindow.CheckIsExact` | libsrtp/crypto/replay/rdbx.c:227-243 | each status exactly when the index is older than the window, was accepted, or is new |
| `ReplayWindow.AddRepresents` | libsrtp/crypto/replay/rdbx.c:253-270 | adding an index adds it to the set that the window represents, and nothing else |
| `ReplayWindow.JumpRepresents` | libsrtp/crypto/replay/rdbx.c:323-338 | clearing the window on a jump forgets nothing that could still be checked |
| `ReplayWindow.AdmitRepresents` | libsrtp/srtp/srtp.c:2375-2394 | an admitted index is new and enters the set; a refusal changes nothing and is for the reason given |
| `ReplayWindow.RepeatIff` | libsrtp/srtp/srtp.c:2387-2393 | an index is given out again if and only if repeated transmission is allowed and the window holds it |
| `ReplayWindow.RepeatedIndex` | libsrtp/srtp/srtp.c:2387-2393 | admitting a sequence number again with repetition allowed gives the same index and leaves the window as it is |
| `ReplayWindow.OutgrownIff` | libsrtp/crypto/replay/rdbx.c:112-145 | with any announced rollover counter and either repetition setting, the index passes 2^48 if and only if none is announced and a packet of the next cycle comes in the second half of the last one; the packet is then given its bare sequence number |
| `ReplayWindow.RunRepresents` | libsrtp/crypto/replay/rdbx.c:227-338 | after any run of packets and announced rollover counters, the window represents exactly the admitted indices and none was admitted twice |
| `ReplayWindow.ReceiverAgrees` | libsrtp/crypto/replay/rdbx.c:112-299 | over every run of losses, duplicates and reorderings within 2^15, a receiver of 16-bit numbers admits what one told the 48-bit indices would |
| `ReplayWindow.IdealIsSound` | libsrtp/crypto/replay/rdbx.c:227-270 | the receiver told the indices accepts nothing twice and only what was sent |
| `RtcpReplay.CheckIsExact` | libsrtp/crypto/replay/rdb.c:74-93 | each status exactly when the index is below the window, was accepted, or is new |
| `RtcpReplay.AddRepresents` | libsrtp/crypto/replay/rdb.c:103-126 | adding an index adds it to the set that the window represents, and nothing else |
| `RtcpReplay.ReceiveRun` | libsrtp/crypto/replay/rdb.c:74-126 | in every receive run no index is accepted twice, and an index is refused exactly if it was accepted or is below the window |
| `RtcpReplay.SenderRun` | libsrtp/crypto/replay/rdb.c:128-140 | call n yields index n, up to 2^31 - 1, and key_expired from then on |
| `RtcpReplay.SendingMisaligns` | libsrtp/crypto/replay/rdb.c:128-135 | after a send, an index of the window is taken for a replay if and only if the index before it was accepted |
| `RtcpReplay.AcceptedAgain` | libsrtp/crypto/replay/rdb.c:74-135 | index 5, accepted once, is accepted again after a send, and 6, which never came, is refused |
| `ReplayDatabases.Rdbx.Check` | libsrtp/crypto/replay/rdbx.c:227-243 | the bit vector in memory answers as the window's value does |
| `ReplayDatabases.Rdbx.AddIndex` | libsrtp/crypto/replay/rdbx.c:253-270 | shifting and setting bits in memory, with either shift, adds to the window's value |
| `ReplayDatabases.Rdbx.SetRocSeq` | libsrtp/crypto/replay/rdbx.c:323-338 | replay_old and no change for an earlier rollover counter, else a cleared window at the new index |
| `ReplayDatabases.Init` | libsrtp/crypto/replay/rdbx.c:156-169 | bad_param for size zero, else an empty window of the size rounded up to words |
| `ReplayDatabases.Rdb.Check` | libsrtp/crypto/replay/rdb.c:74-93 | the 128 bits in memory answer as the window's value does |
| `ReplayDatabases.Rdb.AddIndex` | libsrtp/crypto/replay/rdb.c:103-126 | setting or shifting the 128 bits in memory, with either shift, adds to the window's value |
| `ReplayDatabases.Rdb.IncrementStart` | libsrtp/crypto/replay/rdb.c:128-135 | the start moves on by one or the key has expired |
| `HeaderExtensions.ProcessCancels` | libsrtp/srtp/srtp.c:1587-1678 | masking the elements twice gives back the extension, in one-byte and in two-byte form, for every layout of elements and padding |
| `HeaderExtensions.ProcessCovers` | libsrtp/srtp/srtp.c:1587-1678 | octets that are not data of a listed element do not change |
| `ExtensionMasks.ProcessMasks` | libsrtp/srtp/srtp.c:1587-1678 | every data octet of a listed element is XOR-ed with the keystream octet at its place, where the keystream runs on over headers and data but not over padding |
| `ExtensionMasks.ElementFields` | libsrtp/srtp/srtp.c:1602-1616 | id and length of an element in both forms, and where processing stops |
| `ExtensionMasks.FormIs` | libsrtp/srtp/srtp.c:1599-1640 | the profile 0xbede is the one-byte form, 0x1000 to 0x100f the two-byte form |
| `HeaderExtensions.TransformCancels` | libsrtp/srtp/srtp.c:1587-1678 | the same for the whole extension with its header |
| `HeaderExtensions.KeystreamSuffices` | libsrtp/srtp/srtp.c:1600-1678 | an extension short enough never exhausts the keystream |
| `HeaderExtensions.ProcessHeaderEncryption` | libsrtp/srtp/srtp.c:1587-1678 | the loops over the buffer, drawing keystream as they go, leave what the function on octets defines, and nothing outside the extension changes |
| `Packets.LayoutDependsOnPrefix` | libsrtp/srtp/srtp.c:93-153 | packets that agree up to the extension header validate alike and have the same layout, sequence number and SSRC |
| `Packets.ParsesBuilt` | libsrtp/srtp/srtp.c:93-153 | of a packet whose header was built from fields, parsing reads the fields back, whatever follows |
| `Packets.ValidIsBuilt` | libsrtp/srtp/srtp.c:93-153 | a packet that validates starts with such a header |
| `Packets.OctetsAt` | libsrtp/srtp/srtp.c:1715-1727 | octet j of a field of k octets is digit k - 1 - j of its value in base 256 |
| `Packets.OctetsInjective` | libsrtp/srtp/srtp.c:1715-1727 | a big-endian field determines its value |
| `Nonces.RtcpIcmIvLayout` | libsrtp/srtp/srtp.c:4162-4165 | the two shifted halves of the SRTCP index form the layout of the SRTP vector |
| `Nonces.CounterBlocksDisjoint` | libsrtp/srtp/srtp.c:2401-2410 | under one key, counter blocks of two packets coincide only for the same SSRC, the same index and the same block |
| `Nonces.AeadIvInjective` | libsrtp/srtp/srtp.c:1709-1743 | under one salt, AEAD vectors coincide only for the same SSRC and index |
| `Nonces.RtcpAeadIvInjective` | libsrtp/srtp/srtp.c:3571-3610 | the same for SRTCP |
| `Layouts.CounterBlockIs` | libsrtp/srtp/srtp.c:2401-2410 | octet by octet: the salt, the SSRC in octets 4-7, the index in octets 8-13, the number of the block in octets 14-15 |
| `Layouts.CounterBlockUnique` | libsrtp/srtp/srtp.c:2401-2410 | there is one block with these octets |
| `Layouts.AeadIvIs` | libsrtp/srtp/srtp.c:1709-1743 | octet by octet: the salt in octets 0-1, the SSRC in octets 2-5, the index in octets 6-11 |
| `Layouts.RtcpAeadIvIs` | libsrtp/srtp/srtp.c:3571-3610 | the same with the index in octets 8-11 |
| `RoundTrips.HeaderRestored` | libsrtp/srtp/srtp.c:2452-2461 | a masked header still validates, keeps its layout and unmasks to the original |
| `RoundTrips.OpenUndoesSealIcm` | libsrtp/srtp/srtp.c:2325-2513 | unprotecting a packet protected by counter mode and HMAC, with any services, gives back every octet |
| `RoundTrips.OpenUndoesSealAead` | libsrtp/srtp/srtp.c:1876-2006 | the same for AEAD |
| `RoundTrips.OpenUndoesSeal` | libsrtp/srtp/srtp.c:2207-2848 | the round trip for every packet, cipher, service, MKI setting and header extension; the length grows by tag and MKI |
| `RoundTrips.OpenUndoesSealRtcpIcm` | libsrtp/srtp/srtp.c:4425-4477 | the transforms alone, without AEAD: what was sealed opens, and the trailer carries index and E bit |
| `RoundTrips.OpenUndoesSealRtcpAead` | libsrtp/srtp/srtp.c:3871-3952 | the transforms alone, with AEAD, encrypted or only authenticated |
| `RoundTrips.ExactRoomOverruns` | libsrtp/srtp/srtp.c:3871-3930 | every packet authenticated without encryption, opened into a separate buffer of its plain length, is accepted and overruns the buffer |
| `RoundTrips.RtpKeyFound` | libsrtp/srtp/srtp.c:1745-1788 | the MKI a sender wrote leads the receiver to the same keys |
| `RoundTrips.RtcpKeyFound` | libsrtp/srtp/srtp.c:1745-1788 | the same for RTCP if the two tag lengths agree or the transform is AEAD |
| `RoundTrips.RtcpKeyMissed` | libsrtp/srtp/srtp.c:1757-1766 | for every key of a policy with an MKI, no AEAD and two tag lengths, under any ciphers and authenticators, and every packet it can protect: an identifier with which the receiver does not find the key |
| `PacketBuffers.SealInto` | libsrtp/srtp/srtp.c:2325-2513 | in place or into another buffer, the destination starts with the protected packet and is untouched after it |
| `PacketBuffers.CheckLength` | libsrtp/srtp/srtp.c:2662-2670 | the comparisons of wrapping differences amount to the cases of the length check |
| `PacketBuffers.OpenInto` | libsrtp/srtp/srtp.c:2613-2780 | in place or into another buffer, the destination starts with the plain packet and is untouched after it |
| `PacketBuffers.SealRtcpIcmInto` | libsrtp/srtp/srtp.c:4092-4244 | the RTCP packet with trailer, MKI and tag, in place or not |
| `PacketBuffers.SealRtcpAeadInto` | libsrtp/srtp/srtp.c:3633-3794 | the RTCP packet with tag, trailer and MKI, in place or not |
| `PacketBuffers.OpenRtcpIcmInto` | libsrtp/srtp/srtp.c:4425-4477 | the plain RTCP packet, in place or not |
| `PacketBuffers.OpenRtcpAeadInto` | libsrtp/srtp/srtp.c:3871-3952 | in place or not, the plain RTCP packet, followed by its tag exactly if it is not encrypted and the buffers differ; octets beyond the room given are written if and only if moreover the room ends inside the tag, also when the tag then turns out to be wrong |
| `PacketBuffers.BufferDoesNotMatter` | libsrtp/srtp/srtp.c:2344-2372 | the same octets go out whichever buffer is used, exactly if a tag is written or the leftovers agree |
| `Sessions.TurnValid` | libsrtp/srtp/srtp.c:2240-2394 | taking an index keeps a session valid, and the checks before it have passed |
| `SessionRuns.CallKeepsValid` | libsrtp/srtp/srtp.c:1840-4532 | no call, however it ends, breaks a session |
| `SessionRuns.RecordedIsAdmission` | libsrtp/srtp/srtp.c:2579-2600 | checking first and recording after authentication amounts to one admission |
| `SessionRuns.NoIndexTwice` | libsrtp/srtp/srtp.c:2375-2394 | over any calls on any streams, every window represents exactly the indices used under its SSRC and no SSRC and index are used twice |
| `SessionRuns.NoRtcpIndexTwice` | libsrtp/srtp/srtp.c:4140-4150 | over any calls, no SRTCP index of an SSRC is given out twice |
| `SessionRuns.NoRtcpAcceptedTwice` | libsrtp/srtp/srtp.c:4374-4529 | over any calls that do not send RTCP under an SSRC, no SRTCP index of it is accepted twice and its window represents exactly the accepted ones |
| `SessionRuns.NoKeystreamTwice` | libsrtp/srtp/srtp.c:2375-2429 | over any calls, no two RTP packets share a counter block or an AEAD vector, even on streams that share a key |
| `SessionRuns.NoRtcpKeystreamTwice` | libsrtp/srtp/srtp.c:4140-4180 | the same for RTCP packets |
| `SessionRuns.ProvisionalIsEager` | libsrtp/srtp/srtp.c:2558-2577 | using the template as a provisional stream gives what a stream cloned beforehand would have given; on failure no stream appears |
| `SessionRuns.ProvisionalRtcpIsEager` | libsrtp/srtp/srtp.c:4285-4527 | the same for RTCP, because the template's own window is never used |
| `OnTheWire.SealedIs` | libsrtp/srtp/srtp.c:1876-2513 | every octet of a protected packet: header, listed extension elements, payload XOR keystream of its own counter blocks or in the clear, MKI, and the tag over packet and rollover counter; with AEAD, vector, associated data and plaintext |
| `OnTheWire.OpenedIs` | libsrtp/srtp/srtp.c:2008-2848 | what must hold of a packet to be opened: length, room, a key that has not expired, the tag under the index, and every octet of the plain packet |
| `OnTheWire.SealedRtcpIs` | libsrtp/srtp/srtp.c:3616-4244 | every octet of a protected RTCP packet, with the E bit and the index |
| `OnTheWire.OpenedRtcpIs` | libsrtp/srtp/srtp.c:3796-4532 | what must hold of an RTCP packet to be opened: length, room, E bit, replay check, tag, and every octet of the plain packet |
| `OnTheWire.ProtectedIs` | libsrtp/srtp/srtp.c:2207-2513 | srtp_protect succeeds only with the key asked for, not expired, and enough room, and sends those octets at an index with the packet's sequence number |
| `OnTheWire.UnprotectedIs` | libsrtp/srtp/srtp.c:2515-2848 | srtp_unprotect lets in only packets that are authentic under a key of the stream, named by the packet, at the index where they are recorded |
| `OnTheWire.ProtectedRtcpIs` | libsrtp/srtp/srtp.c:4004-4244 | srtp_protect_rtcp sends those octets at the next index, and only where they fit the room it was given |
| `OnTheWire.UnprotectedRtcpIs` | libsrtp/srtp/srtp.c:4246-4532 | srtp_unprotect_rtcp lets in only packets that are authentic under a key of the stream, at the index they carry |
| `OnTheWire.MismatchFails` | libsrtp/srtp/srtp.c:2690-2740 | a packet whose tag does not fit is an authentication failure and changes nothing |
| `OnTheWire.RtcpMismatchFails` | libsrtp/srtp/srtp.c:4425-4445 | the same for RTCP |
| `OnTheWire.RocTakes` | libsrtp/srtp/srtp.c:4837-4851 | after srtp_stream_set_roc the next packet is placed under that rollover counter |
| `EndToEnd.SentIsGenuine` | libsrtp/srtp/srtp.c:2207-2513 | everything a run sends is sealed under the stream's keys at an index that carries its sequence number |
| `EndToEnd.ReceiverCatches` | libsrtp/srtp/srtp.c:2515-2848 | a receiver of octets, with a stream for the SSRC or only a template, among any other streams, delivers what one told the true indices would |
| `EndToEnd.ExpectedOnce` | libsrtp/srtp/srtp.c:2579-2600 | what is to be delivered are packets that were sent, no index twice |
| `EndToEnd.Delivery` | libsrtp/srtp/srtp.c:2207-2848 | sender, network that loses, duplicates, reorders and mixes in octets with a wrong tag, receiver with a listed stream or a template: the packets delivered are the packets sent, octet for octet, each index at most once |
| `RtcpEndToEnd.UnprotectUndoesSeal` | libsrtp/srtp/srtp.c:4246-4532 | srtp_unprotect_rtcp on a sealed packet, with key lookup, E bit check, replay check and recording, on a listed stream or by the template: the packet comes back and its index is recorded, or the status is that of the replay check and nothing changes |
| `RtcpEndToEnd.UnprotectUndoesProtect` | libsrtp/srtp/srtp.c:4004-4532 | the same for what srtp_protect_rtcp produced in another session with the policy |
| `RtcpEndToEnd.SentIsGenuine` | libsrtp/srtp/srtp.c:4004-4244 | everything a run sends is sealed under the stream's keys, every packet at an index of its own |
| `RtcpEndToEnd.ReceiverCatches` | libsrtp/srtp/srtp.c:4246-4532 | a receiver of octets that makes any other calls but does not send RTCP under the SSRC accepts and delivers what one told the true indices would |
| `RtcpEndToEnd.ExpectedOnce` | libsrtp/crypto/replay/rdb.c:74-126 | what is to be delivered are packets that were sent, no index twice, and only indices 128 or more below the highest are forgotten |
| `RtcpEndToEnd.Delivery` | libsrtp/srtp/srtp.c:4004-4532 | the same for RTCP: the packets delivered are packets sent, octet for octet, each at most once |
| `RtcpEndToEnd.DeliveredIff` | libsrtp/srtp/srtp.c:4374-4529 | in such a run a genuine arrival is delivered if and only if its index has not been accepted and is not below the window |
| `RtcpEndToEnd.DeliveredAgain` | libsrtp/srtp/srtp.c:4144-4529 | every packet that a new stream has delivered, and refuses as a replay, is delivered again after the receiver has sent RTCP under the same SSRC |
| `Allocations.CloneFreed` | libsrtp/srtp/srtp.c:194-328 | deallocating a clone frees its own blocks and none of the template's |
| `Allocations.ApartFreed` | libsrtp/srtp/srtp.c:194-328 | deallocating a stream with keys of its own frees all it holds, whatever the template |
| `Allocations.Heap.ReleaseStream` | libsrtp/srtp/srtp.c:194-328 | every block is still allocated when it is freed, and exactly those that are not the template's are freed |
| `Allocations.Heap.AcquireClone` | libsrtp/srtp/srtp.c:577-677 | cloning allocates exactly what deallocating the clone will free |
| `Allocations.Heap.AcquireStream` | libsrtp/srtp/srtp.c:411-575 | a stream with keys of its own shares no block with any other stream; what initialization allocates is there only if the window size is accepted |
| `Rekeying.TemplateUpdateIsBlank` | libsrtp/srtp/srtp.c:3141-3161 | after all clones are re-keyed the windows hold nothing, so that the guarantees over runs start again |
| `Rekeying.StreamUpdateLoses` | libsrtp/srtp/srtp.c:3246-3293 | a stream is lost by its own re-key if and only if the policy is compatible and its window size is refused; otherwise its counters go on; other streams stay |
| `OnTheWire.DirectionsSettle` | libsrtp/srtp/srtp.c:2260-2291 | a stream that takes an index to send is a sender afterwards, unless it was known to be something else; for SRTCP likewise |
| `OnTheWire.ReceiverSettles` | libsrtp/srtp/srtp.c:2793-2799 | a stream that has let a packet in is a receiver afterwards, unless it was known to be something else |
| `Rekeying.CompatibleIff` | libsrtp/srtp/srtp.c:3163-3176 | an update is compatible exactly when the key identifiers keep their length |
| `Rekeying.WindowSizes` | libsrtp/srtp/srtp.c:1455-1464 | windows of 64 to 32767 packets are accepted and rounded up to whole words; none asks for 128 |
| `SessionObjects.Srtp.Lookup` | libsrtp/srtp/srtp.c:4989-5002 | the position of the first stream with the SSRC |
| `SessionObjects.Srtp.AddStream` | libsrtp/srtp/srtp.c:2926-2993 | a stream or the template is added; a refused policy leaves heap and session as they were |
| `SessionObjects.Srtp.RemoveStream` | libsrtp/srtp/srtp.c:3053-3078 | the stream leaves the list and its own blocks are freed |
| `SessionObjects.Srtp.UpdateStream` | libsrtp/srtp/srtp.c:3246-3293 | the stream is replaced by one with new keys that goes on counting |
| `SessionObjects.Srtp.MoveStreams` | libsrtp/srtp/srtp.c:3113-3162 | iterating over the list while each callback removes its stream: every stream is moved or cloned anew once, in order, the loop ends with the old list empty, and no block is lost or freed twice |
| `SessionObjects.Srtp.UpdateTemplate` | libsrtp/srtp/srtp.c:3179-3244 | the same SSRCs in the same order with packet index and RTCP window kept, clones cloned anew from the new template, all others untouched; the heap stays accounted for exactly if the call succeeds or is refused early |
| `SessionObjects.Srtp.Dealloc` | libsrtp/srtp/srtp.c:2889-2924 | iterating over the list while every callback removes its stream, each block the session held is freed once, and no other |
| `SessionObjects.Srtp.NothingDangles` | libsrtp/srtp/srtp.c:194-328 | whatever a stream or the template points to, shared or its own, has not been freed |
| `SessionObjects.Srtp.Protect` | libsrtp/srtp/srtp.c:2207-2513 | on buffers and stream objects, what the session value says; the heap stays accounted for when a stream is cloned |
| `SessionObjects.Srtp.Unprotect` | libsrtp/srtp/srtp.c:2515-2848 | the same; a packet not accepted leaves streams, windows and heap as they were |
| `SessionObjects.Srtp.SetRoc` | libsrtp/srtp/srtp.c:4837-4851 | the rollover counter is kept for the next packet of the stream |
| `SessionObjects.Srtp.ProtectRtcp` | libsrtp/srtp/srtp.c:4004-4244 | on buffers and stream objects, what the session value says |
| `SessionObjects.Srtp.UnprotectRtcp` | libsrtp/srtp/srtp.c:4246-4532 | the same, with the tag behind an unencrypted AEAD packet and the exact condition for writing beyond the room given; a packet not accepted leaves streams, windows and heap as they were |
| `StreamLists.StreamList.Insert` | libsrtp/srtp/srtp.c:4924-4964 | the stream goes to the end, however full the buffer was |
| `StreamLists.StreamList.Remove` | libsrtp/srtp/srtp.c:4972-4987 | the first entry with the SSRC goes, the others keep their order |
| `StreamLists.StreamList.Get` | libsrtp/srtp/srtp.c:4989-5002 | the first stream with the SSRC, or none |
| `StreamLists.StreamList.ForEach` | libsrtp/srtp/srtp.c:5004-5030 | with a callback that removes by the SSRC of the current entry or leaves the list alone, every original entry is visited once, in order, until the callback says stop; the loop ends; what is left, and that it is what the callback did not take if SSRCs are distinct |
| `StreamLists.WrongOneLeaves` | libsrtp/srtp/srtp.c:4972-4987 | with an SSRC listed twice, taking out the second stream removes the first |
| `Trailers.GetTrailerLength` | libsrtp/srtp/srtp.c:4726-4756 | the greatest trailer any stream can produce, an error exactly if there is neither a template nor a stream with that key |
| `Trailers.ProtectAddsTrailer` | libsrtp/srtp/srtp.c:4672-4763 | a packet grows under srtp_protect by exactly the trailer of its stream |
| `Trailers.ProtectRtcpAddsTrailer` | libsrtp/srtp/srtp.c:4672-4770 | the same for RTCP, with the index word |
| `Trailers.RoomSuffices` | libsrtp/srtp/srtp.c:4758-4763 | with that much room beyond the packet, protecting never finds the buffer too small |
| `Trailers.RtcpRoomSuffices` | libsrtp/srtp/srtp.c:4765-4770 | the same for RTCP |

## Left out

- Key derivation: session keys are given; deriving them from master keys is not modelled.
- AES-GCM and the other cipher back ends: AEAD is a pair of functions, with the law that opening undoes sealing.
- SHA-1 and AES tables: the S-box is any bijection; tables are given by the formula that generates them.
- Null authentication and the keystream prefix: tags are those of an authenticator without a prefix.
- The null cipher with encrypted header extensions, which masks nothing but still parses the elements.
- Tag lengths 17 to 20: the authenticator accepts them (hmac.c:77-84), but the receiving calls keep the computed tag in 16 octets (srtp.c:2531 and srtp.c:4259); a lawful policy has tags of at most 16.
- Policies that mix AEAD and other transforms between RTP and RTCP of one stream.
- Event handlers, logging, key usage counters, and failures of memory allocation.
- Byte order conversions: fields are big-endian octets throughout.
- Buffer contents after a failed call: what a call wrote before it failed is not stated, except for octets beyond the room given to srtp_unprotect_rtcp.
- Sha1Hash.Sha1Ctx.Final: for messages shorter than 2^29 octets, whose bit count fits the 32-bit counter.
- HmacSha1.HmacCtx.Compute: for messages shorter than 2^29 octets, as the hash.
- Suites.PacketTag: for packets shorter than 2^29 octets, as the hash.
- Suites.SuiteIsLawful: for tags of at most 16 octets.
- AesCipher.EncryptThenDecrypt: the decryption context must hold the right round count before its key is expanded; ExpandDecryptionKey says what the code leaves otherwise.
- RoundTrips.OpenUndoesSeal: for tags of at most 16 octets, and AEAD for both RTP and RTCP or for neither.
- RoundTrips.OpenUndoesSealIcm: for tags of at most 16 octets.
- RoundTrips.OpenUndoesSealRtcpIcm: for tags of at most 16 octets.
- BitVectors.BitVector.LeftShiftSsse3: not for shifts of 2^32 and more whose low half is below the length; the code reads outside the vector there.
- ReplayWindow.AdmitRepresents: while the index stays below 2^48; when it does not is OutgrownIff, and there the estimate and the window's index part.
- ReplayWindow.RepeatIff: while the index stays below 2^48, as AdmitRepresents.
- ReplayWindow.RepeatedIndex: while the index stays below 2^48, as AdmitRepresents.
- ReplayWindow.RunRepresents: while the index stays below 2^48, as AdmitRepresents.
- SessionRuns.NoIndexTwice: while every packet index stays below 2^48 and no policy allows repeated transmission; removing a stream and adding it again under the same keys is not one of the calls.
- SessionRuns.NoKeystreamTwice: under the conditions of NoIndexTwice.
- SessionObjects.Srtp.AddStream: the SSRC must not be listed yet; the library accepts it twice and then only ever finds the first.
