# Proofs about key morphing, EEPROM sealing, cabinets, event buffers and LZNT1

This project models parts of the Xbox system sources and proves properties of them. Each module
follows one component:

| modules | component |
|---|---|
| `Bits`, `Bytes`, `Streams` | machine words as numbers, byte strings, exclusive-or, state machines that emit |
| `Rc4`, `Hmac`, `Des`, `Cbc` | the `Xc*` primitives: RC4 over its 256-byte table, HMAC over an abstract hash, (triple) DES as a Feistel network with abstract parts, the CBC loop that may run in place |
| `CryptKeys` | `cryptkeys.h`: morphing keys under a derived triple-DES key or an RC4 stream, the recovery key |
| `Eeprom` | the encrypted section of the EEPROM, as the recovery program writes it and the kernel reads it at boot |
| `Align`, `EventFormat`, `EventBuffer` | the rounding macros, the layout of DirectMusic events, the `IDirectMusicBuffer` operations |
| `CabinetData`, `CabinetSet`, `CabinetExtract`, `CabinetHolds` | cabinet sets: cutting data blocks at cabinet ends, continuation codes, getting files out again, which cabinets hold a file |
| `Lznt1Format`, `Lznt1Chunk`, `Lznt1Parse`, `Lznt1Buffer`, `Lznt1Compress`, `Lznt1Raw`, `Lznt1`, `Lznt1Describe` | the LZNT1 compressor with both match engines, the decompressor, and the walk that describes chunks |

Code that changes buffers or objects step by step is modelled by methods on arrays and by classes
(`Rc4.KeyStruct`, `Hmac.ShaContext`, `EventBuffer.Buffer`, `Lznt1Chunk.Workspace`). Each method is
tied to a function of its inputs, and the lemmas prove what the source promises of these functions:
what undoes or agrees with what, and that each is the published algorithm or the documented layout,
stated by its own rules (`SetUpIsPublished`, `DesIsPublished`, `TripleIsPublished`, `MacIsNested`,
`PassBlock`, `HeaderLayout`, `WrittenHeaders`, `TokenWord`).
The macros of `align.h` and `dmusbuff.h` and the format rules of `cabinet.h` are functions.

The hash, the DES key schedule, round function and initial permutation, and all literal keys are
parameters: what is proved holds for any of them.

## Main results

* **Morphing is undone.** For every morph key and every whole number of blocks, decrypting after
  encrypting, and encrypting after decrypting, restores the caller's buffer (`MorphUndone`). It rests
  on Feistel rounds being undone in reverse order, on the CBC pass being undone from the same vector
  (and from no other, `SameVectorNeeded`), and on the in-place loop doing what a pass between separate
  buffers does (`BlockCryptCBC`).
* **RC4 is the published one.** Every run of states that obeys the published rules of key set-up or output
  is the one computed, and no key byte is lost on the way (`SetUpIsPublished`, `OutputIsPublished`,
  `SameSetUpSameKey`). RC4 morphing is its own inverse, and at every output step of every key the table holds every
  byte value (`Rc4MorphTwice`, `TableStaysComplete`).
* **Triple DES through single DES.** Taking the third encryption back leaves a block encrypted under the
  first third of the key and decrypted under the second (`TripleIsPublished`).
* **A prepared EEPROM section gives the kernel** the hard drive key the old one held and its region cleaned.
  The one exception, a mask that begins with the confounder, is characterised exactly, over the inputs,
  for reading back, booting and preparing twice (`ReadSealedIff`, `BootAfterPrepareIff`,
  `PrepareTwiceIff`).
* **The masks round.** On words of every width from 32 bits the mask macros are arithmetic rounding,
  with the exact point at which the sum wraps, and rounding twice is rounding once
  (`RoundUpIsCeilingIff`, `RoundUpTwice`).
* **Events come back.** Over every run of buffer operations the used count is the sum of the event
  sizes, and any list of events that fits is read back in order at the right times (`RunKeeps`,
  `PackedComeBack`). Cutting the used count back is harmless exactly on event boundaries
  (`CutIsWellFormedIff`).
* **Cabinets conserve.** Whatever the capacities, rejoining a folder's records gives its blocks, and no
  byte or block is gained or lost (`SetJoins`). Every file comes back: there is a cabinet where it
  starts, following its codes from there visits exactly the cabinets that hold it, and the file
  extracted by the last of them is the original (`FileComesBack`). A cabinet holds some of a file
  exactly when one of its records is a piece of a block with a byte of the file (`HoldsIff`).
* **LZNT1 round trip.** What the compressor writes for an input that is not empty, with either engine
  and any stale workspace, decompresses to the input in a buffer of any size, with the exact condition
  on the input under which a buffer larger than the input receives extra bytes; what it writes for an
  empty input is refused (`RoundTripIff`, `EmptyIsRefused`). The compressor's result, status and hash
  table included, is a function of its inputs (`CompressBuffer`): it stores the tokens its search
  chooses, raw exactly when they are too large, and reports zeros exactly for zeros. The decompressor
  is tied to its specification on every input, well formed or not (`DecompressBuffer`), where a chunk
  that puts out more than 4096 bytes leads behind the format tables; exactly with room for at most
  4097 bytes no input does that (`InTablesIff`, `DecompressedInTablesIff`).
* **The compressor can read behind its input.** A raw chunk is always copied whole, so from a buffer of
  exactly the input's size it reads on exactly when the last chunk is not whole, has room for a raw
  chunk, and is too large in tokens (`OverReadIff`); 3639 bytes without repeats do it
  (`ReadsBehindInput`). Where it does not, what lies behind the input makes no difference
  (`InputDecides`).

* **The chunk walk accepts all that is written.** It describes what the compressor wrote chunk by chunk and
  then finds no more (`WrittenDescribed`); it takes a chunk for zeros exactly when it was written for at
  least four bytes, all zero (`ZerosDescribedIff`).

## Where code and documentation disagree

* `private/inc/crypto/xcrypt.h:186` says HMAC "according to RFC 2104". The code cuts keys longer than
  64 bytes (`private/ntos/net/halw.cpp:677-679`), where section 2 of RFC 2104 hashes them. It computes
  the RFC's value, whatever the hash and the data, for exactly the keys of at most 64 bytes
  (`Hmac.MacIsRfc2104Iff`), and for the others the value for the cut key
  (`Hmac.MacIsRfc2104OfCutKey`).
* `private/ntos/init/init.c:329` asks for exactly one region bit. The test that follows accepts none as
  well (`Eeprom.RegionAcceptedIff`): it does what is asked on exactly the regions with a bit beside the
  manufacturing bit (`Eeprom.RegionTestAsMeantIff`), and region 0x80000000 passes
  (`Eeprom.ManufacturingAloneAccepted`).
* `private/ntos/rtl/lznt1.c:283-285` compresses any buffer. The result for an empty one, no bytes and an
  ending header behind them, is not accepted by the decompressor, which takes the ending header for a
  chunk (`Lznt1Compress.EmptyIsRefused`).
* `private/ntos/rtl/lznt1.c:470-473` knows success and ill-formed input. A chunk that puts out more than
  4096 bytes makes the decoder read behind `FormatMaxDisplacement` (`Lznt1Format.PastTables`), exactly
  when there is room for more than 4097 bytes (`Lznt1Format.InTablesIff`).
* `private/ntos/rtl/lznt1.c:294-295` takes the size of the input. The raw copy
  (`private/ntos/rtl/lznt1.c:1728-1730`) takes 4096 bytes whatever is left of it
  (`Lznt1Compress.OverReadIff`).
* `private/ntos/rtl/lznt1.c:1133-1139` says that a zero literal and a copy token are zeros whatever the copy
  token says. The decompressor refuses the chunk unless no more than the literal is asked for or the
  token's four high bits are clear (`Lznt1Describe.ZeroAndCopyIff`).
* `private/inc/cabinet.h:257-259` takes a file with offset zero as the sign that a folder begins. The
  same file has offset zero in every cabinet it goes on in (`CabinetSet.OffsetZeroIsNotEnough`); what
  decides is that it is also not continued from the previous cabinet (`CabinetSet.BeginsFolderIff`).
* `private/inc/cabinet.h:359-360` speaks of the two pieces of a split block. With cabinets smaller than a
  block there are more (`CabinetSet.ThreePieces`). Two suffice exactly when the two rooms hold the
  block and two headers (`CabinetData.RemainderCompletesIff`), so in every set whose cabinets hold the
  largest block (`CabinetSet.SetCutsOnce`).
* `private/inc/dmusbuff.h:17` says that sizes are rounded to the nearest quadword. The macro rounds up,
  which is nearest only from the middle of a quadword on (`EventFormat.RoundsToNearestIff`).
* `private/ntos/rtl/lznt1.c:2023` and `:2153` return matches "greater than three characters". The code
  returns matches of three as well, and does what is said exactly when the best match is not three
  bytes long (`Lznt1Parse.ReturnsAsDocumentedIff`, `Lznt1Parse.ThreeIsReturned`).
* `private/ntos/rtl/lznt1.c:1751-1767` takes back an unused flag byte at the end of a chunk. There is never
  one: a flag byte is only set aside when there is input left, and then a token follows it, so that
  the flag byte always lies within the chunk (`Lznt1.TokensAreGood`).

## Model

| member | source | states |
|---|---|---|
| `CryptKeys.OverlappingDigests` | private/inc/cryptkeys.h:187-201 | After the two overlapping HMAC writes nothing of the key array's former contents is left: its first 4 bytes are from the first digest, the other 20 are the whole second digest. |
| `CryptKeys.DeriveDesKey` | private/inc/cryptkeys.h:187-203 | The DES key depends on the morph key alone: head of the first HMAC, all of the second, each byte given odd parity. |
| `CryptKeys.DerivedFromHmacs` | private/inc/cryptkeys.h:193-201 | Before parity the DES key is the first four bytes of one HMAC of the morph key and all of the other, by the formula of RFC 2104. |
| `CryptKeys.MorphKeyWithKey` | private/inc/cryptkeys.h:185-208 | In place, the first dwKeyLen bytes become the CBC pass under the derived key from the fixed vector; the rest of the buffer stays. |
| `CryptKeys.MorphedBlock` | private/inc/cryptkeys.h:193-207 | Morphing block by block: triple DES under the derived key with odd parity, chained with the ciphertext before, and at the start with the fixed vector; both directions. |
| `CryptKeys.MorphUndone` | private/inc/cryptkeys.h:210-221 | For every morph key, every whole number of blocks and both orders, the second morph restores the key. |
| `CryptKeys.SameDerivedKeySameMorph` | private/inc/cryptkeys.h:193-205 | Two morph keys whose derived bytes agree except in the parity bits open each other's keys. |
| `CryptKeys.EncryptKeyWithHardDriveKeyEx` | private/inc/cryptkeys.h:213-216 | Morphs in the encrypting direction under the hard drive key. |
| `CryptKeys.DecryptKeyWithHardDriveKeyEx` | private/inc/cryptkeys.h:218-221 | Morphs in the decrypting direction under the same key. |
| `CryptKeys.EncryptKeyWithMUKey` | private/inc/cryptkeys.h:241-244 | The same under the memory unit key. |
| `CryptKeys.DecryptKeyWithMUKey` | private/inc/cryptkeys.h:246-249 | The same in the other direction. |
| `CryptKeys.MorphKeyByHardDriveKeyEx` | private/inc/cryptkeys.h:157-169 | In place, the first dwKeyLen bytes are masked with the RC4 stream of the HMAC of the hard drive key. |
| `CryptKeys.Rc4MorphedIs` | private/inc/cryptkeys.h:161-168 | The result is RC4 under the HMAC of the hard drive key, by the formula of RFC 2104. |
| `CryptKeys.Rc4MorphTwice` | private/inc/cryptkeys.h:154-169 | The routine is its own inverse for every hard drive key and every length. |
| `CryptKeys.MorphThereAndBack` | private/inc/cryptkeys.h:210-221 | On the caller's array: the two directions one after the other, in either order, leave it as it was. |
| `CryptKeys.Rc4MorphThereAndBack` | private/inc/cryptkeys.h:154-169 | On the caller's array: two calls leave it as it was, for every length, each keying its RC4 state anew. |
| `CryptKeys.ComputeRecoveryKey` | private/inc/cryptkeys.h:125-144 | The loop ends with four map letters, word j of the digest deciding position 3-j, and four zero bytes; with the HMAC of either build. |
| `CryptKeys.RecoveryKeyIs` | private/inc/cryptkeys.h:90-109 | Position 3-j has the letter of the map that the little-endian word j of the digest selects modulo seven; zeros follow. |
| `CryptKeys.SameRecoveryKey` | private/inc/cryptkeys.h:90-109 | Two digests give one recovery key exactly when their first four words agree modulo seven, so only the first eight bytes matter and the builds agree whenever their HMACs do. |
| `CryptKeys.EveryRecoveryKeyOccurs` | private/inc/cryptkeys.h:97-108 | Every string of four map letters is the recovery key of some digest. |
| `Rc4.KeyStruct.SetKey` | private/ntos/net/halw.cpp:637-645 | Key set-up forgets the previous state and leaves the scheduled table with both indices zero. |
| `Rc4.KeyStruct.CryptBytes` | private/ntos/net/halw.cpp:647-655 | The bytes of the range are masked with the next key-stream bytes, the others stay, and the state has moved on by as many steps. |
| `Rc4.KeyComesIn` | private/inc/crypto/rc4.h:22-33 | In every step of key set-up the index moves by a table entry and the next key byte, and the table changes by one exchange. |
| `Rc4.SetUpIsPublished` | private/inc/crypto/rc4.h:22-33 | Any run of 256 states that starts with the table in order and obeys the published rule ends in the table that key set-up leaves. |
| `Rc4.SameSetUpSameKey` | private/inc/crypto/rc4.h:22-33 | Two keys of one length, at most 256 bytes, that pass through the same states are equal: no byte of the key is lost. |
| `Rc4.OutputIsPublished` | private/inc/crypto/rc4.h:35-47 | Any run of states that obeys the published output rule is the one computed and shows the bytes of the key stream. |
| `Rc4.KeyStateIsPermutation` | private/inc/crypto/rc4.h:22-33 | Key set-up ends in a permutation of 0..255, whatever the key. |
| `Rc4.AfterIsPermutation` | private/inc/crypto/rc4.h:35-47 | Output keeps the table a permutation, for any number of steps. |
| `Rc4.TableStaysComplete` | private/inc/crypto/rc4.h:16-47 | At every output step of every key each byte value is in the table. |
| `Rc4.KeyStreamContinues` | private/inc/crypto/xcrypt.h:174-183 | Two calls in a row use the key stream that one call of the joint length would use. |
| `Rc4.CryptTwice` | private/inc/cryptkeys.h:167-168 | A second pass with the same key restores data of any length. |
| `Hmac.XcHMAC` | private/ntos/net/halw.cpp:657-721 | Over one or two pieces of data, writes the MAC of their concatenation, also when the digest overwrites an array that the data came from. |
| `Hmac.MacIsNested` | private/ntos/net/halw.cpp:677-721 | The MAC is the outer hash of the masked key and the inner hash, with the masks 0x36 and 0x5C on the key bytes and zeros behind them. |
| `Hmac.MacIsRfc2104OfCutKey` | private/inc/crypto/xcrypt.h:185-198 | The MAC is always the one RFC 2104 defines for the key cut to 64 bytes. |
| `Hmac.MacIsRfc2104Iff` | private/ntos/net/halw.cpp:677-679 | It is the RFC's for the key itself, whatever the hash and the data, exactly for keys of at most 64 bytes. |
| `Hmac.LongKeyDiffers` | private/inc/crypto/xcrypt.h:185-186 | For every longer key there is a hash under which the two differ on all data. |
| `Hmac.XShaHmacInitialize` | private/ntos/net/halw.cpp:936-965 | Leaves the context with the masked key fed, whatever was fed before. |
| `Hmac.XShaHmacComputeFinal` | private/ntos/net/halw.cpp:982-1015 | Whatever pieces were fed since, the digest is the one XcHMAC computes for their concatenation. |
| `Hmac.ConvertSignatureToNonRoamable` | private/ntos/xapi/k32/xcalcsig.c:155-174 | The result is the MAC of the roamable signature under the console's key. |
| `Des.RoundsUndone` | private/inc/crypto/des.h:42-48 | Feistel rounds run again in reverse key order on the swapped halves undo themselves, for any round function and any number of rounds. |
| `Des.DesUndone` | private/inc/crypto/des.h:30-48 | DES in either direction undoes DES in the other, for every key table. |
| `Des.DesIsPublished` | private/inc/crypto/des.h:42-48 | A block cipher result is that of any sixteen rounds on two halves that obey the published rule, round keys in order or in reverse, halves exchanged at the end. |
| `Des.CryptBlockUndone` | private/ntos/net/halw.cpp:766-777 | The same for the dispatching block cipher, single or triple. |
| `Des.TripleIsPublished` | private/ntos/net/halw.cpp:757-777 | Triple DES is encrypt-decrypt-encrypt with the three thirds of the key in order: taking its last step back through single DES leaves the first two. |
| `Des.EqualKeysAreSingle` | private/inc/crypto/tripldes.h:34-50 | With one key three times it is single DES. |
| `Des.OddParityIsOdd` | private/inc/crypto/des.h:50-55 | Parity leaves the seven key bits, makes the number of ones odd, and leaves exactly the bytes of odd parity alone. |
| `Des.WithParityByte` | private/ntos/net/halw.cpp:739-746 | Each byte of a key with parity has its seven key bits and an odd number of ones. |
| `Des.DESKeyParity` | private/ntos/net/halw.cpp:739-746 | In place, the first dwKeyLength bytes get odd parity and no other byte changes. |
| `Cbc.OneBlock` | private/inc/crypto/modes.h:23-46 | One block, with input and output allowed to be the same bytes: decryption keeps the overwritten ciphertext for the register. |
| `Cbc.BlockCryptCBC` | private/ntos/net/halw.cpp:779-798 | The loop does what a pass between separate buffers does, whether or not input and output are one array, and leaves the register at the last ciphertext block. |
| `Cbc.PassBlock` | private/inc/crypto/xcrypt.h:287-302 | Each block of a pass in closed form: encrypting, the cipher of the block masked with the ciphertext before it; decrypting, the plain block masked with that (section 6.2 of NIST SP 800-38A). |
| `Cbc.RegisterIsLastCipher` | private/inc/crypto/modes.h:23-46 | A pass in either direction leaves the last ciphertext block in the register. |
| `Cbc.DamageStaysLocal` | private/inc/crypto/xcrypt.h:287-302 | Damage to one ciphertext block reaches that block of the plain text and the next, and no other. |
| `Cbc.PassUndone` | private/inc/crypto/xcrypt.h:287-302 | From the same register the pass in the other direction restores the data and ends in the same register. |
| `Cbc.SameVectorNeeded` | private/inc/cryptkeys.h:189-191 | From another register it restores only empty data: each call must start from a fresh copy of the vector. |
| `Cbc.PassContinues` | private/ntos/net/halw.cpp:790-797 | Calls that share the register do what one call on the joined data does. |
| `Eeprom.BootDecrypt` | private/ntos/init/init.c:218-354 | The kernel's result, with key and region set even when the region is then rejected, as a function of the section read. |
| `Eeprom.DecryptSettings` | private/ntos/init/init.c:247-311 | Opening a section: the data as read, or a checksum mismatch. |
| `Eeprom.UnmaskedIs` | private/ntos/init/init.c:262-290 | Opening decrypts with RC4 under the HMAC of the checksum under the EEPROM key. |
| `Eeprom.ReadPlainIs` | private/ntos/init/init.c:247-261 | Behind a zero confounder the data are read as they stand. |
| `Eeprom.ReadIs` | private/ntos/init/init.c:262-311 | Behind any other confounder the decrypted data are read exactly when their HMAC is the checksum. |
| `Eeprom.BootIs` | private/ntos/init/init.c:312-345 | Of readable data the first 16 bytes are the hard drive key and the last four, low byte first, the region; zero stands for the manufacturing bit and North America. |
| `Eeprom.RegionAcceptedIff` | private/ntos/init/init.c:328-337 | The region test accepts exactly the regions with at most one bit beside the manufacturing bit. |
| `Eeprom.RegionTestAsMeantIff` | private/ntos/init/init.c:328-337 | It tells single bits exactly on the regions with a bit beside the manufacturing bit. |
| `Eeprom.ManufacturingAloneAccepted` | private/ntos/init/init.c:328-337 | Region 0x80000000 passes with no other bit set. |
| `Eeprom.DecryptSection` | private/ntos/recovery/recovery.cpp:196-262 | Recovery opens a section with the same result as the kernel; on a mismatch the section stays as it was. |
| `Eeprom.EncryptSection` | private/ntos/recovery/recovery.cpp:348-407 | A section not yet encrypted is sealed in place, checksum and mask included; any other stays. |
| `Eeprom.SealedIs` | private/ntos/recovery/recovery.cpp:364-406 | A sealed section is the HMAC of confounder and data, and these under RC4 with the HMAC of that checksum as the key. |
| `Eeprom.SealedLooksPlainIff` | private/ntos/recovery/recovery.cpp:364-406 | A sealed section passes for an unencrypted one exactly when its mask begins with the confounder. |
| `Eeprom.SealedCanLookPlain` | private/ntos/recovery/recovery.cpp:182-191 | This happens: for every key and data, under some hash and confounder. |
| `Eeprom.ReadSealedIff` | private/ntos/recovery/recovery.cpp:364-406 | Sealed data can be read back exactly when their mask does not begin with the confounder, or is zero behind it. |
| `Eeprom.PrepareSection` | private/ntos/recovery/recovery.cpp:433-453 | The section is opened or cleared, its region cleaned, and sealed again. |
| `Eeprom.PreparedIs` | private/ntos/recovery/recovery.cpp:413-453 | What is sealed again: the key that was read, or zeros, and the region without the manufacturing bit, or 1 if nothing is left. |
| `Eeprom.IntendedRegion` | private/ntos/recovery/recovery.cpp:441-448 | The cleaned region is never zero and has no manufacturing bit; the kernel's test accepts it exactly when a single bit is left. |
| `Eeprom.BootAfterPrepareIff` | private/ntos/recovery/recovery.cpp:413-467 | After preparation the kernel sets the old hard drive key and the cleaned region, accepting the region exactly when it is a single bit, exactly when the mask of the cleaned data does not begin with the confounder, or is zero behind it. |
| `Eeprom.SealedInjective` | private/ntos/recovery/recovery.cpp:364-406 | Different data are sealed differently, also when their checksums collide. |
| `Eeprom.PrepareTwiceIff` | private/ntos/recovery/recovery.cpp:409-467 | A second preparation changes nothing, except exactly when the first mask begins with the confounder and then touches the key, or the region beyond the manufacturing bit and the bit that cleaning puts back. |
| `Align.FloorIsGreatest` | private/inc/align.h:62-63 | Rounding down gives the greatest multiple that is not above. |
| `Align.CeilingIsLeast` | private/inc/align.h:69-78 | Rounding up gives the least multiple that is not below. |
| `Align.RoundDownIsFloor` | private/inc/align.h:62-66 | The mask form of rounding down is rounding down, on counts and on pointers of any width. |
| `Align.RoundUpValue` | private/inc/align.h:77-88 | The mask form of rounding up gives the rounded value, or zero when that is the first value the word cannot hold. |
| `Align.RoundUpIsCeilingIff` | private/inc/align.h:77-88 | It is the true rounding exactly up to 2^w less the alignment, and zero exactly above that or for zero. |
| `Align.IsAlignedIff` | private/inc/align.h:49-59 | The test holds of exactly the multiples. |
| `Align.RoundingsAgreeIff` | private/inc/align.h:49-88 | Rounding down and up agree on exactly the aligned words. |
| `Align.RoundUpTwice` | private/inc/align.h:77-78 | Rounding up to p and then to q is rounding up once to the larger, also where sums wrap; with p = q it is idempotent. |
| `Align.RoundDownTwice` | private/inc/align.h:62-63 | The same for rounding down. |
| `Align.RoundDownMonotone` | private/inc/align.h:62-63 | Rounding down keeps the order of words. |
| `Align.RoundUpMonotoneIff` | private/inc/align.h:77-78 | Rounding up keeps the order of two words except exactly where the larger wraps and the smaller, not zero, does not. |
| `Align.PointerKeepsHighBits` | private/inc/align.h:65-66 | Rounding a wide pointer down leaves every bit from 32 on as it was, because the signed mask is extended. |
| `Align.ZeroExtendedMaskRoundsIff` | private/inc/align.h:65-66 | The same mask without sign extension would round exactly the pointers below 2^32. |
| `EventFormat.QwordAlignIsRoundUp` | private/inc/dmusbuff.h:35 | The quadword macro is the rounding macro at 8, on every 32-bit value. |
| `EventFormat.QwordAlignValue` | private/inc/dmusbuff.h:35 | It rounds up, or gives zero where the sum wraps. |
| `EventFormat.RoundsToNearestIff` | private/inc/dmusbuff.h:17-35 | Its result is a nearest quadword exactly from the middle of one on, and where nothing wraps. |
| `EventFormat.EventSizeSufficesIff` | private/inc/dmusbuff.h:33-36 | The size macro leaves room for header and data exactly for cb up to 2^32 - 28. |
| `EventFormat.FitsIff` | private/inc/dmusbuff.h:33-36 | Testing room by the macro, wrap excluded, is testing it by the true size. |
| `EventFormat.EventThere` | private/inc/dmusbuff.h:20-28 | A header and its data read back as the event they were written for, whatever the padding. |
| `EventFormat.HeaderLayout` | private/inc/dmusbuff.h:22-28 | Which bytes of the twenty hold length, channel group, time and flags. |
| `EventFormat.TimeBytesAre` | private/inc/dmusbuff.h:26 | The two dwords of a time, low one first, are it up to multiples of 2^64. |
| `EventFormat.WalkedConcat` | private/inc/dmusbuff.h:13-18 | The walk over two well-formed buffers in a row is the one walk and then the other. |
| `EventFormat.WalkedSplit` | private/inc/dmusbuff.h:13-18 | At each event boundary a well-formed buffer falls into two. |
| `EventFormat.WalkedSize` | private/inc/dmusbuff.h:13-36 | A well-formed buffer is as long as the sum of its event sizes. |
| `EventFormat.CutIsWellFormedIff` | private/inc/dmusicc.h:406 | A smaller used count leaves a well-formed buffer exactly on an event boundary, and then the events before it. |
| `EventBuffer.Buffer.constructor` | private/inc/dmusicc.h:371-407 | A new buffer of the given size holds no event. |
| `EventBuffer.Buffer.Flush` | private/inc/dmusicc.h:381 | Empties the buffer and puts the read position at the start. |
| `EventBuffer.Buffer.Pack` | private/inc/dmusicc.h:384-391 | Appends the event: at the old used count stand length, channel group, a time's difference from the start time, flags and data. Refused, it changes neither bytes nor used count nor read position. |
| `EventBuffer.PackedEventIs` | private/inc/dmusbuff.h:22-28 | A packed event has its request's fields, and its delta added to the start time is its time, up to multiples of 2^64. |
| `EventBuffer.Buffer.PackUnstructured` | private/inc/dmusicc.h:388-391 | The same without flags. |
| `EventBuffer.Buffer.PackStructured` | private/inc/dmusicc.h:384-386 | The same for a four-byte message flagged as structured. |
| `EventBuffer.Buffer.ResetReadPtr` | private/inc/dmusicc.h:393 | Reading starts again from the first event. |
| `EventBuffer.Buffer.GetNextEvent` | private/inc/dmusicc.h:394-397 | Shows the next event's time, group and data in place, within the used bytes, or that there is none; the time differs from the start time by what stands in the event's header. |
| `EventBuffer.ReadEventIs` | private/inc/dmusbuff.h:22-28 | The time shown differs from start time plus stored delta by a multiple of 2^64. |
| `EventBuffer.Buffer.GetUsedBytes` | private/inc/dmusicc.h:401 | The count is the sum of the stored events' sizes, within the maximum. |
| `EventBuffer.Buffer.SetStartTime` | private/inc/dmusicc.h:405 | Only the start time changes; stored deltas do not. |
| `EventBuffer.StepKeeps` | private/inc/dmerror.h:368-372 | Each operation keeps the used count a sum of event sizes, a multiple of eight and within bounds; a refused one keeps the whole state. |
| `EventBuffer.RunKeeps` | private/inc/dmusicc.h:380-406 | The same over every run of operations. |
| `EventBuffer.AllPackedIff` | private/inc/dmerror.h:368-372 | No request of a list is refused exactly when the whole list fits. |
| `EventBuffer.ReadInOrder` | private/inc/dmusicc.h:393-397 | From any position reading shows the remaining events in order, and then none. |
| `EventBuffer.PackedComeBack` | private/inc/dmusicc.h:384-405 | Requests that fit come back in order and in full, each at its time plus the distance the start time has moved, and then reading stops. |
| `CabinetData.TakenFits` | private/inc/cabinet.h:347-351 | What goes into a cabinet, headers included, does not exceed its room. |
| `CabinetData.CutJoins` | private/inc/cabinet.h:353-360 | Joining by the cbUncomp rule undoes the cut, wherever it falls. |
| `CabinetData.CutConserves` | private/inc/cabinet.h:347-360 | A cut neither gains nor loses stored bytes, uncompressed bytes or blocks. |
| `CabinetData.RemainderCompletesIff` | private/inc/cabinet.h:353-360 | A block cut in one cabinet is completed by the next exactly when the two rooms together hold the block and two headers. |
| `CabinetSet.ContdCodes` | private/inc/cabinet.h:122-128 | On every 16-bit code the two mask tests single out exactly the codes they are named for. |
| `CabinetSet.SetLinks` | private/inc/cabinet.h:248-249 | Every cabinet set is a chain: an unfinished folder ends its cabinet and opens the next, at the offset it stopped at. |
| `CabinetSet.SetJoins` | private/inc/cabinet.h:261-272 | Whatever the capacities, a folder's records joined over all cabinets are its blocks, with equal stored and uncompressed sums, and as many records as blocks plus splits. |
| `CabinetSet.SetCutsOnce` | private/inc/cabinet.h:353-360 | In a set whose every cabinet can hold a folder's largest block, no block of it is in more than two pieces. |
| `CabinetSet.ThreePieces` | private/inc/cabinet.h:359-360 | In smaller cabinets there are more: a set with a block in three pieces. |
| `CabinetSet.SetFits` | private/inc/cabinet.h:347-351 | No cabinet of a set is filled beyond its capacity. |
| `CabinetSet.SetSucceeds` | private/inc/cabinet.h:248-253 | With a cabinet for each byte and each folder the layout cannot fail. |
| `CabinetSet.CodesMeet` | private/inc/cabinet.h:288-314 | A file's code says "continued" in a direction exactly when the neighbouring cabinet's fragment is of the same folder and holds some of the file. |
| `CabinetHolds.HoldsIff` | private/inc/cabinet.h:264-272 | A fragment holds some of a file that is not empty exactly when one of its records is a piece of a block with a byte of the file. |
| `CabinetHolds.ExtentIff` | private/inc/cabinet.h:264-272 | The same of each uncompressed byte of a folder and a fragment's extent. |
| `CabinetSet.CodeResolves` | private/inc/cabinet.h:288-314 | Every code resolves to the index of the folder that holds the file, in range; in the middle of a file it is the only folder of its cabinet. |
| `CabinetSet.VisitsForward` | private/inc/cabinet.h:304-314 | Following the codes forward visits one fragment in each of consecutive cabinets, and from there on exactly those that hold some of the file. |
| `CabinetSet.VisitsExactly` | private/inc/cabinet.h:293-314 | From the cabinet where a file starts this visits exactly the fragments of the whole set that hold some of it. |
| `CabinetSet.BeginsFolderIff` | private/inc/cabinet.h:255-260 | A fragment begins its folder exactly when the file at offset zero is not continued into it. |
| `CabinetSet.OffsetZeroIsNotEnough` | private/inc/cabinet.h:257-259 | A set in which a continued fragment lists a file with offset zero. |
| `CabinetExtract.HeldSomewhere` | private/inc/cabinet.h:315-324 | Every file within its folder, an empty one included, is held by some fragment. |
| `CabinetExtract.CollectedSuffices` | private/inc/cabinet.h:240-246 | The blocks that end by the file's last cabinet are a front part of the folder and long enough for the file. |
| `CabinetExtract.ExtractedIsOriginal` | private/inc/cabinet.h:242-246 | What is cut out of them at the file's offset and size is what would be cut out of the folder in one cabinet, for every decompressor that reads from the start. |
| `CabinetExtract.FileComesBack` | private/inc/cabinet.h:240-320 | For every file of every set: a cabinet where it starts, from which its codes visit exactly the consecutive cabinets that hold it, and by the last of which the reader gets the original bytes. |
| `Lznt1Format.RaisedOn` | private/ntos/rtl/lznt1.c:1626-1630 | Raising the format from where an earlier position left it gives the format of the later position. |
| `Lznt1Format.TokenThere` | private/ntos/rtl/lznt1.c:1400-1477 | In each of the nine formats, length and displacement read back from a token as they were set. |
| `Lznt1Format.FormatSplit` | private/ntos/rtl/lznt1.c:1400-1440 | At each position displacements reach over the first power of two from 16 on that is not below it, and the other bits hold the length. |
| `Lznt1Format.TokenWord` | private/ntos/rtl/lznt1.c:1467-1477 | A copy token is a little-endian word with displacement less one in the high bits and length less three in the low ones, split as the position says. |
| `Lznt1Format.FlagOfToken` | private/ntos/rtl/lznt1.c:1650-1706 | Bit k of a flag byte is set exactly when token k of its group is a copy. |
| `Lznt1Chunk.EncodedLayout` | private/ntos/rtl/lznt1.c:1601-1613 | Before every eight tokens, or the last few, stands their flag byte. |
| `Lznt1Format.DecodeEncoded` | private/ntos/rtl/lznt1.c:1854-1992 | Whatever valid tokens a chunk encodes, the decoder puts out what they mean, cut off where its output ends. |
| `Lznt1Chunk.LongestIs` | private/ntos/rtl/lznt1.c:2173-2206 | The maximum engine's result: no earlier position has a longer run, and no later one an equal one. |
| `Lznt1Chunk.FindMatchMaximum` | private/ntos/rtl/lznt1.c:2130-2207 | The search loop finds that run, or nothing below three bytes. |
| `Lznt1Chunk.FindMatchStandard` | private/ntos/rtl/lznt1.c:2003-2123 | Finds the longer of the two candidates of the hash table, whatever stale positions it holds, and moves the table along. |
| `Lznt1Chunk.StandardMatchIs` | private/ntos/rtl/lznt1.c:2047-2123 | It finds the longer run from the two positions last seen under the same index, the later of equal ones, and puts the position in the table before the later one. |
| `Lznt1Chunk.HashKnownAnswers` | private/ntos/rtl/lznt1.c:2047 | The index of five strings, among them strings that tell exclusive-or from addition. |
| `Lznt1Chunk.MatchedIsMatch` | private/ntos/rtl/lznt1.c:2003-2207 | With either engine a result lies in the chunk before the position and agrees with it over its length. |
| `Lznt1Chunk.MatchCopies` | private/ntos/rtl/lznt1.c:1953-1963 | Copying byte by byte from a match puts out the bytes it stands for, also where source and destination overlap. |
| `Lznt1Parse.ParseSpells` | private/ntos/rtl/lznt1.c:1624-1708 | Whatever the hash table holds, the tokens chosen for a chunk stand for exactly its bytes. |
| `Lznt1Parse.EncodedSize` | private/ntos/rtl/lznt1.c:1601-1613 | Tokens take one or two bytes each, and one more for every group of eight begun. |
| `Lznt1Parse.CodedGrows` | private/ntos/rtl/lznt1.c:1652-1672 | Stopping at the first token without room is right: then the whole chunk does not fit. |
| `Lznt1Parse.ParseLocal` | private/ntos/rtl/lznt1.c:1624-1708 | The tokens of a chunk do not depend on what stands behind it. |
| `Lznt1Parse.ZerosAreSmall` | private/ntos/rtl/lznt1.c:1777-1785 | With either engine a chunk of zeros takes at most four bytes behind its header, so it is never stored raw. |
| `Lznt1Parse.ZerosParse` | private/ntos/rtl/lznt1.c:1624-1708 | Four zeros or more make a literal and a copy of it. |
| `Lznt1Parse.ReturnsAsDocumentedIff` | private/ntos/rtl/lznt1.c:2003-2207 | With either engine, a search returns the best match if it is longer than three bytes and else nothing, exactly when the best match is not three bytes long. |
| `Lznt1Parse.ThreeIsReturned` | private/ntos/rtl/lznt1.c:2023-2024 | A match of exactly three bytes is returned, by either engine. |
| `Lznt1.TokensAreGood` | private/ntos/rtl/lznt1.c:1751-1767 | At the end of a chunk's input the flag byte lies within the chunk, so its branch for an unused one is never taken; with the flags stored the chunk stands for the input. |
| `Lznt1.WriteTokens` | private/ntos/rtl/lznt1.c:1624-1708 | The loop writes the encoding of the chosen tokens, or stops because the whole of them does not fit, and leaves the hash table of the searches it made. |
| `Lznt1.CompressChunk` | private/ntos/rtl/lznt1.c:1485-1792 | Stores the chosen tokens exactly when they and the header fit both 4095 bytes and the room, else 4096 raw bytes exactly when those fit, else fails; reports zeros exactly for zeros, and a raw copy that would run past the end of memory as such. |
| `Lznt1.CompressBuffer` | private/ntos/rtl/lznt1.c:267-429 | Chunk after chunk, each with the room and the hash table the one before left: the bytes written, the ending header, too little room, reading past the input, and all zeros exactly for an input of zeros. |
| `Lznt1Compress.CompressedSpells` | private/ntos/rtl/lznt1.c:363-397 | The chunks stand for the input and what lies behind it under a raw last chunk; that is nothing exactly when the last chunk is compressed or whole. |
| `Lznt1Compress.WrittenHeaders` | private/ntos/rtl/lznt1.c:182-187 | Every header in the compressor's output has the size less three in its twelve low bits, signature 3, and the top bit exactly for a compressed chunk. |
| `Lznt1Compress.OneByteCompressed` | private/ntos/rtl/lznt1.c:267-429 | A one-byte input compresses to 01 B0 00 and the byte. |
| `Lznt1Compress.OverReadIff` | private/ntos/rtl/lznt1.c:1717-1741 | From a buffer of exactly the input's size the compressor reads on exactly when it gets to a last chunk that is not whole, has 4098 bytes of room, and codes to more than 4095 bytes with its header. |
| `Lznt1Compress.InputDecides` | private/ntos/rtl/lznt1.c:1726-1732 | Otherwise it does the same whatever follows the input. |
| `Lznt1Compress.RoomSuffices` | private/ntos/rtl/lznt1.c:1573-1587 | With 4098 bytes for every chunk of the input the destination is never too small. |
| `Lznt1Raw.SmallIff` | private/ntos/rtl/lznt1.c:1572-1587 | An input in which no three bytes repeat is small enough for a compressed chunk exactly up to 3638 bytes. |
| `Lznt1Raw.ReadsBehindInput` | private/ntos/rtl/lznt1.c:1726-1732 | 3639 such bytes in a buffer of their size are read past the end, with either engine and any hash table. |
| `Lznt1Raw.BringsMoreBack` | private/ntos/rtl/lznt1.c:1726-1732 | With memory behind them, 457 bytes of it come back from decompression. |
| `Lznt1Buffer.HeaderThere` | private/ntos/rtl/lznt1.c:141-187 | Size and kind of a chunk read back from its header; what the header is, `HeaderFields` says. |
| `Lznt1Buffer.HeaderFields` | private/ntos/rtl/lznt1.c:182-187 | The header's three fields: size less three, signature 3, kind. |
| `Lznt1Buffer.EveryHeader` | private/ntos/rtl/lznt1.c:141-187 | The header word at the start of every chunk in a run of chunks, low byte first. |
| `Lznt1Buffer.DecompressChunks` | private/ntos/rtl/lznt1.c:515-650 | A compressor's chunks decompress, in a buffer of any size, to the bytes they stand for, whether or not an ending header follows. |
| `Lznt1Compress.RoundTrip` | private/ntos/rtl/lznt1.c:267-676 | What the compressor wrote for an input that is not empty decompresses to the input and what stands behind it in a raw last chunk, as far as the buffer reaches; for an empty one this holds only if nothing is asked for and a third byte follows. |
| `Lznt1Compress.EmptyIsRefused` | private/ntos/rtl/lznt1.c:504-533 | The empty input compresses to no bytes and an ending header, and that is a bad buffer whatever the room. |
| `Lznt1Compress.RoundTripIff` | private/ntos/rtl/lznt1.c:1726-1732 | An input that is not empty comes back, itself or its front part, exactly when the buffer is no larger, or the input is whole chunks, or the tokens of its last chunk take at most 4095 bytes with the header; an empty one exactly when nothing is asked for and a third byte follows. |
| `Lznt1.CopyBack` | private/ntos/rtl/lznt1.c:1953-1963 | The copy loop extends the output byte by byte from displacement bytes back. |
| `Lznt1Format.InTablesIff` | private/ntos/rtl/lznt1.c:1885-1887 | Exactly with room for at most 4097 bytes no input leads the decoder behind its format tables. |
| `Lznt1Format.PastTables` | private/ntos/rtl/lznt1.c:1885-1887 | With more room five bytes do: a literal, a copy of 4096 bytes, and one byte more. |
| `Lznt1Buffer.DecompressedInTablesIff` | private/ntos/rtl/lznt1.c:515-650 | The same for whole buffers, so that a caller can rule it out by the size of the destination. |
| `Lznt1.DecompressChunk` | private/ntos/rtl/lznt1.c:1803-1992 | On every input the loop puts out what the format's walk does, reports a bad buffer exactly when it does, and gets behind the format tables exactly when it does; it writes nothing before the chunk. |
| `Lznt1.DecompressBuffer` | private/ntos/rtl/lznt1.c:432-676 | On every input, chunk headers, gaps filled with zeros, raw chunks and bad buffers included, the result is that of the walk over chunks, reads behind the format tables among them; a buffer of less than two bytes is bad. |
| `Lznt1Describe.DescribeChunk` | private/ntos/rtl/lznt1.c:1015-1149 | On every buffer and position: no more chunks, a bad buffer, or where the chunk's data and the next chunk begin, as `EntryAt` says; a bad signature, a chunk too large and a raw one of the wrong size are bad. |
| `Lznt1Describe.ChunksDescribed` | private/ntos/rtl/lznt1.c:1015-1149 | A run of chunks is described chunk by chunk, each with its place and size, and then no more are found. |
| `Lznt1Describe.WrittenDescribed` | private/ntos/rtl/lznt1.c:1076-1149 | So it is with all that the compressor writes, with either engine. |
| `Lznt1Describe.DescribedZerosAreZero` | private/ntos/rtl/lznt1.c:1133-1144 | A compressor's chunk that is described as zeros stands for at least four zeros. |
| `Lznt1Describe.ZerosDescribedIff` | private/ntos/rtl/lznt1.c:1133-1144 | A chunk is described as zeros exactly when it was written for at least four bytes, all of them zero. |
| `Lznt1Describe.ZeroAndCopyIff` | private/ntos/rtl/lznt1.c:1133-1144 | A zero literal and any copy token are described as zeros; they decompress to zeros exactly when no more than the literal is asked for or the token's four high bits are clear. |

## Left out

- SHA-1, the DES S-boxes, key schedule and initial permutation: not in the sources modelled; the proofs hold for any.
- RSA, MD5 and the other `Xc*` services: outside key morphing.
- Rc4.KeyStruct.SetKey: an empty key, of which the header says no more than that keys have any size. Every caller modelled passes a digest.
- Rc4, Des and Cbc are written to the published algorithms and the headers: the bodies of rc4, des, tripledes and CBC are not part of the repository.
- Cbc.BlockCryptCBC: a length that is not a multiple of the block size, which the header does not allow, and two buffers that overlap without being equal.
- CryptKeys.MorphThereAndBack: the morph key and the key lie in different arrays; in one array the second call would derive its key from morphed bytes. The same holds for `Rc4MorphThereAndBack`.
- `MorphKeyByHardDriveKey` and its siblings on the global `XboxHDKey`: one call each to a routine that is modelled.
- Eeprom: reading and writing the EEPROM itself, the user section with its checksum, the `ONLINEBETA` key change, LED states. The recovery program's fixed confounder is a parameter.
- EventBuffer: the method bodies are not part of the repository, so they are written to the rules of the two headers. TotalTime, GetStartTime, GetRawBufferPtr and GetBufferFormat only show fields; SetUsedBytes is covered by `CutIsWellFormedIff` and not by a method; reference counts are left out.
- Align: the power 2^31, for which the signed expression has no defined value.
- CabinetSet: names, dates, attributes, reserved areas, checksums and the bytes of file and folder headers in a cabinet's capacity; the USHORT limit on a folder's records; cabinets with eight bytes of room or less. Blocks are compressed bytes with their uncompressed size; compression itself is a parameter of `ExtractedIsOriginal`.
- CabinetSet.SetLinks: the writer is not part of the repository; it is written to the header's rules. That it generally ends a continued folder with the current file is its choice of folders, which are given here: the theorems hold for every list of folders.
- Lznt1.CompressBuffer: where the source reads on behind the memory it may read, its outcome is whatever follows; the model reports this case with a status of its own (`InputOverrun`) and writes no more. An engine that is neither of the two, which the source refuses at once, is left out.
- Lznt1.DecompressChunk: what the source does once it has read behind its format tables, which depends on the memory there; the model says exactly when this happens and stops (`Unspecified`). What the error returns store as a size is not modelled, nor the assembler version for the i386.
- Lznt1.DecompressBuffer: what the source does when even the first two bytes of memory cannot be read; the model reports this case with a status of its own.
- `RtlDecompressFragmentLZNT1` and `RtlReserveChunkLZNT1`: they walk the same headers.
- Lznt1Describe.DescribeChunk: the chunk pointer and size after a bad chunk, which the header comment calls undefined.
