# Verified model of vboot's NV storage block and BDB verification

This project models two parts of vboot's firmware in Dafny and proves properties about them.

**The non-volatile storage block.** This is a 16-byte block of boot state kept in NVRAM:
- a header byte with a two-bit signature and two "settings reset" flags;
- packed flag bits, the try-B counter, the recovery request and subcode, and the localization index;
- a 32-bit little-endian kernel field;
- a trailing CRC-8 over the first 15 bytes.

The model covers:
- `VbNvSetup`, which validates the block or resets it to defaults;
- `VbNvTeardown`, which regenerates the CRC when anything changed;
- the typed parameter accessors `VbNvGet` and `VbNvSet`, including clipping, remapping and "unchanged means no CRC regeneration";
- the TPM backup round trip of five parameters: `RestoreNvFromBackup` and `SaveNvToBackup`.

**The boot descriptor block (BDB).** This is a signed container laid out as:
- header;
- root key;
- OEM area 0;
- subkey;
- header signature;
- data block;
- OEM area 1;
- hash table;
- data signature.

The model covers:
- the four record validators, `bdb_check_header`, `bdb_check_key`, `bdb_check_sig` and `bdb_check_data`, each with the error precedence the unit tests pin down;
- `bdb_verify` as a staged parse followed by two signature checks and a comparison of the root-key digest with the caller's trusted digest;
- the `bdb_get_*` accessors and `bdb_get_hash`.

For each mangle in `check_bdb_verify`, a lemma proves the status `bdb_verify` returns. The mangles cover:
- bad magics;
- out-of-range sizes;
- signed-size mismatches;
- flipped bytes in OEM areas, hash entries and signature material;
- version bumps.

The lemmas are stated over arbitrary buffers, each assuming only what its stage needs:
- `TamperHeaderMagic` needs a buffer of at least a header's size;
- the root-key, OEM area 0, subkey and header-signature lemmas need a header section that parses;
- the data-block and data-signature lemmas also need a valid header signature;
- the coverage lemmas need both signatures valid;
- `RootKeyVersionDetected` needs a buffer the verifier accepts.

Each field write is modelled as a little-endian write that wraps modulo the field width.

Modules:
- `Wrappers`: Option and Result types.
- `Bytes`: little-endian codecs and packing.
- `NvStorage` and `NvStorageProps`: the NV block and its properties.
- `NvBackup`: the backup copy loop.
- `BdbDefs`, `BdbFormat` and `BdbLayout`: record formats, codecs, offsets and accessors.
- `BdbCheck`: the validators.
- `BdbVerify`: the verifier.
- `BdbTamper`, `BdbCoverage`, `BdbRootKey`, `BdbDataTamper` and `BdbDataCoverage`: the mangle lemmas.
- `BdbAccessors`: the accessors of a verified buffer.

Cryptography enters as a `Crypto` value:
- `sha256` is a function from bytes to digest;
- `verifySig` takes the algorithm, key material, signature material and digest.

The detection lemmas assume `IdealCrypto`, which says three things:
- the digest is collision-free;
- a valid signature vouches for one digest;
- a key has one valid signature per digest.

## Model

| member | source | states |
|---|---|---|
| NvStorage.Setup | firmware/lib/vboot_nvstorage.c:51-73 | Nothing is marked changed. A block with the 0x40 header signature and a matching CRC is kept as is, with no CRC regeneration. Any other block is replaced by the zeroed block with header 0x70, and CRC regeneration is requested. |
| NvStorage.Teardown | firmware/lib/vboot_nvstorage.c:75-84 | Bytes 0..14 are never touched. With regeneration pending, byte 15 becomes the CRC of bytes 0..14, the block is marked changed and the request is cleared. Otherwise the context is returned unchanged. |
| NvStorage.Get | firmware/lib/vboot_nvstorage.c:86-165 | Fails exactly for an unsupported parameter. Flags read as 0 or 1, the try-B count as at most 15, and the byte-wide parameters as at most 255. |
| NvStorage.Set | firmware/lib/vboot_nvstorage.c:167-300 | Fails exactly for an unsupported parameter. Writing the value already read back returns the context untouched. Any other write requests CRC regeneration and keeps the changed flag as it was. |
| NvStorageProps.GetAfterStore | firmware/lib/vboot_nvstorage.c:176-290 | After a store, reading the parameter back gives the normalised value. Normalisation clips the try-B count to 15, sends recovery requests above 0xFF to the legacy reason 0x01, sends localization indices above 0xFF to 0, keeps the low byte of the subcode and turns any non-zero flag value into 1. |
| NvStorageProps.StoreStaysInFootprint | firmware/lib/vboot_nvstorage.c:176-290 | A store changes only the bits of the parameter's own mask at its own offsets. |
| NvStorageProps.FootprintsDisjoint | firmware/lib/vboot_nvstorage.c:21-49 | The bit masks of two different parameters never overlap. |
| NvStorageProps.FootprintAvoidsHeaderAndCrc | firmware/lib/vboot_nvstorage.c:21-49 | No parameter's mask touches the header signature bits or the CRC byte. |
| NvStorageProps.GetReadsFootprint | firmware/lib/vboot_nvstorage.c:86-165 | Two blocks that agree on a parameter's mask read the same value for it. |
| NvStorageProps.SetThenGet | firmware/lib/vboot_nvstorage.c:167-300 | Setting a supported parameter succeeds. Reading it back gives the normalised value, and no bit outside its mask changes. |
| NvStorageProps.SetFrame | firmware/lib/vboot_nvstorage.c:167-300 | Setting one parameter leaves every other parameter's value as it was. |
| NvStorageProps.NormalizeGet | firmware/lib/vboot_nvstorage.c:86-165 | Every value `Get` returns is already normal, so writing it back stores exactly it. |
| NvStorageProps.SetupConsistent | firmware/lib/vboot_nvstorage.c:51-73 | After setup, the header is valid, and the CRC is valid unless regeneration is pending. |
| NvStorageProps.SetPreservesConsistent | firmware/lib/vboot_nvstorage.c:167-300 | A set keeps the header valid, and keeps the CRC valid unless it requested regeneration. |
| NvStorageProps.TeardownCommits | firmware/lib/vboot_nvstorage.c:75-84 | After teardown of a consistent context, the block passes validation, and setting it up again keeps it unchanged with nothing pending. |
| NvStorageProps.DefaultsAfterReset | firmware/lib/vboot_nvstorage.c:60-70 | After a reset, both settings-reset flags read 1 and every other parameter reads 0. |
| NvBackup.CopyBackedUp | firmware/lib/vboot_nvstorage.c:302-309 | Copying the five backed-up parameters gives them the source's values and leaves every other parameter at the destination's value. CRC regeneration is requested exactly when some copied value differed. The context is unchanged when none differed, and the header byte is unchanged. |
| NvBackup.CopyOne | firmware/lib/vboot_nvstorage.c:331-334 | One copy step writes exactly the value read and changes no other parameter. It requests CRC regeneration exactly when the value differed. |
| NvBackup.RestoreNvFromBackup | firmware/lib/vboot_nvstorage.c:314-338 | Succeeds exactly when the TPM read succeeded and the backup block is valid. On success the backed-up parameters come from the backup, and all others and the header byte are untouched. On failure the status is 1 and the context is unchanged. |
| NvBackup.SaveNvToBackup | firmware/lib/vboot_nvstorage.c:340-378 | A failed read gives status 1 and writes nothing. The block written is valid and holds the context's backed-up values. Every other parameter and the header byte come from the old backup when it was valid, and from the reset block when it was not. Nothing is written exactly when the existing backup is valid and already holds them. Success means nothing needed writing or the write succeeded, and it clears the backup request. |
| NvBackup.CopyConsistent | firmware/lib/vboot_nvstorage.c:331-334 | The copy loop keeps a context consistent. |
| NvBackup.TeardownReads | firmware/lib/vboot_nvstorage.c:361 | Teardown changes no parameter's value. |
| NvBackup.SaveThenRestore | firmware/lib/vboot_nvstorage.c:314-378 | Saving to the backup and then restoring into any other context succeeds. Afterwards that context holds the saved backed-up values and keeps its own values for everything else. |
| BdbCheck.CheckHeader | bdb/bdb_test.c:30-72 | Success holds exactly when all of these hold: the header fits in the buffer and its size is at least the fixed size; the magic and version are right; OEM area 0 is a multiple of 4; and the container is no smaller than the header. Any failure is one of the header errors. |
| BdbCheck.TestHeaderPasses | bdb/bdb_test.c:32-46 | The test's header passes at its own size. |
| BdbCheck.HeaderMutations | bdb/bdb_test.c:45-71 | From any header passing at exactly its own size, each of the seven mutations gives its expected error. In test order: BUF_SIZE, BUF_SIZE, STRUCT_SIZE, STRUCT_MAGIC, STRUCT_VERSION, OEM_AREA_SIZE, BDB_SIZE. |
| BdbCheck.CheckKey | bdb/bdb_test.c:74-133 | Success holds exactly when all of these hold: the key fits in the buffer; its size covers the record plus its algorithm's material; the magic and version are right; the description is NUL-terminated; and the hash and signature algorithms are known. Any failure is one of the key errors. |
| BdbCheck.KeyMutations | bdb/bdb_test.c:90-132 | From any RSA-4096 key passing at exactly its size, each mutation gives its expected error. Switching to ECDSA-521 still passes. |
| BdbCheck.KeyDescriptionUnterminated | bdb/bdb_test.c:110-113 | A key whose description has no NUL byte fails with DESCRIPTION. |
| BdbCheck.KeyDescriptionPadding | bdb/bdb_test.c:115-118 | Bytes after a key description's first NUL never affect the result. |
| BdbCheck.KeyRoomMonotone | bdb/bdb_test.c:90-96 | More buffer after a passing key never makes it fail. |
| BdbCheck.CheckSig | bdb/bdb_test.c:135-193 | The same rules as for keys, for signatures. |
| BdbCheck.SigMutations | bdb/bdb_test.c:150-192 | From any RSA-4096 signature passing at exactly its size, each mutation gives its expected error. Switching to ECDSA-521 still passes. |
| BdbCheck.SigDescriptionUnterminated | bdb/bdb_test.c:170-173 | A signature without a NUL-terminated description fails with DESCRIPTION. |
| BdbCheck.SigDescriptionPadding | bdb/bdb_test.c:175-178 | Bytes after a signature description's NUL never affect the result. |
| BdbCheck.SigRoomMonotone | bdb/bdb_test.c:150-156 | More buffer after a passing signature never makes it fail. |
| BdbCheck.CheckData | bdb/bdb_test.c:195-259 | Success holds exactly when all of these hold: the signed size fits in the buffer; the record size is at least the fixed size; the magic and version are right; the description is terminated; the hash entry size is right; OEM area 1 is a multiple of 4; and the signed size covers the record, OEM area 1 and the hash table. |
| BdbCheck.DataMutations | bdb/bdb_test.c:212-252 | From any data block passing at exactly its signed size, each mutation gives its expected error. The exact signed size passes, and one less gives SIGNED_SIZE. |
| BdbCheck.DataDescriptionUnterminated | bdb/bdb_test.c:228-231 | A data block without a NUL-terminated description fails with DESCRIPTION. |
| BdbCheck.DataDescriptionPadding | bdb/bdb_test.c:233-236 | Bytes after a data description's NUL never affect the result. |
| BdbCheck.DataRoomMonotone | bdb/bdb_test.c:212-214 | More buffer after a passing data block never makes it fail. |
| BdbVerify.Verify | bdb/bdb_test.c:329-331 | SUCCESS holds exactly when both sections parse, both signatures verify and the root key's digest equals the trusted digest. GOOD_OTHER_THAN_KEY holds exactly when the same chain holds but the digest differs. Every other outcome is one of the staged errors. |
| BdbVerify.VerifyOfSections | bdb/bdb_test.c:329-331 | Once both sections parse, the outcome is decided in order by the header signature, then the data signature, then the root-key digest. |
| BdbVerify.SignatureBinds | bdb/bdb_test.c:366-368 | Under ideal cryptography, a valid signature fails once either the signed bytes change or the signature material changes. |
| BdbVerify.ParseHeaderSectionComplete | bdb/bdb_test.c:333-364 | Any header section meeting the structural guarantees is the one the staged parse returns. |
| BdbVerify.ParseDataSectionComplete | bdb/bdb_test.c:383-394 | Any data section meeting the structural guarantees is the one the staged parse returns. |
| BdbTamper.TamperHeaderMagic | bdb/bdb_test.c:334-336 | In any buffer long enough for a header, a wrong header magic gives HEADER. |
| BdbTamper.TamperRootKeyMagic | bdb/bdb_test.c:338-340 | In a buffer whose header section parses, a wrong root-key magic gives BDBKEY. |
| BdbRootKey.RootKeyVersionDetected | bdb/bdb_test.c:342-344 | In an accepted buffer, any change to the root key's version gives GOOD_OTHER_THAN_KEY. Neither signature covers it, but its digest no longer matches. |
| BdbTamper.GrowOemArea0 | bdb/bdb_test.c:346-348 | Growing OEM area 0 by a multiple of 4 no smaller than the buffer gives OEM_AREA_0. |
| BdbTamper.OemArea0TooLarge | bdb/bdb_test.c:346-348 | Any aligned OEM area 0 size that runs past the buffer gives OEM_AREA_0. |
| BdbTamper.TamperSubkeyMagic | bdb/bdb_test.c:350-352 | A wrong subkey magic gives SUBKEY. |
| BdbTamper.GrowSubkey | bdb/bdb_test.c:354-356 | A subkey grown 4 bytes beyond the header's signed extent gives BDB_SIGNED_SIZE. |
| BdbTamper.TamperHeaderSigMagic | bdb/bdb_test.c:358-360 | A wrong header-signature magic gives HEADER_SIG. |
| BdbTamper.HeaderSigSizeMismatch | bdb/bdb_test.c:362-364 | A header signature whose signed size differs from the header's gives HEADER_SIG. |
| BdbTamper.ShrinkHeaderSigSignedSize | bdb/bdb_test.c:362-364 | Decrementing the header signature's signed size gives HEADER_SIG. |
| BdbCoverage.HeaderSigMaterialCovered | bdb/bdb_test.c:366-368 | Flipping any byte of the header signature's material in a validly signed buffer gives HEADER_SIG. |
| BdbCoverage.SubkeyVersionCovered | bdb/bdb_test.c:370-373 | Any change to the subkey's version in a validly signed buffer gives HEADER_SIG. |
| BdbCoverage.OemArea0ByteCovered | bdb/bdb_test.c:375-381 | Changing any byte of OEM area 0, including the first and last, gives HEADER_SIG. |
| BdbCoverage.HeaderSignatureBroken | bdb/bdb_test.c:366-381 | With the header section otherwise intact, changing the signed bytes alone or the signature material alone gives HEADER_SIG. |
| BdbDataTamper.TamperDataMagic | bdb/bdb_test.c:384-386 | With the header section and its signature good, a wrong data magic gives DATA. |
| BdbDataTamper.TamperDataSigMagic | bdb/bdb_test.c:388-390 | A wrong data-signature magic gives DATA_SIG. |
| BdbDataTamper.DataSigSizeMismatch | bdb/bdb_test.c:392-394 | A data signature whose signed size differs from the data block's gives DATA_SIG. |
| BdbDataTamper.ShrinkDataSigSignedSize | bdb/bdb_test.c:392-394 | Decrementing the data signature's signed size gives DATA_SIG. |
| BdbDataCoverage.DataSigMaterialCovered | bdb/bdb_test.c:396-398 | Flipping any byte of the data signature's material in a fully valid buffer gives DATA_SIG. |
| BdbDataCoverage.DataVersionCovered | bdb/bdb_test.c:400-403 | Any change to the data block's version in a fully valid buffer gives DATA_SIG. |
| BdbDataCoverage.DecrementDataVersion | bdb/bdb_test.c:401-403 | Decrementing the data version gives DATA_SIG. |
| BdbDataCoverage.DataByteCovered | bdb/bdb_test.c:405-419 | Changing any byte between the end of the data record and the data signature gives DATA_SIG. |
| BdbDataCoverage.OemArea1ByteCovered | bdb/bdb_test.c:405-411 | Changing any byte of OEM area 1, including the first and last, gives DATA_SIG. |
| BdbDataCoverage.HashEntryByteCovered | bdb/bdb_test.c:413-419 | Changing any byte of any hash entry, such as an offset or a digest byte, gives DATA_SIG. |
| BdbDataCoverage.DataSignatureBroken | bdb/bdb_test.c:396-419 | With everything else intact, changing the data signature's signed bytes alone or its material alone gives DATA_SIG. |
| BdbDataCoverage.DataAreasSigned | bdb/bdb_test.c:405-419 | OEM area 1 and the hash table lie between the data record and the data signature. |
| BdbAccessors.HeaderAccessors | bdb/bdb_test.c:426-442 | In a buffer whose header section parses, the header, root key, subkey and header-signature accessors return the parsed records. OEM area 0 is its declared size and ends where the subkey starts. |
| BdbAccessors.DataAccessors | bdb/bdb_test.c:444-453 | In a buffer whose sections parse, the data and data-signature accessors return the parsed records. |
| BdbAccessors.OemArea1Accessor | bdb/bdb_test.c:448-450 | In a buffer whose sections parse, OEM area 1 is the declared number of bytes between the data record and the hash table. |
| BdbAccessors.HashTableReadable | bdb/bdb_test.c:455-458 | In a buffer whose sections parse, the hash table reads whole, with one entry per declared hash. |
| BdbAccessors.GetHashOfParsed | bdb/bdb_test.c:455-460 | In a buffer whose sections parse, a lookup finds nothing exactly when no entry has that type. Otherwise it returns the first entry of that type. |
| BdbAccessors.GetHashOfTestTable | bdb/bdb_test.c:455-460 | In a table holding SP_RW then AP_RW, each lookup returns its own entry, and a lookup of MCU finds nothing. |
| BdbLayout.GetHash | bdb/bdb_test.c:455-460 | Scans the table entry by entry. A result has the requested type, and every entry before it lies in the buffer with another type. Nothing is returned only when the data block cannot be located, or when the scan reaches the table's end or an entry outside the buffer with no match before it. |
| BdbLayout.GetHashFindsFirst | bdb/bdb_test.c:455-460 | An in-buffer entry of the requested type, preceded only by in-buffer entries of other types, is what the lookup returns, whatever follows it. |
| BdbLayout.GetHashOfTable | bdb/bdb_test.c:455-460 | When the whole table reads, the lookup finds nothing exactly when no entry has the type, and otherwise it returns the first entry that has it. |
| BdbLayout.FindHash | bdb/bdb_test.c:455-460 | Returns the index of the first entry of the requested type, or nothing exactly when there is none. |

## Left out

- The CRC-8 routine. `Crc8` is not part of this model. It enters as a function parameter on bytes 0..14.
- `RollbackBackupRead` and `RollbackBackupWrite`, the TPM calls, are not part of this model. The read's outcome is an `Option<Block>` input. The write's success is a `bool` input. The block to be written is an output.
- `VBDEBUG` logging.
- The `BUILD_ASSERT` on the backup size, which is a compile-time fact.
- SHA-256, RSA-4096 and ECDSA-521 are not part of this model. They are the `Crypto` parameter.
- `IdealCrypto` idealises them to no collisions and unique signatures. Real signature malleability and hash collisions are outside the model.
- `bdb_create`, `bdb_create_key`, `read_pem` and `bdb_sha256` of the test fixture are not part of this model. They need private-key signing and file I/O. Instead, each verify lemma starts from an arbitrary buffer meeting the assumptions listed above. The model does not show that the test's own buffer meets them, because its layout constants are the model's own.
- The header's load address (test lines 427) and the description string comparisons (test lines 429-453). These describe what `bdb_create` wrote.
- `bdb.h` is not part of this model. The exact field offsets, structure sizes, magic numbers and algorithm material sizes are the model's own choices. Only the relations between them matter to the properties.
- The 32-bit `size_t` wrap-around checks (test lines 254-258 and 462-466). Sizes here are unbounded naturals, so no addition overflows.
- The C tests increment or decrement fields directly; the model writes them with `SetField`, modulo the field width. The lemmas are stated for any new value whose wrapped form differs from the old, and the test's `++` and `--` are instances.
- BdbCheck.CheckHeader: struct_size is checked as a lower bound (at least the header record's size), not as an exact size. A header declaring more than the record's size, in a buffer that holds it, passes here. bdb.c is not part of this model. The tests pin one byte too many, which fails earlier on the buffer size (lines 49-51), and one byte too few (lines 53-55); the exact-size case is undecided by them, and the same reading as for keys and signatures is kept.
- BdbCheck.CheckData: struct_size is likewise a lower bound (at least the data record's size), not an exact size. The tests pin only the case of one byte too few (lines 215-217).
- BdbCheck.CheckKey: the rule that the size covers the record plus its algorithm's material is modelled as a lower bound, not an exact size. The test at lines 125-128 accepts an ECDSA-521 key whose size is that of an RSA-4096 key.
- BdbCheck.CheckSig: the same lower bound, for the same reason (lines 185-188).
- BdbCheck.CheckData: the signed size must be at least the record, OEM area 1 and hash table together, not exactly equal. The test at lines 206-213 accepts 2048, and the test at 247-252 accepts the exact total.
- BdbCheck.CheckHeader: OEM area 0 is checked for 4-byte alignment only, not against the container size. The test at lines 346-348 expects an oversized OEM area 0 to fail later, at the OEM_AREA_0 stage.
- BdbVerify.HeaderSigValid and BdbVerify.DataSigValid pass only the signing key's algorithm to `verifySig`, not the signature record's. A key and signature of different algorithms are not rejected by the model itself; what `verifySig` answers for them is left to the `Crypto` parameter. bdb.c is not part of this model.
- BdbVerify.Verify: the root-key digest covers the key as stored, key material included. A mismatch is GOOD_OTHER_THAN_KEY, not BDBKEY (lines 316, 342-344).
- BdbVerify.Verify: the header signature covers OEM area 0 through the subkey, not the header or the root key. Bumping the root-key version must leave it valid (lines 342-344), while OEM area 0 and the subkey are covered (lines 370-381).
