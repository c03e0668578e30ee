# Verified model of the engine's storage, crypto, framing, queue and memory code

The project models, in Dafny, the parts of the engine in which much state or arithmetic has to come out right, and
proves what those parts promise. Methods follow the loops and in-place updates of the C++ code and are proved against
functions; theorems about all inputs, all runs or all crash points are proved about the functions.

* **Settings store** (`SettingsDisk`, `SettingsRepair`, `SettingsLoad`, `SettingsCrash`, `SettingsFiles`, `SettingsCut`,
  `SettingsCutSafe`, `SettingsLoadCut`, `SettingsAdm`): one setting in
  four replicas and a factory copy, each a data file and an optional checksum file. The disk is the state of a class;
  a save is modelled with a medium that may fail, tear or refuse every single write. Save, repair and load yield every
  disk state they go through, and may be cut short in each of them.
* **AES** (`Gf256`, `AesTables`, `AesSbox`, `AesCipher`, `AesKey`, `AesState`, `AesPositions`, `AesModes`, `Aes`): the
  field, the tables, the cipher and its inverse, the key schedule, and the ECB, CBC and CFB loops.
* **SHA-256** (`Sha256Words`, `Sha256Block`, `Sha256Length`, `Sha256`, `Sha256Shape`, `Sha256Constants`) and **MD5**
  (`Md5Block`, `Md5`, `Md5Shape`), over the common `Blocks` and `WordBits`: the word functions bit by bit, compression,
  length counting, padding, and independence of how the message is cut.
* **CRC-32 and CRC-8** (`Crc`, `CrcCheck`), **base64** (`Base64`).
* **Frames** (`FrameProto`): the byte-at-a-time parser and its printer.
* **Bit packing** (`BitStrings`, `Buffers`, `PackSpec`, `PackData`): bit copies and packets of "u" and "a1" fields.
* **Queues** (`FifoQueues`, `FifoLetters`, `MemAdmin`, `FifoEngine`): named unicast and multicast queues; every method is one section
  under the common mutex, and the runs are sequences of such sections in any order.
* **Memory pool** (`PoolGeometry`, `PoolAllocator`): chunks, blocks, growth in place, the user buffer.
* **File names** (`Numerals`, `DalFilename`): the name format of archives and its backward parser.

Where code and documentation disagree the model follows the code: the CRC-8 table belongs to the polynomial
x^8 + x^2 + x + 1, not to the one its comment names (algo/crc.cxx:12); the frame class is named after 250 data bytes
but its parser and printer agree on up to 255, of which only the printer's return value is lost (proto/custom_proto.h:123);
GetTotalSize (memadmin.cxx:444) counts the consumed head and nothing is claimed about it.

Promises that do not hold of the code for all inputs are stated with their exact condition: the members whose names end
in `Iff`, `FactoryRepair`, and the contracts of `Malloc`, `Realloc`, `AddChunk`, `PushBuf` and `SetToBuf`.
`EmptyReserveLaundersPrimary`, `EmptyPrimaryLaundersCorruption`, `CutOpenLaundersExtended` and `SavingBackBlocksLoading`
show disks on which such a promise fails. A load that is cut while it restores the primary makes the next load return
torn contents (`CutLoadReturnsPart`), as the checksum file has been removed before the copying.

## Model

| member | source | states |
|---|---|---|
| SettingsDisk.ParsePrinted | settings_adm.cxx:290-291 | A checksum written as "%08x" is read back as the same number |
| SettingsDisk.CheckKeeps | settings_adm.cxx:401-456 | A replica is reported valid iff it is non-empty with a matching non-zero checksum (or none), or is the empty unprotected file; the check leaves healthy replicas alone, never makes an invalid one valid, and is idempotent |
| SettingsAdm.SettingsAdm.RemoveFile | settings_adm.cxx:458-463 | Exactly the named file is gone |
| SettingsAdm.SettingsAdm.CopyFile | settings_adm.cxx:465-508 | The target gets the bytes of the source, nothing else changes, and the disk goes through the emptied and the partly written target; an absent source is an error and changes nothing |
| SettingsAdm.SettingsAdm.CheckJSONInStorage | settings_adm.cxx:401-456 | The stream-and-branch code reports and leaves what the specification of the check says, with its deletions in order |
| SettingsAdm.SettingsAdm.RestoreOne | settings_adm.cxx:568-593 | One turn of the repair loop: data first, then the checksum, with its two special cases, and the states on the way |
| SettingsAdm.SettingsAdm.RestoreFailing | settings_adm.cxx:564-595 | The restoring loop overwrites exactly the failing replicas, through exactly the states of their turns |
| SettingsAdm.SettingsAdm.CopyFactory | settings_adm.cxx:598-602 | The factory loop, with every state on the way |
| SettingsAdm.SettingsAdm.SyncGsetOneSetting4x4 | settings_adm.cxx:527-613 | The check loop, the restore loop and the factory branch compute the repair function, with its error code and the exact sequence of disk states on the way |
| SettingsRepair.RepairHeals | settings_adm.cxx:564-595 | With a replica reported valid, all four are healthy after the repair iff no replica was an empty data file without checksum |
| SettingsRepair.RepairCopiesFirst | settings_adm.cxx:554-595 | Failing replicas get the bytes of the first valid one in the order primary, extended, reserve, extended reserve; the data of healthy ones and the factory copy are unchanged |
| SettingsRepair.HealthyDiskKept | settings_adm.cxx:527-613 | A disk with four healthy replicas is left exactly as it is |
| SettingsRepair.RepairIdempotentIff | settings_adm.cxx:527-613 | Exactly when a second repair changes nothing, for every disk: no replica was an empty file without checksum (or nothing at all is left to restore), or from the factory copy, all replicas are healthy or none passes and no old data stands beside a factory checksum that reads as zero |
| SettingsRepair.FactoryRepair | settings_adm.cxx:596-611 | From the factory copy the repair succeeds iff the factory data matches the factory checksum or, if there is none, the checksum of the primary that survived |
| SettingsRepair.FactoryHeals | settings_adm.cxx:596-611 | A healthy factory copy with checksum makes all four replicas copies of itself |
| SettingsRepair.FactoryHealsIff | settings_adm.cxx:596-611 | From an existing factory copy all four replicas are healthy afterwards iff there is factory data and it matches the factory checksum or, without one, every checksum file that survived the check |
| SettingsRepair.LaundersIff | settings_adm.cxx:443-453 | The repair lets data that had failed the check pass iff the first replica reported valid is an empty one without checksum |
| SettingsRepair.EmptyReserveLaundersPrimary | settings_adm.cxx:568-593 | One such disk: an empty reserve makes a primary whose corruption had been detected pass after one successful repair |
| SettingsRepair.EmptyPrimaryLaundersCorruption | settings_adm.cxx:568-593 | Another: with an empty primary a second repair spreads the corrupt data |
| SettingsCrash.SaveIsCrashSafe | settings_adm.cxx:299-381 | For a crash at any point of a save, with any torn contents (no checksum collision), the repair makes all four replicas healthy and each holds the complete new value or one that some replica held before |
| SettingsCrash.DurableIffNonzero | settings_adm.cxx:358-381 | In every state of a save in which data and checksum of the primary are durable, the repair keeps the new value iff its checksum is not zero |
| SettingsCut.CutCheckTrustsIff | settings_adm.cxx:422-429 | A crash between the two removals of the check: the next repair keeps the unverified data unless they are empty, and without a valid replica spreads them over all four |
| SettingsCut.CutDataTrustsIff | settings_adm.cxx:570-570 | A crash while any replica is being overwritten: torn data are trusted iff no checksum survived the check, or the valid replica has none and an earlier turn removed them all |
| SettingsCut.CutOpenHealsIff | settings_adm.cxx:476-476 | A crash right after a replica has been opened, which empties it: the next repair makes all four healthy iff it is not so unguarded |
| SettingsCut.CutOpenLaundersExtended | settings_adm.cxx:476-476 | A disk on which such a crash lets two further repairs make corrupt data of the extended replica the value of the primary |
| SettingsCut.CutChecksumHeals | settings_adm.cxx:571-581 | A crash after the data, with anything in the checksum file: the next repair makes all replicas healthy with verified contents, if the valid one has a checksum |
| SettingsCut.CutBetweenTrustsIff | settings_adm.cxx:566-594 | A crash between two turns: unverified data of a waiting replica are taken over iff the valid one has no checksum file and an earlier turn removed those of the others |
| SettingsCut.CutRemovalTrustsIff | settings_adm.cxx:582-588 | A crash while checksum files are being removed: unverified data are taken over from exactly the replicas whose file is gone |
| SettingsCut.CutFactoryTrustsIff | settings_adm.cxx:598-602 | A crash while the factory data are copied over a replica: torn data are trusted iff no checksum of it survived the check, and reach all four if it is the primary |
| SettingsCut.CutFactoryCheckTrusts | settings_adm.cxx:604-604 | A crash in the last check makes the next repair spread factory data that had just failed it |
| SettingsCutSafe.RepairTraceIsCuts | settings_adm.cxx:527-613 | Every state that the repair goes through is one of the cuts these lemmas speak of |
| SettingsCutSafe.RepairCutSafeIff | settings_adm.cxx:564-595 | With a valid replica: from every state of the repair the next one makes all four replicas healthy with verified contents, iff no replica was empty and unprotected and each failing one has a checksum file when its turn comes |
| SettingsCutSafe.FactoryCutSafeIff | settings_adm.cxx:596-611 | From the factory copy: the same with the factory data, iff each replica kept a checksum file and the factory data match the factory checksum or, without one, all of these |
| SettingsAdm.SettingsAdm.CheckSaved | settings_adm.cxx:234-261 | Reports success iff the file on disk has the given checksum, an unreadable file counting as 0 |
| SettingsAdm.SettingsAdm.StoreData | settings_adm.cxx:299-328 | The retry loop stops at the first attempt that cannot be opened or that reads back right, or after eleven; the disk goes through exactly the states of those attempts |
| SettingsAdm.AttemptsUsed | settings_adm.cxx:299-328 | There are at most eleven attempts, and each but the last could open the file and read back wrong |
| SettingsAdm.SettingsAdm.SaveSetting | settings_adm.cxx:263-399 | Final disk and error code of the four writes, and the exact sequence of disk states on the way |
| SettingsAdm.SaveTraceTouched | settings_adm.cxx:299-381 | Every one of these states is one that the crash theorem speaks of |
| SettingsAdm.CutSaveIsRepaired | settings_adm.cxx:299-381 | A crash at any of them, or before or after: the repair makes all four replicas healthy with complete new or old contents |
| SettingsAdm.SaveTakesEffectIff | settings_adm.cxx:358-381 | Saving over a protected disk with faithful data writes always reports success; exactly when the new value is what loads next, and exactly when anything loads at all, also for a value that the reserve already holds |
| SettingsAdm.SavingBackBlocksLoading | settings_adm.cxx:633-638 | Such a value, saved while the checksum file of the primary cannot be opened: success is reported and the setting no longer loads |
| SettingsAdm.SaveThenLoad | settings_adm.cxx:29-70 | With faithful writes, loading returns what was saved iff its checksum is not zero |
| SettingsAdm.LoadAfterCrash | settings_adm.cxx:29-70 | Loading straight after a crash succeeds iff the primary passes or differs from its reserve, and returns a complete new or old value |
| SettingsAdm.SettingsAdm.EqualFiles | lib/11p_files.cxx:255-301 | Two files count as equal iff both exist, are non-empty and have the same bytes; of two absent files, iff the buffers that nothing was read into compare as equal |
| SettingsAdm.SettingsAdm.RestoreFactory | settings_adm.cxx:669-691 | The factory branch of the lazy repair, with every state on the way |
| SettingsAdm.SettingsAdm.RestorePrimary | settings_adm.cxx:655-732 | The nested branches of the lazy repair for an invalid primary, including the copy from the unchecked extended reserve, with every state on the way |
| SettingsAdm.SettingsAdm.SyncGsetOneSettingLazy | settings_adm.cxx:615-744 | The whole lazy repair computes its disk function and goes through exactly the states of its trace |
| SettingsAdm.SettingsAdm.LoadSetting | settings_adm.cxx:29-70 | Result, error code, final disk and sequence of disk states of a load |
| SettingsLoad.LoadSucceedsIff | settings_adm.cxx:29-70 | A load succeeds iff the primary passes, or primary and reserve do not compare as equal and the first other copy reported valid is not the empty one |
| SettingsLoad.LoadReturnsDonor | settings_adm.cxx:636-732 | With an invalid primary the bytes returned are those of the first valid copy among extended, reserve, extended reserve and factory, and the primary then holds it |
| SettingsLoad.LoadStable | settings_adm.cxx:29-70 | Loading again gives the same result and changes nothing, iff the first load did not accept an empty primary |
| SettingsLoad.LoadedReplicas | settings_adm.cxx:655-732 | What a load with an invalid primary leaves in all four replicas, by the copy it found: the extended replica refills the primary only, the reserve also lets the extended reserve refill the extended replica, the extended reserve and the factory copy fill all four |
| SettingsLoad.LoadSpares | settings_adm.cxx:29-70 | No load changes the factory copy, and with a valid primary, or one equal to its reserve, none changes another replica |
| SettingsLoad.LazyRefreshesReserve | settings_adm.cxx:735-740 | A healthy primary that differs from its reserve is copied over it, and nothing else changes |
| SettingsLoadCut.CutLoadReturnsPart | settings_adm.cxx:655-732 | A crash while a load restores the primary: whatever part of the data is found there, down to nothing, is what the next load returns as a success |
| SettingsLoadCut.LoadCutSafeIff | settings_adm.cxx:29-70 | A successful load can be cut anywhere without changing what the next load returns iff the primary was healthy |
| Crc.TableIsEightShifts | algo/crc.cxx:90-155 | Each of the 256 table entries is eight steps of reflected division by 0xEDB88320 |
| Crc.TableStep | algo/crc.cxx:160-161 | One turn of the table loop is eight bit-serial division steps (RFC 1952, section 8) |
| Crc.Crc32Buf | algo/crc.cxx:157-163 | The table loop computes the bit-serial CRC-32 of the buffer |
| Crc.Crc32ShotInit | algo/crc.cxx:165-168 | The register starts as all ones |
| Crc.Crc32Shot | algo/crc.cxx:170-175 | A shot advances the register over the piece |
| Crc.Crc32ShotStop | algo/crc.cxx:177-180 | The final complement |
| Crc.RegisterConcat | algo/crc.cxx:170-175 | Feeding two pieces is feeding their concatenation |
| Crc.ShotsAreOneBuffer | algo/crc.cxx:165-180 | Init, shots over any split and stop give the CRC of the whole buffer |
| Crc.BurstDetected | algo/crc.cxx:157-163 | Two buffers of equal length that differ only within four consecutive bytes have different CRCs |
| Crc.BurstCollision | algo/crc.cxx:157-163 | Equal CRCs force equal bytes within a four-byte window, from any register value |
| Crc.Table8IsEightShifts | algo/crc.cxx:13-31 | Each CRC-8 table entry is eight division steps by x^8 + x^2 + x + 1, reflected |
| Crc.CalcCRC8_Shot | algo/crc.cxx:38-45 | The table loop is bit-serial division |
| Crc.CalcCRC8 | algo/crc.cxx:67-77 | Start value, loop and final complement |
| Crc.Shots8AreOneBuffer | algo/crc.cxx:34-45 | From the start value of ShotInit, shots over any split give the complement of CalcCRC8 of the whole |
| Crc.ByteChangeDetected8 | algo/crc.cxx:38-45 | Changing one byte of a message always changes its CRC-8 |
| Crc.Register8Injective | algo/crc.cxx:38-45 | Different start values give different CRC-8s of the same data |
| CrcCheck.CheckValue32 | algo/crc.cxx:157-165 | The CRC-32 of the nine digits 1 to 9 is the published check value |
| CrcCheck.CheckValue8 | algo/crc.cxx:38-45 | The CRC-8 register of the nine digits is the published check value of CRC-8/ROHC, whose complement is returned |
| FrameProto.CustomProto.ParseByte | proto/custom_proto.h:44-105 | One byte drives the six-state machine as its transition function says |
| FrameProto.CustomProto.GetFromBuf | proto/custom_proto.h:37-110 | One call over a buffer computes the run of the machine, with result, command, payload and position |
| FrameProto.CustomProto.SetToBuf | proto/custom_proto.h:111-124 | Writes exactly the frame of command and payload; the returned byte is its length iff the payload has at most 250 bytes |
| FrameProto.CustomProto.WriteHead | proto/custom_proto.h:112-115 | Header, size, their xor and the command |
| FrameProto.CustomProto.PayloadCrc | proto/custom_proto.h:55-58 | The checksum starts from the command and runs over the payload |
| FrameProto.FrameAccepted | proto/custom_proto.h:37-124 | An idle parser accepts a frame exactly at its last byte, with its command and payload, whatever the payload contains |
| FrameProto.AnyFragmentation | proto/custom_proto.h:37-110 | Cutting the input into calls in any way leads to the same outcome as one call |
| FrameProto.CallsPending | proto/custom_proto.h:37-110 | Calls before the completing one report nothing |
| FrameProto.GarbageIgnored | proto/custom_proto.h:47-51 | Bytes without the header leave an idle parser as it is |
| FrameProto.RoundTrip | proto/custom_proto.h:37-124 | Header-free garbage, then a frame of any payload, in any fragmentation: success at the last byte of the last call, with the command and payload sent |
| FrameProto.AcceptedIsFrame | proto/custom_proto.h:37-110 | Soundness: whatever an idle parser is fed, what it accepts is preceded byte for byte by the frame of what it reports |
| FrameProto.DamageDetected | proto/custom_proto.h:53-71 | A frame with one changed byte in command, payload or checksum is dropped and the parser is idle again |
| FrameProto.FrameLayout | proto/custom_proto.h:110-123 | A frame is header, payload length and five, the byte that makes the xor of the first three zero, command, payload, checksum |
| FrameProto.DamagedHeadDropped | proto/custom_proto.h:80-106 | A changed size or guard byte makes the parser idle at the third byte, a changed header is passed over; without a further header byte nothing is accepted |
| Gf256.MulCommutes | algo/aes.cxx:305-324 | The product of the field of FIPS 197, section 4.2, is commutative |
| Gf256.MulAssociates | algo/aes.cxx:305-324 | and associative |
| Gf256.MulDistributes | algo/aes.cxx:305-324 | and distributes over xor |
| Gf256.MulOne | algo/aes.cxx:305-324 | and has 1 as unit |
| Gf256.MulBytes | algo/aes.cxx:294-324 | The shift-and-xtime loop computes that product |
| AesTables.InvSboxInverts | algo/aes.h:91-158 | The two tables are inverse to each other on all 256 bytes, in both orders |
| AesSbox.InverseExists | algo/aes.h:91-123 | Every byte but zero has an inverse in the field, found through its table entry |
| AesSbox.SboxIsAffineOfInverse | algo/aes.h:91-123 | sbox is inversion in GF(2^8), zero going to itself, followed by the affine map of section 5.1.1 of FIPS 197 |
| AesCipher.InvMixColumnsInverts | algo/aes.cxx:326-349 | InvMixColumns undoes MixColumns on every state |
| AesPositions.ShiftRowsAt | algo/aes.cxx:287-292 | Row r is rotated to the left by r, by the inverse to the right |
| AesPositions.RoundKeyAt | algo/aes.cxx:351-359 | Column c takes in bytes 4c to 4c + 3 of the round key |
| AesPositions.TransposedAt | algo/aes.cxx:175-181 | The state is filled column by column |
| AesPositions.MixWordMultiplies | algo/aes.cxx:326-349 | MixColumns multiplies each column by 03 x^3 + x^2 + x + 02 modulo x^4 + 1 |
| AesPositions.InvMixWordMultiplies | algo/aes.cxx:462-483 | Its inverse multiplies by 0b x^3 + 0d x^2 + 09 x + 0e |
| AesPositions.ColumnOfRound | algo/aes.cxx:185-191 | A column of a full round is the product of four substituted bytes along a diagonal, plus a key word |
| AesPositions.FirstAndLast | algo/aes.cxx:183-195 | The first key is added to the bare state, and the last round leaves out the product |
| AesCipher.InvMixWordInverts | algo/aes.cxx:462-483 | The same for one column, from the matrix product over the field |
| AesCipher.InvShiftRowsInverts | algo/aes.cxx:287-292 | The row rotations cancel |
| AesCipher.InvRoundInverts | algo/aes.cxx:185-195 | An inverse round undoes a round |
| AesCipher.AllInvRoundsInvert | algo/aes.cxx:232-242 | The inverse rounds in reverse order undo all rounds |
| AesCipher.InvCipherInverts | algo/aes.cxx:162-254 | The inverse cipher undoes the cipher for any number of rounds and any expanded key |
| AesKey.RconIsPower | algo/aes.cxx:390-401 | Rcon(n) is x^(n-1) in the field |
| AesKey.ExpandedKeyAt | algo/aes.cxx:403-445 | Word i of the expanded key of section 5.2 of FIPS 197 lies at bytes 4i to 4i+3 |
| AesPositions.ExpandedKeyBytes | algo/aes.cxx:403-445 | Byte by byte: the key, then sums of the byte nk words before and of one of the word before, rotated, substituted and with a power of x where section 5.2 of FIPS 197 says so |
| AesKey.RotWord | algo/aes.cxx:372-379 | Rotates the word in place |
| AesKey.SubWord | algo/aes.cxx:363-370 | Substitutes its four bytes |
| AesKey.XorWords | algo/aes.cxx:381-388 | Word sum |
| AesKey.Rcon | algo/aes.cxx:390-401 | The loop writes the round constant |
| AesKey.KeyExpansion | algo/aes.cxx:403-445 | The in-place byte loop with its running index computes the recursive word schedule for Nk = 4, 6 and 8 |
| AesState.SubBytes | algo/aes.cxx:257-270 | Substitutes all 16 bytes |
| AesState.InvSubBytes | algo/aes.cxx:448-460 | The inverse substitution |
| AesState.ShiftRow | algo/aes.cxx:272-285 | n single-position shifts rotate the row by n |
| AesState.ShiftRows | algo/aes.cxx:287-292 | Rows 1, 2, 3 by 1, 2, 3 |
| AesState.InvShiftRows | algo/aes.cxx:485-490 | Rows 1, 2, 3 by 3, 2, 1 |
| AesState.MixColumns | algo/aes.cxx:326-349 | The column loops compute the matrix product |
| AesState.InvMixColumns | algo/aes.cxx:462-483 | and its inverse |
| AesState.AddRoundKey | algo/aes.cxx:351-361 | Column by column xor of the round key |
| Aes.AES.Create | algo/aes.cxx:13-35 | Nk and Nr for 128, 192 and 256 bits, an error for every other length |
| Aes.AES.EncryptState | algo/aes.cxx:181-195 | The rounds on the state array compute the cipher |
| Aes.AES.DecryptState | algo/aes.cxx:229-242 | The inverse rounds compute the inverse cipher |
| Aes.AES.EncryptBlock | algo/aes.cxx:162-208 | Exactly the 16 bytes at the output position become the encryption of those at the input position |
| Aes.AES.DecryptBlock | algo/aes.cxx:210-255 | The same for decryption |
| Aes.DecryptionUndoes | algo/aes.cxx:162-255 | For every key of every length and every block, decryption undoes encryption |
| Aes.AES.GetPaddingLength | algo/aes.cxx:150-160 | The rounded-up length, with its 32-bit wrap |
| AesModes.PaddingLengthIsLeast | algo/aes.cxx:150-160 | It is the least multiple of 16 not below the length iff the length is at most 2^32 - 16 |
| Aes.AES.PaddingNulls | algo/aes.cxx:142-148 | The input followed by zeros |
| Aes.AES.XorBlocks | algo/aes.cxx:492-498 | Block xor, also in place |
| Aes.AES.EncryptECB | algo/aes.cxx:37-50 | The loop computes ECB of the zero-padded input |
| Aes.AES.DecryptECB | algo/aes.cxx:52-62 | The loop computes ECB decryption |
| Aes.AES.EncryptCBC | algo/aes.cxx:64-82 | The loop with its chaining block computes CBC (SP 800-38A, section 6.2) |
| Aes.AES.DecryptCBC | algo/aes.cxx:84-99 | CBC decryption |
| Aes.AES.EncryptCFB | algo/aes.cxx:101-121 | CFB with full-block segments (section 6.3) |
| Aes.AES.DecryptCFB | algo/aes.cxx:123-140 | CFB decryption |
| AesModes.EcbRoundTrip | algo/aes.cxx:37-62 | ECB decryption undoes encryption when the block functions are inverse |
| AesModes.CbcRoundTrip | algo/aes.cxx:64-99 | CBC likewise, for any initialization vector |
| AesModes.CfbRoundTrip | algo/aes.cxx:101-140 | CFB for any block function at all |
| AesModes.EcbBlock | algo/aes.cxx:37-48 | Each block is encrypted by itself |
| AesModes.CbcBlock | algo/aes.cxx:64-80 | Each block is added to the ciphertext block before it, the first to the vector, and encrypted |
| AesModes.CfbBlock | algo/aes.cxx:101-120 | Each block is added to the encryption of the ciphertext block before it, the first to that of the vector |
| Aes.ModesRoundTrip | algo/aes.cxx:37-140 | For each mode, key, vector and message: decrypting the encryption gives the zero-padded message |
| Sha256Block.RoundRefines | algo/sha256.h:120-131 | A round on 64-bit words that hold 32-bit values is a round of FIPS 180-4, section 6.2.2 |
| Sha256Words.BSig0Refines | algo/sha256.h:81-81 | The 64-bit big sigma 0 with its masks is the 32-bit one |
| Sha256Words.SSig1Refines | algo/sha256.h:92-92 | likewise small sigma 1 |
| WordBits.ChChooses | algo/sha256.h:70-70 | Ch takes the bits of its second argument where the first has ones, of the third where it has zeros |
| WordBits.MajIsMajority | algo/sha256.h:72-74 | Maj takes the majority of the three bits |
| WordBits.TurnedBit | algo/sha256.h:76-79 | A rotation by n places brings bit i + n, counted round the word, to position i |
| WordBits.RotationsTurn | algo/sha256.h:76-83 | The shifts and ors by which the ten rotations are computed are rotations by that many places |
| WordBits.BigSigmaBits | algo/sha256.h:81-83 | Each bit of the big sigmas is the parity of three bits, at distances 2, 13, 22 and 6, 11, 25 |
| WordBits.SmallSigmaBits | algo/sha256.h:90-92 | Each bit of the small sigmas is the parity of three bits, at distances 7, 18, 3 and 17, 19, 10, of which the last may have been shifted out |
| Sha256Shape.RoundsAreRecurrences | algo/sha256.h:120-131 | The eight variables are the last four values of two words, each of which follows one recurrence |
| Sha256Shape.ScheduleLayout | algo/sha256.h:100-109 | The first sixteen words hold the block high byte first, the others follow the recurrence |
| Sha256Shape.CompressAdds | algo/sha256.h:111-139 | The rounds start from the hash value and are added to it word by word |
| Sha256Block.ExpandMessage | algo/sha256.h:98-109 | The message schedule |
| Sha256Block.Hash256Block | algo/sha256.h:94-143 | One block: the 64-bit code computes the 32-bit compression function of the standard |
| Sha256Constants.AddConstantsAreCubeRoots | algo/sha256.h:53-64 | The 64 constants are the first 32 fractional bits of the cube roots of the first 64 primes |
| Sha256Constants.InitialWordsAreSquareRoots | algo/sha256.h:66-68 | The initial words are those of the square roots of the first eight |
| Sha256.Hash256OneByOne.constructor | algo/sha256.h:189-194 | Nothing absorbed yet |
| Sha256.Hash256OneByOne.AddToDataLength | algo/sha256.h:238-250 | The digit loop with carries adds modulo 2^64 |
| Sha256.Hash256OneByOne.Process | algo/sha256.h:196-206 | Absorbs a piece: state, buffer and counter depend only on the concatenation of all pieces |
| Sha256.Hash256OneByOne.BitDigits | algo/sha256.h:252-264 | The shifted digits hold eight times the length modulo 2^64 |
| Sha256.Hash256OneByOne.WriteDataBitLength | algo/sha256.h:251-271 | Writes that number big-endian |
| Sha256Length.BigEndian64Modulo | algo/sha256.h:266-270 | Eight big-endian bytes hold a number modulo 2^64 |
| Sha256.Hash256OneByOne.Finish | algo/sha256.h:208-225 | Both padding branches end in the hash of the message padded as in section 5.1.1 |
| Sha256Shape.PaddedLayout | algo/sha256.h:208-225 | Message, one bit, zeros and the length in bits, in as few blocks as will do |
| Sha256Shape.BigEndianAt | algo/sha256.h:248-270 | The i-th byte of the length from the right is its i-th digit to the base 256 |
| Sha256Shape.DigestLayout | algo/sha256.h:227-234 | The digest is the eight words one after the other, high byte first |
| Sha256.PaddedShort | algo/sha256.h:219-224 | With at most 55 bytes left the padding fits one block |
| Sha256.PaddedLong | algo/sha256.h:215-218 | With more it takes two |
| Sha256.Hash256OneByOne.GetHashBytes | algo/sha256.h:227-235 | Writes as much of the digest as fits |
| Sha256.Hash256WholeMessage | algo/sha256.h:291-299 | The one-piece overload computes SHA-256 |
| Sha256.Hash256Buffered | algo/sha256.h:301-320 | So does the buffered one, for every buffer size |
| Md5Block.TableOne | algo/MD5.cxx:146-162 | The word indices and rotations listed in round one are those of the formulas of RFC 1321, section 3.4, and its constants are entries 1 to 16 of the table that the uniform steps use |
| Md5Block.TableTwo | algo/MD5.cxx:164-180 | The word indices and rotations listed in round two are those of the formulas of RFC 1321, section 3.4, and its constants are entries 17 to 32 of the table that the uniform steps use |
| Md5Block.TableThree | algo/MD5.cxx:182-198 | The word indices and rotations listed in round three are those of the formulas of RFC 1321, section 3.4, and its constants are entries 33 to 48 of the table that the uniform steps use |
| Md5Block.TableFour | algo/MD5.cxx:200-216 | The word indices and rotations listed in round four are those of the formulas of RFC 1321, section 3.4, and its constants are entries 49 to 64 of the table that the uniform steps use |
| Md5Block.Transform | algo/MD5.cxx:142-226 | The unrolled rounds with rotating roles of a, b, c, d compute the 64 uniform steps |
| Md5Block.Decode | algo/MD5.cxx:229-235 | Little-endian words |
| WordBits.FChooses | algo/MD5.cxx:247-249 | F chooses by its first argument |
| WordBits.GChooses | algo/MD5.cxx:251-253 | G chooses by its third argument |
| WordBits.ParityLaw | algo/MD5.cxx:255-257 | H is the parity of the three bits |
| WordBits.LastLaw | algo/MD5.cxx:259-261 | I is the difference of the first two where the third has a one, and the opposite of the second elsewhere |
| WordBits.RotateLeftIsRight | algo/MD5.cxx:264-266 | A rotation to the left by n is one to the right by 32 - n |
| Md5Shape.StepsAreOneRecurrence | algo/MD5.cxx:146-216 | The four words are the last four values of one, which follows a recurrence |
| Md5Shape.WordsLayout | algo/MD5.cxx:229-235 | The words of a block hold its bytes low byte first |
| Md5Shape.CompressAdds | algo/MD5.cxx:142-224 | The steps start from the state and are added to it word by word |
| Md5Shape.PaddedLayout | algo/MD5.cxx:84-103 | Message, one bit, zeros and the length in bits modulo 2^64, in as few blocks as will do |
| Md5Shape.LittleEndianAt | algo/MD5.cxx:237-244 | The i-th byte of the length is its i-th digit to the base 256 |
| Md5Shape.DigestLayout | algo/MD5.cxx:103-103 | The digest is the four words one after the other, low byte first |
| Md5.MD5.Encode | algo/MD5.cxx:237-244 | Little-endian bytes |
| Md5.WordRoundTrip | algo/MD5.cxx:229-244 | Encoding and decoding are inverse |
| Md5.CountAdds | algo/MD5.cxx:53-56 | The two-word addition with its carry test adds eight times the length modulo 2^64 |
| Md5.MD5.AddCount | algo/MD5.cxx:51-56 | The count always is eight times the bytes absorbed modulo 2^64, and gives the position in the block |
| Md5.StopsInTimeIff | algo/MD5.cxx:65-67 | The 32-bit guard of the block loop stops at the end of the input iff the last whole block ends below 2^32 - 64; always for inputs shorter than that |
| Md5.MD5.TakeBlocks | algo/MD5.cxx:61-67 | Fills the buffer and compresses every whole block |
| Md5.MD5.Update | algo/MD5.cxx:49-75 | Any split of a message into updates leads to the same state |
| Md5.MD5.Finalize | algo/MD5.cxx:84-111 | The digest is that of the message padded as in sections 3.1 and 3.2; a second call changes nothing |
| Md5.HashString | algo/MD5.cxx:41-45 | The digest of a string, truncated to its length modulo 2^32 |
| PoolGeometry.AlignRoundsUpIff | lib/rapidjson/rapidjson.h:275-277 | Rounding up to eight works iff the size is at most 2^64 - 8 |
| PoolGeometry.RoomTestWrongIff | lib/rapidjson/allocators.h:193-194 | The 64-bit test for room accepts a block that does not fit iff the size exceeds 2^64 - 8 or the sum with what is in use reaches 2^64 |
| PoolGeometry.MisfitBreaks | lib/rapidjson/allocators.h:189-201 | A block handed out although a sum wrapped lies in no chunk |
| PoolGeometry.MisgrowthBreaks | lib/rapidjson/allocators.h:219-225 | and so does one grown in place although a sum wrapped |
| PoolGeometry.PushKeeps | lib/rapidjson/allocators.h:250-262 | A new chunk keeps all live blocks inside one chunk and apart |
| PoolGeometry.BumpKeeps | lib/rapidjson/allocators.h:199-199 | So does a larger use of the head chunk |
| PoolGeometry.CarveKeeps | lib/rapidjson/allocators.h:189-201 | A carved block is new, inside the head chunk and apart from every live block |
| PoolGeometry.ExtendKeeps | lib/rapidjson/allocators.h:219-225 | Growing the last block in place keeps everything apart |
| PoolGeometry.ShrinkKeeps | lib/rapidjson/allocators.h:214-216 | Keeping a block for a smaller size does too |
| PoolGeometry.DropKeeps | lib/rapidjson/allocators.h:238-238 | and forgetting one |
| PoolGeometry.BehindHeadIsFree | lib/rapidjson/allocators.h:194-199 | Nothing live lies at or behind the used end of the head chunk |
| PoolGeometry.BlocksAligned | lib/rapidjson/allocators.h:198-198 | Every live block is a multiple of eight if the user buffer is |
| PoolAllocator.SizeWithinCapacity | lib/rapidjson/allocators.h:171-186 | Size never exceeds capacity |
| PoolAllocator.MemoryPool.constructor | lib/rapidjson/allocators.h:123-126 | An empty pool |
| PoolAllocator.MemoryPool.WithBuffer | lib/rapidjson/allocators.h:138-147 | The user buffer is the first chunk |
| PoolAllocator.MemoryPool.AddChunk | lib/rapidjson/allocators.h:250-262 | Pushes a chunk or fails without a change; the pool stays in order iff header plus capacity does not wrap |
| PoolAllocator.MemoryPool.Malloc | lib/rapidjson/allocators.h:189-201 | For every 64-bit size: fails iff the size is zero or a needed chunk is refused; the block lies behind what is in use of the head chunk if that has room, even if only just, and else starts a new chunk of the greater of usual capacity and size; a block handed out keeps the pool in order, and then is new and apart from all others, iff none of the sums wraps |
| PoolAllocator.MemoryPool.Realloc | lib/rapidjson/allocators.h:204-235 | For every 64-bit size: the pool stays in order iff no sum on the way taken wraps; a block that shrinks, or is the last one with room behind it, stays where it is; the old contents up to the smaller size and the bytes of every other live block are kept, in place or in a new block |
| PoolAllocator.MemoryPool.GrowInPlace | lib/rapidjson/allocators.h:219-225 | Grows the last block, and keeps the pool in order iff there is room without wrapping |
| PoolAllocator.MemoryPool.Move | lib/rapidjson/allocators.h:227-234 | The copying branch: failure leaves all as it was |
| PoolAllocator.CopyKeeps | lib/rapidjson/allocators.h:228-230 | The copy into the new block reproduces the old one and spares all others |
| PoolAllocator.MemoryPool.Clear | lib/rapidjson/allocators.h:158-166 | Frees every chunk but the user buffer, in list order; the user buffer is never freed and is left as the only, empty chunk |
| PoolAllocator.CapacityFits | lib/rapidjson/allocators.h:171-176 | The capacities of chunks that are apart add up to less than 2^64 |
| PoolAllocator.MemoryPool.Size | lib/rapidjson/allocators.h:181-186 | Sum of the sizes, at most the capacity, without wrapping |
| PoolAllocator.MemoryPool.Capacity | lib/rapidjson/allocators.h:171-176 | Sum of the capacities, without wrapping |
| FifoQueues.InOrder | fifo.cxx:78-332 | In every interleaving of unicast, multicast and receive steps, what a queue delivered followed by what it holds is what it accepted, in the order sent |
| FifoLetters.LettersDelivered | fifo.cxx:78-332 | In every run each message delivered gives its receiver the type and payload that a sender passed in, in the order of sending and none twice |
| FifoLetters.PostedIsCollected | fifo.cxx:119-119 | What is sent to an empty queue and taken from it comes out with its type and payload |
| FifoQueues.AcceptedInOrder | fifo.cxx:241-332 | The accepted messages are the sent ones at ascending positions |
| FifoQueues.LostIffBacklog | memadmin.cxx:391-392 | At any point of any run a message is lost iff what the queue held at first and has accepted since, less what it has delivered, exceeds 1,000,000 bytes together with the message |
| FifoQueues.NothingLost | memadmin.cxx:387-406 | Nothing is lost from a queue whose messages together stay within the limit |
| FifoQueues.NeverAboveLimit | memadmin.cxx:391-392 | No queue ever holds more than the limit |
| FifoQueues.Independent | fifo.cxx:241-332 | What a queue holds, delivers and refuses depends only on the steps that touch it |
| FifoQueues.Drain | memadmin.cxx:408-437 | Receiving delivers the held messages from the front |
| MemAdmin.FragFifo.constructor | memadmin.cxx:369-379 | Only the consumed dummy element |
| MemAdmin.FragFifo.PushBuf | memadmin.cxx:387-406 | List length is count + 1; appends iff the 32-bit sum is within the limit; the sum stays exact iff it does not wrap; the buffer last returned is kept |
| MemAdmin.FragFifo.GetLastBuf | memadmin.cxx:408-437 | Returns the oldest unread fragment, which then is the head of the list; an empty queue changes nothing |
| MemAdmin.BufHandler.AllocBuf | memadmin.cxx:170-192 | A zeroed buffer, or an error if there is one already |
| MemAdmin.BufHandler.GetBufFreeSize | memadmin.cxx:115-125 | Free bytes, with the repair of an overlong length |
| MemAdmin.BufHandler.AddToBuf | memadmin.cxx:147-161 | Appends iff there is room |
| MemAdmin.BufHandler.MoveToStart | memadmin.cxx:25-31 | The whole contents become current |
| FifoEngine.FifoEngine.constructor | fifo.cxx:18-54 | Missing queues are created empty, existing ones keep what they hold |
| FifoEngine.FifoEngine.Frame | fifo.cxx:249-262 | Header and copy of the message behind the message, which is kept |
| FifoEngine.FifoEngine.SendUcastFifoMessage | fifo.cxx:241-287 | One unicast step; true iff the buffer has room and the receiver exists, even when a full queue drops the message |
| FifoEngine.FifoEngine.SendMcastFifoMessage | fifo.cxx:290-332 | One multicast step to all but the sender; true iff there is anyone else |
| FifoEngine.FifoEngine.SendSharedFifoMessage | fifo.cxx:202-235 | Delivers the data to the destination or to all; works iff the data has at most 2^31 - 4 bytes and there is a receiver |
| FifoEngine.SizeWraps | fifo.cxx:207-212 | The 32-bit buffer size suffices for exactly those lengths |
| FifoEngine.FifoT.PushToOthers | fifo.cxx:317-326 | The multicast loop |
| FifoEngine.FifoEngine.GetUcastFifoMessage | fifo.cxx:78-131 | One receive step on an own queue; type and payload are what a receiver makes of the oldest message |
| Buffers.Buffer.Create | buffer.h:38-46 | A new zeroed buffer |
| Buffers.Buffer.P | buffer.h:90-97 | Writes all the data or nothing |
| BitStrings.BitCopy | lib/11p_bin.cxx:46-79 | Destination bits [d, d+n) become source bits [s, s+n), every other bit stays; returns the least number of bytes covering d + n bits |
| BitStrings.BitStored | lib/11p_bin.cxx:67-77 | Setting or clearing one masked bit changes that bit only |
| Buffers.Buffer.Pbit | buffer.h:48-88 | The running indices extract exactly what BitCopy puts into a zeroed buffer at offset 0 |
| PackData.DNKchain.CreateConvValue | periphery/abstraction_mc.cxx:73-140 | A value that suits its field stands at the start of the scratch buffer, whatever was there; one of the wrong kind leaves the buffer alone, with an error only for a number in an array field |
| PackData.DNKchain.CreatePackData | periphery/abstraction_mc.cxx:482-518 | With suiting values the packet is the one of the specification; in any case no bit outside the fields changes, and the result is the least byte count covering all fields |
| PackData.DNKchain.ParseConvValue | periphery/abstraction_mc.cxx:267-285 | Reads "u" fields by bytes or bits and "a1" fields bit by bit |
| PackData.DNKchain.ParsePackData | periphery/abstraction_mc.cxx:40-71 | Stores, for every field in order, the value its bits stand for |
| PackSpec.FieldKept | periphery/abstraction_mc.cxx:490-513 | For disjoint fields: each field holds its own bits although later fields were put in |
| PackSpec.PacketBit | periphery/abstraction_mc.cxx:490-513 | Bit i of a field is bit i of its number, lowest first, or the lowest bit of item i |
| PackSpec.OutsideKept | periphery/abstraction_mc.cxx:490-513 | No bit outside the fields is changed |
| PackSpec.ReadBackIff | periphery/abstraction_mc.cxx:130-139 | A field gives back a value iff it fits: below 2^size, or an array of exactly size zeros and ones |
| PackSpec.RoundTrip | periphery/abstraction_mc.cxx:40-71 | Parsing a created packet gives back a value iff it fits its field, for any layout of disjoint fields and any earlier contents |
| PackSpec.OrderIrrelevant | periphery/abstraction_mc.cxx:490-513 | The packet does not depend on the order of the fields |
| PackSpec.BitsOfNumber | periphery/abstraction_mc.cxx:130-139 | The little-endian bytes of a number hold its bits, lowest first |
| PackSpec.ValueOfBits | periphery/abstraction_mc.cxx:267-285 | and a variable filled with such bytes has that number as value |
| Base64.Alphabet | algo/base64.cxx:11-14 | The 64 characters are those of the list, in its order |
| Base64.SextetsAreTheGroup | algo/base64.cxx:31-34 | The masks and shifts cut the 24-bit group of RFC 4648, section 4, into four |
| Base64.OctetsUndo | algo/base64.cxx:77-79 | Each byte comes back from the sextets it is spread over, whatever the others are |
| Base64.WholeRoundTrip | algo/base64.cxx:28-41 | Whole groups come back |
| Base64.TailRoundTrip | algo/base64.cxx:43-59 | So do one or two last bytes, although the missing characters are looked up as zero bytes that are not in the alphabet |
| Base64.RoundTrip | algo/base64.cxx:21-102 | Decoding the encoding gives back every byte string |
| Base64.Encoded | algo/base64.cxx:21-62 | The encoding has length 4 * ceil(n / 3) |
| Base64.Encode | algo/base64.cxx:21-62 | The loop with its three-byte group computes the encoding |
| Base64.Decode | algo/base64.cxx:63-102 | The loop with its four-character group computes the decoding of the part before the first foreign character |
| DalFilename.NameLayout | logger/dnk_biphasic_offset.h:46-48 | Where the numbers, the delimiters and the eight small hexadecimal digits of a generated name stand |
| DalFilename.ParsesGenerated | logger/dnk_biphasic_offset.h:46-48 | The parser gives back start, stop, count, checksum and extension of every generated name with count below 2^31, with or without a directory ending in / |
| DalFilename.FieldScanned | logger/dnk_biphasic_offset.h:305-344 | One field: the delimiter is cut off and the text behind it is taken |
| DalFilename.StartScanned | logger/dnk_biphasic_offset.h:345-363 | The first number, up to the slash or the start of the name |
| DalFilename.ParseDalFilename | logger/dnk_biphasic_offset.h:295-370 | The backward loop over the buffer computes the scan, for every name |

## Left out

- Signed settings, account and licence data (`checkSignSetting`, `auth.cxx`, `skey*`): settings are unsigned here.
- JSON text, sockets, MQTT, Modbus, Redis, SQLite, SNMP, zlib, shell commands, GPIO: plain values and byte sequences stand for them.
- Threads, timers and delays: each section under a mutex is one step.
- Allocation failure, logging, and failures of `rename`, `remove` or `sync`.
- SettingsAdm.SettingsAdm.EqualFiles: for two absent files the code compares buffers that nothing was read into; the outcome is a parameter, and that the comparison may not end is not modelled.
- SettingsAdm.SettingsAdm.CopyFile: a copy that runs to its end is complete and both files can be opened; what is found in the target meanwhile is a parameter.
- SettingsDisk.ParsePrinted: checksum text with a sign or a 0x prefix is read as having no digits.
- SettingsCrash.SaveIsCrashSafe: a torn file whose checksum equals one shown by its checksum file is excluded by hypothesis, as no 32-bit checksum can tell it apart; so it is in the theorems about cuts of the repair.
- SettingsCutSafe.FactoryCutSafeIff: without a valid replica and without factory data there is nothing to restore, and nothing is claimed.
- Aes.AES.PaddingNulls: lengths above 2^32 - 16, for which the padded length wraps to zero and the copy overruns its buffer, are excluded.
- Aes.AES.EncryptECB: the same lengths are excluded, as they are in Aes.AES.EncryptCBC and Aes.AES.EncryptCFB.
- Aes.AES.DecryptECB: lengths that are no multiple of 16, for which the loop overruns input and output, are excluded, as they are in Aes.AES.DecryptCBC and Aes.AES.DecryptCFB.
- Aes.AES.XorBlocks: only the length 16, the one length it is called with.
- Md5.HashString: lengths for which the block loop does not stop in time are excluded (see StopsInTimeIff).
- Buffers.Buffer.P: offset plus length stays below 2^32; beyond, the bound test wraps and the copy overruns the buffer.
- FifoEngine.FifoEngine.SendMcastFifoMessage: the handler's pointer is at the start of its buffer, as in SendUcastFifoMessage.
- AES key objects, `printHexArray` and the example functions; block lengths other than 16, which the class never has.
- Md5Block.Transform: the 64 additive constants are those of the source; that they are the sines of RFC 1321 is not proved.
- Md5.MD5.Update: requires that `finalize` has not been called, since the code zeroes its context then, and that the block loop stops in time (see StopsInTimeIff); `hexdigest` is not modelled.
- Little-endian memory is taken for granted where the source copies integers byte by byte (abstraction_mc.cxx).
- PoolAllocator.MemoryPool.Malloc: the memory the base allocator returns is a parameter, aligned, inside the address space and apart from all chunks. Chunk headers are fields of objects and not bytes of the memory. Once a sum has wrapped the contract promises nothing but that the pool is out of order.
- PoolAllocator.MemoryPool.Realloc: the old size passed is the true one; a block that has moved stays on record at its old place, as the pool never reuses it.
- FifoEngine.FifoEngine.GetUcastFifoMessage: an engine's own names are in the table; the destructor that removes them, and two engines sharing a name of which one is destroyed, are not modelled. The list elements are values, so that the buffer returned last is the head element and not a pointer.
- MemAdmin.BufHandler.AddToBuf: the field `free_size` is not updated, as in the source; the other buffer operations are not used by the senders.
- FifoEngine.FifoEngine.SendUcastFifoMessage: the handler's pointer is at the start of its buffer, as after SafeMoveToStartPointerBuf; otherwise the copy could run past the buffer.
- PackData.DNKchain.CreateConvValue: only "u" and "a1" fields; signed, float, text and scaled fields and the user callbacks are left out. A value that does not suit its field leaves bits in the field that the contract of CreatePackData does not fix: old scratch bits, or the low bits of a number.
- PackData.DNKchain.ParsePackData: the values are returned with their paths in the order of storing; the JSON tree they go into is left out, as is the text form of keys and numbers.
- DalFilename.ParseDalFilename: numbers with a sign or leading blanks, and decimal values beyond 64 bits, are read as their plain digits modulo 2^32; the extension must fit its four-byte field.
- Directory scans and Redis entries of the logger, the SendReport and SendEvent builders, `minisw/`, and the update shell scripts.
