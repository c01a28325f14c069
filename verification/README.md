# A verified model of the linker, downloader and boot path of an ESP32-P4 Linux board

The repository boots Linux on a small RISC-V board. This project models the parts of it
where a silent mistake would be expensive, and proves what those parts are for.

* **The on-board linker** (`board/mkflt.lua`) turns one relocatable object into a flat
  binary with no load-time fixups. `Words`, `Rv32`, `Encoders`, `Relocate`, `Sites`,
  `LabelArithmetic`, `LinkCorrect`, `Acceptance`, `WidthAgreement`, `Layout` and
  `FlatFile` model it from the section table to the bytes of the file; `WholeObject`
  puts the parts together, `EntryMeaning` says what it means for the object's own
  relocation entries and symbols, and `LinkExamples` follows small programs through them. `Rv32` is an independent
  specification of the instructions that carry addresses; the main theorems evaluate the
  patched instructions with it at an arbitrary load address.
* **The downloader** (`board/hget/hget.c`): `Stream` puts an adversary at both ends of a
  transfer, who cuts reads and writes as they please; `CText`, `Headers`, `Chunked`,
  `ChunkedCodec`, `PlainBody` and `Transfer` show what becomes of the bytes of a response and
  that the cuts do not matter, or exactly when they do. `Numerals`, `HeaderMeaning` and
  `Responses` say it of the lines, numbers and chunks a server writes. `Candidates` and `Race` model
  address selection and the connection race, with the kernel as the adversary.
* **The boot path** (`bootloader/`): `Crc32`, `Flash`, `PartTable` and `FlashMap` join
  the host's flash layout tool to the board's reader; `CachedMemory`, `VerifiedCopy` and
  `Boot` follow a payload through a write-back cache to the jump. `PsramTest` and `Uart`
  are the memory test and the baud-rate divisor.
* **The initramfs writer** (`tools/tar2cpio.py`): `Cpio` is the newc format both ways,
  `Initramfs` the conversion of a tar, `Unpacking` what the archive unpacks to.

Numbers are unbounded integers; where the original wraps, truncates or shifts
logically, the model says so (`Encoders.Norm`, `Rv32.Wrap`, `Uart.Trunc`). Code that
works in place is a class or an array method, proved against a function of the old
state; the laws are then lemmas about that function.

## What the proofs found

* A `BRANCH` or `JAL` is linked to the right place exactly when its distance is even;
  an odd one is accepted and loses its low bit (`LinkCorrect.DirectReaches`,
  `LinkExamples.OddBranchMisses`).
* `HI20` with `LO12` is accepted against symbols of the image and is then right only for
  an image loaded at address 0 (`LinkCorrect.AbsolutePairIgnoresLoad`,
  `LinkExamples.AbsoluteMisses`).
* What the script links under 32-bit integers, it links to the same file under 64-bit
  ones exactly when every branch and jal is truly in range: a distance of nearly 2^32
  wraps back into range on the board (`WholeObject.LinkAgrees`,
  `WidthAgreement.WrappedBranchDisagrees`).
* The client looks for the status code in the whole buffer, not in the header text, so a
  header block without a settled status gives an answer that depends on how the stream
  was cut (`Transfer.StatusCutFreeIff`, `StatusDependsOnCut`). For every stream,
  `Transfer.TransferCutFreeIff` says exactly when the cuts can show.
* The client keeps 63 bytes of a chunk-size line. A size with more digits, leading zeros
  included, is read as a smaller one: "000...05" with 63 zeros ends the transfer, which
  counts as complete with nothing written (`ChunkedCodec.PaddedSizeLost`). Decoding
  inverts encoding, and truncation is seen, exactly when no chunk has such a size
  (`DecodeInvertsEncodeIff`, `TruncationSeenIff`).
* A size line that is no number at all ends a chunked body as a success
  (`Chunked.CompleteIff`, `CorruptSizeEnds`).
* A plain body longer than announced is written beyond its length when the surplus came
  with the headers (`PlainBody.PlainCutFreeIff`); a shorter one counts as success
  whenever the connection ends without an error (`Transfer.ShortTransferPassesIff`).
* The host's table writer does not count rows. From 128 on its table runs past its
  sector, into a partition that begins there (`FlashMap.TableClearIff`,
  `LongTableOverlaps`); from 129 on the board no longer sees them all
  (`PartTable.TableReadsBack` is an equivalence).
* The host's overlap check depends on the order of rows when one of them is empty
  (`FlashMap.EmptyRowOrder`); `FlashMap.CheckIsExact` says what it decides for any list.
* `cmd_crc` prints no number for an empty partition: it divides by the size first.
* In the divisor code no division is ever by zero and the last rejection is never
  taken, for any input. The programmed rate is right exactly when a 32-bit product does
  not wrap and sixteen clocks reach it (`Uart.RateIffProductFits`); otherwise the code
  programs a wrong rate (`WrappedRate`) or a divider of zero (`ZeroDivider`) and still
  returns true.
* The initramfs writer checks neither numbers nor names: its archive reads back exactly
  when every number fits 32 bits, no name has a NUL in it and no file is called
  TRAILER!!! (`Initramfs.InitramfsReadsBack`, `LateFile`, `NulNamedFile`); a file called
  so cuts the archive there (`Cpio.TrailerNameCuts`, `Initramfs.TrailerNamedFile`).
* The memory test passes exactly when no two words share a cell (`PsramTest.Ram.Test`).

## Model

| member | source | states |
|---|---|---|
| `EntryMeaning.OnePerEntry` | board/mkflt.lua:429-444 | the relocations applied are exactly one for each entry of every RELA or REL section whose target is placed, in table order: site base + first word, type and symbol from the second, addend the signed third word or 0 |
| `EntryMeaning.PairLands` | board/mkflt.lua:58-98 | from an object's own entries of types 23 and 24 or 25 and its file in memory: auipc and the instruction with its low half reach load + the section base of the symbol + its value + the entry's signed addend |
| `EntryMeaning.CallLands` | board/mkflt.lua:516-520 | from an entry of type 18 or 19: two steps from the auipc the processor is at the symbol plus the entry's signed addend |
| `EntryMeaning.DirectLands` | board/mkflt.lua:506-514 | from an entry of type 16 or 17: the branch or jal goes to the symbol plus the entry's signed addend exactly when the distance is even, and to the byte before otherwise |
| `EntryMeaning.TypesByNumber` | board/mkflt.lua:446-548 | what each type number is taken for, and that every other number is refused |
| `EntryMeaning.SymbolMeans` | board/mkflt.lua:355-381 | a symbol has no address exactly when its section index is 0 or it does not exist; otherwise its value, on top of its section's base when that is placed and it is not absolute |
| `EntryMeaning.UndefinedRefuses` | board/mkflt.lua:372-381 | an entry, not NONE or RELAX, that names an undefined symbol or has an unsupported type: no file |
| `EntryMeaning.HeaderEntry` | board/mkflt.lua:561-589 | the header's entry is 64 without a defined `_start`, and 64 past the last one's address otherwise |
| `LinkCorrect.StoredAddress` | board/mkflt.lua:522-533 | a lone SET32 stores S + A |
| `WholeObject.LinksExactly` | board/mkflt.lua:206-552 | with relocations inside their sections the script stops exactly for objects with too small a stack, nothing stored, wrong section bytes, no symbol table, or a relocation it cannot apply |
| `WholeObject.LinkAgrees` | board/mkflt.lua:154-174 | an object the host links gives the same file on the board; one the board links does on the host if and only if every branch and jal is truly in range, absolute symbols of 2^31 and more included |
| `WholeObject.FileField` | board/mkflt.lua:388-414 | where a relocation is alone the file differs from the section's bytes only in the bits of the immediate, which stands for the relocation's value |
| `LinkCorrect.PairReaches` | board/mkflt.lua:466-494 | auipc and a later addi, jalr, load or store whose low half names its label, executed anywhere, reach load + S + A modulo 2^32, at every load address, for either integer width |
| `LinkCorrect.CallReaches` | board/mkflt.lua:516-520 | the patched auipc and jalr, run back to back, jump to load + S + A with the low bit cleared, linking the right register |
| `LinkCorrect.DirectReaches` | board/mkflt.lua:506-514 | an accepted branch or jal goes to load + S + A less the distance's low bit: right if and only if the distance is even |
| `LinkCorrect.StoredOffsetReaches` | board/mkflt.lua:463-464 | a stored PC-relative word plus its own address is load + S + A |
| `LinkCorrect.AbsolutePairIgnoresLoad` | board/mkflt.lua:496-504 | lui with an absolute low half reaches S + A whatever the load address; that is load + S + A only for an image loaded at 0 |
| `LinkExamples.LlaRuns` | board/mkflt.lua:466-494 | the two-instruction `lla` an assembler emits, linked for any target: at every load address a0 ends as load + target |
| `LinkExamples.OddBranchMisses` | board/mkflt.lua:506-509 | a concrete branch to an odd address is accepted and goes to the byte before |
| `LinkExamples.AbsoluteMisses` | board/mkflt.lua:496-501 | a concrete lui and addi against a symbol of the image leave its offset in a0: its address only at load address 0 |
| `LinkExamples.DifferenceWord` | board/mkflt.lua:526-532 | a concrete `.word a - b` is linked to the difference |
| `LinkExamples.ProgramLinks` | board/mkflt.lua:206-608 | a whole object with a null section, code and relocations is one a file comes out for |
| `LinkExamples.ProgramRuns` | board/mkflt.lua:58-98 | its file in memory at any address: `lla` leaves load + 16 in a0 and `call` goes there |
| `Acceptance.AcceptedExactly` | board/mkflt.lua:446-548 | a list whose sites lie in the image is accepted if and only if every relocation is NONE or RELAX, or has a supported type, a defined symbol, a distance in range and, for a low half, an earlier auipc relocation at the offset it names |
| `Sites.UnownedBytes` | board/mkflt.lua:429-552 | a byte that no relocation owns leaves the pass as it entered it |
| `Sites.AloneWord` | board/mkflt.lua:429-552 | a word owned by one relocation ends as that relocation alone makes it from the original word, whatever else is in the list |
| `LinkCorrect.LoneRelocation` | board/mkflt.lua:388-520 | a relocation that is alone changes, of each word it patches, only the bits of the immediate, and the immediate then decodes to its value (less the low bit for a branch or jal) |
| `LabelArithmetic.SharedWord` | board/mkflt.lua:522-533 | a word that any number of ADD32 and SUB32 share ends as the original plus all added minus all subtracted addresses, modulo 2^32 |
| `LabelArithmetic.SharedWordOrderFree` | board/mkflt.lua:522-533 | any reordering of the whole relocation list leaves such a word the same |
| `LabelArithmetic.LabelDifference` | board/mkflt.lua:526-532 | one ADD32 and one SUB32 on a word leave word + A - B there |
| `Relocate.Linker.RelocateAll` | board/mkflt.lua:429-552 | the in-place loop finishes exactly when planning and executing the edits does, and then holds that image |
| `Relocate.Linker.Apply` | board/mkflt.lua:446-548 | one relocation changes the image and the table of auipc sites as the specification says, or stops where it says |
| `Relocate.Linker.HighHalf` | board/mkflt.lua:466-475 | the auipc branch: remembers S + A - at for its site and patches the upper immediate |
| `Relocate.Linker.LowHalf` | board/mkflt.lua:477-494 | the low-half branch: stops unless its symbol's address is a remembered site |
| `Relocate.Linker.Direct` | board/mkflt.lua:506-514 | the branch and jal branch, with its range test |
| `Relocate.Linker.Pair` | board/mkflt.lua:516-520 | the call branch: two words from one value |
| `Relocate.Linker.DataWord` | board/mkflt.lua:522-537 | the 32-bit data relocations |
| `Encoders.HiLoSplit` | board/mkflt.lua:416-418 | at either width the low part fits a signed 12-bit immediate and the 20-bit field is the rounded high part, although the shift is logical |
| `Encoders.ShiftThenMask` | board/mkflt.lua:386-414 | shifting logically at 32 or 64 bits and masking gives the same field as floor division |
| `Encoders.FieldsU` | board/mkflt.lua:390-392 | decoding the U immediate gives the value back; the other bits stay |
| `Encoders.FieldsI` | board/mkflt.lua:393-395 | decoding the I immediate gives the value back; the other bits stay |
| `Encoders.FieldsS` | board/mkflt.lua:396-400 | decoding the split S immediate gives the value back; the other bits stay |
| `Encoders.FieldsB` | board/mkflt.lua:401-407 | decoding the B immediate gives the value less its low bit; the other bits stay |
| `Encoders.FieldsJ` | board/mkflt.lua:408-414 | decoding the J immediate gives the value less its low bit; the other bits stay |
| `WidthAgreement.HostImageIsBoardImage` | board/mkflt.lua:154-174 | whatever the 64-bit host accepts, the 32-bit board accepts with its own, wrapped, symbol addresses, and with the same image |
| `WidthAgreement.BoardImageIsHostImageIffInRange` | board/mkflt.lua:420-427 | what the board accepts the host answers alike if and only if every branch and jal is in range in unbounded arithmetic |
| `WidthAgreement.WrappedBranchDisagrees` | board/mkflt.lua:420-427 | a concrete object on which the two disagree |
| `WidthAgreement.S32IsSigned` | board/mkflt.lua:166-174 | sign extension gives the signed value at either width, although its literals wrap on the board |
| `Layout.LayoutSound` | board/mkflt.lua:255-285 | for every section table exactly the non-empty allocatable sections are placed, in the image, aligned, disjoint, each kind in table order, all stored ones before all NOBITS ones |
| `Layout.LayoutByNumber` | board/mkflt.lua:255-285 | placed are exactly the sections with flag bit 1 and a size, types other than 8 first, with no more space between than alignment asks for |
| `Layout.Placer.Place` | board/mkflt.lua:265-279 | the in-place pass computes the layout the lemma is about |
| `FlatFile.Builder.Build` | board/mkflt.lua:300-323 | the image is the section bytes at their bases and zero everywhere else |
| `FlatFile.Builder.Blit` | board/mkflt.lua:303-305 | a blit changes exactly its range |
| `FlatFile.Emit` | board/mkflt.lua:577-583 | the 200-byte pieces concatenate to the image |
| `FlatFile.HeaderReadsBack` | board/mkflt.lua:585-602 | a big-endian reader of the 64-byte header finds the magic, the version, the entry, the stack, every end field equal to the file's length, and zeros behind |
| `FlatFile.Link` | board/mkflt.lua:206-608 | a file comes out if and only if the script has no reason to stop, and it is the header followed by exactly the relocated initial image |
| `FlatFile.FileRuns` | board/mkflt.lua:58-98 | the file's bytes in memory at any load address meet the hypotheses of the LinkCorrect theorems, with no fixups |
| `FlatFile.FileBytes` | board/mkflt.lua:300-335 | every byte of the file no relocation owns is its section's byte, or zero where there is none |
| `FlatFile.SymbolLands` | board/mkflt.lua:355-370 | a symbol of a placed section has the address where its bytes are |
| `FlatFile.EntryInside` | board/mkflt.lua:561-591 | with `_start` in a placed section the header's entry lies inside the file, at that symbol |
| `Stream.Conn.Read` | board/hget/hget.c:518-545 | reads deliver the stream in order, in pieces an adversary chooses, then end or fail |
| `Stream.Sink.WriteAll` | board/hget/hget.c:770-785 | under short and interrupted writes everything is written in order, or as much as there was room for, and the result says which |
| `Headers.Fill` | board/hget/hget.c:698-718 | where the blank line is, or which error there is, depends only on the stream |
| `Headers.ParseFields` | board/hget/hget.c:735-766 | the walk that patches NULs into the buffer restores every byte and computes the fields of the header text |
| `Headers.ReadHeaders` | board/hget/hget.c:689-768 | fields from the header text alone, status from the whole buffer, leftover and connection together the rest of the stream |
| `Transfer.StatusCutFreeIff` | board/hget/hget.c:728-733 | the status is independent of the cuts if and only if the header text settles it or leaves no room for body bytes |
| `Transfer.StatusDependsOnCut` | board/hget/hget.c:728-733 | a concrete response that is malformed or a success depending on where a read ended |
| `Transfer.TransferCutFreeIff` | board/hget/hget.c:689-886 | for every stream with a blank line, outcome and every byte written are the same for all shares that may have come with the headers if and only if neither the headers nor the full buffer give a status, or the headers' own status leads to an early outcome, or both give one, the full buffer's leads to none, and the body is chunked or unannounced, no surplus can get into the header buffer, or the output is too small for the announced length |
| `Transfer.ShortTransferPassesIff` | board/hget/hget.c:872-885 | a plain transfer succeeds with fewer bytes written than announced if and only if fewer were sent, reading did not fail and the output took them |
| `Transfer.OutcomesExactly` | board/hget/hget.c:936-985 | for every stream: redirected to the location exactly for a status from 300 to 399 with redirects followed and an http:// or https:// location, EX_REDIRECT exactly for any other location there, EX_HTTP exactly from 400 on, nothing written in these, and otherwise the body decides |
| `HeaderMeaning.HeadMeans` | board/hget/hget.c:735-766 | for any header lines, names in any letter case and any blanks behind the colon: chunked exactly when some Transfer-Encoding value contains "chunked"; the length is the number on the last Content-Length line, -1 without one; the location is the last Location value shorter than 2048 |
| `HeaderMeaning.StatusMeans` | board/hget/hget.c:724-733 | a status line with something but white space behind its first space has the decimal number there as its status, whatever follows the line |
| `Numerals.ShowsIff` | board/hget/hget.c:733-748 | atoi and atoll read exactly the number shown: white space, a sign, decimal digits in positional value, held in the type's range |
| `Responses.OutcomesSent` | board/hget/hget.c:936-961 | the outcomes said of the status line, the Location lines and the follow option of a response, for every share of it that came with the headers |
| `Responses.ChunkedSent` | board/hget/hget.c:932-988 | a response in whole chunks, neither a redirect nor an error: exactly the payload is written, as far as there is room, and EX_OK or EX_IO says which |
| `Responses.HelloArrives` | board/hget/hget.c:932-988 | a concrete chunked response with the chunk "hello": the output is "hello" and the outcome success, for every share that came with the headers |
| `Responses.PlainSent` | board/hget/hget.c:932-988 | a plain response of any announced length and any body: what is written and how it ends |
| `Transfer.Run` | board/hget/hget.c:932-979 | every run ends in the result computed for some split of the stream, error cases included |
| `Chunked.ReadLine` | board/hget/hget.c:801-823 | a size line byte by byte, across the boundary between buffer and connection |
| `Chunked.CopyChunk` | board/hget/hget.c:829-850 | a chunk's payload in arbitrary pieces; exact success condition and exact output when it fails |
| `Chunked.BodyChunked` | board/hget/hget.c:790-853 | for all cuts the output is the decoded body as far as there is room, success exactly for a body that is complete and fits, and then the count is its length |
| `Chunked.CompleteIff` | board/hget/hget.c:824-827 | a body is complete if and only if whole chunks are followed by a non-empty line of which strtol makes no positive number |
| `Chunked.CorruptSizeEnds` | board/hget/hget.c:824-827 | "zz" or "-1" in place of a size ends the body as complete |
| `ChunkedCodec.SizeMeans` | board/hget/hget.c:824 | the size taken from a line is the hexadecimal number it shows, behind white space, a sign and 0x |
| `ChunkedCodec.SizeReadIff` | board/hget/hget.c:818-824 | of a size line with any number of hex digits and an extension the client reads the size that was sent if and only if there are at most 63 digits or it is zero, and never a larger one |
| `ChunkedCodec.DecodeInvertsEncodeIff` | board/hget/hget.c:790-853 | for chunks below 2^31 bytes, any hex spelling of sizes, extensions and trailers: decoding gives the concatenation, whatever the data and whatever follows, if and only if no chunk's size has more than 63 digits |
| `ChunkedCodec.TruncationSeenIff` | board/hget/hget.c:804-850 | every proper prefix of an encoding, whatever the data, decodes to a prefix of the payload and is never complete, if and only if no chunk's size has more than 63 digits |
| `ChunkedCodec.PaddedSizeLost` | board/hget/hget.c:818-826 | a concrete chunk of five bytes, its size written with 63 zeros in front, is taken for the last one |
| `PlainBody.BodyPlain` | board/hget/hget.c:855-886 | for all cuts of the connection: exact output, code and count |
| `PlainBody.PlainCutFreeIff` | board/hget/hget.c:858-884 | independence of the share that came with the headers, if and only if no surplus over Content-Length can get into the buffer |
| `PlainBody.SurplusDependsOnCut` | board/hget/hget.c:860-866 | a concrete body whose surplus byte is written or not depending on where a read ended |
| `PlainBody.ShortBodyPasses` | board/hget/hget.c:878-879 | one byte of two announced counts as complete, whether or not it came with the headers |
| `Candidates.Select` | board/hget/hget.c:250-265 | the two loops compute the alternating selection |
| `Candidates.SelectionIsFair` | board/hget/hget.c:230-265 | min(8, n0 + n1) candidates, each family in its order from its first, at least min(4, k) of a family of k |
| `Candidates.FamiliesTakeTurns` | board/hget/hget.c:250-265 | IPv6 and IPv4 answers alternate, IPv6 first, until one family runs out |
| `Race.Racer.Open` | board/hget/hget.c:271-275 | a new descriptor is nonblocking before it is connected, its other flags kept |
| `Race.TcpConnect` | board/hget/hget.c:267-349 | on every run what is open afterwards is what was open before and the winner, each descriptor opened is closed once except the winner, which was reported as connected and has its own flags back; the time limit holds and no poll left out an attempt of this race; without a winner all candidates were asked, every socket opened was tried, no attempt was reported as connected, and unless time was up or poll failed every attempt has failed |
| `Race.Wait` | board/hget/hget.c:294-328 | the poll loop ends within the limit with a connected winner, or with no attempt reported as connected and, unless time was up or poll failed, no slot left |
| `Race.Racer.Sweep` | board/hget/hget.c:306-327 | despite the swap-removals no slot is passed over: without a winner none had connected and exactly the quiet slots remain |
| `Race.Racer.Judge` | board/hget/hget.c:313-326 | a slot wins exactly when it is writable without error; a loser is closed, both arrays lose the same index, and the books of the race still balance |
| `Race.SwapRemoves` | board/hget/hget.c:322-326 | moving the last slot into a vacated one keeps exactly the other descriptors |
| `Race.Racer.CloseRest` | board/hget/hget.c:330-332 | the last loop closes everything left and never the winner |
| `Crc32.Chain` | bootloader/p4/p4_flash.c:42-52 | continuing from a finished CRC is the CRC of the concatenation |
| `Crc32.CheckValue` | bootloader/p4/p4_flash.c:42-50 | the CRC of "123456789" is 0xCBF43926 |
| `Crc32.OneByteChangeDetected` | bootloader/p4/p4_flash.c:42-52 | two payloads that differ in exactly one byte never share a CRC |
| `Flash.Chip.Read` | bootloader/p4/p4_flash.c:147-165 | succeeds exactly for aligned reads inside the chip |
| `Flash.FlashCrc32` | bootloader/p4/p4_flash.c:274-318 | the 4 KB pieces with a rounded-up last read folded short give the CRC of the region; exact failure condition |
| `Flash.CmdCrc` | bootloader/flashmap.py:121-151 | in 64 KB pieces the CRC of any bytes of the partition's length that begin with the payload and are 0xFF behind it; exact failure condition |
| `Flash.CompareCrc` | bootloader/flashmap.py:121-151 | for every payload and length, when flash holds the payload and 0xFF behind it, host and board print the same number |
| `PartTable.PartWalk` | bootloader/p4/p4_flash.c:173-203 | a visitor sees exactly the real entries up to the terminator, checksum entries skipped, until it has what it wants |
| `PartTable.PartFind` | bootloader/p4/p4_flash.c:214-238 | the first entry of the type and subtype, or none |
| `PartTable.TableReadsBack` | bootloader/flashmap.py:100-114 | whatever else is on flash, from the table's sector the board visits exactly the entries the host wrote, in order, if and only if there are at most 128 |
| `PartTable.OneRowTooMany` | bootloader/flashmap.py:100-114 | of a table of 129 rows the board loses the last |
| `FlashMap.TableBytes` | bootloader/flashmap.py:100-114 | the table byte for byte: magic, type, subtype, little-endian offset and size, label and zeros for each row, then the checksum entry |
| `FlashMap.FindReadsTable` | bootloader/p4/p4_flash.c:205-238 | after a host write, a lookup gives the first matching row with offset, size and whole label, 16-byte labels included |
| `FlashMap.Check` | bootloader/flashmap.py:81-97 | accepts exactly lists that are in place and apart between neighbours in offset order |
| `FlashMap.CheckIsExact` | bootloader/flashmap.py:81-97 | for every list, of whatever sizes: comparing neighbours in offset order accepts if and only if all rows are in place and any two are apart in the order listed |
| `FlashMap.AcceptedIsClear` | bootloader/flashmap.py:93-97 | the partitions of an accepted list are disjoint, sector-aligned and from 0x9000 on, for any sizes |
| `FlashMap.CheckWithoutEmpty` | bootloader/flashmap.py:81-97 | for non-empty partitions the check accepts if and only if all pairs are disjoint and all in place |
| `FlashMap.EmptyRowOrder` | bootloader/flashmap.py:93-97 | an empty row is accepted before and refused behind a partition at its offset |
| `FlashMap.TableClearIff` | bootloader/flashmap.py:100-114 | a table is clear of every partition if and only if each begins behind its last entry; 127 rows are few enough, and more leave the sector |
| `FlashMap.LongTableOverlaps` | bootloader/flashmap.py:100-114 | 128 accepted rows whose table ends 32 bytes into the first partition |
| `FlashMap.TableSurvives` | bootloader/flashmap.py:81-114 | writing the partitions of an accepted list, in any way, leaves the table's sector as it was |
| `FlashMap.CmdBinary` | bootloader/flashmap.py:100-114 | a table comes out exactly for checked, encodable rows, and it is their encoding and the checksum entry |
| `CachedMemory.Psram.Store` | bootloader/p4/p4_flash.c:367-376 | a cached store changes what the processor sees at one address and the chip nowhere |
| `CachedMemory.Psram.Writeback` | bootloader/p4/p4_flash.c:374 | no dirty line overlaps the range afterwards, nothing visible changes |
| `CachedMemory.Psram.Invalidate` | bootloader/p4/p4_flash.c:375 | exactly the overlapping lines are forgotten; harmless if none was dirty |
| `VerifiedCopy.CopyLoop` | bootloader/p4/p4_flash.c:327-362 | the loop under arbitrary evictions and fetches: exact success condition, destination as read, nothing else touched |
| `VerifiedCopy.Flush` | bootloader/p4/p4_flash.c:367-376 | write back, then invalidate, with the cache still at work between: nothing visible changes and no line covers the range |
| `VerifiedCopy.FlashCopy` | bootloader/p4/p4_flash.c:327-378 | for every eviction pattern, true means the chip itself holds the flash bytes at the destination, no line covers it, and bytes sharing its edge lines survive |
| `VerifiedCopy.MemCrc32` | bootloader/p4/p4_flash.c:322-325 | the CRC of what memory holds, fetching as it goes |
| `Boot.Locate` | bootloader/main.c:180-215 | a payload found has the CRC that a pass over its region has just taken, of what was read then even if flash cannot be trusted; with reliable flash that is the region's CRC, and its size fits the chip |
| `Boot.Load` | bootloader/main.c:332-346 | true means a pass has copied the partition, memory holds what that pass read, and its CRC is the given one; with reliable flash every copyable partition gets there |
| `Boot.LoadBoth` | bootloader/main.c:332-426 | the later copy does not disturb the verified kernel, and the final write-back puts both in the chip |
| `Boot.Start` | bootloader/main.c:161-426 | every run that reaches the jump made six passes over flash in order: two equal self-test CRCs, a CRC of each payload, then a copy of each with the same CRC, which the chip still holds; so with or without reliable flash; with it, the jump is reached if and only if the memory came up and passed and both partitions are there and copyable |
| `PsramTest.Ram.Test` | bootloader/p4/p4_psram.c:99-154 | true if and only if the address decoding is injective; otherwise the lowest overwritten word's address and the number of all of them |
| `PsramTest.Ram.WriteAll` | bootloader/p4/p4_psram.c:118-120 | each cell ends with the last address that reaches it, or-ed exclusively with 0xA5A5A5A5 |
| `PsramTest.XorBits` | bootloader/p4/p4_psram.c:115-119 | each bit of the pattern is that of the address or its opposite, as the mask has it |
| `PsramTest.XorUndone` | bootloader/p4/p4_psram.c:115-119 | the pattern determines the address |
| `Uart.Registers.SetBaud` | bootloader/p4/p4_uart.c:61-121 | false exactly when no pre-divider is found, with all registers untouched; otherwise the UART's own divider and pre-divider are the computed ones and the other clock bits are kept |
| `Uart.WrappedArithmetic` | bootloader/p4/p4_uart.c:71-83 | the pre-divider and the divider in one modulus: the rounded-up quotient by the wrapped cap, refused outside 1 to 256, and the quotient by the wrapped product |
| `Uart.CapNotZero` | bootloader/p4/p4_uart.c:71-73 | the truncated product of line 73 is never zero for a non-zero rate |
| `Uart.ProductNotZero` | bootloader/p4/p4_uart.c:81 | nor is the wrapping product line 81 divides by |
| `Uart.DivIsExact` | bootloader/p4/p4_uart.c:81-86 | the divider is the exact quotient by that product, and the rejection of line 84 is unreachable, for every input |
| `Uart.NarrowPre` | bootloader/p4/p4_uart.c:71-76 | without wrap-around the pre-divider is the least that brings the clock in reach, found exactly when one of at most 256 exists |
| `Uart.NarrowRate` | bootloader/p4/p4_uart.c:71-86 | without wrap-around rate * d * D <= 16 * clock < rate * d * (D + 1), and D is at least 1 exactly when rate * d <= 16 * clock |
| `Uart.RateIffProductFits` | bootloader/p4/p4_uart.c:81-86 | for every programmed setting: when the divider is at least 1, when that bound holds, and that both do if and only if rate * d fits 32 bits and is at most 16 * clock |
| `Uart.ZeroDivider` | bootloader/p4/p4_uart.c:81-86 | an accepted setting, nothing wrapping, that programs a divider of zero |
| `Uart.ConsoleSetting` | bootloader/p4/p4_uart.c:78-80 | 40 MHz and 4 Mbaud give 1 and 160, the right rate, although the sum wraps |
| `Uart.WrappedRate` | bootloader/p4/p4_uart.c:81 | an accepted setting whose rate is wrong |
| `Cpio.Writer.Entry` | tools/tar2cpio.py:53-69 | the five writes append exactly one encoded record |
| `Cpio.FieldRoundTrip` | tools/tar2cpio.py:57-64 | a 32-bit number is eight hex digits that read back |
| `Cpio.HeaderBytes` | tools/tar2cpio.py:53-66 | a header is 070701 and thirteen upper-case numbers at their places, four of them always zero |
| `Cpio.DecodeEncodeIff` | tools/tar2cpio.py:53-69 | a reader of the format, for which a name ends at its first NUL, gets the record back and leaves what follows, if and only if its numbers fit and its name has no NUL |
| `Cpio.ArchiveRoundTrip` | tools/tar2cpio.py:72-137 | reading an archive gives exactly its records, in order, whatever follows the trailer, if and only if the numbers of each fit, no name has a NUL and none is the trailer's |
| `Cpio.TrailerNameCuts` | tools/tar2cpio.py:135-136 | of an archive with a record whose name, up to its first NUL, is the trailer's exactly the records before it are read |
| `Cpio.HeadersAligned` | tools/tar2cpio.py:65-69 | every header starts at a multiple of four |
| `Unpacking.ArchiveUnpacks` | tools/tar2cpio.py:72-137 | the archive of members the format can carry reads back, whatever follows it, as one record with the member's own type, permissions, owner, time, link count, data and device numbers for the first of each stripped name, /init and the eight nodes unless named, and nothing else |
| `Unpacking.RecordUnpacks` | tools/tar2cpio.py:82-122 | the record of a member says what the member says: type nibble, permissions, owner, time, links, target or bytes, the devtmpfs line exactly for an etc/fstab without it, device numbers |
| `Unpacking.StripMeans` | tools/tar2cpio.py:78 | stripping takes exactly the dots and slashes at the front |
| `Initramfs.CopyMembers` | tools/tar2cpio.py:77-122 | the loop with its set of names seen emits the records of the specification |
| `Initramfs.CopyNodes` | tools/tar2cpio.py:130-134 | each device node not named by the tar is emitted |
| `Initramfs.Convert` | tools/tar2cpio.py:72-137 | the whole output is the records of the specification and the trailer |
| `Initramfs.FirstWins` | tools/tar2cpio.py:77-122 | a record is emitted exactly for the first member of each non-empty stripped name, when its kind is known |
| `Initramfs.RecordsDistinct` | tools/tar2cpio.py:73-132 | no name is emitted twice; /init and each node that the tar did not name are there |
| `Initramfs.InitramfsReadsBack` | tools/tar2cpio.py:72-137 | what a reader of the format unpacks is what was emitted, if and only if every number fits, no name has a NUL and none is the trailer's |
| `Initramfs.NulNamedFile` | tools/tar2cpio.py:56-67 | a file whose name is a, NUL, b unpacks as a |
| `Initramfs.TrailerNamedFile` | tools/tar2cpio.py:77-136 | a tar whose file is called TRAILER!!! unpacks as nothing |
| `Initramfs.LateFile` | tools/tar2cpio.py:82-105 | a file dated 2^32 seconds after the epoch makes an archive that does not read back |

## Left out

- The linker's ELF and argument parsing, objcopy, temporary files and messages: section headers, the bytes of each section, relocation entries and the symbol table are inputs; the entries of all relocation sections are gathered into one list before the loop.
- Lua's image table is a map from integers to bytes: a read of a missing byte stops the script and a write past the end extends it, as in the code; a site within four bytes of 2^31 on the board is not given its wrap-around.
- Layout arithmetic is exact: section sizes whose sum passes 2^31 would wrap on the board.
- Symbols in empty or non-allocatable sections keep their raw value, as in the code; nothing is claimed about where they point.
- SET6, SET8, ADD16 and the like: the script stops at them, and so does the model, without distinguishing its messages.
- TLS, name resolution, timeouts on sockets, the request that is sent and url_parse: a transfer starts with the response stream, and a redirect is an outcome, not a recursion.
- The output file is opened and closed by code that is not part of this model; write() of a non-empty buffer is taken to write something, fail or be interrupted.
- `Chunked.BodyChunked`: the count is stated on success only, because on failure it is used for a message.
- `HeaderMeaning.HeadMeans`: header lines with a carriage return or a NUL inside are not spelled out; for them the walk itself is the specification.
- `Unpacking.ArchiveUnpacks`: a member whose permission number does not fit twelve bits is or-ed with the type bits, and only `Initramfs.Convert` speaks of it.
- `Transfer.Run`: every run ends in the result of one share; that each share occurs in some run is not stated, because a read's contract says nothing about how much it returns.
- Chunks of 2^31 bytes or more, whose sizes strtol saturates.
- tcp_connect's two arrays are sequences of the occupied slots; the event bits are reduced to none, writable, and writable with an error or hang-up; a failing fcntl is not modelled. A failure is counted when getsockopt collects it.
- The ROM's flash read is an assumption: range-checked against 16 MB, and either reliable or arbitrary in content; the CRC table is replaced by the bitwise definition.
- `Boot.Start`: finding a payload and taking its CRC are one step for each payload, where the original finds both first; bringing up and testing PSRAM are two inputs, and the test and the alias probe are arbitrary writes before the copies.
- `Boot.Locate`: without reliable flash nothing is said about which partition is found, because its entry may have been misread.
- Bad bits in PSRAM are not modelled in `PsramTest`, only address decoding; the tested window is taken to fit 32 bits.
- Cache lines are 64 bytes and memory is a whole number of them; which lines are evicted or fetched, and when, is arbitrary.
- Clocks, PSRAM training, SD card, Ethernet, watchdog, console output and the assembly startup code: hardware facts that cannot be read off the source.
- The checksum in the table's MD5 entry is an input: the board does not verify it. Reading partitions.csv is left out; its rows are inputs.
- UART: draining the transmitter is left out, and the update bit clears after an arbitrary number of polls.
- tar2cpio's reading of the tar and its counters are left out; names are bytes, and stripping leading dots and slashes also takes a hidden file's own dot, as in the code.
- `Cpio.DecodeEncodeIff`: the reader is one that refuses a header with anything but hex digits in its numbers; readers that are laxer are not modelled.
- `WholeObject.LinkAgrees`: symbol addresses fit 32 bits and relocation sites 31; larger ones cannot lie in an image the board can hold.
- Serial and host scripts, kernel and root file system configuration, documentation.
