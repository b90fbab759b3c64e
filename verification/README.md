# A verified model of libtfs

libtfs mounts archives (ZIP, DwarFS, SquashFS) as read-only file systems behind
a C API, and its command line tool edits self-contained packages: an
executable, one or more images, and a binary manifest trailer in one file. This
project models the parts of it that do not delegate to a foreign library and
proves what they promise.

**Packages** (`Bytes`, `Words`, `Crc`, `CrcRemainder`, `HostIo`, `TpkgFormat`, `Tpkg`,
`TpkgLaws`, `PackageFormat`, `PackageLaws`, `PackagePlan`, `PlanLaws`, `HostFiles`,
`Assembly`, `PackageEdits`, `Unbundling`). `TpkgFormat` says which bytes a manifest is and
which manifest a file holds; `Tpkg` fills buffers and reads descriptors with
short transfers and is proved against it. The streaming, table-driven CRC is
proved to be the bit-at-a-time one for every chunking, and that one to be the
remainder of a division of polynomials over two elements. `TpkgLaws` says byte by
byte which files have a readable trailer and which error every other file gets. Any
change of up to four adjacent bytes in a header is proved to make the reader fail. On top of
this sits the algebra of packages: the files `assemble` can write are exactly
the gap-free ones, taking one apart into a directory and building it again
gives the same bytes, and insert, remove and set-runtime undo each other. `PlanLaws`
says which package a manifest.json describes, member by member.

**The JSON manifest** (`JsonFormat`, `JsonRoundTrip`, `JsonLaws`, `JsonGrammar`, `Json`,
`ManifestJson`, `ManifestPrinter`, `ManifestLaws`). A grammar of suffixes is the reference; the parser class
moves a cursor and is proved against it, on every input. Which texts that
grammar reads, and as what, is proved against the texts themselves, laid out as trees
with their blanks and escapes. Whatever the printer writes, it reads back, and after
unbundling the file tells of every part where it was and what its CRC is.

**Paths** (`Paths`, `PathLaws`). Four in-place rewriting passes and a split loop are
proved equal to one fold over path components; join, relative_to, parent and
filename are then characterised on components, and in `PathLaws` on the texts.

**The C API context** (`MountTable`, `FsState`, `FsRuns`, `FsLaws`, `FsContexts`,
`ZipDescriptors`). Every
public call runs under one mutex, so a run of the library is a sequence of
atomic steps. `FsState` says what each step does, `FsContexts` is the class
with its loops, proved to take those steps, and `FsRuns` proves what every run
keeps, `FsLaws` what callers are answered. Calls into a backend and into the host file system are parameters, so
the theorems hold for all of their answers; `ZipDescriptors` proves that what the
ZIP handle does on a call is one of them.

**ZIP as a file system** (`FileHandles`, `ForeignCalls`, `ZipHandles`,
`ZipNames`, `ZipLaws`, `ZipWalks`, `ZipTree`, `ZipTargets`). libzip streams only go forward and deliver
short reads; the handle that seeks by reopening is proved to answer every run of
operations as a natively seeking handle would, to its end unless a libzip call
fails. Recursive extraction is proved to end on every archive, and on a
well-formed one to write every file exactly once, inside the destination, unless
a call fails or the disk is in the way. Which calls fail and how short reads are
is a schedule fixed beforehand, which the modelled code cannot influence.

**Name patterns** (`Glob`, `GlobLaws`). The backtracking matcher used where the platform
has no `fnmatch` is proved to decide a declarative meaning of patterns, and that meaning
is read off the pattern's text: how it is spelt, and which names each element stands for.

The proofs rest on a few readings of the environment. Host paths name the same
file exactly when their texts are equal; any host operation may fail, and the
contracts say what holds when it does. An open descriptor is not used by
anybody else between opening and closing. A failed `zip_fread` consumes
nothing. A backend answers the same path the same way as long as it is mounted.

Where the code does not do what its documentation says, the model follows the
code:

- Rebuilding an unchanged directory is documented as byte-identical
  (`README.adoc:666`). That holds exactly for packages without gaps
  (`RebuildIsIdenticalIffGapFree`); one stray byte before the slot table is
  accepted by the reader and lost by the rebuild (`StrayByteIsLost`).
- A package edit keeps the original until the new file is complete, but the
  package is gone when the rename fails, removing it succeeds and the second
  rename fails (`src/cli/package.cpp:332-346`); `MoveOver` and `FailedCleanly`
  state that it is lost exactly then.
- `allocate_fd` tests for wrap-around only while it steps over taken numbers,
  so the counter passes its documented maximum. Descriptors are unambiguous as
  long as fewer than 2^30 files have been opened (`LiveDescriptorsNeverAlias`);
  the next one leads nowhere (`BoundIsExact`), and the one after that leads to
  another open file (`AliasIsReached`). If every number is taken the search
  never ends (`NoRoomNoEnd`).
- `relative_to` undoes `join` only when the joined path stays inside the base
  (`RelativeToJoin` gives the exact condition). `join` is not associative
  everywhere: `JoinAssociative` says exactly where, and `JoinNotAssociative`
  shows the two ways it fails.
- Where an entry "a//" makes the listed directory "a/" list a child without a name,
  the walk lists "a/" again under a path with one slash too many, and looks for
  "a//f" where the archive has "a/f". `ReachesIff` says of every archive exactly
  when the walk goes through, and `RootedReachesIff` reads that off the names when
  every directory has its entry. Where it does not go through, extraction fails on
  every disk (`ExtractAll`). `NamelessExamples` shows an archive of either kind.
- Names with ".." segments may lead out of the destination, or make two entries one
  host file (`DotsEscape`). `InsideIff` says exactly which names stay inside a given
  destination, `InsideEverywhere` which stay inside every one, and `SameTargetIff`,
  `SameTargetBelow` and `SameTargetEverywhere` which two share a host file.
- Reads of a ZIP entry go by the size libzip reports, 0 if it reports none: they
  deliver the whole content under every schedule of short reads exactly if it is
  no longer than that size, or than one byte (`WholeIffReported`,
  `UnreportedLosesBytes`). Seeks go where native ones go exactly if the size is the
  true one (`NativeIffSized`).
- A range that runs backwards, as in "[z-a]", is not empty: it matches its first
  character (`GlobLaws.RangeClass`).

## Model

| member | source | states |
|---|---|---|
| Bytes.LeValueOfBytes | include/tebako/tpkg.h:297-328 | reading a little-endian field gives back every number that fits the width it was written with |
| Bytes.LeBytesOfValue | include/tebako/tpkg.h:297-328 | and writing what was read gives back the bytes |
| Bytes.PatchedTwice | include/tebako/tpkg.h:297-343 | fields written side by side into a buffer amount to their concatenation |
| Bytes.Put32 | include/tebako/tpkg.h:297-303 | stores exactly the four little-endian bytes and touches no other |
| Bytes.Put64 | include/tebako/tpkg.h:305-311 | stores exactly the eight little-endian bytes and touches no other |
| Bytes.Get32 | include/tebako/tpkg.h:313-316 | the shifted bytes add up to the little-endian value |
| Bytes.Get64 | include/tebako/tpkg.h:318-328 | the loop adds up the shifted bytes to the little-endian value |
| Words.OrAddsByte | include/tebako/tpkg.h:313-328 | or-ing a shifted byte into a number that has no bit set there or above is adding it |
| Words.BytesOfWord | include/tebako/tpkg.h:297-316 | the four bytes stored for a word give the word back |
| Words.WordOfBytes | include/tebako/tpkg.h:297-316 | and four bytes read as a word are the bytes stored for it |
| Crc.FeedConcat | src/cli/package.cpp:147-168 | feeding two pieces in turn is feeding their concatenation |
| Crc.ShiftLinear | include/tebako/tpkg.h:287-290 | one CRC shift is linear over exclusive or |
| Crc.TableStep | src/cli/package.cpp:86-111 | eight shifts split into a table entry for the low byte and a plain shift of the rest |
| Crc.ShiftInjective | include/tebako/tpkg.h:287-290 | no two registers shift to the same one |
| Crc.FeedInjective | include/tebako/tpkg.h:280-293 | over the same data, different registers stay different |
| Crc.FeedWord | include/tebako/tpkg.h:280-293 | four bytes act on the register only through their exclusive or with it |
| Crc.BurstDetected | include/tebako/tpkg.h:280-293 | replacing one to four adjacent bytes always changes the register, whatever surrounds them |
| Crc.StoredCrc | include/tebako/tpkg.h:443-452 | a message carries its own CRC exactly when message and CRC together leave the fixed residue |
| Crc.ShiftByte | include/tebako/tpkg.h:286-291 | the masked shift loop is eight reference shifts |
| Crc.TpkgCrc32 | include/tebako/tpkg.h:280-293 | the nested loops compute the CRC-32 of the range |
| Crc.CrcTable | src/cli/package.cpp:86-100 | every table entry is eight shifts of its index |
| Crc.CrcUpdate | src/cli/package.cpp:102-111 | the table-driven update is the bitwise register over the same data |
| Crc.StreamingCrc | src/cli/package.cpp:147-168 | over any sequence of chunks the streaming CRC is the bitwise CRC of the whole |
| Crc.CheckValue | include/tebako/tpkg.h:280-293 | the CRC of the digits 1 to 9 is 0xCBF43926, the published check value |
| Crc.LeadingZeroShows | include/tebako/tpkg.h:283 | a zero byte put in front always changes the CRC |
| CrcRemainder.CrcIsRemainder | include/tebako/tpkg.h:280-293 | the CRC of any data, as a polynomial over two elements, is the inverted remainder of the message with 32 inverted leading bits, shifted by 32, on division by the CRC-32 polynomial |
| CrcRemainder.FeedDivides | include/tebako/tpkg.h:284-291 | feeding data to any register is dividing |
| CrcRemainder.ValueOfMessage | include/tebako/tpkg.h:280-291 | the bits of a message, read lowest first, are its bytes read as a little-endian number |
| CrcRemainder.RegisterValue | include/tebako/tpkg.h:561 | the four bytes stored for a register are its polynomial, lowest bit first |
| HostIo.ReadFull | include/tebako/tpkg.h:345-357 | whatever the short reads, success means exactly the bytes at the position, failure means a fault or the end |
| HostIo.WriteFull | include/tebako/tpkg.h:359-371 | success appends the whole buffer, failure leaves a prefix of it |
| TpkgFormat.PutStrKeepsString | include/tebako/tpkg.h:330-343 | a string field keeps its text up to the NUL, and storing it twice changes nothing more |
| TpkgFormat.ParseOfRecord | include/tebako/tpkg.h:479-487 | a written slot record reads back as the slot, its text zero-padded |
| TpkgFormat.AppendedTrailerReads | include/tebako/tpkg.h:426-492 | any valid manifest appended to any prefix is what the reader finds, even after another trailer |
| TpkgFormat.TrailerInjective | include/tebako/tpkg.h:519-569 | two manifests with the same trailer are the same, strings compared up to their NUL |
| TpkgFormat.PaddedImageIsWritten | include/tebako/tpkg.h:426-569 | a readable file with zero-padded texts and an adjacent table is exactly a prefix and a written trailer |
| TpkgFormat.CorruptHeaderRejected | include/tebako/tpkg.h:443-455 | changing one to four adjacent header bytes of a readable file, the stored CRC included, always makes the reader fail with one of the three header errors |
| Tpkg.StrNLen | include/tebako/tpkg.h:330-336 | finds the first NUL or the end |
| Tpkg.PutString | include/tebako/tpkg.h:338-343 | writes the text and zeros to the field's end, nothing else |
| Tpkg.PutWord | include/tebako/tpkg.h:561 | stores the computed CRC little-endian in place |
| Tpkg.PutRecord | include/tebako/tpkg.h:541-550 | fills one slot record in place |
| Tpkg.PutHeader | include/tebako/tpkg.h:552-562 | fills the header in place, its CRC over everything before it |
| Tpkg.ReadAt | include/tebako/tpkg.h:411-424 | both read callbacks deliver exactly the range asked for; it is required to lie inside the source |
| Tpkg.Library.Validate | include/tebako/tpkg.h:375-405 | accepts exactly the valid manifests and reports the first violation in the code's order |
| Tpkg.Library.CheckHeader | include/tebako/tpkg.h:443-460 | tells a missing trailer from a damaged one, in the code's order |
| Tpkg.Library.ParseSlot | include/tebako/tpkg.h:480-486 | one record of the table, field by field |
| Tpkg.Library.ParseTable | include/tebako/tpkg.h:479-487 | the loop parses every record |
| Tpkg.Library.ParseOut | include/tebako/tpkg.h:473-487 | header and table together are the parsed manifest, unused slots zero |
| Tpkg.Library.TableBound | include/tebako/tpkg.h:463-468 | the division-based test is the bounds test without overflow |
| Tpkg.Library.ReadTable | include/tebako/tpkg.h:463-491 | after the header, in-bounds reads only, and the manifest or the error the file determines |
| Tpkg.Library.ReadCore | include/tebako/tpkg.h:426-492 | on arbitrary bytes: in-bounds reads only, success exactly with the valid manifest the file holds, otherwise its error or an I/O fault |
| Tpkg.Library.ReadMem | include/tebako/tpkg.h:508-515 | the memory reader succeeds exactly on readable images |
| Tpkg.Library.ReadFd | include/tebako/tpkg.h:494-506 | the descriptor reader gives the same answer under any short reads, or an I/O error after a fault |
| Tpkg.Library.TrailerBuffer | include/tebako/tpkg.h:541-562 | the buffer built in place is the trailer |
| Tpkg.Library.WriteFd | include/tebako/tpkg.h:519-569 | a valid manifest is appended whole, a rejected one appends nothing, an I/O error leaves a prefix of the trailer |
| TpkgLaws.HeaderCodes | include/tebako/tpkg.h:443-460 | which code the header's bytes get: absent without "TEBA", a damaged magic, a CRC that does not match, a version other than 1, a count outside 1 to 8, in this order |
| TpkgLaws.ReadIff | include/tebako/tpkg.h:426-492 | a reader finds a manifest if and only if the file ends in its 166 header bytes with the magic and the matching CRC, its records of 280 bytes lie where the header says, and its fields are sound |
| TpkgLaws.ReadErrors | include/tebako/tpkg.h:426-492 | every other file gets the code of the first of seven things wrong with its bytes |
| TpkgLaws.ValidationCodes | include/tebako/tpkg.h:375-405 | which manifests are sound, and which code any other one gets |
| TpkgLaws.WrittenLayout | include/tebako/tpkg.h:519-569 | a written trailer has that layout, its records starting at the old end of the file |
| TpkgLaws.CanonicalTells | include/tebako/tpkg.h:473-487 | what is read of it differs from what was written only behind NULs and in unused slots |
| TpkgLaws.AssembledLayout | src/cli/package.cpp:211-297 | an assembled file is the bootstrap, the images one behind the other, their records and the header, and each record tells offset, size, format, flags and mount point of its own image |
| TpkgLaws.AssemblableIff | src/cli/package.cpp:211-241 | the packages that can be assembled: 1 to 8 images, texts under 128 and 256 bytes, formats up to 4, a file within off_t |
| TpkgLaws.TakenApart | src/cli/package.cpp:351-374 | taking a file apart gives the bytes before the first image, the range each slot names, and the settings of header and slots |
| JsonFormat.DecimalRoundTrip | src/cli/package.cpp:439-451 | the printed decimal of every 64-bit number converts back to it |
| JsonFormat.EscapePlain | src/cli/package.cpp:376-414 | text without quotes, backslashes and control characters is printed as it is |
| JsonFormat.ParseValue | src/cli/package.cpp:502-542 | the recursive parser consumes at least one character of every value it accepts, so it ends on every input |
| JsonFormat.LookupAt | src/cli/package.cpp:426-437 | find returns the first member of that name |
| JsonRoundTrip.StringRoundTrip | src/cli/package.cpp:376-414 | a quoted, escaped string reads back as the string, for every string and whatever follows |
| JsonRoundTrip.DocumentRead | src/cli/package.cpp:502-720 | any nesting of objects, arrays, strings and numbers in any blank layout parses to the values laid out |
| JsonRoundTrip.FileRead | src/cli/package.cpp:467-479 | a laid-out document is a complete file to the parser |
| Json.JsonEscape | src/cli/package.cpp:376-414 | the append loop computes the escaped text |
| Json.JsonParser.Parse | src/cli/package.cpp:467-479 | the cursor parser accepts what the grammar accepts, with its value, and reports its error |
| Json.JsonParser.ReadValue | src/cli/package.cpp:502-542 | one value at the cursor: same value, same rest, same error as the grammar |
| Json.JsonParser.SkipSpace | src/cli/package.cpp:485-490 | moves over exactly the blanks at the cursor |
| Json.JsonParser.Expect | src/cli/package.cpp:492-500 | moves over the character asked for, or stays |
| Json.JsonParser.ReadToken | src/cli/package.cpp:508-542 | dispatches on the first character as the grammar does |
| Json.JsonParser.ReadObject | src/cli/package.cpp:544-580 | the member loop reads what the grammar reads |
| Json.JsonParser.ReadMember | src/cli/package.cpp:556-568 | key, colon and value of one member |
| Json.JsonParser.ReadArray | src/cli/package.cpp:582-609 | the item loop reads what the grammar reads |
| Json.JsonParser.ReadString | src/cli/package.cpp:611-700 | the string loop with its escapes and \u codes reads what the grammar reads |
| Json.JsonParser.ReadHex | src/cli/package.cpp:653-676 | four hex digits of either case, or failure |
| Json.JsonParser.ReadNumber | src/cli/package.cpp:702-719 | takes the longest run of number characters |
| JsonLaws.LiteralIff | src/cli/package.cpp:611-700 | a string literal is read if and only if it is spelt in raw characters, the eight two-character escapes and \u escapes of either case, as what these stand for, UTF-8 included |
| JsonLaws.EscapesRead | src/cli/package.cpp:626-693 | each quoted escape by itself: the two-character ones as their character, \u as the one, two or three bytes of its code |
| JsonLaws.BlankIff | src/cli/package.cpp:485-490 | the blanks are space, tab, newline, vertical tab, form feed and carriage return |
| JsonLaws.NumberTextRead | src/cli/package.cpp:702-719 | a run of number characters is read as a number with that text |
| JsonLaws.NumberValue | src/cli/package.cpp:439-451 | which number texts have a 64-bit value and which value: decimal, saturating, and wrapping behind a minus |
| JsonLaws.DecimalIsShort | src/cli/package.cpp:960-982 | a printed number is its decimal digits without leading zeros |
| JsonLaws.EscapesPrinted | src/cli/package.cpp:376-414 | how the printer writes each control character, quote and backslash |
| JsonGrammar.DocumentIff | src/cli/package.cpp:467-720 | a text is read as a value if and only if it is a layout of that value: a tree of words, numbers, literals, arrays and objects with any blanks between |
| ManifestJson.ManifestParses | src/cli/package.cpp:960-982 | the whole manifest.json text parses to the values it was printed from |
| ManifestJson.FindField | src/cli/package.cpp:426-437 | looking a printed key up gives its value |
| ManifestJson.ManifestByteText | src/cli/package.cpp:960-994 | the text is a byte string, so writing it to a file and reading it back loses nothing |
| ManifestPrinter.PrintManifest | src/cli/package.cpp:960-982 | the printing statements produce the document's text |
| ManifestPrinter.SlotsText | src/cli/package.cpp:973-981 | the slot loop produces the array's text |
| ManifestPrinter.SlotText | src/cli/package.cpp:973-980 | the statements for one slot produce its object |
| ManifestPrinter.BootstrapText | src/cli/package.cpp:970-971 | the statements for the bootstrap produce its object |
| ManifestLaws.UnbundledTells | src/cli/package.cpp:903-995 | after unbundling, manifest.json parses to an object that gives each slot its index, offset, size, format, its name, flags and mount point as the header and records of the package have them, and the size and CRC of every part file as it now is |
| PackageFormat.AssembledReads | src/cli/package.cpp:211-297 | an assembled file reads back as its own manifest, every slot before the table |
| PackageFormat.AssembledCut | src/cli/package.cpp:246-278 | what follows a NUL in a text leaves no trace in the file |
| PackageFormat.TakeApartAssembled | src/cli/package.cpp:859-958 | taking an assembled file apart gives back every part, flag and text it was assembled from |
| PackageLaws.GapFreeIffAssembled | src/cli/package.cpp:211-297 | the files assemble can write are exactly the gap-free packages |
| PackageLaws.HoldsIffAssembled | src/cli/package.cpp:211-297 | holding a package and being what assemble writes for it are the same |
| PackageLaws.ReassemblyKeepsEverything | src/cli/package.cpp:998-1116 | rebuilding any accepted package keeps bootstrap, images and metadata and leaves no gap |
| PackageLaws.ReassemblyIsIdentity | src/cli/package.cpp:998-1116 | rebuilding an assembled package gives its bytes back |
| PackageLaws.RebuildIsIdenticalIffGapFree | src/cli/tebakofs.cpp:1298-1300 | an untouched directory rebuilds to the original bytes exactly when the package has no gap |
| PackageLaws.StrayByteIsLost | src/cli/package.cpp:902-921 | for every package: one byte before the slot table is accepted and not rebuilt |
| PackageLaws.InsertKeepsEverything | src/cli/package.cpp:1118-1145 | inserting keeps every part already there and adds one at the end |
| PackageLaws.InsertThenRemove | src/cli/package.cpp:1118-1166 | insert followed by removing the last slot restores the original bytes |
| PackageLaws.RemoveKeepsOthers | src/cli/package.cpp:1147-1166 | removing slot k keeps all others in order, contiguous again, and shortens the file by its data and one record |
| PackageLaws.SetRuntimeAndBack | src/cli/package.cpp:1168-1185 | a new bootstrap keeps every image, and the old bootstrap restores the bytes |
| Assembly.StreamPart | src/cli/package.cpp:130-170 | appends exactly the range, counts it and returns its CRC, touching no other file |
| Assembly.CopyRange | src/cli/package.cpp:147-168 | the buffer loop copies the range and keeps the CRC register of what it copied |
| Assembly.CopyText | src/cli/package.cpp:246 | strncpy into a zeroed field gives the text up to its NUL and zeros |
| Assembly.CheckParts | src/cli/package.cpp:216-244 | refuses exactly what the checks before any write refuse, with the first reason |
| Assembly.StreamAll | src/cli/package.cpp:249-282 | the streaming loop accumulates offsets and fills the slots the manifest needs |
| Assembly.StreamSlot | src/cli/package.cpp:262-275 | one image: appended whole, its offset the bytes before it, its size its own |
| Assembly.WriteTrailer | src/cli/package.cpp:284-296 | completes the file or fails because the result would be no package |
| Assembly.Assemble | src/cli/package.cpp:211-297 | writes exactly the assembled file, or fails for one of the stated reasons; a refused check touches nothing, a later failure leaves no output behind unless the host failed; no other file changes |
| PackageEdits.RequireManifest | src/cli/package.cpp:299-312 | the manifest of the file, or why it is not a package |
| PackageEdits.RewriteInPlace | src/cli/package.cpp:316-348 | the file becomes the assembled one and nothing else changes; on failure it is as before, unless removing it succeeded between two failed renames, and without a host fault no temporary file stays |
| PackageEdits.MoveOver | src/cli/package.cpp:332-347 | succeeds exactly if one of the two renames does; otherwise the package is gone exactly if its removal succeeded |
| PackageEdits.OwnParts | src/cli/package.cpp:351-372 | the byte ranges of a package's own slots give back that package |
| PackageEdits.InsertImage | src/cli/package.cpp:1118-1145 | allowed exactly below the slot limit with another file as image; then the edited package |
| PackageEdits.InsertMeans | src/cli/package.cpp:1118-1145 | what is assembled is the package with one part more |
| PackageEdits.RemoveImage | src/cli/package.cpp:1147-1166 | allowed exactly for an existing slot that is not the only one; then the edited package |
| PackageEdits.RemoveMeans | src/cli/package.cpp:1147-1166 | what is assembled is the package without that part |
| PackageEdits.SetRuntime | src/cli/package.cpp:1168-1185 | allowed exactly with another file as bootstrap; then the edited package |
| PackageEdits.SetRuntimeMeans | src/cli/package.cpp:1168-1185 | what is assembled is the package with that bootstrap |
| PackageEdits.InsertThenRemoveLast | src/cli/package.cpp:1118-1166 | for any three states of the disk: if insert-image leads from the first to the second and removing the last slot to the third, a gap-free package is back byte for byte |
| PackageEdits.InsertedCanBeRemoved | src/cli/package.cpp:1118-1166 | after the insert that removal passes every check and fits the format, so only the host can stop it |
| PackageEdits.SetRuntimeThenBack | src/cli/package.cpp:1168-1185 | likewise for set-runtime and set-runtime to the old bootstrap |
| PackageEdits.RuntimeCanBeSetBack | src/cli/package.cpp:1168-1185 | after the first, only the host can stop the second |
| PlanLaws.InsertedImage | src/cli/package.cpp:1132-1144 | an inserted image goes last, as the whole file, in the format its first bytes announce, without flags, under the given or the standard mount point |
| PlanLaws.SniffedIs | src/cli/package.cpp:174-193 | "DWARFS" announces 1, "hsqs" 2, "PK" with 3, 4 or 5, 6 behind it 3, and anything else 0 |
| PlanLaws.DefaultMountIs | src/cli/package.cpp:794-799 | the standard mount point of each slot |
| PlanLaws.PartIs | src/cli/package.cpp:130-168 | a part is as many bytes from its offset on as are asked for and there |
| PlanLaws.Prechecked | src/cli/package.cpp:211-241 | the checks before anything is written, and their order |
| PlanLaws.TemporaryNames | src/cli/package.cpp:324-326 | the name a file is assembled under; different edits of a package have different ones |
| Unbundling.DirectoryHolds | src/cli/package.cpp:923-994 | the directory holds every part under its own name, and the manifest text |
| Unbundling.DirectoryRoundTrip | src/cli/package.cpp:998-1116 | what reassemble gathers from an unbundled directory is the package, for every accepted package |
| Unbundling.Unbundle | src/cli/package.cpp:859-996 | accepts exactly the packages whose slots end before the table, and leaves exactly that directory behind |
| Unbundling.CheckRanges | src/cli/package.cpp:896-901 | every slot ends before the slot table |
| Unbundling.ReadLayout | src/cli/package.cpp:861-901 | the manifest, table offset and header CRC of an accepted package |
| Unbundling.StreamOut | src/cli/package.cpp:923-951 | one part file with exactly the range, and its CRC |
| Unbundling.StreamParts | src/cli/package.cpp:923-958 | bootstrap and every image in its own file, with their CRCs |
| Unbundling.StreamBootstrap | src/cli/package.cpp:949-952 | the bootstrap alone in its own file, with its CRC, or a host fault |
| Unbundling.StreamImage | src/cli/package.cpp:953-958 | one more image in its own file, with its CRC, or a host fault |
| Unbundling.WriteManifest | src/cli/package.cpp:960-995 | the manifest text in its file |
| Unbundling.ReadSlots | src/cli/package.cpp:1072-1114 | the slot loop accepts and rejects what the plan does, with its reason |
| Unbundling.ReadSlot | src/cli/package.cpp:1075-1112 | the checks on one entry, in order, with defaults for what is left out |
| Unbundling.ReadOptions | src/cli/package.cpp:1030-1048 | flags, launcher version and runtime reference, or the refusal of a wrong field |
| Unbundling.ReadBootstrap | src/cli/package.cpp:1050-1064 | the bootstrap part, or why it is refused |
| Unbundling.ReadU32 | src/cli/package.cpp:1032-1043 | an optional number, truncated to 32 bits |
| Unbundling.ReadText | src/cli/package.cpp:1044-1048 | an optional string |
| Unbundling.ReadPlan | src/cli/package.cpp:1000-1115 | the field checks accept and reject what the plan does, with the same reason |
| Unbundling.Reassemble | src/cli/package.cpp:998-1116 | writes the file the directory describes, or fails for its reason |
| Unbundling.UnbundleThenReassemble | src/cli/package.cpp:859-1116 | for any three states of the disk: if unbundle leads from the first to the second and reassemble to the third, the rebuilt file holds the same package, and is the same file exactly when that had no gap |
| Unbundling.UnbundledCanBeRebuilt | src/cli/package.cpp:998-1116 | an unbundled directory passes every check of reassemble exactly when the package fits the format, unless the output is one of the parts |
| PlanLaws.PlanIff | src/cli/package.cpp:1016-1115 | a manifest.json is planned as exactly the bootstrap, slots and options it describes, member by member, with the default of each member that is missing |
| PlanLaws.SlotIff | src/cli/package.cpp:1075-1112 | one entry of "slots": a file of the directory itself, its mount point, its format or the one its bytes announce, its flags modulo 2^32 |
| PlanLaws.PlanFaults | src/cli/package.cpp:1016-1115 | every other one is rejected for the first thing wrong with it |
| PlanLaws.ManifestFile | src/cli/package.cpp:998-1019 | manifest.json is looked for in the directory; missing and unparsable ones are told apart |
| PlanLaws.SafeIffDirect | src/cli/package.cpp:722-728 | a part name is accepted if and only if it names an entry of the directory itself under that very name |
| Paths.ComponentsOfJoin | src/core/path.cpp:58-97 | the components of two texts with a slash between them are the components of both |
| Paths.Find | src/core/path.cpp:34-42 | the first occurrence at or after a position |
| Paths.ReplaceAll | src/core/path.cpp:32-42 | the in-place passes end and keep the components, and the first leaves no double slash |
| Paths.SplitAndResolve | src/core/path.cpp:54-97 | the split loop with its push and pop is the fold over the components |
| Paths.Reconstruct | src/core/path.cpp:99-115 | the printing loop renders the component list |
| Paths.Normalize | src/core/path.cpp:21-118 | all passes together compute the one-pass component fold, on every text |
| Paths.NormalForm | src/core/path.cpp:21-118 | normalising is idempotent, keeps absoluteness, and leaves ".." only as a leading run of relative paths |
| Paths.RenderIsNormal | src/core/path.cpp:99-117 | every canonical component list is the component list of exactly its rendering |
| Paths.SplitAtLastSlash | src/core/path.cpp:124-157 | filename is the last component and parent the path of the others |
| Paths.StemAndExtension | src/core/path.cpp:159-197 | stem and extension split the file name at its last interior dot, without loss, and hidden names have no extension |
| Paths.JoinResolves | src/core/path.cpp:203-220 | join continues the fold of the base with the other path's components |
| Paths.JoinParentFilename | src/core/path.cpp:124-157 | joining parent and filename gives back every path but the root and the empty one |
| Paths.RelativeToDrops | src/core/path.cpp:222-262 | relative_to is what remains after a proper component prefix, and empty otherwise |
| Paths.JoinRelativeTo | src/core/path.cpp:203-262 | joining a non-empty relative_to to its base gives the path back |
| Paths.RelativeToJoin | src/core/path.cpp:203-262 | relative_to undoes join if and only if the second path is relative and does not climb out of the base (or is empty) |
| Paths.JoinAssociative | src/core/path.cpp:203-220 | join is associative if and only if an argument is empty, or the middle path is relative and an absolute last path is joined to something, or the middle path is absolute and the last does not climb out of it (or the first is the root) |
| Paths.JoinNotAssociative | src/core/path.cpp:203-220 | "x", "..", "/y" and "x", "/", ".." join differently in the two orders |
| PathLaws.DropsNothing | src/core/path.cpp:21-122 | doubled slashes, "." segments and a trailing slash never matter to the normal form |
| PathLaws.ParentDropsName | src/core/path.cpp:60-104 | ".." takes the name before it away wherever the two stand, and nothing at the root |
| PathLaws.NormalIff | src/core/path.cpp:21-122 | a path is left as it is if and only if it is names with single slashes between them, behind a slash or behind ".." segments |
| PathLaws.JoinIs | src/core/path.cpp:203-220 | join is a slash between the two, normalised, even where the second starts at the root; an empty one does not count |
| PathLaws.LastSlash | src/core/path.cpp:124-157 | the filename is what follows the last slash, the parent the normalised text before it |
| PathLaws.RelativeIs | src/core/path.cpp:222-262 | relative_to takes base and slash off the front |
| PathLaws.InMountIs | src/c_api/fs_context.cpp:149-171 | a mount point holds itself and what continues it behind a slash |
| MountTable.InMountIsComponentPrefix | src/c_api/fs_context.cpp:149-171 | on normalised absolute paths the text test is the component prefix test |
| MountTable.OwnerIsBest | src/c_api/fs_context.cpp:1067-1077 | dispatch goes to the one mount with the longest match, and to none only if nothing matches |
| MountTable.DispatchAfterUnmount | src/c_api/fs_context.cpp:1067-1077 | unmounting moves only the paths that mount served, to the next longest match |
| MountTable.DispatchAfterMount | src/c_api/fs_context.cpp:1067-1106 | a new mount takes over exactly the paths it matches longer |
| FsState.NextFreeIsUnique | src/c_api/fs_context.cpp:1311-1321 | the scan order determines the number handed out |
| FsState.NextFreeExists | src/c_api/fs_context.cpp:1311-1321 | the scan meets a free number exactly when the counter or some number up to the maximum is free |
| FsState.NoRoomNoEnd | src/c_api/fs_context.cpp:1311-1321 | otherwise every candidate is taken, and so is the one after it |
| FsRuns.StepKeepsInvariant | src/c_api/fs_context.cpp:379-814 | every call keeps the tables consistent |
| FsRuns.EveryRunIsConsistent | src/c_api/fs_context.cpp:379-814 | after any calls: mount points distinct, keys their mounts' handles, every descriptor and directory owned by a live mount, cookies equal iterator positions, the compat handle live or -1 |
| FsRuns.HandlesNeverReused | src/c_api/fs_context.cpp:1089-1106 | later mount handles are larger, across unmounts of any kind |
| FsRuns.DeadHandlesStayDead | src/c_api/fs_context.cpp:423-461 | an unmounted handle never names a mount again |
| FsRuns.UnmountEffect | src/c_api/fs_context.cpp:423-461 | unmounting takes exactly its own descriptors and directories, leaves all others as they are, and moves only its own paths |
| FsRuns.MountThenUnmount | src/c_api/fs_context.cpp:379-461 | mounting and unmounting leaves only the used-up handle behind |
| FsRuns.RegionAccepted | src/c_api/fs_context.cpp:1133-1208 | a region mount reads exactly the non-empty regions inside a readable file |
| FsRuns.FlagRoundTrip | src/c_api/fs_context.cpp:1297-1309 | setting and clearing the flag bit cancel exactly for numbers without it |
| FsRuns.OpenResolves | src/c_api/fs_context.cpp:544-579 | an open adds one fresh entry with its owner's content; its descriptor leads back to it exactly when its number is free of the flag bit |
| FsRuns.LiveDescriptorsNeverAlias | src/c_api/fs_context.cpp:1297-1321 | in every run with fewer than 2^30 opens, live descriptors resolve to their own entries and to no others |
| FsRuns.BoundIsExact | src/c_api/fs_context.cpp:1297-1321 | a run of 2^30 opens in which the last descriptor leads nowhere |
| FsRuns.DescriptorAliased | src/c_api/fs_context.cpp:1297-1321 | number 2^30 + k goes out as the descriptor of number k, and with both open leads to the other file |
| FsRuns.AliasIsReached | src/c_api/fs_context.cpp:1297-1321 | a run after which that happens |
| FsRuns.OthersLeaveDescriptorAlone | src/c_api/fs_context.cpp:581-664 | only reads, seeks and closes of a descriptor, and unmounts of its owner, change its position |
| FsRuns.DescriptorIsHandle | src/c_api/fs_context.cpp:581-645 | reads, preads and seeks of a descriptor that do not fail answer as its handle does |
| FsRuns.FailedSeek | src/c_api/fs_context.cpp:627-645 | a seek failing part-way leaves its descriptor dead or short of the target, and every other as it is |
| FsRuns.CookieLeadsBack | src/c_api/fs_context.cpp:768-814 | after any run that keeps the stream open, seeking to a saved cookie brings the same entry back |
| FsRuns.FullScan | src/c_api/fs_context.cpp:702-766 | after a rewind, reading to the end yields every entry once, in order, and then the end |
| FsRuns.ShortNamesAreKept | src/c_api/fs_context.cpp:720-722 | a name that fits the record is handed out unchanged |
| FsLaws.SeekLeads | src/c_api/fs_context.cpp:627-645 | from the start a seek answers t exactly within the file, from the position p as p + t would from the start, from the end of s as the size of s + t would; all others are refused |
| FsLaws.AnsweredSeek | src/c_api/fs_context.cpp:627-645 | a seek that answers did what an undisturbed one does |
| FsLaws.SeekThenRead | src/c_api/fs_context.cpp:581-645 | after an answer t, any reads together deliver a prefix of the content from t on |
| FsLaws.ReadAmount | src/c_api/fs_context.cpp:581-599 | how much one read delivers: what is asked for and there, less only where the backend gives less, and never nothing in between |
| FsLaws.PreadDelivers | src/c_api/fs_context.cpp:601-625 | a pread delivers exactly the bytes in the range and in the file, and moves nothing |
| FsLaws.NextDescriptor | src/c_api/fs_context.cpp:544-579 | an open answers 2^30 and its counter, and uses one number up |
| FsLaws.OpensCountUp | src/c_api/fs_context.cpp:544-579 | opens in a row answer consecutive descriptors, failures not counted |
| FsLaws.PassedOver | src/c_api/fs_context.cpp:1311-1323 | a number in use is passed over: to the next free one up to 2^28 - 1, and from 1 again |
| FsLaws.ForeignNumbers | src/c_api/fs_context.cpp:1297-1309 | descriptors of the process itself never lead into the table |
| FsLaws.OpenRefusals | src/c_api/fs_context.cpp:544-579 | an open is refused without mounts, for writing, without an owner, by the backend, in this order and with these errno values |
| FsLaws.OpendirRefusals | src/c_api/fs_context.cpp:668-700 | likewise for opendir |
| FsLaws.DescriptorRefusals | src/c_api/fs_context.cpp:581-666 | which calls on a descriptor are refused with which errno; a refused call changes nothing else |
| FsLaws.DirectoryRefusals | src/c_api/fs_context.cpp:702-818 | every call on an unknown stream is EBADF |
| FsLaws.SeekdirRefusal | src/c_api/fs_context.cpp:782-814 | only negative positions are refused |
| FsLaws.PointRefusals | src/c_api/fs_context.cpp:467-515 | a mount point in use or missing is refused before anything is read |
| FsLaws.MountedIs | src/c_api/fs_context.cpp:1089-1106 | a mount takes the next handle and leaves every other mount, descriptor and stream as it is |
| FsLaws.RegionIsMemory | src/c_api/fs_context.cpp:1133-1208 | a region of a file is mounted exactly as a buffer with these bytes, or refused with EINVAL where it is empty or not in the file |
| FsLaws.WholeIsFile | src/c_api/fs_context.cpp:1108-1140 | without offset and length the file itself goes to the backend, whose failure gives EIO, EINVAL or ENOTSUP |
| FsLaws.BufferIs | src/c_api/fs_context.cpp:1210-1235 | a buffer is mounted as what the backend makes of its bytes, or refused with EIO, EINVAL or ENOTSUP |
| FsLaws.InitIs | src/c_api/fs_context.cpp:467-515 | the single-mount entry points do what the others do, and remember the handle |
| FsLaws.RegionRefusals | src/c_api/fs_context.cpp:1141-1190 | missing, unopenable and unreadable files are told apart |
| FsLaws.UnmountResets | src/c_api/fs_context.cpp:517-532 | after unmounting everything only the handle counter goes on |
| FsLaws.NameHandedOut | src/c_api/fs_context.cpp:702-729 | readdir hands out as much of a name as comes before a NUL and fits 255 characters, and goes on by one entry |
| FsLaws.SeekdirLeads | src/c_api/fs_context.cpp:782-814 | after a seekdir the entry of that number comes next, or the end |
| FsContexts.FsContext.constructor | include/tebako/fs/c_api/fs_context.h:464-474 | the initial counters and empty tables |
| FsContexts.FsContext.FindMount | src/c_api/fs_context.cpp:1067-1077 | in any order of the table the loop finds the owner |
| FsContexts.FsContext.MountPointTaken | src/c_api/fs_context.cpp:1079-1087 | whether some mount has that point |
| FsContexts.FsContext.AllocateFd | src/c_api/fs_context.cpp:1311-1321 | ends, and returns the first free number in scan order |
| FsContexts.FsContext.MountFromFile | src/c_api/fs_context.cpp:379-388 | the mount step for a whole file |
| FsContexts.FsContext.MountFromFileAt | src/c_api/fs_context.cpp:390-407 | the mount step for a region, or for the whole file when offset and length are zero |
| FsContexts.FsContext.MountFromMemory | src/c_api/fs_context.cpp:409-421 | the mount step for a buffer |
| FsContexts.FsContext.MountFromFileAtLocked | src/c_api/fs_context.cpp:1133-1208 | the region checks, overflow-free, give the region or the same error |
| FsContexts.FsContext.InitFromFileAt | src/c_api/fs_context.cpp:472-497 | the single-mount step, refused while anything is mounted |
| FsContexts.FsContext.InitFromMemory | src/c_api/fs_context.cpp:499-515 | the single-mount step for a buffer |
| FsContexts.FsContext.EraseFds | src/c_api/fs_context.cpp:433-442 | erasing while iterating removes exactly one mount's descriptors |
| FsContexts.FsContext.EraseDirs | src/c_api/fs_context.cpp:443-450 | erasing while iterating removes exactly one mount's directory streams |
| FsContexts.FsContext.UnmountHandle | src/c_api/fs_context.cpp:423-461 | the unmount step, refused for unknown handles |
| FsContexts.FsContext.UnmountAll | src/c_api/fs_context.cpp:517-532 | the tables are emptied and the descriptor and directory counters restart |
| FsContexts.FsContext.Open | src/c_api/fs_context.cpp:544-579 | the open step: dispatch, backend, fresh descriptor |
| FsContexts.FsContext.Lookup | src/c_api/fs_context.cpp:1297-1309 | the table entry behind an external descriptor, if any |
| FsContexts.FsContext.Read | src/c_api/fs_context.cpp:581-599 | the read step: the bytes at the position, and the position moved by them |
| FsContexts.FsContext.Pread | src/c_api/fs_context.cpp:601-625 | the pread step: the bytes at the offset, no table entry changed |
| FsContexts.FsContext.Lseek | src/c_api/fs_context.cpp:627-645 | the seek step, with the ways a handle can fail to be repositioned |
| ZipDescriptors.Read | src/backends/zip_backend.cpp:98-122 | a read of the ZIP handle is the read step of its descriptor, short by what zip_fread gave, failed only if it failed |
| ZipDescriptors.Pread | src/backends/zip_backend.cpp:124-182 | a pread of the handle is the pread step, failed only if a libzip call failed |
| ZipDescriptors.Seek | src/backends/zip_backend.cpp:190-253 | every outcome of the handle's seek is a seek step: target, refusal, death or a stop short of the target, the last two only if a libzip call failed |
| FsContexts.FsContext.Close | src/c_api/fs_context.cpp:647-662 | removes exactly that entry |
| FsContexts.FsContext.Opendir | src/c_api/fs_context.cpp:668-700 | the opendir step: a fresh stream at its first entry |
| FsContexts.FsContext.Readdir | src/c_api/fs_context.cpp:702-729 | the readdir step |
| FsContexts.FsContext.Closedir | src/c_api/fs_context.cpp:731-742 | removes exactly that stream |
| FsContexts.FsContext.Rewinddir | src/c_api/fs_context.cpp:750-766 | the stream is at its first entry |
| FsContexts.FsContext.Telldir | src/c_api/fs_context.cpp:768-780 | the position of the next entry |
| FsContexts.FsContext.Seekdir | src/c_api/fs_context.cpp:782-814 | resetting and stepping forward lands at the entry asked for, or at the end |
| FileHandles.ReadsAreContiguous | src/backends/zip_backend.cpp:98-122 | however reads are cut short, together they are the content from first to last position |
| FileHandles.ReadToTheEnd | src/backends/zip_backend.cpp:98-122 | reading until nothing comes delivers the whole rest |
| FileHandles.PreadsAreInvisible | src/backends/zip_backend.cpp:124-182 | leaving all preads out of a run changes no other answer |
| FileHandles.LegalIsNativeUpToShortReads | src/backends/dwarfs_backend.cpp:87-171 | a handle may differ from the native one only by stopping a read early, never at its first byte |
| FileHandles.TargetLeads | src/backends/zip_backend.cpp:195-216 | a seek leads to t if and only if t lies in the file at that distance from its start, the position or its end |
| FileHandles.AnswersAre | src/backends/dwarfs_backend.cpp:124-171 | what seeks, preads and tells answer, as positions and ranges of the content |
| ZipHandles.ZipFileHandle.constructor | src/backends/zip_backend.cpp:67-91 | a new handle is at the start and in step with its stream |
| ZipHandles.ZipFileHandle.Read | src/backends/zip_backend.cpp:98-122 | the next bytes of the content; it fails exactly when the handle is closed or zip_fread fails, and then moves nothing |
| ZipHandles.ZipFileHandle.Pread | src/backends/zip_backend.cpp:124-182 | for every entry: skipping and filling on a second stream delivers exactly the range, within what is reported, unless a libzip call fails or the offset lies between the content's end and the reported one; the handle is not touched |
| ZipHandles.ZipFileHandle.Seek | src/backends/zip_backend.cpp:190-253 | for every entry: lands where the reported size says unless a libzip call fails or the content ends before; refused seeks and seeks to the current position touch nothing; after a failure the handle is dead, its position kept, or in step, short of the target |
| ZipHandles.NativeIffSized | src/backends/zip_backend.cpp:190-226 | seeks go where native ones go, from every position, if and only if the true size is reported |
| ZipHandles.ZipFileHandle.Advance | src/backends/zip_backend.cpp:236-249 | the skip loop reaches the target unless zip_fread fails or the content ends before |
| ZipHandles.Skip | src/backends/zip_backend.cpp:153-163 | the skip loop of pread reaches the offset unless zip_fread fails or the content ends before |
| ZipHandles.Fill | src/backends/zip_backend.cpp:165-176 | the fill loop delivers the whole range, cut at the end of the content, unless zip_fread fails |
| ZipHandles.ZipFileHandle.Close | src/backends/zip_backend.cpp:267-273 | the handle is dead, its position kept |
| ZipHandles.ZipFileHandle.Replay | src/backends/zip_backend.cpp:98-253 | any run of operations is a legal run of a natively seeking handle, and goes to its end unless a libzip call fails |
| ZipHandles.ReadUntilNothing | src/backends/zip_backend.cpp:98-122 | a loop of reads delivers what the reported size and the schedule of short reads allow, unless zip_fread fails |
| ZipHandles.WholeIffReported | src/backends/zip_backend.cpp:74-122 | that is the whole content under every schedule if and only if the content is no longer than the reported size, or than one byte |
| ZipHandles.UnreportedLosesBytes | src/backends/zip_backend.cpp:74-122 | two bytes, no reported size, a short first read: one byte arrives |
| ZipHandles.DwarfsFileHandle.Read | src/backends/dwarfs_backend.cpp:87-116 | the native answer unless the handle is closed or dwarfs_c_pread fails, and then nothing moves |
| ZipHandles.DwarfsFileHandle.Pread | src/backends/dwarfs_backend.cpp:124-139 | exactly the range unless the handle is closed, the offset negative or dwarfs_c_pread fails |
| ZipHandles.DwarfsFileHandle.Seek | src/backends/dwarfs_backend.cpp:146-171 | the native seek; a refused one changes nothing |
| ZipHandles.EofAgrees | src/backends/zip_backend.cpp:115-119 | at equal positions of non-empty content the two handles agree on end of file |
| ZipNames.ChildIs | src/backends/zip_backend.cpp:339-379 | an entry is listed in a directory exactly when its name is the directory's, one segment, and a slash if it is a directory |
| ZipNames.ListingNames | src/backends/zip_backend.cpp:412-439 | in any archive no name is listed twice and every child's name is listed |
| ZipNames.ListingIsChildren | src/backends/zip_backend.cpp:312-380 | in a well-formed archive the listing is exactly the set of immediate children |
| ZipNames.PartsOfListing | src/backends/zip_backend.cpp:312-380 | the listed children together stand for exactly the entries below the directory |
| ZipNames.PartsAreDisjoint | src/backends/zip_backend.cpp:312-439 | different children stand for different entries |
| ZipNames.StripWalked | src/backends/zip_backend.cpp:797-825 | for every mount point, stripping a walked path gives the entry's own name back |
| ZipNames.ListablePathsAreShort | src/backends/zip_backend.cpp:649-683 | in any archive, a path that can be listed is at most two characters longer than mount point and longest name |
| ZipLaws.StripIs | src/backends/zip_backend.cpp:797-813 | the mount point and one slash come off, other paths stay |
| ZipLaws.LocateIs | src/backends/zip_backend.cpp:771-795 | the first entry of exactly that name, else the first of the directory of that name |
| ZipLaws.OpenIff | src/backends/zip_backend.cpp:531-562 | a path opens the first entry of its name if and only if there is one and it is no directory |
| ZipLaws.ListIff | src/backends/zip_backend.cpp:649-683 | a directory is listed if and only if it has an entry of its own; the root always is |
| ZipLaws.ListedIff | src/backends/zip_backend.cpp:312-439 | in any archive: of the entries that give one name in the directory the first is listed, and nothing else |
| ZipNames.WellFormedReaches | src/c_api/fs_context.cpp:267-371 | in a well-formed archive the walk from the root finds every directory and file it is told of |
| ZipWalks.ReachesIff | src/c_api/fs_context.cpp:267-371 | any archive, any mount point: the walk finds everything it is told of if and only if each entry listed in a directory with a nameless child is also found one slash further on |
| ZipWalks.RootedReachesIff | src/c_api/fs_context.cpp:267-371 | when every directory has its entry and no name is both file and directory: if and only if nothing but slashes follows where a name ends in an empty segment |
| ZipWalks.NamelessExamples | src/c_api/fs_context.cpp:267-371 | "a/", "a//" and "a/f" cannot be walked, "a//" and "a/f" alone can |
| ZipTree.ZipDirectoryIterator.constructor | src/backends/zip_backend.cpp:312-380 | the scan builds the listing |
| ZipTree.ZipDirectoryIterator.AddEntry | src/backends/zip_backend.cpp:412-439 | appends unless the name is already there |
| ZipTree.ListDirectory | src/backends/zip_backend.cpp:649-683 | the listing of the directory the path names, or why there is none |
| ZipTree.OpenFile | src/backends/zip_backend.cpp:531-562 | a handle on the entry, unless there is no such file or libzip fails to open it |
| ZipTree.CopyOut | src/c_api/fs_context.cpp:330-347 | the file on disk becomes what reading the entry to its end delivers, unless a call fails |
| ZipTree.ExtractedTwice | src/c_api/fs_context.cpp:267-371 | two extractions of disjoint entries, one after the other, are the extraction of both |
| ZipTree.ClashWasThere | src/c_api/fs_context.cpp:284-290 | extraction itself never puts anything in its own way |
| ZipTree.ExtractEntry | src/c_api/fs_context.cpp:278-367 | one listed entry: its file, or its directory with everything below; it fails only for a failed call or something in the way |
| ZipTree.ExtractDirectory | src/c_api/fs_context.cpp:282-315 | creates the directory unless something is there, and descends |
| ZipTree.ExtractFile | src/c_api/fs_context.cpp:316-347 | the file with its full content, created once |
| ZipTree.ExtractDirRecursive | src/c_api/fs_context.cpp:267-371 | ends on every archive, and succeeds only if the walk finds everything; on a well-formed one success means every entry below extracted, and failure a failed call or something in the way |
| ZipTree.ExtractAll | src/c_api/fs_context.cpp:862-911 | from the mount root: every file entry exactly once, at its own relative path, in full, every directory there, nothing else touched, unless a call fails or something is in the way; on any archive it ends, and it succeeds only under the condition of ReachesIff |
| ZipTargets.TargetsStayInside | src/c_api/fs_context.cpp:279-280 | no entry of a well-formed archive is written outside the destination |
| ZipTargets.TargetsAreApart | src/c_api/fs_context.cpp:279-280 | different entries have different places on the host |
| ZipTargets.TargetIs | src/c_api/fs_context.cpp:279-280 | any name, any destination: the host path as the destination's components, as far as the name does not climb out of them, and the name's |
| ZipTargets.InsideIff | src/c_api/fs_context.cpp:279-280 | an entry lands inside the destination if and only if its name comes back down into what it climbs out of, and further |
| ZipTargets.InsideEverywhere | src/c_api/fs_context.cpp:279-280 | a name stays inside every destination if and only if it leads somewhere and never climbs |
| ZipTargets.SameTargetIff | src/c_api/fs_context.cpp:279-280 | under one destination two names are one host file if and only if landing there leads both to the same components |
| ZipTargets.SameTargetBelow | src/c_api/fs_context.cpp:279-280 | names that do not climb do so, under any destination, if and only if they resolve alike |
| ZipTargets.SameTargetEverywhere | src/c_api/fs_context.cpp:279-280 | any two names do so under every destination if and only if they resolve alike |
| ZipTargets.DotsEscape | src/c_api/fs_context.cpp:279-280 | under "d", "../x" leads out, and "a/../x" is the file of "x" |
| Glob.DenotesConcat | src/cli/tebakofs.cpp:36-123 | a concatenated pattern denotes the names that split into a part for each side |
| Glob.EscapedMatchesItself | src/cli/tebakofs.cpp:110-119 | a text with every character escaped matches itself only |
| Glob.StarMatchesSuffix | src/cli/tebakofs.cpp:40-51 | a star before an escaped text matches exactly the names ending in it |
| Glob.IsTerminated | src/cli/tebakofs.cpp:61-77 | finds out whether the class has a closing bracket, scanning in bounds |
| Glob.MatchMembers | src/cli/tebakofs.cpp:89-103 | the member loop decides membership, ranges included, and stops at the closing bracket |
| Glob.MatchClass | src/cli/tebakofs.cpp:78-106 | membership, negation and the end of a terminated class |
| Glob.MatchOne | src/cli/tebakofs.cpp:52-119 | one pattern element against one character |
| Glob.MatchStar | src/cli/tebakofs.cpp:40-51 | runs of stars and backtracking decide the meaning of a star |
| Glob.WildcardMatch | src/cli/tebakofs.cpp:36-123 | ends on every pattern and name, and matches exactly the names the pattern denotes |
| GlobLaws.PatternIff | src/cli/tebakofs.cpp:36-123 | a pattern matches a name if and only if it is spelt in stars, question marks, escaped and plain characters, bracket expressions with single members and spans, unclosed brackets and a last backslash, and the name is cut into parts that fit these |
| GlobLaws.SpecialCharacters | src/cli/tebakofs.cpp:40-57 | "?" matches exactly the names of one character, "*" every name, a lone backslash none |
| GlobLaws.LiteralClass | src/cli/tebakofs.cpp:78-108 | a class of single members matches exactly the names of one of them |
| GlobLaws.RangeClass | src/cli/tebakofs.cpp:89-103 | a range matches exactly its first character and those between in the order of signed characters |
| GlobLaws.NegatedClass | src/cli/tebakofs.cpp:78-108 | with "!" exactly the names of one character that the class does not match without |
| GlobLaws.UnclosedBracket | src/cli/tebakofs.cpp:60-76 | a bracket that is never closed stands for itself |

## Left out

- libzip, libdwarfs_c, libsquashfs: foreign code; streams over fixed content with short reads and failures, and functions from paths to contents, stand in for them.
- SquashFS backend: its handle has the semantics of the DwarFS handle.
- Permissions, modification times, directory creation order, warnings on stderr and the wording of error messages: they do not influence the results modelled.
- Host path identity: paths are compared as texts where the code compares weakly canonical paths, so links, "." and ".." inside the paths given by the user and case folding are not seen; extraction targets of well-formed archives are distinct as paths too, links and case folding aside.
- NULL pointer arguments: references cannot be null here, except the bad descriptor, which is modelled.
- FsContexts.FsContext.Open: the contract asks for a free descriptor number, which the code does not check; without one the call does not return (`NoRoomNoEnd`).
- FsContexts.FsContext: directory iterators and file handles are values in the tables, since each is owned by exactly one entry; signed overflow of the descriptor counter past 2^31 is not modelled.
- FsState.Unmount: mutex waiting and thread-local errno; a run is a sequence of atomic calls with one errno.
- fstat, stat, is_mounted and the compat accessors: fstat dispatches by path again, so a deeper mount can redirect it; the rest reads single fields.
- dlmap2file: its cache outlives unmounts and host names use only the basename of the mount point.
- extract_all with several mounts: the single-mount branch is modelled, the other repeats it per mount.
- ZipTree.ExtractAll: what is written is promised for well-formed archives (distinct names, no empty, "." or ".." segment, own entry for every directory, no name both file and directory) whose sizes libzip reports; implicit directories are skipped by the iterator.
- ZipHandles.ZipFileHandle.Replay: stated for entries whose true size libzip reports, as `ZipDescriptors` is; for others it is false by `NativeIffSized`, and `Read`, `Pread` and `Seek` say what happens.
- PackageEdits.InsertThenRemoveLast: mount points are C strings, so they hold no NUL.
- Unbundling.Unbundle: what it leaves is stated for a package that does not itself lie in the directory under one of the names unbundling writes.
- ZIP mount, exists, is_file, is_directory, permissions and times: settled by reading the branches.
- ZipHandles.DwarfsFileHandle: dwarfs_c_pread delivers the whole range cut at the end of the file, or fails.
- JsonFormat: strict JSON conformance is not claimed; the parser accepts loose numbers and raw control characters and does not combine surrogate pairs, and nesting depth is not bounded by a stack.
- package_bundle, package_parse_image_spec, package_mkimage, shell_quote, find_on_path and argument parsing: easy members or plumbing.
- Path utilities without_leading_slash, with_trailing_slash and has_extension: settled by reading them.
- BackendRegistry and BackendFactory detection: create_from_file locks a mutex it already holds before the fallback, which leaves nothing to promise.
- Glob: the matcher is modelled for signed plain characters, as on the platforms that use it; POSIX fnmatch itself is foreign code.
