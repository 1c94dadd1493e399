# SSNES console extensions, modelled in Dafny

This project models the sequential logic of `console/console_ext.c`, the
console-port helpers of the SSNES emulator frontend:

- **ROM-extension lookup** (`ssnes_console_get_rom_ext`, `ssnes_console_set_rom_ext`):
  an ordered chain of case-sensitive substring tests on the identifier the
  linked libsnes core reports, falling back to a stored override truncated to
  the 1024-byte static buffer, and then to NULL (`rom_ext.dfy`).
- **Console name from the core identifier** (`ssnes_console_name_from_id`):
  whitespace becomes `_`, letters are lowered, into a caller buffer of a given
  size, with the empty string when the identifier is NULL or does not fit
  (`console_name.dfy`).
- **Keybind-name patch** (`ssnes_console_set_default_keybind_names_for_emulator`):
  seven slots of the keybind display-name table are relabelled for the
  Genesis Plus GX core (`keybinds.dfy`).
- **Zip extraction** (`ssnes_extract_currentfile_in_zip`, `ssnes_extract_zipfile`):
  the control flow of the per-entry extractor and of the archive driver
  (`zip_entry.dfy`, `zip_archive.dfy`). minizip and the C file functions are
  replaced by scripted answers (`unzip.dfy`): each entry is an `EntryScript`
  giving the status of `unzGetCurrentFileInfo`, `unzOpenCurrentFile` and
  `unzCloseCurrentFile`, whether `malloc` and `fopen` succeed, and the
  sequence of `unzReadCurrentFile` replies, each positive one carrying the
  chunk and whether its `fwrite` completed. The archive is an
  `ArchiveScript`: the `unzOpen` and `unzGetGlobalInfo` outcomes and one slot
  per entry with the status of the `unzGoToNextFile` after it. Results record
  the status, the destination file's contents, and the sequence of calls
  made, so resource handling can be stated as properties of that trace.

`cstring.dfy` gives the C library pieces the code relies on (ASCII `isspace`,
`isblank`, `tolower`, `strstr`, `strlcpy`, reading a NUL-terminated buffer);
`wrappers.dfy` holds `Option`, the stand-in for a pointer that may be NULL.
Each `char` of a `CStr` stands for one C byte; characters above 255 have no
C counterpart, so `strlen` and `strlcpy` lengths count `char`s.

The model follows the code as written: `unzOpen` is never checked,
a failed `unzGetGlobalInfo` is only logged, `unzClose` is never called, the
driver returns 0 on every path, `unzCloseCurrentFile` is called even when
`unzOpenCurrentFile` failed, and when `fopen` fails the entry's status is
whatever `unzCloseCurrentFile` returns (`FopenFailureIsSilent`,
`ArchiveIgnoresOpenAndGlobalInfo`, `ExtractArchive`).

The minizip status codes come from minizip's `unzip.h`, which is not part of
this model: `UNZ_OK` = 0, `UNZ_ERRNO` = -1, `UNZ_INTERNALERROR` = -104.

## Model

| member | source | states |
|---|---|---|
| CString.Strlcpy | console/console_ext.c:41 | what `strlcpy` leaves in a buffer of `size`: a prefix of the source, shorter than `size`, either the whole source or exactly `size - 1` characters |
| RomExt.SetRomExt | console/console_ext.c:37-42 | the stored override is a prefix of `ext` of at most 1023 characters, and equals `ext` when it fits |
| RomExt.GetRomExt | console/console_ext.c:44-70 | a returned list is never empty, and an identifier containing "SNES" always gets the SNES list whatever else it contains |
| RomExt.FirstMatch | console/console_ext.c:49-65 | the rule found matches the identifier and no earlier row of the table matches (first match wins); none is found exactly when no row matches |
| RomExt.GetRomExtFollowsTable | console/console_ext.c:49-69 | the lookup equals "first matching row of the priority table SNES, FCEU, VBA/Meteor, gambatte, FB Alpha, Genesis Plus GX; else the non-empty override; else NULL" |
| RomExt.GetRomExtNullIff | console/console_ext.c:66-69 | NULL is returned if and only if no row matches and the stored override is empty |
| RomExt.TableBeatsOverride | console/console_ext.c:49-67 | for an identifier the table knows, the stored override has no influence on the result |
| RomExt.SetThenGet | console/console_ext.c:39-67 | after setting a non-empty override, an identifier the table does not know gets that override back, truncated to 1023 characters |
| ConsoleName.Normalise | console/console_ext.c:86-93 | same length as the identifier, each character mapped by the whitespace/lowercase rule, and the result contains no whitespace and no upper-case letter |
| ConsoleName.NameFromId | console/console_ext.c:72-94 | size 0 leaves the buffer untouched; a NULL or too-long identifier writes only a terminator at index 0; otherwise position i holds `_` for whitespace and `tolower` otherwise, index `strlen(id)` holds the terminator, and nothing past the written extent changes |
| ConsoleName.NameReadsBack | console/console_ext.c:77-93 | read as a C string, the buffer holds the normalised identifier when it is shorter than size and the empty string otherwise |
| ConsoleName.NameIsClean | console/console_ext.c:78-93 | the resulting name has no whitespace or upper-case letter, is shorter than size, and is as long as an accepted identifier |
| ConsoleName.NormaliseIdempotent | console/console_ext.c:86-93 | normalising an already normalised name changes nothing |
| ConsoleName.NameFromIdStable | console/console_ext.c:84-93 | feeding a produced name back in as the identifier reproduces the same buffer |
| Keybinds.SetDefaultKeybindNames | console/console_ext.c:96-118 | without "Genesis Plus GX" in the id the table is unchanged; with it the B, A, X, Y, L, R and SELECT slots hold the listed labels (as `strlcpy` stores them) and every other slot is unchanged |
| Keybinds.OnlySevenSlotsChange | console/console_ext.c:101-117 | a slot that differs afterwards is one of the seven listed buttons, and the id contains "Genesis Plus GX" |
| Keybinds.PatchIdempotent | console/console_ext.c:101-117 | applying the patch twice gives the same table as applying it once |
| Keybinds.LabelsFitWideSlots | console/console_ext.c:103-116 | with slots of at least 12 characters every label is stored in full |
| Unzip.ReadCode | console/console_ext.c:171-178 | the `unzReadCurrentFile` result is positive exactly for a data chunk and negative exactly for a read error |
| ZipEntry.StopCode | console/console_ext.c:171-187 | the loop leaves with `UNZ_OK` exactly when it stopped at the end of the entry |
| ZipEntry.RunTransfer | console/console_ext.c:169-187 | the loop stops at the first reply that is not a positive read with a completed write; everything before it went into the file, as the in-order concatenation of the chunks; err is the negative read code, `UNZ_ERRNO` for an incomplete write, or 0 at the end of the entry |
| ZipEntry.TransferLoop | console/console_ext.c:169-187 | the do-while loop with its two breaks computes exactly the transfer RunTransfer characterises |
| ZipEntry.ExtractEntry | console/console_ext.c:121-204 | a failed entry-info lookup returns its code before any allocation; a failed malloc returns `UNZ_INTERNALERROR`; a destination file exists exactly when the buffer was allocated and `unzOpenCurrentFile` and `fopen` succeeded, and then holds the concatenation of the chunks read before the loop stopped |
| ZipEntry.EntryFreesBuffer | console/console_ext.c:137-202 | the buffer is freed exactly when it was allocated, exactly once, and free is the last call |
| ZipEntry.EntryClosesArchiveEntry | console/console_ext.c:153-200 | once the buffer is allocated, `unzCloseCurrentFile` is called exactly once and after the allocation, even when `unzOpenCurrentFile` failed; before that it is never called |
| ZipEntry.EntryClosesStream | console/console_ext.c:159-200 | the destination stream is closed exactly when it was opened, once, and before `unzCloseCurrentFile` |
| ZipEntry.FirstFailure | console/console_ext.c:193-203 | the code picked is `UNZ_OK` exactly when every step succeeded, and otherwise the earliest failing step's code |
| ZipEntry.EntryStatusIsFirstFailure | console/console_ext.c:127-203 | the status is the first non-`UNZ_OK` code in the order entry info, allocation, open, transfer loop (only once `fopen` succeeded), close |
| ZipEntry.EntrySuccessIff | console/console_ext.c:127-203 | the entry reports success exactly when allocation, open and close succeed and, if the file was opened, the loop reached the end of the entry |
| ZipEntry.FopenFailureIsSilent | console/console_ext.c:153-198 | when `fopen` fails after a successful open, no file exists and the status is `unzCloseCurrentFile`'s code, not an I/O error |
| ZipEntry.LoopErrorSurvivesClose | console/console_ext.c:171-200 | a negative read code is returned unchanged, an incomplete write yields `UNZ_ERRNO`, and only a clean end lets the close code through |
| ZipEntry.WholeEntryWritten | console/console_ext.c:169-198 | when all chunks up to the end of the entry are written, the file holds the whole entry and the status is the close code (an empty entry gives an empty file) |
| ZipArchive.Iterate | console/console_ext.c:215-229 | the loop from entry i runs the extractor at most once per remaining entry, and at least once when any remains |
| ZipArchive.IterateInOrder | console/console_ext.c:215-217 | the extractor runs on entries i, i+1, ... in archive order |
| ZipArchive.IterateStopsAtFailure | console/console_ext.c:215-229 | every run but the last succeeded and was followed by a successful `unzGoToNextFile`, and the loop ends before the last entry only after a failed extraction or advance |
| ZipArchive.IterateCalls | console/console_ext.c:215-229 | the loop's calls alternate extract and advance, and it advances after its last run exactly when that run succeeded and entries remain |
| ZipArchive.ExtractArchive | console/console_ext.c:206-232 | the driver returns 0, calls the extractor at most number_entry times, and starts with `unzOpen` and `unzGetGlobalInfo` |
| ZipArchive.ExtractZipfile | console/console_ext.c:206-232 | the counted loop with its two breaks computes exactly the run ExtractArchive describes |
| ZipArchive.ArchiveExtractsAll | console/console_ext.c:215-229 | when every entry extracts and every advance succeeds, every entry is extracted once, in order |
| ZipArchive.ArchiveStopsAtFirstFailure | console/console_ext.c:215-229 | if entry k is the first whose extraction or following advance fails, exactly entries 0..k were extracted and no later entry was attempted |
| ZipArchive.AdvanceAt | console/console_ext.c:220-222 | an advance call comes after a successful entry that is not the last one |
| ZipArchive.ArchiveAdvancesBetweenEntries | console/console_ext.c:215-229 | `unzGoToNextFile(j)` directly follows a successful extraction of entry j, only when j + 1 < number_entry, and is directly followed by the extraction of entry j + 1 if anything follows |
| ZipArchive.ArchiveIgnoresOpenAndGlobalInfo | console/console_ext.c:208-215 | neither `unzOpen`'s result nor `unzGetGlobalInfo`'s status changes what the driver does or returns |

## Left out

- Decompression and minizip's internals: every call into minizip is answered from a script.
- File I/O beyond success flags: the bytes of an `fwrite` that does not complete are not recorded, so the modelled file holds the completed chunks only.
- Destination path construction (console/console_ext.c:145-151): it is platform-specific `snprintf` and leaves the path uninitialised on other targets; the entry name and path are not modelled.
- Logging through `SSNES_ERR` and `SSNES_LOG`: no effect on the control flow.
- The 512 KiB buffer size: the chunk lengths minizip returns are not bounded by it in the model, since the size only caps what one read returns and no branch depends on it.
- Locale-dependent `isspace`, `isblank` and `tolower`: the model uses their ASCII meaning, and a negative `char` passed to them is not modelled.
- `snes_library_id()`: the identifier is a parameter of each operation. `strstr` on a NULL identifier in the ROM-extension lookup and the keybind patch is undefined behaviour in C and is not modelled; only `ssnes_console_name_from_id` handles NULL.
- The keybind table's slot width comes from `input/input_luts.h`, which is not part of this model; it is a parameter.
- Status codes are unbounded integers: C's 32-bit `int` wrap-around is never reached by the codes minizip returns.
- ZipArchive.Iterate: the `unsigned` loop counter would wrap for archives of 2^32 or more entries; the count is an unbounded natural number.
- The entry count read from an uninitialised `unz_global_info` when `unzGetGlobalInfo` fails is arbitrary; the model takes it to be the number of scripted slots.
- RomExt.GetRomExt: when the override is returned, the C function returns the `g_rom_ext` static buffer itself (console/console_ext.c:66-67), so a later `ssnes_console_set_rom_ext` changes the string an earlier caller still holds; the model returns the override as a value, not as an alias of that buffer.
- A NULL archive handle from `unzOpen`: `ArchiveScript.handleOk` records it, but the driver never reads it; a NULL handle makes every later minizip call fail, and the slots' scripted answers express those failures.
- Archive close and directory creation: the code does neither, so the model does not either.
