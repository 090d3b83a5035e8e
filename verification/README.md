# Verified models of the plugin loader's core code

A Dafny 4.11 project that models the parts of this repository where a mistake is silent, and proves what they promise.
`dafny verify dfyconfig.toml` checks all of it.

- **Instruction decoder** (`Bytes`, `Table64`, `Hde64Spec`, `Hde64`, `Hde64Proofs`, `Hde64Jumps`, `Hde64Maps`,
  `Hde64Prefixes`, `Hde64Errors`, `Hde64Address`, `Hde64Locks`): the table-driven x86-64 length decoder as cursor-moving methods, against a staged specification; the opcode table byte by byte.
- **Hook engine** (`Memory`, `Patterns`, `Jumps`, `Trampolines`, `Prologue`, `Detours`, `Patching`): pattern search, jump patches,
  the trampolines made from padding and the code cave, on a memory of 2^64 bytes; the class `Patching.Process` patches
  in place.
- **INI store** (`IniText`, `IniStore`, `IniFormat`, `IniLines`, `IniRoundTrip`, `IniFile`): the nested linked lists as classes that
  refine an ordered store, its laws, and the parse and print round trip.
- **Bounded text transformers** (`Buffers`, `Ctype`, `Rewrite`, `XmlEscape`, `TitleId`, `UsbScan`).
- **Stream and session machines** (`Fanout`, `ReadLine`, `Upload`): every system call result is an input, so the
  theorems hold for every run.
- **String ids** (`StringId`): FNV-1a modulo 2^64.

Methods follow the code step by step and are proved equal to specification functions. The lemmas about those functions
that say what an answer is use the input alone: bytes, table entries, turns of a script, characters of a line. Statements `hide F` keep a definition out of one proof.

## What the proofs found

- The decoder reads the two immediates of ENTER, and of no other instruction, into one union: the low byte of the frame
  size is lost. It takes 0f f6 and 0f f7 with register field 0 or 1 for the group that has an immediate: PSADBW and
  MASKMOVQ come out one byte, and two or four bytes, too long. It reads an eight-byte offset for a0 to a3 also behind
  67, and lets 66 win over REX.W. Behind 67 it sizes displacements as 16-bit addressing would: jmp [eip + disp32] comes
  out four bytes too short. It takes 0f 00 for a one-byte opcode when it looks up the lock table, so LOCK 0f 00 on
  memory passes.
- The cave check counts 6 bytes of the 14 that follow a relocated prologue, so the last block can end 8 bytes beyond the
  cave, and 216 near jumps make it do so.
- `str_replace` in line mode stops one character early at a last line without line feed. The start of the line is
  computed there and never used: what precedes the match stays, contrary to the mode's name.
- The comment above `extract_title_id` describes nine characters as 4 letters and 5 digits and calls them 10; the code
  asks for ten letters or digits. The model follows the code; a package named after its nine-character id yields none.
- `scan_dir_recursive` raises `overflow` for a complete list too, when a directory is entered behind exactly 1024 files.
- `serve_file_while_connected` returns from a select error without closing its clients. It does not wait for its first
  client: a first select that times out ends it with success, since `continue` tests the empty count, and so does one
  that finds a byte and nobody waiting; that byte is lost. Its one caller (lines 233 to 245) waits for a connection
  first, so this takes a connection that is withdrawn in between.
- A recv error in STOR becomes the largest `size_t`; `write` refuses it with -1, the two compare equal, and the transfer
  goes on with the offset one lower. RETR ignores the offset of REST and leaves it to the next upload. APPE refuses a
  missing file.
- `ftp_readline` does not terminate a line that ends with a bare line feed: bytes of an earlier part that a carriage
  return ended, or what realloc left, can follow it.
- Only the first semicolon of a line is looked at, and then the first hash: a quoted semicolon keeps the comment behind
  it in the value, and a hash comment with a semicolon in it leaves its beginning there. An indented section header
  gives a name that begins with its bracket.
- A load drops the comments before a section header, and a name of 256 bytes or more is stored cut and not found again.

## Model

| member | source | states |
|---|---|---|
| `Table64.ShippedTable` | common/HDE/Table64.h:30-81 | the shipped 529-byte table is well formed: every index the decoder can compute, through all groups and sections, stays inside it, no class names two immediates that share a flag, and only ENTER names two at all |
| `Table64.ShippedMaps` | common/HDE/Table64.h:30-81 | its prefix, lock and memory-only sections say what the theorems on 0f f6, 0f f7 and 0f 00 need |
| `Hde64.Disasm` | common/HDE/HDE64.c:13-459 | the decoder, with its moving cursor, prefix loop, table walks and jumps, returns exactly the record the staged specification gives, for every byte stream and every well-formed table |
| `Hde64.ReadPrefixes` | common/HDE/HDE64.c:15-62 | the prefix loop: at most sixteen prefixes, the last of a kind kept, and the character it stops at |
| `Hde64.LookUp` | common/HDE/HDE64.c:102-132 | the opcode class with its group mask, the opcode errors and the prefixes a two-byte opcode refuses |
| `Hde64.WalkPairs` | common/HDE/HDE64.c:172-202 | the stride-2 walk over the LOCK tables stops at the first entry of the opcode or exactly at the end of its section |
| `Hde64.WalkTriples` | common/HDE/HDE64.c:258-286 | the stride-3 walk over the memory-only tables stops at the first entry of the opcode or exactly at the end of its section |
| `Hde64.ReadModrmStage` | common/HDE/HDE64.c:134-391 | ModRM, SIB and displacement with the lock, FPU and operand errors, including the step over one byte and back around lines 319 and 371 |
| `Hde64.ReadImmediates` | common/HDE/HDE64.c:393-450 | the immediates and relative operands with their gotos, the union overwritten where two are read |
| `Hde64Proofs.Locality` | common/HDE/HDE64.c:13-459 | the record depends only on the bytes it says it consumed, for every result without a length error, despite the REX peek and the lookahead |
| `Hde64Proofs.PrefixFree` | common/HDE/HDE64.c:13-459 | no valid encoding is a proper prefix of another one |
| `Hde64Proofs.LengthBounds` | common/HDE/HDE64.c:450-458 | every input yields a length from 1 to 15, and the cursor stays below 256 so the cast to uint8 never wraps |
| `Hde64Proofs.LengthAccounting` | common/HDE/HDE64.c:13-459 | without an error the length is prefixes + REX + opcode + ModRM + SIB + the displacement and immediate sizes the flags name |
| `Hde64Proofs.Layout` | common/HDE/HDE64.c:13-459 | without an error the record, written out again in instruction order, gives back the consumed bytes behind the prefixes, and its prefix fields and bit fields agree with them |
| `Hde64Proofs.OverlapIsEnter` | common/HDE/HDE64.c:424-435 | without an error two immediates meet in the union if and only if the opcode byte behind prefixes and REX is c8, ENTER |
| `Hde64Proofs.RecordTellsBytes` | common/HDE/HDE64.c:13-459 | two streams with the same error-free record have the same bytes behind equally many prefixes, unless that opcode byte is c8 |
| `Hde64Proofs.OverlapHidesByte` | common/HDE/HDE64.c:424-435 | with opcode c8 the first byte of the operand has no influence on the record: it cannot be recovered |
| `Hde64Jumps.NearJump` | common/HDE/HDE64.c:13-459 | e8 and e9 decode to length 5, the 32-bit operand as relative immediate, and nothing else set |
| `Hde64Jumps.IndirectJump` | common/HDE/HDE64.c:13-459 | ff 25 decodes to length 6 with the 32-bit displacement and nothing else set |
| `Hde64Jumps.Enter` | common/HDE/HDE64.c:424-435 | ENTER without prefixes decodes to length 4, and the union holds the high byte of its first operand and the second operand |
| `Hde64Maps.ImmediateRule` | common/HDE/HDE64.c:84-450 | the immediate of every error-free instruction of both maps, with any prefixes and operands, has the size that its class and the rules for operand and address size give, if and only if it is not 0f f6 or 0f f7 with register field 0 or 1, not a0 to a3 behind 67, and not an operand-sized immediate behind both 66 and REX.W; the conditions are on the bytes, and the wrong sizes are given |
| `Hde64Maps.TwoByteImmediate` | common/HDE/HDE64.c:319-450 | on any well-formed table, an error-free instruction of the 0f map has the immediate its class names, if and only if it is not 0f f6 or 0f f7 with register field 0 or 1; those get 1 byte, and 2 or 4 by the operand size, too many |
| `Hde64Maps.RelativeRule` | common/HDE/HDE64.c:393-448 | the immediate of an error-free instruction is flagged relative exactly when its class names a jump displacement |
| `Hde64Address.AddressRule` | common/HDE/HDE64.c:319-386 | for every error-free instruction, on its bytes: a ModRM byte is read exactly when the class asks for one; a SIB byte follows exactly when mod is not 3 and rm is 4 (moves to and from control and debug registers count as mod 3); the displacement stands behind them and has the size of tables 2-2 and 2-3 of the Intel SDM, volume 2, if and only if the instruction is not behind 67 with mod 0 and rm 5 or 6, or mod 2 and no SIB base of 5; those get the sizes of 16-bit addressing |
| `Hde64Address.EipJumpIsTooShort` | common/HDE/HDE64.c:332-346 | 67 ff 25, seven bytes long, decodes to three, with the shipped table without an error |
| `Hde64Prefixes.PrefixRule` | common/HDE/HDE64.c:15-62 | for every error-free instruction: the prefixes are its leading bytes of the eleven values, fewer than fifteen; a prefix flag is raised exactly when such a byte is among them, and each prefix field holds the last byte of its kind, or 0 |
| `Hde64Errors.ErrorRule` | common/HDE/HDE64.c:102-317 | with the entries of the shipped table, for every instruction with at most fifteen prefixes and one REX byte: each error flag is raised if and only if its condition on the bytes and the table entries holds: class, refused prefix, group mask and x87 masks as C shifts them; first lock table entry; system registers that do not exist; first memory-only entry; more than fifteen bytes |
| `Hde64Errors.NoErrorIff` | common/HDE/HDE64.c:13-459 | so, with that table, exactly which byte streams the decoder takes for valid instructions |
| `Hde64Locks.LockRule` | common/HDE/HDE64.c:166-203 | with the shipped table LOCK draws its error if and only if the instruction is not a memory form on the list of the Intel SDM (volume 2, LOCK) and of the 82 and 83 group; the second opcode byte 0 asks the list of the one-byte map |
| `Hde64Locks.ShippedLocks` | common/HDE/Table64.h:30-81 | the lock sections of the shipped table are the ones that theorem speaks of |
| `Hde64Maps.OffsetMoveIsTooLong` | common/HDE/HDE64.c:89-100 | 67 a1, six bytes long, decodes to ten without an error |
| `Hde64Maps.WideAddIsTooShort` | common/HDE/HDE64.c:393-422 | 66 48 05, seven bytes long, decodes to five without an error |
| `Hde64Maps.MmxIsTooLong` | common/HDE/HDE64.c:319-330 | PSADBW and MASKMOVQ on such registers decode to 4 and 7 bytes instead of 3, with the shipped table without an error |
| `Hde64Maps.LockedTwoByte` | common/HDE/HDE64.c:166-203 | a locked memory form of the 0f map is refused by the lock table of the one-byte map if its second opcode byte is 0, by that of the 0f map otherwise |
| `Hde64Maps.LockVerdict` | common/HDE/HDE64.c:166-203 | with the shipped table the verdict is that of the 0f map if and only if the second opcode byte is not 0; LOCK 0f 00 is never refused |
| `Hde64Maps.LockedSldt` | common/HDE/HDE64.c:125-203 | LOCK SLDT and its neighbours with a memory operand decode without an error |
| `Patterns.PatternToByte` | common/memory.c:22-45 | the token loop gives the bytes of the specification, wildcards as 0xff |
| `Patterns.PatternRoundTrip` | common/memory.c:22-45 | for any list of tokens (one or two hex digits in either case, ?, or ??) separated by single spaces, parsing the printed text gives the list back |
| `Patterns.FirstMatch` | common/memory.c:73-90 | the result is the least index whose window matches, 0xff matching anything, or the size when there is none |
| `Patterns.PatternScan` | common/memory.c:57-91 | the two loops return base + least match + offset modulo 2^64, and 0 for no match, a zero base or size, or an empty or overlong pattern |
| `Patterns.ScanFindsFirst` | common/memory.c:57-91 | in terms of bytes alone: the first place of the module where no pattern byte but 0xff differs, moved by the offset; 0 when every place differs, and for a zero base, a zero size, an empty pattern or one of 512 bytes and more |
| `Jumps.Jump32Written` | common/memory.c:95-109 | WriteJump32 leaves e8 for a call and e9 for a jump, with the displacement modulo 2^32 |
| `Jumps.Jump32Frame` | common/memory.c:95-109 | it changes no byte outside the patched length |
| `Jumps.Jump32Padded` | common/memory.c:101-104 | behind the five bytes a patch of up to 8 KiB is filled with 90 to its end, a longer one is left alone |
| `Jumps.Jump64Written` | common/memory.c:116-124 | WriteJump64 leaves ff 25 00000000 and the destination |
| `Jumps.Jump64Frame` | common/memory.c:116-124 | it changes no byte outside its 14 |
| `Jumps.ReachIsDistance` | common/memory.c:105-105 | the jump reaches exactly when the distance modulo 2^64 fits a signed 32-bit number |
| `Jumps.ReadLeaTarget` | common/memory.c:131-155 | ReadLEA32 answers the address moved by offset, opcode size and the signed displacement, modulo 2^64, and 0 for a null address |
| `Jumps.ReadLeaInvertsWriteJump` | common/memory.c:95-155 | ReadLEA32(src, 0, 1, 5) gives the destination back after WriteJump32 if and only if the distance fits a signed 32-bit number |
| `Jumps.JumpGoes` | common/memory.c:95-109 | decoding and executing a reachable patch transfers control to its destination; it decodes to length 5 with the matching immediate |
| `Jumps.StubGoes` | common/memory.c:116-124 | decoding and executing the stub transfers control to the stored address; it decodes to length 6 with displacement 0 |
| `Trampolines.Ud2Signature` | common/memory.c:159-159 | the first signature text is ud2 and fourteen nops |
| `Trampolines.RetSignature` | common/memory.c:162-162 | the second signature text is ret and the fifteen-byte nop |
| `Trampolines.PaddingFresh` | common/memory.c:157-164 | the padding either signature selects overlaps no stub and no source jump of a hook that is installed, cross overlaps of the two signatures included |
| `Trampolines.InstallIff` | common/memory.c:157-175 | a call adds a trampoline if and only if some window of the segment holds one of the two signatures; it takes the first ud2 window, and without any the first ret window, two bytes and one byte behind its start |
| `Trampolines.InstallKeepsWorking` | common/memory.c:157-175 | a call that finds padding adds a working hook and leaves every earlier one intact and apart |
| `Trampolines.RunKeepsWorking` | common/memory.c:157-175 | over any run of calls whose source sites are apart, every hook present at any time is intact at the end |
| `Trampolines.HookReaches` | common/memory.c:157-175 | executing the source site of a hook and then its stub reaches the destination |
| `Trampolines.RunOfHooksReaches` | common/memory.c:157-175 | after any admissible run on a fresh segment every installed hook reaches its destination |
| `Prologue.BoundaryIsSum` | common/memory.c:558-581 | the boundary found is the sum of the decoded lengths |
| `Prologue.BoundaryIs` | common/memory.c:558-581 | for any walk over valid instructions that covers min bytes with its last one the result is the end of the walk; for one that meets an undefined instruction before, it is 0 |
| `Prologue.CopyKeepsLengths` | common/memory.c:558-581 | bytes equal up to the boundary decode to the same lengths and the same boundary |
| `Prologue.RelocatedPrologue` | common/memory.c:617-643 | decoding from the cave address gives the length sequence of the original prologue and then the 6-byte jump to address + int_size, with int_size >= min |
| `Prologue.HookVerdict` | common/memory.c:608-643 | a call puts a block into the cave if and only if the address is not null, min is at least 5, whole valid instructions cover it, and used bytes plus instructions plus 6 are at most 4096; the block is that walk, at the end of the used part, and 14 bytes follow it; otherwise 0 is returned and nothing changes |
| `Prologue.HookKeepsCave` | common/memory.c:617-643 | one call keeps the cave good: blocks contiguous and disjoint, earlier ones unchanged, at most 8 bytes beyond MAX_CAVE_SIZE in use |
| `Prologue.HooksKeepCave` | common/memory.c:617-643 | so does any run of calls |
| `Prologue.RunLeavesIff` | common/memory.c:608-643 | a run of hooks on a cave that has not been left takes it past its end if and only if, before some call, what is used and the instructions to copy come to more than 4082 and at most 4090 bytes: the check counts 6 bytes of a 14-byte tail |
| `Prologue.FullCaveStays` | common/memory.c:608-643 | once that has happened every later call is refused and changes nothing |
| `Prologue.OnlyLastLeaves` | common/memory.c:608-643 | so every block but the last lies inside the cave |
| `Prologue.CaveOverruns` | common/memory.c:608-643 | it does happen, and the bound is attained: 216 hooks of a function that starts with a near jump, on an empty cave, are all accepted and use MAX_CAVE_SIZE + 8 bytes |
| `Prologue.AcceptsNearJumps` | common/memory.c:558-581 | a prologue that is three near jumps is accepted with 15 bytes, so the conditions below can be met |
| `Prologue.Detour` | common/memory.c:617-643 | patching the hooked function with a 64-bit jump reaches the replacement, while the relocated prologue still runs and returns behind the patch |
| `Detours.TextDetour` | common/memory.c:157-175 | so does patching it with Make32to64Jmp, the way the hooks of the repository are made: the function reaches the replacement through its stub, and the relocated prologue still runs and returns behind the patch |
| `Detours.PairsKeep` | common/memory.c:157-175 | over any run of such pairs on one text and one cave the cave stays good, every trampoline works and has a relocated prologue, and no earlier trampoline or block is lost |
| `Detours.PairsReach` | common/memory.c:157-175 | at the end of any such run every hooked function reaches its replacement, and every relocated prologue is intact and returns behind its instructions |
| `Patching.Process.CreatePrologueHook` | common/memory.c:617-643 | the method moves memory, caveInstSize and result as the specification says, keeps the cave invariant and every earlier block |
| `Patching.Process.GetInstructionSize` | common/memory.c:558-581 | the decode loop returns the boundary, or 0 at a decode error or a null address |
| `Patching.Process.Make32to64Jmp` | common/memory.c:157-175 | memory after the call is the one of the specification and src_out is the target the call had before |
| `Patching.Process.WriteJump32` | common/memory.c:95-109 | the stores give the memory of the specification |
| `Patching.Process.WriteJump64` | common/memory.c:120-124 | the stores give the memory of the specification |
| `Patching.Process.CaveBlockInit` | common/memory.c:587-607 | the first call fills the cave with int3, later ones change nothing |
| `IniText.TrimWhitespace` | common/ini.c:8-30 | the two cursors give the trimmed string |
| `IniText.TrimAround` | common/ini.c:8-30 | trimming removes what was put around a trimmed string and nothing else |
| `IniText.ExtractCommentLoop` | common/ini.c:32-62 | the quote scan and cut give the split of the specification |
| `IniLines.QuoteParity` | common/ini.c:40-57 | the scan finds a quote open at a mark if and only if an odd number of quotes without a backslash in front stands before it |
| `IniLines.SplitIff` | common/ini.c:227-233 | where any line is divided: at its first ; if that is not quoted, else at its first # if that is not quoted, else nowhere; the comment is what is written behind the mark |
| `IniLines.InlineMark` | common/ini.c:32-62 | behind text without marks and quotes either mark starts a comment, # only when no ; comes later |
| `IniLines.QuotedMark` | common/ini.c:40-57 | a mark inside quotes does not divide the line |
| `IniLines.QuotedSemicolonHides` | common/ini.c:32-62 | a quoted ; hides every later one: the comment behind it stays in the value |
| `IniLines.HashThenSemicolon` | common/ini.c:227-233 | a # comment with a ; in it is divided at the ;, and its beginning stays in the value |
| `IniLines.CommentOnItsOwn` | common/ini.c:214-218 | for any store: blanks, ; or #, blanks and a text add that text, cut to 511, to the waiting comments, and change nothing else |
| `IniLines.BlankLine` | common/ini.c:220-223 | a blank line adds an empty one |
| `IniLines.KeyOnItsLine` | common/ini.c:260-298 | for any store with a section and any line: key and value are the trimmed texts around the first = of what is left of the line, cut to their buffers, with the divided comment and the waiting comments, which no longer wait |
| `IniLines.OtherLine` | common/ini.c:260-298 | a line without = in front of its comment, or in front of any section, changes nothing |
| `IniLines.HeaderOnItsLine` | common/ini.c:225-258 | for any line with a bracket first: a section named by the trimmed text from its second character to the first ] in front of the comment; an indented header has a name that begins with a bracket |
| `IniLines.OpenBracket` | common/ini.c:225-258 | a bracket that is not closed in front of the comment starts no section |
| `IniStore.GetAfterSet` | common/ini.c:428-493 | ini_get after ini_set answers the value cut to 511 bytes when both names are shorter than 256, and NULL otherwise: a longer name is stored cut and never found |
| `IniStore.GetIff` | common/ini.c:428-448 | ini_get answers a value if and only if it is that of the first key of the name in the first section of the name |
| `IniStore.SetExistingKey` | common/ini.c:455-493 | a key that is there keeps its place and the comments in front of it; its own comment stays unless one is given, which is stored cut |
| `IniStore.SetNewKey` | common/ini.c:455-493 | a new key comes first in its section |
| `IniStore.SetNewSection` | common/ini.c:455-493 | a new section comes first, with that key alone |
| `IniStore.DeleteKeyUndoesSet` | common/ini.c:455-576 | deleting a key that a set has created gives the store back |
| `IniStore.DeleteSectionUndoesSet` | common/ini.c:455-620 | so does deleting a section that a set has created |
| `IniStore.DeleteKeyIs` | common/ini.c:539-576 | a delete takes out the first key of the name and nothing else, and changes nothing without one |
| `IniStore.DeleteSectionIs` | common/ini.c:578-620 | a deleted section is the first of the name; nothing else changes |
| `IniStore.CommentIsLast` | common/ini.c:495-518 | a comment comes last among those of the file, or of the first section of the name; nothing else changes |
| `IniStore.SectionCommentIsReplaced` | common/ini.c:520-537 | the comment of the first section of the name is replaced; nothing else changes |
| `IniStore.SetFrame` | common/ini.c:455-493 | every other answer of ini_get is unchanged by a set whose names fit |
| `IniStore.SetKeepsDistinct` | common/ini.c:455-493 | distinct section and key names stay distinct |
| `IniStore.SetKeepsNames` | common/ini.c:126-176 | stored names keep fitting their buffers |
| `IniStore.GetAfterDeleteKey` | common/ini.c:539-576 | after ini_delete_key the answer is NULL exactly when the section did not hold the key a second time |
| `IniStore.DeleteKeyFrame` | common/ini.c:539-576 | every other answer is unchanged by it |
| `IniStore.DeleteKeyKeepsDistinct` | common/ini.c:539-576 | with distinct names the key is gone and names stay distinct |
| `IniStore.DeleteSectionKeepsDistinct` | common/ini.c:578-620 | ini_delete_section keeps names distinct |
| `IniStore.DeleteSectionFrame` | common/ini.c:578-620 | with distinct names it forgets the entries of that section and no other |
| `IniFormat.LoadedNamesFit` | common/ini.c:178-305 | names in a loaded store fit their buffers, whatever the file holds |
| `IniFormat.Taken` | common/ini.c:207-207 | one fgets takes up to 1023 characters, to the first line feed, or to the end |
| `IniText.UpToBreak` | common/ini.c:209-209 | what is kept of them ends before the first CR, LF or NUL |
| `IniFormat.ParsePrintedLines` | common/ini.c:207-209 | a text of whole lines is read line by line by fgets and strcspn |
| `IniFormat.FileInPieces` | common/ini.c:207-303 | any file, with lines of any length and an unfinished last one, is parsed piece by piece: at most 1023 characters up to a line feed or the end, each up to its first break |
| `IniFormat.PiecesExist` | common/ini.c:207-209 | every file divides into such pieces |
| `IniFormat.ParseHeaderLine` | common/ini.c:225-258 | parsing a printed section header makes that section, and drops the comments that waited for it |
| `IniFormat.ParseKeyLine` | common/ini.c:260-298 | parsing a printed key line makes that key, with the waiting comments as its own |
| `IniFormat.ParseCommentLine` | common/ini.c:214-223 | parsing a printed comment or blank line adds it to the waiting comments |
| `IniRoundTrip.LoadOfSave` | common/ini.c:178-426 | for every well-formed store, ini_load of what ini_save printed is the reloaded store, stated exactly |
| `IniRoundTrip.OneCycle` | common/ini.c:178-426 | one save and load keep every section and key with value, inline comment and key comments, in reversed order |
| `IniRoundTrip.TwoCycles` | common/ini.c:178-426 | two cycles restore the exact order |
| `IniRoundTrip.GetAfterCycle` | common/ini.c:178-448 | with distinct names no answer of ini_get changes over a cycle, and names stay distinct |
| `IniRoundTrip.SetKeepsWellFormed` | common/ini.c:455-493 | setting a key to texts the file format can hold, on a line that fits, keeps a well-formed store well formed |
| `IniRoundTrip.SettingSurvives` | common/ini.c:178-493 | such a value set in a well-formed store with distinct names, saved and loaded again, is the answer of ini_get |
| `IniFile.Section.Find` | common/ini.c:145-157 | find_key on the linked list gives the first key of that name |
| `IniFile.Section.Create` | common/ini.c:159-176 | create_key puts the key in front and keeps the list linked without cycle |
| `IniFile.Section.Delete` | common/ini.c:550-575 | the two-cursor loop unlinks exactly the first key of that name and returns whether there was one |
| `IniFile.INIFile.constructor` | common/ini.c:186-197 | a new file is empty and not modified |
| `IniFile.INIFile.Find` | common/ini.c:112-124 | find_section on the linked list gives the first section of that name |
| `IniFile.INIFile.CreateSection` | common/ini.c:126-143 | create_section puts the section in front |
| `IniFile.INIFile.Lookup` | common/ini.c:428-448 | ini_get on the nested lists is Get on the contents |
| `IniFile.INIFile.SetWithComment` | common/ini.c:450-493 | ini_set and ini_set_with_comment act on the nested lists as Set on the contents, keep both levels linked without cycles or sharing, and raise the flag |
| `IniFile.INIFile.AddComment` | common/ini.c:495-518 | ini_add_comment acts as specified; 0 exactly for a missing section, and only otherwise the flag is raised |
| `IniFile.INIFile.AddSectionComment` | common/ini.c:520-537 | ini_add_section_comment acts as specified; 0 exactly for a missing section, and only otherwise the flag is raised |
| `IniFile.INIFile.DeleteKey` | common/ini.c:539-576 | ini_delete_key acts as specified; 1 exactly when ini_get had an answer, and only then the flag is raised |
| `IniFile.INIFile.DeleteSection` | common/ini.c:578-620 | ini_delete_section acts as specified; 1 exactly for a section that was there, and only then the flag is raised |
| `IniFile.INIFile.Load` | common/ini.c:178-305 | the load loop with its current section and pending comments builds lists whose contents are Load of the file |
| `IniFile.INIFile.LoadLine` | common/ini.c:213-302 | the body of the loop acts as ParseLine on any line |
| `IniFile.INIFile.LoadHeader` | common/ini.c:230-258 | the header branch acts as ParseHeader |
| `IniFile.INIFile.LoadKey` | common/ini.c:260-299 | the key branch acts as ParseKey |
| `IniFile.INIFile.Save` | common/ini.c:338-426 | walking the nested lists writes Print of the contents and clears the flag; nothing happens when the file does not open |
| `Rewrite.StrReplace` | plugin_mono/source/shellui_patch/settings_menu.c:37-130 | for every mode and non-empty search text the loop ends and leaves exactly the bounded rewrite and its terminator in the buffer, the rest of it untouched |
| `Rewrite.Turn` | plugin_mono/source/shellui_patch/settings_menu.c:44-125 | one turn writes, advances or stops as the specification says, in every mode |
| `Rewrite.BoundedIsPrefix` | plugin_mono/source/shellui_patch/settings_menu.c:37-130 | the buffer always holds a prefix of the unbounded rewrite |
| `Rewrite.StopsWhenFull` | plugin_mono/source/shellui_patch/settings_menu.c:44-126 | where the rewrite is broken off the buffer is full, or a match stands whose text would not leave one more byte free; everything before is rewritten in full |
| `Rewrite.OtherCopies` | plugin_mono/source/shellui_patch/settings_menu.c:116-119 | an unknown mode copies the input |
| `Rewrite.WholeWhenItFits` | plugin_mono/source/shellui_patch/settings_menu.c:37-130 | a rewrite shorter than output_size - 1 comes out whole, except in line mode when it is one character shorter than that, the replacement is not empty and the last line, without a line feed, has a match; exactly then it does not |
| `Rewrite.LineModeStopsEarly` | plugin_mono/source/shellui_patch/settings_menu.c:83-115 | a concrete rewrite that fits and is cut |
| `Rewrite.InsertIsReplace` | plugin_mono/source/shellui_patch/settings_menu.c:59-81 | inserting before or after a match equals replacing it by the two texts together, also when the buffer cuts it |
| `Rewrite.SplitExists` | plugin_mono/source/shellui_patch/settings_menu.c:42-58 | every text splits at the leftmost occurrences that do not overlap |
| `Rewrite.JoinOfSplit` | plugin_mono/source/shellui_patch/settings_menu.c:42-58 | joining that split with the search text gives the text back |
| `Rewrite.ReplaceIsJoin` | plugin_mono/source/shellui_patch/settings_menu.c:42-58 | the match mode is the join of that split with the replacement |
| `Rewrite.LineModeByLines` | plugin_mono/source/shellui_patch/settings_menu.c:83-115 | the line mode edits the lines one by one: from the first match to the end of the line, what precedes it stays |
| `Rewrite.LineModeAtMatch` | plugin_mono/source/shellui_patch/settings_menu.c:84-114 | for any search text, line feeds included: what stands before the first match is kept, the rest of its line gives way to the replacement, and the rewrite goes on behind the line feed |
| `XmlEscape.EscapeInto` | plugin_mono/source/pkg_broswer.c:141-159 | the loop leaves the escape of a prefix of the input and a terminator, less than out_sz characters, the rest of the buffer untouched |
| `XmlEscape.CutIsFirst` | plugin_mono/source/pkg_broswer.c:146-146 | the cut is between two entities, at the first character that finds less than seven bytes free |
| `XmlEscape.WholeIff` | plugin_mono/source/pkg_broswer.c:146-146 | the whole input is escaped if and only if its last character still finds seven bytes free |
| `XmlEscape.SixTimesIsEnough` | plugin_mono/source/pkg_broswer.c:141-159 | a buffer of more than six times the input holds all of it |
| `XmlEscape.UnescapeAfterEscape` | plugin_mono/source/pkg_broswer.c:148-156 | an XML reader gets the input back from its escape and what follows is not touched (section 4.6 of XML 1.0) |
| `XmlEscape.BufferReadsBack` | plugin_mono/source/pkg_broswer.c:141-159 | whatever the buffer size, it reads back to a prefix of the input |
| `XmlEscape.NoMarkupLeft` | plugin_mono/source/pkg_broswer.c:148-156 | no angle bracket and no quote is left in an escape |
| `XmlEscape.PageHoldsEverything` | plugin_mono/source/pkg_broswer.c:284-302 | the path, title and description buffers of a list entry truncate nothing, and the description reads back to path and size on two lines |
| `TitleId.SearchIsFirstRun` | plugin_mono/source/pkg_broswer.c:80-125 | the window and neighbour tests, from any position outside a run, find the first maximal run of upper-case letters and digits that has length 10 and starts with C, P or U |
| `TitleId.ExtractTitleId` | plugin_mono/source/pkg_broswer.c:75-125 | the result is that run cut to the buffer, or empty when there is none or the buffer has fewer than two bytes |
| `TitleId.TestWindow` | plugin_mono/source/pkg_broswer.c:84-113 | the tests at one position |
| `TitleId.TitleIdIs` | plugin_mono/source/pkg_broswer.c:80-125 | the id is the ten characters at the first position where ten upper-case letters or digits stand alone and the first is C, P or U; empty when there is none |
| `TitleId.NineIsNoTitleId` | plugin_mono/source/pkg_broswer.c:70-125 | a package named after an id of nine characters, as the comment describes it, yields none |
| `UsbScan.ScanDirRecursive` | plugin_mono/source/pkg_broswer.c:185-222 | the recursion with its mutated list moves count, entries and overflow as the events of the tree in preorder say |
| `UsbScan.RunIsLimit` | plugin_mono/source/pkg_broswer.c:185-222 | the list is the first 1024 packages; the flag is up exactly when there are more, or when a directory is entered behind exactly 1024 |
| `UsbScan.PackagesOfDir` | plugin_mono/source/pkg_broswer.c:185-222 | what the bounded scan comes by is the preorder list of the package files |
| `UsbScan.ListedIff` | plugin_mono/source/pkg_broswer.c:185-222 | a file is in that list if and only if a chain of opening, not skipped directories of depth at most 12 leads to it |
| `UsbScan.ListedRule` | plugin_mono/source/pkg_broswer.c:185-222 | a record is in the list if and only if some chain of opening directories, none of the four names, at most twelve levels down, leads to a package file, and it holds the joined path, the title id of the file name and its size |
| `UsbScan.RootNames` | plugin_mono/source/pkg_broswer.c:228-244 | the roots are the eight sticks and eight partitions of each |
| `UsbScan.RootsDiffer` | plugin_mono/source/pkg_broswer.c:228-244 | no two of the 72 are the same |
| `UsbScan.ScanAllUsb` | plugin_mono/source/pkg_broswer.c:224-246 | over all 72 roots: the first 1024 packages, complete when the flag is down, and the exact condition for the flag |
| `UsbScan.FlagOnCompleteList` | plugin_mono/source/pkg_broswer.c:185-222 | for every directory with exactly 1024 packages and a folder behind them that is empty or does not open: the list is complete and the flag is up |
| `UsbScan.FullStickIsFull` | plugin_mono/source/pkg_broswer.c:185-222 | such a directory with names that are all different |
| `Fanout.ServeFileWhileConnected` | plugin_server/source/klog.c:46-136 | for every script of system call results the do loop ends as specified, nb_connections being the size of output_set throughout; no descriptor is written to or closed unless open |
| `Fanout.FanOut` | plugin_server/source/klog.c:105-117 | the write loop drops and closes exactly the clients that refuse |
| `Fanout.CloseClients` | plugin_server/source/klog.c:122-131 | the loop at the end closes every client still in the set |
| `Fanout.ServeIsSafe` | plugin_server/source/klog.c:46-136 | over every run each client has been written exactly the stretch of the stream from its accept to its close, less the byte it refused if it was closed for one; every end but a select error closes each accepted descriptor exactly once, and a select error leaves open exactly the connected ones |
| `Fanout.ServeDelivers` | plugin_server/source/klog.c:71-131 | over every run, told by its turns alone: the stream grows by the byte of every turn that brings one up to the turn the run ends with, every client of a turn is accepted, and the connections closed as refused are those of the descriptors that refuse such a byte while connected; the others are closed behind them at the end, but for a select error |
| `Fanout.EndsOrGoesOn` | plugin_server/source/klog.c:71-123 | every run goes on, or ends with a turn in which a call fails or after which nobody is left |
| `Fanout.SelectErrorLeaks` | plugin_server/source/klog.c:78-81 | a client connects and the next select fails: its descriptor is left open |
| `Fanout.EndsBeforeFirstClient` | plugin_server/source/klog.c:71-119 | the function ends with success and without ever having had a client if and only if its first turn times out, or finds nobody waiting and no call fails |
| `Fanout.TimeoutEndsIt` | plugin_server/source/klog.c:74-77 | a first select that times out ends it with success |
| `Fanout.EarlyByteEndsIt` | plugin_server/source/klog.c:97-119 | a byte that is there before the first client is read, given to nobody, and ends it with success |
| `ReadLine.FtpReadline` | plugin_server/source/ftp/ftp.c:99-155 | the loop over any byte stream gives the line of the specification; every write is inside the buffer through all reallocations |
| `ReadLine.TakesUpTo` | plugin_server/source/ftp/ftp.c:114-155 | one call takes everything up to the first line feed, or to the end of the connection, and returns nothing exactly in that case |
| `ReadLine.ReadsCrlfLine` | plugin_server/source/ftp/ftp.c:99-155 | one call takes a text and its CRLF, of any length and interrupted anywhere, and returns what is behind the last carriage return of the text |
| `ReadLine.LinesRoundTrip` | plugin_server/source/ftp/ftp.c:99-155 | lines free of CR, LF and NUL sent with CRLF come back one by one from successive calls (section 5.3 of RFC 959) |
| `ReadLine.ReadsBareLine` | plugin_server/source/ftp/ftp.c:117-154 | for a text ended by a bare LF, carriage returns included, what comes back starts with the text behind the last CR, and is that text if and only if nothing stale follows: the last earlier part that is not shorter is exactly as long, or all are shorter and the byte is one calloc zeroed or realloc left 0 |
| `ReadLine.StaleByteComesBack` | plugin_server/source/ftp/ftp.c:117-154 | "ab", CR, "c" and a bare LF come back as "cb" |
| `Upload.FtpEnv.REST` | plugin_server/source/ftp/cmd.c:565-575 | the offset becomes atol of the argument; 501 without one |
| `Upload.FtpEnv.STOR` | plugin_server/source/ftp/cmd.c:738-809 | offset, file and reply after the transfer loop are those of the specification, on every failure path too |
| `Upload.FtpEnv.APPE` | plugin_server/source/ftp/cmd.c:811-833 | an offset is taken from the file size only when none is pending, a missing file is refused |
| `Upload.FtpEnv.RETR` | plugin_server/source/ftp/cmd.c:580-642 | what is sent and the reply are those of the specification, and the session is unchanged |
| `Upload.StorClearsOffset` | plugin_server/source/ftp/cmd.c:738-747 | data_offset is 0 after every STOR and no other file changes |
| `Upload.ReceiveLaw` | plugin_server/source/ftp/cmd.c:782-792 | up to the position reached the file is the old content to the offset and then what was stored, whatever the chunks |
| `Upload.ReceiveIs` | plugin_server/source/ftp/cmd.c:782-792 | the loop fails exactly when a chunk is not stored whole, and the file is then what one write of the stored bytes at the offset leaves |
| `Upload.StorDoneIff` | plugin_server/source/ftp/cmd.c:738-809 | 226 if and only if the argument is not empty, open succeeds, the offset is not negative, the greeting and the data connection succeed, every chunk is stored whole, offset plus bytes less recv errors is not negative, and truncate and close succeed |
| `Upload.StorLeaves` | plugin_server/source/ftp/cmd.c:738-809 | what every other outcome answers and leaves in the file |
| `Upload.StorSucceeds` | plugin_server/source/ftp/cmd.c:738-809 | when every call succeeds: the promised file, offset 0 and 226 |
| `Upload.AppeDoneIff` | plugin_server/source/ftp/cmd.c:811-833 | the same condition for APPE, at the pending offset or the end of the file |
| `Upload.RetrDoneIff` | plugin_server/source/ftp/cmd.c:580-642 | 226 if and only if the file is there, every step succeeds and the pages sent reach its end; the whole file is then sent, otherwise the pages before the failure and what was written of the next one |
| `Upload.RestTakesNumber` | plugin_server/source/ftp/cmd.c:565-575 | REST with blanks, a sign, digits and any tail sets that number, stopped at the limits of a long |
| `Upload.StorStores` | plugin_server/source/ftp/cmd.c:738-809 | a transfer reported complete leaves the old content cut or zero-padded to the offset and all chunks, less one byte for each recv error: exactly the promised file if and only if there was no error |
| `Upload.RecvErrorLosesAByte` | plugin_server/source/ftp/cmd.c:782-794 | a concrete transfer that is reported complete and has lost a byte |
| `Upload.AppeAppends` | plugin_server/source/ftp/cmd.c:811-833 | when every call succeeds APPE without a pending offset appends to an existing file and refuses a missing one, and behind a REST stores at that offset |
| `Upload.RestWithoutNumber` | plugin_server/source/ftp/cmd.c:565-575 | a text without a number there sets 0, and no argument leaves the offset |
| `Upload.RelativeIsAbsolute` | plugin_server/source/ftp/cmd.c:237-251 | a name without a slash in front means the one below the working directory, for STOR, APPE and RETR |
| `Upload.RestTakesDecimal` | plugin_server/source/ftp/cmd.c:565-575 | REST with the decimal form of any 63-bit offset sets that offset |
| `Upload.ResumedUpload` | plugin_server/source/ftp/cmd.c:738-809 | STOR that may break off anywhere, REST n, and a STOR of s whose calls succeed end with 226 and the first n bytes stored followed by s, for any chunking (section 4.1.3 of RFC 959, section 5 of RFC 3659) |
| `Upload.RestIsForUploadsOnly` | plugin_server/source/ftp/cmd.c:580-642 | RETR behind REST still sends the whole file and leaves the offset to the next STOR |
| `Upload.RestHonoured` | plugin_server/source/ftp/cmd.c:580-642 | so a completed RETR behind REST n sends the file from n on if and only if n is 0 |
| `StringId.MixUndone` | common/stringid.h:21-21 | the step is a bijection of the 64-bit states |
| `StringId.HashUndone` | common/stringid.h:14-25 | so a whole string is one: a common ending never makes two ids meet |
| `StringId.OneDifferenceSeparates` | common/stringid.h:14-25 | narrow strings that differ in exactly one position have different ids |
| `StringId.OneDifferenceSeparatesWide` | common/stringid.h:27-38 | so have wide strings |
| `StringId.AsciiIdsAgree` | common/stringid.h:14-38 | the id of an ASCII string equals the id of its wide form |
| `StringId.OneOtherCharacter` | common/stringid.h:14-38 | with exactly one character outside ASCII the two ids differ, char being signed |
| `StringId.PublishedIds` | common/stringid.h:14-25 | the empty string, "a" and "ab" have the published FNV-1a values |
| `StringId.ToStringId64A` | common/stringid.h:14-25 | the loop computes the narrow id |
| `StringId.ToStringId64W` | common/stringid.h:27-38 | the loop computes the wide id |

## Left out

- Patterns.PatternToByte: does not model the write beyond the 512-byte buffer for a pattern of more tokens; PatternScan answers 0 for it.
- Hde64Errors.ErrorRule: names the class, the group mask, the refused prefixes and the x87 masks by table entry; that these agree with an instruction set reference is proved for the lock list only.
- IniLines.KeyOnItsLine: a line is given without the line break; longer lines than 1023 characters are read in pieces, each as a line.
- Hde64Maps.ImmediateRule: takes 66 to shorten the displacement of a near branch as it does an immediate; processors differ there.
- Detours.PairsReach: assumes source sites apart from each other, from trampolines and from the padding about to be used, and does not say what later patches do to the code behind a prologue.
- Hde64Maps.LockVerdict: that 0f 00 is undefined with LOCK is taken from the decoder's own 0f lock table, not from an instruction set reference.
- Detours.TextDetour: assumes that padding is found and that it does not overlap the hooked prologue, and that the cave is apart from the text.
- Patterns.PatternScan: reads memory behind the segment for a match that hangs over its end, as the code does, with every address readable.
- Trampolines.RunKeepsWorking: assumes destinations below 2^48, a text segment of at most 2^30 bytes and source sites apart from each other, from trampolines and from the padding about to be used.
- Prologue.RelocatedPrologue: does not model RIP-relative operands, which the code copies verbatim; it states lengths, boundaries and jump targets.
- Patching.Process.CreatePrologueHook: the cave function itself (the file cave.inc.c) is generated by build.sh and is not part of this model; its size is a constant, its address a parameter.
- Hde64.Disasm: the `rex` field, which the code never writes, is left out of the record; the code stream is readable at every offset.
- IniFile.INIFile.SetWithComment: NULL arguments, failing allocations, and freeing are not modelled.
- IniFile.INIFile.AddComment: the comment lists are sequence fields, so the walk of add_comment_to_list to the last node is not modelled.
- IniFile.INIFile.Load: a file is its text; fopen failing is an input, read errors are not modelled.
- IniRoundTrip.OneCycle: header comments and comments before sections are excluded, because the load drops them.
- Rewrite.StrReplace: an empty search text is excluded; with an empty replacement the code does not terminate on it.
- UsbScan.ScanDirRecursive: paths are assumed to fit their buffers; a directory is a finite tree, so links to an ancestor are left out.
- XmlEscape.PageHoldsEverything: format_size is not modelled; its result is any text that fits its 24 bytes.
- Fanout.ServeFileWhileConnected: accept is assumed to return a descriptor that is not open and fits an fd_set; opening the device is left out.
- ReadLine.FtpReadline: failing allocations are left out; what realloc adds is arbitrary.
- Upload.FtpEnv.STOR: offsets are unbounded integers, write is assumed to refuse the largest size_t with -1, and whether an error reply itself reaches the client is left out.
- StringId.ToStringId64W: wchar_t is the unsigned 16-bit type of -fshort-wchar (plugin_mono/Makefile:22), under which its only users are built.
- Mono and ShellUI glue, hook bodies, notifications, module loading: calls into libraries that cannot be seen.
- System calls, sysctl parsing, findProcess, get_code_info, sockets and threads, except as results that are inputs.
- pid_chunk_scan: reads past its buffer and misses matches across chunks.
- loadPlugins: advances only on matching sections, so it has no termination measure in general.
- ini_free, ini_print, hex_dump, format_size, mode strings, FTP command dispatch and the other FTP commands.
