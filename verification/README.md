# A model of the EFI support library

gnu-efi gives EFI programs the routines a C library would: checksums of table headers, formatted printing,
device paths, string matching, 64-bit division on 32-bit machines, installation of protocols, linked lists,
memory copies, and the code that relocates the program itself. This project models those routines in Dafny
and proves what they promise. Code that works in place is modelled in place: arrays that are overwritten,
objects whose links and fields change, loops with invariants. Each such method is tied to a function or
relation on values, and the promises are lemmas about that.

| module | models |
|---|---|
| `Crc`, `SizedHeader` | `lib/crc.c`: the table, the register loop, sealing and checking a header; headers that give their own size |
| `Divide` | `lib/ia32/math.c`: the 64-step divider |
| `Wrappers`, `Chars` | missing values; characters and strings |
| `Glob` | `MetaMatch` of `lib/str.c` |
| `Numbers` | `ValueToHex`, `ValueToString` of `lib/print.c`; `xtoi`, `Atoi` of `lib/str.c` |
| `Memory` | `RtCopyMem`, `RtCompareMem` of `lib/runtime/efirtlib.c` |
| `Links` | the list macros of `inc/efilink.h` |
| `Handles` | protocol installation in `lib/hand.c` over the firmware's database |
| `Relocation` | `_relocate` of `gnuefi/reloc_x86_64.c`, `reloc_ia32.c` and `reloc_loongarch64.c` |
| `DevicePath`, `Unpack`, `AppendPath` | the walkers, appenders and the unpacker of `lib/dpath.c` on raw bytes |
| `Format`, `FormatLaws` | what a format string means, and that formats compose |
| `RoundTrips` | numbers printed with a format and read back by the parsers |
| `Numerals` | the texts of numbers, digit by digit |
| `Colours` | what the attribute letters, `%p`, `u` and `-` promise |
| `Printed` | what every directive prints, by the characters that come out |
| `Newlines` | what the print engine may do to line ends |
| `Pool`, `Print`, `VaPrint` | the sinks, the print engine, and the functions that print into strings and pools |

`dafny verify dfyconfig.toml` checks everything.

## Where the code and its promises differ

The model follows the code. Each of these promises is kept under a condition; the lemmas named say exactly when, or
show an input for which it is not.

- `DevicePathInstance` stops after 01000 nodes. The constant is octal and the comparison strict, so whole
  instances come back for up to 513 nodes (`DevicePath.WholeInstanceIff`, `DevicePath.IteratedIff` for a whole path,
  `DevicePath.LongPathIsCut`).
- `AppendDevicePath` walks `Src1` with `DevicePathInstance` and copies the terminator of `Src2` after each instance, so
  only the first instance walked is ever seen again. It does what its comment says exactly for one instance of at most
  513 nodes (`AppendPath.EachInstanceIff`, `AppendPath.OneInstanceLost`, `AppendPath.OneNodeLost`).
- `AppendDevicePath` also multiplies the wrong size when it allocates. For instances that come back whole, what it writes
  fits exactly when there is one instance or `Src2` is no longer than `Src1` (`AppendPath.ShortFitsIff`,
  `AppendPath.Overrun`); in general the bytes the walk leaves out of `Src1` count as well (`AppendPath.FitsIff`,
  `AppendPath.LongOverrun`).
- `UnpackDevicePath` stores a rounded length of 65536 as zero, which is no device path any more
  (`Unpack.UnpackedParsesIff`, `Unpack.LongNodeIsLost`).
- A CRC should notice any damage within four consecutive bytes. In a sealed header checked for a given size the sum
  field itself is part of the damage, and a change across the edge of the field can hide itself: it is overlooked
  exactly when the change of the field is what the change of the summed bytes becomes in the division
  (`Crc.DamageIsOverlookedIff`, `Crc.StraddledIsAccepted`).
- `CheckCrc` takes the size from the header. The same holds for it while the size field is left alone
  (`SizedHeader.CheckedDamageIff`). A single changed byte of the size can be overlooked: any twelve bytes in front and
  four behind the fields can be completed to such a header (`SizedHeader.SizeDamageIsAccepted`,
  `SizedHeader.SizeDamageExample`).
- `DivU64x32` asserts a divisor below 2^31. It is also right at 2^31, and for every larger divisor there is a
  dividend it divides wrongly (`Divide.DividesAllIff`, `Divide.LargeDivisorFails`).
- `SwapListEntries` moves `Entry2` in front of `Entry1` unless it already stands there or is `Entry1` itself. Then,
  in a list of more than one, no order of the entries forms a circle any more (`Links.SwapListEntries` states both).
- `LibReinstallProtocolInterfaces` undoes in forward order. That restores every database exactly when no
  protocol is really changed twice before the last entry (`Handles.UndoRestoresIff`, `Handles.ChangedTwice`).
- Both installers can only undo what the agents give back. The database is as before exactly when no undo is
  refused, or for reinstallation no undo of a real change (`Handles.UninstallUndoesIff`,
  `Handles.UndoRestoresUnless`).
- `Atoi` stops at a comma, so text with commas reads back only below 1000 (`Numbers.DecimalRoundTripIff`,
  `Numbers.CommaStopsAtoi`).
- The engine puts a CR in front of an LF that has none, but right after a flush it looks for the CR in front of its
  buffer, and what it finds there is open. The output is the one expected exactly when no LF falls there
  (`Newlines.DeterminedIff`); without attribute letters, when no LF falls right behind a full buffer of 199
  characters (`VaPrint.CalmOutputIff`, `VaPrint.LineAtFullBuffer`).
- The letters `e`, `h` and `n` promise an attribute for one field only. The attribute goes back by one change, so with
  two letters the first may stay (`Colours.RestoredIff` for a directive, `Colours.FieldsOnlyIff` for a format,
  `Colours.TwoLetters`).
- `%p` is meant to be padded to 18 characters, but its width is the comparison of the pointer size with 18, which is
  0: it has 18 characters exactly for `%lp` and a value of at least 16^15 (`Colours.PointerWidthIff`).
- `%E`, `%H` and `%N` are directives of their own exactly when the attribute they name is not zero. In prints into
  strings and pools all attributes are zero, and the next characters still belong to the directive
  (`Colours.LastingLetterIff`, `Colours.LetterTaken`).
- `%lu` promises unsigned decimals, but the number goes through a signed parameter: it is unsigned exactly below 2^63
  (`Colours.UnsignedPrintedIff`).
- `-` promises to justify on the left, but it only moves the spaces of the field width. Without one it changes nothing
  (`Colours.MinusAlone`), and the item stands on the left exactly when its width asks for no pads or it consists of
  pads itself (`Colours.LeftJustifiedIff`).

Some behaviour is just worth knowing. When a pool cannot grow, the text so far is lost but later text may find room
again, so `VPoolPrint` can return a pool that holds only an end of the output. A string size of 2 or 3 bytes leaves the
string untouched, not even terminated; 0 and 1 both mean no limit. Lines 606 and 628 of `lib/hand.c` pass the pointer
to the handle where the service takes the handle; the model takes the handle to be meant.

## Model

| member | source | states |
|---|---|---|
| `Crc.TableIsDivision` | lib/crc.c:22-66 | all 256 entries of the table are eight steps of the reflected division by 0xEDB88320 (section 8 of RFC 1952) |
| `Crc.TableStep` | lib/crc.c:201-218 | looking up the mixed low byte and shifting does to the register what eight single-bit steps do |
| `Crc.RegisterFeeds` | lib/crc.c:201-218 | the same on the machine-word register, which therefore never holds more than 32 bits |
| `Crc.CalculateCrc` | lib/crc.c:201-218 | the loop returns the bit-at-a-time CRC-32 of the first `Size` bytes, for every buffer |
| `Crc.StepsInjective` | lib/crc.c:22-66 | no number of division steps maps two registers to one |
| `Crc.DivideLinear` | lib/crc.c:201-218 | the division of bytewise xored messages is the xor of the divisions |
| `Crc.CrcAffine` | lib/crc.c:201-218 | the xor of the CRCs of three equally long messages is the CRC of their bytewise xor |
| `Crc.DivideWindow` | lib/crc.c:201-218 | up to four bytes act on the register as one packed word xored in, and then shifted through |
| `Crc.WindowDetected` | lib/crc.c:201-218 | replacing up to four consecutive bytes by different ones always changes the CRC, whatever stands around them |
| `Crc.CrcDetectsWindow` | lib/crc.c:201-218 | two equally long messages that differ only inside four consecutive bytes never have the same CRC |
| `Crc.WriteCrcField` | lib/crc.c:93-116 | only the four bytes of the CRC field change |
| `Crc.SetCrcAltSize` | lib/crc.c:93-116 | the header ends up with the CRC taken over a zeroed field in its CRC field and is otherwise as before |
| `Crc.SetCrc` | lib/crc.c:70-91 | the same over the size the header itself gives |
| `Crc.CheckCrcAltSize` | lib/crc.c:146-198 | accepts exactly a nonzero size within the maximum whose stored CRC is the CRC over a zeroed field, and refuses a size over the maximum without reading; the header is left as it was |
| `Crc.CheckCrc` | lib/crc.c:119-141 | the same over the size the header itself gives |
| `Crc.SealedIsAccepted` | lib/crc.c:93-198 | what `SetCrcAltSize` sealed, `CheckCrcAltSize` accepts exactly for a nonzero size within the maximum |
| `Crc.WindowDifference` | lib/crc.c:201-218 | the sums of two messages that differ in up to four consecutive bytes differ by the packed difference run through all steps left |
| `Crc.DamageIsOverlookedIff` | lib/crc.c:146-198 | a header accepted for a size and changed within any four consecutive bytes is accepted for that size if and only if the difference of the CRC fields is that of the summed bytes run through the steps left |
| `Crc.StraddledIsAccepted` | lib/crc.c:146-198 | every header accepted for a size of 24 stays accepted for it when its bytes 15 to 18 change in one certain way |
| `Crc.DamageIsNoticed` | lib/crc.c:146-198 | a header accepted for a size and changed within four consecutive bytes is refused for that size when the four bytes are the CRC field, or lie outside it and a summed byte changed |
| `Crc.OneByteDamage` | lib/crc.c:146-198 | a header accepted for a size is refused for that size with any one summed byte changed |
| `SizedHeader.CheckedDamageIff` | lib/crc.c:119-141 | for the size the header itself gives the condition is the same while the four bytes of the size field are left alone |
| `SizedHeader.OneByteChecked` | lib/crc.c:119-141 | any one changed byte outside the size field is refused for the size the header gives |
| `SizedHeader.Reach` | lib/crc.c:201-218 | four bytes lead from any register to any other |
| `SizedHeader.SizeDamageIsAccepted` | lib/crc.c:119-141 | any twelve bytes in front and four behind the fields can be completed to a header that is accepted with a size of 24 and with that byte changed to 28 |
| `SizedHeader.SizeDamageExample` | lib/crc.c:119-141 | 28 bytes for which that happens |
| `Divide.StepWords` | lib/ia32/math.c:134-199 | the three rotates through carry and the conditional subtraction do one step of long division on the 96-bit register |
| `Divide.DivU64x32` | lib/ia32/math.c:134-199 | for a divisor from 1 to 2^31 quotient and remainder are those of the direct division |
| `Divide.StepsDivide` | lib/ia32/math.c:134-199 | after every number of steps the consumed bits are quotient times divisor plus a remainder below the divisor: no rotate loses a bit |
| `Divide.ResultDivides` | lib/aarch64/math.c:51-63 | the bit-serial result is the pair the one-line form of other machines returns |
| `Divide.LargeDivisorFails` | lib/ia32/math.c:134-199 | for a divisor past 2^31 the dividend 2 * divisor - 1 comes out wrong |
| `Divide.DividesAllIff` | lib/ia32/math.c:134-199 | the routine is right for every dividend if and only if the divisor is at most 2^31 |
| `Glob.MetaMatch` | lib/str.c:325-409 | returns TRUE exactly when the string splits into pieces that the pattern's tokens admit, and terminates on every closed pattern |
| `Glob.MatchRun` | lib/str.c:342-350 | the retries for `*` find a match exactly when some rest of the string matches the rest of the pattern |
| `Glob.MatchSet` | lib/str.c:360-397 | a set accepts exactly the characters its positions admit (`Glob.ListMatches`, `Glob.RangeMatches`, `Glob.OpenRangeMatches`, `Glob.DashesMatch` and `Glob.SetCut` say which those are), and a match leaves the pattern behind its bracket |
| `Glob.MatchesRun` | lib/str.c:342-350 | a leading `*` matches exactly when some rest of the string matches the rest of the pattern |
| `Glob.MatchesSet` | lib/str.c:360-397 | a leading set matches exactly when it holds the first character and the rests match |
| `Glob.TokensAppend` | lib/str.c:325-409 | closed patterns in a row are closed and have their tokens in a row |
| `Glob.DenotesSplit` | lib/str.c:325-409 | a string that a token list matches can be cut where the list is cut |
| `Glob.DenotesJoin` | lib/str.c:325-409 | strings matched by two token lists match the joined list when joined |
| `Glob.MatchesCompose` | lib/str.c:325-409 | a string matches p then q if and only if some cut of it matches p before and q after |
| `Glob.StarMatches` | lib/str.c:342-350 | `*` matches every string |
| `Glob.CharacterMatches` | lib/str.c:352-358 | `?` matches the strings of one character, a character outside sets just itself |
| `Glob.SetMatches` | lib/str.c:360-397 | a set matches strings of one character only |
| `Glob.ListMatches` | lib/str.c:383-386 | a set without `-` matches exactly the characters it lists |
| `Glob.RangeMatches` | lib/str.c:373-386 | `[x-y]` matches exactly x, y and what lies between them; of an empty range just the two ends |
| `Glob.OpenRangeMatches` | lib/str.c:367-381 | `[-y]` matches everything up to y, `[x-]` just x, `[-]` nothing |
| `Glob.SetCut` | lib/str.c:367-386 | a set matches what its two parts match when it is cut at any character but `-` and that character is left in both: lists and several ranges add up |
| `Glob.DashesMatch` | lib/str.c:373-386 | two and more `-` in a row are the ends of the ranges beside them, and a character themselves |
| `Numbers.ValueToHex` | lib/print.c:578-606 | the buffer holds the hexadecimal numeral and its terminator, nothing behind it changes |
| `Numbers.ValueToString` | lib/print.c:609-652 | the buffer holds sign, decimal digits and asked-for commas and a terminator, nothing behind it changes, the lowest value included |
| `Numbers.DecimalDigits` | lib/print.c:609-652 | dividing by ten in the shift-subtract divider leaves the decimal digits, last first |
| `Numbers.WriteDigits` | lib/print.c:609-652 | the counter puts commas where the distance from the right says |
| `Numbers.xtoi` | lib/str.c:267-296 | the value of the leading hexadecimal digits behind blanks |
| `Numbers.Atoi` | lib/str.c:298-323 | the value of the leading decimal digits behind blanks |
| `Numbers.ParseIsModular` | lib/str.c:267-323 | the word the parsers return is the exact value of the digits modulo 2^64 |
| `Numbers.HexRoundTrip` | lib/str.c:267-296 | `xtoi` reads back what `ValueToHex` wrote, for all 64-bit values |
| `Numbers.CommaText` | lib/print.c:609-652 | for every value: behind the sign the text without its commas is the plain decimal, and commas stand exactly at every fourth place from the right |
| `Numbers.CommaPlaces` | lib/print.c:609-652 | the same while the text is being written: every comma so far is at its final distance from the right |
| `Numbers.CommaStopsAtoi` | lib/str.c:298-323 | text with a comma never reads back to 1000 or more |
| `Numbers.DecimalRoundTripIff` | lib/str.c:298-323 | `Atoi` reads back what `ValueToString` wrote if and only if the value is not negative and has no comma |
| `Numerals.NumeralIsHex` | lib/print.c:578-606 | the hexadecimal text is upper-case digits that amount to the value, with no zero in front |
| `Numerals.DecimalIsSigned` | lib/print.c:609-652 | for every value and flag the decimal text is a minus if it is negative, and digits that amount to the magnitude with a comma at just every fourth place from the right if asked for |
| `Numerals.DecimalIsNumeral` | lib/print.c:609-652 | digits without commas that amount to a number are its numeral: there is only one |
| `Numerals.XtoiReads` | lib/str.c:267-296 | blanks, hexadecimal digits in either case and then anything else: the amount of those digits modulo 2^64 |
| `Numerals.AtoiReads` | lib/str.c:298-323 | blanks, decimal digits and then anything else: the amount of those digits modulo 2^64 |
| `Memory.RtCopyMem` | lib/runtime/efirtlib.c:64-91 | every destination byte ends as the source byte was, for every overlap; nothing else changes; a null pointer changes nothing |
| `Memory.RtCompareMem` | lib/runtime/efirtlib.c:115-138 | zero exactly for equal bytes, otherwise the difference at the first unequal place, and nothing is read behind that |
| `Links.ListEntry.constructor` | inc/efilink.h:43-45 | an initialized head is a circle of one |
| `Links.InsertTailList` | inc/efilink.h:90-98 | the circle with the entry at its end |
| `Links.InsertHeadList` | inc/efilink.h:108-116 | the circle with the entry right behind the head |
| `Links.RemoveEntryList` | inc/efilink.h:64-80 | the circle without that one entry; the entry keeps its own links |
| `Links.Rotate` | inc/efilink.h:43-139 | a circle is a circle from any of its entries |
| `Links.SwapListEntries` | inc/efilink.h:126-139 | `Entry2` moves to just before `Entry1` if and only if they differ and it is not there already; otherwise no order of the entries is a circle, except that a lone entry stays one |
| `Links.Perform` | inc/efilink.h:43-139 | every allowed operation leaves the circle its list operation describes, with the same head |
| `Links.Run` | inc/efilink.h:43-139 | every run of allowed operations keeps both link directions mutually inverse and walks the described list |
| `Handles.LibInstallProtocolInterfaces` | lib/hand.c:437-519 | success exactly when memory is left for every call, the protocols are distinct, and a handle that is given is known and has none of them; otherwise the status of the first call that cannot succeed, the handle as before, and the database as before if and only if no agent refuses to give back what was installed; the task priority is always restored |
| `Handles.RollBack` | lib/hand.c:498-511 | uninstalling what was installed gives back the database before the call if and only if none of it is refused |
| `Handles.LibUninstallProtocolInterfaces` | lib/hand.c:522-558 | each pair is taken off in turn, except where it is refused or was not there |
| `Handles.UninstallUndoesIff` | lib/hand.c:437-558 | uninstalling a list undoes installing it, down to the handle that came into being, if and only if no agent refuses |
| `Handles.InstalledReads` | lib/hand.c:472-487 | every pair installed is on the handle, its other protocols and all other handles are as before |
| `Handles.UninstalledReads` | lib/hand.c:522-558 | of the listed protocols just those refused or with another interface are left, and all that are not listed |
| `Handles.InstallStep` | lib/hand.c:466-490 | one more installed pair extends the installed list |
| `Handles.NextIsNew` | lib/hand.c:466-490 | while a list is being installed a protocol is on the handle if and only if it was there before or came earlier in the list |
| `Handles.LibReinstallProtocolInterfaces` | lib/hand.c:561-641 | success exactly when every change finds its old interface and none is denied, and all are made; otherwise the status of the first change that fails, the changes before it made and undone in forward order, and for a list that can be undone the old database if and only if no undo of a real change is refused |
| `Handles.AppliesIff` | lib/hand.c:584-607 | every change of a list finds its old interface if and only if the first of each protocol finds it on the handle and every later one finds what the one before it left |
| `Handles.DistinctAppliesIff` | lib/hand.c:584-607 | for distinct protocols: if and only if each old interface is on the handle |
| `Handles.AppliedLast` | lib/hand.c:584-607 | a protocol ends as the last change of it says |
| `Handles.AppliedElsewhere` | lib/hand.c:584-607 | a protocol that is not listed is as before |
| `Handles.UndoChanges` | lib/hand.c:620-633 | the undo loop turns each change round first to last, passing over what is refused |
| `Handles.UndoRestoresUnless` | lib/hand.c:561-641 | for a list that can be undone the forward undo gives back the interfaces if and only if no undo of a real change is refused |
| `Handles.ChangedTwice` | lib/hand.c:561-641 | an interface changed from 1 to 2 and from 2 to 3 before any third change comes back as 2 |
| `Handles.UndoRestores` | lib/hand.c:561-641 | the forward undo gives back the interfaces when no protocol is really changed twice |
| `Handles.TwiceBreaksUndo` | lib/hand.c:561-641 | a list that really changes one protocol twice has a start from which the undo does not lead back |
| `Handles.UndoRestoresIff` | lib/hand.c:561-641 | every failing call restores every database if and only if no protocol is really changed twice before the last entry |
| `Handles.DistinctIsUndoable` | lib/hand.c:561-641 | lists with distinct protocols can always be undone |
| `Handles.Firmware.RaiseTPL` | lib/hand.c:455-455 | the priority is raised and the old one returned |
| `Handles.Firmware.RestoreTPL` | lib/hand.c:517-517 | the priority is the one asked for |
| `Handles.Firmware.InstallProtocolInterface` | lib/hand.c:472-487 | succeeds exactly with memory, a known handle if one is given, and a new protocol on it, and says which of these was missing (section 7.3 of the UEFI Specification 2.10) |
| `Handles.Firmware.UninstallProtocolInterface` | lib/hand.c:552-555 | succeeds exactly when the interface is the installed one and no agent refuses |
| `Handles.Firmware.ReinstallProtocolInterface` | lib/hand.c:599-628 | succeeds exactly when the old interface is the installed one and no agent refuses, and then replaces it |
| `Relocation.ScanDynamic` | gnuefi/reloc_x86_64.c:52-71 | the last entry of each kind before the terminator counts (`Relocation.ScanFinds` and `Relocation.ScanMisses` say what that gives) |
| `Relocation.ScanFinds` | gnuefi/reloc_x86_64.c:52-71 | a section that gives the table, its size and the size of an entry, in any order, is read as just those |
| `Relocation.ScanMisses` | gnuefi/reloc_x86_64.c:52-77 | without a table entry there is no table, without an entry size it is zero |
| `Relocation.LoadBytes` | gnuefi/reloc_x86_64.c:79-96 | words in the image are little-endian |
| `Relocation.EntryReadsBack` | inc/subst/elf.h:51-78 | offset, type and addend of an entry laid out in the table are read back, with addend 0 where the form has none |
| `Relocation.BytesAreLaid` | inc/subst/elf.h:51-78 | an entry laid out field by field has its offset, type and addend in their places |
| `Relocation.LaidTable` | gnuefi/reloc_x86_64.c:79-96 | the loop reads exactly the entries laid out, also a last one that the size covers only in part |
| `Relocation.LaidIsSound` | gnuefi/reloc_x86_64.c:79-96 | every such table with free slots meets what the relocator asks for |
| `Relocation.LaidIsDone` | gnuefi/reloc_x86_64.c:79-96 | applying it leaves the right word in every slot and every other byte as it was |
| `Relocation.ApplyTable` | gnuefi/reloc_x86_64.c:79-96 | reading the table while the image changes applies the entries it held at the start, each once and in order |
| `Relocation.Relocate` | gnuefi/reloc_x86_64.c:43-98 | half a table is an error and changes nothing, no table is success; for every table laid out in the image, with its slots outside it and apart, each slot ends as base plus addend, or as its old word plus base, and no other byte changes |
| `Relocation.WriteWord` | gnuefi/reloc_ia32.c:80-97 | a word is stored and nothing else changes |
| `Relocation.TableKept` | gnuefi/reloc_loongarch64.c:85-102 | writing a slot outside the table leaves the table's entries |
| `Relocation.ApplyAllRelocates` | gnuefi/reloc_x86_64.c:79-96 | with slots apart each slot ends with base plus its addend as it was at the start, and every other byte is unchanged |
| `Relocation.OrderIrrelevant` | gnuefi/reloc_ia32.c:80-97 | with slots apart every order of the same entries gives the same image |
| `Relocation.IdempotentIff` | gnuefi/reloc_ia32.c:80-97 | a second run changes nothing if and only if the form stores the addend, the base is zero, or no entry is relative |
| `Relocation.FormsAgreeIff` | gnuefi/reloc_loongarch64.c:85-102 | adding in place gives the image of storing base plus addend if and only if every slot held its addend |
| `DevicePath.DevicePathInstance` | lib/dpath.c:48-106 | returns where the instance ends, or where counting gave up, and moves behind its terminator or to the end |
| `DevicePath.WholeInstanceIff` | lib/dpath.c:68-82 | the whole instance comes back if and only if it has at most 513 nodes |
| `DevicePath.LongPathIsCut` | lib/dpath.c:68-82 | an instance of 514 or more empty nodes is well-formed and comes back cut |
| `DevicePath.LongPathWalked` | lib/dpath.c:68-98 | 514 empty nodes are walked as an instance of 513 and an empty one |
| `DevicePath.IteratedTotal` | lib/dpath.c:48-121 | the instances walked with their terminators are never larger than the path |
| `DevicePath.DevicePathInstanceCount` | lib/dpath.c:108-121 | the number of instances the walk yields, all of them for short instances |
| `DevicePath.IteratedIff` | lib/dpath.c:48-121 | walking yields exactly the instances, byte for byte, if and only if every instance has at most 513 nodes |
| `DevicePath.FirstInstance` | lib/dpath.c:48-106 | the instances are the bytes up to the first terminator and the instances behind it |
| `DevicePath.FindEnd` | inc/efidevp.h:50-71 | following the length fields reaches the End Entire node |
| `DevicePath.DevicePathSize` | lib/dpath.c:286-307 | the bytes up to and with the End Entire node |
| `DevicePath.SizesAddUp` | lib/dpath.c:286-307 | the sizes of all instances, four bytes more for each, add up to the size of the path |
| `DevicePath.DuplicateDevicePath` | lib/dpath.c:309-334 | a new copy of exactly those bytes, or nothing when memory is out |
| `DevicePath.AppendDevicePathInstance` | lib/dpath.c:397-433 | the bytes of the source with its terminator turned into an End Instance, then those of the instance |
| `DevicePath.JoinedPath` | lib/dpath.c:397-433 | the result is a path of just the two sizes |
| `DevicePath.JoinedInstances` | lib/dpath.c:397-433 | its instances are those of the source followed by those of the instance, byte for byte |
| `DevicePath.JoinedShort` | lib/dpath.c:397-433 | its instances are short if and only if those of both parts are |
| `DevicePath.JoinedIterates` | lib/dpath.c:48-121 | for instances of at most 513 nodes, walking the result yields the instances of both parts in order, so their counts add |
| `DevicePath.CutInstances` | lib/dpath.c:397-433 | cutting off what lies behind the terminator loses no instance |
| `DevicePath.MatchInstance` | lib/dpath.c:1223-1228 | one round compares exactly one instance with the front of `Single` |
| `DevicePath.LibMatchDevicePaths` | lib/dpath.c:1210-1230 | TRUE exactly when the bytes of some walked instance of `Multi` are a prefix of `Single` |
| `DevicePath.StopComparable` | lib/runtime/efirtlib.c:115-138 | comparing an instance with `Single` meets a difference before it would read past the end of `Single` |
| `Unpack.TotalSizePass` | lib/dpath.c:348-359 | the first pass returns the running total rounded after every node |
| `Unpack.PassesAgree` | lib/dpath.c:348-390 | rounding the running total gives exactly the bytes the second pass writes |
| `Unpack.WriteNode` | lib/dpath.c:378-383 | one padded node is written and nothing in front of it or behind it |
| `Unpack.UnpackDevicePath` | lib/dpath.c:336-394 | the pool is filled with the padded nodes (`Unpack.UnpackedEach` says what those are), or nothing comes back when memory is out |
| `Unpack.UnpackedNodes` | lib/dpath.c:336-394 | the result parses to the same nodes with the unpacked bit set and zero padding, when rounded lengths fit 16 bits |
| `Unpack.UnpackedEach` | lib/dpath.c:361-390 | when rounded lengths fit 16 bits the result has as many nodes, each with the unpacked bit set, its type and subtype kept, its payload in front and zeros up to the alignment |
| `Unpack.UnpackedExample` | lib/dpath.c:361-390 | the bytes of a node of five bytes and the end, unpacked for an alignment of 4 |
| `Unpack.UnpackedParsesIff` | lib/dpath.c:336-394 | the result parses at all if and only if every rounded length fits 16 bits |
| `Unpack.LongNodeIsLost` | lib/dpath.c:336-394 | a path with a node of 65533 bytes unpacks to something that is no path |
| `Unpack.OffsetsAligned` | lib/dpath.c:336-394 | every node of the result starts at a multiple of the alignment |
| `Unpack.AlignSum` | lib/dpath.c:27-27 | rounding a sum with an aligned total rounds just the new part |
| `AppendPath.AppendDevicePath` | lib/dpath.c:124-194 | from the allocation on, memory holds every instance walked in `Src1`, each followed by `Src2` and an End Instance, the last one by an End Entire, and nothing behind that changes; one missing path gives a copy of the other |
| `AppendPath.FillInstances` | lib/dpath.c:170-191 | the copy loop and its last terminator write exactly that and nothing behind it |
| `AppendPath.AppendedSize` | lib/dpath.c:124-194 | the instances with their terminators, and `Src2` once for each, are written |
| `AppendPath.FitsIff` | lib/dpath.c:163-191 | what is written for the instances walked fits the allocation if and only if what `Src2` is longer than `Src1`, once for every instance but the first, is no more than what the walk left out of `Src1` |
| `AppendPath.ShortFitsIff` | lib/dpath.c:163-191 | for instances of at most 513 nodes that is: if and only if there is one instance or `Src2` is no longer than `Src1` |
| `AppendPath.LongOverrun` | lib/dpath.c:163-191 | for one instance of 514 nodes and a `Src2` of 515 nodes 6188 bytes are written into 6184 |
| `AppendPath.Overrun` | lib/dpath.c:163-191 | for two empty instances and a `Src2` of 12 bytes 32 bytes are written into 28 |
| `AppendPath.OneInstanceFills` | lib/dpath.c:124-194 | for one instance of at most 513 nodes the allocation is filled exactly |
| `AppendPath.ResultNodes` | lib/dpath.c:124-194 | the result parses to the nodes of the first instance of `Src1` that the walk sees, and then those of `Src2` |
| `AppendPath.WalkedAllIff` | lib/dpath.c:68-82 | the walk sees all nodes of the first instance if and only if there are at most 513 |
| `AppendPath.EachInstanceIff` | lib/dpath.c:124-194 | the result has `Src2` appended to each instance, as the comment promises, if and only if `Src1` has one instance, of at most 513 nodes |
| `AppendPath.OneInstanceLost` | lib/dpath.c:124-194 | of two empty instances with an empty path appended one is left |
| `AppendPath.OneNodeLost` | lib/dpath.c:124-194 | one instance of 514 nodes with an empty path appended is not itself any more |
| `AppendPath.AppendDevicePathNode` | lib/dpath.c:197-230 | the result parses to the nodes of the first instance of `Src1` that the walk sees, and exactly the one new node before the end |
| `Format.WordTextIsString` | inc/internal/va_print.h:384-505 | every converted word fits the scratch buffer and has no terminator inside |
| `Format.LayoutLength` | inc/internal/va_print.h:193-240 | an item puts out exactly the largest of clipped length, width and field width |
| `Format.LayoutHoldsItem` | inc/internal/va_print.h:193-240 | the clipped item stands whole at the right end of its padding, and all else is pads and spaces on the side asked for |
| `Format.LayoutParts` | inc/internal/va_print.h:216-239 | the order in which the loops put the parts out |
| `FormatLaws.ScanAppend` | inc/internal/va_print.h:326-526 | a finished directive does not depend on what follows it |
| `FormatLaws.ScanShift` | inc/internal/va_print.h:326-526 | a directive does not depend on what stands in front of it |
| `FormatLaws.RenderAppend` | inc/internal/va_print.h:306-531 | the text of two formats in one is the text of the first and that of the second with the arguments left |
| `FormatLaws.RenderPlain` | inc/internal/va_print.h:306-311 | a format without directives prints itself |
| `RoundTrips.WidthReads` | inc/internal/va_print.h:359-374 | a width written in decimal is the width of the item, for every width |
| `RoundTrips.NumberDigits` | inc/internal/va_print.h:368-373 | the digit loop reads back every 64-bit number's digits, whatever follows them |
| `RoundTrips.PaddingReads` | lib/str.c:267-323 | spaces or zeros in front of a numeral do not change what the parsers read |
| `RoundTrips.PrintedDecimalReadsBack` | inc/internal/va_print.h:402-409 | a non-negative number printed with `%ld`, any width and either padding, has at least that width and is read back by `Atoi` |
| `RoundTrips.PrintedHexReadsBack` | inc/internal/va_print.h:493-505 | any number printed with `%lX` takes exactly 16 characters and is read back by `xtoi` |
| `Printed.StringPrinted` | inc/internal/va_print.h:376-477 | `%s` and `%a`, with any modifiers, put the string in its field, or `(null)` for a null pointer, and take one argument |
| `Printed.StringAsIs` | inc/internal/va_print.h:472-477 | alone they print the string as it is |
| `Printed.StringInField` | inc/internal/va_print.h:205-239 | `%*.*s` prints spaces up to the field and the string, `%-*.*s` spaces up to the width, the string and spaces up to the field |
| `Printed.CharacterPrinted` | inc/internal/va_print.h:384-388 | `%c` prints the low 16 bits as a character, or nothing for zero |
| `Printed.SignPrinted` | inc/internal/va_print.h:330-511 | `%%` prints a percent sign, every character without a meaning a question mark, and neither takes an argument |
| `Printed.OtherPrinted` | inc/internal/va_print.h:390-483 | what a formatter left in the scratch buffer is put in its field |
| `Printed.SignedPrinted` | inc/internal/va_print.h:402-409 | `%d` prints the low 32 bits, with `l` all 64, as sign and decimal digits, with commas if asked for |
| `Printed.UnsignedPrinted` | inc/internal/va_print.h:484-491 | `%u` prints the low 32 bits as decimal digits, with `l` what `%ld` prints |
| `Printed.HexPrinted` | inc/internal/va_print.h:453-505 | `%x` prints upper-case digits of the low 32 bits, with `l` of all 64; `%X` fills up to 8 or 16 with zeros whatever width is asked for; `%p` puts `0x` in front and takes no width |
| `Printed.NumberAsIs` | inc/internal/va_print.h:330-505 | `%d`, `%x`, `%c` and `%%` alone |
| `Printed.LayoutIsPlaced` | inc/internal/va_print.h:193-240 | pads go in front of the clipped item up to the width, spaces up to the field on the other side or behind |
| `Printed.DigitsAreStar` | inc/internal/va_print.h:347-374 | a width or field width in digits prints what a `*` with that number modulo 2^64 as its argument prints, behind any modifiers |
| `Printed.ScanModifiers` | inc/internal/va_print.h:339-443 | modifiers are read one after the other, whatever follows them |
| `Printed.LetterPrintsNothing` | inc/internal/va_print.h:411-447 | attribute letters for one field, and lasting ones of a zero attribute, print nothing wherever they stand in a directive |
| `Printed.LetterEndsDirective` | inc/internal/va_print.h:411-525 | `E`, `H` and `N` of a nonzero attribute end their directive, print nothing, and set the error, highlight or normal attribute |
| `Printed.FieldLetters` | inc/internal/va_print.h:415-451 | after `%e%`, `%h%` or `%n%` the attribute is back unless it was zero; of two letters the first stays unless it names a zero attribute |
| `Printed.FinalAttrAppend` | inc/internal/va_print.h:306-531 | the attribute after two formats in one is the one the second leads to from where the first ended |
| `Colours.RestoredIff` | inc/internal/va_print.h:140-156 | which attribute letters of a directive lead back to the attribute it found |
| `Colours.FieldsOnlyIff` | inc/internal/va_print.h:261-263 | every field of a format leaves the attribute it found if and only if its letters lead back |
| `Colours.OnlyLastingStays` | inc/internal/va_print.h:261-282 | where the letters lead back, the attribute after a format is the last one set by `%E`, `%H` or `%N` |
| `Colours.TwoLetters` | inc/internal/va_print.h:415-451 | `%hed` leaves the highlight attribute set |
| `Colours.LastingLetterIff` | inc/internal/va_print.h:520-525 | `%E`, `%H` and `%N` are directives of their own, in front of every format, if and only if the attribute they name is not zero |
| `Colours.LetterIgnored` | inc/internal/va_print.h:411-447 | where it is zero, the format prints as if the letter were not there |
| `Colours.NeverColour` | lib/va_print.c:16-24 | in prints into strings and pools they never do |
| `Colours.LetterTaken` | inc/internal/va_print.h:411-413 | `%Ed` prints a d on a console and a number into a string |
| `Colours.PointerWidthIff` | inc/internal/va_print.h:453-465 | a pointer is at most 18 characters, and 18 if and only if it is printed with `l` and its first of 16 digits is not zero |
| `Colours.UnsignedIff` | inc/internal/va_print.h:484-491 | a long `u` is the unsigned decimal, with or without commas, if and only if the value is below 2^63 |
| `Colours.UnsignedPrintedIff` | inc/internal/va_print.h:484-491 | the same for what `%lu` prints |
| `Colours.MinusAlone` | inc/internal/va_print.h:205-239 | without a field width `-` changes nothing |
| `Colours.LeftJustifiedIff` | inc/internal/va_print.h:205-239 | with `-` the item stands on the left if and only if its width asks for no pads or it consists of pads |
| `Newlines.FaithfulLength` | inc/internal/va_print.h:158-180 | dressing line ends at most doubles the text |
| `Newlines.FaithfulExact` | inc/internal/va_print.h:158-180 | text without an LF goes out unchanged |
| `Newlines.FaithfulStripped` | inc/internal/va_print.h:158-180 | output and text are equal once runs of CR in front of LFs are deleted, wherever it was flushed |
| `Newlines.ClearIsCanonical` | inc/internal/va_print.h:158-180 | when no LF comes right after a flush, a CR goes in front of exactly the LFs that have none |
| `Newlines.OtherOutput` | inc/internal/va_print.h:158-180 | when an LF comes right after a flush, another output is possible |
| `Newlines.DeterminedIff` | inc/internal/va_print.h:158-180 | for every text and all flushes the output is the expected one if and only if no LF comes right after a flush |
| `Newlines.CanonicalPush` | inc/internal/va_print.h:165-179 | in the expected output a further LF gets a CR in front if and only if the text does not end in one, and any other character goes out as it is |
| `Newlines.CanonicalLines` | inc/internal/va_print.h:165-179 | in the expected output every LF follows a CR |
| `Newlines.CanonicalSameIff` | inc/internal/va_print.h:165-179 | a text is its own expected output if and only if every LF in it follows a CR |
| `Newlines.FaithfulLines` | inc/internal/va_print.h:158-180 | whatever the flushes, a bare LF goes out only right after one |
| `Pool.StrLen` | lib/runtime/rtstr.c:152-163 | the place of the first terminator |
| `Pool.AllocatePool` | lib/misc.c:25-38 | a new pool of the size asked for, or nothing exactly when the firmware refuses |
| `Pool.ReallocatePool` | lib/misc.c:58-80 | a new pool with the old contents, or nothing exactly when the firmware refuses |
| `Pool.PoolPrint.constructor` | lib/va_print.c:61-63 | an empty record over the given array |
| `Pool.PoolPrint.SPrint` | lib/print.c:170-209 | as much of the chunk as fits is appended and terminated, nothing behind changes, and the string stays the front of all that was sent |
| `Pool.PoolPrint.PoolPrint` | lib/print.c:212-254 | the pool stays whole, terminated and with room left; an allocation, of the chunk and 200 characters more, is asked for exactly when the room does not suffice, and when that is refused there is no pool, the lengths are zero and nothing is written |
| `Pool.PoolPrint.Output` | inc/internal/va_print.h:133-136 | either sink has the chunk appended to all it was sent, or the pool is where a refused growth leaves it |
| `Pool.FrontKept` | lib/print.c:187-206 | an append that is cut off keeps the string the front of all that was sent |
| `Pool.AllGranted` | lib/print.c:212-254 | while no allocation is refused a growing pool holds all that was sent to it, with room left |
| `Pool.NoGrowth` | lib/print.c:228-228 | while there is room no allocation is asked for |
| `Pool.LastRefusal` | lib/print.c:228-248 | otherwise it holds exactly the chunks behind the one of the last refusal, and is null exactly when that was the last chunk |
| `Print.PrintState.constructor` | inc/internal/va_print.h:299-303 | an empty buffer over a sink |
| `Print.PrintState.PFLUSH` | inc/internal/va_print.h:128-138 | the buffered characters reach the sink as one chunk and the output as a whole is unchanged |
| `Print.PrintState.Store` | inc/internal/va_print.h:172-179 | the output grows by the one character, and a flush comes only from a full buffer |
| `Print.PrintState.LastChar` | inc/internal/va_print.h:167-167 | the character looked back at tells about the output except right after a flush |
| `Print.PrintState.PPUTC` | inc/internal/va_print.h:158-180 | the text grows by the character and the output stays the text with CRs put in front of LFs |
| `Print.PrintState.PSETATTR` | inc/internal/va_print.h:140-156 | the text is flushed and unchanged; the attribute changes and the old one is kept for later |
| `Print.PrintState.ItemLength` | inc/internal/va_print.h:193-203 | the item is measured up to its terminator or the field width |
| `Print.PrintState.PutRun` | inc/internal/va_print.h:216-226 | that many pad characters go out, across any number of flushes |
| `Print.PrintState.PITEM` | inc/internal/va_print.h:182-240 | exactly the layout of the item goes out, across any number of flushes |
| `Print.ReadNumber` | inc/internal/va_print.h:359-374 | the digits are read to their end and give their value modulo 2^64 |
| `Print.ReadModifier` | inc/internal/va_print.h:339-374 | each modifier changes just its field of the item |
| `Print.ConvertWord` | inc/internal/va_print.h:384-505 | the scratch buffer ends with the text of the word |
| `Print.PrintState.ReadDirective` | inc/internal/va_print.h:313-530 | one directive puts out the layout of its item, consumes its characters and arguments, and leaves the attribute where its letters say |
| `Print.PrintState.Print` | inc/internal/va_print.h:242-536 | the text put out is the text of the format, all of it is flushed, the count returned is the number of characters put out, and the attribute is the one the directives lead to |
| `VaPrint.MeaningAppend` | lib/va_print.c:6-25 | printing two formats in one means printing one after the other |
| `VaPrint.CarriedText` | inc/internal/va_print.h:158-240 | whatever the chunks were, their concatenation is the text up to CRs in front of LFs, and the text itself when it has no LF |
| `VaPrint.CalmOutput` | inc/internal/va_print.h:176-179 | without attribute letters the output, of any length, is cut at every 199th character and nowhere else, and is the expected one when no LF falls right behind such a cut |
| `VaPrint.OtherCalmOutput` | inc/internal/va_print.h:158-180 | when an LF falls there, chunks with another output are possible |
| `VaPrint.CalmOutputIff` | inc/internal/va_print.h:158-180 | for a format without attribute letters every possible output is the expected one if and only if no LF of its text falls right behind a full buffer |
| `VaPrint.LineAtFullBuffer` | inc/internal/va_print.h:158-180 | 199 plain characters and an LF have two possible outputs |
| `VaPrint.PoolCatPrint` | lib/va_print.c:6-25 | a string has been sent exactly the chunks of the output, and a pool is where the chunks and the outcomes of its allocations lead |
| `VaPrint.UnicodeVSPrint` | lib/va_print.c:27-68 | the string holds exactly the first min(n, StrSize/2 - 1) characters of the concatenated chunks, terminated right there, returns that count, and nothing behind the terminator changes; without attribute letters and LFs right behind full buffers that is the expected text |
| `VaPrint.VPoolPrint` | lib/va_print.c:70-100 | a new terminated pool with the whole output if no allocation was refused; otherwise with just what came behind the last refusal, and null exactly when nothing did |
| `VaPrint.CatPrint` | lib/print.c:364-398 | the whole output is behind what the pool held if no allocation was refused, none being asked for while there is room; otherwise the pool holds just what came behind the last refusal, and is null exactly when nothing did |
| `VaPrint.CatPrintAll` | lib/print.c:364-398 | after any run of calls without a refused allocation the pool holds the untruncated concatenation of all output, terminated, with len < maxlen; otherwise all that came behind the last refusal |

## Left out

- `LShiftU64`, `RShiftU64`, `MultU64x32`: single expressions.
- `FloatToString`, `GuidToString`, `StatusToString`, `TimeToString`, `DevicePathToStr`: what they leave in the scratch buffer is an argument of the model (`Format.Arg`).
- Console output, cursor and attribute calls, `DumpHex`, `Input`, `Pause`, events, ports and PCI: input and output. `PSETATTR` is modelled except for the call that tells a console.
- `AsciiVSPrint`: a copy loop around `UnicodeVSPrint`.
- Formats that end inside a directive, or arguments of the wrong kind: the C code reads past the format or the argument list.
- Patterns with an unclosed `[`: the C code reads past the pattern.
- `LibDuplicateDevicePathInstance`: it ends the copy after the first node.
- The per-node text printers of `lib/dpath.c`, `ValidMBR`, `GrowBuffer`, the boot order, the SMBIOS walk and the command-line splitter: only easier members.
- `gnuefi/reloc_mips64el.c`: it depends on a byte swap in assembly. The aarch64, riscv64 and arm relocators repeat the loops here.
- Pointers as such: memory is an array with indices as addresses, and a path is the bytes from its first node on.
- Firmware services: pool allocation that may fail and the protocol services, which may be refused, are taken with their documented rules; what the firmware does with each call is an argument.
- The debug build's overwriting of removed list entries with bad pointers.
- Print.PrintState.Print: `ps->Len` is a number without wrap-around, for output shorter than 2^64 characters.
- Pool.PoolPrint.SPrint: lengths do not wrap around; arrays are shorter than 2^64 characters.
- AppendPath.AppendDevicePath: what is written past the allocation must still be memory; what that memory belonged to is not modelled.
- AppendPath.AppendDevicePathNode: what is written past the allocation must still be memory, as for `AppendPath.AppendDevicePath`.
- DevicePath.AppendDevicePathInstance: the allocation is taken to succeed, as the source asserts.
- DevicePath.LibMatchDevicePaths: for well-formed paths; what is read of others depends on the bytes behind them.
- Relocation.Relocate: a negative entry size is left out; the table and the slots it names lie in the image and apart from each other.
- Unpack.UnpackDevicePath: `MIN_ALIGNMENT_SIZE` is 4 or 8, the values of the supported machines.
- VaPrint.UnicodeVSPrint: without a limit the string is taken to have room for twice the text.
