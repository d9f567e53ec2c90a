# Hackable code regions: tag scanner, marker cache and patching

This project models the core of `SelfHackingApp/HackableCode.cpp`. The build
embeds 10-byte tag signatures (Start, End, Stop-Search) in a function's
machine code around each hackable region. At run time the core does three things:

- It scans the function's code byte by byte for those tags. It pairs each
  Start tag with the next End tag into a `(start, end)` marker and stops at
  the Stop-Search tag.
- It memoises the marker list per function address.
- It builds one `HackableCode` region per marker. A region can be activated
  with new assembly text. The text is assembled, checked against the window
  size, padded with `0x90` no-ops and written over the window. A region can
  also be "restored".

The model is split into four modules:

- `Tags` (`tags.dfy`): the three signatures, the first-byte dispatch
  (`TagStartingWith`), the byte-by-byte attempt (`MatchFrom`) and `TagAt`,
  which says which tag occurs at an address. `TagAtExact` proves that `TagAt`
  reports a tag exactly where all its bytes occur. The module also proves the
  facts the scanner relies on: first bytes are distinct, and no tag's first
  byte recurs inside any tag.
- `Markers` (`markers.dfy`): `ScanFrom` is the scan's specification. It
  takes one step per base address and classifies each base by `TagAt`.
  `ScanMarkers` is the byte-wise `while (true)` matcher with `currentBase`,
  `currentSeek`, `target` and `nextHackableCodeStart`, proved equal to
  `ScanFrom`. `CompleteTag` is the part of that loop that acts on a
  complete tag. Around them sit the lemmas about the scan and the
  `MarkerCache` class. The cache is an explicit object holding a
  `map<nat, seq<Marker>>`, not a global.
- `Hackable` (`hackable_code.dfy`): the memory writer as an in-place
  overwrite of an `array<Byte>`, the `HackableCode` class, `ParseHackables`
  and `Create`.
- `Wrappers` (`wrappers.dfy`): `Option`.

How the model represents the program:

- Memory is one byte image whose addresses are `nat` offsets from 0.
  Address 0 is the null pointer. A byte is `Byte`, an integer in `0..255`
  (`unsigned char`).
- The matcher's handling of a complete tag (lines 166-187) is the separate
  method `CompleteTag`, which the loop calls; the rest of the loop body is
  inline, as in the source.
- The resolver (`resolveVTableAddress`) is a `nat -> nat` parameter.
- The assembler is a `(string, nat) -> CompileResult` parameter.
- The disassembler is a `(image, address, length) -> string` parameter.

## Behaviour of the code worth noting

- **Stop tag required.** The scan loop has no end-of-buffer exit. Every scan
  is therefore given a ghost address `stop` where a Stop-Search tag occurs at
  or after the scan's origin, and the model scans only when one exists.
  `ScanMarkers` terminates under this requirement.
  `ScanReadsOnlyUpToStop` proves that the scan reads no byte at or beyond
  `stop + 10`.
- **Fail-safe never fires.** The fail-safe (line 129) compares
  `currentSeek - currentBase` with 4096, not a distance from the scan's
  origin. The loop invariant `currentBase <= currentSeek < currentBase + 10`
  shows the branch cannot be taken. In `ScanMarkers` it carries
  `assert false`.
- **Base advances by one byte.** After a full tag match the base advances by
  one byte (line 197), not past the tag. The result is the same, because no
  tag's first byte recurs inside a tag. `NoTagInsideTag` and `SkipTagBody`
  prove this.
- **Restore writes nothing.** The constructor leaves `originalCodeCopy`
  empty (line 24), and nothing fills it. `RestoreState` therefore writes zero
  bytes and leaves memory unchanged. It does not return the region to its
  original bytes.
- **No tag inside a region.** A marker ends where the End tag's match began.
  `ScanWellFormed` proves that no tag of any kind begins inside an emitted
  region `[start, end)`. So false starts just before the End tag cannot pull
  stray bytes into a region: a failed attempt advances the base by one and
  retries from there.

## Model

| member | source | states |
|---|---|---|
| `Tags.Signature` | SelfHackingApp/HackableCode.cpp:9-12 | every tag signature has the common length of 10 bytes |
| `Tags.SignatureByteAgrees` | SelfHackingApp/HackableCode.cpp:10-12 | the position-by-position byte table the matcher compares against (`targetArray[signatureIndex]`) agrees with the three signature arrays at every index |
| `Tags.TagStartingWith` | SelfHackingApp/HackableCode.cpp:135-148 | the byte at the base selects the tag whose first byte it is, or no tag when it is none of the three first bytes |
| `Tags.MatchFrom` | SelfHackingApp/HackableCode.cpp:161-192 | the attempt that compares the selected tag's bytes one by one from index `i`; it yields that tag or nothing, never another tag |
| `Tags.TagAt` | SelfHackingApp/HackableCode.cpp:135-192 | the tag found at a base: the tag its first byte selects, when all of that tag's bytes agree; a reported tag is always the one the first byte selects |
| `Tags.TagAtSelected` | SelfHackingApp/HackableCode.cpp:135-158 | the tag at a base is decided by the attempt the first byte selects: no tag when the first byte selects none, otherwise the outcome of comparing the selected tag's remaining bytes |
| `Tags.MatchStep` | SelfHackingApp/HackableCode.cpp:161-166 | one comparison of an attempt: a byte equal to the expected signature byte defers the outcome to the next byte, an unequal one makes the attempt fail |
| `Tags.MatchFromBytes` | SelfHackingApp/HackableCode.cpp:161-192 | an attempt past its first byte either fails or yields the selected tag, and it yields the tag exactly when every remaining byte equals the signature and the tag fits in the image |
| `Tags.FirstBytesDistinct` | SelfHackingApp/HackableCode.cpp:9 | two tags have the same first byte exactly when they are the same tag, as the note at line 9 assumes |
| `Tags.FirstByteNotRepeated` | SelfHackingApp/HackableCode.cpp:9-12 | no tag's first byte occurs at positions 1..9 of any tag |
| `Tags.TagAtExact` | SelfHackingApp/HackableCode.cpp:9-12 | a tag occurs at an address if and only if `TagAt` reports exactly that tag there (first bytes are distinct) |
| `Tags.TagsApart` | SelfHackingApp/HackableCode.cpp:9-12 | two tag occurrences never overlap: a later one begins at or after the end of an earlier one |
| `Tags.NoTagInsideTag` | SelfHackingApp/HackableCode.cpp:9-12 | no tag begins strictly inside an occurrence of a tag |
| `Markers.ScanMarkers` | SelfHackingApp/HackableCode.cpp:114-199 | the byte-wise matcher returns exactly the specification scan `ScanFrom` from the resolved address; the cursor stays within one tag of the base, so the 4096 fail-safe is unreachable; the loop terminates at the Stop tag |
| `Markers.ScanFrom` | SelfHackingApp/HackableCode.cpp:125-199 | the scan's definition, one base at a time: no tag moves on one byte, a Start tag makes the byte after it pending (overwriting), an End tag closes a pending start into a marker, the Stop tag ends the scan; its properties are the lemmas below |
| `Markers.StepUntagged` | SelfHackingApp/HackableCode.cpp:149-154 | at a base holding no tag the scan moves to the next base with the pending start unchanged, and that base is before the Stop tag |
| `Markers.StepStart` | SelfHackingApp/HackableCode.cpp:164-170 | a full Start match at base `b` sets the pending start to `b + 10`, overwriting any earlier one, and scanning resumes at `b + 1` |
| `Markers.StepEnd` | SelfHackingApp/HackableCode.cpp:172-181 | a full End match at base `e` emits `(pending, e)` and clears the pending start, or emits nothing when no start is pending |
| `Markers.StepStop` | SelfHackingApp/HackableCode.cpp:183-186 | a full Stop match ends the scan: nothing more is emitted and a pending start is dropped |
| `Markers.CompleteTag` | SelfHackingApp/HackableCode.cpp:166-187 | on a complete tag: Start sets the pending start just past the tag and emits nothing, End appends the marker of a pending start ending at the base and clears the pending start, Stop reports the end of the scan and emits nothing; exactly the Stop tag ends it, and each action agrees with one step of `ScanFrom` |
| `Markers.ScanWellFormed` | SelfHackingApp/HackableCode.cpp:164-181 | every emitted marker has a Start tag just before `start`, an End tag at `end`, `10 <= start <= end` and no tag inside; markers end before the Stop tag and are strictly ascending and non-overlapping |
| `Markers.EmitWellFormed` | SelfHackingApp/HackableCode.cpp:172-181 | a marker closed at an End tag lies between its Start tag and that End tag with no tag inside, and precedes every later marker |
| `Markers.WellFormedAfterStart` | SelfHackingApp/HackableCode.cpp:168-171 | well-formedness of the rest of the scan carries back over a Start tag, which becomes the pending start |
| `Markers.WellFormedAfterEnd` | SelfHackingApp/HackableCode.cpp:172-181 | well-formedness of the rest of the scan carries back over an End tag, with or without a marker emitted there |
| `Markers.WellFormedAfterUntagged` | SelfHackingApp/HackableCode.cpp:149-154 | well-formedness of the rest of the scan carries back over a base holding no tag |
| `Markers.SkipUntagged` | SelfHackingApp/HackableCode.cpp:149-154 | the scan crosses a stretch without tags without emitting anything or changing the pending start |
| `Markers.InsideTagUntagged` | SelfHackingApp/HackableCode.cpp:9-12 | none of the nine addresses after the first byte of a tag occurrence holds a tag |
| `Markers.SkipTagBody` | SelfHackingApp/HackableCode.cpp:196-198 | advancing the base by one after a full match gives the same result as resuming just past the tag |
| `Markers.Intended` | SelfHackingApp/HackableCode.cpp:164-181 | the markers the build means: one per laid-out pair, in order, each from just past its Start tag to the first byte of its End tag |
| `Markers.ScanPairs` | SelfHackingApp/HackableCode.cpp:164-181 | N non-overlapping Start/End pairs followed by a Stop tag scan to exactly N markers in source order, each from just past its Start tag to the first byte of its End tag |
| `Markers.PassPair` | SelfHackingApp/HackableCode.cpp:164-181 | one Start/End pair from the current base yields its marker, from just past the Start tag to the first byte of the End tag, and the scan resumes after the End tag |
| `Markers.PassStart` | SelfHackingApp/HackableCode.cpp:168-171 | a Start tag followed by untagged bytes brings the scan past them with the start just after that tag pending, whatever was pending before |
| `Markers.PassEnd` | SelfHackingApp/HackableCode.cpp:172-181 | an End tag ends before the Stop tag; a pending start is closed there and the scan resumes after the tag with nothing pending |
| `Markers.LayoutBounds` | SelfHackingApp/HackableCode.cpp:183-186 | the laid-out pairs end at a Stop tag at or after the base |
| `Markers.NoEndNoMarkers` | SelfHackingApp/HackableCode.cpp:164-186 | with no End tag between the base and the Stop tag the scan emits nothing, whatever is pending and whatever Start tags occur |
| `Markers.UnclosedStartDropped` | SelfHackingApp/HackableCode.cpp:168-186 | a Start tag with no End tag after it before the Stop tag yields no marker, whatever other tags follow it |
| `Markers.StartOverwritesPending` | SelfHackingApp/HackableCode.cpp:168-171 | a second Start tag before an End tag replaces the pending start, so the marker starts after the second tag and the scan resumes after the End tag |
| `Markers.UnpairedEndIgnored` | SelfHackingApp/HackableCode.cpp:172-174 | an End tag with no pending start emits nothing |
| `Markers.ScanStopIndependent` | SelfHackingApp/HackableCode.cpp:183-186 | the scan stops at the first Stop tag, whichever later Stop tag bounds it |
| `Markers.ScansToUnique` | SelfHackingApp/HackableCode.cpp:125-199 | a scan from an address has a single result |
| `Markers.ScanReadsOnlyUpToStop` | SelfHackingApp/HackableCode.cpp:125-199 | two images that agree from the origin to the end of the Stop tag scan alike, so nothing at or beyond `stop + 10` is read |
| `Markers.ScanSameTags` | SelfHackingApp/HackableCode.cpp:135-198 | the scan depends on the image only through which tag occurs at each base |
| `Markers.MarkerCache.constructor` | SelfHackingApp/HackableCode.cpp:7 | the cache starts empty |
| `Markers.MarkerCache.ParseHackableMarkers` | SelfHackingApp/HackableCode.cpp:107-114 | a hit returns the stored list and leaves the cache unchanged; a miss scans from the resolved address and stores the result under the unresolved address; a coherent cache stays coherent |
| `Markers.ParseTwiceAgrees` | SelfHackingApp/HackableCode.cpp:201-203 | two requests for the same function return the same markers, the one stored in the cache |
| `Hackable.Nops` | SelfHackingApp/HackableCode.cpp:76-80 | the padding is `n` bytes, each `0x90` |
| `Hackable.Overwrite` | SelfHackingApp/HackableCode.cpp:82 | a write keeps the image's length, puts the source bytes in the window and keeps every byte outside it |
| `Hackable.WriteMemory` | SelfHackingApp/HackableCode.cpp:82 | the memory writer updates the array in place to the overwritten image |
| `Hackable.OverwriteNothing` | SelfHackingApp/HackableCode.cpp:87-90 | writing an empty buffer, as the restore does, leaves the image as it was |
| `Hackable.HackableCode.constructor` | SelfHackingApp/HackableCode.cpp:19-27 | pointer and end pointer are the marker's, `originalCodeLength == end - start`, the copy of the original bytes is empty, the original text is the disassembly of the window and the current text equals it |
| `Hackable.HackableCode.GetAssemblyString` | SelfHackingApp/HackableCode.cpp:33-36 | returns the current text |
| `Hackable.HackableCode.GetOriginalAssemblyString` | SelfHackingApp/HackableCode.cpp:38-41 | returns the original text |
| `Hackable.HackableCode.GetPointer` | SelfHackingApp/HackableCode.cpp:43-46 | returns the code pointer |
| `Hackable.HackableCode.GetOriginalLength` | SelfHackingApp/HackableCode.cpp:48-51 | returns the original length, which is the window's size |
| `Hackable.HackableCode.ApplyCustomCode` | SelfHackingApp/HackableCode.cpp:53-85 | the current text becomes the new text even on failure; activation succeeds exactly when the pointer is not null, the assembler reports no error and the byte count fits the original length; on failure memory is unchanged; on success exactly the window is overwritten with the compiled bytes followed by no-ops up to the original length |
| `Hackable.HackableCode.RestoreState` | SelfHackingApp/HackableCode.cpp:87-90 | writes the (empty) copy of the original bytes at the pointer, so memory is unchanged |
| `Hackable.ParseHackables` | SelfHackingApp/HackableCode.cpp:92-105 | one fresh region per marker, in marker order, each built from its marker; the markers come from the cache |
| `Hackable.Create` | SelfHackingApp/HackableCode.cpp:14-17 | returns one fresh, valid region per marker of the function, in order, each with the marker's pointers and the disassembly of its window as both texts; the markers are the cached entry on a hit and the scan from the resolved address on a miss, and a coherent cache stays coherent |
| `Hackable.ScannedRegionsPatchable` | SelfHackingApp/HackableCode.cpp:99-102 | regions built from a scan have a non-null pointer and a non-negative length, and lie between a Start tag and an End tag |
| `Hackable.PatchKeepsTags` | SelfHackingApp/HackableCode.cpp:82 | patching a region's window with a window-sized buffer leaves the Start tag before it and the End tag after it intact |

## Left out

- Markers.ScanMarkers: requires a Stop-Search tag at or after the resolved address. Without one the source loop reads past any finite image, and the model does not describe that case.
- Hackable.HackableCode.ApplyCustomCode: requires that a successful compilation reports `byteCount` equal to the number of compiled bytes. This is the assembler's contract; with a lying assembler the source would write a buffer of a different size.
- Hackable.HackableCode.ApplyCustomCode: requires the region's window to lie inside the memory image, which the source assumes of its raw pointers.
- `HackUtils::assemble`, `HackUtils::disassemble` and `HackUtils::resolveVTableAddress` are external; they are function-valued parameters about which nothing is assumed, apart from the assembler contract above.
- `HackUtils::writeMemory` is modelled only as a byte-range overwrite. Page-protection changes are not modelled.
- The console diagnostics (lines 67 and 131) are output only and are not modelled.
- Heap ownership is not modelled. `new HackableCode` becomes a fresh Dafny object, and the destructor (lines 29-31) has nothing to model.
- The pointer-to-`unsigned long` casts and the `(int)` length cast (lines 23 and 127) are not modelled. Addresses are unbounded offsets and lengths are unbounded integers.
- Thread safety of the process-wide cache is not modelled, and neither is patching code that is running at the same time. The cache is an explicit object passed to each call.
- Cache coherence (`MarkerCache.Coherent`) is stated for one fixed image. The source assumes tagged code never changes. A patch whose bytes happen to form a tag would change a rescan, but the cache would not notice.
