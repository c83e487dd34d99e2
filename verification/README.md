# Verified model of the kernel's memory management, printf and console code

This project models the core of a small x86-64 kernel and proves what that core promises:

- the physical frame allocator (`src/page_frames.c`): a bitmap of 32-bit words, four counters that
  wrap around at 64 bits, a search hint, and the set-up from the firmware's memory map;
- the four-level page-table mapper (`src/page_map.c`) that builds its tables in raw physical memory
  from frames of that allocator, and its first client `init_pmm` (`src/kernel.c`);
- the printf engine (`src/fmt.c`) with the string routines it uses and `strtok` (`src/string.c`);
- the console renderer and its UTF-8 decoder (`src/ssfn.c`).

Code that changes state is a class (`Allocator`, `Pager`, `Printer`, `Strtok`, `Console`) or a method
over arrays, with the loops, branches and constants of the C code. Every such method is proved equal
to a step of a specification on values: `FrameState.State` for the allocator, `PageTables.Machine`
for memory and tables, `FormatSpec` for the format language, `Tokens.Scan` for the tokeniser,
`Picture` for the frame buffer. The theorems are about those specifications, for all states and all runs.

The main results:

1. **The mapper refines a finite map.** After `pmm_map_memory(v, p)` all addresses on v's page
   translate to p's page and every other address translates, or fails to, as before
   (`AddressSpace.MapRefines`, and the method contract of `PageMapper.Pager.MapMemory`). Over every
   interleaving of mappings and allocator operations that releases no table frame the tables stay a
   tree of distinct, taken frames (`MachineRuns.RunRefines`, `MachineRuns.SeparationMeans`).
2. **Exact cost.** A run from an empty PML4 takes exactly one frame for each distinct 9-, 18- and
   27-bit prefix it maps, so mapping again is free (`ExactCost`, `RemapIsFree`, `MappingsCharge`).
3. **Boot.** `ppa_init` leaves exactly the usable frames clear (`MemoryMap.BootedBitmap`) and the search
   at the last conventional descriptor, so what the first requests can reach is read off the memory map
   (`BootedState.BootedWindow`); if that suffices, `init_pmm` leaves the identity map of memory and
   framebuffer and nothing else (`BootStorage.BootFromMemoryMap`, `Boot.InitPmm`).
4. **The bitmap's own frames.** As long as the window holds the frames a mapping needs, no mapping
   writes one of them or makes a table of it (`BootStorage.BitmapStorageSurvives`). Without a reachable
   frame `init_pmm` takes one of them for its PML4 exactly when the frame right behind the range, whose
   number is the total of pages, is one of them (`BootStorage.RootInStorage`), and the allocator hands
   one of them out in some run exactly under that condition (`BootedState.StorageSafeIff`). A map with a
   hole where all of this happens is `BootedState.HoleInMap`, `BootStorage.HoleTakesRoot`.
5. **Counters.** After every run from `ppa_init` on, `used + rsvd + free` is the total, without
   conditions; `used + rsvd` drifts from the set bits by 4096 for each out-of-range take, no more and no
   less; with matched releases every counter is 4096 times its own set (`BootedState.BootedTotal`,
   `RunGap`, `RunKeepsAudit`).
6. **printf** prints the rendering of the parsed format (`FormatPrinter.Printer.Print`). What that is, is
   told by characters: integer directives of every length read back as their argument, or as its low 8
   or 16 bits (`SignedReadsBack`, `UnsignedReadsBack`), strings show their first characters
   (`StringShows`), and blanks, sign, zeros and digits stand in their places (`SignedLooks`,
   `UnsignedLooks`). Every spelling of a directive has its meaning and whole formats round-trip through
   the parser (`DirectiveReads`, `WrittenFormatParses`); the return value is the output length exactly
   when every `%c` and `%%` has a width (`FormatMeaning`, `FormatLaws`).
7. **strtok** returns the maximal delimiter-free runs in order, then NULL forever, and leaves earlier
   tokens intact (`Tokens`).
8. **The console** finds in a font that is written out byte by byte exactly the entries written
   (`TableReads`, `WrittenFont`), and a painted glyph is told pixel by pixel from the bytes of its record
   and of the font, with a background and without (`GlyphAppears`); nothing outside the rectangle
   changes. The UTF-8 decoder inverts section 3 of RFC 3629 (`GlyphTable`, `GlyphWriting`,
   `GlyphBytes`, `Console`, `Picture`, `Utf8`).

Where the code and the usual reading of its interface differ, the model follows the code:

- An exhausted request returns frame `_max_index + 1`, charges the counters and sets no bit
  (`RequestWhenExhausted`); 0 is returned only when the search starts outside the bitmap.
- The frame it returns then can be one of the bitmap's own: the total is a sum of sizes and not the
  highest frame, so with holes in the memory map the bitmap can lie at or behind it (`HoleInMap`).
- Locking or reserving an address out of range charges the counters without setting a bit. `ppa_init`
  itself does so on a machine with fewer than 256 pages, or when the bitmap's frames are past the
  total, which is what `BootedGap` decides.
- `__print_char` returns its width argument, -1 or 0 included, so `%c` and `%%` without a width count as -1.
- A `0` flag stays in force when the precision is 0, where ISO C11, section 7.21.6.1, has it ignored: a
  field with the flag is the one without exactly when the precision is positive or there is nothing to
  pad on the left (`ZeroFlagInt`, `ZeroFlagUnsigned`); `%05.0d` prints 42 as `00042` (`ZeroFlagStays`).
- With a background colour a glyph fragment that starts above the last painted row is moved down. The
  ink is then the same as without a background exactly when every fragment that is moved is blank
  (`SameInk`); two overlapping fragments where it is not are in `OverlapMovesInk`.

`dafny verify dfyconfig.toml` checks the whole project.

## Model

| member | source | states |
|---|---|---|
| `PageEntry.AddrSetBits` | src/page_map.c:20-25 | storing an address replaces exactly bits 12..51 by its low 40 bits and keeps every other bit |
| `PageEntry.AddrGetBits` | src/page_map.c:27-29 | reading gives exactly bits 12..51, shifted down |
| `PageEntry.AddrGetSet` | src/page_map.c:20-29 | round trip: the address read back is the one stored, modulo 2^40 |
| `PageEntry.AddrSetGet` | src/page_map.c:20-29 | round trip: storing the address an entry already holds does not change the entry |
| `PageEntry.FlagSet` | src/page_map.c:7-14 | setting flags adds exactly the bits of the mask |
| `PageEntry.FlagGetBits` | src/page_map.c:16-18 | a flag test holds exactly when every bit of the mask is set |
| `PageEntry.FlagSetKeepsAddr` | src/page_map.c:7-29 | setting low flags never changes the address field |
| `PageEntry.AddrBelowLimit` | src/page_map.c:27-29 | an address field is below 2^40 |
| `PageEntry.LinkReads` | src/page_map.c:46-47 | an entry linked to a table reads back as that table, present and writable, with all other bits kept |
| `PageEntry.FlagBits` | src/page_map.h:7-9 | present is bit 0, and present and writable are bits 0 and 1 |
| `Bitmap.TestBit` | src/page_frames.c:108-113 | the mask test of a word tells whether its k-th bit is set |
| `Bitmap.TakenAfterSet` | src/page_frames.c:97-105 | or-ing the mask adds exactly one frame to the set, and the padding stays clear |
| `Bitmap.TakenAfterClear` | src/page_frames.c:97-105 | and-ing the complement removes exactly one frame |
| `Bitmap.FullWord` | src/page_frames.c:195-196 | the test that skips a word holds exactly when its 32 bits are all set |
| `FrameState.RequestTakesLeast` | src/page_frames.c:192-207 | with a clear frame in the window, a request returns the least one, sets that bit alone, charges 4096 and moves the hint there |
| `FrameState.RequestWhenExhausted` | src/page_frames.c:192-207 | without one it returns the frame past the range and sets no bit, or 0 and no change when the scan starts outside the bitmap |
| `FrameState.RequestsInOrder` | src/page_frames.c:192-207 | k requests return the k least frames of the window, strictly ascending, and remove exactly those; as many as the window has return all of it |
| `FrameState.ReuseAfterRelease` | src/page_frames.c:142-183 | the request after a release of f, locked or reserved, returns the least clear frame of f's word, so one in [32*(f/32), f] |
| `FrameState.TakenStayOwned` | src/page_frames.c:126-207 | frames that no operation of a run releases stay taken, and no request of the run returns one |
| `FrameState.RunKeepsValid` | src/page_frames.c:126-207 | every run keeps the frame set in range and never changes the range or the total |
| `FrameState.StepConservesTotal` | src/page_frames.c:126-207 | every operation, in range or not, keeps used + rsvd + free modulo 2^64 |
| `FrameState.RunConservesTotal` | src/page_frames.c:126-207 | so does every run, without any condition |
| `FrameState.SearchNeverGoesBack` | src/page_frames.c:193-204 | while nothing is released no request returns a frame below the word where the search stood |
| `FrameState.StepGap` | src/page_frames.c:126-183 | used + rsvd moves away from 4096 times the set bits exactly when a frame out of range is taken |
| `FrameState.RunGap` | src/page_frames.c:126-207 | over a run the difference is 4096 for each such operation, so it is 0 for runs in range |
| `FrameState.StepKeepsAudit` | src/page_frames.c:126-207 | an operation keeps used, rsvd and free equal to 4096 times the locked, the reserved and the clear frames exactly when it takes no frame out of range and releases a frame the way it was taken |
| `FrameState.RunKeepsAudit` | src/page_frames.c:126-207 | so does every matched run in range |
| `MemoryMap.LargestIsConventional` | src/page_frames.c:61-72 | the segment found is a conventional descriptor, none is larger and each one before it is smaller, so it is the first of the largest |
| `MemoryMap.TotalsAdd` | src/page_frames.c:57-73 | the pages of a map in two parts are those of the parts, and of one descriptor its own |
| `MemoryMap.RangeReleases` | src/page_frames.c:152-190 | a range release clears exactly the frames of the range, and the search then stands at the word of its first frame, taken or not |
| `MemoryMap.StorageHoldsBitmap` | src/page_frames.c:38-82 | the pages set aside cover every byte of the bitmap's words, by less than one page too many |
| `MemoryMap.BootedBitmap` | src/page_frames.c:53-95 | after ppa_init a frame in range is clear exactly when it is at least 256, in a conventional descriptor and not in the bitmap's storage, overlapping descriptors included |
| `MemoryMap.BootedGap` | src/page_frames.c:83-93 | after ppa_init used + rsvd is 4096 times the set bits exactly when there are 256 pages and the storage is in range |
| `MemoryMap.BootedAudit` | src/page_frames.c:83-93 | then each counter counts its own set, and locked are exactly the storage frames that are conventional and at least 256 |
| `BootedState.BootedHint` | src/page_frames.c:85-91 | ppa_init leaves the search at the first frame of the last conventional descriptor, whatever the hint was before |
| `BootedState.BootedWindow` | src/page_frames.c:83-93 | the clear frames that requests can then reach are the usable ones from the word of that frame on |
| `BootedState.LowerFramesUnreachable` | src/page_frames.c:192-207 | until something is released no request returns a frame below that word |
| `BootedState.BootedTotal` | src/page_frames.c:57-73 | after every run from ppa_init on used + rsvd + free is mem_total modulo 2^64, and that is the sum of the map |
| `BootedState.StorageNeverHandedOut` | src/page_frames.c:81-93 | if the frame behind the range is no storage frame, then after every run that releases none of them the next request returns none of them, those past the range included |
| `BootedState.StorageHandedOut` | src/page_frames.c:192-207 | if it is one, setting the hint and requesting alone lead to a request that returns it |
| `BootedState.StorageSafeIff` | src/page_frames.c:78-93 | so the storage is safe from every such run exactly under that condition |
| `BootedState.HoleInMap` | src/page_frames.c:78-93 | a map of 300 low pages and 10 conventional ones at frame 310: the first request after ppa_init returns the bitmap's own frame |
| `BootedState.HoleGap` | src/page_frames.c:83-93 | on that map used + rsvd is not 4096 times the set bits |
| `FrameAllocator.Allocator.constructor` | src/page_frames.c:4-16 | the global state before ppa_init: an empty bitmap, all counters and the hint 0 |
| `FrameAllocator.Allocator.InitBitmap` | src/page_frames.c:37-44 | the bitmap has pages/32 + 1 zero words and stands for the empty set |
| `FrameAllocator.Allocator.Survey` | src/page_frames.c:57-73 | the first loop of ppa_init: the total of the map and the first of its largest conventional segments |
| `FrameAllocator.Allocator.FreeSegments` | src/page_frames.c:85-91 | the second loop: the frames of every conventional descriptor are released in turn |
| `FrameAllocator.Allocator.Init` | src/page_frames.c:53-95 | ppa_init reaches the booted state with the bitmap at the start of the first largest conventional descriptor; it does nothing the second time, and stops after the totals without a segment |
| `FrameAllocator.Allocator.BitmapGet` | src/page_frames.c:108-113 | 1 exactly for a taken frame; an index out of range reads as clear |
| `FrameAllocator.Allocator.BitmapSet` | src/page_frames.c:97-106 | adds or removes exactly one frame of the set; an index out of range changes nothing |
| `FrameAllocator.Allocator.Lck` | src/page_frames.c:126-133 | one Lck step of the state machine on words and counters |
| `FrameAllocator.Allocator.Lckn` | src/page_frames.c:135-140 | n Lck steps at consecutive pages, with wrap-around of the address |
| `FrameAllocator.Allocator.Ulck` | src/page_frames.c:142-150 | one Ulck step, which moves the hint |
| `FrameAllocator.Allocator.Ulckn` | src/page_frames.c:152-157 | n Ulck steps and the hint at the first page |
| `FrameAllocator.Allocator.Rsv` | src/page_frames.c:159-166 | one Rsv step |
| `FrameAllocator.Allocator.Rsvn` | src/page_frames.c:168-173 | n Rsv steps at consecutive pages |
| `FrameAllocator.Allocator.Ursv` | src/page_frames.c:175-183 | one Ursv step |
| `FrameAllocator.Allocator.Ursvn` | src/page_frames.c:185-190 | n Ursv steps and the hint at the first page |
| `FrameAllocator.Allocator.Search` | src/page_frames.c:193-200 | the nested scan stops at the first index from the hint's word on that reads as clear, and only fails when it starts outside the bitmap |
| `FrameAllocator.Allocator.Request` | src/page_frames.c:192-207 | a request on words and counters is the Request step |
| `FrameAllocator.SearchEnds` | src/page_frames.c:38-40 | because of the padding bit a scan that starts inside the bitmap always finds an index |
| `PageTables.WalkFindsLeaf` | src/page_map.c:84-119 | in a tree of tables the walk of any address reads the leaf that the tree holds for it, or nothing |
| `PageTables.GrowKeepsTree` | src/page_map.c:43-48 | requesting, zeroing and linking a frame adds one table to the tree, keeps it a tree and changes no leaf |
| `PageTables.LeafWritten` | src/page_map.c:77-81 | writing a leaf entry keeps the tree and changes that leaf alone |
| `PageTables.InstallMaps` | src/page_map.c:41-82 | from any level down, the mapping adds exactly the missing tables, sets the leaf of v and keeps all other leaves |
| `AddressSpace.IndexIsDigit` | src/page_map.c:41-77 | the four indices are the 9-bit digits of the address from bit 12 up |
| `AddressSpace.SameTable` | src/page_map.c:41-65 | two addresses use the same table at a level exactly when they share that prefix |
| `AddressSpace.SamePageIff` | src/page_map.c:41-77 | two addresses share a leaf entry exactly when bits 47..12 agree |
| `AddressSpace.ShortfallIsMissing` | src/page_map.c:43-75 | the frames a call requests are the tables of the address that the tree lacks |
| `AddressSpace.MapRefines` | src/page_map.c:36-82 | after the call every address on v's page translates to p's page and every other one as before, and the tables are a tree again |
| `AddressSpace.MappedEntry` | src/page_map.c:77-81 | the leaf is present and writable and keeps the flags and high bits it had |
| `AddressSpace.PageBaseIsPage` | src/page_map.c:79-79 | below 2^52 the stored page is the address without its offset |
| `MachineRuns.TreeIsUnique` | src/page_map.c:36-82 | a machine has at most one tree of tables |
| `MachineRuns.SeparationMeans` | src/page_map.c:43-75 | reachable tables of every level are distinct taken frames in range, and no two entries name the same table, or the root |
| `MachineRuns.RunRefines` | src/page_map.c:36-119 | every run of mappings and of operations that release no table keeps the tree and translates as the finite map of its mappings |
| `MachineRuns.RunGrowsTables` | src/page_map.c:41-75 | the tables after a run are those before and those its mappings need, and it took one frame for each new one |
| `MachineRuns.ExactCost` | src/page_map.c:41-75 | from an empty PML4 a run takes as many frames as there are distinct v>>39, v>>30 and v>>21 over 48 bits |
| `MachineRuns.RemapIsFree` | src/page_map.c:43-75 | mapping where a mapping of the run has the same v>>21 changes nothing in the allocator |
| `MachineRuns.MappingsCharge` | src/page_frames.c:126-133 | a run of mappings moves 4096 for each frame it takes from free to used, modulo 2^64, and leaves rsvd |
| `MachineRuns.EnoughFrames` | src/page_map.c:43-75 | a window with as many frames as the cost of the run suffices for all of it, and shrinks by exactly that |
| `MachineRuns.StepSpares` | src/page_map.c:36-82 | for frames that are taken or past the range and no tables, one step (a mapping that finds its frames, or an allocator call that releases none of them) writes no word of them and makes a table of none, and those in range stay taken |
| `MachineRuns.RunSpares` | src/page_map.c:36-82 | so does every run of such steps |
| `PageMapper.Pager.constructor` | src/page_map.c:5-5 | a mapper over given memory and allocator |
| `PageMapper.Pager.InitPml4` | src/page_map.c:31-34 | sets the root and nothing else |
| `PageMapper.Pager.ZeroFrame` | src/page_frames.c:209-214 | zeroes the 512 words of a frame and no other |
| `PageMapper.Pager.NewTable` | src/page_map.c:43-48 | requests, zeroes and links a table |
| `PageMapper.Pager.NextTable` | src/page_map.c:41-51 | one of the three equal blocks: follows the entry, or grows a table, and leaves the same mapping to do one level down |
| `PageMapper.Pager.WriteLeaf` | src/page_map.c:77-81 | the last level of the mapping |
| `PageMapper.Pager.Descend` | src/page_map.c:41-81 | the four levels in turn write the mapping of the specification |
| `PageMapper.Pager.MapMemory` | src/page_map.c:36-82 | in place, the mapping of the specification: v's page now translates to p's page, all other addresses as before, and the tables are a tree |
| `PageMapper.Pager.FindPaddr` | src/page_map.c:84-119 | the page that the address translates to, or 0 |
| `Boot.FreshTree` | src/kernel.c:33-35 | a requested and zeroed PML4 is a tree of one table that translates nothing |
| `Boot.IdentityMapped` | src/kernel.c:36-39 | a list of mappings of addresses to themselves translates exactly the pages it lists, each to itself |
| `Boot.BootIdentityMap` | src/kernel.c:32-41 | with as many clear frames as the tables cost, every page of memory and framebuffer translates to itself and every other 48-bit page is unmapped, overlapping or not |
| `Boot.AlignedIdentity` | src/kernel.c:36-39 | for aligned ranges those are exactly the addresses below the total and in the framebuffer |
| `Boot.NewPml4` | src/kernel.c:33-35 | request, zero and register the PML4 |
| `Boot.MapIdentity` | src/kernel.c:36-39 | one of the two address-stepping loops performs its mappings in order |
| `Boot.InitPmm` | src/kernel.c:32-41 | init_pmm in place reaches the machine after all mappings, which translates as the identity map |
| `BootStorage.RootInStorage` | src/kernel.c:33-35 | init_pmm takes one of the bitmap's frames for its PML4, and zeroes it, exactly when no usable frame can be reached and the frame behind the range is one of them (or frame 0 is, if the search starts outside) |
| `BootStorage.HoleTakesRoot` | src/kernel.c:33-35 | on the map with the hole the PML4 is the bitmap's frame 310 and every word of it is 0 |
| `BootStorage.GrowsPastRange` | src/page_map.c:43-48 | a mapping that misses a table when no frame can be reached links the frame behind the range and zeroes it |
| `BootStorage.BitmapStorageSurvives` | src/page_frames.c:78-93 | if a usable frame can be reached and every mapping finds the frames it needs, then from ppa_init through the PML4 and every later run without a release of them, all frames of the bitmap, in range or not, are no tables and keep every word, and those in range stay taken |
| `BootStorage.BootFromMemoryMap` | src/kernel.c:32-41 | if the memory map leaves as many reachable frames as the tables cost, ppa_init and init_pmm end in the identity map with the bitmap's frames untouched |
| `Strings.Strlen` | src/string.c:3-8 | the length of the text before the first NUL |
| `Strings.Strrev` | src/string.c:10-21 | the text reversed in place, with nothing before it or from its NUL on changed |
| `Strings.ReverseAt` | src/string.c:15-19 | character k of the reversed text is character n-1-k of the text |
| `Strings.ReverseTwice` | src/string.c:10-21 | reversing twice is the identity |
| `Strings.FirstDifference` | src/string.c:23-28 | byte order is settled at the first place where the texts differ or one of them ends |
| `Strings.Strcmp` | src/string.c:23-28 | 0 exactly for equal texts, negative exactly when the first is before the second in byte order |
| `Tokens.SpansAreMaximalRuns` | src/string.c:39-65 | the tokens of a text are exactly its maximal delimiter-free runs, from left to right |
| `Tokens.Strtok.InDelims` | src/string.c:41-44 | the inner loop finds a character exactly when it is a delimiter |
| `Tokens.Strtok.SkipFrom` | src/string.c:39-44 | the loop at cont stops at the first character that is no delimiter |
| `Tokens.Strtok.Cut` | src/string.c:52-65 | the token ends at the next delimiter, which is overwritten, or at the NUL, after which nothing is left |
| `Tokens.Strtok.Next` | src/string.c:30-68 | one call with its hidden state and its buffer is one step of the specification |
| `Tokens.RunReturnsTokens` | src/string.c:30-68 | a first call and any number of calls with NULL return the runs of the original text in order, then NULL forever |
| `Tokens.TokensStayIntact` | src/string.c:52-62 | after any number of further calls each returned pointer still reads its own token |
| `Digits.DigitTable` | src/fmt.c:108-116 | the digits are 0 to 9 and the letters from a or A on |
| `Digits.NumeralReadsBack` | src/fmt.c:17-30 | the digits read back in their base are the value |
| `Digits.NoLeadingZero` | src/fmt.c:20-27 | the numeral of a positive value has no leading zero |
| `Digits.NumeralLength` | src/fmt.c:20-27 | a value has at most k digits exactly when it is below base^k |
| `Digits.Digits64` | src/fmt.c:6-6 | no 64-bit value has more than 22 digits in base 8, 10 or 16 |
| `Digits.BinaryFits` | src/fmt.c:6-6 | 31 binary digits suffice exactly below 2^31 |
| `Digits.FillDigits` | src/fmt.c:20-27 | the do-while loop leaves the digits, least significant first, and nothing else changed |
| `Digits.CloseText` | src/fmt.c:28-29 | terminating and reversing the buffer leaves the digits in order |
| `Digits.Utoa` | src/fmt.c:17-30 | the buffer holds the upper-case numeral of the value, terminated |
| `Digits.Itoa` | src/fmt.c:32-40 | with a minus sign in front for a negative value |
| `FormatPrinter.Printer.constructor` | src/fmt.c:6-6 | the shared buffer of 32 characters and no output |
| `FormatPrinter.Printer.PutBuffer` | src/fmt.c:72-74 | the loops over the buffer emit its text |
| `FormatPrinter.Printer.FillNumber` | src/fmt.c:108-123 | the buffer holds the digits with the zeros of the precision, in reading order |
| `FormatPrinter.Printer.PutField` | src/fmt.c:65-99 | sign, padding and digits on the side that align and pad ask for, and their count |
| `FormatPrinter.Printer.PrintInt` | src/fmt.c:43-100 | emits the integer field of the specification and returns its length |
| `FormatPrinter.Printer.PrintUnsigned` | src/fmt.c:103-144 | emits the unsigned field and returns its length |
| `FormatPrinter.Printer.PrintChar` | src/fmt.c:146-155 | emits the padded character and returns the width argument |
| `FormatPrinter.Printer.PrintStr` | src/fmt.c:157-178 | emits the padded and truncated string and returns its length |
| `FormatPrinter.Printer.IsFmtFlag` | src/fmt.c:180-186 | tells exactly the four flag characters |
| `FormatPrinter.Printer.ReadInt` | src/fmt.c:8-15 | the value of the digits and the place behind them |
| `FormatPrinter.Printer.ReadFlags` | src/fmt.c:198-219 | the flag variables depend on the set of flag characters alone |
| `FormatPrinter.Printer.ReadWidth` | src/fmt.c:221-224 | the width, or -1 |
| `FormatPrinter.Printer.ReadPrecision` | src/fmt.c:225-228 | the precision behind a dot, or -1 |
| `FormatPrinter.Printer.ReadLength` | src/fmt.c:229-236 | the length modifier, h and hh negative, l and ll positive |
| `FormatPrinter.Printer.ReadDirective` | src/fmt.c:195-237 | the directive that the parser of the specification finds, and the place behind it |
| `FormatPrinter.Printer.PrintDirective` | src/fmt.c:237-340 | the field of a directive and what it adds to the result |
| `FormatPrinter.Printer.Print` | src/fmt.c:188-347 | for every well-formed format and matching arguments the output is the rendering of the parsed items and the result is their count |
| `FormatLaws.FieldLength` | src/fmt.c:65-99 | a number field is as long as its width, or its sign and digits if longer |
| `FormatLaws.BodyAtMost22` | src/fmt.c:6-6 | without a precision the digits of bases 8, 10 and 16 need at most 22 places of the buffer |
| `FormatLaws.IntFieldReadsBack` | src/fmt.c:43-100 | the emitted field read in base 10 gives n, and has length max(width, sign and digits) |
| `FormatLaws.UnsignedFieldReadsBack` | src/fmt.c:103-144 | the emitted field read in its base gives n, and has length max(width, digits) |
| `FormatLaws.ZeroFlagInt` | src/fmt.c:57-88 | under the 0 flag a signed field differs from the one without exactly when the precision is 0 or absent and blanks would be padded on the left |
| `FormatLaws.ZeroFlagUnsigned` | src/fmt.c:117-138 | so does an unsigned one |
| `FormatLaws.ZeroFlagStays` | src/fmt.c:57-58 | the format %05.0d prints 42 as 00042 |
| `FormatLaws.CountIsOutput` | src/fmt.c:196-346 | for positive widths the count is the number of characters emitted less 2 for each c and % without a width |
| `FormatLaws.ReturnValue` | src/fmt.c:196-346 | for every parsed format, and so they are equal exactly when every one of those has a width |
| `FormatLaws.BareCharacter` | src/fmt.c:146-155 | the format %c emits one character and returns -1 |
| `FormatLaws.FlagsThenTail` | src/fmt.c:201-219 | a directive means its tail under the set of its flags |
| `FormatLaws.FlagOrderIrrelevant` | src/fmt.c:201-219 | the order and repetition of flags never matter |
| `FormatLaws.WrittenParses` | src/fmt.c:195-237 | round trip: a directive written out, with anything behind it, parses back to itself |
| `FormatMeaning.SignedReadsBack` | src/fmt.c:238-272 | %d and %i print a field that reads back in base 10 as the argument, under h and hh as the value in [-2^15, 2^15) and [-2^7, 2^7) that is congruent to it |
| `FormatMeaning.UnsignedReadsBack` | src/fmt.c:273-320 | %u, %o, %x, %X and %b print a field that reads back in base 10, 8, 16, 16 and 2 as the argument, under h and hh as its residue modulo 2^16 and 2^8 |
| `FormatMeaning.UnsignedCase` | src/fmt.c:279-279 | %X prints no small letter and the others no capital one |
| `FormatMeaning.SignedLooks` | src/fmt.c:43-100 | a signed field is blanks, sign, zeros, digits and blanks: blanks right only under the - flag and left only without it, zeros only for the precision or the 0 flag, as long as the width or the content |
| `FormatMeaning.UnsignedLooks` | src/fmt.c:103-144 | so is an unsigned one, without a sign |
| `FormatMeaning.StringShows` | src/fmt.c:157-178 | a string field is as long as the width or the shown part; left-aligned that part stands first and blanks behind, else blanks and then that part |
| `FormatMeaning.CharacterShows` | src/fmt.c:146-155 | a character field is the low byte of the argument, or a percent sign, with blanks on the side the - flag asks for |
| `FormatMeaning.PointerShows` | src/fmt.c:331-335 | %p prints 16 capital digits of base 16 that read back as the pointer |
| `FormatMeaning.DirectiveReads` | src/fmt.c:195-237 | every spelling of flags, width digits, a dot with digits or none, length letters and conversion means its settings; a plus wins over a blank and a lone dot is precision 0 |
| `FormatMeaning.PlainPrintsItself` | src/fmt.c:341-346 | a format without a percent sign prints itself and returns its length |
| `FormatMeaning.PartsPrint` | src/fmt.c:188-347 | a format in two parts prints what the parts print, each with its own arguments, and returns the sum |
| `FormatMeaning.OnePrints` | src/fmt.c:237-340 | the letters d i b u o x X c s p print the field of their argument, of the others only the percent sign prints |
| `FormatMeaning.WrittenFormatParses` | src/fmt.c:188-347 | round trip: a whole format that is written out parses back to its items, from any place on |
| `Utf8.LeadTable` | src/ssfn.c:27-46 | how many bytes each of the 256 lead bytes takes, and that those that are no lead decode to 0 |
| `Utf8.Utf8` | src/ssfn.c:27-46 | the masks and shifts compute the code point, and the pointer advances by the length of the sequence |
| `Utf8.DecodesOne` | src/ssfn.c:27-46 | the encoding of any scalar value, anywhere in a text, decodes to it and is passed over exactly |
| `Utf8.RoundTrip` | src/ssfn.c:27-46 | decoding again and again over the encodings of a sequence of scalar values gives the sequence back and stops at its end |
| `GlyphTable.GlyphsFrom` | src/ssfn.c:70-90 | a table has glyphs only for the code points it spans |
| `GlyphTable.FindGlyph` | src/ssfn.c:70-92 | the walk through the skip codes finds a record exactly when the sparse map has the code point, and it is that record |
| `GlyphWriting.TableReads` | src/ssfn.c:70-90 | round trip: a table written with one-byte skips up to 64, two-byte skips up to 0x3F00 and 0xFF for 65536 decodes to exactly its entries and spans the code points up to its end |
| `GlyphWriting.MapIsSettled` | src/ssfn.c:70-90 | whatever codes are read from the same bytes, they agree on every code point that both cover |
| `GlyphWriting.WrittenTableIsFound` | src/ssfn.c:70-92 | so the map that the walk finds in a written table is the entries and nothing else |
| `Picture.TransparentPicture` | src/ssfn.c:96-133 | without a background a pixel turns to the foreground exactly where some fragment has ink, and else stays |
| `Picture.OpaqueTiles` | src/ssfn.c:105-139 | with a background the strokes of a glyph lie below each other without gap or overlap |
| `Picture.TileShows` | src/ssfn.c:105-139 | so each pixel shows the one stroke of its row |
| `Picture.OpaquePicture` | src/ssfn.c:105-139 | with a background the pixel shows the ink of the fragments as they are moved down, and around it background as far as fragment or glyph reaches |
| `Picture.OrderedStay` | src/ssfn.c:106-114 | exactly the fragments from top to bottom without overlap stay where they are |
| `Picture.SameInk` | src/ssfn.c:105-139 | the ink is the same with and without a background exactly when every fragment that is moved down is blank |
| `Picture.OverlapMovesInk` | src/ssfn.c:105-139 | two overlapping fragments where it is not |
| `Picture.RowAdds` | src/ssfn.c:118-132 | a row written through a pointer at (cursor row + y)*s + cursor column changes exactly row y of the stroke, inside the rectangle |
| `Picture.RestHidden` | src/ssfn.c:106-135 | where the painter has stopped at the lower edge, its row does not matter for the rest |
| `Console.Console.FillRow` | src/ssfn.c:108-109 | one row of background, clipped at the right edge |
| `Console.Console.FillRows` | src/ssfn.c:106-110 | the band of background down to a row, clipped at the lower edge, with the pointer at the row reached |
| `Console.BitUnder` | src/ssfn.c:121-126 | the byte and the mask test exactly bit n of the bitmap |
| `Console.Console.BlitRow` | src/ssfn.c:119-132 | the running byte and mask denote bit n + l throughout, and each pixel of the row inside the width shows it |
| `Console.Console.Blit` | src/ssfn.c:115-132 | the whole bitmap is stamped at its row, clipped, and nothing else is written |
| `Console.Console.PaintFragment` | src/ssfn.c:105-132 | the band above a fragment, or the jump to its top, and its bitmap |
| `Console.DescriptorHead` | src/ssfn.c:97-104 | a descriptor of 5 or 6 bytes gives the place of its fragment in little-endian order, and the type test keeps bitmaps alone |
| `Console.Console.PaintNext` | src/ssfn.c:96-133 | one descriptor is skipped or its fragment painted, and the rest of the glyph is still to paint |
| `Console.Console.PaintGlyph` | src/ssfn.c:93-139 | the frame buffer shows all strokes of the glyph, pixel by pixel, and no word outside the rectangle changes |
| `Console.Console.PaintRest` | src/ssfn.c:134-139 | the band below the last fragment completes the glyph |
| `Console.Console.Putc` | src/ssfn.c:60-143 | each of the two errors exactly in its case and without a change; else the glyph is painted and the cursor advances |
| `GlyphBytes.PartReads` | src/ssfn.c:97-126 | byte 1 of a descriptor is the row of its bitmap, the bytes at its place give columns and rows, and the bits behind them are the ink |
| `GlyphBytes.InkIsMarked` | src/ssfn.c:96-133 | the fragments of a record have ink exactly where a descriptor of it puts a set bit |
| `GlyphBytes.StrokesShow` | src/ssfn.c:105-139 | with a background the strokes show the picture that is read off the descriptors from top to bottom |
| `GlyphBytes.GlyphAppears` | src/ssfn.c:93-139 | a painted record in terms of its bytes: without a background a pixel is the foreground exactly when for some descriptor the bit under it is set, else unchanged; with one it is that picture; outside the rectangle it is unchanged |
| `GlyphBytes.WrittenFont` | src/ssfn.h:88-102 | a font with the magic bytes, the table's place in bytes 16 to 19 and a written table there is one the renderer can use, for exactly those entries |
| `Console.GlyphShows` | src/ssfn.c:93-139 | a painted glyph shows at every pixel of the rectangle the ink of its fragments, moved down with a background, and that background, and nothing outside it |

## Left out

- Clearing flags (`pmm_flag_set` with 0): nothing calls it, and the width of the complemented mask depends on the compiler.
- PageMapper.Pager.NextTable: the three blocks of `pmm_map_memory` differ only in the shift and are one method, called three times.
- PageMapper.Pager.ZeroFrame: `ppa_memset` stores bytes; the model stores the words they make up.
- PageMapper.Pager.MapMemory: asks for enough clear frames in the search window, because the C code does not test what `ppa_request` returns; frames are below 2^40.
- FrameAllocator.Allocator.Ulckn: at most 2^19 pages, where the int product of the C code is defined.
- FrameAllocator.Allocator.Ursvn: as for the member above.
- FrameAllocator.Allocator.InitBitmap: fewer than 2^36 - 32 pages, so that the int loop counter can reach the number of words.
- FrameAllocator.Allocator.Init: the map is a sequence of descriptors; stepping through it by a byte stride is not modelled, and `get_memory_size`, which repeats its sum, is left out.
- MemoryMap.BootedBitmap: descriptors are whole pages of at most 2^19 pages, and the largest segment is not at address 0, which the code takes for none.
- The bitmap is an array apart from the memory that holds the page tables. That the mapper never writes its frames as long as the window holds the frames a mapping needs is proved (`MachineRuns.RunSpares`, `BootStorage.BitmapStorageSurvives`); what becomes of the bitmap when a frame of it is handed out and written (`BootedState.HoleInMap`, `BootStorage.HoleTakesRoot`) is outside the model.
- Boot.InitPmm: addresses below 2^48, as the tables translate no more; loading the root register is a no-op.
- `ppa_memcpy`, the getters of the counters and the rest of `src/kernel.c`: single steps.
- Hardware effects of paging, writes by users of mapped pages, the bootloader, interrupts, ports and the serial line.
- Strings.Strcmp: characters are compared by their code, as bytes are once both are read unsigned.
- Variable arguments: the arguments are a typed list that matches the format. `%f` takes and emits nothing, as in the code.
- FormatPrinter.Printer.Print: a format that ends inside a directive, precisions above 31, binary values from 2^31 on and the least signed value are outside, since the code then reads past the format, overruns its buffer or negates out of range; overflow of int width, precision and count is not modelled.
- Digits.Utoa: bases from 2 to 36 and a buffer that is long enough.
- Tokens.RunReturnsTokens: one delimiter set for all calls of a run; `Tokens.Strtok.Next` lets it differ from call to call.
- GlyphTable.FindGlyph: the table covers all code points, since the walk has no other end.
- Utf8.Utf8: the decoder checks nothing, so its caller has to supply whole sequences.
- Console.Console.Putc: a row fits the pitch and the pitch is whole words. Where the code tests no limit (above the buffer, and across or down when w or h is 0) the strokes of the glyph have to stay inside the buffer by themselves, and the cursor stands left of the rows only without a background, because the loops that fill it would then write before the row. A null destination, overflow of the cursor and a font of 2^31 bytes or more are not modelled.
