# guideXOS boot path and kernel arithmetic, verified

This project models the boot path of guideXOS as one pipeline, and a few exact-arithmetic and
caching cores of its kernel library. Properties are proved for all inputs, all firmware answers
and all runs. Everything imperative in the source (table entries, the framebuffer, the BootInfo
page, caches, digit buffers) is imperative here, proved against specification functions whose own
properties are lemmas.

**Page tables** (`PageTables`, `Mappings`, `Paging`, `BootMapping`, `Hardware`). Physical memory is a
map from page addresses to 512 words, shared by tables and loaded data. The invariant `Tree(mem, dir,
spec)` says that memory holds the four-level tree `dir` with the translation `spec` in its leaves: every
table has one parent entry, no table is shared, no non-leaf entry is a large page. Every mapping call
keeps it, also when it fails half way, leaves all other pages of memory alone, and the hardware walk
(Intel SDM Vol. 3A, section 4.5) equals `spec`. `Hardware` defines that walk a second time, in bit
positions alone, with the right to write and the caching it gives: after the boot sequence every mapped
address may be written and exactly the device pages without a remembered table are uncached. A call is a
last-writer-wins update of `spec`, with the 64-bit wrap of its end address written out, and it succeeds
if and only if the firmware has a page for every table still missing. The tables are the firmware's
pages in order, and their count is one plus the distinct 512 GiB, 1 GiB and 2 MiB regions touched. Both
self-map loops end and map every *remembered* table. The whole sequence of `efi_main` succeeds if and
only if the firmware has as many pages as the pages to be mapped need tables, a number known from the
regions and the firmware's first 512 pages; 1 + 512 + 512^2 + 512^3 pages always suffice. **Finding:**
only 512 tables are remembered (`paging.cpp:29`), while the 1 GiB heap range alone (`main.cpp:780-782`)
needs 512 page tables, so every successful boot has at least 516 tables and forgets those on the
firmware's pages from number 512 on, contrary to the comment at `paging.cpp:187`. The active tree is
identity mapped if and only if every such page is device memory, or else is led to itself by the
kernel's virtual range, or else lies outside that range and in an identity range; a page the kernel's
range leads elsewhere is mapped, but not to the table.

**Kernel image** (`Bytes`, `PeFile`, `ElfFile`, `PeToElf`, `ElfLoader`, `PhysicalMemory`, `KernelImage`,
`UnalignedKernel`). A file is parsed as an image if and only if it is laid out from it as PE32+ says;
the emitted ELF reads back as the headers built and holds each section's bytes in aligned, ordered,
disjoint ranges; the loader's memory is zeros overlaid by the segments. The image and the page tables
then stand in one physical memory, the firmware's pages being given once. `KernelImage.BootKernel` runs
conversion, loading and mapping one after the other: it succeeds if and only if the image is loaded and
there are pages for the tables, and the arguments of the mapping calls are a function
(`BootMapping.BootPlan`) of what `efi_main` knows. Then, for every PE file with separate section ranges
whose lowest loaded address is page-aligned, reading address ImageBase + VA + k through the page tables
gives the byte of the PE file k places into the section's raw data, or 0 past it, and the entry point is
reached. **Finding:** when the lowest loaded address is not page-aligned, every read is displaced by its
offset in the page, because `MapRange` aligns both ends down while the loader starts the image at a page
boundary; `UnalignedKernel` gives a PE file of 162 bytes that the whole pipeline accepts and whose first
section byte 7 is then read as 9, and runs one such boot, which also leaves a table without its identity
mapping. The loader itself checks neither `filesz <= memsz` nor that an end does not wrap; when its copy
stays inside its pages is stated for all program headers.

**Exit protocol and BootInfo** (`ExitBootServices`, `BootInfo`, `Handover`). The firmware is an object with a
finite schedule of events: before any boot-service call it may replace its memory map or fail the
call. Its methods' preconditions say what UEFI 2.10 (sections 7.2.3 and 7.4.6) forbids: calls after
the exit, freeing or using a dead block, a map larger than the block. On success the caller's buffer
holds exactly the map that was current at the exit, and anything but success is the answer of a failed
call, a map too large for the buffer, or a missing buffer: maps that change again and again only make
the loop go round. The BootInfo page is then sealed so that the
validator's checksum accepts it and any later change of a single word is rejected; `Handover`
composes protocol and seal, and shows both readable through the final tables. **Finding:** the
checksum routine alone accepts a change of one summed word if and only if it is the word holding Size,
the new Size covers the block, and the words it newly covers or leaves out make up for the change; the
validator's strict size check closes this. The section sizes in the comments of
`guidexOSBootInfo.h` do not add up to `sizeof(BootInfo)`; the fields as declared give 168 bytes, which
the model follows.

**Calendar** (`Calendar`, `DateTimes`). Day numbers are defined by adding up year and month lengths;
the nested divisions with last-period corrections, the guessed month and its search loop, and the
truncating divisions of `AddMonths` are proved against that definition. **Findings:** neither `AddMonths`
nor `AddYears` checks its result, and `AddYears` multiplies by twelve in 32 bits. For every moment and
argument the month index or the year moves by exactly the argument if and only if the target is not
before year 1 and its ticks are below 2^62, which holds in every year up to 14613, in part of 14614 and
in none after; `AddTicks` is exact if and only if the sum stays in the 62 tick bits.

**Text console** (`PixelBuffer`, `TextGrid`, `FbConsole`). Every byte operation on the framebuffer is
shown to display a grid of character cells, whose pixels are given byte by byte from the bits of the
font, and the grid is the last rows of the same text laid out on an endless page: scrolling loses
nothing but the top.

**Arithmetic and caches** (`Decimal`, `StringPool`, `AcpiTimer`, `JKiss`). Decimal round trips
through wrapping arithmetic (**finding:** the most negative `long` prints as `-(` and is the only
value that does not come back), transparent string caches, the wrapping timer accumulator, and the
invariants of the random generator, none of whose steps loses information.

`Words` holds fixed-width integers, wrap-around and the truncating division of C and C#.

## Model

| member | source | states |
|---|---|---|
| PageTables.WalkRefinesTranslation | guideXOSBootLoader/boot_diagnostics.h:179-221 | in every reachable state the four-level walk of any 64-bit address gives the frame and flags of the abstract translation, and nothing else is mapped |
| PageTables.CheckAddressMappingMeaning | guideXOSBootLoader/boot_diagnostics.h:179-221 | the diagnostic returns the mapped physical address; it returns 0 if and only if the root is page 0, the address is unmapped, or it is the first byte of a page mapped to frame 0 |
| PageTables.StepDown | guideXOSBootLoader/paging.cpp:45-81 | a non-leaf entry is present exactly when the child table exists, then points at it, and never has the large-page bit, so the EFI_UNSUPPORTED branch is dead |
| PageTables.OneParentEntry | guideXOSBootLoader/paging.cpp:45-81 | each table but the root is pointed to by exactly one present entry of the non-leaf tables |
| PageTables.AddTable | guideXOSBootLoader/paging.cpp:47-50 | linking a zeroed page below a table keeps the tree invariant and changes no translation |
| PageTables.WriteLeaf | guideXOSBootLoader/paging.cpp:105-117 | writing one leaf keeps the tree invariant and changes the translation of its own page only |
| PageTables.EmptyTree | guideXOSBootLoader/paging.cpp:176-178 | a lone zeroed root is a tree that maps nothing |
| PageTables.IndicesLeadToPage | guideXOSBootLoader/paging.cpp:39-41 | the shifted and masked indices of an address lead, table by table, to the page table of its page number |
| Hardware.HardwareAgrees | guideXOSBootLoader/paging.cpp:45-117 | in every reachable state the processor, walking by the bit positions of the SDM, reaches exactly what the translation says; it may write if and only if bit 1 is set in all four entries used, which is when bit 1 of the leaf is, and the caching bits are bits 3 and 4 of the leaf |
| Hardware.WalkIsHardware | guideXOSBootLoader/boot_diagnostics.h:179-221 | what is stated of the loader's own walk holds of the processor's, with the rights and caching its flags mean |
| Hardware.DiagnosticIsHardware | guideXOSBootLoader/boot_diagnostics.h:179-221 | on any tables whose entries use no bit above the address field, large pages included, the diagnostic reaches the address the processor reaches |
| Hardware.CallAccess | guideXOSBootLoader/paging.cpp:117-158 | after a mapping call, an address on a page it visited reaches that page's frame, may be written, and is uncached if and only if the call was for a device |
| Hardware.FlagBits | guideXOSBootLoader/paging.cpp:117-133 | the flags of the calls by bit number: 0 and 1, and for devices 3 and 4 as well |
| Paging.PageTableBuilder.constructor | guideXOSBootLoader/paging.cpp:12-15 | before the first call no table exists or is remembered, and memory holds what was loaded |
| Paging.PageTableBuilder.AllocTable | guideXOSBootLoader/paging.cpp:17-34 | takes one fresh aligned page, zeroes it, and remembers it exactly when fewer than 512 are remembered; on failure nothing changes |
| Paging.PageTableBuilder.NextTable | guideXOSBootLoader/paging.cpp:45-53 | follows or creates one child table from the firmware's next page; translation and all other pages unchanged, earlier tables stay where they are |
| Paging.PageTableBuilder.EnsurePtForVaddr | guideXOSBootLoader/paging.cpp:36-85 | on success the page table of the address exists, the tables are the old ones plus those on its path, and no translation changed; the only failure is that no page is left and a table of the path is missing |
| Paging.PageTableBuilder.SetLeaf | guideXOSBootLoader/paging.cpp:154-158 | the leaf write is the map update of one page |
| Paging.PageTableBuilder.MapPage | guideXOSBootLoader/paging.cpp:149-159 | one loop iteration maps one page, or fails with the translation unchanged |
| Paging.PageTableBuilder.MapIdentityRangeFlags | guideXOSBootLoader/paging.cpp:87-121 | the translation becomes the last-writer-wins update by the pages done, all pages of the range on success; success if and only if the firmware has a page for every table missing on the way to them; a failed call has mapped fewer pages than the range has, and no other |
| Paging.PageTableBuilder.MapIdentityRange | guideXOSBootLoader/paging.cpp:123-126 | the same with present and writable |
| Paging.PageTableBuilder.MapIdentityRangeUncached | guideXOSBootLoader/paging.cpp:128-134 | the same with PCD and PWT also set |
| Paging.PageTableBuilder.MapRange | guideXOSBootLoader/paging.cpp:136-162 | page AlignDown(virt) + 4096i is sent to AlignDown(phys) + 4096i, whatever it was mapped to before; success if and only if the firmware has a page for every table missing on the way to those pages; a failed call has mapped fewer pages than the range has, and no other |
| Paging.PageTableBuilder.MapTablePage | guideXOSBootLoader/paging.cpp:213-216 | one step of the self-map identity-maps remembered table i |
| Paging.PageTableBuilder.IdentityMapPageTablePages | guideXOSBootLoader/paging.cpp:202-220 | the fixpoint ends, and on success every remembered table, also those allocated meanwhile, is identity mapped over the previous translation and the tables are those this needs; on failure no page is left and a table on the way to a remembered one is missing |
| Paging.PageTableBuilder.BuildIdentityPageTables | guideXOSBootLoader/paging.cpp:164-200 | on success the translation is exactly the ranges in order and then the self-map, and no table exists without a mapped page below it; on failure the firmware has fewer pages than these need tables |
| Paging.PageTableBuilder.TrackedAreTables | guideXOSBootLoader/paging.cpp:28-31 | every remembered page is an aligned page below 2^48 that is a table of the tree |
| Paging.PageTableBuilder.PagesTaken | guideXOSBootLoader/paging.cpp:17-34 | in every reachable state there are as many tables as pages taken from the firmware, and the remembered ones are the first 512 of these |
| Paging.PageTableBuilder.Finished | guideXOSBootLoader/paging.cpp:46-74 | a mapping call succeeds if and only if there are at least as many pages as tables missing |
| Paging.PageTableBuilder.NewRoot | guideXOSBootLoader/paging.cpp:173-178 | a build forgets the tables remembered before and starts from a root that maps nothing |
| Paging.PageTableBuilder.MapEachRange | guideXOSBootLoader/paging.cpp:180-185 | the ranges are mapped in order, or the firmware has fewer pages than they need tables |
| Paging.StoreKeeps | guideXOSBootLoader/paging.cpp:50-72 | writing a table entry leaves every page of memory that holds no table as it was |
| Paging.TablesBounded | guideXOSBootLoader/paging.cpp:36-85 | no set of pages needs more than 1 + 512 + 512^2 + 512^3 tables |
| Paging.AmplePool | guideXOSBootLoader/paging.cpp:20-24 | the firmware can offer that many fresh pages |
| Paging.TableCount | guideXOSBootLoader/paging.cpp:36-85 | the number of tables is 1 plus the numbers of distinct vaddr>>39, vaddr>>30 and vaddr>>21 prefixes of mapped pages |
| Paging.AllRememberedIff | guideXOSBootLoader/paging.cpp:12-34 | every table is remembered for the self-map if and only if at most 512 were ever allocated |
| Mappings.RangeCoveredIff | guideXOSBootLoader/paging.cpp:97-100 | a call visits every page its byte range touches if and only if rounding the end of the range up does not pass 2^64 |
| Mappings.TopPageIsLost | guideXOSBootLoader/paging.cpp:97-100 | a concrete call for the top page of the address space that maps nothing |
| Mappings.MapPagesInside | guideXOSBootLoader/paging.cpp:149-159 | page i of a call leads to frame i of the call, whatever was mapped before |
| Mappings.MapPagesOutside | guideXOSBootLoader/paging.cpp:149-159 | pages a call does not visit keep their mapping, and stay unmapped if they were |
| Mappings.MapPagesKeys | guideXOSBootLoader/paging.cpp:149-159 | a call maps exactly the pages it visits besides those mapped before |
| Mappings.IdentityCall | guideXOSBootLoader/paging.cpp:95-118 | within 2^48 an identity call maps every page its byte range touches to itself, with the flags asked for |
| Mappings.IdentityCallOutside | guideXOSBootLoader/paging.cpp:95-118 | and changes no other page |
| Mappings.SelfMapMeaning | guideXOSBootLoader/paging.cpp:210-218 | after the self-map the listed table pages are identity mapped and all other pages are as before |
| Mappings.SelfMapCoversIff | guideXOSBootLoader/paging.cpp:187-196 | a table page ends up identity mapped if and only if it is remembered or already was |
| BootMapping.RangeTable.Add | guideXOSBootLoader/main.cpp:688-696 | one entry of the two parallel arrays is appended |
| BootMapping.RangeTable.AddOptional | guideXOSBootLoader/main.cpp:725-769 | ramdisk, ACPI root page and loader image (at least 64 KiB) are listed when known |
| BootMapping.RangeListMembers | guideXOSBootLoader/main.cpp:688-790 | the list holds exactly the fixed ranges and the optional ones present, 7 to 11 of them |
| BootMapping.RangeTable.Collect | guideXOSBootLoader/main.cpp:688-790 | the arrays hold the list of ranges in its order: the seven fixed ones and those of the optional ones that are present, at most 11 of 20 entries |
| BootMapping.BuildAddressSpace | guideXOSBootLoader/main.cpp:798-891 | on success the translation is the composition of all mapping calls in their order; on failure the firmware has fewer pages than the sequence needs tables; with the heap listed, success if and only if it has as many |
| BootMapping.MapAllDevices | guideXOSBootLoader/main.cpp:846-881 | framebuffer if present, local APIC and I/O APIC uncached, or no page is left and a table for them is missing |
| BootMapping.MapKernelAndDevices | guideXOSBootLoader/main.cpp:812-891 | the calls after the identity ranges compose, or the firmware has fewer pages than the sequence needs |
| BootMapping.BootKeys | guideXOSBootLoader/main.cpp:798-891 | the pages mapped at the end are those of the ranges, the kernel, the devices and the remembered tables |
| BootMapping.BootPagesBounded | guideXOSBootLoader/main.cpp:798-891 | the sequence never needs more than 1 + 512 + 512^2 + 512^3 tables |
| BootMapping.PrepareAddressSpace | guideXOSBootLoader/main.cpp:685-891 | range table, 64 MiB fallback for the kernel span, and mapping calls composed, with arguments that are a function of the regions known; success if and only if the firmware has a page for every table the listed ranges, kernel, devices and its first 512 pages need, and always with 1 + 512 + 512^2 + 512^3 pages |
| BootMapping.BootTranslationMeaning | guideXOSBootLoader/main.cpp:798-891 | final meaning of every page: remembered tables identity, then devices identity with PCD and PWT kept, then the kernel range to its backing, then identity ranges still identity, everything else unmapped |
| Hardware.BootAccess | guideXOSBootLoader/main.cpp:798-891 | after the boot sequence every mapped address may be written, exactly the device pages that hold no remembered table are uncached, and nothing but remembered tables, ranges, devices and the kernel is mapped |
| Hardware.DevicesReached | guideXOSBootLoader/main.cpp:846-881 | every byte of the local APIC page, the I/O APIC page and the framebuffer, in numbers, is at its own address, writable and uncached, unless a remembered table is on its page |
| Hardware.KernelReached | guideXOSBootLoader/main.cpp:812-824 | every address of the kernel's range leads into its image, writable and cached |
| BootMapping.KeptIsListed | guideXOSBootLoader/main.cpp:688-790 | a byte is in a listed range if and only if it is in one of the ten regions given in numbers |
| BootMapping.InRangesKept | guideXOSBootLoader/main.cpp:688-805 | the pages of the identity ranges are those that hold such a byte |
| BootMapping.KeptAtItself | guideXOSBootLoader/main.cpp:688-891 | after the switch every such byte outside the kernel's virtual range is at its own address |
| BootMapping.InRangesOfListed | guideXOSBootLoader/main.cpp:800-805 | the pages mapped by the arrays are those touched by the listed ranges |
| BootMapping.HeapTables | guideXOSBootLoader/main.cpp:776-782 | mapping the 1 GiB heap needs 512 page tables, two page directories and a pointer table |
| BootMapping.BootForgetsTables | guideXOSBootLoader/main.cpp:776-782 | with the heap mapped at least 516 tables exist, 512 are remembered, and some table is forgotten |
| BootMapping.ForgottenTableMappedIff | guideXOSBootLoader/main.cpp:826-837 | a forgotten table is mapped if and only if its page lies in an identity range, in device memory or in the kernel's virtual range |
| BootMapping.ForgottenTableIdentityIff | guideXOSBootLoader/main.cpp:826-837 | a forgotten table is identity mapped if and only if its page is device memory, or else the kernel's virtual range leads it to itself, or else it is outside that range and in an identity range |
| BootMapping.TableOfPool | guideXOSBootLoader/paging.cpp:17-34 | table number j of a successful boot is the firmware's page number j, remembered if and only if j < 512 |
| BootMapping.ForgottenTables | guideXOSBootLoader/main.cpp:826-837 | each table from number 512 on is mapped, and is identity mapped, if and only if its page is so for another reason |
| BootMapping.AllTablesIdentityIff | guideXOSBootLoader/paging.cpp:187-196 | after a successful boot the whole active tree is identity mapped if and only if every page the firmware gave after the first 512 is identity mapped for another reason |
| BootMapping.AllTablesMappedIff | guideXOSBootLoader/paging.cpp:187-196 | it is mapped at all, if only to something else, if and only if every such page is mapped for another reason |
| BootMapping.ListedIsIdentity | guideXOSBootLoader/main.cpp:688-790 | after the switch every byte of a listed range outside the kernel's virtual range leads to itself |
| BootMapping.SomeTableUnmapped | guideXOSBootLoader/main.cpp:826-837 | if the firmware's pages lie outside those regions, a successful boot leaves the table on its page number 512 unmapped |
| Bytes.ReadBack16 | Tools/pe_to_elf.py:67-68 | a 16-bit little-endian field is read back as written |
| Bytes.ReadBack32 | Tools/pe_to_elf.py:71-72 | the same for 32 bits |
| Bytes.ReadBack64 | Tools/pe_to_elf.py:75-76 | the same for 64 bits |
| Bytes.FieldsSpell | Tools/pe_to_elf.py:67-76 | a field of 16, 32 or 64 bits is the number its bytes spell, lowest first |
| Bytes.WrittenBack64 | Tools/pe_to_elf.py:75-76 | the bytes of a field are those written for its value |
| PeFile.ParsePeSections | Tools/pe_to_elf.py:89-123 | field-by-field parsing equals the closed form, error cases included |
| PeFile.ReadSections | Tools/pe_to_elf.py:111-120 | all section headers of the table in order, or an error when the table leaves the file |
| PeFile.SectionHeaderRead | Tools/pe_to_elf.py:113-120 | a section header laid out as PE/COFF says is read as the section it describes |
| PeFile.ParsedInvertsLayout | Tools/pe_to_elf.py:89-123 | every file laid out as PE32+ says is parsed as the image it was laid out from, wherever its headers stand |
| PeFile.ParsedIsLaidOut | Tools/pe_to_elf.py:89-123 | and nothing else: whatever parsing returns is laid out in the file as PE32+ says |
| PeFile.ParsedFields | Tools/pe_to_elf.py:93-120 | every field of the image is the one at its offset in PE/COFF, in numbers |
| PeFile.Refusals | Tools/pe_to_elf.py:90-104 | the reason of a refusal holds of the bytes of the file |
| ElfFile.EhdrRoundTrip | Tools/pe_to_elf.py:196-212 | reading a written ELF header gives it back |
| ElfFile.PhdrRoundTrip | Tools/pe_to_elf.py:214 | reading a written program header gives it back |
| PeToElf.SelectLoadable | Tools/pe_to_elf.py:139 | the sections with raw data, in order |
| PeToElf.LoadableAt | Tools/pe_to_elf.py:139 | every section with raw data is selected, after as many as there are before it |
| PeToElf.LoadableOnly | Tools/pe_to_elf.py:139 | and nothing else is selected |
| PeToElf.DataMeaning | Tools/pe_to_elf.py:156 | a section's data are the bytes of the PE file from its raw pointer on, as many as its raw size or as the file has |
| PeToElf.ConvertsIff | Tools/pe_to_elf.py:130-214 | exactly when there is a file to emit: the PE parses, some section has raw data, fewer than 65536 do, and all addresses fit 64 bits |
| PeToElf.ConvertedEntry | Tools/pe_to_elf.py:131-204 | e_entry is the caller's entry point or ImageBase + AddressOfEntryPoint, and e_phnum the number of selected sections |
| PeToElf.LayOut | Tools/pe_to_elf.py:150-177 | the layout loop yields the specified program headers, data and end offset |
| PeToElf.Emit | Tools/pe_to_elf.py:179-223 | the buffer is the specified file |
| PeToElf.ToElf | Tools/pe_to_elf.py:130-223 | the whole conversion with its error cases |
| PeToElf.FlagsMeaning | Tools/pe_to_elf.py:158-161 | every segment is readable, whatever the section says, and executable and writable exactly as its section is |
| PeToElf.FileOffsetBound | Tools/pe_to_elf.py:150-169 | file offsets fit the 64-bit field for any number of sections |
| PeToElf.OffsetsAscend | Tools/pe_to_elf.py:163-164 | section data end before the next section's data begin |
| PeToElf.OffsetsAligned | Tools/pe_to_elf.py:126-164 | file offsets are page-aligned and after both header tables |
| PeToElf.OffsetsTight | Tools/pe_to_elf.py:150-164 | and leave no page empty between them |
| PeToElf.EmittedHeaders | Tools/pe_to_elf.py:196-218 | parsing the emitted file gives back exactly the header and program headers built, untouched by the data written later |
| PeToElf.EmittedData | Tools/pe_to_elf.py:216-221 | each segment's file range holds its section's data, which are the bytes of the PE file from the raw pointer on, untouched by later writes |
| PeToElf.EmittedFile | Tools/pe_to_elf.py:139-223 | both together, the data given as bytes of the PE file, with ranges aligned, ordered, disjoint, after the headers and inside the file, and filesz at most memsz |
| PeToElf.EmittedBytes | Tools/pe_to_elf.py:158-218 | every header field at its offset in ELF64, in numbers: magic, class, little-endian, executable, x86-64, entry, table places and sizes; and per segment type, flags, file offset, the section's address twice, size in the file, the larger of that and the virtual size, and alignment |
| PeToElf.EmittedGaps | Tools/pe_to_elf.py:216-221 | every other byte of the file after the headers is 0 |
| ElfLoader.FindSpan | guideXOSBootLoader/elf.cpp:75-94 | the loop computes the lowest start and highest end |
| ElfLoader.SpanBounds | guideXOSBootLoader/elf.cpp:75-94 | these bound every loaded segment and are attained |
| ElfLoader.CopyAt | guideXOSBootLoader/elf.cpp:152-153 | bytes are placed at their offset and nowhere else |
| ElfLoader.CopySegments | guideXOSBootLoader/elf.cpp:130-160 | memory after the loop is the segments overlaid in order, with the first failure reported |
| ElfLoader.PlaceSegments | guideXOSBootLoader/elf.cpp:75-197 | outcome and image of span, allocation, zeroing, copy and entry check |
| ElfLoader.LoadElf | guideXOSBootLoader/elf.cpp:6-201 | outcome and image for every file, pool answer and page answer |
| ElfLoader.AcceptedBytes | guideXOSBootLoader/elf.cpp:33-50 | the files whose header is accepted, in their bytes |
| ElfLoader.HeaderOutcome | guideXOSBootLoader/elf.cpp:17-73 | how the header fields decide the outcome, and which file bytes each program header is read from |
| ElfLoader.FillOutcome | guideXOSBootLoader/elf.cpp:130-160 | for any program headers the copy succeeds if and only if every segment is in the file and inside the pages, and otherwise the first that is not decides how it ends |
| ElfLoader.EntryInside | guideXOSBootLoader/elf.cpp:162-185 | the unsigned offset check holds if and only if the entry point is in the span |
| ElfLoader.PagesHold | guideXOSBootLoader/elf.cpp:102-108 | the pages requested hold the span if and only if rounding it up does not overflow |
| ElfLoader.LoadedSpan | guideXOSBootLoader/elf.cpp:96-197 | on success the size is exact and min <= e_entry < max |
| ElfLoader.LoadedImage | guideXOSBootLoader/elf.cpp:125-160 | for disjoint segments every address of the span holds the file byte of the segment covering it, or 0 |
| ElfLoader.LoadSucceedsIff | guideXOSBootLoader/elf.cpp:75-200 | for any program headers: exactly when loading succeeds, and exactly when it leaves its pages |
| ElfLoader.WellSizedOutcome | guideXOSBootLoader/elf.cpp:75-200 | for headers that obey the PT_LOAD rule no write leaves the pages unless rounding overflows, and loading succeeds if and only if a segment exists, pages are given, the file holds every segment and the entry point lies in the span |
| KernelImage.EmittedIsLoadable | guideXOSBootLoader/elf.cpp:17-73 | the loader accepts every file the converter emits and sees exactly the segments built |
| PhysicalMemory.HeldByte | guideXOSBootLoader/elf.cpp:123-154 | data placed in whole pages is read back byte by byte from physical memory, whatever else memory holds |
| PhysicalMemory.WordByte | guideXOSBootLoader/paging.cpp:10 | the bytes of a 64-bit word of memory are its little-endian bytes |
| KernelImage.LoadedSection | guideXOSBootLoader/elf.cpp:75-160 | after conversion and loading each section stands at its address: byte k is the byte of the PE file k places into its raw data, then zeros |
| KernelImage.KernelWalk | guideXOSBootLoader/main.cpp:812-824 | through the finished tables a kernel address reaches the backing of its page with the flags of a plain mapping, which are the rights of KernelReached |
| KernelImage.KernelRead | guideXOSBootLoader/paging.cpp:145-158 | any address of the kernel's range is read from the image in physical memory, displaced by the offset of the lowest loaded address in its page |
| KernelImage.KernelSeesSections | guideXOSBootLoader/main.cpp:798-891 | conversion, loading and mapping composed: reading ImageBase + VA + k through the tables gives the byte of the PE file k places into the section's raw data when the lowest loaded address is page-aligned; the address reached is that byte's place exactly then, and otherwise the read is displaced |
| KernelImage.EverySectionSeen | guideXOSBootLoader/main.cpp:798-891 | the same for every byte of every section at once |
| KernelImage.EntryRead | guideXOSBootLoader/main.cpp:443-444 | the virtual entry address leads to the physical entry address if and only if the lowest loaded address is page-aligned, and its byte is read there |
| KernelImage.LoadedEntry | guideXOSBootLoader/elf.cpp:162-197 | the lowest address plus the entry offset is the caller's entry point or ImageBase + AddressOfEntryPoint |
| KernelImage.BootKernel | guideXOSBootLoader/main.cpp:433-891 | converter, loader, range table and mapping calls run one after the other in one physical memory, the image's pages not given again for tables, with mapping arguments that are a function of the regions known: success if and only if the image is loaded and there is a page for every table; then every byte of every section and the entry point are read at their addresses |
| UnalignedKernel.PeLaidOut | Tools/pe_to_elf.py:89-123 | a concrete file of 162 bytes is a PE32+ image whose one section starts a byte above a page |
| UnalignedKernel.AlwaysLoaded | guideXOSBootLoader/elf.cpp:75-200 | converted, it is loaded into whatever pages the firmware gives |
| UnalignedKernel.FirstByteMisread | guideXOSBootLoader/paging.cpp:145-147 | in every successful boot of it, reading the section's first address gives 9 where the section has 7 |
| UnalignedKernel.BootUnaligned | guideXOSBootLoader/main.cpp:433-891 | one boot of it, with all regions and pages given: it succeeds, reads 9 where the section has 7, and leaves a table without its identity mapping |
| ExitBootServices.Enlarge | guideXOSBootLoader/main.cpp:253-259 | the block too small for the map is freed once and replaced by one with room for two more descriptors |
| ExitBootServices.CopyAndExit | guideXOSBootLoader/main.cpp:271-279 | if the exit succeeds, the buffer holds the map current at that moment |
| ExitBootServices.Attempt | guideXOSBootLoader/main.cpp:244-287 | one round: ends with success, an error of the firmware, or a map too large for the buffer; or retries after using up an event or after making room for the map; its block is live on retry and freed on failure |
| ExitBootServices.AllocateForMap | guideXOSBootLoader/main.cpp:224-241 | asks for the size, and allocates a block with room for two descriptors more; it fails only with an error of the firmware |
| ExitBootServices.RetryUntilExit | guideXOSBootLoader/main.cpp:243-287 | over every schedule the loop ends with success, or with an error that a call of the firmware gave, or because a map, now or later, exceeds the buffer; a stale key never ends it |
| ExitBootServices.ExitWithMapInBuffer | guideXOSBootLoader/main.cpp:207-288 | over every schedule: success exactly when boot services ended, buffer is exactly the current map within its capacity with whole entries, one block leaked on success and none otherwise, no other block touched; every other end is a null buffer, an error of the firmware or a map too large, so with calls that do not fail and maps that fit it succeeds however often the map changes |
| BootInfo.SumWords | guideXOSBootLoader/guidexOSBootInfo.h:115-119 | the wrapping loop computes the word sum modulo 2^32 |
| BootInfo.SumUpdate | guideXOSBootLoader/guidexOSBootInfo.h:115-119 | changing one word changes the sum by the difference |
| BootInfo.Seal | guideXOSBootLoader/main.cpp:967-977 | only the checksum word changes, to the negated sum of the others |
| BootInfo.SealingSatisfiesChecksum | guideXOSBootLoader/main.cpp:967-977 | whatever the block holds, its sealed form passes the checksum |
| BootInfo.AnyChangeRejected | guideXOSBootLoader/guidexOSBootInfo.h:124-167 | changing any single word of an accepted block makes the validator reject it |
| BootInfo.ChecksumAcceptsChangeIff | guideXOSBootLoader/guidexOSBootInfo.h:108-121 | the checksum accepts a change of one summed word if and only if it is the word holding Size, the new Size covers the block, and the sum of the words newly covered or left out makes up for the change |
| BootInfo.ChecksumRejectsChange | guideXOSBootLoader/guidexOSBootInfo.h:108-121 | in particular the checksum rejects every single-word change that keeps the number of summed words |
| BootInfo.ChecksumAcceptsLongerSize | guideXOSBootLoader/guidexOSBootInfo.h:108-121 | a concrete block for which enlarging Size goes unnoticed by the checksum |
| BootInfo.ChecksumValid | guideXOSBootLoader/guidexOSBootInfo.h:108-121 | true if and only if the claimed size covers the block and its words sum to 0 modulo 2^32 |
| BootInfo.Validate | guideXOSBootLoader/guidexOSBootInfo.h:124-167 | accepts exactly the acceptable blocks, and panics without the block exactly for a null or undersized one |
| BootInfo.FillHeader | guideXOSBootLoader/main.cpp:511-532 | every header and display field, the framebuffer flag exactly when base and size are non-zero, and no other word |
| BootInfo.FinishAndSeal | guideXOSBootLoader/main.cpp:950-977 | memory-map fields and flag set, checksum valid, all other words unchanged and what the header tells the kernel kept; the validator then accepts the block if and only if the map is a non-null, non-empty array with a descriptor size |
| BootInfo.FieldsPacked | guideXOSBootLoader/guidexOSBootInfo.h:5-93 | the byte offsets are those of the declared fields packed in order, 168 bytes in all |
| BootInfo.Layout | guideXOSBootLoader/guidexOSBootInfo.h:41-93 | the word positions used are those of the fields |
| BootInfo.AcceptableInMemory | guideXOSBootLoader/guidexOSBootInfo.h:124-167 | what the validator accepts, in the bytes it reads: the letters GXBI, version 1, size 168, words that sum to 0, and no flag bit without its pointers and counts |
| BootInfo.TellsInMemory | guideXOSBootLoader/main.cpp:511-532 | what the block tells the kernel, in the bytes it reads; the pitch is four bytes a pixel in 32 bits |
| Handover.ExitAndSeal | guideXOSBootLoader/main.cpp:511-977 | over every firmware schedule: once boot services ended, the block is accepted by the validator, describes exactly the memory map that was current at the exit, and tells the kernel the display and the ACPI root pointer; that happens whenever no call of the firmware fails and every map, now or later, fits the buffer |
| Handover.HandoverReadable | guideXOSBootLoader/main.cpp:711-719 | after the switch every address of the BootInfo page and of the memory-map buffer leads to itself and reads what memory holds there, unless the kernel's virtual range took the page |
| Calendar.IsLeapYearIsGregorian | Corlib/System/DateTime.cs:1153-1161 | the bit test is the Gregorian rule for every year |
| Calendar.YearStartFormula | Corlib/System/DateTime.cs:643-644 | counting leap days by division agrees with adding up year lengths |
| Calendar.TableIsMonthStart | Corlib/Internal/Runtime/CompilerHelpers/StartupCodeHelpers.cs:156-159 | the two tables hold the running sums of the Gregorian month lengths |
| Calendar.MonthsAlternate | Corlib/Internal/Runtime/CompilerHelpers/StartupCodeHelpers.cs:156-159 | month lengths alternate between 31 and 30, July and August both 31, February two days short or one |
| Calendar.KnownDates | Corlib/System/DateTime.cs:627-646 | the day numbers of three known dates |
| Calendar.PeriodBounds | Corlib/System/DateTime.cs:949-971 | the divisions with corrections split the day number exactly, with every part in range |
| Calendar.YearOfPeriods | Corlib/System/DateTime.cs:968-975 | the year computed starts where the periods say, and the relative leap test is the leap rule of that year |
| Calendar.FindMonth | Corlib/System/DateTime.cs:979-981 | the search ends at the month whose range holds the day, at most 12 |
| Calendar.GuessIsLow | Corlib/System/DateTime.cs:977-979 | the guess from dividing by 32 is never too large |
| Calendar.DayNumberInjective | Corlib/System/DateTime.cs:627-646 | no two valid dates have the same day number |
| Calendar.DateOfIsValid | Corlib/System/DateTime.cs:946-985 | every day number yields a valid date with that number |
| Calendar.DateOfInverts | Corlib/System/DateTime.cs:946-985 | every valid date is recovered from its day number |
| DateTimes.SplitPeriods | Corlib/System/DateTime.cs:947-971 | the reassigned locals end as the specified periods |
| DateTimes.SearchMonth | Corlib/System/DateTime.cs:979-981 | the month loop stays inside the table and finds the month holding the day |
| DateTimes.GetDate | Corlib/System/DateTime.cs:946-985 | the three out-parameters are the date of the day number |
| DateTimes.GetDatePart | Corlib/System/DateTime.cs:898-941 | each of the four parts is the part of the day number |
| DateTimes.PartsMakeDate | Corlib/System/DateTime.cs:898-941 | the year, month and day parts form a valid date whose day number it is |
| DateTimes.DayOfYearMeaning | Corlib/System/DateTime.cs:924-927 | the day of the year is the distance from the start of the date's year |
| DateTimes.DateToTicksIsDayNumber | Corlib/System/DateTime.cs:627-646 | for every valid date of years 1 to 9999 the 32-bit formula does not wrap and gives the day number in ticks, at most MaxTicks |
| DateTimes.TimeInDay | Corlib/System/TimeSpan.cs:247-256 | a valid time of day gives its ticks, less than a day |
| DateTimes.ConstructorRoundTrip | Corlib/System/DateTime.cs:185-197 | date, hour, minute and second read back from a constructed moment are those given |
| DateTimes.KnownMoments | Corlib/System/DateTime.cs:185-197 | the ticks of the Unix epoch and of the last second of year 9999 |
| DateTimes.DateRoundsDown | Corlib/System/DateTime.cs:889-985 | for all ticks up to MaxTicks the ticks of the date read are the ticks rounded down to the day |
| DateTimes.AddMonths | Corlib/System/DateTime.cs:510-530 | both sign branches compute the specified result |
| DateTimes.ShiftIsFloor | Corlib/System/DateTime.cs:513-520 | both sign branches with truncating division are floor division of the month count |
| DateTimes.AddMonthsLaw | Corlib/System/DateTime.cs:510-530 | 12 * year + month advances by exactly the argument, the day is cut to the new month's length, time of day and kind stay |
| DateTimes.MonthsAddedDate | Corlib/System/DateTime.cs:510-530 | AddMonths lands on the target while the tick bits hold it, and beyond them wraps to year 1 |
| DateTimes.AddMonthsIff | Corlib/System/DateTime.cs:510-530 | for every moment and argument 12 * year + month advances by exactly the argument if and only if the target is not before year 1 and the tick bits hold it |
| DateTimes.YearBound | Corlib/System/DateTime.cs:946-985 | every DateTime, also with ticks beyond MaxTicks, reads as a valid date of years 1 to 14614 |
| DateTimes.AddMonthsComposes | Corlib/System/DateTime.cs:510-530 | up to day 28, adding a then b months is adding a + b |
| DateTimes.AddYearsLaw | Corlib/System/DateTime.cs:579-589 | in every year before 14614, and in 14614 while the tick bits hold the target, the year moves by the argument, the rest stays, and the day changes only from February 29 to 28 |
| DateTimes.AddYearsIff | Corlib/System/DateTime.cs:588 | for every moment and argument the year moves by exactly the argument if and only if the target is not before year 1 and the tick bits hold it: always before year 14614, never after it |
| DateTimes.AddYearsWraps | Corlib/System/DateTime.cs:588 | a concrete argument whose addition moves any date by 8 months |
| DateTimes.AddTicksLaw | Corlib/System/DateTime.cs:549-558 | ticks move by the argument if and only if the sum stays in 62 bits, and then the kind stays |
| DateTimes.TryAddTicks | Corlib/System/DateTime.cs:561-569 | for any ticks, refuses exactly the sums outside years 1 to 9999, and otherwise moves the ticks by the argument and keeps the kind |
| PixelBuffer.RowsApart | guideXOSBootLoader/fb_console.cpp:265-267 | scan lines are disjoint and inside the buffer, and offsets fit 32 bits |
| PixelBuffer.WriteLinePadding | guideXOSBootLoader/fb_console.cpp:260-281 | writing pixel bytes changes no padding and nothing after the last line |
| PixelBuffer.WriteLineOtherPixel | guideXOSBootLoader/fb_console.cpp:260-281 | and no other pixel |
| TextGrid.PutCharKeepsGrid | guideXOSBootLoader/fb_console.cpp:381-413 | the cursor stays in the grid |
| TextGrid.WindowPutChar | guideXOSBootLoader/fb_console.cpp:332-413 | one character on the scrolling grid is the same character on an endless page, seen through the last rows |
| TextGrid.GridIsWindow | guideXOSBootLoader/fb_console.cpp:332-422 | for every string the grid is the last rows of the text laid out without scrolling |
| TextGrid.PlainText | guideXOSBootLoader/fb_console.cpp:381-413 | printable text that fits the screen: character i stands in row i / columns and column i % columns, all other cells are blank |
| TextGrid.PlaceOf | guideXOSBootLoader/fb_console.cpp:393-411 | the cell number i in reading order is in row i / columns, column i % columns |
| TextGrid.ControlCharacters | guideXOSBootLoader/fb_console.cpp:332-413 | a line feed goes to the start of the next row or scrolls by one, a carriage return to the start of the row, other unprintable characters write nothing |
| FbConsole.FbConsole.constructor | guideXOSBootLoader/fb_console.cpp:235-258 | over any framebuffer contents the console starts blank |
| FbConsole.FbConsole.PutPixel | guideXOSBootLoader/fb_console.cpp:260-303 | exactly one pixel takes the colour, none when off screen; padding stays |
| FbConsole.FbConsole.FillFrom | guideXOSBootLoader/fb_console.cpp:429-435 | the lines from a row down take one colour, the others stay |
| FbConsole.FbConsole.DrawGlyph | guideXOSBootLoader/fb_console.cpp:305-330 | the 8 by 16 pixels of the cell take the glyph's colours, all others stay |
| FbConsole.DrawnShows | guideXOSBootLoader/fb_console.cpp:406-412 | drawing a glyph at the cursor puts its character in the cursor's cell of the grid displayed |
| FbConsole.FbConsole.CopyBytes | guideXOSBootLoader/fb_console.cpp:360-365 | the ascending byte copy moves the source as it was before the copy |
| FbConsole.CopyLineEffect | guideXOSBootLoader/fb_console.cpp:358-366 | one line more holds the line below it of the buffer before scrolling, padding left alone |
| FbConsole.FbConsole.CopyLine | guideXOSBootLoader/fb_console.cpp:358-366 | the same for the loop body |
| FbConsole.ScrolledShows | guideXOSBootLoader/fb_console.cpp:349-376 | moving all lines up by 16 and blanking the bottom displays the grid scrolled by one row, for any height |
| FbConsole.FbConsole.ScrollIfNeeded | guideXOSBootLoader/fb_console.cpp:339-379 | after advancing the cursor row the screen shows the grid's new line |
| FbConsole.FbConsole.StartLine | guideXOSBootLoader/fb_console.cpp:332-337 | the screen shows the grid after a new line |
| FbConsole.FbConsole.PutChar | guideXOSBootLoader/fb_console.cpp:381-413 | the screen shows the grid after the character: wrap, CR, LF, scroll, unprintables |
| FbConsole.FbConsole.Write | guideXOSBootLoader/fb_console.cpp:415-422 | for every string the screen shows the grid after its characters up to the first NUL; padding never changes |
| FbConsole.ShownBytes | guideXOSBootLoader/fb_console.cpp:260-330 | the four bytes of every pixel of a screen that shows a grid: blue, green, red and 0 of the foreground colour exactly where bit 7 - x % 8 of the font's byte for the cell's character and the scan line is set |
| FbConsole.ScanLineSpells | guideXOSBootLoader/fb_console.cpp:305-330 | the colours of a scan line read from left to right as binary digits spell the font's byte |
| FbConsole.ClearedShows | guideXOSBootLoader/fb_console.cpp:429-435 | filling the screen displays the blank grid |
| FbConsole.FbConsole.Clear | guideXOSBootLoader/fb_console.cpp:424-439 | the screen is blank and the cursor home |
| Decimal.WriteDigits | Corlib/System/UInt64.cs:11-17 | the backward digit loop writes the numeral so that it ends at the given index, stays inside the buffer and touches nothing after |
| Decimal.PrintUnsigned | Corlib/System/UInt64.cs:4-55 | both unsigned printers return the numeral within a 21-character buffer |
| Decimal.NumeralLength | Corlib/System/UInt64.cs:6-17 | a value below base^e has at most e digits |
| Decimal.SpelledNumeral | Corlib/System/UInt64.cs:11-50 | a numeral spells its number for every valuation that is right on the digits of the base |
| Decimal.NumeralSpells | Corlib/System/UInt64.cs:11-50 | every character printed is a digit of the base, and the digits spell the value, in decimal and hexadecimal |
| Decimal.NoLeadingZero | Corlib/System/UInt64.cs:11-21 | a numeral starts with 0 if and only if the value is 0 |
| Decimal.NegatedBits | Corlib/System/Int64.cs:14-19 | the bit trick negates every negative value but the most negative one |
| Decimal.PrintSigned | Corlib/System/Int64.cs:6-36 | the signed printer's text for every value, "-(" for the most negative one |
| Decimal.WrapStep | Corlib/System/Convert.cs:43-46 | wrapping at each step of the parser is wrapping once |
| Decimal.ToInt64 | Corlib/System/Convert.cs:35-48 | the parser returns the spelled number modulo 2^64, and fails exactly on the empty string |
| Decimal.ValueByPlaces | Corlib/System/Convert.cs:43-46 | for every string, digits or not, each character counts its code minus that of 0 times the power of ten of its place |
| Decimal.ValueOfNumeral | Corlib/System/Convert.cs:43-46 | the number a decimal numeral spells is the one it was made from |
| Decimal.UnsignedRoundTrip | Corlib/System/Convert.cs:62-64 | ToUInt64 of a printed 64-bit value is the value, through signed wrapping arithmetic |
| Decimal.MostNegative | Corlib/System/Convert.cs:35-48 | the text printed for the most negative value is parsed as 8 |
| Decimal.SignedRoundTripIff | Corlib/System/Convert.cs:35-48 | ToInt64 of a printed value is the value if and only if it is not the most negative one |
| StringPool.StringPool.constructor | Corlib/System/StringPool.cs:39-52 | all caches start empty |
| StringPool.StringPool.GetPercentage | Corlib/System/StringPool.cs:57-72 | in every reachable state the text of the clamped value |
| StringPool.PercentTextMeaning | Corlib/System/StringPool.cs:62-69 | 0% below 0, 100% above 100, and the number between |
| StringPool.StringPool.GetNumber | Corlib/System/StringPool.cs:77-93 | in every reachable state what printing the value gives |
| StringPool.StringPool.GetNumberUnsigned | Corlib/System/StringPool.cs:98-116 | the same for unsigned values over the same table |
| StringPool.StringPool.ComputeMemorySize | Corlib/System/StringPool.cs:139-166 | all branches give the uncached text |
| StringPool.MemoryTextUnit | Corlib/System/StringPool.cs:139-166 | the unit is the largest in which the size is at least one, and the amount is the size rounded down to it |
| StringPool.StringPool.FindCached | Corlib/System/StringPool.cs:131-137 | a hit is the right text, a miss means the key is not cached |
| StringPool.StringPool.GetMemorySize | Corlib/System/StringPool.cs:122-176 | the same text whether cached or not; keys stay distinct and at most 2000 |
| StringPool.StringPool.GetTransferRate | Corlib/System/StringPool.cs:181-196 | in every reachable state the uncached text |
| StringPool.TransferTextUnit | Corlib/System/StringPool.cs:181-196 | from 1024 on in MB/s rounded down, below and for negative rates in KB/s |
| StringPool.StringPool.FormatUptime | Corlib/System/StringPool.cs:201-223 | in every reachable state the uncached text |
| StringPool.UptimeFields | Corlib/System/StringPool.cs:201-220 | the text names hours, two-digit minutes and two-digit seconds that add up to the whole seconds passed |
| StringPool.StringPool.ClearMemorySizeCache | Corlib/System/StringPool.cs:243-247 | forgets all sizes and keeps every other answer |
| AcpiTimer.DeltaExactIff | Kernel/Drivers/ACPITimer.cs:61-65 | what one iteration adds is the true time passed if and only if less than a counter period passed |
| AcpiTimer.DeltaAtMost | Kernel/Drivers/ACPITimer.cs:61-65 | however much time passed, what one iteration adds is not more |
| AcpiTimer.WaitTicksIff | Kernel/Drivers/ACPITimer.cs:56 | the target is the duration in ticks of 3.579545 MHz, rounded down, if and only if the 64-bit product does not wrap |
| AcpiTimer.SleepMicroseconds | Kernel/Drivers/ACPITimer.cs:56-68 | for any readings the wait never ends early; with gaps below a period it ends at the first reading that is late enough, overshooting by less than the last gap |
| AcpiTimer.CounterFits | Kernel/Drivers/ACPITimer.cs:54-65 | the 64-bit accumulator never wraps |
| JKiss.Random.constructor | Corlib/System/Random.cs:44-49 | the seeded state |
| JKiss.Random.JKiss | Corlib/System/Random.cs:51-60 | one step of the state and its output |
| JKiss.XorShiftStaysNonzero | Corlib/System/Random.cs:53-55 | a non-zero xorshift word stays non-zero |
| JKiss.NextStaysAlive | Corlib/System/Random.cs:51-60 | a step keeps y non-zero and c below 4294584393, and the 64-bit product plus carry loses nothing |
| JKiss.RunStaysAlive | Corlib/System/Random.cs:44-60 | the same over every run from every seed |
| JKiss.NextInjective | Corlib/System/Random.cs:51-60 | no two living states have the same successor, so every run is on a cycle from its seed on |
| JKiss.FirstDraws | Corlib/System/Random.cs:40-60 | the first three outputs of the default seed |
| JKiss.CastsCancel | Corlib/System/Random.cs:72 | the wrapping casts around the sum cancel |
| JKiss.Random.NextInRange | Corlib/System/Random.cs:62-73 | for min < max the result lies in [min, max), also for spans above 2^31; the other cases and the state exactly |
| JKiss.Random.NextBytes | Corlib/System/Random.cs:94-117 | every byte of the buffer and the number of steps taken; nothing happens for null |
| JKiss.Random.FillTail | Corlib/System/Random.cs:113-116 | the tail takes the bytes of one output, lowest first |
| JKiss.BytesMakeWord | Corlib/System/Random.cs:103-106 | the bytes taken make up the word |

## Left out

- ExitBootServicesWithMemoryMap (main.cpp:80-205), the older exit helper without a caller-provided buffer.
- Null-argument checks of BuildIdentityPageTables, ExitBootServicesWithMemoryMapInBuffer (all but the buffer), LoadElf's optional out pointers and fb_console::Write; a console without a framebuffer does nothing in the source and is not modelled.
- Firmware page allocation is a list of fresh aligned pages below 2^48, in any order, that may end at any time; which page comes when is therefore arbitrary, but an allocator that reuses a live page is excluded. A page that nothing was loaded into or written to reads as zero in the walk.
- `|`, `&` and shifts on table entries, DateTime words and flags are written as sums, remainders and quotients of the operands' disjoint bits.
- BootMapping.BootTranslationMeaning: stated for identity ranges and devices that end at or below 2^48 and a kernel range of at most 2^48 bytes; the mapping calls themselves are specified without that limit.
- KernelImage.KernelSeesSections: virtual pages that are remembered table pages or device pages are excluded, since those mappings win; the kernel range must end before the last page of the address space.
- Physical memory holds the kernel image and the tables. The contents of the other regions (stack, BootInfo page, ramdisk, firmware memory) are not put into it; the code that copies the image into its pages is the loader's, on an array that becomes those pages.
- BootInfo.FillHeader: the page starts with flag bits 0 and 1 clear; the code that sets the ramdisk and input-protocol fields before is not modelled.
- The processor's execute-disable and user bits, memory types beyond PWT and PCD, and cached translations; writing is as with CR0.WP set. The loader sets none of these bits in an entry.
- Print, serial and file output, GOP and splash drawing, stack and trampoline allocation, the CR3 switch and machine code.
- UEFI file-protocol errors are one case, a file too short; the loader's warning when the entry point lies in no segment changes nothing and is omitted, as is freeing the header table.
- PE section names, the symbol-map lookup and the rebasing of symbol addresses in pe_to_elf.py.
- FbConsole.FbConsole.PutPixel: only the 32-bit XRGB format, the one Init selects; the other pixel formats are unreachable. The font is any table of 95 glyphs. The framebuffer must fit 32-bit offsets and have pitch at least four times its width.
- The fallback branches of StringPool before initialisation, GetCacheStats, and the identity of cached string objects.
- Floating point in DateTime and TimeSpan, parsing and formatting of dates, DateTime.Now.
- ACPITimer.Sleep and the check of PMTimerLength; AcpiTimer.SleepMicroseconds sees a finite list of readings and answers StillWaiting where the source would go on reading.
- Random.Next() (a loop without bound), Next(int) and NextDouble.
- Device drivers, GUI, SMP start-up, API dispatch, font and ramdisk builders.
