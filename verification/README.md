# Disk layouts of the installer, modelled and proved

Four parts of the repository compute where things go on a disk, for another program to read:

- the FAT formatter (`installer/newfs_msdos.c`), read by a FAT driver,
- the GUID partition table library (`libgpt/gpt.c`), read by firmware and kernel,
- the installer's partition planner (`installer/partitioner.c`), which works through that library,
- the PC partition table builder (`editdisklbl/config_mbr.c`, `editdisklbl/write_lst.c`).

The modules follow that structure. `Arithmetic`, `Bytes`, `Wrappers` and `Storage` (a disk as an
array of bytes, with a log of its writes) are shared. Code that changes things step by step is modelled
by classes and methods with the same fields, branches and loops, in 32- and 64-bit machine arithmetic
written out (`U32`, `Add32`, `U64`); each method is proved against a function, and the theorems are
about those functions. Readers are defined on bytes alone: `FatReader.ReadLayout`, `FatDecode.FatEntry`,
`GptImage.ReadGpt`, `MbrWalk.Walk` and `MbrWalk.Device` know nothing of how the bytes came about; and
where a table is written and read by the same program, `GptImage.SoundCopy`, `GptFormat.HeaderSays` and
`GptFormat.EntrySays` say byte by byte what the standard has in its place.

| part | modules |
|---|---|
| FAT | `FatLayout` (the sizing over unbounded integers), `FatPlan` (what it promises), `FatGiven` (sizes and places given as options), `FatSelect` (picking the type), `FatPick` (what the choice means), `FatImage`, `FatWriter` (the sectors and the loop that writes them), `FatReader`, `FatDecode` (a driver's view), `FatNames` (labels, signatures and boot code), `FatFormat` (the parameter block, step by step), `FatRoundTrip` |
| GPT | `GptFormat` (bytes of headers and entries), `GptImage` (writing and reading a disk), `GptFresh` (new tables), `GptTable` (edits), `GptSpace` (the largest gap), `GptDevice` (the table in memory) |
| planner | `Units`, `Planner` (one partition after the other), `PlanTiles`, `PlanErase`, `PlanAsked` (types, flags and GUIDs), `PlanFreed` (what deleting is worth), `PlanMargin`, `PlanDual`, `PlanSucceeds` (when a plan comes out), `PlanOverlap` (when its partitions overlap), `PlanTool` (the program), `PlanInstall` (whole installations, from the options to what is read back) |
| MBR | `MbrConfig` (the loop as a function), `MbrTool` (the program), `MbrLayout` (positions), `MbrCommit` (the bytes), `MbrWalk` (the reader), `MbrEdit` (the tool, which lays out twice) |

## Where the code does not do what it is for

Each of these is a lemma with the exact condition, and a concrete input where one is needed.

- FAT: when the FAT and not the disk limits the cluster count, the sector count is left alone, and a
  reader counts clusters that have no FAT entry (`FatPlan.ReaderAgrees`, for FAT sizes given as an option
  `FatGiven.ReaderAgreesGiven`, from the boot sector's bytes `FatRoundTrip.ClusterCountRoundTrip`;
  `FatPlan.ReaderCanOvercount`: 4419 sectors of 512 bytes).
- FAT: hidden plus total sectors are added in 32 bits; when the sum wraps below 65536 the total is cut
  to 16 bits (`FatRoundTrip.LayoutRoundTrip`; `FatRoundTrip.SectorCountCanBeLost`: a file system of
  70000 sectors of which a reader finds 4464).
- FAT32: the second information sector goes as far behind the copy of the boot sector as the first one
  behind the boot sector, and nothing keeps it in the reserved area: exactly when it falls on a FAT
  (`FatRoundTrip.FatsRoundTrip`) and on the root directory (`FatRoundTrip.RootRoundTrip`). With nothing
  given it lands on the first FAT exactly where three reserved sectors are asked for, which is accepted
  (`FatRoundTrip.DefaultInfoHits`, `FatRoundTrip.ThreeReservedAccepted`); with the special sectors at 20
  and 21 it can replace the root directory (`FatRoundTrip.InfoCanHitRoot`: 1150 sectors).
- FAT: the selector can pick FAT16 and the sizing then refuse it. Without a cluster size this happens
  exactly below a number of sectors that the request determines (`FatSelect.SucceedsExactlyUnset`);
  never on sectors of up to 2 KiB (`FatSelect.SelectedFat16SucceedsUnset`), and on each larger sector
  size for some disk (`FatSelect.SelectedFat16CanFail`).
- GPT: on sectors larger than 16384 bytes the backup entries overwrite the backup header
  (`GptFresh.BackupReadable`); a creation that fails leaves a nameless entry in use exactly where a slot
  was free, which means that the name was too long, and the range does not start at zero
  (`GptTable.FailedCreateLeavesTraces`); the comparison used for sorting is no order once starts are
  2^63 apart (`GptSpace.RegionCmpRight`, `GptSpace.RegionCmpCanCycle`).
- Planner: the check for space passes when the largest gap, cut to whole MiB, ends before it starts
  (`PlanTiles.SpaceCheckMeansSpace`). A plan that comes out has it exactly where no free run is a MiB
  long (`PlanOverlap.OrderedExactly`), and exactly then its partitions overlap or leave the usable range
  (`PlanOverlap.WellLaidExactly`, `PlanOverlap.DualBootWellLaidExactly`): on a wiped disk where the
  usable sectors end in the first MiB (`PlanMargin.WipedGapIs`, `PlanInstall.WipedWellLaid`;
  `PlanInstall.SmallDiskIsAccepted`: 34 KiB accepted for a list that asks for 2490 MiB).
- Planner: the interactive check keeps enough back for a wipe (`PlanMargin.MarginSuffices`) but nothing
  before a dual boot that leaves Windows as it is: what it would have to keep back, to the byte
  (`PlanMargin.DualCheckExactly`), and for every need a disk that passes and whose gap holds a MiB less
  (`PlanMargin.DualCheckCanErr`).
- MBR: the check for room divides before it multiplies, so that lengths that are not multiples of the
  sector size are asked for short (`MbrLayout.EstimateIsExact`, `MbrLayout.OtherLengthsOvershoot`). Of a
  table that comes out only the last partition can run past the end (`MbrLayout.OnlyLastOverruns`), and
  a table comes out with all partitions on the disk exactly when each of them has room
  (`MbrLayout.FitsExactly`); where the last one fills the disk, takes a sector at most, or is a multiple
  of the sector size, every table that comes out is like that (`MbrLayout.SafeAtEnd`).
- MBR: because the configuration is laid out twice on the same records, a last logical partition that
  fills the disk loses what does not make a whole KiB (`MbrEdit.SecondRun`, `MbrEdit.SecondLenIs`,
  `MbrEdit.SecondRunCanShorten`).

Inputs that meet the longer lists of conditions: `PlanTiles.SampleIsGood` for the planner's list,
`MbrEdit.SecondRunCanShorten` for a partition table, `FatPlan.ReaderCanOvercount` for a FAT plan;
`GptFresh.FreshPartsTile` shows that every new table on a suitable disk meets those of `GptImage`.

## Model

| member | source | states |
|---|---|---|
| FatLayout.EstimateIsAffordable | installer/newfs_msdos.c:573-581 | Why the sizing closes: rounding the FAT up to whole sectors and its two unpaid reserved entries together cost less than the one sector per FAT set aside, for up to 16 FATs and sectors of 512 bytes or more. |
| FatLayout.FatsFit | installer/newfs_msdos.c:569-582 | The computed FATs never reach past the end of the disk, so `bsec - x1` is never negative, and behind them the estimated clusters have room. |
| FatLayout.SizingFits | installer/newfs_msdos.c:574-585 | The final cluster count, by disk and by FAT, is never below the capped estimate from which the FAT was sized. |
| FatPlan.SizingIsSound | installer/newfs_msdos.c:569-597 | On every success: reserved area, FATs, root and clusters fit on the disk, every cluster has an entry in every FAT, and the count lies between the type's limits. |
| FatPlan.NoSectorWasted | installer/newfs_msdos.c:574-581 | A computed FAT has no sector too many: without its last one there would be too few entries. |
| FatPlan.ClampIsExact | installer/newfs_msdos.c:592-597 | After the clamp the sector count is strictly smaller, a reader of it counts exactly the type's maximum, and with one sector more would count one more. |
| FatPlan.ReaderAgrees | installer/newfs_msdos.c:582-597 | A reader counts the formatter's clusters, and finds an entry for each, if and only if the FAT did not limit the count. |
| FatPlan.ReaderCanOvercount | installer/newfs_msdos.c:583-588 | A concrete request, of a type the formatter picks itself, where the reader counts 4352 clusters and the FAT holds 4350. |
| FatPlan.DoubleClusterSize | installer/newfs_msdos.c:558-566 | Doubling only ever yields a power of two up to 128. |
| FatSelect.SelectedFat16Succeeds | installer/newfs_msdos.c:513-529 | With a cluster size given, a FAT16 picked automatically never fails afterwards: at least 4096 clusters, for every sector size and up to 16 FATs. |
| FatSelect.SucceedsExactly | installer/newfs_msdos.c:551-591 | For every request and type: laying out succeeds if and only if the reserved area is not too small and the disk has room for the front, the least cluster count, and its FAT entries. |
| FatSelect.SucceedsExactlyUnset | installer/newfs_msdos.c:551-591 | Without a cluster size the same, in terms of the request alone: the doubling of the cluster never costs the least count its room. |
| FatSelect.SelectedFat32Succeeds | installer/newfs_msdos.c:523-554 | A FAT32 picked automatically, with a cluster size given or not, succeeds if and only if the reserved area asked for is not one or two sectors. |
| FatSelect.SelectedFat16SucceedsUnset | installer/newfs_msdos.c:513-566 | Without a cluster size, on sectors up to 2 KiB, a FAT16 picked automatically never fails. |
| FatSelect.SelectedFat16CanFail | installer/newfs_msdos.c:513-591 | On every larger sector size there is a disk where the formatter picks FAT16 and then stops with 4078 clusters. |
| FatSelect.DoublingStops | installer/newfs_msdos.c:558-566 | Where the doubling of the cluster size ends, and what the size before it still allowed. |
| FatSelect.ChosenClusterAvoidsClamp | installer/newfs_msdos.c:558-597 | Where the formatter chose the cluster size, sectors are given up only with the largest cluster. |
| FatPick.ClampsExactly | installer/newfs_msdos.c:569-597 | For every type, cluster size and number of FATs: sectors are given up if and only if one cluster more than the type takes has room beside the FATs that the most clusters need. |
| FatPick.GivesUpExactly | installer/newfs_msdos.c:558-597 | The same for a whole request. |
| FatPick.PicksFat12ForSize | installer/newfs_msdos.c:513-522 | With a cluster size given, FAT12 is picked if and only if FAT16 would be refused. |
| FatPick.PicksFat32ForSize | installer/newfs_msdos.c:523-531 | With a cluster size given, FAT32 is picked if and only if no root size is given and FAT16 would give up sectors. |
| FatPick.PicksFat12 | installer/newfs_msdos.c:513-522 | Without a cluster size, FAT12 is picked if and only if it needs no clusters above 4 KiB. |
| FatPick.PicksFat32 | installer/newfs_msdos.c:523-531 | Without a cluster size, FAT32 is picked if and only if no root size is given and FAT16 would need clusters above 8 KiB. |
| FatImage.SetStr | installer/newfs_msdos.c:1050-1054 | The string padded with blanks or cut, and no other byte. |
| FatImage.MkLabel | installer/newfs_msdos.c:1036-1044 | The label in upper case, the deletion mark replaced, and no other byte. |
| FatWriter.FillSector | installer/newfs_msdos.c:637-719 | One pass of the loop leaves the buffer as the sector's specification, whatever the pass before left in it. |
| FatWriter.MkBootSector | installer/newfs_msdos.c:640-691 | The boot sector with the fields of each FAT type, the extension, and the boot code. |
| FatWriter.MkFatHead | installer/newfs_msdos.c:704-706 | The first sector of a FAT: media byte, reserved entries, on FAT32 the root directory's entry. |
| FatWriter.WriteSector | installer/newfs_msdos.c:622-726 | One pass: the sector follows those written before, in one write. |
| FatWriter.WriteImage | installer/newfs_msdos.c:621-726 | The disk starts with the image and is unchanged behind it; the log of writes gains each sector once, in order. |
| FatReader.BootFields | installer/newfs_msdos.c:638-691 | Every field of the written boot sector decodes to the parameter block, geometry included, and the signature is in place. |
| FatReader.RootSectorsAgree | installer/newfs_msdos.c:557 | The root directory's sectors counted in entries are those the standard counts in bytes. |
| FatReader.ReaderRecoversLayout | installer/newfs_msdos.c:606-663 | A reader recovers FAT size, root and first data sector always, and the sector count if and only if hidden plus total did not wrap below 65536. |
| FatDecode.SectorWritten | installer/newfs_msdos.c:622-725 | Sector l of the image is what the loop put there. |
| FatDecode.CopiesAreFresh | installer/newfs_msdos.c:692-706 | All copies of the FAT are fresh, and so identical, if and only if no boot or information sector falls among them, for any places of those sectors. |
| FatDecode.FreshEntries | installer/newfs_msdos.c:704-706 | Decoded entry by entry, for all three widths: entries 0 and 1 reserved, FAT32's root an end of chain, every other entry free. |
| FatDecode.TopBitsClear | installer/newfs_msdos.c:704-706 | On FAT32 the four bits above an entry are zero. |
| FatDecode.LastClusterNumber | installer/newfs_msdos.c:76-78 | With the most clusters a type takes, the last cluster number stays below the mark of a bad cluster, and next to it on FAT16 and FAT32. |
| FatDecode.EntryFits | installer/newfs_msdos.c:576-583 | An entry counted in nibbles has all the bytes a driver fetches for it, also in FAT12. |
| FatDecode.BackupBootSector | installer/newfs_msdos.c:638-639 | The FAT32 backup boot sector equals sector 0. |
| FatDecode.RootIsFresh | installer/newfs_msdos.c:692-719 | A sector of the root directory's area holds the label or nothing if and only if no information sector falls there. |
| FatNames.LabelReads | installer/newfs_msdos.c:1036-1044 | A label byte by byte: capitals for small letters, blanks behind the end, the deletion mark replaced, everything else kept; a label made from a label is the same. |
| FatNames.BootNames | installer/newfs_msdos.c:667-691 | The extension at its place for each type (signature, volume ID, label, name of the type), the OEM name, and a jump that leads to the boot code. |
| FatNames.InfoFields | installer/newfs_msdos.c:695-699 | The information sector read field by field, and zeros elsewhere. |
| FatNames.LabelFields | installer/newfs_msdos.c:707-718 | The root directory's label entry read field by field, and zeros elsewhere. |
| FatGiven.PlacesApart | installer/newfs_msdos.c:533-554 | The special sectors end up apart, where they were asked for, with the first free sector right behind the later one; exactly when there is no place for them. |
| FatGiven.GivenIsSound | installer/newfs_msdos.c:567-597 | What the sizing promises holds for every FAT size given as an option, too, although the count of its entries is cut to 32 bits. |
| FatGiven.SizingOfGivenExactly | installer/newfs_msdos.c:567-591 | With a FAT size given: the sizing succeeds if and only if front, FATs and least clusters have room and the FAT has the entries, or their count cut to 32 bits wraps below zero. |
| FatGiven.ReaderAgreesGiven | installer/newfs_msdos.c:582-597 | A reader counts the formatter's clusters if and only if the FAT did not limit the count, for FAT sizes given and computed; and finds an entry for each exactly then, if the entries were counted without cutting. |
| FatGiven.SizeFatSettles | installer/newfs_msdos.c:578-597 | A computed FAT is counted and clamped like a given one, and its count of entries is not cut. |
| FatGiven.NothingGiven | installer/newfs_msdos.c:533-597 | With nothing given, the general plan is the plan. |
| FatFormat.Bpb.LayOut | installer/newfs_msdos.c:513-613 | The whole layout in machine arithmetic computes the plan over unbounded integers, with or without FAT size and special sectors given: no sum wraps, and the settled block is the planned one. |
| FatFormat.Bpb.SelectFatType | installer/newfs_msdos.c:513-532 | The type picked in 32-bit arithmetic is the one picked without wrapping. |
| FatFormat.Bpb.PlaceReserved | installer/newfs_msdos.c:533-554 | Information sector, backup sector and reserved area go where the specification puts them, and it stops exactly where that does, for any places asked for. |
| FatFormat.Bpb.PlaceSpecial | installer/newfs_msdos.c:534-550 | The two special sectors and the first sector free behind them, or none. |
| FatFormat.Bpb.ChooseRoot | installer/newfs_msdos.c:555-557 | The default root directory, and its sectors. |
| FatFormat.Bpb.ChooseCluster | installer/newfs_msdos.c:558-566 | A cluster size given is kept; otherwise it is the grown one. |
| FatFormat.Bpb.GrowCluster | installer/newfs_msdos.c:559-566 | The loop computes the doubling. |
| FatFormat.Bpb.SizeFats | installer/newfs_msdos.c:569-597 | The sizing in 32- and 64-bit arithmetic is the sizing over integers, for a FAT size given or not. |
| FatFormat.Bpb.Finish | installer/newfs_msdos.c:602-613 | Which of the two widths carries sector count and FAT size, and what stays untouched. |
| FatFormat.Bpb.MakeFileSystem | installer/newfs_msdos.c:513-728 | Lay out and write: on failure the disk is unchanged, on success it starts with the planned image. |
| FatFormat.ImageFits | installer/newfs_msdos.c:621-622 | What is written lies within the sectors planned. |
| FatRoundTrip.PlanSettles | installer/newfs_msdos.c:602-613 | The planned block is settled as the reader expects, and describes the plan. |
| FatRoundTrip.LayoutRoundTrip | installer/newfs_msdos.c:513-663 | From the request to the reader: the layout is recovered, the sector count if and only if it did not wrap. |
| FatRoundTrip.OptionsRoundTrip | installer/newfs_msdos.c:513-663 | The bytes of the boot sector say what was asked for, and the defaults for the rest: media byte, root entries, reserved area, places of the special sectors. |
| FatRoundTrip.ImageCovers | installer/newfs_msdos.c:621-622 | What is written ends where the data starts, and on FAT32 behind the whole first cluster. |
| FatRoundTrip.ClusterCountRoundTrip | installer/newfs_msdos.c:513-663 | From the request to the reader of the boot sector's bytes: the same about the count, wherever the sector count is not lost. |
| FatRoundTrip.SectorCountCanBeLost | installer/newfs_msdos.c:606-609 | A request that plans 70000 sectors and whose boot sector says 4464. |
| FatRoundTrip.FatsRoundTrip | installer/newfs_msdos.c:533-706 | In a planned image all FATs are fresh if and only if the second information sector does not fall among them, for any options. |
| FatRoundTrip.DefaultInfoHits | installer/newfs_msdos.c:533-554 | With no places given it does exactly for a FAT32 with three reserved sectors. |
| FatRoundTrip.ThreeReservedAccepted | installer/newfs_msdos.c:551-554 | Such a request is accepted, and a copy of its FAT is not fresh. |
| FatRoundTrip.RootRoundTrip | installer/newfs_msdos.c:533-719 | In a planned image the root directory's area holds the label and nothing else if and only if the second information sector does not fall into it, for any options. |
| FatRoundTrip.InfoCanHitRoot | installer/newfs_msdos.c:692-719 | A FAT32 plan whose FATs are all fresh and whose root directory is an information sector. |
| FatRoundTrip.ClustersAreFree | installer/newfs_msdos.c:583-706 | Every cluster counted has all bytes of its entry in the FAT, and a fresh FAT says there that it is free, but for the reserved entries and FAT32's root. |
| FatRoundTrip.WrittenClustersAreFree | installer/newfs_msdos.c:513-728 | On the disk after the whole run, every copy of the FAT says so, where the second information sector keeps clear. |
| GptFormat.GuidRoundTrip | libgpt/gpt.c:318-331 | GUID fields survive the way through their bytes. |
| GptFormat.EntryRoundTrip | libgpt/gpt.c:367-397 | Entries do, with their padding. |
| GptFormat.EntriesRoundTrip | libgpt/gpt.c:367-397 | A whole array of entries of any size from 128 bytes does. |
| GptFormat.HeaderRoundTrip | libgpt/gpt.c:334-364 | Headers do. |
| GptFormat.SumIgnoresItself | libgpt/gpt.c:521-533 | Filling in the checksum does not change what it covers, for every checksum function. |
| GptFormat.SumCovers | libgpt/gpt.c:521-533 | The checksum is that of the first bytes, as many as asked, with zeros for itself. |
| GptFormat.HeaderFieldsAt | include/gpt/gpt.h:48-63 | The decoded header is what the bytes at the offsets of the standard say. |
| GptFormat.EntryFieldsAt | include/gpt/gpt.h:71-79 | The decoded entry is what the bytes at the offsets of the standard say. |
| GptFormat.EntryAt | libgpt/gpt.c:708-776 | Entry k lies at k times the entry size. |
| GptImage.CopyReadsBack | libgpt/gpt.c:708-776 | A copy on the disk, with its checksums, is accepted and gives the table back, whatever else is on the disk. |
| GptImage.AcceptsSoundCopies | libgpt/gpt.c:708-767 | A copy is accepted if and only if its bytes are sound: the signature, the checksum of the header without itself, the checksum of the entries. |
| GptImage.ReadsWhatIsThere | libgpt/gpt.c:708-776 | The table read is what the bytes say, header and every entry. |
| GptImage.ReadsExactly | libgpt/gpt.c:779-825 | A table is read if and only if the protective byte is there and a copy is sound; it is the primary copy's if that is sound. |
| GptImage.CopiesWritten | libgpt/gpt.c:652-705 | After writing, both copies and the protective record are in their places. |
| GptImage.WrittenFields | libgpt/gpt.c:652-697 | The places that the two headers on the disk name for themselves, each other, and their entries. |
| GptImage.ProtectiveRecord | libgpt/gpt.c:695-700 | The protective record byte by byte: inactive, type EE, from sector 1, as long as the disk or as 32 bits go, signed. |
| GptImage.WriteThenRead | libgpt/gpt.c:652-825 | Reading what was written gives the same entries, GUIDs, usable range and dimensions, from the primary copy, whose bytes are sound. |
| GptImage.FallbackReads | libgpt/gpt.c:779-825 | After any damage to the primary copy the backup gives the same table if and only if the primary's bytes are no longer sound. |
| GptImage.WriteTouchesRegionsOnly | libgpt/gpt.c:566-705 | Writing changes no byte outside the five regions. |
| GptFresh.UsableRange | libgpt/gpt.c:477-507 | The usable range of a new table in bytes. |
| GptFresh.NewHeaderSays | libgpt/gpt.c:477-507 | What the header of a new table says on the disk: revision, sizes, 128 entries of 128 bytes, the GUID. |
| GptFresh.FreshPartsTile | libgpt/gpt.c:477-705 | Record, header, entries, usable range, backup entries and backup header follow each other; no gap between entries and usable range at either end. |
| GptFresh.UsableSectorsSpared | libgpt/gpt.c:652-705 | Writing changes no usable sector and none of the first 440 bytes. |
| GptFresh.BackupReadable | libgpt/gpt.c:477-705 | The backup of a new table is readable if and only if a sector is not larger than 16384 bytes. |
| GptTable.NameReadsBack | libgpt/gpt.c:1077-1094 | A name of up to 35 characters reads back, ASCII exactly, whatever name was there before. |
| GptTable.NameUnits | libgpt/gpt.c:1077-1094 | The stored units: characters widened as signed bytes, a zero, and what was there before. |
| GptTable.NextIndexIsSmallest | libgpt/gpt.c:290-300 | The index is the smallest one free, and 0 exactly on a full table. |
| GptTable.StandardTypes | libgpt/gpt.c:53-68 | The standard types by their GUIDs as they lie on the disk. |
| GptTable.TypesDiffer | libgpt/gpt.c:53-90 | Different types have different GUIDs. |
| GptTable.DeletedIsBlank | libgpt/gpt.c:1066-1074 | A deleted entry is all zeros on the disk, and no other changes. |
| GptTable.CreateIsLocal | libgpt/gpt.c:1037-1063 | Creation fails exactly on a full table or a long name; otherwise it fills the first free slot as asked and changes no other. |
| GptTable.FailedCreateLeavesTraces | libgpt/gpt.c:1048-1056 | A failed creation whose range does not start at zero leaves the table alone if and only if it is full; otherwise a free slot is in use afterwards, with range and flags as asked but, where the slot was empty, no name and no type; no other slot changes. |
| GptTable.FreeMeansDisjoint | libgpt/gpt.c:1050-1052 | A range of free sectors meets no entry in use. |
| GptTable.CreateKeepsLayout | libgpt/gpt.c:1037-1063 | Creating on free sectors keeps entries disjoint and in the usable range. |
| GptTable.EditKeepsLayout | libgpt/gpt.c:1037-1074 | One edit keeps the layout, the header, and the number of entries. |
| GptTable.RunKeepsLayout | libgpt/gpt.c:1037-1074 | Every run of allowed edits does. |
| GptTable.DeleteUndoesCreate | libgpt/gpt.c:1037-1074 | Deleting what was created frees exactly the sectors that were free before. |
| GptSpace.RegionCmpRight | libgpt/gpt.c:934-945 | The comparison agrees with the order of the starts if and only if their difference fits in 64 signed bits. |
| GptSpace.RegionCmpCanCycle | libgpt/gpt.c:934-945 | Three regions that compare in a circle. |
| GptSpace.RegionsCover | libgpt/gpt.c:993-997 | The collected regions cover exactly the sectors of entries in use. |
| GptSpace.RegionsApart | libgpt/gpt.c:993-997 | Regions of a well laid table are in range and disjoint. |
| GptSpace.SortSorts | libgpt/gpt.c:998 | Sorting by the comparison permutes, and sorts where the starts are below 2^63. |
| GptSpace.SortedIsUnique | libgpt/gpt.c:998 | Disjoint regions have one sorted order, whichever way they are sorted. |
| GptSpace.GapIsVacant | libgpt/gpt.c:1002-1013 | Between one sorted region and the next there is nothing but free sectors. |
| GptSpace.SweepStep | libgpt/gpt.c:1006-1009 | One step of the sweep keeps the first of the longest free runs seen so far. |
| GptSpace.BestIsFirstLongest | libgpt/gpt.c:1000-1018 | The result of the sweep is a free run, no free run is longer, and none as long starts earlier. |
| GptSpace.FirstLongestUnique | libgpt/gpt.c:967-974 | There is only one such run. |
| GptDevice.Gpt.New | libgpt/gpt.c:477-507 | The fields and the empty entries of a new table. |
| GptDevice.Gpt.NextIndex | libgpt/gpt.c:290-300 | The loop finds the first free index. |
| GptDevice.Gpt.EntryCreate | libgpt/gpt.c:1037-1063 | In place: the table after, on success and on each failure. |
| GptDevice.Gpt.EntryDelete | libgpt/gpt.c:1066-1074 | In place: one slot cleared, or nothing. |
| GptDevice.Gpt.EntrySetName | libgpt/gpt.c:1077-1094 | In place: the name set, or nothing when it is too long. |
| GptDevice.Gpt.Copy | libgpt/gpt.c:536-563 | A separate table with the same contents. |
| GptDevice.Gpt.WriteToDisk | libgpt/gpt.c:566-617 | Checksums filled in, one copy on the disk. |
| GptDevice.Gpt.Write | libgpt/gpt.c:652-705 | The disk after writing; the table in memory unchanged. |
| GptDevice.Gpt.ReadData | libgpt/gpt.c:708-776 | Succeeds exactly where the reader accepts the copy, with that table. |
| GptDevice.Gpt.Read | libgpt/gpt.c:779-825 | Primary, then backup. |
| GptDevice.Gpt.Sweep | libgpt/gpt.c:1000-1013 | One pass over sorted regions ends with the first of the longest free runs. |
| GptDevice.Gpt.FindContiguousFreeSpace | libgpt/gpt.c:973-1022 | For entries disjoint and in range below 2^63: fails exactly when no usable sector is free, otherwise the lowest of the longest free runs. |
| Units.CeilingIsLeast | installer/partitioner.c:43-71 | Rounding up gives the least count of units that holds the value. |
| Planner.MibExact | installer/partitioner.c:80-85 | Whole MiB are whole sectors, for sector sizes that divide a MiB. |
| Planner.RestStaysFree | installer/partitioner.c:706-711 | Creating on part of a free stretch is allowed and leaves the rest free. |
| Planner.MkPartLays | installer/partitioner.c:682-720 | One more partition: right behind the one before, under its name, in a free slot, nothing else moved. Its type, flags and GUID are the matter of `PlanAsked`. |
| Planner.LongestName | installer/partitioner.c:697-698 | The limit on names is the longest that has room in an entry behind the prefix. |
| PlanAsked.LastWordDecides | installer/partitioner.c:591-623 | A flag list is understood if and only if all its words are, and the last word about a flag decides. |
| PlanAsked.TypeWords | installer/partitioner.c:626-648 | The words for types, and the GUID that each stands for. |
| PlanAsked.PlannedAsAsked | installer/partitioner.c:682-761 | For every list and every gap: each partition of a plan that comes out has the type, the attribute bits and the GUID asked for, on the sector it was given. |
| PlanAsked.ShippedBootloader | installer/iago.ini:7-9 | With the shipped options the boot loader is an EFI system partition with bits 0 and 62 set. |
| PlanTiles.SumSizesIsFixed | installer/partitioner.c:431-462 | The bytes summed up are those of the fixed lengths, boot loaders left out, unwrapped. |
| PlanTiles.SumLenSplits | installer/partitioner.c:431-462 | The lengths of a list: the fixed ones, the boot loaders, and what is left for the growing ones. |
| PlanTiles.MkPartsLays | installer/partitioner.c:682-761 | A list that fits is laid end to end from the start of the gap. |
| PlanTiles.LengthsAddUp | installer/partitioner.c:703-738 | The lengths of a good list add up to exactly the available MiB. |
| PlanTiles.NeededIs | installer/partitioner.c:732-738 | The space asked for is the sum of the lengths, without wrapping. |
| PlanTiles.SampleIsGood | installer/partitioner.c:724-761 | A list with both boot loaders and one growing partition, for either mode, that the planner's theorems apply to. |
| PlanTiles.GapInside | installer/partitioner.c:737-739 | Trimming a gap to whole MiB keeps it inside the gap. |
| PlanTiles.SpaceCheckMeansSpace | installer/partitioner.c:739-746 | The unsigned check passes if and only if there is space or the trimmed gap ends before it starts. |
| PlanTiles.ArrangeTiles | installer/partitioner.c:724-761 | A successful plan tiles the whole MiB of the gap: the listed partitions in order, consecutive, of the lengths asked for, the growing one at least 350 MiB, other entries untouched. |
| PlanErase.OnlyBootloaderSpared | installer/partitioner.c:218-242 | The two name tests together mean: starts with `android_` and is not `android_bootloader`. |
| PlanErase.DeletingConserves | installer/partitioner.c:106-242 | Deleting reduces the bytes in use by exactly what was reported, in 64-bit arithmetic, and afterwards nothing is reported. What a byte is, `PlanFreed` says. |
| PlanFreed.EntrySizeIs | libgpt/gpt.c:1031-1034 | The size of an entry in range is that of its sectors. |
| PlanFreed.DeletingFrees | installer/partitioner.c:106-242 | The bytes reported for an old installation are exactly those of the sectors that deleting it makes free. |
| PlanFreed.ClearingConserves | installer/partitioner.c:793-807 | Shrinking Windows and deleting the old installation together free exactly what was reported and what Windows gives up. |
| PlanFreed.ClearedIsClean | installer/partitioner.c:793-807 | And nothing of the old installation is left. |
| PlanErase.NextInstallationFinds | installer/partitioner.c:106-140 | Every partition that an installation creates is found by the next one, but the boot loader's. |
| PlanErase.DeletingKeepsLayout | installer/partitioner.c:218-242 | What stays is well laid. |
| PlanErase.ShrinkingFits | installer/partitioner.c:189-215 | Shrinking keeps the first sector, ends no later, and still holds the new size, to the sector. |
| PlanMargin.FreshIsFree | libgpt/gpt.c:477-507 | The gap of a fresh table is its whole usable range. |
| PlanMargin.MarginSuffices | installer/partitioner.c:581-587 | A disk that passes the interactive check passes the later one, for every sector size that divides 16384. |
| PlanMargin.WipedGapIs | installer/partitioner.c:737-739 | The gap of a wiped disk in whole MiB, and exactly when it ends before it starts. |
| PlanMargin.DualCheckExactly | installer/partitioner.c:547-556 | The whole MiB of a gap are enough if and only if its bytes exceed the need by the way from its start to the next MiB; the check before a dual boot asks for the need alone. |
| PlanMargin.DualCheckCanErr | installer/partitioner.c:547-556 | For every need a disk whose gap passes that check and holds a MiB less. |
| PlanSucceeds.CreationTakesSlot | libgpt/gpt.c:1037-1063 | A creation with a name that fits finds a slot exactly while one is free, and takes one. |
| PlanSucceeds.MkPartSucceeds | installer/partitioner.c:682-720 | A partition is created if and only if its options are known and a slot is free. |
| PlanSucceeds.MkPartsSucceed | installer/partitioner.c:758-761 | Known options and enough slots are enough for a list, wherever it goes. |
| PlanSucceeds.MkPartsNeed | installer/partitioner.c:758-761 | In a gap that holds the list they are also needed: each partition takes a slot. |
| PlanSucceeds.ArrangeSucceedsExactly | installer/partitioner.c:724-761 | A plan for a good list comes out if and only if the gap has the room, the options are known, and the table has the slots. |
| PlanSucceeds.DualBootSucceedsExactly | installer/partitioner.c:764-822 | Beside Windows the same, and the system partition has to have a slot. |
| PlanDual.ClearedKeepsLayout | installer/partitioner.c:793-807 | Shrinking Windows and deleting the old installation keep the rest well laid. |
| PlanDual.SurvivorKept | installer/partitioner.c:793-807 | Every survivor comes through the clearing, but for Windows' end. |
| PlanDual.ClaimedCovers | installer/partitioner.c:764-822 | The size that stands in for the boot loader's covers the system partition, to the MiB. |
| PlanDual.ArrangeSparesLive | installer/partitioner.c:724-761 | Creating partitions changes no entry in use, whatever the list and the gap. |
| PlanDual.SurvivorsPreserved | installer/partitioner.c:764-822 | After every successful dual-boot installation each survivor keeps slot, GUIDs, flags, name and range, but for Windows' end and the system partition's name. |
| PlanDual.DualBootKeepsLayout | installer/partitioner.c:764-822 | With a good list and a gap that does not end before it starts, no partitions overlap in the end. |
| PlanDual.NewPartitionsTile | installer/partitioner.c:764-822 | And the new partitions tile the gap found in the cleared table. |
| PlanOverlap.MibRunIsOrdered | installer/partitioner.c:737-739 | Where some free run is a MiB long the gap found, cut to whole MiB, does not end before it starts; and one that holds a MiB is such a run. |
| PlanOverlap.OrderedExactly | installer/partitioner.c:724-761 | The gap of a plan that comes out does not end before it starts if and only if some free run is a MiB long. |
| PlanOverlap.TookFreeRun | libgpt/gpt.c:1037-1063 | In a result without overlap, what was put beside the entries in use has taken a free run. |
| PlanOverlap.GrowingIsOut | installer/partitioner.c:703-711 | In a gap that ends before it starts, a first partition that takes the rest ends before it starts or beyond the disk, in wrapped 64-bit arithmetic. |
| PlanOverlap.WellLaidExactly | installer/partitioner.c:724-761 | The partitions of a plan for a good list are disjoint and in the usable range if and only if some free run is a MiB long. |
| PlanOverlap.DualBootWellLaidExactly | installer/partitioner.c:764-822 | So are all partitions after an installation beside Windows, if and only if the cleared table has such a run. |
| PlanTool.Options.SumAll | installer/partitioner.c:431-462 | The loop sums the listed sizes, or stops at one that has none. |
| PlanTool.Options.ParseFlags | installer/partitioner.c:591-623 | The loop reads flags from left to right, or stops at an unknown one. |
| PlanTool.PartMaker.Look | installer/partitioner.c:693-708 | What the options say about a partition, or where the program stops. |
| PlanTool.PartMaker.MkPart | installer/partitioner.c:682-720 | One partition created in the table in memory. |
| PlanTool.CheckForAndroid | installer/partitioner.c:106-140 | The loop sums the old installation's bytes. |
| PlanTool.DeleteAndroid | installer/partitioner.c:218-242 | The loop clears exactly the old installation's entries. |
| PlanTool.ResizeNtfs | installer/partitioner.c:189-215 | The entry's new end, or failure on a bad index. |
| PlanTool.CreateAll | installer/partitioner.c:758-761 | The loop creates the listed partitions in order, or stops at the first failure. |
| PlanTool.CreatePartitions | installer/partitioner.c:724-761 | The plan goes into the first of the largest gaps; why it can stop. |
| PlanTool.ExecuteWipe | installer/partitioner.c:825-840 | The plan on a fresh table. |
| PlanTool.ExecuteDualBoot | installer/partitioner.c:764-822 | Shrink, delete, claim the system partition, create, rename; and why it can stop. |
| PlanInstall.WipeNeverShortOfSpace | installer/partitioner.c:581-746 | After the interactive check a good list is never refused for want of space. |
| PlanInstall.WipeBytesAre | installer/partitioner.c:825-840 | A wipe asks for room for both boot loaders. |
| PlanInstall.WipeSucceedsExactly | installer/partitioner.c:724-840 | On a wiped disk of more than a MiB, the plan for a good list comes out if and only if its whole MiB are enough, all options are known, and the list is not longer than the table. |
| PlanInstall.WipedWellLaid | installer/partitioner.c:825-840 | The plan on a wiped disk has no overlap if and only if the usable sectors reach past the first MiB. |
| PlanInstall.SmallDiskIsAccepted | installer/partitioner.c:737-746 | A disk of 68 sectors whose only gap holds no MiB, and for which a plan comes out that is not well laid. |
| PlanInstall.InstallOnWipedDisk | installer/partitioner.c:724-840 | From options to bytes: what is read back is the planned table, with every partition's type, flags and GUID as asked for; for a good list it is well laid if and only if the usable sectors reach past the first MiB, and then comes out exactly as said above and tiles the gap. |
| PlanInstall.ReadIsConsistent | libgpt/gpt.c:708-825 | What the reader accepts is a table with the signature and as many entries as it says. |
| PlanInstall.InstallBesideWindows | installer/partitioner.c:764-822 | Read, install, write: the table read back has every survivor, and the new partitions with type, flags and GUID as asked for; for a good list its partitions do not overlap if and only if the cleared table had a free run of a MiB, and then the new ones tile the gap; on failure no byte changes. |
| MbrConfig.TurnsStop | editdisklbl/config_mbr.c:304-309 | No turn follows one that finds no room. |
| MbrConfig.CommitElsewhere | editdisklbl/write_lst.c:70-92 | Committing leaves every byte that no write touches. |
| MbrConfig.CommitSplits | editdisklbl/write_lst.c:70-92 | Committing a list in two parts is committing it whole. |
| MbrTool.WlistAdd | editdisklbl/write_lst.c:51-57 | The new write comes first, the others follow. |
| MbrTool.WlistCommit | editdisklbl/write_lst.c:70-92 | The disk after all writes of the linked list, from its head on. |
| MbrTool.MkPriPentry | editdisklbl/config_mbr.c:70-130 | A primary or extended entry, the recorded start, and the next sector; none beyond the fourth slot. |
| MbrTool.MkExtPentry | editdisklbl/config_mbr.c:140-208 | A boot record, what is recorded, and the next sector; refused exactly for a partition that fills the disk before the last. |
| MbrTool.MkEmptyPtable | editdisklbl/config_mbr.c:210-223 | The empty table with its signature. |
| MbrTool.RoomFor | editdisklbl/config_mbr.c:257-264 | The check for room, in 32 bits. |
| MbrTool.AddBlanks | editdisklbl/config_mbr.c:282-292 | Empty entries for the slots left, in front of the list. |
| MbrTool.AddPartition | editdisklbl/config_mbr.c:240-280 | One turn of the loop, on the records and the list. |
| MbrTool.ConfigMbr | editdisklbl/config_mbr.c:226-310 | The list and the records are those of the specification; null exactly where it refuses. |
| MbrTool.FindMbrPart | editdisklbl/config_mbr.c:316-333 | The loop finds the number of the first partition with the name. |
| MbrLayout.EstimateIsExact | editdisklbl/config_mbr.c:55-67 | The sectors asked for are those taken if and only if the length is a multiple of the sector size, and never more. |
| MbrLayout.OtherLengthsOvershoot | editdisklbl/config_mbr.c:257-264 | For every other length of more than one sector, a disk on which the partition passes the check and runs past the end. |
| MbrLayout.SmallIsUnwrapped | editdisklbl/config_mbr.c:257-264 | Disk size and each fixed length together below 2^32 sectors are enough for no sum to wrap. |
| MbrLayout.CheckIs | editdisklbl/config_mbr.c:257-264 | What the check in 32 bits decides, without wrapping: whether the partition starts on the disk, and what it asks for a fixed length ends there. |
| MbrLayout.TurnsPlace | editdisklbl/config_mbr.c:240-280 | The loop goes on for n turns if and only if it accepts each of the first n partitions, and its state then is the one the positions call for: writes, records, next sector. |
| MbrLayout.SucceedsExactly | editdisklbl/config_mbr.c:226-310 | For lengths of any kind: a table comes out if and only if every partition is accepted. |
| MbrLayout.OnlyLastOverruns | editdisklbl/config_mbr.c:240-280 | Of the partitions of a table that comes out all but the last end on the disk; the last one does if and only if the next free sector is not beyond its end. |
| MbrLayout.FittingIsAccepted | editdisklbl/config_mbr.c:257-264 | The check refuses no partition that has room, its boot record included. |
| MbrLayout.FitsExactly | editdisklbl/config_mbr.c:226-310 | For lengths of any kind: a table comes out and ends on the disk if and only if every partition, with its boot record, has room. |
| MbrLayout.SafeAtEnd | editdisklbl/config_mbr.c:226-310 | If the last partition fills the disk, takes at most one sector, or is a multiple of the sector size, then coming out alone is equivalent to room for every partition. |
| MbrLayout.UncheckedSucceeds | editdisklbl/config_mbr.c:257-264 | A disk size of 0 switches the check off: then only a logical partition in front of the last that is to fill the disk is refused. |
| MbrLayout.FillIsLast | editdisklbl/config_mbr.c:108-110 | A partition that fills the disk is the last one and ends at the end. |
| MbrLayout.LayoutInOrder | editdisklbl/config_mbr.c:240-280 | Each partition of a table that comes out: recorded where it starts, on the disk, behind its boot record and all earlier partitions, as long as asked for to the sector; one that fills the disk is last and ends exactly at its end. |
| MbrLayout.LayoutInBounds | editdisklbl/config_mbr.c:240-280 | For lengths of any kind: every table that comes out has its partitions in ascending disjoint ranges, all but the last in bounds; and all of them end on the disk if and only if there is room for each. |
| MbrLayout.SectorsAreTight | editdisklbl/config_mbr.c:55-67 | KiB in sectors: enough, and less than one sector too much. |
| MbrCommit.FittingIsReady | editdisklbl/config_mbr.c:226-310 | What follows about the disk holds for exactly the configurations that are accepted, which include all whose partitions have room. |
| MbrCommit.AllHold | editdisklbl/config_mbr.c:240-280 | The writes for the partitions all survive the commit, whatever was on the disk: none overlap. |
| MbrCommit.CommitIsWanted | editdisklbl/config_mbr.c:282-302 | The commit empties the table first; the empty entries then change nothing; the partitions come last. |
| MbrCommit.TableCommitted | editdisklbl/config_mbr.c:226-302 | Bytes 446 to 511 at the end: the entries in slot order, zeros in unused slots, 55 AA. |
| MbrCommit.RecordCommitted | editdisklbl/config_mbr.c:140-208 | Every boot record is whole at the end. |
| MbrCommit.ElsewhereUntouched | editdisklbl/config_mbr.c:226-302 | Nothing else changes: not bytes 0 to 445, not the partitions. |
| MbrWalk.RecordSays | editdisklbl/config_mbr.c:155-201 | Each boot record on the disk, field by field: its partition right behind it, and a link of the extended type that spans exactly the next record and its partition, or none at the end. |
| MbrWalk.WalkFrom | editdisklbl/config_mbr.c:140-208 | From any boot record on, the walk sees the partitions from there on and stops. |
| MbrWalk.SlotsSay | editdisklbl/config_mbr.c:226-302 | The four slots as read, field by field: the partitions, active or not, the extended partition up to the end of the disk, or nothing. |
| MbrWalk.ActiveIsMarked | editdisklbl/config_mbr.c:112-114 | The byte that the firmware looks for is 80 in a slot if and only if its partition is active, and 0 otherwise and in every boot record. |
| MbrWalk.ChainIsConfiguration | editdisklbl/config_mbr.c:140-208 | Walking the chain from the table's extended entry recovers exactly the partitions from the fourth on, in order, at their recorded starts. |
| MbrWalk.NumberIsPlace | editdisklbl/config_mbr.c:316-333 | The number is index plus one exactly for a slot of the table, and five plus the place on the chain exactly for a logical partition. |
| MbrWalk.NumberFindsPartition | editdisklbl/config_mbr.c:316-348 | On the committed disk, that number is the partition of that name, at its recorded start. |
| MbrEdit.RoundingLoses | editdisklbl/config_mbr.c:170-175 | Sectors to KiB and back: what is lost. |
| MbrEdit.SecondRun | editdisklbl/editdisklbl.c:164-178 | The second layout puts every partition where the first did, and as long; only a last logical partition that fills the disk comes out with the length its recorded KiB make. For lengths of any kind. |
| MbrEdit.SecondLenIs | editdisklbl/config_mbr.c:170-175 | That length is never larger, and smaller by exactly the sectors that do not make whole KiB, if the KiB are fewer than 2^32 - 1. |
| MbrEdit.SecondRunCanShorten | editdisklbl/editdisklbl.c:164-178 | Five partitions on 5100 sectors, of which the last shrinks from 1001 sectors to 1000. |
| MbrEdit.EditDisk | editdisklbl/editdisklbl.c:164-178 | Check, lay out again, commit: it succeeds if and only if every partition is accepted; then the disk holds the second run's table, and otherwise it is unchanged. |

## Left out

- CRC32 and random GUIDs: the checksum is an arbitrary function of the bytes, GUIDs are parameters.
- Partial transfers: reads and writes are complete; a read past the end of the disk is an error result.
  `robust_write` does not advance its buffer, so the round trip needs this. Allocation failure likewise.
- Host byte order: tables are encoded to and decoded from little-endian bytes; that the program swaps
  a copy in memory is not modelled beyond `GptDevice.Gpt.Copy`.
- GptDevice.Gpt.ReadData: headers larger than 92 bytes, entries smaller than 128 bytes and tables of
  4 GiB and more are read errors here (`GptImage.ReadCopy`); the program reads on, past its buffers.
- GptTable.NameReadsBack: stored names without a terminator, which the program reads past, end with the field.
- GptDevice.Gpt.FindContiguousFreeSpace: promises nothing for overlapping entries or starts from 2^63
  on; the comparison is no order there (see above). The C library's sort is an insertion sort by the
  same comparison.
- FAT options: a bootstrap file (`-B`), an offset (`-@`), standard formats, the default cluster size by
  disk size, and trimming the size to whole tracks come before or instead of what is modelled.
- FatImage.LabelSector: volume ID and time stamps are inputs; the boot code is data.
- The FAT type by cluster count as the standard has it: the formatter's limits differ.
- The resizing of the file system inside the Windows partition.
- Planner options: hash maps are maps of names; device nodes, indexes and GUIDs recorded there for
  later stages are not modelled, nor is the dialogue, of which only the checks before a wipe and before a
  dual boot without resizing are; the sizes that it offers for a smaller Windows partition are not.
- MbrLayout.LayoutInBounds: asks for a disk size other than 0, which switches the check off, and for sums
  that stay below 2^32 sectors (`Unwrapped`); lengths can be of any kind. Sector sizes are powers of two,
  as the source demands, and rounding up is a division.
- MbrTool.ConfigMbr: a missing partition list is not modelled; the list is there, possibly empty.
- MbrWalk.NumberFindsPartition: partitions are not themselves of the extended type, as the tool's
  validation ensures (`editdisklbl/diskconfig.c:369-374`); the skipped sectors are at least one
  (`editdisklbl/diskconfig.c:212`).
- MbrEdit.EditDisk: opening and validating the image, and copying partition images into it.
- Ioctls, mounting, shell commands, option and ini parsing, dumps, packaging.
