# livedisk: a verified model

livedisk lists the disks and partitions of a running machine and draws them as bars of
text. This project models the parts of it that compute: the column and extent arithmetic
of the bars (`core/src/bar.rs`), the listing that puts them together (`core/src/lib.rs`),
the parser of the Windows drive layout (`core/src/drive_layout.rs`), the parser of sysfs
and `/proc/mounts` (`core/src/sysfs.rs`), and the grouping of macOS media
(`core/src/macos.rs`). `dafny verify dfyconfig.toml` checks everything.

## How it is organised

| file | contents |
|---|---|
| `Machine`, `Sums`, `Sorting`, `Text`, `Bytes` | integer types with their ranges, finite sums, stable sorting and filtering, and the string and byte operations of Rust's standard library that are used |
| `Model` | disks and partitions |
| `Apportion`, `Borrowing`, `AllocateWidths` | `allocate_widths`: the largest-remainder stage, the borrowing stage, the algorithm and its theorems |
| `Segments` | `segments`: the sweep, and what it says about free space, sizes and order |
| `Palette` | `partition_slots` |
| `DiskBar`, `Overview`, `Listing` | `disk_bar`, `render_overview`, `render_listing` |
| `Octal`, `Mounts`, `Sysfs` | `decode_octal`, `parse_mounts`, `build` |
| `Utf16`, `DriveLayout` | `utf16_name`, `format_guid`, `parse_drive_layout` |
| `Macos` | `assemble`, `whole_disk_of`, `disk_index` |

Code that updates variables in a loop is a method, proved against a specification
function or predicate; the lemmas are about the specification. `u64`, `u128`, `usize` and
so on are subset types, so a method that verifies cannot overflow; `usize` has 64 bits.
Where the original multiplies or sums `u64` values without a check, the method requires
that the result fits, and so does the length of a partition list whose slice count the
original computes in `usize`.

The two stages of the column allocation have declarative specifications,
`Apportion.IsLargestRemainder` and `Borrowing.IsLevelled`, and each of them is proved to
have exactly one solution; everything said about widths follows from those two.

Three places where the text of the repository says something else than its code; the
model follows the code:

- The module text of `core/src/bar.rs` promises that the slices always sum to exactly the
  bar width (the comment on `allocate_widths` makes an exception for weights that are all
  zero). A disk of size 0 with an empty partition at its start has an empty bar
  (`DiskBar.BarCanBeEmpty`); a bar fills its width exactly if the device, or a partition,
  or the space in front of one, holds a byte (`DiskBar.BarFillsTheWidth`).
- The comment on `segments` speaks of gaps in the device. With a partition at byte 20 of a
  disk of 10 bytes, free space is drawn past the end of the device
  (`Segments.FreePastTheEnd`). Free slices stay on the device exactly if every partition
  that starts past its end is led up to by another that starts earlier
  (`Segments.FreeStaysOnDevice`).
- ADR 0004 says the signed fields of the drive layout are decoded with
  `i64::from_le_bytes`; the code reads them unsigned, with 0 out of range, and
  reinterprets the bits (`Bytes.ReadI64`).

## Model

| member | source | states |
|---|---|---|
| Apportion.LargestRemainderUnique | core/src/bar.rs:105-125 | the specification of the largest-remainder stage (floor or one more, spending exactly the total, extra columns to larger remainders and then to earlier entries) has at most one solution |
| Apportion.RemaindersPayLeftover | core/src/bar.rs:107-118 | the columns left over by the floors, times the sum of weights, are exactly the sum of the remainders |
| Apportion.LeftoverIsSmall | core/src/bar.rs:118-125 | the leftover is not negative, so the subtraction cannot underflow, and is 0 or smaller than the number of remainders above zero, so one pass hands everything out |
| Apportion.WinnersHaveRemainder | core/src/bar.rs:116-125 | an extra column only ever goes to an entry with a remainder above zero |
| Apportion.Quota | core/src/bar.rs:110-125 | every share is the exact share rounded down or up |
| Apportion.LargerIsWider | core/src/bar.rs:116-125 | a larger exact share is never narrower; equal ones differ by at most one column in favour of the earlier |
| Apportion.LargestRemainderOptimal | core/src/bar.rs:105-125 | among all integer vectors with the same sum the shares have the least total absolute error, for any exact shares |
| Borrowing.WidestDonor | core/src/bar.rs:131 | the donor is the last of the widest entries with more than one column, and there is none exactly if no entry has more than one |
| Borrowing.BorrowStep | core/src/bar.rs:129-136 | one turn of the borrowing loop keeps its whole specification: sum, who may receive, donors level, served in order, exhausted or all visible |
| Borrowing.LevelledUnique | core/src/bar.rs:127-136 | the specification of the borrowing stage has at most one solution |
| Borrowing.Visibility | core/src/bar.rs:127-136 | entries without weight get nothing; every weighted one shows if there is room, otherwise nobody holds two columns; exactly min(total, weighted entries) show |
| Borrowing.BorrowsFewest | core/src/bar.rs:127-136 | no row with the same sum that shows every weighted entry differs from the shares by fewer columns |
| AllocateWidths.AllocationUnique | core/src/bar.rs:94-138 | the specification of the whole allocation determines the widths |
| AllocateWidths.OrderServes | core/src/bar.rs:116-117 | stable sorting by descending remainder serves larger remainders first and equal ones by position |
| AllocateWidths.FloorShares | core/src/bar.rs:107-118 | the first loop computes the floors, the remainders and the sum of the floors without overflow |
| AllocateWidths.HandOut | core/src/bar.rs:116-125 | the second loop, starting from the floors, leaves the largest-remainder shares |
| AllocateWidths.BorrowColumns | core/src/bar.rs:127-136 | the third loop, starting from any row, keeps its sum; only a weighted entry without a column receives, and only one; a donor keeps a column, ends at most one narrower than anyone and no narrower than later entries; nobody is served before an earlier needy entry; it stops short only when no entry has two columns |
| AllocateWidths.Allocate | core/src/bar.rs:98-138 | the result is the allocation specified: zeros without columns or weight, otherwise shares then levelled |
| AllocateWidths.WidthsFillTheRow | core/src/bar.rs:94-97 | the widths add up to exactly the total, or to 0 if there is no weight |
| AllocateWidths.VisibleIfPossible | core/src/bar.rs:94-97 | with k weighted entries exactly min(total, k) end up visible, and if the total reaches k all of them |
| AllocateWidths.NeverAboveCeiling | core/src/bar.rs:110-136 | no final width exceeds the exact share rounded up |
| AllocateWidths.SharesFollowWeights | core/src/bar.rs:110-125 | before borrowing a strictly heavier entry is never narrower and equal weights differ by at most one in favour of the earlier |
| AllocateWidths.HeavierAlmostWider | core/src/bar.rs:110-136 | after borrowing an entry at least as heavy as another is at most one column narrower |
| AllocateWidths.SharesAreOptimal | core/src/bar.rs:105-125 | before borrowing the widths minimise the sum of \|width * sum - weight * total\| over all integer vectors with that total |
| AllocateWidths.DrawnToScale | core/src/bar.rs:105-136 | if every weighted entry is worth a column nothing is borrowed and each width is within one column of its exact share |
| Sorting.SortedByClasses | core/src/bar.rs:64 | sequences that are sorted and have their ties in the same order are the same, so order and stability determine the result of a sort |
| Sorting.SortIsStable | core/src/bar.rs:64 | `sort_by` and `sort_by_key` as modelled here keep elements that compare equal in their input order |
| Segments.SweepSlices | core/src/bar.rs:66-91 | the loop with its running cursor pushes exactly the slices of the recursive specification |
| Segments.ListSegments | core/src/bar.rs:62-92 | the slices of a disk are those of its partitions stably sorted by start |
| Segments.PartitionsInOrder | core/src/bar.rs:68-81 | the partition slices are the partitions in on-disk order, numbered from 1, with their sizes and labels |
| Segments.SliceDrawsPartition | core/src/bar.rs:76-81 | slice number i has the size of the i-th partition on disk, and a label of its name and its type, or a dash without one |
| Segments.LayoutIsOrdered | core/src/bar.rs:59-61 | the slices have byte positions that never run backwards, and a gap ends before the next slice starts |
| Segments.FreeSlicesAreTheGaps | core/src/bar.rs:67-90 | for partitions overlapping, nested, empty or past the end alike: a byte is in a free slice exactly if it is below the largest of device size and partition ends and no partition covers it |
| Segments.FreeStaysOnDevice | core/src/bar.rs:59-61 | no free slice reaches past the end of the device if and only if every partition that starts past it has another one that starts earlier and reaches up to it |
| Segments.FreePastTheEnd | core/src/bar.rs:59-61 | on a disk of 10 bytes with one partition at byte 20, byte 15 is in a free slice |
| Segments.NeighboursAlternate | core/src/bar.rs:67-90 | no gap stands next to a gap, and of two partitions next to each other the second has the next number |
| Segments.SlicesHaveBytes | core/src/bar.rs:67-90 | some slice is not empty if and only if the device, a partition, or the space in front of one holds a byte |
| Segments.SegmentSizesAddUp | core/src/bar.rs:67-91 | slice sizes add up to the extent plus the sum of partition sizes minus the size of their union |
| Segments.SegmentsTileTheDisk | core/src/bar.rs:67-91 | slice sizes add up to at least the disk size, and to exactly the disk size if and only if the partitions lie inside the disk and no two share a byte |
| Segments.GapsIgnoreListingOrder | core/src/bar.rs:63-90 | permuting the partitions of a disk never changes the sequence of its gaps |
| Segments.SlicesIgnoreListingOrder | core/src/bar.rs:63-91 | if no two different partitions start at the same byte, permuting them changes no slice at all |
| Segments.ListedOrderIsLegendOrder | core/src/bar.rs:63-81 | if partitions are listed in on-disk order, slice number i has the size, name and type of partitions[i - 1] |
| Palette.Largest | core/src/bar.rs:204-208 | the largest partition is the last of those with the greatest size |
| Palette.CounterServesOthers | core/src/bar.rs:210-220 | the r-th partition that is not the largest gets entry r mod 7 of the numbers 0 to 7 without the accent |
| Palette.TakeSlot | core/src/bar.rs:215-220 | the skipping loop ends and steps over the accent and nothing else |
| Palette.FillSlots | core/src/bar.rs:209-222 | the loop over the partitions writes each one's slot under its number, always in bounds |
| Palette.PartitionSlots | core/src/bar.rs:203-224 | for slices numbered from 1, the largest partition is mapped to the accent, and any other to entry k mod 7 of the numbers 0 to 7 without the accent, where k other partitions come before it; entry 0 is unused |
| Palette.SlotsInOrder | core/src/bar.rs:209-222 | the same of the specified slots: counted from the numbers before a partition, without its rank |
| Palette.OnlyLargestIsAccent | core/src/bar.rs:200-202 | exactly the largest partition is drawn in the accent |
| Palette.SharedSlots | core/src/bar.rs:200-224 | two partitions share a slot if and only if neither is the largest and their ranks agree modulo 7 |
| Palette.SevenInARowDiffer | core/src/bar.rs:200-224 | any seven consecutive partitions that are not the largest get different slots |
| Palette.ConsecutiveDiffer | core/src/bar.rs:200-224 | partitions with consecutive numbers get different slots, however many there are |
| Palette.EightPartitionsDiffer | core/src/bar.rs:200-224 | up to eight partitions all get different slots |
| DiskBar.SlicesAreNumbered | core/src/bar.rs:77-81 | the slices of any disk carry the numbers 1 to n, so slot lookups are in bounds |
| DiskBar.DrawBar | core/src/bar.rs:160-170 | the bar is one run per slice, in order, in the slice's own cell |
| DiskBar.DrawLegend | core/src/bar.rs:172-196 | the legend has one row per slice with the same cell as swatch |
| DiskBar.Draw | core/src/bar.rs:153-198 | bar and legend are keyed to each other and the runs are as wide as the slices' shares of the row |
| DiskBar.BarFillsTheWidth | core/src/bar.rs:160-170 | the cells number exactly the width if the device, a partition, or the space in front of one holds a byte, in colour and in plain text, and 0 otherwise |
| DiskBar.BarCanBeEmpty | core/src/bar.rs:6-9 | a disk of size 0 with an empty partition at its start has an empty bar, whatever the width |
| DiskBar.NeighboursDiffer | core/src/bar.rs:153-198 | slices next to each other never share a swatch, on any disk |
| DiskBar.BordersShow | core/src/bar.rs:160-170 | where two slices that both show meet, the columns left and right of the border look different |
| DiskBar.ColumnShowsSlice | core/src/bar.rs:163-168 | a column in a slice's stretch of the row shows that slice's legend swatch |
| DiskBar.EverySliceShows | core/src/bar.rs:94-97 | with at least as many columns as slices that are not empty, each of them shows in the bar |
| DiskBar.SlotCellsDiffer | core/src/bar.rs:17-24 | different palette slots, and free space, look different in colour and in plain text |
| DiskBar.RowShowsSlot | core/src/bar.rs:17-45 | a partition's swatch is the palette entry of its slot: its colour code as a block on a terminal, else its character |
| DiskBar.RowShowsFree | core/src/bar.rs:21-23 | a gap's swatch is block 240 on a terminal, else a dot |
| DiskBar.DrawnInMode | core/src/bar.rs:28-45 | every column of the bar and every swatch is a coloured block if colour is asked for, and a plain character if not |
| DiskBar.BarReadsBack | core/src/bar.rs:153-198 | for a disk with at most eight partitions, counting the cells in a partition's swatch gives its width |
| DiskBar.LargestShowsAccent | core/src/bar.rs:149-152 | the legend row of the largest partition, the last of them on a tie, shows the accent |
| DiskBar.BarIsToScale | core/src/bar.rs:1-9 | for partitions inside the disk and apart, if every slice is worth a column, each width is within one column of size * width / disk size |
| Overview.FullSize | core/src/bar.rs:239-244 | the scale is the largest size, and at least 1 |
| Overview.RenderRow | core/src/bar.rs:258-277 | the product fits 128 bits; the row names the disk and its size, is exactly as wide as asked, and shows its slot's cell up to the fill and blanks after it |
| Overview.RenderOverview | core/src/bar.rs:233-280 | nothing with fewer than two physical disks, otherwise the total and one row per physical disk in order |
| Overview.ChartNeedsTwo | core/src/bar.rs:234-237 | there is a chart if and only if two disks are not synthesized |
| Overview.RowOfDisk | core/src/bar.rs:258-277 | a physical disk's row stands at its rank, spans the width, and is filled in the cell of slot rank mod 8 |
| Overview.RowInMode | core/src/bar.rs:268-270 | filled columns are coloured blocks on a terminal and characters otherwise, in the palette entry of the rank mod 8, and differ from the blanks behind them |
| Overview.DiskSizes | core/src/bar.rs:238-244 | the sizes summed and compared are those of the physical disks, in order |
| Overview.FillIsMonotone | core/src/bar.rs:262-266 | a larger disk fills at least as much, and never more than the width |
| Overview.FillEnds | core/src/bar.rs:260-266 | an empty disk fills nothing, any other at least one column, the largest the whole row |
| Overview.FillIsToScale | core/src/bar.rs:260-266 | a fill is within one column of the exact proportion, or one column |
| Overview.RankIsPlace | core/src/bar.rs:234-258 | the number of physical disks before a physical disk is its index in the filtered list |
| Listing.RenderBody | core/src/lib.rs:311-326 | no partitions, a volume list for a synthesized disk, or else the bar with the given accent |
| Listing.RenderBodies | core/src/lib.rs:297-331 | the loop shows every disk, a physical one with its rank among the physical disks as accent |
| Listing.RenderListing | core/src/lib.rs:282-333 | nothing to list exactly if there are no disks; otherwise the overview and what is to be shown for each disk |
| Listing.BodiesByKind | core/src/lib.rs:311-326 | a disk shows as having no partitions, as volumes, or as a bar, exactly by whether it has partitions and is synthesized; the bar is as wide as asked if the disk holds a byte |
| Listing.OverviewAndBarAgree | core/src/lib.rs:294-329 | the swatch of a physical disk's largest partition equals the filled cells of its overview row |
| Octal.DecodeOctal | core/src/sysfs.rs:135-160 | the loop over the characters computes the recursive specification: values above 255, short tails and digits 8 and 9 stay literal |
| Octal.DecodeUndoesEscape | core/src/sysfs.rs:133-160 | decoding undoes a three-digit octal escaper that marks the backslash and any other characters up to 255 |
| Octal.DecodeUndoesExactly | core/src/sysfs.rs:133-160 | decoding undoes an escaper on every string if and only if it marks the backslash, or else the digits 0 to 3 |
| Octal.DecodeShortens | core/src/sysfs.rs:133-160 | decoding never lengthens a string and changes it if and only if there is an escape in it |
| Octal.DecodesByDigits | core/src/sysfs.rs:140-146 | a backslash and three characters with codes 48 to 55 give the character of their octal value, or stay if that exceeds 255 |
| Octal.OthersStand | core/src/sysfs.rs:140-156 | anything else at the start of a string stands for itself |
| Octal.PlainStays | core/src/sysfs.rs:135-160 | text in which no backslash is followed by three digits from 0 to 7 is unchanged |
| Octal.EscapedIsSolid | core/src/sysfs.rs:45-47 | escaped text holds no whitespace if all its whitespace was marked |
| Mounts.LineReadsBack | core/src/sysfs.rs:51-57 | a printed mount line is parsed into its mount, and any line with fewer than three fields or a first field not below /dev/ into nothing |
| Mounts.MountsReadBack | core/src/sysfs.rs:48-59 | a table of printed mounts, interleaved with other lines, is parsed into exactly those mounts in order |
| Mounts.LastLineReadsBack | core/src/sysfs.rs:48-59 | a last line counts although no newline ends it |
| Sysfs.FindMount | core/src/sysfs.rs:64-69 | the lookup finds the first mount of a device, or none if there is none |
| Sysfs.Build | core/src/sysfs.rs:62-126 | position k of the result is the k-th raw disk by name, ties as listed: its name, path, size in bytes, flags, sector sizes with their defaults, trimmed model, dm- test, and as partitions its raw partitions by start, ties as listed, each with name, path, place, size and the first mount listed for its name or none |
| Sysfs.BuildDelivers | core/src/sysfs.rs:71-125 | the specified result meets this description, which names no step of the construction |
| Sysfs.DeliveryIsUnique | core/src/sysfs.rs:62-126 | nothing else than what is built meets that description |
| Sysfs.BuildSorts | core/src/sysfs.rs:102-124 | names come in order, partitions by offset, and sector sizes are above zero |
| Text.NotAfterExactly | core/src/sysfs.rs:124 | a name comes before another exactly if it is a prefix of it or has the smaller character where they first differ |
| Sysfs.BuiltDisksKeepTheirOrder | core/src/sysfs.rs:102 | on a disk built from sysfs the bar's own sort changes nothing and slice i is partitions[i - 1] |
| Sysfs.BuildIgnoresListingOrder | core/src/sysfs.rs:124 | listing disks of different names in another order gives the identical result |
| Sysfs.CarriesFirstMount | core/src/sysfs.rs:86-99 | a partition has the name, path, place and size of its raw partition, and the first mount listed for that name, or nothing |
| Sysfs.NumberReadsDecimal | core/src/sysfs.rs:128-131 | a decimal with whitespace around it is read as its value, and as 0 if it exceeds 64 bits |
| Text.ParsesExactly | core/src/sysfs.rs:128-131 | a number is exactly digits, after at most one plus sign, of a value up to 2^64 - 1 |
| Text.ValueByTens | core/src/sysfs.rs:128-131 | a digit appended to a number makes it ten times as much and the digit |
| Sysfs.PartitionReadsBack | core/src/sysfs.rs:93-94 | start and size printed in sectors are read back in bytes |
| Sysfs.DiskReadsBack | core/src/sysfs.rs:74-81 | printed size, flags and sector sizes are read back, a zero physical size falling back on the logical one and a zero logical size on 512 |
| Sysfs.ModelIsTrimmed | core/src/sysfs.rs:110-115 | the model name loses surrounding whitespace and is absent if nothing is left |
| Bytes.FieldReadsBack | core/src/drive_layout.rs:56-57 | a little-endian field is read back |
| Bytes.LeastFirst | core/src/drive_layout.rs:56-57 | the first byte of a field counts least |
| Bytes.ReadI64 | core/src/drive_layout.rs:121-123 | 0 if the field is not all there, else the value in the signed range that agrees with the field modulo 2^64 |
| Utf16.DecodeUndoesEncode | core/src/drive_layout.rs:132 | decoding undoes UTF-16 encoding (sections 2.1 and 2.2 of RFC 2781), surrogate pairs included |
| Utf16.EncodeUndoesDecodeExactly | core/src/drive_layout.rs:132 | encoding undoes the lossy decoding if and only if every surrogate is half of a pair |
| Utf16.NameReadsBack | core/src/drive_layout.rs:125-133 | a name field is read back without the whitespace around the name, whatever follows its NUL |
| Utf16.DecodesByUnits | core/src/drive_layout.rs:132 | a pair of surrogates, a plain unit and a lone surrogate are each decoded as section 2.2 of RFC 2781 says, the last as U+FFFD |
| Utf16.UnitsAt | core/src/drive_layout.rs:127-129 | units are read low byte first, and an odd byte at the end is ignored |
| DriveLayout.FormatGuid | core/src/drive_layout.rs:106-115 | the text spells the first 16 bytes, missing ones read as zero: upper-case hexadecimal, three fields stored least byte first and eight bytes in order, hyphens between |
| DriveLayout.GuidTextSpells | core/src/drive_layout.rs:97-105 | read as hexadecimal by character codes, a GUID's text gives back its fields and bytes (section 4 of RFC 9562) |
| Bytes.PairReads | core/src/drive_layout.rs:82 | two hexadecimal digits give back their byte, the first digit counting most |
| DriveLayout.GuidTextInjective | core/src/drive_layout.rs:97-105 | different GUIDs have different texts in the mixed-endian form (section 4 of RFC 9562) |
| DriveLayout.ReadEntry | core/src/drive_layout.rs:64-92 | one turn of the loop: the partition in an entry, or nothing where the original continues |
| DriveLayout.ParseDriveLayout | core/src/drive_layout.rs:49-95 | the loop with its early exit computes the specified layout; a buffer under 8 bytes gives style 0xFFFFFFFF |
| DriveLayout.RecordReadsBack | core/src/drive_layout.rs:69-92 | one record written over any old entry is read back, or nothing if its length is not above zero or its MBR type is 0 |
| DriveLayout.LayoutReadsBack | core/src/drive_layout.rs:47-95 | GPT, MBR and other records (number, start, length, GUID, name, type) written over any entries, with any header and trailer, are parsed into exactly the partitions of the used ones, field by field and in table order |
| DriveLayout.LayoutSays | core/src/drive_layout.rs:47-95 | for style 1, 0 or another: a partition for each record with a length above zero and an MBR type other than 0, in table order, with its number, start (0 if negative), length, spelled-out GUID or two-digit type, and its name or none if empty |
| DriveLayout.ShownInjective | core/src/drive_layout.rs:85-92 | from a used record that starts at or above zero no field is lost |
| DriveLayout.RecordsAreRecovered | core/src/drive_layout.rs:47-95 | the parsed partitions determine the used records |
| DriveLayout.TruncationKeepsPrefix | core/src/drive_layout.rs:50-63 | cutting the buffer anywhere from byte 8 on keeps the style and a prefix of the partitions; any less gives style 0xFFFFFFFF and none |
| DriveLayout.PaddingExactly | core/src/drive_layout.rs:59-68 | appending zeros never changes the result if and only if no more entries are announced than fit, or the entry the buffer breaks off in, filled up with zeros, has a length that is not above zero or, in an MBR layout, the type 0 |
| DriveLayout.EntryBoundariesAreSafe | core/src/windows.rs:109-111 | a buffer ending at an entry boundary, before the first entry or within the first 16 bytes of one may be padded with zeros, as the 32 KiB buffer is |
| Macos.FirstNamed | core/src/macos.rs:89 | a partition's parent is the first disk of that name |
| Macos.Group | core/src/macos.rs:87-101 | the grouping loop hangs every partition below the first disk that carries its parent's name |
| Macos.SortPartitions | core/src/macos.rs:103-105 | every disk's partitions are sorted by offset and nothing else changes |
| Macos.Assemble | core/src/macos.rs:68-108 | position k of the result is the k-th whole medium by number, ties as listed: its name, path, size, sector sizes, flags and AppleAPFS test; the first disk of a name has the media named below it by offset, ties as listed, each with name, path, place, size and its content as type or none, and other disks nothing |
| Macos.AssembledAsDescribed | core/src/macos.rs:68-108 | the specified result meets this description, which names no step of the construction |
| Macos.AssemblyIsUnique | core/src/macos.rs:68-108 | nothing else than what is assembled meets it |
| Macos.AttachAdds | core/src/macos.rs:87-101 | one turn of the grouping loop hangs one partition below its parent and leaves every other disk alone |
| Macos.AssembleConserves | core/src/macos.rs:63-101 | every partition whose whole disk is present appears exactly once, nothing else appears, and every whole disk appears exactly once |
| Macos.OwnNamesakes | core/src/macos.rs:87-105 | a partition always hangs below the disk its name points at, and a disk that has any has all that are named after it, in offset order |
| Macos.AssembleSorts | core/src/macos.rs:103-107 | disks come by number and their partitions by offset |
| Macos.TiedDisksKeepOrder | core/src/macos.rs:107 | disks with the same number keep the order their media are listed in |
| Macos.TiedPartitionsKeepOrder | core/src/macos.rs:103-105 | partitions of a disk that start at the same byte keep the order their media are listed in |
| Macos.AssembleIgnoresOrder | core/src/macos.rs:63-108 | if media tie only with their like, any permutation of the media gives the identical result |
| Macos.AssembleIgnoresOrderExactly | core/src/macos.rs:63-108 | every permutation of the media gives the identical result if and only if whole disks with one number, and partitions of one present disk that start at one byte, are shown the same |
| Macos.NamesPointHome | core/src/macos.rs:110-122 | a partition named after disk n belongs to disk n whatever its suffix, and disk n has number n up to the 64-bit limit |
| Macos.OtherNames | core/src/macos.rs:110-122 | a name without the prefix belongs to the disk of its leading digits; names without a number come last |

## Left out

- `human_size`, percentages and padded columns of the legend and the overview: floating point and formatting only; a legend row keeps its swatch, number, label parts and size.
- ANSI escape sequences: a column is a cell that holds the colour code or the plain character.
- `render_disks` and `partition_info`: they only join strings.
- Reading devices and registries (`core/src/linux.rs`, `core/src/windows.rs`, the `collect_media` half of `core/src/macos.rs`, `open_device`): input and output.
- `forensic/src/lib.rs`: independent flags on single fields.
- Release builds wrap around where sums or products of `u64` overflow; the model requires that they fit instead.
- 32-bit targets: an entry offset computed from a large entry count could wrap around there; `usize` is 64 bits wide here.
- Vectors that the original sorts or extends in place (`partitions`, `out`, `disks`, `segs`) are sequence variables that are reassigned; the widths, remainders, slots and GUID bytes are arrays updated in place.
- DriveLayout.ReadEntry: the body of the entry loop is a method of its own, so `continue` inside it is a return without a partition.
