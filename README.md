# hdlg core, modelled in Dafny

hdlg is a desktop front end for hdl-dump, the tool that installs PlayStation 2
games onto a PS2 hard disk (one formatted with the APA partition scheme). This
project models and proves the part of hdlg that works on the drive and on
hdl-dump's output:

- **`HDD` (hdlg/hdd.py)**, modelled as the class `Hdd.HDD`:
  - opening a drive through its `\\.\` device path, with the hdl-dump name (`hdl_target`) that goes with it;
  - the file position that `seek` and `read` move, with their error checks;
  - the values worked out once and kept afterwards: `geometry`, `disk_size`, `disk_map`, `is_apa_partitioned` and `apa_checksum`.
- **The APA header check (module `Apa`).** The stored checksum in bytes 0..4 must equal the low 32 bits, little-endian, of the sum of the 255 little-endian words at offsets 4..1020. Bytes 4..8 must hold the magic "APA\0".
- **The readers of hdl-dump output (module `HdlOutput`).** `disk_map` reads the last line of `hdl-dump map`. `get_games_list` reads the `hdl-dump hdl_toc` table into game records sorted by name.
- **hdlg/utils.py (module `Utils`).** The whitespace-run collapse that the table reader runs on every line, and `size_unit`'s unit loop and zero stripping.
- **The progress loop of `install_game` (hdlg/ui/worker.py), in module `Worker`.** Each line hdl-dump prints is split into progress, time remaining and speed. That gives a status message and a percentage, emitted in order.

The Python `str` operations hdlg relies on are spelled out with CPython's meaning in module `Strings`: `split` (including `maxsplit`), `join`, `replace`, `rstrip`, `isspace`, `int()` (with the narrower set of whitespace it skips), `str()`, ASCII `upper`/`lower`, and `<` on strings. Exceptions become `Result` values. Each raise site kind has its own constructor of `Errors.Error`.

The operating system is a parameter:
- A device is a `Disk`: its bytes, the result code ReadFile reports for it, and the eight 32-bit values the geometry query answers.
- CreateFile is a lookup of the device path in a map of such disks.
- hdl-dump is a function from its arguments to the lines it prints.
- `float()` is a function from text to an optional real.

## Definitions the proofs are about

Some functions only compute what a line of the source computes. They have no contract of their own. The lemmas named next to them state what they mean.

- `Strings.Replace` is `str.replace` (hdlg/hdd.py:37, 217). `Strings.ReplaceFirst` and `Strings.ReplaceAbsent` state what it does.
- `Strings.ParseInt` is `int()` of a text (hdlg/hdd.py:143, 217). `Strings.ParseIntText`, `Strings.IntStripAround` and `Strings.IntRefusesSeparator` state what it accepts.
- `Strings.Join` is `", ".join` (hdlg/ui/worker.py:92). `Strings.Upper` and `Strings.Lower` are `upper()` (hdlg/hdd.py:37) and `lower()` (hdlg/ui/worker.py:84). `Strings.LexLe` is `<=` on names (hdlg/hdd.py:220).
- `Utils.UnitFor` is the unit index the `size_unit` loop reaches (hdlg/utils.py:71-74). `Utils.UnitForMeaning` states it and `Utils.SizeUnit` is proved against it.
- `Utils.StripZeros` is `rstrip("0").rstrip(".")` (hdlg/utils.py:75). `Utils.StripZerosDecimal` and `Utils.StripZerosFixed2` state what it leaves.
- `Apa.ToLE` is `struct.pack("<Q", …)[:4]` and `Apa.FromLE` is `struct.unpack("<I", …)` (hdlg/hdd.py:166-169). `Apa.FromToLE`, `Apa.ToFromLE` and `Apa.ToLEMod` state what they do.
- `Apa.IsApaHeader` is the test `magic == b"APA\0" and checksum == new_checksum` (hdlg/hdd.py:171). `Apa.SealedAccepted` and `Apa.AcceptedIsSealed` state which headers pass.
- `Hdd.DiskSizeOf` is the `disk_size` formula (hdlg/hdd.py:130-132). `Hdd.DiskSizeAddsHalves` compares it with the true size.
- `Hdd.SeekTarget` is where SetFilePointer moves the position (hdlg/hdd.py:79). `Hdd.HDD.Seek` is proved against it.
- `Hdd.ApaAnswer` and `Hdd.ChecksumAnswer` are the cached-or-probed answers of `is_apa_partitioned` and `apa_checksum` (hdlg/hdd.py:154-195). `Hdd.HDD.IsApaPartitioned` and `Hdd.HDD.ApaChecksum` are proved against them.
- `HdlOutput.TocBody` is `hdl_dump("hdl_toc", …)[1:-1]` (hdlg/hdd.py:210). `HdlOutput.GamesList` uses it.
- `Worker.StatusText` is the status message of a line (hdlg/ui/worker.py:92-94). `Worker.StatusOfFullLine` and `Worker.StatusOfShortLine` state it.
- `Worker.PercentText` is `progress.split("%")[0]` (hdlg/ui/worker.py:95). `Worker.PercentBeforeSign` states it.
- `Worker.InjectCommand` is the hdl-dump argument list (hdlg/ui/worker.py:83-86). `Worker.LineStep` and `Worker.Steps` give each line's status and percentage (hdlg/ui/worker.py:87-96).
- `Worker.Trace` is the sequence of signals the loop emits (hdlg/ui/worker.py:82-100). `Worker.TraceShape` and `Worker.TraceFailure` state its shape and `Worker.InstallGame` is proved against it.

## How the code behaves where its documentation suggests otherwise

The model follows the code in each of these cases:

- **Sort key.** `get_games_list` sorts by the last tuple element, the game name (hdlg/hdd.py:220), not by game id.
- **`seek(0, FILE_CURRENT)`.** `seek` compares the new position with `to`, so this call raises "Seek was not precise" unless the position is at 0 (hdlg/hdd.py:80, 157, 185).
  - `HDD.New` leaves the position at 0.
  - `IsApaPartitioned` and `ApaChecksum` put the position back where they found it.
  - So through hdlg's own calls the probe never fails this way.
- **Short `hdl_toc` lines.** Only one missing column is padded with "[!]". A line with fewer than five columns raises (hdlg/hdd.py:213-218).
- **Re-opening.** `open` keeps every cached value. Nothing invalidates them.
  - `Valid()` states that the caches describe the open device only until `Open` runs again (the ghost flag `reopened`).
- **Disk size.** `disk_size` adds the low and high halves of the cylinder count instead of combining them as a 64-bit number. `Hdd.DiskSizeAddsHalves` proves the two agree exactly when the high half is 0 or the sector layout is empty.
- **`size_unit` docstring.** It shows 68.81 MB and 39.75 GB. "%.2f" rounds 68.819826 and 39.756861649 to 68.82 and 39.76. The units it shows are the ones the loop picks (`Utils.DocstringExamples`).

## Model

| member | source | states |
|---|---|---|
| Wrappers.Collect | hdlg/hdd.py:142-145 | a list comprehension whose element may raise has one result per element when it succeeds |
| Wrappers.CollectSuccess | hdlg/hdd.py:216-219 | the comprehension succeeds exactly when every element does, each result at its element's place |
| Wrappers.CollectFailure | hdlg/hdd.py:216-219 | a failing comprehension raises the error of its first failing element |
| Wrappers.CollectOf | hdlg/hdd.py:142-145 | elements with known results give exactly those results |
| Strings.IndexFrom | hdlg/hdd.py:144 | the first occurrence of the separator at or after a position, or none at all |
| Strings.Split | hdlg/hdd.py:144 | `str.split`: at least one piece, at most maxsplit + 1, joining the pieces with the separator gives the text back, and the first cut is at the first occurrence |
| Strings.SplitPieces | hdlg/hdd.py:144 | no piece holds the separator, except the last one when maxsplit ran out |
| Strings.SplitJoined | hdlg/hdd.py:144 | splitting joined parts gives the parts back when no part (bar the last under a matching maxsplit) holds the separator's first character |
| Strings.SplitFirst | hdlg/ui/worker.py:95 | when the first occurrence of the separator is right after `before`, the split is `before` followed by the split of what comes after that occurrence, with one cut fewer |
| Strings.FirstAt | hdlg/ui/worker.py:95 | text without the separator's first character holds no occurrence, so the first one is right after it |
| Strings.ReplaceFirst | hdlg/hdd.py:37 | when the first occurrence of the pattern is right after `before`, `replace` keeps `before`, substitutes that occurrence and carries on after it |
| Strings.ReplaceAbsent | hdlg/hdd.py:217 | text in which the pattern does not occur is left alone |
| Strings.RStrip | hdlg/utils.py:75 | `rstrip(c)` removes exactly the trailing run of `c` |
| Strings.LStripSpace | hdlg/utils.py:9 | the leading whitespace is removed, and nothing else |
| Strings.ParseIntText | hdlg/hdd.py:143 | `int(str(n)) == n` for every integer |
| Strings.NatTextDigits | hdlg/hdd.py:217 | `str(n)` of a natural number is non-empty decimal digits worth n |
| Strings.IntStripAround | hdlg/hdd.py:143 | `int()` reads its number from between the runs of whitespace it skips on either side |
| Strings.IntRefusesSeparator | hdlg/hdd.py:217 | `int()` refuses a number after U+001C, which `isspace` counts as whitespace |
| Strings.LexLeTotal | hdlg/hdd.py:220 | any two names are ordered one way or the other |
| Strings.LexLeTransitive | hdlg/hdd.py:220 | the name order is transitive |
| Strings.LexLeAntisymmetric | hdlg/hdd.py:220 | names ordered both ways are equal |
| Utils.Collapse | hdlg/utils.py:9 | the substitution of `[\s]{2,}` by one space leaves no two neighbouring whitespace characters, keeps every other character in order, is empty only for empty text and starts with whitespace exactly when the text does |
| Utils.CollapseKeeps | hdlg/utils.py:9 | text without two neighbouring whitespace characters (a single tab, say) is unchanged |
| Utils.CollapseIdempotent | hdlg/utils.py:9 | collapsing twice is collapsing once |
| Utils.CollapseAppend | hdlg/utils.py:9 | a piece that ends in non-whitespace collapses independently of what follows it |
| Utils.CollapseRunBefore | hdlg/utils.py:9 | a run of two or more whitespace characters of any kind, before non-whitespace or the end, becomes one space |
| Utils.CollapsePaddingBefore | hdlg/utils.py:9 | one space, or any such run, before non-whitespace becomes one space |
| Utils.UnitForMeaning | hdlg/utils.py:71-74 | the unit index never passes PB; sizes below 1000 stay in bytes; otherwise the size reaches the unit and is below the next one unless the unit is PB |
| Utils.SizeUnit | hdlg/utils.py:71-76 | the loop ends with the size divided by 1000 per unit step, exactly, and the text is the stripped rendering, a space and that unit |
| Utils.StripZerosDecimal | hdlg/utils.py:75 | `rstrip("0").rstrip(".")` of a whole part and two decimals drops the zero decimals, and the point when both are zero |
| Utils.StripZerosFixed2 | hdlg/utils.py:75 | the stripped "%.2f" text never ends in a point, and when it keeps a point it does not end in 0 |
| Utils.DocstringExamples | hdlg/utils.py:59-69 | the docstring sizes get units B, KB, MB, GB and TB, and "131.00" strips to "131" |
| Apa.FromLE | hdlg/hdd.py:168 | an unpacked little-endian value is below 256 to the power of its width |
| Apa.FromToLE | hdlg/hdd.py:166-168 | unpacking what was packed gives the value back when it fits |
| Apa.ToFromLE | hdlg/hdd.py:166-168 | packing what was unpacked gives the bytes back |
| Apa.ToLEPrefix | hdlg/hdd.py:169 | the first four bytes of the eight-byte pack are the four-byte pack |
| Apa.ToLEMod | hdlg/hdd.py:169 | a four-byte pack sees the value modulo 2^32 |
| Apa.WordSum | hdlg/hdd.py:168 | the sum of the words is at most 2^32 - 1 per word, so 255 words never overflow the 64-bit pack |
| Apa.ComputedChecksum | hdlg/hdd.py:166-169 | the recomputed checksum is the word sum over bytes 4..1024 modulo 2^32, little-endian |
| Apa.SealedAccepted | hdlg/hdd.py:171 | a header whose checksum was computed from its payload passes exactly when the payload starts with "APA\0" |
| Apa.AcceptedIsSealed | hdlg/hdd.py:171 | every header that passes is such a sealed header with the magic |
| Apa.WordSumUpdate | hdlg/hdd.py:168 | one changed byte moves the word sum by the change times its weight in the word |
| Apa.SingleByteChangeDetected | hdlg/hdd.py:163-171 | changing any one byte of 4..1024 of a passing header without updating the checksum makes it fail |
| HdlOutput.MapValue | hdlg/hdd.py:143 | a field without ": " raises IndexError; a value is a whole number of megabytes in bytes |
| HdlOutput.MapLineSplits | hdlg/hdd.py:144 | splitting a map line on ", " gives its three fields when no caption holds a comma |
| HdlOutput.MapValuesOfThree | hdlg/hdd.py:142-145 | three fields that each convert give the three values in order |
| HdlOutput.ParseDiskMap | hdlg/hdd.py:141-147 | empty output raises; success means the last line has exactly three ", "-fields, each a whole number of megabytes |
| HdlOutput.MapFieldValue | hdlg/hdd.py:143 | "caption: nMB" gives n * 1000 * 1000 |
| HdlOutput.DiskMapRoundTrip | hdlg/hdd.py:141-147 | a last line "a: tMB, b: uMB, c: vMB" gives (t, u, v) in bytes whatever precedes it |
| HdlOutput.TocFields | hdlg/hdd.py:212-215 | six pieces are kept; five get "[!]" appended; fewer stay short |
| HdlOutput.ParseGame | hdlg/hdd.py:216-219 | a line without six fields raises the unpacking error; a record carries the media type, DMA, id and name columns |
| HdlOutput.ParseGameOfFields | hdlg/hdd.py:216-219 | columns holding a media type, "nKB", flags, DMA, id and name give the record with n * 1000 bytes |
| HdlOutput.GamesList | hdlg/hdd.py:210-221 | the records of the body lines, sorted by name, as a permutation |
| HdlOutput.InsertByName | hdlg/hdd.py:220 | inserting after the records of equal or smaller name keeps the list sorted and adds exactly one record |
| HdlOutput.SortByName | hdlg/hdd.py:220 | the sort yields a sorted permutation |
| HdlOutput.InsertOfName | hdlg/hdd.py:220 | an inserted record lands after every record of its name |
| HdlOutput.SortStable | hdlg/hdd.py:220 | records of one name keep their table order |
| HdlOutput.StableSortUnique | hdlg/hdd.py:220 | two sorted lists with the same records per name in the same order are equal |
| HdlOutput.GamesListIsStableSort | hdlg/hdd.py:210-221 | the game list is the one stable sort by name of the parsed records |
| HdlOutput.CollapseWordGap | hdlg/hdd.py:213 | a word followed by padding collapses to the word and one space |
| HdlOutput.CollapseColumns | hdlg/hdd.py:213 | columns separated by padding of any width, each gap its own, collapse to the columns joined by single spaces |
| HdlOutput.SizeColumn | hdlg/hdd.py:217 | "nKB" with every "KB" removed converts back to n |
| HdlOutput.TocLineParses | hdlg/hdd.py:210-219 | a table line, its columns padded to any widths, gives back its record, size in bytes, the name keeping its single spaces |
| HdlOutput.NamelessTocLineParses | hdlg/hdd.py:211-218 | a line with only five padded columns gets the name "[!]" |
| Hdd.DevicePath | hdlg/hdd.py:59-60 | the path is in the device namespace, and it is the name unchanged exactly when the name already was, so normalising twice is normalising once |
| Hdd.HdlTarget | hdlg/hdd.py:37 | the hdl-dump name ends in a colon |
| Hdd.HdlTargetOfDrive | hdlg/hdd.py:37 | `\\.\PHYSICALDRIVEn`, in any letter case, becomes "hddn:" |
| Hdd.HdlTargetOfName | hdlg/hdd.py:37 | a name without a backslash is only upper-cased and given a colon |
| Hdd.DiskSizeAddsHalves | hdlg/hdd.py:130-132 | adding the cylinder halves equals cylinders times layout exactly when the high half or the layout is zero |
| Hdd.Transferred | hdlg/hdd.py:87 | ReadFile transfers what is asked, up to the end of the device |
| Hdd.ReadAt | hdlg/hdd.py:84-92 | a read succeeds exactly for a sector-multiple size, a zero result code and enough bytes, and gives the bytes at the position; a short read reports what is missing |
| Hdd.ApaProbe | hdlg/hdd.py:157-171 | the uncached probe succeeds exactly at position 0 on a readable header, and answers the header check on bytes 0..1024 |
| Hdd.ChecksumProbe | hdlg/hdd.py:185-191 | the uncached checksum read succeeds exactly at position 0 with a whole first sector, and gives bytes 0..4 |
| Hdd.ApaProbeMeaning | hdlg/hdd.py:163-171 | a drive is APA-partitioned exactly when its header is a sealed payload starting with the magic |
| Hdd.HDD.constructor | hdlg/hdd.py:35-44 | no handle, no cached values, `hdl_target` derived from the target |
| Hdd.HDD.New | hdlg/hdd.py:34-46 | construction fails exactly when the device path does not open; otherwise the device is open at 0 with nothing cached |
| Hdd.HDD.Open | hdlg/hdd.py:58-72 | the handle becomes the device at the normalised path or invalid (raising); the position restarts at 0; cached values are kept |
| Hdd.HDD.Seek | hdlg/hdd.py:78-82 | the position moves to the requested place unless that is negative, and the call raises unless that position is `to` |
| Hdd.HDD.Read | hdlg/hdd.py:84-92 | a non-sector size raises with no ReadFile; otherwise the result is `ReadAt` and the position advances by what was transferred |
| Hdd.HDD.GetGeometry | hdlg/hdd.py:110-122 | the kept value, an error on an invalid handle, or the device's geometry, which is then kept; the drive is asked at most once per object |
| Hdd.HDD.DiskSize | hdlg/hdd.py:127-133 | the kept size or the formula over the (possibly fetched) geometry, then kept; the geometry is the kept one or the device's, fetched at most once; failures keep nothing |
| Hdd.HDD.GetDiskMap | hdlg/hdd.py:138-149 | the kept map or the parse of `hdl-dump map <hdl target>`, then kept |
| Hdd.HDD.GetGamesList | hdlg/hdd.py:196-221 | the game list parsed from `hdl-dump hdl_toc <hdl target>`, anew on every call |
| Hdd.HDD.IsApaPartitioned | hdlg/hdd.py:154-175 | the kept answer with no ReadFile, or the probe, kept only on success; the position ends where it started, whether the read raised or not |
| Hdd.HDD.ApaChecksum | hdlg/hdd.py:179-195 | None for a drive that is not APA; the kept checksum; or bytes 0..4 of the first sector, then kept; the position ends where it started; ReadFile runs once for an unknown APA answer and once more for a checksum not yet kept, only from position 0 |
| Hdd.HDD.ReadChecksum | hdlg/hdd.py:185-191 | the checksum read gives bytes 0..4 of the first sector exactly when it succeeds from position 0, runs ReadFile once from there, keeps every cached value and leaves the position where it was |
| Hdd.KeptChecksumIsComputed | hdlg/hdd.py:171 | until the handle is re-opened, a kept checksum equals the checksum recomputed from the drive's header, and the header carries the magic |
| Worker.ParseProgressLine | hdlg/ui/worker.py:87-91 | a three-part line yields progress, remaining and speed that join back to the line; any other count keeps the first part only |
| Worker.ParseFullLine | hdlg/ui/worker.py:87-89 | progress, remaining and speed joined by ", " come back in that order |
| Worker.PresentAll | hdlg/ui/worker.py:92-94 | non-empty present items are all kept |
| Worker.StatusOfFullLine | hdlg/ui/worker.py:87-94 | the status of a full line is the line with " Installed <stem> (<id>)" after the progress |
| Worker.StatusOfShortLine | hdlg/ui/worker.py:90-94 | the status of any other line is its first part and " Installed <stem> (<id>)" |
| Worker.PercentBeforeSign | hdlg/ui/worker.py:95 | the percentage text is what precedes the first "%" |
| Worker.TraceShape | hdlg/ui/worker.py:82-100 | one `finished` or error, last; `finished` exactly when every percentage converts, and then a status and a progress per line in order, then the closing message |
| Worker.TraceFailure | hdlg/ui/worker.py:82-100 | when the first refused percentage is on line f, every earlier line gave its status and progress, line f gave its status, and the error follows, last |
| Worker.InstallGame | hdlg/ui/worker.py:79-100 | the loop emits the opening message and then exactly the trace of the lines of `hdl-dump inject_<media type>` |

## Left out

- Win32 calls are replaced by the `Disk` abstraction. Their own failures become `OsCallFailed`. DeviceIoControl is taken to always answer on a valid handle.
- `dispose`, `__enter__` and `__exit__` only close the handle.
- The `extended` branch of `open` (hdlg/hdd.py:73-75) is an experimental DASD request whose result is only printed.
- Hdd.HDD.Read: the ReadFile result code is one constant per device. The position advances by the bytes transferred even when that code is non-zero.
- Running hdl-dump (`hdl_dump`, `hdl_dump_live`) is out of scope. Its output lines are a parameter. For `map` and `hdl_toc` they are the `splitlines()` of what hdl-dump printed, not stripped. For `inject_<media type>` they are what `hdl_dump_live` yields, each stripped.
- Utils.SizeUnit: the "%.2f" float rendering is a parameter. Float rounding is not modelled, and `Utils.Fixed2Text` shows the shape of its output.
- Utils.SizeUnit: the `base` argument is fixed at 1000. No caller passes another.
- Worker.InstallGame: `float()` of the percentage is a parameter.
- Worker.InstallGame: `iso.stem.title()` and `iso.absolute()` are computed by the caller and passed in.
- Worker.InstallGame: Qt signal emission, threads and the exception object are a sequence of emitted values. The error is a bare `Failed`.
- Strings.Upper and Strings.Lower change only ASCII letters. Strings.ParseInt accepts only ASCII digits. CPython's `upper`/`lower` and `int()` also handle other scripts.
- Strings.ParseInt: CPython 3.11 and later refuse a decimal text of more than 4300 digits (`sys.int_info.default_max_str_digits`). The model has no such limit; the sizes and flags hdlg parses are far shorter.
- `camel_to_snake`, `is_admin`, `require_admin` and `is_frozen` are UI file lookup and privilege handling, not the drive logic.
- WMI device enumeration, hdlg/config.py and the packaging script are likewise outside the drive logic.
- The `hdd_info` tree, the usage percentages and other UI assembly in hdlg/ui/worker.py are UI, and they use float arithmetic.
- Concurrency: one object is used by one thread at a time, so the model is sequential.
