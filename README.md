# A verified model of a cross-process memory value scanner

The modelled program (`src/cheat.cpp`) is a small "cheat engine" for Linux. It
takes a process id. It reads the target's `/proc/<pid>/maps` into a list of
`MemoryMapping` records. Then it asks the user, round after round, for the
number the target currently holds:

- The first round copies every region out of the target with
  `process_vm_readv`. It looks for the number's 4-byte little-endian pattern
  at offsets 0, 4, 8, … of each region.
- Each later round only re-reads the 4-byte windows at the addresses the
  previous round found.
- The rounds stop when one address is left, when a round finds as many
  addresses as the previous one, when nothing is found (the program then exits
  without writing), or when the user answers `s` to "(s) Set values;
  (c) Continue".
- The program then reads a new number. It writes that number's pattern to
  every address of the last round with `process_vm_writev`.

The Dafny project has one module per part of the engine:

| module | file | models |
|---|---|---|
| `Bytes` | `Bytes.dfy` | `split`, the value codec, and the `int` to `unsigned long long` conversion of the input |
| `Maps` | `Maps.dfy` | `struct MemoryMapping`, and `get_addresses`: `getline` over the maps text and the `sscanf` of each line, conversion by conversion |
| `Scan` | `Scan.dfy` | `find_value` (the stride loop and its inner comparison loop) and the loop over all regions of a round |
| `Writer` | `Writer.dfy` | `write_address` (copy into a buffer, then one single-iovec `process_vm_writev`) and the final write loop |
| `Session` | `Session.dfy` | the round loop of `main`: rebuilding `mappings` from the found addresses, the stop rules, and the write phase |

What is proved:

- The codec is little-endian. Decoding an encoded value gives it back modulo
  2^(8·width). The user's `int` reads back as its 32-bit two's-complement
  pattern.
  - The comment above `split` (`src/cheat.cpp:33-35`) shows the high byte
    first. The code pushes the low byte first, and the model follows the code.
- `get_addresses` yields exactly one record per line, in file order.
  - The `sscanf` variables live outside the loop. A well-formed line sets
    every field from its own text.
  - A line without a pathname (an anonymous mapping) keeps the name left by
    the line before. The model follows the code here too.
  - The kernel prints the device's major number in hexadecimal with at least
    two digits, so a major above 255 gives a device field of six characters.
    NVMe's major 259 gives `103:02`, for example. `%5s` stores only five
    characters of it. The scan then goes on out of step: the digits left of
    the device field become the inode, and the real inode becomes the name.
    Begin, end, permissions and offset are still read correctly, and the
    search uses only begin, end and size.
  - `getline`'s split and the join of the lines are inverse to each other.
- `find_value` reports exactly the aligned offsets below the byte count read
  whose window equals the pattern. The addresses come out in increasing order.
  - An occurrence at an unaligned offset is missed.
  - A window that starts below the count read but ends past it is still
    compared, against whatever the buffer held.
  - A failed read (-1) reports nothing.
- From the second round on, a round's result is a filter of the previous
  round's addresses: no new address can appear. "Same count as last round"
  therefore means "the same addresses".
- Each write is modelled as landing whole or not at all (see `## Left out`
  for how the kernel differs). A failed write does not stop the others.
  After the write phase, each address whose window is writable and not
  overlapped by a later address reads back as the new value.

## Model

| member | source | states |
|---|---|---|
| Bytes.ToULL | src/cheat.cpp:139 | the `int` input passed as `unsigned long long` is unchanged when non-negative and is 2^64 + x when negative |
| Bytes.Split | src/cheat.cpp:39-46 | `split` appends exactly `size` bytes (none for a negative size), the little-endian encoding of `num`; byte i is `(num >> 8i) & 0xFF` |
| Bytes.EncodeByteAt | src/cheat.cpp:42-45 | byte i of the pattern is `num / 256^i mod 256` |
| Bytes.DecodeEncode | src/cheat.cpp:42-45 | decoding the pattern gives `num mod 256^width`: the bits above the width are dropped |
| Bytes.EncodeDecode | src/cheat.cpp:42-45 | encoding the decoded value of any pattern, at the pattern's width, gives the pattern back |
| Bytes.InputRoundTrip | src/cheat.cpp:131-139 | the 4-byte pattern of an `int` input decodes to x when x ≥ 0 and to x + 2^32 when x < 0 |
| Maps.ToMapping | src/cheat.cpp:62-69 | the record copies begin, end, inode, mapname, dev and permissions; its size is end − begin, or end − begin + 2^64 when end < begin |
| Maps.Lines | src/cheat.cpp:59 | a non-empty text yields at least one line: a last line without a '\n' is still returned (its contents are pinned down by JoinLines, LinesJoin and LinesHaveNoNewline) |
| Maps.SkipSpace | src/cheat.cpp:60 | skipping blanks drops only blanks and leaves a suffix of the input that is empty or starts with a non-blank |
| Maps.ScanHex | src/cheat.cpp:60 | `%llx` fails exactly when no hex digit follows the blanks; otherwise it consumes input and stops at the first character that is not a hex digit |
| Maps.ScanDec | src/cheat.cpp:60 | `%lld` fails exactly when no decimal digit follows the blanks; otherwise it consumes input and stops at the first character that is not a decimal digit |
| Maps.ScanString | src/cheat.cpp:60 | `%Ns`/`%s` fails exactly when only blanks are left; otherwise it stores the non-blank text right after the blanks, stopping at a blank, at the end of the input, or after N characters, whichever comes first (plain `%s` has no limit) |
| Maps.ScanLine | src/cheat.cpp:60 | a line that does not start with a hex number changes no variable; otherwise `begin` is that number, and when no '-' follows it every later variable keeps what the previous line left |
| Maps.ScanEnd | src/cheat.cpp:60 | the second `%llx` sets `end` when it succeeds, changes nothing when it fails, and never touches `begin` |
| Maps.ScanPermissions | src/cheat.cpp:60 | `%4s` sets `permissions` when it succeeds, changes nothing when it fails, and never touches `begin` or `end` |
| Maps.ScanOffset | src/cheat.cpp:60 | the third `%llx` sets the offset (`foo`) when it succeeds, changes nothing when it fails, and never touches the variables before it |
| Maps.ScanDev | src/cheat.cpp:60 | `%5s` sets `dev` when it succeeds, changes nothing when it fails, and never touches the variables before it |
| Maps.ScanInode | src/cheat.cpp:60 | `%lld` sets `inode` when it succeeds, changes nothing when it fails, and changes nothing but `inode` and `mapname` |
| Maps.ScanMapname | src/cheat.cpp:60 | the final `%s` sets `mapname` when a word is left, changes nothing otherwise, and never touches another variable |
| Maps.MappingsOf | src/cheat.cpp:59-72 | one record per line |
| Maps.GetAddresses | src/cheat.cpp:52-73 | appends to `addrs` the records of the lines of the maps text, in order, each scanned from the variables the previous line left; the list grows by the number of lines |
| Maps.MappingAt | src/cheat.cpp:56-71 | record k is line k scanned into the variables left by lines 0..k−1 |
| Maps.JoinLines | src/cheat.cpp:59 | joining `getline`'s lines, each with a '\n', gives the text back, plus a final '\n' when the text lacks one |
| Maps.LinesJoin | src/cheat.cpp:59 | splitting joined lines that hold no '\n' gives the same lines back |
| Maps.LinesHaveNoNewline | src/cheat.cpp:59 | no line returned by `getline` holds a '\n' |
| Maps.ScanHexDigits | src/cheat.cpp:60 | `%llx` after blanks reads a maximal run of hex digits as its value and leaves the rest of the input |
| Maps.ScanDecDigits | src/cheat.cpp:60 | `%lld` after blanks reads a maximal run of decimal digits as its value and leaves the rest of the input |
| Maps.ScanWord | src/cheat.cpp:60 | `%4s`, `%5s` and `%s` after blanks read a blank-free word that fits the width and leave what follows it |
| Maps.ScanLongDev | src/cheat.cpp:60 | on a kernel line whose device field is longer than five characters, `%5s` stores the first five, begin, end, permissions and offset are still set from the line, and the rest of the device field is left for `%lld` |
| Maps.LongDevShiftsFields | src/cheat.cpp:60 | when the rest of that device field is digits (as in `103:02`), the inode becomes those digits and the name becomes the real inode's text |
| Maps.ScanWellFormed | src/cheat.cpp:60 | a well-formed maps line (device field of at most five characters) sets begin, end, permissions, offset, dev and inode from its own fields, whatever the variables held; mapname becomes the path's first word, or keeps its old value when the line has no path |
| Maps.MappingOfWellFormed | src/cheat.cpp:59-71 | in the list `get_addresses` builds, the record of a well-formed line carries that line's fields and size; with no pathname, it carries the name from earlier lines |
| Scan.MatchesFrom | src/cheat.cpp:88-94 | the first offset the stride loop reports from i on lies in [i, nread) (which offsets are reported, and in what order, is stated by MatchesFromExact and MatchesFromIncreasing) |
| Scan.Addresses | src/cheat.cpp:94 | one address per matching offset |
| Scan.RoundMatchesComplete | src/cheat.cpp:141-143 | every match of every region is among the round's addresses |
| Scan.AddressesAt | src/cheat.cpp:94 | address k is the region start plus offset k, modulo 2^64 |
| Scan.WindowInBuffer | src/cheat.cpp:88-92 | under the read's preconditions, every window the stride loop compares lies inside the buffer and its end fits in an `int` |
| Scan.CompareWindow | src/cheat.cpp:89-92 | the inner loop reports a match exactly when the window at i equals the needle byte for byte |
| Scan.CheckWindow | src/cheat.cpp:89-94 | one pass of the stride loop appends `addr_begin + i` exactly when the window at i matches, and the matches after it are left to the next passes |
| Scan.FindValue | src/cheat.cpp:75-98 | `find_value` appends exactly the region's matches, in order, to `addrs`, and appends nothing when the read returned -1 or 0 |
| Scan.ScanRegions | src/cheat.cpp:141-143 | a round appends the matches of every region, region after region |
| Scan.MatchesFromExact | src/cheat.cpp:88-94 | an offset is reported if and only if it is aligned to the width, below `nread`, and its window equals the needle |
| Scan.MatchesFromIncreasing | src/cheat.cpp:88-94 | the reported offsets are strictly increasing |
| Scan.RegionMatchesSound | src/cheat.cpp:88-94 | every address reported for a region is `addr_begin + i` for an aligned, matching offset i below `nread`, in increasing order of offset |
| Scan.UnalignedOccurrenceMissed | src/cheat.cpp:88 | the pattern at offset 2 of an 8-byte buffer is not found |
| Scan.AlignedOccurrencesFound | src/cheat.cpp:88-94 | the pattern at offsets 4 and 12 of a 16-byte region at `base` gives exactly `[base+4, base+12]` |
| Scan.PartialWindowCompared | src/cheat.cpp:85-92 | when 2 bytes were read, the window at 0 is still compared in full against the buffer |
| Writer.Store | src/cheat.cpp:113 | overwriting a window keeps the mapped addresses, sets every byte in the window from the value, and leaves every other byte unchanged |
| Writer.ProcessVmWritev | src/cheat.cpp:113 | the call returns -1 exactly when some byte of the window is not writable, and then changes nothing; otherwise it writes the whole window and returns its length; bytes outside the window never change |
| Writer.WriteAddress | src/cheat.cpp:100-117 | `write_address` copies the value into a buffer and has exactly the effect and the return value of one `process_vm_writev` of that value |
| Writer.WriteAll | src/cheat.cpp:173-174 | the write loop calls `write_address` for each address in order |
| Writer.StoreAll | src/cheat.cpp:173-174 | the memory after the write loop has the same mapped addresses as before: the writes never map or unmap memory |
| Writer.StoreAllOutside | src/cheat.cpp:173-174 | a byte outside every address's window keeps its value |
| Writer.StoreAllReadBack | src/cheat.cpp:173-174 | a writable window holds the new value after the loop unless a later window overlaps it; earlier failed writes do not prevent this |
| Session.PseudoMapping | src/cheat.cpp:148-153 | the record built for a found address starts there, has size 4 and ends 4 bytes later |
| Session.PseudoMappings | src/cheat.cpp:146-154 | one record per found address |
| Session.Rebuild | src/cheat.cpp:146-154 | `mappings` becomes one 4-byte record per found address, in the same order, starting at that address |
| Session.Needle | src/cheat.cpp:139 | the pattern searched for has 4 bytes |
| Session.Run | src/cheat.cpp:137-168 | the round-by-round outcome of the loop (0 matches ends without a write; 1 match, the previous count, or 's' ends in a write of this round's addresses; otherwise the next round searches their 4-byte windows); whenever it ends in a write, at least one address was found, so `addrs[0]` at line 168 exists |
| Session.SearchRound | src/cheat.cpp:139-154 | one loop body up to the stop test: the round's addresses are the matches of the typed number's pattern in every region, and `mappings` becomes one 4-byte record per address |
| Session.RunSession | src/cheat.cpp:137-174 | the loop ends as the round-by-round definition says; when nothing is found, memory is untouched; otherwise at least one address was found and the new value is written to each address of the last round, in order |
| Session.ReadBelowWindowEnd | src/cheat.cpp:88 | the windows the stride loop compares reach at least as far as the bytes read |
| Session.PseudoRegion | src/cheat.cpp:148-151 | searching the 4-byte record of one address finds that address exactly when the read succeeded and its window still matches |
| Session.PseudoRound | src/cheat.cpp:141-154 | a round after the first returns exactly the previous addresses whose windows still hold the pattern, in order |
| Session.SurvivorsFilter | src/cheat.cpp:141-154 | the survivors are no more than the previous addresses and all come from them; when there are as many, they are the same list |
| Session.UnchangedCountKeepsAll | src/cheat.cpp:156 | after the first round, stopping on an unchanged count writes exactly the previous round's addresses |
| Session.SetValuesFromPrevious | src/cheat.cpp:141-163 | from the second round on, every address written to was found by the round before |
| Session.SetValueReadsBack | src/cheat.cpp:167-174 | after the write phase, an address with a writable window that no later address overlaps decodes to the new value's 32-bit pattern |

## Left out

- `printbincharpad` (`src/cheat.cpp:26-31`) is a debugging helper that nothing calls.
- Console I/O is not modelled: the usage check, `atoi` of the pid, the prompts, `printf` of the first address, and `perror`.
  - Each round's number, its `s`/`c` answer and the final number are parameters: `RoundInput` and `setValue`.
- Opening `/proc/<pid>/maps` with `fstream` is not modelled. The file's text is a parameter of `GetAddresses`.
- The uninitialised `sscanf` variables are not modelled. Their values before the first line are a parameter, `init`.
- `Maps.ScanHex` and `Maps.ScanDec`: `%llx` and `%lld` also accept a sign and a `0x` prefix, and they saturate on overflow. Maps lines carry none of these, so the model reads plain digit runs into unbounded numbers.
- `Maps.ScanString`: the `%s` into `mapname[PATH_MAX]` can overflow the array on a longer name. The model stores the whole word.
- `Session.PseudoMapping`: the source leaves the inode uninitialised and the model sets it to 0. The names are empty strings. No reader of the record looks at these fields.
- Each read is an abstract `reader` that maps a region to a `Transfer`: the buffer contents and the count.
  - This also covers the target changing its memory between rounds and the unknown contents of the fresh buffer.
  - The model allows any count from -1 up to the region size, so partial reads are covered.
- `Scan.FindValue` requires `ReadFits`. Without it, the source has undefined behaviour: a window past the end of the buffer, or the `int` offset overflowing.
  - The window-in-buffer half holds for real reads because maps regions are page-sized: every 4-aligned window that starts in a region ends inside it.
  - The half that keeps the window ends at or below INT_MAX holds because the kernel caps one `process_vm_readv` transfer at MAX_RW_COUNT (0x7ffff000 bytes). So `nread` is at most that, and the last window ends below 0x7ffff004, which is under INT_MAX.
- `Session.RunSession` requires that the input does not run out inside the loop. If it did, the source would read `addrs[0]` of an empty vector.
- `Session.RunSession`: match counts above INT_MAX are not modelled. The source keeps `last_num_matches` (src/cheat.cpp:131, 137) and the indices of the loops at :141 and :147 in 32-bit `int`s, so a round with more than INT_MAX addresses has undefined behaviour there. The model counts with unbounded integers, and `Session.Run`, `Session.Rebuild` and `RunSession` give such a round a defined outcome, including the stop on an unchanged count.
- `Writer.WriteAll`: the `int` index of the write loop (src/cheat.cpp:173) overflows past INT_MAX addresses, which is undefined behaviour in the source. The model writes every address.
- `Writer.ProcessVmWritev`: a window crossing into unwritable memory is modelled as failing whole; the kernel would write the part before the fault and return that count instead of -1. The scanner's addresses are 4-aligned offsets from page-aligned region starts, so their 4-byte windows never cross a page.
- The writes act on an abstract map from address to byte. The only failure modelled is a window that is not wholly writable. Other failures, such as the target having exited, are not modelled.
- Memory allocation and `delete[]` are not modelled. An allocation failure for a huge region is out of scope.
- Concurrency with the running target is only captured as per-round reads. No interleaving is modelled.
