# Controllino hardware detector, modelled in Dafny

The detector (`src/hwdetect.py`) identifies which Controllino board it runs on.
It works in three steps:

1. It reads the text of `/proc/cpuinfo` and cuts it into blank-line separated
   blocks (`get_cpuinfo`):
   - Every block that starts with `processor` becomes a dict of its
     `key: value` lines.
   - The first other block that mentions `SERIAL` (in any case) becomes the
     board dict.
   - The five `cpu ...` fields are aggregated over all processor dicts by
     `get_props`: the sorted distinct values, joined by `|`.
2. It compares the resulting `CpuInfo` on nine fields with each entry of the
   catalog `HW_DEFS`, in order (`get_hwinfo`):
   - The first entry that matches labels the board.
   - Without a match, the labels of the last entry are used and the nine
     observed fields are attached under `debug`.
3. It renders the result as an env file (`CTRL_<KEY>="<value>"` lines).

The model has five modules:

- `Wrappers`: `Option` and `Result`.
- `PyStr`: the Python `str` operations the detector relies on, with Python's
  semantics:
  - `strip` and `splitlines` over Python's whitespace and line-boundary sets.
  - `split(sep)` and `split(sep, 1)`.
  - `find`/`in`, `startswith`, `join`.
  - `<` on strings, and `sorted(set(...))`.
- `CpuInfoParser`: the `CpuInfo` record and `get_cpuinfo`.
  - `CpuInfoOf` is the function that says what `get_cpuinfo` returns or raises
    for a given text.
  - `GetCpuInfo` and its two loop methods are proved equal to it.
  - The exceptions the code can raise are `ParseError` values:
    - `BadProcessorLine`: the `ValueError` of `k, v = pv.split(": ")`.
    - `NoHardwareBlock`: the `IndexError` of `[...][0]`.
    - `Unorderable`: the `TypeError` of `sorted`.
- `Catalog`: `HW_DEFS`, `get_hwinfo` (`GetHwInfo`, proved equal to `Lookup`)
  and the composition `get_hwinfo(get_cpuinfo())` (`Detect`).
- `Report`: the env-text loop (`EnvText`, proved equal to `EnvOf`) and the
  line structure of the text it builds.

The aggregated `cpu ...` fields follow Python's handling of a missing key:

- `x.get(k)` yields `None` for a processor that lacks the key.
- A field absent from every processor block (with at least one block)
  therefore aggregates to `None`, which is `Option.None` here.
- A field present in only some blocks makes `sorted` compare `None` with a
  string, which raises `TypeError`.
- A missing key gives `""` only when there is no processor block at all.
  (A key every processor carries with an empty value also gives `""`, as
  that value.)

## Model

| member | source | states |
|---|---|---|
| PyStr.StripFull | src/hwdetect.py:96 | `strip()` removes exactly a run of whitespace at the front and one at the back: the result is a slice `s[a..b]` with only whitespace outside it |
| PyStr.LowerIsLower | src/hwdetect.py:96 | after `lower()` no upper-case ASCII letter remains |
| PyStr.Find | src/hwdetect.py:99 | the substring test finds the first occurrence, and -1 only when there is none |
| PyStr.JoinSplit | src/hwdetect.py:88 | joining the pieces of `split(sep)` with `sep` gives the text back |
| PyStr.SplitAfter | src/hwdetect.py:95 | `split` cuts at the first occurrence of a separator that cannot overlap itself |
| PyStr.SplitTwo | src/hwdetect.py:95 | a text with exactly one such separator splits into exactly its two sides |
| PyStr.SplitJoin | src/hwdetect.py:106 | `split` undoes `join` when no piece contains the separator |
| PyStr.SplitOnce | src/hwdetect.py:119-120 | `split(sep, 1)` cuts at the first occurrence of `sep` into the text before and after it, and gives the whole text as one piece when `sep` does not occur |
| PyStr.FindLineBreak | src/hwdetect.py:93 | the first line boundary of the text, and none before it |
| PyStr.SplitLines | src/hwdetect.py:93 | no line produced by `splitlines()` contains a line boundary |
| PyStr.SplitLinesTerminated | src/hwdetect.py:93 | `splitlines()` gives back lines written one per `\n`-terminated line |
| PyStr.LexIrreflexive | src/hwdetect.py:104 | `<` on strings is irreflexive |
| PyStr.LexTransitive | src/hwdetect.py:104 | `<` on strings is transitive |
| PyStr.LexTotal | src/hwdetect.py:104 | any two distinct strings are ordered one way or the other |
| PyStr.Insert | src/hwdetect.py:104 | inserting into a strictly sorted list keeps it strictly sorted and adds exactly the new value |
| PyStr.SortedSet | src/hwdetect.py:104 | `sorted(set(xs))` is strictly increasing and holds exactly the values of `xs` |
| PyStr.StrictlySortedUnique | src/hwdetect.py:104 | two strictly sorted lists with the same members are equal, so `sorted(set(...))` is determined by the set |
| CpuInfoParser.ProcessorBlocksCount | src/hwdetect.py:89 | the filtered list has one entry per block that starts with `processor` |
| CpuInfoParser.ProcessorBlocksMembers | src/hwdetect.py:89 | every kept block starts with `processor` and comes from the text, and every block that starts with `processor` is kept |
| CpuInfoParser.HardwareBlocks | src/hwdetect.py:98-99 | the board candidates are empty exactly when no non-processor block mentions `SERIAL` |
| CpuInfoParser.FirstHardwareBlock | src/hwdetect.py:98-99 | `[0]` picks the first qualifying block |
| CpuInfoParser.ProcLineWellFormed | src/hwdetect.py:95-96 | a line with exactly one `": "` yields its stripped, lower-cased key and its stripped value |
| CpuInfoParser.ProcLineWithoutSeparator | src/hwdetect.py:95 | a line without `": "` raises (too few values to unpack) |
| CpuInfoParser.ProcLineWithTwoSeparators | src/hwdetect.py:95 | a line with two or more `": "` raises (too many values to unpack) |
| CpuInfoParser.Collect | src/hwdetect.py:91-97 | a loop of steps that may raise succeeds exactly when every step does, with every step's value in order |
| CpuInfoParser.CollectFailsAt | src/hwdetect.py:91-97 | the first step that raises decides the error |
| CpuInfoParser.ToMap | src/hwdetect.py:96 | the dict's keys are exactly the keys assigned, and each value is one assigned to its key |
| CpuInfoParser.ToMapLastWins | src/hwdetect.py:96 | a key keeps the value of its last assignment |
| CpuInfoParser.BadLineFailsProcessors | src/hwdetect.py:91-97 | one malformed line in any processor block makes the whole loop raise |
| CpuInfoParser.GetPropsOutcome | src/hwdetect.py:103-111 | `None` exactly when processors exist and none has the key; raises exactly when some but not all have it; otherwise the sorted distinct values joined by a pipe (a single value, or `""` when there are none) |
| CpuInfoParser.GetPropsNoProcessors | src/hwdetect.py:107-109 | without processors the field is `""` |
| CpuInfoParser.GetPropsAgree | src/hwdetect.py:110-111 | when every processor has the same value, that value is returned |
| CpuInfoParser.GetPropsSetDetermined | src/hwdetect.py:104 | the result depends only on the set of processor dicts, not on their order or repetition |
| CpuInfoParser.GetPropsSplitsBack | src/hwdetect.py:104-106 | splitting the result at each pipe gives back the sorted distinct values when no value contains a pipe |
| CpuInfoParser.HwPairSplit | src/hwdetect.py:119-120 | a board line with a `": "` gives the stripped, lower-cased text before its first one as key and the stripped, lower-cased rest as value |
| CpuInfoParser.HwPairNoSep | src/hwdetect.py:119-120 | a board line without `": "` gives the whole line, stripped and lower-cased, as both key and value |
| CpuInfoParser.HwMap | src/hwdetect.py:119-120 | every key and value of the board dict is lower-case |
| CpuInfoParser.AssembleRaisesFirstMixed | src/hwdetect.py:113-117 | filling the five cpu fields raises exactly when some key is carried by only some processors, and the error names the first such key in the order implementer, architecture, variant, part, revision |
| CpuInfoParser.ParseBlockLines | src/hwdetect.py:92-96 | the line loop builds exactly the dict of the block, or raises at its first bad line |
| CpuInfoParser.ParseProcessorBlocks | src/hwdetect.py:90-97 | the block loop builds one dict per processor block, or raises at the first bad block |
| CpuInfoParser.GetCpuInfo | src/hwdetect.py:85-126 | `get_cpuinfo` returns or raises exactly what `CpuInfoOf` says for the text |
| CpuInfoParser.ProcessorCount | src/hwdetect.py:88-101 | the processor count is the number of blocks that start with `processor` |
| CpuInfoParser.NoProcessorsParse | src/hwdetect.py:98-117 | text with a board block and no processor block parses, to count 0 and five `""` fields |
| CpuInfoParser.NoBoardBlockFails | src/hwdetect.py:98-99 | without a qualifying board block the reader raises |
| CpuInfoParser.BadProcessorLineFails | src/hwdetect.py:94-95 | a malformed line in any processor block makes the reader raise |
| CpuInfoParser.BoardFields | src/hwdetect.py:119-124 | the four board fields come from the first qualifying block, default to `""`, and are lower-case |
| Catalog.MatchesIsFingerprintEquality | src/hwdetect.py:140-148 | the match test is equality on the nine compared fields |
| Catalog.FirstMatch | src/hwdetect.py:139-148 | the index found matches, and no earlier entry matches; no index means no entry matches |
| Catalog.GetHwInfo | src/hwdetect.py:138-177 | the loop returns exactly `Lookup` over `HW_DEFS` |
| Catalog.LookupFirstMatch | src/hwdetect.py:139-157 | the first matching entry labels the result, without `debug` |
| Catalog.LookupNoMatch | src/hwdetect.py:158-176 | without a match, the last entry's labels are used and `debug` holds the nine observed fields |
| Catalog.LookupDebugIffUnmatched | src/hwdetect.py:149-176 | `debug` is present exactly when no entry matches; the serial and MACs are always the observed ones |
| Catalog.LookupIgnoresSerial | src/hwdetect.py:140-153 | changing the serial changes only the reported serial |
| Catalog.FirstMatchRespects | src/hwdetect.py:139-148 | two fingerprints that match the same entries find the same first match |
| Catalog.CatalogEntriesDisjoint | src/hwdetect.py:49-82 | no fingerprint matches both catalog entries |
| Catalog.CatalogSelfMatch | src/hwdetect.py:49-82 | each catalog entry is recognised from its own fingerprint, whatever the serial |
| Catalog.UnknownCountFallsBack | src/hwdetect.py:139-176 | a processor count other than 4 or 6 is labelled as the last entry, with `debug` |
| Catalog.Detect | src/hwdetect.py:194 | `get_hwinfo(get_cpuinfo())` raises what the reader raises, else is `Lookup` of what it returns |
| Catalog.NoProcessorTextFallsBack | src/hwdetect.py:194 | text with a board block but no processor block is never recognised |
| Report.Items | src/hwdetect.py:149-176 | the result dict has six entries, plus `debug` exactly on fallback, and only `debug` is not a string |
| Report.EnvText | src/hwdetect.py:199-202 | the loop builds exactly `EnvOf` of the dict's entries |
| Report.EnvOfLines | src/hwdetect.py:199-202 | the env text is its lines, each followed by `\n` |
| Report.EnvLinesOfStrings | src/hwdetect.py:200-202 | every string entry writes exactly its own line, in order |
| Report.EnvTextLines | src/hwdetect.py:199-202 | the env text is the header and the six `CTRL_` lines in dict order; `debug` writes nothing |
| Report.EnvIgnoresDebug | src/hwdetect.py:201 | attaching `debug` does not change the env text |
| Report.EnvLineNoBreak | src/hwdetect.py:202 | an entry's line holds no line boundary when its key and value hold none |
| Report.EnvTextReadsBack | src/hwdetect.py:199-202 | when no value holds a line boundary, reading the env text back line by line gives the header and the six `CTRL_` lines |
| Report.EnvNoDebugLine | src/hwdetect.py:199-202 | no line of the env text starts with `CTRL_DEBUG` |

## Left out

- Reading `/proc/cpuinfo` (lines 86-87): the raw text is the input of `GetCpuInfo` and `CpuInfoOf`.
- `get_mac` (lines 129-135), which reads `/sys/class/net/<device>/address`: the two MAC strings are parameters.
- The command line (lines 180-193, 213-214), `json.dump` (197-198) and writing the env file (203-204): these are file and terminal I/O.
- Printing (lines 108 and 211): the diagnostic print of `get_props` has no effect on the result, and the printed env text is `EnvText`'s result.
- The `--print` branch (lines 207-210) repeats the env loop of lines 199-202. It is modelled once, by `EnvText`.
- The commented-out `HwInfo` class (lines 31-46) is not code. The result dict is the `HwInfo` datatype.
- `CpuInfo` is a class whose attributes `get_cpuinfo` assigns one by one. It is a datatype here, updated field by field in `GetCpuInfo`. Nothing else holds a reference to it, so no aliasing is lost.
- PyStr.Lower: `lower()` and `upper()` map only the ASCII letters. The full Unicode case mapping of Python is not modelled, because the keys and values the detector handles are ASCII.
- `sorted` over values that mix `None` and strings raises `TypeError`. The model has only the error, not its message.
- An empty `HW_DEFS` would leave `model` unbound at line 159. The catalog is a non-empty constant, and `Lookup` requires a non-empty catalog.
