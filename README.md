# Becker & Hickl file readers, modelled in Dafny

This project models `phconvert/bhreader.py`, the reader for two file formats
written by Becker & Hickl TCSPC boards.

- **SPC photon stream** (`load_spc`). The stream is a run of 6-byte
  little-endian records, `field0: u16, b: u8, c: u8, a: u16`. It decodes into
  three parallel arrays:
  - nanotime: `4095 - (field0 & 0x0FFF)`;
  - detector: `c`;
  - timestamp: `(b << 16) + a + (overflows << 24)`. Here `overflows` is the
    running, inclusive sum of bit 13 of `field0`.
- **.SET settings file** (`load_set`). It has two sections:
  - The IDENTIFICATION block (`bh_set_identification`) holds `KEY: VALUE`
    lines. A line without `:` continues the previous value. The block ends
    at a line that starts with `*END`.
  - The SYS_PARA block (`bh_set_sys_params`) holds lines of the form
    `#XX [key,tag,value]`, between `SYS_PARA_BEGIN:` and `SYS_PARA_END:`.
    The tag selects how the value is converted.
- **`bh_decode`**, which turns a system-parameter key into a readable label
  through twelve literal replacements.

## Modules

| module | file | contents |
|---|---|---|
| `Wrappers` | `wrappers.dfy` | `Option` and `Result` |
| `PyStr` | `pystr.dfy` | Python's `strip`, `startswith`, `endswith`, `in`, `split`, `join`, `replace` and slicing on strings |
| `SpcDecoder` | `spc.dfy` | `load_spc` |
| `SetIdentification` | `set_identification.dfy` | `bh_set_identification` |
| `SetSysParams` | `set_sys_params.dfy` | `bh_set_sys_params` |
| `SetFile` | `set_file.dfy` | `load_set` |
| `BhDecode` | `bh_decode.dfy` | `bh_decode` |

## How the model is built

Each reader comes in two parts. One is a method that works the way the
source does: loops, a flag, and a dictionary or array updated in place. The
other is a reference function that describes the whole result at once. The
method's postcondition ties it to the function, and the properties are
proved about the function.

- **load_spc.** `SpcDecoder.LoadSpc` fills three fresh arrays. The source
  makes three vectorised numpy passes, and the model has one loop per array:
  `DecodeNanotimes`, `DecodeDetectors` and `DecodeTimestamps`. The running
  overflow sum is the loop variable of `DecodeTimestamps`. Each output array
  equals `Timestamps`, `Detectors` or `Nanotimes` applied to the bytes.
- **bh_set_identification.** `SetIdentification.ReadIdentification` keeps
  the current `key` and the dictionary as it reads the lines. The reference
  `Entries` gives each key the value of its last declaring line, followed by
  the continuation lines right after that line. The lemmas
  `EntriesAddKeyLine` and `EntriesAddContinuation` show that one more line
  changes the reference exactly as one pass of the loop body changes the
  dictionary.
- **bh_set_sys_params.** `SetSysParams.ReadSysParams` keeps the `start` flag
  and the dictionary. At `SYS_PARA_END:` it returns the dictionary read so
  far, which is what the source's `break` followed by `return` does. The
  reference is `SysParamsSection`:
  - `ParamLines` selects the parameter lines;
  - `ParseAll` parses them, and the first failing line decides the error;
  - `LastWins` builds the dictionary.
- **load_set.** `SetFile.LoadSet` runs both readers on the same lines, the
  identification block first.

Where the program raises an exception, the model returns a `Failure`:

- **Identification block.**
  - The first line does not end in `IDENTIFICATION` (the `assert`):
    `NotIdentificationSection`.
  - A continuation line comes before any key (`key` is unbound):
    `ContinuationBeforeKey`.
- **Parameter line.** A known tag with no value field, or a missing tag
  (`IndexError`), gives `MissingValue` or `MissingTag`. A value that
  `int()` rejects gives `NotAnInteger`.

### Points where the behaviour is easy to misread

- **Which bit is the overflow flag.** The overflow flag is bit 13 of
  `field0`, mask `0x2000` (bhreader.py:52). The module docstring
  (bhreader.py:27) says `bit_mask = 2^(13-1) = 4096`, which is bit 12. The
  model follows the code. `SpcDecoder.DocumentedMaskDiffers` shows that the
  two masks disagree on `field0 = 0x1000`.
- **The overflow count includes the record's own flag.** `np.cumsum` is
  inclusive, so a record whose flag is set already counts its own overflow
  (`OverflowIsInclusive`).
- **Worked example.** A record with `field0 = 0x1ABC`, `b = 0x01`,
  `c = 0x05` and `a = 0x0234` decodes to nanotime 1347 (`4095 - 0xABC`),
  detector 5 and timestamp 66100 (`SingleRecordExample`). The nanotime is
  `4095 - (field0 & 0x0FFF)` (bhreader.py:43), which is 1347 here.
- **Where the key comes from.** A parameter line loses its first five
  characters and its last one (`line[5:-1]`) before it is split on `,`.
  This fits the lines the instrument writes, `#SP [KEY,T,VALUE]`. A line
  without that framing loses real characters: `line[5:-1]` of
  `#TAC_R,F,100.0` is `R,F,100.` (bhreader.py:103), which gives the key
  `R`, the tag `F` and the value text `100.`.
- **The end marker always stops the scan.** `SYS_PARA_END:` stops the
  parameter scan even when it comes before `SYS_PARA_BEGIN:`. Lines after
  it are never read.
- **Continuation lines are joined after stripping.** Each piece is joined
  with one space. A key line's value is the rest of its `:`-separated
  pieces, each piece stripped and the pieces re-joined with `:`.

## Model

| member | source | states |
|---|---|---|
| SpcDecoder.LoadSpc | phconvert/bhreader.py:33-58 | returns three fresh arrays, one entry per whole 6-byte record, equal to the timestamp, detector and nanotime of each record |
| SpcDecoder.DecodeNanotimes | phconvert/bhreader.py:43 | fills a fresh array whose entry k is record k's nanotime |
| SpcDecoder.DecodeDetectors | phconvert/bhreader.py:44 | fills a fresh array whose entry k is record k's byte `c` |
| SpcDecoder.DecodeTimestamps | phconvert/bhreader.py:47-56 | fills a fresh array whose entry k is record k's mantissa plus 2^24 times the inclusive overflow count up to k, keeping the running count as it goes |
| SpcDecoder.RecordCount | phconvert/bhreader.py:41 | the number of records read is the number of whole 6-byte records: 6n ≤ length < 6(n + 1) |
| SpcDecoder.Timestamps | phconvert/bhreader.py:47-56 | one timestamp per whole record, and timestamp k minus 2^24 times record k's inclusive overflow count lies in 0..2^24-1 |
| SpcDecoder.Detectors | phconvert/bhreader.py:44 | one detector per whole record, and detector k is byte 3 of record k (field `c`) |
| SpcDecoder.Nanotimes | phconvert/bhreader.py:43 | one nanotime per whole record, and nanotime k is 4095 minus the little-endian first word of record k modulo 4096 |
| SpcDecoder.RecordAt | phconvert/bhreader.py:39-41 | record k takes `field0` and `a` as little-endian u16 from bytes 6k..6k+1 and 6k+4..6k+5, and `b` and `c` from bytes 6k+2 and 6k+3 |
| SpcDecoder.U16LE | phconvert/bhreader.py:39 | a `<u2` pair of bytes has the value lo + 256·hi |
| SpcDecoder.NanotimeOf | phconvert/bhreader.py:43 | the nanotime lies in 0..4095 and equals 4095 minus `field0` modulo 4096, i.e. the low twelve bits inverted |
| SpcDecoder.MaskLowTwelve | phconvert/bhreader.py:43 | `field0 & 0x0FFF` is `field0` modulo 4096 |
| SpcDecoder.OverflowBit | phconvert/bhreader.py:52 | the overflow flag is 0 or 1 |
| SpcDecoder.OverflowBitIsBit13 | phconvert/bhreader.py:52 | the flag equals `(field0 >> 13) & 1`, and that is bit 13 of the integer value (`field0 / 8192 mod 2`) |
| SpcDecoder.ShiftMaskBit13 | phconvert/bhreader.py:52 | shifting right by 13 and masking with 1 reads bit 13 of the integer value |
| SpcDecoder.Mantissa | phconvert/bhreader.py:47-49 | `(b << 16) + a` equals b·65536 + a and is below 2^24 |
| SpcDecoder.OverflowCount | phconvert/bhreader.py:53 | the number of flags among the first n records is at most n |
| SpcDecoder.CumulativeOverflow | phconvert/bhreader.py:52-53 | the inclusive cumulative sum at record k is at most k + 1 |
| SpcDecoder.Timestamp | phconvert/bhreader.py:47-56 | timestamp k lies in the 2^24-wide window that starts at 2^24 times record k's inclusive overflow count |
| SpcDecoder.FieldRanges | phconvert/bhreader.py:43-56 | nanotime lies in 0..4095, detector in 0..255, and the timestamp minus 2^24 times its overflow count lies in 0..2^24-1 |
| SpcDecoder.OverflowCountGrowth | phconvert/bhreader.py:52-53 | the cumulative sum never decreases, and over j - i records it grows by at most j - i |
| SpcDecoder.TimestampSplit | phconvert/bhreader.py:47-56 | a timestamp divided by 2^24 is its record's inclusive overflow count, and the remainder is its record's mantissa |
| SpcDecoder.MoreOverflowsMeansLater | phconvert/bhreader.py:53-56 | a record with a larger overflow count comes later and has a larger timestamp, whatever the mantissas |
| SpcDecoder.NeighbourOrder | phconvert/bhreader.py:53-56 | on a consistent acquisition, each timestamp is at least the one before it |
| SpcDecoder.TimestampsSorted | phconvert/bhreader.py:53-56 | on a consistent acquisition, the timestamps are sorted: i ≤ j implies timestamp i ≤ timestamp j |
| SpcDecoder.TimestampFitsInt64 | phconvert/bhreader.py:47-56 | with fewer than 2^39 records, every timestamp and every overflow term lies in 0..2^63-1, so the int64 arithmetic never wraps |
| SpcDecoder.RecordInPrefix | phconvert/bhreader.py:41 | a record inside a prefix of the stream reads the same bytes in the whole stream |
| SpcDecoder.OverflowCountInPrefix | phconvert/bhreader.py:53 | the overflow count of the first n records depends only on those records |
| SpcDecoder.DecodePrefix | phconvert/bhreader.py:41-58 | decoding a prefix of a stream gives the leading part of each of the three arrays of the whole stream |
| SpcDecoder.TrailingPartialRecordDropped | phconvert/bhreader.py:41 | up to five trailing bytes after whole records change neither the record count nor any of the three arrays |
| SpcDecoder.ConcatenatedStreams | phconvert/bhreader.py:52-56 | decoding `first + second` in one call shifts each timestamp of `second` by 2^24 times the overflows counted in `first` |
| SpcDecoder.CumulativeAfterPrefix | phconvert/bhreader.py:53 | the inclusive overflow count of record k of `second`, decoded after `first`, is the count of `first` plus that record's own count in `second` |
| SpcDecoder.ConcatRecordCount | phconvert/bhreader.py:41 | the record count of a whole-record stream followed by another is the sum of the two counts |
| SpcDecoder.RecordAfterPrefix | phconvert/bhreader.py:41 | record j of `second` is record `count(first) + j` of `first + second` |
| SpcDecoder.ShiftedOverflowCount | phconvert/bhreader.py:53 | the count after `count(first) + m` records of `first + second` is the count of `first` plus that of the first m records of `second` |
| SpcDecoder.OverflowCountStep | phconvert/bhreader.py:53 | one more record of `second` adds the same flag in `first + second` as in `second` alone |
| SpcDecoder.SingleRecordExample | phconvert/bhreader.py:39-56 | the record BC 1A 01 05 34 02 decodes to nanotime 1347, detector 5 and timestamp 66100 |
| SpcDecoder.OverflowIsInclusive | phconvert/bhreader.py:51-56 | a record with bit 13 set counts its own overflow in its own timestamp, and a following record without the flag keeps the same count |
| SpcDecoder.DocumentedMaskDiffers | phconvert/bhreader.py:52 | the flag is set exactly when `field0 & 0x2000` is nonzero; on `field0 = 0x1000` the mask 4096 named in the docstring (line 27) is set but the flag is not |
| SetIdentification.ReadIdentification | phconvert/bhreader.py:69-86 | the line-by-line reader with its current key and its dictionary returns exactly the reference section, including each error case |
| SetIdentification.IdentificationSection | phconvert/bhreader.py:69-86 | the section is read exactly when the first line ends in `IDENTIFICATION`, a later line starts with `*END`, and the line after the header is the end line or has a ':'; a missing end line is reported as such |
| SetIdentification.Entries | phconvert/bhreader.py:78-84 | the dictionary's keys are exactly the keys named by key lines |
| SetIdentification.EntryOfLastDeclaration | phconvert/bhreader.py:79-84 | a key line whose key no later key line names gives that key its own value, followed by a space and the text of each continuation line right after it |
| SetIdentification.Items | phconvert/bhreader.py:78 | splitting on ':' and stripping gives at least one item, and exactly one when the line has no ':' |
| SetIdentification.Classify | phconvert/bhreader.py:78-83 | a line is a continuation exactly when it has no ':', and then its text is the stripped line; otherwise its key is the stripped first ':'-piece |
| SetIdentification.KeyLineValue | phconvert/bhreader.py:78-83 | `KEY:V1:...:Vn` (no ':' inside a piece) reads as the stripped key with the value made of the stripped pieces re-joined by ':', so only the first ':' separates key and value |
| SetIdentification.KeyValueLine | phconvert/bhreader.py:78-83 | `KEY:VALUE` with a single ':' reads as the stripped key and the stripped value |
| SetIdentification.FindEnd | phconvert/bhreader.py:77 | finds the first line from a position whose stripped text starts with `*END`, or reports that no line does |
| SetIdentification.EntryAfterKeyLine | phconvert/bhreader.py:81-84 | a key line sets its own key's value to the line's value and leaves every other key's value unchanged |
| SetIdentification.EntryAfterContinuation | phconvert/bhreader.py:79-80 | a continuation line appends a space and its text to the current key's value and leaves every other key's value unchanged |
| SetIdentification.EntriesAddKeyLine | phconvert/bhreader.py:81-84 | the reference dictionary after a key line is the one before it, with that key set to the line's value |
| SetIdentification.EntriesAddContinuation | phconvert/bhreader.py:79-80 | the current key is in the dictionary, and after a continuation line its value gains a space and the line's text, while no other key changes |
| SetIdentification.FindEndInPrefix | phconvert/bhreader.py:77 | the end line is found at the same place in any input that agrees up to that line |
| SetIdentification.LinesAfterEndIgnored | phconvert/bhreader.py:77 | replacing everything after the `*END` line leaves the result unchanged |
| SetSysParams.ReadSysParams | phconvert/bhreader.py:88-117 | the scan with its `start` flag, its in-place dictionary and its stop at the end marker returns exactly the reference section, including the first error raised |
| SetSysParams.SysParamsSection | phconvert/bhreader.py:88-117 | when the section is read, the key of every parameter line read is in the dictionary |
| SetSysParams.ParamLines | phconvert/bhreader.py:95-102 | every line read as a parameter starts with '#' |
| SetSysParams.SectionLinesRead | phconvert/bhreader.py:95-103 | when no line before a `SYS_PARA_BEGIN:` line strips to a marker, the lines read are exactly the stripped lines between it and the next `SYS_PARA_END:` line that start with '#', in file order |
| SetSysParams.SectionAtStartRead | phconvert/bhreader.py:95-103 | the same for a file that opens with the begin marker |
| SetSysParams.SectionEndsAtMarker | phconvert/bhreader.py:100-101 | reading stops at the first end marker after the begin marker |
| SetSysParams.ReadAfterBegin | phconvert/bhreader.py:96-102 | after the begin marker reading is on, and each further line is read exactly when it strips to a text starting with '#' |
| SetSysParams.ParamLinesAfterHead | phconvert/bhreader.py:95-102 | lines before the section that are neither marker, even ones starting with '#', do not change which lines are read |
| SetSysParams.ParseAll | phconvert/bhreader.py:102-116 | a successful parse yields one parameter per line read |
| SetSysParams.LastWins | phconvert/bhreader.py:116 | every key that is assigned is in the dictionary |
| SetSysParams.FieldsOf | phconvert/bhreader.py:103 | `line[5:-1].split(',')` always has at least one field |
| PyStr.SliceFiveToLast | phconvert/bhreader.py:103 | `line[5:-1]` drops five leading characters and the last one, and is empty for lines of six characters or fewer |
| PyStr.Slice | phconvert/bhreader.py:103 | a slice is never longer than the string, bounds inside the string select exactly that range, and a start at or past the end, or a non-negative stop not after the start, gives the empty string |
| SetSysParams.ParseParam | phconvert/bhreader.py:103-116 | a parsed parameter is keyed by its first field, and the tag is missing exactly when there is only one field |
| SetSysParams.TaggedValue | phconvert/bhreader.py:105-114 | only the tags `B`, `I`, `U`, `L`, `F` and `S` can raise: without a value field they report it missing, and otherwise only an integer tag with a non-integer text raises; an integer value is `int()` of the text, and any other tag keeps the fields from the tag on |
| SetSysParams.TagSelectsValue | phconvert/bhreader.py:105-114 | with a value field, `B` gives whether the text is non-empty, `I`, `U` and `L` an integer, `F` the text as a float literal and `S` the text itself; any other tag gives the fields from the tag on, with or without a value field |
| SetSysParams.ParseInt | phconvert/bhreader.py:108 | blank text never parses, stripped text of digits alone parses to the number it denotes, and a negative result comes from a leading '-' |
| SetSysParams.FieldsOfParamLine | phconvert/bhreader.py:103 | a line written as `#XX [f1,...,fn]` with comma-free fields splits back into exactly those fields |
| SetSysParams.BoolParamRoundTrip | phconvert/bhreader.py:105-106 | a `B` parameter is true exactly when its value text is non-empty |
| SetSysParams.IntParamRoundTrip | phconvert/bhreader.py:107-108 | an `I`, `U` or `L` parameter written as a decimal number reads back as that integer |
| SetSysParams.TextParamRoundTrip | phconvert/bhreader.py:109-112 | an `F` parameter keeps its text as a float literal, and an `S` parameter keeps it as a string |
| SetSysParams.OtherParamRoundTrip | phconvert/bhreader.py:113-114 | for any other tag the value is the list of fields from the tag on |
| SetSysParams.ParamErrors | phconvert/bhreader.py:105-114 | a known tag with no value field raises, an integer tag whose text is not a number raises, and a line with no tag raises |
| SetSysParams.ParseIntText | phconvert/bhreader.py:108 | `int(str(n)) == n` for every integer n |
| SetSysParams.NatTextValue | phconvert/bhreader.py:108 | the decimal digits of n denote n |
| SetSysParams.EndAt | phconvert/bhreader.py:100-101 | finds the first line that strips to `SYS_PARA_END:`, or the end of input |
| SetSysParams.ParseAllAppend | phconvert/bhreader.py:102-116 | parsing one more line: an earlier error stands, otherwise the new line's error or parameter is added |
| SetSysParams.BeginLineStep | phconvert/bhreader.py:97-99 | the begin marker line turns reading on and is not itself read |
| SetSysParams.OtherLineStep | phconvert/bhreader.py:102 | a line that is neither marker leaves reading on or off, and is read exactly when reading is on and it starts with '#' |
| SetSysParams.SectionReadUpTo | phconvert/bhreader.py:100-101 | stopping at the end marker, or at the end of the file, gives the dictionary of the parameters read so far |
| SetSysParams.ParamLineRead | phconvert/bhreader.py:102-116 | a parameter line that parses appends its parameter, and the dictionary gains its assignment |
| SetSysParams.FailureEndsSection | phconvert/bhreader.py:103-116 | the first parameter line that fails to parse decides the error of the whole section |
| SetSysParams.ParseAllSucceeds | phconvert/bhreader.py:102-116 | parsing succeeds exactly when every parameter line parses, and then yields one parameter per line, in order |
| SetSysParams.ParseAllFirstError | phconvert/bhreader.py:102-116 | when the lines before line i parse and line i fails, the result is line i's error |
| SetSysParams.LastWinsKeys | phconvert/bhreader.py:116 | the dictionary's keys are exactly the keys of the parameters read |
| SetSysParams.LaterDefinitionWins | phconvert/bhreader.py:116 | a key holds the value of its last definition |
| SetSysParams.ParamLinesStartWithHash | phconvert/bhreader.py:102 | every line parsed as a parameter starts with '#' |
| SetSysParams.LinesAfterEndIgnored | phconvert/bhreader.py:100-101 | replacing everything after the first `SYS_PARA_END:` leaves the result unchanged |
| SetSysParams.LinesBeforeBeginIgnored | phconvert/bhreader.py:95-102 | lines before the section that are neither marker, even ones starting with '#', do not change the result |
| SetSysParams.OtherLineIgnored | phconvert/bhreader.py:95-102 | inserting, anywhere in the file, a line that strips to neither marker and does not start with '#' leaves the result unchanged |
| SetSysParams.InsertedAfterEnd | phconvert/bhreader.py:100-101 | a line inserted after the end marker changes no line that is read |
| SetSysParams.InsertedBeforeEnd | phconvert/bhreader.py:95-102 | a line inserted before the end marker that is neither marker nor a '#' line changes no line that is read |
| SetSysParams.EndWithInserted | phconvert/bhreader.py:100-101 | with such a line inserted, the end marker is found at the same line if it comes before the insertion point, and one line later otherwise |
| SetSysParams.EndAfterInserted | phconvert/bhreader.py:100-101 | past an inserted line, the end marker is found one line later than without it |
| SetSysParams.ParamLinesAfterInserted | phconvert/bhreader.py:96-102 | past an inserted line that is not `SYS_PARA_BEGIN:` and does not start with '#', reading is on exactly when it was without it, and the same parameter lines have been read |
| SetFile.SetFileContents | phconvert/bhreader.py:61-66 | succeeds exactly when both sections are read; then it holds both dictionaries. An identification error is reported first, otherwise the parameter error |
| SetFile.LoadSet | phconvert/bhreader.py:61-66 | reading the identification block and then the parameter block gives exactly the reference contents or error |
| BhDecode.Decode | phconvert/bhreader.py:119-133 | a key that contains none of the twelve patterns decodes to itself |
| BhDecode.DecodeWithoutUnderscore | phconvert/bhreader.py:121-132 | every pattern contains '_', so a key without '_' decodes to itself |
| BhDecode.OnlyFirstAndNinthStepsChange | phconvert/bhreader.py:119-133 | when only the `SP_` and `TAC_R` steps apply, decoding is those two replacements |
| BhDecode.OnlyFirstTwoStepsChange | phconvert/bhreader.py:119-133 | when only the `SP_` and `_ZC` steps apply, decoding is those two replacements |
| BhDecode.DecodeTacRangeKey | phconvert/bhreader.py:121-129 | `SP_TAC_R` plus a suffix free of the letters the other patterns need decodes to `TAC Range` plus that suffix |
| BhDecode.DecodeTacRange | phconvert/bhreader.py:121-129 | `SP_TAC_R` decodes to `TAC Range` |
| BhDecode.DecodeZeroCrossKey | phconvert/bhreader.py:121-122 | `SP_` + unit + `_ZC` decodes to unit + ` ZC Thresh.` when the unit has no '_' or 'S' |
| BhDecode.DecodeCfdZeroCross | phconvert/bhreader.py:121-122 | `SP_CFD_ZC` decodes to `CFD ZC Thresh.` |
| BhDecode.Untouched | phconvert/bhreader.py:121-132 | a replacement whose pattern has a character the string lacks changes nothing |
| BhDecode.ReplacedOnce | phconvert/bhreader.py:121-132 | a pattern that starts the string and does not occur again is replaced once, at the front |
| PyStr.StripLeftRemovesLeadingSpace | phconvert/bhreader.py:76 | `lstrip` removes exactly the leading white space |
| PyStr.StripRightRemovesTrailingSpace | phconvert/bhreader.py:96 | `rstrip` removes exactly the trailing white space |
| PyStr.Strip | phconvert/bhreader.py:96 | `strip` never lengthens a string and leaves no white space at either end |
| PyStr.Split | phconvert/bhreader.py:78 | `split` gives at least one piece, and exactly one when the separator does not occur |
| PyStr.Join | phconvert/bhreader.py:83 | a join of at least one piece starts with the first piece |
| PyStr.JoinSplit | phconvert/bhreader.py:78-83 | joining the pieces of a split with the same separator gives the string back |
| PyStr.SplitJoin | phconvert/bhreader.py:103 | splitting a join of separator-free pieces gives the pieces back |
| PyStr.SplitFirstPiece | phconvert/bhreader.py:103 | a leading piece free of the separator comes back whole from `split` |
| PyStr.ReplaceIsJoinOfSplit | phconvert/bhreader.py:121-132 | `s.replace(p, r) == r.join(s.split(p))` |
| PyStr.Replace | phconvert/bhreader.py:121-132 | replacing a pattern that does not occur changes nothing |
| PyStr.ReplaceSkipsPrefix | phconvert/bhreader.py:121-132 | a prefix that lacks the pattern's first character is left in place by `replace` |

## Left out

- File access (`open`, `np.fromfile`, `readline`, `readlines`) is not modelled. `load_spc` takes the file's bytes, and the .SET readers take the file's lines.
- Python 2 byte strings are modelled as `seq<char>`; no encoding is involved.
- The numpy dtypes (`uint8` detector, `uint16` nanotime, `int64` timestamps) are modelled as unbounded integers. `FieldRanges` and `TimestampFitsInt64` state the ranges.
- SpcDecoder.DecodeTimestamps: the `int64` wrap-around is not modelled, because it needs at least 2^39 overflow records (over 3 TB of data); `TimestampFitsInt64` proves no wrap below that.
- SetSysParams.ParseParam: for tag `F`, `float(fields[2])` is kept as the value text. Neither the float conversion nor the `ValueError` it raises on text that is not a number is modelled, because floating point is outside the model.
- SetSysParams.ParseInt: covers Python 2 `int()` on a byte string as surrounding white space, an optional sign, then decimal digits. Python 2.7 also accepts white space between the sign and the digits (`int("- 5") == -5`), where the model gives `ParseInt("- 5") == None`; other corner cases of Python's integer parser are not modelled either.
- SetIdentification.ReadIdentification: a file that ends before `*END` makes the source read empty lines for ever, or raise when no key is bound yet. The model returns `MissingEndMarker` or `ContinuationBeforeKey` instead of looping.
- `load_set` opens the file twice. The model passes the same lines to both readers.
- `bh_print_sys_params` is not modelled: it only prints.
