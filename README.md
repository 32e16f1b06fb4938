# ShrineTips core, modelled in Dafny

ShrineTips is a Windows tray tool. It reads the text a game copies to the clipboard for an item
and parses it into an item tip: rarity, name, base type, base stats, requirements, sockets,
item level and the free-form description blocks. It then checks every description line against
a downloaded catalogue of shrine-effect patterns. The result is one group per effect, holding
the effect's name, its value template and the lines that matched, plus an "Unknown" group.

This project models the parts of that program that do not depend on Windows, WinHTTP or the
regex engine. They are in four source files:

- **src/main.cpp**
  - the tooltip parser `ItemTip::parse`, as a state machine over trimmed lines with soft
    sections 2 to 4 that fall through;
  - the catalogue: the pattern rewriter `makeRe`, the requirement predicate `checkReq`, the
    matcher-building loop of `update`, and `version`;
  - the classifier `match`.
- **src/common.cpp**: `split`, both `join` overloads, `trim`, `strlower`, the UTF-8/UTF-16
  transcoders and `_qmemset`.
- **src/file.cpp**
  - the buffers with a cursor: `MemFileBuffer`, `SubFileBuffer` and the growable
    `MemoryBuffer`;
  - the two loops `File::getline` and `File::all`.
- **src/http.cpp**: form encoding with `urlencode`, and `HttpRequest::addData` and `addHeader`.

Each file is one module:

| file | module | contents |
|---|---|---|
| wrappers.dfy | Wrappers | `Option`, `Result` |
| common.dfy | Common | string helpers; `uint32` and `byte` |
| utf.dfy | Utf | `DecodeUtf8`/`EncodeUtf8` specifications and the two transcoder loops |
| filebuf.dfy | FileBuffers | the three buffer classes, and `GetLine`/`All` over a `MemFileBuffer` |
| http.dfy | Http | `UrlEncoded` and its inverse `UrlDecode`, `UrlEncode`, class `HttpRequest` |
| json.dfy | Json | the decoded knowledge-base tree and its accessors |
| patterns.dfy | Patterns | recognisers for the parser's five fixed regexes, `MakeRe`, `CheckReq` |
| tooltip.dfy | Tooltip | the specification `Step`/`Run`, class `ItemTip` with `Parse`, and its lemmas |
| shrines.dfy | Shrines | the specifications `MatchersOf`/`Grouped`, class `ShrineData`, and their lemmas |

**How the model is built.**

- Code that changes state is written as Dafny classes and methods, with `modifies` clauses.
- Every loop is a method. Its postcondition ties the result, or the new state, to a
  specification function.
- The properties of those specification functions are proved as lemmas.

**Assumptions.**

- The regex engine is not part of this model. The parser's five fixed patterns
  (src/main.cpp:36-40) are explicit recognisers that match the whole line. The knowledge-base
  patterns are matched by a parameter `matches(pattern, line)`.
- json.h is not part of this model. Reading an index outside an array gives null,
  `getString` of a non-string gives "", and `getInteger` of a non-integer gives 0.
- `reJunk.replace` deletes every non-overlapping match, scanning from the left.

**Behaviour of the source kept as written:**

- `checkReq` lower-cases only the base type, not the listed parts (src/main.cpp:185-187). An
  empty base type fails any non-empty requirement, including one it does not recognise
  (src/main.cpp:172-173).
- `parse` also fails on a bad header line (src/main.cpp:56) and on a bad requirement line
  (src/main.cpp:77). The three header lines alone are accepted only if the name is still
  non-empty after the decorative tag is removed (src/main.cpp:60, 111).
- `join(list, char)` always inserts a space, whatever separator it is given (src/common.cpp:78).

## Model

| member | source | states |
|---|---|---|
| Common.ToLower | src/common.cpp:55-59 | only 'A'..'Z' change, each to the letter 32 code points higher; every other ASCII character is unchanged (bytes >= 0x80: see Left out) |
| Common.Lower | src/common.cpp:55-59 | strlower keeps the length and maps every character through tolower |
| Common.LowerIdempotent | src/common.cpp:55-59 | lower-casing twice is the same as once |
| Common.LowerAppend | src/common.cpp:55-59 | strlower works character by character, so it distributes over concatenation |
| Common.Pieces | src/common.cpp:61-74 | the pieces split returns: always at least one |
| Common.Split | src/common.cpp:61-74 | split's loop returns exactly the pieces between separators (`Pieces`) |
| Common.PiecesCount | src/common.cpp:61-74 | split returns one more piece than there are separators |
| Common.PiecesAvoidSep | src/common.cpp:61-74 | no piece contains the separator |
| Common.PiecesInterleave | src/common.cpp:61-74 | putting the pieces back together with the separator gives the input back |
| Common.PiecesWithoutSep | src/common.cpp:61-74 | input without a separator is a single piece |
| Common.PiecesAfterSep | src/common.cpp:61-74 | text after the last separator becomes exactly one more piece |
| Common.Join | src/common.cpp:75-82 | join(list, char) equals `Joined(list, " ")`: the separator argument is ignored and a space goes in only when the text so far is non-empty |
| Common.JoinWith | src/common.cpp:83-90 | join(list, string) equals `Joined(list, sep)` |
| Common.JoinedNonEmpty | src/common.cpp:83-90 | for non-empty elements the result is e0 sep e1 ... sep en, which is non-empty |
| Common.JoinedDropsLeadingEmpty | src/common.cpp:83-90 | empty elements at the front leave no separator behind |
| Common.Joined | src/common.cpp:75-90 | joining nothing gives ""; a non-empty last element makes the joined text non-empty |
| Common.JoinedAllEmpty | src/common.cpp:83-90 | the joined text is "" iff every element is "" |
| Common.SplitThenJoin | src/common.cpp:61-90 | splitting on c and joining with "c" is the identity when no piece is empty |
| Common.LeftEdge | src/common.cpp:165 | the first loop of trim stops at the first non-space character, or at the end |
| Common.RightEdge | src/common.cpp:166 | the second loop of trim stops after the last non-space character, never before `left` |
| Common.Trimmed | src/common.cpp:163-168 | the result is no longer than the input, neither starts nor ends with white space, and is "" iff the input is all white space |
| Common.TrimmedUnique | src/common.cpp:163-168 | any infix whose outside is white space and whose ends are not is the trimmed string |
| Common.TrimIdempotent | src/common.cpp:163-168 | trim is idempotent |
| Common.Trim | src/common.cpp:163-168 | the two loops of trim compute `Trimmed` |
| Common.QMemset | src/common.cpp:49-53 | exactly the `count` words from `start` on become `fill`; every other word is unchanged |
| Patterns.RarityOf | src/main.cpp:36 | a recognised line is `Rarity: ` followed by the captured \w+ word |
| Patterns.RarityOfWord | src/main.cpp:36 | every `Rarity: <word>` line is recognised, and that word is captured |
| Patterns.KeyValueOf | src/main.cpp:38 | a recognised line is key + ": " + value, with a non-empty colon-free key and a non-empty value |
| Patterns.KeyValueOfShape | src/main.cpp:38 | every such key + ": " + value line is split at its first colon |
| Patterns.SocketsOf | src/main.cpp:39 | a recognised line is `Sockets: ` followed by a non-empty run of R, G, B, space or '-' |
| Patterns.SocketsComplete | src/main.cpp:39 | every `Sockets: ` line over R, G, B, space and '-' is recognised, with that text captured |
| Patterns.LevelCaptures | src/main.cpp:40 | a recognised line is one of the two labels, ": " and a run of digits; sub[1] is the label and sub[2] the digits |
| Patterns.LevelCapturesDigits | src/main.cpp:40 | both spellings of the label followed by digits are recognised, with both groups captured |
| Patterns.Atoi | src/main.cpp:97 | atoi of a string of digits is its decimal value, and atoi of a string that starts with anything else is 0 |
| Patterns.LevelAsWritten | src/main.cpp:95-98 | `reLevel` then `atoi(sub[1])`, as written: recognised exactly when `reLevel` matches |
| Patterns.LevelAsWrittenIgnoresDigits | src/main.cpp:97 | as written, every recognised item-level line gives level 0, whatever its digits |
| Patterns.LevelSixtyEight | src/main.cpp:97 | "Item Level: 68" gives 0 as written and 68 through `LevelOf` |
| Patterns.LevelOf | src/main.cpp:40 | the intended item level: recognised exactly when `reLevel` matches, and then the decimal value of the digits after one of the two labels |
| Patterns.LevelOfDigits | src/main.cpp:40 | both spellings of the label followed by digits give the decimal value of the digits |
| Patterns.JunkAt | src/main.cpp:37 | a match at the front is `<<set:`, a \w+ word and `>>`, at least 9 characters long |
| Patterns.StripJunk | src/main.cpp:60 | removing the tags never lengthens the name; a name without '<' is unchanged |
| Patterns.StripJunkTag | src/main.cpp:60 | a `<<set:word>>` tag at the front is removed entirely |
| Patterns.MakeRe | src/main.cpp:162-170 | makeRe never shortens a template |
| Patterns.MakeReShape | src/main.cpp:162-170 | no '#' survives makeRe; a template with neither '+' nor '#' is its own pattern |
| Patterns.MakeReLength | src/main.cpp:162-170 | the output length is len + count('+') + 6 * count('#') |
| Patterns.MakeReAppend | src/main.cpp:162-170 | makeRe(a + b) == makeRe(a) + makeRe(b) |
| Patterns.CheckReq | src/main.cpp:171-190 | an empty requirement always holds; a non-empty one fails for an empty base type |
| Patterns.AnyPartIn | src/main.cpp:186-188 | the scan is true iff the lower-cased type contains one of the parts |
| Patterns.AnyPartInTail | src/main.cpp:186-188 | the scan starts at the part after "type" |
| Patterns.CheckReqAny | src/main.cpp:171-190 | `type+a+b` is false for an empty type, and otherwise true iff the lower-cased type contains some part after "type" |
| Patterns.CheckReqNone | src/main.cpp:171-190 | `type-a-b` is false for an empty type, and otherwise true iff the lower-cased type contains none of those parts |
| Patterns.CheckReqOther | src/main.cpp:171-184 | any other requirement holds iff it is empty or the type is non-empty |
| Json.At | src/main.cpp:139-141 | indexing gives the element inside the array; null outside it is an assumption about json.h, not part of this model |
| Tooltip.Header | src/main.cpp:53-66 | section 0 fails only on line 0 when the line is not `Rarity: <word>`; otherwise it changes at most rarity, name and base, and no counter |
| Tooltip.StatOf | src/main.cpp:67-73 | a base stat is the line's key/value split, or the whole line with an empty value |
| Tooltip.BaseStat | src/main.cpp:67-73 | section 1 appends one base stat and changes nothing else |
| Tooltip.Describe | src/main.cpp:103-106 | the default branch keeps the section, fixes baseSection the first time (to the current section) and keeps it afterwards, and appends the line to block section - baseSection, which exists afterwards; nothing else changes: line, level and the other tip fields are kept, every other block is kept (new padding blocks are empty), and the list grows only up to that block |
| Tooltip.Level | src/main.cpp:95-102 | section 4: an item-level line sets only ilvl, to the corrected `LevelOf` (see Findings); any other line falls through to a later section |
| Tooltip.Sockets | src/main.cpp:87-94 | section 3: a sockets line sets only the sockets; any other line falls through to a later section |
| Tooltip.Requirement | src/main.cpp:74-86 | section 2: the heading on line 0 changes nothing; after it, a `key: value` line appends exactly that pair to the requirements and changes nothing else, and any other line fails; the fall-through keeps -1 <= baseSection <= section and never moves back a section |
| Tooltip.Handle | src/main.cpp:52-107 | the switch keeps -1 <= baseSection <= section and never decreases the section |
| Tooltip.Step | src/main.cpp:45-109 | one iteration keeps -1 <= baseSection <= section and never decreases the section |
| Tooltip.Next | src/main.cpp:45-110 | one iteration of the loop, stopping at the first failure, keeps the counters sane |
| Tooltip.Run | src/main.cpp:45-110 | the whole loop keeps the counters sane |
| Tooltip.Parsed | src/main.cpp:42-110 | parse runs the loop over the '\n'-separated lines and keeps -1 <= baseSection <= section |
| Tooltip.ItemTip.constructor | src/main.cpp:31 | a new record has empty strings and vectors and no item level |
| Tooltip.ItemTip.Parse | src/main.cpp:35-112 | the record after parse is the record `Run` computes over the '\n'-separated lines; the result is true iff no line failed and rarity and name are both non-empty |
| Tooltip.ItemTip.ParseLine | src/main.cpp:45-109 | one pass of the loop updates the counters and the record exactly as `Step` does; when it fails the record is untouched |
| Tooltip.ItemTip.HandleLine | src/main.cpp:52-107 | the switch on `section` updates the record exactly as `Handle` does; when it fails the record is untouched |
| Tooltip.ItemTip.SoftLine | src/main.cpp:87-106 | sections 3 and 4 and the default branch, entered directly or by falling through, act as `Sockets`, `Level` and `Describe` |
| Tooltip.FailedStays | src/main.cpp:45-110 | once parse has returned false, the remaining lines change nothing |
| Tooltip.RunAppend | src/main.cpp:45-110 | running over a + b is running over a, then over b |
| Tooltip.BlanksSkipped | src/main.cpp:46-47 | lines that trim to nothing leave the state alone |
| Tooltip.RarityFrozen | src/main.cpp:55-57 | once past line 0 of section 0, rarity is never written again |
| Tooltip.FirstLine | src/main.cpp:46-57 | on a fresh record, a delimiter first line moves to section 1 with no rarity, a non-header line fails, and a `Rarity: <word>` line stores the lower-cased word |
| Tooltip.HeaderDecides | src/main.cpp:55-57 | a first content line that is a delimiter, or not `Rarity: <word>`, makes parse fail; an accepted parse has the captured word, lower-cased, as its rarity |
| Tooltip.RequirementLine | src/main.cpp:74-78 | in a whole loop iteration, the heading only advances the line counter, and a later `key: value` line appends that pair to the requirements |
| Tooltip.BaseStatLine | src/main.cpp:67-73 | a section-1 content line never fails and adds exactly one base stat: its key/value split, or (line, "") |
| Tooltip.RequirementsFallThrough | src/main.cpp:74-106 | a first section-2 line other than the heading becomes the sockets, else the item level, else a description line, and never fails |
| Tooltip.RequirementMustBeKeyValue | src/main.cpp:74-81 | after the heading, a line without the key/value shape makes parse return false |
| Tooltip.BlankAndDelimiterLines | src/main.cpp:46-51 | a blank line changes nothing; a delimiter only increments the section and resets the line counter |
| Tooltip.DescribeAppends | src/main.cpp:103-106 | a description line is appended after all lines stored so far, and the shape of `sections` is kept |
| Tooltip.HandleShape | src/main.cpp:52-107 | a content line either leaves `sections` and baseSection alone or is handled by the default branch |
| Tooltip.ContentKeepsSections | src/main.cpp:52-108 | a content line keeps `sections` well formed, and either keeps the stored lines or appends this line |
| Tooltip.StepKeepsSections | src/main.cpp:45-109 | one iteration keeps `sections` well formed, and either keeps the stored lines or appends this trimmed line |
| Tooltip.RunKeepsSections | src/main.cpp:45-110 | any run keeps `sections` well formed and never changes or reorders lines already stored |
| Tooltip.ParsedSectionsWellFormed | src/main.cpp:42-110 | from a fresh record, sections hold only trimmed, non-blank, non-delimiter lines, and the last block is never empty |
| Tooltip.HeaderOnly | src/main.cpp:53-111 | the three header lines alone fill exactly rarity, name and base; parse accepts them iff the name is non-empty after the tag is removed |
| Shrines.MatchersOf | src/main.cpp:136-146 | the matcher list of a tree: every matcher names an entry of the tree |
| Shrines.MatcherFor | src/main.cpp:139-144 | a pattern element yields a matcher tagged with its effect's index |
| Shrines.Blocks | src/main.cpp:136-146 | one block of matchers per entry of the tree |
| Shrines.BlocksIndexed | src/main.cpp:136-146 | every matcher in block k is tagged k |
| Shrines.MatchersOfEffect | src/main.cpp:136-146 | the matchers tagged i are exactly those from elements 2.. of entry i, in order; a non-array entry or an index past the tree has none |
| Shrines.MatchersOrdered | src/main.cpp:136-146 | every matcher names an entry of the tree, and the list is in ascending effect index |
| Shrines.HitsMembers | src/main.cpp:204-209 | an effect index is hit for a line iff some matcher with that index accepts the line |
| Shrines.Tagged | src/main.cpp:202 | each line of a section is paired with the section's index, in order |
| Shrines.ClassifiedMembers | src/main.cpp:197-202 | the classified lines are exactly the lines of all sections, less a skipped lone section 0 |
| Shrines.Grouped | src/main.cpp:193-228 | what match returns: at most one group per effect, plus the "Unknown" group |
| Shrines.GroupTable | src/main.cpp:204-209 | one group of lines per effect index |
| Shrines.GroupMembers | src/main.cpp:202-209 | a line lands in group k iff it is a classified line that some matcher tagged k accepts |
| Shrines.SharedLine | src/main.cpp:204-208 | a line that matchers of two effects accept appears in both groups |
| Shrines.UnknownMembers | src/main.cpp:203-210 | a line is unknown iff it lies in section hasImplicit and no matcher accepts it |
| Shrines.GroupsAscending | src/main.cpp:214-220 | every effect that collected lines has a group [name, template, lines...], in ascending effect index |
| Shrines.GroupsNonEmpty | src/main.cpp:214-220 | every reported effect group holds at least one line after its two heading entries |
| Shrines.GroupsAreEffects | src/main.cpp:214-220 | conversely, every reported group is [name, template] followed by the lines of some effect index below the table size that collected lines |
| Shrines.ShrineData.constructor | src/main.cpp:118-120 | construction runs one update on an empty catalogue |
| Shrines.ShrineData.Version | src/main.cpp:124-126 | the integer at position 0 of the tree, or 0 when there is none |
| Shrines.ShrineData.Update | src/main.cpp:128-148 | the matcher list is cleared first. A failed request leaves it empty and the tree unchanged. A failed decode leaves it empty and the tree as json::parse left it. On success the tree is kept and the list is `MatchersOf(tree)` |
| Shrines.ShrineData.AddEffect | src/main.cpp:138-145 | the inner loop appends the matchers of one entry, in element order |
| Shrines.ShrineData.Offer | src/main.cpp:204-209 | offering a line to every matcher adds one copy to each group per accepting matcher; `found` is true iff some matcher accepts |
| Shrines.ShrineData.ClassifySection | src/main.cpp:202-211 | classifying a section extends the groups and the unknown list by that section's lines |
| Shrines.ShrineData.Report | src/main.cpp:214-220 | the groups are emitted by ascending key, each headed by the effect's name and template |
| Shrines.ShrineData.Classify | src/main.cpp:194-212 | the nested loops build the groups and the unknown list of the classified lines |
| Shrines.ShrineData.Match | src/main.cpp:193-228 | match returns `Grouped`: the effect groups, then ["Unknown", lines...] only when there are unknown lines |
| Utf.Lead | src/common.cpp:95-112 | a lead byte gives its payload and 0-3 continuation bytes; 0x80..0xBF and >= 0xF8 are rejected |
| Utf.Trail | src/common.cpp:113-118 | reading the continuation bytes needs that many bytes and keeps the code point non-negative |
| Utf.Units | src/common.cpp:123-129 | a code point up to 0xFFFF is one unit; above that, a high then a low surrogate |
| Utf.ReadTrail | src/common.cpp:113-118 | the inner loop succeeds iff `Trail` does, with the same code point and position |
| Utf.DecodedLength | src/common.cpp:92-132 | a successful `DecodeUtf8` (the result utf8_to_utf16 specifies) is empty iff the input is, and has at most two units per byte |
| Utf.Utf8ToUtf16 | src/common.cpp:92-132 | utf8_to_utf16 computes `DecodeUtf8`, an error exactly where the source throws |
| Utf.Utf16ToUtf8 | src/common.cpp:134-161 | utf16_to_utf8 computes `EncodeUtf8`, an error exactly where the source throws |
| Utf.EncodeUtf8 | src/common.cpp:134-161 | a successful encode has one to three bytes per code unit |
| Utf.Bytes | src/common.cpp:144-158 | 1, 2, 3 or 4 bytes for code points up to 0x7F, 0x7FF, 0xFFFF and above |
| Utf.AsciiDecodes | src/common.cpp:97-98 | ASCII bytes map one-to-one to code units, however `char` is read |
| Utf.SignedReadsOnlyAscii | src/common.cpp:114 | when `char` is signed, the input decodes iff it is pure ASCII |
| Utf.DecodeRejects | src/common.cpp:99-116 | a bad lead byte or a truncated sequence is an error |
| Utf.DecodeRejectsValue | src/common.cpp:113-121 | a continuation byte that is present but outside 0x80..0xBF (as the char type reads it), or a decoded value that is a surrogate or above 0x10FFFF, is an error |
| Utf.SurrogateRejected | src/common.cpp:119-121 | ED A0 80 (U+D800) is an error |
| Utf.BeyondRangeRejected | src/common.cpp:119-121 | F4 90 80 80 (0x110000) is an error |
| Utf.BadContinuationRejected | src/common.cpp:113-116 | C3 41 is an error: 0x41 is not a continuation byte |
| Utf.TrailBadByte | src/common.cpp:113-116 | reading continuation bytes fails when any of the next ones is not a continuation byte |
| Utf.PairInverse | src/common.cpp:138-142 | a surrogate pair combines into 0x10000..0x10FFFF and splits back into the same pair |
| Utf.UnitsInverse | src/common.cpp:126-128 | the surrogate pair of a code point combines back into it |
| Utf.BytesDecode | src/common.cpp:144-158 | the bytes of a code point decode back to its units, whatever follows |
| Utf.EncodeThenDecode | src/common.cpp:92-161 | whatever utf16_to_utf8 accepts, utf8_to_utf16 (unsigned reading) turns back into the same units |
| Utf.EncodeRejects | src/common.cpp:138-140 | a lone low surrogate, or a high surrogate not followed by a low one, is an error |
| Utf.LastCodePoint | src/common.cpp:143 | U+10FFFF decodes to DBFF DFFF, but the `>=` makes the encoder refuse that pair |
| Utf.OverlongAccepted | src/common.cpp:101-118 | overlong forms are not rejected: C0 80 decodes to U+0000 |
| FileBuffers.Clamp | src/file.cpp:140-141 | a seek target is clamped into [lo, hi] and kept when already inside |
| FileBuffers.SubTargetRange | src/file.cpp:192-208 | a sub-file seek lands in [start, end]; a non-negative target is clamped; a negative one lands on end |
| FileBuffers.ByteAt | src/file.cpp:124 | getc gives the byte at the cursor, or EOF past the end |
| FileBuffers.MemFileBuffer.constructor | src/file.cpp:107-118 | a new buffer holds the bytes with the cursor at 0 |
| FileBuffers.MemFileBuffer.Getc | src/file.cpp:123-125 | returns the byte at the cursor and advances by one; at the end returns EOF and stays |
| FileBuffers.MemFileBuffer.Putc | src/file.cpp:126 | putc changes nothing |
| FileBuffers.MemFileBuffer.Seek | src/file.cpp:131-143 | offset from 0, the cursor or the end, clamped to [0, size] |
| FileBuffers.MemFileBuffer.Read | src/file.cpp:148-157 | copies min(n, size - pos) bytes from the cursor and advances by that count |
| FileBuffers.MemFileBuffer.Write | src/file.cpp:158-160 | write returns 0 and changes nothing |
| FileBuffers.SubFileBuffer.constructor | src/file.cpp:173-180 | the window is [offset, offset + size), with the cursor at its start |
| FileBuffers.SubFileBuffer.Getc | src/file.cpp:182-186 | EOF once pos >= end; otherwise the inner byte at pos, and the cursor advances |
| FileBuffers.SubFileBuffer.Tell | src/file.cpp:189-191 | tell() == pos - start |
| FileBuffers.SubFileBuffer.Size | src/file.cpp:209-211 | size() == end - start |
| FileBuffers.SubFileBuffer.Seek | src/file.cpp:192-208 | the target is relative to start, pos or end, clamped into [start, end]; a negative target lands on end |
| FileBuffers.SubFileBuffer.Read | src/file.cpp:213-222 | a read is truncated at the window's end and at the inner buffer's end; the cursor advances by the count |
| FileBuffers.SubFileBuffer.Write | src/file.cpp:223-225 | write returns 0 |
| FileBuffers.Grown | src/file.cpp:296-300 | reserve's growth covers the need and never shrinks the allocation |
| FileBuffers.GrownBounds | src/file.cpp:296-300 | the grown allocation covers pos + n, never shrinks, and overshoots by less than max(need, grow) |
| FileBuffers.Overwrite | src/file.cpp:287-290 | the contents after a write are as long as the longer of the old contents and pos + the length of p |
| FileBuffers.OverwriteShape | src/file.cpp:287-290 | a write keeps the bytes before the cursor, puts p at the cursor and keeps the bytes after it |
| FileBuffers.MemoryBuffer.constructor | src/file.cpp:239-246 | allocation `initial`, empty, cursor at 0 |
| FileBuffers.MemoryBuffer.Getc | src/file.cpp:251-254 | the byte at the cursor and advance, or EOF at size |
| FileBuffers.MemoryBuffer.Seek | src/file.cpp:259-271 | offset from 0, the cursor or size, clamped to [0, size] |
| FileBuffers.MemoryBuffer.Read | src/file.cpp:276-285 | copies min(n, size - pos) written bytes from the cursor and advances by that count |
| FileBuffers.MemoryBuffer.Reserve | src/file.cpp:295-310 | the allocation grows as `Grown` says; the first size bytes are kept; pos advances by n; size becomes max(size, pos) |
| FileBuffers.MemoryBuffer.Write | src/file.cpp:287-290 | the contents become `Overwrite(old contents, old pos, p)`, and the length of p is returned |
| FileBuffers.MemoryBuffer.Resize | src/file.cpp:311-314 | size becomes k and the cursor is clamped to at most k |
| FileBuffers.LineEnd | src/file.cpp:79-91 | the first \n or \r at or after the cursor, or the end |
| FileBuffers.ReadLine | src/file.cpp:76-93 | getline fails iff the cursor is at the end; the cursor never moves back, and moves forward on success except at a final lone \r |
| FileBuffers.ReadLineMeaning | src/file.cpp:76-93 | the line is the run of non-break bytes at the cursor, stopped by a break or the end; false only when nothing is left |
| FileBuffers.ReadLineAdvances | src/file.cpp:80-85 | every call consumes its line and terminator, except at a lone \r that is the last byte |
| FileBuffers.LoneCarriageReturn | src/file.cpp:81-84 | at a final lone \r, getline answers true with an empty line and leaves the cursor on the \r |
| FileBuffers.GetLine | src/file.cpp:76-93 | getline's result, line and new cursor are those of `ReadLine` |
| FileBuffers.All | src/file.cpp:343-350 | all() returns every byte from the cursor to the end, and leaves the cursor at the end |
| Http.HexDigit | src/http.cpp:60 | a digit below 16 prints as an uppercase hexadecimal digit |
| Http.HexValue | src/http.cpp:60 | reading an uppercase hexadecimal digit back inverts `HexDigit` |
| Http.UrlEncoded | src/http.cpp:51-65 | each input byte becomes one to three output bytes |
| Http.UrlEncode | src/http.cpp:51-65 | the loop builds `UrlEncoded(s)`: alphanumerics stay, space becomes '+', every other byte becomes '%' and two uppercase hex digits |
| Http.DecodeEncoded | src/http.cpp:51-65 | decoding the encoding gives the input back |
| Http.DecodeByte | src/http.cpp:53-62 | the escape of one byte decodes to that byte, whatever follows |
| Http.EncodedLength | src/http.cpp:51-65 | output length is #alnum + #space + 3 * #other |
| Http.EncodedAlphabet | src/http.cpp:51-65 | the output holds only alphanumerics, '+' and '%', never '&' or '=' |
| Http.PostedFields | src/http.cpp:67-72 | splitting the new body at '&' gives the old fields plus one; that field splits at '=' into the two encodings, which decode to key and value |
| Http.HttpRequest.AddHeader | src/http.cpp:46-49 | the header's UTF-16 form and CRLF are appended; when the conversion throws, nothing is appended; the body is unchanged |
| Http.HttpRequest.AddData | src/http.cpp:67-72 | post becomes old + ("&" if old non-empty) + urlencode(key) + "=" + urlencode(value); the headers are unchanged |

## Left out

- The Win32 window, rendering, clipboard, hotkeys, tray menu and `checkVersion` (src/main.cpp:230-570) are not modelled. They are operating-system calls.
- Fetching and decoding the catalogue are not modelled. These are the WinHTTP request and `json::parse` in `update` (src/main.cpp:130-134). `ShrineData.Update` receives their outcome: a failed request, a failed decode with whatever tree json::parse left in `effects`, or the decoded tree.
- Shrines.ShrineData.Update: what a failed `json::parse` leaves in `effects` is a parameter, not derived, because json.h is not part of this model.
- The regex engine (regexp.h) is not part of this model:
  - matching against catalogue patterns is the parameter `matches(pattern, line)`;
  - the five fixed patterns are whole-line recognisers;
  - `reJunk.replace` is taken as replace-all.
- json.h is not part of this model. Its accessor behaviour outside arrays and for the wrong type is an assumption (see above).
- The `HttpRequest` constructor, destructor, `send` and `response` (src/http.cpp:5-44, 74-97) are not modelled. They are network calls. `Http.HttpRequest.constructor` only starts with empty headers and body.
- `StdFileBuffer`, the `File(name, mode)` constructor, `File::printf`, `File::copy`, `fmtstring`, the `Exception` constructor and `RefCounted` are not modelled. They are stdio, varargs formatting and atomics.
- The `MemoryFile` wrappers (src/file.cpp:317-335) are not modelled. They only forward to `MemoryBuffer`, which is modelled directly.
- A thrown `Exception` is an `Err` result. `AddHeader` then reports false and appends nothing.
- Integer widths are not modelled:
  - int64 and size_t overflow in seek and read;
  - atoi overflow, and its skipping of leading white space and a sign (no argument here has either);
  - the uint32 truncation of `reserve`'s and `resize`'s argument.
- FileBuffers.MemoryBuffer.constructor: requires `initial > 0` and `grow > 0`. With 0, `reserve` loops for ever.
- FileBuffers.MemoryBuffer.Resize: requires k to be at most the allocation. A larger size lets later reads go past the array.
- FileBuffers.SubFileBuffer.constructor: the inner file is always a `MemFileBuffer`. The window shares it, and aliasing it through another handle is not modelled.
- FileBuffers.SubFileBuffer.Read: the copied bytes are stated only when the count is positive. When the cursor lies beyond the inner buffer the slice would not exist, and the count is then 0.
- `File::getline` and `File::all` are modelled over a `MemFileBuffer` only.
- `read` returns the copied bytes as a sequence rather than writing through a pointer.
- The `clone` flag of `MemFileBuffer` is not modelled: the bytes are always a value.
- The std::map of `match` is a map from effect index to lines. Its in-order iteration is a scan of the indices of the tree in ascending order, and every key of the map is such an index.
- Common.ToLower: bytes >= 0x80 are left unchanged. The source passes a plain `char` to `std::tolower`, and for such a byte read as a negative `char` its behaviour is undefined. `checkReq` applies it to the item's base type (src/main.cpp:185), which is clipboard text.
- Utf.Utf8ToUtf16: the plain `char` read at src/common.cpp:114 is the parameter `signedChar`, and both readings are modelled. The round trip holds for the unsigned reading. The signed one decodes only ASCII.
- These quirks of the source are kept and stated as lemmas, not corrected:
  - overlong UTF-8 forms are accepted (OverlongAccepted);
  - the encoder refuses U+10FFFF (LastCodePoint);
  - a lone final \r makes getline return true for ever (LoneCarriageReturn);
  - a negative sub-file seek target lands on the end (SubTargetRange);
  - `ilvl` stays unset (None) when there is no item-level line.
- The parser uses the corrected `LevelOf`, not `LevelAsWritten` (see Findings).

## Findings

| source | as written | input that shows it | evidently intended | confidence | as-written member | corrected member |
|---|---|---|---|---|---|---|
| src/main.cpp:97 | `ilvl = atoi(sub[1].c_str())`, where sub[1] is the first group of `(Itemlevel\|Item Level): (\d+)`, the label | "Item Level: 68" sets ilvl to 0 | `atoi(sub[2])`, the digit group, giving 68 | medium, not executed: it rests on sub[0] being the whole match, as the other uses at src/main.cpp:57, 69, 78 and 89 require | Patterns.LevelAsWritten | Patterns.LevelOf |
