# beanie INI parser: a Dafny model

This project models the core of beanie, a minimal INI parser written in C, and
proves properties of the model.

- `beanie_parse_buffer` (src/beanie.c) walks a NUL-terminated buffer line by
  line and builds a two-level map from section name to key to value.
  - The global section sits under `"_"` and is current at the start.
  - A `[name]` header installs a fresh empty section under its trimmed name
    and makes it current.
  - A `key=value` line is split at its first `=`. Both sides are trimmed, and
    the pair is stored in the current section.
  - Blank, whitespace-only and `;` comment lines are skipped.
  - A `[` with no `]` on the line, or a non-header line with no `=`, makes the
    whole parse fail.
- `strip_whitespace` (src/utilities.c) returns a fresh copy of a span with
  its leading and trailing whitespace removed.

The project has seven modules:

- `Options`: the `Option` datatype. It stands for "pointer or NULL".
- `Seqs`: small facts about concatenating and slicing sequences.
- `Utilities`: the trim.
  - `Strip` is its functional meaning.
  - `StripWhitespace` is the two-scan method, proved equal to `Strip`.
- `Beanie`: the parser.
  - `Lines` splits the buffer at `\n`.
  - `Classify` says what one line is.
  - `Apply` is the effect of one line on the document and cursor.
  - `Run` folds the lines in order and stops at the first fatal one.
  - `Parse` is the whole parse.
  - `ParseBuffer` is the C loop itself, a cursor over the buffer, proved equal
    to `Parse`.
- `BeanieLaws`: what the parser promises.
  - Runs compose.
  - Blank and comment lines are transparent.
  - A fatal line aborts the parse.
  - The pair and header rules hold in general.
  - The parsed document equals a reference definition that reads the lines
    backwards (`LastWrite`, `HeaderNames`, `CursorAfter`).
- `ParseScenarios`: whole buffers built from known lines, and the document
  each one parses to.
- `AsWritten`: `strip_whitespace` exactly as its two pointer scans are
  written, run on a whole C object. It shows where the parser hands it spans
  on which it returns NULL or reaches undefined behaviour (see Findings).

Modelling choices:

- The section cursor is modelled by the current section's name, not by a
  pointer. The C pointer always designates the map stored under that name,
  because a header stores its fresh map and moves the pointer to it in the
  same step.
- The hash map library is modelled by Dafny's `map`, where an update
  overwrites the old entry. A repeated header therefore replaces the earlier
  section, `[_]` included.
- The input is a C string, so `Parse` requires that the text holds no `'\0'`.
- `isspace` is the C locale's: space, `\t`, `\n`, `\v`, `\f` and `\r`.
- `NextLine` tests whether the character at the cursor is `\n` before it measures the line. That is the C test `ctx_length == 0`: inside the loop the character at the cursor is never the NUL, so the line is empty exactly when it starts with `\n`.

Behaviour of the code worth knowing:

- A header line's text after its first `]` is ignored (`ClassifySplitHeader`).
- The trimmer's forward scan stops only at a non-whitespace character or at
  the NUL, not at `len` (Findings row 1).
- Blank, whitespace-only and comment lines are transparent in the model
  (`BeanieLaws.SkippedLineTransparent`). As written, a whitespace-only line
  followed, anywhere later in the buffer, by a non-whitespace character
  takes the failing path of Findings row 1 (`AsWritten.BlankSpanThenText`).
  One followed only by whitespace is trimmed to `""` as intended
  (`AsWritten.BlankSpanAtEnd`, `AsWritten.BlankLineBeforeBlankEnd`).

## Model

| member | source | states |
|---|---|---|
| Utilities.StripWhitespace | src/utilities.c:14-41 | the forward scan and the backward scan compute `Strip(str[..len])`: the span without its leading and trailing whitespace, never longer than `len` |
| Utilities.LeadingSpace | src/utilities.c:16-19 | the forward scan stops at the first non-whitespace character, after only whitespace |
| Utilities.TrailingSpace | src/utilities.c:29-32 | the backward scan walks over exactly the trailing whitespace and stops at the last non-whitespace character |
| Utilities.Strip | src/utilities.c:14-41 | the trim is never longer than its input, has no whitespace at either end, and is empty exactly when the input is whitespace only |
| Utilities.StripSplit | src/utilities.c:16-37 | a whitespace run, then text with non-whitespace at both ends, then a whitespace run, trims to exactly the middle text |
| Utilities.StripParts | src/utilities.c:16-37 | every string is some whitespace run, then its trim, then some whitespace run, so the trim is a contiguous piece of the input |
| Utilities.StripIdempotent | src/utilities.c:14-41 | trimming twice is trimming once |
| Utilities.StripFixedPoint | src/utilities.c:14-41 | a string comes back unchanged exactly when it has no whitespace at either end |
| Utilities.StripIgnoresEdgeSpace | src/utilities.c:16-32 | whitespace added at either end of a span does not change its trim |
| Beanie.Lines | src/beanie.c:49-59 | splitting a buffer at `\n` always yields at least one line |
| Beanie.LinesSplitAtEveryNewline | src/beanie.c:52-53 | no line holds a `\n`: the line length scan stops at every newline |
| Beanie.JoinLines | src/beanie.c:49-157 | joining the lines with `\n` gives back the whole buffer, so no character is lost or processed twice |
| Beanie.LinesOfLine | src/beanie.c:53 | text with no `\n` is a single line, including the last line of a buffer that does not end in `\n` |
| Beanie.LinesConcat | src/beanie.c:53-59 | the lines of `a + "\n" + b` are the lines of `a` followed by those of `b` |
| Beanie.LinesJoin | src/beanie.c:49-59 | lines without `\n` joined by `\n` split back into the same lines |
| Beanie.Find | src/beanie.c:87-88 | the index found is the first occurrence of the character at or after the start, and None means there is none |
| Beanie.ClassifyMeaning | src/beanie.c:63-151 | a line is blank iff it is all whitespace; a comment iff its trim starts with `;`; unterminated iff its trim starts with `[` and has no later `]`; without separator iff its trim starts with neither and has no `=`; a header's name is the trim of the text before the first `]`; a pair's key and value are the trims of the text before and after the first `=` |
| Beanie.Apply | src/beanie.c:76-152 | the effect of a line fails exactly for the two fatal kinds, an unterminated header and a line without `=`, and otherwise keeps the global section and the cursor's section present |
| Beanie.ApplyEffect | src/beanie.c:76-143 | blank and comment lines change nothing. A header adds its name with an empty section, moves the cursor to it and leaves every other section alone. A pair sets the key in the current section only, leaving every other key and section alone |
| Beanie.Step | src/beanie.c:64-152 | a processed line keeps the global section and the cursor's section present |
| Beanie.Run | src/beanie.c:50-157 | the fold keeps the global section and the cursor valid and never removes a section |
| Beanie.RunFails | src/beanie.c:116-151 | a run fails exactly when one of its lines is an unterminated header or has no separator |
| Beanie.Parse | src/beanie.c:29-47 | a successful parse always holds the global section `"_"` |
| Beanie.ParseFails | src/beanie.c:116-151 | the parse fails exactly when some line of the buffer is fatal; no other failure exists in the model |
| Beanie.ParseBuffer | src/beanie.c:49-159 | the cursor loop over the buffer computes exactly `Parse`: it skips single `\n`s, processes each line up to the next `\n` or the end, and stops with NULL at the first fatal line |
| Beanie.NextLine | src/beanie.c:50-157 | one turn of the loop moves the cursor forward by at least one character and stays in the buffer. Continuing the run from the new position, or stopping with NULL, gives what the run from the old position gives |
| Beanie.SkipLine | src/beanie.c:55-59 | at a `\n` the loop moves one character on and leaves the state alone, which does not change the outcome |
| Beanie.ProcessLine | src/beanie.c:63-155 | a nonempty line up to the next `\n` or the end is processed as one step, the cursor jumps to its end, and the outcome of the run is kept |
| Beanie.SkipAt | src/beanie.c:55-59 | the run from a `\n` at the cursor equals the run from the character after it |
| Beanie.AtEnd | src/beanie.c:50 | at the terminator the loop ends and the state reached is the result |
| Beanie.LineLength | src/beanie.c:52-53 | the measured line holds no `\n` and ends at a `\n` or the end of the buffer |
| Beanie.RunBlank | src/beanie.c:55-59 | an empty line changes nothing |
| Beanie.SkipNewline | src/beanie.c:55-59 | stepping over a `\n` at the cursor does not change the outcome |
| Beanie.LineAt | src/beanie.c:63-155 | processing the line at the cursor and jumping to its end continues the run, or fails the whole run |
| Beanie.LineThenRest | src/beanie.c:63-155 | a line followed by `\n` or the end of the buffer is processed before the rest |
| Beanie.LastLine | src/beanie.c:50-53 | a last line with no `\n` after it is processed like any other |
| BeanieLaws.RunAppend | src/beanie.c:50-157 | running two blocks of lines is running the first, then the second from where it stopped: one pass, no lookahead |
| BeanieLaws.ScanConcat | src/beanie.c:50-157 | the text before a `\n` is parsed first, and the text after it continues from that state |
| BeanieLaws.LinesAround | src/beanie.c:53 | a line without `\n` between two newlines is one line of the buffer |
| BeanieLaws.SkippedLineTransparent | src/beanie.c:55-81 | removing a blank, whitespace-only or comment line from between two parts of a buffer does not change the parse |
| BeanieLaws.SkippedFirstLineTransparent | src/beanie.c:55-81 | the same for a skipped first line |
| BeanieLaws.BlankLinesSkipped | src/beanie.c:55-59 | a run of `\n` parses like a single `\n` |
| BeanieLaws.TrailingNewlineIrrelevant | src/beanie.c:50-59 | a final `\n` changes nothing: a last line needs no terminator |
| BeanieLaws.ClassifyIgnoresEdgeSpace | src/beanie.c:64 | leading and trailing whitespace of a raw line, such as a `\r` before the `\n`, does not change what the line is |
| BeanieLaws.FatalLineAborts | src/beanie.c:116-151 | one fatal line anywhere makes the whole parse None, whatever surrounds it |
| BeanieLaws.PairLineRoundTrip | src/beanie.c:127-143 | the line `key=value` gives back key and value for a trimmed key with no `=` that starts with neither `;` nor `[`, and any trimmed value, `=` included |
| BeanieLaws.PairLineShape | src/beanie.c:129-130 | the line `key=value` has its first `=` right after the key |
| BeanieLaws.ClassifySplitPair | src/beanie.c:127-143 | for any text `a` without `=` whose trim starts with neither `;` nor `[`, and any `b`, the line `a=b` is the pair (trim of `a`, trim of `b`) |
| BeanieLaws.KeySide | src/beanie.c:131 | the text before the first `=` is leading whitespace, then a part that trims to the key |
| BeanieLaws.ValueSide | src/beanie.c:132 | the text after the `=` is a part that trims to the value, then trailing whitespace |
| BeanieLaws.PairCore | src/beanie.c:129-132 | a trimmed `k=v` has its first `=` right after `k`, with `k` before it and `v` after it |
| BeanieLaws.FindFirst | src/beanie.c:129-130 | a match with no earlier match is what the scan finds |
| BeanieLaws.HeaderLineRoundTrip | src/beanie.c:84-112 | `[name]` followed by text that does not end in whitespace gives back the trimmed name |
| BeanieLaws.ClassifySplitHeader | src/beanie.c:84-112 | after leading whitespace, `[`, text without `]`, `]` and anything at all is the header named by the trim of that text; the rest of the line is ignored |
| BeanieLaws.HeaderCore | src/beanie.c:87-89 | the trimmed header line has its first `]` right after the name text |
| BeanieLaws.RunSnoc | src/beanie.c:50-157 | a run is the run of all lines but the last, then one more step |
| BeanieLaws.RunMatchesReference | src/beanie.c:47-157 | after a successful run, the cursor is the last header, else `"_"`. The sections are `"_"` and every header's name. Every lookup equals the last write of that key while its section was current and after its last header |
| BeanieLaws.StepMatchesReference | src/beanie.c:76-152 | one more line keeps the state equal to the reference definition |
| BeanieLaws.ParseMatchesReference | src/beanie.c:21-160 | the parsed document's sections are `"_"` and the headers' names, and each lookup is the last write that a later header of the same name did not wipe |
| BeanieLaws.NoHeaderAllGlobal | src/beanie.c:47 | without headers the cursor stays on `"_"` and the last pair for a key is its value there |
| BeanieLaws.ParseWithoutHeaders | src/beanie.c:24-47 | a buffer with no header parses to the global section alone, holding the last value of each key |
| ParseScenarios.PairLineIsLine | src/beanie.c:127-143 | a well-formed `k=v` line is a single plain line that is the pair `(k, v)` |
| ParseScenarios.HeaderLineIsLine | src/beanie.c:84-112 | a well-formed `[n]` line is a single plain line that is the header `n` |
| ParseScenarios.ParseJoin | src/beanie.c:49-159 | parsing the join of plain lines runs exactly those lines |
| ParseScenarios.JoinNoNul | src/beanie.c:18-19 | joining lines free of NUL gives a valid C string content |
| ParseScenarios.LastWriteWins | src/beanie.c:134 | `k=v1` then `k=v2` parses to the global section holding `k = v2` only |
| ParseScenarios.TwoPairs | src/beanie.c:134 | two pairs for one key leave the second value |
| ParseScenarios.SectionsIsolated | src/beanie.c:100-134 | `[s1]`, `k=v1`, `[s2]`, `k=v2` parses to an empty global section, `s1` holding `k = v1` and `s2` holding `k = v2` |
| ParseScenarios.TwoSections | src/beanie.c:100-134 | the run of those four lines ends with `s1` holding `k = v1`, `s2` holding `k = v2`, an empty global section and the cursor on `s2` |
| ParseScenarios.PaddedPair | src/beanie.c:131-132 | whitespace around the key, around `=` and around the value is dropped, and whitespace inside the value is kept: `"  key   =   value with spaces  "` is `("key", "value with spaces")` |
| AsWritten.ForwardScan | src/utilities.c:16-19 | the forward scan stops at the first non-whitespace character at or after the start, the NUL at the latest, whatever the span length |
| AsWritten.BackwardScan | src/utilities.c:29-32 | the backward scan stops at the last non-whitespace character at or below its start, or reads outside the object |
| AsWritten.StripAsWritten | src/utilities.c:14-41 | what the C scans copy is free of whitespace at both ends; a negative allocation size gives NULL, and a read outside the object or a zero-size allocation gives undefined behaviour |
| AsWritten.AsWrittenAgrees | src/utilities.c:14-41 | on a span holding a non-whitespace character, the C function computes the intended trim |
| AsWritten.StripIsSlice | src/utilities.c:34-37 | on a span with a non-whitespace character, the trim is the contiguous copy from the first to the last such character |
| AsWritten.ForwardInSpan | src/utilities.c:16-19 | on such a span the C forward scan stops inside the span, at the same place as the intended scan |
| AsWritten.BackwardInSpan | src/utilities.c:29-32 | on such a span the C backward scan stops inside the span, after the forward scan's stop, at the same place as the intended scan |
| AsWritten.ForwardScanStops | src/utilities.c:17-19 | the forward scan stops at the first non-whitespace character |
| AsWritten.BackwardScanStops | src/utilities.c:30-32 | the backward scan stops at the last non-whitespace character at or below its start |
| AsWritten.BlankSpanThenText | src/utilities.c:17-37 | a nonempty whitespace-only span with non-whitespace text later in the object never gives a copy, though its intended trim is `""`: the C returns NULL or reaches undefined behaviour |
| AsWritten.BlankSpanAtEnd | src/utilities.c:21-27 | a whitespace-only span with only whitespace after it gives the intended `""` |
| AsWritten.AsWrittenCorrectIff | src/utilities.c:14-41 | on a nonempty span, the C function computes the intended trim exactly when the span is not whitespace only with text after it |
| AsWritten.BlankLineBetweenLines | src/beanie.c:64 | the C trim of the line `"   "` of `"[s]\n   \n[t]"` returns NULL: its allocation size is -4 |
| AsWritten.BlankLineBeforeBlankEnd | src/utilities.c:17-26 | the line `"  "` of `"k=v\n  \n  "`, followed only by whitespace, is trimmed to `""` by the C code as intended |
| AsWritten.BlankHeaderName | src/beanie.c:89 | the C trim of the name span of `"[ ]"` is undefined behaviour: its allocation size is 0 and `memcpy` is given the length -1 |
| AsWritten.EmptyKeyAsWritten | src/beanie.c:131 | the empty key span of a line starting with `=` reads before the object, though its intended trim is `""` |
| AsWritten.EmptyKeyLine | src/beanie.c:131 | the key of `"=v"` is undefined behaviour |
| AsWritten.ValueOverread | src/beanie.c:132 | with a nonempty value, the backward scan of the value starts past the terminator of the line copy |
| AsWritten.ValueOverreadLine | src/beanie.c:132 | the value of `"k=v"` reads index 4 of the 4-byte copy |
| AsWritten.ValueSpanCorrected | src/beanie.c:132 | with the corrected span length, the same C scans give the trim of everything after the first `=` |

## Left out

- `beanie_parse_file` (src/beanie.c:165-200) is not modelled. It opens a file and reads it into a buffer, which is I/O; it then calls the modelled `beanie_parse_buffer`.
- `beanie_parse_stream` (src/beanie.c:206) has an empty body and is not modelled.
- src/include/beanie.h is not modelled. It only declares the API and the `BeanieMap` type.
- The bhashmap library is not part of this model. Its create, set and destroy are modelled by Dafny's `map` with overwrite.
- Allocation failure is not modelled. A failed map creation or insertion makes the C return NULL (src/beanie.c:29-45, 92-107, 134-140). A NULL from `strip_whitespace` is passed unchecked to `strlen` (src/beanie.c:65, 102, 134). The model assumes every allocation of a real size succeeds; only the wrapped sizes of Findings row 1 give `AsWritten.Null`.
- Memory is not modelled: `free`, and the leaks on the error paths and of replaced sections.
- Locale-dependent `isspace` is not modelled; the C locale's six whitespace characters are fixed.
- Byte signedness is not modelled. A Dafny `char` stands for one C `char` byte, and every byte outside the six whitespace characters counts as non-whitespace. The C passes a possibly negative `char` to `isspace` (src/utilities.c:17, 30), which ISO C leaves undefined for bytes above 127.
- Beanie.Parse: requires the text to hold no `'\0'`. A C string ends at its first NUL, so any text after it is never seen.
- Beanie.Classify: has no `ensures` of its own. Its meaning is stated in `Beanie.ClassifyMeaning`, `BeanieLaws.ClassifySplitPair` and `BeanieLaws.ClassifySplitHeader`.
- Utilities.StripWhitespace: models the trim the C function is documented to compute over `str[0..len)`. Its out-of-bounds scans are in module `AsWritten`, and the parser model uses the intended trim.
- ParseScenarios.SectionsIsolated: requires the two section names to differ and to differ from `"_"`.
- ParseScenarios.TwoSections: has the same requirement on the two section names as `SectionsIsolated`. `Beanie.Apply` covers repeated names: a later header replaces the earlier section.

## Findings

| source | as written | input that shows it | evidently intended | confidence | as-written member | corrected member |
|---|---|---|---|---|---|---|
| src/utilities.c:17-19 | the forward scan ignores `len` and runs past a whitespace-only span; the backward scan then ends below the forward scan's stop, so the allocation size `end - start + 2` (src/utilities.c:34) is zero or negative, or it reads before the start of the object. Below zero the size wraps, `malloc` fails, and the NULL reaches `strlen` (src/beanie.c:65, 102). At exactly zero, `malloc(0)` either returns NULL, which reaches `strlen` at src/beanie.c:102, or returns a pointer and `memcpy` copies SIZE_MAX bytes (src/utilities.c:37) | the line `"   "` in `"[s]\n   \n[t]"` (src/beanie.c:64); the name of `"[ ]"` (src/beanie.c:89) | a whitespace-only span trims to `""`, so the line is skipped and the header names the section `""` | not executed | AsWritten.BlankSpanThenText | Utilities.StripWhitespace |
| src/utilities.c:29 | the backward scan starts at `str + len - 1` even when `len` is 0, reading the byte before the line copy | the key span of `"=v"` (src/beanie.c:131) | an empty span trims to `""`, giving the pair with empty key `("", "v")` | not executed | AsWritten.EmptyKeyAsWritten | BeanieLaws.ClassifySplitPair |
| src/beanie.c:132 | the value span length `current_line_length - i + 1` is two characters too long, so the backward scan starts one past the terminator of the line copy | `"k=v"`: the scan reads index 4 of the 4-byte copy `"k=v\0"` | the span length `current_line_length - i - 1`, covering exactly the characters after the `=` | not executed | AsWritten.ValueOverread | AsWritten.ValueSpanCorrected |
