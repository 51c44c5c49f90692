# Text algorithms and packed registers of the firmware libraries

A Dafny 4.11 model, with proofs, of six pieces of the C and C++ code under `libs/`:

- the streaming multi-target search and the integer parser of Arduino's `Stream` (`Borders`, `Stream`, `IntegerText`);
- the heap `String` class with its in-place edits and its three ways of replacing
  (`Occurrences`, `Replacement`, `WString`, `Spaces`, `StringRuns`);
- the radix converters `ltoa`/`ultoa` and `Print::print` (`Numeral`, `Itoa`, `Print`);
- the tinyprintf engine (`PrintfText`, `Printf`, `PrintfGrammar`, `PrintfPlain`, `PrintfIso`, `PrintfHash`,
  `PrintfConformance`, `Ftoa`, `PrintfFixed`);
- the packed interrupt-priority registers of the Cortex-M0 (`Nvic`);
- round trips between them (`RoundTrips`).

`Machine` holds the machine types and small sequence functions. Classes and methods follow the source's loops and
in-place updates; each is specified by a function or predicate on values, and the lemmas are about those.

Main results:

- **Search.** `findMulti` takes exactly the shortest prefix of the stream that ends with a target and reports the
  lowest-numbered one, for all streams and target tables, empty targets included. Every index is at all times the
  length of the longest proper prefix the stream ends with. A search that timed out can be resumed: the next call finds
  what one call on the joined input would have found.
- **Replacing.** A replacement that does not grow the text is the greedy left-to-right one, always. A growing one
  scans from the right, and is the greedy one on every text **if and only if** `find` is unbordered and no proper
  suffix of `find` begins `replace` (`Replacement.GrowingRightIffClean`); "aa" in "aaa" by "bbb" is a text where it is not.
- **Overrun.** The room for a growing replacement is counted from the left. The scan from the right never needs more
  on any text **if and only if** no proper suffix of `find` begins `replace`, whatever its borders
  (`Replacement.FitsIffClashFree`); "ab" in "aab" by "bab" needs five characters where four are counted. For a single
  call `WString.String.Replace` says exactly when it writes past its block: when the result of the scan is longer than
  both the old capacity and the counted result. `remove` leaves the block exactly when `index + count` wraps.
- **String runs.** Any sequence of `reserve`, assignments, appends, `trim`, both forms of `remove` and both of `replace`
  keeps the representation, and does to the text what an abstract machine does; the machine is deterministic once it is
  known which operations were refused memory. What a caller has to see to is `StringRuns.Allowed`.
- **Parsing.** What `parseInt` reports and takes is given for every stream, lookahead mode and ignored byte in terms of
  bytes written out (`IntegerText.ParsesRun`, `ParsesNothing`). It undoes the decimal printers **exactly** for
  |n| <= 2^31 - 1 - 48 and overflows for the other n: in `value * 10 + c - '0'` the '0' is subtracted last.
- **printf.** For every format and every bound the buffer is a bounded copy of one text that does not depend on the
  bound (ISO C11, section 7.21.6.5). A format written from the grammar of section 7.21.6.1 prints what its pieces mean;
  `PrintfPlain` says for each plain specifier, such as "%x" or "%lld", what it prints for every argument.
- **Conformance.** An integer directive, with any flags, prints what that section asks for **if and only if**
  `PrintfConformance.Conforms` holds (`DirectiveIsoIffConforms`; base 2 is an extension), and a format of characters
  and conforming integer directives prints the standard's text. What fails:
  - a negative argument of `%hhd` or `%hhi`, because `char` is unsigned here;
  - a negative `*` precision, which counts as 0 instead of as absent, with a zero or where the '0' flag would fill;
  - '-' with a precision that needs zeros, precisions and zero-padded fields that the 32-byte scratch buffer does not
    hold, and numerals of more than 32 digits;
  - with '#': without a precision as many digits as the field is wide; no room for the prefix, octal precisions of more than the digits
    (except 32, and with '-' up to one more), an octal zero with precision 0, and zero padding that is wider than 32,
    exactly one wider than the digits in base 16, or at least two wider in base 2 (`PrintfHash.HashFollows`).
- **Fixed point.** The digit emission of `_ftoa` prints whole part, point and fraction **if and only if** the fraction
  is below 10^p, p being the precision up to nine, and the whole text has at most 32 characters. Rounding half-way
  cases can produce 10^p itself; the place counter then wraps, and the output is zeros without a point. A longer text
  loses its front: "%.31f" of 5.0 prints no 5. With its sign and field it is what the standard asks for **if and only
  if** text and sign fit those 32 characters and the field is not zero-padded beyond them (`PrintfFixed.FixedPointIsoIff`).
- **Priorities.** The packed words are a map from interrupt to priority, and encode, set, get, decode gives back both
  fields modulo their sizes. In the register's lane the bits above `group & 7` are those of the preemption priority and
  the implemented ones up to it those of the subpriority, bit by bit (`Nvic.BinaryPoint`).

## Conventions

The target is ARM: `int`, `long` and pointers have 32 bits, `char` is an unsigned byte. A `Stream` is a finite byte
sequence after which every read times out; the clock is abstracted. A `Print` sink accepts a given number of bytes and
then refuses. `realloc` may fail at any call; a ghost counter in each string says how often it did. No heap block
exceeds 2^31 - 1 bytes. `strstr`, `strcpy`, `memcpy` and `memmove` are given by their effect; copies to a lower address
in the same buffer go byte by byte, which is what the source's overlapping `memcpy` in `trim` and `replace` relies on.
Negating the smallest `long` (`itoa.c:96`, `Print.cpp:86`, `printf.c:732`) is undefined in C and modelled as wrapping.
A NUL-terminated string argument is the sequence before its NUL.

Where code and documentation differ the code is followed: the integer directives of tinyprintf that differ from the
standard are exactly those that `PrintfConformance.Conforms` excludes, and a string directive differs exactly if a
negative `*` precision makes it lose more than spaces (`PrintfConformance.StringIsoIff`).

## Model

| member | source | states |
|---|---|---|
| Numeral.ValueOfDigits | libs/arduino/arduino/itoa.c:103-110 | the digits split off by repeated division denote the value they came from |
| Numeral.DigitsOfValue | libs/arduino/arduino/itoa.c:103-110 | every digit sequence without superfluous leading zero is the numeral of its value, so numerals are injective for each base |
| Numeral.DigitsCount | libs/arduino/arduino/itoa.c:76-110 | a numeral has at most k digits if and only if the value is below base^k |
| Numeral.SplitDigit | libs/tinyprintf/printf.c:293-297 | after k divisions the value left is that of all but the last k digits, and it is zero exactly when none is left |
| Numeral.DecodeText | libs/arduino/arduino/itoa.c:103-119 | in bases 2 to 36 the text, in either letter case, decodes to its value |
| Numeral.UpperIsUpperText | libs/arduino/arduino/Print.cpp:207-208 | the converters' texts differ in letter case alone |
| Numeral.TextSpelled | libs/arduino/arduino/itoa.c:106-109 | the characters are those of "0123456789abc...", or of the upper-case alphabet |
| Numeral.LetterCase | libs/arduino/arduino/itoa.c:106-109 | no letter of the other case appears |
| Itoa.FillDigits | libs/arduino/arduino/itoa.c:103-110 | at most 32 of the 33 temporary bytes are used, and read backwards they are the numeral |
| Itoa.CopyBack | libs/arduino/arduino/itoa.c:113-119 | the reversed temporary and a NUL are written and no other byte of the caller's buffer changes |
| Itoa.Ltoa | libs/arduino/arduino/itoa.c:74-122 | null or a radix outside 2..36 fails without a write; otherwise signed decimal, or the value modulo 2^32, NUL-terminated, nothing else changed |
| Itoa.Ultoa | libs/arduino/arduino/itoa.c:129-165 | the same for unsigned values |
| Itoa.LongRoundTrip | libs/arduino/arduino/itoa.c:74-122 | the text decodes to the value and has no superfluous leading zero |
| Itoa.LongTextInjective | libs/arduino/arduino/itoa.c:74-122 | for each radix the text determines the value |
| Itoa.CallerBuffersFit | libs/arduino/arduino/WString.cpp:70-108 | text and NUL fit the buffers of all numeric constructors for radix 2..36 and of the decimal concat overloads (lines 290-323) |
| Print.Sink.Write | libs/arduino/arduino/Print.cpp:34-42 | the device gets, in order, as many bytes as it accepts, and their number is returned |
| Print.Sink.WriteString | libs/arduino/arduino/Print.h:59-62 | the same for the bytes before the first NUL |
| Print.Sink.BackwardDigits | libs/arduino/arduino/Print.cpp:195-209 | the backward filling stays in the 33-byte buffer and leaves the upper-case numeral and a NUL at its end |
| Print.Sink.PrintNumber | libs/arduino/arduino/Print.cpp:195-212 | sends the numeral (base 10 for base 0 and 1), returns the number of accepted bytes |
| Print.Sink.PrintLong | libs/arduino/arduino/Print.cpp:79-93 | raw byte for base 0, sign only in base 10, base cut to eight bits otherwise; counts sign and digits as far as accepted |
| Print.Sink.PrintLLNumber | libs/arduino/arduino/Print.cpp:290-309 | 64-bit numerals in every base from 2 on, never past the 64-byte digit buffer |
| Print.Sink.PrintLongLong | libs/arduino/arduino/Print.cpp:267-276 | here the sign is printed in every base |
| Print.NumberTextIsNumeral | libs/arduino/arduino/Print.cpp:195-212 | in bases 2..36 what is sent is the upper-cased text of ultoa |
| Print.PrintsUpperLtoa | libs/arduino/arduino/Print.cpp:79-93 | print(n, base) sends the upper-cased text of ltoa(n, base) |
| Print.DecimalIsLtoa | libs/arduino/arduino/Print.cpp:82-89 | print(n, 10) sends exactly the text of ltoa(n, 10) |
| Print.SpecialBases | libs/arduino/arduino/Print.cpp:79-93 | base 0 sends the low byte, other bases are cut to eight bits, and what is then 0 or 1 means an unsigned decimal |
| Print.LongLongDecodes | libs/arduino/arduino/Print.cpp:267-309 | the 64-bit text decodes to the signed value, bases 0 and 1 being taken for 2 |
| Borders.StepMatch | libs/arduino/arduino/Stream.cpp:270-276 | a matching byte makes the longest matched prefix longer by one, or completes the target |
| Borders.StepBorder | libs/arduino/arduino/Stream.cpp:288-311 | the comparison in the walk back holds at i exactly if the stream now ends with the prefix of length i + 1 |
| Borders.StepLands | libs/arduino/arduino/Stream.cpp:306-311 | the first index that passes is the longest proper prefix the stream ends with |
| Borders.TracksUnique | libs/arduino/arduino/Stream.cpp:264-316 | there is only one index the invariant allows |
| Stream.ByteStream.TimedRead | libs/arduino/arduino/Stream.cpp:31-40 | takes the next byte, or reports -1 once the input is used up |
| Stream.ByteStream.Compare | libs/arduino/arduino/Stream.cpp:299-308 | says whether the matched stretch overlaps itself at the given distance |
| Stream.ByteStream.WalkBack | libs/arduino/arduino/Stream.cpp:285-314 | after a mismatch the index becomes the longest proper prefix that the stream with the new byte ends with; it never exceeds the old one |
| Stream.ByteStream.Offer | libs/arduino/arduino/Stream.cpp:269-315 | a target is completed by a byte if and only if the stream then ends with it; otherwise its index is right again |
| Stream.ByteStream.OfferAll | libs/arduino/arduino/Stream.cpp:269-315 | the first completed target is reported, targets before it are up to date, targets after it untouched |
| Stream.ByteStream.FindMulti | libs/arduino/arduino/Stream.cpp:256-319 | takes exactly the shortest prefix ending with a target and returns the lowest such target, or -1 and everything; and the table it leaves |
| Stream.OutcomeUnique | libs/arduino/arduino/Stream.cpp:256-319 | stream and targets determine bytes taken and result |
| Stream.OutcomeResumes | libs/arduino/arduino/Stream.cpp:256-319 | a search continued after a timeout reports what a single search of the joined input reports |
| Stream.TimeoutIffAbsent | libs/arduino/arduino/Stream.cpp:256-319 | a fresh search times out if and only if no target occurs anywhere in the input |
| Stream.ByteStream.FindUntil | libs/arduino/arduino/Stream.cpp:114-123 | true if and only if the target's first end is no later than the terminator's; otherwise the terminator ended first, or neither ends anywhere and the input is used up; the stream is left right after the first end that decides |
| Stream.ByteStream.PeekNextDigit | libs/arduino/arduino/Stream.cpp:56-82 | takes the maximal run the lookahead mode allows to skip and shows the byte after it if that is '-', a digit, or with detectDecimal '.' |
| Stream.ByteStream.ReadNumber | libs/arduino/arduino/Stream.cpp:141-155 | takes the maximal run of digits and ignored bytes and returns the number it denotes, or overflows if that is too large |
| Stream.ByteStream.ParseInt | libs/arduino/arduino/Stream.cpp:130-156 | zero if no number starts, else the denoted number exactly if it is at most 2^31 - 1 - 48, and what is taken |
| IntegerText.SkipNoneTakesNothing | libs/arduino/arduino/Stream.cpp:68 | without lookahead nothing is taken before a number |
| IntegerText.SkipWhitespaceTakesBlanks | libs/arduino/arduino/Stream.cpp:69-76 | with white space lookahead exactly the bytes 32, 9, 13 and 10 in front are taken |
| IntegerText.SkipAllTakesToStop | libs/arduino/arduino/Stream.cpp:77-80 | with full lookahead everything is taken up to '-', a digit, '.' where that counts, or the end |
| IntegerText.ParsesRun | libs/arduino/arduino/Stream.cpp:130-156 | passable bytes, a run, something else: the kept digits of the run are decoded, with the sign of a '-' that is not ignored, if at most 2147483599, up to the end of the run |
| IntegerText.ParsesNothing | libs/arduino/arduino/Stream.cpp:135-139 | 0 if neither a number nor a passable byte follows the passable ones, which alone are taken |
| IntegerText.ParsesSkipAll | libs/arduino/arduino/Stream.cpp:130-156 | with full lookahead a stream without '-' and digit is used up, and only an empty one is left as it is |
| IntegerText.ParsesUnique | libs/arduino/arduino/Stream.cpp:130-156 | the stream determines the result and the bytes taken |
| IntegerText.NumberGrows | libs/arduino/arduino/Stream.cpp:147 | the number of a longer run is not smaller, so an overflow is never undone |
| IntegerText.OverflowIsUndefined | libs/arduino/arduino/Stream.cpp:141-151 | a prefix of the run that overflows means that the whole run does |
| IntegerText.TextDenotes | libs/arduino/arduino/Stream.cpp:141-151 | a text of ltoa in radix 10 denotes the magnitude of its value and begins with '-' exactly for negative ones |
| IntegerText.ParsesPrinted | libs/arduino/arduino/Stream.cpp:130-156 | printed decimals parse back for all n up to the bound in magnitude and are undefined beyond it, whatever is skipped before and follows after |
| RoundTrips.ThreeConverters | libs/tinyprintf/printf.c:281-301 | ultoa, printNumber and _ntoa_long produce one text up to letter case, which decodes to n |
| RoundTrips.PrintThenParse | libs/arduino/arduino/Stream.cpp:130-156 | what print wrote into a stream is parsed back to n, leaving exactly what follows, or overflows |
| Occurrences.Find | libs/arduino/arduino/WString.cpp:652 | the effect of strstr: an occurrence with none before it, or -1 and none at all |
| Occurrences.LastAt | libs/arduino/arduino/WString.cpp:603-614 | an occurrence at or before the bound with none between it and the bound, or -1 and none at all |
| Replacement.ReplaceAllJoins | libs/arduino/arduino/WString.cpp:645-667 | greedy replacement cuts the text at the greedy occurrences of find and joins the parts with replace |
| Replacement.GreedyPartsUnique | libs/arduino/arduino/WString.cpp:645-667 | that cut is the only one |
| Replacement.ReplaceAllGrows | libs/arduino/arduino/WString.cpp:669-674 | a growing replacement keeps the length only if find does not occur |
| Replacement.ReplaceBackLocal | libs/arduino/arduino/WString.cpp:676-684 | without a clash the scan from the right is not disturbed by what it has already rewritten |
| Replacement.ReplaceAllLast | libs/arduino/arduino/WString.cpp:669-684 | with an unbordered find the left-to-right replacement also uses the last occurrence |
| Replacement.CleanScansAgree | libs/arduino/arduino/WString.cpp:669-684 | under the condition the scan from the right gives the left-to-right replacement on every text |
| Replacement.UncleanWitness | libs/arduino/arduino/WString.cpp:669-684 | without it a text made of two overlapping copies of find is replaced differently |
| Replacement.GrowingRightIffClean | libs/arduino/arduino/WString.cpp:669-684 | the scan from the right is right for all texts if and only if find is unbordered and no proper suffix of it begins replace |
| Replacement.GrowingCounterexample | libs/arduino/arduino/WString.cpp:676-684 | "aa" in "aaa" by "bbb" |
| Replacement.ClashOverruns | libs/arduino/arduino/WString.cpp:669-684 | with a clash a text made of two overlapping copies of find becomes longer than what was counted |
| Replacement.ClashFreeFits | libs/arduino/arduino/WString.cpp:669-684 | without one the scan from the right makes no text longer than what was counted |
| Replacement.FitsIffClashFree | libs/arduino/arduino/WString.cpp:669-684 | the counted size suffices for all texts if and only if no proper suffix of find begins replace |
| Replacement.OverrunCounterexample | libs/arduino/arduino/WString.cpp:676-684 | "ab" in "aab" by "bab" |
| WString.Realloc | libs/arduino/arduino/WString.cpp:159 | fails, or gives a block of the size with the old contents as far as it reaches |
| WString.CopyDown | libs/arduino/arduino/WString.cpp:660-667 | an overlapping copy to a lower address moves the old bytes and changes nothing else |
| WString.String.FromText | libs/arduino/arduino/WString.cpp:30-34 | the new string holds the text, or is invalid because memory was refused |
| WString.String.ChangeBuffer | libs/arduino/arduino/WString.cpp:157-166 | a new block with the old bytes, or no change |
| WString.String.Reserve | libs/arduino/arduino/WString.cpp:147-155 | room for size characters with the text kept, or no change at all; an invalid string becomes a valid empty one |
| WString.String.Copy | libs/arduino/arduino/WString.cpp:172-181 | the text is assigned, or the string is invalid and empty because memory was refused |
| WString.String.Assign | libs/arduino/arduino/WString.cpp:216-224 | the other string's text, or invalid; self-assignment changes nothing; the other string is unchanged |
| WString.String.AssignText | libs/arduino/arduino/WString.cpp:240-246 | the same from a C string; a null pointer invalidates |
| WString.String.Concat | libs/arduino/arduino/WString.cpp:265-274 | appends, or fails and leaves everything as it was; it fails only for a null pointer or refused memory |
| WString.String.ConcatString | libs/arduino/arduino/WString.cpp:260-263 | the same for another string, which must be valid to be appended |
| WString.String.ConcatChar | libs/arduino/arduino/WString.cpp:282-288 | after an append the representation is intact if and only if the character is not NUL |
| WString.String.LastIndexOf | libs/arduino/arduino/WString.cpp:603-614 | the last occurrence at or before the clamped bound, overlapping ones included; -1 if there is none or the argument is empty |
| WString.String.LastIn | libs/arduino/arduino/WString.cpp:606-613 | the loop of advancing searches terminates and finds the last occurrence |
| WString.String.Substring | libs/arduino/arduino/WString.cpp:616-631 | the slice between clamped bounds in either order, which is the C string that the lent NUL ends, in a string of its own; the receiver is unchanged afterwards |
| WString.String.Remove | libs/arduino/arduino/WString.cpp:694-702 | the text without count characters at index, clamped at the end; it leaves the block if and only if index + count wraps 32 bits |
| WString.String.RemoveFrom | libs/arduino/arduino/WString.cpp:688-692 | the text before index |
| WString.RemoveWraps | libs/arduino/arduino/WString.cpp:694-699 | the new length is the right one if and only if index + count does not wrap |
| WString.CutRemovesMiddle | libs/arduino/arduino/WString.cpp:694-702 | of three parts the middle goes, and too large a count removes to the end |
| WString.SliceIsMiddle | libs/arduino/arduino/WString.cpp:616-631 | a slice of three parts is the middle, its bounds in either order and clamped |
| WString.SubstitutedAt | libs/arduino/arduino/WString.cpp:637-643 | position by position find becomes replace and the rest stays |
| WString.String.Trim | libs/arduino/arduino/WString.cpp:720-730 | the text without white space around it |
| Spaces.TrimmedUnique | libs/arduino/arduino/WString.cpp:720-730 | of which there is only one |
| WString.String.ReplaceChar | libs/arduino/arduino/WString.cpp:637-643 | every occurrence of the character is substituted; the representation stays intact if and only if no NUL comes in |
| WString.String.Replace | libs/arduino/arduino/WString.cpp:645-686 | in all three regimes: the intended text, the old one when memory was refused, or what the scan from the right makes of it, with the capacity; it leaves the block if and only if that is longer than old capacity and intended text, never without a clash |
| WString.String.ReplaceSame | libs/arduino/arduino/WString.cpp:651-655 | equal lengths: the greedy replacement in place |
| WString.String.ShorteningPass | libs/arduino/arduino/WString.cpp:656-666 | the write position never passes the read position, unread bytes keep their values, len keeps step |
| WString.String.ReplaceShorter | libs/arduino/arduino/WString.cpp:656-667 | shrinking: the greedy replacement, terminated |
| WString.String.CountedSize | libs/arduino/arduino/WString.cpp:669-673 | the forward count is the length of the intended text |
| WString.String.ScanBack | libs/arduino/arduino/WString.cpp:676-684 | the rewriting loop gives the right-to-left replacement; it leaves the buffer if and only if that is longer than the capacity |
| WString.String.ReplaceLonger | libs/arduino/arduino/WString.cpp:668-685 | growing: the same, with room for exactly the larger of old capacity and intended text |
| StringRuns.Perform | libs/arduino/arduino/WString.cpp:140-730 | one operation does to the text what the abstract machine does |
| StringRuns.PerformAll | libs/arduino/arduino/WString.cpp:140-730 | every run keeps the representation and is a run of the abstract machine, failing exactly where memory was refused |
| StringRuns.RunDetermined | libs/arduino/arduino/WString.cpp:140-730 | given where memory was refused, a run has one result |
| StringRuns.RewrittenIsGreedy | libs/arduino/arduino/WString.cpp:645-686 | a replace step is the greedy replacement on every text if and only if it does not grow the text or find is clean |
| Printf.AfterAfter | libs/tinyprintf/printf.c:133-166 | for each output function, writing two texts one after the other is writing their concatenation |
| Printf.NonNulIs | libs/tinyprintf/printf.c:148-166 | of the forwarded text exactly the NUL characters are missing |
| Printf.Engine.Out | libs/tinyprintf/printf.c:133-166 | one character reaches the buffer below the bound, nothing, or the forwarded stream unless it is NUL |
| Printf.Engine.OutRev | libs/tinyprintf/printf.c:199-223 | the scratch buffer goes out backwards with spaces on the side the flags say |
| Printf.Engine.PushHash | libs/tinyprintf/printf.c:243-262 | the '#' step, within the scratch buffer for every flag combination |
| Printf.Engine.NtoaFormat | libs/tinyprintf/printf.c:227-277 | zeros, prefix, sign and padding for every flag combination, with every write below index 32 |
| Printf.Engine.FillDigits | libs/tinyprintf/printf.c:291-298 | the last 32 digits of the numeral, or none for zero with a precision |
| Printf.Engine.NtoaLong | libs/tinyprintf/printf.c:281-326 | 32- and 64-bit integers: the number's text goes out |
| Printf.Engine.OutString | libs/tinyprintf/printf.c:796-820 | at most precision characters, justified in the width |
| Printf.Engine.EvalConversion | libs/tinyprintf/printf.c:601-680 | flags, width, precision and length are read as the grammar functions say |
| Printf.Engine.Convert | libs/tinyprintf/printf.c:683-849 | each specifier writes the text of its conversion |
| Printf.Engine.Vsnprintf | libs/tinyprintf/printf.c:577-857 | one text for every output function and bound; its length is returned and a NUL ends it or takes the last place |
| Printf.FinishedIsBoundedCopy | libs/tinyprintf/printf.c:853 | text and terminator under a bound n are min(length, n - 1) characters, a NUL, and untouched bytes |
| Printf.Snprintf | libs/tinyprintf/printf.c:883-890 | the result is the unbounded length for every bound; the buffer is a bounded copy; bound 0 and a null buffer write nothing |
| Printf.PrintfTo | libs/tinyprintf/printf.c:862-870 | the forwarded characters are those of the text except NUL, with the same result |
| PrintfGrammar.FlagsRead | libs/tinyprintf/printf.c:601-612 | flag characters set their flags in any order and number |
| PrintfGrammar.NumeralRead | libs/tinyprintf/printf.c:188-195 | _atoi reads back every 32-bit numeral |
| PrintfGrammar.WidthRead | libs/tinyprintf/printf.c:614-629 | a written width is read as its number or its int argument, a negative one turning the field to the left |
| PrintfGrammar.PrecisionRead | libs/tinyprintf/printf.c:631-644 | a written precision is read as its number, its int argument if positive, or 0 |
| PrintfGrammar.LengthRead | libs/tinyprintf/printf.c:646-680 | length modifiers as on this target |
| PrintfGrammar.DirectiveRead | libs/tinyprintf/printf.c:596-683 | a written directive is read back as the conversion it stands for, up to its last character |
| PrintfGrammar.OutputIsMeaning | libs/tinyprintf/printf.c:587-850 | a format written from literals and directives prints their meanings one after the other |
| PrintfGrammar.FormatHasNoNul | libs/tinyprintf/printf.c:587 | such a format is a C string as a whole |
| PrintfPlain.PlainInts | libs/tinyprintf/printf.c:690-737 | "%d" and "%i" print the signed decimal of every 32-bit argument |
| PrintfPlain.PlainDecimalAndHex | libs/tinyprintf/printf.c:690-756 | "%u", "%x" and "%X": base 10, base 16, base 16 in upper case |
| PrintfPlain.PlainOctalAndBinary | libs/tinyprintf/printf.c:690-756 | "%o" and "%b": base 8 and base 2 |
| PrintfPlain.PlainLongs | libs/tinyprintf/printf.c:646-680 | "%ld", "%zd" and "%td" take 32-bit arguments |
| PrintfPlain.PlainUnsignedLongs | libs/tinyprintf/printf.c:646-680 | so do "%lu", "%lx" and "%zu" |
| PrintfPlain.PlainShorts | libs/tinyprintf/printf.c:734-753 | "%hd" and "%hu": the low 16 bits, in two's complement or unsigned |
| PrintfPlain.PlainChars | libs/tinyprintf/printf.c:734-753 | "%hhd" and "%hhu": the low byte, never negative |
| PrintfPlain.PlainLongLongs | libs/tinyprintf/printf.c:724-745 | "%lld", "%jd" and "%llu" take 64-bit arguments |
| PrintfPlain.PlainOthers | libs/tinyprintf/printf.c:776-849 | "%c" prints the low byte, "%s" the string, "%p" eight upper-case hexadecimal digits, "%%" a per cent sign |
| PrintfIso.FollowingIsIso | libs/tinyprintf/printf.c:199-301 | under the condition the text is the one of ISO C11, section 7.21.6.1 |
| PrintfIso.LeftDiffers | libs/tinyprintf/printf.c:230-240 | with '-' precision zeros are missing |
| PrintfIso.PrecisionDiffers | libs/tinyprintf/printf.c:234-236 | a precision that fills the scratch buffer costs the sign, a larger one zeros |
| PrintfIso.ZeropadDiffers | libs/tinyprintf/printf.c:237-239 | a zero-padded field is never wider than 32 |
| PrintfIso.LongDiffers | libs/tinyprintf/printf.c:318-322 | numerals of more than 32 digits lose leading ones |
| PrintfIso.IsoIffFollows | libs/tinyprintf/printf.c:199-326 | the text is the standard's if and only if the condition holds |
| PrintfIso.PrintedReadsBack | libs/tinyprintf/printf.c:199-301 | length max(width, sign + max(precision, digits)), and between the spaces a text that decodes to the signed value |
| PrintfHash.HashIffFollows | libs/tinyprintf/printf.c:227-277 | with '#' and any width, precision, '-' and '0' a number other than zero is the standard's if and only if the condition holds |
| PrintfHash.NumberIsoIffFollows | libs/tinyprintf/printf.c:199-326 | the same for all integers, zero included, with and without '#' |
| PrintfHash.LostPrecisionIff | libs/tinyprintf/printf.c:639-642 | a precision taken as 0 where the standard has none: the same text if and only if the number is not zero, fits the scratch buffer, and no zeros were to be filled in |
| PrintfConformance.DirectiveIsoIffConforms | libs/tinyprintf/printf.c:596-756 | the standard's own table of bases and signed specifiers, and its own reading of flags, width, precision and argument, find the same arguments; the directive prints the standard's text if and only if it conforms |
| PrintfConformance.ConformingFormatIsIso | libs/tinyprintf/printf.c:587-857 | a format of characters and conforming integer directives prints the standard's text |
| PrintfConformance.StringIsoIff | libs/tinyprintf/printf.c:796-820 | a string directive prints the standard's text unless a negative '*' precision makes it lose more than spaces |
| PrintfConformance.CharIsField | libs/tinyprintf/printf.c:776-794 | a character directive prints the low byte in its field, justified as '-' and a '*' width say |
| PrintfConformance.FieldShowsText | libs/tinyprintf/printf.c:796-820 | such a field holds its text at the beginning or at the end, and spaces everywhere else |
| PrintfConformance.NegativeChar | libs/tinyprintf/printf.c:735 | "%hhd" with 255 prints "255" where the standard prints "-1" |
| PrintfConformance.NegativeStarPrecision | libs/tinyprintf/printf.c:639-642 | "%.*d" with -1 and 0 prints nothing where the standard prints "0" |
| Ftoa.EmitNumber | libs/tinyprintf/printf.c:432-437 | digits are appended backwards until done or the scratch buffer is full |
| Ftoa.EmitFraction | libs/tinyprintf/printf.c:412-428 | digits, zeros and the point; the unsigned counter wraps exactly when there are more digits than places |
| Ftoa.EmitDigits | libs/tinyprintf/printf.c:378-437 | the whole emission, cut to the scratch buffer |
| Ftoa.Ftoa | libs/tinyprintf/printf.c:403-462 | with zero padding, sign and spaces |
| Ftoa.PointIffFractionFits | libs/tinyprintf/printf.c:411-428 | there is a point if and only if the fraction is below 10^places |
| Ftoa.FixedPointIffFits | libs/tinyprintf/printf.c:378-437 | the text is whole part, point, fraction and zeros if and only if the fraction is below 10^places and all of it fits the scratch buffer |
| Ftoa.WholePartLost | libs/tinyprintf/printf.c:378-437 | "%.31f" of 5.0 begins with the point |
| Ftoa.FixedTextDecodes | libs/tinyprintf/printf.c:411-437 | without its point that text decodes to whole * 10^precision + fraction |
| Ftoa.RoundedUpTooFar | libs/tinyprintf/printf.c:398-401 | fraction 10 with one place, the result of rounding 9.5 up: thirty zeros and "10" |
| PrintfFixed.FtoaLayout | libs/tinyprintf/printf.c:439-462 | spaces, sign and zeros around the emitted digits, the sign only if the scratch buffer has room |
| PrintfFixed.FixedPointIsoIff | libs/tinyprintf/printf.c:403-462 | the number is printed in its field as the standard says if and only if text and sign fit the scratch buffer and the field needs no zeros beyond it |
| Nvic.LowIsRemainder | libs/cmsis_core/inc/core_cm0.h:789-790 | masking with 2^b - 1 is taking the remainder modulo 2^b |
| Nvic.FieldWritten | libs/cmsis_core/inc/core_cm0.h:734-740 | a written lane reads back modulo the implemented bits, the other three lanes read as before |
| Nvic.LanesDistinct | libs/cmsis_core/inc/core_cm0.h:610-612 | two interrupts never share both word and lane |
| Nvic.LanesAre | libs/cmsis_core/inc/core_cm0.h:610 | lane 0 is the low byte of the word, lane 3 the high one, and the four make up the word |
| Nvic.Controller.RegisterOf | libs/cmsis_core/inc/core_cm0.h:610-612 | interrupt n is in word n / 4 at bit 8 * (n mod 4), an exception likewise, counted from -8 |
| Nvic.Controller.SetPriority | libs/cmsis_core/inc/core_cm0.h:730-742 | the map changes at this interrupt alone, to the priority modulo 2^PRIO_BITS; its lane holds the aligned priority and every other lane keeps all its bits |
| Nvic.Controller.GetPriority | libs/cmsis_core/inc/core_cm0.h:754-765 | reads the map |
| Nvic.Controller.SetAll | libs/cmsis_core/inc/core_cm0.h:730-742 | any sequence of settings is the same sequence of map updates |
| Nvic.AppliedIsLastSet | libs/cmsis_core/inc/core_cm0.h:730-765 | afterwards each interrupt has the value last set for it modulo 2^PRIO_BITS, or its old one |
| Nvic.FieldsFill | libs/cmsis_core/inc/core_cm0.h:785-786 | the two field widths sum to PRIO_BITS for every group |
| Nvic.WidthsAre | libs/cmsis_core/inc/core_cm0.h:785-786 | the preemption field goes from max((group & 7) + 1, 8 - PRIO_BITS) to the end of the lane, the other from the first implemented bit to there |
| Nvic.BinaryPoint | libs/cmsis_core/inc/core_cm0.h:779-792 | bit by bit, which bit of which priority is where in the lane |
| Nvic.DecodePriority | libs/cmsis_core/inc/core_cm0.h:806-817 | inverse of encoding on both sides, modulo the field sizes |
| Nvic.EncodedSurvives | libs/cmsis_core/inc/core_cm0.h:779-792 | an encoded priority passes through a register unchanged |
| Nvic.StoreGrouped | libs/cmsis_core/inc/core_cm0.h:730-817 | encode, set, get, decode gives both values back modulo their field sizes |

## Left out

- Realloc: a block of 0 bytes (`reserve` of 2^32 - 1 characters) and blocks above 2^31 - 1 bytes; the model refuses the latter.
- WString.String.CountedSize: does not model the 32-bit wrap of `size`, which needs a result of 2^32 characters.
- WString.String.Remove: when index + count wraps nothing is stated beyond leaving the block; `WString.RemoveWraps` gives the length.
- WString.String.Substring: a string without buffer and a bound of 0 dereferences a null pointer in the source and is excluded.
- WString.String.Replace: find or replace being the receiver itself (aliasing); after a write out of bounds nothing is stated.
- Stream.ByteStream.FindMulti: targets of 2^31 bytes and more, where `int origIndex` overflows.
- Stream.ByteStream.ParseInt: after an overflow nothing is stated about the stream.
- Printf.Engine.Convert: float conversions.
- Printf.Engine.Vsnprintf: formats that end inside a conversion, arguments of the wrong kind, float conversions, and outputs of 2^32 characters and more.
- Ftoa.Ftoa: splitting and rounding the double, special values and values beyond 1e9; precisions above 41, for which the table of powers is read out of range.
- Floating point: `_etoa`, `printFloat`, `parseFloat`, `dtostrf`.
- `String::move`, flash-string overloads, comparisons, case conversion, `operator[]` and `setCharAt`.
- Numeric `String` constructors with a base outside 2..36, where `utoa` writes nothing.
- `readBytes`, `readString` and the clock of the timed reads.
- The remaining CMSIS headers, GPIO, ADC and pulse code, the FSM templates and the server.
