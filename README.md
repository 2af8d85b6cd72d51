# AdvAssert in Dafny

AdvAssert is a small C/C++ assertion helper. When an assertion fails, it
prints the current values of the variables the caller names. It has two
generations.

- **The current `advassert_`** (`src/advassert.cpp`) receives the
  stringified variable list, for example `"(char) x1, ( double) eji, (double *) &eji"`,
  a count `nVars` and the values as variadic arguments.
  - It parses the list with `parse_vars` into a table of names and an array
    of indices into the type table `adv_assert_types`.
  - It then prints one `name = value` line per slot. The format comes from
    the slot's type, and `va_arg` reads the value with the matching C type.
- **The legacy `advassert_`** (top-level `advassert.cpp`) takes
  `(condition, nArgs, tag1, var1, tag2, var2, ...)`. It walks the
  (tag, value) pairs and prints each value with the conversion its tag
  selects.

The model has six modules:

- `CRuntime` holds what the code takes from the C runtime:
  - `isspace` in the "C" locale;
  - `va_arg` over an explicit sequence of tagged values, with promotion and
    the `(char)` narrowing;
  - the kinds of undefined behaviour the code can reach.

  Except for the cases listed under "## Left out", the model never
  continues past undefined behaviour. It reports it as a `Hazard`:
  - reading past the string's terminator (an unterminated `(`);
  - the trim loop's unsigned underflow on `()`;
  - writing past the type array;
  - indexing the type table with an unknown index;
  - a `va_arg` with no argument left, or with an argument of another kind;
  - signed overflow of `nArgs * ARG_MULTIPLIER`.
- `Registry` is the type table and its lookup.
- `Parser` is `parse_vars`:
  - `Scanner`, `StepScan` and `Scan` form a state machine. It holds exactly
    the C function's variables and the contents of both output arrays.
  - `ParseVars` is the imperative scan over an `array2<char>` name table
    and an `array<nat>` type array. It is proved equal to that state
    machine.
- `ParserProps` holds the properties of the scan:
  - the outcomes of one annotation;
  - which characters the skip and trim loops remove;
  - the round trip: a list rendered as `(type) name, ...` parses back to
    its names, truncated to 100 letters, and its type indices.
- `Dispatcher` is the current `advassert_`:
  - `Dispatch` is the specification. `AdvAssert` allocates zeroed arrays,
    runs `ParseVars` and the slot loop `PrintSlots`, and is proved equal to
    `Dispatch`.
- `Legacy` is the old `advassert_`:
  - `Legacy` and `Pairs` are the specification. `LegacyAssert` and
    `ReadPairs` are the imperative loop proved equal to them.
  - Lemmas cover the alignment of tags and values, including the
    misalignment an unknown tag causes.

Printing is modelled as data. A printed line is the name, the format string
and the value `va_arg` produced; the legacy function produces a sequence of
events.

## Behaviour worth knowing

- **Whitespace around a type text.** The skip after `(` passes over every
  `isspace` character, but the trim before `)` removes only `' '`. So
  `( int) x` is read as `int`, while `(int\t) x` is rejected as an unknown
  type (`ParserProps.TrimRemovesBlanksOnly`,
  `ParserProps.UnknownTypeRejected`).
- **Annotations and slots have separate cursors.** The type array has its
  own cursor, which moves on every annotation. The name slot moves only
  when a name closes. So `(int)(double) x` writes two type entries for one
  name, and the types of later slots shift (`Parser.ScanKeeps` states what
  each cursor does).
- **The type array is larger than `nVars`.** It is allocated with
  `calloc(nVars, sizeof(AdvAssertType))`. The model takes that as 4·nVars
  unsigned ints (`Dispatcher.TypeSlots`), so extra annotations do not
  overflow at once.
- **The legacy banner and notices go to different streams.** The banner and
  the unknown-tag notice go to stdout; the values and the no-arguments
  notice go to stderr. The model keeps one sequence of events in program
  order.

## Model

| member | source | states |
|---|---|---|
| CRuntime.Narrow | src/advassert.cpp:130 | `(char)` of an int lies in [-128, 128), is congruent to it modulo 256, and is the identity on values already in range |
| CRuntime.VaArg | src/advassert.cpp:124-141 | `va_arg` fetches exactly when an argument is left and has the kind the rule reads; it reports stream exhaustion exactly when none is left; the value fetched is the argument, narrowed to char for the char rule |
| Registry.SameTextIsEquality | src/advassert.cpp:235 | the character-by-character comparison holds exactly when the two texts are equal |
| Registry.LookupFrom | src/advassert.cpp:233-236 | a hit from position `from` is an index at or after `from` whose entry has the searched text |
| Registry.LookupFromFirst | src/advassert.cpp:233-238 | a hit is the first matching entry; a miss means no entry from `from` on matches |
| Registry.Lookup | src/advassert.cpp:233-243 | a found index is a valid table index whose type text is the searched text |
| Registry.LookupMisses | src/advassert.cpp:238-243 | the lookup fails exactly when the text is not one of the supported type texts |
| Registry.LookupFindsEnumValue | src/advassert.cpp:19-34 | looking up each table entry's text yields its own position, which is its `enum Type` value |
| Registry.FormatFor | src/advassert.cpp:121-122 | the format is "%s = " followed by the type's specifier and fits MAX_FORMAT_LEN with its terminator |
| Parser.SkipSpace | src/advassert.cpp:198-199 | the result is a suffix of the input that does not start with whitespace |
| Parser.SkipWord | src/advassert.cpp:260 | the result is the suffix of the input from its first separator on: nothing skipped is a separator, and what is left is empty or starts with one |
| Parser.TrimSpaces | src/advassert.cpp:223 | the result is a prefix of the text that does not end in a blank |
| Parser.PointerRewrite | src/advassert.cpp:229-230 | a text ending in `*` is replaced by the table's pointer text; any other text is kept |
| Parser.ResolveText | src/advassert.cpp:229-243 | a resolved index is a table entry whose text is the (rewritten) type text |
| Parser.ResolvePointer | src/advassert.cpp:229-230 | a type text ending in `*` resolves to the pointer entry (`void *`, enum value 5) |
| Parser.ResolveExact | src/advassert.cpp:232-243 | any other text resolves to index t exactly when t's table text equals it, and fails exactly when it is not in the table |
| Parser.CopyType | src/advassert.cpp:206-217 | a closed copy stops at a `)` within the buffer's capacity |
| Parser.ReadAnnotation | src/advassert.cpp:194-243 | a resolved annotation names a supported type and consumes at least its `)` and no more than the input |
| Parser.AnnotationBody | src/advassert.cpp:206-243 | the same for the text after the skipped whitespace, which does not start with whitespace |
| Parser.Cursor | src/advassert.cpp:247-273 | the name pointer `p_curr_parsed_vars` stays inside its row: it follows the letter count up to the row's last cell and stays on that cell for every longer count |
| Parser.CapName | src/advassert.cpp:252-268 | the 101st letter leaves the scan inside a capped name, at the word's first separator or the end of input, having skipped no separator; only the current row changes, and at the end of input its last cell holds the terminator |
| Parser.StepScan | src/advassert.cpp:177-275 | every iteration that continues consumes input |
| Parser.AnnotationStep | src/advassert.cpp:191-246 | an annotation that continues consumes input |
| Parser.Scan | src/advassert.cpp:173-276 | the scan keeps the sizes of the name table and the type array |
| Parser.Start | src/advassert.cpp:167-171 | the scan starts at the head of the list, outside a name, with no name closed, the name cursor on the first cell of the first row, no type written and both arrays as given |
| Parser.ParseSpec | src/advassert.cpp:162-279 | `parse_vars` keeps the sizes of both arrays; an empty list or nVars == 0 returns 1 and leaves both arrays as they were |
| Parser.ZeroTable | src/advassert.cpp:109 | the name table `calloc` provides has nVars rows of MAX_VAR_NAME_LEN zero characters |
| Parser.Store | src/advassert.cpp:252 | `*p_curr_parsed_vars = c` changes exactly the one cell at the cursor's row and column, and no other cell of the table |
| Parser.CloseKeepsInv | src/advassert.cpp:177-190 | closing a name at a separator keeps the scan invariant: closed rows hold terminated, non-empty names |
| Parser.LetterKeepsInv | src/advassert.cpp:247-273 | storing a letter of a name keeps the invariant |
| Parser.TruncateKeepsInv | src/advassert.cpp:252-268 | the 101st letter, the skip to the next separator and the terminator written at the end of input keep the invariant |
| Parser.StepKeepsInv | src/advassert.cpp:173-276 | every iteration keeps the invariant |
| Parser.SeparatorStep | src/advassert.cpp:177-190 | unfolding step of `StepScan`: a separator outside a name is skipped and changes nothing else |
| Parser.CloseStep | src/advassert.cpp:179-189 | unfolding step of `StepScan`: a separator inside a name terminates it and moves to the next slot |
| Parser.LetterStep | src/advassert.cpp:250-272 | unfolding step of `StepScan`: a letter is stored at the name's current position |
| Parser.TruncateStep | src/advassert.cpp:254-268 | unfolding step of `StepScan`: the 101st letter of a name caps it and skips the rest of the word |
| Parser.ParenStep | src/advassert.cpp:245 | unfolding step of `StepScan`: a resolved annotation stores its index at the type cursor and advances the cursor |
| Parser.ParenStops | src/advassert.cpp:210-243 | unfolding step of `StepScan`: a rejected annotation makes the parse return 0 |
| Parser.AnnotationHazard | src/advassert.cpp:206-223 | unfolding step of `StepScan`: an annotation that reads past the terminator or underflows the trim loop stops with that undefined behaviour |
| Parser.AnnotationOverflow | src/advassert.cpp:245 | unfolding step of `StepScan`: a resolved annotation with the type cursor at the end of the array stops with an overflow |
| Parser.ScanKeeps | src/advassert.cpp:173-276 | the slot and the type cursor only grow; at most n names are closed; success means the input ended or n names were closed; closed rows are never rewritten; only type entries from the cursor on are written |
| Parser.ScanKeepsInv | src/advassert.cpp:173-276 | the whole scan keeps the invariant, so every closed row is a terminated non-empty name and every stored type is supported |
| Parser.StepAgrees | src/advassert.cpp:173-276 | one loop iteration under the invariant keeps the invariant, and the scan from the new state gives the same result |
| Parser.SkipLeadingSpace | src/advassert.cpp:198-199 | the loop stops where `SkipSpace` says |
| Parser.SkipToSeparator | src/advassert.cpp:260 | the loop stops where `SkipWord` says |
| Parser.CopyTypeText | src/advassert.cpp:206-217 | the copy loop ends as `CopyType` says, and the buffer holds the copied text |
| Parser.TrimTrailingSpaces | src/advassert.cpp:223 | the trimmed buffer is `TrimSpaces` of the copied text |
| Parser.FindType | src/advassert.cpp:233-236 | the loop index is below N_SUPPORTED_TYPES exactly when the buffer holds a table text, and it is then the lookup's index |
| Parser.ResolveBuffer | src/advassert.cpp:220-243 | trimming, the pointer rewrite and the lookup resolve the buffer as `ResolveText` says |
| Parser.ReadTypeBody | src/advassert.cpp:206-243 | reading the type after the skipped whitespace gives `AnnotationBody` |
| Parser.ReadType | src/advassert.cpp:194-243 | the `(` branch's reading of the type gives `ReadAnnotation` |
| Parser.StoreType | src/advassert.cpp:245 | exactly the entry at the cursor changes |
| Parser.Annotation | src/advassert.cpp:191-246 | the `(` branch does what `AnnotationStep` says: it stops with the same status, or continues with the stored type and the advanced cursor |
| Parser.Separator | src/advassert.cpp:177-190 | the separator branch does what `StepScan` says |
| Parser.Letter | src/advassert.cpp:247-273 | the letter branch, including truncation, does what `StepScan` says |
| Parser.ParseVars | src/advassert.cpp:162-279 | the status, the name table and the type array are those of the specification scan |
| ParserProps.CopyTypeCases | src/advassert.cpp:206-217 | the copy closes exactly when a `)` lies within the capacity and stops at the first one; it is too long, or reads past the end, exactly in the complementary cases |
| ParserProps.AnnotationOutcomes | src/advassert.cpp:206-243 | `()` underflows the trim loop exactly when the body starts with `)`; an unterminated short body reads past the end exactly when it has no `)` |
| ParserProps.LongTypeRejected | src/advassert.cpp:210-216 | a type text of 50 characters without `)`, blanks included, makes the parse return 0 |
| ParserProps.AnnotationOfText | src/advassert.cpp:194-243 | a short type text closed by `)` is trimmed, rewritten if it ends in `*`, and looked up |
| ParserProps.UnresolvedStops | src/advassert.cpp:238-243 | an annotation whose text does not resolve makes the parse return 0 |
| ParserProps.UnknownTypeRejected | src/advassert.cpp:232-243 | a trimmed text that is not a table text and does not end in `*` makes the parse return 0 |
| ParserProps.TrimRemovesBlanksOnly | src/advassert.cpp:223 | the trim removes only blanks (not tabs or other whitespace), and leaves alone a text that does not end in one |
| ParserProps.SkipRemovesWhitespaceOnly | src/advassert.cpp:199 | the skip removes only `isspace` characters |
| ParserProps.SkipWordStopsAtSeparator | src/advassert.cpp:260 | skipping a word stops exactly at the separator after it |
| ParserProps.CanonicalAnnotation | src/advassert.cpp:19-34 | each table text written as an annotation resolves to its own index |
| ParserProps.ShortNameEnd | src/advassert.cpp:177-189 | a name shorter than 101 letters closes at the next separator, or stays stored at the end of input |
| ParserProps.LongNameEnd | src/advassert.cpp:252-268 | a name of 101 or more letters is stored as its first 100 letters |
| ParserProps.EntryName | src/advassert.cpp:247-273 | a name entry fills its slot with the name truncated to 100 letters |
| ParserProps.EntryType | src/advassert.cpp:191-246 | a canonical annotation stores its index at the type cursor |
| ParserProps.Entry | src/advassert.cpp:173-276 | one "(type) name" entry stores both the type and the name |
| ParserProps.LastEntry | src/advassert.cpp:173-278 | the last entry of a list ends the scan with status 1 |
| ParserProps.ScanRendered | src/advassert.cpp:173-278 | a rendered list of entries fills the slots and type entries in order and returns 1 |
| ParserProps.RenderedParse | src/advassert.cpp:162-279 | parsing a rendered list of at most n entries succeeds with those names and types |
| ParserProps.RenderRoundTrip | src/advassert.cpp:162-279 | after parsing a rendered list, slot j holds entry j's name (truncated) and type, the remaining slots stay empty, and the rest of the type array stays as it was |
| ParserProps.NamesAfterZero | src/advassert.cpp:109 | slots the list does not reach keep calloc's zeroes, which read as empty names |
| ParserProps.LaterEntriesIgnored | src/advassert.cpp:173 | after n entries the scan stops: whatever follows a separator is never read |
| Dispatcher.RuleFor | src/advassert.cpp:124-141 | the `va_arg` of each `case` reads the value that the type's table specifier displays, and never a string |
| Dispatcher.ZeroTypes | src/advassert.cpp:110 | the type array `calloc` provides holds only zeros (INT), as many as asked for |
| Dispatcher.TypeSlots | src/advassert.cpp:110 | the type array holds as many unsigned ints as the bytes `calloc(nVars, sizeof(AdvAssertType))` provides, at least nVars |
| Dispatcher.Print | src/advassert.cpp:119-148 | the slot loop reads at most one value per slot and prints one line per value read; it reads one per slot when it is not stopped |
| Dispatcher.Dispatch | src/advassert.cpp:96-154 | nVars == 0 gives the no-variables notice; a failed parse prints the raw list and reads nothing; a printed report has one line per value read, at most nVars |
| Dispatcher.PrintReads | src/advassert.cpp:119-148 | with supported types, slot j prints its name, its type's format and argument j; the loop stops only at the first missing or mistyped value and says which |
| Dispatcher.ParsedTypesKnown | src/advassert.cpp:109-115 | after any parse into the zeroed type array, every entry is a supported type, so the table is never indexed past its end |
| Dispatcher.DispatchReads | src/advassert.cpp:112-148 | when the parse succeeds, every slot read prints its parsed name, format and value, and all nVars slots are printed unless the loop stops |
| Dispatcher.DispatchStops | src/advassert.cpp:119-148 | after a successful parse, a stop happens at a slot below nVars whose supported type reads a value that is missing (stream exhausted) or of another kind (kind mismatch), and the report says which |
| Dispatcher.DispatchAllFit | src/advassert.cpp:112-148 | when the parse succeeds and every slot's value is present and of the kind its type reads, the call prints all nVars slots without a stop and reads exactly nVars values |
| Dispatcher.RenderedAssert | src/advassert.cpp:85-160 | for a well-formed "(type) name, ..." list with matching values, the call prints every entry's truncated name with its format and value, reading exactly one value per entry |
| Dispatcher.AllFit | src/advassert.cpp:119-148 | when every slot's value is present and of the right kind, the loop is not stopped |
| Dispatcher.AdvAssert | src/advassert.cpp:85-160 | the imperative function gives the report and the number of values that `Dispatch` specifies |
| Dispatcher.PrintSlots | src/advassert.cpp:119-148 | the imperative slot loop gives the lines, position and stop that `Print` specifies |
| Legacy.TagRule | advassert.cpp:67-91 | a tag selects a read exactly when it is a member of the enum (0-5 and 7); only LONG_INT reads a long |
| Legacy.TagFormat | advassert.cpp:70-86 | each `case` prints with one conversion (a single `%`, first) followed by a newline |
| Legacy.TagReads | advassert.cpp:67-87 | for every enum tag, the format displays the value its `va_arg` reads; the int, char, double/float, string and pointer reads are each selected by exactly their own tags |
| Legacy.CountShownAppend | advassert.cpp:64-93 | the count of printed values is additive over concatenation |
| Legacy.Iteration | advassert.cpp:66-91 | an iteration reads two arguments when it prints a value and one for an unknown tag; it halts without reading when the tag argument is missing or not an int |
| Legacy.Pairs | advassert.cpp:64-93 | the loop never reads more arguments than were passed |
| Legacy.PairsAligned | advassert.cpp:64-93 | a loop that is not stopped reads one argument per iteration plus one per printed value; a counter of 2N gives exactly N iterations |
| Legacy.PairsTurn | advassert.cpp:64-93 | unfolding step of `Pairs`: an iteration that continues is followed by the loop with the counter down by 2 |
| Legacy.PairsHalt | advassert.cpp:64-93 | unfolding step of `Pairs`: an iteration that hits undefined behaviour ends the loop |
| Legacy.Legacy | advassert.cpp:51-97 | a true condition prints and reads nothing; otherwise the banner comes first, nArgs == 0 adds the no-arguments notice, and negative nArgs prints only the banner |
| Legacy.EncodedPairs | advassert.cpp:64-93 | N well-tagged pairs are read as N iterations of two arguments each, printing each value with its tag's conversion; nothing after them is read |
| Legacy.EncodedCall | advassert.cpp:51-97 | a whole call with N well-tagged pairs prints the banner, the notice when N is 0, and one line per pair, reading exactly 2N arguments |
| Legacy.UnknownTagSkipsOne | advassert.cpp:88-90 | an unknown tag consumes only itself, so the next argument is read as the next tag |
| Legacy.MisalignedExample | advassert.cpp:88-90 | with tags 6 (unknown), 5 and value 9L, two iterations read three arguments and print 9 as a long |
| Legacy.LegacyAssert | advassert.cpp:51-97 | the imperative function gives the events, the count of arguments read and the stop that `Legacy` specifies |
| Legacy.ReadPairs | advassert.cpp:64-93 | the imperative loop gives what `Pairs` specifies |
| Legacy.ReadIteration | advassert.cpp:66-91 | one switch over the next tag gives `Iteration` |

## Left out

- Output rendering is left out. This covers `printf`/`fprintf` formatting, the assertion header (condition, explanation, file, line), the "Passed variables:" line, and the newline after each slot. A printed line is the triple (name, format, value).
- The unknown-type message of the slot loop's `default` branch is not modelled. The format is built from `adv_assert_types[parsed_types[i]]` before the switch, so an index past the table is already undefined behaviour there. The model stops with `TableOverrun`, and `Dispatcher.ParsedTypesKnown` shows this cannot happen after a parse.
- `abort()` after the no-variables notice is not modelled. The call ends with `NoVariables`.
- stdout and stderr are not separated, and output buffering is not modelled. Events are kept in program order.
- `va_list` is a sequence of tagged values; `va_start`/`va_end` are not modelled. C's default argument promotions are taken as done by the caller: a char arrives as an int and a float as a double. The legacy function reads each tag with `va_arg(args, int)`; the model assumes, as the comment at advassert.cpp:66 does, that the caller passes every tag as an int (a scoped enum is not promoted, so passing `AdvAssertType` itself is outside the model).
- `calloc` and `free` are modelled only as the zeroed arrays they provide. Allocation failure is not modelled.
- CRuntime.Narrow: takes `char` as signed and 8 bits wide. C leaves the signedness of `char` to the implementation, and an unsigned `char` would give values in [0, 256).
- The type array's size assumes LP64: a table entry of two pointers is 16 bytes, an unsigned int is 4 bytes.
- `isspace` is modelled for the "C" locale. Negative `char` values passed to it are not modelled.
- Each character of the model stands for one byte below 128, so non-ASCII text is not modelled. C counts bytes in the 50-character type buffer and the 100-letter name cap (src/advassert.cpp:210, 254), and a multi-byte character would count several times there.
- Strings are the characters before the C terminator (`'\0' !in s`). A string argument carries its text, but printing it with `%s` is not modelled. As section 7.16.1.1 paragraph 2 of the C11 standard allows, a `char *` argument may be read as `void *` and a `void *` argument as `char *`; the model lets such a read fetch the argument unchanged.
- ParserProps.RenderRoundTrip: the round trip is stated for lists written in the canonical form `(type) name, (type) name`. Other spellings, such as extra blanks or `*` types, are covered per annotation by `ParserProps.AnnotationOfText` and `Parser.ResolvePointer`, not as a whole-list round trip.
- Legacy.Legacy: requires `nArgs` to be a 32-bit int, as its C type says. Signed overflow of `nArgs * ARG_MULTIPLIER` is reported as undefined behaviour rather than wrapped.
- The `ADV_ASSERT` macros, `assert(COND)`, both `main` functions and `advassert.h` are not part of this model.
