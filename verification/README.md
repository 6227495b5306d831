# PMF verification model

A Dafny model of the parts of PMF, a process-manager daemon in C, that hold state or transform
data: the shared-memory scoreboard and its spinlock, the string dictionary, the ini reader and
printer on top of it, and the configuration pipeline that turns ini files into a checked list of
worker pools. `dafny verify dfyconfig.toml` checks the whole project.

## What is modelled

**Scoreboard.** `Scoreboard` holds the fields with their C types and `pmf_scoreboard_update` as a
class that assigns field after field; `Updated` is the effect of one whole call. `ScoreboardSteps`
is a transition system for any number of processes on one board: a step is one compare-and-swap,
one test of a condition, one evaluation of a right-hand side, one store to a field, or the store
that releases the lock. Mutual exclusion and serializability are proved for every run, and
`ScoreboardLaws` says what the serial runs compute: gauges clamped at zero have a closed form
(largest suffix sum), peaks are exactly the largest values reached, unsigned counters are
conserved modulo their width whatever the schedule. `ScoreboardValues` gives every field in closed form
over any mix of assignments and increments. `ShmLayout` is the layout of the shared block and
`ScoreboardInit` gives every pool of the list one, in the state those runs start from.

**Dictionary.** Three parallel slot arrays with cached hashes, doubling, wrap-around probing and
holes left by deletion, proved to behave as a map from strings to optional strings (a key may be
present with a NULL value). `Hash` proves that two keys of equal length that differ in one
character never share a hash, by giving every step of the hash an explicit inverse.

**Ini files.** `CBuffers` has the in-place trim and lowercase routines. `Sscanf` models the
directives the parser uses, after section 7.21.6.2 of ISO/IEC 9899:2011. `IniLine` is the cascade
of patterns that classifies a line, proved against the meaning of an entry line, a section line
and an error line. `IniLoad` is the loader as a function of the file text, with the laws about
continuation lines; `IniLoader` is the loader as it runs, over its character buffers, proved equal
to it. `IniAccess` is case-blind access, `IniIndex` the section index and `IniDump` the printer.
`IniEntryLine` reads printed lines back one at a time, `IniPhysical` counts what the lines of a file can
bring, and `IniRoundTrip` is the round trip through printer and loader, in both directions. `IniBare`
is the print of a dictionary without sections, and `IniExamples` has files whose content is lost on the
way, a whole printed file and a whole pool file.

**Configuration.** `PoolName` is the `$pool` rewriting loop and its one-pass form, `ConfNumbers`
the numeric setters, `PoolParse` the way from a dictionary to the linked list of pools (`Pools`),
`PoolConfig` the check and normalisation of that list, `PmfArray` and `Sockets` the array with
swap-removal and the loop that closes unused sockets. `PoolOptions` has the
settings under their names in the file, and `PoolSetup` composes loading, parsing and checking.

## Reading the model

- C strings are sequences of characters before the NUL; `Option<string>` is a `char *` that may
  be NULL. Buffers edited in place are `array<char>`, with `TextOf` the string that starts there.
- Integer widths are those of LP64, `char` is a signed 8-bit type, the locale is C. Wrap-around is
  written out where the C code relies on it (`UnsignedSum`, `MinusOne`, `CastInt`, the hash).
- Shared memory is sequentially consistent and compare-and-swap is one step.
- Allocation succeeds. A file is its character sequence; the event mechanism's support for edge
  triggering, the current time and the process's own scoreboard are parameters.
- `pmf_conf_parse_pool_ini`, `pmf_scoreboard_init_main` and `pmf_sockets_init_main` end without a
  return statement; falling off the end is the success exit.
- Where a loop calls a part that is a method here (`FindSlot`, `Probe`, `Inspect`, `CheckDynamic`
  and others), the C code has that part inline.

## Where the code and its documentation differ

The model follows the code; each difference is stated by a member of the table.

- `dictionary_set` says a key cannot be present without a value. A key set to NULL stays present,
  and sections rely on it (`Dictionary.NullIsNotAbsent`, `IniAccess.FindEntry`).
- Of the dictionaries with a section, printable names (`IniEntryLine.PrintableSection`,
  `IniEntryLine.PrintableKey`) and one-line values, printing and loading again returns exactly those
  unchanged that have NULL sections, a value and a present section for every other entry, and values
  that survive their line (`IniRoundTrip.RoundTrip`). The printer writes values without quotes, so what
  the loader itself read from a file need not survive: a value with a comment mark is cut, one that
  ends in a backslash is joined to the next line (`IniExamples.QuotedLost`,
  `IniExamples.QuotedReturnsIff`), and an entry before any section is not printed at all
  (`IniExamples.EntryBeforeSection`). An entry with a NULL value reads back as the empty string and a
  section loses a value it may have been given (`IniRoundTrip.DumpThenLoad`).
- A loaded entry may have a name of about twice the lookup buffer; one longer than 1024 characters is
  never found (`IniAccess.LoadedEntriesReachable`, `IniExamples.LongEntryLost`).
- A continuation that does not fit the line buffer makes the file unloadable, and one at the very
  end of a file loses the line it ends (`IniLoad.CutAnywhere`, `IniLoad.CutAtEndIff`,
  `IniLoad.LastLineLost`). A last line of one character without a newline is skipped
  (`IniLoad.LoadsLineByLine`).
- `$pool` expands to the literal text `pool`, and a text longer than the buffer that needs
  rewriting loses its end (`PoolName.ExpandedIsOnePassIff`, `PoolName.ExpandedInGeneral`).
- `pmf_conf_set_integer` answers that a number must be greater than or equal to zero, but stores a
  negative one for a text with a minus and also for digits beyond the largest int
  (`ConfNumbers.NegativeAccepted`); what an accepted text stores is the number it writes exactly when
  that is an int (`ConfNumbers.StoresWrittenIff`, `ConfNumbers.StoresNonNegativeIff`).
- `pmf_conf_set_time` looks at the last character only: `xs` is accepted and stores zero
  (`ConfNumbers.NoTimeAccepted`, `ConfNumbers.StoresTimeIff`).
- The key buffer of the pool parser holds 127 characters, so the options of a section with a long
  name are not found and no error is reported (`PoolParse.OwnKeyIff`,
  `PoolParse.OptionReadIff`, `PoolParse.LongNameLosesOptions`, `IniExamples.UserLost`).
- `pmf_array_item` on an empty array lets every index pass, and `pmf_array_push` answers NULL on a
  non-empty array although the array has grown (`PmfArray.ItemIff`, `PmfArray.Array.Push`).
- A pool whose option is refused stays in the pool list with the options set before
  (`PoolParse.AddPool`, `PoolParse.BuiltStops`).
- The closed form of the clamped gauges needs a non-negative start; from any start the first delta
  drops out of the suffixes (`ScoreboardLaws.ReflectionAnyStart`).

## Model

| member | source | states |
|---|---|---|
| Scoreboard.UnsignedSum | pmf_scoreboard.c:62-78 | converting the int operand and adding modulo the width is the modular sum, for negative operands too |
| Scoreboard.SharedBoard.Apply | pmf_scoreboard.c:21-83 | the locked part of a call changes the fields exactly as `Updated` says and keeps every field in the range of its C type, absent signed overflow |
| Scoreboard.SharedBoard.Assign | pmf_scoreboard.c:21-48 | the SET branch leaves alone every field whose argument is negative, and keeps `lq_max` at least `lq` |
| Scoreboard.SharedBoard.AssignGauges | pmf_scoreboard.c:22-37 | `idle`, `active`, `lq` and `lq_len` take every argument that is not negative and keep their value otherwise; `lq_max` is raised to `lq` |
| Scoreboard.SharedBoard.AssignTotals | pmf_scoreboard.c:39-48 | the three totals of the SET branch; `slow_rq` is also left alone by 0 |
| Scoreboard.SharedBoard.Increment | pmf_scoreboard.c:49-79 | the gauges are clamped at zero; both arms of the three unsigned conditionals are the same modular sum |
| Scoreboard.PmfScoreboardUpdate | pmf_scoreboard.c:11-18 | a NULL board means the process's own one, and without that nothing is changed |
| ScoreboardSteps.ProgramIsUpdated | pmf_scoreboard.c:21-83 | run statement by statement, a call computes the whole update |
| ScoreboardSteps.HolderKeepsInvariant | pmf_scoreboard.c:20-85 | each step of the lock holder keeps: the board is the earlier calls applied whole and this one up to its program counter |
| ScoreboardSteps.StepKeepsInvariant | pmf_scoreboard.c:20-85 | so does each step of any process, and only the holder releases |
| ScoreboardSteps.RunKeepsInvariant | pmf_scoreboard.c:20-85 | the invariant holds in every reachable state; calls complete in the order they acquired the lock |
| ScoreboardSteps.MutualExclusion | pmf_atomic.h:142-159 | in every reachable state at most one process is between acquire and release, and the lock word is 0 exactly when none is |
| ScoreboardSteps.Serializable | pmf_scoreboard.c:20-85 | for every interleaving, whenever the lock is free the board is the start board with the completed calls applied whole, in acquisition order |
| ScoreboardLaws.MaxSuffixIsMax | pmf_scoreboard.c:50-60 | the recursive `MaxSuffix` is attained by some suffix sum and bounds all of them |
| ScoreboardLaws.Reflection | pmf_scoreboard.c:50-60 | clamping step by step gives the larger of start plus total and the largest suffix sum |
| ScoreboardLaws.ReflectionAnyStart | pmf_scoreboard.c:50-60 | the same from any start, negative ones included, without the suffix that holds the first delta |
| ScoreboardLaws.ReflectedCounters | pmf_scoreboard.c:50-60 | `idle` and `active` after any serial run of increments have that closed form |
| ScoreboardLaws.ReflectedRun | pmf_scoreboard.c:50-60 | so they have after any concurrent run, whenever the lock is free |
| ScoreboardLaws.ExactPeaksFrom | pmf_scoreboard.c:21-83 | from any board, each peak is the largest of the peak recorded there and the values its gauge had after each update that touches it, over any mix of SET and INC |
| ScoreboardLaws.LqPeak | pmf_scoreboard.c:35-37 | when `lq` starts no higher than its peak it never is higher after a whole update, and the peak is the largest value it had at all |
| ScoreboardLaws.PeaksMidway | pmf_scoreboard.c:35-37 | how far a call has got decides whether its own values count for each peak |
| ScoreboardLaws.ExactPeaks | pmf_scoreboard.c:20-85 | from zeroed memory, in every reachable state, locked ones included: the peaks are the exact maxima over the completed calls, and over the running call too once it has passed the statement that records the peak; `lq` exceeds `lq_max` exactly between those two stores of a SET with a new maximum |
| ScoreboardLaws.GaugesAndPeaks | pmf_scoreboard.c:21-83 | in every reachable state, also within a call, `idle` and `active` are non-negative and no single step lowers a peak |
| ScoreboardLaws.FieldsStayTyped | pmf_scoreboard.h:31-41 | in every reachable state, also within a call, every field is in the range of its C type as long as the signed sums do not overflow |
| ScoreboardLaws.WrappedIsSum | pmf_scoreboard.c:62-78 | wrapping after each increment gives the sum of all deltas reduced once |
| ScoreboardLaws.IncrementsAdd | pmf_scoreboard.c:62-78 | a serial run of increments adds the sum of all deltas modulo the width of each counter |
| ScoreboardLaws.SumOfPermutation | pmf_scoreboard.c:62-78 | the totals depend on which calls there were, not on their order |
| ScoreboardLaws.CountersConserved | pmf_scoreboard.c:62-78 | two concurrent runs that completed the same increments agree on the unsigned counters, which are start plus all deltas modulo 2^64 and 2^32 |
| ScoreboardValues.QueueFields | pmf_scoreboard.c:28-33 | over any serial run, `lq` and `lq_len` are the argument of the last SET whose argument is not negative, or the start value |
| ScoreboardValues.GaugesClamp | pmf_scoreboard.c:22-60 | `idle` and `active` are the last such SET, clamped by the increments since |
| ScoreboardValues.TotalsWrap | pmf_scoreboard.c:39-78 | the totals are the last such SET (`slow_rq`: the last positive one), wrapped by the increments since |
| ScoreboardValues.ClosedForms | pmf_scoreboard.c:21-83 | every field in closed form over any mix of SET and INC: the last value set, plus all increments since, reflected at zero or reduced modulo 2^64 or 2^32 |
| ScoreboardValues.ClosedFormsOfRun | pmf_scoreboard.c:20-85 | the same for any number of processes and any interleaving, whenever the lock is free |
| ShmLayout.AdvancingPointerLaysOut | pmf_scoreboard.c:106-119 | header, pointer table and records are pairwise disjoint, aligned and inside the block, and the last record ends the block |
| ShmLayout.Sizes | pmf_scoreboard.h:7-43 | the two struct sizes are those of their members, placed one behind the other with their alignments |
| ShmLayout.Block.constructor | pmf_scoreboard.c:106-123 | the loop that advances a pointer produces such a layout for every process count, without size overflow; lock and counters of the fresh mapping are zero |
| ScoreboardInit.InitPool | pmf_scoreboard.c:106-123 | one ready pool gets its block, with its own name, process count and manager |
| ScoreboardInit.InitMain | pmf_scoreboard.c:88-125 | over the linked list: pools get their blocks up to the first one that is not ready; that one and the later ones are untouched; each block is a start state of the step system |
| Hash.DictionaryHash | lib/iniparser/dictionary.c:118-137 | the loop and its finish compute `HashOf` |
| Hash.RoundInjective | lib/iniparser/dictionary.c:129-131 | one turn of the loop loses nothing of the sum it starts from |
| Hash.FinishInjective | lib/iniparser/dictionary.c:133-135 | the three final steps merge no two states |
| Hash.WidenInjective | lib/iniparser/dictionary.c:129 | the sign-extending conversion of a character is injective |
| Hash.RoundsInjective | lib/iniparser/dictionary.c:128-132 | the rest of a key never merges two hash states |
| Hash.OneCharacterApart | lib/iniparser/dictionary.c:118-137 | keys of equal length that differ in exactly one character have different hashes |
| Hash.WidenIs | lib/iniparser/dictionary.c:129 | bit by bit, the converted character is its code with the eighth bit repeated above |
| Hash.OneMoreCharacter | lib/iniparser/dictionary.c:128-132 | one more character is one more round on the state |
| Hash.KnownHashes | lib/iniparser/dictionary.c:118-137 | the hashes of the empty key, of `a`, `ab` and of a character above 127 |
| Dictionary.FreeSlot | lib/iniparser/dictionary.c:289-294 | with fewer keys than slots there is a hole, so the probe ends |
| Dictionary.EmptyTable | lib/iniparser/dictionary.c:157-164 | zeroed slots stand for the empty map |
| Dictionary.GrownTable | lib/iniparser/dictionary.c:87-99 | empty slots appended behind the old ones leave the map as it is |
| Dictionary.InsertedTable | lib/iniparser/dictionary.c:295-299 | a new key in any hole adds one entry to the map; keys stay distinct, hashes right, the count exact |
| Dictionary.ReplacedTable | lib/iniparser/dictionary.c:269-277 | a new value for a present key changes only that entry |
| Dictionary.RemovedTable | lib/iniparser/dictionary.c:340-347 | a cleared slot takes exactly that key out of the map |
| Dictionary.Dict.constructor | lib/iniparser/dictionary.c:150-166 | an empty map with at least 128 slots |
| Dictionary.Dict.FindSlot | lib/iniparser/dictionary.c:214-225 | comparing cached hashes first still finds a key exactly when the map has it |
| Dictionary.Dict.Get | lib/iniparser/dictionary.c:209-227 | the answer is the map's value, NULL for a NULL value, the default for an absent key |
| Dictionary.Dict.Grow | lib/iniparser/dictionary.c:68-101 | twice the slots, same contents, old slots first |
| Dictionary.Dict.Set | lib/iniparser/dictionary.c:262-300 | behind the NULL checks: the map is updated at the key; a new key goes into the first hole from slot `n` on, going round, of a table that is doubled first when it is full; no other slot changes its key |
| Dictionary.Dict.Replace | lib/iniparser/dictionary.c:269-277 | the value of a found key is replaced |
| Dictionary.Dict.Insert | lib/iniparser/dictionary.c:289-300 | a new key goes into the first hole from slot `n` on, no used slot moves |
| Dictionary.Dict.Probe | lib/iniparser/dictionary.c:289-294 | the wrap-around probe from slot `n` ends, at the first free slot on its way, because `n < size` |
| Dictionary.Dict.Unset | lib/iniparser/dictionary.c:323-348 | behind the NULL checks: the key is removed from the map and its slot left as a hole; every other slot keeps its key |
| Dictionary.Dict.Clear | lib/iniparser/dictionary.c:340-347 | clearing the found slot removes the key |
| Dictionary.DictionarySet | lib/iniparser/dictionary.c:255-301 | the same for arguments that may be NULL: -1 and no change for a NULL dictionary or key |
| Dictionary.DictionaryUnset | lib/iniparser/dictionary.c:314-349 | the same for arguments that may be NULL, which change nothing |
| Dictionary.NullIsNotAbsent | lib/iniparser/dictionary.c:241-250 | setting a key to NULL and removing it read the same exactly for a NULL default; the key stays present |
| CText.StripSplits | lib/iniparser/iniparser.c:91-109 | stripping cuts blanks and only blanks, and leaves a text with no blank at either end |
| CText.StripUnique | lib/iniparser/iniparser.c:91-109 | there is only one such text |
| CText.SpaceIs | lib/iniparser/iniparser.c:99-101 | the six characters that are stripped |
| CText.ToLowerIs | lib/iniparser/iniparser.c:52 | the 26 capital letters become the 26 small ones and nothing else changes |
| CBuffers.StrStrip | lib/iniparser/iniparser.c:91-109 | the buffer holds the stripped text afterwards, and the result is its length |
| CBuffers.BlankEnds | lib/iniparser/iniparser.c:98-105 | the two loops find where the stripped text starts and ends |
| CBuffers.StrLwc | lib/iniparser/iniparser.c:45-57 | at most `len - 1` characters, lowered; input and output may be the same buffer |
| Sscanf.SpanUnique | lib/iniparser/iniparser.c:655-680 | a scanset reads exactly the longest prefix of its characters |
| Sscanf.ScanBounded | lib/iniparser/iniparser.c:655-680 | a conversion stores no more than it read, so line-sized buffers suffice |
| Sscanf.ScanPair | lib/iniparser/iniparser.c:659-680 | on a key, an equals sign and a rest, the pair formats assign the key and go on at the first nonblank |
| Sscanf.ScanNoPair | lib/iniparser/iniparser.c:659-680 | without an equals sign or without a key they do not assign two strings |
| IniLine.ScanInto | lib/iniparser/iniparser.c:659-680 | one sscanf call: the count, and the text left in the two buffers |
| IniLine.ParsePair | lib/iniparser/iniparser.c:659-694 | the entry patterns in turn over the key and value buffers: found or not, and the texts left |
| IniLine.ParseLine | lib/iniparser/iniparser.c:633-698 | the cascade over its output buffers has the status and leaves the texts that `Classify` says, and leaves the section buffer alone otherwise |
| IniLine.ClassifyEntry | lib/iniparser/iniparser.c:659-690 | the five patterns together: every line with text before its first equals sign is an entry with the stripped lowercase key and the value `EntryValue` |
| IniLine.ClassifyError | lib/iniparser/iniparser.c:691-694 | a line with no equals sign, or nothing before it, is a syntax error |
| IniLine.ErrorIff | lib/iniparser/iniparser.c:647-694 | in characters, exactly the lines that are syntax errors |
| IniLine.LineKinds | lib/iniparser/iniparser.c:647-694 | in characters, for every line: empty, comment (`;` or `#` first), section (`[` first and `]` last), entry or error |
| IniLine.NamelessSection | lib/iniparser/iniparser.c:653-658 | a section line with nothing between its brackets keeps the beginning of the name left from before |
| IniLine.ClassifySection | lib/iniparser/iniparser.c:653-658 | a section is the stripped lowercase text up to the first closing bracket |
| IniLine.EntryValueOfPlain | lib/iniparser/iniparser.c:666-678 | an unquoted value is read up to the comment and stripped |
| IniLine.EntryValueOfQuoted | lib/iniparser/iniparser.c:659-665 | a quoted value is kept as it is, whatever follows the closing quote |
| IniLine.EntryValueUnclosed | lib/iniparser/iniparser.c:659-660 | a missing closing quote is forgiven |
| IniLine.EntryValueEmpty | lib/iniparser/iniparser.c:671-689 | no value, or a pair of quotes with nothing between them, is an empty value, with a comment or without |
| IniLine.SpellingIndependent | lib/iniparser/iniparser.c:633-698 | plain, single-quoted and double-quoted spellings, with any blanks and an optional comment, parse to the same key and value |
| IniLoad.RunAppend | lib/iniparser/iniparser.c:749-813 | loading a file split behind a newline is loading the parts in turn |
| IniLoad.BreakStep | lib/iniparser/iniparser.c:764-777 | a backslash-newline only moves the text before it into the pending text |
| IniLoad.PendingIsText | lib/iniparser/iniparser.c:749-780 | pending text and text still in the file are the same to the loop |
| IniLoad.OverlongLine | lib/iniparser/iniparser.c:754-763 | a line that fills the buffer without a newline makes the file unloadable |
| IniLoad.CutOnce | lib/iniparser/iniparser.c:749-808 | a cut at any place: the file is refused when the text before it does not fit the buffer, the text stays pending when nothing follows in the file, and nothing changes otherwise |
| IniLoad.CutAnywhere | lib/iniparser/iniparser.c:749-808 | the same for any line of any file: a cut at the very end of the file loads what precedes the line |
| IniLoad.LastLine | lib/iniparser/iniparser.c:749-780 | a last line without a newline is one turn of the loop |
| IniLoad.MattersIff | lib/iniparser/iniparser.c:781-806 | which lines change what a load returns: syntax errors, sections and entries not there already |
| IniLoad.CutAtEndIff | lib/iniparser/iniparser.c:773-777 | a backslash-newline at the very end of a file changes the result exactly when the line it ends is such a line |
| IniLoad.LastLineLost | lib/iniparser/iniparser.c:773-777 | a two-line file whose entry is lost that way |
| IniLoad.CutLogicalLine | lib/iniparser/iniparser.c:773-780 | a logical line cut at any number of places reads as the uncut line, unless the file ends behind a cut |
| IniLoad.RunLine | lib/iniparser/iniparser.c:764-806 | a complete line that fits is processed once, without its trailing blanks |
| IniLoad.RunBlank | lib/iniparser/iniparser.c:751-753 | an empty line is skipped |
| IniLoad.CompleteLine | lib/iniparser/iniparser.c:764-806 | a line that fits and does not end in a backslash once stripped, empty ones included, is processed and leaves nothing pending |
| IniLoad.CutFile | lib/iniparser/iniparser.c:749-808 | a file with all its lines cut anywhere, any number of times, with or without a newline at its end, loads the same dictionary; a last line cut at its very end is lost |
| IniLoad.LoadsLineByLine | lib/iniparser/iniparser.c:749-819 | a file of fitting lines is its lines processed in turn; a last line of one character without a newline is not looked at |
| IniLoad.LoadsIff | lib/iniparser/iniparser.c:795-819 | such a file loads exactly when none of its lines is a syntax error |
| IniLoad.LastLineWins | lib/iniparser/iniparser.c:786-793 | the last line that writes a key decides its value; a key no line writes is not there |
| IniLoad.IdleLine | lib/iniparser/iniparser.c:782-784 | a blank line, or one whose first nonblank is `;` or `#`, changes nothing wherever no continuation is pending |
| IniLoad.IdleLineAnywhere | lib/iniparser/iniparser.c:782-784 | such lines can be inserted and deleted anywhere in a file of lines |
| IniLoad.LongestLine | lib/iniparser/iniparser.c:749-763 | a line may have 1022 characters before its newline; with one more the file is refused |
| IniLoader.Fgets | lib/iniparser/iniparser.c:749 | reading behind the pending text leaves pending text and chunk in the buffer, and says whether the end of the file was met |
| IniLoader.CutLineEnd | lib/iniparser/iniparser.c:764-772 | newline and blanks are cut off the end in place; the index left points at a backslash exactly when the text ends in one |
| IniLoader.Inspect | lib/iniparser/iniparser.c:751-780 | too short, too long, continued or complete, decided on the buffer |
| IniLoader.Dispatch | lib/iniparser/iniparser.c:781-806 | the switch on the line's status updates section, dictionary and error count as one logical line should |
| IniLoader.Apply | lib/iniparser/iniparser.c:773-808 | pending text is kept in place, a complete line is dispatched and the buffer cleared |
| IniLoader.Turn | lib/iniparser/iniparser.c:749-808 | one turn of the loop leaves the result of the rest of the file unchanged |
| IniLoader.Load | lib/iniparser/iniparser.c:714-820 | the running loader yields NULL for an unopened or unloadable file, else a valid dictionary with the contents `LoadFile` gives |
| IniAccess.Set | lib/iniparser/iniparser.c:601-605 | the entry is set under its lowered name; -1 and no change for NULL arguments |
| IniAccess.Unset | lib/iniparser/iniparser.c:617-621 | the entry is removed under its lowered name |
| IniAccess.GetString | lib/iniparser/iniparser.c:413-425 | the value under the lowered name, the default when absent or for NULL arguments |
| IniAccess.FindEntry | lib/iniparser/iniparser.c:579-586 | an entry is found exactly when the map has it, also with a NULL value |
| IniAccess.Replay | lib/iniparser/iniparser.c:601-621 | any run of sets and unsets on one dictionary is the same run on its map |
| IniAccess.FoldSame | lib/iniparser/iniparser.c:45-57 | two names are the same entry exactly when they agree up to case, as far as the buffer reaches |
| IniAccess.CaseBlind | lib/iniparser/iniparser.c:413-425 | after any run a read sees the last set not followed by an unset among all entries equal up to case |
| IniAccess.SameEntryShort | lib/iniparser/iniparser.c:45-57 | for names of at most 1024 characters that is equality up to case |
| IniAccess.RunKeepsLowercase | lib/iniparser/iniparser.c:786-793 | a loaded dictionary has lowercase keys only |
| IniAccess.RunKeepsPlain | lib/iniparser/iniparser.c:786-793 | no key of a loaded dictionary contains a NUL, whatever bytes the file holds |
| IniAccess.LoadedEntriesReachable | lib/iniparser/iniparser.c:413-425 | a loaded entry is looked up under its own name, whatever the casing, exactly when the name fits the buffer of 1024 characters; a longer one is looked up under its first 1024 |
| IniIndex.GetNSec | lib/iniparser/iniparser.c:164-179 | the number of colon-free keys, -1 for NULL |
| IniIndex.GetSecName | lib/iniparser/iniparser.c:195-215 | the n-th colon-free key in slot order, NULL for every other n |
| IniIndex.SectionPrefix | lib/iniparser/iniparser.c:341-343 | the comparison buffer holds the lowered name and a colon |
| IniIndex.GetSecNKeys | lib/iniparser/iniparser.c:330-354 | the number of keys of a present section, 0 for an absent one and for NULL arguments |
| IniIndex.GetSecKeys | lib/iniparser/iniparser.c:372-396 | writes exactly those keys, as many as counted, in slot order, and nothing behind them; an absent section or NULL argument leaves the array alone |
| IniIndex.SectionsAreTheColonFreeKeys | lib/iniparser/iniparser.c:195-215 | the section list holds each colon-free key of the map exactly once and nothing else |
| IniIndex.SectionsInSlotOrder | lib/iniparser/iniparser.c:195-215 | the section list is in slot order |
| IniIndex.KeysMembers | lib/iniparser/iniparser.c:386-393 | the keys of a section are exactly those that start with its name and a colon, each once |
| IniIndex.KeysInSlotOrder | lib/iniparser/iniparser.c:386-393 | and they are in slot order |
| IniIndex.BelongsIff | lib/iniparser/iniparser.c:348 | the prefix comparison holds exactly for keys whose text before the first colon is the section |
| IniIndex.CountSplits | lib/iniparser/iniparser.c:330-354 | every entry is counted under one section and no other |
| IniIndex.CountAtMost | lib/iniparser/iniparser.c:330-354 | sections and the entries counted under them are never more than all keys |
| IniIndex.CountsAddUp | lib/iniparser/iniparser.c:164-179 | `n` is the number of sections plus what `iniparser_getsecnkeys` answers for each, for lowercase section names within the buffer |
| IniDump.DumpSection | lib/iniparser/iniparser.c:296-320 | appends the section's head, its entries in slot order and an empty line; nothing for a section that is not found or a NULL argument |
| IniDump.DumpEntries | lib/iniparser/iniparser.c:308-317 | one line per key of the section, a NULL value printed as empty |
| IniDump.DumpIni | lib/iniparser/iniparser.c:258-282 | appends all sections in slot order, or all entries as they are when there is no section; nothing for a NULL argument |
| IniDump.DumpBare | lib/iniparser/iniparser.c:267-275 | the lines for a dictionary without sections |
| IniDump.EntryColumns | lib/iniparser/iniparser.c:312-315 | an entry line is the key padded to 30 columns, the equals sign in column 32, and the value |
| IniEntryLine.ReadsBackIff | lib/iniparser/iniparser.c:659-678 | a printed value is read back unchanged exactly when it is trimmed, has no `;` or `#`, is not readable as quoted and is not a pair of quotes |
| IniEntryLine.EntryProcess | lib/iniparser/iniparser.c:312-315 | a printed entry line, whatever its value, is read as that key of the current section with the value `ReadBack`; it is continued exactly when the stripped value ends in a backslash |
| IniEntryLine.EntrySurvivesIff | lib/iniparser/iniparser.c:312-315 | so the line stores its own value exactly when that value reads back |
| IniEntryLine.SectionProcess | lib/iniparser/iniparser.c:306 | a printed section line is read back as that section |
| IniPhysical.AfterRuns | lib/iniparser/iniparser.c:749-813 | the loader over a file of physical lines, continued or not, is a step per line |
| IniPhysical.StepWeight | lib/iniparser/iniparser.c:773-793 | a line brings one entry at most, an empty one none, and a line joined to pending text or overwriting an entry brings nothing |
| IniPhysical.Growth | lib/iniparser/iniparser.c:749-813 | so a file never brings more entries than it has lines that are not empty |
| IniPhysical.TightKeeps | lib/iniparser/iniparser.c:749-813 | and when it brings as many, nothing stored is ever overwritten |
| IniRoundTrip.RunEntries | lib/iniparser/iniparser.c:308-317 | the entry lines of a section, when each stands alone, load into the entries as they read back, in order |
| IniRoundTrip.RunSections | lib/iniparser/iniparser.c:276-279 | the printed sections load one after another |
| IniRoundTrip.StoreSectionsIs | lib/iniparser/iniparser.c:276-279 | storing section by section yields the part of the map the sections name, whatever the slot order |
| IniRoundTrip.DumpThenLoad | lib/iniparser/iniparser.c:258-320 | for printable names and one-line values whose lines stand alone, loading what was printed gives the sections and their entries, each value as it reads back |
| IniRoundTrip.PendingLoses | lib/iniparser/iniparser.c:773-777 | an entry whose value ends in a backslash comes back shorter or takes a line with it |
| IniRoundTrip.TightEntry | lib/iniparser/iniparser.c:311-316 | in a file that brings one entry per line, an entry that comes back unchanged is one whose value survives |
| IniRoundTrip.UnchangedSurvives | lib/iniparser/iniparser.c:258-320 | a dictionary that comes back unchanged has only values that survive, continuations included |
| IniRoundTrip.NormalReloads | lib/iniparser/iniparser.c:258-320 | the map a reload yields is the printed one exactly when that is normal and its values read back |
| IniRoundTrip.RoundTrip | lib/iniparser/iniparser.c:258-320 | with a section, printable names and one-line values: the dictionary comes back unchanged exactly when sections have NULL values, all other entries have a value and a present section, and every value survives its line |
| IniRoundTrip.SaveAndLoad | lib/iniparser/iniparser.c:714-820 | the same through the running printer and loader |
| IniBare.BareThenLoad | lib/iniparser/iniparser.c:267-275 | a dictionary without sections, printed and loaded again, has every entry under the section with the empty name, a NULL value having become text |
| IniBare.BareNeverReturns | lib/iniparser/iniparser.c:267-275 | so it never comes back unchanged unless it is empty |
| IniExamples.QuotedReturnsIff | lib/iniparser/iniparser.c:311-316 | a value loaded from between double quotes comes back from a print exactly when it can do without them |
| IniExamples.QuotedLost | lib/iniparser/iniparser.c:311-316 | two loaded files that change on a print: `k="a;b"` and `k="a\"` |
| IniExamples.EntryBeforeSection | lib/iniparser/iniparser.c:790-793 | a loaded file whose dictionary is not normal: an entry before any section |
| IniExamples.LongEntryLost | lib/iniparser/iniparser.c:422-423 | a loaded entry that no lookup finds |
| IniExamples.UserLost | pmf_conf.c:349-350 | a file whose `user` option is lost without an error |
| IniExamples.PrintedText | lib/iniparser/iniparser.c:258-320 | a whole printed file, character by character |
| IniExamples.PoolFileLoads | lib/iniparser/iniparser.c:749-808 | a pool file of three options loads to its four keys |
| IniExamples.PoolFileParses | pmf_conf.c:299-364 | and is parsed to its configuration, all defaults included |
| PoolName.ExpandPoolName | pmf_conf.c:65-95 | the loop ends on every string, with `Expanded` in the slot; a NULL slot or string is left alone |
| PoolName.SetString | pmf_conf.c:97-119 | the option holds the expanded value and no error is reported |
| PoolName.NoTokenLeft | pmf_conf.c:72-92 | no `$pool` is left, not even one that a rewrite created |
| PoolName.NoPoolText | pmf_conf.c:72-92 | nowhere in the result do the characters of `$pool` stand in a row |
| PoolName.OnePassDropsRun | pmf_conf.c:72-92 | the one pass deletes a run of `$` of any length before `pool` |
| PoolName.ReplaceKeepsOnePass | pmf_conf.c:83-87 | replacing one token anywhere does not change what the one pass yields |
| PoolName.ShortIsOnePass | pmf_conf.c:65-95 | up to 128 characters the loop computes the one-pass form |
| PoolName.LongIsCut | pmf_conf.c:87 | a longer text with a token loses characters |
| PoolName.ExpandedIsOnePassIff | pmf_conf.c:65-95 | loop and one-pass form agree exactly on texts without a token or of at most 128 characters |
| PoolName.ExpandedInGeneral | pmf_conf.c:65-95 | in every case the first token becomes `pool`, the text is cut to 127 characters, and the rest is the one-pass form |
| ConfNumbers.SetInteger | pmf_conf.c:142-153 | accepts exactly texts of digits with an optional minus in front, and then stores the number written exactly when that is an int; an error leaves the field alone |
| ConfNumbers.AtoiOfNumeral | pmf_conf.c:151 | an accepted text is read whole, clamped to `long`, then narrowed to `int` |
| ConfNumbers.StoresWrittenIff | pmf_conf.c:142-153 | an accepted text stores the number it writes exactly when that is an int |
| ConfNumbers.StoresNonNegativeIff | pmf_conf.c:145-151 | when an accepted text stores a number that is not negative, and that it stores a non-negative number as written exactly when that lies between zero and the largest int |
| ConfNumbers.FarNumbers | pmf_conf.c:151 | a numeral beyond `int` stores its low 32 bits, one beyond `long` stores -1 or 0 |
| ConfNumbers.AtoiOfText | pmf_conf.c:196-214 | from any text blanks, a sign and digits are read, and nothing behind them |
| ConfNumbers.SetRlimitCore | pmf_conf.c:155-179 | stores -1 exactly for `unlimited` in any casing and otherwise only non-negative values |
| ConfNumbers.SetTime | pmf_conf.c:181-222 | accepts exactly texts that end in a digit or one of the four units and stores the number before the unit times 1, 60, 3600 or 86400 when that is an int; a refused text changes nothing |
| ConfNumbers.StoresTimeIff | pmf_conf.c:193-216 | an accepted text stores a number times its unit, as written, exactly when the text before the unit is a numeral and the product is an int |
| ConfNumbers.NoTimeAccepted | pmf_conf.c:207-214 | an accepted text that writes no number, storing zero |
| ConfNumbers.IntegerReadsBack | pmf_conf.c:142-153 | the decimal print of any int is accepted and gives that int |
| ConfNumbers.TimeReadsBack | pmf_conf.c:181-222 | a printed number with a unit, or none, is accepted and gives that many units when in range |
| ConfNumbers.UnitsReadBack | pmf_conf.c:194-216 | the units are 1, 60, 3600 and 86400 seconds |
| ConfNumbers.NegativeAccepted | pmf_conf.c:145-151 | two accepted texts that store a negative number, one with a minus and one without |
| PmfArray.ItemIff | pmf_array.h:41-47 | the unsigned bounds check is the expected one on a non-empty array and passes every index on an empty one |
| PmfArray.SwapRemoveCounts | pmf_array.h:60-67 | swap-removal loses exactly the removed item and moves nothing in front of it |
| PmfArray.Array.constructor | pmf_array.h:16-39 | an empty array of the wanted capacity |
| PmfArray.Array.RemoveItem | pmf_array.h:53-70 | the item is replaced by the last one and the result says whether a slot was refilled; an index out of bounds changes nothing |
| PmfArray.Array.Push | pmf_array.h:72-90 | the array grows by one and keeps its items, a full one doubles its room (20 slots at first), but the slot handed out is NULL unless the array was empty |
| Sockets.CloseUnused | pmf_sockets.c:373-388 | the loop ends, with `Kept` in the list and the events of `Closed` as its trace |
| Sockets.Compaction | pmf_sockets.c:373-388 | exactly the entries with a reference are kept and exactly the others closed, each as often as it occurs |
| Sockets.TraceExact | pmf_sockets.c:377-381 | each descriptor is closed, and each path unlinked, as often as an unused entry (for paths, an unused unix entry) has it |
| Sockets.AddressKinds | pmf_sockets.c:29-36 | an address with a colon, or of digits only, is an internet address and every other a unix one |
| PoolConfig.CheckedIsRunnable | pmf_conf.c:578-665 | an accepted pool is runnable and only the numbers its process manager leaves free were changed |
| PoolConfig.AcceptedIff | pmf_conf.c:578-665 | exactly the configurations that are accepted, limit by limit |
| PoolConfig.CheckedFillsIn | pmf_conf.c:634-663 | a missing number of servers to start becomes the middle of the spare limits, rounded down, and a backlog that is too small becomes 511 |
| PoolConfig.AcceptedUnchangedIff | pmf_conf.c:578-665 | a pool is accepted as it stands exactly when it is runnable already |
| PoolConfig.CheckedTwice | pmf_conf.c:578-665 | checking a checked pool changes nothing |
| PoolConfig.PassOverList | pmf_conf.c:578-665 | the pools before the first failure are runnable; that one and all later ones are untouched |
| PoolConfig.PassDetermined | pmf_conf.c:578-665 | those facts determine the outcome of a pass |
| PoolConfig.SecondPass | pmf_conf.c:570-668 | after a successful pass a second one succeeds and changes nothing |
| Pools.WorkerPool.constructor | pmf_worker_pool.c:9-22 | a pool that is in no list, with default settings |
| Pools.Registry.ConfigAlloc | pmf_conf.c:261-297 | a pool with default settings goes to the end of the list and becomes the current one; the others are untouched |
| Pools.Registry.LastPool | pmf_conf.c:285-293 | the walk ends at the last pool |
| Pools.Registry.ProcessAllPools | pmf_conf.c:570-668 | the loop over the linked list is that pass over its configurations; an empty list is an error |
| Pools.CheckPool | pmf_conf.c:579-664 | one turn: accepted exactly when `Checked` accepts, a refused configuration unchanged, the address family set |
| Pools.CheckDynamic | pmf_conf.c:610-641 | the dynamic branch |
| Pools.CheckOndemand | pmf_conf.c:642-664 | the ondemand branch |
| PoolParse.RunSetter | pmf_conf.c:352 | a call through the option table does what the row's setter says; a refused value changes nothing |
| PoolParse.ParsedSetsOne | pmf_conf.c:37-51 | a row accepts any text, one of three words or a numeral, by its kind; it sets its own field to the meaning of the value and no other field |
| PoolParse.LoadedIff | pmf_conf.c:346-360 | the options of a section all parse exactly when no row is refused |
| PoolParse.LoadedFields | pmf_conf.c:346-360 | every row up to the first refused one sets its field to the meaning of its value; all other fields stay |
| PoolParse.PoolSettings | pmf_conf.c:344-360 | so each field of a new pool is its own row's value or the default |
| PoolOptions.TableOrder | pmf_conf.c:37-51 | the thirteen options, their names and the order in which they are set |
| PoolOptions.SettlesIff | pmf_conf.c:142-249 | the options of a section are all accepted exactly when its style is one of three words and nine options are numerals, as far as they are present |
| PoolOptions.SettingsByName | pmf_conf.c:344-360 | then every field of the pool is the value under its own name in the file, or its default |
| PoolParse.OwnKeyIff | pmf_conf.c:349-350 | a row reads its own entry exactly when the entry's name is shorter than the 128-character key buffer |
| PoolParse.OptionReadIff | pmf_conf.c:349-350 | an option that is present is read exactly when its name is shorter than the key buffer, and lost otherwise |
| PoolParse.OwnKeysIff | pmf_conf.c:349-350 | all rows of a section read their own entries exactly when its name has at most 103 characters |
| PoolParse.OwnSettings | pmf_conf.c:344-360 | then each field of the pool is what its row makes of the entry under its own name, or the default |
| PoolParse.LongNameLosesOptions | pmf_conf.c:349-350 | a section name of more than 126 characters makes every row read the same cut key; where that has no value the pool silently has the defaults |
| PoolParse.LoadOptions | pmf_conf.c:344-360 | the options of a section that are present are set in table order, up to the first that is refused |
| PoolParse.FindPool | pmf_conf.c:322-330 | a name is found exactly when some pool has it up to case |
| PoolParse.AddPool | pmf_conf.c:332-360 | one new pool at the end of the list, also when an option is refused |
| PoolParse.AddSection | pmf_conf.c:315-360 | one turn of the section loop: refused by name without a change, or one new pool |
| PoolParse.ParsePoolIni | pmf_conf.c:299-364 | the section loop turns dictionary and list into the list `Built` describes |
| PoolParse.BuiltKeepsNames | pmf_conf.c:314-363 | however a file ends, every pool has a name, none is `global`, and no two agree up to case |
| PoolParse.NamesStayDistinct | pmf_conf.c:314-363 | the same over any sequence of files |
| PoolParse.BuiltShape | pmf_conf.c:314-363 | the list only grows, by the file's sections in reverse slot order |
| PoolParse.BuiltStops | pmf_conf.c:317-356 | where a refused file stops: in front of a section with a refused name, or behind the first pool with a refused option |
| PoolParse.UnchangedIff | pmf_conf.c:317-330 | a file leaves the list as it is exactly when it has no sections or its last one has a refused name |
| PoolParse.BuiltIff | pmf_conf.c:314-363 | a file is taken whole exactly when no section is `global`, all names are new and distinct up to case, and every option that is present is acceptable to its row |
| PoolSetup.TakenWholeIff | pmf_conf.c:314-363 | whether a file is taken does not depend on the order in which the slots hold its sections |
| PoolSetup.BuiltIsAdded | pmf_conf.c:314-363 | a file that is taken adds exactly one pool per section, with the settings of that section |
| PoolSetup.NamesAfter | pmf_conf.c:322-330 | and exactly its section names to those in use |
| PoolSetup.AddFile | pmf_conf.c:388-398 | a file is taken exactly when it loads, none of its sections is `global` or named like a pool or another section, and every present option is acceptable; then one pool per section is added |
| PoolSetup.ParsePoolConfig | pmf_conf.c:378-402 | the directory is read exactly when every file loads and is taken beside the files before it; then the list has grown by the pools of all sections of all files |
| PoolSetup.CheckedKeepsNames | pmf_conf.c:570-668 | the check keeps all names |
| PoolSetup.PassesIff | pmf_conf.c:578-667 | the check gets to the end exactly when every pool is accepted |
| PoolSetup.SetUpPools | pmf_conf.c:708-724 | from files to the checked list: it succeeds exactly when the directory is taken, there is a pool and every pool is accepted; then the list is all of them, checked and runnable; however it ends no two names agree up to case |

## Left out

- Scoreboard.SharedBoard.Apply: signed overflow of `idle` and `active` is undefined in C and excluded by its precondition.
- Scoreboard.PmfScoreboardUpdate: the same exclusion; the lock around it is the subject of `ScoreboardSteps`.
- ScoreboardSteps.Serializable: the two signed sums are unbounded integers in the step system, so it speaks of C runs without signed overflow (in those every field stays in range, by `ScoreboardLaws.FieldsStayTyped`); nothing is claimed about how long a process spins, or about a process that dies holding the lock.
- ScoreboardLaws.ReflectedRun: absent signed overflow, as above.
- ShmLayout.Block.constructor: the name in the header is its first 32 characters; `strncpy` writes no terminator when the name is longer. The records' contents are not modelled.
- ScoreboardInit.InitMain: every pool has a name, as every parsed one does; `strncpy` from NULL is undefined.
- Dictionary.Dict.Set: the `int` count does not overflow.
- IniIndex.GetSecNKeys: a present section whose name is longer than the buffer makes the C code write behind it; excluded by the precondition.
- IniIndex.GetSecKeys: the same, and the caller's array has room for the keys, as its documentation demands.
- IniDump.DumpSection: the name of a present section and a colon fit the buffer `sprintf` fills.
- IniDump.DumpBare: a NULL value is printed as glibc does; the C standard leaves it undefined.
- IniRoundTrip.RoundTrip: a dictionary without sections is the subject of `IniBare`; no claim for names that do not survive a line of their own (a key that starts with `[` or has an `=`, say), or for values with a newline.
- ConfNumbers.SetTime: a product that does not fit an int is undefined in C; the model wraps, and `StoresTimeIff` claims only that no int is the product then.
- ConfNumbers.SetInteger: a number outside `long` is read as glibc reads it; the C standard leaves it undefined.
- PmfArray.Array.RemoveItem: on an empty array the C code reads outside the array; excluded by the precondition.
- PoolSetup.ParsePoolConfig: the directory is the sequence of its visible files, each None when it cannot be opened.
- PoolSetup.SetUpPools: the global options between parsing and checking are left out.
- Pools.WorkerPool.constructor: the configuration is a record inside its pool, not a separate block; a pool without one cannot occur.
- Printed texts are strings: `printf`, `sprintf` and `snprintf` are modelled by what they write.
- A failing `sscanf` may answer 0 or EOF; both are no assignments here, and the code compares with 2 only.
- Files, sockets, `mmap`, `fork`, signals, clocks, privileges and logging: system plumbing.
- Event back ends: thin wrappers around system calls.
- Allocation failure and freeing: allocations succeed.
- The inline assembly of `atomic_cmp_set`, and `pmf_spinlock` with `try_once`, which nothing here calls.
- Reference counting in `pmf_sockets_hash_op`: it rests on the slot `pmf_array_push` hands out, which is NULL on a non-empty array; the closing loop starts from an arbitrary list instead.
- `pmf_conf_parse_global_ini` and the setters for log levels and booleans: no property beyond their bodies.
- `iniparser_dump`, `dictionary_dump`, `pmf_conf_dump`, `iniparser_getint`, `iniparser_getdouble`, `iniparser_getboolean`: presentation and simple conversions.
