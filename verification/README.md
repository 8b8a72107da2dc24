# Jailkit: a model of its text machines and its rate limiter

Jailkit confines users to directory trees. Most of it is system calls; what is modelled here are
the parts that compute:

- the POSIX word expander that jk_lsh uses to take a command line apart (`WordBuffer`,
  `FieldSplit`, `Arith`, `ArithExpr`, `ArithReading`, `WordExp`, `WordQuote`,
  `WordReading`, `PatternRemoval`);
- the INI scanner, and the two programs that compute file positions to drive it (`IniScan`,
  `IniDoc`, `IniNames`, `IniLookup`, `SocketScan`, `ShellConfig`);
- the rate limiter of jk_socketd, one instance per thread (`RateLimit`);
- the blockwise search through passwd (`LineSearch`);
- list splitting and joining, environment filtering, the split of a home directory into jail and
  home, and its writers (`ListText`, `EnvFilter`, `JailHome`);
- the Python library's passwd and group merge, path normal forms and link resolution, and the
  recursive inclusion of sections (`PasswdMerge`, `Paths`, `RealPath`, `JailEscape`, `Includes`).
  The library's `string.split(line, ':')` exists in Python 2 only, although `jk_init` imports
  `configparser` under its Python 3 name; the model takes every call to mean what it does in Python 2.

Each imperative function of the source is a method over the same state (a cursor, a buffer, fields
of an object), proved equal to a function on the values before the call. The lemmas are about those
functions: round trips with an independent printed form, bounds over whole runs, refinement of a
simple search, agreement of two programs. `CStrings` holds the C string functions, `Seqs` the
facts about sequences the proofs share.

`dafny verify dfyconfig.toml` checks the whole project.

## Where the code differs from what is said about it

- `eval_expr_val` closes a parenthesis at the first `)`, so expressions with parentheses two deep,
  legal in section 2.6.4 of POSIX.1-2017 XCU, are refused (`NestedIsRejected`).
- `$[...]` prints a negative value without splitting off its sign, so the 20-byte buffer cuts the
  last digit of values of -10^18 and below; `$((...))` does not (`BracketValue`, `BracketCuts`).
- The comment above the loop in `getjaildir` gives `/a/./` as the shortest accepted text; the loop
  asks for a jail path of at least three bytes, so `/a/./b` is not split (`JailSplitSound`).
- `internal_getpwuid` prints the uid as a signed number into ten bytes: uids of 10^9 and above are
  looked up under another number (`KeyIsExact`).
- `strip_string` leaves one character of a text of white space alone (`StripMeans`), and reads the
  byte before an empty text, as `explode_string` does for every empty piece (`StripString`,
  `ExplodeString`); the byte changes nothing. `dirs_equal` reads the byte before an empty path; there
  it can decide the answer (`StrayByteDecides`).
- `find_line` stops at the first line of 1024 bytes or more and tests its first 1024, because a full
  buffer makes the next read return 0 (`SeenIsLines`).
- `iniparser_next_section` takes any `[` outside a comment for a heading, so that a value such as
  `/usr/bin/[` makes the next heading part of a name (`NamesRoundTrip`, `BracketLosesSection`). Key
  lookups are misled by a value only if it holds the heading asked for in brackets (`TextOutside`).
- `iniparser_get_string_at_position` writes a terminator behind the caller's buffer when the value
  fills it (`WritesOutside`).
- A line of an INI section without an equals sign does not end a key: the letters of the next line are
  compared behind it (`KeyOverLines`). A value that ends with the file takes the end-of-file mark for
  one more character (`ValueAtEnd`).
- The arithmetic evaluator ignores what follows the first complete sum, in every parenthesis too, and
  reads a sign before a parenthesis as zero: `$((-(3)))` is 0 (`ReadSum`, `SignedGroup`).
- `$(())` and `$[]` dereference the NULL of the empty expression; the model calls that undefined
  (`EvalCollected`).
- `unset_environ_except` comes back for ever to an entry that starts with `=` (`EndsUnlessStuck`).
- The merge writes behind the last byte of a jail's file. If that is no newline, the first copied line
  is glued to the entry there, and both are spoilt (`KeepsLines`, `GluedEntryIsLost`, `GluedInput`).
- A name requested more often than the jail's lines mention it makes the merge of passwd files copy
  its line again (`SecondMergeExact`, `RepeatedRequestCopiesAgain`).
- Lines of passwd with exactly three fields and of group with exactly two pass the length tests of the
  merge and then raise IndexError (`RaisesExactly`).
- `resolve_realpath` refuses a relative link that leaves the jail by comparing texts, so a sibling
  directory whose name begins with the jail's passes (`PrefixTest`, `SiblingEscapes`).
- An absolute link is put behind the jail's path and then normalised, with no test at all, so that a
  text such as `/../etc` leads out of the jail (`LinkLands`, `ClimbEscapes`).
- `addusertojail` is given the jail without its final slash, although the comment above the test asks
  for one: of the home `/abc` and the jail `/ab/` it stores `c` (`StoredIsAbsolute`,
  `PrefixSharedHome`).
- `split_path` never ends on a relative path, and cyclic inclusion never ends (`SplitEnds`,
  `EndsIfGrounded`, `CycleNeverEnds`).
- `new_socketlink` leaves the size and the peak flag of a link uninitialised, so that its first round,
  and no other, can carry one message more than the rates allow (`AnyRunGood`, `UnsettledRun`).
- The peak rate that replaces a bad one may be below the base rate; the limiter's bounds hold all
  the same (`OpenedIsSound`, `ConsecutiveRounds`).

## Model

| member | source | states |
|---|---|---|
| WordBuffer.Buffer.NewWord | src/wordexp.c:82-86 | a new word is NULL with no room |
| WordBuffer.Buffer.AddCharacter | src/wordexp.c:88-110 | appends one character in place, keeps the terminator right after the contents, and grows by one chunk exactly when the buffer is full |
| WordBuffer.Buffer.AddMemory | src/wordexp.c:112-132 | appends a string, grows by at least twice its length, and leaves a NULL word NULL when nothing is added |
| WordBuffer.Buffer.AddString | src/wordexp.c:134-145 | the same for a NUL-terminated string |
| WordBuffer.RunAppends | src/wordexp.c:82-145 | any sequence of appends leaves the concatenation of what was added, in room between its length and three times its length plus one chunk; the word is NULL exactly when nothing was added to NULL |
| FieldSplit.Splitter.AddWord | src/wordexp.c:147-174 | adds the word in progress, a NULL one as the empty word |
| FieldSplit.Splitter.SplitStream | src/wordexp.c:800-862 | command output split as it arrives gives the state of the one-character machine on the concatenated output, whatever the blocks |
| FieldSplit.Splitter.SplitValue | src/wordexp.c:1614-1677 | the strspn/strcspn loop gives the same words as the streaming machine, for every value, every IFS and any word already in progress |
| FieldSplit.CollectWhite | src/wordexp.c:1935-1966 | the white-space part of IFS, without repeats, fits the 4-byte buffer |
| FieldSplit.StreamAppend | src/wordexp.c:817-860 | the streaming machine is indifferent to where the output is cut |
| FieldSplit.StreamHard | src/wordexp.c:818-852 | one non-white separator and the white space around it end one field and no more |
| FieldSplit.PieceSplit | src/wordexp.c:817-860 | one field with its delimiter yields one word, glued to the word in progress |
| FieldSplit.SplitsAsPosix | src/wordexp.c:800-862 | white space followed by delimited fields (section 2.6.5 of POSIX.1-2017 XCU) splits into exactly those fields, the first glued to the word in progress |
| FieldSplit.EveryTextHasPieces | src/wordexp.c:1614-1677 | every text has such a reading, so the previous statement covers all inputs |
| Arith.EvalExprVal | src/wordexp.c:467-514 | in-place reading of a number or parenthesis, the closing one overwritten by a NUL, agrees with its functional meaning, and nothing outside the consumed text changes |
| Arith.EvalParen | src/wordexp.c:477-491 | a parenthesis ends at the FIRST closing one; its text is evaluated as a string of its own |
| Arith.EvalExprMultdiv | src/wordexp.c:516-546 | the product loop over the buffer computes the functional evaluator's answer and unread text |
| Arith.EvalExpression | src/wordexp.c:548-578 | the sum loop likewise, for every NUL-terminated buffer, division by zero and overflow included as undefined |
| Arith.UptoFacts | src/wordexp.c:480-484 | the scan for the closing parenthesis stops at the first one or finds none |
| ArithExpr.SumAnswers | src/wordexp.c:467-578 | inductive core: a printed sum followed by any text that cannot continue it is read exactly, at nesting limit one or zero |
| ArithExpr.EvaluatesToMeaning | src/wordexp.c:467-578 | every printed sum/product expression over signed literals with parentheses at most one deep evaluates to its left-associative, truncating value, and is undefined exactly when it has none within a long |
| ArithExpr.NestedIsRejected | src/wordexp.c:477-491 | deeper nesting never yields a value, and is a syntax error whenever the expression has a meaning |
| ArithReading.ReadSum | src/wordexp.c:467-578 | the converse: whatever text is given a value is a sum of products with that left-associative, truncating value, where a sign without digits is zero, followed (in each parenthesis, and at the end) by text that cannot continue it and is ignored |
| ArithReading.SumFails | src/wordexp.c:467-578 | and a text without a value: it is a syntax error only where no operand starts, at its beginning or behind an operator that follows a sum with a value, in a parenthesis too; it is undefined only if it starts with a sum that cannot be computed |
| ArithReading.DivisionTruncates | src/wordexp.c:533-539 | division leaves a rest smaller than the divisor and with the sign of the dividend, and has no result for a zero divisor or beyond a long |
| ArithReading.OperationsAreExact | src/wordexp.c:526-573 | the other operations are exact or have no result beyond a long |
| ArithReading.SignedGroup | src/wordexp.c:493-513 | so a sign before a parenthesis reads as zero and the parenthesis is ignored |
| WordExp.Expander.ParseBackslash | src/wordexp.c:180-205 | one escaped character is taken, an escaped newline vanishes, a final backslash is a syntax error; the offset ends on the last character consumed |
| WordExp.Expander.ParseQtdBackslash | src/wordexp.c:207-246 | inside double quotes the backslash disappears only before the four special characters and newline; the offset ends on the last character consumed |
| WordExp.Expander.ParseSquote | src/wordexp.c:448-464 | the text up to the closing quote is taken literally; the offset ends on that quote |
| WordExp.Expander.ParseArith | src/wordexp.c:585-720 | the collecting loop, with nested expansions and parenthesis counting, agrees with its functional meaning and leaves the offset on the last character consumed |
| WordExp.Expander.ArithTurn | src/wordexp.c:597-715 | one character of the collected text is taken, ends the expansion or fails as the functional form does, and the offset advances |
| WordExp.Expander.ParseCloseArith | src/wordexp.c:638-699 | a closing parenthesis or bracket ends the expansion, or is refused, as the parenthesis depth and the form require |
| WordExp.Expander.EvalCollected | src/wordexp.c:651-671 | the collected expression is evaluated on its own copy and its printed value appended, the sign first |
| WordExp.Expander.ArithmeticAhead | src/wordexp.c:1717-1729 | the lookahead answers whether the parenthesis that balances is followed by another one |
| WordExp.Expander.ParseDollars | src/wordexp.c:1702-1754 | after a dollar sign: a literal sign, an arithmetic expansion in either form, or an expansion outside this model |
| WordExp.Expander.ParseDquote | src/wordexp.c:1812-1870 | a double-quoted text, arithmetic expansions inside it included, is consumed up to its closing quote |
| WordExp.Expander.Wordexp | src/wordexp.c:1968-2084 | the main loop yields the word list, or the error, of the functional expander, for every NUL-free input and no flags; an expansion outside this model is an error of its own |
| WordExp.MyItoa | src/wordexp.c:580-583 | printing into 20 bytes leaves at most 19 characters and no NUL among them |
| WordQuote.ClosesAfter | src/wordexp.c:1717-1729 | the lookahead walks over any balanced text, however deep, and decides on what follows |
| WordQuote.Collected | src/wordexp.c:597-715 | the collecting loop takes the same balanced text, one level deeper in its own count |
| WordQuote.ExpansionParsed | src/wordexp.c:1715-1734 | lookahead and collector agree on the closing parentheses of every well-formed expansion, however deeply nested |
| WordQuote.ExpansionValue | src/wordexp.c:585-720 | end to end: the expansion appends the decimal form of its value and consumes its closing parentheses; it is undefined exactly when the value does not exist or cannot be negated |
| WordQuote.NestedExpansion | src/wordexp.c:585-720 | an expansion with nested parentheses fails, with the syntax error whenever its expression has a meaning |
| WordQuote.DecimalFits | src/wordexp.c:640-669 | a value has at most 18 digits exactly below 10^18, and the magnitude of any long, the least one included, has at most 19 |
| WordQuote.PrintedReadsBack | src/wordexp.c:467-514 | what was appended reads back, through the evaluator, as the value printed |
| WordQuote.BracketParsed | src/wordexp.c:679-695 | the collecting loop takes a well-formed bracket expansion up to its closing bracket, however deep its parentheses |
| WordQuote.BracketValue | src/wordexp.c:679-695 | end to end: the bracket form appends the decimal value of its expression if and only if that is above -10^18, and a tenth of it if not; it is undefined exactly when there is no value |
| WordQuote.NestedBracket | src/wordexp.c:679-695 | with nested parentheses it fails, with the syntax error whenever the expression has a meaning |
| WordQuote.BracketPrints | src/wordexp.c:580-583 | 20 bytes hold a printed long in full if and only if it is above -10^18, and otherwise all but its last digit |
| WordQuote.BracketCuts | src/wordexp.c:679-695 | every literal from -10^18 down expands to a tenth of itself |
| WordQuote.DquoteReads | src/wordexp.c:1812-1870 | a double-quoted text written with any mix of plain and escaped characters reads as its meaning |
| WordQuote.PieceReads | src/wordexp.c:1968-2084 | one quoted or plain piece of a word reads as its meaning, and the expansion goes on behind it |
| WordQuote.QuotingRoundTrip | src/wordexp.c:1968-2084 | any list of words, each written with any legal mix of backslash, single and double quotes and separated by any blanks, expands to exactly the nonempty words meant (section 2.2 of POSIX.1-2017 XCU) |
| WordQuote.OperatorRefused | src/wordexp.c:2052-2056 | behind blanks and any written words, each of the ten characters that may not stand unquoted is refused with the bad-character error, whatever follows |
| WordReading.BodyReads | src/wordexp.c:585-720 | the text of an arithmetic expansion, written in any mix of plain, escaped and folded characters, dollar signs and expansions within it, is collected as its meaning |
| WordReading.QuotedReads | src/wordexp.c:1812-1870 | so is the text inside double quotes |
| WordReading.EveryTextReads | src/wordexp.c:1968-2084 | the converse of the round trip, for every text: behind blanks it is a line of words written in such pieces, up to its end or to the first thing refused, and the outcome is the words meant or the error of what is refused there |
| WordReading.WordsIfWritten | src/wordexp.c:1968-2084 | expansion yields words if and only if the text is a written line and they are the words meant |
| WordReading.ErrorIfRefused | src/wordexp.c:1968-2084 | it yields an error if and only if something refused with that error stands behind a written line: an operator, an open quotation, a last backslash, an expression without a value or not closed, or what this model leaves out |
| WordQuote.ExpansionAlone | src/wordexp.c:1968-2084 | an arithmetic expansion standing alone expands to the one word that is its decimal value, or to the syntax error if parentheses are nested |
| PatternRemoval.MatchPrefix | src/wordexp.c:1399-1403 | a prefix is matched behind a temporary NUL, and the buffer is left as it was |
| PatternRemoval.Remove | src/wordexp.c:1395-1492 | each of the four forms removes exactly the shortest or longest matching prefix or suffix, or nothing if none matches, and restores the buffer (section 2.6.2 of POSIX.1-2017 XCU) |
| PatternRemoval.OneResult | src/wordexp.c:1395-1492 | that requirement admits one result only |
| PatternRemoval.ShortKeepsMore | src/wordexp.c:1395-1492 | what the long form leaves is always the far end of what the short form leaves |
| RateLimit.SocketLink.constructor | src/jk_socketd.c:105-138 | a new link has its rates and its reset time, but whatever size and peak flag memory held |
| RateLimit.SocketLink.Handle | src/jk_socketd.c:163-218 | one message updates the four fields as the limiter's step does and sleeps for the rest of the round exactly when it resets early, which is only above the peak rate or, after a peak, above the normal rate |
| RateLimit.SocketLink.Serve | src/jk_socketd.c:159-221 | the receive loop is the iterated step |
| RateLimit.OneMessageSettles | src/jk_socketd.c:177-217 | from any memory contents one message establishes: size at most the peak rate, and at most the normal rate after a peak; from then on this is kept and the 32-bit counter never wraps |
| RateLimit.TraceStepGood | src/jk_socketd.c:177-217 | every completed round lasts at least the round time and carries at most the peak rate plus one message, or the normal rate plus one message if it follows a peak; a round over the normal rate is followed by one marked as following a peak |
| RateLimit.RunGood | src/jk_socketd.c:159-221 | from a settled link this holds of all rounds of every run |
| RateLimit.AnyRunGood | src/jk_socketd.c:159-221 | from any memory contents it holds too, but for up to 512 bytes more in the first round, and none more if the link is settled |
| RateLimit.UnsettledRun | src/jk_socketd.c:105-138 | a run of a new link, its size field just below the wrap-around, whose first round carries over peak rate plus one message and whose first two rounds carry over normal plus peak rate plus 1024 bytes |
| RateLimit.BusyRounds | src/jk_socketd.c:177-217 | a run from a settled link of which two rounds in a row carry over the normal rate |
| RateLimit.PeaksAllowed | src/jk_socketd.c:177-217 | what a settled link lets through: in every run a round is closed within its time only if it carried more than the peak rate, or more than the normal rate after a peak; it is followed by a marked one if and only if it carried more than one of the two rates; and no round goes on beyond its limit or its time |
| RateLimit.AnyPeaksAllowed | src/jk_socketd.c:177-217 | from any memory contents all this holds of every round but the first |
| RateLimit.ConsecutiveRounds | src/jk_socketd.c:159-221 | in every run, from any memory contents, any 2N consecutive rounds carry at most N times normal plus peak rate plus 1024 bytes, and 512 bytes more only if they are the first rounds of a link that was not settled; they take at least 2N round times, even if the normal rate exceeds the peak rate |
| RateLimit.TraceCounts | src/jk_socketd.c:177-178 | no byte is lost or counted twice between the rounds |
| RateLimit.AnyRunLimit | src/jk_socketd.c:159-221 | from any memory contents, what a run sends within a span of time obeys a bound linear in the span, plus the one message that settles the link |
| RateLimit.AnyWindow | src/jk_socketd.c:159-221 | so does any window inside a longer run |
| RateLimit.ProjectionRuns | src/jk_socketd.c:476-482 | seen from one link, any interleaving of the threads is a run of its own |
| RateLimit.SharedIsSum | src/jk_socketd.c:168-168 | the shared out-socket carries exactly the sum of what the links handled |
| RateLimit.SharedLimit | src/jk_socketd.c:476-482 | under any interleaving of up to 128 links, what the out-socket carries in a span of time is at most the sum of the links' bounds |
| LineSearch.FieldFromLine | src/passwdparser.c:52-69 | the scan returns the field-th colon-separated piece of the line, or NULL if there are fewer |
| LineSearch.IntFieldFromLine | src/passwdparser.c:71-82 | that field as a number, or -1 if it is missing |
| LineSearch.File.Fread | src/passwdparser.c:100-100 | any positive number of the bytes asked for, and 0 only at the end of the file or when asked for none |
| LineSearch.Refill | src/passwdparser.c:131-146 | moving the unfinished line to the front and reading on loses nothing: buffer and unread file together are what they were |
| LineSearch.Turn | src/passwdparser.c:103-148 | every turn finds the answer or makes lexicographic progress: file position, last read, bytes kept, place in the buffer |
| LineSearch.FindLine | src/passwdparser.c:84-151 | for any chunking of the reads and any line lengths the blockwise search returns the first line seen whose field is the key, or NULL, where a line of 1024 bytes or more is cut there and is the last one seen |
| LineSearch.SeenIsLines | src/passwdparser.c:130-147 | the lines seen are the file's lines if and only if all are shorter than 1024 bytes, but for the last, which may be as long |
| LineSearch.SeenOfLong | src/passwdparser.c:130-147 | of any file the lines before the first of 1024 bytes or more are seen, and the first 1024 bytes of that one |
| LineSearch.FirstMatchIsFirst | src/passwdparser.c:103-150 | first match read as a statement: the line found has the field and no line before it has |
| LineSearch.LinesJoin | src/passwdparser.c:107-126 | the lines together are the file's text up to its final newline |
| LineSearch.InternalGetpwuid | src/passwdparser.c:153-179 | the entry made of the first line seen whose third field is the printed uid, or NULL if there is none or a needed field is missing or empty |
| LineSearch.EntryFound | src/passwdparser.c:153-179 | end to end: if the first line with the uid as its third field is seven fields joined by colons, with name, directory and shell not empty, the answer is the entry with the first, fourth, sixth and seventh of them |
| LineSearch.EntryMissing | src/passwdparser.c:153-179 | and without such a line there is none |
| LineSearch.EntryWritten | src/passwdparser.c:159-173 | of a line written as any number of fields: that entry, or none exactly if one of these fields is missing or empty or the group reads as -1 |
| LineSearch.AtoiReads | src/passwdparser.c:71-82 | a number field of white space, an optional sign, digits and anything else reads as the number |
| LineSearch.KeyIsExact | src/passwdparser.c:155-157 | the 10-byte key is the uid in full if and only if the uid is below 10^9 |
| LineSearch.KeyOfAnyUid | src/passwdparser.c:155-157 | of a larger uid the key is its first nine digits, or, if it is negative as an int, the sign and at most eight digits |
| IniScan.IniFile.NextSection | src/iniparser.c:73-104 | returns the next section name and stops just after its bracket, or reaches the end of the file, as the one-character machine says |
| IniScan.IniFile.HasSection | src/iniparser.c:106-118 | repeats that from the start of the file until the name is met |
| IniScan.IniFile.Seek | src/iniparser.c:120-130 | a negative position fails and changes nothing; any other clears the end-of-file mark |
| IniScan.IniFile.GetStringAtPosition | src/iniparser.c:120-222 | the flag machine answers as the functional lookup does from that position, or from the file's start after a negative one: -1, or the length of the value in the buffer |
| IniDoc.NextIsNext | src/iniparser.c:73-104 | with no bracket in a value on the way, a call yields the next section's name and stops just after its closing bracket |
| IniDoc.EmptyHeading | src/iniparser.c:88-98 | brackets with nothing between them are no heading: the name goes on to the next closing bracket |
| IniDoc.NamesTo | src/iniparser.c:73-104 | up to the first heading behind a bracket, repeated calls yield the document's names in order |
| IniNames.Counted | src/iniparser.c:78-102 | over whole lines and sections, from any state, either some name runs over a line end or there is at least one name for every section and one more for a name in progress |
| IniNames.NothingLast | src/iniparser.c:78-103 | behind the last heading a call yields nothing exactly if no value opens a bracket that is closed outside comments |
| IniNames.NamesRoundTrip | src/iniparser.c:73-104 | repeated calls yield exactly the document's section names, in order, if and only if no value before the last heading holds an opening bracket and none behind it opens one that is closed |
| IniNames.BracketLosesSection | src/iniparser.c:89-95 | an ordinary value with a bracket loses the section below it |
| IniDoc.Located | src/jk_chrootsh.c:295-295 | the position after a heading, less the name's length and two, is the offset of its opening bracket |
| IniDoc.FoundIfNamed | src/iniparser.c:106-118 | in any file has_section finds a name exactly if repeated calls of next_section yield it |
| IniDoc.FindsFirst | src/iniparser.c:106-118 | with no bracket before its heading the first section so named is found, and the file left just after the heading |
| IniLookup.TextOutside | src/iniparser.c:146-167 | outside the section a line is passed over exactly up to the first bracketed text that is a nonempty prefix of the name asked for; from there keys are compared |
| IniLookup.MimicShape | src/iniparser.c:146-167 | such a text, written out, so that a caller can look for it |
| IniLookup.ValueCopied | src/iniparser.c:199-219 | a value is copied to its newline, or as far as the buffer goes |
| IniLookup.EntryCompared | src/iniparser.c:176-219 | an entry gives its value, as far as the buffer goes, if its key is a nonempty prefix of the key asked for, and is otherwise passed, whatever its value |
| IniLookup.SectionsAnswer | src/iniparser.c:132-222 | a lookup gives exactly the answer read off the document: the value of the first key that is a nonempty prefix of the one asked for, in the first section whose name is such a prefix; without one, -1 if a section follows and an empty text if not; only values on the way to that section matter, and only if they look like its heading |
| IniLookup.LookFromStart | src/iniparser.c:120-222 | the same for a lookup over a whole printed document |
| IniLookup.JunkPassed | src/iniparser.c:132-150 | up to two bytes read before a heading cannot disturb the lookup, whatever they are |
| IniLookup.LookAtSection | src/iniparser.c:120-222 | started at a heading or up to two bytes before it, the lookup answers for the sections from there on |
| IniLookup.OwnKeysOnly | src/iniparser.c:120-222 | asked by its own name a section answers with its own keys only, whatever other entries hold: its first matching value, else -1 if a section follows, else an empty text |
| IniLookup.ValueAtEnd | src/iniparser.c:199-219 | a value on a last line without its newline takes the end-of-file mark for one more character if there is room |
| IniLookup.KeyOverLines | src/iniparser.c:168-190 | a key whose letters stand on two lines, the first without an equals sign, is matched across the newline |
| IniLookup.WritesOutside | src/iniparser.c:199-219 | the terminator is written behind the caller's buffer if and only if the value found fills the buffer |
| ShellConfig.ChooseSection | src/jk_chrootsh.c:286-295 | in any file the user's section, else the group's, else the default one is chosen among the names the file yields, with a position computed from where the search stopped |
| ShellConfig.ChoosesAmongSections | src/jk_chrootsh.c:286-292 | on a document whose brackets do no harm these are its own sections |
| ShellConfig.PositionOfSection | src/jk_chrootsh.c:295-295 | with no bracket before the first heading of that name the position is the offset of the heading's own bracket |
| ShellConfig.ReadsChosenSection | src/jk_chrootsh.c:295-312 | every key is then read from the chosen section itself, whatever other entries hold and even if an earlier name is a prefix of the chosen one |
| SocketScan.HaveSocket | src/jk_socketd.c:245-251 | true exactly if one of the sockets has the path |
| SocketScan.GetUnsigned | src/iniparser.c:224-234 | the key's number wrapped to 32 bits, or the largest one if the section ends without it |
| SocketScan.RoundTime | src/jk_socketd.c:384-385 | the round time is between a hundredth of a second and a minute |
| SocketScan.ReadSocket | src/jk_socketd.c:369-385 | a section's socket gets the section's own rates, replaced by 511 and 2048 when out of range, with the old spelling of peak as a fallback, and its interval, replaced by five seconds when out of range |
| SocketScan.KeysAt | src/jk_socketd.c:369-374 | from two bytes before a heading, or before the start of the file when the seek fails, lookups see exactly that section's own keys |
| SocketScan.ScanTurn | src/jk_socketd.c:357-399 | one turn opens the socket the next section asks for, or skips it, and leaves the file just after that section's heading although it moved in between |
| SocketScan.ScanConfig | src/jk_socketd.c:357-400 | on every document whose brackets do no harm to the names the loop sees every section exactly once, in order, and opens exactly the sockets the document asks for, each with the rates and the round time its section asks for |
| SocketScan.OpenedIsSound | src/jk_socketd.c:357-400 | distinct paths, at most 128 sockets, every one from a section of the file and with a configuration the limiter's bounds hold for |
| SocketScan.ScanOpensAsConfigured | src/jk_socketd.c:369-399 | the sockets come in the order of the file, each from the first section of its path that could be opened; a base from 10 to 1000000 is used as it is, any other is 511; a peak from 100 to 10000000 and not below the base is used, else such a value of peek, else 2048; an interval from a hundredth of a second to a minute is used, else five seconds |
| SocketScan.OpenedAreLimited | src/jk_socketd.c:357-482 | under any interleaving the sockets the scan opens together send at most the sum of their limits in any span of time |
| SocketScan.OpenedIsComplete | src/jk_socketd.c:357-400 | unless 128 sockets are open, every section whose socket could be created is served |
| SocketScan.MissingRates | src/jk_socketd.c:372-383 | a section without rates gets base 511 and peak 2048 |
| PasswdMerge.Jail.DropListed | py/jk_lib.py:778-793 | the requests left are those the lines of the jail did not take away; in the group file a line of exactly two fields raises IndexError |
| PasswdMerge.Jail.CopyUsers | py/jk_lib.py:796-808 | the wanted lines of the system's file are appended in order, and their primary groups join the requested groups, until a wanted line of exactly three fields, which is still written, raises |
| PasswdMerge.Jail.CopyGroups | py/jk_lib.py:833-843 | the wanted lines of the system's group file are appended in order, until a line of exactly two fields with another name raises |
| PasswdMerge.Jail.InitPasswdAndGroup | py/jk_lib.py:763-844 | for any files and requests: both files afterwards, and whether an IndexError ended the function in between |
| PasswdMerge.RaisesExactly | py/jk_lib.py:763-844 | it raises if and only if a user's line to be copied has exactly three fields, or the jail's group file has a line of exactly two, or the system's has one with a name not wanted while a group is |
| PasswdMerge.MergesBoth | py/jk_lib.py:763-844 | without such lines both files become their merged forms, the groups' requests extended by what the users brought |
| PasswdMerge.RaisedByUser | py/jk_lib.py:796-808 | what is left behind when a user's line raises: passwd with the copied lines up to and with the first of three fields, group as it was |
| PasswdMerge.GroupOutcome | py/jk_lib.py:809-844 | without such a line, for any group files: passwd merged, and group as it was if a line of its own raises, else with exactly the wanted lines of the system's file, up to the first that raises, or all if none does |
| PasswdMerge.AppendLines | py/jk_lib.py:794-802 | appending lines, of which the last may lack its newline, to a newline-terminated file appends them to its lines, and the file is terminated again exactly if they all are |
| PasswdMerge.GluedLines | py/jk_lib.py:793-802 | appended to any other file, the first of them is glued to the file's last line |
| PasswdMerge.MergedLines | py/jk_lib.py:793-802 | the lines of a merged file, for any jail file and any system file: the old and the copied ones if the jail's file ends in a newline or nothing is copied, and otherwise the same with two of them glued |
| PasswdMerge.MergedEnds | py/jk_lib.py:793-802 | two files that end in a newline are merged into one that does, so the next merge glues nothing either |
| PasswdMerge.KeepsLines | py/jk_lib.py:793-802 | the merge keeps every line the jail's file had if and only if that file ends in a newline or nothing is copied |
| PasswdMerge.GluedEntryIsLost | py/jk_lib.py:793-802 | an entry of four fields or more without its newline and a requested entry of the system become one line, which does not list what was requested |
| PasswdMerge.GluedInput | py/jk_lib.py:793-802 | such an input: the jail lists a without a newline, b is requested |
| PasswdMerge.PruneCount | py/jk_lib.py:779-793 | each mention in the jail takes away one request: what is left of a name is the excess of its requests over its mentions |
| PasswdMerge.PruneExact | py/jk_lib.py:779-793 | a request without repeats is left exactly when no line of the jail lists it |
| PasswdMerge.PickExact | py/jk_lib.py:798-807 | exactly the lines whose name or number is requested are picked |
| PasswdMerge.PickInOrder | py/jk_lib.py:798-807 | in the order of the file, each as often as it stands there |
| PasswdMerge.CopiesNothing | py/jk_lib.py:763-844 | nothing is copied if and only if no name the system lists is requested more often than the jail mentions it |
| PasswdMerge.MergeIsComplete | py/jk_lib.py:763-844 | if the jail's file ends in a newline or nothing is copied, then whatever is requested and however often: old lines stay as a prefix; a line is added exactly if the system has it for a name requested more often than the jail mentions it; every requested name or number the system lists ends up listed |
| PasswdMerge.GroupsJoin | py/jk_lib.py:805-806 | the requested groups grow by exactly the fourth fields of the copied users' lines, none of them twice |
| PasswdMerge.GroupCount | py/jk_lib.py:805-806 | a group is requested as often as on the command line, once if it is only a copied user's primary group, and not at all otherwise |
| PasswdMerge.PrimaryGroupsFollow | py/jk_lib.py:763-844 | if the jail's group file ends in a newline or nothing is copied to it, every copied user's primary group ends up in it if the system's has it |
| PasswdMerge.GroupLinesAdded | py/jk_lib.py:763-844 | under the same hypothesis a line joins the jail's group file if and only if the system has it and its name or number is asked for, on the command line or as a copied user's primary group, more often than the jail mentions it |
| PasswdMerge.SecondMergeExact | py/jk_lib.py:763-844 | after a merge into a file that ends in a newline, or that copied nothing, a second merge leaves the file alone if and only if no name the system lists is requested more often than the old and the copied lines mention it |
| PasswdMerge.SecondMergeChangesNothing | py/jk_lib.py:763-844 | so for requests without repeats, and under that newline hypothesis for both files, a second merge changes neither |
| PasswdMerge.RepeatedRequestCopiesAgain | py/jk_lib.py:786-792 | an input on which it does: a name requested twice whose entry mentions it once |
| EnvFilter.InArray | src/jk_chrootsh.c:113-122 | true exactly if the list has the key |
| EnvFilter.Process.UnsetEnvironExcept | src/jk_chrootsh.c:124-146 | the restarting loop ends, unless stuck, with nothing if the list is empty or an entry has no equals sign, and otherwise with exactly the entries whose key is listed, each as often as before and in their order |
| EnvFilter.KeptExact | src/jk_chrootsh.c:137-145 | what remains is exactly the entries with a listed key, each as often as before |
| EnvFilter.KeptInOrder | src/jk_chrootsh.c:137-145 | and in their order |
| EnvFilter.KeyOfEntry | src/jk_chrootsh.c:130-136 | of an entry written as key, equals sign and value the key is the key |
| EnvFilter.NoKey | src/jk_chrootsh.c:130-136 | and an entry has one exactly if it has an equals sign |
| EnvFilter.UnsetOne | src/jk_chrootsh.c:137-142 | removing one unlisted variable shortens the environment and changes neither the outcome nor whether the walk gets stuck |
| EnvFilter.EndsUnlessStuck | src/jk_chrootsh.c:130-145 | the walk over a nonempty environment with a nonempty list ends if and only if no entry with an empty, unlisted key comes before the first entry without a key |
| Includes.JkInit.HandleCfgSection | py/jk_init.in:87-116 | the recursion terminates from every section whose chains of inclusions end, cycles elsewhere or not, and does what its functional form says |
| Includes.JkInit.ActivateConfig | py/jk_init.in:159-164 | all existing sections named on the command line are handled in turn by one object |
| Includes.HandleGood | py/jk_init.in:96-100 | one call marks exactly what the section reaches, processes each newly reached section once, and keeps inclusions before includers |
| Includes.IncludedFirst | py/jk_init.in:96-116 | wherever a section was processed, all it includes, directly or not, had been processed before |
| Includes.WholeRun | py/jk_init.in:87-164 | over a whole run a section is processed once for each time it is named and once more if some named section reaches it, so exactly once if reached by inclusion only |
| Includes.ArgsInOrder | py/jk_init.in:159-164 | the named sections are processed in the order named, each right behind sections it reaches |
| Includes.SiblingsInOrder | py/jk_init.in:96-100 | the sections one section includes are processed in the order listed, each right behind sections it reaches; one included before, or reached from an earlier one of the list, is passed |
| Includes.EndsIfGrounded | py/jk_init.in:96-100 | started with nothing done, the recursion from a section ends if and only if the chains of inclusions from it are bounded |
| Includes.CycleNeverEnds | py/jk_init.in:96-100 | so from a section that reaches a cycle of inclusions it never ends |
| Includes.RunIsHandle | py/jk_init.in:87-116 | where it ends, the recursion as written gives the answer the other results speak of |
| JailHome.GetJailDir | src/jk_lib.c:183-199 | splits at the last admissible separator, the two parts and a dot making up the input; fails exactly if there is none |
| JailHome.JailSplitIs | src/jk_lib.c:183-199 | the last admissible separator determines the answer |
| JailHome.JailSplitSound | src/jk_lib.c:185-197 | jaildir has at least three bytes, newhome is not empty, and jaildir, a slash-dot and newhome are the input |
| JailHome.DirsEqualMeans | src/jk_lib.c:165-178 | equal, or one of them has exactly one more slash at its end, where an empty text ends in the byte before it |
| JailHome.StrayByteDecides | src/jk_lib.c:172-174 | that byte decides the answer exactly when one text is empty and the other a slash |
| JailHome.WrittenForm | py/jk_jailuser.in:193-206 | the home written is the jail, a slash-dot, and what follows the jail in the old home, less one final slash |
| JailHome.StoredForm | py/jk_jailuser.in:125-131 | the home stored in the jail is the old home without the jail's path wherever it starts with that path |
| JailHome.SeparatedForm | py/jk_jailuser.in:122-131 | a home with the separator right behind the jail is kept as written, less one final slash, and stored without the jail and its dot |
| JailHome.StoredIsAbsolute | py/jk_jailuser.in:122-131 | the stored home is an absolute path if and only if the old home is not the jail itself and does not merely begin with the jail's letters |
| JailHome.PrefixSharedHome | py/jk_jailuser.in:122-131 | an input on which it is not: the home /abc and the jail /ab/ give c |
| JailHome.SplitWritten | src/jk_lib.c:183-199 | splitting a written home gives the jail back exactly if something other than a lone slash follows it |
| JailHome.HomesAgree | py/jk_jailuser.in:193-206 | for every jail path of three bytes or more and every absolute home free of separators, the split recovers the jail and a home equal to the one stored in the jail if and only if the home is separable: not the root, not the jail itself, not merely beginning with the jail's letters, not ending in two slashes |
| JailHome.SeparatedAgree | py/jk_jailuser.in:193-206 | for a home with the separator right behind the jail they agree if and only if a place of its own follows it |
| ListText.StripString | src/jk_lib.c:201-211 | the buffer then holds the stripped text and its terminator, moved in place; the byte before the text is read exactly if the text is empty, and has no influence |
| ListText.StripMeans | src/jk_lib.c:201-211 | what is left is the text between its outer white space; of white space alone the last character stays |
| ListText.ImplodeArray | src/jk_lib.c:64-85 | the words joined by the delimiter, in a buffer that holds them and the terminator |
| ListText.JoinedFits | src/jk_lib.c:65-75 | the joined text and its terminator fit the computed size |
| ListText.CountChar | src/jk_lib.c:213-222 | the number of occurrences |
| ListText.PiecesCount | src/jk_lib.c:228-229 | there is one piece more than there are delimiters, so pieces and NULL fit the slots |
| ListText.ExplodeString | src/jk_lib.c:224-251 | the array holds the stripped nonempty pieces in order and then NULL, all within its bounds, for every input; a byte before a piece is read exactly if there is an empty piece |
| ListText.KeptAreWords | src/jk_lib.c:240-246 | whatever is split off is nonempty, stripped and free of delimiters |
| ListText.OnePiece | src/jk_lib.c:232-247 | an empty piece is dropped, any other kept as the text between its outer white space, or its last character if it is white space alone |
| ListText.KeptInOrder | src/jk_lib.c:232-247 | the pieces are treated one by one, in their order |
| ListText.RoundTrip | src/jk_lib.c:64-251 | joining and splitting gives a list back if and only if its items are nonempty, stripped and free of the delimiter |
| Paths.FixDoubleSlashes | py/jk_lib.py:405-415 | the loop drops every slash that follows a slash |
| Paths.SplitPath | py/jk_lib.py:417-423 | the components of the path, lexically resolved, for every absolute path |
| Paths.SplitEnds | py/jk_lib.py:419-422 | whatever text normalisation returns, the loop ends if and only if that text is absolute |
| Paths.JoinPath | py/jk_lib.py:425-431 | the absolute path made of the components, a slash alone if there is none |
| Paths.FixNormpath | py/jk_lib.py:419-419 | after normalisation and slash removal a path is printed from its components |
| Paths.LastComponent | py/jk_lib.py:420-422 | of a printed path, the base name is the last component and the directory name is the path printed from the others |
| Paths.NormalForm | py/jk_lib.py:405-431 | joining the split of an absolute path gives its normal form: plain components only, fixed by a second round, and the path itself exactly if its components were plain |
| RealPath.TargetText | py/jk_lib.py:262-272 | a link leads to its own text reduced to plain components, read from the jail when it is absolute and from the link's directory when not; it is never refused while it stays in the jail |
| RealPath.ResolveRealpath | py/jk_lib.py:247-273 | the loop follows the path component by component, keeping the last one unfollowed unless asked, and raises on missing names and empty paths |
| RealPath.ClearRuns | py/jk_lib.py:265-271 | where a link's text meets only existing, link-free names inside the jail, normalising it first agrees with walking it name by name |
| RealPath.NextIsFull | py/jk_lib.py:258-272 | one turn of the loop over components and the reference reach the same place, inside the jail and free of links |
| RealPath.WalkIsFull | py/jk_lib.py:258-272 | so the loop over components agrees with resolution by a process rooted at the jail, and its result has no link among its prefixes |
| RealPath.FollowIsWalk | py/jk_lib.py:258-272 | the loop over path texts does what the loop over components does |
| RealPath.ResolvesInJail | py/jk_lib.py:247-273 | with a link-free jail path or none, existing names and clear link texts, the function reaches the place a process confined to the jail would reach, below the jail, with no link among its prefixes |
| RealPath.MissingRaises | py/jk_lib.py:256-260 | where all names up to one that is missing are as there, the function raises |
| RealPath.FinalPath | py/jk_lib.py:247-273 | what is returned then: that place and a final slash, or that place and the unfollowed last name |
| RealPath.RootPath | py/jk_lib.py:248-249 | the answer given at once for a lone slash is that of the general rule, for no names at all |
| JailEscape.PrefixTest | py/jk_lib.py:269-269 | the containment test accepts a place exactly if it agrees with the jail up to its last name and there has a name merely beginning with it |
| JailEscape.LinkLands | py/jk_lib.py:264-272 | for any jail and any link text: an absolute text leads to its place below the jail's path, which may be outside the jail, without a test; a relative one to its place if that place passes the test, and to the exception if not; an empty one raises |
| JailEscape.LinkOnTheWay | py/jk_lib.py:258-272 | a path whose names are fair up to a link goes on from where the link lands, or raises if it is refused |
| JailEscape.PassesRuns | py/jk_lib.py:265-271 | over existing names that are no links, a process confined to the jail goes where the text leads when no step goes above the jail |
| JailEscape.ReduceIsInside | py/jk_lib.py:266-268 | the lexical reduction of a text gives that place if and only if the text, read name by name, never asks to go above the jail |
| JailEscape.ClearIs | py/jk_lib.py:265-271 | the condition of the agreement results of RealPath is exactly that, with existing, link-free names |
| JailEscape.LinkAgrees | py/jk_lib.py:264-272 | a link is followed to the place a confined process would reach if and only if its text is not empty, does not, without a jail, start with exactly two slashes, and never asks to go above the jail |
| JailEscape.SiblingEscapes | py/jk_lib.py:268-271 | relative links that get out: to any sibling whose name begins with the jail's |
| JailEscape.ClimbEscapes | py/jk_lib.py:265-266 | absolute links that get out: an absolute text that climbs leads to a true directory where a confined process would come to one of the jail |

## Left out

- Process, privilege and socket plumbing: system calls on one path; a message is a number of bytes from 1 to 512, time a number that does not decrease, and a sleep lasts at least as long as asked.
- Command output, the answers of `lstat`, `readlink` and `fnmatch`, and number parsing (`sscanf`) are parameters.
- The flags APPEND, DOOFFS and REUSE of `wordexp`, and failing allocation.
- The newline chop and the read retry at the end of `exec_comm`.
- Ownership and mode checks, option parsing, logging, copying of files and library lists.
- The BSD branch of the passwd merge.
- Threads interleave by whole messages in `SharedLimit`; the fields of a link are touched by its own thread only.
- Wordexp: command substitution, backquotes, `${...}`, tilde and globbing end in the outcome OtherExpansion; field splitting and pattern removal are modelled on the value alone.
- ParseDollars: command substitution and parameters end in OtherExpansion.
- ParseDquote: backquotes, command substitution and parameters inside the quotation end in OtherExpansion.
- ParseArith: backquotes, command substitution and parameters inside the expression end in OtherExpansion.
- ArithTurn: likewise.
- ParseCloseArith: the NULL expression of an empty expansion, which the source dereferences, is one undefined outcome.
- EvalCollected: likewise.
- EvalExpression: signed overflow and division by zero, undefined in C, are one outcome that ends the evaluation.
- Remove: starts where the value is set and the pattern nonempty; the guard before it is not modelled.
- CollectWhite: an unset IFS, replaced by blank, tab and newline, is not modelled.
- FindLine: files with NUL bytes are excluded.
- InternalGetpwuid: numbers beyond an int in the gid field, undefined in C, read as themselves.
- NextSection: section names of any length; the source's callers give 256 or 1024 bytes and the length is never looked at.
- HasSection: likewise.
- Ini documents have nothing between a heading's `]` and its newline; whatever stands there in a file is read as a line of the section.
- SectionsAnswer: documents whose other lines have an `=` and whose last line ends in a newline; what happens without that is in `KeyOverLines` and `ValueAtEnd`.
- GetUnsigned: strip_string and sscanf together are some function of the text.
- ReadSocket: the interval's text reads as a real number; binary rounding is not modelled.
- ScanConfig: documents on which the names are wrong, which `NamesRoundTrip` tells exactly, are excluded.
- UnsetEnvironExcept: environments on which the source never ends are excluded; `EndsUnlessStuck` says which these are.
- HandleCfgSection: sections that reach a cycle of inclusions, on which the source never ends, are excluded, and `EndsIfGrounded` says exactly which these are; the copying of files is one entry in a log.
- ActivateConfig: likewise.
- SplitPath: relative paths, on which the source never ends (`SplitEnds`), are excluded.
- ResolvesInJail: is about paths all of whose links have texts that stay in the jail and pass through existing names that are no links. What one link does otherwise is in `LinkLands` and `LinkAgrees`, how the path goes on in `LinkOnTheWay`, a missing name in `MissingRaises`; what a whole path does behind a link that got out is not stated. With no jail, a link text with exactly two leading slashes keeps them and is excluded here.
- FinalPath: likewise.
- HomesAgree: homes without the separator; those that have it right behind the jail are in `SeparatedAgree`, any others are covered by the general split only.
