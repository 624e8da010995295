# Verification of the JSON engine and the OTP sessions of SMSauth

A Dafny model of the two parts of the PAM module that carry its logic, with proofs about them.

**The JSON engine** (`src/pam_smsauth/json/`). `printbuf.dfy`, `array_list.dfy` and `linkhash.dfy` model the
growable buffers and the hash table as classes over arrays, with loops and pointer writes as in the C code.
`tokener.dfy` is the parser: one loop over an explicit state, with the shared print buffer and recursive calls. It is
proved to compute the recursive-descent reading of `reader.dfy`. `rfc8259.dfy` describes JSON texts and their meaning
by a grammar of its own and proves that the reading accepts them all; `dialect.dfy` says in characters what the parser
makes of everything else. `printer.dfy` is the printer, and `format.dfy` says what its text looks like. Grammar, reader
and printer share the value of decimal and hexadecimal digits, which `decimals.dfy` ties down by order and size; the
UTF-8 of an escape is checked against a decoder. `round_trip.dfy` joins printer and parser; `layout.dfy` and
`backslash.dfy` say exactly where they part. `bounds.dfy` says where the parser stays inside the text, `overrun.dfy`
exactly when it does not. `ref_count.dfy` models the reference counts of the object tree.

**The OTP sessions.** `otp.dfy` models generation and comparison, `status_table.dfy` the table `pam_status`,
`session.dfy` the procedure `pam_sm_authenticate`. `serial_sessions.dfy` proves what holds over runs of sessions that
do not overlap, `outcomes.dfy` what each call returns, `interleaved_sessions.dfy` what is left when sessions take turns
at every table call.

The main results, each for all inputs or all runs:

- The state machine refines the recursive reading on every NUL-terminated text, comments and doubles included, and
  terminates (`Tokener.Tokener.Parse`).
- Standard JSON texts are accepted with their meaning (`Rfc8259.StandardTextsAreAccepted`), printed values are such
  texts (`RoundTrip.PrintedTextIsStandard`), hence printer and parser undo each other (`RoundTrip.ReadBack`), and a
  tree survives exactly if no backslash is in its strings and keys (`Backslash.ValuesReadBack`).
- The hash table is an insertion-ordered map through every run of additions, deletions and resizes
  (`LinkHash.Run`); lookups end under a stated if-and-only-if condition, which objects filled by
  `json_object_object_add` always meet.
- `json_object_put` frees exactly what becomes unreachable, each object once (`RefCount.Heap.Put`).
- Each result of a call has its exact condition in terms of arguments, surroundings and table (`Outcomes.Results`).
- An accepted token is an OTP generated at most an hour before the start of the call, in a session of the same user,
  and never replaced meanwhile (`SerialSessions`); in every interleaving it was sent to that user first
  (`Interleaved.Provenance`). How long the user takes to answer does not matter: the timestamp is not looked at again
  (`Interleaved.LateAnswerIsAccepted`).

Six promises one would expect are false of the code. Each has a counterexample and an exact condition:

- The round trip of backslashes: `Backslash.BackslashIsNotReadBack`, and `Backslash.ValuesReadBack` for every tree.
- Reading in bounds with comments: `Bounds.UnclosedCommentOverruns`, and `Overrun.OverrunExactly` for every text.
- The end of lookups after deletions: `LinkHash.DeletesExhaustTheTable`, `LinkHash.Table.LookupMayNotEnd`.
- One row for each user when first sessions overlap: `Interleaved.TwoRowsForAUser`,
  `StatusTable.InsertionKeepsOneRowEach`.
- An OTP that stays when sessions overlap: `Interleaved.SentOtpIsRefused`, `Interleaved.OtpIsReplacedExactly`.
- An OTP that reaches the user as a whole: `Otp.LongOtpsAreCut`.

How the model is set up:

- C strings are sequences of bytes without NUL; a text to parse has its one NUL at the end. Pointers into the hash
  table are slot indices, NULL is -1. Error codes packed into pointers are the outcomes `Failed` and `Overread`.
- The parser builds values of a datatype. Their arrays and objects change by `+ [v]` and `OrderedMap.Add`, the
  operations that `ArrayList.ArrayList.Add` and `LinkHash.Table.ObjectAdd` are proved to perform.
- `sscanf` is a parameter where the platform decides: which double literals `%lf` accepts, and what `%d` yields for
  digits that do not fit. The text that `%lf` prints is a parameter as well. No theorem depends on these choices.
- The hash function is any function of the key; `count > size * 0.66` is `100 * count > 66 * size`.
- In the heap of reference counts the objects are cells of a sequence, and the references held outside are a ghost
  multiset. An operation on a container requires that the value to be stored does not reach the container: the
  contract of `json_object.h:108-120` leaves the graph without cycles to the caller.
- The session model takes the user, the clock, the outcome of `user_get_info`, of `otp_gen` and of `sms_send`, and
  what the user types from the call, all arbitrary; an OTP is any string of the configured length and alphabet, which
  `Otp.OtpGen` and `Otp.EveryOtpIsGenerated` justify. Whether the database can be opened is arbitrary for each step;
  the serial theorems assume that it can. The bounds of otplen and expir are those of `pam_parse_args.c:31-41`.

Where code and comments disagree the model follows the code: `pam_register_var.h:9-16` and `40-46` promise 0 on
success where the wrappers return 1, and `sqlite_client.h:17-24` promises 1 for a variable that exists where
`sqlite_is_field_empty` returns 0.

## Model

| member | source | states |
|---|---|---|
| Bytes.Characters | src/pam_smsauth/json/json_tokener.c:98-150 | The characters and words that the code tests for are those of its character and string literals. |
| Bytes.Classes | src/pam_smsauth/json/json_object.c:32-33 | White space, digits, quotes and the characters of numbers and hexadecimal digits, member by member. |
| Bytes.HexChars | src/pam_smsauth/json/json_object.c:33-33 | The d-th hexadecimal character stands for d, and for nothing else. |
| PrintBuf.PrintBuf.constructor | src/pam_smsauth/json/printbuf.c:28-40 | A new buffer is empty and has room for 32 bytes. |
| PrintBuf.PrintBuf.MemAppend | src/pam_smsauth/json/printbuf.c:43-61 | The content is extended by exactly the given bytes and NUL-terminated inside the capacity. `Valid` keeps the capacity within max(32, twice the longest content ever held) and the sum of all old capacities copied by growth within the present capacity. |
| PrintBuf.PrintBuf.Reset | src/pam_smsauth/json/printbuf.c:132-136 | The content is empty and terminated; capacity and growth account stay as they are. |
| ArrayList.ArrayList.constructor | src/pam_smsauth/json/arraylist.c:26-40 | A new list is empty with 32 NULL slots. |
| ArrayList.ArrayList.GetIdx | src/pam_smsauth/json/arraylist.c:52-57 | The element at an index, NULL from the length on; a negative index, which is not checked, is out of bounds. |
| ArrayList.ArrayList.Expand | src/pam_smsauth/json/arraylist.c:59-71 | Growth keeps the content, takes the larger of twice the size and the index asked for, and leaves only NULL behind the length. |
| ArrayList.ArrayList.PutIdx | src/pam_smsauth/json/arraylist.c:73-81 | The write is out of bounds if and only if the index is negative or at least twice the old size. Otherwise the list becomes the sparse sequence with that element, padded with NULL, and exactly the replaced element is freed. |
| ArrayList.ArrayList.Add | src/pam_smsauth/json/arraylist.c:83-87 | Adding appends, is never out of bounds, frees nothing and keeps the capacity within max(32, 2 * length). |
| ArrayList.ArrayList.Free | src/pam_smsauth/json/arraylist.c:42-50 | Every element that is not NULL is freed once, in order. |
| ArrayList.PutIsAccounted | src/pam_smsauth/json/arraylist.c:73-81 | One put conserves the account: what was stored is in the list or freed, each element once. |
| ArrayList.AddingIsCheap | src/pam_smsauth/json/arraylist.c:59-87 | A run of additions alone, of any length, is always in bounds and ends with at most max(32, 2 * length) slots. |
| ArrayList.AddingAppends | src/pam_smsauth/json/arraylist.c:83-87 | After a run of additions the list is the old one and behind it the elements added, in order. |
| ArrayList.ElementsInOrder | src/pam_smsauth/json/arraylist.c:42-50 | What is freed of two stretches of a list is what is freed of the first and then of the second. |
| ArrayList.Run | src/pam_smsauth/json/arraylist.c:26-87 | For every run of additions and puts on a new list: it is in bounds if and only if each index is below twice the capacity reached so far; then the list is the sparse sequence built, and every element stored is in it or was freed, once. |
| OrderedMap.AddIsUpdate | src/pam_smsauth/json/json_object.c:255-260 | Delete-then-insert is a map update: the key gets the value, every other key keeps its own, keys stay distinct. |
| LinkHash.Table.constructor | src/pam_smsauth/json/linkhash.c:57-77 | A new table has no entries and only EMPTY slots. |
| LinkHash.Table.Insert | src/pam_smsauth/json/linkhash.c:124-155 | The entry goes to the end of the list, into the first slot of its probe that is not live. Above a load of 0.66, and only then, the table is doubled first, once, with no tombstone left. `Valid` says throughout that the list from head visits exactly the live slots once, that next, prev, head, tail and count agree, and that every live key is reached from its hash slot before any EMPTY slot. |
| LinkHash.Table.FindFree | src/pam_smsauth/json/linkhash.c:131-138 | The probe ends in any table that is not full, at the first slot that is EMPTY or FREED. |
| LinkHash.Table.Link | src/pam_smsauth/json/linkhash.c:140-152 | Filling the slot and hanging it behind the tail keeps all of `Valid`. |
| LinkHash.LinkKeepsChain | src/pam_smsauth/json/linkhash.c:144-152 | The pointer writes of an insertion give a correct doubly linked list, one entry longer at its end. |
| LinkHash.LinkKeepsReachable | src/pam_smsauth/json/linkhash.c:131-138 | Filling the first free slot of the probe leaves every key reachable. |
| LinkHash.Table.Resize | src/pam_smsauth/json/linkhash.c:91-109 | Doubling keeps the ordered list of entries and the count, and leaves no tombstone. |
| LinkHash.Table.CopyTo | src/pam_smsauth/json/linkhash.c:96-101 | Copying along the list fills the new table with the same ordered list and never resizes it. |
| LinkHash.Table.LookupEntry | src/pam_smsauth/json/linkhash.c:158-171 | Where the probe can end it does, with NULL if and only if the key is absent, and otherwise with the live slot of the key. |
| LinkHash.Table.LookupMayNotEnd | src/pam_smsauth/json/linkhash.c:164-169 | A probe stops if and only if some slot is EMPTY or the key is present; otherwise it goes on at every slot. |
| LinkHash.Table.Lookup | src/pam_smsauth/json/linkhash.c:174-179 | Lookup agrees with the insertion-ordered map. |
| LinkHash.Table.DeleteEntry | src/pam_smsauth/json/linkhash.c:182-208 | The result codes -2, -1 and 0, each with its exact condition; a position behind the table, which is not checked, is out of bounds; on 0 the entry leaves the list, is given to free_fn once, and only its slot becomes FREED. |
| LinkHash.Table.UnlinkSlot | src/pam_smsauth/json/linkhash.c:190-206 | In all four cases (only, first, last, middle entry) exactly the neighbours are joined and head and tail moved. |
| LinkHash.UnlinkKeepsChain | src/pam_smsauth/json/linkhash.c:194-206 | After the pointer writes of a deletion the list is correct and lacks exactly that entry. |
| LinkHash.UnlinkKeepsReachable | src/pam_smsauth/json/linkhash.c:190-193 | A tombstone cuts no key off. |
| LinkHash.Table.Delete | src/pam_smsauth/json/linkhash.c:211-216 | 0 if and only if the key was present; then exactly its entry is gone, otherwise nothing changes. |
| LinkHash.Table.Visit | src/pam_smsauth/json/linkhash.h:145-146 | The walk from head meets every entry once, in insertion order, and ends. |
| LinkHash.Table.Free | src/pam_smsauth/json/linkhash.c:111-121 | Every entry is given to free_fn once, in order. |
| LinkHash.Table.ObjectTableHasEmpty | src/pam_smsauth/json/linkhash.c:129-129 | A table filled only by json_object_object_add has an EMPTY slot, so every lookup ends. |
| LinkHash.SlotIsReused | src/pam_smsauth/json/linkhash.c:134-138 | Without tombstones, an insertion after the deletion of the same key stops at the very slot just freed, and no tombstone is left. |
| LinkHash.Table.ObjectAdd | src/pam_smsauth/json/json_object.c:255-260 | In any table in which the lookup of the key ends, tombstones or not: the ordered map is updated, a replaced key moves to the end, exactly the replaced value is freed. In a table that was only filled, a replacement causes no resize and leaves every slot's kind as it was, and no tombstone remains. |
| LinkHash.Table.ObjectDel | src/pam_smsauth/json/json_object.c:267-270 | In any such table the key is removed from the ordered map, the others keep their order, and exactly its value is freed. |
| LinkHash.NewObject | src/pam_smsauth/json/json_object.c:233-242 | A new object has an empty table of 16 EMPTY slots. |
| LinkHash.FillObject | src/pam_smsauth/json/json_object.c:233-260 | For every sequence of additions to a new 16-slot object and every hash function: the result is the ordered map of the additions, without tombstone and with an EMPTY slot. |
| LinkHash.Run | src/pam_smsauth/json/json_object.c:233-270 | For every run of additions and deletions on a new object, in any order and with every hash function: the table is the ordered map of the operations done and everything replaced or deleted was freed once, in order; the run stops early only where neither an EMPTY slot nor the key itself ends the next lookup. |
| LinkHash.DeletesExhaustTheTable | src/pam_smsauth/json/linkhash.c:158-193 | Deletes break that: sixteen keys inserted and deleted in turn leave an empty table in which no lookup ends. |
| Reader.Text.ParseAt | src/pam_smsauth/json/json_tokener.c:70-465 | The recursive-descent reading the loop is proved to follow; a success consumes at least one character, which is what makes nested calls terminate. |
| Tokener.Tokener.Parse | src/pam_smsauth/json/json_tokener.c:36-47 | For every NUL-terminated text the state machine gives the verdict, value, error and end position of the recursive-descent reading. |
| Tokener.Tokener.DoParse | src/pam_smsauth/json/json_tokener.c:70-465 | The same for an activation at any position with any content in the shared buffer; it terminates, by remaining input and a rank on the state. |
| Tokener.Tokener.Step | src/pam_smsauth/json/json_tokener.c:83-452 | One turn of the loop keeps the invariant that the rest of the run yields the reading's result, advances or lowers the rank, and after the NUL decides as the code behind the loop does. |
| Tokener.Tokener.StepEatws | src/pam_smsauth/json/json_tokener.c:87-96 | White space and the start of a comment lead to the reading of the gap. |
| Tokener.EntryIsAfterGap | src/pam_smsauth/json/json_tokener.c:87-96 | Entering eatws with any saved state means: skip the gap, then resume that state. |
| Tokener.Tokener.StepComment | src/pam_smsauth/json/json_tokener.c:172-215 | The four comment states as coded: a star before the closing slash swallows a second star, and a NUL inside a comment is stepped over. |
| Tokener.Tokener.StepStart | src/pam_smsauth/json/json_tokener.c:98-154 | The first character of a value leads into the state that reads that kind of value. |
| Tokener.Tokener.StepNull | src/pam_smsauth/json/json_tokener.c:159-170 | The repeated prefix comparison reads null in any case, character by character. |
| Tokener.Tokener.StepBoolean | src/pam_smsauth/json/json_tokener.c:297-320 | The two prefix comparisons read true or false in any case; no text passes as both. |
| Tokener.KeywordStep | src/pam_smsauth/json/json_tokener.c:159-170 | Comparing all k characters again decides only about the last of them. |
| Tokener.Tokener.StepNumber | src/pam_smsauth/json/json_tokener.c:322-344 | The literal ends before the first other character, is a double if and only if it has a point or an e, and is converted or refused as sscanf does. |
| Tokener.Tokener.StepString | src/pam_smsauth/json/json_tokener.c:399-411 | In strings and field names the copying in runs equals a mapping character by character. |
| Tokener.Tokener.StepEscape | src/pam_smsauth/json/json_tokener.c:231-263 | Each escape flushes the pending run and stands for its character; any other is an error. |
| Tokener.EscapeMeaning | src/pam_smsauth/json/json_tokener.c:231-263 | The run that starts at an escaped quote or backslash itself, and the runs after the other escapes, all continue the same string. |
| Tokener.StringMeaning | src/pam_smsauth/json/json_tokener.c:217-229 | The closing quote ends the string with the buffer and the pending run, a backslash suspends it, the NUL is an error, any other character joins the run. |
| Tokener.ArrayMeaning | src/pam_smsauth/json/json_tokener.c:346-376 | Where a character leads that the syntax of an array is due at: the end, a nested value, the next value, or the error of arrays. |
| Tokener.ObjectMeaning | src/pam_smsauth/json/json_tokener.c:378-449 | Each character that an object's syntax is due at leads on as the grammar says, or is an error. |
| Tokener.WordMeaning | src/pam_smsauth/json/json_tokener.c:159-170 | A word is complete, still open, cut off by the NUL or refused as its characters so far say. |
| Tokener.NumberCharMeaning | src/pam_smsauth/json/json_tokener.c:322-344 | A number character joins the literal, any other ends it, with the double flag right. |
| Tokener.Tokener.StepUnicode | src/pam_smsauth/json/json_tokener.c:265-295 | Four lower-case hexadecimal digits append the UTF-8 of their number; the NUL, which strchr accepts, ends the text as an error. |
| Tokener.Tokener.StepArray | src/pam_smsauth/json/json_tokener.c:346-376 | A nested call appends exactly the value read; a comma may be followed by the closing bracket. |
| Tokener.Tokener.StepObject | src/pam_smsauth/json/json_tokener.c:378-449 | Field start, colon, separators and the closing brace, a trailing comma included. |
| Tokener.Tokener.StepObjectValue | src/pam_smsauth/json/json_tokener.c:423-434 | The value is stored under the name read before its colon, whatever the nested call left in the shared buffer; the last of equal names wins and moves to the end. |
| Rfc8259.Utf8IsUnique | src/pam_smsauth/json/json_tokener.c:268-287 | For each number below 65536, zero and surrogates included, the bytes appended are the only ones that decode to it by section 3 of RFC 3629. |
| Rfc8259.UnicodeMeaning | src/pam_smsauth/json/json_tokener.c:268-287 | The bytes for a \u escape are the only ones that decode to its number by section 3 of RFC 3629. |
| Rfc8259.ReadNumber | src/pam_smsauth/json/json_tokener.c:322-344 | Every integer of section 6 of RFC 8259 in the 32-bit range is read as its value. |
| Rfc8259.ReadChars | src/pam_smsauth/json/json_tokener.c:217-295 | Every sequence of characters and escapes of section 7 is read as what it means. |
| Rfc8259.ReadItems | src/pam_smsauth/json/json_tokener.c:346-376 | Every list of array items, nested to any depth, is read as the list of their values. |
| Rfc8259.ReadMembers | src/pam_smsauth/json/json_tokener.c:378-449 | Every list of object members is read as the map in which the last of equal names wins. |
| Rfc8259.RenderIsCString | src/pam_smsauth/json/json_tokener.c:36-47 | A standard text has no NUL, so it can be handed over as a C string. |
| Rfc8259.StandardTextsAreAccepted | src/pam_smsauth/json/json_tokener.c:70-465 | Every JSON text of sections 2 to 7 of RFC 8259 within the stated limits is accepted to its end with the value the standard gives it. |
| Dialect.WordsInAnyCase | src/pam_smsauth/json/json_tokener.c:297-320 | Null, true and false are read in any mixture of small and capital letters; a word that goes wrong behind its first letters is refused with the error of that word, or of the end of the text. |
| Dialect.OthersAreRefused | src/pam_smsauth/json/json_tokener.c:100-158 | A value that starts with none of the brackets, quotes, six letters, digits and the minus sign is refused as unexpected. |
| Dialect.WhiteSpaceIsSkipped | src/pam_smsauth/json/json_tokener.c:87-96 | White space is the six characters of the C locale, form feed and vertical tab included. |
| Dialect.BlockComments | src/pam_smsauth/json/json_tokener.c:184-215 | A block comment ends at the first slash with an odd number of stars right before it; without one the text ends inside it. |
| Dialect.LineComments | src/pam_smsauth/json/json_tokener.c:189-200 | A line comment ends at the first line feed, and at nothing else. |
| Dialect.OtherSlashes | src/pam_smsauth/json/json_tokener.c:172-182 | A slash that starts neither kind of comment is refused. |
| Dialect.QuotedStrings | src/pam_smsauth/json/json_tokener.c:217-233 | Between two double or two single quotes everything but a backslash stands for itself; a string that is not closed is refused. |
| Dialect.EscapesRead | src/pam_smsauth/json/json_tokener.c:235-263 | What each escape stands for; every other character behind a backslash is refused, the slash and the single quote included. |
| Dialect.CodesRead | src/pam_smsauth/json/json_tokener.c:265-295 | Four digits of 0-9 and a-f give the UTF-8 of their number; fewer of them are refused. |
| Dialect.IntLiterals | src/pam_smsauth/json/json_tokener.c:322-330 | A literal without dot and e has the value of the digits at its front, whatever follows them; a minus sign without digits is refused. |
| Dialect.DoubleLiterals | src/pam_smsauth/json/json_tokener.c:322-344 | A literal with a dot or an e is a double if sscanf takes it for one, and nothing otherwise. |
| Dialect.Numbers | src/pam_smsauth/json/json_tokener.c:322-344 | A number extends over all characters of 0123456789.+-e that follow it, and has the value of that literal or is refused. |
| Dialect.Arrays | src/pam_smsauth/json/json_tokener.c:346-376 | In an array a value or the bracket is due first and behind a comma, a comma or the bracket behind a value; anything else is refused as an error of arrays. |
| Dialect.Names | src/pam_smsauth/json/json_tokener.c:378-411 | In an object a name in either quote or the brace is due first and behind a comma; anything else is refused as an error of objects. |
| Dialect.Objects | src/pam_smsauth/json/json_tokener.c:413-449 | Behind a name the colon and a value are due, behind a value a comma or the brace; anything else is refused as an error of objects. |
| Dialect.TrailingComma | src/pam_smsauth/json/json_tokener.c:346-376 | A comma before the closing bracket changes nothing. |
| Dialect.TrailingCommaInObject | src/pam_smsauth/json/json_tokener.c:436-449 | Nor does one before the closing brace. |
| Dialect.NothingFollows | src/pam_smsauth/json/json_tokener.c:453-465 | Where the text ends or no comment begins, all of these are refused alike. |
| Printer.EscapeStr | src/pam_smsauth/json/json_object.c:82-119 | The escaping in runs appends exactly the concatenation of the escapes of the bytes, for strings of any length. |
| Printer.EscapeOne | src/pam_smsauth/json/json_object.c:86-113 | The bytes that break a run are exactly those whose escape is not the byte itself; the backslash is not one of them. |
| Printer.PrintArray | src/pam_smsauth/json/json_object.c:434-449 | The loop appends the text of the array after what was in the buffer. |
| Printer.PrintObject | src/pam_smsauth/json/json_object.c:199-219 | The loop appends the text of the object, names escaped, in list order. |
| Printer.ToJsonString | src/pam_smsauth/json/json_object.c:184-194 | The result is the text of the value, NULL being null, in a new buffer or in the one kept from an earlier call. |
| Format.EscapesAre | src/pam_smsauth/json/json_object.c:86-113 | The escape of every byte: five short ones, a code in lower-case hexadecimal digits for other control characters, the byte itself for the rest, the backslash and the slash included. |
| Format.ScalarsAre | src/pam_smsauth/json/json_object.c:278-390 | The words, the sign and digits, and the quotes in which null, booleans, ints and strings are printed. |
| Format.ArraysAre | src/pam_smsauth/json/json_object.c:434-449 | An array is the texts of its elements joined by a comma and a space, between brackets with a space inside each. |
| Format.ObjectsAre | src/pam_smsauth/json/json_object.c:199-219 | An object is its quoted names with a colon, a space and the text of the value, joined and enclosed in the same way. |
| Decimals.PrintedDigits | src/pam_smsauth/json/json_object.c:311-315 | The text of every int: a minus sign exactly for the negative ones, and then as many digits as the amount needs, the k-th from the right being its k-th decimal digit. |
| Decimals.DecimalOrder | src/pam_smsauth/json/json_tokener.c:322-330 | Of two runs of digits of one length the one with the smaller byte at their first difference is the smaller number. |
| Decimals.DecimalRange | src/pam_smsauth/json/json_tokener.c:322-330 | A run of n digits is below the n-th power of ten; with the order this leaves one meaning for each run. |
| Decimals.HexOrder | src/pam_smsauth/json/json_tokener.c:268-275 | The number of four hexadecimal digits is below 65536 and grows with the first of their bytes that differs. |
| RoundTrip.IntDoc | src/pam_smsauth/json/json_object.c:311-315 | The decimal text of every 32-bit int is a standard number that means it. |
| RoundTrip.CharsOfString | src/pam_smsauth/json/json_object.c:82-119 | The escaped text of every string without NUL and backslash is standard and means the string. |
| RoundTrip.PrintedTextIsStandard | src/pam_smsauth/json/json_object.c:199-449 | What is printed for a faithful value is an RFC 8259 text that means the value, so any conforming reader would read it back. |
| RoundTrip.ParsePrint | src/pam_smsauth/json/json_object.c:184-449 | Parsing the printed text gives back the same tree with the same key order and ends at its end. |
| RoundTrip.ReadBack | src/pam_smsauth/json/json_tokener.c:36-47 | The same of the two programs, printer loop and state machine, one after the other. |
| Layout.CommentEndsLost | src/pam_smsauth/json/json_tokener.c:172-215 | In a printed text a comment that is read anywhere ends inside a string, never between strings. |
| Layout.OutsideEndsLost | src/pam_smsauth/json/json_tokener.c:217-233 | A parser that reads a string where the printer put none leaves it inside a printed string. |
| Layout.ParseStaysLost | src/pam_smsauth/json/json_tokener.c:70-465 | A parser that looks for a value inside a printed string fails, runs past the end, or stops inside a printed string; no value it accepts, however nested, ends anywhere else. |
| Backslash.PrintedTooShort | src/pam_smsauth/json/json_object.c:82-119 | What is printed for a string with a backslash is shorter than any text it could be read from. |
| Backslash.ReadBody | src/pam_smsauth/json/json_tokener.c:217-295 | Reading a string costs at least the characters counted for it, whether or not it takes the closing quote for an escaped one. |
| Backslash.PrintIsLaidOut | src/pam_smsauth/json/json_object.c:82-449 | In the printed text of any tree, quotes, backslashes and slashes stand only where strings put them, and each quote inside a string is escaped. |
| Backslash.LiteralAligned | src/pam_smsauth/json/json_tokener.c:217-295 | Reading a printed string ends at its closing quote, and then with the same string only if it has no backslash, or it fails, or it leaves the parser inside a printed string. |
| Backslash.ValueAligned | src/pam_smsauth/json/json_tokener.c:70-465 | The same of every value at its place in a printed text: it is read up to its own end, and then as itself only if it holds no backslash, or the parser is lost. |
| Backslash.ValuesReadBack | src/pam_smsauth/json/json_object.c:184-449 | A tree of any depth, doubles apart, survives the round trip if and only if none of its strings and none of its keys holds a backslash. |
| Backslash.StringsReadBack | src/pam_smsauth/json/json_object.c:87-114 | A string survives the round trip if and only if there is no backslash in it. |
| Backslash.BackslashIsNotReadBack | src/pam_smsauth/json/json_object.c:87-114 | The text printed for a single backslash is refused by the parser. |
| Backslash.AlphabetsReadBack | src/pam_smsauth/json/json_object.c:87-114 | All strings over an alphabet survive the round trip if and only if the backslash is not in it. |
| Bounds.ParseIsSound | src/pam_smsauth/json/json_tokener.c:70-465 | At every depth: an overrun happens only in a text that a plain scan finds to end in a comment, and the value returned is well built. |
| Bounds.StringKeepsScan | src/pam_smsauth/json/json_tokener.c:217-295 | Reading a string, escapes included, leaves that scan where it would be. |
| Bounds.ReadsInBounds | src/pam_smsauth/json/json_tokener.c:84-85 | A text that does not end in a comment is never read past its NUL, and a success ends within it. |
| Bounds.NoSlashNoComment | src/pam_smsauth/json/json_tokener.c:87-96 | A text without a slash outside strings does not end in a comment. |
| Bounds.ReadsInBoundsWithoutComments | src/pam_smsauth/json/json_tokener.c:84-85 | Every text without a slash outside strings is read in bounds at every depth, and a success ends within it. |
| Bounds.UnclosedCommentOverruns | src/pam_smsauth/json/json_tokener.c:184-215 | After a nested value an unclosed comment makes the parser read past the NUL. |
| Bounds.AlphabetsReadInBounds | src/pam_smsauth/json/json_tokener.c:90-92 | With both brackets in an alphabet, all texts over it are read in bounds if and only if the slash is not in it. |
| Overrun.StringInCut | src/pam_smsauth/json/json_tokener.c:217-295 | A string before the final comments is read alike in the text and in the text cut at them. |
| Overrun.ParseInCut | src/pam_smsauth/json/json_tokener.c:70-465 | Every value before the final comments is read alike in both texts; where the text is overrun, the comma in place of the comments makes the other end too soon. |
| Overrun.OverrunExactly | src/pam_smsauth/json/json_tokener.c:184-215 | For every text and position: the text is overrun if and only if it ends in comments and the text up to them, with a comma behind it, is refused with the end-of-text error. |
| Overrun.CutIsReadInBounds | src/pam_smsauth/json/json_tokener.c:84-85 | That shorter text is itself read in bounds, so the condition can be checked safely. |
| Bounds.ParsedValuesAreWellBuilt | src/pam_smsauth/json/json_tokener.c:70-465 | Strings and keys of a parsed value are C strings and no object has a key twice, so it can be printed. |
| RefCount.Heap.New | src/pam_smsauth/json/json_object.c:154-166 | A new object has count one, for the reference returned. |
| RefCount.Heap.Get | src/pam_smsauth/json/json_object.c:124-130 | One more outside reference and one more count; nothing else changes. |
| RefCount.Heap.Put | src/pam_smsauth/json/json_object.c:132-138 | After a put by a holder, exactly the objects that the remaining references still reach are left, with their content; each other one is freed once. |
| RefCount.Heap.PutRef | src/pam_smsauth/json/json_object.c:132-138 | The recursive put keeps every count equal to the slots and references that exist, touches only objects below the one put, and logs each deletion once. |
| RefCount.Heap.Delete | src/pam_smsauth/json/json_object.c:143-152 | The delete function of a doomed object gives up its children and then its memory. |
| RefCount.Heap.PutAll | src/pam_smsauth/json/json_object.c:221-231 | Releasing the children one by one keeps the counts right while the owner is half deleted. |
| RefCount.Heap.ArrayPutIdx | src/pam_smsauth/json/json_object.c:493-497 | The put is out of bounds if and only if the index is negative or at least twice the capacity, and then nothing has changed. Otherwise the caller's reference moves into the slot, the replaced one is put, and no object is freed twice or too early. |
| RefCount.Heap.ArrayAdd | src/pam_smsauth/json/json_object.c:488-491 | The caller's reference moves into the array, never out of bounds; the count of the array does not change. |
| RefCount.Heap.ObjectAdd | src/pam_smsauth/json/json_object.c:255-260 | The caller's reference moves into the object without an increment; a replaced value is put. |
| RefCount.Heap.ObjectDel | src/pam_smsauth/json/json_object.c:267-270 | The reference under the key is put, and the key is gone. |
| RefCount.OthersShrink | src/pam_smsauth/json/json_object.c:255-270 | What an operation on a container does to any other object: it stays as it was with no more counts, or it is deleted and freed once. |
| RefCount.RefersExactly | src/pam_smsauth/json/json_object.c:143-152 | A live array refers to exactly what is in its slots, a live object to exactly what is under its keys. |
| RefCount.ReachesExactly | src/pam_smsauth/json/json_object.c:143-152 | An object reaches itself, what its references reach, and nothing else. |
| RefCount.SwapConserved | src/pam_smsauth/json/json_object.c:255-260 | Conservation holds when a live container exchanges references with its surroundings. |
| RefCount.Doom | src/pam_smsauth/json/json_object.c:135-136 | When a count falls to zero, what the object referred to becomes owed. |
| RefCount.LiveExactlyWhenReachable | src/pam_smsauth/json/json_object.c:124-138 | In a graph without cycles, conserved counts mean: an object is in memory if and only if an outside reference reaches it. |
| RefCount.SameReach | src/pam_smsauth/json/json_object.c:132-138 | A put changes nothing about what the remaining references reach. |
| RefCount.LinkRanked | src/pam_smsauth/json/json_object.c:255-260 | Storing a value that does not reach its container keeps the graph free of cycles. |
| Otp.AlphabetIs | src/pam_smsauth/otp.c:43-59 | A character is in the alphabet if and only if it is a digit or letter of the kind asked for; none occurs twice. |
| Otp.AlphabetAt | src/pam_smsauth/otp.c:43-59 | Which character stands at each index: digits, small letters, capitals, each in order. |
| Otp.Unsigned | src/pam_smsauth/otp.c:80-80 | The operand of the remainder lies between 0 and the 64th power of two and is congruent to the number read. |
| Otp.OtpGen | src/pam_smsauth/otp.c:61-90 | An OTP of exactly the length asked for over the alphabet, each character chosen by the unsigned remainder of one number; none if and only if the device cannot be opened or read. |
| Otp.EveryOtpIsGenerated | src/pam_smsauth/otp.c:77-81 | Every string over the alphabet is the OTP for some numbers. |
| Otp.StrnEqualIsTake | src/pam_smsauth/otp.c:30-34 | strncmp over n characters compares the first n characters, or the whole strings if shorter. |
| Otp.AcceptedInputs | src/pam_smsauth/otp.c:30-34 | Over the length of the OTP, the inputs accepted are exactly those that begin with it. |
| Otp.MessageIs | src/pam_smsauth/sms.c:85-88 | The message is the OTP between two stars on either side, of which at most 23 characters are sent. |
| Otp.LongOtpsAreCut | src/pam_smsauth/sms.c:85-88 | The message contains the whole OTP if and only if it has at most 20 characters, although otplen allows 24. |
| StatusTable.Table.GetNextRowid | src/pam_smsauth/sqlite_client.c:41-66 | A key above all keys, 1 for an empty table. |
| StatusTable.Table.GetRowid | src/pam_smsauth/sqlite_client.c:70-96 | The key of the last row of the user, 0 if there is none. |
| StatusTable.Table.InsertRow | src/pam_smsauth/sqlite_client.c:106-147 | One row with a new key, a null otp and the timestamp; keys stay positive and distinct. |
| StatusTable.Table.GetColStr | src/pam_smsauth/sqlite_client.c:178-237 | The column of the row that serves the user, at most 32 characters of it; NULL if there is no row, the column is null or the database cannot be opened. |
| StatusTable.Table.GetTimestamp | src/pam_smsauth/sqlite_client.c:251-293 | The timestamp of that row, -2 without a row, -1 without a database. |
| StatusTable.Table.SetOtp | src/pam_smsauth/sqlite_client.c:297-339 | Exactly that row gets the otp; -2 without a row and -1 without a database, with no change. |
| StatusTable.Table.PurgeTable | src/pam_smsauth/sqlite_client.c:460-495 | The rows become those that the purge leaves. |
| StatusTable.PurgedRows | src/pam_smsauth/sqlite_client.c:458-458 | Exactly the rows with a timestamp below the time are gone. |
| StatusTable.FindIsLast | src/pam_smsauth/sqlite_client.c:70-96 | The last row of the user serves him. |
| StatusTable.ColumnsAre | src/pam_smsauth/sqlite_client.c:178-293 | When the user, the otp and the timestamp of a row count as set; of the otp 32 characters at most are read. |
| StatusTable.Table.IsFieldEmpty | src/pam_smsauth/sqlite_client.c:430-445 | 0 if and only if the column of the user's row has a value (a positive one, for the timestamp). |
| StatusTable.InsertionKeepsOneRowEach | src/pam_smsauth/sqlite_client.c:106-147 | If each user has one row, an insertion keeps that if and only if the user has none yet. |
| StatusTable.FindWithOtp | src/pam_smsauth/sqlite_client.c:297-339 | A stored otp is found by its user; the rows that serve other users are not affected. |
| StatusTable.Table.IsRegisteredVar | src/pam_smsauth/pam_register_var.c:8-12 | 1 exactly where the column has a value. |
| StatusTable.Table.RegisterInit | src/pam_smsauth/pam_register_var.c:14-18 | 1 on success, with the row inserted. |
| StatusTable.Table.RegisterOtp | src/pam_smsauth/pam_register_var.c:20-24 | 1 on success, with the otp stored in the user's row. |
| StatusTable.Table.UnregisterExpirVars | src/pam_smsauth/pam_register_var.c:26-30 | 1 on success, with the expired rows gone. |
| StatusTable.Table.GetOtp | src/pam_smsauth/pam_register_var.c:38-42 | The otp of the user's row, or NULL. |
| Session.SmsOnErr | src/pam_smsauth/sms.c:106-146 | For each of the nine results: 1 and a system error for the five failures of the module, 2 for server and gateway, 0 for SMS_OK, 3 for SMS_NONE; success exactly for 2 in a relaxed module, otherwise refusal. |
| Session.EnsureRow | src/pam_smsauth/pam_smsauth.c:70-82 | The code between the entry and the row of the user follows the steps, in every case of failure too. |
| Session.EnsureOtp | src/pam_smsauth/pam_smsauth.c:84-112 | The same for the generation, sending and registration of an OTP. |
| Session.CheckInput | src/pam_smsauth/pam_smsauth.c:114-129 | The same for the comparison with what the user types. |
| Session.Authenticate | src/pam_smsauth/pam_smsauth.c:59-144 | The procedure returns what the uninterrupted chain of steps returns and leaves the table as it does, for every call and every pattern of database failures. |
| Outcomes.BeforeTheTable | src/pam_smsauth/pam_smsauth.c:59-68 | Whatever the database does, a user whose name agrees with the option over its length gets in and one without a telephone number is ignored, with the table unchanged. |
| Outcomes.ValidCalls | src/pam_smsauth/pam_parse_args.c:31-41 | An OTP has 4 to 24 characters of its alphabet, a row 1 to 60 minutes. |
| Outcomes.AtInsert | src/pam_smsauth/pam_smsauth.c:77-80 | A row that cannot be inserted: a system error. |
| Outcomes.AtSend | src/pam_smsauth/pam_smsauth.c:86-101 | An OTP that has to be sent: a system error without one or where the module fails, success or refusal by the option relaxed where server or gateway fail, refusal without a result. |
| Outcomes.AtRegister | src/pam_smsauth/pam_smsauth.c:107-109 | An OTP that was sent and cannot be stored: a system error. |
| Outcomes.AtPrompt | src/pam_smsauth/pam_smsauth.c:114-116 | Nothing typed: the information is unavailable. |
| Outcomes.AtFetch | src/pam_smsauth/pam_smsauth.c:121-129 | A system error if the OTP cannot be read; otherwise success exactly if its first 32 characters and the input agree over otp_len characters. |
| Outcomes.NoDatabase | src/pam_smsauth/pam_smsauth.c:70-80 | Without any database everybody who would have to be asked gets a system error. |
| Outcomes.Results | src/pam_smsauth/pam_smsauth.c:59-144 | With a database that answers: the exact condition of each result and of each comparison, in terms of the arguments and the row of the user before the call. |
| Outcomes.RowAfter | src/pam_smsauth/pam_smsauth.c:70-112 | The row of the user after the call: with the OTP asked for and the old or a new timestamp, without an OTP if none could be sent, and no change for those who are not asked. |
| Outcomes.RelaxedSuccess | src/pam_smsauth/sms.c:127-134 | A relaxed module lets a user in for whom an OTP would have to be sent while gateway or server are down, with no comparison and no OTP stored. |
| SerialSessions.CallEffect | src/pam_smsauth/pam_smsauth.c:70-129 | A call as one change of the table: sweep, row, OTP; the OTP compared is the one then in the user's row. |
| SerialSessions.OneMoreCall | src/pam_smsauth/pam_smsauth.c:43-50 | A run goes on with every call that does not start before the last one. |
| SerialSessions.TheTableAfterIt | src/pam_smsauth/pam_smsauth.c:70-112 | The table after a run is what its last call leaves of the table before it. |
| SerialSessions.RowsAfter | src/pam_smsauth/pam_smsauth.c:70-112 | Every row after a call continues a row before it or is the caller's new one; an OTP that was not there is the one just sent. |
| SerialSessions.RowsBefore | src/pam_smsauth/pam_smsauth.c:70-112 | Every row that has not expired is still there after a call, with its OTP. |
| SerialSessions.TableIsSound | src/pam_smsauth/pam_smsauth.c:70-112 | After every serial run: keys positive and distinct, at most one row for each user, every row and every OTP the work of an earlier call of that user. |
| SerialSessions.AcceptedOtpIsFresh | src/pam_smsauth/pam_smsauth.c:70-129 | A comparison success in a call at time t uses a row of the user with timestamp at least t, inserted by call k at its time plus 60 times its expir, and an OTP sent by a call j not before k and at most 3600 seconds before t; the input agrees with it over otp_len characters. |
| SerialSessions.SentOtpDecides | src/pam_smsauth/pam_smsauth.c:84-129 | In the call that sends an OTP, exactly the inputs that begin with it let the user in. |
| SerialSessions.RowStays | src/pam_smsauth/sqlite_client.c:458-480 | As long as no call starts after its timestamp, a row and its OTP stay. |
| SerialSessions.OtpIsStable | src/pam_smsauth/pam_smsauth.c:84-112 | Over whole runs the OTP of a row (key and timestamp) goes from null to a value at most once and is never replaced. |
| SerialSessions.OneOtpPerRow | src/pam_smsauth/pam_smsauth.c:84-112 | If two calls of a run send an OTP to the same user, the row of the first has expired before the second starts. |
| SerialSessions.PendingOtpDecides | src/pam_smsauth/pam_smsauth.c:114-129 | While a row has an OTP and time is left, a call succeeds if and only if its input agrees with that OTP over otp_len characters, and the row is there unchanged after it: a success does not use the OTP up. |
| Interleaved.StepIsSound | src/pam_smsauth/pam_smsauth.c:59-129 | Every atomic step of every session keeps the invariant: whatever OTP a row, a session or a comparison holds was sent before in a session of that user. |
| Interleaved.RunIsSound | src/pam_smsauth/pam_smsauth.c:59-129 | The invariant holds in every state reachable from an empty table by sessions that take turns, with any pattern of database failures; keys stay positive and distinct. |
| Interleaved.Provenance | src/pam_smsauth/pam_smsauth.c:84-129 | In every interleaving, a session that succeeds by comparison was given, over otp_len characters, an OTP that an earlier step of a session of the same user had generated and sent with SMS_OK. |
| Interleaved.StepIsLogged | src/pam_smsauth/pam_smsauth.c:86-129 | A step logs a sending exactly if an OTP was generated and its sending succeeded, a comparison exactly if an OTP was read; it touches no other session. |
| Interleaved.SuccessWithoutComparison | src/pam_smsauth/pam_smsauth.c:59-63 | The only other successes: the name of the user agrees with the option except over its length, or the module is relaxed and the result of the sending is the gateway or the connection error. |
| Interleaved.TwoRowsForAUser | src/pam_smsauth/pam_smsauth.c:74-80 | Any two first sessions of a user can overlap so that the user gets two rows. |
| Interleaved.SentOtpIsRefused | src/pam_smsauth/pam_smsauth.c:84-129 | And then the OTP sent first is replaced, and the user who types it is refused. |
| Interleaved.OtpIsReplacedExactly | src/pam_smsauth/pam_smsauth.c:102-108 | A step of any session replaces an OTP if and only if it registers one for a user whose row has another by then. |
| Interleaved.LateAnswerIsAccepted | src/pam_smsauth/pam_smsauth.c:114-129 | In every state: an answer that agrees with the OTP is accepted although another session has begun after the row expired, as long as the row is there. |
| Interleaved.Uninterrupted | src/pam_smsauth/pam_smsauth.c:59-129 | From any reachable state a session can go on alone to the end that the serial model describes. |
| Interleaved.SerialRunIsARun | src/pam_smsauth/pam_smsauth.c:59-129 | Every serial run is one of the interleaved runs, session by session with the same result. |

## Left out

- RoundTrip.ParsePrint: not for doubles, because `%lf` loses precision.
- Backslash.ValuesReadBack: not for trees that contain a double, for the same reason.
- StatusTable.Table.GetTimestamp: without the cut to 32 bits by the int pointer through which the value is stored.
- RefCount.Heap.ArrayPutIdx: the old value is put after it leaves its slot, not before.
- Comments are modelled as coded; that they mean what C comments mean is not claimed (it is false for a comment closed by two stars).
- Rfc8259 leaves out fractions, exponents, the escapes of the slash and the form feed, upper-case hexadecimal digits, \u0000 and surrogates; the parser refuses the escapes and upper-case digits, and encodes a surrogate like any other number.
- Failing memory allocation, the width of size and count fields, and the shifts by which the digits of an escape are put together (they are sums here).
- The concrete hash functions, statistics counters, debug output and the table of REFCOUNT_DEBUG.
- Leaks on the early error returns of the parser, and the error text it logs.
- json_proto.c, the conversions of json_object_get_int and its kind, json_util.c and the test programs.
- SQL text and its quoting, a busy database after it could be opened, the width of ids and timestamps, and the unused functions of sqlite_client.c.
- Retrieval of the user name, argument parsing, GECOS parsing, sockets, prompts and syslog.
- The Python server and its gateway clients.
