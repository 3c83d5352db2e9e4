# IR remote firmware core in Dafny

This project models the storage and command core of a Wi-Fi infrared remote firmware.
Buttons are kept in a flash file `table_of_buttons`: an array of 36-byte entries, each
holding a 32-byte name, a 16-bit carrier frequency and a 16-bit index. Each button's IR
sequence lives in its own file `Button<i>`. The app talks to the device in comma-separated
text commands. The model is split into these files:

- `button.dfy`, module `Button`: the button table manager. A `ButtonStore` class holds the
  table file's contents as `table: seq<Entry>` and the sequence files as a `map` from file
  name to records. Adding, deleting and the lookups are specified twice. Pure functions
  (`AddedTable`, `DeletedTable`, `ButtonNameOf`, ...) say what each call returns and leaves
  in flash; lemmas prove what the firmware promises about them. The methods repeat the C
  code's loops and early returns and are proved against those functions. Every flash call
  that can fail (size lookup, open for read, open for write, file creation, file deletion)
  is a boolean parameter, so both outcomes are covered. `ButtonStore.Valid` keeps the table
  at most 220 entries long and well formed: every counted entry is terminated in its field
  and sits at its own index. `Valid` does not include unique names, which the firmware
  does not keep for 32-byte names; names of at most 31 bytes stay unique
  (`Button.AddedTableKeepsNamesUnique`, `Button.DeletedTablePreserves`).
- `forward_linked_list.dfy`, module `ForwardLinkedList`: the generic singly linked list and
  its iterator, as classes over heap nodes. The ghost `Contents`, `Nodes` and `Repr` state
  what each method does to the sequence of elements.
- `commands.dfy`, module `Commands`:
  - the main loop's split of a received message on commas;
  - `toLower`, and the first-match keyword dispatch;
  - `compareButtonNames`;
  - `createButtonRefreshBuffer`, which builds the `name,index\r\n` list sent to the app.
- `cstrings.dfy`, module `CStrings`: the C string functions the code relies on, as Dafny
  functions. `strlen`, `strncmp`, `%d` printing and `tolower` get lemmas that connect
  them to plain sequence equality, prefixes and lengths.
- `wrappers.dfy`: an `Option` type for NULL pointers.

Integer widths are written out where they change results:

- the 16-bit truncation of the entry count;
- the signed/unsigned comparisons against a failed size lookup (-77);
- the 8-bit string length in `compareButtonNames`.

Two naming facts are also proved:

- `snprintf` of `Button%d` into 10 bytes never truncates for an index below 1000;
- distinct indices always name distinct files.

Adding checks for duplicate names by comparing the whole supplied name against the stored
names, but only 31 bytes are stored. So a 32-byte name can be added twice and then appears
twice in the table (`Button.LongNameStoredTwice`). Names of at most 31 bytes stay unique
(`Button.AddedTableKeepsNamesUnique`).

Two consequences of the code worth knowing:

- The rollback in `createButton` goes through `deleteButtonTableEntry`. If it cleared the
  last of several entries, that entry is cut off the file instead of restored
  (`Button.RollbackAfterAdd`).
- An entry whose name starts with byte 0xFF is counted as a button, yet it is also taken as
  a free slot by the next add.

## Model

| member | source | states |
|---|---|---|
| CStrings.CLength | src/main_nortos.c:548 | `strlen` of a buffer: every byte before it is non-NUL and the byte at it is NUL (or the buffer ends) |
| CStrings.CString | src/main_nortos.c:547-548 | the string a buffer holds has no NUL and is no longer than the buffer |
| CStrings.CLengthOfTerminated | src/main_nortos.c:548 | a buffer with a NUL inside has its string end inside the buffer |
| CStrings.CStringOfPadded | src/main_nortos.c:551 | a NUL-free string followed by a NUL is read back as exactly that string |
| CStrings.StrnEqualWithTerminator | src/main_nortos.c:496-497 | `strncmp` over the length plus one byte is string equality |
| CStrings.StrnEqualIsPrefix | src/main_nortos.c:225 | `strncmp(token, key, strlen(key)) == 0` exactly when key is a prefix of token |
| CStrings.Decimal | src/main_nortos.c:547 | `%d` prints at least one byte, all of them digits |
| CStrings.DecimalLength | inc/button.h:18 | an index below 1000 prints in at most 3 digits, one below 100000 in at most 5 |
| CStrings.DecimalInjective | src/button.c:58 | different numbers print differently |
| CStrings.Lowered | src/main_nortos.c:573-577 | `tolower` over a string keeps its length |
| CStrings.LoweredProperties | src/main_nortos.c:573-577 | lowering works byte by byte, keeps non-letters and NUL-freedom, leaves no capital, and lowering twice is lowering once |
| Button.NewButtonEntry | src/button.c:269-272 | the entry built for a new button is terminated in its field and holds the given frequency and index |
| Button.NewButtonEntryIsValid | src/button.c:269-272 | the new entry is terminated in its field, has the given frequency and index, and is counted iff the name is non-empty |
| Button.NewButtonEntryStoresName | src/button.c:269-270 | the stored name is the given name cut to 31 bytes, and the rest of the field is NUL |
| Button.CountValid | src/button.c:201-209 | the count of entries with a non-NUL first byte is at most the table length |
| Button.CountValidAppend | src/button.c:201-209 | one more entry adds one to the count exactly when it is counted |
| Button.CountValidUpdate | src/button.c:283 | overwriting one entry changes the count by that entry only |
| Button.CountValidDropLast | src/button.c:161-163 | cutting off the last entry removes exactly its contribution |
| Button.CountValidPrefix | src/button.c:201-209 | a prefix never counts more than the table, and a prefix of counted entries counts fully |
| Button.CountAllValid | src/button.c:201-209 | a table of counted entries counts its length |
| Button.CountNoneValid | src/button.c:201-209 | a table of cleared entries counts zero |
| Button.FirstFreeSlot | src/button.c:258-266 | the slot search stops at the first NUL-or-0xFF entry, or at the end, and no earlier entry is free |
| Button.FirstFreeSlotBelowCount | src/button.c:247-266 | the slot found is at most the number of counted entries, so it is below 220 once the count is |
| Button.AddedTable | src/button.c:222-345 | `addButtonTableEntry` returns `FILE_IO_ERROR` or an index below 220 |
| Button.AddedTableSpec | src/button.c:222-345 | it fails, with the file unchanged, exactly on a failed size lookup, read or write, 220 counted entries, or a duplicate name; otherwise the new entry goes to the first free slot (or one past the end), that slot is returned and stored as the index, and every other entry is unchanged |
| Button.AddedTableCount | src/button.c:281-303 | a successful add of a non-empty name into a cleared slot or at the end adds one counted entry |
| Button.AddedTablePreserves | src/button.c:247-303 | adding keeps the table within 220 entries and keeps every counted entry terminated and indexed by its slot |
| Button.AddedTableKeepsNamesUnique | src/button.c:251-255 | adding a name of at most 31 bytes keeps stored names unique |
| Button.LongNameStoredTwice | src/button.c:252-270 | adding the same 32-byte name twice succeeds both times and stores two equal names |
| Button.DeletedTable | src/button.c:133-184 | `deleteButtonTableEntry` returns 0 or `FILE_IO_ERROR`, never grows the table, and leaves it unchanged when it fails |
| Button.DeletedTableSpec | src/button.c:133-184 | `deleteButtonTableEntry` fails, changing nothing, exactly on a failed lookup, an index past the table, an uncounted slot or a failed write; otherwise it removes one counted entry, cutting off the last of several entries and zeroing any other in place |
| Button.DeletedTableKeepsPrefix | src/button.c:161-169 | deleting slot i leaves every entry before i unchanged |
| Button.DeletedDown | src/button.c:119-123 | the table after `deleteButtonTableEntry` on slots i-1 down to 0 in turn, each with its own flash outcome; it is never longer than the table it starts from |
| Button.DeletedTableClearsFrom | src/button.c:133-184 | with every flash call succeeding, deleting slot i of a table with no counted entry above i leaves no counted entry from i on |
| Button.DeletedSlotIsReused | src/button.c:168 | after a delete, the next add's slot is no later than the slot freed |
| Button.DeletedTablePreserves | src/button.c:133-184 | deleting never grows the table and keeps it well formed and its names unique |
| Button.RollbackAfterAdd | src/button.c:70-74 | the rollback after a failed file creation succeeds; it restores an appended entry, but leaves a reused slot zeroed, or cut off when it was the last of several, and leaves one zeroed entry after an add into an empty table |
| Button.ButtonFileName | src/button.c:54-58 | the `Button%d` name is `Button` followed by at least one more byte, and is shorter than the 10-byte buffer |
| Button.ButtonFileNameFits | src/button.c:54-58 | `Button%d` for an index below 1000 is `Button` followed by its digits, fits 10 bytes with the terminator, and names a different file for each index |
| Button.DeletedFileNamesMeaning | src/button.c:98-100 | `Button<i>` is among the files removed from slots lo to hi-1 exactly when i is in that range and its `fsDeleteFile` succeeds |
| Button.DeletedFileNamesStep | src/button.c:119-123 | one loop turn on slot i-1 extends the removed files from slots i..hi-1 to slots i-1..hi-1 |
| Button.CoversSlot | src/button.c:442 | the unsigned size check passes exactly for a slot inside the table, or for any slot after a failed size lookup |
| Button.GetButtonCarrierFrequency | src/button.c:433-466 | the entry's frequency when the index is at most 220, the table covers it, the read succeeds and the frequency is non-zero; else `FILE_IO_ERROR` |
| Button.ButtonNameOf | src/button.c:473-514 | the name read back is non-empty exactly when the slot is in range, covered, readable and counted, and is then the stored name; it has no NUL and at most 32 bytes |
| Button.FindNumButtonEntries | src/button.c:192-214 | `FILE_IO_ERROR` for a NULL list, else the count of counted entries among the 16-bit number of allocated ones |
| Button.CheckIdenticalButtonEntries | src/button.c:569-588 | true exactly when one of the first n entries stores the given name |
| Button.FindFreeSlot | src/button.c:258-266 | the loop stops at the first free slot, as `FirstFreeSlot` defines it |
| Button.ButtonStore.constructor | inc/button.h:13-26 | a store over a well-formed table of at most 220 entries and a set of sequence files |
| Button.ButtonStore.GetButtonSignalInterval | src/button.c:392-426 | the stored sequence of `Button<i>`, or NULL when that file is missing; always NULL for an index above 220 |
| Button.ButtonStore.RetrieveButtonTableContents | src/button.c:355-384 | NULL when the file holds less than one entry or cannot be opened, else a fresh copy of the table |
| Button.ButtonStore.AddButtonTableEntry | src/button.c:222-345 | return value and new table are those of `AddedTable`; sequence files are untouched |
| Button.ButtonStore.DeleteButtonTableEntry | src/button.c:133-184 | return value and new table are those of `DeletedTable`; sequence files are untouched |
| Button.ButtonStore.CreateButton | src/button.c:40-80 | a NULL or empty name or a NULL sequence fails with no change; a failed add fails with no change; on success the sequence is stored under `Button<i>` and i is returned; on a failed file creation it returns `FILE_IO_ERROR` and the table becomes the rolled-back table |
| Button.ButtonStore.DeleteButton | src/button.c:87-107 | an index above 220 fails with no change; otherwise `Button<i>` is removed when the delete succeeds and kept when it fails, the table follows `DeletedTable` either way (the delete's result is ignored), and every other button's sequence is unchanged |
| Button.ButtonStore.DeleteAllButtons | src/button.c:112-125 | with the corrected count: after a failed size lookup nothing changes; otherwise the table is `DeletedDown` of the old table over all its slots, the files are the old ones minus exactly the `Button<k>` of the slots whose delete succeeds (every other file, including one past the table, is unchanged), each slot's sequence is then gone or unchanged accordingly, and with every table call succeeding no counted entry remains |
| Button.ButtonStore.GetButtonName | src/button.c:473-514 | the buffer holds `ButtonNameOf` as a C string, padded as `strncpy` pads it; on failure only its first byte is set to NUL |
| Button.DeleteAllCountAsWrittenOnError | src/button.c:115-117 | as written, a failed size lookup gives 119304644 slots to visit |
| Button.DeleteAllCount | src/button.c:115-117 | corrected count: 0 after a failed lookup, else the number of whole entries |
| ForwardLinkedList.InsertAtProperties | src/forwardLinkedList.c:79-124 | insertion at i puts the element at i, keeps the elements before it, shifts those after it by one, is undone by removal at i, and at the end is an append |
| ForwardLinkedList.RemoveAtProperties | src/forwardLinkedList.c:132-180 | removal at i keeps the elements before it and shifts those after it down by one |
| ForwardLinkedList.InsertedChain | src/forwardLinkedList.c:104-109 | relinking `prev -> node -> after` gives a well-linked chain over the nodes with the new one at the index |
| ForwardLinkedList.RemovedChain | src/forwardLinkedList.c:144-154 | relinking the node before the index past the removed one leaves a well-linked chain over the other nodes |
| ForwardLinkedList.InsertedData | src/forwardLinkedList.c:98-113 | linking in a node keeps the first and last nodes, and every node still holds the value at its position |
| ForwardLinkedList.Node.constructor | src/forwardLinkedList.c:38-45 | a new node holds the data and has no successor |
| ForwardLinkedList.LinkedList.Init | src/forwardLinkedList.c:15-23 | a new list is empty |
| ForwardLinkedList.LinkedList.Size | src/forwardLinkedList.c:245-255 | the size is the number of elements |
| ForwardLinkedList.LinkedList.GetIterator | src/forwardLinkedList.c:263-275 | a fresh iterator at the head |
| ForwardLinkedList.LinkedList.Add | src/forwardLinkedList.c:32-69 | with an object and a non-zero size the element is appended and true returned, else false with no change |
| ForwardLinkedList.LinkedList.WalkTo | src/forwardLinkedList.c:100-103 | advancing a fresh iterator n times leaves it at node n |
| ForwardLinkedList.LinkedList.NodeAt | src/forwardLinkedList.c:100-103 | the node reached after n steps is node n |
| ForwardLinkedList.LinkedList.AddIndex | src/forwardLinkedList.c:79-124 | with an object, a non-zero size and index at most the size, the element is inserted at the index and true returned; else false with no change |
| ForwardLinkedList.LinkedList.InsertFirst | src/forwardLinkedList.c:92-96 | the element becomes the new head |
| ForwardLinkedList.LinkedList.InsertAfter | src/forwardLinkedList.c:98-113 | the element is inserted at a middle index |
| ForwardLinkedList.LinkedList.InsertedValid | src/forwardLinkedList.c:104-115 | after relinking and the size increment, the list invariant holds again |
| ForwardLinkedList.LinkedList.Remove | src/forwardLinkedList.c:132-180 | an index inside the list removes that element, keeps the invariant (tail moves to the new last node), and returns true; else false with no change |
| ForwardLinkedList.LinkedList.RemoveFirst | src/forwardLinkedList.c:138-142 | the head moves to the next node and the first element is removed; a one-element list becomes the empty list |
| ForwardLinkedList.LinkedList.RemoveAfter | src/forwardLinkedList.c:143-169 | the element at a non-zero index is removed, and the node before it becomes the tail when the last node goes |
| ForwardLinkedList.LinkedList.RemovedValid | src/forwardLinkedList.c:165-176 | after unlinking, the size decrement and the reinitialisation of an emptied list, the list invariant holds again |
| ForwardLinkedList.LinkedList.Get | src/forwardLinkedList.c:187-207 | the element at the index, or NULL past the end |
| ForwardLinkedList.LinkedList.Clear | src/forwardLinkedList.c:214-238 | the list is empty afterwards |
| ForwardLinkedList.ListIterator.constructor | src/forwardLinkedList.c:263-275 | the iterator starts at position 0 |
| ForwardLinkedList.ListIterator.HasNext | src/forwardLinkedList.c:283-295 | true exactly while elements remain |
| ForwardLinkedList.ListIterator.Next | src/forwardLinkedList.c:302-317 | returns the element at the current position and advances, or NULL at the end; so the iterator yields the elements in order and `HasNext` turns false after exactly size calls |
| Commands.ToLower | src/main_nortos.c:573-577 | every byte before the terminator is lowered in place, the terminator stays where it was, and the string becomes the lowered string |
| Commands.CompareButtonNames | src/main_nortos.c:485-504 | the result is 0 or -1 |
| Commands.CompareButtonNamesMeaning | src/main_nortos.c:485-504 | for a name shorter than 256 bytes, 0 exactly when the name has at most 32 bytes and equals the stored name |
| Commands.RefreshLine | src/main_nortos.c:547 | a `name,index\r\n` line holds no NUL |
| Commands.RefreshLines | src/main_nortos.c:542-559 | one line per counted entry, in table order |
| Commands.RefreshTextStep | src/main_nortos.c:544-558 | each entry adds its line when counted and nothing when not |
| Commands.RefreshTextNoNul | src/main_nortos.c:547-554 | the text has no NUL, so the buffer's C string is the whole text |
| Commands.RefreshLineFits | src/main_nortos.c:547-551 | a printable entry's line takes at most 37 bytes, and at most 38 with its terminator |
| Commands.RefreshLineOverflowsAsWritten | src/main_nortos.c:518-547 | a 31-byte name at index 100 makes a 38-byte `sprintf` result for a 37-byte scratch buffer |
| Commands.WellFormedPrintable | src/button.c:258-272 | every counted entry of a well-formed table is printable |
| Commands.RefreshTextLength | src/main_nortos.c:529-532 | the text fits in 37 bytes per counted entry, so the buffer of 37 per entry plus one always holds it with its terminator |
| Commands.RefreshTextOfFullPrefix | src/main_nortos.c:542-559 | stopping after the last counted entry gives the whole text |
| Commands.RefreshLineSplits | src/main_nortos.c:547 | the first comma field of a line is the stored name (when the name has no comma), and the rest is the index digits and CR LF |
| Commands.AppendRefreshLine | src/main_nortos.c:547-554 | `sprintf`, `strlen` and `memcpy` append the line and its terminator at the offset and move the offset to the terminator |
| Commands.CreateButtonRefreshBuffer | src/main_nortos.c:512-567 | NULL exactly when the table cannot be read or has no counted entry; otherwise a fresh buffer of 37 bytes per counted entry plus one whose C string is the list of lines; each line goes through a 38-byte scratch buffer |
| Commands.SkipDelims | src/main_nortos.c:219 | `strtok` skips only leading commas and starts at a non-comma |
| Commands.TakeField | src/main_nortos.c:219 | the token is the longest comma-free prefix, ended by a comma or the message end |
| Commands.FirstToken | src/main_nortos.c:219 | `strtok` finds no field exactly when the message is all commas; a field it finds is non-empty and comma-free |
| Commands.TakeFieldUpToComma | src/main_nortos.c:219 | a comma-free field followed by a comma is cut off exactly |
| Commands.FirstMatch | src/main_nortos.c:225-473 | the position of the first keyword that starts the token: no earlier one does, and the one there does |
| Commands.ClassifyFromIsFirstMatch | src/main_nortos.c:225-473 | from any keyword position on, the `strncmp` chain selects the first remaining keyword that starts the token |
| Commands.KeywordsNoNul | inc/Control_States.h:11-16 | no keyword contains a NUL, so `strlen` of each is its whole length |
| Commands.ClassifyTokenIsFirstMatch | src/main_nortos.c:225-473 | the `strncmp` chain selects the first keyword in source order that starts the token |
| Commands.Classify | src/main_nortos.c:214-225 | a message with no field is no command |
| Commands.ClassifyMeaning | src/main_nortos.c:214-475 | a message is dispatched on the first keyword, in the order send_button, app_init, refresh word, add_button, delete_button, clear_all, that starts its lowered first field |
| Commands.LowerByteComma | src/main_nortos.c:219-222 | `tolower` maps a comma to itself and nothing else to a comma |
| Commands.SkipDelimsLowered | src/main_nortos.c:219-222 | lowering commutes with skipping leading commas |
| Commands.TakeFieldLowered | src/main_nortos.c:219-222 | lowering commutes with cutting the first field |
| Commands.ClassifyIgnoresCase | src/main_nortos.c:219-225 | a message and its lowered form select the same command |

## Left out

- The IR receiver and emitter, Wi-Fi, the timer, the socket loop and the flash driver are
  not part of this model. Flash files are a map, and each fallible call is a boolean outcome.
- `malloc` failure is not modelled: every allocation succeeds.
- `fsWriteFile` and `fsReadFile` are taken to write or read the whole request once the file
  is open.
- `sequenceSize` in `createButton` is not modelled; the whole sequence is stored.
- `button_init`, `initializeButtonTable` and `printButtonTable` are not modelled. They are
  start-up and debug output.
- `getButtonSignalInterval` returns uninitialised memory when the size lookup succeeds but
  the open fails. The model returns the file's contents in that case.
- The NULL-pointer guards of the list (`fll_size(NULL) == 0` and the like) are not
  modelled, since Dafny references here are never null. Nor are NULL name buffers or a NULL
  token from `strtok`: a message with no field is classified as no command, where the
  source passes NULL to `toLower`.
- The list's `uint32_t` size is unbounded in the model; wrap-around after 2^32 elements is
  not modelled.
- The arguments after the command word (`atoi`, the per-command handlers) are not modelled.
- `BUTTON_REFRESH_STR` is not defined in the headers, so the refresh keyword is a parameter.
- Button.ButtonNameOf: a stored name that fills all 32 bytes with no terminator is read
  with the field's end as its end. In the source, `getButtonName` copies it with
  `strncpy(nameBuffer, ..., 32)`, which leaves the 32-byte buffer unterminated. Then
  `compareButtonNames` compares up to `strlen(name) + 1` bytes of that buffer with
  `strncmp`, which can read past it. `ButtonStore.Valid` keeps stored names terminated,
  so this only matters for a table written by other code.
- Button.GetButtonCarrierFrequency: requires a table of at most 220 entries, the size
  `ButtonStore.Valid` keeps.
- Commands.CreateButtonRefreshBuffer:
  - requires only `ButtonStore.Valid`; a failed size lookup is not followed, since the
    table size is taken from the table itself, where the source reads the `uint16_t` of
    -77 (65459);
  - uses the corrected 38-byte scratch buffer for `entryStringBuff`;
  - does not model that `numEntries` is held in a `uint8_t`, which cannot exceed 220
    counted entries anyway.
- Commands.CompareButtonNamesMeaning: is stated for names shorter than 256 bytes, which is
  all a 256-byte receive buffer can hold. The function itself keeps the 8-bit wrap.
- Button.CheckIdenticalButtonEntries: a stored name that fills all 32 bytes without a NUL
  is compared as ending at the field's end, where the source's `strcmp` reads past it into
  the frequency and index. `ButtonStore.Valid` keeps every stored name terminated, so this
  only matters for a table written by other code.
- Button.ButtonStore.DeleteAllButtons: uses the corrected slot count of
  `Button.DeleteAllCount`, not the as-written one.

## Findings

| source | as written | input that shows it | evidently intended | confidence | as-written member | corrected member |
|---|---|---|---|---|---|---|
| src/main_nortos.c:518-547 | the scratch buffer `entryStringBuff` has `refreshEntryMaxSize` = 32 + `sizeof(uint16_t)` + 3 = 37 bytes, but `sprintf` also writes the terminator there (the 37 bytes per line of the output buffer are enough, since its one extra byte holds the last terminator) | a 31-byte name at index 100: `sprintf` writes 31 + 1 + 3 + 2 bytes plus the terminator, 38 bytes into the 37-byte scratch array | a scratch buffer of 38 bytes: 31 name bytes, 3 digits, `",\r\n"` and the NUL | not executed | Commands.RefreshLineOverflowsAsWritten | Commands.RefreshLineFits |
| src/button.c:115-120 | `int numButtons = fileSize/sizeof(ButtonTableEntry)` divides the signed size by an unsigned `size_t`, so a failed size lookup (-77) turns into 4294967219 / 36 | a failed size lookup in `deleteAllButtons` gives 119304644 iterations of `deleteButton` instead of none | visit no slot when the size lookup fails | not executed | Button.DeleteAllCountAsWrittenOnError | Button.DeleteAllCount |
