/**
 * The command layer of the main loop: the split and keyword match of a received
 * message, `toLower`, `compareButtonNames` and the button list sent to the app
 * (`createButtonRefreshBuffer`).
 */
module Commands {
  import opened Wrappers
  import opened CStrings
  import opened Button

  // ---------------------------------------------------------------------------
  // toLower

  /** `toLower(string)`: every byte before the terminator through `tolower`, in place. */
  method ToLower(s: array<byte>)
    requires Terminated(s[..])
    modifies s
    ensures CLength(s[..]) == old(CLength(s[..]))
    ensures forall k :: 0 <= k < old(CLength(s[..])) ==> s[k] == LowerByte(old(s[k]))
    ensures forall k :: old(CLength(s[..])) <= k < s.Length ==> s[k] == old(s[k])
    ensures CString(s[..]) == Lowered(old(CString(s[..])))
  {
    ghost var n := CLength(s[..]);
    ghost var before := s[..];
    CLengthOfTerminated(s[..]);
    var i := 0;
    while s[i] != Nul
      invariant 0 <= i <= n
      invariant forall k :: 0 <= k < i ==> s[k] == LowerByte(before[k])
      invariant forall k :: i <= k < s.Length ==> s[k] == before[k]
      decreases n - i
    {
      s[i] := LowerByte(s[i]);
      i := i + 1;
    }
    LoweredProperties(before[..n]);
    assert s[..n] == Lowered(before[..n]);
    assert s[..] == s[..n] + s[n..];
    CStringOfPadded(s[..n], s[n..]);
  }

  // ---------------------------------------------------------------------------
  // compareButtonNames

  /** `compareButtonNames(suppliedName, buttonIndex)`: 0 when the supplied name and
      the name `getButtonName` returns agree up to and including the terminator,
      else -1. The length is kept in a `uint8_t`, so it wraps at 256. */
  function CompareButtonNames(supplied: seq<byte>, buttonIndex: byte, t: seq<Entry>, io: TableIo): (r: int)
    requires NoNul(supplied) && |t| <= MaxAmountOfButtons
    ensures r == 0 || r == -1
  {
    var stored := ButtonNameOf(t, buttonIndex, io);
    var length := |supplied| % 0x100;
    if length <= NameMaxSize && StrnEqual(supplied, stored, length + 1) then 0 else -1
  }

  /** For every name a 256-byte receive buffer can hold, the comparison succeeds exactly
      when the name has at most 32 bytes and equals the stored name. */
  lemma CompareButtonNamesMeaning(supplied: seq<byte>, buttonIndex: byte, t: seq<Entry>, io: TableIo)
    requires NoNul(supplied) && |supplied| < 0x100 && |t| <= MaxAmountOfButtons
    ensures CompareButtonNames(supplied, buttonIndex, t, io) == 0 <==>
      |supplied| <= NameMaxSize && supplied == ButtonNameOf(t, buttonIndex, io)
  {
    StrnEqualWithTerminator(supplied, ButtonNameOf(t, buttonIndex, io));
  }

  // ---------------------------------------------------------------------------
  // createButtonRefreshBuffer

  /** `BUTTON_NAME_MAX_SIZE + sizeof(uint16_t) + strlen(",\r\n")`: the room the source
      gives each line in the list buffer, and also the size of its scratch buffer
      `entryStringBuff`. It bounds a line, but not a line with its terminator. */
  const RefreshEntryMaxSize: nat := NameMaxSize + 2 + 3

  /** Corrected size of the scratch buffer: at most 31 name bytes, at most three digits
      of an index below 1000, `",\r\n"` and the NUL. */
  const EntryStringSize: nat := (NameMaxSize - 1) + 3 + 3 + 1

  /** The `"%s,%d\r\n"` line `sprintf` makes for one entry. */
  function RefreshLine(e: Entry): (line: seq<byte>)
    ensures NoNul(line)
  {
    StoredName(e) + [Comma] + Decimal(e.index) + [CarriageReturn, LineFeed]
  }

  /** The lines of the button list: one per counted entry, in table order. */
  function RefreshLines(t: seq<Entry>): (lines: seq<seq<byte>>)
    ensures |lines| == CountValid(t)
  {
    if t == [] then []
    else RefreshLines(t[..|t| - 1]) + (if IsValid(t[|t| - 1]) then [RefreshLine(t[|t| - 1])] else [])
  }

  /** Lines written one after another. */
  function Concat(lines: seq<seq<byte>>): seq<byte> {
    if lines == [] then [] else Concat(lines[..|lines| - 1]) + lines[|lines| - 1]
  }

  /** The text of the button list. */
  function RefreshText(t: seq<Entry>): seq<byte> {
    Concat(RefreshLines(t))
  }

  /** One more entry adds its line to the text when it is counted, and nothing otherwise. */
  lemma RefreshTextStep(t: seq<Entry>, e: Entry)
    ensures RefreshText(t + [e]) == RefreshText(t) + (if IsValid(e) then RefreshLine(e) else [])
  {
    assert (t + [e])[..|t|] == t;
    if IsValid(e) {
      assert RefreshLines(t + [e]) == RefreshLines(t) + [RefreshLine(e)];
      assert RefreshLines(t + [e])[..|RefreshLines(t)|] == RefreshLines(t);
    } else {
      assert RefreshLines(t + [e]) == RefreshLines(t);
    }
  }

  /** The text holds no terminator, so it is the whole C string of the buffer. */
  lemma {:induction false} RefreshTextNoNul(t: seq<Entry>)
    ensures NoNul(RefreshText(t))
  {
    if t != [] {
      var s := t[..|t| - 1];
      assert t == s + [t[|t| - 1]];
      RefreshTextStep(s, t[|t| - 1]);
      RefreshTextNoNul(s);
    }
  }

  /** An entry whose name ends inside its field and whose index has at most three digits. */
  predicate Printable(e: Entry) {
    Terminated(e.name) && e.index < 1000
  }

  /** A printable entry's line fits the list buffer's room per line, and with its
      terminator it fits the corrected scratch buffer. */
  lemma RefreshLineFits(e: Entry)
    requires Printable(e)
    ensures |RefreshLine(e)| <= RefreshEntryMaxSize
    ensures |RefreshLine(e)| + 1 <= EntryStringSize
  {
    CLengthOfTerminated(e.name);
    DecimalLength(e.index);
  }

  /** FINDING, as written: a 31-byte name at index 100 gives a 37-byte line, so its
      38 bytes with the terminator overflow the 37-byte scratch buffer by one. */
  lemma RefreshLineOverflowsAsWritten()
    ensures var e := NewButtonEntry(seq(31, _ => 'a' as int), 38000, 100);
      Printable(e) && IsValid(e) &&
      |RefreshLine(e)| + 1 == RefreshEntryMaxSize + 1
  {
    var name: seq<byte> := seq(31, _ => 'a' as int);
    NewButtonEntryIsValid(name, 38000, 100);
    NewButtonEntryStoresName(name, 38000, 100);
    assert name[..CopiedLength(name)] == name;
    assert Decimal(100) == Decimal(10) + ['0' as int];
  }

  /** Every counted entry of a well-formed table of at most 220 entries is printable. */
  lemma WellFormedPrintable(t: seq<Entry>)
    requires WellFormedTable(t) && |t| <= MaxAmountOfButtons
    ensures forall k :: 0 <= k < |t| && IsValid(t[k]) ==> Printable(t[k])
  {
  }

  /** The text of `n` printable lines fits the `n * refreshEntryMaxSize` bytes the list buffer has before its terminator. */
  lemma {:induction false} RefreshTextLength(t: seq<Entry>)
    requires forall k :: 0 <= k < |t| && IsValid(t[k]) ==> Printable(t[k])
    ensures |RefreshText(t)| <= RefreshEntryMaxSize * CountValid(t)
  {
    if t != [] {
      var s := t[..|t| - 1];
      var e := t[|t| - 1];
      assert t == s + [e];
      RefreshTextLength(s);
      RefreshTextStep(s, e);
      if IsValid(e) {
        RefreshLineFits(e);
      }
    }
  }

  /** The first comma-separated field of an entry's line is its stored name, when the
      name holds no comma: the app can split each line back into name and index. */
  lemma RefreshLineSplits(e: Entry)
    requires forall k :: 0 <= k < |StoredName(e)| ==> StoredName(e)[k] != Comma
    ensures TakeField(RefreshLine(e)) == StoredName(e)
    ensures RefreshLine(e)[|StoredName(e)| + 1..] == Decimal(e.index) + [CarriageReturn, LineFeed]
  {
    var name := StoredName(e);
    var rest := Decimal(e.index) + [CarriageReturn, LineFeed];
    assert RefreshLine(e) == name + ([Comma] + rest);
    TakeFieldUpToComma(name, rest);
  }

  /** Entries after the last counted one add nothing to the text. */
  lemma {:induction false} RefreshTextOfFullPrefix(t: seq<Entry>, j: nat)
    requires j <= |t| && CountValid(t[..j]) == CountValid(t)
    ensures RefreshText(t[..j]) == RefreshText(t)
  {
    if j < |t| {
      var s := t[..|t| - 1];
      var e := t[|t| - 1];
      assert t == s + [e];
      assert s[..j] == t[..j];
      CountValidAppend(s, e);
      CountValidPrefix(s, j);
      RefreshTextStep(s, e);
      RefreshTextOfFullPrefix(s, j);
    } else {
      assert t[..j] == t;
    }
  }

  /** One turn of the copying loop: `sprintf` of the entry's line into the scratch
      buffer, then `memcpy` of the line and its terminator to `buff[offset..]`. The
      result is the offset just past the line, where its terminator now sits. */
  method AppendRefreshLine(buff: array<byte>, scratch: array<byte>, offset: nat, e: Entry) returns (next: nat)
    requires buff != scratch && scratch.Length == EntryStringSize
    requires |RefreshLine(e)| + 1 <= EntryStringSize
    requires offset + |RefreshLine(e)| + 1 <= buff.Length
    modifies buff, scratch
    ensures next == offset + |RefreshLine(e)| && next < buff.Length
    ensures buff[..next] == old(buff[..offset]) + RefreshLine(e)
    ensures buff[next] == Nul
  {
    var line := RefreshLine(e);
    forall k | 0 <= k < EntryStringSize {
      scratch[k] := if k < |line| then line[k] else Nul;
    }
    assert scratch[..] == line + scratch[|line|..];
    CStringOfPadded(line, scratch[|line|..]);
    var entryLength := CLength(scratch[..]);
    forall k | 0 <= k < entryLength + 1 {
      buff[offset + k] := scratch[k];
    }
    assert buff[..offset + entryLength] == old(buff[..offset]) + line;
    next := offset + entryLength;
  }

  /** `createButtonRefreshBuffer()`: the button list as one C string in a fresh buffer of
      `RefreshEntryMaxSize * numEntries + 1` bytes, or NULL when the table cannot be
      read or holds no counted entry. */
  method CreateButtonRefreshBuffer(store: ButtonStore, readOk: bool) returns (buff: array?<byte>)
    requires store.Valid()
    ensures buff == null <==> (!readOk || CountValid(store.table) == 0)
    ensures buff != null ==>
      fresh(buff) && buff.Length == RefreshEntryMaxSize * CountValid(store.table) + 1 &&
      CString(buff[..]) == RefreshText(store.table)
  {
    buff := null;
    var t := store.table;
    WellFormedPrintable(t);
    var tableSize := EntrySize * |t|;
    if tableSize > 0 {
      var list := store.RetrieveButtonTableContents(tableSize, readOk);
      if list != null {
        assert AllocatedEntries(tableSize) == |t|;
        assert list[..AllocatedEntries(tableSize)] == t;
        var numEntries := FindNumButtonEntries(list, tableSize);
        if numEntries > 0 {
          buff := new byte[RefreshEntryMaxSize * numEntries + 1];
          var scratch := new byte[EntryStringSize];
          var i := 0;
          var entryIndex := 0;
          var offset: nat := 0;
          // each counted line takes at most 37 bytes, so the terminator always fits
          assert RefreshEntryMaxSize == 37;
          while i < numEntries
            invariant 0 <= entryIndex <= |t| && list[..] == t
            invariant i == CountValid(t[..entryIndex]) && i <= numEntries
            invariant buff.Length == 37 * numEntries + 1 && offset <= 37 * i
            invariant offset < buff.Length && buff[..offset] == RefreshText(t[..entryIndex])
            invariant i > 0 ==> buff[offset] == Nul
            decreases |t| - entryIndex
          {
            if entryIndex == |t| {
              assert false;
            }
            assert t[..entryIndex + 1] == t[..entryIndex] + [t[entryIndex]];
            CountValidAppend(t[..entryIndex], t[entryIndex]);
            RefreshTextStep(t[..entryIndex], t[entryIndex]);
            if list[entryIndex].name[0] != Nul {
              RefreshLineFits(list[entryIndex]);
              assert offset + |RefreshLine(list[entryIndex])| + 1 <= buff.Length;
              offset := AppendRefreshLine(buff, scratch, offset, list[entryIndex]);
              i := i + 1;
            }
            entryIndex := entryIndex + 1;
          }
          RefreshTextOfFullPrefix(t, entryIndex);
          RefreshTextNoNul(t);
          assert buff[..] == buff[..offset] + buff[offset..];
          CStringOfPadded(buff[..offset], buff[offset..]);
        }
      }
    }
  }

  // ---------------------------------------------------------------------------
  // Command classification

  /** The commands the main loop dispatches on. */
  datatype Command = SendButton | AppInit | ButtonRefresh | AddButton | DeleteButton | ClearAll | NoCommand

  /** The message with its leading commas dropped: where `strtok` starts a token. */
  function SkipDelims(s: seq<byte>): (r: seq<byte>)
    ensures |r| <= |s| && r == s[|s| - |r|..]
    ensures r != [] ==> r[0] != Comma
    ensures forall k :: 0 <= k < |s| - |r| ==> s[k] == Comma
  {
    if s != [] && s[0] == Comma then SkipDelims(s[1..]) else s
  }

  /** The bytes up to the first comma: the token `strtok` cuts off. */
  function TakeField(s: seq<byte>): (r: seq<byte>)
    ensures |r| <= |s| && r == s[..|r|]
    ensures forall k :: 0 <= k < |r| ==> r[k] != Comma
    ensures |r| < |s| ==> s[|r|] == Comma
  {
    if s == [] || s[0] == Comma then [] else [s[0]] + TakeField(s[1..])
  }

  lemma {:induction false} TakeFieldUpToComma(field: seq<byte>, rest: seq<byte>)
    requires forall k :: 0 <= k < |field| ==> field[k] != Comma
    ensures TakeField(field + ([Comma] + rest)) == field
  {
    if field != [] {
      assert (field + ([Comma] + rest))[1..] == field[1..] + ([Comma] + rest);
      TakeFieldUpToComma(field[1..], rest);
    }
  }

  /** `strtok(recBuf, ",")`: the first non-empty comma-separated field, or NULL if none. */
  function FirstToken(msg: seq<byte>): (token: Option<seq<byte>>)
    ensures token.None? <==> forall k :: 0 <= k < |msg| ==> msg[k] == Comma
    ensures token.Some? ==> token.value != [] && forall k :: 0 <= k < |token.value| ==> token.value[k] != Comma
  {
    var rest := SkipDelims(msg);
    if rest == [] then None else Some(TakeField(rest))
  }

  /** The keyword tested at each position of the `if`/`else if` chain, and its command. */
  function Keywords(refreshWord: seq<byte>): seq<seq<byte>> {
    [Ascii("send_button"), Ascii("app_init"), refreshWord,
     Ascii("add_button"), Ascii("delete_button"), Ascii("clear_all")]
  }

  const Dispatched: seq<Command> := [SendButton, AppInit, ButtonRefresh, AddButton, DeleteButton, ClearAll]

  /** `key` starts `s`. */
  predicate IsPrefix(key: seq<byte>, s: seq<byte>) {
    |key| <= |s| && s[..|key|] == key
  }

  /** Reference definition of the dispatch: the position of the first of `keys[from..]`
      that starts `token`, or `|keys|` when none does. */
  function FirstMatch(keys: seq<seq<byte>>, token: seq<byte>, from: nat): (r: nat)
    requires from <= |keys|
    ensures from <= r <= |keys|
    ensures forall i :: from <= i < r ==> !IsPrefix(keys[i], token)
    ensures r < |keys| ==> IsPrefix(keys[r], token)
    decreases |keys| - from
  {
    if from == |keys| then from
    else if IsPrefix(keys[from], token) then from
    else FirstMatch(keys, token, from + 1)
  }

  /** The `if (strncmp(strState, KEY, strlen(KEY)) == 0) ... else if ...` chain on a lowered
      token, from the keyword at position `from` on. */
  function ClassifyFrom(token: seq<byte>, keys: seq<seq<byte>>, from: nat): Command
    requires from <= |keys| == |Dispatched|
    decreases |keys| - from
  {
    if from == |keys| then NoCommand
    else if StrnEqual(token, keys[from], |keys[from]|) then Dispatched[from]
    else ClassifyFrom(token, keys, from + 1)
  }

  /** The whole chain, in source order. */
  function ClassifyToken(token: seq<byte>, refreshWord: seq<byte>): Command {
    ClassifyFrom(token, Keywords(refreshWord), 0)
  }

  /** What the main loop does with a received message. A message with no field at
      all is taken as no command (the source then passes NULL to `toLower`). */
  function Classify(msg: seq<byte>, refreshWord: seq<byte>): (c: Command)
    ensures FirstToken(msg).None? ==> c == NoCommand
  {
    match FirstToken(msg)
    case None => NoCommand
    case Some(token) => ClassifyToken(Lowered(token), refreshWord)
  }

  /** No keyword holds a NUL, so `strlen` sees all of it. */
  lemma KeywordsNoNul(refreshWord: seq<byte>)
    requires NoNul(refreshWord)
    ensures forall j :: 0 <= j < |Keywords(refreshWord)| ==> NoNul(Keywords(refreshWord)[j])
  {
  }

  /** From any position on, the `strncmp` chain selects the first keyword that starts the token. */
  lemma {:induction false} ClassifyFromIsFirstMatch(token: seq<byte>, keys: seq<seq<byte>>, from: nat)
    requires from <= |keys| == |Dispatched|
    requires NoNul(token) && forall j :: 0 <= j < |keys| ==> NoNul(keys[j])
    ensures var m := FirstMatch(keys, token, from);
      ClassifyFrom(token, keys, from) == if m < |keys| then Dispatched[m] else NoCommand
    decreases |keys| - from
  {
    if from < |keys| {
      StrnEqualIsPrefix(token, keys[from]);
      if !IsPrefix(keys[from], token) {
        ClassifyFromIsFirstMatch(token, keys, from + 1);
      }
    }
  }

  /** The chain selects the first keyword, in source order, that starts the token. */
  lemma ClassifyTokenIsFirstMatch(token: seq<byte>, refreshWord: seq<byte>)
    requires NoNul(token) && NoNul(refreshWord)
    ensures var m := FirstMatch(Keywords(refreshWord), token, 0);
      ClassifyToken(token, refreshWord) == if m < 6 then Dispatched[m] else NoCommand
  {
    KeywordsNoNul(refreshWord);
    ClassifyFromIsFirstMatch(token, Keywords(refreshWord), 0);
  }

  /** The command is the first keyword that starts the lowered first field; no command
      when none does or when the message has no field. */
  lemma ClassifyMeaning(msg: seq<byte>, refreshWord: seq<byte>)
    requires NoNul(msg) && NoNul(refreshWord)
    ensures Classify(msg, refreshWord) ==
      match FirstToken(msg)
      case None => NoCommand
      case Some(raw) =>
        var m := FirstMatch(Keywords(refreshWord), Lowered(raw), 0);
        if m < 6 then Dispatched[m] else NoCommand
  {
    if FirstToken(msg).Some? {
      var raw := FirstToken(msg).value;
      var rest := SkipDelims(msg);
      assert NoNul(raw) by {
        assert forall k :: 0 <= k < |raw| ==> raw[k] == msg[|msg| - |rest| + k];
      }
      LoweredProperties(raw);
      ClassifyTokenIsFirstMatch(Lowered(raw), refreshWord);
    }
  }

  /** `tolower` neither creates nor removes a comma. */
  lemma LowerByteComma(c: byte)
    ensures LowerByte(c) == Comma <==> c == Comma
  {
  }

  lemma {:induction false} SkipDelimsLowered(s: seq<byte>)
    ensures SkipDelims(Lowered(s)) == Lowered(SkipDelims(s))
  {
    if s != [] {
      var low := Lowered(s);
      assert low == [LowerByte(s[0])] + Lowered(s[1..]);
      assert low[0] == LowerByte(s[0]) && low[1..] == Lowered(s[1..]);
      LowerByteComma(s[0]);
      if s[0] == Comma {
        assert SkipDelims(low) == SkipDelims(low[1..]);
        SkipDelimsLowered(s[1..]);
      }
    }
  }

  lemma {:induction false} TakeFieldLowered(s: seq<byte>)
    ensures TakeField(Lowered(s)) == Lowered(TakeField(s))
  {
    if s != [] {
      var low := Lowered(s);
      assert low == [LowerByte(s[0])] + Lowered(s[1..]);
      assert low[0] == LowerByte(s[0]) && low[1..] == Lowered(s[1..]);
      LowerByteComma(s[0]);
      if s[0] != Comma {
        TakeFieldLowered(s[1..]);
        var f := [s[0]] + TakeField(s[1..]);
        assert f[0] == s[0] && f[1..] == TakeField(s[1..]);
        assert Lowered(f) == [LowerByte(s[0])] + Lowered(TakeField(s[1..]));
      }
    }
  }

  /** Classification does not depend on letter case: the message and its lowered
      form select the same command. */
  lemma ClassifyIgnoresCase(msg: seq<byte>, refreshWord: seq<byte>)
    ensures Classify(Lowered(msg), refreshWord) == Classify(msg, refreshWord)
  {
    SkipDelimsLowered(msg);
    var rest := SkipDelims(msg);
    TakeFieldLowered(rest);
    assert |Lowered(rest)| == |rest|;
    if rest != [] {
      LoweredProperties(TakeField(rest));
    }
  }
}
