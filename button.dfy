/**
 * The flash-backed button table (`table_of_buttons`) and the per-button sequence
 * files `Button<i>`.
 *
 * Flash is abstract: the table file is a `seq<Entry>` whose byte size is
 * `EntrySize * |table|`, the sequence files are a map from file name to records,
 * and opening a file for write replaces its whole content with what is written.
 * Whether a foreign flash call fails is a parameter (`TableIo`, `createOk`).
 */
module Button {
  import opened Wrappers
  import opened CStrings

  const FileIoError: int := -77
  const NameMaxSize: nat := 32
  const MaxAmountOfButtons: nat := 220
  /** `sizeof(ButtonTableEntry)`: 32 name bytes and two 16-bit fields. */
  const EntrySize: nat := 36
  /** Size of the `snprintf` buffer for a sequence file name, terminator included. */
  const FileNameMaxSize: nat := 10
  /** The value an erased flash byte reads as; the slot search also takes it as free. */
  const ErasedByte: byte := 0xFF

  type NameField = s: seq<byte> | |s| == NameMaxSize witness seq(32, _ => 0)

  /** One fixed-size record of the button table file. */
  datatype Entry = Entry(name: NameField, frequency: u16, index: u16)

  /** One mark or space of a stored IR sequence. */
  datatype SignalInterval = SignalInterval(timeUs: u32, pwm: bool)

  /** Which flash calls of one table operation succeed: the size lookup,
      the open for read, the open for write. */
  datatype TableIo = TableIo(sizeOk: bool, readOk: bool, writeOk: bool)

  const AllOk: TableIo := TableIo(true, true, true)

  /** The result code of a table operation and the table file afterwards. */
  datatype TableUpdate = TableUpdate(code: int, table: seq<Entry>)

  const ZeroName: NameField := Zeros(NameMaxSize)

  /** `initNewButtonEntry`, and the entry `memset` to zero on delete. */
  const ZeroEntry: Entry := Entry(ZeroName, 0, 0)

  /** Counted by `findNumButtonEntries`: the name's first byte is not NUL. */
  predicate IsValid(e: Entry) {
    e.name[0] != Nul
  }

  /** Accepted by the slot search of `addButtonTableEntry`: NUL or erased. */
  predicate IsFree(e: Entry) {
    e.name[0] == Nul || e.name[0] == ErasedByte
  }

  /** The name `strcmp` and `%s` see in an entry. */
  function StoredName(e: Entry): seq<byte> {
    CString(e.name)
  }

  /** A cleared name field into which `strncpy(field, name, 31)` copied `name`. */
  function NameFieldOf(name: seq<byte>): NameField {
    name[..CopiedLength(name)] + Zeros(NameMaxSize - CopiedLength(name))
  }

  /** How many bytes of `name` that copy takes. */
  function CopiedLength(name: seq<byte>): nat {
    if |name| < NameMaxSize - 1 then |name| else NameMaxSize - 1
  }

  function Zeros(n: nat): (z: seq<byte>)
    ensures |z| == n && forall k :: 0 <= k < n ==> z[k] == Nul
  {
    seq(n, _ => Nul)
  }

  /** The entry `addButtonTableEntry` builds for a new button. */
  function NewButtonEntry(name: seq<byte>, frequency: u16, index: u16): (e: Entry)
    ensures Terminated(e.name) && e.frequency == frequency && e.index == index
  {
    assert NameFieldOf(name)[CopiedLength(name)] == Nul;
    Entry(NameFieldOf(name), frequency, index)
  }

  /** The new entry is terminated inside its field, carries the given frequency and
      index, and is counted exactly when the name is not empty. */
  lemma NewButtonEntryIsValid(name: seq<byte>, frequency: u16, index: u16)
    requires NoNul(name)
    ensures var e := NewButtonEntry(name, frequency, index);
      Terminated(e.name) && e.frequency == frequency && e.index == index &&
      (IsValid(e) <==> name != [])
  {
    assert NewButtonEntry(name, frequency, index).name[CopiedLength(name)] == Nul;
  }

  /** The stored name is the given name cut to 31 bytes, and every byte after it is NUL. */
  lemma NewButtonEntryStoresName(name: seq<byte>, frequency: u16, index: u16)
    requires NoNul(name)
    ensures var e := NewButtonEntry(name, frequency, index);
      StoredName(e) == name[..CopiedLength(name)] &&
      forall k :: CopiedLength(name) <= k < NameMaxSize ==> e.name[k] == Nul
  {
    var n := CopiedLength(name);
    CStringOfPadded(name[..n], Zeros(NameMaxSize - n));
  }

  /** Number of entries `findNumButtonEntries` counts. */
  function CountValid(t: seq<Entry>): (n: nat)
    ensures n <= |t|
  {
    if t == [] then 0 else CountValid(t[..|t| - 1]) + (if IsValid(t[|t| - 1]) then 1 else 0)
  }

  function ValidBit(e: Entry): nat {
    if IsValid(e) then 1 else 0
  }

  lemma CountValidAppend(t: seq<Entry>, e: Entry)
    ensures CountValid(t + [e]) == CountValid(t) + ValidBit(e)
  {
    assert (t + [e])[..|t|] == t;
  }

  /** Replacing one entry changes the count only by that entry. */
  lemma {:induction false} CountValidUpdate(t: seq<Entry>, i: nat, e: Entry)
    requires i < |t|
    ensures CountValid(t[i := e]) == CountValid(t) - ValidBit(t[i]) + ValidBit(e)
  {
    var last := |t| - 1;
    if i < last {
      CountValidUpdate(t[..last], i, e);
      assert t[i := e][..last] == t[..last][i := e];
    } else {
      assert t[i := e][..last] == t[..last];
    }
  }

  /** Dropping the last entry removes exactly its contribution. */
  lemma CountValidDropLast(t: seq<Entry>)
    requires t != []
    ensures CountValid(t[..|t| - 1]) == CountValid(t) - ValidBit(t[|t| - 1])
  {
  }

  /** The count never decreases along a prefix, and a prefix of valid entries counts fully. */
  lemma {:induction false} CountValidPrefix(t: seq<Entry>, j: nat)
    requires j <= |t|
    ensures CountValid(t[..j]) <= CountValid(t)
    ensures (forall k :: 0 <= k < j ==> IsValid(t[k])) ==> CountValid(t[..j]) == j
  {
    if j == |t| {
      assert t[..j] == t;
      if forall k :: 0 <= k < j ==> IsValid(t[k]) {
        CountAllValid(t);
      }
    } else {
      CountValidPrefix(t[..|t| - 1], j);
      assert t[..|t| - 1][..j] == t[..j];
    }
  }

  lemma {:induction false} CountAllValid(t: seq<Entry>)
    requires forall k :: 0 <= k < |t| ==> IsValid(t[k])
    ensures CountValid(t) == |t|
  {
    if t != [] {
      CountAllValid(t[..|t| - 1]);
    }
  }

  lemma {:induction false} CountNoneValid(t: seq<Entry>)
    requires forall k :: 0 <= k < |t| ==> !IsValid(t[k])
    ensures CountValid(t) == 0
  {
    if t != [] {
      CountNoneValid(t[..|t| - 1]);
    }
  }

  /** Position the slot search of `addButtonTableEntry` stops at. */
  function FirstFreeSlot(t: seq<Entry>): (i: nat)
    ensures i <= |t|
    ensures i < |t| ==> IsFree(t[i])
    ensures forall k :: 0 <= k < i ==> !IsFree(t[k])
  {
    if t == [] then 0 else if IsFree(t[0]) then 0 else 1 + FirstFreeSlot(t[1..])
  }

  /** Every slot before the first free one is counted, so the slot found is at most the count. */
  lemma FirstFreeSlotBelowCount(t: seq<Entry>)
    ensures FirstFreeSlot(t) <= CountValid(t)
  {
    var i := FirstFreeSlot(t);
    CountValidPrefix(t, i);
  }

  /** Some entry's stored name `strcmp`-equals `name`. */
  predicate HasName(t: seq<Entry>, name: seq<byte>) {
    exists k :: 0 <= k < |t| && StoredName(t[k]) == name
  }

  /** `e` written at slot `i`: in place, or as one more entry at the end. */
  function Placed(t: seq<Entry>, i: nat, e: Entry): seq<Entry>
    requires i <= |t|
  {
    if i < |t| then t[i := e] else t + [e]
  }

  /** The failure conditions of `addButtonTableEntry`. */
  predicate AddFails(t: seq<Entry>, name: seq<byte>, io: TableIo) {
    !io.sizeOk || (|t| >= 1 && !io.readOk) ||
    CountValid(t) >= MaxAmountOfButtons || HasName(t, name) || !io.writeOk
  }

  /** What `addButtonTableEntry` returns and leaves in the table file. */
  function AddedTable(t: seq<Entry>, name: seq<byte>, frequency: u16, io: TableIo): (r: TableUpdate)
    ensures r.code == FileIoError || 0 <= r.code < MaxAmountOfButtons
  {
    if AddFails(t, name, io) then TableUpdate(FileIoError, t)
    else
      FirstFreeSlotBelowCount(t);
      TableUpdate(FirstFreeSlot(t), Placed(t, FirstFreeSlot(t), NewButtonEntry(name, frequency, FirstFreeSlot(t))))
  }

  /** The failure conditions of `deleteButtonTableEntry`. */
  predicate DeleteFails(t: seq<Entry>, i: nat, io: TableIo) {
    !io.sizeOk || i >= |t| || !io.readOk || !IsValid(t[i]) || !io.writeOk
  }

  /** What `deleteButtonTableEntry` returns and leaves in the table file. */
  function DeletedTable(t: seq<Entry>, i: nat, io: TableIo): (r: TableUpdate)
    ensures r.code == FileIoError || r.code == 0
    ensures |r.table| <= |t| && (r.code == FileIoError ==> r.table == t)
  {
    if DeleteFails(t, i, io) then TableUpdate(FileIoError, t)
    else if |t| > 1 && i == |t| - 1 then TableUpdate(0, t[..|t| - 1])
    else TableUpdate(0, t[i := ZeroEntry])
  }

  /** Every counted entry names its own slot and its name is terminated
      inside the field: what the table's own writes produce. */
  predicate WellFormedTable(t: seq<Entry>) {
    forall k :: 0 <= k < |t| && IsValid(t[k]) ==> Terminated(t[k].name) && t[k].index == k
  }

  /** No two counted entries store the same name. */
  predicate UniqueNames(t: seq<Entry>) {
    forall j, k :: 0 <= j < k < |t| && IsValid(t[j]) && IsValid(t[k]) ==> StoredName(t[j]) != StoredName(t[k])
  }

  /** Adding fails, with the table unchanged, exactly in the listed cases; otherwise the new
      entry goes into the first free slot (or one past the end), that slot is the returned
      index and the stored index, it is below 220, and every other entry is unchanged. */
  lemma AddedTableSpec(t: seq<Entry>, name: seq<byte>, frequency: u16, io: TableIo)
    ensures var r := AddedTable(t, name, frequency, io);
      (r.code == FileIoError <==> AddFails(t, name, io)) &&
      (AddFails(t, name, io) ==> r.table == t)
    ensures var r := AddedTable(t, name, frequency, io);
      !AddFails(t, name, io) ==>
        var i := r.code;
        0 <= i < MaxAmountOfButtons && i <= |t| &&
        (i < |t| ==> IsFree(t[i])) &&
        (forall k :: 0 <= k < i ==> !IsFree(t[k])) &&
        |r.table| == (if i < |t| then |t| else |t| + 1) &&
        r.table[i] == NewButtonEntry(name, frequency, i) && r.table[i].index == i &&
        (forall k :: 0 <= k < |t| && k != i ==> r.table[k] == t[k]) &&
        (|t| == 0 ==> r.table == [NewButtonEntry(name, frequency, 0)])
  {
  }

  /** A successful add of a non-empty name into a never-used or deleted slot, or at the
      end, adds exactly one counted entry. */
  lemma AddedTableCount(t: seq<Entry>, name: seq<byte>, frequency: u16, io: TableIo)
    requires NoNul(name) && name != []
    requires !AddFails(t, name, io)
    ensures var i := FirstFreeSlot(t);
      (i == |t| || t[i].name[0] == Nul) ==>
        CountValid(AddedTable(t, name, frequency, io).table) == CountValid(t) + 1
  {
    var i := FirstFreeSlot(t);
    FirstFreeSlotBelowCount(t);
    var e := NewButtonEntry(name, frequency, i);
    NewButtonEntryIsValid(name, frequency, i);
    if i < |t| {
      CountValidUpdate(t, i, e);
    } else {
      CountValidAppend(t, e);
    }
  }

  /** Adding never grows the table past 220 entries, and keeps it well formed. */
  lemma AddedTablePreserves(t: seq<Entry>, name: seq<byte>, frequency: u16, io: TableIo)
    requires NoNul(name)
    ensures |t| <= MaxAmountOfButtons ==> |AddedTable(t, name, frequency, io).table| <= MaxAmountOfButtons
    ensures WellFormedTable(t) ==> WellFormedTable(AddedTable(t, name, frequency, io).table)
  {
    if !AddFails(t, name, io) {
      var i := FirstFreeSlot(t);
      FirstFreeSlotBelowCount(t);
      var e := NewButtonEntry(name, frequency, i);
      NewButtonEntryIsValid(name, frequency, i);
      var u := AddedTable(t, name, frequency, io).table;
      assert u == Placed(t, i, e);
      if WellFormedTable(t) {
        forall k | 0 <= k < |u| && IsValid(u[k])
          ensures Terminated(u[k].name) && u[k].index == k
        {
          if k != i {
            assert u[k] == t[k];
          }
        }
      }
    }
  }

  /** A name of at most 31 bytes that is not yet stored stays unique once added. */
  lemma AddedTableKeepsNamesUnique(t: seq<Entry>, name: seq<byte>, frequency: u16, io: TableIo)
    requires NoNul(name) && |name| < NameMaxSize
    requires UniqueNames(t)
    ensures UniqueNames(AddedTable(t, name, frequency, io).table)
  {
    if !AddFails(t, name, io) {
      var i := FirstFreeSlot(t);
      FirstFreeSlotBelowCount(t);
      NewButtonEntryStoresName(name, frequency, i);
      var u := AddedTable(t, name, frequency, io).table;
      assert name[..CopiedLength(name)] == name;
      assert StoredName(u[i]) == name;
      forall j, k | 0 <= j < k < |u| && IsValid(u[j]) && IsValid(u[k])
        ensures StoredName(u[j]) != StoredName(u[k])
      {
        if j == i {
          assert StoredName(u[k]) == StoredName(t[k]);
        } else if k == i {
          assert StoredName(u[j]) == StoredName(t[j]);
        }
      }
    }
  }

  /** The duplicate check compares the whole given name with the stored (cut) names, so a
      32-byte name is added twice and both entries store the same 31-byte name. */
  lemma LongNameStoredTwice()
    ensures var long := seq(32, _ => 'a' as int);
      var once := AddedTable([], long, 38000, AllOk);
      var twice := AddedTable(once.table, long, 38000, AllOk);
      once.code == 0 && twice.code == 1 &&
      IsValid(twice.table[0]) && IsValid(twice.table[1]) &&
      StoredName(twice.table[0]) == StoredName(twice.table[1]) &&
      !UniqueNames(twice.table)
  {
    var long: seq<byte> := seq(32, _ => 'a' as int);
    var e0 := NewButtonEntry(long, 38000, 0);
    var e1 := NewButtonEntry(long, 38000, 1);
    NewButtonEntryStoresName(long, 38000, 0);
    NewButtonEntryStoresName(long, 38000, 1);
    NewButtonEntryIsValid(long, 38000, 0);
    NewButtonEntryIsValid(long, 38000, 1);
    assert StoredName(e0) == long[..31] == StoredName(e1);
    assert AddedTable([], long, 38000, AllOk) == TableUpdate(0, [e0]);
    assert !HasName([e0], long) by {
      assert |StoredName(e0)| == 31;
    }
    CountValidAppend([], e0);
    assert [] + [e0] == [e0];
    assert FirstFreeSlot([e0]) == 1 by {
      assert !IsFree(e0);
    }
    assert AddedTable([e0], long, 38000, AllOk) == TableUpdate(1, [e0, e1]);
  }

  /** Deleting fails, with no change, exactly when the index is past the table, its slot
      is not counted, or a flash call fails; otherwise it removes one counted entry: the
      last of several entries is cut off, any other is zeroed in place. */
  lemma DeletedTableSpec(t: seq<Entry>, i: nat, io: TableIo)
    ensures var r := DeletedTable(t, i, io);
      (r.code == FileIoError <==> DeleteFails(t, i, io)) &&
      (r.code == FileIoError || r.code == 0) &&
      (DeleteFails(t, i, io) ==> r.table == t)
    ensures var r := DeletedTable(t, i, io);
      !DeleteFails(t, i, io) ==>
        CountValid(r.table) == CountValid(t) - 1 &&
        (if |t| > 1 && i == |t| - 1
         then r.table == t[..|t| - 1]
         else |r.table| == |t| && r.table[i] == ZeroEntry &&
              (forall k :: 0 <= k < |t| && k != i ==> r.table[k] == t[k]))
  {
    if !DeleteFails(t, i, io) {
      if |t| > 1 && i == |t| - 1 {
        CountValidDropLast(t);
      } else {
        CountValidUpdate(t, i, ZeroEntry);
      }
    }
  }

  /** Deleting slot `i` leaves every entry before it as it was. */
  lemma DeletedTableKeepsPrefix(t: seq<Entry>, i: nat, io: TableIo)
    requires i <= |t|
    ensures var u := DeletedTable(t, i, io).table;
      i <= |u| && u[..i] == t[..i]
  {
  }

  /** With every flash call succeeding, deleting slot `i` of a table with no counted entry
      above `i` leaves none from `i` on. */
  lemma DeletedTableClearsFrom(t: seq<Entry>, i: nat)
    requires i < |t| && forall k :: i < k < |t| ==> !IsValid(t[k])
    ensures var u := DeletedTable(t, i, AllOk).table; forall k :: i <= k < |u| ==> !IsValid(u[k])
  {
    DeletedTableSpec(t, i, AllOk);
  }

  /** The table after `deleteButtonTableEntry` on slots `i - 1`, `i - 2`, ..., `0` in
      turn, `io(k)` being the flash outcome of the call for slot `k`. */
  function DeletedDown(t: seq<Entry>, i: nat, io: nat -> TableIo): (r: seq<Entry>)
    ensures |r| <= |t|
    decreases i
  {
    if i == 0 then t else DeletedDown(DeletedTable(t, i - 1, io(i - 1)).table, i - 1, io)
  }

  /** After a delete the next add reuses a slot no later than the one freed. */
  lemma DeletedSlotIsReused(t: seq<Entry>, i: nat, io: TableIo)
    requires !DeleteFails(t, i, io)
    ensures FirstFreeSlot(DeletedTable(t, i, io).table) <= i
  {
    var u := DeletedTable(t, i, io).table;
    if !(|t| > 1 && i == |t| - 1) {
      assert IsFree(u[i]);
    }
  }

  /** Deleting keeps the table within 220 entries and well formed. */
  lemma DeletedTablePreserves(t: seq<Entry>, i: nat, io: TableIo)
    ensures |DeletedTable(t, i, io).table| <= |t|
    ensures WellFormedTable(t) ==> WellFormedTable(DeletedTable(t, i, io).table)
    ensures UniqueNames(t) ==> UniqueNames(DeletedTable(t, i, io).table)
  {
  }

  /** Rolling back a fresh add (what `createButton` does when the sequence file cannot be
      created) restores the table when the entry was appended; a reused slot is left zeroed
      instead of as it was, or cut off when it was the last of several; an add into an empty
      table leaves one zeroed entry. */
  lemma RollbackAfterAdd(t: seq<Entry>, name: seq<byte>, frequency: u16, io: TableIo)
    requires NoNul(name) && name != []
    requires !AddFails(t, name, io)
    ensures var a := AddedTable(t, name, frequency, io);
      var i := a.code;
      var back := DeletedTable(a.table, i, AllOk);
      back.code == 0 &&
      back.table == (if |t| == 0 then [ZeroEntry]
                     else if i == |t| then t
                     else if i == |t| - 1 && |t| > 1 then t[..i]
                     else t[i := ZeroEntry])
  {
    FirstFreeSlotBelowCount(t);
    var i := FirstFreeSlot(t);
    var e := NewButtonEntry(name, frequency, i);
    NewButtonEntryIsValid(name, frequency, i);
    var u := Placed(t, i, e);
    assert AddedTable(t, name, frequency, io) == TableUpdate(i, u);
    assert !DeleteFails(u, i, AllOk);
    if |t| == 0 {
      assert u == [e];
    } else if i == |t| {
      assert u[..|u| - 1] == t;
    } else if i == |t| - 1 && |t| > 1 {
      assert u[..|u| - 1] == t[..i];
    } else {
      assert u[i := ZeroEntry] == t[i := ZeroEntry];
    }
  }

  /** `snprintf(buf, 10, "Button%d", i)`: the name of button `i`'s sequence file. */
  function ButtonFileName(i: nat): (r: seq<byte>)
    ensures |r| < FileNameMaxSize && |r| > 6 && r[..6] == Ascii("Button")
  {
    var full := Ascii("Button") + Decimal(i);
    if |full| < FileNameMaxSize then full else full[..FileNameMaxSize - 1]
  }

  /** For every index up to 999 (so for every index the table hands out) the name is
      `Button` and the decimal index, it fits the 10-byte buffer, and different
      indices name different files. */
  lemma ButtonFileNameFits(i: nat, j: nat)
    requires i < 1000 && j < 1000
    ensures ButtonFileName(i) == Ascii("Button") + Decimal(i)
    ensures |ButtonFileName(i)| + 1 <= FileNameMaxSize
    ensures ButtonFileName(i) == ButtonFileName(j) ==> i == j
  {
    DecimalLength(i);
    DecimalLength(j);
    var p := Ascii("Button");
    if ButtonFileName(i) == ButtonFileName(j) {
      assert Decimal(i) == ButtonFileName(i)[|p|..];
      assert Decimal(j) == ButtonFileName(j)[|p|..];
      DecimalInjective(i, j);
    }
  }

  /** The names of the sequence files `deleteAllButtons` removes from slots `lo` to
      `hi - 1`: those whose `fsDeleteFile` succeeds. */
  function DeletedFileNames(lo: nat, hi: nat, deleteOk: nat -> bool): set<seq<byte>> {
    set k | lo <= k < hi && deleteOk(k) :: ButtonFileName(k)
  }

  /** A button's file is among them exactly when its slot is in range and its delete
      succeeds. */
  lemma DeletedFileNamesMeaning(lo: nat, hi: nat, deleteOk: nat -> bool, i: nat)
    requires hi <= MaxAmountOfButtons && i <= MaxAmountOfButtons
    ensures ButtonFileName(i) in DeletedFileNames(lo, hi, deleteOk) <==> lo <= i < hi && deleteOk(i)
  {
    if ButtonFileName(i) in DeletedFileNames(lo, hi, deleteOk) {
      var k :| lo <= k < hi && deleteOk(k) && ButtonFileName(k) == ButtonFileName(i);
      ButtonFileNameFits(k, i);
    }
  }

  /** One turn of the `deleteAllButtons` loop: removing slot `i - 1`'s file when its delete
      succeeds extends the removed names down to `i - 1`. */
  lemma DeletedFileNamesStep(files0: map<seq<byte>, seq<SignalInterval>>,
                             files1: map<seq<byte>, seq<SignalInterval>>,
                             files2: map<seq<byte>, seq<SignalInterval>>,
                             i: nat, hi: nat, deleteOk: nat -> bool)
    requires 0 < i <= hi
    requires files1 == files0 - DeletedFileNames(i, hi, deleteOk)
    requires files2 == if deleteOk(i - 1) then files1 - {ButtonFileName(i - 1)} else files1
    ensures files2 == files0 - DeletedFileNames(i - 1, hi, deleteOk)
  {
    assert DeletedFileNames(i - 1, hi, deleteOk) ==
      DeletedFileNames(i, hi, deleteOk) + (if deleteOk(i - 1) then {ButtonFileName(i - 1)} else {});
  }

  /** The size check `tableSize >= (i + 1) * sizeof(entry)`, done on unsigned values,
      passes for a slot inside the table and for any slot after a failed size lookup. */
  lemma CoversSlot(t: seq<Entry>, i: nat, io: TableIo)
    requires i <= MaxAmountOfButtons && |t| <= MaxAmountOfButtons
    ensures var tableSize := if io.sizeOk then EntrySize * |t| else FileIoError;
      AsUnsigned32(tableSize) >= (i + 1) * EntrySize <==> (!io.sizeOk || i < |t|)
  {
    assert AsUnsigned32(FileIoError) == 0x1_0000_0000 - 77;
    if io.sizeOk {
      assert AsUnsigned32(EntrySize * |t|) == EntrySize * |t|;
    }
  }

  /** `getButtonCarrierFrequency(i)`: entry i's frequency when the table covers slot `i`
      and the frequency is not 0, else `FILE_IO_ERROR`. The size check compares an `int`
      with an unsigned size, so a failed size lookup (-77) passes it; the read past the
      file's end then leaves the cleared entry, so the outcome does not depend on it. */
  function GetButtonCarrierFrequency(t: seq<Entry>, i: u16, io: TableIo): (r: int)
    requires |t| <= MaxAmountOfButtons
    ensures r == if i <= MaxAmountOfButtons && io.readOk && i < |t| && t[i].frequency != 0
                 then t[i].frequency else FileIoError
  {
    if i <= MaxAmountOfButtons then
      CoversSlot(t, i, io);
      var tableSize := if io.sizeOk then EntrySize * |t| else FileIoError;
      if AsUnsigned32(tableSize) >= (i + 1) * EntrySize && io.readOk then
        var entry := if i < |t| then t[i] else ZeroEntry;
        if entry.frequency != 0 then entry.frequency else FileIoError
      else FileIoError
    else FileIoError
  }

  /** The string `getButtonName(i, buf)` leaves in `buf`: the stored name, or the empty
      string when the entry is missing or not counted. */
  function ButtonNameOf(t: seq<Entry>, i: u16, io: TableIo): (s: seq<byte>)
    requires |t| <= MaxAmountOfButtons
    ensures NoNul(s) && |s| <= NameMaxSize
    ensures s != [] <==> (i <= MaxAmountOfButtons && io.readOk && i < |t| && IsValid(t[i]))
    ensures s != [] ==> s == StoredName(t[i])
  {
    if i <= MaxAmountOfButtons then
      CoversSlot(t, i, io);
      var tableSize := if io.sizeOk then EntrySize * |t| else FileIoError;
      if AsUnsigned32(tableSize) >= (i + 1) * EntrySize && io.readOk then
        var entry := if i < |t| then t[i] else ZeroEntry;
        if IsValid(entry) then StoredName(entry) else []
      else []
    else []
  }

  /** `(u16)(fileSize / sizeof(ButtonTableEntry))`: how many entries a file of that size holds. */
  function AllocatedEntries(fileSize: u32): nat {
    (fileSize / EntrySize) % 0x1_0000
  }

  /** `findNumButtonEntries`: the number of counted entries among the allocated ones,
      or `FILE_IO_ERROR` for a NULL list. */
  method FindNumButtonEntries(list: array?<Entry>, fileSize: u32) returns (r: int)
    requires list != null ==> AllocatedEntries(fileSize) <= list.Length
    ensures list == null ==> r == FileIoError
    ensures list != null ==> r == CountValid(list[..AllocatedEntries(fileSize)])
  {
    r := FileIoError;
    var numAllocated := AllocatedEntries(fileSize);
    var numValid := 0;
    if list != null {
      for i := 0 to numAllocated
        invariant numValid == CountValid(list[..i])
      {
        assert list[..i + 1][..i] == list[..i];
        if IsValid(list[i]) {
          numValid := numValid + 1;
        }
      }
      r := numValid;
    }
  }

  /** `checkIdenticalButtonEntries`: whether one of the first `n` entries stores `name`. */
  method CheckIdenticalButtonEntries(name: seq<byte>, list: array<Entry>, n: nat) returns (duplicate: bool)
    requires n <= list.Length
    ensures duplicate <==> HasName(list[..n], name)
  {
    duplicate := false;
    var i := 0;
    while i < n
      invariant 0 <= i <= n
      invariant !duplicate
      invariant forall k :: 0 <= k < i ==> StoredName(list[k]) != name
    {
      if StoredName(list[i]) == name {
        duplicate := true;
        assert list[..n][i] == list[i];
        break;
      }
      i := i + 1;
    }
  }

  /** The slot search of `addButtonTableEntry`: the first of the `n` entries that is
      NUL or erased, or `n` when there is none. */
  method FindFreeSlot(list: array<Entry>, n: nat) returns (index: nat)
    requires n <= list.Length
    ensures index == FirstFreeSlot(list[..n])
  {
    index := 0;
    while index < n
      invariant 0 <= index <= n
      invariant forall k :: 0 <= k < index ==> !IsFree(list[k])
    {
      if IsFree(list[index]) {
        break;
      }
      index := index + 1;
    }
    assert forall k :: 0 <= k < index ==> !IsFree(list[..n][k]);
  }

  /** The table file with the sequence files beside it. */
  class ButtonStore {
    /** Content of `table_of_buttons`. */
    var table: seq<Entry>
    /** The `Button<i>` sequence files, by name. */
    var files: map<seq<byte>, seq<SignalInterval>>

    /** The table never holds more entries than buttons may exist, and it is well formed,
        as every write of the operations below leaves it. */
    ghost predicate Valid()
      reads this
    {
      |table| <= MaxAmountOfButtons && WellFormedTable(table)
    }

    constructor (table: seq<Entry>, files: map<seq<byte>, seq<SignalInterval>>)
      requires |table| <= MaxAmountOfButtons && WellFormedTable(table)
      ensures Valid() && this.table == table && this.files == files
    {
      this.table := table;
      this.files := files;
    }

    /** `fsGetFileSizeInBytes(BUTTON_TABLE_FILE)`. */
    function TableSize(io: TableIo): int
      reads this
    {
      if io.sizeOk then EntrySize * |table| else FileIoError
    }

    /** `getButtonSignalInterval(i)`: the records of button `i`'s file, or NULL. */
    function GetButtonSignalInterval(i: nat): (r: Option<seq<SignalInterval>>)
      reads this
      ensures i > MaxAmountOfButtons ==> r == None
    {
      if i <= MaxAmountOfButtons && ButtonFileName(i) in files
      then Some(files[ButtonFileName(i)]) else None
    }

    /** `retrieveButtonTableContents`: a fresh heap copy of the table, or NULL when the
        file holds no whole entry or cannot be opened for read. */
    method RetrieveButtonTableContents(fileSize: int, readOk: bool) returns (list: array?<Entry>)
      requires fileSize == EntrySize * |table|
      ensures list == null <==> (fileSize < EntrySize || !readOk)
      ensures list != null ==> fresh(list) && list[..] == table
    {
      list := null;
      if fileSize >= EntrySize && readOk {
        var t := table;
        list := new Entry[|t|](k requires 0 <= k < |t| => t[k]);
      }
    }

    /** `addButtonTableEntry`. */
    method AddButtonTableEntry(name: seq<byte>, frequency: u16, io: TableIo) returns (r: int)
      requires Valid() && NoNul(name)
      modifies this
      ensures Valid() && files == old(files)
      ensures TableUpdate(r, table) == AddedTable(old(table), name, frequency, io)
    {
      ghost var t := table;
      AddedTablePreserves(t, name, frequency, io);
      r := FileIoError;
      var fileSize := TableSize(io);
      if fileSize == FileIoError {
        return;
      }
      if fileSize < EntrySize {
        // an empty table file: the new entry becomes its first one
        var newButton := NewButtonEntry(name, frequency, 0);
        if io.writeOk {
          table := [newButton];
          r := 0;
        }
        return;
      }
      var list := RetrieveButtonTableContents(fileSize, io.readOk);
      if list == null {
        return;
      }
      var numAllocated := AllocatedEntries(fileSize);
      assert numAllocated == |t|;
      assert list[..numAllocated] == t;
      var numValid := FindNumButtonEntries(list, fileSize);
      if numValid >= MaxAmountOfButtons {
        return;
      }
      var duplicate := CheckIdenticalButtonEntries(name, list, numAllocated);
      if duplicate {
        return;
      }
      var index := FindFreeSlot(list, numAllocated);
      FirstFreeSlotBelowCount(t);
      var newButton := NewButtonEntry(name, frequency, index);
      if !io.writeOk {
        return;
      }
      if index < numAllocated {
        list[index] := newButton;
        table := list[..];
      } else {
        var newTable := new Entry[numAllocated + 1](
          k requires 0 <= k < numAllocated + 1 reads list =>
            if k < numAllocated then list[k] else newButton);
        table := newTable[..];
        assert table == t + [newButton];
      }
      r := index;
    }

    /** `deleteButtonTableEntry`. */
    method DeleteButtonTableEntry(i: u16, io: TableIo) returns (r: int)
      requires Valid()
      modifies this
      ensures Valid() && files == old(files)
      ensures TableUpdate(r, table) == DeletedTable(old(table), i, io)
    {
      DeletedTablePreserves(table, i, io);
      r := FileIoError;
      var fileSize := TableSize(io);
      if fileSize != FileIoError {
        var numEntries := fileSize / EntrySize;
        if numEntries > i {
          var list := RetrieveButtonTableContents(fileSize, io.readOk);
          if list != null && list[i].name[0] != Nul {
            if io.writeOk {
              if numEntries > 1 && i == numEntries - 1 {
                table := list[..numEntries - 1];
              } else {
                list[i] := ZeroEntry;
                table := list[..];
              }
              r := 0;
            }
          }
        }
      }
    }

    /** `createButton`: add the table entry, then write the sequence to `Button<i>`;
        if that file cannot be created, delete the entry again. */
    method CreateButton(name: Option<seq<byte>>, frequency: u16, sequence: Option<seq<SignalInterval>>,
                        addIo: TableIo, createOk: bool, rollbackIo: TableIo) returns (r: int)
      requires Valid()
      requires name.Some? ==> NoNul(name.value)
      modifies this
      ensures Valid()
      ensures name.None? || name.value == [] || sequence.None? ==>
        r == FileIoError && table == old(table) && files == old(files)
      ensures name.Some? && name.value != [] && sequence.Some? ==>
        var added := AddedTable(old(table), name.value, frequency, addIo);
        if added.code == FileIoError then
          r == FileIoError && table == old(table) && files == old(files)
        else if createOk then
          r == added.code && table == added.table &&
          files == old(files)[ButtonFileName(r) := sequence.value] &&
          GetButtonSignalInterval(r) == Some(sequence.value)
        else
          r == FileIoError && files == old(files) &&
          table == DeletedTable(added.table, added.code, rollbackIo).table
    {
      r := FileIoError;
      if name.Some? {
        if name.value != [] && sequence.Some? {
          var buttonIndex := AddButtonTableEntry(name.value, frequency, addIo);
          if 0 <= buttonIndex <= MaxAmountOfButtons {
            var fileName := ButtonFileName(buttonIndex);
            if createOk {
              files := files[fileName := sequence.value];
              r := buttonIndex;
            } else {
              var _ := DeleteButtonTableEntry(buttonIndex, rollbackIo);
            }
          }
        }
      }
    }

    /** `deleteButton`: remove `Button<i>` and the table entry. `deleteOk` is the outcome
        of `fsDeleteFile`, whose failure the source ignores: the file then stays, and the
        table entry is deleted all the same. */
    method DeleteButton(i: u16, deleteOk: bool, io: TableIo) returns (r: int)
      requires Valid()
      modifies this
      ensures Valid()
      ensures i > MaxAmountOfButtons ==> r == FileIoError && table == old(table) && files == old(files)
      ensures i <= MaxAmountOfButtons ==>
        files == (if deleteOk then old(files) - {ButtonFileName(i)} else old(files)) &&
        TableUpdate(r, table) == DeletedTable(old(table), i, io) &&
        (deleteOk ==> GetButtonSignalInterval(i) == None) &&
        forall k :: 0 <= k <= MaxAmountOfButtons && k != i ==>
          GetButtonSignalInterval(k) == old(GetButtonSignalInterval(k))
    {
      r := FileIoError;
      if i <= MaxAmountOfButtons {
        var fileName := ButtonFileName(i);
        if deleteOk {
          files := files - {fileName};
        }
        r := DeleteButtonTableEntry(i, io);
        forall k | 0 <= k <= MaxAmountOfButtons && k != i
          ensures GetButtonSignalInterval(k) == old(GetButtonSignalInterval(k))
        {
          ButtonFileNameFits(i, k);
        }
      }
    }

    /** `deleteAllButtons`: delete every button from the last slot down. The number of
        slots is taken as 0 when the size lookup fails (see `DeleteAllCount`). */
    /** `deleteOk(k)` and `io(k)` are the flash outcomes of the call for slot `k`. */
    method DeleteAllButtons(sizeOk: bool, deleteOk: nat -> bool, io: nat -> TableIo)
      requires Valid()
      modifies this
      ensures Valid()
      ensures !sizeOk ==> table == old(table) && files == old(files)
      ensures sizeOk ==> table == DeletedDown(old(table), |old(table)|, io)
      ensures sizeOk ==> files == old(files) - DeletedFileNames(0, |old(table)|, deleteOk)
      ensures sizeOk ==> forall k :: 0 <= k < |old(table)| ==>
        GetButtonSignalInterval(k) == (if deleteOk(k) then None else old(GetButtonSignalInterval(k)))
      ensures forall f :: f in files ==> f in old(files) && files[f] == old(files)[f]
      ensures sizeOk && (forall k :: 0 <= k < |old(table)| ==> io(k) == AllOk) ==>
        CountValid(table) == 0 && (forall k :: 0 <= k < |table| ==> !IsValid(table[k]))
    {
      var fileSize := TableSize(TableIo(sizeOk, true, true));
      var numButtons := DeleteAllCount(fileSize);
      ghost var n := |table|;
      ghost var allOk := forall k :: 0 <= k < n ==> io(k) == AllOk;
      var i := numButtons;
      while i - 1 >= 0
        invariant 0 <= i <= numButtons && numButtons == (if sizeOk then n else 0)
        invariant Valid() && i <= |table| <= n
        invariant !sizeOk ==> table == old(table) && files == old(files)
        invariant DeletedDown(table, i, io) == DeletedDown(old(table), numButtons, io)
        invariant files == old(files) - DeletedFileNames(i, numButtons, deleteOk)
        invariant sizeOk && allOk ==> forall k :: i <= k < |table| ==> !IsValid(table[k])
      {
        ghost var before := table;
        ghost var beforeFiles := files;
        var _ := DeleteButton(i - 1, deleteOk(i - 1), io(i - 1));
        DeletedFileNamesStep(old(files), beforeFiles, files, i, numButtons, deleteOk);
        assert table == DeletedTable(before, i - 1, io(i - 1)).table;
        assert DeletedDown(before, i, io) == DeletedDown(table, i - 1, io);
        DeletedTableKeepsPrefix(before, i - 1, io(i - 1));
        if sizeOk && allOk {
          DeletedTableClearsFrom(before, i - 1);
        }
        i := i - 1;
      }
      if sizeOk && allOk {
        CountNoneValid(table);
      }
      forall k | 0 <= k < |old(table)|
        ensures sizeOk ==>
          GetButtonSignalInterval(k) == (if deleteOk(k) then None else old(GetButtonSignalInterval(k)))
      {
        DeletedFileNamesMeaning(0, numButtons, deleteOk, k);
      }
    }

    /** `getButtonName(i, nameBuffer)`: copy the stored name (as `strncpy` with 32 bytes
        does) into the buffer, or on failure set only its first byte to NUL. */
    method GetButtonName(i: u16, io: TableIo, nameBuffer: array<byte>)
      requires Valid() && nameBuffer.Length >= NameMaxSize
      modifies nameBuffer
      ensures CString(nameBuffer[..NameMaxSize]) == ButtonNameOf(table, i, io)
      ensures ButtonNameOf(table, i, io) != [] ==>
        forall k :: 0 <= k < NameMaxSize ==> nameBuffer[k] == ByteAt(ButtonNameOf(table, i, io), k)
      ensures ButtonNameOf(table, i, io) == [] ==>
        nameBuffer[0] == Nul && forall k :: 1 <= k < nameBuffer.Length ==> nameBuffer[k] == old(nameBuffer[k])
      ensures forall k :: NameMaxSize <= k < nameBuffer.Length ==> nameBuffer[k] == old(nameBuffer[k])
    {
      var error := true;
      if i <= MaxAmountOfButtons {
        var tableSize := TableSize(io);
        if AsUnsigned32(tableSize) >= (i + 1) * EntrySize && io.readOk {
          var entry := if i < |table| then table[i] else ZeroEntry;
          if IsValid(entry) {
            var s := StoredName(entry);
            forall k | 0 <= k < NameMaxSize {
              nameBuffer[k] := ByteAt(s, k);
            }
            error := false;
            CLengthOfTerminated(entry.name);
            assert nameBuffer[..NameMaxSize] == s + Zeros(NameMaxSize - |s|);
            CStringOfPadded(s, Zeros(NameMaxSize - |s|));
          }
        }
      }
      if error {
        nameBuffer[0] := Nul;
      }
    }
  }

  /** FINDING, as written: `fileSize / sizeof(ButtonTableEntry)` in `deleteAllButtons`
      divides the `int` size as an unsigned value, so a failed size lookup (-77) gives
      a huge slot count instead of a negative one. */
  function DeleteAllCountAsWritten(fileSize: int): int {
    AsUnsigned32(fileSize) / EntrySize
  }

  lemma DeleteAllCountAsWrittenOnError()
    ensures DeleteAllCountAsWritten(FileIoError) == 119304644
  {
  }

  /** Corrected: no slot to visit when the size lookup failed. */
  function DeleteAllCount(fileSize: int): (n: nat)
    ensures fileSize == FileIoError ==> n == 0
    ensures fileSize >= 0 ==> n == fileSize / EntrySize
  {
    if fileSize == FileIoError || fileSize < 0 then 0 else fileSize / EntrySize
  }
}
