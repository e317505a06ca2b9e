/** The ledger state of the app component: the month on screen, every
    stored month's ledger, the module-level id counter, the activity log and
    the toast buffer, and the event handlers that change them. */
module Store {
  import opened Wrappers
  import opened Seqs
  import opened Strings
  import opened MonthKeys
  import opened Ledgers

  /** The messages `addLog` receives, without their text decoration. */
  datatype LogMsg =
    | Started
    | MonthCopied(year: int, month: nat)
    | MonthStarted(year: int, month: nat)
    | EntryEdited(field: Field)
    | EntryAdded(category: Option<string>)
    | EntryRemoved
    | CategoryRenamed(name: string)
    | CategoryAdded(name: string)
    | CategoryRemoved
    | MonthDeleted(key: string)

  datatype Toast = Toast(id: int, msg: LogMsg)

  /** `addLog`'s effect on the two buffers: the log keeps its last 30
      messages and gains `msg`; the toasts keep their last one and gain a
      toast for `msg` with id `id`. */
  predicate Logged(log0: seq<LogMsg>, toasts0: seq<Toast>, log: seq<LogMsg>, toasts: seq<Toast>,
                   msg: LogMsg, id: int) {
    log == SliceLast(log0, 30) + [msg] && toasts == SliceLast(toasts0, 1) + [Toast(id, msg)]
  }

  class LedgerStore {
    var curYear: int
    var curMonth: nat
    var allData: map<string, Ledger>
    var uidCounter: int
    var log: seq<LogMsg>
    var toasts: seq<Toast>

    /** The month index stays in 0..11, the counter never drops below its
        start, both buffers stay within their caps with toast ids increasing
        and already minted, and every stored month is well formed with respect
        to the counter (so every id the counter mints next is new). */
    ghost predicate Valid()
      reads this
    {
      && curMonth < 12
      && uidCounter >= UID_START
      && 1 <= |log| <= 31
      && |toasts| <= 2
      && (forall i, j :: 0 <= i < j < |toasts| ==> toasts[i].id < toasts[j].id)
      && (forall t :: t in toasts ==> UID_START < t.id <= uidCounter)
      && AllWellFormed(allData, uidCounter)
    }

    /** `key`: the month on screen. */
    function Key(): string
      reads this`curYear, this`curMonth
    {
      MonthKey(curYear, curMonth)
    }

    /** `prevKey`: the month before the one on screen. */
    function PrevKey(): string
      reads this`curYear, this`curMonth
    {
      if curMonth == 0 then MonthKey(curYear - 1, 11) else MonthKey(curYear, curMonth - 1)
    }

    /** The component's initial state, opened on the month `year`/`month`
        of the clock: that month holds a copy of the seed. */
    constructor(year: int, month: nat)
      requires month < 12
      ensures Valid()
      ensures curYear == year && curMonth == month
      ensures allData == map[MonthKey(year, month) := SEED]
      ensures uidCounter == UID_START && log == [Started] && toasts == []
    {
      curYear, curMonth := year, month;
      allData := map[MonthKey(year, month) := SEED];
      uidCounter := UID_START;
      log, toasts := [Started], [];
      SeedWellFormed();
      assert AllWellFormed(map[MonthKey(year, month) := SEED], UID_START) by {
        forall k | Stored(map[MonthKey(year, month) := SEED], k)
          ensures WellFormed(map[MonthKey(year, month) := SEED][k], UID_START)
        {
        }
      }
    }

    /** `uid()`: the counter's next value. */
    method Uid() returns (id: int)
      modifies this`uidCounter
      ensures uidCounter == old(uidCounter) + 1 && id == uidCounter
    {
      uidCounter := uidCounter + 1;
      id := uidCounter;
    }

    /** `addLog(msg)`: append to the capped log, mint a toast id and append
        to the capped toast buffer. */
    method AddLog(msg: LogMsg)
      requires Valid()
      modifies this`log, this`toasts, this`uidCounter
      ensures Valid()
      ensures uidCounter == old(uidCounter) + 1
      ensures Logged(old(log), old(toasts), log, toasts, msg, uidCounter)
    {
      log := SliceLast(log, 30) + [msg];
      var id := Uid();
      toasts := SliceLast(toasts, 1) + [Toast(id, msg)];
      AllWellFormedMonotone(allData, uidCounter - 1, uidCounter);
    }

    /** `mutate(fn)`: apply `fn` to the month on screen; a month without a
        ledger is left alone. */
    method Mutate(fn: Ledger -> Ledger)
      modifies this`allData
      ensures allData == if Key() in old(allData) then old(allData)[Key() := fn(old(allData)[Key()])]
                         else old(allData)
    {
      if Key() in allData {
        allData := allData[Key() := fn(allData[Key()])];
      }
    }

    /** `prevMonth`: step back one month; the new month is the old `prevKey`. */
    method PrevMonth()
      requires Valid()
      modifies this`curYear, this`curMonth
      ensures Valid()
      ensures (curYear, curMonth) == PrevMonthOf(old(curYear), old(curMonth))
      ensures Key() == old(PrevKey())
    {
      if curMonth == 0 {
        curYear, curMonth := curYear - 1, 11;
      } else {
        curMonth := curMonth - 1;
      }
    }

    /** `nextMonth`: step forward one month. */
    method NextMonth()
      requires Valid()
      modifies this`curYear, this`curMonth
      ensures Valid()
      ensures (curYear, curMonth) == NextMonthOf(old(curYear), old(curMonth))
    {
      if curMonth == 11 {
        curYear, curMonth := curYear + 1, 0;
      } else {
        curMonth := curMonth + 1;
      }
    }

    /** `initMonth(fromPrev)`: store, under the month on screen, a copy of
        the previous month (when asked for and present) or of the seed, with
        every entry given a fresh id in order; then log. Only that key of
        `allData` changes, and it is overwritten if present. */
    method InitMonth(fromPrev: bool)
      requires Valid()
      modifies this`allData, this`uidCounter, this`log, this`toasts
      ensures Valid()
      ensures var src := InitSource(old(allData), PrevKey(), fromPrev);
        && allData == old(allData)[Key() := Ledger(src.categories, ReMinted(src.entries, old(uidCounter)))]
        && uidCounter == old(uidCounter) + |src.entries| + 1
      ensures forall e :: e in allData[Key()].entries ==> old(uidCounter) < e.id < uidCounter
      ensures Logged(old(log), old(toasts), log, toasts,
                     if fromPrev then MonthCopied(curYear, curMonth) else MonthStarted(curYear, curMonth),
                     uidCounter)
    {
      ghost var log0, toasts0 := log, toasts;
      StoreCopy(fromPrev);
      assert log == log0 && toasts == toasts0;
      AddLog(if fromPrev then MonthCopied(curYear, curMonth) else MonthStarted(curYear, curMonth));
    }

    /** The part of `initMonth` before the log: the copy with fresh ids is
        stored under the month on screen. */
    method StoreCopy(fromPrev: bool)
      requires Valid()
      modifies this`allData, this`uidCounter
      ensures var src := InitSource(old(allData), PrevKey(), fromPrev);
        && allData == old(allData)[Key() := Ledger(src.categories, ReMinted(src.entries, old(uidCounter)))]
        && uidCounter == old(uidCounter) + |src.entries|
      ensures AllWellFormed(allData, uidCounter)
      ensures forall e :: e in allData[Key()].entries ==> old(uidCounter) < e.id <= uidCounter
    {
      var src := InitSource(allData, PrevKey(), fromPrev);
      ghost var data0, u0 := allData, uidCounter;
      var es := MintIds(src.entries);
      allData := allData[Key() := Ledger(src.categories, es)];
      AllAfterInit(data0, Key(), PrevKey(), fromPrev, u0, allData, uidCounter);
      ReMintedFresh(src.entries, u0);
    }

    /** The `map` in `initMonth`: every entry of `src` in order, each given
        the counter's next value as its id. */
    method MintIds(src: seq<Entry>) returns (es: seq<Entry>)
      modifies this`uidCounter
      ensures es == ReMinted(src, old(uidCounter))
      ensures uidCounter == old(uidCounter) + |src|
    {
      es := src;
      var i := 0;
      while i < |es|
        invariant 0 <= i <= |es| == |src|
        invariant uidCounter == old(uidCounter) + i
        invariant forall k :: 0 <= k < i ==> es[k] == src[k].(id := old(uidCounter) + 1 + k)
        invariant forall k :: i <= k < |es| ==> es[k] == src[k]
      {
        var id := Uid();
        es := es[i := es[i].(id := id)];
        i := i + 1;
      }
    }

    /** `updateEntry(entId, field, raw)`: set one field of the entry with
        that id in the month on screen (a value is parsed first); log. */
    method UpdateEntry(entId: int, field: Field)
      requires Valid()
      modifies this`allData, this`uidCounter, this`log, this`toasts
      ensures Valid()
      ensures allData == if Key() in old(allData)
                         then old(allData)[Key() := UpdateEntryIn(old(allData)[Key()], entId, field)]
                         else old(allData)
      ensures uidCounter == old(uidCounter) + 1
      ensures Logged(old(log), old(toasts), log, toasts, EntryEdited(field), uidCounter)
    {
      ghost var data0, log0, toasts0 := allData, log, toasts;
      Mutate((d: Ledger) => UpdateEntryIn(d, entId, field));
      AllAfterUpdateEntry(data0, Key(), uidCounter, entId, field, allData);
      assert log == log0 && toasts == toasts0;
      AddLog(EntryEdited(field));
    }

    /** `addEntry(catId)`: mint an id, append a new entry under `catId`
        (which is not checked against the categories), log. */
    method AddEntry(catId: string)
      requires Valid()
      modifies this`allData, this`uidCounter, this`log, this`toasts
      ensures Valid()
      ensures allData == if Key() in old(allData)
                         then old(allData)[Key() := AddEntryTo(old(allData)[Key()], old(uidCounter) + 1, catId)]
                         else old(allData)
      ensures uidCounter == old(uidCounter) + 2
      ensures var name := if Key() in old(allData) then CategoryName(old(allData)[Key()], catId) else None;
        Logged(old(log), old(toasts), log, toasts, EntryAdded(name), uidCounter)
    {
      ghost var log0, toasts0 := log, toasts;
      var name := if Key() in allData then CategoryName(allData[Key()], catId) else None;
      AppendEntry(catId);
      assert log == log0 && toasts == toasts0;
      AddLog(EntryAdded(name));
    }

    /** The part of `addEntry` before the log: a new id, and the entry
        appended to the month on screen. */
    method AppendEntry(catId: string)
      requires Valid()
      modifies this`allData, this`uidCounter
      ensures allData == if Key() in old(allData)
                         then old(allData)[Key() := AddEntryTo(old(allData)[Key()], old(uidCounter) + 1, catId)]
                         else old(allData)
      ensures uidCounter == old(uidCounter) + 1
      ensures AllWellFormed(allData, uidCounter)
    {
      ghost var data0, u0 := allData, uidCounter;
      var newId := Uid();
      Mutate((d: Ledger) => AddEntryTo(d, newId, catId));
      AllAfterAddEntry(data0, Key(), u0, catId, allData, uidCounter);
    }

    /** `removeEntry(entId)`: refused (nothing changes, nothing is logged)
        when the id is absent or its entry is its category's only one;
        otherwise that entry is deleted and the removal logged. */
    method RemoveEntry(entId: int)
      requires Valid() && Key() in allData
      modifies this`allData, this`uidCounter, this`log, this`toasts
      ensures Valid()
      ensures !EntryRemovable(old(allData)[Key()], entId) ==>
        allData == old(allData) && uidCounter == old(uidCounter) && log == old(log) && toasts == old(toasts)
      ensures EntryRemovable(old(allData)[Key()], entId) ==>
        && allData == old(allData)[Key() := RemoveEntryFrom(old(allData)[Key()], entId)]
        && uidCounter == old(uidCounter) + 1
        && Logged(old(log), old(toasts), log, toasts, EntryRemoved, uidCounter)
    {
      var l := allData[Key()];
      var found := Find(l.entries, HasId(entId));
      if found.None? {
        return;
      }
      var entry := l.entries[found.value];
      if CountInCat(l.entries, entry.catId) <= 1 {
        return;
      }
      ghost var data0, log0, toasts0 := allData, log, toasts;
      Mutate((d: Ledger) => RemoveEntryFrom(d, entId));
      AllAfterRemoveEntry(data0, Key(), uidCounter, found.value, allData);
      assert log == log0 && toasts == toasts0;
      AddLog(EntryRemoved);
    }

    /** `updateCatLabel(catId, label)`: relabel that category in the month
        on screen; log. */
    method UpdateCatLabel(catId: string, name: string)
      requires Valid()
      modifies this`allData, this`uidCounter, this`log, this`toasts
      ensures Valid()
      ensures allData == if Key() in old(allData)
                         then old(allData)[Key() := RenameCategoryIn(old(allData)[Key()], catId, name)]
                         else old(allData)
      ensures uidCounter == old(uidCounter) + 1
      ensures Logged(old(log), old(toasts), log, toasts, CategoryRenamed(name), uidCounter)
    {
      ghost var data0, log0, toasts0 := allData, log, toasts;
      Mutate((d: Ledger) => RenameCategoryIn(d, catId, name));
      AllAfterRenameCategory(data0, Key(), uidCounter, catId, name, allData);
      assert log == log0 && toasts == toasts0;
      AddLog(CategoryRenamed(name));
    }

    /** `addCategory()` with the typed name: a name that trims to nothing
        does nothing; otherwise a category `cat_<uid>` coloured from the
        palette by the current category count, one lion entry worth 0 for
        it, and a log line. */
    method AddCategory(newCatName: string)
      requires Valid()
      requires Trim(newCatName) != [] ==> Key() in allData
      modifies this`allData, this`uidCounter, this`log, this`toasts
      ensures Valid()
      ensures Trim(newCatName) == [] ==>
        allData == old(allData) && uidCounter == old(uidCounter) && log == old(log) && toasts == old(toasts)
      ensures Trim(newCatName) != [] ==>
        var l, u := old(allData)[Key()], old(uidCounter);
        allData == old(allData)[Key() := AddCategoryTo(l, MintedCatId(u + 1), Trim(newCatName),
                                                          COLORS[|l.categories| % |COLORS|], u + 2)]
      ensures Trim(newCatName) != [] ==> uidCounter == old(uidCounter) + 3
      ensures Trim(newCatName) != [] ==>
        Logged(old(log), old(toasts), log, toasts, CategoryAdded(Trim(newCatName)), uidCounter)
    {
      var name := Trim(newCatName);
      if name == [] {
        return;
      }
      AddNamedCategory(name);
    }

    /** `addCategory()` once the trimmed name is known not to be blank. */
    method AddNamedCategory(name: string)
      requires Valid() && Key() in allData
      modifies this`allData, this`uidCounter, this`log, this`toasts
      ensures Valid()
      ensures var l, u := old(allData)[Key()], old(uidCounter);
        allData == old(allData)[Key() := AddCategoryTo(l, MintedCatId(u + 1), name,
                                                        COLORS[|l.categories| % |COLORS|], u + 2)]
      ensures uidCounter == old(uidCounter) + 3
      ensures Logged(old(log), old(toasts), log, toasts, CategoryAdded(name), uidCounter)
    {
      var color := COLORS[|allData[Key()].categories| % |COLORS|];
      ghost var data0, u0, log0, toasts0 := allData, uidCounter, log, toasts;
      InsertCategory(name, color);
      AllAfterAddCategory(data0, Key(), u0, name, color, allData, uidCounter);
      assert log == log0 && toasts == toasts0;
      AddLog(CategoryAdded(name));
    }

    /** The part of `addCategory` between the blank-name test and the log:
        `cat_<uid>` minted, then the category and an entry with the next
        id appended to the month on screen. */
    method InsertCategory(name: string, color: string)
      requires Key() in allData
      modifies this`allData, this`uidCounter
      ensures var l, u := old(allData)[Key()], old(uidCounter);
        && allData == old(allData)[Key() := AddCategoryTo(l, MintedCatId(u + 1), name, color, u + 2)]
        && uidCounter == u + 2
    {
      var n := Uid();
      var id := MintedCatId(n);
      var entryId := Uid();
      Mutate((d: Ledger) => AddCategoryTo(d, id, name, color, entryId));
    }

    /** `removeCategory(catId)`: refused when the month has one category or
        none; otherwise the category goes, with every entry that names it. */
    method RemoveCategory(catId: string)
      requires Valid() && Key() in allData
      modifies this`allData, this`uidCounter, this`log, this`toasts
      ensures Valid()
      ensures |old(allData)[Key()].categories| <= 1 ==>
        allData == old(allData) && uidCounter == old(uidCounter) && log == old(log) && toasts == old(toasts)
      ensures |old(allData)[Key()].categories| >= 2 ==>
        && allData == old(allData)[Key() := RemoveCategoryFrom(old(allData)[Key()], catId)]
        && uidCounter == old(uidCounter) + 1
        && Logged(old(log), old(toasts), log, toasts, CategoryRemoved, uidCounter)
    {
      if |allData[Key()].categories| <= 1 {
        return;
      }
      ghost var data0, log0, toasts0 := allData, log, toasts;
      Mutate((d: Ledger) => RemoveCategoryFrom(d, catId));
      AllAfterRemoveCategory(data0, Key(), uidCounter, catId, allData);
      assert log == log0 && toasts == toasts0;
      AddLog(CategoryRemoved);
    }

    /** The history tab's delete button for month `k`, after the user's
        answer to the confirmation dialog: on yes, only that month goes. */
    method DeleteMonth(k: string, confirmed: bool)
      requires Valid()
      modifies this`allData, this`uidCounter, this`log, this`toasts
      ensures Valid()
      ensures !confirmed ==>
        allData == old(allData) && uidCounter == old(uidCounter) && log == old(log) && toasts == old(toasts)
      ensures confirmed ==>
        && allData == old(allData) - {k}
        && uidCounter == old(uidCounter) + 1
        && Logged(old(log), old(toasts), log, toasts, MonthDeleted(k), uidCounter)
    {
      if !confirmed {
        return;
      }
      AllWellFormedDelete(allData, k, uidCounter);
      allData := allData - {k};
      AddLog(MonthDeleted(k));
    }
  }
}
