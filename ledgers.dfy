/** The month ledger: categories, entries, the seed month and the palette,
    the edits the event handlers make to one ledger, and the invariant those
    edits keep (every category has an entry, a ledger has a category, ids are
    distinct and no larger than the id counter). */
module Ledgers {
  import opened Wrappers
  import opened Seqs
  import opened Decimal
  import opened Amounts

  /** The two owners an entry can belong to ("lion" and "primo"). */
  datatype Owner = Lion | Primo

  datatype Category = Category(id: string, name: string, color: string)

  datatype Entry = Entry(id: int, catId: string, desc: string, owner: Owner, value: real)

  /** One month: its categories and its entries, each in display order. */
  datatype Ledger = Ledger(categories: seq<Category>, entries: seq<Entry>)

  /** The field an inline edit of an entry writes: `desc` and `owner` take
      the text as given, `value` goes through `parseVal`. */
  datatype Field = Desc(text: string) | OwnerOf(owner: Owner) | Value(raw: string)

  /** `COLORS`: the palette new categories cycle through. */
  const COLORS: seq<string> :=
    ["#67e8f9", "#f59e0b", "#34d399", "#a78bfa", "#f87171", "#fb923c", "#38bdf8", "#e879f9"]

  /** `SEED_DATA`: the month a fresh ledger starts from. */
  const SEED: Ledger := Ledger(
    [ Category("internet", "Internet", "#67e8f9"),
      Category("energia", "Energisa", "#f59e0b"),
      Category("aguas", "Águas", "#34d399"),
      Category("aluguel", "Aluguel", "#a78bfa") ],
    [ Entry(1, "internet", "Fibra", Lion, 156.63),
      Entry(2, "energia", "Unidade Lion", Lion, 955.96),
      Entry(3, "energia", "Unidade Primo", Primo, 540.16),
      Entry(4, "aguas", "Fatura 1", Lion, 224.20),
      Entry(5, "aguas", "Fatura 2", Lion, 224.20),
      Entry(6, "aguas", "Fatura 3", Primo, 232.39),
      Entry(7, "aluguel", "Imóvel 1", Lion, 1612.13),
      Entry(8, "aluguel", "Imóvel 2", Primo, 1612.13) ])

  /** Initial value of the id counter `_uid`. */
  const UID_START: int := 200

  // Keys and predicates handed to `Filter`, `Find` and `DistinctBy`.
  function EntryKey(e: Entry): int { e.id }
  function CategoryKey(c: Category): string { c.id }
  function HasId(id: int): Entry -> bool { (e: Entry) => e.id == id }
  function NotId(id: int): Entry -> bool { (e: Entry) => e.id != id }
  function InCat(c: string): Entry -> bool { (e: Entry) => e.catId == c }
  function NotInCat(c: string): Entry -> bool { (e: Entry) => e.catId != c }
  function IsCategory(c: string): Category -> bool { (x: Category) => x.id == c }
  function OtherCategory(c: string): Category -> bool { (x: Category) => x.id != c }

  /** `categories.find(c => c.id === catId)?.label`: the name of the first
      category with that id, `None` (undefined) when there is none. */
  function CategoryName(l: Ledger, catId: string): (r: Option<string>)
    ensures r.None? <==> forall j :: 0 <= j < |l.categories| ==> l.categories[j].id != catId
    ensures r.Some? ==> exists j :: 0 <= j < |l.categories| && l.categories[j] == Category(catId, r.value, l.categories[j].color)
  {
    match Find(l.categories, IsCategory(catId))
    case Some(j) => Some(l.categories[j].name)
    case None => None
  }

  /** `entries.filter(e => e.catId === c).length`. */
  function CountInCat(es: seq<Entry>, c: string): nat {
    |Filter(es, InCat(c))|
  }

  /** The id `addCategory` gives a category made with counter value `n`. */
  function MintedCatId(n: int): string {
    "cat_" + IntToString(n)
  }

  /** A category id that is one of the seed's or was minted with a counter
      value no larger than `u`. */
  predicate KnownCatId(id: string, u: int) {
    || id == "internet" || id == "energia" || id == "aguas" || id == "aluguel"
    || (|id| > 4 && id[..4] == "cat_" && AllDigits(id[4..]) && DigitsValue(id[4..]) <= u)
  }

  /** The ledger invariant, relative to the current value `u` of the id
      counter. */
  predicate WellFormed(l: Ledger, u: int) {
    && |l.categories| >= 1
    && DistinctBy(l.categories, CategoryKey)
    && DistinctBy(l.entries, EntryKey)
    && (forall c :: c in l.categories ==> CountInCat(l.entries, c.id) >= 1)
    && (forall e :: e in l.entries ==> e.id <= u)
    && (forall c :: c in l.categories ==> KnownCatId(c.id, u))
  }

  /** `e[field] = val`. */
  function ApplyField(e: Entry, f: Field): (r: Entry)
    ensures r.id == e.id && r.catId == e.catId
  {
    match f
    case Desc(t) => e.(desc := t)
    case OwnerOf(o) => e.(owner := o)
    case Value(raw) => e.(value := ParseVal(raw))
  }

  /** `src.entries.map(e => ({...e, id: uid()}))` with the counter at `start`:
      the i-th entry gets id `start + 1 + i`. */
  function ReMinted(es: seq<Entry>, start: int): (r: seq<Entry>)
    ensures |r| == |es|
  {
    seq(|es|, i requires 0 <= i < |es| => es[i].(id := start + 1 + i))
  }

  /** Re-minted ids are strictly increasing and all above the counter value
      they started from; everything else about each entry is kept. */
  lemma ReMintedFresh(es: seq<Entry>, start: int)
    ensures forall i, j :: 0 <= i < j < |es| ==> ReMinted(es, start)[i].id < ReMinted(es, start)[j].id
    ensures forall i :: 0 <= i < |es| ==>
      var e := ReMinted(es, start)[i];
      e.id > start && e == es[i].(id := e.id)
  {
  }

  lemma SeedIdsDistinct()
    ensures DistinctBy(SEED.categories, CategoryKey)
    ensures DistinctBy(SEED.entries, EntryKey)
  {
  }

  /** A category that some entry names has a positive count. */
  lemma CategoriesUsedByWitness(l: Ledger, w: seq<nat>)
    requires |w| == |l.categories|
    requires forall j :: 0 <= j < |w| ==> w[j] < |l.entries| && l.entries[w[j]].catId == l.categories[j].id
    ensures forall c :: c in l.categories ==> CountInCat(l.entries, c.id) >= 1
  {
    forall c | c in l.categories ensures CountInCat(l.entries, c.id) >= 1 {
      var j :| 0 <= j < |l.categories| && l.categories[j] == c;
      FilterMembers(l.entries, InCat(c.id));
      assert l.entries[w[j]] in Filter(l.entries, InCat(c.id));
    }
  }

  lemma SeedIdsBounded()
    ensures forall e :: e in SEED.entries ==> e.id <= UID_START
    ensures forall c :: c in SEED.categories ==> KnownCatId(c.id, UID_START)
  {
  }

  /** The seed month satisfies the invariant at the counter's start value. */
  lemma SeedWellFormed()
    ensures WellFormed(SEED, UID_START)
  {
    SeedIdsDistinct();
    SeedIdsBounded();
    CategoriesUsedByWitness(SEED, [0, 1, 3, 6]);
  }

  /** The invariant only gets easier as the counter grows. */
  lemma WellFormedMonotone(l: Ledger, u: int, u': int)
    requires WellFormed(l, u) && u <= u'
    ensures WellFormed(l, u')
  {
  }

  /** Entries with the same category ids, position by position, have the
      same per-category counts. */
  lemma {:induction false} CountSameCats(a: seq<Entry>, b: seq<Entry>, c: string)
    requires |a| == |b| && forall i :: 0 <= i < |a| ==> a[i].catId == b[i].catId
    ensures CountInCat(a, c) == CountInCat(b, c)
    decreases |a|
  {
    if a != [] {
      CountSameCats(a[..|a| - 1], b[..|b| - 1], c);
    }
  }

  /** With distinct ids, filtering out one entry's id deletes just that entry. */
  lemma WithoutIdDeletesOne(es: seq<Entry>, i: nat)
    requires i < |es| && DistinctBy(es, EntryKey)
    ensures Filter(es, NotId(es[i].id)) == es[..i] + es[i + 1..]
  {
    forall k | 0 <= k < |es| && k != i ensures NotId(es[i].id)(es[k]) {
      if k < i { assert EntryKey(es[k]) != EntryKey(es[i]); }
      else { assert EntryKey(es[i]) != EntryKey(es[k]); }
    }
    FilterDropsOne(es, NotId(es[i].id), i);
  }

  /** With distinct ids, removing the categories with one id deletes just
      the category at `j`. */
  lemma OtherCategoryDeletesOne(cs: seq<Category>, j: nat)
    requires j < |cs| && DistinctBy(cs, CategoryKey)
    ensures Filter(cs, OtherCategory(cs[j].id)) == cs[..j] + cs[j + 1..]
  {
    forall k | 0 <= k < |cs| && k != j ensures OtherCategory(cs[j].id)(cs[k]) {
      if k < j { assert CategoryKey(cs[k]) != CategoryKey(cs[j]); }
      else { assert CategoryKey(cs[j]) != CategoryKey(cs[k]); }
    }
    FilterDropsOne(cs, OtherCategory(cs[j].id), j);
  }

  /** Deleting the entry at `i` lowers the count of its own category by one
      and leaves every other count alone. */
  lemma CountAfterDelete(es: seq<Entry>, i: nat, c: string)
    requires i < |es|
    ensures CountInCat(es[..i] + es[i + 1..], c) == CountInCat(es, c) - (if es[i].catId == c then 1 else 0)
  {
    var pre, post := es[..i], es[i + 1..];
    assert es == pre + [es[i]] + post;
    FilterConcat(pre + [es[i]], post, InCat(c));
    FilterConcat(pre, [es[i]], InCat(c));
    FilterConcat(pre, post, InCat(c));
    assert [es[i]][..0] == [];
  }

  /** Appending an entry raises the count of its category by one. */
  lemma CountAfterAppend(es: seq<Entry>, e: Entry, c: string)
    ensures CountInCat(es + [e], c) == CountInCat(es, c) + (if e.catId == c then 1 else 0)
  {
    assert (es + [e])[..|es|] == es;
  }

  // ---- the edits the `mutate` callbacks make to the month's ledger -------

  /** `updateEntry`'s callback: `find` the entry by id and set one field; a
      missing id changes nothing. */
  function UpdateEntryIn(l: Ledger, id: int, f: Field): Ledger {
    match Find(l.entries, HasId(id))
    case None => l
    case Some(i) => l.(entries := l.entries[i := ApplyField(l.entries[i], f)])
  }

  /** `addEntry`'s callback: push a new lion entry worth 0. */
  function AddEntryTo(l: Ledger, id: int, catId: string): Ledger {
    l.(entries := l.entries + [Entry(id, catId, "Nova entrada", Lion, 0.0)])
  }

  /** `removeEntry`'s two guards: the id is present, and its category has
      another entry. */
  predicate EntryRemovable(l: Ledger, id: int) {
    match Find(l.entries, HasId(id))
    case None => false
    case Some(i) => CountInCat(l.entries, l.entries[i].catId) >= 2
  }

  /** `removeEntry`'s callback: keep the entries with another id. */
  function RemoveEntryFrom(l: Ledger, id: int): Ledger {
    l.(entries := Filter(l.entries, NotId(id)))
  }

  /** `updateCatLabel`'s callback: `find` the category and relabel it. */
  function RenameCategoryIn(l: Ledger, catId: string, name: string): Ledger {
    match Find(l.categories, IsCategory(catId))
    case None => l
    case Some(j) => l.(categories := l.categories[j := l.categories[j].(name := name)])
  }

  /** `addCategory`'s callback: push the category and its first entry. */
  function AddCategoryTo(l: Ledger, catId: string, name: string, color: string, entryId: int): Ledger {
    Ledger(l.categories + [Category(catId, name, color)],
           l.entries + [Entry(entryId, catId, "Entrada 1", Lion, 0.0)])
  }

  /** `removeCategory`'s callback: drop the category and, with it, its
      entries. */
  function RemoveCategoryFrom(l: Ledger, catId: string): Ledger {
    Ledger(Filter(l.categories, OtherCategory(catId)), Filter(l.entries, NotInCat(catId)))
  }

  /** `removeEntry`'s edit: once the guard has seen that the entry's category
      has another entry, deleting it keeps the invariant. */
  lemma RemoveEntryKeeps(l: Ledger, u: int, i: nat)
    requires WellFormed(l, u) && i < |l.entries|
    requires CountInCat(l.entries, l.entries[i].catId) >= 2
    ensures WellFormed(RemoveEntryFrom(l, l.entries[i].id), u)
  {
    var es := l.entries;
    var es' := Filter(es, NotId(es[i].id));
    WithoutIdDeletesOne(es, i);
    FilterDistinct(es, NotId(es[i].id), EntryKey);
    forall c | c in l.categories ensures CountInCat(es', c.id) >= 1 {
      CountAfterDelete(es, i, c.id);
    }
  }

  /** `removeCategory`'s edit: with at least two categories, deleting one
      category together with its entries keeps the invariant. */
  lemma RemoveCategoryKeeps(l: Ledger, u: int, c: string)
    requires WellFormed(l, u) && |l.categories| >= 2
    ensures WellFormed(RemoveCategoryFrom(l, c), u)
  {
    var cs' := Filter(l.categories, OtherCategory(c));
    var es' := Filter(l.entries, NotInCat(c));
    assert CategoryKey(l.categories[0]) != CategoryKey(l.categories[1]);
    FilterMembers(l.categories, OtherCategory(c));
    FilterMembers(l.entries, NotInCat(c));
    if l.categories[0].id != c { assert l.categories[0] in cs'; } else { assert l.categories[1] in cs'; }
    FilterDistinct(l.categories, OtherCategory(c), CategoryKey);
    FilterDistinct(l.entries, NotInCat(c), EntryKey);
    forall d | d in cs' ensures CountInCat(es', d.id) >= 1 {
      FilterNested(l.entries, NotInCat(c), InCat(d.id));
    }
  }

  /** `addEntry`'s edit: appending an entry with a fresh id keeps the
      invariant, whatever category id it names. */
  lemma AddEntryKeeps(l: Ledger, u: int, catId: string)
    requires WellFormed(l, u)
    ensures WellFormed(AddEntryTo(l, u + 1, catId), u + 1)
  {
    var e := Entry(u + 1, catId, "Nova entrada", Lion, 0.0);
    forall c | c in l.categories ensures CountInCat(l.entries + [e], c.id) >= 1 {
      CountAfterAppend(l.entries, e, c.id);
    }
    AppendDistinct(l.entries, e, EntryKey);
  }

  /** The category id minted with counter value `n` is new to any ledger
      whose ids were all known at counter value `u < n`. */
  lemma MintedCatIdFresh(id: string, u: int, n: int)
    requires KnownCatId(id, u) && 0 <= u < n
    ensures id != MintedCatId(n)
    ensures KnownCatId(MintedCatId(n), n)
  {
    var m := MintedCatId(n);
    assert m[..4] == "cat_" && m[4..] == NatToString(n);
    NatToStringValue(n);
  }

  /** `addCategory`'s edit: a category with the id minted at `u + 1` and one
      seed entry for it with id `u + 2` keep the invariant. */
  lemma AddCategoryKeeps(l: Ledger, u: int, name: string, color: string)
    requires WellFormed(l, u) && u >= 0
    ensures WellFormed(AddCategoryTo(l, MintedCatId(u + 1), name, color, u + 2), u + 2)
  {
    var id := MintedCatId(u + 1);
    var c := Category(id, name, color);
    var e := Entry(u + 2, id, "Entrada 1", Lion, 0.0);
    var cs', es' := l.categories + [c], l.entries + [e];
    forall x | x in l.categories ensures CategoryKey(x) != CategoryKey(c) {
      MintedCatIdFresh(x.id, u, u + 1);
    }
    MintedCatIdFresh(l.categories[0].id, u, u + 1);
    AppendDistinct(l.categories, c, CategoryKey);
    AppendDistinct(l.entries, e, EntryKey);
    forall x | x in cs' ensures CountInCat(es', x.id) >= 1 && KnownCatId(x.id, u + 2) {
      CountAfterAppend(l.entries, e, x.id);
      if x != c {
        assert x in l.categories;
      }
    }
  }

  /** `updateEntry`'s edit keeps the invariant: it never touches an id or a
      category id. */
  lemma UpdateEntryKeeps(l: Ledger, u: int, i: nat, f: Field)
    requires WellFormed(l, u) && i < |l.entries|
    ensures WellFormed(l.(entries := l.entries[i := ApplyField(l.entries[i], f)]), u)
  {
    var es' := l.entries[i := ApplyField(l.entries[i], f)];
    forall c | c in l.categories ensures CountInCat(es', c.id) >= 1 {
      CountSameCats(l.entries, es', c.id);
    }
    forall a, b | 0 <= a < b < |es'| ensures EntryKey(es'[a]) != EntryKey(es'[b]) {
      assert EntryKey(l.entries[a]) != EntryKey(l.entries[b]);
    }
    forall e | e in es' ensures e.id <= u {
      var k :| 0 <= k < |es'| && es'[k] == e;
      assert l.entries[k] in l.entries;
    }
  }

  /** `updateCatLabel`'s edit keeps the invariant: it only changes a label. */
  lemma RenameCategoryKeeps(l: Ledger, u: int, j: nat, name: string)
    requires WellFormed(l, u) && j < |l.categories|
    ensures WellFormed(l.(categories := l.categories[j := l.categories[j].(name := name)]), u)
  {
    var cs' := l.categories[j := l.categories[j].(name := name)];
    forall a, b | 0 <= a < b < |cs'| ensures CategoryKey(cs'[a]) != CategoryKey(cs'[b]) {
      assert CategoryKey(l.categories[a]) != CategoryKey(l.categories[b]);
    }
    forall x | x in cs' ensures CountInCat(l.entries, x.id) >= 1 && KnownCatId(x.id, u) {
      var k :| 0 <= k < |cs'| && cs'[k] == x;
      assert l.categories[k] in l.categories;
    }
  }

  /** `initMonth`'s edit: re-minting every entry of a well-formed ledger from
      counter value `u` keeps the invariant at `u + |entries|`. */
  lemma ReMintKeeps(l: Ledger, u0: int, u: int)
    requires WellFormed(l, u0) && u0 <= u
    ensures WellFormed(Ledger(l.categories, ReMinted(l.entries, u)), u + |l.entries|)
  {
    var es' := ReMinted(l.entries, u);
    forall c | c in l.categories ensures CountInCat(es', c.id) >= 1 {
      CountSameCats(l.entries, es', c.id);
    }
    forall c | c in l.categories ensures KnownCatId(c.id, u + |l.entries|) {
      assert KnownCatId(c.id, u0);
    }
  }

  /** `updateEntry` changes exactly the entry with the given id, and only the
      one field; categories and every other entry stay as they were. */
  lemma UpdateEntrySpec(l: Ledger, u: int, id: int, f: Field)
    requires WellFormed(l, u)
    ensures WellFormed(UpdateEntryIn(l, id, f), u)
    ensures UpdateEntryIn(l, id, f).categories == l.categories
    ensures |UpdateEntryIn(l, id, f).entries| == |l.entries|
    ensures forall k :: 0 <= k < |l.entries| ==>
      UpdateEntryIn(l, id, f).entries[k] == if l.entries[k].id == id then ApplyField(l.entries[k], f) else l.entries[k]
  {
    UpdateEntryInKeeps(l, u, id, f);
    match Find(l.entries, HasId(id))
    case None =>
    case Some(i) =>
      forall k | 0 <= k < |l.entries| && k != i ensures l.entries[k].id != id {
        if k < i {
          assert EntryKey(l.entries[k]) != EntryKey(l.entries[i]);
        } else {
          assert EntryKey(l.entries[i]) != EntryKey(l.entries[k]);
        }
      }
  }

  /** `removeEntry` refuses exactly when the id is absent or its entry is the
      only one of its category; otherwise it deletes exactly that entry and
      keeps the invariant. */
  lemma RemoveEntrySpec(l: Ledger, u: int, id: int)
    requires WellFormed(l, u)
    ensures !EntryRemovable(l, id) <==>
      (forall e :: e in l.entries ==> e.id != id)
      || (exists e :: e in l.entries && e.id == id && CountInCat(l.entries, e.catId) == 1)
    ensures EntryRemovable(l, id) ==>
      && WellFormed(RemoveEntryFrom(l, id), u)
      && RemoveEntryFrom(l, id).categories == l.categories
      && exists i :: 0 <= i < |l.entries| && l.entries[i].id == id
           && RemoveEntryFrom(l, id).entries == l.entries[..i] + l.entries[i + 1..]
  {
    match Find(l.entries, HasId(id))
    case None =>
      forall e | e in l.entries ensures e.id != id {
        var k :| 0 <= k < |l.entries| && l.entries[k] == e;
      }
    case Some(i) =>
      var x := l.entries[i];
      assert Filter(l.entries, InCat(x.catId)) != [] by {
        FilterMembers(l.entries, InCat(x.catId));
        assert x in Filter(l.entries, InCat(x.catId));
      }
      forall e | e in l.entries && e.id == id ensures e == x {
        var k :| 0 <= k < |l.entries| && l.entries[k] == e;
      }
      if CountInCat(l.entries, x.catId) >= 2 {
        RemoveEntryKeeps(l, u, i);
        WithoutIdDeletesOne(l.entries, i);
      }
  }

  /** `updateCatLabel` relabels exactly the category with the given id;
      entries, ids and colours stay as they were. */
  lemma RenameCategorySpec(l: Ledger, u: int, catId: string, name: string)
    requires WellFormed(l, u)
    ensures WellFormed(RenameCategoryIn(l, catId, name), u)
    ensures RenameCategoryIn(l, catId, name).entries == l.entries
    ensures |RenameCategoryIn(l, catId, name).categories| == |l.categories|
    ensures forall k :: 0 <= k < |l.categories| ==>
      RenameCategoryIn(l, catId, name).categories[k]
        == if l.categories[k].id == catId then l.categories[k].(name := name) else l.categories[k]
  {
    RenameCategoryInKeeps(l, u, catId, name);
    match Find(l.categories, IsCategory(catId))
    case None =>
    case Some(j) =>
      forall k | 0 <= k < |l.categories| && k != j ensures l.categories[k].id != catId {
        if k < j {
          assert CategoryKey(l.categories[k]) != CategoryKey(l.categories[j]);
        } else {
          assert CategoryKey(l.categories[j]) != CategoryKey(l.categories[k]);
        }
      }
  }

  /** `removeCategory` on a ledger with two or more categories deletes that
      category (if present) and exactly the entries that name it, keeps the
      other entries in their order, and keeps the invariant. */
  lemma RemoveCategorySpec(l: Ledger, u: int, catId: string)
    requires WellFormed(l, u) && |l.categories| >= 2
    ensures WellFormed(RemoveCategoryFrom(l, catId), u)
    ensures forall e :: e in RemoveCategoryFrom(l, catId).entries <==> e in l.entries && e.catId != catId
    ensures forall i, j :: 0 <= i < j < |l.entries| && l.entries[i].catId != catId && l.entries[j].catId != catId ==>
      var r := RemoveCategoryFrom(l, catId).entries;
      var a := KeptBefore(l.entries, NotInCat(catId), i);
      var b := KeptBefore(l.entries, NotInCat(catId), j);
      a < b < |r| && r[a] == l.entries[i] && r[b] == l.entries[j]
    ensures forall j :: 0 <= j < |l.categories| && l.categories[j].id == catId ==>
      RemoveCategoryFrom(l, catId).categories == l.categories[..j] + l.categories[j + 1..]
    ensures (forall c :: c in l.categories ==> c.id != catId) ==>
      RemoveCategoryFrom(l, catId).categories == l.categories
  {
    RemoveCategoryKeeps(l, u, catId);
    FilterMembers(l.entries, NotInCat(catId));
    forall i, j | 0 <= i < j < |l.entries| && l.entries[i].catId != catId && l.entries[j].catId != catId
      ensures KeptBefore(l.entries, NotInCat(catId), i) < KeptBefore(l.entries, NotInCat(catId), j) < |Filter(l.entries, NotInCat(catId))|
      ensures Filter(l.entries, NotInCat(catId))[KeptBefore(l.entries, NotInCat(catId), i)] == l.entries[i]
      ensures Filter(l.entries, NotInCat(catId))[KeptBefore(l.entries, NotInCat(catId), j)] == l.entries[j]
    {
      FilterPosition(l.entries, NotInCat(catId), i, j);
    }
    forall j | 0 <= j < |l.categories| && l.categories[j].id == catId
      ensures RemoveCategoryFrom(l, catId).categories == l.categories[..j] + l.categories[j + 1..]
    {
      OtherCategoryDeletesOne(l.categories, j);
    }
    if forall c :: c in l.categories ==> c.id != catId {
      FilterAll(l.categories, OtherCategory(catId));
    }
  }

  /** `updateEntry`'s callback keeps the invariant. */
  lemma UpdateEntryInKeeps(l: Ledger, u: int, id: int, f: Field)
    requires WellFormed(l, u)
    ensures WellFormed(UpdateEntryIn(l, id, f), u)
  {
    match Find(l.entries, HasId(id))
    case None =>
    case Some(i) => UpdateEntryKeeps(l, u, i, f);
  }

  /** `updateCatLabel`'s callback keeps the invariant. */
  lemma RenameCategoryInKeeps(l: Ledger, u: int, catId: string, name: string)
    requires WellFormed(l, u)
    ensures WellFormed(RenameCategoryIn(l, catId, name), u)
  {
    match Find(l.categories, IsCategory(catId))
    case None =>
    case Some(j) => RenameCategoryKeeps(l, u, j, name);
  }

  /** `k` is a stored month of `m`. */
  predicate Stored(m: map<string, Ledger>, k: string) {
    k in m
  }

  /** Every stored month is well formed with respect to the counter `u`.
      The trigger keeps the solver from unfolding every month's invariant
      wherever a map lookup appears; `StoredWellFormed` reads one month off. */
  ghost predicate AllWellFormed(m: map<string, Ledger>, u: int) {
    forall k {:trigger Stored(m, k)} :: Stored(m, k) ==> WellFormed(m[k], u)
  }

  /** The invariant of one stored month. */
  lemma StoredWellFormed(m: map<string, Ledger>, k: string, u: int)
    requires AllWellFormed(m, u) && k in m
    ensures WellFormed(m[k], u)
  {
    assert Stored(m, k);
  }

  /** Raising the counter keeps every month well formed. */
  lemma AllWellFormedMonotone(m: map<string, Ledger>, u: int, u': int)
    requires AllWellFormed(m, u) && u <= u'
    ensures AllWellFormed(m, u')
  {
    forall k | Stored(m, k) ensures WellFormed(m[k], u') {
      WellFormedMonotone(m[k], u, u');
    }
  }

  /** Storing a well-formed ledger under any key, at a counter no lower than
      before, keeps every month well formed. */
  lemma AllWellFormedStore(m: map<string, Ledger>, k: string, l: Ledger, u: int, u': int)
    requires AllWellFormed(m, u) && u <= u' && WellFormed(l, u')
    ensures AllWellFormed(m[k := l], u')
  {
    forall k' {:trigger Stored(m[k := l], k')} | Stored(m[k := l], k') ensures WellFormed(m[k := l][k'], u') {
      if k' != k {
        assert Stored(m, k');
        WellFormedMonotone(m[k'], u, u');
      }
    }
  }

  /** Deleting a month keeps every other month well formed. */
  lemma AllWellFormedDelete(m: map<string, Ledger>, k: string, u: int)
    requires AllWellFormed(m, u)
    ensures AllWellFormed(m - {k}, u)
  {
    forall k' | Stored(m - {k}, k') ensures WellFormed((m - {k})[k'], u) {
      assert Stored(m, k');
    }
  }

  /** The month a fresh `initMonth` copies: the previous month when asked
      for and present, the seed otherwise. */
  function InitSource(m: map<string, Ledger>, prevKey: string, fromPrev: bool): Ledger {
    if fromPrev && prevKey in m then m[prevKey] else SEED
  }

  // Each event handler's change to the whole month map keeps every month
  // well formed. The new map `m'` and counter `u'` are parameters so that a
  // caller can hand over the values it holds.

  /** `initMonth`: the copied ledger with re-minted ids, stored under any
      key, is well formed at the counter value after minting. */
  lemma AllAfterInit(m: map<string, Ledger>, key: string, prevKey: string, fromPrev: bool, u: int,
                     m': map<string, Ledger>, u': int)
    requires AllWellFormed(m, u) && u >= UID_START
    requires var src := InitSource(m, prevKey, fromPrev);
      && m' == m[key := Ledger(src.categories, ReMinted(src.entries, u))]
      && u' == u + |src.entries|
    ensures AllWellFormed(m', u')
  {
    var src := InitSource(m, prevKey, fromPrev);
    if fromPrev && prevKey in m {
      StoredWellFormed(m, prevKey, u);
    } else {
      SeedWellFormed();
      WellFormedMonotone(SEED, UID_START, u);
    }
    ReMintKeeps(src, u, u);
    AllWellFormedStore(m, key, Ledger(src.categories, ReMinted(src.entries, u)), u, u');
  }

  /** `updateEntry`, whether or not the month on screen has a ledger. */
  lemma AllAfterUpdateEntry(m: map<string, Ledger>, key: string, u: int, id: int, f: Field,
                            m': map<string, Ledger>)
    requires AllWellFormed(m, u)
    requires m' == if key in m then m[key := UpdateEntryIn(m[key], id, f)] else m
    ensures AllWellFormed(m', u)
  {
    if key in m {
      StoredWellFormed(m, key, u);
      UpdateEntryInKeeps(m[key], u, id, f);
      AllWellFormedStore(m, key, UpdateEntryIn(m[key], id, f), u, u);
    }
  }

  /** `addEntry`, whether or not the month on screen has a ledger. */
  lemma AllAfterAddEntry(m: map<string, Ledger>, key: string, u: int, catId: string,
                         m': map<string, Ledger>, u': int)
    requires AllWellFormed(m, u) && u' == u + 1
    requires m' == if key in m then m[key := AddEntryTo(m[key], u + 1, catId)] else m
    ensures AllWellFormed(m', u')
  {
    if key in m {
      StoredWellFormed(m, key, u);
      AddEntryKeeps(m[key], u, catId);
      AllWellFormedStore(m, key, AddEntryTo(m[key], u + 1, catId), u, u + 1);
    } else {
      AllWellFormedMonotone(m, u, u + 1);
    }
  }

  /** `removeEntry` of the `i`-th entry when its category keeps another. */
  lemma AllAfterRemoveEntry(m: map<string, Ledger>, key: string, u: int, i: nat,
                            m': map<string, Ledger>)
    requires AllWellFormed(m, u) && key in m && i < |m[key].entries|
    requires CountInCat(m[key].entries, m[key].entries[i].catId) >= 2
    requires m' == m[key := RemoveEntryFrom(m[key], m[key].entries[i].id)]
    ensures AllWellFormed(m', u)
  {
    StoredWellFormed(m, key, u);
    RemoveEntryKeeps(m[key], u, i);
    AllWellFormedStore(m, key, RemoveEntryFrom(m[key], m[key].entries[i].id), u, u);
  }

  /** `updateCatLabel`, whether or not the month on screen has a ledger. */
  lemma AllAfterRenameCategory(m: map<string, Ledger>, key: string, u: int, catId: string, name: string,
                               m': map<string, Ledger>)
    requires AllWellFormed(m, u)
    requires m' == if key in m then m[key := RenameCategoryIn(m[key], catId, name)] else m
    ensures AllWellFormed(m', u)
  {
    if key in m {
      StoredWellFormed(m, key, u);
      RenameCategoryInKeeps(m[key], u, catId, name);
      AllWellFormedStore(m, key, RenameCategoryIn(m[key], catId, name), u, u);
    }
  }

  /** `addCategory` with a non-blank name. */
  lemma AllAfterAddCategory(m: map<string, Ledger>, key: string, u: int, name: string, color: string,
                            m': map<string, Ledger>, u': int)
    requires AllWellFormed(m, u) && key in m && u >= 0 && u' == u + 2
    requires m' == m[key := AddCategoryTo(m[key], MintedCatId(u + 1), name, color, u + 2)]
    ensures AllWellFormed(m', u')
  {
    StoredWellFormed(m, key, u);
    AddCategoryKeeps(m[key], u, name, color);
    AllWellFormedStore(m, key, AddCategoryTo(m[key], MintedCatId(u + 1), name, color, u + 2), u, u + 2);
  }

  /** `removeCategory` when the month has two categories or more. */
  lemma AllAfterRemoveCategory(m: map<string, Ledger>, key: string, u: int, catId: string,
                               m': map<string, Ledger>)
    requires AllWellFormed(m, u) && key in m && |m[key].categories| >= 2
    requires m' == m[key := RemoveCategoryFrom(m[key], catId)]
    ensures AllWellFormed(m', u)
  {
    StoredWellFormed(m, key, u);
    RemoveCategoryKeeps(m[key], u, catId);
    AllWellFormedStore(m, key, RemoveCategoryFrom(m[key], catId), u, u);
  }
}
