/** Derived figures: a month's totals (the `totals` and `prevTotals` loops),
    the history series over the sorted month keys (`histKeys`, `hist`), the
    up/down classification of `Delta`, and the month each history row is
    compared with. */
module Aggregation {
  import opened Wrappers
  import opened Seqs
  import opened Strings
  import opened Ledgers

  /** `entries.reduce((s, e) => s + e.value, 0)`, summed left to right. */
  function Sum(es: seq<Entry>): real {
    if es == [] then 0.0 else Sum(es[..|es| - 1]) + es[|es| - 1].value
  }

  function OfOwner(o: Owner): Entry -> bool { (e: Entry) => e.owner == o }

  /** The total of one owner's entries. */
  function OwnerTotal(es: seq<Entry>, o: Owner): real {
    Sum(Filter(es, OfOwner(o)))
  }

  /** The total of one category's entries. */
  function CatTotal(es: seq<Entry>, c: string): real {
    Sum(Filter(es, InCat(c)))
  }

  /** The category ids the entries name. */
  function CatIdSet(es: seq<Entry>): set<string> {
    set e | e in es :: e.catId
  }

  /** The same ids, each once, in order of first appearance: the order in
      which `byCat` receives its keys. */
  function CatKeys(es: seq<Entry>): (ks: seq<string>)
    ensures forall k :: k in ks <==> k in CatIdSet(es)
    ensures forall i, j :: 0 <= i < j < |ks| ==> ks[i] != ks[j]
    decreases |es|
  {
    if es == [] then []
    else
      var ks := CatKeys(es[..|es| - 1]);
      var c := es[|es| - 1].catId;
      assert es == es[..|es| - 1] + [es[|es| - 1]];
      if c in ks then ks else ks + [c]
  }

  /** The sum of the values of `m` at the keys `ks`. */
  function SumOver(ks: seq<string>, m: map<string, real>): real
    requires forall k :: k in ks ==> k in m
  {
    if ks == [] then 0.0 else SumOver(ks[..|ks| - 1], m) + m[ks[|ks| - 1]]
  }

  /** The category totals added up over the keys `ks`. */
  function SumCats(ks: seq<string>, es: seq<Entry>): real {
    if ks == [] then 0.0 else SumCats(ks[..|ks| - 1], es) + CatTotal(es, ks[|ks| - 1])
  }

  lemma SumAppend(es: seq<Entry>, e: Entry)
    ensures Sum(es + [e]) == Sum(es) + e.value
  {
    assert (es + [e])[..|es|] == es;
  }

  lemma FilterAppend(es: seq<Entry>, e: Entry, p: Entry -> bool)
    ensures Filter(es + [e], p) == Filter(es, p) + (if p(e) then [e] else [])
  {
    assert (es + [e])[..|es|] == es;
  }

  /** Adding an entry adds its value to its own category's total only. */
  lemma CatTotalAppend(es: seq<Entry>, e: Entry, c: string)
    ensures CatTotal(es + [e], c) == CatTotal(es, c) + (if e.catId == c then e.value else 0.0)
  {
    FilterAppend(es, e, InCat(c));
    if e.catId == c {
      SumAppend(Filter(es, InCat(c)), e);
    } else {
      assert Filter(es, InCat(c)) + [] == Filter(es, InCat(c));
    }
  }

  /** Adding an entry adds its value to its own owner's total only. */
  lemma OwnerTotalAppend(es: seq<Entry>, e: Entry, o: Owner)
    ensures OwnerTotal(es + [e], o) == OwnerTotal(es, o) + (if e.owner == o then e.value else 0.0)
  {
    FilterAppend(es, e, OfOwner(o));
    if e.owner == o {
      SumAppend(Filter(es, OfOwner(o)), e);
    } else {
      assert Filter(es, OfOwner(o)) + [] == Filter(es, OfOwner(o));
    }
  }

  /** A category no entry names totals 0. */
  lemma CatTotalAbsent(es: seq<Entry>, c: string)
    requires c !in CatIdSet(es)
    ensures CatTotal(es, c) == 0.0
  {
    forall x | x in es ensures !InCat(c)(x) {
      assert x.catId in CatIdSet(es);
    }
    FilterNone(es, InCat(c));
  }

  /** The two owners' totals add up to the grand total: the `else` branch of
      the `totals` loop (anything not "lion") and the "primo" filter of the
      history agree because there are exactly two owners. */
  lemma {:induction false} OwnerSplit(es: seq<Entry>)
    ensures OwnerTotal(es, Lion) + OwnerTotal(es, Primo) == Sum(es)
    decreases |es|
  {
    if es != [] {
      var p, e := es[..|es| - 1], es[|es| - 1];
      assert es == p + [e];
      OwnerSplit(p);
      OwnerTotalAppend(p, e, Lion);
      OwnerTotalAppend(p, e, Primo);
      SumAppend(p, e);
    }
  }

  lemma {:induction false} SumCatsAppend(ks: seq<string>, es: seq<Entry>, e: Entry)
    requires forall i, j :: 0 <= i < j < |ks| ==> ks[i] != ks[j]
    ensures SumCats(ks, es + [e]) == SumCats(ks, es) + (if e.catId in ks then e.value else 0.0)
    decreases |ks|
  {
    if ks != [] {
      var ks', k := ks[..|ks| - 1], ks[|ks| - 1];
      assert ks == ks' + [k];
      SumCatsAppend(ks', es, e);
      CatTotalAppend(es, e, k);
      assert k !in ks';
    }
  }

  /** The category totals, taken over every category the entries name, add
      up to the grand total. */
  lemma {:induction false} SumCatsIsSum(es: seq<Entry>)
    ensures SumCats(CatKeys(es), es) == Sum(es)
    decreases |es|
  {
    if es != [] {
      var p, e := es[..|es| - 1], es[|es| - 1];
      assert es == p + [e];
      SumCatsIsSum(p);
      var ks := CatKeys(p);
      SumCatsAppend(ks, p, e);
      SumAppend(p, e);
      if e.catId !in ks {
        assert CatKeys(es) == ks + [e.catId];
        assert (ks + [e.catId])[..|ks|] == ks;
        CatTotalAbsent(p, e.catId);
        CatTotalAppend(p, e, e.catId);
      }
    }
  }

  lemma {:induction false} SumOverCats(ks: seq<string>, m: map<string, real>, es: seq<Entry>)
    requires forall k :: k in ks ==> k in m && m[k] == CatTotal(es, k)
    ensures SumOver(ks, m) == SumCats(ks, es)
    decreases |ks|
  {
    if ks != [] {
      SumOverCats(ks[..|ks| - 1], m, es);
    }
  }

  /** `byCat` holds, for every category the entries `p` name, that
      category's total, and nothing else. */
  ghost predicate ByCatHolds(p: seq<Entry>, byCat: map<string, real>) {
    && byCat.Keys == CatIdSet(p)
    && forall k :: k in byCat ==> byCat[k] == CatTotal(p, k)
  }

  lemma CatIdSetAppend(p: seq<Entry>, e: Entry)
    ensures CatIdSet(p + [e]) == CatIdSet(p) + {e.catId}
  {
    forall c | c in CatIdSet(p + [e]) ensures c in CatIdSet(p) + {e.catId} {
      var x :| x in p + [e] && x.catId == c;
      if x != e { assert x in p; }
    }
    forall c | c in CatIdSet(p) ensures c in CatIdSet(p + [e]) {
      var x :| x in p && x.catId == c;
      assert x in p + [e];
    }
    assert e in p + [e];
  }

  /** After one more entry, the updated `byCat` value at `k` is that
      category's new total. */
  lemma ByCatStepAt(p: seq<Entry>, e: Entry, byCat: map<string, real>, k: string)
    requires k in byCat <==> k in CatIdSet(p)
    requires k == e.catId || k in byCat
    requires k in byCat ==> byCat[k] == CatTotal(p, k)
    ensures byCat[e.catId := (if e.catId in byCat then byCat[e.catId] else 0.0) + e.value][k]
            == CatTotal(p + [e], k)
  {
    CatTotalAppend(p, e, k);
    if k !in byCat {
      CatTotalAbsent(p, k);
    }
  }

  /** One step of the `totals` loop over `byCat` keeps it exact. */
  lemma ByCatStep(p: seq<Entry>, e: Entry, byCat: map<string, real>)
    requires ByCatHolds(p, byCat)
    ensures ByCatHolds(p + [e], byCat[e.catId := (if e.catId in byCat then byCat[e.catId] else 0.0) + e.value])
  {
    var nb := byCat[e.catId := (if e.catId in byCat then byCat[e.catId] else 0.0) + e.value];
    CatIdSetAppend(p, e);
    forall k | k in nb ensures nb[k] == CatTotal(p + [e], k) {
      ByCatStepAt(p, e, byCat, k);
    }
  }

  /** `lion` and `primo` are the two owners' totals over `p`. */
  ghost predicate OwnersHold(p: seq<Entry>, lion: real, primo: real) {
    lion == OwnerTotal(p, Lion) && primo == OwnerTotal(p, Primo)
  }

  /** One step of the `totals` loop over the owner totals keeps them exact:
      an entry that is not lion's counts for primo. */
  lemma OwnersStep(p: seq<Entry>, e: Entry, lion: real, primo: real)
    requires OwnersHold(p, lion, primo)
    ensures e.owner == Lion ==> OwnersHold(p + [e], lion + e.value, primo)
    ensures e.owner != Lion ==> OwnersHold(p + [e], lion, primo + e.value)
  {
    OwnerTotalAppend(p, e, Lion);
    OwnerTotalAppend(p, e, Primo);
  }

  /** What the `totals` memo computes. */
  datatype Totals = Totals(lion: real, primo: real, grand: real, byCat: map<string, real>)

  /** The `totals` memo over the current month (`None` when it has no ledger). */
  method ComputeTotals(monthData: Option<Ledger>) returns (t: Totals)
    ensures monthData.None? ==> t == Totals(0.0, 0.0, 0.0, map[])
    ensures monthData.Some? ==>
      var es := monthData.value.entries;
      && t.lion == OwnerTotal(es, Lion)
      && t.primo == OwnerTotal(es, Primo)
      && t.grand == Sum(es)
      && t.byCat.Keys == CatIdSet(es)
      && (forall k :: k in t.byCat ==> t.byCat[k] == CatTotal(es, k))
      && SumOver(CatKeys(es), t.byCat) == t.grand
  {
    if monthData.None? {
      return Totals(0.0, 0.0, 0.0, map[]);
    }
    var es := monthData.value.entries;
    var byCat: map<string, real> := map[];
    var lion, primo := 0.0, 0.0;
    assert CatIdSet(es[..0]) == {};
    for i := 0 to |es|
      invariant OwnersHold(es[..i], lion, primo)
      invariant ByCatHolds(es[..i], byCat)
    {
      var e := es[i];
      assert es[..i + 1] == es[..i] + [e];
      OwnersStep(es[..i], e, lion, primo);
      ByCatStep(es[..i], e, byCat);
      byCat := byCat[e.catId := (if e.catId in byCat then byCat[e.catId] else 0.0) + e.value];
      if e.owner == Lion {
        lion := lion + e.value;
      } else {
        primo := primo + e.value;
      }
    }
    assert es[..|es|] == es;
    OwnerSplit(es);
    SumOverCats(CatKeys(es), byCat, es);
    SumCatsIsSum(es);
    t := Totals(lion, primo, lion + primo, byCat);
  }

  /** What the `prevTotals` memo computes. */
  datatype OwnerTotals = OwnerTotals(lion: real, primo: real, grand: real)

  /** The `prevTotals` memo over the previous month: `None` (null) when that
      month has no ledger. */
  method ComputePrevTotals(prevData: Option<Ledger>) returns (r: Option<OwnerTotals>)
    ensures r.None? <==> prevData.None?
    ensures prevData.Some? ==>
      var es := prevData.value.entries;
      r.value.lion == OwnerTotal(es, Lion) && r.value.primo == OwnerTotal(es, Primo)
      && r.value.grand == Sum(es)
  {
    if prevData.None? {
      return None;
    }
    var es := prevData.value.entries;
    var lion, primo := OwnerSums(es);
    OwnerSplit(es);
    r := Some(OwnerTotals(lion, primo, lion + primo));
  }

  /** The loop of the `prevTotals` memo: an entry that is not lion's counts
      for primo. */
  method OwnerSums(es: seq<Entry>) returns (lion: real, primo: real)
    ensures OwnersHold(es, lion, primo)
  {
    lion, primo := 0.0, 0.0;
    for i := 0 to |es|
      invariant OwnersHold(es[..i], lion, primo)
    {
      var e := es[i];
      assert es[..i + 1] == es[..i] + [e];
      OwnersStep(es[..i], e, lion, primo);
      if e.owner == Lion {
        lion := lion + e.value;
      } else {
        primo := primo + e.value;
      }
    }
    assert es[..|es|] == es;
  }

  /** Owner totals read off running sums: if `lion` and `primo` grow by each
      entry's value exactly where that entry is the owner's, their last
      elements are the owner totals. */
  lemma {:induction false} RunningOwnerTotals(es: seq<Entry>, lion: seq<real>, primo: seq<real>)
    requires |lion| == |es| + 1 && |primo| == |es| + 1 && lion[0] == 0.0 && primo[0] == 0.0
    requires forall k :: 0 <= k < |es| ==>
      lion[k + 1] == lion[k] + (if es[k].owner == Lion then es[k].value else 0.0)
    requires forall k :: 0 <= k < |es| ==>
      primo[k + 1] == primo[k] + (if es[k].owner == Primo then es[k].value else 0.0)
    ensures OwnerTotal(es, Lion) == lion[|es|] && OwnerTotal(es, Primo) == primo[|es|]
    decreases |es|
  {
    if es != [] {
      var n := |es| - 1;
      RunningOwnerTotals(es[..n], lion[..n + 1], primo[..n + 1]);
      assert es == es[..n] + [es[n]];
      OwnerTotalAppend(es[..n], es[n], Lion);
      OwnerTotalAppend(es[..n], es[n], Primo);
    }
  }

  /** The seed month's totals: 3173.12 for lion, 2384.68 for primo, 5557.80
      in all. */
  lemma SeedTotals()
    ensures OwnerTotal(SEED.entries, Lion) == 3173.12
    ensures OwnerTotal(SEED.entries, Primo) == 2384.68
    ensures Sum(SEED.entries) == 5557.80
  {
    var es := SEED.entries;
    var lion := [0.0, 156.63, 1112.59, 1112.59, 1336.79, 1560.99, 1560.99, 3173.12, 3173.12];
    var primo := [0.0, 0.0, 0.0, 540.16, 540.16, 540.16, 772.55, 772.55, 2384.68];
    forall k | 0 <= k < |es|
      ensures lion[k + 1] == lion[k] + (if es[k].owner == Lion then es[k].value else 0.0)
      ensures primo[k + 1] == primo[k] + (if es[k].owner == Primo then es[k].value else 0.0)
    {
      assert k == 0 || k == 1 || k == 2 || k == 3 || k == 4 || k == 5 || k == 6 || k == 7;
    }
    RunningOwnerTotals(es, lion, primo);
    OwnerSplit(es);
  }

  // ---- history ----------------------------------------------------------

  /** Strictly increasing in string order (so also free of repeats). */
  predicate StrictlySorted(ks: seq<string>) {
    forall i, j :: 0 <= i < j < |ks| ==> StrLess(ks[i], ks[j])
  }

  /** Insertion of a new key into a sorted key list. */
  function Insert(ks: seq<string>, k: string): (r: seq<string>)
    requires StrictlySorted(ks) && k !in ks
    ensures StrictlySorted(r) && |r| == |ks| + 1
    ensures forall x :: x in r <==> x in ks || x == k
  {
    if ks == [] then [k]
    else if StrLess(k, ks[0]) then
      assert forall j :: 0 <= j < |ks| ==> StrLess(k, ks[j]) by {
        forall j | 0 <= j < |ks| ensures StrLess(k, ks[j]) {
          if j > 0 { StrLessTransitive(k, ks[0], ks[j]); }
        }
      }
      [k] + ks
    else
      StrLessTotal(k, ks[0]);
      var r := [ks[0]] + Insert(ks[1..], k);
      assert forall j :: 0 < j < |r| ==> StrLess(ks[0], r[j]) by {
        forall j | 0 < j < |r| ensures StrLess(ks[0], r[j]) {
          assert r[j] in Insert(ks[1..], k);
          if r[j] != k {
            var m :| 0 <= m < |ks[1..]| && ks[1..][m] == r[j];
            assert ks[m + 1] == r[j];
          }
        }
      }
      r
  }

  /** `Object.keys(allData).sort()`: the stored month keys in ascending
      string order. */
  method SortedKeys(allData: map<string, Ledger>) returns (ks: seq<string>)
    ensures StrictlySorted(ks)
    ensures forall k :: k in ks <==> k in allData
    ensures |ks| == |allData|
  {
    ks := [];
    var rest := allData.Keys;
    while rest != {}
      invariant rest <= allData.Keys
      invariant StrictlySorted(ks)
      invariant forall k :: k in ks <==> k in allData && k !in rest
      invariant |ks| + |rest| == |allData.Keys|
      decreases rest
    {
      var k :| k in rest;
      ks := Insert(ks, k);
      rest := rest - {k};
    }
  }

  /** A set of keys has only one strictly sorted listing. */
  lemma {:induction false} SortedUnique(a: seq<string>, b: seq<string>)
    requires StrictlySorted(a) && StrictlySorted(b)
    requires forall k :: k in a <==> k in b
    ensures a == b
    decreases |a|
  {
    if a != [] { assert a[0] in b; }
    if b != [] { assert b[0] in a; }
    if a != [] && b != [] {
      if a[0] != b[0] {
        assert a[0] in b;
        var j :| 0 <= j < |b| && b[j] == a[0];
        assert b[0] in b;
        var i :| 0 <= i < |a| && a[i] == b[0];
        assert StrLess(b[0], a[0]) && StrLess(a[0], b[0]);
        StrLessAsymmetric(a[0], b[0]);
      }
      forall k ensures k in a[1..] <==> k in b[1..] {
        if k in a[1..] {
          var i :| 0 <= i < |a[1..]| && a[1..][i] == k;
          assert StrLess(a[0], a[i + 1]);
          if k == b[0] { StrLessIrreflexive(k); }
          assert k in b;
        }
        if k in b[1..] {
          var i :| 0 <= i < |b[1..]| && b[1..][i] == k;
          assert StrLess(b[0], b[i + 1]);
          if k == a[0] { StrLessIrreflexive(k); }
          assert k in a;
        }
      }
      SortedUnique(a[1..], b[1..]);
      assert a == [a[0]] + a[1..] && b == [b[0]] + b[1..];
    }
  }

  /** The three history series (`hist.lion`, `hist.primo`, `hist.grand`). */
  datatype History = History(lion: seq<real>, primo: seq<real>, grand: seq<real>)

  /** `hist`: one figure per key of `ks`, each from that month's entries. */
  function Hist(allData: map<string, Ledger>, ks: seq<string>): (h: History)
    ensures |h.lion| == |ks| && |h.primo| == |ks| && |h.grand| == |ks|
  {
    History(
      seq(|ks|, i requires 0 <= i < |ks| =>
        if ks[i] in allData then OwnerTotal(allData[ks[i]].entries, Lion) else 0.0),
      seq(|ks|, i requires 0 <= i < |ks| =>
        if ks[i] in allData then OwnerTotal(allData[ks[i]].entries, Primo) else 0.0),
      seq(|ks|, i requires 0 <= i < |ks| =>
        if ks[i] in allData then Sum(allData[ks[i]].entries) else 0.0))
  }

  /** Each month's grand figure is its lion figure plus its primo figure, and
      each figure is the one the `totals` loop gives for that month. */
  lemma HistAgreesWithTotals(allData: map<string, Ledger>, ks: seq<string>, i: nat)
    requires i < |ks| && ks[i] in allData
    ensures var h := Hist(allData, ks);
      && h.grand[i] == h.lion[i] + h.primo[i]
      && h.lion[i] == OwnerTotal(allData[ks[i]].entries, Lion)
      && h.primo[i] == OwnerTotal(allData[ks[i]].entries, Primo)
  {
    OwnerSplit(allData[ks[i]].entries);
  }

  /** The sequence without its element at `j`. */
  function RemoveAt<T>(s: seq<T>, j: nat): (r: seq<T>)
    requires j < |s|
    ensures |r| == |s| - 1
  {
    s[..j] + s[j + 1..]
  }

  /** Removing one key from a strictly sorted listing leaves the strictly
      sorted listing of the remaining keys. */
  lemma SortedKeysAfterDelete(ks: seq<string>, ks': seq<string>, j: nat)
    requires StrictlySorted(ks) && j < |ks|
    requires StrictlySorted(ks') && forall k :: k in ks' <==> k in ks && k != ks[j]
    ensures ks' == RemoveAt(ks, j)
  {
    var r := RemoveAt(ks, j);
    assert StrictlySorted(r) by {
      forall a, b | 0 <= a < b < |r| ensures StrLess(r[a], r[b]) {
        var a', b' := if a < j then a else a + 1, if b < j then b else b + 1;
        assert r[a] == ks[a'] && r[b] == ks[b'];
      }
    }
    forall k ensures k in r <==> k in ks && k != ks[j] {
      if k in r {
        var a :| 0 <= a < |r| && r[a] == k;
        var a' := if a < j then a else a + 1;
        assert k == ks[a'];
        if k == ks[j] { StrLessIrreflexive(k); }
      }
      if k in ks && k != ks[j] {
        var a :| 0 <= a < |ks| && ks[a] == k;
        assert k == r[if a < j then a else a - 1];
      }
    }
    SortedUnique(ks', r);
  }

  /** The history over the remaining keys, once month `ks[j]` is gone, is
      the old history without position `j`. */
  lemma HistAfterDelete(allData: map<string, Ledger>, ks: seq<string>, j: nat)
    requires StrictlySorted(ks) && j < |ks|
    ensures var h, h' := Hist(allData, ks), Hist(allData - {ks[j]}, RemoveAt(ks, j));
      h' == History(RemoveAt(h.lion, j), RemoveAt(h.primo, j), RemoveAt(h.grand, j))
  {
    var r := RemoveAt(ks, j);
    var h, h' := Hist(allData, ks), Hist(allData - {ks[j]}, r);
    forall i | 0 <= i < |r|
      ensures r[i] == ks[if i < j then i else i + 1] && r[i] != ks[j]
    {
      var i' := if i < j then i else i + 1;
      if r[i] == ks[j] {
        if i' < j { assert StrLess(ks[i'], ks[j]); } else { assert StrLess(ks[j], ks[i']); }
        StrLessIrreflexive(ks[j]);
      }
    }
    assert h'.lion == RemoveAt(h.lion, j);
    assert h'.primo == RemoveAt(h.primo, j);
    assert h'.grand == RemoveAt(h.grand, j);
  }

  /** Deleting month `ks[j]` from the store: its sorted keys lose exactly that
      key, every history series loses exactly that position, and all other
      months' figures are unchanged. */
  lemma DeleteMonthHistory(allData: map<string, Ledger>, ks: seq<string>, ks': seq<string>, j: nat)
    requires StrictlySorted(ks) && forall k :: k in ks <==> k in allData
    requires j < |ks|
    requires StrictlySorted(ks') && forall k :: k in ks' <==> k in allData - {ks[j]}
    ensures ks' == RemoveAt(ks, j)
    ensures var h, h' := Hist(allData, ks), Hist(allData - {ks[j]}, ks');
      h' == History(RemoveAt(h.lion, j), RemoveAt(h.primo, j), RemoveAt(h.grand, j))
  {
    SortedKeysAfterDelete(ks, ks', j);
    HistAfterDelete(allData, ks, j);
  }

  /** The direction `Delta` shows. */
  datatype Direction = Up | Down

  /** `Delta({cur, prev})`: nothing when `prev` is null or 0; otherwise up
      exactly when `cur - prev > 0`, so an unchanged total shows as down. */
  function DeltaOf(cur: real, prev: Option<real>): (r: Option<Direction>)
    ensures r.None? <==> prev.None? || prev.value == 0.0
    ensures r == Some(Up) <==> prev.Some? && prev.value != 0.0 && cur > prev.value
    ensures r == Some(Down) <==> prev.Some? && prev.value != 0.0 && cur <= prev.value
  {
    if prev.None? || prev.value == 0.0 then None
    else if cur - prev.value > 0.0 then Some(Up)
    else Some(Down)
  }

  /** The percentage `Delta` prints (before rounding). */
  function DeltaPercent(cur: real, prev: real): real
    requires prev != 0.0
  {
    (cur - prev) / prev * 100.0
  }

  /** For a positive previous total the arrow and the sign of the percentage
      agree; for a negative one they are opposite. */
  lemma DeltaSign(cur: real, prev: real)
    requires prev != 0.0
    ensures prev > 0.0 ==> (DeltaOf(cur, Some(prev)) == Some(Up) <==> DeltaPercent(cur, prev) > 0.0)
    ensures prev < 0.0 ==> (DeltaOf(cur, Some(prev)) == Some(Up) <==> DeltaPercent(cur, prev) < 0.0)
  {
    var d := cur - prev;
    if prev > 0.0 {
      if d > 0.0 { assert d / prev > 0.0; } else { assert d / prev <= 0.0; }
    } else {
      if d > 0.0 { assert d / prev < 0.0; } else { assert d / prev >= 0.0; }
    }
  }

  /** `histKeys.slice().reverse()`. */
  function Reverse<T>(s: seq<T>): (r: seq<T>)
    ensures |r| == |s| && forall i :: 0 <= i < |s| ==> r[i] == s[|s| - 1 - i]
  {
    seq(|s|, i requires 0 <= i < |s| => s[|s| - 1 - i])
  }

  /** Reversing twice gives back the original order. */
  lemma ReverseTwice<T>(s: seq<T>)
    ensures Reverse(Reverse(s)) == s
  {
  }

  /** Over the sorted keys, `slice().reverse()` lists the same keys newest
      first. */
  lemma ReverseNewestFirst(ks: seq<string>)
    requires StrictlySorted(ks)
    ensures forall k :: k in Reverse(ks) <==> k in ks
    ensures forall i, j :: 0 <= i < j < |Reverse(ks)| ==> StrLess(Reverse(ks)[j], Reverse(ks)[i])
  {
    var r := Reverse(ks);
    forall k | k in ks ensures k in r {
      var m :| 0 <= m < |ks| && ks[m] == k;
      assert r[|ks| - 1 - m] == k;
    }
  }

  /** The key of history row `idx` (rows list the newest month first). */
  function RowKey(ks: seq<string>, idx: nat): string
    requires idx < |ks|
  {
    Reverse(ks)[idx]
  }

  /** The month history row `idx` is compared with, as written:
      `arr[arr.length - 1 - idx - 1]` over the reversed keys, where an index
      of -1 reads `undefined`. */
  function CompareKeyAsWritten(ks: seq<string>, idx: nat): Option<string>
    requires idx < |ks|
  {
    var arr := Reverse(ks);
    var j := |arr| - 1 - idx - 1;
    if 0 <= j < |arr| then Some(arr[j]) else None
  }

  /** As written, row `idx` is compared with the `idx + 1`-th oldest month,
      not with the month below it in the list. */
  lemma CompareKeyAsWrittenIs(ks: seq<string>, idx: nat)
    requires idx < |ks|
    ensures CompareKeyAsWritten(ks, idx) == if idx + 1 < |ks| then Some(ks[idx + 1]) else None
    ensures RowKey(ks, idx) == ks[|ks| - 1 - idx]
  {
  }

  /** With two months, the newest row is compared with itself, and a total
      compared with itself shows down whenever it is not zero; the oldest row
      has no comparison month. */
  lemma CompareKeyAsWrittenTwoMonths(ks: seq<string>)
    requires |ks| == 2
    ensures CompareKeyAsWritten(ks, 0) == Some(RowKey(ks, 0))
    ensures CompareKeyAsWritten(ks, 1) == None
    ensures forall g: real :: g != 0.0 ==> DeltaOf(g, Some(g)) == Some(Down)
  {
  }

  /** The comparison month as intended: the row listed just below, which is
      the chronologically previous stored month. */
  function PrevRowKey(ks: seq<string>, idx: nat): (r: Option<string>)
    requires idx < |ks|
  {
    var arr := Reverse(ks);
    if idx + 1 < |arr| then Some(arr[idx + 1]) else None
  }

  /** Over sorted keys, the intended comparison month is the greatest stored
      key below the row's key, and there is none exactly for the oldest row. */
  lemma PrevRowKeyIsPredecessor(ks: seq<string>, idx: nat)
    requires StrictlySorted(ks) && idx < |ks|
    ensures PrevRowKey(ks, idx).None? <==> RowKey(ks, idx) == ks[0]
    ensures PrevRowKey(ks, idx).Some? ==>
      var p := PrevRowKey(ks, idx).value;
      && p in ks
      && StrLess(p, RowKey(ks, idx))
      && forall k :: k in ks ==> !(StrLess(p, k) && StrLess(k, RowKey(ks, idx)))
  {
    var n := |ks|;
    var row := n - 1 - idx;
    if idx + 1 < n {
      var p := ks[row - 1];
      assert PrevRowKey(ks, idx) == Some(p);
      forall k | k in ks ensures !(StrLess(p, k) && StrLess(k, ks[row])) {
        var m :| 0 <= m < n && ks[m] == k;
        if m <= row - 1 {
          if m < row - 1 { StrLessAsymmetric(k, p); } else { StrLessIrreflexive(p); }
        } else if m >= row {
          if m > row { StrLessAsymmetric(ks[row], k); } else { StrLessIrreflexive(k); }
        }
      }
    } else {
      assert row == 0;
    }
    if RowKey(ks, idx) == ks[0] && row != 0 {
      assert StrLess(ks[0], ks[row]);
      StrLessIrreflexive(ks[0]);
    }
  }

  /** A history row's `grand`: `lion + primo` of its month. */
  function RowGrand(d: Ledger): real {
    OwnerTotal(d.entries, Lion) + OwnerTotal(d.entries, Primo)
  }

  /** The delta a row for month `k` shows against comparison month `prevK`:
      nothing when there is no comparison month or it has no ledger
      (`prevG` is then null or undefined), otherwise `Delta` of the row's
      `grand` against `prevG`, the comparison month's entry sum. */
  function DeltaAgainst(allData: map<string, Ledger>, k: string, prevK: Option<string>): Option<Direction>
    requires k in allData
  {
    match prevK
    case None => None
    case Some(p) =>
      if p in allData then DeltaOf(RowGrand(allData[k]), Some(Sum(allData[p].entries))) else None
  }

  /** The delta history row `idx` shows as written, against
      `CompareKeyAsWritten`. */
  function RowDeltaAsWritten(allData: map<string, Ledger>, ks: seq<string>, idx: nat): Option<Direction>
    requires idx < |ks| && forall k :: k in ks ==> k in allData
  {
    DeltaAgainst(allData, RowKey(ks, idx), CompareKeyAsWritten(ks, idx))
  }

  /** As written, with two months the newest row is compared with itself: it
      shows down exactly when its total is not zero, and nothing otherwise;
      the oldest row never shows a delta. */
  lemma RowDeltaAsWrittenTwoMonths(allData: map<string, Ledger>, ks: seq<string>)
    requires |ks| == 2 && forall k :: k in ks ==> k in allData
    ensures RowDeltaAsWritten(allData, ks, 0) == Some(Down) <==> Sum(allData[ks[1]].entries) != 0.0
    ensures RowDeltaAsWritten(allData, ks, 0) == None <==> Sum(allData[ks[1]].entries) == 0.0
    ensures RowDeltaAsWritten(allData, ks, 1) == None
  {
    CompareKeyAsWrittenIs(ks, 0);
    CompareKeyAsWrittenIs(ks, 1);
    OwnerSplit(allData[ks[1]].entries);
  }

  /** The delta history row `idx` shows with the intended comparison month. */
  function RowDelta(allData: map<string, Ledger>, ks: seq<string>, idx: nat): Option<Direction>
    requires idx < |ks| && forall k :: k in ks ==> k in allData
  {
    DeltaAgainst(allData, RowKey(ks, idx), PrevRowKey(ks, idx))
  }

  /** With the intended comparison, row `idx` (month `ks[|ks| - 1 - idx]`)
      shows nothing exactly when it is the oldest row or the month before it
      totals 0, and otherwise up exactly when its total exceeds that month's. */
  lemma RowDeltaMeaning(allData: map<string, Ledger>, ks: seq<string>, idx: nat)
    requires idx < |ks| && forall k :: k in ks ==> k in allData
    ensures RowDelta(allData, ks, idx).None? <==>
      idx + 1 == |ks| || Sum(allData[ks[|ks| - 2 - idx]].entries) == 0.0
    ensures RowDelta(allData, ks, idx) == Some(Up) <==>
      idx + 1 < |ks| && Sum(allData[ks[|ks| - 2 - idx]].entries) != 0.0 &&
      Sum(allData[ks[|ks| - 1 - idx]].entries) > Sum(allData[ks[|ks| - 2 - idx]].entries)
  {
    OwnerSplit(allData[ks[|ks| - 1 - idx]].entries);
    if idx + 1 < |ks| {
      assert PrevRowKey(ks, idx) == Some(ks[|ks| - 2 - idx]);
    }
  }
}
