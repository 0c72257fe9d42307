/**
 * `dedupeEntries` (src/app/page.tsx:122-140): raw entries are grouped by the
 * lower-cased cleaned name, each group's four stats are summed, the first
 * cleaned name seen is kept for display, and the groups come out in the
 * enumeration order of a JavaScript object's own keys.
 */
module Aggregation {
  import opened Wrappers
  import opened Text
  import opened Scoring
  import opened Names
  import opened Sorting

  /** The `merged` object: its groups by key, and its keys in insertion order. */
  datatype Groups = Groups(merged: map<string, Entry>, order: seq<string>)

  /**
   * Line 127: the key under which an entry is merged, for a name clean-up
   * `clean` (the page uses `Clean`; the merging lemmas hold for any clean-up).
   */
  function KeyOf(clean: string -> string, e: Entry): string {
    Lower(clean(e.name))
  }

  predicate Distinct<K(==)>(s: seq<K>) {
    forall i, j :: 0 <= i < j < |s| ==> s[i] != s[j]
  }

  /** The order lists every key of the map exactly once. */
  predicate WellFormed(g: Groups) {
    && (forall k :: k in g.merged ==> k in g.order)
    && (forall k :: k in g.order ==> k in g.merged)
    && Distinct(g.order)
  }

  /** Every group's name lower-cases to its key. */
  predicate NamesMatchKeys(g: Groups) {
    forall k :: k in g.merged ==> Lower(g.merged[k].name) == k
  }

  /** Line 130: a new group named `name`, every stat 0. */
  function EmptyGroup(name: string): Entry {
    Entry(name, Some(0), Some(0), Some(0), Some(0))
  }

  /** Lines 133-136: `group.x += e.x || 0` for each stat. */
  function AddStats(group: Entry, e: Entry): (r: Entry)
    ensures r.name == group.name
    ensures forall f :: Get(r, f) == Some(Val(Get(group, f)) + Val(Get(e, f)))
  {
    Entry(group.name,
          Some(Val(group.occ) + Val(e.occ)), Some(Val(group.gather) + Val(e.gather)),
          Some(Val(group.pvp) + Val(e.pvp)), Some(Val(group.life) + Val(e.life)))
  }

  /** One turn of the loop at lines 125-137, for an entry `e` whose cleaned name is `name`. */
  function AddEntry(g: Groups, name: string, e: Entry): (r: Groups)
    requires WellFormed(g)
    ensures WellFormed(r)
    ensures |r.order| <= |g.order| + 1
  {
    var key := Lower(name);
    if key in g.merged then
      Groups(g.merged[key := AddStats(g.merged[key], e)], g.order)
    else
      var r := Groups(g.merged[key := AddStats(EmptyGroup(name), e)], g.order + [key]);
      assert forall k :: k in r.order <==> k in g.order || k == key;
      r
  }

  /** `merged` after the loop has seen `entries`. */
  function Accumulate(clean: string -> string, entries: seq<Entry>): (g: Groups)
    ensures WellFormed(g)
    ensures |g.order| <= |entries|
  {
    if entries == [] then Groups(map[], [])
    else
      var e := entries[|entries| - 1];
      AddEntry(Accumulate(clean, entries[..|entries| - 1]), clean(e.name), e)
  }

  lemma AddEntryNames(g: Groups, name: string, e: Entry)
    requires WellFormed(g) && NamesMatchKeys(g)
    ensures NamesMatchKeys(AddEntry(g, name, e))
  {
  }

  /** Line 130: each group keeps a name whose lower-case form is its key. */
  lemma {:induction false} AccumulateNames(clean: string -> string, entries: seq<Entry>)
    ensures NamesMatchKeys(Accumulate(clean, entries))
  {
    if entries != [] {
      var e := entries[|entries| - 1];
      AccumulateNames(clean, entries[..|entries| - 1]);
      AddEntryNames(Accumulate(clean, entries[..|entries| - 1]), clean(e.name), e);
    }
  }

  // ----- `Object.values` (line 139) -----

  /** A canonical array index: `0`, or digits without a leading zero, below 2^32 - 1. */
  predicate IsArrayIndex(k: string) {
    k != [] && AllDigits(k) && (k[0] != '0' || |k| == 1) && ParseDecimal(k) < 0x1_0000_0000 - 1
  }

  /** Array indices come first in ascending order; every other key shares the last rank. */
  function EnumerationRank(k: string): int {
    if IsArrayIndex(k) then ParseDecimal(k) else 0x1_0000_0000 - 1
  }

  function AtMost(a: int, b: int): bool {
    a <= b
  }

  lemma AtMostTotalPreorder()
    ensures TotalPreorder(AtMost)
  {
  }

  /** The order in which a JavaScript object enumerates the keys inserted in `order`. */
  function EnumerationOrder(order: seq<string>): (r: seq<string>)
    ensures |r| == |order| && multiset(r) == multiset(order)
  {
    Sort(order, EnumerationRank, AtMost)
  }

  /** The groups of `m` for the keys `keys`, in that order. */
  function Pick<K>(m: map<K, Entry>, keys: seq<K>): (r: seq<Entry>)
    requires forall k :: k in keys ==> k in m
    ensures |r| == |keys|
  {
    if keys == [] then [] else [m[keys[0]]] + Pick(m, keys[1..])
  }

  /** Position `i` of `Pick(m, keys)` is the group of `keys[i]`. */
  lemma {:induction false} PickAt<K>(m: map<K, Entry>, keys: seq<K>, i: nat)
    requires forall k :: k in keys ==> k in m
    requires i < |keys|
    ensures Pick(m, keys)[i] == m[keys[i]]
  {
    if i > 0 {
      PickAt(m, keys[1..], i - 1);
    }
  }

  lemma EnumerationOrderKeys(g: Groups)
    requires WellFormed(g)
    ensures forall k :: k in EnumerationOrder(g.order) ==> k in g.merged
  {
    var r := EnumerationOrder(g.order);
    forall k | k in r ensures k in g.merged {
      assert k in multiset(r);
    }
  }

  /** `Object.values(merged)`. */
  function Values(g: Groups): (r: seq<Entry>)
    requires WellFormed(g)
  {
    EnumerationOrderKeys(g);
    Pick(g.merged, EnumerationOrder(g.order))
  }

  /** `dedupeEntries` with the name clean-up `clean`. */
  function DedupeBy(clean: string -> string, entries: seq<Entry>): seq<Entry> {
    Values(Accumulate(clean, entries))
  }

  /** `dedupeEntries(entries)`. */
  function Dedupe(entries: seq<Entry>): seq<Entry> {
    DedupeBy(Clean, entries)
  }

  /** `AddEntry` in the shape of the loop body: fetch or create the group, then add to it. */
  lemma AddEntryShape(g: Groups, name: string, e: Entry)
    requires WellFormed(g)
    ensures var key := Lower(name);
      var group := if key in g.merged then g.merged[key] else EmptyGroup(name);
      AddEntry(g, name, e)
        == Groups(g.merged[key := AddStats(group, e)], if key in g.merged then g.order else g.order + [key])
  {
  }

  lemma UpdateTwice<K, V>(m: map<K, V>, k: K, v: V, w: V)
    ensures m[k := v][k := w] == m[k := w]
  {
  }

  /** The loop's next state is `AddEntry` of the state so far. */
  lemma AccumulateStep(clean: string -> string, entries: seq<Entry>, i: nat)
    requires i < |entries|
    ensures Accumulate(clean, entries[..i + 1]) == AddEntry(Accumulate(clean, entries[..i]), clean(entries[i].name), entries[i])
  {
    assert entries[..i + 1][..i] == entries[..i];
  }

  /** Lines 122-140, step by step: it computes `Dedupe`. */
  method DedupeEntries(entries: seq<Entry>) returns (r: seq<Entry>)
    ensures r == Dedupe(entries)
  {
    var merged: map<string, Entry> := map[];
    var order: seq<string> := [];
    for i := 0 to |entries|
      invariant Groups(merged, order) == Accumulate(Clean, entries[..i])
    {
      var e := entries[i];
      var name := CleanName(NameAliases, e.name);
      AccumulateStep(Clean, entries, i);
      ghost var before := Groups(merged, order);
      var key := Lower(name);
      if key !in merged {
        merged := merged[key := EmptyGroup(name)];
        order := order + [key];
      }
      ghost var group := merged[key];
      merged := merged[key := AddStats(merged[key], e)];
      AddEntryShape(before, name, e);
      if key !in before.merged {
        UpdateTwice(before.merged, key, EmptyGroup(name), AddStats(group, e));
      }
    }
    assert entries[..|entries|] == entries;
    r := Values(Groups(merged, order));
  }

  // ----- the enumeration order -----

  /** Array indices come first, in ascending order; the other keys follow in insertion order. */
  lemma EnumerationOrderSpec(order: seq<string>, v: int)
    ensures var r := EnumerationOrder(order);
      && (forall i, j :: 0 <= i < j < |r| ==> EnumerationRank(r[i]) <= EnumerationRank(r[j]))
      && KeyFilter(r, EnumerationRank, v) == KeyFilter(order, EnumerationRank, v)
  {
    AtMostTotalPreorder();
    SortSorted(order, EnumerationRank, AtMost);
    SortStable(order, EnumerationRank, AtMost, v);
  }

  // ----- conservation of the stat totals -----

  lemma {:induction false} PickAppend<K>(m: map<K, Entry>, a: seq<K>, b: seq<K>)
    requires forall k :: k in a ==> k in m
    requires forall k :: k in b ==> k in m
    ensures forall k :: k in a + b ==> k in m
    ensures Pick(m, a + b) == Pick(m, a) + Pick(m, b)
  {
    assert forall k :: k in a + b ==> k in a || k in b;
    if a != [] {
      assert (a + b)[1..] == a[1..] + b;
      PickAppend(m, a[1..], b);
    } else {
      assert a + b == b;
    }
  }

  /** Changing a group whose key is not listed changes nothing picked. */
  lemma {:induction false} PickUpdateOutside<K>(m: map<K, Entry>, keys: seq<K>, k: K, v: Entry)
    requires forall x :: x in keys ==> x in m
    requires k !in keys
    ensures Pick(m[k := v], keys) == Pick(m, keys)
  {
    if keys != [] {
      PickUpdateOutside(m, keys[1..], k, v);
    }
  }

  /** The sum of a stat over the groups, in insertion order. */
  function GroupTotal(g: Groups, f: StatField): int
    requires WellFormed(g)
  {
    StatTotal(Pick(g.merged, g.order), f)
  }

  lemma StatTotalSingle(x: Entry, f: StatField)
    ensures StatTotal([x], f) == Val(Get(x, f))
  {
    assert [x][1..] == [];
  }

  /** In a duplicate-free sequence, the element at `j` occurs nowhere else. */
  lemma DistinctSplit<K>(s: seq<K>, j: nat)
    requires Distinct(s) && j < |s|
    ensures s == s[..j] + [s[j]] + s[j + 1..]
    ensures s[j] !in s[..j] + s[j + 1..]
  {
    var rest := s[..j] + s[j + 1..];
    forall i | 0 <= i < |rest| ensures rest[i] != s[j] {
      if i < j {
        assert rest[i] == s[i];
      } else {
        assert rest[i] == s[i + 1];
      }
    }
  }

  /** One turn of the loop adds the entry's stat to the total over the groups. */
  lemma AddEntryTotal(g: Groups, name: string, e: Entry, f: StatField)
    requires WellFormed(g)
    ensures GroupTotal(AddEntry(g, name, e), f) == GroupTotal(g, f) + Val(Get(e, f))
  {
    if Lower(name) in g.merged {
      AddEntryTotalExisting(g, name, e, f);
    } else {
      AddEntryTotalNew(g, name, e, f);
    }
  }

  /** The entry joins the group already kept under its key. */
  lemma AddEntryTotalExisting(g: Groups, name: string, e: Entry, f: StatField)
    requires WellFormed(g) && Lower(name) in g.merged
    ensures GroupTotal(AddEntry(g, name, e), f) == GroupTotal(g, f) + Val(Get(e, f))
  {
    var key := Lower(name);
    AddEntryShape(g, name, e);
    var m := g.merged;
    var j :| 0 <= j < |g.order| && g.order[j] == key;
    DistinctSplit(g.order, j);
    var a, b := g.order[..j], g.order[j + 1..];
    var v := AddStats(m[key], e);
    AddStatsGet(m[key], e, f);
    PickSplitTotal(m, a, key, b, f);
    PickSplitTotal(m[key := v], a, key, b, f);
    PickUpdateOutside(m, a + b, key, v);
  }

  /** The entry opens a new group at the end of the order. */
  lemma AddEntryTotalNew(g: Groups, name: string, e: Entry, f: StatField)
    requires WellFormed(g) && Lower(name) !in g.merged
    ensures GroupTotal(AddEntry(g, name, e), f) == GroupTotal(g, f) + Val(Get(e, f))
  {
    var key := Lower(name);
    AddEntryShape(g, name, e);
    var m := g.merged;
    var v := AddStats(EmptyGroup(name), e);
    AddStatsGet(EmptyGroup(name), e, f);
    assert g.order + [key] == g.order + [key] + [];
    assert g.order + [] == g.order;
    PickSplitTotal(m[key := v], g.order, key, [], f);
    PickUpdateOutside(m, g.order, key, v);
  }

  /** After the loop, the groups hold exactly the stat total of the entries. */
  lemma {:induction false} AccumulateTotal(clean: string -> string, entries: seq<Entry>, f: StatField)
    ensures GroupTotal(Accumulate(clean, entries), f) == StatTotal(entries, f)
  {
    if entries != [] {
      var n := |entries| - 1;
      var e := entries[n];
      StatTotalSnoc(entries, f);
      AccumulateTotal(clean, entries[..n], f);
      AddEntryTotal(Accumulate(clean, entries[..n]), clean(e.name), e, f);
    }
  }

  lemma StatTotalSnoc(s: seq<Entry>, f: StatField)
    requires s != []
    ensures StatTotal(s, f) == StatTotal(s[..|s| - 1], f) + Val(Get(s[|s| - 1], f))
  {
    var n := |s| - 1;
    assert s == s[..n] + [s[n]];
    StatTotalAppend(s[..n], [s[n]], f);
    StatTotalSingle(s[n], f);
  }

  /** Picking the same keys in another order gives the same stat total. */
  lemma {:induction false} PickTotalPermutation<K>(m: map<K, Entry>, a: seq<K>, b: seq<K>, f: StatField)
    requires forall k :: k in a ==> k in m
    requires multiset(a) == multiset(b)
    ensures forall k :: k in b ==> k in m
    ensures StatTotal(Pick(m, a), f) == StatTotal(Pick(m, b), f)
  {
    MultisetKeys(m, a, b);
    if a != [] {
      var x := a[0];
      var j := IndexOfMember(a, b, x);
      var b1, b2 := b[..j], b[j + 1..];
      MultisetRemove(a, b1, x, b2);
      PickTotalPermutation(m, a[1..], b1 + b2, f);
      PickSplitTotal(m, b1, x, b2, f);
      PickSplitTotal(m, [], x, a[1..], f);
      assert [] + [x] + a[1..] == a && [] + a[1..] == a[1..];
    }
  }

  /** Where in `b` the first key of `a` sits, when `b` holds the same keys. */
  lemma IndexOfMember<K>(a: seq<K>, b: seq<K>, x: K) returns (j: nat)
    requires a != [] && a[0] == x && multiset(a) == multiset(b)
    ensures j < |b| && b[j] == x && b == b[..j] + [x] + b[j + 1..]
  {
    assert x in multiset(a);
    j :| 0 <= j < |b| && b[j] == x;
    assert b == b[..j] + [b[j]] + b[j + 1..];
  }

  lemma MultisetKeys<K>(m: map<K, Entry>, a: seq<K>, b: seq<K>)
    requires forall k :: k in a ==> k in m
    requires multiset(a) == multiset(b)
    ensures forall k :: k in b ==> k in m
  {
    forall k | k in b ensures k in m {
      assert k in multiset(b);
    }
  }

  lemma MultisetRemove<K>(a: seq<K>, b1: seq<K>, x: K, b2: seq<K>)
    requires a != [] && a[0] == x && multiset(a) == multiset(b1 + [x] + b2)
    ensures multiset(a[1..]) == multiset(b1 + b2)
  {
    assert a == [x] + a[1..];
    assert multiset(a) == multiset{x} + multiset(a[1..]);
    assert multiset(b1 + [x] + b2) == multiset(b1) + multiset{x} + multiset(b2);
    assert multiset(b1 + b2) == multiset(b1) + multiset(b2);
    assert multiset(a[1..]) == multiset(a) - multiset{x};
  }

  /** Taking one key out of the middle takes its group's stat out of the total. */
  lemma PickSplitTotal<K>(m: map<K, Entry>, b1: seq<K>, x: K, b2: seq<K>, f: StatField)
    requires forall k :: k in b1 + [x] + b2 ==> k in m
    ensures forall k :: k in b1 + b2 ==> k in m
    ensures StatTotal(Pick(m, b1 + [x] + b2), f) == Val(Get(m[x], f)) + StatTotal(Pick(m, b1 + b2), f)
  {
    assert forall k :: k in b1 ==> k in b1 + [x] + b2;
    assert forall k :: k in b2 ==> k in b1 + [x] + b2;
    assert x in b1 + [x] + b2;
    assert forall k :: k in b1 + b2 ==> k in b1 || k in b2;
    PickAppend(m, b1, b2);
    PickAppend(m, b1 + [x], b2);
    PickAppend(m, b1, [x]);
    StatTotalAppend(Pick(m, b1), Pick(m, b2), f);
    StatTotalAppend(Pick(m, b1) + Pick(m, [x]), Pick(m, b2), f);
    StatTotalAppend(Pick(m, b1), Pick(m, [x]), f);
    StatTotalSingle(m[x], f);
  }

  /** Lines 133-136 and 139: merging keeps the total of every stat. */
  lemma DedupeConservesStat(clean: string -> string, entries: seq<Entry>, f: StatField)
    ensures StatTotal(DedupeBy(clean, entries), f) == StatTotal(entries, f)
  {
    var g := Accumulate(clean, entries);
    AccumulateTotal(clean, entries, f);
    PickTotalPermutation(g.merged, g.order, EnumerationOrder(g.order), f);
  }

  /** Merging keeps the total composite score. */
  lemma DedupeConservesPersonal(clean: string -> string, entries: seq<Entry>)
    ensures PersonalTotal(DedupeBy(clean, entries)) == PersonalTotal(entries)
  {
    PersonalTotalSplits(entries);
    PersonalTotalSplits(DedupeBy(clean, entries));
    DedupeConservesStat(clean, entries, Occ);
    DedupeConservesStat(clean, entries, Gather);
    DedupeConservesStat(clean, entries, Pvp);
    DedupeConservesStat(clean, entries, Life);
  }

  // ----- distinct names -----

  lemma {:induction false} DistinctAtMostOnce<K>(a: seq<K>, x: K)
    requires Distinct(a)
    ensures multiset(a)[x] <= 1
  {
    if a != [] {
      assert a == [a[0]] + a[1..];
      DistinctAtMostOnce(a[1..], x);
      if a[0] == x {
        assert x !in a[1..];
      }
    }
  }

  /** A permutation of a duplicate-free sequence is duplicate-free. */
  lemma DistinctPermutation<K>(a: seq<K>, b: seq<K>)
    requires Distinct(a) && multiset(a) == multiset(b)
    ensures Distinct(b)
  {
    forall i, j | 0 <= i < j < |b| ensures b[i] != b[j] {
      if b[i] == b[j] {
        assert b == b[..j] + b[j..];
        assert b[i] in multiset(b[..j]);
        assert b[j] in multiset(b[j..]);
        assert multiset(b)[b[i]] >= 2;
        DistinctAtMostOnce(a, b[i]);
      }
    }
  }

  /** Line 127: no two merged entries share a lower-cased name, and merging never adds entries. */
  lemma DedupeDistinctNames(clean: string -> string, entries: seq<Entry>)
    ensures var r := DedupeBy(clean, entries);
      && |r| <= |entries|
      && forall i, j :: 0 <= i < j < |r| ==> Lower(r[i].name) != Lower(r[j].name)
  {
    var g := Accumulate(clean, entries);
    var ord := EnumerationOrder(g.order);
    AccumulateNames(clean, entries);
    DistinctPermutation(g.order, ord);
    EnumerationOrderKeys(g);
    PickDistinctNames(g.merged, ord);
  }

  /** Picking distinct keys from groups named after their keys gives distinct names. */
  lemma PickDistinctNames(m: map<string, Entry>, ord: seq<string>)
    requires forall k :: k in ord ==> k in m
    requires forall k :: k in m ==> Lower(m[k].name) == k
    requires Distinct(ord)
    ensures forall i, j :: 0 <= i < j < |Pick(m, ord)| ==> Lower(Pick(m, ord)[i].name) != Lower(Pick(m, ord)[j].name)
  {
    var r := Pick(m, ord);
    forall i, j | 0 <= i < j < |r| ensures Lower(r[i].name) != Lower(r[j].name) {
      PickAt(m, ord, i);
      PickAt(m, ord, j);
    }
  }

  // ----- what each merged entry holds -----

  /** The cleaned name of the first entry whose key is `k`, if any. */
  function FirstName(clean: string -> string, entries: seq<Entry>, k: string): Option<string> {
    if entries == [] then None
    else if KeyOf(clean, entries[0]) == k then Some(clean(entries[0].name))
    else FirstName(clean, entries[1..], k)
  }

  /** The entries whose key is `k`, in their order. */
  function Members(clean: string -> string, entries: seq<Entry>, k: string): seq<Entry> {
    if entries == [] then []
    else (if KeyOf(clean, entries[0]) == k then [entries[0]] else []) + Members(clean, entries[1..], k)
  }

  /** `FirstName` finds the earliest entry with the key, and finds none only when no entry has it. */
  lemma {:induction false} FirstNameSpec(clean: string -> string, entries: seq<Entry>, k: string)
    ensures FirstName(clean, entries, k).None? <==> forall j :: 0 <= j < |entries| ==> KeyOf(clean, entries[j]) != k
    ensures FirstName(clean, entries, k).Some? ==>
      exists j :: 0 <= j < |entries| && KeyOf(clean, entries[j]) == k
        && FirstName(clean, entries, k) == Some(clean(entries[j].name))
        && forall i :: 0 <= i < j ==> KeyOf(clean, entries[i]) != k
  {
    if entries != [] {
      if KeyOf(clean, entries[0]) != k {
        var rest := entries[1..];
        FirstNameSpec(clean, rest, k);
        forall j | 1 <= j < |entries| ensures entries[j] == rest[j - 1] {
        }
        if FirstName(clean, rest, k).Some? {
          var j :| 0 <= j < |rest| && KeyOf(clean, rest[j]) == k
            && FirstName(clean, rest, k) == Some(clean(rest[j].name))
            && forall i :: 0 <= i < j ==> KeyOf(clean, rest[i]) != k;
          assert KeyOf(clean, entries[j + 1]) == k;
        }
      }
    }
  }

  lemma {:induction false} FirstNameSnoc(clean: string -> string, a: seq<Entry>, e: Entry, k: string)
    ensures FirstName(clean, a + [e], k)
      == if FirstName(clean, a, k).Some? then FirstName(clean, a, k)
         else if KeyOf(clean, e) == k then Some(clean(e.name)) else None
  {
    if a == [] {
      assert a + [e] == [e];
      assert [e][1..] == [];
    } else {
      assert (a + [e])[1..] == a[1..] + [e];
      FirstNameSnoc(clean, a[1..], e, k);
    }
  }

  lemma {:induction false} MembersSnoc(clean: string -> string, a: seq<Entry>, e: Entry, k: string)
    ensures Members(clean, a + [e], k) == Members(clean, a, k) + (if KeyOf(clean, e) == k then [e] else [])
  {
    if a == [] {
      assert a + [e] == [e];
      assert [e][1..] == [];
    } else {
      assert (a + [e])[1..] == a[1..] + [e];
      MembersSnoc(clean, a[1..], e, k);
    }
  }

  /** The last entry's contribution to the first name of key `k`. */
  lemma LastEntryName(clean: string -> string, s: seq<Entry>, k: string)
    requires s != []
    ensures var a, e := s[..|s| - 1], s[|s| - 1];
      FirstName(clean, s, k)
        == (if FirstName(clean, a, k).Some? then FirstName(clean, a, k)
            else if KeyOf(clean, e) == k then Some(clean(e.name)) else None)
  {
    assert s == s[..|s| - 1] + [s[|s| - 1]];
    FirstNameSnoc(clean, s[..|s| - 1], s[|s| - 1], k);
  }

  /** The last entry's contribution to the members' total of stat `f` for key `k`. */
  lemma LastEntryStat(clean: string -> string, s: seq<Entry>, k: string, f: StatField)
    requires s != []
    ensures var a, e := s[..|s| - 1], s[|s| - 1];
      && Members(clean, s, k) == Members(clean, a, k) + (if KeyOf(clean, e) == k then [e] else [])
      && StatTotal(Members(clean, s, k), f)
           == StatTotal(Members(clean, a, k), f) + (if KeyOf(clean, e) == k then Val(Get(e, f)) else 0)
  {
    var a, e := s[..|s| - 1], s[|s| - 1];
    assert s == a + [e];
    MembersSnoc(clean, a, e, k);
    StatTotalAppend(Members(clean, a, k), if KeyOf(clean, e) == k then [e] else [], f);
    StatTotalSingle(e, f);
  }

  /** One turn of the loop adds the entry's stat `f` to the group of its own key. */
  lemma AddEntryStat(g: Groups, name: string, e: Entry, f: StatField)
    requires WellFormed(g)
    ensures var key := Lower(name);
      var before := if key in g.merged then Val(Get(g.merged[key], f)) else 0;
      Get(AddEntry(g, name, e).merged[key], f) == Some(before + Val(Get(e, f)))
  {
    var key := Lower(name);
    if key in g.merged {
      assert AddEntry(g, name, e).merged[key] == AddStats(g.merged[key], e);
      AddStatsGet(g.merged[key], e, f);
    } else {
      assert AddEntry(g, name, e).merged[key] == AddStats(EmptyGroup(name), e);
      AddStatsGet(EmptyGroup(name), e, f);
      assert Val(Get(EmptyGroup(name), f)) == 0;
    }
  }

  lemma AddStatsGet(group: Entry, e: Entry, f: StatField)
    ensures Get(AddStats(group, e), f) == Some(Val(Get(group, f)) + Val(Get(e, f)))
  {
  }

  /** What one turn of the loop does to the group of key `k`. */
  lemma AddEntryGroup(g: Groups, name: string, e: Entry, k: string, f: StatField)
    requires WellFormed(g)
    ensures var r := AddEntry(g, name, e);
      && (k in r.merged <==> k in g.merged || Lower(name) == k)
      && (k in r.merged ==> r.merged[k].name == if k in g.merged then g.merged[k].name else name)
      && (k in g.merged && Lower(name) != k ==> r.merged[k] == g.merged[k])
      && (Lower(name) == k ==>
            Get(r.merged[k], f) == Some((if k in g.merged then Val(Get(g.merged[k], f)) else 0) + Val(Get(e, f))))
  {
    AddEntryShape(g, name, e);
    if Lower(name) == k {
      AddEntryStat(g, name, e, f);
    }
  }

  /**
   * Lines 125-131: the key `k` has a group exactly when some entry has that
   * key, and the group keeps the first such entry's cleaned name.
   */
  lemma {:induction false} AccumulateGroupName(clean: string -> string, entries: seq<Entry>, k: string)
    ensures var g := Accumulate(clean, entries);
      && (k in g.merged <==> FirstName(clean, entries, k).Some?)
      && (k in g.merged ==> Some(g.merged[k].name) == FirstName(clean, entries, k))
  {
    if entries != [] {
      var n := |entries| - 1;
      LastEntryName(clean, entries, k);
      AccumulateGroupName(clean, entries[..n], k);
      AddEntryGroup(Accumulate(clean, entries[..n]), clean(entries[n].name), entries[n], k, Occ);
    }
  }

  /** Lines 133-136: the group of key `k` holds the sum of stat `f` over the entries with that key. */
  lemma {:induction false} AccumulateGroupStat(clean: string -> string, entries: seq<Entry>, k: string, f: StatField)
    ensures var g := Accumulate(clean, entries);
      && (k in g.merged ==> Get(g.merged[k], f) == Some(StatTotal(Members(clean, entries, k), f)))
      && (k !in g.merged ==> Members(clean, entries, k) == [])
  {
    if entries != [] {
      var n := |entries| - 1;
      var a, e := entries[..n], entries[n];
      LastEntryStat(clean, entries, k, f);
      AccumulateGroupStat(clean, a, k, f);
      GroupStatStep(Accumulate(clean, a), clean(e.name), e, k, f, Members(clean, a, k), Members(clean, entries, k));
    }
  }

  /** One turn of the loop keeps "the group of `k` sums the entries of `k` seen so far". */
  lemma GroupStatStep(g0: Groups, name: string, e: Entry, k: string, f: StatField, before: seq<Entry>, after: seq<Entry>)
    requires WellFormed(g0)
    requires k in g0.merged ==> Get(g0.merged[k], f) == Some(StatTotal(before, f))
    requires k !in g0.merged ==> before == []
    requires after == before + (if Lower(name) == k then [e] else [])
    ensures var g := AddEntry(g0, name, e);
      && (k in g.merged ==> Get(g.merged[k], f) == Some(StatTotal(after, f)))
      && (k !in g.merged ==> after == [])
  {
    AddEntryGroup(g0, name, e, k, f);
    if Lower(name) == k {
      StatTotalAppend(before, [e], f);
      StatTotalSingle(e, f);
    } else {
      assert after == before;
    }
  }

  /**
   * Lines 125-139: every merged entry carries the first cleaned name of its
   * key and the sums of that key's entries, and every entry's key has a
   * merged entry.
   */
  lemma DedupeGroups(clean: string -> string, entries: seq<Entry>)
    ensures var r := DedupeBy(clean, entries);
      && (forall i :: 0 <= i < |r| ==> FirstName(clean, entries, Lower(r[i].name)) == Some(r[i].name))
      && (forall i, f :: 0 <= i < |r| ==>
            Get(r[i], f) == Some(StatTotal(Members(clean, entries, Lower(r[i].name)), f)))
      && (forall j :: 0 <= j < |entries| ==>
            exists i :: 0 <= i < |r| && Lower(r[i].name) == KeyOf(clean, entries[j]))
  {
    DedupeNamesAndSums(clean, entries);
    DedupeCoversEveryKey(clean, entries);
    var r := DedupeBy(clean, entries);
    assert forall j :: 0 <= j < |entries| ==>
      exists i :: 0 <= i < |r| && Lower(r[i].name) == KeyOf(clean, entries[j]);
  }

  lemma DedupeNamesAndSums(clean: string -> string, entries: seq<Entry>)
    ensures var r := DedupeBy(clean, entries);
      && (forall i :: 0 <= i < |r| ==> FirstName(clean, entries, Lower(r[i].name)) == Some(r[i].name))
      && (forall i, f :: 0 <= i < |r| ==>
            Get(r[i], f) == Some(StatTotal(Members(clean, entries, Lower(r[i].name)), f)))
  {
    var g := Accumulate(clean, entries);
    var ord := EnumerationOrder(g.order);
    AccumulateNames(clean, entries);
    EnumerationOrderKeys(g);
    var r := Pick(g.merged, ord);
    assert r == DedupeBy(clean, entries);
    forall i | 0 <= i < |r|
      ensures FirstName(clean, entries, Lower(r[i].name)) == Some(r[i].name)
      ensures forall f :: Get(r[i], f) == Some(StatTotal(Members(clean, entries, Lower(r[i].name)), f))
    {
      PickAt(g.merged, ord, i);
      AccumulateGroupName(clean, entries, ord[i]);
      forall f ensures Get(r[i], f) == Some(StatTotal(Members(clean, entries, Lower(r[i].name)), f)) {
        AccumulateGroupStat(clean, entries, ord[i], f);
      }
    }
  }

  lemma DedupeCoversEveryKey(clean: string -> string, entries: seq<Entry>)
    ensures var r := DedupeBy(clean, entries);
      forall j :: 0 <= j < |entries| ==>
        exists i :: 0 <= i < |r| && Lower(r[i].name) == KeyOf(clean, entries[j])
  {
    var r := DedupeBy(clean, entries);
    forall j | 0 <= j < |entries|
      ensures exists i :: 0 <= i < |r| && Lower(r[i].name) == KeyOf(clean, entries[j])
    {
      var k := KeyOf(clean, entries[j]);
      FirstNameSpec(clean, entries, k);
      AccumulateGroupName(clean, entries, k);
      var i := DedupeKeyAt(clean, entries, k);
    }
  }

  /** Every key of the groups has its merged entry in the result. */
  lemma DedupeKeyAt(clean: string -> string, entries: seq<Entry>, k: string) returns (i: nat)
    requires k in Accumulate(clean, entries).merged
    ensures i < |DedupeBy(clean, entries)| && Lower(DedupeBy(clean, entries)[i].name) == k
  {
    var g := Accumulate(clean, entries);
    var ord := EnumerationOrder(g.order);
    AccumulateNames(clean, entries);
    EnumerationOrderKeys(g);
    assert k in multiset(ord);
    i :| 0 <= i < |ord| && ord[i] == k;
    PickAt(g.merged, ord, i);
  }

  // ----- inherited keys, as written -----

  /**
   * Lines 129-136 as written: on a plain object `merged[key]` also finds the
   * members inherited from `Object.prototype`. Both are truthy, so no group is
   * made for such a key; the stats go into the inherited member, and `merged`
   * keeps no trace of the entry.
   */
  function AddEntryAsWritten(g: Groups, name: string, e: Entry): (r: Groups)
    requires WellFormed(g)
    ensures WellFormed(r)
  {
    if Lower(name) !in g.merged && Lower(name) in InheritedLowerCase then g
    else AddEntry(g, name, e)
  }

  /** `merged` after the loop as written has seen `entries`. */
  function AccumulateAsWritten(clean: string -> string, entries: seq<Entry>): (g: Groups)
    ensures WellFormed(g)
  {
    if entries == [] then Groups(map[], [])
    else
      var e := entries[|entries| - 1];
      AddEntryAsWritten(AccumulateAsWritten(clean, entries[..|entries| - 1]), clean(e.name), e)
  }

  /** `dedupeEntries` as written. */
  function DedupeByAsWritten(clean: string -> string, entries: seq<Entry>): seq<Entry> {
    Values(AccumulateAsWritten(clean, entries))
  }

  /** As written, no inherited member name ever becomes a key of `merged`. */
  lemma {:induction false} AccumulateAsWrittenOmitsInherited(clean: string -> string, entries: seq<Entry>)
    ensures forall k :: k in AccumulateAsWritten(clean, entries).merged ==> k !in InheritedLowerCase
  {
    if entries != [] {
      var n := |entries| - 1;
      var g0 := AccumulateAsWritten(clean, entries[..n]);
      AccumulateAsWrittenOmitsInherited(clean, entries[..n]);
      var name := clean(entries[n].name);
      if !(Lower(name) !in g0.merged && Lower(name) in InheritedLowerCase) {
        AddEntryShape(g0, name, entries[n]);
      }
    }
  }

  /** Away from the inherited member names, one turn as written is one turn of `AddEntry`. */
  lemma AddEntryAsWrittenAgrees(g: Groups, name: string, e: Entry)
    requires WellFormed(g) && Lower(name) !in InheritedLowerCase
    ensures AddEntryAsWritten(g, name, e) == AddEntry(g, name, e)
  {
  }

  /** Where no entry's key is an inherited member name, the loop as written is the loop `Accumulate`. */
  lemma {:induction false} AccumulateAsWrittenAgrees(clean: string -> string, entries: seq<Entry>)
    requires forall j :: 0 <= j < |entries| ==> KeyOf(clean, entries[j]) !in InheritedLowerCase
    ensures AccumulateAsWritten(clean, entries) == Accumulate(clean, entries)
  {
    if entries != [] {
      var n := |entries| - 1;
      var a, e := entries[..n], entries[n];
      forall j | 0 <= j < n ensures KeyOf(clean, a[j]) !in InheritedLowerCase {
        assert a[j] == entries[j];
      }
      AccumulateAsWrittenAgrees(clean, a);
      assert KeyOf(clean, e) !in InheritedLowerCase;
      AddEntryAsWrittenAgrees(Accumulate(clean, a), clean(e.name), e);
      assert AccumulateAsWritten(clean, entries) == AddEntryAsWritten(AccumulateAsWritten(clean, a), clean(e.name), e);
      assert Accumulate(clean, entries) == AddEntry(Accumulate(clean, a), clean(e.name), e);
    }
  }

  lemma ValuesEmpty()
    ensures Values(Groups(map[], [])) == []
  {
  }

  /** One entry whose key is an inherited member name leaves `merged` empty, as written. */
  lemma AccumulateAsWrittenOneInherited(clean: string -> string, e: Entry)
    requires KeyOf(clean, e) in InheritedLowerCase
    ensures AccumulateAsWritten(clean, [e]) == Groups(map[], [])
  {
    assert [e][..0] == [];
  }

  lemma ConstructorKey(e: Entry)
    requires e.name == "Constructor"
    ensures Clean(e.name) == "Constructor"
    ensures KeyOf(Clean, e) == "constructor" && "constructor" in InheritedLowerCase
  {
    ConstructorIsOrdinaryName(e.name);
    ConstructorLower(e.name);
    ConstructorIsInherited();
  }

  /**
   * As written, a player called `Constructor` is left out of the result
   * altogether; counted through `merged`'s own keys, the player is one entry.
   */
  lemma ConstructorDroppedAsWritten(e: Entry)
    requires e.name == "Constructor"
    ensures DedupeByAsWritten(Clean, [e]) == []
    ensures Dedupe([e]) == [AddStats(EmptyGroup("Constructor"), e)]
  {
    ConstructorKey(e);
    AccumulateAsWrittenOneInherited(Clean, e);
    ValuesEmpty();
    AccumulateOne(Clean, e);
    ValuesSingleton(KeyOf(Clean, e), AddStats(EmptyGroup(Clean(e.name)), e));
  }

  // ----- a worked example -----

  lemma SortSingleton<T, K>(x: T, key: T -> K, le: (K, K) -> bool)
    ensures Sort([x], key, le) == [x]
  {
    var r := Sort([x], key, le);
    assert r[0] in multiset(r);
  }

  lemma PickSingleton<K>(m: map<K, Entry>, k: K)
    requires k in m
    ensures Pick(m, [k]) == [m[k]]
  {
    assert [k][1..] == [];
  }

  lemma AccumulateOne(clean: string -> string, e1: Entry)
    ensures Accumulate(clean, [e1]) == Groups(map[KeyOf(clean, e1) := AddStats(EmptyGroup(clean(e1.name)), e1)], [KeyOf(clean, e1)])
  {
    assert [e1][..0] == [];
    AddEntryShape(Groups(map[], []), clean(e1.name), e1);
  }

  lemma ValuesSingleton(k: string, group: Entry)
    ensures Values(Groups(map[k := group], [k])) == [group]
  {
    SortSingleton(k, EnumerationRank, AtMost);
    PickSingleton(map[k := group], k);
  }

  /** Two entries with the same key merge into one group that sums both. */
  lemma DedupeTwoSameKey(clean: string -> string, e1: Entry, e2: Entry)
    requires KeyOf(clean, e1) == KeyOf(clean, e2)
    ensures DedupeBy(clean, [e1, e2]) == [AddStats(AddStats(EmptyGroup(clean(e1.name)), e1), e2)]
  {
    var key := KeyOf(clean, e1);
    var group := AddStats(EmptyGroup(clean(e1.name)), e1);
    AccumulateTwo(clean, e1, e2);
    AddEntryToSingleton(key, group, clean(e2.name), e2);
    ValuesSingleton(key, AddStats(group, e2));
  }

  /** The loop over two entries is two turns from the empty state. */
  lemma AccumulateTwo(clean: string -> string, e1: Entry, e2: Entry)
    ensures Accumulate(clean, [e1, e2]) == AddEntry(Accumulate(clean, [e1]), clean(e2.name), e2)
    ensures Accumulate(clean, [e1]) == Groups(map[KeyOf(clean, e1) := AddStats(EmptyGroup(clean(e1.name)), e1)], [KeyOf(clean, e1)])
  {
    AccumulateOne(clean, e1);
    AccumulateStep(clean, [e1, e2], 1);
    assert [e1, e2][..2] == [e1, e2] && [e1, e2][..1] == [e1];
  }

  /** An entry with the key of the only group joins that group. */
  lemma AddEntryToSingleton(key: string, group: Entry, name: string, e: Entry)
    requires Lower(name) == key
    ensures AddEntry(Groups(map[key := group], [key]), name, e) == Groups(map[key := AddStats(group, e)], [key])
  {
    var g := Groups(map[key := group], [key]);
    AddEntryShape(g, name, e);
    UpdateTwice(map[], key, group, AddStats(group, e));
  }

  lemma BobLower(a: string, b: string)
    requires a == "Bob" && b == "bob"
    ensures Lower(a) == b && Lower(b) == b
  {
  }

  /** Two entries whose names clean up to `Bob` and `bob`, with 10 and 5 occupational points. */
  lemma DedupeBobAndBob(clean: string -> string, e1: Entry, e2: Entry)
    requires clean(e1.name) == "Bob" && clean(e2.name) == "bob"
    requires e1.occ == Some(10) && e2.occ == Some(5)
    requires e1.gather == e1.pvp == e1.life == e2.gather == e2.pvp == e2.life == Some(0)
    ensures var r := DedupeBy(clean, [e1, e2]);
      r == [Entry("Bob", Some(15), Some(0), Some(0), Some(0))] && Personal(r[0]) == 15
  {
    BobLower(clean(e1.name), clean(e2.name));
    DedupeTwoSameKey(clean, e1, e2);
  }

  lemma CleanPlainBob(raw: string)
    requires raw == "bob"
    ensures Clean(raw) == "bob"
  {
    assert [] + raw == raw;
    CleanDropsAts([], raw);
  }

  /**
   * `@Bob Personal Score: 100` with 10 occupational points and `bob` with 5
   * merge into one entry `Bob` with 15.
   */
  lemma DedupeBobExample(raw1: string, raw2: string)
    requires raw1 == "@Bob Personal Score: 100" && raw2 == "bob"
    ensures var r := Dedupe([Entry(raw1, Some(10), Some(0), Some(0), Some(0)), Entry(raw2, Some(5), Some(0), Some(0), Some(0))]);
      r == [Entry("Bob", Some(15), Some(0), Some(0), Some(0))] && Personal(r[0]) == 15
  {
    CleanBobWithScore(raw1);
    CleanPlainBob(raw2);
    DedupeBobAndBob(Clean, Entry(raw1, Some(10), Some(0), Some(0), Some(0)), Entry(raw2, Some(5), Some(0), Some(0), Some(0)));
  }
}
