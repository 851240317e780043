/** The supervisor's check-out screen: Available units grouped by name and category, sorted by name, and the
    submit handler that validates the quantity against the live group count. */
module Checkout {
  import opened Types
  import opened Seqs
  import opened Strings
  import Dashboard
  import Custody

  // ---------------------------------------------------------------------------------------------
  // Grouping

  /** The Available units, in inventory order (`items.filter(item => item.status === AVAILABLE)`). */
  function AvailableUnits(items: seq<Item>): (r: seq<Item>)
    ensures forall it :: it in r <==> it in items && it.status == Available
    ensures IsSubseq(r, items)
    ensures |r| == Dashboard.CountStatus(items, Available)
  {
    Filter(Dashboard.HasStatus(Available), items)
  }

  /** The grouping key `${item.name}-${item.category}`. */
  function KeyOf(it: Item): string
  {
    it.name + "-" + it.category
  }

  function ItemHasKey(key: string): Item -> bool
  {
    (it: Item) => KeyOf(it) == key
  }

  /** One entry of the `groups` record: a representative unit and the number of units with its key. */
  datatype Group = Group(item: Item, count: nat)

  function GroupHasKey(key: string): Group -> bool
  {
    (g: Group) => KeyOf(g.item) == key
  }

  /** One `forEach` step: count `x` in the group with its key, opening a group with `x` as representative if
      there is none yet. Groups stay in the order their keys were first met, which is the order
      `Object.values` returns for keys that are never array indices (every key here contains a `-`). */
  function Absorb(gs: seq<Group>, x: Item): seq<Group>
  {
    var k := FirstIndex(GroupHasKey(KeyOf(x)), gs);
    if k < |gs| then gs[k := Group(gs[k].item, gs[k].count + 1)] else gs + [Group(x, 1)]
  }

  /** The groups the `forEach` loop leaves behind after visiting `s` in order. */
  function GroupsOf(s: seq<Item>): seq<Group>
    decreases |s|
  {
    if s == [] then [] else Absorb(GroupsOf(s[..|s| - 1]), s[|s| - 1])
  }

  /** The spec takes one loop step per visited unit. */
  lemma GroupsOfSnoc(s: seq<Item>, x: Item)
    ensures GroupsOf(s + [x]) == Absorb(GroupsOf(s), x)
  {
    assert (s + [x])[..|s|] == s;
  }

  function SumCounts(gs: seq<Group>): nat
  {
    if gs == [] then 0 else gs[0].count + SumCounts(gs[1..])
  }

  /** No two groups share a key. */
  predicate DistinctKeys(gs: seq<Group>)
  {
    forall i, j :: 0 <= i < j < |gs| ==> KeyOf(gs[i].item) != KeyOf(gs[j].item)
  }

  /** Each representative is the first unit of `s` with its key. */
  predicate FirstRepresentatives(s: seq<Item>, gs: seq<Group>)
  {
    forall j :: 0 <= j < |gs| ==>
      FirstIndex(ItemHasKey(KeyOf(gs[j].item)), s) < |s|
      && gs[j].item == s[FirstIndex(ItemHasKey(KeyOf(gs[j].item)), s)]
  }

  /** Each count is the number of units of `s` with the group's key. */
  predicate CountsMatch(s: seq<Item>, gs: seq<Group>)
  {
    forall j :: 0 <= j < |gs| ==> gs[j].count == Count(ItemHasKey(KeyOf(gs[j].item)), s)
  }

  /** Every unit's key has a group. */
  predicate Covers(s: seq<Item>, gs: seq<Group>)
  {
    forall i :: 0 <= i < |s| ==> FirstIndex(GroupHasKey(KeyOf(s[i])), gs) < |gs|
  }

  /** What the groups say about the units they summarise: distinct keys, first representatives, exact counts,
      full coverage, and counts that add up to the number of units. */
  predicate Summarises(s: seq<Item>, gs: seq<Group>)
  {
    DistinctKeys(gs) && FirstRepresentatives(s, gs) && CountsMatch(s, gs) && Covers(s, gs) && SumCounts(gs) == |s|
  }

  lemma {:induction false} SumSnoc(gs: seq<Group>, g: Group)
    ensures SumCounts(gs + [g]) == SumCounts(gs) + g.count
  {
    if gs == [] {
      assert [] + [g] == [g];
      assert [g][1..] == [];
    } else {
      assert (gs + [g])[1..] == gs[1..] + [g];
      SumSnoc(gs[1..], g);
    }
  }

  lemma {:induction false} SumUpdate(gs: seq<Group>, k: nat, g: Group)
    requires k < |gs|
    ensures SumCounts(gs[k := g]) + gs[k].count == SumCounts(gs) + g.count
  {
    if k > 0 {
      assert gs[k := g][1..] == gs[1..][k - 1 := g];
      SumUpdate(gs[1..], k - 1, g);
    }
  }

  /** The first match lies no later than any known match. */
  lemma {:induction false} FirstIndexAtMost<T>(p: T -> bool, s: seq<T>, m: nat)
    requires m < |s| && p(s[m])
    ensures FirstIndex(p, s) <= m
  {
  }

  /** Seen from an existing group, visiting one more unit keeps the first match and counts the unit if its
      key is the group's. */
  lemma {:induction false} ExtendKeepsFirst(s: seq<Item>, key: string, x: Item)
    requires FirstIndex(ItemHasKey(key), s) < |s|
    ensures FirstIndex(ItemHasKey(key), s + [x]) == FirstIndex(ItemHasKey(key), s)
    ensures (s + [x])[FirstIndex(ItemHasKey(key), s)] == s[FirstIndex(ItemHasKey(key), s)]
    ensures Count(ItemHasKey(key), s + [x]) == Count(ItemHasKey(key), s) + (if KeyOf(x) == key then 1 else 0)
  {
    FirstIndexSnoc(ItemHasKey(key), s, x);
    CountSnoc(ItemHasKey(key), s, x);
  }

  /** Replacing a group by one with the same key keeps the keys distinct. */
  lemma {:induction false} SameKeyKeepsDistinct(gs: seq<Group>, k: nat, g: Group)
    requires DistinctKeys(gs) && k < |gs| && KeyOf(g.item) == KeyOf(gs[k].item)
    ensures DistinctKeys(gs[k := g])
  {
    var r := gs[k := g];
    forall i, j | 0 <= i < j < |r| ensures KeyOf(r[i].item) != KeyOf(r[j].item) {
      assert KeyOf(r[i].item) == KeyOf(gs[i].item) && KeyOf(r[j].item) == KeyOf(gs[j].item);
    }
  }

  /** Appending a group whose key is new keeps the keys distinct. */
  lemma {:induction false} NewKeyKeepsDistinct(gs: seq<Group>, g: Group)
    requires DistinctKeys(gs) && FirstIndex(GroupHasKey(KeyOf(g.item)), gs) == |gs|
    ensures DistinctKeys(gs + [g])
  {
    var r := gs + [g];
    forall i, j | 0 <= i < j < |r| ensures KeyOf(r[i].item) != KeyOf(r[j].item) {
      if j == |gs| {
        assert !GroupHasKey(KeyOf(g.item))(gs[i]);
      } else {
        assert r[i] == gs[i] && r[j] == gs[j];
      }
    }
  }

  /** A group that is not `x`'s keeps its representative and its count when `x` is visited. */
  lemma {:induction false} OtherGroupUnchanged(s: seq<Item>, g: Group, x: Item)
    requires FirstIndex(ItemHasKey(KeyOf(g.item)), s) < |s| && g.item == s[FirstIndex(ItemHasKey(KeyOf(g.item)), s)]
    requires g.count == Count(ItemHasKey(KeyOf(g.item)), s)
    requires KeyOf(g.item) != KeyOf(x)
    ensures FirstIndex(ItemHasKey(KeyOf(g.item)), s + [x]) < |s + [x]|
    ensures g.item == (s + [x])[FirstIndex(ItemHasKey(KeyOf(g.item)), s + [x])]
    ensures g.count == Count(ItemHasKey(KeyOf(g.item)), s + [x])
  {
    ExtendKeepsFirst(s, KeyOf(g.item), x);
  }

  /** `x`'s existing group keeps its representative and counts one more unit. */
  lemma {:induction false} OwnGroupCounted(s: seq<Item>, g: Group, x: Item)
    requires FirstIndex(ItemHasKey(KeyOf(g.item)), s) < |s| && g.item == s[FirstIndex(ItemHasKey(KeyOf(g.item)), s)]
    requires g.count == Count(ItemHasKey(KeyOf(g.item)), s)
    requires KeyOf(g.item) == KeyOf(x)
    ensures FirstIndex(ItemHasKey(KeyOf(g.item)), s + [x]) < |s + [x]|
    ensures g.item == (s + [x])[FirstIndex(ItemHasKey(KeyOf(g.item)), s + [x])]
    ensures g.count + 1 == Count(ItemHasKey(KeyOf(g.item)), s + [x])
  {
    ExtendKeepsFirst(s, KeyOf(g.item), x);
  }

  /** A unit whose key has no group is the first with that key, and the only one, once visited. */
  lemma {:induction false} NewGroupCounted(s: seq<Item>, x: Item)
    requires forall i :: 0 <= i < |s| ==> KeyOf(s[i]) != KeyOf(x)
    ensures FirstIndex(ItemHasKey(KeyOf(x)), s + [x]) == |s|
    ensures Count(ItemHasKey(KeyOf(x)), s + [x]) == 1
  {
    assert FirstIndex(ItemHasKey(KeyOf(x)), s) == |s|;
    assert forall y :: y in s ==> !ItemHasKey(KeyOf(x))(y);
    FirstIndexSnoc(ItemHasKey(KeyOf(x)), s, x);
    CountSnoc(ItemHasKey(KeyOf(x)), s, x);
  }

  /** After visiting `x`, the groups with `x`'s group counted once more still have first representatives and
      exact counts. */
  lemma {:induction false} ExistingRepsCounts(s: seq<Item>, gs: seq<Group>, k: nat, x: Item)
    requires DistinctKeys(gs) && FirstRepresentatives(s, gs) && CountsMatch(s, gs)
    requires k < |gs| && KeyOf(gs[k].item) == KeyOf(x)
    ensures FirstRepresentatives(s + [x], gs[k := Group(gs[k].item, gs[k].count + 1)])
    ensures CountsMatch(s + [x], gs[k := Group(gs[k].item, gs[k].count + 1)])
  {
    var s' := s + [x];
    var r := gs[k := Group(gs[k].item, gs[k].count + 1)];
    forall j | 0 <= j < |r|
      ensures FirstIndex(ItemHasKey(KeyOf(r[j].item)), s') < |s'|
      ensures r[j].item == s'[FirstIndex(ItemHasKey(KeyOf(r[j].item)), s')]
      ensures r[j].count == Count(ItemHasKey(KeyOf(r[j].item)), s')
    {
      if j == k {
        OwnGroupCounted(s, gs[k], x);
      } else {
        if j < k {
          assert KeyOf(gs[j].item) != KeyOf(gs[k].item);
        } else {
          assert KeyOf(gs[k].item) != KeyOf(gs[j].item);
        }
        OtherGroupUnchanged(s, gs[j], x);
      }
    }
  }

  /** After visiting `x`, whose key has a group, every visited unit's key still has a group. */
  lemma {:induction false} ExistingCovers(s: seq<Item>, gs: seq<Group>, k: nat, x: Item)
    requires Covers(s, gs)
    requires k < |gs| && KeyOf(gs[k].item) == KeyOf(x)
    ensures Covers(s + [x], gs[k := Group(gs[k].item, gs[k].count + 1)])
  {
    var s' := s + [x];
    var r := gs[k := Group(gs[k].item, gs[k].count + 1)];
    forall i | 0 <= i < |s'| ensures FirstIndex(GroupHasKey(KeyOf(s'[i])), r) < |r| {
      var m := if i < |s| then FirstIndex(GroupHasKey(KeyOf(s[i])), gs) else k;
      assert GroupHasKey(KeyOf(s'[i]))(r[m]);
      FirstIndexAtMost(GroupHasKey(KeyOf(s'[i])), r, m);
    }
  }

  /** `Absorb` on a key that has a group updates that group in place. */
  lemma AbsorbFound(gs: seq<Group>, x: Item, k: nat)
    requires k == FirstIndex(GroupHasKey(KeyOf(x)), gs) && k < |gs|
    ensures Absorb(gs, x) == gs[k := Group(gs[k].item, gs[k].count + 1)]
  {
  }

  /** `Absorb` on a key without a group appends one. */
  lemma AbsorbMissing(gs: seq<Group>, x: Item)
    requires FirstIndex(GroupHasKey(KeyOf(x)), gs) == |gs|
    ensures Absorb(gs, x) == gs + [Group(x, 1)]
  {
  }

  /** The loop step for a unit whose key already has a group. */
  lemma {:induction false} AbsorbExisting(s: seq<Item>, gs: seq<Group>, x: Item)
    requires Summarises(s, gs)
    requires FirstIndex(GroupHasKey(KeyOf(x)), gs) < |gs|
    ensures Summarises(s + [x], Absorb(gs, x))
  {
    var k := FirstIndex(GroupHasKey(KeyOf(x)), gs);
    var g := Group(gs[k].item, gs[k].count + 1);
    AbsorbFound(gs, x, k);
    SameKeyKeepsDistinct(gs, k, g);
    ExistingRepsCounts(s, gs, k, x);
    ExistingCovers(s, gs, k, x);
    SumUpdate(gs, k, g);
  }

  /** A key without a group belongs to no unit visited so far. */
  lemma {:induction false} MissingKeyUnseen(s: seq<Item>, gs: seq<Group>, x: Item)
    requires Covers(s, gs)
    requires FirstIndex(GroupHasKey(KeyOf(x)), gs) == |gs|
    ensures forall i :: 0 <= i < |s| ==> KeyOf(s[i]) != KeyOf(x)
  {
    forall i | 0 <= i < |s| ensures KeyOf(s[i]) != KeyOf(x) {
      var m := FirstIndex(GroupHasKey(KeyOf(s[i])), gs);
      assert GroupHasKey(KeyOf(s[i]))(gs[m]);
      assert !GroupHasKey(KeyOf(x))(gs[m]);
    }
  }

  /** After visiting `x`, whose key is new, the old groups and the new last one have first representatives
      and exact counts. */
  lemma {:induction false} NewRepsCounts(s: seq<Item>, gs: seq<Group>, x: Item)
    requires FirstRepresentatives(s, gs) && CountsMatch(s, gs)
    requires FirstIndex(GroupHasKey(KeyOf(x)), gs) == |gs|
    requires forall i :: 0 <= i < |s| ==> KeyOf(s[i]) != KeyOf(x)
    ensures FirstRepresentatives(s + [x], gs + [Group(x, 1)])
    ensures CountsMatch(s + [x], gs + [Group(x, 1)])
  {
    var s' := s + [x];
    var r := gs + [Group(x, 1)];
    NewGroupCounted(s, x);
    forall j | 0 <= j < |r|
      ensures FirstIndex(ItemHasKey(KeyOf(r[j].item)), s') < |s'|
      ensures r[j].item == s'[FirstIndex(ItemHasKey(KeyOf(r[j].item)), s')]
      ensures r[j].count == Count(ItemHasKey(KeyOf(r[j].item)), s')
    {
      if j < |gs| {
        assert r[j] == gs[j];
        assert !GroupHasKey(KeyOf(x))(gs[j]);
        OtherGroupUnchanged(s, gs[j], x);
      }
    }
  }

  /** After visiting `x`, with a new last group for its key, every visited unit's key has a group. */
  lemma {:induction false} NewCovers(s: seq<Item>, gs: seq<Group>, x: Item)
    requires Covers(s, gs)
    ensures Covers(s + [x], gs + [Group(x, 1)])
  {
    var s' := s + [x];
    var r := gs + [Group(x, 1)];
    forall i | 0 <= i < |s'| ensures FirstIndex(GroupHasKey(KeyOf(s'[i])), r) < |r| {
      var m := if i < |s| then FirstIndex(GroupHasKey(KeyOf(s[i])), gs) else |gs|;
      assert GroupHasKey(KeyOf(s'[i]))(r[m]);
      FirstIndexAtMost(GroupHasKey(KeyOf(s'[i])), r, m);
    }
  }

  /** The loop step for a unit whose key has no group yet: it becomes the representative of a new last group. */
  lemma {:induction false} AbsorbNew(s: seq<Item>, gs: seq<Group>, x: Item)
    requires Summarises(s, gs)
    requires FirstIndex(GroupHasKey(KeyOf(x)), gs) == |gs|
    ensures Summarises(s + [x], Absorb(gs, x))
  {
    var g := Group(x, 1);
    AbsorbMissing(gs, x);
    MissingKeyUnseen(s, gs, x);
    NewKeyKeepsDistinct(gs, g);
    NewRepsCounts(s, gs, x);
    NewCovers(s, gs, x);
    SumSnoc(gs, g);
  }

  /** One loop step keeps the summary true of the visited prefix. */
  lemma {:induction false} AbsorbSummarises(s: seq<Item>, gs: seq<Group>, x: Item)
    requires Summarises(s, gs)
    ensures Summarises(s + [x], Absorb(gs, x))
  {
    if FirstIndex(GroupHasKey(KeyOf(x)), gs) < |gs| {
      AbsorbExisting(s, gs, x);
    } else {
      AbsorbNew(s, gs, x);
    }
  }

  /** The groups built from any sequence of units summarise it. */
  lemma {:induction false} GroupsOfSummarises(s: seq<Item>)
    ensures Summarises(s, GroupsOf(s))
    decreases |s|
  {
    if s != [] {
      var init, x := s[..|s| - 1], s[|s| - 1];
      assert s == init + [x];
      GroupsOfSummarises(init);
      AbsorbSummarises(init, GroupsOf(init), x);
    }
  }

  // ---------------------------------------------------------------------------------------------
  // Sorting by representative name

  /** Groups in ascending order of representative name. */
  predicate SortedByName(gs: seq<Group>)
  {
    forall i, j :: 0 <= i < j < |gs| ==> LexLessEq(gs[i].item.name, gs[j].item.name)
  }

  /** A group no later by name than the head of a sorted list can go in front of it. */
  lemma {:induction false} FrontKeepsSorted(g: Group, t: seq<Group>)
    requires t != [] ==> LexLessEq(g.item.name, t[0].item.name)
    ensures SortedByName(t) ==> SortedByName([g] + t)
  {
    if SortedByName(t) {
      forall k | 0 <= k < |t| ensures LexLessEq(g.item.name, t[k].item.name) {
        if k > 0 {
          LexTransitive(g.item.name, t[0].item.name, t[k].item.name);
        }
      }
      assert forall i :: 0 < i <= |t| ==> ([g] + t)[i] == t[i - 1];
    }
  }

  /** A head no later by name than any element of a sorted list, which holds the tail and `g`, goes in front. */
  lemma {:induction false} ConsKeepsSorted(h: Group, g: Group, tail: seq<Group>, rest: seq<Group>)
    requires SortedByName(rest) && multiset(rest) == multiset(tail) + multiset{g}
    requires LexLessEq(h.item.name, g.item.name)
    requires forall k :: 0 <= k < |tail| ==> LexLessEq(h.item.name, tail[k].item.name)
    ensures SortedByName([h] + rest)
  {
    forall j | 0 <= j < |rest| ensures LexLessEq(h.item.name, rest[j].item.name) {
      assert rest[j] in multiset(rest);
      if rest[j] != g {
        assert rest[j] in multiset(tail);
        var k :| 0 <= k < |tail| && tail[k] == rest[j];
      }
    }
    assert forall i :: 0 < i <= |rest| ==> ([h] + rest)[i] == rest[i - 1];
  }

  /** The recursive step of the insertion keeps a sorted list sorted. */
  lemma {:induction false} InsertStepKeepsSorted(g: Group, t: seq<Group>, rest: seq<Group>)
    requires t != [] && !LexLessEq(g.item.name, t[0].item.name)
    requires multiset(rest) == multiset(t[1..]) + multiset{g}
    requires SortedByName(t[1..]) ==> SortedByName(rest)
    ensures SortedByName(t) ==> SortedByName([t[0]] + rest)
  {
    if SortedByName(t) {
      LexTotal(g.item.name, t[0].item.name);
      assert forall k :: 0 <= k < |t[1..]| ==> t[1..][k] == t[k + 1];
      ConsKeepsSorted(t[0], g, t[1..], rest);
    }
  }

  /** Insert `g` before the first group whose name is not smaller, so that it precedes the groups with an equal
      name that came after it: the insertion step of a stable sort. */
  function InsertByName(g: Group, t: seq<Group>): (r: seq<Group>)
    ensures |r| == |t| + 1
    ensures multiset(r) == multiset(t) + multiset{g}
    ensures SortedByName(t) ==> SortedByName(r)
  {
    if t == [] || LexLessEq(g.item.name, t[0].item.name) then
      FrontKeepsSorted(g, t);
      [g] + t
    else
      var rest := InsertByName(g, t[1..]);
      assert t == [t[0]] + t[1..];
      assert SortedByName(t) ==> SortedByName(t[1..]);
      InsertStepKeepsSorted(g, t, rest);
      [t[0]] + rest
  }

  /** `Array.prototype.sort` with the comparator `a.item.name.localeCompare(b.item.name)`, which is stable. */
  function SortByName(gs: seq<Group>): (r: seq<Group>)
    ensures |r| == |gs|
    ensures multiset(r) == multiset(gs)
    ensures SortedByName(r)
  {
    if gs == [] then []
    else
      assert gs == [gs[0]] + gs[1..];
      InsertByName(gs[0], SortByName(gs[1..]))
  }

  lemma {:induction false} SumInsert(g: Group, t: seq<Group>)
    ensures SumCounts(InsertByName(g, t)) == g.count + SumCounts(t)
  {
    if t != [] && !LexLessEq(g.item.name, t[0].item.name) {
      SumInsert(g, t[1..]);
    }
  }

  /** Sorting leaves the total of the counts unchanged. */
  lemma {:induction false} SumSort(gs: seq<Group>)
    ensures SumCounts(SortByName(gs)) == SumCounts(gs)
  {
    if gs != [] {
      SumSort(gs[1..]);
      SumInsert(gs[0], SortByName(gs[1..]));
    }
  }

  /** Inserting a group whose key is new keeps keys distinct. */
  lemma {:induction false} InsertKeepsDistinct(g: Group, t: seq<Group>)
    requires DistinctKeys(t)
    requires forall h :: h in t ==> KeyOf(h.item) != KeyOf(g.item)
    ensures DistinctKeys(InsertByName(g, t))
  {
    if t != [] && !LexLessEq(g.item.name, t[0].item.name) {
      var rest := InsertByName(g, t[1..]);
      InsertKeepsDistinct(g, t[1..]);
      forall j | 0 <= j < |rest| ensures KeyOf(t[0].item) != KeyOf(rest[j].item) {
        assert rest[j] in multiset(rest);
        assert rest[j] == g || rest[j] in multiset(t[1..]);
        if rest[j] != g {
          var m :| 1 <= m < |t| && t[m] == rest[j];
        }
      }
      assert InsertByName(g, t) == [t[0]] + rest;
    } else if t != [] {
      assert InsertByName(g, t) == [g] + t;
    }
  }

  /** Sorting keeps keys distinct. */
  lemma {:induction false} SortKeepsDistinct(gs: seq<Group>)
    requires DistinctKeys(gs)
    ensures DistinctKeys(SortByName(gs))
  {
    if gs != [] {
      SortKeepsDistinct(gs[1..]);
      forall h | h in SortByName(gs[1..]) ensures KeyOf(h.item) != KeyOf(gs[0].item) {
        assert h in multiset(SortByName(gs[1..]));
        var m :| 0 <= m < |gs[1..]| && gs[1..][m] == h;
        assert gs[m + 1] == h;
      }
      InsertKeepsDistinct(gs[0], SortByName(gs[1..]));
    }
  }

  // ---------------------------------------------------------------------------------------------
  // The grouped list the screen offers

  /** `availableItemsGrouped`: the groups of the Available units, sorted by representative name. */
  function Grouped(items: seq<Item>): seq<Group>
  {
    SortByName(GroupsOf(AvailableUnits(items)))
  }

  /** What one offered group says: its representative is the first Available unit with its key, and its count
      is the number of Available units with that key, at least one. */
  predicate DescribesAvailable(items: seq<Item>, g: Group)
  {
    var avail := AvailableUnits(items);
    FirstIndex(ItemHasKey(KeyOf(g.item)), avail) < |avail|
    && g.item == avail[FirstIndex(ItemHasKey(KeyOf(g.item)), avail)]
    && g.count == Count(ItemHasKey(KeyOf(g.item)), avail)
  }

  lemma {:induction false} GroupsOfDistinct(s: seq<Item>)
    ensures DistinctKeys(GroupsOf(s))
  {
    GroupsOfSummarises(s);
  }

  lemma {:induction false} GroupsOfRepresentatives(s: seq<Item>)
    ensures FirstRepresentatives(s, GroupsOf(s)) && CountsMatch(s, GroupsOf(s))
  {
    GroupsOfSummarises(s);
  }

  lemma {:induction false} GroupsOfCovers(s: seq<Item>)
    ensures Covers(s, GroupsOf(s))
  {
    GroupsOfSummarises(s);
  }

  lemma {:induction false} GroupsOfSum(s: seq<Item>)
    ensures SumCounts(GroupsOf(s)) == |s|
  {
    GroupsOfSummarises(s);
  }

  /** Every group built from the Available units describes them. */
  lemma {:induction false} GroupsDescribeAvailable(items: seq<Item>)
    ensures forall g :: g in GroupsOf(AvailableUnits(items)) ==>
      DescribesAvailable(items, g) && g.item in items && g.item.status == Available && g.count >= 1
  {
    var avail := AvailableUnits(items);
    var gs := GroupsOf(avail);
    GroupsOfRepresentatives(avail);
    forall g | g in gs
      ensures DescribesAvailable(items, g) && g.item in items && g.item.status == Available && g.count >= 1
    {
      var j :| 0 <= j < |gs| && gs[j] == g;
      var m := FirstIndex(ItemHasKey(KeyOf(g.item)), avail);
      assert avail[m] in avail;
      assert ItemHasKey(KeyOf(g.item))(avail[m]);
    }
  }

  /** A key that has a group still has one after sorting. */
  lemma {:induction false} SortKeepsKeys(gs: seq<Group>, key: string)
    requires FirstIndex(GroupHasKey(key), gs) < |gs|
    ensures FirstIndex(GroupHasKey(key), SortByName(gs)) < |SortByName(gs)|
  {
    var r := SortByName(gs);
    var m := FirstIndex(GroupHasKey(key), gs);
    assert gs[m] in multiset(r);
    var j :| 0 <= j < |r| && r[j] == gs[m];
    FirstIndexAtMost(GroupHasKey(key), r, j);
  }

  lemma {:induction false} GroupedDescribe(items: seq<Item>)
    ensures forall g :: g in Grouped(items) ==>
      DescribesAvailable(items, g) && g.item in items && g.item.status == Available && g.count >= 1
  {
    GroupsDescribeAvailable(items);
    var gs := GroupsOf(AvailableUnits(items));
    assert forall g :: g in Grouped(items) ==> g in multiset(gs);
  }

  lemma {:induction false} GroupedCovers(items: seq<Item>)
    ensures forall it :: it in items && it.status == Available ==>
      FirstIndex(GroupHasKey(KeyOf(it)), Grouped(items)) < |Grouped(items)|
  {
    var avail := AvailableUnits(items);
    var gs := GroupsOf(avail);
    GroupsOfCovers(avail);
    forall it | it in items && it.status == Available
      ensures FirstIndex(GroupHasKey(KeyOf(it)), Grouped(items)) < |Grouped(items)|
    {
      var i :| 0 <= i < |avail| && avail[i] == it;
      SortKeepsKeys(gs, KeyOf(it));
    }
  }

  /** The offered groups: each describes the Available units with its key, is represented by an Available unit
      of the inventory and counts at least one; no two share a key; they are in name order; every Available
      unit's key is offered; and the counts add up to the number of Available units. */
  lemma {:induction false} GroupedSummarisesAvailable(items: seq<Item>)
    ensures forall g :: g in Grouped(items) ==>
      DescribesAvailable(items, g) && g.item in items && g.item.status == Available && g.count >= 1
    ensures DistinctKeys(Grouped(items))
    ensures SortedByName(Grouped(items))
    ensures forall it :: it in items && it.status == Available ==>
      FirstIndex(GroupHasKey(KeyOf(it)), Grouped(items)) < |Grouped(items)|
    ensures SumCounts(Grouped(items)) == Dashboard.CountStatus(items, Available)
  {
    var gs := GroupsOf(AvailableUnits(items));
    GroupedDescribe(items);
    GroupsOfDistinct(AvailableUnits(items));
    SortKeepsDistinct(gs);
    GroupedCovers(items);
    GroupsOfSum(AvailableUnits(items));
    SumSort(gs);
  }

  /** The key joins name and category with a `-` that may also occur inside either, so units that differ in
      both name and category can land in one group and be offered under the first one's name. */
  lemma KeyCollision()
    ensures var a := Item("u1", "Drill-Bit", "Set", Available, None, "t0", None);
            var b := Item("u2", "Drill", "Bit-Set", Available, None, "t0", None);
            a.name != b.name && a.category != b.category && GroupsOf([a, b]) == [Group(a, 2)]
  {
    var a := Item("u1", "Drill-Bit", "Set", Available, None, "t0", None);
    var b := Item("u2", "Drill", "Bit-Set", Available, None, "t0", None);
    assert KeyOf(a) == KeyOf(b);
    assert [a, b][..1] == [a];
    assert [a][..0] == [];
    assert GroupsOf([a]) == [Group(a, 1)];
  }

  /** The `groups` record in key-insertion order: `order` lists its keys and each key's entry is the group at
      that position. */
  predicate TableHolds(gs: seq<Group>, table: map<string, Group>, order: seq<string>)
  {
    |order| == |gs|
    && (forall j :: 0 <= j < |order| ==> order[j] == KeyOf(gs[j].item) && order[j] in table && table[order[j]] == gs[j])
    && (forall key :: key in table ==> key in order)
  }

  /** The `forEach` body for a unit whose key is not in the record yet: the entry opened with count 0 and
      then incremented is the new last group of the spec. */
  lemma {:induction false} TableStepNew(gs: seq<Group>, table: map<string, Group>, order: seq<string>, x: Item)
    requires TableHolds(gs, table, order) && KeyOf(x) !in table
    ensures Absorb(gs, x) == gs + [Group(x, 1)]
    ensures var t1 := table[KeyOf(x) := Group(x, 0)];
            TableHolds(gs + [Group(x, 1)], t1[KeyOf(x) := Group(t1[KeyOf(x)].item, t1[KeyOf(x)].count + 1)],
                       order + [KeyOf(x)])
  {
    var key := KeyOf(x);
    forall j | 0 <= j < |gs| ensures !GroupHasKey(key)(gs[j]) {
      assert order[j] in table;
    }
    var o1 := order + [key];
    var t2 := table[key := Group(x, 1)];
    assert table[key := Group(x, 0)][key := Group(x, 1)] == t2;
    forall k | k in t2 ensures k in o1 {
      if k != key {
        assert k in table;
      }
    }
  }

  /** The `forEach` body for a unit whose key is in the record: incrementing the entry is incrementing the
      spec's group with that key. */
  lemma {:induction false} TableStepExisting(gs: seq<Group>, table: map<string, Group>, order: seq<string>, x: Item)
    requires TableHolds(gs, table, order) && DistinctKeys(gs) && KeyOf(x) in table
    ensures FirstIndex(GroupHasKey(KeyOf(x)), gs) < |gs|
    ensures var k := FirstIndex(GroupHasKey(KeyOf(x)), gs);
            Absorb(gs, x) == gs[k := Group(gs[k].item, gs[k].count + 1)]
            && TableHolds(gs[k := Group(gs[k].item, gs[k].count + 1)],
                          table[KeyOf(x) := Group(table[KeyOf(x)].item, table[KeyOf(x)].count + 1)], order)
  {
    var key := KeyOf(x);
    var j :| 0 <= j < |order| && order[j] == key;
    assert GroupHasKey(key)(gs[j]);
    FirstIndexAtMost(GroupHasKey(key), gs, j);
    var k := FirstIndex(GroupHasKey(key), gs);
    assert KeyOf(gs[k].item) == key;
    assert k == j;
    forall i | 0 <= i < |order| && i != k ensures order[i] != key {
      if i < k {
        assert KeyOf(gs[i].item) != KeyOf(gs[k].item);
      } else {
        assert KeyOf(gs[k].item) != KeyOf(gs[i].item);
      }
    }
  }

  /** `Object.values(groups)`: the entries in key-insertion order. */
  function ValuesOf(table: map<string, Group>, order: seq<string>): (r: seq<Group>)
    requires forall key :: key in order ==> key in table
    ensures |r| == |order|
    ensures forall j :: 0 <= j < |order| ==> r[j] == table[order[j]]
  {
    seq(|order|, j requires 0 <= j < |order| => table[order[j]])
  }

  /** Read in key-insertion order, the record is the group sequence. */
  lemma {:induction false} ValuesMatch(gs: seq<Group>, table: map<string, Group>, order: seq<string>)
    requires TableHolds(gs, table, order)
    ensures forall key :: key in order ==> key in table
    ensures ValuesOf(table, order) == gs
  {
  }

  /** The `forEach` over the Available units, as written: it fills a record keyed by name and category,
      opening an entry with count 0 and then incrementing it; `Object.values` then reads the record in
      key-insertion order. */
  method CountGroups(available: seq<Item>) returns (groups: seq<Group>)
    ensures groups == GroupsOf(available)
  {
    var table: map<string, Group> := map[];
    var order: seq<string> := [];
    ghost var gs: seq<Group> := [];
    for i := 0 to |available|
      invariant gs == GroupsOf(available[..i])
      invariant TableHolds(gs, table, order)
    {
      var item := available[i];
      var key := KeyOf(item);
      TakeSnoc(available, i);
      GroupsOfSnoc(available[..i], item);
      if key !in table {
        TableStepNew(gs, table, order, item);
        table := table[key := Group(item, 0)];
        order := order + [key];
      } else {
        GroupsOfDistinct(available[..i]);
        TableStepExisting(gs, table, order, item);
      }
      table := table[key := Group(table[key].item, table[key].count + 1)];
      gs := Absorb(gs, item);
    }
    assert available[..|available|] == available;
    ValuesMatch(gs, table, order);
    groups := ValuesOf(table, order);
  }

  /** The `useMemo` body: filter the Available units, group them, sort the groups by name. */
  method AvailableItemsGrouped(items: seq<Item>) returns (groups: seq<Group>)
    ensures groups == Grouped(items)
  {
    var available := AvailableUnits(items);
    var counted := CountGroups(available);
    groups := SortByName(counted);
  }

  // ---------------------------------------------------------------------------------------------
  // The submit handler

  const MaxQuantity: int := 100

  /** `availableItemsGrouped.find(g => g.item.id === id)`. */
  function FindGroup(grouped: seq<Group>, id: string): (r: Option<Group>)
    ensures r.None? <==> forall g :: g in grouped ==> g.item.id != id
    ensures r.Some? ==> r.value in grouped && r.value.item.id == id
    ensures r.Some? ==> exists k :: 0 <= k < |grouped| && r.value == grouped[k]
                                    && forall m :: 0 <= m < k ==> grouped[m].item.id != id
  {
    var k := FirstIndex((g: Group) => g.item.id == id, grouped);
    if k < |grouped| then Some(grouped[k]) else None
  }

  predicate NotAngle(c: char)
  {
    c != '<' && c != '>'
  }

  /** `newItemName.replace(/[<>]/g, '').trim()`. */
  function CleanName(name: string): (r: string)
    ensures forall c :: c in r ==> c != '<' && c != '>' && c in name
    ensures r != "" ==> !IsWhitespace(r[0]) && !IsWhitespace(r[|r| - 1])
    ensures r == "" <==> AllWhitespace(Filter(NotAngle, name))
    ensures var f := Filter(NotAngle, name);
      exists i, j :: 0 <= i <= j <= |f| && r == f[i..j] && AllWhitespace(f[..i]) && AllWhitespace(f[j..])
  {
    Trim(Filter(NotAngle, name))
  }

  /** What one submit does: which message it shows, and which callback it calls with which arguments. */
  datatype SubmitOutcome =
    | QuantityRejected
    | NoInstructor
    | ManualIssued(name: string, category: string, instructorName: string, quantity: int)
    | CheckoutIssued(itemId: string, instructorName: string, quantity: int)
    | OverRequest(requested: int, available: nat)
    | Ignored

  /** The decision `handleSubmit` takes from the form fields, the offered groups and the roster. */
  function DecideSubmit(quantity: int, instructorId: string, isManualMode: bool, newItemName: string,
                        newItemCategory: string, selectedItemId: string,
                        grouped: seq<Group>, roster: seq<Instructor>): (r: SubmitOutcome)
    ensures r.QuantityRejected? <==> quantity <= 0 || quantity > MaxQuantity
    ensures r.NoInstructor? <==> 1 <= quantity <= MaxQuantity && Custody.FindInstructor(roster, instructorId).None?
    ensures r.Ignored? <==>
      1 <= quantity <= MaxQuantity && Custody.FindInstructor(roster, instructorId).Some?
      && (if isManualMode then CleanName(newItemName) == "" || newItemCategory == "" else selectedItemId == "")
    ensures r.OverRequest? ==>
      !isManualMode && selectedItemId != "" && FindGroup(grouped, selectedItemId).Some?
      && r.requested == quantity && r.available == FindGroup(grouped, selectedItemId).value.count < quantity
  {
    if quantity <= 0 || quantity > MaxQuantity then QuantityRejected
    else
      var instructor := Custody.FindInstructor(roster, instructorId);
      if instructor.None? then NoInstructor
      else
        var cleanName := CleanName(newItemName);
        if isManualMode then
          if cleanName != "" && newItemCategory != "" then
            ManualIssued(cleanName, newItemCategory, instructor.value.name, quantity)
          else Ignored
        else if selectedItemId != "" then
          var group := FindGroup(grouped, selectedItemId);
          if group.Some? && quantity > group.value.count then OverRequest(quantity, group.value.count)
          else CheckoutIssued(selectedItemId, instructor.value.name, quantity)
        else Ignored
  }

  predicate CallsBack(o: SubmitOutcome)
  {
    o.ManualIssued? || o.CheckoutIssued?
  }

  /** The quantity range is checked before anything else: a quantity outside [1, 100] is rejected whatever
      the other fields hold, and only such a quantity is rejected for range. */
  lemma QuantityCheckedFirst(quantity: int, instructorId: string, isManualMode: bool, newItemName: string,
                             newItemCategory: string, selectedItemId: string,
                             grouped: seq<Group>, roster: seq<Instructor>)
    ensures var o := DecideSubmit(quantity, instructorId, isManualMode, newItemName, newItemCategory,
                                  selectedItemId, grouped, roster);
            o.QuantityRejected? <==> quantity <= 0 || quantity > MaxQuantity
  {
  }

  /** No callback fires without a selected instructor of the roster, and the name passed is that instructor's. */
  lemma CallbackNamesSelectedInstructor(quantity: int, instructorId: string, isManualMode: bool, newItemName: string,
                                        newItemCategory: string, selectedItemId: string,
                                        grouped: seq<Group>, roster: seq<Instructor>)
    ensures var o := DecideSubmit(quantity, instructorId, isManualMode, newItemName, newItemCategory,
                                  selectedItemId, grouped, roster);
            CallsBack(o) ==>
              Custody.FindInstructor(roster, instructorId).Some?
              && o.instructorName == Custody.FindInstructor(roster, instructorId).value.name
              && 1 <= o.quantity <= MaxQuantity
  {
  }

  /** In catalogue mode a request above the selected group's count is refused with that count. */
  lemma OverRequestRefused(quantity: int, instructorId: string, newItemName: string, newItemCategory: string,
                           selectedItemId: string, grouped: seq<Group>, roster: seq<Instructor>)
    requires 1 <= quantity <= MaxQuantity && Custody.FindInstructor(roster, instructorId).Some?
    requires selectedItemId != "" && FindGroup(grouped, selectedItemId).Some?
    requires quantity > FindGroup(grouped, selectedItemId).value.count
    ensures DecideSubmit(quantity, instructorId, false, newItemName, newItemCategory, selectedItemId, grouped, roster)
         == OverRequest(quantity, FindGroup(grouped, selectedItemId).value.count)
  {
  }

  /** The stock check only applies to a current group representative: any other non-empty selection is passed
      to the check-out handler with no count check at all. */
  lemma UnknownSelectionSkipsCheck(quantity: int, instructorId: string, newItemName: string, newItemCategory: string,
                                   selectedItemId: string, grouped: seq<Group>, roster: seq<Instructor>)
    requires 1 <= quantity <= MaxQuantity && Custody.FindInstructor(roster, instructorId).Some?
    requires selectedItemId != "" && forall g :: g in grouped ==> g.item.id != selectedItemId
    ensures DecideSubmit(quantity, instructorId, false, newItemName, newItemCategory, selectedItemId, grouped, roster)
         == CheckoutIssued(selectedItemId, Custody.FindInstructor(roster, instructorId).value.name, quantity)
  {
  }

  /** A catalogue check-out of a representative never asks for more than the representative's group count. */
  lemma CheckoutWithinGroup(quantity: int, instructorId: string, newItemName: string, newItemCategory: string,
                            selectedItemId: string, grouped: seq<Group>, roster: seq<Instructor>)
    requires FindGroup(grouped, selectedItemId).Some?
    requires DecideSubmit(quantity, instructorId, false, newItemName, newItemCategory, selectedItemId,
                          grouped, roster).CheckoutIssued?
    ensures 1 <= quantity <= FindGroup(grouped, selectedItemId).value.count
  {
  }

  /** ... and so never more units than are Available with the representative's name and category. */
  lemma {:induction false} CheckoutWithinStock(items: seq<Item>, quantity: int, instructorId: string, newItemName: string,
                            newItemCategory: string, selectedItemId: string, roster: seq<Instructor>)
    requires FindGroup(Grouped(items), selectedItemId).Some?
    requires DecideSubmit(quantity, instructorId, false, newItemName, newItemCategory, selectedItemId,
                          Grouped(items), roster).CheckoutIssued?
    ensures var g := FindGroup(Grouped(items), selectedItemId).value;
            quantity <= Count(ItemHasKey(KeyOf(g.item)), AvailableUnits(items))
  {
    CheckoutWithinGroup(quantity, instructorId, newItemName, newItemCategory, selectedItemId, Grouped(items), roster);
    GroupedDescribe(items);
  }

  /** An instant issue passes the name with every `<` and `>` removed and the surrounding whitespace trimmed,
      and fires only when that name and the category are non-empty. */
  lemma ManualIssueCleaned(quantity: int, instructorId: string, newItemName: string, newItemCategory: string,
                           selectedItemId: string, grouped: seq<Group>, roster: seq<Instructor>)
    ensures var o := DecideSubmit(quantity, instructorId, true, newItemName, newItemCategory, selectedItemId,
                                  grouped, roster);
            (o.ManualIssued? ==>
               o.name == CleanName(newItemName) && o.name != "" && o.category == newItemCategory && o.category != ""
               && (forall c :: c in o.name ==> c != '<' && c != '>'))
            && (1 <= quantity <= MaxQuantity && Custody.FindInstructor(roster, instructorId).Some? ==>
                  (o.ManualIssued? <==> CleanName(newItemName) != "" && newItemCategory != ""))
  {
  }

  /** The quantity field: `Math.min(100, Math.max(1, parseInt(value) || 1))`. */
  function ClampQuantity(parsed: Option<int>): (q: int)
    ensures 1 <= q <= MaxQuantity
    ensures parsed.Some? && 1 <= parsed.value <= MaxQuantity ==> q == parsed.value
    ensures parsed.Some? && parsed.value > MaxQuantity ==> q == MaxQuantity
    ensures parsed.None? || parsed.value < 1 ==> q == 1
  {
    var n := ParsedOrOne(parsed);
    var atLeastOne := if n > 1 then n else 1;
    if atLeastOne < MaxQuantity then atLeastOne else MaxQuantity
  }

  /** The form state of the check-out screen. */
  class CheckoutForm {
    var selectedItemId: string
    var selectedInstructorId: string
    var isManualMode: bool
    var newItemName: string
    var newItemCategory: string
    var quantity: int

    /** The quantity field always holds a value in [1, 100]. */
    predicate Valid()
      reads this
    {
      1 <= quantity <= MaxQuantity
    }

    constructor ()
      ensures Valid()
      ensures selectedItemId == "" && selectedInstructorId == "" && !isManualMode
      ensures newItemName == "" && newItemCategory == "" && quantity == 1
    {
      selectedItemId, selectedInstructorId, isManualMode := "", "", false;
      newItemName, newItemCategory, quantity := "", "", 1;
    }

    /** The quantity inputs' `onChange`. */
    method EditQuantity(parsed: Option<int>)
      modifies this
      ensures Valid()
      ensures quantity == ClampQuantity(parsed)
      ensures selectedItemId == old(selectedItemId) && selectedInstructorId == old(selectedInstructorId)
      ensures isManualMode == old(isManualMode)
      ensures newItemName == old(newItemName) && newItemCategory == old(newItemCategory)
    {
      quantity := ClampQuantity(parsed);
    }

    /** The manual-mode checkbox: switching mode resets the quantity to 1. */
    method SetManualMode(checked: bool)
      modifies this
      ensures Valid()
      ensures isManualMode == checked && quantity == 1
      ensures selectedItemId == old(selectedItemId) && selectedInstructorId == old(selectedInstructorId)
      ensures newItemName == old(newItemName) && newItemCategory == old(newItemCategory)
    {
      isManualMode := checked;
      quantity := 1;
    }

    /** `resetForm`: every field but the mode returns to its initial value. */
    method ResetForm()
      modifies this
      ensures Valid()
      ensures selectedItemId == "" && selectedInstructorId == "" && isManualMode == old(isManualMode)
      ensures newItemName == "" && newItemCategory == "" && quantity == 1
    {
      newItemName, newItemCategory := "", "";
      selectedItemId, selectedInstructorId := "", "";
      quantity := 1;
    }

    /** `handleSubmit`: decide on the current fields and the live groups; the form is reset exactly when a
        callback fires. */
    method HandleSubmit(items: seq<Item>, roster: seq<Instructor>) returns (outcome: SubmitOutcome)
      modifies this
      ensures outcome == DecideSubmit(old(quantity), old(selectedInstructorId), old(isManualMode), old(newItemName),
                                      old(newItemCategory), old(selectedItemId), Grouped(items), roster)
      ensures CallsBack(outcome) ==>
        selectedItemId == "" && selectedInstructorId == "" && newItemName == "" && newItemCategory == ""
        && quantity == 1 && isManualMode == old(isManualMode)
      ensures !CallsBack(outcome) ==>
        selectedItemId == old(selectedItemId) && selectedInstructorId == old(selectedInstructorId)
        && newItemName == old(newItemName) && newItemCategory == old(newItemCategory)
        && quantity == old(quantity) && isManualMode == old(isManualMode)
      ensures old(Valid()) ==> Valid() && !outcome.QuantityRejected?
    {
      var grouped := AvailableItemsGrouped(items);
      outcome := DecideSubmit(quantity, selectedInstructorId, isManualMode, newItemName, newItemCategory,
                              selectedItemId, grouped, roster);
      if CallsBack(outcome) {
        ResetForm();
      }
    }
  }
}
