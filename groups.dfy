/**
 * The search list's bookkeeping: one search item per listed option (its
 * `option-index` data and `collapsed` class) and one group item per optgroup
 * (its `children-indexes` data and `collapsed`/`group-completed` classes),
 * built by `composeListItems` and patched by `removeItem`.
 */
module Groups {
  import opened Wrappers
  import opened OptionStore

  /** A search-list item: the index of the option it stands for and whether
      it carries the `collapsed` class. */
  datatype SearchItem = SearchItem(option: int, collapsed: bool)

  /** A search-list group: the option indexes it claims and its
      `group-collapsed` and `group-completed` classes. */
  datatype UiGroup = UiGroup(children: seq<int>, collapsed: bool, completed: bool)

  /** The option at `k` gets a search item when the list is composed: it is
      active and, with `excludeDisabled`, not disabled. */
  predicate Listed(opts: seq<SelectOption>, groups: seq<OptGroup>, start: nat, excludeDisabled: bool, k: int)
  {
    start <= k < |opts| && !(excludeDisabled && IsOptionDisabled(opts[k], groups))
  }

  /** Search items in strictly increasing option order. */
  predicate Increasing(items: seq<SearchItem>)
  {
    forall i, j :: 0 <= i < j < |items| ==> items[i].option < items[j].option
  }

  /** No item carries the `collapsed` class. */
  predicate Uncollapsed(items: seq<SearchItem>)
  {
    forall i :: 0 <= i < |items| ==> !items[i].collapsed
  }

  /** Some search item stands for the option at `k`. */
  predicate HasItem(items: seq<SearchItem>, k: int)
  {
    exists i :: 0 <= i < |items| && items[i].option == k
  }

  /** The search items `composeListItems` creates: one uncollapsed item
      per listed option, in document order. */
  function ComposeItems(opts: seq<SelectOption>, groups: seq<OptGroup>, start: nat, excludeDisabled: bool): (r: seq<SearchItem>)
    ensures forall i :: 0 <= i < |r| ==> Listed(opts, groups, start, excludeDisabled, r[i].option) && !r[i].collapsed
    ensures forall k :: Listed(opts, groups, start, excludeDisabled, k) ==> HasItem(r, k)
    ensures Increasing(r)
    decreases |opts|
  {
    if opts == [] then []
    else
      var n := |opts| - 1;
      var r := ComposeItems(opts[..n], groups, start, excludeDisabled);
      ListedPrefix(opts, groups, start, excludeDisabled);
      if Listed(opts, groups, start, excludeDisabled, n) then
        AppendItem(r, n);
        r + [SearchItem(n, false)]
      else r
  }

  /** The options listed among the first `|opts| - 1` are the listed ones
      before the last. */
  lemma ListedPrefix(opts: seq<SelectOption>, groups: seq<OptGroup>, start: nat, excludeDisabled: bool)
    requires opts != []
    ensures forall k :: Listed(opts[..|opts| - 1], groups, start, excludeDisabled, k) <==>
      k < |opts| - 1 && Listed(opts, groups, start, excludeDisabled, k)
  {
    var n := |opts| - 1;
    PrefixIndex(opts);
  }

  /** An uncollapsed item for an option past every item's keeps the order
      and loses no item. */
  lemma AppendItem(r: seq<SearchItem>, n: int)
    requires Increasing(r) && forall i :: 0 <= i < |r| ==> r[i].option < n
    ensures var r' := r + [SearchItem(n, false)];
      && Increasing(r')
      && (forall i :: 0 <= i < |r| ==> r'[i] == r[i])
      && r'[|r|] == SearchItem(n, false)
      && (forall k :: HasItem(r', k) <==> HasItem(r, k) || k == n)
  {
    var r' := r + [SearchItem(n, false)];
    forall k | HasItem(r, k) ensures HasItem(r', k) {
      var i :| 0 <= i < |r| && r[i].option == k;
      assert r'[i].option == k;
    }
    assert r'[|r|].option == n;
  }

  /** The indexes of the options inside optgroup `g`, in document order. */
  function Members(opts: seq<SelectOption>, g: nat): (r: seq<int>)
    ensures forall j :: 0 <= j < |r| ==> 0 <= r[j] < |opts| && opts[r[j]].group == Some(g)
    ensures forall k :: 0 <= k < |opts| && opts[k].group == Some(g) ==> k in r
    decreases |opts|
  {
    if opts == [] then []
    else
      var n := |opts| - 1;
      var init := opts[..n];
      PrefixIndex(opts);
      var r := Members(init, g);
      if opts[n].group == Some(g) then r + [n] else r
  }

  /** Some search item stands for one of `children`. */
  predicate HasItemIn(items: seq<SearchItem>, children: seq<int>)
  {
    exists i :: 0 <= i < |items| && items[i].option in children
  }

  /** Optgroup `g` gets a group item: it is still in the document and at
      least one of its options has a search item. */
  predicate Placed(opts: seq<SelectOption>, groups: seq<OptGroup>, items: seq<SearchItem>, g: nat)
    requires g < |groups|
  {
    groups[g].present && HasItemIn(items, Members(opts, g))
  }

  /** The optgroups among the first `n` that get a group item, each once
      and in document order. */
  function GroupOrigins(opts: seq<SelectOption>, groups: seq<OptGroup>, items: seq<SearchItem>, n: nat): (r: seq<nat>)
    requires n <= |groups|
    ensures forall p :: 0 <= p < |r| ==> r[p] < n && Placed(opts, groups, items, r[p])
    ensures forall p, q :: 0 <= p < q < |r| ==> r[p] < r[q]
  {
    if n == 0 then []
    else
      var r := GroupOrigins(opts, groups, items, n - 1);
      if Placed(opts, groups, items, n - 1) then r + [n - 1] else r
  }

  /** Every optgroup that gets a group item is among `GroupOrigins`. */
  lemma {:induction false} GroupOriginsComplete(opts: seq<SelectOption>, groups: seq<OptGroup>, items: seq<SearchItem>, n: nat)
    requires n <= |groups|
    ensures forall g :: 0 <= g < n && Placed(opts, groups, items, g) ==> g in GroupOrigins(opts, groups, items, n)
  {
    if n > 0 {
      GroupOriginsComplete(opts, groups, items, n - 1);
      var r := GroupOrigins(opts, groups, items, n - 1);
      if Placed(opts, groups, items, n - 1) {
        assert GroupOrigins(opts, groups, items, n) == r + [n - 1];
        assert forall g :: g in r ==> g in r + [n - 1];
      }
    }
  }

  /** The group items `composeListItems` inserts, for the first `n`
      optgroups: one uncollapsed, uncompleted group item per optgroup of
      `GroupOrigins`, in that order, listing the optgroup's options (a group
      with no search item is never placed in the list). */
  function ComposeGroups(opts: seq<SelectOption>, groups: seq<OptGroup>, items: seq<SearchItem>, n: nat): (r: seq<UiGroup>)
    requires n <= |groups|
    ensures |r| <= n
    ensures forall p :: 0 <= p < |r| ==>
      !r[p].collapsed && !r[p].completed && HasItemIn(items, r[p].children)
      && exists g :: 0 <= g < n && groups[g].present && r[p].children == Members(opts, g)
    ensures var o := GroupOrigins(opts, groups, items, n);
      |r| == |o| && forall p :: 0 <= p < |r| ==> r[p] == UiGroup(Members(opts, o[p]), false, false)
  {
    if n == 0 then []
    else
      var r := ComposeGroups(opts, groups, items, n - 1);
      var m := Members(opts, n - 1);
      if groups[n - 1].present && HasItemIn(items, m) then r + [UiGroup(m, false, false)] else r
  }

  /** Every optgroup that gets a group item has one, at the position of
      its rank among such optgroups, and no other optgroup has one there. */
  lemma ComposeGroupsComplete(opts: seq<SelectOption>, groups: seq<OptGroup>, items: seq<SearchItem>, n: nat, g: nat)
    requires n <= |groups| && g < n && Placed(opts, groups, items, g)
    ensures exists p ::
      && 0 <= p < |ComposeGroups(opts, groups, items, n)| && GroupOrigins(opts, groups, items, n)[p] == g
      && ComposeGroups(opts, groups, items, n)[p] == UiGroup(Members(opts, g), false, false)
  {
    GroupOriginsComplete(opts, groups, items, n);
    var o := GroupOrigins(opts, groups, items, n);
    var p :| 0 <= p < |o| && o[p] == g;
    assert ComposeGroups(opts, groups, items, n)[p] == UiGroup(Members(opts, g), false, false);
  }

  // ----- removeItem: the search items -----

  /** The items after the first one for `index` have their option index
      lowered by one, and every item for `index` is removed; `seen` says
      whether an item for `index` came before. */
  function Reindex(items: seq<SearchItem>, index: int, seen: bool): (r: seq<SearchItem>)
    ensures |r| <= |items|
    decreases |items|
  {
    if items == [] then []
    else if items[0].option == index then Reindex(items[1..], index, true)
    else [if seen then items[0].(option := items[0].option - 1) else items[0]] + Reindex(items[1..], index, seen)
  }

  /** All items with their option index lowered by one. */
  function Shifted(items: seq<SearchItem>): (r: seq<SearchItem>)
    ensures |r| == |items|
    ensures forall i :: 0 <= i < |r| ==> r[i] == items[i].(option := items[i].option - 1)
  {
    if items == [] then [] else [items[0].(option := items[0].option - 1)] + Shifted(items[1..])
  }

  /** Without an item for `index`, nothing is re-indexed. */
  lemma {:induction false} ReindexAbsent(items: seq<SearchItem>, index: int)
    requires !HasItem(items, index)
    ensures Reindex(items, index, false) == items
    decreases |items|
  {
    if items != [] {
      assert items[0].option != index;
      assert !HasItem(items[1..], index) by {
        forall i | 0 <= i < |items| - 1 ensures items[1..][i].option != index {
          assert items[1..][i] == items[i + 1];
        }
      }
      ReindexAbsent(items[1..], index);
      assert items == [items[0]] + items[1..];
    }
  }

  lemma {:induction false} ReindexSeenNone(items: seq<SearchItem>, index: int)
    requires forall i :: 0 <= i < |items| ==> items[i].option != index
    ensures Reindex(items, index, true) == Shifted(items)
    decreases |items|
  {
    if items != [] {
      assert forall i :: 0 <= i < |items| - 1 ==> items[1..][i] == items[i + 1];
      ReindexSeenNone(items[1..], index);
    }
  }

  lemma IncreasingTail(items: seq<SearchItem>)
    requires Increasing(items) && items != []
    ensures Increasing(items[1..])
  {
    forall i, j | 0 <= i < j < |items| - 1 ensures items[1..][i].option < items[1..][j].option {
      assert items[1..][i] == items[i + 1] && items[1..][j] == items[j + 1];
    }
  }

  /** For items in increasing order with one for `index` at position `p`:
      the items before it stay, it goes, and every later item's option
      index drops by one. */
  lemma {:induction false} ReindexAt(items: seq<SearchItem>, index: int, p: nat)
    requires Increasing(items) && p < |items| && items[p].option == index
    ensures Reindex(items, index, false) == items[..p] + Shifted(items[p + 1..])
    decreases |items|
  {
    var rest := items[1..];
    if p == 0 {
      assert forall i :: 0 <= i < |rest| ==> rest[i] == items[i + 1] && items[0].option < rest[i].option;
      ReindexSeenNone(rest, index);
    } else {
      assert items[0].option < items[p].option == rest[p - 1].option;
      IncreasingTail(items);
      ReindexAt(rest, index, p - 1);
      SliceTail(items, p);
    }
  }

  lemma SliceTail<T>(s: seq<T>, p: nat)
    requires 0 < p < |s|
    ensures s[..p] == [s[0]] + s[1..][..p - 1] && s[1..][p..] == s[p + 1..]
  {
    assert s[1..][..p - 1] == s[1..p];
  }

  /** Two strictly increasing sequences of uncollapsed items that stand for
      the same options are the same. */
  lemma {:induction false} IncreasingUnique(a: seq<SearchItem>, b: seq<SearchItem>)
    requires Increasing(a) && Increasing(b)
    requires Uncollapsed(a) && Uncollapsed(b)
    requires forall k :: HasItem(a, k) <==> HasItem(b, k)
    ensures a == b
    decreases |a| + |b|
  {
    if a != [] && b != [] {
      SameFirst(a, b);
      SameFirst(b, a);
      assert a[0] == b[0];
      IncreasingTail(a);
      IncreasingTail(b);
      SameTail(a, b);
      SameTail(b, a);
      IncreasingUnique(a[1..], b[1..]);
      assert a == [a[0]] + a[1..] && b == [b[0]] + b[1..];
    } else if a != [] {
      assert HasItem(a, a[0].option);
    } else if b != [] {
      assert HasItem(b, b[0].option);
    }
  }

  /** The first item of `a` stands for an option no smaller than `b`'s first. */
  lemma SameFirst(a: seq<SearchItem>, b: seq<SearchItem>)
    requires Increasing(b) && a != [] && b != []
    requires forall k :: HasItem(a, k) <==> HasItem(b, k)
    ensures b[0].option <= a[0].option
  {
    assert HasItem(a, a[0].option);
    var i :| 0 <= i < |b| && b[i].option == a[0].option;
  }

  /** With equal first options, what the tail of `a` stands for the tail of
      `b` stands for too. */
  lemma SameTail(a: seq<SearchItem>, b: seq<SearchItem>)
    requires Increasing(a) && Increasing(b) && a != [] && b != [] && a[0].option == b[0].option
    requires forall k :: HasItem(a, k) <==> HasItem(b, k)
    ensures forall k :: HasItem(a[1..], k) ==> HasItem(b[1..], k)
  {
    forall k | HasItem(a[1..], k) ensures HasItem(b[1..], k) {
      var x :| 0 <= x < |a| - 1 && a[1..][x].option == k;
      assert a[x + 1].option == k && k > a[0].option;
      assert HasItem(a, k);
      var y :| 0 <= y < |b| && b[y].option == k;
      assert b[1..][y - 1].option == k;
    }
  }

  /** After removing the option at `index`, an option is listed exactly
      when the one it came from was. */
  lemma ListedAfterRemove(opts: seq<SelectOption>, after: seq<SelectOption>, groups: seq<OptGroup>,
                          start: nat, excludeDisabled: bool, index: nat, k: int)
    requires index < |opts| && start <= index
    requires SameButSelection(after, opts[..index] + opts[index + 1..])
    ensures Listed(after, groups, start, excludeDisabled, k) <==>
      (k < index && Listed(opts, groups, start, excludeDisabled, k))
      || (k >= index && Listed(opts, groups, start, excludeDisabled, k + 1))
  {
    if 0 <= k < |after| {
      assert Strip(after[k]) == Strip((opts[..index] + opts[index + 1..])[k]);
      assert (opts[..index] + opts[index + 1..])[k] == if k < index then opts[k] else opts[k + 1];
    }
  }

  /** Dropping the item at `p` and lowering the later ones keeps the order. */
  lemma ShiftedIncreasing(items: seq<SearchItem>, p: nat)
    requires Increasing(items) && p < |items|
    ensures Increasing(items[..p] + Shifted(items[p + 1..]))
  {
    var r := items[..p] + Shifted(items[p + 1..]);
    forall i, j | 0 <= i < j < |r| ensures r[i].option < r[j].option {
      if j < p {
        assert r[i] == items[i] && r[j] == items[j];
      } else if i < p {
        assert r[i] == items[i] && r[j].option == items[j + 1].option - 1;
        assert items[i].option < items[p].option < items[j + 1].option;
      } else {
        assert r[i].option == items[i + 1].option - 1 && r[j].option == items[j + 1].option - 1;
      }
    }
  }

  lemma ShiftedAt(items: seq<SearchItem>, p: nat, r: seq<SearchItem>)
    requires p < |items| && r == items[..p] + Shifted(items[p + 1..])
    ensures |r| == |items| - 1
    ensures forall i :: 0 <= i < p ==> r[i] == items[i]
    ensures forall i :: p <= i < |r| ==> r[i] == items[i + 1].(option := items[i + 1].option - 1)
  {
    var a, s := items[..p], Shifted(items[p + 1..]);
    forall i | 0 <= i < p ensures r[i] == items[i] {
      assert r[i] == a[i];
    }
    forall i | p <= i < |r| ensures r[i] == items[i + 1].(option := items[i + 1].option - 1) {
      assert r[i] == s[i - p] && items[p + 1..][i - p] == items[i + 1];
    }
  }

  /** In increasing order, a smaller option index comes earlier. */
  lemma IncreasingIndex(items: seq<SearchItem>, i: nat, j: nat)
    requires Increasing(items) && i < |items| && j < |items| && items[i].option < items[j].option
    ensures i < j
  {
  }

  lemma ShiftedItemsFrom(items: seq<SearchItem>, index: int, p: nat, k: int)
    requires Increasing(items) && p < |items| && items[p].option == index
    requires HasItem(items[..p] + Shifted(items[p + 1..]), k)
    ensures (k < index && HasItem(items, k)) || (k >= index && HasItem(items, k + 1))
  {
    var r := items[..p] + Shifted(items[p + 1..]);
    ShiftedAt(items, p, items[..p] + Shifted(items[p + 1..]));
    var i :| 0 <= i < |r| && r[i].option == k;
    if i < p {
      assert items[i].option == k && items[i].option < items[p].option;
    } else {
      assert items[i + 1].option == k + 1 && items[p].option < items[i + 1].option;
    }
  }

  lemma ShiftedItemsBelow(items: seq<SearchItem>, index: int, p: nat, k: int)
    requires Increasing(items) && p < |items| && items[p].option == index
    requires k < index && HasItem(items, k)
    ensures HasItem(items[..p] + Shifted(items[p + 1..]), k)
  {
    ShiftedAt(items, p, items[..p] + Shifted(items[p + 1..]));
    var i :| 0 <= i < |items| && items[i].option == k;
    IncreasingIndex(items, i, p);
    assert (items[..p] + Shifted(items[p + 1..]))[i].option == k;
  }

  lemma ShiftedItemsAbove(items: seq<SearchItem>, index: int, p: nat, k: int)
    requires Increasing(items) && p < |items| && items[p].option == index
    requires k >= index && HasItem(items, k + 1)
    ensures HasItem(items[..p] + Shifted(items[p + 1..]), k)
  {
    ShiftedAt(items, p, items[..p] + Shifted(items[p + 1..]));
    var i :| 0 <= i < |items| && items[i].option == k + 1;
    IncreasingIndex(items, p, i);
    assert (items[..p] + Shifted(items[p + 1..]))[i - 1].option == k;
  }

  /** Which options the re-indexed items stand for: those below `index`
      as before, and each one above it one position lower. */
  lemma ShiftedItems(items: seq<SearchItem>, index: int, p: nat, k: int)
    requires Increasing(items) && p < |items| && items[p].option == index
    ensures HasItem(items[..p] + Shifted(items[p + 1..]), k) <==>
      (k < index && HasItem(items, k)) || (k >= index && HasItem(items, k + 1))
  {
    if HasItem(items[..p] + Shifted(items[p + 1..]), k) {
      ShiftedItemsFrom(items, index, p, k);
    }
    if k < index && HasItem(items, k) {
      ShiftedItemsBelow(items, index, p, k);
    }
    if k >= index && HasItem(items, k + 1) {
      ShiftedItemsAbove(items, index, p, k);
    }
  }

  lemma SyncMembership(opts: seq<SelectOption>, after: seq<SelectOption>, groups: seq<OptGroup>,
                       start: nat, excludeDisabled: bool, index: nat, items: seq<SearchItem>, p: nat, k: int)
    requires index < |opts| && start <= index
    requires SameButSelection(after, opts[..index] + opts[index + 1..])
    requires items == ComposeItems(opts, groups, start, excludeDisabled)
    requires p < |items| && items[p].option == index
    ensures HasItem(items[..p] + Shifted(items[p + 1..]), k) <==>
            HasItem(ComposeItems(after, groups, start, excludeDisabled), k)
  {
    ShiftedItems(items, index, p, k);
    ListedAfterRemove(opts, after, groups, start, excludeDisabled, index, k);
    assert HasItem(items, k) <==> Listed(opts, groups, start, excludeDisabled, k);
    assert HasItem(items, k + 1) <==> Listed(opts, groups, start, excludeDisabled, k + 1);
  }

  /** Where the item for a listed option sits, and what re-indexing the
      composed items makes of them. */
  lemma ReindexComposed(opts: seq<SelectOption>, groups: seq<OptGroup>, start: nat, excludeDisabled: bool, index: nat)
    returns (p: nat)
    requires Listed(opts, groups, start, excludeDisabled, index)
    ensures var items := ComposeItems(opts, groups, start, excludeDisabled);
      && p < |items| && items[p].option == index
      && Reindex(items, index, false) == items[..p] + Shifted(items[p + 1..])
      && Increasing(items[..p] + Shifted(items[p + 1..]))
      && Uncollapsed(items[..p] + Shifted(items[p + 1..]))
  {
    var items := ComposeItems(opts, groups, start, excludeDisabled);
    assert HasItem(items, index);
    p :| 0 <= p < |items| && items[p].option == index;
    ReindexFacts(items, index, p);
  }

  lemma ReindexFacts(items: seq<SearchItem>, index: int, p: nat)
    requires Increasing(items) && Uncollapsed(items) && p < |items| && items[p].option == index
    ensures Reindex(items, index, false) == items[..p] + Shifted(items[p + 1..])
    ensures Increasing(items[..p] + Shifted(items[p + 1..]))
    ensures Uncollapsed(items[..p] + Shifted(items[p + 1..]))
  {
    ReindexAt(items, index, p);
    ShiftedIncreasing(items, p);
    ShiftedAt(items, p, items[..p] + Shifted(items[p + 1..]));
  }

  /** `removeItem` keeps the search list in step with the options: for a
      listed option, re-indexing the composed items gives exactly the items
      that composing the shortened option list would give. */
  lemma RemoveKeepsItemsInSync(opts: seq<SelectOption>, after: seq<SelectOption>, groups: seq<OptGroup>,
                                start: nat, excludeDisabled: bool, index: nat)
    requires index < |opts| && Listed(opts, groups, start, excludeDisabled, index)
    requires SameButSelection(after, opts[..index] + opts[index + 1..])
    ensures Reindex(ComposeItems(opts, groups, start, excludeDisabled), index, false)
         == ComposeItems(after, groups, start, excludeDisabled)
  {
    var p := ReindexComposed(opts, groups, start, excludeDisabled, index);
    var items := ComposeItems(opts, groups, start, excludeDisabled);
    var r := items[..p] + Shifted(items[p + 1..]);
    var target := ComposeItems(after, groups, start, excludeDisabled);
    forall k ensures HasItem(r, k) <==> HasItem(target, k) {
      SyncMembership(opts, after, groups, start, excludeDisabled, index, items, p, k);
    }
    IncreasingUnique(r, target);
  }

  /** An option that has no search item (a disabled one, with
      `excludeDisabled`) is removed without re-indexing the later items: the
      item for the option after it keeps an index one past its option. */
  lemma RemoveUnlistedLeavesStaleIndex()
    ensures var opts := [SelectOption("a", "a", false, false, None, false),
                         SelectOption("b", "b", false, true, None, false),
                         SelectOption("c", "c", false, false, None, false)];
            var items := ComposeItems(opts, [], 0, true);
            items == [SearchItem(0, false), SearchItem(2, false)]
            && Reindex(items, 1, false) == items
            && ComposeItems(opts[..1] + opts[2..], [], 0, true) == [SearchItem(0, false), SearchItem(1, false)]
  {
    var opts := [SelectOption("a", "a", false, false, None, false),
                 SelectOption("b", "b", false, true, None, false),
                 SelectOption("c", "c", false, false, None, false)];
    assert opts[..2][..1] == opts[..1];
    assert opts[..1][..0] == [];
    assert ComposeItems(opts[..1], [], 0, true) == [SearchItem(0, false)];
    assert ComposeItems(opts[..2], [], 0, true) == [SearchItem(0, false)];
    var items := ComposeItems(opts, [], 0, true);
    assert items == [SearchItem(0, false), SearchItem(2, false)];
    assert items[1..] == [SearchItem(2, false)];
    assert Reindex([SearchItem(2, false)], 1, false) == [SearchItem(2, false)];
    var shortened := opts[..1] + opts[2..];
    assert shortened[..1] == opts[..1];
    assert ComposeItems(shortened, [], 0, true) == [SearchItem(0, false), SearchItem(1, false)];
  }

  // ----- removeItem: the group items -----

  /** `$.inArray(x, s)`: the first position of `x`, or -1. */
  function IndexOf(s: seq<int>, x: int): (r: int)
    ensures -1 <= r < |s|
    ensures r == -1 <==> x !in s
    ensures r >= 0 ==> s[r] == x && forall j :: 0 <= j < r ==> s[j] != x
  {
    if s == [] then -1
    else if s[0] == x then 0
    else
      var r := IndexOf(s[1..], x);
      assert forall y :: y in s[1..] <==> y in s && (y != s[0] || y in s[1..]);
      if r == -1 then -1 else r + 1
  }

  /** `s.splice(at, 1)`: removes the element at `at`, where a negative
      position counts from the end. */
  function SpliceOne<T>(s: seq<T>, at: int): (r: seq<T>)
    ensures 0 <= at < |s| ==> r == s[..at] + s[at + 1..]
    ensures at >= |s| ==> r == s
    ensures -|s| <= at < 0 ==> r == s[..|s| + at] + s[|s| + at + 1..]
  {
    var i := if at < 0 then (if |s| + at < 0 then 0 else |s| + at) else at;
    if i < |s| then s[..i] + s[i + 1..] else s
  }

  /** Every value lowered by one. */
  function Decremented(s: seq<int>): (r: seq<int>)
    ensures |r| == |s|
    ensures forall j :: 0 <= j < |s| ==> r[j] == s[j] - 1
  {
    if s == [] then [] else [s[0] - 1] + Decremented(s[1..])
  }

  /** The new `children-indexes` of a group after its option `index` is
      removed: the entry for `index` is spliced out, then every remaining
      entry is lowered by one, including those below `index`. */
  function DropChild(children: seq<int>, index: int): (r: seq<int>)
    ensures index in children ==> |r| == |children| - 1
    ensures index in children ==> forall j :: 0 <= j < |r| ==>
      r[j] == (if j < IndexOf(children, index) then children[j] else children[j + 1]) - 1
    ensures index !in children && |children| > 0 ==> r == Decremented(children[..|children| - 1])
  {
    Decremented(SpliceOne(children, IndexOf(children, index)))
  }

  /** Lowering every entry: removing option 4 from a group with options
      3, 4, 5 leaves the entries 2 and 4, so the group no longer claims
      the option now at index 3. */
  lemma DropChildLowersAll()
    ensures DropChild([3, 4, 5], 4) == [2, 4]
  {
    assert IndexOf([3, 4, 5], 4) == 1;
  }

  /** The groups whose `children-indexes` contain `index`, found by
      `getSearchItemGroupByOptionIndex`. */
  function GroupsWith(ui: seq<UiGroup>, index: int): (r: seq<nat>)
    ensures forall j :: 0 <= j < |r| ==> r[j] < |ui| && index in ui[r[j]].children
    ensures forall p :: 0 <= p < |ui| && index in ui[p].children ==> p in r
    ensures forall i, j :: 0 <= i < j < |r| ==> r[i] < r[j]
    decreases |ui|
  {
    if ui == [] then []
    else
      var n := |ui| - 1;
      var r := GroupsWith(ui[..n], index);
      assert forall p :: 0 <= p < n ==> ui[..n][p] == ui[p];
      if index in ui[n].children then r + [n] else r
  }

  /** The group items left after removing those that claim `index`. */
  function WithoutGroupsOf(ui: seq<UiGroup>, index: int): (r: seq<UiGroup>)
    ensures |r| <= |ui|
    ensures forall p :: 0 <= p < |r| ==> index !in r[p].children && r[p] in ui
    ensures forall g :: g in ui && index !in g.children ==> g in r
  {
    if ui == [] then []
    else
      var r := WithoutGroupsOf(ui[1..], index);
      assert forall g :: g in ui <==> g == ui[0] || g in ui[1..];
      if index in ui[0].children then r else [ui[0]] + r
  }

  /** The group items with `children-indexes` replaced by `children` on
      every group that claims `index`. */
  function SetChildrenOf(ui: seq<UiGroup>, index: int, children: seq<int>): (r: seq<UiGroup>)
    ensures |r| == |ui|
    ensures forall p :: 0 <= p < |ui| ==>
      r[p] == if index in ui[p].children then ui[p].(children := children) else ui[p]
  {
    seq(|ui|, p requires 0 <= p < |ui| => if index in ui[p].children then ui[p].(children := children) else ui[p])
  }

  // ----- Group completeness (the search list's selection handler) -----

  /** The options standing behind the search items of a group, in
      document order (`getOptionForSearchItem(getSearchItemsFromGroup(...))`). */
  function GroupOptions(opts: seq<SelectOption>, items: seq<SearchItem>, children: seq<int>): (r: seq<nat>)
    ensures forall j :: 0 <= j < |r| ==> r[j] < |opts| && r[j] in children && HasItem(items, r[j])
    ensures forall k :: 0 <= k < |opts| && k in children && HasItem(items, k) ==> k in r
    decreases |opts|
  {
    if opts == [] then []
    else
      var n := |opts| - 1;
      var r := GroupOptions(opts[..n], items, children);
      if n in children && HasItem(items, n) then r + [n] else r
  }

  /** How many of the given options are selected. */
  function SelectedAmong(opts: seq<SelectOption>, ks: seq<nat>): (c: nat)
    requires forall j :: 0 <= j < |ks| ==> ks[j] < |opts|
    ensures c <= |ks|
    ensures c == |ks| <==> forall j :: 0 <= j < |ks| ==> opts[ks[j]].selected
  {
    if ks == [] then 0
    else SelectedAmong(opts, ks[1..]) + (if opts[ks[0]].selected then 1 else 0)
  }

  /** `isAllSelected`: the group's options are as many as its selected ones. */
  predicate GroupCompleted(opts: seq<SelectOption>, items: seq<SearchItem>, children: seq<int>)
  {
    var ks := GroupOptions(opts, items, children);
    |ks| == SelectedAmong(opts, ks)
  }

  /** A group is completed exactly when every option of the group that has
      a search item is selected (so a group without such options is too). */
  lemma GroupCompletedIff(opts: seq<SelectOption>, items: seq<SearchItem>, children: seq<int>)
    ensures GroupCompleted(opts, items, children) <==>
      forall k :: 0 <= k < |opts| && k in children && HasItem(items, k) ==> opts[k].selected
  {
    var ks := GroupOptions(opts, items, children);
    if !GroupCompleted(opts, items, children) {
      var j :| 0 <= j < |ks| && !opts[ks[j]].selected;
      assert ks[j] in children && HasItem(items, ks[j]);
    }
  }

  /** The group part of the handler for `option-selected`/`option-deselected`:
      the groups claiming the option get `group-completed` when all options
      of the first of them are selected, and lose it otherwise. */
  function RefreshCompletion(ui: seq<UiGroup>, opts: seq<SelectOption>, items: seq<SearchItem>, index: int): (r: seq<UiGroup>)
    ensures |r| == |ui|
    ensures forall p :: 0 <= p < |ui| && index !in ui[p].children ==> r[p] == ui[p]
    ensures forall p :: 0 <= p < |ui| && index in ui[p].children ==>
      r[p].children == ui[p].children && r[p].collapsed == ui[p].collapsed
      && (r[p].completed <==>
            forall k :: (0 <= k < |opts| && k in ui[GroupsWith(ui, index)[0]].children && HasItem(items, k))
                        ==> opts[k].selected)
  {
    var matched := GroupsWith(ui, index);
    if matched == [] then ui
    else
      var done := GroupCompleted(opts, items, ui[matched[0]].children);
      GroupCompletedIff(opts, items, ui[matched[0]].children);
      seq(|ui|, p requires 0 <= p < |ui| => if index in ui[p].children then ui[p].(completed := done) else ui[p])
  }

  /** `groups.eq(i)`: a negative position counts from the end; outside the
      list there is no group. */
  function EqIndex(n: nat, i: int): (r: Option<nat>)
    ensures r.Some? ==> r.value < n
    ensures 0 <= i < n ==> r == Some(i)
    ensures i < 0 && 0 <= n + i ==> r == Some(n + i)
    ensures i >= n || n + i < 0 ==> r == None
  {
    var j := if i < 0 then n + i else i;
    if 0 <= j < n then Some(j) else None
  }

  /** The search items for the given option indexes with `collapsed` set
      to `v`; the others are left alone. */
  function CollapseItems(items: seq<SearchItem>, children: seq<int>, v: bool): (r: seq<SearchItem>)
    ensures |r| == |items|
    ensures forall i :: 0 <= i < |items| ==>
      r[i] == if items[i].option in children then items[i].(collapsed := v) else items[i]
  {
    seq(|items|, i requires 0 <= i < |items| => if items[i].option in children then items[i].(collapsed := v) else items[i])
  }
}
