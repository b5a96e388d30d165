/**
 * The search list's handlers for `toggle-group`, `reset-filter` and
 * `filter` (in `ChosenUI.createSearchList`), and `Chosen.prototype.search`
 * with its remote branch, over an instance state.
 */
module SearchList {
  import opened Wrappers
  import opened Text
  import opened OptionStore
  import opened Groups
  import opened Matching
  import opened Instance

  // ----- toggle-group -----

  /** Whether one of the first `n` indexes picks group item `p` through
      `groups.eq(index)`. */
  predicate Targeted(count: nat, indexes: seq<int>, n: nat, p: nat)
    requires n <= |indexes|
  {
    exists j :: 0 <= j < n && EqIndex(count, indexes[j]) == Some(p)
  }

  /** Whether option `option` is claimed by a group item one of the first
      `n` indexes picks. */
  predicate InTargeted(ui: seq<UiGroup>, indexes: seq<int>, n: nat, option: int)
    requires n <= |indexes|
  {
    exists j :: 0 <= j < n && EqIndex(|ui|, indexes[j]).Some? && option in ui[EqIndex(|ui|, indexes[j]).value].children
  }

  /** `chzn:search-list:group-toggled` for each index, in order. */
  function ToggledEvents(indexes: seq<int>, v: bool): (r: seq<Event>)
    ensures |r| == |indexes| && forall j :: 0 <= j < |r| ==> r[j] == GroupToggled(indexes[j], v)
  {
    seq(|indexes|, j requires 0 <= j < |indexes| => GroupToggled(indexes[j], v))
  }

  /** The loop of the handler over the first `n` indexes with the flag `v`:
      each picked group item gets `collapsed` = `v`, and so do the search
      items of the options it claims; every index is announced. */
  function ToggleWith(st: State, indexes: seq<int>, v: bool, n: nat): (r: State)
    requires n <= |indexes|
    ensures r == st.(ui := r.ui, items := r.items, events := r.events)
    ensures |r.ui| == |st.ui| && |r.items| == |st.items|
    ensures r.events == st.events + ToggledEvents(indexes[..n], v)
  {
    if n == 0 then st
    else
      var s := ToggleWith(st, indexes, v, n - 1);
      assert indexes[..n] == indexes[..n - 1] + [indexes[n - 1]];
      ToggleOne(s, indexes[n - 1], v)
  }

  /** After the first `n` indexes, a group item has `collapsed` = `v`
      exactly when one of them picks it, and is unchanged otherwise. */
  lemma {:induction false} ToggledUi(st: State, indexes: seq<int>, v: bool, n: nat)
    requires n <= |indexes|
    ensures var r := ToggleWith(st, indexes, v, n);
      forall p :: 0 <= p < |st.ui| ==>
        r.ui[p] == if Targeted(|st.ui|, indexes, n, p) then st.ui[p].(collapsed := v) else st.ui[p]
    decreases n
  {
    if n > 0 {
      ToggledUi(st, indexes, v, n - 1);
      ToggledUiStep(st, indexes, v, n, ToggleWith(st, indexes, v, n - 1));
    }
  }

  lemma ToggledUiStep(st: State, indexes: seq<int>, v: bool, n: nat, s: State)
    requires 0 < n <= |indexes| && |s.ui| == |st.ui|
    requires forall p :: 0 <= p < |st.ui| ==>
      s.ui[p] == if Targeted(|st.ui|, indexes, n - 1, p) then st.ui[p].(collapsed := v) else st.ui[p]
    ensures var r := ToggleOne(s, indexes[n - 1], v);
      forall p :: 0 <= p < |st.ui| ==>
        r.ui[p] == if Targeted(|st.ui|, indexes, n, p) then st.ui[p].(collapsed := v) else st.ui[p]
  {
  }

  /** After the first `n` indexes, a search item has `collapsed` = `v`
      exactly when its option is claimed by a picked group item, and is
      unchanged otherwise. */
  lemma {:induction false} ToggledItems(st: State, indexes: seq<int>, v: bool, n: nat)
    requires n <= |indexes|
    ensures var r := ToggleWith(st, indexes, v, n);
      forall i :: 0 <= i < |st.items| ==>
        r.items[i] == if InTargeted(st.ui, indexes, n, st.items[i].option) then st.items[i].(collapsed := v) else st.items[i]
    decreases n
  {
    if n > 0 {
      ToggledUi(st, indexes, v, n - 1);
      ToggledItems(st, indexes, v, n - 1);
      ToggledItemsStep(st, indexes, v, n, ToggleWith(st, indexes, v, n - 1));
    }
  }

  lemma ToggledItemsStep(st: State, indexes: seq<int>, v: bool, n: nat, s: State)
    requires 0 < n <= |indexes| && |s.ui| == |st.ui| && |s.items| == |st.items|
    requires forall p :: 0 <= p < |st.ui| ==>
      s.ui[p] == if Targeted(|st.ui|, indexes, n - 1, p) then st.ui[p].(collapsed := v) else st.ui[p]
    requires forall i :: 0 <= i < |st.items| ==>
      s.items[i] == if InTargeted(st.ui, indexes, n - 1, st.items[i].option) then st.items[i].(collapsed := v) else st.items[i]
    ensures var r := ToggleOne(s, indexes[n - 1], v);
      forall i :: 0 <= i < |st.items| ==>
        r.items[i] == if InTargeted(st.ui, indexes, n, st.items[i].option) then st.items[i].(collapsed := v) else st.items[i]
  {
  }

  /** One picked group: its flag and its items' flags become `v` when a
      group stands at `index`, and `group-toggled` fires either way. */
  function ToggleOne(st: State, index: int, v: bool): (r: State)
    ensures r == st.(ui := r.ui, items := r.items, events := st.events + [GroupToggled(index, v)])
    ensures |r.ui| == |st.ui|
  {
    var e := st.events + [GroupToggled(index, v)];
    match EqIndex(|st.ui|, index)
    case None => st.(events := e)
    case Some(p) =>
      st.(ui := st.ui[p := st.ui[p].(collapsed := v)], items := CollapseItems(st.items, st.ui[p].children, v), events := e)
  }

  /** `chzn:search-list:toggle-group` with a list of group positions: the
      flag is the one passed or, when none is, the inverse of the first
      picked group's (true when no group stands there); it is decided once
      and applied to every index. */
  function ToggleGroups(st: State, indexes: seq<int>, collapse: Option<bool>): (r: State)
  {
    if indexes == [] then st
    else
      var p := EqIndex(|st.ui|, indexes[0]);
      var v := if collapse.Some? then collapse.value else p.None? || !st.ui[p.value].collapsed;
      ToggleWith(st, indexes, v, |indexes|)
  }

  /** A toggle with an explicit flag collapses (or expands) exactly the
      picked groups and the search items they claim, and leaves the rest. */
  lemma ToggleExplicit(st: State, indexes: seq<int>, v: bool)
    ensures var r := ToggleGroups(st, indexes, Some(v));
      && r.opts == st.opts && |r.ui| == |st.ui|
      && (forall p :: 0 <= p < |st.ui| ==>
            r.ui[p].collapsed == (if Targeted(|st.ui|, indexes, |indexes|, p) then v else st.ui[p].collapsed)
            && r.ui[p].children == st.ui[p].children)
      && (forall i :: 0 <= i < |st.items| ==>
            r.items[i].collapsed == (if InTargeted(st.ui, indexes, |indexes|, st.items[i].option) then v else st.items[i].collapsed))
      && r.events == st.events + ToggledEvents(indexes, v)
  {
    assert indexes[..|indexes|] == indexes;
    ToggledUi(st, indexes, v, |indexes|);
    ToggledItems(st, indexes, v, |indexes|);
    if indexes == [] {
      assert forall p :: !Targeted(|st.ui|, indexes, 0, p);
    }
  }

  /** Without a flag the direction is decided once, from the first pick:
      the toggle is the explicit one with the inverse of that group's flag
      (true when no group stands there), for every picked index. */
  lemma ToggleDecided(st: State, indexes: seq<int>)
    requires indexes != []
    ensures var p := EqIndex(|st.ui|, indexes[0]);
      ToggleGroups(st, indexes, None) == ToggleGroups(st, indexes, Some(p.None? || !st.ui[p.value].collapsed))
  {
  }

  /** Without a flag, toggling one group twice gives every group item its
      old flag back. */
  lemma ToggleTwice(st: State, index: int)
    ensures ToggleGroups(ToggleGroups(st, [index], None), [index], None).ui == st.ui
  {
    var once := ToggleGroups(st, [index], None);
    var twice := ToggleGroups(once, [index], None);
    ToggledUi(st, [index], (match EqIndex(|st.ui|, index) case None => true case Some(q) => !st.ui[q].collapsed), 1);
    ToggledUi(once, [index], (match EqIndex(|once.ui|, index) case None => true case Some(q) => !once.ui[q].collapsed), 1);
    match EqIndex(|st.ui|, index)
    case None =>
      forall p | 0 <= p < |st.ui| ensures twice.ui[p] == st.ui[p] {
        assert !Targeted(|st.ui|, [index], 1, p);
      }
    case Some(q) =>
      assert Targeted(|st.ui|, [index], 1, q);
      forall p | 0 <= p < |st.ui| ensures twice.ui[p] == st.ui[p] {
        if p == q {
          assert twice.ui[p] == st.ui[p].(collapsed := st.ui[p].collapsed);
        } else {
          assert !Targeted(|st.ui|, [index], 1, p);
        }
      }
  }

  /** The request `init` makes with `collapseOnInit`: positions 0 to k - 1
      with the flag true collapse every group item when k is their number. */
  lemma CollapseAll(st: State)
    ensures var r := ToggleGroups(st, Positions(|st.ui|), Some(true));
      forall p :: 0 <= p < |st.ui| ==> r.ui[p].collapsed
  {
    var ks := Positions(|st.ui|);
    ToggleExplicit(st, ks, true);
    forall p | 0 <= p < |st.ui| ensures Targeted(|st.ui|, ks, |ks|, p) {
      assert EqIndex(|st.ui|, ks[p]) == Some(p);
    }
  }

  /** The positions 0 to n - 1. */
  function Positions(n: nat): (r: seq<int>)
    ensures |r| == n && forall j :: 0 <= j < n ==> r[j] == j
  {
    seq(n, j requires 0 <= j < n => j)
  }

  // ----- search -----

  /** The configuration `addItem` receives for a received record: its
      label and value, neither selected nor disabled. */
  function RecordConfig(x: Remote): ItemConfig
  {
    ItemConfig(x.text, x.value, false, false)
  }

  /** The options the records become once added with `save`. */
  function RecordOptions(records: seq<Remote>): (r: seq<SelectOption>)
    ensures |r| == |records| && forall j :: 0 <= j < |r| ==> r[j] == NewOption(RecordConfig(records[j]), true)
  {
    seq(|records|, j requires 0 <= j < |records| => NewOption(RecordConfig(records[j]), true))
  }

  /** `$.each(response, ...)` over the first `n` records: each is added with
      `save`, and the first exception ends the loop. */
  function AddRecords(c: Config, max: Limit, st: State, records: seq<Remote>, n: nat): (r: Step<Outcome<ChosenError>>)
    requires n <= |records|
    ensures r.out.Pass? ==> SameButSelection(r.after.opts, st.opts + RecordOptions(records[..n]))
    ensures r.out.Pass? ==> r.after.groups == st.groups && r.after.ui == st.ui
    ensures r.out.Pass? && !c.multiple && SelectedCount(st.opts) <= 1 ==> SelectedCount(r.after.opts) <= 1
  {
    if n == 0 then Step(Pass, st)
    else
      var s := AddRecords(c, max, st, records, n - 1);
      if s.out.Fail? then s
      else
        var a := Add(c, max, s.after, RecordConfig(records[n - 1]), true);
        if a.out.Pass? then
          CreatedOption(c, max, s.after, RecordConfig(records[n - 1]), true);
          AppendRecord(st.opts, s.after.opts, a.after.opts, records, n);
          a
        else a
  }

  /** Once a record has failed, the later ones are never added. */
  lemma {:induction false} AddRecordsStops(c: Config, max: Limit, st: State, records: seq<Remote>, k: nat, n: nat)
    requires k <= n <= |records| && AddRecords(c, max, st, records, k).out.Fail?
    ensures AddRecords(c, max, st, records, n) == AddRecords(c, max, st, records, k)
    decreases n
  {
    if n > k {
      AddRecordsStops(c, max, st, records, k, n - 1);
    }
  }

  /** One more record, added to the state the earlier ones left. */
  lemma AddRecordsNext(c: Config, max: Limit, st: State, records: seq<Remote>, i: nat, s: State, a: Step<Outcome<ChosenError>>)
    requires i < |records| && AddRecords(c, max, st, records, i) == Step(Pass, s)
    requires a == Add(c, max, s, RecordConfig(records[i]), true)
    ensures AddRecords(c, max, st, records, i + 1) == a
  {
  }

  /** One more record, and, when it fails, the outcome of the whole batch. */
  lemma AddRecordsAdvance(c: Config, max: Limit, st: State, records: seq<Remote>, i: nat, s: State, a: Step<Outcome<ChosenError>>)
    requires i < |records| && AddRecords(c, max, st, records, i) == Step(Pass, s)
    requires a == Add(c, max, s, RecordConfig(records[i]), true)
    ensures AddRecords(c, max, st, records, i + 1) == a
    ensures a.out.Fail? ==> AddRecords(c, max, st, records, |records|) == a
  {
    AddRecordsNext(c, max, st, records, i, s, a);
    if a.out.Fail? {
      AddRecordsStops(c, max, st, records, i + 1, |records|);
    }
  }

  lemma AppendRecord(base: seq<SelectOption>, prev: seq<SelectOption>, next: seq<SelectOption>, records: seq<Remote>, n: nat)
    requires 0 < n <= |records|
    requires SameButSelection(prev, base + RecordOptions(records[..n - 1]))
    requires SameButSelection(next, prev + [NewOption(RecordConfig(records[n - 1]), true)])
    ensures SameButSelection(next, base + RecordOptions(records[..n]))
  {
    var o := NewOption(RecordConfig(records[n - 1]), true);
    assert RecordOptions(records[..n]) == RecordOptions(records[..n - 1]) + [o];
    assert base + RecordOptions(records[..n]) == (base + RecordOptions(records[..n - 1])) + [o];
    assert SameButSelection(prev + [o], base + RecordOptions(records[..n])) by {
      assert forall k :: 0 <= k < |prev| ==> (prev + [o])[k] == prev[k];
    }
    SameButTrans(next, prev + [o], base + RecordOptions(records[..n]));
  }

  /** What `search` gives back: the keyword cache as it stands afterwards
      and the matching option indexes, or the exception an added record
      raised. */
  datatype Searched = Searched(cache: seq<string>, found: Result<seq<nat>, ChosenError>)

  /** `search(keyword, forceRequest)`. When a request is due, `response`
      is what the server returned (None when the request failed, so the
      success callback never runs): the records not already options are
      kept, the keyword is cached and each record is added with `save`.
      Then the active options are matched against the keyword. */
  function Search(c: Config, max: Limit, st: State, cache: seq<string>, keyword: string, force: bool,
                  response: Option<seq<Remote>>): (r: Step<Searched>)
    ensures !(ShouldRequest(c.ajaxEnabled, force, c.ajaxCache, cache, keyword) && response.Some?) ==>
      r == Step(Searched(cache, Success(MatchingIndexes(st.opts, Start(c), keyword, c.policy))), st)
    ensures ShouldRequest(c.ajaxEnabled, force, c.ajaxCache, cache, keyword) && response.Some? ==>
      r.out.cache == cache + [keyword]
    ensures ShouldRequest(c.ajaxEnabled, force, c.ajaxCache, cache, keyword) && response.Some? && r.out.found.Success? ==>
      SameButSelection(r.after.opts, st.opts + RecordOptions(FreshRecords(response.value, MappedOptions(st.opts))))
    ensures r.out.found.Success? ==> r.out.found.value == MatchingIndexes(r.after.opts, Start(c), keyword, c.policy)
  {
    if ShouldRequest(c.ajaxEnabled, force, c.ajaxCache, cache, keyword) && response.Some? then
      var received := FreshRecords(response.value, MappedOptions(st.opts));
      var added := AddRecords(c, max, st, received, |received|);
      assert received[..|received|] == received;
      var cache1 := cache + [keyword];
      if added.out.Fail? then Step(Searched(cache1, Failure(added.out.error)), added.after)
      else Step(Searched(cache1, Success(MatchingIndexes(added.after.opts, Start(c), keyword, c.policy))), added.after)
    else Step(Searched(cache, Success(MatchingIndexes(st.opts, Start(c), keyword, c.policy))), st)
  }

  /** With the cache on, a keyword once requested is not requested again
      unless forced: the next search changes nothing and keeps the cache. */
  lemma SearchUsesCache(c: Config, max: Limit, st: State, cache: seq<string>, keyword: string,
                        response: Option<seq<Remote>>, later: State, again: Option<seq<Remote>>)
    requires c.ajaxEnabled && c.ajaxCache && response.Some?
    ensures var first := Search(c, max, st, cache, keyword, true, response);
      Search(c, max, later, first.out.cache, keyword, false, again)
        == Step(Searched(first.out.cache, Success(MatchingIndexes(later.opts, Start(c), keyword, c.policy))), later)
  {
    RequestOnce(cache, keyword);
  }

  /** A record received twice in one response, new to the select, makes
      `search` throw when its label reads back unchanged: the second copy is
      refused by `addItem` as a label that already exists. */
  lemma SearchRefusesRepeatedRecord(c: Config, max: Limit, st: State, cache: seq<string>, keyword: string, force: bool, x: Remote)
    requires ShouldRequest(c.ajaxEnabled, force, c.ajaxCache, cache, keyword)
    requires x.text != "" && Collapsed(x.text) && x !in MappedOptions(st.opts) && Start(c) <= |st.opts|
    ensures Search(c, max, st, cache, keyword, force, Some([x, x])).out.found == Failure(DuplicateLabel(x.text))
  {
    FreshTwice(x, MappedOptions(st.opts));
    AddTwice(c, max, st, x);
  }

  lemma FreshTwice(x: Remote, existing: seq<Remote>)
    requires x !in existing
    ensures FreshRecords([x, x], existing) == [x, x]
  {
    assert [x, x][1..] == [x];
    assert [x][1..] == [];
  }

  lemma AddTwice(c: Config, max: Limit, st: State, x: Remote)
    requires x.text != "" && Collapsed(x.text) && Start(c) <= |st.opts|
    ensures AddRecords(c, max, st, [x, x], 2).out == Fail(DuplicateLabel(x.text))
  {
    StripCollapseFixes(x.text);
    var one := AddRecords(c, max, st, [x, x], 1);
    assert AddRecords(c, max, st, [x, x], 0) == Step(Pass, st);
    assert one == Add(c, max, st, RecordConfig(x), true);
    if one.out.Pass? {
      AddTwiceRefused(c, max, st, RecordConfig(x), true, RecordConfig(x), true);
    }
  }

  // ----- reset-filter and filter -----

  /** The classes the filter leaves on the search list: `no-match` on each
      search item, and whether the no-results message shows. */
  datatype View = View(noMatch: seq<bool>, noResults: bool)

  /** What the `filter` handler leaves: the keyword cache, and the view or
      the exception the search raised. */
  datatype FilterResult = FilterResult(cache: seq<string>, view: Result<View, ChosenError>)

  /** The group items with `group-completed` cleared. */
  function Uncompleted(ui: seq<UiGroup>): (r: seq<UiGroup>)
    ensures |r| == |ui| && forall p :: 0 <= p < |ui| ==> r[p] == ui[p].(completed := false)
  {
    seq(|ui|, p requires 0 <= p < |ui| => ui[p].(completed := false))
  }

  /** `chzn:search-list:reset-filter` as the filter triggers it (keeping
      the highlight): no item is marked `no-match`, no group completed, the
      message is hidden and the item creator, if any, is cleared. */
  function ResetFilter(c: Config, st: State): Step<View>
  {
    Step(View(seq(|st.items|, i => false), false),
         st.(ui := Uncompleted(st.ui),
             events := st.events + [FilterReset] + (if c.createEnabled then [CreatorClear] else [])))
  }

  /** Whether the search item stands for a selected option (its `selected`
      class). */
  predicate ItemSelected(opts: seq<SelectOption>, item: SearchItem)
  {
    0 <= item.option < |opts| && opts[item.option].selected
  }

  /** `ignoreSelected`: the found indexes without those of selected
      options. */
  function Unselected(opts: seq<SelectOption>, found: seq<nat>): (r: seq<nat>)
    ensures forall k :: k in r <==> k in found && !(k < |opts| && opts[k].selected)
  {
    if found == [] then []
    else
      var rest := Unselected(opts, found[1..]);
      assert forall k :: k in found <==> k == found[0] || k in found[1..];
      if found[0] < |opts| && opts[found[0]].selected then rest else [found[0]] + rest
  }

  /** How many search items stand for one of the indexes
      (`matchingItems.length`). */
  function MatchCount(items: seq<SearchItem>, indexes: seq<nat>): (n: nat)
    ensures n <= |items|
    ensures n == 0 <==> forall i :: 0 <= i < |items| ==> items[i].option !in indexes
  {
    if items == [] then 0
    else MatchCount(items[1..], indexes) + (if items[0].option in indexes then 1 else 0)
  }

  /** Whether a group claims a matching search item of an unselected
      option, which keeps it from being completed. */
  predicate Pending(opts: seq<SelectOption>, items: seq<SearchItem>, indexes: seq<nat>, children: seq<int>)
  {
    exists i :: 0 <= i < |items| && items[i].option in indexes && !ItemSelected(opts, items[i]) && items[i].option in children
  }

  /** `group-completed` after filtering: set on every group with no
      pending item, cleared on the others. */
  function Completion(ui: seq<UiGroup>, opts: seq<SelectOption>, items: seq<SearchItem>, indexes: seq<nat>): (r: seq<UiGroup>)
    ensures |r| == |ui|
    ensures forall p :: 0 <= p < |ui| ==> r[p] == ui[p].(completed := !Pending(opts, items, indexes, ui[p].children))
  {
    seq(|ui|, p requires 0 <= p < |ui| => ui[p].(completed := !Pending(opts, items, indexes, ui[p].children)))
  }

  /** The decisions of the `filter` handler for a non-empty keyword once
      the search returned `found`: with `ignoreSelected` the selected
      options drop out; the items of the remaining indexes match and the
      others get `no-match`; groups are completed as above; with item
      creation on, an active option carrying the keyword as its label (in
      any case) clears the creator and otherwise it is rendered; the
      no-results message shows when nothing matches, it is enabled and the
      creator is not visible as a match; `filtered` reports the count. */
  function FilterFound(c: Config, st: State, keyword: string, found: seq<nat>): (r: Step<View>)
  {
    var indexes := if c.ignoreSelected then Unselected(st.opts, found) else found;
    var count := MatchCount(st.items, indexes);
    var exact := !IsNewOption(c, st.opts, keyword);
    var creator := if !c.createEnabled then [] else if exact then [CreatorClear] else [CreatorRender(keyword)];
    var creatorVisible := c.createEnabled && c.isCreatorMatches && !exact;
    var noResults := count == 0 && c.showNoResults && !creatorVisible;
    Step(View(seq(|st.items|, i requires 0 <= i < |st.items| => st.items[i].option !in indexes), noResults),
         st.(ui := Completion(st.ui, st.opts, st.items, indexes),
             events := st.events + creator + [Filtered(keyword, count)]))
  }

  /** The `chzn:search-list:filter` handler for a keyword: the empty one
      resets the filter; any other is searched for (which may ask the
      server and add options) and the result displayed. */
  function Filter(c: Config, max: Limit, st: State, cache: seq<string>, keyword: string,
                  response: Option<seq<Remote>>): (r: Step<FilterResult>)
  {
    if keyword == "" then
      var reset := ResetFilter(c, st);
      Step(FilterResult(cache, Success(reset.out)), reset.after)
    else
      var searched := Search(c, max, st, cache, keyword, false, response);
      match searched.out.found
      case Failure(e) => Step(FilterResult(searched.out.cache, Failure(e)), searched.after)
      case Success(found) =>
        var shown := FilterFound(c, searched.after, keyword, found);
        Step(FilterResult(searched.out.cache, Success(shown.out)), shown.after)
  }

  /** Whether the filter shows option `k` for the keyword: an active
      option whose label matches and, with `ignoreSelected`, that is not
      selected. */
  predicate Shows(c: Config, opts: seq<SelectOption>, keyword: string, k: int)
  {
    Start(c) <= k < |opts| && Matches(opts[k].text, keyword, c.policy) && !(c.ignoreSelected && opts[k].selected)
  }

  /** The filter's view and group flags in terms of the options: an item
      is left without `no-match` exactly when its option is shown, a group
      is completed exactly when every shown item it claims is selected, and
      the message shows exactly when nothing is shown, it is enabled and
      the creator is not visible as a match. */
  lemma FilterFoundShows(c: Config, st: State, keyword: string)
    ensures var r := FilterFound(c, st, keyword, MatchingIndexes(st.opts, Start(c), keyword, c.policy));
      && |r.out.noMatch| == |st.items|
      && (forall i :: 0 <= i < |st.items| ==> (!r.out.noMatch[i] <==> Shows(c, st.opts, keyword, st.items[i].option)))
      && |r.after.ui| == |st.ui|
      && (forall p :: 0 <= p < |st.ui| ==>
            (r.after.ui[p].completed <==>
               forall i :: (0 <= i < |st.items| && st.items[i].option in st.ui[p].children
                            && Shows(c, st.opts, keyword, st.items[i].option)) ==> ItemSelected(st.opts, st.items[i])))
      && (r.out.noResults <==>
            (forall i :: 0 <= i < |st.items| ==> r.out.noMatch[i])
            && c.showNoResults && !(c.createEnabled && c.isCreatorMatches && IsNewOption(c, st.opts, keyword)))
  {
    var found := MatchingIndexes(st.opts, Start(c), keyword, c.policy);
    var indexes := if c.ignoreSelected then Unselected(st.opts, found) else found;
    assert forall k :: k in indexes <==> Shows(c, st.opts, keyword, k);
  }

  /** The item creator decision: with item creation on, the filter clears
      the creator when an active option carries the keyword as its label
      (in any case) and renders it otherwise; it then reports the number
      of matching items. Without item creation only the count is reported. */
  lemma FilterFoundCreator(c: Config, st: State, keyword: string, found: seq<nat>)
    ensures var r := FilterFound(c, st, keyword, found);
      var count := MatchCount(st.items, if c.ignoreSelected then Unselected(st.opts, found) else found);
      r.after.events == st.events
        + (if !c.createEnabled then [] else if IsNewOption(c, st.opts, keyword) then [CreatorRender(keyword)] else [CreatorClear])
        + [Filtered(keyword, count)]
  {
  }

  /** `filter` for a non-empty keyword, once its search succeeded, shows
      the options this way. */
  lemma FilterShowsMatches(c: Config, max: Limit, st: State, cache: seq<string>, keyword: string, response: Option<seq<Remote>>)
    requires keyword != ""
    ensures var r := Filter(c, max, st, cache, keyword, response);
      var s := Search(c, max, st, cache, keyword, false, response).after;
      r.out.view.Success? ==>
        && r.out.cache == Search(c, max, st, cache, keyword, false, response).out.cache
        && |r.out.view.value.noMatch| == |s.items|
        && (forall i :: 0 <= i < |s.items| ==> (!r.out.view.value.noMatch[i] <==> Shows(c, s.opts, keyword, s.items[i].option)))
  {
    var searched := Search(c, max, st, cache, keyword, false, response);
    if searched.out.found.Success? {
      FilterFoundShows(c, searched.after, keyword);
    }
  }

  /** The empty keyword resets the filter: no item is marked `no-match`,
      no group is completed, the message is hidden, and the search is not
      run. */
  lemma FilterEmptyResets(c: Config, max: Limit, st: State, cache: seq<string>, response: Option<seq<Remote>>)
    ensures var r := Filter(c, max, st, cache, "", response);
      && r.out == FilterResult(cache, Success(View(seq(|st.items|, i => false), false)))
      && r.after.opts == st.opts && r.after.items == st.items
      && (forall p :: 0 <= p < |st.ui| ==> !r.after.ui[p].completed)
  {
  }
}
