/**
 * A Chosen instance as an object: the select's options and optgroups, the
 * `initialState` backup, the search list and the event log are its fields,
 * and each method of `Chosen.prototype` changes them step by step. Every
 * method is proved to leave exactly the state the matching function of
 * `Instance`, `SearchList` or `Lifecycle` describes, so the lemmas proved
 * there hold of the object.
 */
module ChosenModel {
  import opened Wrappers
  import opened OptionStore
  import opened Groups
  import opened Matching
  import opened Instance
  import opened SearchList
  import opened Lifecycle

  /** The loop of `.prop('selected', fn)`: option `k` takes `selected[k]`
      through the select's own selection rule, for every `k` both lists
      reach. */
  method SelectedByFlags(o0: seq<SelectOption>, groups: seq<OptGroup>, multiple: bool, selected: seq<bool>)
    returns (o: seq<SelectOption>)
    ensures o == AssignSelected(o0, groups, multiple, selected, |o0|)
  {
    o := o0;
    var k := 0;
    var m := if |selected| < |o0| then |selected| else |o0|;
    while k < m
      invariant k <= m
      invariant o == AssignSelected(o0, groups, multiple, selected, k)
    {
      o := SetSelected(o, groups, multiple, k, selected[k]);
      k := k + 1;
    }
    if k < |o0| {
      AssignSelectedPast(o0, groups, multiple, selected, k, |o0|);
    }
  }

  class Chosen {
    const cfg: Config
    /** `options.multiMode.maxSelected`, which `init` lifts for a while. */
    var maxSelected: Limit
    var opts: seq<SelectOption>
    var groups: seq<OptGroup>
    var backupSelected: seq<bool>
    var backupDisabled: seq<bool>
    var items: seq<SearchItem>
    var ui: seq<UiGroup>
    var events: seq<Event>

    /** The fields as one value. */
    function St(): State
      reads this
    {
      State(opts, groups, backupSelected, backupDisabled, items, ui, events)
    }

    /** `new Chosen(select, options)`. */
    constructor (c: Config, max: Limit, options: seq<SelectOption>, optgroups: seq<OptGroup>)
      ensures cfg == c && maxSelected == max
      ensures St() == Create(c, max, options, optgroups)
    {
      cfg, maxSelected := c, max;
      groups := optgroups;
      opts := Prepared(c, options, optgroups);
      backupSelected, backupDisabled := [], [];
      items, ui, events := [], [], [];
      new;
      ghost var o := opts;
      assert St() == State(o, optgroups, [], [], [], [], []);
      Backup(opts, false);
      ghost var st := St();
      assert st == Instance.Backup(State(o, optgroups, [], [], [], [], []), o, false);
      ComposeList();
      assert St() == Compose(c, st);
      Init();
    }

    /** `selectItem(index)`. */
    method SelectItem(index: int) returns (r: Result<bool, ChosenError>)
      modifies this
      ensures Step(r, St()) == Select(cfg, maxSelected, old(St()), index)
      ensures maxSelected == old(maxSelected)
    {
      if LimitReached(cfg, maxSelected, opts) {
        events := events + [MaxSelected];
        return Success(false);
      }
      if !(0 <= index < |opts|) {
        return Failure(TypeError);
      }
      var o := SetSelected(opts, groups, cfg.multiple, index, true);
      var sel := Selection(o, Start(cfg));
      opts, events := o, events + [OptionSelected(index, sel), Change(index, sel)];
      r := Success(true);
    }

    /** `deselectItem(index)`, with the single drop-down's handler of
        `chzn:option-deselected` selecting option 0 again. */
    method DeselectItem(index: int) returns (r: Outcome<ChosenError>)
      modifies this
      ensures Step(r, St()) == Deselect(cfg, old(St()), index)
      ensures maxSelected == old(maxSelected)
    {
      if !(0 <= index < |opts|) {
        return Fail(TypeError);
      }
      DeselectAt(index);
      r := Pass;
    }

    /** `deselectItem` for an option that exists. */
    method DeselectAt(index: nat)
      requires index < |opts|
      modifies this
      ensures St() == Deselected(cfg, old(St()), index)
      ensures maxSelected == old(maxSelected)
    {
      DeselectOption(index);
      if ReselectsFirst(cfg) {
        ReselectFirst();
      }
      AnnounceChange(index);
    }

    /** `chzn:change` for option `index`, with the current selection. */
    method AnnounceChange(index: nat)
      modifies this
      ensures St() == old(St()).(events := old(events) + [Change(index, Selection(old(opts), Start(cfg)))])
      ensures maxSelected == old(maxSelected)
    {
      events := events + [Change(index, Selection(opts, Start(cfg)))];
    }

    /** The option at `index` deselected and `chzn:option-deselected`
        triggered. */
    method DeselectOption(index: nat)
      requires index < |opts|
      modifies this
      ensures var o := SetSelected(old(opts), old(groups), cfg.multiple, index, false);
        St() == old(St()).(opts := o, events := old(events) + [OptionDeselected(index, Selection(o, Start(cfg)))])
      ensures maxSelected == old(maxSelected)
    {
      var o := SetSelected(opts, groups, cfg.multiple, index, false);
      opts, events := o, events + [OptionDeselected(index, Selection(o, Start(cfg)))];
    }

    /** The single drop-down's handler of `chzn:option-deselected`,
        which never meets a limit. */
    method ReselectFirst()
      requires ReselectsFirst(cfg) && opts != []
      modifies this
      ensures St() == Reselected(cfg, old(St()))
      ensures maxSelected == old(maxSelected)
    {
      var reselected := SelectItem(0);
    }

    /** `addItem(config, {save: save})`. */
    method AddItem(config: ItemConfig, save: bool) returns (r: Outcome<ChosenError>)
      modifies this
      ensures Step(r, St()) == Add(cfg, maxSelected, old(St()), config, save)
      ensures maxSelected == old(maxSelected)
    {
      if config.text == "" {
        return Fail(EmptyLabel);
      }
      if !IsNewOption(cfg, opts, config.text) {
        return Fail(DuplicateLabel(config.text));
      }
      var n := |opts|;
      AppendOption(config, save);
      if opts[n].selected || cfg.selectCreated {
        var selected := SelectItem(n);
      }
      r := Pass;
    }

    /** What `addItem` does once the label is accepted, before the new
        option is selected. */
    method AppendOption(config: ItemConfig, save: bool)
      modifies this
      ensures St() == Appended(cfg, old(St()), config, save)
      ensures maxSelected == old(maxSelected)
    {
      var o := NewOption(config, save);
      if save {
        Backup([o], true);
      }
      var n := |opts|;
      opts := Append(opts, groups, cfg.multiple, o);
      items := items + [SearchItem(n, false)];
      events := events + [OptionCreated(n)];
    }

    /** `removeItem(index)`. */
    method RemoveItem(index: int) returns (r: Outcome<ChosenError>)
      modifies this
      ensures Step(r, St()) == Instance.Remove(cfg, old(St()), index)
      ensures maxSelected == old(maxSelected)
    {
      if !(0 <= index < |opts|) {
        return Fail(NoSuchOption(index));
      }
      var parent := opts[index].group;
      SpliceOut(index);
      r := DetachItem(index, parent);
    }

    /** What `removeItem` does before it looks at the optgroup. */
    method SpliceOut(index: nat)
      requires index < |opts|
      modifies this
      ensures St() == Spliced(cfg, old(St()), index)
      ensures maxSelected == old(maxSelected)
    {
      ShiftRecords(index);
      opts := OptionStore.Remove(opts, groups, cfg.multiple, index);
    }

    /** The search items, the backup and the events once the option at
        `index` is gone. */
    method ShiftRecords(index: nat)
      modifies this
      ensures St() == old(St()).(items := Reindex(old(items), index, false),
        backupSelected := SpliceOne(old(backupSelected), index), backupDisabled := SpliceOne(old(backupDisabled), index),
        events := old(events) + [OptionRemoved(index)])
      ensures maxSelected == old(maxSelected)
    {
      items, backupSelected, backupDisabled, events :=
        Reindex(items, index, false),
        SpliceOne(backupSelected, index), SpliceOne(backupDisabled, index),
        events + [OptionRemoved(index)];
    }

    /** What `removeItem` does to the group item and the optgroup of the
        option it removed. */
    method DetachItem(index: nat, parent: Option<nat>) returns (r: Outcome<ChosenError>)
      modifies this
      ensures Step(r, St()) == Detach(cfg, old(St()), index, parent)
      ensures maxSelected == old(maxSelected)
    {
      if parent.Some? && parent.value < |groups| {
        var g := parent.value;
        var remaining := Members(opts, g);
        if cfg.excludeDisabled && AllDisabled(opts, remaining) {
          ui := WithoutGroupsOf(ui, index);
          if |remaining| == 0 {
            groups := groups[g := groups[g].(present := false)];
          }
        } else {
          var matched := GroupsWith(ui, index);
          if matched == [] {
            return Fail(TypeError);
          }
          ui := SetChildrenOf(ui, index, DropChild(ui[matched[0]].children, index));
        }
      }
      r := Pass;
    }

    /** `resetNewItems`: the unsaved created options removed one by one,
        from the highest index down; an exception ends the loop. */
    method ResetNewItems() returns (r: Outcome<ChosenError>)
      modifies this
      ensures Step(r, St()) == ResetNew(cfg, old(St()))
      ensures maxSelected == old(maxSelected)
    {
      ghost var s0 := St();
      var ks := Reversed(NewIndexes(opts));
      var i := 0;
      r := Pass;
      while i < |ks| && r.Pass?
        invariant 0 <= i <= |ks|
        invariant r.Pass? ==> RemoveAll(cfg, St(), ks[i..]) == RemoveAll(cfg, s0, ks)
        invariant r.Fail? ==> Step(r, St()) == RemoveAll(cfg, s0, ks)
        invariant maxSelected == old(maxSelected)
      {
        r := RemoveNext(ks[i..]);
        i := i + 1;
      }
    }

    /** One turn of the `resetNewItems` loop: the first of the indexes
        left is removed. */
    method RemoveNext(ks: seq<int>) returns (r: Outcome<ChosenError>)
      requires ks != []
      modifies this
      ensures r.Pass? ==> RemoveAll(cfg, St(), ks[1..]) == RemoveAll(cfg, old(St()), ks)
      ensures r.Fail? ==> Step(r, St()) == RemoveAll(cfg, old(St()), ks)
      ensures maxSelected == old(maxSelected)
    {
      r := RemoveItem(ks[0]);
    }

    /** `saveNewItems`. */
    method SaveNewItems()
      modifies this
      ensures St() == SaveNew(old(St()))
      ensures maxSelected == old(maxSelected)
    {
      var nodes := At(opts, NewIndexes(opts));
      opts := Saved(opts);
      Backup(nodes, true);
    }

    /** `backup(options, update)`. */
    method Backup(nodes: seq<SelectOption>, update: bool)
      modifies this
      ensures St() == Instance.Backup(old(St()), nodes, update)
      ensures maxSelected == old(maxSelected)
    {
      var bs := if update then backupSelected else [];
      var bd := if update then backupDisabled else [];
      backupSelected := bs + SelectedFlags(nodes);
      backupDisabled := bd + DisabledFlags(nodes);
    }

    /** `composeListItems`. */
    method ComposeList()
      modifies this
      ensures St() == Compose(cfg, old(St()))
      ensures maxSelected == old(maxSelected)
    {
      items := ComposeItems(opts, groups, Start(cfg), cfg.excludeDisabled);
      ui := ComposeGroups(opts, groups, items, |groups|);
    }

    /** `init`. */
    method Init()
      modifies this
      ensures St() == Lifecycle.Init(cfg, old(maxSelected), old(St()))
      ensures maxSelected == old(maxSelected)
    {
      var limit := maxSelected;
      if cfg.multiple {
        if limit.AtMost? && SelectedCount(opts) > limit.n {
          opts := KeepFirst(opts, Keep(limit.n));
        }
        maxSelected := Unbounded;
      }
      ghost var trimmed := St();
      assert trimmed == old(St()).(opts := Trim(cfg, limit, old(opts)));
      SelectActive();
      maxSelected := limit;
      FinishInit();
    }

    /** The bulk pass of `init`: every active option found selected when
        its turn comes is selected again through `selectItem`. */
    method SelectActive()
      requires cfg.multiple ==> maxSelected == Unbounded
      modifies this
      ensures St() == InitSelect(cfg, old(St()), |old(opts)|)
      ensures maxSelected == old(maxSelected)
    {
      ghost var s0 := St();
      var n := |opts|;
      var k := 0;
      while k < n
        invariant 0 <= k <= n == |s0.opts|
        invariant St() == InitSelect(cfg, s0, k)
        invariant maxSelected == old(maxSelected)
      {
        ReselectAt(s0, k);
        k := k + 1;
      }
    }

    /** One turn of the bulk pass: option `k`, when it is active and found
        selected, is selected again. */
    method ReselectAt(ghost s0: State, k: nat)
      requires k < |s0.opts| && St() == InitSelect(cfg, s0, k)
      requires cfg.multiple ==> maxSelected == Unbounded
      modifies this
      ensures St() == InitSelect(cfg, s0, k + 1)
      ensures maxSelected == old(maxSelected)
    {
      if Start(cfg) <= k {
        InitSelectUnfold(cfg, s0, k + 1);
        if opts[k].selected {
          if !cfg.multiple {
            SelectSingleIgnoresLimit(cfg, maxSelected, St(), k);
          }
          var selected := SelectItem(k);
        }
      }
    }

    /** The end of `init`. */
    method FinishInit()
      modifies this
      ensures St() == InitFinish(cfg, PresentCount(old(groups)), old(St()))
      ensures maxSelected == old(maxSelected)
    {
      events := events + [ClearHighlight];
      if cfg.allowCollapse && cfg.collapseOnInit {
        var count := PresentCount(groups);
        if count > 0 {
          events := events + [ToggleRequest(Positions(count), Some(true))];
          ToggleGroup(Positions(count), Some(true));
        }
      }
      if cfg.openAfterInit {
        events := events + [DropdownOpen];
      }
    }

    /** The `chzn:search-list:toggle-group` handler: the flag, when none is
        passed, is taken from the first picked group item. */
    method ToggleGroup(indexes: seq<int>, collapse: Option<bool>)
      modifies this
      ensures St() == ToggleGroups(old(St()), indexes, collapse)
      ensures maxSelected == old(maxSelected)
    {
      ghost var s0 := St();
      var isCollapsed := collapse;
      var i := 0;
      while i < |indexes|
        invariant Toggling(s0, indexes, collapse, i, isCollapsed)
        invariant maxSelected == old(maxSelected)
      {
        isCollapsed := ToggleNext(s0, indexes, collapse, i, isCollapsed);
        i := i + 1;
      }
    }

    /** The toggle loop after `i` of the `indexes`, with the flag decided
        by the first one unless it was given. */
    ghost predicate Toggling(s0: State, indexes: seq<int>, collapse: Option<bool>, i: nat, isCollapsed: Option<bool>)
      reads this
    {
      && i <= |indexes| && |ui| == |s0.ui|
      && (i == 0 ==> St() == s0 && isCollapsed == collapse)
      && (i > 0 ==>
            && isCollapsed.Some?
            && St() == ToggleWith(s0, indexes, isCollapsed.value, i)
            && ToggleGroups(s0, indexes, collapse) == ToggleWith(s0, indexes, isCollapsed.value, |indexes|))
    }

    /** One turn of the toggle loop: the flag is decided if it is not yet,
        and the group at `indexes[i]` toggled with it. */
    method ToggleNext(ghost s0: State, indexes: seq<int>, ghost collapse: Option<bool>, i: nat, isCollapsed: Option<bool>)
      returns (next: Option<bool>)
      requires i < |indexes| && Toggling(s0, indexes, collapse, i, isCollapsed)
      modifies this
      ensures Toggling(s0, indexes, collapse, i + 1, next)
      ensures maxSelected == old(maxSelected)
    {
      next := isCollapsed;
      var p := EqIndex(|ui|, indexes[i]);
      if next.None? {
        next := Some(p.None? || !ui[p.value].collapsed);
      }
      ToggleAt(indexes[i], next.value);
    }

    /** One step of the toggle loop. */
    method ToggleAt(index: int, v: bool)
      modifies this
      ensures St() == ToggleOne(old(St()), index, v)
      ensures maxSelected == old(maxSelected)
    {
      var p := EqIndex(|ui|, index);
      if p.Some? {
        var children := ui[p.value].children;
        ui := ui[p.value := ui[p.value].(collapsed := v)];
        items := CollapseItems(items, children, v);
      }
      events := events + [GroupToggled(index, v)];
    }

    /** Copies the flags onto the options in document order, `selected`
        first and then `disabled` (jQuery's `.prop(name, function)`); an
        option past the end of a list keeps its flag. */
    method AssignFlags(selected: seq<bool>, disabled: seq<bool>)
      modifies this
      ensures St() == old(St()).(opts := Assigned(cfg.multiple, old(opts), old(groups), selected, disabled))
      ensures maxSelected == old(maxSelected)
    {
      SetSelectedFlags(selected);
      SetDisabledFlags(disabled);
    }

    /** The flags restored from the backup, then cleared when `hard`. */
    method RestoreFlags(hard: bool)
      modifies this
      ensures St() == old(St()).(opts := Restored(cfg.multiple, old(opts), old(groups), old(backupSelected), old(backupDisabled), hard))
      ensures maxSelected == old(maxSelected)
    {
      AssignFlags(backupSelected, backupDisabled);
      if hard {
        AssignFlags(Falses(|opts|), Falses(|opts|));
      }
    }

    /** `.prop('selected', fn)` over every option. */
    method SetSelectedFlags(selected: seq<bool>)
      modifies this
      ensures St() == old(St()).(opts := AssignSelected(old(opts), old(groups), cfg.multiple, selected, |old(opts)|))
      ensures maxSelected == old(maxSelected)
    {
      var o := SelectedByFlags(opts, groups, cfg.multiple, selected);
      opts := o;
    }

    /** `.prop('disabled', fn)` over every option. */
    method SetDisabledFlags(disabled: seq<bool>)
      modifies this
      ensures St() == old(St()).(opts := AssignDisabled(old(opts), disabled))
      ensures maxSelected == old(maxSelected)
    {
      var o0 := opts;
      var o := o0;
      var k := 0;
      while k < |o0|
        invariant 0 <= k <= |o0| == |o|
        invariant forall j :: 0 <= j < |o| ==> o[j] == if j < k then AssignDisabled(o0, disabled)[j] else o0[j]
      {
        if k < |disabled| {
          o := o[k := o[k].(disabled := disabled[k])];
        }
        k := k + 1;
      }
      assert o == AssignDisabled(o0, disabled);
      opts := o;
    }

    /** `reset({hard: hard, silent: silent})`. */
    method Reset(hard: bool, silent: bool)
      modifies this
      ensures St() == Lifecycle.Reset(cfg, old(maxSelected), old(St()), hard, silent)
      ensures maxSelected == old(maxSelected)
    {
      ghost var s0 := St();
      var removed := ResetNewItems();
      ghost var t := St();
      RestoreFlags(hard);
      events := events + [ItemsComposed];
      assert St() == t.(opts := Restored(cfg.multiple, t.opts, t.groups, t.backupSelected, t.backupDisabled, hard),
                        events := t.events + [ItemsComposed]);
      ComposeList();
      Init();
      assert St() == Lifecycle.Init(cfg, maxSelected, Compose(cfg, t.(opts := Restored(cfg.multiple, t.opts, t.groups, t.backupSelected, t.backupDisabled, hard),
                        events := t.events + [ItemsComposed])));
      if !silent {
        events := events + [Reseted(hard)];
      }
    }

    /** Adds each received record with `addItem(record, true)`, stopping at
        the first one that fails. */
    method AddReceived(received: seq<Remote>) returns (out: Outcome<ChosenError>)
      modifies this
      ensures Step(out, St()) == AddRecords(cfg, maxSelected, old(St()), received, |received|)
      ensures maxSelected == old(maxSelected)
    {
      ghost var s0, max0 := St(), maxSelected;
      var i := 0;
      out := Pass;
      while i < |received| && out.Pass?
        invariant Adding(s0, max0, received, i, out)
      {
        out := AddAt(s0, max0, received, i);
        i := i + 1;
      }
    }

    /** The loop invariant of `AddReceived`: after `i` records the state is
        the one `AddRecords` describes, and a failure is final. */
    ghost predicate Adding(s0: State, max0: Limit, received: seq<Remote>, i: nat, out: Outcome<ChosenError>)
      reads this
    {
      && i <= |received|
      && maxSelected == max0
      && Step(out, St()) == AddRecords(cfg, maxSelected, s0, received, if out.Pass? then i else |received|)
    }

    /** One record of `AddReceived`. */
    method AddAt(ghost s0: State, ghost max0: Limit, received: seq<Remote>, i: nat) returns (out: Outcome<ChosenError>)
      requires i < |received| && Adding(s0, max0, received, i, Pass)
      modifies this
      ensures Adding(s0, max0, received, i + 1, out)
    {
      ghost var s := St();
      out := AddItem(RecordConfig(received[i]), true);
      AddRecordsAdvance(cfg, maxSelected, s0, received, i, s, Step(out, St()));
    }

    /** `search(keyword, forceRequest)` with the shared keyword cache;
        `response` stands for the server's answer. */
    method Search(cache: RequestCache, keyword: string, force: bool, response: Option<seq<Remote>>)
      returns (found: Result<seq<nat>, ChosenError>)
      modifies this, cache
      ensures Step(Searched(cache.keywords, found), St())
        == SearchList.Search(cfg, maxSelected, old(St()), old(cache.keywords), keyword, force, response)
      ensures maxSelected == old(maxSelected)
    {
      if ShouldRequest(cfg.ajaxEnabled, force, cfg.ajaxCache, cache.keywords, keyword) && response.Some? {
        var received := FreshRecords(response.value, MappedOptions(opts));
        cache.Push(keyword);
        var added := AddReceived(received);
        if added.Fail? {
          return Failure(added.error);
        }
      }
      var indexes := MatchOptions(opts, Start(cfg), keyword, cfg.policy);
      found := Success(indexes);
    }

    /** The `chzn:search-list:filter` handler for a keyword. */
    method Filter(cache: RequestCache, keyword: string, response: Option<seq<Remote>>)
      returns (view: Result<View, ChosenError>)
      modifies this, cache
      ensures Step(FilterResult(cache.keywords, view), St())
        == SearchList.Filter(cfg, maxSelected, old(St()), old(cache.keywords), keyword, response)
      ensures maxSelected == old(maxSelected)
    {
      if keyword == "" {
        var v := ShowReset();
        return Success(v);
      }
      var found := Search(cache, keyword, false, response);
      match found
      case Failure(e) =>
        view := Failure(e);
      case Success(indexes) =>
        var v := ShowFound(keyword, indexes);
        view := Success(v);
    }

    /** The `reset-filter` handler's view and group flags. */
    method ShowReset() returns (v: View)
      modifies this
      ensures Step(v, St()) == ResetFilter(cfg, old(St()))
      ensures maxSelected == old(maxSelected)
    {
      var reset := ResetFilter(cfg, St());
      ui, events := reset.after.ui, reset.after.events;
      v := reset.out;
    }

    /** The view of the options found for a keyword. */
    method ShowFound(keyword: string, indexes: seq<nat>) returns (v: View)
      modifies this
      ensures Step(v, St()) == FilterFound(cfg, old(St()), keyword, indexes)
      ensures maxSelected == old(maxSelected)
    {
      var shown := FilterFound(cfg, St(), keyword, indexes);
      ui, events := shown.after.ui, shown.after.events;
      v := shown.out;
    }
  }
}
