/**
 * One `Chosen` instance as a value: the select's options and optgroups, the
 * backed-up `initialState`, the search list's items and groups, and the
 * plugin events triggered so far. Each public method of `Chosen.prototype`
 * is a function from the old value to the new one (and its result); the
 * class in module ChosenModel performs them step by step and is proved
 * equal to these functions, and the properties of the plugin are lemmas
 * about them.
 */
module Instance {
  import opened Wrappers
  import opened Text
  import opened OptionStore
  import opened Groups
  import opened Matching

  /** `multiMode.maxSelected`: `Infinity` or a number. */
  datatype Limit = Unbounded | AtMost(n: int)

  /** The select's `multiple` attribute and the options that the core reads. */
  datatype Config = Config(
    multiple: bool,          // the select's `multiple` attribute
    allowDeselect: bool,     // singleMode.allowDeselect
    autocomplete: bool,      // ui.autocompleteMode.enabled
    placeholder: string,     // ui.placeholder
    policy: MatchPolicy,     // search.bySubstr, search.splitWords
    ajaxEnabled: bool,       // search.ajax.enabled
    ajaxCache: bool,         // search.ajax.cache
    createEnabled: bool,     // createItems.enabled
    selectCreated: bool,     // ui.createItems.selectCreated
    allowCollapse: bool,     // ui.groups.allowCollapse
    collapseOnInit: bool,    // ui.groups.collapseOnInit
    openAfterInit: bool,     // ui.openAfterInit
    excludeDisabled: bool,   // ui.search.excludeDisabled
    ignoreSelected: bool,    // ui.search.ignoreSelected
    isCreatorMatches: bool,  // ui.search.isCreatorMatches
    showNoResults: bool)     // ui.search.showNoResultsMessage

  /** The plugin events, in the order they are triggered. Selections are the
      indexes of the selected active options at that moment. */
  datatype Event =
    | OptionSelected(option: nat, selection: seq<nat>)    // chzn:option-selected
    | OptionDeselected(option: nat, selection: seq<nat>)  // chzn:option-deselected
    | Change(option: nat, selection: seq<nat>)            // chzn:change
    | MaxSelected                                         // chzn:max-selected
    | OptionCreated(option: nat)                          // chzn:option-created
    | OptionRemoved(option: nat)                          // chzn:option-removed
    | ClearHighlight                                      // chzn:search-list:clear-highlight
    | ItemsComposed                                       // chzn:search-list:compose-items
    | ToggleRequest(groupIndexes: seq<int>, collapse: Option<bool>) // chzn:search-list:toggle-group
    | GroupToggled(index: int, collapsed: bool)           // chzn:search-list:group-toggled
    | DropdownOpen                                        // chzn:dropdown:open
    | Reseted(hard: bool)                                 // chzn:reseted
    | FilterReset                                         // chzn:search-list:reset-filter
    | CreatorRender(keyword: string)                      // chzn:item-creator:render
    | CreatorClear                                        // chzn:item-creator:clear
    | Filtered(keyword: string, count: nat)               // chzn:search-list:filtered

  /** The exceptions the core throws. */
  datatype ChosenError =
    | TypeError                  // a property set on `undefined`
    | EmptyLabel                 // 'Option label must be specified'
    | DuplicateLabel(text: string) // 'Option creation is denied. ...'
    | NoSuchOption(index: int)   // ReferenceError 'Option with index ... does not exists'

  /** Everything the core reads and writes. */
  datatype State = State(
    opts: seq<SelectOption>, groups: seq<OptGroup>,
    backupSelected: seq<bool>, backupDisabled: seq<bool>,
    items: seq<SearchItem>, ui: seq<UiGroup>,
    events: seq<Event>)

  /** A method's result together with the state it leaves. */
  datatype Step<T> = Step(out: T, after: State)

  /** `isHiddenOptionRequired`: a select without `multiple` gets a hidden
      empty first option when single deselection or autocomplete is on. */
  predicate HiddenRequired(c: Config)
  {
    !c.multiple && (c.allowDeselect || c.autocomplete)
  }

  /** Where `getActiveOptions` starts: after the hidden option, if required. */
  function Start(c: Config): (s: nat)
    ensures s == 1 <==> HiddenRequired(c)
    ensures s <= 1
  {
    if HiddenRequired(c) then 1 else 0
  }

  /** `isSelectionLimitReached`: with `multiple`, at least `maxSelected`
      options of the whole select are selected. */
  predicate LimitReached(c: Config, max: Limit, opts: seq<SelectOption>)
  {
    c.multiple && max.AtMost? && SelectedCount(opts) >= max.n
  }

  /** `isNewOption`: no active option has the same label, compared without
      regard to case. */
  predicate IsNewOption(c: Config, opts: seq<SelectOption>, text: string)
  {
    forall k :: Start(c) <= k < |opts| ==> !TextCompare(text, opts[k].text)
  }

  /** What the browser and the plugin keep true of an instance: the two
      backup arrays have one entry per backed-up option, every option's
      optgroup exists and is still in the document, and without `multiple`
      at most one option is selected. */
  ghost predicate Valid(c: Config, st: State)
  {
    && |st.backupSelected| == |st.backupDisabled|
    && GroupsPresent(st.opts, st.groups)
    && (!c.multiple ==> SelectedCount(st.opts) <= 1)
  }

  /** Every option's optgroup exists and is still in the document. */
  ghost predicate GroupsPresent(opts: seq<SelectOption>, groups: seq<OptGroup>)
  {
    forall k :: 0 <= k < |opts| && opts[k].group.Some? ==>
      opts[k].group.value < |groups| && groups[opts[k].group.value].present
  }

  lemma GroupsPresentSameBut(a: seq<SelectOption>, b: seq<SelectOption>, groups: seq<OptGroup>)
    requires SameButSelection(a, b) && GroupsPresent(b, groups)
    ensures GroupsPresent(a, groups)
  {
    SameButFields(a, b);
  }

  // ----- selectItem / deselectItem -----

  /** `selectItem(index)`: refused with `chzn:max-selected` once the limit is
      reached; a missing option throws; otherwise the option is selected and
      `chzn:option-selected` and `chzn:change` report it with the new
      selection. */
  function Select(c: Config, max: Limit, st: State, index: int): (r: Step<Result<bool, ChosenError>>)
    ensures r.out == Success(false) <==> LimitReached(c, max, st.opts)
    ensures r.out == Success(false) ==> r.after == st.(events := st.events + [MaxSelected])
    ensures r.out.Failure? <==> !LimitReached(c, max, st.opts) && !(0 <= index < |st.opts|)
    ensures r.out.Failure? ==> r.out.error == TypeError && r.after == st
    ensures r.out == Success(true) ==>
      && 0 <= index < |st.opts|
      && SameButSelection(r.after.opts, st.opts)
      && r.after.opts[index].selected
      && (c.multiple ==> forall k :: 0 <= k < |st.opts| && k != index ==> r.after.opts[k] == st.opts[k])
      && (!c.multiple ==> Selection(r.after.opts, 0) == [index])
      && r.after == st.(opts := r.after.opts, events := r.after.events)
      && r.after.events == st.events + [OptionSelected(index, Selection(r.after.opts, Start(c))),
                                        Change(index, Selection(r.after.opts, Start(c)))]
  {
    if LimitReached(c, max, st.opts) then Step(Success(false), st.(events := st.events + [MaxSelected]))
    else if !(0 <= index < |st.opts|) then Step(Failure(TypeError), st)
    else
      var o := SetSelected(st.opts, st.groups, c.multiple, index, true);
      if !c.multiple then CountOne(o, index); SelectStep(c, st, index, o)
      else SelectStep(c, st, index, o)
  }

  function SelectStep(c: Config, st: State, index: nat, o: seq<SelectOption>): Step<Result<bool, ChosenError>>
  {
    var sel := Selection(o, Start(c));
    Step(Success(true), st.(opts := o, events := st.events + [OptionSelected(index, sel), Change(index, sel)]))
  }

  /** What a selection leaves alone: everything but selectedness and the
      events, which it only extends. */
  lemma SelectKeeps(c: Config, max: Limit, st: State, index: int)
    ensures var s := Select(c, max, st, index).after;
      && SameButSelection(s.opts, st.opts)
      && (!c.multiple && SelectedCount(st.opts) <= 1 ==> SelectedCount(s.opts) <= 1)
      && s == st.(opts := s.opts, events := s.events)
      && |s.events| >= |st.events| && s.events[..|st.events|] == st.events
  {
    var s := Select(c, max, st, index).after;
    assert s.events[..|st.events|] == st.events;
  }

  /** Without `multiple` the limit plays no part in a selection. */
  lemma SelectSingleIgnoresLimit(c: Config, max: Limit, st: State, index: int)
    requires !c.multiple
    ensures Select(c, max, st, index) == Select(c, Unbounded, st, index)
  {
  }

  /** The deselection handler of the single drop-down (bound when the select
      has no `multiple` and autocomplete is off) selects option 0 again. */
  predicate ReselectsFirst(c: Config)
  {
    !c.multiple && !c.autocomplete
  }

  /** `deselectItem(index)`: a missing option throws; otherwise the option
      is deselected and `chzn:option-deselected` is triggered, whose handler
      may select option 0 (with its own events), then `chzn:change`. The
      events come even when the option was not selected. */
  function Deselect(c: Config, st: State, index: int): (r: Step<Outcome<ChosenError>>)
    ensures r.out.Fail? <==> !(0 <= index < |st.opts|)
    ensures r.out.Fail? ==> r.out.error == TypeError && r.after == st
    ensures r.out.Pass? ==>
      && SameButSelection(r.after.opts, st.opts)
      && r.after == st.(opts := r.after.opts, events := r.after.events)
      && |r.after.events| > |st.events| && r.after.events[..|st.events|] == st.events
    ensures r.out.Pass? && c.multiple ==>
      && r.after.opts == st.opts[index := st.opts[index].(selected := false)]
      && r.after.events == st.events + [OptionDeselected(index, Selection(r.after.opts, 0)),
                                        Change(index, Selection(r.after.opts, 0))]
    ensures r.out.Pass? && ReselectsFirst(c) ==>
      forall k :: 0 <= k < |r.after.opts| ==> r.after.opts[k].selected == (k == 0)
    ensures r.out.Pass? && ReselectsFirst(c) ==>
      var sel := Selection(r.after.opts, Start(c));
      r.after.events == st.events + [OptionDeselected(index, Selection(SetSelected(st.opts, st.groups, false, index, false), Start(c))),
                                     OptionSelected(0, sel), Change(0, sel), Change(index, sel)]
    ensures r.out.Pass? && !c.multiple && c.autocomplete ==>
      && r.after.opts == SetSelected(st.opts, st.groups, false, index, false)
      && r.after.events == st.events + [OptionDeselected(index, Selection(r.after.opts, Start(c))),
                                        Change(index, Selection(r.after.opts, Start(c)))]
  {
    if !(0 <= index < |st.opts|) then Step(Fail(TypeError), st)
    else
      DeselectedKeeps(c, st, index);
      DeselectedMultiple(c, st, index);
      DeselectedReselects(c, st, index);
      DeselectedAutocomplete(c, st, index);
      Step(Pass, Deselected(c, st, index))
  }

  lemma DeselectedKeeps(c: Config, st: State, index: nat)
    requires index < |st.opts|
    ensures var s := Deselected(c, st, index);
      && SameButSelection(s.opts, st.opts)
      && s == st.(opts := s.opts, events := s.events)
      && |s.events| > |st.events| && s.events[..|st.events|] == st.events
  {
    if ReselectsFirst(c) {
      DeselectedUnfold(c, st, index);
      ReselectedEvents(c, st, index, SetSelected(st.opts, st.groups, false, index, false));
    }
  }

  lemma DeselectedMultiple(c: Config, st: State, index: nat)
    requires index < |st.opts|
    ensures var s := Deselected(c, st, index);
      c.multiple ==>
      && s.opts == st.opts[index := st.opts[index].(selected := false)]
      && s.events == st.events + [OptionDeselected(index, Selection(s.opts, 0)), Change(index, Selection(s.opts, 0))]
  {
  }

  lemma DeselectedReselects(c: Config, st: State, index: nat)
    requires index < |st.opts|
    ensures var s := Deselected(c, st, index);
      ReselectsFirst(c) ==> forall k :: 0 <= k < |s.opts| ==> s.opts[k].selected == (k == 0)
    ensures var s := Deselected(c, st, index); var sel := Selection(s.opts, Start(c));
      ReselectsFirst(c) ==>
        s.events == st.events + [OptionDeselected(index, Selection(SetSelected(st.opts, st.groups, false, index, false), Start(c))),
                                 OptionSelected(0, sel), Change(0, sel), Change(index, sel)]
  {
    if ReselectsFirst(c) {
      DeselectedUnfold(c, st, index);
      ReselectedEvents(c, st, index, SetSelected(st.opts, st.groups, false, index, false));
    }
  }

  lemma DeselectedUnfold(c: Config, st: State, index: nat)
    requires index < |st.opts| && ReselectsFirst(c)
    ensures var o1 := SetSelected(st.opts, st.groups, false, index, false);
      var s2 := Reselected(c, st.(opts := o1, events := st.events + [OptionDeselected(index, Selection(o1, Start(c)))]));
      Deselected(c, st, index) == s2.(events := s2.events + [Change(index, Selection(s2.opts, Start(c)))])
  {
  }

  /** The events of a deselection followed by the handler's reselection,
      for any options the deselection left. */
  lemma ReselectedEvents(c: Config, st: State, index: nat, o1: seq<SelectOption>)
    requires o1 != [] && ReselectsFirst(c)
    ensures var s2 := Reselected(c, st.(opts := o1, events := st.events + [OptionDeselected(index, Selection(o1, Start(c)))]));
      && SameButSelection(s2.opts, o1)
      && (forall k :: 0 <= k < |s2.opts| ==> s2.opts[k].selected == (k == 0))
    ensures var s2 := Reselected(c, st.(opts := o1, events := st.events + [OptionDeselected(index, Selection(o1, Start(c)))]));
      var sel := Selection(s2.opts, Start(c));
      s2.events + [Change(index, sel)]
        == st.events + [OptionDeselected(index, Selection(o1, Start(c))), OptionSelected(0, sel), Change(0, sel), Change(index, sel)]
  {
    var d := OptionDeselected(index, Selection(o1, Start(c)));
    var s2 := Reselected(c, st.(opts := o1, events := st.events + [d]));
    var sel := Selection(s2.opts, Start(c));
    ReselectedUnfold(c, st.(opts := o1, events := st.events + [d]));
    EventsOfFour(s2.events + [Change(index, sel)], st.events, d, OptionSelected(0, sel), Change(0, sel), Change(index, sel));
  }

  lemma ReselectedUnfold(c: Config, s1: State)
    requires s1.opts != [] && ReselectsFirst(c)
    ensures var s2 := Reselected(c, s1); var sel := Selection(s2.opts, Start(c));
      && SameButSelection(s2.opts, s1.opts)
      && (forall k :: 0 <= k < |s2.opts| ==> s2.opts[k].selected == (k == 0))
      && s2.events == s1.events + [OptionSelected(0, sel), Change(0, sel)]
  {
  }

  lemma DeselectedAutocomplete(c: Config, st: State, index: nat)
    requires index < |st.opts|
    ensures var s := Deselected(c, st, index);
      !c.multiple && c.autocomplete ==>
        && s.opts == SetSelected(st.opts, st.groups, false, index, false)
        && s.events == st.events + [OptionDeselected(index, Selection(s.opts, Start(c))),
                                    Change(index, Selection(s.opts, Start(c)))]
  {
  }

  lemma EventsOfFour(e: seq<Event>, p: seq<Event>, a: Event, b: Event, x: Event, d: Event)
    requires |e| == |p| + 4 && e[..|p|] == p
    requires e[|p|] == a && e[|p| + 1] == b && e[|p| + 2] == x && e[|p| + 3] == d
    ensures e == p + [a, b, x, d]
  {
    assert forall k :: 0 <= k < |e| ==> e[k] == (p + [a, b, x, d])[k];
  }

  /** The state `deselectItem` leaves for an option that exists. */
  function Deselected(c: Config, st: State, index: nat): State
    requires index < |st.opts|
  {
    var o1 := SetSelected(st.opts, st.groups, c.multiple, index, false);
    var s1 := st.(opts := o1, events := st.events + [OptionDeselected(index, Selection(o1, Start(c)))]);
    var s2 := if ReselectsFirst(c) then Reselected(c, s1) else s1;
    s2.(events := s2.events + [Change(index, Selection(s2.opts, Start(c)))])
  }

  /** The single drop-down's handler of `chzn:option-deselected`: option 0
      selected again, announced as a selection is. */
  function Reselected(c: Config, st: State): State
    requires st.opts != []
  {
    var o := SetSelected(st.opts, st.groups, c.multiple, 0, true);
    st.(opts := o, events := st.events + [OptionSelected(0, Selection(o, Start(c))), Change(0, Selection(o, Start(c)))])
  }

  /** In autocomplete mode (no `multiple`, no handler), deselecting the
      selected option leaves the first enabled option selected, normally
      the hidden option 0, and deselecting any other changes no flag. */
  lemma DeselectAutocomplete(c: Config, st: State, index: nat)
    requires !c.multiple && c.autocomplete && index < |st.opts| && SelectedCount(st.opts) <= 1
    ensures var o := Deselect(c, st, index).after.opts;
      && (st.opts[index].selected || SelectedCount(st.opts) == 0 ==>
            Selection(o, 0) == match FirstEnabled(st.opts, st.groups, 0) { case Some(j) => [j] case None => [] })
      && (!st.opts[index].selected && SelectedCount(st.opts) == 1 ==> o == st.opts)
  {
    DeselectSingle(st.opts, st.groups, index);
  }

  /** Once the limit is reached, no selection gets through, however often it
      is tried; below the limit a selection keeps the count within it. */
  lemma SelectKeepsLimit(c: Config, max: Limit, st: State, index: int)
    requires c.multiple && max.AtMost? && SelectedCount(st.opts) <= max.n
    ensures SelectedCount(Select(c, max, st, index).after.opts) <= max.n
  {
    var r := Select(c, max, st, index);
    if r.out == Success(true) {
      SetSelectedCountMultiple(st.opts, st.groups, index, true);
    }
  }

  /** With `multiple` and below the limit, selecting an option that was not
      selected and then deselecting it gives back the same options. */
  lemma SelectThenDeselect(c: Config, max: Limit, st: State, index: nat)
    requires c.multiple && !LimitReached(c, max, st.opts)
    requires index < |st.opts| && !st.opts[index].selected
    ensures Deselect(c, Select(c, max, st, index).after, index).after.opts == st.opts
  {
    SelectDeselectMultiple(st.opts, st.groups, index);
  }

  // ----- addItem -----

  /** The `config` of `addItem`: label, value and the two flags. */
  datatype ItemConfig = ItemConfig(text: string, value: string, selected: bool, disabled: bool)

  /** The option `addItem` creates: its label is what the option's `text`
      getter reads back from the configured text, its value defaults to
      the configured text as given; without `save` it carries class `new`. */
  function NewOption(config: ItemConfig, save: bool): (o: SelectOption)
    ensures o.text == StripCollapse(config.text)
    ensures o.selected == config.selected && o.disabled == config.disabled
    ensures o.value == (if config.value == "" then config.text else config.value)
    ensures o.group == None && o.isNew == !save
  {
    SelectOption(StripCollapse(config.text), if config.value == "" then config.text else config.value,
                 config.selected, config.disabled, None, !save)
  }

  /** `addItem(config, {save})`: an empty label or one an active option
      already has (in any case) throws; otherwise the option is backed up
      (with `save`), appended to the select, given a search item at the end
      of the list and announced with `chzn:option-created`; it is then
      selected through `selectItem` when the browser left it selected or
      `selectCreated` is on. */
  function Add(c: Config, max: Limit, st: State, config: ItemConfig, save: bool): (r: Step<Outcome<ChosenError>>)
    ensures r.out == Fail(EmptyLabel) <==> config.text == ""
    ensures r.out == Fail(DuplicateLabel(config.text)) <==> config.text != "" && !IsNewOption(c, st.opts, config.text)
    ensures r.out.Fail? ==> r.after == st
    ensures r.out.Pass? ==> r.after == Created(c, max, st, config, save)
  {
    if config.text == "" then Step(Fail(EmptyLabel), st)
    else if !IsNewOption(c, st.opts, config.text) then Step(Fail(DuplicateLabel(config.text)), st)
    else Step(Pass, Created(c, max, st, config, save))
  }

  /** The state `addItem` leaves once the label is accepted: the new
      option appended and announced, then selected when the browser left it
      selected or `selectCreated` is on. */
  function Created(c: Config, max: Limit, st: State, config: ItemConfig, save: bool): (r: State)
    ensures |r.opts| == |st.opts| + 1
    ensures r.items == st.items + [SearchItem(|st.opts|, false)]
    ensures r.backupSelected == st.backupSelected + (if save then [config.selected] else [])
    ensures r.backupDisabled == st.backupDisabled + (if save then [config.disabled] else [])
    ensures r.groups == st.groups && r.ui == st.ui
    ensures |r.events| > |st.events| && r.events[..|st.events| + 1] == st.events + [OptionCreated(|st.opts|)]
  {
    var st1 := Appended(c, st, config, save);
    var n := |st.opts|;
    if st1.opts[n].selected || c.selectCreated then
      SelectKeeps(c, max, st1, n);
      Select(c, max, st1, n).after
    else st1
  }

  /** The selection step of `addItem`, when neither the browser nor
      `selectCreated` asks for it: nothing happens after the append. */
  lemma CreatedUnselected(c: Config, max: Limit, st: State, config: ItemConfig, save: bool)
    requires !(Appended(c, st, config, save).opts[|st.opts|].selected || c.selectCreated)
    ensures Created(c, max, st, config, save) == Appended(c, st, config, save)
  {
  }

  /** The selection step at the limit: the options stay as appended and
      `chzn:max-selected` is logged. */
  lemma CreatedAtLimit(c: Config, max: Limit, st: State, config: ItemConfig, save: bool)
    requires var a := Appended(c, st, config, save);
      (a.opts[|st.opts|].selected || c.selectCreated) && LimitReached(c, max, a.opts)
    ensures var a := Appended(c, st, config, save);
      Created(c, max, st, config, save) == a.(events := a.events + [MaxSelected])
  {
  }

  /** The selection step below the limit: a new option that is selected
      once appended (because it was configured so, or because the select's
      rule picked it, as for the first option of an empty drop-down), or
      any new option with `selectCreated`, ends up selected (the only one
      without `multiple`, the others untouched with it) and the selection is
      announced. */
  lemma CreatedSelects(c: Config, max: Limit, st: State, config: ItemConfig, save: bool)
    requires Appended(c, st, config, save).opts[|st.opts|].selected || c.selectCreated
    requires !LimitReached(c, max, Appended(c, st, config, save).opts)
    ensures var r, a, n := Created(c, max, st, config, save), Appended(c, st, config, save), |st.opts|;
      && r.opts[n].selected
      && (c.multiple ==> forall k :: 0 <= k < n ==> r.opts[k] == a.opts[k])
      && (!c.multiple ==> Selection(r.opts, 0) == [n])
      && r.events == a.events + [OptionSelected(n, Selection(r.opts, Start(c))), Change(n, Selection(r.opts, Start(c)))]
  {
    var a, n := Appended(c, st, config, save), |st.opts|;
    var s := Select(c, max, a, n);
    assert s.out == Success(true);
    assert Created(c, max, st, config, save) == s.after;
  }

  /** A new option that comes selected is still selected once appended. */
  lemma AppendedSelected(c: Config, st: State, config: ItemConfig, save: bool)
    ensures config.selected ==> Appended(c, st, config, save).opts[|st.opts|].selected
  {
  }

  /** The created option is the configured one, and without `multiple` at
      most one option stays selected. */
  lemma CreatedOption(c: Config, max: Limit, st: State, config: ItemConfig, save: bool)
    ensures SameButSelection(Created(c, max, st, config, save).opts, st.opts + [NewOption(config, save)])
    ensures !c.multiple ==> SelectedCount(Created(c, max, st, config, save).opts) <= 1
  {
    var st1 := Appended(c, st, config, save);
    var n := |st.opts|;
    if st1.opts[n].selected || c.selectCreated {
      SelectKeeps(c, max, st1, n);
      SameButTrans(Select(c, max, st1, n).after.opts, st1.opts, st.opts + [NewOption(config, save)]);
    }
  }

  /** The new option backed up (with `save`), appended, given its search
      item and announced. */
  function Appended(c: Config, st: State, config: ItemConfig, save: bool): (r: State)
    ensures |r.opts| == |st.opts| + 1
    ensures SameButSelection(r.opts, st.opts + [NewOption(config, save)])
    ensures !c.multiple ==> SelectedCount(r.opts) <= 1
    ensures r == st.(opts := r.opts, backupSelected := r.backupSelected, backupDisabled := r.backupDisabled,
                     items := r.items, events := r.events)
    ensures r.items == st.items + [SearchItem(|st.opts|, false)]
    ensures r.backupSelected == st.backupSelected + (if save then [config.selected] else [])
    ensures r.backupDisabled == st.backupDisabled + (if save then [config.disabled] else [])
    ensures r.events == st.events + [OptionCreated(|st.opts|)]
  {
    var o := NewOption(config, save);
    var saved := if save then BackupOne(st, o); Backup(st, [o], true) else st;
    saved.(opts := Append(st.opts, st.groups, c.multiple, o),
           items := st.items + [SearchItem(|st.opts|, false)],
           events := st.events + [OptionCreated(|st.opts|)])
  }

  // ----- backup -----

  /** `backup(options, update)`: the `selected` and `disabled` flags of the
      given options, in order, appended to the saved ones with `update` and
      replacing them otherwise. */
  function Backup(st: State, nodes: seq<SelectOption>, update: bool): (r: State)
    ensures r == st.(backupSelected := r.backupSelected, backupDisabled := r.backupDisabled)
    ensures var b := if update then st.backupSelected else [];
      |r.backupSelected| == |b| + |nodes|
      && forall k :: 0 <= k < |r.backupSelected| ==> r.backupSelected[k] == if k < |b| then b[k] else nodes[k - |b|].selected
    ensures var b := if update then st.backupDisabled else [];
      |r.backupDisabled| == |b| + |nodes|
      && forall k :: 0 <= k < |r.backupDisabled| ==> r.backupDisabled[k] == if k < |b| then b[k] else nodes[k - |b|].disabled
  {
    st.(backupSelected := (if update then st.backupSelected else []) + SelectedFlags(nodes),
        backupDisabled := (if update then st.backupDisabled else []) + DisabledFlags(nodes))
  }

  /** The flags of one option appended to the backup. */
  lemma BackupOne(st: State, o: SelectOption)
    ensures Backup(st, [o], true) == st.(backupSelected := st.backupSelected + [o.selected],
                                          backupDisabled := st.backupDisabled + [o.disabled])
  {
    assert SelectedFlags([o]) == [o.selected];
    assert DisabledFlags([o]) == [o.disabled];
  }

  /** An added label is taken: adding it again, in any case, is refused.
      The label is the option's `text` as the getter reads it back. */
  lemma AddTwiceRefused(c: Config, max: Limit, st: State, config: ItemConfig, save: bool, again: ItemConfig, save2: bool)
    requires Start(c) <= |st.opts|
    requires Add(c, max, st, config, save).out.Pass?
    requires again.text != "" && TextCompare(again.text, StripCollapse(config.text))
    ensures Add(c, max, Add(c, max, st, config, save).after, again, save2).out == Fail(DuplicateLabel(again.text))
  {
    var after := Add(c, max, st, config, save).after;
    var n := |st.opts|;
    CreatedOption(c, max, st, config, save);
    assert Strip(after.opts[n]) == Strip((st.opts + [NewOption(config, save)])[n]);
    assert after.opts[n].text == StripCollapse(config.text);
    assert TextCompare(again.text, after.opts[n].text);
  }

  /** The duplicate check compares the configured text as given with the
      labels as read back: a text that reads back shorter than it is can
      be added again. */
  lemma AddShortenedTwice(c: Config, max: Limit, st: State, config: ItemConfig, save: bool, save2: bool)
    requires Add(c, max, st, config, save).out.Pass?
    requires |StripCollapse(config.text)| < |config.text|
    ensures Add(c, max, Add(c, max, st, config, save).after, config, save2).out.Pass?
  {
    var after := Created(c, max, st, config, save);
    var t := st.opts + [NewOption(config, save)];
    CreatedOption(c, max, st, config, save);
    SameButFields(after.opts, t);
    forall k | Start(c) <= k < |after.opts| ensures !TextCompare(config.text, after.opts[k].text) {
      assert after.opts[k].text == t[k].text;
      if k == |st.opts| {
        assert |Lower(t[k].text)| < |Lower(config.text)|;
      }
    }
  }

  /** So " x", which reads back as "x", can be added twice. */
  lemma AddPaddedTwice(c: Config, max: Limit, st: State)
    requires !HiddenRequired(c) && st.opts == []
    ensures var x := ItemConfig(" x", "", false, false);
      && Add(c, max, st, x, true).out.Pass?
      && Add(c, max, Add(c, max, st, x, true).after, x, true).out.Pass?
  {
    StripPadding();
    AddShortenedTwice(c, max, st, ItemConfig(" x", "", false, false), true, true);
  }

  /** Once a label with a doubled space is an option, its single-spaced
      form is refused, since that is what the getter reads it back as. */
  lemma AddAfterDoubleSpaceRefused(c: Config, max: Limit, st: State)
    requires !HiddenRequired(c) && st.opts == []
    ensures var ab := ItemConfig("a  b", "", false, false);
      && Add(c, max, st, ab, true).out.Pass?
      && Add(c, max, Add(c, max, st, ab, true).after, ItemConfig("a b", "", false, false), true).out
         == Fail(DuplicateLabel("a b"))
  {
    var ab := ItemConfig("a  b", "", false, false);
    StripDoubleSpace();
    AddTwiceRefused(c, max, st, ab, true, ItemConfig("a b", "", false, false), true);
  }

  // ----- removeItem -----

  /** Whether every option of a list is disabled by its own flag
      (jQuery's `:disabled`). */
  predicate AllDisabled(opts: seq<SelectOption>, ks: seq<int>)
  {
    forall j :: 0 <= j < |ks| ==> 0 <= ks[j] < |opts| && opts[ks[j]].disabled
  }

  /** `removeItem(index)`: a missing option throws a ReferenceError.
      Otherwise the search items after the option's item are re-indexed and
      its item removed, its backup entries spliced out, `chzn:option-removed`
      triggered and the option removed. If it was inside an optgroup: when
      the optgroup's remaining options are all disabled and disabled options
      get no items, the group item is removed (and the optgroup too once it
      is empty); otherwise the entry is spliced out of the group item's
      indexes and every remaining entry lowered by one, which throws a
      TypeError, after all of the above, when no group item claims the
      index. */
  function Remove(c: Config, st: State, index: int): (r: Step<Outcome<ChosenError>>)
    ensures r.out == Fail(NoSuchOption(index)) <==> !(0 <= index < |st.opts|)
    ensures r.out == Fail(NoSuchOption(index)) ==> r.after == st
    ensures r.out != Fail(NoSuchOption(index)) ==>
      && 0 <= index < |st.opts|
      && r.after.opts == OptionStore.Remove(st.opts, st.groups, c.multiple, index)
      && r.after.items == Reindex(st.items, index, false)
      && r.after.backupSelected == SpliceOne(st.backupSelected, index)
      && r.after.backupDisabled == SpliceOne(st.backupDisabled, index)
      && r.after.events == st.events + [OptionRemoved(index)]
    ensures r.out == Fail(TypeError) <==>
      && 0 <= index < |st.opts| && st.opts[index].group.Some? && st.opts[index].group.value < |st.groups|
      && !(c.excludeDisabled && AllDisabled(r.after.opts, Members(r.after.opts, st.opts[index].group.value)))
      && GroupsWith(st.ui, index) == []
    ensures r.out == Fail(TypeError) ==> r.after.ui == st.ui && r.after.groups == st.groups
  {
    if !(0 <= index < |st.opts|) then Step(Fail(NoSuchOption(index)), st)
    else Detach(c, Spliced(c, st, index), index, st.opts[index].group)
  }

  /** The first part of `removeItem`: the option's search item removed and
      the later ones re-indexed, its backup entries spliced out, the event
      triggered and the option removed from the select. */
  function Spliced(c: Config, st: State, index: nat): State
    requires index < |st.opts|
  {
    st.(opts := OptionStore.Remove(st.opts, st.groups, c.multiple, index), items := Reindex(st.items, index, false),
        backupSelected := SpliceOne(st.backupSelected, index),
        backupDisabled := SpliceOne(st.backupDisabled, index),
        events := st.events + [OptionRemoved(index)])
  }

  /** The second part of `removeItem`, for an option that was in optgroup
      `parent`: the group item and optgroup updates. */
  function Detach(c: Config, st: State, index: nat, parent: Option<nat>): Step<Outcome<ChosenError>>
  {
    if parent.None? || parent.value >= |st.groups| then Step(Pass, st)
    else
      var g := parent.value;
      var remaining := Members(st.opts, g);
      if c.excludeDisabled && AllDisabled(st.opts, remaining) then
        Step(Pass, st.(ui := WithoutGroupsOf(st.ui, index),
                       groups := if |remaining| == 0 then st.groups[g := st.groups[g].(present := false)] else st.groups))
      else
        var matched := GroupsWith(st.ui, index);
        if matched == [] then Step(Fail(TypeError), st)
        else Step(Pass, st.(ui := SetChildrenOf(st.ui, index, DropChild(st.ui[matched[0]].children, index))))
  }

  /** What a successful `removeItem` does to the group items and
      optgroups. Outside every optgroup nothing. Inside optgroup `g`, when
      its remaining options are all disabled and disabled options get no
      items, the group items claiming the index go, and the optgroup leaves
      the document exactly when no option is left in it; otherwise a group
      item claims the index, its list loses the entry with every other
      entry lowered by one, and the optgroups stay. */
  lemma RemoveUpdatesGroups(c: Config, st: State, index: int)
    requires Remove(c, st, index).out.Pass?
    ensures 0 <= index < |st.opts|
    ensures var r, p := Remove(c, st, index).after, st.opts[index].group;
      !(p.Some? && p.value < |st.groups|) ==> r.ui == st.ui && r.groups == st.groups
    ensures var r, p := Remove(c, st, index).after, st.opts[index].group;
      p.Some? && p.value < |st.groups| && c.excludeDisabled && AllDisabled(r.opts, Members(r.opts, p.value)) ==>
        && r.ui == WithoutGroupsOf(st.ui, index)
        && |r.groups| == |st.groups|
        && (forall h :: 0 <= h < |st.groups| && h != p.value ==> r.groups[h] == st.groups[h])
        && r.groups[p.value] == st.groups[p.value].(present := st.groups[p.value].present && |Members(r.opts, p.value)| > 0)
    ensures var r, p := Remove(c, st, index).after, st.opts[index].group;
      p.Some? && p.value < |st.groups| && !(c.excludeDisabled && AllDisabled(r.opts, Members(r.opts, p.value))) ==>
        && GroupsWith(st.ui, index) != []
        && r.ui == SetChildrenOf(st.ui, index, DropChild(st.ui[GroupsWith(st.ui, index)[0]].children, index))
        && r.groups == st.groups
  {
    var sp := Spliced(c, st, index);
    assert Remove(c, st, index) == Detach(c, sp, index, st.opts[index].group);
  }

  /** `removeItem` keeps the search list in step: when the items were
      composed from the options and the removed option had an item, the
      re-indexed items are those composing the remaining options gives. */
  lemma RemoveKeepsSearchList(c: Config, st: State, index: int)
    requires 0 <= index < |st.opts|
    requires st.items == ComposeItems(st.opts, st.groups, Start(c), c.excludeDisabled)
    requires Listed(st.opts, st.groups, Start(c), c.excludeDisabled, index)
    ensures Remove(c, st, index).after.items
         == ComposeItems(Remove(c, st, index).after.opts, st.groups, Start(c), c.excludeDisabled)
  {
    var after := Remove(c, st, index).after;
    RemoveKeepsItemsInSync(st.opts, after.opts, st.groups, Start(c), c.excludeDisabled, index);
  }

  /** An option of optgroup 0 with the given label. */
  function GroupedOption(t: string): SelectOption
  {
    SelectOption(t, t, false, false, Some(0), false)
  }

  /** A select with one optgroup holding three options, its items composed. */
  function ThreeInGroup(): State
  {
    State([GroupedOption("a"), GroupedOption("b"), GroupedOption("c")], [OptGroup(false, true)],
          [false, false, false], [false, false, false],
          [SearchItem(0, false), SearchItem(1, false), SearchItem(2, false)],
          [UiGroup([0, 1, 2], false, false)], [])
  }

  /** The group item of `ThreeInGroup` after its middle option is removed. */
  lemma DropMiddleOfGroup()
    ensures GroupsWith(ThreeInGroup().ui, 1) == [0]
    ensures DropChild([0, 1, 2], 1) == [-1, 1]
  {
    assert ThreeInGroup().ui[..0] == [];
    assert IndexOf([0, 1, 2], 1) == 1;
    assert SpliceOne([0, 1, 2], 1) == [0, 2] by {
      assert [0, 1, 2][..1] + [0, 1, 2][2..] == [0, 2];
    }
  }

  lemma RemoveMiddleOfGroup(c: Config)
    requires c.multiple && !c.excludeDisabled
    ensures Remove(c, ThreeInGroup(), 1).out == Pass
    ensures Remove(c, ThreeInGroup(), 1).after.opts == [GroupedOption("a"), GroupedOption("c")]
    ensures Remove(c, ThreeInGroup(), 1).after.ui == [UiGroup([-1, 1], false, false)]
  {
    MiddleSpliced(c);
    MiddleDetached(c, Spliced(c, ThreeInGroup(), 1));
  }

  /** The first part of removing the middle option of `ThreeInGroup`. */
  lemma MiddleSpliced(c: Config)
    requires c.multiple
    ensures var s := Spliced(c, ThreeInGroup(), 1);
      s.opts == [GroupedOption("a"), GroupedOption("c")] && s.ui == ThreeInGroup().ui && s.groups == ThreeInGroup().groups
  {
    var st := ThreeInGroup();
    assert st.opts[..1] + st.opts[2..] == [GroupedOption("a"), GroupedOption("c")];
  }

  /** The second part: the group item's indexes become -1 and 1. */
  lemma MiddleDetached(c: Config, s: State)
    requires !c.excludeDisabled && s.ui == ThreeInGroup().ui && |s.groups| == 1
    ensures Detach(c, s, 1, Some(0)) == Step(Pass, s.(ui := [UiGroup([-1, 1], false, false)]))
  {
    DropMiddleOfGroup();
    MiddleChildren();
  }

  lemma MiddleChildren()
    ensures SetChildrenOf(ThreeInGroup().ui, 1, [-1, 1]) == [UiGroup([-1, 1], false, false)]
  {
    assert 1 in ThreeInGroup().ui[0].children;
  }

  /** Lowering every entry of a group's indexes makes a later removal
      throw: in an optgroup of three options, removing the middle one leaves
      the indexes -1 and 1, so no group item claims option 0 any more and
      removing it throws a TypeError, after the option itself is gone. */
  lemma RemoveInGroupThrowsLater(c: Config)
    requires c.multiple && !c.excludeDisabled
    ensures var first := Remove(c, ThreeInGroup(), 1);
      var second := Remove(c, first.after, 0);
      && first.out == Pass && first.after.ui == [UiGroup([-1, 1], false, false)]
      && second.out == Fail(TypeError) && second.after.opts == [GroupedOption("c")]
  {
    RemoveMiddleOfGroup(c);
    var first := Remove(c, ThreeInGroup(), 1);
    FirstSpliced(c, first.after);
    FirstDetached(c, Spliced(c, first.after, 0));
  }

  /** Option 0 spliced out of the options `RemoveMiddleOfGroup` leaves. */
  lemma FirstSpliced(c: Config, st: State)
    requires c.multiple && st.opts == [GroupedOption("a"), GroupedOption("c")]
    ensures var s := Spliced(c, st, 0);
      s.opts == [GroupedOption("c")] && s.ui == st.ui && s.groups == st.groups
  {
    assert st.opts[..0] + st.opts[1..] == [GroupedOption("c")];
  }

  /** No group item claims option 0 once the indexes are -1 and 1. */
  lemma FirstDetached(c: Config, s: State)
    requires !c.excludeDisabled && s.ui == [UiGroup([-1, 1], false, false)] && |s.groups| == 1
    ensures Detach(c, s, 0, Some(0)) == Step(Fail(TypeError), s)
  {
    assert GroupsWith(s.ui, 0) == [] by {
      assert s.ui[..0] == [];
      assert 0 !in [-1, 1];
    }
  }

  // ----- The instance invariant -----

  lemma ValidSelect(c: Config, max: Limit, st: State, index: int)
    requires Valid(c, st)
    ensures Valid(c, Select(c, max, st, index).after)
  {
    var r := Select(c, max, st, index);
    if r.out == Success(true) {
      GroupsPresentSameBut(r.after.opts, st.opts, st.groups);
    }
  }

  lemma ValidDeselect(c: Config, st: State, index: int)
    requires Valid(c, st)
    ensures Valid(c, Deselect(c, st, index).after)
  {
    var r := Deselect(c, st, index);
    if r.out.Pass? {
      GroupsPresentSameBut(r.after.opts, st.opts, st.groups);
    }
  }

  lemma ValidAdd(c: Config, max: Limit, st: State, config: ItemConfig, save: bool)
    requires Valid(c, st)
    ensures Valid(c, Add(c, max, st, config, save).after)
  {
    if config.text != "" && IsNewOption(c, st.opts, config.text) {
      ValidCreated(c, max, st, config, save);
    }
  }

  lemma ValidCreated(c: Config, max: Limit, st: State, config: ItemConfig, save: bool)
    requires Valid(c, st)
    ensures Valid(c, Created(c, max, st, config, save))
  {
    var o := NewOption(config, save);
    GroupsPresentAppend(st.opts, st.groups, o);
    CreatedOption(c, max, st, config, save);
    GroupsPresentSameBut(Created(c, max, st, config, save).opts, st.opts + [o], st.groups);
  }

  lemma GroupsPresentAppend(opts: seq<SelectOption>, groups: seq<OptGroup>, o: SelectOption)
    requires GroupsPresent(opts, groups) && o.group == None
    ensures GroupsPresent(opts + [o], groups)
  {
    var t := opts + [o];
    assert forall k :: 0 <= k < |opts| ==> t[k] == opts[k];
  }

  lemma ValidRemove(c: Config, st: State, index: int)
    requires Valid(c, st)
    ensures Valid(c, Remove(c, st, index).after)
  {
    if 0 <= index < |st.opts| {
      var r := Remove(c, st, index);
      SpliceOneLengths(st.backupSelected, st.backupDisabled, index);
      GroupsPresentRemove(st.opts, st.groups, index);
      GroupsPresentSameBut(r.after.opts, st.opts[..index] + st.opts[index + 1..], st.groups);
      RemoveGroups(c, st, index);
    }
  }

  /** `removeItem` takes an optgroup out of the document only once no
      option refers to it. */
  lemma RemoveGroups(c: Config, st: State, index: int)
    requires 0 <= index < |st.opts| && GroupsPresent(Remove(c, st, index).after.opts, st.groups)
    ensures GroupsPresent(Remove(c, st, index).after.opts, Remove(c, st, index).after.groups)
  {
    var r := Remove(c, st, index);
    var parent := st.opts[index].group;
    if parent.Some? && parent.value < |st.groups| && c.excludeDisabled {
      var g := parent.value;
      if |Members(r.after.opts, g)| == 0 {
        GroupsPresentAbsent(r.after.opts, st.groups, g);
      }
    }
  }

  lemma GroupsPresentAbsent(opts: seq<SelectOption>, groups: seq<OptGroup>, g: nat)
    requires GroupsPresent(opts, groups) && g < |groups| && |Members(opts, g)| == 0
    ensures GroupsPresent(opts, groups[g := groups[g].(present := false)])
  {
  }

  lemma GroupsPresentRemove(opts: seq<SelectOption>, groups: seq<OptGroup>, index: nat)
    requires GroupsPresent(opts, groups) && index < |opts|
    ensures GroupsPresent(opts[..index] + opts[index + 1..], groups)
  {
    var t := opts[..index] + opts[index + 1..];
    assert forall k :: 0 <= k < |t| ==> t[k] == opts[if k < index then k else k + 1];
  }

  lemma SpliceOneLengths<T, U>(a: seq<T>, b: seq<U>, at: int)
    requires |a| == |b|
    ensures |SpliceOne(a, at)| == |SpliceOne(b, at)|
  {
  }
}
