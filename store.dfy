/**
 * The `<select>` element the plugin works on: its list of options, its
 * optgroups, and the selectedness rules the browser applies to it
 * (HTML Living Standard, section 4.10.7 "The select element"): without the
 * `multiple` attribute, selecting one option deselects the others, and the
 * "selectedness setting algorithm" runs whenever an option is inserted or
 * removed or loses its selectedness, selecting the first enabled option when
 * none is selected and keeping only the last one when several are.
 */
module OptionStore {
  import opened Wrappers

  /** An `<option>`: its label, value, selectedness and disabled flag, the
      optgroup it belongs to (by position among the select's optgroups, none
      for a direct child of the select) and whether it carries class `new`. */
  datatype SelectOption = SelectOption(
    text: string, value: string, selected: bool, disabled: bool,
    group: Option<nat>, isNew: bool)

  /** An `<optgroup>` child of the select; `present` turns false once the
      element has been removed from the document. */
  datatype OptGroup = OptGroup(disabled: bool, present: bool)

  /** `utils.isOptionDisabled`: disabled itself or inside a disabled optgroup. */
  predicate IsOptionDisabled(o: SelectOption, groups: seq<OptGroup>)
  {
    o.disabled || (o.group.Some? && o.group.value < |groups| && groups[o.group.value].disabled)
  }

  /** The number of selected options, `$(options).filter(':selected').length`. */
  function SelectedCount(opts: seq<SelectOption>): (n: nat)
    ensures n <= |opts|
    ensures n == 0 <==> forall k :: 0 <= k < |opts| ==> !opts[k].selected
    decreases |opts|
  {
    if opts == [] then 0
    else
      var init := opts[..|opts| - 1];
      PrefixIndex(opts);
      SelectedCount(init) + (if opts[|opts| - 1].selected then 1 else 0)
  }

  /** The indexes of the selected options at or after `from`, in document
      order: what `getActiveOptions().filter(':selected')` holds when the
      active options start at `from`. */
  function Selection(opts: seq<SelectOption>, from: nat): (r: seq<nat>)
    ensures forall i :: 0 <= i < |r| ==> from <= r[i] < |opts| && opts[r[i]].selected
    ensures forall k :: from <= k < |opts| && opts[k].selected ==> k in r
    ensures forall i, j :: 0 <= i < j < |r| ==> r[i] < r[j]
    ensures from == 0 ==> |r| == SelectedCount(opts)
    decreases |opts|
  {
    if |opts| <= from then
      assert from == 0 ==> opts == [];
      []
    else
      var init := opts[..|opts| - 1];
      PrefixIndex(opts);
      var r := Selection(init, from);
      if opts[|opts| - 1].selected then r + [|opts| - 1] else r
  }

  /** The positions at or after `start` that hold `true`, in order. */
  function TrueIndexes(flags: seq<bool>, start: nat): (r: seq<nat>)
    ensures forall i :: 0 <= i < |r| ==> start <= r[i] < |flags| && flags[r[i]]
    ensures forall k :: start <= k < |flags| && flags[k] ==> k in r
    ensures forall i, j :: 0 <= i < j < |r| ==> r[i] < r[j]
    decreases |flags|
  {
    if |flags| <= start then []
    else
      var n := |flags| - 1;
      PrefixIndex(flags);
      var r := TrueIndexes(flags[..n], start);
      if flags[n] then r + [n] else r
  }

  lemma TrueIndexesSnoc(flags: seq<bool>, start: nat, k: nat)
    requires start <= k < |flags|
    ensures TrueIndexes(flags[..k + 1], start) == TrueIndexes(flags[..k], start) + (if flags[k] then [k] else [])
  {
    assert flags[..k + 1][..k] == flags[..k];
  }

  /** All but the last element, position by position. */
  lemma PrefixIndex<T>(s: seq<T>)
    requires s != []
    ensures forall k :: 0 <= k < |s| - 1 ==> s[..|s| - 1][k] == s[k]
  {
  }

  /** Everything about an option except its selectedness. */
  function Strip(o: SelectOption): SelectOption
  {
    o.(selected := false)
  }

  /** Two lists of options that differ at most in which options are selected. */
  predicate SameButSelection(a: seq<SelectOption>, b: seq<SelectOption>)
  {
    |a| == |b| && forall k :: 0 <= k < |a| ==> Strip(a[k]) == Strip(b[k])
  }

  /** Lists equal but for selectedness agree on every other field. */
  lemma SameButFields(a: seq<SelectOption>, b: seq<SelectOption>)
    requires SameButSelection(a, b)
    ensures forall k :: 0 <= k < |a| ==>
      a[k].group == b[k].group && a[k].disabled == b[k].disabled && a[k].text == b[k].text
      && a[k].value == b[k].value && a[k].isNew == b[k].isNew
  {
    forall k | 0 <= k < |a| ensures a[k].group == b[k].group {
      assert Strip(a[k]) == Strip(b[k]);
    }
  }

  lemma SameButTrans(a: seq<SelectOption>, b: seq<SelectOption>, c: seq<SelectOption>)
    requires SameButSelection(a, b) && SameButSelection(b, c)
    ensures SameButSelection(a, c)
  {
  }

  /** The first option at or after `from` that is not disabled. */
  function FirstEnabled(opts: seq<SelectOption>, groups: seq<OptGroup>, from: nat): (r: Option<nat>)
    ensures r.Some? ==> from <= r.value < |opts| && !IsOptionDisabled(opts[r.value], groups)
    ensures r.Some? ==> forall k :: from <= k < r.value ==> IsOptionDisabled(opts[k], groups)
    ensures r.None? ==> forall k :: from <= k < |opts| ==> IsOptionDisabled(opts[k], groups)
    decreases |opts| - from
  {
    if from >= |opts| then None
    else if !IsOptionDisabled(opts[from], groups) then Some(from)
    else FirstEnabled(opts, groups, from + 1)
  }

  /** The last selected option, if any. */
  function LastSelected(opts: seq<SelectOption>): (r: Option<nat>)
    ensures r.Some? ==> r.value < |opts| && opts[r.value].selected
    ensures r.Some? ==> forall k :: r.value < k < |opts| ==> !opts[k].selected
    ensures r.None? <==> SelectedCount(opts) == 0
    decreases |opts|
  {
    if opts == [] then None
    else if opts[|opts| - 1].selected then Some(|opts| - 1)
    else
      var init := opts[..|opts| - 1];
      PrefixIndex(opts);
      assert SelectedCount(opts) == SelectedCount(init);
      LastSelected(init)
  }

  /** The options with exactly the one at `i` selected. */
  function Only(opts: seq<SelectOption>, i: nat): (r: seq<SelectOption>)
    ensures SameButSelection(r, opts)
    ensures forall k :: 0 <= k < |r| ==> r[k].selected == (k == i)
  {
    seq(|opts|, k requires 0 <= k < |opts| => opts[k].(selected := k == i))
  }

  /** Changing one option's selectedness changes the count by at most one. */
  lemma {:induction false} CountUpdate(opts: seq<SelectOption>, i: nat, o: SelectOption)
    requires i < |opts|
    ensures SelectedCount(opts[i := o]) ==
      SelectedCount(opts) - (if opts[i].selected then 1 else 0) + (if o.selected then 1 else 0)
    decreases |opts|
  {
    var n := |opts|;
    var u := opts[i := o];
    assert u[..n - 1] == if i == n - 1 then opts[..n - 1] else opts[..n - 1][i := o];
    if i < n - 1 {
      CountUpdate(opts[..n - 1], i, o);
    }
  }

  /** Exactly one selected option means a count of one. */
  lemma CountOne(opts: seq<SelectOption>, i: nat)
    requires i < |opts| && forall k :: 0 <= k < |opts| ==> opts[k].selected == (k == i)
    ensures SelectedCount(opts) == 1
    ensures Selection(opts, 0) == [i]
  {
    CountOneCount(opts, i);
    var s := Selection(opts, 0);
    assert i in s && |s| == 1;
    assert s[0] == i;
  }

  lemma CountOneCount(opts: seq<SelectOption>, i: nat)
    requires i < |opts| && forall k :: 0 <= k < |opts| ==> opts[k].selected == (k == i)
    ensures SelectedCount(opts) == 1
  {
    var none := opts[i := opts[i].(selected := false)];
    assert forall k :: 0 <= k < |none| ==> !none[k].selected;
    CountUpdate(opts, i, opts[i].(selected := false));
  }

  /** At most one selected option means a count of at most one. */
  lemma CountAtMostOne(opts: seq<SelectOption>)
    requires forall j, k :: 0 <= j < |opts| && 0 <= k < |opts| && opts[j].selected && opts[k].selected ==> j == k
    ensures SelectedCount(opts) <= 1
  {
    var l := LastSelected(opts);
    if l.Some? {
      CountOne(opts, l.value);
    }
  }

  /** The selectedness setting algorithm for a select shown as a drop-down:
      with `multiple` nothing happens; otherwise, when no option is selected
      the first enabled one becomes selected, and when several are only the
      last stays selected. */
  function Settle(opts: seq<SelectOption>, groups: seq<OptGroup>, multiple: bool): (r: seq<SelectOption>)
    ensures SameButSelection(r, opts)
    ensures multiple ==> r == opts
    ensures !multiple ==> SelectedCount(r) <= 1
    ensures !multiple && SelectedCount(opts) == 1 ==> r == opts
    ensures !multiple && SelectedCount(opts) > 0 ==>
      SelectedCount(r) == 1 && LastSelected(r) == LastSelected(opts)
    ensures !multiple && SelectedCount(opts) == 0 ==>
      Selection(r, 0) == match FirstEnabled(opts, groups, 0) { case Some(j) => [j] case None => [] }
  {
    if multiple then opts
    else
      var c := SelectedCount(opts);
      if c == 1 then opts
      else if c == 0 then
        match FirstEnabled(opts, groups, 0)
        case Some(j) =>
          CountOne(Only(opts, j), j);
          Only(opts, j)
        case None => opts
      else
        var l := LastSelected(opts).value;
        CountOne(Only(opts, l), l);
        Only(opts, l)
  }

  /** `option.selected = v`. Without `multiple`, selecting an option
      deselects all others, and deselecting one runs the selectedness
      setting algorithm. */
  function SetSelected(opts: seq<SelectOption>, groups: seq<OptGroup>, multiple: bool, i: nat, v: bool): (r: seq<SelectOption>)
    requires i < |opts|
    ensures SameButSelection(r, opts)
    ensures multiple ==> r[i].selected == v && forall k :: 0 <= k < |r| && k != i ==> r[k] == opts[k]
    ensures !multiple && v ==> forall k :: 0 <= k < |r| ==> r[k].selected == (k == i)
    ensures !multiple ==> SelectedCount(r) <= 1
  {
    if multiple then opts[i := opts[i].(selected := v)]
    else if v then
      CountOne(Only(opts, i), i);
      Only(opts, i)
    else Settle(opts[i := opts[i].(selected := false)], groups, false)
  }

  /** In a select without `multiple`, deselecting the selected option leaves
      the first enabled option selected (possibly the same one), or nothing
      when every option is disabled; deselecting any other option changes
      nothing, unless none was selected, when the first enabled one is. */
  lemma DeselectSingle(opts: seq<SelectOption>, groups: seq<OptGroup>, i: nat)
    requires i < |opts| && SelectedCount(opts) <= 1
    ensures opts[i].selected ==>
      Selection(SetSelected(opts, groups, false, i, false), 0)
        == match FirstEnabled(opts, groups, 0) { case Some(j) => [j] case None => [] }
    ensures !opts[i].selected && SelectedCount(opts) == 1 ==>
      SetSelected(opts, groups, false, i, false) == opts
    ensures SelectedCount(opts) == 0 ==>
      Selection(SetSelected(opts, groups, false, i, false), 0)
        == match FirstEnabled(opts, groups, 0) { case Some(j) => [j] case None => [] }
  {
    var u := opts[i := opts[i].(selected := false)];
    CountUpdate(opts, i, opts[i].(selected := false));
    if opts[i].selected {
      assert SelectedCount(u) == 0;
      assert FirstEnabled(u, groups, 0) == FirstEnabled(opts, groups, 0) by {
        FirstEnabledSameBut(u, opts, groups, 0);
      }
    } else {
      assert u == opts;
    }
  }

  /** Which options are enabled does not depend on selectedness. */
  lemma {:induction false} FirstEnabledSameBut(a: seq<SelectOption>, b: seq<SelectOption>, groups: seq<OptGroup>, from: nat)
    requires SameButSelection(a, b)
    ensures FirstEnabled(a, groups, from) == FirstEnabled(b, groups, from)
    decreases |a| - from
  {
    if from < |a| {
      assert Strip(a[from]) == Strip(b[from]);
      assert IsOptionDisabled(a[from], groups) == IsOptionDisabled(b[from], groups);
      FirstEnabledSameBut(a, b, groups, from + 1);
    }
  }

  /** In a select with `multiple`, selecting and then deselecting an option
      restores the list exactly when it was not selected before. */
  lemma SelectDeselectMultiple(opts: seq<SelectOption>, groups: seq<OptGroup>, i: nat)
    requires i < |opts| && !opts[i].selected
    ensures SetSelected(SetSelected(opts, groups, true, i, true), groups, true, i, false) == opts
  {
    var r := SetSelected(SetSelected(opts, groups, true, i, true), groups, true, i, false);
    assert forall k :: 0 <= k < |opts| ==> r[k] == opts[k];
  }

  /** In a select with `multiple`, setting a flag moves the count by one
      exactly when the flag changes. */
  lemma SetSelectedCountMultiple(opts: seq<SelectOption>, groups: seq<OptGroup>, i: nat, v: bool)
    requires i < |opts|
    ensures SelectedCount(SetSelected(opts, groups, true, i, v)) ==
      SelectedCount(opts) + (if v && !opts[i].selected then 1 else 0) - (if !v && opts[i].selected then 1 else 0)
  {
    CountUpdate(opts, i, opts[i].(selected := v));
  }

  /** A browser inserting an option at the end of the list. */
  function Append(opts: seq<SelectOption>, groups: seq<OptGroup>, multiple: bool, o: SelectOption): (r: seq<SelectOption>)
    ensures |r| == |opts| + 1
    ensures SameButSelection(r, opts + [o])
    ensures o.selected ==> r[|opts|].selected
    ensures multiple ==> r == opts + [o]
    ensures !multiple && o.selected ==> forall k :: 0 <= k < |opts| ==> !r[k].selected
    ensures !multiple && !o.selected && SelectedCount(opts) == 1 ==> r == opts + [o]
    ensures !multiple ==> SelectedCount(r) <= 1
  {
    var t := opts + [o];
    assert !multiple && o.selected ==> LastSelected(t) == Some(|opts|);
    Settle(t, groups, multiple)
  }

  /** A browser inserting an option at the front of the list. */
  function Prepend(opts: seq<SelectOption>, groups: seq<OptGroup>, multiple: bool, o: SelectOption): (r: seq<SelectOption>)
    ensures |r| == |opts| + 1
    ensures SameButSelection(r, [o] + opts)
    ensures multiple ==> r == [o] + opts
    ensures !multiple && !o.selected && SelectedCount(opts) == 1 ==> r == [o] + opts
  {
    var t := [o] + opts;
    if !o.selected then
      CountShift(opts, o);
      Settle(t, groups, multiple)
    else Settle(t, groups, multiple)
  }

  /** An unselected option in front does not change the count. */
  lemma {:induction false} CountShift(opts: seq<SelectOption>, o: SelectOption)
    requires !o.selected
    ensures SelectedCount([o] + opts) == SelectedCount(opts)
    decreases |opts|
  {
    var t := [o] + opts;
    CountSnoc(t);
    if opts != [] {
      var n := |opts|;
      assert t[..n] == [o] + opts[..n - 1];
      CountShift(opts[..n - 1], o);
      CountSnoc(opts);
    } else {
      assert t[..0] == [];
    }
  }

  /** A browser removing the option at `i`. */
  function Remove(opts: seq<SelectOption>, groups: seq<OptGroup>, multiple: bool, i: nat): (r: seq<SelectOption>)
    requires i < |opts|
    ensures |r| == |opts| - 1
    ensures SameButSelection(r, opts[..i] + opts[i + 1..])
    ensures multiple ==> r == opts[..i] + opts[i + 1..]
    ensures !multiple ==> SelectedCount(r) <= 1
  {
    Settle(opts[..i] + opts[i + 1..], groups, multiple)
  }

  /** The selected options after the first `m` lose their selectedness,
      one plain flag change each (as with `multiple`): an option stays
      selected exactly when it was and fewer than `m` selected options come
      before it. */
  function KeepFirst(opts: seq<SelectOption>, m: nat): (r: seq<SelectOption>)
    ensures SameButSelection(r, opts)
    ensures forall k :: 0 <= k < |r| ==> (r[k].selected <==> opts[k].selected && SelectedCount(opts[..k]) < m)
  {
    seq(|opts|, k requires 0 <= k < |opts| => opts[k].(selected := opts[k].selected && SelectedCount(opts[..k]) < m))
  }

  /** Trimming keeps `m` selected options, or all of them when there are
      fewer. */
  lemma {:induction false} KeepFirstCount(opts: seq<SelectOption>, m: nat)
    ensures SelectedCount(KeepFirst(opts, m)) == if SelectedCount(opts) < m then SelectedCount(opts) else m
    decreases |opts|
  {
    if opts != [] {
      var n := |opts| - 1;
      KeepFirstPrefix(opts, m);
      KeepFirstCount(opts[..n], m);
      CountSnoc(KeepFirst(opts, m));
      CountSnoc(opts);
    }
  }

  lemma KeepFirstPrefix(opts: seq<SelectOption>, m: nat)
    requires opts != []
    ensures KeepFirst(opts, m)[..|opts| - 1] == KeepFirst(opts[..|opts| - 1], m)
  {
    var n := |opts| - 1;
    forall k | 0 <= k < n ensures KeepFirst(opts, m)[..n][k] == KeepFirst(opts[..n], m)[k] {
      assert opts[..n][..k] == opts[..k];
    }
  }

  lemma PrefixOfPrefix<T>(s: seq<T>, n: nat, k: nat)
    requires k <= n <= |s|
    ensures s[..n][..k] == s[..k]
  {
  }

  /** The count of a non-empty list: that of all but the last option, plus
      the last one. */
  lemma CountSnoc(opts: seq<SelectOption>)
    requires opts != []
    ensures SelectedCount(opts) == SelectedCount(opts[..|opts| - 1]) + (if opts[|opts| - 1].selected then 1 else 0)
  {
  }

  /** `$(options).prop('selected', fn)`: the first `n` options, in document
      order, each set through `SetSelected` to `values[k]`; an option past
      the end of `values` is left alone (the function returns `undefined`). */
  function AssignSelected(opts: seq<SelectOption>, groups: seq<OptGroup>, multiple: bool, values: seq<bool>, n: nat): (r: seq<SelectOption>)
    requires n <= |opts|
    ensures SameButSelection(r, opts)
    ensures multiple ==> forall k :: 0 <= k < |r| ==>
      r[k].selected == if k < n && k < |values| then values[k] else opts[k].selected
    ensures !multiple && SelectedCount(opts) <= 1 ==> SelectedCount(r) <= 1
  {
    if n == 0 then opts
    else
      var o := AssignSelected(opts, groups, multiple, values, n - 1);
      if n - 1 < |values| then SetSelected(o, groups, multiple, n - 1, values[n - 1]) else o
  }

  /** Options past the end of `values` keep their flag. */
  lemma {:induction false} AssignSelectedPast(opts: seq<SelectOption>, groups: seq<OptGroup>, multiple: bool, values: seq<bool>, k: nat, n: nat)
    requires |values| <= k <= n <= |opts|
    ensures AssignSelected(opts, groups, multiple, values, n) == AssignSelected(opts, groups, multiple, values, k)
    decreases n
  {
    if n > k { AssignSelectedPast(opts, groups, multiple, values, k, n - 1); }
  }

  /** `$(options).prop('disabled', fn)`: each option below `|values|` gets
      `values[k]` as its own disabled flag. */
  function AssignDisabled(opts: seq<SelectOption>, values: seq<bool>): (r: seq<SelectOption>)
    ensures |r| == |opts|
    ensures forall k :: 0 <= k < |opts| ==> r[k].disabled == (if k < |values| then values[k] else opts[k].disabled)
    ensures forall k :: 0 <= k < |opts| ==> r[k].(disabled := opts[k].disabled) == opts[k]
  {
    seq(|opts|, k requires 0 <= k < |opts| => if k < |values| then opts[k].(disabled := values[k]) else opts[k])
  }

  /** The `selected` and the `disabled` flag of each option, in order. */
  function SelectedFlags(opts: seq<SelectOption>): (r: seq<bool>)
    ensures |r| == |opts| && forall k :: 0 <= k < |opts| ==> r[k] == opts[k].selected
  {
    seq(|opts|, k requires 0 <= k < |opts| => opts[k].selected)
  }

  function DisabledFlags(opts: seq<SelectOption>): (r: seq<bool>)
    ensures |r| == |opts| && forall k :: 0 <= k < |opts| ==> r[k] == opts[k].disabled
  {
    seq(|opts|, k requires 0 <= k < |opts| => opts[k].disabled)
  }

  /** The options before a selected one hold fewer selected options than
      the whole list. */
  lemma {:induction false} CountPrefix(opts: seq<SelectOption>, k: nat)
    requires k < |opts|
    ensures SelectedCount(opts[..k]) + (if opts[k].selected then 1 else 0) <= SelectedCount(opts)
    decreases |opts|
  {
    var n := |opts| - 1;
    CountSnoc(opts);
    if k < n {
      PrefixOfPrefix(opts, n, k);
      CountPrefix(opts[..n], k);
    }
  }

  /** Two selected options make a count of at least two. */
  lemma TwoSelected(opts: seq<SelectOption>, i: nat, k: nat)
    requires i < k < |opts| && opts[i].selected && opts[k].selected
    ensures SelectedCount(opts) >= 2
  {
    CountPrefix(opts, k);
    assert opts[..k][i].selected;
  }

  /** The selected options below `n`, one more index at a time. */
  lemma SelectionSnoc(opts: seq<SelectOption>, from: nat, n: nat)
    requires from < n <= |opts|
    ensures Selection(opts[..n], from) == Selection(opts[..n - 1], from) + (if opts[n - 1].selected then [n - 1] else [])
  {
    assert opts[..n][..n - 1] == opts[..n - 1];
  }

  /** The count depends only on the selected flags. */
  lemma {:induction false} CountSameFlags(a: seq<SelectOption>, b: seq<SelectOption>)
    requires |a| == |b| && forall k :: 0 <= k < |a| ==> a[k].selected == b[k].selected
    ensures SelectedCount(a) == SelectedCount(b)
    decreases |a|
  {
    if a != [] {
      var n := |a| - 1;
      CountSameFlags(a[..n], b[..n]);
    }
  }
}
