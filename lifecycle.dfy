/**
 * `resetNewItems`, `saveNewItems`, `init` and `reset` of `Chosen.prototype`
 * over an instance state.
 */
module Lifecycle {
  import opened Wrappers
  import opened Text
  import opened OptionStore
  import opened Groups
  import opened Instance
  import opened SearchList

  // ----- resetNewItems / saveNewItems -----

  /** An option `$el.children('option.new')` finds: a child of the select
      itself (not of an optgroup) carrying class `new`. */
  predicate Transient(o: SelectOption)
  {
    o.isNew && o.group.None?
  }

  /** The indexes of the transient options, in document order. */
  function NewIndexes(opts: seq<SelectOption>): (r: seq<nat>)
    ensures forall i :: 0 <= i < |r| ==> r[i] < |opts| && Transient(opts[r[i]])
    ensures forall k :: 0 <= k < |opts| && Transient(opts[k]) ==> k in r
    ensures forall i, j :: 0 <= i < j < |r| ==> r[i] < r[j]
    decreases |opts|
  {
    if opts == [] then []
    else
      var n := |opts| - 1;
      PrefixIndex(opts);
      var r := NewIndexes(opts[..n]);
      if Transient(opts[n]) then r + [n] else r
  }

  /** The options that are not transient, in document order. */
  function Kept(opts: seq<SelectOption>): (r: seq<SelectOption>)
    ensures |r| <= |opts|
    ensures forall o :: o in r <==> o in opts && !Transient(o)
    decreases |opts|
  {
    if opts == [] then []
    else
      var n := |opts| - 1;
      var r := Kept(opts[..n]);
      assert forall o :: o in opts <==> o in opts[..n] || o == opts[n];
      if Transient(opts[n]) then r else r + [opts[n]]
  }

  /** A list in reverse order. */
  function Reversed(s: seq<nat>): (r: seq<nat>)
    ensures |r| == |s| && forall i :: 0 <= i < |s| ==> r[i] == s[|s| - 1 - i]
  {
    if s == [] then [] else [s[|s| - 1]] + Reversed(s[..|s| - 1])
  }

  /** `$.each(indexes, removeItem)`: the options removed one after the
      other, the first exception ending the loop. */
  function RemoveAll(c: Config, st: State, ks: seq<int>): (r: Step<Outcome<ChosenError>>)
    decreases |ks|
  {
    if ks == [] then Step(Pass, st)
    else
      var a := Instance.Remove(c, st, ks[0]);
      if a.out.Fail? then a else RemoveAll(c, a.after, ks[1..])
  }

  /** `resetNewItems`: the transient options removed, highest index first. */
  function ResetNew(c: Config, st: State): Step<Outcome<ChosenError>>
  {
    RemoveAll(c, st, Reversed(NewIndexes(st.opts)))
  }

  /** The options left once the listed indexes are removed one after the
      other (an index past the end removes nothing). */
  function Without(opts: seq<SelectOption>, ks: seq<int>): seq<SelectOption>
    decreases |ks|
  {
    if ks == [] then opts
    else if 0 <= ks[0] < |opts| then Without(opts[..ks[0]] + opts[ks[0] + 1..], ks[1..])
    else Without(opts, ks[1..])
  }

  predicate Descending(ks: seq<int>)
  {
    forall i, j :: 0 <= i < j < |ks| ==> ks[i] > ks[j]
  }

  /** Lists equal but for selectedness stay so when the same indexes are
      removed from both. */
  lemma {:induction false} WithoutSameBut(a: seq<SelectOption>, b: seq<SelectOption>, ks: seq<int>)
    requires SameButSelection(a, b)
    ensures SameButSelection(Without(a, ks), Without(b, ks))
    decreases |ks|
  {
    if ks != [] {
      if 0 <= ks[0] < |a| {
        var i := ks[0];
        var a1, b1 := a[..i] + a[i + 1..], b[..i] + b[i + 1..];
        assert forall k :: 0 <= k < |a1| ==> a1[k] == a[if k < i then k else k + 1] && b1[k] == b[if k < i then k else k + 1];
        WithoutSameBut(a1, b1, ks[1..]);
      } else {
        WithoutSameBut(a, b, ks[1..]);
      }
    }
  }

  /** Removing transient options from the highest index down always
      succeeds, leaves the optgroups and group items alone, and leaves the
      options that removing those indexes from the list leaves (exactly so
      with `multiple`, else but for selectedness). */
  lemma {:induction false} RemoveAllTransient(c: Config, st: State, ks: seq<int>)
    requires Descending(ks)
    requires forall j :: 0 <= j < |ks| ==> 0 <= ks[j] < |st.opts| && Transient(st.opts[ks[j]])
    ensures var r := RemoveAll(c, st, ks);
      && r.out == Pass
      && SameButSelection(r.after.opts, Without(st.opts, ks))
      && (c.multiple ==> r.after.opts == Without(st.opts, ks))
      && r.after.groups == st.groups && r.after.ui == st.ui
    decreases |ks|
  {
    if ks != [] {
      var i := ks[0];
      var a := RemoveUngrouped(c, st, i);
      var t := st.opts[..i] + st.opts[i + 1..];
      TransientBelow(st.opts, a.opts, ks);
      RemoveAllTransient(c, a, ks[1..]);
      WithoutSameBut(a.opts, t, ks[1..]);
      SameButTrans(RemoveAll(c, a, ks[1..]).after.opts, Without(a.opts, ks[1..]), Without(t, ks[1..]));
    }
  }

  /** Removing an option outside every optgroup succeeds and touches
      neither the optgroups nor the group items. */
  lemma RemoveUngrouped(c: Config, st: State, i: nat) returns (a: State)
    requires i < |st.opts| && st.opts[i].group.None?
    ensures Instance.Remove(c, st, i) == Step(Pass, a)
    ensures a.groups == st.groups && a.ui == st.ui
    ensures SameButSelection(a.opts, st.opts[..i] + st.opts[i + 1..])
    ensures c.multiple ==> a.opts == st.opts[..i] + st.opts[i + 1..]
  {
    a := Spliced(c, st, i);
  }

  /** The later, lower indexes still name transient options once the first
      one is removed. */
  lemma TransientBelow(opts: seq<SelectOption>, after: seq<SelectOption>, ks: seq<int>)
    requires Descending(ks) && ks != [] && 0 <= ks[0] < |opts|
    requires forall j :: 0 <= j < |ks| ==> 0 <= ks[j] < |opts| && Transient(opts[ks[j]])
    requires SameButSelection(after, opts[..ks[0]] + opts[ks[0] + 1..])
    ensures Descending(ks[1..])
    ensures forall j :: 0 <= j < |ks[1..]| ==> 0 <= ks[1..][j] < |after| && Transient(after[ks[1..][j]])
  {
    var t := opts[..ks[0]] + opts[ks[0] + 1..];
    SameButFields(after, t);
    forall j | 0 <= j < |ks[1..]| ensures 0 <= ks[1..][j] < |after| && Transient(after[ks[1..][j]]) {
      var k := ks[j + 1];
      assert ks[1..][j] == k < ks[0];
      assert t[k] == opts[k];
    }
  }

  /** Removing indexes below the last option keeps it last. */
  lemma {:induction false} WithoutKeepsLast(init: seq<SelectOption>, last: SelectOption, ks: seq<int>)
    requires Descending(ks)
    requires forall j :: 0 <= j < |ks| ==> 0 <= ks[j] < |init|
    ensures Without(init + [last], ks) == Without(init, ks) + [last]
    decreases |ks|
  {
    if ks != [] {
      var i := ks[0];
      assert (init + [last])[..i] + (init + [last])[i + 1..] == (init[..i] + init[i + 1..]) + [last];
      forall j | 0 <= j < |ks[1..]| ensures 0 <= ks[1..][j] < |init[..i] + init[i + 1..]| {
        assert ks[1..][j] == ks[j + 1] < i;
      }
      WithoutKeepsLast(init[..i] + init[i + 1..], last, ks[1..]);
    }
  }

  /** Removing the transient options highest index first leaves exactly
      the others. */
  lemma {:induction false} WithoutTransientIsKept(opts: seq<SelectOption>)
    ensures Without(opts, Reversed(NewIndexes(opts))) == Kept(opts)
    decreases |opts|
  {
    if opts != [] {
      var n := |opts| - 1;
      var init, last := opts[..n], opts[n];
      assert opts == init + [last];
      WithoutTransientIsKept(init);
      NewIndexesLast(init, last);
      if Transient(last) {
        WithoutTransientLast(init, last, NewIndexes(init), Kept(init));
      } else {
        WithoutKeptLast(init, last);
      }
    }
  }

  lemma NewIndexesLast(init: seq<SelectOption>, last: SelectOption)
    ensures NewIndexes(init + [last]) == NewIndexes(init) + (if Transient(last) then [|init|] else [])
    ensures Kept(init + [last]) == Kept(init) + (if Transient(last) then [] else [last])
  {
    assert (init + [last])[..|init|] == init;
  }

  /** A transient option at the end is removed first. */
  lemma WithoutTransientLast(init: seq<SelectOption>, last: SelectOption, ks: seq<nat>, kept: seq<SelectOption>)
    requires Without(init, Reversed(ks)) == kept
    ensures Without(init + [last], Reversed(ks + [|init|])) == kept
  {
    ReversedSnoc(ks, |init|);
    WithoutLastFirst(init, last, Reversed(ks));
  }

  /** Removing the last option first, then the indexes below it. */
  lemma WithoutLastFirst(init: seq<SelectOption>, last: SelectOption, rs: seq<nat>)
    ensures Without(init + [last], [|init|] + rs) == Without(init, rs)
  {
    var n := |init|;
    var ks := [n] + rs;
    assert ks[0] == n && ks[1..] == rs;
    assert (init + [last])[..n] + (init + [last])[n + 1..] == init;
  }

  lemma ReversedSnoc(ks: seq<nat>, n: nat)
    ensures Reversed(ks + [n]) == [n] + Reversed(ks)
  {
    assert (ks + [n])[..|ks|] == ks;
  }

  lemma WithoutKeptLast(init: seq<SelectOption>, last: SelectOption)
    requires !Transient(last)
    requires Without(init, Reversed(NewIndexes(init))) == Kept(init)
    requires NewIndexes(init + [last]) == NewIndexes(init)
    requires Kept(init + [last]) == Kept(init) + [last]
    ensures Without(init + [last], Reversed(NewIndexes(init + [last]))) == Kept(init + [last])
  {
    NewIndexesDescending(init);
    WithoutKeepsLast(init, last, Reversed(NewIndexes(init)));
  }

  /** The transient indexes, highest first. */
  lemma NewIndexesDescending(opts: seq<SelectOption>)
    ensures var rs := Reversed(NewIndexes(opts));
      Descending(rs) && forall j :: 0 <= j < |rs| ==> 0 <= rs[j] < |opts| && Transient(opts[rs[j]])
  {
    var ks := NewIndexes(opts);
    ReversedDescending(ks);
    var rs := Reversed(ks);
    forall j | 0 <= j < |rs| ensures rs[j] < |opts| && Transient(opts[rs[j]]) {
      assert rs[j] == ks[|ks| - 1 - j];
    }
  }

  lemma ReversedDescending(ks: seq<nat>)
    requires forall i, j :: 0 <= i < j < |ks| ==> ks[i] < ks[j]
    ensures Descending(Reversed(ks))
  {
    var rs := Reversed(ks);
    forall i, j | 0 <= i < j < |rs| ensures rs[i] > rs[j] {
      assert rs[i] == ks[|ks| - 1 - i] && rs[j] == ks[|ks| - 1 - j];
    }
  }

  /** Without transient options there is nothing to reset. */
  lemma {:induction false} NoNewIndexes(opts: seq<SelectOption>)
    requires forall k :: 0 <= k < |opts| ==> !Transient(opts[k])
    ensures NewIndexes(opts) == []
    decreases |opts|
  {
    if opts != [] {
      var n := |opts| - 1;
      assert !Transient(opts[n]);
      NoNewIndexes(opts[..n]);
    }
  }

  /** `resetNewItems` always succeeds and leaves exactly the options that
      were not transient (but for selectedness without `multiple`), so no
      transient option remains. */
  lemma ResetNewKeepsOthers(c: Config, st: State)
    ensures var r := ResetNew(c, st);
      && r.out == Pass
      && SameButSelection(r.after.opts, Kept(st.opts))
      && (c.multiple ==> r.after.opts == Kept(st.opts))
      && (forall k :: 0 <= k < |r.after.opts| ==> !Transient(r.after.opts[k]))
      && r.after.groups == st.groups && r.after.ui == st.ui
  {
    var ks := Reversed(NewIndexes(st.opts));
    NewIndexesDescending(st.opts);
    RemoveAllTransient(c, st, ks);
    WithoutTransientIsKept(st.opts);
    var after := ResetNew(c, st).after.opts;
    SameButFields(after, Kept(st.opts));
    forall k | 0 <= k < |after| ensures !Transient(after[k]) {
      assert Kept(st.opts)[k] in Kept(st.opts);
    }
  }

  /** The transient options' class `new` dropped. */
  function Saved(opts: seq<SelectOption>): (r: seq<SelectOption>)
    ensures |r| == |opts|
    ensures forall k :: 0 <= k < |opts| ==> r[k] == if Transient(opts[k]) then opts[k].(isNew := false) else opts[k]
  {
    seq(|opts|, k requires 0 <= k < |opts| => if Transient(opts[k]) then opts[k].(isNew := false) else opts[k])
  }

  /** The options at the given indexes. */
  function At(opts: seq<SelectOption>, ks: seq<nat>): (r: seq<SelectOption>)
    requires forall j :: 0 <= j < |ks| ==> ks[j] < |opts|
    ensures |r| == |ks| && forall j :: 0 <= j < |ks| ==> r[j] == opts[ks[j]]
  {
    seq(|ks|, j requires 0 <= j < |ks| => opts[ks[j]])
  }

  /** `saveNewItems`: the transient options lose class `new` and their
      flags are appended to the backup, in document order. */
  function SaveNew(st: State): (r: State)
  {
    var ks := NewIndexes(st.opts);
    Backup(st.(opts := Saved(st.opts)), At(st.opts, ks), true)
  }

  /** Once saved, the created options survive `resetNewItems`: it removes
      nothing. Their flags now sit at the end of the backup. */
  lemma SaveThenResetNew(c: Config, st: State)
    ensures ResetNew(c, SaveNew(st)) == Step(Pass, SaveNew(st))
    ensures var ks := NewIndexes(st.opts); var b := |st.backupSelected|;
      |SaveNew(st).backupSelected| == b + |ks|
      && forall j :: 0 <= j < |ks| ==> SaveNew(st).backupSelected[b + j] == st.opts[ks[j]].selected
  {
    var saved := SaveNew(st).opts;
    assert forall k :: 0 <= k < |saved| ==> !Transient(saved[k]);
    NoNewIndexes(saved);
  }

  // ----- init -----

  /** How many pre-selected options the trim keeps under the limit `n`:
      `slice(n - count)` deselects the last count - n of them, or all of
      them when `n` is negative. */
  function Keep(n: int): nat
  {
    if n < 0 then 0 else n
  }

  /** The trim `init` applies with `multiple` when more options are
      selected than `maxSelected` allows. */
  function Trim(c: Config, max: Limit, opts: seq<SelectOption>): seq<SelectOption>
  {
    if c.multiple && max.AtMost? && SelectedCount(opts) > max.n then KeepFirst(opts, Keep(max.n)) else opts
  }

  /** With `multiple` and a numeric limit, an option stays selected
      exactly when it was and fewer than the limit of selected options
      come before it; so the first ones are kept, and no more than the
      limit. Nothing else changes. */
  lemma TrimKeepsFirst(c: Config, max: Limit, opts: seq<SelectOption>)
    requires c.multiple && max.AtMost?
    ensures SameButSelection(Trim(c, max, opts), opts)
    ensures forall k :: 0 <= k < |opts| ==>
      (Trim(c, max, opts)[k].selected <==> opts[k].selected && SelectedCount(opts[..k]) < Keep(max.n))
    ensures SelectedCount(Trim(c, max, opts)) == if SelectedCount(opts) > max.n then Keep(max.n) else SelectedCount(opts)
  {
    if SelectedCount(opts) > max.n {
      KeepFirstCount(opts, Keep(max.n));
    } else {
      forall k | 0 <= k < |opts| && opts[k].selected ensures SelectedCount(opts[..k]) < Keep(max.n) {
        CountPrefix(opts, k);
      }
    }
  }

  /** `chzn:option-selected` and `chzn:change` for each index, reporting
      the selection `sel`. */
  function Announced(ks: seq<nat>, sel: seq<nat>): (r: seq<Event>)
    ensures |r| == 2 * |ks|
    ensures forall j :: 0 <= j < |ks| ==> r[2 * j] == OptionSelected(ks[j], sel) && r[2 * j + 1] == Change(ks[j], sel)
  {
    if ks == [] then [] else [OptionSelected(ks[0], sel), Change(ks[0], sel)] + Announced(ks[1..], sel)
  }

  /** The `$.each` of `init` over the active options below `n` with the
      limit lifted: each one found selected, when its turn comes, is
      selected again through `selectItem`. */
  function InitSelect(c: Config, st: State, n: nat): (r: State)
    requires n <= |st.opts|
    ensures SameButSelection(r.opts, st.opts)
    ensures r == st.(opts := r.opts, events := r.events)
    ensures !c.multiple && SelectedCount(st.opts) <= 1 ==> SelectedCount(r.opts) <= 1
  {
    if n <= Start(c) then st
    else
      var s := InitSelect(c, st, n - 1);
      if s.opts[n - 1].selected then
        SelectKeeps(c, Unbounded, s, n - 1);
        SameButTrans(Select(c, Unbounded, s, n - 1).after.opts, s.opts, st.opts);
        Select(c, Unbounded, s, n - 1).after
      else s
  }

  /** Selecting an option that is already selected, with no limit, changes
      no flag (at most one being selected without `multiple`) and only
      triggers the two events. */
  lemma SelectSelected(c: Config, st: State, i: nat)
    requires i < |st.opts| && st.opts[i].selected
    requires c.multiple || SelectedCount(st.opts) <= 1
    ensures Select(c, Unbounded, st, i).after
      == st.(events := st.events + [OptionSelected(i, Selection(st.opts, Start(c))), Change(i, Selection(st.opts, Start(c)))])
  {
    var o := SetSelected(st.opts, st.groups, c.multiple, i, true);
    if !c.multiple {
      forall k | 0 <= k < |st.opts| && k != i ensures !st.opts[k].selected {
        if st.opts[k].selected {
          if k < i { TwoSelected(st.opts, k, i); } else { TwoSelected(st.opts, i, k); }
        }
      }
    }
    assert o == st.opts;
  }

  lemma InitSelectUnfold(c: Config, st: State, n: nat)
    requires Start(c) < n <= |st.opts|
    ensures var s := InitSelect(c, st, n - 1);
      InitSelect(c, st, n) == if s.opts[n - 1].selected then Select(c, Unbounded, s, n - 1).after else s
  {
  }

  /** One turn of the bulk pass, on a state whose options are still the
      original ones. */
  lemma AnnounceStep(c: Config, st: State, s: State, i: nat, before: seq<nat>)
    requires i < |st.opts|
    requires c.multiple || SelectedCount(st.opts) <= 1
    requires s.opts == st.opts && s.events == st.events + Announced(before, Selection(st.opts, Start(c)))
    ensures var t := if s.opts[i].selected then Select(c, Unbounded, s, i).after else s;
      && t.opts == st.opts
      && t.events == st.events + Announced(before + (if st.opts[i].selected then [i] else []), Selection(st.opts, Start(c)))
  {
    var sel := Selection(st.opts, Start(c));
    if st.opts[i].selected {
      AnnounceSelected(c, st, s, i, before);
    } else {
      assert before + [] == before;
    }
  }

  lemma AnnounceSelected(c: Config, st: State, s: State, i: nat, before: seq<nat>)
    requires i < |st.opts| && st.opts[i].selected
    requires c.multiple || SelectedCount(st.opts) <= 1
    requires s.opts == st.opts && s.events == st.events + Announced(before, Selection(st.opts, Start(c)))
    ensures Select(c, Unbounded, s, i).after.opts == st.opts
    ensures Select(c, Unbounded, s, i).after.events == st.events + Announced(before + [i], Selection(st.opts, Start(c)))
  {
    var sel := Selection(st.opts, Start(c));
    SelectSelected(c, s, i);
    AnnouncedSnoc(before, i, sel);
    AppendAssoc(st.events, Announced(before, sel), [OptionSelected(i, sel), Change(i, sel)]);
  }

  lemma AppendAssoc<T>(a: seq<T>, b: seq<T>, c: seq<T>)
    ensures a + b + c == a + (b + c)
  {
  }

  /** The bulk pass below `n` leaves every flag as it was and announces
      each pre-selected active option below `n` in document order, each
      time with the whole pre-selection. */
  lemma {:induction false} InitSelectAnnounces(c: Config, st: State, n: nat)
    requires n <= |st.opts|
    requires c.multiple || SelectedCount(st.opts) <= 1
    ensures InitSelect(c, st, n).opts == st.opts
    ensures InitSelect(c, st, n).events
      == st.events + Announced(Selection(st.opts[..n], Start(c)), Selection(st.opts, Start(c)))
  {
    if n <= Start(c) {
      assert Selection(st.opts[..n], Start(c)) == [];
    } else {
      InitSelectAnnounces(c, st, n - 1);
      AnnounceNext(c, st, n);
    }
  }

  lemma AnnounceNext(c: Config, st: State, n: nat)
    requires Start(c) < n <= |st.opts|
    requires c.multiple || SelectedCount(st.opts) <= 1
    requires InitSelect(c, st, n - 1).opts == st.opts
    requires InitSelect(c, st, n - 1).events
      == st.events + Announced(Selection(st.opts[..n - 1], Start(c)), Selection(st.opts, Start(c)))
    ensures InitSelect(c, st, n).opts == st.opts
    ensures InitSelect(c, st, n).events
      == st.events + Announced(Selection(st.opts[..n], Start(c)), Selection(st.opts, Start(c)))
  {
    InitSelectUnfold(c, st, n);
    SelectionSnoc(st.opts, Start(c), n);
    AnnounceStep(c, st, InitSelect(c, st, n - 1), n - 1, Selection(st.opts[..n - 1], Start(c)));
  }

  lemma {:induction false} AnnouncedSnoc(ks: seq<nat>, k: nat, sel: seq<nat>)
    ensures Announced(ks + [k], sel) == Announced(ks, sel) + [OptionSelected(k, sel), Change(k, sel)]
    decreases |ks|
  {
    if ks != [] {
      assert (ks + [k])[1..] == ks[1..] + [k];
      AnnouncedSnoc(ks[1..], k, sel);
    }
  }

  /** How many optgroups are in the document (`$el.find('optgroup')`). */
  function PresentCount(groups: seq<OptGroup>): (n: nat)
    ensures n <= |groups|
  {
    if groups == [] then 0 else PresentCount(groups[1..]) + (if groups[0].present then 1 else 0)
  }

  /** The end of `init`, after the bulk pass: the highlight is cleared;
      with `collapseOnInit` every optgroup (`k` of them) is collapsed
      through `toggle-group`; with `openAfterInit` the drop-down opens.
      Only the search list and the events change. */
  function InitFinish(c: Config, k: nat, st: State): (r: State)
    ensures r == st.(ui := r.ui, items := r.items, events := r.events)
    ensures |r.ui| == |st.ui| && |r.items| == |st.items|
    ensures |r.events| > |st.events| && r.events[..|st.events| + 1] == st.events + [ClearHighlight]
    ensures c.allowCollapse && c.collapseOnInit && 0 < k ==>
      forall p :: 0 <= p < |st.ui| && p < k ==> r.ui[p].collapsed
  {
    var s := st.(events := st.events + [ClearHighlight]);
    var t := if c.allowCollapse && c.collapseOnInit && k > 0 then
        var ks := Positions(k);
        var u := s.(events := s.events + [ToggleRequest(ks, Some(true))]);
        ToggleExplicit(u, ks, true);
        assert forall p :: 0 <= p < |u.ui| && p < k ==> Targeted(|u.ui|, ks, |ks|, p) by {
          forall p | 0 <= p < |u.ui| && p < k ensures Targeted(|u.ui|, ks, |ks|, p) {
            assert EqIndex(|u.ui|, ks[p]) == Some(p);
          }
        }
        ToggleGroups(u, ks, Some(true))
      else s;
    assert t.events[..|st.events| + 1] == st.events + [ClearHighlight];
    if c.openAfterInit then
      var r := t.(events := t.events + [DropdownOpen]);
      assert r.events[..|st.events| + 1] == t.events[..|st.events| + 1];
      r
    else t
  }

  /** `init`: with `multiple` the pre-selection is trimmed to the limit;
      then, with the limit lifted, every selected active option is
      selected again (whose events the plugin's handlers react to), and
      `InitFinish` runs. The limit itself comes back unchanged. */
  function Init(c: Config, max: Limit, st: State): (r: State)
    ensures r.groups == st.groups && r.backupSelected == st.backupSelected && r.backupDisabled == st.backupDisabled
    ensures SameButSelection(r.opts, st.opts)
  {
    var st1 := st.(opts := Trim(c, max, st.opts));
    var st2 := InitSelect(c, st1, |st1.opts|);
    SameButTrans(st2.opts, st1.opts, st.opts);
    InitFinish(c, PresentCount(st.groups), st2)
  }

  /** What `init` does to the options: exactly the trim, so with a
      numeric limit and `multiple` the first options up to the limit stay
      selected. */
  lemma InitOptions(c: Config, max: Limit, st: State)
    requires c.multiple || SelectedCount(st.opts) <= 1
    ensures Init(c, max, st).opts == Trim(c, max, st.opts)
  {
    var t := Trim(c, max, st.opts);
    var st1 := st.(opts := t);
    InitSelectAnnounces(c, st1, |t|);
    InitUnfold(c, max, st);
    FinishKeeps(c, PresentCount(st.groups), InitSelect(c, st1, |t|));
  }

  /** The events of `init`: the pre-selection announced option by option,
      then the highlight cleared. */
  lemma InitAnnounces(c: Config, max: Limit, st: State)
    requires c.multiple || SelectedCount(st.opts) <= 1
    ensures var sel := Selection(Trim(c, max, st.opts), Start(c));
      StartsWith(Init(c, max, st).events, st.events + Announced(sel, sel) + [ClearHighlight])
  {
    var t := Trim(c, max, st.opts);
    var sel := Selection(t, Start(c));
    var st1 := st.(opts := t);
    assert t[..|t|] == t;
    InitSelectAnnounces(c, st1, |t|);
    InitUnfold(c, max, st);
    FinishAfter(c, PresentCount(st.groups), InitSelect(c, st1, |t|), st.events + Announced(sel, sel));
  }

  lemma InitUnfold(c: Config, max: Limit, st: State)
    ensures var st1 := st.(opts := Trim(c, max, st.opts));
      Init(c, max, st) == InitFinish(c, PresentCount(st.groups), InitSelect(c, st1, |st1.opts|))
  {
  }

  /** `s` begins with `p`. */
  predicate StartsWith(s: seq<Event>, p: seq<Event>)
  {
    |p| <= |s| && s[..|p|] == p
  }

  /** The end of `init` keeps the options. */
  lemma FinishKeeps(c: Config, k: nat, s: State)
    ensures InitFinish(c, k, s).opts == s.opts
  {
  }

  /** The end of `init` starts by clearing the highlight. */
  lemma FinishAfter(c: Config, k: nat, s: State, before: seq<Event>)
    requires s.events == before
    ensures StartsWith(InitFinish(c, k, s).events, before + [ClearHighlight])
  {
  }

  // ----- reset -----

  /** `n` copies of `false`. */
  function Falses(n: nat): (r: seq<bool>)
    ensures |r| == n && forall k :: 0 <= k < n ==> !r[k]
  {
    seq(n, k => false)
  }

  /** The flags `reset` gives the options: `selected` and then `disabled`
      copied from the backup (an option past its end keeps its flag);
      with `hard`, then every option deselected and enabled. */
  function Restored(multiple: bool, opts: seq<SelectOption>, groups: seq<OptGroup>,
                    bs: seq<bool>, bd: seq<bool>, hard: bool): (r: seq<SelectOption>)
    ensures |r| == |opts|
    ensures forall k :: 0 <= k < |opts| ==>
      r[k].(selected := opts[k].selected, disabled := opts[k].disabled) == opts[k]
    ensures forall k :: 0 <= k < |opts| ==>
      r[k].disabled == if hard then false else if k < |bd| then bd[k] else opts[k].disabled
    ensures multiple ==> forall k :: 0 <= k < |opts| ==>
      r[k].selected == if hard then false else if k < |bs| then bs[k] else opts[k].selected
    ensures !multiple && SelectedCount(opts) <= 1 ==> SelectedCount(r) <= 1
  {
    var o := Assigned(multiple, opts, groups, bs, bd);
    if hard then Assigned(multiple, o, groups, Falses(|o|), Falses(|o|)) else o
  }

  /** `selected` and then `disabled` copied from two flag lists. */
  function Assigned(multiple: bool, opts: seq<SelectOption>, groups: seq<OptGroup>,
                    bs: seq<bool>, bd: seq<bool>): (r: seq<SelectOption>)
    ensures |r| == |opts|
    ensures forall k :: 0 <= k < |opts| ==>
      r[k].(selected := opts[k].selected, disabled := opts[k].disabled) == opts[k]
    ensures forall k :: 0 <= k < |opts| ==>
      r[k].disabled == if k < |bd| then bd[k] else opts[k].disabled
    ensures multiple ==> forall k :: 0 <= k < |opts| ==>
      r[k].selected == if k < |bs| then bs[k] else opts[k].selected
    ensures !multiple && SelectedCount(opts) <= 1 ==> SelectedCount(r) <= 1
  {
    var o1 := AssignSelected(opts, groups, multiple, bs, |opts|);
    var o2 := AssignDisabled(o1, bd);
    SameButFields(o1, opts);
    CountSameFlags(o2, o1);
    o2
  }

  /** `composeListItems`, run when the search list is created and by the
      `chzn:search-list:compose-items` handler: the search items and group
      items are built afresh from the options. */
  function Compose(c: Config, st: State): State
  {
    var items := ComposeItems(st.opts, st.groups, Start(c), c.excludeDisabled);
    st.(items := items, ui := ComposeGroups(st.opts, st.groups, items, |st.groups|))
  }

  /** `reset`: the unsaved created options are removed (which never fails,
      see `ResetNewKeepsOthers`), the flags are restored, the search list
      is composed again, `init` runs, and `chzn:reseted` follows unless
      `silent`. */
  function Reset(c: Config, max: Limit, st: State, hard: bool, silent: bool): State
  {
    var t := ResetNew(c, st).after;
    var u := Compose(c, t.(opts := Restored(c.multiple, t.opts, t.groups, t.backupSelected, t.backupDisabled, hard),
                           events := t.events + [ItemsComposed]));
    var v := Init(c, max, u);
    if silent then v else v.(events := v.events + [Reseted(hard)])
  }

  /** No option is an unsaved created one. */
  predicate NoTransient(opts: seq<SelectOption>)
  {
    forall k :: 0 <= k < |opts| ==> !Transient(opts[k])
  }

  /** Without unsaved created options, `resetNewItems` changes nothing. */
  lemma ResetNewNothing(c: Config, st: State)
    requires NoTransient(st.opts)
    ensures ResetNew(c, st) == Step(Pass, st)
  {
    NoNewIndexes(st.opts);
    assert Reversed([]) == [];
  }

  /** What `reset` does to the options when every option is saved: the
      restored flags, then the trim of `init`; the optgroups and the
      backup stay, and `chzn:reseted` comes last unless `silent`. */
  lemma ResetRestores(c: Config, max: Limit, st: State, hard: bool, silent: bool)
    requires NoTransient(st.opts)
    requires c.multiple || SelectedCount(st.opts) <= 1
    ensures var r := Reset(c, max, st, hard, silent);
      && r.opts == Trim(c, max, Restored(c.multiple, st.opts, st.groups, st.backupSelected, st.backupDisabled, hard))
      && r.groups == st.groups && r.backupSelected == st.backupSelected && r.backupDisabled == st.backupDisabled
      && (!silent ==> r.events[|r.events| - 1] == Reseted(hard))
  {
    ResetNewNothing(c, st);
    var o := Restored(c.multiple, st.opts, st.groups, st.backupSelected, st.backupDisabled, hard);
    var u := Compose(c, st.(opts := o, events := st.events + [ItemsComposed]));
    assert ResetNew(c, st).after == st;
    var v := Init(c, max, u);
    assert Reset(c, max, st, hard, silent) == if silent then v else v.(events := v.events + [Reseted(hard)]);
    InitOptions(c, max, u);
  }

  /** `reset` with unsaved created options: they are all removed, and the
      options left are the kept ones in order, differing from them at most
      in their two flags; the optgroups stay. */
  lemma ResetDropsTransient(c: Config, max: Limit, st: State, hard: bool, silent: bool)
    ensures var r, kept := Reset(c, max, st, hard, silent), Kept(st.opts);
      && |r.opts| == |kept|
      && NoTransient(r.opts)
      && (forall k :: 0 <= k < |kept| ==>
            r.opts[k].(selected := kept[k].selected, disabled := kept[k].disabled) == kept[k])
      && r.groups == st.groups
  {
    var t := ResetNew(c, st).after;
    var r := Reset(c, max, st, hard, silent);
    ResetNewKept(c, st);
    ResetShape(c, max, st, hard, silent);
    RestoredKeepsTransient(c, t, hard);
    FlagsOnly(r.opts, Restored(c.multiple, t.opts, t.groups, t.backupSelected, t.backupDisabled, hard), t.opts, Kept(st.opts));
  }

  lemma ResetNewKept(c: Config, st: State)
    ensures SameButSelection(ResetNew(c, st).after.opts, Kept(st.opts))
    ensures NoTransient(ResetNew(c, st).after.opts)
    ensures ResetNew(c, st).after.groups == st.groups
  {
    ResetNewKeepsOthers(c, st);
  }

  /** What `reset` does after `resetNewItems`: only selectedness changes
      after the flags are restored. */
  lemma ResetShape(c: Config, max: Limit, st: State, hard: bool, silent: bool)
    ensures var t := ResetNew(c, st).after; var r := Reset(c, max, st, hard, silent);
      && SameButSelection(r.opts, Restored(c.multiple, t.opts, t.groups, t.backupSelected, t.backupDisabled, hard))
      && r.groups == t.groups && r.backupSelected == t.backupSelected && r.backupDisabled == t.backupDisabled
  {
  }

  lemma RestoredKeepsTransient(c: Config, t: State, hard: bool)
    ensures var o := Restored(c.multiple, t.opts, t.groups, t.backupSelected, t.backupDisabled, hard);
      |o| == |t.opts| && forall k :: 0 <= k < |t.opts| ==> o[k].(selected := t.opts[k].selected, disabled := t.opts[k].disabled) == t.opts[k]
  {
  }

  /** Lists that differ only in the two flags, step by step. */
  lemma FlagsOnly(r: seq<SelectOption>, o: seq<SelectOption>, t: seq<SelectOption>, kept: seq<SelectOption>)
    requires SameButSelection(r, o) && SameButSelection(t, kept) && |o| == |t|
    requires forall k :: 0 <= k < |t| ==> o[k].(selected := t[k].selected, disabled := t[k].disabled) == t[k]
    requires forall k :: 0 <= k < |t| ==> !Transient(t[k])
    ensures |r| == |kept| && NoTransient(r)
    ensures forall k :: 0 <= k < |kept| ==>
      r[k].(selected := kept[k].selected, disabled := kept[k].disabled) == kept[k]
  {
    forall k | 0 <= k < |kept|
      ensures r[k].(selected := kept[k].selected, disabled := kept[k].disabled) == kept[k]
      ensures !Transient(r[k])
    {
      assert Strip(r[k]) == Strip(o[k]);
      assert o[k].(selected := t[k].selected, disabled := t[k].disabled) == t[k];
      assert Strip(t[k]) == Strip(kept[k]);
    }
  }

  /** With every option saved, `multiple` and no numeric limit, `reset`
      brings back each option's flags from the backup (or clears them all
      with `hard`); the disabled flags come back that way in any mode. */
  lemma ResetRestoresFlags(c: Config, max: Limit, st: State, hard: bool, silent: bool)
    requires NoTransient(st.opts)
    requires c.multiple || SelectedCount(st.opts) <= 1
    ensures var r := Reset(c, max, st, hard, silent);
      && |r.opts| == |st.opts|
      && (forall k :: 0 <= k < |st.opts| ==>
            r.opts[k].disabled == if hard then false else if k < |st.backupDisabled| then st.backupDisabled[k] else st.opts[k].disabled)
      && (c.multiple && max == Unbounded ==> forall k :: 0 <= k < |st.opts| ==>
            r.opts[k].selected == if hard then false else if k < |st.backupSelected| then st.backupSelected[k] else st.opts[k].selected)
  {
    ResetRestores(c, max, st, hard, silent);
    RestoredFlags(c, max, st, hard, Reset(c, max, st, hard, silent).opts);
  }

  lemma RestoredFlags(c: Config, max: Limit, st: State, hard: bool, r: seq<SelectOption>)
    requires r == Trim(c, max, Restored(c.multiple, st.opts, st.groups, st.backupSelected, st.backupDisabled, hard))
    ensures |r| == |st.opts|
    ensures forall k :: 0 <= k < |st.opts| ==>
      r[k].disabled == if hard then false else if k < |st.backupDisabled| then st.backupDisabled[k] else st.opts[k].disabled
    ensures c.multiple && max == Unbounded ==> forall k :: 0 <= k < |st.opts| ==>
      r[k].selected == if hard then false else if k < |st.backupSelected| then st.backupSelected[k] else st.opts[k].selected
  {
    TrimKeepsDisabled(c, max, Restored(c.multiple, st.opts, st.groups, st.backupSelected, st.backupDisabled, hard));
  }

  /** The trim changes selectedness only, and nothing without a numeric
      limit. */
  lemma TrimKeepsDisabled(c: Config, max: Limit, opts: seq<SelectOption>)
    ensures |Trim(c, max, opts)| == |opts|
    ensures forall k :: 0 <= k < |opts| ==> Trim(c, max, opts)[k].disabled == opts[k].disabled
    ensures max == Unbounded ==> Trim(c, max, opts) == opts
  {
    SameButFields(Trim(c, max, opts), opts);
  }

  // ----- the constructor -----

  /** The hidden first option: an empty label with autocomplete, the
      placeholder (as the `text` getter reads it back) otherwise, and an
      empty value. */
  function Sentinel(c: Config): (o: SelectOption)
    ensures !o.selected && !o.disabled && o.group == None && !o.isNew && o.value == ""
    ensures Collapsed(o.text) && (c.autocomplete ==> o.text == "")
  {
    StripCollapseShape(c.placeholder);
    SelectOption(if c.autocomplete then "" else StripCollapse(c.placeholder), "", false, false, None, false)
  }

  /** The options the constructor starts from: the hidden option in front
      when it is required. */
  function Prepared(c: Config, options: seq<SelectOption>, optgroups: seq<OptGroup>): (r: seq<SelectOption>)
    ensures |r| == Start(c) + |options|
  {
    if HiddenRequired(c) then Prepend(options, optgroups, c.multiple, Sentinel(c)) else options
  }

  /** `new Chosen(select, options)`: the hidden option is put first when
      required, every option's flags are backed up, the search list is
      composed and `init` runs. */
  function Create(c: Config, max: Limit, options: seq<SelectOption>, optgroups: seq<OptGroup>): State
  {
    var o := Prepared(c, options, optgroups);
    var st := Backup(State(o, optgroups, [], [], [], [], []), o, false);
    Init(c, max, Compose(c, st))
  }

  /** A single select with one selected option and the hidden option
      required gets the hidden option in front of its own, none of which
      changes. */
  lemma CreatePrependsSentinel(c: Config, max: Limit, options: seq<SelectOption>, optgroups: seq<OptGroup>)
    requires HiddenRequired(c) && SelectedCount(options) == 1
    ensures Create(c, max, options, optgroups).opts == [Sentinel(c)] + options
    ensures Start(c) == 1
  {
    var o := [Sentinel(c)] + options;
    CountShift(options, Sentinel(c));
    var st := Backup(State(o, optgroups, [], [], [], [], []), o, false);
    InitOptions(c, max, Compose(c, st));
  }

  /** Without a numeric limit, a multiple select whose options are all
      saved comes back from `reset` (not `hard`) as it was created. */
  lemma ResetAfterCreate(c: Config, options: seq<SelectOption>, optgroups: seq<OptGroup>, silent: bool)
    requires c.multiple && NoTransient(options)
    ensures Create(c, Unbounded, options, optgroups).opts == options
    ensures Reset(c, Unbounded, Create(c, Unbounded, options, optgroups), false, silent).opts == options
  {
    CreateMultiple(c, options, optgroups);
    ResetFromOwnBackup(c, Create(c, Unbounded, options, optgroups), silent);
  }

  /** A multiple select without a numeric limit is created with its
      options unchanged and each one's flags in the backup. */
  lemma CreateMultiple(c: Config, options: seq<SelectOption>, optgroups: seq<OptGroup>)
    requires c.multiple
    ensures var s := Create(c, Unbounded, options, optgroups);
      s.opts == options && s.backupSelected == SelectedFlags(options) && s.backupDisabled == DisabledFlags(options)
  {
    var st := Backup(State(options, optgroups, [], [], [], [], []), options, false);
    var u := Compose(c, st);
    InitOptions(c, Unbounded, u);
    TrimKeepsDisabled(c, Unbounded, options);
  }

  /** With `multiple` and no numeric limit, a `reset` (not `hard`) when
      every option is saved and the backup holds the current flags gives
      back the same options. */
  lemma ResetFromOwnBackup(c: Config, st: State, silent: bool)
    requires c.multiple && NoTransient(st.opts)
    requires st.backupSelected == SelectedFlags(st.opts) && st.backupDisabled == DisabledFlags(st.opts)
    ensures Reset(c, Unbounded, st, false, silent).opts == st.opts
  {
    ResetRestores(c, Unbounded, st, false, silent);
    TrimKeepsDisabled(c, Unbounded, Restored(true, st.opts, st.groups, st.backupSelected, st.backupDisabled, false));
    RestoredOwnFlags(st.opts, st.groups);
  }

  lemma RestoredOwnFlags(opts: seq<SelectOption>, groups: seq<OptGroup>)
    ensures Restored(true, opts, groups, SelectedFlags(opts), DisabledFlags(opts), false) == opts
  {
    var r := Restored(true, opts, groups, SelectedFlags(opts), DisabledFlags(opts), false);
    assert forall k :: 0 <= k < |opts| ==> r[k] == r[k].(selected := opts[k].selected, disabled := opts[k].disabled);
  }
}
