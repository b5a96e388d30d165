/**
 * `utils.moveListSelection`: moves the keyboard highlight through a list of
 * items to the next (or previous) available item, with a policy for what
 * happens at the end of the list. An item's "highlighted" CSS class is a
 * flag in an array; which items are available (visible, enabled and passing
 * the caller's filter) is given by the caller.
 */
module ListNavigator {
  import opened Wrappers

  /** The `onListEnd` option. */
  datatype EndPolicy = Stop | Clear | Rerun

  /** The `Error('Unknown option "<name>"')` thrown for any other value. */
  datatype NavError = UnknownOption(name: string)

  /** `{ movedFrom, movedTo }`: the items that lost the highlight (as indexes
      in document order) and the item that has it now, if any. */
  datatype Movement = Movement(movedFrom: seq<nat>, movedTo: Option<nat>)

  /** Reads `onListEnd`: an absent or empty value means 'stop'; the three
      known names select their policy; anything else is an error. */
  function ParsePolicy(onListEnd: Option<string>): (r: Result<EndPolicy, NavError>)
    ensures onListEnd == None ==> r == Success(Stop)
    ensures r.Failure? <==>
      onListEnd.Some? && onListEnd.value != "" && onListEnd.value != "stop"
      && onListEnd.value != "rerun" && onListEnd.value != "clear"
    ensures r.Failure? ==> r.error == UnknownOption(onListEnd.value)
    ensures r == Success(Rerun) <==> onListEnd == Some("rerun")
    ensures r == Success(Clear) <==> onListEnd == Some("clear")
  {
    var name := if onListEnd.None? then "" else onListEnd.value;
    if name == "" || name == "stop" then Success(Stop)
    else if name == "rerun" then Success(Rerun)
    else if name == "clear" then Success(Clear)
    else Failure(UnknownOption(name))
  }

  /** The first index at or after `k` whose flag is set. */
  function FirstFrom(s: seq<bool>, k: nat): (r: Option<nat>)
    ensures r.Some? ==> k <= r.value < |s| && s[r.value]
    ensures r.Some? ==> forall j :: k <= j < r.value ==> !s[j]
    ensures r.None? ==> forall j :: k <= j < |s| ==> !s[j]
    decreases |s| - k
  {
    if k >= |s| then None
    else if s[k] then Some(k)
    else FirstFrom(s, k + 1)
  }

  /** The last index strictly before `k` whose flag is set. */
  function LastBefore(s: seq<bool>, k: nat): (r: Option<nat>)
    ensures r.Some? ==> r.value < k && r.value < |s| && s[r.value]
    ensures r.Some? ==> forall j :: r.value < j < k && j < |s| ==> !s[j]
    ensures r.None? ==> forall j :: 0 <= j < k && j < |s| ==> !s[j]
    decreases k
  {
    if k == 0 then None
    else if k - 1 < |s| && s[k - 1] then Some(k - 1)
    else LastBefore(s, k - 1)
  }

  /** The indexes whose flag is set, in increasing order. */
  function Flagged(s: seq<bool>): (r: seq<nat>)
    ensures forall i :: 0 <= i < |r| ==> r[i] < |s| && s[r[i]]
    ensures forall j :: 0 <= j < |s| && s[j] ==> j in r
    ensures forall i, j :: 0 <= i < j < |r| ==> r[i] < r[j]
    decreases |s|
  {
    if s == [] then []
    else
      var r := Flagged(s[..|s| - 1]);
      assert forall j :: 0 <= j < |s| - 1 ==> s[..|s| - 1][j] == s[j];
      if s[|s| - 1] then r + [|s| - 1] else r
  }

  /** The item the highlight moves to. With an item highlighted, the nearest
      available item after the first highlighted one (forward) or before the
      last highlighted one (backward); with none, the first available item
      (forward) or nothing (backward). When that finds nothing, the policy
      decides: 'stop' keeps to this end, 'rerun' jumps to the other end,
      'clear' leaves nothing highlighted. */
  function Target(hl: seq<bool>, avail: seq<bool>, forward: bool, policy: EndPolicy): (t: Option<nat>)
    ensures t.Some? ==> t.value < |avail| && avail[t.value]
  {
    var next :=
      match FirstFrom(hl, 0)
      case Some(first) =>
        if forward then FirstFrom(avail, first + 1)
        else LastBefore(avail, LastBefore(hl, |hl|).value)
      case None =>
        if forward then FirstFrom(avail, 0) else None;
    if next.Some? then next
    else
      match policy
      case Stop => if forward then LastBefore(avail, |avail|) else FirstFrom(avail, 0)
      case Rerun => if forward then FirstFrom(avail, 0) else LastBefore(avail, |avail|)
      case Clear => None
  }

  /** The items that lose the highlight: every highlighted item, or, when
      none is highlighted, the first available item. */
  function MovedFrom(hl: seq<bool>, avail: seq<bool>): seq<nat>
  {
    if FirstFrom(hl, 0).Some? then Flagged(hl)
    else
      match FirstFrom(avail, 0)
      case Some(j) => [j]
      case None => []
  }

  /** `utils.moveListSelection`: validates the policy before touching
      anything, then clears the highlight of every item it moves from and
      highlights the target. */
  method MoveListSelection(highlighted: array<bool>, available: seq<bool>, forward: bool, onListEnd: Option<string>)
    returns (r: Result<Movement, NavError>)
    requires highlighted.Length == |available|
    modifies highlighted
    ensures r.Failure? <==> ParsePolicy(onListEnd).Failure?
    ensures r.Failure? ==> r.error == ParsePolicy(onListEnd).error && highlighted[..] == old(highlighted[..])
    ensures r.Success? ==>
      && r.value.movedTo == Target(old(highlighted[..]), available, forward, ParsePolicy(onListEnd).value)
      && r.value.movedFrom == MovedFrom(old(highlighted[..]), available)
    ensures r.Success? ==>
      forall j :: 0 <= j < highlighted.Length ==> highlighted[j] == (r.value.movedTo == Some(j))
  {
    var policy: EndPolicy;
    match ParsePolicy(onListEnd) {
      case Failure(e) => return Failure(e);
      case Success(p) => policy := p;
    }
    var before := highlighted[..];
    var target := Target(before, available, forward, policy);
    var from := MovedFrom(before, available);
    assert forall k :: 0 <= k < |from| ==> from[k] < highlighted.Length;
    ClearAll(highlighted, from);
    if target.Some? {
      highlighted[target.value] := true;
    }
    r := Success(Movement(from, target));
  }

  /** The highlight of every listed item cleared, one at a time. */
  method ClearAll(highlighted: array<bool>, from: seq<nat>)
    requires forall k :: 0 <= k < |from| ==> from[k] < highlighted.Length
    modifies highlighted
    ensures forall k :: 0 <= k < highlighted.Length ==> highlighted[k] == (old(highlighted[k]) && k !in from)
  {
    var i := 0;
    while i < |from|
      invariant 0 <= i <= |from|
      invariant forall k :: 0 <= k < highlighted.Length ==>
        highlighted[k] == (old(highlighted[k]) && k !in from[..i])
    {
      highlighted[from[i]] := false;
      assert from[..i + 1] == from[..i] + [from[i]];
      i := i + 1;
    }
    assert from[..|from|] == from;
  }

  // ----- Movement rules, stated without the search functions -----

  predicate IsFirst(s: seq<bool>, i: int)
  {
    0 <= i < |s| && s[i] && forall j :: 0 <= j < i ==> !s[j]
  }

  predicate IsLast(s: seq<bool>, i: int)
  {
    0 <= i < |s| && s[i] && forall j :: i < j < |s| ==> !s[j]
  }

  /** `j` is the nearest available item strictly after `f`. */
  predicate NearestAfter(avail: seq<bool>, f: nat, j: int)
  {
    f < j < |avail| && avail[j] && forall i :: f < i < j ==> !avail[i]
  }

  /** `j` is the nearest available item strictly before `l`. */
  predicate NearestBefore(avail: seq<bool>, l: nat, j: int)
  {
    0 <= j < l && j < |avail| && avail[j] && forall i :: j < i < l && i < |avail| ==> !avail[i]
  }

  lemma FirstFromIs(s: seq<bool>, k: nat, i: nat)
    requires k <= i < |s| && s[i] && forall j :: k <= j < i ==> !s[j]
    ensures FirstFrom(s, k) == Some(i)
  {
  }

  lemma LastBeforeIs(s: seq<bool>, k: nat, i: nat)
    requires i < k && i < |s| && s[i] && forall j :: i < j < k && j < |s| ==> !s[j]
    ensures LastBefore(s, k) == Some(i)
  {
  }

  /** Forward with an item highlighted: the nearest available item after the
      first highlighted one; at the end, 'stop' stays on the last available
      item, 'rerun' wraps to the first, 'clear' highlights nothing. */
  lemma ForwardMove(hl: seq<bool>, avail: seq<bool>, policy: EndPolicy, f: nat)
    requires |hl| == |avail| && IsFirst(hl, f)
    ensures forall j :: NearestAfter(avail, f, j) ==> Target(hl, avail, true, policy) == Some(j)
    ensures (forall j :: f < j < |avail| ==> !avail[j]) ==>
      && (policy == Stop ==> forall l :: IsLast(avail, l) ==> Target(hl, avail, true, policy) == Some(l))
      && (policy == Rerun ==> forall a :: IsFirst(avail, a) ==> Target(hl, avail, true, policy) == Some(a))
      && (policy == Clear ==> Target(hl, avail, true, policy) == None)
  {
    FirstFromIs(hl, 0, f);
    forall j | NearestAfter(avail, f, j) ensures Target(hl, avail, true, policy) == Some(j) {
      FirstFromIs(avail, f + 1, j);
    }
    if forall j :: f < j < |avail| ==> !avail[j] {
      assert FirstFrom(avail, f + 1).None?;
      forall l | IsLast(avail, l) ensures LastBefore(avail, |avail|) == Some(l) {
        LastBeforeIs(avail, |avail|, l);
      }
      forall a | IsFirst(avail, a) ensures FirstFrom(avail, 0) == Some(a) {
        FirstFromIs(avail, 0, a);
      }
    }
  }

  /** Backward with an item highlighted: the nearest available item before
      the last highlighted one; at the start, 'stop' stays on the first
      available item, 'rerun' wraps to the last, 'clear' highlights nothing. */
  lemma BackwardMove(hl: seq<bool>, avail: seq<bool>, policy: EndPolicy, l: nat)
    requires |hl| == |avail| && IsLast(hl, l)
    ensures forall j :: NearestBefore(avail, l, j) ==> Target(hl, avail, false, policy) == Some(j)
    ensures (forall j :: 0 <= j < l ==> !avail[j]) ==>
      && (policy == Stop ==> forall a :: IsFirst(avail, a) ==> Target(hl, avail, false, policy) == Some(a))
      && (policy == Rerun ==> forall z :: IsLast(avail, z) ==> Target(hl, avail, false, policy) == Some(z))
      && (policy == Clear ==> Target(hl, avail, false, policy) == None)
  {
    LastBeforeIs(hl, |hl|, l);
    assert FirstFrom(hl, 0).Some? by {
      assert hl[l];
    }
    forall j | NearestBefore(avail, l, j) ensures Target(hl, avail, false, policy) == Some(j) {
      LastBeforeIs(avail, l, j);
    }
    if forall j :: 0 <= j < l ==> !avail[j] {
      assert LastBefore(avail, l).None?;
      forall a | IsFirst(avail, a) ensures FirstFrom(avail, 0) == Some(a) {
        FirstFromIs(avail, 0, a);
      }
      forall z | IsLast(avail, z) ensures LastBefore(avail, |avail|) == Some(z) {
        LastBeforeIs(avail, |avail|, z);
      }
    }
  }

  /** With nothing highlighted: forward picks the first available item
      whatever the policy; backward picks the first (stop) or last (rerun)
      available item, or nothing (clear). */
  lemma MoveWithoutHighlight(hl: seq<bool>, avail: seq<bool>, policy: EndPolicy)
    requires |hl| == |avail| && forall j :: 0 <= j < |hl| ==> !hl[j]
    ensures forall a :: IsFirst(avail, a) ==> Target(hl, avail, true, policy) == Some(a)
    ensures (forall j :: 0 <= j < |avail| ==> !avail[j]) ==> Target(hl, avail, true, policy) == None
    ensures policy == Stop ==> forall a :: IsFirst(avail, a) ==> Target(hl, avail, false, policy) == Some(a)
    ensures policy == Rerun ==> forall z :: IsLast(avail, z) ==> Target(hl, avail, false, policy) == Some(z)
    ensures policy == Clear ==> Target(hl, avail, false, policy) == None
  {
    assert FirstFrom(hl, 0).None?;
    forall a | IsFirst(avail, a) ensures FirstFrom(avail, 0) == Some(a) {
      FirstFromIs(avail, 0, a);
    }
    forall z | IsLast(avail, z) ensures LastBefore(avail, |avail|) == Some(z) {
      LastBeforeIs(avail, |avail|, z);
    }
  }

  /** Three available items A, B, C with C highlighted, moving forward:
      'rerun' wraps to A, 'clear' empties the highlight, 'stop' stays on C. */
  lemma WrapExample()
    ensures Target([false, false, true], [true, true, true], true, Rerun) == Some(0)
    ensures Target([false, false, true], [true, true, true], true, Clear) == None
    ensures Target([false, false, true], [true, true, true], true, Stop) == Some(2)
  {
    ForwardMove([false, false, true], [true, true, true], Rerun, 2);
    ForwardMove([false, false, true], [true, true, true], Clear, 2);
    ForwardMove([false, false, true], [true, true, true], Stop, 2);
    assert IsFirst([true, true, true], 0);
    assert IsLast([true, true, true], 2);
  }
}
