/**
 * String helpers behind `utils.textCompare` and the search matcher:
 * ASCII case folding, splitting on a single space, prefixes and substrings.
 */
module Text {

  /** `toLowerCase` on one character, for the ASCII letters. */
  function LowerChar(c: char): char
  {
    if 'A' <= c <= 'Z' then (c as int + 32) as char else c
  }

  /** `toLowerCase` on a whole string. */
  function Lower(s: string): (r: string)
    ensures |r| == |s|
    ensures forall i :: 0 <= i < |s| ==> r[i] == LowerChar(s[i])
  {
    if s == [] then [] else [LowerChar(s[0])] + Lower(s[1..])
  }

  /** `utils.textCompare(pattern, source)`: equality after lower-casing both sides. */
  predicate TextCompare(pattern: string, source: string)
  {
    Lower(pattern) == Lower(source)
  }

  /** Two texts compare equal exactly when they agree letter by letter up to case. */
  lemma TextCompareIff(a: string, b: string)
    ensures TextCompare(a, b) <==>
      |a| == |b| && forall i :: 0 <= i < |a| ==> LowerChar(a[i]) == LowerChar(b[i])
  {
    if |a| == |b| && forall i :: 0 <= i < |a| ==> LowerChar(a[i]) == LowerChar(b[i]) {
      assert forall i :: 0 <= i < |a| ==> Lower(a)[i] == Lower(b)[i];
    }
  }

  /** Folding a text that is already folded changes nothing, so a text compares equal to its folded form. */
  lemma TextCompareFolded(s: string)
    ensures Lower(Lower(s)) == Lower(s)
    ensures TextCompare(s, Lower(s))
  {
    assert forall i :: 0 <= i < |s| ==> LowerChar(LowerChar(s[i])) == LowerChar(s[i]);
    assert forall i :: 0 <= i < |s| ==> Lower(Lower(s))[i] == Lower(s)[i];
  }

  /** `p` is a prefix of `s`. */
  predicate IsPrefix(p: string, s: string)
  {
    |p| <= |s| && s[..|p|] == p
  }

  /** `p` occurs somewhere in `s`. */
  predicate Occurs(p: string, s: string)
    decreases |s|
  {
    IsPrefix(p, s) || (|s| > 0 && Occurs(p, s[1..]))
  }

  /** `p` stands in `s` at position `k`. */
  predicate OccursAt(p: string, s: string, k: int)
  {
    0 <= k <= |s| - |p| && s[k..k + |p|] == p
  }

  /** `Occurs` is the usual "substring at some position" relation. */
  lemma {:induction false} OccursIff(p: string, s: string)
    ensures Occurs(p, s) <==> exists k :: OccursAt(p, s, k)
    decreases |s|
  {
    forall k | OccursAt(p, s, k) && k == 0 ensures IsPrefix(p, s) {
      assert s[..|p|] == s[k..k + |p|];
    }
    if IsPrefix(p, s) {
      assert OccursAt(p, s, 0);
    } else if |s| > 0 {
      var t := s[1..];
      OccursIff(p, t);
      if Occurs(p, t) {
        var k :| OccursAt(p, t, k);
        assert s[k + 1..k + 1 + |p|] == t[k..k + |p|];
        assert OccursAt(p, s, k + 1);
      }
      forall k | OccursAt(p, s, k) && k > 0 ensures OccursAt(p, t, k - 1) {
        var u, v := t[k - 1..k - 1 + |p|], s[k..k + |p|];
        assert forall i :: 0 <= i < |p| ==> u[i] == v[i];
        assert u == p;
      }
    }
  }

  /** `text.split(sep)` for a one-character separator: cut at every occurrence;
      adjacent separators give empty pieces. */
  function Split(s: string, sep: char): (r: seq<string>)
    ensures |r| >= 1
    ensures forall w :: w in r ==> sep !in w
  {
    if s == [] then [""]
    else
      var rest := Split(s[1..], sep);
      if s[0] == sep then [""] + rest
      else [[s[0]] + rest[0]] + rest[1..]
  }

  /** `pieces.join(sep)`. */
  function Join(ws: seq<string>, sep: char): string
    requires |ws| >= 1
  {
    if |ws| == 1 then ws[0] else ws[0] + [sep] + Join(ws[1..], sep)
  }

  /** Splitting loses nothing: joining the pieces with the separator gives the text back. */
  lemma {:induction false} SplitJoin(s: string, sep: char)
    ensures Join(Split(s, sep), sep) == s
  {
    if s != [] {
      var rest := Split(s[1..], sep);
      SplitJoin(s[1..], sep);
      if s[0] == sep {
        assert Split(s, sep) == [""] + rest;
        JoinSep(rest, sep);
      } else {
        assert Split(s, sep) == [[s[0]] + rest[0]] + rest[1..];
        JoinCons(s[0], rest, sep);
      }
      assert [s[0]] + s[1..] == s;
    }
  }

  lemma JoinSep(ws: seq<string>, sep: char)
    requires |ws| >= 1
    ensures Join([""] + ws, sep) == [sep] + Join(ws, sep)
  {
    assert ([""] + ws)[1..] == ws;
  }

  /** A letter put in front of the first piece comes out in front. */
  lemma JoinCons(c: char, ws: seq<string>, sep: char)
    requires |ws| >= 1
    ensures Join([[c] + ws[0]] + ws[1..], sep) == [c] + Join(ws, sep)
  {
    var vs := [[c] + ws[0]] + ws[1..];
    if |ws| > 1 {
      assert vs[1..] == ws[1..];
    }
  }

  /** A space-separated word of `s` starts at position `k`. */
  predicate WordStart(s: string, k: int)
  {
    0 <= k <= |s| && (k == 0 || s[k - 1] == ' ')
  }

  /** The run of non-space characters of `s` that starts at `k`. */
  function WordAt(s: string, k: nat): (w: string)
    ensures ' ' !in w
    decreases |s| - k
  {
    if k >= |s| || s[k] == ' ' then "" else [s[k]] + WordAt(s, k + 1)
  }

  /** A text without spaces is a prefix of the word at `k` exactly when it
      is a prefix of the rest of `s` from `k`. */
  lemma {:induction false} WordAtPrefix(s: string, k: nat, p: string)
    requires k <= |s| && ' ' !in p
    ensures IsPrefix(p, WordAt(s, k)) <==> IsPrefix(p, s[k..])
    decreases |s| - k
  {
    if p != [] && k < |s| && s[k] != ' ' {
      assert ' ' !in p[1..] by {
        assert forall c :: c in p[1..] ==> c in p;
      }
      WordAtPrefix(s, k + 1, p[1..]);
      var w := WordAt(s, k + 1);
      assert IsPrefix(p, [s[k]] + w) <==> p[0] == s[k] && IsPrefix(p[1..], w) by {
        if |p| <= |w| + 1 {
          assert ([s[k]] + w)[..|p|] == [s[k]] + w[..|p| - 1];
          assert p == [p[0]] + p[1..];
        }
      }
      assert IsPrefix(p, s[k..]) <==> p[0] == s[k] && IsPrefix(p[1..], s[k + 1..]) by {
        if |p| <= |s| - k {
          assert s[k..][..|p|] == [s[k]] + s[k + 1..][..|p| - 1];
          assert p == [p[0]] + p[1..];
        }
      }
    } else if p != [] && k < |s| {
      assert s[k..][0] == ' ';
      assert p[0] != ' ' by {
        assert p[0] in p;
      }
    }
  }

  lemma {:induction false} WordAtShift(s: string, k: nat)
    requires |s| > 0
    ensures WordAt(s, k + 1) == WordAt(s[1..], k)
    decreases |s| - k
  {
    if k + 1 < |s| && s[k + 1] != ' ' {
      WordAtShift(s, k + 1);
    }
  }

  /** The first piece of a split on spaces is the word at the start. */
  lemma {:induction false} FirstPiece(s: string)
    ensures Split(s, ' ')[0] == WordAt(s, 0)
  {
    if s != [] && s[0] != ' ' {
      FirstPiece(s[1..]);
      WordAtShift(s, 0);
    }
  }

  /** Piece `i` of the split of `s` on spaces is the word after some space. */
  predicate PieceAfterSpace(s: string, i: nat)
    requires i < |Split(s, ' ')|
  {
    exists k :: 1 <= k <= |s| && s[k - 1] == ' ' && Split(s, ' ')[i] == WordAt(s, k)
  }

  /** The word after the space at `k - 1` is a later piece of the split. */
  predicate WordIsLaterPiece(s: string, k: nat)
  {
    exists i :: 1 <= i < |Split(s, ' ')| && Split(s, ' ')[i] == WordAt(s, k)
  }

  /** Every piece of a split on spaces but the first is the word after a space. */
  lemma {:induction false} LaterPiecesAreWords(s: string)
    ensures forall i :: 1 <= i < |Split(s, ' ')| ==> PieceAfterSpace(s, i)
  {
    if s != [] {
      var t := s[1..];
      var w, v := Split(s, ' '), Split(t, ' ');
      LaterPiecesAreWords(t);
      forall i | 1 <= i < |w| ensures PieceAfterSpace(s, i) {
        if s[0] == ' ' {
          assert w == [""] + v;
          if i == 1 {
            FirstPiece(t);
            WordAtShift(s, 0);
            assert w[i] == WordAt(s, 1);
          } else {
            assert PieceAfterSpace(t, i - 1);
            var k :| 1 <= k <= |t| && t[k - 1] == ' ' && v[i - 1] == WordAt(t, k);
            WordAtShift(s, k);
            assert s[k] == ' ' && w[i] == WordAt(s, k + 1);
          }
        } else {
          assert w == [[s[0]] + v[0]] + v[1..];
          assert w[i] == v[i];
          assert PieceAfterSpace(t, i);
          var k :| 1 <= k <= |t| && t[k - 1] == ' ' && v[i] == WordAt(t, k);
          WordAtShift(s, k);
          assert s[k] == ' ' && w[i] == WordAt(s, k + 1);
        }
      }
    }
  }

  /** The word after every space is a piece of the split other than the first. */
  lemma {:induction false} WordsAreLaterPieces(s: string)
    ensures forall k :: 1 <= k <= |s| && s[k - 1] == ' ' ==> WordIsLaterPiece(s, k)
  {
    if s != [] {
      var t := s[1..];
      var w, v := Split(s, ' '), Split(t, ' ');
      WordsAreLaterPieces(t);
      forall k | 1 <= k <= |s| && s[k - 1] == ' ' ensures WordIsLaterPiece(s, k) {
        WordAtShift(s, k - 1);
        if s[0] == ' ' {
          assert w == [""] + v;
          if k == 1 {
            FirstPiece(t);
            assert w[1] == WordAt(s, 1);
          } else {
            assert t[k - 2] == ' ';
            assert WordIsLaterPiece(t, k - 1);
            var i :| 1 <= i < |v| && v[i] == WordAt(t, k - 1);
            assert w[i + 1] == WordAt(s, k);
          }
        } else {
          assert w == [[s[0]] + v[0]] + v[1..];
          assert k >= 2 && t[k - 2] == ' ';
          assert WordIsLaterPiece(t, k - 1);
          var i :| 1 <= i < |v| && v[i] == WordAt(t, k - 1);
          assert w[i] == WordAt(s, k);
        }
      }
    }
  }

  /** The pieces of a split on spaces are exactly the words that start at a
      word start: a text is a prefix of some piece exactly when it contains
      no space and is a prefix of `s` from some word start. */
  lemma SplitPrefixIff(s: string, p: string)
    ensures (exists i :: 0 <= i < |Split(s, ' ')| && IsPrefix(p, Split(s, ' ')[i])) <==>
      (' ' !in p && exists k :: WordStart(s, k) && IsPrefix(p, s[k..]))
  {
    var w := Split(s, ' ');
    if i :| 0 <= i < |w| && IsPrefix(p, w[i]) {
      assert ' ' !in p by {
        assert w[i] in w;
        assert forall c :: c in p ==> c in w[i];
      }
      var k: nat;
      if i == 0 {
        FirstPiece(s);
        k := 0;
      } else {
        LaterPiecesAreWords(s);
        assert PieceAfterSpace(s, i);
        k :| 1 <= k <= |s| && s[k - 1] == ' ' && w[i] == WordAt(s, k);
      }
      WordAtPrefix(s, k, p);
      assert WordStart(s, k) && IsPrefix(p, s[k..]);
    }
    if ' ' !in p && exists k :: WordStart(s, k) && IsPrefix(p, s[k..]) {
      var k :| WordStart(s, k) && IsPrefix(p, s[k..]);
      WordAtPrefix(s, k, p);
      if k == 0 {
        FirstPiece(s);
        assert IsPrefix(p, w[0]);
      } else {
        WordsAreLaterPieces(s);
        assert WordIsLaterPiece(s, k);
        var i :| 1 <= i < |w| && w[i] == WordAt(s, k);
        assert IsPrefix(p, w[i]);
      }
    }
  }

  /** Lower-casing a text and splitting it on spaces gives the lower-cased pieces. */
  lemma LowerSplit(s: string)
    ensures |Split(Lower(s), ' ')| == |Split(s, ' ')|
    ensures forall i :: 0 <= i < |Split(s, ' ')| ==> Split(Lower(s), ' ')[i] == Lower(Split(s, ' ')[i])
  {
    SplitLowered(s);
  }

  lemma {:induction false} SplitLowered(s: string)
    ensures SplitsLowered(s)
    decreases |s|
  {
    if s != [] {
      SplitLowered(s[1..]);
      if s[0] == ' ' {
        LowerSplitSpace(s);
      } else {
        LowerSplitLetter(s);
      }
    }
  }

  /** The pieces of the lower-cased text are the lower-cased pieces. */
  predicate SplitsLowered(s: string)
  {
    && |Split(Lower(s), ' ')| == |Split(s, ' ')|
    && forall i :: 0 <= i < |Split(s, ' ')| ==> Split(Lower(s), ' ')[i] == Lower(Split(s, ' ')[i])
  }

  lemma LowerSplitSpace(s: string)
    requires s != [] && s[0] == ' ' && SplitsLowered(s[1..])
    ensures SplitsLowered(s)
  {
    var ls := Lower(s);
    assert ls[0] == ' ' && ls[1..] == Lower(s[1..]);
  }

  lemma LowerSplitLetter(s: string)
    requires s != [] && s[0] != ' ' && SplitsLowered(s[1..])
    ensures SplitsLowered(s)
  {
    var ls := Lower(s);
    assert ls[0] == LowerChar(s[0]) != ' ' && ls[1..] == Lower(s[1..]);
    var t, lt := Split(s[1..], ' '), Split(Lower(s[1..]), ' ');
    var a, b := Split(s, ' '), Split(ls, ' ');
    assert a == [[s[0]] + t[0]] + t[1..];
    assert b == [[LowerChar(s[0])] + lt[0]] + lt[1..];
    LowerCons(s[0], t[0]);
    forall i | 0 <= i < |a| ensures b[i] == Lower(a[i]) {
      if i > 0 {
        assert a[i] == t[i] && b[i] == lt[i];
      }
    }
  }

  lemma LowerCons(c: char, w: string)
    ensures Lower([c] + w) == [LowerChar(c)] + Lower(w)
  {
  }

  /** Regular-expression word character `\w`. */
  predicate IsWordChar(c: char)
  {
    ('a' <= c <= 'z') || ('A' <= c <= 'Z') || ('0' <= c <= '9') || c == '_'
  }

  // ----- the option label getter -----

  /** ASCII whitespace: tab, line feed, form feed, carriage return and space. */
  predicate IsAsciiSpace(c: char)
  {
    c == '\t' || c == '\n' || c == '\U{C}' || c == '\r' || c == ' '
  }

  /** `s` without its leading ASCII whitespace. */
  function DropSpaces(s: string): (r: string)
    ensures |r| <= |s|
    ensures r == [] || !IsAsciiSpace(r[0])
    ensures s != [] && IsAsciiSpace(s[0]) ==> |r| < |s|
  {
    if s == [] || !IsAsciiSpace(s[0]) then s else DropSpaces(s[1..])
  }

  /** Dropping leading whitespace keeps every other character. */
  lemma {:induction false} DropSpacesVisible(s: string)
    ensures Visible(DropSpaces(s)) == Visible(s)
  {
    if s != [] && IsAsciiSpace(s[0]) {
      DropSpacesVisible(s[1..]);
    }
  }

  /** The characters of `s` that are not ASCII whitespace, in order. */
  function Visible(s: string): string
  {
    if s == [] then [] else (if IsAsciiSpace(s[0]) then [] else [s[0]]) + Visible(s[1..])
  }

  /** A text in the form the label getter produces: empty, or a character
      other than whitespace followed by a `CollapsedTail`. */
  predicate Collapsed(s: string)
    decreases |s|, 1
  {
    s == [] || (!IsAsciiSpace(s[0]) && CollapsedTail(s[1..]))
  }

  /** What may follow a character other than whitespace in a collapsed
      text: nothing, another such character, or one space before a
      non-empty collapsed text. */
  predicate CollapsedTail(s: string)
    decreases |s|, 0
  {
    if s == [] then true
    else if !IsAsciiSpace(s[0]) then CollapsedTail(s[1..])
    else s[0] == ' ' && s[1..] != [] && Collapsed(s[1..])
  }

  /** Every run of ASCII whitespace in `s` replaced by one space, and a
      trailing run dropped. */
  function Squeeze(s: string): string
    decreases |s|
  {
    if s == [] then []
    else if !IsAsciiSpace(s[0]) then [s[0]] + Squeeze(s[1..])
    else
      var t := DropSpaces(s);
      if t == [] then [] else [' '] + Squeeze(t)
  }

  /** Squeezing leaves a collapsed tail that starts where the text does,
      and keeps every character other than whitespace. */
  lemma {:induction false} SqueezeShape(s: string)
    ensures CollapsedTail(Squeeze(s))
    ensures s != [] && !IsAsciiSpace(s[0]) ==> Squeeze(s) != [] && Squeeze(s)[0] == s[0]
    ensures Visible(Squeeze(s)) == Visible(s)
    decreases |s|
  {
    if s == [] {
    } else if !IsAsciiSpace(s[0]) {
      SqueezeShape(s[1..]);
      var r := Squeeze(s);
      assert r[1..] == Squeeze(s[1..]);
    } else {
      var t := DropSpaces(s);
      DropSpacesVisible(s);
      if t != [] {
        SqueezeShape(t);
        var r := Squeeze(s);
        assert r[1..] == Squeeze(t);
      }
    }
  }

  /** The `text` getter of an option element: its text with ASCII
      whitespace stripped from both ends and every inner run collapsed to
      one space (HTML Living Standard, section 4.10.10 "The option
      element"). */
  function StripCollapse(s: string): string
    decreases |s|
  {
    if s != [] && IsAsciiSpace(s[0]) then StripCollapse(s[1..]) else Squeeze(s)
  }

  /** The label read back is collapsed, and only its whitespace differs
      from the text. */
  lemma {:induction false} StripCollapseShape(s: string)
    ensures Collapsed(StripCollapse(s))
    ensures Visible(StripCollapse(s)) == Visible(s)
    decreases |s|
  {
    if s != [] && IsAsciiSpace(s[0]) {
      StripCollapseShape(s[1..]);
    } else {
      SqueezeShape(s);
    }
  }

  /** A collapsed text has no whitespace but single spaces between other
      characters. */
  lemma {:induction false} CollapsedShape(s: string)
    requires Collapsed(s)
    ensures forall i :: 0 <= i < |s| && IsAsciiSpace(s[i]) ==> s[i] == ' '
    ensures forall i :: 0 <= i < |s| - 1 && s[i] == ' ' ==> !IsAsciiSpace(s[i + 1])
    ensures s != [] ==> !IsAsciiSpace(s[0]) && !IsAsciiSpace(s[|s| - 1])
    decreases |s|
  {
    if s != [] {
      TailShape(s[1..]);
    }
  }

  lemma {:induction false} TailShape(s: string)
    requires CollapsedTail(s)
    ensures forall i :: 0 <= i < |s| && IsAsciiSpace(s[i]) ==> s[i] == ' '
    ensures forall i :: 0 <= i < |s| - 1 && s[i] == ' ' ==> !IsAsciiSpace(s[i + 1])
    ensures s != [] ==> !IsAsciiSpace(s[|s| - 1])
    decreases |s|
  {
    if s != [] {
      if !IsAsciiSpace(s[0]) {
        TailShape(s[1..]);
      } else {
        CollapsedShape(s[1..]);
      }
    }
  }

  /** A text already in collapsed form is its own label, so the getter is
      idempotent. */
  lemma StripCollapseFixes(s: string)
    ensures Collapsed(s) ==> StripCollapse(s) == s
    ensures StripCollapse(StripCollapse(s)) == StripCollapse(s)
  {
    if Collapsed(s) {
      SqueezeFixes(s);
    }
    StripCollapseShape(s);
    SqueezeFixes(StripCollapse(s));
  }

  lemma {:induction false} SqueezeFixes(s: string)
    requires Collapsed(s)
    ensures Squeeze(s) == s
    decreases |s|
  {
    if s != [] {
      SqueezeTailFixes(s[1..]);
    }
  }

  lemma {:induction false} SqueezeTailFixes(s: string)
    requires CollapsedTail(s)
    ensures Squeeze(s) == s
    decreases |s|
  {
    if s != [] {
      if !IsAsciiSpace(s[0]) {
        SqueezeTailFixes(s[1..]);
      } else {
        assert DropSpaces(s) == s[1..];
        SqueezeFixes(s[1..]);
      }
    }
  }

  /** The getter drops padding. */
  lemma StripPadding()
    ensures StripCollapse(" x") == "x"
  {
    assert " x"[1..] == "x" && "x"[1..] == [];
    assert DropSpaces(" x") == "x";
    assert Squeeze("x") == "x";
  }

  /** The getter collapses doubled spaces. */
  lemma StripDoubleSpace()
    ensures StripCollapse("a  b") == "a b"
  {
    SqueezeSpaces();
    assert "a  b"[1..] == "  b";
    assert DropSpaces("a  b") == "a  b";
  }

  lemma SqueezeSpaces()
    ensures Squeeze("  b") == " b"
  {
    DropSpacesB();
    SqueezeB();
  }

  lemma DropSpacesB()
    ensures DropSpaces("  b") == "b"
  {
    assert "  b"[1..] == " b" && " b"[1..] == "b";
  }

  lemma SqueezeB()
    ensures Squeeze("b") == "b"
  {
    assert "b"[1..] == [];
  }
}
