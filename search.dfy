/**
 * `Chosen.prototype.search`: which options match a keyword, and the rules of
 * its remote branch (whether to ask the server, which received records are
 * new, and the keyword cache).
 */
module Matching {
  import opened Wrappers
  import opened Text
  import opened OptionStore

  /** The `search.bySubstr` and `search.splitWords` options. */
  datatype MatchPolicy = MatchPolicy(bySubstr: bool, splitWords: bool)

  /** The escaped keyword, compiled with the `i` flag, tested against `s`:
      found anywhere in `s`, or (anchored with `^`) at its start. */
  predicate PatternMatches(keyword: string, s: string, bySubstr: bool)
  {
    if bySubstr then Occurs(Lower(keyword), Lower(s)) else IsPrefix(Lower(keyword), Lower(s))
  }

  /** Whether an option label matches: as a whole when `bySubstr` is on or
      `splitWords` is off, otherwise word by word after splitting on spaces. */
  predicate Matches(text: string, keyword: string, policy: MatchPolicy)
  {
    if policy.bySubstr || !policy.splitWords then PatternMatches(keyword, text, policy.bySubstr)
    else exists i :: 0 <= i < |Split(text, ' ')| && PatternMatches(keyword, Split(text, ' ')[i], false)
  }

  /** The word loop: tests each word in turn and stops at the first match. */
  method MatchWords(words: seq<string>, keyword: string) returns (isMatch: bool)
    ensures isMatch <==> exists i :: 0 <= i < |words| && PatternMatches(keyword, words[i], false)
  {
    isMatch := false;
    var i := 0;
    while i < |words|
      invariant 0 <= i <= |words|
      invariant !isMatch
      invariant forall j :: 0 <= j < i ==> !PatternMatches(keyword, words[j], false)
    {
      isMatch := PatternMatches(keyword, words[i], false);
      if isMatch {
        break;
      }
      i := i + 1;
    }
  }

  /** The test applied to one option label. */
  method MatchText(text: string, keyword: string, policy: MatchPolicy) returns (isMatch: bool)
    ensures isMatch == Matches(text, keyword, policy)
  {
    if policy.bySubstr || !policy.splitWords {
      isMatch := PatternMatches(keyword, text, policy.bySubstr);
    } else {
      isMatch := MatchWords(Split(text, ' '), keyword);
    }
  }

  /** The indexes of the options at or after `start` whose label matches, in
      document order. */
  function MatchingIndexes(opts: seq<SelectOption>, start: nat, keyword: string, policy: MatchPolicy): (r: seq<nat>)
    ensures forall i :: 0 <= i < |r| ==> start <= r[i] < |opts| && Matches(opts[r[i]].text, keyword, policy)
    ensures forall k :: start <= k < |opts| && Matches(opts[k].text, keyword, policy) ==> k in r
    ensures forall i, j :: 0 <= i < j < |r| ==> r[i] < r[j]
  {
    TrueIndexes(MatchFlags(opts, keyword, policy), start)
  }

  /** Whether each option's label matches. */
  function MatchFlags(opts: seq<SelectOption>, keyword: string, policy: MatchPolicy): (r: seq<bool>)
    ensures |r| == |opts| && forall k :: 0 <= k < |opts| ==> r[k] == Matches(opts[k].text, keyword, policy)
  {
    seq(|opts|, k requires 0 <= k < |opts| => Matches(opts[k].text, keyword, policy))
  }

  /** The matching pass of `search` over the active options, which start at
      `start` (1 when the hidden option is present, else 0). */
  method MatchOptions(opts: seq<SelectOption>, start: nat, keyword: string, policy: MatchPolicy) returns (r: seq<nat>)
    ensures r == MatchingIndexes(opts, start, keyword, policy)
  {
    r := [];
    var k := start;
    if |opts| < start {
      return;
    }
    while k < |opts|
      invariant start <= k <= |opts|
      invariant r == TrueIndexes(MatchFlags(opts, keyword, policy)[..k], start)
    {
      r := MatchNext(opts, start, keyword, policy, k, r);
      k := k + 1;
    }
    assert MatchFlags(opts, keyword, policy)[..k] == MatchFlags(opts, keyword, policy);
  }

  /** One option of the pass: `$.map` keeps index `k` when its label
      matches. */
  method MatchNext(opts: seq<SelectOption>, start: nat, keyword: string, policy: MatchPolicy, k: nat, r: seq<nat>)
    returns (r': seq<nat>)
    requires start <= k < |opts|
    requires r == TrueIndexes(MatchFlags(opts, keyword, policy)[..k], start)
    ensures r' == TrueIndexes(MatchFlags(opts, keyword, policy)[..k + 1], start)
  {
    var isMatch := MatchText(opts[k].text, keyword, policy);
    TrueIndexesSnoc(MatchFlags(opts, keyword, policy), start, k);
    r' := if isMatch then r + [k] else r;
  }

  /** With `bySubstr`, an option matches exactly when the lower-cased keyword
      stands at some position of its lower-cased label. */
  lemma SubstringMatch(text: string, keyword: string, splitWords: bool)
    ensures Matches(text, keyword, MatchPolicy(true, splitWords)) <==>
      exists k :: OccursAt(Lower(keyword), Lower(text), k)
  {
    assert Matches(text, keyword, MatchPolicy(true, splitWords)) == Occurs(Lower(keyword), Lower(text));
    OccursIff(Lower(keyword), Lower(text));
  }

  /** `p` has no space and `s` continues with `p` at its start or right
      after some space. */
  ghost predicate PrefixOfSomeWord(p: string, s: string)
  {
    ' ' !in p && exists k :: WordStart(s, k) && IsPrefix(p, s[k..])
  }

  /** Without `bySubstr` but with `splitWords`, an option matches exactly
      when the keyword has no space and the lower-cased label continues with
      the lower-cased keyword at its start or right after some space. */
  lemma WordMatch(text: string, keyword: string)
    ensures Matches(text, keyword, MatchPolicy(false, true)) <==> PrefixOfSomeWord(Lower(keyword), Lower(text))
  {
    var words, lowered := Split(text, ' '), Split(Lower(text), ' ');
    LowerSplit(text);
    SplitPrefixIff(Lower(text), Lower(keyword));
    assert forall i :: 0 <= i < |words| ==>
      (PatternMatches(keyword, words[i], false) <==> IsPrefix(Lower(keyword), lowered[i]));
  }

  /** A whole-label prefix match is a word match when the keyword has no space. */
  lemma PrefixIsWordMatch(text: string, keyword: string)
    requires ' ' !in Lower(keyword) && Matches(text, keyword, MatchPolicy(false, false))
    ensures Matches(text, keyword, MatchPolicy(false, true))
  {
    var s := Lower(text);
    assert s[0..] == s;
    assert WordStart(s, 0) && IsPrefix(Lower(keyword), s[0..]);
    WordMatch(text, keyword);
  }

  /** A word match is a substring match. */
  lemma WordMatchIsSubstring(text: string, keyword: string, splitWords: bool)
    requires Matches(text, keyword, MatchPolicy(false, true))
    ensures Matches(text, keyword, MatchPolicy(true, splitWords))
  {
    WordMatch(text, keyword);
    PrefixOfWordOccurs(Lower(keyword), Lower(text));
    SubstringMatch(text, keyword, splitWords);
  }

  /** A prefix of a word occurs where the word starts. */
  lemma PrefixOfWordOccurs(p: string, s: string)
    requires PrefixOfSomeWord(p, s)
    ensures exists k :: OccursAt(p, s, k)
  {
    var k :| WordStart(s, k) && IsPrefix(p, s[k..]);
    assert s[k..][..|p|] == s[k..k + |p|];
    assert OccursAt(p, s, k);
  }

  /** Keywords that compare equal under `utils.textCompare` match the same
      options. */
  lemma MatchIgnoresCase(text: string, a: string, b: string, policy: MatchPolicy)
    requires TextCompare(a, b)
    ensures Matches(text, a, policy) <==> Matches(text, b, policy)
  {
  }

  // ----- The remote branch -----

  /** A record received from the server after the default `mapping`
      (`text` and `value`); an absent field is the empty string. */
  datatype Remote = Remote(text: string, value: string)

  /** An option mapped the same way, for the comparison with received records. */
  function MapOption(o: SelectOption): Remote
  {
    Remote(o.text, o.value)
  }

  /** Whether `search` sends a request: the remote branch is enabled and the
      request is forced, the cache is off, or the keyword was never requested. */
  predicate ShouldRequest(ajaxEnabled: bool, force: bool, useCache: bool, cached: seq<string>, keyword: string)
  {
    ajaxEnabled && (force || !useCache || keyword !in cached)
  }

  /** With the cache on and no forcing, a keyword is requested only once. */
  lemma RequestOnce(cached: seq<string>, keyword: string)
    ensures !ShouldRequest(true, false, true, cached + [keyword], keyword)
    ensures ShouldRequest(true, true, true, cached + [keyword], keyword)
  {
    assert (cached + [keyword])[|cached|] == keyword;
  }

  /** The received records that are not already options: compared with
      every option of the select, not with each other, in received order. */
  function FreshRecords(response: seq<Remote>, existing: seq<Remote>): (r: seq<Remote>)
    ensures |r| <= |response|
    ensures forall x :: x in r <==> x in response && x !in existing
    ensures forall x :: x !in existing ==> multiset(r)[x] == multiset(response)[x]
  {
    if response == [] then []
    else
      var rest := FreshRecords(response[1..], existing);
      assert response == [response[0]] + response[1..];
      if response[0] in existing then rest else [response[0]] + rest
  }

  /** The mapped view of all options, `$.map(el.options, mapper)`. */
  function MappedOptions(opts: seq<SelectOption>): (r: seq<Remote>)
    ensures |r| == |opts|
    ensures forall k :: 0 <= k < |opts| ==> r[k] == MapOption(opts[k])
  {
    if opts == [] then [] else [MapOption(opts[0])] + MappedOptions(opts[1..])
  }

  /** A received record that shares both label and value with an option is
      never added again. */
  lemma FreshSkipsExisting(response: seq<Remote>, opts: seq<SelectOption>, k: nat)
    requires k < |opts|
    ensures MapOption(opts[k]) !in FreshRecords(response, MappedOptions(opts))
  {
    assert MappedOptions(opts)[k] == MapOption(opts[k]);
  }

  /** `requestsCache`: the keywords requested so far. It is created once for
      the `search` function shared by every instance, so all selects on a
      page read and grow the same cache. */
  class RequestCache {
    var keywords: seq<string>

    constructor ()
      ensures keywords == []
    {
      keywords := [];
    }

    /** `requestsCache.push(keyword)`. */
    method Push(keyword: string)
      modifies this
      ensures keywords == old(keywords) + [keyword]
    {
      keywords := keywords + [keyword];
    }
  }
}
