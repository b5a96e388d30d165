/**
 * `utils.format`: a template engine that replaces every `{path.to.field}`
 * placeholder by the value found along that path in a data object, falling
 * back to a defaults object and then to the empty string.
 */
module Format {
  import opened Wrappers
  import opened Text

  /** The data a template reads: a string, or an object whose own fields
      are further values. */
  datatype Value = Str(s: string) | Obj(fields: map<string, Value>)

  /** `value[key]`; a string has no fields here. */
  function Get(v: Value, key: string): Option<Value>
  {
    match v
    case Str(_) => None
    case Obj(m) => if key in m then Some(m[key]) else None
  }

  /** The value reached by following `parts` from `v`, if every step exists. */
  function Lookup(parts: seq<string>, v: Value): Option<Value>
    decreases |parts|
  {
    if parts == [] then Some(v)
    else
      match Get(v, parts[0])
      case None => None
      case Some(w) => Lookup(parts[1..], w)
  }

  /** What `parsePath(path, data, defaults)` yields: the value at the dotted
      path in `data`; if a step is missing, the value at the same path in
      `defaults` (with no further fallback); otherwise the empty string. */
  function Resolve(path: string, data: Value, defaults: Option<Value>): Value
    decreases if defaults.Some? then 1 else 0
  {
    match Lookup(Split(path, '.'), data)
    case Some(v) => v
    case None =>
      if defaults.Some? then Resolve(path, defaults.value, None) else Str("")
  }

  /** `parsePath`: walks the path parts one by one, shifting them off the
      front, and stops at the first missing step. */
  method ParsePath(path: string, data: Value, defaults: Option<Value>) returns (result: Value)
    ensures result == Resolve(path, data, defaults)
    decreases if defaults.Some? then 1 else 0
  {
    var parts := Split(path, '.');
    var current := data;
    while |parts| > 0
      invariant Lookup(parts, current) == Lookup(Split(path, '.'), data)
      decreases |parts|
    {
      var next := Get(current, parts[0]);
      parts := parts[1..];
      if next.None? {
        if defaults.Some? {
          result := ParsePath(path, defaults.value, None);
        } else {
          result := Str("");
        }
        return;
      }
      current := next.value;
    }
    result := current;
  }

  /** String conversion of a substituted value. */
  function Render(v: Value): string
  {
    match v
    case Str(s) => s
    case Obj(_) => "[object Object]"
  }

  /** A character allowed inside a placeholder. */
  predicate IsKeyChar(c: char)
  {
    IsWordChar(c) || c == ':' || c == '-' || c == '.'
  }

  /** The placeholder contents the pattern `(\w+[:-]?\w*\.?)+` accepts: word
      characters, with a `:` or `-` only right after a word character, and a
      `.` never right after another `.`; the first character is a word character. */
  predicate ValidKey(k: string)
  {
    && |k| > 0
    && IsWordChar(k[0])
    && forall i :: 0 < i < |k| ==>
         && IsKeyChar(k[i])
         && ((k[i] == ':' || k[i] == '-') ==> IsWordChar(k[i - 1]))
         && (k[i] == '.' ==> k[i - 1] != '.')
  }

  /** The first `}` at or after position `from`. */
  function CloseBrace(t: string, from: nat): (r: Option<nat>)
    ensures r.Some? ==> from <= r.value < |t| && t[r.value] == '}'
    ensures r.Some? ==> forall j :: from <= j < r.value ==> t[j] != '}'
    ensures r.None? ==> forall j :: from <= j < |t| ==> t[j] != '}'
    decreases |t| - from
  {
    if from >= |t| then None
    else if t[from] == '}' then Some(from)
    else CloseBrace(t, from + 1)
  }

  /** The key of a placeholder that starts `t` (at its `{`), if the text up to
      the next `}` is one. No key contains `}`, so a match starting at this
      `{` can only end at the first `}` after it. */
  function Placeholder(t: string): (r: Option<string>)
    requires |t| > 0 && t[0] == '{'
    ensures r.Some? ==> ValidKey(r.value) && |r.value| + 2 <= |t|
    ensures r.Some? ==> t[..|r.value| + 2] == "{" + r.value + "}"
  {
    match CloseBrace(t, 1)
    case None => None
    case Some(j) => if ValidKey(t[1..j]) then Some(t[1..j]) else None
  }

  /** `utils.format(template, data, defaults)`: scan left to right; each `{key}`
      with a valid key becomes the rendered value at that path; everything
      else is copied. */
  function Format(t: string, data: Value, defaults: Option<Value>): string
    decreases |t|
  {
    if t == [] then []
    else if t[0] == '{' && Placeholder(t).Some? then
      var k := Placeholder(t).value;
      Render(Resolve(k, data, defaults)) + Format(t[|k| + 2..], data, defaults)
    else [t[0]] + Format(t[1..], data, defaults)
  }

  /** Text without `{` in front of the rest of a template is copied as it is;
      with an empty rest, a template without `{` is returned unchanged. */
  lemma {:induction false} FormatLiteral(p: string, rest: string, data: Value, defaults: Option<Value>)
    requires '{' !in p
    ensures Format(p + rest, data, defaults) == p + Format(rest, data, defaults)
    decreases |p|
  {
    if p == [] {
      assert p + rest == rest;
    } else {
      var t := p + rest;
      assert p == [p[0]] + p[1..] && t[0] != '{' && t[1..] == p[1..] + rest;
      FormatLiteral(p[1..], rest, data, defaults);
    }
  }

  /** The first `}` from `from` on is at `j` when none comes before it. */
  lemma {:induction false} CloseBraceAt(t: string, from: nat, j: nat)
    requires from <= j < |t| && t[j] == '}'
    requires forall i :: from <= i < j ==> t[i] != '}'
    ensures CloseBrace(t, from) == Some(j)
    decreases j - from
  {
    if from < j {
      CloseBraceAt(t, from + 1, j);
    }
  }

  /** A placeholder with a valid key is replaced by the value at its path,
      and scanning resumes right after its `}`. */
  lemma FormatPlaceholder(k: string, rest: string, data: Value, defaults: Option<Value>)
    requires ValidKey(k)
    ensures Format("{" + k + "}" + rest, data, defaults)
         == Render(Resolve(k, data, defaults)) + Format(rest, data, defaults)
  {
    var t := "{" + k + "}" + rest;
    forall i | 1 <= i < |k| + 1
      ensures t[i] != '}'
    {
      assert t[i] == k[i - 1];
      assert i - 1 == 0 || IsKeyChar(k[i - 1]);
    }
    assert t[|k| + 1] == '}';
    CloseBraceAt(t, 1, |k| + 1);
    assert t[1..|k| + 1] == k;
    assert Placeholder(t) == Some(k);
    assert t[|k| + 2..] == rest;
  }

  /** Text in braces that is not a valid key is copied, brace included. */
  lemma FormatNotAKey(k: string, rest: string, data: Value, defaults: Option<Value>)
    requires !ValidKey(k) && '}' !in k
    ensures Format("{" + k + "}" + rest, data, defaults)
         == "{" + Format(k + "}" + rest, data, defaults)
  {
    var t := "{" + k + "}" + rest;
    assert forall j :: 1 <= j < |k| + 1 ==> t[j] == k[j - 1];
    assert t[|k| + 1] == '}';
    assert CloseBrace(t, 1) == Some(|k| + 1);
    assert t[1..|k| + 1] == k;
    assert t[1..] == k + "}" + rest;
  }
}
