/**
 * JavaScript string behaviour used by the bot: the `\s` class, `trim`, `\w`,
 * line terminators for `.`, and `Array.prototype.join`. A `string` stands for a
 * JavaScript string, one `char` per UTF-16 code unit.
 */
module JsString {
  import opened Wrappers

  /** ECMAScript WhiteSpace and LineTerminator: what the regex class `\s` matches and what `trim` removes. */
  predicate IsWhitespace(c: char) {
    c == '\t' || c == '\n' || c == '\U{000B}' || c == '\U{000C}' || c == '\r' || c == ' ' ||
    c == '\U{00A0}' || c == '\U{1680}' || ('\U{2000}' <= c <= '\U{200A}') ||
    c == '\U{2028}' || c == '\U{2029}' || c == '\U{202F}' || c == '\U{205F}' ||
    c == '\U{3000}' || c == '\U{FEFF}'
  }

  /** No printable ASCII code unit is whitespace. */
  lemma PrintableIsNotWhitespace(c: char)
    requires '!' <= c <= '~'
    ensures !IsWhitespace(c)
  {
  }

  /** The code units that the regex `.` does not match (no `s` flag). */
  predicate IsLineTerminator(c: char) {
    c == '\n' || c == '\r' || c == '\U{2028}' || c == '\U{2029}'
  }

  /** The regex class `\w`. */
  predicate IsWordChar(c: char) {
    ('a' <= c <= 'z') || ('A' <= c <= 'Z') || ('0' <= c <= '9') || c == '_'
  }

  /** JavaScript truthiness of a possibly absent string: present and non-empty. */
  predicate Truthy(o: Option<string>) {
    o.Some? && o.value != ""
  }

  /** The first index at or after `from` that does not hold whitespace, or `|s|`. */
  function SkipWhitespace(s: string, from: nat): (k: nat)
    requires from <= |s|
    ensures from <= k <= |s|
    ensures forall i :: from <= i < k ==> IsWhitespace(s[i])
    ensures k < |s| ==> !IsWhitespace(s[k])
    decreases |s| - from
  {
    if from == |s| || !IsWhitespace(s[from]) then from else SkipWhitespace(s, from + 1)
  }

  /** The index just past the last code unit in `[lo, hi)` that is not whitespace, or `lo`. */
  function BackWhitespace(s: string, lo: nat, hi: nat): (k: nat)
    requires lo <= hi <= |s|
    ensures lo <= k <= hi
    ensures forall i :: k <= i < hi ==> IsWhitespace(s[i])
    ensures k > lo ==> !IsWhitespace(s[k - 1])
    decreases hi - lo
  {
    if hi == lo || !IsWhitespace(s[hi - 1]) then hi else BackWhitespace(s, lo, hi - 1)
  }

  /** `String.prototype.trim`: the text between the leading and the trailing whitespace. */
  function Trim(s: string): (r: string)
    ensures |r| <= |s|
    ensures r == [] || (!IsWhitespace(r[0]) && !IsWhitespace(r[|r| - 1]))
  {
    var start := SkipWhitespace(s, 0);
    s[start..BackWhitespace(s, start, |s|)]
  }

  /** Trim keeps one contiguous slice of its input and drops only whitespace around it. */
  lemma TrimSlice(s: string) returns (start: nat)
    ensures start + |Trim(s)| <= |s|
    ensures Trim(s) == s[start..start + |Trim(s)|]
    ensures forall i :: 0 <= i < start ==> IsWhitespace(s[i])
    ensures forall i :: start + |Trim(s)| <= i < |s| ==> IsWhitespace(s[i])
  {
    start := SkipWhitespace(s, 0);
  }

  /** Trim yields the empty string exactly when its input is all whitespace. */
  lemma TrimEmptyIff(s: string)
    ensures Trim(s) == [] <==> forall i :: 0 <= i < |s| ==> IsWhitespace(s[i])
  {
    var start := TrimSlice(s);
  }

  /** Trimming twice is trimming once. */
  lemma TrimIdempotent(s: string)
    ensures Trim(Trim(s)) == Trim(s)
  {
    var r := Trim(s);
    assert SkipWhitespace(r, 0) == 0;
    assert BackWhitespace(r, 0, |r|) == |r|;
  }

  /** A string whose first code unit is the only whitespace at either end loses just that one. */
  lemma TrimOneLeading(s: string)
    requires |s| > 1 && IsWhitespace(s[0]) && !IsWhitespace(s[1]) && !IsWhitespace(s[|s| - 1])
    ensures Trim(s) == s[1..]
  {
    assert SkipWhitespace(s, 1) == 1;
    assert BackWhitespace(s, 1, |s|) == |s|;
  }

  /** `Array.prototype.join(sep)` on an array of strings. */
  function Join(parts: seq<string>, sep: string): string
  {
    if |parts| == 0 then ""
    else if |parts| == 1 then parts[0]
    else parts[0] + sep + Join(parts[1..], sep)
  }

  /** Joining with the empty separator puts the first part in front of the join of the rest. */
  lemma JoinPair(first: string, rest: seq<string>)
    ensures Join([first] + rest, "") == first + Join(rest, "")
  {
    var parts := [first] + rest;
    assert first + "" == first;
    if rest == [] {
      assert parts == [first];
    } else {
      assert parts[0] == first && parts[1..] == rest;
      assert Join(parts, "") == parts[0] + "" + Join(parts[1..], "");
    }
  }

  /** Joining with the empty separator concatenates: the length is the sum of the parts' lengths. */
  function TotalLength(parts: seq<string>): nat
  {
    if parts == [] then 0 else |parts[0]| + TotalLength(parts[1..])
  }

  lemma {:induction false} JoinLength(parts: seq<string>, sep: string)
    ensures |Join(parts, sep)| == TotalLength(parts) + (if parts == [] then 0 else (|parts| - 1) * |sep|)
  {
    if |parts| > 1 {
      JoinLength(parts[1..], sep);
    }
  }

  /** Splitting on a single code unit: a reference definition used to read a joined text back. */
  function Split(s: string, sep: char): (r: seq<string>)
    ensures |r| > 0
    ensures forall k :: 0 <= k < |r| ==> sep !in r[k]
    decreases |s|
  {
    if sep in s then
      var i := IndexOf(s, sep);
      [s[..i]] + Split(s[i + 1..], sep)
    else [s]
  }

  /** Index of the first occurrence of `c` in `s`. */
  function IndexOf(s: string, c: char): (i: nat)
    requires c in s
    ensures i < |s| && s[i] == c && c !in s[..i]
  {
    if s[0] == c then 0 else IndexOf(s[1..], c) + 1
  }

  /** Joining parts that do not contain the separator can be undone by splitting: the parts come back in order. */
  lemma {:induction false} SplitJoin(parts: seq<string>, sep: char)
    requires |parts| > 0
    requires forall k :: 0 <= k < |parts| ==> sep !in parts[k]
    ensures Split(Join(parts, [sep]), sep) == parts
  {
    if |parts| == 1 {
      assert Join(parts, [sep]) == parts[0];
    } else {
      var rest := Join(parts[1..], [sep]);
      var s := parts[0] + [sep] + rest;
      assert Join(parts, [sep]) == s;
      assert s[|parts[0]|] == sep;
      assert s[..|parts[0]|] == parts[0];
      assert sep in s;
      var i := IndexOf(s, sep);
      assert i == |parts[0]|;
      assert s[i + 1..] == rest;
      SplitJoin(parts[1..], sep);
    }
  }
}
