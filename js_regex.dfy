/** Scanning primitives shared by the models of the bot's regular expressions. */
module JsRegex {
  import opened Wrappers

  /** A match of a bracketed pattern: `open` is the index of its first code unit and `close` of its last. */
  datatype Span = Span(open: nat, close: nat)

  /** The first index at or after `from` whose code unit satisfies `stop`, or `|s|`: where a greedy
      repetition of the complementary class ends. */
  function FirstWhere(s: string, from: nat, stop: char -> bool): (k: nat)
    requires from <= |s|
    ensures from <= k <= |s|
    ensures forall i :: from <= i < k ==> !stop(s[i])
    ensures k < |s| ==> stop(s[k])
    decreases |s| - from
  {
    if from == |s| || stop(s[from]) then from else FirstWhere(s, from + 1, stop)
  }

  /** The greatest index in `[lo, hi)` holding `c`: where backtracking out of a greedy repetition first
      finds `c`. */
  function LastIndexOf(s: string, c: char, lo: nat, hi: nat): (r: Option<nat>)
    requires lo <= hi <= |s|
    ensures r.Some? ==> lo <= r.value < hi && s[r.value] == c
    ensures r.Some? ==> forall i :: r.value < i < hi ==> s[i] != c
    ensures r.None? ==> forall i :: lo <= i < hi ==> s[i] != c
    decreases hi - lo
  {
    if hi == lo then None
    else if s[hi - 1] == c then Some(hi - 1)
    else LastIndexOf(s, c, lo, hi - 1)
  }

  // `String.prototype.matchAll` over a pattern whose matches are never empty, given where the match
  // tried at each position closes.

  /** `tbl[p]` is the index of the last code unit of the match tried at `p`, if the pattern matches
      there: a match ends after it starts, inside the text. */
  predicate IsMatchTable(tbl: seq<Option<nat>>) {
    forall p :: 0 <= p < |tbl| && tbl[p].Some? ==> p < tbl[p].value < |tbl|
  }

  /** The matches reported from index `from` on: try each position in turn and, after a match, resume
      just past it. */
  function MatchAll(tbl: seq<Option<nat>>, from: nat): (ms: seq<Span>)
    requires IsMatchTable(tbl) && from <= |tbl|
    ensures forall k :: 0 <= k < |ms| ==> from <= ms[k].open < ms[k].close < |tbl|
    decreases |tbl| - from
  {
    if from == |tbl| then []
    else match tbl[from]
      case Some(close) => [Span(from, close)] + MatchAll(tbl, close + 1)
      case None => MatchAll(tbl, from + 1)
  }

  /** The first reported match is the first position where the pattern matches, and the scan goes on
      just past it. */
  lemma {:induction false} MatchAllHead(tbl: seq<Option<nat>>, from: nat)
    requires IsMatchTable(tbl) && from <= |tbl| && |MatchAll(tbl, from)| > 0
    ensures var ms := MatchAll(tbl, from);
      && tbl[ms[0].open] == Some(ms[0].close)
      && ms[1..] == MatchAll(tbl, ms[0].close + 1)
      && forall p :: from <= p < ms[0].open ==> tbl[p].None?
    decreases |tbl| - from
  {
    if tbl[from].None? {
      MatchAllHead(tbl, from + 1);
    }
  }

  /** An empty scan passed over no match. */
  lemma {:induction false} MatchAllEmpty(tbl: seq<Option<nat>>, from: nat)
    requires IsMatchTable(tbl) && from <= |tbl| && MatchAll(tbl, from) == []
    ensures forall p :: from <= p < |tbl| ==> tbl[p].None?
    decreases |tbl| - from
  {
    if from < |tbl| {
      MatchAllEmpty(tbl, from + 1);
    }
  }

  /** Every reported match is the pattern's match at its position. */
  lemma {:induction false} MatchAllFound(tbl: seq<Option<nat>>, from: nat, k: nat)
    requires IsMatchTable(tbl) && from <= |tbl| && k < |MatchAll(tbl, from)|
    ensures tbl[MatchAll(tbl, from)[k].open] == Some(MatchAll(tbl, from)[k].close)
    decreases k
  {
    var ms := MatchAll(tbl, from);
    MatchAllHead(tbl, from);
    if k > 0 {
      MatchAllFound(tbl, ms[0].close + 1, k - 1);
    }
  }

  /** Each reported match ends before the next one starts. */
  lemma {:induction false} MatchAllOrdered(tbl: seq<Option<nat>>, from: nat, k: nat)
    requires IsMatchTable(tbl) && from <= |tbl| && k + 1 < |MatchAll(tbl, from)|
    ensures MatchAll(tbl, from)[k].close < MatchAll(tbl, from)[k + 1].open
    decreases k
  {
    var ms := MatchAll(tbl, from);
    MatchAllHead(tbl, from);
    if k > 0 {
      MatchAllOrdered(tbl, ms[0].close + 1, k - 1);
    }
  }

  /** Where the scan resumes before looking for the `k`-th match: `from` for the first, just past
      the previous match after that. */
  function ResumeAt(ms: seq<Span>, from: nat, k: nat): nat
    requires k <= |ms|
  {
    if k == 0 then from else ms[k - 1].close + 1
  }

  /** Where the `k`-th gap of the scan ends: at the `k`-th match, or at the end of the text. */
  function GapEnd(len: nat, ms: seq<Span>, k: nat): nat
    requires k <= |ms|
  {
    if k < |ms| then ms[k].open else len
  }

  /** The scan passes over no match: the pattern matches nowhere in the `k`-th gap. */
  lemma {:induction false} MatchAllGap(tbl: seq<Option<nat>>, from: nat, k: nat)
    requires IsMatchTable(tbl) && from <= |tbl| && k <= |MatchAll(tbl, from)|
    ensures forall p :: ResumeAt(MatchAll(tbl, from), from, k) <= p < GapEnd(|tbl|, MatchAll(tbl, from), k) ==>
      tbl[p].None?
    decreases k
  {
    var ms := MatchAll(tbl, from);
    if ms == [] {
      MatchAllEmpty(tbl, from);
    } else {
      MatchAllHead(tbl, from);
      if k > 0 {
        var rest := MatchAll(tbl, ms[0].close + 1);
        MatchAllGap(tbl, ms[0].close + 1, k - 1);
        assert ResumeAt(rest, ms[0].close + 1, k - 1) == ResumeAt(ms, from, k);
        assert GapEnd(|tbl|, rest, k - 1) == GapEnd(|tbl|, ms, k);
      }
    }
  }
}
