/**
  The heading marker both chunkers look for: one to six `#` characters at a
  position, followed by a whitespace character, as the regular expression
  `#{1,6}\s` matches it. This is not CommonMark's ATX heading rule: leading
  spaces are not allowed, seven or more `#` never match, and any `\s`
  character (a tab, a carriage return, a no-break space) ends the run.
*/
module Markdown {
  import opened JsText

  /** The number of consecutive `#` characters starting at position `p`. */
  function HashRun(s: string, p: nat): (n: nat)
    requires p <= |s|
    ensures p + n <= |s|
    ensures forall i :: p <= i < p + n ==> s[i] == '#'
    ensures p + n == |s| || s[p + n] != '#'
    decreases |s| - p
  {
    if p < |s| && s[p] == '#' then 1 + HashRun(s, p + 1) else 0
  }

  /**
    `#{1,6}\s` matches at `p`. Since `\s` never matches `#`, the only way for
    the bounded repetition to succeed is to take the whole run of `#`.
  */
  predicate MarkerAt(s: string, p: nat)
    requires p <= |s|
  {
    var n := HashRun(s, p);
    1 <= n <= 6 && p + n < |s| && IsSpace(s[p + n])
  }

  /**
    The regular expression's own reading: some count `k` from 1 to 6 of `#`
    followed by a whitespace character. Both directions hold.
  */
  lemma MarkerAtIsRegexMatch(s: string, p: nat)
    requires p <= |s|
    ensures MarkerAt(s, p) <==>
      exists k :: 1 <= k <= 6 && p + k < |s| && HashesThenSpace(s, p, k)
  {
    var n := HashRun(s, p);
    if MarkerAt(s, p) {
      assert 1 <= n <= 6 && p + n < |s| && HashesThenSpace(s, p, n);
    }
    if k :| 1 <= k <= 6 && p + k < |s| && HashesThenSpace(s, p, k) {
      assert !IsSpace('#');
      assert n == k;
    }
  }

  /** Positions `p .. p+k-1` hold `#` and position `p+k` holds whitespace. */
  predicate HashesThenSpace(s: string, p: nat, k: nat)
    requires p + k < |s|
  {
    (forall i :: p <= i < p + k ==> s[i] == '#') && IsSpace(s[p + k])
  }
}
