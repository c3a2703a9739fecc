/**
  The JavaScript string built-ins the two chunkers rely on: the whitespace
  class shared by `String.prototype.trim` and the regular expression escape
  `\s`, `trim` itself, and `split` with a one-character separator together
  with the `join` it inverts. `LastIndexOf` is the helper `split` is
  defined with.

  The whitespace class is that of ECMA-262 (2023 edition), sections 12.2
  (White Space) and 12.3 (Line Terminators).
*/
module JsText {

  /** A LineTerminator: the characters `.` does not match and `^`/`$` key on. */
  predicate IsLineTerminator(c: char) {
    c == '\n' || c == '\r' || c == '\U{2028}' || c == '\U{2029}'
  }

  /** WhiteSpace or LineTerminator: what `\s` matches and what `trim` strips. */
  predicate IsSpace(c: char) {
    || IsLineTerminator(c)
    || c == '\t' || c == '\U{000B}' || c == '\U{000C}' || c == ' '
    || c == '\U{00A0}' || c == '\U{1680}' || ('\U{2000}' <= c <= '\U{200A}')
    || c == '\U{202F}' || c == '\U{205F}' || c == '\U{3000}' || c == '\U{FEFF}'
  }

  /** Only whitespace: the strings whose `trim()` is the falsy "". */
  predicate IsBlank(s: string) {
    forall i :: 0 <= i < |s| ==> IsSpace(s[i])
  }

  /** Leading whitespace removed: the longest blank prefix is dropped. */
  function TrimStart(s: string): (r: string)
    ensures |r| <= |s| && r == s[|s| - |r|..]
    ensures IsBlank(s[..|s| - |r|])
    ensures r == [] || !IsSpace(r[0])
  {
    if s != [] && IsSpace(s[0]) then TrimStart(s[1..]) else s
  }

  /** Trailing whitespace removed: the longest blank suffix is dropped. */
  function TrimEnd(s: string): (r: string)
    ensures |r| <= |s| && r == s[..|r|]
    ensures IsBlank(s[|r|..])
    ensures r == [] || !IsSpace(r[|r| - 1])
  {
    if s != [] && IsSpace(s[|s| - 1]) then TrimEnd(s[..|s| - 1]) else s
  }

  /** `String.prototype.trim`: whitespace removed at both ends. */
  function Trim(s: string): (r: string)
    ensures |r| <= |s|
    ensures r == [] <==> IsBlank(s)
    ensures r == [] || (!IsSpace(r[0]) && !IsSpace(r[|r| - 1]))
  {
    TrimShape(s);
    TrimEnd(TrimStart(s))
  }

  lemma TrimShape(s: string)
    ensures var r := TrimEnd(TrimStart(s));
      && |r| <= |s|
      && (r == [] <==> IsBlank(s))
      && (r == [] || (!IsSpace(r[0]) && !IsSpace(r[|r| - 1])))
  {
    var t := TrimStart(s);
    var w := s[..|s| - |t|];
    TakeDrop(s, |s| - |t|);
    BlankConcat(w, t);
    var r := TrimEnd(t);
    TakeDrop(t, |r|);
    BlankConcat(r, t[|r|..]);
    assert r != [] ==> r[0] == t[0] && r[|r| - 1] == t[|r| - 1];
  }

  /** A string is its first `k` characters followed by the rest. */
  lemma TakeDrop(s: string, k: nat)
    requires k <= |s|
    ensures s == s[..k] + s[k..]
  {
  }

  /**
    `trim` keeps a slice: it removes a blank prefix of length `i` and then a
    blank suffix. With `Trim`'s own contract (no whitespace at either end of
    the result) this determines the result.
  */
  lemma TrimIsSlice(s: string)
    ensures var i := |s| - |TrimStart(s)|; var r := Trim(s);
      && i + |r| <= |s|
      && r == s[i..][..|r|]
      && IsBlank(s[..i])
      && IsBlank(s[i..][|r|..])
  {
  }

  lemma BlankConcat(a: string, b: string)
    ensures IsBlank(a + b) <==> IsBlank(a) && IsBlank(b)
  {
    if IsBlank(a) && IsBlank(b) {
      forall i | 0 <= i < |a + b| ensures IsSpace((a + b)[i]) {
        if i >= |a| { assert (a + b)[i] == b[i - |a|]; }
      }
    }
    if IsBlank(a + b) {
      forall i | 0 <= i < |b| ensures IsSpace(b[i]) { assert b[i] == (a + b)[|a| + i]; }
      forall i | 0 <= i < |a| ensures IsSpace(a[i]) { assert a[i] == (a + b)[i]; }
    }
  }

  /** A blank prefix makes no difference to `trim`. */
  lemma {:induction false} TrimAfterBlank(w: string, t: string)
    requires IsBlank(w)
    ensures Trim(w + t) == Trim(t)
  {
    TrimStartAfterBlank(w, t);
  }

  lemma {:induction false} TrimStartAfterBlank(w: string, t: string)
    requires IsBlank(w)
    ensures TrimStart(w + t) == TrimStart(t)
  {
    if w != [] {
      var s := w + t;
      assert s[0] == w[0] && IsSpace(s[0]);
      assert s[1..] == w[1..] + t;
      assert TrimStart(s) == TrimStart(s[1..]);
      TrimStartAfterBlank(w[1..], t);
    } else {
      assert w + t == t;
    }
  }

  /** The last position holding `c`, or -1: where `Split` cuts off its last part. */
  function LastIndexOf(s: string, c: char): (k: int)
    ensures -1 <= k < |s|
    ensures k >= 0 ==> s[k] == c && c !in s[k + 1..]
    ensures k == -1 ==> c !in s
  {
    if s == [] then -1
    else if s[|s| - 1] == c then |s| - 1
    else
      var k := LastIndexOf(s[..|s| - 1], c);
      assert s[k + 1..] == s[..|s| - 1][k + 1..] + [s[|s| - 1]];
      k
  }

  /**
    `s.split(sep)` for a one-character separator: the pieces between the
    occurrences of `sep`, so one more piece than there are separators.
  */
  function Split(s: string, sep: char): (parts: seq<string>)
    ensures |parts| >= 1
    ensures forall i :: 0 <= i < |parts| ==> sep !in parts[i]
    decreases |s|
  {
    var k := LastIndexOf(s, sep);
    if k < 0 then [s] else Split(s[..k], sep) + [s[k + 1..]]
  }

  /** `parts.join(sep)`. */
  function Join(parts: seq<string>, sep: char): string
  {
    if |parts| <= 1 then (if parts == [] then "" else parts[0])
    else Join(parts[..|parts| - 1], sep) + [sep] + parts[|parts| - 1]
  }

  /** Joining what `split` returned restores the string. */
  lemma {:induction false} JoinOfSplit(s: string, sep: char)
    ensures Join(Split(s, sep), sep) == s
    decreases |s|
  {
    var k := LastIndexOf(s, sep);
    if k >= 0 {
      var front := Split(s[..k], sep);
      var parts := front + [s[k + 1..]];
      assert parts[..|parts| - 1] == front;
      JoinOfSplit(s[..k], sep);
      assert s == s[..k] + [sep] + s[k + 1..];
    }
  }

  /** Splitting a join of separator-free pieces recovers the pieces. */
  lemma {:induction false} SplitOfJoin(parts: seq<string>, sep: char)
    requires |parts| >= 1
    requires forall i :: 0 <= i < |parts| ==> sep !in parts[i]
    ensures Split(Join(parts, sep), sep) == parts
  {
    if |parts| > 1 {
      var front := parts[..|parts| - 1];
      var last := parts[|parts| - 1];
      var j := Join(front, sep);
      var s := j + [sep] + last;
      LastIndexAfterSeparator(j, sep, last);
      assert s[..|j|] == j && s[|j| + 1..] == last;
      SplitOfJoin(front, sep);
    }
  }

  lemma LastIndexAfterSeparator(a: string, c: char, b: string)
    requires c !in b
    ensures LastIndexOf(a + [c] + b, c) == |a|
  {
    var s := a + [c] + b;
    assert s[|a|] == c;
    assert s[|a| + 1..] == b;
    assert forall i :: |a| < i < |s| ==> s[i] == b[i - |a| - 1];
  }

  /** Every piece of a blank string is blank. */
  lemma {:induction false} SplitOfBlank(s: string, sep: char)
    requires IsBlank(s)
    ensures forall i :: 0 <= i < |Split(s, sep)| ==> IsBlank(Split(s, sep)[i])
    decreases |s|
  {
    var k := LastIndexOf(s, sep);
    if k >= 0 {
      SplitOfBlank(s[..k], sep);
    }
  }
}
