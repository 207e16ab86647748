/** String helpers the roster and chat code relies on: JavaScript's
    String.prototype.trim, and reading a value back out of a fixed template. */
module Text {
  import opened Options

  /** The characters trim removes: ECMAScript WhiteSpace (tab, vertical tab,
      form feed, space, no-break space, byte order mark and the Unicode Zs
      category) and LineTerminator (line feed, carriage return, U+2028, U+2029). */
  predicate IsSpace(c: char)
  {
    c == '\t' || c == '\n' || c == '\U{000B}' || c == '\U{000C}' || c == '\r' || c == ' '
    || c == '\U{00A0}' || c == '\U{1680}' || ('\U{2000}' <= c <= '\U{200A}')
    || c == '\U{2028}' || c == '\U{2029}' || c == '\U{202F}' || c == '\U{205F}'
    || c == '\U{3000}' || c == '\U{FEFF}'
  }

  predicate AllSpace(s: string)
  {
    forall k :: 0 <= k < |s| ==> IsSpace(s[k])
  }

  /** Non-empty, with no white space at either end: what trim returns for
      a string that is not white space only. */
  predicate Trimmed(s: string)
  {
    s != [] && !IsSpace(s[0]) && !IsSpace(s[|s| - 1])
  }

  /** The first position at or after `i` that does not hold white space
      (`|s|` when there is none): where trim's result starts when `i` is 0. */
  function SkipSpace(s: string, i: nat): (j: nat)
    requires i <= |s|
    ensures i <= j <= |s|
    ensures forall k :: i <= k < j ==> IsSpace(s[k])
    ensures j < |s| ==> !IsSpace(s[j])
    decreases |s| - i
  {
    if i < |s| && IsSpace(s[i]) then SkipSpace(s, i + 1) else i
  }

  /** The end of `s[lo..j]` once its trailing white space is cut: every
      position from the result up to `j` holds white space, and the one just
      before the result (if still after `lo`) does not. */
  function SkipSpaceBack(s: string, lo: nat, j: nat): (e: nat)
    requires lo <= j <= |s|
    ensures lo <= e <= j
    ensures forall k :: e <= k < j ==> IsSpace(s[k])
    ensures e > lo ==> !IsSpace(s[e - 1])
    decreases j
  {
    if j > lo && IsSpace(s[j - 1]) then SkipSpaceBack(s, lo, j - 1) else j
  }

  /** Where trim's result starts in `s`. */
  function TrimStart(s: string): nat
  {
    SkipSpace(s, 0)
  }

  /** Where trim's result ends in `s`. */
  function TrimEnd(s: string): nat
  {
    SkipSpaceBack(s, TrimStart(s), |s|)
  }

  /** String.prototype.trim: the slice of `s` left once white space is cut
      from both ends. It is empty exactly when `s` is all white space, which is
      when JavaScript treats the trimmed value as false. */
  function Trim(s: string): (r: string)
    ensures TrimStart(s) <= TrimEnd(s) <= |s| && r == s[TrimStart(s)..TrimEnd(s)]
    ensures forall k :: 0 <= k < TrimStart(s) ==> IsSpace(s[k])
    ensures forall k :: TrimEnd(s) <= k < |s| ==> IsSpace(s[k])
    ensures r == [] <==> AllSpace(s)
    ensures r != [] ==> Trimmed(r)
  {
    var i := TrimStart(s);
    var j := TrimEnd(s);
    assert i < j ==> s[i..j][0] == s[i] && s[i..j][j - i - 1] == s[j - 1];
    s[i..j]
  }

  /** A string with no white space at either end is its own trim. */
  lemma {:induction false} TrimTrimmed(s: string)
    requires s == [] || Trimmed(s)
    ensures Trim(s) == s
  {
    assert TrimStart(s) == 0;
    assert TrimEnd(s) == |s|;
  }

  /** The text between a fixed prefix and a fixed suffix: `Some(mid)` when
      `s` is `pre + mid + suf`, `None` when it does not have that shape. */
  function Between(s: string, pre: string, suf: string): (r: Option<string>)
    ensures r.Some? ==> s == pre + r.value + suf
    ensures r.None? ==> |s| < |pre| + |suf| || s[..|pre|] != pre || s[|s| - |suf|..] != suf
  {
    if |pre| + |suf| <= |s| && s[..|pre|] == pre && s[|s| - |suf|..] == suf then
      var mid := s[|pre|..|s| - |suf|];
      assert s == s[..|pre|] + mid + s[|s| - |suf|..];
      Some(mid)
    else
      None
  }

  /** Reading a template back: the text placed between `pre` and `suf` is
      recovered exactly. */
  lemma BetweenOf(pre: string, mid: string, suf: string)
    ensures Between(pre + mid + suf, pre, suf) == Some(mid)
  {
    var s := pre + mid + suf;
    assert s[..|pre|] == pre;
    assert s[|s| - |suf|..] == suf;
    assert s[|pre|..|s| - |suf|] == mid;
  }
}
