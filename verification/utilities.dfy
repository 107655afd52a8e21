/**
  The whitespace trimmer of src/utilities.c (`strip_whitespace`): given a span
  of `len` characters it returns a fresh string holding the span without its
  leading and trailing run of whitespace.

  This module states the intended, bounded trim over `span[0..len)`. The
  out-of-bounds behaviour of the C scans is modelled separately, in module
  AsWritten.
 */
module Utilities {
  import opened Seqs

  /** The C-locale `isspace` class: space, \t, \n, \v, \f and \r. */
  predicate IsSpace(c: char) {
    c == ' ' || c == '\t' || c == '\n' || c == '\U{000B}' || c == '\U{000C}' || c == '\r'
  }

  predicate AllSpace(s: string) {
    forall i | 0 <= i < |s| :: IsSpace(s[i])
  }

  /** Neither the first nor the last character of s is whitespace. */
  predicate Trimmed(s: string) {
    |s| == 0 || (!IsSpace(s[0]) && !IsSpace(s[|s| - 1]))
  }

  /** Length of the maximal whitespace prefix of s: where the forward scan stops. */
  function LeadingSpace(s: string): (n: nat)
    ensures n <= |s|
    ensures forall i | 0 <= i < n :: IsSpace(s[i])
    ensures n < |s| ==> !IsSpace(s[n])
  {
    ScanForward(s, 0)
  }

  /** The forward scan from index i, which has only whitespace before it. */
  function ScanForward(s: string, i: nat): (n: nat)
    requires i <= |s|
    requires forall j | 0 <= j < i :: IsSpace(s[j])
    decreases |s| - i
    ensures i <= n <= |s|
    ensures forall j | 0 <= j < n :: IsSpace(s[j])
    ensures n < |s| ==> !IsSpace(s[n])
  {
    if i == |s| || !IsSpace(s[i]) then i else ScanForward(s, i + 1)
  }

  /** Length of the maximal whitespace suffix of s: how far the backward scan walks. */
  function TrailingSpace(s: string): (n: nat)
    ensures n <= |s|
    ensures forall i | |s| - n <= i < |s| :: IsSpace(s[i])
    ensures n < |s| ==> !IsSpace(s[|s| - n - 1])
  {
    |s| - ScanBackward(s, |s|)
  }

  /** The backward scan down from index e, which has only whitespace from e on. */
  function ScanBackward(s: string, e: nat): (n: nat)
    requires e <= |s|
    requires forall j | e <= j < |s| :: IsSpace(s[j])
    decreases e
    ensures n <= e
    ensures forall j | n <= j < |s| :: IsSpace(s[j])
    ensures n > 0 ==> !IsSpace(s[n - 1])
  {
    if e == 0 || !IsSpace(s[e - 1]) then e else ScanBackward(s, e - 1)
  }

  /**
    The trimmed string: the contiguous part of s from its first to its last
    non-whitespace character, interior whitespace included; "" when s is
    empty or all whitespace.
   */
  function Strip(s: string): (r: string)
    ensures |r| <= |s|
    ensures Trimmed(r)
    ensures r == [] <==> AllSpace(s)
  {
    var lo := LeadingSpace(s);
    if lo == |s| then
      []
    else
      s[lo..|s| - TrailingSpace(s)]
  }

  /**
    The trim as the C function computes it on `str[0..len)`: a forward scan
    over the leading whitespace, then (unless the span was all whitespace) a
    backward scan from the last character, then a copy of the characters in
    between.
   */
  method StripWhitespace(str: string, len: nat) returns (r: string)
    requires len <= |str|
    ensures |r| <= len
    ensures r == Strip(str[..len])
  {
    var start := 0;
    while start < len && IsSpace(str[start])
      invariant start <= len
      invariant AllSpace(str[..start])
    {
      assert str[..start + 1] == str[..start] + [str[start]];
      start := start + 1;
    }
    if start == len {
      assert str[..len] == str[..start];
      return "";
    }
    var end := len - 1;
    while IsSpace(str[end])
      invariant start <= end < len
      invariant AllSpace(str[end + 1..len])
      decreases end
    {
      if end == start {
        assert false;
      }
      assert str[end..len] == [str[end]] + str[end + 1..len];
      end := end - 1;
    }
    r := str[start..end + 1];
    assert str[..len] == str[..start] + r + str[end + 1..len];
    StripSplit(str[..start], r, str[end + 1..len]);
  }

  /**
    Characterisation of Strip: whenever s is a whitespace run, then a string
    with no whitespace at either end, then a whitespace run, Strip returns
    exactly the middle part.
   */
  lemma StripSplit(pre: string, mid: string, post: string)
    requires AllSpace(pre) && AllSpace(post) && Trimmed(mid)
    ensures Strip(pre + mid + post) == mid
  {
    var s := pre + mid + post;
    assert forall i | 0 <= i < |pre| :: s[i] == pre[i];
    assert forall i | |pre| + |mid| <= i < |s| :: s[i] == post[i - |pre| - |mid|];
    if mid != [] {
      assert s[|pre|] == mid[0];
      assert s[|pre| + |mid| - 1] == mid[|mid| - 1];
      assert s[|pre|..|pre| + |mid|] == mid;
    }
  }

  /** Trimming is idempotent. */
  lemma StripIdempotent(s: string)
    ensures Strip(Strip(s)) == Strip(s)
  {
    StripSplit([], Strip(s), []);
    assert [] + Strip(s) + [] == Strip(s);
  }

  /** A string is returned unchanged exactly when it has no whitespace at either end. */
  lemma StripFixedPoint(s: string)
    ensures Strip(s) == s <==> Trimmed(s)
  {
    if Trimmed(s) {
      StripSplit([], s, []);
      assert [] + s + [] == s;
    }
  }

  /** Whitespace added at either end of a span does not change its trim. */
  lemma StripIgnoresEdgeSpace(pre: string, s: string, post: string)
    requires AllSpace(pre) && AllSpace(post)
    ensures Strip(pre + s + post) == Strip(s)
  {
    var a, b := StripParts(s);
    var r := Strip(s);
    var x, y := pre + a, b + post;
    AllSpaceConcat(pre, a);
    AllSpaceConcat(b, post);
    Assoc(pre, a + r, b);
    Assoc(pre, a, r);
    Assoc(pre + a + r, b, post);
    StripSplit(x, r, y);
  }

  /** The whitespace runs that Strip removes from either end of s. */
  lemma StripParts(s: string) returns (a: string, b: string)
    ensures AllSpace(a) && AllSpace(b)
    ensures s == a + Strip(s) + b
  {
    var lo := LeadingSpace(s);
    if lo == |s| {
      a, b := s, [];
    } else {
      var hi := |s| - TrailingSpace(s);
      a, b := s[..lo], s[hi..];
      SplitThree(s, lo, hi);
    }
  }

  lemma AllSpaceConcat(a: string, b: string)
    requires AllSpace(a) && AllSpace(b)
    ensures AllSpace(a + b)
  {
    forall i | 0 <= i < |a + b| ensures IsSpace((a + b)[i]) {
      if i >= |a| { assert (a + b)[i] == b[i - |a|]; }
    }
  }
}
