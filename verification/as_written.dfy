/**
  `strip_whitespace` of src/utilities.c exactly as its two scans are written,
  run on a whole C object: the object's characters followed by its '\0'
  terminator. Unlike the intended trim of module Utilities, the forward scan
  here does not stop at the end of the span, and the backward scan does not
  stop at its start. When the backward scan ends three or more characters
  below the forward scan's stop, the allocation size `end - start + 2` is
  negative and wraps around to a size no `malloc` can satisfy: the function
  returns NULL (`Null`), which the parser hands unchecked to `strlen`
  (src/beanie.c:65, 102, 134). When it ends exactly two below, the size is
  zero: `malloc(0)` gives either NULL, which reaches `strlen` the same way,
  or a pointer that `memcpy` overruns with the length `end - start + 1 == -1`.
  That case, and a read outside the object, are undefined behaviour in C;
  the model reports them as `Undefined` rather than guessing a value.

  The lemmas below show where the parser of src/beanie.c hands this
  function a span on which it does not compute the trim, and that on every
  other span it agrees with Utilities.Strip.
 */
module AsWritten {
  import opened Options
  import opened Utilities
  import opened Seqs

  /**
    What one call of the C function comes to: a fresh copy, the NULL of a
    failed allocation, or undefined behaviour.
   */
  datatype Outcome = Copied(s: string) | Null | Undefined

  /** A C object holding a string: '\0' at the end and nowhere else. */
  predicate CString(buf: string) {
    |buf| >= 1 && buf[|buf| - 1] == '\0' && '\0' !in buf[..|buf| - 1]
  }

  /**
    The forward scan: skips whitespace from p on, ignoring the span length.
    '\0' is not whitespace, so the scan stops at the terminator at the latest.
   */
  function ForwardScan(buf: string, p: nat): (q: nat)
    requires CString(buf) && p < |buf|
    decreases |buf| - p
    ensures p <= q < |buf| && !IsSpace(buf[q])
    ensures forall j | p <= j < q :: IsSpace(buf[j])
  {
    if IsSpace(buf[p]) then ForwardScan(buf, p + 1) else p
  }

  /**
    The backward scan from index e: skips whitespace downwards with no lower
    bound. None when it reads outside the object.
   */
  function BackwardScan(buf: string, e: int): (r: Option<nat>)
    decreases if e < 0 then 0 else e + 1
    ensures r.Some? ==> r.value <= e < |buf| && !IsSpace(buf[r.value])
    ensures r.Some? ==> forall j | r.value < j <= e :: IsSpace(buf[j])
    ensures 0 <= e < |buf| && !IsSpace(buf[e]) ==> r == Some(e)
  {
    if e < 0 || e >= |buf| then None
    else if IsSpace(buf[e]) then BackwardScan(buf, e - 1)
    else Some(e)
  }

  /**
    `strip_whitespace(buf + p, len)`: an immediate "" when the forward scan
    reaches the terminator; otherwise the bytes from where the forward scan
    stopped to where the backward scan from `p + len - 1` stopped. The
    allocation size `end - start + 2` is a `size_t`: below zero it wraps to
    at least SIZE_MAX - 1 and `malloc` fails; at zero `malloc(0)` gives
    either NULL or a pointer that `memcpy` then overruns by SIZE_MAX bytes.
   */
  function StripAsWritten(buf: string, p: nat, len: nat): (r: Outcome)
    requires CString(buf) && p < |buf|
    ensures r.Copied? ==> Trimmed(r.s)
  {
    var start := ForwardScan(buf, p);
    if buf[start] == '\0' then
      Copied("")
    else
      match BackwardScan(buf, p + len - 1)
      case None => Undefined
      case Some(end) =>
        var size := end - start + 2;
        if size < 0 then Null
        else if size == 0 then Undefined
        else Copied(buf[start..end + 1])
  }

  /**
    On a span inside the string that holds some non-whitespace character, the
    scans stay inside the span and the C function computes the intended trim.
   */
  lemma AsWrittenAgrees(buf: string, p: nat, len: nat)
    requires CString(buf) && p + len < |buf|
    requires !AllSpace(buf[p..p + len])
    ensures StripAsWritten(buf, p, len) == Copied(Strip(buf[p..p + len]))
  {
    hide *;
    var span := buf[p..p + len];
    var lo := ForwardInSpan(buf, p, len);
    var hi := BackwardInSpan(buf, p, len);
    StripIsSlice(span);
    SliceOfSlice(buf, p, p + len, lo, hi);
    AsWrittenCopies(buf, p, len, lo, hi);
  }

  /** Away from the all-whitespace case, the trim is the slice between the two whitespace runs. */
  lemma StripIsSlice(s: string)
    requires !AllSpace(s)
    ensures LeadingSpace(s) < |s| - TrailingSpace(s)
    ensures Strip(s) == s[LeadingSpace(s)..|s| - TrailingSpace(s)]
  {
    var k :| 0 <= k < |s| && !IsSpace(s[k]);
    var lo, n := LeadingSpace(s), TrailingSpace(s);
    assert lo <= k;
    assert !IsSpace(s[lo]);
    assert lo < |s| - n;
  }

  /** Scans that stop at p + lo and p + hi - 1, inside the object, make the C function copy what lies between. */
  lemma AsWrittenCopies(buf: string, p: nat, len: nat, lo: nat, hi: nat)
    requires CString(buf) && p + len < |buf| && lo < hi
    requires ForwardScan(buf, p) == p + lo && buf[p + lo] != '\0'
    requires BackwardScan(buf, p + len - 1) == Some(p + hi - 1)
    ensures StripAsWritten(buf, p, len) == Copied(buf[p + lo..p + hi])
  {
  }

  /** On such a span the forward scan stops inside it, at the first non-whitespace character. */
  lemma ForwardInSpan(buf: string, p: nat, len: nat) returns (lo: nat)
    requires CString(buf) && p + len < |buf|
    requires !AllSpace(buf[p..p + len])
    ensures lo == LeadingSpace(buf[p..p + len]) && lo < len
    ensures ForwardScan(buf, p) == p + lo && buf[p + lo] != '\0'
  {
    var span := buf[p..p + len];
    lo := LeadingSpace(span);
    assert forall j | 0 <= j < len :: span[j] == buf[p + j];
    ForwardScanStops(buf, p, p + lo);
    assert buf[p + lo] == buf[..|buf| - 1][p + lo];
  }

  /** On such a span the backward scan from its last character stops inside it. */
  lemma BackwardInSpan(buf: string, p: nat, len: nat) returns (hi: nat)
    requires CString(buf) && p + len < |buf|
    requires !AllSpace(buf[p..p + len])
    ensures hi == len - TrailingSpace(buf[p..p + len]) && LeadingSpace(buf[p..p + len]) < hi
    ensures BackwardScan(buf, p + len - 1) == Some(p + hi - 1)
  {
    var span := buf[p..p + len];
    hi := len - TrailingSpace(span);
    assert !IsSpace(span[LeadingSpace(span)]);
    assert forall j | 0 <= j < len :: span[j] == buf[p + j];
    BackwardScanStops(buf, p + len - 1, p + hi - 1);
  }

  /** The forward scan stops at the first non-whitespace character. */
  lemma {:induction false} ForwardScanStops(buf: string, p: nat, q: nat)
    requires CString(buf) && p <= q < |buf|
    requires forall j | p <= j < q :: IsSpace(buf[j])
    requires !IsSpace(buf[q])
    decreases q - p
    ensures ForwardScan(buf, p) == q
  {
    if p < q {
      ForwardScanStops(buf, p + 1, q);
    }
  }

  /** The backward scan stops at the last non-whitespace character at or below its start. */
  lemma {:induction false} BackwardScanStops(buf: string, e: int, q: nat)
    requires q <= e < |buf|
    requires forall j | q < j <= e :: IsSpace(buf[j])
    requires !IsSpace(buf[q])
    decreases e - q
    ensures BackwardScan(buf, e) == Some(q)
  {
    if q < e {
      BackwardScanStops(buf, e - 1, q);
    }
  }

  /* ---------------------------------------------------------------------- */
  /* A whitespace-only span with text after it                              */
  /* ---------------------------------------------------------------------- */

  /**
    A nonempty whitespace-only span followed, anywhere later in the object,
    by a non-whitespace character: the forward scan runs past the span and
    the backward scan runs back below it, so the function never returns a
    copy. It returns NULL, or reaches undefined behaviour through an
    out-of-bounds read or a zero-size allocation. The intended trim is "".
    The parser passes such spans for a whitespace-only line followed,
    anywhere later in the buffer, by a non-whitespace character
    (src/beanie.c:64) and for a header whose name is whitespace only
    (src/beanie.c:89, where the ']' is the text after).
   */
  lemma BlankSpanThenText(buf: string, p: nat, len: nat)
    requires CString(buf) && p + len < |buf| && len > 0
    requires AllSpace(buf[p..p + len])
    requires !AllSpace(buf[p..|buf| - 1])
    ensures Strip(buf[p..p + len]) == ""
    ensures !StripAsWritten(buf, p, len).Copied?
  {
    var start := ForwardScan(buf, p);
    var k :| p <= k < |buf| - 1 && !IsSpace(buf[k]) by {
      var i :| 0 <= i < |buf| - 1 - p && !IsSpace(buf[p..|buf| - 1][i]);
      assert buf[p..|buf| - 1][i] == buf[p + i];
    }
    assert start <= k;
    assert buf[start] != '\0' by {
      assert buf[start] == buf[..|buf| - 1][start];
    }
    assert forall j | p <= j < p + len :: IsSpace(buf[j]) by {
      forall j | p <= j < p + len ensures IsSpace(buf[j]) {
        assert buf[p..p + len][j - p] == buf[j];
      }
    }
    assert start >= p + len;
  }

  /** A whitespace-only span with nothing but whitespace after it: the forward scan reaches the terminator. */
  lemma BlankSpanAtEnd(buf: string, p: nat, len: nat)
    requires CString(buf) && p + len < |buf|
    requires AllSpace(buf[p..|buf| - 1])
    ensures StripAsWritten(buf, p, len) == Copied(Strip(buf[p..p + len]))
  {
    var n := |buf| - 1;
    assert forall j | p <= j < n :: IsSpace(buf[j]) by {
      forall j | p <= j < n ensures IsSpace(buf[j]) {
        assert buf[p..n][j - p] == buf[j];
      }
    }
    ForwardScanStops(buf, p, n);
    var span := buf[p..p + len];
    assert AllSpace(span) by {
      forall j | 0 <= j < len ensures IsSpace(span[j]) {
        assert span[j] == buf[p + j];
      }
    }
  }

  /**
    On a nonempty span inside the string, the C function computes the
    intended trim exactly unless the span is whitespace only and some
    non-whitespace character follows it.
   */
  lemma AsWrittenCorrectIff(buf: string, p: nat, len: nat)
    requires CString(buf) && p + len < |buf| && len > 0
    ensures StripAsWritten(buf, p, len) == Copied(Strip(buf[p..p + len]))
        <==> !(AllSpace(buf[p..p + len]) && !AllSpace(buf[p..|buf| - 1]))
  {
    if !AllSpace(buf[p..p + len]) {
      AsWrittenAgrees(buf, p, len);
    } else if AllSpace(buf[p..|buf| - 1]) {
      BlankSpanAtEnd(buf, p, len);
    } else {
      BlankSpanThenText(buf, p, len);
    }
  }

  /**
    The whitespace-only line "   " between two header lines of the buffer
    "[s]\n   \n[t]". No line of this buffer has a value, so the only defect
    it reaches is the forward scan's: the scans stop at indices 8 and 2, the
    allocation size is -4, and the NULL returned reaches `strlen` at
    src/beanie.c:65.
   */
  lemma BlankLineBetweenLines()
    ensures StripAsWritten("[s]\n   \n[t]\0", 4, 3) == Null
  {
    var buf := "[s]\n   \n[t]\0";
    assert CString(buf) by {
      assert buf[..|buf| - 1] == "[s]\n   \n[t]";
    }
    assert buf[4..7] == "   ";
    assert buf[4..|buf| - 1][4] == '[';
    BlankSpanThenText(buf, 4, 3);
  }

  /**
    The whitespace-only line "  " of "k=v\n  \n  " is not the last line, but
    only whitespace follows it: the forward scan reaches the terminator and
    the C function returns "", as intended.
   */
  lemma BlankLineBeforeBlankEnd()
    ensures StripAsWritten("k=v\n  \n  \0", 4, 2) == Copied("")
  {
    var buf := "k=v\n  \n  \0";
    assert CString(buf) by {
      assert buf[..|buf| - 1] == "k=v\n  \n  ";
    }
    assert buf[4..|buf| - 1] == "  \n  ";
    assert buf[4..6] == "  ";
    BlankSpanAtEnd(buf, 4, 2);
  }

  /**
    The name span of the header line "[ ]": one space, then the ']'. The
    scans stop at indices 2 and 0, the allocation size is 0, and `memcpy` is
    given the length -1.
   */
  lemma BlankHeaderName()
    ensures StripAsWritten("[ ]\0", 1, 1) == Undefined
  {
    var buf := "[ ]\0";
    assert CString(buf) by {
      assert buf[..|buf| - 1] == "[ ]";
    }
    assert buf[1..2] == " ";
    assert buf[1..|buf| - 1][1] == ']';
    BlankSpanThenText(buf, 1, 1);
  }

  /* ---------------------------------------------------------------------- */
  /* The key of a line that starts with '='                                 */
  /* ---------------------------------------------------------------------- */

  /**
    The key span of a trimmed pair line whose first character is '=': the
    span is empty, the backward scan starts one before the object, and the
    read is out of bounds. The intended key is "".
   */
  lemma EmptyKeyAsWritten(t: string)
    requires '\0' !in t && |t| > 0 && t[0] == '='
    ensures Strip(t[..0]) == ""
    ensures StripAsWritten(t + "\0", 0, 0) == Undefined
  {
    var buf := t + "\0";
    assert buf[..|buf| - 1] == t;
    assert buf[0] == '=';
  }

  /** The line "=v". */
  lemma EmptyKeyLine()
    ensures StripAsWritten("=v\0", 0, 0) == Undefined
  {
    assert "=v" + "\0" == "=v\0";
    EmptyKeyAsWritten("=v");
  }

  /* ---------------------------------------------------------------------- */
  /* The value span, two characters too long                                */
  /* ---------------------------------------------------------------------- */

  /** The value span length as written at src/beanie.c:132: `current_line_length - i + 1`. */
  function ValueSpanAsWritten(t: string, i: nat): (len: nat)
    requires i < |t|
    ensures i + 1 + len == |t| + 2
  {
    |t| - i + 1
  }

  /** The value span length that covers exactly the characters after the '='. */
  function ValueSpan(t: string, i: nat): (len: nat)
    requires i < |t|
    ensures i + 1 + len == |t|
  {
    |t| - i - 1
  }

  /**
    On a trimmed pair line with a nonempty value, the backward scan of the
    value starts at index |t| + 1, one past the terminator, outside the
    copy of the line.
   */
  lemma ValueOverread(t: string, i: nat)
    requires '\0' !in t && Trimmed(t) && i + 1 < |t|
    ensures StripAsWritten(t + "\0", i + 1, ValueSpanAsWritten(t, i)) == Undefined
  {
    var buf := t + "\0";
    assert buf[..|buf| - 1] == t;
    var start := ForwardScan(buf, i + 1);
    assert buf[|t| - 1] == t[|t| - 1];
    assert start <= |t| - 1;
    assert buf[start] == t[start];
  }

  /** The line "k=v": the value scan reads index 4 of the 4-byte copy "k=v\0". */
  lemma ValueOverreadLine()
    ensures StripAsWritten("k=v\0", 2, ValueSpanAsWritten("k=v", 1)) == Undefined
  {
    assert "k=v" + "\0" == "k=v\0";
    ValueOverread("k=v", 1);
  }

  /**
    With the span length corrected to the characters after the '=', the
    same C scans compute the intended value, the trim of everything after
    the first '=' of the trimmed line.
   */
  lemma ValueSpanCorrected(t: string, i: nat)
    requires '\0' !in t && Trimmed(t) && i + 1 < |t|
    ensures StripAsWritten(t + "\0", i + 1, ValueSpan(t, i)) == Copied(Strip(t[i + 1..]))
  {
    var buf := t + "\0";
    assert buf[..|buf| - 1] == t;
    var v := t[i + 1..];
    assert buf[i + 1..i + 1 + ValueSpan(t, i)] == v;
    assert v[|v| - 1] == t[|t| - 1];
    assert !AllSpace(v);
    AsWrittenAgrees(buf, i + 1, ValueSpan(t, i));
  }
}
