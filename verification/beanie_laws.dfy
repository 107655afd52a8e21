/**
  Properties of the INI parser of module Beanie: how runs compose, which
  lines are transparent, which abort, and what the resulting document holds,
  against a reference definition that reads the lines backwards.
 */
module BeanieLaws {
  import opened Options
  import opened Utilities
  import opened Beanie
  import opened Seqs

  /* ---------------------------------------------------------------------- */
  /* Composition: a single pass with no lookahead                            */
  /* ---------------------------------------------------------------------- */

  /** Running two blocks of lines is running the first, then the second from where it stopped. */
  lemma {:induction false} RunAppend(xs: seq<string>, ys: seq<string>, st: State)
    requires st.Valid()
    decreases |xs|
    ensures Run(xs + ys, st) == Continue(Run(xs, st), ys)
  {
    if |xs| == 0 {
      assert xs + ys == ys;
    } else {
      assert (xs + ys)[0] == xs[0];
      assert (xs + ys)[1..] == xs[1..] + ys;
      var step := Step(st, xs[0]);
      if step.Some? {
        RunAppend(xs[1..], ys, step.value);
      }
    }
  }

  /** The text before a '\n' is parsed first, and the text after it continues from that state. */
  lemma ScanConcat(a: string, b: string, st: State)
    requires st.Valid()
    ensures Run(Lines(a + "\n" + b), st) == Continue(Run(Lines(a), st), Lines(b))
  {
    LinesConcat(a, b);
    RunAppend(Lines(a), Lines(b), st);
  }

  /** The lines of a + "\n" + line + "\n" + b, when the middle line holds no '\n'. */
  lemma LinesAround(a: string, line: string, b: string)
    requires '\n' !in line
    ensures Lines(a + "\n" + line + "\n" + b) == Lines(a) + [line] + Lines(b)
  {
    LinesConcat(a + "\n" + line, b);
    LinesConcat(a, line);
    LinesOfLine(line);
  }

  /* ---------------------------------------------------------------------- */
  /* Transparent lines                                                       */
  /* ---------------------------------------------------------------------- */

  /** Blank lines, whitespace-only lines and comments can be removed without changing the result. */
  lemma SkippedLineTransparent(a: string, skip: string, b: string)
    requires '\0' !in a && '\0' !in skip && '\0' !in b
    requires '\n' !in skip
    requires Classify(skip) == Blank || Classify(skip) == Comment
    ensures Parse(a + "\n" + skip + "\n" + b) == Parse(a + "\n" + b)
  {
    LinesAround(a, skip, b);
    LinesConcat(a, b);
    var la, lb := Lines(a), Lines(b);
    RunAppend(la + [skip], lb, Initial);
    RunAppend(la, [skip], Initial);
    RunAppend(la, lb, Initial);
    var ra := Run(la, Initial);
    if ra.Some? {
      RunCons(skip, [], ra.value);
      assert [skip] + [] == [skip];
    }
  }

  /** A skipped first line can be removed as well. */
  lemma SkippedFirstLineTransparent(skip: string, b: string)
    requires '\0' !in skip && '\0' !in b
    requires '\n' !in skip
    requires Classify(skip) == Blank || Classify(skip) == Comment
    ensures Parse(skip + "\n" + b) == Parse(b)
  {
    LinesConcat(skip, b);
    LinesOfLine(skip);
    RunCons(skip, Lines(b), Initial);
  }

  /** Runs of '\n' count as one. */
  lemma BlankLinesSkipped(a: string, b: string)
    requires '\0' !in a && '\0' !in b
    ensures Parse(a + "\n\n" + b) == Parse(a + "\n" + b)
  {
    assert AllSpace("");
    assert a + "\n\n" + b == a + "\n" + "" + "\n" + b;
    SkippedLineTransparent(a, "", b);
  }

  /** A final line needs no '\n' after it: adding one changes nothing. */
  lemma TrailingNewlineIrrelevant(text: string)
    requires '\0' !in text
    ensures Parse(text + "\n") == Parse(text)
  {
    assert text + "\n" == text + "\n" + "";
    ScanConcat(text, "", Initial);
    var r := Run(Lines(text), Initial);
    if r.Some? {
      RunBlank([], r.value);
      assert [""] + [] == [""];
    }
  }

  /** Leading and trailing whitespace of a raw line (a '\r' before the '\n', say) does not change what the line is. */
  lemma ClassifyIgnoresEdgeSpace(pre: string, raw: string, post: string)
    requires AllSpace(pre) && AllSpace(post)
    ensures Classify(pre + raw + post) == Classify(raw)
  {
    hide Strip, Find;
    StripIgnoresEdgeSpace(pre, raw, post);
  }

  /* ---------------------------------------------------------------------- */
  /* Fatal lines                                                             */
  /* ---------------------------------------------------------------------- */

  /** One fatal line anywhere makes the whole parse fail, whatever surrounds it: no partial document. */
  lemma FatalLineAborts(a: string, bad: string, b: string)
    requires '\0' !in a && '\0' !in bad && '\0' !in b
    requires '\n' !in bad
    requires Classify(bad).Fatal()
    ensures Parse(a + "\n" + bad + "\n" + b) == None
  {
    var text := a + "\n" + bad + "\n" + b;
    LinesAround(a, bad, b);
    assert Lines(text)[|Lines(a)|] == bad;
    ParseFails(text);
  }

  /* ---------------------------------------------------------------------- */
  /* Round trips of single lines                                             */
  /* ---------------------------------------------------------------------- */

  /** The line `key=value`. */
  function PairLine(key: string, value: string): string {
    key + [AssignmentChar] + value
  }

  /** The line `[name]` followed by anything that does not end in whitespace. */
  function HeaderLine(name: string, tail: string): string {
    "[" + name + "]" + tail
  }

  /**
    A key/value line gives back its key and value: the split is at the first
    '=', so any '=' in the value stays there.
   */
  lemma PairLineRoundTrip(key: string, value: string)
    requires Trimmed(key) && Trimmed(value)
    requires AssignmentChar !in key
    requires key == [] || (key[0] != CommentChar && key[0] != '[')
    ensures Classify(PairLine(key, value)) == Pair(key, value)
  {
    var t := PairLine(key, value);
    PairLineShape(key, value);
    StripFixedPoint(t);
    FindFirst(t, AssignmentChar, 0, |key|);
    assert t[..|key|] == key && t[|key| + 1..] == value;
    StripFixedPoint(key);
    StripFixedPoint(value);
  }

  lemma PairLineShape(key: string, value: string)
    requires Trimmed(key) && Trimmed(value)
    requires AssignmentChar !in key
    requires key == [] || (key[0] != CommentChar && key[0] != '[')
    ensures var t := PairLine(key, value);
      && Trimmed(t) && t[0] != CommentChar && t[0] != '['
      && t[|key|] == AssignmentChar
      && forall j | 0 <= j < |key| :: t[j] != AssignmentChar
  {
    var t := PairLine(key, value);
    assert forall j | 0 <= j < |key| :: t[j] == key[j];
    if value != [] {
      assert t[|t| - 1] == value[|value| - 1];
    }
  }

  /**
    The pair rule in general: on a line whose text before its first '='
    does not trim to something starting with ';' or '[', the key is the
    trimmed text before that '=' and the value is the trimmed text after it,
    further '=' included.
   */
  lemma {:induction false} ClassifySplitPair(a: string, b: string)
    requires AssignmentChar !in a
    requires Strip(a) == [] || (Strip(a)[0] != CommentChar && Strip(a)[0] != '[')
    ensures Classify(a + [AssignmentChar] + b) == Pair(Strip(a), Strip(b))
  {
    var pre, k := KeySide(a);
    var v, post := ValueSide(b);
    var m := k + [AssignmentChar] + v;
    PairCore(k, v);
    assert Strip(m[..|k|]) == Strip(a) && Strip(m[|k| + 1..]) == Strip(b);
    assert m[0] != CommentChar && m[0] != '[' by {
      if k != [] { assert m[0] == k[0]; }
    }
    Assoc(pre + k + [AssignmentChar], v, post);
    Assoc(pre, k + [AssignmentChar], v);
    Assoc(pre, k, [AssignmentChar]);
    StripSplit(pre, m, post);
    ClassifyAsPair(a + [AssignmentChar] + b, m, |k|);
  }

  /** The key side of a pair line: leading whitespace, then the key with any whitespace before '='. */
  lemma KeySide(a: string) returns (pre: string, k: string)
    requires AssignmentChar !in a
    ensures a == pre + k && AllSpace(pre) && AssignmentChar !in k
    ensures Strip(k) == Strip(a)
    ensures k == [] <==> Strip(a) == []
    ensures k != [] ==> k[0] == Strip(a)[0]
  {
    hide Strip;
    var p, q := StripParts(a);
    var ka := Strip(a);
    if ka == [] {
      pre, k := a, [];
      assert a == a + [];
    } else {
      pre, k := p, ka + q;
      assert a == p + (ka + q);
      assert k[0] == ka[0];
      assert forall j | 0 <= j < |k| :: k[j] == a[|p| + j];
      StripSplit([], ka, q);
      assert [] + ka + q == k;
    }
  }

  /** The value side of a pair line: the value with any whitespace after '=', then trailing whitespace. */
  lemma ValueSide(b: string) returns (v: string, post: string)
    ensures b == v + post && AllSpace(post)
    ensures Strip(v) == Strip(b)
    ensures v == [] || !IsSpace(v[|v| - 1])
  {
    var p, q := StripParts(b);
    var vb := Strip(b);
    if vb == [] {
      v, post := [], b;
      assert b == [] + b;
    } else {
      v, post := p + vb, q;
      assert b == (p + vb) + q;
      assert v[|v| - 1] == vb[|vb| - 1];
      StripSplit(p, vb, []);
      assert p + vb + [] == v;
    }
  }

  /** The trimmed pair line `k=v`: no edge whitespace, its first '=' right after k. */
  lemma PairCore(k: string, v: string)
    requires AssignmentChar !in k
    requires k == [] || !IsSpace(k[0])
    requires v == [] || !IsSpace(v[|v| - 1])
    ensures var m := k + [AssignmentChar] + v;
      && Trimmed(m) && m[..|k|] == k && m[|k| + 1..] == v
      && Find(m, AssignmentChar, 0) == Some(|k|)
  {
    var m := k + [AssignmentChar] + v;
    assert m[|k|] == AssignmentChar;
    assert forall j | 0 <= j < |k| :: m[j] == k[j];
    if k != [] { assert m[0] == k[0]; }
    if v != [] { assert m[|m| - 1] == v[|v| - 1]; }
    assert m[..|k|] == k;
    assert m[|k| + 1..] == v;
    FindFirst(m, AssignmentChar, 0, |k|);
  }

  /** Classify on a line whose trim starts with neither ';' nor '[' and holds an '='. */
  lemma ClassifyAsPair(raw: string, t: string, i: nat)
    requires Strip(raw) == t && t != [] && t[0] != CommentChar && t[0] != '['
    requires Find(t, AssignmentChar, 0) == Some(i)
    ensures i < |t| && Classify(raw) == Pair(Strip(t[..i]), Strip(t[i + 1..]))
  {
    hide Strip, Find;
  }

  /** Find returns the first occurrence. */
  lemma FindFirst(s: string, c: char, from: nat, i: nat)
    requires from <= i < |s| && s[i] == c
    requires forall j | from <= j < i :: s[j] != c
    ensures Find(s, c, from) == Some(i)
  {
  }

  /** A header line gives back its name; text after the first ']' is ignored. */
  lemma HeaderLineRoundTrip(name: string, tail: string)
    requires Trimmed(name)
    requires ']' !in name
    requires tail == [] || !IsSpace(tail[|tail| - 1])
    ensures Classify(HeaderLine(name, tail)) == Header(name)
  {
    hide Classify, Strip, Find;
    var t := HeaderLine(name, tail);
    HeaderCore(name, tail);
    StripFixedPoint(t);
    StripFixedPoint(name);
    ClassifyAsHeader(t, t, |name| + 1);
  }

  /**
    The header rule in general: after any leading whitespace, '[' then text
    without ']' then ']' names the section by that text trimmed; whatever
    follows the ']' on the line is ignored.
   */
  lemma {:induction false} ClassifySplitHeader(pre: string, a: string, tail: string)
    requires AllSpace(pre) && ']' !in a
    ensures Classify(pre + "[" + a + "]" + tail) == Header(Strip(a))
  {
    hide Classify, Strip, Find;
    var v, post := ValueSide(tail);
    var m := "[" + a + "]" + v;
    HeaderCore(a, v);
    assert pre + "[" + a + "]" + tail == pre + m + post by {
      assert tail == v + post;
    }
    StripSplit(pre, m, post);
    ClassifyAsHeader(pre + "[" + a + "]" + tail, m, |a| + 1);
  }

  /** The trimmed header line `[a]v`: no edge whitespace, its first ']' right after a. */
  lemma HeaderCore(a: string, v: string)
    requires ']' !in a
    requires v == [] || !IsSpace(v[|v| - 1])
    ensures var m := "[" + a + "]" + v;
      && Trimmed(m) && m[0] == '[' && m[1..|a| + 1] == a
      && Find(m, ']', 1) == Some(|a| + 1)
  {
    var m := "[" + a + "]" + v;
    assert m[0] == '[' && m[|a| + 1] == ']';
    assert forall j | 1 <= j < |a| + 1 :: m[j] == a[j - 1];
    if v != [] { assert m[|m| - 1] == v[|v| - 1]; }
    assert m[1..|a| + 1] == a;
    FindFirst(m, ']', 1, |a| + 1);
  }

  /** Classify on a line whose trim starts with '[' and has a ']' after it. */
  lemma ClassifyAsHeader(raw: string, t: string, i: nat)
    requires Strip(raw) == t && t != [] && t[0] == '['
    requires Find(t, ']', 1) == Some(i)
    ensures 1 <= i < |t| && Classify(raw) == Header(Strip(t[1..i]))
  {
    hide Strip, Find;
  }

  /* ---------------------------------------------------------------------- */
  /* Reference definition of the document                                    */
  /* ---------------------------------------------------------------------- */

  /** The query of a parsed document: the value of key k in section s, if both exist. */
  function Lookup(doc: Document, s: string, k: string): Option<string> {
    if s in doc && k in doc[s] then Some(doc[s][k]) else None
  }

  /** The section current after the lines: the name of the last header, else the global section. */
  function CursorAfter(lines: seq<string>): string
    decreases |lines|
  {
    if |lines| == 0 then Global
    else
      match Classify(lines[|lines| - 1])
      case Header(n) => n
      case _ => CursorAfter(lines[..|lines| - 1])
  }

  /** The names of all header lines. */
  function HeaderNames(lines: seq<string>): set<string>
    decreases |lines|
  {
    if |lines| == 0 then {}
    else
      var l := Classify(lines[|lines| - 1]);
      HeaderNames(lines[..|lines| - 1]) + (if l.Header? then {l.name} else {})
  }

  /**
    The value of key k in section s, found by reading the lines backwards:
    the latest pair for k written while s was current, unless a header for s
    comes after it (a header re-opens its section empty).
   */
  function LastWrite(lines: seq<string>, s: string, k: string): Option<string>
    decreases |lines|
  {
    if |lines| == 0 then None
    else
      var pre := lines[..|lines| - 1];
      match Classify(lines[|lines| - 1])
      case Header(n) => if n == s then None else LastWrite(pre, s, k)
      case Pair(key, value) =>
        if key == k && CursorAfter(pre) == s then Some(value) else LastWrite(pre, s, k)
      case _ => LastWrite(pre, s, k)
  }

  /** A run from the initial state is one step after the run of all lines but the last. */
  lemma RunSnoc(lines: seq<string>)
    requires |lines| > 0
    ensures
      var pre := lines[..|lines| - 1];
      Run(lines, Initial) == Continue(Run(pre, Initial), [lines[|lines| - 1]])
  {
    var pre := lines[..|lines| - 1];
    assert lines == pre + [lines[|lines| - 1]];
    RunAppend(pre, [lines[|lines| - 1]], Initial);
  }

  /** The last step of a run. */
  lemma RunOne(line: string, st: State)
    requires st.Valid()
    ensures Run([line], st) == Step(st, line)
  {
    RunCons(line, [], st);
    assert [line] + [] == [line];
  }

  /**
    The fold over the lines builds exactly the reference document: the
    cursor ends on the last header, the sections are the global one and the
    headers' names, and every lookup agrees with LastWrite.
   */
  lemma {:induction false} RunMatchesReference(lines: seq<string>)
    requires Run(lines, Initial).Some?
    decreases |lines|
    ensures Matches(Run(lines, Initial).value, lines)
  {
    if |lines| == 0 {
      assert Run(lines, Initial) == Some(Initial);
    } else {
      var pre := lines[..|lines| - 1];
      var x := lines[|lines| - 1];
      RunSnoc(lines);
      var sp := Run(pre, Initial).value;
      RunMatchesReference(pre);
      RunOne(x, sp);
      StepMatchesReference(lines, sp);
    }
  }

  /** The state agrees with the reference definition for these lines. */
  ghost predicate Matches(st: State, lines: seq<string>) {
    && st.current == CursorAfter(lines)
    && st.doc.Keys == {Global} + HeaderNames(lines)
    && forall s, k :: Lookup(st.doc, s, k) == LastWrite(lines, s, k)
  }

  /** One more line keeps the state in agreement with the reference. */
  lemma StepMatchesReference(lines: seq<string>, sp: State)
    requires |lines| > 0 && sp.Valid()
    requires Matches(sp, lines[..|lines| - 1])
    requires Step(sp, lines[|lines| - 1]).Some?
    ensures Matches(Step(sp, lines[|lines| - 1]).value, lines)
  {
    hide Classify;
    var pre := lines[..|lines| - 1];
    var l := Classify(lines[|lines| - 1]);
    ApplyEffect(sp, l);
    var st := Apply(sp, l).value;
    forall s, k ensures Lookup(st.doc, s, k) == LastWrite(lines, s, k) {
      assert Lookup(sp.doc, s, k) == LastWrite(pre, s, k);
    }
  }

  /**
    The parsed document is the reference document: its sections are the
    global one and every header's name, and each key holds its last write.
   */
  lemma ParseMatchesReference(text: string, s: string, k: string)
    requires '\0' !in text
    requires Parse(text).Some?
    ensures Parse(text).value.Keys == {Global} + HeaderNames(Lines(text))
    ensures Lookup(Parse(text).value, s, k) == LastWrite(Lines(text), s, k)
  {
    RunMatchesReference(Lines(text));
  }

  /** The value of the last pair for key k, whatever its section. */
  function LastValue(lines: seq<string>, k: string): Option<string>
    decreases |lines|
  {
    if |lines| == 0 then None
    else
      match Classify(lines[|lines| - 1])
      case Pair(key, value) => if key == k then Some(value) else LastValue(lines[..|lines| - 1], k)
      case _ => LastValue(lines[..|lines| - 1], k)
  }

  /** With no header at all, every pair lands in the global section and the last one for a key wins. */
  lemma {:induction false} NoHeaderAllGlobal(lines: seq<string>, k: string)
    requires forall i | 0 <= i < |lines| :: !Classify(lines[i]).Header?
    decreases |lines|
    ensures CursorAfter(lines) == Global
    ensures HeaderNames(lines) == {}
    ensures LastWrite(lines, Global, k) == LastValue(lines, k)
  {
    if |lines| > 0 {
      var pre := lines[..|lines| - 1];
      assert forall i | 0 <= i < |pre| :: pre[i] == lines[i];
      NoHeaderAllGlobal(pre, k);
      assert !Classify(lines[|lines| - 1]).Header?;
    }
  }

  /** The global-section default: a buffer with no header parses to the global section alone, holding the last value of each key. */
  lemma ParseWithoutHeaders(text: string, k: string)
    requires '\0' !in text
    requires forall i | 0 <= i < |Lines(text)| :: !Classify(Lines(text)[i]).Header?
    requires Parse(text).Some?
    ensures Parse(text).value.Keys == {Global}
    ensures Lookup(Parse(text).value, Global, k) == LastValue(Lines(text), k)
  {
    NoHeaderAllGlobal(Lines(text), k);
    ParseMatchesReference(text, Global, k);
  }
}
