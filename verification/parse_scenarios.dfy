/**
  Whole buffers built from known lines, and what they parse to: last write
  wins, sections are independent, whitespace around '=' is stripped.
 */
module ParseScenarios {
  import opened Options
  import opened Utilities
  import opened Beanie
  import opened BeanieLaws

  /** A key that reads back as itself from a `key=value` line. */
  predicate GoodKey(k: string) {
    && Trimmed(k) && AssignmentChar !in k && '\n' !in k && '\0' !in k
    && (k == [] || (k[0] != CommentChar && k[0] != '['))
  }

  /** A value that reads back as itself from a `key=value` line. */
  predicate GoodValue(v: string) {
    Trimmed(v) && '\n' !in v && '\0' !in v
  }

  /** A section name that reads back as itself from a `[name]` line. */
  predicate GoodName(n: string) {
    Trimmed(n) && ']' !in n && '\n' !in n && '\0' !in n
  }

  lemma PairLineIsLine(k: string, v: string)
    requires GoodKey(k) && GoodValue(v)
    ensures '\n' !in PairLine(k, v) && '\0' !in PairLine(k, v)
    ensures Classify(PairLine(k, v)) == Pair(k, v)
  {
    PairLineRoundTrip(k, v);
  }

  lemma HeaderLineIsLine(n: string)
    requires GoodName(n)
    ensures '\n' !in HeaderLine(n, "") && '\0' !in HeaderLine(n, "")
    ensures Classify(HeaderLine(n, "")) == Header(n)
  {
    hide Classify, Strip, Find;
    HeaderLineRoundTrip(n, "");
    NotInHeaderLine(n, '\n');
    NotInHeaderLine(n, '\0');
  }

  lemma NotInHeaderLine(n: string, c: char)
    requires c !in n && c != '[' && c != ']'
    ensures c !in HeaderLine(n, "")
  {
    var t := HeaderLine(n, "");
    forall j | 0 <= j < |t| ensures t[j] != c {
      if 1 <= j <= |n| { assert t[j] == n[j - 1]; }
    }
  }

  /** A pair line writes its key and value into the current section. */
  lemma PairStep(st: State, raw: string, k: string, v: string)
    requires st.Valid() && Classify(raw) == Pair(k, v)
    ensures Step(st, raw) == Some(State(st.doc[st.current := st.doc[st.current][k := v]], st.current))
  {
  }

  /** A header line installs an empty section under its name and moves the cursor there. */
  lemma HeaderStep(st: State, raw: string, n: string)
    requires st.Valid() && Classify(raw) == Header(n)
    ensures Step(st, raw) == Some(State(st.doc[n := map[]], n))
  {
  }

  /** A plain line holds neither a newline nor a NUL. */
  predicate PlainLines(ls: seq<string>) {
    forall i | 0 <= i < |ls| :: '\n' !in ls[i] && '\0' !in ls[i]
  }

  /** The document a run leaves behind, or None when the run failed. */
  function DocOf(run: Option<State>): Option<Document> {
    if run.None? then None else Some(run.value.doc)
  }

  /** Parsing the join of plain lines runs exactly those lines. */
  lemma {:induction false} ParseJoin(ls: seq<string>)
    requires |ls| >= 1 && PlainLines(ls)
    ensures '\0' !in Join(ls) && Parse(Join(ls)) == DocOf(Run(ls, Initial))
  {
    JoinNoNul(ls);
    LinesJoin(ls);
  }

  lemma {:induction false} JoinNoNul(ls: seq<string>)
    requires |ls| >= 1 && PlainLines(ls)
    ensures '\0' !in Join(ls)
  {
    if |ls| > 1 {
      assert PlainLines(ls[1..]) by {
        forall i | 0 <= i < |ls| - 1 ensures '\n' !in ls[1..][i] && '\0' !in ls[1..][i] {
          assert ls[1..][i] == ls[i + 1];
        }
      }
      JoinNoNul(ls[1..]);
    }
  }

  /** Two lines: `k=v1` then `k=v2`. The global section ends up holding v2 for k. */
  lemma LastWriteWins(k: string, v1: string, v2: string)
    requires GoodKey(k) && GoodValue(v1) && GoodValue(v2)
    ensures
      var text := Join([PairLine(k, v1), PairLine(k, v2)]);
      '\0' !in text && Parse(text) == Some(map[Global := map[k := v2]])
  {
    PairLineIsLine(k, v1);
    PairLineIsLine(k, v2);
    TwoPairs(PairLine(k, v1), PairLine(k, v2), k, v1, v2);
    ParseJoin([PairLine(k, v1), PairLine(k, v2)]);
  }

  lemma TwoPairs(l1: string, l2: string, k: string, v1: string, v2: string)
    requires Classify(l1) == Pair(k, v1) && Classify(l2) == Pair(k, v2)
    ensures Run([l1, l2], Initial) == Some(State(map[Global := map[k := v2]], Global))
  {
    var st1 := State(map[Global := map[k := v1]], Global);
    var st2 := State(map[Global := map[k := v2]], Global);
    PairStep(Initial, l1, k, v1);
    FirstWrite(k, v1);
    PairStep(st1, l2, k, v2);
    Overwrite(Global, k, v1, v2);
    TwoSteps([l1, l2], Initial, st1, st2);
  }

  /**
    `[s1]`, `k=v1`, `[s2]`, `k=v2`: each pair lands in the section opened
    before it, and the global section stays empty.
   */
  lemma SectionsIsolated(s1: string, s2: string, k: string, v1: string, v2: string)
    requires GoodName(s1) && GoodName(s2) && s1 != Global && s2 != Global && s1 != s2
    requires GoodKey(k) && GoodValue(v1) && GoodValue(v2)
    ensures
      var text := Join([HeaderLine(s1, ""), PairLine(k, v1), HeaderLine(s2, ""), PairLine(k, v2)]);
      '\0' !in text && Parse(text) == Some(map[Global := map[], s1 := map[k := v1], s2 := map[k := v2]])
  {
    hide Classify, Run, Lines, Join, Parse;
    HeaderLineIsLine(s1);
    HeaderLineIsLine(s2);
    PairLineIsLine(k, v1);
    PairLineIsLine(k, v2);
    TwoSections(HeaderLine(s1, ""), PairLine(k, v1), HeaderLine(s2, ""), PairLine(k, v2), s1, s2, k, v1, v2);
    ParseJoin([HeaderLine(s1, ""), PairLine(k, v1), HeaderLine(s2, ""), PairLine(k, v2)]);
  }

  lemma TwoSections(h1: string, p1: string, h2: string, p2: string,
                    s1: string, s2: string, k: string, v1: string, v2: string)
    requires s1 != Global && s2 != Global && s1 != s2
    requires Classify(h1) == Header(s1) && Classify(p1) == Pair(k, v1)
    requires Classify(h2) == Header(s2) && Classify(p2) == Pair(k, v2)
    ensures Run([h1, p1, h2, p2], Initial)
         == Some(State(map[Global := map[], s1 := map[k := v1], s2 := map[k := v2]], s2))
  {
    var st1 := State(map[Global := map[], s1 := map[]], s1);
    var st2 := State(map[Global := map[], s1 := map[k := v1]], s1);
    var st3 := State(map[Global := map[], s1 := map[k := v1], s2 := map[]], s2);
    var st4 := State(map[Global := map[], s1 := map[k := v1], s2 := map[k := v2]], s2);
    SectionMaps(s1, s2, k, v1, v2);
    HeaderStep(Initial, h1, s1);
    PairStep(st1, p1, k, v1);
    HeaderStep(st2, h2, s2);
    PairStep(st3, p2, k, v2);
    FourSteps([h1, p1, h2, p2], Initial, st1, st2, st3, st4);
  }

  lemma SectionMaps(s1: string, s2: string, k: string, v1: string, v2: string)
    requires s1 != Global && s2 != Global && s1 != s2
    ensures Initial.doc[s1 := map[]] == map[Global := map[], s1 := map[]]
    ensures map[Global := map[], s1 := map[]][s1 := map[][k := v1]] == map[Global := map[], s1 := map[k := v1]]
    ensures map[Global := map[], s1 := map[k := v1]][s2 := map[]]
         == map[Global := map[], s1 := map[k := v1], s2 := map[]]
    ensures map[Global := map[], s1 := map[k := v1], s2 := map[]][s2 := map[][k := v2]]
         == map[Global := map[], s1 := map[k := v1], s2 := map[k := v2]]
  {
    assert map[][k := v1] == map[k := v1];
    assert map[][k := v2] == map[k := v2];
  }

  lemma FirstWrite(k: string, v: string)
    ensures Initial.current == Global
    ensures Initial.doc[Initial.current := Initial.doc[Initial.current][k := v]] == map[Global := map[k := v]]
  {
    assert map[][k := v] == map[k := v];
  }

  lemma Overwrite(g: string, k: string, v1: string, v2: string)
    ensures map[g := map[k := v1]][g := map[k := v1][k := v2]] == map[g := map[k := v2]]
  {
    assert map[k := v1][k := v2] == map[k := v2];
  }

  lemma TwoSteps(lines: seq<string>, st0: State, st1: State, st2: State)
    requires |lines| == 2 && st0.Valid() && st1.Valid()
    requires Step(st0, lines[0]) == Some(st1) && Step(st1, lines[1]) == Some(st2)
    ensures Run(lines, st0) == Some(st2)
  {
    assert Run(lines[1..], st1) == Run(lines[1..][1..], st2);
  }

  lemma FourSteps(lines: seq<string>, st0: State, st1: State, st2: State, st3: State, st4: State)
    requires |lines| == 4 && st0.Valid() && st1.Valid() && st2.Valid() && st3.Valid()
    requires Step(st0, lines[0]) == Some(st1) && Step(st1, lines[1]) == Some(st2)
    requires Step(st2, lines[2]) == Some(st3) && Step(st3, lines[3]) == Some(st4)
    ensures Run(lines, st0) == Some(st4)
  {
    assert Run(lines, st0) == Run(lines[1..], st1);
    assert Run(lines[1..], st1) == Run(lines[2..], st2) by { assert lines[1..][1..] == lines[2..]; }
    TwoSteps(lines[2..], st2, st3, st4);
  }

  /**
    Whitespace around the key, around '=' and around the value is dropped;
    whitespace inside the value is kept.
   */
  lemma {:induction false} PaddedPair(w1: string, k: string, w2: string, w3: string, v: string, w4: string)
    requires AllSpace(w1) && AllSpace(w2) && AllSpace(w3) && AllSpace(w4)
    requires GoodKey(k) && GoodValue(v)
    ensures Classify(w1 + k + w2 + [AssignmentChar] + w3 + v + w4) == Pair(k, v)
  {
    var a, b := w1 + k + w2, w3 + v + w4;
    assert w1 + k + w2 + [AssignmentChar] + w3 + v + w4 == a + [AssignmentChar] + b;
    StripSplit(w1, k, w2);
    StripSplit(w3, v, w4);
    NoAssignmentIn(w1, k, w2);
    ClassifySplitPair(a, b);
  }

  /** '=' is not whitespace, so a key free of '=' padded with whitespace is still free of it. */
  lemma NoAssignmentIn(w1: string, k: string, w2: string)
    requires AllSpace(w1) && AllSpace(w2) && AssignmentChar !in k
    ensures AssignmentChar !in w1 + k + w2
  {
    var a := w1 + k + w2;
    forall j | 0 <= j < |a| ensures a[j] != AssignmentChar {
      if j < |w1| {
        assert a[j] == w1[j];
      } else if j < |w1| + |k| {
        assert a[j] == k[j - |w1|];
      } else {
        assert a[j] == w2[j - |w1| - |k|];
      }
    }
  }
}
