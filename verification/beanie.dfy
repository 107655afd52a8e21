/**
  The INI parser of src/beanie.c (`beanie_parse_buffer`): one pass over the
  buffer, line by line, building a map from section name to a map from key
  to value. A "current section" cursor moves at each `[section]` header; the
  global section is pre-inserted under the name "_". An unterminated header
  or a line with no `=` makes the whole parse fail.

  The hash-map library the C code uses is modelled by Dafny's `map`, whose
  update overwrites an existing entry. Allocation failure is not modelled.
 */
module Beanie {
  import opened Options
  import opened Utilities
  import opened Seqs

  type Section = map<string, string>
  type Document = map<string, Section>

  /** The name under which the global section is stored. */
  const Global: string := "_"
  const CommentChar: char := ';'
  const AssignmentChar: char := '='

  /* ---------------------------------------------------------------------- */
  /* Line splitting                                                          */
  /* ---------------------------------------------------------------------- */

  /**
    The lines of a buffer: the pieces between '\n' characters, empty pieces
    included. A last piece with no '\n' after it is a line as well.
   */
  function Lines(text: string): (ls: seq<string>)
    ensures |ls| >= 1
  {
    if |text| == 0 then [""]
    else
      var rest := Lines(text[1..]);
      if text[0] == '\n' then [""] + rest
      else [[text[0]] + rest[0]] + rest[1..]
  }

  /** No line holds a '\n': the buffer is split at every one of them. */
  lemma {:induction false} LinesSplitAtEveryNewline(text: string)
    ensures forall i | 0 <= i < |Lines(text)| :: '\n' !in Lines(text)[i]
  {
    if |text| > 0 {
      LinesSplitAtEveryNewline(text[1..]);
      var rest := Lines(text[1..]);
      var ls := Lines(text);
      if text[0] == '\n' {
        assert forall i | 1 <= i < |ls| :: ls[i] == rest[i - 1];
      } else {
        assert forall i | 1 <= i < |ls| :: ls[i] == rest[i];
        assert '\n' !in ls[0] by {
          forall j | 0 <= j < |ls[0]| ensures ls[0][j] != '\n' {
            if j > 0 { assert ls[0][j] == rest[0][j - 1]; }
          }
        }
      }
    }
  }

  /** The lines put back together, a '\n' between each two. */
  function Join(ls: seq<string>): string
    requires |ls| >= 1
  {
    if |ls| == 1 then ls[0] else ls[0] + "\n" + Join(ls[1..])
  }

  /** Splitting loses nothing: joining the lines gives back the buffer. */
  lemma {:induction false} JoinLines(text: string)
    ensures Join(Lines(text)) == text
  {
    if |text| > 0 {
      var rest := Lines(text[1..]);
      JoinLines(text[1..]);
      if text[0] == '\n' {
        assert Lines(text)[1..] == rest;
      } else {
        var ls := Lines(text);
        assert ls[0] == [text[0]] + rest[0];
        if |rest| == 1 {
          assert text == [text[0]] + text[1..];
        } else {
          assert ls[1..] == rest[1..];
          assert Join(rest) == rest[0] + "\n" + Join(rest[1..]);
          assert text == [text[0]] + text[1..];
        }
      }
    }
  }

  /** A string with no '\n' is a single line. */
  lemma {:induction false} LinesOfLine(line: string)
    requires '\n' !in line
    ensures Lines(line) == [line]
  {
    if |line| > 0 {
      assert '\n' !in line[1..] by {
        forall i | 0 <= i < |line[1..]| ensures line[1..][i] != '\n' { assert line[1..][i] == line[i + 1]; }
      }
      LinesOfLine(line[1..]);
      assert [line[0]] + line[1..] == line;
    }
  }

  /** A '\n' in the buffer separates the lines before it from the lines after it. */
  lemma {:induction false} LinesConcat(a: string, b: string)
    ensures Lines(a + "\n" + b) == Lines(a) + Lines(b)
  {
    if |a| == 0 {
      assert (a + "\n" + b)[1..] == b;
    } else {
      LinesConcat(a[1..], b);
      LinesConcatStep(a, b);
    }
  }

  /** The inductive step of LinesConcat: one more character in front of the '\n'. */
  lemma LinesConcatStep(a: string, b: string)
    requires |a| > 0
    requires Lines(a[1..] + "\n" + b) == Lines(a[1..]) + Lines(b)
    ensures Lines(a + "\n" + b) == Lines(a) + Lines(b)
  {
    var t := a + "\n" + b;
    assert t[1..] == a[1..] + "\n" + b;
    assert t[0] == a[0];
    LinesCons(t, Lines(a[1..]), Lines(b));
    LinesCons(a, Lines(a[1..]), []);
    assert Lines(a[1..]) + [] == Lines(a[1..]);
  }

  /**
    The first character of a non-empty buffer either ends the first line (a
    '\n') or joins the first line of the rest; xs + ys stands for the lines
    of the rest.
   */
  lemma LinesCons(t: string, xs: seq<string>, ys: seq<string>)
    requires |t| > 0 && |xs| >= 1 && Lines(t[1..]) == xs + ys
    ensures t[0] == '\n' ==> Lines(t) == [""] + xs + ys
    ensures t[0] != '\n' ==> Lines(t) == [[t[0]] + xs[0]] + xs[1..] + ys
  {
    if t[0] == '\n' {
      assert Lines(t) == [""] + (xs + ys);
      Assoc([""], xs, ys);
    } else {
      assert Lines(t) == [[t[0]] + (xs + ys)[0]] + (xs + ys)[1..];
      ConcatParts(xs, ys);
      Assoc([[t[0]] + xs[0]], xs[1..], ys);
    }
  }

  /** Splitting is the inverse of joining lines that hold no '\n'. */
  lemma {:induction false} LinesJoin(ls: seq<string>)
    requires |ls| >= 1
    requires forall i | 0 <= i < |ls| :: '\n' !in ls[i]
    ensures Lines(Join(ls)) == ls
  {
    if |ls| == 1 {
      LinesOfLine(ls[0]);
    } else {
      LinesConcat(ls[0], Join(ls[1..]));
      LinesOfLine(ls[0]);
      LinesJoin(ls[1..]);
      assert ls == [ls[0]] + ls[1..];
    }
  }

  /* ---------------------------------------------------------------------- */
  /* Line classification                                                    */
  /* ---------------------------------------------------------------------- */

  /**
    The index of the first c in s at or after position `from`: the search
    loops of the C code for ']' (from index 1) and for '=' (from index 0).
   */
  function Find(s: string, c: char, from: nat): (r: Option<nat>)
    decreases |s| - from
    ensures r.Some? ==> from <= r.value < |s| && s[r.value] == c
    ensures r.Some? ==> forall j | from <= j < r.value :: s[j] != c
    ensures r.None? <==> forall j | from <= j < |s| :: s[j] != c
  {
    if from >= |s| then None
    else if s[from] == c then Some(from)
    else Find(s, c, from + 1)
  }

  /** What one line of the buffer is, once trimmed. */
  datatype Line =
    | Blank                               // empty, or whitespace only
    | Comment                             // first trimmed character is ';'
    | Header(name: string)                // '[' name ']' ...
    | Pair(key: string, value: string)    // key '=' value
    | Unterminated                        // '[' with no ']' after it
    | NoSeparator                         // anything else: no '=' on the line
  {
    /** The two kinds of line that abort the whole parse. */
    predicate Fatal() {
      Unterminated? || NoSeparator?
    }
  }

  /**
    The classification of one raw line: trimmed, then tested on its first
    character, then searched for ']' or '='.
   */
  function Classify(raw: string): Line {
    var t := Strip(raw);
    if t == [] then Blank
    else if t[0] == CommentChar then Comment
    else if t[0] == '[' then
      match Find(t, ']', 1)
      case Some(i) => Header(Strip(t[1..i]))
      case None => Unterminated
    else
      match Find(t, AssignmentChar, 0)
      case Some(i) => Pair(Strip(t[..i]), Strip(t[i + 1..]))
      case None => NoSeparator
  }

  /**
    What each kind of line is. A header is a trimmed line starting with '[';
    its name is the trimmed text up to the first ']' after the '[', and what
    follows that ']' is ignored. Any other non-comment line is split at its
    first '=' into a trimmed key and a trimmed value, so later '=' characters
    belong to the value.
   */
  lemma ClassifyMeaning(raw: string)
    ensures Classify(raw) == Blank <==> AllSpace(raw)
    ensures Classify(raw) == Comment <==> Strip(raw) != [] && Strip(raw)[0] == CommentChar
    ensures Classify(raw) == Unterminated <==>
      var t := Strip(raw);
      t != [] && t[0] == '[' && forall j | 1 <= j < |t| :: t[j] != ']'
    ensures Classify(raw) == NoSeparator <==>
      var t := Strip(raw);
      t != [] && t[0] != CommentChar && t[0] != '[' && AssignmentChar !in t
    ensures Classify(raw).Header? ==>
      var t := Strip(raw);
      t != [] && t[0] == '[' &&
      exists i | 1 <= i < |t| :: t[i] == ']' && ']' !in t[1..i] && Classify(raw).name == Strip(t[1..i])
    ensures Classify(raw).Pair? ==>
      var t := Strip(raw);
      t != [] && t[0] != CommentChar && t[0] != '[' &&
      exists i | 0 <= i < |t| :: t[i] == AssignmentChar && AssignmentChar !in t[..i] &&
        Classify(raw).key == Strip(t[..i]) && Classify(raw).value == Strip(t[i + 1..])
  {
    var t := Strip(raw);
    if t != [] && t[0] != CommentChar {
      if t[0] == '[' {
        var f := Find(t, ']', 1);
        if f.Some? {
          var i := f.value;
          assert ']' !in t[1..i] by {
            forall j | 0 <= j < i - 1 ensures t[1..i][j] != ']' { assert t[1..i][j] == t[j + 1]; }
          }
        }
      } else {
        var f := Find(t, AssignmentChar, 0);
        if f.Some? {
          var i := f.value;
          assert AssignmentChar !in t[..i] by {
            forall j | 0 <= j < i ensures t[..i][j] != AssignmentChar { assert t[..i][j] == t[j]; }
          }
        } else {
          assert AssignmentChar !in t by {
            forall j | 0 <= j < |t| ensures t[j] != AssignmentChar { }
          }
        }
      }
    }
  }

  /* ---------------------------------------------------------------------- */
  /* The parse                                                               */
  /* ---------------------------------------------------------------------- */

  /** The document under construction and the name of the current section. */
  datatype State = State(doc: Document, current: string) {
    /** The global section is present and the cursor names a section of the document. */
    predicate Valid() {
      Global in doc && current in doc
    }
  }

  /** Before the first line: only the empty global section, which is current. */
  const Initial: State := State(map[Global := map[]], Global)

  /**
    The effect of one classified line. Blank lines and comments change
    nothing; a header installs a fresh empty section under its name and makes
    it current; a pair is written into the current section only; the two
    fatal kinds abort.
   */
  function Apply(st: State, l: Line): (r: Option<State>)
    requires st.Valid()
    ensures r.None? <==> l.Fatal()
    ensures r.Some? ==> r.value.Valid()
  {
    match l
    case Blank => Some(st)
    case Comment => Some(st)
    case Header(name) => Some(State(st.doc[name := map[]], name))
    case Pair(key, value) =>
      Some(State(st.doc[st.current := st.doc[st.current][key := value]], st.current))
    case Unterminated => None
    case NoSeparator => None
  }

  /**
    What a line does to the state: blank lines and comments leave it alone;
    a header adds its name to the sections, maps it to an empty section and
    moves the cursor there, leaving every other section as it was; a pair
    writes its value under its key in the current section only, leaving
    every other key and every other section as it was.
   */
  lemma ApplyEffect(st: State, l: Line)
    requires st.Valid()
    ensures l == Blank || l == Comment ==> Apply(st, l) == Some(st)
    ensures l.Header? ==>
      && Apply(st, l).Some? && Apply(st, l).value.current == l.name
      && Apply(st, l).value.doc.Keys == st.doc.Keys + {l.name}
      && Apply(st, l).value.doc[l.name] == map[]
      && forall s | s in st.doc && s != l.name :: Apply(st, l).value.doc[s] == st.doc[s]
    ensures l.Pair? ==>
      && Apply(st, l).Some? && Apply(st, l).value.current == st.current
      && Apply(st, l).value.doc.Keys == st.doc.Keys
      && Apply(st, l).value.doc[st.current].Keys == st.doc[st.current].Keys + {l.key}
      && Apply(st, l).value.doc[st.current][l.key] == l.value
      && (forall k | k in st.doc[st.current] && k != l.key ::
            Apply(st, l).value.doc[st.current][k] == st.doc[st.current][k])
      && forall s | s in st.doc && s != st.current :: Apply(st, l).value.doc[s] == st.doc[s]
  {
  }

  /** One raw line processed against the state. */
  function Step(st: State, raw: string): (r: Option<State>)
    requires st.Valid()
    ensures r.Some? ==> r.value.Valid()
  {
    Apply(st, Classify(raw))
  }

  /**
    The lines processed in order, stopping at the first fatal one. The
    sections present before are still present after.
   */
  function Run(lines: seq<string>, st: State): (r: Option<State>)
    requires st.Valid()
    decreases |lines|
    ensures r.Some? ==> r.value.Valid() && st.doc.Keys <= r.value.doc.Keys
  {
    if |lines| == 0 then Some(st)
    else
      match Step(st, lines[0])
      case None => None
      case Some(next) => Run(lines[1..], next)
  }

  /** A run fails exactly when one of its lines is fatal; nothing else can fail. */
  lemma {:induction false} RunFails(lines: seq<string>, st: State)
    requires st.Valid()
    decreases |lines|
    ensures Run(lines, st).None? <==> exists i | 0 <= i < |lines| :: Classify(lines[i]).Fatal()
  {
    hide Classify;
    if |lines| > 0 {
      var step := Step(st, lines[0]);
      if step.Some? {
        RunFails(lines[1..], step.value);
        assert forall i | 1 <= i < |lines| :: lines[i] == lines[1..][i - 1];
        if exists i | 0 <= i < |lines| :: Classify(lines[i]).Fatal() {
          var i :| 0 <= i < |lines| && Classify(lines[i]).Fatal();
          assert i > 0;
          assert Classify(lines[1..][i - 1]).Fatal();
        }
      }
    }
  }

  /** Continue a run from where an earlier one stopped, if it did not fail. */
  function Continue(r: Option<State>, lines: seq<string>): Option<State>
    requires r.Some? ==> r.value.Valid()
  {
    match r
    case None => None
    case Some(st) => Run(lines, st)
  }

  /**
    `beanie_parse_buffer` on a C string (so no '\0' inside): the document,
    or None when some line is fatal. A successful result always holds the
    global section.
   */
  function Parse(text: string): (r: Option<Document>)
    requires '\0' !in text
    ensures r.Some? ==> Global in r.value
  {
    var run := Run(Lines(text), Initial);
    if run.None? then None else Some(run.value.doc)
  }

  /** The parse fails exactly when some line of the buffer is fatal. */
  lemma ParseFails(text: string)
    requires '\0' !in text
    ensures Parse(text).None? <==> exists i | 0 <= i < |Lines(text)| :: Classify(Lines(text)[i]).Fatal()
  {
    RunFails(Lines(text), Initial);
    assert Parse(text).None? <==> Run(Lines(text), Initial).None?;
  }

  /**
    The C loop itself: a cursor walks the buffer; at a '\n' it steps over
    it, otherwise it measures the line up to the next '\n' or the end,
    processes it and jumps to its end.
   */
  method ParseBuffer(text: string) returns (r: Option<Document>)
    requires '\0' !in text
    ensures r == Parse(text)
  {
    // The loop reasons about whole lines only; what a line classifies as is never needed here.
    hide Classify;
    ghost var whole := Run(Lines(text), Initial);
    var st := Initial;
    var p := 0;
    assert text[p..] == text;
    while p < |text|
      invariant 0 <= p <= |text|
      invariant st.Valid()
      invariant whole == Run(Lines(text[p..]), st)
      decreases |text| - p
    {
      var adv, next := NextLine(text, p, st);
      if next.None? {
        return None;
      }
      st, p := next.value, p + adv;
    }
    AtEnd(text, p, st);
    return Some(st.doc);
  }

  /** Nothing left: the run stops with the state it has. */
  lemma AtEnd(text: string, p: nat, st: State)
    requires st.Valid() && p == |text|
    ensures Run(Lines(text[p..]), st) == Some(st)
  {
    LastLine("", st);
    assert Step(st, "") == Some(st) by { assert AllSpace(""); }
    assert text[p..] == "";
  }

  /**
    One turn of the C loop at position p: step over a '\n', or process the
    line that starts at p and move past it. `adv` is how far the cursor
    moves; r is None when the line is fatal.
   */
  method NextLine(text: string, p: nat, st: State) returns (adv: nat, r: Option<State>)
    requires p < |text| && st.Valid()
    ensures 0 < adv && p + adv <= |text|
    ensures r.Some? ==> r.value.Valid()
    ensures Run(Lines(text[p..]), st) == Continue(r, Lines(text[p + adv..]))
  {
    hide Classify;
    if text[p] == '\n' {
      adv, r := SkipLine(text, p, st);
    } else {
      var len := LineLength(text, p);
      adv, r := ProcessLine(text, p, len, st);
    }
  }

  /** An empty line at p: the '\n' is stepped over and the state kept. */
  method SkipLine(text: string, p: nat, st: State) returns (adv: nat, r: Option<State>)
    requires st.Valid()
    requires p < |text| && text[p] == '\n'
    ensures adv == 1 && r == Some(st)
    ensures Run(Lines(text[p..]), st) == Continue(r, Lines(text[p + adv..]))
  {
    SkipAt(text, p, st);
    adv, r := 1, Some(st);
  }

  /** The line of length len > 0 at p, processed against the state. */
  method ProcessLine(text: string, p: nat, len: nat, st: State) returns (adv: nat, r: Option<State>)
    requires st.Valid()
    requires 0 < len && p + len <= |text|
    requires '\n' !in text[p..p + len]
    requires p + len == |text| || text[p + len] == '\n'
    ensures adv == len && r == Step(st, text[p..p + len])
    ensures r.Some? ==> r.value.Valid()
    ensures Run(Lines(text[p..]), st) == Continue(r, Lines(text[p + adv..]))
  {
    LineAt(text, p, len, st);
    r := Step(st, text[p..p + len]);
    adv := len;
  }

  /** The length of the line starting at p: the characters up to the next '\n' or the end. */
  method LineLength(text: string, p: nat) returns (len: nat)
    requires p <= |text|
    ensures p + len <= |text|
    ensures '\n' !in text[p..p + len]
    ensures p + len == |text| || text[p + len] == '\n'
  {
    len := 0;
    while p + len < |text| && text[p + len] != '\n'
      invariant p + len <= |text|
      invariant forall j | p <= j < p + len :: text[j] != '\n'
      decreases |text| - p - len
    {
      len := len + 1;
    }
    var line := text[p..p + len];
    assert forall j | 0 <= j < |line| :: line[j] == text[p + j];
  }

  /** The first step of a run. */
  lemma RunCons(line: string, lines: seq<string>, st: State)
    requires st.Valid()
    ensures Run([line] + lines, st) == Continue(Step(st, line), lines)
  {
    assert ([line] + lines)[0] == line;
    assert ([line] + lines)[1..] == lines;
  }

  /** An empty line changes nothing. */
  lemma RunBlank(lines: seq<string>, st: State)
    requires st.Valid()
    ensures Run([""] + lines, st) == Run(lines, st)
  {
    RunCons("", lines, st);
    assert Classify("") == Blank by { assert AllSpace(""); }
  }

  /** A '\n' at the front of what is left is an empty line, which changes nothing. */
  lemma SkipNewline(rest: string, st: State)
    requires st.Valid()
    requires |rest| > 0 && rest[0] == '\n'
    ensures Run(Lines(rest), st) == Run(Lines(rest[1..]), st)
  {
    assert rest == "" + "\n" + rest[1..];
    LinesConcat("", rest[1..]);
    RunBlank(Lines(rest[1..]), st);
  }

  /** A '\n' at position p is stepped over without changing the outcome. */
  lemma SkipAt(text: string, p: nat, st: State)
    requires st.Valid()
    requires p < |text| && text[p] == '\n'
    ensures Run(Lines(text[p..]), st) == Run(Lines(text[p + 1..]), st)
  {
    SkipNewline(text[p..], st);
    assert text[p..][1..] == text[p + 1..];
  }

  /** The line of length len > 0 starting at p, then what follows it. */
  lemma LineAt(text: string, p: nat, len: nat, st: State)
    requires st.Valid()
    requires 0 < len && p + len <= |text|
    requires '\n' !in text[p..p + len]
    requires p + len == |text| || text[p + len] == '\n'
    ensures Run(Lines(text[p..]), st) == Continue(Step(st, text[p..p + len]), Lines(text[p + len..]))
  {
    assert text[p..] == text[p..p + len] + text[p + len..];
    LineThenRest(text[p..p + len], text[p + len..], st);
  }

  /** A whole line followed by the end of the buffer or by a '\n'. */
  lemma LineThenRest(line: string, rest: string, st: State)
    requires st.Valid()
    requires '\n' !in line
    requires |rest| == 0 || rest[0] == '\n'
    ensures Run(Lines(line + rest), st) == Continue(Step(st, line), Lines(rest))
  {
    if |rest| == 0 {
      LastLine(line, st);
      assert line + rest == line;
    } else {
      assert line + rest == line + "\n" + rest[1..];
      LinesConcat(line, rest[1..]);
      LinesOfLine(line);
      RunCons(line, Lines(rest[1..]), st);
      var step := Step(st, line);
      if step.Some? {
        SkipNewline(rest, step.value);
      }
    }
  }

  /** A last line with no '\n' after it is processed like any other. */
  lemma LastLine(line: string, st: State)
    requires st.Valid()
    requires '\n' !in line
    ensures Run(Lines(line), st) == Continue(Step(st, line), Lines(""))
  {
    LinesOfLine(line);
    RunCons(line, [], st);
    assert [line] + [] == [line];
    var step := Step(st, line);
    if step.Some? {
      RunBlank([], step.value);
      assert [""] + [] == [""];
    }
  }
}
