/** The biography loader's text pipeline: the fetched text is split on runs
    of newlines, blank pieces are dropped, and each remaining piece is
    wrapped in a paragraph element after its newlines are turned into line
    breaks. The pieces hold no newline once split, so that last replacement
    never changes anything. */
module AboutText {

  // ---------------------------------------------------------------------
  // trim()
  // ---------------------------------------------------------------------

  /** The characters String.prototype.trim removes: ECMAScript's WhiteSpace
      and LineTerminator code points. */
  predicate IsJsWhitespace(c: char)
  {
    || c == '\t' || c == '\n' || c == '\U{000B}' || c == '\U{000C}' || c == '\r'
    || c == ' ' || c == '\U{00A0}' || c == '\U{1680}'
    || ('\U{2000}' <= c <= '\U{200A}')
    || c == '\U{2028}' || c == '\U{2029}' || c == '\U{202F}' || c == '\U{205F}'
    || c == '\U{3000}' || c == '\U{FEFF}'
  }

  predicate IsBlank(s: string)
  {
    forall i :: 0 <= i < |s| ==> IsJsWhitespace(s[i])
  }

  /** `s` without its leading whitespace. */
  function TrimStart(s: string): string
  {
    if s != [] && IsJsWhitespace(s[0]) then TrimStart(s[1..]) else s
  }

  /** `s` without its trailing whitespace. */
  function TrimEnd(s: string): string
  {
    if s != [] && IsJsWhitespace(s[|s| - 1]) then TrimEnd(s[..|s| - 1]) else s
  }

  /** String.prototype.trim. */
  function Trim(s: string): string
  {
    TrimEnd(TrimStart(s))
  }

  lemma {:induction false} TrimStartDropsBlankPrefix(s: string)
    ensures var t := TrimStart(s);
      && |t| <= |s| && t == s[|s| - |t|..]
      && IsBlank(s[..|s| - |t|])
      && (t == [] || !IsJsWhitespace(t[0]))
    decreases |s|
  {
    if s != [] && IsJsWhitespace(s[0]) {
      TrimStartDropsBlankPrefix(s[1..]);
      var t := TrimStart(s[1..]);
      assert s[..|s| - |t|] == [s[0]] + s[1..][..|s| - 1 - |t|];
    } else {
      assert s[..0] == [];
    }
  }

  lemma {:induction false} TrimEndDropsBlankSuffix(s: string)
    ensures var t := TrimEnd(s);
      && |t| <= |s| && t == s[..|t|]
      && IsBlank(s[|t|..])
      && (t == [] || !IsJsWhitespace(t[|t| - 1]))
    decreases |s|
  {
    if s != [] && IsJsWhitespace(s[|s| - 1]) {
      TrimEndDropsBlankSuffix(s[..|s| - 1]);
      var t := TrimEnd(s[..|s| - 1]);
      assert s[|t|..] == s[..|s| - 1][|t|..] + [s[|s| - 1]];
    } else {
      assert s[|s|..] == [];
    }
  }

  /** trim() leaves nothing exactly when `s` is blank; otherwise what it
      leaves starts and ends with a non-whitespace character. */
  lemma {:induction false} TrimEmptyIffBlank(s: string)
    ensures Trim(s) == [] <==> IsBlank(s)
    ensures Trim(s) == [] || (!IsJsWhitespace(Trim(s)[0]) && !IsJsWhitespace(Trim(s)[|Trim(s)| - 1]))
  {
    var u := TrimStart(s);
    TrimStartDropsBlankPrefix(s);
    TrimEndDropsBlankSuffix(u);
    if u == [] {
      assert s[..|s|] == s;
    } else {
      assert s[|s| - |u|] == u[0];
      assert u[0..] == u;
    }
  }

  // ---------------------------------------------------------------------
  // split(/\n+/)
  // ---------------------------------------------------------------------

  /** The length of the longest prefix of `s` that holds no newline. */
  function SegmentEnd(s: string): (n: nat)
    ensures n <= |s|
  {
    if s == [] || s[0] == '\n' then 0 else 1 + SegmentEnd(s[1..])
  }

  /** The first piece stops at a newline, or at the end of `s`. */
  lemma {:induction false} SegmentStopsAtNewline(s: string)
    ensures SegmentEnd(s) < |s| ==> s[SegmentEnd(s)] == '\n'
    decreases |s|
  {
    if s != [] && s[0] != '\n' {
      SegmentStopsAtNewline(s[1..]);
    }
  }

  lemma {:induction false} SegmentHasNoNewline(s: string)
    ensures '\n' !in s[..SegmentEnd(s)]
    decreases |s|
  {
    if s != [] && s[0] != '\n' {
      SegmentHasNoNewline(s[1..]);
      assert s[..SegmentEnd(s)] == [s[0]] + s[1..][..SegmentEnd(s[1..])];
    }
  }

  /** The length of the run of newlines that `s` starts with. */
  function RunLength(s: string): (n: nat)
    ensures n <= |s|
  {
    if s != [] && s[0] == '\n' then 1 + RunLength(s[1..]) else 0
  }

  /** A newline run stops at a character other than a newline, or at the end
      of `s`. */
  lemma {:induction false} RunStopsAtOtherCharacter(s: string)
    ensures RunLength(s) < |s| ==> s[RunLength(s)] != '\n'
    decreases |s|
  {
    if s != [] && s[0] == '\n' {
      RunStopsAtOtherCharacter(s[1..]);
    }
  }

  /** What follows the first newline run of `s` (empty when `s` holds no
      newline). */
  function AfterRun(s: string): (t: string)
    ensures SegmentEnd(s) < |s| ==> |t| < |s|
  {
    var rest := s[SegmentEnd(s)..];
    rest[RunLength(rest)..]
  }

  /** JavaScript's `s.split(/\n+/)`: the pieces between maximal runs of
      newlines. A newline run at the start or at the end yields an empty
      first or last piece, and the empty string yields one empty piece. */
  function SplitNewlineRuns(s: string): (parts: seq<string>)
    ensures |parts| > 0
    decreases |s|
  {
    if SegmentEnd(s) == |s| then [s]
    else [s[..SegmentEnd(s)]] + SplitNewlineRuns(AfterRun(s))
  }

  /** No piece of the split holds a newline. */
  lemma {:induction false} PiecesHaveNoNewline(s: string)
    ensures forall p :: p in SplitNewlineRuns(s) ==> '\n' !in p
    decreases |s|
  {
    SegmentHasNoNewline(s);
    if SegmentEnd(s) == |s| {
      assert s[..|s|] == s;
    } else {
      PiecesHaveNoNewline(AfterRun(s));
    }
  }

  /** JavaScript's `parts.filter((line) => line.trim() !== '')`. */
  function KeepNonBlank(parts: seq<string>): (kept: seq<string>)
    ensures |kept| <= |parts|
    ensures forall i :: 0 <= i < |kept| ==> Trim(kept[i]) != ""
  {
    if parts == [] then []
    else (if Trim(parts[0]) != "" then [parts[0]] else []) + KeepNonBlank(parts[1..])
  }

  /** The paragraphs of the biography text, in order. */
  function Paragraphs(text: string): seq<string>
  {
    KeepNonBlank(SplitNewlineRuns(text))
  }

  lemma {:induction false} KeptAreParts(parts: seq<string>)
    ensures forall p :: p in KeepNonBlank(parts) ==> p in parts
    decreases |parts|
  {
    if parts != [] {
      KeptAreParts(parts[1..]);
    }
  }

  /** Every paragraph is free of newlines and not blank: each holds a
      character trim() keeps. */
  lemma {:induction false} ParagraphsAreNotBlank(text: string)
    ensures forall p :: p in Paragraphs(text) ==> '\n' !in p && Trim(p) != "" && !IsBlank(p)
  {
    var parts := SplitNewlineRuns(text);
    KeptAreParts(parts);
    PiecesHaveNoNewline(text);
    forall p | p in Paragraphs(text) ensures '\n' !in p && Trim(p) != "" && !IsBlank(p) {
      TrimEmptyIffBlank(p);
    }
  }

  // ---------------------------------------------------------------------
  // map / join
  // ---------------------------------------------------------------------

  /** JavaScript's `p.replace(/\n/g, '<br>')`: it changes `s` exactly when
      `s` holds a newline. */
  function ReplaceNewlines(s: string): (r: string)
    ensures |r| >= |s|
    ensures '\n' in s ==> |r| > |s|
    ensures '\n' !in s ==> r == s
  {
    if s == [] then []
    else if s[0] == '\n' then "<br>" + ReplaceNewlines(s[1..])
    else
      assert s == [s[0]] + s[1..];
      [s[0]] + ReplaceNewlines(s[1..])
  }

  /** The HTML the loader writes: each paragraph mapped to `<p>…</p>` and
      the results joined with no separator. */
  function RenderParagraphs(ps: seq<string>): string
  {
    if ps == [] then "" else "<p>" + ReplaceNewlines(ps[0]) + "</p>" + RenderParagraphs(ps[1..])
  }

  function AboutHtml(text: string): string
  {
    RenderParagraphs(Paragraphs(text))
  }

  // ---------------------------------------------------------------------
  // Reference definitions
  // ---------------------------------------------------------------------

  /** The pieces joined with single newlines. */
  function Join(parts: seq<string>): string
  {
    if parts == [] then ""
    else if |parts| == 1 then parts[0]
    else parts[0] + ("\n" + Join(parts[1..]))
  }

  /** `s` with every run of newlines collapsed to one newline. */
  function CollapseNewlines(s: string): string
  {
    if s == [] then ""
    else if |s| > 1 && s[0] == '\n' && s[1] == '\n' then CollapseNewlines(s[1..])
    else [s[0]] + CollapseNewlines(s[1..])
  }

  /** Each paragraph wrapped in `<p>…</p>`, its text untouched. */
  function Tagged(ps: seq<string>): string
  {
    if ps == [] then "" else "<p>" + ps[0] + "</p>" + Tagged(ps[1..])
  }

  // ---------------------------------------------------------------------
  // Properties
  // ---------------------------------------------------------------------

  lemma {:induction false} CollapseKeepsPlainPrefix(s: string, n: nat)
    requires n <= |s| && '\n' !in s[..n]
    ensures CollapseNewlines(s) == s[..n] + CollapseNewlines(s[n..])
    decreases n
  {
    if n == 0 {
      assert s[..0] == [] && s[0..] == s;
    } else {
      assert s[0] == s[..n][0];
      assert s[1..][..n - 1] == s[..n][1..];
      CollapseKeepsPlainPrefix(s[1..], n - 1);
      assert s[1..][n - 1..] == s[n..];
      assert s[..n] == [s[0]] + s[1..][..n - 1];
    }
  }

  lemma {:induction false} CollapseRun(r: string)
    requires r != [] && r[0] == '\n'
    ensures CollapseNewlines(r) == "\n" + CollapseNewlines(r[RunLength(r)..])
    decreases |r|
  {
    if |r| > 1 && r[1] == '\n' {
      CollapseRun(r[1..]);
      assert r[1..][RunLength(r[1..])..] == r[RunLength(r)..];
    } else {
      assert RunLength(r) == 1;
    }
  }

  lemma {:induction false} CollapseAtFirstRun(s: string)
    requires SegmentEnd(s) < |s|
    ensures CollapseNewlines(s) == s[..SegmentEnd(s)] + ("\n" + CollapseNewlines(AfterRun(s)))
  {
    var n := SegmentEnd(s);
    var rest, tail := s[n..], AfterRun(s);
    assert CollapseNewlines(rest) == "\n" + CollapseNewlines(tail) by {
      SegmentStopsAtNewline(s);
      CollapseRun(rest);
    }
    assert CollapseNewlines(s) == s[..n] + CollapseNewlines(rest) by {
      SegmentHasNoNewline(s);
      CollapseKeepsPlainPrefix(s, n);
    }
  }

  lemma {:induction false} JoinCons(p: string, parts: seq<string>)
    requires |parts| > 0
    ensures Join([p] + parts) == p + ("\n" + Join(parts))
  {
    assert ([p] + parts)[1..] == parts;
  }

  /** Joining the pieces of the split with single newlines gives back the
      input with every newline run collapsed to one newline. */
  lemma {:induction false} SplitJoinCollapses(s: string)
    ensures Join(SplitNewlineRuns(s)) == CollapseNewlines(s)
    decreases |s|
  {
    if SegmentEnd(s) == |s| {
      SegmentHasNoNewline(s);
      CollapseKeepsPlainPrefix(s, |s|);
      assert s[..|s|] == s;
      assert s[|s|..] == [];
    } else {
      SplitJoinCollapses(AfterRun(s));
      CollapseAtFirstRun(s);
      JoinCons(s[..SegmentEnd(s)], SplitNewlineRuns(AfterRun(s)));
    }
  }

  lemma {:induction false} SegmentEndAppend(u: string, v: string)
    ensures SegmentEnd(u + v) == if SegmentEnd(u) < |u| then SegmentEnd(u) else |u| + SegmentEnd(v)
    decreases |u|
  {
    if u == [] {
      assert u + v == v;
    } else if u[0] != '\n' {
      SegmentEndAppend(u[1..], v);
      assert (u + v)[1..] == u[1..] + v;
    }
  }

  lemma {:induction false} RunLengthAppend(u: string, v: string)
    ensures RunLength(u + v) == if RunLength(u) < |u| then RunLength(u) else |u| + RunLength(v)
    decreases |u|
  {
    if u == [] {
      assert u + v == v;
    } else if u[0] == '\n' {
      RunLengthAppend(u[1..], v);
      assert (u + v)[1..] == u[1..] + v;
    }
  }

  lemma {:induction false} SliceOfConcat(u: string, v: string, k: nat)
    requires k <= |u| + |v|
    ensures k <= |u| ==> (u + v)[k..] == u[k..] + v
    ensures k >= |u| ==> (u + v)[k..] == v[k - |u|..]
  {
  }

  lemma {:induction false} AfterRunAt(s: string, k: nat)
    requires SegmentEnd(s) < |s| && k == RunLength(s[SegmentEnd(s)..])
    ensures SegmentEnd(s) + k <= |s| && AfterRun(s) == s[SegmentEnd(s) + k..]
  {
  }

  /** When `a` holds no newline, the newline after it starts the first run
      of `a + "\n" + b`, and that run swallows the newlines `b` starts with. */
  lemma {:induction false} AfterRunAcrossJoin(a: string, b: string)
    requires SegmentEnd(a) == |a|
    ensures SegmentEnd(a + ("\n" + b)) == |a|
    ensures (a + ("\n" + b))[..|a|] == a
    ensures AfterRun(a + ("\n" + b)) == b[RunLength(b)..]
  {
    var s := a + ("\n" + b);
    SegmentEndAppend(a, "\n" + b);
    SliceOfConcat(a, "\n" + b, |a|);
    RunLengthAppend("\n", b);
    AfterRunAt(s, 1 + RunLength(b));
    SliceOfConcat(a, "\n" + b, |a| + 1 + RunLength(b));
    SliceOfConcat("\n", b, 1 + RunLength(b));
  }

  /** When `a` holds a newline, `a + "\n" + b` has the same first piece. */
  lemma {:induction false} FirstPieceKept(a: string, b: string)
    requires SegmentEnd(a) < |a|
    ensures SegmentEnd(a + ("\n" + b)) == SegmentEnd(a)
    ensures (a + ("\n" + b))[..SegmentEnd(a)] == a[..SegmentEnd(a)]
  {
    SegmentEndAppend(a, "\n" + b);
  }

  /** When more text follows the first newline run of `a`, that text is
      what follows the first run of `a + "\n" + b`, continued by the newline
      and `b`. */
  lemma {:induction false} AfterRunMidText(a: string, b: string)
    requires SegmentEnd(a) < |a| && AfterRun(a) != []
    ensures AfterRun(a + ("\n" + b)) == AfterRun(a) + ("\n" + b)
  {
    var s := a + ("\n" + b);
    var n := SegmentEnd(a);
    var ra := a[n..];
    var k := RunLength(ra);
    AfterRunAt(a, k);
    FirstPieceKept(a, b);
    SliceOfConcat(a, "\n" + b, n);
    RunLengthAppend(ra, "\n" + b);
    AfterRunAt(s, k);
    SliceOfConcat(a, "\n" + b, n + k);
  }

  /** When `a` ends with its first newline run, that run, the joining newline
      and the newlines `b` starts with form one run of `a + "\n" + b`. */
  lemma {:induction false} AfterRunEndOfText(a: string, b: string)
    requires SegmentEnd(a) < |a| && AfterRun(a) == []
    ensures AfterRun(a + ("\n" + b)) == b[RunLength(b)..]
  {
    var s := a + ("\n" + b);
    var n := SegmentEnd(a);
    var ra := a[n..];
    var k := RunLength(ra);
    var rb := RunLength(b);
    AfterRunAt(a, k);
    FirstPieceKept(a, b);
    SliceOfConcat(a, "\n" + b, n);
    RunLengthAppend(ra, "\n" + b);
    RunLengthAppend("\n", b);
    AfterRunAt(s, k + 1 + rb);
    SliceOfConcat(a, "\n" + b, |a| + 1 + rb);
    SliceOfConcat("\n", b, 1 + rb);
  }

  lemma {:induction false} SegmentEndOfPlain(p: string)
    requires '\n' !in p
    ensures SegmentEnd(p) == |p|
  {
    SegmentStopsAtNewline(p);
  }

  /** Splitting undoes joining for pieces that are non-empty and hold no
      newline. */
  lemma {:induction false} SplitOfJoin(ps: seq<string>)
    requires |ps| > 0
    requires forall i :: 0 <= i < |ps| ==> ps[i] != [] && '\n' !in ps[i]
    ensures SplitNewlineRuns(Join(ps)) == ps
    decreases |ps|
  {
    var p := ps[0];
    SegmentEndOfPlain(p);
    if |ps| == 1 {
      assert p[..|p|] == p;
    } else {
      var rest := ps[1..];
      var j := Join(rest);
      SplitOfJoin(rest);
      assert j[0] != '\n' by {
        JoinStartsWithFirst(rest);
        assert rest[0][0] in rest[0];
      }
      AfterRunAcrossJoin(p, j);
      assert j[0..] == j;
    }
  }

  lemma {:induction false} JoinStartsWithFirst(ps: seq<string>)
    requires |ps| > 0 && ps[0] != []
    ensures |Join(ps)| > 0 && Join(ps)[0] == ps[0][0]
  {
  }

  lemma {:induction false} KeepNonBlankAppend(x: seq<string>, y: seq<string>)
    ensures KeepNonBlank(x + y) == KeepNonBlank(x) + KeepNonBlank(y)
    decreases |x|
  {
    if x == [] {
      assert x + y == y;
    } else {
      KeepNonBlankAppend(x[1..], y);
      assert (x + y)[0] == x[0];
      assert (x + y)[1..] == x[1..] + y;
      var head := if Trim(x[0]) != "" then [x[0]] else [];
      assert KeepNonBlank(x + y) == head + KeepNonBlank(x[1..] + y);
      AppendAssociates(head, KeepNonBlank(x[1..]), KeepNonBlank(y));
    }
  }

  lemma {:induction false} KeepNonBlankKeepsAll(ps: seq<string>)
    requires forall i :: 0 <= i < |ps| ==> Trim(ps[i]) != ""
    ensures KeepNonBlank(ps) == ps
    decreases |ps|
  {
    if ps != [] {
      KeepNonBlankKeepsAll(ps[1..]);
    }
  }

  /** Splitting the paragraphs joined with newlines gives the same
      paragraphs: the splitter is a normal form. */
  lemma {:induction false} ParagraphsIdempotent(text: string)
    ensures Paragraphs(Join(Paragraphs(text))) == Paragraphs(text)
  {
    var ps := Paragraphs(text);
    if ps == [] {
      assert Join(ps) == "";
      assert SplitNewlineRuns("") == [""];
      assert Trim("") == "";
    } else {
      ParagraphsAreNotBlank(text);
      assert Trim([]) == [];
      forall i | 0 <= i < |ps| ensures ps[i] != [] && '\n' !in ps[i] && Trim(ps[i]) != "" {
        assert ps[i] in ps;
      }
      SplitOfJoin(ps);
      KeepNonBlankKeepsAll(ps);
    }
  }

  /** Leading newlines produce only an empty first piece, which is dropped. */
  lemma {:induction false} SkipLeadingNewlines(b: string)
    ensures Paragraphs(b[RunLength(b)..]) == Paragraphs(b)
  {
    var k := RunLength(b);
    if k > 0 {
      assert SegmentEnd(b) == 0;
      assert b[0..] == b;
      assert SplitNewlineRuns(b) == [""] + SplitNewlineRuns(b[k..]);
      KeepNonBlankAppend([""], SplitNewlineRuns(b[k..]));
      assert Trim("") == "";
    } else {
      assert b[0..] == b;
    }
  }

  /** The paragraphs of two texts joined by a newline are the paragraphs of
      the first followed by those of the second: order is kept and no
      paragraph spans the join. */
  lemma {:induction false} ParagraphsOfConcat(a: string, b: string)
    ensures Paragraphs(a + "\n" + b) == Paragraphs(a) + Paragraphs(b)
  {
    assert a + "\n" + b == a + ("\n" + b);
    ParagraphsAcrossNewline(a, b);
  }

  lemma {:induction false} SplitStep(s: string)
    requires SegmentEnd(s) < |s|
    ensures SplitNewlineRuns(s) == [s[..SegmentEnd(s)]] + SplitNewlineRuns(AfterRun(s))
  {
  }

  lemma {:induction false} EmptyPieceDropped()
    ensures KeepNonBlank([""]) == []
  {
    assert Trim("") == "";
  }

  lemma {:induction false} ParagraphsAcrossNewline(a: string, b: string)
    ensures Paragraphs(a + ("\n" + b)) == Paragraphs(a) + Paragraphs(b)
    decreases |a|
  {
    if SegmentEnd(a) == |a| {
      ParagraphsWhenFirstHasNoNewline(a, b);
    } else if AfterRun(a) != [] {
      ParagraphsAcrossNewline(AfterRun(a), b);
      ParagraphsWhenMoreTextFollows(a, b);
    } else {
      ParagraphsWhenFirstRunEndsText(a, b);
    }
  }

  /** `a` holds no newline: it is the first piece, then `b` after its newlines. */
  lemma {:induction false} ParagraphsWhenFirstHasNoNewline(a: string, b: string)
    requires SegmentEnd(a) == |a|
    ensures Paragraphs(a + ("\n" + b)) == Paragraphs(a) + Paragraphs(b)
  {
    var tb := b[RunLength(b)..];
    SkipLeadingNewlines(b);
    AfterRunAcrossJoin(a, b);
    assert a[..|a|] == a;
    KeepNonBlankAppend([a], SplitNewlineRuns(tb));
  }

  /** A text that holds a newline: its first piece, if not blank, is its
      first paragraph, and the rest come from what follows the first run. */
  lemma {:induction false} ParagraphsOfFirstAndRest(s: string)
    requires SegmentEnd(s) < |s|
    ensures Paragraphs(s) == KeepNonBlank([s[..SegmentEnd(s)]]) + Paragraphs(AfterRun(s))
  {
    SplitStep(s);
    KeepNonBlankAppend([s[..SegmentEnd(s)]], SplitNewlineRuns(AfterRun(s)));
  }

  /** More text `t` follows the first newline run inside `a`: the first piece
      of `a` comes first, and the rest is the paragraphs of `t` joined to `b`. */
  lemma {:induction false} ParagraphsWhenMoreTextFollows(a: string, b: string)
    requires SegmentEnd(a) < |a| && AfterRun(a) != []
    requires Paragraphs(AfterRun(a) + ("\n" + b)) == Paragraphs(AfterRun(a)) + Paragraphs(b)
    ensures Paragraphs(a + ("\n" + b)) == Paragraphs(a) + Paragraphs(b)
  {
    var s := a + ("\n" + b);
    FirstPieceKept(a, b);
    AfterRunMidText(a, b);
    ParagraphsOfFirstAndRest(a);
    ParagraphsOfFirstAndRest(s);
    var head, pt, pb := KeepNonBlank([a[..SegmentEnd(a)]]), Paragraphs(AfterRun(a)), Paragraphs(b);
    AppendAssociates(head, pt, pb);
  }

  lemma {:induction false} AppendAssociates(x: seq<string>, y: seq<string>, z: seq<string>)
    ensures x + (y + z) == (x + y) + z
  {
  }

  lemma {:induction false} ParagraphsWhenFirstRunEndsText(a: string, b: string)
    requires SegmentEnd(a) < |a| && AfterRun(a) == []
    ensures Paragraphs(a + ("\n" + b)) == Paragraphs(a) + Paragraphs(b)
  {
    var s := a + ("\n" + b);
    var first := a[..SegmentEnd(a)];
    var tb := b[RunLength(b)..];
    FirstPieceKept(a, b);
    AfterRunEndOfText(a, b);
    SplitStep(s);
    SplitStep(a);
    assert SplitNewlineRuns(a) == [first] + [""];
    KeepNonBlankAppend([first], SplitNewlineRuns(tb));
    KeepNonBlankAppend([first], [""]);
    EmptyPieceDropped();
    SkipLeadingNewlines(b);
    assert KeepNonBlank([first]) + [] == KeepNonBlank([first]);
  }

  /** The line-break replacement never fires on a paragraph, so the HTML is
      every paragraph wrapped in `<p>…</p>` with its text untouched. */
  lemma {:induction false} RenderIsPlainWrap(ps: seq<string>)
    requires forall i :: 0 <= i < |ps| ==> '\n' !in ps[i]
    ensures RenderParagraphs(ps) == Tagged(ps)
    decreases |ps|
  {
    if ps != [] {
      RenderIsPlainWrap(ps[1..]);
    }
  }

  lemma {:induction false} BreakReplacementNeverFires(text: string)
    ensures forall p :: p in Paragraphs(text) ==> ReplaceNewlines(p) == p
    ensures AboutHtml(text) == Tagged(Paragraphs(text))
  {
    var ps := Paragraphs(text);
    ParagraphsAreNotBlank(text);
    forall i | 0 <= i < |ps| ensures '\n' !in ps[i] {
      assert ps[i] in ps;
    }
    RenderIsPlainWrap(ps);
  }

  /** A text without newlines that is not all whitespace is one paragraph. */
  lemma {:induction false} ParagraphsOfPlain(p: string)
    requires '\n' !in p && !IsBlank(p)
    ensures Paragraphs(p) == [p]
  {
    SegmentEndOfPlain(p);
    assert p[..|p|] == p;
    TrimEmptyIffBlank(p);
    assert SplitNewlineRuns(p) == [p];
  }

  /** Two plain lines joined by one newline are two paragraphs. */
  lemma {:induction false} TwoPlainLines(b: string, c: string)
    requires '\n' !in b && !IsBlank(b)
    requires '\n' !in c && !IsBlank(c)
    ensures Paragraphs(b + ("\n" + c)) == [b, c]
    ensures RunLength(b + ("\n" + c)) == 0
  {
    ParagraphsOfPlain(b);
    ParagraphsOfPlain(c);
    ParagraphsAcrossNewline(b, c);
    assert (b + ("\n" + c))[0] == b[0];
  }

  /** A newline run in front of a text adds no paragraph. */
  lemma {:induction false} LeadingNewlineAddsNothing(t: string)
    requires RunLength(t) == 0
    ensures Paragraphs("\n" + t) == Paragraphs(t)
  {
    SkipLeadingNewlines("\n" + t);
    RunLengthAppend("\n", t);
    assert ("\n" + t)[1..] == t;
  }

  /** Single newlines split paragraphs just as blank lines do: a text of
      three plain lines, the first two separated by a blank line, has three
      paragraphs. */
  lemma {:induction false} BlankLineAndSingleNewlineSplitAlike(a: string, b: string, c: string)
    requires '\n' !in a && !IsBlank(a)
    requires '\n' !in b && !IsBlank(b)
    requires '\n' !in c && !IsBlank(c)
    ensures Paragraphs(a + ("\n" + ("\n" + (b + ("\n" + c))))) == [a, b, c]
  {
    var bc := b + ("\n" + c);
    ParagraphsOfPlain(a);
    TwoPlainLines(b, c);
    LeadingNewlineAddsNothing(bc);
    ParagraphsAcrossNewline(a, "\n" + bc);
  }

  /** "A\n\nB\nC" gives three paragraphs, A, B and C. */
  lemma {:induction false} ThreeParagraphsExample()
    ensures Paragraphs("A\n\nB\nC") == ["A", "B", "C"]
  {
    assert "A"[0] == 'A' && "B"[0] == 'B' && "C"[0] == 'C';
    BlankLineAndSingleNewlineSplitAlike("A", "B", "C");
    assert "A" + ("\n" + ("\n" + ("B" + ("\n" + "C")))) == "A\n\nB\nC";
  }

  /** The HTML for three plain lines, the first two separated by a blank
      line, is three paragraph elements holding the lines unchanged. */
  lemma {:induction false} ThreeParagraphsHtml(a: string, b: string, c: string)
    requires '\n' !in a && !IsBlank(a)
    requires '\n' !in b && !IsBlank(b)
    requires '\n' !in c && !IsBlank(c)
    ensures AboutHtml(a + ("\n" + ("\n" + (b + ("\n" + c))))) ==
      "<p>" + a + "</p>" + ("<p>" + b + "</p>" + ("<p>" + c + "</p>"))
  {
    var text := a + ("\n" + ("\n" + (b + ("\n" + c))));
    var ps := [a, b, c];
    BlankLineAndSingleNewlineSplitAlike(a, b, c);
    BreakReplacementNeverFires(text);
    assert ps[1..] == [b, c];
    assert ps[1..][1..] == [c];
    assert Tagged([c]) == "<p>" + c + "</p>" by {
      assert [c][1..] == [];
    }
  }
}
