/**
 Document text cleaning (extract.py, `clean_text`): drop NUL characters,
 collapse runs of three or more line breaks to two, squeeze runs of spaces
 and tabs to one space, and strip the ends.
 */
module Cleaning {
  import opened Strings

  predicate IsNewline(c: char) {
    c == '\n'
  }

  /** The class `[ \t]` of the third rewrite. */
  predicate IsBlank(c: char) {
    c == ' ' || c == '\t'
  }

  predicate NoTripleNewline(s: string) {
    forall i :: 0 <= i < |s| - 2 ==> !(s[i] == '\n' && s[i + 1] == '\n' && s[i + 2] == '\n')
  }

  predicate NoDoubleSpace(s: string) {
    forall i :: 0 <= i < |s| - 1 ==> !(s[i] == ' ' && s[i + 1] == ' ')
  }

  /** What `clean_text` promises of its result. */
  predicate IsClean(s: string) {
    && '\0' !in s
    && '\t' !in s
    && NoTripleNewline(s)
    && NoDoubleSpace(s)
    && IsStripped(s)
  }

  /** `text.replace("\x00", "")`. */
  function RemoveNul(s: string): (r: string)
    ensures '\0' !in r
    ensures forall c :: c in r <==> c in s && c != '\0'
    ensures '\0' !in s ==> r == s
  {
    if |s| == 0 then ""
    else if s[0] == '\0' then RemoveNul(s[1..])
    else [s[0]] + RemoveNul(s[1..])
  }

  /** `re.sub(r'\n{3,}', '\n\n', text)`: every maximal run of at least
      three line breaks becomes exactly two; shorter runs stay. */
  function CollapseNewlines(s: string): (r: string)
    ensures NoTripleNewline(r)
    ensures forall c :: c in r ==> c in s
    ensures |s| == 0 <==> |r| == 0
    ensures |s| > 0 ==> r[0] == s[0]
    decreases |s|
  {
    if |s| == 0 then ""
    else if s[0] != '\n' then
      var rest := CollapseNewlines(s[1..]);
      NoTripleJoin([s[0]], rest);
      [s[0]] + rest
    else
      var n := Span(s, IsNewline);
      var head := if n >= 3 then "\n\n" else s[..n];
      var rest := CollapseNewlines(s[n..]);
      assert n < |s| ==> s[n..][0] == s[n];
      assert forall i :: 0 <= i < |head| ==> head[i] == '\n';
      assert NoTripleNewline(head);
      NoTripleJoin(head, rest);
      head + rest
  }

  /** `re.sub(r'[ \t]+', ' ', text)`: every maximal run of spaces and tabs
      becomes one space. */
  function SqueezeBlanks(s: string): (r: string)
    ensures '\t' !in r
    ensures NoDoubleSpace(r)
    ensures forall c :: c in r ==> c in s || c == ' '
    ensures |s| == 0 <==> |r| == 0
    ensures |s| > 0 ==> (r[0] == ' ' <==> IsBlank(s[0]))
    ensures |s| > 0 && !IsBlank(s[0]) ==> r[0] == s[0]
    decreases |s|
  {
    if |s| == 0 then ""
    else if IsBlank(s[0]) then
      var n := Span(s, IsBlank);
      " " + SqueezeBlanks(s[n..])
    else
      [s[0]] + SqueezeBlanks(s[1..])
  }

  /** `clean_text(text)`. */
  function Clean(s: string): (r: string)
    ensures IsClean(r)
  {
    var a := RemoveNul(s);
    var b := CollapseNewlines(a);
    var c := SqueezeBlanks(b);
    SqueezeKeepsNoTriple(b);
    StripKeepsClean(c);
    Strip(c)
  }

  // ---------------------------------------------------------------------
  // Idempotence

  /** Text without a run of three line breaks is left alone by the collapse. */
  lemma {:induction false} CollapseFixpoint(s: string)
    requires NoTripleNewline(s)
    ensures CollapseNewlines(s) == s
    decreases |s|
  {
    if |s| > 0 && s[0] != '\n' {
      SuffixKeepsNoTriple(s, 1);
      CollapseFixpoint(s[1..]);
      CollapseCharStep(s, s[1..]);
      assert s == [s[0]] + s[1..];
    } else if |s| > 0 {
      var n := Span(s, IsNewline);
      assert n <= 2 by {
        if |s| >= 3 && s[1] == '\n' {
          assert s[2] != '\n';
        }
      }
      SuffixKeepsNoTriple(s, n);
      CollapseFixpoint(s[n..]);
      assert s == s[..n] + s[n..];
      CollapseRunStep(s, n);
    }
  }

  /** Text without tabs and without two adjacent spaces is left alone by the squeeze. */
  lemma {:induction false} SqueezeFixpoint(s: string)
    requires '\t' !in s && NoDoubleSpace(s)
    ensures SqueezeBlanks(s) == s
    decreases |s|
  {
    if |s| > 0 {
      if IsBlank(s[0]) {
        assert s[0] == ' ';
        assert |s| > 1 ==> s[1] != ' ' && s[1] != '\t';
        assert Span(s, IsBlank) == 1;
      }
      var t := s[1..];
      assert forall i :: 0 <= i < |t| ==> t[i] == s[i + 1];
      SqueezeFixpoint(t);
      assert s == [s[0]] + t;
    }
  }

  /** Clean text is its own cleaning. */
  lemma CleanFixpoint(s: string)
    requires IsClean(s)
    ensures Clean(s) == s
  {
    CollapseFixpoint(s);
    SqueezeFixpoint(s);
    StripOfStripped(s);
  }

  /** `clean_text(clean_text(s)) == clean_text(s)`. */
  lemma CleanIdempotent(s: string)
    ensures Clean(Clean(s)) == Clean(s)
  {
    CleanFixpoint(Clean(s));
  }

  /** Four line breaks between two words collapse to two. */
  lemma CleanExample()
    ensures Clean("a\n\n\n\nb") == "a\n\nb"
  {
    var s := "a\n\n\n\nb";
    var u := "a\n\nb";
    assert '\0' !in s by {
      assert s == ['a', '\n', '\n', '\n', '\n', 'b'];
    }
    CollapseExample();
    ExampleIsClean();
    SqueezeFixpoint(u);
    StripOfStripped(u);
  }

  lemma CollapseExample()
    ensures CollapseNewlines("a\n\n\n\nb") == "a\n\nb"
  {
    var s := "a\n\n\n\nb";
    var t := "\n\n\n\nb";
    assert CollapseNewlines(s) == ['a'] + CollapseNewlines(t) by {
      assert s[0] == 'a' && s[1..] == t;
      CollapseCharStep(s, t);
    }
    assert CollapseNewlines(t) == "\n\n" + "b" by {
      assert Span(t, IsNewline) == 4 by {
        SpanPrefix("\n\n\n\n", "b", IsNewline);
        assert t == "\n\n\n\n" + "b";
      }
      CollapseRunStep(t, 4);
      assert |t[..4]| == 4 && t[4..] == "b";
      CollapseOther('b');
    }
    ExampleParts();
  }

  lemma ExampleParts()
    ensures ['a'] + ("\n\n" + "b") == "a\n\nb"
  {
    var u := ['a'] + ("\n\n" + "b");
    assert |u| == 4 && u[0] == 'a' && u[1] == '\n' && u[2] == '\n' && u[3] == 'b';
  }

  lemma ExampleIsClean()
    ensures IsClean("a\n\nb")
  {
    var u := "a\n\nb";
    assert u == ['a', '\n', '\n', 'b'];
  }

  // ---------------------------------------------------------------------
  // Each rewrite, piece by piece

  /** The NUL removal works character by character: it distributes over
      concatenation, ... */
  lemma {:induction false} RemoveNulConcat(a: string, b: string)
    ensures RemoveNul(a + b) == RemoveNul(a) + RemoveNul(b)
    decreases |a|
  {
    if a == [] {
      assert a + b == b;
    } else {
      assert (a + b)[0] == a[0];
      assert (a + b)[1..] == a[1..] + b;
      RemoveNulConcat(a[1..], b);
      if a[0] != '\0' {
        Assoc([a[0]], RemoveNul(a[1..]), RemoveNul(b));
      }
    }
  }

  /** ... and on one character it drops NUL and keeps anything else. */
  lemma RemoveNulChar(c: char)
    ensures RemoveNul([c]) == if c == '\0' then "" else [c]
  {
    assert [c][1..] == "";
  }

  /** `k` line breaks in a row. */
  function Newlines(k: nat): (r: string)
    ensures |r| == k
    ensures forall i :: 0 <= i < k ==> r[i] == '\n'
  {
    seq(k, i => '\n')
  }

  /** A run of `k` line breaks collapses to two of them when `k >= 3` and
      stays as it is otherwise. */
  lemma CollapseRun(k: nat)
    ensures CollapseNewlines(Newlines(k)) == Newlines(if k >= 3 then 2 else k)
  {
    var s := Newlines(k);
    if k > 0 {
      assert All(s, IsNewline);
      SpanAll(s, IsNewline);
      assert s[k..] == "";
      assert s[..k] == s;
      assert Newlines(2) == "\n\n";
    }
  }

  /** Any character but a line break is kept. */
  lemma CollapseOther(c: char)
    requires c != '\n'
    ensures CollapseNewlines([c]) == [c]
  {
    assert [c][1..] == "";
  }

  /** The collapse works run by run: it distributes over a concatenation
      whose seam does not fall inside a run of line breaks. */
  lemma {:induction false} CollapseConcat(a: string, b: string)
    requires a == [] || b == [] || a[|a| - 1] != '\n' || b[0] != '\n'
    ensures CollapseNewlines(a + b) == CollapseNewlines(a) + CollapseNewlines(b)
    decreases |a|
  {
    if a == [] {
      assert a + b == b;
    } else if a[0] != '\n' {
      CollapseConcat(a[1..], b);
      CollapseConcatChar(a, b);
    } else {
      var n := Span(a, IsNewline);
      if n < |a| {
        CollapseConcat(a[n..], b);
        CollapseConcatRun(a, b, n);
      } else {
        CollapseConcatWhole(a, b);
      }
    }
  }

  /** The step of `CollapseConcat` past a character that is not a line break. */
  lemma CollapseConcatChar(a: string, b: string)
    requires a != [] && a[0] != '\n'
    requires CollapseNewlines(a[1..] + b) == CollapseNewlines(a[1..]) + CollapseNewlines(b)
    ensures CollapseNewlines(a + b) == CollapseNewlines(a) + CollapseNewlines(b)
  {
    SplitAt(a, b, 1);
    CollapseCharStep(a + b, a[1..] + b);
    CollapseCharStep(a, a[1..]);
    Assoc([a[0]], CollapseNewlines(a[1..]), CollapseNewlines(b));
  }

  /** The step of `CollapseConcat` past a run of line breaks inside `a`. */
  lemma CollapseConcatRun(a: string, b: string, n: nat)
    requires a != [] && a[0] == '\n'
    requires n == Span(a, IsNewline) && n < |a|
    requires CollapseNewlines(a[n..] + b) == CollapseNewlines(a[n..]) + CollapseNewlines(b)
    ensures CollapseNewlines(a + b) == CollapseNewlines(a) + CollapseNewlines(b)
  {
    var h := CollapseHead(a[..n]);
    assert CollapseNewlines(a + b) == h + CollapseNewlines(a[n..] + b) by {
      SpanConcatStops(a, b, IsNewline);
      SplitAt(a, b, n);
      CollapseRunStep(a + b, n);
    }
    CollapseRunStep(a, n);
    Assoc(h, CollapseNewlines(a[n..]), CollapseNewlines(b));
  }

  /** `CollapseConcat` when `a` is one run of line breaks. */
  lemma CollapseConcatWhole(a: string, b: string)
    requires a != [] && Span(a, IsNewline) == |a|
    requires b == [] || b[0] != '\n'
    ensures CollapseNewlines(a + b) == CollapseNewlines(a) + CollapseNewlines(b)
  {
    assert All(a, IsNewline);
    assert CollapseNewlines(a + b) == CollapseHead(a) + CollapseNewlines(b) by {
      SpanConcatAll(a, b, IsNewline);
      assert Span(b, IsNewline) == 0;
      SplitAt(a, b, |a|);
      CollapseRunStep(a + b, |a|);
    }
    assert CollapseNewlines(a) == CollapseHead(a) by {
      assert a[..|a|] == a;
      CollapseRunStep(a, |a|);
    }
  }

  /** One step of the collapse past a character that is not a line break. */
  lemma CollapseCharStep(s: string, rest: string)
    requires s != [] && s[0] != '\n' && rest == s[1..]
    ensures CollapseNewlines(s) == [s[0]] + CollapseNewlines(rest)
  {
  }

  /** What a run of line breaks becomes. */
  function CollapseHead(run: string): string {
    if |run| >= 3 then "\n\n" else run
  }

  /** One step of the collapse at a run of `n` line breaks. */
  lemma CollapseRunStep(s: string, n: nat)
    requires s != [] && s[0] == '\n' && n == Span(s, IsNewline)
    ensures CollapseNewlines(s) == CollapseHead(s[..n]) + CollapseNewlines(s[n..])
  {
  }

  /** Any character but a space or a tab is kept. */
  lemma SqueezeOther(c: char)
    requires !IsBlank(c)
    ensures SqueezeBlanks([c]) == [c]
  {
    assert [c][1..] == "";
  }

  /** A non-empty run of spaces and tabs becomes one space. */
  lemma SqueezeRun(w: string)
    requires w != [] && All(w, IsBlank)
    ensures SqueezeBlanks(w) == " "
  {
    SpanAll(w, IsBlank);
    assert w == w + [];
    SqueezeRunStep(w, |w|);
  }

  /** The squeeze works run by run: it distributes over a concatenation
      whose seam does not fall inside a run of spaces and tabs. */
  lemma {:induction false} SqueezeConcat(a: string, b: string)
    requires a == [] || b == [] || !IsBlank(a[|a| - 1]) || !IsBlank(b[0])
    ensures SqueezeBlanks(a + b) == SqueezeBlanks(a) + SqueezeBlanks(b)
    decreases |a|
  {
    if a == [] {
      assert a + b == b;
    } else if !IsBlank(a[0]) {
      SqueezeConcat(a[1..], b);
      SqueezeConcatChar(a, b);
    } else {
      var n := Span(a, IsBlank);
      if n < |a| {
        SqueezeConcat(a[n..], b);
        SqueezeConcatRun(a, b, n);
      } else {
        SqueezeConcatWhole(a, b);
      }
    }
  }

  /** The step of `SqueezeConcat` past a character that is not blank. */
  lemma SqueezeConcatChar(a: string, b: string)
    requires a != [] && !IsBlank(a[0])
    requires SqueezeBlanks(a[1..] + b) == SqueezeBlanks(a[1..]) + SqueezeBlanks(b)
    ensures SqueezeBlanks(a + b) == SqueezeBlanks(a) + SqueezeBlanks(b)
  {
    SplitAt(a, b, 1);
    SqueezeCharStep(a + b, a[1..] + b);
    SqueezeCharStep(a, a[1..]);
    Assoc([a[0]], SqueezeBlanks(a[1..]), SqueezeBlanks(b));
  }

  /** The step of `SqueezeConcat` past a blank run inside `a`. */
  lemma SqueezeConcatRun(a: string, b: string, n: nat)
    requires a != [] && IsBlank(a[0])
    requires n == Span(a, IsBlank) && n < |a|
    requires SqueezeBlanks(a[n..] + b) == SqueezeBlanks(a[n..]) + SqueezeBlanks(b)
    ensures SqueezeBlanks(a + b) == SqueezeBlanks(a) + SqueezeBlanks(b)
  {
    assert SqueezeBlanks(a + b) == " " + SqueezeBlanks(a[n..] + b) by {
      SpanConcatStops(a, b, IsBlank);
      SplitAt(a, b, n);
      SqueezeRunStep(a + b, n);
    }
    SqueezeRunStep(a, n);
    Assoc(" ", SqueezeBlanks(a[n..]), SqueezeBlanks(b));
  }

  /** `SqueezeConcat` when `a` is one blank run. */
  lemma SqueezeConcatWhole(a: string, b: string)
    requires a != [] && Span(a, IsBlank) == |a|
    requires b == [] || !IsBlank(b[0])
    ensures SqueezeBlanks(a + b) == SqueezeBlanks(a) + SqueezeBlanks(b)
  {
    assert All(a, IsBlank);
    assert SqueezeBlanks(a + b) == " " + SqueezeBlanks(b) by {
      SpanConcatAll(a, b, IsBlank);
      assert Span(b, IsBlank) == 0;
      SplitAt(a, b, |a|);
      SqueezeRunStep(a + b, |a|);
    }
    SqueezeRun(a);
  }

  /** One step of the squeeze past a character that is not blank. */
  lemma SqueezeCharStep(s: string, rest: string)
    requires s != [] && !IsBlank(s[0]) && rest == s[1..]
    ensures SqueezeBlanks(s) == [s[0]] + SqueezeBlanks(rest)
  {
  }

  /** One step of the squeeze at a blank run of length `n`. */
  lemma SqueezeRunStep(s: string, n: nat)
    requires s != [] && IsBlank(s[0]) && n == Span(s, IsBlank)
    ensures SqueezeBlanks(s) == " " + SqueezeBlanks(s[n..])
  {
  }

  // ---------------------------------------------------------------------
  // Cleaning keeps the words

  /** The collapse only rewrites whitespace between words, so the words of
      any text followed by the collapsed string are those of the text
      followed by the original. */
  lemma {:induction false} CollapseKeepsWords(p: string, s: string)
    ensures Words(p + CollapseNewlines(s)) == Words(p + s)
    decreases |s|
  {
    if s == [] {
    } else if s[0] != '\n' {
      CollapseCharStep(s, s[1..]);
      CollapseKeepsWords(p + [s[0]], s[1..]);
      Assoc(p, [s[0]], CollapseNewlines(s[1..]));
      Assoc(p, [s[0]], s[1..]);
      assert s == [s[0]] + s[1..];
    } else {
      var n := Span(s, IsNewline);
      CollapseKeepsWords([], s[n..]);
      assert [] + CollapseNewlines(s[n..]) == CollapseNewlines(s[n..]);
      assert [] + s[n..] == s[n..];
      CollapseRunStep(s, n);
      CollapseWordsRun(p, s, n, CollapseNewlines(s), CollapseNewlines(s[n..]));
    }
  }

  /** The step of `CollapseKeepsWords` past a run of line breaks, which
      collapses to `c`, with `r` the collapse of what follows the run. */
  lemma CollapseWordsRun(p: string, s: string, n: nat, c: string, r: string)
    requires s != [] && s[0] == '\n' && n == Span(s, IsNewline)
    requires c == CollapseHead(s[..n]) + r
    requires Words(r) == Words(s[n..])
    ensures Words(p + c) == Words(p + s)
  {
    NewlineRun(s, n);
    Halves(s, n);
    WordsSwapSpace(p, c, CollapseHead(s[..n]), r, s, s[..n], s[n..]);
  }

  /** A run of line breaks and what it collapses to are both whitespace. */
  lemma NewlineRun(s: string, n: nat)
    requires s != [] && s[0] == '\n' && n == Span(s, IsNewline)
    ensures s[..n] != [] && AllSpace(s[..n])
    ensures CollapseHead(s[..n]) != [] && AllSpace(CollapseHead(s[..n]))
  {
    assert forall i :: 0 <= i < n ==> s[..n][i] == s[i];
  }

  /** The squeeze only rewrites whitespace between words. */
  lemma {:induction false} SqueezeKeepsWords(p: string, s: string)
    ensures Words(p + SqueezeBlanks(s)) == Words(p + s)
    decreases |s|
  {
    if s == [] {
    } else if !IsBlank(s[0]) {
      SqueezeCharStep(s, s[1..]);
      SqueezeKeepsWords(p + [s[0]], s[1..]);
      Assoc(p, [s[0]], SqueezeBlanks(s[1..]));
      Assoc(p, [s[0]], s[1..]);
      assert s == [s[0]] + s[1..];
    } else {
      var n := Span(s, IsBlank);
      SqueezeKeepsWords([], s[n..]);
      assert [] + SqueezeBlanks(s[n..]) == SqueezeBlanks(s[n..]);
      assert [] + s[n..] == s[n..];
      SqueezeRunStep(s, n);
      SqueezeWordsRun(p, s, n, SqueezeBlanks(s), SqueezeBlanks(s[n..]));
    }
  }

  /** The step of `SqueezeKeepsWords` past a blank run, which squeezes to
      `c`, with `r` the squeeze of what follows the run. */
  lemma SqueezeWordsRun(p: string, s: string, n: nat, c: string, r: string)
    requires s != [] && IsBlank(s[0]) && n == Span(s, IsBlank)
    requires c == " " + r
    requires Words(r) == Words(s[n..])
    ensures Words(p + c) == Words(p + s)
  {
    BlankRun(s, n);
    Halves(s, n);
    WordsSwapSpace(p, c, " ", r, s, s[..n], s[n..]);
  }

  /** A blank run is whitespace. */
  lemma BlankRun(s: string, n: nat)
    requires s != [] && IsBlank(s[0]) && n == Span(s, IsBlank)
    ensures s[..n] != [] && AllSpace(s[..n]) && AllSpace(" ")
  {
    assert forall i :: 0 <= i < n ==> s[..n][i] == s[i];
  }

  /** `clean_text` changes whitespace only: apart from the dropped NUL
      characters, `clean_text(s).split() == s.split()`. */
  lemma CleanKeepsWords(s: string)
    ensures Words(Clean(s)) == Words(RemoveNul(s))
  {
    var a := RemoveNul(s);
    var b := CollapseNewlines(a);
    var c := SqueezeBlanks(b);
    WordsStrip(c);
    SqueezeKeepsWords([], b);
    CollapseKeepsWords([], a);
    assert [] + b == b && [] + a == a && [] + c == c;
  }

  lemma Halves<T>(s: seq<T>, n: nat)
    requires n <= |s|
    ensures s == s[..n] + s[n..]
  {
  }

  /** Cutting `a + b` inside `a`. */
  lemma SplitAt<T>(a: seq<T>, b: seq<T>, n: nat)
    requires n <= |a|
    ensures (a + b)[..n] == a[..n]
    ensures (a + b)[n..] == a[n..] + b
  {
  }

  // ---------------------------------------------------------------------
  // Helper facts

  /** Two strings without a triple line break, joined where at least one
      side has no line break at the seam, have none either. */
  lemma NoTripleJoin(a: string, b: string)
    requires NoTripleNewline(a) && NoTripleNewline(b)
    requires |a| == 0 || |b| == 0 || a[|a| - 1] != '\n' || b[0] != '\n'
    ensures NoTripleNewline(a + b)
  {
    var s := a + b;
    forall i | 0 <= i < |s| - 2
      ensures !(s[i] == '\n' && s[i + 1] == '\n' && s[i + 2] == '\n')
    {
      if i + 2 < |a| {
        assert s[i] == a[i] && s[i + 1] == a[i + 1] && s[i + 2] == a[i + 2];
      } else if i >= |a| {
        assert s[i] == b[i - |a|] && s[i + 1] == b[i + 1 - |a|] && s[i + 2] == b[i + 2 - |a|];
      } else if a[|a| - 1] != '\n' {
        assert s[|a| - 1] == a[|a| - 1];
      } else {
        assert s[|a|] == b[0];
      }
    }
  }

  /** Squeezing blanks never brings three line breaks together. */
  lemma {:induction false} SqueezeKeepsNoTriple(s: string)
    requires NoTripleNewline(s)
    ensures NoTripleNewline(SqueezeBlanks(s))
    decreases |s|
  {
    if |s| > 0 {
      var r := SqueezeBlanks(s);
      if IsBlank(s[0]) {
        var n := Span(s, IsBlank);
        SuffixKeepsNoTriple(s, n);
        SqueezeKeepsNoTriple(s[n..]);
        NoTripleJoin(" ", SqueezeBlanks(s[n..]));
      } else {
        SuffixKeepsNoTriple(s, 1);
        SqueezeKeepsNoTriple(s[1..]);
        var rest := SqueezeBlanks(s[1..]);
        assert r == [s[0]] + rest;
        if |s| >= 3 && s[0] == '\n' && s[1] == '\n' {
          assert s[2] != '\n';
          assert s[1..][1..] == s[2..];
          assert rest == [s[1]] + SqueezeBlanks(s[2..]);
          assert rest[1] != '\n';
        }
        forall i | 0 <= i < |r| - 2
          ensures !(r[i] == '\n' && r[i + 1] == '\n' && r[i + 2] == '\n')
        {
          if i > 0 {
            assert r[i] == rest[i - 1] && r[i + 1] == rest[i] && r[i + 2] == rest[i + 1];
          }
        }
      }
    }
  }

  lemma SuffixKeepsNoTriple(s: string, n: nat)
    requires n <= |s| && NoTripleNewline(s)
    ensures NoTripleNewline(s[n..])
  {
    var t := s[n..];
    assert forall i :: 0 <= i < |t| ==> t[i] == s[n + i];
  }

  lemma StripKeepsClean(s: string)
    requires '\0' !in s && '\t' !in s && NoTripleNewline(s) && NoDoubleSpace(s)
    ensures IsClean(Strip(s))
  {
    var w1, w2 := StripDecompose(s);
    InfixKeepsClean(w1, Strip(s), w2);
  }

  /** What `clean_text` promises holds of every infix of a string that has it. */
  lemma InfixKeepsClean(a: string, r: string, b: string)
    requires '\0' !in a + r + b && '\t' !in a + r + b
    requires NoTripleNewline(a + r + b) && NoDoubleSpace(a + r + b)
    ensures '\0' !in r && '\t' !in r && NoTripleNewline(r) && NoDoubleSpace(r)
  {
    var s := a + r + b;
    assert forall i :: 0 <= i < |r| ==> r[i] == s[|a| + i];
  }
}
