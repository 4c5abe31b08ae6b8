/**
 Section splitting (extract.py, `SECTION_PATTERN` and `split_by_sections`):
 the cleaned text is scanned line by line; a line that, stripped, is a
 recognised heading closes the running section and opens a new one named by
 that line.
 */
module Sections {
  import opened Strings

  /** The heading keywords of `SECTION_PATTERN` with every optional part
      spelled out, in upper case. */
  const Keywords: seq<string> := [
    "ABSTRACT", "INTRODUCTION", "RELATED WORK", "PROPOSED METHOD",
    "PROPOSED APPROACH", "METHODS", "METHODOLOGY", "EXPERIMENT", "EXPERIMENTS",
    "EXPERIMENT DESIGN", "ACCURACY ASSESSMENT", "EXPERIMENTAL RESULT",
    "EXPERIMENTAL RESULTS", "RESULT", "RESULTS", "RESULTS AND DISCUSSION",
    "DISCUSSION", "CONCLUSION", "CONCLUSIONS", "REFERENCES"
  ]

  /** The name of the section before the first heading. */
  const Unknown: string := "unknown"

  predicate IsDigit(c: char) {
    '0' <= c <= '9'
  }

  /** `[IVX]` under case-insensitive matching. */
  predicate IsRoman(c: char) {
    c == 'I' || c == 'V' || c == 'X' || c == 'i' || c == 'v' || c == 'x'
  }

  predicate IsUpperLetter(c: char) {
    'A' <= c <= 'Z'
  }

  /** ASCII case folding to upper case. */
  function Upper(c: char): (u: char)
    ensures IsUpperLetter(u) ==> IsUpperLetter(c) || 'a' <= c <= 'z'
    ensures !IsUpperLetter(u) ==> u == c
  {
    if 'a' <= c <= 'z' then (c as int - 32) as char else c
  }

  function UpperString(s: string): (u: string)
    ensures |u| == |s|
    ensures forall i :: 0 <= i < |s| ==> u[i] == Upper(s[i])
  {
    seq(|s|, i requires 0 <= i < |s| => Upper(s[i]))
  }

  /** Length of the numbering the pattern accepts at the start of `l`:
      `digits.` or `[IVX]+.`, or 0 when there is none. */
  function NumberingLength(l: string): (n: nat)
    ensures n <= |l|
  {
    var d := Span(l, IsDigit);
    if 0 < d < |l| && l[d] == '.' then d + 1
    else
      var r := Span(l, IsRoman);
      if 0 < r < |l| && l[r] == '.' then r + 1 else 0
  }

  /** `SECTION_PATTERN.match(l)`: after the optional numbering, the rest of
      the line with surrounding whitespace removed is a keyword up to case.
      This is exactly a match of the pattern read as a regular expression. */
  predicate IsHeading(l: string)
    ensures IsHeading(l) <==> MatchesPattern(l)
  {
    HeadingIffPattern(l);
    IsKeyword(Strip(l[NumberingLength(l)..]))
  }

  // ---------------------------------------------------------------------
  // The pattern, read as a regular expression

  /** `s` is one of the keywords, ignoring ASCII case. */
  predicate IsKeyword(s: string) {
    UpperString(s) in Keywords
  }

  /** `(\d+\.|[IVX]+\.)?` */
  predicate IsNumbering(p: string) {
    p == [] ||
    (|p| >= 2 && p[|p| - 1] == '.' && (All(p[..|p| - 1], IsDigit) || All(p[..|p| - 1], IsRoman)))
  }

  /** `l` splits as numbering, whitespace, a keyword up to case, whitespace:
      `^(\d+\.|[IVX]+\.)?\s*(KEYWORDS)\s*$`. */
  ghost predicate MatchesPattern(l: string) {
    exists i, j, m :: 0 <= i <= j <= m <= |l|
      && IsNumbering(l[..i]) && AllSpace(l[i..j])
      && IsKeyword(l[j..m]) && AllSpace(l[m..])
  }

  predicate KeywordChar(c: char) {
    IsUpperLetter(c) || c == ' '
  }

  predicate KeywordOk(k: string) {
    && |k| > 0 && IsUpperLetter(k[0]) && IsUpperLetter(k[|k| - 1])
    && forall i :: 0 <= i < |k| ==> KeywordChar(k[i])
  }

  /** Every keyword is upper-case letters and inner spaces. */
  lemma KeywordShape()
    ensures forall i :: 0 <= i < |Keywords| ==> KeywordOk(Keywords[i])
  {
    KeywordsFirst();
    KeywordsSecond();
    KeywordsThird();
    KeywordsFourth();
  }

  lemma KeywordsFirst()
    ensures forall i :: 0 <= i < 5 ==> KeywordOk(Keywords[i])
  {
    assert KeywordOk("ABSTRACT");
    assert KeywordOk("INTRODUCTION");
    assert KeywordOk("RELATED WORK");
    assert KeywordOk("PROPOSED METHOD");
    assert KeywordOk("PROPOSED APPROACH");
  }

  lemma KeywordsSecond()
    ensures forall i :: 5 <= i < 10 ==> KeywordOk(Keywords[i])
  {
    assert KeywordOk("METHODS");
    assert KeywordOk("METHODOLOGY");
    assert KeywordOk("EXPERIMENT");
    assert KeywordOk("EXPERIMENTS");
    assert KeywordOk("EXPERIMENT DESIGN");
  }

  lemma KeywordsThird()
    ensures forall i :: 10 <= i < 15 ==> KeywordOk(Keywords[i])
  {
    assert KeywordOk("ACCURACY ASSESSMENT");
    assert KeywordOk("EXPERIMENTAL RESULT");
    assert KeywordOk("EXPERIMENTAL RESULTS");
    assert KeywordOk("RESULT");
    assert KeywordOk("RESULTS");
  }

  lemma KeywordsFourth()
    ensures forall i :: 15 <= i < 20 ==> KeywordOk(Keywords[i])
  {
    assert KeywordOk("RESULTS AND DISCUSSION");
    assert KeywordOk("DISCUSSION");
    assert KeywordOk("CONCLUSION");
    assert KeywordOk("CONCLUSIONS");
    assert KeywordOk("REFERENCES");
  }

  /** A match of the pattern is found by the scanner: the numbering is the
      only digit or numeral run ending in a dot at the start of the line,
      because a keyword contains no dot. */
  lemma PatternImpliesHeading(l: string, i: nat, j: nat, m: nat)
    requires i <= j <= m <= |l|
    requires IsNumbering(l[..i]) && AllSpace(l[i..j])
    requires IsKeyword(l[j..m]) && AllSpace(l[m..])
    ensures IsKeyword(Strip(l[NumberingLength(l)..]))
  {
    var k := l[j..m];
    KeywordCore(k);
    SliceThree(l, i, j, m);
    if i == 0 {
      assert l[i..] == l;
      NoDotInPadded(l[i..j], k, l[m..]);
    }
    NumberingFound(l, i);
    StripUnique(l[i..j], k, l[m..]);
  }

  lemma SliceThree<T>(l: seq<T>, i: nat, j: nat, m: nat)
    requires i <= j <= m <= |l|
    ensures l[i..] == l[i..j] + l[j..m] + l[m..]
  {
  }

  /** The matched keyword text is non-empty, stripped and free of dots. */
  lemma KeywordCore(k: string)
    requires IsKeyword(k)
    ensures IsStripped(k) && |k| > 0
    ensures forall t :: 0 <= t < |k| ==> k[t] != '.'
  {
    var u := UpperString(k);
    KeywordShape();
    assert KeywordOk(u);
    forall t | 0 <= t < |k| ensures k[t] != '.' {
      assert KeywordChar(u[t]);
    }
    assert IsUpperLetter(u[0]) && IsUpperLetter(u[|k| - 1]);
  }

  lemma NoDotInPadded(w1: string, k: string, w2: string)
    requires AllSpace(w1) && AllSpace(w2)
    requires forall t :: 0 <= t < |k| ==> k[t] != '.'
    ensures '.' !in w1 + k + w2
  {
    var l := w1 + k + w2;
    forall t | 0 <= t < |l| ensures l[t] != '.' {
      if t < |w1| {
        assert l[t] == w1[t];
      } else if t < |w1| + |k| {
        assert l[t] == k[t - |w1|];
      } else {
        assert l[t] == w2[t - |w1| - |k|];
      }
    }
  }

  /** The scanner reads off exactly the numbering the pattern saw. */
  lemma NumberingFound(l: string, i: nat)
    requires i <= |l| && IsNumbering(l[..i])
    requires i == 0 ==> '.' !in l
    ensures NumberingLength(l) == i
  {
    if i > 0 {
      assert l == l[..i - 1] + l[i - 1..];
      assert l[i - 1] == l[..i][i - 1] == '.';
      assert l[..i][..i - 1] == l[..i - 1];
      if All(l[..i - 1], IsDigit) {
        SpanPrefix(l[..i - 1], l[i - 1..], IsDigit);
      } else {
        assert l[0] == l[..i - 1][0];
        SpanPrefix(l[..i - 1], l[i - 1..], IsRoman);
      }
    } else {
      var d := Span(l, IsDigit);
      var r := Span(l, IsRoman);
      assert d < |l| ==> l[d] != '.';
      assert r < |l| ==> l[r] != '.';
    }
  }

  /** A line the scanner accepts matches the pattern. */
  lemma HeadingImpliesPattern(l: string) returns (i: nat, j: nat, m: nat)
    requires IsKeyword(Strip(l[NumberingLength(l)..]))
    ensures i <= j <= m <= |l|
    ensures IsNumbering(l[..i]) && AllSpace(l[i..j])
    ensures IsKeyword(l[j..m]) && AllSpace(l[m..])
  {
    var n := NumberingLength(l);
    var rest := l[n..];
    var core := Strip(rest);
    var w1, w2 := StripDecompose(rest);
    i, j, m := n, n + |w1|, n + |w1| + |core|;
    ThreeSlices(l, i, j, m, w1, core, w2);
    NumberingShape(l);
  }

  lemma ThreeSlices(l: string, i: nat, j: nat, m: nat, a: string, b: string, c: string)
    requires i <= |l| && l[i..] == a + b + c
    requires j == i + |a| && m == j + |b|
    ensures m <= |l|
    ensures l[i..j] == a && l[j..m] == b && l[m..] == c
  {
    var s := l[i..];
    assert l[i..j] == s[..|a|];
    assert l[j..m] == s[|a|..|a| + |b|];
    assert l[m..] == s[|a| + |b|..];
  }

  /** What the scanner reads off is a numbering in the pattern's sense. */
  lemma NumberingShape(l: string)
    ensures IsNumbering(l[..NumberingLength(l)])
  {
    var n := NumberingLength(l);
    if n > 0 {
      assert l[..n][..n - 1] == l[..n - 1];
      assert l[..n][n - 1] == l[n - 1] == '.';
    }
  }

  /** The scanner's test is `SECTION_PATTERN.match`, both ways. */
  lemma HeadingIffPattern(l: string)
    ensures IsKeyword(Strip(l[NumberingLength(l)..])) <==> MatchesPattern(l)
  {
    if IsKeyword(Strip(l[NumberingLength(l)..])) {
      var i, j, m := HeadingImpliesPattern(l);
    }
    if MatchesPattern(l) {
      var i, j, m :| 0 <= i <= j <= m <= |l|
        && IsNumbering(l[..i]) && AllSpace(l[i..j])
        && IsKeyword(l[j..m]) && AllSpace(l[m..]);
      PatternImpliesHeading(l, i, j, m);
    }
  }

  /** "unknown" is not itself a heading, so it names only the first record. */
  lemma UnknownNotHeading()
    ensures !IsHeading(Unknown)
  {
    UnknownUnnumbered();
    StripOfStripped(Unknown);
    UnknownNotKeyword();
  }

  lemma UnknownUnnumbered()
    ensures NumberingLength(Unknown) == 0
  {
    assert Unknown[0] == 'u';
  }

  lemma UnknownNotKeyword()
    ensures !IsKeyword(Unknown)
  {
    assert UpperString(Unknown) == "UNKNOWN";
  }

  lemma EmptyNotHeading()
    ensures !IsHeading("")
  {
    KeywordShape();
  }

  // ---------------------------------------------------------------------
  // Splitting into sections

  /** One record of `split_by_sections`: `{"section": name, "text": text}`. */
  datatype Section = Section(name: string, text: string)

  /** The loop state: the records so far, the running section's name and
      the lines buffered for it. */
  datatype Scan = Scan(sections: seq<Section>, current: string, buffer: string)

  const Start: Scan := Scan([], Unknown, "")

  /** `if buffer.strip(): sections.append(...)`: close the running section
      unless its buffer is blank. */
  function Flush(st: Scan): (r: seq<Section>)
    ensures st.sections <= r
    ensures |r| <= |st.sections| + 1
    ensures |r| == |st.sections| + 1 <==> Strip(st.buffer) != ""
    ensures |r| == |st.sections| + 1 ==> r[|st.sections|] == Section(st.current, Strip(st.buffer))
  {
    if Strip(st.buffer) != "" then st.sections + [Section(st.current, Strip(st.buffer))]
    else st.sections
  }

  /** One iteration of the loop over the lines: records are only ever
      appended, one exactly when a heading line meets a non-blank buffer,
      and that one carries the running name and the stripped buffer. */
  function Feed(st: Scan, line: string): (r: Scan)
    ensures st.sections <= r.sections
    ensures |r.sections| <= |st.sections| + 1
    ensures |r.sections| == |st.sections| + 1 <==> IsHeading(Strip(line)) && Strip(st.buffer) != ""
    ensures |r.sections| == |st.sections| + 1 ==> r.sections[|st.sections|] == Section(st.current, Strip(st.buffer))
  {
    var l := Strip(line);
    if IsHeading(l) then Scan(Flush(st), l, "")
    else Scan(st.sections, st.current, st.buffer + line + "\n")
  }

  /** The loop run over `lines` from state `st`: the records already made
      are kept, and each line adds at most one. */
  function ScanFrom(st: Scan, lines: seq<string>): (r: Scan)
    ensures st.sections <= r.sections
    ensures |r.sections| <= |st.sections| + |lines|
    decreases |lines|
  {
    if |lines| == 0 then st else Feed(ScanFrom(st, Init(lines)), Last(lines))
  }

  /** No line of `t`, stripped, is a heading. */
  predicate NoHeadingLine(t: string) {
    NoHeadingIn(SplitOn(t, '\n'))
  }

  predicate NoHeadingIn(ls: seq<string>) {
    forall q :: 0 <= q < |ls| ==> !IsHeading(Strip(ls[q]))
  }

  /** What the `k`-th record of the result satisfies: its text is stripped,
      non-empty and free of heading lines; it is named "unknown" only in
      first place and otherwise by a stripped heading line. */
  predicate SectionOk(s: Section, k: nat) {
    && s.text != "" && IsStripped(s.text) && NoHeadingLine(s.text)
    && ((k == 0 && s.name == Unknown) || (IsHeading(s.name) && IsStripped(s.name)))
  }

  /** `split_by_sections(text)`. */
  function SplitSections(text: string): (r: seq<Section>)
    ensures forall k :: 0 <= k < |r| ==> SectionOk(r[k], k)
  {
    var lines := SplitOn(text, '\n');
    StartOk();
    ScanKeepsOk(Start, lines);
    FlushOk(ScanFrom(Start, lines));
    Flush(ScanFrom(Start, lines))
  }

  // ---------------------------------------------------------------------
  // The loop invariant

  /** Between iterations: the records are well formed, "unknown" is running
      only while no record exists, the buffer ends with a line break and
      holds no heading line. */
  predicate ScanOk(st: Scan) {
    && (forall k :: 0 <= k < |st.sections| ==> SectionOk(st.sections[k], k))
    && (st.current == Unknown ==> st.sections == [])
    && (st.current != Unknown ==> IsHeading(st.current) && IsStripped(st.current))
    && Last(SplitOn(st.buffer, '\n')) == ""
    && NoHeadingLine(st.buffer)
  }

  lemma EmptyLines()
    ensures SplitOn("", '\n') == [""]
    ensures !IsHeading(Strip(""))
    ensures NoHeadingLine("")
  {
    SplitOnWhole("", '\n');
    EmptyNotHeading();
  }

  lemma StartOk()
    ensures ScanOk(Start)
  {
    EmptyLines();
  }

  /** Stripping text keeps it free of heading lines. */
  lemma StripNoHeading(b: string)
    requires NoHeadingLine(b)
    ensures NoHeadingLine(Strip(b))
  {
    forall q | 0 <= q < |SplitOn(Strip(b), '\n')|
      ensures !IsHeading(Strip(SplitOn(Strip(b), '\n')[q]))
    {
      var q' := StripLines(b, q);
    }
  }

  lemma FlushOk(st: Scan)
    requires ScanOk(st)
    ensures forall k :: 0 <= k < |Flush(st)| ==> SectionOk(Flush(st)[k], k)
  {
    if Strip(st.buffer) != "" {
      StripNoHeading(st.buffer);
      assert SectionOk(Section(st.current, Strip(st.buffer)), |st.sections|);
    }
  }

  /** A line without a break appended to a buffer ending in one becomes the
      buffer's last full line. */
  lemma AppendLine(b: string, line: string)
    requires '\n' !in line && Last(SplitOn(b, '\n')) == ""
    ensures SplitOn(b + line + "\n", '\n') == Init(SplitOn(b, '\n')) + [line, ""]
  {
    var P := SplitOn(b, '\n');
    var x := line + "\n";
    assert b + line + "\n" == b + x;
    LineBreakSplit(line);
    SplitConcat(b, x, '\n');
    FuseEmpty(Init(P), Last(P), SplitOn(x, '\n'), line);
  }

  lemma FuseEmpty(I: seq<string>, e: string, L: seq<string>, line: string)
    requires e == "" && L == [line, ""]
    ensures I + [e + L[0]] + L[1..] == I + [line, ""]
  {
    assert e + L[0] == line;
  }

  /** A line and its break split into the line and an empty tail. */
  lemma LineBreakSplit(line: string)
    requires '\n' !in line
    ensures SplitOn(line + "\n", '\n') == [line, ""]
  {
    assert line + "\n" == line + ['\n'] + "";
    SplitOnSep(line, "", '\n');
    SplitOnWhole("", '\n');
  }

  lemma FeedOk(st: Scan, line: string)
    requires ScanOk(st) && '\n' !in line
    ensures ScanOk(Feed(st, line))
  {
    if IsHeading(Strip(line)) {
      FeedHeadingOk(st, Strip(line));
    } else {
      FeedLineOk(st, line);
    }
  }

  lemma FeedHeadingOk(st: Scan, l: string)
    requires ScanOk(st) && IsHeading(l) && IsStripped(l)
    ensures ScanOk(Scan(Flush(st), l, ""))
  {
    FlushOk(st);
    UnknownNotHeading();
    EmptyLines();
  }

  lemma FeedLineOk(st: Scan, line: string)
    requires ScanOk(st) && '\n' !in line && !IsHeading(Strip(line))
    ensures ScanOk(Scan(st.sections, st.current, st.buffer + line + "\n"))
  {
    BufferLine(st.buffer, line);
  }

  /** Buffering a non-heading line keeps the buffer's shape. */
  lemma BufferLine(b: string, line: string)
    requires Last(SplitOn(b, '\n')) == "" && NoHeadingLine(b)
    requires '\n' !in line && !IsHeading(Strip(line))
    ensures Last(SplitOn(b + line + "\n", '\n')) == ""
    ensures NoHeadingLine(b + line + "\n")
  {
    AppendLine(b, line);
    EmptyLines();
    NoHeadingExtend(SplitOn(b, '\n'), line);
  }

  lemma NoHeadingExtend(B: seq<string>, line: string)
    requires |B| > 0 && NoHeadingIn(B) && !IsHeading(Strip(line)) && !IsHeading(Strip(""))
    ensures NoHeadingIn(Init(B) + [line, ""])
  {
    var B' := Init(B) + [line, ""];
    forall q | 0 <= q < |B'| ensures !IsHeading(Strip(B'[q])) {
      if q < |B| - 1 {
        assert B'[q] == B[q];
      } else if q == |B| - 1 {
        assert B'[q] == line;
      } else {
        assert B'[q] == "";
      }
    }
  }

  lemma {:induction false} ScanKeepsOk(st: Scan, lines: seq<string>)
    requires ScanOk(st)
    requires forall q :: 0 <= q < |lines| ==> '\n' !in lines[q]
    ensures ScanOk(ScanFrom(st, lines))
    decreases |lines|
  {
    if |lines| > 0 {
      ScanKeepsOk(st, Init(lines));
      FeedOk(ScanFrom(st, Init(lines)), Last(lines));
    }
  }

  // ---------------------------------------------------------------------
  // What the records are

  /** Running the loop over two batches of lines is running it over both. */
  lemma {:induction false} ScanConcat(st: Scan, a: seq<string>, b: seq<string>)
    ensures ScanFrom(st, a + b) == ScanFrom(ScanFrom(st, a), b)
    decreases |b|
  {
    if |b| == 0 {
      assert a + b == a;
    } else {
      assert Init(a + b) == a + Init(b);
      assert Last(a + b) == Last(b);
      ScanConcat(st, a, Init(b));
    }
  }

  lemma FeedPlain(st: Scan, line: string)
    requires !IsHeading(Strip(line))
    ensures Feed(st, line) == Scan(st.sections, st.current, st.buffer + line + "\n")
  {
  }

  lemma FeedHeading(st: Scan, line: string)
    requires IsHeading(Strip(line))
    ensures Feed(st, line) == Scan(Flush(st), Strip(line), "")
  {
  }

  /** Lines none of which is a heading only grow the buffer, each followed
      by a line break. */
  lemma {:induction false} ScanPlain(st: Scan, lines: seq<string>)
    requires |lines| > 0 && NoHeadingIn(lines)
    ensures ScanFrom(st, lines) == Scan(st.sections, st.current, st.buffer + Join(lines, '\n') + "\n")
    decreases |lines|
  {
    var p := Init(lines);
    var x := Last(lines);
    assert !IsHeading(Strip(x));
    if |lines| == 1 {
      assert ScanFrom(st, p) == st;
      FeedPlain(st, x);
      assert Join(lines, '\n') == x;
    } else {
      assert NoHeadingIn(p) by {
        assert forall q :: 0 <= q < |p| ==> p[q] == lines[q];
      }
      ScanPlain(st, p);
      var mid := ScanFrom(st, p);
      FeedPlain(mid, x);
      BufferJoin(st.buffer, lines);
    }
  }

  lemma BufferJoin(b: string, lines: seq<string>)
    requires |lines| > 1
    ensures b + Join(Init(lines), '\n') + "\n" + Last(lines) + "\n" == b + Join(lines, '\n') + "\n"
  {
    var p, x := Init(lines), Last(lines);
    assert p + [x] == lines;
    JoinAppend(p, x, '\n');
    Assoc(b, Join(p, '\n'), x);
  }

  lemma Assoc(b: string, j: string, x: string)
    ensures b + j + "\n" + x + "\n" == b + (j + ['\n'] + x) + "\n"
  {
  }

  /** The lines of `a + "\n" + b` are those of `a` followed by those of `b`. */
  lemma SplitAtNewline(a: string, b: string)
    ensures SplitOn(a + "\n" + b, '\n') == SplitOn(a, '\n') + SplitOn(b, '\n')
  {
    assert a + "\n" + b == a + ("\n" + b);
    SplitOnCut("\n" + b, '\n', 0);
    assert ("\n" + b)[..0] == "";
    assert ("\n" + b)[1..] == b;
    SplitConcat(a, "\n" + b, '\n');
    var P := SplitOn(a, '\n');
    assert Last(P) + "" == Last(P);
    assert Init(P) + [Last(P)] == P;
  }

  /** Text without a heading line is buffered whole, with a line break. */
  lemma ScanBody(st: Scan, body: string)
    requires NoHeadingLine(body)
    ensures ScanFrom(st, SplitOn(body, '\n')) == Scan(st.sections, st.current, st.buffer + body + "\n")
  {
    ScanPlain(st, SplitOn(body, '\n'));
    JoinSplit(body, '\n');
  }

  /** Closing a section whose buffer is `t` and a line break. */
  lemma FlushBuffer(sections: seq<Section>, name: string, t: string)
    ensures Flush(Scan(sections, name, "" + t + "\n"))
      == if Strip(t) == "" then sections else sections + [Section(name, Strip(t))]
  {
    assert "" + t + "\n" == t + "\n";
    StripAppendSpace(t, "\n");
  }

  /** A heading line closes the running section and starts an empty one. */
  lemma ScanHeading(st: Scan, lines: seq<string>, h: string)
    requires IsHeading(Strip(h))
    ensures ScanFrom(st, lines + [h]) == Scan(Flush(ScanFrom(st, lines)), Strip(h), "")
  {
    assert Init(lines + [h]) == lines;
    assert Last(lines + [h]) == h;
    FeedHeading(ScanFrom(st, lines), h);
  }

  /** Text without a heading line is one record named "unknown", or none
      when it is blank. */
  lemma NoHeadingOneSection(text: string)
    requires NoHeadingLine(text)
    ensures SplitSections(text) == if Strip(text) == "" then [] else [Section(Unknown, Strip(text))]
  {
    ScanBody(Start, text);
    FlushBuffer([], Unknown, text);
  }

  /** The lines around a heading line. */
  lemma LinesAround(pre: string, h: string, body: string)
    requires '\n' !in h
    ensures SplitOn(pre + "\n" + h + "\n" + body, '\n')
      == (SplitOn(pre, '\n') + [h]) + SplitOn(body, '\n')
  {
    var s := h + "\n" + body;
    var P, B := SplitOn(pre, '\n'), SplitOn(body, '\n');
    assert pre + "\n" + h + "\n" + body == pre + "\n" + s;
    SplitAtNewline(pre, s);
    assert SplitOn(s, '\n') == [h] + B by {
      SplitOnWhole(h, '\n');
      SplitAtNewline(h, body);
    }
    assert P + ([h] + B) == (P + [h]) + B;
  }

  /** A heading line closes the records of the text before it and opens a
      record of its own, named by the stripped line, holding the stripped
      text after it; a heading followed only by blank text leaves no
      record. */
  lemma HeadingOpensSection(pre: string, h: string, body: string)
    requires '\n' !in h && IsHeading(Strip(h))
    requires NoHeadingLine(body)
    ensures SplitSections(pre + "\n" + h + "\n" + body)
      == SplitSections(pre)
         + (if Strip(body) == "" then [] else [Section(Strip(h), Strip(body))])
  {
    var P := SplitOn(pre, '\n');
    var B := SplitOn(body, '\n');
    LinesAround(pre, h, body);
    ScanConcat(Start, P + [h], B);
    ScanHeading(Start, P, h);
    var begun := Scan(SplitSections(pre), Strip(h), "");
    ScanBody(begun, body);
    FlushBuffer(SplitSections(pre), Strip(h), body);
  }

  /** A heading on the first line opens the first record. */
  lemma HeadingFirst(h: string, body: string)
    requires '\n' !in h && IsHeading(Strip(h))
    requires NoHeadingLine(body)
    ensures SplitSections(h + "\n" + body)
      == if Strip(body) == "" then [] else [Section(Strip(h), Strip(body))]
  {
    var B := SplitOn(body, '\n');
    SplitOnWhole(h, '\n');
    SplitAtNewline(h, body);
    ScanConcat(Start, [h], B);
    ScanHeading(Start, [], h);
    EmptyLines();
    assert [] + [h] == [h];
    var begun := Scan([], Strip(h), "");
    ScanBody(begun, body);
    FlushBuffer([], Strip(h), body);
  }

  /** A heading on the last line closes the records before it and adds
      none of its own. */
  lemma HeadingLast(pre: string, h: string)
    requires '\n' !in h && IsHeading(Strip(h))
    ensures SplitSections(pre + "\n" + h) == SplitSections(pre)
  {
    var P := SplitOn(pre, '\n');
    SplitOnWhole(h, '\n');
    SplitAtNewline(pre, h);
    ScanHeading(Start, P, h);
    EmptyLines();
  }

  /** A numbered heading between two paragraphs. */
  lemma SectionsExample(pre: string, h: string, body: string)
    requires pre == "Intro" && h == "3. RESULTS" && body == "Good"
    ensures SplitSections(pre + "\n" + h + "\n" + body)
      == [Section(Unknown, pre), Section(h, body)]
  {
    IntroPlain(pre);
    GoodPlain(body);
    ResultsHeading(h);
    TwoSections(pre, h, body);
  }

  /** A paragraph, a heading line and a paragraph make two records: the
      first named "unknown", the second by the heading. */
  lemma TwoSections(pre: string, h: string, body: string)
    requires NoHeadingLine(pre) && Strip(pre) != ""
    requires '\n' !in h && IsHeading(Strip(h))
    requires NoHeadingLine(body) && Strip(body) != ""
    ensures SplitSections(pre + "\n" + h + "\n" + body)
      == [Section(Unknown, Strip(pre)), Section(Strip(h), Strip(body))]
  {
    NoHeadingOneSection(pre);
    HeadingOpensSection(pre, h, body);
    ThenOne(SplitSections(pre), SplitSections(pre + "\n" + h + "\n" + body),
      Section(Unknown, Strip(pre)), Section(Strip(h), Strip(body)), Strip(body) == "");
  }

  lemma ThenOne<T>(xs: seq<T>, ys: seq<T>, a: T, b: T, blank: bool)
    requires xs == [a] && !blank
    requires ys == xs + (if blank then [] else [b])
    ensures ys == [a, b]
  {
  }

  lemma ResultsHeading(h: string)
    requires h == "3. RESULTS"
    ensures IsHeading(h) && Strip(h) == h && '\n' !in h
  {
    ResultsParts(h);
    ResultsKeyword(h[3..10]);
    PatternImpliesHeading(h, 2, 3, 10);
    StripOfStripped(h);
  }

  lemma ResultsParts(h: string)
    requires h == "3. RESULTS"
    ensures |h| == 10 && h[3..10] == "RESULTS"
    ensures IsNumbering(h[..2]) && AllSpace(h[2..3]) && AllSpace(h[10..])
    ensures IsStripped(h) && '\n' !in h
  {
    assert h[..2] == "3." && h[2..3] == " " && h[10..] == "";
  }

  lemma ResultsKeyword(k: string)
    requires k == "RESULTS"
    ensures IsKeyword(k)
  {
    UpperIdentity(k);
    assert Keywords[14] == k;
  }

  lemma UpperIdentity(s: string)
    requires forall i :: 0 <= i < |s| ==> !('a' <= s[i] <= 'z')
    ensures UpperString(s) == s
  {
  }

  lemma IntroPlain(w: string)
    requires w == "Intro"
    ensures NoHeadingLine(w) && Strip(w) == w && Strip(w) != ""
  {
    assert UpperString(w) == "INTRO";
    PlainWord(w);
  }

  lemma GoodPlain(w: string)
    requires w == "Good"
    ensures NoHeadingLine(w) && Strip(w) == w && Strip(w) != ""
  {
    assert UpperString(w) == "GOOD";
    PlainWord(w);
  }

  /** A one-line text that is not a heading. */
  lemma PlainWord(w: string)
    requires |w| > 0 && IsStripped(w) && '\n' !in w && '.' !in w
    requires !IsKeyword(w)
    ensures NoHeadingLine(w) && Strip(w) == w
  {
    SplitOnWhole(w, '\n');
    StripOfStripped(w);
    NumberingFound(w, 0);
  }
}
