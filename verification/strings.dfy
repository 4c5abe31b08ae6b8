/**
 The subset of Python's `str` behaviour that the extraction pipeline relies on:
 the whitespace class, `split(sep)`, `sep.join(parts)`, `strip()` and the
 argument-less `split()` that yields words.
 */
module Strings {

  /** Python's whitespace class (`str.isspace`, regex `\s`), restricted to
      the ASCII and Latin-1 code points. */
  predicate IsSpace(c: char) {
    c == ' ' || ('\t' <= c <= '\r') || ('\U{1C}' <= c <= '\U{1F}')
    || c == '\U{85}' || c == '\U{A0}'
  }

  predicate NonSpace(c: char) {
    !IsSpace(c)
  }

  /** The predicate "is not `c`", as a value. */
  function Other(c: char): char -> bool {
    x => x != c
  }

  predicate All(s: string, p: char -> bool) {
    forall i :: 0 <= i < |s| ==> p(s[i])
  }

  /** `All(s, IsSpace)` written without a function value. The whitespace
      proofs use this first-order form, which the solver handles far more
      cheaply; the two unfold to the same quantifier. */
  predicate AllSpace(s: string) {
    forall i :: 0 <= i < |s| ==> IsSpace(s[i])
  }

  /** A string with no whitespace at either end, as `str.strip()` leaves it. */
  predicate IsStripped(s: string) {
    s == [] || (!IsSpace(s[0]) && !IsSpace(s[|s| - 1]))
  }

  /** Length of the longest prefix of `s` whose characters satisfy `p`. */
  function Span(s: string, p: char -> bool): (k: nat)
    ensures k <= |s|
    ensures forall i :: 0 <= i < k ==> p(s[i])
    ensures k == |s| || !p(s[k])
  {
    if |s| > 0 && p(s[0]) then 1 + Span(s[1..], p) else 0
  }

  /** Start of the longest suffix of `s` whose characters satisfy `p`. */
  function TrailStart(s: string, p: char -> bool): (k: nat)
    ensures k <= |s|
    ensures forall i :: k <= i < |s| ==> p(s[i])
    ensures k == 0 || !p(s[k - 1])
  {
    if |s| > 0 && p(s[|s| - 1]) then TrailStart(s[..|s| - 1], p) else |s|
  }

  /** Python's `s.strip()` over the whitespace class above. */
  function Strip(s: string): (r: string)
    ensures IsStripped(r)
    ensures |r| <= |s|
  {
    var a := Span(s, IsSpace);
    var t := s[a..];
    t[..TrailStart(t, IsSpace)]
  }

  /** Python's `s.split(c)`: the maximal `c`-free pieces between the
      occurrences of `c`, always at least one. */
  function SplitOn(s: string, c: char): (parts: seq<string>)
    ensures |parts| >= 1
    ensures forall i :: 0 <= i < |parts| ==> c !in parts[i]
    decreases |s|
  {
    var k := Span(s, Other(c));
    assert forall i :: 0 <= i < k ==> s[..k][i] != c;
    if k == |s| then [s] else [s[..k]] + SplitOn(s[k + 1..], c)
  }

  /** Python's `c.join(parts)`. */
  function Join(parts: seq<string>, c: char): string {
    if |parts| == 0 then ""
    else if |parts| == 1 then parts[0]
    else parts[0] + [c] + Join(parts[1..], c)
  }

  /** A word of `str.split()`: non-empty and free of whitespace. */
  predicate IsWord(w: string) {
    w != [] && forall i :: 0 <= i < |w| ==> !IsSpace(w[i])
  }

  /** Python's argument-less `s.split()`: the maximal runs of non-whitespace. */
  function Words(s: string): (ws: seq<string>)
    ensures forall i :: 0 <= i < |ws| ==> IsWord(ws[i])
    ensures AllSpace(s) <==> ws == []
    decreases |s|
  {
    var a := Span(s, IsSpace);
    if a == |s| then
      SpaceRun(s);
      []
    else
      var t := s[a..];
      var k := Span(t, NonSpace);
      var rest := Words(t[k..]);
      WordRun(s, a);
      AllWords(t[..k], rest);
      [t[..k]] + rest
  }

  lemma AllWords(w: string, ws: seq<string>)
    requires IsWord(w) && forall i :: 0 <= i < |ws| ==> IsWord(ws[i])
    ensures forall i :: 0 <= i < |[w] + ws| ==> IsWord(([w] + ws)[i])
  {
  }

  lemma SpaceRun(s: string)
    requires Span(s, IsSpace) == |s|
    ensures AllSpace(s)
  {
  }

  /** Past the leading whitespace, the non-whitespace run is a word. */
  lemma WordRun(s: string, a: nat)
    requires a == Span(s, IsSpace) && a < |s|
    ensures !AllSpace(s)
    ensures IsWord(s[a..][..Span(s[a..], NonSpace)])
  {
    var t := s[a..];
    assert t[0] == s[a];
    var k := Span(t, NonSpace);
    var w := t[..k];
    assert forall i :: 0 <= i < k ==> w[i] == t[i];
  }

  // ---------------------------------------------------------------------
  // Strip

  /** `Strip` is characterised by its result alone: whatever stripped core
      sits between two whitespace runs is what `Strip` returns. */
  lemma {:induction false} StripUnique(w1: string, r: string, w2: string)
    requires AllSpace(w1) && AllSpace(w2) && IsStripped(r)
    ensures Strip(w1 + r + w2) == r
  {
    var s := w1 + r + w2;
    if r == [] {
      assert AllSpace(s) by {
        forall i | 0 <= i < |s| ensures IsSpace(s[i]) {
          if i < |w1| { assert s[i] == w1[i]; } else { assert s[i] == w2[i - |w1|]; }
        }
      }
      SpanAll(s, IsSpace);
    } else {
      SpanPrefix(w1, r + w2, IsSpace);
      assert s == w1 + (r + w2);
      var t := s[|w1|..];
      assert t == r + w2;
      TrailSuffix(r, w2, IsSpace);
    }
  }

  lemma {:induction false} SpanAll(s: string, p: char -> bool)
    requires All(s, p)
    ensures Span(s, p) == |s|
  {
  }

  /** A `p`-run followed by a character outside `p` has exactly that span. */
  lemma SpanPrefix(w: string, rest: string, p: char -> bool)
    requires All(w, p)
    requires rest != [] && !p(rest[0])
    ensures Span(w + rest, p) == |w|
  {
    var s := w + rest;
    assert forall i :: 0 <= i < |w| ==> s[i] == w[i];
    assert s[|w|] == rest[0];
  }

  lemma TrailSuffix(r: string, w: string, p: char -> bool)
    requires All(w, p)
    requires r != [] && !p(r[|r| - 1])
    ensures TrailStart(r + w, p) == |r|
    ensures (r + w)[..|r|] == r
  {
    var s := r + w;
    assert forall i :: |r| <= i < |s| ==> s[i] == w[i - |r|];
    assert s[|r| - 1] == r[|r| - 1];
  }

  /** The whitespace `Strip` removes: `s` is the result padded by two
      whitespace runs. */
  lemma StripDecompose(s: string) returns (w1: string, w2: string)
    ensures AllSpace(w1) && AllSpace(w2)
    ensures s == w1 + Strip(s) + w2
  {
    var a := Span(s, IsSpace);
    var t := s[a..];
    var b := TrailStart(t, IsSpace);
    w1 := s[..a];
    w2 := t[b..];
    LeadRun(s, a);
    TrailRun(t, b);
    ThreeParts(s, a, b);
  }

  lemma LeadRun(s: string, a: nat)
    requires a == Span(s, IsSpace)
    ensures AllSpace(s[..a])
  {
    assert forall i :: 0 <= i < a ==> s[..a][i] == s[i];
  }

  lemma TrailRun(t: string, b: nat)
    requires b == TrailStart(t, IsSpace)
    ensures AllSpace(t[b..])
  {
    assert forall i :: 0 <= i < |t| - b ==> t[b..][i] == t[b + i];
  }

  /** A sequence cut at `a`, and its rest cut at `b`, is the three pieces. */
  lemma ThreeParts<T>(s: seq<T>, a: nat, b: nat)
    requires a <= |s| && b <= |s| - a
    ensures s == s[..a] + s[a..][..b] + s[a..][b..]
  {
    assert s[a..] == s[a..][..b] + s[a..][b..];
    assert s == s[..a] + s[a..];
  }

  /** A stripped string is its own strip. */
  lemma StripOfStripped(s: string)
    requires IsStripped(s)
    ensures Strip(s) == s
  {
    StripUnique([], s, []);
    assert [] + s + [] == s;
  }

  /** Appending whitespace does not change the strip. */
  lemma StripAppendSpace(s: string, w: string)
    requires AllSpace(w)
    ensures Strip(s + w) == Strip(s)
  {
    var w1, w2 := StripDecompose(s);
    var r := Strip(s);
    assert s + w == w1 + r + (w2 + w);
    StripUnique(w1, r, w2 + w);
  }

  // ---------------------------------------------------------------------
  // Split and join

  /** `c.join(s.split(c)) == s`. */
  lemma {:induction false} JoinSplit(s: string, c: char)
    ensures Join(SplitOn(s, c), c) == s
    decreases |s|
  {
    var k := Span(s, Other(c));
    if k < |s| {
      var rest := SplitOn(s[k + 1..], c);
      JoinSplit(s[k + 1..], c);
      SplitOnCut(s, c, k);
      JoinCons(s[..k], rest, c);
      CutAround(s, k);
    } else {
      SplitOnWhole(s, c);
    }
  }

  lemma JoinCons(h: string, rest: seq<string>, c: char)
    requires |rest| >= 1
    ensures Join([h] + rest, c) == h + [c] + Join(rest, c)
  {
    assert ([h] + rest)[1..] == rest;
  }

  lemma CutAround<T>(s: seq<T>, k: nat)
    requires k < |s|
    ensures s == s[..k] + [s[k]] + s[k + 1..]
  {
  }

  /** `c.join(ps).split(c) == ps` when no piece contains the separator. */
  lemma {:induction false} SplitJoin(ps: seq<string>, c: char)
    requires |ps| >= 1
    requires forall i :: 0 <= i < |ps| ==> c !in ps[i]
    ensures SplitOn(Join(ps, c), c) == ps
  {
    if |ps| == 1 {
      assert All(ps[0], Other(c));
      SpanAll(ps[0], Other(c));
    } else {
      SplitOnSep(ps[0], Join(ps[1..], c), c);
      SplitJoin(ps[1..], c);
      assert ps == [ps[0]] + ps[1..];
    }
  }

  /** A separator-free piece followed by the separator is the first piece. */
  lemma SplitOnSep(a: string, b: string, c: char)
    requires c !in a
    ensures SplitOn(a + [c] + b, c) == [a] + SplitOn(b, c)
  {
    var s := a + [c] + b;
    assert All(a, Other(c));
    assert s == a + ([c] + b);
    SpanPrefix(a, [c] + b, Other(c));
    SplitOnCut(s, c, |a|);
    assert s[..|a|] == a;
    assert s[|a| + 1..] == b;
  }

  /** Joining a prefix of the pieces is a prefix of joining them all. */
  lemma {:induction false} JoinAppend(ps: seq<string>, q: string, c: char)
    requires |ps| >= 1
    ensures Join(ps + [q], c) == Join(ps, c) + [c] + q
  {
    if |ps| == 1 {
    } else {
      assert (ps + [q])[1..] == ps[1..] + [q];
      JoinAppend(ps[1..], q, c);
    }
  }

  // ---------------------------------------------------------------------
  // Words

  /** `" ".join(ws).split() == ws` for any list of words. */
  lemma {:induction false} WordsJoin(ws: seq<string>)
    requires forall i :: 0 <= i < |ws| ==> IsWord(ws[i])
    ensures Words(Join(ws, ' ')) == ws
  {
    if |ws| == 1 {
      WordsCons(ws[0], []);
      assert ws[0] + [] == ws[0];
    } else if |ws| > 1 {
      var t := Join(ws[1..], ' ');
      assert Join(ws, ' ') == ws[0] + [' '] + t;
      assert forall i :: 0 <= i < |ws| - 1 ==> ws[1..][i] == ws[i + 1];
      WordsJoin(ws[1..]);
      WordsSep(ws[0], t);
      assert ws == [ws[0]] + ws[1..];
    }
  }

  /** A word and a space in front of some text add that word in front of
      its words. */
  lemma WordsSep(w: string, t: string)
    requires IsWord(w)
    ensures Words(w + [' '] + t) == [w] + Words(t)
  {
    assert w + [' '] + t == w + ([' '] + t);
    WordsCons(w, [' '] + t);
    assert AllSpace([' ']);
    WordsSpacePrefix([' '], t);
  }

  /** A word followed by whitespace (or nothing) is the first word. */
  lemma WordsCons(w: string, rest: string)
    requires IsWord(w)
    requires rest == [] || IsSpace(rest[0])
    ensures Words(w + rest) == [w] + Words(rest)
  {
    var s := w + rest;
    assert s[0] == w[0];
    assert Span(s, IsSpace) == 0;
    assert s[0..] == s;
    assert All(w, NonSpace);
    if rest == [] {
      assert s == w;
      SpanAll(w, NonSpace);
    } else {
      SpanPrefix(w, rest, NonSpace);
    }
    assert s[..|w|] == w;
    assert s[|w|..] == rest;
  }

  /** Words joined by spaces neither start nor end with whitespace. */
  lemma {:induction false} JoinWordsStripped(ws: seq<string>)
    requires |ws| > 0
    requires forall i :: 0 <= i < |ws| ==> IsWord(ws[i])
    ensures |Join(ws, ' ')| > 0 && IsStripped(Join(ws, ' '))
  {
    if |ws| > 1 {
      var tail := Join(ws[1..], ' ');
      JoinWordsStripped(ws[1..]);
      var s := ws[0] + [' '] + tail;
      assert s[0] == ws[0][0];
      assert s[|s| - 1] == tail[|tail| - 1];
    }
  }

  /** A single word splits to itself. */
  lemma WordsOfWord(w: string)
    requires IsWord(w)
    ensures Words(w) == [w]
  {
    WordsCons(w, []);
    assert w + [] == w;
  }

  /** Leading whitespace does not change the words. */
  lemma WordsSpacePrefix(w: string, b: string)
    requires AllSpace(w)
    ensures Words(w + b) == Words(b)
  {
    var s := w + b;
    assert All(w, IsSpace);
    SpanConcatAll(w, b, IsSpace);
    var k := Span(b, IsSpace);
    assert Span(s, IsSpace) == |w| + k;
    assert s[Span(s, IsSpace)..] == b[Span(b, IsSpace)..];
    WordsAfterLead(s);
    WordsAfterLead(b);
    assert Words(s) == Words(b[k..]);
  }

  /** The words of a string are the words past its leading whitespace. */
  lemma WordsAfterLead(s: string)
    ensures Words(s) == Words(s[Span(s, IsSpace)..])
  {
    var a := Span(s, IsSpace);
    var u := s[a..];
    if a < |s| {
      assert u[0] == s[a];
      assert Span(u, IsSpace) == 0;
      assert u[0..] == u;
    }
  }

  /** Trailing whitespace does not change the words. */
  lemma WordsSpaceSuffix(a: string, w: string)
    requires AllSpace(w)
    ensures Words(a + w) == Words(a)
  {
    if w != [] {
      WordsSplit(a, w, []);
      assert a + w + [] == a + w;
    } else {
      assert a + w == a;
    }
  }

  /** `str.split()` ignores the whitespace around the stripped text. */
  lemma WordsStrip(s: string)
    ensures Words(Strip(s)) == Words(s)
  {
    var w1, w2 := StripDecompose(s);
    var r := Strip(s);
    assert s == w1 + (r + w2);
    WordsSpacePrefix(w1, r + w2);
    WordsSpaceSuffix(r, w2);
  }

  /** Replacing one whitespace run by another in front of text with the
      same words does not change the words. */
  lemma WordsSwapSpace(p: string, x: string, h1: string, r1: string, y: string, h2: string, r2: string)
    requires x == h1 + r1 && y == h2 + r2
    requires h1 != [] && AllSpace(h1) && h2 != [] && AllSpace(h2)
    requires Words(r1) == Words(r2)
    ensures Words(p + x) == Words(p + y)
  {
    WordsSplit(p, h1, r1);
    WordsSplit(p, h2, r2);
    Assoc(p, h1, r1);
    Assoc(p, h2, r2);
  }

  /** A string with a word in it starts with whitespace, its first word,
      and a rest that is empty or starts with whitespace. */
  lemma FirstWord(a: string) returns (lead: string, word: string, rest: string)
    requires !AllSpace(a)
    ensures a == lead + word + rest
    ensures AllSpace(lead) && IsWord(word)
    ensures rest == [] || IsSpace(rest[0])
    ensures |rest| < |a|
  {
    var k := Span(a, IsSpace);
    var t := a[k..];
    var m := Span(t, NonSpace);
    assert t[0] == a[k];
    lead, word, rest := a[..k], t[..m], t[m..];
    assert forall i :: 0 <= i < k ==> lead[i] == a[i];
    assert forall i :: 0 <= i < m ==> word[i] == t[i];
    ThreeParts(a, k, m);
  }

  /** A non-empty whitespace run is a word boundary wherever it sits:
      the words of `a + w + b` are those of `a` followed by those of `b`. */
  lemma {:induction false} WordsSplit(a: string, w: string, b: string)
    requires w != [] && AllSpace(w)
    ensures Words(a + w + b) == Words(a) + Words(b)
    decreases |a|
  {
    if AllSpace(a) {
      AllSpaceConcat(a, w);
      WordsSpacePrefix(a + w, b);
    } else {
      var lead, word, rest := FirstWord(a);
      WordsSplit(rest, w, b);
      WordsSplitStep(lead, word, rest, w, b);
    }
  }

  /** The inductive step of `WordsSplit`: the first word of `a` is the first
      word of `a + w + b`. */
  lemma WordsSplitStep(lead: string, word: string, rest: string, w: string, b: string)
    requires AllSpace(lead) && IsWord(word)
    requires rest == [] || IsSpace(rest[0])
    requires w != [] && AllSpace(w)
    requires Words(rest + w + b) == Words(rest) + Words(b)
    ensures Words(lead + word + rest + w + b) == Words(lead + word + rest) + Words(b)
  {
    var tail := rest + w + b;
    assert IsSpace(tail[0]) by {
      assert tail[0] == if rest == [] then w[0] else rest[0];
    }
    Regroup(lead + word, rest, w, b);
    WordsFront(lead, word, rest);
    WordsFront(lead, word, tail);
    Assoc([word], Words(rest), Words(b));
  }

  lemma Regroup<T>(x: seq<T>, r: seq<T>, w: seq<T>, b: seq<T>)
    ensures x + r + w + b == x + (r + w + b)
  {
  }

  lemma Assoc<T>(x: seq<T>, y: seq<T>, z: seq<T>)
    ensures x + y + z == x + (y + z)
  {
  }

  /** Whitespace, a word, and a rest that starts a new word or is empty:
      the word comes first. */
  lemma WordsFront(lead: string, word: string, rest: string)
    requires AllSpace(lead) && IsWord(word)
    requires rest == [] || IsSpace(rest[0])
    ensures Words(lead + word + rest) == [word] + Words(rest)
  {
    assert lead + word + rest == lead + (word + rest);
    WordsSpacePrefix(lead, word + rest);
    WordsCons(word, rest);
  }

  // ---------------------------------------------------------------------
  // Lines of concatenations and of stripped text

  function Last<T>(xs: seq<T>): T
    requires |xs| > 0
  {
    xs[|xs| - 1]
  }

  function Init<T>(xs: seq<T>): seq<T>
    requires |xs| > 0
  {
    xs[..|xs| - 1]
  }

  /** A run that covers `a` continues into `b`. */
  lemma {:induction false} SpanConcatAll(a: string, b: string, p: char -> bool)
    requires All(a, p)
    ensures Span(a + b, p) == |a| + Span(b, p)
  {
    if |a| > 0 {
      assert (a + b)[0] == a[0];
      assert (a + b)[1..] == a[1..] + b;
      SpanConcatAll(a[1..], b, p);
    } else {
      assert a + b == b;
    }
  }

  /** A run that stops inside `a` stops at the same place in `a + b`. */
  lemma {:induction false} SpanConcatStops(a: string, b: string, p: char -> bool)
    requires Span(a, p) < |a|
    ensures Span(a + b, p) == Span(a, p)
  {
    assert (a + b)[0] == a[0];
    if p(a[0]) {
      assert (a + b)[1..] == a[1..] + b;
      SpanConcatStops(a[1..], b, p);
    }
  }

  lemma SplitOnCut(s: string, c: char, k: nat)
    requires k == Span(s, Other(c)) && k < |s|
    ensures SplitOn(s, c) == [s[..k]] + SplitOn(s[k + 1..], c)
  {
  }

  lemma SplitOnWhole(s: string, c: char)
    requires Span(s, Other(c)) == |s|
    ensures SplitOn(s, c) == [s]
  {
  }

  /** Splitting a concatenation: the last piece of `a` and the first piece
      of `b` fuse into one. */
  lemma {:induction false} SplitConcat(a: string, b: string, c: char)
    ensures SplitOn(a + b, c)
      == Init(SplitOn(a, c)) + [Last(SplitOn(a, c)) + SplitOn(b, c)[0]] + SplitOn(b, c)[1..]
    decreases |a|
  {
    var ka := Span(a, Other(c));
    if ka == |a| {
      SplitConcatFree(a, b, c);
    } else {
      SplitConcat(a[ka + 1..], b, c);
      SplitConcatCut(a, b, c, ka);
    }
  }

  /** The step of `SplitConcat` at the first separator of `a`. */
  lemma SplitConcatCut(a: string, b: string, c: char, ka: nat)
    requires ka == Span(a, Other(c)) && ka < |a|
    requires var P := SplitOn(a[ka + 1..], c); var B := SplitOn(b, c);
      SplitOn(a[ka + 1..] + b, c) == Init(P) + [Last(P) + B[0]] + B[1..]
    ensures SplitOn(a + b, c)
      == Init(SplitOn(a, c)) + [Last(SplitOn(a, c)) + SplitOn(b, c)[0]] + SplitOn(b, c)[1..]
  {
    var a' := a[ka + 1..];
    var h := a[..ka];
    SpanConcatStops(a, b, Other(c));
    SplitOnCut(a + b, c, ka);
    SplitOnCut(a, c, ka);
    ConcatSlices(a, b, ka);
    assert SplitOn(a + b, c) == [h] + SplitOn(a' + b, c);
    SplitConcatSep(h, SplitOn(a', c), SplitOn(b, c));
  }

  /** Cutting `a + b` inside `a`. */
  lemma ConcatSlices<T>(a: seq<T>, b: seq<T>, k: nat)
    requires k < |a|
    ensures (a + b)[..k] == a[..k]
    ensures (a + b)[k + 1..] == a[k + 1..] + b
  {
  }

  lemma SplitConcatSep(h: string, P: seq<string>, B: seq<string>)
    requires |P| > 0 && |B| > 0
    ensures [h] + (Init(P) + [Last(P) + B[0]] + B[1..])
      == Init([h] + P) + [Last([h] + P) + B[0]] + B[1..]
  {
    assert Init([h] + P) == [h] + Init(P);
    assert Last([h] + P) == Last(P);
  }

  lemma SplitConcatFree(a: string, b: string, c: char)
    requires Span(a, Other(c)) == |a|
    ensures SplitOn(a + b, c)
      == Init(SplitOn(a, c)) + [Last(SplitOn(a, c)) + SplitOn(b, c)[0]] + SplitOn(b, c)[1..]
  {
    SplitOnWhole(a, c);
    FuseSingle(a, SplitOn(b, c));
    assert All(a, Other(c));
    SpanConcatAll(a, b, Other(c));
    var kb := Span(b, Other(c));
    if kb < |b| {
      SplitFreeCut(a, b, c, kb);
    } else {
      SplitFreeWhole(a, b, c);
    }
  }

  lemma SplitFreeWhole(a: string, b: string, c: char)
    requires Span(b, Other(c)) == |b|
    requires Span(a + b, Other(c)) == |a + b|
    ensures SplitOn(a + b, c) == [a + SplitOn(b, c)[0]] + SplitOn(b, c)[1..]
  {
    SplitOnWhole(a + b, c);
    SplitOnWhole(b, c);
  }

  lemma SplitFreeCut(a: string, b: string, c: char, kb: nat)
    requires kb == Span(b, Other(c)) && kb < |b|
    requires Span(a + b, Other(c)) == |a| + kb
    ensures SplitOn(a + b, c) == [a + SplitOn(b, c)[0]] + SplitOn(b, c)[1..]
  {
    var x, P := b[..kb], SplitOn(b[kb + 1..], c);
    CutInSecond(a, b, kb);
    SplitOnCutAt(a + b, c, |a| + kb, a + x, b[kb + 1..]);
    SplitOnCut(b, c, kb);
    ConsParts(x, P);
  }

  lemma SplitOnCutAt(s: string, c: char, k: nat, h: string, u: string)
    requires k == Span(s, Other(c)) && k < |s|
    requires h == s[..k] && u == s[k + 1..]
    ensures SplitOn(s, c) == [h] + SplitOn(u, c)
  {
    SplitOnCut(s, c, k);
  }

  lemma FuseSingle<T>(a: seq<T>, S: seq<seq<T>>)
    requires |S| > 0
    ensures Init([a]) + [Last([a]) + S[0]] + S[1..] == [a + S[0]] + S[1..]
  {
    assert Init([a]) == [];
  }

  /** Cutting `a + b` inside `b`. */
  lemma CutInSecond<T>(a: seq<T>, b: seq<T>, k: nat)
    requires k < |b|
    ensures (a + b)[..|a| + k] == a + b[..k]
    ensures (a + b)[|a| + k + 1..] == b[k + 1..]
  {
  }

  lemma ConsParts<T>(x: T, ys: seq<T>)
    ensures ([x] + ys)[0] == x && ([x] + ys)[1..] == ys
  {
  }

  /** Every piece of a whitespace string is whitespace. */
  lemma {:induction false} SplitSpaceParts(w: string, c: char)
    requires AllSpace(w)
    ensures forall i :: 0 <= i < |SplitOn(w, c)| ==> AllSpace(SplitOn(w, c)[i])
    decreases |w|
  {
    var k := Span(w, Other(c));
    if k < |w| {
      var t := w[k + 1..];
      assert forall i :: 0 <= i < |t| ==> t[i] == w[k + 1 + i];
      SplitSpaceParts(t, c);
    }
  }

  lemma AllSpaceConcat(a: string, b: string)
    requires AllSpace(a) && AllSpace(b)
    ensures AllSpace(a + b)
  {
    var u := a + b;
    forall i | 0 <= i < |u|
      ensures IsSpace(u[i])
    {
      if i < |a| { assert u[i] == a[i]; } else { assert u[i] == b[i - |a|]; }
    }
  }

  /** Whitespace around a string does not change its strip. */
  lemma StripPadded(w1: string, x: string, w2: string)
    requires AllSpace(w1) && AllSpace(w2)
    ensures Strip(w1 + x + w2) == Strip(x)
  {
    var v1, v2 := StripDecompose(x);
    var r := Strip(x);
    AllSpaceConcat(w1, v1);
    AllSpaceConcat(v2, w2);
    assert w1 + x + w2 == (w1 + v1) + r + (v2 + w2);
    StripUnique(w1 + v1, r, v2 + w2);
  }

  /** A line of `r` reappears in `w + r`, behind whitespace when it is the first. */
  lemma LineAfterSpace(w: string, r: string, q: nat) returns (lead: string, q': nat)
    requires AllSpace(w) && q < |SplitOn(r, '\n')|
    ensures AllSpace(lead)
    ensures q' < |SplitOn(w + r, '\n')|
    ensures SplitOn(w + r, '\n')[q'] == lead + SplitOn(r, '\n')[q]
  {
    var L1 := SplitOn(w, '\n');
    var Lr := SplitOn(r, '\n');
    SplitSpaceParts(w, '\n');
    SplitConcat(w, r, '\n');
    q' := |L1| - 1 + q;
    if q == 0 {
      lead := Last(L1);
      assert AllSpace(L1[|L1| - 1]);
    } else {
      lead := "";
      assert SplitOn(w + r, '\n')[q'] == Lr[1..][q - 1];
    }
  }

  /** A line of `x` reappears in `x + w`, followed by whitespace when it is the last. */
  lemma LineBeforeSpace(x: string, w: string, q: nat) returns (trail: string)
    requires AllSpace(w) && q < |SplitOn(x, '\n')|
    ensures AllSpace(trail)
    ensures q < |SplitOn(x + w, '\n')|
    ensures SplitOn(x + w, '\n')[q] == SplitOn(x, '\n')[q] + trail
  {
    var Lx := SplitOn(x, '\n');
    var L2 := SplitOn(w, '\n');
    SplitSpaceParts(w, '\n');
    SplitConcat(x, w, '\n');
    if q == |Lx| - 1 {
      trail := L2[0];
    } else {
      trail := "";
      assert SplitOn(x + w, '\n')[q] == Init(Lx)[q];
    }
  }

  /** Every line of the stripped text, once stripped itself, is the strip of
      a line of the original text. */
  lemma StripLines(s: string, q: nat) returns (q': nat)
    requires q < |SplitOn(Strip(s), '\n')|
    ensures q' < |SplitOn(s, '\n')|
    ensures Strip(SplitOn(Strip(s), '\n')[q]) == Strip(SplitOn(s, '\n')[q'])
  {
    var w1, w2 := StripDecompose(s);
    var r := Strip(s);
    var lead, q1 := LineAfterSpace(w1, r, q);
    var trail := LineBeforeSpace(w1 + r, w2, q1);
    q' := q1;
    StripPadded(lead, SplitOn(r, '\n')[q], trail);
    assert SplitOn(s, '\n')[q'] == lead + SplitOn(r, '\n')[q] + trail;
  }
}
