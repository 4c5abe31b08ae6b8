/**
 Retrieval chunks (extract.py, `chunk_for_rag`): the words of each section
 are cut into windows of `chunk_size` words whose starts are
 `chunk_size - chunk_overlap` apart, and each window becomes one chunk
 tagged with the document and section name.
 */
module Chunking {
  import opened Wrappers
  import opened Strings
  import opened Sections

  /** The defaults `chunk_size=500`, `chunk_overlap=100`. */
  const DefaultSize: int := 500
  const DefaultOverlap: int := 100

  /** One record: `{"source": ..., "section": ..., "text": ...}`. */
  datatype Chunk = Chunk(source: string, section: string, text: string)

  type Window = seq<string>

  // ---------------------------------------------------------------------
  // Windows

  /** Python's `xs[start:stop]` for a non-negative start: a negative stop
      counts from the end, and both bounds are clamped to the list. */
  function Slice<T>(xs: seq<T>, start: nat, stop: int): (r: seq<T>)
    ensures 0 <= stop ==> r == xs[Min(start, |xs|)..Max(Min(start, |xs|), Min(stop, |xs|))]
  {
    var lo := Min(start, |xs|);
    var hi := if stop < 0 then Max(stop + |xs|, 0) else Min(stop, |xs|);
    if hi <= lo then [] else xs[lo..hi]
  }

  /** What a slice holds, element by element: for a non-negative stop, the
      items from `start` up to `stop`, as many as the list has there; a
      negative stop is first turned into `stop + len(xs)`, floored at 0. */
  lemma SliceElements<T>(xs: seq<T>, start: nat, stop: int)
    ensures 0 <= stop ==> |Slice(xs, start, stop)| == Max(0, Min(stop, |xs|) - start)
    ensures forall k :: 0 <= k < |Slice(xs, start, stop)| ==>
      start + k < |xs| && Slice(xs, start, stop)[k] == xs[start + k]
    ensures stop < 0 ==> Slice(xs, start, stop) == Slice(xs, start, Max(stop + |xs|, 0))
  {
  }

  /** Integer bounds for slicing; `Geometry.Min` and `Geometry.Max` are
      over the reals of box coordinates. */
  function Min(a: int, b: int): int {
    if a < b then a else b
  }

  function Max(a: int, b: int): int {
    if a < b then b else a
  }

  /** `words[i:i + size]` for `i` in `range(start, len(words), step)`:
      windows exist exactly when the start is before the end, the first
      one starting there. */
  function WindowsFrom(words: seq<string>, size: int, step: nat, start: nat): (ws: seq<Window>)
    requires step > 0
    ensures |ws| > 0 <==> start < |words|
    decreases |words| - start
  {
    if start >= |words| then []
    else [Slice(words, start, start + size)] + WindowsFrom(words, size, step, start + step)
  }

  /** The windows of one section as the loop produces them. */
  function Windows(words: seq<string>, size: int, step: nat): seq<Window>
    requires step > 0
  {
    WindowsFrom(words, size, step, 0)
  }

  // ---------------------------------------------------------------------
  // Chunk text

  /** The indentation of the lines inside the chunk's triple-quoted string. */
  const Indent: string := "                            "

  /** A line break and one indentation: what opens and closes the string. */
  const Margin: string := "\n" + Indent

  /** What precedes the words in a chunk's text: the `SOURCE:` line, the
      indented `SECTION:` line, the empty line and the indentation of the
      words' line. */
  function Header(source: string, section: string): string {
    "SOURCE: " + source + Margin + "SECTION: " + section + "\n" + Margin
  }

  /** The triple-quoted f-string before `.strip()`: it opens with a line
      break and closes with an indented line of its own. */
  function Layout(source: string, section: string, body: string): string {
    Margin + Header(source, section) + body + Margin
  }

  /** `chunk_with_meta`: for a window of words, after `strip()` the text
      is the header followed by the words joined by single spaces. */
  function ChunkText(source: string, section: string, w: Window): (t: string)
    ensures (|w| > 0 && forall i :: 0 <= i < |w| ==> IsWord(w[i])) ==>
      t == Header(source, section) + Join(w, ' ')
  {
    var body := Join(w, ' ');
    if |w| > 0 && forall i :: 0 <= i < |w| ==> IsWord(w[i]) then
      JoinWordsStripped(w);
      HeaderStart(source, section);
      MarginSpace();
      Framed(Margin, Header(source, section), body);
      Strip(Layout(source, section, body))
    else Strip(Layout(source, section, body))
  }

  /** One chunk per window, tagged with the document and section. */
  function MakeChunks(source: string, section: string, ws: seq<Window>): (cs: seq<Chunk>)
    ensures |cs| == |ws|
    ensures forall k :: 0 <= k < |ws| ==>
      cs[k] == Chunk(source, section, ChunkText(source, section, ws[k]))
  {
    if |ws| == 0 then [] else [Chunk(source, section, ChunkText(source, section, ws[0]))] + MakeChunks(source, section, ws[1..])
  }

  /** Which windowing the section loop uses: the loop as written, or the
      corrected one that stops once a window has reached the last word. */
  datatype Windowing = AsWritten | Corrected

  function Split(mode: Windowing, words: seq<string>, size: int, step: nat): seq<Window>
    requires step > 0
  {
    match mode
    case AsWritten => Windows(words, size, step)
    case Corrected => WindowsFixed(words, size, step)
  }

  /** The loop over the sections: every chunk carries the document name. */
  function ChunkAll(sections: seq<Section>, source: string, size: int, step: nat, mode: Windowing): (cs: seq<Chunk>)
    requires step > 0
    ensures forall k :: 0 <= k < |cs| ==> cs[k].source == source
  {
    if |sections| == 0 then []
    else
      var first := MakeChunks(source, sections[0].name, Split(mode, Words(sections[0].text), size, step));
      first + ChunkAll(sections[1..], source, size, step, mode)
  }

  /** `range(0, len(words), 0)` raises (ValueError) when the size equals
      the overlap and there is a section to chunk. */
  datatype ChunkError = ZeroStride

  /** `chunk_for_rag(sections, pdf_name, chunk_size, chunk_overlap)` as
      written: a window starts every `chunk_size - chunk_overlap` words; a
      negative stride gives an empty range for every section. */
  function ChunkForRagAsWritten(sections: seq<Section>, source: string, size: int, overlap: int): (r: Result<seq<Chunk>, ChunkError>)
    ensures r.Failure? <==> size == overlap && |sections| > 0
    ensures size < overlap ==> r == Success([])
    ensures r.Success? ==> forall c :: c in r.value ==>
      c.source == source && exists k :: 0 <= k < |sections| && c.section == sections[k].name
  {
    if size > overlap then
      ChunkAllSource(sections, source, size, (size - overlap) as nat, AsWritten);
      Success(ChunkAll(sections, source, size, (size - overlap) as nat, AsWritten))
    else if size < overlap || |sections| == 0 then Success([])
    else Failure(ZeroStride)
  }

  /** `chunk_for_rag` with the windowing corrected to stop once a window
      has reached the end of its section; the other cases are unchanged. */
  function ChunkForRag(sections: seq<Section>, source: string, size: int, overlap: int): (r: Result<seq<Chunk>, ChunkError>)
    ensures r.Failure? <==> size == overlap && |sections| > 0
    ensures size < overlap ==> r == Success([])
    ensures r.Success? ==> forall c :: c in r.value ==>
      c.source == source && exists k :: 0 <= k < |sections| && c.section == sections[k].name
  {
    if size > overlap then
      ChunkAllSource(sections, source, size, (size - overlap) as nat, Corrected);
      Success(ChunkAll(sections, source, size, (size - overlap) as nat, Corrected))
    else if size < overlap || |sections| == 0 then Success([])
    else Failure(ZeroStride)
  }

  /** Text opening with a non-space and ending in stripped text, framed by
      whitespace, strips back to itself. */
  lemma Framed(m: string, h: string, body: string)
    requires AllSpace(m) && |h| > 0 && !IsSpace(h[0]) && |body| > 0 && IsStripped(body)
    ensures Strip(m + h + body + m) == h + body
  {
    StrippedJoin(h, body);
    assert m + h + body + m == m + (h + body) + m;
    StripUnique(m, h + body, m);
  }

  /** Splitting what follows the header gives the chunk's words back. */
  lemma ChunkWords(source: string, section: string, w: Window)
    requires |w| > 0 && forall i :: 0 <= i < |w| ==> IsWord(w[i])
    ensures |Header(source, section)| <= |ChunkText(source, section, w)|
      && Words(ChunkText(source, section, w)[|Header(source, section)|..]) == w
  {
    var h := Header(source, section);
    assert (h + Join(w, ' '))[|h|..] == Join(w, ' ');
    WordsJoin(w);
  }

  lemma StrippedJoin(h: string, body: string)
    requires |h| > 0 && !IsSpace(h[0]) && |body| > 0 && IsStripped(body)
    ensures IsStripped(h + body)
  {
    var x := h + body;
    assert x[0] == h[0];
    assert x[|x| - 1] == body[|body| - 1];
  }

  lemma MarginSpace()
    ensures AllSpace(Margin)
  {
  }

  lemma HeaderStart(source: string, section: string)
    ensures |Header(source, section)| > 0 && Header(source, section)[0] == 'S'
  {
    var h := Header(source, section);
    assert h == "SOURCE: " + (source + Margin + "SECTION: " + section + "\n" + Margin);
  }

  /** The `k`-th chunk of one section: its tags, and the header followed
      by the words of the `k`-th window (a run of the section's words, see
      `FixedWindowWords`) joined by single spaces. */
  lemma SectionChunk(sec: Section, source: string, size: int, overlap: int, k: nat)
    requires size > overlap && size >= 1
    requires k < |ChunkForRag([sec], source, size, overlap).value|
    ensures k < |WindowsFixed(Words(sec.text), size, (size - overlap) as nat)|
    ensures ChunkForRag([sec], source, size, overlap).value[k]
      == Chunk(source, sec.name,
               Header(source, sec.name) + Join(WindowsFixed(Words(sec.text), size, (size - overlap) as nat)[k], ' '))
  {
    var step := (size - overlap) as nat;
    var words := Words(sec.text);
    OneSection(sec, source, size, step, Corrected);
    FixedWindowWords(words, size, step, k);
  }

  lemma OneSection(sec: Section, source: string, size: int, step: nat, mode: Windowing)
    requires step > 0
    ensures ChunkAll([sec], source, size, step, mode) == MakeChunks(source, sec.name, Split(mode, Words(sec.text), size, step))
  {
    assert [sec][1..] == [];
  }

  /** A corrected window of a section's words is a non-empty run of them. */
  lemma FixedWindowWords(words: seq<string>, size: int, step: nat, k: nat)
    requires step > 0 && size >= 1 && k < |WindowsFixed(words, size, step)|
    requires forall i :: 0 <= i < |words| ==> IsWord(words[i])
    ensures k * step < |words|
    ensures WindowsFixed(words, size, step)[k] == words[k * step..Min(k * step + size, |words|)]
    ensures |WindowsFixed(words, size, step)[k]| > 0
    ensures forall i :: 0 <= i < |WindowsFixed(words, size, step)[k]| ==> IsWord(WindowsFixed(words, size, step)[k][i])
  {
    FixedIsPrefix(words, size, step, 0);
    assert WindowsFixed(words, size, step)[k] == Windows(words, size, step)[k];
    WindowContents(words, size, step, k);
  }

  // ---------------------------------------------------------------------
  // The section loop

  /** Every chunk carries the document name and the name of one of the
      sections. */
  lemma {:induction false} ChunkAllSource(sections: seq<Section>, source: string, size: int, step: nat, mode: Windowing)
    requires step > 0
    ensures forall c :: c in ChunkAll(sections, source, size, step, mode) ==>
      c.source == source && exists k :: 0 <= k < |sections| && c.section == sections[k].name
    decreases |sections|
  {
    if |sections| > 0 {
      ChunkAllSource(sections[1..], source, size, step, mode);
      var head := MakeChunks(source, sections[0].name, Split(mode, Words(sections[0].text), size, step));
      forall c | c in ChunkAll(sections, source, size, step, mode)
        ensures c.source == source && exists k :: 0 <= k < |sections| && c.section == sections[k].name
      {
        if c in head {
          assert c.section == sections[0].name;
        } else {
          assert c in ChunkAll(sections[1..], source, size, step, mode);
          var k :| 0 <= k < |sections[1..]| && c.section == sections[1..][k].name;
          assert c.section == sections[k + 1].name;
        }
      }
    }
  }

  /** Sections are chunked in order: the chunks of a concatenation are the
      chunks of each part, one after the other. */
  lemma {:induction false} ChunkAllAppend(a: seq<Section>, b: seq<Section>, source: string, size: int, step: nat, mode: Windowing)
    requires step > 0
    ensures ChunkAll(a + b, source, size, step, mode) == ChunkAll(a, source, size, step, mode) + ChunkAll(b, source, size, step, mode)
    decreases |a|
  {
    if |a| == 0 {
      assert a + b == b;
    } else {
      assert (a + b)[0] == a[0];
      assert (a + b)[1..] == a[1..] + b;
      ChunkAllAppend(a[1..], b, source, size, step, mode);
    }
  }

  // ---------------------------------------------------------------------
  // Windows, as written

  /** One window per start `start, start + step, ...` below the word
      count: their number `n` is the least with `n * step` covering the
      words from `start`, that is `ceil((len(words) - start) / step)`. */
  lemma {:induction false} WindowsCount(words: seq<string>, size: int, step: nat, start: nat)
    requires step > 0
    ensures var n := |WindowsFrom(words, size, step, start)|;
      if start >= |words| then n == 0
      else n >= 1 && (n - 1) * step < |words| - start <= n * step
    decreases |words| - start
  {
    if start < |words| {
      WindowsCount(words, size, step, start + step);
      var m := |WindowsFrom(words, size, step, start + step)|;
      assert (m + 1) * step == m * step + step;
      assert (m + 1 - 1) * step == m * step;
    }
  }

  lemma MulStep(k: nat, step: nat)
    requires k > 0
    ensures (k - 1) * step + step == k * step
  {
  }

  /** The `k`-th window is the slice at `start + k * step`. */
  lemma {:induction false} WindowAt(words: seq<string>, size: int, step: nat, start: nat, k: nat)
    requires step > 0 && k < |WindowsFrom(words, size, step, start)|
    ensures start + k * step < |words|
    ensures WindowsFrom(words, size, step, start)[k]
      == Slice(words, start + k * step, start + k * step + size)
    decreases k
  {
    WindowsCons(words, size, step, start);
    if k > 0 {
      WindowAt(words, size, step, start + step, k - 1);
      WindowAtNext(words, size, step, start, k);
    } else {
      assert k * step == 0;
    }
  }

  /** The inductive step of `WindowAt`: window `k` from `start` is window
      `k - 1` from the next start. */
  lemma WindowAtNext(words: seq<string>, size: int, step: nat, start: nat, k: nat)
    requires step > 0 && 0 < k && start < |words|
    requires WindowsFrom(words, size, step, start)
      == [Slice(words, start, start + size)] + WindowsFrom(words, size, step, start + step)
    requires k - 1 < |WindowsFrom(words, size, step, start + step)|
    requires start + step + (k - 1) * step < |words|
    requires WindowsFrom(words, size, step, start + step)[k - 1]
      == Slice(words, start + step + (k - 1) * step, start + step + (k - 1) * step + size)
    ensures start + k * step < |words|
    ensures WindowsFrom(words, size, step, start)[k]
      == Slice(words, start + k * step, start + k * step + size)
  {
    ShiftStart(start, step, k);
    ConsAt(WindowsFrom(words, size, step, start), Slice(words, start, start + size), WindowsFrom(words, size, step, start + step), k);
  }

  lemma ShiftStart(start: nat, step: nat, k: nat)
    requires k > 0
    ensures start + step + (k - 1) * step == start + k * step
  {
    MulStep(k, step);
  }

  lemma ConsAt<T>(xs: seq<T>, x: T, rest: seq<T>, k: nat)
    requires xs == [x] + rest && 0 < k < |xs|
    ensures xs[k] == rest[k - 1]
  {
  }

  lemma WindowsCons(words: seq<string>, size: int, step: nat, start: nat)
    requires step > 0 && start < |words|
    ensures WindowsFrom(words, size, step, start)
      == [Slice(words, start, start + size)] + WindowsFrom(words, size, step, start + step)
  {
  }

  /** With a positive size, window `k` holds the words from `k * step` up
      to `size` words on, cut at the end of the section. */
  lemma WindowContents(words: seq<string>, size: int, step: nat, k: nat)
    requires step > 0 && size >= 1 && k < |Windows(words, size, step)|
    ensures k * step < |words|
    ensures Windows(words, size, step)[k] == words[k * step..Min(k * step + size, |words|)]
    ensures 1 <= |Windows(words, size, step)[k]| <= size
  {
    assert Windows(words, size, step) == WindowsFrom(words, size, step, 0);
    WindowAt(words, size, step, 0, k);
    var s := k * step;
    assert 0 + s == s;
    SliceWithin(words, s, size);
  }

  /** A slice of positive size that starts inside the list. */
  lemma SliceWithin(words: seq<string>, s: nat, size: int)
    requires s < |words| && size >= 1
    ensures s <= Min(s + size, |words|)
    ensures Slice(words, s, s + size) == words[s..Min(s + size, |words|)]
    ensures 1 <= |words[s..Min(s + size, |words|)]| <= size
  {
    assert Min(s, |words|) == s;
    assert Max(s, Min(s + size, |words|)) == Min(s + size, |words|);
  }

  /** With windows at least as long as their stride, every word lands in a
      window: the one whose start is the last at or before it. */
  lemma {:induction false} CoverFrom(words: seq<string>, size: int, step: nat, start: nat, j: nat)
    returns (k: nat)
    requires 0 < step <= size && start <= j < |words|
    ensures k < |WindowsFrom(words, size, step, start)|
    ensures start + k * step <= j < start + k * step + step
    decreases j - start
  {
    if j < start + step {
      k := 0;
    } else {
      var k' := CoverFrom(words, size, step, start + step, j);
      k := k' + 1;
      MulStep(k, step);
    }
  }

  /** Every word of a section is in some chunk window, at its own place. */
  lemma Coverage(words: seq<string>, size: int, step: nat, j: nat) returns (k: nat)
    requires 0 < step <= size && j < |words|
    ensures k < |Windows(words, size, step)|
    ensures k * step <= j < k * step + |Windows(words, size, step)[k]|
    ensures Windows(words, size, step)[k][j - k * step] == words[j]
  {
    k := CoverFrom(words, size, step, 0, j);
    WindowContents(words, size, step, k);
  }

  /** The loop as written: when a section has more words than the stride
      but no more than the window size, the second window is a tail of the
      first and carries no word of its own. */
  lemma ShortSectionRepeats(words: seq<string>, size: int, step: nat)
    requires 0 < step < |words| <= size
    ensures |Windows(words, size, step)| >= 2
    ensures Windows(words, size, step)[0] == words
    ensures Windows(words, size, step)[1] == words[step..]
  {
    var ws := Windows(words, size, step);
    assert ws == [Slice(words, 0, size)] + WindowsFrom(words, size, step, step);
    assert WindowsFrom(words, size, step, step)[0] == Slice(words, step, step + size);
  }

  /** With the default size and overlap, a 450-word section gives two
      chunks, the second repeating the last 50 words of the first. */
  lemma DefaultsRepeat(words: seq<string>)
    requires |words| == 450
    ensures |Windows(words, DefaultSize, DefaultSize - DefaultOverlap)| == 2
    ensures Windows(words, DefaultSize, DefaultSize - DefaultOverlap)[1]
      == Windows(words, DefaultSize, DefaultSize - DefaultOverlap)[0][400..]
  {
    ShortSectionRepeats(words, DefaultSize, DefaultSize - DefaultOverlap);
    WindowsCount(words, DefaultSize, DefaultSize - DefaultOverlap, 0);
  }

  // ---------------------------------------------------------------------
  // Windows, corrected

  /** The corrected windowing: as written, but stopping as soon as a window
      has reached the last word, so that a section of at most `chunk_size`
      words gives one chunk. */
  function WindowsFixedFrom(words: seq<string>, size: int, step: nat, start: nat): (ws: seq<Window>)
    requires step > 0
    decreases |words| - start
  {
    if start >= |words| then []
    else if start + size >= |words| then [Slice(words, start, start + size)]
    else [Slice(words, start, start + size)] + WindowsFixedFrom(words, size, step, start + step)
  }

  function WindowsFixed(words: seq<string>, size: int, step: nat): seq<Window>
    requires step > 0
  {
    WindowsFixedFrom(words, size, step, 0)
  }

  /** The corrected windows are the first windows of the loop as written. */
  lemma {:induction false} FixedIsPrefix(words: seq<string>, size: int, step: nat, start: nat)
    requires step > 0
    ensures |WindowsFixedFrom(words, size, step, start)| <= |WindowsFrom(words, size, step, start)|
    ensures WindowsFixedFrom(words, size, step, start)
      == WindowsFrom(words, size, step, start)[..|WindowsFixedFrom(words, size, step, start)|]
    decreases |words| - start
  {
    if start < |words| && start + size < |words| {
      FixedIsPrefix(words, size, step, start + step);
    }
  }

  /** Every corrected window but the last stops short of the end, and when
      windows are at least as long as their stride the last one reaches it. */
  lemma {:induction false} FixedEnds(words: seq<string>, size: int, step: nat, start: nat)
    requires step > 0
    ensures var n := |WindowsFixedFrom(words, size, step, start)|;
      && (start < |words| <==> n >= 1)
      && (forall k :: 0 <= k < n - 1 ==> start + k * step + size < |words|)
      && (step <= size && n >= 1 ==> start + (n - 1) * step + size >= |words|)
    decreases |words| - start
  {
    if start < |words| && start + size < |words| {
      FixedEnds(words, size, step, start + step);
      var n' := |WindowsFixedFrom(words, size, step, start + step)|;
      EndsShift(start, step, size, |words|, n');
    }
  }

  /** The window starts from `start + step` on, seen from `start`. */
  lemma EndsShift(start: nat, step: nat, size: int, count: nat, n': nat)
    requires step > 0 && start + size < count
    requires start + step < count <==> n' >= 1
    requires forall k :: 0 <= k < n' - 1 ==> start + step + k * step + size < count
    requires step <= size && n' >= 1 ==> start + step + (n' - 1) * step + size >= count
    ensures forall k :: 0 <= k < n' ==> start + k * step + size < count
    ensures step <= size ==> n' >= 1 && start + n' * step + size >= count
  {
    forall k | 0 <= k < n' ensures start + k * step + size < count {
      if k > 0 {
        MulStep(k, step);
        assert start + step + (k - 1) * step + size < count;
      }
    }
    if n' >= 1 {
      MulStep(n', step);
    }
  }

  /** No corrected window lies within the one before it: each reaches
      further into the section. */
  lemma FixedAdvances(words: seq<string>, size: int, step: nat, k: nat)
    requires step > 0 && k + 1 < |WindowsFixed(words, size, step)|
    ensures Min(k * step + size, |words|) < Min((k + 1) * step + size, |words|)
  {
    FixedEnds(words, size, step, 0);
    MulStep(k + 1, step);
  }

  /** A non-empty section with no more words than the window size gives
      exactly one window, holding all of its words. */
  lemma FixedShortSection(words: seq<string>, size: int, step: nat)
    requires 0 < step && 0 < |words| <= size
    ensures WindowsFixed(words, size, step) == [words]
  {
    assert Slice(words, 0, size) == words[0..|words|] == words;
  }

  /** Past the window size, the corrected count `n` is the least with
      `(n - 1) * step + size` covering the words, that is
      `1 + ceil((len(words) - size) / step)`. */
  lemma FixedCount(words: seq<string>, size: int, step: nat)
    requires 0 < step <= size < |words|
    ensures var n := |WindowsFixed(words, size, step)|;
      n >= 2 && (n - 2) * step + size < |words| <= (n - 1) * step + size
  {
    FixedEnds(words, size, step, 0);
    var n := |WindowsFixed(words, size, step)|;
    assert n >= 2 by {
      assert WindowsFixed(words, size, step)
        == [Slice(words, 0, size)] + WindowsFixedFrom(words, size, step, step);
    }
  }

  /** Every corrected window but the last is full, and consecutive windows
      share exactly `chunk_overlap` words: the last `size - step` words of
      one are the first of the next. */
  lemma FixedOverlap(words: seq<string>, size: int, step: nat, k: nat)
    requires 0 < step <= size && k + 1 < |WindowsFixed(words, size, step)|
    ensures |WindowsFixed(words, size, step)[k]| == size
    ensures |WindowsFixed(words, size, step)[k + 1]| >= size - step
    ensures WindowsFixed(words, size, step)[k][step..]
      == WindowsFixed(words, size, step)[k + 1][..size - step]
  {
    FixedEnds(words, size, step, 0);
    FixedWindow(words, size, step, k);
    FixedWindow(words, size, step, k + 1);
    MulStep(k + 1, step);
    var a := k * step;
    assert a + size < |words|;
    ShiftedSlices(words, a, step, size, Min(a + step + size, |words|));
  }

  /** Corrected window `k` holds the words from `k * step` up to `size`
      words on, cut at the end of the section. */
  lemma FixedWindow(words: seq<string>, size: int, step: nat, k: nat)
    requires 0 < step <= size && k < |WindowsFixed(words, size, step)|
    ensures k * step < |words|
    ensures WindowsFixed(words, size, step)[k] == words[k * step..Min(k * step + size, |words|)]
  {
    FixedIsPrefix(words, size, step, 0);
    WindowContents(words, size, step, k);
  }

  lemma ShiftedSlices<T>(w: seq<T>, a: nat, step: nat, size: nat, e: nat)
    requires step <= size && a + size <= e <= |w|
    ensures w[a..a + size][step..] == w[a + step..e][..size - step]
  {
  }

  /** The corrected windows still cover every word. */
  lemma FixedCoverage(words: seq<string>, size: int, step: nat, j: nat) returns (k: nat)
    requires 0 < step <= size && j < |words|
    ensures k < |WindowsFixed(words, size, step)|
    ensures k * step <= j < k * step + |WindowsFixed(words, size, step)[k]|
    ensures WindowsFixed(words, size, step)[k][j - k * step] == words[j]
  {
    var k0 := Coverage(words, size, step, j);
    FixedIsPrefix(words, size, step, 0);
    FixedEnds(words, size, step, 0);
    var n := |WindowsFixed(words, size, step)|;
    if k0 < n {
      k := k0;
    } else {
      k := n - 1;
      MulMono(k, k0, step);
      WindowContents(words, size, step, k);
    }
  }

  lemma MulMono(a: nat, b: nat, c: nat)
    requires a <= b
    ensures a * c <= b * c
  {
  }
}
