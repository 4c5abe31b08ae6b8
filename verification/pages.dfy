/**
 Page reconstruction (extract.py, the block loop of `extract_text_from_pdf`):
 every text block, in backend order, either brings in the text of the first
 table region it overlaps (once per region and page), is dropped because it
 overlaps a figure, or is kept as prose.
 */
module Pages {
  import opened Wrappers
  import opened Strings
  import opened Geometry

  /** A text block: its box and its text (the block number is unused). */
  datatype Block = Block(box: Box, text: string)

  /** A detected table region with its linearised text, `None` when the
      normaliser rejected the grid as near-empty. */
  datatype TableRegion = TableRegion(box: Box, text: Option<string>)

  /** `None + "\n"`: a block claimed a table whose text is `None` (TypeError). */
  datatype PageError = MissingTableText(table: nat)

  /** The page text produced so far and the per-region `used` flags. */
  datatype PageState = PageState(out: string, used: seq<bool>)

  /** Index of the first table region, in detection order, that the box overlaps. */
  function FirstTable(b: Box, tables: seq<TableRegion>): (r: Option<nat>)
    ensures r.Some? ==> r.value < |tables| && Overlap(b, tables[r.value].box, DefaultTolerance)
    ensures r.Some? ==> forall j :: 0 <= j < r.value ==> !Overlap(b, tables[j].box, DefaultTolerance)
    ensures r.None? ==> forall j :: 0 <= j < |tables| ==> !Overlap(b, tables[j].box, DefaultTolerance)
  {
    FirstTableFrom(b, tables, 0)
  }

  function FirstTableFrom(b: Box, tables: seq<TableRegion>, from: nat): (r: Option<nat>)
    requires from <= |tables|
    ensures r.Some? ==> from <= r.value < |tables| && Overlap(b, tables[r.value].box, DefaultTolerance)
    ensures r.Some? ==> forall j :: from <= j < r.value ==> !Overlap(b, tables[j].box, DefaultTolerance)
    ensures r.None? ==> forall j :: from <= j < |tables| ==> !Overlap(b, tables[j].box, DefaultTolerance)
    decreases |tables| - from
  {
    if from == |tables| then None
    else if Overlap(b, tables[from].box, DefaultTolerance) then Some(from)
    else FirstTableFrom(b, tables, from + 1)
  }

  /** `any(bbox_overlap(block_bbox, fb) for fb in figure_bboxes)`, taken
      left to right: true exactly when some figure region overlaps `b`. */
  predicate OnFigure(b: Box, figures: seq<Box>)
    ensures OnFigure(b, figures) <==>
      exists f :: 0 <= f < |figures| && Overlap(b, figures[f], DefaultTolerance)
  {
    if |figures| == 0 then false
    else if Overlap(b, figures[0], DefaultTolerance) then true
    else
      assert forall f :: 1 <= f < |figures| ==> figures[f] == figures[1..][f - 1];
      OnFigure(b, figures[1..])
  }

  /** One iteration of the block loop. */
  function Step(st: PageState, b: Block, tables: seq<TableRegion>, figures: seq<Box>): (r: Result<PageState, PageError>)
    requires |st.used| == |tables|
    ensures r.Success? ==> |r.value.used| == |tables|
    ensures r.Success? ==> forall i :: 0 <= i < |tables| && st.used[i] ==> r.value.used[i]
    ensures r.Success? ==> forall i :: 0 <= i < |tables| && r.value.used[i] != st.used[i] ==> FirstTable(b.box, tables) == Some(i)
    ensures r.Success? ==> st.out <= r.value.out
    ensures r.Failure? <==> exists i :: FirstTable(b.box, tables) == Some(i) && !st.used[i] && tables[i].text.None?
    ensures r.Failure? ==> FirstTable(b.box, tables) == Some(r.error.table)
  {
    match FirstTable(b.box, tables)
    case Some(i) =>
      if st.used[i] then Success(st)
      else if tables[i].text.None? then Failure(MissingTableText(i))
      else Success(PageState(st.out + tables[i].text.value + "\n", st.used[i := true]))
    case None =>
      if OnFigure(b.box, figures) then Success(st)
      else Success(PageState(st.out + b.text + "\n", st.used))
  }

  /** The state before the first block: no text, no region used. */
  function Fresh(tables: seq<TableRegion>): (st: PageState)
    ensures st.out == [] && |st.used| == |tables|
    ensures forall i :: 0 <= i < |tables| ==> !st.used[i]
  {
    PageState("", seq(|tables|, _ => false))
  }

  /** The block loop over one page, as a left fold of `Step`. A failure
      names a region without text that some block overlaps first; a region
      ends up used only when some block overlaps it first. */
  function Run(blocks: seq<Block>, tables: seq<TableRegion>, figures: seq<Box>): (r: Result<PageState, PageError>)
    ensures r.Success? ==> |r.value.used| == |tables|
    ensures r.Success? ==> forall i :: 0 <= i < |tables| && r.value.used[i] ==> ClaimedBefore(blocks, tables, i, |blocks|)
    ensures r.Failure? ==>
      && r.error.table < |tables| && tables[r.error.table].text.None?
      && ClaimedBefore(blocks, tables, r.error.table, |blocks|)
  {
    if |blocks| == 0 then Success(Fresh(tables))
    else
      ClaimedExtends(blocks, tables);
      match Run(blocks[..|blocks| - 1], tables, figures)
      case Failure(e) => Failure(e)
      case Success(st) => Step(st, blocks[|blocks| - 1], tables, figures)
  }

  /** A region claimed before the last block is claimed by the whole page,
      and so is the last block's first region. */
  lemma ClaimedExtends(blocks: seq<Block>, tables: seq<TableRegion>)
    requires |blocks| > 0
    ensures forall i: nat :: ClaimedBefore(blocks[..|blocks| - 1], tables, i, |blocks| - 1) ==> ClaimedBefore(blocks, tables, i, |blocks|)
    ensures FirstTable(blocks[|blocks| - 1].box, tables).Some? ==>
      ClaimedBefore(blocks, tables, FirstTable(blocks[|blocks| - 1].box, tables).value, |blocks|)
  {
    var n := |blocks| - 1;
    forall i: nat | ClaimedBefore(blocks[..n], tables, i, n) ensures ClaimedBefore(blocks, tables, i, |blocks|) {
      var j :| 0 <= j < n && FirstTable(blocks[..n][j].box, tables) == Some(i);
      assert blocks[..n][j] == blocks[j];
    }
  }

  // ---------------------------------------------------------------------
  // Reference description: which block contributes what, without flags

  /** What a page contributes: a table's text or a block's own text. */
  datatype Emission = TableText(table: nat) | BlockText(block: nat, text: string)

  /** Some block before position `k` has region `i` as its first overlapping region. */
  predicate ClaimedBefore(blocks: seq<Block>, tables: seq<TableRegion>, i: nat, k: int)
    requires k <= |blocks|
  {
    exists j :: 0 <= j < k && FirstTable(blocks[j].box, tables) == Some(i)
  }

  /** Block `k` is prose: it overlaps no table region and no figure. */
  predicate IsProse(b: Block, tables: seq<TableRegion>, figures: seq<Box>) {
    FirstTable(b.box, tables).None? && !OnFigure(b.box, figures)
  }

  /** The contribution of block `k`: the first region it overlaps, unless an
      earlier block already claimed that region; otherwise its own text,
      unless it sits on a figure. */
  function Verdict(blocks: seq<Block>, tables: seq<TableRegion>, figures: seq<Box>, k: nat): seq<Emission>
    requires k < |blocks|
  {
    match FirstTable(blocks[k].box, tables)
    case Some(i) => if ClaimedBefore(blocks, tables, i, k) then [] else [TableText(i)]
    case None => if OnFigure(blocks[k].box, figures) then [] else [BlockText(k, blocks[k].text)]
  }

  /** Contributions of all blocks, in block order. */
  function Claims(blocks: seq<Block>, tables: seq<TableRegion>, figures: seq<Box>): seq<Emission>
  {
    if |blocks| == 0 then []
    else Claims(blocks[..|blocks| - 1], tables, figures) + Verdict(blocks, tables, figures, |blocks| - 1)
  }

  /** Regions some block claims, as flags. */
  function Claimed(blocks: seq<Block>, tables: seq<TableRegion>): (u: seq<bool>)
    ensures |u| == |tables|
  {
    seq(|tables|, i requires 0 <= i < |tables| => ClaimedBefore(blocks, tables, i, |blocks|))
  }

  /** The text of the emissions, failing at the first table without text. */
  function Render(es: seq<Emission>, tables: seq<TableRegion>): Result<string, PageError>
  {
    if |es| == 0 then Success("")
    else
      match Render(es[..|es| - 1], tables)
      case Failure(e) => Failure(e)
      case Success(t) =>
        match es[|es| - 1]
        case TableText(i) =>
          if i < |tables| && tables[i].text.Some? then Success(t + tables[i].text.value + "\n")
          else Failure(MissingTableText(i))
        case BlockText(_, text) => Success(t + text + "\n")
  }

  /** The outcome the loop should have, read off the reference description. */
  function Expected(blocks: seq<Block>, tables: seq<TableRegion>, figures: seq<Box>): Result<PageState, PageError> {
    match Render(Claims(blocks, tables, figures), tables)
    case Failure(e) => Failure(e)
    case Success(t) => Success(PageState(t, Claimed(blocks, tables)))
  }

  // ---------------------------------------------------------------------
  // The loop agrees with the reference description

  /** The block loop computes exactly the reference text, and its `used`
      flags end up set for exactly the regions some block claimed; it fails
      exactly when the reference text reaches a region without text. */
  lemma {:induction false} RunMatchesClaims(blocks: seq<Block>, tables: seq<TableRegion>, figures: seq<Box>)
    ensures Run(blocks, tables, figures) == Expected(blocks, tables, figures)
  {
    if |blocks| == 0 {
      assert Claimed(blocks, tables) == Fresh(tables).used;
    } else {
      var n := |blocks|;
      var pre := blocks[..n - 1];
      var b := blocks[n - 1];
      RunMatchesClaims(pre, tables, figures);
      assert pre[..n - 1] == pre;
      ClaimedBeforePrefix(blocks, tables, n - 1);
      var v := Verdict(blocks, tables, figures, n - 1);
      var cs := Claims(pre, tables, figures);
      assert Claims(blocks, tables, figures) == cs + v;
      match Render(cs, tables)
      case Failure(e) =>
        RenderFailurePersists(cs, v, tables);
      case Success(t) =>
        StepMatches(pre, b, blocks, tables, figures, t);
    }
  }

  /** Flags computed over a prefix agree with flags over the whole. */
  lemma ClaimedBeforePrefix(blocks: seq<Block>, tables: seq<TableRegion>, k: nat)
    requires k <= |blocks|
    ensures forall i: nat, m :: 0 <= m <= k ==>
      (ClaimedBefore(blocks[..k], tables, i, m) <==> ClaimedBefore(blocks, tables, i, m))
  {
    assert forall j :: 0 <= j < k ==> blocks[..k][j] == blocks[j];
  }

  lemma RenderFailurePersists(es: seq<Emission>, v: seq<Emission>, tables: seq<TableRegion>)
    requires Render(es, tables).Failure?
    requires |v| <= 1
    ensures Render(es + v, tables) == Render(es, tables)
  {
    if |v| == 1 {
      assert (es + v)[..|es|] == es;
    } else {
      assert es + v == es;
    }
  }

  /** The last step of the loop: one block's effect matches its verdict. */
  lemma StepMatches(pre: seq<Block>, b: Block, blocks: seq<Block>, tables: seq<TableRegion>, figures: seq<Box>, t: string)
    requires blocks == pre + [b]
    requires Render(Claims(pre, tables, figures), tables) == Success(t)
    requires forall i: nat, m :: 0 <= m <= |pre| ==>
      (ClaimedBefore(pre, tables, i, m) <==> ClaimedBefore(blocks, tables, i, m))
    ensures Step(PageState(t, Claimed(pre, tables)), b, tables, figures)
      == (match Render(Claims(pre, tables, figures) + Verdict(blocks, tables, figures, |pre|), tables)
          case Failure(e) => Failure(e)
          case Success(t') => Success(PageState(t', Claimed(blocks, tables))))
  {
    var cs := Claims(pre, tables, figures);
    var k := |pre|;
    assert blocks[k] == b;
    var v := Verdict(blocks, tables, figures, k);
    var used := Claimed(pre, tables);
    ClaimedGrows(pre, b, blocks, tables);
    match FirstTable(b.box, tables)
    case Some(i) =>
      assert used[i] == ClaimedBefore(blocks, tables, i, k);
      if used[i] {
        RenderNothing(cs, tables);
        assert Claimed(blocks, tables) == used;
      } else {
        RenderOne(cs, TableText(i), tables);
        assert Claimed(blocks, tables) == used[i := true];
      }
    case None =>
      assert Claimed(blocks, tables) == used;
      if OnFigure(b.box, figures) {
        RenderNothing(cs, tables);
      } else {
        RenderOne(cs, BlockText(k, b.text), tables);
      }
  }

  lemma RenderNothing(cs: seq<Emission>, tables: seq<TableRegion>)
    ensures Render(cs + [], tables) == Render(cs, tables)
  {
    assert cs + [] == cs;
  }

  /** Rendering one more emission. */
  lemma RenderOne(cs: seq<Emission>, e: Emission, tables: seq<TableRegion>)
    ensures Render(cs, tables).Failure? ==> Render(cs + [e], tables) == Render(cs, tables)
    ensures Render(cs, tables).Success? && e.TableText? ==>
      Render(cs + [e], tables) ==
        if e.table < |tables| && tables[e.table].text.Some?
        then Success(Render(cs, tables).value + tables[e.table].text.value + "\n")
        else Failure(MissingTableText(e.table))
    ensures Render(cs, tables).Success? && e.BlockText? ==>
      Render(cs + [e], tables) == Success(Render(cs, tables).value + e.text + "\n")
  {
    assert (cs + [e])[..|cs|] == cs;
  }

  /** The flags after one more block: the old ones and the block's first region. */
  lemma ClaimedGrows(pre: seq<Block>, b: Block, blocks: seq<Block>, tables: seq<TableRegion>)
    requires blocks == pre + [b]
    requires forall i: nat, m :: 0 <= m <= |pre| ==>
      (ClaimedBefore(pre, tables, i, m) <==> ClaimedBefore(blocks, tables, i, m))
    ensures forall i: nat :: i < |tables| ==>
      Claimed(blocks, tables)[i] == (Claimed(pre, tables)[i] || FirstTable(b.box, tables) == Some(i))
  {
    var k := |pre|;
    assert blocks[k] == b;
    forall i: nat | i < |tables|
      ensures Claimed(blocks, tables)[i] == (Claimed(pre, tables)[i] || FirstTable(b.box, tables) == Some(i))
    {
      assert Claimed(pre, tables)[i] == ClaimedBefore(blocks, tables, i, k);
      ClaimedBeforeStep(blocks, tables, i, k);
    }
  }

  // ---------------------------------------------------------------------
  // Properties of the reference description

  /** Each table region's text is emitted exactly once if some block has it
      as first overlapping region, and never otherwise. */
  lemma {:induction false} TableEmittedOnce(blocks: seq<Block>, tables: seq<TableRegion>, figures: seq<Box>, i: nat)
    ensures multiset(Claims(blocks, tables, figures))[TableText(i)]
      == if ClaimedBefore(blocks, tables, i, |blocks|) then 1 else 0
  {
    if |blocks| > 0 {
      var n := |blocks|;
      var pre := blocks[..n - 1];
      TableEmittedOnce(pre, tables, figures, i);
      ClaimedBeforeInit(blocks, tables, i);
      ClaimedBeforeStep(blocks, tables, i, n - 1);
      var v := Verdict(blocks, tables, figures, n - 1);
      assert Claims(blocks, tables, figures) == Claims(pre, tables, figures) + v;
      VerdictTable(blocks, tables, figures, n - 1, i);
    }
  }

  /** The last block's verdict emits region `i` exactly when the block has
      it as first region and no earlier block claimed it. */
  lemma VerdictTable(blocks: seq<Block>, tables: seq<TableRegion>, figures: seq<Box>, k: nat, i: nat)
    requires k < |blocks|
    ensures multiset(Verdict(blocks, tables, figures, k))[TableText(i)]
      == if FirstTable(blocks[k].box, tables) == Some(i) && !ClaimedBefore(blocks, tables, i, k) then 1 else 0
  {
  }

  /** Claims before `k` read the same over the whole and over the first `n - 1` blocks. */
  lemma ClaimedBeforeInit(blocks: seq<Block>, tables: seq<TableRegion>, i: nat)
    requires |blocks| > 0
    ensures ClaimedBefore(blocks[..|blocks| - 1], tables, i, |blocks| - 1)
      <==> ClaimedBefore(blocks, tables, i, |blocks| - 1)
  {
    var pre := blocks[..|blocks| - 1];
    assert forall j :: 0 <= j < |pre| ==> pre[j] == blocks[j];
  }

  lemma ClaimedBeforeStep(blocks: seq<Block>, tables: seq<TableRegion>, i: nat, k: nat)
    requires k < |blocks|
    ensures ClaimedBefore(blocks, tables, i, k + 1)
      <==> ClaimedBefore(blocks, tables, i, k) || FirstTable(blocks[k].box, tables) == Some(i)
  {
    if ClaimedBefore(blocks, tables, i, k) {
      var j :| 0 <= j < k && FirstTable(blocks[j].box, tables) == Some(i);
      assert 0 <= j < k + 1;
    }
    if FirstTable(blocks[k].box, tables) == Some(i) {
      assert 0 <= k < k + 1;
    }
  }

  /** A block's own text is emitted exactly when it overlaps no table region
      and no figure, and then exactly once; every emitted block text is the
      text of such a block. */
  lemma {:induction false} BlockEmittedIffProse(blocks: seq<Block>, tables: seq<TableRegion>, figures: seq<Box>)
    ensures forall k :: 0 <= k < |blocks| ==>
      multiset(Claims(blocks, tables, figures))[BlockText(k, blocks[k].text)]
        == if IsProse(blocks[k], tables, figures) then 1 else 0
    ensures forall e :: e in Claims(blocks, tables, figures) && e.BlockText? ==>
      e.block < |blocks| && e.text == blocks[e.block].text && IsProse(blocks[e.block], tables, figures)
  {
    if |blocks| > 0 {
      var n := |blocks|;
      var pre := blocks[..n - 1];
      BlockEmittedIffProse(pre, tables, figures);
      var cs := Claims(pre, tables, figures);
      var v := Verdict(blocks, tables, figures, n - 1);
      assert Claims(blocks, tables, figures) == cs + v;
      VerdictBlock(blocks, tables, figures, n - 1);
      BlockCounts(pre, blocks, tables, figures, cs, v);
      BlockOrigins(pre, blocks, tables, figures, cs, v);
    }
  }

  /** The only block text a verdict can emit is the block's own, and it does
      so exactly when the block is prose. */
  lemma VerdictBlock(blocks: seq<Block>, tables: seq<TableRegion>, figures: seq<Box>, k: nat)
    requires k < |blocks|
    ensures forall e :: e in Verdict(blocks, tables, figures, k) && e.BlockText? ==>
      e == BlockText(k, blocks[k].text) && IsProse(blocks[k], tables, figures)
    ensures multiset(Verdict(blocks, tables, figures, k))[BlockText(k, blocks[k].text)]
      == if IsProse(blocks[k], tables, figures) then 1 else 0
  {
  }

  lemma BlockCounts(pre: seq<Block>, blocks: seq<Block>, tables: seq<TableRegion>, figures: seq<Box>,
                    cs: seq<Emission>, v: seq<Emission>)
    requires |blocks| > 0 && pre == blocks[..|blocks| - 1]
    requires forall k :: 0 <= k < |pre| ==>
      multiset(cs)[BlockText(k, pre[k].text)] == if IsProse(pre[k], tables, figures) then 1 else 0
    requires forall e :: e in cs && e.BlockText? ==> e.block < |pre|
    requires forall e :: e in v && e.BlockText? ==> e == BlockText(|pre|, blocks[|pre|].text)
    requires multiset(v)[BlockText(|pre|, blocks[|pre|].text)]
      == if IsProse(blocks[|pre|], tables, figures) then 1 else 0
    ensures forall k :: 0 <= k < |blocks| ==>
      multiset(cs + v)[BlockText(k, blocks[k].text)]
        == if IsProse(blocks[k], tables, figures) then 1 else 0
  {
    forall k | 0 <= k < |blocks|
      ensures multiset(cs + v)[BlockText(k, blocks[k].text)]
        == if IsProse(blocks[k], tables, figures) then 1 else 0
    {
      var x := BlockText(k, blocks[k].text);
      if k < |pre| {
        assert pre[k] == blocks[k];
        assert x !in v;
      } else {
        assert x !in cs;
      }
    }
  }

  lemma BlockOrigins(pre: seq<Block>, blocks: seq<Block>, tables: seq<TableRegion>, figures: seq<Box>,
                     cs: seq<Emission>, v: seq<Emission>)
    requires |blocks| > 0 && pre == blocks[..|blocks| - 1]
    requires forall e :: e in cs && e.BlockText? ==>
      e.block < |pre| && e.text == pre[e.block].text && IsProse(pre[e.block], tables, figures)
    requires forall e :: e in v && e.BlockText? ==>
      e == BlockText(|pre|, blocks[|pre|].text) && IsProse(blocks[|pre|], tables, figures)
    ensures forall e :: e in cs + v && e.BlockText? ==>
      e.block < |blocks| && e.text == blocks[e.block].text && IsProse(blocks[e.block], tables, figures)
  {
    forall e | e in cs + v && e.BlockText?
      ensures e.block < |blocks| && e.text == blocks[e.block].text && IsProse(blocks[e.block], tables, figures)
    {
      if e in cs {
        assert pre[e.block] == blocks[e.block];
      }
    }
  }

  /** A region is claimed exactly when some block overlaps it and no region
      detected before it. */
  lemma ClaimedIff(blocks: seq<Block>, tables: seq<TableRegion>, i: nat)
    requires i < |tables|
    ensures Claimed(blocks, tables)[i] <==>
      exists k :: 0 <= k < |blocks| && Overlap(blocks[k].box, tables[i].box, DefaultTolerance)
        && forall j :: 0 <= j < i ==> !Overlap(blocks[k].box, tables[j].box, DefaultTolerance)
  {
    if !Claimed(blocks, tables)[i] {
      forall k | 0 <= k < |blocks| && Overlap(blocks[k].box, tables[i].box, DefaultTolerance)
        ensures exists j :: 0 <= j < i && Overlap(blocks[k].box, tables[j].box, DefaultTolerance)
      {
        var f := FirstTable(blocks[k].box, tables);
        assert f.Some? && f.value != i;
        assert f.value < i;
      }
    } else {
      var k :| 0 <= k < |blocks| && FirstTable(blocks[k].box, tables) == Some(i);
    }
  }

  /** Two blocks on the same table region bring its text in once. */
  lemma TwoBlocksOneTable(t: string, a: string, b: string)
    ensures var box := Box(0.0, 0.0, 10.0, 10.0);
      Run([Block(box, a), Block(box, b)], [TableRegion(box, Some(t))], [])
        == Success(PageState(t + "\n", [true]))
  {
    var box := Box(0.0, 0.0, 10.0, 10.0);
    var blocks := [Block(box, a), Block(box, b)];
    var tables := [TableRegion(box, Some(t))];
    assert FirstTable(box, tables) == Some(0);
    assert blocks[..1] == [Block(box, a)];
    assert blocks[..1][..0] == [];
    assert Fresh(tables) == PageState("", [false]);
    assert Run([], tables, []) == Success(PageState("", [false]));
    assert "" + t + "\n" == t + "\n";
    assert [false][0 := true] == [true];
    assert Step(PageState("", [false]), Block(box, a), tables, []) == Success(PageState(t + "\n", [true]));
    assert Run(blocks[..1], tables, []) == Success(PageState(t + "\n", [true]));
  }

  /** A block that overlaps a figure and no table region leaves no text. */
  lemma FigureBlockDropped(b: Block, fig: Box)
    requires Overlap(b.box, fig, DefaultTolerance)
    ensures Run([b], [], [fig]) == Success(PageState("", []))
  {
    assert [b][..0] == [];
    assert OnFigure(b.box, [fig]) by {
      assert Overlap(b.box, [fig][0], DefaultTolerance);
    }
  }
}
