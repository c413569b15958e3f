/**
 * The `annotate_from_ref` stage: every `gene` row of the reference GTF is
 * placed on the padded alignment of its reference and re-emitted in
 * consensus coordinates, with segment statistics, the called regions and
 * their total length attached as attributes.
 *
 * The statistics (`get_seg_stats`) and the called-region finder
 * (`called_regions`) are not part of this model; they are parameters.
 */
module AnnotateFromRef {
  import opened Wrappers
  import opened Alignment
  import opened CalledRegions

  /** A GTF attribute value: text, or a number such as `call_len`. */
  datatype AttrValue = StrValue(s: string) | IntValue(n: int)

  /** One GTF row; `start`/`end` are 1-based and inclusive. */
  datatype GtfRow = GtfRow(
    chrom: string,
    source: string,
    feature: string,
    start: int,
    end: int,
    score: string,
    strand: string,
    frame: string,
    attrs: map<string, AttrValue>)

  /** Why one gene row could not be mapped; each one aborts the run. */
  datatype MapError =
    | MissingReference(chrom: string)   // the row's chromosome has no alignment
    | Unplaced(why: LocateError)        // the gene window cannot be placed on the alignment
    | MissingName                       // the row has no `name` attribute

  /** Every alignment key that `refmap` hands out is a key of the alignment document. */
  predicate RefMapInto(refmap: map<string, string>, jaln: map<string, seq<Column>>) {
    forall c :: c in refmap ==> refmap[c] in jaln
  }

  /**
   * The attributes of a mapped row: the input's `name`, then the segment
   * statistics (which may override it), then `call_reg` and `call_len`.
   */
  function MappedAttrs(name: AttrValue, stats: map<string, AttrValue>, regs: seq<Region>): (a: map<string, AttrValue>)
    ensures a.Keys == stats.Keys + {"name", "call_reg", "call_len"}
    ensures a["name"] == if "name" in stats then stats["name"] else name
    ensures a["call_reg"] == StrValue(FormatRegions(regs))
    ensures a["call_len"] == IntValue(CallLen(regs))
    ensures forall k :: k in stats && k != "call_reg" && k != "call_len" ==> a[k] == stats[k]
  {
    (map["name" := name] + stats)["call_reg" := StrValue(FormatRegions(regs))]["call_len" := IntValue(CallLen(regs))]
  }

  /**
   * The emitted row for consensus positions `conS`/`conE` of the boundary
   * columns and the window `win` between them.
   */
  function Emit(
    gr: GtfRow,
    key: string,
    conS: int,
    conE: int,
    win: seq<Column>,
    segStats: seq<Column> -> map<string, AttrValue>,
    calledRegions: seq<Column> -> seq<Region>): GtfRow
    requires "name" in gr.attrs
  {
    GtfRow(key, "haphpipe", gr.feature, conS + 1, conE, ".", gr.strand, gr.frame,
           MappedAttrs(gr.attrs["name"], segStats(win), calledRegions(win)))
  }

  /** The per-gene body: lookup, window, scans, and the emitted row. */
  function MapGene(
    gr: GtfRow,
    refmap: map<string, string>,
    jaln: map<string, seq<Column>>,
    segStats: seq<Column> -> map<string, AttrValue>,
    calledRegions: seq<Column> -> seq<Region>): (r: Result<GtfRow, MapError>)
    requires RefMapInto(refmap, jaln)
    ensures r == Failure(MissingReference(gr.chrom)) <==> gr.chrom !in refmap
    ensures r.Failure? && r.error.MissingReference? ==> r.error.chrom == gr.chrom
    ensures gr.chrom in refmap ==>
      (r.Failure? && r.error.Unplaced? <==> Locate(jaln[refmap[gr.chrom]], gr.start, gr.end).Failure?)
    ensures gr.chrom in refmap && Locate(jaln[refmap[gr.chrom]], gr.start, gr.end).Failure? ==>
      r == Failure(Unplaced(Locate(jaln[refmap[gr.chrom]], gr.start, gr.end).error))
    ensures r == Failure(MissingName) <==>
      gr.chrom in refmap && Locate(jaln[refmap[gr.chrom]], gr.start, gr.end).Success? && "name" !in gr.attrs
    ensures r.Success? ==>
      && gr.chrom in refmap
      && "name" in gr.attrs
      && var aln := jaln[refmap[gr.chrom]];
      && Locate(aln, gr.start, gr.end).Success?
      && var w := Locate(aln, gr.start, gr.end).value;
      && var win := Slice(aln, w.first, w.last);
      && r.value.chrom == refmap[gr.chrom]
      && r.value.source == "haphpipe"
      && r.value.feature == gr.feature
      && r.value.start == aln[w.first].conPos + 1
      && r.value.end == aln[w.last].conPos
      && r.value.score == "."
      && r.value.strand == gr.strand
      && r.value.frame == gr.frame
      && r.value.attrs == MappedAttrs(gr.attrs["name"], segStats(win), calledRegions(win))
  {
    if gr.chrom !in refmap then Failure(MissingReference(gr.chrom))
    else
      var key := refmap[gr.chrom];
      var aln := jaln[key];
      match Locate(aln, gr.start, gr.end)
      case Failure(why) => Failure(Unplaced(why))
      case Success(w) =>
        if "name" !in gr.attrs then Failure(MissingName)
        else
          Success(Emit(gr, key, aln[w.first].conPos, aln[w.last].conPos, Slice(aln, w.first, w.last),
                       segStats, calledRegions))
  }

  predicate IsGene(gr: GtfRow) {
    gr.feature == "gene"
  }

  /** The rows the stage acts on, in input order. */
  function GeneRows(rows: seq<GtfRow>): (g: seq<GtfRow>)
    ensures |g| <= |rows|
    ensures forall i :: 0 <= i < |g| ==> IsGene(g[i])
  {
    if |rows| == 0 then []
    else if IsGene(rows[0]) then [rows[0]] + GeneRows(rows[1..])
    else GeneRows(rows[1..])
  }

  /**
   * `GeneRows` is a filter that keeps input order and multiplicity: it
   * distributes over concatenation, and a single row is kept exactly when it
   * is a gene row.
   */
  lemma {:induction false} GeneRowsAppend(a: seq<GtfRow>, b: seq<GtfRow>)
    ensures GeneRows(a + b) == GeneRows(a) + GeneRows(b)
    ensures |a| == 1 ==> GeneRows(a) == if IsGene(a[0]) then a else []
    decreases |a|
  {
    if |a| == 0 {
      assert a + b == b;
    } else {
      assert (a + b)[0] == a[0];
      assert (a + b)[1..] == a[1..] + b;
      GeneRowsAppend(a[1..], b);
      if |a| == 1 {
        assert a[1..] == [];
      }
    }
  }

  /** `GeneRows` keeps every gene row and nothing else. */
  lemma {:induction false} GeneRowsExact(rows: seq<GtfRow>, gr: GtfRow)
    ensures gr in GeneRows(rows) <==> gr in rows && IsGene(gr)
  {
    if |rows| > 0 {
      GeneRowsExact(rows[1..], gr);
      assert rows == [rows[0]] + rows[1..];
    }
  }

  /** What a run writes: the rows emitted before it stopped, and the error that stopped it. */
  datatype RunOutcome = RunOutcome(emitted: seq<GtfRow>, failure: Option<MapError>)

  /**
   * The loop over the GTF rows, for any per-gene body `step`: rows other
   * than `gene` rows are skipped, each gene row is mapped and emitted in
   * order, and the first error ends the run.
   */
  function RunRows(rows: seq<GtfRow>, step: GtfRow -> Result<GtfRow, MapError>): (r: RunOutcome)
    ensures |r.emitted| <= |GeneRows(rows)|
    ensures forall i :: 0 <= i < |r.emitted| ==> step(GeneRows(rows)[i]) == Success(r.emitted[i])
    ensures r.failure.None? <==> |r.emitted| == |GeneRows(rows)|
    ensures r.failure.Some? ==> step(GeneRows(rows)[|r.emitted|]) == Failure(r.failure.value)
  {
    if |rows| == 0 then RunOutcome([], None)
    else if !IsGene(rows[0]) then
      assert GeneRows(rows) == GeneRows(rows[1..]);
      RunRows(rows[1..], step)
    else
      var genes := GeneRows(rows);
      assert genes == [rows[0]] + GeneRows(rows[1..]);
      assert genes[0] == rows[0];
      match step(rows[0])
      case Failure(e) => RunOutcome([], Some(e))
      case Success(g) =>
        var rest := RunRows(rows[1..], step);
        var out := [g] + rest.emitted;
        assert forall i :: 0 < i < |out| ==> out[i] == rest.emitted[i - 1] && genes[i] == GeneRows(rows[1..])[i - 1];
        RunOutcome(out, rest.failure)
  }

  /** The whole stage over the rows of the reference GTF. */
  function Run(
    rows: seq<GtfRow>,
    refmap: map<string, string>,
    jaln: map<string, seq<Column>>,
    segStats: seq<Column> -> map<string, AttrValue>,
    calledRegions: seq<Column> -> seq<Region>): (r: RunOutcome)
    requires RefMapInto(refmap, jaln)
    ensures |r.emitted| <= |GeneRows(rows)|
    ensures forall i :: 0 <= i < |r.emitted| ==>
      MapGene(GeneRows(rows)[i], refmap, jaln, segStats, calledRegions) == Success(r.emitted[i])
    ensures r.failure.None? <==> |r.emitted| == |GeneRows(rows)|
    ensures r.failure.Some? ==>
      MapGene(GeneRows(rows)[|r.emitted|], refmap, jaln, segStats, calledRegions) == Failure(r.failure.value)
  {
    RunRows(rows, gr => MapGene(gr, refmap, jaln, segStats, calledRegions))
  }

  /** Removing the non-gene rows beforehand changes nothing in the output. */
  lemma {:induction false} RunIgnoresNonGenes(rows: seq<GtfRow>, step: GtfRow -> Result<GtfRow, MapError>)
    ensures RunRows(GeneRows(rows), step) == RunRows(rows, step)
  {
    if |rows| > 0 {
      RunIgnoresNonGenes(rows[1..], step);
      GeneRowsIdempotent(rows[1..]);
      if IsGene(rows[0]) {
        var g := GeneRows(rows);
        assert g[0] == rows[0];
        assert g[1..] == GeneRows(rows[1..]);
      }
    }
  }

  lemma {:induction false} GeneRowsIdempotent(rows: seq<GtfRow>)
    ensures GeneRows(GeneRows(rows)) == GeneRows(rows)
  {
    if |rows| > 0 {
      GeneRowsIdempotent(rows[1..]);
      if IsGene(rows[0]) {
        assert (([rows[0]] + GeneRows(rows[1..]))[1..]) == GeneRows(rows[1..]);
      }
    }
  }

  /**
   * On an ordered alignment whose gene window contains a called column (and
   * whose boundary positions occur), the gene is mapped unless its `name`
   * is missing, and the consensus end is not before the consensus start.
   */
  lemma MappedSpanNotInverted(
    gr: GtfRow,
    refmap: map<string, string>,
    jaln: map<string, seq<Column>>,
    segStats: seq<Column> -> map<string, AttrValue>,
    calledRegions: seq<Column> -> seq<Region>,
    k: nat)
    requires RefMapInto(refmap, jaln)
    requires gr.chrom in refmap && "name" in gr.attrs
    requires var aln := jaln[refmap[gr.chrom]];
      && RefOrdered(aln) && ConOrdered(aln)
      && (exists i :: 0 <= i < |aln| && aln[i].refPos == gr.start - 1)
      && (exists i :: 0 <= i < |aln| && aln[i].refPos == gr.end)
      && k < |aln| && IsCalled(aln[k]) && gr.start - 1 <= aln[k].refPos <= gr.end
    ensures MapGene(gr, refmap, jaln, segStats, calledRegions).Success?
    ensures var g := MapGene(gr, refmap, jaln, segStats, calledRegions).value;
      g.start - 1 <= g.end
  {
    LocateOrdered(jaln[refmap[gr.chrom]], gr.start, gr.end, k);
  }

  /**
   * If the called regions of a mapped window tile its consensus span
   * `[start - 1, end]`, `call_len` is at most the span's length.
   */
  lemma CallLenWithinSpan(
    gr: GtfRow,
    refmap: map<string, string>,
    jaln: map<string, seq<Column>>,
    segStats: seq<Column> -> map<string, AttrValue>,
    calledRegions: seq<Column> -> seq<Region>)
    requires RefMapInto(refmap, jaln)
    requires gr.chrom in refmap && "name" in gr.attrs
    requires Locate(jaln[refmap[gr.chrom]], gr.start, gr.end).Success?
    requires var aln := jaln[refmap[gr.chrom]];
      var w := Locate(aln, gr.start, gr.end).value;
      var conS := aln[w.first].conPos;
      var conE := aln[w.last].conPos;
      conS <= conE + 1 && Tiled(calledRegions(Slice(aln, w.first, w.last)), conS, conE)
    ensures var g := MapGene(gr, refmap, jaln, segStats, calledRegions).value;
      g.attrs["call_len"].IntValue? && 0 <= g.attrs["call_len"].n <= g.end - g.start + 2
  {
    var g := MapGene(gr, refmap, jaln, segStats, calledRegions).value;
    var aln := jaln[refmap[gr.chrom]];
    var w := Locate(aln, gr.start, gr.end).value;
    CallLenBound(calledRegions(Slice(aln, w.first, w.last)), g.start - 1, g.end);
  }

  /**
   * The start scans in the source's loop shape: a forward search, then a
   * forward skip that stops at the end of the alignment.
   */
  method StartByLoops(aln: seq<Column>, refS: int) returns (r: Result<nat, LocateError>)
    ensures r == StartColumn(aln, refS)
  {
    var s := 0;
    while s < |aln| && aln[s].refPos != refS
      invariant 0 <= s <= |aln|
      invariant FirstWithRef(aln, refS, s) == FirstWithRef(aln, refS, 0)
    {
      s := s + 1;
    }
    if s == |aln| {
      return Failure(StartNotFound(refS));
    }
    var m := s;
    while s < |aln| && aln[s].conPos == Uncalled
      invariant m <= s <= |aln|
      invariant NextCalled(aln, s) == NextCalled(aln, m)
    {
      s := s + 1;
    }
    if s == |aln| {
      return Failure(StartUncalledToEnd(m));
    }
    return Success(s);
  }

  /**
   * The end scans in the source's loop shape: a backward search, then a
   * backward skip that stops at index 0.
   */
  method EndByLoops(aln: seq<Column>, refE: int) returns (r: Result<nat, LocateError>)
    ensures r == EndColumn(aln, refE)
  {
    var e := |aln| - 1;
    while 0 <= e && aln[e].refPos != refE
      invariant -1 <= e < |aln|
      invariant LastWithRef(aln, refE, e + 1) == LastWithRef(aln, refE, |aln|)
    {
      e := e - 1;
    }
    if e < 0 {
      return Failure(EndNotFound(refE));
    }
    var m := e;
    while 0 <= e && aln[e].conPos == Uncalled
      invariant -1 <= e <= m
      invariant PrevCalled(aln, e + 1) == PrevCalled(aln, m + 1)
    {
      e := e - 1;
    }
    if e < 0 {
      return Failure(EndUncalledToStart(m));
    }
    return Success(e);
  }

  /** Both scans, as `Locate` composes them. */
  method LocateByLoops(aln: seq<Column>, start: int, end: int) returns (r: Result<Window, LocateError>)
    ensures r == Locate(aln, start, end)
  {
    var s := StartByLoops(aln, start - 1);
    if s.Failure? {
      return Failure(s.error);
    }
    var e := EndByLoops(aln, end);
    if e.Failure? {
      return Failure(e.error);
    }
    return Success(Window(s.value, e.value));
  }
}
