/**
 * The per-gene body of annotate_from_ref.py as the Python executes it,
 * without the corrections of `AnnotateFromRef.MapGene`: a `for ... break`
 * search that finds nothing leaves its index at the last value it took, the
 * skip loops have no bounds checks, and a negative index reads from the end
 * of the alignment. Used only to exhibit where the two differ.
 */
module AsWritten {
  import opened Wrappers
  import opened Alignment
  import opened CalledRegions
  import opened AnnotateFromRef

  /** The exceptions the Python body can raise. */
  datatype PyError =
    | KeyError     // a missing dictionary key
    | NameError    // a `for` variable read before any loop has bound it
    | IndexError   // a list index out of range

  /** Python's `xs[i]` position for `-n <= i < n`: negative indices count from the end. */
  function PyIndex(n: nat, i: int): (k: nat)
    requires -(n as int) <= i < n
    ensures k < n
    ensures i >= 0 ==> k == i
    ensures i < 0 ==> k == n + i
  {
    if i < 0 then n + i else i
  }

  /**
   * The start search: the first match, or the last index when there is none.
   * On an empty alignment the loop binds nothing. `aln_s` is a local of the
   * whole function, so `bound` says whether an earlier gene row already left
   * a value in it: reading `alignment[aln_s]` then raises `IndexError`, and
   * `NameError` otherwise.
   */
  function PyFindStart(aln: seq<Column>, p: int, bound: bool): (r: Result<nat, PyError>)
    ensures r.Failure? <==> |aln| == 0
    ensures r.Failure? ==> r.error == if bound then IndexError else NameError
    ensures r.Success? ==> r.value < |aln|
    ensures r.Success? && aln[r.value].refPos == p ==>
      forall j :: 0 <= j < r.value ==> aln[j].refPos != p
    ensures r.Success? && aln[r.value].refPos != p ==>
      r.value == |aln| - 1 && forall j :: 0 <= j < |aln| ==> aln[j].refPos != p
  {
    if |aln| == 0 then Failure(if bound then IndexError else NameError)
    else
      match FirstWithRef(aln, p, 0)
      case Some(i) => Success(i)
      case None => Success(|aln| - 1)
  }

  /** The end search: the last match, or index 0 when there is none. */
  function PyFindEnd(aln: seq<Column>, p: int): (r: nat)
    requires |aln| > 0
    ensures r < |aln|
    ensures aln[r].refPos == p ==> forall j :: r < j < |aln| ==> aln[j].refPos != p
    ensures aln[r].refPos != p ==> r == 0 && forall j :: 0 <= j < |aln| ==> aln[j].refPos != p
  {
    match LastWithRef(aln, p, |aln|)
    case Some(i) => i
    case None => 0
  }

  /** The unchecked forward skip: stepping past the last column raises `IndexError`. */
  function PySkipForward(aln: seq<Column>, i: nat): (r: Result<nat, PyError>)
    requires i <= |aln|
    ensures r.Success? ==> i <= r.value < |aln| && IsCalled(aln[r.value])
    ensures r.Success? ==> forall j :: i <= j < r.value ==> !IsCalled(aln[j])
    ensures r.Failure? ==> r.error == IndexError
    ensures r == Failure(IndexError) <==> forall j :: i <= j < |aln| ==> !IsCalled(aln[j])
  {
    match NextCalled(aln, i)
    case None => Failure(IndexError)
    case Some(j) => Success(j)
  }

  /**
   * The unchecked backward skip: below index 0 it keeps reading, from the
   * end of the alignment, and raises `IndexError` only below `-|aln|`.
   */
  function PySkipBack(aln: seq<Column>, i: int): (r: Result<int, PyError>)
    requires -|aln| - 1 <= i < |aln|
    ensures r.Success? ==> -|aln| <= r.value <= i && IsCalled(aln[PyIndex(|aln|, r.value)])
    ensures r.Success? ==> forall j :: r.value < j <= i ==> !IsCalled(aln[PyIndex(|aln|, j)])
    ensures r.Failure? ==> r.error == IndexError
    ensures r.Failure? <==> forall j :: -|aln| <= j <= i ==> !IsCalled(aln[PyIndex(|aln|, j)])
    decreases i + |aln| + 1
  {
    if i < -|aln| then Failure(IndexError)
    else if !IsCalled(aln[PyIndex(|aln|, i)]) then PySkipBack(aln, i - 1)
    else Success(i)
  }

  /**
   * Python's `xs[i:j]` for `0 <= i <= |xs|` and `j <= |xs|`: a negative stop
   * counts from the end, and a stop at or before the start gives `[]`.
   */
  function PySlice(aln: seq<Column>, i: nat, j: int): (w: seq<Column>)
    requires i <= |aln| && j <= |aln|
    ensures i + |w| <= |aln|
    ensures forall k :: 0 <= k < |w| ==> w[k] == aln[i + k]
    ensures 0 <= j ==> |w| == if i < j then j - i else 0
    ensures -|aln| <= j < 0 ==> |w| == if i < |aln| + j then |aln| + j - i else 0
    ensures j < -|aln| ==> w == []
  {
    var stop := if j >= 0 then j else if j + |aln| >= 0 then j + |aln| else 0;
    if i < stop then aln[i..stop] else []
  }

  /** The two searches and skips as written: the start and end indices, or the exception raised. */
  function PyLocate(aln: seq<Column>, start: int, end: int, bound: bool): (r: Result<(nat, int), PyError>)
    ensures r.Success? ==> r.value.0 < |aln| && -|aln| <= r.value.1 < |aln|
    ensures r.Success? ==> IsCalled(aln[r.value.0]) && IsCalled(aln[PyIndex(|aln|, r.value.1)])
  {
    match PyFindStart(aln, start - 1, bound)
    case Failure(err) => Failure(err)
    case Success(s0) =>
      match PySkipForward(aln, s0)
      case Failure(err) => Failure(err)
      case Success(s) =>
        match PySkipBack(aln, PyFindEnd(aln, end))
        case Failure(err) => Failure(err)
        case Success(e) => Success((s, e))
  }

  /** The per-gene body exactly as written. */
  function MapGene(
    gr: GtfRow,
    refmap: map<string, string>,
    jaln: map<string, seq<Column>>,
    segStats: seq<Column> -> map<string, AttrValue>,
    calledRegions: seq<Column> -> seq<Region>,
    bound: bool): (r: Result<GtfRow, PyError>)
    requires RefMapInto(refmap, jaln)
    ensures r == Failure(KeyError) <==>
      gr.chrom !in refmap || (PyLocate(jaln[refmap[gr.chrom]], gr.start, gr.end, bound).Success? && "name" !in gr.attrs)
    ensures r.Success? ==> gr.chrom in refmap && r.value.chrom == refmap[gr.chrom] && r.value.source == "haphpipe"
  {
    if gr.chrom !in refmap then Failure(KeyError)
    else
      var key := refmap[gr.chrom];
      var aln := jaln[key];
      match PyLocate(aln, gr.start, gr.end, bound)
      case Failure(err) => Failure(err)
      case Success((s, e)) =>
        if "name" !in gr.attrs then Failure(KeyError)
        else
          Success(Emit(gr, key, aln[s].conPos, aln[PyIndex(|aln|, e)].conPos, PySlice(aln, s, e + 1),
                       segStats, calledRegions))
  }

  lemma {:induction false} PySkipBackAgrees(aln: seq<Column>, i: nat, j: nat)
    requires i < |aln|
    requires PrevCalled(aln, i + 1) == Some(j)
    ensures PySkipBack(aln, i) == Success(j as int)
    decreases i
  {
    if IsCalled(aln[i]) {
      assert j == i;
    } else {
      assert i > 0 && PrevCalled(aln, i) == Some(j);
      PySkipBackAgrees(aln, i - 1, j);
    }
  }

  /**
   * Wherever the corrected body places a gene, the Python body emits the
   * same row: the two differ only on inputs the corrected body rejects.
   */
  lemma AgreesWhenPlaced(
    gr: GtfRow,
    refmap: map<string, string>,
    jaln: map<string, seq<Column>>,
    segStats: seq<Column> -> map<string, AttrValue>,
    calledRegions: seq<Column> -> seq<Region>,
    bound: bool)
    requires RefMapInto(refmap, jaln)
    requires gr.chrom in refmap && "name" in gr.attrs
    requires Locate(jaln[refmap[gr.chrom]], gr.start, gr.end).Success?
    ensures MapGene(gr, refmap, jaln, segStats, calledRegions, bound)
         == Success(AnnotateFromRef.MapGene(gr, refmap, jaln, segStats, calledRegions).value)
  {
    var aln := jaln[refmap[gr.chrom]];
    assert Locate(aln, gr.start, gr.end).Success? && "name" in gr.attrs;
    var w := Locate(aln, gr.start, gr.end).value;
    PyScansAgree(aln, gr.start, gr.end, bound);
    PlacedRow(gr, refmap, jaln, segStats, calledRegions, bound, w.first, w.last);
    assert AnnotateFromRef.MapGene(gr, refmap, jaln, segStats, calledRegions)
        == Success(Emit(gr, refmap[gr.chrom], aln[w.first].conPos, aln[w.last].conPos, Slice(aln, w.first, w.last),
                        segStats, calledRegions));
  }

  lemma PlacedRow(
    gr: GtfRow,
    refmap: map<string, string>,
    jaln: map<string, seq<Column>>,
    segStats: seq<Column> -> map<string, AttrValue>,
    calledRegions: seq<Column> -> seq<Region>,
    bound: bool,
    first: nat,
    last: nat)
    requires RefMapInto(refmap, jaln)
    requires gr.chrom in refmap && "name" in gr.attrs
    requires var aln := jaln[refmap[gr.chrom]];
      first < |aln| && last < |aln| && PyLocate(aln, gr.start, gr.end, bound) == Success((first, last as int))
    ensures var aln := jaln[refmap[gr.chrom]];
      MapGene(gr, refmap, jaln, segStats, calledRegions, bound)
        == Success(Emit(gr, refmap[gr.chrom], aln[first].conPos, aln[last].conPos, Slice(aln, first, last),
                        segStats, calledRegions))
  {
    var aln := jaln[refmap[gr.chrom]];
    assert PyIndex(|aln|, last) == last;
    assert PySlice(aln, first, last + 1) == Slice(aln, first, last);
  }

  /** Where `Locate` succeeds, the unchecked scans find the same two columns. */
  lemma PyScansAgree(aln: seq<Column>, start: int, end: int, bound: bool)
    requires Locate(aln, start, end).Success?
    ensures var w := Locate(aln, start, end).value;
      && PyLocate(aln, start, end, bound) == Success((w.first, w.last as int))
      && PySlice(aln, w.first, w.last + 1) == Slice(aln, w.first, w.last)
  {
    var w := Locate(aln, start, end).value;
    LocateSteps(aln, start, end);
    var me := LastWithRef(aln, end, |aln|).value;
    assert PyFindEnd(aln, end) == me;
    PySkipBackAgrees(aln, me, w.last);
  }

  /** The alignment of the end-lookup scenario: reference positions 100..102, 101 uncalled. */
  function EndScenario(): seq<Column> {
    [Column(100, "A", "A", 50), Column(101, "A", "-", -1), Column(102, "A", "A", 51)]
  }

  function ScenarioGene(start: int, end: int): GtfRow {
    GtfRow("ref", "src", "gene", start, end, ".", "+", ".", map["name" := StrValue("g")])
  }

  /**
   * A gene ending past the alignment (`end = 103`, no column at reference
   * position 103): the end search falls back to index 0, and Python emits
   * a row with `start = 51`, `end = 50`; the corrected body reports the
   * missing end column.
   */
  lemma EndNotFoundFallsBack(
    segStats: seq<Column> -> map<string, AttrValue>,
    calledRegions: seq<Column> -> seq<Region>,
    bound: bool)
    ensures var refmap := map["ref" := "ref"];
      var jaln := map["ref" := EndScenario()];
      && MapGene(ScenarioGene(101, 103), refmap, jaln, segStats, calledRegions, bound).Success?
      && MapGene(ScenarioGene(101, 103), refmap, jaln, segStats, calledRegions, bound).value.start == 51
      && MapGene(ScenarioGene(101, 103), refmap, jaln, segStats, calledRegions, bound).value.end == 50
      && AnnotateFromRef.MapGene(ScenarioGene(101, 103), refmap, jaln, segStats, calledRegions)
         == Failure(Unplaced(EndNotFound(103)))
  {
    var aln := EndScenario();
    assert LastWithRef(aln, 103, 3) == None;
    assert FirstWithRef(aln, 100, 0) == Some(0);
  }

  /** An alignment whose first two columns are uncalled. */
  function WrapScenario(): seq<Column> {
    [Column(0, "A", "-", -1), Column(1, "C", "-", -1), Column(2, "G", "G", 0)]
  }

  /**
   * A gene whose end column and every column before it are uncalled: the
   * backward skip reaches index -1, Python reads the last column there and
   * emits a row with `start = 1`, `end = 0` over an empty window; the
   * corrected body reports that the end skip ran past index 0.
   */
  lemma BackwardSkipWraps(
    segStats: seq<Column> -> map<string, AttrValue>,
    calledRegions: seq<Column> -> seq<Region>,
    bound: bool)
    ensures var refmap := map["ref" := "ref"];
      var jaln := map["ref" := WrapScenario()];
      && MapGene(ScenarioGene(1, 1), refmap, jaln, segStats, calledRegions, bound).Success?
      && MapGene(ScenarioGene(1, 1), refmap, jaln, segStats, calledRegions, bound).value.start == 1
      && MapGene(ScenarioGene(1, 1), refmap, jaln, segStats, calledRegions, bound).value.end == 0
      && AnnotateFromRef.MapGene(ScenarioGene(1, 1), refmap, jaln, segStats, calledRegions)
         == Failure(Unplaced(EndUncalledToStart(1)))
  {
    var aln := WrapScenario();
    assert FirstWithRef(aln, 0, 0) == Some(0);
    assert NextCalled(aln, 0) == Some(2);
    assert LastWithRef(aln, 1, 3) == Some(1);
    assert PrevCalled(aln, 2) == None;
    assert PySkipBack(aln, 1) == Success(-1);
  }
}
