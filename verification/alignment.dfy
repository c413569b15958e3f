/**
 * The padded alignment of a consensus against its reference, and the scans
 * that locate a reference window in it (annotate_from_ref.py, the per-gene
 * body). A column is `(refPos, refBase, conBase, conPos)`; `conPos` is -1 when
 * the consensus has no call at that column.
 */
module Alignment {
  import opened Wrappers

  datatype Column = Column(refPos: int, refBase: string, conBase: string, conPos: int)

  /** The `conPos` sentinel for a column without a consensus call. */
  const Uncalled: int := -1

  predicate IsCalled(c: Column) {
    c.conPos != Uncalled
  }

  /** Reference positions never decrease along the alignment. */
  predicate RefOrdered(aln: seq<Column>) {
    forall i, j :: 0 <= i < j < |aln| ==> aln[i].refPos <= aln[j].refPos
  }

  /** Consensus positions of called columns never decrease along the alignment. */
  predicate ConOrdered(aln: seq<Column>) {
    forall i, j :: 0 <= i < j < |aln| && IsCalled(aln[i]) && IsCalled(aln[j]) ==> aln[i].conPos <= aln[j].conPos
  }

  /** The lowest index at or after `from` whose reference position is `p`. */
  function FirstWithRef(aln: seq<Column>, p: int, from: nat): (r: Option<nat>)
    requires from <= |aln|
    ensures r.Some? ==> from <= r.value < |aln| && aln[r.value].refPos == p
    ensures r.Some? ==> forall j :: from <= j < r.value ==> aln[j].refPos != p
    ensures r.None? ==> forall j :: from <= j < |aln| ==> aln[j].refPos != p
    decreases |aln| - from
  {
    if from == |aln| then None
    else if aln[from].refPos == p then Some(from)
    else FirstWithRef(aln, p, from + 1)
  }

  /** The highest index below `upto` whose reference position is `p`. */
  function LastWithRef(aln: seq<Column>, p: int, upto: nat): (r: Option<nat>)
    requires upto <= |aln|
    ensures r.Some? ==> r.value < upto && aln[r.value].refPos == p
    ensures r.Some? ==> forall j :: r.value < j < upto ==> aln[j].refPos != p
    ensures r.None? ==> forall j :: 0 <= j < upto ==> aln[j].refPos != p
  {
    if upto == 0 then None
    else if aln[upto - 1].refPos == p then Some(upto - 1)
    else LastWithRef(aln, p, upto - 1)
  }

  /** The forward skip: the lowest called index at or after `from`. */
  function NextCalled(aln: seq<Column>, from: nat): (r: Option<nat>)
    requires from <= |aln|
    ensures r.Some? ==> from <= r.value < |aln| && IsCalled(aln[r.value])
    ensures r.Some? ==> forall j :: from <= j < r.value ==> !IsCalled(aln[j])
    ensures r.None? ==> forall j :: from <= j < |aln| ==> !IsCalled(aln[j])
    decreases |aln| - from
  {
    if from == |aln| then None
    else if IsCalled(aln[from]) then Some(from)
    else NextCalled(aln, from + 1)
  }

  /** The backward skip: the highest called index below `upto`. */
  function PrevCalled(aln: seq<Column>, upto: nat): (r: Option<nat>)
    requires upto <= |aln|
    ensures r.Some? ==> r.value < upto && IsCalled(aln[r.value])
    ensures r.Some? ==> forall j :: r.value < j < upto ==> !IsCalled(aln[j])
    ensures r.None? ==> forall j :: 0 <= j < upto ==> !IsCalled(aln[j])
  {
    if upto == 0 then None
    else if IsCalled(aln[upto - 1]) then Some(upto - 1)
    else PrevCalled(aln, upto - 1)
  }

  /** Why a gene's window could not be placed on the alignment. */
  datatype LocateError =
    | StartNotFound(refStart: int)     // no column has refPos == start - 1
    | StartUncalledToEnd(startMatch: nat)   // every column from the start match to the end is uncalled
    | EndNotFound(refEnd: int)         // no column has refPos == end
    | EndUncalledToStart(endMatch: nat)   // every column from index 0 to the end match is uncalled

  /** Inclusive column indices of a located window; both columns are called. */
  datatype Window = Window(first: nat, last: nat)

  /**
   * Places the annotation `[start, end]` (1-based, inclusive) on the
   * alignment: the window is `ref_s = start - 1`, `ref_e = end`; the first
   * column matching `ref_s` is moved forward, and the last column matching
   * `ref_e` backward, to the nearest called column.
   */
  function Locate(aln: seq<Column>, start: int, end: int): (r: Result<Window, LocateError>)
    ensures r.Success? ==> r.value.first < |aln| && r.value.last < |aln|
    ensures r.Success? ==> IsCalled(aln[r.value.first]) && IsCalled(aln[r.value.last])
    // the start scan: the lowest match, then forward over uncalled columns only
    ensures r.Success? ==>
      exists m :: 0 <= m <= r.value.first && aln[m].refPos == start - 1
        && (forall j :: 0 <= j < m ==> aln[j].refPos != start - 1)
        && (forall j :: m <= j < r.value.first ==> !IsCalled(aln[j]))
    // the end scan: the highest match, then backward over uncalled columns only
    ensures r.Success? ==>
      exists m :: r.value.last <= m < |aln| && aln[m].refPos == end
        && (forall j :: m < j < |aln| ==> aln[j].refPos != end)
        && (forall j :: r.value.last < j <= m ==> !IsCalled(aln[j]))
    ensures r == Failure(StartNotFound(start - 1)) <==>
      forall j :: 0 <= j < |aln| ==> aln[j].refPos != start - 1
    ensures r.Failure? && r.error.StartNotFound? ==> r.error.refStart == start - 1
    ensures r.Failure? && r.error.StartUncalledToEnd? ==>
      var m := r.error.startMatch;
      && m < |aln| && aln[m].refPos == start - 1
      && (forall j :: 0 <= j < m ==> aln[j].refPos != start - 1)
      && (forall j :: m <= j < |aln| ==> !IsCalled(aln[j]))
    // the end is only examined once the start has been placed
    ensures r.Failure? && (r.error.EndNotFound? || r.error.EndUncalledToStart?) ==>
      StartColumn(aln, start - 1).Success?
    ensures r.Failure? && r.error.EndNotFound? ==>
      r.error.refEnd == end && forall j :: 0 <= j < |aln| ==> aln[j].refPos != end
    ensures r.Failure? && r.error.EndUncalledToStart? ==>
      var m := r.error.endMatch;
      && m < |aln| && aln[m].refPos == end
      && (forall j :: m < j < |aln| ==> aln[j].refPos != end)
      && (forall j :: 0 <= j <= m ==> !IsCalled(aln[j]))
  {
    match StartColumn(aln, start - 1)
    case Failure(why) => Failure(why)
    case Success(s) =>
      match EndColumn(aln, end)
      case Failure(why) => Failure(why)
      case Success(e) => Success(Window(s, e))
  }

  /** The start search for `refS` followed by the forward skip. */
  function StartColumn(aln: seq<Column>, refS: int): (r: Result<nat, LocateError>)
    ensures r.Success? ==> r.value < |aln| && IsCalled(aln[r.value])
    ensures r.Success? ==>
      exists m :: 0 <= m <= r.value && aln[m].refPos == refS
        && (forall j :: 0 <= j < m ==> aln[j].refPos != refS)
        && (forall j :: m <= j < r.value ==> !IsCalled(aln[j]))
    ensures r == Failure(StartNotFound(refS)) <==> forall j :: 0 <= j < |aln| ==> aln[j].refPos != refS
    ensures r.Failure? && r.error.StartNotFound? ==> r.error.refStart == refS
    ensures r.Failure? ==> r.error.StartNotFound? || r.error.StartUncalledToEnd?
    ensures r.Failure? && r.error.StartUncalledToEnd? ==>
      var m := r.error.startMatch;
      && m < |aln| && aln[m].refPos == refS
      && (forall j :: 0 <= j < m ==> aln[j].refPos != refS)
      && (forall j :: m <= j < |aln| ==> !IsCalled(aln[j]))
  {
    match FirstWithRef(aln, refS, 0)
    case None => Failure(StartNotFound(refS))
    case Some(m) =>
      match NextCalled(aln, m)
      case None => Failure(StartUncalledToEnd(m))
      case Some(s) => Success(s)
  }

  /** The end search for `refE` followed by the backward skip. */
  function EndColumn(aln: seq<Column>, refE: int): (r: Result<nat, LocateError>)
    ensures r.Success? ==> r.value < |aln| && IsCalled(aln[r.value])
    ensures r.Success? ==>
      exists m :: r.value <= m < |aln| && aln[m].refPos == refE
        && (forall j :: m < j < |aln| ==> aln[j].refPos != refE)
        && (forall j :: r.value < j <= m ==> !IsCalled(aln[j]))
    ensures r == Failure(EndNotFound(refE)) <==> forall j :: 0 <= j < |aln| ==> aln[j].refPos != refE
    ensures r.Failure? && r.error.EndNotFound? ==> r.error.refEnd == refE
    ensures r.Failure? ==> r.error.EndNotFound? || r.error.EndUncalledToStart?
    ensures r.Failure? && r.error.EndUncalledToStart? ==>
      var m := r.error.endMatch;
      && m < |aln| && aln[m].refPos == refE
      && (forall j :: m < j < |aln| ==> aln[j].refPos != refE)
      && (forall j :: 0 <= j <= m ==> !IsCalled(aln[j]))
  {
    match LastWithRef(aln, refE, |aln|)
    case None => Failure(EndNotFound(refE))
    case Some(m) =>
      match PrevCalled(aln, m + 1)
      case None => Failure(EndUncalledToStart(m))
      case Some(e) => Success(e)
  }

  /** A located window is the result of the four scans, in order. */
  lemma LocateSteps(aln: seq<Column>, start: int, end: int)
    requires Locate(aln, start, end).Success?
    ensures FirstWithRef(aln, start - 1, 0).Some?
    ensures NextCalled(aln, FirstWithRef(aln, start - 1, 0).value) == Some(Locate(aln, start, end).value.first)
    ensures LastWithRef(aln, end, |aln|).Some?
    ensures PrevCalled(aln, LastWithRef(aln, end, |aln|).value + 1) == Some(Locate(aln, start, end).value.last)
  {
    var s := StartColumn(aln, start - 1);
    var e := EndColumn(aln, end);
    assert s.Success? && e.Success?;
    assert Locate(aln, start, end).value == Window(s.value, e.value);
  }

  /**
   * Python's `aln[first:last + 1]`: the columns `first..last` inclusive,
   * empty when `first > last`.
   */
  function Slice(aln: seq<Column>, first: nat, last: nat): (w: seq<Column>)
    requires first < |aln| && last < |aln|
    ensures |w| == if first <= last then last - first + 1 else 0
    ensures forall k :: 0 <= k < |w| ==> w[k] == aln[first + k]
  {
    if first <= last then aln[first..last + 1] else []
  }

  /**
   * Columns are matched by equal reference position, not by containment:
   * with positions 10..12, a gene `[11, 13]` has no end column (13).
   */
  lemma EndMatchIsExact()
    ensures Locate([Column(10, "A", "A", 5), Column(11, "A", "A", 6), Column(12, "A", "A", 7)], 11, 13)
         == Failure(EndNotFound(13))
  {
    var aln := [Column(10, "A", "A", 5), Column(11, "A", "A", 6), Column(12, "A", "A", 7)];
    assert FirstWithRef(aln, 10, 0) == Some(0);
    assert LastWithRef(aln, 13, 3) == None;
  }

  /**
   * On an ordered alignment whose reference window `[start - 1, end]` holds a
   * called column, the scans succeed (once both boundary positions occur),
   * the window is not inverted and the consensus end is not before the
   * consensus start.
   */
  lemma LocateOrdered(aln: seq<Column>, start: int, end: int, k: nat)
    requires RefOrdered(aln) && ConOrdered(aln)
    requires exists i :: 0 <= i < |aln| && aln[i].refPos == start - 1
    requires exists i :: 0 <= i < |aln| && aln[i].refPos == end
    requires k < |aln| && IsCalled(aln[k]) && start - 1 <= aln[k].refPos <= end
    ensures Locate(aln, start, end).Success?
    ensures var w := Locate(aln, start, end).value;
      w.first <= k <= w.last && aln[w.first].conPos <= aln[w.last].conPos
  {
    var ms := FirstWithRef(aln, start - 1, 0);
    var me := LastWithRef(aln, end, |aln|);
    assert ms.Some? && me.Some?;
    var s := NextCalled(aln, ms.value);
    var e := PrevCalled(aln, me.value + 1);
    // a called column before the first start match would itself match
    ColumnNotBeforeFirstMatch(aln, start - 1, k, ms.value);
    ColumnNotAfterLastMatch(aln, end, k, me.value);
    assert s.Some? && s.value <= k;
    assert e.Some? && k <= e.value;
    assert Locate(aln, start, end) == Success(Window(s.value, e.value));
  }

  lemma ColumnNotBeforeFirstMatch(aln: seq<Column>, p: int, k: nat, m: nat)
    requires RefOrdered(aln)
    requires k < |aln| && p <= aln[k].refPos
    requires FirstWithRef(aln, p, 0) == Some(m)
    ensures m <= k
  {
  }

  lemma ColumnNotAfterLastMatch(aln: seq<Column>, p: int, k: nat, m: nat)
    requires RefOrdered(aln)
    requires k < |aln| && aln[k].refPos <= p
    requires LastWithRef(aln, p, |aln|) == Some(m)
    ensures k <= m
  {
  }
}
