/**
 * The `call_reg` and `call_len` attributes (annotate_from_ref.py): the called
 * regions of a window, as a list of inclusive `(s, e)` consensus intervals, are
 * written as comma-joined `"s-e"` tokens, and their lengths are summed.
 */
module CalledRegions {
  import opened Wrappers
  import opened Strings

  type Region = (int, int)

  /** One `'%d-%d' % t` token. */
  function FormatRegion(t: Region): (s: string)
    ensures ',' !in s
  {
    DecimalCharacters(t.0, ',');
    DecimalCharacters(t.1, ',');
    Decimal(t.0) + "-" + Decimal(t.1)
  }

  /** The `call_reg` attribute: the tokens of `regs`, in order, joined by commas. */
  function FormatRegions(regs: seq<Region>): (s: string)
    ensures |regs| == 0 ==> s == ""
    ensures |regs| > 0 ==>
      |Split(s, ',')| == |regs| && forall i :: 0 <= i < |regs| ==> Split(s, ',')[i] == FormatRegion(regs[i])
  {
    var tokens := seq(|regs|, i requires 0 <= i < |regs| => FormatRegion(regs[i]));
    if |regs| > 0 then SplitJoin(tokens, ','); Join(tokens, ',') else Join(tokens, ',')
  }

  /** The `call_len` attribute: the sum of `e - s + 1` over the regions. */
  function CallLen(regs: seq<Region>): (n: int)
    ensures (forall i :: 0 <= i < |regs| ==> regs[i].0 <= regs[i].1 + 1) ==> n >= 0
  {
    if |regs| == 0 then 0 else regs[0].1 - regs[0].0 + 1 + CallLen(regs[1..])
  }

  /** `call_len` is additive: the total does not depend on how the regions are grouped. */
  lemma {:induction false} CallLenAppend(a: seq<Region>, b: seq<Region>)
    ensures CallLen(a + b) == CallLen(a) + CallLen(b)
    decreases |a|
  {
    if |a| == 0 {
      assert a + b == b;
    } else {
      assert (a + b)[0] == a[0];
      assert (a + b)[1..] == a[1..] + b;
      CallLenAppend(a[1..], b);
    }
  }

  /** Reads one `"s-e"` token: the separator is the first `-` after the first character. */
  function ParseRegion(t: string): Option<Region>
  {
    if |t| == 0 then None
    else
      match IndexOf(t[1..], '-')
      case None => None
      case Some(k) =>
        match (ParseInt(t[..k + 1]), ParseInt(t[k + 2..]))
        case (Some(s), Some(e)) => Some((s, e))
        case _ => None
  }

  function ParseTokens(ts: seq<string>): (r: Option<seq<Region>>)
    ensures r.Some? ==> |r.value| == |ts|
  {
    if |ts| == 0 then Some([])
    else
      match (ParseRegion(ts[0]), ParseTokens(ts[1..]))
      case (Some(t), Some(rest)) => Some([t] + rest)
      case _ => None
  }

  /** Reads a `call_reg` attribute back into its regions. */
  function ParseRegions(s: string): Option<seq<Region>>
  {
    if s == "" then Some([]) else ParseTokens(Split(s, ','))
  }

  lemma RegionRoundTrip(t: Region)
    ensures ParseRegion(FormatRegion(t)) == Some(t)
  {
    var a := Decimal(t.0);
    var b := Decimal(t.1);
    var s := FormatRegion(t);
    assert s[1..] == a[1..] + ['-'] + b;
    DecimalSignOnlyFirst(t.0);
    IndexOfAfterPrefix(a[1..], '-', b);
    assert s[..|a|] == a;
    assert s[|a| + 1..] == b;
    DecimalRoundTrip(t.0);
    DecimalRoundTrip(t.1);
  }

  lemma {:induction false} TokensRoundTrip(regs: seq<Region>)
    ensures ParseTokens(seq(|regs|, i requires 0 <= i < |regs| => FormatRegion(regs[i]))) == Some(regs)
  {
    var ts := seq(|regs|, i requires 0 <= i < |regs| => FormatRegion(regs[i]));
    if |regs| > 0 {
      var tail := seq(|regs| - 1, i requires 0 <= i < |regs| - 1 => FormatRegion(regs[1..][i]));
      assert ts[1..] == tail;
      RegionRoundTrip(regs[0]);
      TokensRoundTrip(regs[1..]);
      assert [regs[0]] + regs[1..] == regs;
    }
  }

  /** The `call_reg` text determines the called regions: reading it back gives them, in order. */
  lemma FormatRegionsRoundTrip(regs: seq<Region>)
    ensures ParseRegions(FormatRegions(regs)) == Some(regs)
  {
    var ts := seq(|regs|, i requires 0 <= i < |regs| => FormatRegion(regs[i]));
    if |regs| > 0 {
      assert |FormatRegions(regs)| >= |ts[0]| >= 1;
      SplitJoin(ts, ',');
      TokensRoundTrip(regs);
    }
  }

  /** Regions in increasing order, pairwise disjoint, each non-empty and inside `[lo, hi]`. */
  predicate Tiled(regs: seq<Region>, lo: int, hi: int) {
    && (forall i :: 0 <= i < |regs| ==> lo <= regs[i].0 <= regs[i].1 <= hi)
    && (forall i :: 0 <= i < |regs| - 1 ==> regs[i].1 < regs[i + 1].0)
  }

  /**
   * When the called regions tile the consensus span `[lo, hi]`, `call_len`
   * is at most the length of the span, and not negative.
   */
  lemma {:induction false} CallLenBound(regs: seq<Region>, lo: int, hi: int)
    requires lo <= hi + 1
    requires Tiled(regs, lo, hi)
    ensures 0 <= CallLen(regs) <= hi - lo + 1
  {
    if |regs| > 0 {
      var r0 := regs[0];
      var rest := regs[1..];
      assert Tiled(rest, r0.1 + 1, hi) by {
        forall i | 0 <= i < |rest|
          ensures r0.1 + 1 <= rest[i].0
        {
          TiledIncreasing(regs, lo, hi, 0, i + 1);
        }
      }
      CallLenBound(rest, r0.1 + 1, hi);
    }
  }

  lemma {:induction false} TiledIncreasing(regs: seq<Region>, lo: int, hi: int, i: nat, j: nat)
    requires Tiled(regs, lo, hi)
    requires i < j < |regs|
    ensures regs[i].1 < regs[j].0
    decreases j - i
  {
    if i + 1 < j {
      TiledIncreasing(regs, lo, hi, i + 1, j);
    }
  }
}
