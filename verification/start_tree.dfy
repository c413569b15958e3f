/**
 * The starting-tree item of the raxml-ng command line in build_tree_NG.py:
 * `--tree pars{p}`, `--tree rand{r}` or `--tree pars{p},rand{r}` from the
 * optional `pars_tree`/`rand_tree` counts, or no item when neither is given.
 */
module StartTree {
  import opened Wrappers
  import opened Strings

  const TreeFlag: string := "--tree "

  /** `name{n}` with `n` written by `%d`. */
  function Braced(name: string, n: int): string {
    name + "{" + Decimal(n) + "}"
  }

  function Pars(p: int): string {
    Braced("pars", p)
  }

  function Rand(r: int): string {
    Braced("rand", r)
  }

  /** The `--tree` item for random and parsimony starting trees, if any. */
  function StartTreeArg(pars: Option<int>, rand: Option<int>): (r: Option<string>)
    ensures r.None? <==> pars.None? && rand.None?
    ensures r.Some? ==> |r.value| > |TreeFlag| && r.value[..|TreeFlag|] == TreeFlag
  {
    match (pars, rand)
    case (Some(p), None) => Some(TreeFlag + Pars(p))
    case (None, Some(q)) => Some(TreeFlag + Rand(q))
    case (Some(p), Some(q)) => Some(TreeFlag + Pars(p) + "," + Rand(q))
    case (None, None) => None
  }

  /** Reads `name{n}` at the head of `s`, returning `n` and what follows the brace. */
  function ParseBraced(s: string, name: string): Option<(int, string)>
  {
    if |s| < |name| + 1 || s[..|name| + 1] != name + "{" then None
    else
      var body := s[|name| + 1..];
      match IndexOf(body, '}')
      case None => None
      case Some(k) =>
        match ParseInt(body[..k])
        case None => None
        case Some(n) => Some((n, body[k + 1..]))
  }

  /** Reads a `--tree` item back into the parsimony and random counts. */
  function ParseStartTreeArg(s: string): Option<(Option<int>, Option<int>)>
  {
    if |s| < |TreeFlag| || s[..|TreeFlag|] != TreeFlag then None
    else
      var spec := s[|TreeFlag|..];
      var pars := ParseBraced(spec, "pars");
      if pars.Some? then
        var (p, rest) := pars.value;
        if rest == "" then Some((Some(p), None))
        else if rest[0] != ',' then None
        else
          var rand := ParseBraced(rest[1..], "rand");
          if rand.Some? && rand.value.1 == "" then Some((Some(p), Some(rand.value.0))) else None
      else
        var rand := ParseBraced(spec, "rand");
        if rand.Some? && rand.value.1 == "" then Some((None, Some(rand.value.0))) else None
  }

  lemma ParseBracedRoundTrip(name: string, n: int, tail: string)
    ensures ParseBraced(Braced(name, n) + tail, name) == Some((n, tail))
  {
    var head := name + "{";
    var digits := Decimal(n);
    var body := digits + ['}'] + tail;
    var s := Braced(name, n) + tail;
    assert s == head + body;
    assert s[..|head|] == head;
    assert s[|head|..] == body;
    DecimalCharacters(n, '}');
    IndexOfAfterPrefix(digits, '}', tail);
    assert body[..|digits|] == digits;
    assert body[|digits| + 1..] == tail;
    DecimalRoundTrip(n);
  }

  lemma ParsIsNotRand(r: int, tail: string)
    ensures ParseBraced(Rand(r) + tail, "pars") == None
  {
    assert (Rand(r) + tail)[0] == 'r';
  }

  /** The item names both counts: reading it back recovers exactly the options it was built from. */
  lemma StartTreeRoundTrip(pars: Option<int>, rand: Option<int>)
    requires pars.Some? || rand.Some?
    ensures ParseStartTreeArg(StartTreeArg(pars, rand).value) == Some((pars, rand))
  {
    match (pars, rand)
    case (Some(p), None) => ParsOnlyRoundTrip(p);
    case (None, Some(q)) => RandOnlyRoundTrip(q);
    case (Some(p), Some(q)) => BothRoundTrip(p, q);
  }

  lemma ParsOnlyRoundTrip(p: int)
    ensures ParseStartTreeArg(TreeFlag + Pars(p)) == Some((Some(p), None))
  {
    var spec := Pars(p) + "";
    var s := TreeFlag + Pars(p);
    assert s == TreeFlag + spec;
    assert s[..|TreeFlag|] == TreeFlag;
    assert s[|TreeFlag|..] == spec;
    ParseBracedRoundTrip("pars", p, "");
  }

  lemma RandOnlyRoundTrip(q: int)
    ensures ParseStartTreeArg(TreeFlag + Rand(q)) == Some((None, Some(q)))
  {
    var spec := Rand(q) + "";
    var s := TreeFlag + Rand(q);
    assert s == TreeFlag + spec;
    assert s[..|TreeFlag|] == TreeFlag;
    assert s[|TreeFlag|..] == spec;
    ParsIsNotRand(q, "");
    ParseBracedRoundTrip("rand", q, "");
  }

  lemma BothRoundTrip(p: int, q: int)
    ensures ParseStartTreeArg(TreeFlag + Pars(p) + "," + Rand(q)) == Some((Some(p), Some(q)))
  {
    var last := Rand(q) + "";
    var rest := [','] + last;
    var spec := Pars(p) + rest;
    var s := TreeFlag + Pars(p) + "," + Rand(q);
    assert s == TreeFlag + spec;
    assert s[..|TreeFlag|] == TreeFlag;
    assert s[|TreeFlag|..] == spec;
    ParseBracedRoundTrip("pars", p, rest);
    assert rest[0] == ',' && rest[1..] == last;
    ParseBracedRoundTrip("rand", q, "");
  }
}
