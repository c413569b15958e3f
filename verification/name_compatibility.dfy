/**
 * `check_name_compatibility` of build_tree_NG.py as a text transformation:
 * every symbol that the alignment format does not allow in sequence names
 * becomes `_`. Reading and writing the files is not modelled.
 */
module NameCompatibility {
  import opened Wrappers

  /** The symbols replaced in FASTA input. */
  const FastaSymbols: seq<char> := [' ', ';', ',', ':', '(', ')', '\'']

  /** The symbols replaced in PHYLIP input: the FASTA list without the space. */
  const PhylipSymbols: seq<char> := [';', ',', ':', '(', ')', '\'']

  /** `in_type` names other than FASTA and PHYLIP leave the symbol list unbound. */
  datatype SanitizeError = UnknownFormat(inType: string)

  function SymbolList(inType: string): (r: Option<seq<char>>)
    ensures r.Some? <==> inType == "FASTA" || inType == "PHYLIP"
    ensures r.Some? ==> '_' !in r.value
    ensures r.Some? ==> forall c :: c in r.value <==> c in FastaSymbols && (c != ' ' || inType == "FASTA")
  {
    if inType == "FASTA" then Some(FastaSymbols)
    else if inType == "PHYLIP" then Some(PhylipSymbols)
    else None
  }

  /** `text.replace(sym, "_")` for a one-character `sym`. */
  function ReplaceChar(text: string, sym: char): (r: string)
    ensures |r| == |text|
    ensures forall i :: 0 <= i < |text| ==> r[i] == if text[i] == sym then '_' else text[i]
  {
    if |text| == 0 then ""
    else [if text[0] == sym then '_' else text[0]] + ReplaceChar(text[1..], sym)
  }

  /** The loop over the symbol list, replacing each symbol present in the text. */
  function ReplaceEach(text: string, syms: seq<char>): (r: string)
    ensures |r| == |text|
    ensures forall i :: 0 <= i < |text| ==> r[i] == if text[i] in syms then '_' else text[i]
    decreases |syms|
  {
    if |syms| == 0 then text
    else
      var next := if syms[0] in text then ReplaceChar(text, syms[0]) else text;
      ReplaceEach(next, syms[1..])
  }

  /** The content of the fixed-names file for `in_type` and the input text. */
  function Sanitize(inType: string, text: string): (r: Result<string, SanitizeError>)
    ensures r.Failure? <==> inType != "FASTA" && inType != "PHYLIP"
    ensures r.Success? ==> |r.value| == |text|
    ensures r.Success? ==> forall i :: 0 <= i < |text| ==>
      r.value[i] == if text[i] in SymbolList(inType).value then '_' else text[i]
    ensures r.Success? ==> forall c :: c in SymbolList(inType).value ==> c !in r.value
  {
    match SymbolList(inType)
    case None => Failure(UnknownFormat(inType))
    case Some(syms) => Success(ReplaceEach(text, syms))
  }

  /** For FASTA, spaces are replaced along with the other symbols; for PHYLIP, spaces are kept. */
  lemma SpaceHandling(text: string, i: nat)
    requires i < |text| && text[i] == ' '
    ensures Sanitize("FASTA", text).value[i] == '_'
    ensures Sanitize("PHYLIP", text).value[i] == ' '
  {
    assert ' ' in FastaSymbols;
    assert ' ' !in PhylipSymbols;
  }

  /** Sanitising twice is sanitising once: `_` is never one of the symbols. */
  lemma SanitizeIdempotent(inType: string, text: string)
    requires Sanitize(inType, text).Success?
    ensures Sanitize(inType, Sanitize(inType, text).value) == Sanitize(inType, text)
  {
    var once := Sanitize(inType, text).value;
    var twice := Sanitize(inType, once).value;
    assert twice == once;
  }

  /**
   * The call site: only FASTA and PHYLIP input is sanitised, into
   * `seqs_fixednames.fasta` or `seqs_fixednames.phy`; for any other
   * `in_type` no file is written, so the unbound-list error is never raised.
   */
  function FixNames(inType: string, text: string): (r: Option<(string, string)>)
    ensures r.Some? <==> inType == "FASTA" || inType == "PHYLIP"
    ensures r.Some? ==> Sanitize(inType, text) == Success(r.value.1)
    ensures r.Some? ==> r.value.0 == if inType == "FASTA" then "seqs_fixednames.fasta" else "seqs_fixednames.phy"
  {
    if inType == "FASTA" then Some(("seqs_fixednames.fasta", Sanitize(inType, text).value))
    else if inType == "PHYLIP" then Some(("seqs_fixednames.phy", Sanitize(inType, text).value))
    else None
  }
}
