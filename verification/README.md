# haphpipe: reference-to-consensus annotation and tree-building name rules

A Dafny model of the two pieces of pure logic in two haphpipe stages.

- **annotate_from_ref** places each `gene` row of a reference GTF on the
  padded alignment of the consensus against that reference. An alignment is a
  sequence of columns `(refPos, refBase, conBase, conPos)`, where `conPos = -1`
  means the consensus has no call at that column. The gene's 1-based
  inclusive `[start, end]` becomes the window `ref_s = start - 1`,
  `ref_e = end`. The first column at `ref_s` is moved forward, and the last
  column at `ref_e` backward, to the nearest called column. The gene is then
  re-emitted with `start = con_s + 1` and `end = con_e`. Its attributes get
  the segment statistics, the called regions as `call_reg` (`"s-e"` tokens
  joined by commas) and their total length as `call_len`. All of these are
  computed over the inclusive window of columns between the two boundary
  columns.
- **build_tree_NG** rewrites the input alignment before raxml-ng runs. Every
  symbol that the format does not allow in sequence names becomes `_`. For
  FASTA that is space `; , : ( ) '`; for PHYLIP it is the same list without
  the space. The stage also builds the starting-tree item of the raxml-ng
  command line: `pars{p}`, `rand{r}`, both, or none.

Modules: `Wrappers` (Option/Result), `Strings` (`%d` formatting and parsing,
`join`/`split`), `Alignment` (columns, the four scans, `Locate`, the window
slice), `CalledRegions` (`call_reg`/`call_len`), `AnnotateFromRef` (the row
record, the per-gene body, the row loop), `AsWritten` (the per-gene body as the
Python executes it), `NameCompatibility` and `StartTree`.

A scan that goes wrong does not always fail in the code. A search that finds
nothing keeps its last index and the gene is mapped from that column. The
backward skip can step below index 0, where Python's negative indexing reads
from the end of the list. Other cases do raise: the forward skip stepping past
the end of the list and the backward skip stepping below `-len` raise
`IndexError`, and an empty alignment raises `NameError` or `IndexError`. The
model's `AnnotateFromRef.MapGene` reports each of these cases as its own
`LocateError`: `StartNotFound`, `StartUncalledToEnd`, `EndNotFound` and
`EndUncalledToStart`. This differs from what the Python does.
`AsWritten.MapGene` models the code as written, and
`AsWritten.AgreesWhenPlaced` proves that the two emit the same row whenever
the corrected body succeeds. See "## Findings".

## Model

| member | source | states |
|---|---|---|
| Alignment.FirstWithRef | haphpipe/stages/annotate_from_ref.py:54-57 | the start search returns the lowest index whose reference position is `ref_s`, and none when no column has it |
| Alignment.LastWithRef | haphpipe/stages/annotate_from_ref.py:61-64 | the end search returns the highest index whose reference position is `ref_e`, and none when no column has it |
| Alignment.NextCalled | haphpipe/stages/annotate_from_ref.py:58-59 | the forward skip only moves forward and stops at the first called column at or after the match; none when all later columns are uncalled |
| Alignment.PrevCalled | haphpipe/stages/annotate_from_ref.py:65-66 | the backward skip only moves backward and stops at the last called column at or before the match; none when all earlier columns are uncalled |
| Alignment.Locate | haphpipe/stages/annotate_from_ref.py:51-66 | the window is `ref_s = start - 1`, `ref_e = end`; on success both boundary columns are called, the start column is the lowest `ref_s` match moved forward over uncalled columns only, and the end column is the highest `ref_e` match moved backward over uncalled columns only; `StartNotFound` holds exactly when no column is at `ref_s`; `StartUncalledToEnd` names the lowest `ref_s` match, after which no column is called; the end is examined only once the start is placed; `EndNotFound` means no column is at `ref_e`; `EndUncalledToStart` names the highest `ref_e` match, at or before which no column is called |
| Alignment.StartColumn | haphpipe/stages/annotate_from_ref.py:54-59 | the start column is called, lies at or after the lowest `ref_s` match, and only uncalled columns lie between them; `StartNotFound` exactly when no column is at `ref_s`; `StartUncalledToEnd` names the lowest `ref_s` match, after which no column is called |
| Alignment.EndColumn | haphpipe/stages/annotate_from_ref.py:61-66 | the end column is called, lies at or before the highest `ref_e` match, and only uncalled columns lie between them; `EndNotFound` exactly when no column is at `ref_e`; `EndUncalledToStart` names the highest `ref_e` match, at or before which no column is called |
| Alignment.Slice | haphpipe/stages/annotate_from_ref.py:79-81 | the window handed to the statistics and the called-region finder is exactly the columns `aln_s..aln_e` in order; it is empty when `aln_s > aln_e` |
| Alignment.EndMatchIsExact | haphpipe/stages/annotate_from_ref.py:61-64 | columns are matched by equal reference position: with positions 10..12, a gene `[11, 13]` has no end column |
| Alignment.LocateOrdered | haphpipe/stages/annotate_from_ref.py:54-69 | on an alignment with non-decreasing reference and consensus positions, if columns at `ref_s = start - 1` and at `ref_e = end` exist and some called column lies in `[ref_s, ref_e]`, then the scans succeed, the window contains that column and `con_s <= con_e` |
| AnnotateFromRef.MappedAttrs | haphpipe/stages/annotate_from_ref.py:76-83 | the output attributes are `name`, the statistics (which override `name` if they carry one), `call_reg` and `call_len`, and no other keys |
| AnnotateFromRef.MapGene | haphpipe/stages/annotate_from_ref.py:50-83 | a chromosome missing from `refmap` fails; a window that cannot be placed fails with the `Locate` error; a missing `name` fails; on success the row has the alignment key as chrom, source `haphpipe`, the input's feature, strand and frame, score `.`, `start = con_s + 1`, `end = con_e`, and attributes computed over the window slice |
| AnnotateFromRef.GeneRows | haphpipe/stages/annotate_from_ref.py:47-49 | the rows the loop acts on are all `gene` rows and no more than the input rows |
| AnnotateFromRef.GeneRowsExact | haphpipe/stages/annotate_from_ref.py:47-49 | a row is acted on exactly when it is an input row whose feature is `gene` |
| AnnotateFromRef.GeneRowsAppend | haphpipe/stages/annotate_from_ref.py:47-49 | the gene rows keep their input order and multiplicity: the filter distributes over concatenation, and a single row is kept exactly when its feature is `gene` |
| AnnotateFromRef.RunRows | haphpipe/stages/annotate_from_ref.py:47-85 | the i-th emitted row is the mapping of the i-th gene row; the run emits every gene row unless a mapping fails, and then it stops at the first failing gene row with that error |
| AnnotateFromRef.Run | haphpipe/stages/annotate_from_ref.py:47-85 | `RunRows` with the per-gene body `MapGene` |
| AnnotateFromRef.RunIgnoresNonGenes | haphpipe/stages/annotate_from_ref.py:48-49 | rows whose feature is not `gene` produce no output: dropping them first leaves the run's outcome unchanged |
| AnnotateFromRef.MappedSpanNotInverted | haphpipe/stages/annotate_from_ref.py:68-74 | for a gene with a `name` attribute on an ordered alignment, if columns at `start - 1` and at `end` exist and the window holds a called column, the mapping succeeds and the consensus end is not before the consensus start (`end >= start - 1`) |
| AnnotateFromRef.CallLenWithinSpan | haphpipe/stages/annotate_from_ref.py:81-83 | if the called regions are ordered, disjoint and lie within the consensus span of the mapped gene, `call_len` is between 0 and the span's length |
| AnnotateFromRef.StartByLoops | haphpipe/stages/annotate_from_ref.py:54-59 | the source's forward search loop and forward skip loop, with a bound at the end of the alignment, compute exactly `StartColumn` |
| AnnotateFromRef.EndByLoops | haphpipe/stages/annotate_from_ref.py:61-66 | the source's backward search loop and backward skip loop, with a bound at index 0, compute exactly `EndColumn` |
| AnnotateFromRef.LocateByLoops | haphpipe/stages/annotate_from_ref.py:54-66 | the two loop pairs together compute exactly `Locate` |
| CalledRegions.FormatRegion | haphpipe/stages/annotate_from_ref.py:82 | one `"%d-%d"` token never contains the comma that separates tokens |
| CalledRegions.FormatRegions | haphpipe/stages/annotate_from_ref.py:82 | `call_reg` is empty for no regions; otherwise its comma-separated fields are, in order, the `"%d-%d"` tokens of the regions, one per region |
| CalledRegions.CallLen | haphpipe/stages/annotate_from_ref.py:83 | `call_len` is non-negative when no region is inverted |
| CalledRegions.CallLenAppend | haphpipe/stages/annotate_from_ref.py:83 | `call_len` is additive over concatenated region lists |
| CalledRegions.FormatRegionsRoundTrip | haphpipe/stages/annotate_from_ref.py:82 | `call_reg` lists the same regions in the same order: reading the comma-joined `"s-e"` tokens back gives the regions exactly |
| CalledRegions.CallLenBound | haphpipe/stages/annotate_from_ref.py:83 | the sum of `e - s + 1` over ordered, disjoint regions within `[lo, hi]` is between 0 and `hi - lo + 1` |
| Strings.DecimalRoundTrip | haphpipe/stages/annotate_from_ref.py:82 | the `%d` rendering of any integer reads back as that integer |
| Strings.SplitJoin | haphpipe/stages/annotate_from_ref.py:82 | splitting a `','.join` of items that contain no comma gives back the items |
| AsWritten.PyFindStart | haphpipe/stages/annotate_from_ref.py:54-57 | the Python start search fails exactly on an empty alignment, with `NameError` for the first gene row and `IndexError` once an earlier gene row has bound `aln_s`; a matching index is the lowest match; when its index does not match, nothing matched and the index is the last one |
| AsWritten.PyFindEnd | haphpipe/stages/annotate_from_ref.py:61-64 | a matching index of the Python end search is the highest match; when its index does not match, nothing matched and the index is 0 |
| AsWritten.PySkipForward | haphpipe/stages/annotate_from_ref.py:58-59 | the unchecked forward skip stops at the first called column at or after its start, and raises `IndexError` exactly when no later column is called |
| AsWritten.PySkipBack | haphpipe/stages/annotate_from_ref.py:65-66 | the unchecked backward skip stops at the nearest called column at or below its start, reading negative indices from the end, down to `-len`; it raises `IndexError` exactly when every column it can read, down to `-len`, is uncalled |
| AsWritten.PyLocate | haphpipe/stages/annotate_from_ref.py:54-66 | the start index found by the Python scans is a valid index and the end index lies in `[-len, len)`; the columns read at both are called |
| AsWritten.PySlice | haphpipe/stages/annotate_from_ref.py:79-81 | Python's `alignment[aln_s:aln_e+1]`: the columns from `aln_s` in order, as many as lie before the stop, where a negative stop counts from the end and a stop at or before the start gives an empty window |
| AsWritten.MapGene | haphpipe/stages/annotate_from_ref.py:50-83 | the per-gene body as written raises `KeyError` exactly for a chromosome missing from `refmap` or, once the scans end, a missing `name`; an emitted row has the alignment key as chrom and source `haphpipe` |
| AsWritten.PyScansAgree | haphpipe/stages/annotate_from_ref.py:54-66 | where `Locate` succeeds, the unchecked scans reach the same two columns and the Python slice is the same window |
| AsWritten.AgreesWhenPlaced | haphpipe/stages/annotate_from_ref.py:50-83 | whenever the corrected body emits a row, the body as written emits the same row |
| AsWritten.EndNotFoundFallsBack | haphpipe/stages/annotate_from_ref.py:61-64 | with columns at 100..102 and gene `[101, 103]`, the code as written emits `start = 51`, `end = 50`; the corrected body fails with `EndNotFound(103)` |
| AsWritten.BackwardSkipWraps | haphpipe/stages/annotate_from_ref.py:65-66 | when the end column and every column before it are uncalled, the code as written reads the last column at index -1 and emits `start = 1`, `end = 0`; the corrected body fails with `EndUncalledToStart` |
| NameCompatibility.SymbolList | haphpipe/stages/build_tree_NG.py:86-89 | a symbol list exists exactly for FASTA and PHYLIP; PHYLIP's list is FASTA's without the space; `_` is never in it |
| NameCompatibility.ReplaceChar | haphpipe/stages/build_tree_NG.py:93-94 | replacing one symbol keeps the length and changes exactly the positions that hold that symbol, each to `_` |
| NameCompatibility.ReplaceEach | haphpipe/stages/build_tree_NG.py:92-94 | after the loop over the symbols, a position holds `_` if its character was in the list and is unchanged otherwise; the length is kept |
| NameCompatibility.Sanitize | haphpipe/stages/build_tree_NG.py:85-94 | fails exactly for an `in_type` other than FASTA or PHYLIP; otherwise keeps the length, replaces each listed symbol by `_`, leaves every other character in place, and leaves no listed symbol in the text |
| NameCompatibility.SpaceHandling | haphpipe/stages/build_tree_NG.py:86-89 | a space becomes `_` for FASTA and stays a space for PHYLIP |
| NameCompatibility.SanitizeIdempotent | haphpipe/stages/build_tree_NG.py:87-94 | sanitising already-sanitised text changes nothing |
| NameCompatibility.FixNames | haphpipe/stages/build_tree_NG.py:124-128 | the stage sanitises only FASTA input (into `seqs_fixednames.fasta`) and PHYLIP input (into `seqs_fixednames.phy`), so the missing-symbol-list error cannot occur there |
| StartTree.StartTreeArg | haphpipe/stages/build_tree_NG.py:144-149 | there is a `--tree` start item exactly when a parsimony or a random count is given, and it begins with `--tree ` |
| StartTree.StartTreeRoundTrip | haphpipe/stages/build_tree_NG.py:144-149 | the item determines both counts: parsimony only gives `pars{p}`, random only gives `rand{r}`, both give `pars{p},rand{r}`, and reading the item back recovers exactly which were given and their values |

## Findings

| source | as written | input that shows it | evidently intended | confidence | as-written member | corrected member |
|---|---|---|---|---|---|---|
| haphpipe/stages/annotate_from_ref.py:54-57, 61-64 | a `for ... break` search that finds no matching column leaves its index at the last value tried (`len - 1` for the start, `0` for the end) and the gene is mapped from that column | columns `(100,A,A,50) (101,A,-,-1) (102,A,A,51)`, gene `start=101 end=103`: no column at 103, yet a row with `start=51 end=50` is emitted | a gene whose boundary position is absent from the alignment is reported as not found | not executed | AsWritten.MapGene, AsWritten.EndNotFoundFallsBack | Alignment.Locate |
| haphpipe/stages/annotate_from_ref.py:65-66 | the backward skip has no lower bound; at index 0 it steps to -1, which Python reads as the last column | columns `(0,A,-,-1) (1,C,-,-1) (2,G,G,0)`, gene `start=1 end=1`: the end index becomes -1 and a row with `start=1 end=0` and an empty window is emitted | the backward skip stops at index 0 and reports that the gene has no called end column | not executed | AsWritten.MapGene, AsWritten.BackwardSkipWraps | Alignment.Locate |

The forward skip at lines 58-59 also has no bound. Running off the end of the
list raises `IndexError` in Python (`AsWritten.PySkipForward`), so it is a
crash rather than a wrong row. The model reports it as `StartUncalledToEnd`.

## Left out

- Reading the alignment JSON (`load_slot_json`), parsing the GTF (`gtf_parser`), the `GTFRow` class and building `refmap` from `parse_seq_id` (annotate_from_ref.py:44-46) are not part of this model. `refmap` and the alignment document are parameters. `RefMapInto` requires that every key `refmap` hands out is a key of the document, which holds by construction at line 46.
- `get_seg_stats` and `called_regions` are not part of this model. Both are function-typed parameters of `MapGene`. So every property of `call_reg` and `call_len` holds for whatever regions `called_regions` returns. Properties that depend on what it returns are not stated. Examples: a window in which every column is called gives one region; a window with one called column gives a region of length 1.
- AnnotateFromRef.CallLenWithinSpan: assumes that the called regions are ordered, disjoint and within the consensus span, because `called_regions` is not modelled.
- Printing the row and choosing the output stream (annotate_from_ref.py:43, 85) are left out as I/O. The order of the attributes in the printed line is not modelled: attributes are a map.
- A run stops at the first failing gene, as in the source. Rows printed before the failure are kept in `RunOutcome.emitted`.
- Reading and writing the files in `check_name_compatibility` (build_tree_NG.py:90-91, 95) is left out as I/O. Only the text transformation is modelled.
- The rest of `build_tree_NG` is left out as orchestration of an external binary: the dependency check, `mkdir`, temporary directories, the raxml-ng run, copying outputs (lines 108-122, 131, 185-219), and the other raxml-ng flags (lines 134-143, 150-183), including a user tree's separate `--tree` item.
- Argument parsing (`stageparser`, `console`), `demo.py` (download, unpacking and file checks) and `miscellaneous.py` (subcommand dispatch) are left out as command-line and I/O glue.
- AsWritten.MapGene: its contract states the `KeyError` cases and the chrom and source of an emitted row, not the other fields. It exists to exhibit the two findings and the agreement lemma (which fixes every field wherever the corrected body succeeds), not as a specification.
- AsWritten.PyLocate: its contract states index bounds and that both columns read are called, not which columns the scans reach. That is stated by the four scans' own contracts and, where `Locate` succeeds, by `AsWritten.PyScansAgree`.
- `aln_s` and `aln_e` are locals of the whole `annotate_from_ref` function and survive from one gene row to the next. This matters only for an empty alignment, where the start search binds nothing. The as-written model takes whether an earlier gene row already bound `aln_s` as the parameter `bound`, which chooses between `NameError` and `IndexError`. The corrected model fails with `StartNotFound` either way.
