# Evaluation-runner core: a Dafny model

This project models the sequential logic inside `EvalRunner`, the evaluation
driver of the protein-design pipeline (`protein/EvalRunner_jupyter.py`).
Almost everything in that class calls external tools and libraries: it
launches ProteinMPNN, maxcluster and Foldseek as subprocesses, and calls
ESMFold and TM-align in-process. The model covers the four pieces
of plain logic between those launches:

- **Folding input** (`text.dfy`, `folding.dfy`). Before ESMFold is called,
  `run_folding` upper-cases the input sequence and turns `/` into `:`. It
  then runs four regular-expression passes:
  - it keeps only `[A-Z:]`;
  - it collapses runs of `:`;
  - it trims leading `:`;
  - it trims trailing `:`.

  It then replicates the sequence `copies` times, joined by `:`, splits it
  into chains, and sums the chain lengths. From those it picks the mode
  (mono, homo or hetero) and the chunk size: 64 above 700 residues,
  otherwise 128.
- **maxcluster report parsing** (`cluster_report.dfy`). `run_max_cluster`
  reads maxcluster's standard output in two ways:
  - It searches for the summary line
    `INFO : <n> Clusters @ Threshold <d.d> (<d.d>)` and returns `n`.
  - It scans the lines from the first one containing `Centroids`. From each
    line it takes the first whitespace-preceded absolute `.pdb` path, and
    names that centroid's copy after the path's parent directory.

  The summary regular expression is modelled as a sequence of tokens:
  literals, and runs of `\s` or `\d`. A greedy matcher is proved to agree
  with backtracking regular-expression semantics. The proof holds because
  each run in the pattern is followed by a token its class cannot match.
  The centroid pattern `(?<=\s)(/[^\s]+\.pdb)` is specified as Python's
  leftmost match. For that start, the end is the largest one, which is
  where the greedy `[^\s]+` backs off to.
- **ProteinMPNN retry loop** (`design_retry.dfy`). This is the
  `while ret < 0` loop in `calc_designability`, modelled as a function of
  the sequence of attempt outcomes (raised, or returned an exit code):
  - an exception is counted and logged;
  - on the fifth exception the error is re-raised;
  - a non-negative exit code ends the loop;
  - a negative exit code loops again without being counted.

  The loop is proved equal to a function, `Expected`, defined without
  the loop. It counts the exceptions before the first non-negative exit
  code.
- **Self-consistency table** (`designability.dfy`). This is the loop that
  turns the ProteinMPNN FASTA records into the eight columns of
  `sc_results.csv`:
  - record 0 is skipped;
  - record `i` becomes row `i - 1`, with sample path `esmf/sample_<i>.pdb`;
  - the structure predictor, TM-align and RMSD are function parameters.

`Text` holds what the others share:
- Python's `str.split` and `str.join` on one character;
- the `\s` and `\d` character classes;
- decimal numerals (`int(...)` and `f"{i}"`).

## Model

| member | source | states |
|---|---|---|
| Text.Split | protein/EvalRunner_jupyter.py:475 | `sequence.split(":")` yields one more piece than there are separators, and no piece contains the separator |
| Text.JoinSplit | protein/EvalRunner_jupyter.py:470-475 | joining the pieces of a split with the same separator gives back the original text |
| Text.SplitJoin | protein/EvalRunner_jupyter.py:470-475 | splitting a join of separator-free pieces gives back exactly those pieces |
| Text.SplitConcat | protein/EvalRunner_jupyter.py:249 | splitting `x/y` on `/` gives the pieces of `x` followed by the pieces of `y` |
| Text.DecimalString | protein/EvalRunner_jupyter.py:338 | `f"{i}"` is a non-empty string of digits with no leading zero |
| Text.ParseDecimalString | protein/EvalRunner_jupyter.py:338 | reading a rendered index back with `int` gives the index (round trip of `f"{i}"`) |
| Text.DecimalStringInjective | protein/EvalRunner_jupyter.py:338 | distinct indices render as distinct numerals |
| Folding.Prepare | protein/EvalRunner_jupyter.py:463 | `replace("/", ":").upper()` keeps the length; a character becomes `:` exactly when it was `:` or `/`, becomes a letter `A`–`Z` exactly when it was an ASCII letter, each lower-case letter becomes its own capital, and only `/` and lower-case letters change |
| Folding.KeepAlphabet | protein/EvalRunner_jupyter.py:463 | after the `[^A-Z:]` filter every character is an upper-case letter or `:` |
| Folding.KeepAlphabetOne | protein/EvalRunner_jupyter.py:463 | one character survives the filter exactly when it is in `[A-Z:]` |
| Folding.KeepAlphabetAppend | protein/EvalRunner_jupyter.py:463 | the filter of a concatenation is the concatenation of the filters, so exactly the `[A-Z:]` characters survive, colons included, in order |
| Folding.CollapseColons | protein/EvalRunner_jupyter.py:464 | after `:+` → `:` there is no `::`; the result is empty exactly when the input is, starts and ends with the same characters as the input, and a text over `[A-Z:]` stays over `[A-Z:]` |
| Folding.WordsOfCollapse | protein/EvalRunner_jupyter.py:464 | collapsing colon runs leaves the non-empty colon-separated words unchanged |
| Folding.TrimLeadingColons | protein/EvalRunner_jupyter.py:465 | the result is a suffix of the input, everything removed is `:`, and it does not start with `:` |
| Folding.TrimTrailingColons | protein/EvalRunner_jupyter.py:466 | the result is a prefix of the input, everything removed is `:`, and it does not end with `:` |
| Folding.Normalize | protein/EvalRunner_jupyter.py:463-466 | the normalised sequence is over `[A-Z:]`, has no `::`, and neither starts nor ends with `:` |
| Folding.NormalizeJoinsWords | protein/EvalRunner_jupyter.py:463-466 | the normaliser equals the reference definition: the non-empty colon-separated words of the filtered, upper-cased input, joined by single colons |
| Folding.NormalizeKeepsResidues | protein/EvalRunner_jupyter.py:463-466 | the letters of the normalised sequence are exactly the `A`–`Z` letters of the upper-cased input (with `/` turned into `:`), in order |
| Folding.NormalizeFixesCanonical | protein/EvalRunner_jupyter.py:463-466 | a sequence already in normal form is left unchanged |
| Folding.NormalizeIdempotent | protein/EvalRunner_jupyter.py:463-466 | normalising twice gives the same result as normalising once |
| Folding.TrimsCanonical | protein/EvalRunner_jupyter.py:465-466 | trimming both ends of a colon-collapsed text over `[A-Z:]` leaves no colon at either end and no `::` |
| Folding.SplitWellSeparated | protein/EvalRunner_jupyter.py:475 | a non-empty normalised sequence splits into non-empty chains |
| Folding.ReplicateSplit | protein/EvalRunner_jupyter.py:470-475 | the chains of `copies` colon-joined replicas are `copies` repetitions of the chains of one replica |
| Folding.SplitLengths | protein/EvalRunner_jupyter.py:475-477 | the chain lengths add up to the sequence length minus the number of separators |
| Folding.PlanFolding | protein/EvalRunner_jupyter.py:463-506 | the folded sequence is over `[A-Z:]` and is the colon-join of its chains; the chains are `max(copies, 1)` repetitions of the normalised chains; with `copies <= 1` the sequence is the normalised one; the length excludes separators and equals copies × residue count; the mode is mono exactly for one chain, homo exactly for two or more equal chains, hetero exactly when some chain differs from the first; chunk size is 64 exactly when the length exceeds 700 and 128 exactly when it does not |
| Folding.PlanChainsNonEmpty | protein/EvalRunner_jupyter.py:463-475 | with a non-empty normalised input every chain is non-empty |
| Folding.ClassifyMode | protein/EvalRunner_jupyter.py:480-486 | mono exactly for one chain, homo exactly when there are at least two chains and all are equal, and, for a non-empty chain list, hetero exactly when some chain differs from the first |
| Folding.ChunkSize | protein/EvalRunner_jupyter.py:502-506 | the chunk size is 64 exactly when the length exceeds 700, and 128 exactly when it does not |
| Folding.ChunkSizeAntitone | protein/EvalRunner_jupyter.py:502-506 | a longer sequence never gets a larger chunk size |
| Folding.PlanModeOfSingleChain | protein/EvalRunner_jupyter.py:467-486 | a single-chain input is mono with one copy and homo when replicated |
| ClusterReport.RunEnd | protein/EvalRunner_jupyter.py:231 | a `\s*`/`\d+` run consumed greedily stops at the first character outside the class |
| ClusterReport.GreedySound | protein/EvalRunner_jupyter.py:230-234 | what the greedy matcher matches, the backtracking semantics also matches |
| ClusterReport.GreedyComplete | protein/EvalRunner_jupyter.py:230-234 | for a pattern whose runs are each followed by a token outside their class, any backtracking match of a prefix ends where the greedy matcher ends |
| ClusterReport.GreedyIsRegex | protein/EvalRunner_jupyter.py:230-234 | for such patterns the greedy matcher ends at `j` exactly when the regular expression can match up to `j` |
| ClusterReport.SummaryPatternPossessive | protein/EvalRunner_jupyter.py:231 | in the summary pattern every run is followed by a token its class cannot match |
| ClusterReport.SummaryAt | protein/EvalRunner_jupyter.py:230-234 | a reported count comes from a match of the summary pattern: head, digit group and tail each match in turn, and the count is the integer value of the all-digit group |
| ClusterReport.SummaryAtIsRegex | protein/EvalRunner_jupyter.py:230-234 | the summary matcher succeeds at a position exactly when the summary regular expression matches there |
| ClusterReport.SummaryCountIsGroup | protein/EvalRunner_jupyter.py:230-234 | the reported count is the integer value of the first group, whichever way the regular expression splits the match |
| ClusterReport.LeftmostSummary | protein/EvalRunner_jupyter.py:230-233 | `re.search` finds no match exactly when no position matches; otherwise it returns a matching position with no match before it |
| ClusterReport.TokenEnd | protein/EvalRunner_jupyter.py:246 | the whitespace-free stretch starting at a position ends at the next whitespace or the end of the line |
| ClusterReport.LastSuffix | protein/EvalRunner_jupyter.py:246 | the last `.pdb` occurrence in a range, and none when the range has none |
| ClusterReport.PathEndAt | protein/EvalRunner_jupyter.py:246 | from a given start the centroid pattern's match ends at the largest possible end, and there is none when no end works |
| ClusterReport.PathMatchFrom | protein/EvalRunner_jupyter.py:246 | the match found is the leftmost one, with the greedy end for that start; there is none when the pattern matches nowhere |
| ClusterReport.CentroidPath | protein/EvalRunner_jupyter.py:246-248 | a line yields a path exactly when the pattern matches it; the path is the text of the leftmost match, with the largest end for that start, preceded by whitespace; it starts with `/`, ends in `.pdb`, has at least one character between them and no whitespace |
| ClusterReport.CopyName | protein/EvalRunner_jupyter.py:249 | the copy name ends in `.pdb` and its stem has no `/` |
| ClusterReport.CopyNameOfParent | protein/EvalRunner_jupyter.py:249 | the copy of `dir/parent/file` is named `parent.pdb` |
| ClusterReport.CopyNameAtRoot | protein/EvalRunner_jupyter.py:249 | a file directly under the root, `/file`, is copied as `.pdb`, since `split("/")[-2]` is the empty first piece |
| ClusterReport.FirstOpening | protein/EvalRunner_jupyter.py:242-244 | centroid mode starts at the first line containing `Centroids`, and no earlier line contains it |
| ClusterReport.CentroidScan | protein/EvalRunner_jupyter.py:240-250 | each line contributes at most one centroid |
| ClusterReport.ScanInSection | protein/EvalRunner_jupyter.py:242-246 | once centroid mode is on it never switches off, and every later line contributes its centroid |
| ClusterReport.CentroidScanSpec | protein/EvalRunner_jupyter.py:240-250 | the centroids are those of the lines from the first `Centroids` line on, in order; earlier lines contribute nothing |
| ClusterReport.CentroidScanEntries | protein/EvalRunner_jupyter.py:240-250 | every centroid is a whitespace-free absolute `.pdb` path matched in some line, and carries that path's copy name |
| ClusterReport.LineCentroidEntries | protein/EvalRunner_jupyter.py:246-249 | the centroid a line yields is a well-formed path that the line's match produced, with its copy name |
| ClusterReport.ParseReport | protein/EvalRunner_jupyter.py:229-251 | parsing fails exactly when no position matches the summary pattern; otherwise the count is that of the leftmost match, the centroids are those of the lines of `stdout.split("\n")` from the first `Centroids` line on, in order, and there are no more centroids than lines |
| DesignRetry.Loop | protein/EvalRunner_jupyter.py:300-311 | the loop only appends to the log; a normal exit carries a non-negative exit code that one of the attempts returned; a re-raise happens only after a message numbered five or more; an unfinished loop has not lowered the count |
| DesignRetry.RunDesign | protein/EvalRunner_jupyter.py:281-311 | from the initial state the log is always attempts 1, 2, …, n; a normal exit carries a non-negative code one of the attempts returned; an unfinished loop's count equals the number of messages logged |
| DesignRetry.ExitFrom | protein/EvalRunner_jupyter.py:300 | the loop condition `ret < 0` first fails at the first attempt from a given one on that returns a non-negative exit code; no attempt before it does |
| DesignRetry.LoopMeetsExpected | protein/EvalRunner_jupyter.py:300-311 | from any count below five the loop's outcome is the one `Expected` reads off the attempts: the exceptions counted before the first non-negative exit code decide it |
| DesignRetry.RunDesignMeetsExpected | protein/EvalRunner_jupyter.py:281-311 | from `num_tries = 0` and `ret = -1` the loop's outcome is the one `Expected` reads off the attempts: the exceptions counted before the first non-negative exit code decide it |
| DesignRetry.ExitsAfterFewFailures | protein/EvalRunner_jupyter.py:300-311 | with fewer than five exceptions before the first non-negative exit code, the loop exits with that code after logging attempts 1..n, one per exception |
| DesignRetry.FifthFailureReraises | protein/EvalRunner_jupyter.py:306-311 | a fifth exception before any non-negative exit code re-raises, after logging attempts 1 to 5 |
| DesignRetry.OutcomeCases | protein/EvalRunner_jupyter.py:300-311 | each of the three outcomes (re-raised, exited, still retrying) holds exactly under its condition on the attempts |
| DesignRetry.LogBounded | protein/EvalRunner_jupyter.py:307-311 | the failure message is logged at most five times |
| DesignRetry.LoopSkipsNegative | protein/EvalRunner_jupyter.py:300-305 | from any loop state before a negative exit code, the loop ends the same way with or without it |
| DesignRetry.NegativeReturnIgnored | protein/EvalRunner_jupyter.py:300-305 | inserting a negative exit code anywhere into the attempts changes nothing: it is not counted and does not end the loop |
| Designability.AddRow | protein/EvalRunner_jupyter.py:363-370 | appending a row keeps the eight columns of equal length, puts the row at the bottom and leaves every earlier row unchanged |
| Designability.EsmfDir | protein/EvalRunner_jupyter.py:326 | the ESMFold directory starts with `decoy_pdb_dir` and ends in `esmf` |
| Designability.PathJoin | protein/EvalRunner_jupyter.py:326 | `os.path.join` returns an absolute second part unchanged; otherwise the result starts with the first part, ends with the second, and has a `/` inserted between them exactly when the first part is non-empty and does not already end in `/` |
| Designability.SamplePathShape | protein/EvalRunner_jupyter.py:326-338 | the sample path is the ESMFold directory, `/sample_`, the index in decimal, then `.pdb` |
| Designability.SamplePathIndex | protein/EvalRunner_jupyter.py:338 | the record index can be read back from its sample path |
| Designability.SamplePathsDistinct | protein/EvalRunner_jupyter.py:338 | distinct records get distinct sample files |
| Designability.Fold | protein/EvalRunner_jupyter.py:463-506 | the predictor receives the normalised sequence and the chunk size chosen for its residue count |
| Designability.ScoreCandidate | protein/EvalRunner_jupyter.py:338-370 | a row holds the record's header and raw sequence, its sample path, and the confidences, TM-score (the second, refolded-chain normalisation) and RMSD of the prediction for the normalised sequence |
| Designability.ScoredExtend | protein/EvalRunner_jupyter.py:332-370 | scoring the next record extends the table of rows for records `1..n` to `1..n+1` |
| Designability.ScoredRows | protein/EvalRunner_jupyter.py:332-370 | in a table of scored records, row `k` carries record `k+1`'s header and sequence and the path `sample_<k+1>.pdb`, and no two rows share a path |
| Designability.CalcDesignability | protein/EvalRunner_jupyter.py:315-370 | given `n` records, the table has `max(n - 1, 0)` rows in eight equal-length columns; row `k` is record `k+1` scored, carrying its header, sequence and path `sample_<k+1>.pdb`, the confidences of its predicted fold, the TM-score normalised by the refolded chain, and the RMSD; no two rows share a path |

## Left out

- Launching ProteinMPNN, maxcluster, Foldseek and the parse-chains helper is left out. So are the output and error streams, file writes, `shutil.copy` and `os.makedirs`. These are process control and I/O. Maxcluster's standard output is a parameter of `ParseReport`. The ProteinMPNN attempts are a parameter of `RunDesign`.
- ESMFold model loading, `infer`, `output_to_pdb` and `parse_output` are left out. They are GPU inference and floating-point averaging. The predictor is a function parameter that receives the normalised sequence and the chunk size. The model reload check always reloads, so there is nothing to verify about model swapping.
- `calc_tm_score`, `_calc_bb_rmsd`, `calc_mdtraj_metrics` and `pdbTM` are left out. They are foreign numerical code on floating-point coordinates. TM-align and RMSD are function parameters of `CalcDesignability`. The reference sequence that `calc_tm_score` also receives is derived from the reference structure, so it is part of that parameter.
- The SHA1 job id, `jobname` cleaning, GPU selection, CUDA cache clearing, logging destinations, pandas and CSV I/O, the hydra entry point and the rest of `calc_diversity` are left out. They do not affect the modelled results.
- `torch.cuda.empty_cache()` inside the retry handler is left out. If it raised, that error would propagate; the model assumes it does not.
- Folding.UpperAscii: `str.upper` is modelled for ASCII letters only. Some non-ASCII characters upper-case to ASCII letters (`ı` → `I`, `ſ` → `S`, `ß` → `SS`, `ﬀ` → `FF`). The model drops them as outside `[A-Z:]` instead.
- ClusterReport.SummaryAt: `\d` is modelled as the ASCII digits. Python's `re` also accepts other Unicode decimal digits, and `int` would read those too. Maxcluster prints ASCII.
- ClusterReport.ParseReport: a report without a summary line gives no result. The code instead fails with `AttributeError` on `match.group(1)`. Invalid UTF-8 in the output (a decode error) is not modelled.
- Designability.CalcDesignability: the FASTA file is modelled as a list of records in file order. The code reads it into a mapping keyed by header, so records with repeated headers would collapse there. Parsing the FASTA file is also left out.
- The stored TM-score is `tm_norm_chain2`, which is normalised by the refolded chain, not by the reference. The model stores that value.
- `calc_diversity` passes its manifest to maxcluster without checking whether it is empty. The call is not modelled.
- `run_folding` fixes `copies` at 1 (`Folding.FoldingCopies`). The copies policy (values of 0 or less become 1, and replicas are joined with `:`) is still modelled for every `copies` value.
- DesignRetry.RunDesign: the attempts are a finite list. When the list runs out while the loop is still running, the outcome is `Pending`. The real loop would launch again, so a run of negative exit codes that never ends is represented only by its finite prefixes.
- DesignRetry.RunDesign: a raised attempt stands for an `Exception` caught by the handler. A `BaseException` that is not an `Exception`, such as `KeyboardInterrupt`, escapes the loop at once without being counted or logged; the model has no such outcome.
