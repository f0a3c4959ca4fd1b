/** The self-consistency table built by `calc_designability`: every
    ProteinMPNN sequence except the first record of `seqs/sample.fa` is
    refolded with ESMFold, scored against the reference backbone, and
    appended as one row to eight parallel result columns. The predictor,
    the TM-align call and the backbone RMSD are parameters: the model says
    which inputs reach them and where their results land, not what they
    compute. */
module Designability {
  import opened Text
  import Folding

  /** One record of a FASTA file: header line and residue string. */
  datatype FastaRecord = FastaRecord(header: string, sequence: string)

  /** What a structure prediction yields: the structure written to disk and
      read back, the predicted TM-score, the mean pLDDT and the mean PAE. */
  datatype Prediction<S> = Prediction(structure: S, ptm: real, plddt: real, pae: real)

  /** The external computations the loop calls.
      `predict` receives the normalised sequence and the chunk size chosen
      for it; `tmAlign` returns the TM-scores normalised by the first and by
      the second structure; `rmsd` is the backbone RMSD after superposition. */
  datatype Evaluators<!S> = Evaluators(
    predict: (string, nat) -> Prediction<S>,
    tmAlign: (S, S) -> (real, real),
    rmsd: (S, S) -> real)

  /** One row of `sc_results.csv`. */
  datatype Row = Row(
    tmScore: real,
    bbRmsd: real,
    samplePath: string,
    header: string,
    sequence: string,
    ptm: real,
    plddt: real,
    pae: real)

  /** The `mpnn_results` dictionary: eight column lists. */
  datatype ScResults = ScResults(
    tmScore: seq<real>,
    bbRmsd: seq<real>,
    samplePath: seq<string>,
    header: seq<string>,
    sequence: seq<string>,
    ptm: seq<real>,
    plddt: seq<real>,
    pae: seq<real>)

  /** All eight columns have the same length, as `pd.DataFrame` requires. */
  predicate Rectangular(t: ScResults) {
    var n := |t.tmScore|;
    && |t.bbRmsd| == n && |t.samplePath| == n && |t.header| == n
    && |t.sequence| == n && |t.ptm| == n && |t.plddt| == n && |t.pae| == n
  }

  function Height(t: ScResults): nat {
    |t.tmScore|
  }

  /** Row `k` of the table, read across the columns. */
  function RowAt(t: ScResults, k: nat): Row
    requires Rectangular(t) && k < Height(t)
  {
    Row(t.tmScore[k], t.bbRmsd[k], t.samplePath[k], t.header[k],
        t.sequence[k], t.ptm[k], t.plddt[k], t.pae[k])
  }

  /** The table before the loop: every column empty. */
  const EmptyResults := ScResults([], [], [], [], [], [], [], [])

  /** The eight `append` calls of one iteration: the new row goes below the
      existing ones and every existing row is left as it was. */
  function AddRow(t: ScResults, row: Row): (r: ScResults)
    requires Rectangular(t)
    ensures Rectangular(r) && Height(r) == Height(t) + 1
    ensures RowAt(r, Height(t)) == row
    ensures forall k :: 0 <= k < Height(t) ==> RowAt(r, k) == RowAt(t, k)
  {
    ScResults(t.tmScore + [row.tmScore], t.bbRmsd + [row.bbRmsd],
              t.samplePath + [row.samplePath], t.header + [row.header],
              t.sequence + [row.sequence], t.ptm + [row.ptm],
              t.plddt + [row.plddt], t.pae + [row.pae])
  }

  /* ----------------------------------------------------------------------
     Paths
     ---------------------------------------------------------------------- */

  /** `os.path.join(a, b)` on POSIX: an absolute `b` replaces `a`; otherwise
      `b` is appended, with a `/` unless `a` is empty or already ends in one. */
  function PathJoin(a: string, b: string): (r: string)
    ensures |b| > 0 && b[0] == '/' ==> r == b
    ensures !(|b| > 0 && b[0] == '/') ==>
      && |a| + |b| <= |r| <= |a| + |b| + 1
      && r[..|a|] == a && r[|r| - |b|..] == b
      && (|r| == |a| + |b| + 1 ==> r[|a|] == '/')
    ensures !(|b| > 0 && b[0] == '/') ==>
      (|r| == |a| + |b| <==> |a| == 0 || a[|a| - 1] == '/')
    ensures !(|b| > 0 && b[0] == '/') && |a| > 0 ==>
      a[|a| - 1] == '/' || (|r| > |a| && r[|a|] == '/')
  {
    if |b| > 0 && b[0] == '/' then b
    else if |a| == 0 || a[|a| - 1] == '/' then a + b
    else a + "/" + b
  }

  /** `esmf_dir = os.path.join(decoy_pdb_dir, "esmf")`. */
  function EsmfDir(dir: string): (r: string)
    ensures |r| >= 4 && r[|r| - 4..] == "esmf"
    ensures |r| >= |dir| + 4 && r[..|dir|] == dir
  {
    PathJoin(dir, "esmf")
  }

  /** `os.path.join(esmf_dir, f"sample_{i}.pdb")`. */
  function SamplePath(dir: string, i: nat): string {
    PathJoin(EsmfDir(dir), "sample_" + DecimalString(i) + ".pdb")
  }

  /** The sample path is the ESMFold directory, a slash, and the file
      `sample_<i>.pdb` with `i` written in decimal. */
  lemma SamplePathShape(dir: string, i: nat)
    ensures SamplePath(dir, i) == EsmfDir(dir) + "/sample_" + DecimalString(i) + ".pdb"
  {
  }

  /** The record index can be read back from its sample path: the text
      between `sample_` and `.pdb` is the decimal numeral of the index. */
  lemma SamplePathIndex(dir: string, i: nat)
    ensures var p := SamplePath(dir, i);
      var e := |EsmfDir(dir)| + 8;
      && e <= |p| - 4
      && AllDigits(p[e..|p| - 4])
      && ParseDecimal(p[e..|p| - 4]) == i
  {
    var p := SamplePath(dir, i);
    var e := EsmfDir(dir) + "/sample_";
    SamplePathShape(dir, i);
    assert p == e + DecimalString(i) + ".pdb";
    assert p[|e|..|p| - 4] == DecimalString(i);
    ParseDecimalString(i);
  }

  /** Distinct record indices get distinct files, so no prediction
      overwrites another. */
  lemma SamplePathsDistinct(dir: string, i: nat, j: nat)
    requires i != j
    ensures SamplePath(dir, i) != SamplePath(dir, j)
  {
    SamplePathIndex(dir, i);
    SamplePathIndex(dir, j);
  }

  /* ----------------------------------------------------------------------
     The loop
     ---------------------------------------------------------------------- */

  /** `run_folding` on a candidate sequence: the prediction for its folding
      plan (normalised sequence, chunk size). */
  function Fold<S>(ev: Evaluators<S>, candidate: string): (r: Prediction<S>)
    ensures r == ev.predict(Folding.Normalize(candidate),
                            Folding.ChunkSize(|Folding.Residues(Folding.Prepare(candidate))|))
  {
    var job := Folding.PlanFolding(candidate, Folding.FoldingCopies);
    ev.predict(job.sequence, job.chunkSize)
  }

  /** The row for record `i`: the prediction's confidences, the TM-score
      normalised by the refolded chain (`tm_norm_chain2`), and the RMSD of
      the refolded backbone to the reference. */
  function ScoreCandidate<S>(ev: Evaluators<S>, reference: S, dir: string, i: nat, rec: FastaRecord): (r: Row)
    ensures var p := ev.predict(Folding.Normalize(rec.sequence),
                                Folding.ChunkSize(|Folding.Residues(Folding.Prepare(rec.sequence))|));
      && r.tmScore == ev.tmAlign(reference, p.structure).1
      && r.bbRmsd == ev.rmsd(reference, p.structure)
      && r.ptm == p.ptm && r.plddt == p.plddt && r.pae == p.pae
    ensures r.samplePath == SamplePath(dir, i)
    ensures r.header == rec.header && r.sequence == rec.sequence
  {
    var p := Fold(ev, rec.sequence);
    Row(ev.tmAlign(reference, p.structure).1, ev.rmsd(reference, p.structure),
        SamplePath(dir, i), rec.header, rec.sequence, p.ptm, p.plddt, p.pae)
  }

  /** `t` holds exactly the rows for records `1 .. n`, in order. */
  predicate ScoredUpTo<S>(t: ScResults, records: seq<FastaRecord>, reference: S, dir: string, ev: Evaluators<S>, n: nat)
    requires n < |records|
  {
    && Rectangular(t) && Height(t) == n
    && forall k :: 0 <= k < n ==>
      RowAt(t, k) == ScoreCandidate(ev, reference, dir, k + 1, records[k + 1])
  }

  /** Appending the row for record `n + 1` extends the scored prefix. */
  lemma ScoredExtend<S>(t: ScResults, records: seq<FastaRecord>, reference: S, dir: string, ev: Evaluators<S>, n: nat)
    requires n + 1 < |records|
    requires ScoredUpTo(t, records, reference, dir, ev, n)
    ensures ScoredUpTo(AddRow(t, ScoreCandidate(ev, reference, dir, n + 1, records[n + 1])),
                       records, reference, dir, ev, n + 1)
  {
    var t' := AddRow(t, ScoreCandidate(ev, reference, dir, n + 1, records[n + 1]));
    forall k | 0 <= k < n + 1
      ensures RowAt(t', k) == ScoreCandidate(ev, reference, dir, k + 1, records[k + 1])
    {
      if k < n {
        assert RowAt(t', k) == RowAt(t, k);
      }
    }
  }

  /** A scored table carries each record's header, sequence and sample path
      in the matching row, and no two rows share a sample path. */
  lemma ScoredRows<S>(t: ScResults, records: seq<FastaRecord>, reference: S, dir: string, ev: Evaluators<S>, n: nat)
    requires n < |records|
    requires ScoredUpTo(t, records, reference, dir, ev, n)
    ensures forall k :: 0 <= k < n ==>
      && t.header[k] == records[k + 1].header
      && t.sequence[k] == records[k + 1].sequence
      && t.samplePath[k] == SamplePath(dir, k + 1)
    ensures forall k, l :: 0 <= k < l < n ==> t.samplePath[k] != t.samplePath[l]
  {
    forall k | 0 <= k < n
      ensures t.header[k] == records[k + 1].header
      ensures t.sequence[k] == records[k + 1].sequence
      ensures t.samplePath[k] == SamplePath(dir, k + 1)
    {
      assert RowAt(t, k) == ScoreCandidate(ev, reference, dir, k + 1, records[k + 1]);
    }
    forall k, l | 0 <= k < l < n
      ensures t.samplePath[k] != t.samplePath[l]
    {
      SamplePathsDistinct(dir, k + 1, l + 1);
    }
  }

  /** The loop over the records of `seqs/sample.fa`: record 0 (the input
      backbone's own sequence) is skipped, every later record `i` becomes
      row `i - 1`. */
  method CalcDesignability<S>(records: seq<FastaRecord>, reference: S, dir: string, ev: Evaluators<S>)
    returns (t: ScResults)
    ensures Rectangular(t)
    ensures Height(t) == if |records| == 0 then 0 else |records| - 1
    ensures forall k :: 0 <= k < Height(t) ==>
      && t.header[k] == records[k + 1].header
      && t.sequence[k] == records[k + 1].sequence
      && t.samplePath[k] == SamplePath(dir, k + 1)
    ensures forall k :: 0 <= k < Height(t) ==>
      RowAt(t, k) == ScoreCandidate(ev, reference, dir, k + 1, records[k + 1])
    ensures forall k, l :: 0 <= k < l < Height(t) ==> t.samplePath[k] != t.samplePath[l]
  {
    t := EmptyResults;
    if |records| == 0 {
      return;
    }
    // Record 0 is skipped.
    var i := 1;
    while i < |records|
      invariant 1 <= i <= |records|
      invariant ScoredUpTo(t, records, reference, dir, ev, i - 1)
    {
      ScoredExtend(t, records, reference, dir, ev, i - 1);
      t := AddRow(t, ScoreCandidate(ev, reference, dir, i, records[i]));
      i := i + 1;
    }
    ScoredRows(t, records, reference, dir, ev, i - 1);
  }
}
