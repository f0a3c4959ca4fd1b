/** The input side of the structure-prediction call `run_folding`: the
    sequence normaliser, the replication into `copies` chains, the
    mono/homo/hetero classification and the two-tier chunk-size policy.
    The prediction itself is not modelled here. */
module Folding {
  import opened Text

  /* ----------------------------------------------------------------------
     Character classes
     ---------------------------------------------------------------------- */

  /** An upper-case residue letter `A`..`Z`. */
  predicate IsResidue(c: char) {
    'A' <= c <= 'Z'
  }

  /** The characters `[A-Z:]` that survive the normaliser's filter. */
  predicate InAlphabet(c: char) {
    IsResidue(c) || c == ':'
  }

  /** `str.upper` on one character, for the ASCII letters. */
  function UpperAscii(c: char): char {
    if 'a' <= c <= 'z' then (c as int - 32) as char else c
  }

  /* ----------------------------------------------------------------------
     The normaliser, one regular-expression pass at a time
     ---------------------------------------------------------------------- */

  /** `sequence.replace("/", ":").upper()`. */
  function Prepare(s: string): (r: string)
    ensures |r| == |s|
    ensures forall i :: 0 <= i < |s| ==> (r[i] == ':' <==> s[i] == ':' || s[i] == '/')
    ensures forall i :: 0 <= i < |s| ==> (IsResidue(r[i]) <==> IsResidue(s[i]) || 'a' <= s[i] <= 'z')
    ensures forall i :: 0 <= i < |s| && r[i] != s[i] ==> s[i] == '/' || 'a' <= s[i] <= 'z'
    ensures forall i :: 0 <= i < |s| && 'a' <= s[i] <= 'z' ==>
      r[i] as int - 'A' as int == s[i] as int - 'a' as int
  {
    seq(|s|, i requires 0 <= i < |s| => if s[i] == '/' then ':' else UpperAscii(s[i]))
  }

  /** `re.sub("[^A-Z:]", "", s)`: keeps exactly the characters in the alphabet. */
  function KeepAlphabet(s: string): (r: string)
    ensures forall i :: 0 <= i < |r| ==> InAlphabet(r[i])
    decreases |s|
  {
    if |s| == 0 then []
    else (if InAlphabet(s[0]) then [s[0]] else []) + KeepAlphabet(s[1..])
  }

  /** A single character survives the filter exactly when it is in `[A-Z:]`. */
  lemma KeepAlphabetOne(c: char)
    ensures KeepAlphabet([c]) == if InAlphabet(c) then [c] else []
  {
    assert [c][1..] == [];
  }

  /** The filter works character by character: filtering a concatenation
      filters each part, so the kept characters stay in their order. */
  lemma {:induction false} KeepAlphabetAppend(a: string, b: string)
    ensures KeepAlphabet(a + b) == KeepAlphabet(a) + KeepAlphabet(b)
    decreases |a|
  {
    if |a| == 0 {
      assert a + b == b;
    } else {
      assert (a + b)[0] == a[0];
      assert (a + b)[1..] == a[1..] + b;
      KeepAlphabetAppend(a[1..], b);
    }
  }

  /** No two adjacent colons. */
  predicate NoDoubleColon(s: string) {
    forall i :: 0 <= i < |s| - 1 ==> !(s[i] == ':' && s[i + 1] == ':')
  }

  /** `re.sub(":+", ":", s)`: every run of colons becomes one colon. */
  function CollapseColons(s: string): (r: string)
    ensures |r| == 0 <==> |s| == 0
    ensures |s| > 0 ==> r[0] == s[0]
    ensures |s| > 0 ==> r[|r| - 1] == s[|s| - 1]
    ensures NoDoubleColon(r)
    ensures (forall i :: 0 <= i < |s| ==> InAlphabet(s[i])) ==>
      forall i :: 0 <= i < |r| ==> InAlphabet(r[i])
    decreases |s|
  {
    if |s| == 0 then []
    else if |s| >= 2 && s[0] == ':' && s[1] == ':' then CollapseColons(s[1..])
    else [s[0]] + CollapseColons(s[1..])
  }

  /** `re.sub("^[:]+", "", s)`: drops the leading colons and nothing else. */
  function TrimLeadingColons(s: string): (r: string)
    ensures |r| <= |s| && r == s[|s| - |r|..]
    ensures forall i :: 0 <= i < |s| - |r| ==> s[i] == ':'
    ensures |r| > 0 ==> r[0] != ':'
    decreases |s|
  {
    if |s| > 0 && s[0] == ':' then TrimLeadingColons(s[1..]) else s
  }

  /** `re.sub("[:]+$", "", s)`: drops the trailing colons and nothing else. */
  function TrimTrailingColons(s: string): (r: string)
    ensures |r| <= |s| && r == s[..|r|]
    ensures forall i :: |r| <= i < |s| ==> s[i] == ':'
    ensures |r| > 0 ==> r[|r| - 1] != ':'
    decreases |s|
  {
    if |s| > 0 && s[|s| - 1] == ':' then TrimTrailingColons(s[..|s| - 1]) else s
  }

  /** The shape every normalised sequence has: only `[A-Z:]`, no `::`, and
      no colon at either end. */
  predicate Canonical(s: string) {
    && (forall i :: 0 <= i < |s| ==> InAlphabet(s[i]))
    && NoDoubleColon(s)
    && (|s| > 0 ==> s[0] != ':' && s[|s| - 1] != ':')
  }

  /** `replace` and `upper`, then the four `re.sub` passes of `run_folding`,
      in the order the code runs them. */
  function Normalize(raw: string): (r: string)
    ensures Canonical(r)
  {
    var collapsed := CollapseColons(KeepAlphabet(Prepare(raw)));
    TrimsCanonical(collapsed);
    TrimTrailingColons(TrimLeadingColons(collapsed))
  }

  /** Only `[A-Z:]` and no `::`: what the first passes leave. */
  predicate Shaped(s: string) {
    && (forall i :: 0 <= i < |s| ==> InAlphabet(s[i]))
    && NoDoubleColon(s)
  }

  /** Trimming the colons at both ends of a shaped text leaves it in normal
      form. */
  lemma TrimsCanonical(c: string)
    requires Shaped(c)
    ensures Canonical(TrimTrailingColons(TrimLeadingColons(c)))
  {
    var l := TrimLeadingColons(c);
    SliceKeepsShape(c, |c| - |l|, |c|);
    TrailingKeepsShape(l);
  }

  /** Trimming trailing colons keeps the shape and a non-colon first letter. */
  lemma TrailingKeepsShape(l: string)
    requires Shaped(l) && (|l| > 0 ==> l[0] != ':')
    ensures Canonical(TrimTrailingColons(l))
  {
    var r := TrimTrailingColons(l);
    SliceKeepsShape(l, 0, |r|);
    assert |r| > 0 ==> r[0] == l[0];
  }

  /** A slice of a shaped text is shaped. */
  lemma SliceKeepsShape(c: string, lo: nat, hi: nat)
    requires lo <= hi <= |c|
    requires Shaped(c)
    ensures Shaped(c[lo..hi])
  {
    var t := c[lo..hi];
    forall i | 0 <= i < |t| ensures InAlphabet(t[i]) {
      assert t[i] == c[lo + i];
    }
    forall i | 0 <= i < |t| - 1 ensures !(t[i] == ':' && t[i + 1] == ':') {
      assert t[i] == c[lo + i] && t[i + 1] == c[lo + i + 1];
    }
  }

  /* ----------------------------------------------------------------------
     Chains: the non-empty pieces between colons
     ---------------------------------------------------------------------- */

  /** The non-empty strings of `ws`, in order. */
  function NonEmpty(ws: seq<string>): (r: seq<string>)
    ensures forall i :: 0 <= i < |r| ==> |r[i]| > 0
    decreases |ws|
  {
    if |ws| == 0 then []
    else (if |ws[0]| > 0 then [ws[0]] else []) + NonEmpty(ws[1..])
  }

  lemma {:induction false} NonEmptyAppend(a: seq<string>, b: seq<string>)
    ensures NonEmpty(a + b) == NonEmpty(a) + NonEmpty(b)
    decreases |a|
  {
    if |a| > 0 {
      assert (a + b)[1..] == a[1..] + b;
      NonEmptyAppend(a[1..], b);
    } else {
      assert a + b == b;
    }
  }

  /** The residue words of a text: its colon-separated pieces that are not empty. */
  function Words(s: string): seq<string> {
    NonEmpty(Split(s, ':'))
  }

  lemma WordsColonCons(rest: string)
    ensures Words([':'] + rest) == Words(rest)
  {
    assert ([':'] + rest)[1..] == rest;
    assert NonEmpty([[]] + Split(rest, ':')) == NonEmpty(Split(rest, ':')) by {
      assert ([[]] + Split(rest, ':'))[1..] == Split(rest, ':');
    }
  }

  /** Prepending a letter either starts a new word or extends the first one. */
  lemma WordsLetterCons(c: char, rest: string)
    requires c != ':'
    ensures Words([c] + rest) ==
      if |rest| == 0 || rest[0] == ':' then [[c]] + Words(rest)
      else [[c] + Words(rest)[0]] + Words(rest)[1..]
  {
    var s := [c] + rest;
    assert s[1..] == rest;
    var p := Split(rest, ':');
    var q := Split(s, ':');
    assert q == [[c] + p[0]] + p[1..];
    assert q[1..] == p[1..];
    assert p == [p[0]] + p[1..];
    SplitHead(rest, ':');
    NonEmptyAppend([p[0]], p[1..]);
    NonEmptyAppend([[c] + p[0]], p[1..]);
    assert NonEmpty([[c] + p[0]]) == [[c] + p[0]];
    assert Words(rest) == NonEmpty([p[0]]) + NonEmpty(p[1..]);
    assert Words(s) == [[c] + p[0]] + NonEmpty(p[1..]);
    if |rest| == 0 || rest[0] == ':' {
      assert NonEmpty([p[0]]) == [];
      assert Words(rest) == NonEmpty(p[1..]);
      assert [c] + p[0] == [c];
    } else {
      assert NonEmpty([p[0]]) == [p[0]];
      assert Words(rest)[0] == p[0];
      assert Words(rest)[1..] == NonEmpty(p[1..]);
    }
  }

  /** Collapsing colon runs leaves the words unchanged. */
  lemma {:induction false} WordsOfCollapse(s: string)
    ensures Words(CollapseColons(s)) == Words(s)
    decreases |s|
  {
    if |s| == 0 {
    } else if |s| >= 2 && s[0] == ':' && s[1] == ':' {
      WordsOfCollapse(s[1..]);
      WordsColonCons(s[1..]);
      assert s == [':'] + s[1..];
    } else {
      var c := CollapseColons(s[1..]);
      WordsOfCollapse(s[1..]);
      assert CollapseColons(s) == [s[0]] + c;
      assert s == [s[0]] + s[1..];
      if s[0] == ':' {
        WordsColonCons(c);
        WordsColonCons(s[1..]);
      } else {
        WordsLetterCons(s[0], c);
        WordsLetterCons(s[0], s[1..]);
      }
    }
  }

  lemma {:induction false} WordsOfTrimLeading(s: string)
    ensures Words(TrimLeadingColons(s)) == Words(s)
    decreases |s|
  {
    if |s| > 0 && s[0] == ':' {
      WordsOfTrimLeading(s[1..]);
      WordsColonCons(s[1..]);
      assert s == [':'] + s[1..];
    }
  }

  lemma {:induction false} WordsOfTrimTrailing(s: string)
    ensures Words(TrimTrailingColons(s)) == Words(s)
    decreases |s|
  {
    if |s| > 0 && s[|s| - 1] == ':' {
      var init := s[..|s| - 1];
      WordsOfTrimTrailing(init);
      assert s == init + [':'] + [];
      SplitConcat(init, [], ':');
      NonEmptyAppend(Split(init, ':'), [[]]);
    }
  }

  /** A text with no `::` and no colon at either end has no empty piece. */
  lemma {:induction false} SplitWellSeparated(s: string)
    requires |s| > 0 && NoDoubleColon(s) && s[0] != ':' && s[|s| - 1] != ':'
    ensures forall i :: 0 <= i < |Split(s, ':')| ==> |Split(s, ':')[i]| > 0
    decreases |s|
  {
    var rest := s[1..];
    if |rest| == 0 {
    } else if rest[0] == ':' {
      var rest2 := rest[1..];
      assert |rest2| > 0 && rest2[0] == s[2];
      assert rest2 == s[2..];
      SplitWellSeparated(rest2);
      assert rest == [':'] + rest2;
      assert Split(rest, ':') == [[]] + Split(rest2, ':');
    } else {
      SplitWellSeparated(rest);
    }
  }

  /** A canonical text is the colon-join of its words. */
  lemma JoinWordsOfCanonical(s: string)
    requires Canonical(s)
    ensures Join(Words(s), ':') == s
  {
    if |s| > 0 {
      var p := Split(s, ':');
      SplitWellSeparated(s);
      NonEmptyOfFull(p);
      JoinSplit(s, ':');
    }
  }

  lemma {:induction false} NonEmptyOfFull(ws: seq<string>)
    requires forall i :: 0 <= i < |ws| ==> |ws[i]| > 0
    ensures NonEmpty(ws) == ws
    decreases |ws|
  {
    if |ws| > 0 {
      NonEmptyOfFull(ws[1..]);
      assert ws == [ws[0]] + ws[1..];
    }
  }

  /** Reference definition of the normaliser: take the characters that
      survive the `[A-Z:]` filter, and join their non-empty colon-separated
      words with single colons. */
  lemma NormalizeJoinsWords(raw: string)
    ensures Normalize(raw) == Join(Words(KeepAlphabet(Prepare(raw))), ':')
  {
    var kept := KeepAlphabet(Prepare(raw));
    var collapsed := CollapseColons(kept);
    var leading := TrimLeadingColons(collapsed);
    WordsOfCollapse(kept);
    WordsOfTrimLeading(collapsed);
    WordsOfTrimTrailing(leading);
    JoinWordsOfCanonical(Normalize(raw));
  }

  /** Normalising a canonical sequence changes nothing. */
  lemma NormalizeFixesCanonical(s: string)
    requires Canonical(s)
    ensures Normalize(s) == s
  {
    assert Prepare(s) == s;
    KeepAlphabetFixes(s);
    NormalizeJoinsWords(s);
    JoinWordsOfCanonical(s);
  }

  lemma {:induction false} KeepAlphabetFixes(s: string)
    requires forall i :: 0 <= i < |s| ==> InAlphabet(s[i])
    ensures KeepAlphabet(s) == s
    decreases |s|
  {
    if |s| > 0 {
      KeepAlphabetFixes(s[1..]);
      assert s == [s[0]] + s[1..];
    }
  }

  /** Normalisation is idempotent. */
  lemma NormalizeIdempotent(raw: string)
    ensures Normalize(Normalize(raw)) == Normalize(raw)
  {
    NormalizeFixesCanonical(Normalize(raw));
  }

  /* ----------------------------------------------------------------------
     Residue content
     ---------------------------------------------------------------------- */

  /** The residue letters of `s`, in order. */
  function Residues(s: string): (r: string)
    ensures forall i :: 0 <= i < |r| ==> IsResidue(r[i])
    decreases |s|
  {
    if |s| == 0 then []
    else (if IsResidue(s[0]) then [s[0]] else []) + Residues(s[1..])
  }

  lemma {:induction false} ResiduesAppend(a: string, b: string)
    ensures Residues(a + b) == Residues(a) + Residues(b)
    decreases |a|
  {
    if |a| > 0 {
      assert (a + b)[1..] == a[1..] + b;
      ResiduesAppend(a[1..], b);
    } else {
      assert a + b == b;
    }
  }

  /** Residues of a run of colons: none. */
  lemma {:induction false} ResiduesOfColons(s: string)
    requires forall i :: 0 <= i < |s| ==> s[i] == ':'
    ensures Residues(s) == []
    decreases |s|
  {
    if |s| > 0 {
      ResiduesOfColons(s[1..]);
    }
  }

  lemma {:induction false} ResiduesOfKeep(s: string)
    ensures Residues(KeepAlphabet(s)) == Residues(s)
    decreases |s|
  {
    if |s| > 0 {
      ResiduesOfKeep(s[1..]);
      var head := if InAlphabet(s[0]) then [s[0]] else [];
      ResiduesAppend(head, KeepAlphabet(s[1..]));
      if |head| == 1 {
        assert Residues(head) == if IsResidue(s[0]) then [s[0]] else [];
      }
    }
  }

  lemma {:induction false} ResiduesOfCollapse(s: string)
    ensures Residues(CollapseColons(s)) == Residues(s)
    decreases |s|
  {
    if |s| > 0 {
      ResiduesOfCollapse(s[1..]);
      if !(|s| >= 2 && s[0] == ':' && s[1] == ':') {
        ResiduesAppend([s[0]], CollapseColons(s[1..]));
      }
    }
  }

  lemma ResiduesOfTrimLeading(s: string)
    ensures Residues(TrimLeadingColons(s)) == Residues(s)
  {
    var l := TrimLeadingColons(s);
    var dropped := s[..|s| - |l|];
    assert s == dropped + l;
    ResiduesAppend(dropped, l);
    ResiduesOfColons(dropped);
  }

  lemma ResiduesOfTrimTrailing(s: string)
    ensures Residues(TrimTrailingColons(s)) == Residues(s)
  {
    var t := TrimTrailingColons(s);
    var dropped := s[|t|..];
    assert s == t + dropped;
    ResiduesAppend(t, dropped);
    ResiduesOfColons(dropped);
  }

  /** The residues of the normalised sequence are exactly the `A`..`Z`
      letters of the upper-cased input, in their original order: the
      normaliser only ever removes or merges separators and drops
      characters outside the alphabet. */
  lemma NormalizeKeepsResidues(raw: string)
    ensures Residues(Normalize(raw)) == Residues(Prepare(raw))
  {
    var kept := KeepAlphabet(Prepare(raw));
    var collapsed := CollapseColons(kept);
    ResiduesOfKeep(Prepare(raw));
    ResiduesOfCollapse(kept);
    ResiduesOfTrimLeading(collapsed);
    ResiduesOfTrimTrailing(TrimLeadingColons(collapsed));
  }

  /* ----------------------------------------------------------------------
     Copies, chains, length, mode and chunk size
     ---------------------------------------------------------------------- */

  /** `if copies == "" or copies <= 0: copies = 1`. */
  function EffectiveCopies(copies: int): nat {
    if copies <= 0 then 1 else copies
  }

  /** `":".join([s] * copies)`. */
  function Replicate(s: string, copies: nat): string {
    Join(seq(copies, _ => s), ':')
  }

  /** `k` copies of `ws` one after the other. */
  function Repeat(ws: seq<string>, k: nat): seq<string> {
    if k == 0 then [] else ws + Repeat(ws, k - 1)
  }

  /** Sum of the chain lengths, `sum(len(s) for s in seqs)`. */
  function TotalLength(chains: seq<string>): nat {
    if |chains| == 0 then 0 else |chains[0]| + TotalLength(chains[1..])
  }

  datatype Mode = Mono | Homo | Hetero

  /** `mono` for one chain, `homo` when `set(seqs)` has one element, else `hetero`. */
  function ClassifyMode(chains: seq<string>): (r: Mode)
    ensures r == Mono <==> |chains| == 1
    ensures r == Homo <==>
      |chains| >= 2 && forall i :: 0 <= i < |chains| ==> chains[i] == chains[0]
    ensures |chains| >= 1 ==>
      (r == Hetero <==> exists i :: 0 <= i < |chains| && chains[i] != chains[0])
  {
    OneDistinct(chains);
    if |chains| == 1 then Mono
    else if |set c | c in chains| == 1 then Homo
    else Hetero
  }

  /** Above this total length the smaller chunk size is used. */
  const LongSequence: nat := 700

  /** `model.set_chunk_size(64 if length > 700 else 128)`. */
  function ChunkSize(length: nat): (r: nat)
    ensures r == 64 <==> length > LongSequence
    ensures r == 128 <==> length <= LongSequence
  {
    if length > LongSequence then 64 else 128
  }

  /** A longer sequence never gets a larger chunk size. */
  lemma ChunkSizeAntitone(a: nat, b: nat)
    requires a <= b
    ensures ChunkSize(b) <= ChunkSize(a)
  {
  }

  /** The replica count `run_folding` uses: its `copies` form field is fixed at 1. */
  const FoldingCopies: int := 1

  /** Everything `run_folding` derives from its input before inference. */
  datatype FoldingJob = FoldingJob(
    sequence: string,
    chains: seq<string>,
    length: nat,
    mode: Mode,
    chunkSize: nat)

  /** The plan for one `run_folding` call on `raw` with `copies` replicas. */
  function PlanFolding(raw: string, copies: int): (job: FoldingJob)
    ensures forall i :: 0 <= i < |job.sequence| ==> InAlphabet(job.sequence[i])
    ensures job.chains == Repeat(Split(Normalize(raw), ':'), EffectiveCopies(copies))
    ensures job.sequence == Join(job.chains, ':')
    ensures copies <= 1 ==> job.sequence == Normalize(raw)
    ensures job.length + |job.chains| - 1 == |job.sequence|
    ensures job.length == EffectiveCopies(copies) * |Residues(Prepare(raw))|
    ensures job.chunkSize == 64 <==> job.length > 700
    ensures job.chunkSize == 128 <==> job.length <= 700
    ensures job.mode == Mono <==> |job.chains| == 1
    ensures job.mode == Homo <==>
      |job.chains| >= 2 && forall i :: 0 <= i < |job.chains| ==> job.chains[i] == job.chains[0]
    ensures job.mode == Hetero <==>
      exists i :: 0 <= i < |job.chains| && job.chains[i] != job.chains[0]
  {
    var k := EffectiveCopies(copies);
    var sequence := Replicate(Normalize(raw), k);
    var chains := Split(sequence, ':');
    var length := TotalLength(chains);
    PlanFacts(raw, k);
    JoinSplit(sequence, ':');
    FoldingJob(sequence, chains, length, ClassifyMode(chains), ChunkSize(length))
  }

  lemma PlanFacts(raw: string, k: nat)
    requires k >= 1
    ensures var s := Replicate(Normalize(raw), k);
      && (forall i :: 0 <= i < |s| ==> InAlphabet(s[i]))
      && Split(s, ':') == Repeat(Split(Normalize(raw), ':'), k)
      && (k == 1 ==> s == Normalize(raw))
      && TotalLength(Split(s, ':')) + |Split(s, ':')| - 1 == |s|
      && TotalLength(Split(s, ':')) == k * |Residues(Prepare(raw))|
  {
    PlanShape(Normalize(raw), k);
    PlanLength(raw, k);
  }

  /** The replicated text is over `[A-Z:]`, its chains repeat those of one
      replica, and one replica is the text itself. */
  lemma PlanShape(n: string, k: nat)
    requires k >= 1 && Canonical(n)
    ensures var s := Replicate(n, k);
      && (forall i :: 0 <= i < |s| ==> InAlphabet(s[i]))
      && Split(s, ':') == Repeat(Split(n, ':'), k)
      && (k == 1 ==> s == n)
  {
    ReplicateUnfold(n, k);
    ReplicateAlphabet(n, k);
    ReplicateSplit(n, k);
  }

  /** The chain lengths of the replicated text count its residues. */
  lemma PlanLength(raw: string, k: nat)
    requires k >= 1
    ensures var s := Replicate(Normalize(raw), k);
      && TotalLength(Split(s, ':')) + |Split(s, ':')| - 1 == |s|
      && TotalLength(Split(s, ':')) == k * |Residues(Prepare(raw))|
  {
    var n := Normalize(raw);
    var s := Replicate(n, k);
    PlanShape(n, k);
    SplitLengths(s, ':');
    TotalLengthRepeat(Split(n, ':'), k);
    SplitLengths(n, ':');
    CanonicalLength(n);
    NormalizeKeepsResidues(raw);
  }

  lemma ReplicateUnfold(s: string, k: nat)
    requires k >= 1
    ensures k == 1 ==> Replicate(s, k) == s
    ensures k > 1 ==> Replicate(s, k) == s + [':'] + Replicate(s, k - 1)
  {
    var ss := seq(k, _ => s);
    assert ss[0] == s;
    if k > 1 {
      assert ss[1..] == seq(k - 1, _ => s);
    }
  }

  lemma {:induction false} ReplicateAlphabet(s: string, k: nat)
    requires k >= 1
    requires forall i :: 0 <= i < |s| ==> InAlphabet(s[i])
    ensures forall i :: 0 <= i < |Replicate(s, k)| ==> InAlphabet(Replicate(s, k)[i])
    decreases k
  {
    ReplicateUnfold(s, k);
    if k > 1 {
      ReplicateAlphabet(s, k - 1);
    }
  }

  /** The chains of `copies` joined replicas are `copies` repetitions of the
      chains of one replica. */
  lemma {:induction false} ReplicateSplit(s: string, k: nat)
    requires k >= 1
    ensures Split(Replicate(s, k), ':') == Repeat(Split(s, ':'), k)
    decreases k
  {
    ReplicateUnfold(s, k);
    if k == 1 {
      assert Repeat(Split(s, ':'), 1) == Split(s, ':') + [];
    } else {
      ReplicateSplit(s, k - 1);
      SplitConcat(s, Replicate(s, k - 1), ':');
    }
  }

  lemma {:induction false} TotalLengthAppend(a: seq<string>, b: seq<string>)
    ensures TotalLength(a + b) == TotalLength(a) + TotalLength(b)
    decreases |a|
  {
    if |a| > 0 {
      assert (a + b)[1..] == a[1..] + b;
      TotalLengthAppend(a[1..], b);
    } else {
      assert a + b == b;
    }
  }

  lemma {:induction false} TotalLengthRepeat(ws: seq<string>, k: nat)
    ensures TotalLength(Repeat(ws, k)) == k * TotalLength(ws)
    decreases k
  {
    if k > 0 {
      TotalLengthRepeat(ws, k - 1);
      TotalLengthAppend(ws, Repeat(ws, k - 1));
    }
  }

  /** The pieces of a split hold every character except the separators. */
  lemma {:induction false} SplitLengths(s: string, sep: char)
    ensures TotalLength(Split(s, sep)) + Count(s, sep) == |s|
    decreases |s|
  {
    if |s| > 0 {
      var rest := Split(s[1..], sep);
      SplitLengths(s[1..], sep);
      if s[0] == sep {
        assert ([[]] + rest)[1..] == rest;
      } else {
        var r := Split(s, sep);
        assert r[1..] == rest[1..];
        assert rest == [rest[0]] + rest[1..];
        TotalLengthAppend([rest[0]], rest[1..]);
      }
    }
  }

  /** In a text over `[A-Z:]`, every character is a residue or a colon. */
  lemma {:induction false} CanonicalLength(s: string)
    requires forall i :: 0 <= i < |s| ==> InAlphabet(s[i])
    ensures |Residues(s)| + Count(s, ':') == |s|
    decreases |s|
  {
    if |s| > 0 {
      CanonicalLength(s[1..]);
    }
  }

  /** A sequence has exactly one distinct element exactly when it is
      non-empty and every element equals the first. */
  lemma OneDistinct(chains: seq<string>)
    ensures |set c | c in chains| == 1 <==>
      |chains| >= 1 && forall i :: 0 <= i < |chains| ==> chains[i] == chains[0]
  {
    var distinct := set c | c in chains;
    if |chains| == 0 {
      assert distinct == {};
    } else if forall i :: 0 <= i < |chains| ==> chains[i] == chains[0] {
      assert distinct == {chains[0]};
    } else {
      var i :| 0 <= i < |chains| && chains[i] != chains[0];
      assert chains[0] in distinct;
      assert chains[i] in distinct - {chains[0]};
      assert |distinct - {chains[0]}| == |distinct| - 1;
    }
  }

  /** With a non-empty normalised sequence every chain is non-empty. */
  lemma PlanChainsNonEmpty(raw: string, copies: int)
    requires |Normalize(raw)| > 0
    ensures forall i :: 0 <= i < |PlanFolding(raw, copies).chains| ==>
      |PlanFolding(raw, copies).chains[i]| > 0
  {
    var n := Normalize(raw);
    SplitWellSeparated(n);
    RepeatKeeps(Split(n, ':'), EffectiveCopies(copies));
  }

  lemma {:induction false} RepeatKeeps(ws: seq<string>, k: nat)
    requires forall i :: 0 <= i < |ws| ==> |ws[i]| > 0
    ensures forall i :: 0 <= i < |Repeat(ws, k)| ==> |Repeat(ws, k)[i]| > 0
    decreases k
  {
    if k > 0 {
      RepeatKeeps(ws, k - 1);
    }
  }

  /** Replicating a single-chain sequence gives a homo-oligomer; one copy of
      it stays a monomer. */
  lemma PlanModeOfSingleChain(raw: string, copies: int)
    ensures ':' !in Normalize(raw) ==>
      PlanFolding(raw, copies).mode == if copies <= 1 then Mono else Homo
  {
    var n := Normalize(raw);
    if ':' !in n {
      var k := EffectiveCopies(copies);
      SplitNoSeparator(n, ':');
      RepeatOfOne(n, k);
    }
  }

  lemma {:induction false} RepeatOfOne(w: string, k: nat)
    ensures Repeat([w], k) == seq(k, _ => w)
    decreases k
  {
    if k > 0 {
      RepeatOfOne(w, k - 1);
    }
  }
}
