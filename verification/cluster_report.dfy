/** Parsing the text report that maxcluster prints on standard output
    (`run_max_cluster`): the cluster count from the summary line, and the
    centroid structure files listed after the `Centroids` header, each with
    the name it is copied under. Running maxcluster and copying the files are
    not modelled; the report text is the input. */
module ClusterReport {
  import opened Text

  /* ----------------------------------------------------------------------
     Patterns made of literals and character-class runs
     ---------------------------------------------------------------------- */

  datatype CharClass = Space | Digit

  predicate InClass(k: CharClass, c: char) {
    match k
    case Space => IsSpace(c)
    case Digit => IsDigit(c)
  }

  /** One element of a regular expression: a literal, or a run `\s*`, `\s+`
      or `\d+` of one character class (`atLeastOne` distinguishes `+` from `*`). */
  datatype Token = Lit(text: string) | Run(cls: CharClass, atLeastOne: bool)

  /** End of the longest run of `k` characters that starts at `i`. */
  function RunEnd(s: string, i: nat, k: CharClass): (e: nat)
    requires i <= |s|
    ensures i <= e <= |s|
    ensures forall p :: i <= p < e ==> InClass(k, s[p])
    ensures e < |s| ==> !InClass(k, s[e])
    decreases |s| - i
  {
    if i < |s| && InClass(k, s[i]) then RunEnd(s, i + 1, k) else i
  }

  /** Matches `pat` at `i` taking every run as long as possible and never
      giving characters back; the end of the match, if any. */
  function Greedy(s: string, i: nat, pat: seq<Token>): (r: Option<nat>)
    requires i <= |s|
    ensures r.Some? ==> i <= r.value <= |s|
    decreases |pat|
  {
    if |pat| == 0 then Some(i)
    else match pat[0]
      case Lit(w) =>
        if i + |w| <= |s| && s[i..i + |w|] == w then Greedy(s, i + |w|, pat[1..]) else None
      case Run(k, one) =>
        var e := RunEnd(s, i, k);
        if one && e == i then None else Greedy(s, e, pat[1..])
  }

  /** `s[i..e]` is a run of class `k`, non-empty when `one` holds. */
  ghost predicate RunCovers(s: string, i: nat, e: nat, k: CharClass, one: bool) {
    i <= e <= |s| && (one ==> i < e) && forall p :: i <= p < e ==> InClass(k, s[p])
  }

  /** What a backtracking regular-expression engine accepts: `pat` can match
      exactly `s[i..j]`, each run taking any length its class allows. */
  ghost predicate Matches(s: string, i: nat, pat: seq<Token>, j: nat)
    decreases |pat|
  {
    && i <= j <= |s|
    && if |pat| == 0 then i == j
       else match pat[0]
         case Lit(w) =>
           i + |w| <= |s| && s[i..i + |w|] == w && Matches(s, i + |w|, pat[1..], j)
         case Run(k, one) =>
           exists e: nat :: RunCovers(s, i, e, k, one) && Matches(s, e, pat[1..], j)
  }

  /** Token `next` can never start with a character of class `k`. */
  predicate Excludes(k: CharClass, next: Token) {
    match next
    case Lit(w) => |w| > 0 && !InClass(k, w[0])
    case Run(k2, one) => one && k2 != k
  }

  /** Every run is followed by a token that cannot start with a character of
      the run's class, so a run can only ever end where the class ends:
      greedy matching is then exactly regular-expression matching. */
  predicate Possessive(pat: seq<Token>)
    decreases |pat|
  {
    |pat| == 0 ||
    ((pat[0].Run? ==> |pat| > 1 && Excludes(pat[0].cls, pat[1])) && Possessive(pat[1..]))
  }

  lemma ClassesDisjoint(c: char)
    ensures !(IsSpace(c) && IsDigit(c))
  {
  }

  /** Whatever follows a run in a possessive pattern starts outside the run's class. */
  lemma NextOutsideClass(s: string, e: nat, pat: seq<Token>, j: nat, k: CharClass)
    requires |pat| > 0 && Excludes(k, pat[0])
    requires Matches(s, e, pat, j)
    ensures e < |s| && !InClass(k, s[e])
  {
    match pat[0]
    case Lit(w) =>
      assert s[e] == s[e..e + |w|][0];
    case Run(k2, one) =>
      var e2: nat :| RunCovers(s, e, e2, k2, one) && Matches(s, e2, pat[1..], j);
      assert InClass(k2, s[e]);
      ClassesDisjoint(s[e]);
  }

  lemma {:induction false} MatchesConcat(s: string, i: nat, p: seq<Token>, q: seq<Token>, k: nat, j: nat)
    requires Matches(s, i, p, k) && Matches(s, k, q, j)
    ensures Matches(s, i, p + q, j)
    decreases |p|
  {
    if |p| == 0 {
      assert p + q == q;
    } else {
      assert (p + q)[0] == p[0];
      assert (p + q)[1..] == p[1..] + q;
      match p[0]
      case Lit(w) =>
        MatchesConcat(s, i + |w|, p[1..], q, k, j);
      case Run(c, one) =>
        var e: nat :| RunCovers(s, i, e, c, one) && Matches(s, e, p[1..], k);
        MatchesConcat(s, e, p[1..], q, k, j);
    }
  }

  /** Greedy matching only reports real matches. */
  lemma {:induction false} GreedySound(s: string, i: nat, pat: seq<Token>)
    requires i <= |s|
    requires Greedy(s, i, pat).Some?
    ensures Matches(s, i, pat, Greedy(s, i, pat).value)
    decreases |pat|
  {
    if |pat| > 0 {
      match pat[0]
      case Lit(w) =>
        GreedySound(s, i + |w|, pat[1..]);
      case Run(k, one) =>
        var e := RunEnd(s, i, k);
        GreedySound(s, e, pat[1..]);
        assert RunCovers(s, i, e, k, one);
    }
  }

  /** In a possessive pattern every way of matching a prefix `p` that the
      rest `q` can continue is the greedy one. */
  lemma {:induction false} GreedyComplete(s: string, i: nat, p: seq<Token>, q: seq<Token>, k: nat, j: nat)
    requires Possessive(p + q)
    requires Matches(s, i, p, k) && Matches(s, k, q, j)
    ensures Greedy(s, i, p) == Some(k)
    decreases |p|
  {
    if |p| > 0 {
      var pq := p + q;
      assert pq[0] == p[0];
      assert pq[1..] == p[1..] + q;
      match p[0]
      case Lit(w) =>
        GreedyComplete(s, i + |w|, p[1..], q, k, j);
      case Run(c, one) =>
        var e: nat :| RunCovers(s, i, e, c, one) && Matches(s, e, p[1..], k);
        MatchesConcat(s, e, p[1..], q, k, j);
        assert |pq| > 1 && Excludes(c, pq[1]);
        RunEndsAtBoundary(s, i, e, c, one, pq[1..], j);
        GreedyComplete(s, e, p[1..], q, k, j);
    }
  }

  /** A run that the next token can continue from ends where its class ends. */
  lemma RunEndsAtBoundary(s: string, i: nat, e: nat, c: CharClass, one: bool, rest: seq<Token>, j: nat)
    requires RunCovers(s, i, e, c, one)
    requires |rest| > 0 && Excludes(c, rest[0]) && Matches(s, e, rest, j)
    ensures RunEnd(s, i, c) == e
  {
    NextOutsideClass(s, e, rest, j, c);
  }

  /** For a possessive pattern, the greedy matcher and the backtracking
      semantics agree on every match. */
  lemma GreedyIsRegex(s: string, i: nat, pat: seq<Token>, j: nat)
    requires i <= |s| && Possessive(pat)
    ensures Greedy(s, i, pat) == Some(j) <==> Matches(s, i, pat, j)
  {
    if Greedy(s, i, pat) == Some(j) {
      GreedySound(s, i, pat);
    }
    if Matches(s, i, pat, j) {
      assert pat + [] == pat;
      GreedyComplete(s, i, pat, [], j, j);
    }
  }

  /** Greedy matching of `p + q` matches `p`, then `q` from where `p` stopped. */
  lemma {:induction false} GreedyConcat(s: string, i: nat, p: seq<Token>, q: seq<Token>)
    requires i <= |s|
    ensures Greedy(s, i, p + q) ==
      match Greedy(s, i, p)
      case None => None
      case Some(k) => Greedy(s, k, q)
    decreases |p|
  {
    if |p| == 0 {
      assert p + q == q;
    } else {
      var pq := p + q;
      assert pq[0] == p[0];
      assert pq[1..] == p[1..] + q;
      match p[0]
      case Lit(w) =>
        if i + |w| <= |s| && s[i..i + |w|] == w {
          assert Greedy(s, i, pq) == Greedy(s, i + |w|, p[1..] + q);
          GreedyConcat(s, i + |w|, p[1..], q);
        }
      case Run(c, one) =>
        var e := RunEnd(s, i, c);
        assert Greedy(s, i, pq) == if one && e == i then None else Greedy(s, e, p[1..] + q);
        GreedyConcat(s, e, p[1..], q);
    }
  }

  lemma {:induction false} PossessiveSuffix(p: seq<Token>, q: seq<Token>)
    requires Possessive(p + q)
    ensures Possessive(q)
    decreases |p|
  {
    if |p| == 0 {
      assert p + q == q;
    } else {
      assert (p + q)[1..] == p[1..] + q;
      PossessiveSuffix(p[1..], q);
    }
  }

  /* ----------------------------------------------------------------------
     The summary line
     `INFO\s*:\s*(\d+)\s+Clusters\s+@\s+Threshold\s+(\d+\.\d+)\s+\(\d+\.\d+\)`
     ---------------------------------------------------------------------- */

  /** The whole summary pattern. */
  const SummaryPattern: seq<Token> := [
    Lit("INFO"), Run(Space, false), Lit(":"), Run(Space, false),
    Run(Digit, true),
    Run(Space, true), Lit("Clusters"), Run(Space, true), Lit("@"), Run(Space, true),
    Lit("Threshold"), Run(Space, true), Run(Digit, true), Lit("."), Run(Digit, true),
    Run(Space, true), Lit("("), Run(Digit, true), Lit("."), Run(Digit, true), Lit(")")]

  /** `INFO\s*:\s*` */
  const SummaryHead: seq<Token> := SummaryPattern[..4]

  /** `(\d+)`: the cluster count. */
  const CountDigits: seq<Token> := SummaryPattern[4..5]

  /** `\s+Clusters\s+@\s+Threshold\s+(\d+\.\d+)\s+\(\d+\.\d+\)` */
  const SummaryTail: seq<Token> := SummaryPattern[5..]

  /** Token `t` of `pat` is not a run, or is followed by a token its class excludes. */
  predicate FollowOk(pat: seq<Token>, t: nat)
    requires t < |pat|
  {
    pat[t].Run? ==> t + 1 < |pat| && Excludes(pat[t].cls, pat[t + 1])
  }

  lemma {:induction false} PossessiveOfAll(pat: seq<Token>)
    requires forall t :: 0 <= t < |pat| ==> FollowOk(pat, t)
    ensures Possessive(pat)
    decreases |pat|
  {
    if |pat| > 0 {
      assert FollowOk(pat, 0);
      forall t | 0 <= t < |pat| - 1 ensures FollowOk(pat[1..], t) {
        assert FollowOk(pat, t + 1);
      }
      PossessiveOfAll(pat[1..]);
    }
  }

  lemma SummaryPatternPossessive()
    ensures Possessive(SummaryPattern)
  {
    var p := SummaryPattern;
    SummaryFollows1();
    SummaryFollows2();
    SummaryFollows3();
    SummaryFollows4();
    SummaryFollows5();
    forall t | 0 <= t < |p| ensures FollowOk(p, t) {
      assert t <= 20;
    }
    PossessiveOfAll(p);
  }

  lemma SummaryFollows1()
    ensures forall t :: 0 <= t <= 3 ==> FollowOk(SummaryPattern, t)
  {
    var p := SummaryPattern;
    assert FollowOk(p, 0);
    assert FollowOk(p, 1);
    assert FollowOk(p, 2);
    assert FollowOk(p, 3);
    forall t | 0 <= t <= 3 ensures FollowOk(p, t) {
      assert t <= 3;
    }
  }

  lemma SummaryFollows2()
    ensures forall t :: 4 <= t <= 7 ==> FollowOk(SummaryPattern, t)
  {
    var p := SummaryPattern;
    assert FollowOk(p, 4);
    assert FollowOk(p, 5);
    assert FollowOk(p, 6);
    assert FollowOk(p, 7);
    forall t | 4 <= t <= 7 ensures FollowOk(p, t) {
      assert t <= 7;
    }
  }

  lemma SummaryFollows3()
    ensures forall t :: 8 <= t <= 11 ==> FollowOk(SummaryPattern, t)
  {
    var p := SummaryPattern;
    assert FollowOk(p, 8);
    assert FollowOk(p, 9);
    assert FollowOk(p, 10);
    assert FollowOk(p, 11);
    forall t | 8 <= t <= 11 ensures FollowOk(p, t) {
      assert t <= 11;
    }
  }

  lemma SummaryFollows4()
    ensures forall t :: 12 <= t <= 15 ==> FollowOk(SummaryPattern, t)
  {
    var p := SummaryPattern;
    assert FollowOk(p, 12);
    assert FollowOk(p, 13);
    assert FollowOk(p, 14);
    assert FollowOk(p, 15);
    forall t | 12 <= t <= 15 ensures FollowOk(p, t) {
      assert t <= 15;
    }
  }

  lemma SummaryFollows5()
    ensures forall t :: 16 <= t <= 20 ==> FollowOk(SummaryPattern, t)
  {
    var p := SummaryPattern;
    assert FollowOk(p, 16);
    assert FollowOk(p, 17);
    assert FollowOk(p, 18);
    assert FollowOk(p, 19);
    assert FollowOk(p, 20);
    forall t | 16 <= t <= 20 ensures FollowOk(p, t) {
      assert t <= 20;
    }
  }

  lemma PatternParts()
    ensures SummaryHead + CountDigits + SummaryTail == SummaryPattern
    ensures SummaryHead + (CountDigits + SummaryTail) == SummaryPattern
    ensures CountDigits == [Run(Digit, true)]
  {
    var p := SummaryPattern;
    SlicesRejoin(p, 4, 5);
    assert p[4] == Run(Digit, true);
    assert p[4..5] == [p[4]];
  }

  /** Cutting a sequence at two points and concatenating the pieces gives it back. */
  lemma SlicesRejoin<T>(p: seq<T>, a: nat, b: nat)
    requires a <= b <= |p|
    ensures p[..a] + p[a..b] + p[b..] == p
    ensures p[..a] + (p[a..b] + p[b..]) == p
  {
  }

  lemma CountDigitsRun(s: string, b: nat)
    requires b <= |s|
    ensures Greedy(s, b, CountDigits).Some? ==>
      var c := Greedy(s, b, CountDigits).value;
      b < c && AllDigits(s[b..c])
  {
    PatternParts();
  }

  /** `n` is the integer value of the all-digit count group of some match of
      the summary pattern at `i`: head, group and tail match in turn. */
  ghost predicate CountFromMatch(s: string, i: nat, n: nat) {
    exists b: nat, c: nat ::
      && Matches(s, i, SummaryHead, b) && Matches(s, b, CountDigits, c)
      && (exists j :: Matches(s, c, SummaryTail, j))
      && b < c <= |s| && AllDigits(s[b..c]) && n == ParseDecimal(s[b..c])
  }

  /** The cluster count when the summary pattern matches at `i`: the integer
      value of its first group. */
  function SummaryAt(s: string, i: nat): (r: Option<nat>)
    requires i <= |s|
    ensures r.Some? ==> CountFromMatch(s, i, r.value)
  {
    match Greedy(s, i, SummaryHead)
    case None => None
    case Some(b) =>
      match Greedy(s, b, CountDigits)
      case None => None
      case Some(c) =>
        CountDigitsRun(s, b);
        if Greedy(s, c, SummaryTail).Some? then
          GreedySound(s, i, SummaryHead);
          GreedySound(s, b, CountDigits);
          GreedySound(s, c, SummaryTail);
          Some(ParseDecimal(s[b..c]))
        else None
  }

  /** The summary pattern matches at `i` exactly when the regular expression
      does. */
  lemma SummaryAtIsRegex(s: string, i: nat)
    requires i <= |s|
    ensures SummaryAt(s, i).Some? <==> exists j :: Matches(s, i, SummaryPattern, j)
  {
    SummaryPatternPossessive();
    PatternParts();
    GreedyConcat(s, i, SummaryHead + CountDigits, SummaryTail);
    GreedyConcat(s, i, SummaryHead, CountDigits);
    if SummaryAt(s, i).Some? {
      GreedyIsRegex(s, i, SummaryPattern, Greedy(s, i, SummaryPattern).value);
    }
    if exists j :: Matches(s, i, SummaryPattern, j) {
      var j :| Matches(s, i, SummaryPattern, j);
      GreedyIsRegex(s, i, SummaryPattern, j);
    }
  }

  /** However the regular expression splits a match at `i` into
      `INFO\s*:\s*`, the count group `s[b..c]`, and the rest, the count
      `SummaryAt` reports is the integer value of that group. */
  lemma SummaryCountIsGroup(s: string, i: nat, b: nat, c: nat, j: nat)
    requires Matches(s, i, SummaryHead, b)
    requires Matches(s, b, CountDigits, c)
    requires Matches(s, c, SummaryTail, j)
    ensures b <= c <= |s| && AllDigits(s[b..c])
    ensures SummaryAt(s, i) == Some(ParseDecimal(s[b..c]))
  {
    GreedyFindsParts(s, i, b, c, j);
    CountDigitsRun(s, b);
  }

  /** The greedy matcher finds the same three parts as any regular-expression split. */
  lemma GreedyFindsParts(s: string, i: nat, b: nat, c: nat, j: nat)
    requires Matches(s, i, SummaryHead, b)
    requires Matches(s, b, CountDigits, c)
    requires Matches(s, c, SummaryTail, j)
    ensures Greedy(s, i, SummaryHead) == Some(b)
    ensures Greedy(s, b, CountDigits) == Some(c)
    ensures Greedy(s, c, SummaryTail) == Some(j)
  {
    SummaryPatternPossessive();
    PatternParts();
    ThreePartsComplete(s, i, SummaryHead, CountDigits, SummaryTail, b, c, j);
  }

  lemma ThreePartsComplete(s: string, i: nat, h: seq<Token>, d: seq<Token>, t: seq<Token>, b: nat, c: nat, j: nat)
    requires Possessive(h + (d + t))
    requires Matches(s, i, h, b) && Matches(s, b, d, c) && Matches(s, c, t, j)
    ensures Greedy(s, i, h) == Some(b)
    ensures Greedy(s, b, d) == Some(c)
    ensures Greedy(s, c, t) == Some(j)
  {
    MatchesConcat(s, b, d, t, c, j);
    GreedyComplete(s, i, h, d + t, b, j);
    PossessiveSuffix(h, d + t);
    GreedyComplete(s, b, d, t, c, j);
    PossessiveSuffix(d, t);
    assert t + [] == t;
    GreedyComplete(s, c, t, [], j, j);
  }

  /** `re.search`: the leftmost position at or after `i` where the summary
      pattern matches. */
  function LeftmostSummary(s: string, i: nat): (r: Option<nat>)
    requires i <= |s|
    ensures r.None? <==> forall p :: i <= p <= |s| ==> SummaryAt(s, p).None?
    ensures r.Some? ==> i <= r.value <= |s| && SummaryAt(s, r.value).Some?
    ensures r.Some? ==> forall p :: i <= p < r.value ==> SummaryAt(s, p).None?
    decreases |s| - i
  {
    if SummaryAt(s, i).Some? then Some(i)
    else if i == |s| then None
    else
      var r := LeftmostSummary(s, i + 1);
      LeftmostStep(s, i, r);
      r
  }

  /** No match at `i` moves the leftmost match from `i + 1` to `i`. */
  lemma LeftmostStep(s: string, i: nat, r: Option<nat>)
    requires i < |s| && SummaryAt(s, i).None?
    requires r.None? <==> forall p :: i + 1 <= p <= |s| ==> SummaryAt(s, p).None?
    requires r.Some? ==> i + 1 <= r.value <= |s| && SummaryAt(s, r.value).Some?
    requires r.Some? ==> forall p :: i + 1 <= p < r.value ==> SummaryAt(s, p).None?
    ensures r.None? <==> forall p :: i <= p <= |s| ==> SummaryAt(s, p).None?
    ensures r.Some? ==> i <= r.value <= |s| && SummaryAt(s, r.value).Some?
    ensures r.Some? ==> forall p :: i <= p < r.value ==> SummaryAt(s, p).None?
  {
  }

  /* ----------------------------------------------------------------------
     Centroid paths: `(?<=\s)(\/[^\s]+\.pdb)`
     ---------------------------------------------------------------------- */

  const PdbSuffix: string := ".pdb"

  /** `.pdb` occurs at index `m` of `line`. */
  predicate SuffixAt(line: string, m: nat) {
    m + 4 <= |line| && line[m..m + 4] == PdbSuffix
  }

  /** The pattern can match `line[j..m + 4]` with `[^\s]+` covering
      `line[j + 1..m]`: a whitespace character before `j`, `/` at `j`, at
      least one non-whitespace character, then `.pdb`. */
  ghost predicate PathMatch(line: string, j: nat, m: nat) {
    && 1 <= j && j + 2 <= m
    && SuffixAt(line, m)
    && IsSpace(line[j - 1]) && line[j] == '/'
    && forall p :: j + 1 <= p < m ==> !IsSpace(line[p])
  }

  /** End of the whitespace-free token that starts at `i`. */
  function TokenEnd(line: string, i: nat): (e: nat)
    requires i <= |line|
    ensures i <= e <= |line|
    ensures forall p :: i <= p < e ==> !IsSpace(line[p])
    ensures e < |line| ==> IsSpace(line[e])
    decreases |line| - i
  {
    if i < |line| && !IsSpace(line[i]) then TokenEnd(line, i + 1) else i
  }

  /** The largest `m` in `[lo, hi]` with `.pdb` at `m`: where a greedy
      `[^\s]+` stops once it has backed off far enough. */
  function LastSuffix(line: string, lo: nat, hi: int): (r: Option<nat>)
    requires hi + 4 <= |line|
    ensures r.Some? ==> lo <= r.value <= hi && SuffixAt(line, r.value)
    ensures r.Some? ==> forall m :: r.value < m <= hi ==> !SuffixAt(line, m)
    ensures r.None? ==> forall m :: lo <= m <= hi ==> !SuffixAt(line, m)
    decreases hi - lo
  {
    if hi < lo then None
    else if SuffixAt(line, hi) then Some(hi)
    else LastSuffix(line, lo, hi - 1)
  }

  /** The characters of `.pdb` are not whitespace. */
  lemma SuffixNotSpace(line: string, m: nat, p: nat)
    requires SuffixAt(line, m) && m <= p < m + 4
    ensures !IsSpace(line[p])
  {
    assert line[p] == line[m..m + 4][p - m];
  }

  /** A match lies inside one whitespace-free token. */
  lemma MatchIsOneToken(line: string, j: nat, m: nat)
    requires PathMatch(line, j, m)
    ensures forall p :: j + 1 <= p < m + 4 ==> !IsSpace(line[p])
  {
    forall p | j + 1 <= p < m + 4 ensures !IsSpace(line[p]) {
      if p >= m {
        SuffixNotSpace(line, m, p);
      }
    }
  }

  /** The end of the match the pattern finds when it starts at `j`. */
  function PathEndAt(line: string, j: nat): (r: Option<nat>)
    ensures r.Some? ==> PathMatch(line, j, r.value)
    ensures r.Some? ==> forall m: nat :: PathMatch(line, j, m) ==> m <= r.value
    ensures r.None? ==> forall m: nat :: !PathMatch(line, j, m)
  {
    if 1 <= j < |line| && IsSpace(line[j - 1]) && line[j] == '/' then
      var e := TokenEnd(line, j + 1);
      var r := LastSuffix(line, j + 2, e - 4);
      assert forall m: nat :: PathMatch(line, j, m) ==> m <= e - 4 by {
        forall m: nat | PathMatch(line, j, m) ensures m <= e - 4 {
          MatchIsOneToken(line, j, m);
        }
      }
      r
    else None
  }

  /** `re.search` of the pattern in `line`: the leftmost start and, for it,
      the match end, both as indices. */
  function PathMatchFrom(line: string, j: nat): (r: Option<(nat, nat)>)
    requires j <= |line|
    ensures r.Some? ==> j <= r.value.0 && PathMatch(line, r.value.0, r.value.1)
    ensures r.Some? ==> forall j': nat, m': nat :: j <= j' && PathMatch(line, j', m') ==>
      r.value.0 < j' || (r.value.0 == j' && m' <= r.value.1)
    ensures r.None? ==> forall j': nat, m': nat :: j <= j' ==> !PathMatch(line, j', m')
    decreases |line| - j
  {
    if j == |line| then None
    else match PathEndAt(line, j)
      case Some(m) => Some((j, m))
      case None => PathMatchFrom(line, j + 1)
  }

  /** The centroid path a line yields, if any: `match.group(1)`. */
  function CentroidPath(line: string): (r: Option<string>)
    ensures r.Some? ==> |r.value| >= 6 && r.value[0] == '/'
    ensures r.Some? ==> r.value[|r.value| - 4..] == PdbSuffix
    ensures r.Some? ==> forall p :: 0 <= p < |r.value| ==> !IsSpace(r.value[p])
    ensures r.None? <==> forall j: nat, m: nat :: !PathMatch(line, j, m)
    ensures r.Some? ==> exists j: nat, m: nat ::
      && PathMatch(line, j, m) && r.value == line[j..m + 4]
      && forall j': nat, m': nat :: PathMatch(line, j', m') ==> j < j' || (j == j' && m' <= m)
  {
    match PathMatchFrom(line, 0)
    case None => None
    case Some((j, m)) =>
      var path := line[j..m + 4];
      assert forall p :: 0 <= p < |path| ==> !IsSpace(path[p]) by {
        forall p | 0 <= p < |path| ensures !IsSpace(path[p]) {
          if j + p >= m {
            SuffixNotSpace(line, m, j + p);
          }
        }
      }
      assert path[|path| - 4..] == line[m..m + 4];
      Some(path)
  }

  /** `path.split("/")[-2] + ".pdb"`: the name of the directory that holds
      the centroid file, as the copy's file name. */
  function CopyName(path: string): (r: string)
    requires Count(path, '/') >= 1
    ensures |r| >= 4 && r[|r| - 4..] == PdbSuffix
    ensures '/' !in r[..|r| - 4]
  {
    var parts := Split(path, '/');
    var r := parts[|parts| - 2] + PdbSuffix;
    assert r[..|r| - 4] == parts[|parts| - 2];
    r
  }

  /** The copy of `dir/parent/file` is named `parent.pdb`. */
  lemma CopyNameOfParent(dir: string, parent: string, file: string)
    requires '/' !in parent && '/' !in file
    ensures Count(dir + ['/'] + parent + ['/'] + file, '/') >= 1
    ensures CopyName(dir + ['/'] + parent + ['/'] + file) == parent + PdbSuffix
  {
    var tail := parent + ['/'] + file;
    var path := dir + ['/'] + tail;
    assert path == dir + ['/'] + parent + ['/'] + file;
    SplitNoSeparator(parent, '/');
    SplitNoSeparator(file, '/');
    SplitConcat(parent, file, '/');
    assert Split(tail, '/') == [parent, file];
    SplitConcat(dir, tail, '/');
    var parts := Split(path, '/');
    assert parts == Split(dir, '/') + [parent, file];
    assert parts[|parts| - 2] == parent;
  }

  /** A file directly under the root has no parent name: `"/a.pdb"` is
      copied as `.pdb`. */
  lemma CopyNameAtRoot(file: string)
    requires '/' !in file
    ensures Count(['/'] + file, '/') >= 1
    ensures CopyName(['/'] + file) == PdbSuffix
  {
    assert [] + ['/'] + file == ['/'] + file;
    SplitConcat([], file, '/');
    SplitNoSeparator(file, '/');
  }

  lemma {:induction false} CountOfLeading(s: string, c: char)
    requires |s| > 0 && s[0] == c
    ensures Count(s, c) >= 1
  {
  }

  /* ----------------------------------------------------------------------
     The centroid section
     ---------------------------------------------------------------------- */

  /** A centroid file and the name it is copied under. */
  datatype Centroid = Centroid(source: string, copyName: string)

  /** The header line that opens the centroid section: `"Centroids" in line`. */
  predicate OpensCentroids(line: string) {
    Contains(line, "Centroids")
  }

  /** The centroid a single line yields: none, or one. */
  function LineCentroid(line: string): seq<Centroid> {
    match CentroidPath(line)
    case None => []
    case Some(p) =>
      CountOfLeading(p, '/');
      [Centroid(p, CopyName(p))]
  }

  /** The scan over the report's lines: centroid mode switches on at the
      first line containing `Centroids` (that line included) and never
      switches off; each line in centroid mode yields at most one centroid. */
  function CentroidScan(lines: seq<string>, inSection: bool): (r: seq<Centroid>)
    ensures |r| <= |lines|
    decreases |lines|
  {
    if |lines| == 0 then []
    else
      var on := inSection || OpensCentroids(lines[0]);
      (if on then LineCentroid(lines[0]) else []) + CentroidScan(lines[1..], on)
  }

  /** Every line's centroid, in order: the reference the scan is compared with. */
  function AllCentroids(lines: seq<string>): seq<Centroid>
    decreases |lines|
  {
    if |lines| == 0 then [] else LineCentroid(lines[0]) + AllCentroids(lines[1..])
  }

  /** Index of the first line that opens the centroid section, or `|lines|`. */
  function FirstOpening(lines: seq<string>): (f: nat)
    ensures f <= |lines|
    ensures forall p :: 0 <= p < f ==> !OpensCentroids(lines[p])
    ensures f < |lines| ==> OpensCentroids(lines[f])
    decreases |lines|
  {
    if |lines| == 0 || OpensCentroids(lines[0]) then 0 else 1 + FirstOpening(lines[1..])
  }

  /** Once in centroid mode, every line contributes its centroid. */
  lemma {:induction false} ScanInSection(lines: seq<string>)
    ensures CentroidScan(lines, true) == AllCentroids(lines)
    decreases |lines|
  {
    if |lines| > 0 {
      ScanInSection(lines[1..]);
    }
  }

  /** The scan equals: drop the lines before the first `Centroids` line, then
      take every remaining line's centroid. */
  lemma {:induction false} CentroidScanSpec(lines: seq<string>)
    ensures CentroidScan(lines, false) == AllCentroids(lines[FirstOpening(lines)..])
    decreases |lines|
  {
    if |lines| > 0 {
      if OpensCentroids(lines[0]) {
        ScanInSection(lines[1..]);
        assert lines[0..] == lines;
      } else {
        CentroidScanSpec(lines[1..]);
        assert lines[FirstOpening(lines)..] == lines[1..][FirstOpening(lines[1..])..];
      }
    }
  }

  /** A centroid whose source is a whitespace-free absolute `.pdb` path and
      whose copy name is the one `CopyName` gives it. */
  predicate WellFormedEntry(e: Centroid) {
    && |e.source| >= 6 && e.source[0] == '/'
    && e.source[|e.source| - 4..] == PdbSuffix
    && (forall p :: 0 <= p < |e.source| ==> !IsSpace(e.source[p]))
    && Count(e.source, '/') >= 1 && e.copyName == CopyName(e.source)
  }

  /** The centroid of one line is well formed and is that line's match. */
  lemma LineCentroidEntries(line: string)
    ensures forall e :: e in LineCentroid(line) ==>
      WellFormedEntry(e) && CentroidPath(line) == Some(e.source)
  {
    match CentroidPath(line)
    case None =>
    case Some(p) => CountOfLeading(p, '/');
  }

  /** Each entry the scan yields is a whitespace-free absolute `.pdb` path
      taken from some line, with its copy name. */
  lemma {:induction false} CentroidScanEntries(lines: seq<string>, inSection: bool)
    ensures forall e :: e in CentroidScan(lines, inSection) ==>
      && WellFormedEntry(e)
      && exists l :: l in lines && CentroidPath(l) == Some(e.source)
    decreases |lines|
  {
    if |lines| > 0 {
      var on := inSection || OpensCentroids(lines[0]);
      var head := if on then LineCentroid(lines[0]) else [];
      var rest := CentroidScan(lines[1..], on);
      CentroidScanEntries(lines[1..], on);
      LineCentroidEntries(lines[0]);
      assert CentroidScan(lines, inSection) == head + rest;
      forall e | e in head + rest
        ensures WellFormedEntry(e) && exists l :: l in lines && CentroidPath(l) == Some(e.source)
      {
        if e in head {
          assert lines[0] in lines;
        } else {
          var l :| l in lines[1..] && CentroidPath(l) == Some(e.source);
          assert l in lines;
        }
      }
    }
  }

  /* ----------------------------------------------------------------------
     The whole report
     ---------------------------------------------------------------------- */

  /** The parsed report: the cluster count and the centroid copies. */
  datatype Report = Report(clusters: nat, centroids: seq<Centroid>)

  /** `run_max_cluster` after maxcluster has run: the count from the first
      summary match (no result when there is none, where the code fails on
      `match.group`), and the centroids of the lines of `stdout.split("\n")`. */
  function ParseReport(stdout: string): (r: Option<Report>)
    ensures r.None? <==> forall i :: 0 <= i <= |stdout| ==> SummaryAt(stdout, i).None?
    ensures r.Some? ==> exists i :: (0 <= i <= |stdout|
      && SummaryAt(stdout, i) == Some(r.value.clusters)
      && forall p :: 0 <= p < i ==> SummaryAt(stdout, p).None?)
    ensures r.Some? ==> |r.value.centroids| <= Count(stdout, '\n') + 1
    ensures r.Some? ==> var lines := Split(stdout, '\n');
      r.value.centroids == AllCentroids(lines[FirstOpening(lines)..])
  {
    match LeftmostSummary(stdout, 0)
    case None => None
    case Some(i) =>
      var lines := Split(stdout, '\n');
      CentroidScanSpec(lines);
      Some(Report(SummaryAt(stdout, i).value, CentroidScan(lines, false)))
  }
}
