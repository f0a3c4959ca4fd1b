/** Text primitives the evaluation pipeline relies on: Python's `str.split`
    and `str.join` on a one-character separator, the character classes of
    Python's `re` module, and decimal numerals (`int(...)` and `f"{i}"`). */
module Text {

  datatype Option<+T> = None | Some(value: T)

  /** Python's `str.isspace`, which is what `\s` matches in a `str` pattern. */
  predicate IsSpace(c: char) {
    || c == ' '
    || ('\t' <= c <= '\r')
    || ('\U{1C}' <= c <= '\U{1F}')
    || c == '\U{85}' || c == '\U{A0}' || c == '\U{1680}'
    || ('\U{2000}' <= c <= '\U{200A}')
    || c == '\U{2028}' || c == '\U{2029}' || c == '\U{202F}'
    || c == '\U{205F}' || c == '\U{3000}'
  }

  /** An ASCII decimal digit. */
  predicate IsDigit(c: char) {
    '0' <= c <= '9'
  }

  predicate AllDigits(s: string) {
    forall i :: 0 <= i < |s| ==> IsDigit(s[i])
  }

  /** Python's `w in s` for strings: `w` occurs in `s` as a substring. */
  predicate Contains(s: string, w: string) {
    exists k :: 0 <= k <= |s| - |w| && OccursAt(s, w, k)
  }

  /** `w` occurs in `s` starting at index `k`. */
  predicate OccursAt(s: string, w: string, k: nat) {
    k + |w| <= |s| && s[k..k + |w|] == w
  }

  /** Number of occurrences of `c` in `s`. */
  function Count(s: string, c: char): nat {
    if |s| == 0 then 0 else (if s[0] == c then 1 else 0) + Count(s[1..], c)
  }

  /* ----------------------------------------------------------------------
     Splitting and joining
     ---------------------------------------------------------------------- */

  /** Python's `s.split(sep)` for a one-character separator: the pieces
      between consecutive separators, empty pieces included. */
  function Split(s: string, sep: char): (r: seq<string>)
    ensures |r| == Count(s, sep) + 1
    ensures forall i :: 0 <= i < |r| ==> sep !in r[i]
    decreases |s|
  {
    if |s| == 0 then [[]]
    else
      var rest := Split(s[1..], sep);
      if s[0] == sep then [[]] + rest
      else [[s[0]] + rest[0]] + rest[1..]
  }

  /** Python's `sep.join(ws)`. */
  function Join(ws: seq<string>, sep: char): string {
    if |ws| == 0 then []
    else if |ws| == 1 then ws[0]
    else ws[0] + [sep] + Join(ws[1..], sep)
  }

  /** A piece of `Split` is empty exactly when the text is empty or starts
      with the separator. */
  lemma SplitHead(s: string, sep: char)
    ensures (|Split(s, sep)[0]| == 0) <==> (|s| == 0 || s[0] == sep)
  {
  }

  /** Joining the pieces back with the separator restores the text. */
  lemma {:induction false} JoinSplit(s: string, sep: char)
    ensures Join(Split(s, sep), sep) == s
    decreases |s|
  {
    if |s| > 0 {
      var rest := Split(s[1..], sep);
      JoinSplit(s[1..], sep);
      if s[0] == sep {
        assert ([[]] + rest)[1..] == rest;
        assert s == [sep] + s[1..];
      } else {
        var r := Split(s, sep);
        assert r[0] == [s[0]] + rest[0];
        if |rest| == 1 {
          assert s == [s[0]] + s[1..];
        } else {
          assert r[1..] == rest[1..];
          assert Join(rest, sep) == rest[0] + [sep] + Join(rest[1..], sep);
          assert s == [s[0]] + s[1..];
        }
      }
    }
  }

  /** A text with no separator is a single piece. */
  lemma {:induction false} SplitNoSeparator(s: string, sep: char)
    requires sep !in s
    ensures Split(s, sep) == [s]
    decreases |s|
  {
    if |s| > 0 {
      SplitNoSeparator(s[1..], sep);
      assert s == [s[0]] + s[1..];
    }
  }

  /** `Split` on a text with a known first character. */
  lemma SplitCons(c: char, t: string, sep: char)
    ensures Split([c] + t, sep) ==
      if c == sep then [[]] + Split(t, sep)
      else [[c] + Split(t, sep)[0]] + Split(t, sep)[1..]
  {
    assert ([c] + t)[1..] == t;
  }

  /** Splitting `x + sep + y` splits `x` and `y` independently. */
  lemma {:induction false} SplitConcat(x: string, y: string, sep: char)
    ensures Split(x + [sep] + y, sep) == Split(x, sep) + Split(y, sep)
    decreases |x|
  {
    if |x| == 0 {
      assert x + [sep] + y == [sep] + y;
      SplitCons(sep, y, sep);
    } else {
      SplitConcat(x[1..], y, sep);
      SplitConcatStep(x[0], x[1..], y, sep);
      assert x == [x[0]] + x[1..];
      assert x + [sep] + y == [x[0]] + (x[1..] + [sep] + y);
    }
  }

  /** One character in front of `x` extends `SplitConcat` from `x` to `c + x`. */
  lemma SplitConcatStep(c: char, x: string, y: string, sep: char)
    requires Split(x + [sep] + y, sep) == Split(x, sep) + Split(y, sep)
    ensures Split([c] + (x + [sep] + y), sep) == Split([c] + x, sep) + Split(y, sep)
  {
    SplitCons(c, x + [sep] + y, sep);
    SplitCons(c, x, sep);
    PrependPiece(c, sep, Split(x, sep), Split(y, sep));
  }

  /** What `SplitCons` does to the first pieces commutes with appending
      further pieces. */
  lemma PrependPiece(c: char, sep: char, px: seq<string>, py: seq<string>)
    requires |px| >= 1
    ensures (if c == sep then [[]] + (px + py) else [[c] + (px + py)[0]] + (px + py)[1..])
      == (if c == sep then [[]] + px else [[c] + px[0]] + px[1..]) + py
  {
    if c != sep {
      assert (px + py)[1..] == px[1..] + py;
    }
  }

  /** Splitting what `Join` built gives back the pieces, provided none of
      them contains the separator. */
  lemma {:induction false} SplitJoin(ws: seq<string>, sep: char)
    requires |ws| >= 1
    requires forall i :: 0 <= i < |ws| ==> sep !in ws[i]
    ensures Split(Join(ws, sep), sep) == ws
    decreases |ws|
  {
    SplitNoSeparator(ws[0], sep);
    if |ws| > 1 {
      SplitJoin(ws[1..], sep);
      SplitConcat(ws[0], Join(ws[1..], sep), sep);
      assert ws == [ws[0]] + ws[1..];
    }
  }

  /* ----------------------------------------------------------------------
     Decimal numerals
     ---------------------------------------------------------------------- */

  function DigitValue(c: char): nat
    requires IsDigit(c)
  {
    c as int - '0' as int
  }

  /** Python's `int(s)` on a string of ASCII digits. */
  function ParseDecimal(s: string): nat
    requires AllDigits(s)
    decreases |s|
  {
    if |s| == 0 then 0 else 10 * ParseDecimal(s[..|s| - 1]) + DigitValue(s[|s| - 1])
  }

  /** Python's `str(n)` (or `f"{n}"`) for a natural number. */
  function DecimalString(n: nat): (r: string)
    ensures |r| >= 1 && AllDigits(r)
    ensures |r| > 1 ==> r[0] != '0'
    decreases n
  {
    (if n < 10 then [] else DecimalString(n / 10)) + [('0' as int + n % 10) as char]
  }

  /** Reading back a rendered number gives the number. */
  lemma {:induction false} ParseDecimalString(n: nat)
    ensures ParseDecimal(DecimalString(n)) == n
    decreases n
  {
    var s := DecimalString(n);
    var init := if n < 10 then [] else DecimalString(n / 10);
    var last := ('0' as int + n % 10) as char;
    assert s == init + [last];
    assert s[..|s| - 1] == init;
    assert DigitValue(last) == n % 10;
    if n >= 10 {
      ParseDecimalString(n / 10);
      assert ParseDecimal(init) == n / 10;
    }
    assert n == 10 * (n / 10) + n % 10;
  }

  /** Distinct numbers render as distinct numerals. */
  lemma DecimalStringInjective(m: nat, n: nat)
    requires m != n
    ensures DecimalString(m) != DecimalString(n)
  {
    ParseDecimalString(m);
    ParseDecimalString(n);
  }
}
