/** The parts of Python's `str` that the manifest scripts rely on, on code
    points: `isspace`, `lower`, `strip`, `in`, `split`, `rfind` and the
    decimal rendering of a count. */
module Text {
  import opened Common

  /** Python's `str.isspace()`: the code points whose bidirectional class is
      WS, B or S or whose category is Zs. */
  predicate IsSpace(c: char) {
    var n := c as int;
    (9 <= n <= 13) || (0x1C <= n <= 0x20) || n == 0x85 || n == 0xA0 || n == 0x1680
    || (0x2000 <= n <= 0x200A) || n == 0x2028 || n == 0x2029 || n == 0x202F
    || n == 0x205F || n == 0x3000
  }

  /** `str.lower()` on one character, for the ASCII letters. */
  function LowerChar(c: char): char {
    if 'A' <= c <= 'Z' then (c as int + 32) as char else c
  }

  function Lower(s: string): string {
    seq(|s|, i requires 0 <= i < |s| => LowerChar(s[i]))
  }

  /** The first index at or after `i` whose character `drop` keeps, or
      `|s|` when there is none. */
  function SkipFrom(s: string, drop: char -> bool, i: nat): (n: nat)
    requires i <= |s|
    ensures i <= n <= |s|
    decreases |s| - i
  {
    if i < |s| && drop(s[i]) then SkipFrom(s, drop, i + 1) else i
  }

  /** Going down from `j` to no lower than `lo`, the end of the last
      character that `drop` keeps, or `lo` when there is none. */
  function SkipBackFrom(s: string, drop: char -> bool, lo: nat, j: nat): (n: nat)
    requires lo <= j <= |s|
    ensures lo <= n <= j
    decreases j
  {
    if lo < j && drop(s[j - 1]) then SkipBackFrom(s, drop, lo, j - 1) else j
  }

  lemma {:induction false} SkipFromSpec(s: string, drop: char -> bool, i: nat)
    requires i <= |s|
    ensures forall k :: i <= k < SkipFrom(s, drop, i) ==> drop(s[k])
    ensures SkipFrom(s, drop, i) < |s| ==> !drop(s[SkipFrom(s, drop, i)])
    decreases |s| - i
  {
    if i < |s| && drop(s[i]) {
      SkipFromSpec(s, drop, i + 1);
    }
  }

  lemma {:induction false} SkipBackFromSpec(s: string, drop: char -> bool, lo: nat, j: nat)
    requires lo <= j <= |s|
    ensures forall k :: SkipBackFrom(s, drop, lo, j) <= k < j ==> drop(s[k])
    ensures SkipBackFrom(s, drop, lo, j) > lo ==> !drop(s[SkipBackFrom(s, drop, lo, j) - 1])
    decreases j
  {
    if lo < j && drop(s[j - 1]) {
      SkipBackFromSpec(s, drop, lo, j - 1);
    }
  }

  /** How many leading characters stripping drops. */
  function LeadLength(s: string, drop: char -> bool): nat {
    SkipFrom(s, drop, 0)
  }

  /** Python's `str.strip(chars)`: drop the leading characters of the
      class, then the trailing ones of what is left. */
  function Trim(s: string, drop: char -> bool): (r: string)
    ensures |r| <= |s|
  {
    var i := LeadLength(s, drop);
    s[i..SkipBackFrom(s, drop, i, |s|)]
  }

  /** What stripping leaves: the longest slice of `s` that neither starts
      nor ends with a character of the class, with only such characters
      cut off around it. */
  lemma TrimSlice(s: string, drop: char -> bool)
    ensures LeadLength(s, drop) + |Trim(s, drop)| <= |s|
    ensures Trim(s, drop) == s[LeadLength(s, drop)..LeadLength(s, drop) + |Trim(s, drop)|]
    ensures forall k :: 0 <= k < LeadLength(s, drop) ==> drop(s[k])
    ensures forall k :: LeadLength(s, drop) + |Trim(s, drop)| <= k < |s| ==> drop(s[k])
    ensures Trim(s, drop) != [] ==> !drop(Trim(s, drop)[0]) && !drop(Trim(s, drop)[|Trim(s, drop)| - 1])
  {
    var i := LeadLength(s, drop);
    var j := SkipBackFrom(s, drop, i, |s|);
    SkipFromSpec(s, drop, 0);
    SkipBackFromSpec(s, drop, i, |s|);
    var r := Trim(s, drop);
    assert r == s[i..j];
    if r != [] {
      assert r[0] == s[i] && r[|r| - 1] == s[j - 1];
    }
  }

  /** The `k`-th character left by stripping. */
  lemma TrimIndex(s: string, drop: char -> bool, k: nat)
    requires k < |Trim(s, drop)|
    ensures LeadLength(s, drop) + k < |s|
    ensures Trim(s, drop)[k] == s[LeadLength(s, drop) + k]
  {
  }

  /** A string that neither starts nor ends with a character of the class
      is left alone. */
  lemma TrimStripped(s: string, drop: char -> bool)
    requires s != [] ==> !drop(s[0]) && !drop(s[|s| - 1])
    ensures Trim(s, drop) == s
  {
    if s != [] {
      assert LeadLength(s, drop) == 0;
      assert SkipBackFrom(s, drop, 0, |s|) == |s|;
    }
  }

  /** Python's `str.strip()` with no argument. */
  function Strip(s: string): string {
    Trim(s, IsSpace)
  }

  /** `sep` occurs in `s` starting at index `i`. */
  predicate OccursAt(s: string, sep: string, i: int) {
    0 <= i && i + |sep| <= |s| && s[i..i + |sep|] == sep
  }

  /** The first occurrence of `sep` in `s` at or after `from`. */
  function IndexFrom(s: string, sep: string, from: nat): (r: Option<nat>)
    decreases |s| - from
    ensures r.Some? ==> from <= r.value && OccursAt(s, sep, r.value)
    ensures r.Some? ==> forall j :: from <= j < r.value ==> !OccursAt(s, sep, j)
    ensures r.None? ==> forall j :: from <= j ==> !OccursAt(s, sep, j)
  {
    if from + |sep| > |s| then None
    else if s[from..from + |sep|] == sep then Some(from)
    else IndexFrom(s, sep, from + 1)
  }

  function IndexOf(s: string, sep: string): Option<nat> {
    IndexFrom(s, sep, 0)
  }

  /** Python's `s.split(sep)[0]` for a non-empty `sep`: the text before the
      first occurrence, or all of `s`. */
  function BeforeFirst(s: string, sep: string): string {
    match IndexOf(s, sep)
    case Some(i) => s[..i]
    case None => s
  }

  /** Python's `s.rfind(c)`: the last index holding `c`. */
  function LastIndexOf(s: string, c: char): (r: Option<nat>)
    ensures r.Some? ==> r.value < |s| && s[r.value] == c
    ensures r.Some? ==> forall j :: r.value < j < |s| ==> s[j] != c
    ensures r.None? ==> c !in s
  {
    LastIndexBelow(s, c, |s|)
  }

  /** The last index below `n` holding `c`. */
  function LastIndexBelow(s: string, c: char, n: nat): (r: Option<nat>)
    requires n <= |s|
    ensures r.Some? ==> r.value < n && s[r.value] == c
    ensures r.Some? ==> forall j :: r.value < j < n ==> s[j] != c
    ensures r.None? ==> forall j :: 0 <= j < n ==> s[j] != c
  {
    if n == 0 then None
    else if s[n - 1] == c then Some(n - 1)
    else LastIndexBelow(s, c, n - 1)
  }

  /** The length of the run of non-whitespace characters that starts `s`. */
  function WordLength(s: string): (n: nat)
    ensures n <= |s|
    ensures forall i :: 0 <= i < n ==> !IsSpace(s[i])
    ensures n == |s| || IsSpace(s[n])
  {
    if s == [] || IsSpace(s[0]) then 0 else 1 + WordLength(s[1..])
  }

  /** Python's `s[:n]`. */
  function Truncate(s: string, n: nat): (r: string)
    ensures |r| <= n && |r| <= |s| && r == s[..|r|]
    ensures |s| <= n ==> r == s
    ensures |s| > n ==> r == s[..n]
  {
    if |s| <= n then s else s[..n]
  }

  /** Python's `str.split()` with no argument: the maximal runs of
      non-whitespace characters, in order. */
  function Words(s: string): seq<string>
    decreases |s|
  {
    if s == [] then []
    else if IsSpace(s[0]) then Words(s[1..])
    else
      var n := WordLength(s);
      [s[..n]] + Words(s[n..])
  }

  function Concat(ws: seq<string>): string {
    if ws == [] then [] else ws[0] + Concat(ws[1..])
  }

  /** The characters of `s` that satisfy `keep`, in order. */
  function Filter(s: string, keep: char -> bool): (r: string)
    ensures |r| <= |s|
    ensures forall i :: 0 <= i < |r| ==> keep(r[i])
  {
    if s == [] then []
    else (if keep(s[0]) then [s[0]] else []) + Filter(s[1..], keep)
  }

  lemma {:induction false} FilterAppend(a: string, b: string, keep: char -> bool)
    ensures Filter(a + b, keep) == Filter(a, keep) + Filter(b, keep)
  {
    if a != [] {
      assert (a + b)[1..] == a[1..] + b;
      FilterAppend(a[1..], b, keep);
    } else {
      assert a + b == b;
    }
  }

  lemma {:induction false} FilterKeepsAll(s: string, keep: char -> bool)
    requires forall i :: 0 <= i < |s| ==> keep(s[i])
    ensures Filter(s, keep) == s
  {
    if s != [] {
      FilterKeepsAll(s[1..], keep);
    }
  }

  lemma {:induction false} FilterDropsAll(s: string, keep: char -> bool)
    requires forall i :: 0 <= i < |s| ==> !keep(s[i])
    ensures Filter(s, keep) == []
  {
    if s != [] {
      FilterDropsAll(s[1..], keep);
    }
  }

  predicate IsWordChar(c: char) {
    !IsSpace(c)
  }

  lemma {:induction false} WordsShape(s: string)
    ensures forall i :: 0 <= i < |Words(s)| ==> Words(s)[i] != []
    ensures forall i, k :: 0 <= i < |Words(s)| && 0 <= k < |Words(s)[i]| ==> !IsSpace(Words(s)[i][k])
    decreases |s|
  {
    if s == [] {
    } else if IsSpace(s[0]) {
      WordsShape(s[1..]);
    } else {
      var n := WordLength(s);
      WordsShape(s[n..]);
      assert Words(s) == [s[..n]] + Words(s[n..]);
    }
  }

  lemma {:induction false} WordsConcat(s: string)
    ensures Concat(Words(s)) == Filter(s, IsWordChar)
    decreases |s|
  {
    if s == [] {
    } else if IsSpace(s[0]) {
      WordsConcat(s[1..]);
    } else {
      var n := WordLength(s);
      var w := s[..n];
      WordsConcat(s[n..]);
      assert Words(s) == [w] + Words(s[n..]);
      assert Words(s)[1..] == Words(s[n..]);
      FilterKeepsAll(w, IsWordChar);
      FilterAppend(w, s[n..], IsWordChar);
      assert w + s[n..] == s;
    }
  }

  /** `split()` loses exactly the whitespace: every word is non-empty and
      free of whitespace, and the words joined without separator are the
      non-whitespace characters of the input. */
  lemma {:induction false} WordsPartition(s: string)
    ensures forall i :: 0 <= i < |Words(s)| ==> Words(s)[i] != []
    ensures forall i, k :: 0 <= i < |Words(s)| && 0 <= k < |Words(s)[i]| ==> !IsSpace(Words(s)[i][k])
    ensures Concat(Words(s)) == Filter(s, IsWordChar)
  {
    WordsShape(s);
    WordsConcat(s);
  }

  /** Leading whitespace is skipped. */
  lemma {:induction false} WordsAfterSpace(sp: string, t: string)
    requires forall i :: 0 <= i < |sp| ==> IsSpace(sp[i])
    ensures Words(sp + t) == Words(t)
    decreases |sp|
  {
    if sp == [] {
      assert sp + t == t;
    } else {
      assert (sp + t)[0] == sp[0] && (sp + t)[1..] == sp[1..] + t;
      WordsAfterSpace(sp[1..], t);
    }
  }

  /** A run of non-whitespace reaches up to the next whitespace. */
  lemma {:induction false} WordLengthOf(w: string, rest: string)
    requires forall i :: 0 <= i < |w| ==> !IsSpace(w[i])
    requires rest == [] || IsSpace(rest[0])
    ensures WordLength(w + rest) == |w|
    decreases |w|
  {
    if w == [] {
      assert w + rest == rest;
    } else {
      assert (w + rest)[0] == w[0] && (w + rest)[1..] == w[1..] + rest;
      WordLengthOf(w[1..], rest);
    }
  }

  /** A maximal run of non-whitespace at the front is one whole word: the
      split neither cuts it short nor runs past the whitespace after it. */
  lemma WordsLeadingWord(w: string, rest: string)
    requires w != [] && forall i :: 0 <= i < |w| ==> !IsSpace(w[i])
    requires rest == [] || IsSpace(rest[0])
    ensures Words(w + rest) == [w] + Words(rest)
  {
    WordLengthOf(w, rest);
    var s := w + rest;
    assert s[0] == w[0] && s[..|w|] == w && s[|w|..] == rest;
  }

  /** Two words separated by a space, then whitespace or nothing: the
      split starts with exactly those two words. */
  lemma FirstTwoWords(w1: string, w2: string, rest: string)
    requires w1 != [] && forall i :: 0 <= i < |w1| ==> !IsSpace(w1[i])
    requires w2 != [] && forall i :: 0 <= i < |w2| ==> !IsSpace(w2[i])
    requires rest == [] || IsSpace(rest[0])
    ensures |Words(w1 + " " + w2 + rest)| >= 2
    ensures Words(w1 + " " + w2 + rest)[0] == w1
    ensures Words(w1 + " " + w2 + rest)[1] == w2
  {
    assert w1 + " " + w2 + rest == w1 + (" " + (w2 + rest));
    WordsLeadingWord(w1, " " + (w2 + rest));
    WordsAfterSpace(" ", w2 + rest);
    WordsLeadingWord(w2, rest);
  }

  /** The digit character for `d`. */
  function DigitChar(d: nat): char
    requires d < 10
  {
    ('0' as int + d) as char
  }

  /** Python's `f"{n}"` for a count: decimal, no leading zero. */
  function Decimal(n: nat): string {
    if n < 10 then [DigitChar(n)] else Decimal(n / 10) + [DigitChar(n % 10)]
  }

  /** Reads a string of decimal digits back as a number. */
  function DecimalValue(s: string): int {
    if s == [] then 0
    else 10 * DecimalValue(s[..|s| - 1]) + (s[|s| - 1] as int - '0' as int)
  }

  /** The rendering is made of digits, has no leading zero except for 0
      itself, and reads back as the count it renders. */
  lemma {:induction false} DecimalRoundTrip(n: nat)
    ensures Decimal(n) != []
    ensures forall i :: 0 <= i < |Decimal(n)| ==> '0' <= Decimal(n)[i] <= '9'
    ensures Decimal(n)[0] == '0' ==> n == 0
    ensures DecimalValue(Decimal(n)) == n
  {
    if n >= 10 {
      DecimalRoundTrip(n / 10);
      var s := Decimal(n);
      assert s[..|s| - 1] == Decimal(n / 10);
    }
  }
}
