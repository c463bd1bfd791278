/** The three string functions of the CAD manifest builder
    (tools/generate_cad_json_grouped.py): the slug of a group, the display
    label of a drawing and the group key of a PDF file name. */
module CadText {
  import opened Common
  import opened Text
  import PurePath

  // ---------------------------------------------------------------- slugify

  /** The class `[a-z0-9]` of the slug pattern. */
  predicate IsAlnum(c: char) {
    'a' <= c <= 'z' || '0' <= c <= '9'
  }

  predicate IsDash(c: char) {
    c == '-'
  }

  predicate NotDash(c: char) {
    c != '-'
  }

  /** Characters a slug is made of. */
  predicate IsSlugChar(c: char) {
    IsAlnum(c) || c == '-'
  }

  /** No two dashes in a row. */
  predicate NoDoubleDash(s: string) {
    forall i :: 0 <= i < |s| - 1 ==> !(s[i] == '-' && s[i + 1] == '-')
  }

  /** `re.sub(r"[^a-z0-9]+", "-", s)`: every maximal run of characters
      outside `[a-z0-9]` becomes one dash. */
  function Collapse(s: string): (r: string)
    ensures |r| <= |s|
    ensures r == [] <==> s == []
    ensures r != [] && r[0] == '-' <==> s != [] && !IsAlnum(s[0])
  {
    if s == [] then []
    else
      var rest := Collapse(s[1..]);
      if IsAlnum(s[0]) then [s[0]] + rest
      else if rest != [] && rest[0] == '-' then rest
      else "-" + rest
  }

  /** `slugify` (lines 11-14): lower-case, collapse, strip dashes, keep at
      most 80 characters, and fall back to `cad-item`. */
  function Slugify(text: string): string {
    var s := Trim(Collapse(Lower(text)), IsDash);
    if s != [] then Truncate(s, 80) else "cad-item"
  }

  /** One character: kept when alphanumeric, a dash otherwise. */
  lemma CollapseChar(c: char)
    ensures Collapse([c]) == if IsAlnum(c) then [c] else "-"
  {
  }

  /** The substitution seen from the first character. */
  lemma CollapseCons(c: char, t: string)
    ensures Collapse([c] + t) ==
      if IsAlnum(c) then [c] + Collapse(t)
      else if Collapse(t) != [] && Collapse(t)[0] == '-' then Collapse(t)
      else "-" + Collapse(t)
  {
    assert ([c] + t)[0] == c && ([c] + t)[1..] == t;
  }

  /** One character in front: a dash merges with a leading dash of the rest. */
  lemma CollapseFront(c: char, b: string)
    ensures Collapse([c] + b) ==
      if b != [] && !IsAlnum(c) && !IsAlnum(b[0])
      then Collapse([c]) + Collapse(b)[1..]
      else Collapse([c]) + Collapse(b)
  {
    CollapseCons(c, b);
    CollapseChar(c);
    if b != [] && !IsAlnum(c) && !IsAlnum(b[0]) {
      assert Collapse(b) == "-" + Collapse(b)[1..];
    }
  }

  /** A character in front of a non-empty piece extends both sides of a
      split the same way. */
  lemma CollapseStep(c: char, a: string, b: string, tail: string)
    requires a != [] && Collapse(a + b) == Collapse(a) + tail
    ensures Collapse([c] + (a + b)) == Collapse([c] + a) + tail
  {
    CollapseCons(c, a + b);
    CollapseCons(c, a);
    var rest, front := Collapse(a + b), Collapse(a);
    assert front != [] && rest[0] == front[0];
    if IsAlnum(c) {
      calc {
        Collapse([c] + (a + b));
        [c] + (front + tail);
        ([c] + front) + tail;
        Collapse([c] + a) + tail;
      }
    } else if front[0] == '-' {
      assert Collapse([c] + (a + b)) == rest;
      assert Collapse([c] + a) == front;
    } else {
      calc {
        Collapse([c] + (a + b));
        "-" + (front + tail);
        ("-" + front) + tail;
        Collapse([c] + a) + tail;
      }
    }
  }

  /** The substitution works piece by piece, except that a run of other
      characters spanning the cut still becomes a single dash. */
  lemma {:induction false} CollapseAppend(a: string, b: string)
    ensures Collapse(a + b) ==
      if a != [] && b != [] && !IsAlnum(a[|a| - 1]) && !IsAlnum(b[0])
      then Collapse(a) + Collapse(b)[1..]
      else Collapse(a) + Collapse(b)
  {
    if a == [] {
      assert a + b == b;
    } else if |a| == 1 {
      assert a == [a[0]];
      CollapseFront(a[0], b);
    } else {
      var a' := a[1..];
      assert a == [a[0]] + a' && a + b == [a[0]] + (a' + b);
      assert a'[|a'| - 1] == a[|a| - 1];
      var tail := if b != [] && !IsAlnum(a[|a| - 1]) && !IsAlnum(b[0])
        then Collapse(b)[1..] else Collapse(b);
      CollapseAppend(a', b);
      assert Collapse(a' + b) == Collapse(a') + tail;
      CollapseStep(a[0], a', b, tail);
    }
  }

  /** A space between two letters becomes one dash. */
  lemma CollapseExample()
    ensures Collapse("a b") == "a-b"
  {
    CollapseChar('b');
    CollapseCons(' ', "b");
    CollapseCons('a', " b");
    assert "a b" == ['a'] + " b" && " b" == [' '] + "b";
  }

  /** The substitution produces only slug characters and never two dashes
      in a row. */
  lemma {:induction false} CollapseShape(s: string)
    ensures forall i :: 0 <= i < |Collapse(s)| ==> IsSlugChar(Collapse(s)[i])
    ensures NoDoubleDash(Collapse(s))
  {
    if s != [] {
      CollapseShape(s[1..]);
      var rest := Collapse(s[1..]);
      if IsAlnum(s[0]) {
        assert Collapse(s) == [s[0]] + rest;
      } else if !(rest != [] && rest[0] == '-') {
        assert Collapse(s) == "-" + rest;
      }
    }
  }

  /** The substitution keeps every alphanumeric character in order and
      drops every other one. */
  lemma {:induction false} CollapseKeepsAlnum(s: string)
    ensures Filter(Collapse(s), NotDash) == Filter(s, IsAlnum)
  {
    if s != [] {
      CollapseKeepsAlnum(s[1..]);
      var rest := Collapse(s[1..]);
      if IsAlnum(s[0]) {
        assert Collapse(s) == [s[0]] + rest;
        FilterAppend([s[0]], rest, NotDash);
      } else if !(rest != [] && rest[0] == '-') {
        assert Collapse(s) == "-" + rest;
        FilterAppend("-", rest, NotDash);
      }
    }
  }

  /** A string already made of single dashes between slug characters is
      left alone by the substitution. */
  lemma {:induction false} CollapseFixesSlugs(s: string)
    requires forall i :: 0 <= i < |s| ==> IsSlugChar(s[i])
    requires NoDoubleDash(s)
    ensures Collapse(s) == s
  {
    if s != [] {
      CollapseFixesSlugs(s[1..]);
    }
  }

  /** What stripping the dashes leaves: a slice that neither starts nor
      ends with a dash, with only dashes cut off around it. */
  lemma TrimDashSlice(c: string)
    ensures var s := Trim(c, IsDash); var i := LeadLength(c, IsDash);
      && i + |s| <= |c| && s == c[i..i + |s|]
      && (forall k :: 0 <= k < i ==> c[k] == '-')
      && (forall k :: i + |s| <= k < |c| ==> c[k] == '-')
      && (s != [] ==> s[0] != '-' && s[|s| - 1] != '-')
  {
    TrimSlice(c, IsDash);
  }

  /** The fallback is itself a well-formed slug. */
  lemma FallbackWellFormed()
    ensures forall i :: 0 <= i < |"cad-item"| ==> IsSlugChar("cad-item"[i])
    ensures NoDoubleDash("cad-item")
  {
    var f := "cad-item";
    assert f[0] == 'c' && f[1] == 'a' && f[2] == 'd' && f[3] == '-';
    assert f[4] == 'i' && f[5] == 't' && f[6] == 'e' && f[7] == 'm';
  }

  /** Every slug is non-empty, at most 80 characters of `[a-z0-9-]`, does
      not start with a dash and never holds two dashes in a row. (A cut at
      80 may end it with a dash.) */
  lemma SlugifyWellFormed(text: string)
    ensures Slugify(text) != [] && |Slugify(text)| <= 80
    ensures forall i :: 0 <= i < |Slugify(text)| ==> IsSlugChar(Slugify(text)[i])
    ensures Slugify(text)[0] != '-'
    ensures NoDoubleDash(Slugify(text))
  {
    var c := Collapse(Lower(text));
    CollapseShape(Lower(text));
    TrimDashSlice(c);
    var s := Trim(c, IsDash);
    var i := LeadLength(c, IsDash);
    if s != [] {
      var r := Truncate(s, 80);
      forall k | 0 <= k < |r| ensures IsSlugChar(r[k]) {
        assert r[k] == c[i + k];
      }
      forall k | 0 <= k < |r| - 1 ensures !(r[k] == '-' && r[k + 1] == '-') {
        assert r[k] == c[i + k] && r[k + 1] == c[i + k + 1];
      }
    } else {
      FallbackWellFormed();
    }
  }

  lemma {:induction false} FilterOfDashes(s: string)
    requires forall i :: 0 <= i < |s| ==> s[i] == '-'
    ensures Filter(s, NotDash) == []
  {
    FilterDropsAll(s, NotDash);
  }

  lemma FilterBetweenDashes(pre: string, s: string, post: string)
    requires forall k :: 0 <= k < |pre| ==> pre[k] == '-'
    requires forall k :: 0 <= k < |post| ==> post[k] == '-'
    ensures Filter(pre + s + post, NotDash) == Filter(s, NotDash)
  {
    assert pre + s + post == pre + (s + post);
    FilterAppend(pre, s + post, NotDash);
    FilterAppend(s, post, NotDash);
    FilterOfDashes(pre);
    FilterOfDashes(post);
  }

  /** Stripping the dashes keeps the non-dash characters. */
  lemma TrimDashKeepsRest(c: string)
    ensures Filter(Trim(c, IsDash), NotDash) == Filter(c, NotDash)
  {
    TrimDashSlice(c);
    var s := Trim(c, IsDash);
    var i := LeadLength(c, IsDash);
    var j := i + |s|;
    assert c == c[..i] + s + c[j..];
    FilterBetweenDashes(c[..i], s, c[j..]);
  }

  /** Before the cut at 80, the slug's non-dash characters are exactly the
      alphanumeric characters of the lower-cased input. */
  lemma StrippedKeepsAlnum(text: string)
    ensures Filter(Trim(Collapse(Lower(text)), IsDash), NotDash) == Filter(Lower(text), IsAlnum)
  {
    TrimDashKeepsRest(Collapse(Lower(text)));
    CollapseKeepsAlnum(Lower(text));
  }

  /** Cutting a string that starts with a non-dash keeps a non-empty prefix
      of its non-dash characters. */
  lemma TruncateKeepsPrefix(s: string, n: nat)
    requires s != [] && s[0] != '-' && n > 0
    ensures var k := Filter(Truncate(s, n), NotDash);
      && k != [] && |k| <= |Filter(s, NotDash)| && k == Filter(s, NotDash)[..|k|]
      && (|s| <= n ==> k == Filter(s, NotDash))
  {
    var r := Truncate(s, n);
    var rest := s[|r|..];
    assert s == r + rest;
    FilterAppend(r, rest, NotDash);
    assert r[0] == s[0];
  }

  /** With no alphanumeric character in the lower-cased input the slug is
      `cad-item`. */
  lemma SlugifyWithoutAlnum(text: string)
    requires Filter(Lower(text), IsAlnum) == []
    ensures Slugify(text) == "cad-item"
  {
    StrippedKeepsAlnum(text);
    var s := Trim(Collapse(Lower(text)), IsDash);
    TrimDashSlice(Collapse(Lower(text)));
    assert s != [] ==> Filter(s, NotDash) != [];
  }

  /** Otherwise the slug's non-dash characters are a non-empty prefix of
      the alphanumeric characters of the lower-cased input, and all of them
      when the input has at most 80 characters. */
  lemma SlugifyKeepsAlnum(text: string)
    requires Filter(Lower(text), IsAlnum) != []
    ensures var a := Filter(Lower(text), IsAlnum); var k := Filter(Slugify(text), NotDash);
      && k != [] && |k| <= |a| && k == a[..|k|]
      && (|text| <= 80 ==> k == a)
  {
    StrippedKeepsAlnum(text);
    var c := Collapse(Lower(text));
    TrimDashSlice(c);
    var s := Trim(c, IsDash);
    assert s != [];
    TruncateKeepsPrefix(s, 80);
    assert |s| <= |c| <= |Lower(text)| == |text|;
  }

  /** A slug that does not end with a dash is its own slug. */
  lemma SlugifyIdempotent(text: string)
    requires Slugify(text)[|Slugify(text)| - 1] != '-'
    ensures Slugify(Slugify(text)) == Slugify(text)
  {
    SlugifyWellFormed(text);
    var r := Slugify(text);
    assert Lower(r) == r;
    CollapseFixesSlugs(r);
    TrimStripped(r, IsDash);
  }

  // ------------------------------------------------------------- nice_label

  /** `.replace("_", " ").replace("-", " ")`. */
  function SpaceSeparators(s: string): string {
    seq(|s|, i requires 0 <= i < |s| => if s[i] == '_' || s[i] == '-' then ' ' else s[i])
  }

  /** The stem with `_` and `-` made spaces, stripped. */
  function LabelText(name: string): string {
    Strip(SpaceSeparators(PurePath.Stem(name)))
  }

  /** At most 60 characters of the label text, or `PDF` when it is empty. */
  function LabelFrom(s: string): string {
    if s != [] then Truncate(s, 60) else "PDF"
  }

  /** `nice_label` (lines 16-19). */
  function NiceLabel(name: string): string {
    LabelFrom(LabelText(name))
  }

  /** The label text is free of `_` and `-` and starts and ends with a
      visible character. */
  lemma LabelTextSlice(name: string)
    ensures var s := LabelText(name);
      && (forall k :: 0 <= k < |s| ==> s[k] != '_' && s[k] != '-')
      && (s != [] ==> !IsSpace(s[0]) && !IsSpace(s[|s| - 1]))
  {
    SpaceSeparatorsShape(PurePath.Stem(name));
    StripWithoutSeparators(SpaceSeparators(PurePath.Stem(name)));
  }

  lemma SpaceSeparatorsShape(s: string)
    ensures forall k :: 0 <= k < |SpaceSeparators(s)| ==> SpaceSeparators(s)[k] != '_' && SpaceSeparators(s)[k] != '-'
  {
  }

  lemma StripWithoutSeparators(t: string)
    requires forall k :: 0 <= k < |t| ==> t[k] != '_' && t[k] != '-'
    ensures var s := Strip(t);
      && (forall k :: 0 <= k < |s| ==> s[k] != '_' && s[k] != '-')
      && (s != [] ==> !IsSpace(s[0]) && !IsSpace(s[|s| - 1]))
  {
    var s := Strip(t);
    TrimSlice(t, IsSpace);
    forall k | 0 <= k < |s| ensures s[k] != '_' && s[k] != '-' {
      TrimIndex(t, IsSpace, k);
    }
  }

  lemma LabelFromShape(s: string)
    requires forall k :: 0 <= k < |s| ==> s[k] != '_' && s[k] != '-'
    ensures |LabelFrom(s)| <= 60
    ensures forall i :: 0 <= i < |LabelFrom(s)| ==> LabelFrom(s)[i] != '_' && LabelFrom(s)[i] != '-'
  {
    var r := LabelFrom(s);
    if s != [] {
      assert forall k :: 0 <= k < |r| ==> r[k] == s[k];
    } else {
      assert r[0] == 'P' && r[1] == 'D' && r[2] == 'F';
    }
  }

  /** A label has at most 60 characters and no `_` or `-`. */
  lemma NiceLabelShape(name: string)
    ensures |NiceLabel(name)| <= 60
    ensures forall i :: 0 <= i < |NiceLabel(name)| ==> NiceLabel(name)[i] != '_' && NiceLabel(name)[i] != '-'
  {
    LabelTextSlice(name);
    LabelFromShape(LabelText(name));
  }

  lemma LabelFromText(s: string)
    requires s != [] ==> !IsSpace(s[0])
    ensures s == [] ==> LabelFrom(s) == "PDF"
    ensures var r := LabelFrom(s);
      s != [] ==> r != [] && !IsSpace(r[0]) && r == s[..|r|] && (|s| <= 60 ==> r == s)
    ensures |s| > 60 ==> LabelFrom(s) == s[..60]
  {
  }

  /** The label is `PDF` when the stem holds nothing but separators and
      whitespace; otherwise it starts with a visible character and is the
      whole label text when that has at most 60 characters, its first 60
      characters when it is longer. */
  lemma NiceLabelText(name: string)
    ensures LabelText(name) == [] ==> NiceLabel(name) == "PDF"
    ensures var s := LabelText(name); var r := NiceLabel(name);
      s != [] ==> r != [] && !IsSpace(r[0]) && r == s[..|r|] && (|s| <= 60 ==> r == s)
    ensures |LabelText(name)| > 60 ==> NiceLabel(name) == LabelText(name)[..60]
  {
    LabelTextSlice(name);
    LabelFromText(LabelText(name));
  }

  // -------------------------------------------------------------- group_key

  /** The last four characters are `.pdf` in any case. */
  predicate EndsWithPdf(s: string) {
    |s| >= 4 && Lower(s[|s| - 4..]) == ".pdf"
  }

  /** `re.sub(r"\.pdf$", "", filename, flags=re.I)`: `$` matches at the end
      and also just before a final newline. */
  function DropPdfExtension(name: string): string {
    if EndsWithPdf(name) then name[..|name| - 4]
    else if |name| >= 5 && name[|name| - 1] == '\n' && EndsWithPdf(name[..|name| - 1])
    then name[..|name| - 5] + "\n"
    else name
  }

  /** The stem that `group_key` inspects. */
  function KeyStem(filename: string): string {
    Strip(DropPdfExtension(filename))
  }

  /** `group_key` (lines 21-28). */
  function GroupKey(filename: string): string {
    KeyOfStem(KeyStem(filename))
  }

  /** A name ending in `.pdf`, in any case, loses exactly those four
      characters. */
  lemma DropPdfEnding(t: string, e: string)
    requires |e| == 4 && Lower(e) == ".pdf"
    ensures DropPdfExtension(t + e) == t
    ensures KeyStem(t + e) == Strip(t)
  {
    var f := t + e;
    assert f[|f| - 4..] == e && f[..|f| - 4] == t;
  }

  /** Before a final newline the `.pdf` goes and the newline stays, to be
      removed by the strip. */
  lemma DropPdfBeforeNewline(t: string, e: string)
    requires |e| == 4 && Lower(e) == ".pdf"
    ensures DropPdfExtension(t + e + "\n") == t + "\n"
    ensures KeyStem(t + e + "\n") == Strip(t + "\n")
  {
    var f := t + e + "\n";
    assert Lower(f[|f| - 4..])[3] == '\n';
    assert f[..|f| - 1] == t + e;
    DropPdfEnding(t, e);
    assert f[..|f| - 5] == t;
  }

  /** Any other name is only stripped. */
  lemma KeyStemWithoutPdf(f: string)
    requires |f| < 4 || Lower(f[|f| - 4..]) != ".pdf"
    requires |f| < 5 || f[|f| - 1] != '\n' || Lower(f[|f| - 5..|f| - 1]) != ".pdf"
    ensures DropPdfExtension(f) == f
    ensures KeyStem(f) == Strip(f)
  {
    if |f| >= 5 {
      assert f[..|f| - 1][|f| - 5..] == f[|f| - 5..|f| - 1];
    }
  }

  /** The three tiers of `group_key`, applied to the stripped stem. */
  function KeyOfStem(stem: string): string {
    if IndexOf(stem, " - ").Some? then Strip(BeforeFirst(stem, " - "))
    else if IndexOf(stem, "_").Some? then Strip(BeforeFirst(stem, "_"))
    else
      var words := Words(stem);
      if |words| >= 2 then words[0] + " " + words[1] else stem
  }

  /** The first occurrence of `sep` is what `split(sep)[0]` cuts at. */
  lemma FirstOccurrence(s: string, sep: string, i: nat)
    requires OccursAt(s, sep, i)
    requires forall j :: 0 <= j < i ==> !OccursAt(s, sep, j)
    ensures IndexOf(s, sep) == Some(i)
    ensures BeforeFirst(s, sep) == s[..i]
  {
  }

  /** First tier: when the stem contains ` - `, the key is the stripped
      text before its first occurrence. */
  lemma GroupKeyBeforeDash(filename: string, i: nat)
    requires OccursAt(KeyStem(filename), " - ", i)
    requires forall j :: 0 <= j < i ==> !OccursAt(KeyStem(filename), " - ", j)
    ensures GroupKey(filename) == Strip(KeyStem(filename)[..i])
  {
    FirstOccurrence(KeyStem(filename), " - ", i);
  }

  lemma NoDashSeparator(stem: string)
    requires forall j :: !OccursAt(stem, " - ", j)
    ensures IndexOf(stem, " - ").None?
  {
  }

  lemma KeyOfStemUnderscore(stem: string, i: nat)
    requires forall j :: !OccursAt(stem, " - ", j)
    requires i < |stem| && stem[i] == '_'
    requires '_' !in stem[..i]
    ensures KeyOfStem(stem) == Strip(stem[..i])
  {
    NoDashSeparator(stem);
    assert stem[i..i + 1] == "_";
    forall j | 0 <= j < i ensures !OccursAt(stem, "_", j) {
      assert stem[..i][j] == stem[j];
    }
    FirstOccurrence(stem, "_", i);
  }

  /** Second tier: without ` - ` but with `_`, the key is the stripped text
      before the first `_`. */
  lemma GroupKeyBeforeUnderscore(filename: string, i: nat)
    requires forall j :: !OccursAt(KeyStem(filename), " - ", j)
    requires i < |KeyStem(filename)| && KeyStem(filename)[i] == '_'
    requires '_' !in KeyStem(filename)[..i]
    ensures GroupKey(filename) == Strip(KeyStem(filename)[..i])
  {
    KeyOfStemUnderscore(KeyStem(filename), i);
  }

  lemma KeyOfStemWords(stem: string)
    requires forall j :: !OccursAt(stem, " - ", j)
    requires '_' !in stem
    ensures var words := Words(stem);
      KeyOfStem(stem) == if |words| >= 2 then words[0] + " " + words[1] else stem
  {
    NoDashSeparator(stem);
  }

  /** Third tier: with neither, the key is the first two words joined by
      one space, or the whole stem when it has fewer than two words. */
  lemma GroupKeyFirstWords(filename: string)
    requires forall j :: !OccursAt(KeyStem(filename), " - ", j)
    requires '_' !in KeyStem(filename)
    ensures var words := Words(KeyStem(filename));
      GroupKey(filename) == if |words| >= 2 then words[0] + " " + words[1] else KeyStem(filename)
  {
    KeyOfStemWords(KeyStem(filename));
  }

  /** Python's `strip` leaves a string alone when it neither starts nor
      ends with whitespace. */
  lemma StripStripped(s: string)
    requires s != [] ==> !IsSpace(s[0]) && !IsSpace(s[|s| - 1])
    ensures Strip(s) == s
  {
    TrimStripped(s, IsSpace);
  }

  /** A group key never starts or ends with whitespace. */
  lemma GroupKeyIsStripped(filename: string)
    ensures Strip(GroupKey(filename)) == GroupKey(filename)
  {
    var stem := KeyStem(filename);
    var words := Words(stem);
    if IndexOf(stem, " - ").None? && IndexOf(stem, "_").None? && |words| >= 2 {
      WordsPartition(stem);
      assert words[0] != [] && words[1] != [];
      var r := words[0] + " " + words[1];
      assert r[0] == words[0][0];
      assert r[|r| - 1] == words[1][|words[1]| - 1];
      StripStripped(r);
    } else {
      if IndexOf(stem, " - ").Some? {
        TrimSlice(BeforeFirst(stem, " - "), IsSpace);
      } else if IndexOf(stem, "_").Some? {
        TrimSlice(BeforeFirst(stem, "_"), IsSpace);
      } else {
        TrimSlice(DropPdfExtension(filename), IsSpace);
      }
      StripStripped(GroupKey(filename));
    }
  }
  lemma DashExampleStem()
    ensures KeyStem("Keel Bracket - Rev B.pdf") == "Keel Bracket - Rev B"
  {
    var f := "Keel Bracket - Rev B.pdf";
    assert EndsWithPdf(f);
    assert DropPdfExtension(f) == "Keel Bracket - Rev B";
    StripStripped("Keel Bracket - Rev B");
  }

  lemma DashExampleSeparator()
    ensures OccursAt("Keel Bracket - Rev B", " - ", 12)
    ensures forall j :: 0 <= j < 12 ==> !OccursAt("Keel Bracket - Rev B", " - ", j)
  {
    var stem := "Keel Bracket - Rev B";
    assert stem[12..15] == " - ";
    assert forall k :: 0 <= k < 13 ==> stem[k] != '-';
    forall j | 0 <= j < 12 ensures !OccursAt(stem, " - ", j) {
      assert stem[j..j + 3][1] == stem[j + 1] != '-';
    }
  }

  lemma DashExampleCut()
    ensures Strip("Keel Bracket - Rev B"[..12]) == "Keel Bracket"
  {
    assert "Keel Bracket - Rev B"[..12] == "Keel Bracket";
    StripStripped("Keel Bracket");
  }

  /** `Keel Bracket - Rev B.pdf` is grouped under `Keel Bracket`. */
  lemma GroupKeyDashExample()
    ensures GroupKey("Keel Bracket - Rev B.pdf") == "Keel Bracket"
  {
    DashExampleStem();
    DashExampleSeparator();
    GroupKeyBeforeDash("Keel Bracket - Rev B.pdf", 12);
    DashExampleCut();
  }

  /** `keel_bracket_v2.pdf` is grouped under `keel`. */
  lemma GroupKeyUnderscoreExample()
    ensures GroupKey("keel_bracket_v2.pdf") == "keel"
  {
    var f := "keel_bracket_v2.pdf";
    assert EndsWithPdf(f);
    assert DropPdfExtension(f) == "keel_bracket_v2";
    StripStripped("keel_bracket_v2");
    var stem := KeyStem(f);
    assert stem[..4] == "keel";
    assert stem == "keel_bracket_v2";
    assert forall k :: 0 <= k < |stem| ==> stem[k] != ' ';
    forall j | 0 <= j && j + 3 <= |stem| ensures !OccursAt(stem, " - ", j) {
      assert stem[j..j + 3][0] == stem[j] != ' ';
    }
    GroupKeyBeforeUnderscore(f, 4);
    StripStripped("keel");
  }

  lemma WordsExampleStem()
    ensures KeyStem("keel bracket final.pdf") == "keel bracket final"
  {
    assert Lower(".pdf") == ".pdf";
    DropPdfEnding("keel bracket final", ".pdf");
    assert "keel bracket final" + ".pdf" == "keel bracket final.pdf";
    StripStripped("keel bracket final");
  }

  lemma WordsExampleNoSeparator()
    ensures forall j :: !OccursAt("keel bracket final", " - ", j)
    ensures '_' !in "keel bracket final"
  {
    var stem := "keel bracket final";
    assert forall k :: 0 <= k < |stem| ==> stem[k] != '-' && stem[k] != '_';
    forall j | 0 <= j && j + 3 <= |stem| ensures !OccursAt(stem, " - ", j) {
      assert stem[j..j + 3][1] == stem[j + 1] != '-';
    }
  }

  lemma WordsExampleWords()
    ensures |Words("keel bracket final")| >= 2
    ensures Words("keel bracket final")[0] == "keel"
    ensures Words("keel bracket final")[1] == "bracket"
  {
    assert "keel bracket final" == "keel" + " " + "bracket" + " final";
    FirstTwoWords("keel", "bracket", " final");
  }

  lemma JoinedExample()
    ensures "keel" + " " + "bracket" == "keel bracket"
  {
  }

  /** `keel bracket final.pdf` is grouped under its first two words. */
  lemma GroupKeyWordsExample()
    ensures GroupKey("keel bracket final.pdf") == "keel bracket"
  {
    var f := "keel bracket final.pdf";
    WordsExampleStem();
    WordsExampleNoSeparator();
    WordsExampleWords();
    GroupKeyFirstWords(f);
    JoinedExample();
  }
}
