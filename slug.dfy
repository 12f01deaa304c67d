/**
 * `generateSlug`: the country name is lower-cased, decomposed to Unicode
 * normal form D, stripped of combining marks, has đ/Đ replaced, loses every
 * character outside `[a-z0-9\s-]`, has each whitespace run replaced by one
 * hyphen, and is finally trimmed. Each stage is one function here, composed
 * in the source's order.
 */
module Slug {
  import opened JsString

  /** The characters a slug is made of: `a-z`, `0-9` and `-`. */
  predicate IsSlugChar(c: char) {
    ('a' <= c <= 'z') || ('0' <= c <= '9') || c == '-'
  }

  predicate IsSlug(s: string) {
    forall i :: 0 <= i < |s| ==> IsSlugChar(s[i])
  }

  /** Combining Diacritical Marks, U+0300-U+036F: the class `[̀-ͯ]`. */
  predicate IsMark(c: char) {
    '\U{300}' <= c <= '\U{36F}'
  }

  /** The class the fourth `replace` keeps: `[a-z0-9\s-]`. */
  predicate IsKept(c: char) {
    ('a' <= c <= 'z') || ('0' <= c <= '9') || IsSpace(c) || c == '-'
  }

  predicate AllKept(s: string) {
    forall i :: 0 <= i < |s| ==> IsKept(s[i])
  }

  /** A combining mark. */
  type MarkChar = c: char | IsMark(c) witness '\U{300}'

  /** A lower-case ASCII letter. */
  type BaseLetter = c: char | 'a' <= c <= 'z' witness 'a'

  /** One entry of a canonical decomposition table: the character is its own
      decomposition, or it decomposes into a base letter and combining marks. */
  datatype Decomposition = Itself | Into(base: BaseLetter, marks: seq<MarkChar>)

  /** Unicode normal form D of U+00E0 + k, for k in 0-31. */
  function LatinNfd(k: int): Decomposition {
    match k
    case 0 => Into('a', ['\U{300}'])
    case 1 => Into('a', ['\U{301}'])
    case 2 => Into('a', ['\U{302}'])
    case 3 => Into('a', ['\U{303}'])
    case 4 => Into('a', ['\U{308}'])
    case 5 => Into('a', ['\U{30A}'])
    case 6 => Itself
    case 7 => Into('c', ['\U{327}'])
    case 8 => Into('e', ['\U{300}'])
    case 9 => Into('e', ['\U{301}'])
    case 10 => Into('e', ['\U{302}'])
    case 11 => Into('e', ['\U{308}'])
    case 12 => Into('i', ['\U{300}'])
    case 13 => Into('i', ['\U{301}'])
    case 14 => Into('i', ['\U{302}'])
    case 15 => Into('i', ['\U{308}'])
    case 16 => Itself
    case 17 => Into('n', ['\U{303}'])
    case 18 => Into('o', ['\U{300}'])
    case 19 => Into('o', ['\U{301}'])
    case 20 => Into('o', ['\U{302}'])
    case 21 => Into('o', ['\U{303}'])
    case 22 => Into('o', ['\U{308}'])
    case 23 => Itself
    case 24 => Itself
    case 25 => Into('u', ['\U{300}'])
    case 26 => Into('u', ['\U{301}'])
    case 27 => Into('u', ['\U{302}'])
    case 28 => Into('u', ['\U{308}'])
    case 29 => Into('y', ['\U{301}'])
    case 30 => Itself
    case 31 => Into('y', ['\U{308}'])
    case _ => Itself
  }

  /** Unicode normal form D of the lower-case letters of the Vietnamese block:
      entry k is U+1EA1 + 2k, for k in 0-44. */
  function VietNfd(k: int): Decomposition {
    match k
    case 0 => Into('a', ['\U{323}'])
    case 1 => Into('a', ['\U{309}'])
    case 2 => Into('a', ['\U{302}', '\U{301}'])
    case 3 => Into('a', ['\U{302}', '\U{300}'])
    case 4 => Into('a', ['\U{302}', '\U{309}'])
    case 5 => Into('a', ['\U{302}', '\U{303}'])
    case 6 => Into('a', ['\U{323}', '\U{302}'])
    case 7 => Into('a', ['\U{306}', '\U{301}'])
    case 8 => Into('a', ['\U{306}', '\U{300}'])
    case 9 => Into('a', ['\U{306}', '\U{309}'])
    case 10 => Into('a', ['\U{306}', '\U{303}'])
    case 11 => Into('a', ['\U{323}', '\U{306}'])
    case 12 => Into('e', ['\U{323}'])
    case 13 => Into('e', ['\U{309}'])
    case 14 => Into('e', ['\U{303}'])
    case 15 => Into('e', ['\U{302}', '\U{301}'])
    case 16 => Into('e', ['\U{302}', '\U{300}'])
    case 17 => Into('e', ['\U{302}', '\U{309}'])
    case 18 => Into('e', ['\U{302}', '\U{303}'])
    case 19 => Into('e', ['\U{323}', '\U{302}'])
    case 20 => Into('i', ['\U{309}'])
    case 21 => Into('i', ['\U{323}'])
    case 22 => Into('o', ['\U{323}'])
    case 23 => Into('o', ['\U{309}'])
    case 24 => Into('o', ['\U{302}', '\U{301}'])
    case 25 => Into('o', ['\U{302}', '\U{300}'])
    case 26 => Into('o', ['\U{302}', '\U{309}'])
    case 27 => Into('o', ['\U{302}', '\U{303}'])
    case 28 => Into('o', ['\U{323}', '\U{302}'])
    case 29 => Into('o', ['\U{31B}', '\U{301}'])
    case 30 => Into('o', ['\U{31B}', '\U{300}'])
    case 31 => Into('o', ['\U{31B}', '\U{309}'])
    case 32 => Into('o', ['\U{31B}', '\U{303}'])
    case 33 => Into('o', ['\U{31B}', '\U{323}'])
    case 34 => Into('u', ['\U{323}'])
    case 35 => Into('u', ['\U{309}'])
    case 36 => Into('u', ['\U{31B}', '\U{301}'])
    case 37 => Into('u', ['\U{31B}', '\U{300}'])
    case 38 => Into('u', ['\U{31B}', '\U{309}'])
    case 39 => Into('u', ['\U{31B}', '\U{303}'])
    case 40 => Into('u', ['\U{31B}', '\U{323}'])
    case 41 => Into('y', ['\U{300}'])
    case 42 => Into('y', ['\U{323}'])
    case 43 => Into('y', ['\U{309}'])
    case 44 => Into('y', ['\U{303}'])
    case _ => Itself
  }

  function Expand(d: Decomposition, c: char): (r: string)
    ensures 1 <= |r| && forall i :: 1 <= i < |r| ==> IsMark(r[i])
    ensures r[0] == c || 'a' <= r[0] <= 'z'
  {
    match d
    case Itself => [c]
    case Into(b, m) => [b] + m
  }

  /** Canonical decomposition (Unicode normal form D) of one lower-case
      character, for Latin-1, ă, ĩ, ơ, ũ, ư and the Vietnamese block: the base letter
      followed by its combining marks. Every other character is its own
      decomposition. */
  function Decompose(c: char): (r: string)
    ensures 1 <= |r| && forall i :: 1 <= i < |r| ==> IsMark(r[i])
    ensures r[0] == c || 'a' <= r[0] <= 'z'
    ensures IsSlugChar(c) || IsSpace(c) ==> r == [c]
  {
    var n := c as int;
    if 0xE0 <= n <= 0xFF then Expand(LatinNfd(n - 0xE0), c)
    else if n == 0x103 then "a\U{306}"
    else if n == 0x129 then "i\U{303}"
    else if n == 0x169 then "u\U{303}"
    else if n == 0x1A1 then "o\U{31B}"
    else if n == 0x1B0 then "u\U{31B}"
    else if 0x1EA1 <= n <= 0x1EF9 && n % 2 == 1 then Expand(VietNfd((n - 0x1EA1) / 2), c)
    else [c]
  }

  /** `s.normalize("NFD")` over the tabulated characters, without canonical
      reordering of combining marks: never shorter,
      and nothing appears that is not in `s`, a lower-case ASCII letter or a
      combining mark. Each character becomes its decomposition, in place
      (`NfdChar`, `NfdAppend`). */
  function Nfd(s: string): (r: string)
    ensures |s| <= |r|
    ensures forall c :: c in r ==> c in s || 'a' <= c <= 'z' || IsMark(c)
  {
    if s == [] then [] else Decompose(s[0]) + Nfd(s[1..])
  }

  /** `.replace(/[\u0300-\u036f]/g, "")`: no mark survives, and what is
      left comes from `s`; every other character survives, in order
      (`StripMarksCount`, `StripMarksAppend`). */
  function StripMarks(s: string): (r: string)
    ensures |r| <= |s|
    ensures forall i :: 0 <= i < |r| ==> !IsMark(r[i])
    ensures forall c :: c in r ==> c in s
  {
    if s == [] then []
    else if IsMark(s[0]) then StripMarks(s[1..])
    else [s[0]] + StripMarks(s[1..])
  }

  /** `.replace(/x/g, y)` for one character `x`: every `x` becomes `y` and
      nothing else moves. */
  function ReplaceChar(s: string, x: char, y: char): (r: string)
    ensures |r| == |s|
    ensures forall i :: 0 <= i < |s| ==> r[i] == (if s[i] == x then y else s[i])
  {
    if s == [] then [] else [if s[0] == x then y else s[0]] + ReplaceChar(s[1..], x, y)
  }

  /** `.replace(/[^a-z0-9\s-]/g, "")`: what is left is in the class, and
      every character of the class survives as often as it occurred
      (`KeepAllowedCount`), in order (`KeepAllowedAppend`). */
  function KeepAllowed(s: string): (r: string)
    ensures AllKept(r)
    ensures |r| <= |s|
  {
    if s == [] then []
    else if IsKept(s[0]) then [s[0]] + KeepAllowed(s[1..])
    else KeepAllowed(s[1..])
  }

  /** The scan behind `.replace(/\s+/g, "-")`: `inRun` says whether the
      previous character was whitespace, so that a whole run yields one
      hyphen. No whitespace survives, and nothing grows. */
  function Collapse(s: string, inRun: bool): (r: string)
    ensures NoSpace(r)
    ensures |r| <= |s|
  {
    if s == [] then []
    else if IsSpace(s[0]) then (if inRun then [] else "-") + Collapse(s[1..], true)
    else [s[0]] + Collapse(s[1..], false)
  }

  /** `.replace(/\s+/g, "-")`: no whitespace survives, and every character
      that is not whitespace is kept (`CollapseWord`, `CollapseRun`). */
  function CollapseSpaces(s: string): (r: string)
    ensures NoSpace(r)
    ensures |r| <= |s|
    ensures NoSpace(s) ==> r == s
  {
    assert NoSpace(s) ==> Collapse(s, false) == s by {
      if NoSpace(s) { CollapseIdentity(s, false); }
    }
    Collapse(s, false)
  }

  /** The text after `toLowerCase`, `normalize` and the mark removal. */
  function Folded(name: string): string {
    StripMarks(Nfd(ToLowerCase(name)))
  }

  /** The text after the `đ` and `Đ` replacements and the class filter. */
  function Filtered(name: string): string {
    KeepAllowed(ReplaceChar(ReplaceChar(Folded(name), '\U{0111}', 'd'), '\U{0110}', 'D'))
  }

  /** `generateSlug(name)`: only `a-z`, `0-9` and `-` come out. */
  function GenerateSlug(name: string): (r: string)
    ensures IsSlug(r)
  {
    var c := CollapseSpaces(Filtered(name));
    CollapseSlug(Filtered(name), false);
    TrimNoEdges(c);
    Trim(c)
  }

  lemma {:induction false} NfdIdentity(s: string)
    requires AllKept(s)
    ensures Nfd(s) == s
  {
    if s != [] {
      assert IsKept(s[0]);
      NfdIdentity(s[1..]);
    }
  }

  lemma {:induction false} StripMarksIdentity(s: string)
    requires AllKept(s)
    ensures StripMarks(s) == s
  {
    if s != [] {
      assert IsKept(s[0]);
      StripMarksIdentity(s[1..]);
    }
  }

  /** The class filter keeps order: filtering a concatenation concatenates
      the filtered parts. */
  lemma {:induction false} KeepAllowedAppend(a: string, b: string)
    ensures KeepAllowed(a + b) == KeepAllowed(a) + KeepAllowed(b)
  {
    if a == [] {
      assert a + b == b;
    } else {
      assert (a + b)[0] == a[0] && (a + b)[1..] == a[1..] + b;
      KeepAllowedAppend(a[1..], b);
    }
  }

  /** A character of the class survives the filter as often as it occurred;
      any other character is gone. */
  lemma {:induction false} KeepAllowedCount(s: string, c: char)
    ensures multiset(KeepAllowed(s))[c] == if IsKept(c) then multiset(s)[c] else 0
  {
    if s != [] {
      assert s == [s[0]] + s[1..];
      KeepAllowedCount(s[1..], c);
    }
  }

  lemma {:induction false} KeepAllowedIdentity(s: string)
    requires AllKept(s)
    ensures KeepAllowed(s) == s
  {
    if s != [] {
      KeepAllowedIdentity(s[1..]);
    }
  }

  /** Without whitespace there is nothing to substitute. */
  lemma {:induction false} CollapseIdentity(s: string, inRun: bool)
    requires NoSpace(s)
    ensures Collapse(s, inRun) == s
  {
    if s != [] {
      assert !IsSpace(s[0]);
      CollapseIdentity(s[1..], false);
    }
  }

  /** After the class filter, the hyphen substitution yields slug characters
      only: whitespace was the one kept class outside the slug alphabet. */
  lemma {:induction false} CollapseSlug(s: string, inRun: bool)
    requires AllKept(s)
    ensures IsSlug(Collapse(s, inRun))
  {
    if s != [] {
      assert IsKept(s[0]);
      assert AllKept(s[1..]) by {
        forall i | 0 <= i < |s| - 1 ensures IsKept(s[1..][i]) {
          assert s[1..][i] == s[i + 1];
        }
      }
      CollapseSlug(s[1..], IsSpace(s[0]));
      var head: string := if IsSpace(s[0]) then (if inRun then [] else "-") else [s[0]];
      assert IsSlug(head);
      SlugAppend(head, Collapse(s[1..], IsSpace(s[0])));
    }
  }

  lemma SlugAppend(a: string, b: string)
    requires IsSlug(a) && IsSlug(b)
    ensures IsSlug(a + b)
  {
    forall i | 0 <= i < |a + b| ensures IsSlugChar((a + b)[i]) {
      if i < |a| { assert (a + b)[i] == a[i]; } else { assert (a + b)[i] == b[i - |a|]; }
    }
  }

  /** A whole whitespace run, however long, becomes one hyphen. */
  lemma {:induction false} CollapseRun(run: string, rest: string, inRun: bool)
    requires run != [] && AllSpace(run)
    ensures Collapse(run + rest, inRun) == (if inRun then [] else "-") + Collapse(rest, true)
  {
    assert (run + rest)[0] == run[0] && (run + rest)[1..] == run[1..] + rest;
    if |run| > 1 {
      CollapseRun(run[1..], rest, true);
    } else {
      assert run[1..] + rest == rest;
    }
  }

  /** A whitespace-free stretch passes through untouched. */
  lemma {:induction false} CollapseWord(word: string, rest: string, inRun: bool)
    requires word != [] && NoSpace(word)
    ensures Collapse(word + rest, inRun) == word + Collapse(rest, false)
  {
    assert (word + rest)[0] == word[0] && (word + rest)[1..] == word[1..] + rest;
    if |word| > 1 {
      CollapseWord(word[1..], rest, false);
    } else {
      assert word[1..] + rest == rest;
    }
  }

  /** Two words joined by one space come out joined by one hyphen. */
  lemma CollapseTwoWords(a: string, b: string)
    requires a != [] && NoSpace(a) && b != [] && NoSpace(b)
    ensures CollapseSpaces(a + " " + b) == a + "-" + b
  {
    assert a + " " + b == a + (" " + b);
    CollapseWord(a, " " + b, false);
    CollapseRun(" ", b, false);
    CollapseIdentity(b, true);
    assert a + ("-" + b) == a + "-" + b;
  }

  /** The `Đ` replacement never fires: lower-casing has already turned every
      `Đ` into `đ`, and decomposition and mark removal introduce none. */
  lemma UpperDReplacementIsDead(name: string)
    ensures var t := ReplaceChar(Folded(name), '\U{0111}', 'd');
            ReplaceChar(t, '\U{0110}', 'D') == t
  {
    var l := ToLowerCase(name);
    assert '\U{0110}' !in l;
    assert '\U{0110}' !in Nfd(l);
    assert '\U{0110}' !in StripMarks(Nfd(l));
    var t := ReplaceChar(Folded(name), '\U{0111}', 'd');
    assert ReplaceChar(t, '\U{0110}', 'D') == t;
  }

  /** The closing `trim()` never changes anything: by then every whitespace
      run has become a hyphen, and `trim` removes whitespace, not hyphens. */
  lemma FinalTrimIsDead(name: string)
    ensures GenerateSlug(name) == CollapseSpaces(Filtered(name))
  {
    TrimNoEdges(CollapseSpaces(Filtered(name)));
  }

  /** A slug is its own slug. */
  lemma GenerateSlugIdempotent(name: string)
    ensures GenerateSlug(GenerateSlug(name)) == GenerateSlug(name)
  {
    SlugFixed(GenerateSlug(name));
  }

  /** Every stage of the pipeline leaves a string of slug characters alone. */
  lemma SlugFixed(s: string)
    requires IsSlug(s)
    ensures GenerateSlug(s) == s
  {
    FilteredIdentity(s);
    CollapseIdentity(s, false);
    TrimNoEdges(s);
  }

  lemma FilteredIdentity(s: string)
    requires IsSlug(s)
    ensures Filtered(s) == s
  {
    assert ToLowerCase(s) == s;
    KeptFolded(s);
    FilteredOfKept(s);
  }

  /** A lower-case form made of kept characters has nothing to decompose and
      no mark to strip. */
  lemma KeptFolded(name: string)
    requires AllKept(ToLowerCase(name))
    ensures Folded(name) == ToLowerCase(name)
  {
    NfdIdentity(ToLowerCase(name));
    StripMarksIdentity(ToLowerCase(name));
  }

  /** When folding leaves kept characters only, the `đ`/`Đ` replacements and
      the class filter change nothing. */
  lemma FilteredOfKept(name: string)
    requires AllKept(Folded(name))
    ensures Filtered(name) == Folded(name)
  {
    var f := Folded(name);
    ReplaceAbsent(f, '\U{0111}', 'd');
    ReplaceAbsent(f, '\U{0110}', 'D');
    KeepAllowedIdentity(f);
  }

  lemma ReplaceAbsent(s: string, x: char, y: char)
    requires AllKept(s) && !IsKept(x)
    ensures ReplaceChar(s, x, y) == s
  {
    var r := ReplaceChar(s, x, y);
    forall i | 0 <= i < |s| ensures r[i] == s[i] {
      assert IsKept(s[i]);
    }
  }

  lemma {:induction false} NfdAppend(a: string, b: string)
    ensures Nfd(a + b) == Nfd(a) + Nfd(b)
  {
    if a == [] {
      assert a + b == b;
    } else {
      assert (a + b)[0] == a[0] && (a + b)[1..] == a[1..] + b;
      NfdAppend(a[1..], b);
    }
  }

  lemma {:induction false} StripMarksAppend(a: string, b: string)
    ensures StripMarks(a + b) == StripMarks(a) + StripMarks(b)
  {
    if a == [] {
      assert a + b == b;
    } else {
      assert (a + b)[0] == a[0] && (a + b)[1..] == a[1..] + b;
      StripMarksAppend(a[1..], b);
    }
  }

  /** Decomposing a single character yields its table entry. */
  lemma NfdChar(c: char)
    ensures Nfd([c]) == Decompose(c)
  {
    assert [c][1..] == [];
  }

  /** Mark removal drops every combining mark and keeps every other
      character as often as it occurred. */
  lemma {:induction false} StripMarksCount(s: string, c: char)
    ensures multiset(StripMarks(s))[c] == if IsMark(c) then 0 else multiset(s)[c]
  {
    if s != [] {
      assert s == [s[0]] + s[1..];
      StripMarksCount(s[1..], c);
    }
  }

  lemma {:induction false} StripAllMarks(m: string)
    requires forall i :: 0 <= i < |m| ==> IsMark(m[i])
    ensures StripMarks(m) == []
  {
    if m != [] {
      assert IsMark(m[0]);
      StripAllMarks(m[1..]);
    }
  }

  /** Folding one character that is not itself a mark leaves its base
      letter. */
  lemma FoldChar(c: char)
    requires !IsMark(c)
    ensures StripMarks(Nfd([c])) == [Decompose(c)[0]]
  {
    var d := Decompose(c);
    assert Nfd([c]) == d + [];
    assert d + [] == d;
    assert d == [d[0]] + d[1..];
    StripAllMarks(d[1..]);
  }

  /** Kept text around one accented letter folds to the same text around
      the letter's base. */
  lemma FoldedAround(name: string, p: string, c: char, q: string)
    requires ToLowerCase(name) == p + [c] + q
    requires AllKept(p) && AllKept(q) && !IsMark(c)
    ensures Folded(name) == p + [Decompose(c)[0]] + q
  {
    NfdAppend(p + [c], q);
    NfdAppend(p, [c]);
    NfdIdentity(p);
    NfdIdentity(q);
    StripMarksAppend(p + Nfd([c]), q);
    StripMarksAppend(p, Nfd([c]));
    StripMarksIdentity(p);
    StripMarksIdentity(q);
    FoldChar(c);
  }

  lemma TwoWordsKept(a: string, b: string)
    requires IsWord(a) && IsWord(b)
    ensures AllKept(a + " " + b)
  {
    forall i | 0 <= i < |a + " " + b| ensures IsKept((a + " " + b)[i]) {
      if i < |a| { assert (a + " " + b)[i] == a[i]; }
      else if i > |a| { assert (a + " " + b)[i] == b[i - |a| - 1]; }
    }
  }

  /** A non-empty run of kept characters without whitespace. */
  predicate IsWord(w: string) {
    w != [] && NoSpace(w) && AllKept(w)
  }

  /** A name that folds to one word has that word as its slug. */
  lemma WordSlug(name: string, w: string)
    requires Folded(name) == w && IsWord(w)
    ensures GenerateSlug(name) == w
  {
    FilteredOfKept(name);
    CollapseIdentity(w, false);
    FinalTrimIsDead(name);
  }

  /** A name that folds to two words around one space has them joined by a
      hyphen as its slug. */
  lemma WordsSlug(name: string, a: string, b: string)
    requires Folded(name) == a + " " + b && IsWord(a) && IsWord(b)
    ensures GenerateSlug(name) == a + "-" + b
  {
    TwoWordsKept(a, b);
    FilteredOfKept(name);
    CollapseTwoWords(a, b);
    FinalTrimIsDead(name);
  }

  /** The pair recorded for the first row of the table. */
  lemma VietNamSlug()
    ensures GenerateSlug("Vi\U{1EC7}t Nam") == "viet-nam"
  {
    VietNamLower();
    VietNamBase();
    VietNamWords();
    FoldedAround("Vi\U{1EC7}t Nam", "vi", '\U{1EC7}', "t nam");
    WordsSlug("Vi\U{1EC7}t Nam", "viet", "nam");
  }

  /** The `đ` replacement: "Đi" lower-cases to "đi", which NFD leaves
      alone, and the `đ` becomes `d`. */
  lemma DSlug()
    ensures GenerateSlug("\U{110}i") == "di"
  {
    var name := "\U{110}i";
    assert ToLowerCase(name) == "\U{111}i";
    assert Nfd("\U{111}i") == "\U{111}i" by {
      assert Nfd("i") == "i" by { NfdChar('i'); }
    }
    assert Folded(name) == "\U{111}i";
    assert ReplaceChar("\U{111}i", '\U{0111}', 'd') == "di";
    assert AllKept("di");
    ReplaceAbsent("di", '\U{0110}', 'D');
    KeepAllowedIdentity("di");
    assert Filtered(name) == "di";
    CollapseIdentity("di", false);
    FinalTrimIsDead(name);
  }

  lemma VietNamLower()
    ensures ToLowerCase("Vi\U{1EC7}t Nam") == "vi" + ['\U{1EC7}'] + "t nam"
  {
  }

  /** ệ decomposes to e, dot below, circumflex. */
  lemma VietNamBase()
    ensures Decompose('\U{1EC7}') == "e\U{323}\U{302}"
  {
    var n := '\U{1EC7}' as int;
    assert (n - 0x1EA1) / 2 == 19;
  }

  lemma VietNamWords()
    ensures AllKept("vi") && AllKept("t nam")
    ensures "vi" + ['e'] + "t nam" == "viet" + " " + "nam"
    ensures IsWord("viet") && IsWord("nam") && "viet-nam" == "viet" + "-" + "nam"
  {
  }
}
