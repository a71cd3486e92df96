/** The handful of Python `str` builtins the review service relies on:
    `isspace` (through `split()` and `strip()`), `split()` with no argument,
    `strip()`, `count` of a one-character needle, `lower()` and the `in`
    substring test. Strings are sequences of Unicode scalar values. A
    Python 3 string may also hold lone surrogates (U+D800..U+DFFF), which a
    Dafny `char` cannot; none of them is whitespace, `!` or an ASCII letter,
    so no rule of the service treats them differently from any other
    character outside those sets. */
module PyStr {

  /** The characters CPython treats as whitespace in `str.split()` and
      `str.strip()` with no argument: the ASCII range \t..\r, the four
      information separators 0x1C..0x1F, the space, and the Unicode spaces
      and line/paragraph separators. */
  predicate IsSpace(c: char) {
    || ('\t' <= c <= '\r')
    || ('\U{1C}' <= c <= '\U{1F}')
    || c == ' '
    || c == '\U{85}'
    || c == '\U{A0}'
    || c == '\U{1680}'
    || ('\U{2000}' <= c <= '\U{200A}')
    || c == '\U{2028}'
    || c == '\U{2029}'
    || c == '\U{202F}'
    || c == '\U{205F}'
    || c == '\U{3000}'
  }

  predicate AllSpace(s: string) {
    forall i :: 0 <= i < |s| ==> IsSpace(s[i])
  }

  predicate NoSpace(s: string) {
    forall i :: 0 <= i < |s| ==> !IsSpace(s[i])
  }

  // ---------------------------------------------------------------------
  // strip()
  // ---------------------------------------------------------------------

  /** `s.lstrip()`: the suffix of `s` left after its longest all-space prefix. */
  function LStrip(s: string): (r: string)
    ensures |r| <= |s|
    ensures r == [] || !IsSpace(r[0])
  {
    if s != [] && IsSpace(s[0]) then LStrip(s[1..]) else s
  }

  /** `s.lstrip()` is a suffix of `s`. */
  lemma {:induction false} LStripSuffix(s: string)
    ensures LStrip(s) == s[|s| - |LStrip(s)|..]
    decreases |s|
  {
    if s != [] && IsSpace(s[0]) {
      LStripSuffix(s[1..]);
      assert s[1..][|s| - 1 - |LStrip(s)|..] == s[|s| - |LStrip(s)|..];
    }
  }

  /** What `s.lstrip()` removes is all whitespace. */
  lemma {:induction false} LStripDropsSpace(s: string)
    ensures AllSpace(s[..|s| - |LStrip(s)|])
    decreases |s|
  {
    if s != [] && IsSpace(s[0]) {
      LStripDropsSpace(s[1..]);
      var n := |s| - |LStrip(s)|;
      forall i | 0 <= i < n ensures IsSpace(s[..n][i]) {
        if i > 0 {
          assert s[..n][i] == s[1..][..n - 1][i - 1];
        }
      }
    }
  }

  /** `s.rstrip()`: the prefix of `s` left before its longest all-space suffix. */
  function RStrip(s: string): (r: string)
    ensures |r| <= |s| && r == s[..|r|]
    ensures r == [] || !IsSpace(r[|r| - 1])
  {
    if s != [] && IsSpace(s[|s| - 1]) then RStrip(s[..|s| - 1]) else s
  }

  /** What `s.rstrip()` removes is all whitespace. */
  lemma {:induction false} RStripDropsSpace(s: string)
    ensures AllSpace(s[|RStrip(s)|..])
    decreases |s|
  {
    if s != [] && IsSpace(s[|s| - 1]) {
      var init := s[..|s| - 1];
      RStripDropsSpace(init);
      var n := |RStrip(s)|;
      forall i | n <= i < |s| ensures IsSpace(s[i]) {
        if i < |s| - 1 {
          assert s[i] == init[n..][i - n];
        }
      }
    }
  }

  /** `s.strip()`. */
  function Strip(s: string): string {
    RStrip(LStrip(s))
  }

  /** `s.strip()` is empty exactly when every character of `s` is whitespace. */
  lemma StripEmptyIffAllSpace(s: string)
    ensures Strip(s) == [] <==> AllSpace(s)
  {
    var l := LStrip(s);
    LStripSuffix(s);
    LStripDropsSpace(s);
    RStripDropsSpace(l);
    if Strip(s) == [] {
      assert l[0..] == l;
      assert l == [];
      assert s[..|s|] == s;
    }
  }

  // ---------------------------------------------------------------------
  // split()
  // ---------------------------------------------------------------------

  /** The longest prefix of `s` that holds no whitespace. */
  function LeadingWord(s: string): (w: string)
    ensures |w| <= |s|
    ensures |w| == |s| || IsSpace(s[|w|])
  {
    if s == [] || IsSpace(s[0]) then [] else [s[0]] + LeadingWord(s[1..])
  }

  /** The leading word is a prefix of `s`. */
  lemma {:induction false} LeadingWordPrefix(s: string)
    ensures LeadingWord(s) == s[..|LeadingWord(s)|]
    decreases |s|
  {
    if s != [] && !IsSpace(s[0]) {
      LeadingWordPrefix(s[1..]);
      assert s[..|LeadingWord(s)|] == [s[0]] + s[1..][..|LeadingWord(s)| - 1];
    }
  }

  /** The leading word holds no whitespace. */
  lemma {:induction false} LeadingWordNoSpace(s: string)
    ensures NoSpace(LeadingWord(s))
    decreases |s|
  {
    if s != [] && !IsSpace(s[0]) {
      LeadingWordNoSpace(s[1..]);
      var w := LeadingWord(s);
      forall i | 0 <= i < |w| ensures !IsSpace(w[i]) {
        if i > 0 {
          assert w[i] == LeadingWord(s[1..])[i - 1];
        }
      }
    }
  }

  /** `s.split()` with no separator: skip whitespace, take the following
      run of non-whitespace as one word, and repeat until nothing is left.
      Leading and trailing whitespace yields no empty words. */
  function Split(s: string): seq<string>
    decreases |s|
  {
    var t := LStrip(s);
    if t == [] then []
    else
      var w := LeadingWord(t);
      assert w != [] by { assert !IsSpace(t[0]); }
      [w] + Split(t[|w|..])
  }

  /** The first word of `s.split()` is non-empty and holds no whitespace. */
  lemma SplitFirstWord(s: string)
    requires Split(s) != []
    ensures |Split(s)[0]| > 0 && NoSpace(Split(s)[0])
  {
    var t := LStrip(s);
    assert t != [] && !IsSpace(t[0]);
    LeadingWordNoSpace(t);
  }

  /** What is left of `s` once its first word is taken off. */
  function AfterFirstWord(s: string): string {
    var t := LStrip(s);
    t[|LeadingWord(t)|..]
  }

  /** Past the first, the words of `s.split()` are those of the text after
      the first word. */
  lemma SplitLaterWord(s: string, k: nat)
    requires 0 < k < |Split(s)|
    ensures k - 1 < |Split(AfterFirstWord(s))|
    ensures Split(s)[k] == Split(AfterFirstWord(s))[k - 1]
  {
  }

  /** The word at position `k` of `s.split()` is non-empty and holds no
      whitespace. */
  lemma {:induction false} SplitWordAt(s: string, k: nat)
    requires k < |Split(s)|
    ensures |Split(s)[k]| > 0 && NoSpace(Split(s)[k])
    decreases k
  {
    if k == 0 {
      SplitFirstWord(s);
    } else {
      SplitLaterWord(s, k);
      SplitWordAt(AfterFirstWord(s), k - 1);
    }
  }

  /** Every word of `s.split()` is non-empty and holds no whitespace. */
  lemma SplitWordsAreWords(s: string)
    ensures forall k :: 0 <= k < |Split(s)| ==> Split(s)[k] != [] && NoSpace(Split(s)[k])
  {
    forall k | 0 <= k < |Split(s)| ensures Split(s)[k] != [] && NoSpace(Split(s)[k]) {
      SplitWordAt(s, k);
    }
  }

  /** The number of maximal runs of non-whitespace characters in `s`,
      counted locally: one if `s` starts with a non-space character, plus
      one for every place where a space is directly followed by a
      non-space. */
  function Runs(s: string): nat {
    (if s != [] && !IsSpace(s[0]) then 1 else 0) + RunStarts(s)
  }

  /** The number of adjacent pairs (space, non-space) in `s`. */
  function RunStarts(s: string): nat {
    if |s| < 2 then 0
    else (if IsSpace(s[0]) && !IsSpace(s[1]) then 1 else 0) + RunStarts(s[1..])
  }

  lemma RunsSpaceCons(c: char, s: string)
    requires IsSpace(c)
    ensures Runs([c] + s) == Runs(s)
  {
    if s != [] {
      assert ([c] + s)[1..] == s;
    }
  }

  lemma {:induction false} RunsLStrip(s: string)
    ensures Runs(LStrip(s)) == Runs(s)
    decreases |s|
  {
    if s != [] && IsSpace(s[0]) {
      RunsLStrip(s[1..]);
      RunsSpaceCons(s[0], s[1..]);
      assert [s[0]] + s[1..] == s;
    }
  }

  /** A non-empty word followed by the end of the text or by a space adds
      exactly one run. */
  lemma {:induction false} RunsWord(w: string, u: string)
    requires w != [] && NoSpace(w)
    requires u == [] || IsSpace(u[0])
    ensures Runs(w + u) == 1 + Runs(u)
    decreases |w|
  {
    var s := w + u;
    assert s[1..] == w[1..] + u;
    if |w| > 1 {
      RunsWord(w[1..], u);
    }
  }

  lemma RunsLeadingWord(t: string)
    requires t != [] && !IsSpace(t[0])
    ensures Runs(t) == 1 + Runs(t[|LeadingWord(t)|..])
  {
    var w := LeadingWord(t);
    var u := t[|w|..];
    LeadingWordNoSpace(t);
    LeadingWordPrefix(t);
    assert w != [];
    assert u == [] || IsSpace(u[0]);
    assert t == w + u;
    RunsWord(w, u);
  }

  /** `len(s.split())` is the number of maximal runs of non-whitespace. */
  lemma {:induction false} SplitCountsRuns(s: string)
    ensures |Split(s)| == Runs(s)
    decreases |s|
  {
    var t := LStrip(s);
    RunsLStrip(s);
    if t != [] {
      var u := t[|LeadingWord(t)|..];
      assert |Split(s)| == 1 + |Split(u)|;
      RunsLeadingWord(t);
      SplitCountsRuns(u);
    }
  }

  /** A word followed by the end of the text or by whitespace is the
      leading word. */
  lemma {:induction false} LeadingWordOf(w: string, u: string)
    requires NoSpace(w)
    requires u == [] || IsSpace(u[0])
    ensures LeadingWord(w + u) == w
    decreases |w|
  {
    if w != [] {
      assert (w + u)[1..] == w[1..] + u;
      LeadingWordOf(w[1..], u);
    } else {
      assert w + u == u;
    }
  }

  /** Whitespace in front of a text does not change its words. */
  lemma SplitSpaceThen(c: char, u: string)
    requires IsSpace(c)
    ensures Split([c] + u) == Split(u)
  {
    assert ([c] + u)[1..] == u;
  }

  /** A text that starts with a word, ended by whitespace or by the end of
      the text, splits into that word followed by the words of the rest. */
  lemma SplitWordThen(w: string, u: string)
    requires w != [] && NoSpace(w)
    requires u == [] || IsSpace(u[0])
    ensures Split(w + u) == [w] + Split(u)
  {
    var t := w + u;
    assert t[0] == w[0];
    assert LStrip(t) == t;
    LeadingWordOf(w, u);
    assert t[|w|..] == u;
  }

  lemma SplitOneWord(w: string)
    requires w != [] && NoSpace(w)
    ensures Split(w) == [w]
  {
    SplitWordThen(w, []);
    assert w + [] == w;
  }

  lemma SplitTwoWords(a: string, c: char, b: string)
    requires a != [] && NoSpace(a) && IsSpace(c) && b != [] && NoSpace(b)
    ensures Split(a + [c] + b) == [a, b]
  {
    var cb := [c] + b;
    assert a + [c] + b == a + cb;
    SplitWordThen(a, cb);
    SplitSpaceThen(c, b);
    SplitOneWord(b);
    assert Split(a + cb) == [a] + [b];
  }

  /** The words of `s.split()` laid end to end. */
  function Concat(words: seq<string>): string {
    if words == [] then [] else words[0] + Concat(words[1..])
  }

  /** The non-whitespace characters of `s`, in order. */
  function NonSpace(s: string): string {
    if s == [] then []
    else (if IsSpace(s[0]) then [] else [s[0]]) + NonSpace(s[1..])
  }

  lemma {:induction false} NonSpaceAppend(a: string, b: string)
    ensures NonSpace(a + b) == NonSpace(a) + NonSpace(b)
    decreases |a|
  {
    if a == [] {
      assert a + b == b;
    } else {
      var ab := a + b;
      assert ab[0] == a[0];
      assert ab[1..] == a[1..] + b;
      NonSpaceAppend(a[1..], b);
      assert NonSpace(ab) == (if IsSpace(a[0]) then [] else [a[0]]) + NonSpace(ab[1..]);
    }
  }

  lemma {:induction false} NonSpaceOfAllSpace(s: string)
    requires AllSpace(s)
    ensures NonSpace(s) == []
    decreases |s|
  {
    if s != [] {
      NonSpaceOfAllSpace(s[1..]);
    }
  }

  lemma {:induction false} NonSpaceOfNoSpace(s: string)
    requires NoSpace(s)
    ensures NonSpace(s) == s
    decreases |s|
  {
    if s != [] {
      NonSpaceOfNoSpace(s[1..]);
    }
  }

  /** Stripping leading whitespace keeps every non-whitespace character. */
  lemma NonSpaceLStrip(s: string)
    ensures NonSpace(LStrip(s)) == NonSpace(s)
  {
    var t := LStrip(s);
    var p := s[..|s| - |t|];
    LStripSuffix(s);
    assert s == p + t;
    NonSpaceAppend(p, t);
    LStripDropsSpace(s);
    NonSpaceOfAllSpace(p);
  }

  /** The non-whitespace of a text that starts with a word is that word
      followed by the non-whitespace of the rest. */
  lemma NonSpaceLeadingWord(t: string)
    ensures NonSpace(t) == LeadingWord(t) + NonSpace(t[|LeadingWord(t)|..])
  {
    var w := LeadingWord(t);
    var u := t[|w|..];
    LeadingWordPrefix(t);
    assert t == w + u;
    NonSpaceAppend(w, u);
    LeadingWordNoSpace(t);
    NonSpaceOfNoSpace(w);
  }

  /** `s.split()` loses exactly the whitespace: its words put back together
      are the non-whitespace characters of `s`, in their original order. */
  lemma {:induction false} SplitKeepsNonSpace(s: string)
    ensures Concat(Split(s)) == NonSpace(s)
    decreases |s|
  {
    var t := LStrip(s);
    NonSpaceLStrip(s);
    if t != [] {
      var w := LeadingWord(t);
      var u := t[|w|..];
      NonSpaceLeadingWord(t);
      SplitKeepsNonSpace(u);
      assert Split(s) == [w] + Split(u);
      assert Split(s)[1..] == Split(u);
    }
  }

  /** `s.split()` is empty exactly when `s` is all whitespace, which is
      exactly when `s.strip()` is empty. */
  lemma SplitEmptyIffAllSpace(s: string)
    ensures Split(s) == [] <==> AllSpace(s)
    ensures Split(s) == [] <==> Strip(s) == []
  {
    var t := LStrip(s);
    StripEmptyIffAllSpace(s);
    LStripSuffix(s);
    LStripDropsSpace(s);
    if t == [] {
      assert s[..|s|] == s;
    } else {
      assert t[0] == s[|s| - |t|];
    }
  }

  // ---------------------------------------------------------------------
  // count(), lower(), `in`
  // ---------------------------------------------------------------------

  /** `s.count(c)` for a one-character needle `c`. */
  function Count(s: string, c: char): (n: nat)
    ensures n <= |s|
  {
    if s == [] then 0 else (if s[0] == c then 1 else 0) + Count(s[1..], c)
  }

  /** `s.count(c)` is the multiplicity of `c` in `s`. */
  lemma {:induction false} CountIsMultiplicity(s: string, c: char)
    ensures Count(s, c) == multiset(s)[c]
    decreases |s|
  {
    if s != [] {
      CountIsMultiplicity(s[1..], c);
      assert s == [s[0]] + s[1..];
      assert multiset(s) == multiset{s[0]} + multiset(s[1..]);
    }
  }

  /** `s.count(c)` adds up over concatenation. */
  lemma CountAppend(a: string, b: string, c: char)
    ensures Count(a + b, c) == Count(a, c) + Count(b, c)
  {
    CountIsMultiplicity(a + b, c);
    CountIsMultiplicity(a, c);
    CountIsMultiplicity(b, c);
    assert multiset(a + b) == multiset(a) + multiset(b);
  }

  lemma CountAbsent(s: string, c: char)
    requires c !in s
    ensures Count(s, c) == 0
  {
    CountIsMultiplicity(s, c);
  }

  predicate IsUpper(c: char) {
    'A' <= c <= 'Z'
  }

  /** Lowercasing of one character, restricted to ASCII letters. */
  function LowerChar(c: char): char {
    if IsUpper(c) then (c as int + 32) as char else c
  }

  /** `s.lower()`, restricted to ASCII letters. */
  function Lower(s: string): (r: string)
    ensures |r| == |s|
  {
    seq(|s|, i requires 0 <= i < |s| => LowerChar(s[i]))
  }

  predicate IsLower(s: string) {
    forall i :: 0 <= i < |s| ==> !IsUpper(s[i])
  }

  /** `a` and `b` have the same length and agree letter by letter once
      ASCII case is ignored. */
  predicate EqualIgnoringCase(a: string, b: string) {
    |a| == |b| && forall i :: 0 <= i < |a| ==> LowerChar(a[i]) == LowerChar(b[i])
  }

  /** The lowering leaves no uppercase ASCII letter behind, changes only
      uppercase ASCII letters, and keeps every character's case class. */
  lemma LowerLowers(s: string)
    ensures IsLower(Lower(s))
    ensures forall i :: 0 <= i < |s| && !IsUpper(s[i]) ==> Lower(s)[i] == s[i]
    ensures EqualIgnoringCase(Lower(s), s)
  {
    forall i | 0 <= i < |s| ensures !IsUpper(Lower(s)[i]) && LowerChar(Lower(s)[i]) == LowerChar(s[i]) {
      assert Lower(s)[i] == LowerChar(s[i]);
    }
  }

  /** Lowering an already lowercase text changes nothing, so lowering twice
      is lowering once. */
  lemma LowerIdempotent(s: string)
    ensures IsLower(s) ==> Lower(s) == s
    ensures Lower(Lower(s)) == Lower(s)
  {
    LowerLowers(s);
    if IsLower(s) {
      assert forall i :: 0 <= i < |s| ==> Lower(s)[i] == s[i];
    }
    var l := Lower(s);
    assert forall i :: 0 <= i < |l| ==> Lower(l)[i] == l[i];
  }

  /** The needle occupies positions i .. i + |needle| of the haystack. */
  predicate OccursAt(hay: string, needle: string, i: int) {
    0 <= i <= |hay| - |needle| && hay[i..i + |needle|] == needle
  }

  /** Python's `needle in hay`. */
  function Contains(hay: string, needle: string): bool
    decreases |hay|
  {
    (|needle| <= |hay| && hay[..|needle|] == needle)
    || (hay != [] && Contains(hay[1..], needle))
  }

  /** A needle longer than the haystack is not in it. */
  lemma {:induction false} ContainsTooLong(hay: string, needle: string)
    requires |hay| < |needle|
    ensures !Contains(hay, needle)
    decreases |hay|
  {
    if hay != [] {
      ContainsTooLong(hay[1..], needle);
    }
  }

  /** `needle in hay` holds exactly when the needle occurs at some position. */
  lemma {:induction false} ContainsIffOccurs(hay: string, needle: string)
    ensures Contains(hay, needle) <==> exists i :: OccursAt(hay, needle, i)
    decreases |hay|
  {
    if |needle| <= |hay| && hay[..|needle|] == needle {
      assert OccursAt(hay, needle, 0);
    } else if hay != [] {
      ContainsIffOccurs(hay[1..], needle);
      if Contains(hay[1..], needle) {
        var i :| OccursAt(hay[1..], needle, i);
        assert hay[i + 1..i + 1 + |needle|] == hay[1..][i..i + |needle|];
        assert OccursAt(hay, needle, i + 1);
      }
      if exists i :: OccursAt(hay, needle, i) {
        var i :| OccursAt(hay, needle, i);
        assert i != 0 by { assert hay[..|needle|] == hay[0..0 + |needle|]; }
        assert hay[1..][i - 1..i - 1 + |needle|] == hay[i..i + |needle|];
        assert OccursAt(hay[1..], needle, i - 1);
      }
    } else {
      assert forall i :: !OccursAt(hay, needle, i);
    }
  }

  /** Searching a lowercased text for an all-lowercase needle is a
      case-insensitive search of the original text. */
  lemma LowerOccursIgnoringCase(text: string, needle: string, i: int)
    requires IsLower(needle)
    ensures OccursAt(Lower(text), needle, i)
        <==> 0 <= i <= |text| - |needle| && EqualIgnoringCase(text[i..i + |needle|], needle)
  {
    if 0 <= i <= |text| - |needle| {
      var lt := Lower(text);
      var seg := text[i..i + |needle|];
      if OccursAt(lt, needle, i) {
        forall k | 0 <= k < |needle| ensures LowerChar(seg[k]) == LowerChar(needle[k]) {
          assert lt[i..i + |needle|][k] == lt[i + k];
        }
      }
      if EqualIgnoringCase(seg, needle) {
        forall k | 0 <= k < |needle| ensures lt[i..i + |needle|][k] == needle[k] {
          assert lt[i + k] == LowerChar(seg[k]);
        }
      }
    }
  }
}
