/**
 * The slug generator of anaconda/utils.py: `__kebab_case_word__` turns one word
 * into kebab case and `kebab_case` splits a string at every single space, hyphen
 * or underscore and joins the converted words with hyphens.
 *
 * Character classes are ASCII: a word character (what the regular expression
 * class `\w` keeps) is a letter, a digit or `_`; an uppercase letter is `A`..`Z`.
 */
module Slug {

  // ---------------------------------------------------------------------------
  // Character classes
  // ---------------------------------------------------------------------------

  predicate IsUpper(c: char) { 'A' <= c <= 'Z' }

  predicate IsLower(c: char) { 'a' <= c <= 'z' }

  predicate IsDigit(c: char) { '0' <= c <= '9' }

  /** A character kept by `sub(r'[^\w]+', '', word)`. */
  predicate IsWordChar(c: char) { IsUpper(c) || IsLower(c) || IsDigit(c) || c == '_' }

  /** A character at which `split(r'[ \-_]', string)` cuts. */
  predicate IsSeparator(c: char) { c == ' ' || c == '-' || c == '_' }

  /** A character that may appear in a converted word. */
  predicate IsWordOutputChar(c: char) { IsLower(c) || IsDigit(c) || c == '_' || c == '-' }

  /** A character that may appear in the output of `kebab_case`. */
  predicate IsSlugChar(c: char) { IsLower(c) || IsDigit(c) || c == '-' }

  /** Python's `str.lower` on one ASCII character. */
  function ToLower(c: char): char
  {
    if IsUpper(c) then (c as int + 32) as char else c
  }

  function CountUpper(s: string): nat
  {
    if s == [] then 0 else (if IsUpper(s[0]) then 1 else 0) + CountUpper(s[1..])
  }

  function SeparatorCount(s: string): nat
  {
    if s == [] then 0 else (if IsSeparator(s[0]) then 1 else 0) + SeparatorCount(s[1..])
  }

  // ---------------------------------------------------------------------------
  // __kebab_case_word__
  // ---------------------------------------------------------------------------

  /** `sub(r'[^\w]+', '', word)`: keeps the word characters of `w`, in order. */
  function Normalize(w: string): string
  {
    if w == [] then []
    else (if IsWordChar(w[0]) then [w[0]] else []) + Normalize(w[1..])
  }

  /** The normalized word holds only word characters. */
  lemma {:induction false} NormalizeWordChars(w: string)
    ensures forall i :: 0 <= i < |Normalize(w)| ==> IsWordChar(Normalize(w)[i])
  {
    if w != [] {
      NormalizeWordChars(w[1..]);
    }
  }

  /** The normalized word holds each word character as often as `w` does, and nothing else. */
  lemma {:induction false} NormalizeCounts(w: string)
    ensures forall c :: multiset(Normalize(w))[c] == if IsWordChar(c) then multiset(w)[c] else 0
  {
    if w != [] {
      NormalizeCounts(w[1..]);
      assert w == [w[0]] + w[1..];
    }
  }

  /** A word made only of word characters is left as it is. */
  lemma {:induction false} NormalizeIdentity(w: string)
    requires forall i :: 0 <= i < |w| ==> IsWordChar(w[i])
    ensures Normalize(w) == w
  {
    if w != [] {
      NormalizeIdentity(w[1..]);
      assert w == [w[0]] + w[1..];
    }
  }

  /** A string without word characters normalizes to the empty string. */
  lemma {:induction false} NormalizeDropsAll(p: string)
    requires forall i :: 0 <= i < |p| ==> !IsWordChar(p[i])
    ensures Normalize(p) == []
  {
    if p != [] {
      NormalizeDropsAll(p[1..]);
    }
  }

  /** What the generator in `__kebab_case_word__` yields for one character. */
  function Emit(c: char): string
  {
    if IsUpper(c) then ['-', ToLower(c)] else [c]
  }

  /**
   * `''.join(f'-{char.lower()}' if char.isupper() else char for char in n)`:
   * every uppercase letter becomes a hyphen and its lowercase form.
   */
  function Hyphenate(n: string): string
  {
    if n == [] then [] else Emit(n[0]) + Hyphenate(n[1..])
  }

  /** Each uppercase letter adds one character. */
  lemma {:induction false} HyphenateLength(n: string)
    ensures |Hyphenate(n)| == |n| + CountUpper(n)
  {
    if n != [] {
      HyphenateLength(n[1..]);
    }
  }

  /** `sub(r'^-', '', x)`: removes at most one leading hyphen. */
  function TrimLeadingHyphen(x: string): string
  {
    if |x| > 0 && x[0] == '-' then x[1..] else x
  }

  /** `__kebab_case_word__`. */
  function KebabCaseWord(w: string): string
  {
    TrimLeadingHyphen(Hyphenate(Normalize(w)))
  }

  /** Every hyphen of `r` is directly followed by a lowercase letter. */
  predicate HyphensPrecedeLower(r: string)
  {
    forall i :: 0 <= i < |r| && r[i] == '-' ==> i + 1 < |r| && IsLower(r[i + 1])
  }

  /** Converting a normalized word yields only word output characters, each hyphen before a lowercase letter. */
  lemma {:induction false} HyphenateShape(n: string)
    requires forall i :: 0 <= i < |n| ==> IsWordChar(n[i])
    ensures forall i :: 0 <= i < |Hyphenate(n)| ==> IsWordOutputChar(Hyphenate(n)[i])
    ensures HyphensPrecedeLower(Hyphenate(n))
  {
    if n != [] {
      var e, rest := Emit(n[0]), Hyphenate(n[1..]);
      HyphenateShape(n[1..]);
      assert Hyphenate(n) == e + rest;
      forall i | 0 <= i < |e + rest|
        ensures IsWordOutputChar((e + rest)[i])
        ensures (e + rest)[i] == '-' ==> i + 1 < |e + rest| && IsLower((e + rest)[i + 1])
      {
        if i >= |e| {
          assert (e + rest)[i] == rest[i - |e|];
          if (e + rest)[i] == '-' {
            assert (e + rest)[i + 1] == rest[i - |e| + 1];
          }
        }
      }
    }
  }

  /**
   * The output of `__kebab_case_word__` has no uppercase letter and nothing but
   * word characters and hyphens; it never starts or ends with a hyphen, has no
   * two hyphens in a row, and each hyphen directly precedes a lowercase letter.
   */
  lemma KebabCaseWordShape(w: string)
    ensures forall i :: 0 <= i < |KebabCaseWord(w)| ==> IsWordOutputChar(KebabCaseWord(w)[i])
    ensures forall i :: 0 <= i < |KebabCaseWord(w)| ==> !IsUpper(KebabCaseWord(w)[i])
    ensures HyphensPrecedeLower(KebabCaseWord(w))
    ensures |KebabCaseWord(w)| > 0 ==> KebabCaseWord(w)[0] != '-'
    ensures |KebabCaseWord(w)| > 0 ==> KebabCaseWord(w)[|KebabCaseWord(w)| - 1] != '-'
    ensures forall i :: 0 <= i < |KebabCaseWord(w)| - 1 ==>
              !(KebabCaseWord(w)[i] == '-' && KebabCaseWord(w)[i + 1] == '-')
  {
    var h := Hyphenate(Normalize(w));
    NormalizeWordChars(w);
    HyphenateShape(Normalize(w));
    var r := KebabCaseWord(w);
    if |h| > 0 && h[0] == '-' {
      assert r == h[1..];
      forall i | 0 <= i < |r| && r[i] == '-' ensures i + 1 < |r| && IsLower(r[i + 1]) {
        assert r[i] == h[i + 1];
      }
      assert |r| > 0 ==> r[0] == h[1];
    }
  }

  /**
   * Length of `__kebab_case_word__(w)`: one extra character per uppercase letter of
   * the normalized word, less the leading hyphen when that word starts uppercase.
   */
  lemma KebabCaseWordLength(w: string)
    ensures var n := Normalize(w);
      |KebabCaseWord(w)| == |n| + CountUpper(n) - (if |n| > 0 && IsUpper(n[0]) then 1 else 0)
  {
    var n := Normalize(w);
    HyphenateLength(n);
    if |n| > 0 {
      NormalizeWordChars(w);
      assert n == [n[0]] + n[1..];
      HyphenateCons(n[0], n[1..]);
      assert Hyphenate(n)[0] == Emit(n[0])[0];
    }
  }

  lemma {:induction false} HyphenateIdentity(n: string)
    requires forall i :: 0 <= i < |n| ==> !IsUpper(n[i])
    ensures Hyphenate(n) == n
  {
    if n != [] {
      HyphenateIdentity(n[1..]);
      assert n == [n[0]] + n[1..];
    }
  }

  /** A word made of lowercase letters and digits is its own kebab case. */
  lemma KebabCaseWordFixedPoint(w: string)
    requires forall i :: 0 <= i < |w| ==> IsLower(w[i]) || IsDigit(w[i])
    ensures KebabCaseWord(w) == w
  {
    NormalizeIdentity(w);
    HyphenateIdentity(w);
  }

  // ---------------------------------------------------------------------------
  // kebab_case
  // ---------------------------------------------------------------------------

  /** No character of `s` is a separator. */
  predicate NoSeparator(s: string)
  {
    forall i :: 0 <= i < |s| ==> !IsSeparator(s[i])
  }

  /**
   * `split(r'[ \-_]', s)`: cuts at every single separator, so runs of separators
   * are not merged and `n` separators give `n + 1` segments, none holding a
   * separator.
   */
  function Split(s: string): (segs: seq<string>)
    ensures |segs| == SeparatorCount(s) + 1
  {
    if s == [] then [""]
    else
      var rest := Split(s[1..]);
      if IsSeparator(s[0]) then [""] + rest
      else [[s[0]] + rest[0]] + rest[1..]
  }

  /** `'-'.join(segs)`. */
  function Join(segs: seq<string>): string
  {
    if |segs| == 0 then ""
    else if |segs| == 1 then segs[0]
    else segs[0] + "-" + Join(segs[1..])
  }

  /** `s` with every separator replaced by a hyphen. */
  function Dashed(s: string): (r: string)
    ensures |r| == |s|
    ensures forall i :: 0 <= i < |s| ==> r[i] == if IsSeparator(s[i]) then '-' else s[i]
  {
    if s == [] then [] else [if IsSeparator(s[0]) then '-' else s[0]] + Dashed(s[1..])
  }

  /** `__kebab_case_word__` applied to every segment. */
  function ConvertWords(segs: seq<string>): seq<string>
  {
    seq(|segs|, k requires 0 <= k < |segs| => KebabCaseWord(segs[k]))
  }

  /** `kebab_case`. */
  function KebabCase(s: string): string
  {
    Join(ConvertWords(Split(s)))
  }

  /** Joining the segments gives back the input with its separators turned into hyphens. */
  lemma {:induction false} JoinSplit(s: string)
    ensures Join(Split(s)) == Dashed(s)
  {
    if s != [] {
      var x, t := s[0], s[1..];
      assert s == [x] + t;
      JoinSplit(t);
      var rt := Split(t);
      SplitCons(x, t, rt);
      if IsSeparator(x) {
        JoinCons("", rt);
      } else {
        JoinExtendFirst(x, rt);
      }
    }
  }

  lemma JoinCons(x: string, r: seq<string>)
    requires |r| > 0
    ensures Join([x] + r) == x + "-" + Join(r)
  {
  }

  /** Prepending a character to the first segment prepends it to the join. */
  lemma JoinExtendFirst(x: char, r: seq<string>)
    requires |r| > 0
    ensures Join([[x] + r[0]] + r[1..]) == [x] + Join(r)
  {
    var segs := [[x] + r[0]] + r[1..];
    assert segs[1..] == r[1..];
    if |r| > 1 {
      assert Join(segs) == [x] + r[0] + "-" + Join(r[1..]);
    }
  }

  /** Splitting a join of separator-free segments gives the segments back. */
  lemma {:induction false} SplitJoin(segs: seq<string>)
    requires |segs| > 0
    requires forall k :: 0 <= k < |segs| ==> NoSeparator(segs[k])
    ensures Split(Join(segs)) == segs
  {
    if |segs| == 1 {
      SplitNoSeparator(segs[0]);
    } else {
      SplitJoin(segs[1..]);
      SplitAtSeparator(segs[0], '-', Join(segs[1..]));
      SplitNoSeparator(segs[0]);
      assert segs == [segs[0]] + segs[1..];
    }
  }

  /** A string without separators is one segment. */
  lemma {:induction false} SplitNoSeparator(s: string)
    requires NoSeparator(s)
    ensures Split(s) == [s]
  {
    if s != [] {
      SplitNoSeparator(s[1..]);
      assert s == [s[0]] + s[1..];
    }
  }

  /** Splitting `[x] + t`, given how `t` splits. */
  lemma SplitCons(x: char, t: string, rt: seq<string>)
    requires Split(t) == rt
    ensures |rt| > 0
    ensures Split([x] + t) == if IsSeparator(x) then [""] + rt else [[x] + rt[0]] + rt[1..]
  {
  }

  lemma SplitConsAppend(x: char, rt: seq<string>, rb: seq<string>)
    requires |rt| > 0
    ensures (if IsSeparator(x) then [""] + (rt + rb) else [[x] + (rt + rb)[0]] + (rt + rb)[1..])
         == (if IsSeparator(x) then [""] + rt else [[x] + rt[0]] + rt[1..]) + rb
  {
  }

  /** A separator cuts the split in two. */
  lemma {:induction false} SplitAtSeparator(a: string, c: char, b: string)
    requires IsSeparator(c)
    ensures Split(a + [c] + b) == Split(a) + Split(b)
  {
    if a == [] {
      assert a + [c] + b == [c] + b;
      SplitCons(c, b, Split(b));
    } else {
      var x, t := a[0], a[1..];
      assert a == [x] + t;
      assert a + [c] + b == [x] + (t + [c] + b);
      SplitAtSeparator(t, c, b);
      var rt, rb := Split(t), Split(b);
      SplitCons(x, t + [c] + b, rt + rb);
      SplitCons(x, t, rt);
      SplitConsAppend(x, rt, rb);
    }
  }

  lemma {:induction false} JoinAppend(xs: seq<string>, ys: seq<string>)
    requires |xs| > 0 && |ys| > 0
    ensures Join(xs + ys) == Join(xs) + "-" + Join(ys)
  {
    if |xs| == 1 {
      assert (xs + ys)[1..] == ys;
    } else {
      JoinAppend(xs[1..], ys);
      assert (xs + ys)[1..] == xs[1..] + ys;
    }
  }

  /** `kebab_case("") == ""`. */
  lemma KebabCaseEmpty()
    ensures KebabCase("") == ""
  {
  }

  /** A string without separators is converted as a single word. */
  lemma KebabCaseOfWord(s: string)
    requires NoSeparator(s)
    ensures KebabCase(s) == KebabCaseWord(s)
  {
    SplitNoSeparator(s);
  }

  /**
   * Each separator of the input becomes one hyphen of the output and both sides
   * are converted independently.
   */
  lemma KebabCaseAtSeparator(a: string, c: char, b: string)
    requires IsSeparator(c)
    ensures KebabCase(a + [c] + b) == KebabCase(a) + "-" + KebabCase(b)
  {
    SplitAtSeparator(a, c, b);
    assert ConvertWords(Split(a) + Split(b)) == ConvertWords(Split(a)) + ConvertWords(Split(b));
    JoinAppend(ConvertWords(Split(a)), ConvertWords(Split(b)));
  }

  /** Two separators in a row leave an empty segment and so a `--` in the output. */
  lemma KebabCaseDoubleSeparator(a: string, c: char, d: char, b: string)
    requires IsSeparator(c) && IsSeparator(d)
    ensures KebabCase(a + [c, d] + b) == KebabCase(a) + "--" + KebabCase(b)
  {
    assert a + [c, d] + b == a + [c] + ([d] + b);
    KebabCaseAtSeparator(a, c, [d] + b);
    assert [] + [d] + b == [d] + b;
    KebabCaseAtSeparator([], d, b);
    KebabCaseEmpty();
  }

  lemma {:induction false} JoinShape(segs: seq<string>, ok: char -> bool)
    requires ok('-')
    requires forall k, i :: 0 <= k < |segs| && 0 <= i < |segs[k]| ==> ok(segs[k][i])
    ensures forall i :: 0 <= i < |Join(segs)| ==> ok(Join(segs)[i])
  {
    if |segs| > 1 {
      JoinShape(segs[1..], ok);
      var j := Join(segs[1..]);
      forall i | 0 <= i < |segs[0] + "-" + j| ensures ok((segs[0] + "-" + j)[i]) {
        if i > |segs[0]| {
          assert (segs[0] + "-" + j)[i] == j[i - |segs[0]| - 1];
        }
      }
    }
  }

  /** The output of `kebab_case` holds only lowercase letters, digits and hyphens. */
  lemma KebabCaseAlphabet(s: string)
    ensures forall i :: 0 <= i < |KebabCase(s)| ==> IsSlugChar(KebabCase(s)[i])
  {
    var segs := ConvertWords(Split(s));
    forall k, i | 0 <= k < |segs| && 0 <= i < |segs[k]| ensures IsSlugChar(segs[k][i]) {
      var seg := Split(s)[k];
      KebabCaseWordShape(seg);
      SegmentChars(s, k);
      NormalizeNoUnderscore(seg);
      var n := Normalize(seg);
      assert multiset(n)['_'] == 0;
      assert forall j :: 0 <= j < |n| ==> n[j] != '_' by {
        forall j | 0 <= j < |n| ensures n[j] != '_' {
          assert n[j] in multiset(n);
        }
      }
      HyphenateNoUnderscore(n);
    }
    JoinShape(segs, IsSlugChar);
  }

  lemma NormalizeNoUnderscore(seg: string)
    requires NoSeparator(seg)
    ensures multiset(Normalize(seg))['_'] == 0
  {
  }

  lemma {:induction false} HyphenateNoUnderscore(n: string)
    requires forall j :: 0 <= j < |n| ==> n[j] != '_'
    ensures forall j :: 0 <= j < |Hyphenate(n)| ==> Hyphenate(n)[j] != '_'
    ensures forall j :: 0 <= j < |TrimLeadingHyphen(Hyphenate(n))| ==>
              TrimLeadingHyphen(Hyphenate(n))[j] != '_'
  {
    if n != [] {
      HyphenateNoUnderscore(n[1..]);
      var e, rest := Emit(n[0]), Hyphenate(n[1..]);
      forall j | 0 <= j < |e + rest| ensures (e + rest)[j] != '_' {
        if j >= |e| { assert (e + rest)[j] == rest[j - |e|]; }
      }
    }
  }

  /** A string of lowercase letters, digits and hyphens is its own `kebab_case`. */
  lemma KebabCaseFixedPoint(t: string)
    requires forall i :: 0 <= i < |t| ==> IsSlugChar(t[i])
    ensures KebabCase(t) == t
  {
    var segs := Split(t);
    forall k | 0 <= k < |segs| ensures KebabCaseWord(segs[k]) == segs[k] {
      SegmentChars(t, k);
      KebabCaseWordFixedPoint(segs[k]);
    }
    assert ConvertWords(segs) == segs;
    JoinSplit(t);
    assert Dashed(t) == t;
  }

  /** Every character of a segment of `s` is a non-separator character of `s`. */
  lemma {:induction false} SegmentChars(s: string, k: nat)
    requires k < |Split(s)|
    ensures forall i :: 0 <= i < |Split(s)[k]| ==> Split(s)[k][i] in s && !IsSeparator(Split(s)[k][i])
  {
    if s != [] {
      var rest := Split(s[1..]);
      if IsSeparator(s[0]) {
        if k > 0 { SegmentChars(s[1..], k - 1); }
      } else if k == 0 {
        SegmentChars(s[1..], 0);
        forall i | 0 <= i < |Split(s)[0]| ensures Split(s)[0][i] in s {
          if i > 0 { assert Split(s)[0][i] == rest[0][i - 1]; }
        }
      } else {
        SegmentChars(s[1..], k);
      }
    }
  }

  /** `kebab_case` is idempotent. */
  lemma KebabCaseIdempotent(s: string)
    ensures KebabCase(KebabCase(s)) == KebabCase(s)
  {
    KebabCaseAlphabet(s);
    KebabCaseFixedPoint(KebabCase(s));
  }

  lemma HyphenateCons(x: char, t: string)
    ensures Hyphenate([x] + t) == Emit(x) + Hyphenate(t)
  {
  }

  lemma NormalizeCons(x: char, t: string)
    ensures Normalize([x] + t) == (if IsWordChar(x) then [x] else []) + Normalize(t)
  {
  }

  lemma {:induction false} NormalizeAppend(a: string, b: string)
    ensures Normalize(a + b) == Normalize(a) + Normalize(b)
  {
    if a == [] {
      assert a + b == b;
    } else {
      var x, t := a[0], a[1..];
      assert a == [x] + t;
      assert a + b == [x] + (t + b);
      NormalizeAppend(t, b);
      NormalizeCons(x, t + b);
      NormalizeCons(x, t);
    }
  }

  lemma {:induction false} HyphenateAppend(a: string, b: string)
    ensures Hyphenate(a + b) == Hyphenate(a) + Hyphenate(b)
  {
    if a == [] {
      assert a + b == b;
    } else {
      var x, t := a[0], a[1..];
      assert a == [x] + t;
      assert a + b == [x] + (t + b);
      HyphenateAppend(t, b);
      HyphenateCons(x, t + b);
      HyphenateCons(x, t);
    }
  }

  /** Characters that are not word characters do not affect the converted word. */
  lemma PunctuationDropped(a: string, p: string, b: string)
    requires forall i :: 0 <= i < |p| ==> !IsWordChar(p[i])
    ensures KebabCaseWord(a + p + b) == KebabCaseWord(a + b)
  {
    NormalizeDropsAll(p);
    NormalizeAppend(a + p, b);
    NormalizeAppend(a, p);
    NormalizeAppend(a, b);
    assert Normalize(a + p + b) == Normalize(a + b);
  }

  /**
   * An uppercase letter starts a new hyphen-separated part: when both halves keep
   * a word character and the second starts with an uppercase one, the word is
   * converted half by half and the halves are joined by one hyphen.
   */
  lemma KebabCaseWordAtCapital(a: string, b: string)
    requires |Normalize(a)| > 0
    requires |Normalize(b)| > 0 && IsUpper(Normalize(b)[0])
    ensures KebabCaseWord(a + b) == KebabCaseWord(a) + "-" + KebabCaseWord(b)
  {
    var na, nb := Normalize(a), Normalize(b);
    NormalizeAppend(a, b);
    HyphenateAppend(na, nb);
    HyphenateAtUpper(nb);
    TrimAppend(Hyphenate(na), Hyphenate(nb));
  }

  lemma HyphenateAtUpper(n: string)
    requires |n| > 0 && IsUpper(n[0])
    ensures Hyphenate(n) == "-" + TrimLeadingHyphen(Hyphenate(n))
  {
  }

  lemma TrimAppend(x: string, y: string)
    requires |x| > 0
    ensures TrimLeadingHyphen(x + y) == TrimLeadingHyphen(x) + y
  {
  }

  /** A capitalized word of lowercase letters converts to its lowercase form. */
  lemma CapitalizedWord(u: char, rest: string)
    requires IsUpper(u)
    requires forall i :: 0 <= i < |rest| ==> IsLower(rest[i])
    ensures KebabCaseWord([u] + rest) == [ToLower(u)] + rest
  {
    NormalizeIdentity([u] + rest);
    HyphenateIdentity(rest);
    HyphenateCons(u, rest);
  }

  // The examples below are derived from the lemmas above alone: the
  // definitions are hidden so that the verifier does not evaluate them on the
  // string literals.

  /** `kebab_case("CamelCase") == "camel-case"`. */
  lemma CamelCaseExample()
    ensures KebabCase("CamelCase") == "camel-case"
  {
    hide Normalize, Hyphenate, Split, Join, ConvertWords, KebabCase, KebabCaseWord;
    KebabCaseOfWord("CamelCase");
    assert "CamelCase" == "Camel" + "Case";
    NormalizeIdentity("Camel");
    NormalizeIdentity("Case");
    KebabCaseWordAtCapital("Camel", "Case");
    assert "Camel" == ['C'] + "amel";
    assert "Case" == ['C'] + "ase";
    CapitalizedWord('C', "amel");
    CapitalizedWord('C', "ase");
  }

  /** `kebab_case("snake_case") == "snake-case"`. */
  lemma SnakeCaseExample()
    ensures KebabCase("snake_case") == "snake-case"
  {
    hide Normalize, Hyphenate, Split, Join, ConvertWords, KebabCase, KebabCaseWord;
    assert "snake_case" == "snake" + ['_'] + "case";
    KebabCaseAtSeparator("snake", '_', "case");
    KebabCaseOfWord("snake");
    KebabCaseOfWord("case");
    KebabCaseWordFixedPoint("snake");
    KebabCaseWordFixedPoint("case");
  }

  /** `kebab_case("Greetings, Programs!") == "greetings-programs"`. */
  lemma GreetingsProgramsExample()
    ensures KebabCase("Greetings, Programs!") == "greetings-programs"
  {
    hide Normalize, Hyphenate, Split, Join, ConvertWords, KebabCase, KebabCaseWord;
    assert "Greetings, Programs!" == "Greetings," + [' '] + "Programs!";
    KebabCaseAtSeparator("Greetings,", ' ', "Programs!");
    KebabCaseOfWord("Greetings,");
    KebabCaseOfWord("Programs!");
    assert "Greetings," == "Greetings" + "," + "";
    assert "Programs!" == "Programs" + "!" + "";
    PunctuationDropped("Greetings", ",", "");
    PunctuationDropped("Programs", "!", "");
    assert "Greetings" + "" == ['G'] + "reetings";
    assert "Programs" + "" == ['P'] + "rograms";
    CapitalizedWord('G', "reetings");
    CapitalizedWord('P', "rograms");
  }

  /** The heading text `Greetings, Starfighter!` gives `greetings-starfighter`. */
  lemma GreetingsStarfighterExample()
    ensures KebabCaseWord("Greetings, Starfighter!") == "greetings-starfighter"
  {
    hide Normalize, Hyphenate, Split, Join, ConvertWords, KebabCase, KebabCaseWord;
    assert "Greetings, Starfighter!" == "Greetings" + ", " + "Starfighter!";
    PunctuationDropped("Greetings", ", ", "Starfighter!");
    assert "Starfighter!" == "Starfighter" + "!" + "";
    PunctuationDropped("Starfighter", "!", "");
    assert "Starfighter!" == "Starfighter" + "!";
    NormalizeAppend("Starfighter", "!");
    NormalizeDropsAll("!");
    NormalizeIdentity("Greetings");
    NormalizeIdentity("Starfighter");
    assert Normalize("Starfighter!") == "Starfighter" + [];
    KebabCaseWordAtCapital("Greetings", "Starfighter!");
    assert "Greetings" == ['G'] + "reetings";
    assert "Starfighter" + "" == ['S'] + "tarfighter";
    CapitalizedWord('G', "reetings");
    CapitalizedWord('S', "tarfighter");
  }
}
