/** The comparison primitive of search and keyword matching: `normalizeText`
    lower-cases a string, decomposes it canonically (NFD) and removes the
    combining diacritical marks U+0300..U+036F, so that "José" and "jose"
    compare equal. Case mapping and decomposition are given by a table that
    covers ASCII and the Latin-1 letters. */
module Normalize {

  predicate IsCombiningMark(c: char) {
    0x300 <= c as int <= 0x36F
  }

  /** Upper-case letters of the table: ASCII A..Z and the Latin-1 capitals
      U+00C0..U+00DE except the multiplication sign U+00D7. */
  predicate IsUpper(c: char) {
    ('A' <= c <= 'Z') || (0xC0 <= c as int <= 0xDE && c as int != 0xD7)
  }

  /** `toLowerCase` on one character of the table; other characters are fixed. */
  function Lower(c: char): (r: char)
    ensures !IsUpper(r) && !IsCombiningMark(r) == !IsCombiningMark(c)
  {
    if IsUpper(c) then (c as int + 0x20) as char else c
  }

  /** The combining mark of a precomposed Latin-1 lower-case letter, or
      none (0) when NFD leaves the letter alone. */
  function MarkOf(c: char): (m: int)
    ensures m == 0 || 0x300 <= m <= 0x36F
    ensures m != 0 ==> 0xE0 <= c as int <= 0xFF
  {
    var n := c as int;
    if n == 0xE7 then 0x327                                   // ç: cedilla
    else if n == 0xE5 then 0x30A                              // å: ring above
    else if n == 0xF1 || n == 0xE3 || n == 0xF5 then 0x303    // ñ ã õ: tilde
    else if n == 0xE4 || n == 0xEB || n == 0xEF || n == 0xF6 || n == 0xFC || n == 0xFF then 0x308
    else if n == 0xE0 || n == 0xE8 || n == 0xEC || n == 0xF2 || n == 0xF9 then 0x300
    else if n == 0xE1 || n == 0xE9 || n == 0xED || n == 0xF3 || n == 0xFA || n == 0xFD then 0x301
    else if n == 0xE2 || n == 0xEA || n == 0xEE || n == 0xF4 || n == 0xFB then 0x302
    else 0
  }

  /** The base letter of a precomposed Latin-1 lower-case letter. */
  function BaseOf(c: char): (b: char)
    requires MarkOf(c) != 0
    ensures 'a' <= b <= 'z'
  {
    var n := c as int;
    if 0xE0 <= n <= 0xE5 then 'a'
    else if n == 0xE7 then 'c'
    else if 0xE8 <= n <= 0xEB then 'e'
    else if 0xEC <= n <= 0xEF then 'i'
    else if n == 0xF1 then 'n'
    else if 0xF2 <= n <= 0xF6 then 'o'
    else if 0xF9 <= n <= 0xFC then 'u'
    else 'y'
  }

  /** Canonical decomposition of one character. */
  function Decompose(c: char): (d: string)
    ensures 1 <= |d| <= 2
  {
    if MarkOf(c) != 0 then [BaseOf(c), MarkOf(c) as char] else [c]
  }

  function ToLowerCase(s: string): (r: string)
    ensures |r| == |s|
    ensures forall k :: 0 <= k < |r| ==> r[k] == Lower(s[k])
  {
    if s == [] then [] else [Lower(s[0])] + ToLowerCase(s[1..])
  }

  /** `normalize("NFD")`. */
  function Nfd(s: string): string {
    if s == [] then [] else Decompose(s[0]) + Nfd(s[1..])
  }

  /** `replace(/[̀-ͯ]/g, "")`. */
  function StripMarks(s: string): (r: string)
    ensures forall k :: 0 <= k < |r| ==> !IsCombiningMark(r[k])
  {
    if s == [] then []
    else if IsCombiningMark(s[0]) then StripMarks(s[1..])
    else [s[0]] + StripMarks(s[1..])
  }

  /** `normalizeText(text)`; the empty string maps to the empty string. */
  function NormalizeText(s: string): string {
    StripMarks(Nfd(ToLowerCase(s)))
  }

  /** What one character contributes to the normalized text. */
  function FoldChar(c: char): (r: string)
    ensures |r| <= 1
  {
    if IsCombiningMark(c) then [] else if MarkOf(Lower(c)) != 0 then [BaseOf(Lower(c))] else [Lower(c)]
  }

  /** Normalization works character by character. */
  lemma NormalizeCons(c: char, s: string)
    ensures NormalizeText([c] + s) == FoldChar(c) + NormalizeText(s)
  {
    var t := ToLowerCase(s);
    LowerCons(c, s);
    NfdCons(Lower(c), t);
    StripMarksAppend(Decompose(Lower(c)), Nfd(t));
    StripDecompose(Lower(c));
  }

  lemma LowerCons(c: char, s: string)
    ensures ToLowerCase([c] + s) == [Lower(c)] + ToLowerCase(s)
  {
    assert ([c] + s)[1..] == s;
  }

  lemma NfdCons(c: char, t: string)
    ensures Nfd([c] + t) == Decompose(c) + Nfd(t)
  {
    assert ([c] + t)[1..] == t;
  }

  /** What is left of one decomposed character once the marks are removed. */
  lemma StripDecompose(c: char)
    ensures StripMarks(Decompose(c))
         == if IsCombiningMark(c) then [] else if MarkOf(c) != 0 then [BaseOf(c)] else [c]
  {
    var d := Decompose(c);
    if MarkOf(c) != 0 {
      var m := MarkOf(c) as char;
      assert IsCombiningMark(m) && !IsCombiningMark(BaseOf(c));
      assert d[1..] == [m] && [m][1..] == [];
      assert StripMarks([m]) == [];
      assert StripMarks(d) == [BaseOf(c)] + StripMarks(d[1..]);
    } else {
      assert d[1..] == [];
    }
  }

  lemma {:induction false} StripMarksAppend(a: string, b: string)
    ensures StripMarks(a + b) == StripMarks(a) + StripMarks(b)
  {
    if a != [] {
      assert (a + b)[1..] == a[1..] + b;
      StripMarksAppend(a[1..], b);
    } else {
      assert a + b == b;
    }
  }

  /** The normalized text is lower-case and free of combining marks. */
  lemma {:induction false} NormalizedShape(s: string)
    ensures forall k :: 0 <= k < |NormalizeText(s)| ==>
              !IsUpper(NormalizeText(s)[k]) && !IsCombiningMark(NormalizeText(s)[k])
              && MarkOf(NormalizeText(s)[k]) == 0
  {
    if s != [] {
      NormalizeCons(s[0], s[1..]);
      assert [s[0]] + s[1..] == s;
      NormalizedShape(s[1..]);
    }
  }

  /** A folded character is its own fold. */
  lemma FoldFixed(c: char)
    requires !IsUpper(c) && !IsCombiningMark(c) && MarkOf(c) == 0
    ensures FoldChar(c) == [c]
  {
  }

  /** Normalizing twice is normalizing once. */
  lemma {:induction false} NormalizeIdempotent(s: string)
    ensures NormalizeText(NormalizeText(s)) == NormalizeText(s)
  {
    NormalizedShape(s);
    NormalizeFixed(NormalizeText(s));
  }

  lemma {:induction false} NormalizeFixed(t: string)
    requires forall k :: 0 <= k < |t| ==> !IsUpper(t[k]) && !IsCombiningMark(t[k]) && MarkOf(t[k]) == 0
    ensures NormalizeText(t) == t
  {
    if t != [] {
      NormalizeCons(t[0], t[1..]);
      assert [t[0]] + t[1..] == t;
      NormalizeFixed(t[1..]);
    }
  }

  /** The characters' contributions one after the other: a reference
      definition of normalization, built from `FoldChar` alone. */
  function Fold(s: string): string {
    if s == [] then [] else FoldChar(s[0]) + Fold(s[1..])
  }

  /** Normalization is the character-by-character fold. */
  lemma {:induction false} NormalizeIsFold(s: string)
    ensures NormalizeText(s) == Fold(s)
  {
    if s != [] {
      NormalizeCons(s[0], s[1..]);
      assert [s[0]] + s[1..] == s;
      NormalizeIsFold(s[1..]);
    }
  }

  lemma {:induction false} FoldAppend(a: string, b: string)
    ensures Fold(a + b) == Fold(a) + Fold(b)
  {
    if a != [] {
      assert (a + b)[0] == a[0] && (a + b)[1..] == a[1..] + b;
      FoldAppend(a[1..], b);
    } else {
      assert a + b == b;
    }
  }

  /** Normalization distributes over concatenation. */
  lemma NormalizeAppend(a: string, b: string)
    ensures NormalizeText(a + b) == NormalizeText(a) + NormalizeText(b)
  {
    NormalizeIsFold(a + b);
    NormalizeIsFold(a);
    NormalizeIsFold(b);
    FoldAppend(a, b);
  }

  /** "José" and "JOSÉ" both normalize to "jose": search ignores case and accents. */
  lemma JoseExample(s: string, t: string)
    requires s == "Jos\U{E9}" && t == "JOS\U{C9}"
    ensures NormalizeText(s) == "jose" && NormalizeText(t) == "jose"
  {
    JoseFolds();
    NormalizeIsFold(s);
    FoldSteps(s, "jose");
    NormalizeIsFold(t);
    FoldSteps(t, "jose");
  }

  lemma JoseFolds()
    ensures FoldChar('J') == "j" && FoldChar('o') == "o" && FoldChar('s') == "s" && FoldChar('\U{E9}') == "e"
    ensures FoldChar('O') == "o" && FoldChar('S') == "s" && FoldChar('\U{C9}') == "e"
  {
  }

  /** A four-character string folds character by character. */
  lemma FoldSteps(s: string, r: string)
    requires |s| == 4 && |r| == 4
    requires forall k | 0 <= k < 4 :: FoldChar(s[k]) == [r[k]]
    ensures Fold(s) == r
  {
    var s1, s2, s3 := s[1..], s[2..], s[3..];
    assert s1[1..] == s2 && s2[1..] == s3 && s3[1..] == [];
    assert FoldChar(s[0]) == [r[0]] && FoldChar(s1[0]) == [r[1]];
    assert FoldChar(s2[0]) == [r[2]] && FoldChar(s3[0]) == [r[3]];
    assert Fold(s3) == [r[3]];
    assert Fold(s2) == [r[2], r[3]];
    assert Fold(s1) == [r[1], r[2], r[3]];
    assert r == [r[0], r[1], r[2], r[3]];
  }
}
