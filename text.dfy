/** String helpers shared by the browser script and the renaming script:
    ASCII lower-casing, the text after the last dot, and decimal numerals. */
module Text {

  /** An ASCII capital letter. */
  predicate IsUpper(c: char) {
    'A' <= c <= 'Z'
  }

  predicate IsDigit(c: char) {
    '0' <= c <= '9'
  }

  /** Lower-cases one ASCII capital; every other character is kept. */
  function LowerChar(c: char): char {
    if IsUpper(c) then (c as int + 32) as char else c
  }

  /** Lower-cases every character of `s` (ASCII only). The ensures only spell out
      the comprehension, so that the many proofs mentioning new names need not
      unfold it; the properties of lower-casing are the lemmas below. */
  function ToLower(s: string): (r: string)
    ensures |r| == |s|
    ensures forall i :: 0 <= i < |s| ==> r[i] == LowerChar(s[i])
  {
    seq(|s|, i requires 0 <= i < |s| => LowerChar(s[i]))
  }

  /** Lower-casing never produces a capital and leaves a lower-cased string unchanged. */
  lemma ToLowerIdempotent(s: string)
    ensures forall i :: 0 <= i < |s| ==> !IsUpper(ToLower(s)[i])
    ensures ToLower(ToLower(s)) == ToLower(s)
  {
  }

  /** A string without capitals is its own lower-case form. */
  lemma ToLowerNoCapitals(s: string)
    requires forall i :: 0 <= i < |s| ==> !IsUpper(s[i])
    ensures ToLower(s) == s
  {
  }

  /** A dot is the only character that lower-cases to a dot. */
  lemma LowerCharDot(c: char)
    ensures LowerChar(c) == '.' <==> c == '.'
  {
  }

  /** The longest suffix of `s` that holds no dot: the text after the last dot,
      or all of `s` when it has no dot (JavaScript's `s.split('.').pop()`). */
  function AfterLastDot(s: string): string
    decreases |s|
  {
    if s == [] then []
    else if s[|s| - 1] == '.' then []
    else AfterLastDot(s[..|s| - 1]) + [s[|s| - 1]]
  }

  /** What AfterLastDot gives: a dot-free suffix of `s` that is either all of `s`
      or is preceded by a dot. */
  predicate IsAfterLastDot(s: string, r: string) {
    && '.' !in r
    && |r| <= |s|
    && r == s[|s| - |r|..]
    && (|r| < |s| ==> s[|s| - |r| - 1] == '.')
  }

  /** Extending a name by a non-dot extends its text after the last dot by it. */
  lemma AfterLastDotExtend(p: string, rp: string, c: char)
    requires IsAfterLastDot(p, rp) && c != '.'
    ensures IsAfterLastDot(p + [c], rp + [c])
  {
    var s, r := p + [c], rp + [c];
    assert s[|s| - |r|..] == p[|p| - |rp|..] + [c];
    if |r| < |s| {
      assert s[|s| - |r| - 1] == p[|p| - |rp| - 1];
    }
  }

  lemma {:induction false} AfterLastDotSpec(s: string)
    ensures IsAfterLastDot(s, AfterLastDot(s))
    decreases |s|
  {
    if s != [] && s[|s| - 1] != '.' {
      var p, c := s[..|s| - 1], s[|s| - 1];
      AfterLastDotSpec(p);
      AfterLastDotExtend(p, AfterLastDot(p), c);
      assert s == p + [c];
    }
  }

  /** The contract of AfterLastDot determines its result. */
  lemma DotFreeSuffixUnique(s: string, r1: string, r2: string)
    requires IsAfterLastDot(s, r1) && IsAfterLastDot(s, r2)
    ensures r1 == r2
  {
  }

  /** A dot-free string is its own text after the last dot. */
  lemma AfterLastDotDotless(s: string)
    requires '.' !in s
    ensures AfterLastDot(s) == s
  {
    AfterLastDotSpec(s);
    assert IsAfterLastDot(s, s);
    DotFreeSuffixUnique(s, AfterLastDot(s), s);
  }

  /** After `stem.ext`, for a dot-free `ext`, comes `ext`, whatever dots the stem holds. */
  lemma AfterLastDotAppend(stem: string, ext: string)
    requires '.' !in ext
    ensures AfterLastDot(stem + "." + ext) == ext
  {
    var s := stem + "." + ext;
    AfterLastDotSpec(s);
    assert ext == s[|s| - |ext|..];
    assert s[|s| - |ext| - 1] == '.';
    assert IsAfterLastDot(s, ext);
    DotFreeSuffixUnique(s, AfterLastDot(s), ext);
  }

  /** Lower-casing keeps a string free of dots. */
  lemma ToLowerDotless(s: string)
    requires '.' !in s
    ensures '.' !in ToLower(s)
  {
    forall i | 0 <= i < |s|
      ensures ToLower(s)[i] != '.'
    {
      LowerCharDot(s[i]);
    }
  }

  /** Lower-casing commutes with dropping a prefix. */
  lemma ToLowerDrop(s: string, n: nat)
    requires n <= |s|
    ensures ToLower(s)[n..] == ToLower(s[n..])
  {
  }

  /** Lower-casing both a name and its text after the last dot keeps the relation. */
  lemma IsAfterLastDotLower(s: string, r: string)
    requires IsAfterLastDot(s, r)
    ensures IsAfterLastDot(ToLower(s), ToLower(r))
  {
    ToLowerDotless(r);
    ToLowerDrop(s, |s| - |r|);
    if |r| < |s| {
      LowerCharDot(s[|s| - |r| - 1]);
    }
  }

  /** Lower-casing a name and then taking the text after its last dot is the same
      as lower-casing the text after its last dot. */
  lemma AfterLastDotLower(s: string)
    ensures AfterLastDot(ToLower(s)) == ToLower(AfterLastDot(s))
  {
    var l := ToLower(s);
    AfterLastDotSpec(s);
    AfterLastDotSpec(l);
    IsAfterLastDotLower(s, AfterLastDot(s));
    DotFreeSuffixUnique(l, AfterLastDot(l), ToLower(AfterLastDot(s)));
  }

  /** Python's `str(n)` for a natural number: its decimal numeral. */
  function DecimalString(n: nat): (r: string)
    ensures |r| >= 1
    ensures forall k :: 0 <= k < |r| ==> IsDigit(r[k])
    decreases n
  {
    if n < 10 then [('0' as int + n) as char]
    else DecimalString(n / 10) + [('0' as int + n % 10) as char]
  }

  function DigitValue(c: char): nat
    requires IsDigit(c)
  {
    c as int - '0' as int
  }

  /** The number a string of decimal digits denotes. */
  function DecimalValue(s: string): nat
    requires forall k :: 0 <= k < |s| ==> IsDigit(s[k])
    decreases |s|
  {
    if s == [] then 0
    else DecimalValue(s[..|s| - 1]) * 10 + DigitValue(s[|s| - 1])
  }

  /** Reading back the numeral of `n` gives `n`: the numeral names its number. */
  lemma {:induction false} DecimalRoundTrip(n: nat)
    ensures DecimalValue(DecimalString(n)) == n
    decreases n
  {
    var r := DecimalString(n);
    if n >= 10 {
      DecimalRoundTrip(n / 10);
      assert r[..|r| - 1] == DecimalString(n / 10);
    }
  }

  /** Different numbers have different numerals. */
  lemma DecimalStringInjective(m: nat, n: nat)
    requires DecimalString(m) == DecimalString(n)
    ensures m == n
  {
    DecimalRoundTrip(m);
    DecimalRoundTrip(n);
  }
}
