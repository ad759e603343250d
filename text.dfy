/** Text operations used by the searches: lower-casing, the Turkish letter fold,
    substring and case-insensitive substring tests (SQL `ILIKE '%t%'`, JavaScript
    `includes`), `trim`, the decimal text of an integer id and the order on names. */
module Text {

  // The six lower-case Turkish letters that the search code folds to ASCII.
  const SmallUDiaeresis: char := '\U{00FC}'  // ü
  const SmallODiaeresis: char := '\U{00F6}'  // ö
  const SmallSCedilla: char := '\U{015F}'    // ş
  const SmallCCedilla: char := '\U{00E7}'    // ç
  const SmallGBreve: char := '\U{011F}'      // ğ
  const SmallDotlessI: char := '\U{0131}'    // ı

  // Their upper-case forms (the dotless ı has the ASCII I as its capital).
  const CapitalUDiaeresis: char := '\U{00DC}'  // Ü
  const CapitalODiaeresis: char := '\U{00D6}'  // Ö
  const CapitalSCedilla: char := '\U{015E}'    // Ş
  const CapitalCCedilla: char := '\U{00C7}'    // Ç
  const CapitalGBreve: char := '\U{011E}'      // Ğ

  /** Lower-case mapping of one character: ASCII letters and the five Turkish
      capitals with a distinct lower-case letter; every other character is kept. */
  function LowerChar(c: char): char
  {
    if 'A' <= c <= 'Z' then (c as int + 32) as char
    else if c == CapitalUDiaeresis then SmallUDiaeresis
    else if c == CapitalODiaeresis then SmallODiaeresis
    else if c == CapitalSCedilla then SmallSCedilla
    else if c == CapitalCCedilla then SmallCCedilla
    else if c == CapitalGBreve then SmallGBreve
    else c
  }

  /** Upper-case mapping, the converse of LowerChar on the same letters. */
  function UpperChar(c: char): char
  {
    if 'a' <= c <= 'z' then (c as int - 32) as char
    else if c == SmallUDiaeresis then CapitalUDiaeresis
    else if c == SmallODiaeresis then CapitalODiaeresis
    else if c == SmallSCedilla then CapitalSCedilla
    else if c == SmallCCedilla then CapitalCCedilla
    else if c == SmallGBreve then CapitalGBreve
    else c
  }

  /** `toLowerCase()` in JavaScript, `LOWER` in SQL. */
  function Lower(s: string): string
  {
    seq(|s|, i requires 0 <= i < |s| => LowerChar(s[i]))
  }

  lemma LowerAppend(a: string, b: string)
    ensures Lower(a + b) == Lower(a) + Lower(b)
  {
    assert forall i :: 0 <= i < |a + b| ==> Lower(a + b)[i] == (Lower(a) + Lower(b))[i];
  }

  lemma {:induction false} LowerIdempotent(s: string)
    ensures Lower(Lower(s)) == Lower(s)
  {
    forall i | 0 <= i < |s|
      ensures Lower(Lower(s))[i] == Lower(s)[i]
    {
      var c := s[i];
      assert Lower(s)[i] == LowerChar(c);
    }
  }

  /** `s.replace(/from/g, to)` in JavaScript and `REPLACE(s, from, to)` in SQL,
      for a single character `from`. */
  function Replace(s: string, from: char, to: char): string
  {
    seq(|s|, i requires 0 <= i < |s| => if s[i] == from then to else s[i])
  }

  /** The replacement chain of the search code: ü→u, ö→o, ş→s, ç→c, ğ→g, ı→i,
      applied one after the other in that order. */
  function FoldTurkish(s: string): string
  {
    Replace(Replace(Replace(Replace(Replace(Replace(s,
      SmallUDiaeresis, 'u'), SmallODiaeresis, 'o'), SmallSCedilla, 's'),
      SmallCCedilla, 'c'), SmallGBreve, 'g'), SmallDotlessI, 'i')
  }

  predicate IsFoldedLetter(c: char)
  {
    c == SmallUDiaeresis || c == SmallODiaeresis || c == SmallSCedilla ||
    c == SmallCCedilla || c == SmallGBreve || c == SmallDotlessI
  }

  /** The fold of one character; the six replacements never feed each other. */
  function FoldChar(c: char): char
  {
    if c == SmallUDiaeresis then 'u'
    else if c == SmallODiaeresis then 'o'
    else if c == SmallSCedilla then 's'
    else if c == SmallCCedilla then 'c'
    else if c == SmallGBreve then 'g'
    else if c == SmallDotlessI then 'i'
    else c
  }

  /** The chain of six replacements is one character-wise fold: no letter
      produced by one step is rewritten by a later one. */
  lemma {:induction false} FoldTurkishIsCharwise(s: string)
    ensures |FoldTurkish(s)| == |s|
    ensures forall i :: 0 <= i < |s| ==> FoldTurkish(s)[i] == FoldChar(s[i])
  {
  }

  /** Input side of the search: lower-case first, then replace the six letters. */
  function FoldInput(term: string): string
  {
    FoldTurkish(Lower(term))
  }

  /** Stored side of the search: replace the six letters first, then `LOWER`. */
  function FoldStored(value: string): string
  {
    Lower(FoldTurkish(value))
  }

  /** After the input-side fold no lower-case Turkish letter and no capital
      remains: every character is its own lower case and is not one of the six. */
  lemma {:induction false} FoldInputIsClean(term: string)
    ensures forall i :: 0 <= i < |FoldInput(term)| ==>
      !IsFoldedLetter(FoldInput(term)[i]) && LowerChar(FoldInput(term)[i]) == FoldInput(term)[i]
  {
    FoldTurkishIsCharwise(Lower(term));
  }

  /** Folding the search term twice is folding it once. */
  lemma {:induction false} FoldInputIdempotent(term: string)
    ensures FoldInput(FoldInput(term)) == FoldInput(term)
  {
    var f := FoldInput(term);
    FoldInputIsClean(term);
    assert Lower(f) == f;
    FoldTurkishIsCharwise(f);
  }

  /** The stored-side fold is already lower case, so the `ILIKE` applied to it
      compares it as it is. */
  lemma {:induction false} FoldStoredIsLower(value: string)
    ensures Lower(FoldStored(value)) == FoldStored(value)
  {
    LowerIdempotent(FoldTurkish(value));
  }

  /** The input-side fold is already lower case. */
  lemma {:induction false} FoldInputIsLower(term: string)
    ensures Lower(FoldInput(term)) == FoldInput(term)
  {
    FoldInputIsClean(term);
  }

  predicate IsTurkishCapital(c: char)
  {
    c == CapitalUDiaeresis || c == CapitalODiaeresis || c == CapitalSCedilla ||
    c == CapitalCCedilla || c == CapitalGBreve
  }

  /** The two orders agree on every text without a Turkish capital ... */
  lemma {:induction false} FoldOrdersAgree(s: string)
    requires forall i :: 0 <= i < |s| ==> !IsTurkishCapital(s[i])
    ensures FoldInput(s) == FoldStored(s)
  {
    FoldTurkishIsCharwise(Lower(s));
    FoldTurkishIsCharwise(s);
    forall i | 0 <= i < |s|
      ensures FoldInput(s)[i] == FoldStored(s)[i]
    {
      assert Lower(s)[i] == LowerChar(s[i]);
    }
  }

  /** ... and differ on a capital: "Ü" folds to "u" on the input side but stays
      "ü" on the stored side, because its lower case appears only after the
      replacements have run. */
  lemma FoldOrdersDiffer()
    ensures FoldInput([CapitalUDiaeresis]) == "u"
    ensures FoldStored([CapitalUDiaeresis]) == [SmallUDiaeresis]
  {
    FoldTurkishIsCharwise(Lower([CapitalUDiaeresis]));
    FoldTurkishIsCharwise([CapitalUDiaeresis]);
  }

  /** `pat` occurs in `text` starting at position `i`. */
  predicate OccursAt(text: string, pat: string, i: nat)
  {
    i <= |text| && pat <= text[i..]
  }

  /** Substring test: JavaScript `text.includes(pat)`, SQL `text LIKE '%pat%'`
      for a pattern without wildcards. */
  predicate Contains(text: string, pat: string)
    decreases |text|
  {
    pat <= text || (|text| > 0 && Contains(text[1..], pat))
  }

  /** A pattern longer than the text never occurs in it. */
  lemma {:induction false} ShorterLacks(text: string, pat: string)
    requires |text| < |pat|
    ensures !Contains(text, pat)
    decreases |text|
  {
    if |text| > 0 {
      ShorterLacks(text[1..], pat);
    }
  }

  lemma {:induction false} ContainsIff(text: string, pat: string)
    ensures Contains(text, pat) <==> exists i: nat :: OccursAt(text, pat, i)
    decreases |text|
  {
    if pat <= text {
      assert OccursAt(text, pat, 0);
    } else if |text| == 0 {
      forall i: nat ensures !OccursAt(text, pat, i) {
        if i <= |text| { assert text[i..] == text; }
      }
    } else {
      ContainsIff(text[1..], pat);
      if Contains(text[1..], pat) {
        var i: nat :| OccursAt(text[1..], pat, i);
        assert text[1..][i..] == text[i + 1..];
        assert OccursAt(text, pat, i + 1);
      } else {
        forall i: nat | OccursAt(text, pat, i) ensures false {
          assert i != 0;
          assert text[1..][i - 1..] == text[i..];
          assert OccursAt(text[1..], pat, i - 1);
        }
      }
    }
  }

  lemma {:induction false} ContainsEmpty(text: string)
    ensures Contains(text, "")
  {
  }

  /** A text contains every text it has inside it. */
  lemma {:induction false} ContainsInfix(a: string, b: string, c: string, pat: string)
    requires Contains(b, pat)
    ensures Contains(a + b + c, pat)
  {
    ContainsIff(b, pat);
    var i: nat :| OccursAt(b, pat, i);
    var t := a + b + c;
    assert t[|a| + i..] == b[i..] + c;
    assert OccursAt(t, pat, |a| + i);
    ContainsIff(t, pat);
  }

  /** A text that contains a non-empty pattern contains its first character;
      so a text without that character does not contain the pattern. */
  lemma {:induction false} ContainsHead(text: string, pat: string)
    requires pat != []
    ensures Contains(text, pat) ==> pat[0] in text
    decreases |text|
  {
    if pat <= text {
      assert text[0] == pat[0];
    } else if |text| > 0 {
      ContainsHead(text[1..], pat);
      assert Contains(text[1..], pat) ==> pat[0] in text[1..];
    }
  }

  /** A text that contains a pattern contains each of its characters. */
  lemma ContainsChar(text: string, pat: string, k: nat)
    requires k < |pat|
    ensures Contains(text, pat) ==> pat[k] in text
  {
    ContainsIff(text, pat);
    if Contains(text, pat) {
      var i: nat :| OccursAt(text, pat, i);
      assert text[i..][k] == pat[k];
    }
  }

  /** A text that contains a pattern contains every prefix of it. */
  lemma {:induction false} ContainsPrefix(text: string, a: string, b: string)
    requires Contains(text, a + b)
    ensures Contains(text, a)
  {
    ContainsIff(text, a + b);
    var i: nat :| OccursAt(text, a + b, i);
    assert a <= (a + b);
    assert OccursAt(text, a, i);
    ContainsIff(text, a);
  }

  /** `text ILIKE '%pat%'`, and `text.toLowerCase().includes(pat.toLowerCase())`. */
  predicate ILike(text: string, pat: string)
  {
    Contains(Lower(text), Lower(pat))
  }

  /** The diacritic-insensitive half of the name searches:
      `LOWER(REPLACE(...value...)) ILIKE '%' || fold(term) || '%'`. */
  predicate FoldedMatch(value: string, term: string)
  {
    ILike(FoldStored(value), FoldInput(term))
  }

  /** Since both folds are lower case, the `ILIKE` over them is a plain
      substring test of the stored-side fold against the input-side fold. */
  lemma {:induction false} FoldedMatchIsContains(value: string, term: string)
    ensures FoldedMatch(value, term) <==> Contains(FoldStored(value), FoldInput(term))
  {
    FoldStoredIsLower(value);
    FoldInputIsLower(term);
  }

  /** "ısık" finds "Işık": both fold to "isik". */
  lemma FoldedMatchExample()
    ensures FoldedMatch("I" + [SmallSCedilla, SmallDotlessI, 'k'], [SmallDotlessI, 's', SmallDotlessI, 'k'])
  {
    var stored := "I" + [SmallSCedilla, SmallDotlessI, 'k'];
    var term := [SmallDotlessI, 's', SmallDotlessI, 'k'];
    FoldTurkishIsCharwise(stored);
    FoldTurkishIsCharwise(Lower(term));
    assert FoldStored(stored) == "isik";
    assert FoldInput(term) == "isik";
    FoldedMatchIsContains(stored, term);
  }

  /** The characters JavaScript's `trim` removes: white space and line terminators. */
  predicate IsJsSpace(c: char)
  {
    c == ' ' || c == '\t' || c == '\n' || c == '\r' || c == '\U{000B}' || c == '\U{000C}' ||
    c == '\U{00A0}' || c == '\U{FEFF}' || c == '\U{1680}' ||
    ('\U{2000}' <= c <= '\U{200A}') || c == '\U{2028}' || c == '\U{2029}' ||
    c == '\U{202F}' || c == '\U{205F}' || c == '\U{3000}'
  }

  function TrimStart(s: string): string
  {
    if s != [] && IsJsSpace(s[0]) then TrimStart(s[1..]) else s
  }

  function TrimEnd(s: string): string
  {
    if s != [] && IsJsSpace(s[|s| - 1]) then TrimEnd(s[..|s| - 1]) else s
  }

  /** JavaScript `s.trim()`. */
  function Trim(s: string): string
  {
    TrimEnd(TrimStart(s))
  }

  predicate IsBlank(s: string)
  {
    forall i :: 0 <= i < |s| ==> IsJsSpace(s[i])
  }

  lemma {:induction false} TrimStartBlank(s: string)
    ensures TrimStart(s) == [] <==> IsBlank(s)
    ensures TrimStart(s) != [] ==> !IsJsSpace(TrimStart(s)[0])
    decreases |s|
  {
    if s != [] && IsJsSpace(s[0]) {
      TrimStartBlank(s[1..]);
      if IsBlank(s[1..]) {
        forall i | 0 <= i < |s| ensures IsJsSpace(s[i]) {
          if i > 0 { assert s[i] == s[1..][i - 1]; }
        }
      } else {
        var i :| 0 <= i < |s[1..]| && !IsJsSpace(s[1..][i]);
        assert !IsJsSpace(s[i + 1]);
      }
    } else if s != [] {
      assert !IsJsSpace(s[0]);
    }
  }

  lemma {:induction false} TrimEndKeepsFirst(s: string)
    requires s != [] && !IsJsSpace(s[0])
    ensures TrimEnd(s) != [] && TrimEnd(s)[0] == s[0]
    decreases |s|
  {
    if IsJsSpace(s[|s| - 1]) {
      assert |s| > 1;
      TrimEndKeepsFirst(s[..|s| - 1]);
    }
  }

  /** `!s.trim()` holds exactly when the text is all white space (or empty). */
  lemma {:induction false} TrimEmptyIffBlank(s: string)
    ensures Trim(s) == "" <==> IsBlank(s)
  {
    TrimStartBlank(s);
    if TrimStart(s) != [] {
      TrimEndKeepsFirst(TrimStart(s));
    }
  }

  function DigitChar(d: nat): char
    requires d < 10
  {
    "0123456789"[d]
  }

  /** `CAST(n AS TEXT)`: the decimal digits of `n`, without leading zeros. */
  function NatToText(n: nat): (r: string)
    ensures |r| > 0
    ensures forall i :: 0 <= i < |r| ==> '0' <= r[i] <= '9'
    ensures (|r| > 1) == (n >= 10)
    decreases n
  {
    if n < 10 then [DigitChar(n)] else NatToText(n / 10) + [DigitChar(n % 10)]
  }

  /** Digits have no case, so `CAST(id AS TEXT) ILIKE '%t%'` is a
      case-sensitive substring test on the id's digits. */
  lemma {:induction false} IdTextILike(n: nat, term: string)
    ensures ILike(NatToText(n), term) <==> Contains(NatToText(n), Lower(term))
  {
    var r := NatToText(n);
    assert Lower(r) == r;
  }

  /** Code-point lexicographic order on texts (`ORDER BY name`). */
  predicate StrLe(a: string, b: string)
    decreases |a|
  {
    if a == [] then true
    else if b == [] then false
    else if a[0] != b[0] then a[0] < b[0]
    else StrLe(a[1..], b[1..])
  }

  lemma {:induction false} StrLeTotal(a: string, b: string)
    ensures StrLe(a, b) || StrLe(b, a)
    decreases |a|
  {
    if a != [] && b != [] && a[0] == b[0] {
      StrLeTotal(a[1..], b[1..]);
    }
  }

  lemma {:induction false} StrLeTransitive(a: string, b: string, c: string)
    requires StrLe(a, b) && StrLe(b, c)
    ensures StrLe(a, c)
    decreases |a|
  {
    if a != [] && b != [] && c != [] && a[0] == b[0] && b[0] == c[0] {
      StrLeTransitive(a[1..], b[1..], c[1..]);
    }
  }

  lemma {:induction false} StrLeAntisymmetric(a: string, b: string)
    requires StrLe(a, b) && StrLe(b, a)
    ensures a == b
    decreases |a|
  {
    if a != [] && b != [] {
      StrLeAntisymmetric(a[1..], b[1..]);
      assert a == [a[0]] + a[1..];
      assert b == [b[0]] + b[1..];
    }
  }

  /** JavaScript `s.charAt(0).toUpperCase() + s.slice(1)`. */
  function Capitalize(s: string): string
  {
    if s == [] then s else [UpperChar(s[0])] + s[1..]
  }
}
