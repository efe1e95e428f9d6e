/**
 * The Python `str` operations the extractor relies on (`lower`, `title`,
 * `capitalize`, `strip`, `replace`, `in`, `endswith`, `str(n)`, `<`),
 * written character by character over an abstract alphabet.
 */
module PyStr {

  /**
   * The character tables Python consults. `isLetter` is Python's notion of a
   * cased character (one with distinct upper and lower forms), `isSpace` is
   * `str.isspace`, `upper` the title-case mapping of one character and
   * `lower` its lower-case mapping.
   */
  datatype Alphabet = Alphabet(
    isLetter: char -> bool,
    isSpace: char -> bool,
    upper: char -> char,
    lower: char -> char)

  /**
   * What the lemmas assume of an alphabet. `Latin` satisfies every law; Python's
   * full tables do not: `µ` upper-cases to Greek `Μ` (U+039C), which lower-cases
   * to `μ` (U+03BC), so lowering after upper-casing is not lowering there.
   */
  ghost predicate WellFormed(A: Alphabet)
  {
    // characters without case are left alone by both mappings
    (forall c :: !A.isLetter(c) ==> A.upper(c) == c && A.lower(c) == c)
    // white space has no case, and the blank and the underscore are what Python says they are
    && (forall c :: A.isSpace(c) ==> !A.isLetter(c))
    && A.isSpace(' ') && !A.isSpace('_') && !A.isLetter('_')
    // the mappings stay within the letters and settle after one step
    && (forall c :: A.isLetter(c) ==> A.isLetter(A.upper(c)) && A.isLetter(A.lower(c)))
    && (forall c :: A.lower(A.upper(c)) == A.lower(c) && A.upper(A.upper(c)) == A.upper(c))
    && (forall c :: A.lower(A.lower(c)) == A.lower(c) && A.upper(A.lower(c)) == A.upper(c))
  }

  // ---------------------------------------------------------------------
  // A concrete alphabet: ASCII and the cased Latin-1 characters (á, é, ñ, ü,
  // and the lower-case-only ª, º and µ)
  // ---------------------------------------------------------------------

  predicate IsLatinUpper(c: char)
  {
    ('A' <= c <= 'Z') || ('À' <= c <= 'Þ' && c != '×')
  }

  predicate IsLatinLower(c: char)
  {
    ('a' <= c <= 'z') || ('ß' <= c <= 'ÿ' && c != '÷') || c == 'ª' || c == 'µ' || c == 'º'
  }

  predicate IsLatinLetter(c: char)
  {
    IsLatinUpper(c) || IsLatinLower(c)
  }

  /** `str.isspace` on the characters Python counts as white space. */
  predicate IsPySpace(c: char)
  {
    c == ' ' || ('\t' <= c <= '\r') || ('\U{1C}' <= c <= '\U{1F}') || c == '\U{85}' || c == '\U{A0}'
    || c == '\U{1680}' || ('\U{2000}' <= c <= '\U{200A}') || c == '\U{2028}' || c == '\U{2029}'
    || c == '\U{202F}' || c == '\U{205F}' || c == '\U{3000}'
  }

  /**
   * Upper case of a Latin letter; ª and º have none, and ß, ÿ and µ, whose upper
   * forms "SS", Ÿ and Μ lie outside Latin-1, are kept.
   */
  function LatinUpper(c: char): char
  {
    if ('a' <= c <= 'z') || ('à' <= c <= 'þ' && c != '÷') then (c as int - 32) as char else c
  }

  function LatinLower(c: char): char
  {
    if IsLatinUpper(c) then (c as int + 32) as char else c
  }

  const Latin: Alphabet := Alphabet(IsLatinLetter, IsPySpace, LatinUpper, LatinLower)

  /** The laws of `WellFormed`, for one character of the Latin-1 alphabet. */
  lemma LatinLaws(c: char)
    ensures !IsLatinLetter(c) ==> LatinUpper(c) == c && LatinLower(c) == c
    ensures IsPySpace(c) ==> !IsLatinLetter(c)
    ensures IsLatinLetter(c) ==> IsLatinLetter(LatinUpper(c)) && IsLatinLetter(LatinLower(c))
    ensures LatinLower(LatinUpper(c)) == LatinLower(c) && LatinUpper(LatinUpper(c)) == LatinUpper(c)
    ensures LatinLower(LatinLower(c)) == LatinLower(c) && LatinUpper(LatinLower(c)) == LatinUpper(c)
  {
    if IsLatinUpper(c) {
      assert IsLatinLower(LatinLower(c));
    } else if ('a' <= c <= 'z') || ('à' <= c <= 'þ' && c != '÷') {
      assert IsLatinUpper(LatinUpper(c));
    }
  }

  lemma LatinWellFormed()
    ensures WellFormed(Latin)
  {
    forall c: char
      ensures !Latin.isLetter(c) ==> Latin.upper(c) == c && Latin.lower(c) == c
      ensures Latin.isSpace(c) ==> !Latin.isLetter(c)
      ensures Latin.isLetter(c) ==> Latin.isLetter(Latin.upper(c)) && Latin.isLetter(Latin.lower(c))
      ensures Latin.lower(Latin.upper(c)) == Latin.lower(c) && Latin.upper(Latin.upper(c)) == Latin.upper(c)
      ensures Latin.lower(Latin.lower(c)) == Latin.lower(c) && Latin.upper(Latin.lower(c)) == Latin.upper(c)
    {
      LatinLaws(c);
    }
  }

  /** Lower-casing with the Latin-1 alphabet leaves a string without capitals unchanged. */
  lemma LatinLowerKeepsUncased(s: string)
    requires forall k :: 0 <= k < |s| ==> !IsLatinUpper(s[k])
    ensures Lower(Latin, s) == s
  {
    assert forall k :: 0 <= k < |s| ==> Lower(Latin, s)[k] == s[k];
  }

  /** `ª` is a cased letter, so the letter after it is lowered when title-casing. */
  lemma LatinTitleAfterOrdinal(s: string)
    requires s == "ªb"
    ensures Title(Latin, s) == s
  {
    assert Title(Latin, s)[1] == LatinLower('b');
  }

  /** Lower-casing a capital followed by a string without capitals. */
  lemma LatinLowerOfCapitalised(c: char, rest: string)
    requires 'A' <= c <= 'Z'
    requires forall k :: 0 <= k < |rest| ==> !IsLatinUpper(rest[k])
    ensures Lower(Latin, [c] + rest) == [(c as int + 32) as char] + rest
  {
    LatinLowerKeepsUncased(rest);
    var s := [c] + rest;
    assert forall k :: 1 <= k < |s| ==> s[k] == rest[k - 1];
    assert Lower(Latin, s)[0] == Latin.lower(c);
    assert Latin.lower(c) == LatinLower(c);
    assert IsLatinUpper(c);
  }

  // ---------------------------------------------------------------------
  // Case mappings
  // ---------------------------------------------------------------------

  /** `s.lower()`. */
  function Lower(A: Alphabet, s: string): string
  {
    seq(|s|, k requires 0 <= k < |s| => A.lower(s[k]))
  }

  /**
   * `s.title()`: a cased character that follows a cased character is
   * lowered, every other character is upper-cased.
   */
  function Title(A: Alphabet, s: string): string
  {
    seq(|s|, k requires 0 <= k < |s| => if k > 0 && A.isLetter(s[k - 1]) then A.lower(s[k]) else A.upper(s[k]))
  }

  /** `s.capitalize()`: the first character upper-cased, the rest lowered. */
  function Capitalize(A: Alphabet, s: string): string
  {
    if s == [] then [] else [A.upper(s[0])] + Lower(A, s[1..])
  }

  /** Lower-casing keeps the length and every uncased character, and lowering again changes nothing. */
  lemma LowerIdempotent(A: Alphabet, s: string)
    requires WellFormed(A)
    ensures |Lower(A, s)| == |s|
    ensures forall k :: 0 <= k < |s| && !A.isLetter(s[k]) ==> Lower(A, s)[k] == s[k]
    ensures Lower(A, Lower(A, s)) == Lower(A, s)
  {
  }

  /** Capitalising keeps the length and only changes case: lowering it gives the lowered original. */
  lemma LowerOfCapitalize(A: Alphabet, s: string)
    requires WellFormed(A)
    ensures |Capitalize(A, s)| == |s|
    ensures Lower(A, Capitalize(A, s)) == Lower(A, s)
  {
    if s != [] {
      var t := Capitalize(A, s);
      assert t[0] == A.upper(s[0]);
      assert forall k :: 1 <= k < |s| ==> t[k] == A.lower(s[k]);
    }
  }

  /** Capitalising twice gives the same string as capitalising once. */
  lemma CapitalizeIdempotent(A: Alphabet, s: string)
    requires WellFormed(A)
    ensures Capitalize(A, Capitalize(A, s)) == Capitalize(A, s)
  {
    if s != [] {
      var t := Capitalize(A, s);
      assert t[1..] == Lower(A, s[1..]);
    }
  }

  /** Lowering a title-cased string loses nothing that lowering the original keeps. */
  lemma LowerOfTitle(A: Alphabet, s: string)
    requires WellFormed(A)
    ensures Lower(A, Title(A, s)) == Lower(A, s)
  {
    var t := Title(A, s);
    forall k | 0 <= k < |s|
      ensures Lower(A, t)[k] == Lower(A, s)[k]
    {
      assert t[k] == A.lower(s[k]) || t[k] == A.upper(s[k]);
    }
  }

  /** Title-casing twice gives the same string as title-casing once. */
  lemma TitleIdempotent(A: Alphabet, s: string)
    requires WellFormed(A)
    ensures Title(A, Title(A, s)) == Title(A, s)
  {
    var t := Title(A, s);
    forall j | 0 <= j < |s|
      ensures A.isLetter(t[j]) == A.isLetter(s[j])
    {
      assert t[j] == A.lower(s[j]) || t[j] == A.upper(s[j]);
    }
    forall k | 0 <= k < |s|
      ensures Title(A, t)[k] == t[k]
    {
    }
  }

  /** Title-casing leaves white space where it was. */
  lemma TitleKeepsSpaces(A: Alphabet, s: string, k: nat)
    requires WellFormed(A) && k < |s|
    ensures |Title(A, s)| == |s|
    ensures A.isSpace(Title(A, s)[k]) <==> A.isSpace(s[k])
  {
    var c := s[k];
    if A.isLetter(c) {
      assert A.isLetter(A.lower(c)) && A.isLetter(A.upper(c));
    }
  }

  // ---------------------------------------------------------------------
  // strip()
  // ---------------------------------------------------------------------

  /** How many white-space characters `s` starts with. */
  function LeadingSpace(A: Alphabet, s: string): (n: nat)
    ensures n <= |s|
    ensures forall k :: 0 <= k < n ==> A.isSpace(s[k])
    ensures n < |s| ==> !A.isSpace(s[n])
    decreases |s|
  {
    if s != [] && A.isSpace(s[0]) then 1 + LeadingSpace(A, s[1..]) else 0
  }

  /** How long `s` is without the white-space characters it ends with. */
  function TrailingSpaceStart(A: Alphabet, s: string): (n: nat)
    ensures n <= |s|
    ensures forall k :: n <= k < |s| ==> A.isSpace(s[k])
    ensures n > 0 ==> !A.isSpace(s[n - 1])
    decreases |s|
  {
    if s != [] && A.isSpace(s[|s| - 1]) then TrailingSpaceStart(A, s[..|s| - 1]) else |s|
  }

  /** `s.lstrip()`: the suffix of `s` left after its leading white space. */
  function TrimStart(A: Alphabet, s: string): (r: string)
    ensures |r| <= |s| && r == s[|s| - |r|..]
    ensures forall k :: 0 <= k < |s| - |r| ==> A.isSpace(s[k])
    ensures r != [] ==> !A.isSpace(r[0])
  {
    s[LeadingSpace(A, s)..]
  }

  /** `s.rstrip()`: the prefix of `s` left before its trailing white space. */
  function TrimEnd(A: Alphabet, s: string): (r: string)
    ensures |r| <= |s| && r == s[..|r|]
    ensures forall k :: |r| <= k < |s| ==> A.isSpace(s[k])
    ensures r != [] ==> !A.isSpace(r[|r| - 1])
  {
    s[..TrailingSpaceStart(A, s)]
  }

  /** `s.strip()`. */
  function Strip(A: Alphabet, s: string): string
  {
    TrimEnd(A, TrimStart(A, s))
  }

  /** How many leading white-space characters `strip` cuts. */
  function StripStart(A: Alphabet, s: string): nat
  {
    LeadingSpace(A, s)
  }

  /**
   * What `strip` returns: a contiguous slice of the input, with only white
   * space cut on either side and no white space at either end.
   */
  lemma StripSlice(A: Alphabet, s: string)
    ensures var r, i := Strip(A, s), StripStart(A, s);
      i + |r| <= |s| && r == s[i..i + |r|]
      && (forall k :: 0 <= k < i ==> A.isSpace(s[k]))
      && (forall k :: i + |r| <= k < |s| ==> A.isSpace(s[k]))
    ensures var r := Strip(A, s);
      r != [] ==> !A.isSpace(r[0]) && !A.isSpace(r[|r| - 1])
  {
    var t := TrimStart(A, s);
    var r := TrimEnd(A, t);
    var i := |s| - |t|;
    assert t == s[i..];
    assert r == t[..|r|];
    assert r == s[i..i + |r|] by {
      assert s[i..][..|r|] == s[i..i + |r|];
    }
    forall k | i + |r| <= k < |s|
      ensures A.isSpace(s[k])
    {
      assert s[k] == t[k - i];
    }
    if r != [] {
      assert r[0] == t[0];
    }
  }

  lemma {:induction false} TrimStartEmptyIff(A: Alphabet, s: string)
    ensures TrimStart(A, s) == [] <==> forall k :: 0 <= k < |s| ==> A.isSpace(s[k])
    decreases |s|
  {
    if s != [] && A.isSpace(s[0]) {
      TrimStartEmptyIff(A, s[1..]);
      assert forall k :: 1 <= k < |s| ==> s[k] == s[1..][k - 1];
    }
  }

  /** `strip` gives the empty string exactly when the input is all white space. */
  lemma StripEmptyIff(A: Alphabet, s: string)
    ensures Strip(A, s) == [] <==> forall k :: 0 <= k < |s| ==> A.isSpace(s[k])
  {
    TrimStartEmptyIff(A, s);
  }

  // ---------------------------------------------------------------------
  // Substrings: `p in s`, `s.endswith(p)`, `s.replace(pat, rep)`
  // ---------------------------------------------------------------------

  predicate StartsWith(s: string, p: string)
  {
    |p| <= |s| && s[..|p|] == p
  }

  predicate EndsWith(s: string, p: string)
  {
    |p| <= |s| && s[|s| - |p|..] == p
  }

  /** `p` occurs in `s` starting at position `k`. */
  predicate OccursAt(s: string, p: string, k: int)
  {
    0 <= k && k + |p| <= |s| && s[k..k + |p|] == p
  }

  /** `p in s`, as a left-to-right scan. */
  predicate Contains(s: string, p: string)
    decreases |s|
  {
    StartsWith(s, p) || (s != [] && Contains(s[1..], p))
  }

  lemma {:induction false} OccursThenContains(s: string, p: string, k: int)
    requires OccursAt(s, p, k)
    ensures Contains(s, p)
    decreases k
  {
    if k > 0 {
      assert s[1..][k - 1..k - 1 + |p|] == s[k..k + |p|];
      OccursThenContains(s[1..], p, k - 1);
    }
  }

  lemma {:induction false} ContainsThenOccurs(s: string, p: string)
    requires Contains(s, p)
    ensures exists k :: OccursAt(s, p, k)
    decreases |s|
  {
    if StartsWith(s, p) {
      assert OccursAt(s, p, 0);
    } else {
      ContainsThenOccurs(s[1..], p);
      var k :| OccursAt(s[1..], p, k);
      assert s[1..][k..k + |p|] == s[k + 1..k + 1 + |p|];
      assert OccursAt(s, p, k + 1);
    }
  }

  /** The scan finds `p` exactly when `p` occurs at some position of `s`. */
  lemma ContainsIff(s: string, p: string)
    ensures Contains(s, p) <==> exists k :: OccursAt(s, p, k)
  {
    forall k | OccursAt(s, p, k)
      ensures Contains(s, p)
    {
      OccursThenContains(s, p, k);
    }
    if Contains(s, p) {
      ContainsThenOccurs(s, p);
    }
  }

  /**
   * `s.replace(pat, rep)`: scanning left to right, each occurrence of `pat`
   * that does not overlap an earlier replaced one becomes `rep`.
   */
  function Replace(s: string, pat: string, rep: string): string
    requires pat != []
    decreases |s|
  {
    if StartsWith(s, pat) then rep + Replace(s[|pat|..], pat, rep)
    else if s == [] then []
    else [s[0]] + Replace(s[1..], pat, rep)
  }

  /** Replacing one character by another, position by position. */
  function MapChar(s: string, a: char, b: char): string
  {
    seq(|s|, k requires 0 <= k < |s| => if s[k] == a then b else s[k])
  }

  /** With a one-character pattern, `replace` is a position-wise substitution. */
  lemma {:induction false} ReplaceCharIsMapChar(s: string, a: char, b: char)
    ensures Replace(s, [a], [b]) == MapChar(s, a, b)
    decreases |s|
  {
    if s != [] {
      ReplaceCharIsMapChar(s[1..], a, b);
      assert MapChar(s, a, b) == [if s[0] == a then b else s[0]] + MapChar(s[1..], a, b);
    }
  }

  /** A string in which `pat` does not occur comes back unchanged. */
  lemma {:induction false} ReplaceAbsent(s: string, pat: string, rep: string)
    requires pat != [] && !Contains(s, pat)
    ensures Replace(s, pat, rep) == s
    decreases |s|
  {
    if s != [] {
      ReplaceAbsent(s[1..], pat, rep);
    }
  }

  /** Removing a pattern never lengthens a string. */
  lemma {:induction false} RemoveShortens(s: string, pat: string)
    requires pat != []
    ensures |Replace(s, pat, [])| <= |s|
    decreases |s|
  {
    if StartsWith(s, pat) {
      RemoveShortens(s[|pat|..], pat);
    } else if s != [] {
      RemoveShortens(s[1..], pat);
    }
  }

  /** `replace` is a single pass: a removal can leave a fresh occurrence behind. */
  lemma RemovalIsSinglePass()
    ensures Replace("101000", "100", "") == "100"
  {
    assert "101000"[..3][2] != "100"[2];
    assert "101000"[1..] == "01000";
    assert "01000"[..3][0] != "100"[0];
    assert "01000"[1..] == "1000";
    assert StartsWith("1000", "100");
    assert "1000"[3..] == "0";
    assert Replace("0", "100", "") == "0";
  }

  // ---------------------------------------------------------------------
  // str(n) for a natural number
  // ---------------------------------------------------------------------

  predicate IsDigit(c: char)
  {
    '0' as int <= c as int <= '9' as int
  }

  function DigitChar(d: nat): (c: char)
    requires d < 10
    ensures IsDigit(c) && c as int - '0' as int == d
  {
    ('0' as int + d) as char
  }

  /** `str(n)`: the decimal digits of `n`, with no leading zero. */
  function DecimalString(n: nat): (r: string)
    ensures r != [] && forall k :: 0 <= k < |r| ==> IsDigit(r[k])
    ensures r[0] == '0' ==> n == 0
    decreases n
  {
    if n < 10 then [DigitChar(n)] else DecimalString(n / 10) + [DigitChar(n % 10)]
  }

  /** The number a string of decimal digits denotes, read as `int(s)` does. */
  function DecimalValue(s: string): nat
    requires forall k :: 0 <= k < |s| ==> IsDigit(s[k])
  {
    if s == [] then 0
    else
      assert IsDigit(s[|s| - 1]);
      10 * DecimalValue(s[..|s| - 1]) + (s[|s| - 1] as int - '0' as int)
  }

  /** `int(str(n)) == n`. */
  lemma {:induction false} DecimalRoundTrip(n: nat)
    ensures DecimalValue(DecimalString(n)) == n
    decreases n
  {
    if n >= 10 {
      DecimalRoundTrip(n / 10);
      var r := DecimalString(n);
      assert r[..|r| - 1] == DecimalString(n / 10);
    }
  }

  // ---------------------------------------------------------------------
  // Python's ordering of strings
  // ---------------------------------------------------------------------

  /** `a <= b` on Python strings: by code point, a proper prefix first. */
  predicate StrLe(a: string, b: string)
    decreases |a|
  {
    if a == [] then true
    else if b == [] then false
    else if a[0] != b[0] then a[0] < b[0]
    else StrLe(a[1..], b[1..])
  }

  lemma {:induction false} StrLeTotal(a: string, b: string)
    ensures StrLe(a, b) || StrLe(b, a)
    decreases |a|
  {
    if a != [] && b != [] && a[0] == b[0] {
      StrLeTotal(a[1..], b[1..]);
    }
  }

  lemma {:induction false} StrLeReflexive(a: string)
    ensures StrLe(a, a)
    decreases |a|
  {
    if a != [] {
      StrLeReflexive(a[1..]);
    }
  }

  lemma {:induction false} StrLeTransitive(a: string, b: string, c: string)
    requires StrLe(a, b) && StrLe(b, c)
    ensures StrLe(a, c)
    decreases |a|
  {
    if a != [] && b != [] && c != [] && a[0] == b[0] == c[0] {
      StrLeTransitive(a[1..], b[1..], c[1..]);
    }
  }

  lemma {:induction false} StrLeAntisymmetric(a: string, b: string)
    requires StrLe(a, b) && StrLe(b, a)
    ensures a == b
    decreases |a|
  {
    if a != [] && b != [] {
      StrLeAntisymmetric(a[1..], b[1..]);
      assert a == [a[0]] + a[1..];
      assert b == [b[0]] + b[1..];
    }
  }

  // ---------------------------------------------------------------------
  // sorted() on a list of strings
  // ---------------------------------------------------------------------

  predicate SortedStrings(s: seq<string>)
  {
    forall i, j :: 0 <= i < j < |s| ==> StrLe(s[i], s[j])
  }

  function Insert(x: string, s: seq<string>): seq<string>
    decreases |s|
  {
    if s == [] || StrLe(x, s[0]) then [x] + s else [s[0]] + Insert(x, s[1..])
  }

  /** `sorted(names)`, as an insertion sort. */
  function Sorted(names: seq<string>): seq<string>
    decreases |names|
  {
    if names == [] then [] else Insert(names[0], Sorted(names[1..]))
  }

  /** Inserting adds `x` and keeps every other element. */
  lemma {:induction false} InsertMembers(x: string, s: seq<string>)
    ensures forall y :: y in Insert(x, s) <==> y == x || y in s
    decreases |s|
  {
    if !(s == [] || StrLe(x, s[0])) {
      InsertMembers(x, s[1..]);
      assert s == [s[0]] + s[1..];
    }
  }

  lemma {:induction false} InsertMultiset(x: string, s: seq<string>)
    ensures multiset(Insert(x, s)) == multiset(s) + multiset{x}
    decreases |s|
  {
    if !(s == [] || StrLe(x, s[0])) {
      InsertMultiset(x, s[1..]);
      assert s == [s[0]] + s[1..];
    }
  }

  lemma {:induction false} InsertSorted(x: string, s: seq<string>)
    requires SortedStrings(s)
    ensures multiset(Insert(x, s)) == multiset(s) + multiset{x}
    ensures SortedStrings(Insert(x, s))
    decreases |s|
  {
    InsertMultiset(x, s);
    if s == [] || StrLe(x, s[0]) {
      forall j | 0 < j < |s| + 1
        ensures StrLe(x, ([x] + s)[j])
      {
        if j > 1 {
          StrLeTransitive(x, s[0], s[j - 1]);
        }
      }
    } else {
      var tail := s[1..];
      var rest := Insert(x, tail);
      assert SortedStrings(tail);
      InsertSorted(x, tail);
      InsertMembers(x, tail);
      StrLeTotal(x, s[0]);
      forall j | 0 <= j < |rest|
        ensures StrLe(s[0], rest[j])
      {
        assert rest[j] in rest;
        if rest[j] != x {
          var i :| 0 <= i < |tail| && tail[i] == rest[j];
          assert tail[i] == s[i + 1];
        }
      }
      assert Insert(x, s) == [s[0]] + rest;
    }
  }

  /** `sorted` returns the names in ascending order, each as often as it was listed. */
  lemma {:induction false} SortedIsSortedPermutation(names: seq<string>)
    ensures SortedStrings(Sorted(names))
    ensures multiset(Sorted(names)) == multiset(names)
    decreases |names|
  {
    if names != [] {
      SortedIsSortedPermutation(names[1..]);
      InsertSorted(names[0], Sorted(names[1..]));
      assert names == [names[0]] + names[1..];
    }
  }

  /** The first of an ascending arrangement is at most every name in it. */
  lemma SortedHeadIsLeast(a: seq<string>, x: string)
    requires SortedStrings(a) && x in a
    ensures StrLe(a[0], x)
  {
    var j :| 0 <= j < |a| && a[j] == x;
    if j == 0 {
      StrLeReflexive(x);
    }
  }

  /** Two ascending arrangements of the same names start with the same name. */
  lemma SortedHeadsAgree(a: seq<string>, b: seq<string>)
    requires SortedStrings(a) && SortedStrings(b) && multiset(a) == multiset(b) && a != []
    ensures b != [] && a[0] == b[0]
  {
    assert a[0] in multiset(b);
    assert b != [];
    assert b[0] in multiset(a);
    SortedHeadIsLeast(b, a[0]);
    SortedHeadIsLeast(a, b[0]);
    StrLeAntisymmetric(a[0], b[0]);
  }

  lemma MultisetTail(a: seq<string>)
    requires a != []
    ensures multiset(a[1..]) == multiset(a) - multiset{a[0]}
  {
    assert a == [a[0]] + a[1..];
  }

  /** Two ascending arrangements of the same names are the same list: `Sorted` is Python's `sorted`. */
  lemma {:induction false} SortedArrangementUnique(a: seq<string>, b: seq<string>)
    requires SortedStrings(a) && SortedStrings(b) && multiset(a) == multiset(b)
    ensures a == b
    decreases |a|
  {
    if a == [] {
      assert |b| == |multiset(b)| == 0;
    } else {
      SortedHeadsAgree(a, b);
      MultisetTail(a);
      MultisetTail(b);
      SortedArrangementUnique(a[1..], b[1..]);
      assert a == [a[0]] + a[1..] && b == [b[0]] + b[1..];
    }
  }
}
