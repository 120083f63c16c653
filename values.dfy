/**
 * Python-level behaviour the three serverless handlers rely on: the values a
 * decoded JSON body can hold, truthiness, `str.strip()`, `str.replace(old, '')`
 * and the text/integer conversions the database applies to parameters.
 */
module Values {

  datatype Option<+T> = None | Some(value: T)

  /** A value of a decoded JSON request body: `null`, a string or an integer. */
  datatype Value = Null | Str(s: string) | Int(i: int)

  /** Python truthiness: `None`, `''` and `0` are false, everything else true. */
  predicate Truthy(v: Value) {
    match v
    case Null => false
    case Str(s) => s != ""
    case Int(i) => i != 0
  }

  /** `d.get(key)`: a missing key reads as `None`. */
  function Get(d: map<string, Value>, key: string): Value {
    if key in d then d[key] else Null
  }

  /**
   * `d.get(key, '')` followed by `.strip()`: a missing key gives `''`; a string is
   * stripped; any other value has no `strip` method, so the handler raises (None).
   */
  function StrippedField(d: map<string, Value>, key: string): (r: Option<string>)
    ensures r.None? <==> key in d && !d[key].Str?
    ensures key !in d ==> r == Some("")
    ensures key in d && d[key].Str? ==> r == Some(Strip(d[key].s))
  {
    if key !in d then Some("")
    else match d[key]
      case Str(s) => Some(Strip(s))
      case _ => None
  }

  // ---------------------------------------------------------------------------
  // str.strip()

  /** The characters for which Python's `str.isspace()` holds. */
  const PyWhitespace: set<char> := {
    '\U{0009}', '\U{000A}', '\U{000B}', '\U{000C}', '\U{000D}', '\U{001C}', '\U{001D}', '\U{001E}',
    '\U{001F}', '\U{0020}', '\U{0085}', '\U{00A0}', '\U{1680}', '\U{2000}', '\U{2001}', '\U{2002}',
    '\U{2003}', '\U{2004}', '\U{2005}', '\U{2006}', '\U{2007}', '\U{2008}', '\U{2009}', '\U{200A}',
    '\U{2028}', '\U{2029}', '\U{202F}', '\U{205F}', '\U{3000}'
  }

  predicate IsSpace(c: char) {
    c in PyWhitespace
  }

  predicate AllSpace(s: string) {
    forall k :: 0 <= k < |s| ==> IsSpace(s[k])
  }

  /** Drops leading whitespace: the result is the longest suffix not starting with a space. */
  function TrimStart(s: string): (r: string)
    ensures |r| <= |s| && r == s[|s| - |r|..]
    ensures r == [] || !IsSpace(r[0])
    ensures forall k :: 0 <= k < |s| - |r| ==> IsSpace(s[k])
  {
    if s == [] || !IsSpace(s[0]) then s else TrimStart(s[1..])
  }

  /** Drops trailing whitespace: the result is the longest prefix not ending with a space. */
  function TrimEnd(s: string): (r: string)
    ensures |r| <= |s| && r == s[..|r|]
    ensures r == [] || !IsSpace(r[|r| - 1])
    ensures forall k :: |r| <= k < |s| ==> IsSpace(s[k])
  {
    if s == [] || !IsSpace(s[|s| - 1]) then s else TrimEnd(s[..|s| - 1])
  }

  /** Python's `s.strip()`. */
  function Strip(s: string): (r: string)
    ensures |r| <= |s|
    ensures r != [] ==> !IsSpace(r[0]) && !IsSpace(r[|r| - 1])
  {
    TrimEnd(TrimStart(s))
  }

  /** `s.strip()` is empty exactly when `s` is nothing but whitespace. */
  lemma StripEmptyIff(s: string)
    ensures Strip(s) == "" <==> AllSpace(s)
  {
    var t := TrimStart(s);
    if Strip(s) == "" {
      forall k | 0 <= k < |s| ensures IsSpace(s[k]) {
        if k >= |s| - |t| {
          assert s[k] == t[k - (|s| - |t|)];
        }
      }
    } else {
      var r := Strip(s);
      assert r[0] == t[0] == s[|s| - |t|];
    }
  }

  /** The stripped text is a contiguous piece of the input, with only whitespace around it. */
  lemma StripIsInnerSlice(s: string)
    ensures exists i :: OccursAt(s, Strip(s), i) && AllSpace(s[..i]) && AllSpace(s[i + |Strip(s)|..])
  {
    var t := TrimStart(s);
    var i := |s| - |t|;
    var r := Strip(s);
    assert r == t[..|r|] == s[i..i + |r|];
    assert OccursAt(s, r, i);
    assert AllSpace(s[..i]);
    var tail := s[i + |r|..];
    forall k | 0 <= k < |tail| ensures IsSpace(tail[k]) {
      assert tail[k] == t[|r| + k];
    }
  }

  /** Stripping twice is stripping once. */
  lemma StripIdempotent(s: string)
    ensures Strip(Strip(s)) == Strip(s)
  {
    var r := Strip(s);
    assert TrimStart(r) == r;
    assert TrimEnd(r) == r;
  }

  // ---------------------------------------------------------------------------
  // Substring search

  predicate StartsWith(s: string, prefix: string) {
    |prefix| <= |s| && s[..|prefix|] == prefix
  }

  /** `hay.includes(needle)` / `needle in hay`: a left-to-right scan. */
  predicate Includes(hay: string, needle: string)
    ensures needle == [] ==> Includes(hay, needle)
    ensures Includes(hay, needle) ==> |needle| <= |hay|
    decreases |hay|
  {
    StartsWith(hay, needle) || (hay != [] && Includes(hay[1..], needle))
  }

  /** The reference definition: `needle` occurs at some position of `hay`. */
  ghost predicate OccursAt(hay: string, needle: string, i: int) {
    0 <= i && i + |needle| <= |hay| && hay[i..i + |needle|] == needle
  }

  lemma {:induction false} IncludesIff(hay: string, needle: string)
    ensures Includes(hay, needle) <==> exists i :: OccursAt(hay, needle, i)
    decreases |hay|
  {
    if StartsWith(hay, needle) {
      assert OccursAt(hay, needle, 0);
    } else if hay == [] {
    } else {
      IncludesIff(hay[1..], needle);
      if i :| OccursAt(hay, needle, i) {
        assert i != 0;
        assert hay[1..][i - 1..i - 1 + |needle|] == hay[i..i + |needle|];
        assert OccursAt(hay[1..], needle, i - 1);
      }
      if j :| OccursAt(hay[1..], needle, j) {
        assert hay[j + 1..j + 1 + |needle|] == hay[1..][j..j + |needle|];
        assert OccursAt(hay, needle, j + 1);
      }
    }
  }

  /** A needle holding a character the haystack lacks never occurs in it. */
  lemma {:induction false} NotIncludedWithoutChar(hay: string, needle: string, k: nat)
    requires k < |needle| && needle[k] !in hay
    ensures !Includes(hay, needle)
    decreases |hay|
  {
    if hay != [] {
      NotIncludedWithoutChar(hay[1..], needle, k);
    }
  }

  // ---------------------------------------------------------------------------
  // str.replace(old, '')

  /**
   * Python's `s.replace(pat, '')` for a non-empty `pat`: occurrences are found
   * left to right without overlapping, and each one is dropped.
   */
  function RemoveAll(s: string, pat: string): (r: string)
    requires pat != []
    ensures |r| <= |s|
    decreases |s|
  {
    if s == [] then []
    else if StartsWith(s, pat) then RemoveAll(s[|pat|..], pat)
    else [s[0]] + RemoveAll(s[1..], pat)
  }

  /** Text in which the pattern never occurs comes back unchanged. */
  lemma {:induction false} RemoveAllAbsent(s: string, pat: string)
    requires pat != [] && !Includes(s, pat)
    ensures RemoveAll(s, pat) == s
    decreases |s|
  {
    if s != [] {
      RemoveAllAbsent(s[1..], pat);
    }
  }

  /** An occurrence at the front is dropped and the scan resumes after it. */
  lemma RemoveAllLeading(pat: string, rest: string)
    requires pat != []
    ensures RemoveAll(pat + rest, pat) == RemoveAll(rest, pat)
  {
    assert (pat + rest)[..|pat|] == pat;
    assert (pat + rest)[|pat|..] == rest;
  }

  // ---------------------------------------------------------------------------
  // Integer text, as the database casts a parameter to an integer column

  predicate IsDigit(c: char) {
    '0' <= c <= '9'
  }

  predicate AllDigits(s: string) {
    forall k :: 0 <= k < |s| ==> IsDigit(s[k])
  }

  /** The value of a run of decimal digits, most significant first. */
  function DigitsValue(s: string): nat
    requires AllDigits(s)
  {
    if s == [] then 0 else DigitsValue(s[..|s| - 1]) * 10 + (s[|s| - 1] - '0') as int
  }

  /** Integer text: an optional sign followed by at least one decimal digit. */
  predicate IsIntText(s: string) {
    if |s| > 0 && (s[0] == '-' || s[0] == '+') then |s| > 1 && AllDigits(s[1..])
    else |s| > 0 && AllDigits(s)
  }

  /** Casts text to an integer; None where the database rejects the text. */
  function ParseInt(s: string): (r: Option<int>)
    ensures r.Some? <==> IsIntText(s)
  {
    if |s| > 0 && (s[0] == '-' || s[0] == '+') then
      if |s| > 1 && AllDigits(s[1..]) then
        var magnitude: int := DigitsValue(s[1..]);
        Some(if s[0] == '-' then -magnitude else magnitude)
      else None
    else if |s| > 0 && AllDigits(s) then Some(DigitsValue(s))
    else None
  }

  function DigitChar(d: nat): char
    requires d < 10
  {
    ('0' as int + d) as char
  }

  /** Decimal text of a natural number, without leading zeros. */
  function NatText(n: nat): (r: string)
    ensures |r| > 0 && AllDigits(r)
  {
    if n < 10 then [DigitChar(n)] else NatText(n / 10) + [DigitChar(n % 10)]
  }

  /** `str(n)`: decimal text of an integer, with a leading '-' when negative. */
  function IntText(n: int): (r: string)
    ensures |r| > 0
  {
    if n < 0 then "-" + NatText(-n) else NatText(n)
  }

  lemma {:induction false} NatTextValue(n: nat)
    ensures DigitsValue(NatText(n)) == n
  {
    if n >= 10 {
      NatTextValue(n / 10);
      var t := NatText(n);
      assert t[..|t| - 1] == NatText(n / 10);
    }
  }

  /** Casting the text of an integer back to an integer gives the integer. */
  lemma ParseIntText(n: int)
    ensures ParseInt(IntText(n)) == Some(n)
  {
    if n < 0 {
      NatTextValue(-n);
      assert IntText(n)[1..] == NatText(-n);
    } else {
      NatTextValue(n);
      assert IntText(n)[0] != '-' && IntText(n)[0] != '+';
    }
  }

  /**
   * The value a JSON body field gives an integer column: `null` is SQL NULL, an
   * integer is itself, a string is cast. None: the database rejects the value.
   */
  function IntColumn(v: Value): (r: Option<Option<int>>)
    ensures v.Null? ==> r == Some(None)
    ensures v.Int? ==> r == Some(Some(v.i))
    ensures v.Str? ==> (r.Some? <==> IsIntText(v.s))
  {
    match v
    case Null => Some(None)
    case Int(i) => Some(Some(i))
    case Str(s) => match ParseInt(s) case Some(i) => Some(Some(i)) case None => None
  }

  /** The integer a truthy JSON id designates, or None where the cast fails. */
  function IdOf(v: Value): (r: Option<int>)
    ensures v.Int? ==> r == Some(v.i)
    ensures v.Str? ==> (r.Some? <==> IsIntText(v.s))
    ensures v.Null? ==> r.None?
  {
    match v
    case Int(i) => Some(i)
    case Str(s) => ParseInt(s)
    case Null => None
  }

  /** The text a JSON value gives a text column: an integer is stored as its decimal text. */
  function TextColumn(v: Value): (r: Option<string>)
    ensures v.Str? ==> r == Some(v.s)
    ensures v.Int? ==> r.Some? && ParseInt(r.value) == Some(v.i)
    ensures v.Null? ==> r.None?
  {
    match v
    case Str(s) => Some(s)
    case Int(i) => ParseIntText(i); Some(IntText(i))
    case Null => None
  }
}
