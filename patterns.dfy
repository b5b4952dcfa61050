/**
  The two regular expressions of the menu reconstructor, written out as
  functions over strings: the item-index gate `re.match(r"^\d+\.", s)` and
  the price search `re.search(r"(\d+,\-)$", s)`.
 */
module Patterns {
  import opened PyStr

  datatype Option<T> = None | Some(value: T)

  /** The `[start, end)` span of a regular-expression match. */
  datatype Span = Span(start: nat, end: nat)

  predicate AllDigits(s: string) {
    forall i :: 0 <= i < |s| ==> IsDigit(s[i])
  }

  /** Length of the leading run of digits. */
  function LeadingDigits(s: string): (n: nat)
    ensures n <= |s|
    ensures forall i :: 0 <= i < n ==> IsDigit(s[i])
    ensures n < |s| ==> !IsDigit(s[n])
  {
    if s != [] && IsDigit(s[0]) then 1 + LeadingDigits(s[1..]) else 0
  }

  /** Length of the trailing run of digits. */
  function TrailingDigits(s: string): (n: nat)
    ensures n <= |s|
    ensures forall i :: |s| - n <= i < |s| ==> IsDigit(s[i])
    ensures n < |s| ==> !IsDigit(s[|s| - 1 - n])
  {
    if s != [] && IsDigit(s[|s| - 1]) then 1 + TrailingDigits(s[..|s| - 1]) else 0
  }

  /** `re.match(r"^\d+\.", s)` succeeds: `s` starts with an item-index
      marker such as `"12."`. */
  predicate HasIndexMarker(s: string)
    ensures HasIndexMarker(s) <==>
            exists k :: 0 < k < |s| && AllDigits(s[..k]) && s[k] == '.'
  {
    var n := LeadingDigits(s);
    assert 0 < n < |s| && s[n] == '.' ==> AllDigits(s[..n]);
    0 < n < |s| && s[n] == '.'
  }

  /** Length of the item-index marker, its dot included. */
  function MarkerLength(s: string): (n: nat)
    requires HasIndexMarker(s)
    ensures 2 <= n <= |s| && s[n - 1] == '.'
    ensures AllDigits(s[..n - 1])
  {
    LeadingDigits(s) + 1
  }

  /** A price token `<digits>,-`. */
  predicate IsPriceToken(t: string) {
    |t| >= 3 && t[|t| - 2] == ',' && t[|t| - 1] == '-' && AllDigits(t[..|t| - 2])
  }

  /** Positions where `$` matches without MULTILINE: the end of the string,
      or just before a newline that ends it. */
  predicate AtEnd(s: string, e: int) {
    e == |s| || (0 <= e == |s| - 1 && s[e] == '\n')
  }

  /** `(\d+,\-)$` matches `s[j..e]`. */
  predicate PriceMatchAt(s: string, j: int, e: int) {
    0 <= j <= e && AtEnd(s, e) && IsPriceToken(s[j..e])
  }

  /** `re.search(r"(\d+,\-)$", s)`: the leftmost match, if there is one. */
  function SearchPrice(s: string): (m: Option<Span>)
    ensures m.Some? ==> PriceMatchAt(s, m.value.start, m.value.end)
    ensures m.Some? ==> forall j, e :: PriceMatchAt(s, j, e) ==> m.value.start <= j && e == m.value.end
    ensures m.None? ==> forall j, e :: !PriceMatchAt(s, j, e)
  {
    var e := if |s| > 0 && s[|s| - 1] == '\n' then |s| - 1 else |s|;
    if e >= 2 && s[e - 2] == ',' && s[e - 1] == '-' then
      var d := TrailingDigits(s[..e - 2]);
      if d > 0 then
        PriceSearchFound(s, e, d);
        Some(Span(e - 2 - d, e))
      else
        PriceSearchNone(s, e);
        None
    else
      PriceSearchNone(s, e);
      None
  }

  /** The only end a price match can have is the computed `e`. */
  lemma PriceMatchEnd(s: string, e: int, j: int, e': int)
    requires e == if |s| > 0 && s[|s| - 1] == '\n' then |s| - 1 else |s|
    requires PriceMatchAt(s, j, e')
    ensures e' == e && e >= 3 && s[e - 2] == ',' && s[e - 1] == '-'
    ensures forall i :: j <= i < e - 2 ==> IsDigit(s[i])
  {
    assert s[j..e'][|s[j..e']| - 1] == s[e' - 1];
    assert s[j..e'][|s[j..e']| - 2] == s[e' - 2];
    forall i | j <= i < e - 2 ensures IsDigit(s[i]) {
      assert s[j..e'][..|s[j..e']| - 2][i - j] == s[i];
    }
  }

  lemma PriceSearchNone(s: string, e: int)
    requires e == if |s| > 0 && s[|s| - 1] == '\n' then |s| - 1 else |s|
    requires !(e >= 2 && s[e - 2] == ',' && s[e - 1] == '-') || TrailingDigits(s[..e - 2]) == 0
    ensures forall j, e' :: !PriceMatchAt(s, j, e')
  {
    forall j, e' | PriceMatchAt(s, j, e') ensures false {
      PriceMatchEnd(s, e, j, e');
    }
  }

  lemma PriceSearchFound(s: string, e: int, d: nat)
    requires e == if |s| > 0 && s[|s| - 1] == '\n' then |s| - 1 else |s|
    requires e >= 2 && s[e - 2] == ',' && s[e - 1] == '-'
    requires d == TrailingDigits(s[..e - 2]) && d > 0
    ensures PriceMatchAt(s, e - 2 - d, e)
    ensures forall j, e' :: PriceMatchAt(s, j, e') ==> e - 2 - d <= j && e' == e
  {
    var p := s[..e - 2];
    var t := s[e - 2 - d..e];
    assert t[..|t| - 2] == p[|p| - d..];
    assert AtEnd(s, e);
    forall j, e' | PriceMatchAt(s, j, e') ensures e - 2 - d <= j && e' == e {
      PriceMatchEnd(s, e, j, e');
    }
  }

  // ---------------------------------------------------------------------
  // Lemmas

  /** Whether a string carries an index marker depends only on the marker:
      any string that begins with the same marker carries it too. */
  lemma MarkerByPrefix(s: string, t: string)
    requires HasIndexMarker(s)
    requires MarkerLength(s) <= |t| && t[..MarkerLength(s)] == s[..MarkerLength(s)]
    ensures HasIndexMarker(t) && MarkerLength(t) == MarkerLength(s)
  {
    var n := LeadingDigits(s);
    assert forall i :: 0 <= i <= n ==> t[i] == t[..n + 1][i];
  }

  /** The marker consists of characters that are not whitespace. */
  lemma MarkerHasNoSpace(s: string, i: nat)
    requires HasIndexMarker(s) && i < MarkerLength(s)
    ensures !IsSpace(s[i])
  {
  }

  /** A price token cannot begin inside, or at the dot of, an index marker:
      a token is digits up to its comma, and the marker's digits are followed
      by a dot. */
  lemma NoPriceTokenInMarker(s: string, t: string, i: nat)
    requires HasIndexMarker(s) && IsPriceToken(t) && i < MarkerLength(s)
    ensures !OccursAt(s, t, i)
  {
  }

  /** Removing every occurrence of a price token keeps the index marker. */
  lemma RemoveAllKeepsMarker(s: string, t: string)
    requires HasIndexMarker(s) && IsPriceToken(t)
    ensures HasIndexMarker(RemoveAll(s, t))
    ensures MarkerLength(RemoveAll(s, t)) == MarkerLength(s)
    ensures RemoveAll(s, t)[..MarkerLength(s)] == s[..MarkerLength(s)]
  {
    var k := MarkerLength(s);
    forall i | 0 <= i < k ensures !OccursAt(s, t, i) {
      NoPriceTokenInMarker(s, t, i);
    }
    RemoveAllKeepsPrefix(s, t, k);
    var r := RemoveAll(s, t);
    assert r[..k] == s[..k];
    MarkerByPrefix(s, r);
  }
}
