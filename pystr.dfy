/**
  The handful of Python `str` built-ins the menu reconstructor relies on:
  `str.split()` and `str.strip()` without arguments, `" ".join(...)` and
  `str.replace(t, "")`. Strings are sequences of code points.
 */
module PyStr {

  /** Python's `str.isspace()` set, which `split()` and `strip()` without
      arguments treat as whitespace. */
  predicate IsSpace(c: char) {
    var n := c as int;
    (0x09 <= n <= 0x0D) || (0x1C <= n <= 0x20) || n == 0x85 || n == 0xA0 ||
    n == 0x1680 || (0x2000 <= n <= 0x200A) || n == 0x2028 || n == 0x2029 ||
    n == 0x202F || n == 0x205F || n == 0x3000
  }

  /** A decimal digit, as `\d` matches it (restricted to ASCII). */
  predicate IsDigit(c: char) {
    '0' <= c <= '9'
  }

  predicate NoSpace(w: string) {
    forall i :: 0 <= i < |w| ==> !IsSpace(w[i])
  }

  /** A word as `split()` yields it: non-empty, without whitespace. */
  predicate IsWord(w: string) {
    w != [] && NoSpace(w)
  }

  predicate AllWords(ws: seq<string>) {
    forall k :: 0 <= k < |ws| ==> IsWord(ws[k])
  }

  /** Length of the leading run of non-whitespace characters. */
  function WordLength(s: string): (n: nat)
    ensures n <= |s|
    ensures forall i :: 0 <= i < n ==> !IsSpace(s[i])
    ensures n < |s| ==> IsSpace(s[n])
  {
    if s == [] || IsSpace(s[0]) then 0 else 1 + WordLength(s[1..])
  }

  /** `s.split()`: the maximal runs of non-whitespace characters, in order. */
  function Split(s: string): (words: seq<string>)
    ensures AllWords(words)
    decreases |s|
  {
    if s == [] then []
    else if IsSpace(s[0]) then Split(s[1..])
    else
      var n := WordLength(s);
      [s[..n]] + Split(s[n..])
  }

  /** `" ".join(words)`. */
  function Join(words: seq<string>): (r: string)
    ensures words != [] ==> |words[0]| <= |r| && r[..|words[0]|] == words[0]
  {
    if words == [] then ""
    else if |words| == 1 then words[0]
    else words[0] + " " + Join(words[1..])
  }

  /** `s.lstrip()`. */
  function StripLeft(s: string): (r: string)
    ensures |r| <= |s| && r == s[|s| - |r|..]
    ensures forall i :: 0 <= i < |s| - |r| ==> IsSpace(s[i])
    ensures r != [] ==> !IsSpace(r[0])
    decreases |s|
  {
    if s != [] && IsSpace(s[0]) then StripLeft(s[1..]) else s
  }

  /** `s.rstrip()`. */
  function StripRight(s: string): (r: string)
    ensures |r| <= |s| && r == s[..|r|]
    ensures forall i :: |r| <= i < |s| ==> IsSpace(s[i])
    ensures r != [] ==> !IsSpace(r[|r| - 1])
    decreases |s|
  {
    if s != [] && IsSpace(s[|s| - 1]) then StripRight(s[..|s| - 1]) else s
  }

  /** `s.strip()`. */
  function Strip(s: string): (r: string)
    ensures |r| <= |s|
    ensures r != [] ==> !IsSpace(r[0]) && !IsSpace(r[|r| - 1])
  {
    StripRight(StripLeft(s))
  }

  /** `t` occurs in `s` starting at position `i`. */
  predicate OccursAt(s: string, t: string, i: int) {
    0 <= i && i + |t| <= |s| && s[i..i + |t|] == t
  }

  /** `s.replace(t, "")`: scanning left to right, every non-overlapping
      occurrence of `t` is deleted. An empty `t` leaves `s` as it is. */
  function RemoveAll(s: string, t: string): (r: string)
    ensures |r| <= |s|
    decreases |s|
  {
    if t == [] || |s| < |t| then s
    else if s[..|t|] == t then RemoveAll(s[|t|..], t)
    else [s[0]] + RemoveAll(s[1..], t)
  }

  // ---------------------------------------------------------------------
  // Lemmas

  /** Joining one more word appends a single space and that word. */
  lemma {:induction false} JoinSnoc(ws: seq<string>, w: string)
    requires ws != []
    ensures Join(ws + [w]) == Join(ws) + " " + w
    decreases |ws|
  {
    if |ws| == 1 {
      assert ws + [w] == [ws[0], w];
    } else {
      assert (ws + [w])[1..] == ws[1..] + [w];
      JoinSnoc(ws[1..], w);
    }
  }

  /** A non-empty list of non-empty words joins to a non-empty string. */
  lemma JoinNonEmpty(ws: seq<string>)
    requires ws != [] && ws[0] != []
    ensures Join(ws) != []
  {
    assert |Join(ws)| >= |ws[0]|;
  }

  lemma {:induction false} WordLengthOfWord(w: string, rest: string)
    requires NoSpace(w)
    requires rest == [] || IsSpace(rest[0])
    ensures WordLength(w + rest) == |w|
    decreases |w|
  {
    if w == [] {
      assert w + rest == rest;
    } else {
      assert (w + rest)[0] == w[0];
      assert (w + rest)[1..] == w[1..] + rest;
      WordLengthOfWord(w[1..], rest);
    }
  }

  lemma SplitLeadingSpace(s: string)
    requires s != [] && IsSpace(s[0])
    ensures Split(s) == Split(s[1..])
  {
  }

  /** A word ends where a following whitespace character begins. */
  lemma {:induction false} WordLengthAppend(a: string, t: string)
    requires t == [] || IsSpace(t[0])
    ensures WordLength(a + t) == WordLength(a)
    decreases |a|
  {
    if a == [] {
      assert a + t == t;
    } else if !IsSpace(a[0]) {
      assert (a + t)[0] == a[0];
      assert (a + t)[1..] == a[1..] + t;
      WordLengthAppend(a[1..], t);
    }
  }

  /** Splitting two texts joined by a space gives the words of the first,
      then the words of the second. */
  lemma {:induction false} SplitAppend(a: string, b: string)
    ensures Split(a + " " + b) == Split(a) + Split(b)
    decreases |a|
  {
    var s := a + " " + b;
    if a == [] {
      assert s[1..] == b;
      SplitLeadingSpace(s);
    } else if IsSpace(a[0]) {
      assert s[0] == a[0];
      assert s[1..] == a[1..] + " " + b;
      SplitAppend(a[1..], b);
    } else {
      var n := WordLength(a);
      assert s == a + (" " + b);
      WordLengthAppend(a, " " + b);
      assert s[..n] == a[..n];
      assert s[n..] == a[n..] + " " + b;
      SplitAppend(a[n..], b);
    }
  }

  /** Splitting a space-joined list of words gives the words back. */
  lemma {:induction false} SplitJoin(ws: seq<string>)
    requires AllWords(ws)
    ensures Split(Join(ws)) == ws
    decreases |ws|
  {
    if ws == [] {
    } else {
      var w := ws[0];
      var rest := if |ws| == 1 then "" else " " + Join(ws[1..]);
      assert Join(ws) == w + rest;
      WordLengthOfWord(w, rest);
      assert IsWord(w);
      var s := w + rest;
      assert s[..|w|] == w;
      assert s[|w|..] == rest;
      if |ws| == 1 {
        assert ws == [w];
      } else {
        assert AllWords(ws[1..]) by {
          forall k | 0 <= k < |ws[1..]| ensures IsWord(ws[1..][k]) {
            assert ws[1..][k] == ws[k + 1];
          }
        }
        SplitLeadingSpace(rest);
        assert rest[1..] == Join(ws[1..]);
        SplitJoin(ws[1..]);
        assert ws == [w] + ws[1..];
      }
    }
  }

  /** Deleting occurrences of `t` starts only where `t` occurs: a prefix of
      `s` in which no occurrence of `t` begins is kept as it is. */
  lemma {:induction false} RemoveAllKeepsPrefix(s: string, t: string, k: nat)
    requires k <= |s|
    requires forall i :: 0 <= i < k ==> !OccursAt(s, t, i)
    ensures RemoveAll(s, t) == s[..k] + RemoveAll(s[k..], t)
    decreases k
  {
    if t == [] || k == 0 {
      assert s[..k] + s[k..] == s;
    } else if |s| < |t| {
      assert s[..k] + s[k..] == s;
    } else {
      assert !OccursAt(s, t, 0);
      assert s[..|t|] == s[0..0 + |t|];
      forall i | 0 <= i < k - 1 ensures !OccursAt(s[1..], t, i) {
        assert !OccursAt(s, t, i + 1);
        if i + |t| <= |s[1..]| {
          assert s[1..][i..i + |t|] == s[i + 1..i + 1 + |t|];
        }
      }
      RemoveAllKeepsPrefix(s[1..], t, k - 1);
      assert s[1..][k - 1..] == s[k..];
      assert [s[0]] + s[1..][..k - 1] == s[..k];
    }
  }

  /** When `t` does not occur in `s`, `s.replace(t, "")` is `s`. */
  lemma RemoveAllAbsent(s: string, t: string)
    requires forall i :: 0 <= i < |s| ==> !OccursAt(s, t, i)
    ensures RemoveAll(s, t) == s
  {
    RemoveAllKeepsPrefix(s, t, |s|);
    assert s[..|s|] == s;
  }

  /** Stripping a string that begins with a non-space character keeps every
      prefix that ends in a non-space character. */
  lemma StripKeepsPrefix(s: string, k: nat)
    requires k < |s| && !IsSpace(s[0]) && !IsSpace(s[k])
    ensures k < |Strip(s)| && Strip(s)[..k + 1] == s[..k + 1]
  {
    assert StripLeft(s) == s;
  }
}
