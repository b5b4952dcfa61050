/**
  The menu reconstructor of main.py: `remove_extra_spaces` and the fragment
  loop of `extract_menu_data`, over the already-extracted text of the menu
  elements.

  `Step` is one iteration of the loop on the pair (accumulated dish text,
  records so far), `Run` folds it over the fragments, and the method
  `ExtractMenuData` is the loop itself, proved to compute that fold.
 */
module Menu {
  import opened PyStr
  import opened Patterns

  /** One output record: `{"Dish": dish, "Price": price}`. */
  datatype MenuItem = MenuItem(dish: string, price: string)

  /** Appended to every price token. */
  const CurrencySuffix: string := " Kč"

  /** `remove_extra_spaces`: `" ".join(text.split())`. The result is
      normalized and has the same words as `text`, in the same order. */
  function RemoveExtraSpaces(text: string): (r: string)
    ensures Normalized(r)
    ensures Split(r) == Split(text)
  {
    JoinNormalized(Split(text));
    SplitJoin(Split(text));
    Join(Split(text))
  }

  /** A string as `remove_extra_spaces` leaves it: every whitespace
      character is an ordinary space strictly inside the string, and no two
      whitespace characters stand next to each other. */
  predicate Normalized(s: string) {
    (forall i :: 0 <= i < |s| && IsSpace(s[i]) ==> s[i] == ' ' && 0 < i < |s| - 1) &&
    (forall i, j :: 0 <= i < |s| && 0 <= j < |s| && j == i + 1 ==> !IsSpace(s[i]) || !IsSpace(s[j]))
  }

  /** The loop's state: `current_dish` and `menu_data`. */
  datatype State = State(currentDish: string, menuData: seq<MenuItem>)

  /** The state before the first fragment. */
  const Start: State := State("", [])

  /** A price string as the source writes it: `<digits>,- Kč`. */
  predicate IsPrice(p: string) {
    |p| >= |CurrencySuffix| && p[|p| - |CurrencySuffix|..] == CurrencySuffix &&
    IsPriceToken(p[..|p| - |CurrencySuffix|])
  }

  /** The record emitted for a fragment `menuText` whose price search found
      `token`, after the text accumulated in `currentDish`. The dish is
      normalized and holds the accumulated words followed by the words left
      in the fragment once every copy of the token is gone; a price token
      gives a price `<digits>,- Kč`. */
  function Emit(currentDish: string, menuText: string, token: string): (item: MenuItem)
    ensures Normalized(item.dish)
    ensures Split(item.dish) == Split(currentDish) + Split(Strip(RemoveAll(menuText, token)))
    ensures IsPriceToken(token) ==> IsPrice(item.price)
  {
    var name := Strip(RemoveAll(menuText, token));
    SplitAppend(currentDish, name);
    var price := token + CurrencySuffix;
    assert price[..|price| - |CurrencySuffix|] == token;
    MenuItem(RemoveExtraSpaces(currentDish + " " + name), price)
  }

  /** One iteration of the loop on fragment `menuText`. A fragment without
      an index marker changes nothing. Otherwise records are only appended,
      at most one per fragment, and exactly when the fragment has a price;
      the accumulator is then cleared, and otherwise it only grows. */
  function Step(st: State, menuText: string): (r: State)
    ensures !HasIndexMarker(menuText) ==> r == st
    ensures st.menuData <= r.menuData && |r.menuData| <= |st.menuData| + 1
    ensures |r.menuData| == |st.menuData| + 1 <==>
            HasIndexMarker(menuText) && SearchPrice(menuText).Some?
    ensures |r.menuData| == |st.menuData| + 1 ==> r.currentDish == ""
    ensures |r.menuData| == |st.menuData| ==> st.currentDish <= r.currentDish
  {
    if !HasIndexMarker(menuText) then st
    else match SearchPrice(menuText)
      case Some(m) =>
        var token := menuText[m.start..m.end];
        State("", st.menuData + [Emit(st.currentDish, menuText, token)])
      case None =>
        State(if st.currentDish != "" then st.currentDish + " " + menuText else menuText,
              st.menuData)
  }

  /** The loop over `fragments`, from state `st`: the records already there
      stay, and at most one is added per fragment. */
  function Run(st: State, fragments: seq<string>): (r: State)
    ensures st.menuData <= r.menuData
    ensures |r.menuData| <= |st.menuData| + |fragments|
    decreases |fragments|
  {
    if fragments == [] then st else Run(Step(st, fragments[0]), fragments[1..])
  }

  /** What `extract_menu_data` returns for `fragments`: at most one record
      per fragment. */
  function ExtractMenu(fragments: seq<string>): (items: seq<MenuItem>)
    ensures |items| <= |fragments|
  {
    Run(Start, fragments).menuData
  }

  /** `extract_menu_data`'s loop, with the text of each menu element given. */
  method ExtractMenuData(fragments: seq<string>) returns (menuData: seq<MenuItem>)
    ensures menuData == ExtractMenu(fragments)
  {
    menuData := [];
    var currentDish := "";
    for i := 0 to |fragments|
      invariant Run(State(currentDish, menuData), fragments[i..]) == Run(Start, fragments)
    {
      assert fragments[i..][1..] == fragments[i + 1..];
      var menuText := fragments[i];
      if !HasIndexMarker(menuText) {
        continue;
      }
      var found := SearchPrice(menuText);
      if found.Some? {
        var token := menuText[found.value.start..found.value.end];
        var currentPrice := token + CurrencySuffix;
        var name := Strip(RemoveAll(menuText, token));
        var fullDish := RemoveExtraSpaces(currentDish + " " + name);
        menuData := menuData + [MenuItem(fullDish, currentPrice)];
        currentDish := "";
      } else {
        currentDish := if currentDish != "" then currentDish + " " + menuText else menuText;
      }
    }
  }

  // ---------------------------------------------------------------------
  // remove_extra_spaces

  lemma {:induction false} JoinNormalized(ws: seq<string>)
    requires AllWords(ws)
    ensures Normalized(Join(ws))
    decreases |ws|
  {
    if |ws| > 1 {
      var w := ws[0];
      var rest := ws[1..];
      assert IsWord(w) && IsWord(rest[0]);
      assert AllWords(rest) by {
        forall k | 0 <= k < |rest| ensures IsWord(rest[k]) {
          assert rest[k] == ws[k + 1];
        }
      }
      JoinNormalized(rest);
      var j := Join(rest);
      JoinNonEmpty(rest);
      assert !IsSpace(j[0]) by {
        assert j[..|rest[0]|] == rest[0];
        assert j[0] == rest[0][0];
      }
      var s := w + " " + j;
      assert s == Join(ws);
      forall i | 0 <= i < |s| && IsSpace(s[i])
        ensures s[i] == ' ' && 0 < i < |s| - 1 && !IsSpace(s[i - 1]) && !IsSpace(s[i + 1])
      {
        if i == |w| {
          assert s[i - 1] == w[|w| - 1];
          assert s[i + 1] == j[0];
        } else {
          var k := i - |w| - 1;
          assert s[i] == j[k];
          assert s[i + 1] == j[k + 1];
          if k == 0 {
            assert false;
          }
          assert s[i - 1] == j[k - 1];
        }
      }
    }
  }

  /** In a normalized string the first word is followed by one space and a
      normalized rest. */
  lemma NormalizedAfterSpace(s: string, n: nat)
    requires s != [] && Normalized(s) && n == WordLength(s) && n < |s|
    ensures !IsSpace(s[0]) && s[n] == ' ' && n + 1 < |s|
    ensures Normalized(s[n + 1..])
  {
    assert IsSpace(s[n]);
    var tail := s[n + 1..];
    forall i | 0 <= i < |tail| && IsSpace(tail[i])
      ensures tail[i] == ' ' && 0 < i < |tail| - 1
    {
      assert tail[i] == s[n + 1 + i];
    }
    forall i, j | 0 <= i < |tail| && 0 <= j < |tail| && j == i + 1
      ensures !IsSpace(tail[i]) || !IsSpace(tail[j])
    {
      assert tail[i] == s[n + 1 + i] && tail[j] == s[n + 1 + j];
    }
  }

  lemma SplitAtSpace(s: string, n: nat)
    requires n == WordLength(s) && n < |s| && s != [] && !IsSpace(s[0])
    ensures Split(s) == [s[..n]] + Split(s[n + 1..])
  {
    assert s[n..][1..] == s[n + 1..];
    SplitLeadingSpace(s[n..]);
  }

  lemma JoinCons(w: string, rest: seq<string>)
    requires Join(rest) != []
    ensures Join([w] + rest) == w + " " + Join(rest)
  {
    var ws := [w] + rest;
    assert rest != [];
    assert |ws| > 1 && ws[0] == w && ws[1..] == rest;
  }

  /** A string that is already normalized is left as it is. */
  lemma NormalizedUnchanged(s: string)
    requires Normalized(s)
    ensures RemoveExtraSpaces(s) == s
  {
    JoinSplitNormalized(s);
  }

  lemma {:induction false} JoinSplitNormalized(s: string)
    requires Normalized(s)
    ensures Join(Split(s)) == s
    decreases |s|
  {
    if s != [] {
      var n := WordLength(s);
      if n < |s| {
        NormalizedAfterSpace(s, n);
        JoinSplitNormalized(s[n + 1..]);
        JoinSplitAfterWord(s, n);
      } else {
        assert s[..n] == s;
        assert Split(s) == [s];
      }
    }
  }

  /** The induction step of `JoinSplitNormalized`: the first word, a space,
      and the rest. */
  lemma JoinSplitAfterWord(s: string, n: nat)
    requires s != [] && n == WordLength(s) && !IsSpace(s[0])
    requires n + 1 < |s| && s[n] == ' ' && Join(Split(s[n + 1..])) == s[n + 1..]
    ensures Join(Split(s)) == s
  {
    var w, tail := s[..n], s[n + 1..];
    calc {
      Join(Split(s));
    == { SplitAtSpace(s, n); }
      Join([w] + Split(tail));
    == { JoinCons(w, Split(tail)); }
      w + " " + tail;
    == { SpaceAt(s, n); }
      s;
    }
  }

  lemma SpaceAt(s: string, n: nat)
    requires n < |s| && s[n] == ' '
    ensures s == s[..n] + " " + s[n + 1..]
  {
    assert s == s[..n] + [s[n]] + s[n + 1..];
  }

  /** `remove_extra_spaces` changes nothing else: its fixed points are
      exactly the normalized strings, so applying it twice is the same as
      applying it once. */
  lemma RemoveExtraSpacesFixedPoints(s: string)
    ensures RemoveExtraSpaces(s) == s <==> Normalized(s)
    ensures RemoveExtraSpaces(RemoveExtraSpaces(s)) == RemoveExtraSpaces(s)
  {
    if Normalized(s) {
      NormalizedUnchanged(s);
    }
    NormalizedUnchanged(RemoveExtraSpaces(s));
  }

  /** A string that begins with an index marker keeps that marker, character
      for character, through `remove_extra_spaces`. */
  lemma RemoveExtraSpacesKeepsMarker(s: string)
    requires HasIndexMarker(s)
    ensures HasIndexMarker(RemoveExtraSpaces(s))
    ensures MarkerLength(RemoveExtraSpaces(s)) == MarkerLength(s)
    ensures RemoveExtraSpaces(s)[..MarkerLength(s)] == s[..MarkerLength(s)]
  {
    var k := MarkerLength(s);
    forall i | 0 <= i < k ensures !IsSpace(s[i]) {
      MarkerHasNoSpace(s, i);
    }
    var n := WordLength(s);
    assert k <= n;
    var w := s[..n];
    assert Split(s) == [w] + Split(s[n..]);
    var r := RemoveExtraSpaces(s);
    assert r[..|w|] == w;
    assert r[..k] == w[..k] == s[..k];
    MarkerByPrefix(s, r);
  }
}
