/**
  What the fragment loop of `extract_menu_data` guarantees, stated over the
  fold `Menu.Run` that the method `Menu.ExtractMenuData` is proved to
  compute.
 */
module MenuProperties {
  import opened PyStr
  import opened Patterns
  import opened Menu

  /** A fragment that emits a record: it passes the index-marker gate and
      ends in a price token. */
  predicate Emits(menuText: string) {
    HasIndexMarker(menuText) && SearchPrice(menuText).Some?
  }

  /** The price token found at the end of an emitting fragment: the fragment
      ends with it, or with it and one newline. */
  function PriceTokenOf(menuText: string): (t: string)
    requires Emits(menuText)
    ensures IsPriceToken(t)
    ensures |t| <= |menuText|
    ensures menuText[|menuText| - |t|..] == t ||
            (|t| < |menuText| && menuText[|menuText| - |t| - 1..] == t + "\n")
  {
    var m := SearchPrice(menuText).value;
    menuText[m.start..m.end]
  }

  /** Number of emitting fragments. */
  function CountEmitting(fragments: seq<string>): nat
    decreases |fragments|
  {
    if fragments == [] then 0
    else (if Emits(fragments[0]) then 1 else 0) + CountEmitting(fragments[1..])
  }

  /** The fragments that pass the index-marker gate, in order. */
  function Marked(fragments: seq<string>): seq<string>
    decreases |fragments|
  {
    if fragments == [] then []
    else (if HasIndexMarker(fragments[0]) then [fragments[0]] else []) + Marked(fragments[1..])
  }

  /** The fragments waiting for a price after `fragments`: those that pass the
      gate without a price token, since the last emitting fragment. */
  function Pending(fragments: seq<string>): (p: seq<string>)
    ensures forall k :: 0 <= k < |p| ==> HasIndexMarker(p[k]) && !Emits(p[k])
    decreases |fragments|
  {
    if fragments == [] then []
    else
      var f := fragments[|fragments| - 1];
      var before := Pending(fragments[..|fragments| - 1]);
      if !HasIndexMarker(f) then before
      else if SearchPrice(f).Some? then []
      else before + [f]
  }

  /** What every emitted record satisfies. */
  predicate WellFormed(item: MenuItem) {
    IsPrice(item.price) && HasIndexMarker(item.dish) && Normalized(item.dish)
  }

  /** What the loop keeps true: the accumulated text is empty or begins
      with an index marker, and every record so far is well formed. */
  predicate Consistent(st: State) {
    (st.currentDish == "" || HasIndexMarker(st.currentDish)) &&
    forall k :: 0 <= k < |st.menuData| ==> WellFormed(st.menuData[k])
  }

  // ---------------------------------------------------------------------
  // The fold

  /** Processing `xs + ys` is processing `xs`, then `ys` from where it left
      off. */
  lemma {:induction false} RunAppend(st: State, xs: seq<string>, ys: seq<string>)
    ensures Run(st, xs + ys) == Run(Run(st, xs), ys)
    decreases |xs|
  {
    if xs == [] {
      assert xs + ys == ys;
    } else {
      assert (xs + ys)[0] == xs[0];
      assert (xs + ys)[1..] == xs[1..] + ys;
      RunAppend(Step(st, xs[0]), xs[1..], ys);
    }
  }

  lemma RunOne(st: State, f: string)
    ensures Run(st, [f]) == Step(st, f)
  {
    assert [f][1..] == [];
  }

  /** Records are only ever appended: the records before the loop are a
      prefix of those after it, and one record is added per emitting
      fragment. */
  lemma {:induction false} RunAppendsRecords(st: State, fragments: seq<string>)
    ensures |Run(st, fragments).menuData| == |st.menuData| + CountEmitting(fragments)
    ensures Run(st, fragments).menuData[..|st.menuData|] == st.menuData
    decreases |fragments|
  {
    if fragments != [] {
      var next := Step(st, fragments[0]);
      RunAppendsRecords(next, fragments[1..]);
      var r := Run(st, fragments).menuData;
      assert next.menuData[..|st.menuData|] == st.menuData;
      assert r[..|st.menuData|] == r[..|next.menuData|][..|st.menuData|];
    }
  }

  /** The number of records is the number of fragments that both begin with
      an index marker and end with a price token; no fragments, no records. */
  lemma ExtractMenuCount(fragments: seq<string>)
    ensures |ExtractMenu(fragments)| == CountEmitting(fragments)
    ensures fragments == [] ==> ExtractMenu(fragments) == []
  {
    RunAppendsRecords(Start, fragments);
  }

  /** The records for a prefix of the input are a prefix of the records for
      the whole input. */
  lemma ExtractMenuPrefix(xs: seq<string>, ys: seq<string>)
    ensures |ExtractMenu(xs)| <= |ExtractMenu(xs + ys)|
    ensures ExtractMenu(xs + ys)[..|ExtractMenu(xs)|] == ExtractMenu(xs)
  {
    RunAppend(Start, xs, ys);
    RunAppendsRecords(Run(Start, xs), ys);
  }

  /** A fragment without an index marker changes nothing, wherever it
      stands. */
  lemma UnmarkedFragmentIgnored(xs: seq<string>, f: string, ys: seq<string>)
    requires !HasIndexMarker(f)
    ensures Run(Start, xs + [f] + ys) == Run(Start, xs + ys)
    ensures ExtractMenu(xs + [f] + ys) == ExtractMenu(xs + ys)
  {
    RunAppend(Start, xs + [f], ys);
    RunAppend(Start, xs, [f]);
    RunOne(Run(Start, xs), f);
    RunAppend(Start, xs, ys);
  }

  lemma {:induction false} RunMarkedOnly(st: State, fragments: seq<string>)
    ensures Run(st, fragments) == Run(st, Marked(fragments))
    decreases |fragments|
  {
    if fragments != [] {
      var f := fragments[0];
      RunMarkedOnly(Step(st, f), fragments[1..]);
      if HasIndexMarker(f) {
        var m := Marked(fragments);
        assert m == [f] + Marked(fragments[1..]);
        assert m != [] && m[0] == f && m[1..] == Marked(fragments[1..]);
      } else {
        assert Marked(fragments) == Marked(fragments[1..]);
      }
    }
  }

  /** Only the fragments that pass the gate matter: dropping all the others
      gives the same records. */
  lemma ExtractMenuMarkedOnly(fragments: seq<string>)
    ensures ExtractMenu(fragments) == ExtractMenu(Marked(fragments))
  {
    RunMarkedOnly(Start, fragments);
  }

  /** Fragments after the last emitting one produce no record: the text they
      accumulate is dropped. */
  lemma TrailingFragmentsDropped(xs: seq<string>, tail: seq<string>)
    requires CountEmitting(tail) == 0
    ensures ExtractMenu(xs + tail) == ExtractMenu(xs)
  {
    RunAppend(Start, xs, tail);
    RunAppendsRecords(Run(Start, xs), tail);
  }

  /** After an emitting fragment the accumulator is empty. */
  lemma AccumulatorClearedOnEmit(xs: seq<string>, f: string)
    requires Emits(f)
    ensures Run(Start, xs + [f]).currentDish == ""
  {
    RunAppend(Start, xs, [f]);
    RunOne(Run(Start, xs), f);
  }

  /** The accumulator holds the fragments waiting for a price, joined by
      single spaces. */
  lemma {:induction false} AccumulatorIsPending(fragments: seq<string>)
    ensures Run(Start, fragments).currentDish == Join(Pending(fragments))
    decreases |fragments|
  {
    if fragments != [] {
      var n := |fragments| - 1;
      var init, f := fragments[..n], fragments[n];
      assert fragments == init + [f];
      AccumulatorIsPending(init);
      RunAppend(Start, init, [f]);
      RunOne(Run(Start, init), f);
      var p := Pending(init);
      if HasIndexMarker(f) && SearchPrice(f).None? && p != [] {
        assert p[0] != [] by {
          assert HasIndexMarker(p[0]);
        }
        JoinNonEmpty(p);
        JoinSnoc(p, f);
      }
    }
  }

  /** The record for the emitting fragment at position `j` is record number
      `CountEmitting(fragments[..j])`: its price is the fragment's price
      token followed by " Kč", and its dish is the whitespace-collapsed
      pending text, a space, and the fragment with every copy of the token
      removed and stripped. */
  lemma RecordOrigin(fragments: seq<string>, j: nat)
    requires j < |fragments| && Emits(fragments[j])
    ensures CountEmitting(fragments[..j]) < |ExtractMenu(fragments)|
    ensures var f := fragments[j];
            var item := ExtractMenu(fragments)[CountEmitting(fragments[..j])];
            var name := Strip(RemoveAll(f, PriceTokenOf(f)));
            item.price == PriceTokenOf(f) + CurrencySuffix &&
            item.dish == RemoveExtraSpaces(Join(Pending(fragments[..j])) + " " + name)
  {
    var f := fragments[j];
    var before := fragments[..j];
    assert fragments == before + [f] + fragments[j + 1..];
    RunAppend(Start, before + [f], fragments[j + 1..]);
    RunAppend(Start, before, [f]);
    var st := Run(Start, before);
    RunOne(st, f);
    RunAppendsRecords(Start, before);
    AccumulatorIsPending(before);
    var after := Step(st, f);
    RunAppendsRecords(after, fragments[j + 1..]);
    var r := ExtractMenu(fragments);
    var k := CountEmitting(before);
    assert after.menuData[k] == Emit(st.currentDish, f, PriceTokenOf(f));
    assert r[..|after.menuData|][k] == r[k];
  }

  // ---------------------------------------------------------------------
  // Shape of every record

  /** A record emitted after an empty or marked accumulator is well formed,
      and its dish begins with the index marker of the accumulated text, or
      of the fragment itself when nothing was accumulated: the marker
      survives the token's removal, the strip and the whitespace collapse. */
  lemma EmitWellFormed(currentDish: string, menuText: string, token: string)
    requires currentDish == "" || HasIndexMarker(currentDish)
    requires HasIndexMarker(menuText) && IsPriceToken(token)
    ensures WellFormed(Emit(currentDish, menuText, token))
    ensures var src := if currentDish == "" then menuText else currentDish;
            var dish := Emit(currentDish, menuText, token).dish;
            MarkerLength(dish) == MarkerLength(src) &&
            dish[..MarkerLength(src)] == src[..MarkerLength(src)]
  {
    if currentDish == "" {
      DishAfterEmpty(menuText, token);
    } else {
      DishAfterMarked(currentDish, menuText, token);
    }
  }

  lemma DishAfterEmpty(menuText: string, token: string)
    requires HasIndexMarker(menuText) && IsPriceToken(token)
    ensures var dish := Emit("", menuText, token).dish;
            HasIndexMarker(dish) && MarkerLength(dish) == MarkerLength(menuText) &&
            dish[..MarkerLength(menuText)] == menuText[..MarkerLength(menuText)]
  {
    var name := Strip(RemoveAll(menuText, token));
    NameKeepsMarker(menuText, token);
    var s := "" + " " + name;
    assert s[0] == ' ' && s[1..] == name;
    SplitLeadingSpace(s);
    assert RemoveExtraSpaces(s) == RemoveExtraSpaces(name);
    RemoveExtraSpacesKeepsMarker(name);
  }

  lemma DishAfterMarked(currentDish: string, menuText: string, token: string)
    requires HasIndexMarker(currentDish)
    ensures var dish := Emit(currentDish, menuText, token).dish;
            HasIndexMarker(dish) && MarkerLength(dish) == MarkerLength(currentDish) &&
            dish[..MarkerLength(currentDish)] == currentDish[..MarkerLength(currentDish)]
  {
    var s := currentDish + " " + Strip(RemoveAll(menuText, token));
    var m := MarkerLength(currentDish);
    assert s[..m] == currentDish[..m];
    MarkerByPrefix(currentDish, s);
    RemoveExtraSpacesKeepsMarker(s);
  }

  /** The fragment's text, less every copy of a price token and stripped,
      still begins with the fragment's index marker. */
  lemma NameKeepsMarker(menuText: string, token: string)
    requires HasIndexMarker(menuText) && IsPriceToken(token)
    ensures var name := Strip(RemoveAll(menuText, token));
            HasIndexMarker(name) && MarkerLength(name) == MarkerLength(menuText) &&
            name[..MarkerLength(menuText)] == menuText[..MarkerLength(menuText)]
  {
    var r := RemoveAll(menuText, token);
    RemoveAllKeepsMarker(menuText, token);
    var k := MarkerLength(r);
    MarkerHasNoSpace(r, 0);
    MarkerHasNoSpace(r, k - 1);
    StripKeepsPrefix(r, k - 1);
    var name := Strip(r);
    MarkerByPrefix(r, name);
    assert name[..k] == name[..k][..k] == r[..k];
  }

  /** The dish of the record for the emitting fragment at position `j`
      begins with the index marker of the first fragment waiting for a price,
      or of the fragment at `j` itself when none was waiting. */
  lemma RecordKeepsMarker(fragments: seq<string>, j: nat)
    requires j < |fragments| && Emits(fragments[j])
    ensures CountEmitting(fragments[..j]) < |ExtractMenu(fragments)|
    ensures var p := Pending(fragments[..j]);
            var src := if p == [] then fragments[j] else p[0];
            var dish := ExtractMenu(fragments)[CountEmitting(fragments[..j])].dish;
            HasIndexMarker(dish) && MarkerLength(dish) == MarkerLength(src) &&
            dish[..MarkerLength(src)] == src[..MarkerLength(src)]
  {
    RecordOrigin(fragments, j);
    var f := fragments[j];
    var p := Pending(fragments[..j]);
    if p != [] {
      JoinKeepsMarker(p);
    }
    EmitWellFormed(Join(p), f, PriceTokenOf(f));
  }

  /** Joined pending fragments begin with the first one's marker. */
  lemma JoinKeepsMarker(p: seq<string>)
    requires p != [] && HasIndexMarker(p[0])
    ensures HasIndexMarker(Join(p)) && MarkerLength(Join(p)) == MarkerLength(p[0])
    ensures Join(p)[..MarkerLength(p[0])] == p[0][..MarkerLength(p[0])]
  {
    var acc := Join(p);
    MarkerByPrefix(p[0], acc);
    assert acc[..MarkerLength(p[0])] == acc[..|p[0]|][..MarkerLength(p[0])];
  }

  lemma StepConsistent(st: State, menuText: string)
    requires Consistent(st)
    ensures Consistent(Step(st, menuText))
  {
    if Emits(menuText) {
      var item := Emit(st.currentDish, menuText, PriceTokenOf(menuText));
      EmitWellFormed(st.currentDish, menuText, PriceTokenOf(menuText));
      var records := st.menuData + [item];
      forall k | 0 <= k < |records| ensures WellFormed(records[k]) {
        if k < |st.menuData| {
          assert records[k] == st.menuData[k];
        }
      }
    } else if HasIndexMarker(menuText) && st.currentDish != "" {
      var s := st.currentDish + " " + menuText;
      var m := MarkerLength(st.currentDish);
      assert s[..m] == st.currentDish[..m];
      MarkerByPrefix(st.currentDish, s);
    }
  }

  lemma {:induction false} RunConsistent(st: State, fragments: seq<string>)
    requires Consistent(st)
    ensures Consistent(Run(st, fragments))
    decreases |fragments|
  {
    if fragments != [] {
      StepConsistent(st, fragments[0]);
      RunConsistent(Step(st, fragments[0]), fragments[1..]);
    }
  }

  /** Every record's price is `<digits>,- Kč`, and every dish begins with an
      index marker and is whitespace-normalized. */
  lemma ExtractMenuWellFormed(fragments: seq<string>)
    ensures forall k :: 0 <= k < |ExtractMenu(fragments)| ==> WellFormed(ExtractMenu(fragments)[k])
  {
    RunConsistent(Start, fragments);
  }
}
