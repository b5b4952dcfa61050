/**
  Small concrete inputs worked through the model of `extract_menu_data`.
 */
module MenuScenarios {
  import opened PyStr
  import opened Patterns
  import opened Menu
  import opened MenuProperties

  /** A line that begins with a marked name carries the name's marker. */
  lemma MarkedLine(name: string, f: string)
    requires HasIndexMarker(name) && |name| <= |f| && f[..|name|] == name
    ensures HasIndexMarker(f)
  {
    assert f[..MarkerLength(name)] == name[..MarkerLength(name)];
    MarkerByPrefix(name, f);
  }

  /** A one-fragment input that emits gives exactly the one record. */
  lemma OneEmittingFragment(f: string, span: Span, item: MenuItem)
    requires HasIndexMarker(f) && SearchPrice(f) == Some(span)
    requires Emit("", f, f[span.start..span.end]) == item
    ensures ExtractMenu([f]) == [item]
  {
    RunOne(Start, f);
  }

  /** With nothing accumulated, a fragment whose text, less every copy of
      the token, strips to a normalized name gives the record
      `{name, token Kč}`. */
  lemma EmitAlone(f: string, token: string, name: string, item: MenuItem)
    requires Strip(RemoveAll(f, token)) == name && Normalized(name)
    requires item == MenuItem(name, token + CurrencySuffix)
    ensures Emit("", f, token) == item
  {
    var s := "" + " " + name;
    assert s[1..] == name;
    SplitLeadingSpace(s);
    NormalizedUnchanged(name);
  }

  /** The price search on `name + " " + token` finds exactly the token:
      a match cannot reach back over the space. */
  lemma PricedLineSearch(name: string, token: string)
    requires IsPriceToken(token)
    ensures SearchPrice(name + " " + token) == Some(Span(|name| + 1, |name| + 1 + |token|))
  {
    var f := name + " " + token;
    var j := |name| + 1;
    assert f[j..|f|] == token;
    assert PriceMatchAt(f, j, |f|);
    assert SearchPrice(f).Some?;
    var m := SearchPrice(f).value;
    assert m.start <= j && m.end == |f|;
    var t := f[m.start..|f|];
    assert IsPriceToken(t);
    assert forall i :: m.start <= i < |f| - 2 ==> IsDigit(f[i]) by {
      forall i | m.start <= i < |f| - 2 ensures IsDigit(f[i]) {
        assert t[..|t| - 2][i - m.start] == f[i];
      }
    }
    assert !IsDigit(f[|name|]);
  }

  lemma PricedLineRemoved(name: string, token: string)
    requires IsPriceToken(token)
    requires forall i :: 0 <= i <= |name| ==> !OccursAt(name + " " + token, token, i)
    ensures RemoveAll(name + " " + token, token) == name + " "
  {
    var f := name + " " + token;
    var j := |name| + 1;
    RemoveAllKeepsPrefix(f, token, j);
    assert f[..j] == name + " " && f[j..] == token;
    assert RemoveAll(token, token) == RemoveAll(token[|token|..], token) == "";
  }

  /** A fragment `f == name + " " + token`, where the marked, normalized
      `name` holds no copy of the token, passes the gate, its price search
      finds the token, and it emits `{name, token Kč}`: the index marker
      stays in the dish. */
  lemma PricedLine(name: string, token: string, f: string, item: MenuItem)
    requires HasIndexMarker(name) && Normalized(name) && IsPriceToken(token)
    requires forall i :: 0 <= i <= |name| ==> !OccursAt(name + " " + token, token, i)
    requires f == name + " " + token && item == MenuItem(name, token + CurrencySuffix)
    ensures ExtractMenu([f]) == [item]
  {
    var span := Span(|name| + 1, |f|);
    assert HasIndexMarker(f) by {
      assert f[..|name|] == name;
      MarkedLine(name, f);
    }
    assert SearchPrice(f) == Some(span) by {
      PricedLineSearch(name, token);
    }
    assert f[span.start..span.end] == token;
    assert Emit("", f, token) == item by {
      PricedLineRemoved(name, token);
      StripTrailingSpaces(name, " ");
      EmitAlone(f, token, name, item);
    }
    OneEmittingFragment(f, span, item);
  }

  lemma SvickovaName()
    ensures HasIndexMarker("1. Svíčková") && Normalized("1. Svíčková")
  {
    var ws := ["1.", "Svíčková"];
    assert IsWord(ws[0]) && IsWord(ws[1]);
    JoinNormalized(ws);
    assert Join(ws) == "1. Svíčková";
    assert "1. Svíčková"[1..][0] == '.';
    assert LeadingDigits("1. Svíčková"[1..]) == 0;
  }

  lemma SvickovaToken()
    ensures IsPriceToken("89,-")
    ensures forall i :: 0 <= i <= |"1. Svíčková"| ==> !OccursAt("1. Svíčková" + " " + "89,-", "89,-", i)
  {
    assert "89,-"[..2] == "89";
    var f := "1. Svíčková" + " " + "89,-";
    assert "89,-"[2] == ',';
    forall i | 0 <= i <= 11 ensures !OccursAt(f, "89,-", i) {
      assert f[i..i + 4][2] == f[i + 2] != ',';
    }
  }

  /** A single fragment with marker and price: the marker stays in the dish. */
  lemma SingleLineItem()
    ensures ExtractMenu(["1. Svíčková 89,-"]) == [MenuItem("1. Svíčková", "89,- Kč")]
  {
    SvickovaName();
    SvickovaToken();
    var f, item := "1. Svíčková 89,-", MenuItem("1. Svíčková", "89,- Kč");
    PricedLine("1. Svíčková", "89,-", f, item);
  }

  /** A continuation line without its own index marker is dropped by the
      gate, and the marked line before it never meets a price. */
  lemma ContinuationWithoutMarkerDropped()
    ensures ExtractMenu(["2. Guláš", "s knedlíkem 109,-"]) == []
  {
    var fs := ["2. Guláš", "s knedlíkem 109,-"];
    assert SearchPrice(fs[0]).None? by {
      assert fs[0][|fs[0]| - 1] == 'š';
    }
    assert !HasIndexMarker(fs[1]) by {
      assert LeadingDigits(fs[1]) == 0;
    }
    assert CountEmitting(fs) == 0 by {
      assert fs[1..] == [fs[1]] && fs[1..][1..] == [];
    }
    ExtractMenuCount(fs);
  }

  lemma KureName()
    ensures HasIndexMarker("1. Kuře") && Normalized("1. Kuře")
  {
    var ws := ["1.", "Kuře"];
    assert IsWord(ws[0]) && IsWord(ws[1]);
    JoinNormalized(ws);
    assert Join(ws) == "1. Kuře";
    assert "1. Kuře"[1..][0] == '.';
    assert LeadingDigits("1. Kuře"[1..]) == 0;
  }

  lemma KureToken()
    ensures IsPriceToken("99,-")
    ensures forall i :: 0 <= i <= |"1. Kuře"| ==> !OccursAt("1. Kuře" + " " + "99,-", "99,-", i)
  {
    assert "99,-"[..2] == "99";
    var f := "1. Kuře" + " " + "99,-";
    assert "99,-"[2] == ',';
    forall i | 0 <= i <= 7 ensures !OccursAt(f, "99,-", i) {
      assert f[i..i + 4][2] == f[i + 2] != ',';
    }
  }

  lemma KureLine()
    ensures ExtractMenu(["1. Kuře 99,-"]) == [MenuItem("1. Kuře", "99,- Kč")]
  {
    KureName();
    KureToken();
    var f, item := "1. Kuře 99,-", MenuItem("1. Kuře", "99,- Kč");
    PricedLine("1. Kuře", "99,-", f, item);
  }

  /** A trailing item without a price produces nothing: only the record of
      the line before it is returned. */
  lemma TrailingItemDropped()
    ensures ExtractMenu(["1. Kuře 99,-", "2. Ryba"]) == [MenuItem("1. Kuře", "99,- Kč")]
  {
    KureLine();
    assert CountEmitting(["2. Ryba"]) == 0 by {
      assert SearchPrice("2. Ryba").None?;
      assert ["2. Ryba"][1..] == [];
    }
    assert ["1. Kuře 99,-"] + ["2. Ryba"] == ["1. Kuře 99,-", "2. Ryba"];
    TrailingFragmentsDropped(["1. Kuře 99,-"], ["2. Ryba"]);
  }

  /** `replace(token, "")` deletes every copy of the token, not only the
      price at the end. */
  lemma EveryTokenCopyRemoved()
    ensures RemoveAll("1. A 5,- 5,-", "5,-") == "1. A  "
  {
    ShortToken();
    assert "1. A" + " " + "5,-" + " " + "5,-" == "1. A 5,- 5,-";
    RepeatedTokenRemoved("1. A", "5,-", "1. A 5,- 5,-");
  }

  /** Stripping removes any run of whitespace after a normalized name. */
  lemma {:induction false} StripTrailingSpaces(name: string, spaces: string)
    requires name != [] && Normalized(name)
    requires forall i :: 0 <= i < |spaces| ==> IsSpace(spaces[i])
    ensures Strip(name + spaces) == name
    decreases |spaces|
  {
    var s := name + spaces;
    assert !IsSpace(s[0]) && StripLeft(s) == s;
    if spaces == [] {
      assert s == name;
      assert !IsSpace(name[|name| - 1]);
    } else {
      var shorter := spaces[..|spaces| - 1];
      assert s[..|s| - 1] == name + shorter;
      StripTrailingSpaces(name, shorter);
    }
  }

  /** A fragment `name + " " + token + " " + token` emits the record
      `{name, token Kč}`: `replace` deletes both copies of the token, not only
      the one the price search found. */
  lemma RepeatedTokenLine(name: string, token: string, f: string, item: MenuItem)
    requires HasIndexMarker(name) && Normalized(name) && IsPriceToken(token)
    requires f == name + " " + token + " " + token
    requires forall i :: 0 <= i <= |name| ==> !OccursAt(f, token, i)
    requires item == MenuItem(name, token + CurrencySuffix)
    ensures ExtractMenu([f]) == [item]
  {
    var head := name + " " + token;
    var span := Span(|head| + 1, |head| + 1 + |token|);
    assert HasIndexMarker(f) by {
      assert f[..|name|] == name;
      MarkedLine(name, f);
    }
    assert SearchPrice(f) == Some(span) by {
      PricedLineSearch(head, token);
    }
    assert f[span.start..span.end] == token;
    assert Emit("", f, token) == item by {
      RepeatedTokenRemoved(name, token, f);
      StripTrailingSpaces(name, "  ");
      EmitAlone(f, token, name, item);
    }
    OneEmittingFragment(f, span, item);
  }

  lemma RepeatedTokenRemoved(name: string, token: string, f: string)
    requires IsPriceToken(token)
    requires f == name + " " + token + " " + token
    requires forall i :: 0 <= i <= |name| ==> !OccursAt(f, token, i)
    ensures RemoveAll(f, token) == name + "  "
  {
    var j := |name| + 1;
    var rest := token + " " + token;
    assert f == (name + " ") + rest;
    RemoveAllKeepsPrefix(f, token, j);
    assert f[..j] == name + " " && f[j..] == rest;
    TokenTwiceRemoved(token);
  }

  lemma TokenTwiceRemoved(token: string)
    requires IsPriceToken(token)
    ensures RemoveAll(token + " " + token, token) == " "
  {
    var rest := token + " " + token;
    assert rest[..|token|] == token && rest[|token|..] == " " + token;
    var tail := " " + token;
    assert tail[..|token|] != token by {
      assert tail[0] == ' ' && token[0] == token[..|token| - 2][0];
    }
    assert tail[1..] == token;
    assert RemoveAll(token, token) == RemoveAll(token[|token|..], token) == "";
  }

  lemma ShortName()
    ensures HasIndexMarker("1. A") && Normalized("1. A")
  {
    var ws := ["1.", "A"];
    assert IsWord(ws[0]) && IsWord(ws[1]);
    JoinNormalized(ws);
    assert Join(ws) == "1. A";
    assert "1. A"[1..][0] == '.';
    assert LeadingDigits("1. A"[1..]) == 0;
  }

  lemma ShortToken()
    ensures IsPriceToken("5,-")
    ensures forall i :: 0 <= i <= 4 ==> !OccursAt("1. A 5,- 5,-", "5,-", i)
  {
    assert "5,-"[..1] == "5";
    var f := "1. A 5,- 5,-";
    assert "5,-"[1] == ',';
    forall i | 0 <= i <= 4 ensures !OccursAt(f, "5,-", i) {
      assert f[i..i + 3][1] == f[i + 1] != ',';
    }
  }

  /** Both copies of the price token go, so the dish keeps no trace of the
      price text before the final one. */
  lemma TokenRepeatedInName()
    ensures ExtractMenu(["1. A 5,- 5,-"]) == [MenuItem("1. A", "5,- Kč")]
  {
    var f, item := "1. A 5,- 5,-", MenuItem("1. A", "5,- Kč");
    ShortName();
    ShortToken();
    RepeatedTokenLine("1. A", "5,-", f, item);
  }
}
