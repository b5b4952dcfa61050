# Lunch-menu reconstructor, modelled in Dafny

The script fetches a restaurant's daily-menu page, takes the text of every
menu element in document order and rebuilds `{Dish, Price}` records from
it. This project models the part of `main.py` that does the rebuilding:
`remove_extra_spaces` and the fragment loop of `extract_menu_data`. The
input is the sequence of fragment texts (`seq<string>`), so the HTML parsing
step is not part of the model.

The loop works like this:

- A fragment that does not start with an item-index marker (`^\d+\.`) is
  skipped.
- A marked fragment that ends in a price token (`(\d+,\-)$`) emits a record.
  Its `Price` is the token followed by `" Kč"`. Its `Dish` is the
  whitespace-collapsed text made of the accumulated text, a space, and the
  fragment with every copy of the token removed and stripped. The
  accumulator is then cleared.
- A marked fragment without a price is added to the accumulator, joined
  with a single space.
- Text still in the accumulator at the end is dropped.

Files:

- `pystr.dfy` (module `PyStr`) holds the Python string built-ins the loop
  uses: `split()`, `" ".join`, `strip()` and `replace(t, "")`. Whitespace is
  Python's `str.isspace()` set, code point by code point.
- `patterns.dfy` (module `Patterns`) holds the two regular expressions. The
  gate is `HasIndexMarker`. The price search is `SearchPrice`, whose contract
  is the leftmost match of `(\d+,\-)$`. Python's `$` also matches just
  before a final newline, and the model keeps that.
- `menu.dfy` (module `Menu`) holds `RemoveExtraSpaces`, the loop step `Step`
  and the fold `Run`. It also holds the method `ExtractMenuData`, which is
  the Python loop (with `continue`, `current_dish` and `menu_data`), proved
  to compute `ExtractMenu`.
- `menu_properties.dfy` (module `MenuProperties`) proves what the loop
  guarantees.
- `scenarios.dfy` (module `MenuScenarios`) works small concrete inputs
  through the model.

Two consequences of `main.py`'s own code are worth spelling out:

- `main.py:37` removes only the price token from the fragment, never the
  index marker. So the fragment `"1. Svíčková 89,-"` gives the dish
  `"1. Svíčková"` (`MenuScenarios.SingleLineItem`). In general every dish
  begins with the index marker of the fragment that started it
  (`MenuProperties.RecordKeepsMarker`).
- The gate at `main.py:30-31` runs before the price search at `main.py:34`.
  A continuation line without its own marker is discarded even when it
  carries the price. So `["2. Guláš", "s knedlíkem 109,-"]` gives no
  record: the first fragment waits in the accumulator and is dropped at the
  end (`MenuScenarios.ContinuationWithoutMarkerDropped`).

## Model

| member | source | states |
|---|---|---|
| `PyStr.Split` | main.py:17 | `text.split()`: every piece is non-empty and contains no whitespace |
| `PyStr.Join` | main.py:17 | `" ".join(words)` begins with the first word |
| `PyStr.SplitJoin` | main.py:17 | splitting a space-joined list of words gives the same words back |
| `PyStr.JoinSnoc` | main.py:43 | joining one more piece adds one space and that piece, which is how `current_dish` grows |
| `PyStr.StripLeft` | main.py:37 | `lstrip()` returns a suffix of its input; only whitespace is removed, and the result does not begin with whitespace |
| `PyStr.StripRight` | main.py:37 | `rstrip()` returns a prefix of its input; only whitespace is removed, and the result does not end with whitespace |
| `PyStr.Strip` | main.py:37 | `strip()` leaves no whitespace at either end |
| `PyStr.StripKeepsPrefix` | main.py:37 | stripping a string that begins with a non-space keeps every prefix that ends in a non-space |
| `PyStr.RemoveAll` | main.py:37 | `replace(token, "")` never lengthens the string |
| `PyStr.RemoveAllKeepsPrefix` | main.py:37 | `replace(token, "")` keeps unchanged any prefix in which no copy of the token begins |
| `PyStr.RemoveAllAbsent` | main.py:37 | when the token does not occur, `replace(token, "")` returns the string unchanged |
| `PyStr.SplitAppend` | main.py:38 | splitting two texts joined by a space gives the words of the first followed by the words of the second |
| `Patterns.HasIndexMarker` | main.py:30 | the gate `re.match(r"^\d+\.")` accepts exactly the strings that begin with one or more digits and then a dot |
| `Patterns.MarkerByPrefix` | main.py:30 | whether the gate passes depends only on the marker: any string starting with the same marker passes too |
| `Patterns.SearchPrice` | main.py:34 | `re.search(r"(\d+,\-)$")`: a found span is a match ending where `$` matches, and no match starts earlier; no result means no match anywhere |
| `Patterns.RemoveAllKeepsMarker` | main.py:30-37 | a price token cannot overlap the index marker, so removing all its copies keeps the marker character for character, with the same length |
| `Menu.RemoveExtraSpaces` | main.py:16-17 | the result is normalized (no whitespace at the ends, none other than `' '`, no two in a row) and has the same words as the input, in the same order |
| `Menu.RemoveExtraSpacesFixedPoints` | main.py:16-17 | a string is left unchanged exactly when it is normalized, so applying `remove_extra_spaces` twice gives the same result as once |
| `Menu.NormalizedUnchanged` | main.py:16-17 | a string that is already normalized is returned unchanged |
| `Menu.JoinNormalized` | main.py:17 | a space-joined list of words is normalized |
| `Menu.RemoveExtraSpacesKeepsMarker` | main.py:16-17 | a leading index marker survives whitespace collapsing character for character, with the same length |
| `Menu.Emit` | main.py:34-40 | the record for a priced fragment: its dish is normalized and holds the accumulated words followed by the words left in the fragment once every copy of the token is removed; a price token gives a `<digits>,- Kč` price. Its marker is stated by `MenuProperties.EmitWellFormed` |
| `Menu.Step` | main.py:29-43 | one iteration: a fragment without a marker changes nothing; otherwise at most one record is appended, exactly when the price search succeeds, the accumulator is then cleared, and without a record it only grows. `MenuProperties.StepConsistent` carries the invariant |
| `Menu.Run` | main.py:26-45 | the loop from any state keeps the records already there as a prefix and adds at most one per fragment; `MenuProperties.RunAppend` and `MenuProperties.RunAppendsRecords` carry the rest |
| `Menu.ExtractMenu` | main.py:20-45 | `extract_menu_data` returns at most one record per fragment; the exact count, the origin and the shape of each record are `MenuProperties.ExtractMenuCount`, `MenuProperties.RecordOrigin` and `MenuProperties.ExtractMenuWellFormed` |
| `Menu.ExtractMenuData` | main.py:20-45 | the loop (gate, price search, emit and reset, accumulate) returns exactly the fold `ExtractMenu` of its fragments |
| `MenuProperties.PriceTokenOf` | main.py:34-36 | the token of an emitting fragment is `<digits>,-`, and the fragment ends with it (or with it and a newline) |
| `MenuProperties.Pending` | main.py:41-43 | the fragments waiting for a price all passed the gate and carry no price |
| `MenuProperties.RunAppend` | main.py:26-43 | processing `xs + ys` is processing `xs`, then `ys` from the state it left |
| `MenuProperties.RunAppendsRecords` | main.py:22-39 | records are only appended: earlier records stay a prefix, and there is one new record per emitting fragment |
| `MenuProperties.ExtractMenuCount` | main.py:22-45 | the number of records equals the number of fragments with both a marker and a price; empty input gives no records |
| `MenuProperties.ExtractMenuPrefix` | main.py:26-45 | the records for a prefix of the input are a prefix of the records for the whole input |
| `MenuProperties.UnmarkedFragmentIgnored` | main.py:29-31 | inserting a fragment without a marker anywhere changes neither the accumulator nor the records |
| `MenuProperties.ExtractMenuMarkedOnly` | main.py:29-31 | dropping every fragment without a marker gives the same records |
| `MenuProperties.TrailingFragmentsDropped` | main.py:41-45 | fragments after the last emitting one add no record; their accumulated text is discarded |
| `MenuProperties.AccumulatorClearedOnEmit` | main.py:40 | after an emitting fragment the accumulator is empty |
| `MenuProperties.AccumulatorIsPending` | main.py:40-43 | the accumulator is the marked, price-less fragments since the last emit, joined by single spaces |
| `MenuProperties.RecordOrigin` | main.py:34-40 | the record for the emitting fragment at position j has index "number of emitting fragments before j". Its price is that fragment's token plus `" Kč"`. Its dish is `remove_extra_spaces(pending + " " + strip(replace(fragment, token, "")))` |
| `MenuProperties.EmitWellFormed` | main.py:36-38 | a record built after an empty or marked accumulator has a `<digits>,- Kč` price and a normalized dish; the dish begins with the accumulator's index marker, or with the fragment's own when the accumulator is empty |
| `MenuProperties.NameKeepsMarker` | main.py:37 | the fragment with every copy of the token removed and stripped still begins with the fragment's index marker |
| `MenuProperties.RecordKeepsMarker` | main.py:30-43 | the dish of the record for the emitting fragment at position j begins with the index marker of the first fragment waiting for a price, or of the fragment at j when none was waiting |
| `MenuProperties.StepConsistent` | main.py:26-43 | one loop iteration keeps the accumulator empty or marked and keeps every record well formed |
| `MenuProperties.RunConsistent` | main.py:26-45 | the whole loop keeps that invariant |
| `MenuProperties.ExtractMenuWellFormed` | main.py:30-39 | every price matches `<digits>,- Kč`; every dish is non-empty, normalized, and begins with an index marker (which one is `MenuProperties.RecordKeepsMarker`) |
| `MenuScenarios.PricedLine` | main.py:30-40 | a single fragment `name + " " + token`, with a marked, normalized name that holds no copy of the token, gives exactly the record `{name, token Kč}` |
| `MenuScenarios.RepeatedTokenLine` | main.py:34-40 | a single fragment `name + " " + token + " " + token` gives exactly `{name, token Kč}`: both copies of the token are removed |
| `MenuScenarios.SingleLineItem` | main.py:30-39 | `["1. Svíčková 89,-"]` gives exactly `{Dish: "1. Svíčková", Price: "89,- Kč"}` |
| `MenuScenarios.ContinuationWithoutMarkerDropped` | main.py:30-45 | `["2. Guláš", "s knedlíkem 109,-"]` gives no record |
| `MenuScenarios.TrailingItemDropped` | main.py:41-45 | `["1. Kuře 99,-", "2. Ryba"]` gives exactly `[{Dish: "1. Kuře", Price: "99,- Kč"}]` |
| `MenuScenarios.EveryTokenCopyRemoved` | main.py:37 | `"1. A 5,- 5,-".replace("5,-", "")` is `"1. A  "`: every copy goes, not only the final price |
| `MenuScenarios.TokenRepeatedInName` | main.py:34-40 | `["1. A 5,- 5,-"]` gives exactly `[{Dish: "1. A", Price: "5,- Kč"}]` |

## Left out

- `fetch_page_content` (main.py:48-55) is network I/O through `requests`, including how its errors propagate. It is not modelled.
- `save_to_json` and `main` (main.py:58-73) are file I/O and JSON formatting, including recovery from `IOError`. They are not modelled.
- Logging (main.py:9, 54, 62, 64, 70) is a side effect only and is not modelled.
- `soup.find_all("font", class_="wsw-02")` and `get_text(strip=True)` (main.py:21, 27) are BeautifulSoup internals. The model takes the fragment texts as its input, so nothing is assumed about them; in particular a fragment may have surrounding whitespace.
- `\d` in both patterns matches only the ASCII digits `0`-`9`. Python's `\d` on `str` also matches other Unicode decimal digits.
- `split()` and `strip()` use Python's `str.isspace()` code points. Nothing further is assumed about Unicode (no normalisation or case folding).
- The `MenuItem` record stands for the dictionary `{"Dish": ..., "Price": ...}`. Key order and the JSON encoding are not modelled.
