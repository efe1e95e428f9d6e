/**
 * Panel capture in `capture_dashboard`: which title each card gets, how that
 * title becomes a file name, and which files one dashboard tab produces.
 * The browser is reduced to what each card's title lookups return and to
 * whether its scroll, visibility wait and screenshot went through.
 */
module Capture {
  import opened PyStr

  /**
   * One card found on the page. `texts` maps a title selector to the text of
   * the element it finds inside the card; a selector missing from the map is
   * a lookup that raised. `captured` says whether scrolling the card into
   * view, waiting for it and taking its screenshot all succeeded.
   */
  datatype Card = Card(texts: map<string, string>, captured: bool)

  /** The title selectors, in the order they are tried. */
  const TitleSelectors: seq<string> := [
    "[data-testid='legend-caption-title']",
    "[data-testid='scalar-title']",
    ".Card-title",
    "h3",
    "h4"
  ]

  const FallbackPrefix: string := "grafico_"
  const MaxTitleLength: nat := 80
  /** The extension of every captured image; the relevance filter and the report keep only entries with it. */
  const ImageExtension: string := ".png"

  // ---------------------------------------------------------------------
  // Title resolution
  // ---------------------------------------------------------------------

  /** The lookup of `selector` succeeds and its stripped text is not empty. */
  predicate Yields(A: Alphabet, card: Card, selector: string)
  {
    selector in card.texts && Strip(A, card.texts[selector]) != []
  }

  /** Selector `k` is the first of `selectors` that yields a title. */
  predicate FirstYieldAt(A: Alphabet, card: Card, selectors: seq<string>, k: int)
  {
    0 <= k < |selectors| && Yields(A, card, selectors[k])
    && forall j :: 0 <= j < k ==> !Yields(A, card, selectors[j])
  }

  /** The title the selector loop leaves behind: "" when no selector yields one. */
  function FirstTitle(A: Alphabet, card: Card, selectors: seq<string>): string
    decreases |selectors|
  {
    if selectors == [] then []
    else if Yields(A, card, selectors[0]) then Strip(A, card.texts[selectors[0]])
    else FirstTitle(A, card, selectors[1..])
  }

  /** The loop's title is empty exactly when no selector yields one. */
  lemma {:induction false} FirstTitleEmptyIff(A: Alphabet, card: Card, selectors: seq<string>)
    ensures FirstTitle(A, card, selectors) == [] <==>
              forall k :: 0 <= k < |selectors| ==> !Yields(A, card, selectors[k])
    decreases |selectors|
  {
    if selectors != [] && !Yields(A, card, selectors[0]) {
      var rest := selectors[1..];
      FirstTitleEmptyIff(A, card, rest);
      assert forall k :: 0 < k < |selectors| ==> selectors[k] == rest[k - 1];
    }
  }

  /** The loop's title is the stripped text of the first selector that yields one. */
  lemma {:induction false} FirstTitleAtFirstYield(A: Alphabet, card: Card, selectors: seq<string>, k: int)
    requires FirstYieldAt(A, card, selectors, k)
    ensures FirstTitle(A, card, selectors) == Strip(A, card.texts[selectors[k]])
    decreases |selectors|
  {
    if k > 0 {
      var rest := selectors[1..];
      assert !Yields(A, card, selectors[0]);
      assert FirstYieldAt(A, card, rest, k - 1) by {
        forall j | 0 <= j < k - 1
          ensures !Yields(A, card, rest[j])
        {
          assert rest[j] == selectors[j + 1];
        }
      }
      FirstTitleAtFirstYield(A, card, rest, k - 1);
    }
  }

  /** A non-empty title comes from some first-yielding selector. */
  lemma {:induction false} FirstTitleHasFirstYield(A: Alphabet, card: Card, selectors: seq<string>)
    requires FirstTitle(A, card, selectors) != []
    ensures exists k :: FirstYieldAt(A, card, selectors, k)
    decreases |selectors|
  {
    if Yields(A, card, selectors[0]) {
      assert FirstYieldAt(A, card, selectors, 0);
    } else {
      var rest := selectors[1..];
      FirstTitleHasFirstYield(A, card, rest);
      var k :| FirstYieldAt(A, card, rest, k);
      assert forall j :: 0 < j <= k ==> selectors[j] == rest[j - 1];
      assert FirstYieldAt(A, card, selectors, k + 1);
    }
  }

  /**
   * The loop's title is the stripped text of the first selector that yields
   * one, and it is empty exactly when no selector does.
   */
  lemma FirstTitleIsFirstYield(A: Alphabet, card: Card, selectors: seq<string>)
    ensures FirstTitle(A, card, selectors) == [] <==>
              forall k :: 0 <= k < |selectors| ==> !Yields(A, card, selectors[k])
    ensures forall k :: FirstYieldAt(A, card, selectors, k) ==>
              FirstTitle(A, card, selectors) == Strip(A, card.texts[selectors[k]])
    ensures FirstTitle(A, card, selectors) != [] ==>
              exists k :: FirstYieldAt(A, card, selectors, k)
  {
    FirstTitleEmptyIff(A, card, selectors);
    forall k | FirstYieldAt(A, card, selectors, k)
      ensures FirstTitle(A, card, selectors) == Strip(A, card.texts[selectors[k]])
    {
      FirstTitleAtFirstYield(A, card, selectors, k);
    }
    if FirstTitle(A, card, selectors) != [] {
      FirstTitleHasFirstYield(A, card, selectors);
    }
  }

  /** `f"grafico_{i+1}"`: the title of the card at 0-based position `i` when no selector yields one. */
  function FallbackTitle(i: nat): (t: string)
  {
    FallbackPrefix + DecimalString(i + 1)
  }

  /** The fallback title names the card's 1-based position, and reads back as it. */
  lemma FallbackTitleNamesPosition(i: nat)
    ensures var t := FallbackTitle(i);
      StartsWith(t, FallbackPrefix)
      && (forall k :: |FallbackPrefix| <= k < |t| ==> IsDigit(t[k]))
      && (forall k :: 0 <= k < |t| ==> !IsIllegal(t[k]))
    ensures DecimalValue(FallbackTitle(i)[|FallbackPrefix|..]) == i + 1
  {
    var t := FallbackTitle(i);
    assert t[|FallbackPrefix|..] == DecimalString(i + 1);
    DecimalRoundTrip(i + 1);
    forall k | 0 <= k < |t|
      ensures !IsIllegal(t[k])
    {
      if k >= |FallbackPrefix| {
        assert t[k] == DecimalString(i + 1)[k - |FallbackPrefix|];
      }
    }
  }

  /** The title a card ends up with before sanitising. */
  function PanelTitle(A: Alphabet, card: Card, i: nat): string
  {
    var t := FirstTitle(A, card, TitleSelectors);
    if t != [] then t else FallbackTitle(i)
  }

  /** The selector loop, as `capture_dashboard` runs it on one card. */
  method ResolveTitle(A: Alphabet, card: Card, i: nat) returns (title: string)
    ensures title == PanelTitle(A, card, i)
    ensures title != []
  {
    title := [];
    var k := 0;
    while k < |TitleSelectors|
      invariant 0 <= k <= |TitleSelectors|
      invariant title == []
      invariant FirstTitle(A, card, TitleSelectors) == FirstTitle(A, card, TitleSelectors[k..])
    {
      var selector := TitleSelectors[k];
      assert TitleSelectors[k..][1..] == TitleSelectors[k + 1..];
      if selector in card.texts {
        title := Strip(A, card.texts[selector]);
        if title != [] {
          break;
        }
      }
      k := k + 1;
    }
    if title == [] {
      title := FallbackTitle(i);
    }
  }

  // ---------------------------------------------------------------------
  // Sanitising and the file name
  // ---------------------------------------------------------------------

  /** A character of the class `[<>:"/\\|?*\n\r\t]`. */
  predicate IsIllegal(c: char)
  {
    c in "<>:\"/\\|?*\n\r\t"
  }

  /**
   * `re.sub(r'[<>:"/\\|?*\n\r\t]', "_", title)[:80]`: illegal characters
   * become `_`, one for one, and the result is cut to 80 characters.
   */
  function Sanitize(title: string): (r: string)
    ensures |r| == if |title| <= MaxTitleLength then |title| else MaxTitleLength
    ensures forall k :: 0 <= k < |r| ==> !IsIllegal(r[k])
    ensures forall k :: 0 <= k < |r| && !IsIllegal(title[k]) ==> r[k] == title[k]
    ensures forall k :: 0 <= k < |r| && IsIllegal(title[k]) ==> r[k] == '_'
  {
    var replaced := seq(|title|, k requires 0 <= k < |title| => if IsIllegal(title[k]) then '_' else title[k]);
    if |replaced| <= MaxTitleLength then replaced else replaced[..MaxTitleLength]
  }

  /** Sanitising a sanitised title changes nothing. */
  lemma SanitizeIdempotent(title: string)
    ensures Sanitize(Sanitize(title)) == Sanitize(title)
  {
    var r := Sanitize(title);
    assert forall k :: 0 <= k < |r| ==> Sanitize(r)[k] == r[k];
  }

  /** A title that is short enough and has no illegal character is its own file stem. */
  lemma SanitizeKeepsCleanTitle(title: string)
    requires |title| <= MaxTitleLength
    requires forall k :: 0 <= k < |title| ==> !IsIllegal(title[k])
    ensures Sanitize(title) == title
  {
    assert forall k :: 0 <= k < |title| ==> Sanitize(title)[k] == title[k];
  }

  /** The name of the screenshot a card is saved under. */
  function PanelFileName(A: Alphabet, card: Card, i: nat): string
  {
    Sanitize(PanelTitle(A, card, i)) + ImageExtension
  }

  /** Every file name is a non-empty stem of at most 80 legal characters followed by `.png`. */
  lemma PanelFileNameShape(A: Alphabet, card: Card, i: nat)
    ensures var name := PanelFileName(A, card, i);
      EndsWith(name, ImageExtension)
      && 1 <= |name| - |ImageExtension| <= MaxTitleLength
      && forall k :: 0 <= k < |name| - |ImageExtension| ==> !IsIllegal(name[k])
  {
    var name := PanelFileName(A, card, i);
    var stem := Sanitize(PanelTitle(A, card, i));
    assert name[|name| - |ImageExtension|..] == ImageExtension;
    assert PanelTitle(A, card, i) != [] by {
      if FirstTitle(A, card, TitleSelectors) == [] {
        assert FallbackTitle(i) != [];
      }
    }
    assert forall k :: 0 <= k < |stem| ==> name[k] == stem[k];
  }

  /** A card on which no selector yields a title is saved as `grafico_{i+1}.png`. */
  lemma UntitledCardFileName(A: Alphabet, card: Card, i: nat)
    requires forall k :: 0 <= k < |TitleSelectors| ==> !Yields(A, card, TitleSelectors[k])
    requires |FallbackTitle(i)| <= MaxTitleLength
    ensures PanelFileName(A, card, i) == FallbackPrefix + DecimalString(i + 1) + ImageExtension
  {
    FirstTitleIsFirstYield(A, card, TitleSelectors);
    FallbackTitleNamesPosition(i);
    SanitizeKeepsCleanTitle(FallbackTitle(i));
  }

  // ---------------------------------------------------------------------
  // One tab: every card in discovery order
  // ---------------------------------------------------------------------

  /** The files written for `cards`, in order: one per card whose capture went through. */
  function CapturedFiles(A: Alphabet, cards: seq<Card>): seq<string>
    decreases |cards|
  {
    if cards == [] then []
    else
      var n := |cards| - 1;
      CapturedFiles(A, cards[..n]) + (if cards[n].captured then [PanelFileName(A, cards[n], n)] else [])
  }

  /**
   * `capture_dashboard` after the page has loaded: the cards of the generic
   * pattern followed by those of the standalone pattern, each given its title
   * and saved; a card whose capture fails is skipped and the loop goes on.
   */
  method CaptureDashboard(A: Alphabet, generic: seq<Card>, standalone: seq<Card>) returns (written: seq<string>)
    ensures written == CapturedFiles(A, generic + standalone)
  {
    var cards := generic + standalone;
    written := [];
    for i := 0 to |cards|
      invariant written == CapturedFiles(A, cards[..i])
    {
      CapturedFilesSnoc(A, cards, i);
      var card := cards[i];
      if card.captured {
        var title := ResolveTitle(A, card, i);
        var cleanTitle := Sanitize(title);
        written := written + [cleanTitle + ImageExtension];
      }
    }
    assert cards[..|cards|] == cards;
  }

  /** The files of one more card are those of the cards before it, then its own if it was captured. */
  lemma CapturedFilesSnoc(A: Alphabet, cards: seq<Card>, i: nat)
    requires i < |cards|
    ensures CapturedFiles(A, cards[..i + 1])
         == CapturedFiles(A, cards[..i]) + (if cards[i].captured then [PanelFileName(A, cards[i], i)] else [])
  {
    assert cards[..i + 1][..i] == cards[..i];
  }

  /**
   * The files of a tab are exactly the captured cards' file names, in
   * discovery order: the j-th file belongs to the j-th captured card, and
   * a failed card neither gets a file nor shifts the names of the others.
   */
  lemma {:induction false} CapturedFilesAreCapturedCards(A: Alphabet, cards: seq<Card>)
    ensures |CapturedFiles(A, cards)| == |CapturedIndices(cards)|
    ensures forall j :: 0 <= j < |CapturedIndices(cards)| ==>
              CapturedFiles(A, cards)[j] == PanelFileName(A, cards[CapturedIndices(cards)[j]], CapturedIndices(cards)[j])
    decreases |cards|
  {
    if cards != [] {
      var n := |cards| - 1;
      CapturedFilesAreCapturedCards(A, cards[..n]);
      CapturedIndicesPrefix(cards);
    }
  }

  /** The positions of the cards whose capture went through, in increasing order. */
  function CapturedIndices(cards: seq<Card>): (r: seq<nat>)
    ensures forall j :: 0 <= j < |r| ==> r[j] < |cards| && cards[r[j]].captured
    ensures forall j, l :: 0 <= j < l < |r| ==> r[j] < r[l]
    ensures forall k :: 0 <= k < |cards| && cards[k].captured ==> k in r
    decreases |cards|
  {
    if cards == [] then []
    else
      var n := |cards| - 1;
      var prefix := CapturedIndices(cards[..n]);
      assert forall k :: 0 <= k < n ==> cards[..n][k] == cards[k];
      prefix + (if cards[n].captured then [n] else [])
  }

  lemma CapturedIndicesPrefix(cards: seq<Card>)
    requires cards != []
    ensures var n := |cards| - 1;
      CapturedIndices(cards) == CapturedIndices(cards[..n]) + (if cards[n].captured then [n] else [])
    ensures forall k :: 0 <= k < |cards| - 1 ==> cards[..|cards| - 1][k] == cards[k]
  {
  }
}
