/**
 * The wording rules of `export_to_docx`: the label of a section, the caption
 * of a panel, the report's title, the name of the saved file, and the fixed
 * texts that stand in for a missing description or conclusion.
 */
module Labels {
  import opened Wrappers
  import opened PyStr
  import Reply
  import Capture

  const VutsLabel: string := "Casas rurales y viviendas de uso turístico"
  const HotelesLabel: string := "Hoteles, hostales y campings"
  const OficialesLabel: string := "Datos de fuentes oficiales"

  const DescriptionFailed: string := "(Fallo la descripción)"
  const ConclusionHeading: string := "Conclusión"
  const NoConclusion: string := "No se pudo generar una conclusión automática."
  const DocumentExtension: string := ".docx"

  // ---------------------------------------------------------------------
  // Section labels
  // ---------------------------------------------------------------------

  /** `tab.replace("-", " ").replace("100", "").replace("102", "").replace("103", "").strip()`. */
  function CleanTabName(A: Alphabet, tab: string): string
  {
    Strip(A, Replace(Replace(Replace(Replace(tab, "-", " "), "100", ""), "102", ""), "103", ""))
  }

  /** The section label: the cleaned, title-cased tab name, unless a keyword names a fixed label. */
  function SectionLabel(A: Alphabet, tab: string): string
  {
    var titled := Title(A, CleanTabName(A, tab));
    var low := Lower(A, titled);
    if Contains(low, "vuts") then VutsLabel
    else if Contains(low, "hoteles") then HotelesLabel
    else if Contains(low, "oficiales") then OficialesLabel
    else titled
  }

  /**
   * The keywords are looked for in the lower-cased cleaned name, title-casing
   * aside, in the order vuts, hoteles, oficiales; a name with none of them is
   * labelled by its title-cased form.
   */
  lemma SectionLabelRule(A: Alphabet, tab: string)
    requires WellFormed(A)
    ensures var low := Lower(A, CleanTabName(A, tab));
      && (Contains(low, "vuts") ==> SectionLabel(A, tab) == VutsLabel)
      && (!Contains(low, "vuts") && Contains(low, "hoteles") ==> SectionLabel(A, tab) == HotelesLabel)
      && (!Contains(low, "vuts") && !Contains(low, "hoteles") && Contains(low, "oficiales") ==>
            SectionLabel(A, tab) == OficialesLabel)
      && (!Contains(low, "vuts") && !Contains(low, "hoteles") && !Contains(low, "oficiales") ==>
            SectionLabel(A, tab) == Title(A, CleanTabName(A, tab)))
  {
    LowerOfTitle(A, CleanTabName(A, tab));
  }

  /** `replace` never introduces a character that is neither in the input nor in the replacement. */
  lemma {:induction false} ReplaceKeepsOut(s: string, pat: string, rep: string, c: char)
    requires pat != [] && c !in s && c !in rep
    ensures c !in Replace(s, pat, rep)
    decreases |s|
  {
    if StartsWith(s, pat) {
      assert forall k :: 0 <= k < |s| - |pat| ==> s[|pat|..][k] == s[k + |pat|];
      ReplaceKeepsOut(s[|pat|..], pat, rep, c);
    } else if s != [] {
      assert forall k :: 0 <= k < |s| - 1 ==> s[1..][k] == s[k + 1];
      ReplaceKeepsOut(s[1..], pat, rep, c);
    }
  }

  /** The cleaned tab name has no dash left, and no white space at either end. */
  lemma CleanTabNameShape(A: Alphabet, tab: string)
    ensures var clean := CleanTabName(A, tab);
      && '-' !in clean
      && (clean != [] ==> !A.isSpace(clean[0]) && !A.isSpace(clean[|clean| - 1]))
  {
    var s1 := Replace(tab, "-", " ");
    ReplaceCharIsMapChar(tab, '-', ' ');
    assert '-' !in s1;
    ReplaceKeepsOut(s1, "100", "", '-');
    var s2 := Replace(s1, "100", "");
    ReplaceKeepsOut(s2, "102", "", '-');
    var s3 := Replace(s2, "102", "");
    ReplaceKeepsOut(s3, "103", "", '-');
    var s4 := Replace(s3, "103", "");
    StripSlice(A, s4);
  }

  /**
   * A label that no keyword replaced has no dash left, and no white space at
   * either end.
   */
  lemma FallbackLabelShape(A: Alphabet, tab: string)
    requires WellFormed(A) && !A.isLetter('-')
    ensures var titled := Title(A, CleanTabName(A, tab));
      && (forall k :: 0 <= k < |titled| ==> titled[k] != '-')
      && (titled != [] ==> !A.isSpace(titled[0]) && !A.isSpace(titled[|titled| - 1]))
  {
    var clean := CleanTabName(A, tab);
    CleanTabNameShape(A, tab);
    var titled := Title(A, clean);
    forall k | 0 <= k < |titled|
      ensures titled[k] != '-'
    {
      var c := clean[k];
      assert c != '-';
      assert titled[k] == A.lower(c) || titled[k] == A.upper(c);
      if A.isLetter(c) {
        assert A.isLetter(A.lower(c)) && A.isLetter(A.upper(c));
      }
    }
    if titled != [] {
      TitleKeepsSpaces(A, clean, 0);
      TitleKeepsSpaces(A, clean, |clean| - 1);
    }
  }

  /** A pattern whose first character is nowhere in `s` does not occur in it. */
  lemma FirstCharAbsent(s: string, pat: string)
    requires pat != [] && pat[0] !in s
    ensures !Contains(s, pat)
  {
    forall k
      ensures !OccursAt(s, pat, k)
    {
      if 0 <= k && k + |pat| <= |s| {
        assert s[k..k + |pat|][0] == s[k];
      }
    }
    ContainsIff(s, pat);
  }

  // The holiday-rental tab, step by step. The strings are parameters
  // pinned by `requires`, so that the solver works on them one step at a time.

  lemma VutsTabDashes(tab: string, dashed: string)
    requires tab == "100-vuts" && dashed == "100 vuts"
    ensures Replace(tab, "-", " ") == dashed
  {
    ReplaceCharIsMapChar(tab, '-', ' ');
  }

  lemma VutsTabNumbers(dashed: string, rest: string)
    requires dashed == "100 vuts" && rest == " vuts"
    ensures Replace(dashed, "100", "") == rest
    ensures Replace(rest, "102", "") == rest
    ensures Replace(rest, "103", "") == rest
  {
    assert StartsWith(dashed, "100");
    assert dashed[3..] == rest;
    NoDigitNoNumber(rest, "100");
    NoDigitNoNumber(rest, "102");
    NoDigitNoNumber(rest, "103");
  }

  /** A number that starts with `1` is not removed from a string without a `1`. */
  lemma NoDigitNoNumber(s: string, number: string)
    requires '1' !in s && number != [] && number[0] == '1'
    ensures Replace(s, number, "") == s
  {
    FirstCharAbsent(s, number);
    ReplaceAbsent(s, number, "");
  }

  lemma VutsTabStrip(rest: string, clean: string)
    requires rest == " vuts" && clean == "vuts"
    ensures Strip(Latin, rest) == clean
  {
    assert rest[1..] == clean;
    assert Latin.isSpace(rest[0]);
    assert TrimStart(Latin, rest) == TrimStart(Latin, clean);
    assert !Latin.isSpace(clean[0]) && !Latin.isSpace(clean[|clean| - 1]);
  }

  lemma VutsTabLowered(clean: string)
    requires clean == "vuts"
    ensures Contains(Lower(Latin, clean), "vuts")
  {
    LatinLowerKeepsUncased(clean);
    assert OccursAt(clean, "vuts", 0);
    OccursThenContains(clean, "vuts", 0);
  }

  /** The holiday-rental tab of the dashboards gets its fixed label. */
  lemma VutsTabLabel(tab: string)
    requires tab == "100-vuts"
    ensures SectionLabel(Latin, tab) == VutsLabel
  {
    var dashed, rest, clean := "100 vuts", " vuts", "vuts";
    VutsTabDashes(tab, dashed);
    VutsTabNumbers(dashed, rest);
    VutsTabStrip(rest, clean);
    assert CleanTabName(Latin, tab) == clean;
    VutsTabLowered(clean);
    LatinWellFormed();
    SectionLabelRule(Latin, tab);
  }

  // ---------------------------------------------------------------------
  // Panel captions
  // ---------------------------------------------------------------------

  /** The position of the last dot of `s`, or -1. */
  function LastDot(s: string): (r: int)
    ensures -1 <= r < |s|
    ensures r >= 0 ==> s[r] == '.'
    ensures forall k :: r < k < |s| ==> s[k] != '.'
    decreases |s|
  {
    if s == [] then -1
    else if s[|s| - 1] == '.' then |s| - 1
    else LastDot(s[..|s| - 1])
  }

  /**
   * `os.path.splitext(file)[0]` for a bare file name: everything before the
   * last dot, unless only dots come before it (then the name has no extension).
   */
  function Stem(file: string): string
  {
    var d := LastDot(file);
    if d > 0 && exists j :: 0 <= j < d && file[j] != '.' then file[..d] else file
  }

  /** `os.path.splitext(file)[0].replace('_', ' ').title()`. */
  function Caption(A: Alphabet, file: string): string
  {
    Title(A, Replace(Stem(file), "_", " "))
  }

  /** The stem of `stem + ".png"` is `stem`, as long as `stem` is not all dots. */
  lemma StemOfImageName(stem: string)
    requires exists j :: 0 <= j < |stem| && stem[j] != '.'
    ensures Stem(stem + Capture.ImageExtension) == stem
  {
    var file := stem + Capture.ImageExtension;
    assert file[|stem|] == '.';
    assert LastDot(file) == |stem|;
    var j :| 0 <= j < |stem| && stem[j] != '.';
    assert file[j] != '.';
    assert file[..|stem|] == stem;
  }

  /**
   * The caption of a captured panel reads back its sanitised title with
   * underscores shown as blanks, title-cased.
   */
  lemma CaptionOfPanel(A: Alphabet, card: Capture.Card, i: nat)
    requires exists j :: 0 <= j < |Capture.Sanitize(Capture.PanelTitle(A, card, i))| &&
                         Capture.Sanitize(Capture.PanelTitle(A, card, i))[j] != '.'
    ensures Caption(A, Capture.PanelFileName(A, card, i)) ==
              Title(A, MapChar(Capture.Sanitize(Capture.PanelTitle(A, card, i)), '_', ' '))
  {
    var stem := Capture.Sanitize(Capture.PanelTitle(A, card, i));
    StemOfImageName(stem);
    ReplaceCharIsMapChar(stem, '_', ' ');
  }

  /** A caption never shows an underscore. */
  lemma CaptionHasNoUnderscore(A: Alphabet, file: string)
    requires WellFormed(A)
    ensures forall k :: 0 <= k < |Caption(A, file)| ==> Caption(A, file)[k] != '_'
  {
    var s := Replace(Stem(file), "_", " ");
    ReplaceCharIsMapChar(Stem(file), '_', ' ');
    var t := Title(A, s);
    forall k | 0 <= k < |t|
      ensures t[k] != '_'
    {
      var c := s[k];
      assert c != '_';
      if A.isLetter(c) {
        assert A.isLetter(A.lower(c)) && A.isLetter(A.upper(c));
      }
    }
  }

  // ---------------------------------------------------------------------
  // Report title and file name
  // ---------------------------------------------------------------------

  /** `f"Informe de {municipio.capitalize()}\n"`. */
  function ReportTitle(A: Alphabet, municipio: string): string
  {
    "Informe de " + Capitalize(A, municipio) + "\n"
  }

  /** The report of a folder named "docs" is titled "Informe de Docs". */
  lemma DocsReportTitle(name: string)
    requires name == "docs"
    ensures ReportTitle(Latin, name) == "Informe de Docs\n"
  {
    LatinLowerKeepsUncased("ocs");
    assert Capitalize(Latin, name) == "Docs";
  }

  /** `municipio.replace(" ", "_").lower()`. */
  function SafeName(A: Alphabet, municipio: string): string
  {
    Lower(A, Replace(municipio, " ", "_"))
  }

  /**
   * The safe name has one character per character of the name, no blank,
   * and making it safe again changes nothing.
   */
  lemma SafeNameProperties(A: Alphabet, municipio: string)
    requires WellFormed(A)
    ensures |SafeName(A, municipio)| == |municipio|
    ensures forall k :: 0 <= k < |municipio| ==> SafeName(A, municipio)[k] != ' '
    ensures SafeName(A, SafeName(A, municipio)) == SafeName(A, municipio)
  {
    ReplaceCharIsMapChar(municipio, ' ', '_');
    var r := SafeName(A, municipio);
    forall k | 0 <= k < |municipio|
      ensures r[k] != ' '
    {
      var c := MapChar(municipio, ' ', '_')[k];
      assert c != ' ';
      assert !A.isLetter(' ');
      if A.isLetter(c) {
        assert A.isLetter(A.lower(c));
      }
    }
    ReplaceCharIsMapChar(r, ' ', '_');
    assert MapChar(r, ' ', '_') == r;
    assert forall k :: 0 <= k < |r| ==> Lower(A, r)[k] == r[k];
  }

  // ---------------------------------------------------------------------
  // Fixed texts for missing replies
  // ---------------------------------------------------------------------

  /** The paragraph under a panel: the stripped description, or the failure notice. */
  function DescriptionText(A: Alphabet, description: Option<string>): string
  {
    if Reply.Truthy(description) then Strip(A, description.value) else DescriptionFailed
  }
}
