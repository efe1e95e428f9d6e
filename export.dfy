/**
 * `export_to_docx`: the report built from the output folder. The document
 * library is reduced to the sequence of blocks added to the body and the
 * footer logo; the folders are given as their listings; the generation
 * service is given as its replies.
 */
module Export {
  import opened Wrappers
  import opened PyStr
  import Reply
  import Relevance
  import Capture
  import Labels

  /** A municipio folder: its listing, and the listing of each entry that is a folder (a tab). */
  datatype MunicipioDir = MunicipioDir(listing: seq<string>, tabs: map<string, seq<string>>)

  /** The output folder: its listing, and each entry that is a folder. */
  datatype OutputDir = OutputDir(listing: seq<string>, folders: map<string, MunicipioDir>)

  /** The service's replies about the images of each tab folder of each municipio folder. */
  type Oracle = map<string, map<string, Relevance.Replies>>

  /** What `export_to_docx` adds to a document body, in the order it adds it. */
  datatype Block =
    | TitleBlock(text: string)
    | Paragraph(text: string)
    | PreambleParagraph(question: string)  // the paragraph whose text is `PreambleText(question)`
    | SectionHeading(text: string)
    | PanelCaption(text: string)
    | PanelImage(municipio: string, tab: string, file: string)
    | Heading1(text: string)

  datatype Doc = Doc(body: seq<Block>, footerLogo: Option<string>)

  /** A saved document and the name of the file it is saved under. */
  datatype SavedDoc = SavedDoc(fileName: string, doc: Doc)

  /** After the loop `doc` and `municipio` are unbound when the output folder lists no folder. */
  datatype ExportError = NameUnbound

  /** The folder the documents are written to, created inside the output folder. */
  const DocsFolder: string := "docs"

  /** The folder `docx_to_pdf` writes to, also inside the output folder. */
  const PdfFolder: string := "pdf"

  const PreambleHead: string :=
    "Este informe presenta información turística específica del municipio, con el objetivo de responder a la siguiente pregunta clave:\n"
  const PreambleTail: string :=
    "\nPara ello, se han seleccionado y analizado visualizaciones relevantes que permiten identificar tendencias y patrones relacionados. "
    + "El análisis busca proporcionar evidencia clara y útil para la toma de decisiones estratégicas en el ámbito turístico."

  /** The preamble's text: the fixed introduction with the question inserted as given. */
  function PreambleText(question: string): (r: string)
    ensures |r| == |PreambleHead| + |question| + |PreambleTail|
    ensures StartsWith(r, PreambleHead) && EndsWith(r, PreambleTail)
    ensures r[|PreambleHead|..|PreambleHead| + |question|] == question
  {
    PreambleHead + question + PreambleTail
  }

  /** `logo_path and os.path.exists(logo_path)`: the footer carries the logo only then. */
  function FooterLogo(logo: Option<string>, logoExists: bool): Option<string>
  {
    if logo.Some? && logo.value != [] && logoExists then logo else None
  }

  /** The replies about the images of one tab folder. */
  function AskFor(o: Oracle, municipio: string, tab: string): Relevance.Replies
  {
    if municipio in o && tab in o[municipio] then o[municipio][tab] else map[]
  }

  /** The service's reply about the image `file` of a tab folder of a municipio folder. */
  function Ask(o: Oracle, municipio: string, tab: string, file: string): Option<string>
  {
    Relevance.ReplyTo(AskFor(o, municipio, tab), file)
  }

  // ---------------------------------------------------------------------
  // The body of one municipio's report
  // ---------------------------------------------------------------------

  /** One selected panel: its caption, its image, and its description or the failure notice. */
  function PanelBlocks(A: Alphabet, municipio: string, tab: string, file: string, describe: Oracle): seq<Block>
  {
    [ PanelCaption(Labels.Caption(A, file)),
      PanelImage(municipio, tab, file),
      Paragraph(Labels.DescriptionText(A, Ask(describe, municipio, tab, file))) ]
  }

  function PanelsBlocks(A: Alphabet, municipio: string, tab: string, files: seq<string>, describe: Oracle): seq<Block>
    decreases |files|
  {
    if files == [] then []
    else
      var n := |files| - 1;
      PanelsBlocks(A, municipio, tab, files[..n], describe) + PanelBlocks(A, municipio, tab, files[n], describe)
  }

  /** One tab: its label, then every selected panel. */
  function SectionBlocks(A: Alphabet, municipio: string, tab: string, listing: seq<string>,
                         verdict: Oracle, describe: Oracle): seq<Block>
  {
    [SectionHeading(Labels.SectionLabel(A, tab))]
    + PanelsBlocks(A, municipio, tab, Relevance.Relevant(A, listing, AskFor(verdict, municipio, tab)), describe)
  }

  /** The sections for the entries `names` of a municipio folder; entries that are not folders add nothing. */
  function TabsBlocks(A: Alphabet, municipio: string, dir: MunicipioDir, names: seq<string>,
                      verdict: Oracle, describe: Oracle): seq<Block>
    decreases |names|
  {
    if names == [] then []
    else
      var n := |names| - 1;
      TabsBlocks(A, municipio, dir, names[..n], verdict, describe)
      + (if names[n] in dir.tabs then SectionBlocks(A, municipio, names[n], dir.tabs[names[n]], verdict, describe) else [])
  }

  function ReportHead(A: Alphabet, municipio: string, question: string): seq<Block>
  {
    [TitleBlock(Labels.ReportTitle(A, municipio)), PreambleParagraph(question)]
  }

  /** The body of a municipio's report before any conclusion: title, preamble, then its tabs in sorted order. */
  function MunicipioBody(A: Alphabet, municipio: string, dir: MunicipioDir, question: string,
                         verdict: Oracle, describe: Oracle): seq<Block>
  {
    ReportHead(A, municipio, question) + TabsBlocks(A, municipio, dir, Sorted(dir.listing), verdict, describe)
  }

  /** The closing blocks: a heading and the stripped conclusion, or the fixed notice. */
  function ConclusionBlocks(A: Alphabet, conclusion: Option<string>): seq<Block>
  {
    if Reply.Truthy(conclusion) then [Heading1(Labels.ConclusionHeading), Paragraph(Strip(A, conclusion.value))]
    else [Paragraph(Labels.NoConclusion)]
  }

  // ---------------------------------------------------------------------
  // The whole export, as written
  // ---------------------------------------------------------------------

  /** The document `doc` holds after the loop has seen `names`: that of the last folder among them. */
  function LastFolderDoc(A: Alphabet, out: OutputDir, names: seq<string>, question: string, footer: Option<string>,
                         verdict: Oracle, describe: Oracle): (r: Option<Doc>)
    ensures r.Some? ==> names != []
    decreases |names|
  {
    if names == [] then None
    else
      var n := |names| - 1;
      if names[n] in out.folders then
        Some(Doc(MunicipioBody(A, names[n], out.folders[names[n]], question, verdict, describe), footer))
      else LastFolderDoc(A, out, names[..n], question, footer, verdict, describe)
  }

  /**
   * The file `export_to_docx` saves. The conclusion and the save come after
   * the loop over the output folder, so they apply to the document of the
   * last folder listed, and the file is named after the last entry listed.
   */
  function ExportAsWritten(A: Alphabet, out: OutputDir, question: string, logo: Option<string>, logoExists: bool,
                           verdict: Oracle, describe: Oracle, conclusion: Option<string>): Result<SavedDoc, ExportError>
  {
    match LastFolderDoc(A, out, out.listing, question, FooterLogo(logo, logoExists), verdict, describe)
    case None => Failure(NameUnbound)
    case Some(doc) =>
      var municipio := out.listing[|out.listing| - 1];
      Success(SavedDoc(Labels.SafeName(A, municipio) + Labels.DocumentExtension,
                       Doc(doc.body + ConclusionBlocks(A, conclusion), doc.footerLogo)))
  }

  /** One selected panel: its caption, its image, then its description or the failure notice. */
  method AppendPanel(A: Alphabet, municipio: string, tab: string, file: string, describe: Oracle,
                     body: seq<Block>) returns (body': seq<Block>)
    ensures body' == body + PanelBlocks(A, municipio, tab, file, describe)
  {
    body' := body + [PanelCaption(Labels.Caption(A, file))];
    body' := body' + [PanelImage(municipio, tab, file)];
    var description := Ask(describe, municipio, tab, file);
    var text;
    if description.Some? && description.value != [] {
      text := Strip(A, description.value);
    } else {
      text := Labels.DescriptionFailed;
    }
    body' := body' + [Paragraph(text)];
  }

  /** The inner loop of `export_to_docx`: each selected panel's caption, image and description. */
  method AppendPanels(A: Alphabet, municipio: string, tab: string, selected: seq<string>, describe: Oracle,
                      body: seq<Block>) returns (body': seq<Block>)
    ensures body' == body + PanelsBlocks(A, municipio, tab, selected, describe)
  {
    body' := body;
    for l := 0 to |selected|
      invariant body' == body + PanelsBlocks(A, municipio, tab, selected[..l], describe)
    {
      assert selected[..l + 1][..l] == selected[..l];
      AppendAssoc(body, PanelsBlocks(A, municipio, tab, selected[..l], describe),
                  PanelBlocks(A, municipio, tab, selected[l], describe));
      body' := AppendPanel(A, municipio, tab, selected[l], describe, body');
    }
    assert selected[..|selected|] == selected;
  }

  /** One tab folder: its label, then the panels the relevance filter keeps. */
  method AppendSection(A: Alphabet, municipio: string, tab: string, listing: seq<string>, verdict: Oracle,
                       describe: Oracle, body: seq<Block>) returns (body': seq<Block>)
    ensures body' == body + SectionBlocks(A, municipio, tab, listing, verdict, describe)
  {
    var heading := [SectionHeading(Labels.SectionLabel(A, tab))];
    var selected := Relevance.SelectRelevantImages(A, listing, AskFor(verdict, municipio, tab));
    SectionBlocksParts(A, municipio, tab, listing, verdict, describe, heading, selected);
    var start := body + heading;
    body' := AppendPanels(A, municipio, tab, selected, describe, start);
  }

  /** A section is its heading followed by the blocks of its selected panels. */
  lemma SectionBlocksParts(A: Alphabet, municipio: string, tab: string, listing: seq<string>, verdict: Oracle,
                           describe: Oracle, heading: seq<Block>, selected: seq<string>)
    requires heading == [SectionHeading(Labels.SectionLabel(A, tab))]
    requires selected == Relevance.Relevant(A, listing, AskFor(verdict, municipio, tab))
    ensures SectionBlocks(A, municipio, tab, listing, verdict, describe)
         == heading + PanelsBlocks(A, municipio, tab, selected, describe)
  {
  }

  /** The loop over the sub-folders of a municipio folder, in the order given. */
  method AppendTabs(A: Alphabet, municipio: string, dir: MunicipioDir, tabs: seq<string>, verdict: Oracle,
                    describe: Oracle, body: seq<Block>) returns (body': seq<Block>)
    ensures body' == body + TabsBlocks(A, municipio, dir, tabs, verdict, describe)
  {
    body' := body;
    assert TabsBlocks(A, municipio, dir, tabs[..0], verdict, describe) == [];
    for j := 0 to |tabs|
      invariant body' == body + TabsBlocks(A, municipio, dir, tabs[..j], verdict, describe)
    {
      TabsBlocksSnoc(A, municipio, dir, tabs, j, verdict, describe);
      var tab := tabs[j];
      if tab in dir.tabs {
        AppendAssoc(body, TabsBlocks(A, municipio, dir, tabs[..j], verdict, describe),
                    SectionBlocks(A, municipio, tab, dir.tabs[tab], verdict, describe));
        body' := AppendSection(A, municipio, tab, dir.tabs[tab], verdict, describe, body');
      }
    }
    assert tabs[..|tabs|] == tabs;
  }

  /** Adding two runs of blocks one after the other adds the two together. */
  lemma AppendAssoc(a: seq<Block>, b: seq<Block>, c: seq<Block>)
    ensures a + b + c == a + (b + c)
  {
  }

  /** The sections of one more entry are those of the entries before it, then its own. */
  lemma TabsBlocksSnoc(A: Alphabet, municipio: string, dir: MunicipioDir, tabs: seq<string>, j: nat,
                       verdict: Oracle, describe: Oracle)
    requires j < |tabs|
    ensures TabsBlocks(A, municipio, dir, tabs[..j + 1], verdict, describe)
         == TabsBlocks(A, municipio, dir, tabs[..j], verdict, describe)
            + (if tabs[j] in dir.tabs then SectionBlocks(A, municipio, tabs[j], dir.tabs[tabs[j]], verdict, describe) else [])
  {
    assert tabs[..j + 1][..j] == tabs[..j];
  }

  /** One municipio's document: title, preamble, footer logo, then a section per sub-folder in sorted order. */
  method BuildReport(A: Alphabet, municipio: string, dir: MunicipioDir, question: string, logo: Option<string>,
                     logoExists: bool, verdict: Oracle, describe: Oracle) returns (doc: Doc)
    ensures doc == Doc(MunicipioBody(A, municipio, dir, question, verdict, describe), FooterLogo(logo, logoExists))
  {
    var body := [TitleBlock(Labels.ReportTitle(A, municipio))];
    body := body + [PreambleParagraph(question)];
    var footer := None;
    if logo.Some? && logo.value != [] && logoExists {
      footer := logo;
    }
    assert body == ReportHead(A, municipio, question);
    body := AppendTabs(A, municipio, dir, Sorted(dir.listing), verdict, describe, body);
    doc := Doc(body, footer);
  }

  /**
   * `export_to_docx`: a fresh document for every folder of the output
   * folder; after the loop the last document gets the conclusion and is
   * saved under the name of the last entry listed.
   */
  method ExportToDocx(A: Alphabet, out: OutputDir, question: string, logo: Option<string>, logoExists: bool,
                      verdict: Oracle, describe: Oracle, conclusion: Option<string>)
    returns (r: Result<SavedDoc, ExportError>)
    ensures r == ExportAsWritten(A, out, question, logo, logoExists, verdict, describe, conclusion)
  {
    var doc: Option<Doc> := None;
    var municipio: Option<string> := None;
    for k := 0 to |out.listing|
      invariant doc == LastFolderDoc(A, out, out.listing[..k], question, FooterLogo(logo, logoExists), verdict, describe)
      invariant municipio == if k == 0 then None else Some(out.listing[k - 1])
    {
      LastFolderDocSnoc(A, out, out.listing, k, question, FooterLogo(logo, logoExists), verdict, describe);
      var name := out.listing[k];
      municipio := Some(name);
      if name in out.folders {
        var report := BuildReport(A, name, out.folders[name], question, logo, logoExists, verdict, describe);
        doc := Some(report);
      }
    }
    assert out.listing[..|out.listing|] == out.listing;
    if doc.None? {
      return Failure(NameUnbound);
    }
    assert municipio == Some(out.listing[|out.listing| - 1]);
    var body := AppendConclusion(A, doc.value.body, conclusion);
    var safeMunicipio := Labels.SafeName(A, municipio.value);
    r := Success(SavedDoc(safeMunicipio + Labels.DocumentExtension, Doc(body, doc.value.footerLogo)));
  }

  /** The document of one more entry: its own report if it is a folder, else the one before. */
  lemma LastFolderDocSnoc(A: Alphabet, out: OutputDir, names: seq<string>, k: nat, question: string,
                          footer: Option<string>, verdict: Oracle, describe: Oracle)
    requires k < |names|
    ensures LastFolderDoc(A, out, names[..k + 1], question, footer, verdict, describe)
         == if names[k] in out.folders
            then Some(Doc(MunicipioBody(A, names[k], out.folders[names[k]], question, verdict, describe), footer))
            else LastFolderDoc(A, out, names[..k], question, footer, verdict, describe)
  {
    assert names[..k + 1][..k] == names[..k];
  }

  /** The close of the document: the conclusion under its heading, or the notice when there is none. */
  method AppendConclusion(A: Alphabet, body: seq<Block>, conclusion: Option<string>) returns (body': seq<Block>)
    ensures body' == body + ConclusionBlocks(A, conclusion)
  {
    if conclusion.Some? && conclusion.value != [] {
      body' := body + [Heading1(Labels.ConclusionHeading)];
      body' := body' + [Paragraph(Strip(A, conclusion.value))];
    } else {
      body' := body + [Paragraph(Labels.NoConclusion)];
    }
  }

  // ---------------------------------------------------------------------
  // What a report shows
  // ---------------------------------------------------------------------

  /** The images a body shows, in order. */
  function Images(body: seq<Block>): seq<string>
    decreases |body|
  {
    if body == [] then []
    else
      var n := |body| - 1;
      Images(body[..n]) + (if body[n].PanelImage? then [body[n].file] else [])
  }

  lemma {:induction false} ImagesAppend(a: seq<Block>, b: seq<Block>)
    ensures Images(a + b) == Images(a) + Images(b)
    decreases |b|
  {
    if b == [] {
      assert a + b == a;
    } else {
      var n := |b| - 1;
      var ab := a + b;
      assert ab[..|ab| - 1] == a + b[..n];
      assert ab[|ab| - 1] == b[n];
      ImagesAppend(a, b[..n]);
    }
  }

  /** Every selected panel takes three blocks. */
  lemma {:induction false} PanelsBlocksLength(A: Alphabet, municipio: string, tab: string, files: seq<string>,
                                              describe: Oracle)
    ensures |PanelsBlocks(A, municipio, tab, files, describe)| == 3 * |files|
    decreases |files|
  {
    if files != [] {
      PanelsBlocksLength(A, municipio, tab, files[..|files| - 1], describe);
    }
  }

  /** The blocks of the first `j` selected panels are the first `3 * j` blocks. */
  lemma {:induction false} PanelsBlocksPrefix(A: Alphabet, municipio: string, tab: string, files: seq<string>,
                                              describe: Oracle, j: nat)
    requires j <= |files|
    ensures |PanelsBlocks(A, municipio, tab, files, describe)| == 3 * |files|
    ensures PanelsBlocks(A, municipio, tab, files, describe)[..3 * j] == PanelsBlocks(A, municipio, tab, files[..j], describe)
    decreases |files|
  {
    if j < |files| {
      var n := |files| - 1;
      var init := files[..n];
      PanelsBlocksPrefix(A, municipio, tab, init, describe, j);
      PrefixOfPrefix(files, n, j);
      var front := PanelsBlocks(A, municipio, tab, init, describe);
      var last := PanelBlocks(A, municipio, tab, files[n], describe);
      assert PanelsBlocks(A, municipio, tab, files, describe) == front + last;
      TakeOfAppend(front, last, 3 * j);
    } else {
      PanelsBlocksLength(A, municipio, tab, files, describe);
      assert files[..j] == files;
    }
  }

  /**
   * Every selected panel takes three blocks, in selection order: its caption,
   * its image, and then its stripped description or, when the service gave
   * none or an empty one, the failure notice.
   */
  lemma PanelsBlocksAt(A: Alphabet, municipio: string, tab: string, files: seq<string>, describe: Oracle, j: nat)
    requires j < |files|
    ensures |PanelsBlocks(A, municipio, tab, files, describe)| == 3 * |files|
    ensures PanelsBlocks(A, municipio, tab, files, describe)[3 * j..3 * j + 3] == PanelBlocks(A, municipio, tab, files[j], describe)
  {
    PanelsBlocksPrefix(A, municipio, tab, files, describe, j + 1);
    var upto := files[..j + 1];
    PrefixOfPrefix(files, j + 1, j);
    assert upto[j] == files[j];
    PanelsBlocksLength(A, municipio, tab, files[..j], describe);
    assert PanelsBlocks(A, municipio, tab, upto, describe)
        == PanelsBlocks(A, municipio, tab, files[..j], describe) + PanelBlocks(A, municipio, tab, files[j], describe);
    SliceAfter(PanelsBlocks(A, municipio, tab, files, describe), PanelsBlocks(A, municipio, tab, files[..j], describe),
               PanelBlocks(A, municipio, tab, files[j], describe), 3 * j + 3);
  }

  lemma SnocLast(s: seq<string>)
    requires s != []
    ensures s[..|s| - 1] + [s[|s| - 1]] == s
  {
  }

  lemma PrefixOfPrefix(s: seq<string>, n: nat, j: nat)
    requires j <= n <= |s|
    ensures s[..n][..j] == s[..j]
  {
  }

  lemma TakeOfAppend(a: seq<Block>, b: seq<Block>, m: nat)
    requires m <= |a|
    ensures (a + b)[..m] == a[..m]
  {
  }

  /** When `p` starts with `a + b`, the blocks after `a` up to the end of `b` are `b`. */
  lemma SliceAfter(p: seq<Block>, a: seq<Block>, b: seq<Block>, m: nat)
    requires m <= |p| && p[..m] == a + b
    ensures p[|a|..m] == b
  {
    assert p[|a|..m] == p[..m][|a|..];
  }

  /** The images of the selected panels are the selected files, in order. */
  lemma {:induction false} ImagesOfPanels(A: Alphabet, municipio: string, tab: string, files: seq<string>, describe: Oracle)
    ensures Images(PanelsBlocks(A, municipio, tab, files, describe)) == files
    decreases |files|
  {
    if files != [] {
      var n := |files| - 1;
      var front := PanelsBlocks(A, municipio, tab, files[..n], describe);
      var last := PanelBlocks(A, municipio, tab, files[n], describe);
      assert PanelsBlocks(A, municipio, tab, files, describe) == front + last;
      ImagesOfPanels(A, municipio, tab, files[..n], describe);
      ImagesAppend(front, last);
      ImagesOfPanel(A, municipio, tab, files[n], describe);
      SnocLast(files);
    }
  }

  /** A panel shows its own image and no other. */
  lemma ImagesOfPanel(A: Alphabet, municipio: string, tab: string, file: string, describe: Oracle)
    ensures Images(PanelBlocks(A, municipio, tab, file, describe)) == [file]
  {
    var blocks := PanelBlocks(A, municipio, tab, file, describe);
    var two, one := blocks[..2], blocks[..1];
    assert two[..1] == one && one[..0] == [];
    assert Images(one) == [];
    assert Images(two) == [file];
    assert blocks[..2] == two && !blocks[2].PanelImage?;
  }

  /**
   * A section shows exactly the `.png` files of its folder whose verdict is
   * positive, in folder order: no image with a negative verdict, and none
   * with a positive one left out.
   */
  lemma SectionShowsExactlyRelevantPanels(A: Alphabet, municipio: string, tab: string, listing: seq<string>,
                                          verdict: Oracle, describe: Oracle)
    ensures Images(SectionBlocks(A, municipio, tab, listing, verdict, describe))
            == Relevance.Relevant(A, listing, AskFor(verdict, municipio, tab))
    ensures forall file :: file in Images(SectionBlocks(A, municipio, tab, listing, verdict, describe)) <==>
              file in listing && EndsWith(file, Capture.ImageExtension) && Relevance.IsRelevant(A, Ask(verdict, municipio, tab, file))
  {
    var selected := Relevance.Relevant(A, listing, AskFor(verdict, municipio, tab));
    var head := [SectionHeading(Labels.SectionLabel(A, tab))];
    ImagesOfPanels(A, municipio, tab, selected, describe);
    ImagesAppend(head, PanelsBlocks(A, municipio, tab, selected, describe));
    assert Images(head) == [] by {
      assert head[..0] == [];
    }
    forall file
      ensures file in selected <==>
              file in listing && EndsWith(file, Capture.ImageExtension) && Relevance.IsRelevant(A, Ask(verdict, municipio, tab, file))
    {
      Relevance.RelevantMembership(A, listing, AskFor(verdict, municipio, tab), file);
    }
  }

  /**
   * A selected panel whose description is missing or empty is still shown:
   * its caption and image, then the failure notice in place of the text.
   */
  lemma PanelWithoutDescription(A: Alphabet, municipio: string, tab: string, files: seq<string>, describe: Oracle, j: nat)
    requires j < |files| && !Reply.Truthy(Ask(describe, municipio, tab, files[j]))
    ensures var blocks := PanelsBlocks(A, municipio, tab, files, describe);
            3 * j + 3 <= |blocks|
            && blocks[3 * j] == PanelCaption(Labels.Caption(A, files[j]))
            && blocks[3 * j + 1] == PanelImage(municipio, tab, files[j])
            && blocks[3 * j + 2] == Paragraph(Labels.DescriptionFailed)
  {
    var blocks := PanelsBlocks(A, municipio, tab, files, describe);
    PanelsBlocksAt(A, municipio, tab, files, describe, j);
    assert blocks[3 * j..3 * j + 3][2] == blocks[3 * j + 2];
    assert blocks[3 * j..3 * j + 3][1] == blocks[3 * j + 1];
    assert blocks[3 * j..3 * j + 3][0] == blocks[3 * j];
  }

  /** No block of the body is a first-level heading. */
  predicate NoHeading(body: seq<Block>)
  {
    forall k :: 0 <= k < |body| ==> !body[k].Heading1?
  }

  lemma {:induction false} PanelsHaveNoHeading(A: Alphabet, municipio: string, tab: string, files: seq<string>, describe: Oracle)
    ensures NoHeading(PanelsBlocks(A, municipio, tab, files, describe))
    decreases |files|
  {
    if files != [] {
      PanelsHaveNoHeading(A, municipio, tab, files[..|files| - 1], describe);
    }
  }

  lemma {:induction false} TabsHaveNoHeading(A: Alphabet, municipio: string, dir: MunicipioDir, names: seq<string>,
                                             verdict: Oracle, describe: Oracle)
    ensures NoHeading(TabsBlocks(A, municipio, dir, names, verdict, describe))
    decreases |names|
  {
    if names != [] {
      var n := |names| - 1;
      TabsHaveNoHeading(A, municipio, dir, names[..n], verdict, describe);
      if names[n] in dir.tabs {
        var tab := names[n];
        PanelsHaveNoHeading(A, municipio, tab, Relevance.Relevant(A, dir.tabs[tab], AskFor(verdict, municipio, tab)), describe);
      }
    }
  }

  /**
   * The report's only first-level heading is the conclusion's, and it is
   * there exactly when the service gave a non-empty conclusion; otherwise the
   * report ends with the fixed notice.
   */
  lemma ConclusionHeadingIffConclusion(A: Alphabet, municipio: string, dir: MunicipioDir, question: string,
                                       verdict: Oracle, describe: Oracle, conclusion: Option<string>)
    ensures var body := MunicipioBody(A, municipio, dir, question, verdict, describe) + ConclusionBlocks(A, conclusion);
            && ((exists k :: 0 <= k < |body| && body[k].Heading1?) <==> Reply.Truthy(conclusion))
            && (forall k :: 0 <= k < |body| && body[k].Heading1? ==> body[k] == Heading1(Labels.ConclusionHeading))
            && (!Reply.Truthy(conclusion) ==> body[|body| - 1] == Paragraph(Labels.NoConclusion))
  {
    var main := MunicipioBody(A, municipio, dir, question, verdict, describe);
    var tail := ConclusionBlocks(A, conclusion);
    var body := main + tail;
    TabsHaveNoHeading(A, municipio, dir, Sorted(dir.listing), verdict, describe);
    assert NoHeading(main);
    if Reply.Truthy(conclusion) {
      assert body[|main|].Heading1?;
    }
  }

  // ---------------------------------------------------------------------
  // What the export saves, as written
  // ---------------------------------------------------------------------

  /** `names[k]` is a folder and no later entry of `names` is. */
  predicate IsLastFolder(out: OutputDir, names: seq<string>, k: int)
  {
    0 <= k < |names| && names[k] in out.folders && forall j :: k < j < |names| ==> names[j] !in out.folders
  }

  /** `doc` is unbound after the loop exactly when no entry seen is a folder. */
  lemma {:induction false} LastFolderDocNoneIff(A: Alphabet, out: OutputDir, names: seq<string>, question: string,
                                                footer: Option<string>, verdict: Oracle, describe: Oracle)
    ensures LastFolderDoc(A, out, names, question, footer, verdict, describe).None? <==>
              forall k :: 0 <= k < |names| ==> names[k] !in out.folders
    decreases |names|
  {
    if names != [] {
      var n := |names| - 1;
      LastFolderDocNoneIff(A, out, names[..n], question, footer, verdict, describe);
      assert forall k :: 0 <= k < n ==> names[..n][k] == names[k];
    }
  }

  /** After the loop `doc` holds the report of the last folder seen. */
  lemma {:induction false} LastFolderDocIsLastFolder(A: Alphabet, out: OutputDir, names: seq<string>, question: string,
                                                     footer: Option<string>, verdict: Oracle, describe: Oracle, k: int)
    requires IsLastFolder(out, names, k)
    ensures LastFolderDoc(A, out, names, question, footer, verdict, describe)
            == Some(Doc(MunicipioBody(A, names[k], out.folders[names[k]], question, verdict, describe), footer))
    decreases |names|
  {
    var n := |names| - 1;
    if k < n {
      IsLastFolderOfPrefix(out, names, k);
      LastFolderDocIsLastFolder(A, out, names[..n], question, footer, verdict, describe, k);
    }
  }

  /** The last folder of `names`, when it is not the last entry, is the last folder of the entries before that. */
  lemma IsLastFolderOfPrefix(out: OutputDir, names: seq<string>, k: int)
    requires IsLastFolder(out, names, k) && k < |names| - 1
    ensures names[|names| - 1] !in out.folders
    ensures IsLastFolder(out, names[..|names| - 1], k) && names[..|names| - 1][k] == names[k]
  {
    var prefix := names[..|names| - 1];
    forall j | k < j < |prefix|
      ensures prefix[j] !in out.folders
    {
      assert prefix[j] == names[j];
    }
  }

  /**
   * The outcome of the export as written: when the output folder lists no
   * folder, `doc` is unbound and the export fails; otherwise exactly one file
   * is saved, named after the LAST entry listed, holding the report of the
   * LAST folder listed followed by the conclusion. Every other municipio's
   * report is built and dropped.
   */
  lemma ExportAsWrittenOutcome(A: Alphabet, out: OutputDir, question: string, logo: Option<string>, logoExists: bool,
                               verdict: Oracle, describe: Oracle, conclusion: Option<string>, k: int)
    ensures ExportAsWritten(A, out, question, logo, logoExists, verdict, describe, conclusion) == Failure(NameUnbound) <==>
              forall j :: 0 <= j < |out.listing| ==> out.listing[j] !in out.folders
    ensures IsLastFolder(out, out.listing, k) ==>
              ExportAsWritten(A, out, question, logo, logoExists, verdict, describe, conclusion)
              == Success(SavedDoc(
                   Labels.SafeName(A, out.listing[|out.listing| - 1]) + Labels.DocumentExtension,
                   Doc(MunicipioBody(A, out.listing[k], out.folders[out.listing[k]], question, verdict, describe)
                       + ConclusionBlocks(A, conclusion),
                       FooterLogo(logo, logoExists))))
  {
    LastFolderDocNoneIff(A, out, out.listing, question, FooterLogo(logo, logoExists), verdict, describe);
    if IsLastFolder(out, out.listing, k) {
      LastFolderDocIsLastFolder(A, out, out.listing, question, FooterLogo(logo, logoExists), verdict, describe, k);
    }
  }

  /** A name without blanks or capitals is its own safe name. */
  lemma SafeNameOfPlainName(name: string)
    requires forall k :: 0 <= k < |name| ==> name[k] != ' ' && !IsLatinUpper(name[k])
    ensures Labels.SafeName(Latin, name) == name
  {
    ReplaceCharIsMapChar(name, ' ', '_');
    assert MapChar(name, ' ', '_') == name;
    LatinLowerKeepsUncased(name);
  }

  /** The file names the examples below save under. */
  lemma ExampleFileNames()
    ensures Labels.SafeName(Latin, "teulada") + Labels.DocumentExtension == "teulada.docx"
    ensures Labels.SafeName(Latin, "calpe") + Labels.DocumentExtension == "calpe.docx"
    ensures Labels.SafeName(Latin, DocsFolder) + Labels.DocumentExtension == "docs.docx"
  {
    PlainFileName("teulada", "teulada.docx");
    PlainFileName("calpe", "calpe.docx");
    PlainFileName(DocsFolder, "docs.docx");
  }

  lemma PlainFileName(name: string, file: string)
    requires forall k :: 0 <= k < |name| ==> name[k] != ' ' && !IsLatinUpper(name[k])
    requires file == name + Labels.DocumentExtension
    ensures Labels.SafeName(Latin, name) + Labels.DocumentExtension == file
  {
    SafeNameOfPlainName(name);
  }

  /**
   * The `docs` folder and two municipio folders: only the report of the one
   * listed last is saved, under its name.
   */
  lemma OnlyLastMunicipioIsSaved(teulada: MunicipioDir, question: string, verdict: Oracle, describe: Oracle, conclusion: Option<string>)
    ensures var out := OutputDir([DocsFolder, "teulada", "calpe"],
                                 map[DocsFolder := MunicipioDir([], map[]), "teulada" := teulada, "calpe" := MunicipioDir([], map[])]);
            ExportAsWritten(Latin, out, question, None, false, verdict, describe, conclusion)
            == Success(SavedDoc("calpe.docx", Doc(ReportHead(Latin, "calpe", question) + ConclusionBlocks(Latin, conclusion), None)))
  {
    var calpe := MunicipioDir([], map[]);
    var out := OutputDir([DocsFolder, "teulada", "calpe"], map[DocsFolder := calpe, "teulada" := teulada, "calpe" := calpe]);
    assert IsLastFolder(out, out.listing, 2);
    ExportAsWrittenOutcome(Latin, out, question, None, false, verdict, describe, conclusion, 2);
    ExampleFileNames();
    assert Sorted(calpe.listing) == [];
    assert MunicipioBody(Latin, "calpe", calpe, question, verdict, describe) == ReportHead(Latin, "calpe", question);
  }

  /**
   * The `docs` folder, created inside the output folder before the loop, is
   * itself taken for a municipio: listed last, it is the one report saved.
   */
  lemma DocsFolderIsReported(teulada: MunicipioDir, question: string, verdict: Oracle, describe: Oracle, conclusion: Option<string>)
    ensures var out := OutputDir(["teulada", DocsFolder], map["teulada" := teulada, DocsFolder := MunicipioDir(["teulada.docx"], map[])]);
            ExportAsWritten(Latin, out, question, None, false, verdict, describe, conclusion)
            == Success(SavedDoc("docs.docx", Doc(ReportHead(Latin, DocsFolder, question) + ConclusionBlocks(Latin, conclusion), None)))
  {
    var docs := MunicipioDir(["teulada.docx"], map[]);
    var out := OutputDir(["teulada", DocsFolder], map["teulada" := teulada, DocsFolder := docs]);
    assert IsLastFolder(out, out.listing, 1);
    ExportAsWrittenOutcome(Latin, out, question, None, false, verdict, describe, conclusion, 1);
    ExampleFileNames();
    assert Sorted(docs.listing) == docs.listing by {
      assert docs.listing[..0] == [];
    }
    assert TabsBlocks(Latin, DocsFolder, docs, docs.listing, verdict, describe) == [] by {
      assert docs.listing[..0] == [];
    }
    assert MunicipioBody(Latin, DocsFolder, docs, question, verdict, describe) == ReportHead(Latin, DocsFolder, question);
  }

  /**
   * The `docs` folder is created before the loop, so once it is listed the
   * loop always binds `doc` and the export saves a file.
   */
  lemma ExportAfterDocsFolderSaves(A: Alphabet, out: OutputDir, question: string, logo: Option<string>, logoExists: bool,
                                   verdict: Oracle, describe: Oracle, conclusion: Option<string>)
    requires DocsFolder in out.listing && DocsFolder in out.folders
    ensures ExportAsWritten(A, out, question, logo, logoExists, verdict, describe, conclusion).Success?
  {
    var k :| 0 <= k < |out.listing| && out.listing[k] == DocsFolder;
    ExportAsWrittenOutcome(A, out, question, logo, logoExists, verdict, describe, conclusion, k);
  }

  // ---------------------------------------------------------------------
  // The export as evidently intended
  // ---------------------------------------------------------------------

  /** A folder of the output folder that holds a municipio's captures: not one the program makes for its own output. */
  predicate IsMunicipioFolder(out: OutputDir, name: string)
  {
    name in out.folders && name != DocsFolder && name != PdfFolder
  }

  /** One municipio's saved report: its body and its own conclusion, under its own safe name. */
  function MunicipioReport(A: Alphabet, name: string, dir: MunicipioDir, question: string, footer: Option<string>,
                           verdict: Oracle, describe: Oracle, conclusion: Option<string>): SavedDoc
  {
    SavedDoc(Labels.SafeName(A, name) + Labels.DocumentExtension,
             Doc(MunicipioBody(A, name, dir, question, verdict, describe) + ConclusionBlocks(A, conclusion), footer))
  }

  /** How the intended export builds the report of one municipio folder, its conclusion included. */
  function ReportBuilder(A: Alphabet, question: string, footer: Option<string>, verdict: Oracle, describe: Oracle,
                         conclude: Relevance.Replies): (string, MunicipioDir) -> SavedDoc
  {
    (name, dir) => MunicipioReport(A, name, dir, question, footer, verdict, describe, Relevance.ReplyTo(conclude, name))
  }

  /**
   * The save loop with the save inside the loop and the `docs` folder
   * skipped: `report` builds the document of each municipio folder among
   * `names`, and the documents are saved in listing order.
   */
  function SaveEach(out: OutputDir, names: seq<string>, report: (string, MunicipioDir) -> SavedDoc): seq<SavedDoc>
    decreases |names|
  {
    if names == [] then []
    else
      var n := |names| - 1;
      SaveEach(out, names[..n], report)
      + if IsMunicipioFolder(out, names[n]) then [report(names[n], out.folders[names[n]])] else []
  }

  /** A municipio folder among `names` has its document among those saved. */
  lemma {:induction false} SaveEachSavesFolder(out: OutputDir, names: seq<string>, report: (string, MunicipioDir) -> SavedDoc,
                                               k: int)
    requires 0 <= k < |names| && IsMunicipioFolder(out, names[k])
    ensures report(names[k], out.folders[names[k]]) in SaveEach(out, names, report)
    decreases |names|
  {
    var n := |names| - 1;
    var prefix := names[..n];
    if k < n {
      assert prefix[k] == names[k];
      SaveEachSavesFolder(out, prefix, report, k);
    }
  }

  /** A saved document is that of a municipio folder among `names`. */
  lemma {:induction false} SaveEachSavesOnlyFolders(out: OutputDir, names: seq<string>,
                                                    report: (string, MunicipioDir) -> SavedDoc, d: SavedDoc)
    requires d in SaveEach(out, names, report)
    ensures exists k :: 0 <= k < |names| && IsMunicipioFolder(out, names[k]) && d == report(names[k], out.folders[names[k]])
    decreases |names|
  {
    var n := |names| - 1;
    var prefix := names[..n];
    if d in SaveEach(out, prefix, report) {
      SaveEachSavesOnlyFolders(out, prefix, report, d);
      var k :| 0 <= k < |prefix| && IsMunicipioFolder(out, prefix[k]) && d == report(prefix[k], out.folders[prefix[k]]);
      assert prefix[k] == names[k];
    } else {
      assert IsMunicipioFolder(out, names[n]) && d == report(names[n], out.folders[names[n]]);
    }
  }

  /**
   * The export with the conclusion and the save inside the loop and the
   * `docs` folder skipped: one report per municipio folder among `names`, in
   * listing order, each closed by the conclusion reply `conclude` holds for it.
   */
  function ExportEach(A: Alphabet, out: OutputDir, names: seq<string>, question: string, footer: Option<string>,
                      verdict: Oracle, describe: Oracle, conclude: Relevance.Replies): seq<SavedDoc>
  {
    SaveEach(out, names, ReportBuilder(A, question, footer, verdict, describe, conclude))
  }

  /**
   * Every municipio folder gets its report saved, with its own conclusion,
   * and every saved report is that of a municipio folder, never of `docs`.
   */
  lemma ExportEachSavesEveryMunicipio(A: Alphabet, out: OutputDir, names: seq<string>, question: string,
                                      footer: Option<string>, verdict: Oracle, describe: Oracle,
                                      conclude: Relevance.Replies)
    ensures forall k :: 0 <= k < |names| && IsMunicipioFolder(out, names[k]) ==>
              MunicipioReport(A, names[k], out.folders[names[k]], question, footer, verdict, describe, Relevance.ReplyTo(conclude, names[k]))
              in ExportEach(A, out, names, question, footer, verdict, describe, conclude)
    ensures forall d :: d in ExportEach(A, out, names, question, footer, verdict, describe, conclude) ==>
              exists k :: 0 <= k < |names| && IsMunicipioFolder(out, names[k])
                && d == MunicipioReport(A, names[k], out.folders[names[k]], question, footer, verdict, describe, Relevance.ReplyTo(conclude, names[k]))
  {
    var report := ReportBuilder(A, question, footer, verdict, describe, conclude);
    forall k | 0 <= k < |names| && IsMunicipioFolder(out, names[k])
      ensures MunicipioReport(A, names[k], out.folders[names[k]], question, footer, verdict, describe, Relevance.ReplyTo(conclude, names[k]))
              in ExportEach(A, out, names, question, footer, verdict, describe, conclude)
    {
      SaveEachSavesFolder(out, names, report, k);
    }
    forall d | d in ExportEach(A, out, names, question, footer, verdict, describe, conclude)
      ensures exists k :: 0 <= k < |names| && IsMunicipioFolder(out, names[k])
                && d == MunicipioReport(A, names[k], out.folders[names[k]], question, footer, verdict, describe, Relevance.ReplyTo(conclude, names[k]))
    {
      SaveEachSavesOnlyFolders(out, names, report, d);
    }
  }

  /**
   * The export as evidently intended: a report per municipio folder, each
   * with its conclusion and saved under its own name; `docs` is skipped.
   */
  method ExportEachToDocx(A: Alphabet, out: OutputDir, question: string, logo: Option<string>, logoExists: bool,
                          verdict: Oracle, describe: Oracle, conclude: Relevance.Replies)
    returns (saved: seq<SavedDoc>)
    ensures saved == ExportEach(A, out, out.listing, question, FooterLogo(logo, logoExists), verdict, describe, conclude)
  {
    saved := [];
    for k := 0 to |out.listing|
      invariant saved == ExportEach(A, out, out.listing[..k], question, FooterLogo(logo, logoExists), verdict, describe, conclude)
    {
      ExportEachSnoc(A, out, out.listing, k, question, FooterLogo(logo, logoExists), verdict, describe, conclude);
      var name := out.listing[k];
      if name in out.folders && name != DocsFolder && name != PdfFolder {
        var report := BuildReport(A, name, out.folders[name], question, logo, logoExists, verdict, describe);
        var conclusion := Relevance.ReplyTo(conclude, name);
        var body := report.body + ConclusionBlocks(A, conclusion);
        saved := saved + [SavedDoc(Labels.SafeName(A, name) + Labels.DocumentExtension, Doc(body, report.footerLogo))];
      }
    }
    assert out.listing[..|out.listing|] == out.listing;
  }

  /** The reports saved for one more entry are those saved before it, then its own if it is a municipio folder. */
  lemma ExportEachSnoc(A: Alphabet, out: OutputDir, names: seq<string>, k: nat, question: string, footer: Option<string>,
                       verdict: Oracle, describe: Oracle, conclude: Relevance.Replies)
    requires k < |names|
    ensures ExportEach(A, out, names[..k + 1], question, footer, verdict, describe, conclude)
         == ExportEach(A, out, names[..k], question, footer, verdict, describe, conclude)
            + if IsMunicipioFolder(out, names[k])
              then [MunicipioReport(A, names[k], out.folders[names[k]], question, footer, verdict, describe,
                                    Relevance.ReplyTo(conclude, names[k]))]
              else []
  {
    assert names[..k + 1][..k] == names[..k];
  }

  /** On the listing of the second finding, the intended export saves teulada's report and not one for `docs`. */
  lemma ExportEachSkipsDocsFolder(teulada: MunicipioDir, question: string, verdict: Oracle, describe: Oracle, conclude: Relevance.Replies)
    ensures var out := OutputDir(["teulada", DocsFolder], map["teulada" := teulada, DocsFolder := MunicipioDir(["teulada.docx"], map[])]);
            ExportEach(Latin, out, out.listing, question, None, verdict, describe, conclude)
            == [SavedDoc("teulada.docx",
                         Doc(MunicipioBody(Latin, "teulada", teulada, question, verdict, describe)
                             + ConclusionBlocks(Latin, Relevance.ReplyTo(conclude, "teulada")), None))]
  {
    var out := OutputDir(["teulada", DocsFolder], map["teulada" := teulada, DocsFolder := MunicipioDir(["teulada.docx"], map[])]);
    var report := ReportBuilder(Latin, question, None, verdict, describe, conclude);
    SaveEachOnDocsListing(teulada, out, report);
    ExampleFileNames();
    assert report("teulada", teulada) == MunicipioReport(Latin, "teulada", teulada, question, None, verdict, describe, Relevance.ReplyTo(conclude, "teulada"));
  }

  /** Whatever a report holds, the listing `teulada`, `docs` gets teulada's alone. */
  lemma SaveEachOnDocsListing(teulada: MunicipioDir, out: OutputDir, report: (string, MunicipioDir) -> SavedDoc)
    requires out == OutputDir(["teulada", DocsFolder], map["teulada" := teulada, DocsFolder := MunicipioDir(["teulada.docx"], map[])])
    ensures SaveEach(out, out.listing, report) == [report("teulada", teulada)]
  {
    var one := out.listing[..1];
    assert one == ["teulada"] && one[..0] == [];
    assert IsMunicipioFolder(out, "teulada") && out.folders["teulada"] == teulada;
    assert SaveEach(out, one, report) == [report("teulada", teulada)];
    assert !IsMunicipioFolder(out, out.listing[1]);
  }

}
