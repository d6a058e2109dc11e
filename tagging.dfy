/** The manual shoe-tagging tool of src/data/ScrapingMarathonfoto.py: which
    runners are still to be tagged, the record file of choices made so far,
    the surname shown for a runner, and the list of shoes offered with their
    pictures. The browser, the web server and the waiting loop are not part
    of this model; the record file is its content as a string. */
module Tagging {
  import opened Seqs
  import opened Frames

  /** `getRunnersUnderTime(10800)`: three hours, in seconds. */
  const RunnerLimit: int := 10800

  const FinishNet: string := "Finish Net"
  const BibColumn: string := "bib"
  const NameColumn: string := "name"

  /** `cell < limit` on a numeric column: NaN compares false. */
  predicate Below(c: Cell, limit: int) {
    match c
    case Int(i) => i < limit
    case Real(x) => x < limit as real
    case _ => false
  }

  /** The row is a runner still to be tagged: finished strictly under the
      limit and with a bib, as text under the bib column's dtype (`asFloat`),
      that is not yet recorded. */
  predicate ToTag(row: Row, limit: int, processed: set<string>, asFloat: bool)
    requires BibColumn in row && !row[BibColumn].Real?
  {
    FinishNet in row && Below(row[FinishNet], limit) && BibText(row[BibColumn], asFloat) !in processed
  }

  function ToTagIn(limit: int, processed: set<string>, asFloat: bool): Row -> bool {
    (row: Row) => BibColumn in row && !row[BibColumn].Real? && ToTag(row, limit, processed, asFloat)
  }

  /** Bibs as the results file stores them: integers, text or missing,
      never fractional values (see `StrConvertible`). */
  predicate WholeBibs(f: Frame) {
    StrConvertible(f.rows, BibColumn)
  }

  /** `getRunnersUnderTime` (ScrapingMarathonfoto.py:191-199): the rows whose
      `Finish Net` is strictly below the limit and whose bib is not among the
      processed ones, in their original order. The comparison raises
      `KeyError` without the column and `TypeError` on a text cell; the
      lookup of `bib` raises `KeyError` without that column. */
  function RunnersUnderTime(f: Frame, limit: int, processed: set<string>): (r: Result<Frame>)
    requires Valid(f) && WholeBibs(f)
    ensures FinishNet !in f.columns ==> r == Err(KeyError(FinishNet))
    ensures FinishNet in f.columns && (exists k :: 0 <= k < |f.rows| && f.rows[k][FinishNet].Text?) ==> r == Err(TypeError)
    ensures r.Ok? <==> (FinishNet in f.columns && BibColumn in f.columns &&
      forall k :: 0 <= k < |f.rows| ==> !f.rows[k][FinishNet].Text?)
    ensures r.Ok? ==>
      && Valid(r.value) && r.value.columns == f.columns
      && r.value.rows == Filter(f.rows, ToTagIn(limit, processed, FloatColumn(f.rows, BibColumn)))
  {
    if FinishNet !in f.columns then Err(KeyError(FinishNet))
    else if exists k :: 0 <= k < |f.rows| && f.rows[k][FinishNet].Text? then Err(TypeError)
    else if BibColumn !in f.columns then Err(KeyError(BibColumn))
    else Ok(FilterRows(f, ToTagIn(limit, processed, FloatColumn(f.rows, BibColumn))))
  }

  /** Every runner returned finished under the limit and is not yet
      recorded, and every such runner is returned; the bib is compared as
      `astype(str)` prints it, so a float bib column prints "123.0". */
  lemma RunnersUnderTimeExact(f: Frame, limit: int, processed: set<string>)
    requires Valid(f) && WholeBibs(f) && RunnersUnderTime(f, limit, processed).Ok?
    ensures forall row :: row in RunnersUnderTime(f, limit, processed).value.rows ==>
      row in f.rows && Below(row[FinishNet], limit) && BibText(row[BibColumn], FloatColumn(f.rows, BibColumn)) !in processed
    ensures forall k :: 0 <= k < |f.rows| && Below(f.rows[k][FinishNet], limit) && ColumnText(f.rows, BibColumn, k) !in processed ==>
      f.rows[k] in RunnersUnderTime(f, limit, processed).value.rows
  {
    var p := ToTagIn(limit, processed, FloatColumn(f.rows, BibColumn));
    forall k | 0 <= k < |f.rows| && Below(f.rows[k][FinishNet], limit) && ColumnText(f.rows, BibColumn, k) !in processed
      ensures f.rows[k] in RunnersUnderTime(f, limit, processed).value.rows
    {
      FilterKeeps(f.rows, p, f.rows[k]);
    }
  }

  /** A runner whose integer bib sits in a float column (the results file
      has a missing bib somewhere) is still to be tagged after its bib was
      recorded as an integer: "123.0" is not "123". */
  lemma FloatBibStaysUntagged(f: Frame, limit: int, k: nat)
    requires Valid(f) && WholeBibs(f) && k < |f.rows|
    requires RunnersUnderTime(f, limit, {}).Ok? && FloatColumn(f.rows, BibColumn)
    requires f.rows[k][BibColumn].Int? && Below(f.rows[k][FinishNet], limit)
    ensures RunnersUnderTime(f, limit, {IntToString(f.rows[k][BibColumn].i)}).Ok?
    ensures f.rows[k] in RunnersUnderTime(f, limit, {IntToString(f.rows[k][BibColumn].i)}).value.rows
  {
    var i := f.rows[k][BibColumn].i;
    FloatTextNotIntText(i, i);
    RunnersUnderTimeExact(f, limit, {IntToString(i)});
  }

  /** `s.split(',')[0]`: the text before the first comma. */
  function BeforeComma(s: string): (r: string)
    ensures StartsWith(s, r) && ',' !in r
    ensures ',' !in s ==> r == s
    ensures ',' in s ==> |r| < |s| && s[|r|] == ','
  {
    SplitFirst(s, ',');
    if ',' in s then
      SplitAt(s, ',', FirstIndex(s, ','));
      Split(s, ',')[0]
    else
      Split(s, ',')[0]
  }

  /** `names.str.split(',').str[0]` on one cell: the surname of a
      "Surname, Given" name; NaN for a cell that is not text. */
  function Surname(c: Cell): (r: Cell)
    ensures c.Text? ==> r == Text(BeforeComma(c.s))
    ensures !c.Text? ==> r == Missing
  {
    if c.Text? then Text(BeforeComma(c.s)) else Missing
  }

  /** Some runner's name is text. */
  predicate SomeTextName(f: Frame)
    requires NameColumn in f.columns && Valid(f)
  {
    exists k :: 0 <= k < |f.rows| && f.rows[k][NameColumn].Text?
  }

  /** The surnames of the runners, in order (ScrapingMarathonfoto.py:201-204);
      `KeyError` without `name`, and the `.str` accessor raises
      `AttributeError` on a non-empty name column without any text. */
  function Surnames(f: Frame): (r: Result<seq<Cell>>)
    requires Valid(f)
    ensures NameColumn !in f.columns ==> r == Err(KeyError(NameColumn))
    ensures NameColumn in f.columns && |f.rows| > 0 && !SomeTextName(f) ==> r == Err(AttributeError)
    ensures r.Ok? <==> NameColumn in f.columns && (|f.rows| == 0 || SomeTextName(f))
    ensures r.Ok? ==> |r.value| == |f.rows|
    ensures r.Ok? ==> forall k :: 0 <= k < |f.rows| ==> r.value[k] == Surname(f.rows[k][NameColumn])
    ensures r.Ok? ==> forall k :: 0 <= k < |f.rows| && r.value[k].Text? ==> ',' !in r.value[k].s
  {
    if NameColumn !in f.columns then Err(KeyError(NameColumn))
    else if |f.rows| > 0 && !SomeTextName(f) then Err(AttributeError)
    else Ok(seq(|f.rows|, k requires 0 <= k < |f.rows| => Surname(f.rows[k][NameColumn])))
  }

  /** The line `save_shoe_choice` writes. */
  function RecordLine(bib: string, name: string, shoe: string): string {
    bib + "," + name + "," + shoe + "\n"
  }

  /** The lines of the record file (the last one empty after a final line break). */
  function Lines(content: string): seq<string> {
    Split(content, '\n')
  }

  /** `get_processed_bibs` (ScrapingMarathonfoto.py:179-188): no bibs without
      the file; otherwise the first field of every non-blank record (an
      empty file makes `read_csv` raise `EmptyDataError`, which gives the
      same empty set). */
  function ProcessedBibs(present: bool, content: string): (bibs: set<string>)
    ensures !present ==> bibs == {}
    ensures present ==> forall b :: b in bibs <==> exists l :: l in Lines(content) && l != "" && BeforeComma(l) == b
  {
    if !present then {} else FirstFields(Lines(content))
  }

  /** A record file whose content is empty or ends in a line break. */
  predicate Terminated(content: string) {
    content == "" || content[|content| - 1] == '\n'
  }

  /** The lines before the final (empty) piece of a terminated file. */
  function FrontLines(content: string): seq<string> {
    if content == "" then [] else Lines(content[..|content| - 1])
  }

  /** Appending a line and a line break to a terminated file adds that line
      before the final empty piece. */
  lemma LinesAfterRecord(content: string, line: string)
    requires Terminated(content) && '\n' !in line
    ensures Lines(content) == FrontLines(content) + [""]
    ensures Lines(content + line + ['\n']) == FrontLines(content) + [line, ""]
  {
    SplitFirst(line, '\n');
    SplitFirst("", '\n');
    SplitJoin(line, '\n', "");
    if content == "" {
      assert content + line + ['\n'] == line + ['\n'] + "";
    } else {
      var front := content[..|content| - 1];
      assert content == front + ['\n'] + "";
      assert content + line + ['\n'] == front + ['\n'] + (line + ['\n'] + "");
      SplitAppend(front, '\n', line + ['\n'] + "");
      SplitAppend(front, '\n', "");
    }
  }

  /** The first fields of the non-blank lines. */
  function FirstFields(lines: seq<string>): set<string> {
    set l | l in lines && l != "" :: BeforeComma(l)
  }

  /** One more non-blank line adds its first field. */
  lemma FirstFieldsStep(front: seq<string>, line: string)
    requires line != ""
    ensures FirstFields(front + [line, ""]) == FirstFields(front + [""]) + {BeforeComma(line)}
  {
    assert line in front + [line, ""];
    forall l | l in front + [""] ensures l in front + [line, ""] {
    }
    forall l | l in front + [line, ""] && l != line ensures l in front + [""] {
    }
  }

  /** The first field of a record line is its bib, when the bib holds no comma. */
  lemma RecordBib(bib: string, name: string, shoe: string)
    requires ',' !in bib
    ensures BeforeComma(bib + "," + name + "," + shoe) == bib
  {
    var line := bib + "," + name + "," + shoe;
    assert line == bib + [','] + (name + "," + shoe);
    SplitJoin(bib, ',', name + "," + shoe);
  }

  /** Appending the record of `bib` to a file whose content is empty or ends
      in a line break adds exactly `bib` to the processed bibs, when the bib
      holds no comma and no field a line break. */
  lemma SaveRecordsBib(content: string, bib: string, name: string, shoe: string)
    requires Terminated(content)
    requires ',' !in bib && '\n' !in bib && '\n' !in name && '\n' !in shoe
    ensures ProcessedBibs(true, content + RecordLine(bib, name, shoe)) == ProcessedBibs(true, content) + {bib}
  {
    var line := bib + "," + name + "," + shoe;
    assert '\n' !in line;
    assert content + RecordLine(bib, name, shoe) == content + line + ['\n'];
    LinesAfterRecord(content, line);
    RecordBib(bib, name, shoe);
    FirstFieldsStep(FrontLines(content), line);
  }

  /** A file that exists but is empty records no bib, like a missing file. */
  lemma EmptyFileProcessesNothing()
    ensures ProcessedBibs(true, "") == ProcessedBibs(false, "") == {}
  {
    SplitFirst("", '\n');
  }

  /** The record file, and the flag `submit` sets. */
  class Tagger {
    var present: bool
    var content: string
    var userHasSelectedShoe: bool

    /** A file that does not exist has no content. */
    predicate Valid()
      reads this
    {
      !present ==> content == ""
    }

    constructor (present: bool, content: string)
      requires !present ==> content == ""
      ensures Valid()
      ensures this.present == present && this.content == content && !userHasSelectedShoe
    {
      this.present := present;
      this.content := content;
      userHasSelectedShoe := false;
    }

    function Processed(): (bibs: set<string>)
      reads this
      ensures !present ==> bibs == {}
    {
      ProcessedBibs(present, content)
    }

    /** `save_shoe_choice` (ScrapingMarathonfoto.py:129-131): the file is
        created if absent and one record line is appended after the
        untouched old content. */
    method SaveShoeChoice(bib: string, name: string, shoe: string)
      requires Valid()
      modifies this
      ensures Valid()
      ensures present && content == old(content) + RecordLine(bib, name, shoe)
      ensures content[..|old(content)|] == old(content)
      ensures userHasSelectedShoe == old(userHasSelectedShoe)
      ensures Terminated(old(content)) && ',' !in bib && '\n' !in bib && '\n' !in name && '\n' !in shoe ==>
        Processed() == old(Processed()) + {bib}
    {
      ghost var before := content;
      if Terminated(before) && ',' !in bib && '\n' !in bib && '\n' !in name && '\n' !in shoe {
        SaveRecordsBib(before, bib, name, shoe);
        if !present {
          EmptyFileProcessesNothing();
        }
      }
      content := content + RecordLine(bib, name, shoe);
      present := true;
    }

    /** `submit` (ScrapingMarathonfoto.py:114-121): record the choice and
        tell the waiting loop that the user has chosen. */
    method Submit(bib: string, name: string, shoe: string)
      requires Valid()
      modifies this
      ensures Valid()
      ensures present && content == old(content) + RecordLine(bib, name, shoe)
      ensures Terminated(old(content)) && ',' !in bib && '\n' !in bib && '\n' !in name && '\n' !in shoe ==>
        Processed() == old(Processed()) + {bib}
      ensures userHasSelectedShoe
    {
      SaveShoeChoice(bib, name, shoe);
      userHasSelectedShoe := true;
    }
  }

  /** The shoes offered on the selection page, in page order. */
  const Shoes: seq<string> := [
    "Adidas Adizero Adios Pro 3",
    "Adidas Adizero Adios Pro 2",
    "Adidas Adizero Adios Pro Evo 1",
    "Nike Air Zoom Alphafly 3 Next%",
    "Nike Zoom X Alphafly 2 Next%",
    "Nike Zoom X Vaporfly Next%",
    "Nike Zoom X Vaporfly Next% 2",
    "Nike Zoom X Vaporfly 3",
    "Asics Metaspeed Edge Paris",
    "Puma Deviate Elite 3",
    "Puma FastR Nitro",
    "Saucony Endorphin Pro 2",
    "Hoka One One Rocket X",
    "Brooks Hyperion Elite 4",
    "On Cloudboom Strike LS",
    "New Balance FuelCell RC Elite",
    "Under Armour Flow Velociti Elite 2",
    "Xtep 160X 5.0",
    "Li-Ning Fei X 5.0",
    "Question Mark"
  ]

  /** The picture file of each shoe. */
  const ShoeImages: map<string, string> := map[
    "Adidas Adizero Adios Pro 3" := "adidas_adizero_adios_pro_3.jpg",
    "Adidas Adizero Adios Pro 2" := "adidas_adizero_adios_pro_2.jpg",
    "Adidas Adizero Adios Pro Evo 1" := "adidas_adizero_adios_pro_evo_1.jpg",
    "Nike Air Zoom Alphafly 3 Next%" := "nike_air_zoom_alphafly_next.jpg",
    "Nike Zoom X Alphafly 2 Next%" := "nike_alphafly_2.jpg",
    "Nike Zoom X Vaporfly Next%" := "nike_zoom_x_vaporfly_next.jpg",
    "Nike Zoom X Vaporfly Next% 2" := "nike_zoom_x_vaporfly_next_2.jpg",
    "Nike Zoom X Vaporfly 3" := "nike_zoom_x_vaporfly_3.jpg",
    "Asics Metaspeed Edge Paris" := "asics_metaspeed_edge_paris.jpg",
    "Brooks Hyperion Elite 4" := "brooks_hyperion_elite_4.jpg",
    "Hoka One One Rocket X" := "hoka_one_one_rocket_x.jpg",
    "New Balance FuelCell RC Elite" := "new_balance_fuelcell_rc_elite.jpg",
    "On Cloudboom Strike LS" := "on_cloudboom_strike_ls.jpg",
    "Saucony Endorphin Pro 2" := "saucony_endorphin_pro_2.jpg",
    "Xtep 160X 5.0" := "xtep_160x_5.0.jpg",
    "Puma Deviate Elite 3" := "puma_deviate_elite_3.jpg",
    "Puma FastR Nitro" := "puma_fastr_nitro.jpg",
    "Li-Ning Fei X 5.0" := "li-ning.jpg",
    "Under Armour Flow Velociti Elite 2" := "under_armour_velociti.jpg",
    "Question Mark" := "question_mark.jpg"
  ]

  /** The page's `shoe_images[shoe]` for every offered shoe, in page order. */
  function Gallery(shoes: seq<string>): (g: seq<(string, string)>)
    requires forall k :: 0 <= k < |shoes| ==> shoes[k] in ShoeImages
    ensures |g| == |shoes| && forall k :: 0 <= k < |shoes| ==> g[k] == (shoes[k], ShoeImages[shoes[k]])
  {
    seq(|shoes|, k requires 0 <= k < |shoes| => (shoes[k], ShoeImages[shoes[k]]))
  }

  /** Every offered shoe has a picture, so the page's lookup never fails;
      every picture belongs to an offered shoe, and no shoe is offered twice. */
  lemma ShoeImagesTotal()
    ensures forall k :: 0 <= k < |Shoes| ==> Shoes[k] in ShoeImages
    ensures ShoeImages.Keys == set s | s in Shoes
    ensures |Shoes| == 20 && Distinct(Shoes)
  {
    ShoesPictured();
    PicturesOffered();
    ShoesDistinct();
  }

  lemma ShoesPictured()
    ensures forall k :: 0 <= k < |Shoes| ==> Shoes[k] in ShoeImages
  {
  }

  lemma PicturesOffered()
    ensures ShoeImages.Keys == set s | s in Shoes
  {
  }

  lemma ShoesDistinct()
    ensures |Shoes| == 20 && Distinct(Shoes)
  {
  }
}
