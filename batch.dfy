/**
 * The batch loop of handleProcess (src/App.jsx, lines 17-65): each selected file
 * is loaded in order; a load failure ends the whole run; a document without
 * exactly two pages is skipped; every other document's composite is stored in
 * the zip archive under the file's own name, a later file replacing an earlier
 * one of the same name.
 */
module Batch {
  import opened Wrappers
  import opened Compositor

  /** A file picked in the browser: its name and, when PDFDocument.load accepts
      its bytes, the sizes of its pages (None when load rejects them). */
  datatype SelectedFile = SelectedFile(name: string, content: Option<seq<PageSize>>)

  /** A loaded document: the file's name and its page sizes. */
  datatype Document = Document(name: string, pages: seq<PageSize>)

  /** The zip archive: entry name to composite document. */
  type Archive = map<string, Pdf>

  /** Only documents of exactly two pages are turned into composites. */
  predicate Eligible(d: Document)
  {
    |d.pages| == 2
  }

  /** Loading every file in order; the first file that does not parse ends the
      run, and its name is the error. */
  function Load(files: seq<SelectedFile>): (r: Result<seq<Document>, string>)
    ensures r.Success? <==> forall i :: 0 <= i < |files| ==> files[i].content.Some?
    ensures r.Success? ==> |r.value| == |files|
    ensures r.Success? ==> forall i :: 0 <= i < |files| ==>
              r.value[i] == Document(files[i].name, files[i].content.value)
    ensures r.Failure? ==>
              exists i :: && 0 <= i < |files| && files[i].content.None? && files[i].name == r.error
                          && forall j :: 0 <= j < i ==> files[j].content.Some?
  {
    if files == [] then Success([])
    else
      var last := files[|files| - 1];
      match Load(files[..|files| - 1])
      case Failure(name) => Failure(name)
      case Success(docs) =>
        if last.content.None? then Failure(last.name)
        else Success(docs + [Document(last.name, last.content.value)])
  }

  /** The archive the loop builds from the loaded documents, file by file. */
  function ArchiveOf(docs: seq<Document>): Archive
  {
    if docs == [] then map[]
    else
      var prior := ArchiveOf(docs[..|docs| - 1]);
      var d := docs[|docs| - 1];
      if Eligible(d) then prior[d.name := Compose(d.pages)] else prior
  }

  /** The outcome of one run over the selected files. */
  function BatchResult(files: seq<SelectedFile>): Result<Archive, string>
  {
    match Load(files)
    case Success(docs) => Success(ArchiveOf(docs))
    case Failure(name) => Failure(name)
  }

  /** The names of the eligible documents. */
  function EligibleNames(docs: seq<Document>): set<string>
  {
    set i | 0 <= i < |docs| && Eligible(docs[i]) :: docs[i].name
  }

  /** The number of eligible documents. */
  function CountEligible(docs: seq<Document>): nat
  {
    if docs == [] then 0
    else CountEligible(docs[..|docs| - 1]) + (if Eligible(docs[|docs| - 1]) then 1 else 0)
  }

  /** The archive has an entry for exactly the names of the eligible documents,
      used verbatim. */
  lemma {:induction false} ArchiveKeys(docs: seq<Document>)
    ensures ArchiveOf(docs).Keys == EligibleNames(docs)
  {
    if docs != [] {
      var prefix := docs[..|docs| - 1];
      var d := docs[|docs| - 1];
      ArchiveKeys(prefix);
      assert forall i :: 0 <= i < |prefix| ==> prefix[i] == docs[i];
      if Eligible(d) {
        assert EligibleNames(docs) == EligibleNames(prefix) + {d.name};
      } else {
        assert EligibleNames(docs) == EligibleNames(prefix);
      }
    }
  }

  /** Last write wins: the entry under an eligible document's name is that
      document's composite when no later eligible document shares the name. */
  lemma {:induction false} ArchiveEntryIsLastEligible(docs: seq<Document>, j: nat)
    requires j < |docs| && Eligible(docs[j])
    requires forall i :: j < i < |docs| && Eligible(docs[i]) ==> docs[i].name != docs[j].name
    ensures docs[j].name in ArchiveOf(docs)
    ensures ArchiveOf(docs)[docs[j].name] == Compose(docs[j].pages)
  {
    if j < |docs| - 1 {
      var prefix := docs[..|docs| - 1];
      ArchiveEntryIsLastEligible(prefix, j);
    }
  }

  /** Every entry of the archive is the composite of an eligible document of the
      same name; so it has one page, of page 1's width and twice its height. */
  lemma {:induction false} ArchiveEntriesAreComposites(docs: seq<Document>, name: string)
    requires name in ArchiveOf(docs)
    ensures exists j :: 0 <= j < |docs| && docs[j].name == name && Eligible(docs[j])
              && ArchiveOf(docs)[name] == Compose(docs[j].pages)
  {
    var prefix := docs[..|docs| - 1];
    var d := docs[|docs| - 1];
    if Eligible(d) && d.name == name {
      assert docs[|docs| - 1] == d;
    } else {
      ArchiveEntriesAreComposites(prefix, name);
      var j :| 0 <= j < |prefix| && prefix[j].name == name && Eligible(prefix[j])
                && ArchiveOf(prefix)[name] == Compose(prefix[j].pages);
      assert docs[j] == prefix[j];
    }
  }

  /** A document that is not eligible leaves no trace: processing continues with
      the next file as if it had not been selected. */
  lemma {:induction false} SkipIneligible(before: seq<Document>, d: Document, after: seq<Document>)
    requires !Eligible(d)
    ensures ArchiveOf(before + [d] + after) == ArchiveOf(before + after)
  {
    if after == [] {
      assert (before + [d])[..|before|] == before;
      assert before + [d] + after == before + [d];
      assert before + after == before;
    } else {
      var last := after[|after| - 1];
      var rest := after[..|after| - 1];
      SkipIneligible(before, d, rest);
      assert (before + [d] + after)[..|before + [d] + after| - 1] == before + [d] + rest;
      assert (before + after)[..|before + after| - 1] == before + rest;
    }
  }

  /** When the eligible documents have distinct names the archive has one entry
      per eligible document. */
  lemma {:induction false} DistinctNamesCount(docs: seq<Document>)
    requires forall i, j :: 0 <= i < j < |docs| && Eligible(docs[i]) && Eligible(docs[j]) ==>
               docs[i].name != docs[j].name
    ensures |ArchiveOf(docs)| == CountEligible(docs)
  {
    if docs != [] {
      var prefix := docs[..|docs| - 1];
      var d := docs[|docs| - 1];
      DistinctNamesCount(prefix);
      if Eligible(d) {
        ArchiveKeys(prefix);
        assert d.name !in ArchiveOf(prefix);
      }
    }
  }

  /** Once a file fails to load, the files after it change nothing: the run
      ends with that failure. */
  lemma {:induction false} LoadFailureSticks(files: seq<SelectedFile>, k: nat)
    requires k <= |files| && Load(files[..k]).Failure?
    ensures Load(files) == Load(files[..k])
  {
    if k < |files| {
      LoadFailureSticks(files[..|files| - 1], k);
      assert files[..|files| - 1][..k] == files[..k];
    } else {
      assert files[..k] == files;
    }
  }

  /** A selected file that loads and has exactly two pages. */
  predicate TwoPageFile(f: SelectedFile)
  {
    f.content.Some? && Eligible(Document(f.name, f.content.value))
  }

  /** On a completed run the archive holds an entry under a name exactly when some
      selected two-page file has that name, and the entry is the composite of
      such a file. */
  lemma SuccessfulRunEntries(files: seq<SelectedFile>, name: string)
    requires BatchResult(files).Success?
    ensures name in BatchResult(files).value <==>
              exists i :: 0 <= i < |files| && files[i].name == name && TwoPageFile(files[i])
    ensures name in BatchResult(files).value ==>
              exists i :: && 0 <= i < |files| && files[i].name == name && TwoPageFile(files[i])
                          && BatchResult(files).value[name] == Compose(files[i].content.value)
  {
    var docs := Load(files).value;
    ArchiveKeys(docs);
    if name in ArchiveOf(docs) {
      ArchiveEntriesAreComposites(docs, name);
      var j :| 0 <= j < |docs| && docs[j].name == name && Eligible(docs[j])
                && ArchiveOf(docs)[name] == Compose(docs[j].pages);
      assert files[j].name == name && TwoPageFile(files[j]);
    } else {
      forall i | 0 <= i < |files| && files[i].name == name
        ensures !TwoPageFile(files[i])
      {
        assert docs[i].name == name;
      }
    }
  }

  /** When no loaded document is eligible the run completes with an empty archive. */
  lemma AllIneligibleGivesEmptyArchive(docs: seq<Document>)
    requires forall i :: 0 <= i < |docs| ==> !Eligible(docs[i])
    ensures ArchiveOf(docs) == map[]
  {
    ArchiveKeys(docs);
  }

  /** A.pdf and C.pdf (two pages of 600 by 800) and B.pdf (three pages) give an
      archive holding A.pdf and C.pdf only, each a single page of 600 by 1600. */
  lemma ScenarioSkipsThreePageFile()
    ensures var p := PageSize(600.0, 800.0);
            var r := BatchResult([SelectedFile("A.pdf", Some([p, p])),
                                  SelectedFile("B.pdf", Some([p, p, p])),
                                  SelectedFile("C.pdf", Some([p, p]))]);
            && r.Success?
            && r.value.Keys == {"A.pdf", "C.pdf"}
            && |r.value["A.pdf"].pages| == 1 && r.value["A.pdf"].pages[0].size == PageSize(600.0, 1600.0)
            && |r.value["C.pdf"].pages| == 1 && r.value["C.pdf"].pages[0].size == PageSize(600.0, 1600.0)
  {
    var p := PageSize(600.0, 800.0);
    var files := [SelectedFile("A.pdf", Some([p, p])),
                  SelectedFile("B.pdf", Some([p, p, p])),
                  SelectedFile("C.pdf", Some([p, p]))];
    var docs := Load(files).value;
    ArchiveKeys(docs);
    assert EligibleNames(docs) == {"A.pdf", "C.pdf"} by {
      assert Eligible(docs[0]) && !Eligible(docs[1]) && Eligible(docs[2]);
    }
    ArchiveEntryIsLastEligible(docs, 0);
    ArchiveEntryIsLastEligible(docs, 2);
  }

  /** Loading one more file, as the loop does. */
  lemma LoadStep(files: seq<SelectedFile>, i: nat)
    requires i < |files| && Load(files[..i]).Success?
    ensures files[i].content.None? ==> Load(files[..i + 1]) == Failure(files[i].name)
    ensures files[i].content.Some? ==>
              Load(files[..i + 1]) == Success(Load(files[..i]).value + [Document(files[i].name, files[i].content.value)])
  {
    assert files[..i + 1][..i] == files[..i];
  }

  /** Storing one more document, as the loop does. */
  lemma ArchiveStep(docs: seq<Document>, d: Document)
    ensures ArchiveOf(docs + [d]) == if Eligible(d) then ArchiveOf(docs)[d.name := Compose(d.pages)] else ArchiveOf(docs)
  {
    assert (docs + [d])[..|docs|] == docs;
  }

  /**
   * The loop of handleProcess over the selected files, with the archive held in
   * a local map. It returns the archive, or the name of the first file that
   * could not be loaded, in which case no archive is produced.
   */
  method BuildArchive(files: seq<SelectedFile>) returns (r: Result<Archive, string>)
    ensures r == BatchResult(files)
    ensures r.Success? ==> r.value.Keys == EligibleNames(Load(files).value)
  {
    var zip: Archive := map[];
    ghost var docs: seq<Document> := [];
    for i := 0 to |files|
      invariant Load(files[..i]) == Success(docs)
      invariant zip == ArchiveOf(docs)
    {
      var file := files[i];
      LoadStep(files, i);
      if file.content.None? {
        LoadFailureSticks(files, i + 1);
        return Failure(file.name);
      }
      var pages := file.content.value;
      ArchiveStep(docs, Document(file.name, pages));
      docs := docs + [Document(file.name, pages)];
      if |pages| != 2 {
        continue;
      }
      zip := zip[file.name := Compose(pages)];
    }
    assert files[..|files|] == files;
    ArchiveKeys(docs);
    r := Success(zip);
  }
}
