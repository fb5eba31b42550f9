/**
 * merge_into_one_big_pdf.py: choose the PDF files of a folder, sort them and
 * append them, in that order, to one merged document.
 */
module PdfMerge {
  import opened Wrappers
  import opened Strings

  const DefaultOutput := "combined.pdf"

  /** The list comprehension: names ending in ".pdf" (case-sensitive), other than the output. */
  function SelectPdfs(listing: seq<string>, outputFile: string): (r: seq<string>)
    ensures |r| <= |listing|
  {
    if listing == [] then []
    else
      var f := listing[0];
      var rest := SelectPdfs(listing[1..], outputFile);
      if EndsWith(f, ".pdf") && f != outputFile then [f] + rest else rest
  }

  /** A name is selected exactly when it is listed, ends in ".pdf" and is not the output name. */
  lemma {:induction false} SelectPdfsMembers(listing: seq<string>, outputFile: string, f: string)
    ensures f in SelectPdfs(listing, outputFile) <==> f in listing && EndsWith(f, ".pdf") && f != outputFile
    decreases |listing|
  {
    if listing != [] {
      SelectPdfsMembers(listing[1..], outputFile, f);
      assert listing == [listing[0]] + listing[1..];
    }
  }

  ghost predicate Sorted(s: seq<string>) {
    forall i, j :: 0 <= i < j < |s| ==> LexLessEq(s[i], s[j])
  }

  /** Two sorted arrangements of the same names are the same sequence. */
  lemma {:induction false} SortedUnique(a: seq<string>, b: seq<string>)
    requires Sorted(a) && Sorted(b) && multiset(a) == multiset(b)
    ensures a == b
    decreases |a|
  {
    if a != [] {
      SortedHeads(a, b);
      var x := a[0];
      assert multiset(a[1..]) == multiset(b[1..]) by {
        assert a == [x] + a[1..] && b == [x] + b[1..];
        assert multiset(a) == multiset{x} + multiset(a[1..]);
        assert multiset(b) == multiset{x} + multiset(b[1..]);
        assert (multiset{x} + multiset(a[1..])) - multiset{x} == multiset(a[1..]);
        assert (multiset{x} + multiset(b[1..])) - multiset{x} == multiset(b[1..]);
      }
      SortedTail(a);
      SortedTail(b);
      SortedUnique(a[1..], b[1..]);
      assert a == [x] + a[1..] && b == [x] + b[1..];
    } else {
      assert |b| == |multiset(b)| == 0;
    }
  }

  lemma SortedTail(a: seq<string>)
    requires Sorted(a) && a != []
    ensures Sorted(a[1..])
  {
    forall i, j | 0 <= i < j < |a| - 1 ensures LexLessEq(a[1..][i], a[1..][j]) {
      assert a[1..][i] == a[i + 1] && a[1..][j] == a[j + 1];
    }
  }

  lemma SortedHeads(a: seq<string>, b: seq<string>)
    requires Sorted(a) && Sorted(b) && multiset(a) == multiset(b) && a != []
    ensures b != [] && a[0] == b[0]
  {
    assert a[0] in multiset(b);
    var i :| 0 <= i < |b| && b[i] == a[0];
    assert b[0] in multiset(a);
    var j :| 0 <= j < |a| && a[j] == b[0];
    if i > 0 { assert LexLessEq(b[0], b[i]); } else { LexReflexive(b[0]); }
    if j > 0 { assert LexLessEq(a[0], a[j]); } else { LexReflexive(a[0]); }
    LexAntisymmetric(a[0], b[0]);
  }

  /** pdf_files.sort(): an insertion sort in place, ascending in Python's string order. */
  method SortFiles(a: array<string>)
    modifies a
    ensures Sorted(a[..])
    ensures multiset(a[..]) == multiset(old(a[..]))
  {
    if a.Length == 0 {
      return;
    }
    var i := 1;
    while i < a.Length
      invariant 1 <= i <= a.Length
      invariant forall p, q :: 0 <= p < q < i ==> LexLessEq(a[p], a[q])
      invariant multiset(a[..]) == multiset(old(a[..]))
    {
      InsertLast(a, i);
      i := i + 1;
    }
  }

  /** One pass of the insertion sort: swap a[i] down into the sorted prefix a[..i]. */
  method InsertLast(a: array<string>, i: nat)
    requires 1 <= i < a.Length
    requires forall p, q :: 0 <= p < q < i ==> LexLessEq(a[p], a[q])
    modifies a
    ensures forall p, q :: 0 <= p < q <= i ==> LexLessEq(a[p], a[q])
    ensures multiset(a[..]) == multiset(old(a[..]))
  {
    var j := i;
    while j > 0 && !LexLessEq(a[j - 1], a[j])
      invariant 0 <= j <= i
      invariant forall p, q :: 0 <= p < q <= i && p != j && q != j ==> LexLessEq(a[p], a[q])
      invariant forall q :: j < q <= i ==> LexLessEq(a[j], a[q])
      invariant multiset(a[..]) == multiset(old(a[..]))
    {
      LexTotal(a[j - 1], a[j]);
      a[j - 1], a[j] := a[j], a[j - 1];
      j := j - 1;
    }
    forall p | 0 <= p < j
      ensures LexLessEq(a[p], a[j])
    {
      if p < j - 1 {
        LexTransitive(a[p], a[j - 1], a[j]);
      }
    }
  }

  /** The PdfMerger: the paths appended to it, in order. */
  class Merger {
    var inputs: seq<string>

    constructor ()
      ensures inputs == []
    {
      inputs := [];
    }

    method Append(path: string)
      modifies this
      ensures inputs == old(inputs) + [path]
    {
      inputs := inputs + [path];
    }
  }

  /**
   * combine_pdfs: the folder defaults to the current directory cwd; listing is
   * what os.listdir returned for it. Returns the output path, the sorted
   * selection and the paths appended to the merger.
   */
  method CombinePdfs(inputFolder: Option<string>, outputFile: string, cwd: string, listing: seq<string>)
    returns (outputPath: string, pdfFiles: seq<string>, merged: seq<string>)
    ensures var folder := if inputFolder.None? then cwd else inputFolder.value;
      outputPath == Join(folder, outputFile) &&
      |merged| == |pdfFiles| &&
      forall k :: 0 <= k < |pdfFiles| ==> merged[k] == Join(folder, pdfFiles[k])
    ensures Sorted(pdfFiles)
    ensures multiset(pdfFiles) == multiset(SelectPdfs(listing, outputFile))
  {
    var folder := if inputFolder.None? then cwd else inputFolder.value;
    var merger := new Merger();
    var selected := SelectPdfs(listing, outputFile);
    var files := new string[|selected|](i requires 0 <= i < |selected| => selected[i]);
    assert files[..] == selected;
    SortFiles(files);
    pdfFiles := files[..];
    for k := 0 to |pdfFiles|
      invariant |merger.inputs| == k
      invariant forall m :: 0 <= m < k ==> merger.inputs[m] == Join(folder, pdfFiles[m])
    {
      merger.Append(Join(folder, pdfFiles[k]));
    }
    merged := merger.inputs;
    outputPath := Join(folder, outputFile);
  }

  /** The positional arguments: [input_folder] [output_file], both optional. */
  function CliArguments(argv: seq<string>): (Option<string>, string) {
    (if |argv| > 1 then Some(argv[1]) else None, if |argv| > 2 then argv[2] else DefaultOutput)
  }

  /**
   * The __main__ block: read the optional arguments and merge; the printed
   * path is the folder (argv[1], or cwd) joined with argv[2] or "combined.pdf".
   */
  method MergeFromCommandLine(argv: seq<string>, cwd: string, listing: seq<string>)
    returns (outputPath: string, pdfFiles: seq<string>, merged: seq<string>)
    ensures var folder := if |argv| > 1 then argv[1] else cwd;
      var outputFile := if |argv| > 2 then argv[2] else DefaultOutput;
      outputPath == Join(folder, outputFile) &&
      Sorted(pdfFiles) &&
      multiset(pdfFiles) == multiset(SelectPdfs(listing, outputFile)) &&
      |merged| == |pdfFiles| &&
      forall k :: 0 <= k < |pdfFiles| ==> merged[k] == Join(folder, pdfFiles[k])
  {
    var (inputFolder, outputFile) := CliArguments(argv);
    outputPath, pdfFiles, merged := CombinePdfs(inputFolder, outputFile, cwd, listing);
  }

  /**
   * What CombinePdfs selects: every listed name ending in ".pdf" other than
   * the output name, and nothing else; so the output is never an input.
   */
  lemma SelectionMembers(listing: seq<string>, outputFile: string, pdfFiles: seq<string>)
    requires multiset(pdfFiles) == multiset(SelectPdfs(listing, outputFile))
    ensures forall f :: f in pdfFiles <==> f in listing && EndsWith(f, ".pdf") && f != outputFile
    ensures outputFile !in pdfFiles
    ensures forall f :: f in pdfFiles ==> EndsWith(f, ".pdf")
  {
    forall f ensures f in pdfFiles <==> f in listing && EndsWith(f, ".pdf") && f != outputFile {
      SelectPdfsMembers(listing, outputFile, f);
      assert f in pdfFiles <==> f in multiset(pdfFiles);
      assert f in SelectPdfs(listing, outputFile) <==> f in multiset(SelectPdfs(listing, outputFile));
    }
  }

  lemma SelectExample()
    ensures SelectPdfs(["b.pdf", "combined.pdf", "a.pdf", "X.PDF", "notes.txt", "c.pdf"], DefaultOutput)
      == ["b.pdf", "a.pdf", "c.pdf"]
    ensures SelectPdfs(["notes.txt", "X.PDF"], DefaultOutput) == []
  {
    var l := ["b.pdf", "combined.pdf", "a.pdf", "X.PDF", "notes.txt", "c.pdf"];
    assert EndsWith("b.pdf", ".pdf") && EndsWith("a.pdf", ".pdf") && EndsWith("c.pdf", ".pdf");
    assert !EndsWith("X.PDF", ".pdf") && !EndsWith("notes.txt", ".pdf");
    assert l[1..][1..][1..][1..][1..][1..] == [];
    assert SelectPdfs(l[1..][1..][1..][1..][1..], DefaultOutput) == ["c.pdf"];
    assert SelectPdfs(l[1..][1..][1..][1..], DefaultOutput) == ["c.pdf"];
    assert SelectPdfs(l[1..][1..][1..], DefaultOutput) == ["c.pdf"];
    assert SelectPdfs(l[1..][1..], DefaultOutput) == ["a.pdf", "c.pdf"];
    assert SelectPdfs(l[1..], DefaultOutput) == ["a.pdf", "c.pdf"];
    var m := ["notes.txt", "X.PDF"];
    assert SelectPdfs(m[1..], DefaultOutput) == [];
  }

  lemma SortedThree(a: string, b: string, c: string)
    requires LexLessEq(a, b) && LexLessEq(b, c)
    ensures Sorted([a, b, c])
  {
    LexTransitive(a, b, c);
  }

  lemma ExampleNamesOrdered()
    ensures LexLessEq("a.pdf", "b.pdf") && LexLessEq("b.pdf", "c.pdf")
  {
  }

  /**
   * b.pdf, a.pdf and c.pdf are merged as a.pdf, b.pdf, c.pdf; the existing
   * output, an upper-case .PDF and a text file are not merged; a folder with
   * no PDF gives an empty merge.
   */
  lemma MergeOrderExample(pdfFiles: seq<string>, noneFound: seq<string>)
    requires Sorted(pdfFiles)
    requires multiset(pdfFiles) ==
      multiset(SelectPdfs(["b.pdf", "combined.pdf", "a.pdf", "X.PDF", "notes.txt", "c.pdf"], DefaultOutput))
    requires multiset(noneFound) == multiset(SelectPdfs(["notes.txt", "X.PDF"], DefaultOutput))
    ensures pdfFiles == ["a.pdf", "b.pdf", "c.pdf"]
    ensures noneFound == []
  {
    var expected := ["a.pdf", "b.pdf", "c.pdf"];
    SelectExample();
    ExampleNamesOrdered();
    SortedThree("a.pdf", "b.pdf", "c.pdf");
    assert multiset(expected) == multiset(["b.pdf", "a.pdf", "c.pdf"]);
    SortedUnique(pdfFiles, expected);
    assert |noneFound| == |multiset(noneFound)| == 0;
  }
}
