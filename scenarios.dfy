/**
  Small trees rendered end to end: the output of the walk and what a writer
  receives from `DirTree`.
 */
module Scenarios {
  import opened Wrappers
  import opened Lexical
  import opened Decimal
  import opened Tree
  import opened Listing
  import opened Format
  import opened Output
  import opened Render
  import opened RenderFacts

  /** A directory `A` holding a five-byte file `f.txt` and an empty
      subdirectory `B`, listed by the filesystem in that order. */
  function SampleTree(): (t: Entry)
  {
    Dir("A", [File("f.txt", 5), Dir("B", [])])
  }

  lemma SampleOrder()
    ensures Prepare(SampleTree().children, true) == [Dir("B", []), File("f.txt", 5)]
    ensures Prepare(SampleTree().children, false) == [Dir("B", [])]
  {
    var f, b := File("f.txt", 5), Dir("B", []);
    assert Less(b.name, f.name);
    assert [f, b][1..] == [b];
    assert Insert(b, []) == [b];
    assert SortSpec([b]) == [b];
    assert Insert(f, []) == [f];
    assert Insert(f, [b]) == [b, f];
    assert DirsOnly([f]) == [];
    assert [f, b][..1] == [f];
    assert DirsOnly([f, b]) == [b];
  }

  /** A walk of two single-row items. */
  lemma TwoRows(dir: Entry, files: seq<Entry>, printFiles: bool, prefix: string, r0: Row, r1: Row)
    requires ChildrenOf(files, dir) && |files| == 2
    requires Item(files[0], false, printFiles, prefix) == Trace([r0], None)
    requires Item(files[1], true, printFiles, prefix) == Trace([r1], None)
    ensures Level(dir, files, printFiles, prefix, 0) == Trace([r0, r1], None)
  {
    LevelStep(dir, files, printFiles, prefix, 0);
    LevelStep(dir, files, printFiles, prefix, 1);
    assert [r1] + [] == [r1];
    assert [r0] + [r1] == [r0, r1];
  }

  /** A walk of one single-row item. */
  lemma OneRow(dir: Entry, files: seq<Entry>, printFiles: bool, prefix: string, r0: Row)
    requires ChildrenOf(files, dir) && |files| == 1
    requires Item(files[0], true, printFiles, prefix) == Trace([r0], None)
    ensures Level(dir, files, printFiles, prefix, 0) == Trace([r0], None)
  {
    LevelStep(dir, files, printFiles, prefix, 0);
    assert [r0] + [] == [r0];
  }

  lemma EmptyDirItem(name: string, last: bool, printFiles: bool, prefix: string)
    ensures Item(Dir(name, []), last, printFiles, prefix) == Trace([Row(prefix, last, Dir(name, []))], None)
  {
    NothingToShow(Dir(name, []), printFiles, ChildPrefix(prefix, last));
    assert [Row(prefix, last, Dir(name, []))] + [] == [Row(prefix, last, Dir(name, []))];
  }

  lemma TwoLines(r0: Row, r1: Row)
    ensures Lines([r0, r1]) == [Text(r0), Text(r1)]
  {
  }

  lemma SampleWithFilesRows()
    ensures DrawSpec(SampleTree(), true, "") == Trace([Row("", false, Dir("B", [])), Row("", true, File("f.txt", 5))], None)
  {
    var f, b := File("f.txt", 5), Dir("B", []);
    SampleOrder();
    EmptyDirItem("B", false, true, "");
    TwoRows(SampleTree(), [b, f], true, "", Row("", false, b), Row("", true, f));
  }

  lemma SampleTexts()
    ensures Text(Row("", false, Dir("B", []))) == "├───B\n"
    ensures Text(Row("", true, Dir("B", []))) == "└───B\n"
    ensures Text(Row("", true, File("f.txt", 5))) == "└───f.txt (5b)\n"
  {
    assert NatToString(5) == "5";
  }

  /** With files: the subdirectory first, then the file with its size. */
  lemma SampleWithFiles()
    ensures var t := DrawSpec(SampleTree(), true, "");
      t.failure == None && Lines(t.rows) == ["├───B\n", "└───f.txt (5b)\n"]
  {
    SampleWithFilesRows();
    SampleTexts();
    TwoLines(Row("", false, Dir("B", [])), Row("", true, File("f.txt", 5)));
  }

  lemma SampleDirsOnlyRows()
    ensures DrawSpec(SampleTree(), false, "") == Trace([Row("", true, Dir("B", []))], None)
  {
    var b := Dir("B", []);
    SampleOrder();
    EmptyDirItem("B", true, false, "");
    OneRow(SampleTree(), [b], false, "", Row("", true, b));
  }

  /** Without files: the subdirectory alone, now the last entry. */
  lemma SampleDirsOnly()
    ensures var t := DrawSpec(SampleTree(), false, "");
      t.failure == None && Lines(t.rows) == ["└───B\n"]
  {
    SampleDirsOnlyRows();
    SampleTexts();
    OneLine(Row("", true, Dir("B", [])));
  }

  lemma OneLine(r: Row)
    ensures Lines([r]) == [Text(r)]
  {
  }

  lemma EmptyFileRows()
    ensures DrawSpec(Dir("root", [File("empty.txt", 0)]), true, "") == Trace([Row("", true, File("empty.txt", 0))], None)
  {
    var e := File("empty.txt", 0);
    var root := Dir("root", [e]);
    assert Prepare(root.children, true) == [e] by {
      assert Insert(e, []) == [e];
      assert [e][1..] == [];
    }
    OneRow(root, [e], true, "", Row("", true, e));
  }

  /** A directory holding one empty file: the file's size reads `empty`. */
  lemma EmptyFile()
    ensures var t := DrawSpec(Dir("root", [File("empty.txt", 0)]), true, "");
      t.failure == None && Lines(t.rows) == ["└───empty.txt (empty)\n"]
  {
    EmptyFileRows();
    var re := Row("", true, File("empty.txt", 0));
    assert Text(re) == "└───empty.txt (empty)\n";
    OneLine(re);
  }

  lemma UnreadableOrder()
    ensures Prepare([Dir("y", []), Unreadable("x")], false) == [Unreadable("x"), Dir("y", [])]
  {
    var x, y := Unreadable("x"), Dir("y", []);
    assert DirsOnly([y]) == [y];
    assert [y, x][..1] == [y];
    assert DirsOnly([y, x]) == [y, x];
    assert [y, x][1..] == [x];
    assert Insert(x, []) == [x];
    assert SortSpec([x]) == [x];
    assert Less(x.name, y.name);
    assert Insert(y, [x]) == [x, y];
  }

  lemma UnreadableRows()
    ensures DrawSpec(Dir("A", [Dir("y", []), Unreadable("x")]), false, "")
      == Trace([Row("", false, Unreadable("x"))], Some(CannotRead("x")))
  {
    var x, y := Unreadable("x"), Dir("y", []);
    var rx := Row("", false, x);
    var root := Dir("A", [y, x]);
    UnreadableOrder();
    LevelStep(root, [x, y], false, "", 0);
    assert Item(x, false, false, "") == Trace([rx], Some(CannotRead("x"))) by {
      assert [rx] + [] == [rx];
    }
  }

  /** An unreadable subdirectory ends the walk: its line is out, the error is
      its own, and the sibling after it is never drawn. */
  lemma UnreadableStops()
    ensures var t := DrawSpec(Dir("A", [Dir("y", []), Unreadable("x")]), false, "");
      t.failure == Some(CannotRead("x")) && Lines(t.rows) == ["├───x\n"]
  {
    UnreadableRows();
    var rx := Row("", false, Unreadable("x"));
    assert Text(rx) == "├───x\n";
    OneLine(rx);
  }

  /** A writer with room for one line gets the first line of the sample,
      and refuses the second. */
  lemma ShortWriterDelivery()
    ensures var d := Deliver(DrawSpec(SampleTree(), true, ""), 1);
      Lines(d.rows) == ["├───B\n"] && d.failure == Some(WriteFailed("└───f.txt (5b)\n"))
  {
    var rb, rf := Row("", false, Dir("B", [])), Row("", true, File("f.txt", 5));
    SampleWithFilesRows();
    SampleTexts();
    assert [rb, rf][..1] == [rb];
    OneLine(rb);
  }

  /** `DirTree` on the sample with a writer that takes every line. */
  method SampleRun() returns (lines: seq<string>, err: Option<Error>)
    ensures lines == ["├───B\n", "└───f.txt (5b)\n"] && err == None
  {
    var out := new Writer(10);
    err := DirTree(out, SampleTree(), true);
    SampleWithFiles();
    assert [] + ["├───B\n", "└───f.txt (5b)\n"] == ["├───B\n", "└───f.txt (5b)\n"];
    lines := out.lines;
  }

  /** The same run with a writer that refuses its second line: the first
      line is out, and the refused line is the error. */
  method SampleRunShortWriter() returns (lines: seq<string>, err: Option<Error>)
    ensures lines == ["├───B\n"] && err == Some(WriteFailed("└───f.txt (5b)\n"))
  {
    var out := new Writer(1);
    err := DirTree(out, SampleTree(), true);
    ShortWriterDelivery();
    lines := out.lines;
  }
}
