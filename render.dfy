/**
  The depth-first renderer: `drawFileStructureRecursively` and `dirTree`.
  `DrawSpec` says which rows a walk emits and which error ends it, as if the
  sink never failed; `DrawRecursively` writes to a `Writer` and is proved to
  emit exactly what the sink lets through of `DrawSpec`.
 */
module Render {
  import opened Wrappers
  import opened Tree
  import opened Listing
  import opened Format
  import opened Output

  /** The walk of `node` with `prefix` inherited from the enclosing levels:
      a directory's entries are walked in display order. */
  function DrawSpec(node: Entry, printFiles: bool, prefix: string): (t: Trace)
    decreases node, 1
  {
    match node
    case Unreadable(name) => Trace([], Some(CannotRead(name)))
    case File(name, _) => Trace([], Some(NotADirectory(name)))
    case Dir(_, children) => Level(node, Prepare(children, printFiles), printFiles, prefix, 0)
  }

  /** `files` are entries of the directory `dir`. */
  predicate ChildrenOf(files: seq<Entry>, dir: Entry)
  {
    dir.Dir? && forall i :: 0 <= i < |files| ==> files[i] in dir.children
  }

  /** The walk of the entries `files` of `dir` from position `from` on. */
  function Level(dir: Entry, files: seq<Entry>, printFiles: bool, prefix: string, from: nat): (t: Trace)
    requires ChildrenOf(files, dir)
    decreases dir, 0, |files| - from
  {
    if from >= |files| then Trace([], None)
    else Then(Item(files[from], from == |files| - 1, printFiles, prefix),
              Level(dir, files, printFiles, prefix, from + 1))
  }

  /** One entry: its own line, then, for a directory, the walk below it. */
  function Item(e: Entry, last: bool, printFiles: bool, prefix: string): (t: Trace)
    decreases e, 2
  {
    var row := Row(prefix, last, e);
    if IsDir(e) then Then(Trace([row], None), DrawSpec(e, printFiles, ChildPrefix(prefix, last)))
    else Trace([row], None)
  }

  /** Whatever an in-place sort leaves in the array is the display order. */
  lemma SortedIsDisplayOrder(children: seq<Entry>, printFiles: bool, sorted: seq<Entry>)
    requires UniqueNames(children)
    requires SortedByName(sorted)
    requires multiset(sorted) == multiset(if printFiles then children else DirsOnly(children))
    ensures sorted == Prepare(children, printFiles)
  {
    PrepareOrdered(children, printFiles);
    SortSpecSorted(if printFiles then children else DirsOnly(children));
    SortedPermutationsEqual(Prepare(children, printFiles), sorted);
  }

  /** Entry `i` comes first in the walk from `i` on. */
  lemma LevelStep(dir: Entry, files: seq<Entry>, printFiles: bool, prefix: string, i: nat)
    requires ChildrenOf(files, dir)
    requires i < |files|
    ensures Level(dir, files, printFiles, prefix, i)
      == Then(Item(files[i], i == |files| - 1, printFiles, prefix), Level(dir, files, printFiles, prefix, i + 1))
  {
  }

  /** Past the last entry nothing is left. */
  lemma LevelEnd(dir: Entry, files: seq<Entry>, printFiles: bool, prefix: string, room: nat)
    requires ChildrenOf(files, dir)
    ensures Deliver(Level(dir, files, printFiles, prefix, |files|), room) == Trace([], None)
  {
  }

  /** `drawFileStructureRecursively`. The sink accepts `out.room` more writes;
      what it receives is exactly what it lets through of `DrawSpec`, and the
      error returned is the first one the walk hits. */
  method DrawRecursively(out: Writer, node: Entry, printFiles: bool, prefix: string) returns (err: Option<Error>)
    requires WellFormed(node)
    modifies out
    ensures var d := Deliver(DrawSpec(node, printFiles, prefix), old(out.room));
      && out.lines == old(out.lines) + Lines(d.rows)
      && out.room == old(out.room) - |d.rows|
      && err == d.failure
      && out.refusals == old(out.refusals) + Refused(d)
    decreases node, 2
  {
    match node {
      case Unreadable(name) =>
        return Some(CannotRead(name));
      case File(name, _) =>
        return Some(NotADirectory(name));
      case Dir(_, children) =>
        var files := children;
        if !printFiles {
          files := FilterFiles(files);
        }
        var a := new Entry[|files|](i requires 0 <= i < |files| => files[i]);
        assert a[..] == files;
        SortFiles(a);
        SortedIsDisplayOrder(children, printFiles, a[..]);
        assert forall i :: 0 <= i < a.Length ==> WellFormed(a[i]) by {
          forall i | 0 <= i < a.Length
            ensures WellFormed(a[i])
          {
            assert a[..][i] in children;
          }
        }
        err := DrawSorted(out, node, a, printFiles, prefix);
    }
  }

  /** The loop of `drawFileStructureRecursively` over the entries of `dir`,
      already filtered and sorted into `files`. */
  method DrawSorted(out: Writer, dir: Entry, files: array<Entry>, printFiles: bool, prefix: string)
    returns (err: Option<Error>)
    requires ChildrenOf(files[..], dir)
    requires forall i :: 0 <= i < files.Length ==> WellFormed(files[i])
    modifies out
    ensures var d := Deliver(Level(dir, files[..], printFiles, prefix, 0), old(out.room));
      && out.lines == old(out.lines) + Lines(d.rows)
      && out.room == old(out.room) - |d.rows|
      && err == d.failure
      && out.refusals == old(out.refusals) + Refused(d)
    decreases dir, 1
  {
    // The delivery to be proved, and the walk still to be done.
    ghost var fs := files[..];
    ghost var rest := Level(dir, fs, printFiles, prefix, 0);
    ghost var total := Deliver(rest, out.room);
    ghost var base, room0, refused0 := out.lines, out.room, out.refusals;
    ghost var done: seq<Row> := [];
    assert out.lines == base + Lines(done) by {
      assert Lines([]) == [] && base + [] == base;
    }
    assert total == Then(Trace(done, None), Deliver(rest, out.room)) by {
      assert [] + Deliver(rest, out.room).rows == Deliver(rest, out.room).rows;
    }
    var fileIndex := 0;
    while fileIndex < files.Length
      invariant 0 <= fileIndex <= files.Length
      invariant files[..] == fs
      invariant out.lines == base + Lines(done)
      invariant out.room + |done| == room0
      invariant out.refusals == refused0
      invariant total == Then(Trace(done, None), Deliver(Level(dir, fs, printFiles, prefix, fileIndex), out.room))
    {
      var e;
      e, done := DrawIndex(out, dir, files, printFiles, prefix, fileIndex, base, room0, refused0, done, total);
      if e.Some? {
        return e;
      }
      fileIndex := fileIndex + 1;
    }
    assert total == Trace(done, None) && Refused(total) == 0 by {
      LevelEnd(dir, fs, printFiles, prefix, out.room);
      assert done + [] == done;
    }
    return None;
  }

  /** One turn of the loop in `DrawSorted`: picks the glyph and the child
      prefix for entry `fileIndex`, last or not, and draws the entry. `done`
      holds the rows delivered so far and `total` the delivery of the whole
      loop; the turn either ends the loop with the delivery's outcome, or
      hands on the rows delivered so far. */
  method DrawIndex(out: Writer, dir: Entry, files: array<Entry>, printFiles: bool, prefix: string, fileIndex: nat,
                   ghost base: seq<string>, ghost room0: nat, ghost refused0: nat, ghost done: seq<Row>, ghost total: Trace)
    returns (err: Option<Error>, ghost next: seq<Row>)
    requires ChildrenOf(files[..], dir) && fileIndex < files.Length
    requires forall i :: 0 <= i < files.Length ==> WellFormed(files[i])
    requires out.lines == base + Lines(done) && out.room + |done| == room0 && out.refusals == refused0
    requires total == Then(Trace(done, None), Deliver(Level(dir, files[..], printFiles, prefix, fileIndex), out.room))
    modifies out
    ensures err.Some? ==>
      && out.lines == base + Lines(total.rows)
      && out.room == room0 - |total.rows|
      && err == total.failure
      && out.refusals == refused0 + Refused(total)
    ensures err.None? ==>
      && out.lines == base + Lines(next)
      && out.room + |next| == room0
      && out.refusals == refused0
      && total == Then(Trace(next, None), Deliver(Level(dir, files[..], printFiles, prefix, fileIndex + 1), out.room))
    decreases dir, 0
  {
    var file := files[fileIndex];
    var currentPrefix := prefix + "├───";
    var nextPrefix := prefix + "│\t";
    // Last element.
    if files.Length - 1 == fileIndex {
      currentPrefix := prefix + "└───";
      nextPrefix := prefix + "\t";
    }
    ghost var last := files.Length - 1 == fileIndex;
    ghost var lines, r := out.lines, out.room;
    err := DrawEntry(out, file, printFiles, currentPrefix, nextPrefix, prefix, last);
    ghost var d := Deliver(Item(file, last, printFiles, prefix), r);
    EntryDone(base, lines, room0, done, total, dir, files[..], printFiles, prefix, fileIndex, r, out.lines, out.room);
    next := done + d.rows;
  }

  /** The bookkeeping of one turn of the loop in `DrawSorted`: after entry `i`
      is drawn, what reached the writer and what is left to deliver. */
  lemma EntryDone(base: seq<string>, lines: seq<string>, room0: nat, done: seq<Row>, total: Trace,
                  dir: Entry, files: seq<Entry>, printFiles: bool, prefix: string, i: nat, room: nat,
                  newLines: seq<string>, newRoom: int)
    requires ChildrenOf(files, dir) && i < |files|
    requires lines == base + Lines(done) && room + |done| == room0
    requires total == Then(Trace(done, None), Deliver(Level(dir, files, printFiles, prefix, i), room))
    requires var d := Deliver(Item(files[i], |files| - 1 == i, printFiles, prefix), room);
      newLines == lines + Lines(d.rows) && newRoom == room - |d.rows|
    ensures var d := Deliver(Item(files[i], |files| - 1 == i, printFiles, prefix), room);
      && newLines == base + Lines(done + d.rows)
      && newRoom >= 0 && newRoom + |done + d.rows| == room0
      && (d.failure.Some? ==> total == Trace(done + d.rows, d.failure) && Refused(total) == Refused(d))
      && (d.failure.None? ==>
            Refused(d) == 0 &&
            total == Then(Trace(done + d.rows, None), Deliver(Level(dir, files, printFiles, prefix, i + 1), newRoom)))
  {
    var item := Item(files[i], |files| - 1 == i, printFiles, prefix);
    var next := Level(dir, files, printFiles, prefix, i + 1);
    var d := Deliver(item, room);
    LevelStep(dir, files, printFiles, prefix, i);
    AdvancePast(total, done, item, next, room);
    LinesConcat(done, d.rows);
    AppendAssociative(base, Lines(done), Lines(d.rows));
  }

  /** The body of the loop for one entry: its line and, for a directory, the
      walk below it. `currentPrefix` and `nextPrefix` are the strings the
      loop built for the entry at `prefix`, last in its directory or not. */
  method DrawEntry(out: Writer, file: Entry, printFiles: bool, currentPrefix: string, nextPrefix: string,
                   ghost prefix: string, ghost last: bool)
    returns (err: Option<Error>)
    requires WellFormed(file)
    requires currentPrefix == prefix + Glyph(last) && nextPrefix == ChildPrefix(prefix, last)
    modifies out
    ensures var d := Deliver(Item(file, last, printFiles, prefix), old(out.room));
      && out.lines == old(out.lines) + Lines(d.rows)
      && out.room == old(out.room) - |d.rows|
      && err == d.failure
      && out.refusals == old(out.refusals) + Refused(d)
    decreases file, 4
  {
    if IsDir(file) {
      err := DrawDirectory(out, file, printFiles, currentPrefix, nextPrefix, prefix, last);
    } else {
      err := DrawFile(out, file, printFiles, currentPrefix, prefix, last);
    }
  }

  /** A directory entry: its line, then the walk below it with the child
      prefix; a refused line ends it before the walk. */
  method DrawDirectory(out: Writer, file: Entry, printFiles: bool, currentPrefix: string, nextPrefix: string,
                       ghost prefix: string, ghost last: bool)
    returns (err: Option<Error>)
    requires IsDir(file) && WellFormed(file)
    requires currentPrefix == prefix + Glyph(last) && nextPrefix == ChildPrefix(prefix, last)
    modifies out
    ensures var d := Deliver(Item(file, last, printFiles, prefix), old(out.room));
      && out.lines == old(out.lines) + Lines(d.rows)
      && out.room == old(out.room) - |d.rows|
      && err == d.failure
      && out.refusals == old(out.refusals) + Refused(d)
    decreases file, 3
  {
    ghost var row := Row(prefix, last, file);
    ghost var r, before, refused0 := out.room, out.lines, out.refusals;
    assert Text(row) == currentPrefix + file.name + "\n";
    err := out.Write(currentPrefix + file.name + "\n");
    if err.Some? {
      DirectoryDone(file, last, printFiles, prefix, r, before, refused0, out.lines, out.room, err, out.refusals);
      return;
    }
    err := DrawRecursively(out, file, printFiles, nextPrefix);
    DirectoryDone(file, last, printFiles, prefix, r, before, refused0, out.lines, out.room, err, out.refusals);
  }

  /** The delivery of a directory's item, told from the writer's side: a
      refused line when there was no room, otherwise its line and then the
      walk below it in the room that is left, add up to the delivery of
      `Item`. */
  lemma DirectoryDone(file: Entry, last: bool, printFiles: bool, prefix: string, r: nat,
                      before: seq<string>, refused0: nat, lines: seq<string>, room: int, failure: Option<Error>,
                      refusals: nat)
    requires IsDir(file)
    requires r == 0 ==>
      && lines == before && room == 0 && refusals == refused0 + 1
      && failure == Some(WriteFailed(Text(Row(prefix, last, file))))
    requires r > 0 ==>
      var s := Deliver(DrawSpec(file, printFiles, ChildPrefix(prefix, last)), r - 1);
      && lines == before + [Text(Row(prefix, last, file))] + Lines(s.rows)
      && room == r - 1 - |s.rows|
      && failure == s.failure
      && refusals == refused0 + Refused(s)
    ensures var d := Deliver(Item(file, last, printFiles, prefix), r);
      && lines == before + Lines(d.rows)
      && room == r - |d.rows|
      && failure == d.failure
      && refusals == refused0 + Refused(d)
  {
    var row := Row(prefix, last, file);
    var sub := DrawSpec(file, printFiles, ChildPrefix(prefix, last));
    assert Item(file, last, printFiles, prefix) == Then(Trace([row], None), sub);
    DeliverRowThen(row, sub, r);
    if r > 0 {
      LinesCons(row, Deliver(sub, r - 1).rows);
      AppendAssociative(before, [Text(row)], Lines(Deliver(sub, r - 1).rows));
    } else {
      assert before + [] == before;
    }
  }

  /** A file entry: one line with its size label. */
  method DrawFile(out: Writer, file: Entry, printFiles: bool, currentPrefix: string,
                  ghost prefix: string, ghost last: bool)
    returns (err: Option<Error>)
    requires file.File?
    requires currentPrefix == prefix + Glyph(last)
    modifies out
    ensures var d := Deliver(Item(file, last, printFiles, prefix), old(out.room));
      && out.lines == old(out.lines) + Lines(d.rows)
      && out.room == old(out.room) - |d.rows|
      && err == d.failure
      && out.refusals == old(out.refusals) + Refused(d)
  {
    ghost var row := Row(prefix, last, file);
    ghost var r, before := out.room, out.lines;
    ghost var total := Deliver(Item(file, last, printFiles, prefix), r);
    assert total == if r == 0 then Trace([], Some(WriteFailed(Text(row)))) else Trace([row], None) by {
      assert Item(file, last, printFiles, prefix) == Trace([row], None);
      DeliverRow(row, r);
    }
    assert Refused(total) == if r == 0 then 1 else 0;
    var fileSizeStr := SizeLabel(file.size);
    assert Text(row) == currentPrefix + file.name + " (" + fileSizeStr + ")\n";
    err := out.Write(currentPrefix + file.name + " (" + fileSizeStr + ")\n");
    assert out.lines == before + Lines(total.rows) by {
      LinesCons(row, []);
      assert [row] + [] == [row];
      assert Lines([]) == [] && before + [] == before;
    }
  }

  /** `dirTree`: renders the root with an empty prefix and hands back the
      error of the walk unchanged. */
  method DirTree(out: Writer, root: Entry, printFiles: bool) returns (err: Option<Error>)
    requires WellFormed(root)
    modifies out
    ensures var d := Deliver(DrawSpec(root, printFiles, ""), old(out.room));
      && out.lines == old(out.lines) + Lines(d.rows)
      && out.room == old(out.room) - |d.rows|
      && err == d.failure
      && out.refusals == old(out.refusals) + Refused(d)
  {
    err := DrawRecursively(out, root, printFiles, "");
    if err.Some? {
      return err;
    }
    return None;
  }
}
