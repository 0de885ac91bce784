/**
  What the rendering promises, stated about `DrawSpec` (and so, through the
  contract of `DrawRecursively`, about what reaches the writer): the line
  count, the lines each level emits and their order, the prefixes, the
  directories-only mode, and the first error ending the walk.
 */
module RenderFacts {
  import opened Wrappers
  import opened Lexical
  import opened Tree
  import opened Listing
  import opened Format
  import opened Output
  import opened Render

  // ------------------------------------------------------------ line count

  /** The lines rendered below a directory, counted over its entries in the
      order the filesystem lists them: one per entry that survives the
      filter, plus the lines below every subdirectory. */
  function LineCount(e: Entry, printFiles: bool): (n: nat)
    decreases e, 1
  {
    match e
    case Dir(_, children) => EntriesCount(children, printFiles)
    case _ => 0
  }

  function EntriesCount(s: seq<Entry>, printFiles: bool): (n: nat)
    decreases s, 0
  {
    if s == [] then 0 else Weight(s[0], printFiles) + EntriesCount(s[1..], printFiles)
  }

  /** The lines one entry accounts for: its own line and those below it, or
      none when the filter drops it. */
  function Weight(x: Entry, printFiles: bool): (n: nat)
    decreases x, 2
  {
    if printFiles || IsDir(x) then 1 + LineCount(x, printFiles) else 0
  }

  lemma {:induction false} EntriesCountConcat(a: seq<Entry>, b: seq<Entry>, printFiles: bool)
    ensures EntriesCount(a + b, printFiles) == EntriesCount(a, printFiles) + EntriesCount(b, printFiles)
  {
    if a == [] {
      assert a + b == b;
    } else {
      assert (a + b)[1..] == a[1..] + b;
      EntriesCountConcat(a[1..], b, printFiles);
    }
  }

  /** Inserting an entry into a listing adds its weight, wherever it lands. */
  lemma {:induction false} EntriesCountInsert(x: Entry, s: seq<Entry>, printFiles: bool)
    ensures EntriesCount(Insert(x, s), printFiles) == Weight(x, printFiles) + EntriesCount(s, printFiles)
  {
    if s == [] || !Less(s[0].name, x.name) {
      assert ([x] + s)[1..] == s;
    } else {
      EntriesCountInsert(x, s[1..], printFiles);
      assert ([s[0]] + Insert(x, s[1..]))[1..] == Insert(x, s[1..]);
    }
  }

  /** Sorting does not change the count. */
  lemma {:induction false} EntriesCountSort(s: seq<Entry>, printFiles: bool)
    ensures EntriesCount(SortSpec(s), printFiles) == EntriesCount(s, printFiles)
  {
    if s != [] {
      EntriesCountSort(s[1..], printFiles);
      EntriesCountInsert(s[0], SortSpec(s[1..]), printFiles);
    }
  }

  /** Without files, dropping them does not change the count either. */
  lemma {:induction false} EntriesCountFilter(s: seq<Entry>)
    ensures EntriesCount(DirsOnly(s), false) == EntriesCount(s, false)
  {
    if s != [] {
      var init, last := s[..|s| - 1], s[|s| - 1];
      assert s == init + [last];
      EntriesCountFilter(init);
      EntriesCountConcat(init, [last], false);
      EntriesCountConcat(DirsOnly(init), if IsDir(last) then [last] else [], false);
      assert [last][1..] == [];
    }
  }

  /** The display order of a directory accounts for the same lines as its
      listing. */
  lemma PrepareCount(children: seq<Entry>, printFiles: bool)
    ensures EntriesCount(Prepare(children, printFiles), printFiles) == EntriesCount(children, printFiles)
  {
    var kept := if printFiles then children else DirsOnly(children);
    EntriesCountSort(kept, printFiles);
    if !printFiles {
      EntriesCountFilter(children);
    }
  }

  /** Without files, the display order holds directories only. */
  lemma PrepareDirs(children: seq<Entry>, printFiles: bool)
    ensures !printFiles ==> forall i :: 0 <= i < |Prepare(children, printFiles)| ==> IsDir(Prepare(children, printFiles)[i])
  {
    if !printFiles {
      var kept := DirsOnly(children);
      var r := Prepare(children, printFiles);
      forall i | 0 <= i < |r|
        ensures IsDir(r[i])
      {
        assert r[i] in multiset(kept);
      }
    }
  }

  /** A readable directory renders without error, one line per entry that
      survives the filter plus the lines below each subdirectory. */
  lemma {:induction false} DrawSpecCount(node: Entry, printFiles: bool, prefix: string)
    requires node.Dir? && Readable(node)
    ensures DrawSpec(node, printFiles, prefix).failure == None
    ensures |DrawSpec(node, printFiles, prefix).rows| == LineCount(node, printFiles)
    decreases node, 1
  {
    var files := Prepare(node.children, printFiles);
    PrepareDirs(node.children, printFiles);
    LevelCount(node, files, printFiles, prefix, 0);
    PrepareCount(node.children, printFiles);
    assert files[0..] == files;
  }

  lemma {:induction false} LevelCount(dir: Entry, files: seq<Entry>, printFiles: bool, prefix: string, from: nat)
    requires dir.Dir? && Readable(dir)
    requires ChildrenOf(files, dir)
    requires printFiles || forall i :: 0 <= i < |files| ==> IsDir(files[i])
    requires from <= |files|
    ensures Level(dir, files, printFiles, prefix, from).failure == None
    ensures |Level(dir, files, printFiles, prefix, from).rows| == EntriesCount(files[from..], printFiles)
    decreases dir, 0, |files| - from
  {
    if from < |files| {
      var e := files[from];
      var last := from == |files| - 1;
      ItemCount(e, last, printFiles, prefix);
      LevelCount(dir, files, printFiles, prefix, from + 1);
      assert files[from..][1..] == files[from + 1..];
      LevelStep(dir, files, printFiles, prefix, from);
    }
  }

  lemma {:induction false} ItemCount(e: Entry, last: bool, printFiles: bool, prefix: string)
    requires Readable(e)
    ensures Item(e, last, printFiles, prefix).failure == None
    ensures |Item(e, last, printFiles, prefix).rows| == 1 + LineCount(e, printFiles)
    decreases e, 2
  {
    if e.Dir? {
      DrawSpecCount(e, printFiles, ChildPrefix(prefix, last));
    }
  }

  /** An empty directory, or one holding only files when files are not
      printed, renders nothing and succeeds. */
  lemma NothingToShow(dir: Entry, printFiles: bool, prefix: string)
    requires dir.Dir?
    requires dir.children == [] || (!printFiles && forall i :: 0 <= i < |dir.children| ==> dir.children[i].File?)
    ensures DrawSpec(dir, printFiles, prefix) == Trace([], None)
  {
    if dir.children != [] {
      DirsOnlyNone(dir.children);
    }
  }

  lemma {:induction false} DirsOnlyNone(s: seq<Entry>)
    requires forall i :: 0 <= i < |s| ==> s[i].File?
    ensures DirsOnly(s) == []
  {
    if s != [] {
      DirsOnlyNone(s[..|s| - 1]);
    }
  }

  // ------------------------------------------------------ first lines

  /** An entry's own line comes first; a file is that one line and never
      fails. */
  lemma ItemFirst(e: Entry, last: bool, printFiles: bool, prefix: string)
    ensures var t := Item(e, last, printFiles, prefix);
      && t.rows != [] && t.rows[0] == Row(prefix, last, e)
      && (!IsDir(e) ==> |t.rows| == 1 && t.failure == None)
  {
  }

  /** A level draws nothing only when no entry is left; otherwise it starts
      with the line of entry `from`, flagged last when no entry follows. */
  lemma LevelFirst(dir: Entry, files: seq<Entry>, printFiles: bool, prefix: string, from: nat)
    requires ChildrenOf(files, dir)
    ensures var t := Level(dir, files, printFiles, prefix, from);
      && (t.rows == [] <==> from >= |files|)
      && (from < |files| ==> t.rows[0] == Row(prefix, from == |files| - 1, files[from]))
  {
    if from < |files| {
      LevelStep(dir, files, printFiles, prefix, from);
      ItemFirst(files[from], from == |files| - 1, printFiles, prefix);
    }
  }

  /** Anything but a directory is an error before any line; a directory
      draws nothing exactly when it has nothing to show. */
  lemma DrawSpecEmpty(node: Entry, printFiles: bool, prefix: string)
    ensures var t := DrawSpec(node, printFiles, prefix);
      && (!node.Dir? ==> t.rows == [] && t.failure.Some?)
      && (node.Dir? ==> (t.rows == [] <==> Prepare(node.children, printFiles) == []))
  {
    if node.Dir? {
      LevelFirst(node, Prepare(node.children, printFiles), printFiles, prefix, 0);
    }
  }

  // ------------------------------------------------------- where rows go

  /** Every row sits below `prefix`: its lead starts with it. */
  predicate Under(rows: seq<Row>, prefix: string)
  {
    forall i :: 0 <= i < |rows| ==> prefix <= rows[i].lead
  }

  /** No row is a file line. */
  predicate NoFileRows(rows: seq<Row>)
  {
    forall i :: 0 <= i < |rows| ==> IsDir(rows[i].entry)
  }

  lemma ThenKeeps(t: Trace, u: Trace, prefix: string, printFiles: bool)
    requires Under(t.rows, prefix) && Under(u.rows, prefix)
    requires !printFiles ==> NoFileRows(t.rows) && NoFileRows(u.rows)
    ensures Under(Then(t, u).rows, prefix)
    ensures !printFiles ==> NoFileRows(Then(t, u).rows)
  {
  }

  /** Every line of a walk carries the prefix it was started with, and
      without files every line is a directory line. */
  lemma {:induction false} DrawSpecRows(node: Entry, printFiles: bool, prefix: string)
    ensures Under(DrawSpec(node, printFiles, prefix).rows, prefix)
    ensures !printFiles ==> NoFileRows(DrawSpec(node, printFiles, prefix).rows)
    decreases node, 1
  {
    if node.Dir? {
      var files := Prepare(node.children, printFiles);
      PrepareDirs(node.children, printFiles);
      LevelRows(node, files, printFiles, prefix, 0);
    }
  }

  lemma {:induction false} LevelRows(dir: Entry, files: seq<Entry>, printFiles: bool, prefix: string, from: nat)
    requires dir.Dir?
    requires ChildrenOf(files, dir)
    requires !printFiles ==> forall i :: 0 <= i < |files| ==> IsDir(files[i])
    ensures Under(Level(dir, files, printFiles, prefix, from).rows, prefix)
    ensures !printFiles ==> NoFileRows(Level(dir, files, printFiles, prefix, from).rows)
    decreases dir, 0, |files| - from
  {
    if from < |files| {
      var last := from == |files| - 1;
      ItemRows(files[from], last, printFiles, prefix);
      LevelRows(dir, files, printFiles, prefix, from + 1);
      ThenKeeps(Item(files[from], last, printFiles, prefix), Level(dir, files, printFiles, prefix, from + 1),
                prefix, printFiles);
    }
  }

  lemma {:induction false} ItemRows(e: Entry, last: bool, printFiles: bool, prefix: string)
    requires !printFiles ==> IsDir(e)
    ensures Under(Item(e, last, printFiles, prefix).rows, prefix)
    ensures !printFiles ==> NoFileRows(Item(e, last, printFiles, prefix).rows)
    decreases e, 2
  {
    if IsDir(e) {
      var child := ChildPrefix(prefix, last);
      var sub := DrawSpec(e, printFiles, child);
      DrawSpecRows(e, printFiles, child);
      forall i | 0 <= i < |sub.rows|
        ensures prefix <= sub.rows[i].lead
      {
        PrefixTransitive(prefix, child, sub.rows[i].lead);
      }
      ThenKeeps(Trace([Row(prefix, last, e)], None), sub, prefix, printFiles);
    }
  }

  lemma PrefixTransitive(a: string, b: string, c: string)
    requires a <= b && b <= c
    ensures a <= c
  {
    assert c[..|a|] == b[..|a|];
  }

  // ------------------------------------------------- one level at a time

  /** The rows whose lead is exactly `prefix`: the entries of the level the
      walk was started on. */
  function AtLead(rows: seq<Row>, prefix: string): (r: seq<Row>)
    ensures forall i :: 0 <= i < |r| ==> r[i].lead == prefix
  {
    if rows == [] then []
    else (if rows[0].lead == prefix then [rows[0]] else []) + AtLead(rows[1..], prefix)
  }

  lemma {:induction false} AtLeadConcat(a: seq<Row>, b: seq<Row>, prefix: string)
    ensures AtLead(a + b, prefix) == AtLead(a, prefix) + AtLead(b, prefix)
  {
    if a == [] {
      assert a + b == b;
    } else {
      assert (a + b)[1..] == a[1..] + b;
      AtLeadConcat(a[1..], b, prefix);
    }
  }

  lemma {:induction false} AtLeadNone(rows: seq<Row>, prefix: string)
    requires forall i :: 0 <= i < |rows| ==> rows[i].lead != prefix
    ensures AtLead(rows, prefix) == []
  {
    if rows != [] {
      AtLeadNone(rows[1..], prefix);
    }
  }

  /** The rows of one level: entry `k` of the display order, with the
      corner glyph for the last one only. */
  function Heads(files: seq<Entry>, prefix: string, from: nat): (r: seq<Row>)
    requires from <= |files|
    ensures |r| == |files| - from
    decreases |files| - from
  {
    if from == |files| then []
    else [Row(prefix, from == |files| - 1, files[from])] + Heads(files, prefix, from + 1)
  }

  /** Of an entry's lines, only its own sits at the entry's prefix. */
  lemma {:induction false} ItemTop(e: Entry, last: bool, printFiles: bool, prefix: string)
    ensures AtLead(Item(e, last, printFiles, prefix).rows, prefix) == [Row(prefix, last, e)]
  {
    var row := Row(prefix, last, e);
    if IsDir(e) {
      var child := ChildPrefix(prefix, last);
      var sub := DrawSpec(e, printFiles, child);
      DrawSpecRows(e, printFiles, child);
      forall i | 0 <= i < |sub.rows|
        ensures sub.rows[i].lead != prefix
      {
        assert |child| > |prefix|;
      }
      AtLeadNone(sub.rows, prefix);
      AtLeadConcat([row], sub.rows, prefix);
      assert AtLead([row], prefix) == [row];
      assert [row] + [] == [row];
    } else {
      assert AtLead([row], prefix) == [row];
    }
  }

  /** The lines a walk draws at its own prefix are the display order, entry
      by entry, up to the entry where it failed: nothing after a failure is
      drawn, and a walk that succeeds draws every entry. */
  lemma {:induction false} LevelHeads(dir: Entry, files: seq<Entry>, printFiles: bool, prefix: string, from: nat)
    requires ChildrenOf(files, dir)
    requires from <= |files|
    ensures var t := Level(dir, files, printFiles, prefix, from);
      && AtLead(t.rows, prefix) <= Heads(files, prefix, from)
      && (t.failure.None? ==> AtLead(t.rows, prefix) == Heads(files, prefix, from))
    decreases |files| - from
  {
    if from < |files| {
      var last := from == |files| - 1;
      var row := Row(prefix, last, files[from]);
      var item := Item(files[from], last, printFiles, prefix);
      var next := Level(dir, files, printFiles, prefix, from + 1);
      ItemTop(files[from], last, printFiles, prefix);
      LevelHeads(dir, files, printFiles, prefix, from + 1);
      LevelStep(dir, files, printFiles, prefix, from);
      if item.failure.None? {
        AtLeadConcat(item.rows, next.rows, prefix);
      }
      assert Heads(files, prefix, from) == [row] + Heads(files, prefix, from + 1);
    }
  }

  /** The same for a directory: its lines at the walk's prefix are its
      display order, cut short at the entry where the walk failed. */
  lemma DrawSpecHeads(dir: Entry, printFiles: bool, prefix: string)
    requires dir.Dir?
    ensures var t := DrawSpec(dir, printFiles, prefix);
      && AtLead(t.rows, prefix) <= Heads(Prepare(dir.children, printFiles), prefix, 0)
      && (t.failure.None? ==> AtLead(t.rows, prefix) == Heads(Prepare(dir.children, printFiles), prefix, 0))
  {
    LevelHeads(dir, Prepare(dir.children, printFiles), printFiles, prefix, 0);
  }

  /** The entries named by some rows. */
  function EntriesOf(rows: seq<Row>): (r: seq<Entry>)
    ensures |r| == |rows| && forall k :: 0 <= k < |rows| ==> r[k] == rows[k].entry
  {
    seq(|rows|, k requires 0 <= k < |rows| => rows[k].entry)
  }

  /** The lines of one level of a readable directory: exactly the entries the
      filter keeps, strictly ascending by name, each drawn with the tee glyph
      except the last, which gets the corner. */
  lemma LevelOrder(dir: Entry, printFiles: bool, prefix: string)
    requires dir.Dir? && WellFormed(dir) && Readable(dir)
    ensures var top := AtLead(DrawSpec(dir, printFiles, prefix).rows, prefix);
      && multiset(EntriesOf(top)) == multiset(if printFiles then dir.children else DirsOnly(dir.children))
      && (forall i, j :: 0 <= i < j < |top| ==> Less(top[i].entry.name, top[j].entry.name))
      && (forall k :: 0 <= k < |top| ==> (top[k].last <==> k == |top| - 1))
  {
    var files := Prepare(dir.children, printFiles);
    DrawSpecCount(dir, printFiles, prefix);
    DrawSpecHeads(dir, printFiles, prefix);
    PrepareOrdered(dir.children, printFiles);
    HeadsShape(files, prefix, 0);
    assert EntriesOf(Heads(files, prefix, 0)) == files;
  }

  lemma {:induction false} HeadsShape(files: seq<Entry>, prefix: string, from: nat)
    requires from <= |files|
    ensures forall k :: 0 <= k < |files| - from ==>
      Heads(files, prefix, from)[k] == Row(prefix, from + k == |files| - 1, files[from + k])
    decreases |files| - from
  {
    if from < |files| {
      HeadsShape(files, prefix, from + 1);
    }
  }

  // ---------------------------------------------------------- first error

  /** A walk that failed by itself, not through the writer, stopped at an
      unreadable directory: the error names it, and its line is the last one
      drawn. */
  predicate StoppedAtUnreadable(t: Trace)
  {
    t.failure.Some? ==>
      && t.rows != []
      && t.rows[|t.rows| - 1].entry.Unreadable?
      && t.failure == Some(CannotRead(t.rows[|t.rows| - 1].entry.name))
  }

  /** Every failure inside a directory is a directory that cannot be read,
      and the walk ends right after drawing its line. */
  lemma {:induction false} DrawSpecFailure(node: Entry, printFiles: bool, prefix: string)
    requires node.Dir?
    ensures StoppedAtUnreadable(DrawSpec(node, printFiles, prefix))
    decreases node, 1
  {
    LevelFailure(node, Prepare(node.children, printFiles), printFiles, prefix, 0);
  }

  lemma {:induction false} LevelFailure(dir: Entry, files: seq<Entry>, printFiles: bool, prefix: string, from: nat)
    requires ChildrenOf(files, dir)
    ensures StoppedAtUnreadable(Level(dir, files, printFiles, prefix, from))
    decreases dir, 0, |files| - from
  {
    if from < |files| {
      var last := from == |files| - 1;
      var item := Item(files[from], last, printFiles, prefix);
      var next := Level(dir, files, printFiles, prefix, from + 1);
      LevelStep(dir, files, printFiles, prefix, from);
      ItemFailure(files[from], last, printFiles, prefix);
      LevelFailure(dir, files, printFiles, prefix, from + 1);
      if item.failure.None? && next.failure.Some? {
        assert (item.rows + next.rows)[|item.rows + next.rows| - 1] == next.rows[|next.rows| - 1];
      }
    }
  }

  lemma {:induction false} ItemFailure(e: Entry, last: bool, printFiles: bool, prefix: string)
    ensures StoppedAtUnreadable(Item(e, last, printFiles, prefix))
    decreases e, 2
  {
    if e.Dir? {
      var row := Row(prefix, last, e);
      var sub := DrawSpec(e, printFiles, ChildPrefix(prefix, last));
      DrawSpecFailure(e, printFiles, ChildPrefix(prefix, last));
      if sub.failure.Some? {
        assert ([row] + sub.rows)[|sub.rows|] == sub.rows[|sub.rows| - 1];
      }
    }
  }

  /** What a writer with `room` writes to go receives from the walk of a
      directory ends at the first error: either the writer refused a line,
      and it holds exactly `room` lines, or the writer took the whole walk,
      and the walk itself stopped right after the line of an unreadable
      directory, whose error is returned. */
  lemma WalkEndsAtFirstError(node: Entry, printFiles: bool, prefix: string, room: nat)
    requires node.Dir?
    ensures var t := DrawSpec(node, printFiles, prefix);
      var d := Deliver(t, room);
      d.failure.Some? ==>
        || (d.failure.value.WriteFailed? && |d.rows| == room < |t.rows|)
        || (d == t && StoppedAtUnreadable(d))
  {
    DeliverFirstError(DrawSpec(node, printFiles, prefix), room);
    DrawSpecFailure(node, printFiles, prefix);
  }
}
