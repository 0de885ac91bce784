/**
  The text of one output line: the inherited prefix, the branch glyph, the
  entry's name and, for a file, its size label.
 */
module Format {
  import opened Wrappers
  import opened Decimal
  import opened Tree

  /** The size label of a file line: `empty`, or the byte count and `b`. */
  function SizeLabel(size: nat): (tag: string)
    ensures tag == "empty" <==> size == 0
    ensures size > 0 ==> tag == NatToString(size) + "b"
  {
    if size == 0 then "empty"
    else
      var t := NatToString(size) + "b";
      assert t[|t| - 1] != "empty"[4];
      t
  }

  /** Reads a size label back. */
  function SizeFromLabel(tag: string): (size: Option<nat>)
  {
    if tag == "empty" then Some(0)
    else if |tag| >= 2 && tag[|tag| - 1] == 'b' && tag[0] != '0'
            && forall i :: 0 <= i < |tag| - 1 ==> IsDigit(tag[i])
    then Some(ParseDecimal(tag[..|tag| - 1]))
    else None
  }

  /** Every size gets a label of its own, and the label gives the size back. */
  lemma SizeLabelRoundTrip(size: nat)
    ensures SizeFromLabel(SizeLabel(size)) == Some(size)
  {
    if size > 0 {
      var tag := SizeLabel(size);
      assert tag[..|tag| - 1] == NatToString(size);
      ParseNatToString(size);
    }
  }

  /** The branch drawn in front of an entry: a corner for the last sibling,
      a tee for every other one. */
  function Glyph(last: bool): (g: string)
  {
    if last then "└───" else "├───"
  }

  /** The prefix handed down to an entry's children: the vertical bar goes
      on while later siblings follow, and stops under the last one. */
  function ChildPrefix(prefix: string, last: bool): (p: string)
  {
    prefix + (if last then "\t" else "│\t")
  }

  /** One output line before it is turned into text: the prefix inherited
      from the enclosing directories, whether the entry is the last of its
      siblings, and the entry. */
  datatype Row = Row(lead: string, last: bool, entry: Entry)

  /** The line of a row. */
  function Text(r: Row): (line: string)
  {
    match r.entry
    case File(name, size) => r.lead + Glyph(r.last) + name + " (" + SizeLabel(size) + ")\n"
    case _ => r.lead + Glyph(r.last) + r.entry.name + "\n"
  }

  /** Both glyphs are four characters, a branch followed by three dashes;
      the branch is a corner exactly for the last sibling. */
  lemma GlyphShape(last: bool)
    ensures |Glyph(last)| == 4 && Glyph(last)[1..] == "───"
    ensures Glyph(last)[0] == '└' <==> last
  {
  }

  /** The child prefix extends the prefix and ends in a tab; the vertical bar
      goes on exactly while later siblings follow. */
  lemma ChildPrefixShape(prefix: string, last: bool)
    ensures prefix < ChildPrefix(prefix, last)
    ensures ChildPrefix(prefix, last)[|ChildPrefix(prefix, last)| - 1] == '\t'
    ensures ChildPrefix(prefix, last)[|prefix|] == '│' <==> !last
  {
  }

  /** Every line starts with the lead, the glyph and the entry's name, and
      ends with a newline; a directory line ends right after the name, with
      no size. */
  lemma TextShape(r: Row)
    ensures r.lead + Glyph(r.last) <= r.lead + Glyph(r.last) + r.entry.name <= Text(r)
    ensures Text(r)[|Text(r)| - 1] == '\n'
    ensures IsDir(r.entry) <==> |Text(r)| == |r.lead + Glyph(r.last) + r.entry.name| + 1
  {
    var head := r.lead + Glyph(r.last) + r.entry.name;
    assert (r.lead + Glyph(r.last)) + r.entry.name == head;
    if r.entry.File? {
      assert Text(r) == head + (" (" + SizeLabel(r.entry.size) + ")\n");
    } else {
      assert Text(r) == head + "\n";
    }
  }

  /** A file line is the prefix, the glyph, the name, a space and the size
      label in parentheses; the size can be read back from the label. */
  lemma FileLine(r: Row)
    requires r.entry.File?
    ensures var head := r.lead + Glyph(r.last) + r.entry.name;
      var t := Text(r);
      && |head| + 4 <= |t|
      && t[..|head|] == head
      && t[|head|..|head| + 2] == " ("
      && t[|t| - 2..] == ")\n"
      && SizeFromLabel(t[|head| + 2..|t| - 2]) == Some(r.entry.size)
  {
    var head := r.lead + Glyph(r.last) + r.entry.name;
    var tag := SizeLabel(r.entry.size);
    var t := Text(r);
    assert t == head + " (" + tag + ")\n";
    assert t[|head| + 2..|t| - 2] == tag;
    SizeLabelRoundTrip(r.entry.size);
  }
}
