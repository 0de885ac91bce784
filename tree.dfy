/**
  The in-memory stand-in for the filesystem the tree renderer walks. A
  directory's `children` are in the order `Readdir` would hand them over,
  which the renderer does not rely on.
 */
module Tree {

  datatype Entry =
    | File(name: string, size: nat)
    | Dir(name: string, children: seq<Entry>)
      /** A directory entry whose `os.Open` or `Readdir` fails. */
    | Unreadable(name: string)

  /** `file.Mode().IsDir()`: an unreadable directory is still a directory. */
  predicate IsDir(e: Entry)
  {
    !e.File?
  }

  /** No two siblings share a name. */
  predicate UniqueNames(s: seq<Entry>)
  {
    forall i, j :: 0 <= i < j < |s| ==> s[i].name != s[j].name
  }

  /** What every filesystem guarantees: names are unique in each directory. */
  predicate WellFormed(e: Entry)
  {
    match e
    case Dir(_, children) => UniqueNames(children) && forall c | c in children :: WellFormed(c)
    case _ => true
  }

  /** Every directory in the subtree can be opened and read. */
  predicate Readable(e: Entry)
  {
    match e
    case Dir(_, children) => forall c | c in children :: Readable(c)
    case File(_, _) => true
    case Unreadable(_) => false
  }
}
