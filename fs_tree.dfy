/** The filesystem as recursive_action sees it through stat, lstat, opendir and readdir, and the
    callbacks and events of one walk. */
module FsTree {
  import opened Util
  import opened Paths

  /** A filesystem entry. A dangling symlink is Link(Unstatable). */
  datatype Node =
    | File                                    // any entry that is neither a directory nor a symlink
    | Link(target: Node)                      // a symbolic link and what it points to
    | Dir(openable: bool, entries: seq<Entry>) // entries in readdir order, "." and ".." included
    | Unstatable                              // stat/lstat fails on it (vanished, no permission)

  datatype Entry = Entry(name: string, node: Node)

  /** The file type a callback is told about (S_ISDIR / S_ISLNK of the stat buffer). */
  datatype FileType = Regular | Directory | Symlink

  /** The three values a callback returns and recursive_action passes on. */
  datatype Status = True | False | Skip

  /** An optional callback (fileAction or dirAction); None is the NULL pointer. */
  type Action = Option<(Path, FileType) -> Status>

  /** What a walk makes observable, in order. */
  datatype Event =
    | FileActionCall(path: Path, ftype: FileType) // fileAction invoked
    | DirActionCall(path: Path)                   // dirAction invoked
    | Report(path: Path)                          // perror_msg on the path
    | NameTooLong                                 // error_msg(name_too_long)

  /** Termination measure: every node is smaller than the link or directory holding it. */
  function Size(n: Node): (r: nat)
    decreases n
  {
    match n
    case File => 1
    case Unstatable => 1
    case Link(t) => 1 + Size(t)
    case Dir(_, es) => 1 + EntriesSize(es)
  }

  function EntriesSize(es: seq<Entry>): (r: nat)
    decreases es
  {
    if es == [] then 0 else 1 + Size(es[0].node) + EntriesSize(es[1..])
  }

  lemma {:induction false} EntrySmaller(es: seq<Entry>, i: nat)
    requires i < |es|
    ensures Size(es[i].node) < EntriesSize(es)
    ensures EntriesSize(es[i + 1..]) < EntriesSize(es[i..])
  {
    if i > 0 {
      assert es[1..][i - 1] == es[i];
      assert es[1..][i - 1 + 1..] == es[i + 1..];
      assert es[1..][i - 1..] == es[i..];
      EntrySmaller(es[1..], i - 1);
    } else {
      assert es[0..] == es;
    }
  }

  /** The node a path-resolving lookup lands on: links are followed when follow is set. */
  function Resolve(n: Node, follow: bool): (r: Option<Node>)
    ensures r.Some? ==> !r.value.Unstatable? && Size(r.value) <= Size(n)
    ensures r.Some? && follow ==> !r.value.Link?
    ensures !(follow && n.Link?) ==> r == (if n.Unstatable? then None else Some(n))
    ensures follow && n.Link? ==> r == Resolve(n.target, true)
    decreases n
  {
    match n
    case Unstatable => None
    case Link(t) => if follow then Resolve(t, follow) else Some(n)
    case _ => Some(n)
  }

  /** stat(2): follows symlinks; fails on the empty path and on an unreachable target. */
  function Stat(path: Path, n: Node): (r: Option<Node>)
    ensures r.Some? ==> path != [] && !r.value.Link? && !r.value.Unstatable?
    ensures r.Some? ==> Size(r.value) <= Size(n)
    ensures path != [] && !n.Link? ==> r == (if n.Unstatable? then None else Some(n))
    ensures n.Link? ==> r == Stat(path, n.target)
  {
    if path == [] then None else Resolve(n, true)
  }

  /** lstat(2): reports a symlink itself; fails on the empty path. */
  function Lstat(path: Path, n: Node): (r: Option<Node>)
    ensures r.None? <==> path == [] || n.Unstatable?
    ensures r.Some? ==> r.value == n
  {
    if path == [] then None else Resolve(n, false)
  }
}
