/** recursive_action: the walk as a specification (Walk, WalkDir, WalkEntries) and the recursive
    method with its readdir loop, proved to compute exactly that specification. */
module Walker {
  import opened Util
  import opened Paths
  import opened FsTree

  /** The value returned by one call and the events it produced. */
  datatype Run = Run(status: Status, trace: seq<Event>)

  /** The readdir loop's outcome: whether some child returned FALSE, the events, and whether the
      loop was abandoned because a child path was too long. */
  datatype Scan = Scan(failed: bool, trace: seq<Event>, abandoned: bool)

  /** Calling fileAction if it is set; a NULL fileAction counts as TRUE. */
  function FileCall(fa: Action, path: Path, t: FileType): (r: Run) {
    if fa.None? then Run(True, []) else Run(fa.value(path, t), [FileActionCall(path, t)])
  }

  /** Calling dirAction if it is set; a NULL dirAction counts as TRUE. */
  function DirCall(da: Action, path: Path): (r: Run) {
    if da.None? then Run(True, []) else Run(da.value(path, Directory), [DirActionCall(path)])
  }

  /** stat when following links, lstat otherwise. */
  function StatFor(path: Path, n: Node, follow: bool): (r: Option<Node>) {
    if follow then Stat(path, n) else Lstat(path, n)
  }

  /** One call of recursive_action on path, which names node n. */
  function Walk(path: Path, n: Node, recurse: bool, follow: bool, depthFirst: bool,
                fa: Action, da: Action): (r: Run)
    ensures (StatFor(path, n, follow).Some? && StatFor(path, n, follow).value.Dir? && recurse)
            ==> r.status != Skip
    decreases Size(n), 1
  {
    match StatFor(path, n, follow)
    case None => Run(False, [Report(path)])
    case Some(m) =>
      if !follow && m.Link? then FileCall(fa, path, Symlink)
      else if !recurse && m.Dir? then DirCall(da, path)
      else if m.Dir? then WalkDir(path, m, follow, depthFirst, fa, da)
      else FileCall(fa, path, Regular)
  }

  /** A directory walked recursively: optional pre-order dirAction, opendir, the readdir loop,
      optional post-order dirAction. */
  function WalkDir(path: Path, m: Node, follow: bool, depthFirst: bool,
                   fa: Action, da: Action): (r: Run)
    requires m.Dir? && path != []
    ensures r.status != Skip
    decreases Size(m), 0
  {
    var pre := if depthFirst then Run(True, []) else DirCall(da, path);
    if pre.status == False then Run(False, pre.trace + [Report(path)])
    else if pre.status == Skip then Run(True, pre.trace)
    else if !m.openable then Run(False, pre.trace + [Report(path)])
    else
      var s := WalkEntries(path, m.entries, follow, depthFirst, fa, da);
      if s.abandoned then Run(False, pre.trace + s.trace)
      else
        var post := if depthFirst then DirCall(da, path) else Run(True, []);
        if post.status == False then Run(False, pre.trace + s.trace + post.trace + [Report(path)])
        else Run(if s.failed then False else True, pre.trace + s.trace + post.trace)
  }

  /** The readdir loop over the remaining entries es of directory parent. */
  function WalkEntries(parent: Path, es: seq<Entry>, follow: bool, depthFirst: bool,
                       fa: Action, da: Action): (s: Scan)
    requires parent != []
    decreases EntriesSize(es), 2
  {
    if es == [] then Scan(false, [], false)
    else if IsDot(es[0].name) then WalkEntries(parent, es[1..], follow, depthFirst, fa, da)
    else
      match ChildPath(parent, es[0].name)
      case None => Scan(false, [NameTooLong], true)
      case Some(child) =>
        var r := Walk(child, es[0].node, true, follow, depthFirst, fa, da);
        var rest := WalkEntries(parent, es[1..], follow, depthFirst, fa, da);
        Scan(r.status == False || rest.failed, r.trace + rest.trace, rest.abandoned)
  }

  /** The state reached after some entries, followed by the scan of the rest. */
  function Then(failed: bool, done: seq<Event>, rest: Scan): (s: Scan) {
    Scan(failed || rest.failed, done + rest.trace, rest.abandoned)
  }

  /** The turn of the readdir loop that skips a "." or ".." entry at index i. */
  lemma DotStep(parent: Path, es: seq<Entry>, i: nat, follow: bool, depthFirst: bool,
                fa: Action, da: Action, failed: bool, done: seq<Event>)
    requires parent != [] && i < |es| && IsDot(es[i].name)
    ensures Then(failed, done, WalkEntries(parent, es[i + 1..], follow, depthFirst, fa, da))
         == Then(failed, done, WalkEntries(parent, es[i..], follow, depthFirst, fa, da))
  {
    assert es[i..][0] == es[i] && es[i..][1..] == es[i + 1..];
  }

  /** The turn of the readdir loop that meets a child path too long for the buffer. */
  lemma TooLongStep(parent: Path, es: seq<Entry>, i: nat, follow: bool, depthFirst: bool,
                    fa: Action, da: Action, failed: bool, done: seq<Event>)
    requires parent != [] && i < |es| && !IsDot(es[i].name) && ChildPath(parent, es[i].name).None?
    ensures Then(failed, done, WalkEntries(parent, es[i..], follow, depthFirst, fa, da))
         == Scan(failed, done + [NameTooLong], true)
  {
    assert es[i..][0] == es[i];
  }

  /** The turn of the readdir loop that walks the child at index i, whose own walk is r. */
  lemma ChildStep(parent: Path, es: seq<Entry>, i: nat, follow: bool, depthFirst: bool,
                  fa: Action, da: Action, failed: bool, done: seq<Event>, r: Run)
    requires parent != [] && i < |es| && !IsDot(es[i].name) && ChildPath(parent, es[i].name).Some?
    requires r == Walk(ChildPath(parent, es[i].name).value, es[i].node, true, follow, depthFirst, fa, da)
    ensures Then(failed || r.status == False, done + r.trace,
                 WalkEntries(parent, es[i + 1..], follow, depthFirst, fa, da))
         == Then(failed, done, WalkEntries(parent, es[i..], follow, depthFirst, fa, da))
  {
    assert es[i..][0] == es[i] && es[i..][1..] == es[i + 1..];
    var after := WalkEntries(parent, es[i + 1..], follow, depthFirst, fa, da);
    AppendAssoc(done, r.trace, after.trace);
  }

  /** recursive_action itself: returns the callback-style status and the events produced. */
  method RecursiveAction(fileName: Path, node: Node, recurse: bool, followLinks: bool,
                         depthFirst: bool, fileAction: Action, dirAction: Action)
    returns (status: Status, trace: seq<Event>)
    ensures Run(status, trace) == Walk(fileName, node, recurse, followLinks, depthFirst,
                                       fileAction, dirAction)
    decreases Size(node), 1
  {
    var st;
    if followLinks {
      st := Stat(fileName, node);
    } else {
      st := Lstat(fileName, node);
    }
    if st.None? {
      return False, [Report(fileName)];
    }
    var m := st.value;

    if !followLinks && m.Link? {
      if fileAction.None? {
        return True, [];
      }
      return fileAction.value(fileName, Symlink), [FileActionCall(fileName, Symlink)];
    }

    if !recurse && m.Dir? {
      if dirAction.None? {
        return True, [];
      }
      return dirAction.value(fileName, Directory), [DirActionCall(fileName)];
    }

    if !m.Dir? {
      if fileAction.None? {
        return True, [];
      }
      return fileAction.value(fileName, Regular), [FileActionCall(fileName, Regular)];
    }

    assert Walk(fileName, node, recurse, followLinks, depthFirst, fileAction, dirAction)
        == WalkDir(fileName, m, followLinks, depthFirst, fileAction, dirAction);
    trace := [];
    if dirAction.Some? && !depthFirst {
      status := dirAction.value(fileName, Directory);
      trace := [DirActionCall(fileName)];
      if status == False {
        return False, trace + [Report(fileName)];
      } else if status == Skip {
        return True, trace;
      }
    }
    if !m.openable {
      return False, trace + [Report(fileName)];
    }

    var pre := trace;
    var failed, walked, abandoned := ReadDir(fileName, m.entries, followLinks, depthFirst,
                                             fileAction, dirAction);
    if abandoned {
      return False, pre + walked;
    }
    trace := pre + walked;

    if dirAction.Some? && depthFirst {
      var post := dirAction.value(fileName, Directory);
      trace := trace + [DirActionCall(fileName)];
      if post == False {
        return False, trace + [Report(fileName)];
      }
    }
    if failed {
      return False, trace;
    }
    return True, trace;
  }

  /** The readdir loop of recursive_action over the entries of directory fileName: skips "." and
      "..", gives up at the first child path that is too long, and otherwise walks every child,
      remembering whether any of them returned FALSE. */
  method ReadDir(fileName: Path, entries: seq<Entry>, followLinks: bool, depthFirst: bool,
                 fileAction: Action, dirAction: Action)
    returns (failed: bool, walked: seq<Event>, abandoned: bool)
    requires fileName != []
    ensures Scan(failed, walked, abandoned)
         == WalkEntries(fileName, entries, followLinks, depthFirst, fileAction, dirAction)
    decreases EntriesSize(entries), 0
  {
    ghost var total := WalkEntries(fileName, entries, followLinks, depthFirst, fileAction, dirAction);
    walked := [];
    var status := True;
    var i := 0;
    assert entries[0..] == entries;
    while i < |entries|
      invariant 0 <= i <= |entries|
      invariant status == True || status == False
      invariant Then(status == False, walked,
                     WalkEntries(fileName, entries[i..], followLinks, depthFirst, fileAction, dirAction))
                == total
      decreases |entries| - i
    {
      var name := entries[i].name;
      if name == ".." || name == "." {
        DotStep(fileName, entries, i, followLinks, depthFirst, fileAction, dirAction,
                status == False, walked);
        i := i + 1;
        continue;
      }
      var next := ChildPath(fileName, name);
      if next.None? {
        TooLongStep(fileName, entries, i, followLinks, depthFirst, fileAction, dirAction,
                    status == False, walked);
        return status == False, walked + [NameTooLong], true;
      }
      EntrySmaller(entries, i);
      var childStatus, childTrace := RecursiveAction(next.value, entries[i].node, true,
                                                     followLinks, depthFirst, fileAction, dirAction);
      ChildStep(fileName, entries, i, followLinks, depthFirst, fileAction, dirAction,
                status == False, walked, Run(childStatus, childTrace));
      walked := walked + childTrace;
      if childStatus == False {
        status := False;
      }
      i := i + 1;
    }
    assert entries[i..] == [];
    return status == False, walked, false;
  }
}
