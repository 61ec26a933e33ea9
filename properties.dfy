/** What recursive_action guarantees, proved about the specification in module Walker (and so, by
    the postcondition of Walker.RecursiveAction, about the method). */
module WalkProperties {
  import opened Util
  import opened Paths
  import opened FsTree
  import opened Walker

  /** -------- stat / lstat, symlinks, the non-recursive case -------- */

  /** A failing stat or lstat: no callback runs, one report names the path, the result is FALSE. */
  lemma StatFailure(p: Path, n: Node, recurse: bool, follow: bool, depthFirst: bool,
                    fa: Action, da: Action)
    requires StatFor(p, n, follow).None?
    ensures Walk(p, n, recurse, follow, depthFirst, fa, da) == Run(False, [Report(p)])
  {
  }

  /** The failure cases of stat and lstat: the empty path, an unstatable entry, and under stat a
      link whose target cannot be reached. */
  lemma {:induction false} StatFailsExactly(p: Path, n: Node, follow: bool)
    ensures StatFor(p, n, follow).None?
        <==> p == [] || n.Unstatable? || (follow && n.Link? && Resolve(n.target, true).None?)
  {
  }

  /** Not following links, a symlink goes to fileAction alone, whatever it points to and whatever
      recurse says; its result is returned unchanged, TRUE when there is no fileAction. */
  lemma UnfollowedLink(p: Path, target: Node, recurse: bool, depthFirst: bool,
                       fa: Action, da: Action)
    requires p != []
    ensures var r := Walk(p, Link(target), recurse, false, depthFirst, fa, da);
            r.status == (if fa.None? then True else fa.value(p, Symlink))
            && r.trace == (if fa.None? then [] else [FileActionCall(p, Symlink)])
  {
  }

  /** Following links, a link is walked exactly as the entry it finally resolves to would be. */
  lemma {:induction false} FollowedLink(p: Path, target: Node, recurse: bool, depthFirst: bool,
                                        fa: Action, da: Action)
    ensures Walk(p, Link(target), recurse, true, depthFirst, fa, da)
         == Walk(p, target, recurse, true, depthFirst, fa, da)
  {
  }

  /** Without recursion a directory gets exactly one dirAction call, whose value is returned
      (TRUE with no dirAction), and none of its entries is looked at. */
  lemma NonRecursiveDirectory(p: Path, n: Node, follow: bool, depthFirst: bool,
                              fa: Action, da: Action)
    requires StatFor(p, n, follow).Some? && StatFor(p, n, follow).value.Dir?
    ensures var r := Walk(p, n, false, follow, depthFirst, fa, da);
            r.status == (if da.None? then True else da.value(p, Directory))
            && r.trace == (if da.None? then [] else [DirActionCall(p)])
  {
  }

  /** An entry that is not a directory (nor a symlink left unfollowed) goes to fileAction, with
      or without recursion, and its result is returned unchanged. */
  lemma NonDirectory(p: Path, n: Node, recurse: bool, follow: bool, depthFirst: bool,
                     fa: Action, da: Action)
    requires StatFor(p, n, follow).Some? && StatFor(p, n, follow).value.File?
    ensures var r := Walk(p, n, recurse, follow, depthFirst, fa, da);
            r.status == (if fa.None? then True else fa.value(p, Regular))
            && r.trace == (if fa.None? then [] else [FileActionCall(p, Regular)])
  {
  }

  /** -------- "." and ".." -------- */

  /** The entries other than "." and "..", in readdir order. */
  function NoDots(es: seq<Entry>): (r: seq<Entry>)
    ensures forall e :: e in r ==> e in es && !IsDot(e.name)
    ensures forall e :: e in es && !IsDot(e.name) ==> e in r
  {
    if es == [] then []
    else if IsDot(es[0].name) then NoDots(es[1..])
    else [es[0]] + NoDots(es[1..])
  }

  /** "." and ".." entries have no effect at all on the readdir loop. */
  lemma {:induction false} EntriesIgnoreDots(parent: Path, es: seq<Entry>, follow: bool,
                                             depthFirst: bool, fa: Action, da: Action)
    requires parent != []
    ensures WalkEntries(parent, es, follow, depthFirst, fa, da)
         == WalkEntries(parent, NoDots(es), follow, depthFirst, fa, da)
  {
    if es != [] {
      EntriesIgnoreDots(parent, es[1..], follow, depthFirst, fa, da);
      if !IsDot(es[0].name) {
        var r := NoDots(es);
        assert r[0] == es[0] && r[1..] == NoDots(es[1..]);
      }
    }
  }

  /** Hence a directory walks the same, with any follow / depth-first choice, whether or not its
      listing contains "." and "..". */
  lemma DirectoryIgnoresDots(p: Path, openable: bool, es: seq<Entry>, recurse: bool, follow: bool,
                             depthFirst: bool, fa: Action, da: Action)
    requires p != []
    ensures Walk(p, Dir(openable, es), recurse, follow, depthFirst, fa, da)
         == Walk(p, Dir(openable, NoDots(es)), recurse, follow, depthFirst, fa, da)
  {
    var m, m' := Dir(openable, es), Dir(openable, NoDots(es));
    assert StatFor(p, m, follow) == Some(m) && StatFor(p, m', follow) == Some(m');
    if recurse {
      assert Walk(p, m, recurse, follow, depthFirst, fa, da) == WalkDir(p, m, follow, depthFirst, fa, da);
      assert Walk(p, m', recurse, follow, depthFirst, fa, da) == WalkDir(p, m', follow, depthFirst, fa, da);
      EntriesIgnoreDots(p, es, follow, depthFirst, fa, da);
      WalkDirByListing(p, m, m', follow, depthFirst, fa, da);
    }
  }

  /** A directory's walk depends on its listing only through the readdir loop's outcome. */
  lemma WalkDirByListing(p: Path, m: Node, m': Node, follow: bool, depthFirst: bool,
                         fa: Action, da: Action)
    requires m.Dir? && m'.Dir? && p != [] && m.openable == m'.openable
    requires WalkEntries(p, m.entries, follow, depthFirst, fa, da)
          == WalkEntries(p, m'.entries, follow, depthFirst, fa, da)
    ensures WalkDir(p, m, follow, depthFirst, fa, da) == WalkDir(p, m', follow, depthFirst, fa, da)
  {
  }

  /** -------- every event stays under the path walked -------- */

  /** The event concerns p or a path in its subtree (a name-too-long report carries no path). */
  predicate Under(p: Path, e: Event) {
    match e
    case NameTooLong => true
    case FileActionCall(q, _) => InSubtree(p, q)
    case DirActionCall(q) => InSubtree(p, q)
    case Report(q) => InSubtree(p, q)
  }

  lemma {:induction false} WalkStaysUnder(p: Path, n: Node, recurse: bool, follow: bool,
                                          depthFirst: bool, fa: Action, da: Action)
    ensures forall e :: e in Walk(p, n, recurse, follow, depthFirst, fa, da).trace ==> Under(p, e)
    decreases Size(n), 1
  {
    var st := StatFor(p, n, follow);
    if st.Some? && st.value.Dir? && !(!follow && st.value.Link?) && recurse {
      WalkDirStaysUnder(p, st.value, follow, depthFirst, fa, da);
    }
  }

  lemma {:induction false} WalkDirStaysUnder(p: Path, m: Node, follow: bool, depthFirst: bool,
                                             fa: Action, da: Action)
    requires m.Dir? && p != []
    ensures forall e :: e in WalkDir(p, m, follow, depthFirst, fa, da).trace ==> Under(p, e)
    decreases Size(m), 0
  {
    EntriesStayUnder(p, m.entries, follow, depthFirst, fa, da);
  }

  lemma {:induction false} EntriesStayUnder(parent: Path, es: seq<Entry>, follow: bool,
                                            depthFirst: bool, fa: Action, da: Action)
    requires parent != []
    ensures forall e :: e in WalkEntries(parent, es, follow, depthFirst, fa, da).trace
                        ==> Under(parent, e)
    decreases EntriesSize(es), 2
  {
    if es == [] {
    } else if IsDot(es[0].name) {
      EntriesStayUnder(parent, es[1..], follow, depthFirst, fa, da);
    } else {
      match ChildPath(parent, es[0].name)
      case None =>
      case Some(c) =>
        JoinInSubtree(parent, es[0].name);
        WalkStaysUnder(c, es[0].node, true, follow, depthFirst, fa, da);
        EntriesStayUnder(parent, es[1..], follow, depthFirst, fa, da);
        forall e | e in Walk(c, es[0].node, true, follow, depthFirst, fa, da).trace
          ensures Under(parent, e)
        {
          assert Under(c, e);
          if !e.NameTooLong? {
            SubtreeTransitive(parent, c, e.path);
          }
        }
    }
  }

  /** -------- the readdir loop: failures carry on, a too-long name stops -------- */

  /** The loop over es1 + es2 is the loop over es1 followed by the loop over es2, unless the first
      part already gave up on a too-long name: a child that returned FALSE never stops the
      siblings after it. */
  lemma {:induction false} EntriesSplit(parent: Path, es1: seq<Entry>, es2: seq<Entry>,
                                        follow: bool, depthFirst: bool, fa: Action, da: Action)
    requires parent != []
    ensures var s1 := WalkEntries(parent, es1, follow, depthFirst, fa, da);
            WalkEntries(parent, es1 + es2, follow, depthFirst, fa, da)
            == if s1.abandoned then s1
               else Then(s1.failed, s1.trace, WalkEntries(parent, es2, follow, depthFirst, fa, da))
  {
    if es1 == [] {
      assert es1 + es2 == es2;
    } else {
      var es := es1 + es2;
      assert es[0] == es1[0] && es[1..] == es1[1..] + es2;
      EntriesSplit(parent, es1[1..], es2, follow, depthFirst, fa, da);
      var s1 := WalkEntries(parent, es1, follow, depthFirst, fa, da);
      var s2 := WalkEntries(parent, es2, follow, depthFirst, fa, da);
      var t1 := WalkEntries(parent, es1[1..], follow, depthFirst, fa, da);
      var t := WalkEntries(parent, es[1..], follow, depthFirst, fa, da);
      if IsDot(es1[0].name) {
        assert s1 == t1;
        assert WalkEntries(parent, es, follow, depthFirst, fa, da) == t;
      } else if ChildPath(parent, es1[0].name).None? {
        assert s1 == Scan(false, [NameTooLong], true);
        assert WalkEntries(parent, es, follow, depthFirst, fa, da) == s1;
      } else {
        var r := Walk(ChildPath(parent, es1[0].name).value, es1[0].node, true, follow, depthFirst,
                      fa, da);
        assert s1 == Scan(r.status == False || t1.failed, r.trace + t1.trace, t1.abandoned);
        assert WalkEntries(parent, es, follow, depthFirst, fa, da)
            == Scan(r.status == False || t.failed, r.trace + t.trace, t.abandoned);
        if !t1.abandoned {
          AppendAssoc(r.trace, t1.trace, s2.trace);
        }
      }
    }
  }

  /** A scan that gave up ends with the name-too-long report. */
  lemma {:induction false} AbandonedEndsWithNameTooLong(parent: Path, es: seq<Entry>, follow: bool,
                                                        depthFirst: bool, fa: Action, da: Action)
    requires parent != []
    ensures var s := WalkEntries(parent, es, follow, depthFirst, fa, da);
            s.abandoned ==> |s.trace| > 0 && s.trace[|s.trace| - 1] == NameTooLong
  {
    if es != [] {
      AbandonedEndsWithNameTooLong(parent, es[1..], follow, depthFirst, fa, da);
    }
  }

  /** The first entry whose child path does not fit ends the loop: a name-too-long report is
      appended to what the earlier entries produced, and the entries after it are never looked at,
      whatever they are. */
  lemma TooLongStopsSiblings(parent: Path, es: seq<Entry>, k: nat, rest: seq<Entry>,
                             follow: bool, depthFirst: bool, fa: Action, da: Action)
    requires parent != [] && k < |es|
    requires !IsDot(es[k].name) && ChildPath(parent, es[k].name).None?
    requires !WalkEntries(parent, es[..k], follow, depthFirst, fa, da).abandoned
    ensures var before := WalkEntries(parent, es[..k], follow, depthFirst, fa, da);
            WalkEntries(parent, es[..k + 1] + rest, follow, depthFirst, fa, da)
            == Scan(before.failed, before.trace + [NameTooLong], true)
  {
    assert es[..k + 1] == es[..k] + [es[k]];
    assert [es[k]][1..] == [];
    EntriesSplit(parent, es[..k], [es[k]], follow, depthFirst, fa, da);
    EntriesSplit(parent, es[..k + 1], rest, follow, depthFirst, fa, da);
  }

  /** An entry other than "." and ".." whose path fits is walked at the joined path, always with
      recursion and with the parent's follow and depth-first choices; only FALSE from it marks
      the loop as failed. */
  lemma ChildWalked(parent: Path, name: string, node: Node, follow: bool, depthFirst: bool,
                    fa: Action, da: Action)
    requires parent != [] && !IsDot(name) && Fits(parent, name)
    ensures var r := Walk(Join(parent, name), node, true, follow, depthFirst, fa, da);
            WalkEntries(parent, [Entry(name, node)], follow, depthFirst, fa, da)
            == Scan(r.status == False, r.trace, false)
  {
    var r := Walk(Join(parent, name), node, true, follow, depthFirst, fa, da);
    assert [Entry(name, node)][1..] == [];
    assert r.trace + [] == r.trace;
  }

  /** Child i of the loop is walked (not "." or "..", its path fits) and returns FALSE. */
  ghost predicate ChildFails(parent: Path, es: seq<Entry>, i: int, follow: bool, depthFirst: bool,
                             fa: Action, da: Action)
    requires parent != []
  {
    0 <= i < |es| && !IsDot(es[i].name) && ChildPath(parent, es[i].name).Some?
    && Walk(ChildPath(parent, es[i].name).value, es[i].node, true, follow, depthFirst, fa, da)
         .status == False
  }

  /** A loop that ran to the end failed exactly when some child returned FALSE; SKIP from a child
      counts as success. */
  lemma {:induction false} EntriesFailIff(parent: Path, es: seq<Entry>, follow: bool,
                                          depthFirst: bool, fa: Action, da: Action)
    requires parent != []
    requires !WalkEntries(parent, es, follow, depthFirst, fa, da).abandoned
    ensures WalkEntries(parent, es, follow, depthFirst, fa, da).failed
        <==> exists i :: ChildFails(parent, es, i, follow, depthFirst, fa, da)
  {
    if es != [] {
      var s := WalkEntries(parent, es, follow, depthFirst, fa, da);
      var t := WalkEntries(parent, es[1..], follow, depthFirst, fa, da);
      var head := !IsDot(es[0].name) && ChildPath(parent, es[0].name).Some?;
      assert !IsDot(es[0].name) ==> ChildPath(parent, es[0].name).Some?;
      assert !t.abandoned;
      assert s.failed == ((head && ChildFails(parent, es, 0, follow, depthFirst, fa, da)) || t.failed);
      EntriesFailIff(parent, es[1..], follow, depthFirst, fa, da);
      forall i | 0 <= i < |es| - 1
        ensures ChildFails(parent, es, i + 1, follow, depthFirst, fa, da)
            == ChildFails(parent, es[1..], i, follow, depthFirst, fa, da)
      {
        assert es[1..][i] == es[i + 1];
      }
      if s.failed && !ChildFails(parent, es, 0, follow, depthFirst, fa, da) {
        var i :| ChildFails(parent, es[1..], i, follow, depthFirst, fa, da);
        assert ChildFails(parent, es, i + 1, follow, depthFirst, fa, da);
      }
      if exists i :: ChildFails(parent, es, i, follow, depthFirst, fa, da) {
        var i :| ChildFails(parent, es, i, follow, depthFirst, fa, da);
        if i > 0 {
          assert ChildFails(parent, es[1..], i - 1, follow, depthFirst, fa, da);
        }
      }
    }
  }

  /** -------- pre-order and post-order dirAction -------- */

  /** The events of a pre-order dirAction call that lets the walk go on. */
  function PreTrace(p: Path, depthFirst: bool, da: Action): seq<Event> {
    if !depthFirst && da.Some? then [DirActionCall(p)] else []
  }

  /** No pre-order dirAction stops the walk of directory p. */
  predicate PreContinues(p: Path, depthFirst: bool, da: Action) {
    depthFirst || da.None? || da.value(p, Directory) == True
  }

  /** The three ways a directory walk that got past its pre-order dirAction can end. */
  lemma WalkDirUnopened(p: Path, m: Node, follow: bool, depthFirst: bool, fa: Action, da: Action)
    requires m.Dir? && p != [] && PreContinues(p, depthFirst, da) && !m.openable
    ensures WalkDir(p, m, follow, depthFirst, fa, da) == Run(False, PreTrace(p, depthFirst, da) + [Report(p)])
  {
  }

  lemma WalkDirAbandoned(p: Path, m: Node, follow: bool, depthFirst: bool, fa: Action, da: Action)
    requires m.Dir? && p != [] && PreContinues(p, depthFirst, da) && m.openable
    requires WalkEntries(p, m.entries, follow, depthFirst, fa, da).abandoned
    ensures WalkDir(p, m, follow, depthFirst, fa, da)
         == Run(False, PreTrace(p, depthFirst, da) + WalkEntries(p, m.entries, follow, depthFirst, fa, da).trace)
  {
  }

  lemma WalkDirCompleted(p: Path, m: Node, follow: bool, depthFirst: bool, fa: Action, da: Action)
    requires m.Dir? && p != [] && PreContinues(p, depthFirst, da) && m.openable
    requires !WalkEntries(p, m.entries, follow, depthFirst, fa, da).abandoned
    ensures var s := WalkEntries(p, m.entries, follow, depthFirst, fa, da);
            var post := if depthFirst then DirCall(da, p) else Run(True, []);
            WalkDir(p, m, follow, depthFirst, fa, da)
            == if post.status == False
               then Run(False, PreTrace(p, depthFirst, da) + s.trace + post.trace + [Report(p)])
               else Run(if s.failed then False else True, PreTrace(p, depthFirst, da) + s.trace + post.trace)
  {
  }

  /** A directory walked recursively, not left unfollowed as a symlink. */
  predicate WalkedAsDirectory(p: Path, n: Node, recurse: bool, follow: bool) {
    recurse && StatFor(p, n, follow).Some? && StatFor(p, n, follow).value.Dir?
  }

  /** A directory walked recursively is walked by WalkDir on what stat or lstat found. */
  lemma WalkIsWalkDir(p: Path, n: Node, follow: bool, depthFirst: bool, fa: Action, da: Action)
    requires WalkedAsDirectory(p, n, true, follow)
    ensures p != [] && StatFor(p, n, follow).value.Dir?
    ensures Walk(p, n, true, follow, depthFirst, fa, da)
         == WalkDir(p, StatFor(p, n, follow).value, follow, depthFirst, fa, da)
  {
  }

  /** Pre-order: dirAction runs on the directory before anything else happens; FALSE reports and
      fails with no entry visited, SKIP succeeds with no entry visited. */
  lemma PreOrder(p: Path, n: Node, follow: bool, fa: Action, da: Action)
    requires WalkedAsDirectory(p, n, true, follow) && da.Some?
    ensures var r := Walk(p, n, true, follow, false, fa, da);
            |r.trace| > 0 && r.trace[0] == DirActionCall(p)
            && (da.value(p, Directory) == False ==> r == Run(False, [DirActionCall(p), Report(p)]))
            && (da.value(p, Directory) == Skip ==> r == Run(True, [DirActionCall(p)]))
  {
  }

  /** A directory that cannot be opened: reported, FALSE, and no entry is visited. */
  lemma UnopenableDirectory(p: Path, n: Node, follow: bool, depthFirst: bool, fa: Action, da: Action)
    requires WalkedAsDirectory(p, n, true, follow) && !StatFor(p, n, follow).value.openable
    requires PreContinues(p, depthFirst, da)
    ensures Walk(p, n, true, follow, depthFirst, fa, da)
         == Run(False, (if !depthFirst && da.Some? then [DirActionCall(p)] else []) + [Report(p)])
  {
    WalkIsWalkDir(p, n, follow, depthFirst, fa, da);
    WalkDirUnopened(p, StatFor(p, n, follow).value, follow, depthFirst, fa, da);
  }

  /** Post-order: dirAction runs once after all entries, failed or not; FALSE from it reports
      and fails the directory. */
  lemma PostOrder(p: Path, n: Node, follow: bool, fa: Action, da: Action)
    requires WalkedAsDirectory(p, n, true, follow) && StatFor(p, n, follow).value.openable
    requires da.Some?
    requires !WalkEntries(p, StatFor(p, n, follow).value.entries, follow, true, fa, da).abandoned
    ensures var s := WalkEntries(p, StatFor(p, n, follow).value.entries, follow, true, fa, da);
            var r := Walk(p, n, true, follow, true, fa, da);
            r.trace == s.trace + [DirActionCall(p)]
                       + (if da.value(p, Directory) == False then [Report(p)] else [])
  {
    var m := StatFor(p, n, follow).value;
    WalkIsWalkDir(p, n, follow, true, fa, da);
    WalkDirCompleted(p, m, follow, true, fa, da);
    assert [] + WalkEntries(p, m.entries, follow, true, fa, da).trace
        == WalkEntries(p, m.entries, follow, true, fa, da).trace;
  }

  /** A child path that does not fit ends the directory: FALSE, the trace ends with the
      name-too-long report, so the post-order dirAction is not called. */
  lemma TooLongEndsDirectory(p: Path, n: Node, follow: bool, depthFirst: bool, fa: Action, da: Action)
    requires WalkedAsDirectory(p, n, true, follow) && StatFor(p, n, follow).value.openable
    requires PreContinues(p, depthFirst, da)
    requires WalkEntries(p, StatFor(p, n, follow).value.entries, follow, depthFirst, fa, da).abandoned
    ensures var r := Walk(p, n, true, follow, depthFirst, fa, da);
            r.status == False && |r.trace| > 0 && r.trace[|r.trace| - 1] == NameTooLong
  {
    var m := StatFor(p, n, follow).value;
    var s := WalkEntries(p, m.entries, follow, depthFirst, fa, da);
    WalkIsWalkDir(p, n, follow, depthFirst, fa, da);
    WalkDirAbandoned(p, m, follow, depthFirst, fa, da);
    AbandonedEndsWithNameTooLong(p, m.entries, follow, depthFirst, fa, da);
    LastOfAppend(PreTrace(p, depthFirst, da), s.trace);
  }

  /** The result of a directory walked to its end: FALSE exactly when it could not be opened,
      some child returned FALSE, or the post-order dirAction returned FALSE; TRUE otherwise. */
  lemma DirectoryResult(p: Path, n: Node, follow: bool, depthFirst: bool, fa: Action, da: Action)
    requires WalkedAsDirectory(p, n, true, follow)
    requires PreContinues(p, depthFirst, da)
    requires StatFor(p, n, follow).value.openable ==>
               !WalkEntries(p, StatFor(p, n, follow).value.entries, follow, depthFirst, fa, da).abandoned
    ensures var m := StatFor(p, n, follow).value;
            var r := Walk(p, n, true, follow, depthFirst, fa, da);
            (r.status == False
             <==> !m.openable
                  || (exists i :: ChildFails(p, m.entries, i, follow, depthFirst, fa, da))
                  || (depthFirst && da.Some? && da.value(p, Directory) == False))
            && (r.status != False ==> r.status == True)
  {
    var m := StatFor(p, n, follow).value;
    if m.openable {
      EntriesFailIff(p, m.entries, follow, depthFirst, fa, da);
    }
  }

  /** -------- depth-first and pre-order walks agree on everything but dirAction's place -------- */

  /** The events other than dirAction calls. */
  function WithoutDirCalls(t: seq<Event>): seq<Event> {
    if t == [] then []
    else if t[0].DirActionCall? then WithoutDirCalls(t[1..])
    else [t[0]] + WithoutDirCalls(t[1..])
  }

  lemma {:induction false} WithoutDirCallsAppend(a: seq<Event>, b: seq<Event>)
    ensures WithoutDirCalls(a + b) == WithoutDirCalls(a) + WithoutDirCalls(b)
  {
    if a == [] {
      assert a + b == b;
    } else {
      assert (a + b)[0] == a[0] && (a + b)[1..] == a[1..] + b;
      WithoutDirCallsAppend(a[1..], b);
    }
  }

  /** A dirAction that is NULL or always answers TRUE. */
  ghost predicate NeverStops(da: Action) {
    da.Some? ==> forall q: Path, t: FileType :: da.value(q, t) == True
  }

  /** When dirAction never stops the walk, depth-first and pre-order walks return the same value
      and produce the same file visits and error reports in the same order. */
  lemma {:induction false} OrderAgnostic(p: Path, n: Node, recurse: bool, follow: bool,
                                         fa: Action, da: Action)
    requires NeverStops(da)
    ensures var post := Walk(p, n, recurse, follow, true, fa, da);
            var pre := Walk(p, n, recurse, follow, false, fa, da);
            post.status == pre.status && WithoutDirCalls(post.trace) == WithoutDirCalls(pre.trace)
    decreases Size(n), 1
  {
    var st := StatFor(p, n, follow);
    if st.Some? && st.value.Dir? && recurse && !(!follow && st.value.Link?) {
      OrderAgnosticDir(p, st.value, follow, fa, da);
    }
  }

  lemma {:induction false} OrderAgnosticDir(p: Path, m: Node, follow: bool, fa: Action, da: Action)
    requires m.Dir? && p != [] && NeverStops(da)
    ensures var post := WalkDir(p, m, follow, true, fa, da);
            var pre := WalkDir(p, m, follow, false, fa, da);
            post.status == pre.status && WithoutDirCalls(post.trace) == WithoutDirCalls(pre.trace)
    decreases Size(m), 0
  {
    var s1 := WalkEntries(p, m.entries, follow, true, fa, da);
    var s0 := WalkEntries(p, m.entries, follow, false, fa, da);
    var d := PreTrace(p, false, da);
    assert WithoutDirCalls(d) == [];
    assert PreTrace(p, true, da) == [];
    if !m.openable {
      WalkDirUnopened(p, m, follow, true, fa, da);
      WalkDirUnopened(p, m, follow, false, fa, da);
      WithoutDirCallsAppend(d, [Report(p)]);
    } else {
      OrderAgnosticEntries(p, m.entries, follow, fa, da);
      WithoutDirCallsAppend(d, s0.trace);
      if s1.abandoned {
        WalkDirAbandoned(p, m, follow, true, fa, da);
        WalkDirAbandoned(p, m, follow, false, fa, da);
        assert [] + s1.trace == s1.trace;
      } else {
        WalkDirCompleted(p, m, follow, true, fa, da);
        WalkDirCompleted(p, m, follow, false, fa, da);
        assert DirCall(da, p).trace == d;
        assert [] + s1.trace + d == s1.trace + d;
        assert d + s0.trace + [] == d + s0.trace;
        WithoutDirCallsAppend(s1.trace, d);
      }
    }
  }

  lemma {:induction false} OrderAgnosticEntries(parent: Path, es: seq<Entry>, follow: bool,
                                                fa: Action, da: Action)
    requires parent != [] && NeverStops(da)
    ensures var post := WalkEntries(parent, es, follow, true, fa, da);
            var pre := WalkEntries(parent, es, follow, false, fa, da);
            post.failed == pre.failed && post.abandoned == pre.abandoned
            && WithoutDirCalls(post.trace) == WithoutDirCalls(pre.trace)
    decreases EntriesSize(es), 2
  {
    if es == [] {
    } else if IsDot(es[0].name) {
      OrderAgnosticEntries(parent, es[1..], follow, fa, da);
    } else {
      match ChildPath(parent, es[0].name)
      case None =>
      case Some(c) =>
        OrderAgnostic(c, es[0].node, true, follow, fa, da);
        OrderAgnosticEntries(parent, es[1..], follow, fa, da);
        var r1 := Walk(c, es[0].node, true, follow, true, fa, da);
        var r0 := Walk(c, es[0].node, true, follow, false, fa, da);
        var t1 := WalkEntries(parent, es[1..], follow, true, fa, da);
        var t0 := WalkEntries(parent, es[1..], follow, false, fa, da);
        WithoutDirCallsAppend(r1.trace, t1.trace);
        WithoutDirCallsAppend(r0.trace, t0.trace);
    }
  }

  /** Every entry of the walk can be stat'ed, every directory opened, and every child path
      fits. */
  ghost predicate Healthy(p: Path, n: Node, follow: bool)
    decreases Size(n), 1
  {
    match StatFor(p, n, follow)
    case None => false
    case Some(m) =>
      m.Dir? && !(!follow && m.Link?) ==> m.openable && HealthyEntries(p, m.entries, follow)
  }

  ghost predicate HealthyEntries(parent: Path, es: seq<Entry>, follow: bool)
    requires parent != []
    decreases EntriesSize(es), 2
  {
    es != [] ==>
      HealthyEntries(parent, es[1..], follow)
      && (!IsDot(es[0].name) ==>
            ChildPath(parent, es[0].name).Some?
            && Healthy(ChildPath(parent, es[0].name).value, es[0].node, follow))
  }

  /** On a healthy tree, with a dirAction that never stops the walk, depth-first and pre-order
      walks make the same calls and reports, each the same number of times: only the place of
      each directory's dirAction call differs. */
  lemma {:induction false} SameEventsEitherOrder(p: Path, n: Node, recurse: bool, follow: bool,
                                                 fa: Action, da: Action)
    requires NeverStops(da) && Healthy(p, n, follow)
    ensures multiset(Walk(p, n, recurse, follow, true, fa, da).trace)
         == multiset(Walk(p, n, recurse, follow, false, fa, da).trace)
    decreases Size(n), 1
  {
    var m := StatFor(p, n, follow).value;
    if m.Dir? && recurse && !(!follow && m.Link?) {
      assert Walk(p, n, recurse, follow, true, fa, da) == WalkDir(p, m, follow, true, fa, da);
      assert Walk(p, n, recurse, follow, false, fa, da) == WalkDir(p, m, follow, false, fa, da);
      SameDirEitherOrder(p, m, follow, fa, da);
    }
  }

  lemma {:induction false} SameDirEitherOrder(p: Path, m: Node, follow: bool, fa: Action, da: Action)
    requires m.Dir? && p != [] && NeverStops(da) && m.openable && HealthyEntries(p, m.entries, follow)
    ensures multiset(WalkDir(p, m, follow, true, fa, da).trace)
         == multiset(WalkDir(p, m, follow, false, fa, da).trace)
    decreases Size(m), 0
  {
    SameEntriesEitherOrder(p, m.entries, follow, fa, da);
    HealthyNotAbandoned(p, m.entries, follow, true, fa, da);
    HealthyNotAbandoned(p, m.entries, follow, false, fa, da);
    DirTraceWhenNeverStopped(p, m, follow, true, fa, da);
    DirTraceWhenNeverStopped(p, m, follow, false, fa, da);
  }

  /** A directory walked to the end whose dirAction never stops the walk: dirAction's one call
      comes first in pre-order and last in depth-first order. */
  lemma DirTraceWhenNeverStopped(p: Path, m: Node, follow: bool, depthFirst: bool, fa: Action, da: Action)
    requires m.Dir? && p != [] && NeverStops(da) && m.openable
    requires !WalkEntries(p, m.entries, follow, depthFirst, fa, da).abandoned
    ensures var s := WalkEntries(p, m.entries, follow, depthFirst, fa, da);
            var d := if da.Some? then [DirActionCall(p)] else [];
            WalkDir(p, m, follow, depthFirst, fa, da).trace
            == if depthFirst then s.trace + d else d + s.trace
  {
    var s := WalkEntries(p, m.entries, follow, depthFirst, fa, da);
    WalkDirCompleted(p, m, follow, depthFirst, fa, da);
    if depthFirst {
      assert [] + s.trace == s.trace;
    } else {
      assert PreTrace(p, depthFirst, da) + s.trace + [] == PreTrace(p, depthFirst, da) + s.trace;
    }
  }

  lemma {:induction false} SameEntriesEitherOrder(parent: Path, es: seq<Entry>, follow: bool,
                                                  fa: Action, da: Action)
    requires parent != [] && NeverStops(da) && HealthyEntries(parent, es, follow)
    ensures multiset(WalkEntries(parent, es, follow, true, fa, da).trace)
         == multiset(WalkEntries(parent, es, follow, false, fa, da).trace)
    decreases EntriesSize(es), 2
  {
    if es != [] {
      SameEntriesEitherOrder(parent, es[1..], follow, fa, da);
      if !IsDot(es[0].name) {
        var c := ChildPath(parent, es[0].name).value;
        SameEventsEitherOrder(c, es[0].node, true, follow, fa, da);
      }
    }
  }

  /** On a healthy listing the readdir loop runs to its end. */
  lemma {:induction false} HealthyNotAbandoned(parent: Path, es: seq<Entry>, follow: bool,
                                               depthFirst: bool, fa: Action, da: Action)
    requires parent != [] && HealthyEntries(parent, es, follow)
    ensures !WalkEntries(parent, es, follow, depthFirst, fa, da).abandoned
  {
    if es != [] {
      HealthyNotAbandoned(parent, es[1..], follow, depthFirst, fa, da);
    }
  }
}
