/** Concrete walks over small example trees, with every event written out. */
module WalkScenarios {
  import opened Util
  import opened Paths
  import opened FsTree
  import opened Walker

  /** A callback that always answers TRUE. */
  function Accept(p: Path, t: FileType): Status { True }

  /** /a holding a file f1 and a directory d1 that holds a file f2. */
  function SampleTree(d1Openable: bool): Node {
    Dir(true, [Entry(".", File), Entry("f1", File), Entry("..", File),
               Entry("d1", Dir(d1Openable, [Entry("f2", File)]))])
  }

  /** The child paths of the sample tree built by the join. */
  lemma SamplePaths()
    ensures ChildPath("/a", "f1") == Some("/a/f1")
    ensures ChildPath("/a", "d1") == Some("/a/d1")
    ensures ChildPath("/a/d1", "f2") == Some("/a/d1/f2")
  {
    assert Join("/a", "f1") == "/a" + "/" + "f1" == "/a/f1";
    assert Join("/a", "d1") == "/a" + "/" + "d1" == "/a/d1";
    assert Join("/a/d1", "f2") == "/a/d1" + "/" + "f2" == "/a/d1/f2";
  }

  /** The readdir loop of /a, given the walk of /a/d1. */
  lemma SampleRootEntries(d1: Node, depthFirst: bool, d1Run: Run)
    requires d1Run == Walk("/a/d1", d1, true, true, depthFirst, Some(Accept), Some(Accept))
    ensures WalkEntries("/a", [Entry(".", File), Entry("f1", File), Entry("..", File), Entry("d1", d1)],
                        true, depthFirst, Some(Accept), Some(Accept))
         == Scan(d1Run.status == False, [FileActionCall("/a/f1", Regular)] + d1Run.trace, false)
  {
    SamplePaths();
    var es := [Entry(".", File), Entry("f1", File), Entry("..", File), Entry("d1", d1)];
    assert es[1..][1..] == es[2..] && es[2..][1..] == es[3..] && es[3..][1..] == [];
    var f := Walk("/a/f1", File, true, true, depthFirst, Some(Accept), Some(Accept));
    assert f == Run(True, [FileActionCall("/a/f1", Regular)]);
    assert es[3..] == [Entry("d1", d1)];
    var last := WalkEntries("/a", es[3..], true, depthFirst, Some(Accept), Some(Accept));
    assert WalkEntries("/a", es[3..][1..], true, depthFirst, Some(Accept), Some(Accept))
        == Scan(false, [], false);
    assert last == Scan(d1Run.status == False, d1Run.trace + [], false);
    assert es[2..][0].name == ".." && es[1..][0].name == "f1" && es[0].name == ".";
    assert WalkEntries("/a", es[2..], true, depthFirst, Some(Accept), Some(Accept)) == last;
    assert WalkEntries("/a", es[1..], true, depthFirst, Some(Accept), Some(Accept))
        == Scan(last.failed, f.trace + last.trace, false);
    assert d1Run.trace + [] == d1Run.trace;
  }

  /** The readdir loop of /a/d1. */
  lemma SampleD1Entries(depthFirst: bool)
    ensures WalkEntries("/a/d1", [Entry("f2", File)], true, depthFirst, Some(Accept), Some(Accept))
         == Scan(false, [FileActionCall("/a/d1/f2", Regular)], false)
  {
    SamplePaths();
    assert [Entry("f2", File)][1..] == [];
    assert Walk("/a/d1/f2", File, true, true, depthFirst, Some(Accept), Some(Accept))
        == Run(True, [FileActionCall("/a/d1/f2", Regular)]);
  }

  /** Pre-order: each directory comes before its entries. */
  lemma PreOrderSample()
    ensures Walk("/a", SampleTree(true), true, true, false, Some(Accept), Some(Accept))
         == Run(True, [DirActionCall("/a"), FileActionCall("/a/f1", Regular),
                       DirActionCall("/a/d1"), FileActionCall("/a/d1/f2", Regular)])
  {
    var d1 := Dir(true, [Entry("f2", File)]);
    SampleD1Entries(false);
    var d1Run := Walk("/a/d1", d1, true, true, false, Some(Accept), Some(Accept));
    assert d1Run == Run(True, [DirActionCall("/a/d1"), FileActionCall("/a/d1/f2", Regular)]);
    SampleRootEntries(d1, false, d1Run);
  }

  /** Depth-first: each directory comes after its entries. */
  lemma DepthFirstSample()
    ensures Walk("/a", SampleTree(true), true, true, true, Some(Accept), Some(Accept))
         == Run(True, [FileActionCall("/a/f1", Regular), FileActionCall("/a/d1/f2", Regular),
                       DirActionCall("/a/d1"), DirActionCall("/a")])
  {
    var d1 := Dir(true, [Entry("f2", File)]);
    SampleD1Entries(true);
    var d1Run := Walk("/a/d1", d1, true, true, true, Some(Accept), Some(Accept));
    assert d1Run == WalkDir("/a/d1", d1, true, true, Some(Accept), Some(Accept));
    assert d1Run == Run(True, [FileActionCall("/a/d1/f2", Regular), DirActionCall("/a/d1")]);
    SampleRootEntries(d1, true, d1Run);
    var root := SampleTree(true);
    assert Walk("/a", root, true, true, true, Some(Accept), Some(Accept))
        == WalkDir("/a", root, true, true, Some(Accept), Some(Accept));
  }

  /** d1 cannot be opened: /a's dirAction and f1 still run, d1 is reported once, the walk fails. */
  lemma UnopenableSample()
    ensures Walk("/a", SampleTree(false), true, true, false, Some(Accept), Some(Accept))
         == Run(False, [DirActionCall("/a"), FileActionCall("/a/f1", Regular),
                        DirActionCall("/a/d1"), Report("/a/d1")])
  {
    var d1 := Dir(false, [Entry("f2", File)]);
    var d1Run := Walk("/a/d1", d1, true, true, false, Some(Accept), Some(Accept));
    assert d1Run == WalkDir("/a/d1", d1, true, false, Some(Accept), Some(Accept));
    assert d1Run == Run(False, [DirActionCall("/a/d1"), Report("/a/d1")]);
    SampleRootEntries(d1, false, d1Run);
  }

  /** fileAction refusing /a/f1. */
  function RejectF1(p: Path, t: FileType): Status {
    if p == "/a/f1" then False else True
  }

  /** A file whose fileAction returns FALSE does not stop the walk: d1 and f2 are still visited
      after it, and only the overall result records the failure. */
  lemma FailureDoesNotStopSample()
    ensures Walk("/a", SampleTree(true), true, true, false, Some(RejectF1), Some(Accept))
         == Run(False, [DirActionCall("/a"), FileActionCall("/a/f1", Regular),
                        DirActionCall("/a/d1"), FileActionCall("/a/d1/f2", Regular)])
  {
    SamplePaths();
    var fa, da := Some(RejectF1), Some(Accept);
    var d1 := Dir(true, [Entry("f2", File)]);
    var es := SampleTree(true).entries;
    assert es[1..][1..] == es[2..] && es[2..][1..] == es[3..] && es[3..] == [Entry("d1", d1)];
    assert [Entry("f2", File)][1..] == [] && es[3..][1..] == [];
    var f2 := Walk("/a/d1/f2", File, true, true, false, fa, da);
    assert f2 == Run(True, [FileActionCall("/a/d1/f2", Regular)]);
    assert WalkEntries("/a/d1", d1.entries, true, false, fa, da)
        == Scan(false, [FileActionCall("/a/d1/f2", Regular)], false);
    var d1Run := Walk("/a/d1", d1, true, true, false, fa, da);
    assert d1Run == Run(True, [DirActionCall("/a/d1"), FileActionCall("/a/d1/f2", Regular)]);
    var last := WalkEntries("/a", es[3..], true, false, fa, da);
    assert WalkEntries("/a", es[3..][1..], true, false, fa, da) == Scan(false, [], false);
    assert last == Scan(false, d1Run.trace + [], false);
    assert d1Run.trace + [] == d1Run.trace;
    var f1 := Walk("/a/f1", File, true, true, false, fa, da);
    assert f1 == Run(False, [FileActionCall("/a/f1", Regular)]);
    assert WalkEntries("/a", es[2..], true, false, fa, da) == last;
    assert WalkEntries("/a", es[1..], true, false, fa, da) == Scan(true, f1.trace + last.trace, false);
  }

  /** /a holding a symlink s1 to a directory with one file. */
  function LinkTree(): Node {
    Dir(true, [Entry("s1", Link(Dir(true, [Entry("x", File)])))])
  }

  /** Not following links, s1 is passed to fileAction as a symlink and never enumerated. */
  lemma UnfollowedLinkSample()
    ensures Walk("/a", LinkTree(), true, false, false, Some(Accept), Some(Accept))
         == Run(True, [DirActionCall("/a"), FileActionCall("/a/s1", Symlink)])
  {
    assert Join("/a", "s1") == "/a" + "/" + "s1" == "/a/s1";
    var es := LinkTree().entries;
    assert es[1..] == [];
    var s1 := Walk("/a/s1", es[0].node, true, false, false, Some(Accept), Some(Accept));
    assert s1 == Run(True, [FileActionCall("/a/s1", Symlink)]);
    assert WalkEntries("/a", es, false, false, Some(Accept), Some(Accept))
        == Scan(false, s1.trace + [], false);
    assert s1.trace + [] == s1.trace;
  }

  /** Following links, the same s1 is walked as the directory it points to. */
  lemma FollowedLinkSample()
    ensures Walk("/a", LinkTree(), true, true, false, Some(Accept), Some(Accept))
         == Run(True, [DirActionCall("/a"), DirActionCall("/a/s1"), FileActionCall("/a/s1/x", Regular)])
  {
    assert Join("/a", "s1") == "/a" + "/" + "s1" == "/a/s1";
    assert Join("/a/s1", "x") == "/a/s1" + "/" + "x" == "/a/s1/x";
    var fa, da := Some(Accept), Some(Accept);
    var target := Dir(true, [Entry("x", File)]);
    var es := LinkTree().entries;
    assert es[1..] == [] && target.entries[1..] == [];
    var x := Walk("/a/s1/x", File, true, true, false, fa, da);
    assert x == Run(True, [FileActionCall("/a/s1/x", Regular)]);
    assert WalkEntries("/a/s1", target.entries, true, false, fa, da) == Scan(false, x.trace + [], false);
    assert x.trace + [] == x.trace;
    var s1 := Walk("/a/s1", es[0].node, true, true, false, fa, da);
    assert StatFor("/a/s1", es[0].node, true) == Some(target);
    assert s1 == WalkDir("/a/s1", target, true, false, fa, da);
    assert s1 == Run(True, [DirActionCall("/a/s1"), FileActionCall("/a/s1/x", Regular)]);
    assert WalkEntries("/a", es, true, false, fa, da) == Scan(false, s1.trace + [], false);
    assert s1.trace + [] == s1.trace;
  }
}
