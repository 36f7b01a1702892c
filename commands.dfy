/**
 * The commands of src/tagfarm/main.py that act on the tag tree (`untag`,
 * `showtags`, `rename`, `collect`), its older `perform_repair`, and the
 * order in which `main` locates the media root and looks up a command.
 */
module Commands {
  import opened Strings
  import opened FileSystem
  import opened Utils
  import opened Repair

  /** What a command prints, besides the repair reports. */
  datatype Note =
    | Updated(link: Path, target: Target)
    | NoFilesTagged(tag: Name)
    | Moving(from: Path, to: Path)
    | NotMoving(to: Path)

  /** The tree after a command, what it printed, and whether no exception ended it. */
  datatype Outcome = Outcome(fs: Fs, notes: seq<Note>, completed: bool)

  /** Notes printed before the rest of a command. */
  function Printed(notes: seq<Note>, o: Outcome): Outcome
  {
    Outcome(o.fs, notes + o.notes, o.completed)
  }

  /** Notes printed in two batches are the notes of one batch. */
  lemma PrintedTwice(first: seq<Note>, second: seq<Note>, o: Outcome)
    ensures Printed(first, Printed(second, o)) == Printed(first + second, o)
  {
    assert first + (second + o.notes) == (first + second) + o.notes;
  }

  /** `order` enumerates every set it is given, each member once (how `os.listdir` is read). */
  ghost predicate Enumerates(order: set<Name> -> seq<Name>)
  {
    forall s :: (forall x :: x in order(s) <==> x in s)
                && (forall i, j :: 0 <= i < j < |order(s)| ==> order(s)[i] != order(s)[j])
  }

  // ------------------------------------------------------- perform_repair (main.py)

  /**
   * main.py's `perform_repair(media_root, verbose, force_relink, prune)`:
   * tags and entries in the order `os.listdir` gives, no restriction to a
   * tag, and the short collision warning.
   */
  function LegacyRepairRun(fs: Fs, root: Path, opts: Options, order: set<Name> -> seq<Name>): Run
  {
    var ctx := Context(root, ContentIndex(fs, root), opts, Older);
    if !IsDir(fs, ByTagDir(root)) then Run(fs, [], false)
    else TagsRun(fs, ctx, order(Children(fs, ByTagDir(root))), order)
  }

  /**
   * The older engine also keeps the tree well formed, changes nothing
   * outside `by-tag`, keeps its index valid and reports only tags that
   * recorded something; a legacy collision never ends its run.
   */
  lemma LegacyRepairRunFrame(fs: Fs, root: Path, opts: Options, order: set<Name> -> seq<Name>)
    requires WellFormed(fs)
    ensures var run := LegacyRepairRun(fs, root, opts, order);
            && WellFormed(run.fs)
            && SameOutsideBelow(fs, run.fs, ByTagDir(root))
            && (IsDir(fs, ByTagDir(root)) ==>
                  SameOutsideTags(fs, run.fs, ByTagDir(root), order(Children(fs, ByTagDir(root)))))
            && ContentIndex(run.fs, root) == ContentIndex(fs, root)
            && (forall i :: 0 <= i < |run.report| ==> run.report[i].messages != [])
  {
    var ctx := Context(root, ContentIndex(fs, root), opts, Older);
    var run := LegacyRepairRun(fs, root, opts, order);
    if IsDir(fs, ByTagDir(root)) {
      var tags := order(Children(fs, ByTagDir(root)));
      TagsRunFrame(fs, ctx, tags, order);
      TagsRunReport(fs, ctx, tags, order);
      assert ReportsNonEmpty(run.report, tags);
    }
    IndexUnchangedOutsideByTag(fs, run.fs, root);
  }

  method PerformLegacyRepair(disk: Disk, root: Path, opts: Options, order: set<Name> -> seq<Name>)
    returns (report: seq<TagReport>, ok: bool)
    requires disk.Valid()
    modifies disk
    ensures disk.Valid()
    ensures LegacyRepairRun(old(disk.nodes), root, opts, order) == Run(disk.nodes, report, ok)
  {
    var index := IndexFiles(disk.nodes, root);
    var ctx := Context(root, index, opts, Older);
    if !IsDir(disk.nodes, ByTagDir(root)) {
      return [], false;
    }
    report, ok := RepairTags(disk, ctx, order(Children(disk.nodes, ByTagDir(root))), order);
  }

  // ------------------------------------------------------- untag

  /** `untag`: remove `by-tag/<tag>/<basename>` for each file whose link lexists. */
  function UntagRun(fs: Fs, root: Path, tag: Name, filenames: seq<Path>): Outcome
    decreases |filenames|
  {
    if filenames == [] then Outcome(fs, [], true)
    else
      var linkname := TagLinkPath(root, tag, filenames[0]);
      if !Lexists(fs, linkname) then UntagRun(fs, root, tag, filenames[1..])
      else
        match Remove(fs, linkname)
        case Err(_) => Outcome(fs, [], false)
        case Ok(fs1) => UntagRun(fs1, root, tag, filenames[1..])
  }

  /** The links `untag` aims at. */
  ghost function UntagLinks(root: Path, tag: Name, filenames: seq<Path>): set<Path>
  {
    set f | f in filenames :: TagLinkPath(root, tag, f)
  }

  /**
   * The effect of `untag` over `links`: nothing printed; the run fails
   * exactly when one of the links is a directory; nothing else changes;
   * a completed run leaves none of the links.
   */
  ghost predicate Untagged(fs: Fs, links: set<Path>, r: Outcome)
  {
    && r.notes == []
    && (r.completed <==> forall p :: p in links && p in fs ==> !fs[p].Dir?)
    && (forall p :: p !in links ==> (p in r.fs <==> p in fs) && (p in fs ==> r.fs[p] == fs[p]))
    && (r.completed ==> forall p :: p in links ==> p !in r.fs)
  }

  /** `untag` removes exactly the links of the named files that lexist. */
  lemma {:induction false} UntagRemovesExactly(fs: Fs, root: Path, tag: Name, filenames: seq<Path>)
    ensures Untagged(fs, UntagLinks(root, tag, filenames), UntagRun(fs, root, tag, filenames))
    decreases |filenames|
  {
    if filenames != [] {
      var linkname := TagLinkPath(root, tag, filenames[0]);
      var rest := UntagLinks(root, tag, filenames[1..]);
      assert UntagLinks(root, tag, filenames) == {linkname} + rest by {
        assert forall f :: f in filenames <==> f == filenames[0] || f in filenames[1..];
      }
      if !Lexists(fs, linkname) {
        UntagRemovesExactly(fs, root, tag, filenames[1..]);
        UntagSkip(fs, linkname, rest, UntagRun(fs, root, tag, filenames[1..]));
      } else {
        match Remove(fs, linkname)
        case Err(_) =>
        case Ok(fs1) =>
          UntagRemovesExactly(fs1, root, tag, filenames[1..]);
          UntagStep(fs, fs1, linkname, rest, UntagRun(fs1, root, tag, filenames[1..]));
      }
    }
  }

  /** A link that is not there adds nothing to do. */
  lemma UntagSkip(fs: Fs, linkname: Path, rest: set<Path>, r: Outcome)
    requires linkname !in fs && Untagged(fs, rest, r)
    ensures Untagged(fs, {linkname} + rest, r)
  {
    if r.completed {
      forall p | p in {linkname} + rest
        ensures p !in r.fs
      {
        if p !in rest {
          assert p == linkname;
        }
      }
    }
  }

  /** Removing one link, then the others, removes all of them. */
  lemma UntagStep(fs: Fs, fs1: Fs, linkname: Path, rest: set<Path>, r: Outcome)
    requires linkname in fs && !fs[linkname].Dir? && fs1 == fs - {linkname}
    requires Untagged(fs1, rest, r)
    ensures Untagged(fs, {linkname} + rest, r)
  {
    var links := {linkname} + rest;
    assert (forall p :: p in links && p in fs ==> !fs[p].Dir?)
       <==> (forall p :: p in rest && p in fs1 ==> !fs1[p].Dir?);
    forall p | p !in links
      ensures (p in r.fs <==> p in fs) && (p in fs ==> r.fs[p] == fs[p])
    {
      assert p !in rest && p != linkname;
    }
    if r.completed {
      forall p | p in links
        ensures p !in r.fs
      {
        if p !in rest {
          assert p == linkname && p !in fs1;
        }
      }
    }
  }

  method Untag(disk: Disk, root: Path, tag: Name, filenames: seq<Path>) returns (ok: bool)
    requires disk.Valid()
    modifies disk
    ensures disk.Valid()
    ensures UntagRun(old(disk.nodes), root, tag, filenames) == Outcome(disk.nodes, [], ok)
  {
    var i := 0;
    while i < |filenames|
      invariant 0 <= i <= |filenames| && disk.Valid()
      invariant UntagRun(old(disk.nodes), root, tag, filenames) == UntagRun(disk.nodes, root, tag, filenames[i..])
    {
      assert filenames[i..][1..] == filenames[i + 1..];
      var linkname := TagLinkPath(root, tag, filenames[i]);
      if Lexists(disk.nodes, linkname) {
        var removed := Remove(disk.nodes, linkname);
        if removed.Err? {
          return false;
        }
        RemovePreservesWellFormed(disk.nodes, linkname);
        disk.nodes := removed.value;
      }
      i := i + 1;
    }
    ok := true;
  }

  // ------------------------------------------------------- showtags

  /** A line of `showtags`: a file and the tags that hold an entry with its base name. */
  datatype Line = Line(filename: Path, tags: seq<Name>)

  /** The tags among `tags` whose directory holds an entry named `basename`, in the same order. */
  function TagsHolding(fs: Fs, byTag: Path, tags: seq<Name>, basename: Name): seq<Name>
    decreases |tags|
  {
    if tags == [] then []
    else
      var init := TagsHolding(fs, byTag, tags[..|tags| - 1], basename);
      var t := tags[|tags| - 1];
      if Lexists(fs, Child(byTag + [t], basename)) then init + [t] else init
  }

  /** The filter keeps exactly the tags holding the entry, and keeps a sorted list sorted. */
  lemma TagsHoldingExactly(fs: Fs, byTag: Path, tags: seq<Name>, basename: Name)
    ensures var r := TagsHolding(fs, byTag, tags, basename);
            && (forall t :: t in r <==> t in tags && Lexists(fs, Child(byTag + [t], basename)))
            && (StrictlySorted(tags) ==> StrictlySorted(r))
  {
    TagsHoldingMembers(fs, byTag, tags, basename);
    if StrictlySorted(tags) {
      TagsHoldingSorted(fs, byTag, tags, basename);
    }
  }

  /** The filter keeps exactly the tags holding the entry. */
  lemma {:induction false} TagsHoldingMembers(fs: Fs, byTag: Path, tags: seq<Name>, basename: Name)
    ensures forall t ::
              t in TagsHolding(fs, byTag, tags, basename) <==> t in tags && Lexists(fs, Child(byTag + [t], basename))
    decreases |tags|
  {
    if tags != [] {
      var init := tags[..|tags| - 1];
      TagsHoldingMembers(fs, byTag, init, basename);
      assert tags == init + [tags[|tags| - 1]];
    }
  }

  /** The filter keeps a strictly sorted list strictly sorted. */
  lemma {:induction false} TagsHoldingSorted(fs: Fs, byTag: Path, tags: seq<Name>, basename: Name)
    requires StrictlySorted(tags)
    ensures StrictlySorted(TagsHolding(fs, byTag, tags, basename))
    decreases |tags|
  {
    if tags != [] {
      var init := tags[..|tags| - 1];
      var t := tags[|tags| - 1];
      assert StrictlySorted(init);
      TagsHoldingSorted(fs, byTag, init, basename);
      var r0 := TagsHolding(fs, byTag, init, basename);
      if Lexists(fs, Child(byTag + [t], basename)) {
        TagsHoldingMembers(fs, byTag, init, basename);
        forall i | 0 <= i < |r0|
          ensures Below(r0[i], t)
        {
          assert r0[i] in init;
          var k :| 0 <= k < |init| && init[k] == r0[i];
          assert tags[k] == r0[i];
        }
      }
    }
  }

  /** Whether a file with `count` tags is printed under `--show-only-fewer-than`. */
  predicate Reported(threshold: Option<int>, count: nat)
  {
    threshold.None? || count < threshold.value
  }

  /** The lines printed for `filenames`, in order. */
  function Lines(fs: Fs, byTag: Path, tags: seq<Name>, filenames: seq<Path>, threshold: Option<int>): seq<Line>
    decreases |filenames|
  {
    if filenames == [] then []
    else
      var init := Lines(fs, byTag, tags, filenames[..|filenames| - 1], threshold);
      var f := filenames[|filenames| - 1];
      var found := TagsHolding(fs, byTag, tags, BaseName(f));
      if Reported(threshold, |found|) then init + [Line(f, found)] else init
  }

  /** `showtags`: listing `by-tag` fails unless it is a directory (and is done once per file). */
  function ShowTagsRun(fs: Fs, root: Path, filenames: seq<Path>, threshold: Option<int>): Option<seq<Line>>
  {
    if filenames == [] then Some([])
    else if !IsDir(fs, ByTagDir(root)) then None
    else Some(Lines(fs, ByTagDir(root), SortedNames(Children(fs, ByTagDir(root))), filenames, threshold))
  }

  /**
   * A line is printed for a file exactly when the threshold lets its
   * count through, and it lists exactly the tags holding an entry with the
   * file's base name.
   */
  lemma {:induction false} LinesExactly(fs: Fs, byTag: Path, tags: seq<Name>, filenames: seq<Path>, threshold: Option<int>)
    ensures var lines := Lines(fs, byTag, tags, filenames, threshold);
            && |lines| <= |filenames|
            && forall l :: l in lines <==>
                 && l.filename in filenames
                 && l.tags == TagsHolding(fs, byTag, tags, BaseName(l.filename))
                 && Reported(threshold, |l.tags|)
    decreases |filenames|
  {
    if filenames != [] {
      var init := filenames[..|filenames| - 1];
      LinesExactly(fs, byTag, tags, init, threshold);
      assert forall x :: x in filenames <==> x in init || x == filenames[|filenames| - 1] by {
        assert filenames == init + [filenames[|filenames| - 1]];
      }
    }
  }

  /**
   * `showtags` fails only when `by-tag` is not a directory; its lines name
   * the tags, in sorted order, whose directory has an entry for the file.
   */
  lemma ShowTagsReportsTags(fs: Fs, root: Path, filenames: seq<Path>, threshold: Option<int>)
    ensures var r := ShowTagsRun(fs, root, filenames, threshold);
            && (r.Some? <==> filenames == [] || IsDir(fs, ByTagDir(root)))
            && (r.Some? ==> forall l :: l in r.value ==>
                  && l.filename in filenames
                  && StrictlySorted(l.tags)
                  && Reported(threshold, |l.tags|)
                  && (forall t :: t in l.tags <==>
                        ByTagDir(root) + [t] in fs && Lexists(fs, Child(ByTagDir(root) + [t], BaseName(l.filename)))))
  {
    var byTag := ByTagDir(root);
    if filenames != [] && IsDir(fs, byTag) {
      var tags := SortedNames(Children(fs, byTag));
      LinesExactly(fs, byTag, tags, filenames, threshold);
      forall l | l in Lines(fs, byTag, tags, filenames, threshold)
        ensures StrictlySorted(l.tags)
        ensures forall t :: t in l.tags <==> byTag + [t] in fs && Lexists(fs, Child(byTag + [t], BaseName(l.filename)))
      {
        TagsHoldingExactly(fs, byTag, tags, BaseName(l.filename));
      }
    }
  }

  lemma LinesAppend(fs: Fs, byTag: Path, tags: seq<Name>, filenames: seq<Path>, f: Path, threshold: Option<int>)
    ensures var found := TagsHolding(fs, byTag, tags, BaseName(f));
            Lines(fs, byTag, tags, filenames + [f], threshold)
              == Lines(fs, byTag, tags, filenames, threshold) + if Reported(threshold, |found|) then [Line(f, found)] else []
  {
    assert (filenames + [f])[..|filenames|] == filenames;
  }

  /** The inner loop of `showtags`: the tags of `listing` holding an entry named `basename`. */
  method TagsContaining(fs: Fs, byTag: Path, listing: seq<Name>, basename: Name) returns (tags: seq<Name>)
    ensures tags == TagsHolding(fs, byTag, listing, basename)
  {
    tags := [];
    var j := 0;
    while j < |listing|
      invariant 0 <= j <= |listing|
      invariant tags == TagsHolding(fs, byTag, listing[..j], basename)
    {
      assert listing[..j + 1][..j] == listing[..j];
      if Lexists(fs, Child(byTag + [listing[j]], basename)) {
        tags := tags + [listing[j]];
      }
      j := j + 1;
    }
    assert listing[..j] == listing;
  }

  /** The body of `showtags`'s loop: the line printed for `f`, if any, after the files `done`. */
  method LineFor(fs: Fs, byTag: Path, listing: seq<Name>, ghost done: seq<Path>, f: Path, threshold: Option<int>)
    returns (line: seq<Line>)
    ensures Lines(fs, byTag, listing, done + [f], threshold) == Lines(fs, byTag, listing, done, threshold) + line
  {
    LinesAppend(fs, byTag, listing, done, f, threshold);
    var tags := TagsContaining(fs, byTag, listing, BaseName(f));
    if threshold.None? || |tags| < threshold.value {
      line := [Line(f, tags)];
    } else {
      line := [];
    }
  }

  /** The loop of `showtags` over the files, given the sorted tags. */
  method LinesFor(fs: Fs, byTag: Path, listing: seq<Name>, filenames: seq<Path>, threshold: Option<int>)
    returns (lines: seq<Line>)
    ensures lines == Lines(fs, byTag, listing, filenames, threshold)
  {
    lines := [];
    var i := 0;
    while i < |filenames|
      invariant 0 <= i <= |filenames|
      invariant lines == Lines(fs, byTag, listing, filenames[..i], threshold)
    {
      assert filenames[..i + 1] == filenames[..i] + [filenames[i]];
      var line := LineFor(fs, byTag, listing, filenames[..i], filenames[i], threshold);
      lines := lines + line;
      i := i + 1;
    }
    assert filenames[..i] == filenames;
  }

  method ShowTags(fs: Fs, root: Path, filenames: seq<Path>, threshold: Option<int>) returns (r: Option<seq<Line>>)
    ensures r == ShowTagsRun(fs, root, filenames, threshold)
  {
    if filenames == [] {
      return Some([]);
    }
    var byTag := ByTagDir(root);
    if !IsDir(fs, byTag) {
      return None;
    }
    var listing := SortedNames(Children(fs, byTag));
    var lines := LinesFor(fs, byTag, listing, filenames, threshold);
    return Some(lines);
  }

  // ------------------------------------------------------- rename

  /**
   * The loop of `rename` over the tags: where a tag has an entry with the
   * old base name, replace it by a link under the new base name.
   */
  function RelinkTags(fs: Fs, byTag: Path, tags: seq<Name>, srcBase: Name, destBase: Name, target: Target): Outcome
    decreases |tags|
  {
    if tags == [] then Outcome(fs, [], true)
    else
      var first := RelinkTag(fs, byTag, tags[0], srcBase, destBase, target);
      if !first.completed then first
      else Printed(first.notes, RelinkTags(first.fs, byTag, tags[1..], srcBase, destBase, target))
  }

  /** One round of that loop, for the tag `tag`. */
  function RelinkTag(fs: Fs, byTag: Path, tag: Name, srcBase: Name, destBase: Name, target: Target): Outcome
  {
    var oldLink := Child(byTag + [tag], srcBase);
    if !Lexists(fs, oldLink) then Outcome(fs, [], true)
    else
      match Remove(fs, oldLink)
      case Err(_) => Outcome(fs, [], false)
      case Ok(fs1) =>
        var newLink := Child(byTag + [tag], destBase);
        match MakeLink(fs1, target, newLink)
        case Err(_) => Outcome(fs1, [], false)
        case Ok(fs2) => Outcome(fs2, [Updated(newLink, target)], true)
  }

  /** `rename(src, dest)`: move the file, then follow it with its tag links. */
  function RenameRun(fs: Fs, root: Path, src: Path, dest: Path, order: set<Name> -> seq<Name>): Outcome
  {
    match Rename(fs, src, dest)
    case Err(_) => Outcome(fs, [], false)
    case Ok(fs1) =>
      var byTag := ByTagDir(root);
      if !IsDir(fs1, byTag) then Outcome(fs1, [], false)
      else RelinkTags(fs1, byTag, order(Children(fs1, byTag)), BaseName(src), BaseName(dest), RelativizeTarget(root, dest))
  }

  /** `p` is the old or the new link in the directory of a tag in `relinked`. */
  ghost predicate RelinkedPath(byTag: Path, relinked: set<Name>, srcBase: Name, destBase: Name, p: Path)
  {
    |p| == |byTag| + 2 && byTag <= p && p[|byTag|] in relinked
    && (p[|byTag| + 1] == srcBase || p[|byTag| + 1] == destBase)
  }

  ghost predicate Distinct(tags: seq<Name>)
  {
    forall i, j :: 0 <= i < j < |tags| ==> tags[i] != tags[j]
  }

  /** `fs` and `fs'` agree at `p`. */
  ghost predicate SameAt(fs: Fs, fs': Fs, p: Path)
  {
    (p in fs <==> p in fs') && (p in fs ==> fs[p] == fs'[p])
  }

  /**
   * The UPDATED lines for `tags`, in order: one naming the new link for
   * each tag that has an entry under the old name in `fs`.
   */
  function UpdateNotes(fs: Fs, byTag: Path, tags: seq<Name>, srcBase: Name, destBase: Name, target: Target): seq<Note>
    decreases |tags|
  {
    if tags == [] then []
    else
      (if byTag + [tags[0], srcBase] in fs then [Updated(byTag + [tags[0], destBase], target)] else [])
      + UpdateNotes(fs, byTag, tags[1..], srcBase, destBase, target)
  }

  /** The lines depend only on which tags have an entry under the old name. */
  lemma {:induction false} UpdateNotesAgree(fs: Fs, fs': Fs, byTag: Path, tags: seq<Name>, srcBase: Name, destBase: Name, target: Target)
    requires forall t :: t in tags ==> (byTag + [t, srcBase] in fs <==> byTag + [t, srcBase] in fs')
    ensures UpdateNotes(fs, byTag, tags, srcBase, destBase, target) == UpdateNotes(fs', byTag, tags, srcBase, destBase, target)
    decreases |tags|
  {
    if tags != [] {
      assert tags[0] in tags;
      assert forall t :: t in tags[1..] ==> t in tags;
      UpdateNotesAgree(fs, fs', byTag, tags[1..], srcBase, destBase, target);
    }
  }

  /**
   * `r` is a run of the relinking loop over `tags` from `fs`: the tags that
   * had an entry under the old name are exactly the ones touched, only
   * their old and new links change, every note is an update to `target`,
   * and when the loop completes it printed one UPDATED line per such tag,
   * in order, and each of them holds a link to `target` under the new name
   * (and no longer the old entry, when the names differ).
   */
  ghost predicate Relinked(fs: Fs, byTag: Path, tags: seq<Name>, srcBase: Name, destBase: Name, target: Target, r: Outcome)
  {
    var relinked := set t | t in tags && byTag + [t, srcBase] in fs;
    && (forall p :: SameAt(fs, r.fs, p) || RelinkedPath(byTag, relinked, srcBase, destBase, p))
    && (forall n :: n in r.notes ==> n.Updated? && n.target == target)
    && (r.completed ==> r.notes == UpdateNotes(fs, byTag, tags, srcBase, destBase, target))
    && (r.completed ==> forall t :: t in relinked ==>
          && byTag + [t, destBase] in r.fs && r.fs[byTag + [t, destBase]] == Symlink(target)
          && (srcBase != destBase ==> byTag + [t, srcBase] !in r.fs))
  }

  lemma {:induction false} RelinkTagsEffect(fs: Fs, byTag: Path, tags: seq<Name>, srcBase: Name, destBase: Name, target: Target)
    requires srcBase != "" && destBase != "" && Distinct(tags)
    ensures Relinked(fs, byTag, tags, srcBase, destBase, target, RelinkTags(fs, byTag, tags, srcBase, destBase, target))
    decreases |tags|
  {
    if tags != [] {
      var t0 := tags[0];
      var rest := tags[1..];
      assert tags == [t0] + rest;
      assert Distinct(rest);
      var oldLink := byTag + [t0, srcBase];
      var newLink := byTag + [t0, destBase];
      assert Child(byTag + [t0], srcBase) == oldLink;
      assert Child(byTag + [t0], destBase) == newLink;
      RelinkTagsEffect(fs, byTag, rest, srcBase, destBase, target);
      if !Lexists(fs, oldLink) {
        assert (set t | t in tags && byTag + [t, srcBase] in fs) == set t | t in rest && byTag + [t, srcBase] in fs;
        assert UpdateNotes(fs, byTag, tags, srcBase, destBase, target) == [] + UpdateNotes(fs, byTag, rest, srcBase, destBase, target);
      } else {
        match Remove(fs, oldLink)
        case Err(_) =>
        case Ok(fs1) =>
          match MakeLink(fs1, target, newLink)
          case Err(_) =>
            RelinkAborted(fs, byTag, t0, rest, srcBase, destBase, target);
          case Ok(fs2) =>
            RelinkTagsEffect(fs2, byTag, rest, srcBase, destBase, target);
            RelinkStep(fs, fs2, byTag, t0, rest, srcBase, destBase, target,
                       RelinkTags(fs2, byTag, rest, srcBase, destBase, target));
      }
    }
  }

  /** The loop stops after removing the first tag's old link. */
  lemma RelinkAborted(fs: Fs, byTag: Path, t0: Name, rest: seq<Name>, srcBase: Name, destBase: Name, target: Target)
    requires byTag + [t0, srcBase] in fs
    ensures Relinked(fs, byTag, [t0] + rest, srcBase, destBase, target, Outcome(fs - {byTag + [t0, srcBase]}, [], false))
  {
    var relinked := set t | t in [t0] + rest && byTag + [t, srcBase] in fs;
    assert t0 in relinked;
    assert RelinkedPath(byTag, relinked, srcBase, destBase, byTag + [t0, srcBase]);
  }

  /** One completed round of the loop, followed by the rest of it. */
  lemma RelinkStep(fs: Fs, fs2: Fs, byTag: Path, t0: Name, rest: seq<Name>, srcBase: Name, destBase: Name, target: Target, rr: Outcome)
    requires srcBase != "" && destBase != "" && t0 !in rest
    requires byTag + [t0, srcBase] in fs
    requires fs2 == (fs - {byTag + [t0, srcBase]})[byTag + [t0, destBase] := Symlink(target)]
    requires Relinked(fs2, byTag, rest, srcBase, destBase, target, rr)
    ensures Relinked(fs, byTag, [t0] + rest, srcBase, destBase, target, Printed([Updated(byTag + [t0, destBase], target)], rr))
  {
    var oldLink := byTag + [t0, srcBase];
    var newLink := byTag + [t0, destBase];
    var r := Printed([Updated(newLink, target)], rr);
    var relinked := set t | t in [t0] + rest && byTag + [t, srcBase] in fs;
    var restRelinked := set t | t in rest && byTag + [t, srcBase] in fs2;
    forall t | t in rest
      ensures byTag + [t, srcBase] in fs2 <==> byTag + [t, srcBase] in fs
    {
      assert (byTag + [t, srcBase])[|byTag|] == t;
      assert oldLink[|byTag|] == t0 && newLink[|byTag|] == t0;
    }
    assert relinked == {t0} + restRelinked;
    if r.completed {
      UpdateNotesAgree(fs, fs2, byTag, rest, srcBase, destBase, target);
      assert ([t0] + rest)[1..] == rest;
    }
    forall p | !SameAt(fs, r.fs, p)
      ensures RelinkedPath(byTag, relinked, srcBase, destBase, p)
    {
      if p != oldLink && p != newLink {
        assert SameAt(fs, fs2, p);
        assert RelinkedPath(byTag, restRelinked, srcBase, destBase, p);
      } else {
        assert p[|byTag|] == t0;
      }
    }
    assert oldLink[|byTag|] == t0 && newLink[|byTag|] == t0;
    assert !RelinkedPath(byTag, restRelinked, srcBase, destBase, newLink);
    assert !RelinkedPath(byTag, restRelinked, srcBase, destBase, oldLink);
    if r.completed {
      forall t | t in relinked
        ensures byTag + [t, destBase] in r.fs && r.fs[byTag + [t, destBase]] == Symlink(target)
        ensures srcBase != destBase ==> byTag + [t, srcBase] !in r.fs
      {
        if t == t0 {
          assert SameAt(fs2, rr.fs, newLink);
          assert SameAt(fs2, rr.fs, oldLink);
          assert oldLink[|byTag| + 1] == srcBase && newLink[|byTag| + 1] == destBase;
        } else {
          assert t in restRelinked;
        }
      }
    }
  }

  /**
   * `rename` moves the file; then every tag that had a link under the old
   * base name gets, under the new one, a link that leads to the file's new
   * place. Other tags, and everything else, are left as the move left them.
   */
  lemma RenameRelinks(fs: Fs, root: Path, src: Path, dest: Path, order: set<Name> -> seq<Name>)
    requires Enumerates(order)
    requires BaseName(src) != "" && BaseName(dest) != ""
    requires Rename(fs, src, dest).Ok?
    ensures var fs1 := Rename(fs, src, dest).value;
            var byTag := ByTagDir(root);
            var r := RenameRun(fs, root, src, dest, order);
            var relinked := set t | t in Children(fs1, byTag) && byTag + [t, BaseName(src)] in fs1;
            && (r.completed ==> IsDir(fs1, byTag))
            && (r.completed ==> r.notes == UpdateNotes(fs1, byTag, order(Children(fs1, byTag)),
                                                       BaseName(src), BaseName(dest), RelativizeTarget(root, dest)))
            && (forall p :: SameAt(fs1, r.fs, p) || RelinkedPath(byTag, relinked, BaseName(src), BaseName(dest), p))
            && (r.completed ==> forall t :: t in relinked ==>
                  var link := byTag + [t, BaseName(dest)];
                  && link in r.fs && r.fs[link] == Symlink(RelativizeTarget(root, dest))
                  && Resolve(link, r.fs[link].target) == dest)
  {
    var fs1 := Rename(fs, src, dest).value;
    var byTag := ByTagDir(root);
    if IsDir(fs1, byTag) {
      var tags := order(Children(fs1, byTag));
      assert Distinct(tags);
      var target := RelativizeTarget(root, dest);
      RelinkTagsEffect(fs1, byTag, tags, BaseName(src), BaseName(dest), target);
      assert (set t | t in tags && byTag + [t, BaseName(src)] in fs1)
             == (set t | t in Children(fs1, byTag) && byTag + [t, BaseName(src)] in fs1);
      TagLinksLeadTo(root, Children(fs1, byTag), dest);
    }
  }

  /** A link to `RelativizeTarget(root, dest)` in any tag directory leads to `dest`. */
  lemma TagLinksLeadTo(root: Path, tags: set<Name>, dest: Path)
    ensures forall t :: t in tags ==>
              Resolve(ByTagDir(root) + [t, BaseName(dest)], RelativizeTarget(root, dest)) == dest
  {
    forall t | t in tags
      ensures Resolve(ByTagDir(root) + [t, BaseName(dest)], RelativizeTarget(root, dest)) == dest
    {
      RelativizeRoundTrip(root, t, BaseName(dest), dest);
      assert ByTagDir(root) + [t, BaseName(dest)] == root + [ByTag, t, BaseName(dest)];
    }
  }

  method RenameTagged(disk: Disk, root: Path, src: Path, dest: Path, order: set<Name> -> seq<Name>)
    returns (notes: seq<Note>, ok: bool)
    requires disk.Valid()
    modifies disk
    ensures disk.Valid()
    ensures RenameRun(old(disk.nodes), root, src, dest, order) == Outcome(disk.nodes, notes, ok)
  {
    var renamed := Rename(disk.nodes, src, dest);
    if renamed.Err? {
      return [], false;
    }
    RenamePreservesWellFormed(disk.nodes, src, dest);
    disk.nodes := renamed.value;
    var byTag := ByTagDir(root);
    if !IsDir(disk.nodes, byTag) {
      return [], false;
    }
    RelinkTagsPreservesWellFormed(disk.nodes, byTag, order(Children(disk.nodes, byTag)), BaseName(src), BaseName(dest), RelativizeTarget(root, dest));
    notes, ok := RelinkLoop(disk, byTag, order(Children(disk.nodes, byTag)), BaseName(src), BaseName(dest), RelativizeTarget(root, dest));
  }

  lemma {:induction false} RelinkTagsPreservesWellFormed(fs: Fs, byTag: Path, tags: seq<Name>, srcBase: Name, destBase: Name, target: Target)
    requires WellFormed(fs)
    ensures WellFormed(RelinkTags(fs, byTag, tags, srcBase, destBase, target).fs)
    decreases |tags|
  {
    if tags != [] {
      var oldLink := Child(byTag + [tags[0]], srcBase);
      if Lexists(fs, oldLink) && Remove(fs, oldLink).Ok? {
        var fs1 := Remove(fs, oldLink).value;
        RemovePreservesWellFormed(fs, oldLink);
        var newLink := Child(byTag + [tags[0]], destBase);
        if MakeLink(fs1, target, newLink).Ok? {
          MakeLinkPreservesWellFormed(fs1, target, newLink);
        }
      }
      var first := RelinkTag(fs, byTag, tags[0], srcBase, destBase, target);
      if first.completed {
        RelinkTagsPreservesWellFormed(first.fs, byTag, tags[1..], srcBase, destBase, target);
      }
    }
  }

  /** The loop of `rename` over the tags. */
  method RelinkLoop(disk: Disk, byTag: Path, tags: seq<Name>, srcBase: Name, destBase: Name, target: Target)
    returns (notes: seq<Note>, ok: bool)
    modifies disk
    ensures RelinkTags(old(disk.nodes), byTag, tags, srcBase, destBase, target) == Outcome(disk.nodes, notes, ok)
  {
    notes := [];
    var rest := tags;
    while rest != []
      invariant RelinkTags(old(disk.nodes), byTag, tags, srcBase, destBase, target)
                == Printed(notes, RelinkTags(disk.nodes, byTag, rest, srcBase, destBase, target))
      decreases |rest|
    {
      var updated, tagOk := RelinkOne(disk, byTag, rest[0], srcBase, destBase, target);
      if !tagOk {
        return notes + updated, false;
      }
      PrintedTwice(notes, updated, RelinkTags(disk.nodes, byTag, rest[1..], srcBase, destBase, target));
      notes := notes + updated;
      rest := rest[1..];
    }
    ok := true;
  }

  /** The body of `rename`'s loop. */
  method RelinkOne(disk: Disk, byTag: Path, tag: Name, srcBase: Name, destBase: Name, target: Target)
    returns (notes: seq<Note>, ok: bool)
    modifies disk
    ensures RelinkTag(old(disk.nodes), byTag, tag, srcBase, destBase, target) == Outcome(disk.nodes, notes, ok)
  {
    var oldLinkname := Child(byTag + [tag], srcBase);
    if !Lexists(disk.nodes, oldLinkname) {
      return [], true;
    }
    var removed := Remove(disk.nodes, oldLinkname);
    if removed.Err? {
      return [], false;
    }
    disk.nodes := removed.value;
    var newLinkname := Child(byTag + [tag], destBase);
    var linked := MakeLink(disk.nodes, target, newLinkname);
    if linked.Err? {
      return [], false;
    }
    disk.nodes := linked.value;
    return [Updated(newLinkname, target)], true;
  }

  // ------------------------------------------------------- collect

  /** One entry of `collect`: move the file its link names into `dest`, unless the name is taken there. */
  function MoveEntry(fs: Fs, tagdir: Path, basename: Name, dest: Path, verbose: bool): Outcome
  {
    var linkname := tagdir + [basename];
    match Readlink(fs, linkname)
    case Err(_) => Outcome(fs, [], false)
    case Ok(t) =>
      var filename := Resolve(linkname, t);
      var newFilename := dest + [basename];
      var shown := if verbose then [Moving(filename, newFilename)] else [];
      if !Exists(fs, newFilename) then
        match Rename(fs, filename, newFilename)
        case Err(_) => Outcome(fs, shown, false)
        case Ok(fs1) => Outcome(fs1, shown, true)
      else Outcome(fs, shown + [NotMoving(newFilename)], true)
  }

  /** The loop of `collect` over the entries `names` of `tagdir`. */
  function MoveEntries(fs: Fs, tagdir: Path, names: seq<Name>, dest: Path, verbose: bool): Outcome
    decreases |names|
  {
    if names == [] then Outcome(fs, [], true)
    else
      var first := MoveEntry(fs, tagdir, names[0], dest, verbose);
      if !first.completed then first
      else Printed(first.notes, MoveEntries(first.fs, tagdir, names[1..], dest, verbose))
  }

  /** What `collect` prints and the run of the repair that ends it. */
  datatype Collected = Collected(notes: seq<Note>, run: Run)

  /** `collect(tag, dest)`: move every file tagged `tag` into `dest`, then repair the links. */
  function CollectRun(fs: Fs, root: Path, tag: Name, dest: Path, verbose: bool, order: set<Name> -> seq<Name>): Collected
  {
    var tagdir := TagDir(root, tag);
    if !IsDir(fs, tagdir) then Collected([NoFilesTagged(tag)], Run(fs, [], true))
    else
      match AfterMkdirP(fs, dest)
      case Err(_) => Collected([], Run(fs, [], false))
      case Ok(fs1) =>
        var moved := MoveEntries(fs1, tagdir, order(Children(fs1, tagdir)), dest, verbose);
        if !moved.completed then Collected(moved.notes, Run(moved.fs, [], false))
        else Collected(moved.notes, LegacyRepairRun(moved.fs, root, Options(verbose, false, false), order))
  }

  /**
   * An entry's file is moved only when nothing exists under its name in
   * `dest`; it then lands there with its node, and the tree stays well formed.
   */
  lemma MoveEntryOnlyIntoFreeName(fs: Fs, tagdir: Path, basename: Name, dest: Path, verbose: bool)
    requires WellFormed(fs)
    ensures var r := MoveEntry(fs, tagdir, basename, dest, verbose);
            var linkname := tagdir + [basename];
            var newFilename := dest + [basename];
            && WellFormed(r.fs)
            && (r.completed || r.fs == fs)
            && (r.completed <==> IsLink(fs, linkname)
                                 && (Exists(fs, newFilename) || Rename(fs, Resolve(linkname, fs[linkname].target), newFilename).Ok?))
            && (IsLink(fs, linkname) && Exists(fs, newFilename) ==> r.fs == fs && NotMoving(newFilename) in r.notes)
            && (r.fs != fs ==>
                  && IsLink(fs, linkname) && !Exists(fs, newFilename)
                  && newFilename in r.fs && r.fs[newFilename] == fs[Resolve(linkname, fs[linkname].target)])
  {
    var linkname := tagdir + [basename];
    if IsLink(fs, linkname) {
      var filename := Resolve(linkname, fs[linkname].target);
      var newFilename := dest + [basename];
      if !Exists(fs, newFilename) && Rename(fs, filename, newFilename).Ok? {
        RenamePreservesWellFormed(fs, filename, newFilename);
        RenameMoves(fs, filename, newFilename);
      }
    }
  }

  lemma {:induction false} MoveEntriesPreservesWellFormed(fs: Fs, tagdir: Path, names: seq<Name>, dest: Path, verbose: bool)
    requires WellFormed(fs)
    ensures WellFormed(MoveEntries(fs, tagdir, names, dest, verbose).fs)
    decreases |names|
  {
    if names != [] {
      MoveEntryOnlyIntoFreeName(fs, tagdir, names[0], dest, verbose);
      var first := MoveEntry(fs, tagdir, names[0], dest, verbose);
      if first.completed {
        MoveEntriesPreservesWellFormed(first.fs, tagdir, names[1..], dest, verbose);
      }
    }
  }

  /**
   * Without the tag directory `collect` only warns; otherwise it makes
   * `dest`, moves the files and, if nothing failed, ends with main.py's
   * repair (without forcing or pruning) over the tree the moves left, which
   * changes nothing outside `by-tag`. The tree stays well formed throughout.
   */
  lemma CollectEffect(fs: Fs, root: Path, tag: Name, dest: Path, verbose: bool, order: set<Name> -> seq<Name>)
    requires WellFormed(fs)
    ensures var c := CollectRun(fs, root, tag, dest, verbose, order);
            && WellFormed(c.run.fs)
            && (!IsDir(fs, TagDir(root, tag)) ==> c == Collected([NoFilesTagged(tag)], Run(fs, [], true)))
            && (IsDir(fs, TagDir(root, tag)) ==> NoFilesTagged(tag) !in c.notes)
            && (IsDir(fs, TagDir(root, tag)) && c.run.completed ==>
                  && AfterMkdirP(fs, dest).Ok?
                  && var moved := MoveEntries(AfterMkdirP(fs, dest).value, TagDir(root, tag),
                                              order(Children(AfterMkdirP(fs, dest).value, TagDir(root, tag))), dest, verbose);
                     && c.run == LegacyRepairRun(moved.fs, root, Options(verbose, false, false), order)
                     && SameOutsideBelow(moved.fs, c.run.fs, ByTagDir(root)))
  {
    var tagdir := TagDir(root, tag);
    if IsDir(fs, tagdir) {
      MkdirPEffect(fs, dest);
      match AfterMkdirP(fs, dest)
      case Err(_) =>
      case Ok(fs1) =>
        var names := order(Children(fs1, tagdir));
        MoveEntriesPreservesWellFormed(fs1, tagdir, names, dest, verbose);
        var moved := MoveEntries(fs1, tagdir, names, dest, verbose);
        NotesOfMovesAreMoves(fs1, tagdir, names, dest, verbose);
        if moved.completed {
          LegacyRepairRunFrame(moved.fs, root, Options(verbose, false, false), order);
        }
    }
  }

  /**
   * Each note of the moves names the place in `dest` of one of the entries
   * `names`: a move line (printed only when verbose) or a not-moving
   * warning; at most two notes per entry.
   */
  ghost predicate MoveNotes(notes: seq<Note>, names: seq<Name>, dest: Path, verbose: bool)
  {
    && |notes| <= 2 * |names|
    && forall i :: 0 <= i < |notes| ==>
         && ((notes[i].Moving? && verbose) || notes[i].NotMoving?)
         && exists n :: n in names && notes[i].to == dest + [n]
  }

  /** The moves print only what they are about. */
  lemma {:induction false} NotesOfMovesAreMoves(fs: Fs, tagdir: Path, names: seq<Name>, dest: Path, verbose: bool)
    ensures MoveNotes(MoveEntries(fs, tagdir, names, dest, verbose).notes, names, dest, verbose)
    decreases |names|
  {
    if names != [] {
      var first := MoveEntry(fs, tagdir, names[0], dest, verbose);
      var own := first.notes;
      assert MoveNotes(own, [names[0]], dest, verbose) by {
        forall i | 0 <= i < |own|
          ensures own[i].to == dest + [names[0]]
        {
        }
      }
      if first.completed {
        var rest := MoveEntries(first.fs, tagdir, names[1..], dest, verbose).notes;
        NotesOfMovesAreMoves(first.fs, tagdir, names[1..], dest, verbose);
        MoveNotesJoin(own, rest, names, dest, verbose);
      } else {
        MoveNotesJoin(own, [], names, dest, verbose);
        assert own + [] == own;
      }
    }
  }

  /** The first entry's notes, then the others', are notes of all the entries. */
  lemma MoveNotesJoin(own: seq<Note>, rest: seq<Note>, names: seq<Name>, dest: Path, verbose: bool)
    requires names != []
    requires MoveNotes(own, [names[0]], dest, verbose)
    requires rest == [] || MoveNotes(rest, names[1..], dest, verbose)
    ensures MoveNotes(own + rest, names, dest, verbose)
  {
    var all := own + rest;
    forall i | 0 <= i < |all|
      ensures exists n :: n in names && all[i].to == dest + [n]
    {
      if i < |own| {
        assert all[i] == own[i];
        var n :| n in [names[0]] && own[i].to == dest + [n];
        assert n in names;
      } else {
        assert all[i] == rest[i - |own|];
        var n :| n in names[1..] && rest[i - |own|].to == dest + [n];
        assert n in names;
      }
    }
  }

  method MoveEntriesLoop(disk: Disk, tagdir: Path, names: seq<Name>, dest: Path, verbose: bool)
    returns (notes: seq<Note>, ok: bool)
    requires disk.Valid()
    modifies disk
    ensures disk.Valid()
    ensures MoveEntries(old(disk.nodes), tagdir, names, dest, verbose) == Outcome(disk.nodes, notes, ok)
  {
    notes := [];
    var i := 0;
    while i < |names|
      invariant 0 <= i <= |names| && disk.Valid()
      invariant MoveEntries(old(disk.nodes), tagdir, names, dest, verbose)
                == Printed(notes, MoveEntries(disk.nodes, tagdir, names[i..], dest, verbose))
    {
      assert names[i..][1..] == names[i + 1..];
      var moved, completed := MoveOne(disk, tagdir, names[i], dest, verbose);
      notes := notes + moved;
      if !completed {
        return notes, false;
      }
      i := i + 1;
    }
    ok := true;
  }

  method MoveOne(disk: Disk, tagdir: Path, basename: Name, dest: Path, verbose: bool)
    returns (notes: seq<Note>, ok: bool)
    requires disk.Valid()
    modifies disk
    ensures disk.Valid()
    ensures MoveEntry(old(disk.nodes), tagdir, basename, dest, verbose) == Outcome(disk.nodes, notes, ok)
  {
    MoveEntryOnlyIntoFreeName(disk.nodes, tagdir, basename, dest, verbose);
    notes := [];
    var linkname := tagdir + [basename];
    var target := Readlink(disk.nodes, linkname);
    if target.Err? {
      return [], false;
    }
    var filename := Resolve(linkname, target.value);
    var newFilename := dest + [basename];
    if verbose {
      notes := [Moving(filename, newFilename)];
    }
    if !Exists(disk.nodes, newFilename) {
      var renamed := Rename(disk.nodes, filename, newFilename);
      if renamed.Err? {
        return notes, false;
      }
      disk.nodes := renamed.value;
    } else {
      notes := notes + [NotMoving(newFilename)];
    }
    ok := true;
  }

  /** `collect`: the printed notes, the repair report, and whether it completed. */
  method Collect(disk: Disk, root: Path, tag: Name, dest: Path, verbose: bool, order: set<Name> -> seq<Name>)
    returns (notes: seq<Note>, report: seq<TagReport>, ok: bool)
    requires disk.Valid()
    modifies disk
    ensures disk.Valid()
    ensures CollectRun(old(disk.nodes), root, tag, dest, verbose, order) == Collected(notes, Run(disk.nodes, report, ok))
  {
    var tagdir := TagDir(root, tag);
    if !IsDir(disk.nodes, tagdir) {
      return [NoFilesTagged(tag)], [], true;
    }
    var made := MkdirP(disk, dest);
    if !made {
      return [], [], false;
    }
    notes, ok := MoveEntriesLoop(disk, tagdir, order(Children(disk.nodes, tagdir)), dest, verbose);
    if !ok {
      return notes, [], false;
    }
    report, ok := PerformLegacyRepair(disk, root, Options(verbose, false, false), order);
  }

  // ------------------------------------------------------- main

  /** The entries of the `COMMANDS` table. */
  datatype Command = TagCommand | UntagCommand | ShowTagsCommand | RepairCommand | RenameCommand | CollectCommand

  /** `COMMANDS.get(name, None)`. */
  function LookupCommand(name: string): (c: Option<Command>)
    ensures c.Some? <==> name in {"tag", "untag", "showtags", "repair", "rename", "collect"}
  {
    if name == "tag" then Some(TagCommand)
    else if name == "untag" then Some(UntagCommand)
    else if name == "showtags" then Some(ShowTagsCommand)
    else if name == "repair" then Some(RepairCommand)
    else if name == "rename" then Some(RenameCommand)
    else if name == "collect" then Some(CollectCommand)
    else None
  }

  /** How `main` ends: ValueError, help and exit status 1, or a command run on a media root. */
  datatype Dispatched = RootNotFound | UnknownCommand(root: Path) | Runs(root: Path, command: Command)

  /** `main(args)` from the working directory `cwd`: the media root is located before the lookup. */
  function MainDispatch(fs: Fs, cwd: Path, name: string): Dispatched
  {
    match MediaRootOf(fs, cwd)
    case None => RootNotFound
    case Some(root) =>
      match LookupCommand(name)
      case None => UnknownCommand(root)
      case Some(c) => Runs(root, c)
  }

  /**
   * Without a `by-tag` directory in the working directory or above, `main`
   * raises whatever the command; with one, an unknown command exits, and a
   * known one runs on the nearest such directory.
   */
  lemma MainLocatesRootFirst(fs: Fs, cwd: Path, name: string)
    ensures var d := MainDispatch(fs, cwd, name);
            && (d == RootNotFound <==> forall k :: 0 < k <= |cwd| ==> !IsDir(fs, cwd[..k] + [ByTag]))
            && (d.UnknownCommand? <==> d != RootNotFound && LookupCommand(name).None?)
            && (!d.RootNotFound? ==> d.root != [] && d.root <= cwd && IsDir(fs, d.root + [ByTag]))
  {
    match MediaRootOf(fs, cwd)
    case None =>
    case Some(root) =>
      assert cwd[..|root|] == root;
  }

  /** The two cases of main.py's tests, on a tree `/tmp/work` with and without `by-tag`. */
  lemma MainTestCases()
    ensures var cwd := ["tmp", "work"];
            var bare := map[[] := Dir, ["tmp"] := Dir, cwd := Dir];
            && MainDispatch(bare, cwd, "backup.json") == RootNotFound
            && MainDispatch(bare[cwd + [ByTag] := Dir], cwd, "backup.json") == UnknownCommand(cwd)
  {
    var cwd := ["tmp", "work"];
    var bare := map[[] := Dir, ["tmp"] := Dir, cwd := Dir];
    assert Parent(cwd) == ["tmp"];
    assert Parent(["tmp"]) == [];
    assert ["tmp"] + [ByTag] !in bare;
    assert cwd + [ByTag] !in bare;
  }
}
