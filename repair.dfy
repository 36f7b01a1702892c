/**
 * The tag-link repair engine: `perform_repair` of src/tagfarm/utils.py and
 * its older copy in src/tagfarm/main.py. For every tag directory and every
 * entry in it, the engine (1) renames a legacy `Link to X` entry to `X`,
 * (2) unless relinking is forced, leaves non-links and healthy relative
 * links alone, and (3) relinks the entry to the one file of the content
 * index with the entry's name, warning when there is none or several.
 */
module Repair {
  import opened Strings
  import opened FileSystem
  import opened Utils

  /** The prefix older tools gave to the links they made. */
  const LegacyPrefix: Name := "Link to "

  predicate HasLegacyPrefix(name: Name)
  {
    |LegacyPrefix| <= |name| && name[..|LegacyPrefix|] == LegacyPrefix
  }

  /** The switches of a repair run. */
  datatype Options = Options(verbose: bool, forceRelink: bool, prune: bool)

  /** Which copy of the engine: utils.py's, or main.py's older one. */
  datatype Version = Current | Older

  /** One line a repair run records for a tag (the text of the line is left out). */
  datatype Message =
    | NotRenaming(link: Path, shown: Shown, newLink: Path, newShown: Shown)
    | NotRenamingShort(link: Path, newLink: Path)
    | Renaming(link: Path, newLink: Path)
    | SkippingRegular(link: Path)
    | Kept(link: Path, target: Target)
    | Deleting(name: Name)
    | NoCandidates(name: Name)
    | MultipleCandidates(name: Name, candidates: set<Path>)
    | Fixed(link: Path, target: Target)

  /** The messages of one tag, printed under a `*** <tag>` header. */
  datatype TagReport = TagReport(tag: Name, messages: seq<Message>)

  /** What stays fixed during a run: the media root, the index built up front, the switches. */
  datatype Context = Context(root: Path, index: Index, opts: Options, version: Version)

  /** The outcome of some steps: the tree and the messages, or the tree at the exception. */
  datatype Step = Done(fs: Fs, messages: seq<Message>) | Aborted(fs: Fs)

  /** A whole run: the tree, the tag reports printed, and whether no exception ended it. */
  datatype Run = Run(fs: Fs, report: seq<TagReport>, completed: bool)

  /** Messages recorded before the steps of `s`. */
  function Then(messages: seq<Message>, s: Step): Step
  {
    match s
    case Done(fs, ms) => Done(fs, messages + ms)
    case Aborted(fs) => Aborted(fs)
  }

  /** Messages recorded in two batches are the messages of one batch. */
  lemma ThenTwice(first: seq<Message>, second: seq<Message>, s: Step)
    ensures Then(first, Then(second, s)) == Then(first + second, s)
  {
    if s.Done? {
      assert first + (second + s.messages) == (first + second) + s.messages;
    }
  }

  /** Reports printed before the rest of a run. */
  function Prepend(report: seq<TagReport>, run: Run): Run
  {
    Run(run.fs, report + run.report, run.completed)
  }

  // ------------------------------------------------------- one entry

  /** An entry after the legacy-prefix step: the tree, the name it now has, the messages. */
  datatype Stage = Stage(fs: Fs, link: Path, messages: seq<Message>)

  /** Step 1: rename `Link to X` to `X` unless `X` is already there. */
  function Normalise(fs: Fs, tagdir: Path, basename: Name, version: Version): Result<Stage>
  {
    var link := tagdir + [basename];
    if !HasLegacyPrefix(basename) then Ok(Stage(fs, link, []))
    else
      var newLink := Child(tagdir, basename[|LegacyPrefix|..]);
      if Lexists(fs, newLink) then
        match version
        case Older => Ok(Stage(fs, link, [NotRenamingShort(link, newLink)]))
        case Current =>
          match (ReadlinkOrBroken(fs, link), ReadlinkOrBroken(fs, newLink))
          case (Ok(shown), Ok(newShown)) => Ok(Stage(fs, link, [NotRenaming(link, shown, newLink, newShown)]))
          case _ => Err(OtherError)
      else
        match Rename(fs, link, newLink)
        case Ok(fs1) => Ok(Stage(fs1, newLink, [Renaming(link, newLink)]))
        case Err(e) => Err(e)
  }

  datatype Verdict = Proceed | Skip(messages: seq<Message>)

  /** Step 2: without `force_relink`, leave non-links and healthy relative links alone. */
  function Gate(fs: Fs, link: Path, opts: Options): Verdict
  {
    if opts.forceRelink then Proceed
    else if !IsLink(fs, link) then Skip([SkippingRegular(link)])
    else if !(IsBrokenLink(fs, link) || IsAbsoluteLink(fs, link) == Ok(true)) then
      Skip(if opts.verbose then [Kept(link, fs[link].target)] else [])
    else Proceed
  }

  /** `index.get(name, set())`. */
  function Candidates(index: Index, name: Name): set<Path>
  {
    if name in index then index[name] else {}
  }

  /** The one member of a singleton set. */
  function TheCandidate(s: set<Path>): (c: Path)
    requires |s| == 1
    ensures s == {c}
  {
    var c :| c in s;
    assert s == {c} by {
      assert |s - {c}| == 0;
    }
    c
  }

  /** Step 3: relink to the unique candidate for `basename`, or warn (and maybe delete). */
  function Resolution(fs: Fs, root: Path, link: Path, basename: Name, index: Index, prune: bool): Step
  {
    var candidates := Candidates(index, basename);
    if |candidates| == 0 then
      if prune then
        match Remove(fs, link)
        case Ok(fs1) => Done(fs1, [Deleting(basename)])
        case Err(_) => Aborted(fs)
      else Done(fs, [NoCandidates(basename)])
    else if |candidates| > 1 then Done(fs, [MultipleCandidates(basename, candidates)])
    else
      match Remove(fs, link)
      case Err(_) => Aborted(fs)
      case Ok(fs1) =>
        var target := RelativizeTarget(root, TheCandidate(candidates));
        match MakeLink(fs1, target, link)
        case Err(_) => Aborted(fs1)
        case Ok(fs2) => Done(fs2, [Fixed(link, target)])
  }

  /** The three steps for the entry `basename` of `tagdir`; the lookup uses the name as listed. */
  function EntryStep(fs: Fs, ctx: Context, tagdir: Path, basename: Name): Step
  {
    match Normalise(fs, tagdir, basename, ctx.version)
    case Err(_) => Aborted(fs)
    case Ok(st) =>
      match Gate(st.fs, st.link, ctx.opts)
      case Skip(ms) => Done(st.fs, st.messages + ms)
      case Proceed => Then(st.messages, Resolution(st.fs, ctx.root, st.link, basename, ctx.index, ctx.opts.prune))
  }

  /** The entries `names` of `tagdir`, in that order; an exception ends the run. */
  function EntriesStep(fs: Fs, ctx: Context, tagdir: Path, names: seq<Name>): Step
    decreases |names|
  {
    if names == [] then Done(fs, [])
    else
      match EntryStep(fs, ctx, tagdir, names[0])
      case Aborted(fs1) => Aborted(fs1)
      case Done(fs1, ms) => Then(ms, EntriesStep(fs1, ctx, tagdir, names[1..]))
  }

  /**
   * The tags `tags`, in that order; a tag that is not a directory is
   * skipped, and a tag is reported only when it recorded something.
   * `order` is how a directory listing is enumerated.
   */
  function TagsRun(fs: Fs, ctx: Context, tags: seq<Name>, order: set<Name> -> seq<Name>): Run
    decreases |tags|
  {
    if tags == [] then Run(fs, [], true)
    else
      var tagdir := ByTagDir(ctx.root) + [tags[0]];
      if !IsDir(fs, tagdir) then TagsRun(fs, ctx, tags[1..], order)
      else
        match EntriesStep(fs, ctx, tagdir, order(Children(fs, tagdir)))
        case Aborted(fs1) => Run(fs1, [], false)
        case Done(fs1, ms) =>
          var head := if ms == [] then [] else [TagReport(tags[0], ms)];
          Prepend(head, TagsRun(fs1, ctx, tags[1..], order))
  }

  /**
   * `perform_repair(media_root, verbose, force_relink, restrict_to_tag, prune)`
   * of utils.py: an empty `restrictToTag` is Python's falsy `None`.
   */
  function RepairRun(fs: Fs, root: Path, opts: Options, restrictToTag: Name): Run
  {
    var ctx := Context(root, ContentIndex(fs, root), opts, Current);
    if restrictToTag != "" then TagsRun(fs, ctx, [restrictToTag], SortedNames)
    else if !IsDir(fs, ByTagDir(root)) then Run(fs, [], false)
    else TagsRun(fs, ctx, SortedNames(Children(fs, ByTagDir(root))), SortedNames)
  }

  // ------------------------------------------------------- the engine as code

  /** The legacy-prefix step of the loop body; on an exception the tree is unchanged. */
  method NormaliseEntry(disk: Disk, tagdir: Path, basename: Name, version: Version)
    returns (linkname: Path, messages: seq<Message>, ok: bool)
    requires disk.Valid()
    modifies disk
    ensures disk.Valid()
    ensures var r := Normalise(old(disk.nodes), tagdir, basename, version);
            && ok == r.Ok?
            && (ok ==> r.value == Stage(disk.nodes, linkname, messages))
            && (!ok ==> disk.nodes == old(disk.nodes))
  {
    NormalisePreservesWellFormed(disk.nodes, tagdir, basename, version);
    messages := [];
    linkname := tagdir + [basename];
    if HasLegacyPrefix(basename) {
      var newLinkname := Child(tagdir, basename[|LegacyPrefix|..]);
      if Lexists(disk.nodes, newLinkname) {
        if version == Older {
          messages := messages + [NotRenamingShort(linkname, newLinkname)];
        } else {
          var shown := ReadlinkOrBroken(disk.nodes, linkname);
          var newShown := ReadlinkOrBroken(disk.nodes, newLinkname);
          if shown.Err? || newShown.Err? {
            return linkname, messages, false;
          }
          messages := messages + [NotRenaming(linkname, shown.value, newLinkname, newShown.value)];
        }
      } else {
        messages := messages + [Renaming(linkname, newLinkname)];
        var renamed := Rename(disk.nodes, linkname, newLinkname);
        if renamed.Err? {
          return linkname, messages, false;
        }
        disk.nodes := renamed.value;
        linkname := newLinkname;
      }
    }
    ok := true;
  }

  /** The candidate step of the loop body. */
  method ResolveEntry(disk: Disk, root: Path, linkname: Path, basename: Name, index: Index, prune: bool)
    returns (messages: seq<Message>, ok: bool)
    requires disk.Valid()
    modifies disk
    ensures disk.Valid()
    ensures Resolution(old(disk.nodes), root, linkname, basename, index, prune)
            == if ok then Done(disk.nodes, messages) else Aborted(disk.nodes)
  {
    ResolutionPreservesWellFormed(disk.nodes, root, linkname, basename, index, prune);
    messages := [];
    var candidates := Candidates(index, basename);
    if |candidates| == 0 {
      if prune {
        messages := messages + [Deleting(basename)];
        var removed := Remove(disk.nodes, linkname);
        if removed.Err? {
          return messages, false;
        }
        disk.nodes := removed.value;
      } else {
        messages := messages + [NoCandidates(basename)];
      }
    } else if |candidates| > 1 {
      messages := messages + [MultipleCandidates(basename, candidates)];
    } else {
      var removed := Remove(disk.nodes, linkname);
      if removed.Err? {
        return messages, false;
      }
      disk.nodes := removed.value;
      var filename :| filename in candidates;
      var srcname := RelativizeTarget(root, filename);
      var linked := MakeLink(disk.nodes, srcname, linkname);
      if linked.Err? {
        return messages, false;
      }
      disk.nodes := linked.value;
      messages := messages + [Fixed(linkname, srcname)];
    }
    ok := true;
  }

  /** The body of the inner loop of `perform_repair`, for the entry `basename`. */
  method RepairEntry(disk: Disk, ctx: Context, tagdir: Path, basename: Name) returns (messages: seq<Message>, ok: bool)
    requires disk.Valid()
    modifies disk
    ensures disk.Valid()
    ensures EntryStep(old(disk.nodes), ctx, tagdir, basename)
            == if ok then Done(disk.nodes, messages) else Aborted(disk.nodes)
  {
    var linkname;
    linkname, messages, ok := NormaliseEntry(disk, tagdir, basename, ctx.version);
    if !ok {
      return;
    }
    if !ctx.opts.forceRelink {
      if !IsLink(disk.nodes, linkname) {
        messages := messages + [SkippingRegular(linkname)];
        return messages, true;
      }
      if !(IsBrokenLink(disk.nodes, linkname) || IsAbsoluteLink(disk.nodes, linkname) == Ok(true)) {
        if ctx.opts.verbose {
          messages := messages + [Kept(linkname, disk.nodes[linkname].target)];
        }
        return messages, true;
      }
    }
    var resolved;
    resolved, ok := ResolveEntry(disk, ctx.root, linkname, basename, ctx.index, ctx.opts.prune);
    messages := messages + resolved;
  }

  method RepairTagDir(disk: Disk, ctx: Context, tagdir: Path, names: seq<Name>) returns (messages: seq<Message>, ok: bool)
    requires disk.Valid()
    modifies disk
    ensures disk.Valid()
    ensures EntriesStep(old(disk.nodes), ctx, tagdir, names)
            == if ok then Done(disk.nodes, messages) else Aborted(disk.nodes)
  {
    messages := [];
    var rest := names;
    while rest != []
      invariant disk.Valid()
      invariant EntriesStep(old(disk.nodes), ctx, tagdir, names)
                == Then(messages, EntriesStep(disk.nodes, ctx, tagdir, rest))
      decreases |rest|
    {
      var entryMessages, entryOk := RepairEntry(disk, ctx, tagdir, rest[0]);
      if !entryOk {
        return messages, false;
      }
      ThenTwice(messages, entryMessages, EntriesStep(disk.nodes, ctx, tagdir, rest[1..]));
      messages := messages + entryMessages;
      rest := rest[1..];
    }
    ok := true;
  }

  method RepairTags(disk: Disk, ctx: Context, tags: seq<Name>, order: set<Name> -> seq<Name>)
    returns (report: seq<TagReport>, ok: bool)
    requires disk.Valid()
    modifies disk
    ensures disk.Valid()
    ensures TagsRun(old(disk.nodes), ctx, tags, order) == Run(disk.nodes, report, ok)
  {
    report := [];
    var i := 0;
    while i < |tags|
      invariant 0 <= i <= |tags| && disk.Valid()
      invariant TagsRun(old(disk.nodes), ctx, tags, order) == Prepend(report, TagsRun(disk.nodes, ctx, tags[i..], order))
    {
      assert tags[i..][1..] == tags[i + 1..];
      var head, tagOk := RepairTag(disk, ctx, tags[i..], order);
      if !tagOk {
        return report, false;
      }
      report := report + head;
      i := i + 1;
    }
    ok := true;
  }

  /** The body of the tag loop, for the first of `tags`. */
  method RepairTag(disk: Disk, ctx: Context, tags: seq<Name>, order: set<Name> -> seq<Name>)
    returns (head: seq<TagReport>, ok: bool)
    requires disk.Valid() && tags != []
    modifies disk
    ensures disk.Valid()
    ensures ok ==> TagsRun(old(disk.nodes), ctx, tags, order) == Prepend(head, TagsRun(disk.nodes, ctx, tags[1..], order))
    ensures !ok ==> TagsRun(old(disk.nodes), ctx, tags, order) == Run(disk.nodes, [], false)
  {
    var tag := tags[0];
    var tagdir := ByTagDir(ctx.root) + [tag];
    if !IsDir(disk.nodes, tagdir) {
      return [], true;
    }
    var messages;
    messages, ok := RepairTagDir(disk, ctx, tagdir, order(Children(disk.nodes, tagdir)));
    head := if messages == [] then [] else [TagReport(tag, messages)];
  }

  /** `perform_repair` of utils.py. */
  method PerformRepair(disk: Disk, root: Path, opts: Options, restrictToTag: Name) returns (report: seq<TagReport>, ok: bool)
    requires disk.Valid()
    modifies disk
    ensures disk.Valid()
    ensures RepairRun(old(disk.nodes), root, opts, restrictToTag) == Run(disk.nodes, report, ok)
  {
    var index := IndexFiles(disk.nodes, root);
    var ctx := Context(root, index, opts, Current);
    var tags: seq<Name>;
    if restrictToTag != "" {
      tags := [restrictToTag];
    } else {
      if !IsDir(disk.nodes, ByTagDir(root)) {
        return [], false;
      }
      tags := SortedNames(Children(disk.nodes, ByTagDir(root)));
    }
    report, ok := RepairTags(disk, ctx, tags, SortedNames);
  }

  // ------------------------------------------------------- well-formedness

  lemma NormalisePreservesWellFormed(fs: Fs, tagdir: Path, basename: Name, version: Version)
    requires WellFormed(fs)
    ensures Normalise(fs, tagdir, basename, version).Ok? ==> WellFormed(Normalise(fs, tagdir, basename, version).value.fs)
  {
    var link := tagdir + [basename];
    if HasLegacyPrefix(basename) {
      var newLink := Child(tagdir, basename[|LegacyPrefix|..]);
      if !Lexists(fs, newLink) && Rename(fs, link, newLink).Ok? {
        RenamePreservesWellFormed(fs, link, newLink);
      }
    }
  }

  lemma ResolutionPreservesWellFormed(fs: Fs, root: Path, link: Path, basename: Name, index: Index, prune: bool)
    requires WellFormed(fs)
    ensures WellFormed(Resolution(fs, root, link, basename, index, prune).fs)
  {
    var candidates := Candidates(index, basename);
    match Remove(fs, link)
    case Err(_) =>
    case Ok(fs1) =>
      RemovePreservesWellFormed(fs, link);
      if |candidates| == 1 {
        var target := RelativizeTarget(root, TheCandidate(candidates));
        if MakeLink(fs1, target, link).Ok? {
          MakeLinkPreservesWellFormed(fs1, target, link);
        }
      }
  }

  lemma EntryStepPreservesWellFormed(fs: Fs, ctx: Context, tagdir: Path, basename: Name)
    requires WellFormed(fs)
    ensures WellFormed(EntryStep(fs, ctx, tagdir, basename).fs)
  {
    NormalisePreservesWellFormed(fs, tagdir, basename, ctx.version);
    match Normalise(fs, tagdir, basename, ctx.version)
    case Err(_) =>
    case Ok(st) =>
      ResolutionPreservesWellFormed(st.fs, ctx.root, st.link, basename, ctx.index, ctx.opts.prune);
  }

  // ------------------------------------------------------- what one entry does

  /**
   * Without `force_relink`, an entry that (after the legacy step) is not a
   * link is skipped with a warning, a link that is neither broken nor
   * absolute is kept (reported only when verbose), and nothing else is
   * ever modified.
   */
  lemma GateLeavesAlone(fs: Fs, ctx: Context, tagdir: Path, basename: Name)
    requires !ctx.opts.forceRelink
    requires Normalise(fs, tagdir, basename, ctx.version).Ok?
    ensures var st := Normalise(fs, tagdir, basename, ctx.version).value;
            var r := EntryStep(fs, ctx, tagdir, basename);
            && (!IsLink(st.fs, st.link) ==> r == Done(st.fs, st.messages + [SkippingRegular(st.link)]))
            && (IsLink(st.fs, st.link) && !IsBrokenLink(st.fs, st.link) && st.fs[st.link].target.Relative? ==>
                  r == Done(st.fs, st.messages + if ctx.opts.verbose then [Kept(st.link, st.fs[st.link].target)] else []))
            && (r.fs != st.fs ==> IsBrokenLink(st.fs, st.link) || (IsLink(st.fs, st.link) && st.fs[st.link].target.Absolute?))
  {
  }

  /** An entry whose name has several candidates is never changed beyond the legacy step. */
  lemma AmbiguousLeftAlone(fs: Fs, ctx: Context, tagdir: Path, basename: Name)
    requires Normalise(fs, tagdir, basename, ctx.version).Ok?
    requires |Candidates(ctx.index, basename)| > 1
    ensures var st := Normalise(fs, tagdir, basename, ctx.version).value;
            var r := EntryStep(fs, ctx, tagdir, basename);
            && r.Done? && r.fs == st.fs
            && (Gate(st.fs, st.link, ctx.opts) == Proceed ==>
                  r.messages == st.messages + [MultipleCandidates(basename, Candidates(ctx.index, basename))])
  {
  }

  /** With no candidate the entry is deleted exactly when pruning, and is otherwise only reported. */
  lemma NoCandidateDeletedIffPrune(fs: Fs, ctx: Context, tagdir: Path, basename: Name)
    requires Normalise(fs, tagdir, basename, ctx.version).Ok?
    requires Candidates(ctx.index, basename) == {}
    requires var st := Normalise(fs, tagdir, basename, ctx.version).value;
             Gate(st.fs, st.link, ctx.opts) == Proceed && st.link in st.fs && !st.fs[st.link].Dir?
    ensures var st := Normalise(fs, tagdir, basename, ctx.version).value;
            var r := EntryStep(fs, ctx, tagdir, basename);
            && r.Done?
            && (st.link in r.fs <==> !ctx.opts.prune)
            && r.fs == (if ctx.opts.prune then st.fs - {st.link} else st.fs)
            && r.messages == st.messages + [if ctx.opts.prune then Deleting(basename) else NoCandidates(basename)]
  {
  }

  /**
   * With exactly one candidate `c` an entry that reaches the lookup (and is
   * not a directory) becomes a link to `relativize_target(root, c)`, with a
   * FIXED message; nothing else changes.
   */
  lemma UniqueCandidateRelinked(fs: Fs, ctx: Context, tagdir: Path, basename: Name, c: Path)
    requires WellFormed(fs)
    requires Normalise(fs, tagdir, basename, ctx.version).Ok?
    requires Candidates(ctx.index, basename) == {c}
    requires var st := Normalise(fs, tagdir, basename, ctx.version).value;
             Gate(st.fs, st.link, ctx.opts) == Proceed && st.link in st.fs && !st.fs[st.link].Dir?
    ensures var st := Normalise(fs, tagdir, basename, ctx.version).value;
            var target := RelativizeTarget(ctx.root, c);
            EntryStep(fs, ctx, tagdir, basename)
              == Done(st.fs[st.link := Symlink(target)], st.messages + [Fixed(st.link, target)])
  {
    NormalisePreservesWellFormed(fs, tagdir, basename, ctx.version);
    var st := Normalise(fs, tagdir, basename, ctx.version).value;
    var target := RelativizeTarget(ctx.root, c);
    var fs1 := st.fs - {st.link};
    assert IsDir(fs1, Parent(st.link));
    assert fs1[st.link := Symlink(target)] == st.fs[st.link := Symlink(target)];
  }

  /**
   * Only `force_relink` lets a directory through the gate; pruning it, or
   * relinking it to its one candidate, then fails in `os.remove` and ends
   * the run with the tree as the legacy step left it.
   */
  lemma DirectoryEntryAborts(fs: Fs, ctx: Context, tagdir: Path, basename: Name)
    requires Normalise(fs, tagdir, basename, ctx.version).Ok?
    requires var st := Normalise(fs, tagdir, basename, ctx.version).value;
             Gate(st.fs, st.link, ctx.opts) == Proceed && st.link in st.fs && st.fs[st.link].Dir?
    requires |Candidates(ctx.index, basename)| == 1 || (Candidates(ctx.index, basename) == {} && ctx.opts.prune)
    ensures ctx.opts.forceRelink
    ensures EntryStep(fs, ctx, tagdir, basename) == Aborted(Normalise(fs, tagdir, basename, ctx.version).value.fs)
  {
  }

  /**
   * A link FIXED in `by-tag/<tag>/` leads to its candidate, and when the
   * candidate is there a later pass without `force_relink` keeps it.
   */
  lemma FixedLinkIsHealthy(fs: Fs, root: Path, tag: Name, name: Name, c: Path, opts: Options)
    requires !opts.forceRelink
    requires c in fs && c != root + [ByTag, tag, name]
    ensures var link := root + [ByTag, tag, name];
            var fs' := fs[link := Symlink(RelativizeTarget(root, c))];
            && Resolve(link, fs'[link].target) == c
            && !IsBrokenLink(fs', link)
            && Gate(fs', link, opts) == Skip(if opts.verbose then [Kept(link, RelativizeTarget(root, c))] else [])
  {
    RelativizeRoundTrip(root, tag, name, c);
  }

  /**
   * A `Link to X` entry is renamed to `X` exactly when nothing named `X`
   * exists in its tag directory; the link keeps its node. On a collision
   * both entries stay as they are and a warning is recorded (utils.py's
   * warning reads both links, so it fails unless both are links).
   */
  lemma LegacyRenamedUnlessTaken(fs: Fs, tagdir: Path, basename: Name, version: Version)
    requires WellFormed(fs) && HasLegacyPrefix(basename) && tagdir + [basename] in fs
    ensures var link := tagdir + [basename];
            var newLink := Child(tagdir, basename[|LegacyPrefix|..]);
            var r := Normalise(fs, tagdir, basename, version);
            && (!Lexists(fs, newLink) ==>
                  && r.Ok? && r.value.link == newLink && r.value.messages == [Renaming(link, newLink)]
                  && newLink in r.value.fs && r.value.fs[newLink] == fs[link] && link !in r.value.fs)
            && (Lexists(fs, newLink) ==>
                  && (r.Ok? ==> r.value.fs == fs && r.value.link == link && |r.value.messages| == 1)
                  && (version == Older ==> r == Ok(Stage(fs, link, [NotRenamingShort(link, newLink)])))
                  && (version == Current ==> (r.Ok? <==> IsLink(fs, link) && IsLink(fs, newLink)))
                  && (version == Current && IsLink(fs, link) && IsLink(fs, newLink) ==>
                        r == Ok(Stage(fs, link, [NotRenaming(link, ReadlinkOrBroken(fs, link).value,
                                                             newLink, ReadlinkOrBroken(fs, newLink).value)]))))
  {
    var link := tagdir + [basename];
    var newName := basename[|LegacyPrefix|..];
    var newLink := Child(tagdir, newName);
    assert Parent(link) == tagdir;
    if !Lexists(fs, newLink) {
      assert newName != "";
      assert newLink == tagdir + [newName];
      assert link != newLink by {
        assert |basename| != |newName|;
      }
      assert Parent(newLink) == tagdir;
      RenameMoves(fs, link, newLink);
    }
  }

  /**
   * The lookup uses the name as listed, so after `Link to X` is renamed
   * to `X` the candidates for `X` play no part: whatever the index holds
   * under `X`, the entry is handled the same.
   */
  lemma LookupIgnoresRenamedName(fs: Fs, ctx: Context, tagdir: Path, basename: Name, files: set<Path>)
    requires HasLegacyPrefix(basename)
    ensures var renamed := basename[|LegacyPrefix|..];
            EntryStep(fs, ctx.(index := ctx.index[renamed := files]), tagdir, basename)
              == EntryStep(fs, ctx, tagdir, basename)
  {
    var renamed := basename[|LegacyPrefix|..];
    assert |renamed| != |basename|;
    assert Candidates(ctx.index[renamed := files], basename) == Candidates(ctx.index, basename);
  }

  /**
   * So a pruning pass renames an absolute `Link to X` to `X` and then
   * deletes it when the index has nothing under `Link to X`, even though
   * it holds exactly one file named `X`.
   */
  lemma RenamedLinkPrunedDespiteCandidate(fs: Fs, ctx: Context, tagdir: Path, basename: Name, target: Path)
    requires WellFormed(fs) && HasLegacyPrefix(basename) && basename != LegacyPrefix
    requires tagdir + [basename] in fs && fs[tagdir + [basename]] == Symlink(Absolute(target))
    requires !Lexists(fs, tagdir + [basename[|LegacyPrefix|..]])
    requires ctx.opts.prune && Candidates(ctx.index, basename) == {}
    requires |Candidates(ctx.index, basename[|LegacyPrefix|..])| == 1
    ensures var link := tagdir + [basename];
            var newLink := tagdir + [basename[|LegacyPrefix|..]];
            var r := EntryStep(fs, ctx, tagdir, basename);
            && r.Done?
            && link !in r.fs && newLink !in r.fs
            && r.messages == [Renaming(link, newLink), Deleting(basename)]
  {
    var newName := basename[|LegacyPrefix|..];
    assert newName != "" by {
      assert |basename| > |LegacyPrefix|;
    }
    var newLink := tagdir + [newName];
    var link := tagdir + [basename];
    assert Child(tagdir, newName) == newLink;
    assert link != newLink by {
      assert |basename| != |newName|;
    }
    assert Parent(link) == tagdir && Parent(newLink) == tagdir;
    RenameMoves(fs, link, newLink);
    var st := Normalise(fs, tagdir, basename, ctx.version).value;
    assert st.link == newLink && st.messages == [Renaming(link, newLink)];
    assert st.fs[newLink] == Symlink(Absolute(target));
    assert IsAbsoluteLink(st.fs, newLink) == Ok(true);
    assert Gate(st.fs, newLink, ctx.opts) == Proceed;
    assert Resolution(st.fs, ctx.root, newLink, basename, ctx.index, true) == Done(st.fs - {newLink}, [Deleting(basename)]);
  }

  // ------------------------------------------------------- what a run changes

  lemma NormaliseFrame(fs: Fs, tagdir: Path, basename: Name, version: Version)
    requires WellFormed(fs)
    ensures var r := Normalise(fs, tagdir, basename, version);
            r.Ok? ==> SameOutsideBelow(fs, r.value.fs, tagdir) && tagdir < r.value.link
  {
    var link := tagdir + [basename];
    if HasLegacyPrefix(basename) {
      var newLink := Child(tagdir, basename[|LegacyPrefix|..]);
      if !Lexists(fs, newLink) && Rename(fs, link, newLink).Ok? {
        assert Parent(link) == tagdir;
        assert newLink != tagdir;
        RenameFrame(fs, link, newLink);
      }
    }
  }

  /** The candidate step changes the entry itself and nothing else. */
  lemma ResolutionFrame(fs: Fs, root: Path, link: Path, basename: Name, index: Index, prune: bool)
    ensures var r := Resolution(fs, root, link, basename, index, prune);
            forall p :: p != link ==> (p in fs <==> p in r.fs) && (p in fs ==> fs[p] == r.fs[p])
  {
  }

  /** Handling an entry of `tagdir` changes nothing but entries strictly below `tagdir`. */
  lemma EntryStepFrame(fs: Fs, ctx: Context, tagdir: Path, basename: Name)
    requires WellFormed(fs)
    ensures SameOutsideBelow(fs, EntryStep(fs, ctx, tagdir, basename).fs, tagdir)
  {
    NormaliseFrame(fs, tagdir, basename, ctx.version);
    match Normalise(fs, tagdir, basename, ctx.version)
    case Err(_) =>
    case Ok(st) =>
      ResolutionFrame(st.fs, ctx.root, st.link, basename, ctx.index, ctx.opts.prune);
  }

  lemma SameOutsideBelowTransitive(fs1: Fs, fs2: Fs, fs3: Fs, d: Path)
    requires SameOutsideBelow(fs1, fs2, d) && SameOutsideBelow(fs2, fs3, d)
    ensures SameOutsideBelow(fs1, fs3, d)
  {
  }

  lemma {:induction false} EntriesStepFrame(fs: Fs, ctx: Context, tagdir: Path, names: seq<Name>)
    requires WellFormed(fs)
    ensures var r := EntriesStep(fs, ctx, tagdir, names);
            WellFormed(r.fs) && SameOutsideBelow(fs, r.fs, tagdir)
    decreases |names|
  {
    if names != [] {
      EntryStepFrame(fs, ctx, tagdir, names[0]);
      EntryStepPreservesWellFormed(fs, ctx, tagdir, names[0]);
      match EntryStep(fs, ctx, tagdir, names[0])
      case Aborted(_) =>
      case Done(fs1, _) =>
        EntriesStepFrame(fs1, ctx, tagdir, names[1..]);
        SameOutsideBelowTransitive(fs, fs1, EntriesStep(fs1, ctx, tagdir, names[1..]).fs, tagdir);
    }
  }

  /** `fs` and `fs'` agree everywhere except strictly below `byTag/<t>` for the tags `t` of `tags`. */
  ghost predicate SameOutsideTags(fs: Fs, fs': Fs, byTag: Path, tags: seq<Name>)
  {
    forall p :: (forall t :: t in tags ==> !(byTag + [t] < p)) ==>
      (p in fs <==> p in fs') && (p in fs ==> fs[p] == fs'[p])
  }

  /**
   * A run keeps the tree well formed and changes nothing outside
   * `by-tag/<tag>/` for the tags it visits: files outside `by-tag`, the
   * tag directories themselves and stray entries of `by-tag` stay.
   */
  lemma {:induction false} TagsRunFrame(fs: Fs, ctx: Context, tags: seq<Name>, order: set<Name> -> seq<Name>)
    requires WellFormed(fs)
    ensures var run := TagsRun(fs, ctx, tags, order);
            && WellFormed(run.fs)
            && SameOutsideBelow(fs, run.fs, ByTagDir(ctx.root))
            && SameOutsideTags(fs, run.fs, ByTagDir(ctx.root), tags)
    decreases |tags|
  {
    if tags != [] {
      var byTag := ByTagDir(ctx.root);
      var tagdir := byTag + [tags[0]];
      if !IsDir(fs, tagdir) {
        TagsRunFrame(fs, ctx, tags[1..], order);
      } else {
        var names := order(Children(fs, tagdir));
        EntriesStepFrame(fs, ctx, tagdir, names);
        var fs1 := EntriesStep(fs, ctx, tagdir, names).fs;
        assert SameOutsideBelow(fs, fs1, byTag) by {
          forall p | !(byTag < p)
            ensures (p in fs <==> p in fs1) && (p in fs ==> fs[p] == fs1[p])
          {
            assert !(tagdir < p);
          }
        }
        if EntriesStep(fs, ctx, tagdir, names).Done? {
          TagsRunFrame(fs1, ctx, tags[1..], order);
          var fs2 := TagsRun(fs1, ctx, tags[1..], order).fs;
          SameOutsideBelowTransitive(fs, fs1, fs2, byTag);
          TagsFrameStep(fs, fs1, fs2, byTag, tags);
        } else {
          TagsFrameStep(fs, fs1, fs1, byTag, tags);
        }
      }
    }
  }

  /** One visited tag's changes, then the other tags' changes, stay below the visited tags. */
  lemma TagsFrameStep(fs: Fs, fs1: Fs, fs2: Fs, byTag: Path, tags: seq<Name>)
    requires tags != []
    requires SameOutsideBelow(fs, fs1, byTag + [tags[0]])
    requires SameOutsideTags(fs1, fs2, byTag, tags[1..]) || fs2 == fs1
    ensures SameOutsideTags(fs, fs2, byTag, tags)
  {
    forall p | forall t :: t in tags ==> !(byTag + [t] < p)
      ensures (p in fs <==> p in fs2) && (p in fs ==> fs[p] == fs2[p])
    {
      assert !(byTag + [tags[0]] < p);
      assert forall t :: t in tags[1..] ==> t in tags;
    }
  }

  /** The content index only sees the tree outside `by-tag`, so it does not change under a run. */
  lemma IndexUnchangedOutsideByTag(fs: Fs, fs': Fs, root: Path)
    requires SameOutsideBelow(fs, fs', ByTagDir(root))
    ensures ContentIndex(fs', root) == ContentIndex(fs, root)
  {
    forall p
      ensures Indexed(fs, root, p) <==> Indexed(fs', root, p)
    {
      if !(ByTagDir(root) < p) {
        assert (p in fs <==> p in fs') && (p in fs ==> fs[p] == fs'[p]);
      }
    }
    var index := ContentIndex(fs, root);
    assert Describes(index, fs', root, fs'.Keys);
    DescribesUnique(index, ContentIndex(fs', root), fs', root, fs'.Keys);
  }

  /**
   * `perform_repair` keeps the tree well formed, changes nothing outside
   * `by-tag` (and nothing outside `by-tag/<tag>` when restricted to a tag),
   * and leaves the content index it was built from valid.
   */
  lemma RepairRunFrame(fs: Fs, root: Path, opts: Options, restrictToTag: Name)
    requires WellFormed(fs)
    ensures var run := RepairRun(fs, root, opts, restrictToTag);
            && WellFormed(run.fs)
            && SameOutsideBelow(fs, run.fs, ByTagDir(root))
            && (restrictToTag != "" ==> SameOutsideBelow(fs, run.fs, ByTagDir(root) + [restrictToTag]))
            && (restrictToTag == "" && IsDir(fs, ByTagDir(root)) ==>
                  SameOutsideTags(fs, run.fs, ByTagDir(root), SortedNames(Children(fs, ByTagDir(root)))))
            && ContentIndex(run.fs, root) == ContentIndex(fs, root)
  {
    var ctx := Context(root, ContentIndex(fs, root), opts, Current);
    if restrictToTag != "" {
      TagsRunFrame(fs, ctx, [restrictToTag], SortedNames);
      var tagdir := ByTagDir(root) + [restrictToTag];
      forall p | !(tagdir < p)
        ensures var fs' := RepairRun(fs, root, opts, restrictToTag).fs;
                (p in fs <==> p in fs') && (p in fs ==> fs[p] == fs'[p])
      {
        assert forall t :: t in [restrictToTag] ==> t == restrictToTag;
      }
    } else if IsDir(fs, ByTagDir(root)) {
      TagsRunFrame(fs, ctx, SortedNames(Children(fs, ByTagDir(root))), SortedNames);
    }
    IndexUnchangedOutsideByTag(fs, RepairRun(fs, root, opts, restrictToTag).fs, root);
  }

  // ------------------------------------------------------- what a run reports

  /** Every report recorded something, and names one of `tags`. */
  ghost predicate ReportsNonEmpty(report: seq<TagReport>, tags: seq<Name>)
  {
    forall i :: 0 <= i < |report| ==> report[i].messages != [] && report[i].tag in tags
  }

  /** The reported tags are strictly increasing. */
  ghost predicate ReportSorted(report: seq<TagReport>)
  {
    forall i, j :: 0 <= i < j < |report| ==> Below(report[i].tag, report[j].tag)
  }

  /**
   * Every reported tag recorded at least one message and is one of the
   * tags visited; when those are sorted, so is the report.
   */
  lemma {:induction false} TagsRunReport(fs: Fs, ctx: Context, tags: seq<Name>, order: set<Name> -> seq<Name>)
    ensures ReportsNonEmpty(TagsRun(fs, ctx, tags, order).report, tags)
    ensures StrictlySorted(tags) ==> ReportSorted(TagsRun(fs, ctx, tags, order).report)
    decreases |tags|
  {
    if tags != [] {
      var tagdir := ByTagDir(ctx.root) + [tags[0]];
      if StrictlySorted(tags) {
        SortedTail(tags);
      }
      if !IsDir(fs, tagdir) {
        TagsRunReport(fs, ctx, tags[1..], order);
        assert TagsRun(fs, ctx, tags, order) == TagsRun(fs, ctx, tags[1..], order);
        WiderReport(TagsRun(fs, ctx, tags[1..], order).report, tags);
      } else {
        match EntriesStep(fs, ctx, tagdir, order(Children(fs, tagdir)))
        case Aborted(_) =>
        case Done(fs1, ms) =>
          TagsRunReport(fs1, ctx, tags[1..], order);
          var rest := TagsRun(fs1, ctx, tags[1..], order).report;
          assert TagsRun(fs, ctx, tags, order).report
              == (if ms == [] then [] else [TagReport(tags[0], ms)]) + rest;
          if ms == [] {
            WiderReport(rest, tags);
          } else {
            ReportPrepend(TagReport(tags[0], ms), rest, tags);
          }
      }
    }
  }

  /** The tail of a strictly sorted list is sorted and above its head. */
  lemma SortedTail(tags: seq<Name>)
    requires tags != [] && StrictlySorted(tags)
    ensures StrictlySorted(tags[1..])
    ensures forall t :: t in tags[1..] ==> Below(tags[0], t)
  {
    forall i, j | 0 <= i < j < |tags[1..]|
      ensures Below(tags[1..][i], tags[1..][j])
    {
      assert tags[1..][i] == tags[i + 1] && tags[1..][j] == tags[j + 1];
    }
    forall t | t in tags[1..]
      ensures Below(tags[0], t)
    {
      var k :| 0 <= k < |tags[1..]| && tags[1..][k] == t;
      assert tags[k + 1] == t;
    }
  }

  /** A report over the tail of `tags` is a report over `tags`. */
  lemma WiderReport(report: seq<TagReport>, tags: seq<Name>)
    requires tags != [] && ReportsNonEmpty(report, tags[1..])
    ensures ReportsNonEmpty(report, tags)
  {
    forall i | 0 <= i < |report|
      ensures report[i].tag in tags
    {
      assert report[i].tag in tags[1..];
    }
  }

  /** Putting the head tag's report before the tail's keeps both properties. */
  lemma ReportPrepend(head: TagReport, rest: seq<TagReport>, tags: seq<Name>)
    requires tags != [] && head.tag == tags[0] && head.messages != []
    requires ReportsNonEmpty(rest, tags[1..])
    ensures ReportsNonEmpty([head] + rest, tags)
    ensures (forall t :: t in tags[1..] ==> Below(tags[0], t)) && ReportSorted(rest)
            ==> ReportSorted([head] + rest)
  {
    WiderReport(rest, tags);
    var r := [head] + rest;
    assert forall i :: 0 < i < |r| ==> r[i] == rest[i - 1];
    if (forall t :: t in tags[1..] ==> Below(tags[0], t)) && ReportSorted(rest) {
      forall i, j | 0 <= i < j < |r|
        ensures Below(r[i].tag, r[j].tag)
      {
        assert r[j].tag in tags[1..];
      }
    }
  }

  /** `report` holds a report of `tag`. */
  ghost predicate TagReported(report: seq<TagReport>, tag: Name)
  {
    exists i :: 0 <= i < |report| && report[i].tag == tag
  }

  /**
   * The first tag is reported exactly when its directory exists, all its
   * entries were handled and it recorded something; it is then reported
   * first, with every message it recorded, ahead of the later tags'
   * reports. An exception drops the report of the run.
   */
  lemma ReportedWhenRecorded(fs: Fs, ctx: Context, tags: seq<Name>, order: set<Name> -> seq<Name>)
    requires tags != []
    ensures var tagdir := ByTagDir(ctx.root) + [tags[0]];
            var run := TagsRun(fs, ctx, tags, order);
            var step := EntriesStep(fs, ctx, tagdir, order(Children(fs, tagdir)));
            && (!IsDir(fs, tagdir) ==> run == TagsRun(fs, ctx, tags[1..], order))
            && (IsDir(fs, tagdir) && step.Aborted? ==> run.report == [] && !run.completed)
            && (IsDir(fs, tagdir) && step.Done? && step.messages != [] ==>
                  && |run.report| > 0
                  && run.report[0] == TagReport(tags[0], step.messages)
                  && run.report[1..] == TagsRun(step.fs, ctx, tags[1..], order).report)
            && (IsDir(fs, tagdir) && step.Done? && step.messages == [] ==>
                  run.report == TagsRun(step.fs, ctx, tags[1..], order).report)
            && (StrictlySorted(tags) ==>
                  (TagReported(run.report, tags[0]) <==> IsDir(fs, tagdir) && step.Done? && step.messages != []))
  {
    var tagdir := ByTagDir(ctx.root) + [tags[0]];
    var run := TagsRun(fs, ctx, tags, order);
    var step := EntriesStep(fs, ctx, tagdir, order(Children(fs, tagdir)));
    if StrictlySorted(tags) {
      SortedTail(tags);
      BelowIrreflexive(tags[0]);
      var rest := if IsDir(fs, tagdir) && step.Done? then TagsRun(step.fs, ctx, tags[1..], order).report
                  else TagsRun(fs, ctx, tags[1..], order).report;
      TagsRunReport(if IsDir(fs, tagdir) && step.Done? then step.fs else fs, ctx, tags[1..], order);
      assert !TagReported(rest, tags[0]) by {
        forall i | 0 <= i < |rest|
          ensures rest[i].tag != tags[0]
        {
          assert rest[i].tag in tags[1..];
        }
      }
      if IsDir(fs, tagdir) && step.Done? && step.messages != [] {
        assert run.report[0].tag == tags[0];
      } else if IsDir(fs, tagdir) && step.Done? {
        assert run.report == rest;
      } else if !IsDir(fs, tagdir) {
        assert run.report == rest;
      }
    }
  }

  /**
   * A run of utils.py's `perform_repair` reports its tags in sorted order,
   * each with at least one message, and only `restrictToTag` when one is
   * given.
   */
  lemma RepairRunReport(fs: Fs, root: Path, opts: Options, restrictToTag: Name)
    ensures var report := RepairRun(fs, root, opts, restrictToTag).report;
            && (forall i :: 0 <= i < |report| ==> report[i].messages != [])
            && ReportSorted(report)
            && (restrictToTag != "" ==> forall i :: 0 <= i < |report| ==> report[i].tag == restrictToTag)
            && (restrictToTag != "" ==>
                  var tagdir := ByTagDir(root) + [restrictToTag];
                  var ctx := Context(root, ContentIndex(fs, root), opts, Current);
                  var step := EntriesStep(fs, ctx, tagdir, SortedNames(Children(fs, tagdir)));
                  report == if IsDir(fs, tagdir) && step.Done? && step.messages != []
                            then [TagReport(restrictToTag, step.messages)] else [])
            && (restrictToTag == "" ==> forall i :: 0 <= i < |report| ==> report[i].tag in Children(fs, ByTagDir(root)))
  {
    var ctx := Context(root, ContentIndex(fs, root), opts, Current);
    var run := RepairRun(fs, root, opts, restrictToTag);
    if restrictToTag != "" {
      assert run == TagsRun(fs, ctx, [restrictToTag], SortedNames);
      TagsRunReport(fs, ctx, [restrictToTag], SortedNames);
      ReportedWhenRecorded(fs, ctx, [restrictToTag], SortedNames);
      assert [restrictToTag][1..] == [];
      assert ReportsNonEmpty(run.report, [restrictToTag]);
      assert StrictlySorted([restrictToTag]);
    } else if IsDir(fs, ByTagDir(root)) {
      var tags := SortedNames(Children(fs, ByTagDir(root)));
      assert run == TagsRun(fs, ctx, tags, SortedNames);
      TagsRunReport(fs, ctx, tags, SortedNames);
      assert ReportsNonEmpty(run.report, tags);
    }
  }
}
