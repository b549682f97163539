/**
 The backup walk of the service: a folder is mirrored on the storage device and its
 entries are backed up one after another; a file is copied unless the storage device
 already holds a copy whose last-write time is not older.

 The local disk is a tree of `Node`s; the storage device is a map from path to what is
 there; and whether a CreateDirectoryW or CopyFileW call fails is an input (`World`).
 The walk returns the actions it takes, in order, with the storage device afterwards.
 */
module BackupEngine {
  import opened Wrappers
  import opened FileTime
  import opened StoragePaths

  /**
   A path on the local disk. `info` is what getFileInfo reads for a file, `None` when
   CreateFileW could not open it. `entries` is what FindFirstFile/FindNextFile
   enumerate for a folder, in their order, "." and ".." included.
   */
  datatype Node =
    | File(info: Option<FileTime>)
    | Dir(entries: seq<(string, Node)>)

  /** What a path on the storage device is: a folder, or a file whose time may be unreadable. */
  datatype MediaItem = MediaDir | MediaFile(info: Option<FileTime>)

  type Media = map<string, MediaItem>

  /** The paths on the storage device where CreateDirectoryW or CopyFileW fails. */
  datatype World = World(failing: set<string>)

  /** What the walk does, in order. A failed creation or copy is only logged. */
  datatype Action =
    | CreateDir(path: string, created: bool)
    | Copy(src: string, dst: string, copied: bool)
    | Skip(src: string, dst: string)

  datatype Run = Run(actions: seq<Action>, media: Media)

  predicate IsDotEntry(name: string) {
    name == "." || name == ".."
  }

  /** listDirFiles: the enumerated names without "." and "..", in enumeration order. */
  function ListDirFiles(entries: seq<(string, Node)>): (r: seq<(string, Node)>)
    ensures forall e :: e in r <==> e in entries && !IsDotEntry(e.0)
    ensures |r| <= |entries|
  {
    if |entries| == 0 then []
    else (if IsDotEntry(entries[0].0) then [] else [entries[0]]) + ListDirFiles(entries[1..])
  }

  /** The filter keeps the order: filtering a concatenation concatenates the filtered parts. */
  lemma {:induction false} ListDirFilesKeepsOrder(a: seq<(string, Node)>, b: seq<(string, Node)>)
    decreases |a|
    ensures ListDirFiles(a + b) == ListDirFiles(a) + ListDirFiles(b)
  {
    if |a| > 0 {
      var head := if IsDotEntry(a[0].0) then [] else [a[0]];
      assert (a + b)[0] == a[0];
      assert (a + b)[1..] == a[1..] + b;
      assert ListDirFiles(a + b) == head + ListDirFiles(a[1..] + b);
      ListDirFilesKeepsOrder(a[1..], b);
      assert head + (ListDirFiles(a[1..]) + ListDirFiles(b)) == (head + ListDirFiles(a[1..])) + ListDirFiles(b);
    } else {
      assert a + b == b;
    }
  }

  /** The entries the walk visits below `n`. */
  function Children(n: Node): seq<(string, Node)> {
    match n
    case File(_) => []
    case Dir(entries) => ListDirFiles(entries)
  }

  /** getFileInfo on the storage device: only an openable regular file has readable metadata. */
  function MediaFileInfo(media: Media, path: string): (r: Option<FileTime>)
    ensures r.Some? ==> path in media && media[path] == MediaFile(r)
    ensures path !in media || media[path].MediaDir? ==> r.None?
    ensures path in media && media[path].MediaFile? ==> r == media[path].info
  {
    if path in media && media[path].MediaFile? then media[path].info else None
  }

  /** CopyFileW with overwriting fails on a folder and wherever the world says it fails. */
  predicate CopySucceeds(media: Media, world: World, dst: string)
    ensures dst in world.failing ==> !CopySucceeds(media, world, dst)
    ensures dst in media && media[dst].MediaDir? ==> !CopySucceeds(media, world, dst)
  {
    dst !in world.failing && !(dst in media && media[dst].MediaDir?)
  }

  /** The destination of a file: the storage folder, a '\', and the name PathFindFileNameW finds. */
  function MediaFilePath(filepath: string, storageDevice: string): (r: string)
    ensures Below(r, storageDevice)
    ensures r[|storageDevice| + 1..] == FileName(filepath)
    ensures IsPlainName(FileName(filepath)) ==> FileName(r) == FileName(filepath)
  {
    PlainNameReadsBack(storageDevice, FileName(filepath));
    assert (storageDevice + [SEPARATOR] + FileName(filepath))[..|storageDevice| + 1] == storageDevice + [SEPARATOR];
    storageDevice + [SEPARATOR] + FileName(filepath)
  }

  lemma PlainNameReadsBack(folder: string, name: string)
    ensures IsPlainName(name) ==> FileName(folder + [SEPARATOR] + name) == name
  {
    if IsPlainName(name) {
      FileNameOfChild(folder, name);
    }
  }

  /** The path on the storage device an action is about. */
  function ActionPath(a: Action): string {
    match a
    case CreateDir(p, _) => p
    case Copy(_, dst, _) => dst
    case Skip(_, dst) => dst
  }

  /** `p` lies inside the folder `root`: it starts with `root` and a '\'. */
  predicate Below(p: string, root: string) {
    |p| > |root| && p[..|root| + 1] == root + [SEPARATOR]
  }

  /** Every action of `actions` is about a path inside `root`. */
  ghost predicate AllBelow(actions: seq<Action>, root: string) {
    forall k :: 0 <= k < |actions| ==> Below(ActionPath(actions[k]), root)
  }

  lemma BelowTransitive(p: string, mid: string, root: string)
    requires Below(p, mid) && Below(mid, root)
    ensures Below(p, root)
  {
    assert p[..|root| + 1] == p[..|mid| + 1][..|root| + 1];
    assert (mid + [SEPARATOR])[..|root| + 1] == mid[..|root| + 1];
  }

  lemma AllBelowWidens(actions: seq<Action>, mid: string, root: string)
    requires AllBelow(actions, mid) && Below(mid, root)
    ensures AllBelow(actions, root)
  {
    forall k | 0 <= k < |actions|
      ensures Below(ActionPath(actions[k]), root)
    {
      BelowTransitive(ActionPath(actions[k]), mid, root);
    }
  }

  lemma AllBelowConcat(a: seq<Action>, b: seq<Action>, root: string)
    requires AllBelow(a, root) && AllBelow(b, root)
    ensures AllBelow(a + b, root)
  {
    forall k | 0 <= k < |a + b|
      ensures Below(ActionPath((a + b)[k]), root)
    {
      if k >= |a| {
        assert (a + b)[k] == b[k - |a|];
      }
    }
  }

  /**
   backupFile: nothing happens when the local file's metadata cannot be read; otherwise
   a copy is skipped exactly when the storage device holds a readable copy that is not
   older (equal times are skipped), and is attempted with overwrite in every other case.
   A successful copy carries the local last-write time over; a failed one is taken to
   leave its destination as it was.
   */
  function BackupFile(filepath: string, storageDevice: string, info: Option<FileTime>, media: Media, world: World): (r: Run)
    ensures info.None? ==> r == Run([], media)
    ensures info.Some? ==>
      var dst := MediaFilePath(filepath, storageDevice);
      var onMedia := MediaFileInfo(media, dst);
      && |r.actions| == 1
      && (r.actions[0].Skip? || r.actions[0].Copy?)
      && r.actions[0].src == filepath && r.actions[0].dst == dst
      && (r.actions[0].Skip? <==> onMedia.Some? && NotLater(info.value, onMedia.value))
      && (r.actions[0].Skip? ==> r.media == media)
      && (r.actions[0].Copy? ==>
            && r.actions[0].copied == CopySucceeds(media, world, dst)
            && r.media == if r.actions[0].copied then media[dst := MediaFile(info)] else media)
  {
    match info
    case None => Run([], media)
    case Some(local) =>
      var dst := MediaFilePath(filepath, storageDevice);
      var onMedia := MediaFileInfo(media, dst);
      QuadPartOrderIsLexicographic(local, if onMedia.Some? then onMedia.value else local);
      if onMedia.Some? && QuadPart(local) <= QuadPart(onMedia.value) then
        Run([Skip(filepath, dst)], media)
      else
        var copied := CopySucceeds(media, world, dst);
        Run([Copy(filepath, dst, copied)], if copied then media[dst := MediaFile(info)] else media)
  }

  /** A copy that failed leaves the storage device as it was, so the next run tries it again. */
  lemma FailedCopyIsRetried(filepath: string, storageDevice: string, info: Option<FileTime>, media: Media, world: World, world2: World)
    requires info.Some?
    ensures var first := BackupFile(filepath, storageDevice, info, media, world);
      var again := BackupFile(filepath, storageDevice, info, first.media, world2);
      first.actions[0].Copy? && !first.actions[0].copied ==>
        && first.media == media
        && again.actions[0].Copy?
        && again.actions[0].copied == CopySucceeds(media, world2, MediaFilePath(filepath, storageDevice))
  {
  }

  /** The folder creation of backup: only when nothing exists at the mirrored path. */
  function EnsureFolder(folder: string, media: Media, world: World): (r: Run)
    ensures folder in media ==> r == Run([], media)
    ensures folder !in media ==> |r.actions| == 1 && r.actions[0].CreateDir? && r.actions[0].path == folder
    ensures folder !in media && r.actions[0].created ==> r.media == media[folder := MediaDir]
    ensures folder !in media && !r.actions[0].created ==> r.media == media
  {
    if folder in media then Run([], media)
    else if folder in world.failing then Run([CreateDir(folder, false)], media)
    else Run([CreateDir(folder, true)], media[folder := MediaDir])
  }

  /**
   backup: a file goes to backupFile; a folder is mirrored as its last path component
   under `storageDevice`, and each of its entries is backed up as `path` + "\" + name
   into the mirrored folder, whether or not the folder could be created.
   */
  function Backup(node: Node, path: string, storageDevice: string, media: Media, world: World): (r: Run)
    decreases node, |Children(node)| + 1
    ensures AllBelow(r.actions, storageDevice)
  {
    match node
    case File(info) => BackupFile(path, storageDevice, info, media, world)
    case Dir(_) =>
      var folder := FolderPathOnStorage(path, storageDevice);
      var prepared := EnsureFolder(folder, media, world);
      var rest := BackupChildren(node, 0, path, folder, prepared.media, world);
      AllBelowWidens(rest.actions, folder, storageDevice);
      AllBelowConcat(prepared.actions, rest.actions, storageDevice);
      Run(prepared.actions + rest.actions, rest.media)
  }

  /** The loop of backup over the entries of `dir` from the i-th on. */
  function BackupChildren(dir: Node, i: nat, path: string, folder: string, media: Media, world: World): (r: Run)
    requires i <= |Children(dir)|
    decreases dir, |Children(dir)| - i
    ensures AllBelow(r.actions, folder)
  {
    if i == |Children(dir)| then Run([], media)
    else
      var (name, child) := Children(dir)[i];
      assert Children(dir)[i] in dir.entries;
      var first := Backup(child, path + [SEPARATOR] + name, folder, media, world);
      var rest := BackupChildren(dir, i + 1, path, folder, first.media, world);
      AllBelowConcat(first.actions, rest.actions, folder);
      Run(first.actions + rest.actions, rest.media)
  }

  // ---------------------------------------------------------------------------
  // The plan: which file goes where, whatever the storage device holds
  // ---------------------------------------------------------------------------

  /** A readable local file, the destination it is decided against, and its time. */
  datatype Planned = Planned(src: string, dst: string, time: FileTime)

  /** The readable files below `node` in walk order, each with its destination. */
  function Plan(node: Node, path: string, storageDevice: string): seq<Planned>
    decreases node, |Children(node)| + 1
  {
    match node
    case File(None) => []
    case File(Some(t)) => [Planned(path, MediaFilePath(path, storageDevice), t)]
    case Dir(_) => PlanChildren(node, 0, path, FolderPathOnStorage(path, storageDevice))
  }

  function PlanChildren(dir: Node, i: nat, path: string, folder: string): seq<Planned>
    requires i <= |Children(dir)|
    decreases dir, |Children(dir)| - i
  {
    if i == |Children(dir)| then []
    else
      var (name, child) := Children(dir)[i];
      assert Children(dir)[i] in dir.entries;
      Plan(child, path + [SEPARATOR] + name, folder) + PlanChildren(dir, i + 1, path, folder)
  }

  /** The files below `node` whose metadata can be read. */
  function ReadableFileCount(node: Node): nat
    decreases node, |Children(node)| + 1
  {
    match node
    case File(info) => if info.Some? then 1 else 0
    case Dir(_) => ReadableFileCountFrom(node, 0)
  }

  function ReadableFileCountFrom(dir: Node, i: nat): nat
    requires i <= |Children(dir)|
    decreases dir, |Children(dir)| - i
  {
    if i == |Children(dir)| then 0
    else
      assert Children(dir)[i] in dir.entries;
      ReadableFileCount(Children(dir)[i].1) + ReadableFileCountFrom(dir, i + 1)
  }

  /** The (source, destination) pairs of the copy-or-skip decisions among `actions`. */
  function Decisions(actions: seq<Action>): seq<(string, string)> {
    if |actions| == 0 then []
    else
      (match actions[0]
       case CreateDir(_, _) => []
       case Copy(src, dst, _) => [(src, dst)]
       case Skip(src, dst) => [(src, dst)])
      + Decisions(actions[1..])
  }

  function Targets(plan: seq<Planned>): seq<(string, string)> {
    if |plan| == 0 then [] else [(plan[0].src, plan[0].dst)] + Targets(plan[1..])
  }

  lemma {:induction false} DecisionsOfConcat(a: seq<Action>, b: seq<Action>)
    decreases |a|
    ensures Decisions(a + b) == Decisions(a) + Decisions(b)
  {
    if |a| == 0 {
      assert a + b == b;
    } else {
      assert (a + b)[1..] == a[1..] + b;
      DecisionsOfConcat(a[1..], b);
    }
  }

  lemma {:induction false} TargetsOfConcat(a: seq<Planned>, b: seq<Planned>)
    decreases |a|
    ensures Targets(a + b) == Targets(a) + Targets(b)
  {
    if |a| == 0 {
      assert a + b == b;
    } else {
      assert (a + b)[1..] == a[1..] + b;
      TargetsOfConcat(a[1..], b);
    }
  }

  /**
   Every readable file below `node` gets exactly one copy-or-skip decision, in walk
   order, against its planned destination; what the storage device holds and which
   creations or copies fail change none of that (a folder that could not be created is
   still descended into).
   */
  lemma {:induction false} DecisionsFollowPlan(node: Node, path: string, storageDevice: string, media: Media, world: World)
    decreases node, |Children(node)| + 1
    ensures Decisions(Backup(node, path, storageDevice, media, world).actions) == Targets(Plan(node, path, storageDevice))
  {
    match node
    case File(info) =>
      FileDecisionFollowsPlan(path, storageDevice, info, media, world);
    case Dir(_) =>
      var folder := FolderPathOnStorage(path, storageDevice);
      var prepared := EnsureFolder(folder, media, world);
      DecisionsFollowPlanFrom(node, 0, path, folder, prepared.media, world);
      var rest := BackupChildren(node, 0, path, folder, prepared.media, world);
      DecisionsOfConcat(prepared.actions, rest.actions);
      if |prepared.actions| == 1 {
        assert prepared.actions[1..] == [];
      }
  }

  lemma DecisionOfOne(a: Action)
    requires !a.CreateDir?
    ensures Decisions([a]) == [(a.src, a.dst)]
  {
    assert [a][1..] == [];
  }

  /** A single file: one decision against its destination when readable, none otherwise. */
  lemma FileDecisionFollowsPlan(path: string, storageDevice: string, info: Option<FileTime>, media: Media, world: World)
    ensures Decisions(BackupFile(path, storageDevice, info, media, world).actions) == Targets(Plan(File(info), path, storageDevice))
  {
    var r := BackupFile(path, storageDevice, info, media, world);
    match info
    case None =>
      assert r.actions == [];
    case Some(t) =>
      var dst := MediaFilePath(path, storageDevice);
      var a := r.actions[0];
      assert r.actions == [a];
      DecisionOfOne(a);
      TargetOfOne(Planned(path, dst, t));
  }

  lemma TargetOfOne(p: Planned)
    ensures Targets([p]) == [(p.src, p.dst)]
  {
    assert [p][1..] == [];
  }

  lemma {:induction false} DecisionsFollowPlanFrom(dir: Node, i: nat, path: string, folder: string, media: Media, world: World)
    requires i <= |Children(dir)|
    decreases dir, |Children(dir)| - i
    ensures Decisions(BackupChildren(dir, i, path, folder, media, world).actions) == Targets(PlanChildren(dir, i, path, folder))
  {
    if i < |Children(dir)| {
      var name, child := Children(dir)[i].0, Children(dir)[i].1;
      assert Children(dir)[i] in dir.entries;
      var childPath := path + [SEPARATOR] + name;
      var first := Backup(child, childPath, folder, media, world);
      DecisionsFollowPlan(child, childPath, folder, media, world);
      DecisionsFollowPlanFrom(dir, i + 1, path, folder, first.media, world);
      var rest := BackupChildren(dir, i + 1, path, folder, first.media, world);
      DecisionsOfConcat(first.actions, rest.actions);
      TargetsOfConcat(Plan(child, childPath, folder), PlanChildren(dir, i + 1, path, folder));
      assert BackupChildren(dir, i, path, folder, media, world).actions == first.actions + rest.actions;
      assert PlanChildren(dir, i, path, folder) == Plan(child, childPath, folder) + PlanChildren(dir, i + 1, path, folder);
    }
  }

  /** The plan holds one decision per readable file of the tree. */
  lemma {:induction false} PlanCountsReadableFiles(node: Node, path: string, storageDevice: string)
    decreases node, |Children(node)| + 1
    ensures |Plan(node, path, storageDevice)| == ReadableFileCount(node)
  {
    if node.Dir? {
      PlanChildrenCountsReadableFiles(node, 0, path, FolderPathOnStorage(path, storageDevice));
    }
  }

  lemma {:induction false} PlanChildrenCountsReadableFiles(dir: Node, i: nat, path: string, folder: string)
    requires i <= |Children(dir)|
    decreases dir, |Children(dir)| - i
    ensures |PlanChildren(dir, i, path, folder)| == ReadableFileCountFrom(dir, i)
  {
    if i < |Children(dir)| {
      var name, child := Children(dir)[i].0, Children(dir)[i].1;
      assert Children(dir)[i] in dir.entries;
      PlanCountsReadableFiles(child, path + [SEPARATOR] + name, folder);
      PlanChildrenCountsReadableFiles(dir, i + 1, path, folder);
    }
  }

  /**
   A readable file entry of a folder is decided against the mirrored folder plus its
   own name, and a sub-folder entry is mirrored under the mirrored folder by its name.
   */
  lemma ChildLandsInMirroredFolder(dir: Node, i: nat, path: string, storageDevice: string)
    requires i < |Children(dir)| && IsPlainName(Children(dir)[i].0)
    ensures var name, child := Children(dir)[i].0, Children(dir)[i].1;
      var folder := FolderPathOnStorage(path, storageDevice);
      && (child.File? && child.info.Some? ==>
            Plan(child, path + [SEPARATOR] + name, folder)
            == [Planned(path + [SEPARATOR] + name, folder + [SEPARATOR] + name, child.info.value)])
      && FolderPathOnStorage(path + [SEPARATOR] + name, folder) == folder + [SEPARATOR] + name
  {
    var name, child := Children(dir)[i].0, Children(dir)[i].1;
    FileNameOfChild(path, name);
    assert forall k :: 0 <= k < |name| ==> name[k] != SEPARATOR;
    MirroredChildFolder(path, name, FolderPathOnStorage(path, storageDevice));
  }

  // ---------------------------------------------------------------------------
  // The storage device only gains, and a second run copies nothing
  // ---------------------------------------------------------------------------

  /** `after` keeps every path of `before`, folders stay folders, and no readable file time goes back. */
  ghost predicate Keeps(before: Media, after: Media) {
    && (forall p :: p in before ==> p in after)
    && (forall p :: p in before && before[p].MediaDir? ==> after[p].MediaDir?)
    && (forall p :: MediaFileInfo(before, p).Some? ==>
          MediaFileInfo(after, p).Some? && QuadPart(MediaFileInfo(before, p).value) <= QuadPart(MediaFileInfo(after, p).value))
  }

  lemma KeepsTransitive(a: Media, b: Media, c: Media)
    requires Keeps(a, b) && Keeps(b, c)
    ensures Keeps(a, c)
  {
  }

  /** The walk never removes anything from the storage device and never makes a copy older. */
  lemma {:induction false} BackupKeepsMedia(node: Node, path: string, storageDevice: string, media: Media, world: World)
    decreases node, |Children(node)| + 1
    ensures Keeps(media, Backup(node, path, storageDevice, media, world).media)
  {
    match node
    case File(info) =>
      if info.Some? {
        QuadPartOrderIsLexicographic(info.value, info.value);
        var dst := MediaFilePath(path, storageDevice);
        var onMedia := MediaFileInfo(media, dst);
        if onMedia.Some? {
          QuadPartOrderIsLexicographic(info.value, onMedia.value);
        }
      }
    case Dir(_) =>
      var folder := FolderPathOnStorage(path, storageDevice);
      var prepared := EnsureFolder(folder, media, world);
      BackupChildrenKeepsMedia(node, 0, path, folder, prepared.media, world);
      KeepsTransitive(media, prepared.media, BackupChildren(node, 0, path, folder, prepared.media, world).media);
  }

  lemma {:induction false} BackupChildrenKeepsMedia(dir: Node, i: nat, path: string, folder: string, media: Media, world: World)
    requires i <= |Children(dir)|
    decreases dir, |Children(dir)| - i
    ensures Keeps(media, BackupChildren(dir, i, path, folder, media, world).media)
  {
    if i < |Children(dir)| {
      var name, child := Children(dir)[i].0, Children(dir)[i].1;
      assert Children(dir)[i] in dir.entries;
      var first := Backup(child, path + [SEPARATOR] + name, folder, media, world);
      BackupKeepsMedia(child, path + [SEPARATOR] + name, folder, media, world);
      BackupChildrenKeepsMedia(dir, i + 1, path, folder, first.media, world);
      KeepsTransitive(media, first.media, BackupChildren(dir, i + 1, path, folder, first.media, world).media);
    }
  }

  /** Every planned file has a readable copy on the storage device that is not older. */
  ghost predicate UpToDate(media: Media, plan: seq<Planned>) {
    forall k :: 0 <= k < |plan| ==>
      MediaFileInfo(media, plan[k].dst).Some? && QuadPart(plan[k].time) <= QuadPart(MediaFileInfo(media, plan[k].dst).value)
  }

  predicate AllCopiesSucceeded(actions: seq<Action>) {
    forall k :: 0 <= k < |actions| && actions[k].Copy? ==> actions[k].copied
  }

  predicate NoCopies(actions: seq<Action>) {
    forall k :: 0 <= k < |actions| ==> !actions[k].Copy?
  }

  lemma CopiesSucceededParts(a: seq<Action>, b: seq<Action>)
    requires AllCopiesSucceeded(a + b)
    ensures AllCopiesSucceeded(a) && AllCopiesSucceeded(b)
  {
    forall k | 0 <= k < |a| && a[k].Copy?
      ensures a[k].copied
    {
      assert (a + b)[k] == a[k];
    }
    forall k | 0 <= k < |b| && b[k].Copy?
      ensures b[k].copied
    {
      assert (a + b)[|a| + k] == b[k];
    }
  }

  lemma NoCopiesConcat(a: seq<Action>, b: seq<Action>)
    requires NoCopies(a) && NoCopies(b)
    ensures NoCopies(a + b)
  {
  }

  lemma UpToDateIsKept(before: Media, after: Media, plan: seq<Planned>)
    requires UpToDate(before, plan) && Keeps(before, after)
    ensures UpToDate(after, plan)
  {
  }

  /** When every copy succeeds, the walk leaves every file of its plan up to date. */
  lemma {:induction false} SuccessfulRunLeavesPlanUpToDate(node: Node, path: string, storageDevice: string, media: Media, world: World)
    decreases node, |Children(node)| + 1
    requires AllCopiesSucceeded(Backup(node, path, storageDevice, media, world).actions)
    ensures UpToDate(Backup(node, path, storageDevice, media, world).media, Plan(node, path, storageDevice))
  {
    match node
    case File(info) =>
      SuccessfulFileCopyIsUpToDate(path, storageDevice, info, media, world);
    case Dir(_) =>
      var folder := FolderPathOnStorage(path, storageDevice);
      var prepared := EnsureFolder(folder, media, world);
      var rest := BackupChildren(node, 0, path, folder, prepared.media, world);
      CopiesSucceededParts(prepared.actions, rest.actions);
      SuccessfulChildrenLeavePlanUpToDate(node, 0, path, folder, prepared.media, world);
  }

  /** A single readable file whose copy, if any, succeeded has an up-to-date copy afterwards. */
  lemma SuccessfulFileCopyIsUpToDate(path: string, storageDevice: string, info: Option<FileTime>, media: Media, world: World)
    requires AllCopiesSucceeded(BackupFile(path, storageDevice, info, media, world).actions)
    ensures UpToDate(BackupFile(path, storageDevice, info, media, world).media, Plan(File(info), path, storageDevice))
  {
    if info.Some? {
      var dst := MediaFilePath(path, storageDevice);
      var r := BackupFile(path, storageDevice, info, media, world);
      if r.actions[0].Skip? {
        var onMedia := MediaFileInfo(media, dst);
        QuadPartOrderIsLexicographic(info.value, onMedia.value);
        assert MediaFileInfo(r.media, dst) == onMedia;
      } else {
        assert r.media == media[dst := MediaFile(info)];
        InfoAfterCopy(media, dst, info);
      }
      UpToDateOfOne(r.media, Planned(path, dst, info.value));
    }
  }

  /** After a successful copy the destination reads back the copied file's time. */
  lemma InfoAfterCopy(media: Media, dst: string, info: Option<FileTime>)
    ensures MediaFileInfo(media[dst := MediaFile(info)], dst) == info
  {
  }

  lemma UpToDateOfOne(media: Media, p: Planned)
    requires MediaFileInfo(media, p.dst).Some? && QuadPart(p.time) <= QuadPart(MediaFileInfo(media, p.dst).value)
    ensures UpToDate(media, [p])
  {
  }

  lemma {:induction false} SuccessfulChildrenLeavePlanUpToDate(dir: Node, i: nat, path: string, folder: string, media: Media, world: World)
    requires i <= |Children(dir)|
    decreases dir, |Children(dir)| - i
    requires AllCopiesSucceeded(BackupChildren(dir, i, path, folder, media, world).actions)
    ensures UpToDate(BackupChildren(dir, i, path, folder, media, world).media, PlanChildren(dir, i, path, folder))
  {
    if i < |Children(dir)| {
      var name, child := Children(dir)[i].0, Children(dir)[i].1;
      assert Children(dir)[i] in dir.entries;
      var childPath := path + [SEPARATOR] + name;
      var first := Backup(child, childPath, folder, media, world);
      var rest := BackupChildren(dir, i + 1, path, folder, first.media, world);
      CopiesSucceededParts(first.actions, rest.actions);
      SuccessfulRunLeavesPlanUpToDate(child, childPath, folder, media, world);
      SuccessfulChildrenLeavePlanUpToDate(dir, i + 1, path, folder, first.media, world);
      BackupChildrenKeepsMedia(dir, i + 1, path, folder, first.media, world);
      UpToDateIsKept(first.media, rest.media, Plan(child, childPath, folder));
      UpToDateConcat(rest.media, Plan(child, childPath, folder), PlanChildren(dir, i + 1, path, folder));
    }
  }

  lemma UpToDateConcat(media: Media, a: seq<Planned>, b: seq<Planned>)
    requires UpToDate(media, a) && UpToDate(media, b)
    ensures UpToDate(media, a + b)
  {
    forall k | 0 <= k < |a + b|
      ensures MediaFileInfo(media, (a + b)[k].dst).Some?
           && QuadPart((a + b)[k].time) <= QuadPart(MediaFileInfo(media, (a + b)[k].dst).value)
    {
      if k >= |a| {
        assert (a + b)[k] == b[k - |a|];
      }
    }
  }

  lemma UpToDateParts(media: Media, a: seq<Planned>, b: seq<Planned>)
    requires UpToDate(media, a + b)
    ensures UpToDate(media, a) && UpToDate(media, b)
  {
    forall k | 0 <= k < |a|
      ensures MediaFileInfo(media, a[k].dst).Some? && QuadPart(a[k].time) <= QuadPart(MediaFileInfo(media, a[k].dst).value)
    {
      assert (a + b)[k] == a[k];
    }
    forall k | 0 <= k < |b|
      ensures MediaFileInfo(media, b[k].dst).Some? && QuadPart(b[k].time) <= QuadPart(MediaFileInfo(media, b[k].dst).value)
    {
      assert (a + b)[|a| + k] == b[k];
    }
  }

  /** A walk over files that are all up to date skips every one of them. */
  lemma {:induction false} UpToDatePlanCopiesNothing(node: Node, path: string, storageDevice: string, media: Media, world: World)
    decreases node, |Children(node)| + 1
    requires UpToDate(media, Plan(node, path, storageDevice))
    ensures NoCopies(Backup(node, path, storageDevice, media, world).actions)
  {
    match node
    case File(info) =>
      if info.Some? {
        var dst := MediaFilePath(path, storageDevice);
        assert Plan(node, path, storageDevice)[0].dst == dst;
        QuadPartOrderIsLexicographic(info.value, MediaFileInfo(media, dst).value);
      }
    case Dir(_) =>
      var folder := FolderPathOnStorage(path, storageDevice);
      var prepared := EnsureFolder(folder, media, world);
      UpToDateIsKept(media, prepared.media, PlanChildren(node, 0, path, folder));
      UpToDateChildrenCopyNothing(node, 0, path, folder, prepared.media, world);
      NoCopiesConcat(prepared.actions, BackupChildren(node, 0, path, folder, prepared.media, world).actions);
  }

  lemma {:induction false} UpToDateChildrenCopyNothing(dir: Node, i: nat, path: string, folder: string, media: Media, world: World)
    requires i <= |Children(dir)|
    decreases dir, |Children(dir)| - i
    requires UpToDate(media, PlanChildren(dir, i, path, folder))
    ensures NoCopies(BackupChildren(dir, i, path, folder, media, world).actions)
  {
    if i < |Children(dir)| {
      var name, child := Children(dir)[i].0, Children(dir)[i].1;
      assert Children(dir)[i] in dir.entries;
      var childPath := path + [SEPARATOR] + name;
      UpToDateParts(media, Plan(child, childPath, folder), PlanChildren(dir, i + 1, path, folder));
      UpToDatePlanCopiesNothing(child, childPath, folder, media, world);
      var first := Backup(child, childPath, folder, media, world);
      BackupKeepsMedia(child, childPath, folder, media, world);
      UpToDateIsKept(media, first.media, PlanChildren(dir, i + 1, path, folder));
      UpToDateChildrenCopyNothing(dir, i + 1, path, folder, first.media, world);
      NoCopiesConcat(first.actions, BackupChildren(dir, i + 1, path, folder, first.media, world).actions);
    }
  }

  /**
   Backing the same tree up again after a run in which every copy succeeded copies
   nothing: every file is skipped, whatever fails in the second run.
   */
  lemma SecondRunCopiesNothing(node: Node, path: string, storageDevice: string, media: Media, world: World, world2: World)
    requires AllCopiesSucceeded(Backup(node, path, storageDevice, media, world).actions)
    ensures NoCopies(Backup(node, path, storageDevice, Backup(node, path, storageDevice, media, world).media, world2).actions)
  {
    SuccessfulRunLeavesPlanUpToDate(node, path, storageDevice, media, world);
    UpToDatePlanCopiesNothing(node, path, storageDevice, Backup(node, path, storageDevice, media, world).media, world2);
  }

  /** A folder whose mirrored folder is missing starts with its creation, and only such a folder does. */
  lemma MissingFolderCreatedFirst(node: Node, path: string, storageDevice: string, media: Media, world: World)
    requires node.Dir?
    ensures var folder := FolderPathOnStorage(path, storageDevice);
      var r := Backup(node, path, storageDevice, media, world);
      folder !in media <==> |r.actions| > 0 && r.actions[0] == CreateDir(folder, folder !in world.failing)
  {
    var folder := FolderPathOnStorage(path, storageDevice);
    var prepared := EnsureFolder(folder, media, world);
    var rest := BackupChildren(node, 0, path, folder, prepared.media, world);
    if |rest.actions| > 0 {
      assert Below(ActionPath(rest.actions[0]), folder);
    }
    if |prepared.actions| > 0 {
      assert (prepared.actions + rest.actions)[0] == prepared.actions[0];
    }
  }

  // ---------------------------------------------------------------------------
  // Only the paths of successful creations and copies change
  // ---------------------------------------------------------------------------

  /** The paths of the creations and copies among `actions` that succeeded. */
  function Written(actions: seq<Action>): set<string> {
    if |actions| == 0 then {}
    else
      (match actions[0]
       case CreateDir(p, created) => if created then {p} else {}
       case Copy(_, dst, copied) => if copied then {dst} else {}
       case Skip(_, _) => {})
      + Written(actions[1..])
  }

  lemma {:induction false} WrittenOfConcat(a: seq<Action>, b: seq<Action>)
    decreases |a|
    ensures Written(a + b) == Written(a) + Written(b)
  {
    if |a| == 0 {
      assert a + b == b;
    } else {
      assert (a + b)[1..] == a[1..] + b;
      WrittenOfConcat(a[1..], b);
    }
  }

  /** Going from `before` to `after`, no path outside `paths` appears, disappears or changes. */
  ghost predicate ChangesOnly(before: Media, after: Media, paths: set<string>) {
    forall p :: p !in paths ==> (p in before <==> p in after) && (p in before ==> after[p] == before[p])
  }

  lemma ChangesOnlyTransitive(a: Media, b: Media, c: Media, s: set<string>, t: set<string>)
    requires ChangesOnly(a, b, s) && ChangesOnly(b, c, t)
    ensures ChangesOnly(a, c, s + t)
  {
  }

  /** The walk changes the storage device only at the paths it created or copied to. */
  lemma {:induction false} BackupChangesOnlyWritten(node: Node, path: string, storageDevice: string, media: Media, world: World)
    decreases node, |Children(node)| + 1
    ensures var r := Backup(node, path, storageDevice, media, world);
      ChangesOnly(media, r.media, Written(r.actions))
  {
    match node
    case File(info) =>
      var r := BackupFile(path, storageDevice, info, media, world);
      if info.Some? {
        assert r.actions[1..] == [];
      }
    case Dir(_) =>
      var folder := FolderPathOnStorage(path, storageDevice);
      var prepared := EnsureFolder(folder, media, world);
      var rest := BackupChildren(node, 0, path, folder, prepared.media, world);
      if |prepared.actions| == 1 {
        assert prepared.actions[1..] == [];
      }
      BackupChildrenChangeOnlyWritten(node, 0, path, folder, prepared.media, world);
      ChangesOnlyTransitive(media, prepared.media, rest.media, Written(prepared.actions), Written(rest.actions));
      WrittenOfConcat(prepared.actions, rest.actions);
  }

  lemma {:induction false} BackupChildrenChangeOnlyWritten(dir: Node, i: nat, path: string, folder: string, media: Media, world: World)
    requires i <= |Children(dir)|
    decreases dir, |Children(dir)| - i
    ensures var r := BackupChildren(dir, i, path, folder, media, world);
      ChangesOnly(media, r.media, Written(r.actions))
  {
    if i < |Children(dir)| {
      var name, child := Children(dir)[i].0, Children(dir)[i].1;
      assert Children(dir)[i] in dir.entries;
      var first := Backup(child, path + [SEPARATOR] + name, folder, media, world);
      var rest := BackupChildren(dir, i + 1, path, folder, first.media, world);
      BackupChangesOnlyWritten(child, path + [SEPARATOR] + name, folder, media, world);
      BackupChildrenChangeOnlyWritten(dir, i + 1, path, folder, first.media, world);
      ChangesOnlyTransitive(media, first.media, rest.media, Written(first.actions), Written(rest.actions));
      WrittenOfConcat(first.actions, rest.actions);
    }
  }

  // ---------------------------------------------------------------------------
  // On a device that holds none of its paths, the walk creates every folder and
  // copies every readable file
  // ---------------------------------------------------------------------------

  /** The paths the walk below `node` is about: each mirrored folder and each readable file's destination, in walk order. */
  function Destinations(node: Node, path: string, storageDevice: string): seq<string>
    decreases node, |Children(node)| + 1
  {
    match node
    case File(None) => []
    case File(Some(_)) => [MediaFilePath(path, storageDevice)]
    case Dir(_) =>
      var folder := FolderPathOnStorage(path, storageDevice);
      [folder] + DestinationsFrom(node, 0, path, folder)
  }

  function DestinationsFrom(dir: Node, i: nat, path: string, folder: string): seq<string>
    requires i <= |Children(dir)|
    decreases dir, |Children(dir)| - i
  {
    if i == |Children(dir)| then []
    else
      assert Children(dir)[i] in dir.entries;
      Destinations(Children(dir)[i].1, path + [SEPARATOR] + Children(dir)[i].0, folder) + DestinationsFrom(dir, i + 1, path, folder)
  }

  /** The folders of the tree, `node` itself included. */
  function FolderCount(node: Node): nat
    decreases node, |Children(node)| + 1
  {
    match node
    case File(_) => 0
    case Dir(_) => 1 + FolderCountFrom(node, 0)
  }

  function FolderCountFrom(dir: Node, i: nat): nat
    requires i <= |Children(dir)|
    decreases dir, |Children(dir)| - i
  {
    if i == |Children(dir)| then 0
    else
      assert Children(dir)[i] in dir.entries;
      FolderCount(Children(dir)[i].1) + FolderCountFrom(dir, i + 1)
  }

  function CreateCount(actions: seq<Action>): nat {
    if |actions| == 0 then 0 else (if actions[0].CreateDir? then 1 else 0) + CreateCount(actions[1..])
  }

  function CopyCount(actions: seq<Action>): nat {
    if |actions| == 0 then 0 else (if actions[0].Copy? then 1 else 0) + CopyCount(actions[1..])
  }

  predicate NoSkips(actions: seq<Action>) {
    forall k :: 0 <= k < |actions| ==> !actions[k].Skip?
  }

  lemma {:induction false} CountsOfConcat(a: seq<Action>, b: seq<Action>)
    decreases |a|
    ensures CreateCount(a + b) == CreateCount(a) + CreateCount(b)
    ensures CopyCount(a + b) == CopyCount(a) + CopyCount(b)
    ensures NoSkips(a) && NoSkips(b) ==> NoSkips(a + b)
  {
    if |a| == 0 {
      assert a + b == b;
    } else {
      assert (a + b)[1..] == a[1..] + b;
      CountsOfConcat(a[1..], b);
    }
  }

  /** No string occurs twice in `s`: each one is absent from the rest after it. */
  predicate Distinct(s: seq<string>)
    decreases |s|
  {
    |s| == 0 || (s[0] !in s[1..] && Distinct(s[1..]))
  }

  lemma {:induction false} DistinctJoin(a: seq<string>, b: seq<string>)
    decreases |a|
    requires Distinct(a) && Distinct(b) && (forall x :: x in a ==> x !in b)
    ensures Distinct(a + b)
  {
    if |a| == 0 {
      assert a + b == b;
    } else {
      assert (a + b)[1..] == a[1..] + b;
      assert a[0] in a;
      DistinctJoin(a[1..], b);
    }
  }

  lemma {:induction false} DistinctParts(a: seq<string>, b: seq<string>)
    decreases |a|
    requires Distinct(a + b)
    ensures Distinct(a) && Distinct(b) && (forall x :: x in a ==> x !in b)
  {
    if |a| == 0 {
      assert a + b == b;
    } else {
      assert (a + b)[1..] == a[1..] + b;
      DistinctParts(a[1..], b);
      forall x | x in a
        ensures x !in b
      {
        if x != a[0] {
          assert x in a[1..];
        }
      }
    }
  }

  /** Every path the walk creates or copies to is one of its destinations. */
  lemma {:induction false} WrittenAreDestinations(node: Node, path: string, storageDevice: string, media: Media, world: World)
    decreases node, |Children(node)| + 1
    ensures forall p :: p in Written(Backup(node, path, storageDevice, media, world).actions) ==> p in Destinations(node, path, storageDevice)
  {
    match node
    case File(info) =>
      var r := BackupFile(path, storageDevice, info, media, world);
      if info.Some? {
        assert r.actions[1..] == [];
      }
    case Dir(_) =>
      var folder := FolderPathOnStorage(path, storageDevice);
      var prepared := EnsureFolder(folder, media, world);
      var rest := BackupChildren(node, 0, path, folder, prepared.media, world);
      if |prepared.actions| == 1 {
        assert prepared.actions[1..] == [];
      }
      WrittenFromAreDestinations(node, 0, path, folder, prepared.media, world);
      WrittenOfConcat(prepared.actions, rest.actions);
  }

  lemma {:induction false} WrittenFromAreDestinations(dir: Node, i: nat, path: string, folder: string, media: Media, world: World)
    requires i <= |Children(dir)|
    decreases dir, |Children(dir)| - i
    ensures forall p :: p in Written(BackupChildren(dir, i, path, folder, media, world).actions) ==> p in DestinationsFrom(dir, i, path, folder)
  {
    if i < |Children(dir)| {
      var name, child := Children(dir)[i].0, Children(dir)[i].1;
      assert Children(dir)[i] in dir.entries;
      var first := Backup(child, path + [SEPARATOR] + name, folder, media, world);
      var rest := BackupChildren(dir, i + 1, path, folder, first.media, world);
      WrittenAreDestinations(child, path + [SEPARATOR] + name, folder, media, world);
      WrittenFromAreDestinations(dir, i + 1, path, folder, first.media, world);
      WrittenOfConcat(first.actions, rest.actions);
      InsideJoin(Written(first.actions), Written(rest.actions),
        Destinations(child, path + [SEPARATOR] + name, folder), DestinationsFrom(dir, i + 1, path, folder));
    }
  }

  lemma InsideJoin(s: set<string>, t: set<string>, a: seq<string>, b: seq<string>)
    requires forall p :: p in s ==> p in a
    requires forall p :: p in t ==> p in b
    ensures forall p :: p in s + t ==> p in a + b
  {
    forall p | p in s + t
      ensures p in a + b
    {
      if p in s {
        assert p in a;
      } else {
        assert p in b;
      }
    }
  }

  /**
   When the destinations are distinct and none is on the device yet, the walk creates
   every folder of the tree, copies every readable file, and skips nothing.
   */
  lemma {:induction false} FreshDestinationsAreAllAttempted(node: Node, path: string, storageDevice: string, media: Media, world: World)
    decreases node, |Children(node)| + 1
    requires Distinct(Destinations(node, path, storageDevice))
    requires forall d :: d in Destinations(node, path, storageDevice) ==> d !in media
    ensures var r := Backup(node, path, storageDevice, media, world);
      && NoSkips(r.actions)
      && CreateCount(r.actions) == FolderCount(node)
      && CopyCount(r.actions) == ReadableFileCount(node)
  {
    match node
    case File(info) =>
      var r := BackupFile(path, storageDevice, info, media, world);
      if info.Some? {
        assert r.actions[1..] == [];
      }
    case Dir(_) =>
      var folder := FolderPathOnStorage(path, storageDevice);
      var prepared := EnsureFolder(folder, media, world);
      var rest := BackupChildren(node, 0, path, folder, prepared.media, world);
      var below := DestinationsFrom(node, 0, path, folder);
      DistinctParts([folder], below);
      AbsentMeans(below, prepared.media);
      assert prepared.actions[1..] == [];
      FreshChildrenAreAllAttempted(node, 0, path, folder, prepared.media, world);
      CountsOfConcat(prepared.actions, rest.actions);
  }

  lemma {:induction false} FreshChildrenAreAllAttempted(dir: Node, i: nat, path: string, folder: string, media: Media, world: World)
    requires i <= |Children(dir)|
    decreases dir, |Children(dir)| - i, 1
    requires Distinct(DestinationsFrom(dir, i, path, folder))
    requires Absent(DestinationsFrom(dir, i, path, folder), media)
    ensures NoSkips(BackupChildren(dir, i, path, folder, media, world).actions)
    ensures CreateCount(BackupChildren(dir, i, path, folder, media, world).actions) == FolderCountFrom(dir, i)
    ensures CopyCount(BackupChildren(dir, i, path, folder, media, world).actions) == ReadableFileCountFrom(dir, i)
  {
    if i < |Children(dir)| {
      FreshChildStep(dir, i, path, folder, media, world);
      FreshLaterEntries(dir, i, path, folder, media, world);
    }
  }

  /** Once entry `i` is attempted in full and the later destinations are still fresh, the loop from `i` is too. */
  lemma {:induction false} FreshLaterEntries(dir: Node, i: nat, path: string, folder: string, media: Media, world: World)
    requires i < |Children(dir)|
    decreases dir, |Children(dir)| - i, 0
    requires NoSkips(EntryRun(dir, i, path, folder, media, world).actions)
    requires CreateCount(EntryRun(dir, i, path, folder, media, world).actions) == FolderCount(Children(dir)[i].1)
    requires CopyCount(EntryRun(dir, i, path, folder, media, world).actions) == ReadableFileCount(Children(dir)[i].1)
    requires Distinct(DestinationsFrom(dir, i + 1, path, folder))
    requires Absent(DestinationsFrom(dir, i + 1, path, folder), EntryRun(dir, i, path, folder, media, world).media)
    ensures NoSkips(BackupChildren(dir, i, path, folder, media, world).actions)
    ensures CreateCount(BackupChildren(dir, i, path, folder, media, world).actions) == FolderCountFrom(dir, i)
    ensures CopyCount(BackupChildren(dir, i, path, folder, media, world).actions) == ReadableFileCountFrom(dir, i)
  {
    FreshChildrenAreAllAttempted(dir, i + 1, path, folder, EntryRun(dir, i, path, folder, media, world).media, world);
    AttemptedStep(dir, i, path, folder, media, world);
    CountsStep(dir, i);
  }

  /** The walk of entry `i` of `dir`, as BackupChildren runs it. */
  function EntryRun(dir: Node, i: nat, path: string, folder: string, media: Media, world: World): Run
    requires i < |Children(dir)|
  {
    assert Children(dir)[i] in dir.entries;
    Backup(Children(dir)[i].1, path + [SEPARATOR] + Children(dir)[i].0, folder, media, world)
  }

  /**
   One turn of the entry loop: entry `i`'s walk, then the loop from `i + 1` on what it
   left. When neither skips, the turn skips nothing and its counts add up.
   */
  lemma AttemptedStep(dir: Node, i: nat, path: string, folder: string, media: Media, world: World)
    requires i < |Children(dir)|
    requires NoSkips(EntryRun(dir, i, path, folder, media, world).actions)
    requires NoSkips(BackupChildren(dir, i + 1, path, folder, EntryRun(dir, i, path, folder, media, world).media, world).actions)
    ensures NoSkips(BackupChildren(dir, i, path, folder, media, world).actions)
    ensures CreateCount(BackupChildren(dir, i, path, folder, media, world).actions) ==
      CreateCount(EntryRun(dir, i, path, folder, media, world).actions) +
      CreateCount(BackupChildren(dir, i + 1, path, folder, EntryRun(dir, i, path, folder, media, world).media, world).actions)
    ensures CopyCount(BackupChildren(dir, i, path, folder, media, world).actions) ==
      CopyCount(EntryRun(dir, i, path, folder, media, world).actions) +
      CopyCount(BackupChildren(dir, i + 1, path, folder, EntryRun(dir, i, path, folder, media, world).media, world).actions)
  {
    var first := EntryRun(dir, i, path, folder, media, world);
    var rest := BackupChildren(dir, i + 1, path, folder, first.media, world);
    assert BackupChildren(dir, i, path, folder, media, world).actions == first.actions + rest.actions;
    CountsOfConcat(first.actions, rest.actions);
  }

  /** The folder and readable-file counts from entry `i` on: entry `i`'s, then the rest. */
  lemma CountsStep(dir: Node, i: nat)
    requires i < |Children(dir)|
    ensures FolderCountFrom(dir, i) == FolderCount(Children(dir)[i].1) + FolderCountFrom(dir, i + 1)
    ensures ReadableFileCountFrom(dir, i) == ReadableFileCount(Children(dir)[i].1) + ReadableFileCountFrom(dir, i + 1)
  {
  }

  /** Entry `i` of a fresh folder: it is attempted in full, and leaves the later entries' destinations fresh. */
  lemma FreshChildStep(dir: Node, i: nat, path: string, folder: string, media: Media, world: World)
    requires i < |Children(dir)|
    requires Distinct(DestinationsFrom(dir, i, path, folder))
    requires Absent(DestinationsFrom(dir, i, path, folder), media)
    decreases dir, |Children(dir)| - i - 1
    ensures NoSkips(EntryRun(dir, i, path, folder, media, world).actions)
    ensures CreateCount(EntryRun(dir, i, path, folder, media, world).actions) == FolderCount(Children(dir)[i].1)
    ensures CopyCount(EntryRun(dir, i, path, folder, media, world).actions) == ReadableFileCount(Children(dir)[i].1)
    ensures Distinct(DestinationsFrom(dir, i + 1, path, folder))
    ensures Absent(DestinationsFrom(dir, i + 1, path, folder), EntryRun(dir, i, path, folder, media, world).media)
  {
    var name, child := Children(dir)[i].0, Children(dir)[i].1;
    assert Children(dir)[i] in dir.entries;
    var childPath := path + [SEPARATOR] + name;
    var mine := Destinations(child, childPath, folder);
    var later := DestinationsFrom(dir, i + 1, path, folder);
    assert DestinationsFrom(dir, i, path, folder) == mine + later;
    DistinctParts(mine, later);
    AbsentMeans(mine + later, media);
    var first := Backup(child, childPath, folder, media, world);
    FreshDestinationsAreAllAttempted(child, childPath, folder, media, world);
    BackupChangesOnlyWritten(child, childPath, folder, media, world);
    WrittenAreDestinations(child, childPath, folder, media, world);
    StaysFresh(media, first.media, Written(first.actions), mine, later);
    AbsentMeans(later, first.media);
  }

  /** None of `ds` is on the device, one path at a time. */
  ghost predicate Absent(ds: seq<string>, media: Media)
    decreases |ds|
  {
    |ds| == 0 || (ds[0] !in media && Absent(ds[1..], media))
  }

  lemma {:induction false} AbsentMeans(ds: seq<string>, media: Media)
    decreases |ds|
    ensures Absent(ds, media) <==> forall d :: d in ds ==> d !in media
  {
    if |ds| > 0 {
      AbsentMeans(ds[1..], media);
      assert ds == [ds[0]] + ds[1..];
    }
  }

  /** Paths outside what was written, and absent before, are still absent. */
  lemma StaysFresh(before: Media, after: Media, written: set<string>, mine: seq<string>, later: seq<string>)
    requires ChangesOnly(before, after, written)
    requires forall p :: p in written ==> p in mine
    requires forall d :: d in mine ==> d !in later
    requires forall d :: d in later ==> d !in before
    ensures forall d :: d in later ==> d !in after
  {
  }

  /** Entry names as a folder holds them: plain, and no two entries of one folder alike. */
  ghost predicate DistinctPlainNames(dir: Node) {
    && (forall a :: 0 <= a < |Children(dir)| ==> IsPlainName(Children(dir)[a].0))
    && (forall a, b :: 0 <= a < b < |Children(dir)| ==> Children(dir)[a].0 != Children(dir)[b].0)
  }

  /** Every folder of the tree has distinct plain entry names. */
  ghost predicate WellNamed(node: Node)
    decreases node, |Children(node)| + 1
  {
    match node
    case File(_) => true
    case Dir(_) => DistinctPlainNames(node) && WellNamedFrom(node, 0)
  }

  ghost predicate WellNamedFrom(dir: Node, i: nat)
    requires i <= |Children(dir)|
    decreases dir, |Children(dir)| - i
  {
    if i == |Children(dir)| then true
    else
      assert Children(dir)[i] in dir.entries;
      WellNamed(Children(dir)[i].1) && WellNamedFrom(dir, i + 1)
  }

  /** `d` is `base` itself or lies inside it. */
  predicate Extends(d: string, base: string) {
    |d| >= |base| && d[..|base|] == base && (|d| == |base| || d[|base|] == SEPARATOR)
  }

  /** What lies at or inside `base\a` lies neither at nor inside `base\b` for another plain name `b`. */
  lemma NamesSeparate(base: string, a: string, b: string, d: string)
    requires IsPlainName(a) && IsPlainName(b) && a != b
    requires Extends(d, base + [SEPARATOR] + a)
    ensures !Extends(d, base + [SEPARATOR] + b)
  {
    var n := |base| + 1;
    var ka, kb := base + [SEPARATOR] + a, base + [SEPARATOR] + b;
    if |a| == |b| {
      var k :| 0 <= k < |a| && a[k] != b[k];
      assert d[n + k] == ka[n + k] == a[k];
      assert kb[n + k] == b[k];
      assert d[..|kb|][n + k] != kb[n + k];
    } else if |a| < |b| {
      if |d| >= |kb| {
        assert d[|ka|] == SEPARATOR;
        assert kb[|ka|] == b[|a|];
        assert d[..|kb|][|ka|] != kb[|ka|];
      }
    } else {
      assert d[|kb|] == ka[|kb|] == a[|b|];
      assert d[|kb|] != SEPARATOR;
    }
  }

  lemma ExtendsInside(d: string, folder: string, name: string)
    requires |name| > 0 && Extends(d, folder + [SEPARATOR] + name)
    ensures Below(d, folder)
  {
    assert d[..|folder| + 1] == d[..|folder| + 1 + |name|][..|folder| + 1];
  }

  /** Every destination below an entry `name` lies at or inside the mirrored folder and `name`. */
  lemma {:induction false} DestinationsUnderName(node: Node, parent: string, name: string, storageDevice: string)
    decreases node, |Children(node)| + 1
    requires IsPlainName(name) && WellNamed(node)
    ensures forall d :: d in Destinations(node, parent + [SEPARATOR] + name, storageDevice) ==> Extends(d, storageDevice + [SEPARATOR] + name)
  {
    var p := parent + [SEPARATOR] + name;
    var base := storageDevice + [SEPARATOR] + name;
    match node
    case File(info) =>
      FileNameOfChild(parent, name);
    case Dir(_) =>
      assert forall k :: 0 <= k < |name| ==> name[k] != SEPARATOR;
      MirroredChildFolder(parent, name, storageDevice);
      DestinationsFromInside(node, 0, p, base);
  }

  lemma {:induction false} DestinationsFromInside(dir: Node, i: nat, path: string, folder: string)
    requires i <= |Children(dir)|
    decreases dir, |Children(dir)| - i
    requires DistinctPlainNames(dir) && WellNamedFrom(dir, i)
    ensures forall d :: d in DestinationsFrom(dir, i, path, folder) ==> Below(d, folder)
  {
    if i < |Children(dir)| {
      var name, child := Children(dir)[i].0, Children(dir)[i].1;
      assert Children(dir)[i] in dir.entries;
      DestinationsUnderName(child, path, name, folder);
      forall d | d in Destinations(child, path + [SEPARATOR] + name, folder)
        ensures Below(d, folder)
      {
        ExtendsInside(d, folder, name);
      }
      DestinationsFromInside(dir, i + 1, path, folder);
    }
  }

  /** In a well-named tree no two folders or files share a destination. */
  lemma {:induction false} WellNamedDestinationsAreDistinct(node: Node, path: string, storageDevice: string)
    decreases node, |Children(node)| + 1
    requires WellNamed(node)
    ensures Distinct(Destinations(node, path, storageDevice))
  {
    if node.Dir? {
      var folder := FolderPathOnStorage(path, storageDevice);
      DistinctDestinationsFrom(node, 0, path, folder);
      DestinationsFromInside(node, 0, path, folder);
      DistinctJoin([folder], DestinationsFrom(node, 0, path, folder));
    }
  }

  lemma {:induction false} DistinctDestinationsFrom(dir: Node, i: nat, path: string, folder: string)
    requires i <= |Children(dir)|
    decreases dir, |Children(dir)| - i
    requires DistinctPlainNames(dir) && WellNamedFrom(dir, i)
    ensures Distinct(DestinationsFrom(dir, i, path, folder))
  {
    if i < |Children(dir)| {
      var name, child := Children(dir)[i].0, Children(dir)[i].1;
      assert Children(dir)[i] in dir.entries;
      var mine := Destinations(child, path + [SEPARATOR] + name, folder);
      var later := DestinationsFrom(dir, i + 1, path, folder);
      assert DestinationsFrom(dir, i, path, folder) == mine + later;
      WellNamedDestinationsAreDistinct(child, path + [SEPARATOR] + name, folder);
      EntryDestinationsApart(dir, i, path, folder);
      DistinctDestinationsFrom(dir, i + 1, path, folder);
      LaterDestinationsApart(dir, i + 1, path, folder);
      assert forall d :: d in later ==> !Extends(d, folder + [SEPARATOR] + name);
      assert forall d :: d in mine ==> d !in later;
      DistinctJoin(mine, later);
    }
  }

  /** No destination of entries `i..` lies at or inside an entry before `i`. */
  lemma {:induction false} LaterDestinationsApart(dir: Node, i: nat, path: string, folder: string)
    requires i <= |Children(dir)|
    decreases |Children(dir)| - i
    requires DistinctPlainNames(dir) && WellNamedFrom(dir, i)
    ensures forall d, a :: d in DestinationsFrom(dir, i, path, folder) && 0 <= a < i ==> !Extends(d, folder + [SEPARATOR] + Children(dir)[a].0)
  {
    if i < |Children(dir)| {
      var name, child := Children(dir)[i].0, Children(dir)[i].1;
      assert Children(dir)[i] in dir.entries;
      var mine := Destinations(child, path + [SEPARATOR] + name, folder);
      var later := DestinationsFrom(dir, i + 1, path, folder);
      assert DestinationsFrom(dir, i, path, folder) == mine + later;
      EntryDestinationsApart(dir, i, path, folder);
      LaterDestinationsApart(dir, i + 1, path, folder);
      ApartJoin(dir, i, folder, mine, later);
    }
  }

  lemma ApartJoin(dir: Node, i: nat, folder: string, mine: seq<string>, later: seq<string>)
    requires i < |Children(dir)|
    requires forall d, a :: d in mine && 0 <= a < i ==> !Extends(d, folder + [SEPARATOR] + Children(dir)[a].0)
    requires forall d, a :: d in later && 0 <= a < i + 1 ==> !Extends(d, folder + [SEPARATOR] + Children(dir)[a].0)
    ensures forall d, a :: d in mine + later && 0 <= a < i ==> !Extends(d, folder + [SEPARATOR] + Children(dir)[a].0)
  {
    forall d, a | d in mine + later && 0 <= a < i
      ensures !Extends(d, folder + [SEPARATOR] + Children(dir)[a].0)
    {
      if d !in mine {
        assert d in later;
      }
    }
  }

  /** The destinations of entry `i` lie inside its own name, so outside every earlier entry's. */
  lemma EntryDestinationsApart(dir: Node, i: nat, path: string, folder: string)
    requires i < |Children(dir)|
    requires DistinctPlainNames(dir) && WellNamed(Children(dir)[i].1)
    ensures forall d :: d in Destinations(Children(dir)[i].1, path + [SEPARATOR] + Children(dir)[i].0, folder) ==>
      Extends(d, folder + [SEPARATOR] + Children(dir)[i].0)
    ensures forall d, a :: d in Destinations(Children(dir)[i].1, path + [SEPARATOR] + Children(dir)[i].0, folder) && 0 <= a < i ==>
      !Extends(d, folder + [SEPARATOR] + Children(dir)[a].0)
  {
    var name, child := Children(dir)[i].0, Children(dir)[i].1;
    var mine := Destinations(child, path + [SEPARATOR] + name, folder);
    DestinationsUnderName(child, path, name, folder);
    forall d, a | d in mine && 0 <= a < i
      ensures !Extends(d, folder + [SEPARATOR] + Children(dir)[a].0)
    {
      NamesSeparate(folder, name, Children(dir)[a].0, d);
    }
  }

  /**
   On a device holding none of the paths the walk is about, a well-named tree gets one
   folder creation per folder and one copy per readable file, and nothing is skipped.
   */
  lemma WellNamedTreeOnFreshDevice(node: Node, path: string, storageDevice: string, media: Media, world: World)
    requires WellNamed(node)
    requires forall d :: d in Destinations(node, path, storageDevice) ==> d !in media
    ensures var r := Backup(node, path, storageDevice, media, world);
      && NoSkips(r.actions)
      && CreateCount(r.actions) == FolderCount(node)
      && CopyCount(r.actions) == ReadableFileCount(node)
  {
    WellNamedDestinationsAreDistinct(node, path, storageDevice);
    FreshDestinationsAreAllAttempted(node, path, storageDevice, media, world);
  }
}
