/**
 A storage device arrives: when it carries a `.autobackup` manifest, the manifest is
 parsed on top of the directive lists left by earlier arrivals, and every local path of
 the accumulated backup list is backed up onto the device, one after another.
 */
module DeviceArrival {
  import opened Wrappers
  import opened FileTime
  import opened Manifest
  import opened BackupEngine

  /** The local disk: what each path names. */
  type Disk = string -> Node

  /** The local locations of `entries`, in order. */
  function LocalPaths(entries: seq<Entry>): (r: seq<string>)
    ensures |r| == |entries|
    ensures forall k :: 0 <= k < |entries| ==> r[k] == entries[k].localFileLoc
  {
    if |entries| == 0 then [] else [entries[0].localFileLoc] + LocalPaths(entries[1..])
  }

  /** The loop over getBackupFilesList: backup(localFileLoc, device) for each entry in order. */
  function BackupEntries(entries: seq<Entry>, device: string, disk: Disk, media: Media, world: World): (r: Run)
    decreases |entries|
    ensures AllBelow(r.actions, device)
  {
    if |entries| == 0 then Run([], media)
    else
      var path := entries[0].localFileLoc;
      var first := BackupEngine.Backup(disk(path), path, device, media, world);
      var rest := BackupEntries(entries[1..], device, disk, first.media, world);
      AllBelowConcat(first.actions, rest.actions, device);
      Run(first.actions + rest.actions, rest.media)
  }

  /** The plans of the entries' local paths, one after another. */
  function EntriesPlan(entries: seq<Entry>, device: string, disk: Disk): seq<Planned>
    decreases |entries|
  {
    if |entries| == 0 then []
    else Plan(disk(entries[0].localFileLoc), entries[0].localFileLoc, device) + EntriesPlan(entries[1..], device, disk)
  }

  /** What handleDeviceChangeNotif does on DBT_DEVICEARRIVAL, with the lists it leaves. */
  datatype Arrival =
    | NoManifest(lists: Lists)
    | ParseAborted(lists: Lists, lineIndex: nat)
    | BackedUp(lists: Lists, run: Run)

  /**
   The device arrival: `manifest` holds the lines of the device's `.autobackup` file, if
   it has one. When substr throws on a line the exception leaves the handler before any
   backup, with the lines before it already appended to the lists.
   */
  function OnArrival(lists: Lists, manifest: Option<seq<string>>, device: string, disk: Disk, media: Media, world: World): (a: Arrival)
    ensures manifest.None? <==> a.NoManifest?
    ensures a.NoManifest? ==> a.lists == lists
    ensures |lists.filesList| <= |a.lists.filesList| && a.lists.filesList[..|lists.filesList|] == lists.filesList
    ensures |lists.ignoredFilesList| <= |a.lists.ignoredFilesList|
         && a.lists.ignoredFilesList[..|lists.ignoredFilesList|] == lists.ignoredFilesList
  {
    match manifest
    case None => NoManifest(lists)
    case Some(lines) =>
      match ParseLines(lists, lines)
      case OutOfRange(partial, k) => ParseAborted(partial, k)
      case Parsed(parsed) => BackedUp(parsed, BackupEntries(parsed.filesList, device, disk, media, world))
  }

  /** The storage device after an arrival. */
  function MediaAfter(a: Arrival, media: Media): Media {
    if a.BackedUp? then a.run.media else media
  }

  // ---------------------------------------------------------------------------
  // The entry loop
  // ---------------------------------------------------------------------------

  lemma {:induction false} EntriesPlanOfConcat(a: seq<Entry>, b: seq<Entry>, device: string, disk: Disk)
    decreases |a|
    ensures EntriesPlan(a + b, device, disk) == EntriesPlan(a, device, disk) + EntriesPlan(b, device, disk)
  {
    if |a| == 0 {
      assert a + b == b;
    } else {
      assert (a + b)[0] == a[0];
      assert (a + b)[1..] == a[1..] + b;
      EntriesPlanOfConcat(a[1..], b, device, disk);
    }
  }

  /** Only the local location of an entry matters: its media location is never read. */
  lemma {:induction false} BackupReadsOnlyLocalPaths(a: seq<Entry>, b: seq<Entry>, device: string, disk: Disk, media: Media, world: World)
    decreases |a|
    requires LocalPaths(a) == LocalPaths(b)
    ensures BackupEntries(a, device, disk, media, world) == BackupEntries(b, device, disk, media, world)
  {
    if |a| > 0 {
      assert a[0].localFileLoc == LocalPaths(a)[0] == b[0].localFileLoc;
      assert LocalPaths(a[1..]) == LocalPaths(a)[1..];
      assert LocalPaths(b[1..]) == LocalPaths(b)[1..];
      var path := a[0].localFileLoc;
      BackupReadsOnlyLocalPaths(a[1..], b[1..], device, disk, BackupEngine.Backup(disk(path), path, device, media, world).media, world);
    }
  }

  /** The copy-or-skip decisions of the loop are the plans of the entries, in entry order. */
  lemma {:induction false} EntriesDecisionsFollowPlan(entries: seq<Entry>, device: string, disk: Disk, media: Media, world: World)
    decreases |entries|
    ensures Decisions(BackupEntries(entries, device, disk, media, world).actions) == Targets(EntriesPlan(entries, device, disk))
  {
    if |entries| > 0 {
      var path := entries[0].localFileLoc;
      var first := BackupEngine.Backup(disk(path), path, device, media, world);
      var rest := BackupEntries(entries[1..], device, disk, first.media, world);
      DecisionsFollowPlan(disk(path), path, device, media, world);
      EntriesDecisionsFollowPlan(entries[1..], device, disk, first.media, world);
      DecisionsOfConcat(first.actions, rest.actions);
      TargetsOfConcat(Plan(disk(path), path, device), EntriesPlan(entries[1..], device, disk));
    }
  }

  lemma {:induction false} BackupEntriesKeepsMedia(entries: seq<Entry>, device: string, disk: Disk, media: Media, world: World)
    decreases |entries|
    ensures Keeps(media, BackupEntries(entries, device, disk, media, world).media)
  {
    if |entries| > 0 {
      var path := entries[0].localFileLoc;
      var first := BackupEngine.Backup(disk(path), path, device, media, world);
      BackupKeepsMedia(disk(path), path, device, media, world);
      BackupEntriesKeepsMedia(entries[1..], device, disk, first.media, world);
      KeepsTransitive(media, first.media, BackupEntries(entries[1..], device, disk, first.media, world).media);
    }
  }

  /** The whole loop changes the device only at the paths some entry created or copied to. */
  lemma {:induction false} BackupEntriesChangesOnlyWritten(entries: seq<Entry>, device: string, disk: Disk, media: Media, world: World)
    decreases |entries|
    ensures var r := BackupEntries(entries, device, disk, media, world);
      ChangesOnly(media, r.media, Written(r.actions))
  {
    if |entries| > 0 {
      var path := entries[0].localFileLoc;
      var first := BackupEngine.Backup(disk(path), path, device, media, world);
      var rest := BackupEntries(entries[1..], device, disk, first.media, world);
      BackupChangesOnlyWritten(disk(path), path, device, media, world);
      BackupEntriesChangesOnlyWritten(entries[1..], device, disk, first.media, world);
      ChangesOnlyTransitive(media, first.media, rest.media, Written(first.actions), Written(rest.actions));
      WrittenOfConcat(first.actions, rest.actions);
    }
  }

  lemma {:induction false} SuccessfulEntriesLeavePlanUpToDate(entries: seq<Entry>, device: string, disk: Disk, media: Media, world: World)
    decreases |entries|
    requires AllCopiesSucceeded(BackupEntries(entries, device, disk, media, world).actions)
    ensures UpToDate(BackupEntries(entries, device, disk, media, world).media, EntriesPlan(entries, device, disk))
  {
    if |entries| > 0 {
      var path := entries[0].localFileLoc;
      var first := BackupEngine.Backup(disk(path), path, device, media, world);
      var rest := BackupEntries(entries[1..], device, disk, first.media, world);
      CopiesSucceededParts(first.actions, rest.actions);
      SuccessfulRunLeavesPlanUpToDate(disk(path), path, device, media, world);
      SuccessfulEntriesLeavePlanUpToDate(entries[1..], device, disk, first.media, world);
      BackupEntriesKeepsMedia(entries[1..], device, disk, first.media, world);
      UpToDateIsKept(first.media, rest.media, Plan(disk(path), path, device));
      UpToDateConcat(rest.media, Plan(disk(path), path, device), EntriesPlan(entries[1..], device, disk));
    }
  }

  lemma {:induction false} UpToDateEntriesCopyNothing(entries: seq<Entry>, device: string, disk: Disk, media: Media, world: World)
    decreases |entries|
    requires UpToDate(media, EntriesPlan(entries, device, disk))
    ensures NoCopies(BackupEntries(entries, device, disk, media, world).actions)
  {
    if |entries| > 0 {
      var path := entries[0].localFileLoc;
      var first := BackupEngine.Backup(disk(path), path, device, media, world);
      UpToDateParts(media, Plan(disk(path), path, device), EntriesPlan(entries[1..], device, disk));
      UpToDatePlanCopiesNothing(disk(path), path, device, media, world);
      BackupKeepsMedia(disk(path), path, device, media, world);
      UpToDateIsKept(media, first.media, EntriesPlan(entries[1..], device, disk));
      UpToDateEntriesCopyNothing(entries[1..], device, disk, first.media, world);
      NoCopiesConcat(first.actions, BackupEntries(entries[1..], device, disk, first.media, world).actions);
    }
  }

  // ---------------------------------------------------------------------------
  // Arrivals
  // ---------------------------------------------------------------------------

  lemma ConcatEmpty(l: Lists)
    ensures Concat(l, EMPTY) == l
  {
    assert l.filesList + [] == l.filesList;
    assert l.ignoredFilesList + [] == l.ignoredFilesList;
  }

  /**
   An arrival backs up exactly when the device's manifest parses on its own, and then
   backs up the entries of earlier arrivals first and the manifest's own after them;
   otherwise it stops at the line that throws. Either way the manifest's directives are
   appended to the lists. After a completed parse these are the lists the next arrival
   starts from; after an aborted one the exception escapes the handler, and whether the
   service goes on to a next arrival is outside this model.
   */
  lemma ArrivalReplaysAccumulatedEntries(lists: Lists, lines: seq<string>, device: string, disk: Disk, media: Media, world: World)
    ensures var a := OnArrival(lists, Some(lines), device, disk, media, world);
      var own := ParseLines(EMPTY, lines);
      && (a.BackedUp? <==> own.Parsed?)
      && (a.ParseAborted? <==> own.OutOfRange?)
      && a.lists == Concat(lists, own.lists)
      && (a.ParseAborted? ==> a.lineIndex == own.lineIndex)
      && (a.BackedUp? ==>
            Decisions(a.run.actions)
            == Targets(EntriesPlan(lists.filesList, device, disk)) + Targets(EntriesPlan(own.lists.filesList, device, disk)))
  {
    ConcatEmpty(lists);
    ParseOnPriorLists(lists, EMPTY, lines);
    var a := OnArrival(lists, Some(lines), device, disk, media, world);
    var own := ParseLines(EMPTY, lines);
    if a.BackedUp? {
      EntriesDecisionsFollowPlan(a.lists.filesList, device, disk, media, world);
      EntriesPlanOfConcat(lists.filesList, own.lists.filesList, device, disk);
      TargetsOfConcat(EntriesPlan(lists.filesList, device, disk), EntriesPlan(own.lists.filesList, device, disk));
    }
  }

  /**
   The neglected-files list does not take part in the backup: an arrival does the same
   whatever `-` lines were read before.
   */
  lemma NeglectedFilesAreNotConsulted(files: seq<Entry>, ignored: seq<string>, manifest: Option<seq<string>>,
                                      device: string, disk: Disk, media: Media, world: World)
    ensures var a1 := OnArrival(Lists(files, ignored), manifest, device, disk, media, world);
      var a2 := OnArrival(Lists(files, []), manifest, device, disk, media, world);
      && a1.lists.filesList == a2.lists.filesList
      && (a1.BackedUp? <==> a2.BackedUp?)
      && (a1.BackedUp? ==> a1.run == a2.run)
  {
    if manifest.Some? {
      ConcatEmpty(Lists(files, ignored));
      ConcatEmpty(Lists(files, []));
      ParseOnPriorLists(Lists(files, ignored), EMPTY, manifest.value);
      ParseOnPriorLists(Lists(files, []), EMPTY, manifest.value);
    }
  }

  /**
   The same device arriving again with the same manifest, after an arrival in which
   every copy succeeded and with the local disk unchanged, copies nothing, although its
   directives are now on the lists twice.
   */
  lemma RepeatedArrivalCopiesNothing(lists: Lists, lines: seq<string>, device: string, disk: Disk,
                                     media: Media, world: World, world2: World)
    requires var first := OnArrival(lists, Some(lines), device, disk, media, world);
      first.BackedUp? ==> AllCopiesSucceeded(first.run.actions)
    ensures var first := OnArrival(lists, Some(lines), device, disk, media, world);
      var second := OnArrival(first.lists, Some(lines), device, disk, MediaAfter(first, media), world2);
      var own := ParseLines(EMPTY, lines).lists;
      && (second.BackedUp? <==> first.BackedUp?)
      && second.lists == Concat(Concat(lists, own), own)
      && (second.BackedUp? ==> NoCopies(second.run.actions))
  {
    var first := OnArrival(lists, Some(lines), device, disk, media, world);
    ArrivalReplaysAccumulatedEntries(lists, lines, device, disk, media, world);
    ArrivalReplaysAccumulatedEntries(first.lists, lines, device, disk, MediaAfter(first, media), world2);
    var second := OnArrival(first.lists, Some(lines), device, disk, MediaAfter(first, media), world2);
    if second.BackedUp? {
      var own := ParseLines(EMPTY, lines).lists.filesList;
      var once := first.lists.filesList;
      assert once == lists.filesList + own;
      SuccessfulEntriesLeavePlanUpToDate(once, device, disk, media, world);
      var m1 := first.run.media;
      EntriesPlanOfConcat(lists.filesList, own, device, disk);
      UpToDateParts(m1, EntriesPlan(lists.filesList, device, disk), EntriesPlan(own, device, disk));
      EntriesPlanOfConcat(once, own, device, disk);
      UpToDateConcat(m1, EntriesPlan(once, device, disk), EntriesPlan(own, device, disk));
      UpToDateEntriesCopyNothing(second.lists.filesList, device, disk, m1, world2);
    }
  }
}
