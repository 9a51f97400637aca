/** The `odm_list` command (odm/libexec/odm_list.py, `main`): for a drive
    snapshot it downloads, verifies, lists, uploads or verifies the upload
    of every file item that passes its filter, or removes from a local
    file tree the files the snapshot does not name.  The local file system,
    the download call and the Microsoft 365 objects are values given in a
    `World`. */
module OdmList {
  import opened Wrappers
  import opened Bits
  import opened Metadata
  import opened OneDrive
  import opened OdmListOptions
  import U = OdmListUpload

  /** What the action argument selects: one of the eight actions main
      tests for (lines 34, 38, 273), or any other name, which it refuses. */
  datatype Action =
    | ConvertNotebooks | Download | DownloadEstimate | ListFilenames | Upload | Verify | VerifyUpload
    | CleanFiletree | Unsupported(name: string)

  const ActionNames: seq<string> :=
    ["convert-notebooks", "download", "download-estimate", "list-filenames",
     "upload", "verify", "verify-upload", "clean-filetree"]

  /** The name an action is given on the command line. */
  function ActionName(a: Action): (r: string)
    ensures !a.Unsupported? ==> r in ActionNames
  {
    match a
    case ConvertNotebooks => "convert-notebooks"
    case Download => "download"
    case DownloadEstimate => "download-estimate"
    case ListFilenames => "list-filenames"
    case Upload => "upload"
    case Verify => "verify"
    case VerifyUpload => "verify-upload"
    case CleanFiletree => "clean-filetree"
    case Unsupported(name) => name
  }

  /** The action main takes for a name: a supported name selects its
      action, and every other name is unsupported. */
  function ParseAction(name: string): (a: Action)
    ensures a.Unsupported? <==> name !in ActionNames
    ensures ActionName(a) == name
  {
    if name == "convert-notebooks" then ConvertNotebooks
    else if name == "download" then Download
    else if name == "download-estimate" then DownloadEstimate
    else if name == "list-filenames" then ListFilenames
    else if name == "upload" then Upload
    else if name == "verify" then Verify
    else if name == "verify-upload" then VerifyUpload
    else if name == "clean-filetree" then CleanFiletree
    else Unsupported(name)
  }

  /** Every action main distinguishes is reached by exactly its own name. */
  lemma ParseActionName(a: Action)
    requires a.Unsupported? ==> a.name !in ActionNames
    ensures ParseAction(ActionName(a)) == a
  {
  }

  /** The command line. */
  datatype Options = Options(
    filetree: Option<string>,
    uploadUser: Option<string>,
    uploadGroup: Option<string>,
    uploadPath: Option<string>,
    domainMap: Option<string>,
    limit: Option<string>,
    /** The lines of the --exclude file, when the option is given. */
    exclude: Option<seq<string>>,
    diff: Option<string>,
    /** The action argument as given. */
    action: string)

  /** Everything the command reads besides its options. */
  datatype World = World(
    /** The keys of metadata['items'] in iteration order. */
    order: seq<ItemId>,
    items: Items,
    /** config['domain']. */
    domain: string,
    /** The local files, by path. */
    fs: map<string, seq<Byte>>,
    /** download_file(drive id, item id, dest) at the given attempt (1, 2 or 3). */
    download: (string, ItemId, string, nat) -> Option<string>,
    /** The drive of a user or group, where one is found. */
    driveOf: U.Container -> Option<U.Handle>,
    /** drive.root. */
    rootOf: U.Handle -> Option<U.Handle>,
    lib: U.Library,
    /** The files under --filetree, as os.walk yields them: the directory
        relative to the tree (os.path.relpath) and the file name. */
    tree: seq<(string, string)>)

  // ---------------------------------------------------------------------------
  // The filter (lines 84-107)

  /** How the filter treats an item: skipped for one of four reasons,
      selected with its path, a KeyError from expand_path, or the
      UnicodeDecodeError of testing a unicode path against a --limit byte
      string with a non-ASCII byte (line 96).  expand_path returns a
      unicode string when it collected some names and the byte string "/"
      for an item without a parent id (odm/onedriveclient.py:101-104), so
      only an item with a parent can raise there. */
  datatype Selection =
    | NotAFile | Excluded | OutsideLimit | Malware | Selected(path: string)
    | PathKeyError | LimitDecodeError

  ghost function Select(items: Items, id: ItemId, exclude: seq<string>, limit: Option<string>): Selection
    requires AllTerminate(items)
  {
    if id !in items || items[id].file.None? then NotAFile
    else
      match PathOf(items, id, false)
      case None => PathKeyError
      case Some(path) =>
        if Ascii(path) && path in exclude then Excluded
        else if Truthy(limit) && !Ascii(limit.value) && items[id].parent.Some? then LimitDecodeError
        else if Truthy(limit) && !(limit.value <= path) then OutsideLimit
        else if items[id].malware then Malware
        else Selected(path)
  }

  /** An item is selected exactly when it is a file, its path expands, is
      not excluded (an exclude line equals the unicode path only when the
      path is ASCII), starts with the limit (when one is given, and ASCII),
      and it is not tagged as malware; a non-ASCII limit raises for every
      file with a parent whose path expands and is not excluded. */
  lemma SelectedIff(items: Items, id: ItemId, exclude: seq<string>, limit: Option<string>, path: string)
    requires AllTerminate(items)
    ensures Select(items, id, exclude, limit) == Selected(path)
            <==> id in items && items[id].file.Some? && PathOf(items, id, false) == Some(path)
                 && !(Ascii(path) && path in exclude) && (Truthy(limit) ==> Ascii(limit.value) && limit.value <= path)
                 && !items[id].malware
    ensures Select(items, id, exclude, limit) == LimitDecodeError
            <==> id in items && items[id].file.Some? && PathOf(items, id, false).Some?
                 && !(Ascii(PathOf(items, id, false).value) && PathOf(items, id, false).value in exclude)
                 && Truthy(limit) && !Ascii(limit.value) && items[id].parent.Some?
  {
  }

  /** The item's declared QuickXorHash (lines 111-113): None where 'hashes'
      lacks 'quickXorHash' (KeyError), Some(None) without 'hashes'. */
  function DeclaredHash(f: FileFacet): (r: Option<Option<string>>)
    ensures r.None? <==> f.hashes.Some? && "quickXorHash" !in f.hashes.value
    ensures r.Some? && r.value.Some? ==> f.hashes.Some? && f.hashes.value["quickXorHash"] == r.value.value
  {
    if f.hashes.None? then Some(None)
    else if "quickXorHash" in f.hashes.value then Some(Some(f.hashes.value["quickXorHash"]))
    else None
  }

  /** The file-system-safe path exists exactly when the plain one does. */
  lemma SafePathExists(items: Items, id: ItemId)
    requires Terminates(items, id)
    ensures PathOf(items, id, true).None? <==> PathOf(items, id, false).None?
  {
  }

  // ---------------------------------------------------------------------------
  // Download with retry (lines 129-143)

  /** A download result the loop keeps: a result, equal to the declared
      digest when there is one. */
  predicate Accepted(result: Option<string>, digest: Option<string>)
  {
    result.Some? && (!Truthy(digest) || result == digest)
  }

  /** All three attempts are rejected. */
  predicate DownloadFails(download: nat -> Option<string>, digest: Option<string>)
  {
    forall k :: 1 <= k <= 3 ==> !Accepted(download(k), digest)
  }

  /** Up to three attempts, stopping at the first accepted result; None
      when none is accepted. */
  method DownloadWithRetry(download: nat -> Option<string>, digest: Option<string>)
    returns (result: Option<string>, attempts: nat)
    ensures 1 <= attempts <= 3
    ensures forall k :: 1 <= k < attempts ==> !Accepted(download(k), digest)
    ensures result.Some? ==> Accepted(download(attempts), digest) && result == download(attempts)
    ensures result.None? ==> attempts == 3
    ensures result.None? <==> DownloadFails(download, digest)
  {
    attempts := 0;
    result := None;
    while attempts < 3 && result.None?
      invariant 0 <= attempts <= 3
      invariant result.Some? ==> attempts >= 1 && Accepted(download(attempts), digest) && result == download(attempts)
      invariant forall k :: 1 <= k <= attempts && (result.None? || k < attempts) ==> !Accepted(download(k), digest)
      invariant attempts == 0 ==> result.None?
    {
      attempts := attempts + 1;
      result := download(attempts);
      if Truthy(digest) && result != digest {
        result := None;
      }
    }
  }

  // ---------------------------------------------------------------------------
  // One item (lines 85-262)

  /** The upload destination and the domain table of the upload actions. */
  datatype Target = Target(container: U.Container, uploadPath: U.UploadId, domainMap: map<string, string>)

  /** What the loop does with a selected item. */
  datatype ItemAction =
    | DownloadItems | EstimateItems | ListItems | VerifyItems
    | UploadItems(mode: U.Mode, target: Target)

  /** What is fixed for the whole item loop. */
  datatype Setup = Setup(action: ItemAction, exclude: seq<string>, limit: Option<string>,
                         diff: Option<string>, destdir: string)

  /** The running totals: the size and count of the items worked on, the
      items worked on with their sizes, the paths printed, and the upload
      pass (the snapshot, the upload_ids, the remote calls, and whether
      retval has been set to 1). */
  datatype Tally = Tally(size: int, count: nat, worked: seq<(ItemId, int)>, printed: seq<string>, pass: U.Pass)

  function Flagged(t: Tally): Tally
  {
    t.(pass := t.pass.(failed := true))
  }

  /** Lines 106-107: the item is counted. */
  function Counted(t: Tally, id: ItemId, size: int): Tally
  {
    t.(size := t.size + size, count := t.count + 1, worked := t.worked + [(id, size)])
  }

  /** The local copy of a selected item (line 109): the destination
      directory joined with the file-system-safe path. */
  ghost function DestOf(destdir: string, items: Items, id: ItemId): string
    requires Terminates(items, id) && PathOf(items, id, false).Some?
  {
    SafePathExists(items, id);
    destdir + "/" + PathOf(items, id, true).value
  }

  /** The verify_file arguments for a selected item: strict except when
      downloading. */
  function ArgsFor(s: Setup, dest: string, item: Item, digest: Option<string>): VerifyArgs
  {
    VerifyArguments(dest, item.size, digest, s.diff, !s.action.DownloadItems?)
  }

  /** The download of lines 123-150 leaves retval at 1: the local copy does
      not verify and no attempt is accepted. */
  predicate DownloadItemFails(w: World, id: ItemId, item: Item, dest: string, digest: Option<string>,
                              args: VerifyArgs)
  {
    !VerifyFile(w.fs, dest, args.size, args.fileHash, args.strict)
    && DownloadFails((k: nat) => w.download(item.driveId, id, dest, k), digest)
  }

  /** The verification of lines 152-157 leaves retval at 1. */
  predicate VerifyItemFails(w: World, dest: string, digest: Option<string>, args: VerifyArgs)
  {
    Truthy(digest) && !VerifyFile(w.fs, dest, args.size, args.fileHash, args.strict)
  }

  /** The item raises before its action: its path does not expand, the
      --limit is not ASCII and the path is unicode, or, once it is
      selected, the destination directory is not ASCII and the path is
      unicode (the join of line 109), or its 'hashes' lack 'quickXorHash'. */
  ghost predicate Raises(s: Setup, items: Items, id: ItemId)
    requires AllTerminate(items)
  {
    match Select(items, id, s.exclude, s.limit)
    case PathKeyError => true
    case LimitDecodeError => true
    case Selected(_) => (items[id].parent.Some? && !Ascii(s.destdir)) || DeclaredHash(items[id].file.value).None?
    case _ => false
  }

  /** A file without a parent id has the byte-string path "/", so neither
      --limit nor the destination directory can make it raise: it raises
      only when it is selected and its 'hashes' lack 'quickXorHash'. */
  lemma ParentlessFileRaises(s: Setup, items: Items, id: ItemId)
    requires AllTerminate(items) && id in items && items[id].parent.None?
    ensures Raises(s, items, id)
            <==> Select(items, id, s.exclude, s.limit).Selected? && DeclaredHash(items[id].file.value).None?
  {
    RootPath(items, id, false);
  }

  /** A download or verify action sets retval to 1 for this item. */
  ghost predicate ItemFails(s: Setup, w: World, items: Items, id: ItemId)
    requires AllTerminate(items)
  {
    match Select(items, id, s.exclude, s.limit)
    case Selected(_) =>
      var item := items[id];
      var declared := DeclaredHash(item.file.value);
      && declared.Some?
      && var dest := DestOf(s.destdir, items, id);
         var args := ArgsFor(s, dest, item, declared.value);
         (match s.action
          case DownloadItems => DownloadItemFails(w, id, item, dest, declared.value, args)
          case VerifyItems => VerifyItemFails(w, dest, declared.value, args)
          case _ => false)
    case _ => false
  }

  /** One pass of the item loop; None where it raises. */
  ghost function ItemOutcome(s: Setup, w: World, t: Tally, id: ItemId): (r: Option<Tally>)
    requires AllTerminate(t.pass.items)
    ensures r.Some? ==> AllTerminate(r.value.pass.items)
  {
    match Select(t.pass.items, id, s.exclude, s.limit)
    case PathKeyError => None
    case LimitDecodeError => None
    case Selected(path) => SelectedOutcome(s, w, t, id, path)
    case _ => Some(t)
  }

  /** Lines 106-262 for a selected item. */
  ghost function SelectedOutcome(s: Setup, w: World, t: Tally, id: ItemId, path: string): (r: Option<Tally>)
    requires AllTerminate(t.pass.items) && Select(t.pass.items, id, s.exclude, s.limit) == Selected(path)
    ensures r.Some? ==> AllTerminate(r.value.pass.items)
    ensures r.Some? ==> var size := t.pass.items[id].size;
                        && r.value.worked == t.worked + [(id, size)]
                        && r.value.count == t.count + 1 && r.value.size == t.size + size
  {
    var items := t.pass.items;
    var item := items[id];
    var declared := DeclaredHash(item.file.value);
    if (item.parent.Some? && !Ascii(s.destdir)) || declared.None? then None
    else
      var counted := Counted(t, id, item.size);
      match s.action
      case UploadItems(mode, target) =>
        var job := U.Job(mode, DestOf(s.destdir, items, id), target.container, w.lib, target.domainMap);
        (match U.UploadOutcome(job, counted.pass, id, target.uploadPath)
         case None => None
         case Some(p) => Some(counted.(pass := p)))
      case ListItems => Some(counted.(printed := counted.printed + [path]))
      case _ => Some(if ItemFails(s, w, items, id) then Flagged(counted) else counted)
  }

  method ProcessItem(s: Setup, w: World, t: Tally, id: ItemId) returns (r: Option<Tally>)
    requires AllTerminate(t.pass.items)
    ensures r == ItemOutcome(s, w, t, id)
  {
    var items := t.pass.items;
    if id !in items || items[id].file.None? {
      return Some(t);
    }
    var itemPath := ExpandPath(id, items, false);
    if itemPath.None? {
      return None;
    }
    var path := itemPath.value;
    if Ascii(path) && path in s.exclude {
      return Some(t);
    }
    if Truthy(s.limit) && !Ascii(s.limit.value) && items[id].parent.Some? {
      return None;
    }
    if Truthy(s.limit) && !(s.limit.value <= path) {
      return Some(t);
    }
    if items[id].malware {
      return Some(t);
    }
    r := WorkOn(s, w, t, id, path);
  }

  method WorkOn(s: Setup, w: World, t: Tally, id: ItemId, path: string) returns (r: Option<Tally>)
    requires AllTerminate(t.pass.items) && Select(t.pass.items, id, s.exclude, s.limit) == Selected(path)
    ensures r == SelectedOutcome(s, w, t, id, path)
  {
    var items := t.pass.items;
    var item := items[id];
    var counted := Counted(t, id, item.size);
    SafePathExists(items, id);
    var safe := ExpandPath(id, items, true);
    if item.parent.Some? && !Ascii(s.destdir) {
      return None;
    }
    var dest := s.destdir + "/" + safe.value;
    var declared := DeclaredHash(item.file.value);
    if declared.None? {
      return None;
    }
    var digest := declared.value;
    var args := ArgsFor(s, dest, item, digest);
    r := Some(counted);
    match s.action {
      case DownloadItems =>
        if !VerifyFile(w.fs, dest, args.size, args.fileHash, args.strict) {
          var result, attempts := DownloadWithRetry((k: nat) => w.download(item.driveId, id, dest, k), digest);
          if result.None? {
            r := Some(Flagged(counted));
          }
        }
      case VerifyItems =>
        if Truthy(digest) && !VerifyFile(w.fs, dest, args.size, args.fileHash, args.strict) {
          r := Some(Flagged(counted));
        }
      case UploadItems(mode, target) =>
        var job := U.Job(mode, dest, target.container, w.lib, target.domainMap);
        var p := U.UploadItem(job, counted.pass, id, target.uploadPath);
        if p.None? {
          return None;
        }
        r := Some(counted.(pass := p.value));
      case ListItems =>
        r := Some(counted.(printed := counted.printed + [path]));
      case EstimateItems =>
    }
  }

  /** The item loop over the snapshot's keys in order. */
  ghost function RunOutcome(s: Setup, w: World, t: Tally, order: seq<ItemId>): (r: Option<Tally>)
    requires AllTerminate(t.pass.items)
    ensures r.Some? ==> AllTerminate(r.value.pass.items)
    decreases |order|
  {
    if order == [] then Some(t)
    else
      match ItemOutcome(s, w, t, order[0])
      case None => None
      case Some(next) => RunOutcome(s, w, next, order[1..])
  }

  /** Line 84: `for item_id in metadata['items']`. */
  method RunItems(s: Setup, w: World, t: Tally, order: seq<ItemId>) returns (r: Option<Tally>)
    requires AllTerminate(t.pass.items)
    ensures r == RunOutcome(s, w, t, order)
  {
    var cur := t;
    for i := 0 to |order|
      invariant AllTerminate(cur.pass.items)
      invariant RunOutcome(s, w, cur, order[i..]) == RunOutcome(s, w, t, order)
    {
      assert order[i..][1..] == order[i + 1..];
      var next := ProcessItem(s, w, cur, order[i]);
      if next.None? {
        return None;
      }
      cur := next.value;
    }
    assert order[|order|..] == [];
    return Some(cur);
  }

  // ---------------------------------------------------------------------------
  // What the item loop adds up to

  /** The total of the sizes. */
  function SizeSum(worked: seq<(ItemId, int)>): int
    decreases |worked|
  {
    if worked == [] then 0 else SizeSum(worked[..|worked| - 1]) + worked[|worked| - 1].1
  }

  /** The size and count the log line reports (line 271) agree with the
      items worked on. */
  predicate Consistent(t: Tally)
  {
    t.count == |t.worked| && t.size == SizeSum(t.worked)
  }

  lemma ItemConsistent(s: Setup, w: World, t: Tally, id: ItemId)
    requires AllTerminate(t.pass.items) && Consistent(t)
    ensures ItemOutcome(s, w, t, id).Some? ==> Consistent(ItemOutcome(s, w, t, id).value)
  {
    match Select(t.pass.items, id, s.exclude, s.limit)
    case Selected(path) =>
      var r := SelectedOutcome(s, w, t, id, path);
      if r.Some? {
        var worked := r.value.worked;
        assert worked[..|worked| - 1] == t.worked;
      }
    case _ =>
  }

  /** Every action keeps the size and count in step with the items worked on. */
  lemma {:induction false} RunConsistent(s: Setup, w: World, t: Tally, order: seq<ItemId>)
    requires AllTerminate(t.pass.items) && Consistent(t)
    ensures RunOutcome(s, w, t, order).Some? ==> Consistent(RunOutcome(s, w, t, order).value)
    decreases |order|
  {
    if order != [] {
      ItemConsistent(s, w, t, order[0]);
      var next := ItemOutcome(s, w, t, order[0]);
      if next.Some? {
        RunConsistent(s, w, next.value, order[1..]);
      }
    }
  }

  /** The item with its size when it is selected. */
  ghost function WorkedOne(s: Setup, items: Items, id: ItemId): seq<(ItemId, int)>
    requires AllTerminate(items)
  {
    if Select(items, id, s.exclude, s.limit).Selected? then [(id, items[id].size)] else []
  }

  /** The item's path when it is selected. */
  ghost function ListedOne(s: Setup, items: Items, id: ItemId): seq<string>
    requires AllTerminate(items)
  {
    match Select(items, id, s.exclude, s.limit)
    case Selected(p) => [p]
    case _ => []
  }

  /** The selected items with their sizes, in order. */
  ghost function Worked(s: Setup, items: Items, order: seq<ItemId>): seq<(ItemId, int)>
    requires AllTerminate(items)
    decreases |order|
  {
    if order == [] then [] else WorkedOne(s, items, order[0]) + Worked(s, items, order[1..])
  }

  /** The paths of the selected items, in order. */
  ghost function Listed(s: Setup, items: Items, order: seq<ItemId>): seq<string>
    requires AllTerminate(items)
    decreases |order|
  {
    if order == [] then [] else ListedOne(s, items, order[0]) + Listed(s, items, order[1..])
  }

  ghost predicate AnyRaises(s: Setup, items: Items, order: seq<ItemId>)
    requires AllTerminate(items)
  {
    exists k :: 0 <= k < |order| && Raises(s, items, order[k])
  }

  ghost predicate AnyFails(s: Setup, w: World, items: Items, order: seq<ItemId>)
    requires AllTerminate(items)
  {
    exists k :: 0 <= k < |order| && ItemFails(s, w, items, order[k])
  }

  /** Outside the upload actions an item changes nothing but the totals,
      the printed paths and retval. */
  lemma ItemReadOnly(s: Setup, w: World, t: Tally, id: ItemId)
    requires AllTerminate(t.pass.items) && !s.action.UploadItems?
    ensures ItemOutcome(s, w, t, id).None? <==> Raises(s, t.pass.items, id)
    ensures ItemOutcome(s, w, t, id).Some? ==>
              var r := ItemOutcome(s, w, t, id).value;
              && r.pass == t.pass.(failed := t.pass.failed || ItemFails(s, w, t.pass.items, id))
              && r.worked == t.worked + WorkedOne(s, t.pass.items, id)
              && r.printed == t.printed + (if s.action.ListItems? then ListedOne(s, t.pass.items, id) else [])
  {
    var items := t.pass.items;
    if !Select(items, id, s.exclude, s.limit).Selected? {
      assert t.worked + [] == t.worked && t.printed + [] == t.printed;
    }
  }

  lemma AnyCons(s: Setup, w: World, items: Items, order: seq<ItemId>)
    requires AllTerminate(items) && order != []
    ensures AnyRaises(s, items, order) <==> Raises(s, items, order[0]) || AnyRaises(s, items, order[1..])
    ensures AnyFails(s, w, items, order) <==> ItemFails(s, w, items, order[0]) || AnyFails(s, w, items, order[1..])
  {
    var rest := order[1..];
    assert forall k :: 0 <= k < |rest| ==> rest[k] == order[k + 1];
    if AnyRaises(s, items, order) {
      var k :| 0 <= k < |order| && Raises(s, items, order[k]);
      if k > 0 {
        assert Raises(s, items, rest[k - 1]);
      }
    }
    if AnyFails(s, w, items, order) {
      var k :| 0 <= k < |order| && ItemFails(s, w, items, order[k]);
      if k > 0 {
        assert ItemFails(s, w, items, rest[k - 1]);
      }
    }
  }

  /** The download, download-estimate, list-filenames and verify loops
      raise exactly when some item raises. */
  lemma {:induction false} RunReadOnlyRaises(s: Setup, w: World, t: Tally, order: seq<ItemId>)
    requires AllTerminate(t.pass.items) && !s.action.UploadItems?
    ensures RunOutcome(s, w, t, order).None? <==> AnyRaises(s, t.pass.items, order)
    decreases |order|
  {
    var items := t.pass.items;
    if order == [] {
      assert !AnyRaises(s, items, order);
    } else {
      ItemReadOnly(s, w, t, order[0]);
      AnyCons(s, w, items, order);
      var next := ItemOutcome(s, w, t, order[0]);
      if next.Some? {
        RunReadOnlyRaises(s, w, next.value, order[1..]);
      }
    }
  }

  /** Otherwise they leave the snapshot alone, make no remote call and set
      retval to 1 exactly when some selected item fails, ... */
  lemma {:induction false} RunReadOnlyPass(s: Setup, w: World, t: Tally, order: seq<ItemId>)
    requires AllTerminate(t.pass.items) && !s.action.UploadItems?
    requires RunOutcome(s, w, t, order).Some?
    ensures RunOutcome(s, w, t, order).value.pass
            == t.pass.(failed := t.pass.failed || AnyFails(s, w, t.pass.items, order))
    decreases |order|
  {
    var items := t.pass.items;
    if order == [] {
      assert !AnyFails(s, w, items, order);
    } else {
      ItemReadOnly(s, w, t, order[0]);
      var n := ItemOutcome(s, w, t, order[0]).value;
      RunReadOnlyStep(s, w, t, order, n);
      RunReadOnlyPass(s, w, n, order[1..]);
      AnyCons(s, w, items, order);
    }
  }

  /** ... work on the selected items in order ... */
  lemma {:induction false} RunReadOnlyWorked(s: Setup, w: World, t: Tally, order: seq<ItemId>)
    requires AllTerminate(t.pass.items) && !s.action.UploadItems?
    requires RunOutcome(s, w, t, order).Some?
    ensures RunOutcome(s, w, t, order).value.worked == t.worked + Worked(s, t.pass.items, order)
    decreases |order|
  {
    var items := t.pass.items;
    if order == [] {
      ConcatNothing(t.worked);
    } else {
      ItemReadOnly(s, w, t, order[0]);
      var n := ItemOutcome(s, w, t, order[0]).value;
      RunReadOnlyStep(s, w, t, order, n);
      RunReadOnlyWorked(s, w, n, order[1..]);
      var one, more := WorkedOne(s, items, order[0]), Worked(s, items, order[1..]);
      assert n.worked == t.worked + one;
      assert RunOutcome(s, w, t, order).value.worked == n.worked + more;
      ConcatAssoc(t.worked, one, more);
    }
  }

  /** ... and print their paths (list-filenames only). */
  lemma {:induction false} RunReadOnlyPrinted(s: Setup, w: World, t: Tally, order: seq<ItemId>)
    requires AllTerminate(t.pass.items) && !s.action.UploadItems?
    requires RunOutcome(s, w, t, order).Some?
    ensures RunOutcome(s, w, t, order).value.printed
            == t.printed + (if s.action.ListItems? then Listed(s, t.pass.items, order) else [])
    decreases |order|
  {
    var items := t.pass.items;
    if order == [] {
      ConcatNothing(t.printed);
    } else {
      ItemReadOnly(s, w, t, order[0]);
      var n := ItemOutcome(s, w, t, order[0]).value;
      RunReadOnlyStep(s, w, t, order, n);
      RunReadOnlyPrinted(s, w, n, order[1..]);
      var r := RunOutcome(s, w, t, order).value;
      if s.action.ListItems? {
        var one, more := ListedOne(s, items, order[0]), Listed(s, items, order[1..]);
        assert n.printed == t.printed + one;
        assert r.printed == n.printed + more;
        ConcatAssoc(t.printed, one, more);
      } else {
        ConcatNothing(t.printed);
        ConcatNothing(n.printed);
      }
    }
  }

  lemma ConcatAssoc<T>(a: seq<T>, b: seq<T>, c: seq<T>)
    ensures a + b + c == a + (b + c)
  {
  }

  lemma ConcatNothing<T>(a: seq<T>)
    ensures a + [] == a
  {
  }

  lemma RunReadOnlyStep(s: Setup, w: World, t: Tally, order: seq<ItemId>, n: Tally)
    requires AllTerminate(t.pass.items) && order != [] && ItemOutcome(s, w, t, order[0]) == Some(n)
    ensures AllTerminate(n.pass.items)
    ensures RunOutcome(s, w, t, order) == RunOutcome(s, w, n, order[1..])
  {
  }

  // ---------------------------------------------------------------------------
  // Upload setup (lines 44-79)

  /** Descending --upload-path from the drive root (lines 67-70): the folder
      reached (None once a folder is missing) and the get_folder calls made;
      None where get_folder raises. */
  function Descend(lib: U.Library, start: U.UploadId, toks: seq<string>, create: bool)
    : (r: Option<(U.UploadId, seq<U.Call>)>)
    requires start.Object? || start.NoneValue?
    ensures r.Some? ==> r.value.0.Object? || r.value.0.NoneValue?
    ensures r.Some? ==> |r.value.1| <= |toks|
    ensures r.Some? ==> forall c :: c in r.value.1 ==> c.GetFolder? && c.create == create && c.name in toks
    decreases |toks|
  {
    if toks == [] then Some((start, []))
    else if start.NoneValue? then Descend(lib, start, toks[1..], create)
    else
      var call := U.GetFolder(start.h, toks[0], create);
      var next := match lib.getFolder(start.h, toks[0], create)
                  case Got(h) => Some(U.Object(h))
                  case GotNone => Some(U.NoneValue)
                  case RaisesTypeError => None;
      if next.None? then None
      else Prefixed([call], Descend(lib, next.value, toks[1..], create))
  }

  function Prefixed(calls: seq<U.Call>, r: Option<(U.UploadId, seq<U.Call>)>): Option<(U.UploadId, seq<U.Call>)>
  {
    match r
    case None => None
    case Some((u, more)) => Some((u, calls + more))
  }

  /** Once a folder on the path is missing, the rest of the path is not
      looked up: nothing is called and nothing is found. */
  lemma {:induction false} DescendFromMissing(lib: U.Library, toks: seq<string>, create: bool)
    ensures Descend(lib, U.NoneValue, toks, create) == Some((U.NoneValue, []))
    decreases |toks|
  {
    if toks != [] {
      DescendFromMissing(lib, toks[1..], create);
    }
  }

  lemma DescendFolder(lib: U.Library, h: U.Handle, toks: seq<string>, create: bool)
    requires toks != []
    ensures Descend(lib, U.Object(h), toks, create)
            == match lib.getFolder(h, toks[0], create)
               case RaisesTypeError => None
               case Got(g) => Prefixed([U.GetFolder(h, toks[0], create)], Descend(lib, U.Object(g), toks[1..], create))
               case GotNone => Prefixed([U.GetFolder(h, toks[0], create)], Descend(lib, U.NoneValue, toks[1..], create))
  {
  }

  lemma PrefixedTwice(a: seq<U.Call>, b: seq<U.Call>, r: Option<(U.UploadId, seq<U.Call>)>)
    ensures Prefixed(a, Prefixed(b, r)) == Prefixed(a + b, r)
  {
    if r.Some? {
      assert a + (b + r.value.1) == a + b + r.value.1;
    }
  }

  method DescendPath(lib: U.Library, start: U.UploadId, toks: seq<string>, create: bool)
    returns (r: Option<(U.UploadId, seq<U.Call>)>)
    requires start.Object? || start.NoneValue?
    ensures r == Descend(lib, start, toks, create)
  {
    var cur := start;
    var calls: seq<U.Call> := [];
    assert toks[0..] == toks;
    ghost var whole := Descend(lib, cur, toks, create);
    assert Prefixed(calls, whole) == whole by {
      if whole.Some? {
        assert [] + whole.value.1 == whole.value.1;
      }
    }
    for i := 0 to |toks|
      invariant cur.Object? || cur.NoneValue?
      invariant Prefixed(calls, Descend(lib, cur, toks[i..], create)) == Descend(lib, start, toks, create)
    {
      assert toks[i..][1..] == toks[i + 1..];
      if cur.Object? {
        DescendFolder(lib, cur.h, toks[i..], create);
        var reply := lib.getFolder(cur.h, toks[i], create);
        var call := U.GetFolder(cur.h, toks[i], create);
        if reply.RaisesTypeError? {
          return None;
        }
        var next := if reply.Got? then U.Object(reply.h) else U.NoneValue;
        PrefixedTwice(calls, [call], Descend(lib, next, toks[i + 1..], create));
        cur := next;
        calls := calls + [call];
      }
    }
    assert toks[|toks|..] == [];
    PrefixedTwice(calls, [], Some((cur, [])));
    assert calls + [] == calls;
    return Some((cur, calls));
  }

  /** Where the upload setup leaves the command: ready, with the target
      and the calls made; exited with status 1; or raising. */
  datatype Config = Configured(target: Target, calls: seq<U.Call>) | ConfigExit | ConfigCrash

  /** `'{}@{}'.format(name, domain)`. */
  function Upn(name: string, domain: string): string
  {
    name + "@" + domain
  }

  /** Lines 44-79: the user, else the group (else exit 1); its drive (else
      exit 1); the drive root; the --upload-path folders, created when
      uploading; exit 1 when verify-upload finds no folder; the domain map
      (raising on a malformed one). */
  function UploadConfig(opts: Options, w: World, mode: U.Mode): Config
  {
    if !Truthy(opts.uploadUser) && !Truthy(opts.uploadGroup) then ConfigExit
    else
      var container := if Truthy(opts.uploadUser) then U.User(Upn(opts.uploadUser.value, w.domain))
                       else U.Group(Upn(opts.uploadGroup.value, w.domain));
      match w.driveOf(container)
      case None => ConfigExit
      case Some(drive) =>
        var root := match w.rootOf(drive) case Some(h) => U.Object(h) case None => U.NoneValue;
        var descent := if Truthy(opts.uploadPath) then Descend(w.lib, root, Split(opts.uploadPath.value, '/'), mode.Upload?)
                       else Some((root, []));
        if descent.None? then ConfigCrash
        else if mode.VerifyUpload? && !descent.value.0.Object? then ConfigExit
        else
          var domainMap := if Truthy(opts.domainMap) then DomainMapOf(Split(Lower(opts.domainMap.value), ','))
                           else Some(map[]);
          if domainMap.None? then ConfigCrash
          else Configured(Target(container, descent.value.0, domainMap.value), descent.value.1)
  }

  /** The setup exits without a user or group to upload to, and without a
      drive for it; verify-upload only proceeds with an existing folder and
      never asks for one to be created. */
  lemma UploadConfigExits(opts: Options, w: World, mode: U.Mode)
    ensures !Truthy(opts.uploadUser) && !Truthy(opts.uploadGroup) ==> UploadConfig(opts, w, mode) == ConfigExit
    ensures UploadConfig(opts, w, mode).Configured? ==>
              var c := UploadConfig(opts, w, mode);
              && w.driveOf(c.target.container).Some?
              && (mode.VerifyUpload? ==> c.target.uploadPath.Object?)
              && (forall call :: call in c.calls ==> call.GetFolder? && call.create == mode.Upload?)
  {
  }

  method ConfigureUpload(opts: Options, w: World, mode: U.Mode) returns (r: Config)
    ensures r == UploadConfig(opts, w, mode)
  {
    var container;
    if Truthy(opts.uploadUser) {
      container := U.User(Upn(opts.uploadUser.value, w.domain));
    } else if Truthy(opts.uploadGroup) {
      container := U.Group(Upn(opts.uploadGroup.value, w.domain));
    } else {
      return ConfigExit;
    }
    var drive := w.driveOf(container);
    if drive.None? {
      return ConfigExit;
    }
    var uploadPath := match w.rootOf(drive.value) case Some(h) => U.Object(h) case None => U.NoneValue;
    var calls: seq<U.Call> := [];
    if Truthy(opts.uploadPath) {
      var descent := DescendPath(w.lib, uploadPath, Split(opts.uploadPath.value, '/'), mode.Upload?);
      if descent.None? {
        return ConfigCrash;
      }
      uploadPath, calls := descent.value.0, descent.value.1;
    }
    if mode.VerifyUpload? && !uploadPath.Object? {
      return ConfigExit;
    }
    var domainMap := ParseDomainMap(opts.domainMap);
    if domainMap.None? {
      return ConfigCrash;
    }
    return Configured(Target(container, uploadPath, domainMap.value), calls);
  }

  // ---------------------------------------------------------------------------
  // clean-filetree (lines 273-284)

  /** The file-system-safe paths of the snapshot's files (line 274); None
      where one of them raises. */
  ghost function FullPathsOf(items: Items, order: seq<ItemId>): Option<seq<string>>
    requires AllTerminate(items)
    decreases |order|
  {
    if order == [] then Some([])
    else
      var rest := FullPathsOf(items, order[1..]);
      var id := order[0];
      if id !in items || items[id].file.None? then rest
      else if PathOf(items, id, true).None? || rest.None? then None
      else Some([PathOf(items, id, true).value] + rest.value)
  }

  /** A file of the snapshot, named by a key. */
  ghost predicate FileIn(items: Items, order: seq<ItemId>, id: ItemId)
  {
    id in order && id in items && items[id].file.Some?
  }

  /** The list holds the path of every file, and only those; it is missing
      exactly when some file's path does not expand. */
  lemma {:induction false} FullPathsComplete(items: Items, order: seq<ItemId>)
    requires AllTerminate(items)
    ensures FullPathsOf(items, order).None? <==> exists id :: FileIn(items, order, id) && PathOf(items, id, true).None?
    ensures FullPathsOf(items, order).Some? ==>
              forall p :: p in FullPathsOf(items, order).value
                          <==> exists id :: FileIn(items, order, id) && PathOf(items, id, true) == Some(p)
    decreases |order|
  {
    if order == [] {
      assert forall id :: !FileIn(items, order, id);
    } else {
      var rest := order[1..];
      var id := order[0];
      FullPathsComplete(items, rest);
      assert forall x :: FileIn(items, order, x) <==> (x == id && FileIn(items, order, x)) || FileIn(items, rest, x) by {
        assert forall x :: x in order <==> x == id || x in rest by {
          assert order == [id] + rest;
        }
      }
    }
  }

  method CollectFullPaths(items: Items, order: seq<ItemId>) returns (r: Option<seq<string>>)
    requires AllTerminate(items)
    ensures r == FullPathsOf(items, order)
  {
    var paths: seq<string> := [];
    var i := |order|;
    while i > 0
      invariant 0 <= i <= |order|
      invariant FullPathsOf(items, order[i..]) == Some(paths)
    {
      i := i - 1;
      assert order[i..][1..] == order[i + 1..];
      var id := order[i];
      if id in items && items[id].file.Some? {
        var p := ExpandPath(id, items, true);
        if p.None? {
          FullPathsNone(items, order, i);
          return None;
        }
        paths := [p.value] + paths;
      }
    }
    assert order[0..] == order;
    return Some(paths);
  }

  /** Once a suffix raises, so does the whole list. */
  lemma {:induction false} FullPathsNone(items: Items, order: seq<ItemId>, i: nat)
    requires AllTerminate(items) && i <= |order|
    requires FullPathsOf(items, order[i..]).None?
    ensures FullPathsOf(items, order).None?
    decreases i
  {
    if i > 0 {
      assert order[i - 1..][1..] == order[i..];
      FullPathsNone(items, order, i - 1);
    } else {
      assert order[0..] == order;
    }
  }

  /** The path a walked file is compared under (lines 276-280): the
      directory relative to the tree joined with the file name, without a
      leading "./". */
  function RelPath(dir: string, name: string): (r: string)
    ensures dir == "." ==> r == name
    ensures dir != "." && (|dir| < 2 || dir[..2] != "./") ==> r == dir + "/" + name
  {
    var p := dir + "/" + name;
    assert |dir| >= 2 ==> p[..2] == dir[..2];
    assert |dir| == 0 ==> p[0] == '/';
    assert |dir| == 1 ==> p[..2] == [dir[0], '/'] && (dir[0] == '.' ==> dir == ".");
    if |p| >= 2 && p[..2] == "./" then p[2..] else p
  }

  /** The walked files the snapshot does not name, in walk order (lines
      281-284). */
  function Removed(tree: seq<(string, string)>, fullPaths: seq<string>): (r: seq<(string, string)>)
    ensures |r| <= |tree|
    ensures forall e :: e in r <==> e in tree && RelPath(e.0, e.1) !in fullPaths
    decreases |tree|
  {
    if tree == [] then []
    else
      var rest := Removed(tree[1..], fullPaths);
      assert forall e :: e in tree <==> e == tree[0] || e in tree[1..] by {
        assert tree == [tree[0]] + tree[1..];
      }
      if RelPath(tree[0].0, tree[0].1) in fullPaths then rest else [tree[0]] + rest
  }

  method CleanTree(tree: seq<(string, string)>, fullPaths: seq<string>) returns (removed: seq<(string, string)>)
    ensures removed == Removed(tree, fullPaths)
  {
    removed := [];
    var i := |tree|;
    while i > 0
      invariant 0 <= i <= |tree|
      invariant removed == Removed(tree[i..], fullPaths)
    {
      i := i - 1;
      assert tree[i..][1..] == tree[i + 1..];
      var (dir, name) := tree[i];
      if RelPath(dir, name) !in fullPaths {
        removed := [tree[i]] + removed;
      }
    }
    assert tree[0..] == tree;
  }

  // ---------------------------------------------------------------------------
  // The command

  /** How the command ends: with exit status `code` after the item loop,
      after cleaning (status 0, with the files removed), with status
      `code` without an item loop (1 for a refused command, 0 after
      converting notebooks), or by raising. */
  datatype Outcome = Finished(code: int, tally: Tally) | Cleaned(removed: seq<(string, string)>) | Exited(code: int) | Crashed

  /** Line 32. */
  function DestDir(filetree: Option<string>): string
  {
    if Truthy(filetree) then RStripChar(filetree.value, '/') else "/var/tmp"
  }

  /** The destination directory joins the unicode paths of line 109 without
      an error exactly when --filetree is absent, empty or ASCII. */
  lemma DestDirAscii(filetree: Option<string>)
    ensures Ascii(DestDir(filetree)) <==> !Truthy(filetree) || Ascii(filetree.value)
  {
    if Truthy(filetree) {
      var t := filetree.value;
      var d := RStripChar(t, '/');
      if Ascii(d) {
        forall k | 0 <= k < |t|
          ensures t[k] < 128 as char
        {
          if k < |d| {
            assert t[k] == d[k];
          }
        }
      }
    }
  }

  /** Lines 39-42: the --exclude lines without trailing whitespace. */
  function ExcludeList(lines: Option<seq<string>>): (r: seq<string>)
    ensures |r| == (if lines.Some? then |lines.value| else 0)
    ensures forall k :: 0 <= k < |r| ==> r[k] == RStrip(lines.value[k])
  {
    if lines.None? then [] else seq(|lines.value|, k requires 0 <= k < |lines.value| => RStrip(lines.value[k]))
  }

  function SetupFor(opts: Options, a: ItemAction): Setup
  {
    Setup(a, ExcludeList(opts.exclude), opts.limit, opts.diff, DestDir(opts.filetree))
  }

  /** The item loop from nothing counted, ending with retval as the exit status. */
  ghost function ItemsCommand(s: Setup, w: World, p: U.Pass): Outcome
    requires AllTerminate(p.items)
  {
    match RunOutcome(s, w, Tally(0, 0, [], [], p), w.order)
    case None => Crashed
    case Some(t) => Finished(if t.pass.failed then 1 else 0, t)
  }

  /** The item action of a download, download-estimate, list-filenames or
      verify command. */
  function ReadOnlyAction(a: Action): Option<ItemAction>
  {
    match a
    case Download => Some(DownloadItems)
    case DownloadEstimate => Some(EstimateItems)
    case ListFilenames => Some(ListItems)
    case Verify => Some(VerifyItems)
    case _ => None
  }

  /** `main` for a given command line and world. */
  ghost function CommandOutcome(opts: Options, w: World): Outcome
    requires AllTerminate(w.items)
  {
    match ParseAction(opts.action)
    case ConvertNotebooks => Exited(0)
    case CleanFiletree =>
      (match FullPathsOf(w.items, w.order)
       case None => Crashed
       case Some(fp) => if opts.filetree.None? then Crashed else Cleaned(Removed(w.tree, fp)))
    case Unsupported(_) => Exited(1)
    case Upload => UploadCommand(opts, w, U.Upload)
    case VerifyUpload => UploadCommand(opts, w, U.VerifyUpload)
    case _ => ItemsCommand(SetupFor(opts, ReadOnlyAction(ParseAction(opts.action)).value), w, U.Pass(w.items, map[], false, []))
  }

  ghost function UploadCommand(opts: Options, w: World, mode: U.Mode): Outcome
    requires AllTerminate(w.items)
  {
    match UploadConfig(opts, w, mode)
    case ConfigExit => Exited(1)
    case ConfigCrash => Crashed
    case Configured(target, calls) =>
      ItemsCommand(SetupFor(opts, UploadItems(mode, target)), w, U.Pass(w.items, map[], false, calls))
  }

  method RunCommand(opts: Options, w: World) returns (r: Outcome)
    requires AllTerminate(w.items)
    ensures r == CommandOutcome(opts, w)
  {
    var start := U.Pass(w.items, map[], false, []);
    var action;
    match ParseAction(opts.action) {
      case ConvertNotebooks =>
        return Exited(0);
      case CleanFiletree =>
        var fp := CollectFullPaths(w.items, w.order);
        if fp.None? {
          return Crashed;
        }
        if opts.filetree.None? {
          return Crashed;
        }
        var removed := CleanTree(w.tree, fp.value);
        return Cleaned(removed);
      case Unsupported(_) =>
        return Exited(1);
      case Upload =>
        var config := ConfigureUpload(opts, w, U.Upload);
        if !config.Configured? {
          return if config.ConfigExit? then Exited(1) else Crashed;
        }
        action := UploadItems(U.Upload, config.target);
        start := start.(calls := config.calls);
      case VerifyUpload =>
        var config := ConfigureUpload(opts, w, U.VerifyUpload);
        if !config.Configured? {
          return if config.ConfigExit? then Exited(1) else Crashed;
        }
        action := UploadItems(U.VerifyUpload, config.target);
        start := start.(calls := config.calls);
      case Download => action := DownloadItems;
      case DownloadEstimate => action := EstimateItems;
      case ListFilenames => action := ListItems;
      case Verify => action := VerifyItems;
    }
    var t := RunItems(SetupFor(opts, action), w, Tally(0, 0, [], [], start), w.order);
    if t.None? {
      return Crashed;
    }
    var code := if t.value.pass.failed then 1 else 0;
    return Finished(code, t.value);
  }

  // ---------------------------------------------------------------------------
  // What the command promises

  /** Every item loop that finishes exits with retval, which is 1 exactly
      when some item set it, and reports a size and count that agree with
      the items worked on. */
  lemma FinishedReportsRetval(opts: Options, w: World)
    requires AllTerminate(w.items)
    ensures CommandOutcome(opts, w).Finished? ==>
              var o := CommandOutcome(opts, w);
              && (o.code == 1 <==> o.tally.pass.failed) && (o.code == 0 <==> !o.tally.pass.failed)
              && Consistent(o.tally)
  {
    var s, p;
    match ParseAction(opts.action) {
      case ConvertNotebooks =>
      case CleanFiletree =>
      case Unsupported(_) =>
      case Upload =>
        var c := UploadConfig(opts, w, U.Upload);
        if c.Configured? {
          s, p := SetupFor(opts, UploadItems(U.Upload, c.target)), U.Pass(w.items, map[], false, c.calls);
          RunConsistent(s, w, Tally(0, 0, [], [], p), w.order);
        }
      case VerifyUpload =>
        var c := UploadConfig(opts, w, U.VerifyUpload);
        if c.Configured? {
          s, p := SetupFor(opts, UploadItems(U.VerifyUpload, c.target)), U.Pass(w.items, map[], false, c.calls);
          RunConsistent(s, w, Tally(0, 0, [], [], p), w.order);
        }
      case _ =>
        s, p := SetupFor(opts, ReadOnlyAction(ParseAction(opts.action)).value), U.Pass(w.items, map[], false, []);
        RunConsistent(s, w, Tally(0, 0, [], [], p), w.order);
    }
  }

  /** download, download-estimate, list-filenames and verify: the command
      raises exactly when some item raises; otherwise it leaves the
      snapshot alone, makes no remote call, works on exactly the selected
      files in order, lists their paths (list-filenames only), and exits
      with status 1 exactly when some selected file fails to download or
      to verify. */
  lemma ReadOnlyCommand(opts: Options, w: World)
    requires AllTerminate(w.items) && ReadOnlyAction(ParseAction(opts.action)).Some?
    ensures var s := SetupFor(opts, ReadOnlyAction(ParseAction(opts.action)).value);
            var worked := Worked(s, w.items, w.order);
            var failed := AnyFails(s, w, w.items, w.order);
            CommandOutcome(opts, w)
            == if AnyRaises(s, w.items, w.order) then Crashed
               else Finished(if failed then 1 else 0,
                             Tally(SizeSum(worked), |worked|, worked,
                                   if s.action.ListItems? then Listed(s, w.items, w.order) else [],
                                   U.Pass(w.items, map[], failed, [])))
  {
    var s := SetupFor(opts, ReadOnlyAction(ParseAction(opts.action)).value);
    var t := Tally(0, 0, [], [], U.Pass(w.items, map[], false, []));
    RunReadOnlyRaises(s, w, t, w.order);
    if RunOutcome(s, w, t, w.order).Some? {
      RunReadOnlyPass(s, w, t, w.order);
      RunReadOnlyWorked(s, w, t, w.order);
      RunReadOnlyPrinted(s, w, t, w.order);
      RunConsistent(s, w, t, w.order);
      var r := RunOutcome(s, w, t, w.order).value;
      assert r.worked == Worked(s, w.items, w.order);
      assert r.printed == if s.action.ListItems? then Listed(s, w.items, w.order) else [];
    }
  }

  /** clean-filetree raises exactly when some file's path does not expand
      or no --filetree is given (`os.walk(None)` raises a TypeError);
      otherwise it removes exactly the walked files whose relative path is
      not the path of a file in the snapshot. */
  lemma CleanRemovesUnlisted(opts: Options, w: World)
    requires AllTerminate(w.items) && ParseAction(opts.action).CleanFiletree?
    ensures CommandOutcome(opts, w).Crashed?
            <==> opts.filetree.None? || exists id :: FileIn(w.items, w.order, id) && PathOf(w.items, id, true).None?
    ensures CommandOutcome(opts, w).Cleaned? ==>
              forall e :: e in CommandOutcome(opts, w).removed
                          <==> e in w.tree
                               && !exists id :: FileIn(w.items, w.order, id) && PathOf(w.items, id, true) == Some(RelPath(e.0, e.1))
  {
    FullPathsComplete(w.items, w.order);
  }
}
