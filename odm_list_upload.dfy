/** The upload and verify-upload passes of odm/libexec/odm_list.py
    (lines 159-259): the unresolved ancestors of an item are collected
    root-first, each is resolved into a remote folder or notebook (or
    marked 'skip' or 'failed'), the file itself is uploaded or verified,
    its permissions are replayed and the processed leaf is pruned.  The
    Microsoft 365 objects the pass talks to are oracles. */
module OdmListUpload {
  import opened Wrappers
  import opened Metadata
  import opened OneDrive
  import opened OdmListOptions

  /** A remote drive object: a folder, a notebook or an uploaded file. */
  datatype Handle = Handle(ref: nat)

  /** The account the upload goes to. */
  datatype Container = User(upn: string) | Group(upn: string)

  /** What an item's 'upload_id' holds: a remote object, None, or one of
      the sentinel strings 'skip' and 'failed'. */
  datatype UploadId = Object(h: Handle) | NoneValue | Skip | Failed

  /** The answer of get_folder or get_notebook: an object, None, or a
      raised TypeError. */
  datatype Reply = Got(h: Handle) | GotNone | RaisesTypeError

  /** The answers the remote objects give, fixed in advance. */
  datatype Library = Library(
    getFolder: (Handle, string, bool) -> Reply,
    getNotebook: (Handle, string, Container, bool) -> Reply,
    uploadFile: (Handle, string, string) -> Option<Handle>,
    verifyFile: (Handle, string, string) -> bool)

  /** A call made on a remote object, logged in order. */
  datatype Call =
    | GetFolder(parent: Handle, name: string, create: bool)
    | GetNotebook(parent: Handle, name: string, create: bool)
    | UploadFile(parent: Handle, dest: string, name: string)
    | VerifyRemote(parent: Handle, dest: string, name: string)
    | Share(target: Handle, email: string, roles: seq<string>)

  datatype Mode = Upload | VerifyUpload

  type UploadIds = map<ItemId, UploadId>

  // ---------------------------------------------------------------------------
  // Collecting the steps (lines 160-169)

  /** Where the climb from an item ends: at an item that already has an
      upload_id, or at the unresolved root (which then receives
      upload_path), with the items passed on the way listed root-first; at
      a parent missing from the snapshot (KeyError); or nowhere within the
      fuel given. */
  datatype Climb = AtResolved(steps: seq<ItemId>) | AtRoot(root: ItemId, steps: seq<ItemId>) | ClimbKeyError | OutOfFuel

  function AppendSteps(c: Climb, more: seq<ItemId>): Climb
  {
    match c
    case AtResolved(s) => AtResolved(s + more)
    case AtRoot(r, s) => AtRoot(r, s + more)
    case _ => c
  }

  function ClimbFrom(items: Items, ids: UploadIds, cur: ItemId, fuel: nat): Climb
    decreases fuel
  {
    if cur in ids then AtResolved([])
    else if cur !in items then ClimbKeyError
    else match items[cur].parent
      case None => AtRoot(cur, [])
      case Some(p) => if fuel == 0 then OutOfFuel else AppendSteps(ClimbFrom(items, ids, p, fuel - 1), [cur])
  }

  /** A climb needs no more fuel than the walk to the root. */
  lemma {:induction false} ClimbFuel(items: Items, ids: UploadIds, cur: ItemId, fuel: nat, more: nat)
    requires !LineageOf(items, cur, fuel).Endless? && fuel <= more
    ensures !ClimbFrom(items, ids, cur, fuel).OutOfFuel?
    ensures ClimbFrom(items, ids, cur, more) == ClimbFrom(items, ids, cur, fuel)
    decreases fuel
  {
    if cur !in ids && cur in items && items[cur].parent.Some? {
      ClimbFuel(items, ids, items[cur].parent.value, fuel - 1, more - 1);
    }
  }

  /** The climb from an item whose walk to the root ends. */
  ghost function ClimbOf(items: Items, ids: UploadIds, id: ItemId): (c: Climb)
    requires Terminates(items, id)
    ensures !c.OutOfFuel?
  {
    var fuel: nat :| !LineageOf(items, id, fuel).Endless?;
    ClimbFuel(items, ids, id, fuel, fuel);
    ClimbFrom(items, ids, id, fuel)
  }

  lemma ClimbOfFuel(items: Items, ids: UploadIds, id: ItemId, fuel: nat)
    requires !LineageOf(items, id, fuel).Endless?
    ensures Terminates(items, id) && ClimbOf(items, ids, id) == ClimbFrom(items, ids, id, fuel)
  {
    var f: nat :| !LineageOf(items, id, f).Endless? && ClimbOf(items, ids, id) == ClimbFrom(items, ids, id, f);
    if f <= fuel {
      ClimbFuel(items, ids, id, f, fuel);
    } else {
      ClimbFuel(items, ids, id, fuel, f);
    }
  }

  /** The steps of a climb: none has an upload_id; each is the parent of
      the next; the last is the item itself; the first hangs below an item
      that has an upload_id, or below the unresolved root. */
  lemma {:induction false} ClimbShape(items: Items, ids: UploadIds, id: ItemId, fuel: nat)
    requires ClimbFrom(items, ids, id, fuel).AtResolved? || ClimbFrom(items, ids, id, fuel).AtRoot?
    ensures var c := ClimbFrom(items, ids, id, fuel);
            && (forall k :: 0 <= k < |c.steps| ==> c.steps[k] in items && c.steps[k] !in ids)
            && (forall k :: 0 < k < |c.steps| ==> items[c.steps[k]].parent == Some(c.steps[k - 1]))
            && (c.steps != [] ==> c.steps[|c.steps| - 1] == id && items[c.steps[0]].parent.Some?)
            && (c.AtResolved? ==> if c.steps == [] then id in ids else items[c.steps[0]].parent.value in ids)
            && (c.AtRoot? ==> c.root in items && c.root !in ids && items[c.root].parent.None?
                              && if c.steps == [] then id == c.root else items[c.steps[0]].parent == Some(c.root))
    decreases fuel
  {
    if id !in ids && items[id].parent.Some? {
      var p := items[id].parent.value;
      ClimbShape(items, ids, p, fuel - 1);
    }
  }

  /** When nothing on the way to the root has an upload_id, the steps are
      the whole lineage below the root and the root is resolved. */
  lemma {:induction false} ClimbFromNothingResolved(items: Items, ids: UploadIds, id: ItemId, fuel: nat)
    requires LineageOf(items, id, fuel).Ends?
    requires var l := LineageOf(items, id, fuel);
             l.root !in ids && forall k :: 0 <= k < |l.ids| ==> l.ids[k] !in ids
    ensures var l := LineageOf(items, id, fuel);
            ClimbFrom(items, ids, id, fuel) == AtRoot(l.root, l.ids)
    decreases fuel
  {
    var l := LineageOf(items, id, fuel);
    if items[id].parent.Some? {
      var p := items[id].parent.value;
      var l' := LineageOf(items, p, fuel - 1);
      assert l.ids == l'.ids + [id];
      assert forall k :: 0 <= k < |l'.ids| ==> l'.ids[k] == l.ids[k];
      ClimbFromNothingResolved(items, ids, p, fuel - 1);
    }
  }

  lemma ClimbStep(items: Items, ids: UploadIds, cur: ItemId, f: nat, steps: seq<ItemId>)
    requires cur !in ids && cur in items && items[cur].parent.Some? && f > 0
    ensures AppendSteps(ClimbFrom(items, ids, items[cur].parent.value, f - 1), [cur] + steps)
         == AppendSteps(ClimbFrom(items, ids, cur, f), steps)
  {
    var c := ClimbFrom(items, ids, items[cur].parent.value, f - 1);
    if c.AtResolved? || c.AtRoot? {
      assert c.steps + [cur] + steps == c.steps + ([cur] + steps);
    }
  }

  /** Lines 160-169: the steps of the climb, and the upload_ids with the
      root given upload_path when the climb reached it; None where a parent
      is missing. */
  method CollectSteps(items: Items, ids: UploadIds, id: ItemId, uploadPath: UploadId)
    returns (r: Option<(seq<ItemId>, UploadIds)>)
    requires Terminates(items, id)
    ensures match ClimbOf(items, ids, id)
            case AtResolved(steps) => r == Some((steps, ids))
            case AtRoot(root, steps) => r == Some((steps, ids[root := uploadPath]))
            case _ => r.None?
  {
    ghost var fuel: nat :| !LineageOf(items, id, fuel).Endless?;
    ClimbOfFuel(items, ids, id, fuel);
    ClimbFuel(items, ids, id, fuel, fuel);
    ghost var f := fuel;
    var steps: seq<ItemId> := [];
    var cur := id;
    while cur !in ids
      invariant AppendSteps(ClimbFrom(items, ids, cur, f), steps) == ClimbFrom(items, ids, id, fuel)
      decreases f
    {
      if cur !in items {
        return None;
      }
      if items[cur].parent.None? {
        // the root receives upload_path, which ends the climb
        assert [] + steps == steps;
        return Some((steps, ids[cur := uploadPath]));
      }
      ClimbStep(items, ids, cur, f, steps);
      steps := [cur] + steps;
      cur := items[cur].parent.value;
      f := f - 1;
    }
    assert [] + steps == steps;
    return Some((steps, ids));
  }

  // ---------------------------------------------------------------------------
  // Resolving one step (lines 171-231)

  /** What one step does before its permissions: the upload_id it is given
      (None for a verified leaf, which gets none), whether retval becomes 1,
      whether it is a leaf, whether the step ends with `continue`, and the
      remote calls it makes; or an AttributeError on a None parent. */
  datatype Resolution =
    | Resolution(uploadId: Option<UploadId>, setRetval: bool, leaf: bool, continued: bool, calls: seq<Call>)
    | AttributeError

  predicate Sentinel(u: UploadId)
  {
    u.Skip? || u.Failed?
  }

  /** A package that is not a OneNote notebook is skipped unasked. */
  predicate UnknownPackage(step: Item)
  {
    step.package.Some? && step.package.value != "oneNote"
  }

  function Resolve(mode: Mode, parent: UploadId, step: Item, dest: string, container: Container,
                   lib: Library): (r: Resolution)
    // an AttributeError happens exactly when the parent is None and a call is due
    ensures r.AttributeError? <==> parent.NoneValue? && !UnknownPackage(step)
    // a step below a sentinel inherits it, makes no call and leaves retval alone
    ensures r.Resolution? && Sentinel(parent) ==> r == Resolution(Some(parent), false, false, true, [])
    // a call is made exactly when the parent is a remote object and the step is no unknown package
    ensures r.Resolution? ==> (r.calls == [] <==> Sentinel(parent) || UnknownPackage(step))
    ensures r.Resolution? ==> |r.calls| <= 1
    // every `continue` leaves the step marked 'skip' or 'failed'
    ensures r.Resolution? && r.continued ==> r.uploadId.Some? && Sentinel(r.uploadId.value)
    // a step that goes on holds a remote object or None; only a verified leaf holds nothing
    ensures r.Resolution? && !r.continued ==>
              if r.uploadId.None? then mode.VerifyUpload? && r.leaf
              else r.uploadId.value.Object? || (r.uploadId.value.NoneValue? && mode.Upload? && !r.leaf)
    // 'failed' comes from a failed parent or a missing remote object, never from an upload of a folder
    ensures r.Resolution? && r.uploadId == Some(Failed) && !parent.Failed? ==>
              (mode.VerifyUpload? && !r.leaf) || (mode.Upload? && r.leaf && r.setRetval)
  {
    if parent == Skip then Resolution(Some(Skip), false, false, true, [])
    else if parent == Failed then Resolution(Some(Failed), false, false, true, [])
    else if step.package.Some? then
      if step.package.value != "oneNote" then Resolution(Some(Skip), false, false, true, [])
      else if !parent.Object? then AttributeError
      else
        var call := GetNotebook(parent.h, step.name, mode == Upload);
        match lib.getNotebook(parent.h, step.name, container, mode == Upload)
        case RaisesTypeError => Resolution(Some(Skip), true, false, true, [call])
        case Got(h) => Resolution(Some(Object(h)), false, false, false, [call])
        case GotNone =>
          if mode == VerifyUpload then Resolution(Some(Failed), true, false, true, [call])
          else Resolution(Some(NoneValue), false, false, false, [call])
    else if step.folder then
      if !parent.Object? then AttributeError
      else
        var call := GetFolder(parent.h, step.name, mode == Upload);
        match lib.getFolder(parent.h, step.name, mode == Upload)
        case RaisesTypeError => Resolution(Some(Skip), true, false, true, [call])
        case Got(h) => Resolution(Some(Object(h)), false, false, false, [call])
        case GotNone =>
          if mode == VerifyUpload then Resolution(Some(Failed), false, false, true, [call])
          else Resolution(Some(NoneValue), false, false, false, [call])
    else if !parent.Object? then AttributeError
    else if mode == Upload then
      var call := UploadFile(parent.h, dest, step.name);
      match lib.uploadFile(parent.h, dest, step.name)
      case None => Resolution(Some(Failed), true, true, true, [call])
      case Some(h) => Resolution(Some(Object(h)), false, true, false, [call])
    else
      var call := VerifyRemote(parent.h, dest, step.name);
      Resolution(None, !lib.verifyFile(parent.h, dest, step.name), true, false, [call])
  }

  // ---------------------------------------------------------------------------
  // Replaying permissions (lines 236-254)

  /** A domain rewritten through the --domain-map table. */
  function Rewritten(domain: string, domainMap: map<string, string>): string
  {
    if domain in domainMap then domainMap[domain] else domain
  }

  /** The address a permission is shared to: None where
      `(user, domain) = email.split('@')` raises, i.e. unless the address
      holds exactly one '@', or where `'{}@{}'.format(user, domain)`
      raises, i.e. when the unicode address has a non-ASCII character (a
      non-ASCII domain is never among the byte-string keys of the table, so
      it is formatted as it stands); otherwise the part up to and including
      the '@' kept and the domain after it rewritten. */
  function Grantee(email: string, domainMap: map<string, string>): (r: Option<string>)
    ensures r.Some? <==> Occurrences(email, '@') == 1 && Ascii(email)
    ensures r.Some? ==> '@' in email
    ensures r.Some? ==>
              var i := IndexOf(email, '@');
              r.value == email[..i + 1] + Rewritten(email[i + 1..], domainMap)
  {
    SplitCount(email, '@');
    var parts := Split(email, '@');
    if |parts| == 2 && Ascii(email) then Some(parts[0] + "@" + Rewritten(parts[1], domainMap)) else None
  }

  /** Link shares and owner grants are not replayed. */
  predicate Replayed(p: Permission)
  {
    !p.link && "owner" !in p.roles
  }

  /** The permissions that are replayed, in order. */
  function Replayable(perms: seq<Permission>): (r: seq<Permission>)
    ensures |r| <= |perms|
    ensures forall k :: 0 <= k < |r| ==> Replayed(r[k]) && r[k] in perms
  {
    if perms == [] then []
    else if Replayed(perms[0]) then [perms[0]] + Replayable(perms[1..])
    else Replayable(perms[1..])
  }

  /** The share calls lines 237-254 make, in order; None where one raises:
      a replayed permission without an address, an address without exactly
      one '@' or with a non-ASCII character, or a target that is not a
      remote object. */
  function Shares(target: UploadId, perms: seq<Permission>, domainMap: map<string, string>): Option<seq<Call>>
  {
    if perms == [] then Some([])
    else
      var p := perms[0];
      if !Replayed(p) then Shares(target, perms[1..], domainMap)
      else if p.email.None? then None
      else match Grantee(p.email.value, domainMap)
        case None => None
        case Some(e) =>
          if !target.Object? then None
          else match Shares(target, perms[1..], domainMap)
            case None => None
            case Some(rest) => Some([Share(target.h, e, p.roles)] + rest)
  }

  /** A replayed permission whose address splits into a user and a domain
      and formats into a byte string. */
  predicate Addressable(p: Permission)
  {
    p.email.Some? && Occurrences(p.email.value, '@') == 1 && Ascii(p.email.value)
  }

  predicate AllAddressable(ps: seq<Permission>)
  {
    forall k :: 0 <= k < |ps| ==> Addressable(ps[k])
  }

  lemma AllAddressableCons(p: Permission, ps: seq<Permission>)
    ensures AllAddressable([p] + ps) <==> Addressable(p) && AllAddressable(ps)
  {
    var s := [p] + ps;
    if Addressable(p) && AllAddressable(ps) {
      forall k | 0 <= k < |s|
        ensures Addressable(s[k])
      {
        if k > 0 {
          assert s[k] == ps[k - 1];
        }
      }
    }
    if AllAddressable(s) {
      assert Addressable(s[0]);
      forall k | 0 <= k < |ps|
        ensures Addressable(ps[k])
      {
        assert ps[k] == s[k + 1];
      }
    }
  }

  /** The replay succeeds exactly when every replayed permission has an
      ASCII address with one '@' and, if there is any, the target is a
      remote object. */
  lemma {:induction false} SharesSucceed(target: UploadId, perms: seq<Permission>, domainMap: map<string, string>)
    ensures var r := Replayable(perms);
            Shares(target, perms, domainMap).Some? <==> (r == [] || target.Object?) && AllAddressable(r)
  {
    if perms != [] {
      SharesSucceed(target, perms[1..], domainMap);
      var p := perms[0];
      var r' := Replayable(perms[1..]);
      if Replayed(p) {
        assert Replayable(perms) == [p] + r';
        AllAddressableCons(p, r');
        if p.email.Some? {
          assert Grantee(p.email.value, domainMap).Some? <==> Occurrences(p.email.value, '@') == 1 && Ascii(p.email.value);
        }
      }
    }
  }

  /** A successful replay shares each replayed permission, in order, with
      its roles, to its rewritten address, and nothing else. */
  lemma {:induction false} SharesReplayable(target: UploadId, perms: seq<Permission>, domainMap: map<string, string>)
    requires Shares(target, perms, domainMap).Some?
    ensures var r := Replayable(perms);
            var s := Shares(target, perms, domainMap).value;
            |s| == |r| && (r != [] ==> target.Object?)
            && forall k :: 0 <= k < |r| ==> SharedAs(s[k], target, r[k], domainMap)
  {
    if perms != [] {
      SharesReplayable(target, perms[1..], domainMap);
      var p := perms[0];
      if Replayed(p) {
        var r := Replayable(perms);
        var r' := Replayable(perms[1..]);
        var s' := Shares(target, perms[1..], domainMap).value;
        var s := Shares(target, perms, domainMap).value;
        assert r == [p] + r';
        assert s == [Share(target.h, Grantee(p.email.value, domainMap).value, p.roles)] + s';
        forall k | 0 <= k < |r|
          ensures SharedAs(s[k], target, r[k], domainMap)
        {
          if k > 0 {
            assert s[k] == s'[k - 1] && r[k] == r'[k - 1];
          }
        }
      }
    }
  }

  /** A share call made for a permission: to the target, with the
      permission's roles, to its rewritten address. */
  predicate SharedAs(c: Call, target: UploadId, p: Permission, domainMap: map<string, string>)
  {
    target.Object? && p.email.Some? && Grantee(p.email.value, domainMap).Some?
    && c == Share(target.h, Grantee(p.email.value, domainMap).value, p.roles)
  }

  lemma PrependShare(calls: seq<Call>, c: Call, rest: Option<seq<Call>>)
    ensures Prepend(calls + [c], rest) == Prepend(calls, if rest.None? then None else Some([c] + rest.value))
  {
    if rest.Some? {
      assert calls + [c] + rest.value == calls + ([c] + rest.value);
    }
  }

  function Prepend(done: seq<Call>, rest: Option<seq<Call>>): Option<seq<Call>>
  {
    if rest.None? then None else Some(done + rest.value)
  }

  /** Lines 237-254: the share calls made for a step's permissions. */
  method ReplayPermissions(target: UploadId, perms: seq<Permission>, domainMap: map<string, string>)
    returns (r: Option<seq<Call>>)
    ensures r == Shares(target, perms, domainMap)
  {
    var calls: seq<Call> := [];
    assert perms[0..] == perms;
    assert Shares(target, perms, domainMap).Some? ==> [] + Shares(target, perms, domainMap).value == Shares(target, perms, domainMap).value;
    for i := 0 to |perms|
      invariant Prepend(calls, Shares(target, perms[i..], domainMap)) == Shares(target, perms, domainMap)
    {
      var perm := perms[i];
      assert perms[i..][1..] == perms[i + 1..];
      if perm.link {
        continue;
      }
      if "owner" in perm.roles {
        continue;
      }
      if perm.email.None? {
        return None;
      }
      var parts := Split(perm.email.value, '@');
      if |parts| != 2 || !Ascii(perm.email.value) {
        return None;
      }
      var domain := parts[1];
      if domain in domainMap {
        domain := domainMap[domain];
      }
      if !target.Object? {
        return None;
      }
      assert Grantee(perm.email.value, domainMap) == Some(parts[0] + "@" + domain);
      PrependShare(calls, Share(target.h, parts[0] + "@" + domain, perm.roles), Shares(target, perms[i + 1..], domainMap));
      calls := calls + [Share(target.h, parts[0] + "@" + domain, perm.roles)];
    }
    assert perms[|perms|..] == [];
    assert calls + [] == calls;
    return Some(calls);
  }

  // ---------------------------------------------------------------------------
  // The step loop (lines 171-259)

  /** What the pass carries from step to step and from item to item: the
      snapshot without the pruned leaves, the upload_id of each item that
      has one, whether retval has been set to 1, and the remote calls made. */
  datatype Pass = Pass(items: Items, ids: UploadIds, failed: bool, calls: seq<Call>)

  /** What is fixed for one item's steps. */
  datatype Job = Job(mode: Mode, dest: string, container: Container, lib: Library,
                     domainMap: map<string, string>)

  /** One step, start to end; None where it raises.  expand_path on the
      step raises on a broken lineage; reading the parent's upload_id raises
      when the parent has none; the step is resolved; a step that goes on
      replays its permissions in upload mode and, if it is a leaf, is
      cleared, which drops it from the snapshot together with its
      upload_id. */
  ghost function StepOutcome(job: Job, st: Pass, step: ItemId): (r: Option<Pass>)
    requires AllTerminate(st.items)
    ensures r.Some? ==> AllTerminate(r.value.items)
    ensures r.Some? ==> r.value.items == st.items || r.value.items == st.items - {step}
    ensures r.Some? ==> |r.value.calls| >= |st.calls| && r.value.calls[..|st.calls|] == st.calls
  {
    TerminatesWithout(st.items, step);
    if PathOf(st.items, step, false).None? then None
    else if step !in st.items then None
    else
      var item := st.items[step];
      if item.parent.None? || item.parent.value !in st.ids then None
      else
        match Resolve(job.mode, st.ids[item.parent.value], item, job.dest, job.container, job.lib)
        case AttributeError => None
        case Resolution(uid, setRetval, leaf, continued, calls) =>
          var ids := if uid.Some? then st.ids[step := uid.value] else st.ids;
          var failed := st.failed || setRetval;
          if continued then Some(Pass(st.items, ids, failed, st.calls + calls))
          else
            var shares :=
              if job.mode.Upload? && step in ids && item.permissions.Some?
              then Shares(ids[step], item.permissions.value, job.domainMap)
              else Some([]);
            if shares.None? then None
            else if leaf then Some(Pass(st.items - {step}, ids - {step}, failed, st.calls + calls + shares.value))
            else Some(Pass(st.items, ids, failed, st.calls + calls + shares.value))
  }

  /** Lines 172-259 for one step. */
  method ProcessStep(job: Job, st: Pass, step: ItemId) returns (r: Option<Pass>)
    requires AllTerminate(st.items)
    ensures r == StepOutcome(job, st, step)
  {
    var stepPath := ExpandPath(step, st.items, false);
    if stepPath.None? {
      return None;
    }
    if step !in st.items {
      return None;
    }
    var item := st.items[step];
    if item.parent.None? || item.parent.value !in st.ids {
      return None;
    }
    var resolution := Resolve(job.mode, st.ids[item.parent.value], item, job.dest, job.container, job.lib);
    if resolution.AttributeError? {
      return None;
    }
    var ids := st.ids;
    if resolution.uploadId.Some? {
      ids := ids[step := resolution.uploadId.value];
    }
    var failed := st.failed || resolution.setRetval;
    var calls := st.calls + resolution.calls;
    if resolution.continued {
      return Some(Pass(st.items, ids, failed, calls));
    }
    if job.mode.Upload? && step in ids && item.permissions.Some? {
      var shares := ReplayPermissions(ids[step], item.permissions.value, job.domainMap);
      if shares.None? {
        return None;
      }
      calls := calls + shares.value;
    } else {
      assert calls + [] == calls;
    }
    if resolution.leaf {
      return Some(Pass(st.items - {step}, ids - {step}, failed, calls));
    }
    return Some(Pass(st.items, ids, failed, calls));
  }

  /** The steps in order, each starting from the state the previous one left. */
  ghost function StepsOutcome(job: Job, st: Pass, steps: seq<ItemId>): (r: Option<Pass>)
    requires AllTerminate(st.items)
    ensures r.Some? ==> AllTerminate(r.value.items)
    decreases |steps|
  {
    if steps == [] then Some(st)
    else
      match StepOutcome(job, st, steps[0])
      case None => None
      case Some(next) => StepsOutcome(job, next, steps[1..])
  }

  /** Line 171: `for step in steps`. */
  method ProcessSteps(job: Job, st: Pass, steps: seq<ItemId>) returns (r: Option<Pass>)
    requires AllTerminate(st.items)
    ensures r == StepsOutcome(job, st, steps)
  {
    var cur := st;
    for i := 0 to |steps|
      invariant AllTerminate(cur.items)
      invariant StepsOutcome(job, cur, steps[i..]) == StepsOutcome(job, st, steps)
    {
      assert steps[i..][1..] == steps[i + 1..];
      var next := ProcessStep(job, cur, steps[i]);
      if next.None? {
        return None;
      }
      cur := next.value;
    }
    assert steps[|steps|..] == [];
    return Some(cur);
  }

  /** The upload_ids with every step set to the sentinel. */
  function Marked(ids: UploadIds, steps: seq<ItemId>, sentinel: UploadId): UploadIds
    decreases |steps|
  {
    if steps == [] then ids else Marked(ids[steps[0] := sentinel], steps[1..], sentinel)
  }

  /** Steps that hang from one another: each but the first is a child of
      the one before it. */
  predicate Chained(items: Items, steps: seq<ItemId>)
  {
    && (forall k :: 0 <= k < |steps| ==> steps[k] in items)
    && (forall k :: 0 < k < |steps| ==> items[steps[k]].parent == Some(steps[k - 1]))
  }

  /** Below an item marked 'skip' or 'failed', every step inherits the
      mark: no remote call is made, retval is untouched and nothing is
      pruned (lines 175-183). */
  lemma {:induction false} SentinelPropagates(job: Job, st: Pass, steps: seq<ItemId>, sentinel: UploadId)
    requires AllTerminate(st.items) && Sentinel(sentinel)
    requires Chained(st.items, steps)
    requires forall k :: 0 <= k < |steps| ==> PathOf(st.items, steps[k], false).Some?
    requires steps != [] ==> (var p := st.items[steps[0]].parent;
                              p.Some? && p.value in st.ids && st.ids[p.value] == sentinel)
    ensures StepsOutcome(job, st, steps) == Some(Pass(st.items, Marked(st.ids, steps, sentinel), st.failed, st.calls))
    decreases |steps|
  {
    if steps != [] {
      var step := steps[0];
      var item := st.items[step];
      var res := Resolve(job.mode, sentinel, item, job.dest, job.container, job.lib);
      assert res == Resolution(Some(sentinel), false, false, true, []);
      assert st.calls + [] == st.calls;
      var next := Pass(st.items, st.ids[step := sentinel], st.failed, st.calls);
      assert StepOutcome(job, st, step) == Some(next);
      var rest := steps[1..];
      assert Chained(st.items, rest) by {
        assert forall k :: 0 <= k < |rest| ==> rest[k] == steps[k + 1];
      }
      assert forall k :: 0 <= k < |rest| ==> PathOf(st.items, rest[k], false).Some? by {
        assert forall k :: 0 <= k < |rest| ==> rest[k] == steps[k + 1];
      }
      if rest != [] {
        assert st.items[rest[0]].parent == Some(step);
      }
      SentinelPropagates(job, next, rest, sentinel);
    }
  }

  // ---------------------------------------------------------------------------
  // One item (lines 160-259)

  /** The whole upload or verify-upload pass for one file item. */
  ghost function UploadOutcome(job: Job, st: Pass, id: ItemId, uploadPath: UploadId): (r: Option<Pass>)
    requires AllTerminate(st.items)
    ensures r.Some? ==> AllTerminate(r.value.items)
  {
    match ClimbOf(st.items, st.ids, id)
    case AtResolved(steps) => StepsOutcome(job, st, steps)
    case AtRoot(root, steps) => StepsOutcome(job, st.(ids := st.ids[root := uploadPath]), steps)
    case _ => None
  }

  method UploadItem(job: Job, st: Pass, id: ItemId, uploadPath: UploadId) returns (r: Option<Pass>)
    requires AllTerminate(st.items)
    ensures r == UploadOutcome(job, st, id, uploadPath)
  {
    var collected := CollectSteps(st.items, st.ids, id, uploadPath);
    if collected.None? {
      return None;
    }
    var (steps, ids) := collected.value;
    r := ProcessSteps(job, st.(ids := ids), steps);
  }
}
