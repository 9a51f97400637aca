/** The path, verification and user-name logic of the OneDrive client
    (odm/onedriveclient.py).  The Graph session, the local file system and
    the checksum are replaced by values: a sequence of HTTP responses, a map
    from paths to file contents, and the QuickXorHash model. */
module OneDrive {
  import opened Wrappers
  import opened Bits
  import opened Metadata
  import OdmUtil
  import QuickXor

  // ---------------------------------------------------------------------------
  // Sequences of names

  function Reverse<T>(s: seq<T>): (r: seq<T>)
    ensures |r| == |s|
  {
    if s == [] then [] else Reverse(s[1..]) + [s[0]]
  }

  lemma {:induction false} ReverseConcat<T>(a: seq<T>, b: seq<T>)
    ensures Reverse(a + b) == Reverse(b) + Reverse(a)
  {
    if a == [] {
      assert a + b == b;
    } else {
      ReverseConcat(a[1..], b);
      assert (a + b)[1..] == a[1..] + b;
    }
  }

  lemma {:induction false} ReverseReverse<T>(s: seq<T>)
    ensures Reverse(Reverse(s)) == s
  {
    if s != [] {
      ReverseReverse(s[1..]);
      ReverseConcat(Reverse(s[1..]), [s[0]]);
    }
  }

  /** Python's `sep.join(parts)`. */
  function Join(sep: string, parts: seq<string>): string
  {
    if parts == [] then ""
    else if |parts| == 1 then parts[0]
    else parts[0] + sep + Join(sep, parts[1..])
  }

  /** The path components one name contributes: the name itself, or its
      file-system-safe pieces. */
  function Segment(name: string, fsSafe: bool): (r: seq<string>)
    ensures |r| >= 1
  {
    if fsSafe then OdmUtil.Pieces(name) else [name]
  }

  function Segments(names: seq<string>, fsSafe: bool): seq<string>
  {
    if names == [] then [] else Segment(names[0], fsSafe) + Segments(names[1..], fsSafe)
  }

  lemma {:induction false} SegmentsEmpty(names: seq<string>, fsSafe: bool)
    ensures Segments(names, fsSafe) == [] <==> names == []
  {
  }

  /** The names of the items on a lineage, root-first. */
  function NamesOf(items: Items, ids: seq<ItemId>): (r: seq<string>)
    requires forall k :: 0 <= k < |ids| ==> ids[k] in items
    ensures |r| == |ids|
    ensures forall k :: 0 <= k < |ids| ==> r[k] == items[ids[k]].name
  {
    if ids == [] then [] else [items[ids[0]].name] + NamesOf(items, ids[1..])
  }

  // ---------------------------------------------------------------------------
  // expand_path

  /** The path expand_path returns: None where it raises KeyError on an id
      missing from the snapshot; "/" for the root; otherwise the names from
      the root's child down to the item (each split into pieces when
      fs_safe), joined by "/". */
  ghost function PathOf(items: Items, id: ItemId, fsSafe: bool): Option<string>
    requires Terminates(items, id)
  {
    match Walk(items, id)
    case Ends(_, ids) =>
      if ids == [] then Some("/") else Some(Join("/", Segments(NamesOf(items, ids), fsSafe)))
    case _ => None
  }

  /** expand_path(item_id, items, fs_safe). */
  method ExpandPath(itemId: ItemId, items: Items, fsSafe: bool) returns (r: Option<string>)
    requires Terminates(items, itemId)
    ensures r == PathOf(items, itemId, fsSafe)
  {
    ghost var fuel: nat :| !LineageOf(items, itemId, fuel).Endless?;
    WalkIsLineage(items, itemId, fuel);
    ghost var f := fuel;
    ghost var done: seq<ItemId> := [];
    var path: seq<string> := [];
    var cur := itemId;
    while true
      invariant Extend2(LineageOf(items, cur, f), done) == LineageOf(items, itemId, fuel)
      invariant forall k :: 0 <= k < |done| ==> done[k] in items
      invariant Reverse(path) == Segments(NamesOf(items, done), fsSafe)
      decreases f
    {
      if cur !in items {
        return None;
      }
      if items[cur].parent.None? {
        break;
      }
      var name := items[cur].name;
      if fsSafe {
        var chunks := OdmUtil.ChunkyPath(name);
        ReverseReverse(chunks);
        StepPath(path, Reverse(chunks), chunks, items, cur, done, fsSafe);
        path := path + Reverse(chunks);
      } else {
        StepPath(path, [name], [name], items, cur, done, fsSafe);
        path := path + [name];
      }
      ExtendStep(items, cur, f, done);
      done := [cur] + done;
      cur := items[cur].parent.value;
      f := f - 1;
    }
    FinishPath(items, itemId, fuel, cur, f, done, path, fsSafe);
    if path != [] {
      path := Reverse(path);
      return Some(Join("/", path));
    }
    return Some("/");
  }

  /** At the root, the reversed pieces collected are the path of the item. */
  lemma FinishPath(items: Items, itemId: ItemId, fuel: nat, cur: ItemId, f: nat, done: seq<ItemId>,
                   path: seq<string>, fsSafe: bool)
    requires Terminates(items, itemId) && !LineageOf(items, itemId, fuel).Endless?
    requires Walk(items, itemId) == LineageOf(items, itemId, fuel)
    requires cur in items && items[cur].parent.None?
    requires Extend2(LineageOf(items, cur, f), done) == LineageOf(items, itemId, fuel)
    requires forall k :: 0 <= k < |done| ==> done[k] in items
    requires Reverse(path) == Segments(NamesOf(items, done), fsSafe)
    ensures path == [] ==> PathOf(items, itemId, fsSafe) == Some("/")
    ensures path != [] ==> PathOf(items, itemId, fsSafe) == Some(Join("/", Reverse(path)))
  {
    assert LineageOf(items, cur, f) == Ends(cur, []);
    assert Walk(items, itemId) == Ends(cur, done);
    SegmentsEmpty(NamesOf(items, done), fsSafe);
    ReverseReverse(path);
    if path != [] {
      assert |NamesOf(items, done)| == |done| > 0;
    }
  }

  /** A lineage with the ids already walked appended after it. */
  function Extend2(l: Lineage, done: seq<ItemId>): Lineage
  {
    match l
    case Ends(root, ids) => Ends(root, ids + done)
    case _ => l
  }

  lemma ExtendStep(items: Items, cur: ItemId, f: nat, done: seq<ItemId>)
    requires cur in items && items[cur].parent.Some?
    requires !Extend2(LineageOf(items, cur, f), done).Endless?
    ensures f > 0
    ensures Extend2(LineageOf(items, items[cur].parent.value, f - 1), [cur] + done)
         == Extend2(LineageOf(items, cur, f), done)
  {
    var l := LineageOf(items, items[cur].parent.value, f - 1);
    if l.Ends? {
      assert l.ids + [cur] + done == l.ids + ([cur] + done);
    }
  }

  /** One iteration of expand_path's loop: the reversed pieces of the
      current name, appended to the reversed path, put the name in front. */
  lemma StepPath(path: seq<string>, add: seq<string>, seg: seq<string>, items: Items, cur: ItemId,
                 done: seq<ItemId>, fsSafe: bool)
    requires cur in items && forall k :: 0 <= k < |done| ==> done[k] in items
    requires seg == Segment(items[cur].name, fsSafe) && Reverse(add) == seg
    requires Reverse(path) == Segments(NamesOf(items, done), fsSafe)
    ensures Reverse(path + add) == Segments(NamesOf(items, [cur] + done), fsSafe)
  {
    ReverseConcat(path, add);
    var names := NamesOf(items, [cur] + done);
    assert names[1..] == NamesOf(items, done);
  }

  /** With fs_safe, names of at most 255 bytes are kept whole, so the safe
      path is the plain path. */
  lemma SafePathOfShortNames(items: Items, id: ItemId)
    requires Terminates(items, id)
    requires forall k :: k in items ==> OdmUtil.EncodedLength(items[k].name) <= OdmUtil.NameMax
    ensures PathOf(items, id, true) == PathOf(items, id, false)
  {
    var w := Walk(items, id);
    if w.Ends? {
      ShortSegments(NamesOf(items, w.ids));
    }
  }

  lemma {:induction false} ShortSegments(names: seq<string>)
    requires forall k :: 0 <= k < |names| ==> OdmUtil.EncodedLength(names[k]) <= OdmUtil.NameMax
    ensures Segments(names, true) == Segments(names, false) == names
  {
    if names != [] {
      ShortSegments(names[1..]);
      OdmUtil.ShortNameIsOnePiece(names[0]);
    }
  }

  /** The root folder expands to "/", and any other item to a path that
      does not start with one. */
  lemma RootPath(items: Items, id: ItemId, fsSafe: bool)
    requires id in items && items[id].parent.None?
    ensures Terminates(items, id) && PathOf(items, id, fsSafe) == Some("/")
  {
    WalkIsLineage(items, id, 0);
  }

  /** Without fs_safe, the path is the item's own name below its parent's
      path, or the name alone below the root. */
  lemma ChildPath(items: Items, id: ItemId)
    requires id in items && items[id].parent.Some?
    requires Terminates(items, items[id].parent.value)
    ensures Terminates(items, id)
    ensures var p := items[id].parent.value;
            var up := PathOf(items, p, false);
            (up.None? ==> PathOf(items, id, false).None?)
            && (up.Some? && p in items && items[p].parent.None? ==> PathOf(items, id, false) == Some(items[id].name))
            && (up.Some? && p in items && items[p].parent.Some? ==> PathOf(items, id, false) == Some(up.value + "/" + items[id].name))
  {
    var p := items[id].parent.value;
    var name := items[id].name;
    var fuel: nat :| !LineageOf(items, p, fuel).Endless?;
    var l := LineageOf(items, p, fuel);
    assert LineageOf(items, id, fuel + 1) == Extend(l, id);
    WalkIsLineage(items, p, fuel);
    WalkIsLineage(items, id, fuel + 1);
    if l.Ends? {
      var ns := NamesOf(items, l.ids);
      var nsi := NamesOf(items, l.ids + [id]);
      assert nsi == ns + [name];
      ShortSegmentsPlain(ns);
      ShortSegmentsPlain(nsi);
      JoinSnoc(ns, name);
      assert PathOf(items, id, false) == Some(Join("/", nsi));
      if l.ids != [] {
        assert PathOf(items, p, false) == Some(Join("/", ns));
      }
    }
  }

  lemma {:induction false} ShortSegmentsPlain(names: seq<string>)
    ensures Segments(names, false) == names
  {
    if names != [] {
      ShortSegmentsPlain(names[1..]);
    }
  }

  lemma {:induction false} JoinSnoc(parts: seq<string>, last: string)
    ensures Join("/", parts + [last]) == if parts == [] then last else Join("/", parts) + "/" + last
  {
    if |parts| > 1 {
      JoinSnoc(parts[1..], last);
      assert (parts + [last])[1..] == parts[1..] + [last];
    } else if |parts| == 1 {
      assert parts + [last] == [parts[0], last];
    }
  }

  // ---------------------------------------------------------------------------
  // verify_file

  /** Python truthiness of an optional string: None and "" are false. */
  predicate Truthy(s: Option<string>)
  {
    s.Some? && s.value != ""
  }

  /** The QuickXorHash text of a file's content. */
  function ContentHash(content: seq<Byte>): Option<string>
  {
    QuickXor.Digest(QuickXor.UpdateSpec(QuickXor.Init, content))
  }

  /** verify_file(dest, size, file_hash, strict) as written: the hash it
      compares is what `QuickXORHash.hash_file` returns, and that method
      returns nothing. */
  function VerifyFileAsWritten(fs: map<string, seq<Byte>>, dest: string, size: Option<int>,
                               fileHash: Option<string>, strict: bool): (r: bool)
    ensures Truthy(fileHash) ==> !r
  {
    if dest !in fs then false
    else if strict && size.None? && fileHash.None? then false
    else if size.Some? && |fs[dest]| != size.value then false
    else if Truthy(fileHash) && None != fileHash then false
    else true
  }

  /** verify_file with the hash computed from the file's content: false for
      a missing file, false when strict and given neither size nor hash,
      and otherwise true exactly when every check it is given passes. */
  function VerifyFile(fs: map<string, seq<Byte>>, dest: string, size: Option<int>,
                      fileHash: Option<string>, strict: bool): (r: bool)
    ensures r <==> dest in fs
                   && !(strict && size.None? && fileHash.None?)
                   && (size.Some? ==> |fs[dest]| == size.value)
                   && (Truthy(fileHash) ==> ContentHash(fs[dest]) == fileHash)
  {
    if dest !in fs then false
    else if strict && size.None? && fileHash.None? then false
    else if size.Some? && |fs[dest]| != size.value then false
    else if Truthy(fileHash) && ContentHash(fs[dest]) != fileHash then false
    else true
  }

  /** A file whose size and hash are the ones declared passes verification;
      as written it fails whenever a hash is declared. */
  lemma HashCheckDiscrepancy(fs: map<string, seq<Byte>>, dest: string, strict: bool)
    requires dest in fs && |fs[dest]| < 0x1_0000_0000_0000_0000
    ensures var h := ContentHash(fs[dest]);
            h.Some? && Truthy(h)
            && VerifyFile(fs, dest, Some(|fs[dest]|), h, strict)
            && !VerifyFileAsWritten(fs, dest, Some(|fs[dest]|), h, strict)
  {
    var h := ContentHash(fs[dest]);
    assert |h.value| == 28;
  }

  /** Without a size or hash, a non-strict check only asks that the file exists. */
  lemma NonStrictExistence(fs: map<string, seq<Byte>>, dest: string)
    ensures VerifyFile(fs, dest, None, None, false) == (dest in fs)
    ensures !VerifyFile(fs, dest, None, None, true)
  {
  }

  // ---------------------------------------------------------------------------
  // mangle_user

  /** mangle_user(username): None for a missing or empty name, the name
      itself when it already has a domain, else name@domain. */
  function MangleUser(username: Option<string>, domain: string): (r: Option<string>)
    ensures r.None? <==> !Truthy(username)
    ensures r.Some? ==> '@' in r.value
    ensures r.Some? && '@' in username.value ==> r == username
    ensures r.Some? && '@' !in username.value ==> r.value == username.value + ['@'] + domain
  {
    if !Truthy(username) then None
    else if '@' in username.value then username
    else Some(username.value + "@" + domain)
  }

  /** Mangling twice is mangling once. */
  lemma MangleIdempotent(username: Option<string>, domain: string)
    ensures MangleUser(MangleUser(username, domain), domain) == MangleUser(username, domain)
  {
  }

  // ---------------------------------------------------------------------------
  // get_list

  /** One answer of the Graph API to a GET.  A page carries its 'value'
      list, its '@odata.nextLink' if any, and its other top-level keys. */
  datatype Response<T> =
    | Redirect(location: string)        // status 302
    | NotFound                          // status 404
    | HttpError(status: int)            // raise_for_status raises
    | Page(value: seq<T>, nextLink: Option<string>, extra: map<string, T>)

  /** What get_list returns: {'location': ...} after a 302, or the merged pages. */
  datatype Listing<T> =
    | Location(url: string)
    | Merged(value: seq<T>, nextLink: Option<string>, extra: map<string, T>)

  /** A response after which get_list asks for nothing more. */
  predicate Final<T>(r: Response<T>)
  {
    !r.Page? || r.nextLink.None?
  }

  /** The first page becomes the result; later pages extend its 'value'
      and overwrite its other keys except '@odata.nextLink', which keeps the
      first page's value. */
  function Merge<T>(acc: Option<Listing<T>>, value: seq<T>, nextLink: Option<string>,
                    extra: map<string, T>): Listing<T>
  {
    match acc
    case Some(Merged(v, n, e)) => Merged(v + value, n, e + extra)
    case _ => Merged(value, nextLink, extra)
  }

  /** The outcome of get_list on the given responses, read from index k on
      with the pages so far merged in acc: Failure for an HTTP error,
      Success(None) for a 404. */
  function Fetch<T>(responses: seq<Response<T>>, k: nat, acc: Option<Listing<T>>): Result<Option<Listing<T>>, int>
    requires exists j :: k <= j < |responses| && Final(responses[j])
    decreases |responses| - k
  {
    match responses[k]
    case Redirect(l) => Success(Some(Location(l)))
    case NotFound => Success(None)
    case HttpError(s) => Failure(s)
    case Page(v, next, extra) =>
      var acc' := Merge(acc, v, next, extra);
      if next.None? then Success(Some(acc'))
      else Fetch(responses, k + 1, Some(acc'))
  }

  /** All 'value' lists of a run of pages, in request order. */
  function Values<T>(pages: seq<Response<T>>): seq<T>
    requires forall k :: 0 <= k < |pages| ==> pages[k].Page?
  {
    if pages == [] then [] else pages[0].value + Values(pages[1..])
  }

  /** When every response up to and including the last is a page, and only
      the last lacks a next link, the result's 'value' is the concatenation
      of the pages' lists in order and its '@odata.nextLink' is the first
      page's. */
  lemma {:induction false} FetchConcatenates<T>(responses: seq<Response<T>>, k: nat, acc: Option<Listing<T>>)
    requires k < |responses| && Final(responses[|responses| - 1])
    requires forall j :: k <= j < |responses| ==> responses[j].Page?
    requires forall j :: k <= j < |responses| - 1 ==> responses[j].nextLink.Some?
    requires acc.None? || acc.value.Merged?
    ensures Fetch(responses, k, acc).Success? && Fetch(responses, k, acc).value.Some?
    ensures var m := Fetch(responses, k, acc).value.value;
            m.Merged?
            && m.value == (if acc.Some? then acc.value.value else []) + Values(responses[k..])
            && m.nextLink == (if acc.Some? then acc.value.nextLink else responses[k].nextLink)
    decreases |responses| - k
  {
    var r := responses[k];
    var acc' := Merge(acc, r.value, r.nextLink, r.extra);
    assert responses[k..][1..] == responses[k + 1..];
    if k + 1 < |responses| {
      FetchConcatenates(responses, k + 1, Some(acc'));
    } else {
      assert responses[k + 1..] == [];
    }
  }

  /** get_list(path): request path, then each page's next link, until a
      page has none; the paths requested are returned alongside. */
  method GetList<T>(path: string, responses: seq<Response<T>>) returns (r: Result<Option<Listing<T>>, int>, requested: seq<string>)
    requires exists j :: 0 <= j < |responses| && Final(responses[j])
    ensures r == Fetch(responses, 0, None)
    ensures 1 <= |requested| <= |responses| && requested[0] == path
    ensures forall j :: 0 <= j < |requested| - 1 ==> responses[j].Page? && responses[j].nextLink == Some(requested[j + 1])
  {
    var result: Option<Listing<T>> := None;
    var cur := path;
    var k := 0;
    requested := [];
    while true
      invariant k < |responses|
      invariant exists j :: k <= j < |responses| && Final(responses[j])
      invariant Fetch(responses, k, result) == Fetch(responses, 0, None)
      invariant |requested| == k
      invariant k > 0 ==> responses[k - 1].Page? && responses[k - 1].nextLink == Some(cur)
      invariant k == 0 ==> cur == path
      invariant forall j :: 0 <= j < k - 1 ==> responses[j].Page? && responses[j].nextLink == Some(requested[j + 1])
      invariant k > 0 ==> requested[0] == path
      invariant result.None? <==> k == 0
      decreases |responses| - k
    {
      requested := requested + [cur];
      var page := responses[k];
      match page {
        case Redirect(l) =>
          return Success(Some(Location(l))), requested;
        case NotFound =>
          return Success(None), requested;
        case HttpError(s) =>
          return Failure(s), requested;
        case Page(v, next, extra) =>
          result := Some(Merge(result, v, next, extra));
          if next.None? {
            return Success(result), requested;
          }
          cur := next.value;
          k := k + 1;
      }
    }
  }
}
