/** The drive snapshot the migration works from: items keyed by id, each
    with a name, a link to its parent folder and the facets Microsoft Graph
    reports (file, folder, OneNote package, malware, permissions). */
module Metadata {
  import opened Wrappers

  type ItemId = string

  /** A sharing permission: a link share, or a grant of roles to a user. */
  datatype Permission = Permission(link: bool, roles: seq<string>, email: Option<string>)

  /** The file facet; `hashes` maps hash names such as "quickXorHash" to their values. */
  datatype FileFacet = FileFacet(hashes: Option<map<string, string>>)

  datatype Item = Item(
    name: string,
    /** parentReference.id; None for the drive's root folder. */
    parent: Option<ItemId>,
    driveId: string,
    file: Option<FileFacet>,
    folder: bool,
    /** package.type, for OneNote notebooks and other packages. */
    package: Option<string>,
    malware: bool,
    size: int,
    permissions: Option<seq<Permission>>)

  type Items = map<ItemId, Item>

  /** Where following parentReference links from an item leads: to the
      root, with the ids passed on the way listed root-first (the root
      itself excluded); to an id missing from the snapshot; or nowhere
      within the fuel given. */
  datatype Lineage = Ends(root: ItemId, ids: seq<ItemId>) | KeyMissing | Endless

  function Extend(l: Lineage, id: ItemId): Lineage
  {
    match l
    case Ends(root, ids) => Ends(root, ids + [id])
    case _ => l
  }

  function LineageOf(items: Items, id: ItemId, fuel: nat): (r: Lineage)
    ensures r.Ends? ==> r.root in items && items[r.root].parent.None?
    ensures r.Ends? ==> forall k :: 0 <= k < |r.ids| ==> r.ids[k] in items
    ensures r.Ends? && r.ids != [] ==> r.ids[|r.ids| - 1] == id
    ensures r.Ends? && r.ids == [] ==> r.root == id
    decreases fuel
  {
    if id !in items then KeyMissing
    else match items[id].parent
      case None => Ends(id, [])
      case Some(p) => if fuel == 0 then Endless else Extend(LineageOf(items, p, fuel - 1), id)
  }

  /** The walk from id to the root ends: parent links do not form a cycle on the way. */
  ghost predicate Terminates(items: Items, id: ItemId)
  {
    exists fuel: nat :: !LineageOf(items, id, fuel).Endless?
  }

  /** More fuel changes nothing once the walk has ended. */
  lemma {:induction false} LineageFuel(items: Items, id: ItemId, fuel: nat, more: nat)
    requires fuel <= more && !LineageOf(items, id, fuel).Endless?
    ensures LineageOf(items, id, more) == LineageOf(items, id, fuel)
    decreases fuel
  {
    if id in items && items[id].parent.Some? {
      LineageFuel(items, items[id].parent.value, fuel - 1, more - 1);
    }
  }

  /** The walk's outcome, with enough fuel. */
  ghost function Walk(items: Items, id: ItemId): (r: Lineage)
    requires Terminates(items, id)
    ensures !r.Endless?
  {
    var fuel: nat :| !LineageOf(items, id, fuel).Endless?;
    LineageOf(items, id, fuel)
  }

  /** Every fuel that ends the walk gives the walk's outcome. */
  lemma WalkIsLineage(items: Items, id: ItemId, fuel: nat)
    requires !LineageOf(items, id, fuel).Endless?
    ensures Terminates(items, id) && Walk(items, id) == LineageOf(items, id, fuel)
  {
    var f: nat :| !LineageOf(items, id, f).Endless? && Walk(items, id) == LineageOf(items, id, f);
    if f <= fuel {
      LineageFuel(items, id, f, fuel);
    } else {
      LineageFuel(items, id, fuel, f);
    }
  }

  /** Consecutive ids of a lineage are linked: each is the parent of the next,
      and the first is a child of the root. */
  lemma {:induction false} LineageLinked(items: Items, id: ItemId, fuel: nat)
    requires LineageOf(items, id, fuel).Ends?
    ensures var l := LineageOf(items, id, fuel);
            (l.ids != [] ==> items[l.ids[0]].parent == Some(l.root))
            && forall k :: 0 < k < |l.ids| ==> items[l.ids[k]].parent == Some(l.ids[k - 1])
    decreases fuel
  {
    var l := LineageOf(items, id, fuel);
    if items[id].parent.Some? {
      var p := items[id].parent.value;
      LineageLinked(items, p, fuel - 1);
      var l' := LineageOf(items, p, fuel - 1);
      assert l.ids == l'.ids + [id];
    }
  }

  /** Every walk in the snapshot ends. */
  ghost predicate AllTerminate(items: Items)
  {
    forall id :: Terminates(items, id)
  }

  /** Removing an item cannot make a walk endless: it stops at the gap. */
  lemma {:induction false} LineageWithout(items: Items, x: ItemId, id: ItemId, fuel: nat)
    requires !LineageOf(items, id, fuel).Endless?
    ensures !LineageOf(items - {x}, id, fuel).Endless?
    decreases fuel
  {
    if id in items && id != x && items[id].parent.Some? {
      LineageWithout(items, x, items[id].parent.value, fuel - 1);
    }
  }

  lemma TerminatesWithout(items: Items, x: ItemId)
    requires AllTerminate(items)
    ensures AllTerminate(items - {x})
  {
    forall id
      ensures Terminates(items - {x}, id)
    {
      assert Terminates(items, id);
      var fuel: nat :| !LineageOf(items, id, fuel).Endless?;
      LineageWithout(items, x, id, fuel);
    }
  }
}
