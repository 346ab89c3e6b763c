/** Creating the entries of an archive in a tree keyed by NFC components; what src/archive/collision_detector.cpp is
    for. */
module FileTree {
  import opened Options
  import opened ByteStrings
  import opened Collisions

  datatype Kind = File | Dir

  type Path = seq<Bytes>

  type Tree = map<Path, Kind>

  /** Where an entry goes: a directory named with a closing slash goes where its name without it says. */
  function Node(v: View): Path {
    if v.isDir && |v.parts| > 1 && v.parts[|v.parts| - 1] == [] then v.parts[..|v.parts| - 1] else v.parts
  }

  /** Makes the first k ancestors. */
  function AddDirs(t: Tree, node: Path, k: nat): Tree
    requires k <= |node|
  {
    if k == 0 then t else AddDirs(t, node, k - 1)[node[..k] := Dir]
  }

  predicate FileAt(t: Tree, p: Path) { p in t && t[p] == File }

  /** Whether some proper ancestor of node, of length at most k, is a file. */
  predicate FileAbove(t: Tree, node: Path, k: nat)
    requires k < |node|
  {
    k > 0 && (FileAt(t, node[..k]) || FileAbove(t, node, k - 1))
  }

  /** Creates one entry with its missing parents: None when a file is where a directory is needed, or a path would
      be written twice. */
  function Place(t: Tree, v: View): Option<Tree>
    requires v.parts != []
  {
    var node := Node(v);
    if FileAbove(t, node, |node| - 1) then None
    else if v.isDir then
      if FileAt(t, node) then None else Some(AddDirs(t, node, |node|))
    else if node in t then None
    else Some(AddDirs(t, node, |node| - 1)[node := File])
  }

  predicate HaveParts(views: seq<View>) { forall i :: 0 <= i < |views| ==> views[i].parts != [] }

  /** Creates the entries in the given order. */
  function PlaceAll(views: seq<View>, order: seq<nat>): Option<Tree>
    requires HaveParts(views) && forall k :: 0 <= k < |order| ==> order[k] < |views|
  {
    if order == [] then Some(map[])
    else
      var t :- PlaceAll(views, order[..|order| - 1]);
      Place(t, views[order[|order| - 1]])
  }

  // ----- What a tree holds

  /** Why a path is in the tree: a placed file, a placed directory, or an ancestor of a placed entry. */
  ghost predicate Explained(p: Path, k: Kind, views: seq<View>, order: seq<nat>, m: nat)
    requires m < |order| && order[m] < |views|
  {
    var v := views[order[m]];
    if k == File then !v.isDir && v.parts == p
    else (v.isDir && Node(v) == p) || StrictPrefix(p, Node(v))
  }

  ghost predicate TreeOf(t: Tree, views: seq<View>, order: seq<nat>)
    requires forall k :: 0 <= k < |order| ==> order[k] < |views|
  {
    forall p :: p in t ==> exists m :: 0 <= m < |order| && Explained(p, t[p], views, order, m)
  }

  lemma {:induction false} AddDirsHolds(t: Tree, node: Path, k: nat, p: Path)
    requires k <= |node|
    ensures p in AddDirs(t, node, k) <==> p in t || (0 < |p| <= k && p == node[..|p|])
    ensures p in AddDirs(t, node, k) ==> AddDirs(t, node, k)[p] == if 0 < |p| <= k && p == node[..|p|] then Dir
        else t[p]
  {
    if k > 0 { AddDirsHolds(t, node, k - 1, p); }
  }

  lemma {:induction false} FileAboveWitness(t: Tree, node: Path, k: nat)
    requires k < |node| && FileAbove(t, node, k)
    ensures exists j :: 0 < j <= k && FileAt(t, node[..j])
  {
    if !FileAt(t, node[..k]) { FileAboveWitness(t, node, k - 1); }
  }

  // ----- Nothing collides, so nothing is in the way

  /** NFC names are told apart by their components, as they are in every list of views the detector builds. */
  ghost predicate PartsFaithful(views: seq<View>) {
    forall i, j :: 0 <= i < |views| && 0 <= j < |views| && views[i].parts == views[j].parts ==>
      views[i].nfc == views[j].nfc
  }

  lemma SamePartsCollide(views: seq<View>, a: nat, b: nat)
    requires a < |views| && b < |views| && a != b && PartsFaithful(views) && views[a].parts == views[b].parts
    ensures Colliding(views)
  {
    assert a < b ==> Alike(views[a], views[b]) && Later(views, b);
    assert b < a ==> Alike(views[b], views[a]) && Later(views, a);
  }

  lemma FileInWayCollides(views: seq<View>, a: nat, b: nat)
    requires a < |views| && b < |views| && !views[a].isDir && StrictPrefix(views[a].parts, views[b].parts)
    ensures Colliding(views)
  {
    assert Blocked(views, a, b);
  }

  lemma NodeWithin(v: View, p: Path)
    requires v.parts != []
    ensures Node(v) == v.parts || StrictPrefix(Node(v), v.parts)
    ensures StrictPrefix(p, Node(v)) ==> StrictPrefix(p, v.parts)
  {
  }

  /** A file at a proper ancestor of entry b means a collision. */
  lemma AncestorCollides(views: seq<View>, a: nat, b: nat, j: nat)
    requires HaveParts(views) && a < |views| && b < |views| && !views[a].isDir
    requires 0 < j < |Node(views[b])| && views[a].parts == Node(views[b])[..j]
    ensures Colliding(views)
  {
    NodeWithin(views[b], views[a].parts);
    FileInWayCollides(views, a, b);
  }

  /** Something already at the place of file b, or a file at the place of directory b, means a collision. */
  lemma OccupiedCollides(views: seq<View>, order: seq<nat>, m: nat, b: nat, k: Kind)
    requires HaveParts(views) && PartsFaithful(views) && b < |views| && m < |order| && order[m] < |views| &&
        order[m] != b
    requires Explained(Node(views[b]), k, views, order, m)
    requires views[b].isDir ==> k == File
    ensures Colliding(views)
  {
    var a := order[m];
    NodeWithin(views[a], Node(views[b]));
    NodeWithin(views[b], Node(views[b]));
    if views[a].parts == views[b].parts {
      SamePartsCollide(views, a, b);
    } else if k == File {
      FileInWayCollides(views, a, b);
    } else {
      FileInWayCollides(views, b, a);
    }
  }

  ghost predicate Once(order: seq<nat>) { forall i, j :: 0 <= i < j < |order| ==> order[i] != order[j] }

  lemma PlaceSucceeds(views: seq<View>, order: seq<nat>, t: Tree, b: nat)
    requires HaveParts(views) && PartsFaithful(views) && !Colliding(views)
    requires (forall k :: 0 <= k < |order| ==> order[k] < |views|) && b < |views| && b !in order
    requires TreeOf(t, views, order)
    ensures Place(t, views[b]).Some?
  {
    hide Colliding;
    var v := views[b];
    var node := Node(v);
    if FileAbove(t, node, |node| - 1) {
      FileAboveWitness(t, node, |node| - 1);
      var j :| 0 < j <= |node| - 1 && FileAt(t, node[..j]);
      var m :| 0 <= m < |order| && Explained(node[..j], File, views, order, m);
      AncestorCollides(views, order[m], b, j);
    } else if node in t && (v.isDir ==> t[node] == File) {
      var m :| 0 <= m < |order| && Explained(node, t[node], views, order, m);
      OccupiedCollides(views, order, m, b, t[node]);
    }
  }

  lemma PlacedTree(views: seq<View>, order: seq<nat>, t: Tree, b: nat)
    requires HaveParts(views) && (forall k :: 0 <= k < |order| ==> order[k] < |views|) && b < |views|
    requires TreeOf(t, views, order) && Place(t, views[b]).Some?
    ensures TreeOf(Place(t, views[b]).value, views, order + [b])
  {
    hide FileAbove, AddDirs;
    var after, node, more := Place(t, views[b]).value, Node(views[b]), order + [b];
    forall p | p in after ensures exists m :: 0 <= m < |more| && Explained(p, after[p], views, more, m) {
      AddDirsHolds(t, node, if views[b].isDir then |node| else |node| - 1, p);
      if 0 < |p| <= |node| && p == node[..|p|] {
        assert node[..|node|] == node;
        assert Explained(p, after[p], views, more, |order|);
      } else {
        assert p in t && after[p] == t[p];
        var m :| 0 <= m < |order| && Explained(p, t[p], views, order, m);
        assert more[m] == order[m];
        assert Explained(p, after[p], views, more, m);
      }
    }
  }

  lemma {:induction false} NoFileAbove(t: Tree, node: Path, k: nat, j: nat)
    requires j <= k < |node| && !FileAbove(t, node, k) && j > 0
    ensures !FileAt(t, node[..j])
  {
    if j < k { NoFileAbove(t, node, k - 1, j); }
  }

  function KindOf(v: View): Kind { if v.isDir then Dir else File }

  /** Creating an entry puts it in the tree and changes nothing that was there. */
  lemma PlaceKeeps(t: Tree, v: View, p: Path)
    requires v.parts != [] && Place(t, v).Some?
    ensures var after := Place(t, v).value;
      && Node(v) in after && after[Node(v)] == KindOf(v)
      && (p in t ==> p in after && after[p] == t[p])
  {
    hide FileAbove, AddDirs;
    var node := Node(v);
    var k := if v.isDir then |node| else |node| - 1;
    AddDirsHolds(t, node, k, p);
    AddDirsHolds(t, node, k, node);
    assert node[..|node|] == node;
    if 0 < |p| < |node| && p == node[..|p|] { NoFileAbove(t, node, |node| - 1, |p|); }
  }

  /** Every entry placed is there, as the kind it was placed as. */
  ghost predicate Present(t: Tree, views: seq<View>, order: seq<nat>)
    requires forall k :: 0 <= k < |order| ==> order[k] < |views|
  {
    forall m :: 0 <= m < |order| ==> Node(views[order[m]]) in t && t[Node(views[order[m]])] == KindOf(views[order[m]])
  }

  lemma PresentGrows(views: seq<View>, order: seq<nat>, t: Tree, b: nat)
    requires HaveParts(views) && (forall k :: 0 <= k < |order| ==> order[k] < |views|) && b < |views|
    requires Present(t, views, order) && Place(t, views[b]).Some?
    ensures Present(Place(t, views[b]).value, views, order + [b])
  {
    hide Place;
    var after, more := Place(t, views[b]).value, order + [b];
    forall m | 0 <= m < |more| ensures Node(views[more[m]]) in after &&
      after[Node(views[more[m]])] == KindOf(views[more[m]]) {
      if m < |order| { assert more[m] == order[m]; }
      PlaceKeeps(t, views[b], Node(views[more[m]]));
    }
  }

  /** When no two entries collide, every order of creation succeeds. */
  lemma {:induction false} AnyOrderSucceeds(views: seq<View>, order: seq<nat>)
    requires HaveParts(views) && PartsFaithful(views) && !Colliding(views)
    requires (forall k :: 0 <= k < |order| ==> order[k] < |views|) && Once(order)
    ensures PlaceAll(views, order).Some?
    ensures TreeOf(PlaceAll(views, order).value, views, order) && Present(PlaceAll(views, order).value, views, order)
  {
    hide Place, TreeOf, Colliding;
    if order == [] {
      EmptyTree(views);
    } else {
      var rest, b := order[..|order| - 1], order[|order| - 1];
      AnyOrderSucceeds(views, rest);
      var t := PlaceAll(views, rest).value;
      PlaceSucceeds(views, rest, t, b);
      PlacedTree(views, rest, t, b);
      PresentGrows(views, rest, t, b);
      assert rest + [b] == order;
    }
  }

  lemma EmptyTree(views: seq<View>)
    ensures TreeOf(map[], views, [])
  {
  }

  /** Archives that pass the detector can be laid out on disk, whatever the order. */
  lemma CollisionFreeIsSatisfiable(items: seq<Item>, fold: Bytes -> Bytes, nfc: Bytes -> Bytes, order: seq<nat>)
    requires !Colliding(Views(items, fold, nfc))
    requires (forall k :: 0 <= k < |order| ==> order[k] < |items|) && Once(order)
    ensures HaveParts(Views(items, fold, nfc)) && PlaceAll(Views(items, fold, nfc), order).Some?
    ensures Present(PlaceAll(Views(items, fold, nfc), order).value, Views(items, fold, nfc), order)
  {
    hide Colliding, PlaceAll;
    var views := Views(items, fold, nfc);
    forall i, j | 0 <= i < |views| && 0 <= j < |views| &&
      views[i].parts == views[j].parts ensures views[i].nfc == views[j].nfc {
      SplitInjective(nfc(items[i].name), nfc(items[j].name));
    }
    AnyOrderSucceeds(views, order);
  }
}
