/** CollisionDetector of src/archive/collision_detector.cpp, for any case fold and any normalisation. */
module Collisions {
  import opened ByteStrings

  // ----- Components

  /** The components of a path whose last component so far is `cur`. */
  function SplitFrom(path: Bytes, cur: Bytes): (r: seq<Bytes>)
    ensures |r| >= 1
  {
    if path == [] then [cur]
    else if path[0] == SLASH then [cur] + SplitFrom(path[1..], [])
    else SplitFrom(path[1..], cur + [path[0]])
  }

  function Split(path: Bytes): seq<Bytes> { SplitFrom(path, []) }

  function Join(parts: seq<Bytes>): Bytes
    requires parts != []
  {
    if |parts| == 1 then parts[0] else parts[0] + [SLASH] + Join(parts[1..])
  }

  lemma {:induction false} JoinSplitFrom(path: Bytes, cur: Bytes)
    ensures Join(SplitFrom(path, cur)) == cur + path
    decreases path
  {
    if path == [] {
      assert cur + path == cur;
    } else if path[0] == SLASH {
      JoinSplitFrom(path[1..], []);
      var rest := SplitFrom(path[1..], []);
      assert ([cur] + rest)[1..] == rest;
      assert cur + [SLASH] + path[1..] == cur + path;
    } else {
      JoinSplitFrom(path[1..], cur + [path[0]]);
      assert cur + [path[0]] + path[1..] == cur + path;
    }
  }

  /** Splitting loses nothing, so different paths have different component lists. */
  lemma SplitInjective(a: Bytes, b: Bytes)
    requires Split(a) == Split(b)
    ensures a == b
  {
    JoinSplitFrom(a, []);
    JoinSplitFrom(b, []);
    assert [] + a == a && [] + b == b;
  }

  /** split_components. */
  method SplitComponents(path: Bytes) returns (out: seq<Bytes>)
    ensures out == Split(path)
  {
    var cur: Bytes := [];
    out := [];
    for i := 0 to |path|
      invariant out + SplitFrom(path[i..], cur) == Split(path)
    {
      ghost var rest := path[i..];
      assert rest[1..] == path[i + 1..];
      if path[i] == SLASH {
        assert out + ([cur] + SplitFrom(rest[1..], [])) == out + [cur] + SplitFrom(rest[1..], []);
        out, cur := out + [cur], [];
      } else {
        cur := cur + [path[i]];
      }
    }
    assert path[|path|..] == [];
    out := out + [cur];
  }

  predicate StrictPrefix<T(==)>(a: seq<T>, b: seq<T>) { |a| < |b| && a == b[..|a|] }

  /** is_strict_component_prefix. */
  method IsStrictPrefix(a: seq<Bytes>, b: seq<Bytes>) returns (r: bool)
    ensures r == StrictPrefix(a, b)
  {
    if |a| >= |b| { return false; }
    for i := 0 to |a|
      invariant forall k :: 0 <= k < i ==> a[k] == b[k]
    {
      if a[i] != b[i] {
        assert a[i] != b[..|a|][i];
        return false;
      }
    }
    r := true;
  }

  // ----- What a collision is

  datatype Item = Item(name: Bytes, isDir: bool)

  datatype Class = Duplicate | CaseFold | Nfc | FileVsDir

  /** Items `first` and `second` collide in the given class; the report printed names them by `name`. */
  datatype Report = Report(first: nat, second: nat, cls: Class)

  datatype View = View(name: Bytes, folded: Bytes, nfc: Bytes, parts: seq<Bytes>, isDir: bool)

  function ViewOf(item: Item, fold: Bytes -> Bytes, nfc: Bytes -> Bytes): View {
    View(item.name, fold(item.name), nfc(item.name), Split(nfc(item.name)), item.isDir)
  }

  function Views(items: seq<Item>, fold: Bytes -> Bytes, nfc: Bytes -> Bytes): (v: seq<View>)
    ensures |v| == |items|
  {
    seq(|items|, i requires 0 <= i < |items| => ViewOf(items[i], fold, nfc))
  }

  /** Two items share a byte-equal, fold-equal or NFC-equal class. */
  predicate Alike(a: View, b: View) { a.name == b.name || a.folded == b.folded || a.nfc == b.nfc }

  /** A file stands where the other item needs a directory. */
  predicate Blocks(a: View, b: View) { !a.isDir && StrictPrefix(a.parts, b.parts) }

  /** A later item that shares a class with an earlier one. */
  ghost predicate Later(views: seq<View>, j: nat)
    requires j < |views|
  {
    exists i :: 0 <= i < j && Alike(views[i], views[j])
  }

  ghost predicate Blocked(views: seq<View>, i: nat, j: nat)
    requires i < |views| && j < |views|
  {
    i != j && Blocks(views[i], views[j])
  }

  ghost predicate Colliding(views: seq<View>) {
    || (exists j :: 0 <= j < |views| && Later(views, j))
    || (exists i, j :: 0 <= i < |views| && 0 <= j < |views| && Blocked(views, i, j))
  }

  /** The report is true of its class. */
  predicate Justified(views: seq<View>, r: Report) {
    && r.first < |views| && r.second < |views|
    && var a, b := views[r.first], views[r.second];
       match r.cls
       case Duplicate => r.first < r.second && a.name == b.name
       case CaseFold => r.first < r.second && a.name != b.name && a.folded == b.folded
       case Nfc => r.first < r.second && a.name != b.name && a.folded != b.folded && a.nfc == b.nfc
       case FileVsDir => r.first != r.second && Blocks(a, b)
  }

  // ----- The detector's tables

  /** The table maps each of the first n keys to the first place it occurs. */
  ghost predicate Firsts(m: map<Bytes, nat>, keys: seq<Bytes>) {
    && (forall k :: k in m ==> m[k] < |keys| && keys[m[k]] == k)
    && (forall i :: 0 <= i < |keys| ==> keys[i] in m && m[keys[i]] <= i)
  }

  lemma FirstsGrow(m: map<Bytes, nat>, keys: seq<Bytes>, key: Bytes)
    requires Firsts(m, keys)
    ensures Firsts(if key in m then m else m[key := |keys|], keys + [key])
  {
  }

  /** Ordered index pairs reported so far. */
  predicate Distinct(out: seq<Report>) {
    forall a, b :: 0 <= a < b < |out| ==> (out[a].first, out[a].second) != (out[b].first, out[b].second)
  }

  predicate Reported(out: seq<Report>, i: nat, j: nat) {
    exists k :: 0 <= k < |out| && out[k].first == i && out[k].second == j
  }

  predicate SecondOf(out: seq<Report>, j: nat) { exists k :: 0 <= k < |out| && out[k].second == j }

  ghost predicate Sound(out: seq<Report>, views: seq<View>) {
    Distinct(out) && forall k :: 0 <= k < |out| ==> Justified(views, out[k])
  }

  lemma PrefixKeeps(out: seq<Report>, more: seq<Report>, i: nat, j: nat)
    requires out <= more
    ensures Reported(out, i, j) ==> Reported(more, i, j)
    ensures SecondOf(out, j) ==> SecondOf(more, j)
  {
    if Reported(out, i, j) {
      var k :| 0 <= k < |out| && out[k].first == i && out[k].second == j;
      assert more[k] == out[k];
    }
    if SecondOf(out, j) {
      var k :| 0 <= k < |out| && out[k].second == j;
      assert more[k] == out[k];
    }
  }

  ghost predicate Tracks(reported: set<(nat, nat)>, out: seq<Report>) {
    forall i: nat, j: nat :: (i, j) in reported <==> Reported(out, i, j)
  }

  lemma ReportedAfter(out: seq<Report>, r: Report, i: nat, j: nat)
    ensures Reported(out + [r], i, j) <==> Reported(out, i, j) || (i == r.first && j == r.second)
  {
    var more := out + [r];
    assert more[|out|] == r;
    PrefixKeeps(out, more, i, j);
    if Reported(more, i, j) {
      var k :| 0 <= k < |more| && more[k].first == i && more[k].second == j;
      if k < |out| { assert out[k] == more[k]; }
    }
  }

  /** The `add` lambda: one report per ordered pair, under the class found first. */
  method Add(out: seq<Report>, reported: set<(nat, nat)>, r: Report, ghost views: seq<View>)
    returns (more: seq<Report>, seen: set<(nat, nat)>)
    requires Sound(out, views) && Tracks(reported, out) && Justified(views, r)
    ensures Sound(more, views) && Tracks(seen, more) && out <= more
    ensures Reported(more, r.first, r.second) && SecondOf(more, r.second)
  {
    hide Justified;
    more, seen := out, reported;
    if (r.first, r.second) !in reported {
      more, seen := out + [r], reported + {(r.first, r.second)};
      forall i: nat, j: nat ensures (i, j) in seen <==> Reported(more, i, j) { ReportedAfter(out, r, i, j); }
      assert more[|out|] == r;
      forall a, b | 0 <= a < b < |more| ensures (more[a].first, more[a].second) != (more[b].first, more[b].second) {
        if b == |out| {
          assert out[a].first == r.first && out[a].second == r.second ==> Reported(out, r.first, r.second);
        }
      }
    } else {
      ghost var k :| 0 <= k < |out| && out[k].first == r.first && out[k].second == r.second;
    }
  }

  function Names(views: seq<View>): seq<Bytes> { seq(|views|, i requires 0 <= i < |views| => views[i].name) }

  function Folds(views: seq<View>): seq<Bytes> { seq(|views|, i requires 0 <= i < |views| => views[i].folded) }

  function Nfcs(views: seq<View>): seq<Bytes> { seq(|views|, i requires 0 <= i < |views| => views[i].nfc) }

  /** The three tables after the first n items. */
  datatype Tables = Tables(exact: map<Bytes, nat>, folded: map<Bytes, nat>, nfc: map<Bytes, nat>)

  ghost predicate TablesOf(t: Tables, views: seq<View>) {
    Firsts(t.exact, Names(views)) && Firsts(t.folded, Folds(views)) && Firsts(t.nfc, Nfcs(views))
  }

  function Enter(m: map<Bytes, nat>, key: Bytes, i: nat): map<Bytes, nat> { if key in m then m else m[key := i] }

  lemma TablesGrow(t: Tables, views: seq<View>, v: View)
    requires TablesOf(t, views)
    ensures TablesOf(Tables(Enter(t.exact, v.name, |views|), Enter(t.folded, v.folded, |views|),
        Enter(t.nfc, v.nfc, |views|)), views + [v])
  {
    hide Firsts;
    FirstsGrow(t.exact, Names(views), v.name);
    FirstsGrow(t.folded, Folds(views), v.folded);
    FirstsGrow(t.nfc, Nfcs(views), v.nfc);
    assert Names(views + [v]) == Names(views) + [v.name];
    assert Folds(views + [v]) == Folds(views) + [v.folded];
    assert Nfcs(views + [v]) == Nfcs(views) + [v.nfc];
  }

  /** What the tables say about an item: whether some earlier item is alike, and where the first ones are. */
  lemma TablesFind(t: Tables, views: seq<View>, i: nat)
    requires i < |views| && TablesOf(t, views[..i])
    ensures var v := views[i];
      && (v.name in t.exact ==> t.exact[v.name] < i && views[t.exact[v.name]].name == v.name)
      && (v.folded in t.folded ==> t.folded[v.folded] < i && views[t.folded[v.folded]].folded == v.folded)
      && (v.nfc in t.nfc ==> t.nfc[v.nfc] < i && views[t.nfc[v.nfc]].nfc == v.nfc)
      && (Later(views, i) ==> v.name in t.exact || v.folded in t.folded || v.nfc in t.nfc)
    ensures forall j :: 0 <= j < i ==> views[j].name in t.exact && views[j].folded in t.folded
  {
    var names, folds, nfcs := Names(views[..i]), Folds(views[..i]), Nfcs(views[..i]);
    forall j | 0 <= j < i ensures views[j].name in t.exact && views[j].folded in t.folded && views[j].nfc in t.nfc {
      assert names[j] == views[j].name && folds[j] == views[j].folded && nfcs[j] == views[j].nfc;
    }
  }

  /** The duplicate, case-fold and NFC tests on item i. */
  method CheckClasses(views: seq<View>, i: nat, t: Tables, out: seq<Report>, reported: set<(nat, nat)>)
    returns (tables: Tables, more: seq<Report>, seen: set<(nat, nat)>)
    requires i < |views| && TablesOf(t, views[..i]) && Sound(out, views) && Tracks(reported, out)
    ensures TablesOf(tables, views[..i + 1]) && Sound(more, views) && Tracks(seen, more) && out <= more
    ensures Later(views, i) ==> SecondOf(more, i)
  {
    hide Sound, Tracks, TablesOf, Firsts, Reported, SecondOf, Later;
    TablesFind(t, views, i);
    TablesGrow(t, views[..i], views[i]);
    assert views[..i] + [views[i]] == views[..i + 1];
    tables, more, seen := t, out, reported;
    var v := views[i];
    if v.name in t.exact {
      more, seen := Add(more, seen, Report(t.exact[v.name], i, Duplicate), views);
    } else {
      tables := tables.(exact := tables.exact[v.name := i]);
    }
    ghost var first := more;
    if v.folded in t.folded && views[t.folded[v.folded]].name != v.name {
      more, seen := Add(more, seen, Report(t.folded[v.folded], i, CaseFold), views);
    } else if v.folded !in t.folded {
      tables := tables.(folded := tables.folded[v.folded := i]);
    }
    PrefixKeeps(first, more, 0, i);
    ghost var second := more;
    if v.nfc in t.nfc && views[t.nfc[v.nfc]].name != v.name && views[t.nfc[v.nfc]].folded != v.folded {
      more, seen := Add(more, seen, Report(t.nfc[v.nfc], i, Nfc), views);
    } else if v.nfc !in t.nfc {
      tables := tables.(nfc := tables.nfc[v.nfc := i]);
    }
    PrefixKeeps(second, more, 0, i);
    assert v.nfc in t.nfc && views[t.nfc[v.nfc]].folded == v.folded ==> v.folded in t.folded;
    assert v.folded in t.folded && views[t.folded[v.folded]].name == v.name ==> v.name in t.exact;
  }

  /** The file-versus-directory tests of item i against the earlier ones. */
  method CheckBlocks(views: seq<View>, i: nat, out: seq<Report>, reported: set<(nat, nat)>)
    returns (more: seq<Report>, seen: set<(nat, nat)>)
    requires i < |views| && Sound(out, views) && Tracks(reported, out)
    ensures Sound(more, views) && Tracks(seen, more) && out <= more
    ensures forall j :: 0 <= j < i ==>
        (Blocked(views, i, j) ==> Reported(more, i, j)) && (Blocked(views, j, i) ==> Reported(more, j, i))
  {
    hide Sound, Tracks, Reported, SecondOf;
    more, seen := out, reported;
    for j := 0 to i
      invariant Sound(more, views) && Tracks(seen, more) && out <= more
      invariant forall k :: 0 <= k < j ==>
        (Blocked(views, i, k) ==> Reported(more, i, k)) && (Blocked(views, k, i) ==> Reported(more, k, i))
    {
      ghost var before := more;
      var under := IsStrictPrefix(views[i].parts, views[j].parts);
      if !views[i].isDir && under { more, seen := Add(more, seen, Report(i, j, FileVsDir), views); }
      ghost var middle := more;
      var over := IsStrictPrefix(views[j].parts, views[i].parts);
      if !views[j].isDir && over { more, seen := Add(more, seen, Report(j, i, FileVsDir), views); }
      PrefixKeeps(middle, more, i, j);
      forall k | 0 <= k < j ensures (Blocked(views, i, k) ==> Reported(more, i, k)) &&
        (Blocked(views, k, i) ==> Reported(more, k, i)) {
        PrefixKeeps(before, more, i, k);
        PrefixKeeps(before, more, k, i);
      }
    }
  }

  /** Every collision among the first n items has been reported. */
  ghost predicate Complete(out: seq<Report>, views: seq<View>, n: nat)
    requires n <= |views|
  {
    && (forall j :: 0 <= j < n && Later(views, j) ==> SecondOf(out, j))
    && (forall i, j :: 0 <= i < n && 0 <= j < n && Blocked(views, i, j) ==> Reported(out, i, j))
  }

  lemma CompleteStep(out: seq<Report>, classes: seq<Report>, more: seq<Report>, views: seq<View>, i: nat)
    requires i < |views| && Complete(out, views, i) && out <= classes <= more
    requires Later(views, i) ==> SecondOf(classes, i)
    requires forall j :: 0 <= j < i ==>
        (Blocked(views, i, j) ==> Reported(more, i, j)) && (Blocked(views, j, i) ==> Reported(more, j, i))
    ensures Complete(more, views, i + 1)
  {
    hide Later, Reported, SecondOf;
    PrefixKeeps(classes, more, 0, i);
    forall j | 0 <= j < i + 1 && Later(views, j) ensures SecondOf(more, j) { PrefixKeeps(out, more, 0, j); }
    forall a, b | 0 <= a < i + 1 && 0 <= b < i + 1 && Blocked(views, a, b) ensures Reported(more, a, b) {
      PrefixKeeps(out, more, a, b);
    }
  }

  /** CollisionDetector::detect on an empty report list. */
  method Detect(items: seq<Item>, fold: Bytes -> Bytes, nfc: Bytes -> Bytes) returns (found: bool, out: seq<Report>)
    ensures found <==> Colliding(Views(items, fold, nfc))
    ensures Sound(out, Views(items, fold, nfc))
    ensures Complete(out, Views(items, fold, nfc), |items|)
  {
    hide Sound, Tracks, TablesOf, Later, Blocked, Justified, Reported, SecondOf;
    var views := BuildViews(items, fold, nfc);
    var tables, reported := Tables(map[], map[], map[]), {};
    out := [];
    Initially(views);
    for i := 0 to |items|
      invariant TablesOf(tables, views[..i]) && Sound(out, views) && Tracks(reported, out) && Complete(out, views, i)
    {
      ghost var before := out;
      tables, out, reported := CheckClasses(views, i, tables, out, reported);
      ghost var classes := out;
      out, reported := CheckBlocks(views, i, out, reported);
      CompleteStep(before, classes, out, views, i);
    }
    found := out != [];
    ReportsMeanCollisions(out, views);
  }

  method BuildViews(items: seq<Item>, fold: Bytes -> Bytes, nfc: Bytes -> Bytes) returns (views: seq<View>)
    ensures views == Views(items, fold, nfc)
  {
    views := [];
    for i := 0 to |items|
      invariant |views| == i && forall k :: 0 <= k < i ==> views[k] == ViewOf(items[k], fold, nfc)
    {
      var parts := SplitComponents(nfc(items[i].name));
      views := views + [View(items[i].name, fold(items[i].name), nfc(items[i].name), parts, items[i].isDir)];
    }
  }

  lemma Initially(views: seq<View>)
    ensures TablesOf(Tables(map[], map[], map[]), views[..0]) && Sound([], views) && Tracks({}, []) &&
        Complete([], views, 0)
  {
  }

  lemma JustifiedCollides(views: seq<View>, r: Report)
    requires Justified(views, r)
    ensures Colliding(views)
  {
    if r.cls == FileVsDir {
      assert Blocked(views, r.first, r.second);
    } else {
      assert Alike(views[r.first], views[r.second]);
      assert Later(views, r.second);
    }
  }

  /** There is a report exactly when there is a collision. */
  lemma ReportsMeanCollisions(out: seq<Report>, views: seq<View>)
    requires Sound(out, views) && Complete(out, views, |views|)
    ensures out != [] <==> Colliding(views)
  {
    hide Justified, Later, Blocked;
    if out != [] { JustifiedCollides(views, out[0]); }
  }
}
