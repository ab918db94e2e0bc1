/** HDF5 files as link graphs, and the walk that unfolds a possibly cyclic graph into a finite tree. */
module H5Walk {

  datatype ObjId = ObjId(no0: nat, no1: nat)

  /** The id the root of the tree is given, whatever the id of the root group is. */
  const ROOT_MARK := ObjId(0, 0)

  datatype Kind = GroupLink | DatasetLink | OtherLink

  datatype Link = Link(name: string, kind: Kind, id: ObjId)

  /** Groups with their links in iteration order; groups in broken cannot be opened. */
  datatype File = File(groups: map<ObjId, seq<Link>>, rootId: ObjId, broken: set<ObjId>)

  predicate ValidName(name: string) {
    |name| > 0 && '/' !in name
  }

  /** Links lead to groups of the file, and names are unique within a group. */
  predicate ValidGroup(f: File, id: ObjId) {
    id in f.groups
    && (forall i :: 0 <= i < |f.groups[id]| ==>
          ValidName(f.groups[id][i].name) && (f.groups[id][i].kind == GroupLink ==> f.groups[id][i].id in f.groups))
    && (forall i, j :: 0 <= i < j < |f.groups[id]| ==> f.groups[id][i].name != f.groups[id][j].name)
  }

  predicate ValidFile(f: File) {
    f.rootId in f.groups && forall id :: id in f.groups ==> ValidGroup(f, id)
  }

  // ----- opening by path -----

  /** The names of a path, which are separated by slashes. */
  function Components(path: string, current: string): seq<string> {
    if |path| == 0 then Flush(current)
    else if path[0] == '/' then Flush(current) + Components(path[1..], "")
    else Components(path[1..], current + [path[0]])
  }

  function Flush(current: string): seq<string> {
    if |current| == 0 then [] else [current]
  }

  datatype Object = Missing | Found(kind: Kind, id: ObjId)

  /** The object behind the link of this name. */
  function Behind(links: seq<Link>, name: string): Object {
    if |links| == 0 then Missing
    else if links[0].name == name then Found(links[0].kind, links[0].id)
    else Behind(links[1..], name)
  }

  function Follow(f: File, from: Object, name: string): Object {
    if from.Found? && from.kind == GroupLink && from.id in f.groups then Behind(f.groups[from.id], name) else Missing
  }

  function FollowAll(f: File, names: seq<string>): Object {
    if |names| == 0 then Found(GroupLink, f.rootId)
    else Follow(f, FollowAll(f, names[..|names| - 1]), names[|names| - 1])
  }

  /** The object at a full path. */
  function Resolve(f: File, path: string): Object {
    FollowAll(f, Components(path, ""))
  }

  /** Path of a member of a group: only the root's own path ends with the slash already. */
  function ChildPath(path: string, name: string): string {
    path + (if |path| > 1 then "/" else "") + name
  }

  lemma {:induction false} NameIsComponent(name: string, current: string)
    requires '/' !in name
    ensures Components(name, current) == Flush(current + name)
    decreases |name|
  {
    if |name| == 0 {
      assert current + name == current;
    } else {
      assert current + name == (current + [name[0]]) + name[1..];
      NameIsComponent(name[1..], current + [name[0]]);
    }
  }

  lemma {:induction false} ComponentsSnoc(path: string, name: string, current: string)
    requires ValidName(name)
    ensures Components(path + "/" + name, current) == Components(path, current) + [name]
    decreases |path|
  {
    var whole := path + "/" + name;
    if |path| == 0 {
      assert whole[1..] == name;
      NameIsComponent(name, "");
      assert "" + name == name;
    } else {
      assert whole[1..] == path[1..] + "/" + name;
      ComponentsSnoc(path[1..], name, if path[0] == '/' then "" else current + [path[0]]);
    }
  }

  /** Appending a valid name to a group's path leads one link further. */
  lemma ChildResolves(f: File, path: string, name: string)
    requires ValidName(name) && (path == "/" || |path| > 1)
    ensures Resolve(f, ChildPath(path, name)) == Follow(f, Resolve(f, path), name)
  {
    if path == "/" {
      ComponentsSnoc("", name, "");
      assert "" + "/" + name == path + "" + name;
      assert Components(path, "") == [];
    } else {
      ComponentsSnoc(path, name, "");
    }
    var names := Components(path, "");
    assert (names + [name])[..|names|] == names;
  }

  // ----- the walk -----

  datatype Leaf = Leaf(path: string, id: ObjId)

  datatype Tree = Tree(path: string, id: ObjId, groups: seq<Tree>, datasets: seq<Leaf>)

  function OfKind(links: seq<Link>, kind: Kind): (r: seq<Link>)
    ensures |r| <= |links|
    ensures forall i :: 0 <= i < |r| ==> r[i] in links && r[i].kind == kind
  {
    if |links| == 0 then []
    else
      var n := |links| - 1;
      if links[n].kind == kind then OfKind(links[..n], kind) + [links[n]] else OfKind(links[..n], kind)
  }

  function SetOf(chain: seq<ObjId>): set<ObjId> {
    set id | id in chain
  }

  /** Groups that are not on the way from the root. */
  function Unvisited(f: File, chain: seq<ObjId>): set<ObjId> {
    f.groups.Keys - SetOf(chain)
  }

  lemma VisitShrinks(f: File, chain: seq<ObjId>, id: ObjId)
    requires id in f.groups && id !in chain
    ensures Unvisited(f, [id] + chain) < Unvisited(f, chain)
  {
    assert id in Unvisited(f, chain) && id !in Unvisited(f, [id] + chain);
  }

  /** What a group unfolds to. chain holds the recorded ids from the group up to the root; members on
      it are listed but not unfolded. */
  function Unfold(f: File, path: string, id: ObjId, chain: seq<ObjId>): (t: Tree)
    requires ValidFile(f) && |chain| > 0 && id in f.groups
    decreases Unvisited(f, chain), 1
  {
    if id in f.broken then Tree(path, chain[0], [], [])
    else
      assert ValidGroup(f, id);
      var members, leaves := OfKind(f.groups[id], GroupLink), OfKind(f.groups[id], DatasetLink);
      Tree(path, chain[0],
           seq(|members|, i requires 0 <= i < |members| => UnfoldMember(f, path, members[i], chain)),
           seq(|leaves|, i requires 0 <= i < |leaves| => Leaf(ChildPath(path, leaves[i].name), leaves[i].id)))
  }

  function UnfoldMember(f: File, path: string, member: Link, chain: seq<ObjId>): (t: Tree)
    requires ValidFile(f) && |chain| > 0 && member.id in f.groups
    ensures t.path == ChildPath(path, member.name) && t.id == member.id
    decreases Unvisited(f, chain), 0
  {
    if member.id in chain then Tree(ChildPath(path, member.name), member.id, [], [])
    else
      VisitShrinks(f, chain, member.id);
      Unfold(f, ChildPath(path, member.name), member.id, [member.id] + chain)
  }

  /** H5File_get_structure */
  function Structure(f: File): Tree
    requires ValidFile(f)
  {
    Unfold(f, "/", f.rootId, [ROOT_MARK])
  }

  // ----- routes -----

  /** The group a link of a route from group id belongs to. */
  function Owner(id: ObjId, route: seq<Link>, k: nat): ObjId
    requires k <= |route|
  {
    if k == 0 then id else route[k - 1].id
  }

  ghost predicate Hop(f: File, id: ObjId, route: seq<Link>, k: nat) {
    k < |route| && Owner(id, route, k) in f.groups && route[k] in f.groups[Owner(id, route, k)]
    && (k + 1 < |route| ==> route[k].kind == GroupLink)
  }

  /** A way from group id along links, all but the last of which lead to groups. */
  ghost predicate IsRoute(f: File, id: ObjId, route: seq<Link>) {
    |route| > 0 && forall k: nat :: k < |route| ==> Hop(f, id, route, k)
  }

  /** No group on the way repeats or is in the chain, and all of them can be opened. */
  ghost predicate Fresh(f: File, id: ObjId, route: seq<Link>, chain: seq<ObjId>) {
    id !in f.broken
    && (forall k :: 0 <= k < |route| - 1 ==> route[k].id !in f.broken && route[k].id !in chain)
    && (forall i, j :: 0 <= i < j < |route| - 1 ==> route[i].id != route[j].id)
  }

  function RoutePath(path: string, route: seq<Link>): string
    decreases |route|
  {
    if |route| == 0 then path else RoutePath(ChildPath(path, route[0].name), route[1..])
  }

  /** The names of the links, each behind a slash. */
  function SlashNames(route: seq<Link>): string {
    if |route| == 0 then "" else "/" + route[0].name + SlashNames(route[1..])
  }

  lemma {:induction false} RoutePathIs(path: string, route: seq<Link>)
    requires |path| > 1 && forall i :: 0 <= i < |route| ==> |route[i].name| > 0
    ensures RoutePath(path, route) == path + SlashNames(route)
    decreases |route|
  {
    if |route| > 0 {
      var next := ChildPath(path, route[0].name);
      RoutePathIs(next, route[1..]);
      assert next + SlashNames(route[1..]) == path + SlashNames(route);
    }
  }

  /** The path of an object below the root is the names of the way to it, each behind a single slash. */
  lemma RootPathIs(route: seq<Link>)
    requires |route| > 0 && forall i :: 0 <= i < |route| ==> |route[i].name| > 0
    ensures RoutePath("/", route) == SlashNames(route)
  {
    RoutePathIs(ChildPath("/", route[0].name), route[1..]);
    assert ChildPath("/", route[0].name) == "/" + route[0].name;
  }

  datatype Entry = Entry(path: string, kind: Kind, id: ObjId)

  function Target(path: string, route: seq<Link>): Entry
    requires |route| > 0
  {
    Entry(RoutePath(path, route), route[|route| - 1].kind, route[|route| - 1].id)
  }

  /** The tree has a group or dataset with this path and id below its root. */
  ghost predicate Lists(t: Tree, e: Entry) {
    (exists i :: 0 <= i < |t.groups| && IsGroupEntry(t.groups[i], e))
    || (exists i :: 0 <= i < |t.groups| && Lists(t.groups[i], e))
    || (exists i :: 0 <= i < |t.datasets| && IsLeafEntry(t.datasets[i], e))
  }

  predicate IsGroupEntry(t: Tree, e: Entry) {
    e == Entry(t.path, GroupLink, t.id)
  }

  predicate IsLeafEntry(d: Leaf, e: Entry) {
    e == Entry(d.path, DatasetLink, d.id)
  }

  /** The ways from group id to an entry of its tree. */
  ghost function WaysTo(f: File, path: string, id: ObjId, chain: seq<ObjId>, e: Entry): iset<seq<Link>> {
    iset route: seq<Link> | Reaches(f, path, id, chain, route, e)
  }

  ghost predicate Reaches(f: File, path: string, id: ObjId, chain: seq<ObjId>, route: seq<Link>, e: Entry) {
    IsRoute(f, id, route) && Fresh(f, id, route, chain) && e.kind != OtherLink && e == Target(path, route)
  }

  ghost predicate ReachedBy(f: File, path: string, id: ObjId, chain: seq<ObjId>, route: seq<Link>, e: Entry) {
    route in WaysTo(f, path, id, chain, e)
  }

  lemma {:induction false} OfKindHasAll(links: seq<Link>, kind: Kind, link: Link)
    requires link in links && link.kind == kind
    ensures link in OfKind(links, kind)
  {
    if links[|links| - 1] != link {
      OfKindHasAll(links[..|links| - 1], kind, link);
    }
  }

  lemma TailRoute(f: File, id: ObjId, route: seq<Link>, chain: seq<ObjId>)
    requires |route| > 1
    ensures (IsRoute(f, id, route) && Fresh(f, id, route, chain))
       <==> Hop(f, id, route, 0) && id !in f.broken && route[0].id !in chain
            && IsRoute(f, route[0].id, route[1..]) && Fresh(f, route[0].id, route[1..], [route[0].id] + chain)
  {
    var tail := route[1..];
    assert forall k: nat :: k < |tail| ==> Owner(route[0].id, tail, k) == Owner(id, route, k + 1);
    if IsRoute(f, id, route) {
      forall k: nat | k < |tail| ensures Hop(f, route[0].id, tail, k) {
        assert Hop(f, id, route, k + 1);
      }
      assert Hop(f, id, route, 0);
    }
    if Hop(f, id, route, 0) && IsRoute(f, route[0].id, tail) {
      forall k: nat | k < |route| ensures Hop(f, id, route, k) {
        if k > 0 {
          assert Hop(f, route[0].id, tail, k - 1);
        }
      }
    }
    assert forall k :: 0 <= k < |tail| - 1 ==> tail[k].id == route[k + 1].id;
    if Fresh(f, route[0].id, tail, [route[0].id] + chain) {
      forall i, j | 0 <= i < j < |route| - 1 ensures route[i].id != route[j].id {
        assert tail[j - 1].id !in [route[0].id] + chain;
      }
    }
  }

  lemma {:induction false} ReachedIsListed(f: File, path: string, id: ObjId, chain: seq<ObjId>, route: seq<Link>,
                                           e: Entry)
    requires ValidFile(f) && |chain| > 0 && id in f.groups && ReachedBy(f, path, id, chain, route, e)
    ensures Lists(Unfold(f, path, id, chain), e)
    decreases |route|
  {
    var t := Unfold(f, path, id, chain);
    assert Hop(f, id, route, 0);
    assert ValidGroup(f, id);
    if |route| == 1 {
      assert route[1..] == [];
      assert RoutePath(ChildPath(path, route[0].name), []) == ChildPath(path, route[0].name);
      LinkIsListed(f, path, id, chain, route[0], e);
    } else {
      TailRoute(f, id, route, chain);
      OfKindHasAll(f.groups[id], GroupLink, route[0]);
      var i :| 0 <= i < |OfKind(f.groups[id], GroupLink)| && OfKind(f.groups[id], GroupLink)[i] == route[0];
      ReachedIsListed(f, ChildPath(path, route[0].name), route[0].id, [route[0].id] + chain, route[1..], e);
      assert t.groups[i] == UnfoldMember(f, path, route[0], chain);
      assert Lists(t.groups[i], e);
    }
  }

  lemma LinkIsListed(f: File, path: string, id: ObjId, chain: seq<ObjId>, link: Link, e: Entry)
    requires ValidFile(f) && |chain| > 0 && id in f.groups && id !in f.broken && link in f.groups[id]
    requires link.kind != OtherLink && e == Entry(ChildPath(path, link.name), link.kind, link.id)
    ensures Lists(Unfold(f, path, id, chain), e)
  {
    var t := Unfold(f, path, id, chain);
    assert ValidGroup(f, id);
    OfKindHasAll(f.groups[id], link.kind, link);
    var i :| 0 <= i < |OfKind(f.groups[id], link.kind)| && OfKind(f.groups[id], link.kind)[i] == link;
    if link.kind == GroupLink {
      assert t.groups[i] == UnfoldMember(f, path, link, chain);
      assert IsGroupEntry(t.groups[i], e);
    } else {
      assert IsLeafEntry(t.datasets[i], e);
    }
  }

  lemma {:induction false} ListedIsReached(f: File, path: string, id: ObjId, chain: seq<ObjId>, e: Entry)
    returns (route: seq<Link>)
    requires ValidFile(f) && |chain| > 0 && id in f.groups && Lists(Unfold(f, path, id, chain), e)
    ensures ReachedBy(f, path, id, chain, route, e)
    decreases Unvisited(f, chain)
  {
    var t := Unfold(f, path, id, chain);
    assert ValidGroup(f, id);
    var members, leaves := OfKind(f.groups[id], GroupLink), OfKind(f.groups[id], DatasetLink);
    if exists i :: 0 <= i < |t.groups| && IsGroupEntry(t.groups[i], e) {
      var i :| 0 <= i < |t.groups| && IsGroupEntry(t.groups[i], e);
      route := OneLink(f, path, id, chain, members[i], e);
    } else if exists i :: 0 <= i < |t.datasets| && IsLeafEntry(t.datasets[i], e) {
      var i :| 0 <= i < |t.datasets| && IsLeafEntry(t.datasets[i], e);
      route := OneLink(f, path, id, chain, leaves[i], e);
    } else {
      var i :| 0 <= i < |t.groups| && Lists(t.groups[i], e);
      ListedBelow(f, path, members[i], chain, e);
      var member := members[i];
      VisitShrinks(f, chain, member.id);
      var rest := ListedIsReached(f, ChildPath(path, member.name), member.id, [member.id] + chain, e);
      route := LongerRoute(f, path, id, chain, member, rest, e);
    }
  }

  /** Below a member something is listed only when the member has been unfolded. */
  lemma ListedBelow(f: File, path: string, member: Link, chain: seq<ObjId>, e: Entry)
    requires ValidFile(f) && |chain| > 0 && member.id in f.groups && Lists(UnfoldMember(f, path, member, chain), e)
    ensures member.id !in chain
    ensures UnfoldMember(f, path, member, chain)
         == Unfold(f, ChildPath(path, member.name), member.id, [member.id] + chain)
  {
  }

  lemma OneLink(f: File, path: string, id: ObjId, chain: seq<ObjId>, link: Link, e: Entry) returns (route: seq<Link>)
    requires id in f.groups && id !in f.broken && link in f.groups[id] && link.kind != OtherLink
    requires e == Entry(ChildPath(path, link.name), link.kind, link.id)
    ensures ReachedBy(f, path, id, chain, route, e)
  {
    route := [link];
    assert [link][1..] == [];
    assert RoutePath(ChildPath(path, link.name), []) == ChildPath(path, link.name);
    assert Hop(f, id, [link], 0);
  }

  lemma LongerRoute(f: File, path: string, id: ObjId, chain: seq<ObjId>, link: Link, rest: seq<Link>, e: Entry)
    returns (route: seq<Link>)
    requires id in f.groups && id !in f.broken && link in f.groups[id] && link.kind == GroupLink && link.id !in chain
    requires ReachedBy(f, ChildPath(path, link.name), link.id, [link.id] + chain, rest, e)
    ensures ReachedBy(f, path, id, chain, route, e)
  {
    route := [link] + rest;
    assert ([link] + rest)[1..] == rest;
    assert Hop(f, id, [link] + rest, 0);
    TailRoute(f, id, [link] + rest, chain);
  }

  /** The tree of a group lists exactly what can be reached along a way that enters no group twice
      and none of the chain, each under the path of that way. */
  lemma {:induction false} UnfoldListsExactly(f: File, path: string, id: ObjId, chain: seq<ObjId>, e: Entry)
    requires ValidFile(f) && |chain| > 0 && id in f.groups
    ensures Lists(Unfold(f, path, id, chain), e) <==> exists route :: ReachedBy(f, path, id, chain, route, e)
    decreases Unvisited(f, chain)
  {
    if Lists(Unfold(f, path, id, chain), e) {
      var route := ListedIsReached(f, path, id, chain, e);
    }
    if exists route :: ReachedBy(f, path, id, chain, route, e) {
      var route :| ReachedBy(f, path, id, chain, route, e);
      ReachedIsListed(f, path, id, chain, route, e);
    }
  }

  lemma RouteNames(f: File, id: ObjId, route: seq<Link>)
    requires ValidFile(f) && IsRoute(f, id, route)
    ensures forall i :: 0 <= i < |route| ==> |route[i].name| > 0
  {
    forall i: nat | i < |route| ensures |route[i].name| > 0 {
      assert Hop(f, id, route, i) && ValidGroup(f, Owner(id, route, i));
    }
  }

  /** A way of the walk to a group or dataset: all its groups open, and none repeats or has the root's mark. */
  ghost predicate Walks(f: File, route: seq<Link>, kind: Kind, id: ObjId) {
    IsRoute(f, f.rootId, route) && Fresh(f, f.rootId, route, [ROOT_MARK])
    && kind != OtherLink && route[|route| - 1].kind == kind && route[|route| - 1].id == id
  }

  /** What the walk lists, under which path: each group and dataset once for every way to it, by the names
      of the way. */
  lemma PathsListedExactly(f: File, path: string, kind: Kind, id: ObjId)
    requires ValidFile(f)
    ensures Lists(Structure(f), Entry(path, kind, id))
       <==> exists route :: Walks(f, route, kind, id) && path == SlashNames(route)
  {
    var e := Entry(path, kind, id);
    UnfoldListsExactly(f, "/", f.rootId, [ROOT_MARK], e);
    if Lists(Structure(f), e) {
      var route :| ReachedBy(f, "/", f.rootId, [ROOT_MARK], route, e);
      RouteNames(f, f.rootId, route);
      RootPathIs(route);
      assert Walks(f, route, kind, id);
    }
    if route :| Walks(f, route, kind, id) && path == SlashNames(route) {
      RouteNames(f, f.rootId, route);
      RootPathIs(route);
      assert ReachedBy(f, "/", f.rootId, [ROOT_MARK], route, e);
    }
  }

  // ----- every listed path opens the object listed -----

  lemma {:induction false} FindsLink(links: seq<Link>, link: Link)
    requires link in links && forall i, j :: 0 <= i < j < |links| ==> links[i].name != links[j].name
    ensures Behind(links, link.name) == Found(link.kind, link.id)
  {
    if links[0] != link {
      var k :| 0 <= k < |links| && links[k] == link;
      assert links[0].name != links[k].name;
      FindsLink(links[1..], link);
    }
  }

  lemma {:induction false} RouteResolves(f: File, path: string, id: ObjId, route: seq<Link>)
    requires ValidFile(f) && IsRoute(f, id, route) && (path == "/" || |path| > 1)
    requires Resolve(f, path) == Found(GroupLink, id)
    ensures Resolve(f, RoutePath(path, route)) == Found(route[|route| - 1].kind, route[|route| - 1].id)
    decreases |route|
  {
    assert Hop(f, id, route, 0) && ValidGroup(f, id);
    var link := route[0];
    ChildResolves(f, path, link.name);
    FindsLink(f.groups[id], link);
    var next := ChildPath(path, link.name);
    assert |next| > 1;
    assert Resolve(f, next) == Found(link.kind, link.id);
    if |route| == 1 {
      assert route[1..] == [] && RoutePath(next, []) == next;
    } else {
      var tail := route[1..];
      forall k: nat | k < |tail| ensures Hop(f, link.id, tail, k) {
        assert Hop(f, id, route, k + 1);
        assert Owner(link.id, tail, k) == Owner(id, route, k + 1);
      }
      RouteResolves(f, next, link.id, tail);
    }
  }

  /** Every path in the tree is a real path to the object with the id next to it. */
  lemma WalkIsSound(f: File, e: Entry)
    requires ValidFile(f) && Lists(Structure(f), e)
    ensures Resolve(f, e.path) == Found(e.kind, e.id)
  {
    UnfoldListsExactly(f, "/", f.rootId, [ROOT_MARK], e);
    var route :| ReachedBy(f, "/", f.rootId, [ROOT_MARK], route, e);
    assert Components("/", "") == [] by { assert "/"[1..] == ""; }
    RouteResolves(f, "/", f.rootId, route);
  }

  // ----- everything that can be reached is listed -----

  /** A way on which every group can be opened and unfolded. */
  ghost predicate Passable(f: File, route: seq<Link>) {
    f.rootId !in f.broken
    && forall k :: 0 <= k < |route| - 1 ==> route[k].id !in f.broken && route[k].id != ROOT_MARK
  }

  ghost predicate LeadsTo(f: File, route: seq<Link>, kind: Kind, id: ObjId) {
    route in PassableWays(f, kind, id)
  }

  ghost function PassableWays(f: File, kind: Kind, id: ObjId): iset<seq<Link>> {
    iset route: seq<Link> |
      IsRoute(f, f.rootId, route) && Passable(f, route)
      && route[|route| - 1].kind == kind && route[|route| - 1].id == id
  }

  ghost predicate Reachable(f: File, kind: Kind, id: ObjId) {
    exists route :: LeadsTo(f, route, kind, id)
  }

  /** Cutting a detour out of a way. */
  lemma Shortcut(f: File, route: seq<Link>, i: nat, j: nat, kind: Kind, id: ObjId)
    requires LeadsTo(f, route, kind, id) && i < j < |route| - 1 && route[i].id == route[j].id
    ensures LeadsTo(f, route[..i + 1] + route[j + 1..], kind, id)
  {
    var short := route[..i + 1] + route[j + 1..];
    forall k: nat | k < |short| ensures Hop(f, f.rootId, short, k) {
      var from := if k <= i then k else k + (j - i);
      assert Hop(f, f.rootId, route, from);
      assert short[k] == route[from];
      assert Owner(f.rootId, short, k) == Owner(f.rootId, route, from);
    }
    forall k | 0 <= k < |short| - 1 ensures short[k].id !in f.broken && short[k].id != ROOT_MARK {
      var from := if k <= i then k else k + (j - i);
      assert short[k] == route[from];
    }
  }

  lemma {:induction false} WithoutDetours(f: File, route: seq<Link>, kind: Kind, id: ObjId) returns (direct: seq<Link>)
    requires LeadsTo(f, route, kind, id)
    ensures LeadsTo(f, direct, kind, id) && Fresh(f, f.rootId, direct, [ROOT_MARK])
    decreases |route|
  {
    if exists i, j :: 0 <= i < j < |route| - 1 && route[i].id == route[j].id {
      var i, j :| 0 <= i < j < |route| - 1 && route[i].id == route[j].id;
      Shortcut(f, route, i, j, kind, id);
      direct := WithoutDetours(f, route[..i + 1] + route[j + 1..], kind, id);
    } else {
      direct := route;
    }
  }

  /** A way of the walk is one on which every group can be opened and unfolded, without detours. */
  lemma FreshLeads(f: File, route: seq<Link>, e: Entry)
    ensures ReachedBy(f, "/", f.rootId, [ROOT_MARK], route, e)
       <==> LeadsTo(f, route, e.kind, e.id) && Fresh(f, f.rootId, route, [ROOT_MARK]) && e.kind != OtherLink
            && e.path == RoutePath("/", route)
  {
  }

  /** The walk ends on every graph, and lists exactly the groups and datasets that can be reached
      through groups that can be opened and are not marked like the root. */
  lemma WalkFindsExactly(f: File, kind: Kind, id: ObjId)
    requires ValidFile(f) && kind != OtherLink
    ensures (exists path :: Lists(Structure(f), Entry(path, kind, id))) <==> Reachable(f, kind, id)
  {
    if exists path :: Lists(Structure(f), Entry(path, kind, id)) {
      var path :| Lists(Structure(f), Entry(path, kind, id));
      var e := Entry(path, kind, id);
      UnfoldListsExactly(f, "/", f.rootId, [ROOT_MARK], e);
      var route :| ReachedBy(f, "/", f.rootId, [ROOT_MARK], route, e);
      FreshLeads(f, route, e);
    }
    if exists route :: LeadsTo(f, route, kind, id) {
      var route :| LeadsTo(f, route, kind, id);
      var direct := WithoutDetours(f, route, kind, id);
      var e := Target("/", direct);
      UnfoldListsExactly(f, "/", f.rootId, [ROOT_MARK], e);
      FreshLeads(f, direct, e);
      assert Lists(Structure(f), Entry(e.path, kind, id));
    }
  }

  /** Along links alone. */
  ghost predicate Linked(f: File, route: seq<Link>, kind: Kind, id: ObjId) {
    IsRoute(f, f.rootId, route) && route[|route| - 1].kind == kind && route[|route| - 1].id == id
  }

  /** A way along links can do without its returns to a root that has the mark as its own id. */
  lemma {:induction false} WithoutReturns(f: File, route: seq<Link>, kind: Kind, id: ObjId) returns (direct: seq<Link>)
    requires ValidFile(f) && f.broken == {} && (ROOT_MARK in f.groups ==> f.rootId == ROOT_MARK)
    requires Linked(f, route, kind, id)
    ensures LeadsTo(f, direct, kind, id)
    decreases |route|
  {
    if exists k :: 0 <= k < |route| - 1 && route[k].id == ROOT_MARK {
      var k :| 0 <= k < |route| - 1 && route[k].id == ROOT_MARK;
      assert Hop(f, f.rootId, route, k + 1);
      var rest := route[k + 1..];
      forall j: nat | j < |rest| ensures Hop(f, f.rootId, rest, j) {
        assert Hop(f, f.rootId, route, k + 1 + j);
        assert Owner(f.rootId, rest, j) == Owner(f.rootId, route, k + 1 + j);
      }
      direct := WithoutReturns(f, rest, kind, id);
    } else {
      direct := route;
    }
  }

  lemma LinkedIsReachable(f: File, kind: Kind, id: ObjId)
    requires ValidFile(f) && f.broken == {} && (ROOT_MARK in f.groups ==> f.rootId == ROOT_MARK)
    ensures Reachable(f, kind, id) <==> exists route :: Linked(f, route, kind, id)
  {
    if Reachable(f, kind, id) {
      var route :| LeadsTo(f, route, kind, id);
      assert Linked(f, route, kind, id);
    }
    if exists route :: Linked(f, route, kind, id) {
      var route :| Linked(f, route, kind, id);
      var direct := WithoutReturns(f, route, kind, id);
    }
  }

  /** In a file all of whose groups can be opened, where only the root may have the id that marks it:
      nothing that is linked is missed. */
  lemma WalkIsComplete(f: File, kind: Kind, id: ObjId)
    requires ValidFile(f) && kind != OtherLink && f.broken == {}
    requires ROOT_MARK in f.groups ==> f.rootId == ROOT_MARK
    ensures (exists path :: Lists(Structure(f), Entry(path, kind, id)))
       <==> exists route :: Linked(f, route, kind, id)
  {
    WalkFindsExactly(f, kind, id);
    LinkedIsReachable(f, kind, id);
  }

  /** A file whose root holds a group with the root's mark, which holds a dataset. */
  function MarkedFile(): File {
    File(map[ObjId(1, 0) := [Link("g", GroupLink, ObjId(0, 0))],
             ObjId(0, 0) := [Link("d", DatasetLink, ObjId(2, 0))]], ObjId(1, 0), {})
  }

  /** A group that is not the root but has the root's mark is listed, and nothing in it. */
  lemma MarkedGroupIsSkipped()
    ensures var f := MarkedFile();
            ValidFile(f) && Resolve(f, "/g/d") == Found(DatasetLink, ObjId(2, 0))
            && Structure(f) == Tree("/", ObjId(0, 0), [Tree("/g", ObjId(0, 0), [], [])], [])
  {
    var f := MarkedFile();
    assert ValidGroup(f, ObjId(1, 0)) && ValidGroup(f, ROOT_MARK);
    MarkedGroupResolves(f);
    assert ChildPath("/", "g") == "/g";
    MarkedGroupUnfolds(f, "/", f.rootId, [ROOT_MARK], Link("g", GroupLink, ROOT_MARK));
  }

  lemma MarkedGroupUnfolds(f: File, path: string, id: ObjId, chain: seq<ObjId>, member: Link)
    requires ValidFile(f) && id in f.groups && id !in f.broken && |chain| > 0
    requires f.groups[id] == [member] && member.kind == GroupLink && member.id in chain && member.id in f.groups
    ensures var t := Unfold(f, path, id, chain);
            |t.groups| == 1 && t.groups[0] == Tree(ChildPath(path, member.name), member.id, [], []) && |t.datasets| == 0
  {
    OfKindOne(member);
    assert UnfoldMember(f, path, member, chain) == Tree(ChildPath(path, member.name), member.id, [], []);
  }

  lemma OfKindOne(link: Link)
    ensures forall kind :: OfKind([link], kind) == if link.kind == kind then [link] else []
  {
    assert [link][..0] == [];
  }

  lemma MarkedGroupResolves(f: File)
    requires ValidFile(f) && f.rootId in f.groups && ROOT_MARK in f.groups
    requires f.groups[f.rootId] == [Link("g", GroupLink, ROOT_MARK)]
    requires f.groups[ROOT_MARK] == [Link("d", DatasetLink, ObjId(2, 0))]
    ensures Resolve(f, "/g/d") == Found(DatasetLink, ObjId(2, 0)) && ChildPath("/", "g") == "/g"
  {
    assert ChildPath("/", "g") == "/g" && ChildPath("/g", "d") == "/g/d";
    assert Components("/", "") == [] by { assert "/"[1..] == ""; }
    ChildResolves(f, "/", "g");
    ChildResolves(f, "/g", "d");
  }

  // ----- no group twice, bounded depth -----

  ghost predicate NoRepeats(t: Tree, above: seq<ObjId>)
    decreases t, 0
  {
    forall i :: 0 <= i < |t.groups| ==> NotUnfolded(t.groups[i]) || UnfoldedOnce(t.groups[i], above)
  }

  predicate NotUnfolded(t: Tree) {
    t.groups == [] && t.datasets == []
  }

  ghost predicate UnfoldedOnce(t: Tree, above: seq<ObjId>)
    decreases t, 1
  {
    t.id !in above && NoRepeats(t, [t.id] + above)
  }

  /** On no way down is a group unfolded whose id the chain or a group above it has recorded. The
      root is recorded under its mark, not its id. */
  lemma {:induction false} UnfoldNeverRepeats(f: File, path: string, id: ObjId, chain: seq<ObjId>)
    requires ValidFile(f) && |chain| > 0 && id in f.groups
    ensures NoRepeats(Unfold(f, path, id, chain), chain)
    decreases Unvisited(f, chain)
  {
    var t := Unfold(f, path, id, chain);
    if id !in f.broken {
      assert ValidGroup(f, id);
      var members := OfKind(f.groups[id], GroupLink);
      forall i | 0 <= i < |t.groups|
        ensures NotUnfolded(t.groups[i]) || UnfoldedOnce(t.groups[i], chain)
      {
        assert t.groups[i] == UnfoldMember(f, path, members[i], chain);
        if members[i].id !in chain {
          VisitShrinks(f, chain, members[i].id);
          UnfoldNeverRepeats(f, ChildPath(path, members[i].name), members[i].id, [members[i].id] + chain);
        }
      }
    }
  }

  /** Of the groups below the root, none is unfolded twice on a way down; the root itself may be
      unfolded once more. */
  lemma StructureNeverRepeats(f: File)
    requires ValidFile(f)
    ensures NoRepeats(Structure(f), [ROOT_MARK])
  {
    UnfoldNeverRepeats(f, "/", f.rootId, [ROOT_MARK]);
  }

  ghost predicate Below(t: Tree, s: Tree)
    decreases t
  {
    exists i :: 0 <= i < |t.groups| && (t.groups[i] == s || Below(t.groups[i], s))
  }

  /** What has been unfolded below a group is not in its chain, and is listed. */
  lemma {:induction false} UnfoldedBelow(f: File, path: string, id: ObjId, chain: seq<ObjId>, s: Tree)
    requires ValidFile(f) && |chain| > 0 && id in f.groups
    requires Below(Unfold(f, path, id, chain), s) && !NotUnfolded(s)
    ensures s.id !in chain && Lists(Unfold(f, path, id, chain), Entry(s.path, GroupLink, s.id))
    decreases Unvisited(f, chain)
  {
    var t := Unfold(f, path, id, chain);
    assert ValidGroup(f, id);
    var members := OfKind(f.groups[id], GroupLink);
    var i :| 0 <= i < |t.groups| && (t.groups[i] == s || Below(t.groups[i], s));
    assert t.groups[i] == UnfoldMember(f, path, members[i], chain);
    if t.groups[i] == s {
      assert IsGroupEntry(t.groups[i], Entry(s.path, GroupLink, s.id));
    } else {
      var next := [members[i].id] + chain;
      VisitShrinks(f, chain, members[i].id);
      UnfoldedBelow(f, ChildPath(path, members[i].name), members[i].id, next, s);
      assert forall x :: x in chain ==> x in next;
      assert Lists(t.groups[i], Entry(s.path, GroupLink, s.id));
    }
  }

  /** The tree of a group has the tree of each member group. */
  lemma MemberTree(f: File, path: string, id: ObjId, chain: seq<ObjId>, link: Link) returns (i: nat)
    requires ValidFile(f) && |chain| > 0 && id in f.groups && id !in f.broken
    requires link in f.groups[id] && link.kind == GroupLink && link.id in f.groups
    ensures i < |Unfold(f, path, id, chain).groups|
    ensures Unfold(f, path, id, chain).groups[i] == UnfoldMember(f, path, link, chain)
  {
    OfKindHasAll(f.groups[id], GroupLink, link);
    var members := OfKind(f.groups[id], GroupLink);
    i :| 0 <= i < |members| && members[i] == link;
  }

  /** The group a fresh way leads to is unfolded when neither the chain nor the way has it. */
  lemma {:induction false} WayUnfolds(f: File, path: string, id: ObjId, chain: seq<ObjId>, route: seq<Link>)
    returns (s: Tree, path': string, chain': seq<ObjId>)
    requires ValidFile(f) && |chain| > 0 && id in f.groups && IsRoute(f, id, route) && Fresh(f, id, route, chain)
    requires var last := route[|route| - 1];
             last.kind == GroupLink && last.id !in chain && last.id in f.groups
             && forall k :: 0 <= k < |route| - 1 ==> route[k].id != last.id
    ensures Below(Unfold(f, path, id, chain), s) && |chain'| > 0 && s.id in f.groups
    ensures s.id == route[|route| - 1].id && s == Unfold(f, path', s.id, chain')
    decreases |route|
  {
    var t := Unfold(f, path, id, chain);
    var link := route[0];
    assert Hop(f, id, route, 0) && ValidGroup(f, id);
    var i := MemberTree(f, path, id, chain, link);
    var next := [link.id] + chain;
    if |route| == 1 {
      s, path', chain' := t.groups[i], ChildPath(path, link.name), next;
    } else {
      TailRoute(f, id, route, chain);
      s, path', chain' := WayUnfolds(f, ChildPath(path, link.name), link.id, next, route[1..]);
      assert Below(t.groups[i], s);
    }
  }

  /** A way to the root that does not lead through it before. */
  lemma {:induction false} FirstReturn(f: File, route: seq<Link>) returns (short: seq<Link>)
    requires LeadsTo(f, route, GroupLink, f.rootId) && Fresh(f, f.rootId, route, [ROOT_MARK])
    ensures LeadsTo(f, short, GroupLink, f.rootId) && Fresh(f, f.rootId, short, [ROOT_MARK])
    ensures forall k :: 0 <= k < |short| - 1 ==> short[k].id != f.rootId
    decreases |route|
  {
    if exists k :: 0 <= k < |route| - 1 && route[k].id == f.rootId {
      var k :| 0 <= k < |route| - 1 && route[k].id == f.rootId;
      var front := route[..k + 1];
      forall j: nat | j < |front| ensures Hop(f, f.rootId, front, j) {
        assert Hop(f, f.rootId, route, j);
      }
      assert Hop(f, f.rootId, route, k);
      short := FirstReturn(f, front);
    } else {
      short := route;
    }
  }

  lemma RootReturns(f: File) returns (s: Tree)
    requires ValidFile(f) && f.rootId != ROOT_MARK && Reachable(f, GroupLink, f.rootId)
    ensures IsRootAgain(f, s)
  {
    var route :| LeadsTo(f, route, GroupLink, f.rootId);
    var direct := WithoutDetours(f, route, GroupLink, f.rootId);
    var short := FirstReturn(f, direct);
    var path, chain;
    s, path, chain := WayUnfolds(f, "/", f.rootId, [ROOT_MARK], short);
    assert Hop(f, f.rootId, short, 0);
    OfKindHasAll(f.groups[f.rootId], GroupLink, short[0]);
  }

  /** The root, unfolded below itself. */
  ghost predicate IsRootAgain(f: File, s: Tree)
    requires ValidFile(f)
  {
    Below(Structure(f), s) && s.id == f.rootId && !NotUnfolded(s)
  }

  /** The root is unfolded a second time exactly when its id is not the mark it is recorded under and
      links lead back to it through groups that open. */
  lemma RootUnfoldedAgainExactly(f: File)
    requires ValidFile(f)
    ensures (exists s :: IsRootAgain(f, s)) <==> f.rootId != ROOT_MARK && Reachable(f, GroupLink, f.rootId)
  {
    if exists s :: IsRootAgain(f, s) {
      var s :| IsRootAgain(f, s);
      UnfoldedBelow(f, "/", f.rootId, [ROOT_MARK], s);
      WalkFindsExactly(f, GroupLink, f.rootId);
    }
    if f.rootId != ROOT_MARK && Reachable(f, GroupLink, f.rootId) {
      var s := RootReturns(f);
    }
  }

  ghost predicate HeightAtMost(t: Tree, n: nat)
    decreases n
  {
    n > 0 && forall i :: 0 <= i < |t.groups| ==> HeightAtMost(t.groups[i], n - 1)
  }

  /** The tree is at most as deep as there are groups, plus the root and one level of members that
      are not unfolded again. */
  lemma {:induction false} UnfoldIsShallow(f: File, path: string, id: ObjId, chain: seq<ObjId>, n: nat)
    requires ValidFile(f) && |chain| > 0 && id in f.groups && n >= |Unvisited(f, chain)| + 2
    ensures HeightAtMost(Unfold(f, path, id, chain), n)
    decreases Unvisited(f, chain), 1
  {
    var t := Unfold(f, path, id, chain);
    if id !in f.broken {
      assert ValidGroup(f, id);
      var members := OfKind(f.groups[id], GroupLink);
      forall i | 0 <= i < |t.groups|
        ensures HeightAtMost(t.groups[i], n - 1)
      {
        assert t.groups[i] == UnfoldMember(f, path, members[i], chain);
        MemberIsShallow(f, path, members[i], chain, n - 1);
      }
    }
  }

  lemma {:induction false} MemberIsShallow(f: File, path: string, member: Link, chain: seq<ObjId>, n: nat)
    requires ValidFile(f) && |chain| > 0 && member.id in f.groups && n >= |Unvisited(f, chain)| + 1
    ensures HeightAtMost(UnfoldMember(f, path, member, chain), n)
    decreases Unvisited(f, chain), 0
  {
    if member.id !in chain {
      var next := [member.id] + chain;
      VisitShrinks(f, chain, member.id);
      SmallerSet(Unvisited(f, next), Unvisited(f, chain));
      UnfoldIsShallow(f, ChildPath(path, member.name), member.id, next, n);
    }
  }

  lemma SmallerSet<T>(a: set<T>, b: set<T>)
    requires a < b
    ensures |a| < |b|
  {
    var x :| x in b && x !in a;
    assert b == a + {x} + (b - a - {x});
  }

  // ----- the walk as the program does it -----

  class H5Group {
    const fullpath: string
    const objID: ObjId
    const parent: H5Group?
    /** Recorded ids from this group up to the root. */
    ghost const chain: seq<ObjId>
    var ngroups: nat
    var groups: array?<H5Group?>
    var ndatasets: nat
    var datasets: array?<Leaf>
    ghost var Repr: set<object>

    constructor (fullpath: string, objID: ObjId, parent: H5Group?)
      requires parent != null ==> parent.HasChain()
      ensures this.fullpath == fullpath && this.objID == objID && this.parent == parent && HasChain()
      ensures chain == [objID] + if parent == null then [] else parent.chain
      ensures Repr == {this} && Represents(Tree(fullpath, objID, [], []))
    {
      this.fullpath, this.objID, this.parent := fullpath, objID, parent;
      chain := [objID] + if parent == null then [] else parent.chain;
      ngroups, ndatasets, groups, datasets := 0, 0, null, null;
      Repr := {this};
    }

    ghost predicate HasChain()
      decreases |chain|
    {
      |chain| > 0 && chain[0] == objID
      && if parent == null then |chain| == 1 else parent.chain == chain[1..] && parent.HasChain()
    }

    /** The group and its members are the tree. */
    ghost predicate Represents(t: Tree)
      reads this, Repr
      decreases t, 1
    {
      this in Repr && t.path == fullpath && t.id == objID
      && ngroups == |t.groups| && ndatasets == |t.datasets|
      && (if groups == null then ngroups == 0 else groups in Repr && groups.Length == ngroups)
      && (if datasets == null then ndatasets == 0 else datasets in Repr && datasets[..] == t.datasets)
      && forall i: nat :: i < ngroups ==> Member(i, t)
    }

    ghost predicate Member(i: nat, t: Tree)
      reads this, Repr
      decreases t, 0
    {
      i < |t.groups| && groups != null && groups in Repr && i < groups.Length
      && groups[i] != null && groups[i] in Repr && groups[i].Repr <= Repr && this !in groups[i].Repr
      && groups !in groups[i].Repr && (datasets == null || datasets !in groups[i].Repr)
      && groups[i].Represents(t.groups[i])
    }
  }

  lemma OfKindSnoc(links: seq<Link>, i: nat, kind: Kind)
    requires i < |links|
    ensures OfKind(links[..i + 1], kind)
         == if links[i].kind == kind then OfKind(links[..i], kind) + [links[i]] else OfKind(links[..i], kind)
  {
    assert links[..i + 1][..i] == links[..i];
  }

  lemma {:induction false} OfKindPrefix(links: seq<Link>, i: nat, kind: Kind)
    requires i <= |links|
    ensures OfKind(links[..i], kind) <= OfKind(links, kind)
    decreases |links| - i
  {
    if i == |links| {
      assert links[..i] == links;
    } else {
      var here, next := OfKind(links[..i], kind), OfKind(links[..i + 1], kind);
      OfKindSnoc(links, i, kind);
      assert here <= next;
      OfKindPrefix(links, i + 1, kind);
    }
  }

  /** H5File_has_loop: looks for the id among the groups above. */
  method HasLoop(g: H5Group, ids: ObjId) returns (loop: bool)
    requires g.HasChain()
    ensures loop <==> ids in g.chain[1..]
    decreases |g.chain|
  {
    loop := false;
    if g.parent != null {
      if g.parent.objID == ids {
        loop := true;
      } else {
        loop := HasLoop(g.parent, ids);
      }
    }
  }

  /** How many members of a kind there are, which is how many places are allocated. */
  method CountKind(links: seq<Link>, kind: Kind) returns (n: nat)
    ensures n == |OfKind(links, kind)|
  {
    n := 0;
    var i := 0;
    while i < |links|
      invariant 0 <= i <= |links| && n == CountBefore(links, i, kind)
    {
      if links[i].kind == kind {
        n := n + 1;
      }
      i := i + 1;
    }
    CountAll(links, kind);
  }

  /** The path of a group in the tree opens group id. */
  ghost predicate Opens(f: File, g: H5Group, id: ObjId) {
    g.HasChain() && (g.fullpath == "/" || |g.fullpath| > 1) && Resolve(f, g.fullpath) == Found(GroupLink, id)
  }

  /** H5File_depth_first: fills in the members of a group, opening it by its path. */
  method DepthFirst(f: File, parent: H5Group, ghost id: ObjId) returns (ok: bool)
    requires ValidFile(f) && id in f.groups && Opens(f, parent, id)
    requires parent.Repr == {parent} && parent.Represents(Tree(parent.fullpath, parent.objID, [], []))
    modifies parent
    ensures parent.Represents(Unfold(f, parent.fullpath, id, parent.chain)) && fresh(parent.Repr - {parent})
    ensures ok <==> WalkOk(f, id, parent.chain)
    decreases Unvisited(f, parent.chain), 3
  {
    var found := Resolve(f, parent.fullpath);
    if found.id in f.broken {
      return false;
    }
    var members := f.groups[found.id];
    assert ValidGroup(f, id);
    ok := true;
    if |members| == 0 {
      return;
    }
    ghost var t := Unfold(f, parent.fullpath, id, parent.chain);
    Allocate(members, parent, t);
    ok := FillMembers(f, parent, members, id, t);
    FilledRepresents(parent, t);
  }

  /** The tree has the members of a group, in their order. */
  ghost predicate HasMembers(t: Tree, f: File, members: seq<Link>, chain: seq<ObjId>) {
    ValidFile(f) && |chain| > 0
    && |t.groups| == |OfKind(members, GroupLink)| && |t.datasets| == |OfKind(members, DatasetLink)|
    && (forall k: nat :: k < |t.groups| ==> HasGroup(t, f, OfKind(members, GroupLink)[k], chain, k))
    && (forall k: nat :: k < |t.datasets| ==> HasLeaf(t, OfKind(members, DatasetLink)[k], k))
  }

  ghost predicate HasGroup(t: Tree, f: File, member: Link, chain: seq<ObjId>, k: nat) {
    ValidFile(f) && |chain| > 0 && k < |t.groups| && member.id in f.groups
    && t.groups[k] == UnfoldMember(f, t.path, member, chain)
  }

  predicate HasLeaf(t: Tree, member: Link, k: nat) {
    k < |t.datasets| && t.datasets[k] == Leaf(ChildPath(t.path, member.name), member.id)
  }

  /** The member belongs to group id and is the next one in the tree. */
  ghost predicate IsNext(f: File, id: ObjId, member: Link, t: Tree, gidx: nat, didx: nat, chain: seq<ObjId>) {
    member in NextMembers(f, id, t, gidx, didx, chain)
  }

  ghost function NextMembers(f: File, id: ObjId, t: Tree, gidx: nat, didx: nat, chain: seq<ObjId>): iset<Link> {
    iset member: Link |
      ValidName(member.name) && Follow(f, Found(GroupLink, id), member.name) == Found(member.kind, member.id)
      && match member.kind
         case GroupLink => HasGroup(t, f, member, chain, gidx)
         case DatasetLink => HasLeaf(t, member, didx)
         case OtherLink => true
  }

  lemma NextMember(f: File, id: ObjId, members: seq<Link>, i: nat, t: Tree, chain: seq<ObjId>)
    requires ValidFile(f) && ValidGroup(f, id) && members == f.groups[id] && i < |members|
    requires HasMembers(t, f, members, chain)
    ensures IsNext(f, id, members[i], t, CountBefore(members, i, GroupLink), CountBefore(members, i, DatasetLink),
        chain)
    ensures OkBefore(f, members, i + 1, chain)
       <==> if members[i].kind == GroupLink && members[i].id !in chain
            then WalkOk(f, members[i].id, [members[i].id] + chain)
            else OkBefore(f, members, i, chain)
  {
    NextOfKind(members, i);
    FindsLink(members, members[i]);
    assert members[i].kind == GroupLink ==> HasGroup(t, f, members[i], chain, CountBefore(members, i, GroupLink));
    assert members[i].kind == DatasetLink ==> HasLeaf(t, members[i], CountBefore(members, i, DatasetLink));
  }

  /** The loop over the members of a group. */
  method FillMembers(f: File, parent: H5Group, members: seq<Link>, ghost id: ObjId, ghost t: Tree) returns (ok: bool)
    requires ValidFile(f) && ValidGroup(f, id) && members == f.groups[id] && Opens(f, parent, id)
    requires HasMembers(t, f, members, parent.chain) && Filled(parent, t, 0, 0)
    modifies parent, parent.groups, parent.datasets
    ensures Filled(parent, t, |t.groups|, |t.datasets|) && fresh(parent.Repr - old(parent.Repr))
    ensures ok <==> OkBefore(f, members, |members|, parent.chain)
    decreases Unvisited(f, parent.chain), 2
  {
    var gidx, didx, i := 0, 0, 0;
    ok := true;
    while i < |members|
      invariant 0 <= i <= |members|
      invariant gidx == CountBefore(members, i, GroupLink) && didx == CountBefore(members, i, DatasetLink)
      invariant Filled(parent, t, gidx, didx) && fresh(parent.Repr - old(parent.Repr))
      invariant parent.groups == old(parent.groups) && parent.datasets == old(parent.datasets)
      invariant ok <==> OkBefore(f, members, i, parent.chain)
    {
      NextMember(f, id, members, i, t, parent.chain);
      gidx, didx, ok := AddMember(f, parent, members[i], id, t, gidx, didx, ok);
      i := i + 1;
    }
    CountAll(members, GroupLink);
    CountAll(members, DatasetLink);
  }

  lemma FilledRepresents(parent: H5Group, t: Tree)
    requires Filled(parent, t, |t.groups|, |t.datasets|)
    ensures parent.Represents(t)
  {
    assert parent.datasets != null ==> parent.datasets[..] == parent.datasets[..|t.datasets|];
  }

  /** How many of the links before i are of this kind. */
  function CountBefore(links: seq<Link>, i: nat, kind: Kind): nat
    requires i <= |links|
  {
    if i == 0 then 0 else CountBefore(links, i - 1, kind) + if links[i - 1].kind == kind then 1 else 0
  }

  lemma {:induction false} CountIsLength(links: seq<Link>, i: nat, kind: Kind)
    requires i <= |links|
    ensures CountBefore(links, i, kind) == |OfKind(links[..i], kind)|
  {
    if i > 0 {
      CountIsLength(links, i - 1, kind);
      OfKindSnoc(links, i - 1, kind);
    }
  }

  lemma CountAll(links: seq<Link>, kind: Kind)
    ensures CountBefore(links, |links|, kind) == |OfKind(links, kind)|
  {
    CountIsLength(links, |links|, kind);
    assert links[..|links|] == links;
  }

  /** The i-th link is the next of its kind. */
  lemma NextOfKind(links: seq<Link>, i: nat)
    requires i < |links|
    ensures var kind := links[i].kind;
            var n := CountBefore(links, i, kind);
            n < |OfKind(links, kind)| && OfKind(links, kind)[n] == links[i]
  {
    var kind := links[i].kind;
    CountIsLength(links, i, kind);
    OfKindSnoc(links, i, kind);
    OfKindPrefix(links, i + 1, kind);
    assert OfKind(links[..i + 1], kind)[CountBefore(links, i, kind)] == links[i];
  }

  /** The first n groups and m datasets of the tree are in place. */
  ghost predicate Filled(parent: H5Group, t: Tree, n: nat, m: nat)
    reads parent, parent.Repr
  {
    Allocated(parent, t) && n <= |t.groups| && LeavesFilled(parent, t, m)
    && forall k: nat :: k < n ==> parent.Member(k, t)
  }

  method PutGroup(parent: H5Group, ghost t: Tree, gidx: nat, ghost didx: nat, g: H5Group)
    requires Filled(parent, t, gidx, didx) && gidx < |t.groups|
    requires g in g.Repr && g.Represents(t.groups[gidx]) && parent !in g.Repr
    requires (parent.groups == null || parent.groups !in g.Repr)
    requires (parent.datasets == null || parent.datasets !in g.Repr)
    modifies parent, parent.groups
    ensures Filled(parent, t, gidx + 1, didx) && parent.Repr == old(parent.Repr) + g.Repr
    ensures parent.groups == old(parent.groups) && parent.datasets == old(parent.datasets)
  {
    ghost var groups := parent.groups;
    parent.groups[gidx] := g;
    parent.Repr := parent.Repr + g.Repr;
    forall k: nat | k < gidx + 1 ensures parent.Member(k, t) {
      if k < gidx {
        assert old(parent.Member(k, t));
        assert parent.groups[k] == old(parent.groups[k]);
      }
    }
  }

  method PutLeaf(parent: H5Group, ghost t: Tree, ghost gidx: nat, didx: nat, leaf: Leaf)
    requires Filled(parent, t, gidx, didx) && didx < |t.datasets| && leaf == t.datasets[didx]
    modifies parent.datasets
    ensures Filled(parent, t, gidx, didx + 1)
  {
    parent.datasets[didx] := leaf;
    assert parent.datasets[..didx + 1] == parent.datasets[..didx] + [leaf];
    forall k: nat | k < gidx ensures parent.Member(k, t) {
      assert old(parent.Member(k, t));
    }
  }

  /** One turn of the loop over the members of a group. */
  method AddMember(f: File, parent: H5Group, member: Link, ghost id: ObjId, ghost t: Tree, gidx: nat, didx: nat,
                   ok: bool)
    returns (gidx': nat, didx': nat, ok': bool)
    requires ValidFile(f) && id in f.groups && Opens(f, parent, id)
    requires IsNext(f, id, member, t, gidx, didx, parent.chain) && t.path == parent.fullpath
    requires Filled(parent, t, gidx, didx)
    modifies parent, parent.groups, parent.datasets
    ensures gidx' == (if member.kind == GroupLink then gidx + 1 else gidx)
    ensures didx' == (if member.kind == DatasetLink then didx + 1 else didx)
    ensures ok' <==> if member.kind == GroupLink && member.id !in parent.chain
                     then WalkOk(f, member.id, [member.id] + parent.chain) else ok
    ensures Filled(parent, t, gidx', didx') && fresh(parent.Repr - old(parent.Repr))
    ensures parent.groups == old(parent.groups) && parent.datasets == old(parent.datasets)
    decreases Unvisited(f, parent.chain), 1
  {
    gidx', didx', ok' := gidx, didx, ok;
    if member.kind == GroupLink {
      var g;
      g, ok' := WalkMember(f, parent, member, id, ok);
      PutGroup(parent, t, gidx, didx, g);
      gidx' := gidx + 1;
    } else if member.kind == DatasetLink {
      PutLeaf(parent, t, gidx, didx, Leaf(ChildPath(parent.fullpath, member.name), member.id));
      didx' := didx + 1;
    }
  }

  /** One member group, which is unfolded unless it is on the way from the root. */
  method WalkMember(f: File, parent: H5Group, member: Link, ghost id: ObjId, ok: bool)
    returns (g: H5Group, status: bool)
    requires ValidFile(f) && id in f.groups && Opens(f, parent, id) && ValidName(member.name)
    requires member.kind == GroupLink && member.id in f.groups
    requires Follow(f, Found(GroupLink, id), member.name) == Found(GroupLink, member.id)
    ensures fresh(g.Repr) && g in g.Repr && g.Represents(UnfoldMember(f, parent.fullpath, member, parent.chain))
    ensures status <==> if member.id in parent.chain then ok else WalkOk(f, member.id, [member.id] + parent.chain)
    decreases Unvisited(f, parent.chain), 0
  {
    g := new H5Group(ChildPath(parent.fullpath, member.name), member.id, parent);
    ChildResolves(f, parent.fullpath, member.name);
    status := ok;
    var loop := HasLoop(g, g.objID);
    if !loop {
      VisitShrinks(f, parent.chain, member.id);
      status := DepthFirst(f, g, member.id);
    }
  }

  /** Whether the walk reports success: the status of the member group that is unfolded last. */
  predicate WalkOk(f: File, id: ObjId, chain: seq<ObjId>)
    decreases Unvisited(f, chain), 1, 0
  {
    id in f.groups && id !in f.broken && OkBefore(f, f.groups[id], |f.groups[id]|, chain)
  }

  predicate OkBefore(f: File, members: seq<Link>, n: nat, chain: seq<ObjId>)
    requires n <= |members|
    decreases Unvisited(f, chain), 0, n
  {
    if n == 0 then true
    else
      var last := members[n - 1];
      if last.kind != GroupLink || last.id in chain || last.id !in f.groups then OkBefore(f, members, n - 1, chain)
      else
        VisitShrinks(f, chain, last.id);
        WalkOk(f, last.id, [last.id] + chain)
  }

  /** The group the walk opens last: from group to group, the last member group that is unfolded. */
  function LastOpened(f: File, id: ObjId, chain: seq<ObjId>): ObjId
    decreases Unvisited(f, chain), 1, 0
  {
    if id !in f.groups || id in f.broken then id
    else LastOpenedBefore(f, id, |f.groups[id]|, chain)
  }

  function LastOpenedBefore(f: File, id: ObjId, n: nat, chain: seq<ObjId>): ObjId
    requires id in f.groups && n <= |f.groups[id]|
    decreases Unvisited(f, chain), 0, n
  {
    if n == 0 then id
    else
      var last := f.groups[id][n - 1];
      if last.kind != GroupLink || last.id in chain || last.id !in f.groups then LastOpenedBefore(f, id, n - 1, chain)
      else
        VisitShrinks(f, chain, last.id);
        LastOpened(f, last.id, [last.id] + chain)
  }

  /** The walk reports success exactly when the group it opens last does open; that another one did
      not is not reported. */
  lemma {:induction false} SuccessExactly(f: File, id: ObjId, chain: seq<ObjId>)
    requires id in f.groups
    ensures WalkOk(f, id, chain) <==> LastOpened(f, id, chain) !in f.broken
    decreases Unvisited(f, chain), 1, 0
  {
    if id !in f.broken {
      SuccessBefore(f, id, |f.groups[id]|, chain);
    }
  }

  lemma {:induction false} SuccessBefore(f: File, id: ObjId, n: nat, chain: seq<ObjId>)
    requires id in f.groups && id !in f.broken && n <= |f.groups[id]|
    ensures OkBefore(f, f.groups[id], n, chain) <==> LastOpenedBefore(f, id, n, chain) !in f.broken
    decreases Unvisited(f, chain), 0, n
  {
    if n > 0 {
      var last := f.groups[id][n - 1];
      if last.kind != GroupLink || last.id in chain || last.id !in f.groups {
        SuccessBefore(f, id, n - 1, chain);
      } else {
        VisitShrinks(f, chain, last.id);
        SuccessExactly(f, last.id, [last.id] + chain);
      }
    }
  }

  /** The group opened last is the one the walk starts from, or listed below it. */
  lemma {:induction false} LastOpenedIsListed(f: File, path: string, id: ObjId, n: nat, chain: seq<ObjId>)
    returns (e: Entry)
    requires ValidFile(f) && |chain| > 0 && id in f.groups && id !in f.broken && n <= |f.groups[id]|
    ensures e.kind == GroupLink && e.id == LastOpenedBefore(f, id, n, chain)
    ensures e.id == id || Lists(Unfold(f, path, id, chain), e)
    decreases Unvisited(f, chain), n
  {
    assert ValidGroup(f, id);
    if n == 0 {
      e := Entry(path, GroupLink, id);
    } else {
      var last := f.groups[id][n - 1];
      if last.kind != GroupLink || last.id in chain {
        e := LastOpenedIsListed(f, path, id, n - 1, chain);
      } else {
        VisitShrinks(f, chain, last.id);
        var i := MemberTree(f, path, id, chain, last);
        var member := Unfold(f, path, id, chain).groups[i];
        var next := ChildPath(path, last.name);
        e := Entry(next, GroupLink, last.id);
        assert IsGroupEntry(member, e);
        if last.id !in f.broken {
          e := LastOpenedIsListed(f, next, last.id, |f.groups[last.id]|, [last.id] + chain);
          if e.id == last.id {
            e := Entry(next, GroupLink, last.id);
          } else {
            assert Lists(member, e);
          }
        }
      }
    }
  }

  /** A reported error is real: a group that can be reached does not open. */
  lemma ErrorIsReal(f: File)
    requires ValidFile(f) && !WalkOk(f, f.rootId, [ROOT_MARK])
    ensures exists id :: id in f.broken && (id == f.rootId || Reachable(f, GroupLink, id))
  {
    SuccessExactly(f, f.rootId, [ROOT_MARK]);
    if f.rootId !in f.broken {
      var e := LastOpenedIsListed(f, "/", f.rootId, |f.groups[f.rootId]|, [ROOT_MARK]);
      if e.id != f.rootId {
        WalkFindsExactly(f, GroupLink, e.id);
        assert Lists(Structure(f), Entry(e.path, GroupLink, e.id));
      }
    }
  }

  /** Every group that can be reached opens. */
  ghost predicate AllOpen(f: File) {
    f.rootId !in f.broken && forall id :: Reachable(f, GroupLink, id) ==> id !in f.broken
  }

  /** The report is true, an error when some group does not open and success when all do, exactly when
      all groups open or the one opened last does not. */
  lemma ReportIsTrueExactly(f: File)
    requires ValidFile(f)
    ensures (WalkOk(f, f.rootId, [ROOT_MARK]) <==> AllOpen(f))
       <==> AllOpen(f) || LastOpened(f, f.rootId, [ROOT_MARK]) in f.broken
  {
    SuccessExactly(f, f.rootId, [ROOT_MARK]);
    if !WalkOk(f, f.rootId, [ROOT_MARK]) {
      ErrorIsReal(f);
    }
  }

  /** A file whose first group does not open while the second one does: success is reported. */
  lemma ErrorIsLost()
    ensures var f := File(map[ObjId(1, 0) := [Link("a", GroupLink, ObjId(2, 0)), Link("b", GroupLink, ObjId(3, 0))],
                              ObjId(2, 0) := [], ObjId(3, 0) := []], ObjId(1, 0), {ObjId(2, 0)});
            ValidFile(f) && WalkOk(f, f.rootId, [ROOT_MARK]) && Reachable(f, GroupLink, ObjId(2, 0))
  {
    var f := File(map[ObjId(1, 0) := [Link("a", GroupLink, ObjId(2, 0)), Link("b", GroupLink, ObjId(3, 0))],
                      ObjId(2, 0) := [], ObjId(3, 0) := []], ObjId(1, 0), {ObjId(2, 0)});
    assert ValidGroup(f, ObjId(1, 0)) && ValidGroup(f, ObjId(2, 0)) && ValidGroup(f, ObjId(3, 0));
    assert WalkOk(f, ObjId(3, 0), [ObjId(3, 0), ROOT_MARK]);
    assert [ObjId(3, 0)] + [ROOT_MARK] == [ObjId(3, 0), ROOT_MARK];
    var route := [f.groups[f.rootId][0]];
    assert Hop(f, f.rootId, route, 0);
    assert LeadsTo(f, route, GroupLink, ObjId(2, 0));
  }

  ghost predicate LeavesFilled(parent: H5Group, t: Tree, n: nat)
    reads parent, parent.datasets
  {
    n <= |t.datasets| && parent.ndatasets == |t.datasets|
    && (n > 0 ==> parent.datasets != null && n <= parent.datasets.Length && parent.datasets[..n] == t.datasets[..n])
  }

  ghost predicate Allocated(parent: H5Group, t: Tree)
    reads parent
  {
    parent.ngroups == |t.groups| && parent.ndatasets == |t.datasets| && parent in parent.Repr
    && t.path == parent.fullpath && t.id == parent.objID
    && (if parent.groups == null then parent.ngroups == 0
        else parent.groups in parent.Repr && parent.groups.Length == parent.ngroups)
    && (if parent.datasets == null then parent.ndatasets == 0
        else parent.datasets in parent.Repr && parent.datasets.Length == parent.ndatasets)
  }

  method Allocate(members: seq<Link>, parent: H5Group, ghost t: Tree)
    requires parent.Repr == {parent} && t.path == parent.fullpath && t.id == parent.objID
    requires |t.groups| == |OfKind(members, GroupLink)| && |t.datasets| == |OfKind(members, DatasetLink)|
    requires parent.groups == null && parent.datasets == null
    modifies parent
    ensures Filled(parent, t, 0, 0) && fresh(parent.Repr - {parent})
  {
    parent.ngroups := CountKind(members, GroupLink);
    parent.ndatasets := CountKind(members, DatasetLink);
    if parent.ngroups > 0 {
      parent.groups := new H5Group?[parent.ngroups](_ => null);
      parent.Repr := parent.Repr + {parent.groups};
    }
    if parent.ndatasets > 0 {
      parent.datasets := new Leaf[parent.ndatasets](_ => Leaf("", ROOT_MARK));
      parent.Repr := parent.Repr + {parent.datasets};
    }
  }

  /** H5File_get_structure */
  method GetStructure(f: File) returns (root: H5Group, ok: bool)
    requires ValidFile(f)
    ensures fresh(root) && root.Represents(Structure(f))
    ensures ok <==> WalkOk(f, f.rootId, [ROOT_MARK])
  {
    root := new H5Group("/", ROOT_MARK, null);
    assert Components("/", "") == [] by { assert "/"[1..] == ""; }
    assert root.chain == [ROOT_MARK];
    ok := DepthFirst(f, root, f.rootId);
  }
}
