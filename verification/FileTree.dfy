/**
 One snapshot of a file tree with symbolic links, the kernel's path resolution over it, and the
 three walkers of the program: canonicalisation, the contained file view, and the symlink check.
 Each walker is proved equal to a descent through real directories that follows no link at all.
 */
module FileTree {
  import opened Prelude
  import opened Paths

  const MAX_READ_BYTES := 10 * 1024 * 1024

  /** The kernel follows at most this many links in resolving one path. */
  const MAX_LINKS := 40

  datatype Node =
    | File(data: bytes)
    | Dir(entries: map<string, Node>)
    | Symlink(absolute: bool, target: seq<string>)
    | Other

  type Route = seq<string>

  datatype Errno = NoEnt | NotDir | Loop

  // ---- the file system ------------------------------------------------------------------------

  /** A descent from a node by names, through directories only. */
  datatype Descent = Found(node: Node) | Absent | Blocked(end: Node)

  function Down(node: Node, parts: Route): Descent
    decreases |parts|
  {
    if parts == [] then Found(node)
    else if !node.Dir? then Blocked(node)
    else if parts[0] !in node.entries then Absent
    else Down(node.entries[parts[0]], parts[1..])
  }

  predicate Dot(name: string) { name == "" || name == "." }

  predicate Proper(name: string) { !Dot(name) && name != ".." }

  function Parent(at: Route): Route { if at == [] then [] else at[..|at| - 1] }

  /** The kernel's resolution of a path: links on the way are followed, the last one on request. */
  function Resolve(fs: Node, at: Route, names: Route, follow: bool, links: nat): Result<Route, Errno>
    decreases links, |names|
  {
    if names == [] then Success(at)
    else
      var here := Down(fs, at);
      if !here.Found? || !here.node.Dir? then Failure(NotDir)
      else if Dot(names[0]) then Resolve(fs, at, names[1..], follow, links)
      else if names[0] == ".." then Resolve(fs, Parent(at), names[1..], follow, links)
      else if names[0] !in here.node.entries then Failure(NoEnt)
      else
        var child := here.node.entries[names[0]];
        if child.Symlink? && (|names| > 1 || follow) then
          if links == 0 then Failure(Loop)
          else Resolve(fs, if child.absolute then [] else at, child.target + names[1..], follow, links - 1)
        else Resolve(fs, at + [names[0]], names[1..], follow, links)
  }

  /** `os.lstat` of an absolute path. */
  function Lstat(fs: Node, path: Route): Result<Node, Errno> {
    var resolved := Resolve(fs, [], path, false, MAX_LINKS);
    if resolved.Failure? then Failure(resolved.error)
    else
      var node := Down(fs, resolved.value);
      if node.Found? then Success(node.node) else Failure(NoEnt)
  }

  /** `os.path.realpath`: links are expanded, at most `fuel` of them, and missing names are kept. */
  function RealPath(fs: Node, at: Route, names: Route, fuel: nat): Route
    decreases fuel, |names|
  {
    if names == [] then at
    else if Dot(names[0]) then RealPath(fs, at, names[1..], fuel)
    else if names[0] == ".." then RealPath(fs, Parent(at), names[1..], fuel)
    else
      var next := Down(fs, at + [names[0]]);
      if next.Found? && next.node.Symlink? then
        if fuel == 0 then at + names
        else RealPath(fs, if next.node.absolute then [] else at, next.node.target + names[1..], fuel - 1)
      else RealPath(fs, at + [names[0]], names[1..], fuel)
  }

  // ---- what resolution does when no link is in the way ------------------------------------------

  lemma {:induction false} DownSplit(node: Node, a: Route, b: Route)
    ensures Down(node, a + b) == if Down(node, a).Found? then Down(Down(node, a).node, b) else Down(node, a)
    decreases |a|
  {
    if a == [] {
      assert a + b == b;
    } else if node.Dir? && a[0] in node.entries {
      assert (a + b)[1..] == a[1..] + b;
      DownSplit(node.entries[a[0]], a[1..], b);
    }
  }

  predicate AllProper(names: Route) { forall k :: 0 <= k < |names| ==> Proper(names[k]) }

  /** From a real place, a path that descends through directories resolves to itself. */
  lemma {:induction false} ResolveDown(fs: Node, at: Route, names: Route, links: nat)
    requires Down(fs, at).Found? && AllProper(names)
    ensures var r, d := Resolve(fs, at, names, false, links), Down(Down(fs, at).node, names);
      && (d.Found? ==> r == Success(at + names))
      && (d.Absent? ==> r == Failure(NoEnt))
      && (d.Blocked? && !d.end.Symlink? ==> r == Failure(NotDir))
    decreases |names|
  {
    if names == [] {
      assert at + names == at;
    } else {
      var node := Down(fs, at).node;
      DownSplit(fs, at, [names[0]]);
      if node.Dir? && names[0] in node.entries {
        assert [names[0]][1..] == [];
        var child := node.entries[names[0]];
        assert at + [names[0]] + names[1..] == at + names;
        if child.Symlink? && |names| > 1 {
          assert Down(child, names[1..]) == Blocked(child);
        } else {
          ResolveDown(fs, at + [names[0]], names[1..], links);
        }
      }
    }
  }

  /** `lstat` under a real directory, in terms of the descent from it. */
  lemma LstatDown(fs: Node, root: Route, parts: Route)
    requires Rooted(fs, root) && AllProper(parts)
    ensures var r, d := Lstat(fs, root + parts), Down(RootNode(fs, root), parts);
      && (d.Found? ==> r == Success(d.node))
      && (d.Absent? ==> r == Failure(NoEnt))
      && (d.Blocked? && !d.end.Symlink? ==> r == Failure(NotDir))
  {
    hide Resolve, Down, Proper;
    DownSplit(fs, root, parts);
    var all := root + parts;
    forall k | 0 <= k < |all| ensures Proper(all[k]) {
      assert all[k] == if k < |root| then root[k] else parts[k - |root|];
    }
    DownSplit(fs, [], all);
    EmptyDown(fs);
    ResolveDown(fs, [], all, MAX_LINKS);
    assert [] + all == all;
  }

  lemma EmptyDown(node: Node)
    ensures Down(node, []) == Found(node)
  {
  }

  /** The repository root: a directory reached by proper names through real directories. */
  predicate Rooted(fs: Node, root: Route) {
    AllProper(root) && Down(fs, root).Found? && Down(fs, root).node.Dir?
  }

  function RootNode(fs: Node, root: Route): (n: Node)
    requires Rooted(fs, root)
    ensures n.Dir?
  {
    Down(fs, root).node
  }

  /** No link stands on a descent, whether it arrives or not. */
  predicate Linkless(d: Descent) {
    match d
    case Found(n) => !n.Symlink?
    case Absent => true
    case Blocked(end) => !end.Symlink?
  }

  lemma {:induction false} RealPathDown(fs: Node, at: Route, names: Route, fuel: nat)
    requires AllProper(names) && Linkless(Down(fs, at + names))
    ensures RealPath(fs, at, names, fuel) == at + names
    decreases |names|
  {
    if names == [] {
      assert at + names == at;
    } else {
      var next := at + [names[0]];
      assert next + names[1..] == at + names;
      DownSplit(fs, next, names[1..]);
      LinkBlocks(fs, next, names[1..]);
      hide Down;
      RealPathDown(fs, next, names[1..], fuel);
    }
  }

  lemma LinkBlocks(fs: Node, at: Route, names: Route)
    requires Linkless(Down(fs, at + names))
    ensures !(Down(fs, at).Found? && Down(fs, at).node.Symlink?)
  {
    DownSplit(fs, at, names);
  }

  // ---- canonicalisation ---------------------------------------------------------------------------

  datatype CanonFault = Traverses | CannotStat | Escapes | NotRegular

  /** What `canonicalize_target` must answer, by where the descent ends. */
  function Canonical(fs: Node, root: Route, parts: Route): Result<Route, CanonFault>
    requires Rooted(fs, root)
  {
    match Down(RootNode(fs, root), parts)
    case Absent => Success(root + parts)
    case Found(n) => if n.Symlink? then Failure(Traverses) else if n.File? then Success(root + parts) else Failure(NotRegular)
    case Blocked(end) => Failure(if end.Symlink? then Traverses else CannotStat)
  }

  method CanonicalizeTarget(fs: Node, root: Route, parts: Route, fuel: nat) returns (r: Result<Route, CanonFault>)
    requires Rooted(fs, root) && AllProper(parts)
    ensures r == Canonical(fs, root, parts)
  {
    hide Resolve, RealPath, Down, Proper;
    RootReal(fs, root, fuel);
    var rootReal := RealPath(fs, [], root, fuel);
    ghost var top := RootNode(fs, root);
    var current := rootReal;
    EmptyDown(top);
    for i := 0 to |parts|
      invariant current == root + parts[..i]
      invariant Down(top, parts[..i]).Absent? || (Down(top, parts[..i]).Found? && !Down(top, parts[..i]).node.Symlink?)
    {
      current := current + [parts[i]];
      assert current == root + parts[..i + 1];
      StepDown(top, parts, i);
      LstatDown(fs, root, parts[..i + 1]);
      DownWhole(top, parts, i + 1);
      var info := Lstat(fs, current);
      if info.Failure? {
        if info.error == NoEnt {
          continue;
        }
        return Failure(CannotStat);
      }
      if info.value.Symlink? {
        return Failure(Traverses);
      }
    }
    assert parts[..|parts|] == parts;
    WholeReal(fs, root, parts, fuel);
    var resolved := RealPath(fs, [], current, fuel);
    if !(rootReal <= resolved) {
      return Failure(Escapes);
    }
    LstatDown(fs, root, parts);
    var final := Lstat(fs, resolved);
    if final.Failure? {
      if final.error != NoEnt {
        return Failure(CannotStat);
      }
    } else if final.value.Symlink? {
      return Failure(Traverses);
    } else if !final.value.File? {
      return Failure(NotRegular);
    }
    r := Success(resolved);
  }

  lemma RootReal(fs: Node, root: Route, fuel: nat)
    requires Rooted(fs, root)
    ensures RealPath(fs, [], root, fuel) == root
  {
    assert [] + root == root;
    RealPathDown(fs, [], root, fuel);
  }

  lemma WholeReal(fs: Node, root: Route, parts: Route, fuel: nat)
    requires Rooted(fs, root) && AllProper(parts) && Linkless(Down(RootNode(fs, root), parts))
    ensures RealPath(fs, [], root + parts, fuel) == root + parts
  {
    hide Down, RealPath, Proper;
    var all := root + parts;
    DownSplit(fs, root, parts);
    assert [] + all == all;
    forall k | 0 <= k < |all| ensures Proper(all[k]) {
      assert all[k] == if k < |root| then root[k] else parts[k - |root|];
    }
    RealPathDown(fs, [], all, fuel);
  }

  /** One more name: where the descent to the next prefix ends. */
  lemma StepDown(top: Node, parts: Route, i: nat)
    requires i < |parts|
    ensures var d, e := Down(top, parts[..i]), Down(top, parts[..i + 1]);
      && (d.Absent? ==> e == Absent)
      && (d.Found? && !d.node.Dir? ==> e == Blocked(d.node))
      && (d.Found? && d.node.Dir? ==> e == Absent || e.Found?)
  {
    assert parts[..i + 1] == parts[..i] + [parts[i]];
    DownSplit(top, parts[..i], [parts[i]]);
    assert [parts[i]][1..] == [];
  }

  /** What a prefix decides about the whole. */
  lemma DownWhole(top: Node, parts: Route, i: nat)
    requires i <= |parts|
    ensures var d, e := Down(top, parts[..i]), Down(top, parts);
      && (!d.Found? ==> e == d)
      && (d.Found? && d.node.Symlink? ==> e == d || e == Blocked(d.node))
      && (d.Found? ==> e == Down(d.node, parts[i..]))
  {
    assert parts == parts[..i] + parts[i..];
    DownSplit(top, parts[..i], parts[i..]);
    assert i == |parts| ==> parts[i..] == [];
  }

  // ---- the contained view ----------------------------------------------------------------------------

  predicate AllValid(parts: Route) { forall k :: 0 <= k < |parts| ==> ValidComponent(parts[k]) }

  lemma ValidIsProper(parts: Route)
    requires AllValid(parts)
    ensures AllProper(parts)
  {
    hide PlainText;
    forall k | 0 <= k < |parts| ensures Proper(parts[k]) { assert ValidComponent(parts[k]); }
  }

  datatype Containment = Escape | MissingTarget

  function Init(parts: Route): Route { if parts == [] then [] else parts[..|parts| - 1] }

  /** What `_contained_target` must answer: only the components before the last are looked at. */
  function Contained(fs: Node, root: Route, parts: Route): Result<Route, Containment>
    requires Rooted(fs, root)
  {
    if !AllValid(parts) then Failure(Escape)
    else
      match Down(RootNode(fs, root), Init(parts))
      case Absent => Failure(MissingTarget)
      case Blocked(_) => Failure(Escape)
      case Found(n) => if n.Symlink? then Failure(Escape) else Success(root + parts)
  }

  method ContainedTarget(fs: Node, root: Route, parts: Route, fuel: nat) returns (r: Result<Route, Containment>)
    requires Rooted(fs, root)
    ensures r == Contained(fs, root, parts)
  {
    hide Resolve, RealPath, Down, Proper, ValidComponent;
    for k := 0 to |parts|
      invariant forall j :: 0 <= j < k ==> ValidComponent(parts[j])
    {
      if !ValidComponent(parts[k]) {
        return Failure(Escape);
      }
    }
    ghost var top := RootNode(fs, root);
    EmptyDown(top);
    if parts == [] {
      assert root + parts == root;
      return Success(root);
    }
    ValidIsProper(parts);
    ghost var init := Init(parts);
    var walked := root;
    for i := 0 to |parts| - 1
      invariant walked == root + parts[..i]
      invariant Down(top, parts[..i]).Found? && !Down(top, parts[..i]).node.Symlink?
    {
      walked := walked + [parts[i]];
      assert walked == root + parts[..i + 1];
      assert init[..i + 1] == parts[..i + 1];
      StepDown(top, parts, i);
      LstatDown(fs, root, parts[..i + 1]);
      DownWhole(top, init, i + 1);
      var info := Lstat(fs, walked);
      if info.Failure? {
        return Failure(if info.error == NoEnt then MissingTarget else Escape);
      }
      if info.value.Symlink? {
        return Failure(Escape);
      }
    }
    WholeReal(fs, root, init, fuel);
    var parentReal := RealPath(fs, [], walked, fuel);
    if parentReal != root && !(root <= parentReal) {
      return Failure(Escape);
    }
    r := Success(root + parts);
  }

  datatype Kind = Missing | Regular | Directory | Link | Special

  function KindOfNode(n: Node): Kind {
    match n
    case File(_) => Regular
    case Dir(_) => Directory
    case Symlink(_, _) => Link
    case Other => Special
  }

  /** What `path_type` must answer. */
  function KindOf(fs: Node, root: Route, parts: Route): Kind
    requires Rooted(fs, root)
  {
    var d := Down(RootNode(fs, root), parts);
    if AllValid(parts) && d.Found? then KindOfNode(d.node) else Missing
  }

  /** Where the descent to the last component's directory ends, and then the last step. */
  lemma LastStep(top: Node, parts: Route)
    requires parts != []
    ensures var d, e := Down(top, Init(parts)), Down(top, parts);
      && (!d.Found? ==> e == d)
      && (d.Found? && !d.node.Dir? ==> e == Blocked(d.node))
      && (d.Found? && d.node.Dir? ==> e == Absent || e.Found?)
  {
    hide Down;
    assert parts[..|parts|] == parts;
    StepDown(top, parts, |parts| - 1);
    DownWhole(top, parts, |parts| - 1);
  }

  method PathType(fs: Node, root: Route, parts: Route, fuel: nat) returns (r: Kind)
    requires Rooted(fs, root)
    ensures r == KindOf(fs, root, parts)
  {
    hide Resolve, Down, Proper, ValidComponent, Lstat;
    var target := ContainedTarget(fs, root, parts, fuel);
    EmptyDown(RootNode(fs, root));
    if parts != [] { LastStep(RootNode(fs, root), parts); }
    if target.Failure? {
      return Missing;
    }
    ValidIsProper(parts);
    LstatDown(fs, root, parts);
    var info := Lstat(fs, target.value);
    r := if info.Failure? then Missing else KindOfNode(info.value);
  }

  datatype ReadFault = EscapesRoot | StatFailed | IsLink | NotAFile | TooLarge

  /** What `read_bytes` must answer: nothing, the bytes of a file reached through directories, or why not. */
  function ReadOf(fs: Node, root: Route, parts: Route): Result<Option<bytes>, ReadFault>
    requires Rooted(fs, root)
  {
    if !AllValid(parts) then Failure(EscapesRoot)
    else
      match Down(RootNode(fs, root), parts)
      case Absent => Success(None)
      case Found(n) =>
        (match n
         case File(data) => if |data| > MAX_READ_BYTES then Failure(TooLarge) else Success(Some(data))
         case Symlink(_, _) => Failure(IsLink)
         case Dir(_) => Failure(NotAFile)
         case Other => Failure(NotAFile))
      case Blocked(end) =>
        if end.Symlink? || !Down(RootNode(fs, root), Init(parts)).Found? then Failure(EscapesRoot) else Failure(StatFailed)
  }

  method ReadBytes(fs: Node, root: Route, parts: Route, fuel: nat) returns (r: Result<Option<bytes>, ReadFault>)
    requires Rooted(fs, root)
    ensures r == ReadOf(fs, root, parts)
  {
    hide Resolve, Down, Proper, ValidComponent, Lstat;
    var target := ContainedTarget(fs, root, parts, fuel);
    EmptyDown(RootNode(fs, root));
    if parts != [] { LastStep(RootNode(fs, root), parts); }
    if target.Failure? {
      return if target.error.MissingTarget? then Success(None) else Failure(EscapesRoot);
    }
    ValidIsProper(parts);
    LstatDown(fs, root, parts);
    var info := Lstat(fs, target.value);
    if info.Failure? {
      return if info.error == NoEnt then Success(None) else Failure(StatFailed);
    }
    if info.value.Symlink? {
      return Failure(IsLink);
    }
    if !info.value.File? {
      return Failure(NotAFile);
    }
    if |info.value.data| > MAX_READ_BYTES {
      return Failure(TooLarge);
    }
    r := Success(Some(info.value.data));
  }

  // ---- the check of the guard -------------------------------------------------------------------------

  datatype Finding = SymlinkComponent | NonRegularTarget

  /** What `check_symlink_and_type` must report. */
  function SymlinkReport(fs: Node, root: Route, parts: Route): Option<Finding>
    requires Rooted(fs, root)
  {
    match Down(RootNode(fs, root), parts)
    case Absent => None
    case Blocked(end) => if end.Symlink? then Some(SymlinkComponent) else None
    case Found(n) =>
      if n.Symlink? then Some(SymlinkComponent) else if parts != [] && !n.File? then Some(NonRegularTarget) else None
  }

  lemma PrefixValid(parts: Route, n: nat)
    requires AllValid(parts) && n <= |parts|
    ensures AllValid(parts[..n])
  {
  }

  /** As long as no prefix so far is a link, a descent that stopped short did not stop at one. */
  predicate NoLinkYet(top: Node, parts: Route, n: nat)
    requires n <= |parts|
  {
    Linkless(Down(top, parts[..n]))
  }

  lemma NextPrefix(top: Node, parts: Route, n: nat)
    requires n < |parts| && NoLinkYet(top, parts, n)
    ensures var e := Down(top, parts[..n + 1]); e.Found? || Linkless(e)
  {
    StepDown(top, parts, n);
    assert parts[..n + 1][..n] == parts[..n];
    DownWhole(top, parts[..n + 1], n);
  }

  method CheckSymlinkAndType(fs: Node, root: Route, parts: Route, fuel: nat) returns (r: Option<Finding>)
    requires Rooted(fs, root) && AllValid(parts)
    ensures r == SymlinkReport(fs, root, parts)
  {
    hide Down, ValidComponent;
    ghost var top := RootNode(fs, root);
    EmptyDown(top);
    var total := |parts|;
    for depth := 0 to total
      invariant NoLinkYet(top, parts, depth)
      invariant depth == total > 0 ==> !(KindOf(fs, root, parts) in {Directory, Special})
    {
      var prefix := parts[..depth + 1];
      PrefixValid(parts, depth + 1);
      NextPrefix(top, parts, depth);
      DownWhole(top, parts, depth + 1);
      assert parts[..total] == parts;
      var kind := PathType(fs, root, prefix, fuel);
      if kind == Link {
        return Some(SymlinkComponent);
      }
      if depth + 1 == total && (kind == Directory || kind == Special) {
        return Some(NonRegularTarget);
      }
    }
    assert parts[..total] == parts;
    r := None;
  }

  // ---- the walkers agree ------------------------------------------------------------------------------

  /**
   When canonicalisation accepts a target, its real path is the root with the components, the check
   reports nothing, and reading gives nothing, the bytes of the file there, or the size fault.
   */
  lemma WalkersAgree(fs: Node, root: Route, parts: Route)
    requires Rooted(fs, root) && AllValid(parts) && Canonical(fs, root, parts).Success?
    ensures Canonical(fs, root, parts).value == root + parts
    ensures SymlinkReport(fs, root, parts).None?
    ensures var d, r := Down(RootNode(fs, root), parts), ReadOf(fs, root, parts);
      if d.Absent? then r == Success(None) && KindOf(fs, root, parts) == Missing
      else
        && d.Found? && d.node.File? && KindOf(fs, root, parts) == Regular
        && r == if |d.node.data| > MAX_READ_BYTES then Failure(TooLarge) else Success(Some(d.node.data))
  {
    hide Down, ValidComponent;
  }

  /** A directory stands at every proper prefix of the route. */
  predicate ThroughDirectories(top: Node, parts: Route) {
    forall k :: 0 <= k < |parts| ==> Down(top, parts[..k]).Found? && Down(top, parts[..k]).node.Dir?
  }

  lemma ArrivesThrough(top: Node, parts: Route)
    requires Down(top, parts).Found?
    ensures ThroughDirectories(top, parts)
  {
    hide Down;
    forall k | 0 <= k < |parts| ensures Down(top, parts[..k]).Found? && Down(top, parts[..k]).node.Dir? {
      StepDown(top, parts, k);
      DownWhole(top, parts, k);
      DownWhole(top, parts, k + 1);
    }
  }

  /**
   Bytes come back exactly when every component is valid and a file within the bound stands at the
   end of a route on which every proper prefix is a real directory: never through a link.
   */
  lemma NeverThroughLink(fs: Node, root: Route, parts: Route, data: bytes)
    requires Rooted(fs, root)
    ensures ReadOf(fs, root, parts) == Success(Some(data)) <==>
      && AllValid(parts) && |data| <= MAX_READ_BYTES
      && ThroughDirectories(RootNode(fs, root), parts) && Down(RootNode(fs, root), parts) == Found(File(data))
  {
    hide Down, ValidComponent, ThroughDirectories;
    if Down(RootNode(fs, root), parts).Found? {
      ArrivesThrough(RootNode(fs, root), parts);
    }
  }

  /**
   Canonicalisation is the check and one thing more: it accepts a target exactly when the check
   reports nothing and every proper prefix is missing or a directory.
   */
  lemma CanonicalIff(fs: Node, root: Route, parts: Route)
    requires Rooted(fs, root) && AllValid(parts) && parts != []
    ensures Canonical(fs, root, parts).Success? <==>
      && SymlinkReport(fs, root, parts).None?
      && forall k :: 0 < k < |parts| ==> KindOf(fs, root, parts[..k]) in {Missing, Directory}
  {
    var top := RootNode(fs, root);
    var d := Down(top, parts);
    forall k | 0 < k < |parts| ensures AllValid(parts[..k]) { PrefixValid(parts, k); }
    if d.Blocked? {
      var k := WhereBlocked(top, parts);
      assert !d.end.Symlink? && k > 0 ==> KindOf(fs, root, parts[..k]) !in {Missing, Directory};
    } else {
      forall k | 0 < k < |parts| ensures KindOf(fs, root, parts[..k]) in {Missing, Directory} {
        StepDown(top, parts, k);
        DownWhole(top, parts, k);
        DownWhole(top, parts, k + 1);
      }
    }
  }

  lemma {:induction false} WhereBlocked(top: Node, parts: Route) returns (k: nat)
    requires Down(top, parts).Blocked?
    ensures k < |parts| && Down(top, parts[..k]) == Found(Down(top, parts).end) && !Down(top, parts).end.Dir?
    decreases |parts|
  {
    if !top.Dir? {
      k := 0;
    } else {
      var j := WhereBlocked(top.entries[parts[0]], parts[1..]);
      k := j + 1;
      assert parts[..k][1..] == parts[1..][..j];
    }
  }

  // ---- the answers in terms of what stands at each prefix ----------------------------------------------

  /** A link stands at this prefix. */
  predicate LinkAt(top: Node, parts: Route, k: nat) {
    k <= |parts| && Down(top, parts[..k]).Found? && Down(top, parts[..k]).node.Symlink?
  }

  /** Something that is neither a directory nor a link stands at this prefix. */
  predicate StopAt(top: Node, parts: Route, k: nat) {
    k <= |parts| && Down(top, parts[..k]).Found? && !Down(top, parts[..k]).node.Symlink? && !Down(top, parts[..k]).node.Dir?
  }

  /** A directory stands at this prefix and has no entry of the next name. */
  predicate GapAt(top: Node, parts: Route, k: nat) {
    k < |parts| && Down(top, parts[..k]).Found? && Down(top, parts[..k]).node.Dir?
    && parts[k] !in Down(top, parts[..k]).node.entries
  }

  /** What stands at one proper prefix decides the whole descent. */
  lemma PrefixDecidesDown(top: Node, parts: Route, k: nat)
    requires k < |parts|
    ensures LinkAt(top, parts, k) || StopAt(top, parts, k) ==> Down(top, parts) == Blocked(Down(top, parts[..k]).node)
    ensures GapAt(top, parts, k) ==> Down(top, parts) == Absent
  {
    DownWhole(top, parts, k);
    assert parts[k..] != [] && parts[k..][0] == parts[k];
  }

  lemma {:induction false} WhereAbsent(top: Node, parts: Route) returns (k: nat)
    requires Down(top, parts).Absent?
    ensures GapAt(top, parts, k)
    decreases |parts|
  {
    if parts[0] !in top.entries {
      k := 0;
    } else {
      var j := WhereAbsent(top.entries[parts[0]], parts[1..]);
      k := j + 1;
      assert parts[..k][1..] == parts[1..][..j];
    }
  }

  /** Each way for a descent to end, by what stands at the prefixes. */
  lemma DescentExact(top: Node, parts: Route)
    ensures Down(top, parts).Blocked? && Down(top, parts).end.Symlink? <==> exists k: nat :: k < |parts| && LinkAt(top, parts, k)
    ensures Down(top, parts).Blocked? && !Down(top, parts).end.Symlink? <==> exists k: nat :: k < |parts| && StopAt(top, parts, k)
    ensures Down(top, parts).Absent? <==> exists k: nat :: GapAt(top, parts, k)
    ensures parts[..|parts|] == parts
  {
    assert parts[..|parts|] == parts;
    forall k: nat | k < |parts|
      ensures LinkAt(top, parts, k) || StopAt(top, parts, k) ==> Down(top, parts) == Blocked(Down(top, parts[..k]).node)
      ensures GapAt(top, parts, k) ==> Down(top, parts) == Absent
    {
      PrefixDecidesDown(top, parts, k);
    }
    if Down(top, parts).Blocked? { var k := WhereBlocked(top, parts); assert LinkAt(top, parts, k) || StopAt(top, parts, k); }
    if Down(top, parts).Absent? { var k := WhereAbsent(top, parts); }
    hide Down;
  }

  /** What the check reports: a link at any prefix, or a target that is there and is no regular file. */
  lemma ReportExact(fs: Node, root: Route, parts: Route)
    requires Rooted(fs, root) && parts != []
    ensures var top, r := RootNode(fs, root), SymlinkReport(fs, root, parts);
      && (r == Some(SymlinkComponent) <==> exists k: nat :: LinkAt(top, parts, k))
      && (r == Some(NonRegularTarget) <==> Down(top, parts).Found? && (Down(top, parts).node.Dir? || Down(top, parts).node.Other?))
  {
    var top := RootNode(fs, root);
    DescentExact(top, parts);
    hide Down;
    if k: nat :| LinkAt(top, parts, k) { assert k < |parts| || k == |parts|; }
    if Down(top, parts).Found? && Down(top, parts).node.Symlink? { assert LinkAt(top, parts, |parts|); }
  }

  /** What canonicalisation answers, likewise. */
  lemma CanonicalExact(fs: Node, root: Route, parts: Route)
    requires Rooted(fs, root)
    ensures var top, r := RootNode(fs, root), Canonical(fs, root, parts);
      && (r == Success(root + parts) <==>
            (exists k: nat :: GapAt(top, parts, k)) || (Down(top, parts).Found? && Down(top, parts).node.File?))
      && (r == Failure(Traverses) <==> exists k: nat :: LinkAt(top, parts, k))
      && (r == Failure(CannotStat) <==> exists k: nat :: k < |parts| && StopAt(top, parts, k))
      && (r == Failure(NotRegular) <==> Down(top, parts).Found? && (Down(top, parts).node.Dir? || Down(top, parts).node.Other?))
  {
    var top := RootNode(fs, root);
    DescentExact(top, parts);
    hide Down;
    if k: nat :| LinkAt(top, parts, k) { assert k < |parts| || k == |parts|; }
    if Down(top, parts).Found? && Down(top, parts).node.Symlink? { assert LinkAt(top, parts, |parts|); }
  }

  /** What reading answers, likewise; only a component that is no directory just before the last is told apart. */
  lemma ReadOfExact(fs: Node, root: Route, parts: Route)
    requires Rooted(fs, root) && AllValid(parts)
    ensures var top, r := RootNode(fs, root), ReadOf(fs, root, parts);
      && (r == Success(None) <==> exists k: nat :: GapAt(top, parts, k))
      && (r == Failure(EscapesRoot) <==>
            exists k: nat :: k < |parts| && (LinkAt(top, parts, k) || (StopAt(top, parts, k) && k + 1 < |parts|)))
      && (r == Failure(StatFailed) <==> parts != [] && StopAt(top, parts, |parts| - 1))
      && (r == Failure(IsLink) <==> LinkAt(top, parts, |parts|))
      && (r == Failure(NotAFile) <==> Down(top, parts).Found? && (Down(top, parts).node.Dir? || Down(top, parts).node.Other?))
      && (r == Failure(TooLarge) <==>
            Down(top, parts).Found? && Down(top, parts).node.File? && |Down(top, parts).node.data| > MAX_READ_BYTES)
  {
    var top := RootNode(fs, root);
    DescentExact(top, parts);
    if parts != [] { BlockedAtLast(top, parts); }
    hide Down, ValidComponent, Init;
  }

  /** A descent is stopped at the last step exactly when the one before it arrives. */
  lemma BlockedAtLast(top: Node, parts: Route)
    requires parts != []
    ensures StopAt(top, parts, |parts| - 1) <==>
      Down(top, parts).Blocked? && !Down(top, parts).end.Symlink? && Down(top, Init(parts)).Found?
    ensures forall k: nat :: k + 1 < |parts| && StopAt(top, parts, k) ==> !Down(top, Init(parts)).Found?
    ensures Down(top, parts).Blocked? && !Down(top, parts).end.Symlink? && !Down(top, Init(parts)).Found? ==>
      exists k: nat :: k + 1 < |parts| && StopAt(top, parts, k)
  {
    hide Down;
    var init := Init(parts);
    LastStep(top, parts);
    forall k: nat | k + 1 < |parts| && StopAt(top, parts, k) ensures !Down(top, init).Found? {
      assert init[..k] == parts[..k];
      PrefixDecidesDown(top, init, k);
    }
    if Down(top, parts).Blocked? && !Down(top, parts).end.Symlink? && !Down(top, init).Found? {
      var k := WhereBlocked(top, init);
      assert parts[..k] == init[..k];
      assert StopAt(top, parts, k) && k + 1 < |parts|;
    }
  }
}
