/**
 The dry-run artifact: guard, canonicalisation, pre-state and hashes composed, and the theorem the
 approval rests on, that what was shown on the screen is what is recorded.
 */
module DryRun {
  import opened Prelude
  import opened Entries
  import opened FileTree
  import opened LedgerRuns
  import opened Store
  import opened Outcomes
  import Diff
  import Display
  import Hashing
  import Numerals
  import Paths
  import Utf8

  const MAX_PATCH_BYTES := Diff.MAX_DIFF_BYTES

  datatype Tier = Tier1 | Tier2 | Untiered

  /** What the model leaves open: the hash, composition, case folding and the protected-path tables. */
  datatype Rules = Rules(
    sha: Hashing.Hash,
    nfc: Paths.Mapping,
    fold: Paths.Mapping,
    tier: Route -> Tier)

  datatype Proposal = Proposal(diff: string, target: string)

  /** The repository as one operation sees it: a file tree, the root's route in it, and link fuel. */
  datatype View = View(fs: Node, root: Route, fuel: nat)

  predicate Open(v: View) { Rooted(v.fs, v.root) }

  // ---- the guard --------------------------------------------------------------------------------

  /** The guard passes a proposal exactly when every gate does; the tier then only sets the risk. */
  ghost predicate Passes(u: Rules, p: Proposal, v: View)
    requires Open(v)
  {
    var parts := Paths.Normalize(u.nfc, u.fold, p.target);
    && parts.Some? && u.tier(parts.value) != Tier1
    && Diff.Accepts(u.nfc, u.fold, p.diff, parts.value)
    && SymlinkReport(v.fs, v.root, parts.value).None?
  }

  /** Gate by gate: an accepted path outside the first tier, a grammatical diff of it, and a file or nothing behind no link. */
  lemma PassesExact(u: Rules, p: Proposal, v: View)
    requires Open(v)
    ensures var parts := Paths.Normalize(u.nfc, u.fold, p.target);
      Passes(u, p, v) <==>
        && parts.Some? && u.tier(parts.value) != Tier1 && Diff.Accepts(u.nfc, u.fold, p.diff, parts.value)
        && var top := RootNode(v.fs, v.root);
           && (forall k: nat :: !LinkAt(top, parts.value, k))
           && (Down(top, parts.value).Found? ==> Down(top, parts.value).node.File?)
  {
    var parts := Paths.Normalize(u.nfc, u.fold, p.target);
    hide Diff.Accepts, Down, SymlinkReport, Paths.Accepted;
    if parts.Some? {
      NotEmpty(u, p);
      ReportExact(v.fs, v.root, parts.value);
      ReportKinds(v.fs, v.root, parts.value);
      var top := RootNode(v.fs, v.root);
      if Down(top, parts.value).Found? && Down(top, parts.value).node.Symlink? {
        WholeRoute(parts.value);
        assert LinkAt(top, parts.value, |parts.value|);
      }
    }
  }

  lemma NotEmpty(u: Rules, p: Proposal)
    requires Paths.Normalize(u.nfc, u.fold, p.target).Some?
    ensures Paths.Normalize(u.nfc, u.fold, p.target).value != []
  {
  }

  lemma WholeRoute(parts: Route)
    ensures parts[..|parts|] == parts
  {
  }

  lemma ReportKinds(fs: Node, root: Route, parts: Route)
    requires Rooted(fs, root)
    ensures SymlinkReport(fs, root, parts) in {None, Some(SymlinkComponent), Some(NonRegularTarget)}
  {
    hide Down;
  }

  function RiskOf(t: Tier): string { if t == Tier2 then "high" else "low" }

  /** What the guard answers: the risk, or the first gate that blocks and its reason. */
  datatype Verdict =
    | NeedsApproval(risk: string)
    | BadPath(path: Paths.Reason)
    | Protected
    | BadDiff(diff: Diff.Reason)
    | BadTarget(finding: Finding)

  /** Each verdict says that every gate before passed, and what is wrong at this one. */
  ghost predicate VerdictFor(u: Rules, p: Proposal, v: View, r: Verdict)
    requires Open(v)
  {
    var parts := Paths.Normalize(u.nfc, u.fold, p.target);
    match r
    case BadPath(why) => parts.None? && Paths.Faulty(u.nfc, u.fold, p.target, why)
    case Protected => parts.Some? && u.tier(parts.value) == Tier1
    case BadDiff(why) =>
      && parts.Some? && u.tier(parts.value) != Tier1
      && !Diff.Accepts(u.nfc, u.fold, p.diff, parts.value) && Diff.Refused(u.nfc, u.fold, p.diff, parts.value, why)
    case BadTarget(finding) =>
      && parts.Some? && u.tier(parts.value) != Tier1 && Diff.Accepts(u.nfc, u.fold, p.diff, parts.value)
      && SymlinkReport(v.fs, v.root, parts.value) == Some(finding)
    case NeedsApproval(risk) => Passes(u, p, v) && risk == RiskOf(u.tier(parts.value))
  }

  method Evaluate(u: Rules, p: Proposal, v: View) returns (r: Verdict)
    requires Open(v) && Paths.Composition(u.nfc)
    ensures VerdictFor(u, p, v, r)
    ensures r.NeedsApproval? <==> Passes(u, p, v)
    ensures r.NeedsApproval? ==>
      r.risk == if u.tier(Paths.Normalize(u.nfc, u.fold, p.target).value) == Tier2 then "high" else "low"
  {
    hide Diff.Accepts, Diff.Refused, Paths.Faulty;
    hide SymlinkReport, Paths.Composition, Paths.Accepted, Paths.ValidComponent;
    var norm := Paths.NormalizeTarget(u.nfc, u.fold, p.target);
    if norm.Failure? {
      return BadPath(norm.error);
    }
    var parts := norm.value;
    if u.tier(parts) == Tier1 {
      return Protected;
    }
    var fault := Diff.Validate(u.nfc, u.fold, p.diff, parts);
    if fault.Some? {
      return BadDiff(fault.value);
    }
    Paths.ComponentsValid(u.nfc, u.fold, p.target);
    var finding := CheckSymlinkAndType(v.fs, v.root, parts, v.fuel);
    if finding.Some? {
      return BadTarget(finding.value);
    }
    r := NeedsApproval(RiskOf(u.tier(parts)));
  }

  // ---- the artifact ---------------------------------------------------------------------------------

  /** An absolute real path as bytes: slashes, composed, encoded. */
  function PathBytes(nfc: Paths.Mapping, route: Route): bytes {
    Utf8.Encode(nfc("/" + Join(route, '/')))
  }

  /** Names that can stand in a path: not empty and without a slash. */
  predicate Named(route: Route) { forall k :: 0 <= k < |route| ==> route[k] != "" && '/' !in route[k] }

  /** Equal bytes are of one composed path, and of one route where composition leaves the paths alone. */
  lemma PathBytesBind(nfc: Paths.Mapping, r: Route, s: Route)
    requires PathBytes(nfc, r) == PathBytes(nfc, s)
    ensures nfc("/" + Join(r, '/')) == nfc("/" + Join(s, '/'))
    ensures
      && Named(r) && Named(s)
      && nfc("/" + Join(r, '/')) == "/" + Join(r, '/') && nfc("/" + Join(s, '/')) == "/" + Join(s, '/') ==>
        r == s
  {
    Utf8.EncodeInjective(nfc("/" + Join(r, '/')), nfc("/" + Join(s, '/')));
    hide Utf8.Encode, Join;
    var a, b := "/" + Join(r, '/'), "/" + Join(s, '/');
    if Named(r) && Named(s) && nfc(a) == a && nfc(b) == b {
      assert Join(r, '/') == a[1..] && Join(s, '/') == b[1..];
      SameNames(r, s);
    }
  }

  lemma SameNames(r: Route, s: Route)
    requires Named(r) && Named(s) && Join(r, '/') == Join(s, '/')
    ensures r == s
  {
    JoinNotEmpty(r);
    JoinNotEmpty(s);
    hide Join;
    if r != [] && s != [] {
      SplitOfJoin(r, '/');
      SplitOfJoin(s, '/');
    }
  }

  lemma JoinNotEmpty(r: Route)
    requires Named(r)
    ensures Join(r, '/') == "" <==> r == []
  {
  }

  /** The change a proposal makes to a repository: what the artifact binds. */
  function ChangeOf(u: Rules, p: Proposal, v: View): Option<Hashing.Change>
    requires Open(v)
  {
    var parts := Paths.Normalize(u.nfc, u.fold, p.target);
    if parts.None? then None
    else
      var real_, read := Canonical(v.fs, v.root, parts.value), ReadOf(v.fs, v.root, parts.value);
      if real_.Failure? || read.Failure? then None
      else Some(Hashing.Change(PathBytes(u.nfc, real_.value), Utf8.Encode(p.diff), read.value, PathBytes(u.nfc, v.root)))
  }

  /** A buildable proposal: the guard passes, the target resolves and reads, and every hash exists. */
  ghost predicate Buildable(u: Rules, p: Proposal, v: View)
    requires Open(v)
  {
    && Passes(u, p, v) && ChangeOf(u, p, v).Some?
    && Hashing.BoundHash(u.sha, ChangeOf(u, p, v).value).Some?
  }

  /** The fields of the artifact that the screen and the record take over. */
  predicate ArtifactFor(u: Rules, p: Proposal, v: View, art: Artifact)
    requires Open(v)
  {
    var parts, change := Paths.Normalize(u.nfc, u.fold, p.target), ChangeOf(u, p, v);
    && parts.Some? && change.Some?
    && art.path == Join(parts.value, '/')
    && Hashing.BoundHash(u.sha, change.value) == Some(art.bound)
    && Hashing.Digest(u.sha, Hashing.RepoRoot, [change.value.root]) == Some(art.root)
    && art.risk == RiskOf(u.tier(parts.value))
  }

  method BuildDryRunArtifact(u: Rules, p: Proposal, v: View) returns (r: Option<Artifact>)
    requires Open(v) && Paths.Composition(u.nfc)
    ensures r.Some? <==> Buildable(u, p, v)
    ensures r.Some? ==> ArtifactFor(u, p, v, r.value)
    ensures r.Some? ==>
      r.value.risk == if u.tier(Paths.Normalize(u.nfc, u.fold, p.target).value) == Tier2 then "high" else "low"
  {
    hide Diff.Accepts, SymlinkReport, Canonical, ReadOf, Paths.Composition, Paths.Accepted, Paths.ValidComponent;
    hide Hashing.Digest, Join, Utf8.Encode;
    if |Utf8.Encode(p.diff)| > MAX_PATCH_BYTES {
      AcceptsSmall(u, p);
      return None;
    }
    var norm := Paths.NormalizeTarget(u.nfc, u.fold, p.target);
    if norm.Failure? {
      return None;
    }
    var verdict := Evaluate(u, p, v);
    if !verdict.NeedsApproval? {
      return None;
    }
    var parts := norm.value;
    Paths.ComponentsValid(u.nfc, u.fold, p.target);
    ValidIsProper(parts);
    var canon := CanonicalizeTarget(v.fs, v.root, parts, v.fuel);
    if canon.Failure? {
      return None;
    }
    var read := ReadBytes(v.fs, v.root, parts, v.fuel);
    if read.Failure? {
      return None;
    }
    var change := Hashing.Change(PathBytes(u.nfc, canon.value), Utf8.Encode(p.diff), read.value, PathBytes(u.nfc, v.root));
    var bound := Hashing.BoundHash(u.sha, change);
    var rootId := Hashing.Digest(u.sha, Hashing.RepoRoot, [change.root]);
    if bound.None? || rootId.None? {
      return None;
    }
    r := Some(Artifact(bound.value, rootId.value, Join(parts, '/'), verdict.risk));
  }

  lemma AcceptsSmall(u: Rules, p: Proposal)
    ensures forall parts :: Diff.Accepts(u.nfc, u.fold, p.diff, parts) ==> |Utf8.Encode(p.diff)| <= MAX_PATCH_BYTES
  {
  }

  // ---- what was shown is what is recorded -------------------------------------------------------------

  /** The screen made of an artifact and of the re-read of the target for the pre-state line. */
  function SheetOf(p: Proposal, art: Artifact, read: Result<Option<bytes>, ReadFault>): Display.Sheet {
    Display.Sheet(art.path, art.risk, Display.PrestateSummary(read), p.diff, art.root, art.bound)
  }

  /** Whatever is put on the screen from an artifact is single-line where it has to be. */
  lemma SheetOneLine(u: Rules, p: Proposal, v: View, art: Artifact, read: Result<Option<bytes>, ReadFault>)
    requires Open(v) && Paths.Composition(u.nfc) && ArtifactFor(u, p, v, art)
    ensures Display.OneLine(SheetOf(p, art, read))
  {
    hide Canonical, ReadOf, Join, Paths.Accepted, Paths.Composition, Paths.ValidComponent;
    hide Hashing.Digest, Hashing.BoundHash, Display.PrestateSummary, PathBytes, Utf8.Encode;
    Paths.ComponentsValid(u.nfc, u.fold, p.target);
    PathOneLine(Paths.Normalize(u.nfc, u.fold, p.target).value);
    HexOneLine(u.sha, Hashing.RepoRoot, [ChangeOf(u, p, v).value.root]);
    BoundOneLine(u.sha, ChangeOf(u, p, v).value);
    SummaryOneLine(read);
    hide *;
    AllOneLine(SheetOf(p, art, read));
  }

  lemma AllOneLine(s: Display.Sheet)
    requires '\n' !in s.path && '\n' !in s.risk && '\n' !in s.pre && '\n' !in s.root && '\n' !in s.bound
    ensures Display.OneLine(s)
  {
  }

  lemma PathOneLine(parts: Route)
    requires parts != [] && AllValid(parts)
    ensures '\n' !in Join(parts, '/')
  {
    Paths.JoinShape(parts);
  }

  lemma HexOneLine(sha: Hashing.Hash, t: Hashing.Tag, fields: seq<bytes>)
    ensures Hashing.Digest(sha, t, fields).Some? ==> '\n' !in Hashing.Digest(sha, t, fields).value
  {
    hide Hashing.Encode;
    if Hashing.Encode(t, fields).Some? {
      Numerals.HexOfDigits(sha(Hashing.Encode(t, fields).value));
    }
  }

  lemma BoundOneLine(sha: Hashing.Hash, c: Hashing.Change)
    ensures Hashing.BoundHash(sha, c).Some? ==> '\n' !in Hashing.BoundHash(sha, c).value
  {
    hide Hashing.Digest, Hashing.BoundFields, Hashing.Components;
    if Hashing.Components(sha, c).Some? {
      HexOneLine(sha, Hashing.Bound, Hashing.BoundFields(Hashing.Components(sha, c).value));
    }
  }

  lemma SummaryOneLine(read: Result<Option<bytes>, ReadFault>)
    ensures '\n' !in Display.PrestateSummary(read)
  {
    hide Numerals.Render, Display.CREATES;
    CreatesOneLine();
    if read.Success? && read.value.Some? {
      Display.NumberLf(|read.value.value|);
    }
  }

  lemma CreatesOneLine()
    ensures '\n' !in Display.CREATES
  {
  }

  /** One hash for two builds: one change, so the same target, patch, pre-state and root. */
  lemma SameBinding(u: Rules, p: Proposal, v: View, a: Artifact, q: Proposal, w: View, b: Artifact)
    requires Open(v) && Open(w) && ArtifactFor(u, p, v, a) && ArtifactFor(u, q, w, b) && a.bound == b.bound
    requires Hashing.NoCollision(u.sha, ChangeOf(u, p, v).value, ChangeOf(u, q, w).value)
    ensures ChangeOf(u, p, v) == ChangeOf(u, q, w) && a.root == b.root && p.diff == q.diff
    ensures u.nfc("/" + Join(v.root, '/')) == u.nfc("/" + Join(w.root, '/'))
    ensures u.nfc("/" + Join(RealTarget(u, p, v), '/')) == u.nfc("/" + Join(RealTarget(u, q, w), '/'))
  {
    hide Hashing.NoCollision, Hashing.BoundHash, Hashing.Digest, Canonical, ReadOf, Join, PathBytes;
    Hashing.BoundHashBinds(u.sha, ChangeOf(u, p, v).value, ChangeOf(u, q, w).value);
    Utf8.EncodeInjective(p.diff, q.diff);
    BoundPaths(u, p, v);
    BoundPaths(u, q, w);
    PathBytesBind(u.nfc, v.root, w.root);
    PathBytesBind(u.nfc, RealTarget(u, p, v), RealTarget(u, q, w));
  }

  /** The real path of the target: the root's route, and the components below it. */
  function RealTarget(u: Rules, p: Proposal, v: View): Route
    requires Paths.Normalize(u.nfc, u.fold, p.target).Some?
  {
    v.root + Paths.Normalize(u.nfc, u.fold, p.target).value
  }

  lemma BoundPaths(u: Rules, p: Proposal, v: View)
    requires Open(v) && ChangeOf(u, p, v).Some?
    ensures Paths.Normalize(u.nfc, u.fold, p.target).Some?
    ensures ChangeOf(u, p, v).value.root == PathBytes(u.nfc, v.root)
    ensures ChangeOf(u, p, v).value.path == PathBytes(u.nfc, RealTarget(u, p, v))
  {
    hide ReadOf, PathBytes, Down, Paths.Accepted, Paths.Composed;
  }

  /** Two builds with one root identifier are of roots with one composed path: clones do not share approvals. */
  lemma SameRoot(u: Rules, p: Proposal, v: View, a: Artifact, q: Proposal, w: View, b: Artifact)
    requires Open(v) && Open(w) && ArtifactFor(u, p, v, a) && ArtifactFor(u, q, w, b) && a.root == b.root
    requires Hashing.NoCollision(u.sha, ChangeOf(u, p, v).value, ChangeOf(u, q, w).value)
    ensures u.nfc("/" + Join(v.root, '/')) == u.nfc("/" + Join(w.root, '/'))
  {
    hide Hashing.NoCollision, Hashing.BoundHash, Hashing.Digest, Canonical, ReadOf, Join, PathBytes;
    var c, d := ChangeOf(u, p, v).value, ChangeOf(u, q, w).value;
    RootIsHashed(u.sha, c);
    RootIsHashed(u.sha, d);
    Hashing.SameDigest(u.sha, c, d, 3, Hashing.RepoRoot, [c.root], 3, Hashing.RepoRoot, [d.root]);
    assert [c.root][0] == [d.root][0];
    BoundPaths(u, p, v);
    BoundPaths(u, q, w);
    PathBytesBind(u.nfc, v.root, w.root);
  }

  lemma RootIsHashed(sha: Hashing.Hash, c: Hashing.Change)
    ensures Hashing.Hashed(sha, c)[3] == Hashing.Encode(Hashing.RepoRoot, [c.root])
  {
    hide Hashing.Encode, Hashing.Components;
  }

  /** Two screens of artifacts that look the same show one patch, one target and one binding. */
  lemma SameScreen(
      u: Rules, p: Proposal, v: View, a: Artifact, x: Result<Option<bytes>, ReadFault>,
      q: Proposal, w: View, b: Artifact, y: Result<Option<bytes>, ReadFault>)
    requires Open(v) && Open(w) && Paths.Composition(u.nfc) && ArtifactFor(u, p, v, a) && ArtifactFor(u, q, w, b)
    requires Display.RenderDisplay(SheetOf(p, a, x)) == Display.RenderDisplay(SheetOf(q, b, y))
    ensures q.diff == p.diff && b.path == a.path && b.bound == a.bound && b.risk == a.risk
  {
    SheetOneLine(u, p, v, a, x);
    SheetOneLine(u, q, w, b, y);
    hide Display.OneLine, Display.RenderDisplay, ArtifactFor, Display.PrestateSummary;
    Display.DisplayDetermines(SheetOf(p, a, x), SheetOf(q, b, y));
  }

  /**
   What was shown is what is recorded. The screen was made from the repository as it was at display
   time; the mint rebuilds after arbitrary changes. If it succeeds and the hash did not collide on
   what was hashed, the record binds the displayed patch and target, the target's content and the
   root are what they were, and any proposal whose screen looks the same has that patch, that
   target and that binding.
   */
  lemma ShownIsRecorded(
      u: Rules, p: Proposal, shown: View, a: Artifact, x: Result<Option<bytes>, ReadFault>,
      later: View, b: Artifact, d: Disk, now: int, token: Option<string>, env: Env,
      q: Proposal, w: View, c: Artifact, y: Result<Option<bytes>, ReadFault>)
    requires Open(shown) && Open(later) && ArtifactFor(u, p, shown, a) && ArtifactFor(u, p, later, b) && Plain(d)
    requires Hashing.NoCollision(u.sha, ChangeOf(u, p, shown).value, ChangeOf(u, p, later).value)
    requires AfterMint(d, a.bound, Some(b), now, token, env).1.Recorded?
    ensures var (t, r) := AfterMint(d, a.bound, Some(b), now, token, env);
      && ReadDisk(d).Success? && ReadDisk(t) == Grown(d, Minted(b, now, r.view.id)) && AllDurable(t)
      && r.view.bound == a.bound && r.view.path == a.path && r.view.root == a.root && r.view.risk == a.risk
      && ChangeOf(u, p, later) == ChangeOf(u, p, shown)
      && (Open(w) && Paths.Composition(u.nfc) && ArtifactFor(u, q, w, c)
          && Display.RenderDisplay(SheetOf(q, c, y)) == Display.RenderDisplay(SheetOf(p, a, x)) ==>
            q.diff == p.diff && c.path == r.view.path && c.bound == r.view.bound)
  {
    hide Hashing.NoCollision, Hashing.BoundHash, Hashing.Digest, Canonical, ReadOf, Join, Display.RenderDisplay;
    hide AfterMint, ReadDisk, Display.OneLine, Paths.Composition, Paths.Accepted, SheetOf;
    MintOutcome(d, a.bound, Some(b), now, token, env);
    SameBinding(u, p, shown, a, p, later, b);
    if Open(w) && Paths.Composition(u.nfc) && ArtifactFor(u, q, w, c)
      && Display.RenderDisplay(SheetOf(p, a, x)) == Display.RenderDisplay(SheetOf(q, c, y)) {
      SameScreen(u, p, shown, a, x, q, w, c, y);
    }
  }

  /**
   The target's content, in terms of the two file trees: absent in both, or a file reached through
   real directories in both, with the same bytes.
   */
  lemma SameContent(u: Rules, p: Proposal, shown: View, later: View)
    requires Open(shown) && Open(later) && Paths.Composition(u.nfc)
    requires ChangeOf(u, p, shown).Some? && ChangeOf(u, p, shown) == ChangeOf(u, p, later)
    ensures var parts := Paths.Normalize(u.nfc, u.fold, p.target).value;
      Down(RootNode(later.fs, later.root), parts) == Down(RootNode(shown.fs, shown.root), parts)
  {
    hide Down, PathBytes, Utf8.Encode, Paths.ValidComponent, Paths.Composition, Paths.Accepted;
    Paths.ComponentsValid(u.nfc, u.fold, p.target);
    var parts := Paths.Normalize(u.nfc, u.fold, p.target).value;
    WalkersAgree(shown.fs, shown.root, parts);
    WalkersAgree(later.fs, later.root, parts);
  }
}
