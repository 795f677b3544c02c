/**
 The approve command and the change it is about, together: what the human was shown is built from
 the repository before the question, rebuilt after it, and exit 0 says what was recorded.
 */
module ApproveChange {
  import opened Prelude
  import opened Entries
  import opened FileTree
  import opened LedgerRuns
  import opened Store
  import opened Outcomes
  import opened Approve
  import opened DryRun
  import Display
  import Hashing
  import Paths

  /** What exit 0 promises of the change `p`, shown as `a` and recorded into the ledger found as `d`. */
  ghost predicate RecordedAsShown(u: Rules, p: Proposal, shown: DryRun.View, later: DryRun.View, a: Artifact, d: Disk, t: Disk,
                                  now: int, id: string)
    requires Open(shown) && Open(later)
  {
    var e := Minted(a, now, id);
    // One durable record, of the binding, target, root and risk on the screen, and nothing else, was added.
    && ReadDisk(d).Success? && ReadDisk(t) == Grown(d, e) && AllDurable(t)
    // The change it binds is the one that was shown: path, patch, pre-state and root.
    && ChangeOf(u, p, shown).Some? && ChangeOf(u, p, later) == ChangeOf(u, p, shown)
    && Hashing.BoundHash(u.sha, ChangeOf(u, p, shown).value) == Some(e.bound)
  }

  /** No string hashed for the change as shown collides with one hashed for it as rebuilt. */
  ghost predicate CollisionFree(u: Rules, p: Proposal, shown: DryRun.View, later: DryRun.View)
    requires Open(shown) && Open(later)
  {
    ChangeOf(u, p, shown).Some? && ChangeOf(u, p, later).Some? ==>
      Hashing.NoCollision(u.sha, ChangeOf(u, p, shown).value, ChangeOf(u, p, later).value)
  }

  /** Two artifacts of one proposal with one binding are one, unless the hash collided. */
  lemma RebuiltIsShown(u: Rules, p: Proposal, shown: DryRun.View, a: Artifact, later: DryRun.View, b: Artifact)
    requires Open(shown) && Open(later) && ArtifactFor(u, p, shown, a) && ArtifactFor(u, p, later, b)
    requires a.bound == b.bound && CollisionFree(u, p, shown, later)
    ensures a == b && ChangeOf(u, p, later) == ChangeOf(u, p, shown)
  {
    hide Hashing.NoCollision, Hashing.BoundHash, Hashing.Digest, Canonical, ReadOf, Join, Paths.Accepted;
    SameBinding(u, p, shown, a, p, later, b);
  }

  lemma ApprovedRecords(u: Rules, p: Proposal, shown: DryRun.View, later: DryRun.View, d: Disk, t: Disk, w: Surroundings)
    requires Open(shown) && Open(later) && CollisionFree(u, p, shown, later)
    requires w.built.Some? && ArtifactFor(u, p, shown, w.built.value)
    requires w.rebuilt.Some? ==> ArtifactFor(u, p, later, w.rebuilt.value)
    requires Approved(d, t, w)
    ensures w.token.Some? && RecordedAsShown(u, p, shown, later, w.built.value, d, t, w.mintNow, w.token.value)
  {
    hide Hashing.NoCollision, Hashing.BoundHash, Hashing.Digest, Canonical, ReadOf, Join, ReadDisk, Folded, CollisionFree;
    hide Valid, Paths.Accepted;
    RebuiltIsShown(u, p, shown, w.built.value, later, w.rebuilt.value);
  }

  /** The screen of this change: the page of its artifact over what the shown repository reads at its target. */
  ghost predicate OnScreen(u: Rules, p: Proposal, v: DryRun.View, a: Artifact, screen: string)
    requires Open(v)
  {
    var parts := Paths.Normalize(u.nfc, u.fold, p.target);
    parts.Some? && screen == Display.RenderDisplay(SheetOf(p, a, ReadOf(v.fs, v.root, parts.value)))
  }

  /** Whatever other artifact has this screen is of this patch, this target and this binding. */
  ghost predicate ShowsOnly(u: Rules, p: Proposal, a: Artifact, screen: string) {
    forall q, v, b, read ::
      Open(v) && ArtifactFor(u, q, v, b) && Display.RenderDisplay(SheetOf(q, b, read)) == screen ==>
      q.diff == p.diff && b.path == a.path && b.bound == a.bound
  }

  lemma ScreenShowsOnly(u: Rules, p: Proposal, v: DryRun.View, a: Artifact, read: Result<Option<bytes>, ReadFault>)
    requires Open(v) && Paths.Composition(u.nfc) && ArtifactFor(u, p, v, a)
    ensures ShowsOnly(u, p, a, Display.RenderDisplay(SheetOf(p, a, read)))
  {
    hide Display.RenderDisplay, SheetOf, ArtifactFor, Paths.Composition, Open;
    forall q, w, b, other |
      Open(w) && ArtifactFor(u, q, w, b)
      && Display.RenderDisplay(SheetOf(q, b, other)) == Display.RenderDisplay(SheetOf(p, a, read))
      ensures q.diff == p.diff && b.path == a.path && b.bound == a.bound
    {
      SameScreen(u, p, v, a, read, q, w, b, other);
    }
  }

  /** The artifact of the repository as it is, if it can be built and fits the screen, and that screen. */
  method Present(u: Rules, p: Proposal, v: DryRun.View)
    returns (built: Option<Artifact>, renderable: bool, screen: string)
    requires Open(v) && Paths.Composition(u.nfc)
    ensures built.Some? <==> Buildable(u, p, v)
    ensures built.Some? ==> ArtifactFor(u, p, v, built.value)
    ensures renderable <==> built.Some? && Display.Renderable(p.diff) && Display.Renderable(built.value.path)
    ensures if renderable then OnScreen(u, p, v, built.value, screen) && ShowsOnly(u, p, built.value, screen) else screen == ""
  {
    hide Buildable, ArtifactFor, ReadOf, Paths.Composition, Display.Renderable, Display.RenderDisplay, ShowsOnly, Open;
    built := BuildDryRunArtifact(u, p, v);
    renderable, screen := false, "";
    if built.None? {
      return;
    }
    var bad := Display.BadCharClass(p.diff);
    if bad.None? {
      bad := Display.BadCharClass(built.value.path);
    }
    renderable := bad.None?;
    if renderable {
      var norm := Paths.NormalizeTarget(u.nfc, u.fold, p.target);
      OpenRooted(v);
      var read := ReadBytes(v.fs, v.root, if norm.Success? then norm.value else [], v.fuel);
      screen := Display.RenderDisplay(SheetOf(p, built.value, read));
      BuildableTarget(u, p, v);
      ScreenShowsOnly(u, p, v, built.value, read);
    }
  }

  lemma BuildableTarget(u: Rules, p: Proposal, v: DryRun.View)
    requires Open(v) && Buildable(u, p, v)
    ensures Paths.Normalize(u.nfc, u.fold, p.target).Some?
  {
  }

  lemma OpenRooted(v: DryRun.View)
    requires Open(v)
    ensures Rooted(v.fs, v.root)
  {
  }

  /**
   The whole command over a proposal. `w` gives the answers of the terminal, the system and the human;
   the artifacts and the screen are computed here, before the question and after it. Exit 0 means that
   the human consented to this very change and that one durable record binds it.
   */
  method ApproveProposal(
      store: ApprovalStore, u: Rules, p: Proposal, shown: DryRun.View, later: DryRun.View, w: Surroundings, meanwhile: Disk)
    returns (end: Ending, alive: bool, screen: string, ghost met: Surroundings)
    requires !store.locked && Plain(meanwhile) && Open(shown) && Open(later) && Paths.Composition(u.nfc)
    modifies store
    ensures !store.locked
    ensures end.code in {EXIT_OK, EXIT_DECLINE, EXIT_ERROR}
    // Of the surroundings only the artifacts and the screen's verdict are the program's own.
    ensures met == w.(built := met.built, renderable := met.renderable, rebuilt := met.rebuilt)
    ensures met.built.Some? <==> Buildable(u, p, shown)
    ensures met.built.Some? ==> ArtifactFor(u, p, shown, met.built.value)
    ensures met.renderable <==>
      met.built.Some? && Display.Renderable(p.diff) && Display.Renderable(met.built.value.path)
    // The screen is the page of this artifact, and stands for this patch, this target and this binding alone.
    ensures if met.renderable then OnScreen(u, p, shown, met.built.value, screen) && ShowsOnly(u, p, met.built.value, screen)
      else screen == ""
    // The mint is reached only by the line typed for the binding on the screen.
    ensures Reaches(old(store.disk), met) && |met.built.value.bound| >= 12 ==>
      w.reply.Typed? && TypedFor(w.reply.input, met.built.value.bound)
    // Nothing is written unless a buildable, renderable change was delivered and its phrase was typed.
    ensures !Reaches(old(store.disk), met) ==>
      alive && store.disk == old(store.disk) && Some(end) == Refusal(old(store.disk), met)
    ensures alive && end.code == EXIT_DECLINE && Reaches(old(store.disk), met) ==> store.disk == meanwhile
    // Exit 0, or a record that could only not be announced: what was shown is what is recorded.
    ensures alive && (end.code == EXIT_OK || end.message.RecordedNotShown?) && CollisionFree(u, p, shown, later) ==>
      && Reaches(old(store.disk), met) && Consented(met) && w.token.Some? && OnScreen(u, p, shown, met.built.value, screen)
      && RecordedAsShown(u, p, shown, later, met.built.value, meanwhile, store.disk, w.mintNow, w.token.value)
  {
    hide Hashing.NoCollision, Hashing.BoundHash, Hashing.Digest, Canonical, ReadOf, Join, ReadDisk, Folded, CollisionFree;
    hide Buildable, ArtifactFor, AfterMint, Refusal, LookupClear, Confirms, RecordedAsShown, Paths.Composition, Told, Approved;
    hide Display.Renderable, ShowsOnly, Delivered, TypedFor, Mintable, Held;
    var built, renderable;
    built, renderable, screen := Present(u, p, shown);
    var rebuilt := BuildDryRunArtifact(u, p, later);
    var surroundings := w.(built := built, renderable := renderable, rebuilt := rebuilt);
    met := surroundings;
    end, alive := ApproveCommand(store, surroundings, meanwhile);
    if alive && (end.code == EXIT_OK || end.message.RecordedNotShown?) && CollisionFree(u, p, shown, later) {
      ApprovedRecords(u, p, shown, later, meanwhile, store.disk, met);
    }
  }
}
