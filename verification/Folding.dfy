/** The fold of ledger records into the approvals that are active now, stated as sets and run as loops. */
module Folding {
  import opened Prelude
  import opened Entries

  datatype ViewState = Active | Consumed

  datatype View = View(id: string, bound: string, root: string, path: string, risk: string,
                       created: int, expires: int, state: ViewState)

  function ViewOf(e: Entry): View
    requires e.Approval?
  {
    View(e.id, e.bound, e.root, e.path, e.risk, e.created, e.expires, Active)
  }

  predicate Issued(es: seq<Entry>, id: string) {
    exists e :: e in es && e.Approval? && e.id == id
  }

  predicate Spent(es: seq<Entry>, id: string) {
    exists e :: e in es && e.Consumption? && e.id == id
  }

  // ---- the stated ledger faults ---------------------------------------------------

  predicate DuplicateId(es: seq<Entry>) {
    exists i, j :: 0 <= i < j < |es| && es[i].Approval? && es[j].Approval? && es[i].id == es[j].id
  }

  predicate UnknownReference(es: seq<Entry>) {
    exists c :: c in es && c.Consumption? && !Issued(es, c.id)
  }

  predicate WrongBinding(es: seq<Entry>) {
    exists c, a :: c in es && a in es && c.Consumption? && a.Approval? && c.id == a.id && c.bound != a.bound
  }

  predicate Corrupt(es: seq<Entry>) {
    DuplicateId(es) || UnknownReference(es) || WrongBinding(es)
  }

  /** An approval for this root, not consumed, inside its half-open lifetime. */
  predicate Live(es: seq<Entry>, e: Entry, root: string, now: int) {
    e in es && e.Approval? && e.root == root && !Spent(es, e.id) && e.created <= now < e.expires
  }

  predicate Ambiguous(es: seq<Entry>, root: string, now: int) {
    exists a, b :: a in es && b in es && Live(es, a, root, now) && Live(es, b, root, now)
      && a.bound == b.bound && a != b
  }

  function ActiveMap(es: seq<Entry>, root: string, now: int): map<string, View>
    requires !Ambiguous(es, root, now)
  {
    map e | e in es && Live(es, e, root, now) :: e.bound := ViewOf(e)
  }

  /** The set definition: fail on a fault, otherwise the live approvals keyed by what they bind. */
  function Fold(es: seq<Entry>, root: string, now: int): Result<map<string, View>, ()> {
    if Corrupt(es) || Ambiguous(es, root, now) then Failure(())
    else Success(ActiveMap(es, root, now))
  }

  /**
   The fold in terms of the records alone. It succeeds exactly when no two approvals share an identifier, every
   consumption has an approval of its identifier and binding, and no two approvals of one binding are unspent
   and inside their lifetime; it then finds exactly those that are.
   */
  lemma FoldExact(es: seq<Entry>, root: string, now: int, bound: string, view: View)
    ensures Fold(es, root, now).Success? <==>
      && (forall i, j :: 0 <= i < j < |es| && es[i].Approval? && es[j].Approval? ==> es[i].id != es[j].id)
      && (forall c :: c in es && c.Consumption? ==> exists a :: a in es && a.Approval? && a.id == c.id && a.bound == c.bound)
      && (forall a, b ::
            && a in es && b in es && a.Approval? && b.Approval? && a.bound == b.bound && a.root == b.root == root
            && a.created <= now < a.expires && b.created <= now < b.expires
            && (forall c :: c in es && c.Consumption? ==> c.id != a.id && c.id != b.id) ==>
              a == b)
    ensures Fold(es, root, now).Success? ==>
      (bound in Fold(es, root, now).value && Fold(es, root, now).value[bound] == view <==>
        exists a ::
          && a in es && a.Approval? && a.bound == bound && a.root == root && a.created <= now < a.expires
          && (forall c :: c in es && c.Consumption? ==> c.id != a.id)
          && view == View(a.id, bound, root, a.path, a.risk, a.created, a.expires, Active))
  {
    FaultsExact(es);
    AmbiguousExact(es, root, now);
    if !Ambiguous(es, root, now) { ActiveExact(es, root, now, bound, view); }
    hide Corrupt, Ambiguous, ActiveMap;
  }

  lemma FaultsExact(es: seq<Entry>)
    ensures !Corrupt(es) <==>
      && (forall i, j :: 0 <= i < j < |es| && es[i].Approval? && es[j].Approval? ==> es[i].id != es[j].id)
      && (forall c :: c in es && c.Consumption? ==> exists a :: a in es && a.Approval? && a.id == c.id && a.bound == c.bound)
  {
    if !Corrupt(es) {
      forall c | c in es && c.Consumption? ensures exists a :: a in es && a.Approval? && a.id == c.id && a.bound == c.bound {
        var a :| a in es && a.Approval? && a.id == c.id;
      }
    } else if forall i, j :: 0 <= i < j < |es| && es[i].Approval? && es[j].Approval? ==> es[i].id != es[j].id {
      if WrongBinding(es) {
        var c, a :| c in es && a in es && c.Consumption? && a.Approval? && c.id == a.id && c.bound != a.bound;
        forall b | b in es && b.Approval? && b.id == c.id ensures b == a { SameIdSameRecord(es, a, b); }
      }
    }
  }

  lemma AmbiguousExact(es: seq<Entry>, root: string, now: int)
    ensures !Ambiguous(es, root, now) <==>
      forall a, b ::
        && a in es && b in es && a.Approval? && b.Approval? && a.bound == b.bound && a.root == b.root == root
        && a.created <= now < a.expires && b.created <= now < b.expires
        && (forall c :: c in es && c.Consumption? ==> c.id != a.id && c.id != b.id) ==>
          a == b
  {
    forall a | a in es && a.Approval?
      ensures Spent(es, a.id) <==> !(forall c :: c in es && c.Consumption? ==> c.id != a.id)
    {
    }
    hide Spent;
  }

  lemma ActiveExact(es: seq<Entry>, root: string, now: int, bound: string, view: View)
    requires !Ambiguous(es, root, now)
    ensures bound in ActiveMap(es, root, now) && ActiveMap(es, root, now)[bound] == view <==>
      exists a ::
        && a in es && a.Approval? && a.bound == bound && a.root == root && a.created <= now < a.expires
        && (forall c :: c in es && c.Consumption? ==> c.id != a.id)
        && view == View(a.id, bound, root, a.path, a.risk, a.created, a.expires, Active)
  {
    var m := ActiveMap(es, root, now);
    assert bound in m && m[bound] == view <==>
      exists a :: a in es && Live(es, a, root, now) && a.bound == bound && view == ViewOf(a);
    forall a | a in es && a.Approval?
      ensures Spent(es, a.id) <==> !(forall c :: c in es && c.Consumption? ==> c.id != a.id)
    {
    }
    hide Spent, ActiveMap, Ambiguous;
  }

  // ---- the loops ---------------------------------------------------------------------

  ghost predicate Indexed(es: seq<Entry>, approvals: seq<Entry>, bounds: map<string, string>, consumptions: seq<Entry>) {
    && (forall e :: e in approvals <==> e in es && e.Approval?)
    && (forall e :: e in consumptions <==> e in es && e.Consumption?)
    && (forall id :: id in bounds <==> Issued(es, id))
    && (forall e :: e in approvals ==> e.id in bounds && bounds[e.id] == e.bound)
    && (forall p, q :: 0 <= p < q < |approvals| ==> approvals[p].id != approvals[q].id)
  }

  method IndexEntries(es: seq<Entry>)
    returns (ok: bool, approvals: seq<Entry>, bounds: map<string, string>, consumptions: seq<Entry>)
    ensures ok <==> !DuplicateId(es)
    ensures ok ==> Indexed(es, approvals, bounds, consumptions)
  {
    approvals, bounds, consumptions := [], map[], [];
    for i := 0 to |es|
      invariant !DuplicateId(es[..i])
      invariant Indexed(es[..i], approvals, bounds, consumptions)
    {
      var entry := es[i];
      assert es[..i + 1] == es[..i] + [entry];
      if entry.Approval? {
        if entry.id in bounds {
          var e :| e in es[..i] && e.Approval? && e.id == entry.id;
          return false, approvals, bounds, consumptions;
        }
        assert !Issued(es[..i], entry.id);
        IndexApproval(es[..i], entry, approvals, bounds, consumptions);
        bounds := bounds[entry.id := entry.bound];
        approvals := approvals + [entry];
      } else {
        IndexConsumption(es[..i], entry, approvals, bounds, consumptions);
        consumptions := consumptions + [entry];
      }
    }
    assert es[..|es|] == es;
    ok := true;
  }

  lemma IndexApproval(es: seq<Entry>, e: Entry, approvals: seq<Entry>, bounds: map<string, string>, consumptions: seq<Entry>)
    requires Indexed(es, approvals, bounds, consumptions) && !DuplicateId(es) && e.Approval? && e.id !in bounds
    ensures Indexed(es + [e], approvals + [e], bounds[e.id := e.bound], consumptions) && !DuplicateId(es + [e])
  {
    var all := es + [e];
    forall id ensures Issued(all, id) <==> Issued(es, id) || id == e.id {
      assert e in all;
      if Issued(es, id) { var a :| a in es && a.Approval? && a.id == id; assert a in all; }
    }
    forall i, j | 0 <= i < j < |all| && all[i].Approval? && all[j].Approval? ensures all[i].id != all[j].id {
      if j == |es| { assert all[i] in es; }
    }
  }

  lemma IndexConsumption(es: seq<Entry>, e: Entry, approvals: seq<Entry>, bounds: map<string, string>, consumptions: seq<Entry>)
    requires Indexed(es, approvals, bounds, consumptions) && !DuplicateId(es) && e.Consumption?
    ensures Indexed(es + [e], approvals, bounds, consumptions + [e]) && !DuplicateId(es + [e])
  {
    var all := es + [e];
    forall id ensures Issued(all, id) <==> Issued(es, id) {
      if Issued(es, id) { var a :| a in es && a.Approval? && a.id == id; assert a in all; }
    }
    forall i, j | 0 <= i < j < |all| && all[i].Approval? && all[j].Approval? ensures all[i].id != all[j].id {
      assert j < |es|;
    }
  }

  method CheckConsumptions(es: seq<Entry>, approvals: seq<Entry>, bounds: map<string, string>, consumptions: seq<Entry>)
    returns (ok: bool, consumed: set<string>)
    requires Indexed(es, approvals, bounds, consumptions)
    ensures ok <==> !UnknownReference(es) && !WrongBinding(es)
    ensures ok ==> forall id :: id in consumed <==> Spent(es, id)
  {
    consumed := {};
    for i := 0 to |consumptions|
      invariant forall id :: id in consumed <==> exists c :: c in consumptions[..i] && c.id == id
      invariant forall c :: c in consumptions[..i] ==> Issued(es, c.id) && bounds[c.id] == c.bound
    {
      var c := consumptions[i];
      assert consumptions[..i + 1] == consumptions[..i] + [c];
      assert c in consumptions;
      if c.id !in bounds {
        return false, consumed;
      }
      if c.bound != bounds[c.id] {
        var a :| a in es && a.Approval? && a.id == c.id;
        assert a in approvals;
        return false, consumed;
      }
      consumed := consumed + {c.id};
    }
    assert consumptions[..|consumptions|] == consumptions;
    ok := true;
  }

  /** The live ones among the first `n` approvals have distinct bindings and are exactly what `active` holds. */
  ghost predicate Collected(es: seq<Entry>, approvals: seq<Entry>, n: nat, root: string, now: int, active: map<string, View>)
    requires n <= |approvals|
  {
    && (forall p, q ::
          0 <= p < q < n && Live(es, approvals[p], root, now) && Live(es, approvals[q], root, now)
          ==> approvals[p].bound != approvals[q].bound)
    && (forall p ::
          0 <= p < n && Live(es, approvals[p], root, now)
          ==> approvals[p].bound in active && active[approvals[p].bound] == ViewOf(approvals[p]))
    && (forall b :: b in active ==>
          exists p :: 0 <= p < n && Live(es, approvals[p], root, now) && approvals[p].bound == b)
  }

  ghost predicate Distinct(es: seq<Entry>, approvals: seq<Entry>) {
    && (forall e :: e in approvals <==> e in es && e.Approval?)
    && (forall p, q :: 0 <= p < q < |approvals| ==> approvals[p].id != approvals[q].id)
  }

  method CollectActive(es: seq<Entry>, approvals: seq<Entry>, consumed: set<string>, root: string, now: int)
    returns (ok: bool, active: map<string, View>)
    requires Distinct(es, approvals)
    requires forall id :: id in consumed <==> Spent(es, id)
    ensures ok <==> !Ambiguous(es, root, now)
    ensures ok ==> active == ActiveMap(es, root, now)
  {
    hide Ambiguous, ActiveMap, Spent, Collected, ViewOf;
    active := map[];
    NoneCollected(es, approvals, root, now);
    for i := 0 to |approvals|
      invariant Collected(es, approvals, i, root, now, active)
    {
      var e := approvals[i];
      assert e in approvals;
      if e.root != root || e.id in consumed || now < e.created || now >= e.expires {
        CollectSkip(es, approvals, i, root, now, active);
        continue;
      }
      if e.bound in active {
        CollectClash(es, approvals, i, root, now, active);
        return false, active;
      }
      CollectAdd(es, approvals, i, root, now, active);
      active := active[e.bound := ViewOf(e)];
    }
    ok := true;
    AllCollected(es, approvals, root, now, active);
  }

  lemma NoneCollected(es: seq<Entry>, approvals: seq<Entry>, root: string, now: int)
    ensures Collected(es, approvals, 0, root, now, map[])
  {
  }

  lemma CollectSkip(es: seq<Entry>, approvals: seq<Entry>, i: nat, root: string, now: int, active: map<string, View>)
    requires i < |approvals| && Collected(es, approvals, i, root, now, active)
    requires !Live(es, approvals[i], root, now)
    ensures Collected(es, approvals, i + 1, root, now, active)
  {
    hide Live;
  }

  lemma CollectAdd(es: seq<Entry>, approvals: seq<Entry>, i: nat, root: string, now: int, active: map<string, View>)
    requires i < |approvals| && Collected(es, approvals, i, root, now, active)
    requires Live(es, approvals[i], root, now) && approvals[i].bound !in active
    ensures Collected(es, approvals, i + 1, root, now, active[approvals[i].bound := ViewOf(approvals[i])])
  {
    hide Live;
  }

  lemma CollectClash(es: seq<Entry>, approvals: seq<Entry>, i: nat, root: string, now: int, active: map<string, View>)
    requires i < |approvals| && Collected(es, approvals, i, root, now, active) && Distinct(es, approvals)
    requires Live(es, approvals[i], root, now) && approvals[i].bound in active
    ensures Ambiguous(es, root, now)
  {
    var p :| 0 <= p < i && Live(es, approvals[p], root, now) && approvals[p].bound == approvals[i].bound;
    assert approvals[p] != approvals[i];
  }

  lemma AllCollected(es: seq<Entry>, approvals: seq<Entry>, root: string, now: int, active: map<string, View>)
    requires Distinct(es, approvals) && Collected(es, approvals, |approvals|, root, now, active)
    ensures !Ambiguous(es, root, now) && active == ActiveMap(es, root, now)
  {
    forall a, b | a in es && b in es && Live(es, a, root, now) && Live(es, b, root, now) && a.bound == b.bound
      ensures a == b
    {
      assert a in approvals && b in approvals;
      var p :| 0 <= p < |approvals| && approvals[p] == a;
      var q :| 0 <= q < |approvals| && approvals[q] == b;
    }
  }

  /** The three passes compute exactly the set definition, faults included. */
  method FoldActive(es: seq<Entry>, root: string, now: int) returns (r: Result<map<string, View>, ()>)
    ensures r == Fold(es, root, now)
  {
    hide DuplicateId, UnknownReference, WrongBinding, Ambiguous, ActiveMap;
    var unique, approvals, bounds, consumptions := IndexEntries(es);
    if !unique {
      return Failure(());
    }
    var matched, consumed := CheckConsumptions(es, approvals, bounds, consumptions);
    if !matched {
      return Failure(());
    }
    var single, active := CollectActive(es, approvals, consumed, root, now);
    if !single {
      return Failure(());
    }
    r := Success(active);
  }

  // ---- what a record on the end does -----------------------------------------------------

  lemma SpentAppend(es: seq<Entry>, e: Entry, id: string)
    ensures Spent(es + [e], id) <==> Spent(es, id) || (e.Consumption? && e.id == id)
  {
    if Spent(es, id) { var c :| c in es && c.Consumption? && c.id == id; assert c in es + [e]; }
    assert e in es + [e];
  }

  lemma IssuedAppend(es: seq<Entry>, e: Entry, id: string)
    ensures Issued(es + [e], id) <==> Issued(es, id) || (e.Approval? && e.id == id)
  {
    if Issued(es, id) { var a :| a in es && a.Approval? && a.id == id; assert a in es + [e]; }
    assert e in es + [e];
  }

  /** A consumption of an issued id with the right binding keeps a sound ledger sound. */
  lemma ConsumptionSound(es: seq<Entry>, c: Entry, a: Entry)
    requires !Corrupt(es) && c.Consumption? && a in es && a.Approval? && a.id == c.id && a.bound == c.bound
    ensures !Corrupt(es + [c])
  {
    var all := es + [c];
    forall i, j | 0 <= i < j < |all| && all[i].Approval? && all[j].Approval? ensures all[i].id != all[j].id {
      assert j < |es|;
    }
    forall x | x in all && x.Consumption? ensures Issued(all, x.id) { IssuedAppend(es, c, x.id); }
    forall x, b | x in all && b in all && x.Consumption? && b.Approval? && x.id == b.id ensures x.bound == b.bound {
      if x == c { SameIdSameRecord(es, a, b); }
    }
  }

  lemma SameIdSameRecord(es: seq<Entry>, a: Entry, b: Entry)
    requires !DuplicateId(es) && a in es && b in es && a.Approval? && b.Approval? && a.id == b.id
    ensures a == b
  {
    var i :| 0 <= i < |es| && es[i] == a;
    var j :| 0 <= j < |es| && es[j] == b;
  }

  /** An approval under an id never seen before keeps a sound ledger sound. */
  lemma ApprovalSound(es: seq<Entry>, e: Entry)
    requires !Corrupt(es) && e.Approval? && !Issued(es, e.id)
    ensures !Corrupt(es + [e])
    ensures !Spent(es + [e], e.id)
  {
    var all := es + [e];
    forall i, j | 0 <= i < j < |all| && all[i].Approval? && all[j].Approval? ensures all[i].id != all[j].id {
      assert all[i] in es;
    }
    forall x | x in all && x.Consumption? ensures Issued(all, x.id) && x.id != e.id {
      assert x in es;
      IssuedAppend(es, e, x.id);
    }
  }

  lemma LiveAppend(es: seq<Entry>, e: Entry, x: Entry, root: string, now: int)
    requires x in es
    ensures Live(es + [e], x, root, now) <==> Live(es, x, root, now) && !(e.Consumption? && e.id == x.id)
  {
    SpentAppend(es, e, x.id);
  }

  /** Consuming an active approval takes away its key, and only that. */
  lemma ConsumeRemovesOne(es: seq<Entry>, root: string, now: int, bound: string, at: int)
    requires Fold(es, root, now).Success? && bound in Fold(es, root, now).value
    ensures var view := Fold(es, root, now).value[bound];
      Fold(es + [Consumption(view.id, bound, at)], root, now) == Success(Fold(es, root, now).value - {bound})
  {
    var m := Fold(es, root, now).value;
    var a :| a in es && Live(es, a, root, now) && a.bound == bound && ViewOf(a) == m[bound];
    var c := Consumption(a.id, bound, at);
    ConsumptionSound(es, c, a);
    forall x | x in es + [c] ensures Live(es + [c], x, root, now) <==> Live(es, x, root, now) && x != a {
      if x in es {
        LiveAppend(es, c, x, root, now);
        if x.Approval? && x.id == a.id { SameIdSameRecord(es, a, x); }
      }
    }
    SameKeys(es, es + [c], root, now, m, m - {bound});
  }

  lemma SameKeys(es: seq<Entry>, all: seq<Entry>, root: string, now: int, m: map<string, View>, n: map<string, View>)
    requires !Corrupt(all) && !Ambiguous(all, root, now)
    requires forall b :: b in n <==> exists x :: x in all && Live(all, x, root, now) && x.bound == b
    requires forall x :: x in all && Live(all, x, root, now) ==> x.bound in n && n[x.bound] == ViewOf(x)
    ensures Fold(all, root, now) == Success(n)
  {
    var active := ActiveMap(all, root, now);
    forall b ensures b in active <==> b in n {
    }
    assert forall b :: b in active ==> active[b] == n[b];
    assert active == n;
  }

  /** A fresh approval for this root, in its lifetime and not clashing, adds exactly its key. */
  lemma MintAddsOne(es: seq<Entry>, root: string, now: int, e: Entry)
    requires Fold(es, root, now).Success? && e.Approval? && e.root == root && e.created <= now < e.expires
    requires !Issued(es, e.id) && e.bound !in Fold(es, root, now).value
    ensures Fold(es + [e], root, now) == Success(Fold(es, root, now).value[e.bound := ViewOf(e)])
  {
    var m, all := Fold(es, root, now).value, es + [e];
    ApprovalSound(es, e);
    forall x | x in all ensures Live(all, x, root, now) <==> x == e || (x in es && Live(es, x, root, now)) {
      if x in es { LiveAppend(es, e, x, root, now); }
    }
    forall x | x in es && Live(es, x, root, now) ensures x.bound in m && x.bound != e.bound {
    }
    SameKeys(es, all, root, now, m, m[e.bound := ViewOf(e)]);
  }

  /** An approval minted for another clone grants nothing here. */
  lemma ForeignUnchanged(es: seq<Entry>, root: string, now: int, e: Entry)
    requires Fold(es, root, now).Success? && e.Approval? && e.root != root && !Issued(es, e.id)
    ensures Fold(es + [e], root, now) == Fold(es, root, now)
  {
    var m, all := Fold(es, root, now).value, es + [e];
    ApprovalSound(es, e);
    forall x | x in all ensures Live(all, x, root, now) <==> x in es && Live(es, x, root, now) {
      if x in es { LiveAppend(es, e, x, root, now); }
    }
    SameKeys(es, all, root, now, m, m);
  }

  predicate SameMembers(es: seq<Entry>, fs: seq<Entry>) {
    (forall e :: e in es ==> e in fs) && (forall e :: e in fs ==> e in es)
  }

  /** Apart from repeated approvals, only which records occur matters. */
  lemma FoldOfMembers(es: seq<Entry>, fs: seq<Entry>, root: string, now: int)
    requires SameMembers(es, fs) && (DuplicateId(es) <==> DuplicateId(fs))
    ensures Fold(es, root, now) == Fold(fs, root, now)
  {
    hide DuplicateId;
    forall id ensures Issued(es, id) <==> Issued(fs, id) {
    }
    forall id ensures Spent(es, id) <==> Spent(fs, id) {
    }
    hide Issued, Spent;
    forall e ensures Live(es, e, root, now) <==> Live(fs, e, root, now) {
    }
    hide Live, ViewOf;
    assert Corrupt(es) <==> Corrupt(fs);
    assert Ambiguous(es, root, now) <==> Ambiguous(fs, root, now);
    if !Corrupt(es) && !Ambiguous(es, root, now) {
      assert ActiveMap(es, root, now) == ActiveMap(fs, root, now);
    }
  }

  /** Recording the same consumption again changes nothing. */
  lemma ConsumptionIdempotent(es: seq<Entry>, c: Entry, root: string, now: int)
    requires c in es && c.Consumption?
    ensures Fold(es + [c], root, now) == Fold(es, root, now)
  {
    var all := es + [c];
    if DuplicateId(es) {
      var i, j :| 0 <= i < j < |es| && es[i].Approval? && es[j].Approval? && es[i].id == es[j].id;
      assert all[i] == es[i] && all[j] == es[j];
    }
    if DuplicateId(all) {
      var i, j :| 0 <= i < j < |all| && all[i].Approval? && all[j].Approval? && all[i].id == all[j].id;
      assert es[i] == all[i] && es[j] == all[j];
    }
    FoldOfMembers(es, all, root, now);
  }

  lemma TwiceInMultiset(es: seq<Entry>, i: nat, j: nat)
    requires i < j < |es| && es[i] == es[j]
    ensures multiset(es)[es[i]] >= 2
  {
    assert es == es[..j] + es[j..];
    assert es[i] in es[..j] && es[j] in es[j..];
  }

  lemma TwoPlaces(es: seq<Entry>, a: Entry) returns (i: nat, j: nat)
    requires multiset(es)[a] >= 2
    ensures i < j < |es| && es[i] == a && es[j] == a
  {
    var k :| 0 <= k < |es| && es[k] == a;
    assert es == es[..k] + [a] + es[k + 1..];
    if a in es[..k] {
      i :| 0 <= i < k && es[i] == a;
      j := k;
    } else {
      assert multiset(es)[a] == multiset(es[..k])[a] + 1 + multiset(es[k + 1..])[a];
      assert a in es[k + 1..];
      var d :| 0 <= d < |es[k + 1..]| && es[k + 1..][d] == a;
      i, j := k, k + 1 + d;
    }
  }

  lemma DuplicatePermuted(es: seq<Entry>, fs: seq<Entry>)
    requires multiset(es) == multiset(fs) && DuplicateId(es)
    ensures DuplicateId(fs)
  {
    var i, j :| 0 <= i < j < |es| && es[i].Approval? && es[j].Approval? && es[i].id == es[j].id;
    assert es[i] in multiset(fs) && es[j] in multiset(fs);
    if es[i] == es[j] {
      TwiceInMultiset(es, i, j);
      var p, q := TwoPlaces(fs, es[i]);
    } else {
      var p :| 0 <= p < |fs| && fs[p] == es[i];
      var q :| 0 <= q < |fs| && fs[q] == es[j];
    }
  }

  /** The order of the records does not matter. */
  lemma FoldPermuted(es: seq<Entry>, fs: seq<Entry>, root: string, now: int)
    requires multiset(es) == multiset(fs)
    ensures Fold(es, root, now) == Fold(fs, root, now)
  {
    assert forall e :: e in es <==> e in multiset(es);
    assert forall e :: e in fs <==> e in multiset(fs);
    if DuplicateId(es) { DuplicatePermuted(es, fs); }
    if DuplicateId(fs) { DuplicatePermuted(fs, es); }
    FoldOfMembers(es, fs, root, now);
  }
}
