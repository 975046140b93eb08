/** Installing a payload with its dependency closure: a walk over requirement
    edges with no visited set, against a fixed set of registries. */
module Install {
  import opened Wrappers
  import opened Text
  import opened Decimal
  import opened Versions
  import opened Dispatcher
  import opened Constraints

  datatype Id = Id(name: string, version: string)

  /** A `requires:` edge. Language edges belong to the run time, not to the install. */
  datatype Requirement =
    | Language
    | Toolkit(name: string, constraint: Constraint)
    | Data(name: string, constraint: Constraint)

  datatype Kind = AppPayload | DataPayload | OtherPayload

  /** What an image says about itself. */
  datatype Embedded =
    | NoManifest
    | Malformed
    | Manifest(id: Id, requirements: seq<Requirement>)

  datatype Image = Image(manifest: Embedded)

  /** One version a registry offers; `published` when the host platform has an artifact. */
  datatype Offer = Offer(version: string, image: Image, published: bool)

  datatype RegistryPayload = RegistryPayload(kind: Kind, offers: seq<Offer>)

  type Registry = map<string, RegistryPayload>

  /** The registered registries. */
  datatype World = World(registries: seq<Registry>)

  datatype Plan = Plan(id: Id, kind: Kind, image: Image, strict: bool)

  datatype Error =
    | NotCarried(name: string)
    | NoSatisfyingVersion(name: string)
    | AmbiguousRegistries(name: string)
    | NotPublished(id: Id)
    | ManifestMalformed(id: Id)
    | IdentityMismatch(id: Id)
    | CannotSynthesize(id: Id)
    | Faulted

  // ---- the plan of an edge -------------------------------------------------

  /** The registries, in order, that carry `name`. */
  function Found(regs: seq<Registry>, name: string): (f: seq<RegistryPayload>)
    ensures forall p :: p in f ==> exists r :: r in regs && name in r && r[name] == p
  {
    if regs == [] then []
    else (if name in regs[0] then [regs[0][name]] else []) + Found(regs[1..], name)
  }

  ghost predicate Offered(offers: seq<Offer>, version: string) {
    exists o :: o in offers && o.version == version
  }

  ghost predicate NoneMatches(offers: seq<Offer>, constraint: Constraint) {
    forall o :: o in offers ==> !Matches(constraint, o.version)
  }

  lemma OffersSnoc(offers: seq<Offer>, constraint: Constraint)
    requires offers != []
    ensures var init, last := offers[..|offers| - 1], offers[|offers| - 1].version;
      && (forall v :: Offered(init, v) ==> Offered(offers, v)) && Offered(offers, last)
      && (NoneMatches(offers, constraint) <==> NoneMatches(init, constraint) && !Matches(constraint, last))
  {
    hide Matches;
    assert offers == offers[..|offers| - 1] + [offers[|offers| - 1]];
  }

  lemma NoOffers(constraint: Constraint)
    ensures NoneMatches([], constraint)
  {
  }

  /** The newest offered version satisfying the constraint, by the dispatcher's
      comparison; of equals, the last. */
  function Newest(offers: seq<Offer>, constraint: Constraint): (v: Option<string>)
    ensures v.Some? ==> Matches(constraint, v.value) && Offered(offers, v.value)
    ensures v.None? <==> NoneMatches(offers, constraint)
  {
    hide DispatchCmp, Matches, Offered, NoneMatches;
    if offers == [] then
      NoOffers(constraint);
      None
    else
      var best, last := Newest(offers[..|offers| - 1], constraint), offers[|offers| - 1].version;
      OffersSnoc(offers, constraint);
      if !Matches(constraint, last) then best
      else if best.Some? && DispatchCmp(best.value, last) == Greater then best
      else Some(last)
  }

  /** The first offer of a version. */
  function OfferOf(offers: seq<Offer>, version: string): (o: Offer)
    requires exists x :: x in offers && x.version == version
    ensures o in offers && o.version == version
  {
    if offers[0].version == version then offers[0] else OfferOf(offers[1..], version)
  }

  /** The plan for one toolkit or data edge: exactly one registry must carry
      the name, and its newest satisfying version is taken. */
  function EdgePlan(w: World, name: string, constraint: Constraint): (r: Result<Plan, Error>)
    ensures r.Ok? ==> r.value.id.name == name && Matches(constraint, r.value.id.version)
  {
    var found := Found(w.registries, name);
    if |found| == 0 then Err(NotCarried(name))
    else if |found| > 1 then Err(AmbiguousRegistries(name))
    else
      var v := Newest(found[0].offers, constraint);
      if v.None? then Err(NoSatisfyingVersion(name))
      else
        var o := OfferOf(found[0].offers, v.value);
        if !o.published then Err(NotPublished(Id(name, v.value)))
        else Ok(Plan(Id(name, v.value), found[0].kind, o.image, true))
  }

  /** Every (name, version) pair the registries offer. */
  ghost function Catalog(w: World): set<Id> {
    set r: Registry, n: string, o: Offer | r in w.registries && n in r && o in r[n].offers :: Id(n, o.version)
  }

  /** Every plan of an edge is in the finite catalog. */
  lemma PlanInCatalog(w: World, name: string, constraint: Constraint)
    requires EdgePlan(w, name, constraint).Ok?
    ensures EdgePlan(w, name, constraint).value.id in Catalog(w)
  {
    var found := Found(w.registries, name);
    assert found[0] in found;
    var r :| r in w.registries && name in r && r[name] == found[0];
    var v := EdgePlan(w, name, constraint).value.id.version;
    var o := OfferOf(found[0].offers, v);
    assert Id(name, o.version) in Catalog(w);
  }

  /** The offered versions that satisfy the constraint. */
  function Satisfying(offers: seq<Offer>, constraint: Constraint): set<string> {
    set o | o in offers && Matches(constraint, o.version) :: o.version
  }

  /** No satisfying version is above `v`. */
  ghost predicate IsGreatest(offers: seq<Offer>, constraint: Constraint, v: string) {
    forall u :: u in Satisfying(offers, constraint) ==> DispatchCmp(u, v) != Greater
  }

  lemma SatisfyingSnoc(offers: seq<Offer>, constraint: Constraint)
    requires offers != []
    ensures var init, last := offers[..|offers| - 1], offers[|offers| - 1].version;
      Satisfying(offers, constraint) == Satisfying(init, constraint) + if Matches(constraint, last) then {last} else {}
  {
    var init, last := offers[..|offers| - 1], offers[|offers| - 1];
    assert offers == init + [last];
  }

  lemma DispatchFlips(a: string, b: string)
    ensures DispatchCmp(b, a) == DispatchCmp(a, b).Flip() && DispatchCmp(a, a) == Equal
  {
    hide MixedCmp;
    MixedSwap(Segments(a), Segments(b));
    MixedSwap(Segments(a), Segments(a));
  }

  /** On versions without a trap, the version taken is a greatest one among those that satisfy. */
  lemma {:induction false} NewestIsGreatest(offers: seq<Offer>, constraint: Constraint)
    requires Satisfying(offers, constraint) != {} && TrapFree(Satisfying(offers, constraint))
    ensures Newest(offers, constraint).Some?
    ensures Newest(offers, constraint).value in Satisfying(offers, constraint)
    ensures IsGreatest(offers, constraint, Newest(offers, constraint).value)
  {
    hide DispatchCmp, Trap, Satisfying, Matches;
    OrderedExactly(Satisfying(offers, constraint));
    NonEmptyOffers(offers, constraint);
    SatisfyingSnoc(offers, constraint);
    var init, last := offers[..|offers| - 1], offers[|offers| - 1].version;
    DispatchFlips(last, last);
    if Satisfying(init, constraint) != {} {
      NewestIsGreatest(init, constraint);
      DispatchFlips(Newest(init, constraint).value, last);
    } else {
      NothingNewest(init, constraint);
    }
  }

  lemma NonEmptyOffers(offers: seq<Offer>, constraint: Constraint)
    requires Satisfying(offers, constraint) != {}
    ensures offers != []
  {
  }

  lemma NothingNewest(offers: seq<Offer>, constraint: Constraint)
    requires Satisfying(offers, constraint) == {}
    ensures Newest(offers, constraint).None?
  {
    forall o | o in offers ensures !Matches(constraint, o.version) {
      assert Matches(constraint, o.version) ==> o.version in Satisfying(offers, constraint);
    }
  }

  /** Offer `i` satisfies, and is strictly above every satisfying offer listed behind it. */
  ghost predicate Outlasts(offers: seq<Offer>, constraint: Constraint, i: nat) {
    && i < |offers| && Matches(constraint, offers[i].version)
    && forall j :: i < j < |offers| && Matches(constraint, offers[j].version) ==>
         DispatchCmp(offers[i].version, offers[j].version) == Greater
  }

  lemma {:induction false} NewestOutlasts(offers: seq<Offer>, constraint: Constraint) returns (i: nat)
    requires Newest(offers, constraint).Some?
    ensures Outlasts(offers, constraint, i) && offers[i].version == Newest(offers, constraint).value
  {
    hide DispatchCmp, Matches;
    var init, last := offers[..|offers| - 1], offers[|offers| - 1].version;
    if Newest(offers, constraint) == Some(last) && Matches(constraint, last) {
      i := |offers| - 1;
    } else {
      i := NewestOutlasts(init, constraint);
    }
  }

  /** A greatest satisfying offer that outlasts the list is the one taken. */
  lemma {:induction false} GreatestIsTaken(offers: seq<Offer>, constraint: Constraint, i: nat)
    requires Outlasts(offers, constraint, i) && IsGreatest(offers, constraint, offers[i].version)
    ensures Newest(offers, constraint) == Some(offers[i].version)
  {
    hide DispatchCmp, Satisfying, Matches;
    var init, last := offers[..|offers| - 1], offers[|offers| - 1].version;
    SatisfyingSnoc(offers, constraint);
    if i < |init| {
      assert init[i] == offers[i];
      GreatestIsTaken(init, constraint, i);
    } else if Newest(init, constraint).Some? {
      var k := NewestOutlasts(init, constraint);
      InSatisfying(init, constraint, k);
    }
  }

  lemma InSatisfying(offers: seq<Offer>, constraint: Constraint, i: nat)
    requires i < |offers| && Matches(constraint, offers[i].version)
    ensures offers[i].version in Satisfying(offers, constraint)
  {
  }

  /** Offer `i` is at least every satisfying one, and strictly above those listed behind it. */
  ghost predicate Champion(offers: seq<Offer>, constraint: Constraint, i: nat) {
    Outlasts(offers, constraint, i) && IsGreatest(offers, constraint, offers[i].version)
  }

  /** For any offers, traps or not: the version taken is a greatest one if and
      only if some offer is at least every satisfying one and strictly above
      those listed behind it. */
  lemma NewestExactly(offers: seq<Offer>, constraint: Constraint)
    requires Newest(offers, constraint).Some?
    ensures IsGreatest(offers, constraint, Newest(offers, constraint).value)
      <==> exists i: nat :: Champion(offers, constraint, i)
  {
    hide DispatchCmp, Satisfying, Newest, Outlasts, IsGreatest;
    var i := NewestOutlasts(offers, constraint);
    if IsGreatest(offers, constraint, Newest(offers, constraint).value) {
      assert Champion(offers, constraint, i);
    }
    if k: nat :| Champion(offers, constraint, k) {
      GreatestIsTaken(offers, constraint, k);
    }
  }

  /** Offers that hold a trap: of 2, 10 and 1a, all of which `>= 0` admits, the
      version taken is 1a, although 2 is above it. */
  lemma NewestMissesGreatest(offers: seq<Offer>)
    requires |offers| == 3 && offers[0].version == "2" && offers[1].version == "10" && offers[2].version == "1a"
    ensures AnyVersion() == ">= 0"
    ensures forall o :: o in offers ==> Matches(AnyVersion(), o.version)
    ensures Newest(offers, AnyVersion()) == Some("1a") && !IsGreatest(offers, AnyVersion(), "1a")
  {
    hide DispatchCmp, Trap, Matches, AnyVersion, AtLeast, Newest, IsGreatest;
    AnyIsAtLeast();
    MixedOrderCycles();
    NoneBelowZero();
    DispatchFlips("1a", "2");
    AtLeastMatches("0", "2");
    AtLeastMatches("0", "10");
    AtLeastMatches("0", "1a");
    ThreeOffers(offers, AnyVersion());
    InSatisfying(offers, AnyVersion(), 0);
    NotGreatest(offers, AnyVersion(), "2", "1a");
  }

  lemma NotGreatest(offers: seq<Offer>, constraint: Constraint, u: string, v: string)
    requires u in Satisfying(offers, constraint) && DispatchCmp(u, v) == Greater
    ensures !IsGreatest(offers, constraint, v)
  {
    hide DispatchCmp, Satisfying;
  }

  /** Three satisfying offers, none above the next. */
  lemma ThreeOffers(offers: seq<Offer>, constraint: Constraint)
    requires |offers| == 3 && forall o :: o in offers ==> Matches(constraint, o.version)
    requires DispatchCmp(offers[0].version, offers[1].version) != Greater
    requires DispatchCmp(offers[1].version, offers[2].version) != Greater
    ensures Newest(offers, constraint) == Some(offers[2].version)
  {
    hide DispatchCmp, Matches;
    assert offers[..2][..1] == offers[..1] && offers[..1][..0] == [];
    assert Newest([], constraint) == None;
    assert Newest(offers[..1], constraint) == Some(offers[0].version);
    assert Newest(offers[..2], constraint) == Some(offers[1].version);
  }

  lemma AnyIsAtLeast()
    ensures AnyVersion() == AtLeast("0") == ">= 0"
  {
  }

  lemma NoneBelowZero()
    ensures DispatchCmp("2", "0") != Less && DispatchCmp("10", "0") != Less && DispatchCmp("1a", "0") != Less
    ensures DispatchCmp("1", "0") == Greater
  {
    hide Split, Lex;
    assert "2" == DecText(2) && "0" == DecText(0) && "1" == DecText(1) && Digits(10) == Digits(1) + [0];
    assert "10" == DecText(10);
    ParsePrinted(0);
    ParsePrinted(1);
    ParsePrinted(2);
    ParsePrinted(10);
    assert !IsDigitChar("1a"[1]);
    assert Lex("1a", "0") == Greater by {
      LexFirst("1a", "0");
    }
    SplitWhole("0", IsDot);
    SplitWhole("1", IsDot);
    SplitWhole("2", IsDot);
    SplitWhole("10", IsDot);
    SplitWhole("1a", IsDot);
  }

  lemma LexFirst(a: string, b: string)
    requires a != "" && b != "" && a[0] > b[0]
    ensures Lex(a, b) == Greater
  {
  }

  // ---- the plan, over the registries themselves ----------------------------

  predicate Carries(w: World, name: string, i: int) {
    0 <= i < |w.registries| && name in w.registries[i]
  }

  /** Of the offers with the newest satisfying version, the first. */
  ghost predicate Taken(offers: seq<Offer>, constraint: Constraint, k: nat) {
    && k < |offers| && Newest(offers, constraint) == Some(offers[k].version)
    && forall j :: 0 <= j < k ==> offers[j].version != offers[k].version
  }

  /** What one registry's payload gives: its taken offer, when some offer satisfies and the taken one is published. */
  ghost predicate PayloadAnswer(p: RegistryPayload, name: string, constraint: Constraint, r: Result<Plan, Error>) {
    if NoneMatches(p.offers, constraint) then r == Err(NoSatisfyingVersion(name))
    else exists k: nat :: Taken(p.offers, constraint, k) && OfferAnswer(p.offers[k], name, p.kind, r)
  }

  predicate OfferAnswer(o: Offer, name: string, kind: Kind, r: Result<Plan, Error>) {
    if o.published then r == Ok(Plan(Id(name, o.version), kind, o.image, true))
    else r == Err(NotPublished(Id(name, o.version)))
  }

  /** The answer to an edge, by how many registries carry the name: none, two or more, or exactly one. */
  ghost predicate EdgeAnswer(w: World, name: string, constraint: Constraint, r: Result<Plan, Error>) {
    if forall i :: !Carries(w, name, i) then r == Err(NotCarried(name))
    else if exists i, k :: Carries(w, name, i) && Carries(w, name, k) && i != k then r == Err(AmbiguousRegistries(name))
    else exists i :: Carries(w, name, i) && PayloadAnswer(w.registries[i][name], name, constraint, r)
  }

  /** `ats` are registries that carry the name, in ascending order, and `found` is what they carry. */
  ghost predicate CarriedAt(regs: seq<Registry>, name: string, found: seq<RegistryPayload>, ats: seq<nat>) {
    && |ats| == |found|
    && (forall k :: 0 <= k < |ats| ==> ats[k] < |regs| && name in regs[ats[k]] && found[k] == regs[ats[k]][name])
    && (forall j, k :: 0 <= j < k < |ats| ==> ats[j] < ats[k])
  }

  /** Every registry that carries the name is among them. */
  ghost predicate AllCarriers(regs: seq<Registry>, name: string, ats: seq<nat>) {
    forall i :: 0 <= i < |regs| && name in regs[i] ==> i in ats
  }

  function OneLater(ats: seq<nat>): (r: seq<nat>)
    ensures |r| == |ats| && forall k :: 0 <= k < |ats| ==> r[k] == ats[k] + 1
  {
    seq(|ats|, k requires 0 <= k < |ats| => ats[k] + 1)
  }

  function WithFirst(regs: seq<Registry>, name: string, rest: seq<nat>): seq<nat>
    requires regs != []
  {
    (if name in regs[0] then [0] else []) + OneLater(rest)
  }

  lemma {:induction false} FoundAt(regs: seq<Registry>, name: string) returns (ats: seq<nat>)
    ensures CarriedAt(regs, name, Found(regs, name), ats) && AllCarriers(regs, name, ats)
  {
    hide CarriedAt, AllCarriers, WithFirst;
    if regs == [] {
      ats := [];
      NoCarriers(name);
    } else {
      var rest := FoundAt(regs[1..], name);
      ats := WithFirst(regs, name, rest);
      FirstCarries(regs, name, Found(regs[1..], name), rest);
      NoneMissed(regs, name, rest);
    }
  }

  lemma NoCarriers(name: string)
    ensures CarriedAt([], name, [], []) && AllCarriers([], name, [])
  {
  }

  lemma FirstCarries(regs: seq<Registry>, name: string, found: seq<RegistryPayload>, rest: seq<nat>)
    requires regs != [] && CarriedAt(regs[1..], name, found, rest)
    ensures CarriedAt(regs, name, (if name in regs[0] then [regs[0][name]] else []) + found, WithFirst(regs, name, rest))
  {
    forall k | 0 <= k < |rest| ensures regs[1..][rest[k]] == regs[rest[k] + 1] {
    }
  }

  lemma NoneMissed(regs: seq<Registry>, name: string, rest: seq<nat>)
    requires regs != [] && AllCarriers(regs[1..], name, rest)
    ensures AllCarriers(regs, name, WithFirst(regs, name, rest))
  {
    var ats := WithFirst(regs, name, rest);
    forall i | 0 <= i < |regs| && name in regs[i] ensures i in ats {
      if i > 0 {
        assert regs[1..][i - 1] == regs[i];
        var m :| 0 <= m < |rest| && rest[m] == i - 1;
        assert OneLater(rest)[m] == i;
      }
    }
  }

  /** How many registries carry a name, by index. */
  lemma FoundCounts(w: World, name: string)
    ensures |Found(w.registries, name)| == 0 <==> forall i :: !Carries(w, name, i)
    ensures |Found(w.registries, name)| > 1 <==> exists i, k :: Carries(w, name, i) && Carries(w, name, k) && i != k
    ensures |Found(w.registries, name)| == 1 ==>
      forall i :: Carries(w, name, i) ==> Found(w.registries, name) == [w.registries[i][name]]
  {
    var ats := FoundAt(w.registries, name);
    if |ats| > 0 {
      assert Carries(w, name, ats[0]);
    }
    if |ats| > 1 {
      assert Carries(w, name, ats[1]) && ats[0] != ats[1];
    }
    if |ats| == 1 {
      forall i | Carries(w, name, i) ensures i == ats[0] {
      }
    }
  }

  lemma {:induction false} OfferTaken(offers: seq<Offer>, version: string) returns (k: nat)
    requires exists x :: x in offers && x.version == version
    ensures k < |offers| && offers[k].version == version && OfferOf(offers, version) == offers[k]
    ensures forall j :: 0 <= j < k ==> offers[j].version != version
  {
    if offers[0].version == version {
      k := 0;
    } else {
      var i := OfferTaken(offers[1..], version);
      k := i + 1;
      forall j | 0 <= j < k ensures offers[j].version != version {
        assert j > 0 ==> offers[j] == offers[1..][j - 1];
      }
    }
  }

  /** The plan of an edge is exactly the answer of the registries: exactly one
      of them must carry the name, some offer of it must satisfy, and the one
      taken must be published; each refusal has its own cause. */
  lemma EdgePlanExactly(w: World, name: string, constraint: Constraint, r: Result<Plan, Error>)
    ensures EdgePlan(w, name, constraint) == r <==> EdgeAnswer(w, name, constraint, r)
  {
    hide PayloadAnswer, Newest, Matches;
    FoundCounts(w, name);
    var found := Found(w.registries, name);
    if |found| == 1 {
      var i :| Carries(w, name, i);
      assert found == [w.registries[i][name]];
      OnePayload(w, name, constraint, found[0], r);
      assert forall k :: Carries(w, name, k) ==> w.registries[k][name] == found[0];
    }
  }

  lemma OnePayload(w: World, name: string, constraint: Constraint, p: RegistryPayload, r: Result<Plan, Error>)
    requires Found(w.registries, name) == [p]
    ensures EdgePlan(w, name, constraint) == r <==> PayloadAnswer(p, name, constraint, r)
  {
    hide Newest, Matches, Found, NoneMatches;
    var v := Newest(p.offers, constraint);
    if v.Some? {
      var k := OfferTaken(p.offers, v.value);
      assert Taken(p.offers, constraint, k);
    }
  }

  // ---- the store -----------------------------------------------------------

  /** An edge the store satisfies with some installed version. */
  ghost predicate EdgeOk(images: map<Id, Image>, req: Requirement) {
    req.Language? || exists v :: Id(req.name, v) in images && Matches(req.constraint, v)
  }

  function Edges(image: Image): seq<Requirement> {
    if image.manifest.Manifest? then image.manifest.requirements else []
  }

  /** Every edge of an installed payload is satisfied. */
  ghost predicate ClosedAt(images: map<Id, Image>, id: Id)
    requires id in images
  {
    forall req :: req in Edges(images[id]) ==> EdgeOk(images, req)
  }

  ghost predicate Closed(images: map<Id, Image>) {
    forall id :: id in images ==> ClosedAt(images, id)
  }

  /** A closed store: every toolkit or data requirement in the manifest of an
      installed payload names a payload that is installed in a version it admits. */
  lemma ClosedMeans(images: map<Id, Image>)
    ensures Closed(images) <==> forall id, req ::
      (id in images && images[id].manifest.Manifest? && req in images[id].manifest.requirements && (req.Toolkit? || req.Data?)
       ==> exists v :: Id(req.name, v) in images && Matches(req.constraint, v))
  {
    hide Matches;
    if Closed(images) {
      forall id, req | id in images && images[id].manifest.Manifest? && req in images[id].manifest.requirements
        && (req.Toolkit? || req.Data?)
        ensures exists v :: Id(req.name, v) in images && Matches(req.constraint, v)
      {
        assert ClosedAt(images, id) && req in Edges(images[id]);
        assert EdgeOk(images, req);
      }
    }
  }

  /** More is installed, and nothing installed before has changed. */
  ghost predicate Grows(before: map<Id, Image>, after: map<Id, Image>) {
    forall id :: id in before ==> id in after && after[id] == before[id]
  }

  /** Nothing is uninstalled. */
  ghost predicate KeepsIds(before: map<Id, Image>, after: map<Id, Image>) {
    forall id :: id in before ==> id in after
  }

  lemma EdgesStaySatisfied(before: map<Id, Image>, after: map<Id, Image>, req: Requirement)
    requires KeepsIds(before, after) && EdgeOk(before, req)
    ensures EdgeOk(after, req)
  {
    if !req.Language? {
      var v :| Id(req.name, v) in before && Matches(req.constraint, v);
      assert Id(req.name, v) in after;
    }
  }

  lemma ClosedStays(before: map<Id, Image>, after: map<Id, Image>, id: Id)
    requires KeepsIds(before, after) && id in before && id in after && after[id] == before[id] && ClosedAt(before, id)
    ensures ClosedAt(after, id)
  {
    forall req | req in Edges(after[id]) ensures EdgeOk(after, req) {
      EdgesStaySatisfied(before, after, req);
    }
  }

  /** `id` can be reached from `reqs` in at most `n` edge plans. */
  ghost predicate ReachedIn(w: World, reqs: seq<Requirement>, id: Id, n: nat)
    decreases n, 1
  {
    n > 0 && exists req :: req in reqs && ReachedBy(w, req, id, n)
  }

  ghost predicate ReachedBy(w: World, req: Requirement, id: Id, n: nat)
    requires n > 0
    decreases n, 0
  {
    !req.Language? && var p := EdgePlan(w, req.name, req.constraint);
    p.Ok? && (p.value.id == id || ReachedIn(w, Edges(p.value.image), id, n - 1))
  }

  ghost predicate Reachable(w: World, reqs: seq<Requirement>, id: Id) {
    exists n: nat :: ReachedIn(w, reqs, id, n)
  }

  lemma ReachableHere(w: World, reqs: seq<Requirement>, req: Requirement)
    requires req in reqs && !req.Language? && EdgePlan(w, req.name, req.constraint).Ok?
    ensures Reachable(w, reqs, EdgePlan(w, req.name, req.constraint).value.id)
  {
    var id := EdgePlan(w, req.name, req.constraint).value.id;
    assert ReachedBy(w, req, id, 1);
    assert ReachedIn(w, reqs, id, 1);
  }

  lemma ReachableBelow(w: World, reqs: seq<Requirement>, req: Requirement, id: Id)
    requires req in reqs && !req.Language? && EdgePlan(w, req.name, req.constraint).Ok?
    requires Reachable(w, Edges(EdgePlan(w, req.name, req.constraint).value.image), id)
    ensures Reachable(w, reqs, id)
  {
    var n: nat :| ReachedIn(w, Edges(EdgePlan(w, req.name, req.constraint).value.image), id, n);
    assert ReachedBy(w, req, id, n + 1);
    assert ReachedIn(w, reqs, id, n + 1);
  }

  // ---- what an install does to the store -----------------------------------

  /** A walk over `edges` took the store from `before` to `after`: it removed
      and replaced nothing, and added only what the edges lead to. */
  ghost predicate Walked(w: World, before: map<Id, Image>, after: map<Id, Image>, edges: seq<Requirement>) {
    Grows(before, after) && forall id :: id in after && id !in before ==> Reachable(w, edges, id)
  }

  /** Everything that was added is closed. */
  ghost predicate NewClosed(before: map<Id, Image>, after: map<Id, Image>) {
    forall id :: id in after && id !in before ==> ClosedAt(after, id)
  }

  ghost predicate AllOk(images: map<Id, Image>, edges: seq<Requirement>) {
    forall req :: req in edges ==> EdgeOk(images, req)
  }

  /** An install of `target` took the store from `before` to `after`: nothing
      was uninstalled, only the target can have been replaced, and all else
      that was added is reachable from the target's edges. */
  ghost predicate Installed(w: World, before: map<Id, Image>, after: map<Id, Image>, target: Id) {
    && KeepsIds(before, after)
    && (forall id :: id in before && id != target ==> after[id] == before[id])
    && (forall id :: id in after && id !in before && id != target ==>
          target in after && Reachable(w, Edges(after[target]), id))
  }

  /** The target and everything else that was added is closed. */
  ghost predicate TargetClosed(before: map<Id, Image>, after: map<Id, Image>, target: Id) {
    target in after && forall id :: id in after && (id !in before || id == target) ==> ClosedAt(after, id)
  }

  lemma TailComposes(w: World, before: map<Id, Image>, placed: map<Id, Image>, after: map<Id, Image>, target: Id, ok: bool)
    requires target in placed && (placed == before || placed == before[target := placed[target]])
    requires Walked(w, placed, after, Edges(placed[target]))
    requires ok ==> NewClosed(placed, after) && AllOk(after, Edges(placed[target]))
    ensures Installed(w, before, after, target)
    ensures ok ==> TargetClosed(before, after, target)
  {
    hide Reachable, EdgeOk;
    assert after[target] == placed[target];
    if ok {
      forall id | id in after && (id !in before || id == target) ensures ClosedAt(after, id) {
        if id != target {
          assert id !in placed;
        }
      }
    }
  }

  /** One edge of a walk: an install of its plan extends the walk. */
  lemma WalkExtends(w: World, before: map<Id, Image>, mid: map<Id, Image>, after: map<Id, Image>,
                    edges: seq<Requirement>, req: Requirement, ok: bool)
    requires req in edges && !req.Language? && !EdgeOk(mid, req) && EdgePlan(w, req.name, req.constraint).Ok?
    requires Walked(w, before, mid, edges) && NewClosed(before, mid)
    requires var plan := EdgePlan(w, req.name, req.constraint).value;
      && Installed(w, mid, after, plan.id) && (plan.id in after ==> after[plan.id] == plan.image)
      && (ok ==> TargetClosed(mid, after, plan.id))
    ensures Walked(w, before, after, edges)
    ensures ok ==> NewClosed(before, after) && EdgeOk(after, req)
  {
    hide EdgePlan, Reachable, ClosedAt;
    var plan := EdgePlan(w, req.name, req.constraint).value;
    assert plan.id == Id(req.name, plan.id.version) && Matches(req.constraint, plan.id.version);
    assert plan.id !in mid;
    ReachableHere(w, edges, req);
    forall id | id in after && id !in before ensures Reachable(w, edges, id) {
      if id !in mid && id != plan.id {
        ReachableBelow(w, edges, req, id);
      }
    }
    if ok {
      forall id | id in after && id !in before ensures ClosedAt(after, id) {
        if id in mid {
          ClosedStays(mid, after, id);
        }
      }
    }
  }

  /** A successful install leaves the store closed if it was closed before, but
      for the target: the target is closed by the install itself. */
  lemma ClosedIsKept(w: World, before: map<Id, Image>, after: map<Id, Image>, target: Id)
    requires forall id :: id in before && id != target ==> ClosedAt(before, id)
    requires Installed(w, before, after, target) && TargetClosed(before, after, target)
    ensures Closed(after)
  {
    hide Reachable;
    forall id | id in after ensures ClosedAt(after, id) {
      if id in before && id != target {
        ClosedStays(before, after, id);
      }
    }
  }

  /** The mirror's edges: those of the embedded manifest, or none when one is synthesized. */
  function MirrorEdges(plan: Plan, image: Image): (r: Result<seq<Requirement>, Error>)
    ensures r.Ok? ==> r.value == Edges(image)
  {
    match image.manifest
    case Malformed => Err(ManifestMalformed(plan.id))
    case Manifest(id, requirements) =>
      if id != plan.id && plan.strict then Err(IdentityMismatch(plan.id)) else Ok(requirements)
    case NoManifest =>
      if plan.kind.OtherPayload? then Err(CannotSynthesize(plan.id)) else Ok([])
  }

  /** Which images a walk goes on from: a malformed manifest is refused, one
      under another name or version when the plan insists on its identity, and
      an image without a manifest when the payload is neither an app nor data. */
  lemma MirrorExactly(plan: Plan, image: Image, e: Error)
    ensures MirrorEdges(plan, image) == Err(e) <==>
      || (image.manifest == Malformed && e == ManifestMalformed(plan.id))
      || (image.manifest.Manifest? && plan.strict && image.manifest.id != plan.id && e == IdentityMismatch(plan.id))
      || (image.manifest == NoManifest && plan.kind == OtherPayload && e == CannotSynthesize(plan.id))
  {
  }

  // ---- the install without faults ------------------------------------------

  /** The store and the answer an install ends with. */
  datatype Outcome = Outcome(images: map<Id, Image>, anchored: set<Id>, result: Result<(), Error>)

  /** What an install does when no step that touches the outside world fails. */
  ghost function InstallAll(w: World, images: map<Id, Image>, anchored: set<Id>, plan: Plan): (o: Outcome)
    ensures images.Keys <= o.images.Keys
    decreases |Catalog(w) - images.Keys - {plan.id}|, 1, 0
  {
    var hit := plan.id in images && plan.id in anchored;
    var placed := if hit then images else images[plan.id := plan.image];
    var marked := if hit then anchored else anchored + {plan.id};
    var edges := MirrorEdges(plan, placed[plan.id]);
    if edges.Err? then Outcome(placed, marked, Err(edges.error))
    else
      LessLacking(Catalog(w), images.Keys, placed.Keys, plan.id);
      WalkAll(w, placed, marked, edges.value)
  }

  ghost function WalkAll(w: World, images: map<Id, Image>, anchored: set<Id>, edges: seq<Requirement>): (o: Outcome)
    ensures images.Keys <= o.images.Keys
    decreases |Catalog(w) - images.Keys|, 0, |edges|
  {
    hide Catalog, EdgeOk, EdgePlan;
    if edges == [] then Outcome(images, anchored, Ok(()))
    else if edges[0].Language? || EdgeOk(images, edges[0]) then WalkAll(w, images, anchored, edges[1..])
    else
      var plan := EdgePlan(w, edges[0].name, edges[0].constraint);
      if plan.Err? then Outcome(images, anchored, Err(plan.error))
      else
        EdgeLessens(w, images, edges[0]);
        var o := InstallAll(w, images, anchored, plan.value);
        SubsetSize(Catalog(w) - o.images.Keys, Catalog(w) - images.Keys);
        if o.result.Err? then o else WalkAll(w, o.images, o.anchored, edges[1..])
  }

  lemma EdgeLessens(w: World, images: map<Id, Image>, req: Requirement)
    requires !req.Language? && !EdgeOk(images, req) && EdgePlan(w, req.name, req.constraint).Ok?
    ensures |Catalog(w) - images.Keys - {EdgePlan(w, req.name, req.constraint).value.id}| < |Catalog(w) - images.Keys|
  {
    hide Catalog, EdgeOk, EdgePlan;
    PlanInCatalog(w, req.name, req.constraint);
    PlanIsNew(w, images, req);
    StrictlyLess(Catalog(w), images.Keys, images.Keys, EdgePlan(w, req.name, req.constraint).value.id);
  }

  /** The walk over the edges from `i` on, by what the edge at `i` asks for. */
  lemma WalkStep(w: World, images: map<Id, Image>, anchored: set<Id>, edges: seq<Requirement>, i: nat)
    requires i < |edges|
    ensures var req, all := edges[i], WalkAll(w, images, anchored, edges[i..]);
      if req.Language? || EdgeOk(images, req) then all == WalkAll(w, images, anchored, edges[i + 1..])
      else
        var plan := EdgePlan(w, req.name, req.constraint);
        if plan.Err? then all == Outcome(images, anchored, Err(plan.error))
        else
          var o := InstallAll(w, images, anchored, plan.value);
          if o.result.Err? then all == o else all == WalkAll(w, o.images, o.anchored, edges[i + 1..])
  {
    hide Catalog, EdgeOk, EdgePlan, InstallAll;
    assert edges[i..][1..] == edges[i + 1..];
  }

  /** Any step that touches the network or the file system may fail. */
  method MayFail() returns (r: Result<(), Error>)
    ensures r.Err? ==> r.error == Faulted
  {
    var failed: bool := *;
    r := if failed then Err(Faulted) else Ok(());
  }

  /** The payload cache: the images, and those among them with a trust anchor. */
  class Store {
    var images: map<Id, Image>
    var anchored: set<Id>

    constructor ()
      ensures images == map[] && anchored == {}
    {
      images := map[];
      anchored := {};
    }

    /** Fetch, verify and place: the image is renamed into place before its
        anchor is written, so a failure can leave it without one. */
    method Place(plan: Plan) returns (r: Result<(), Error>)
      modifies this
      ensures images == old(images) || images == old(images)[plan.id := plan.image]
      ensures old(anchored) <= anchored <= old(anchored) + {plan.id}
      ensures r.Ok? ==> images == old(images)[plan.id := plan.image] && anchored == old(anchored) + {plan.id}
      ensures r.Err? ==> r.error == Faulted
    {
      var fetched :- MayFail();
      var verified :- MayFail();
      images := images[plan.id := plan.image];
      var marked :- MayFail();
      anchored := anchored + {plan.id};
      r := MayFail();
    }

    /** The shared tail of every install: cache lookup, fetch and place on a
        miss, mirror, shims, then the dependency walk. */
    method FinishInstall(w: World, plan: Plan) returns (r: Result<(), Error>)
      modifies this
      ensures Installed(w, old(images), images, plan.id) && old(anchored) <= anchored
      ensures r.Ok? ==> plan.id in anchored && TargetClosed(old(images), images, plan.id)
      ensures plan.id in old(images) && plan.id in old(anchored) && AllOk(old(images), Edges(old(images)[plan.id]))
        ==> images == old(images)
      ensures plan.id in images ==>
        images[plan.id] == plan.image || (plan.id in old(images) && images[plan.id] == old(images)[plan.id])
      ensures r.Ok? && plan.id in old(images) && plan.id in old(anchored) ==> images[plan.id] == old(images)[plan.id]
      ensures r.Ok? && !(plan.id in old(images) && plan.id in old(anchored)) ==> images[plan.id] == plan.image
      ensures r == Err(Faulted) || Outcome(images, anchored, r) == InstallAll(w, old(images), old(anchored), plan)
      decreases |Catalog(w) - images.Keys - {plan.id}|, 1
    {
      hide Catalog, Reachable, ClosedAt, EdgeOk, MirrorEdges, Edges, Walked, NewClosed, AllOk, Installed, TargetClosed,
        Satisfied, KeepsIds, WalkAll;
      ghost var before := images;
      NothingDone(w, before, plan.id);
      if !(plan.id in images && plan.id in anchored) {
        var placed := Place(plan);
        if placed.Err? {
          PlacedOnly(w, before, images, plan.id);
          return placed;
        }
        PlacedOnly(w, before, images, plan.id);
      }
      var edges :- MirrorEdges(plan, images[plan.id]);
      var saved :- MayFail();
      var shims :- MayFail();
      ghost var placed := images;
      LessLacking(Catalog(w), before.Keys, placed.Keys, plan.id);
      r := InstallClosure(w, edges);
      TailComposes(w, before, placed, images, plan.id, r.Ok?);
      WalkKeeps(w, placed, images, edges, plan.id);
    }

    /** The walk over a mirror's edges: an edge some installed version
        satisfies is passed over, any other is planned and installed. */
    method InstallClosure(w: World, edges: seq<Requirement>) returns (r: Result<(), Error>)
      modifies this
      ensures Walked(w, old(images), images, edges) && old(anchored) <= anchored
      ensures r.Ok? ==> NewClosed(old(images), images) && AllOk(images, edges)
      ensures AllOk(old(images), edges) ==> images == old(images)
      ensures r == Err(Faulted) || Outcome(images, anchored, r) == WalkAll(w, old(images), old(anchored), edges)
      decreases |Catalog(w) - images.Keys|, 0
    {
      hide Catalog, Reachable, ClosedAt, EdgeOk, EdgePlan, Walked, NewClosed, AllOk, Installed, TargetClosed,
        Satisfied, KeepsIds, WalkAll, InstallAll;
      ghost var before := images;
      NothingWalked(w, before, edges);
      assert edges[0..] == edges;
      for i := 0 to |edges|
        invariant Walked(w, before, images, edges) && NewClosed(before, images) && old(anchored) <= anchored
        invariant AllOk(images, edges[..i])
        invariant AllOk(before, edges) ==> images == before
        invariant WalkAll(w, images, anchored, edges[i..]) == WalkAll(w, before, old(anchored), edges)
      {
        var req := edges[i];
        WalkStep(w, images, anchored, edges, i);
        ghost var mid := images;
        if req.Language? {
          EdgeSeen(before, mid, mid, edges, i);
          continue;
        }
        var listed :- MayFail();
        if Satisfied(images, req) {
          EdgeSeen(before, mid, mid, edges, i);
          continue;
        }
        UnsatisfiedSeen(mid, edges, req);
        var plan :- EdgePlan(w, req.name, req.constraint);
        PlanDecreases(w, before, mid, edges, req);
        r := FinishInstall(w, plan);
        EdgeWalked(w, before, mid, images, edges, i, r.Ok?);
        if r.Err? {
          return;
        }
      }
      assert edges[..|edges|] == edges;
      WalkEnds(w, images, anchored, edges);
      return Ok(());
    }
  }

  lemma WalkEnds(w: World, images: map<Id, Image>, anchored: set<Id>, edges: seq<Requirement>)
    ensures WalkAll(w, images, anchored, edges[|edges|..]) == Outcome(images, anchored, Ok(()))
  {
    assert edges[|edges|..] == [];
  }

  // ---- which stores an install repairs -------------------------------------

  /** After any successful install the store is closed if and only if every
      payload that was there before, other than the target, is closed now:
      an install repairs what it adds and its target, and nothing else. */
  lemma RepairExactly(w: World, before: map<Id, Image>, after: map<Id, Image>, target: Id)
    requires Installed(w, before, after, target) && TargetClosed(before, after, target)
    ensures Closed(after) <==> forall id :: id in before && id != target ==> ClosedAt(after, id)
  {
    hide ClosedAt, Reachable;
    assert forall id :: id in before ==> id in after;
  }

  /** And for the store to be closed, every edge that was open before, of any
      other payload, must be met by the target or by something the target's
      edges lead to. */
  lemma OpenEdgesAreMet(w: World, before: map<Id, Image>, after: map<Id, Image>, target: Id, id: Id, req: Requirement)
      returns (met: Id)
    requires Installed(w, before, after, target) && Closed(after)
    requires id in before && id != target && req in Edges(before[id]) && !EdgeOk(before, req)
    ensures !req.Language? && met.name == req.name && Matches(req.constraint, met.version)
    ensures met in after && met !in before
    ensures met == target || (target in after && Reachable(w, Edges(after[target]), met))
  {
    hide Reachable, Matches;
    assert ClosedAt(after, id) && EdgeOk(after, req);
    var v :| Id(req.name, v) in after && Matches(req.constraint, v);
    met := Id(req.name, v);
    MetIsOk(before, req, v);
  }

  lemma MetIsOk(images: map<Id, Image>, req: Requirement, v: string)
    requires !req.Language? && Matches(req.constraint, v)
    ensures Id(req.name, v) in images ==> EdgeOk(images, req)
  {
    hide Matches;
  }

  lemma {:induction false} SatisfiedWalk(w: World, images: map<Id, Image>, anchored: set<Id>, edges: seq<Requirement>)
    requires AllOk(images, edges)
    ensures WalkAll(w, images, anchored, edges) == Outcome(images, anchored, Ok(()))
    decreases |edges|
  {
    hide EdgeOk, Catalog, EdgePlan;
    if edges != [] {
      assert edges[0] in edges;
      SatisfiedWalk(w, images, anchored, edges[1..]);
    }
  }

  /** A cache hit whose edges are satisfied changes nothing, so the store is
      closed after it if and only if it was closed before. */
  lemma HitRepairsNothing(w: World, images: map<Id, Image>, anchored: set<Id>, plan: Plan)
    requires plan.id in images && plan.id in anchored
    requires MirrorEdges(plan, images[plan.id]).Ok? && AllOk(images, Edges(images[plan.id]))
    ensures var o := InstallAll(w, images, anchored, plan);
      o == Outcome(images, anchored, Ok(())) && (Closed(o.images) <==> Closed(images))
  {
    hide WalkAll, Catalog, Closed, AllOk, MirrorEdges, Edges;
    SatisfiedWalk(w, images, anchored, Edges(images[plan.id]));
  }

  // ---- concrete walks ------------------------------------------------------

  function Universal(version: string, image: Image): Offer { Offer(version, image, true) }

  function Payload(name: string, version: string, requirements: seq<Requirement>): Image {
    Image(Manifest(Id(name, version), requirements))
  }

  /** The plan of an edge where one registry carries the name and one offer is taken. */
  lemma OnePlan(reg: Registry, name: string, constraint: Constraint, o: Offer)
    requires name in reg && Newest(reg[name].offers, constraint) == Some(o.version) && o.published
    requires OfferOf(reg[name].offers, o.version) == o
    ensures EdgePlan(World([reg]), name, constraint) == Ok(Plan(Id(name, o.version), reg[name].kind, o.image, true))
  {
    hide Newest, OfferOf;
    var regs := [reg];
    assert Found(regs[1..], name) == [] && Found(regs, name) == [reg[name]];
  }

  lemma NoPlan(reg: Registry, name: string, constraint: Constraint)
    requires name !in reg
    ensures EdgePlan(World([reg]), name, constraint) == Err(NotCarried(name))
  {
    hide Newest, OfferOf;
    var regs := [reg];
    assert Found(regs[1..], name) == [] && Found(regs, name) == [];
  }

  lemma OnlyOffer(o: Offer, constraint: Constraint)
    requires Matches(constraint, o.version)
    ensures Newest([o], constraint) == Some(o.version) && OfferOf([o], o.version) == o
  {
    hide Matches;
    assert [o][..0] == [] && Newest([], constraint) == None;
  }

  lemma OneIsAdmitted()
    ensures Matches(AnyVersion(), "1")
  {
    hide Matches, AnyVersion, AtLeast, DispatchCmp;
    AnyIsAtLeast();
    NoneBelowZero();
    AtLeastMatches("0", "1");
  }

  /** A registry that carries `a`, which requires `b >= 0`, which requires `c >= 0`, and not `c`. */
  function GapRegistry(): Registry {
    map["a" := RegistryPayload(AppPayload, [Universal("1", GapImage("a", "b"))]),
        "b" := RegistryPayload(DataPayload, [Universal("1", GapImage("b", "c"))])]
  }

  function GapImage(name: string, needs: string): Image {
    Payload(name, "1", [Data(needs, AnyVersion())])
  }

  lemma GapPlans()
    ensures EdgePlan(World([GapRegistry()]), "a", AnyVersion()) == Ok(Plan(Id("a", "1"), AppPayload, GapImage("a", "b"), true))
    ensures EdgePlan(World([GapRegistry()]), "b", AnyVersion()) == Ok(Plan(Id("b", "1"), DataPayload, GapImage("b", "c"), true))
    ensures EdgePlan(World([GapRegistry()]), "c", AnyVersion()) == Err(NotCarried("c"))
  {
    hide Matches, AnyVersion, EdgePlan, Newest, OfferOf;
    var reg, a, b := GapRegistry(), Universal("1", GapImage("a", "b")), Universal("1", GapImage("b", "c"));
    OneIsAdmitted();
    OnlyOffer(a, AnyVersion());
    OnlyOffer(b, AnyVersion());
    OnePlan(reg, "a", AnyVersion(), a);
    OnePlan(reg, "b", AnyVersion(), b);
    NoPlan(reg, "c", AnyVersion());
  }

  /** Why a closed store has to be assumed. Installing `a` on an empty store
      places and anchors `a` and `b` and is aborted at `c`. Installing `a`
      again is a hit whose one edge is satisfied: it succeeds, changes
      nothing, and leaves a store that is not closed. */
  lemma AbortedWalkIsNotRepaired() returns (w: World, plan: Plan, first: Outcome)
    ensures w == World([GapRegistry()]) && AnyVersion() == ">= 0"
    ensures EdgePlan(w, "a", AnyVersion()) == Ok(plan) && first == InstallAll(w, map[], {}, plan)
    ensures first.result == Err(NotCarried("c"))
    ensures first.images.Keys == first.anchored == {Id("a", "1"), Id("b", "1")}
    ensures InstallAll(w, first.images, first.anchored, plan) == Outcome(first.images, first.anchored, Ok(()))
    ensures !Closed(first.images)
  {
    hide EdgePlan, Catalog, InstallAll, WalkAll, Closed, Matches, AnyVersion;
    var any := AnyVersion();
    w := World([GapRegistry()]);
    AnyIsAtLeast();
    GapPlans();
    OneIsAdmitted();
    plan := EdgePlan(w, "a", any).value;
    var a, b := Id("a", "1"), Id("b", "1");
    var one := map[a := GapImage("a", "b")];
    var two := one[b := GapImage("b", "c")];
    first := Outcome(two, {a, b}, Err(NotCarried("c")));
    Unsatisfied(two, "c", any);
    Unsatisfied(one, "b", any);
    AbortAt(w, two, {a, b}, Data("c", any));
    MissedThen(w, one, {a}, EdgePlan(w, "b", any).value, two, {a, b}, [Data("c", any)]);
    OneEdge(w, one, {a}, Data("b", any), first);
    MissedThen(w, map[], {}, plan, one, {a}, [Data("b", any)]);
    HasVersion(two, "b", "1", any);
    HitRepairsNothing(w, two, {a, b}, plan);
    GapIsOpen(two, b, Data("c", any));
  }

  lemma Unsatisfied(images: map<Id, Image>, name: string, constraint: Constraint)
    requires forall id :: id in images && id.name == name ==> !Matches(constraint, id.version)
    ensures !EdgeOk(images, Data(name, constraint))
  {
    hide Matches;
  }

  lemma HasVersion(images: map<Id, Image>, name: string, version: string, constraint: Constraint)
    requires Id(name, version) in images && Matches(constraint, version)
    ensures EdgeOk(images, Data(name, constraint))
  {
    hide Matches;
  }

  lemma AbortAt(w: World, images: map<Id, Image>, anchored: set<Id>, req: Requirement)
    requires !req.Language? && !EdgeOk(images, req) && EdgePlan(w, req.name, req.constraint).Err?
    ensures WalkAll(w, images, anchored, [req]) == Outcome(images, anchored, Err(EdgePlan(w, req.name, req.constraint).error))
  {
    hide Catalog, EdgeOk, EdgePlan, InstallAll;
  }

  /** An unsatisfied edge at the head of a walk: its plan, and then the rest if that went well. */
  lemma EdgeThen(w: World, images: map<Id, Image>, anchored: set<Id>, req: Requirement, rest: seq<Requirement>, o: Outcome)
    requires !req.Language? && !EdgeOk(images, req) && EdgePlan(w, req.name, req.constraint).Ok?
    requires o == InstallAll(w, images, anchored, EdgePlan(w, req.name, req.constraint).value)
    ensures WalkAll(w, images, anchored, [req] + rest) ==
      if o.result.Err? then o else WalkAll(w, o.images, o.anchored, rest)
  {
    hide Catalog, EdgeOk, EdgePlan, InstallAll;
    assert ([req] + rest)[1..] == rest;
  }

  lemma OneEdge(w: World, images: map<Id, Image>, anchored: set<Id>, req: Requirement, o: Outcome)
    requires !req.Language? && !EdgeOk(images, req) && EdgePlan(w, req.name, req.constraint).Ok?
    requires o == InstallAll(w, images, anchored, EdgePlan(w, req.name, req.constraint).value)
    ensures WalkAll(w, images, anchored, [req]) == o
  {
    hide Catalog, EdgeOk, EdgePlan, InstallAll, WalkAll;
    assert [req] + [] == [req];
    EdgeThen(w, images, anchored, req, [], o);
    NoEdges(w, o.images, o.anchored);
    assert o.result.Ok? ==> o.result.value == ();
  }

  lemma NoEdges(w: World, images: map<Id, Image>, anchored: set<Id>)
    ensures WalkAll(w, images, anchored, []) == Outcome(images, anchored, Ok(()))
  {
  }

  /** A miss places and anchors its image, and goes on with its edges. */
  lemma MissedThen(w: World, images: map<Id, Image>, anchored: set<Id>, plan: Plan,
                   placed: map<Id, Image>, marked: set<Id>, edges: seq<Requirement>)
    requires plan.id !in images && placed == images[plan.id := plan.image] && marked == anchored + {plan.id}
    requires plan.image == Image(Manifest(plan.id, edges))
    ensures InstallAll(w, images, anchored, plan) == WalkAll(w, placed, marked, edges)
  {
    hide Catalog, WalkAll;
  }

  lemma GapIsOpen(images: map<Id, Image>, id: Id, req: Requirement)
    requires id in images && Edges(images[id]) == [req] && !EdgeOk(images, req)
    ensures !Closed(images)
  {
    hide EdgeOk;
    assert req in Edges(images[id]);
    assert !ClosedAt(images, id);
  }

  /** A registry whose `a` requires `b <= 1` and `b >= 2`. */
  function PairRegistry(): Registry {
    AtLeastIs("1");
    AtLeastIs("2");
    map["a" := RegistryPayload(AppPayload, [Universal("1", Payload("a", "1", PairEdges()))]),
        "b" := RegistryPayload(DataPayload, [Universal("1", Payload("b", "1", [])), Universal("2", Payload("b", "2", []))])]
  }

  function PairEdges(): seq<Requirement> {
    AtLeastIs("1");
    AtLeastIs("2");
    [Data("b", NotAbove("1")), Data("b", AtLeast("2"))]
  }

  lemma PairMatches()
    ensures Valid(NotAbove("1")) && Valid(AtLeast("2"))
    ensures Matches(NotAbove("1"), "1") && !Matches(NotAbove("1"), "2")
    ensures !Matches(AtLeast("2"), "1") && Matches(AtLeast("2"), "2")
  {
    hide Matches, AtLeast, NotAbove, DispatchCmp;
    AtLeastMatches("1", "1");
    AtLeastMatches("1", "2");
    AtLeastMatches("2", "1");
    AtLeastMatches("2", "2");
    DispatchFlips("1", "1");
    DispatchFlips("2", "2");
    DispatchFlips("1", "2");
    OneBelowTwo();
  }

  lemma OneBelowTwo()
    ensures DispatchCmp("1", "2") == Less
  {
    hide Split;
    assert "1" == DecText(1) && "2" == DecText(2);
    ParsePrinted(1);
    ParsePrinted(2);
    SplitWhole("1", IsDot);
    SplitWhole("2", IsDot);
  }

  lemma PairPlans()
    ensures Valid(NotAbove("1")) && Valid(AtLeast("2"))
    ensures var w, b1, b2 := World([PairRegistry()]), Payload("b", "1", []), Payload("b", "2", []);
      && EdgePlan(w, "a", AnyVersion()) == Ok(Plan(Id("a", "1"), AppPayload, Payload("a", "1", PairEdges()), true))
      && EdgePlan(w, "b", NotAbove("1")) == Ok(Plan(Id("b", "1"), DataPayload, b1, true))
      && EdgePlan(w, "b", AtLeast("2")) == Ok(Plan(Id("b", "2"), DataPayload, b2, true))
  {
    hide Matches, AnyVersion, EdgePlan, AtLeast, NotAbove, PairEdges;
    var reg := PairRegistry();
    var a, b1, b2 := Universal("1", Payload("a", "1", PairEdges())), Universal("1", Payload("b", "1", [])),
      Universal("2", Payload("b", "2", []));
    PairMatches();
    OneIsAdmitted();
    OnlyOffer(a, AnyVersion());
    OnePlan(reg, "a", AnyVersion(), a);
    TwoOffers(b1, b2, NotAbove("1"));
    TwoOffers(b1, b2, AtLeast("2"));
    OnePlan(reg, "b", NotAbove("1"), b1);
    OnePlan(reg, "b", AtLeast("2"), b2);
  }

  /** Of two offers of which one satisfies, that one is taken. */
  lemma TwoOffers(o: Offer, p: Offer, constraint: Constraint)
    requires Matches(constraint, o.version) != Matches(constraint, p.version) && o.version != p.version
    ensures var taken := if Matches(constraint, o.version) then o else p;
      Newest([o, p], constraint) == Some(taken.version) && OfferOf([o, p], taken.version) == taken
  {
    hide Matches, DispatchCmp;
    assert [o, p][..1] == [o] && [o][..0] == [] && Newest([], constraint) == None && [o, p][1..] == [p];
    assert Newest([o], constraint) == if Matches(constraint, o.version) then Some(o.version) else None;
  }

  /** One walk can install two versions of one name: the check is per constraint. */
  lemma TwoVersionsInOneWalk() returns (w: World, plan: Plan, o: Outcome)
    ensures w == World([PairRegistry()]) && EdgePlan(w, "a", AnyVersion()) == Ok(plan)
    ensures o == InstallAll(w, map[], {}, plan) && o.result.Ok?
    ensures o.images.Keys == {Id("a", "1"), Id("b", "1"), Id("b", "2")}
  {
    hide EdgePlan, Catalog, InstallAll, WalkAll, Matches, AnyVersion, AtLeast, NotAbove, PairRegistry;
    w := World([PairRegistry()]);
    PairPlans();
    PairMatches();
    plan := EdgePlan(w, "a", AnyVersion()).value;
    var low: Constraint, high: Constraint := NotAbove("1"), AtLeast("2");
    var a, b1, b2 := Id("a", "1"), Id("b", "1"), Id("b", "2");
    var one := map[a := plan.image];
    var two := one[b1 := Payload("b", "1", [])];
    var three := two[b2 := Payload("b", "2", [])];
    var first, second := Outcome(two, {a, b1}, Ok(())), Outcome(three, {a, b1, b2}, Ok(()));
    assert PairEdges() == [Data("b", low)] + [Data("b", high)];
    Unsatisfied(one, "b", low);
    Unsatisfied(two, "b", high);
    NoEdges(w, two, {a, b1});
    NoEdges(w, three, {a, b1, b2});
    MissedThen(w, one, {a}, EdgePlan(w, "b", low).value, two, {a, b1}, []);
    MissedThen(w, two, {a, b1}, EdgePlan(w, "b", high).value, three, {a, b1, b2}, []);
    EdgeThen(w, one, {a}, Data("b", low), [Data("b", high)], first);
    OneEdge(w, two, {a, b1}, Data("b", high), second);
    MissedThen(w, map[], {}, plan, one, {a}, PairEdges());
    o := second;
  }

  lemma NothingDone(w: World, images: map<Id, Image>, target: Id)
    ensures Installed(w, images, images, target)
  {
  }

  lemma PlacedOnly(w: World, before: map<Id, Image>, after: map<Id, Image>, target: Id)
    requires after == before || (target in after && after == before[target := after[target]])
    ensures Installed(w, before, after, target)
  {
  }

  lemma NothingWalked(w: World, images: map<Id, Image>, edges: seq<Requirement>)
    ensures Walked(w, images, images, edges) && NewClosed(images, images) && AllOk(images, [])
  {
  }

  lemma WalkKeeps(w: World, before: map<Id, Image>, after: map<Id, Image>, edges: seq<Requirement>, id: Id)
    requires Walked(w, before, after, edges) && id in before
    ensures id in after && after[id] == before[id]
  {
  }

  lemma WalkedKeys(w: World, before: map<Id, Image>, after: map<Id, Image>, edges: seq<Requirement>)
    requires Walked(w, before, after, edges)
    ensures before.Keys <= after.Keys
  {
  }

  lemma InstalledKeeps(w: World, before: map<Id, Image>, after: map<Id, Image>, target: Id)
    requires Installed(w, before, after, target)
    ensures KeepsIds(before, after)
  {
  }

  /** The satisfied edges stay satisfied, and the current one joins them. */
  lemma EdgeSeen(before: map<Id, Image>, mid: map<Id, Image>, after: map<Id, Image>, edges: seq<Requirement>, i: nat)
    requires i < |edges| && KeepsIds(mid, after) && AllOk(mid, edges[..i]) && EdgeOk(after, edges[i])
    ensures AllOk(after, edges[..i + 1])
  {
    forall req | req in edges[..i + 1] ensures EdgeOk(after, req) {
      if req in edges[..i] {
        EdgesStaySatisfied(mid, after, req);
      }
    }
  }

  lemma UnsatisfiedSeen(images: map<Id, Image>, edges: seq<Requirement>, req: Requirement)
    requires req in edges && !EdgeOk(images, req)
    ensures !AllOk(images, edges)
  {
  }

  /** An unsatisfied edge is planned with a version that is not installed. */
  lemma PlanIsNew(w: World, images: map<Id, Image>, req: Requirement)
    requires !req.Language? && !EdgeOk(images, req) && EdgePlan(w, req.name, req.constraint).Ok?
    ensures EdgePlan(w, req.name, req.constraint).value.id !in images
  {
    hide EdgePlan;
    var id := EdgePlan(w, req.name, req.constraint).value.id;
    assert id == Id(req.name, id.version) && Matches(req.constraint, id.version);
  }

  // ---- the termination measure ---------------------------------------------

  lemma LessLacking(catalog: set<Id>, before: set<Id>, after: set<Id>, id: Id)
    requires before <= after && id in after
    ensures |catalog - after| <= |catalog - before - {id}|
  {
    SubsetSize(catalog - after, catalog - before - {id});
  }

  /** Planning a catalog entry that is not installed leaves strictly fewer to install. */
  lemma StrictlyLess(catalog: set<Id>, before: set<Id>, now: set<Id>, id: Id)
    requires before <= now && id in catalog && id !in now
    ensures |catalog - now - {id}| < |catalog - before|
  {
    assert id in catalog - before;
    SubsetSize(catalog - now - {id}, catalog - before - {id});
  }

  /** Planning an unsatisfied edge leaves fewer payloads of the catalog to install. */
  lemma PlanDecreases(w: World, before: map<Id, Image>, mid: map<Id, Image>, edges: seq<Requirement>, req: Requirement)
    requires Walked(w, before, mid, edges)
    requires !req.Language? && !EdgeOk(mid, req) && EdgePlan(w, req.name, req.constraint).Ok?
    ensures var id := EdgePlan(w, req.name, req.constraint).value.id;
      id !in mid && |Catalog(w) - mid.Keys - {id}| < |Catalog(w) - before.Keys|
  {
    hide EdgePlan, Catalog, Walked, EdgeOk;
    PlanInCatalog(w, req.name, req.constraint);
    PlanIsNew(w, mid, req);
    WalkedKeys(w, before, mid, edges);
    StrictlyLess(Catalog(w), before.Keys, mid.Keys, EdgePlan(w, req.name, req.constraint).value.id);
  }

  /** The walk up to edge `i`, extended by the install of that edge. */
  lemma EdgeWalked(w: World, before: map<Id, Image>, mid: map<Id, Image>, after: map<Id, Image>,
                   edges: seq<Requirement>, i: nat, ok: bool)
    requires i < |edges| && AllOk(mid, edges[..i])
    requires var req := edges[i];
      !req.Language? && !EdgeOk(mid, req) && EdgePlan(w, req.name, req.constraint).Ok?
    requires Walked(w, before, mid, edges) && NewClosed(before, mid)
    requires var plan := EdgePlan(w, edges[i].name, edges[i].constraint).value;
      && Installed(w, mid, after, plan.id) && (plan.id in after ==> after[plan.id] == plan.image)
      && (ok ==> TargetClosed(mid, after, plan.id))
    ensures Walked(w, before, after, edges)
    ensures ok ==> NewClosed(before, after) && AllOk(after, edges[..i + 1])
  {
    hide EdgePlan, EdgeOk, Walked, NewClosed, AllOk, Installed, TargetClosed, KeepsIds;
    WalkExtends(w, before, mid, after, edges, edges[i], ok);
    if ok {
      InstalledKeeps(w, mid, after, EdgePlan(w, edges[i].name, edges[i].constraint).value.id);
      EdgeSeen(before, mid, after, edges, i);
    }
  }

  lemma SubsetSize(a: set<Id>, b: set<Id>)
    requires a <= b
    ensures |a| <= |b|
  {
    if a != b {
      var x :| x in b && x !in a;
      assert a <= b - {x};
      SubsetSize(a, b - {x});
    }
  }

  /** `installed_versions(name).any(matches)`. */
  predicate Satisfied(images: map<Id, Image>, req: Requirement)
    requires !req.Language?
    ensures Satisfied(images, req) <==> EdgeOk(images, req)
  {
    exists id :: id in images && id.name == req.name && Matches(req.constraint, id.version)
  }
}
