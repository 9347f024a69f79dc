/** What the four branches of app.ts promise, proved about the step
    functions of module Sessions. */
module SessionLaws {
  import opened Wrappers
  import opened Ids
  import opened Sessions

  lemma InitialWellFormed()
    ensures WellFormed(Initial) && Initial.hosts == map[] && Initial.hostsRev == map[]
  {
  }

  /** In the generation case nothing is evicted, so the loop of
      app.ts:55-57 runs against the unchanged `hosts`. */
  lemma NothingEvictedWhenGenerating(t: Tables, description: string, suppliedId: string)
    requires WellFormed(t)
    requires NeedsGeneratedId(t, description, suppliedId)
    ensures suppliedId == "" && description !in t.hostsRev
    ensures EvictedIds(t, "", description) == {}
  {
  }

  /** The effective id of a successful registration, in the order of
      app.ts:39 and 54-57, and the record it installs (app.ts:60-64). */
  lemma RegisterHostResolvesId(t: Tables, description: string, suppliedId: string, draws: seq<Draw>)
    requires WellFormed(t)
    requires NeedsGeneratedId(t, description, suppliedId) ==> HasFreshDraw(draws, t.hosts)
    requires description != ""
    ensures var s := RegisterHostStep(t, description, suppliedId, draws);
      && s.result.Success?
      && (suppliedId != "" ==> s.result.value == suppliedId)
      && (suppliedId == "" && description in t.hostsRev ==> s.result.value == t.hostsRev[description])
      && (suppliedId == "" && description !in t.hostsRev ==>
            && HasFreshDraw(draws, t.hosts)
            && s.result.value == GeneratedId(draws, t.hosts)
            && s.result.value !in t.hosts)
      && s.result.value != ""
      && s.post.hosts[s.result.value] == Session(description, "")
      && s.post.hostsRev[description] == s.result.value
  {
    var s := RegisterHostStep(t, description, suppliedId, draws);
    if NeedsGeneratedId(t, description, suppliedId) {
      NothingEvictedWhenGenerating(t, description, suppliedId);
      assert t.hosts - {} == t.hosts;
      ghost var k := FirstFreshIndex(draws, t.hosts);
      assert s.result.value == FormatId(draws[k]);
    }
  }

  /** The frame of a registration (app.ts:45-52, 60-64): apart from the
      effective id and the session the description's reverse entry names,
      every session stays as it was, and no other id appears. In `hostsRev`
      only the description itself and the description of the session that
      lived at the effective id are touched: the latter is deleted, and the
      reverse entry of a session evicted through `hostsRev[description]`
      stays behind. */
  lemma RegisterHostFrame(t: Tables, description: string, suppliedId: string, draws: seq<Draw>)
    requires WellFormed(t)
    requires NeedsGeneratedId(t, description, suppliedId) ==> HasFreshDraw(draws, t.hosts)
    requires description != ""
    ensures var s := RegisterHostStep(t, description, suppliedId, draws);
      var id := s.result.value;
      && (forall x | x in t.hosts && x != id && !(description in t.hostsRev && x == t.hostsRev[description]) ::
            x in s.post.hosts && s.post.hosts[x] == t.hosts[x])
      && (forall x | x in s.post.hosts && x != id :: x in t.hosts && s.post.hosts[x] == t.hosts[x])
      && (description in t.hostsRev && t.hostsRev[description] != id ==> t.hostsRev[description] !in s.post.hosts)
      && var resolved := ResolveId(t, suppliedId, description);
      && (forall d | d in t.hostsRev && d != description && !(resolved in t.hosts && d == t.hosts[resolved].description) ::
            d in s.post.hostsRev && s.post.hostsRev[d] == t.hostsRev[d])
      && (resolved in t.hosts && t.hosts[resolved].description != description ==>
            t.hosts[resolved].description !in s.post.hostsRev)
      && (forall d | d in s.post.hostsRev && d != description :: d in t.hostsRev && s.post.hostsRev[d] == t.hostsRev[d])
  {
    RegisterHostResolvesId(t, description, suppliedId, draws);
    if NeedsGeneratedId(t, description, suppliedId) {
      NothingEvictedWhenGenerating(t, description, suppliedId);
    }
  }

  lemma RegisterHostKeepsWellFormed(t: Tables, description: string, suppliedId: string, draws: seq<Draw>)
    requires WellFormed(t)
    requires NeedsGeneratedId(t, description, suppliedId) ==> HasFreshDraw(draws, t.hosts)
    ensures WellFormed(RegisterHostStep(t, description, suppliedId, draws).post)
  {
    if description != "" {
      var s := RegisterHostStep(t, description, suppliedId, draws);
      var id := s.result.value;
      RegisterHostResolvesId(t, description, suppliedId, draws);
      RegisterHostFrame(t, description, suppliedId, draws);
      var resolved := ResolveId(t, suppliedId, description);
      forall x | x in s.post.hosts
        ensures s.post.hosts[x].description in s.post.hostsRev
        ensures s.post.hostsRev[s.post.hosts[x].description] == x
      {
        if x != id {
          var e := t.hosts[x].description;
          assert e != description;
          assert e !in DroppedDescriptions(t, resolved, description);
        }
      }
    }
  }

  /** Registering, without an id, the description of a session that is
      still open answers its id and changes nothing. */
  lemma RegisterOpenAgain(u: Tables, description: string, draws: seq<Draw>)
    requires WellFormed(u) && description != ""
    requires description in u.hostsRev
    requires u.hostsRev[description] in u.hosts
    requires u.hosts[u.hostsRev[description]] == Session(description, "")
    ensures !NeedsGeneratedId(u, description, "")
    ensures RegisterHostStep(u, description, "", draws) == Step(Success(u.hostsRev[description]), u)
  {
    var id := u.hostsRev[description];
    assert ResolveId(u, "", description) == id;
    assert EvictedIds(u, id, description) == {id};
    assert DroppedDescriptions(u, id, description) == {description};
    var s := RegisterHostStep(u, description, "", draws);
    assert s.post.hosts == u.hosts;
    assert s.post.hostsRev == u.hostsRev;
  }

  /** Registering a description twice without an id answers the same id
      and leaves the same dictionaries: one session for it afterwards. */
  lemma RegisterHostIdempotent(t: Tables, description: string, draws: seq<Draw>, redraws: seq<Draw>)
    requires WellFormed(t)
    requires NeedsGeneratedId(t, description, "") ==> HasFreshDraw(draws, t.hosts)
    ensures var first := RegisterHostStep(t, description, "", draws);
      (RegisterHostKeepsWellFormed(t, description, "", draws);
       !NeedsGeneratedId(first.post, description, "")
       && RegisterHostStep(first.post, description, "", redraws) == first)
  {
    RegisterHostKeepsWellFormed(t, description, "", draws);
    if description != "" {
      RegisterHostResolvesId(t, description, "", draws);
      RegisterOpenAgain(RegisterHostStep(t, description, "", draws).post, description, redraws);
    }
  }

  /** `GET host` (app.ts:70-81). */
  lemma FetchHostOutcome(t: Tables, id: string)
    requires WellFormed(t)
    ensures var r := FetchHostStep(t, id);
      && (r.Success? <==> id in t.hosts && t.hosts[id].guestDescription == "")
      && (r.Success? ==> r.value == t.hosts[id].description)
      && (id !in t.hosts ==> r == Failure(NeedHostId))
      && (id in t.hosts && t.hosts[id].guestDescription != "" ==> r == Failure(AlreadyInCall))
      && (id == "" ==> r == Failure(NeedHostId))
  {
  }

  /** `POST guest` (app.ts:84-98): the failures leave everything as it
      was; a success overwrites only that session's guest description. */
  lemma RegisterGuestOutcome(t: Tables, hostId: string, guestDescription: string)
    ensures var s := RegisterGuestStep(t, hostId, guestDescription);
      && (s.result.Success? <==> hostId != "" && guestDescription != "" && hostId in t.hosts)
      && (hostId == "" ==> s.result == Failure(EmptyHostId))
      && (hostId != "" && guestDescription == "" ==> s.result == Failure(EmptyGuestDescription))
      && (hostId != "" && guestDescription != "" && hostId !in t.hosts ==> s.result == Failure(HostNotFound))
      && (s.result.Failure? ==> s.post == t)
      && (s.result.Success? ==>
            && s.post.hostsRev == t.hostsRev
            && s.post.hosts.Keys == t.hosts.Keys
            && s.post.hosts[hostId] == Session(t.hosts[hostId].description, guestDescription)
            && forall x | x in t.hosts && x != hostId :: s.post.hosts[x] == t.hosts[x])
  {
  }

  lemma RegisterGuestKeepsWellFormed(t: Tables, hostId: string, guestDescription: string)
    requires WellFormed(t)
    ensures WellFormed(RegisterGuestStep(t, hostId, guestDescription).post)
  {
  }

  /** Once a guest has joined, the host slot is no longer advertised. */
  lemma HostGate(t: Tables, hostId: string, guestDescription: string)
    requires RegisterGuestStep(t, hostId, guestDescription).result.Success?
    ensures FetchHostStep(RegisterGuestStep(t, hostId, guestDescription).post, hostId) == Failure(AlreadyInCall)
  {
  }

  /** `GET guest` (app.ts:104-121): the only branch that deletes a
      session, and it deletes from `hosts` alone. */
  lemma FetchGuestOutcome(t: Tables, hostId: string)
    ensures var s := FetchGuestStep(t, hostId);
      && (s.result.Success? <==> hostId != "" && hostId in t.hosts)
      && (hostId == "" ==> s.result == Failure(EmptyHostId))
      && (hostId != "" && hostId !in t.hosts ==> s.result == Failure(HostNotFound))
      && (s.result.Failure? ==> s.post == t)
      && s.post.hostsRev == t.hostsRev
      && (s.result.Success? ==>
            && s.result.value == t.hosts[hostId].guestDescription
            && s.post.hosts == if s.result.value != "" then t.hosts - {hostId} else t.hosts)
  {
  }

  lemma FetchGuestKeepsWellFormed(t: Tables, hostId: string)
    requires WellFormed(t)
    ensures WellFormed(FetchGuestStep(t, hostId).post)
  {
  }

  /** A matched session is handed to the host once; after that both
      polls on its id fail. */
  lemma FetchGuestConsumes(t: Tables, hostId: string)
    requires FetchGuestStep(t, hostId).result.Success?
    requires FetchGuestStep(t, hostId).result.value != ""
    ensures var u := FetchGuestStep(t, hostId).post;
      && FetchGuestStep(u, hostId).result == Failure(HostNotFound)
      && FetchHostStep(u, hostId) == Failure(NeedHostId)
  {
  }

  /** Polling before a guest joined answers "" and changes nothing. */
  lemma FetchGuestPollIsPure(t: Tables, hostId: string)
    requires FetchGuestStep(t, hostId).result == Success("")
    ensures FetchGuestStep(t, hostId).post == t
  {
  }

  /** A registration without an id never removes a live session: the id
      it answers is either the one the description already maps to, which
      is installed again, or an unused one. */
  lemma RegisterWithoutIdKeepsIds(t: Tables, description: string, draws: seq<Draw>)
    requires WellFormed(t)
    requires NeedsGeneratedId(t, description, "") ==> HasFreshDraw(draws, t.hosts)
    ensures t.hosts.Keys <= RegisterHostStep(t, description, "", draws).post.hosts.Keys
  {
    if description != "" {
      RegisterHostResolvesId(t, description, "", draws);
      RegisterHostFrame(t, description, "", draws);
    }
  }

  /** Whether registering `descriptions` one after the other, each without
      an id and the i-th drawing from `draws[i]`, always finds an unused
      draw when it needs one. */
  ghost predicate DrawsLast(t: Tables, descriptions: seq<string>, draws: seq<seq<Draw>>)
    decreases |descriptions|
  {
    && WellFormed(t)
    && |draws| == |descriptions|
    && (descriptions != [] ==>
          && (NeedsGeneratedId(t, descriptions[0], "") ==> HasFreshDraw(draws[0], t.hosts))
          && DrawsLast(RegisterHostStep(t, descriptions[0], "", draws[0]).post, descriptions[1..], draws[1..]))
  }

  /** The ids drawn by such a run, in order, and the dictionaries it leaves. */
  datatype Run = Run(generated: seq<string>, post: Tables)

  ghost function RegisterEach(t: Tables, descriptions: seq<string>, draws: seq<seq<Draw>>): Run
    requires DrawsLast(t, descriptions, draws)
    decreases |descriptions|
  {
    if descriptions == [] then Run([], t)
    else
      var s := RegisterHostStep(t, descriptions[0], "", draws[0]);
      var rest := RegisterEach(s.post, descriptions[1..], draws[1..]);
      if NeedsGeneratedId(t, descriptions[0], "") then Run([s.result.value] + rest.generated, rest.post)
      else rest
  }

  /** Over any sequence of registrations without explicit ids, the
      generated ids are pairwise distinct: each was unused when drawn, and
      every id stays live for the rest of the run. */
  lemma {:induction false} GeneratedIdsDistinct(t: Tables, descriptions: seq<string>, draws: seq<seq<Draw>>)
    requires DrawsLast(t, descriptions, draws)
    ensures var r := RegisterEach(t, descriptions, draws);
      && (forall i, j | 0 <= i < j < |r.generated| :: r.generated[i] != r.generated[j])
      && (forall i | 0 <= i < |r.generated| :: r.generated[i] !in t.hosts && r.generated[i] in r.post.hosts)
      && t.hosts.Keys <= r.post.hosts.Keys
    decreases |descriptions|
  {
    if descriptions != [] {
      var s := RegisterHostStep(t, descriptions[0], "", draws[0]);
      var rest := RegisterEach(s.post, descriptions[1..], draws[1..]);
      RegisterWithoutIdKeepsIds(t, descriptions[0], draws[0]);
      GeneratedIdsDistinct(s.post, descriptions[1..], draws[1..]);
      if NeedsGeneratedId(t, descriptions[0], "") {
        RegisterHostResolvesId(t, descriptions[0], "", draws[0]);
        var id := s.result.value;
        assert id in s.post.hosts;
        var g := [id] + rest.generated;
        assert forall i | 1 <= i < |g| :: g[i] == rest.generated[i - 1];
      }
    }
  }
}
