/** The session registry of app.ts as values: the two dictionaries and,
    for each of the four request branches, the pair (answer, new
    dictionaries) it produces. The class in registry.dfy performs the same
    branches step by step and is proved to agree with these functions. */
module Sessions {
  import opened Wrappers
  import opened Ids

  /** What `hosts[id]` holds (app.ts:6). */
  datatype Session = Session(description: string, guestDescription: string)

  /** `hosts`, id to session, and `hostsRev`, description to id (app.ts:6-7). */
  datatype Tables = Tables(hosts: map<string, Session>, hostsRev: map<string, string>)

  /** One constructor per `throw` of the four branches and of the dispatch. */
  datatype Error =
    | EmptyDescription       // app.ts:42
    | NeedHostId             // app.ts:73
    | AlreadyInCall          // app.ts:76
    | EmptyHostId            // app.ts:88, 107
    | EmptyGuestDescription  // app.ts:91
    | HostNotFound           // app.ts:95, 112
    | UnhandledEndpoint      // app.ts:128

  /** What a branch answers together with the dictionaries it leaves behind. */
  datatype Step<+T> = Step(result: Result<T, Error>, post: Tables)

  /** Both dictionaries start empty (app.ts:6-7). */
  const Initial := Tables(map[], map[])

  /** Every live session is indexed back to its own id. */
  ghost predicate Indexed(t: Tables): (b: bool)
    ensures b ==> forall x, y | x in t.hosts && y in t.hosts && x != y ::
      t.hosts[x].description != t.hosts[y].description
  {
    forall x | x in t.hosts ::
      t.hosts[x].description in t.hostsRev && t.hostsRev[t.hosts[x].description] == x
  }

  /** The invariant all four branches keep: nothing lives under the empty
      id, every reverse entry holds a non-empty (so truthy) id, and every
      live session is indexed. The converse of `Indexed` is not kept. */
  ghost predicate WellFormed(t: Tables): (b: bool)
    ensures b ==> forall d | d in t.hostsRev :: ResolveId(t, "", d) == t.hostsRev[d]
    ensures b ==> forall x | x in t.hosts :: ResolveId(t, "", t.hosts[x].description) == x
  {
    && "" !in t.hosts
    && (forall d | d in t.hostsRev :: t.hostsRev[d] != "")
    && Indexed(t)
  }

  /** Every reverse entry points to a live session with that description:
      what a two-way index would promise, and what app.ts does not keep. */
  ghost predicate ReverseIndexed(t: Tables) {
    forall d | d in t.hostsRev ::
      t.hostsRev[d] in t.hosts && t.hosts[t.hostsRev[d]].description == d
  }

  /** The id a registration starts from (app.ts:39): the supplied id if it
      is non-empty, else a truthy reverse entry for the description, else
      "" which means "generate one". */
  function ResolveId(t: Tables, suppliedId: string, description: string): (id: string)
    ensures suppliedId != "" ==> id == suppliedId
    ensures id == "" <==> suppliedId == "" && !(description in t.hostsRev && t.hostsRev[description] != "")
    ensures id != "" && id != suppliedId ==> description in t.hostsRev && id == t.hostsRev[description]
  {
    if suppliedId != "" then suppliedId
    else if description in t.hostsRev && t.hostsRev[description] != "" then t.hostsRev[description]
    else ""
  }

  /** Whether a successful registration has to draw a fresh id (app.ts:54). */
  predicate NeedsGeneratedId(t: Tables, description: string, suppliedId: string) {
    description != "" && ResolveId(t, suppliedId, description) == ""
  }

  /** Some draw of the random source gives an id not already in use. */
  predicate HasFreshDraw(draws: seq<Draw>, hosts: map<string, Session>) {
    exists k :: 0 <= k < |draws| && FormatId(draws[k]) !in hosts
  }

  lemma FreshDrawInRest(draws: seq<Draw>, hosts: map<string, Session>)
    requires HasFreshDraw(draws, hosts) && FormatId(draws[0]) in hosts
    ensures HasFreshDraw(draws[1..], hosts)
  {
    var k :| 0 <= k < |draws| && FormatId(draws[k]) !in hosts;
    assert draws[1..][k - 1] == draws[k];
  }

  /** The first draw whose id is unused: where the do-while loop of
      app.ts:55-57 stops. */
  function FirstFreshIndex(draws: seq<Draw>, hosts: map<string, Session>): (k: nat)
    requires HasFreshDraw(draws, hosts)
    ensures k < |draws| && FormatId(draws[k]) !in hosts
    ensures forall j | 0 <= j < k :: FormatId(draws[j]) in hosts
    decreases |draws|
  {
    if FormatId(draws[0]) !in hosts then 0
    else
      FreshDrawInRest(draws, hosts);
      var rest := draws[1..];
      var k := FirstFreshIndex(rest, hosts);
      assert forall j | 1 <= j < k + 1 :: draws[j] == rest[j - 1];
      k + 1
  }

  function GeneratedId(draws: seq<Draw>, hosts: map<string, Session>): string
    requires HasFreshDraw(draws, hosts)
  {
    FormatId(draws[FirstFreshIndex(draws, hosts)])
  }

  lemma FreshInFewer(draws: seq<Draw>, hosts: map<string, Session>, dropped: set<string>)
    requires HasFreshDraw(draws, hosts)
    ensures HasFreshDraw(draws, hosts - dropped)
  {
    var k :| 0 <= k < |draws| && FormatId(draws[k]) !in hosts;
    assert FormatId(draws[k]) !in hosts - dropped;
  }

  /** The sessions a registration under `id` drops (app.ts:45-52): the one
      under `id`, and the one the description's reverse entry names. */
  function EvictedIds(t: Tables, id: string, description: string): (evicted: set<string>)
    ensures id in t.hosts ==> id in evicted
    ensures description in t.hostsRev ==> t.hostsRev[description] in evicted
    ensures forall x | x in evicted :: x == id || (description in t.hostsRev && x == t.hostsRev[description])
    ensures |evicted| <= 2
  {
    var byId: set<string> := if id in t.hosts then {id} else {};
    var byDescription: set<string> := if description in t.hostsRev then {t.hostsRev[description]} else {};
    assert |byId + byDescription| <= |byId| + |byDescription|;
    byId + byDescription
  }

  /** The reverse entries the same registration deletes (app.ts:46, 51). */
  function DroppedDescriptions(t: Tables, id: string, description: string): (dropped: set<string>)
    ensures description in dropped
    ensures id in t.hosts ==> t.hosts[id].description in dropped
    ensures forall d | d in dropped :: d == description || (id in t.hosts && d == t.hosts[id].description)
    ensures |dropped| <= 2
  {
    var byId: set<string> := if id in t.hosts then {t.hosts[id].description} else {};
    assert |byId + {description}| <= |byId| + 1;
    byId + {description}
  }

  /** `POST host` (app.ts:36-68); `draws` stands for the random source. */
  function RegisterHostStep(t: Tables, description: string, suppliedId: string, draws: seq<Draw>): (s: Step<string>)
    requires WellFormed(t)
    requires NeedsGeneratedId(t, description, suppliedId) ==> HasFreshDraw(draws, t.hosts)
    ensures s.result.Failure? <==> description == ""
    ensures s.result.Failure? ==> s.result.error == EmptyDescription && s.post == t
  {
    if description == "" then Step(Failure(EmptyDescription), t)
    else
      var resolved := ResolveId(t, suppliedId, description);
      var evicted := EvictedIds(t, resolved, description);
      var kept := t.hosts - evicted;
      var id := if resolved == "" then
                   FreshInFewer(draws, t.hosts, evicted);
                   GeneratedId(draws, kept)
                 else resolved;
      Step(Success(id),
           Tables(kept[id := Session(description, "")],
                  (t.hostsRev - DroppedDescriptions(t, resolved, description))[description := id]))
  }

  /** `GET host` (app.ts:69-81): never changes the dictionaries. */
  function FetchHostStep(t: Tables, id: string): (r: Result<string, Error>)
    ensures r.Success? <==> id in t.hosts && t.hosts[id].guestDescription == ""
    ensures r.Success? ==> r.value == t.hosts[id].description
  {
    if id !in t.hosts then Failure(NeedHostId)
    else if t.hosts[id].guestDescription != "" then Failure(AlreadyInCall)
    else Success(t.hosts[id].description)
  }

  /** `POST guest` (app.ts:82-102). */
  function RegisterGuestStep(t: Tables, hostId: string, guestDescription: string): (s: Step<()>)
    ensures s.result.Success? <==> hostId != "" && guestDescription != "" && hostId in t.hosts
    ensures s.result.Failure? ==> s.post == t
    ensures s.post.hostsRev == t.hostsRev && s.post.hosts.Keys == t.hosts.Keys
  {
    if hostId == "" then Step(Failure(EmptyHostId), t)
    else if guestDescription == "" then Step(Failure(EmptyGuestDescription), t)
    else if hostId !in t.hosts then Step(Failure(HostNotFound), t)
    else
      var session := t.hosts[hostId];
      Step(Success(()), Tables(t.hosts[hostId := session.(guestDescription := guestDescription)], t.hostsRev))
  }

  /** `GET guest` (app.ts:103-121). */
  function FetchGuestStep(t: Tables, hostId: string): (s: Step<string>)
    ensures s.result.Success? <==> hostId != "" && hostId in t.hosts
    ensures s.result.Failure? ==> s.post == t
    ensures s.post.hostsRev == t.hostsRev && s.post.hosts.Keys <= t.hosts.Keys
  {
    if hostId == "" then Step(Failure(EmptyHostId), t)
    else if hostId !in t.hosts then Step(Failure(HostNotFound), t)
    else
      var guest := t.hosts[hostId].guestDescription;
      Step(Success(guest), if guest != "" then Tables(t.hosts - {hostId}, t.hostsRev) else t)
  }
}
