/** The request handler of app.ts over the module-level dictionaries
    `hosts` and `hostsRev`, kept as the two fields of one `Registry`
    object and updated in place branch by branch. */
module Server {
  import opened Wrappers
  import opened Ids
  import opened Sessions
  import opened Routes
  import SessionLaws

  /** A request as the handler reads it: the method, the URL's path name,
      and the string fields of the JSON body and of the query string.
      A field that is missing or falsy reads as "" (`|| ''`). */
  datatype Request = Request(verb: string, path: string, body: map<string, string>, query: map<string, string>)

  function Field(fields: map<string, string>, name: string): (value: string)
    ensures name in fields ==> value == fields[name]
    ensures name !in fields ==> value == ""
  {
    if name in fields then fields[name] else ""
  }

  /** The JSON objects the handler answers with. */
  datatype Payload =
    | IdBody(id: string)                              // app.ts:68
    | HostBody(id: string, description: string)       // app.ts:81
    | EmptyBody                                       // app.ts:102, 126
    | GuestBody(guestDescription: string)             // app.ts:117
    | ErrorBody                                       // app.ts:141

  datatype Response = Response(status: int, payload: Payload)

  /** Every failure, whatever its cause, becomes the same 404 answer
      (app.ts:139-141); a success is a 200 with its payload. */
  function Reply(r: Result<Payload, Error>): (response: Response)
    ensures response.status == 404 <==> r.Failure?
    ensures r.Failure? ==> response.payload == ErrorBody
    ensures r.Success? ==> response == Response(200, r.value)
  {
    match r
    case Success(p) => Response(200, p)
    case Failure(_) => Response(404, ErrorBody)
  }

  function Pack<T>(r: Result<T, Error>, wrap: T -> Payload): Result<Payload, Error> {
    match r
    case Success(v) => Success(wrap(v))
    case Failure(e) => Failure(e)
  }

  /** Where the random source has to supply a fresh id for the request. */
  predicate DrawsSuffice(t: Tables, request: Request, draws: seq<Draw>) {
    (&& Route(RouteKey(request.path), request.verb) == RegisterHostEndpoint
     && NeedsGeneratedId(t, Field(request.body, "description"), Field(request.body, "id")))
    ==> HasFreshDraw(draws, t.hosts)
  }

  /** The whole handler on values: the answer and the dictionaries after
      one request (app.ts:34-141). */
  function Serve(t: Tables, request: Request, draws: seq<Draw>): (r: (Response, Tables))
    requires WellFormed(t) && DrawsSuffice(t, request, draws)
    ensures WellFormed(r.1)
    ensures r.0.status == 200 || r.0.status == 404
    ensures r.0.status == 404 <==> r.0.payload == ErrorBody
  {
    match Route(RouteKey(request.path), request.verb)
    case RegisterHostEndpoint =>
      SessionLaws.RegisterHostKeepsWellFormed(t, Field(request.body, "description"), Field(request.body, "id"), draws);
      var s := RegisterHostStep(t, Field(request.body, "description"), Field(request.body, "id"), draws);
      (Reply(Pack(s.result, id => IdBody(id))), s.post)
    case FetchHostEndpoint =>
      var id := Field(request.query, "id");
      (Reply(Pack(FetchHostStep(t, id), description => HostBody(id, description))), t)
    case RegisterGuestEndpoint =>
      SessionLaws.RegisterGuestKeepsWellFormed(t, Field(request.body, "hostId"), Field(request.body, "guestDescription"));
      var s := RegisterGuestStep(t, Field(request.body, "hostId"), Field(request.body, "guestDescription"));
      (Reply(Pack(s.result, _ => EmptyBody)), s.post)
    case FetchGuestEndpoint =>
      SessionLaws.FetchGuestKeepsWellFormed(t, Field(request.query, "hostId"));
      var s := FetchGuestStep(t, Field(request.query, "hostId"));
      (Reply(Pack(s.result, guest => GuestBody(guest))), s.post)
    case DebugEndpoint => (Response(200, EmptyBody), t)
    case UnhandledRequest => (Reply(Failure(UnhandledEndpoint)), t)
  }

  /** `debug`, `GET host` and unknown requests leave both maps as they
      were; `debug` answers 200 `{}` and an unknown request the 404. */
  lemma ServeReadOnlyRequests(t: Tables, request: Request, draws: seq<Draw>)
    requires WellFormed(t) && DrawsSuffice(t, request, draws)
    ensures var e := Route(RouteKey(request.path), request.verb);
      e == DebugEndpoint || e == UnhandledRequest || e == FetchHostEndpoint ==> Serve(t, request, draws).1 == t
    ensures Route(RouteKey(request.path), request.verb) == DebugEndpoint ==>
      Serve(t, request, draws).0 == Response(200, EmptyBody)
    ensures Route(RouteKey(request.path), request.verb) == UnhandledRequest ==>
      Serve(t, request, draws).0 == Response(404, ErrorBody)
  {
  }

  /** The two guarded deletes of app.ts:45-52, taken one after the other,
      remove exactly `EvictedIds` from `hosts` and `DroppedDescriptions`
      from `hostsRev`. */
  lemma EvictInPlace(t: Tables, id: string, description: string)
    requires WellFormed(t)
    ensures var h1 := if id in t.hosts then t.hosts - {id} else t.hosts;
      var r1 := if id in t.hosts then t.hostsRev - {t.hosts[id].description} else t.hostsRev;
      var byDescription := description in r1 && r1[description] != "";
      && (if byDescription then h1 - {r1[description]} else h1) == t.hosts - EvictedIds(t, id, description)
      && (if byDescription then r1 - {description} else r1) == t.hostsRev - DroppedDescriptions(t, id, description)
  {
    var evicted := EvictedIds(t, id, description);
    var dropped := DroppedDescriptions(t, id, description);
    if id in t.hosts {
      var other := t.hosts[id].description;
      var r1 := t.hostsRev - {other};
      if other == description {
        assert t.hostsRev[description] == id;
        assert evicted == {id} && dropped == {description};
        assert description !in r1;
      } else {
        assert dropped == {other, description};
        if description in t.hostsRev {
          assert r1[description] == t.hostsRev[description] != "";
          assert evicted == {id, t.hostsRev[description]};
          assert t.hosts - {id} - {t.hostsRev[description]} == t.hosts - evicted;
          assert r1 - {description} == t.hostsRev - dropped;
        } else {
          assert evicted == {id};
          assert r1 == t.hostsRev - dropped;
        }
      }
    } else {
      assert dropped == {description};
      if description in t.hostsRev {
        assert evicted == {t.hostsRev[description]};
      } else {
        assert evicted == {};
        assert t.hostsRev - dropped == t.hostsRev;
        assert t.hosts - evicted == t.hosts;
      }
    }
  }

  /** The registry: one object holding both dictionaries (app.ts:6-7). */
  class Registry {
    var hosts: map<string, Session>
    var hostsRev: map<string, string>

    function State(): Tables
      reads this
    {
      Tables(hosts, hostsRev)
    }

    ghost predicate Valid()
      reads this
    {
      WellFormed(State())
    }

    /** Both dictionaries start empty. */
    constructor ()
      ensures Valid() && State() == Initial
    {
      hosts := map[];
      hostsRev := map[];
    }

    /** The do-while loop of app.ts:55-57: draw ids until one is unused.
        The draws stand for the successive answers of the random source. */
    method GenerateId(draws: seq<Draw>) returns (id: string)
      requires HasFreshDraw(draws, hosts)
      ensures id == GeneratedId(draws, hosts)
      ensures id !in hosts && ParseId(id).Some?
    {
      ghost var stop := FirstFreshIndex(draws, hosts);
      var i := 0;
      id := FormatId(draws[i]);
      while id in hosts
        invariant 0 <= i <= stop
        invariant id == FormatId(draws[i])
        decreases stop - i
      {
        i := i + 1;
        id := FormatId(draws[i]);
      }
      ParseFormatId(draws[i]);
    }

    /** `POST host` (app.ts:36-68). */
    method RegisterHost(description: string, suppliedId: string, draws: seq<Draw>) returns (r: Result<string, Error>)
      requires Valid()
      requires NeedsGeneratedId(State(), description, suppliedId) ==> HasFreshDraw(draws, hosts)
      modifies this
      ensures Valid()
      ensures var s := RegisterHostStep(old(State()), description, suppliedId, draws);
        r == s.result && State() == s.post
    {
      ghost var t := State();
      var id := ResolveId(State(), suppliedId, description);
      if description == "" {
        return Failure(EmptyDescription);
      }
      if id in hosts {
        hostsRev := hostsRev - {hosts[id].description};
        hosts := hosts - {id};
      }
      if description in hostsRev && hostsRev[description] != "" {
        hosts := hosts - {hostsRev[description]};
        hostsRev := hostsRev - {description};
      }
      EvictInPlace(t, id, description);
      if id == "" {
        FreshInFewer(draws, t.hosts, EvictedIds(t, "", description));
        id := GenerateId(draws);
      }
      hosts := hosts[id := Session(description, "")];
      hostsRev := hostsRev[description := id];
      r := Success(id);
      SessionLaws.RegisterHostKeepsWellFormed(t, description, suppliedId, draws);
    }

    /** `GET host` (app.ts:69-81): reads the record, changes nothing. */
    method FetchHost(id: string) returns (r: Result<string, Error>)
      requires Valid()
      ensures r == FetchHostStep(State(), id)
      ensures r.Success? <==> id in hosts && hosts[id].guestDescription == ""
      ensures r.Success? ==> r.value == hosts[id].description
      ensures id == "" ==> r == Failure(NeedHostId)
    {
      if id !in hosts {
        return Failure(NeedHostId);
      }
      var host := hosts[id];
      if host.guestDescription != "" {
        return Failure(AlreadyInCall);
      }
      r := Success(host.description);
    }

    /** `POST guest` (app.ts:82-102). */
    method RegisterGuest(hostId: string, guestDescription: string) returns (r: Result<(), Error>)
      requires Valid()
      modifies this
      ensures Valid()
      ensures var s := RegisterGuestStep(old(State()), hostId, guestDescription);
        r == s.result && State() == s.post
    {
      if hostId == "" {
        return Failure(EmptyHostId);
      }
      if guestDescription == "" {
        return Failure(EmptyGuestDescription);
      }
      if hostId !in hosts {
        return Failure(HostNotFound);
      }
      var host := hosts[hostId];
      hosts := hosts[hostId := host.(guestDescription := guestDescription)];
      r := Success(());
    }

    /** `GET guest` (app.ts:103-121): consumes a matched session. */
    method FetchGuest(hostId: string) returns (r: Result<string, Error>)
      requires Valid()
      modifies this
      ensures Valid()
      ensures var s := FetchGuestStep(old(State()), hostId);
        r == s.result && State() == s.post
    {
      if hostId == "" {
        return Failure(EmptyHostId);
      }
      if hostId !in hosts {
        return Failure(HostNotFound);
      }
      var host := hosts[hostId];
      r := Success(host.guestDescription);
      if host.guestDescription != "" {
        hosts := hosts - {hostId};
      }
    }

    /** The request handler (app.ts:25-143) for one request. */
    method Handle(request: Request, draws: seq<Draw>) returns (response: Response)
      requires Valid() && DrawsSuffice(State(), request, draws)
      modifies this
      ensures Valid()
      ensures (response, State()) == Serve(old(State()), request, draws)
    {
      var key := RouteKey(request.path);
      match Route(key, request.verb)
      case RegisterHostEndpoint =>
        var r := RegisterHost(Field(request.body, "description"), Field(request.body, "id"), draws);
        response := Reply(Pack(r, id => IdBody(id)));
      case FetchHostEndpoint =>
        var id := Field(request.query, "id");
        var r := FetchHost(id);
        response := Reply(Pack(r, description => HostBody(id, description)));
      case RegisterGuestEndpoint =>
        var r := RegisterGuest(Field(request.body, "hostId"), Field(request.body, "guestDescription"));
        response := Reply(Pack(r, _ => EmptyBody));
      case FetchGuestEndpoint =>
        var r := FetchGuest(Field(request.query, "hostId"));
        response := Reply(Pack(r, guest => GuestBody(guest)));
      case DebugEndpoint =>
        response := Response(200, EmptyBody);
      case UnhandledRequest =>
        response := Reply(Failure(UnhandledEndpoint));
    }
  }

  /** A host and a guest meet through one registry: the six requests of
      the exchange, as method calls. */
  method Exchange() returns (guest: Result<string, Error>)
    ensures guest == Success("bob answer")
  {
    var registry := new Registry();
    var r := registry.RegisterHost("alice offer", "A", []);
    assert r == Success("A");
    var h := registry.FetchHost("A");
    assert h == Success("alice offer");
    var joined := registry.RegisterGuest("A", "bob answer");
    assert joined == Success(());
    h := registry.FetchHost("A");
    assert h == Failure(AlreadyInCall);
    guest := registry.FetchGuest("A");
    var again := registry.FetchGuest("A");
    assert again == Failure(HostNotFound);
  }
}
