/** Concrete runs of the four branches that show the intended host and guest exchange
    and where app.ts departs from a two-way index. */
module SessionRuns {
  import opened Wrappers
  import opened Sessions

  /** Host "A" registered "alice offer"; guest "bob answer" joins; the
      host reads it once; a second read fails. */
  lemma AliceAndBob()
    ensures var s1 := RegisterHostStep(Initial, "alice offer", "A", []);
      && s1.result == Success("A")
      && FetchHostStep(s1.post, "A") == Success("alice offer")
      && var s2 := RegisterGuestStep(s1.post, "A", "bob answer");
      && s2.result == Success(())
      && FetchHostStep(s2.post, "A") == Failure(AlreadyInCall)
      && var s3 := FetchGuestStep(s2.post, "A");
      && s3.result == Success("bob answer")
      && FetchGuestStep(s3.post, "A").result == Failure(HostNotFound)
  {
    var s1 := RegisterHostStep(Initial, "alice offer", "A", []);
    assert s1.post == Tables(map["A" := Session("alice offer", "")], map["alice offer" := "A"]);
  }

  /** An empty description is refused and no session "x" appears. */
  lemma EmptyDescriptionRefused()
    ensures RegisterHostStep(Initial, "", "x", []) == Step(Failure(EmptyDescription), Initial)
  {
  }

  /** Consuming a session leaves its reverse entry behind (app.ts:119-121
      delete from `hosts` only): the invariant holds, its converse not. */
  lemma ConsumptionLeavesStaleEntry()
    ensures var s1 := RegisterHostStep(Initial, "d", "A", []);
      var s3 := FetchGuestStep(RegisterGuestStep(s1.post, "A", "g").post, "A");
      && s3.result == Success("g")
      && s3.post == Tables(map[], map["d" := "A"])
      && WellFormed(s3.post)
      && !ReverseIndexed(s3.post)
  {
    var s1 := RegisterHostStep(Initial, "d", "A", []);
    assert s1.post == Tables(map["A" := Session("d", "")], map["d" := "A"]);
    var s2 := RegisterGuestStep(s1.post, "A", "g");
    assert s2.post == Tables(map["A" := Session("d", "g")], map["d" := "A"]);
    var s3 := FetchGuestStep(s2.post, "A");
    assert s3.post.hosts == map[];
    assert "d" in s3.post.hostsRev && s3.post.hostsRev["d"] !in s3.post.hosts;
  }

  /** The stale entry decides later registrations: the same description
      without an id gets the consumed id back, and the description
      registered under another id evicts whatever now lives at the stale
      id, here a session with a different description. */
  lemma StaleEntryConsequences()
    ensures var stale := Tables(map[], map["d" := "A"]);
      && RegisterHostStep(stale, "d", "", []).result == Success("A")
      && var s1 := RegisterHostStep(stale, "e", "A", []);
      && s1.post == Tables(map["A" := Session("e", "")], map["d" := "A", "e" := "A"])
      && var s2 := RegisterHostStep(s1.post, "d", "B", []);
      && s2.post == Tables(map["B" := Session("d", "")], map["e" := "A", "d" := "B"])
      && FetchHostStep(s2.post, "A") == Failure(NeedHostId)
  {
    var stale := Tables(map[], map["d" := "A"]);
    var s1 := RegisterHostStep(stale, "e", "A", []);
    assert EvictedIds(stale, "A", "e") == {};
    assert s1.post.hosts == map["A" := Session("e", "")];
    assert s1.post.hostsRev == map["d" := "A", "e" := "A"];
    assert EvictedIds(s1.post, "B", "d") == {"A"};
    assert DroppedDescriptions(s1.post, "B", "d") == {"d"};
    var s2 := RegisterHostStep(s1.post, "d", "B", []);
    assert s2.post.hosts == map["B" := Session("d", "")];
    assert s2.post.hostsRev == map["e" := "A", "d" := "B"];
  }

  /** A second `POST guest` silently replaces the first guest's answer
      (app.ts:98). */
  lemma GuestOverwritten()
    ensures var s1 := RegisterHostStep(Initial, "d", "A", []);
      var s2 := RegisterGuestStep(s1.post, "A", "g1");
      var s3 := RegisterGuestStep(s2.post, "A", "g2");
      && s3.result == Success(())
      && FetchGuestStep(s3.post, "A").result == Success("g2")
  {
    var s1 := RegisterHostStep(Initial, "d", "A", []);
    assert s1.post == Tables(map["A" := Session("d", "")], map["d" := "A"]);
  }
}
