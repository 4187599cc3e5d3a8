/**
 Deluge dissemination from the start: with the dispatcher as it is written no node that
 misses pages is ever stuck, and with any dispatcher that lets a node's profile through, a
 run leads to every older node having that node's object.
 */
module DelugeSpread {
  import opened Bytes
  import opened DelugeNode
  import opened DelugeNetwork
  import opened DelugeSafety
  import opened DelugeDispatch
  import opened DelugeProgress

  // ------------------------------------------------------------------ a holder of version 1 remains

  ghost predicate First(s: Node) {
    Settled(s) && s.version == 1
  }

  ghost predicate HasFirst(net: Network) {
    exists j :: 0 <= j < |net.nodes| && First(net.nodes[j])
  }

  /** Whoever wants version 1, or may come to, can still get it. */
  ghost predicate Provided(net: Network) {
    && (forall i :: 0 <= i < |net.nodes| && Updating(net.nodes[i]) ==> HasFirst(net))
    && (forall m :: m in net.air && m.Profile? && m.version == 1 ==> HasFirst(net))
  }

  lemma StepNotOlder(net: Network, a: Action, env: Platform, n: nat, i: nat)
    requires NetStage(net, n) && i < |net.nodes|
    ensures NotOlder(net.nodes[i], Perform(net, a, env).nodes[i])
  {
    if Possible(net, a, env) && a.node == i {
      ReactNotOlder(net.nodes[i], a, env, n);
    }
  }

  lemma FirstStays(net: Network, a: Action, env: Platform, n: nat, j: nat)
    requires NetStage(net, n) && env.dispatch.AsWritten? && j < |net.nodes| && First(net.nodes[j])
    ensures First(Perform(net, a, env).nodes[j])
  {
    StepKeepsStage(net, a, env, n);
    UpdatesOnlyToFirst(net, a, env, n, j);
    StepNotOlder(net, a, env, n, j);
    assert Stage(Perform(net, a, env).nodes[j], n);
  }

  /** A node begins to update only when a profile of version 1 arrives. */
  lemma UpdateCause(net: Network, a: Action, env: Platform, n: nat, i: nat)
    requires NetStage(net, n) && env.dispatch.AsWritten? && i < |net.nodes|
    requires !Updating(net.nodes[i]) && Updating(Perform(net, a, env).nodes[i])
    ensures a.Deliver? && a.msg in net.air && a.msg.Profile? && a.msg.version == 1
  {
    var s := net.nodes[i];
    assert Stage(s, n);
    StepNotOlder(net, a, env, n, i);
    UpdatesOnlyToFirst(net, a, env, n, i);
    if a.Deliver? && a.msg.Profile? && Passes(a.msg, env) && a.msg.version > s.updateVersion {
      AdoptedIsFirst(s, a.msg, env, n);
    }
  }

  lemma ProfileSender(net: Network, a: Action, env: Platform, n: nat, m: Msg)
    requires NetStage(net, n) && m.Profile? && m in Perform(net, a, env).air && m !in net.air && m.version == 1
    ensures HasFirst(net)
  {
    assert Stage(net.nodes[a.node], n);
    assert a.ProfileExpires? && net.nodes[a.node].version == 1;
    assert First(net.nodes[a.node]);
  }

  lemma StepProvides(net: Network, a: Action, env: Platform, n: nat)
    requires NetStage(net, n) && Provided(net) && env.dispatch.AsWritten?
    ensures Provided(Perform(net, a, env))
  {
    var after := Perform(net, a, env);
    if HasFirst(net) {
      var j :| 0 <= j < |net.nodes| && First(net.nodes[j]);
      FirstStays(net, a, env, n, j);
      assert HasFirst(after);
    } else {
      forall i | 0 <= i < |after.nodes|
        ensures !Updating(after.nodes[i])
      {
        if Updating(after.nodes[i]) {
          UpdateCause(net, a, env, n, i);
        }
      }
      forall m | m in after.air && m.Profile?
        ensures m.version != 1
      {
        if m.version == 1 && m !in net.air {
          ProfileSender(net, a, env, n, m);
        }
      }
    }
  }

  lemma {:induction false} RunProvides(net: Network, acts: seq<Action>, env: Platform, n: nat)
    requires NetStage(net, n) && Provided(net) && env.dispatch.AsWritten?
    ensures Provided(Exec(net, acts, env))
    decreases |acts|
  {
    if acts != [] {
      StepKeepsStage(net, acts[0], env, n);
      StepProvides(net, acts[0], env, n);
      RunProvides(Perform(net, acts[0], env), acts[1..], env, n);
    }
  }

  /** What every reachable state of a coherent start offers. */
  lemma ReachableState(files: seq<seq<PageImage>>, versions: seq<u8>, n: nat, acts: seq<Action>, env: Platform)
      returns (origin: Origin)
    requires Coherent(files, versions, n) && 0 < n <= 128 && env.dispatch.AsWritten?
    ensures var net := Exec(Start(files, versions), acts, env);
            && OriginOf(origin, files, versions) && OriginShape(origin, n)
            && NetContent(net, origin, n) && NetStage(net, n) && Provided(net)
  {
    origin := CoherentOrigin(files, versions, n);
    StartHasContent(files, versions, n, origin);
    StartStage(files, versions, n);
    RunKeepsStage(Start(files, versions), acts, env, n);
    RunKeepsContent(Start(files, versions), acts, env, origin, n);
    StartProvides(files, versions, n);
    RunProvides(Start(files, versions), acts, env, n);
  }

  lemma StartProvides(files: seq<seq<PageImage>>, versions: seq<u8>, n: nat)
    requires |files| == |versions| && n > 0 && forall i :: 0 <= i < |files| ==> |files[i]| == n
    ensures Provided(Start(files, versions))
  {
    forall i | 0 <= i < |files|
      ensures !Updating(Start(files, versions).nodes[i])
    {
      assert AllComplete(Start(files, versions).nodes[i].pages);
    }
  }

  /** Node i has one whole object of the start, and goes by its version. */
  ghost predicate HasObject(net: Network, i: nat, files: seq<seq<PageImage>>, versions: seq<u8>) {
    && i < |net.nodes| && |files| == |versions|
    && AllComplete(net.nodes[i].pages) && net.nodes[i].version == net.nodes[i].updateVersion
    && exists j :: 0 <= j < |files| && versions[j] == net.nodes[i].version && net.nodes[i].file == files[j]
  }

  lemma UpdateCompletes(net: Network, i: nat, env: Platform, n: nat, origin: Origin) returns (more: seq<Action>)
    requires OriginShape(origin, n) && NetContent(net, origin, n) && NetStage(net, n) && Provided(net)
    requires i < |net.nodes| && Updating(net.nodes[i]) && n <= 128 && env.second > 0
    ensures 1 as u8 in origin
    ensures var last := Exec(net, more, env);
            Delivered(net, last, i, 1, n) && last.nodes[i].file == origin[1]
  {
    var j :| 0 <= j < |net.nodes| && First(net.nodes[j]);
    assert Stage(net.nodes[j], n) && Stage(net.nodes[i], n);
    assert NodeContent(net.nodes[j], origin, n) && net.nodes[j].pages[0].version == 1;
    more := ObjectDelivered(net, i, j, 0, env, 1, n, origin);
  }

  /** No node is ever stuck: from every reachable state, for every node, a run leads to that node
      having exactly the bytes of an object some node started with, in that object's version. */
  lemma NeverStuck(files: seq<seq<PageImage>>, versions: seq<u8>, n: nat, acts: seq<Action>, env: Platform, i: nat)
      returns (more: seq<Action>)
    requires Coherent(files, versions, n) && 0 < n <= 128 && env.dispatch.AsWritten? && env.second > 0
    requires i < |Exec(Start(files, versions), acts, env).nodes|
    ensures HasObject(Exec(Exec(Start(files, versions), acts, env), more, env), i, files, versions)
  {
    var net := Exec(Start(files, versions), acts, env);
    var origin := ReachableState(files, versions, n, acts, env);
    var s := net.nodes[i];
    assert Stage(s, n) && NodeContent(s, origin, n);
    if Settled(s) {
      more := [];
      assert s.pages[0].version in origin;
      AllHeldIsOrigin(s, origin, s.version, n);
      FromOrigin(origin, files, versions, s.version);
    } else {
      more := UpdateCompletes(net, i, env, n, origin);
      FromOrigin(origin, files, versions, 1);
    }
  }

  lemma FromOrigin(origin: Origin, files: seq<seq<PageImage>>, versions: seq<u8>, v: u8)
    requires OriginOf(origin, files, versions) && v in origin
    ensures exists j :: 0 <= j < |files| && versions[j] == v && origin[v] == files[j]
  {
  }

  // ------------------------------------------------------------------ from the start to everyone

  /** q holds version v, and has heard no advertisement that would keep it from sending. */
  ghost predicate Source(q: Node, v: u8, n: nat) {
    Holder(q, v, n) && q.advertisements == 0
  }

  /** The source of version v is j; i has not moved since the start, in version u. */
  ghost predicate Paired(net: Network, i: nat, j: nat, file: seq<PageImage>, u: u8, v: u8, n: nat, env: Platform) {
    && NetShape(net, n) && 0 < n <= 128 && env.second > 0 && i < |net.nodes| && j < |net.nodes| && i != j
    && Source(net.nodes[j], v, n) && u < v && |file| == n && net.nodes[i] == InitObject(file, u)
  }

  ghost predicate OnlyMoved(net: Network, next: Network, i: nat) {
    |next.nodes| == |net.nodes| && i < |net.nodes| && next.nodes == net.nodes[i := next.nodes[i]]
  }

  lemma AnnounceStep(net: Network, i: nat, j: nat, file: seq<PageImage>, u: u8, v: u8, n: nat, env: Platform)
    requires Paired(net, i, j, file, u, v, n, env)
    ensures var a := [SummaryExpires(i)];
            var next := Exec(net, a, env);
            && next.nodes == net.nodes && Summary(u, n) in next.air
            && Paired(next, i, j, file, u, v, n, env) && Disciplined(net, a, env)
  {
    ExecOne(net, SummaryExpires(i), env);
    StepKeepsShape(net, SummaryExpires(i), env, n);
    HighestAvailableIs(net.nodes[i].pages, n);
    assert net.nodes[i := net.nodes[i]] == net.nodes;
  }

  lemma HearsOlder(q: Node, u: u8, v: u8, n: nat, env: Platform)
    requires Source(q, v, n) && u < v && env.second > 0
    ensures var t := OnSummary(q, Summary(u, n), 0, 0, env);
            Source(t, v, n) && t.profileDue
  {
    SummaryKeepsShape(q, Summary(u, n), 0, 0, env, n);
  }

  lemma HearStep(net: Network, i: nat, j: nat, file: seq<PageImage>, u: u8, v: u8, n: nat, env: Platform)
    requires Paired(net, i, j, file, u, v, n, env) && Summary(u, n) in net.air
    ensures var a := [Deliver(j, Summary(u, n), 0, 0, true)];
            var next := Exec(net, a, env);
            && OnlyMoved(net, next, j) && next.nodes[j].profileDue
            && Paired(next, i, j, file, u, v, n, env) && Disciplined(net, a, env)
  {
    var a := Deliver(j, Summary(u, n), 0, 0, true);
    ExecOne(net, a, env);
    StepKeepsShape(net, a, env, n);
    HearsOlder(net.nodes[j], u, v, n, env);
  }

  function ProfileOf(v: u8, n: nat): Msg {
    Profile(v, seq(n, _ => v))
  }

  lemma OfferStep(net: Network, i: nat, j: nat, file: seq<PageImage>, u: u8, v: u8, n: nat, env: Platform)
    requires Paired(net, i, j, file, u, v, n, env) && net.nodes[j].profileDue
    ensures var a := [ProfileExpires(j)];
            var next := Exec(net, a, env);
            && OnlyMoved(net, next, j) && ProfileOf(v, n) in next.air
            && Paired(next, i, j, file, u, v, n, env) && Disciplined(net, a, env)
  {
    ExecOne(net, ProfileExpires(j), env);
    StepKeepsShape(net, ProfileExpires(j), env, n);
    assert Versions(net.nodes[j].pages) == seq(n, _ => v);
  }

  lemma Adopts(s: Node, file: seq<PageImage>, u: u8, v: u8, n: nat)
    requires 0 < n && u < v && |file| == n && s == InitObject(file, u) && NodeShape(s, n)
    ensures var t := OnProfile(s, ProfileOf(v, n), true);
            Wanting(t, v, n) && t.updateVersion == v
  {
    var m := ProfileOf(v, n);
    ProfileKeepsShape(s, m, true, n);
    FreshTable(MergedPages(s.pages, m.vector));
  }

  lemma AdoptStep(net: Network, i: nat, j: nat, file: seq<PageImage>, u: u8, v: u8, n: nat, env: Platform)
    requires Paired(net, i, j, file, u, v, n, env) && ProfileOf(v, n) in net.air && Passes(ProfileOf(v, n), env)
    ensures var a := [Deliver(i, ProfileOf(v, n), 0, 0, true)];
            var next := Exec(net, a, env);
            && OnlyMoved(net, next, i) && next.nodes[i].updateVersion == v
            && Matched(next, i, j, env, v, n) && Disciplined(net, a, env)
  {
    var a := Deliver(i, ProfileOf(v, n), 0, 0, true);
    ExecOne(net, a, env);
    StepKeepsShape(net, a, env, n);
    Adopts(net.nodes[i], file, u, v, n);
  }

  /** A summary to the source, its profile back: i then wants version v. */
  lemma Told(net: Network, i: nat, j: nat, file: seq<PageImage>, u: u8, v: u8, n: nat, env: Platform)
      returns (acts: seq<Action>)
    requires Paired(net, i, j, file, u, v, n, env) && Passes(ProfileOf(v, n), env)
    ensures var next := Exec(net, acts, env);
            && OthersStay(net, next, i, j) && Source(next.nodes[j], v, n) && next.nodes[i].updateVersion == v
            && Matched(next, i, j, env, v, n) && Disciplined(net, acts, env)
  {
    var a := [SummaryExpires(i)];
    AnnounceStep(net, i, j, file, u, v, n, env);
    var n1 := Exec(net, a, env);
    var b := [Deliver(j, Summary(u, n), 0, 0, true)];
    HearStep(n1, i, j, file, u, v, n, env);
    var n2 := Exec(n1, b, env);
    OfferStep(n2, i, j, file, u, v, n, env);
    var n3 := Exec(n2, [ProfileExpires(j)], env);
    AdoptStep(n3, i, j, file, u, v, n, env);
    acts := FourParts(net, a, b, [ProfileExpires(j)], [Deliver(i, ProfileOf(v, n), 0, 0, true)], env);
  }

  /** From the first summary to the last packet: i has the source's object. */
  lemma SpreadOne(net: Network, i: nat, j: nat, file: seq<PageImage>, u: u8, v: u8, n: nat,
                  env: Platform, origin: Origin)
      returns (acts: seq<Action>)
    requires Paired(net, i, j, file, u, v, n, env) && Passes(ProfileOf(v, n), env)
    requires OriginShape(origin, n) && NetContent(net, origin, n) && v in origin
    ensures var last := Exec(net, acts, env);
            && OthersStay(net, last, i, j) && NetContent(last, origin, n) && Source(last.nodes[j], v, n)
            && last.nodes[i].version == v && Whole(last.nodes[i], v, n) && last.nodes[i].file == origin[v]
  {
    acts := Told(net, i, j, file, u, v, n, env);
    RunKeepsContent(net, acts, env, origin, n);
    var next := Exec(net, acts, env);
    var more := ObjectDelivered(next, i, j, 0, env, v, n, origin);
    ExecConcat(net, acts, more, env);
    acts := acts + more;
  }

  /** The nodes before k are served: they have version v and its bytes, unless they started with
      a version that is no older.  The others have not moved. */
  ghost predicate Served(net: Network, files: seq<seq<PageImage>>, versions: seq<u8>, j: nat, k: nat, n: nat)
    requires |files| == |versions| && j < |files|
  {
    && |net.nodes| == |files| && Source(net.nodes[j], versions[j], n)
    && (forall i :: 0 <= i < |files| && i != j && (k <= i || versions[i] >= versions[j]) ==>
          net.nodes[i] == InitObject(files[i], versions[i]))
    && (forall i :: 0 <= i < k && i < |files| && versions[i] < versions[j] ==>
          && net.nodes[i].version == versions[j] && Whole(net.nodes[i], versions[j], n)
          && net.nodes[i].file == files[j])
  }

  lemma {:induction false} ServeFrom(net: Network, files: seq<seq<PageImage>>, versions: seq<u8>,
                                     j: nat, k: nat, n: nat,
                                     env: Platform, origin: Origin)
      returns (acts: seq<Action>)
    requires Coherent(files, versions, n) && OriginOf(origin, files, versions) && OriginShape(origin, n)
    requires 0 < n <= 128 && env.second > 0 && j < |files| && k <= |files| && Passes(ProfileOf(versions[j], n), env)
    requires NetContent(net, origin, n) && Served(net, files, versions, j, k, n)
    ensures Served(Exec(net, acts, env), files, versions, j, |files|, n)
    decreases |files| - k
  {
    if k == |files| {
      acts := [];
    } else if k == j || versions[k] >= versions[j] {
      ServedSkip(net, files, versions, j, k, n);
      acts := ServeFrom(net, files, versions, j, k + 1, n, env, origin);
    } else {
      acts := SpreadOne(net, k, j, files[k], versions[k], versions[j], n, env, origin);
      var next := Exec(net, acts, env);
      ServedNext(net, next, files, versions, j, k, n);
      var more := ServeFrom(next, files, versions, j, k + 1, n, env, origin);
      ExecConcat(net, acts, more, env);
      acts := acts + more;
    }
  }

  lemma ServedSkip(net: Network, files: seq<seq<PageImage>>, versions: seq<u8>, j: nat, k: nat, n: nat)
    requires |files| == |versions| && j < |files| && k < |files| && Served(net, files, versions, j, k, n)
    requires k == j || versions[k] >= versions[j]
    ensures Served(net, files, versions, j, k + 1, n)
  {
  }

  lemma ServedNext(net: Network, next: Network, files: seq<seq<PageImage>>, versions: seq<u8>, j: nat, k: nat, n: nat)
    requires |files| == |versions| && j < |files| && k < |files| && Served(net, files, versions, j, k, n)
    requires k != j && versions[k] < versions[j] && OthersStay(net, next, k, j) && Source(next.nodes[j], versions[j], n)
    requires next.nodes[k].version == versions[j] && Whole(next.nodes[k], versions[j], n)
    requires next.nodes[k].file == files[j]
    ensures Served(next, files, versions, j, k + 1, n)
  {
  }

  /** Dissemination: if the dispatcher lets node j's profile through, a run from the start gives
      every older node the version and the bytes of node j. */
  lemma Dissemination(files: seq<seq<PageImage>>, versions: seq<u8>, j: nat, n: nat, env: Platform)
      returns (acts: seq<Action>)
    requires Coherent(files, versions, n) && 0 < n <= 128 && env.second > 0 && j < |files|
    requires Passes(ProfileOf(versions[j], n), env)
    ensures var last := Exec(Start(files, versions), acts, env);
            && |last.nodes| == |files|
            && forall i :: 0 <= i < |files| && versions[i] < versions[j] ==>
                 && last.nodes[i].version == versions[j] && AllComplete(last.nodes[i].pages)
                 && last.nodes[i].file == files[j]
  {
    var origin := CoherentOrigin(files, versions, n);
    StartHasContent(files, versions, n, origin);
    acts := ServeFrom(Start(files, versions), files, versions, j, 0, n, env, origin);
  }

  /** ... and only then can an older node ever get that version. */
  lemma SpreadsIff(files: seq<seq<PageImage>>, versions: seq<u8>, i: nat, j: nat, n: nat, env: Platform)
    requires Coherent(files, versions, n) && 0 < n <= 128 && env.second > 0
    requires i < |files| && j < |files| && versions[i] < versions[j]
    ensures (exists acts :: HasVersion(Exec(Start(files, versions), acts, env), i, versions[j]))
       <==> Passes(ProfileOf(versions[j], n), env)
  {
    if Passes(ProfileOf(versions[j], n), env) {
      var acts := Dissemination(files, versions, j, n, env);
      assert HasVersion(Exec(Start(files, versions), acts, env), i, versions[j]);
    } else {
      ProfilePassesIff(ProfileOf(versions[j], n), env);
      StartStage(files, versions, n);
      forall acts
        ensures !HasVersion(Exec(Start(files, versions), acts, env), i, versions[j])
      {
        VersionsStay(Start(files, versions), acts, env, n, i);
        RunKeepsStage(Start(files, versions), acts, env, n);
        assert Stage(Exec(Start(files, versions), acts, env).nodes[i], n);
      }
    }
  }

  ghost predicate HasVersion(net: Network, i: nat, v: u8) {
    i < |net.nodes| && net.nodes[i].version == v
  }
}
