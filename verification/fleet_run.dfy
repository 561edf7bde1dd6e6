/**
 * The main block of the controller: for every cluster of the configuration,
 * connect, gate on the sync status when the cluster has more than one
 * device and a change was asked for, report the virtual servers, enable or
 * disable them, report them again and synchronise the cluster. The run
 * stops at the first cluster that exits or raises.
 */
module FleetRun {
  import opened Optional
  import opened Fleet
  import opened FleetConnect
  import opened FleetSync
  import opened FleetVirtuals

  /** What the command line asks for; --enable and --disable exclude each other. */
  datatype Mode = PrintOnly | EnableMode | DisableMode

  /** The mode chosen by the --enable and --disable flags. */
  function ModeOf(enable: bool, disable: bool): (m: Mode)
    requires !(enable && disable)
    ensures m == PrintOnly <==> !enable && !disable
    ensures m == EnableMode <==> enable
    ensures m == DisableMode <==> disable
  {
    if enable then EnableMode
    else if disable then DisableMode
    else PrintOnly
  }

  /** One entry of the configuration file. "dgrp" may be absent. */
  datatype Cluster = Cluster(devs: Devs, virts: seq<string>, dgrp: Option<string>)

  /** What the endpoints answer while one cluster is processed: one outcome
      per candidate device, the status read by the gate, what the virtual
      servers' configuration is before and after the change, and the
      status reads of the sync loop. */
  datatype Replies = Replies(
    connect: seq<Outcome>,
    gate: string,
    before: string -> Flags,
    after: string -> Flags,
    poll: nat -> string)

  /** An exception that escapes to the top level and ends the run. */
  datatype Fault =
    | ConnectFault(error: Outcome) // the single attempt for a plain-string "devs" failed
    | NoSyncGroup                  // KeyError: the cluster has no "dgrp"

  /** How a cluster, or the whole run, ends. */
  datatype Stop = Done | Exit(code: int) | Raise(fault: Fault)

  datatype Step = Step(trace: seq<Action>, stop: Stop)

  /** The cluster test of the main block: len() of "devs" is more than 1. */
  predicate Clustered(c: Cluster)
  {
    DevsLen(c.devs) > 1
  }

  predicate Answers(c: Cluster, r: Replies)
  {
    |r.connect| == |Candidates(c.devs)|
  }

  function Attempts(devices: seq<string>): seq<Action>
  {
    seq(|devices|, i requires 0 <= i < |devices| => Attempt(devices[i]))
  }

  function Changes(mode: Mode, virts: seq<string>): seq<Action>
  {
    match mode
    case PrintOnly => []
    case EnableMode => Enables(virts)
    case DisableMode => Disables(virts)
  }

  /** Prefixes a trace to what follows it. */
  function Then(t: seq<Action>, s: Step): Step
  {
    Step(t + s.trace, s.stop)
  }

  /** The main block's work on one cluster once the gate is passed: report,
      change, report again and synchronise. */
  function Work(mode: Mode, c: Cluster, r: Replies): Step
  {
    var shown := States(c.virts, r.before);
    if mode == PrintOnly then Step(shown, Done)
    else
      var body := shown + Changes(mode, c.virts) + States(c.virts, r.after);
      if !Clustered(c) then Step(body, Done)
      else match c.dgrp
        case None => Step(body, Raise(NoSyncGroup))
        case Some(g) => Step(body + SyncTrace(g, r.poll), Done)
  }

  /** The main block's work on one cluster once a session is open: a
      cluster reads its sync status first, and a change on a cluster that
      is not green exits with code 1. */
  function Session(mode: Mode, c: Cluster, r: Replies): Step
  {
    if !Clustered(c) then Work(mode, c, r)
    else if mode != PrintOnly && r.gate != Green then Step([ReadSync(r.gate)], Exit(1))
    else Then([ReadSync(r.gate)], Work(mode, c, r))
  }

  /** The main block's work on one cluster. A cluster ends the run only with
      exit code 1 or an escaping exception. */
  function ClusterRun(mode: Mode, c: Cluster, r: Replies): (s: Step)
    requires Answers(c, r)
    ensures s.stop == Done || s.stop == Exit(1) || s.stop.Raise?
  {
    var conn := ConnectSpec(c.devs, r.connect);
    var tried := Attempts(Tried(c.devs, conn));
    match conn
    case Connected(_) => Then(tried, Session(mode, c, r))
    case AuthFailed(_) => Step(tried, Exit(1))
    case NoneReachable => Step(tried, Exit(1))
    case Raised(e) => Step(tried, Raise(ConnectFault(e)))
  }

  predicate AllAnswered(cs: seq<Cluster>, rs: seq<Replies>)
  {
    |rs| == |cs| && forall i :: 0 <= i < |cs| ==> Answers(cs[i], rs[i])
  }

  /** What each cluster of the configuration would do if the loop reached it. */
  function Outcomes(mode: Mode, cs: seq<Cluster>, rs: seq<Replies>): (steps: seq<Step>)
    requires AllAnswered(cs, rs)
    ensures |steps| == |cs|
    ensures forall i :: 0 <= i < |cs| ==> steps[i].stop != Exit(0)
  {
    seq(|cs|, i requires 0 <= i < |cs| => ClusterRun(mode, cs[i], rs[i]))
  }

  /** Runs the clusters' outcomes from the i-th on: the run ends with exit
      code 0 after the last one, or with the first one that does not finish. */
  function Chain(steps: seq<Step>, i: nat): Step
    requires i <= |steps|
    decreases |steps| - i
  {
    if i == |steps| then Step([], Exit(0))
    else if steps[i].stop != Done then steps[i]
    else Then(steps[i].trace, Chain(steps, i + 1))
  }

  /** The loop over the clusters, from the i-th on. */
  function RunFrom(mode: Mode, cs: seq<Cluster>, rs: seq<Replies>, i: nat): Step
    requires AllAnswered(cs, rs) && i <= |cs|
  {
    Chain(Outcomes(mode, cs, rs), i)
  }

  /** One turn of the loop over the clusters' outcomes. */
  lemma ChainNext(trace: seq<Action>, steps: seq<Step>, i: nat)
    requires i < |steps|
    ensures steps[i].stop != Done ==> Then(trace, Chain(steps, i)) == Step(trace + steps[i].trace, steps[i].stop)
    ensures steps[i].stop == Done ==> Then(trace, Chain(steps, i)) == Then(trace + steps[i].trace, Chain(steps, i + 1))
  {
    var rest := Chain(steps, i + 1);
    assert trace + (steps[i].trace + rest.trace) == (trace + steps[i].trace) + rest.trace;
  }

  /** A cluster whose "devs" has length 1 or less never reads or waits for
      its sync status and is never synchronised, in any mode. */
  lemma StandaloneNeverSyncs(mode: Mode, c: Cluster, r: Replies)
    requires Answers(c, r) && !Clustered(c)
    ensures forall a :: a in ClusterRun(mode, c, r).trace ==> !a.ReadSync? && !a.SyncCmd? && !a.Sleep?
  {
  }

  /** Asking for a change on a cluster whose status is not green reads the
      status and exits with code 1 before any virtual server is loaded or
      updated. */
  lemma UnsyncedClusterAborts(mode: Mode, c: Cluster, r: Replies)
    requires Answers(c, r) && ConnectSpec(c.devs, r.connect).Connected?
    requires Clustered(c) && mode != PrintOnly && r.gate != Green
    ensures ClusterRun(mode, c, r) ==
      Step(Attempts(Tried(c.devs, ConnectSpec(c.devs, r.connect))) + [ReadSync(r.gate)], Exit(1))
    ensures forall a :: a in ClusterRun(mode, c, r).trace ==> !a.Report? && !IsMutation(a)
  {
  }

  /** Print-only mode updates nothing and synchronises nothing, and once
      connected it finishes the cluster whatever the sync status is. */
  lemma PrintOnlyChangesNothing(c: Cluster, r: Replies)
    requires Answers(c, r)
    ensures forall a :: a in ClusterRun(PrintOnly, c, r).trace ==> !IsMutation(a) && !a.SyncCmd? && !a.Sleep?
    ensures ConnectSpec(c.devs, r.connect).Connected? ==> ClusterRun(PrintOnly, c, r).stop == Done
  {
  }

  lemma WorkMutations(mode: Mode, c: Cluster, r: Replies)
    ensures Mutations(Work(mode, c, r).trace) == Changes(mode, c.virts)
  {
    var before := States(c.virts, r.before);
    var after := States(c.virts, r.after);
    var changes := Changes(mode, c.virts);
    MutationsNone(before);
    if mode != PrintOnly {
      MutationsNone(after);
      MutationsAll(changes);
      MutationsAppend(before, changes);
      MutationsAppend(before + changes, after);
      var body := before + changes + after;
      if Clustered(c) && c.dgrp.Some? {
        var tail := SyncTrace(c.dgrp.value, r.poll);
        SyncCommandOnce(c.dgrp.value, r.poll);
        MutationsNone(tail);
        MutationsAppend(body, tail);
      }
    }
  }

  /** Once the gate is passed, enable mode updates every listed virtual
      server with enabled, disable mode with disabled, in list order, each
      exactly once, and nothing else is updated. */
  lemma ChangesEveryVirtual(mode: Mode, c: Cluster, r: Replies)
    requires Answers(c, r) && ConnectSpec(c.devs, r.connect).Connected?
    requires !Clustered(c) || r.gate == Green
    ensures Mutations(ClusterRun(mode, c, r).trace) == Changes(mode, c.virts)
  {
    var tried := Attempts(Tried(c.devs, ConnectSpec(c.devs, r.connect)));
    var work := Work(mode, c, r).trace;
    WorkMutations(mode, c, r);
    MutationsNone(tried);
    if Clustered(c) {
      MutationsNone([ReadSync(r.gate)]);
      MutationsAppend([ReadSync(r.gate)], work);
      assert Session(mode, c, r).trace == [ReadSync(r.gate)] + work;
    }
    MutationsAppend(tried, Session(mode, c, r).trace);
  }

  lemma SyncCmdIn(group: string, poll: nat -> string, g: string)
    ensures SyncCmd(g) in SyncTrace(group, poll) <==> g == group
  {
    SyncCommandOnce(group, poll);
  }

  lemma {:induction false} WorkSyncs(mode: Mode, c: Cluster, r: Replies, g: string)
    ensures SyncCmd(g) in Work(mode, c, r).trace <==>
      mode != PrintOnly && Clustered(c) && c.dgrp == Some(g)
  {
    var before := States(c.virts, r.before);
    var after := States(c.virts, r.after);
    var changes := Changes(mode, c.virts);
    assert SyncCmd(g) !in before + changes + after;
    if mode != PrintOnly && Clustered(c) && c.dgrp.Some? {
      SyncCmdIn(c.dgrp.value, r.poll, g);
    }
  }

  /** A cluster is synchronised to group g exactly when it was connected,
      a change was asked for, its "devs" has length more than 1, its status
      read green and its "dgrp" is g. A plain-string "devs" of two or more
      characters counts as a cluster here. */
  lemma SyncIffChangedCluster(mode: Mode, c: Cluster, r: Replies, g: string)
    requires Answers(c, r)
    ensures SyncCmd(g) in ClusterRun(mode, c, r).trace <==>
      ConnectSpec(c.devs, r.connect).Connected? && mode != PrintOnly &&
      Clustered(c) && r.gate == Green && c.dgrp == Some(g)
  {
    var conn := ConnectSpec(c.devs, r.connect);
    var tried := Attempts(Tried(c.devs, conn));
    assert SyncCmd(g) !in tried;
    if conn.Connected? {
      WorkSyncs(mode, c, r, g);
      if Clustered(c) && !(mode != PrintOnly && r.gate != Green) {
        assert Session(mode, c, r).trace == [ReadSync(r.gate)] + Work(mode, c, r).trace;
      }
    }
  }

  /** In a trace, every update comes before every config-sync command. */
  ghost predicate SyncAfterChanges(t: seq<Action>)
  {
    forall i, j :: 0 <= i < |t| && 0 <= j < |t| && t[i].SyncCmd? && IsMutation(t[j]) ==> j < i
  }

  lemma PrefixKeepsOrder(pre: seq<Action>, t: seq<Action>)
    requires forall a :: a in pre ==> !a.SyncCmd? && !IsMutation(a)
    requires SyncAfterChanges(t)
    ensures SyncAfterChanges(pre + t)
  {
    var u := pre + t;
    assert forall i :: 0 <= i < |pre| ==> u[i] == pre[i] && pre[i] in pre;
    assert forall i :: |pre| <= i < |u| ==> u[i] == t[i - |pre|];
  }

  /** Updates and sync commands fall on either side of a boundary. */
  lemma SplitKeepsOrder(body: seq<Action>, tail: seq<Action>)
    requires forall a :: a in body ==> !a.SyncCmd?
    requires forall a :: a in tail ==> !IsMutation(a)
    ensures SyncAfterChanges(body + tail)
  {
    var u := body + tail;
    assert forall i :: 0 <= i < |body| ==> u[i] == body[i] && body[i] in body;
    assert forall i :: |body| <= i < |u| ==> u[i] == tail[i - |body|] && tail[i - |body|] in tail;
  }

  lemma WorkOrder(mode: Mode, c: Cluster, r: Replies)
    ensures SyncAfterChanges(Work(mode, c, r).trace)
  {
    var w := Work(mode, c, r).trace;
    if mode != PrintOnly && Clustered(c) && c.dgrp.Some? {
      var body := States(c.virts, r.before) + Changes(mode, c.virts) + States(c.virts, r.after);
      var tail := SyncTrace(c.dgrp.value, r.poll);
      SyncCommandOnce(c.dgrp.value, r.poll);
      SplitKeepsOrder(body, tail);
    } else {
      SplitKeepsOrder(w, []);
      assert w + [] == w;
    }
  }

  /** A cluster is synchronised only after all its virtual servers were updated. */
  lemma SyncFollowsChanges(mode: Mode, c: Cluster, r: Replies)
    requires Answers(c, r)
    ensures SyncAfterChanges(ClusterRun(mode, c, r).trace)
  {
    var conn := ConnectSpec(c.devs, r.connect);
    var tried := Attempts(Tried(c.devs, conn));
    if conn.Connected? {
      WorkOrder(mode, c, r);
      if Clustered(c) && !(mode != PrintOnly && r.gate != Green) {
        PrefixKeepsOrder([ReadSync(r.gate)], Work(mode, c, r).trace);
      } else if Clustered(c) {
        assert SyncAfterChanges([ReadSync(r.gate)]);
      }
      PrefixKeepsOrder(tried, Session(mode, c, r).trace);
    } else {
      assert forall i :: 0 <= i < |tried| ==> tried[i].Attempt?;
    }
  }

  /** The len() quirk: a plain-string "devs" of two or more characters gets
      a single connection attempt, yet is gated like a cluster. */
  lemma PlainHostGatedAsCluster(mode: Mode, host: string, virts: seq<string>, dgrp: Option<string>, r: Replies)
    requires |host| >= 2 && r.connect == [Ok]
    requires mode != PrintOnly && r.gate != Green
    ensures ClusterRun(mode, Cluster(Host(host), virts, dgrp), r) ==
      Step([Attempt(host), ReadSync(r.gate)], Exit(1))
  {
    var c := Cluster(Host(host), virts, dgrp);
    assert Tried(c.devs, Connected(0)) == [host];
    assert Attempts([host]) == [Attempt(host)];
  }

  lemma {:induction false} ChainCompletes(steps: seq<Step>, i: nat)
    requires i <= |steps|
    requires forall j :: 0 <= j < |steps| ==> steps[j].stop != Exit(0)
    ensures Chain(steps, i).stop == Exit(0) <==> forall j :: i <= j < |steps| ==> steps[j].stop == Done
    decreases |steps| - i
  {
    if i < |steps| {
      ChainCompletes(steps, i + 1);
    }
  }

  lemma {:induction false} ChainStops(steps: seq<Step>, i: nat, k: nat)
    requires i <= k < |steps|
    requires forall j :: i <= j < k ==> steps[j].stop == Done
    requires steps[k].stop != Done
    ensures Chain(steps, i) == Chain(steps[..k + 1], i)
    ensures Chain(steps, i).stop == steps[k].stop
    decreases k - i
  {
    assert steps[..k + 1][i] == steps[i];
    if i < k {
      ChainStops(steps, i + 1, k);
    }
  }

  /** The run finishes with exit code 0 exactly when every cluster from the
      i-th on finishes. */
  lemma RunCompletes(mode: Mode, cs: seq<Cluster>, rs: seq<Replies>, i: nat)
    requires AllAnswered(cs, rs) && i <= |cs|
    ensures RunFrom(mode, cs, rs, i).stop == Exit(0) <==>
      forall j :: i <= j < |cs| ==> ClusterRun(mode, cs[j], rs[j]).stop == Done
  {
    var steps := Outcomes(mode, cs, rs);
    assert forall j :: i <= j < |cs| ==> steps[j] == ClusterRun(mode, cs[j], rs[j]);
    ChainCompletes(steps, i);
  }

  /** The first cluster that does not finish ends the whole run with its own
      exit code or exception, and no later cluster is touched: the run is the
      same as on the clusters up to that one. */
  lemma RunStopsAtFirstFailure(mode: Mode, cs: seq<Cluster>, rs: seq<Replies>, i: nat, k: nat)
    requires AllAnswered(cs, rs) && i <= k < |cs|
    requires forall j :: i <= j < k ==> ClusterRun(mode, cs[j], rs[j]).stop == Done
    requires ClusterRun(mode, cs[k], rs[k]).stop != Done
    ensures AllAnswered(cs[..k + 1], rs[..k + 1])
    ensures RunFrom(mode, cs, rs, i) == RunFrom(mode, cs[..k + 1], rs[..k + 1], i)
    ensures RunFrom(mode, cs, rs, i).stop == ClusterRun(mode, cs[k], rs[k]).stop
  {
    var steps := Outcomes(mode, cs, rs);
    assert forall j :: 0 <= j <= k ==> cs[..k + 1][j] == cs[j] && rs[..k + 1][j] == rs[j];
    assert Outcomes(mode, cs[..k + 1], rs[..k + 1]) == steps[..k + 1];
    ChainStops(steps, i, k);
  }

  lemma ScenarioConnects()
    ensures ConnectSpec(Hosts(["a", "b"]), [ConnErr, Ok]) == Connected(1)
    ensures Attempts(Tried(Hosts(["a", "b"]), Connected(1))) == [Attempt("a"), Attempt("b")]
  {
    assert [ConnErr, Ok][1..] == [Ok];
    assert Tried(Hosts(["a", "b"]), Connected(1)) == ["a", "b"];
  }

  lemma ScenarioWork(c: Cluster, r: Replies)
    requires c == Cluster(Hosts(["a", "b"]), ["vs1", "vs2"], Some("g1"))
    requires r.after("vs1").enabled && r.after("vs2").enabled
    ensures Work(EnableMode, c, r) == Step(
      [Report("vs1", ConfiguredState(r.before("vs1"))), Report("vs2", ConfiguredState(r.before("vs2"))),
       Enable("vs1"), Enable("vs2"),
       Report("vs1", Enabled), Report("vs2", Enabled)] + SyncTrace("g1", r.poll),
      Done)
  {
    var shown := [Report("vs1", ConfiguredState(r.before("vs1"))), Report("vs2", ConfiguredState(r.before("vs2")))];
    var changed := [Enable("vs1"), Enable("vs2")];
    var again := [Report("vs1", Enabled), Report("vs2", Enabled)];
    assert States(c.virts, r.before) == shown;
    assert Enables(c.virts) == changed;
    assert States(c.virts, r.after) == again;
  }

  /** One cluster of two devices where the first is unreachable, enabled
      while green: both devices are attempted, the second is used, the sync
      status is read, and the cluster's work follows (ScenarioWork spells
      that work out). */
  lemma EnableScenario(before: string -> Flags, after: string -> Flags, poll: nat -> string)
    ensures
      var c := Cluster(Hosts(["a", "b"]), ["vs1", "vs2"], Some("g1"));
      var r := Replies([ConnErr, Ok], "green", before, after, poll);
      ClusterRun(EnableMode, c, r) == Then([Attempt("a"), Attempt("b"), ReadSync("green")], Work(EnableMode, c, r))
  {
    var c := Cluster(Hosts(["a", "b"]), ["vs1", "vs2"], Some("g1"));
    var r := Replies([ConnErr, Ok], "green", before, after, poll);
    ScenarioConnects();
    assert Clustered(c);
    var w := Work(EnableMode, c, r);
    assert Session(EnableMode, c, r) == Step([ReadSync("green")] + w.trace, w.stop);
    assert [Attempt("a"), Attempt("b")] + ([ReadSync("green")] + w.trace) ==
      [Attempt("a"), Attempt("b"), ReadSync("green")] + w.trace;
  }

  /** Reporting, changing and synchronising one cluster (main block, after the gate). */
  method DoWork(mode: Mode, c: Cluster, r: Replies) returns (trace: seq<Action>, stop: Stop)
    ensures Step(trace, stop) == Work(mode, c, r)
  {
    trace := PrintStates(c.virts, r.before);
    stop := Done;
    if mode == PrintOnly {
      return;
    }
    var changed;
    if mode == EnableMode {
      changed := EnableVirts(c.virts);
    } else {
      changed := DisableVirts(c.virts);
    }
    var shown := PrintStates(c.virts, r.after);
    trace := trace + changed + shown;
    if DevsLen(c.devs) > 1 {
      if c.dgrp.None? {
        stop := Raise(NoSyncGroup);
        return;
      }
      var synced, _ := Sync(c.dgrp.value, r.poll);
      trace := trace + synced;
    }
  }

  /** The main block's work on one cluster once connected. */
  method Serve(mode: Mode, c: Cluster, r: Replies) returns (trace: seq<Action>, stop: Stop)
    ensures Step(trace, stop) == Session(mode, c, r)
  {
    var gate := [];
    if DevsLen(c.devs) > 1 {
      var status := r.gate;
      gate := [ReadSync(status)];
      if mode != PrintOnly && status != Green {
        trace, stop := gate, Exit(1);
        return;
      }
    }
    var work;
    work, stop := DoWork(mode, c, r);
    trace := gate + work;
    assert !Clustered(c) ==> trace == work;
  }

  /** The body of the main loop for one cluster. */
  method ProcessCluster(mode: Mode, c: Cluster, r: Replies) returns (trace: seq<Action>, stop: Stop)
    requires Answers(c, r)
    ensures Step(trace, stop) == ClusterRun(mode, c, r)
  {
    var conn, tried := Connect(c.devs, r.connect);
    if !conn.Connected? {
      trace := Attempts(tried);
      stop := if conn.Raised? then Raise(ConnectFault(conn.error)) else Exit(1);
      return;
    }
    var served;
    served, stop := Serve(mode, c, r);
    trace := Attempts(tried) + served;
  }

  /** The main loop over the clusters of the configuration. */
  method Run(mode: Mode, clusters: seq<Cluster>, replies: seq<Replies>) returns (trace: seq<Action>, stop: Stop)
    requires AllAnswered(clusters, replies)
    ensures Step(trace, stop) == RunFrom(mode, clusters, replies, 0)
  {
    trace := [];
    ghost var steps := Outcomes(mode, clusters, replies);
    var i := 0;
    while i < |clusters|
      invariant 0 <= i <= |clusters|
      invariant Chain(steps, 0) == Then(trace, Chain(steps, i))
    {
      var t, s := ProcessCluster(mode, clusters[i], replies[i]);
      assert steps[i] == ClusterRun(mode, clusters[i], replies[i]);
      ChainNext(trace, steps, i);
      if s != Done {
        trace, stop := trace + t, s;
        return;
      }
      trace := trace + t;
      i := i + 1;
    }
    stop := Exit(0);
  }
}
