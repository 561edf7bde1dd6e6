/**
 * `sync`: run "config-sync to-group <group>" once, then poll the sync status
 * with a growing back-off until it reads "green" or the counter reaches 12,
 * and finally read and report the status once more. The status reads are
 * given as `poll`: the i-th read of the loop returns poll(i).
 */
module FleetSync {
  import opened Fleet

  const Green := "green"
  const MaxWaits := 12

  /** The value the counter `wait` has when the loop stops, if it has
      reached `wait` so far: the first round whose read is green, or 12. */
  function Waits(poll: nat -> string, wait: nat): (k: nat)
    requires wait <= MaxWaits
    ensures wait <= k <= MaxWaits
    decreases MaxWaits - wait
  {
    if poll(wait) == Green || wait == MaxWaits then wait else Waits(poll, wait + 1)
  }

  /** The loop sleeps only after reads that are not green, and stops before
      the 12th sleep only on a green read. */
  lemma {:induction false} WaitsReads(poll: nat -> string, wait: nat)
    requires wait <= MaxWaits
    ensures forall j :: wait <= j < Waits(poll, wait) ==> poll(j) != Green
    ensures Waits(poll, wait) < MaxWaits ==> poll(Waits(poll, wait)) == Green
    decreases MaxWaits - wait
  {
    if poll(wait) != Green && wait < MaxWaits {
      WaitsReads(poll, wait + 1);
    }
  }

  /** The loop stops at the first round whose read is green, or at 12:
      any count with that property is the one Waits gives. */
  lemma {:induction false} WaitsStop(poll: nat -> string, wait: nat, k: nat)
    requires wait <= k <= MaxWaits
    requires forall j :: wait <= j < k ==> poll(j) != Green
    requires k < MaxWaits ==> poll(k) == Green
    ensures Waits(poll, wait) == k
    decreases k - wait
  {
    if wait < k {
      WaitsStop(poll, wait + 1, k);
    }
  }

  /** The first k rounds of the loop: round n reads a status that is not
      green and then sleeps n + 1 half-seconds. */
  function Polls(poll: nat -> string, k: nat): (t: seq<Action>)
    ensures |t| == 2 * k
  {
    if k == 0 then [] else Polls(poll, k - 1) + [ReadSync(poll(k - 1)), Sleep(k)]
  }

  lemma PollsNext(poll: nat -> string, k: nat)
    ensures Polls(poll, k + 1) == Polls(poll, k) + [ReadSync(poll(k)), Sleep(k + 1)]
  {
  }

  /** Everything `sync` does, in order. */
  function SyncTrace(group: string, poll: nat -> string): seq<Action>
  {
    var k := Waits(poll, 0);
    [SyncCmd(group)] + Polls(poll, k) + [ReadSync(poll(k)), ReadSync(poll(k + 1))]
  }

  lemma {:induction false} PollsAt(poll: nat -> string, k: nat, n: nat)
    requires n < k
    ensures Polls(poll, k)[2 * n] == ReadSync(poll(n))
    ensures Polls(poll, k)[2 * n + 1] == Sleep(n + 1)
  {
    if n < k - 1 {
      PollsAt(poll, k - 1, n);
    }
  }

  /** 1 + 2 + ... + k. */
  function Triangle(k: nat): nat
  {
    if k == 0 then 0 else Triangle(k - 1) + k
  }

  lemma {:induction false} TriangleMonotone(k: nat, m: nat)
    requires k <= m
    ensures Triangle(k) <= Triangle(m)
  {
    if k < m {
      TriangleMonotone(k, m - 1);
    }
  }

  lemma {:induction false} PollsSleep(poll: nat -> string, k: nat)
    ensures TotalSleep(Polls(poll, k)) == Triangle(k)
  {
    if k > 0 {
      var round := [ReadSync(poll(k - 1)), Sleep(k)];
      PollsSleep(poll, k - 1);
      TotalSleepAppend(Polls(poll, k - 1), round);
      assert round[1..] == [Sleep(k)];
      assert TotalSleep([Sleep(k)]) == k + TotalSleep([]);
      assert TotalSleep(round) == k;
    }
  }

  /** Every action of the first k rounds is a status read or a sleep; a
      sleep at index i lasts (i + 1) / 2 half-seconds, between 1 and k. */
  lemma {:induction false} PollsShape(poll: nat -> string, k: nat)
    ensures forall a :: a in Polls(poll, k) ==> a.ReadSync? || a.Sleep?
    ensures forall i :: 0 <= i < 2 * k && Polls(poll, k)[i].Sleep? ==>
      i + 1 == 2 * Polls(poll, k)[i].halfSeconds && 1 <= Polls(poll, k)[i].halfSeconds <= k
  {
    if k > 0 {
      PollsShape(poll, k - 1);
      var p := Polls(poll, k);
      assert forall i :: 0 <= i < 2 * (k - 1) ==> p[i] == Polls(poll, k - 1)[i];
    }
  }

  /** The reads of rounds that found no green status are not green. */
  lemma {:induction false} PollsNotGreen(poll: nat -> string, k: nat)
    requires forall n :: 0 <= n < k ==> poll(n) != Green
    ensures ReadSync(Green) !in Polls(poll, k)
  {
    if k > 0 {
      PollsNotGreen(poll, k - 1);
    }
  }

  /** The config-sync command is the first action of `sync` and is never
      repeated; `sync` changes no virtual server. */
  lemma SyncCommandOnce(group: string, poll: nat -> string)
    ensures SyncTrace(group, poll)[0] == SyncCmd(group)
    ensures forall i :: 0 < i < |SyncTrace(group, poll)| ==> !SyncTrace(group, poll)[i].SyncCmd?
    ensures forall a :: a in SyncTrace(group, poll) ==> !IsMutation(a)
  {
    var k := Waits(poll, 0);
    var t := SyncTrace(group, poll);
    var p := Polls(poll, k);
    PollsShape(poll, k);
    forall i | 0 < i < |t|
      ensures !t[i].SyncCmd?
    {
      if i <= 2 * k {
        assert t[i] == p[i - 1];
        assert p[i - 1] in p;
      }
    }
  }

  /** Where the parts of `sync` stand in its trace. */
  lemma SyncTraceParts(group: string, poll: nat -> string)
    ensures |SyncTrace(group, poll)| == 2 * Waits(poll, 0) + 3
    ensures SyncTrace(group, poll)[0] == SyncCmd(group)
    ensures forall i :: 1 <= i <= 2 * Waits(poll, 0) ==>
      SyncTrace(group, poll)[i] == Polls(poll, Waits(poll, 0))[i - 1]
    ensures !SyncTrace(group, poll)[2 * Waits(poll, 0) + 1].Sleep?
    ensures !SyncTrace(group, poll)[2 * Waits(poll, 0) + 2].Sleep?
  {
    var k := Waits(poll, 0);
    var p := Polls(poll, k);
    var head := [SyncCmd(group)] + p;
    var tail := [ReadSync(poll(k)), ReadSync(poll(k + 1))];
    var t := head + tail;
    assert t == SyncTrace(group, poll);
    assert |head| == 2 * k + 1;
    forall i | 1 <= i <= 2 * k
      ensures t[i] == p[i - 1]
    {
      assert t[i] == head[i];
    }
    assert t[2 * k + 1] == tail[0] && t[2 * k + 2] == tail[1];
  }

  /** The sleeps of `sync`: the n-th lasts n half-seconds and the longest
      lasts at most 12. */
  lemma SleepDurations(group: string, poll: nat -> string)
    ensures forall n :: 0 <= n < Waits(poll, 0) ==> SyncTrace(group, poll)[2 * n + 2] == Sleep(n + 1)
    ensures forall i :: 0 <= i < |SyncTrace(group, poll)| && SyncTrace(group, poll)[i].Sleep? ==>
      i == 2 * SyncTrace(group, poll)[i].halfSeconds && 1 <= SyncTrace(group, poll)[i].halfSeconds <= MaxWaits
  {
    var k := Waits(poll, 0);
    var t := SyncTrace(group, poll);
    SyncTraceParts(group, poll);
    forall n | 0 <= n < k
      ensures t[2 * n + 2] == Sleep(n + 1)
    {
      PollsAt(poll, k, n);
    }
    PollsShape(poll, k);
  }

  /** Once a status read is green, `sync` does not sleep again. */
  lemma NoSleepAfterGreen(group: string, poll: nat -> string)
    ensures forall i, j :: 0 <= i < j < |SyncTrace(group, poll)| && SyncTrace(group, poll)[j].Sleep? ==>
      SyncTrace(group, poll)[i] != ReadSync(Green)
  {
    var k := Waits(poll, 0);
    var t := SyncTrace(group, poll);
    var p := Polls(poll, k);
    SyncTraceParts(group, poll);
    WaitsReads(poll, 0);
    PollsNotGreen(poll, k);
    forall i, j | 0 <= i < j < |t| && t[j].Sleep?
      ensures t[i] != ReadSync(Green)
    {
      if i > 0 {
        assert p[i - 1] in p;
      }
    }
  }

  /** Whatever the status reads, `sync` sleeps at most 78 half-seconds (39 s). */
  lemma SyncSleepBound(group: string, poll: nat -> string)
    ensures TotalSleep(SyncTrace(group, poll)) == Triangle(Waits(poll, 0))
    ensures TotalSleep(SyncTrace(group, poll)) <= 78
  {
    var k := Waits(poll, 0);
    var p := Polls(poll, k);
    var tail := [ReadSync(poll(k)), ReadSync(poll(k + 1))];
    PollsSleep(poll, k);
    TotalSleepAppend([SyncCmd(group)], p);
    TotalSleepAppend([SyncCmd(group)] + p, tail);
    assert tail[1..][1..] == [];
    assert TotalSleep(tail) == 0;
    assert [SyncCmd(group)][1..] == [];
    assert TotalSleep([SyncCmd(group)]) == 0;
    TriangleMonotone(k, MaxWaits);
    assert Triangle(MaxWaits) == 78;
  }

  /** `sync`, with its loop on the counter `wait`. Returns what it did and
      the status it reports at the end. */
  method Sync(group: string, poll: nat -> string) returns (trace: seq<Action>, status: string)
    ensures trace == SyncTrace(group, poll)
    ensures status == poll(Waits(poll, 0) + 1)
  {
    var rounds: seq<Action> := [];  // the reads and sleeps of the rounds so far
    var wait := 0;
    var s := poll(wait);
    while s != Green && wait < MaxWaits
      invariant 0 <= wait <= MaxWaits
      invariant s == poll(wait)
      invariant forall j :: 0 <= j < wait ==> poll(j) != Green
      invariant rounds == Polls(poll, wait)
      decreases MaxWaits - wait
    {
      PollsNext(poll, wait);
      rounds := rounds + [ReadSync(s), Sleep(wait + 1)];
      wait := wait + 1;
      s := poll(wait);
    }
    WaitsStop(poll, 0, wait);
    status := poll(wait + 1);
    trace := [SyncCmd(group)] + rounds + [ReadSync(s), ReadSync(status)];
  }
}
