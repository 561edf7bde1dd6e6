/**
 * Shared vocabulary of the virtual-server controller (virt_enable_disable.py):
 * the configured state of a virtual server, how it is classified, and the
 * actions a run performs against the management endpoint, in order.
 */
module Fleet {

  /** Truthiness of the "enabled" and "disabled" entries of a virtual server's
      configuration as the endpoint returns it; an absent entry is false. */
  datatype Flags = Flags(enabled: bool, disabled: bool)

  /** The configured state printed for a virtual server. */
  datatype ConfState = Enabled | Disabled | Unknown

  /** Classifies a virtual server's configuration. "enabled" is looked at first,
      so it wins even when "disabled" is truthy as well. */
  function ConfiguredState(f: Flags): (s: ConfState)
    ensures s == Enabled <==> f.enabled
    ensures s == Disabled <==> !f.enabled && f.disabled
    ensures s == Unknown <==> !f.enabled && !f.disabled
  {
    if f.enabled then Enabled
    else if f.disabled then Disabled
    else Unknown
  }

  /** One step of a run, as seen from the management endpoint. */
  datatype Action =
    | Attempt(device: string)               // a session is requested from this device
    | ReadSync(status: string)              // the cluster's sync-status colour is read
    | Report(name: string, state: ConfState) // a virtual server is loaded and its state printed
    | Enable(name: string)                  // a virtual server is updated with enabled = true
    | Disable(name: string)                 // a virtual server is updated with disabled = true
    | SyncCmd(group: string)                // "config-sync to-group <group>" is run
    | Sleep(halfSeconds: nat)               // the process sleeps 0.5 * halfSeconds seconds

  predicate IsMutation(a: Action)
  {
    a.Enable? || a.Disable?
  }

  /** The Enable and Disable actions of a trace, in order. */
  function Mutations(t: seq<Action>): seq<Action>
  {
    if t == [] then []
    else (if IsMutation(t[0]) then [t[0]] else []) + Mutations(t[1..])
  }

  /** Total sleep of a trace, in half-seconds. */
  function TotalSleep(t: seq<Action>): nat
  {
    if t == [] then 0
    else (if t[0].Sleep? then t[0].halfSeconds else 0) + TotalSleep(t[1..])
  }

  lemma {:induction false} MutationsAppend(a: seq<Action>, b: seq<Action>)
    ensures Mutations(a + b) == Mutations(a) + Mutations(b)
  {
    if a != [] {
      assert (a + b)[1..] == a[1..] + b;
      MutationsAppend(a[1..], b);
    } else {
      assert a + b == b;
    }
  }

  lemma {:induction false} MutationsNone(t: seq<Action>)
    requires forall a :: a in t ==> !IsMutation(a)
    ensures Mutations(t) == []
  {
    if t != [] {
      assert t[0] in t;
      MutationsNone(t[1..]);
    }
  }

  lemma {:induction false} MutationsAll(t: seq<Action>)
    requires forall a :: a in t ==> IsMutation(a)
    ensures Mutations(t) == t
  {
    if t != [] {
      assert t[0] in t;
      MutationsAll(t[1..]);
    }
  }

  lemma {:induction false} TotalSleepAppend(a: seq<Action>, b: seq<Action>)
    ensures TotalSleep(a + b) == TotalSleep(a) + TotalSleep(b)
  {
    if a != [] {
      assert (a + b)[1..] == a[1..] + b;
      TotalSleepAppend(a[1..], b);
    } else {
      assert a + b == b;
    }
  }
}
