/**
 * The device fallback resolver of the controller (`connect`): try the
 * configured devices in order, keep the first session that opens, abort the
 * whole run on HTTP 401 Unauthorized (section 15.5.2 of RFC 9110), move on
 * after any other failure, and exit with code 1 when no device is left.
 * Opening a session is replaced by one given outcome per candidate device.
 */
module FleetConnect {

  /** What one attempt to open a session ends with. */
  datatype Outcome =
    | Ok            // the session is open
    | Http(code: int) // an HTTPError with this status code
    | ConnErr       // a ConnectionError
    | Other         // any other exception

  const Unauthorized := 401

  /** The "devs" entry of a cluster: a plain string, or a list of devices. */
  datatype Devs = Host(address: string) | Hosts(addresses: seq<string>)

  /** The devices a connection may be attempted to, in order. */
  function Candidates(devs: Devs): seq<string>
  {
    match devs
    case Host(a) => [a]
    case Hosts(addrs) => addrs
  }

  /** Python's len() of the "devs" entry: for a plain string it counts characters. */
  function DevsLen(devs: Devs): nat
  {
    match devs
    case Host(a) => |a|
    case Hosts(addrs) => |addrs|
  }

  /** An attempt that ends this way lets the resolver go on to the next device. */
  predicate Recoverable(o: Outcome)
  {
    match o
    case Ok => false
    case Http(code) => code != Unauthorized
    case ConnErr => true
    case Other => true
  }

  /** How connecting ends: a session with the device at this index, the
      authentication abort after the device at this index (exit code 1), no
      device reachable (exit code 1), or, for a single device given as a
      plain string, the attempt's exception escaping to the top level. */
  datatype Connection =
    | Connected(device: nat)
    | AuthFailed(device: nat)
    | NoneReachable
    | Raised(error: Outcome)

  /** Moves a device index k places further down the list. */
  function Offset(c: Connection, k: nat): Connection
  {
    match c
    case Connected(i) => Connected(i + k)
    case AuthFailed(i) => AuthFailed(i + k)
    case _ => c
  }

  /** The resolver over a list of devices, as a fold over the attempts' outcomes. */
  function Resolve(outcomes: seq<Outcome>): Connection
  {
    if outcomes == [] then NoneReachable
    else if outcomes[0] == Ok then Connected(0)
    else if outcomes[0] == Http(Unauthorized) then AuthFailed(0)
    else Offset(Resolve(outcomes[1..]), 1)
  }

  /** `connect` on either form of the "devs" entry. */
  function ConnectSpec(devs: Devs, outcomes: seq<Outcome>): Connection
    requires |outcomes| == |Candidates(devs)|
  {
    match devs
    case Host(_) => if outcomes[0] == Ok then Connected(0) else Raised(outcomes[0])
    case Hosts(_) => Resolve(outcomes)
  }

  /** The devices attempted before connecting ends this way. */
  function Tried(devs: Devs, c: Connection): seq<string>
  {
    var all := Candidates(devs);
    match c
    case Connected(i) => if i < |all| then all[..i + 1] else all
    case AuthFailed(i) => if i < |all| then all[..i + 1] else all
    case _ => all
  }

  /** The first device whose attempt succeeds wins, and only when every
      device before it failed recoverably. */
  lemma {:induction false} ResolveConnected(outcomes: seq<Outcome>, i: nat)
    ensures Resolve(outcomes) == Connected(i) <==>
      i < |outcomes| && outcomes[i] == Ok &&
      forall j :: 0 <= j < i ==> Recoverable(outcomes[j])
  {
    if outcomes == [] {
    } else if outcomes[0] == Ok || outcomes[0] == Http(Unauthorized) {
      assert !Recoverable(outcomes[0]);
    } else if i == 0 {
    } else {
      ResolveConnected(outcomes[1..], i - 1);
      assert forall j :: 1 <= j < i && j < |outcomes| ==> outcomes[1..][j - 1] == outcomes[j];
    }
  }

  /** A 401 ends the run at the device that answered it, and only when
      every device before it failed recoverably. */
  lemma {:induction false} ResolveAuthFailed(outcomes: seq<Outcome>, i: nat)
    ensures Resolve(outcomes) == AuthFailed(i) <==>
      i < |outcomes| && outcomes[i] == Http(Unauthorized) &&
      forall j :: 0 <= j < i ==> Recoverable(outcomes[j])
  {
    if outcomes == [] {
    } else if outcomes[0] == Ok || outcomes[0] == Http(Unauthorized) {
      assert !Recoverable(outcomes[0]);
    } else if i == 0 {
    } else {
      ResolveAuthFailed(outcomes[1..], i - 1);
      assert forall j :: 1 <= j < i && j < |outcomes| ==> outcomes[1..][j - 1] == outcomes[j];
    }
  }

  /** The run gives up exactly when every device failed recoverably; the list
      form never lets an attempt's exception escape. */
  lemma {:induction false} ResolveNoneReachable(outcomes: seq<Outcome>)
    ensures Resolve(outcomes) == NoneReachable <==>
      forall j :: 0 <= j < |outcomes| ==> Recoverable(outcomes[j])
    ensures !Resolve(outcomes).Raised?
  {
    if outcomes == [] {
    } else if outcomes[0] == Ok || outcomes[0] == Http(Unauthorized) {
      assert !Recoverable(outcomes[0]);
    } else {
      ResolveNoneReachable(outcomes[1..]);
      assert forall j :: 1 <= j < |outcomes| ==> outcomes[1..][j - 1] == outcomes[j];
    }
  }

  /** `connect`: a plain string gets one unguarded attempt; a list is tried
      device by device. Also returns the devices attempted, in order. */
  method Connect(devs: Devs, outcomes: seq<Outcome>) returns (c: Connection, tried: seq<string>)
    requires |outcomes| == |Candidates(devs)|
    ensures c == ConnectSpec(devs, outcomes)
    ensures tried == Tried(devs, c)
    ensures (c.Connected? || c.AuthFailed?) ==> c.device < |Candidates(devs)|
  {
    match devs
    case Host(a) =>
      tried := [a];
      c := if outcomes[0] == Ok then Connected(0) else Raised(outcomes[0]);
    case Hosts(addrs) =>
      var i := 0;
      tried := [];
      while i < |addrs|
        invariant 0 <= i <= |addrs|
        invariant tried == addrs[..i]
        invariant Resolve(outcomes) == Offset(Resolve(outcomes[i..]), i)
      {
        tried := tried + [addrs[i]];
        if outcomes[i] == Ok {
          c := Connected(i);
          return;
        }
        if outcomes[i] == Http(Unauthorized) {
          c := AuthFailed(i);
          return;
        }
        assert outcomes[i..][1..] == outcomes[i + 1..];
        i := i + 1;
      }
      c := NoneReachable;
  }
}
