/**
 * The per-virtual-server passes of the controller: `print_states` loads and
 * reports every listed virtual server, `enable_virts` and `disable_virts`
 * update every listed virtual server. What a load returns is given as
 * `flags`, the configuration of each virtual server by name.
 */
module FleetVirtuals {
  import opened Fleet

  /** One report per listed virtual server, in list order, with its
      configured state as classified from what the endpoint returns. */
  function States(virts: seq<string>, flags: string -> Flags): seq<Action>
  {
    seq(|virts|, i requires 0 <= i < |virts| => Report(virts[i], ConfiguredState(flags(virts[i]))))
  }

  /** One enable update per listed virtual server, in list order. */
  function Enables(virts: seq<string>): seq<Action>
  {
    seq(|virts|, i requires 0 <= i < |virts| => Enable(virts[i]))
  }

  /** One disable update per listed virtual server, in list order. */
  function Disables(virts: seq<string>): seq<Action>
  {
    seq(|virts|, i requires 0 <= i < |virts| => Disable(virts[i]))
  }

  /** `print_states`. */
  method PrintStates(virts: seq<string>, flags: string -> Flags) returns (trace: seq<Action>)
    ensures |trace| == |virts|
    ensures forall i :: 0 <= i < |virts| ==>
      trace[i].Report? && trace[i].name == virts[i] && trace[i].state == ConfiguredState(flags(virts[i]))
    ensures trace == States(virts, flags)
  {
    trace := [];
    for i := 0 to |virts|
      invariant trace == States(virts[..i], flags)
    {
      var state := ConfiguredState(flags(virts[i]));
      trace := trace + [Report(virts[i], state)];
    }
    assert virts[..|virts|] == virts;
  }

  /** `enable_virts`: sets enabled on every listed virtual server, in list order. */
  method EnableVirts(virts: seq<string>) returns (trace: seq<Action>)
    ensures |trace| == |virts|
    ensures forall i :: 0 <= i < |virts| ==> trace[i] == Enable(virts[i])
    ensures trace == Enables(virts)
  {
    trace := [];
    for i := 0 to |virts|
      invariant trace == Enables(virts[..i])
    {
      trace := trace + [Enable(virts[i])];
    }
    assert virts[..|virts|] == virts;
  }

  /** `disable_virts`: sets disabled on every listed virtual server, in list order. */
  method DisableVirts(virts: seq<string>) returns (trace: seq<Action>)
    ensures |trace| == |virts|
    ensures forall i :: 0 <= i < |virts| ==> trace[i] == Disable(virts[i])
    ensures trace == Disables(virts)
  {
    trace := [];
    for i := 0 to |virts|
      invariant trace == Disables(virts[..i])
    {
      trace := trace + [Disable(virts[i])];
    }
    assert virts[..|virts|] == virts;
  }
}
