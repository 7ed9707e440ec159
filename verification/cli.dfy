/**
 * The command-line front end of `src/defaultconf/defaultconf.py`: protocol
 * validation, address-family parsing, and the `add`, `remove`, `enable`,
 * `disable` and `get-default` actions over the registry. Argument parsing,
 * the configuration and state files, their lock and the JSON output are not
 * modelled; an action receives its already-split arguments.
 */
module Cli {
  import opened Wrappers
  import opened IpAddr
  import opened Registry

  /** The protocols a gateway may be registered with. */
  const DefaultProtocols: set<string> := {"static", "dhcp", "ppp", "ra"}

  /** `validate_protocol`: accepts exactly the four known protocols and
      refuses any other, naming it. */
  function ValidateProtocol(protocol: string): (r: Result<()>)
    ensures r.Success? <==> protocol in {"static", "dhcp", "ppp", "ra"}
    ensures r.Failure? ==> r.error == "unknown protocol: " + protocol
  {
    if protocol !in DefaultProtocols then Failure("unknown protocol: " + protocol) else Success(())
  }

  /** The command-line spelling of a family. */
  function AfName(af: Family): string {
    match af
    case Inet => "ip"
    case Inet6 => "ip6"
  }

  /** `parse_af`: "ip" is IPv4, "ip6" is IPv6, anything else is refused. */
  function ParseAf(f: string): (r: Result<Family>)
    ensures r.Success? <==> f == "ip" || f == "ip6"
  {
    if f == "ip" then Success(Inet)
    else if f == "ip6" then Success(Inet6)
    else Failure("unknown af: " + f)
  }

  /** `parse_af` and the spelling it accepts are inverse: every family has
      exactly one accepted spelling. */
  lemma ParseAfRoundTrip(af: Family, f: string)
    ensures ParseAf(AfName(af)) == Success(af)
    ensures ParseAf(f).Success? ==> AfName(ParseAf(f).value) == f
    ensures ParseAf(f) == Success(af) <==> f == AfName(af)
  {
  }

  /** An optional `-f` argument: absent selects every family, present must
      parse. An absent argument handed to `parse_af` is Python's `None`,
      whose text is "None". */
  function OptionalAf(f: Option<string>): (r: Result<Option<Family>>)
    ensures r.Failure? <==> f.Some? && f.value != "ip" && f.value != "ip6"
    ensures r.Success? && r.value.Some? ==> f == Some(AfName(r.value.value))
    ensures r.Success? && r.value.None? ==> f.None?
  {
    match f
    case None => Success(None)
    case Some(s) =>
      match ParseAf(s)
      case Failure(e) => Failure(e)
      case Success(af) => Success(Some(af))
  }

  /** A command with its arguments, as the argument parser leaves them. The
      address of `add` is already an address value. */
  datatype Command =
    | Add(family: string, iface: string, protocol: string, addr: Addr)
    | Remove(f: Option<string>, i: Option<string>, p: Option<string>)
    | Enable(f: Option<string>, i: Option<string>, p: Option<string>)
    | Disable(f: Option<string>, i: Option<string>, p: Option<string>)

  /** What an action does to the registry, or why it stops before changing
      it: the argument checks come first, so a refused command changes
      nothing. */
  function Effect(cmd: Command, gateways: set<Gateway>, disabled: set<GatewaySelect>, ts: nat)
    : Result<(set<Gateway>, set<GatewaySelect>)>
  {
    match cmd
    case Add(family, iface, protocol, addr) =>
      if ValidateProtocol(protocol).Failure? then Failure(ValidateProtocol(protocol).error)
      else if ParseAf(family).Failure? then Failure(ParseAf(family).error)
      else Success((WithGateway(gateways, Gateway(ParseAf(family).value, iface, protocol, addr, ts)), disabled))
    case Remove(f, i, p) =>
      var af := ParseAf(if f.None? then "None" else f.value);
      if af.Failure? then Failure(af.error)
      else Success((Without(gateways, GatewaySelect(Some(af.value), i, p)), disabled))
    case Enable(f, i, p) =>
      var af := OptionalAf(f);
      if af.Failure? then Failure(af.error)
      else Success((gateways, Enabling(disabled, GatewaySelect(af.value, i, p))))
    case Disable(f, i, p) =>
      var af := OptionalAf(f);
      if af.Failure? then Failure(af.error)
      else Success((gateways, disabled + {GatewaySelect(af.value, i, p)}))
  }

  /** A `remove` needs `-f`: without it `parse_af` is handed `None` and
      refuses it. Every other refusal is an unknown family or protocol. */
  lemma EffectRefusals(cmd: Command, gateways: set<Gateway>, disabled: set<GatewaySelect>, ts: nat)
    ensures cmd.Remove? && cmd.f.None? ==> Effect(cmd, gateways, disabled, ts) == Failure("unknown af: None")
    ensures Effect(cmd, gateways, disabled, ts).Failure? <==>
              (cmd.Add? && (cmd.protocol !in DefaultProtocols || ParseAf(cmd.family).Failure?)) ||
              (cmd.Remove? && (cmd.f.None? || ParseAf(cmd.f.value).Failure?)) ||
              (!cmd.Add? && !cmd.Remove? && OptionalAf(cmd.f).Failure?)
  {
  }

  /** After `add`, the gateway is registered under its family, interface and
      protocol, the only one there; registering it again is a no-op. */
  lemma AddRegisters(gateways: set<Gateway>, disabled: set<GatewaySelect>, family: string, iface: string,
                     protocol: string, addr: Addr, ts: nat)
    requires UniqueKeys(gateways)
    requires Effect(Add(family, iface, protocol, addr), gateways, disabled, ts).Success?
    ensures var (gs, ds) := Effect(Add(family, iface, protocol, addr), gateways, disabled, ts).value;
            var g := Gateway(ParseAf(family).value, iface, protocol, addr, ts);
            g in gs && UniqueKeys(gs) && ds == disabled &&
            Effect(Add(family, iface, protocol, addr), gs, ds, ts) == Success((gs, ds))
  {
    var (gs, ds) := Effect(Add(family, iface, protocol, addr), gateways, disabled, ts).value;
    var g := Gateway(ParseAf(family).value, iface, protocol, addr, ts);
    AddKeepsKeysUnique(gateways, g);
    assert WithGateway(gs, g) == gs;
  }

  /** An action under `State.update`: the checks run first, the state is
      changed only when they pass, and the result says whether the state
      differs afterwards, the condition for saving it and signalling the
      daemon. */
  method Run(state: State, cmd: Command, ts: nat) returns (r: Result<bool>)
    modifies state
    ensures r.Failure? <==> Effect(cmd, old(state.gateways), old(state.disabled), ts).Failure?
    ensures r.Failure? ==> state.gateways == old(state.gateways) && state.disabled == old(state.disabled)
    ensures r.Success? ==>
              (state.gateways, state.disabled) == Effect(cmd, old(state.gateways), old(state.disabled), ts).value
    ensures r.Success? ==>
              (r.value <==> state.gateways != old(state.gateways) || state.disabled != old(state.disabled))
  {
    var pre := (state.gateways, state.disabled);
    match cmd {
      case Add(family, iface, protocol, addr) =>
        var valid := ValidateProtocol(protocol);
        if valid.Failure? {
          return Failure(valid.error);
        }
        var af := ParseAf(family);
        if af.Failure? {
          return Failure(af.error);
        }
        state.Add(af.value, iface, protocol, addr, ts);
      case Remove(f, i, p) =>
        var af := ParseAf(if f.None? then "None" else f.value);
        if af.Failure? {
          return Failure(af.error);
        }
        state.Remove(GatewaySelect(Some(af.value), i, p));
      case Enable(f, i, p) =>
        var af := OptionalAf(f);
        if af.Failure? {
          return Failure(af.error);
        }
        state.Enable(GatewaySelect(af.value, i, p));
      case Disable(f, i, p) =>
        var af := OptionalAf(f);
        if af.Failure? {
          return Failure(af.error);
        }
        state.Disable(GatewaySelect(af.value, i, p));
    }
    r := Success((state.gateways, state.disabled) != pre);
  }

  /** The `get-default` action: parse the optional family, rank the matching
      enabled gateways, and report the first one, if any. Refused exactly for
      an unknown family; otherwise nothing is reported exactly when nothing is
      selected, and what is reported is selected, in the best bucket, and the
      newest there. */
  method GetDefault(conf: DefaultConf, f: Option<string>, i: Option<string>, p: Option<string>)
    returns (r: Result<Option<Gateway>>)
    ensures r.Failure? <==> OptionalAf(f).Failure?
    ensures r.Success? ==>
              var selected := Selected(conf.state.gateways, conf.state.disabled,
                                       GatewaySelect(OptionalAf(f).value, i, p));
              (r.value.None? <==> selected == {}) &&
              (r.value.Some? ==>
                 r.value.value in selected &&
                 forall g | g in selected ::
                   Rank(conf.priority, r.value.value) < Rank(conf.priority, g) ||
                   (Rank(conf.priority, r.value.value) == Rank(conf.priority, g) && r.value.value.ts >= g.ts))
  {
    var af := OptionalAf(f);
    if af.Failure? {
      return Failure(af.error);
    }
    var select := GatewaySelect(af.value, i, p);
    var defaults := conf.GetDefaults(select);
    if |defaults| == 0 {
      r := Success(None);
    } else {
      HeadIsBest(conf.priority, defaults, Selected(conf.state.gateways, conf.state.disabled, select));
      r := Success(Some(defaults[0]));
    }
  }
}
