/** A VIP network of a deployment plan: parsed from its cloud-config spec,
    it gives the settings hash handed to the agent for a reservation and
    decides whether its IPs are allocated dynamically (from the network's
    own subnets) or statically. IPs are opaque strings, and subnet parsing
    is a parameter of `Parse`. */
module VipNetworks {
  import opened Results
  import opened Values

  /** The Ruby classes `safe_property` checks against. */
  datatype ValueClass = StringClass | ArrayClass | HashClass

  predicate HasClass(v: Value, cls: ValueClass)
  {
    match cls
    case StringClass => v.Str?
    case ArrayClass => v.Arr?
    case HashClass => v.Hash?
  }

  datatype ValidationError =
    | MissingField(property: string)
    | InvalidType(property: string)
    | SubnetError(message: string)

  datatype NetworkError = VipDefaultProvided

  function NetworkErrorMessage(e: NetworkError): string
  {
    match e
    case VipDefaultProvided => "Can't provide any defaults since this is a VIP network"
  }

  /** The property reading rule: a present, non-nil value must have the
      requested class; an absent or nil one gives the default when there is
      one and is a missing field otherwise. */
  function SafeProperty(spec: map<string, Value>, property: string, cls: ValueClass, default: Option<Value>): (r: Result<Value, ValidationError>)
    ensures r.Success? ==> HasClass(r.value, cls) || (default.Some? && r.value == default.value)
    ensures property in spec && !spec[property].Null? ==>
              && (r.Success? <==> HasClass(spec[property], cls))
              && (r.Success? ==> r.value == spec[property])
              && (r.Failure? ==> r.error == InvalidType(property))
    ensures (property !in spec || spec[property].Null?) ==>
              && (r.Success? <==> default.Some?)
              && (r.Success? ==> r.value == default.value)
              && (r.Failure? ==> r.error == MissingField(property))
  {
    if property in spec && !spec[property].Null? then
      if HasClass(spec[property], cls) then Success(spec[property]) else Failure(InvalidType(property))
    else if default.Some? then Success(default.value)
    else Failure(MissingField(property))
  }

  datatype IpType = Dynamic | Static

  /** A VIP network; its type is always `vip`. */
  datatype VipNetwork<S> = VipNetwork(name: string, cloudProperties: map<string, Value>, subnets: seq<S>)

  const NetworkType: string := "vip"

  /** Parses the subnet specs in order, stopping at the first that fails. */
  function ParseSubnets<S>(specs: seq<Value>, name: string, parseSubnet: (Value, string) -> Result<S, ValidationError>): (r: Result<seq<S>, ValidationError>)
    ensures r.Success? <==> forall i :: 0 <= i < |specs| ==> parseSubnet(specs[i], name).Success?
    ensures r.Success? ==> |r.value| == |specs| && forall i :: 0 <= i < |specs| ==> parseSubnet(specs[i], name) == Success(r.value[i])
    decreases |specs|
  {
    if specs == [] then Success([])
    else match parseSubnet(specs[0], name)
      case Failure(e) => Failure(e)
      case Success(s) =>
        match ParseSubnets(specs[1..], name, parseSubnet)
        case Failure(e) =>
          assert exists i :: 1 <= i < |specs| && parseSubnet(specs[i], name).Failure? by {
            var j :| 0 <= j < |specs[1..]| && parseSubnet(specs[1..][j], name).Failure?;
            assert parseSubnet(specs[j + 1], name).Failure?;
          }
          Failure(e)
        case Success(rest) =>
          assert forall i :: 1 <= i < |specs| ==> specs[i] == specs[1..][i - 1];
          Success([s] + rest)
  }

  /** The subnet specs a network spec lists (none when the key is absent or nil). */
  function SubnetSpecs(spec: map<string, Value>): seq<Value>
  {
    if "subnets" in spec && spec["subnets"].Arr? then spec["subnets"].items else []
  }

  /** The cloud properties a network spec gives (empty when absent or nil). */
  function CloudPropertiesOf(spec: map<string, Value>): map<string, Value>
  {
    if "cloud_properties" in spec && spec["cloud_properties"].Hash? then spec["cloud_properties"].fields else map[]
  }

  /** `VipNetwork.parse`: reads the name (a string, required), the subnets (an
      array, default none), each parsed in order, and the cloud properties (a
      hash, default empty), and keeps all of them unchanged. */
  function Parse<S>(spec: map<string, Value>, parseSubnet: (Value, string) -> Result<S, ValidationError>): (r: Result<VipNetwork<S>, ValidationError>)
    ensures r.Success? ==> "name" in spec && spec["name"].Str? && r.value.name == spec["name"].s
    ensures r.Success? ==> r.value.cloudProperties == CloudPropertiesOf(spec)
    ensures r.Success? ==>
              && |r.value.subnets| == |SubnetSpecs(spec)|
              && forall i :: 0 <= i < |r.value.subnets| ==> parseSubnet(SubnetSpecs(spec)[i], r.value.name) == Success(r.value.subnets[i])
    ensures r.Success? <==>
              && "name" in spec && spec["name"].Str?
              && ("subnets" in spec ==> spec["subnets"].Null? || spec["subnets"].Arr?)
              && ("cloud_properties" in spec ==> spec["cloud_properties"].Null? || spec["cloud_properties"].Hash?)
              && forall i :: 0 <= i < |SubnetSpecs(spec)| ==> parseSubnet(SubnetSpecs(spec)[i], spec["name"].s).Success?
    ensures ("name" !in spec || spec["name"].Null?) ==> r == Failure(MissingField("name"))
  {
    match SafeProperty(spec, "name", StringClass, None)
    case Failure(e) => Failure(e)
    case Success(name) =>
      match SafeProperty(spec, "subnets", ArrayClass, Some(Arr([])))
      case Failure(e) => Failure(e)
      case Success(specs) =>
        assert specs.items == SubnetSpecs(spec);
        match ParseSubnets(specs.items, name.s, parseSubnet)
        case Failure(e) => Failure(e)
        case Success(subnets) =>
          match SafeProperty(spec, "cloud_properties", HashClass, Some(Hash(map[])))
          case Failure(e) => Failure(e)
          case Success(cloudProperties) => Success(VipNetwork(name.s, cloudProperties.fields, subnets))
  }

  /** `network_settings`: refuses any non-empty defaults, and otherwise gives
      exactly the type, the reservation's IP and the network's cloud properties. */
  function NetworkSettings<S>(net: VipNetwork<S>, ip: string, defaultProperties: Option<seq<string>>): (r: Result<map<string, Value>, NetworkError>)
    ensures r.Failure? <==> defaultProperties.Some? && |defaultProperties.value| > 0
    ensures r.Failure? ==> NetworkErrorMessage(r.error) == "Can't provide any defaults since this is a VIP network"
    ensures r.Success? ==>
              && r.value.Keys == {"type", "ip", "cloud_properties"}
              && r.value["type"] == Str(NetworkType)
              && r.value["ip"] == Str(ip)
              && r.value["cloud_properties"] == Hash(net.cloudProperties)
  {
    if defaultProperties.Some? && |defaultProperties.value| > 0 then Failure(VipDefaultProvided)
    else Success(map["type" := Str(NetworkType), "ip" := Str(ip), "cloud_properties" := Hash(net.cloudProperties)])
  }

  /** `globally_allocate_ip?`: whether the network has subnets of its own. */
  function GloballyAllocateIp<S>(net: VipNetwork<S>): (r: bool)
    ensures r <==> net.subnets != []
  {
    |net.subnets| > 0
  }

  /** `ip_type`: dynamic exactly when the IPs are allocated globally; the
      argument plays no part. */
  function IpTypeOf<S>(net: VipNetwork<S>, reservationIp: string): (r: IpType)
    ensures r == Dynamic <==> GloballyAllocateIp(net)
    ensures r == Static <==> net.subnets == []
  {
    if GloballyAllocateIp(net) then Dynamic else Static
  }

  /** `has_azs?`: a VIP network accepts every availability zone. */
  function HasAzs<S>(net: VipNetwork<S>, azNames: seq<string>): (r: bool)
    ensures r
  {
    true
  }

  /** A parsed network is dynamic exactly when its spec lists a subnet. */
  lemma ParsedIpType<S>(spec: map<string, Value>, parseSubnet: (Value, string) -> Result<S, ValidationError>, ip: string)
    requires Parse(spec, parseSubnet).Success?
    ensures IpTypeOf(Parse(spec, parseSubnet).value, ip) == Dynamic <==> |SubnetSpecs(spec)| > 0
  {
  }

  /** The settings of a parsed network carry the spec's cloud properties, or
      an empty hash when it gives none. */
  lemma ParsedSettings<S>(spec: map<string, Value>, parseSubnet: (Value, string) -> Result<S, ValidationError>, ip: string)
    requires Parse(spec, parseSubnet).Success?
    ensures NetworkSettings(Parse(spec, parseSubnet).value, ip, None)
         == Success(map["type" := Str("vip"), "ip" := Str(ip), "cloud_properties" := Hash(CloudPropertiesOf(spec))])
    ensures NetworkSettings(Parse(spec, parseSubnet).value, ip, Some([]))
         == NetworkSettings(Parse(spec, parseSubnet).value, ip, None)
  {
  }

  /** A spec with only a name parses to a static network with no cloud properties. */
  lemma NameOnlySpec<S>(name: string, parseSubnet: (Value, string) -> Result<S, ValidationError>)
    ensures Parse(map["name" := Str(name)], parseSubnet) == Success(VipNetwork(name, map[], []))
  {
  }
}
