/** The networks gathered from the user: class NetworkCreator and retrievePossibleInterfaces of
    src/presenter/PresenterNetwork.cpp. */
module NetworkCreators {
  import opened Wrappers
  import opened Sequences
  import opened Ipv4

  datatype Profile = External | Management | Service | Application

  datatype Kind = Ethernet | Infiniband

  datatype NetworkCreatorData = NetworkCreatorData(
    profile: Profile,
    kind: Kind,
    port: string,
    address: string,
    subnetMask: string,
    gateway: string,
    name: string,
    domains: seq<Address>)

  function Profiles(networks: seq<NetworkCreatorData>): (r: seq<Profile>)
    ensures |r| == |networks|
  {
    seq(|networks|, i requires 0 <= i < |networks| => networks[i].profile)
  }

  /** The interfaces of the networks. */
  function Ports(networks: seq<NetworkCreatorData>): (r: seq<string>)
    ensures |r| == |networks|
  {
    seq(|networks|, i requires 0 <= i < |networks| => networks[i].port)
  }

  // ------------------------------------------------------------ additions

  /** addNetworkInformation: a profile that is there already is refused. */
  function Add(networks: seq<NetworkCreatorData>, data: NetworkCreatorData): seq<NetworkCreatorData> {
    if data.profile in Profiles(networks) then networks else networks + [data]
  }

  function AddAll(additions: seq<NetworkCreatorData>): seq<NetworkCreatorData> {
    if additions == [] then [] else Add(AddAll(Front(additions)), Last(additions))
  }

  lemma ProfilesAppend(networks: seq<NetworkCreatorData>, data: NetworkCreatorData)
    ensures Profiles(networks + [data]) == Profiles(networks) + [data.profile]
    ensures Ports(networks + [data]) == Ports(networks) + [data.port]
  {
  }

  ghost function Elements<T>(s: seq<T>): set<T> {
    set x | x in s
  }

  lemma {:induction false} DistinctSize<T>(s: seq<T>)
    ensures |Elements(s)| <= |s|
    ensures Distinct(s) ==> |Elements(s)| == |s|
  {
    if s != [] {
      DistinctSize(Front(s));
      assert Elements(s) == Elements(Front(s)) + {Last(s)};
      if Distinct(s) {
        DistinctFront(s);
        assert Elements(s) - {Last(s)} == Elements(Front(s));
      }
    }
  }

  lemma SubsetSize<T>(a: set<T>, b: set<T>)
    requires a <= b
    ensures |a| <= |b| && (|a| == |b| <==> a == b)
  {
    assert b == a + (b - a) && a !! (b - a);
  }

  lemma DistinctProfilesAreFew(profiles: seq<Profile>)
    requires Distinct(profiles)
    ensures |profiles| <= 4
  {
    DistinctSize(profiles);
    forall p | p in Elements(profiles)
      ensures p in {External, Management, Service, Application}
    {
      assert p.External? || p.Management? || p.Service? || p.Application?;
    }
    SubsetSize(Elements(profiles), {External, Management, Service, Application});
  }

  lemma ProfileIn(networks: seq<NetworkCreatorData>, profile: Profile)
    ensures profile in Profiles(networks) <==> exists i :: 0 <= i < |networks| && networks[i].profile == profile
  {
    if i :| 0 <= i < |networks| && networks[i].profile == profile {
      assert Profiles(networks)[i] == profile;
    }
  }

  lemma PortIn(networks: seq<NetworkCreatorData>, port: string)
    ensures port in Ports(networks) <==> exists i :: 0 <= i < |networks| && networks[i].port == port
  {
    if i :| 0 <= i < |networks| && networks[i].port == port {
      assert Ports(networks)[i] == port;
    }
  }

  lemma ProfilesApart(networks: seq<NetworkCreatorData>)
    requires Distinct(Profiles(networks))
    ensures forall i, j | 0 <= i < j < |networks| :: networks[i].profile != networks[j].profile
  {
    assert forall i | 0 <= i < |networks| :: Profiles(networks)[i] == networks[i].profile;
  }

  lemma PortsApart(networks: seq<NetworkCreatorData>)
    requires Distinct(Ports(networks))
    ensures forall i, j | 0 <= i < j < |networks| :: networks[i].port != networks[j].port
  {
    assert forall i | 0 <= i < |networks| :: Ports(networks)[i] == networks[i].port;
  }

  /** Over every run of additions the profiles are pairwise distinct, and so at most four. */
  lemma {:induction false} ProfilesStayDistinct(additions: seq<NetworkCreatorData>)
    ensures Distinct(Profiles(AddAll(additions))) && |AddAll(additions)| <= 4
    ensures forall i, j | 0 <= i < j < |AddAll(additions)| :: AddAll(additions)[i].profile != AddAll(additions)[j].profile
  {
    if additions != [] {
      var before, data := AddAll(Front(additions)), Last(additions);
      ProfilesStayDistinct(Front(additions));
      if data.profile !in Profiles(before) {
        ProfilesAppend(before, data);
        DistinctAppend(Profiles(before), data.profile);
      }
    }
    DistinctProfilesAreFew(Profiles(AddAll(additions)));
    ProfilesApart(AddAll(additions));
  }

  /** The first addition of a profile, if any. */
  function FirstOf(additions: seq<NetworkCreatorData>, profile: Profile): Option<NetworkCreatorData> {
    if additions == [] then None
    else if FirstOf(Front(additions), profile).Some? then FirstOf(Front(additions), profile)
    else if Last(additions).profile == profile then Some(Last(additions)) else None
  }

  /** What a run stores is, for each profile, its first addition: later ones change nothing. */
  lemma {:induction false} FirstAdditionWins(additions: seq<NetworkCreatorData>, data: NetworkCreatorData)
    ensures data in AddAll(additions) <==> FirstOf(additions, data.profile) == Some(data)
    ensures data.profile in Profiles(AddAll(additions)) <==> FirstOf(additions, data.profile).Some?
  {
    if additions != [] {
      var before, last := AddAll(Front(additions)), Last(additions);
      FirstAdditionWins(Front(additions), data);
      FirstAdditionWins(Front(additions), last);
      ProfilesAppend(before, last);
    }
  }

  /** Every accepted addition uses an interface that no network had at the time. */
  predicate FreshPorts(additions: seq<NetworkCreatorData>) {
    additions != [] ==>
      && FreshPorts(Front(additions))
      && var before := AddAll(Front(additions));
         Last(additions).profile in Profiles(before) || Last(additions).port !in Ports(before)
  }

  lemma DistinctAppendIff<T>(s: seq<T>, x: T)
    ensures Distinct(s + [x]) <==> (Distinct(s) && x !in s)
  {
    if Distinct(s) && x !in s {
      DistinctAppend(s, x);
    } else if Distinct(s + [x]) {
      DistinctFront(s + [x]);
      FrontOfAppend(s, x);
    }
  }

  /** The interfaces of a run are pairwise distinct exactly when each accepted addition's was fresh. */
  lemma {:induction false} PortsDistinctIff(additions: seq<NetworkCreatorData>)
    ensures Distinct(Ports(AddAll(additions))) <==> FreshPorts(additions)
  {
    if additions != [] {
      var before, data := AddAll(Front(additions)), Last(additions);
      PortsDistinctIff(Front(additions));
      ProfilesAppend(before, data);
      DistinctAppendIff(Ports(before), data.port);
    }
  }

  // --------------------------------------------------- possible interfaces

  /** The interfaces fetched that satisfy a membership test, in order. */
  function Select(ports: seq<string>, taken: seq<string>, wanted: bool): seq<string> {
    if ports == [] then []
    else Select(Front(ports), taken, wanted) + if (Last(ports) in taken) == wanted then [Last(ports)] else []
  }

  /** retrievePossibleInterfaces: those that no network uses. */
  function Possible(ports: seq<string>, networks: seq<NetworkCreatorData>): seq<string> {
    Select(ports, Ports(networks), false)
  }

  /** The order of the fetched interfaces is kept: selecting from two stretches is selecting from each. */
  lemma {:induction false} SelectAppend(a: seq<string>, b: seq<string>, taken: seq<string>, wanted: bool)
    ensures Select(a + b, taken, wanted) == Select(a, taken, wanted) + Select(b, taken, wanted)
  {
    if b == [] {
      assert a + b == a;
    } else {
      assert Front(a + b) == a + Front(b);
      SelectAppend(a, Front(b), taken, wanted);
    }
  }

  lemma {:induction false} SelectMembers(ports: seq<string>, taken: seq<string>, wanted: bool)
    ensures forall p :: p in Select(ports, taken, wanted) <==> p in ports && (p in taken) == wanted
  {
    if ports != [] {
      SelectMembers(Front(ports), taken, wanted);
    }
  }

  /** An interface is possible exactly when it was fetched and no network has it. */
  lemma PossibleIff(ports: seq<string>, networks: seq<NetworkCreatorData>, port: string)
    ensures port in Possible(ports, networks) <==> port in ports && forall i | 0 <= i < |networks| :: networks[i].port != port
  {
    SelectMembers(ports, Ports(networks), false);
    PortIn(networks, port);
  }

  /** Filtering loses nothing: what remains and what is used make up what was fetched. */
  lemma {:induction false} SelectConserves(ports: seq<string>, taken: seq<string>)
    ensures multiset(Select(ports, taken, false)) + multiset(Select(ports, taken, true)) == multiset(ports)
  {
    if ports != [] {
      SelectConserves(Front(ports), taken);
      assert ports == Front(ports) + [Last(ports)];
    }
  }

  lemma {:induction false} SelectLengths(ports: seq<string>, taken: seq<string>)
    ensures |Select(ports, taken, false)| + |Select(ports, taken, true)| == |ports|
  {
    if ports != [] {
      SelectLengths(Front(ports), taken);
    }
  }

  lemma {:induction false} SelectDistinct(ports: seq<string>, taken: seq<string>, wanted: bool)
    requires Distinct(ports)
    ensures Distinct(Select(ports, taken, wanted))
  {
    if ports != [] {
      DistinctFront(ports);
      SelectDistinct(Front(ports), taken, wanted);
      SelectMembers(Front(ports), taken, wanted);
      if (Last(ports) in taken) == wanted {
        DistinctAppend(Select(Front(ports), taken, wanted), Last(ports));
      }
    }
  }

  /** The count that the presenter holds against its minimum of two: it never falls below the number
      of interfaces fetched, and equals it exactly when every network's interface is still there. */
  lemma AvailableIff(ports: seq<string>, networks: seq<NetworkCreatorData>)
    requires Distinct(ports) && Distinct(Ports(networks))
    ensures |Possible(ports, networks)| + |networks| >= |ports|
    ensures |Possible(ports, networks)| + |networks| == |ports| <==> forall p | p in Ports(networks) :: p in ports
  {
    var taken := Ports(networks);
    var used := Select(ports, taken, true);
    SelectLengths(ports, taken);
    SelectDistinct(ports, taken, true);
    SelectMembers(ports, taken, true);
    DistinctSize(used);
    DistinctSize(taken);
    SubsetSize(Elements(used), Elements(taken));
    if Elements(used) == Elements(taken) {
      forall p | p in taken
        ensures p in ports
      {
        assert p in Elements(used);
      }
    }
    if forall p | p in taken :: p in ports {
      assert Elements(used) == Elements(taken);
    }
  }

  /** Interfaces picked from the possible ones, of whatever was fetched each time. */
  predicate PickedFromPossible(additions: seq<NetworkCreatorData>, fetched: seq<seq<string>>)
    requires |additions| == |fetched|
  {
    additions != [] ==>
      && PickedFromPossible(Front(additions), Front(fetched))
      && Last(additions).port in Possible(Last(fetched), AddAll(Front(additions)))
  }

  /** With each interface picked from the possible ones, the networks' interfaces are distinct. */
  lemma {:induction false} PickedPortsAreDistinct(additions: seq<NetworkCreatorData>, fetched: seq<seq<string>>)
    requires |additions| == |fetched| && PickedFromPossible(additions, fetched)
    ensures FreshPorts(additions) && Distinct(Ports(AddAll(additions)))
    ensures forall i, j | 0 <= i < j < |AddAll(additions)| :: AddAll(additions)[i].port != AddAll(additions)[j].port
  {
    if additions != [] {
      PickedPortsAreDistinct(Front(additions), Front(fetched));
      SelectMembers(Last(fetched), Ports(AddAll(Front(additions))), false);
    }
    PortsDistinctIff(additions);
    PortsApart(AddAll(additions));
  }

  // ------------------------------------------------------------ on the heap

  class NetworkCreator {
    var networks: seq<NetworkCreatorData>
    /** The additions so far, refused ones included. */
    ghost var additions: seq<NetworkCreatorData>

    ghost predicate Valid()
      reads this
    {
      networks == AddAll(additions)
    }

    constructor ()
      ensures Valid() && additions == []
    {
      networks, additions := [], [];
    }

    method CheckIfProfileExists(profile: Profile) returns (found: bool)
      ensures found <==> profile in Profiles(networks)
      ensures found <==> exists i :: 0 <= i < |networks| && networks[i].profile == profile
    {
      ProfileIn(networks, profile);
      var i := 0;
      while i < |networks|
        invariant 0 <= i <= |networks|
        invariant profile !in Profiles(networks)[..i]
      {
        if networks[i].profile == profile {
          assert Profiles(networks)[i] == profile;
          return true;
        }
        TakeOneMore(Profiles(networks), i);
        i := i + 1;
      }
      TakeAll(Profiles(networks));
      found := false;
    }

    method CheckIfInterfaceRegistered(port: string) returns (found: bool)
      ensures found <==> port in Ports(networks)
      ensures found <==> exists i :: 0 <= i < |networks| && networks[i].port == port
    {
      PortIn(networks, port);
      var i := 0;
      while i < |networks|
        invariant 0 <= i <= |networks|
        invariant port !in Ports(networks)[..i]
      {
        if networks[i].port == port {
          assert Ports(networks)[i] == port;
          return true;
        }
        TakeOneMore(Ports(networks), i);
        i := i + 1;
      }
      TakeAll(Ports(networks));
      found := false;
    }

    method AddNetworkInformation(data: NetworkCreatorData) returns (added: bool)
      requires Valid()
      modifies this
      ensures Valid() && additions == old(additions) + [data]
      ensures networks == Add(old(networks), data)
      ensures networks == if added then old(networks) + [data] else old(networks)
      ensures added <==> data.profile !in Profiles(old(networks))
    {
      FrontOfAppend(additions, data);
      additions := additions + [data];
      var present := CheckIfProfileExists(data.profile);
      if present {
        return false;
      }
      networks := networks + [data];
      added := true;
    }

    method GetSelectedInterfaces() returns (n: nat)
      requires Valid()
      ensures n == |networks| && n <= 4
    {
      ProfilesStayDistinct(additions);
      n := |networks|;
    }
  }

  lemma SelectOneMore(ports: seq<string>, i: nat, taken: seq<string>)
    requires i < |ports|
    ensures Select(ports[..i + 1], taken, false)
         == Select(ports[..i], taken, false) + if ports[i] in taken then [] else [ports[i]]
  {
    TakeOneMore(ports, i);
    FrontOfAppend(ports[..i], ports[i]);
  }

  /** `remove_if`: those to keep are moved to the front, in order; what lies behind is left over. */
  method RemoveRegistered(ports: array<string>, nc: NetworkCreator) returns (last: nat)
    modifies ports
    ensures last <= ports.Length
    ensures ports[..last] == Possible(old(ports[..]), nc.networks)
  {
    ghost var was := ports[..];
    ghost var taken := Ports(nc.networks);
    last := 0;
    var i := 0;
    while i < ports.Length
      invariant 0 <= last <= i <= ports.Length
      invariant ports[..last] == Select(was[..i], taken, false)
      invariant forall k | i <= k < ports.Length :: ports[k] == was[k]
    {
      SelectOneMore(was, i, taken);
      var registered := nc.CheckIfInterfaceRegistered(ports[i]);
      if !registered {
        ports[last] := ports[i];
        TakeOneMore(ports[..], last);
        last := last + 1;
      }
      i := i + 1;
    }
    TakeAll(was);
  }

  method RetrievePossibleInterfaces(fetched: seq<string>, nc: NetworkCreator) returns (ports: seq<string>)
    ensures ports == Possible(fetched, nc.networks)
  {
    var ifs := new string[|fetched|](i requires 0 <= i < |fetched| => fetched[i]);
    assert ifs[..] == fetched;
    var last := RemoveRegistered(ifs, nc);
    ports := ifs[..last];
  }
}
