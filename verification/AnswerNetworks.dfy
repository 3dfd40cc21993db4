/** Network sections of the answer file: dumpNetwork and loadNetwork of src/models/answerfile.cpp. */
module AnswerNetworks {
  import opened Wrappers
  import opened KeyFiles
  import opened Decimals
  import opened Ipv4
  import opened Streams
  import TextEdits

  // ------------------------------------------------------ name server lists

  predicate IsDelimiter(c: char) {
    c == ',' || c == ' '
  }

  predicate IsToken(s: string) {
    forall i | 0 <= i < |s| :: !IsDelimiter(s[i])
  }

  function TokenOf(s: string): (r: string)
    ensures r <= s && IsToken(r)
    ensures |r| < |s| ==> IsDelimiter(s[|r|])
  {
    if s == "" || IsDelimiter(s[0]) then "" else [s[0]] + TokenOf(s[1..])
  }

  function SkipDelimiters(s: string): (r: string)
    ensures |r| <= |s|
    ensures r == "" || !IsDelimiter(r[0])
  {
    if s == "" || !IsDelimiter(s[0]) then s else SkipDelimiters(s[1..])
  }

  /** `boost::split` at any of ", " with adjacent delimiters taken as one. */
  function Tokens(s: string): (r: seq<string>)
    ensures r != []
    decreases |s|
  {
    var token := TokenOf(s);
    if |token| == |s| then [s] else [token] + Tokens(SkipDelimiters(s[|token|..]))
  }

  /** Names that a list can be written and read back with: free of delimiters, and not empty except
      at either end. */
  predicate Listable(names: seq<string>) {
    && names != []
    && (forall k | 0 <= k < |names| :: IsToken(names[k]))
    && (forall k | 0 < k < |names| - 1 :: names[k] != "")
  }

  lemma {:induction false} TokensAreListable(s: string)
    ensures Listable(Tokens(s))
    ensures s != "" && !IsDelimiter(s[0]) ==> Tokens(s)[0] != ""
    ensures s == "" ==> Tokens(s) == [""]
    decreases |s|
  {
    var token := TokenOf(s);
    if |token| < |s| {
      var rest := SkipDelimiters(s[|token|..]);
      TokensAreListable(rest);
      assert Tokens(s) == [token] + Tokens(rest);
    }
  }

  lemma {:induction false} TokenHead(name: string, rest: string)
    requires IsToken(name) && (rest == "" || IsDelimiter(rest[0]))
    ensures TokenOf(name + rest) == name
  {
    if name != "" {
      TokenHead(name[1..], rest);
      assert (name + rest)[1..] == name[1..] + rest;
    }
  }

  /** A run of commas and blanks. */
  predicate IsRun(s: string) {
    s != "" && forall i | 0 <= i < |s| :: s[i] == ',' || s[i] == ' '
  }

  lemma {:induction false} SkipRun(run: string, rest: string)
    requires IsRun(run) && (rest == "" || !IsDelimiter(rest[0]))
    ensures SkipDelimiters(run + rest) == rest
  {
    assert (run + rest)[1..] == run[1..] + rest;
    if |run| > 1 {
      SkipRun(run[1..], rest);
    } else {
      assert run[1..] + rest == rest;
    }
  }

  lemma TokenThenRest(name: string, more: string, rest: string)
    requires IsToken(name) && more != "" && IsDelimiter(more[0]) && SkipDelimiters(more) == rest
    ensures Tokens(name + more) == [name] + Tokens(rest)
  {
    TokenHead(name, more);
    assert (name + more)[|name|..] == more;
  }

  lemma FirstToken(name: string, run: string, rest: string)
    requires IsToken(name) && IsRun(run) && (rest == "" || !IsDelimiter(rest[0]))
    ensures Tokens(name + run + rest) == [name] + Tokens(rest)
  {
    assert name + run + rest == name + (run + rest);
    SkipRun(run, rest);
    TokenThenRest(name, run + rest, rest);
  }

  /** Names one after the other, with the given texts in between. */
  function JoinWith(names: seq<string>, runs: seq<string>): string
    requires |names| == |runs| + 1
  {
    if |names| == 1 then names[0] else names[0] + runs[0] + JoinWith(names[1..], runs[1..])
  }

  /** Names joined by whatever runs of commas and blanks split into these names. */
  lemma {:induction false} TokensOfRuns(names: seq<string>, runs: seq<string>)
    requires Listable(names) && |names| == |runs| + 1 && forall k | 0 <= k < |runs| :: IsRun(runs[k])
    ensures Tokens(JoinWith(names, runs)) == names
    decreases |names|
  {
    if |names| == 1 {
      TokenHead(names[0], "");
      assert names[0] + "" == names[0];
    } else {
      var rest := JoinWith(names[1..], runs[1..]);
      TokensOfRuns(names[1..], runs[1..]);
      if rest != "" {
        assert |names| > 2 ==> names[1] != "";
        assert rest[0] == names[1][0];
      }
      FirstToken(names[0], runs[0], rest);
    }
  }

  lemma {:induction false} JoinIsJoinWith(names: seq<string>, runs: seq<string>)
    requires |names| == |runs| + 1 && forall k | 0 <= k < |runs| :: runs[k] == ", "
    ensures JoinWith(names, runs) == TextEdits.Join(names, ", ")
  {
    if |names| > 1 {
      JoinIsJoinWith(names[1..], runs[1..]);
    }
  }

  lemma TokensOfJoin(names: seq<string>)
    requires Listable(names)
    ensures Tokens(TextEdits.Join(names, ", ")) == names
  {
    var runs := seq(|names| - 1, _ => ", ");
    JoinIsJoinWith(names, runs);
    TokensOfRuns(names, runs);
  }

  /** A text without its commas and blanks. */
  function Squeezed(s: string): string {
    if s == "" then "" else (if s[0] == ',' || s[0] == ' ' then "" else [s[0]]) + Squeezed(s[1..])
  }

  function Concatenated(pieces: seq<string>): string {
    if pieces == [] then "" else pieces[0] + Concatenated(pieces[1..])
  }

  lemma {:induction false} SqueezedAppend(a: string, b: string)
    ensures Squeezed(a + b) == Squeezed(a) + Squeezed(b)
  {
    if a == "" {
      assert a + b == b;
    } else {
      assert (a + b)[1..] == a[1..] + b;
      SqueezedAppend(a[1..], b);
    }
  }

  lemma {:induction false} SqueezedToken(s: string)
    requires IsToken(s)
    ensures Squeezed(s) == s
  {
    if s != "" {
      SqueezedToken(s[1..]);
    }
  }

  lemma {:induction false} SqueezedSkip(s: string)
    ensures Squeezed(SkipDelimiters(s)) == Squeezed(s)
  {
    if s != "" && IsDelimiter(s[0]) {
      SqueezedSkip(s[1..]);
    }
  }

  /** Whatever the text, splitting loses and adds nothing but commas and blanks. */
  lemma {:induction false} TokensKeepText(s: string)
    ensures Concatenated(Tokens(s)) == Squeezed(s)
    decreases |s|
  {
    var token := TokenOf(s);
    SqueezedToken(token);
    if |token| == |s| {
      assert token == s && Tokens(s) == [s] && [s][1..] == [];
      assert Concatenated([s]) == s + Concatenated([]) == s;
    } else {
      var more := s[|token|..];
      TokensKeepText(SkipDelimiters(more));
      SqueezedSkip(more);
      SqueezedAppend(token, more);
      assert s == token + more;
      assert ([token] + Tokens(SkipDelimiters(more)))[1..] == Tokens(SkipDelimiters(more));
    }
  }

  /** Joining name servers with ", " and splitting gives them back exactly when they are listable. */
  lemma ListRoundTripIff(names: seq<string>)
    requires names != []
    ensures Tokens(TextEdits.Join(names, ", ")) == names <==> Listable(names)
  {
    TokensAreListable(TextEdits.Join(names, ", "));
    if Listable(names) {
      TokensOfJoin(names);
    }
  }

  // --------------------------------------------------------- address texts

  function ReadOctet(s: string): (r: Option<nat>)
    ensures r.Some? ==> r.value < 0x100 && s == Dec(r.value)
  {
    if s != "" && Digits(s) && Value(s) < 0x100 && Dec(Value(s)) == s then Some(Value(s)) else None
  }

  /** `make_address` for IPv4: four octets without leading zeros, separated by dots. */
  function ReadAddress(s: string): Option<Address> {
    var p := Split(s, '.');
    if |p| != 4 then None
    else
      match (ReadOctet(p[0]), ReadOctet(p[1]), ReadOctet(p[2]), ReadOctet(p[3]))
      case (Some(o0), Some(o1), Some(o2), Some(o3)) => Some(((o0 * 0x100 + o1) * 0x100 + o2) * 0x100 + o3)
      case _ => None
  }

  lemma ReadOctetOfDec(o: nat)
    requires o < 0x100
    ensures ReadOctet(Dec(o)) == Some(o)
  {
    ValueOfDec(o);
  }

  lemma SplitWhole(piece: string, delimiter: char)
    requires delimiter !in piece
    ensures Split(piece, delimiter) == [piece]
  {
    var line := Until(piece, delimiter);
    assert forall k | 0 <= k < |piece| :: piece[k] in piece;
    assert line == piece;
  }

  lemma SplitPair(t2: string, t3: string)
    requires '.' !in t2 && '.' !in t3
    ensures Split(t2 + "." + t3, '.') == [t2, t3]
  {
    SplitWhole(t3, '.');
    SplitHead(t2, '.', t3);
  }

  lemma SplitQuad(t0: string, t1: string, t2: string, t3: string)
    requires '.' !in t0 && '.' !in t1 && '.' !in t2 && '.' !in t3
    ensures Split(Dots(t0, t1, t2, t3), '.') == [t0, t1, t2, t3]
  {
    SplitPair(t2, t3);
    SplitHead(t1, '.', t2 + "." + t3);
    SplitHead(t0, '.', t1 + "." + (t2 + "." + t3));
  }

  lemma AddressReadsBack(a: Address)
    ensures ReadAddress(Dotted(a)) == Some(a)
  {
    var o0, o1, o2, o3 := Octet(a, 0), Octet(a, 1), Octet(a, 2), Octet(a, 3);
    SplitQuad(Dec(o0), Dec(o1), Dec(o2), Dec(o3));
    Octets(a);
    ReadOctetOfDec(o0);
    ReadOctetOfDec(o1);
    ReadOctetOfDec(o2);
    ReadOctetOfDec(o3);
  }

  lemma SplitFour(p: seq<string>)
    requires |p| == 4
    ensures TextEdits.Join(p, ".") == Dots(p[0], p[1], p[2], p[3])
  {
    var q, r := p[1..], p[2..];
    assert q[1..] == r && r[1..] == [p[3]];
    assert TextEdits.Join(r, ".") == p[2] + "." + p[3];
    assert TextEdits.Join(q, ".") == p[1] + "." + (p[2] + "." + p[3]);
  }

  lemma FourOctets(p: seq<string>, a: Address)
    requires |p| == 4 && ReadAddress(TextEdits.Join(p, ".")) == Some(a) && Split(TextEdits.Join(p, "."), '.') == p
    ensures Dots(p[0], p[1], p[2], p[3]) == Dotted(a)
  {
    Row(ReadOctet(p[0]).value, ReadOctet(p[1]).value, ReadOctet(p[2]).value, ReadOctet(p[3]).value, a);
  }

  /** A text is read as an address exactly when it is that address in dotted form; any other text is
      refused. */
  lemma ReadAddressIff(s: string, a: Address)
    ensures ReadAddress(s) == Some(a) <==> s == Dotted(a)
  {
    AddressReadsBack(a);
    if ReadAddress(s) == Some(a) {
      SplitJoins(s, '.');
      SplitFour(Split(s, '.'));
      FourOctets(Split(s, '.'), a);
    }
  }

  // --------------------------------------------------------------- sections

  datatype NetKey = Interface | IpAddress | MacAddress | SubnetMask | DomainName | Gateway | Nameservers | OtherKey(text: string)

  datatype AFNetwork = AFNetwork(
    subnet_mask: Option<Address>,
    gateway: Option<Address>,
    domain_name: Option<string>,
    nameservers: Option<seq<string>>,
    con_interface: Option<string>,
    con_ip_addr: Option<Address>,
    con_mac_addr: Option<string>)

  const NO_NETWORK := AFNetwork(None, None, None, None, None, None, None)

  function AddressText(a: Option<Address>): Option<string> {
    if a.Some? then Some(Dotted(a.value)) else None
  }

  /** What dumping a network puts under a key, if anything. */
  function Dumped(net: AFNetwork, key: NetKey): Option<string> {
    match key
    case Interface => net.con_interface
    case IpAddress => AddressText(net.con_ip_addr)
    case MacAddress => net.con_mac_addr
    case SubnetMask => AddressText(net.subnet_mask)
    case DomainName => net.domain_name
    case Gateway => AddressText(net.gateway)
    case Nameservers =>
      if net.nameservers.Some? && net.nameservers.value != [] then Some(TextEdits.Join(net.nameservers.value, ", ")) else None
    case OtherKey(_) => None
  }

  const KEYS := {Interface, IpAddress, MacAddress, SubnetMask, DomainName, Gateway, Nameservers}

  /** What dumping a network puts under those of its keys that are in `keys`. */
  function DumpedOf(net: AFNetwork, keys: set<NetKey>): Group<NetKey> {
    map key | key in keys && Dumped(net, key).Some? :: Dumped(net, key).value
  }

  function DumpedKeys(net: AFNetwork): Group<NetKey> {
    DumpedOf(net, KEYS)
  }

  /** A section with some keys written over it; no key, no section. */
  function Put(c: Content<NetKey>, section: string, keys: Group<NetKey>): Content<NetKey> {
    if keys == map[] then c else c[section := GetGroup(c, section) + keys]
  }

  /** The file after the dump; nothing is erased, and without any value no section is made. */
  function AfterDump(c: Content<NetKey>, section: string, net: AFNetwork): Content<NetKey> {
    Put(c, section, DumpedKeys(net))
  }

  datatype LoadError = NoInterface | BadAddress(key: NetKey)

  /** A missing key leaves the destination as it was. */
  function LoadAddress(g: Group<NetKey>, key: NetKey, was: Option<Address>): Result<Option<Address>, LoadError> {
    if key !in g then Ok(was)
    else
      var a := ReadAddress(g[key]);
      if a.Some? then Ok(a) else Err(BadAddress(key))
  }

  function TextOr(g: Group<NetKey>, key: NetKey, default: string): string {
    if key in g then g[key] else default
  }

  function LoadSection(g: Group<NetKey>, net: AFNetwork): Result<AFNetwork, LoadError> {
    if Interface !in g then Err(NoInterface)
    else
      match (LoadAddress(g, IpAddress, net.con_ip_addr), LoadAddress(g, SubnetMask, net.subnet_mask),
             LoadAddress(g, Gateway, net.gateway))
      case (Ok(ip), Ok(mask), Ok(gateway)) =>
        Ok(AFNetwork(mask, gateway, Some(TextOr(g, DomainName, "")),
                     if Nameservers in g then Some(Tokens(g[Nameservers])) else net.nameservers,
                     Some(g[Interface]), ip, Some(TextOr(g, MacAddress, ""))))
      case (Err(e), _, _) => Err(e)
      case (_, Err(e), _) => Err(e)
      case (_, _, Err(e)) => Err(e)
  }

  function Loaded(c: Content<NetKey>, section: string, net: AFNetwork): Result<AFNetwork, LoadError> {
    LoadSection(GetGroup(c, section), net)
  }

  /** The network as far as it is assigned when loading ends, and the error that ended it. */
  function Assigned(g: Group<NetKey>, net: AFNetwork): (AFNetwork, Option<LoadError>) {
    if Interface !in g then (net, Some(NoInterface))
    else
      var n1 := net.(con_interface := Some(g[Interface]));
      match LoadAddress(g, IpAddress, net.con_ip_addr)
      case Err(e) => (n1, Some(e))
      case Ok(ip) =>
        var n2 := n1.(con_ip_addr := ip, con_mac_addr := Some(TextOr(g, MacAddress, "")));
        match LoadAddress(g, SubnetMask, net.subnet_mask)
        case Err(e) => (n2, Some(e))
        case Ok(mask) =>
          var n3 := n2.(subnet_mask := mask, domain_name := Some(TextOr(g, DomainName, "")));
          match LoadAddress(g, Gateway, net.gateway)
          case Err(e) => (n3, Some(e))
          case Ok(gateway) =>
            (n3.(gateway := gateway, nameservers := if Nameservers in g then Some(Tokens(g[Nameservers])) else net.nameservers), None)
  }

  /** A load that ends well gives the loaded network. One that fails has assigned the fields up to the
      address at fault, which it leaves as it was with all that come after. */
  lemma AssignedIsLoaded(g: Group<NetKey>, net: AFNetwork)
    ensures var (n, error) := Assigned(g, net);
      && LoadSection(g, net) == (if error.None? then Ok(n) else Err(error.value))
      && (error.Some? ==> n.gateway == net.gateway && n.nameservers == net.nameservers)
      && (error.Some? && error != Some(BadAddress(Gateway)) ==> n.subnet_mask == net.subnet_mask && n.domain_name == net.domain_name)
      && (error == Some(BadAddress(IpAddress)) ==> n.con_ip_addr == net.con_ip_addr && n.con_mac_addr == net.con_mac_addr)
      && (error == Some(NoInterface) ==> n == net)
      && (error != Some(NoInterface) ==> Interface in g && n.con_interface == Some(g[Interface]))
  {
  }

  /** A section that says an address under a key says it in dotted form. */
  predicate AddressIfAny(g: Group<NetKey>, key: NetKey) {
    key in g ==> exists a: Address :: g[key] == Dotted(a)
  }

  lemma LoadAddressIff(g: Group<NetKey>, key: NetKey, was: Option<Address>)
    ensures LoadAddress(g, key, was).Ok? <==> AddressIfAny(g, key)
    ensures key in g && LoadAddress(g, key, was).Ok? ==>
      LoadAddress(g, key, was).value.Some? && g[key] == Dotted(LoadAddress(g, key, was).value.value)
    ensures key !in g ==> LoadAddress(g, key, was) == Ok(was)
  {
    if key in g {
      if LoadAddress(g, key, was).Ok? {
        ReadAddressIff(g[key], ReadAddress(g[key]).value);
      }
      if a: Address :| g[key] == Dotted(a) {
        ReadAddressIff(g[key], a);
      }
    }
  }

  /** A section loads exactly when it has an interface and every address in it is one; then each field
      is the text under its own key. */
  lemma LoadSectionTexts(g: Group<NetKey>, net: AFNetwork)
    ensures LoadSection(g, net).Ok?
       <==> (Interface in g && AddressIfAny(g, IpAddress) && AddressIfAny(g, SubnetMask) && AddressIfAny(g, Gateway))
    ensures LoadSection(g, net).Ok? ==>
      var n := LoadSection(g, net).value;
      && n.con_interface == GetStringOpt(g, Interface)
      && (if IpAddress in g then AddressText(n.con_ip_addr) == Some(g[IpAddress]) else n.con_ip_addr == net.con_ip_addr)
      && (if SubnetMask in g then AddressText(n.subnet_mask) == Some(g[SubnetMask]) else n.subnet_mask == net.subnet_mask)
      && (if Gateway in g then AddressText(n.gateway) == Some(g[Gateway]) else n.gateway == net.gateway)
      && n.con_mac_addr == Some(if MacAddress in g then g[MacAddress] else "")
      && n.domain_name == Some(if DomainName in g then g[DomainName] else "")
      && n.nameservers == (if Nameservers in g then Some(Tokens(g[Nameservers])) else net.nameservers)
  {
    LoadAddressIff(g, IpAddress, net.con_ip_addr);
    LoadAddressIff(g, SubnetMask, net.subnet_mask);
    LoadAddressIff(g, Gateway, net.gateway);
  }

  /** After a dump each field of the network that has a value is the text under its own key. */
  lemma DumpedTexts(c: Content<NetKey>, section: string, net: AFNetwork)
    ensures var g := GetGroup(AfterDump(c, section, net), section);
      && (net.con_interface.Some? ==> GetStringOpt(g, Interface) == net.con_interface)
      && (net.con_ip_addr.Some? ==> GetStringOpt(g, IpAddress) == Some(Dotted(net.con_ip_addr.value)))
      && (net.con_mac_addr.Some? ==> GetStringOpt(g, MacAddress) == net.con_mac_addr)
      && (net.subnet_mask.Some? ==> GetStringOpt(g, SubnetMask) == Some(Dotted(net.subnet_mask.value)))
      && (net.domain_name.Some? ==> GetStringOpt(g, DomainName) == net.domain_name)
      && (net.gateway.Some? ==> GetStringOpt(g, Gateway) == Some(Dotted(net.gateway.value)))
      && (net.nameservers.Some? && net.nameservers.value != [] ==>
            GetStringOpt(g, Nameservers) == Some(TextEdits.Join(net.nameservers.value, ", ")))
  {
    var g := GetGroup(c, section);
    forall key: NetKey { DumpedLookup(g, net, key); }
    assert g + map[] == g;
    assert GetGroup(AfterDump(c, section, net), section) == g + DumpedKeys(net);
  }

  /** What a dumped network comes back as: no MAC address and no domain become empty texts, and an
      empty list of name servers becomes none. */
  function Normal(net: AFNetwork): AFNetwork {
    net.(con_mac_addr := Some(if net.con_mac_addr.Some? then net.con_mac_addr.value else ""),
         domain_name := Some(if net.domain_name.Some? then net.domain_name.value else ""),
         nameservers := if net.nameservers == Some([]) then None else net.nameservers)
  }

  predicate NoStaleAddress(g: Group<NetKey>, net: AFNetwork) {
    && (net.con_ip_addr.None? ==> IpAddress !in g)
    && (net.subnet_mask.None? ==> SubnetMask !in g)
    && (net.gateway.None? ==> Gateway !in g)
  }

  predicate NoStaleText(g: Group<NetKey>, net: AFNetwork) {
    && (net.con_mac_addr.None? ==> TextOr(g, MacAddress, "") == "")
    && (net.domain_name.None? ==> TextOr(g, DomainName, "") == "")
    && (net.nameservers.None? || net.nameservers == Some([]) ==> Nameservers !in g)
  }

  /** No key of the section that the dump leaves alone would be taken for the network's own. */
  predicate NoStale(g: Group<NetKey>, net: AFNetwork) {
    NoStaleAddress(g, net) && NoStaleText(g, net)
  }

  lemma DumpedLookup(g: Group<NetKey>, net: AFNetwork, key: NetKey)
    ensures GetStringOpt(g + DumpedKeys(net), key) == if Dumped(net, key).Some? then Dumped(net, key) else GetStringOpt(g, key)
  {
    if Dumped(net, key).Some? {
      assert key in KEYS;
      assert key in DumpedKeys(net);
    } else {
      assert key !in DumpedKeys(net);
    }
  }

  lemma AddressComesBack(g: Group<NetKey>, key: NetKey, a: Option<Address>)
    requires a.Some? ==> key in g && g[key] == Dotted(a.value)
    ensures LoadAddress(g, key, None) == Ok(a) <==> (a.None? ==> key !in g)
  {
    if a.Some? {
      AddressReadsBack(a.value);
    }
  }

  predicate NamesComeBack(net: AFNetwork) {
    net.nameservers.Some? && net.nameservers.value != [] ==> Listable(net.nameservers.value)
  }

  /** Dumping a network section and loading it gives the normal form back exactly when the section
      held no stale key and the name servers, if any, are listable. */
  lemma NetworkRoundTripIff(c: Content<NetKey>, section: string, net: AFNetwork)
    requires net.con_interface.Some?
    ensures Loaded(AfterDump(c, section, net), section, NO_NETWORK) == Ok(Normal(net))
       <==> (NoStale(GetGroup(c, section), net) && NamesComeBack(net))
  {
    var g := GetGroup(c, section);
    forall key: NetKey { DumpedLookup(g, net, key); }
    DumpedLookup(g, net, Interface);
    assert Interface in DumpedKeys(net);
    assert GetGroup(AfterDump(c, section, net), section) == g + DumpedKeys(net);
    SectionRoundTripIff(g, g + DumpedKeys(net), net);
  }

  predicate Merged(g: Group<NetKey>, after: Group<NetKey>, net: AFNetwork, key: NetKey) {
    GetStringOpt(after, key) == if Dumped(net, key).Some? then Dumped(net, key) else GetStringOpt(g, key)
  }

  lemma AddressSlot(g: Group<NetKey>, after: Group<NetKey>, net: AFNetwork, key: NetKey, a: Option<Address>)
    requires Merged(g, after, net, key) && Dumped(net, key) == AddressText(a)
    ensures LoadAddress(after, key, None) == Ok(a) <==> (a.None? ==> key !in g)
  {
    AddressComesBack(after, key, a);
  }

  /** What loading makes of the name servers of a section, where none were known before. */
  function LoadedNames(g: Group<NetKey>): Option<seq<string>> {
    if Nameservers in g then Some(Tokens(g[Nameservers])) else None
  }

  lemma NamesSlot(g: Group<NetKey>, after: Group<NetKey>, net: AFNetwork)
    requires Merged(g, after, net, Nameservers)
    ensures LoadedNames(after) == Normal(net).nameservers
       <==> (NamesComeBack(net) && (net.nameservers.None? || net.nameservers == Some([]) ==> Nameservers !in g))
  {
    if net.nameservers.Some? && net.nameservers.value != [] {
      ListRoundTripIff(net.nameservers.value);
    }
  }

  lemma TextSlot(g: Group<NetKey>, after: Group<NetKey>, net: AFNetwork, key: NetKey, text: Option<string>)
    requires Merged(g, after, net, key) && Dumped(net, key) == text
    ensures TextOr(after, key, "") == (if text.Some? then text.value else "")
       <==> (text.None? ==> TextOr(g, key, "") == "")
  {
  }

  predicate AddressesLoadTo(g: Group<NetKey>, net: AFNetwork) {
    && LoadAddress(g, IpAddress, None) == Ok(net.con_ip_addr)
    && LoadAddress(g, SubnetMask, None) == Ok(net.subnet_mask)
    && LoadAddress(g, Gateway, None) == Ok(net.gateway)
  }

  predicate TextsLoadTo(g: Group<NetKey>, net: AFNetwork) {
    && Some(TextOr(g, MacAddress, "")) == net.con_mac_addr
    && Some(TextOr(g, DomainName, "")) == net.domain_name
    && LoadedNames(g) == net.nameservers
  }

  /** A section loads to a given network exactly when it does so field by field. */
  lemma LoadedIff(g: Group<NetKey>, net: AFNetwork)
    requires net.con_interface.Some? && Interface in g && g[Interface] == net.con_interface.value
    ensures LoadSection(g, NO_NETWORK) == Ok(net)
       <==> (AddressesLoadTo(g, net) && TextsLoadTo(g, net))
  {
  }

  lemma AddressSlotsIff(g: Group<NetKey>, after: Group<NetKey>, net: AFNetwork)
    requires Merged(g, after, net, IpAddress) && Merged(g, after, net, SubnetMask) && Merged(g, after, net, Gateway)
    ensures AddressesLoadTo(after, Normal(net)) <==> NoStaleAddress(g, net)
  {
    AddressSlot(g, after, net, IpAddress, net.con_ip_addr);
    AddressSlot(g, after, net, SubnetMask, net.subnet_mask);
    AddressSlot(g, after, net, Gateway, net.gateway);
  }

  lemma TextSlotsIff(g: Group<NetKey>, after: Group<NetKey>, net: AFNetwork)
    requires Merged(g, after, net, MacAddress) && Merged(g, after, net, DomainName) && Merged(g, after, net, Nameservers)
    ensures TextsLoadTo(after, Normal(net)) <==> (NoStaleText(g, net) && NamesComeBack(net))
  {
    TextSlot(g, after, net, MacAddress, net.con_mac_addr);
    TextSlot(g, after, net, DomainName, net.domain_name);
    NamesSlot(g, after, net);
  }

  lemma SectionRoundTripIff(g: Group<NetKey>, after: Group<NetKey>, net: AFNetwork)
    requires net.con_interface.Some?
    requires forall key :: Merged(g, after, net, key)
    ensures LoadSection(after, NO_NETWORK) == Ok(Normal(net)) <==> (NoStale(g, net) && NamesComeBack(net))
  {
    assert Merged(g, after, net, Interface);
    LoadedIff(after, Normal(net));
    AddressSlotsIff(g, after, net);
    TextSlotsIff(g, after, net);
  }

  /** A gateway that an earlier dump left in the section becomes the gateway of a network that has
      none. */
  lemma StaleGatewayComesBack()
    ensures var net := NO_NETWORK.(con_interface := Some("eth0"));
            var c := map["network_external" := map[Gateway := "10.0.0.1"]];
            Loaded(AfterDump(c, "network_external", net), "network_external", NO_NETWORK) != Ok(Normal(net))
  {
    var net := NO_NETWORK.(con_interface := Some("eth0"));
    var c: Content<NetKey> := map["network_external" := map[Gateway := "10.0.0.1"]];
    NetworkRoundTripIff(c, "network_external", net);
    assert Gateway in GetGroup(c, "network_external");
  }

  // ------------------------------------------------------------ on the heap

  lemma PutOneMore(c: Content<NetKey>, section: string, net: AFNetwork, done: set<NetKey>, key: NetKey)
    requires Dumped(net, key).Some?
    ensures SetKey(Put(c, section, DumpedOf(net, done)), section, key, Dumped(net, key).value)
         == Put(c, section, DumpedOf(net, done + {key}))
  {
    var w, v := DumpedOf(net, done), DumpedOf(net, done + {key});
    assert v == w[key := Dumped(net, key).value];
    var g := GetGroup(c, section);
    assert key in v;
    assert (g + w)[key := Dumped(net, key).value] == g + v;
    if w == map[] {
      assert g + w == g;
    }
  }

  lemma PutNothing(net: AFNetwork, done: set<NetKey>, key: NetKey)
    requires Dumped(net, key).None?
    ensures DumpedOf(net, done + {key}) == DumpedOf(net, done)
  {
  }

  /** The network sections of class AnswerFile. */
  class AnswerFile {
    const keyfile: KeyFile<NetKey>
    var external: AFNetwork
    var management: AFNetwork
    var application: AFNetwork

    constructor (keyfile: KeyFile<NetKey>)
      ensures this.keyfile == keyfile
      ensures external == NO_NETWORK && management == NO_NETWORK && application == NO_NETWORK
    {
      this.keyfile := keyfile;
      external, management, application := NO_NETWORK, NO_NETWORK, NO_NETWORK;
    }

    /** One conditional write of dumpNetwork. */
    method DumpKey(section: string, net: AFNetwork, key: NetKey, ghost was: Content<NetKey>, ghost done: set<NetKey>)
      returns (ghost next: set<NetKey>)
      requires keyfile.data == Put(was, section, DumpedOf(net, done))
      modifies keyfile
      ensures next == done + {key} && keyfile.data == Put(was, section, DumpedOf(net, next))
    {
      next := done + {key};
      var value := Dumped(net, key);
      if value.Some? {
        PutOneMore(was, section, net, done, key);
      } else {
        PutNothing(net, done, key);
      }
      keyfile.SetStringOpt(section, key, value);
    }

    method DumpNetwork(section: string, net: AFNetwork)
      modifies keyfile
      ensures keyfile.data == AfterDump(old(keyfile.data), section, net)
    {
      ghost var was := keyfile.data;
      ghost var done: set<NetKey> := {};
      done := DumpKey(section, net, Interface, was, done);
      done := DumpKey(section, net, IpAddress, was, done);
      done := DumpKey(section, net, MacAddress, was, done);
      done := DumpKey(section, net, SubnetMask, was, done);
      done := DumpKey(section, net, DomainName, was, done);
      done := DumpKey(section, net, Gateway, was, done);
      done := DumpKey(section, net, Nameservers, was, done);
      assert done == KEYS;
    }

    /** Fields are assigned one after the other, up to the first that fails. */
    method LoadNetwork(section: string, was: AFNetwork) returns (net: AFNetwork, error: Option<LoadError>)
      ensures (net, error) == Assigned(GetGroup(keyfile.data, section), was)
    {
      net, error := was, None;
      var g := if section in keyfile.data then keyfile.data[section] else map[];
      if Interface !in g {
        return net, Some(NoInterface);
      }
      net := net.(con_interface := Some(g[Interface]));
      match LoadAddress(g, IpAddress, net.con_ip_addr) {
        case Ok(a) => net := net.(con_ip_addr := a);
        case Err(e) => return net, Some(e);
      }
      net := net.(con_mac_addr := Some(TextOr(g, MacAddress, "")));
      match LoadAddress(g, SubnetMask, net.subnet_mask) {
        case Ok(a) => net := net.(subnet_mask := a);
        case Err(e) => return net, Some(e);
      }
      net := net.(domain_name := Some(TextOr(g, DomainName, "")));
      match LoadAddress(g, Gateway, net.gateway) {
        case Ok(a) => net := net.(gateway := a);
        case Err(e) => return net, Some(e);
      }
      if Nameservers in g {
        net := net.(nameservers := Some(Tokens(g[Nameservers])));
      }
    }

    method DumpExternalNetwork()
      modifies keyfile
      ensures keyfile.data == AfterDump(old(keyfile.data), "network_external", external)
    {
      DumpNetwork("network_external", external);
    }

    method LoadExternalNetwork() returns (error: Option<LoadError>)
      modifies this`external
      ensures (external, error) == Assigned(GetGroup(keyfile.data, "network_external"), old(external))
    {
      external, error := LoadNetwork("network_external", external);
    }

    /** Only a file that has the section is asked for the application network. */
    method LoadApplicationNetwork() returns (error: Option<LoadError>)
      modifies this`application
      ensures "network_application" !in keyfile.data ==> error.None? && application == old(application)
      ensures "network_application" in keyfile.data ==>
              (application, error) == Assigned(keyfile.data["network_application"], old(application))
    {
      if "network_application" !in keyfile.data {
        return None;
      }
      application, error := LoadNetwork("network_application", application);
    }
  }
}
