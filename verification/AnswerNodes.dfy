/** Node sections of the answer file: loadNodes, loadNode and validateNode of
    src/models/answerfile.cpp. */
module AnswerNodes {
  import opened Wrappers
  import opened Sequences
  import opened KeyFiles
  import opened Decimals
  import opened Ipv4
  import AnswerNetworks

  /** The attributes a node inherits from the generic section, in the order they are looked at. */
  datatype Attribute = StartIp | RootPassword | Sockets | CoresPerSocket | ThreadsPerCore
    | BmcAddress | BmcUsername | BmcPassword | BmcSerialPort | BmcSerialSpeed

  /** The keys of a node section; `Own` are those of the inherited attributes. */
  datatype NodeKey = Prefix | Padding | MacAddress | Hostname | Own(attribute: Attribute) | OtherKey(text: string)

  /** An address of zero is the unspecified one. */
  datatype AFNode = AFNode(
    prefix: Option<string>,
    padding: Option<string>,
    start_ip: Address,
    hostname: string,
    root_password: string,
    mac_address: Option<string>,
    sockets: string,
    cores_per_socket: string,
    threads_per_core: string,
    bmc_address: string,
    bmc_username: string,
    bmc_password: string,
    bmc_serialport: string,
    bmc_serialspeed: string)

  datatype NodeError =
    | MissingKey(section: string, key: NodeKey)
    | BadNodeIp(section: string)
    | NoHostname(number: nat, key: NodeKey)
    | BadPadding(text: string)
    | NoValue(number: nat, attribute: Attribute)

  // ------------------------------------------------------------- attributes

  predicate Empty(node: AFNode, a: Attribute) {
    match a
    case StartIp => node.start_ip == 0
    case RootPassword => node.root_password == ""
    case Sockets => node.sockets == ""
    case CoresPerSocket => node.cores_per_socket == ""
    case ThreadsPerCore => node.threads_per_core == ""
    case BmcAddress => node.bmc_address == ""
    case BmcUsername => node.bmc_username == ""
    case BmcPassword => node.bmc_password == ""
    case BmcSerialPort => node.bmc_serialport == ""
    case BmcSerialSpeed => node.bmc_serialspeed == ""
  }

  /** The same value of one attribute in both nodes. */
  predicate Agree(m: AFNode, n: AFNode, a: Attribute) {
    match a
    case StartIp => m.start_ip == n.start_ip
    case RootPassword => m.root_password == n.root_password
    case Sockets => m.sockets == n.sockets
    case CoresPerSocket => m.cores_per_socket == n.cores_per_socket
    case ThreadsPerCore => m.threads_per_core == n.threads_per_core
    case BmcAddress => m.bmc_address == n.bmc_address
    case BmcUsername => m.bmc_username == n.bmc_username
    case BmcPassword => m.bmc_password == n.bmc_password
    case BmcSerialPort => m.bmc_serialport == n.bmc_serialport
    case BmcSerialSpeed => m.bmc_serialspeed == n.bmc_serialspeed
  }

  /** The same name, MAC address, prefix and padding: what is never inherited. */
  predicate SameIdentity(m: AFNode, n: AFNode) {
    m.prefix == n.prefix && m.padding == n.padding && m.hostname == n.hostname && m.mac_address == n.mac_address
  }

  /** A node that needs no generic value. */
  ghost predicate Complete(node: AFNode) {
    forall a: Attribute :: !Empty(node, a)
  }

  /** Neither the node nor the generic section has the attribute. */
  predicate Missing(node: AFNode, generic: AFNode, a: Attribute) {
    Empty(node, a) && Empty(generic, a)
  }

  function Rank(a: Attribute): nat {
    match a
    case StartIp => 0
    case RootPassword => 1
    case Sockets => 2
    case CoresPerSocket => 3
    case ThreadsPerCore => 4
    case BmcAddress => 5
    case BmcUsername => 6
    case BmcPassword => 7
    case BmcSerialPort => 8
    case BmcSerialSpeed => 9
  }

  /** Each of the first `k` attributes has a value on one side at least. */
  ghost predicate NoneMissing(node: AFNode, generic: AFNode, k: nat) {
    forall a: Attribute | Rank(a) < k :: !Missing(node, generic, a)
  }

  /** validateAttribute: a value of one's own is kept, an empty one is replaced by the generic one. */
  function ValidateAttribute(node: AFNode, generic: AFNode, a: Attribute): Result<AFNode, Attribute> {
    if !Empty(node, a) then Ok(node)
    else if Empty(generic, a) then Err(a)
    else
      Ok(match a
         case StartIp => node.(start_ip := generic.start_ip)
         case RootPassword => node.(root_password := generic.root_password)
         case Sockets => node.(sockets := generic.sockets)
         case CoresPerSocket => node.(cores_per_socket := generic.cores_per_socket)
         case ThreadsPerCore => node.(threads_per_core := generic.threads_per_core)
         case BmcAddress => node.(bmc_address := generic.bmc_address)
         case BmcUsername => node.(bmc_username := generic.bmc_username)
         case BmcPassword => node.(bmc_password := generic.bmc_password)
         case BmcSerialPort => node.(bmc_serialport := generic.bmc_serialport)
         case BmcSerialSpeed => node.(bmc_serialspeed := generic.bmc_serialspeed))
  }

  const ORDER := [StartIp, RootPassword, Sockets, CoresPerSocket, ThreadsPerCore,
                  BmcAddress, BmcUsername, BmcPassword, BmcSerialPort, BmcSerialSpeed]

  /** The first `k` attributes validated in order, up to the first that neither side has. */
  function Validated(node: AFNode, generic: AFNode, k: nat): Result<AFNode, Attribute>
    requires k <= |ORDER|
  {
    if k == 0 then Ok(node)
    else
      match Validated(node, generic, k - 1)
      case Err(a) => Err(a)
      case Ok(n) => ValidateAttribute(n, generic, ORDER[k - 1])
  }

  function Validate(node: AFNode, generic: AFNode): Result<AFNode, Attribute> {
    Validated(node, generic, |ORDER|)
  }

  lemma OrderIsRank(a: Attribute)
    ensures Rank(a) < |ORDER| && ORDER[Rank(a)] == a
  {
  }

  lemma RankInjective(a: Attribute, b: Attribute)
    ensures Rank(a) == Rank(b) ==> a == b
  {
  }

  /** What one attribute's turn leaves: its value, and every other attribute as it was. */
  lemma AttributeTurn(node: AFNode, generic: AFNode, a: Attribute, b: Attribute)
    ensures ValidateAttribute(node, generic, a).Err? <==> Missing(node, generic, a)
    ensures ValidateAttribute(node, generic, a).Err? ==> ValidateAttribute(node, generic, a).error == a
    ensures ValidateAttribute(node, generic, a).Ok? ==>
            var n := ValidateAttribute(node, generic, a).value;
            && SameIdentity(n, node)
            && !Empty(n, a) && Agree(n, if Empty(node, a) then generic else node, a)
            && (a != b ==> Agree(n, node, b))
  {
  }

  /** `n` is the node with its first `k` attributes inherited where it lacked them. */
  ghost predicate InheritsFirst(n: AFNode, node: AFNode, generic: AFNode, k: nat) {
    forall a: Attribute :: InheritsAt(n, node, generic, k, a)
  }

  predicate InheritsAt(n: AFNode, node: AFNode, generic: AFNode, k: nat, a: Attribute) {
    if Rank(a) < k then !Empty(n, a) && Agree(n, if Empty(node, a) then generic else node, a)
    else Agree(n, node, a)
  }

  lemma AgreeEmpty(m: AFNode, n: AFNode, a: Attribute)
    requires Agree(m, n, a)
    ensures Empty(m, a) <==> Empty(n, a)
  {
  }

  lemma AgreeTransitive(l: AFNode, m: AFNode, n: AFNode, a: Attribute)
    requires Agree(l, m, a) && Agree(m, n, a)
    ensures Agree(l, n, a)
  {
  }

  lemma InheritsOneMore(n: AFNode, n': AFNode, node: AFNode, generic: AFNode, k: nat, a: Attribute)
    requires k < |ORDER| && InheritsFirst(n, node, generic, k)
    requires ValidateAttribute(n, generic, ORDER[k]) == Ok(n')
    ensures InheritsAt(n', node, generic, k + 1, a)
  {
    var b := ORDER[k];
    AttributeTurn(n, generic, b, a);
    OrderIsRank(a);
    assert Rank(b) == k;
    assert InheritsAt(n, node, generic, k, a) && InheritsAt(n, node, generic, k, b);
    if a == b {
      AgreeEmpty(n, node, b);
      AgreeTransitive(n', if Empty(n, b) then generic else n, if Empty(node, b) then generic else node, b);
    } else {
      AgreeEmpty(n', n, a);
      AgreeTransitive(n', n, if Rank(a) < k && Empty(node, a) then generic else node, a);
    }
  }

  lemma AgreeReflexive(n: AFNode, a: Attribute)
    ensures Agree(n, n, a)
  {
  }

  /** Validation of the first `k` attributes succeeds when none is missing, with each inherited as it
      should be; otherwise it names the first that is missing. */
  lemma {:induction false} ValidatedPrefix(node: AFNode, generic: AFNode, k: nat)
    requires k <= |ORDER|
    ensures Validated(node, generic, k).Ok? ==>
            NoneMissing(node, generic, k) && SameIdentity(Validated(node, generic, k).value, node)
            && InheritsFirst(Validated(node, generic, k).value, node, generic, k)
    ensures Validated(node, generic, k).Err? ==>
            var a := Validated(node, generic, k).error;
            Rank(a) < k && Missing(node, generic, a) && NoneMissing(node, generic, Rank(a))
  {
    if k == 0 {
      forall a: Attribute
        ensures InheritsAt(node, node, generic, k, a)
      {
        AgreeReflexive(node, a);
      }
      return;
    }
    ValidatedPrefix(node, generic, k - 1);
    var before := Validated(node, generic, k - 1);
    if before.Err? {
      return;
    }
    var n, b := before.value, ORDER[k - 1];
    assert Rank(b) == k - 1;
    assert InheritsAt(n, node, generic, k - 1, b);
    AgreeEmpty(n, node, b);
    AttributeTurn(n, generic, b, b);
    forall a: Attribute | Rank(a) < k && ValidateAttribute(n, generic, b).Ok?
      ensures !Missing(node, generic, a)
    {
      if Rank(a) == k - 1 { RankInjective(a, b); }
    }
    var r := ValidateAttribute(n, generic, b);
    if r.Ok? {
      forall a: Attribute
        ensures InheritsAt(r.value, node, generic, k, a)
      {
        InheritsOneMore(n, r.value, node, generic, k - 1, a);
      }
    }
  }

  /** A node is valid exactly when no attribute is empty on both sides; then its attributes are its
      own where it has them and the generic ones elsewhere. */
  lemma ValidateIff(node: AFNode, generic: AFNode)
    ensures Validate(node, generic).Ok? <==> forall a: Attribute :: !Missing(node, generic, a)
    ensures Validate(node, generic).Ok? ==>
            var n := Validate(node, generic).value;
            && SameIdentity(n, node) && Complete(n)
            && forall a: Attribute :: Agree(n, if Empty(node, a) then generic else node, a)
    ensures Validate(node, generic).Err? ==>
            var a := Validate(node, generic).error; Missing(node, generic, a) && NoneMissing(node, generic, Rank(a))
  {
    ValidatedPrefix(node, generic, |ORDER|);
    var r := Validate(node, generic);
    if r.Ok? {
      forall a: Attribute
        ensures !Missing(node, generic, a) && !Empty(r.value, a)
        ensures Agree(r.value, if Empty(node, a) then generic else node, a)
      {
        OrderIsRank(a);
        assert InheritsAt(r.value, node, generic, |ORDER|, a);
      }
    }
  }

  lemma {:induction false} CompleteStays(node: AFNode, generic: AFNode, k: nat)
    requires Complete(node) && k <= |ORDER|
    ensures Validated(node, generic, k) == Ok(node)
  {
    if k > 0 {
      CompleteStays(node, generic, k - 1);
    }
  }

  /** A validated node is left as it is by any later validation, against whatever generic section. */
  lemma ValidateTwice(node: AFNode, generic: AFNode, other: AFNode)
    requires Validate(node, generic).Ok?
    ensures var n := Validate(node, generic).value; Validate(n, other) == Ok(n)
  {
    ValidateIff(node, generic);
    CompleteStays(Validate(node, generic).value, other, |ORDER|);
  }

  // ------------------------------------------------------------- hostnames

  const WORD: nat := 0x1_0000_0000_0000_0000

  /** `boost::lexical_cast<std::size_t>`: digits with an optional sign; a minus wraps around. */
  function LexicalCast(text: string): (r: Option<nat>)
    ensures r.Some? ==> r.value < WORD
  {
    var signed := text != "" && (text[0] == '-' || text[0] == '+');
    var digits := if signed then text[1..] else text;
    if digits == "" || !Digits(digits) || Value(digits) >= WORD then None
    else if signed && text[0] == '-' then Some((WORD - Value(digits)) % WORD)
    else Some(Value(digits))
  }

  const NODE := "node."

  /** The number of a section, when it is that of a node: above zero. */
  function NodeNumber(section: string): (r: Option<nat>)
    ensures r.Some? ==> 0 < r.value < WORD
  {
    if !(NODE <= section) then None
    else
      var n := LexicalCast(section[|NODE|..]);
      if n.Some? && n.value > 0 then n else None
  }

  /** Any zero-padded form of a number is read as that number. */
  lemma NodeNumberOfPadded(n: nat, width: nat)
    ensures NodeNumber(NODE + Padded(n, width)) == if 0 < n < WORD then Some(n) else None
  {
    PaddedValue(n, width);
    CastDigits(Padded(n, width));
    AfterNode(Padded(n, width));
  }

  lemma CastDigits(digits: string)
    requires digits != "" && Digits(digits)
    ensures LexicalCast(digits) == if Value(digits) < WORD then Some(Value(digits)) else None
  {
    assert IsDigit(digits[0]);
  }

  /** A sign changes nothing before the digits but that a minus counts back from 2^64. */
  lemma CastSigned(text: string, digits: string)
    requires digits != "" && Digits(digits) && (text == "+" + digits || text == "-" + digits)
    ensures LexicalCast(text)
         == if Value(digits) >= WORD then None
            else Some(if text[0] == '+' || Value(digits) == 0 then Value(digits) else WORD - Value(digits))
  {
    assert text[1..] == digits;
    CastAfterSign(text, digits);
  }

  lemma CastAfterSign(text: string, digits: string)
    requires digits != "" && Digits(digits) && text != "" && text[1..] == digits && (text[0] == '+' || text[0] == '-')
    ensures LexicalCast(text)
         == if Value(digits) >= WORD then None
            else if text[0] == '-' then Some((WORD - Value(digits)) % WORD) else Some(Value(digits))
  {
  }

  /** Nothing else is a number: it is digits of a number below 2^64, with at most a sign before them. */
  lemma CastIff(text: string)
    ensures LexicalCast(text).Some?
       <==> exists digits :: digits != "" && Digits(digits) && Value(digits) < WORD
                             && (text == digits || text == "+" + digits || text == "-" + digits)
  {
    if LexicalCast(text).Some? {
      var signed := text[0] == '-' || text[0] == '+';
      var digits := if signed then text[1..] else text;
      assert signed ==> text == [text[0]] + digits;
    }
    if digits :| digits != "" && Digits(digits) && Value(digits) < WORD
                 && (text == digits || text == "+" + digits || text == "-" + digits) {
      if text == digits { CastDigits(digits); } else { CastSigned(text, digits); }
    }
  }

  lemma AfterNode(text: string)
    ensures var n := LexicalCast(text); NodeNumber(NODE + text) == if n.Some? && n.value > 0 then n else None
  {
    assert (NODE + text)[|NODE|..] == text;
  }

  /** A section is that of a node exactly when its name is "node." and a number above zero. */
  lemma NodeNumberIff(section: string, n: nat)
    ensures NodeNumber(section) == Some(n)
       <==> (n > 0 && exists text :: section == "node." + text && LexicalCast(text) == Some(n))
  {
    if NodeNumber(section).Some? {
      var text := section[|NODE|..];
      assert section == "node." + text;
    }
    if text :| section == "node." + text && LexicalCast(text) == Some(n) {
      AfterNode(text);
    }
  }

  predicate IsSpace(c: char) {
    c == ' ' || '\t' <= c <= '\r'
  }

  function SkipSpace(text: string): string {
    if text != "" && IsSpace(text[0]) then SkipSpace(text[1..]) else text
  }

  function LeadingDigits(text: string): (r: string)
    ensures Digits(r) && r <= text
  {
    if text == "" || !IsDigit(text[0]) then "" else [text[0]] + LeadingDigits(text[1..])
  }

  /** `std::stoi`: space, an optional sign and digits; anything may follow. */
  function Stoi(text: string): Option<int> {
    var t := SkipSpace(text);
    var signed := t != "" && (t[0] == '-' || t[0] == '+');
    var digits := LeadingDigits(if signed then t[1..] else t);
    var value: int := Value(digits);
    var n := if signed && t[0] == '-' then -value else value;
    if digits == "" || !(-0x8000_0000 <= n < 0x8000_0000) then None else Some(n)
  }

  lemma {:induction false} SkipSpaces(space: string, text: string)
    requires (forall i | 0 <= i < |space| :: IsSpace(space[i])) && text != "" && !IsSpace(text[0])
    ensures SkipSpace(space + text) == text
  {
    if space == "" {
      assert space + text == text;
    } else {
      assert (space + text)[1..] == space[1..] + text;
      SkipSpaces(space[1..], text);
    }
  }

  lemma {:induction false} LeadingDigitsOf(digits: string, rest: string)
    requires Digits(digits) && (rest == "" || !IsDigit(rest[0]))
    ensures LeadingDigits(digits + rest) == digits
  {
    if digits == "" {
      assert digits + rest == rest;
    } else {
      assert (digits + rest)[1..] == digits[1..] + rest;
      LeadingDigitsOf(digits[1..], rest);
    }
  }

  /** A number in digits is read as it is, whatever blanks stand before it and whatever text after. */
  lemma StoiReads(space: string, digits: string, rest: string)
    requires forall i | 0 <= i < |space| :: space[i] == ' ' || '\t' <= space[i] <= '\r'
    requires digits != "" && Digits(digits) && (rest == "" || !IsDigit(rest[0]))
    ensures Stoi(space + (digits + rest)) == if Value(digits) < 0x8000_0000 then Some(Value(digits)) else None
  {
    var t := digits + rest;
    assert IsDigit(digits[0]) && t[0] == digits[0];
    SkipSpaces(space, t);
    LeadingDigitsOf(digits, rest);
  }

  /** And so is a negative one. */
  lemma StoiReadsNegative(space: string, digits: string, rest: string)
    requires forall i | 0 <= i < |space| :: space[i] == ' ' || '\t' <= space[i] <= '\r'
    requires digits != "" && Digits(digits) && (rest == "" || !IsDigit(rest[0]))
    ensures Stoi(space + ("-" + (digits + rest))) == if Value(digits) <= 0x8000_0000 then Some(-(Value(digits) as int)) else None
  {
    var t := "-" + (digits + rest);
    SkipSpaces(space, t);
    LeadingDigitsOf(digits, rest);
    assert t[1..] == digits + rest;
  }

  /** The name of a node without one: the generic prefix and its number, filled up with zeros to the
      generic width. A width that is no number, or a negative one, is an error. */
  function GeneratedName(generic: AFNode, number: nat): Result<string, NodeError> {
    if generic.prefix.None? || generic.prefix.value == "" then Err(NoHostname(number, Prefix))
    else if generic.padding.None? || generic.padding.value == "" then Err(NoHostname(number, Padding))
    else
      var width := Stoi(generic.padding.value);
      if width.None? || width.value < 0 then Err(BadPadding(generic.padding.value))
      else Ok(generic.prefix.value + Padded(number, width.value))
  }

  /** Generated names are equal exactly for equal numbers, whatever the width. */
  lemma GeneratedNamesIff(generic: AFNode, m: nat, n: nat)
    requires GeneratedName(generic, m).Ok? && GeneratedName(generic, n).Ok?
    ensures GeneratedName(generic, m) == GeneratedName(generic, n) <==> m == n
  {
    var prefix := generic.prefix.value;
    var width := Stoi(generic.padding.value).value;
    var s, t := Padded(m, width), Padded(n, width);
    assert (prefix + s)[|prefix|..] == s && (prefix + t)[|prefix|..] == t;
    PaddedInjective(m, width, n, width);
  }

  // --------------------------------------------------------------- sections

  function TextOr(g: Group<NodeKey>, key: NodeKey): string {
    if key in g then g[key] else ""
  }

  /** loadNode: the generic section must name a prefix and a padding, any other a MAC address. */
  function LoadNode(data: Content<NodeKey>, section: string): Result<AFNode, NodeError> {
    var g := GetGroup(data, section);
    var generic := section == "node";
    var ip := if Own(StartIp) in g then AnswerNetworks.ReadAddress(g[Own(StartIp)]) else Some(0);
    if generic && Prefix !in g then Err(MissingKey(section, Prefix))
    else if generic && Padding !in g then Err(MissingKey(section, Padding))
    else if !generic && MacAddress !in g then Err(MissingKey(section, MacAddress))
    else if ip.None? then Err(BadNodeIp(section))
    else
      Ok(AFNode(if generic then Some(g[Prefix]) else None, if generic then Some(g[Padding]) else None,
                ip.value, TextOr(g, Hostname), TextOr(g, Own(RootPassword)),
                if generic then None else Some(g[MacAddress]),
                TextOr(g, Own(Sockets)), TextOr(g, Own(CoresPerSocket)), TextOr(g, Own(ThreadsPerCore)),
                TextOr(g, Own(BmcAddress)), TextOr(g, Own(BmcUsername)), TextOr(g, Own(BmcPassword)),
                TextOr(g, Own(BmcSerialPort)), TextOr(g, Own(BmcSerialSpeed))))
  }

  /** The node of one numbered section: loaded, named and validated. */
  function BuildNode(data: Content<NodeKey>, generic: AFNode, section: string): Result<AFNode, NodeError>
    requires NodeNumber(section).Some?
  {
    var number := NodeNumber(section).value;
    match LoadNode(data, section)
    case Err(e) => Err(e)
    case Ok(node) =>
      var name := if node.hostname != "" then Ok(node.hostname) else GeneratedName(generic, number);
      if name.Err? then Err(name.error)
      else
        match Validate(node.(hostname := name.value), generic)
        case Err(a) => Err(NoValue(number, a))
        case Ok(n) => Ok(n)
  }

  /** The numbered sections, in file order. */
  function Numbered(sections: seq<string>): (r: seq<string>)
    ensures forall s | s in r :: s in sections && NodeNumber(s).Some?
    ensures forall s | s in sections && NodeNumber(s).Some? :: s in r
  {
    if sections == [] then []
    else Numbered(Front(sections)) + if NodeNumber(Last(sections)).Some? then [Last(sections)] else []
  }

  /** One section's turn, after nodes without an error. */
  function Extended(data: Content<NodeKey>, generic: AFNode, nodes: seq<AFNode>, section: string): (seq<AFNode>,
                    Option<NodeError>) {
    if NodeNumber(section).None? then (nodes, None)
    else
      match BuildNode(data, generic, section)
      case Err(e) => (nodes, Some(e))
      case Ok(node) => (nodes + [node], None)
  }

  /** loadNodes: the nodes up to the first section that fails, and its error. */
  function NodesOf(data: Content<NodeKey>, generic: AFNode, sections: seq<string>): (seq<AFNode>, Option<NodeError>) {
    if sections == [] then ([], None)
    else
      var (nodes, error) := NodesOf(data, generic, Front(sections));
      if error.Some? then (nodes, error) else Extended(data, generic, nodes, Last(sections))
  }

  /** One node per numbered section, in order, up to the first that cannot be built. */
  predicate BuiltFrom(data: Content<NodeKey>, generic: AFNode, nodes: seq<AFNode>, error: Option<NodeError>,
                      numbered: seq<string>)
    requires forall s | s in numbered :: NodeNumber(s).Some?
  {
    && |nodes| <= |numbered|
    && (forall k | 0 <= k < |nodes| :: numbered[k] in numbered && BuildNode(data, generic, numbered[k]) == Ok(nodes[k]))
    && (error.None? <==> |nodes| == |numbered|)
    && (error.Some? ==> numbered[|nodes|] in numbered && BuildNode(data, generic, numbered[|nodes|]) == Err(error.value))
  }

  lemma BuiltOneMore(data: Content<NodeKey>, generic: AFNode, nodes: seq<AFNode>, numbered: seq<string>, section: string)
    requires forall s | s in numbered :: NodeNumber(s).Some?
    requires NodeNumber(section).Some? && BuiltFrom(data, generic, nodes, None, numbered)
    ensures BuiltFrom(data, generic, Extended(data, generic, nodes, section).0, Extended(data, generic, nodes, section).1,
                      numbered + [section])
  {
    var built := BuildNode(data, generic, section);
    if built.Ok? {
      assert Extended(data, generic, nodes, section) == (nodes + [built.value], None);
    } else {
      assert Extended(data, generic, nodes, section) == (nodes, Some(built.error));
    }
  }

  lemma ErrorBuilt(data: Content<NodeKey>, generic: AFNode, nodes: seq<AFNode>, error: Option<NodeError>,
                   numbered: seq<string>, more: seq<string>)
    requires forall s | s in numbered + more :: NodeNumber(s).Some?
    requires forall s | s in numbered :: NodeNumber(s).Some?
    requires error.Some? && BuiltFrom(data, generic, nodes, error, numbered)
    ensures BuiltFrom(data, generic, nodes, error, numbered + more)
  {
  }

  /** Loading yields one node per numbered section in file order, up to the first that cannot be
      built, whose error it reports. */
  lemma {:induction false} LoadedNodes(data: Content<NodeKey>, generic: AFNode, sections: seq<string>)
    ensures BuiltFrom(data, generic, NodesOf(data, generic, sections).0, NodesOf(data, generic, sections).1, Numbered(sections))
  {
    if sections != [] {
      var section := Last(sections);
      var (nodes, error) := NodesOf(data, generic, Front(sections));
      LoadedNodes(data, generic, Front(sections));
      if error.Some? {
        ErrorBuilt(data, generic, nodes, error, Numbered(Front(sections)), if NodeNumber(section).Some? then [section] else []);
      } else if NodeNumber(section).Some? {
        BuiltOneMore(data, generic, nodes, Numbered(Front(sections)), section);
      } else {
        assert Numbered(sections) == Numbered(Front(sections));
      }
    }
  }

  /** The section itself gives no value for the attribute. */
  predicate Lacks(g: Group<NodeKey>, a: Attribute) {
    if a.StartIp? then Own(StartIp) !in g || AnswerNetworks.ReadAddress(g[Own(StartIp)]) == Some(0)
    else TextOr(g, Own(a)) == ""
  }

  predicate CanName(generic: AFNode) {
    && generic.prefix.Some? && generic.prefix.value != ""
    && generic.padding.Some? && Stoi(generic.padding.value).Some? && Stoi(generic.padding.value).value >= 0
  }

  lemma LoadedEmptyIff(data: Content<NodeKey>, section: string, a: Attribute)
    requires LoadNode(data, section).Ok?
    ensures Empty(LoadNode(data, section).value, a) <==> Lacks(GetGroup(data, section), a)
  {
  }

  /** A numbered section makes a node exactly when it has a MAC address, a readable address if any, a
      name or what is needed to generate one, and no attribute is empty here and in the generic
      section. */
  lemma BuildNodeIff(data: Content<NodeKey>, generic: AFNode, section: string)
    requires NodeNumber(section).Some?
    ensures var g := GetGroup(data, section);
            (BuildNode(data, generic, section).Ok?
        <==> (&& MacAddress in g
              && (Own(StartIp) in g ==> AnswerNetworks.ReadAddress(g[Own(StartIp)]).Some?)
              && (TextOr(g, Hostname) != "" || CanName(generic))
              && forall a: Attribute :: Lacks(g, a) ==> !Empty(generic, a)))
  {
    assert section != "node";
    if LoadNode(data, section).Ok? {
      var node := LoadNode(data, section).value;
      BuiltFromLoaded(data, generic, section);
      ValidateIff(Named(node, generic, NodeNumber(section).value), generic);
      forall a: Attribute
        ensures Missing(Named(node, generic, NodeNumber(section).value), generic, a)
           <==> (Lacks(GetGroup(data, section), a) && Empty(generic, a))
      {
        LoadedEmptyIff(data, section, a);
        NamedEmptyIff(node, generic, NodeNumber(section).value, a);
      }
    }
  }

  /** The node with its own name, or the generated one where there is none. */
  function Named(node: AFNode, generic: AFNode, number: nat): AFNode {
    node.(hostname := if node.hostname != "" then node.hostname
                      else if CanName(generic) then GeneratedName(generic, number).value else "")
  }

  lemma NamedEmptyIff(node: AFNode, generic: AFNode, number: nat, a: Attribute)
    ensures Empty(Named(node, generic, number), a) <==> Empty(node, a)
  {
    assert Agree(Named(node, generic, number), node, a);
    AgreeEmpty(Named(node, generic, number), node, a);
  }

  lemma BuiltFromLoaded(data: Content<NodeKey>, generic: AFNode, section: string)
    requires NodeNumber(section).Some? && LoadNode(data, section).Ok?
    ensures var node := LoadNode(data, section).value;
      (BuildNode(data, generic, section).Ok?
       <==> ((node.hostname != "" || CanName(generic)) && Validate(Named(node, generic, NodeNumber(section).value), generic).Ok?))
  {
  }

  /** What a node is built from. */
  lemma BuiltNode(data: Content<NodeKey>, generic: AFNode, section: string)
    requires NodeNumber(section).Some? && BuildNode(data, generic, section).Ok?
    ensures var n, g := BuildNode(data, generic, section).value, GetGroup(data, section);
            && Complete(n) && MacAddress in g && n.mac_address == Some(g[MacAddress])
            && (TextOr(g, Hostname) != "" ==> n.hostname == g[Hostname])
            && (TextOr(g, Hostname) == "" ==> Ok(n.hostname) == GeneratedName(generic, NodeNumber(section).value))
    ensures LoadNode(data, section).Ok?
    ensures forall a: Attribute ::
              Agree(BuildNode(data, generic, section).value,
                    if Lacks(GetGroup(data, section), a) then generic else LoadNode(data, section).value, a)
  {
    var node := LoadNode(data, section).value;
    var named := node.(hostname := if node.hostname != "" then node.hostname
                                   else GeneratedName(generic, NodeNumber(section).value).value);
    assert section != "node";
    ValidateIff(named, generic);
    forall a: Attribute
      ensures Agree(Validate(named, generic).value, if Lacks(GetGroup(data, section), a) then generic else node, a)
    {
      LoadedEmptyIff(data, section, a);
      assert Agree(named, node, a);
      AgreeEmpty(named, node, a);
      AgreeTransitive(Validate(named, generic).value, if Empty(named, a) then generic else named,
                      if Empty(node, a) then generic else node, a);
    }
  }

  predicate Unnamed(data: Content<NodeKey>, section: string) {
    TextOr(GetGroup(data, section), Hostname) == ""
  }

  /** Over a whole load, nodes without a name of their own get equal names exactly when their sections
      have equal numbers. */
  lemma LoadedNamesIff(data: Content<NodeKey>, generic: AFNode, sections: seq<string>, i: nat, j: nat)
    requires i < |NodesOf(data, generic, sections).0| && j < |NodesOf(data, generic, sections).0|
    ensures i < |Numbered(sections)| && j < |Numbered(sections)|
    ensures var nodes, numbered := NodesOf(data, generic, sections).0, Numbered(sections);
            Unnamed(data, numbered[i]) && Unnamed(data, numbered[j]) ==>
            (nodes[i].hostname == nodes[j].hostname <==> NodeNumber(numbered[i]) == NodeNumber(numbered[j]))
  {
    LoadedNodes(data, generic, sections);
    var numbered := Numbered(sections);
    assert numbered[i] in numbered && numbered[j] in numbered;
    BuiltNode(data, generic, numbered[i]);
    BuiltNode(data, generic, numbered[j]);
    if Unnamed(data, numbered[i]) && Unnamed(data, numbered[j]) {
      GeneratedNamesIff(generic, NodeNumber(numbered[i]).value, NodeNumber(numbered[j]).value);
    }
  }

  /** Sections of different names can have equal numbers. */
  lemma TwoSectionsOneNumber(n: nat, v: nat, w: nat)
    requires 0 < n < WORD && |Dec(n)| <= v < w
    ensures NODE + Padded(n, v) != NODE + Padded(n, w)
    ensures NodeNumber(NODE + Padded(n, v)) == NodeNumber(NODE + Padded(n, w))
  {
    NodeNumberOfPadded(n, v);
    NodeNumberOfPadded(n, w);
  }

  // ------------------------------------------------- in terms of the texts

  function TextOfEither(own: Group<NodeKey>, generic: Group<NodeKey>, a: Attribute): string {
    var key := Own(a);
    if key in own && own[key] != "" then own[key] else if key in generic then generic[key] else ""
  }

  /** The address under node_ip, where there is one that is not 0.0.0.0. */
  function IpOf(g: Group<NodeKey>): Option<Address> {
    if Own(StartIp) !in g || AnswerNetworks.ReadAddress(g[Own(StartIp)]) == Some(0) then None
    else AnswerNetworks.ReadAddress(g[Own(StartIp)])
  }

  /** The attributes of a node are the texts under their own keys, in its section or else in the generic
      one. */
  predicate TextsOf(n: AFNode, own: Group<NodeKey>, generic: Group<NodeKey>) {
    && n.root_password == TextOfEither(own, generic, RootPassword)
    && n.sockets == TextOfEither(own, generic, Sockets)
    && n.cores_per_socket == TextOfEither(own, generic, CoresPerSocket)
    && n.threads_per_core == TextOfEither(own, generic, ThreadsPerCore)
    && n.bmc_address == TextOfEither(own, generic, BmcAddress)
    && n.bmc_username == TextOfEither(own, generic, BmcUsername)
    && n.bmc_password == TextOfEither(own, generic, BmcPassword)
    && n.bmc_serialport == TextOfEither(own, generic, BmcSerialPort)
    && n.bmc_serialspeed == TextOfEither(own, generic, BmcSerialSpeed)
    && Some(n.start_ip) == (if IpOf(own).Some? then IpOf(own) else IpOf(generic))
  }

  /** A prefix, then the digits of the number after as many zeros as the width asks for. */
  predicate NamedAfter(name: string, prefix: string, number: nat, width: nat) {
    && |name| >= |prefix| + |Dec(number)| && prefix <= name
    && |name| == |prefix| + (if |Dec(number)| < width then width else |Dec(number)|)
    && name[|name| - |Dec(number)|..] == Dec(number)
    && forall i | |prefix| <= i < |name| - |Dec(number)| :: name[i] == '0'
  }

  /** The generic section gives the generic prefix and padding, under these keys. */
  lemma GenericTexts(data: Content<NodeKey>)
    requires LoadNode(data, "node").Ok?
    ensures var g, n := GetGroup(data, "node"), LoadNode(data, "node").value;
      Prefix in g && Padding in g && n.prefix == Some(g[Prefix]) && n.padding == Some(g[Padding])
  {
  }

  lemma AttributeTexts(data: Content<NodeKey>, section: string)
    requires NodeNumber(section).Some? && LoadNode(data, "node").Ok?
    requires BuildNode(data, LoadNode(data, "node").value, section).Ok?
    ensures var n := BuildNode(data, LoadNode(data, "node").value, section).value;
      TextsOf(n, GetGroup(data, section), GetGroup(data, "node"))
  {
    var generic := LoadNode(data, "node").value;
    BuiltNode(data, generic, section);
    var n, own := BuildNode(data, generic, section).value, LoadNode(data, section).value;
    assert !Empty(n, StartIp);
    TextsAgree(data, section, own, generic, n);
  }

  function TextField(n: AFNode, a: Attribute): string
    requires !a.StartIp?
  {
    match a
    case RootPassword => n.root_password
    case Sockets => n.sockets
    case CoresPerSocket => n.cores_per_socket
    case ThreadsPerCore => n.threads_per_core
    case BmcAddress => n.bmc_address
    case BmcUsername => n.bmc_username
    case BmcPassword => n.bmc_password
    case BmcSerialPort => n.bmc_serialport
    case BmcSerialSpeed => n.bmc_serialspeed
  }

  lemma LoadedField(data: Content<NodeKey>, section: string, a: Attribute)
    requires LoadNode(data, section).Ok? && !a.StartIp?
    ensures TextField(LoadNode(data, section).value, a) == TextOr(GetGroup(data, section), Own(a))
  {
  }

  lemma AgreeField(m: AFNode, n: AFNode, a: Attribute)
    requires Agree(m, n, a) && !a.StartIp?
    ensures TextField(m, a) == TextField(n, a)
  {
  }

  lemma LoadedIp(data: Content<NodeKey>, section: string)
    requires LoadNode(data, section).Ok?
    ensures var g := GetGroup(data, section);
      LoadNode(data, section).value.start_ip == if IpOf(g).Some? then IpOf(g).value else 0
    ensures Lacks(GetGroup(data, section), StartIp) <==> IpOf(GetGroup(data, section)).None?
  {
  }

  lemma FieldText(data: Content<NodeKey>, section: string, own: AFNode, generic: AFNode, n: AFNode, a: Attribute)
    requires LoadNode(data, section) == Ok(own) && LoadNode(data, "node") == Ok(generic) && !a.StartIp?
    requires Agree(n, if Lacks(GetGroup(data, section), a) then generic else own, a)
    ensures TextField(n, a) == TextOfEither(GetGroup(data, section), GetGroup(data, "node"), a)
  {
    LoadedField(data, section, a);
    LoadedField(data, "node", a);
    AgreeField(n, if Lacks(GetGroup(data, section), a) then generic else own, a);
  }

  lemma TextsAgree(data: Content<NodeKey>, section: string, own: AFNode, generic: AFNode, n: AFNode)
    requires LoadNode(data, section) == Ok(own) && LoadNode(data, "node") == Ok(generic) && !Empty(n, StartIp)
    requires forall a: Attribute :: Agree(n, if Lacks(GetGroup(data, section), a) then generic else own, a)
    ensures TextsOf(n, GetGroup(data, section), GetGroup(data, "node"))
  {
    var g := GetGroup(data, section);
    forall a: Attribute | !a.StartIp?
      ensures TextField(n, a) == TextOfEither(g, GetGroup(data, "node"), a)
    {
      FieldText(data, section, own, generic, n, a);
    }
    assert Agree(n, if Lacks(g, StartIp) then generic else own, StartIp);
    LoadedIp(data, section);
    LoadedIp(data, "node");
    FieldsAreTexts(n, g, GetGroup(data, "node"));
  }

  lemma FieldsAreTexts(n: AFNode, own: Group<NodeKey>, generic: Group<NodeKey>)
    requires forall a: Attribute | !a.StartIp? :: TextField(n, a) == TextOfEither(own, generic, a)
    requires Some(n.start_ip) == if IpOf(own).Some? then IpOf(own) else IpOf(generic)
    ensures TextsOf(n, own, generic)
  {
    assert TextField(n, RootPassword) == TextOfEither(own, generic, RootPassword);
    assert TextField(n, Sockets) == TextOfEither(own, generic, Sockets);
    assert TextField(n, CoresPerSocket) == TextOfEither(own, generic, CoresPerSocket);
    assert TextField(n, ThreadsPerCore) == TextOfEither(own, generic, ThreadsPerCore);
    assert TextField(n, BmcAddress) == TextOfEither(own, generic, BmcAddress);
    assert TextField(n, BmcUsername) == TextOfEither(own, generic, BmcUsername);
    assert TextField(n, BmcPassword) == TextOfEither(own, generic, BmcPassword);
    assert TextField(n, BmcSerialPort) == TextOfEither(own, generic, BmcSerialPort);
    assert TextField(n, BmcSerialSpeed) == TextOfEither(own, generic, BmcSerialSpeed);
  }

  lemma NameTexts(data: Content<NodeKey>, section: string)
    requires NodeNumber(section).Some? && LoadNode(data, "node").Ok?
    requires BuildNode(data, LoadNode(data, "node").value, section).Ok?
    ensures var n, own, generic := BuildNode(data, LoadNode(data, "node").value, section).value,
                                   GetGroup(data, section), GetGroup(data, "node");
      && GetStringOpt(own, MacAddress) == n.mac_address && n.mac_address.Some?
      && Prefix in generic && Padding in generic
      && if Hostname in own && own[Hostname] != "" then n.hostname == own[Hostname]
         else
           && Stoi(generic[Padding]).Some? && Stoi(generic[Padding]).value >= 0
           && NamedAfter(n.hostname, generic[Prefix], NodeNumber(section).value, Stoi(generic[Padding]).value)
  {
    var generic := LoadNode(data, "node").value;
    GenericTexts(data);
    BuiltNode(data, generic, section);
    if TextOr(GetGroup(data, section), Hostname) == "" {
      GeneratedNameIs(generic, NodeNumber(section).value);
    }
  }

  lemma GeneratedNameIs(generic: AFNode, number: nat)
    requires GeneratedName(generic, number).Ok?
    ensures generic.prefix.Some? && generic.padding.Some? && Stoi(generic.padding.value).Some? && Stoi(generic.padding.value).value >= 0
    ensures NamedAfter(GeneratedName(generic, number).value, generic.prefix.value, number, Stoi(generic.padding.value).value)
  {
    PrefixedIs(generic.prefix.value, number, Stoi(generic.padding.value).value);
  }

  lemma PrefixedIs(prefix: string, number: nat, width: nat)
    ensures NamedAfter(prefix + Padded(number, width), prefix, number, width)
  {
    var padded := Padded(number, width);
    PaddedIs(number, width);
    var name := prefix + padded;
    assert name[|name| - |Dec(number)|..] == padded[|padded| - |Dec(number)|..];
    assert forall i | |prefix| <= i < |name| :: name[i] == padded[i - |prefix|];
  }

  /** Every node of a whole load, in terms of the sections' texts: its MAC address, its own name or the
      one made of the generic prefix, padding and its section's number, and its own attributes or
      the generic ones. */
  lemma LoadedNodeTexts(data: Content<NodeKey>, sections: seq<string>, k: nat)
    requires LoadNode(data, "node").Ok?
    requires k < |NodesOf(data, LoadNode(data, "node").value, sections).0|
    ensures k < |Numbered(sections)| && NodeNumber(Numbered(sections)[k]).Some?
    ensures var n, section := NodesOf(data, LoadNode(data, "node").value, sections).0[k], Numbered(sections)[k];
      var own, generic := GetGroup(data, section), GetGroup(data, "node");
      && GetStringOpt(own, MacAddress) == n.mac_address && n.mac_address.Some?
      && Prefix in generic && Padding in generic
      && (Hostname in own && own[Hostname] != "" ==> n.hostname == own[Hostname])
      && (!(Hostname in own && own[Hostname] != "") ==>
            && Stoi(generic[Padding]).Some? && Stoi(generic[Padding]).value >= 0
            && NamedAfter(n.hostname, generic[Prefix], NodeNumber(section).value, Stoi(generic[Padding]).value))
      && TextsOf(n, own, generic)
  {
    var generic := LoadNode(data, "node").value;
    LoadedNodes(data, generic, sections);
    var section := Numbered(sections)[k];
    assert section in Numbered(sections);
    assert BuildNode(data, generic, section) == Ok(NodesOf(data, generic, sections).0[k]);
    NameTexts(data, section);
    AttributeTexts(data, section);
  }

  // ------------------------------------------------------------ on the heap

  lemma {:induction false} ErrorStays(node: AFNode, generic: AFNode, k: nat, m: nat)
    requires k <= m <= |ORDER| && Validated(node, generic, k).Err?
    ensures Validated(node, generic, m) == Validated(node, generic, k)
  {
    if k < m {
      ErrorStays(node, generic, k, m - 1);
    }
  }

  lemma NodesOfOneMore(data: Content<NodeKey>, generic: AFNode, sections: seq<string>, i: nat)
    requires i < |sections| && NodesOf(data, generic, sections[..i]).1.None?
    ensures NodesOf(data, generic, sections[..i + 1])
         == Extended(data, generic, NodesOf(data, generic, sections[..i]).0, sections[i])
  {
    TakeOneMore(sections, i);
    FrontOfAppend(sections[..i], sections[i]);
  }

  /** After an error no section is looked at. */
  lemma {:induction false} ErrorEnds(data: Content<NodeKey>, generic: AFNode, sections: seq<string>, i: nat)
    requires i <= |sections| && NodesOf(data, generic, sections[..i]).1.Some?
    ensures NodesOf(data, generic, sections) == NodesOf(data, generic, sections[..i])
  {
    if i < |sections| {
      TakeMore(sections, i, |sections| - 1);
      assert Front(sections)[..i] == sections[..i];
      ErrorEnds(data, generic, Front(sections), i);
    } else {
      TakeAll(sections);
    }
  }

  /** The node part of class AnswerFile. */
  class AnswerFile {
    const keyfile: KeyFile<NodeKey>
    /** The groups of the key file, in file order. */
    const sections: seq<string>
    var generic: Option<AFNode>
    var nodes: seq<AFNode>

    constructor (keyfile: KeyFile<NodeKey>, sections: seq<string>)
      ensures this.keyfile == keyfile && this.sections == sections
      ensures generic == None && nodes == []
    {
      this.keyfile, this.sections := keyfile, sections;
      generic, nodes := None, [];
    }

    /** The first `k` attributes have had their turn, and left `node`. */
    ghost predicate Reached(was: AFNode, generic: AFNode, k: nat, node: AFNode) {
      k <= |ORDER| && Validated(was, generic, k) == Ok(node)
    }

    /** One attribute's turn in validateNode, after the first `k` had theirs. */
    method InheritAttribute(node: AFNode, a: Attribute, ghost was: AFNode, ghost k: nat)
      returns (n: AFNode, missing: Option<Attribute>, ghost next: nat)
      requires generic.Some? && Reached(was, generic.value, k, node) && k == Rank(a)
      ensures next == k + 1
      ensures missing.None? ==> Reached(was, generic.value, next, n)
      ensures missing.Some? ==> Validate(was, generic.value) == Err(missing.value)
    {
      next := k + 1;
      OrderIsRank(a);
      match ValidateAttribute(node, generic.value, a) {
        case Ok(value) => n, missing := value, None;
        case Err(_) =>
          n, missing := node, Some(a);
          ErrorStays(was, generic.value, next, |ORDER|);
      }
    }

    method ValidateNode(was: AFNode) returns (node: AFNode, missing: Option<Attribute>)
      requires generic.Some?
      ensures Validate(was, generic.value) == if missing.Some? then Err(missing.value) else Ok(node)
    {
      ghost var k := 0;
      node, missing, k := InheritAttribute(was, StartIp, was, k);
      if missing.Some? { return; }
      node, missing, k := InheritAttribute(node, RootPassword, was, k);
      if missing.Some? { return; }
      node, missing, k := InheritAttribute(node, Sockets, was, k);
      if missing.Some? { return; }
      node, missing, k := InheritAttribute(node, CoresPerSocket, was, k);
      if missing.Some? { return; }
      node, missing, k := InheritAttribute(node, ThreadsPerCore, was, k);
      if missing.Some? { return; }
      node, missing := ValidateBmc(node, was, k);
    }

    /** The second half of validateNode. */
    method ValidateBmc(half: AFNode, ghost was: AFNode, ghost five: nat) returns (node: AFNode, missing: Option<Attribute>)
      requires generic.Some? && Reached(was, generic.value, five, half) && five == Rank(BmcAddress)
      ensures Validate(was, generic.value) == if missing.Some? then Err(missing.value) else Ok(node)
    {
      ghost var k := five;
      node, missing, k := InheritAttribute(half, BmcAddress, was, k);
      if missing.Some? { return; }
      node, missing, k := InheritAttribute(node, BmcUsername, was, k);
      if missing.Some? { return; }
      node, missing, k := InheritAttribute(node, BmcPassword, was, k);
      if missing.Some? { return; }
      node, missing, k := InheritAttribute(node, BmcSerialPort, was, k);
      if missing.Some? { return; }
      node, missing, k := InheritAttribute(node, BmcSerialSpeed, was, k);
    }

    /** The body of the loop of loadNodes. */
    method AddNode(section: string) returns (error: Option<NodeError>)
      requires generic.Some? && NodeNumber(section).Some?
      modifies this`nodes
      ensures match BuildNode(keyfile.data, generic.value, section)
              case Ok(node) => error.None? && nodes == old(nodes) + [node]
              case Err(e) => error == Some(e) && nodes == old(nodes)
    {
      var number := NodeNumber(section).value;
      var loaded := LoadNode(keyfile.data, section);
      if loaded.Err? {
        return Some(loaded.error);
      }
      var node := loaded.value;
      if node.hostname == "" {
        var name := GeneratedName(generic.value, number);
        if name.Err? {
          return Some(name.error);
        }
        node := node.(hostname := name.value);
      }
      assert node == loaded.value.(hostname := node.hostname);
      var missing;
      node, missing := ValidateNode(node);
      if missing.Some? {
        return Some(NoValue(number, missing.value));
      }
      nodes := nodes + [node];
      error := None;
    }

    method TakeTurn(section: string, ghost was: seq<AFNode>, ghost done: seq<AFNode>) returns (error: Option<NodeError>)
      requires generic.Some? && nodes == was + done
      modifies this`nodes
      ensures error == Extended(keyfile.data, generic.value, done, section).1
      ensures nodes == was + Extended(keyfile.data, generic.value, done, section).0
    {
      error := None;
      if NodeNumber(section).Some? {
        error := AddNode(section);
      }
    }

    /** The nodes are added to those that are there already. */
    method LoadNodes() returns (error: Option<NodeError>)
      modifies this`generic, this`nodes
      ensures match LoadNode(keyfile.data, "node")
              case Err(e) => error == Some(e) && nodes == old(nodes) && generic == old(generic)
              case Ok(g) =>
                && generic == Some(g)
                && nodes == old(nodes) + NodesOf(keyfile.data, g, sections).0
                && error == NodesOf(keyfile.data, g, sections).1
    {
      var loaded := LoadNode(keyfile.data, "node");
      if loaded.Err? {
        return Some(loaded.error);
      }
      generic := Some(loaded.value);
      error := None;
      var i := 0;
      while i < |sections|
        invariant 0 <= i <= |sections| && generic == Some(loaded.value) && error.None?
        invariant NodesOf(keyfile.data, loaded.value, sections[..i]).1.None?
        invariant nodes == old(nodes) + NodesOf(keyfile.data, loaded.value, sections[..i]).0
      {
        ghost var done := NodesOf(keyfile.data, loaded.value, sections[..i]).0;
        NodesOfOneMore(keyfile.data, loaded.value, sections, i);
        error := TakeTurn(sections[i], old(nodes), done);
        i := i + 1;
        if error.Some? {
          ErrorEnds(keyfile.data, loaded.value, sections, i);
          return;
        }
      }
      TakeAll(sections);
    }
  }
}
