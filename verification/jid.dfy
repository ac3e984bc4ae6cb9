/** Contact identifiers (whatsapp-util/src/model/contact_jid.rs). */
module Jid {
  import opened Wrappers
  import opened Errors
  import opened Decimal
  import opened Nodes
  import Seqs

  datatype Server =
    | User | Group | Broadcast | Call | Whatsapp
    | Companion | Business | ServerKind | Announcement | Status | Unknown

  /** The servers in declaration order, as `Server::addresses()` lists them. */
  const Servers: seq<Server> :=
    [User, Group, Broadcast, Call, Whatsapp, Companion, Business, ServerKind, Announcement, Status, Unknown]

  /** `Server::address` */
  function Address(s: Server): string {
    match s
    case User => "c.us"
    case Group => "g.us"
    case Broadcast => "broadcast"
    case Call => "call"
    case Whatsapp => "s.whatsapp.net"
    case _ => ""
  }

  /** The serde name of a server variant (the derived `Serialize` of a unit variant). */
  function VariantName(s: Server): string {
    match s
    case User => "User"
    case Group => "Group"
    case Broadcast => "Broadcast"
    case Call => "Call"
    case Whatsapp => "Whatsapp"
    case Companion => "Companion"
    case Business => "Business"
    case ServerKind => "Server"
    case Announcement => "Announcement"
    case Status => "Status"
    case Unknown => "Unknown"
  }

  predicate EndsWith(s: string, suffix: string) {
    |suffix| <= |s| && s[|s| - |suffix|..] == suffix
  }

  /** Index of the first of `servers`, from position `i` on, whose address ends `input`. */
  function FirstSuffix(input: string, servers: seq<Server>, i: nat): (r: nat)
    requires i <= |servers|
    ensures i <= r <= |servers|
    ensures r < |servers| ==> EndsWith(input, Address(servers[r]))
    ensures forall k :: i <= k < r ==> !EndsWith(input, Address(servers[k]))
    decreases |servers| - i
  {
    if i == |servers| then i
    else if EndsWith(input, Address(servers[i])) then i
    else FirstSuffix(input, servers, i + 1)
  }

  /**
    `Server::of`: the first server in declaration order whose address is a
    suffix of the input. Companion's address is empty, so there is always one.
   */
  function Of(input: string): (r: Option<Server>)
    ensures r.Some? && EndsWith(input, Address(r.value))
    ensures EndsWith(input, "c.us") ==> r == Some(User)
    ensures (forall k :: 0 <= k < 5 ==> !EndsWith(input, Address(Servers[k]))) ==> r == Some(Companion)
  {
    assert EndsWith(input, Address(Servers[5]));
    var i := FirstSuffix(input, Servers, 0);
    Some(Servers[i])
  }

  /** The named servers are recognised from their own address. */
  lemma OfAddress(s: Server)
    requires s in {User, Group, Broadcast, Call, Whatsapp}
    ensures Of(Address(s)) == Some(s)
  {
    match s {
      case User =>
        assert Servers[0] == User;
        OfNamed(0);
      case Group => OfGroup();
      case Broadcast => OfBroadcast();
      case Call => OfCall();
      case Whatsapp =>
        EndsWithSelf(Address(s));
        OfWhatsapp(Address(s));
    }
  }

  lemma OfGroup()
    ensures Of(Address(Group)) == Some(Group)
  {
    assert Servers[1] == Group;
    OfNamed(1);
  }

  lemma OfBroadcast()
    ensures Of(Address(Broadcast)) == Some(Broadcast)
  {
    assert Servers[2] == Broadcast;
    OfNamed(2);
  }

  lemma OfCall()
    ensures Of(Address(Call)) == Some(Call)
  {
    assert Servers[3] == Call;
    OfNamed(3);
  }

  /** One of the first four servers is recognised from its own address. */
  lemma OfNamed(j: nat)
    requires j < 4
    ensures Of(Address(Servers[j])) == Some(Servers[j])
  {
    var a := Address(Servers[j]);
    EndsWithSelf(a);
    forall k | 0 <= k < j
      ensures !EndsWith(a, Address(Servers[k]))
    {
      EarlierNotSuffix(j, k);
    }
    FirstSuffixIs(a, j);
  }

  /** No address among the first four ends in the address of a server listed before it. */
  lemma EarlierNotSuffix(j: nat, k: nat)
    requires k < j < 4
    ensures !EndsWith(Address(Servers[j]), Address(Servers[k]))
  {
    if j == 1 {
      assert Servers[j] == Group && Servers[k] == User;
      NotEndsWith("g.us", "c.us", 0);
    } else if j == 2 {
      assert Servers[j] == Broadcast;
      if k == 0 {
        assert Servers[k] == User;
        NotEndsWith("broadcast", "c.us", 1);
      } else {
        assert Servers[k] == Group;
        NotEndsWith("broadcast", "g.us", 0);
      }
    } else {
      assert Servers[j] == Call;
      if k == 0 {
        assert Servers[k] == User;
        NotEndsWith("call", "c.us", 1);
      } else if k == 1 {
        assert Servers[k] == Group;
        NotEndsWith("call", "g.us", 0);
      } else {
        assert Servers[k] == Broadcast;
        NotEndsWith("call", "broadcast", 0);
      }
    }
  }

  /** Any input ending in the Whatsapp address is recognised as Whatsapp. */
  lemma OfWhatsapp(input: string)
    requires EndsWith(input, Address(Whatsapp))
    ensures Of(input) == Some(Whatsapp)
  {
    var a := Address(Whatsapp);
    forall k | 0 <= k < 4
      ensures !EndsWith(input, Address(Servers[k]))
    {
      WhatsappEndsNoEarlier(k);
      SuffixMismatch(input, a, Address(Servers[k]));
    }
    FirstSuffixIs(input, 4);
  }

  /** The Whatsapp address does not end in the address of a server listed before it. */
  lemma WhatsappEndsNoEarlier(k: nat)
    requires k < 4
    ensures !EndsWith(Address(Whatsapp), Address(Servers[k]))
  {
    var a := Address(Whatsapp);
    if k == 0 {
      assert Servers[k] == User;
      NotEndsWith(a, "c.us", 0);
    } else if k == 1 {
      assert Servers[k] == Group;
      NotEndsWith(a, "g.us", 0);
    } else if k == 2 {
      assert Servers[k] == Broadcast;
      NotEndsWith(a, "broadcast", 0);
    } else {
      assert Servers[k] == Call;
      NotEndsWith(a, "call", 0);
    }
  }

  /** A string ending in `a` ends in `b` only if `a` itself does. */
  lemma SuffixMismatch(input: string, a: string, b: string)
    requires EndsWith(input, a) && |b| <= |a| && !EndsWith(a, b)
    ensures !EndsWith(input, b)
  {
    var n := |input|;
    assert input[n - |b|..] == input[n - |a|..][|a| - |b|..];
  }

  /**
    The servers without an address are not told apart: an empty server string
    is the Companion server.
   */
  lemma OfEmpty()
    ensures Of("") == Some(Companion)
  {
    forall k | 0 <= k < 5
      ensures !EndsWith("", Address(Servers[k]))
    {
      NamedAddressNonEmpty(k);
    }
    FirstSuffixIs("", 5);
  }

  /** The servers listed before Companion all have an address. */
  lemma NamedAddressNonEmpty(k: nat)
    requires k < 5
    ensures |Address(Servers[k])| > 0
  {
    if k == 0 {
      assert Servers[k] == User;
    } else if k == 1 {
      assert Servers[k] == Group;
    } else if k == 2 {
      assert Servers[k] == Broadcast;
    } else if k == 3 {
      assert Servers[k] == Call;
    } else {
      assert Servers[k] == Whatsapp;
    }
  }

  lemma EndsWithSelf(s: string)
    ensures EndsWith(s, s)
  {
    assert s[0..] == s;
  }

  /** A suffix that differs from the end of `s` at position `k`. */
  lemma NotEndsWith(s: string, suffix: string, k: nat)
    requires k < |suffix| && (|suffix| <= |s| ==> s[|s| - |suffix| + k] != suffix[k])
    ensures !EndsWith(s, suffix)
  {
    if |suffix| <= |s| {
      assert s[|s| - |suffix|..][k] != suffix[k];
    }
  }

  /** The first matching server is the one whose address is the first suffix. */
  lemma FirstSuffixIs(input: string, j: nat)
    requires j < |Servers| && EndsWith(input, Address(Servers[j]))
    requires forall k :: 0 <= k < j ==> !EndsWith(input, Address(Servers[k]))
    ensures Of(input) == Some(Servers[j])
  {
    assert EndsWith(input, Address(Servers[5])) by { assert input[|input|..] == ""; }
    var r := FirstSuffix(input, Servers, 0);
    assert r == j;
  }

  datatype ContactJid = ContactJid(user: string, server: Server, device: nat, agent: nat)

  /** `is_companion`: a companion identity has a non-zero device. */
  predicate IsCompanion(j: ContactJid) {
    j.device != 0
  }

  predicate StartsWith(s: string, prefix: string) {
    |prefix| <= |s| && s[..|prefix|] == prefix
  }

  /**
    `s.replace(pattern, "")`: every non-overlapping occurrence of `pattern`,
    found from left to right, removed.
   */
  function RemoveAll(s: string, pattern: string): (r: string)
    requires |pattern| > 0
    ensures |r| <= |s|
    decreases |s|
  {
    if |s| == 0 then ""
    else if StartsWith(s, pattern) then RemoveAll(s[|pattern|..], pattern)
    else [s[0]] + RemoveAll(s[1..], pattern)
  }

  /** Each address in turn, from position `i` on, with "@address" removed. */
  function RemoveAddresses(jid: string, i: nat): string
    requires i <= |Servers|
    decreases |Servers| - i
  {
    if i == |Servers| then jid else RemoveAddresses(RemoveAll(jid, "@" + Address(Servers[i])), i + 1)
  }

  /**
    `without_server`: the input with every "@address" removed, for every server
    in order. The empty addresses make that remove every remaining '@'.
   */
  function WithoutServer(jid: string): (r: string)
    ensures jid == "" ==> r == ""
    ensures '@' !in r
    ensures '@' !in jid ==> r == jid
  {
    if jid == "" then ""
    else
      var r := RemoveAddresses(jid, 0);
      RemoveAddressesNoAt(jid, 0);
      r
  }

  lemma {:induction false} RemoveAllNoAt(s: string, pattern: string)
    requires |pattern| > 0 && pattern[0] == '@'
    ensures '@' !in s ==> RemoveAll(s, pattern) == s
    ensures pattern == "@" ==> '@' !in RemoveAll(s, pattern)
    decreases |s|
  {
    if |s| > 0 {
      if StartsWith(s, pattern) {
        assert s[0] == '@';
        RemoveAllNoAt(s[|pattern|..], pattern);
      } else {
        RemoveAllNoAt(s[1..], pattern);
        assert s == [s[0]] + s[1..];
      }
    }
  }

  lemma {:induction false} RemoveAddressesNoAt(jid: string, i: nat)
    requires i <= |Servers|
    ensures i <= 5 ==> '@' !in RemoveAddresses(jid, i)
    ensures '@' !in jid ==> RemoveAddresses(jid, i) == jid
    decreases |Servers| - i
  {
    if i < |Servers| {
      var p := "@" + Address(Servers[i]);
      RemoveAllNoAt(jid, p);
      RemoveAddressesNoAt(RemoveAll(jid, p), i + 1);
      if i == 5 {
        assert p == "@";
      }
    }
  }

  /** `from_companion`: the user with its server stripped, on the Whatsapp server. */
  function FromCompanion(jid: string, device: nat, agent: nat): (r: ContactJid)
    ensures r.user == WithoutServer(jid) && r.server == Whatsapp
    ensures r.device == device && r.agent == agent
    ensures IsCompanion(r) <==> device != 0
  {
    ContactJid(WithoutServer(jid), Whatsapp, device, agent)
  }

  /** Position of the first `c` in `s`, or `|s|` when there is none. */
  function Find(s: string, c: char): (i: nat)
    ensures i <= |s|
    ensures i < |s| ==> s[i] == c
    ensures c !in s[..i]
    ensures i == |s| <==> c !in s
  {
    if |s| == 0 then 0 else if s[0] == c then 0 else 1 + Find(s[1..], c)
  }

  /**
    `from_complex`: parses "user", "user_agent" or "user_agent:device" after
    stripping the server.
    - empty: user "" with device and agent 0;
    - a '_' before the first ':': user, numeric agent and numeric device;
    - no '_' at all: the whole string is the user (any ":n" included);
    - otherwise: split at the first '_' into user and numeric agent, device 0.
    A part that is not a `u32` is a parse error.
   */
  function FromComplex(jid: string, server: Server): (r: Result<ContactJid>)
    ensures r.Ok? ==> r.value.server == server && '@' !in r.value.user
    ensures WithoutServer(jid) == "" ==> r == Ok(ContactJid("", server, 0, 0))
    ensures '_' !in WithoutServer(jid) ==> r == Ok(ContactJid(WithoutServer(jid), server, 0, 0))
  {
    var complex := WithoutServer(jid);
    if complex == "" then Ok(ContactJid("", server, 0, 0))
    else SplitComplex(complex, server)
  }

  /** The three shapes of a non-empty `from_complex` input. */
  function SplitComplex(complex: string, server: Server): (r: Result<ContactJid>)
    requires '@' !in complex
    ensures r.Ok? ==> r.value.server == server && '@' !in r.value.user
    ensures '_' !in complex ==> r == Ok(ContactJid(complex, server, 0, 0))
  {
    var colon := Find(complex, ':');
    var before := complex[..colon];
    if colon < |complex| && '_' in before then UserAgentDevice(before, complex[colon + 1..], server)
    else if '_' !in complex then Ok(ContactJid(complex, server, 0, 0))
    else UserAgent(complex, server)
  }

  /** "user_agent" before the first ':' and the device after it. */
  function UserAgentDevice(before: string, after: string, server: Server): (r: Result<ContactJid>)
    requires '@' !in before && '_' in before
    ensures r.Ok? ==> r.value.server == server && '@' !in r.value.user && '_' !in r.value.user
  {
    var underscore := Find(before, '_');
    var device := ParseU32(after);
    var agent := ParseU32(before[underscore + 1..]);
    if device.None? || agent.None? then Err(ParseIntError)
    else Ok(ContactJid(before[..underscore], server, device.value, agent.value))
  }

  /** "user_agent" with no device part. */
  function UserAgent(complex: string, server: Server): (r: Result<ContactJid>)
    requires '@' !in complex && '_' in complex
    ensures r.Ok? ==> r.value.server == server && '@' !in r.value.user && '_' !in r.value.user
    ensures r.Ok? ==> r.value.device == 0
  {
    var underscore := Find(complex, '_');
    var agent := ParseU32(complex[underscore + 1..]);
    if agent.None? then Err(ParseIntError)
    else Ok(ContactJid(complex[..underscore], server, 0, agent.value))
  }

  /** A user with no server, agent or device part parses to itself. */
  lemma FromComplexPlain(user: string, server: Server)
    requires '@' !in user && '_' !in user
    ensures FromComplex(user, server) == Ok(ContactJid(user, server, 0, 0))
  {
  }

  lemma {:induction false} FindAt(s: string, c: char, i: nat)
    requires i < |s| && s[i] == c
    requires forall j :: 0 <= j < i ==> s[j] != c
    ensures Find(s, c) == i
  {
    if i > 0 {
      assert forall j :: 0 <= j < i - 1 ==> s[1..][j] == s[j + 1];
      FindAt(s[1..], c, i - 1);
    }
  }

  lemma NoAtInDigits(a: string)
    requires AllDigits(a)
    ensures '@' !in a && '_' !in a && ':' !in a
  {
  }

  /** A "user_agent:device" string parses into its three parts. */
  lemma FromComplexAgentDevice(user: string, a: string, d: string, server: Server)
    requires '@' !in user && '_' !in user && ':' !in user && user != ""
    requires AllDigits(a) && ParseU32(a).Some? && AllDigits(d) && ParseU32(d).Some?
    ensures FromComplex(user + "_" + a + ":" + d, server)
         == Ok(ContactJid(user, server, ParseU32(d).value, ParseU32(a).value))
  {
    NoAtInDigits(a);
    NoAtInDigits(d);
    var s := user + "_" + a + ":" + d;
    var colon := |user| + 1 + |a|;
    AgentDeviceLayout(s, user, a, d, colon);
    AgentDeviceParsed(s, server, colon, |user|, a, d, ParseU32(d).value, ParseU32(a).value);
  }

  /** The parts of a "user_agent:device" string, located by `Find`, parsed. */
  lemma AgentDeviceParsed(
    s: string, server: Server, colon: nat, underscore: nat,
    agentText: string, deviceText: string, device: nat, agent: nat)
    requires '@' !in s && s != ""
    requires Find(s, ':') == colon < |s| && '@' !in s[..colon]
    requires Find(s[..colon], '_') == underscore < colon
    requires s[colon + 1..] == deviceText && ParseU32(deviceText) == Some(device)
    requires s[..colon][underscore + 1..] == agentText && ParseU32(agentText) == Some(agent)
    ensures FromComplex(s, server) == Ok(ContactJid(s[..underscore], server, device, agent))
  {
    FromComplexThreeParts(s, server, colon);
    UserAgentDeviceParsed(s[..colon], deviceText, server, underscore, agentText, device, agent);
    Seqs.TakeTake(s, underscore, colon);
  }

  /** `from_complex` on a string with a '_' before its first ':'. */
  lemma FromComplexThreeParts(complex: string, server: Server, colon: nat)
    requires '@' !in complex && complex != ""
    requires Find(complex, ':') == colon < |complex|
    requires Find(complex[..colon], '_') < colon
    ensures FromComplex(complex, server) == UserAgentDevice(complex[..colon], complex[colon + 1..], server)
  {
    assert WithoutServer(complex) == complex;
  }

  /** Both numbers parse: the user is what precedes the '_'. */
  lemma UserAgentDeviceParsed(
    before: string, after: string, server: Server, underscore: nat,
    agentText: string, device: nat, agent: nat)
    requires '@' !in before && Find(before, '_') == underscore < |before|
    requires ParseU32(after) == Some(device)
    requires before[underscore + 1..] == agentText && ParseU32(agentText) == Some(agent)
    ensures UserAgentDevice(before, after, server) == Ok(ContactJid(before[..underscore], server, device, agent))
  {
  }

  /** Where `Find` lands in a "user_agent:device" string, and what lies between. */
  lemma AgentDeviceLayout(s: string, user: string, a: string, d: string, colon: nat)
    requires s == user + "_" + a + ":" + d && colon == |user| + 1 + |a|
    requires '@' !in user && '_' !in user && ':' !in user
    requires '@' !in a && ':' !in a && '@' !in d
    ensures '@' !in s && s != ""
    ensures Find(s, ':') == colon < |s| && '@' !in s[..colon]
    ensures Find(s[..colon], '_') == |user| < colon
    ensures s[colon + 1..] == d
    ensures s[..colon][|user| + 1..] == a
    ensures s[..|user|] == user
  {
    var before := user + "_" + a;
    FindSeparator(before, ':', d);
    Seqs.AroundSeparator(before, ':', d);
    FindSeparator(user, '_', a);
    Seqs.AroundSeparator(user, '_', a);
    Seqs.TakeTake(s, |user|, |before|);
  }

  /** The first `c` is the separator when nothing before it is a `c`. */
  lemma FindSeparator(p: string, c: char, q: string)
    requires c !in p
    ensures Find(p + [c] + q, c) == |p|
  {
    var s := p + [c] + q;
    assert forall j :: 0 <= j < |p| ==> s[j] == p[j];
    FindAt(s, c, |p|);
  }

  /** `serde_json::to_value(jid)`, as the derived `Serialize` lays a `ContactJid` out. */
  function JidToValue(j: ContactJid): (v: Value)
    ensures v.Object? && v.fields.Keys == {"user", "server", "device", "agent"}
  {
    Object(map[
      "user" := Text(j.user),
      "server" := Text(VariantName(j.server)),
      "device" := Number(j.device),
      "agent" := Number(j.agent)])
  }
}
