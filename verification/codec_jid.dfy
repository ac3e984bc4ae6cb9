/**
  Round trips of contact identifiers through `write_jid` and `read`, for the
  corrected revision of the codec.
 */
module CodecJid {
  import opened Wrappers
  import opened Errors
  import opened Bytes
  import opened Tag
  import opened Tokens
  import opened Nodes
  import opened Jid
  import opened Revision
  import opened Encoder
  import opened Decoder
  import opened CodecStrings

  /** The servers that have an address of their own. */
  predicate Named(s: Server) {
    s in {User, Group, Broadcast, Call, Whatsapp}
  }

  /** Every server address can be written and read back in parse mode. */
  lemma AddressFits(s: Server)
    ensures Fits(Address(s)) && NoLrm(Address(s))
  {
  }

  /**
    A companion identity on the Whatsapp server, with agent and device that fit
    in a byte, reads back as itself.
   */
  lemma CompanionRoundTrip(t: Tables, j: ContactJid, parse: bool, rest: seq<byte>)
    requires Valid(t) && StandardPacking(t)
    requires IsCompanion(j) && j.server == Whatsapp && j.agent < 256 && j.device < 256
    requires '@' !in j.user && Fits(j.user) && NoLrm(j.user)
    ensures WriteJid(Corrected, t, j).Ok?
    ensures ReadValue(Corrected, t, WriteJid(Corrected, t, j).value + rest, parse) == Ok(Parsed(JidToValue(j), rest))
  {
    ReadStringRoundTrip(t, j.user, rest);
    var u := WriteString(Corrected, t, j.user).value;
    assert WriteJid(Corrected, t, j) == Ok([COMPANION_JID, j.agent, j.device] + u);
    ReadCompanionBytes(Corrected, t, j.agent, j.device, u, parse, j.user, rest);
  }

  /**
    A plain identity (no device, no agent) reads back with the server that
    `Server::of` finds in its address.
   */
  lemma PairRead(t: Tables, j: ContactJid, decoded: Server, parse: bool, rest: seq<byte>)
    requires Valid(t) && StandardPacking(t)
    requires j.device == 0 && j.agent == 0 && Of(Address(j.server)) == Some(decoded)
    requires '@' !in j.user && '_' !in j.user && Fits(j.user) && NoLrm(j.user)
    ensures WriteJid(Corrected, t, j).Ok?
    ensures ReadValue(Corrected, t, WriteJid(Corrected, t, j).value + rest, parse)
         == Ok(Parsed(JidToValue(j.(server := decoded)), rest))
  {
    var sv := AddressBytes(t, j.server, rest);
    FromComplexPlain(j.user, decoded);
    if j.user == "" {
      assert WriteJid(Corrected, t, j) == Ok([JID_PAIR, LIST_EMPTY] + sv);
      ReadJidPairNoUserBytes(Corrected, t, sv, parse, Address(j.server), rest);
    } else {
      StringRoundTrip(t, j.user, true, sv + rest);
      var u := WriteString(Corrected, t, j.user).value;
      assert WriteJid(Corrected, t, j) == Ok([JID_PAIR] + u + sv);
      ReadJidPairBytes(Corrected, t, u, sv, parse, j.user, Address(j.server), rest);
    }
  }

  /** A plain identity on a server that has an address reads back as itself. */
  lemma PairRoundTrip(t: Tables, j: ContactJid, parse: bool, rest: seq<byte>)
    requires Valid(t) && StandardPacking(t)
    requires j.device == 0 && j.agent == 0 && Named(j.server)
    requires '@' !in j.user && '_' !in j.user && Fits(j.user) && NoLrm(j.user)
    ensures WriteJid(Corrected, t, j).Ok?
    ensures ReadValue(Corrected, t, WriteJid(Corrected, t, j).value + rest, parse) == Ok(Parsed(JidToValue(j), rest))
  {
    OfAddress(j.server);
    PairRead(t, j, j.server, parse, rest);
    assert j.(server := j.server) == j;
  }

  /**
    A server without an address is written as an empty server string, which
    reads back as the Companion server: the other fields survive.
   */
  lemma UnnamedServerBecomesCompanion(t: Tables, j: ContactJid, parse: bool, rest: seq<byte>)
    requires Valid(t) && StandardPacking(t)
    requires j.device == 0 && j.agent == 0 && !Named(j.server)
    requires '@' !in j.user && '_' !in j.user && Fits(j.user) && NoLrm(j.user)
    ensures WriteJid(Corrected, t, j).Ok?
    ensures ReadValue(Corrected, t, WriteJid(Corrected, t, j).value + rest, parse)
         == Ok(Parsed(JidToValue(j.(server := Companion)), rest))
  {
    OfEmpty();
    PairRead(t, j, Companion, parse, rest);
  }

  /** The bytes of a server address, which `read_string` reads back. */
  lemma AddressBytes(t: Tables, s: Server, rest: seq<byte>) returns (sv: seq<byte>)
    requires Valid(t) && StandardPacking(t)
    ensures WriteString(Corrected, t, Address(s)) == Ok(sv)
    ensures ReadString(Corrected, t, sv + rest) == Ok(Parsed(Address(s), rest))
  {
    AddressFits(s);
    ReadStringRoundTrip(t, Address(s), rest);
    sv := WriteString(Corrected, t, Address(s)).value;
  }
}
