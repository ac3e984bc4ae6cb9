/**
  Tag bytes of the binary node format (whatsapp-util/src/message/tag.rs), and the
  classification of a tag byte that the decoder's `read` dispatches on.
 */
module Tag {
  import opened Bytes

  const UNKMOWN: int := -1
  const LIST_EMPTY: byte := 0
  const STREAM_END: byte := 2
  const DICTIONARY_ZERO: byte := 236
  const DICTIONARY_ONE: byte := 237
  const DICTIONARY_TWO: byte := 238
  const DICTIONARY_THREE: byte := 239
  const COMPANION_JID: byte := 247
  const LIST_EIGHT: byte := 248
  const LIST_SIXTEEN: byte := 249
  const JID_PAIR: byte := 250
  const HEX_EIGHT: byte := 251
  const BINARY_EIGHT: byte := 252
  const BINARY_TWENTY: byte := 253
  const BINARY_THIRTY_TWO: byte := 254
  const NIBBLE_EIGHT: byte := 255
  const SINGLE_BYTE_MAX: int := 256
  const PACKED_MAX: int := 254

  /** What a tag byte announces to the generic `read`. */
  datatype Kind =
    | ListEmpty
    | CompanionJid
    | ListEight
    | ListSixteen
    | JidPair
    | HexEight
    | BinaryEight
    | BinaryTwenty
    | BinaryThirtyTwo
    | NibbleEight
      // one of the four dictionary tags: a second byte indexes that quarter of the word dictionary
    | Dictionary(quadrant: nat)
      // any other byte: the single-byte token table entry `tag - 1`
    | SingleByteToken(index: nat)

  /** The dispatch of `NodeDecoder::read` and `read_string_from_token`. */
  function Classify(tag: byte): (k: Kind)
    ensures k.Dictionary? <==> DICTIONARY_ZERO <= tag <= DICTIONARY_THREE
    ensures k.Dictionary? ==> k.quadrant == tag - DICTIONARY_ZERO && k.quadrant < 4
    ensures k.SingleByteToken? ==> k.index == tag - 1
    ensures k.SingleByteToken? <==> (1 <= tag < DICTIONARY_ZERO || DICTIONARY_THREE < tag < COMPANION_JID)
  {
    if tag == LIST_EMPTY then ListEmpty
    else if tag == COMPANION_JID then CompanionJid
    else if tag == LIST_EIGHT then ListEight
    else if tag == LIST_SIXTEEN then ListSixteen
    else if tag == JID_PAIR then JidPair
    else if tag == HEX_EIGHT then HexEight
    else if tag == BINARY_EIGHT then BinaryEight
    else if tag == BINARY_TWENTY then BinaryTwenty
    else if tag == BINARY_THIRTY_TWO then BinaryThirtyTwo
    else if tag == NIBBLE_EIGHT then NibbleEight
    else if DICTIONARY_ZERO <= tag <= DICTIONARY_THREE then Dictionary(tag - DICTIONARY_ZERO)
    else SingleByteToken(tag - 1)
  }

  /** The dictionary tag for a quadrant, as `double_byte_string_tag` picks it. */
  function DictionaryTag(quadrant: nat): (tag: byte)
    requires quadrant < 4
    ensures Classify(tag) == Dictionary(quadrant)
  {
    DICTIONARY_ZERO + quadrant
  }

  /**
    Each named tag is classified as its own kind, so no two named tags share a
    value and the decoder's dispatch is unambiguous.
   */
  lemma ClassifyNamedTags()
    ensures Classify(LIST_EMPTY) == ListEmpty
    ensures Classify(COMPANION_JID) == CompanionJid
    ensures Classify(LIST_EIGHT) == ListEight
    ensures Classify(LIST_SIXTEEN) == ListSixteen
    ensures Classify(JID_PAIR) == JidPair
    ensures Classify(HEX_EIGHT) == HexEight
    ensures Classify(BINARY_EIGHT) == BinaryEight
    ensures Classify(BINARY_TWENTY) == BinaryTwenty
    ensures Classify(BINARY_THIRTY_TWO) == BinaryThirtyTwo
    ensures Classify(NIBBLE_EIGHT) == NibbleEight
    ensures forall q :: 0 <= q < 4 ==> Classify(DICTIONARY_ZERO + q) == Dictionary(q)
  {
  }
}
