/**
 * Decoding of one TokensLocked log (BridgeEventScanner._parse_log). Following the
 * Ethereum Contract ABI event encoding, the indexed arguments sit in the topics
 * (topic 0 is the event signature hash) and the non-indexed ones, one 32-byte
 * big-endian word each, in the data buffer.
 */
module LogDecoder {
  import opened Wrappers
  import opened BigEndian
  import opened Address

  /** One 32-byte topic slot. */
  type Word = s: seq<uint8> | |s| == 32 witness seq(32, _ => 0)

  /** A log as the ledger returns it. */
  datatype RawLog = RawLog(
    topics: seq<Word>,
    data: seq<uint8>,
    transactionHash: seq<uint8>,
    blockNumber: int)

  /** The record _parse_log builds. Addresses are in their canonical text form. */
  datatype DecodedEvent = DecodedEvent(
    token: string,
    sender: string,
    nonce: nat,
    amount: nat,
    destinationChainId: nat,
    transactionHash: seq<uint8>,
    blockNumber: int)

  /** The IndexError raised when a topic slot the decoder reads is missing. */
  datatype DecodeError = MissingTopic(index: nat)

  /** The address stored right-aligned in a topic slot: its last 20 bytes. */
  function AddressOfWord(w: Word): (a: Address)
    ensures w[..12] + a == w
  {
    w[12..]
  }

  /** Decodes a raw log. Topics 1, 2 and 3 are read in that order, so the error
      names the first of them that is missing. The data buffer is never checked
      for length; a short buffer is sliced the way Python slices. */
  function ParseLog(log: RawLog): (r: Result<DecodedEvent, DecodeError>)
    ensures r.Success? <==> |log.topics| >= 4
    ensures r.Failure? ==> r.error.index == (if |log.topics| < 2 then 1 else |log.topics|)
    ensures r.Success? ==>
      r.value.transactionHash == log.transactionHash && r.value.blockNumber == log.blockNumber
  {
    if |log.topics| < 4 then
      Failure(MissingTopic(if |log.topics| < 2 then 1 else |log.topics|))
    else
      Success(DecodedEvent(
        token := ChecksumAddress(AddressOfWord(log.topics[1])),
        sender := ChecksumAddress(AddressOfWord(log.topics[2])),
        nonce := ToNat(log.topics[3]),
        amount := ToNat(Slice(log.data, 0, 32)),
        destinationChainId := ToNat(Slice(log.data, 32, 64)),
        transactionHash := log.transactionHash,
        blockNumber := log.blockNumber))
  }

  /** The 32-byte slot holding address a: twelve zero bytes, then a. */
  function AddressWord(a: Address): (w: Word)
    ensures AddressOfWord(w) == a
  {
    seq(12, _ => 0) + a
  }

  /** The log a TokensLocked emission with these arguments produces: the ABI
      event encoding that ParseLog undoes. */
  function EncodeLog(
    signature: Word, token: Address, sender: Address,
    nonce: nat, amount: nat, destinationChainId: nat,
    transactionHash: seq<uint8>, blockNumber: int): (log: RawLog)
    requires nonce < Pow256(32) && amount < Pow256(32) && destinationChainId < Pow256(32)
    ensures |log.topics| == 4 && |log.data| == 64
  {
    RawLog(
      [signature, AddressWord(token), AddressWord(sender), FromNat(nonce, 32)],
      FromNat(amount, 32) + FromNat(destinationChainId, 32),
      transactionHash, blockNumber)
  }

  /** Decoding an encoded log recovers every argument, the addresses in canonical
      text, and the log's own transaction hash and block number. */
  lemma DecodeEncodedLog(
    signature: Word, token: Address, sender: Address,
    nonce: nat, amount: nat, destinationChainId: nat,
    transactionHash: seq<uint8>, blockNumber: int)
    requires nonce < Pow256(32) && amount < Pow256(32) && destinationChainId < Pow256(32)
    ensures ParseLog(EncodeLog(signature, token, sender, nonce, amount,
                               destinationChainId, transactionHash, blockNumber))
         == Success(DecodedEvent(ChecksumAddress(token), ChecksumAddress(sender),
                                 nonce, amount, destinationChainId,
                                 transactionHash, blockNumber))
  {
    var log := EncodeLog(signature, token, sender, nonce, amount,
                         destinationChainId, transactionHash, blockNumber);
    ToNatFromNat(nonce, 32);
    DataWordsRoundTrip(amount, destinationChainId);
  }

  /** The two data words of an encoding decode to the amount and the chain id. */
  lemma DataWordsRoundTrip(amount: nat, destinationChainId: nat)
    requires amount < Pow256(32) && destinationChainId < Pow256(32)
    ensures var data := FromNat(amount, 32) + FromNat(destinationChainId, 32);
      ToNat(Slice(data, 0, 32)) == amount && ToNat(Slice(data, 32, 64)) == destinationChainId
  {
    var data := FromNat(amount, 32) + FromNat(destinationChainId, 32);
    assert Slice(data, 0, 32) == FromNat(amount, 32);
    assert Slice(data, 32, 64) == FromNat(destinationChainId, 32);
    ToNatFromNat(amount, 32);
    ToNatFromNat(destinationChainId, 32);
  }

  /** The other direction: a well-formed log (four topics, 64 data bytes, address
      slots zero-padded) is the encoding of what it decodes to. */
  lemma EncodeDecodedLog(log: RawLog)
    requires |log.topics| == 4 && |log.data| == 64
    requires log.topics[1][..12] == seq(12, _ => 0) && log.topics[2][..12] == seq(12, _ => 0)
    ensures ParseLog(log).Success?
    ensures
      var e := ParseLog(log).value;
      e.amount < Pow256(32) && e.destinationChainId < Pow256(32) &&
      EncodeLog(log.topics[0], AddressOfWord(log.topics[1]), AddressOfWord(log.topics[2]),
                e.nonce, e.amount, e.destinationChainId,
                e.transactionHash, e.blockNumber) == log
  {
    TopicsRoundTrip(log.topics);
    DataRoundTrip(log.data);
  }

  lemma TopicsRoundTrip(topics: seq<Word>)
    requires |topics| == 4
    requires topics[1][..12] == seq(12, _ => 0) && topics[2][..12] == seq(12, _ => 0)
    ensures [topics[0], AddressWord(AddressOfWord(topics[1])), AddressWord(AddressOfWord(topics[2])),
             FromNat(ToNat(topics[3]), 32)] == topics
  {
    PaddedSlot(topics[1]);
    PaddedSlot(topics[2]);
    FromNatToNat(topics[3]);
  }

  lemma DataRoundTrip(data: seq<uint8>)
    requires |data| == 64
    ensures ToNat(Slice(data, 0, 32)) < Pow256(32) && ToNat(Slice(data, 32, 64)) < Pow256(32)
    ensures FromNat(ToNat(Slice(data, 0, 32)), 32) + FromNat(ToNat(Slice(data, 32, 64)), 32) == data
  {
    assert Slice(data, 0, 32) == data[..32] && Slice(data, 32, 64) == data[32..];
    FromNatToNat(data[..32]);
    FromNatToNat(data[32..]);
    assert data == data[..32] + data[32..];
  }

  lemma PaddedSlot(w: Word)
    requires w[..12] == seq(12, _ => 0)
    ensures AddressWord(AddressOfWord(w)) == w
  {
    assert w == w[..12] + w[12..];
  }

  /** What the decoder reads: the low 20 bytes of topics 1 and 2, all of topic 3,
      the first 64 data bytes. Topic 0, the upper 12 bytes of the address slots,
      topics after the fourth and data after byte 64 do not affect the result. */
  lemma ParseLogReadsOnly(log: RawLog, other: RawLog)
    requires |log.topics| >= 4 && |other.topics| >= 4
    requires AddressOfWord(log.topics[1]) == AddressOfWord(other.topics[1])
    requires AddressOfWord(log.topics[2]) == AddressOfWord(other.topics[2])
    requires log.topics[3] == other.topics[3]
    requires |log.data| >= 64 && |other.data| >= 64 && log.data[..64] == other.data[..64]
    requires log.transactionHash == other.transactionHash
    requires log.blockNumber == other.blockNumber
    ensures ParseLog(log) == ParseLog(other)
  {
    assert log.data[..32] == log.data[..64][..32] && other.data[..32] == other.data[..64][..32];
    assert log.data[32..64] == log.data[..64][32..] && other.data[32..64] == other.data[..64][32..];
  }

  /** The numeric fields are 256-bit unsigned values, and the address fields are
      canonical texts of the address slots' low 20 bytes. */
  lemma ParsedFieldsInRange(log: RawLog)
    requires ParseLog(log).Success?
    ensures
      var e := ParseLog(log).value;
      e.nonce < Pow256(32) &&
      (|log.data| >= 64 ==> e.amount < Pow256(32) && e.destinationChainId < Pow256(32)) &&
      ParseAddress(e.token) == Some(AddressOfWord(log.topics[1])) &&
      ParseAddress(e.sender) == Some(AddressOfWord(log.topics[2]))
  {
    ParseChecksumAddress(AddressOfWord(log.topics[1]));
    ParseChecksumAddress(AddressOfWord(log.topics[2]));
  }
}
