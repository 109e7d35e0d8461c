/**
  The identifiers a bid is known by on the auction network: the bid topic (the
  auction lane of one cutoff), the bid details (beneficiary and a random nonce)
  and the bid id, all built around an uninterpreted keccak256.
 */
module BidIdentifier {
  import opened Wrappers
  import opened Bytes
  import opened AuctionWindow

  /** OEV_AUCTIONS_MAJOR_VERSION. */
  const MajorVersion: nat := 1

  /**
    The bid-topic preimage: `encodePacked(["uint256", "uint256", "uint32", "uint32"],
    [version, dappId, auctionLength, cutoff])`, the Solidity non-standard packed
    mode, so each value takes exactly its width, big-endian, with no padding.
    None where viem refuses a value that does not fit its width.
   */
  function BidTopicPreimage(version: int, dappId: int, auctionLength: int, cutoff: int): (r: Option<seq<byte>>)
    ensures r.Some? <==>
      0 <= version < Uint256Limit && 0 <= dappId < Uint256Limit &&
      0 <= auctionLength < Uint32Limit && 0 <= cutoff < Uint32Limit
    ensures r.Some? ==> |r.value| == 72
  {
    var v, d, l, c := EncodeUint(version, 32), EncodeUint(dappId, 32), EncodeUint(auctionLength, 4), EncodeUint(cutoff, 4);
    if v.None? || d.None? || l.None? || c.None? then None
    else Some(Pack(v.value, d.value, l.value, c.value))
  }

  /** Each field sits at its fixed offset in the preimage, as its big-endian value. */
  lemma TopicPreimageLayout(version: int, dappId: int, auctionLength: int, cutoff: int)
    requires BidTopicPreimage(version, dappId, auctionLength, cutoff).Some?
    ensures var p := BidTopicPreimage(version, dappId, auctionLength, cutoff).value;
      BigEndian(p[..32]) == version && BigEndian(p[32..64]) == dappId &&
      BigEndian(p[64..68]) == auctionLength && BigEndian(p[68..]) == cutoff
  {
    var v, d, l, c := EncodeUint(version, 32).value, EncodeUint(dappId, 32).value, EncodeUint(auctionLength, 4).value, EncodeUint(cutoff, 4).value;
    var p := Pack(v, d, l, c);
    assert p == BidTopicPreimage(version, dappId, auctionLength, cutoff).value;
  }

  /** Concatenation of the four packed fields, each recoverable at its offset. */
  function Pack(v: seq<byte>, d: seq<byte>, l: seq<byte>, c: seq<byte>): (p: seq<byte>)
    requires |v| == 32 && |d| == 32 && |l| == 4 && |c| == 4
    ensures |p| == 72 && p[..32] == v && p[32..64] == d && p[64..68] == l && p[68..] == c
  {
    var p := v + d + l + c;
    assert p[..32] == v && p[32..64] == d && p[64..68] == l && p[68..] == c;
    p
  }

  /** `getBidTopic`: the auction lane of one cutoff for this dapp and timing. */
  function BidTopic(keccak: Keccak, t: Timing, cutoff: int): (r: Option<Bytes32>)
    ensures r.Some? <==> 0 <= t.auctionLength < Uint32Limit && 0 <= cutoff < Uint32Limit
  {
    match BidTopicPreimage(MajorVersion, DappId, t.auctionLength, cutoff)
    case Some(p) => Some(keccak(p))
    case None => None
  }

  /** Distinct cutoffs give distinct topic preimages, so only a keccak collision could merge two lanes. */
  lemma TopicPreimageSeparatesCutoffs(t: Timing, c1: int, c2: int)
    requires BidTopicPreimage(MajorVersion, DappId, t.auctionLength, c1).Some?
    requires BidTopicPreimage(MajorVersion, DappId, t.auctionLength, c1) ==
             BidTopicPreimage(MajorVersion, DappId, t.auctionLength, c2)
    ensures c1 == c2
  {
    TopicPreimageLayout(MajorVersion, DappId, t.auctionLength, c1);
    TopicPreimageLayout(MajorVersion, DappId, t.auctionLength, c2);
  }

  /**
    `getBidDetails`: `encodeAbiParameters("address, bytes32", [beneficiary, nonce])`,
    the Solidity contract ABI's head encoding of two static values, one 32-byte
    word each, the address right-aligned behind 12 zero bytes.
   */
  function BidDetails(beneficiary: Bytes20, nonce: Bytes32): (d: seq<byte>)
    ensures |d| == 64 && d[..12] == Zeros(12) && d[12..32] == beneficiary && d[32..] == nonce
  {
    var d := Zeros(12) + beneficiary + nonce;
    assert d[..12] == Zeros(12) && d[12..32] == beneficiary && d[32..] == nonce;
    d
  }

  /** Distinct nonces give distinct bid details: a fresh nonce gives a fresh bid. */
  lemma BidDetailsInjective(a1: Bytes20, n1: Bytes32, a2: Bytes20, n2: Bytes32)
    requires BidDetails(a1, n1) == BidDetails(a2, n2)
    ensures a1 == a2 && n1 == n2
  {
    var d := BidDetails(a1, n1);
    assert a1 == d[12..32] == a2;
    assert n1 == d[32..] == n2;
  }

  /** The bid-id preimage: `concat([bidder, bidTopic, keccak256(bidDetails)])`, 20 + 32 + 32 bytes. */
  function BidIdPreimage(bidder: Bytes20, topic: Bytes32, detailsHash: Bytes32): (p: seq<byte>)
    ensures |p| == 84 && p[..20] == bidder && p[20..52] == topic && p[52..] == detailsHash
  {
    var p := bidder + topic + detailsHash;
    assert p[..20] == bidder && p[20..52] == topic && p[52..] == detailsHash;
    p
  }

  /** The id `placeBid` computes for its bid once the placement is mined. */
  function BidId(keccak: Keccak, bidder: Bytes20, topic: Bytes32, details: seq<byte>): Bytes32 {
    keccak(BidIdPreimage(bidder, topic, keccak(details)))
  }

  /** The bid-id preimage determines bidder, topic and details hash, in that fixed order. */
  lemma BidIdPreimageInjective(b1: Bytes20, t1: Bytes32, h1: Bytes32, b2: Bytes20, t2: Bytes32, h2: Bytes32)
    requires BidIdPreimage(b1, t1, h1) == BidIdPreimage(b2, t2, h2)
    ensures b1 == b2 && t1 == t2 && h1 == h2
  {
    var p := BidIdPreimage(b1, t1, h1);
    assert b1 == p[..20] == b2;
    assert t1 == p[20..52] == t2;
    assert h1 == p[52..] == h2;
  }

  /** Everything `placeBid` derives locally before and after placing its bid. */
  datatype BidPlan = BidPlan(cutoff: int, expiry: int, topic: Bytes32, details: seq<byte>, bidId: Bytes32)

  datatype PlanError = CutoffOutOfRange

  /**
    The local part of `placeBid`: cutoff, expiry, topic, details and id. The one
    way it fails is a cutoff beyond the uint32 range of the topic encoding.
   */
  function PlanBid(keccak: Keccak, now: int, bidder: Bytes20, beneficiary: Bytes20, nonce: Bytes32): (r: Result<BidPlan, PlanError>)
    ensures
      var cutoff := SignedDataTimestampCutoff(keccak, OevTiming, DappId, now);
      && (r.Ok? <==> 0 <= cutoff < Uint32Limit)
      && (r.Ok? ==>
        && r.value.cutoff == cutoff
        && r.value.expiry == cutoff + OevTiming.auctionLength
        && r.value.details == BidDetails(beneficiary, nonce)
        && Some(r.value.topic) == BidTopic(keccak, OevTiming, cutoff)
        && r.value.bidId == keccak(BidIdPreimage(bidder, r.value.topic, keccak(r.value.details))))
  {
    var cutoff := SignedDataTimestampCutoff(keccak, OevTiming, DappId, now);
    var expiry := NextBiddingPhaseEnd(OevTiming, cutoff);
    match BidTopic(keccak, OevTiming, cutoff)
    case None => Err(CutoffOutOfRange)
    case Some(topic) =>
      var details := BidDetails(beneficiary, nonce);
      Ok(BidPlan(cutoff, expiry, topic, details, BidId(keccak, bidder, topic, details)))
  }

  /** The arguments of `reportFulfillment`: bid topic, hash of the bid details, update transaction hash. */
  datatype FulfillmentReport = FulfillmentReport(bidTopic: Bytes32, bidDetailsHash: Bytes32, updateTxHash: Bytes32)

  function ReportFor(keccak: Keccak, plan: BidPlan, updateTxHash: Bytes32): FulfillmentReport {
    FulfillmentReport(plan.topic, keccak(plan.details), updateTxHash)
  }

  /**
    The report names the bid only through topic and details hash; together with
    the bidder they rebuild exactly the id the bid was placed under.
   */
  lemma ReportIdentifiesBid(keccak: Keccak, now: int, bidder: Bytes20, beneficiary: Bytes20, nonce: Bytes32, tx: Bytes32)
    requires PlanBid(keccak, now, bidder, beneficiary, nonce).Ok?
    ensures var plan := PlanBid(keccak, now, bidder, beneficiary, nonce).value;
      var report := ReportFor(keccak, plan, tx);
      keccak(BidIdPreimage(bidder, report.bidTopic, report.bidDetailsHash)) == plan.bidId
  {
  }

  /** For current Unix times the cutoff fits the uint32 of the topic and the plan succeeds. */
  lemma PlanSucceedsBefore2106(keccak: Keccak, now: int, bidder: Bytes20, beneficiary: Bytes20, nonce: Bytes32)
    requires 0 <= now && now + 60 < Uint32Limit
    ensures PlanBid(keccak, now, bidder, beneficiary, nonce).Ok?
  {
    var offset := AuctionOffset(keccak, DappId, OevTiming);
    if offset <= now {
      CutoffBounds(OevTiming, offset, now);
    }
  }
}
