/**
  The auction-window arithmetic of `determineSignedDataTimestampCutoff` and the
  bid expiry that `placeBid` derives from it.

  Auctions repeat every L seconds on a grid shifted by a per-dapp offset. Each
  auction opens with a bidding phase of B seconds; the signed-data cutoff of an
  auction is its bidding-phase end. When fewer than S seconds of the current
  bidding phase remain, the bidder aims at the next auction instead.
 */
module AuctionWindow {
  import opened Bytes

  /** Auction length L, bidding-phase length B and safety buffer S, in seconds. */
  datatype Timing = Timing(auctionLength: nat, biddingPhaseLength: nat, bufferSeconds: nat)

  /** OEV_AUCTION_LENGTH_SECONDS, OEV_BIDDING_PHASE_LENGTH_SECONDS, OEV_BIDDING_PHASE_BUFFER_SECONDS. */
  const OevTiming: Timing := Timing(30, 25, 3)

  /** The dApp id of the communal proxies. */
  const DappId: nat := 1

  predicate ValidTiming(t: Timing) {
    t.bufferSeconds <= t.biddingPhaseLength < t.auctionLength
  }

  /** k copies of a positive m add up to at least m. */
  lemma {:induction false} MulAtLeast(k: int, m: int)
    requires k >= 1 && m > 0
    ensures k * m >= m
  {
    if k > 1 {
      MulAtLeast(k - 1, m);
      assert k * m == (k - 1) * m + m;
    }
  }

  /** Euclidean division is unique: a quotient and a remainder in [0, m) that rebuild a are a / m and a % m. */
  lemma DivModUnique(a: int, m: int, q: int, r: int)
    requires m > 0 && 0 <= r < m && a == q * m + r
    ensures a / m == q && a % m == r
  {
    var q0, r0 := a / m, a % m;
    assert (q - q0) * m == r0 - r;
    if q > q0 {
      MulAtLeast(q - q0, m);
    } else if q < q0 {
      assert (q0 - q) * m == r - r0;
      MulAtLeast(q0 - q, m);
    }
  }

  /**
    JavaScript's `%` on integers: the quotient truncates toward zero, so the
    remainder differs from a by a multiple of b, is smaller than b in size and
    takes the sign of a. These three facts fix r.
   */
  function JsRemainder(a: int, b: int): (r: int)
    requires b > 0
    ensures (a - r) % b == 0
    ensures -b < r < b
    ensures (a >= 0 ==> r >= 0) && (a <= 0 ==> r <= 0)
  {
    var n := if a >= 0 then a else -a;
    var q, m := n / b, n % b;
    assert n == q * b + m;
    if a >= 0 then
      DivModUnique(a - m, b, q, 0);
      m
    else
      DivModUnique(a + m, b, -q, 0);
      -m
  }

  /** Any remainder that truncates toward zero is JavaScript's `%`. */
  lemma JsRemainderUnique(a: int, b: int, r: int)
    requires b > 0 && (a - r) % b == 0 && -b < r < b
    requires (a >= 0 ==> r >= 0) && (a <= 0 ==> r <= 0)
    ensures r == JsRemainder(a, b)
  {
    var j := JsRemainder(a, b);
    if r < j {
      MultiplesApart(a - j, a - r, b);
    } else if j < r {
      MultiplesApart(a - r, a - j, b);
    }
  }

  /**
    The per-dapp auction offset: keccak256 of the dapp id ABI-encoded as a
    uint256, read as an unsigned integer, modulo the auction length.
   */
  function AuctionOffset(keccak: Keccak, dappId: nat, t: Timing): (offset: nat)
    requires t.auctionLength > 0 && dappId < Uint256Limit
    ensures offset < t.auctionLength
  {
    BigEndian(keccak(ToBigEndian(dappId, 32))) % t.auctionLength
  }

  /** The auction that `now` falls in, and the cutoff chosen for the bid. */
  datatype Window = Window(auctionStart: int, biddingPhaseEnd: int, cutoff: int)

  /**
    `determineSignedDataTimestampCutoff` for the time `now` (whole Unix seconds)
    and an auction offset already reduced modulo L.
   */
  function ComputeWindow(t: Timing, offset: nat, now: int): (w: Window)
    requires ValidTiming(t) && offset < t.auctionLength
    ensures w.biddingPhaseEnd == w.auctionStart + t.biddingPhaseLength
    // rolls forward by exactly one auction length, and only when fewer than S seconds remain
    ensures w.cutoff == w.biddingPhaseEnd <==> w.biddingPhaseEnd - now >= t.bufferSeconds
    ensures w.cutoff != w.biddingPhaseEnd ==> w.cutoff == w.biddingPhaseEnd + t.auctionLength
  {
    var timeInCurrentAuction := JsRemainder(now - offset, t.auctionLength);
    var auctionStart := now - timeInCurrentAuction;
    var biddingPhaseEnd := auctionStart + t.biddingPhaseLength;
    var cutoff :=
      if biddingPhaseEnd - now < t.bufferSeconds then biddingPhaseEnd + t.auctionLength
      else biddingPhaseEnd;
    Window(auctionStart, biddingPhaseEnd, cutoff)
  }

  /** c is the bidding-phase end of some auction on the offset grid. */
  predicate OnCutoffGrid(t: Timing, offset: nat, c: int)
    requires t.auctionLength > 0
  {
    (c - offset - t.biddingPhaseLength) % t.auctionLength == 0
  }

  /** `now` falls in the auction that starts at auctionStart, and that auction is on the offset grid. */
  lemma WindowContainsNow(t: Timing, offset: nat, now: int)
    requires ValidTiming(t) && offset < t.auctionLength && offset <= now
    ensures var w := ComputeWindow(t, offset, now);
      w.auctionStart <= now < w.auctionStart + t.auctionLength &&
      (w.auctionStart - offset) % t.auctionLength == 0
  {
    var L := t.auctionLength;
    var w := ComputeWindow(t, offset, now);
    var q := (now - offset) / L;
    assert w.auctionStart - offset == q * L;
    DivModUnique(w.auctionStart - offset, L, q, 0);
  }

  /** The cutoff leaves at least S and less than L + S seconds, and is the bidding-phase end of an auction on the grid. */
  lemma CutoffBounds(t: Timing, offset: nat, now: int)
    requires ValidTiming(t) && offset < t.auctionLength && offset <= now
    ensures var w := ComputeWindow(t, offset, now);
      t.bufferSeconds <= w.cutoff - now < t.auctionLength + t.bufferSeconds &&
      OnCutoffGrid(t, offset, w.cutoff)
  {
    var L := t.auctionLength;
    var w := ComputeWindow(t, offset, now);
    WindowContainsNow(t, offset, now);
    var q := (w.auctionStart - offset) / L;
    assert w.auctionStart - offset == q * L;
    if w.cutoff == w.biddingPhaseEnd {
      DivModUnique(w.cutoff - offset - t.biddingPhaseLength, L, q, 0);
    } else {
      assert w.cutoff - offset - t.biddingPhaseLength == (q + 1) * L;
      DivModUnique(w.cutoff - offset - t.biddingPhaseLength, L, q + 1, 0);
    }
  }

  /** The signed-data cutoff for the dapp at time `now`, as `placeBid` obtains it. */
  function SignedDataTimestampCutoff(keccak: Keccak, t: Timing, dappId: nat, now: int): (cutoff: int)
    requires ValidTiming(t) && dappId < Uint256Limit
    ensures now >= t.auctionLength ==>
      t.bufferSeconds <= cutoff - now < t.auctionLength + t.bufferSeconds &&
      OnCutoffGrid(t, AuctionOffset(keccak, dappId, t), cutoff)
  {
    var offset := AuctionOffset(keccak, dappId, t);
    if now >= t.auctionLength then CutoffBounds(t, offset, now); ComputeWindow(t, offset, now).cutoff
    else ComputeWindow(t, offset, now).cutoff
  }

  /**
    Reference definition: the cutoff is the ONE grid point at least S and less
    than L + S seconds after `now`. Any grid point in that range is it.
   */
  lemma CutoffIsUniqueGridPoint(t: Timing, offset: nat, now: int, c: int)
    requires ValidTiming(t) && offset < t.auctionLength && offset <= now
    requires OnCutoffGrid(t, offset, c)
    requires t.bufferSeconds <= c - now < t.auctionLength + t.bufferSeconds
    ensures c == ComputeWindow(t, offset, now).cutoff
  {
    var w := ComputeWindow(t, offset, now);
    CutoffBounds(t, offset, now);
    var x, y := c - offset - t.biddingPhaseLength, w.cutoff - offset - t.biddingPhaseLength;
    if x < y {
      MultiplesApart(x, y, t.auctionLength);
    } else if y < x {
      MultiplesApart(y, x, t.auctionLength);
    }
  }

  /** Two distinct multiples of m lie at least m apart. */
  lemma MultiplesApart(x: int, y: int, m: int)
    requires m > 0 && x % m == 0 && y % m == 0 && x < y
    ensures y - x >= m
  {
    if y - x < m {
      // y would then leave the remainder y - x, not 0
      DivModUnique(y, m, x / m, y - x);
    }
  }


  /** A later call never yields an earlier cutoff. */
  lemma CutoffMonotone(t: Timing, offset: nat, now1: int, now2: int)
    requires ValidTiming(t) && offset < t.auctionLength && offset <= now1 <= now2
    ensures ComputeWindow(t, offset, now1).cutoff <= ComputeWindow(t, offset, now2).cutoff
  {
    var c1, c2 := ComputeWindow(t, offset, now1).cutoff, ComputeWindow(t, offset, now2).cutoff;
    CutoffBounds(t, offset, now2);
    if c2 < c1 {
      CutoffBounds(t, offset, now1);
      // c2 lies in [now1 + S, now1 + L + S) and is on the grid, so it is c1
      CutoffIsUniqueGridPoint(t, offset, now1, c2);
    }
  }

  /**
    Two calls agree while at least S seconds remain before the first call's
    cutoff: the cutoff changes only when the buffer is crossed.
   */
  lemma CutoffStableUntilBuffer(t: Timing, offset: nat, now1: int, now2: int)
    requires ValidTiming(t) && offset < t.auctionLength && offset <= now1 <= now2
    requires ComputeWindow(t, offset, now1).cutoff - now2 >= t.bufferSeconds
    ensures ComputeWindow(t, offset, now2).cutoff == ComputeWindow(t, offset, now1).cutoff
  {
    CutoffBounds(t, offset, now1);
    CutoffIsUniqueGridPoint(t, offset, now2, ComputeWindow(t, offset, now1).cutoff);
  }

  /**
    The expiry given to `placeBidWithExpiration`: the bidding-phase end of the
    auction after the cutoff's.
   */
  function NextBiddingPhaseEnd(t: Timing, cutoff: int): int {
    cutoff + t.auctionLength
  }

  /** The expiry is one full auction after the cutoff, on the same grid, L + S to 2L + S seconds ahead. */
  lemma ExpiryFollowsCutoff(t: Timing, offset: nat, now: int)
    requires ValidTiming(t) && offset < t.auctionLength && offset <= now
    ensures var w := ComputeWindow(t, offset, now);
      var e := NextBiddingPhaseEnd(t, w.cutoff);
      OnCutoffGrid(t, offset, e) && e > w.cutoff &&
      t.auctionLength + t.bufferSeconds <= e - now < 2 * t.auctionLength + t.bufferSeconds
  {
    var w := ComputeWindow(t, offset, now);
    CutoffBounds(t, offset, now);
    NextMultiple(w.cutoff - offset - t.biddingPhaseLength, t.auctionLength);
  }

  /** One modulus past a multiple of it is a multiple again. */
  lemma NextMultiple(g: int, m: int)
    requires m > 0 && g % m == 0
    ensures (g + m) % m == 0
  {
    assert g == (g / m) * m;
    DivModUnique(g + m, m, g / m + 1, 0);
  }
}
