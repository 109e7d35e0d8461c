/**
  `fetchOEVSignedData`: for each airnode of a data feed, fetch its signed OEV
  updates, keep the ones for that airnode's OEV template, pick the latest, then
  drop invalid entries and build the quote bundle (the encoded updates and the
  median price). The registry reads and the HTTP fetches are inputs: the feed's
  airnode and template-id lists, and one fetch outcome per airnode.
 */
module SignedData {
  import opened Wrappers
  import opened Bytes
  import opened JsStrings
  import Median

  /** `Array.prototype.filter`: the elements that pass, in their order. */
  function Filter<T(!new)>(s: seq<T>, keep: T -> bool): (r: seq<T>)
    ensures |r| <= |s|
  {
    if s == [] then []
    else (if keep(s[0]) then [s[0]] else []) + Filter(s[1..], keep)
  }

  /** The filter keeps exactly the elements that pass, each as often as in s. */
  lemma {:induction false} FilterMembers<T(!new)>(s: seq<T>, keep: T -> bool)
    ensures forall x :: x in Filter(s, keep) <==> x in s && keep(x)
    ensures forall x :: multiset(Filter(s, keep))[x] == if keep(x) then multiset(s)[x] else 0
  {
    if s != [] {
      FilterMembers(s[1..], keep);
      FilterCons(s, keep);
      assert s == [s[0]] + s[1..];
      assert multiset(s) == multiset{s[0]} + multiset(s[1..]);
      assert forall x :: x in s <==> x == s[0] || x in s[1..];
    }
  }

  /** a is b with some elements left out, the others in their order. */
  predicate IsSubsequence<T(==)>(a: seq<T>, b: seq<T>)
    decreases |b|
  {
    if a == [] then true
    else if b == [] then false
    else if a[0] == b[0] then IsSubsequence(a[1..], b[1..])
    else IsSubsequence(a, b[1..])
  }

  lemma {:induction false} FilterIsSubsequence<T(!new)>(s: seq<T>, keep: T -> bool)
    ensures IsSubsequence(Filter(s, keep), s)
  {
    if s != [] {
      FilterIsSubsequence(s[1..], keep);
      var r := Filter(s, keep);
      if keep(s[0]) {
        assert r[0] == s[0] && r[1..] == Filter(s[1..], keep);
      } else {
        assert r == Filter(s[1..], keep);
        // every kept element passes, so the first one is not s[0]
        if r != [] {
          FilterMembers(s[1..], keep);
          assert r[0] in r;
        }
      }
    }
  }

  /** Filtering a non-empty sequence: its head if it passes, then the filtered tail. */
  lemma FilterCons<T(!new)>(s: seq<T>, keep: T -> bool)
    requires s != []
    ensures Filter(s, keep) == (if keep(s[0]) then [s[0]] else []) + Filter(s[1..], keep)
  {
  }

  lemma PrefixOfConcat<T>(a: seq<T>, b: seq<T>, n: nat)
    requires n <= |b|
    ensures (a + b)[..|a| + n] == a + b[..n]
  {
    assert forall t :: 0 <= t < |a| + n ==> (a + b)[..|a| + n][t] == (a + b[..n])[t];
  }

  lemma TailOfPrefix<T>(s: seq<T>, n: nat)
    requires 0 < n <= |s|
    ensures s[..n][0] == s[0] && s[..n][1..] == s[1..][..n - 1]
  {
    assert forall t :: 0 <= t < n - 1 ==> s[..n][1..][t] == s[1..][..n - 1][t];
  }

  /**
    Where the k-th kept element comes from: a position i of s holding it, with
    exactly the first k kept elements before it.
   */
  lemma {:induction false} FilterPosition<T(!new)>(s: seq<T>, keep: T -> bool, k: nat)
    requires k < |Filter(s, keep)|
    ensures exists i :: 0 <= i < |s| && s[i] == Filter(s, keep)[k] && Filter(s[..i], keep) == Filter(s, keep)[..k]
  {
    var r := Filter(s, keep);
    var rest := Filter(s[1..], keep);
    FilterCons(s, keep);
    var head := if keep(s[0]) then [s[0]] else [];
    if keep(s[0]) && k == 0 {
      assert Filter(s[..0], keep) == [] == r[..0];
      assert 0 <= 0 < |s| && s[0] == r[k] && Filter(s[..0], keep) == r[..k];
    } else {
      var k' := if keep(s[0]) then k - 1 else k;
      FilterPosition(s[1..], keep, k');
      var i' :| 0 <= i' < |s[1..]| && s[1..][i'] == rest[k'] && Filter(s[1..][..i'], keep) == rest[..k'];
      var i := i' + 1;
      assert r == head + rest && k == |head| + k';
      assert s[i] == rest[k'] == r[k];
      FilterCons(s[..i], keep);
      TailOfPrefix(s, i);
      assert Filter(s[..i], keep) == head + rest[..k'];
      PrefixOfConcat(head, rest, k');
      assert 0 <= i < |s| && s[i] == r[k] && Filter(s[..i], keep) == r[..k];
    }
  }

  /** Every element that passes and precedes the k-th kept one in s is one of the first k kept. */
  lemma FilterEarlierKept<T(!new)>(s: seq<T>, keep: T -> bool, k: nat)
    requires k < |Filter(s, keep)|
    ensures exists i :: (0 <= i < |s| && s[i] == Filter(s, keep)[k] &&
      forall j :: 0 <= j < i && keep(s[j]) ==> exists j' :: 0 <= j' < k && Filter(s, keep)[j'] == s[j])
  {
    FilterPosition(s, keep, k);
    var r := Filter(s, keep);
    var i :| 0 <= i < |s| && s[i] == r[k] && Filter(s[..i], keep) == r[..k];
    forall j | 0 <= j < i && keep(s[j])
      ensures exists j' :: 0 <= j' < k && r[j'] == s[j]
    {
      assert s[j] in r[..k] by {
        FilterMembers(s[..i], keep);
        assert s[..i][j] == s[j];
      }
      var j' :| 0 <= j' < k && r[..k][j'] == s[j];
      assert r[j'] == s[j];
    }
  }

  /**
    If the k-th kept element is first among the kept ones with its key, it is
    also first among the elements of s that pass and carry that key.
   */
  lemma FilterFirstAmongTies<T(!new)>(s: seq<T>, keep: T -> bool, key: T -> Option<int>, k: nat)
    requires k < |Filter(s, keep)|
    requires var r := Filter(s, keep);
      forall j :: 0 <= j < k ==> key(r[j]).None? || (key(r[k]).Some? && key(r[j]).value < key(r[k]).value)
    ensures exists i :: (0 <= i < |s| && s[i] == Filter(s, keep)[k] &&
      forall j :: 0 <= j < i && keep(s[j]) ==> key(s[j]).None? || (key(s[i]).Some? && key(s[j]).value < key(s[i]).value))
  {
    var r := Filter(s, keep);
    FilterEarlierKept(s, keep, k);
    var i :| 0 <= i < |s| && s[i] == r[k] &&
      forall j :: 0 <= j < i && keep(s[j]) ==> exists j' :: 0 <= j' < k && r[j'] == s[j];
    forall j | 0 <= j < i && keep(s[j])
      ensures key(s[j]).None? || (key(s[i]).Some? && key(s[j]).value < key(s[i]).value)
    {
      var j' :| 0 <= j' < k && r[j'] == s[j];
    }
  }

  /** One entry of a signed API response, its fields as the API sends them. */
  datatype SignedUpdate = SignedUpdate(templateId: string, timestamp: string, encodedValue: string, signature: string)

  /**
    Fetching one airnode's signed data: the entries of `Object.values(data.data)`
    in their order, or a failure of any kind (a network error, a status other
    than ok, a body that is not the expected JSON).
   */
  datatype Fetch = Fetched(updates: seq<SignedUpdate>) | FetchFailed

  /** A `PriceDetail`; the decoded timestamp (a Date) is left out. */
  datatype PriceDetail = PriceDetail(
    airnode: Bytes20, encodedValue: string, signature: string, templateId: Bytes32,
    templateIdOev: string, timestamp: string, decodedValue: real)

  /** `deriveOevTemplateId`: keccak256 of the template id, as lower-case hex text. */
  function OevTemplateId(keccak: Keccak, templateId: Bytes32): (id: string)
    ensures |id| == 66 && id[..2] == "0x"
  {
    ToHex(keccak(templateId))
  }

  /**
    Updates are matched by comparing this text, and equal texts mean equal
    hashes: the text comparison is the hash comparison.
   */
  lemma OevTemplateIdMatchesHash(keccak: Keccak, a: Bytes32, b: Bytes32)
    ensures OevTemplateId(keccak, a) == OevTemplateId(keccak, b) <==> keccak(a) == keccak(b)
  {
    if OevTemplateId(keccak, a) == OevTemplateId(keccak, b) {
      ToHexInjective(keccak(a), keccak(b));
    }
  }

  /** The timestamp as `parseInt` reads it; None is NaN. */
  function Key(u: SignedUpdate): Option<int> {
    ParseInt(u.timestamp)
  }

  /** The timestamps of the entries as `parseInt` reads them, in order. */
  function Keys(us: seq<SignedUpdate>): (ks: seq<Option<int>>)
    ensures |ks| == |us| && forall i :: 0 <= i < |us| ==> ks[i] == Key(us[i])
  {
    seq(|us|, i requires 0 <= i < |us| => Key(us[i]))
  }

  /**
    Among the first n keys, the first one holding the largest number; index 0
    when none holds a number.
   */
  function LatestAmong(ks: seq<Option<int>>, n: nat): (k: nat)
    requires 0 < n <= |ks|
    ensures k < n
    ensures forall j :: 0 <= j < n && ks[j].Some? ==> ks[k].Some? && ks[j].value <= ks[k].value
    ensures forall j :: 0 <= j < k ==> ks[j].None? || (ks[k].Some? && ks[j].value < ks[k].value)
    ensures ks[k].None? ==> k == 0
  {
    if n == 1 then 0
    else
      var k := LatestAmong(ks, n - 1);
      if ks[n - 1].Some? && (ks[k].None? || ks[k].value < ks[n - 1].value) then n - 1 else k
  }

  /**
    The index of the entry `sort((a, b) => parseInt(b.timestamp) - parseInt(a.timestamp))[0]`
    returns: the first entry, in response order, with the largest timestamp
    (the sort is stable). When no timestamp parses, the comparator always
    answers NaN, which counts as equal, and the first entry stays first.
   */
  function LatestIndex(us: seq<SignedUpdate>): (k: nat)
    requires |us| > 0
    ensures k < |us|
    ensures forall j :: 0 <= j < |us| && Key(us[j]).Some? ==> Key(us[k]).Some? && Key(us[j]).value <= Key(us[k]).value
    ensures forall j :: 0 <= j < k ==> Key(us[j]).None? || (Key(us[k]).Some? && Key(us[j]).value < Key(us[k]).value)
    ensures Key(us[k]).None? ==> k == 0
    ensures (forall j :: 0 <= j < |us| ==> Key(us[j]).None?) ==> k == 0
  {
    LatestAmong(Keys(us), |us|)
  }

  /** `signedData.filter(...)`: the entries carrying the airnode's OEV template id, in order. */
  function RelevantUpdates(updates: seq<SignedUpdate>, oevTemplateId: string): (r: seq<SignedUpdate>)
    ensures forall u :: u in r <==> u in updates && u.templateId == oevTemplateId
    ensures forall u :: multiset(r)[u] == if u.templateId == oevTemplateId then multiset(updates)[u] else 0
    ensures IsSubsequence(r, updates)
  {
    var keep := (u: SignedUpdate) => u.templateId == oevTemplateId;
    FilterMembers(updates, keep);
    FilterIsSubsequence(updates, keep);
    Filter(updates, keep)
  }

  /** The wei amount `BigInt(encodedValue)` reads, as a price in the unit: wei / 10^18. */
  function WeiToPrice(wei: int): real {
    (wei as real) / 1000000000000000000.0
  }

  /** `dapi.templateIds[i]`: undefined past the end of the list. */
  function TemplateIdAt(templateIds: seq<Bytes32>, i: nat): Option<Bytes32> {
    if i < |templateIds| then Some(templateIds[i]) else None
  }

  /**
    `relevantUpdates.sort(...)[0]` behind `relevantUpdates.length > 0`: the
    latest entry with the OEV template id, or None when no entry has it.
   */
  function LatestRelevant(updates: seq<SignedUpdate>, oevTemplateId: string): (r: Option<SignedUpdate>)
    ensures r.None? <==> forall u :: u in updates ==> u.templateId != oevTemplateId
    ensures r.Some? ==> r.value in updates && r.value.templateId == oevTemplateId
    ensures r.Some? ==> forall u :: u in updates && u.templateId == oevTemplateId && Key(u).Some? ==>
      Key(r.value).Some? && Key(u).value <= Key(r.value).value
  {
    var relevant := RelevantUpdates(updates, oevTemplateId);
    if relevant == [] then None
    else
      var k := LatestIndex(relevant);
      assert relevant[k] in relevant;
      assert forall u :: u in updates && u.templateId == oevTemplateId && Key(u).Some? ==>
        Key(relevant[k]).Some? && Key(u).value <= Key(relevant[k]).value by {
        forall u | u in updates && u.templateId == oevTemplateId && Key(u).Some?
          ensures Key(relevant[k]).Some? && Key(u).value <= Key(relevant[k]).value
        {
          assert u in relevant;
          var j :| 0 <= j < |relevant| && relevant[j] == u;
        }
      }
      Some(relevant[k])
  }

  /**
    The sort is stable, so among entries with the OEV template id the chosen
    one comes first among those with its timestamp: every such entry before it
    in the response has an unparseable or strictly smaller timestamp.
   */
  lemma LatestRelevantFirstAmongTies(updates: seq<SignedUpdate>, oevTemplateId: string)
    requires LatestRelevant(updates, oevTemplateId).Some?
    ensures var latest := LatestRelevant(updates, oevTemplateId).value;
      exists i :: 0 <= i < |updates| && updates[i] == latest &&
        forall j :: 0 <= j < i && updates[j].templateId == oevTemplateId ==>
          Key(updates[j]).None? || (Key(latest).Some? && Key(updates[j]).value < Key(latest).value)
  {
    var keep := (u: SignedUpdate) => u.templateId == oevTemplateId;
    var relevant := Filter(updates, keep);
    var k := LatestIndex(relevant);
    assert LatestRelevant(updates, oevTemplateId).value == relevant[k] by {
      assert relevant == RelevantUpdates(updates, oevTemplateId);
    }
    FilterFirstAmongTies(updates, keep, Key, k);
  }

  /**
    The detail pushed for the latest entry: None where `BigInt` throws on its
    encoded value (the `catch` then logs it and the airnode adds nothing).
   */
  function DetailFrom(airnode: Bytes20, templateId: Bytes32, latest: SignedUpdate): Option<PriceDetail> {
    match StringToBigInt(latest.encodedValue)
    case None => None
    case Some(wei) =>
      Some(PriceDetail(airnode, latest.encodedValue, latest.signature, templateId,
                       latest.templateId, latest.timestamp, WeiToPrice(wei)))
  }

  /**
    What one airnode contributes: nothing when its template id is missing, the
    fetch fails, no entry has the OEV template id, or `BigInt` refuses the
    latest entry's encoded value; otherwise the latest entry's detail.
   */
  function DetailOf(keccak: Keccak, airnode: Bytes20, templateId: Option<Bytes32>, fetch: Fetch): (r: Option<PriceDetail>)
    ensures r.Some? ==> templateId.Some? && fetch.Fetched? && r.value.airnode == airnode && r.value.templateId == templateId.value
  {
    match templateId
    case None => None
    case Some(id) =>
      match fetch
      case FetchFailed => None
      case Fetched(updates) =>
        match LatestRelevant(updates, OevTemplateId(keccak, id))
        case None => None
        case Some(latest) => DetailFrom(airnode, id, latest)
  }

  /**
    An airnode contributes a detail exactly when its template id is there, its
    fetch succeeds, some entry has the OEV template id and `BigInt` reads the
    latest such entry's encoded value.
   */
  lemma DetailOfExists(keccak: Keccak, airnode: Bytes20, templateId: Option<Bytes32>, fetch: Fetch)
    ensures DetailOf(keccak, airnode, templateId, fetch).Some? <==>
      && templateId.Some? && fetch.Fetched?
      && (exists u :: u in fetch.updates && u.templateId == OevTemplateId(keccak, templateId.value))
      && StringToBigInt(LatestRelevant(fetch.updates, OevTemplateId(keccak, templateId.value)).value.encodedValue).Some?
  {
  }

  /** The outcome of every index of the loop, in order. */
  function Outcomes(keccak: Keccak, airnodes: seq<Bytes20>, templateIds: seq<Bytes32>, fetches: seq<Fetch>): (os: seq<Option<PriceDetail>>)
    requires |fetches| == |airnodes|
    ensures |os| == |airnodes|
    ensures forall i :: 0 <= i < |airnodes| ==> os[i] == DetailOf(keccak, airnodes[i], TemplateIdAt(templateIds, i), fetches[i])
  {
    seq(|airnodes|, i requires 0 <= i < |airnodes| => DetailOf(keccak, airnodes[i], TemplateIdAt(templateIds, i), fetches[i]))
  }

  /** The values present in a sequence of options, in order. */
  function Present<T>(os: seq<Option<T>>): (r: seq<T>)
    ensures |r| <= |os|
  {
    if os == [] then []
    else Present(os[..|os| - 1]) + (if os[|os| - 1].Some? then [os[|os| - 1].value] else [])
  }

  /** A value is present exactly when some option holds it. */
  lemma {:induction false} PresentMembership<T(!new)>(os: seq<Option<T>>)
    ensures forall x :: x in Present(os) <==> Some(x) in os
  {
    if os != [] {
      var init := os[..|os| - 1];
      PresentMembership(init);
      assert os == init + [os[|os| - 1]];
    }
  }

  /** The first i + 1 outcomes hold what the first i hold, then what index i holds. */
  lemma PresentStep<T>(os: seq<Option<T>>, i: nat)
    requires i < |os|
    ensures Present(os[..i + 1]) == Present(os[..i]) + (if os[i].Some? then [os[i].value] else [])
  {
    assert os[..i + 1][..i] == os[..i];
  }

  lemma {:induction false} PresentConcat<T>(a: seq<Option<T>>, b: seq<Option<T>>)
    ensures Present(a + b) == Present(a) + Present(b)
    decreases |b|
  {
    if b != [] {
      var init := b[..|b| - 1];
      assert (a + b)[..|a + b| - 1] == a + init;
      PresentConcat(a, init);
    } else {
      assert a + b == a;
    }
  }

  /** The details the loop of `fetchOEVSignedData` pushes, in airnode order. */
  function Collected(keccak: Keccak, airnodes: seq<Bytes20>, templateIds: seq<Bytes32>, fetches: seq<Fetch>): (ds: seq<PriceDetail>)
    requires |fetches| == |airnodes|
    ensures |ds| <= |airnodes|
  {
    Present(Outcomes(keccak, airnodes, templateIds, fetches))
  }

  /** At most one detail per airnode, each one the outcome of some index. */
  lemma CollectedFromOutcomes(keccak: Keccak, airnodes: seq<Bytes20>, templateIds: seq<Bytes32>, fetches: seq<Fetch>)
    requires |fetches| == |airnodes|
    ensures |Collected(keccak, airnodes, templateIds, fetches)| <= |airnodes|
    ensures forall d :: d in Collected(keccak, airnodes, templateIds, fetches) <==>
      exists i :: 0 <= i < |airnodes| && DetailOf(keccak, airnodes[i], TemplateIdAt(templateIds, i), fetches[i]) == Some(d)
  {
    var os := Outcomes(keccak, airnodes, templateIds, fetches);
    PresentMembership(os);
    forall d | Some(d) in os
      ensures exists i :: 0 <= i < |airnodes| && DetailOf(keccak, airnodes[i], TemplateIdAt(templateIds, i), fetches[i]) == Some(d)
    {
      var i :| 0 <= i < |os| && os[i] == Some(d);
    }
  }

  /**
    The body of the `try` block for one airnode: filter the response by the
    OEV template id, take the latest entry and decode its value.
   */
  method ReadAirnodeDetail(keccak: Keccak, airnode: Bytes20, templateId: Bytes32, fetch: Fetch)
    returns (detail: Option<PriceDetail>)
    ensures detail == DetailOf(keccak, airnode, Some(templateId), fetch)
  {
    var oevTemplateId := OevTemplateId(keccak, templateId);
    match fetch {
      case FetchFailed =>
        return None;
      case Fetched(updates) =>
        var relevantUpdates := RelevantUpdates(updates, oevTemplateId);
        if |relevantUpdates| == 0 {
          return None;
        }
        var latestUpdate := relevantUpdates[LatestIndex(relevantUpdates)];
        var decodedValueWei := StringToBigInt(latestUpdate.encodedValue);
        if decodedValueWei.None? {
          return None;
        }
        detail := Some(PriceDetail(
          airnode, latestUpdate.encodedValue, latestUpdate.signature, templateId,
          latestUpdate.templateId, latestUpdate.timestamp, WeiToPrice(decodedValueWei.value)));
    }
  }

  /**
    The loop of `fetchOEVSignedData` over the feed's airnodes: at most one
    detail per index, indices without a template id skipped, a failed fetch
    logged and passed over.
   */
  method CollectPriceDetails(keccak: Keccak, airnodes: seq<Bytes20>, templateIds: seq<Bytes32>, fetches: seq<Fetch>)
    returns (priceDetails: seq<PriceDetail>)
    requires |fetches| == |airnodes|
    ensures priceDetails == Collected(keccak, airnodes, templateIds, fetches)
    ensures |priceDetails| <= |airnodes|
  {
    priceDetails := [];
    for i := 0 to |airnodes|
      invariant priceDetails == Present(Outcomes(keccak, airnodes, templateIds, fetches)[..i])
    {
      if i >= |templateIds| {
        CollectStep(keccak, airnodes, templateIds, fetches, i, None);
        continue;
      }
      var detail := ReadAirnodeDetail(keccak, airnodes[i], templateIds[i], fetches[i]);
      CollectStep(keccak, airnodes, templateIds, fetches, i, detail);
      if detail.Some? {
        priceDetails := priceDetails + [detail.value];
      }
    }
    assert Outcomes(keccak, airnodes, templateIds, fetches)[..|airnodes|] == Outcomes(keccak, airnodes, templateIds, fetches);
  }

  /** One turn of the loop: airnode i's outcome is appended to what the earlier ones gave. */
  lemma CollectStep(keccak: Keccak, airnodes: seq<Bytes20>, templateIds: seq<Bytes32>, fetches: seq<Fetch>, i: nat, detail: Option<PriceDetail>)
    requires |fetches| == |airnodes| && i < |airnodes|
    requires detail == if i < |templateIds| then DetailOf(keccak, airnodes[i], Some(templateIds[i]), fetches[i]) else None
    ensures var os := Outcomes(keccak, airnodes, templateIds, fetches);
      Present(os[..i + 1]) == Present(os[..i]) + (if detail.Some? then [detail.value] else [])
  {
    var os := Outcomes(keccak, airnodes, templateIds, fetches);
    assert os[i] == detail;
    PresentStep(os, i);
  }

  /**
    A failed fetch for one airnode does not abort the loop: the result is the
    one of the run without that failure, with exactly that airnode's detail
    left out.
   */
  lemma FailedFetchDropsOnlyItsAirnode(keccak: Keccak, airnodes: seq<Bytes20>, templateIds: seq<Bytes32>, fetches: seq<Fetch>, i: nat)
    requires |fetches| == |airnodes| && i < |airnodes|
    ensures
      var os := Outcomes(keccak, airnodes, templateIds, fetches);
      Collected(keccak, airnodes, templateIds, fetches[i := FetchFailed]) == Present(os[..i]) + Present(os[i + 1..])
  {
    var os := Outcomes(keccak, airnodes, templateIds, fetches);
    var failed := Outcomes(keccak, airnodes, templateIds, fetches[i := FetchFailed]);
    forall j | 0 <= j < |airnodes|
      ensures failed[j] == os[i := None][j]
    {
      if j == i {
        FailedFetchGivesNothing(keccak, airnodes[i], TemplateIdAt(templateIds, i));
      }
    }
    assert failed == os[i := None];
    PresentDropOne(os, i);
  }

  lemma FailedFetchGivesNothing(keccak: Keccak, airnode: Bytes20, templateId: Option<Bytes32>)
    ensures DetailOf(keccak, airnode, templateId, FetchFailed) == None
  {
  }

  /** Emptying one option leaves what comes before it and what comes after it. */
  lemma PresentDropOne<T>(os: seq<Option<T>>, i: nat)
    requires i < |os|
    ensures Present(os[i := None]) == Present(os[..i]) + Present(os[i + 1..])
  {
    assert os[i := None] == os[..i] + [None] + os[i + 1..];
    PresentConcat(os[..i], [None]);
    PresentConcat(os[..i] + [None], os[i + 1..]);
    assert Present<T>([None]) == Present<T>([]) + [];
  }

  /**
    What an airnode's detail is: the latest entry of its response among those
    with its OEV template id, with the airnode and template id it was read for.
   */
  lemma DetailIsLatestMatching(keccak: Keccak, airnode: Bytes20, templateId: Option<Bytes32>, fetch: Fetch)
    requires DetailOf(keccak, airnode, templateId, fetch).Some?
    ensures var d := DetailOf(keccak, airnode, templateId, fetch).value;
      && templateId.Some? && fetch.Fetched?
      && d.airnode == airnode && d.templateId == templateId.value
      && d.templateIdOev == OevTemplateId(keccak, templateId.value)
      && (exists u :: u in fetch.updates && u.templateId == d.templateIdOev &&
            u.timestamp == d.timestamp && u.encodedValue == d.encodedValue && u.signature == d.signature)
      && (forall u :: u in fetch.updates && u.templateId == d.templateIdOev && Key(u).Some? ==>
            ParseInt(d.timestamp).Some? && Key(u).value <= ParseInt(d.timestamp).value)
      && StringToBigInt(d.encodedValue).Some? && d.decodedValue == WeiToPrice(StringToBigInt(d.encodedValue).value)
  {
    var latest := LatestRelevant(fetch.updates, OevTemplateId(keccak, templateId.value));
    assert latest.value in fetch.updates;
  }

  /** `startsWith("0x")`. */
  predicate HexPrefixed(s: string) {
    StartsWith(s, "0x")
  }

  /**
    The validity check of `fetchOEVSignedData`: the timestamp has a leading
    number for `parseInt`, and the encoded value and the signature start with
    `0x` (an empty string fails that too).
   */
  predicate IsValidDetail(d: PriceDetail) {
    ParseInt(d.timestamp).Some? && HexPrefixed(d.encodedValue) && HexPrefixed(d.signature)
  }

  /** `priceDetails.filter(...)` with the validity check, as written. */
  function ValidPriceDetails(ds: seq<PriceDetail>): (r: seq<PriceDetail>)
    ensures |r| <= |ds| && forall d :: d in r ==> d in ds && IsValidDetail(d)
  {
    FilterMembers(ds, IsValidDetail);
    Filter(ds, IsValidDetail)
  }

  /** A detail is kept iff it passes all three checks; the kept ones keep their order. */
  lemma ValidPriceDetailsKeepsOrder(ds: seq<PriceDetail>)
    ensures forall d :: d in ValidPriceDetails(ds) <==> d in ds && IsValidDetail(d)
    ensures forall d :: multiset(ValidPriceDetails(ds))[d] == if IsValidDetail(d) then multiset(ds)[d] else 0
    ensures IsSubsequence(ValidPriceDetails(ds), ds)
  {
    FilterMembers(ds, IsValidDetail);
    FilterIsSubsequence(ds, IsValidDetail);
  }

  /** One element of `priceUpdateDetailsEncoded`: the ABI tuple (address, bytes32, uint256, bytes, bytes). */
  datatype EncodedUpdate = EncodedUpdate(airnode: Bytes20, templateId: Bytes32, timestamp: nat, encodedValue: string, signature: string)

  /** `BigInt(timestamp)` as a uint256: None where BigInt throws or viem refuses the value as out of range. */
  function TimestampWord(timestamp: string): (r: Option<nat>)
    ensures r.Some? ==> r.value < Uint256Limit
  {
    match StringToBigInt(timestamp)
    case Some(v) => if 0 <= v < Uint256Limit then Some(v) else None
    case None => None
  }

  /**
    A timestamp `BigInt` reads encodes exactly when its value is a uint256, and
    then as that value; a negative one such as "-1" does not.
   */
  lemma TimestampWordOfBigInt(timestamp: string, v: int)
    requires StringToBigInt(timestamp) == Some(v)
    ensures TimestampWord(timestamp).Some? <==> 0 <= v < Uint256Limit
    ensures TimestampWord(timestamp).Some? ==> TimestampWord(timestamp).value == v
  {
  }

  /** The decimal text of a uint256 encodes as that number. */
  lemma TimestampWordOfDecimal(n: nat)
    requires n < Uint256Limit
    ensures TimestampWord(ToDecimal(n)) == Some(n)
  {
    BigIntDecimalRoundTrip(n);
  }

  /** The encoding of one detail; None where encoding its timestamp throws. */
  function EncodeDetail(d: PriceDetail): Option<EncodedUpdate> {
    match TimestampWord(d.timestamp)
    case Some(t) => Some(EncodedUpdate(d.airnode, d.templateId, t, d.encodedValue, d.signature))
    case None => None
  }

  /**
    `validPriceDetails.map(...)`: every detail encoded, in order, or an error
    (the map throws) as soon as one timestamp cannot be encoded.
   */
  function EncodeDetails(ds: seq<PriceDetail>): (r: Result<seq<EncodedUpdate>, PriceDetail>)
    ensures r.Ok? <==> forall d :: d in ds ==> EncodeDetail(d).Some?
    ensures r.Ok? ==> |r.value| == |ds| && forall i :: 0 <= i < |ds| ==> Some(r.value[i]) == EncodeDetail(ds[i])
    ensures r.Err? ==> r.error in ds && EncodeDetail(r.error).None?
  {
    MapOrFail(ds, EncodeDetail)
  }

  /** `xs.map(f)` for an f that may throw: the first element it throws on, or every result in order. */
  function MapOrFail<A(!new), B>(xs: seq<A>, f: A -> Option<B>): (r: Result<seq<B>, A>)
    ensures r.Ok? <==> forall x :: x in xs ==> f(x).Some?
    ensures r.Ok? ==> |r.value| == |xs| && forall i :: 0 <= i < |xs| ==> Some(r.value[i]) == f(xs[i])
    ensures r.Err? ==> r.error in xs && f(r.error).None?
  {
    if xs == [] then Ok([])
    else
      var head := f(xs[0]);
      var tail := MapOrFail(xs[1..], f);
      assert xs == [xs[0]] + xs[1..];
      if head.None? then Err(xs[0])
      else if tail.Err? then Err(tail.error)
      else Ok([head.value] + tail.value)
  }

  /** The decoded prices of the details, in order. */
  function Prices(ds: seq<PriceDetail>): (ps: seq<real>)
    ensures |ps| == |ds| && forall i :: 0 <= i < |ds| ==> ps[i] == ds[i].decodedValue
  {
    seq(|ds|, i requires 0 <= i < |ds| => ds[i].decodedValue)
  }

  /** What `fetchOEVSignedData` returns: the encoded updates and the median price. */
  datatype Quote = Quote(priceUpdateDetailsEncoded: seq<EncodedUpdate>, medianPrice: real)

  /**
    The end of `fetchOEVSignedData` as written: validity filter, median, then
    the encoding map, which throws for a detail whose timestamp `parseInt`
    accepts but `BigInt` rejects.
   */
  function QuoteAsWritten(priceDetails: seq<PriceDetail>): (r: Result<Quote, PriceDetail>)
    ensures var valid := ValidPriceDetails(priceDetails);
      r.Ok? ==> && r.value.medianPrice == Median.Median(Prices(valid))
                && |r.value.priceUpdateDetailsEncoded| == |valid|
                && forall i :: 0 <= i < |valid| ==> Some(r.value.priceUpdateDetailsEncoded[i]) == EncodeDetail(valid[i])
    ensures r.Err? ==> r.error in priceDetails && IsValidDetail(r.error) && EncodeDetail(r.error).None?
  {
    var valid := ValidPriceDetails(priceDetails);
    match EncodeDetails(valid)
    case Err(bad) => Err(bad)
    case Ok(encoded) => Ok(Quote(encoded, Median.Median(Prices(valid))))
  }

  /**
    As written, the whole fetch fails exactly when some detail passes the
    validity check but its timestamp cannot be encoded as a uint256.
   */
  lemma QuoteAsWrittenFailsOnUnencodable(priceDetails: seq<PriceDetail>)
    ensures QuoteAsWritten(priceDetails).Err? <==>
      exists d :: d in priceDetails && IsValidDetail(d) && TimestampWord(d.timestamp).None?
  {
    FilterMembers(priceDetails, IsValidDetail);
  }

  /**
    Such a detail exists: `parseInt` reads the timestamp "1x" as 1, so a
    detail with it passes the validity check, while `BigInt("1x")` throws.
   */
  lemma LenientTimestampAbortsQuote(d: PriceDetail)
    requires d.timestamp == "1x" && HexPrefixed(d.encodedValue) && HexPrefixed(d.signature)
    ensures IsValidDetail(d) && QuoteAsWritten([d]).Err?
  {
    ParseIntOfOneX();
    BigIntOfOneX();
    assert d in [d];
    QuoteAsWrittenFailsOnUnencodable([d]);
  }

  /** `parseInt("1x")` is 1. */
  lemma ParseIntOfOneX()
    ensures ParseInt("1x") == Some(1)
  {
    assert DigitValue('x') == 33;
    ParseIntReadsLeadingDigits("1", "x");
    assert "1" + "x" == "1x";
    assert DigitsValue("1", 10) == 1 by { assert "1"[..0] == []; }
  }

  /** `BigInt("1x")` throws. */
  lemma BigIntOfOneX()
    ensures StringToBigInt("1x") == None
  {
    assert !IsJsWhiteSpace('1') && !IsJsWhiteSpace('x');
    NoTrimAround("1x");
    assert !AllDigits("1x", 10) by { assert DigitValue("1x"[1]) == 33; }
  }

  /** A detail the quote can use: valid as above, and its timestamp encodes as a uint256. */
  predicate IsUsableDetail(d: PriceDetail) {
    IsValidDetail(d) && TimestampWord(d.timestamp).Some?
  }

  /** The validity filter with the encoding's own check on the timestamp added. */
  function UsablePriceDetails(ds: seq<PriceDetail>): seq<PriceDetail> {
    Filter(ds, IsUsableDetail)
  }

  /**
    The end of `fetchOEVSignedData` with the corrected filter: it never fails,
    the median and the encoded updates come from the same usable details, and
    the encoded updates keep their count and order.
   */
  function QuoteOf(priceDetails: seq<PriceDetail>): (q: Quote)
    ensures var usable := UsablePriceDetails(priceDetails);
      && q.medianPrice == Median.Median(Prices(usable))
      && |q.priceUpdateDetailsEncoded| == |usable|
      && forall i :: 0 <= i < |usable| ==> Some(q.priceUpdateDetailsEncoded[i]) == EncodeDetail(usable[i])
  {
    var usable := UsablePriceDetails(priceDetails);
    FilterMembers(priceDetails, IsUsableDetail);
    var encoded := EncodeDetails(usable);
    assert encoded.Ok?;
    Quote(encoded.value, Median.Median(Prices(usable)))
  }

  /** The usable details are exactly the valid ones whose timestamp encodes, in their order. */
  lemma UsablePriceDetailsKeepsOrder(ds: seq<PriceDetail>)
    ensures forall d :: d in UsablePriceDetails(ds) <==> d in ds && IsUsableDetail(d)
    ensures forall d :: multiset(UsablePriceDetails(ds))[d] == if IsUsableDetail(d) then multiset(ds)[d] else 0
    ensures IsSubsequence(UsablePriceDetails(ds), ds)
  {
    FilterMembers(ds, IsUsableDetail);
    FilterIsSubsequence(ds, IsUsableDetail);
  }

  /** Wherever the code as written succeeds, the corrected quote is the same quote. */
  lemma CorrectedAgreesWhenEncodable(ds: seq<PriceDetail>)
    requires QuoteAsWritten(ds).Ok?
    ensures QuoteOf(ds) == QuoteAsWritten(ds).value
  {
    FilterSameWhenEquivalent(ds);
  }

  lemma {:induction false} FilterSameWhenEquivalent(ds: seq<PriceDetail>)
    requires forall d :: d in ValidPriceDetails(ds) ==> TimestampWord(d.timestamp).Some?
    ensures UsablePriceDetails(ds) == ValidPriceDetails(ds)
  {
    if ds != [] {
      assert forall d :: d in ValidPriceDetails(ds[1..]) ==> d in ValidPriceDetails(ds);
      FilterSameWhenEquivalent(ds[1..]);
      if IsValidDetail(ds[0]) {
        assert ds[0] in ValidPriceDetails(ds);
      }
    }
  }

  /**
    `fetchOEVSignedData` as written, from the registry's airnode and
    template-id lists and the per-airnode fetch outcomes: it fails on a
    collected detail that passes the validity check but whose timestamp does
    not encode, and wherever it succeeds it returns the corrected quote.
   */
  function FetchOevSignedDataAsWritten(keccak: Keccak, airnodes: seq<Bytes20>, templateIds: seq<Bytes32>, fetches: seq<Fetch>): (r: Result<Quote, PriceDetail>)
    requires |fetches| == |airnodes|
    ensures var ds := Collected(keccak, airnodes, templateIds, fetches);
      && (r.Ok? ==> r.value == QuoteOf(ds))
      && (r.Err? <==> exists d :: d in ds && IsValidDetail(d) && TimestampWord(d.timestamp).None?)
      && (r.Err? ==> r.error in ds && IsValidDetail(r.error) && TimestampWord(r.error.timestamp).None?)
  {
    var ds := Collected(keccak, airnodes, templateIds, fetches);
    QuoteAsWrittenFailsOnUnencodable(ds);
    var r := QuoteAsWritten(ds);
    if r.Ok? then CorrectedAgreesWhenEncodable(ds); r else r
  }

  /**
    `fetchOEVSignedData` with the corrected filter: the loop over the airnodes,
    then the quote of the usable details, which never fails.
   */
  method FetchOevSignedDataCorrected(keccak: Keccak, airnodes: seq<Bytes20>, templateIds: seq<Bytes32>, fetches: seq<Fetch>)
    returns (q: Quote)
    requires |fetches| == |airnodes|
    ensures q == QuoteOf(Collected(keccak, airnodes, templateIds, fetches))
    ensures |q.priceUpdateDetailsEncoded| <= |airnodes|
  {
    var priceDetails := CollectPriceDetails(keccak, airnodes, templateIds, fetches);
    q := QuoteOf(priceDetails);
  }
}
