/**
 * Checking addresses: `LinkChecker.check_url`, which classifies the
 * outcome of one HEAD request, and the loop in `handle_call_tool` that
 * checks the distinct addresses of a scan in consecutive batches.
 */
module Verify {
  import opened Wrappers
  import opened Model
  import Extract

  /** The number of addresses checked together (`batch_size`). */
  const BatchSize: nat := 10

  /** `check_url`: the record for `url` given what its HEAD request gave. */
  function CheckUrl(url: Url, probe: Probe): (r: CheckOutcome)
    ensures r.url == url
    ensures r.accessible <==> probe.Responded? && probe.status < Extract.ErrorStatus
    ensures probe.Raised? ==> r.status == None && r.finalUrl == None && r.error == Some(probe.message)
    ensures probe.Responded? ==> r.status == Some(probe.status) && r.finalUrl == Some(probe.finalUrl) && r.error == None
  {
    match probe
    case Responded(status, finalUrl) =>
      CheckOutcome(url, Some(status), status < Extract.ErrorStatus, None, Some(finalUrl))
    case Raised(message) =>
      CheckOutcome(url, None, false, Some(message), None)
  }

  /**
   * The records `check_url` can produce: a status and a final address
   * exactly when there is no error, and accessible exactly when there is
   * a status and it is below 400.
   */
  predicate WellFormed(o: CheckOutcome)
  {
    && (o.status.Some? <==> o.finalUrl.Some?)
    && (o.error.Some? <==> o.status.None?)
    && (o.accessible ==> o.status.Some?)
    && (o.status.Some? ==> (o.accessible <==> o.status.value < Extract.ErrorStatus))
  }

  /** The probe a well-formed record was made from. */
  function ProbeOf(o: CheckOutcome): Probe
    requires WellFormed(o)
  {
    if o.status.Some? then Responded(o.status.value, o.finalUrl.value) else Raised(o.error.value)
  }

  /** Every record `check_url` produces is well formed, and loses nothing about the probe. */
  lemma CheckUrlRoundTrip(url: Url, probe: Probe)
    ensures WellFormed(CheckUrl(url, probe))
    ensures ProbeOf(CheckUrl(url, probe)) == probe
  {
  }

  /** Conversely, a well-formed record is what `check_url` gives for its own probe. */
  lemma CheckUrlOfProbeOf(o: CheckOutcome)
    requires WellFormed(o)
    ensures CheckUrl(o.url, ProbeOf(o)) == o
  {
  }

  /**
   * `asyncio.gather(*[check_url(u) for u in urls])`: one record per
   * address, in order. `check_url` catches the errors of the request, so
   * none of the gathered results is an exception.
   */
  function CheckAll(urls: seq<Url>, probe: Url -> Probe): (r: seq<CheckOutcome>)
    ensures |r| == |urls|
    ensures forall i :: 0 <= i < |urls| ==>
      && r[i].url == urls[i]
      && (r[i].accessible <==> probe(urls[i]).Responded? && probe(urls[i]).status < Extract.ErrorStatus)
  {
    seq(|urls|, i requires 0 <= i < |urls| => CheckUrl(urls[i], probe(urls[i])))
  }

  /** `check_specific_links`: every requested address is checked, duplicates included, in request order. */
  lemma CheckSpecificLinks(urls: seq<Url>, probe: Url -> Probe)
    ensures forall i :: 0 <= i < |urls| ==> WellFormed(CheckAll(urls, probe)[i])
    ensures forall i :: 0 <= i < |urls| ==> ProbeOf(CheckAll(urls, probe)[i]) == probe(urls[i])
  {
    forall i | 0 <= i < |urls|
      ensures WellFormed(CheckAll(urls, probe)[i]) && ProbeOf(CheckAll(urls, probe)[i]) == probe(urls[i])
    {
      CheckUrlRoundTrip(urls[i], probe(urls[i]));
    }
  }

  /** Checking a concatenation checks each part. */
  lemma CheckAllAppend(a: seq<Url>, b: seq<Url>, probe: Url -> Probe)
    ensures CheckAll(a + b, probe) == CheckAll(a, probe) + CheckAll(b, probe)
  {
    var l, r := CheckAll(a + b, probe), CheckAll(a, probe) + CheckAll(b, probe);
    assert forall i :: 0 <= i < |a + b| ==> l[i] == r[i];
  }

  /** The batches laid end to end. */
  function Concat<T>(batches: seq<seq<T>>): seq<T>
  {
    if batches == [] then [] else Concat(batches[..|batches| - 1]) + batches[|batches| - 1]
  }

  function Min(a: int, b: int): int
  {
    if a <= b then a else b
  }

  /**
   * The batching loop of `scan_website_links`: the addresses are cut into
   * consecutive slices of `BatchSize` (the last one shorter), each slice is
   * checked, and the results are appended in order. Batching changes
   * nothing in the result: it is exactly `CheckAll` of all the addresses.
   */
  method CheckInBatches(unique: seq<Url>, probe: Url -> Probe)
    returns (results: seq<CheckOutcome>, ghost batches: seq<seq<Url>>)
    ensures results == CheckAll(unique, probe)
    ensures Concat(batches) == unique
    ensures forall j :: 0 <= j < |batches| ==> 0 < |batches[j]| <= BatchSize
    ensures forall j :: 0 <= j < |batches| - 1 ==> |batches[j]| == BatchSize
  {
    results, batches := [], [];
    var i := 0;
    while i < |unique|
      invariant 0 <= i
      invariant Concat(batches) == unique[..Min(i, |unique|)]
      invariant results == CheckAll(Concat(batches), probe)
      invariant forall j :: 0 <= j < |batches| ==> 0 < |batches[j]| <= BatchSize
      invariant forall j :: 0 <= j < |batches| - 1 ==> |batches[j]| == BatchSize
      invariant i < |unique| ==> forall j :: 0 <= j < |batches| ==> |batches[j]| == BatchSize
    {
      var batch := unique[i..Min(i + BatchSize, |unique|)];
      var batchResults := CheckAll(batch, probe);
      CheckAllAppend(Concat(batches), batch, probe);
      assert unique[..Min(i + BatchSize, |unique|)] == unique[..i] + batch;
      results := results + batchResults;
      batches := batches + [batch];
      i := i + BatchSize;
    }
    assert unique[..Min(i, |unique|)] == unique;
  }
}
