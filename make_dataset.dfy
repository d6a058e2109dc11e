/** The sequential scraper of src/data/make_dataset.py: its page-identifier
    space, the page addresses built from it, and the loop that keeps the
    three views of every accepted page. The per-page rules are those of
    `Pages.ProcessUrl`; reading a page into tables is the parameter `fetch`. */
module MakeDataset {
  import opened Seqs
  import opened Frames
  import opened Pages
  import opened Ids

  /** `string.ascii_uppercase[0:10]`, the alphabet of the fourth character. */
  const FourthAlphabet: string := Uppercase[..10]

  const UrlPrefix: string := "https://results.baa.org/2024/?content=detail&fpid=search&pid=search&idp=9TGHS6FF19"

  /** The identifiers of the four nested loops, in loop order. */
  const Identifiers: seq<string> := Words4(Uppercase, Uppercase, Digits, FourthAlphabet)

  /** The page addresses, one per identifier. */
  const Addresses: seq<string> := Urls(UrlPrefix, Identifiers)

  /** There are 26·26·10·10 identifiers, all distinct: two capital letters,
      a digit, and a capital letter from A to J (never one beyond J). */
  lemma IdentifierSpace()
    ensures |Identifiers| == 67600
    ensures forall w :: w in Identifiers <==>
      |w| == 4 && 'A' <= w[0] <= 'Z' && 'A' <= w[1] <= 'Z' && '0' <= w[2] <= '9' && 'A' <= w[3] <= 'J'
    ensures Distinct(Identifiers)
  {
    CharRangeExact('A', 26);
    CharRangeExact('0', 10);
    CharRangeExact('A', 10);
    assert FourthAlphabet == CharRange('A', 10);
    IdentifierCount();
    Words4Exact(Uppercase, Uppercase, Digits, FourthAlphabet);
  }

  lemma IdentifierCount()
    ensures |Identifiers| == 67600
  {
    Words4Exact(Uppercase, Uppercase, Digits, FourthAlphabet);
    assert |Uppercase| == 26 && |Digits| == 10 && |FourthAlphabet| == 10;
    assert |Uppercase| * |Uppercase| * |Digits| * |FourthAlphabet| == 67600;
  }

  /** The addresses follow the identifiers one for one, in the same order,
      each the fixed prefix followed by its identifier, and no address is
      listed twice. */
  lemma AddressSpace()
    ensures |Addresses| == |Identifiers| == 67600
    ensures forall k :: 0 <= k < |Addresses| ==>
      Addresses[k][..|UrlPrefix|] == UrlPrefix && Addresses[k][|UrlPrefix|..] == Identifiers[k]
    ensures Distinct(Addresses)
  {
    IdentifierSpace();
    UrlsDistinct(UrlPrefix, Identifiers);
  }

  /** `process_url(url)` raises on the page behind `url`. */
  predicate Raises(fetch: string -> seq<PageTable>, url: string) {
    ProcessUrl(fetch(url)).Err?
  }

  /** `process_url(url)` returns three frames for the page behind `url`. */
  predicate AcceptedAt(fetch: string -> seq<PageTable>, url: string) {
    Accepted(fetch(url))
  }

  function AcceptedBy(fetch: string -> seq<PageTable>): string -> bool {
    url => AcceptedAt(fetch, url)
  }

  /** What the loop has kept after the pages of `urls`: the views of each
      accepted page, in URL order, or the exception of the first page on
      which `process_url` raises (which ends the script). */
  function Collected(urls: seq<string>, fetch: string -> seq<PageTable>): (r: Result<seq<Views>>)
    ensures r.Ok? ==> |r.value| <= |urls|
  {
    if urls == [] then Ok([])
    else
      match Collected(urls[..|urls| - 1], fetch)
      case Err(e) => Err(e)
      case Ok(vs) =>
        match ProcessUrl(fetch(urls[|urls| - 1]))
        case Err(e) => Err(e)
        case Ok(None) => Ok(vs)
        case Ok(Some(v)) => Ok(vs + [v])
  }

  /** The views of pages that are all accepted, in order. */
  function ViewsOf(urls: seq<string>, fetch: string -> seq<PageTable>): (vs: seq<Views>)
    requires forall u :: u in urls ==> AcceptedAt(fetch, u)
    ensures |vs| == |urls|
    ensures forall k :: 0 <= k < |urls| ==> urls[k] in urls && Accepted(fetch(urls[k])) && Some(vs[k]) == ProcessUrl(fetch(urls[k])).value
  {
    assert forall k :: 0 <= k < |urls| ==> urls[k] in urls && AcceptedAt(fetch, urls[k]) && Accepted(fetch(urls[k]));
    seq(|urls|, k requires 0 <= k < |urls| => ProcessUrl(fetch(urls[k])).value.value)
  }

  /** When no page raises, the loop keeps exactly the views of the accepted
      pages, in URL order. */
  lemma {:induction false} CollectedAccepted(urls: seq<string>, fetch: string -> seq<PageTable>)
    requires Collected(urls, fetch).Ok?
    ensures Collected(urls, fetch).value == ViewsOf(Filter(urls, AcceptedBy(fetch)), fetch)
  {
    if urls != [] {
      var init, last := urls[..|urls| - 1], urls[|urls| - 1];
      CollectedAccepted(init, fetch);
      var before := ViewsOf(Filter(init, AcceptedBy(fetch)), fetch);
      if AcceptedAt(fetch, last) {
        assert ViewsOf(Filter(urls, AcceptedBy(fetch)), fetch) == before + [ProcessUrl(fetch(last)).value.value];
      }
    }
  }

  /** The loop raises exactly when some page raises, and then with the
      exception of the first such page. */
  lemma CollectedRaises(urls: seq<string>, fetch: string -> seq<PageTable>)
    ensures Collected(urls, fetch).Err? <==> exists k :: 0 <= k < |urls| && Raises(fetch, urls[k])
    ensures forall k :: 0 <= k < |urls| && Raises(fetch, urls[k]) && (forall j :: 0 <= j < k ==> !Raises(fetch, urls[j])) ==>
      Collected(urls, fetch) == Err(ProcessUrl(fetch(urls[k])).error)
  {
    CollectedRaisesSome(urls, fetch);
    forall k | 0 <= k < |urls| && Raises(fetch, urls[k]) && (forall j :: 0 <= j < k ==> !Raises(fetch, urls[j])) {
      CollectedFirstRaise(urls, fetch, k);
    }
  }

  lemma {:induction false} CollectedRaisesSome(urls: seq<string>, fetch: string -> seq<PageTable>)
    ensures Collected(urls, fetch).Err? <==> exists k :: 0 <= k < |urls| && Raises(fetch, urls[k])
  {
    if urls != [] {
      var init, last := urls[..|urls| - 1], urls[|urls| - 1];
      CollectedRaisesSome(init, fetch);
      forall k | 0 <= k < |init| ensures init[k] == urls[k] {}
      if Collected(init, fetch).Err? {
        var k :| 0 <= k < |init| && Raises(fetch, init[k]);
        assert Raises(fetch, urls[k]);
      } else {
        assert Collected(urls, fetch).Err? <==> Raises(fetch, last);
      }
    }
  }

  /** The first page that raises decides the exception. */
  lemma {:induction false} CollectedFirstRaise(urls: seq<string>, fetch: string -> seq<PageTable>, k: nat)
    requires k < |urls| && Raises(fetch, urls[k]) && forall j :: 0 <= j < k ==> !Raises(fetch, urls[j])
    ensures Collected(urls, fetch) == Err(ProcessUrl(fetch(urls[k])).error)
  {
    var init := urls[..|urls| - 1];
    forall j | 0 <= j < |init| ensures init[j] == urls[j] {}
    if k < |init| {
      CollectedFirstRaise(init, fetch, k);
    } else {
      CollectedRaisesSome(init, fetch);
    }
  }

  /** Once a prefix of the pages raises, the rest of the pages change nothing. */
  lemma {:induction false} CollectedPrefixRaises(urls: seq<string>, n: nat, fetch: string -> seq<PageTable>)
    requires n <= |urls| && Collected(urls[..n], fetch).Err?
    ensures Collected(urls, fetch) == Collected(urls[..n], fetch)
    decreases |urls|
  {
    if n < |urls| {
      var init := urls[..|urls| - 1];
      assert init[..n] == urls[..n];
      CollectedPrefixRaises(init, n, fetch);
    } else {
      assert urls[..n] == urls;
    }
  }

  /** The three result lists and the counter of the script. */
  datatype Collection = Collection(raceTime: seq<Splits>, minMile: seq<Splits>, milesPerHour: seq<Splits>, checked: nat)

  function RaceTimes(vs: seq<Views>): (r: seq<Splits>)
    ensures |r| == |vs| && forall k :: 0 <= k < |vs| ==> r[k] == vs[k].raceTime
  {
    seq(|vs|, k requires 0 <= k < |vs| => vs[k].raceTime)
  }

  function MinMiles(vs: seq<Views>): (r: seq<Splits>)
    ensures |r| == |vs| && forall k :: 0 <= k < |vs| ==> r[k] == vs[k].minMile
  {
    seq(|vs|, k requires 0 <= k < |vs| => vs[k].minMile)
  }

  function MilesPerHours(vs: seq<Views>): (r: seq<Splits>)
    ensures |r| == |vs| && forall k :: 0 <= k < |vs| ==> r[k] == vs[k].milesPerHour
  {
    seq(|vs|, k requires 0 <= k < |vs| => vs[k].milesPerHour)
  }

  /** One more page: its exception, or the views kept so far followed by its views if accepted. */
  lemma CollectedStep(urls: seq<string>, i: nat, fetch: string -> seq<PageTable>)
    requires i < |urls| && Collected(urls[..i], fetch).Ok?
    ensures ProcessUrl(fetch(urls[i])).Err? ==> Collected(urls[..i + 1], fetch) == Err(ProcessUrl(fetch(urls[i])).error)
    ensures ProcessUrl(fetch(urls[i])) == Ok(None) ==> Collected(urls[..i + 1], fetch) == Collected(urls[..i], fetch)
    ensures ProcessUrl(fetch(urls[i])).Ok? && ProcessUrl(fetch(urls[i])).value.Some? ==>
      Collected(urls[..i + 1], fetch) == Ok(Collected(urls[..i], fetch).value + [ProcessUrl(fetch(urls[i])).value.value])
  {
    assert urls[..i + 1][..i] == urls[..i];
  }

  /** One more view extends each of the three lists by its part. */
  lemma ViewsAppend(vs: seq<Views>, v: Views)
    ensures RaceTimes(vs + [v]) == RaceTimes(vs) + [v.raceTime]
    ensures MinMiles(vs + [v]) == MinMiles(vs) + [v.minMile]
    ensures MilesPerHours(vs + [v]) == MilesPerHours(vs) + [v.milesPerHour]
  {
  }

  /** The collection loop (make_dataset.py:99-108): the three lists grow
      together, by the views of each accepted page in URL order, and
      `checked` counts the pages visited. */
  method Collect(urls: seq<string>, fetch: string -> seq<PageTable>) returns (r: Result<Collection>)
    ensures r.Ok? <==> Collected(urls, fetch).Ok?
    ensures r.Err? ==> r == Err(Collected(urls, fetch).error)
    ensures r.Ok? ==> |r.value.raceTime| == |r.value.minMile| == |r.value.milesPerHour|
    ensures r.Ok? ==> r.value.checked == |urls|
    ensures r.Ok? ==>
      var vs := Collected(urls, fetch).value;
      r.value.raceTime == RaceTimes(vs) && r.value.minMile == MinMiles(vs) && r.value.milesPerHour == MilesPerHours(vs)
  {
    var raceTime, minMile, milesPerHour := [], [], [];
    var checked := 0;
    for i := 0 to |urls|
      invariant checked == i
      invariant Collected(urls[..i], fetch).Ok?
      invariant raceTime == RaceTimes(Collected(urls[..i], fetch).value)
      invariant minMile == MinMiles(Collected(urls[..i], fetch).value)
      invariant milesPerHour == MilesPerHours(Collected(urls[..i], fetch).value)
    {
      var page := ProcessUrl(fetch(urls[i]));
      if page.Err? {
        CollectedStep(urls, i, fetch);
        CollectedPrefixRaises(urls, i + 1, fetch);
        return Err(page.error);
      }
      CollectedStep(urls, i, fetch);
      if page.value.Some? {
        var v := page.value.value;
        ViewsAppend(Collected(urls[..i], fetch).value, v);
        raceTime, minMile, milesPerHour := raceTime + [v.raceTime], minMile + [v.minMile], milesPerHour + [v.milesPerHour];
      }
      checked := checked + 1;
    }
    assert urls[..|urls|] == urls;
    r := Ok(Collection(raceTime, minMile, milesPerHour, checked));
  }
}
