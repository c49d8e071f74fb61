/**
 * The in-memory variant of the service: `$_SESSION['url_map']`, a dictionary
 * from short URL to original URL, as a value. `Encode` is what one call of
 * `encodeMemory` does to that dictionary and what it returns.
 */
module SessionMap {
  import opened Wrappers
  import opened ShortKeys

  /** No original URL is stored under two short URLs. */
  ghost predicate Injective(m: map<string, string>) {
    forall s, t :: s in m && t in m && m[s] == m[t] ==> s == t
  }

  /** Every key is a short URL of the site rooted at `base`. */
  ghost predicate KeysWellFormed(m: map<string, string>, base: string) {
    forall s :: s in m ==> IsShortUrl(base, s)
  }

  /** The invariant the service keeps on the session dictionary. */
  ghost predicate Valid(m: map<string, string>, base: string) {
    Injective(m) && KeysWellFormed(m, base)
  }

  /** `decodeMemory`: the stored original URL, or nothing for an unknown short URL. */
  function Decode(m: map<string, string>, shortUrl: string): (r: Option<string>)
    ensures r.None? <==> shortUrl !in m
    ensures r.Some? ==> (shortUrl, r.value) in m.Items
  {
    if shortUrl !in m then None else Some(m[shortUrl])
  }

  /** The redraw loop of `encodeMemory` ends: the URL is stored, or a draw is free. */
  ghost predicate CanEncode(m: map<string, string>, base: string, url: string, draws: seq<string>) {
    url in m.Values || HasFree(m.Keys, base, draws)
  }

  /** The dictionary after one `encodeMemory` call, and the short URL it returned. */
  datatype Encoded = Encoded(urlMap: map<string, string>, shortUrl: string)

  /**
   * One call of `encodeMemory(url)`. A URL already stored gets its existing
   * short URL back and the dictionary is left alone; otherwise the first draw
   * whose short URL is free is used and exactly one entry is added.
   */
  ghost function Encode(m: map<string, string>, base: string, url: string, draws: seq<string>): (e: Encoded)
    requires CanEncode(m, base, url, draws)
    ensures Decode(e.urlMap, e.shortUrl) == Some(url)
    ensures forall s :: s in m ==> s in e.urlMap && e.urlMap[s] == m[s]
    ensures url in m.Values ==> e.urlMap == m
    ensures url !in m.Values ==> e.shortUrl !in m && e.urlMap.Keys == m.Keys + {e.shortUrl}
    ensures url !in m.Values ==> |e.urlMap| == |m| + 1
    ensures url !in m.Values && AllTokens(draws) ==> IsShortUrl(base, e.shortUrl)
    ensures Injective(m) ==> Injective(e.urlMap)
    ensures KeysWellFormed(m, base) && AllTokens(draws) ==> KeysWellFormed(e.urlMap, base)
  {
    if url in m.Values then
      var s :| s in m && m[s] == url;
      Encoded(m, s)
    else
      var s := ShortUrlFor(base, draws[FirstFree(m.Keys, base, draws)]);
      assert m[s := url].Keys == m.Keys + {s};
      Encoded(m[s := url], s)
  }

  /** With one short URL per URL, the stored short URL is the one `Encode` returns. */
  lemma EncodeStored(m: map<string, string>, base: string, url: string, draws: seq<string>, shortUrl: string)
    requires Injective(m)
    requires shortUrl in m && m[shortUrl] == url
    ensures CanEncode(m, base, url, draws) && Encode(m, base, url, draws) == Encoded(m, shortUrl)
  {
    assert url in m.Values;
    var e := Encode(m, base, url, draws);
    assert m[e.shortUrl] == url;
  }

  /** Encoding a URL a second time returns the same short URL and changes nothing. */
  lemma EncodeIdempotent(m: map<string, string>, base: string, url: string, draws: seq<string>, redraws: seq<string>)
    requires CanEncode(m, base, url, draws)
    ensures var e := Encode(m, base, url, draws);
            CanEncode(e.urlMap, base, url, redraws) && Encode(e.urlMap, base, url, redraws) == e
  {
    var e := Encode(m, base, url, draws);
    assert e.urlMap[e.shortUrl] == url;
    var e2 := Encode(e.urlMap, base, url, redraws);
    assert e2.urlMap == e.urlMap;
    assert e.urlMap[e2.shortUrl] == url;
  }

  /** The dictionary after a run of `encodeMemory` calls, and the short URLs they returned. */
  datatype Run = Run(urlMap: map<string, string>, shortUrls: seq<string>)

  /** Every call of the run finds a free short URL. */
  ghost predicate CanEncodeAll(m: map<string, string>, base: string, urls: seq<string>, draws: seq<seq<string>>)
    decreases |urls|
  {
    && |draws| == |urls|
    && (urls != [] ==>
          && CanEncode(m, base, urls[0], draws[0])
          && CanEncodeAll(Encode(m, base, urls[0], draws[0]).urlMap, base, urls[1..], draws[1..]))
  }

  /** Calls `encodeMemory(urls[i])` in order, the i-th drawing its keys from `draws[i]`. */
  ghost function EncodeAll(m: map<string, string>, base: string, urls: seq<string>, draws: seq<seq<string>>): (r: Run)
    requires CanEncodeAll(m, base, urls, draws)
    ensures |r.shortUrls| == |urls|
    decreases |urls|
  {
    if urls == [] then Run(m, [])
    else
      var e := Encode(m, base, urls[0], draws[0]);
      var rest := EncodeAll(e.urlMap, base, urls[1..], draws[1..]);
      Run(rest.urlMap, [e.shortUrl] + rest.shortUrls)
  }

  /**
   * After a run, every entry that was there before is unchanged, the
   * dictionary holds exactly the old keys and the short URLs handed out, and
   * no URL has two short URLs.
   */
  lemma {:induction false} EncodeAllKeeps(m: map<string, string>, base: string, urls: seq<string>, draws: seq<seq<string>>)
    requires Injective(m)
    requires CanEncodeAll(m, base, urls, draws)
    ensures var r := EncodeAll(m, base, urls, draws);
            && (forall s :: s in m ==> s in r.urlMap && r.urlMap[s] == m[s])
            && (forall s :: s in r.urlMap <==> s in m || s in r.shortUrls)
            && Injective(r.urlMap)
    decreases |urls|
  {
    if urls != [] {
      var e := Encode(m, base, urls[0], draws[0]);
      EncodeAllKeeps(e.urlMap, base, urls[1..], draws[1..]);
    }
  }

  /** The i-th short URL decodes to the i-th URL, for every i. */
  ghost predicate DecodesEach(m: map<string, string>, shortUrls: seq<string>, urls: seq<string>) {
    && |shortUrls| == |urls|
    && forall i :: 0 <= i < |urls| ==> shortUrls[i] in m && m[shortUrls[i]] == urls[i]
  }

  lemma DecodesEachCons(m: map<string, string>, s: string, shortUrls: seq<string>, url: string, urls: seq<string>)
    requires DecodesEach(m, shortUrls, urls)
    requires s in m && m[s] == url
    ensures DecodesEach(m, [s] + shortUrls, [url] + urls)
  {
    forall i | 0 < i <= |urls|
      ensures ([s] + shortUrls)[i] == shortUrls[i - 1] && ([url] + urls)[i] == urls[i - 1]
    {
    }
  }

  /** After a run, every short URL handed out still decodes to the URL it was handed out for. */
  lemma {:induction false} EncodeAllDecodes(m: map<string, string>, base: string, urls: seq<string>, draws: seq<seq<string>>)
    requires Injective(m)
    requires CanEncodeAll(m, base, urls, draws)
    ensures var r := EncodeAll(m, base, urls, draws);
            DecodesEach(r.urlMap, r.shortUrls, urls)
    decreases |urls|
  {
    if urls != [] {
      var e := Encode(m, base, urls[0], draws[0]);
      var rest := EncodeAll(e.urlMap, base, urls[1..], draws[1..]);
      EncodeAllDecodes(e.urlMap, base, urls[1..], draws[1..]);
      EncodeAllKeeps(e.urlMap, base, urls[1..], draws[1..]);
      assert e.shortUrl in rest.urlMap && rest.urlMap[e.shortUrl] == urls[0];
      DecodesEachCons(rest.urlMap, e.shortUrl, rest.shortUrls, urls[0], urls[1..]);
      assert [urls[0]] + urls[1..] == urls;
    }
  }

  /** Within a run, the same URL always gets the same short URL, and different URLs different ones. */
  lemma EncodeAllConsistent(m: map<string, string>, base: string, urls: seq<string>, draws: seq<seq<string>>)
    requires Injective(m)
    requires CanEncodeAll(m, base, urls, draws)
    ensures var r := EncodeAll(m, base, urls, draws);
            forall i, j :: 0 <= i < |urls| && 0 <= j < |urls| ==>
              (r.shortUrls[i] == r.shortUrls[j] <==> urls[i] == urls[j])
  {
    EncodeAllDecodes(m, base, urls, draws);
    EncodeAllKeeps(m, base, urls, draws);
  }

  /** Starting from the empty dictionary, a short URL no call returned decodes to nothing. */
  lemma NeverIssuedDecodesToNothing(base: string, urls: seq<string>, draws: seq<seq<string>>, s: string)
    requires CanEncodeAll(map[], base, urls, draws)
    requires s !in EncodeAll(map[], base, urls, draws).shortUrls
    ensures Decode(EncodeAll(map[], base, urls, draws).urlMap, s) == None
  {
    EncodeAllKeeps(map[], base, urls, draws);
  }
}
