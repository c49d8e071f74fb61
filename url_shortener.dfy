/**
 * The `UrlShortener` service. Its state is the session dictionary
 * (`$_SESSION['url_map']`) for the in-memory variant and the `short_urls`
 * table for the database variant; `base` is the site root `url('/')`.
 * Each encode method is proved against the matching pure model
 * (`SessionMap.Encode`, `ShortUrlTable.Encode`), whose properties are proved
 * there.
 */
module UrlShortener {
  import opened Wrappers
  import opened ShortKeys
  import SessionMap
  import ShortUrlTable

  class UrlShortener {
    const base: string
    var urlMap: map<string, string>
    var rows: seq<ShortUrlTable.Row>

    /** The session dictionary invariant: one short URL per original URL, all well formed. */
    ghost predicate MemoryValid()
      reads this
    {
      SessionMap.Valid(urlMap, base)
    }

    /** The table invariant `encode` keeps: no short URL and no original URL in two rows. */
    ghost predicate TableValid()
      reads this
    {
      ShortUrlTable.UniqueShortUrls(rows) && ShortUrlTable.UniqueOriginalUrls(rows)
    }

    /** Starts with an empty session dictionary over the table as the database holds it. */
    constructor (base: string, table: seq<ShortUrlTable.Row>)
      ensures this.base == base && urlMap == map[] && rows == table
      ensures MemoryValid()
    {
      this.base := base;
      urlMap := map[];
      rows := table;
    }

    /** `encodeMemory`: returns the short URL of `url`, adding an entry if it has none. */
    method EncodeMemory(url: string, draws: seq<string>) returns (shortUrl: string)
      requires MemoryValid()
      requires AllTokens(draws)
      requires SessionMap.CanEncode(urlMap, base, url, draws)
      modifies this`urlMap
      ensures MemoryValid()
      ensures SessionMap.Encoded(urlMap, shortUrl) == SessionMap.Encode(old(urlMap), base, url, draws)
    {
      if url in urlMap.Values {
        shortUrl :| shortUrl in urlMap && urlMap[shortUrl] == url;
        SessionMap.EncodeStored(urlMap, base, url, draws, shortUrl);
        return;
      }
      ghost var first := FirstFree(urlMap.Keys, base, draws);
      var i := 0;
      shortUrl := ShortUrlFor(base, draws[i]);
      while shortUrl in urlMap
        invariant i <= first
        invariant shortUrl == ShortUrlFor(base, draws[i])
        decreases first - i
      {
        i := i + 1;
        shortUrl := ShortUrlFor(base, draws[i]);
      }
      assert i == first;
      urlMap := urlMap[shortUrl := url];
    }

    /** `decodeMemory`: the original URL stored for `shortUrl`, or nothing. */
    function DecodeMemory(shortUrl: string): (r: Option<string>)
      reads this
      ensures r.None? <==> shortUrl !in urlMap
      ensures r.Some? ==> urlMap[shortUrl] == r.value
      ensures MemoryValid() && r.Some? ==> IsShortUrl(base, shortUrl)
    {
      SessionMap.Decode(urlMap, shortUrl)
    }

    /** `encode`: returns the short URL of `url`'s first row, appending a row if it has none. */
    method Encode(url: string, draws: seq<string>) returns (shortUrl: string)
      requires ShortUrlTable.CanEncode(rows, base, url, draws)
      modifies this`rows
      ensures ShortUrlTable.Encoded(rows, shortUrl) == ShortUrlTable.Encode(old(rows), base, url, draws)
      ensures old(TableValid()) ==> TableValid()
      ensures old(TableValid()) ==> Decode(shortUrl) == Some(url)
    {
      var found := ShortUrlTable.Where(rows, ShortUrlTable.OriginalUrl, url);
      if found.Some? {
        shortUrl := rows[found.value].shortUrl;
      } else {
        ghost var first := FirstFree(ShortUrlTable.ColumnValues(rows, ShortUrlTable.ShortUrl), base, draws);
        var i := 0;
        shortUrl := ShortUrlFor(base, draws[i]);
        while ShortUrlTable.Where(rows, ShortUrlTable.ShortUrl, shortUrl).Some?
          invariant i <= first
          invariant shortUrl == ShortUrlFor(base, draws[i])
          decreases first - i
        {
          i := i + 1;
          shortUrl := ShortUrlFor(base, draws[i]);
        }
        rows := rows + [ShortUrlTable.Row(url, shortUrl)];
      }
      if old(TableValid()) {
        ShortUrlTable.EncodeDecode(old(rows), base, url, draws);
      }
    }

    /** `decode`: the original URL of the first row holding `shortUrl`, or nothing. */
    function Decode(shortUrl: string): (r: Option<string>)
      reads this
      ensures r.None? <==> forall row :: row in rows ==> row.shortUrl != shortUrl
      ensures r.Some? ==> exists i :: 0 <= i < |rows| && rows[i] == ShortUrlTable.Row(r.value, shortUrl) &&
                                      forall j :: 0 <= j < i ==> rows[j].shortUrl != shortUrl
    {
      ShortUrlTable.Decode(rows, shortUrl)
    }
  }
}
