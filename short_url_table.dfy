/**
 * The database variant of the service: the `short_urls` table of `ShortUrl`
 * records, as a sequence of rows in the order the database returns them.
 * `Where` is `ShortUrl::where(column, value)->first()`; `Encode` is what one
 * call of `encode` does to the table and what it returns.
 */
module ShortUrlTable {
  import opened Wrappers
  import opened ShortKeys

  /** One `ShortUrl` record: the columns the service reads and writes. */
  datatype Row = Row(originalUrl: string, shortUrl: string)

  /** The columns the service queries by. */
  datatype Column = OriginalUrl | ShortUrl

  function Get(row: Row, column: Column): string {
    match column
    case OriginalUrl => row.originalUrl
    case ShortUrl => row.shortUrl
  }

  /** The values a column holds across the table. */
  function ColumnValues(rows: seq<Row>, column: Column): set<string> {
    set row | row in rows :: Get(row, column)
  }

  /** Index of the first row whose `column` holds `value`, if any. */
  function Where(rows: seq<Row>, column: Column, value: string): (r: Option<nat>)
    ensures r.Some? ==> r.value < |rows| && Get(rows[r.value], column) == value
    ensures r.Some? ==> forall j :: 0 <= j < r.value ==> Get(rows[j], column) != value
    ensures r.None? <==> value !in ColumnValues(rows, column)
  {
    if rows == [] then None
    else if Get(rows[0], column) == value then Some(0)
    else
      match Where(rows[1..], column, value)
      case None =>
        assert rows == [rows[0]] + rows[1..];
        None
      case Some(i) =>
        assert forall j :: 1 <= j <= i ==> rows[j] == rows[1..][j - 1];
        Some(i + 1)
  }

  /** `decode`: the original URL of the first row holding `shortUrl`, or nothing. */
  function Decode(rows: seq<Row>, shortUrl: string): (r: Option<string>)
    ensures r.None? <==> shortUrl !in ColumnValues(rows, ShortUrl)
    ensures r.Some? ==> exists i :: 0 <= i < |rows| && rows[i] == Row(r.value, shortUrl) &&
                                    forall j :: 0 <= j < i ==> rows[j].shortUrl != shortUrl
  {
    match Where(rows, ShortUrl, shortUrl)
    case Some(i) => Some(rows[i].originalUrl)
    case None => None
  }

  /** No short URL is held by two rows. */
  ghost predicate UniqueShortUrls(rows: seq<Row>) {
    forall i, j :: 0 <= i < j < |rows| ==> rows[i].shortUrl != rows[j].shortUrl
  }

  /** No original URL is held by two rows. */
  ghost predicate UniqueOriginalUrls(rows: seq<Row>) {
    forall i, j :: 0 <= i < j < |rows| ==> rows[i].originalUrl != rows[j].originalUrl
  }

  /** The redraw loop of `encode` ends: the URL has a row, or a draw is free. */
  ghost predicate CanEncode(rows: seq<Row>, base: string, url: string, draws: seq<string>) {
    url in ColumnValues(rows, OriginalUrl) || HasFree(ColumnValues(rows, ShortUrl), base, draws)
  }

  /** The table after one `encode` call, and the short URL it returned. */
  datatype Encoded = Encoded(rows: seq<Row>, shortUrl: string)

  /**
   * One call of `encode(url)`. A URL that has a row gets the short URL of its
   * first row and the table is left alone; otherwise the first draw whose
   * short URL no row holds is used and exactly one row is appended.
   */
  function Encode(rows: seq<Row>, base: string, url: string, draws: seq<string>): (e: Encoded)
    requires CanEncode(rows, base, url, draws)
    ensures |rows| <= |e.rows| <= |rows| + 1 && e.rows[..|rows|] == rows
    ensures url in ColumnValues(rows, OriginalUrl) ==> e.rows == rows
    ensures url !in ColumnValues(rows, OriginalUrl) ==>
              && |e.rows| == |rows| + 1
              && e.rows[|rows|] == Row(url, e.shortUrl)
              && e.shortUrl !in ColumnValues(rows, ShortUrl)
    ensures url !in ColumnValues(rows, OriginalUrl) && AllTokens(draws) ==> IsShortUrl(base, e.shortUrl)
    ensures UniqueShortUrls(rows) ==> UniqueShortUrls(e.rows)
    ensures UniqueOriginalUrls(rows) ==> UniqueOriginalUrls(e.rows)
  {
    match Where(rows, OriginalUrl, url)
    case Some(i) => Encoded(rows, rows[i].shortUrl)
    case None =>
      var s := ShortUrlFor(base, draws[FirstFree(ColumnValues(rows, ShortUrl), base, draws)]);
      var rows' := rows + [Row(url, s)];
      assert rows'[..|rows|] == rows;
      assert forall i :: 0 <= i < |rows| ==> rows[i].shortUrl != s by {
        forall i | 0 <= i < |rows| ensures rows[i].shortUrl != s {
          assert Get(rows[i], ShortUrl) in ColumnValues(rows, ShortUrl);
        }
      }
      assert forall i :: 0 <= i < |rows| ==> rows[i].originalUrl != url by {
        forall i | 0 <= i < |rows| ensures rows[i].originalUrl != url {
          assert Get(rows[i], OriginalUrl) in ColumnValues(rows, OriginalUrl);
        }
      }
      Encoded(rows', s)
  }

  /** The short URL `encode` returns belongs to the first row of its URL. */
  lemma EncodeReturnsFirstRow(rows: seq<Row>, base: string, url: string, draws: seq<string>)
    requires CanEncode(rows, base, url, draws)
    ensures var e := Encode(rows, base, url, draws);
            && Where(e.rows, OriginalUrl, url).Some?
            && e.rows[Where(e.rows, OriginalUrl, url).value].shortUrl == e.shortUrl
  {
    var e := Encode(rows, base, url, draws);
    if url !in ColumnValues(rows, OriginalUrl) {
      assert Get(e.rows[|rows|], OriginalUrl) == url;
    }
  }

  /** Encoding a URL a second time returns the same short URL and changes nothing. */
  lemma EncodeIdempotent(rows: seq<Row>, base: string, url: string, draws: seq<string>, redraws: seq<string>)
    requires CanEncode(rows, base, url, draws)
    ensures var e := Encode(rows, base, url, draws);
            CanEncode(e.rows, base, url, redraws) && Encode(e.rows, base, url, redraws) == e
  {
    EncodeReturnsFirstRow(rows, base, url, draws);
  }

  /** Decoding the short URL `encode` returned for a new URL gives back the URL. */
  lemma EncodeDecodeNew(rows: seq<Row>, base: string, url: string, draws: seq<string>)
    requires url !in ColumnValues(rows, OriginalUrl)
    requires CanEncode(rows, base, url, draws)
    ensures var e := Encode(rows, base, url, draws);
            Decode(e.rows, e.shortUrl) == Some(url)
  {
    var e := Encode(rows, base, url, draws);
    assert Get(e.rows[|rows|], ShortUrl) == e.shortUrl;
  }

  /**
   * Decoding the short URL `encode` returned for a URL that already had a row
   * gives back the URL, provided no two rows share a short URL (which
   * `encode` itself maintains).
   */
  lemma EncodeDecodeStored(rows: seq<Row>, base: string, url: string, draws: seq<string>)
    requires url in ColumnValues(rows, OriginalUrl)
    requires UniqueShortUrls(rows)
    ensures var e := Encode(rows, base, url, draws);
            Decode(e.rows, e.shortUrl) == Some(url)
  {
    var i := Where(rows, OriginalUrl, url).value;
    assert Get(rows[i], ShortUrl) == rows[i].shortUrl;
    var j := Where(rows, ShortUrl, rows[i].shortUrl).value;
    assert j == i;
  }

  /** On a table whose short URLs are unique, decoding what `encode` returned gives back the URL. */
  lemma EncodeDecode(rows: seq<Row>, base: string, url: string, draws: seq<string>)
    requires CanEncode(rows, base, url, draws)
    requires UniqueShortUrls(rows)
    ensures var e := Encode(rows, base, url, draws);
            Decode(e.rows, e.shortUrl) == Some(url)
  {
    if url in ColumnValues(rows, OriginalUrl) {
      EncodeDecodeStored(rows, base, url, draws);
    } else {
      EncodeDecodeNew(rows, base, url, draws);
    }
  }

  /**
   * Without unique short URLs the round trip can fail: two rows holding the
   * same short URL make `encode` of the second URL return a short URL that
   * `decode` maps to the first.
   */
  lemma RoundTripNeedsUniqueShortUrls(base: string)
    ensures var rows := [Row("a", "s"), Row("b", "s")];
            && CanEncode(rows, base, "b", [])
            && Encode(rows, base, "b", []).shortUrl == "s"
            && Decode(rows, "s") == Some("a")
  {
    var rows := [Row("a", "s"), Row("b", "s")];
    assert Get(rows[1], OriginalUrl) == "b";
    assert Where(rows, OriginalUrl, "b") == Some(1);
  }
}
