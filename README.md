# UrlShortener service, modelled in Dafny

A model of the `UrlShortener` service of a small Laravel URL shortener. The service turns a long URL into a short URL. The short URL is the site root, a slash and six random letters or digits. The service also turns a short URL back into the long one. It has two near-identical variants:

- **in memory** (`encodeMemory` / `decodeMemory`): a dictionary `url_map` in the PHP session, from short URL to original URL;
- **database** (`encode` / `decode`): the `short_urls` table of `ShortUrl` records, queried with `where(column, value)->first()`.

Encoding looks the URL up first and returns the short URL it already has. Otherwise it draws random keys until their short URL is not taken, then stores exactly one new entry. Decoding is a lookup that returns nothing on a miss.

Files:

- `wrappers.dfy`: `Option`, for PHP's `?string` results.
- `short_keys.dfy` (`ShortKeys`): the key format (`IsToken`, six ASCII letters or digits). It also defines the short-URL shape (`ShortUrlFor`, `IsShortUrl`) and `FirstFree`, the key at which the redraw loop stops.
- `session_map.dfy` (`SessionMap`): the in-memory variant as a pure function on `map<string, string>`. Its lemmas cover idempotence, runs of several calls, round trips and keys that were never issued.
- `short_url_table.dfy` (`ShortUrlTable`): the database variant as a pure function on a sequence of `Row(originalUrl, shortUrl)` records, in the order the database returns them.
- `url_shortener.dfy` (`UrlShortener`): the service class. Its fields are the session dictionary `urlMap`, the table `rows` and the site root `base`. `EncodeMemory` and `Encode` are imperative methods with the redraw `while` loop, and each is proved equal to the matching pure model. `DecodeMemory` and `Decode` are lookups.

The foreign calls become parameters:

- `url('/')` is the constant `base`.
- The keys `Str::random(6)` would return, in order, are the sequence `draws`.
- The source's redraw loop has no bound. So each encode method requires that the loop ends: the URL is already stored, or some draw gives a free short URL (`CanEncode`). `AllTokens(draws)` states what `Str::random(6)` returns.

## Model

| member | source | states |
|---|---|---|
| `ShortKeys.ShortUrlFor` | app/Services/UrlShortener.php:65-66 | the short URL is `base`, `/`, key; the key can be read back from it; it has the short-URL shape exactly when the key is six letters/digits |
| `ShortKeys.ShortUrlForInjective` | app/Services/UrlShortener.php:70-71 | distinct keys give distinct short URLs |
| `ShortKeys.FirstFree` | app/Services/UrlShortener.php:65-72 | the redraw loop stops at the first draw whose short URL is free; every earlier draw was taken |
| `SessionMap.Decode` | app/Services/UrlShortener.php:85-89 | nothing exactly when the short URL is not a key, otherwise the stored original URL |
| `SessionMap.Encode` | app/Services/UrlShortener.php:57-77 | one `encodeMemory` call: result decodes to `url`; every existing entry keeps its key and value; a stored URL leaves the map unchanged; otherwise the returned short URL was absent, is the only new key (size grows by one) and has the `base/` + 6-character shape; one-short-URL-per-URL and well-formed keys are preserved |
| `SessionMap.EncodeStored` | app/Services/UrlShortener.php:59-63 | with one short URL per URL, a URL already in the map gets back exactly its existing key and the map is unchanged |
| `SessionMap.EncodeIdempotent` | app/Services/UrlShortener.php:59-63 | encoding the same URL again, whatever keys are drawn, returns the same short URL and changes nothing |
| `SessionMap.EncodeAllKeeps` | app/Services/UrlShortener.php:68-74 | after any run of calls, earlier entries are unchanged, the keys are exactly the old keys plus the short URLs returned, and no URL has two short URLs |
| `SessionMap.EncodeAllDecodes` | app/Services/UrlShortener.php:74-76 | after any run of calls, every short URL returned still decodes to the URL it was returned for |
| `SessionMap.EncodeAllConsistent` | app/Services/UrlShortener.php:59-74 | within a run, two calls return the same short URL if and only if they encoded the same URL |
| `SessionMap.NeverIssuedDecodesToNothing` | tests/Feature/ShortUrlTest.php:34-42 | starting from the empty session map, a short URL that no call returned decodes to nothing |
| `ShortUrlTable.Where` | app/Services/UrlShortener.php:25 | `where(column, value)->first()`: the first row holding the value, or nothing exactly when no row holds it |
| `ShortUrlTable.Decode` | app/Services/UrlShortener.php:46-49 | nothing exactly when no row holds the short URL; otherwise the original URL of the first row holding it |
| `ShortUrlTable.Encode` | app/Services/UrlShortener.php:22-38 | one `encode` call: existing rows are unchanged and at most one row is appended; a URL with a row leaves the table unchanged; otherwise one row `(url, shortUrl)` is appended whose short URL no earlier row holds, with the `base/` + 6-character shape; unique short URLs and unique original URLs are preserved |
| `ShortUrlTable.EncodeReturnsFirstRow` | app/Services/UrlShortener.php:25-27 | the short URL returned is that of the first row of the URL in the resulting table |
| `ShortUrlTable.EncodeIdempotent` | app/Services/UrlShortener.php:25-27 | encoding the same URL again, whatever keys are drawn, returns the same short URL and changes nothing |
| `ShortUrlTable.EncodeDecodeNew` | app/Services/UrlShortener.php:36-37 | for a URL without a row, decoding the returned short URL gives back the URL |
| `ShortUrlTable.EncodeDecodeStored` | app/Services/UrlShortener.php:25-27 | for a URL with a row, decoding the returned short URL gives back the URL when no two rows share a short URL |
| `ShortUrlTable.EncodeDecode` | app/Services/UrlShortener.php:36-48 | on a table whose short URLs are unique, decoding the short URL `encode` returned gives back the URL, whether or not the URL had a row |
| `ShortUrlTable.RoundTripNeedsUniqueShortUrls` | app/Services/UrlShortener.php:48 | a table with two rows holding one short URL breaks the round trip: `decode` answers with the first row |
| `UrlShortener.UrlShortener.constructor` | app/Http/Controllers/UrlShortenerController.php:35-37 | the session map starts empty (and so satisfies the invariant); the table is whatever the database already holds |
| `UrlShortener.UrlShortener.EncodeMemory` | app/Services/UrlShortener.php:57-77 | the redraw loop and in-place insert compute exactly `SessionMap.Encode` of the old map; the session invariant is kept |
| `UrlShortener.UrlShortener.DecodeMemory` | app/Services/UrlShortener.php:85-89 | nothing exactly when the short URL is not a key, otherwise its value; under the invariant only well-formed short URLs decode |
| `UrlShortener.UrlShortener.Encode` | app/Services/UrlShortener.php:22-38 | the lookup, redraw loop and `create` compute exactly `ShortUrlTable.Encode` of the old table; on a table with unique short and original URLs that uniqueness is kept and `Decode` of the result gives back `url` |
| `UrlShortener.UrlShortener.Decode` | app/Services/UrlShortener.php:46-49 | nothing exactly when no row holds the short URL, otherwise the original URL of the first row holding it |

## Left out

- `Str::random(6)` and `url('/')` are foreign calls. They become the `draws` parameter and the `base` constant. The alphabet is assumed to be ASCII letters and digits.
- `EncodeMemory`, `Encode`: termination of the redraw loop is not modelled. The source loop has no bound, so the methods require that the supplied draws contain a free key (`CanEncode`). A stream in which every key is taken, where the source would loop forever, is outside the model.
- `SessionMap.Encode`, `EncodeMemory`: `array_search` is called without its strict flag, so PHP compares loosely (for example `"1e3" == "1000"`). The model uses exact string equality.
- `SessionMap.Encode`: `array_search` returns the first matching key in insertion order, while the model picks any key holding the URL. The two agree whenever one URL has at most one key (`Injective`), which `encodeMemory` keeps. They differ only on a map with two keys for one URL, which only the concurrent race below can produce.
- `ShortUrlTable.Where`: the database's string comparison is taken to be exact. A case-insensitive collation would make keys that differ only in case collide; that is not modelled.
- `ShortUrlTable.Where`: the model takes rows in the order the table returns them. Soft-deleted rows (`SoftDeletes` on `ShortUrl`) and the `clicks` / `is_active` columns are not modelled. The table holds only live rows.
- The model has no unique index on `short_url` or `original_url`. The migration is not part of this model. Uniqueness is proved to be kept by `encode` instead.
- The `short_urls` table is external and persists across requests. The service object is built over whatever rows the table already holds. Nothing guarantees that those rows satisfy the uniqueness invariant; the class promises the database round trip only when they do (`TableValid`).
- The controller is not modelled beyond the session map starting empty: JSON checks (406), the exception-to-500 mapping, the null-to-404 mapping and the `SHORTEN_METHOD` switch that picks the variant. Routing is not modelled either.
- Concurrency is not modelled. Two requests racing between the lookup and the insert can store two short URLs for one URL, or one short URL for two URLs. Each method is modelled as one atomic step.
- Session lifetime and persistence are not modelled. The dictionary lives as long as the model object.
