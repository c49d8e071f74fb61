/**
 * Short URLs and the stream of random keys they are drawn from.
 *
 * A new short URL is the site root (`url('/')`), a slash and a key of six
 * letters or digits (`Str::random(6)`). The random generator is not modelled:
 * the keys it would return, in order, are passed in as a sequence `draws`.
 */
module ShortKeys {

  /** Length of every key drawn for a new short URL. */
  const KeyLength: nat := 6

  predicate IsAlphaNum(c: char) {
    'a' <= c <= 'z' || 'A' <= c <= 'Z' || '0' <= c <= '9'
  }

  /** A key as the random generator draws it. */
  predicate IsToken(k: string) {
    |k| == KeyLength && forall i :: 0 <= i < |k| ==> IsAlphaNum(k[i])
  }

  /** Every key in the stream is a well-formed key. */
  predicate AllTokens(draws: seq<string>) {
    forall i :: 0 <= i < |draws| ==> IsToken(draws[i])
  }

  /** `s` has the shape of a short URL handed out under site root `base`. */
  predicate IsShortUrl(base: string, s: string) {
    && |s| == |base| + 1 + KeyLength
    && s[..|base|] == base
    && s[|base|] == '/'
    && IsToken(s[|base| + 1..])
  }

  /** The short URL for key `k`; the key can be read back from it. */
  function ShortUrlFor(base: string, k: string): (s: string)
    ensures |s| == |base| + 1 + |k|
    ensures s[..|base|] == base && s[|base|] == '/' && s[|base| + 1..] == k
    ensures IsShortUrl(base, s) <==> IsToken(k)
  {
    var s := base + "/" + k;
    assert s[..|base|] == base;
    assert s[|base| + 1..] == k;
    s
  }

  /** Two keys give the same short URL only if they are the same key. */
  lemma ShortUrlForInjective(base: string, k1: string, k2: string)
    requires ShortUrlFor(base, k1) == ShortUrlFor(base, k2)
    ensures k1 == k2
  {
    var s := ShortUrlFor(base, k1);
    assert k1 == s[|base| + 1..];
  }

  /** Some key in the stream gives a short URL that is not taken yet. */
  ghost predicate HasFree(taken: set<string>, base: string, draws: seq<string>) {
    exists i :: 0 <= i < |draws| && ShortUrlFor(base, draws[i]) !in taken
  }

  /**
   * Index of the key the redraw loop stops at: the first one whose short URL
   * is free. Every earlier key was drawn and rejected.
   */
  function FirstFree(taken: set<string>, base: string, draws: seq<string>): (i: nat)
    requires HasFree(taken, base, draws)
    ensures i < |draws| && ShortUrlFor(base, draws[i]) !in taken
    ensures forall j :: 0 <= j < i ==> ShortUrlFor(base, draws[j]) in taken
  {
    if ShortUrlFor(base, draws[0]) !in taken then 0
    else
      assert HasFree(taken, base, draws[1..]) by {
        var i :| 0 <= i < |draws| && ShortUrlFor(base, draws[i]) !in taken;
        assert draws[1..][i - 1] == draws[i];
      }
      var i := FirstFree(taken, base, draws[1..]);
      assert forall j :: 1 <= j <= i ==> draws[j] == draws[1..][j - 1];
      1 + i
  }
}
