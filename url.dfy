/**
 * The two string steps around link creation: scheme normalisation of the
 * submitted URL, and formatting of the short URL returned to the client.
 */
module Url {

  const HttpScheme: string := "http://"
  const HttpsScheme: string := "https://"

  /** Host used in the short URL when the request carried none. */
  const DefaultHost: string := "localhost:8080"

  /** The URL already starts with one of the two recognised schemes. */
  predicate HasScheme(u: string) {
    HttpScheme <= u || HttpsScheme <= u
  }

  /**
   * A URL without a recognised scheme gets `https://` in front of it; any
   * other URL is kept as it is. The result always has a scheme and always
   * ends with the URL it was given.
   */
  function NormalizeScheme(u: string): (r: string)
    ensures HasScheme(r)
    ensures r == u <==> HasScheme(u)
    ensures r == u || r == HttpsScheme + u
    ensures |u| <= |r| && r[|r| - |u|..] == u
  {
    if HasScheme(u) then u else HttpsScheme + u
  }

  /** Normalising an already normalised URL changes nothing. */
  lemma NormalizeIdempotent(u: string)
    ensures NormalizeScheme(NormalizeScheme(u)) == NormalizeScheme(u)
  {
  }

  /**
   * `example.com` becomes `https://example.com`; `http://example.com` is
   * kept as it is.
   */
  lemma NormalizeExamples()
    ensures NormalizeScheme("example.com") == "https://example.com"
    ensures NormalizeScheme("http://example.com") == "http://example.com"
  {
    assert "example.com"[0] == 'e';
  }

  /**
   * The host written into a short URL: the request's host, or the default
   * host when the request has none; never empty.
   */
  function EffectiveHost(host: string): (h: string)
    ensures h != ""
    ensures host != "" ==> h == host
    ensures host == "" ==> h == DefaultHost
  {
    if host == "" then DefaultHost else host
  }

  /**
   * The short URL `http://<host>/<code>`: it starts with `http://`, then
   * the request's host (the default host when there is none), then the path
   * `/<code>`.
   */
  function ShortURL(host: string, code: string): (r: string)
    ensures HttpScheme <= r
    ensures |r| == |HttpScheme| + |EffectiveHost(host)| + 1 + |code|
    ensures r[|HttpScheme|..|r| - |code| - 1] == EffectiveHost(host)
    ensures r[|r| - |code| - 1..] == "/" + code
  {
    var r := HttpScheme + EffectiveHost(host) + "/" + code;
    assert r[|HttpScheme|..|r| - |code| - 1] == EffectiveHost(host);
    assert r[|r| - |code| - 1..] == "/" + code;
    r
  }

  /** For one host, different codes give different short URLs. */
  lemma {:induction false} ShortURLDeterminesCode(host: string, c1: string, c2: string)
    requires ShortURL(host, c1) == ShortURL(host, c2)
    ensures c1 == c2
  {
    var r := ShortURL(host, c1);
    assert |c1| == |c2|;
    assert "/" + c1 == r[|r| - |c1| - 1..] == "/" + c2;
    assert c1 == ("/" + c1)[1..] == ("/" + c2)[1..] == c2;
  }
}
