/**
 * How a published page is named in the object store: the object key under the
 * configured prefix, the public URL under the configured domain, and the storage
 * endpoint for the configured region. The page id stands for the text form of a
 * freshly drawn version-4 UUID; it is a parameter here.
 */
module RemoteNaming {
  import opened Wrappers

  const KeyMiddle: string := "/p/"
  const KeyTail: string := "/index.html"
  const EndpointHead: string := "https://s3."
  const EndpointTail: string := ".backblazeb2.com"

  /** True when `s` consists of '/' characters only (the empty string included). */
  predicate AllSlashes(s: string) {
    forall i :: 0 <= i < |s| ==> s[i] == '/'
  }

  /** True when `s` does not end in '/'. */
  predicate NoTrailingSlash(s: string) {
    s == [] || s[|s| - 1] != '/'
  }

  /**
   * Rust's `trim_end_matches('/')`: the prefix without its trailing slashes.
   * The result is a prefix of `s`, does not end in '/', and what was cut off is all '/'.
   */
  function TrimEndSlashes(s: string): (r: string)
    ensures r <= s
    ensures NoTrailingSlash(r)
    ensures AllSlashes(s[|r|..])
    decreases |s|
  {
    if s != [] && s[|s| - 1] == '/' then TrimEndSlashes(s[..|s| - 1]) else s
  }

  /** The removal is exactly the trailing run of '/': any split of `s` into a part
      without a trailing '/' and an all-'/' tail is the one `TrimEndSlashes` makes. */
  lemma TrimEndSlashesUnique(s: string, head: string, tail: string)
    requires s == head + tail
    requires NoTrailingSlash(head) && AllSlashes(tail)
    ensures TrimEndSlashes(s) == head
  {
    var r := TrimEndSlashes(s);
    assert r == s[..|r|];
    assert head == s[..|head|];
  }

  /** Trimming twice is trimming once. */
  lemma TrimEndSlashesIdempotent(s: string)
    ensures TrimEndSlashes(TrimEndSlashes(s)) == TrimEndSlashes(s)
  {
  }

  /** A prefix made of slashes only, the empty one included, trims to nothing. */
  lemma TrimAllSlashes(s: string)
    requires AllSlashes(s)
    ensures TrimEndSlashes(s) == []
  {
  }

  /** The object key `<prefix without trailing '/'>/p/<id>/index.html` (src/main.rs:267-271). */
  function ObjectKey(prefix: string, id: string): (key: string)
    ensures KeyId(key, prefix) == Some(id)
  {
    TrimEndSlashes(prefix) + KeyMiddle + id + KeyTail
  }

  /** The public URL `<domain>/p/<id>` (src/main.rs:282): the domain is used as it is
      and there is no `index.html`. */
  function PublicUrl(domain: string, id: string): (url: string)
    ensures UrlId(url, domain) == Some(id)
  {
    domain + KeyMiddle + id
  }

  /** The storage endpoint `https://s3.<region>.backblazeb2.com` (src/main.rs:247). */
  function Endpoint(region: string): (url: string)
    ensures EndpointRegion(url) == Some(region)
  {
    EndpointHead + region + EndpointTail
  }

  /** Reads the page id back out of an object key made under `prefix`, if the key has that shape. */
  function KeyId(key: string, prefix: string): (id: Option<string>)
    ensures id.Some? ==> |id.value| + |KeyTail| <= |key|
  {
    var head := TrimEndSlashes(prefix) + KeyMiddle;
    if |head| + |KeyTail| <= |key| && key[..|head|] == head && key[|key| - |KeyTail|..] == KeyTail
    then Some(key[|head|..|key| - |KeyTail|])
    else None
  }

  /** Reads the page id back out of a public URL made under `domain`, if the URL has that shape. */
  function UrlId(url: string, domain: string): (id: Option<string>)
    ensures id.Some? ==> |id.value| < |url|
  {
    var head := domain + KeyMiddle;
    if |head| <= |url| && url[..|head|] == head then Some(url[|head|..]) else None
  }

  /** Reads the region back out of an endpoint URL, if the URL has that shape. */
  function EndpointRegion(url: string): (region: Option<string>)
    ensures region.Some? ==> |region.value| < |url|
  {
    if |EndpointHead| + |EndpointTail| <= |url|
       && url[..|EndpointHead|] == EndpointHead
       && url[|url| - |EndpointTail|..] == EndpointTail
    then Some(url[|EndpointHead|..|url| - |EndpointTail|])
    else None
  }

  /** The key is the trimmed prefix, then "/p/", the id and "/index.html", and nothing else:
      a string is a key for `prefix` and `id` exactly when the id reads back from it. */
  lemma ObjectKeyReadsBack(prefix: string, id: string, key: string)
    ensures KeyId(key, prefix) == Some(id) <==> key == ObjectKey(prefix, id)
  {
  }

  /** The public URL reads back to the id it was made from, and only such URLs do. */
  lemma PublicUrlReadsBack(domain: string, id: string, url: string)
    ensures UrlId(url, domain) == Some(id) <==> url == PublicUrl(domain, id)
  {
  }

  /** The endpoint reads back to its region, and only such URLs do. */
  lemma EndpointReadsBack(region: string, url: string)
    ensures EndpointRegion(url) == Some(region) <==> url == Endpoint(region)
  {
  }

  /** Distinct ids give distinct keys and distinct URLs under the same configuration. */
  lemma DistinctIdsDistinctNames(prefix: string, domain: string, a: string, b: string)
    requires a != b
    ensures ObjectKey(prefix, a) != ObjectKey(prefix, b)
    ensures PublicUrl(domain, a) != PublicUrl(domain, b)
  {
    ObjectKeyReadsBack(prefix, a, ObjectKey(prefix, a));
    ObjectKeyReadsBack(prefix, b, ObjectKey(prefix, a));
    PublicUrlReadsBack(domain, a, PublicUrl(domain, a));
    PublicUrlReadsBack(domain, b, PublicUrl(domain, a));
  }

  /** With an empty or all-'/' prefix the key starts at the root-like "/p/". */
  lemma SlashPrefixKey(prefix: string, id: string)
    requires AllSlashes(prefix)
    ensures ObjectKey(prefix, id) == "/p/" + id + "/index.html"
  {
  }

  /** Trailing '/' on the prefix do not matter: "docs/" and "docs" give the same key
      `docs/p/<id>/index.html`. */
  lemma PrefixSlashesIgnored(prefix: string, slashes: string, id: string)
    requires NoTrailingSlash(prefix) && AllSlashes(slashes)
    ensures ObjectKey(prefix + slashes, id) == ObjectKey(prefix, id)
    ensures ObjectKey(prefix, id) == prefix + "/p/" + id + "/index.html"
  {
    TrimEndSlashesUnique(prefix + slashes, prefix, slashes);
    TrimEndSlashesUnique(prefix, prefix, []);
  }

  /** Lower-case hexadecimal digit, as the UUID text form uses. */
  predicate IsHexDigit(c: char) {
    '0' <= c <= '9' || 'a' <= c <= 'f'
  }

  /**
   * The hyphenated text form of a version-4 UUID (section 5.4 of RFC 9562):
   * 8-4-4-4-12 lower-case hex digits, version nibble 4, variant bits 10.
   */
  predicate IsUuidV4Text(s: string) {
    && |s| == 36
    && (forall i :: 0 <= i < 36 ==> (if i in {8, 13, 18, 23} then s[i] == '-' else IsHexDigit(s[i])))
    && s[14] == '4'
    && s[19] in {'8', '9', 'a', 'b'}
  }

  /** A UUID id holds no '/', so in the key it is one whole path segment between "p" and
      "index.html": the key is exactly 50 characters longer than the trimmed prefix. */
  lemma UuidIsOneSegment(prefix: string, id: string)
    requires IsUuidV4Text(id)
    ensures '/' !in id
    ensures |ObjectKey(prefix, id)| == |TrimEndSlashes(prefix)| + 50
  {
  }
}
