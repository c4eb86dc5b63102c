/** Joining a site address with the paths of images and pages. */
module UrlUtils {
  import opened Wrappers
  import opened Strings

  /** The image a page falls back to: `SITE_CONFIG.DEFAULT_IMAGE`. */
  const DefaultImage: string := "/meta.png"

  /**
   * `buildImageUrl`: the image path alone when there is no site address (an
   * absent or empty one), else the site address followed by the path.
   */
  function BuildImageUrl(siteUrl: Option<string>, imagePath: string): (url: string)
    ensures siteUrl == None || siteUrl == Some("") ==> url == imagePath
    ensures EndsWith(url, imagePath)
    ensures siteUrl.Some? ==> StartsWith(url, siteUrl.value) && |url| == |siteUrl.value| + |imagePath|
  {
    if siteUrl.None? || siteUrl.value == "" then imagePath else siteUrl.value + imagePath
  }

  /** `getDefaultImage`. */
  function GetDefaultImage(): (path: string)
    ensures path == "/meta.png"
  {
    DefaultImage
  }

  /** The base without one trailing '/'. */
  function CleanBase(baseUrl: string): (base: string)
    ensures EndsWith(baseUrl, "/") ==> base + "/" == baseUrl
    ensures !EndsWith(baseUrl, "/") ==> base == baseUrl
  {
    if EndsWith(baseUrl, "/") then baseUrl[..|baseUrl| - 1] else baseUrl
  }

  /** The path with a leading '/' added when it has none. */
  function CleanPath(path: string): (p: string)
    ensures StartsWith(p, "/")
    ensures StartsWith(path, "/") ==> p == path
    ensures !StartsWith(path, "/") ==> p == "/" + path
  {
    if StartsWith(path, "/") then path else "/" + path
  }

  /**
   * `buildFullUrl`: the base less one trailing '/', then a '/', then the path
   * less the '/' it may start with.
   */
  function BuildFullUrl(baseUrl: string, path: string): (url: string)
    ensures var base := CleanBase(baseUrl);
      && StartsWith(url, base) && |url| > |base| && url[|base|] == '/'
      && EndsWith(url, path)
      && |url| == |base| + 1 + (if StartsWith(path, "/") then |path| - 1 else |path|)
  {
    CleanBase(baseUrl) + CleanPath(path)
  }

  /** A base without a trailing '/' and a path with a leading one are simply joined. */
  lemma FullUrlJoins(baseUrl: string, path: string)
    requires !EndsWith(baseUrl, "/") && StartsWith(path, "/")
    ensures BuildFullUrl(baseUrl, path) == baseUrl + path
  {
  }

  /**
   * One trailing '/' on the base and one leading '/' on the path make no
   * difference: all four spellings give the base, a '/' and the path.
   */
  lemma FullUrlSlashes(baseUrl: string, path: string)
    requires !EndsWith(baseUrl, "/") && !StartsWith(path, "/")
    ensures BuildFullUrl(baseUrl, path) == baseUrl + "/" + path
    ensures BuildFullUrl(baseUrl + "/", path) == baseUrl + "/" + path
    ensures BuildFullUrl(baseUrl, "/" + path) == baseUrl + "/" + path
    ensures BuildFullUrl(baseUrl + "/", "/" + path) == baseUrl + "/" + path
  {
    assert EndsWith(baseUrl + "/", "/");
    assert (baseUrl + "/")[..|baseUrl|] == baseUrl;
    assert StartsWith("/" + path, "/");
  }
}
