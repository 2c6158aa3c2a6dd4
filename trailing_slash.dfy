/** `stripTrailingSlash` from src/common/strip-trailing-slash.ts. */
module TrailingSlash {

  predicate EndsWithSlash(s: string) {
    |s| > 0 && s[|s| - 1] == '/'
  }

  /**
   * Removes one trailing `/`, except from the path `"/"` itself.
   * The result is a prefix of the input at most one character shorter,
   * and it is shorter exactly when the input ends in `/` and is not `"/"`.
   */
  function StripTrailingSlash(s: string): (r: string)
    ensures r <= s
    ensures |s| - 1 <= |r|
    ensures |r| < |s| <==> s != "/" && EndsWithSlash(s)
  {
    if s == "/" then s
    else if EndsWithSlash(s) then s[..|s| - 1]
    else s
  }

  /** The cases of src/common/strip-trailing-slash.test.ts. */
  lemma StripTrailingSlashExamples()
    ensures StripTrailingSlash("/") == "/"
    ensures StripTrailingSlash("/a") == "/a"
    ensures StripTrailingSlash("/a/") == "/a"
    ensures StripTrailingSlash("/a/b/c/d/e") == "/a/b/c/d/e"
    ensures StripTrailingSlash("/a/b/c/d/e/") == "/a/b/c/d/e"
    ensures StripTrailingSlash("") == ""
  {
    assert "/a/"[..2] == "/a";
    assert "/a/b/c/d/e/"[..10] == "/a/b/c/d/e";
  }

  /** Only one slash is removed, so stripping is not idempotent. */
  lemma StripTrailingSlashNotIdempotent()
    ensures StripTrailingSlash("/a//") == "/a/"
    ensures StripTrailingSlash(StripTrailingSlash("/a//")) != StripTrailingSlash("/a//")
  {
    assert "/a//"[..3] == "/a/";
    assert "/a/"[..2] == "/a";
  }
}
