/**
 * The download address of a published version, as the versions registry
 * computes it from the address of the page that loaded it.
 */
module VersionsRegistry {
  import opened Wrappers

  /** The index of the last `/` in `s`, if any. */
  function LastSlash(s: string): (r: Option<nat>)
    ensures r.Some? ==> r.value < |s| && s[r.value] == '/'
    ensures r.Some? ==> forall k :: r.value < k < |s| ==> s[k] != '/'
    ensures r.None? <==> '/' !in s
  {
    if s == [] then None
    else if s[|s| - 1] == '/' then Some(|s| - 1)
    else
      var r := LastSlash(s[..|s| - 1]);
      assert forall k :: 0 <= k < |s| - 1 ==> s[..|s| - 1][k] == s[k];
      r
  }

  /**
   * `pathname.replace(/\/[^/]*$/, '')`: the leftmost `/` that is followed by
   * no other `/` up to the end is removed together with everything after it.
   * With no `/` there is no match and the text is unchanged.
   */
  function StripLastSegment(pathname: string): string {
    match LastSlash(pathname)
    case None => pathname
    case Some(i) => pathname[..i]
  }

  /** Where the regular expression can match: a `/` with no `/` after it. */
  predicate MatchesAt(s: string, i: nat) {
    i < |s| && s[i] == '/' && forall k :: i < k < |s| ==> s[k] != '/'
  }

  /**
   * The replacement removes exactly the leftmost match of the pattern: when
   * there is one, the text is cut at the only position the pattern matches
   * (so also the leftmost one); when there is none, the text is kept.
   */
  lemma StripIsLeftmostMatch(s: string)
    ensures (exists i: nat :: MatchesAt(s, i)) <==> '/' in s
    ensures forall i: nat :: MatchesAt(s, i) ==> StripLastSegment(s) == s[..i]
    ensures '/' !in s ==> StripLastSegment(s) == s
  {
    var r := LastSlash(s);
    if r.Some? {
      assert MatchesAt(s, r.value);
      assert forall i: nat :: MatchesAt(s, i) ==> i == r.value;
    }
  }

  /** Appending a segment after a `/` and stripping gives the text back. */
  lemma StripAppendedSegment(dir: string, segment: string)
    requires '/' !in segment
    ensures StripLastSegment(dir + "/" + segment) == dir
  {
    var s := dir + "/" + segment;
    assert MatchesAt(s, |dir|) by {
      forall k | |dir| < k < |s| ensures s[k] != '/' {
        assert s[k] == segment[k - |dir| - 1];
      }
    }
    StripIsLeftmostMatch(s);
    assert s[..|dir|] == dir;
  }

  /** The file name of the library inside a release directory. */
  const LibraryFile := "/FxFilter.js"

  /** `getVersionUrl(version)` for a page at `origin` + `pathname`. */
  function GetVersionUrl(origin: string, pathname: string, version: string): string {
    var base := origin + StripLastSegment(pathname);
    if version == "latest" then base + LibraryFile
    else base + "/v" + version + LibraryFile
  }

  /**
   * `latest` names the library next to the page; any other version names
   * it inside that version's `v` directory next to the page.
   */
  lemma VersionUrlShape(origin: string, dir: string, page: string, version: string)
    requires '/' !in page
    ensures GetVersionUrl(origin, dir + "/" + page, version)
         == if version == "latest" then origin + dir + "/FxFilter.js"
            else origin + dir + "/v" + version + "/FxFilter.js"
  {
    StripAppendedSegment(dir, page);
  }

  /** A project page strips to its directory. */
  lemma ProjectPageBase()
    ensures StripLastSegment("/FxFilterJS/index.html") == "/FxFilterJS"
  {
    assert "/FxFilterJS/index.html" == "/FxFilterJS" + "/" + "index.html";
    StripAppendedSegment("/FxFilterJS", "index.html");
  }

  /** The site root strips to the empty text, so the library is looked up at the origin. */
  lemma RootPageBase(origin: string)
    ensures StripLastSegment("/") == ""
    ensures GetVersionUrl(origin, "/", "latest") == origin + "/FxFilter.js"
  {
    assert "/" == "" + "/" + "";
    StripAppendedSegment("", "");
  }

  /** A pathname with no `/` at all is used as it is. */
  lemma NoSlashUnchanged(origin: string, pathname: string, version: string)
    requires '/' !in pathname && version != "latest"
    ensures GetVersionUrl(origin, pathname, version) == origin + pathname + "/v" + version + "/FxFilter.js"
  {
  }
}
