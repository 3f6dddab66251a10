/**
 * How the setup script reads the owner and the repository from the `origin`
 * remote (https or ssh form) and derives the library's addresses on the
 * project site from them.
 */
module RemoteSetup {
  import opened Wrappers
  import opened JsText
  import VersionsRegistry

  datatype Remote = Remote(user: string, repo: string)

  const Host := "github.com"

  /** The first `/` at or after `i`, or `|s|` when there is none. */
  function SlashFrom(s: string, i: nat): (j: nat)
    requires i <= |s|
    ensures i <= j <= |s|
    ensures forall k :: i <= k < j ==> s[k] != '/'
    ensures j < |s| ==> s[j] == '/'
    decreases |s| - i
  {
    if i == |s| || s[i] == '/' then i else SlashFrom(s, i + 1)
  }

  /**
   * The repository group: the lazy `[^/]+?` stops at the first place where
   * `(?:\.git)?$` can finish, which is before a final `.git` provided at
   * least one character is left for the group.
   */
  function RepoOf(rest: string): string {
    if |rest| > 4 && EndsWith(rest, ".git") then rest[..|rest| - 4] else rest
  }

  /** The pattern anchored at `p`: host, `/` or `:`, user, `/`, repository up to the end. */
  function RemoteAt(s: string, p: nat): Option<Remote>
    requires p <= |s|
  {
    if !StartsWith(s[p..], Host) || p + 10 >= |s| || (s[p + 10] != '/' && s[p + 10] != ':') then None
    else
      var u := p + 11;
      var q := SlashFrom(s, u);
      if q == u || q == |s| then None
      else
        var rest := s[q + 1..];
        if rest == [] || '/' in rest then None
        else Some(Remote(s[u..q], RepoOf(rest)))
  }

  /** The search for the leftmost position where the anchored pattern matches. */
  function RemoteFrom(s: string, from: nat): Option<Remote>
    requires from <= |s|
    decreases |s| - from
  {
    var here := RemoteAt(s, from);
    if here.Some? || from == |s| then here else RemoteFrom(s, from + 1)
  }

  /** `remoteUrl.match(...)`, with `None` for no match. */
  function MatchRemote(s: string): Option<Remote> {
    RemoteFrom(s, 0)
  }

  /** The text the pattern matches from its anchor, spelled out part by part. */
  predicate Shape(t: string, sep: char, user: string, repo: string, suffix: string) {
    (sep == '/' || sep == ':')
    && user != [] && '/' !in user
    && repo != [] && '/' !in repo
    && (suffix == "" || suffix == ".git")
    && t == Host + [sep] + user + "/" + repo + suffix
  }

  /**
   * The lazy group is the shortest repository the pattern admits: it is
   * non-empty, the rest is an optional `.git`, and no admissible split of
   * the text leaves a shorter repository.
   */
  lemma RepoOfIsShortest(rest: string)
    requires rest != []
    ensures RepoOf(rest) != []
    ensures rest == RepoOf(rest) || rest == RepoOf(rest) + ".git"
    ensures forall r, suffix :: r != [] && (suffix == "" || suffix == ".git") && rest == r + suffix
                                ==> |RepoOf(rest)| <= |r|
  {
    RepoOfParts(rest);
    forall r, suffix | r != [] && (suffix == "" || suffix == ".git") && rest == r + suffix
      ensures |RepoOf(rest)| <= |r|
    {
      if suffix == ".git" {
        assert rest[|rest| - 4..] == suffix;
      }
    }
  }

  /** The repository group is non-empty and followed by nothing or by `.git`. */
  lemma RepoOfParts(rest: string)
    requires rest != []
    ensures RepoOf(rest) != []
    ensures rest == RepoOf(rest) + RepoSuffix(rest)
  {
    if |rest| > 4 && EndsWith(rest, ".git") {
      assert rest == rest[..|rest| - 4] + ".git";
    }
  }

  /** The pieces of an anchored match: host, separator, user, `/`, and the rest up to the end. */
  predicate Pieces(t: string, sep: char, user: string, rest: string) {
    && t == Host + [sep] + user + "/" + rest
    && (sep == '/' || sep == ':')
    && user != [] && '/' !in user
    && rest != [] && '/' !in rest
  }

  /** The pieces an anchored match splits the text into, and what it returns from them. */
  lemma RemoteAtPieces(s: string, p: nat)
    requires p <= |s| && RemoteAt(s, p).Some?
    ensures p + 11 < SlashFrom(s, p + 11) < |s|
    ensures var q := SlashFrom(s, p + 11);
            && RemoteAt(s, p).value == Remote(s[p + 11..q], RepoOf(s[q + 1..]))
            && Pieces(s[p..], s[p + 10], s[p + 11..q], s[q + 1..])
  {
    var u := p + 11;
    var q := SlashFrom(s, u);
    assert s[p..p + 10] == Host;
    assert '/' !in s[u..q] by {
      forall k | 0 <= k < q - u ensures s[u..q][k] != '/' {
        assert s[u..q][k] == s[u + k];
      }
    }
    assert s[p..] == s[p..p + 10] + [s[p + 10]] + s[u..q] + "/" + s[q + 1..];
  }

  /** What the anchored match returns has the pattern's shape at `p`. */
  lemma RemoteAtSound(s: string, p: nat)
    requires p <= |s| && RemoteAt(s, p).Some?
    ensures var m := RemoteAt(s, p).value;
            exists sep: char, suffix: string :: Shape(s[p..], sep, m.user, m.repo, suffix)
  {
    RemoteAtPieces(s, p);
    var q := SlashFrom(s, p + 11);
    ShapeOfPieces(s[p..], s[p + 10], s[p + 11..q], s[q + 1..]);
  }

  /** What follows the repository group: a final `.git`, or nothing. */
  function RepoSuffix(rest: string): string {
    if |rest| > 4 && EndsWith(rest, ".git") then ".git" else ""
  }

  /** Text assembled from the pieces of an anchored match has the pattern's shape. */
  lemma ShapeOfPieces(t: string, sep: char, user: string, rest: string)
    requires Pieces(t, sep, user, rest)
    ensures exists sep': char, suffix: string :: Shape(t, sep', user, RepoOf(rest), suffix)
  {
    RepoOfParts(rest);
    RepoNoSlash(rest, RepoOf(rest), RepoSuffix(rest));
    AppendAssociates(Host + [sep] + user + "/", RepoOf(rest), RepoSuffix(rest));
    assert Shape(t, sep, user, RepoOf(rest), RepoSuffix(rest));
  }

  lemma RepoNoSlash(rest: string, repo: string, suffix: string)
    requires '/' !in rest && rest == repo + suffix
    ensures '/' !in repo
  {
    forall k | 0 <= k < |repo| ensures repo[k] != '/' {
      assert repo[k] == rest[k];
    }
  }

  /** Text of the pattern's shape at `p` is matched there, with the user and the shortest repository. */
  lemma RemoteAtComplete(s: string, p: nat, sep: char, user: string, repo: string, suffix: string)
    requires p <= |s| && Shape(s[p..], sep, user, repo, suffix)
    ensures RemoteAt(s, p) == Some(Remote(user, RepoOf(repo + suffix)))
  {
    ShapePieces(s, p, sep, user, repo, suffix);
    var q := p + 11 + |user|;
    SlashFromAt(s, p + 11, q);
    NoSlashInRest(repo, suffix);
  }

  /** Where the parts of a text of the pattern's shape sit. */
  lemma ShapePieces(s: string, p: nat, sep: char, user: string, repo: string, suffix: string)
    requires p <= |s| && Shape(s[p..], sep, user, repo, suffix)
    ensures var u, q := p + 11, p + 11 + |user|;
            && StartsWith(s[p..], Host) && q < |s|
            && s[p + 10] == sep
            && (forall k :: u <= k < q ==> s[k] != '/')
            && s[q] == '/'
            && s[u..q] == user
            && s[q + 1..] == repo + suffix
  {
    var t := s[p..];
    var u := p + 11;
    var q := u + |user|;
    assert t == Host + [sep] + user + "/" + (repo + suffix);
    assert t[..10] == Host;
    assert s[p + 10] == t[10];
    assert forall k :: u <= k < q ==> s[k] == user[k - u];
    assert s[q] == t[11 + |user|];
    assert s[u..q] == t[11..11 + |user|];
    assert s[q + 1..] == t[12 + |user|..];
  }

  lemma NoSlashInRest(repo: string, suffix: string)
    requires repo != [] && '/' !in repo && (suffix == "" || suffix == ".git")
    ensures repo + suffix != [] && '/' !in repo + suffix
  {
    var rest := repo + suffix;
    forall k | 0 <= k < |rest| ensures rest[k] != '/' {
      if k < |repo| {
        assert rest[k] == repo[k];
      } else {
        assert rest[k] == suffix[k - |repo|];
      }
    }
  }

  lemma SlashFromAt(s: string, i: nat, j: nat)
    requires i <= j < |s| && s[j] == '/'
    requires forall k :: i <= k < j ==> s[k] != '/'
    ensures SlashFrom(s, i) == j
    decreases j - i
  {
    if i < j {
      SlashFromAt(s, i + 1, j);
    }
  }

  /** The search finds the leftmost anchor that matches, and none when no anchor does. */
  lemma RemoteFromLeftmost(s: string, from: nat)
    requires from <= |s|
    ensures RemoteFrom(s, from).None? ==> forall p :: from <= p <= |s| ==> RemoteAt(s, p).None?
    ensures RemoteFrom(s, from).Some? ==>
              exists p :: from <= p <= |s| && RemoteAt(s, p) == RemoteFrom(s, from)
                          && forall q :: from <= q < p ==> RemoteAt(s, q).None?
  {
    if RemoteFrom(s, from).None? {
      forall p | from <= p <= |s| ensures RemoteAt(s, p).None? {
        RemoteFromNone(s, from, p);
      }
    } else {
      RemoteFromFound(s, from);
    }
  }

  /** One step of the search: the match at `from`, or the search from the next position. */
  lemma RemoteFromStep(s: string, from: nat)
    requires from <= |s|
    ensures RemoteFrom(s, from) == if RemoteAt(s, from).Some? || from == |s| then RemoteAt(s, from) else RemoteFrom(s, from + 1)
  {
  }

  lemma {:induction false} RemoteFromNone(s: string, from: nat, p: nat)
    requires from <= p <= |s| && RemoteFrom(s, from).None?
    ensures RemoteAt(s, p).None?
    decreases |s| - from
  {
    RemoteFromStep(s, from);
    if p > from {
      RemoteFromNone(s, from + 1, p);
    }
  }

  lemma {:induction false} RemoteFromFound(s: string, from: nat)
    requires from <= |s| && RemoteFrom(s, from).Some?
    ensures exists p :: from <= p <= |s| && RemoteAt(s, p) == RemoteFrom(s, from)
                        && forall q :: from <= q < p ==> RemoteAt(s, q).None?
    decreases |s| - from
  {
    RemoteFromStep(s, from);
    if RemoteAt(s, from).None? {
      RemoteFromFound(s, from + 1);
      var p :| from + 1 <= p <= |s| && RemoteAt(s, p) == RemoteFrom(s, from + 1)
               && forall q :: from + 1 <= q < p ==> RemoteAt(s, q).None?;
      assert forall q :: from <= q < p ==> RemoteAt(s, q).None?;
    }
  }

  /** The three addresses printed for a matched remote: latest, a versioned example, and the registry. */
  function CdnUrls(m: Remote): seq<string> {
    var site := "https://" + m.user + ".github.io/" + m.repo;
    [site + "/FxFilter.js", site + "/v1.0.0/FxFilter.js", site + "/versions.js"]
  }

  /** The addresses announced for the trimmed output of `git remote get-url origin` (`None` when the command failed). */
  function Announced(remoteUrl: Option<string>): seq<string> {
    if remoteUrl.None? || remoteUrl.value == [] then []
    else
      match MatchRemote(remoteUrl.value)
      case None => []
      case Some(m) => CdnUrls(m)
  }

  /**
   * The announced addresses are the ones the versions registry computes
   * when it is loaded from the project's home page: the latest library and
   * version 1.0.0 next to that page.
   */
  lemma AnnouncedAgreesWithRegistry(m: Remote, page: string)
    requires '/' !in page
    ensures CdnUrls(m)[0] == VersionsRegistry.GetVersionUrl("https://" + m.user + ".github.io", "/" + m.repo + "/" + page, "latest")
    ensures CdnUrls(m)[1] == VersionsRegistry.GetVersionUrl("https://" + m.user + ".github.io", "/" + m.repo + "/" + page, "1.0.0")
  {
    AnnouncedUrl(m, page, "latest", "/FxFilter.js");
    ExampleVersionTail();
    AnnouncedUrl(m, page, "1.0.0", "/v1.0.0/FxFilter.js");
  }

  lemma ExampleVersionTail()
    ensures "/v1.0.0/FxFilter.js" == "/v" + "1.0.0" + "/FxFilter.js"
  {
  }

  /** One announced address: the site followed by `tail`, for the version whose registry address it is. */
  lemma AnnouncedUrl(m: Remote, page: string, version: string, tail: string)
    requires '/' !in page
    requires tail == if version == "latest" then "/FxFilter.js" else "/v" + version + "/FxFilter.js"
    ensures "https://" + m.user + ".github.io/" + m.repo + tail
         == VersionsRegistry.GetVersionUrl("https://" + m.user + ".github.io", "/" + m.repo + "/" + page, version)
  {
    var origin := "https://" + m.user + ".github.io";
    var site := origin + ("/" + m.repo);
    VersionsRegistry.VersionUrlShape(origin, "/" + m.repo, page, version);
    SiteIsOriginAndDir("https://" + m.user, m.repo);
    if version != "latest" {
      AppendAssociates(site, "/v" + version, "/FxFilter.js");
      AppendAssociates(site, "/v", version);
    }
  }

  /** The project site is the user's site followed by `/` and the repository. */
  lemma SiteIsOriginAndDir(a: string, repo: string)
    ensures a + ".github.io/" + repo == a + ".github.io" + ("/" + repo)
  {
    assert ".github.io/" == ".github.io" + "/";
    AppendAssociates(a, ".github.io", "/");
    AppendAssociates(a + ".github.io", "/", repo);
  }

  /** A remote the pattern rejects, such as one with a trailing `/`, announces nothing. */
  lemma NoMatchNoUrls(remoteUrl: string)
    requires forall p :: 0 <= p <= |remoteUrl| ==> RemoteAt(remoteUrl, p).None?
    ensures Announced(Some(remoteUrl)) == []
  {
    RemoteFromLeftmost(remoteUrl, 0);
  }

  /** A trailing `/` after the repository leaves no anchor at which the pattern matches. */
  lemma TrailingSlashRejected(s: string)
    requires s != [] && s[|s| - 1] == '/'
    ensures MatchRemote(s) == None
  {
    assert forall p :: 0 <= p <= |s| ==> RemoteAt(s, p).None?;
    RemoteFromLeftmost(s, 0);
  }

  /** An https remote at the start of the search position: the `.git` is dropped. */
  lemma HttpsRemote(prefix: string, user: string, repo: string)
    requires forall p :: 0 <= p < |prefix| ==> RemoteAt(prefix + Host + "/" + user + "/" + repo + ".git", p).None?
    requires user != [] && '/' !in user && repo != [] && '/' !in repo
    ensures MatchRemote(prefix + Host + "/" + user + "/" + repo + ".git") == Some(Remote(user, repo))
  {
    var s := prefix + Host + "/" + user + "/" + repo + ".git";
    assert s[|prefix|..] == Host + ['/'] + user + "/" + repo + ".git";
    RemoteAtComplete(s, |prefix|, '/', user, repo, ".git");
    assert RepoOf(repo + ".git") == repo by {
      assert (repo + ".git")[..|repo|] == repo;
    }
    LeftmostAt(s, |prefix|);
  }

  /** If the leftmost anchor that matches is `p`, the search returns its match. */
  lemma LeftmostAt(s: string, p: nat)
    requires p <= |s| && RemoteAt(s, p).Some?
    requires forall q :: 0 <= q < p ==> RemoteAt(s, q).None?
    ensures MatchRemote(s) == RemoteAt(s, p)
  {
    RemoteFromLeftmost(s, 0);
    var p' :| 0 <= p' <= |s| && RemoteAt(s, p') == RemoteFrom(s, 0)
              && forall q :: 0 <= q < p' ==> RemoteAt(s, q).None?;
    assert p' == p;
  }

  /** The ssh form uses `:` after the host, and a repository without `.git` is kept whole. */
  lemma SshRemote(user: string, repo: string)
    requires user != [] && '/' !in user && repo != [] && '/' !in repo && !EndsWith(repo, ".git")
    ensures MatchRemote(Host + ":" + user + "/" + repo) == Some(Remote(user, repo))
  {
    var s := Host + ":" + user + "/" + repo;
    assert s[0..] == Host + [':'] + user + "/" + repo + "";
    RemoteAtComplete(s, 0, ':', user, repo, "");
    assert repo + "" == repo;
    LeftmostAt(s, 0);
  }

  /** A repository called just `.git` keeps the name, since the group needs a character. */
  lemma BareGitRepository(user: string)
    requires user != [] && '/' !in user
    ensures MatchRemote(Host + "/" + user + "/.git") == Some(Remote(user, ".git"))
  {
    var s := Host + "/" + user + "/.git";
    assert s[0..] == Host + ['/'] + user + "/" + ".git" + "";
    RemoteAtComplete(s, 0, '/', user, ".git", "");
    assert ".git" + "" == ".git";
    LeftmostAt(s, 0);
  }
}
