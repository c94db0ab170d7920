/**
 * The clone-URL helpers: the repository name ("owner/repo") of a GitHub or
 * Bitbucket clone URL, the web URL of a commit, and the archive download link.
 * All three first cut the URL where the repository part ends: at the FIRST
 * ".git" when the URL ends in ".git", before a single trailing '/', or at
 * the end.
 */
module RepositoryUrls {
  import opened Wrappers
  import opened Strings

  const GitHubUrl: string := "https://github.com/"
  const BitbucketUrl: string := "https://bitbucket.org/"

  predicate IsHost(host: string) {
    host == GitHubUrl || host == BitbucketUrl
  }

  /** The known host prefix the URL starts with, or "" for any other URL. */
  function Host(url: string): string {
    if StartsWith(url, GitHubUrl) then GitHubUrl
    else if StartsWith(url, BitbucketUrl) then BitbucketUrl
    else ""
  }

  /** Where the repository part of a clone URL ends (the index the code names indexOfDotGit). */
  function RepositoryEnd(url: string): (r: nat)
    ensures r <= |url|
  {
    if EndsWith(url, ".git") then
      assert OccursAt(url, ".git", |url| - 4);
      IndexOf(url, ".git")
    else if EndsWith(url, "/") then |url| - 1
    else |url|
  }

  /** extractRepositoryName: the text between the host and the repository end. */
  function ExtractRepositoryName(url: string): Result<string> {
    var start := |Host(url)|;
    var end := RepositoryEnd(url);
    if start <= end then Ok(url[start..end]) else Err(StringIndexOutOfBounds)
  }

  /** The commit path segment; the code tests the same two prefixes as Host, in the same order. */
  function CommitResource(url: string): string {
    var host := Host(url);
    if host == GitHubUrl then "/commit/"
    else if host == BitbucketUrl then "/commits/"
    else "/"
  }

  /** extractCommitURL: the web page of one commit of the repository. */
  function ExtractCommitURL(url: string, commitId: string): string {
    url[..RepositoryEnd(url)] + CommitResource(url) + commitId
  }

  /** The archive path segment, chosen by the same prefix tests. */
  function DownloadResource(url: string): string {
    var host := Host(url);
    if host == GitHubUrl then "/archive/"
    else if host == BitbucketUrl then "/get/"
    else "/"
  }

  /** extractDownloadLink: the ZIP archive of the repository at one commit. */
  function ExtractDownloadLink(url: string, commitId: string): string {
    url[..RepositoryEnd(url)] + DownloadResource(url) + commitId + ".zip"
  }

  /** ".git" occurs nowhere in `s`. */
  ghost predicate NoDotGit(s: string) {
    forall i :: 0 <= i <= |s| ==> !OccursAt(s, ".git", i)
  }

  /** The only '.' of a host prefix is not followed by 'g'. */
  lemma HostDots(host: string, j: nat)
    requires IsHost(host) && j < |host|
    ensures host[j] == '.' ==> j + 1 < |host| && host[j + 1] != 'g'
  {
  }

  /** ".git" never starts inside the host prefix of a URL. */
  lemma HostHasNoDotGit(host: string, url: string, j: nat)
    requires IsHost(host) && StartsWith(url, host) && j < |host|
    ensures !OccursAt(url, ".git", j)
  {
    if j + 4 <= |url| {
      assert url[..|host|] == host;
      HostDots(host, j);
      if url[j] == '.' {
        assert host[j] == '.';
        assert url[j + 1] == host[j + 1];
        assert url[j..j + 4][1] != 'g';
      } else {
        assert url[j..j + 4][0] != '.';
      }
    }
  }

  /**
   * ".git" has no border, so an occurrence cannot straddle the end of a name
   * free of ".git" and a following text that starts with '.'.
   */
  lemma NoDotGitStraddles(name: string, rest: string, j: nat)
    requires NoDotGit(name) && j < |name|
    requires rest != [] && rest[0] == '.'
    ensures !OccursAt(name + rest, ".git", j)
  {
    var s := name + rest;
    if j + 4 <= |name| {
      assert s[j..j + 4] == name[j..j + 4];
      assert !OccursAt(name, ".git", j);
    } else {
      assert s[|name|] == '.';
    }
  }

  /** A string without '.' has no ".git" in it. */
  lemma NoDotNoDotGit(s: string)
    requires '.' !in s
    ensures NoDotGit(s)
  {
    forall i | 0 <= i <= |s| ensures !OccursAt(s, ".git", i) {
      if i + 4 <= |s| {
        assert s[i..i + 4][0] == s[i];
      }
    }
  }

  /** The host of a URL built from a host prefix is that host. */
  lemma HostOf(host: string, rest: string)
    requires IsHost(host)
    ensures Host(host + rest) == host
  {
    var url := host + rest;
    assert url[..|host|] == host;
    if host == BitbucketUrl {
      assert url[8] == 'b';
      assert GitHubUrl[8] == 'g';
    }
  }

  /** The first ".git" of a URL ending in ".git" is where its repository part ends. */
  lemma FirstDotGitIsEnd(url: string, k: nat)
    requires EndsWith(url, ".git") && OccursAt(url, ".git", k)
    requires forall j :: 0 <= j < k ==> !OccursAt(url, ".git", j)
    ensures RepositoryEnd(url) == k
  {
    var r := IndexOf(url, ".git");
    assert r >= 0;
  }

  /** No ".git" starts before the end of the name in `prefix + name + rest`. */
  lemma NoDotGitBeforeEnd(prefix: string, name: string, rest: string)
    requires prefix == "" || IsHost(prefix)
    requires NoDotGit(name) && rest != [] && rest[0] == '.'
    ensures forall j :: 0 <= j < |prefix| + |name| ==> !OccursAt(prefix + name + rest, ".git", j)
  {
    var url := prefix + name + rest;
    assert url[|prefix|..] == name + rest;
    forall j | 0 <= j < |prefix| + |name| ensures !OccursAt(url, ".git", j) {
      if j < |prefix| {
        assert url[..|prefix|] == prefix;
        HostHasNoDotGit(prefix, url, j);
      } else {
        OccursAtDrop(url, ".git", |prefix|, j - |prefix|);
        NoDotGitStraddles(name, rest, j - |prefix|);
      }
    }
  }

  /** A name free of ".git" that does not end in '/', after an empty or host prefix. */
  predicate PlainName(prefix: string, name: string) {
    (prefix == "" || (IsHost(prefix) && name != "")) && !EndsWith(name, "/")
  }

  lemma RepositoryEndOfDotGit(prefix: string, name: string)
    requires PlainName(prefix, name) && NoDotGit(name)
    ensures RepositoryEnd(prefix + name + ".git") == |prefix| + |name|
  {
    var url := prefix + name + ".git";
    assert url[|prefix| + |name|..] == ".git";
    NoDotGitBeforeEnd(prefix, name, ".git");
    FirstDotGitIsEnd(url, |prefix| + |name|);
  }

  lemma RepositoryEndOfSlash(prefix: string, name: string)
    ensures RepositoryEnd(prefix + name + "/") == |prefix| + |name|
  {
    var url := prefix + name + "/";
    assert url[|url| - 1] == '/';
  }

  /** Without ".git" in the name, the URL does not end in ".git". */
  lemma BareDoesNotEndInDotGit(prefix: string, name: string)
    requires prefix == "" || IsHost(prefix)
    requires NoDotGit(name)
    ensures !EndsWith(prefix + name, ".git")
  {
    var url := prefix + name;
    if |url| >= 4 {
      var p := |url| - 4;
      if p >= |prefix| {
        assert url[|prefix|..] == name;
        OccursAtDrop(url, ".git", |prefix|, p - |prefix|);
      } else {
        assert url[..|prefix|] == prefix;
        HostHasNoDotGit(prefix, url, p);
      }
      assert !OccursAt(url, ".git", p);
    }
  }

  lemma RepositoryEndOfBare(prefix: string, name: string)
    requires PlainName(prefix, name) && NoDotGit(name)
    ensures RepositoryEnd(prefix + name) == |prefix| + |name|
  {
    var url := prefix + name;
    BareDoesNotEndInDotGit(prefix, name);
    if name != "" {
      assert url[|url| - 1..] == name[|name| - 1..];
    }
  }

  /**
   * For `prefix + name + suffix`, where the prefix is empty or a host followed
   * by a non-empty name, the name has no ".git" and does not end in '/', the
   * repository part ends exactly after the name, whichever of the three
   * endings the URL has.
   */
  lemma RepositoryEndOf(prefix: string, name: string, suffix: string)
    requires PlainName(prefix, name) && NoDotGit(name)
    requires suffix == "" || suffix == ".git" || suffix == "/"
    ensures RepositoryEnd(prefix + name + suffix) == |prefix| + |name|
  {
    if suffix == ".git" {
      RepositoryEndOfDotGit(prefix, name);
    } else if suffix == "/" {
      RepositoryEndOfSlash(prefix, name);
    } else {
      RepositoryEndOfBare(prefix, name);
      assert prefix + name + suffix == prefix + name;
    }
  }

  /**
   * extractRepositoryName throws (from String.substring) exactly for a URL
   * that is a bare host, and for no other URL.
   */
  lemma RepositoryNameFailsOnlyOnBareHost(url: string)
    ensures ExtractRepositoryName(url).Err? <==> url == GitHubUrl || url == BitbucketUrl
  {
    var host := Host(url);
    if host != "" {
      assert url[..|host|] == host;
      forall j | 0 <= j < |host| ensures !OccursAt(url, ".git", j) {
        HostHasNoDotGit(host, url, j);
      }
      if |url| == |host| {
        assert url == host;
        assert url[|url| - 1] == '/';
      }
    }
    if url == BitbucketUrl {
      HostOf(BitbucketUrl, "");
    }
  }

  /**
   * A hosted clone URL in any of its three spellings gives back the
   * repository name, the commit page and the archive link of that repository.
   */
  lemma HostedUrlRoundTrip(host: string, name: string, suffix: string, commitId: string)
    requires IsHost(host)
    requires suffix == "" || suffix == ".git" || suffix == "/"
    requires name != "" && NoDotGit(name) && !EndsWith(name, "/")
    ensures ExtractRepositoryName(host + name + suffix) == Ok(name)
    ensures ExtractCommitURL(host + name + suffix, commitId) ==
              host + name + (if host == GitHubUrl then "/commit/" else "/commits/") + commitId
    ensures ExtractDownloadLink(host + name + suffix, commitId) ==
              host + name + (if host == GitHubUrl then "/archive/" else "/get/") + commitId + ".zip"
  {
    var rest := name + suffix;
    var url := host + rest;
    assert url == host + name + suffix;
    RepositoryEndOf(host, name, suffix);
    HostOf(host, rest);
    assert url[|host|..|host| + |name|] == name;
    assert url[..|host| + |name|] == host + name;
  }

  /**
   * Any other URL keeps everything before its repository end, and its commit
   * page and archive link are that text followed by plain '/'.
   */
  lemma OtherUrlRoundTrip(base: string, suffix: string, commitId: string)
    requires suffix == "" || suffix == ".git" || suffix == "/"
    requires NoDotGit(base) && !EndsWith(base, "/")
    requires !StartsWith(base + suffix, GitHubUrl) && !StartsWith(base + suffix, BitbucketUrl)
    ensures ExtractRepositoryName(base + suffix) == Ok(base)
    ensures ExtractCommitURL(base + suffix, commitId) == base + "/" + commitId
    ensures ExtractDownloadLink(base + suffix, commitId) == base + "/" + commitId + ".zip"
  {
    RepositoryEndOf("", base, suffix);
    assert "" + base + suffix == base + suffix;
    assert (base + suffix)[..|base|] == base;
  }

  /** In `host + a + ".git" + b + ".git"` the repository part ends after `a`. */
  lemma DotGitInsideNameEnd(host: string, a: string, b: string)
    requires IsHost(host) && NoDotGit(a)
    ensures RepositoryEnd(host + a + ".git" + b + ".git") == |host| + |a|
  {
    var url := host + a + ".git" + b + ".git";
    var k := |host| + |a|;
    assert url == host + a + (".git" + b + ".git");
    assert url[k..k + 4] == ".git";
    NoDotGitBeforeEnd(host, a, ".git" + b + ".git");
    assert url[|url| - 4..] == ".git";
    FirstDotGitIsEnd(url, k);
  }

  /**
   * As written, the name is cut at the FIRST ".git" of a URL that ends in
   * ".git": a repository whose name itself contains ".git" loses everything
   * from there on, and so does its commit page.
   */
  lemma DotGitInsideNameIsCut(host: string, a: string, b: string, commitId: string)
    requires IsHost(host) && NoDotGit(a)
    ensures ExtractRepositoryName(host + a + ".git" + b + ".git") == Ok(a)
    ensures ExtractCommitURL(host + a + ".git" + b + ".git", commitId) ==
              host + a + (if host == GitHubUrl then "/commit/" else "/commits/") + commitId
  {
    var rest := a + ".git" + b + ".git";
    var url := host + rest;
    var k := |host| + |a|;
    assert url == host + a + ".git" + b + ".git";
    DotGitInsideNameEnd(host, a, b);
    HostOf(host, rest);
    assert url[|host|..k] == a;
    assert url[..k] == host + a;
  }

  /** A GitHub Pages repository, "user/user.github.io", is read as "user/user". */
  lemma GitHubPagesNameIsCut()
    ensures ExtractRepositoryName("https://github.com/user/user.github.io.git") == Ok("user/user")
  {
    var url := "https://github.com/user/user.github.io.git";
    var host, name, rest := GitHubUrl, "user/user", "hub.io";
    assert '.' !in name by {
      forall i | 0 <= i < |name| ensures name[i] != '.' {
      }
    }
    NoDotNoDotGit(name);
    assert url == host + name + ".git" + rest + ".git";
    DotGitInsideNameIsCut(host, name, rest, rest);
  }

  /** The repository end as intended: only the ".git" SUFFIX is dropped. */
  function RepositoryEndAtSuffix(url: string): (r: nat)
    ensures r <= |url|
  {
    if EndsWith(url, ".git") then |url| - 4
    else if EndsWith(url, "/") then |url| - 1
    else |url|
  }

  /** extractRepositoryName with the intended repository end. */
  function ExtractRepositoryNameAtSuffix(url: string): Result<string> {
    var start := |Host(url)|;
    var end := RepositoryEndAtSuffix(url);
    if start <= end then Ok(url[start..end]) else Err(StringIndexOutOfBounds)
  }

  /**
   * Cut at the suffix, every hosted URL gives back its repository name,
   * whatever the name contains; only a bare host still fails.
   */
  lemma HostedUrlRoundTripAtSuffix(host: string, name: string, suffix: string)
    requires IsHost(host)
    requires suffix == "" || suffix == ".git" || suffix == "/"
    requires suffix == "" ==> name != "" && !EndsWith(name, "/") && !EndsWith(name, ".git")
    ensures ExtractRepositoryNameAtSuffix(host + name + suffix) == Ok(name)
  {
    var url := host + name + suffix;
    HostOf(host, name + suffix);
    assert url == host + (name + suffix);
    assert url[|host|..|host| + |name|] == name;
    if suffix == "" {
      BareNameEndsTheUrl(host, name);
      assert url == host + name;
    } else {
      SuffixEndsTheName(host + name, suffix);
    }
  }

  /** A ".git" or '/' suffix is exactly what the corrected cut drops. */
  lemma SuffixEndsTheName(base: string, suffix: string)
    requires suffix == ".git" || suffix == "/"
    ensures RepositoryEndAtSuffix(base + suffix) == |base|
  {
    var url := base + suffix;
    if suffix == ".git" {
      assert url[|url| - 4..] == ".git";
    } else {
      assert url[|url| - 1] == '/';
      if |url| >= 4 {
        assert url[|url| - 4..][3] == '/';
      }
    }
  }

  /** A bare hosted URL ends in '/' or ".git" only when its name does. */
  lemma BareNameEndsTheUrl(host: string, name: string)
    requires IsHost(host)
    requires name != "" && !EndsWith(name, "/") && !EndsWith(name, ".git")
    ensures RepositoryEndAtSuffix(host + name) == |host + name|
  {
    var url := host + name;
    assert url[|url| - 1..] == name[|name| - 1..];
    assert !EndsWith(url, "/");
    if |name| >= 4 {
      assert url[|url| - 4..] == name[|name| - 4..];
    } else {
      assert url[|host| - 1] == '/';
      if |url| >= 4 {
        assert url[|url| - 4..][3 - |name|] == '/';
      }
    }
    assert !EndsWith(url, ".git");
  }

  /** The GitHub Pages repository keeps its whole name under the corrected cut. */
  lemma GitHubPagesNameAtSuffix()
    ensures ExtractRepositoryNameAtSuffix("https://github.com/user/user.github.io.git") == Ok("user/user.github.io")
  {
    var url := "https://github.com/user/user.github.io.git";
    var host, name, suffix := GitHubUrl, "user/user.github.io", ".git";
    assert url == host + name + suffix;
    HostedUrlRoundTripAtSuffix(host, name, suffix);
  }

  /** The corrected cut still fails exactly on a bare host. */
  lemma RepositoryNameAtSuffixFailsOnlyOnBareHost(url: string)
    ensures ExtractRepositoryNameAtSuffix(url).Err? <==> url == GitHubUrl || url == BitbucketUrl
  {
    var host := Host(url);
    if host != "" {
      assert url[..|host|] == host;
      if 4 <= |url| && |url| - 4 < |host| {
        HostHasNoDotGit(host, url, |url| - 4);
      }
      if |url| == |host| {
        assert url == host;
        assert url[|url| - 1] == '/';
      }
    }
    if url == BitbucketUrl {
      HostOf(BitbucketUrl, "");
    }
  }
}
