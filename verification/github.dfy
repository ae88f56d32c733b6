/**
 * The GitHub presenter: the home page and owner image of a repository hosted
 * on GitHub, and the list of changes between the local and the remote
 * revision, as GitHub's compare API reports them.
 *
 * The GitHub API calls (Users.Get, Repositories.CompareCommits) are
 * parameters: functions from the request to the response.
 */
module Presenter {
  import opened Wrappers
  import opened GoPackages

  /** A commit as the compare API lists it. */
  datatype Commit = Commit(sha: string, message: string)

  /** The compare API's answer: the commits from base to head, oldest first. */
  datatype CommitsComparison = CommitsComparison(commits: seq<Commit>)

  /** What Repositories.CompareCommits returns: a comparison (None for nil) and an error (None for nil). */
  datatype CompareResponse = CompareResponse(cc: Option<CommitsComparison>, err: Option<string>)

  /** Repositories.CompareCommits(owner, repo, base, head). */
  type CompareCommitsApi = (string, string, string, string) -> CompareResponse

  /** What Users.Get(owner) gives: a failure, or a user whose avatar URL may be nil. */
  datatype UserLookup = LookupFailed | UserFound(avatarURL: Option<string>)

  /** One entry of the change list: a commit message. */
  datatype Change = ChangeMessage(message: string)

  const GitHubPrefix: string := "https://github.com/"

  const PlaceholderImage: string := "https://github.com/images/gravatars/gravatar-user-420.png"

  /**
   * The comparison between a repository's local and remote revision. Its
   * sources are the local revision (source 0) and the remote revision
   * (source 1); Update fills in the comparison and the error.
   */
  class GithubComparison {
    const gitHubOwner: string
    const gitHubRepo: string
    const localRev: string
    const remoteRev: string

    var cc: Option<CommitsComparison>
    var err: Option<string>

    constructor (gitHubOwner: string, gitHubRepo: string, localRev: string, remoteRev: string)
      ensures this.gitHubOwner == gitHubOwner && this.gitHubRepo == gitHubRepo
      ensures this.localRev == localRev && this.remoteRev == remoteRev
      ensures cc == None && err == None
    {
      this.gitHubOwner := gitHubOwner;
      this.gitHubRepo := gitHubRepo;
      this.localRev := localRev;
      this.remoteRev := remoteRev;
      cc := None;
      err := None;
    }

    /** Asks GitHub to compare with the local revision as base and the remote revision as head. */
    method Update(compareCommits: CompareCommitsApi)
      modifies this
      ensures cc == compareCommits(gitHubOwner, gitHubRepo, localRev, remoteRev).cc
      ensures err == compareCommits(gitHubOwner, gitHubRepo, localRev, remoteRev).err
    {
      var response := compareCommits(gitHubOwner, gitHubRepo, localRev, remoteRev);
      cc, err := response.cc, response.err;
    }
  }

  /** The commit messages of `commits`, in the same order. */
  function Messages(commits: seq<Commit>): (changes: seq<Change>)
    ensures |changes| == |commits|
    ensures forall i :: 0 <= i < |commits| ==> changes[i] == ChangeMessage(commits[i].message)
  {
    seq(|commits|, i requires 0 <= i < |commits| => ChangeMessage(commits[i].message))
  }

  /** `s` read from its last element to its first. */
  function Reverse<T>(s: seq<T>): seq<T>
  {
    if s == [] then [] else [s[|s| - 1]] + Reverse(s[..|s| - 1])
  }

  lemma {:induction false} ReverseAt<T>(s: seq<T>)
    ensures |Reverse(s)| == |s|
    ensures forall i :: 0 <= i < |s| ==> Reverse(s)[i] == s[|s| - 1 - i]
  {
    if s != [] {
      ReverseAt(s[..|s| - 1]);
    }
  }

  /** Reversing twice gives back the original order. */
  lemma ReverseReverse<T>(s: seq<T>)
    ensures Reverse(Reverse(s)) == s
  {
    ReverseAt(s);
    ReverseAt(Reverse(s));
  }

  /** The first index of `c` in `s`, if any. */
  function IndexOf(s: string, c: char): (r: Option<nat>)
    ensures r.Some? ==> r.value < |s| && s[r.value] == c && c !in s[..r.value]
    ensures r.None? ==> c !in s
  {
    if s == [] then None
    else if s[0] == c then Some(0)
    else match IndexOf(s[1..], c)
      case None => None
      case Some(i) =>
        assert s[..i + 1] == [s[0]] + s[1..][..i];
        Some(i + 1)
  }

  /** Reads the owner and the repository name back from a GitHub home page URL. */
  function ParseHomePage(url: string): Option<(string, string)>
  {
    if |url| < |GitHubPrefix| || url[..|GitHubPrefix|] != GitHubPrefix then None
    else
      var rest := url[|GitHubPrefix|..];
      match IndexOf(rest, '/')
      case None => None
      case Some(i) => Some((rest[..i], rest[i + 1..]))
  }

  /** A presenter for a repository hosted at github.com/<gitHubOwner>/<gitHubRepo>. */
  datatype GitHubPresenter = GitHubPresenter(repo: GoPackageRepo, gitHubOwner: string, gitHubRepo: string,
                                             comparison: GithubComparison)
  {
    function Repo(): GoPackageRepo
    {
      repo
    }

    /**
     * The repository's page on github.com: the GitHub prefix followed by the
     * owner and the repository name; for an owner name without '/', both can
     * be read back from it.
     */
    function HomePage(): (url: string)
      ensures |GitHubPrefix| < |url| && url[..|GitHubPrefix|] == GitHubPrefix
      ensures '/' !in gitHubOwner ==> ParseHomePage(url) == Some((gitHubOwner, gitHubRepo))
    {
      HomePageRoundTrip(gitHubOwner, gitHubRepo);
      GitHubPrefix + gitHubOwner + "/" + gitHubRepo
    }

    /** The owner's avatar when Users.Get succeeds with an avatar URL; the generic placeholder otherwise. */
    function Image(usersGet: string -> UserLookup): (url: string)
      ensures usersGet(gitHubOwner).UserFound? && usersGet(gitHubOwner).avatarURL.Some?
              ==> url == usersGet(gitHubOwner).avatarURL.value
      ensures usersGet(gitHubOwner).LookupFailed? || usersGet(gitHubOwner).avatarURL.None?
              ==> url == PlaceholderImage
    {
      match usersGet(gitHubOwner)
      case UserFound(Some(avatarURL)) => avatarURL
      case _ => PlaceholderImage
    }

    /**
     * The changes between the local and the remote revision, newest first:
     * absent when the comparison failed, otherwise change i is the message of
     * commit len(Commits)-1-i. When the error is nil the comparison is there.
     */
    method Changes() returns (changes: Option<seq<Change>>)
      requires comparison.err.None? ==> comparison.cc.Some?
      ensures comparison.err.Some? ==> changes.None?
      ensures comparison.err.None? ==>
        var commits := comparison.cc.value.commits;
        && changes.Some?
        && |changes.value| == |commits|
        && (forall i :: 0 <= i < |commits| ==> changes.value[i] == ChangeMessage(commits[|commits| - 1 - i].message))
        && changes.value == Reverse(Messages(commits))
    {
      if comparison.err.Some? {
        return None;
      }
      var commits := comparison.cc.value.commits;
      var out: seq<Change> := [];
      for index := 0 to |commits|
        invariant |out| == index
        invariant forall i :: 0 <= i < index ==> out[i] == ChangeMessage(commits[|commits| - 1 - i].message)
      {
        out := out + [ChangeMessage(commits[|commits| - 1 - index].message)];
      }
      ReverseAt(Messages(commits));
      changes := Some(out);
    }
  }

  /** An index holding `c` with no `c` before it is the one IndexOf finds. */
  lemma IndexOfFirst(s: string, c: char, k: nat)
    requires k < |s| && s[k] == c && c !in s[..k]
    ensures IndexOf(s, c) == Some(k)
  {
  }

  /**
   * The home page names the repository: for an owner name without '/', the
   * owner and repository name can be read back from it.
   */
  lemma HomePageRoundTrip(gitHubOwner: string, gitHubRepo: string)
    ensures '/' !in gitHubOwner ==>
      ParseHomePage(GitHubPrefix + gitHubOwner + "/" + gitHubRepo) == Some((gitHubOwner, gitHubRepo))
  {
    if '/' !in gitHubOwner {
      var url := GitHubPrefix + gitHubOwner + "/" + gitHubRepo;
      assert url[..|GitHubPrefix|] == GitHubPrefix;
      var rest := url[|GitHubPrefix|..];
      var k := |gitHubOwner|;
      assert rest == gitHubOwner + "/" + gitHubRepo;
      assert rest[..k] == gitHubOwner;
      assert rest[k + 1..] == gitHubRepo;
      IndexOfFirst(rest, '/', k);
    }
  }

  /**
   * NewGitHubPresenter: the comparison is built from the first package's local
   * and remote revisions and brought up to date at once.
   */
  method NewGitHubPresenter(repo: GoPackageRepo, gitHubOwner: string, gitHubRepo: string,
                            compareCommits: CompareCommitsApi)
    returns (p: GitHubPresenter)
    requires repo.goPackages != []
    ensures p.Repo() == repo && p.gitHubOwner == gitHubOwner && p.gitHubRepo == gitHubRepo
    ensures fresh(p.comparison)
    ensures p.comparison.gitHubOwner == gitHubOwner && p.comparison.gitHubRepo == gitHubRepo
    ensures p.comparison.localRev == repo.goPackages[0].localRev
    ensures p.comparison.remoteRev == repo.goPackages[0].remoteRev
    ensures var response := compareCommits(gitHubOwner, gitHubRepo, repo.goPackages[0].localRev, repo.goPackages[0].remoteRev);
      p.comparison.cc == response.cc && p.comparison.err == response.err
  {
    var goPackage := repo.goPackages[0];
    var comparison := new GithubComparison(gitHubOwner, gitHubRepo, goPackage.localRev, goPackage.remoteRev);
    comparison.Update(compareCommits);
    p := GitHubPresenter(repo, gitHubOwner, gitHubRepo, comparison);
  }
}
