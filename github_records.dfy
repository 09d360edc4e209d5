/** The parts of the GitHub REST API's JSON records the scripts read. A
    field is `None` when the key is absent, so each script's `.get(key,
    default)` chooses its own default. */
module GitHubRecords {

  import opened Text

  datatype Commit = Commit(message: Option<string>)

  /** The `payload` object of an event, with the nested `pull_request` and
      `issue` objects reduced to their titles. */
  datatype Payload = Payload(
    commits: Option<seq<Commit>>,
    refType: Option<string>,
    ref: Option<string>,
    action: Option<string>,
    prTitle: Option<string>,
    issueTitle: Option<string>)

  /** An entry of `/users/{user}/events`: its `type`, `repo.name` and
      `payload`. */
  datatype Event = Event(kind: Option<string>, repoName: Option<string>, payload: Payload)

  /** An entry of `/users/{user}/repos`. */
  datatype Repo = Repo(
    name: string,
    description: Option<string>,
    language: Option<string>,
    topics: Option<seq<string>>,
    stars: Option<int>,
    updatedAt: Option<string>)

  /** The `/users/{user}` object. */
  datatype Profile = Profile(
    name: Option<string>,
    bio: Option<string>,
    company: Option<string>,
    location: Option<string>,
    blog: Option<string>,
    twitter: Option<string>,
    publicRepos: Option<int>,
    followers: Option<int>,
    following: Option<int>)

  /** `repo.get("stargazers_count", 0)`. */
  function Stars(r: Repo): int {
    r.stars.GetOr(0)
  }

  /** `repo.get("topics", [])`. */
  function Topics(r: Repo): seq<string> {
    r.topics.GetOr([])
  }

  /** `repo.get("language")` is truthy: present and not empty. */
  predicate HasLanguage(r: Repo) {
    r.language.Some? && r.language.value != ""
  }
}
