/** The knowledge base of scripts/extract_knowledge.py: the language
    histogram, the sorted topic list, the top repositories by stars with
    their README excerpts, the totals, and the project list of the system
    prompt. The fetched profile, repositories and README texts are inputs. */
module Knowledge {

  import opened Text
  import opened GitHubRecords
  import opened Sorting
  import Calendar

  // analyze_languages

  /** How many repositories of `rs` have the language `l`. */
  function Occurrences(rs: seq<Repo>, l: string): nat
    decreases |rs|
  {
    if rs == [] then 0
    else
      var r := rs[|rs| - 1];
      Occurrences(rs[..|rs| - 1], l) + (if HasLanguage(r) && r.language.value == l then 1 else 0)
  }

  /** The languages of `rs` in the order they first appear: the insertion
      order of the `languages` dict. */
  function LanguageOrder(rs: seq<Repo>): seq<string>
    decreases |rs|
  {
    if rs == [] then []
    else
      var init := LanguageOrder(rs[..|rs| - 1]);
      var r := rs[|rs| - 1];
      if HasLanguage(r) && r.language.value !in init then init + [r.language.value] else init
  }

  /** How many repositories of `rs` have a language at all. */
  function WithLanguage(rs: seq<Repo>): nat
    decreases |rs|
  {
    if rs == [] then 0 else WithLanguage(rs[..|rs| - 1]) + (if HasLanguage(rs[|rs| - 1]) then 1 else 0)
  }

  /** A language and its number of repositories. */
  type LanguageCount = (string, nat)

  function Count(p: LanguageCount): int {
    p.1
  }

  /** The dict's items in insertion order. */
  function Items(rs: seq<Repo>): seq<LanguageCount> {
    var order := LanguageOrder(rs);
    seq(|order|, k requires 0 <= k < |order| => (order[k], Occurrences(rs, order[k])))
  }

  /** The result of `analyze_languages`: the items sorted by count, largest
      first, ties in insertion order. */
  function Languages(rs: seq<Repo>): seq<LanguageCount> {
    SortDesc(Items(rs), Count)
  }

  /** `analyze_languages`: counts each truthy language in a dict, then sorts
      its items by count in descending order. */
  method AnalyzeLanguages(repos: seq<Repo>) returns (languages: seq<LanguageCount>)
    ensures languages == Languages(repos)
  {
    var counts: map<string, nat> := map[];
    var order: seq<string> := [];
    for i := 0 to |repos|
      invariant order == LanguageOrder(repos[..i])
      invariant forall l :: l in counts <==> l in order
      invariant forall l :: l in counts ==> counts[l] == Occurrences(repos[..i], l)
    {
      var repo := repos[i];
      CountStep(repos, i);
      LanguageOrderSpec(repos[..i]);
      if repo.language.Some? && repo.language.value != "" {
        var lang := repo.language.value;
        if lang !in counts {
          order := order + [lang];
        }
        counts := counts[lang := (if lang in counts then counts[lang] else 0) + 1];
      }
    }
    assert repos[..|repos|] == repos;
    var items := seq(|order|, k requires 0 <= k < |order| => (order[k], counts[order[k]]));
    assert items == Items(repos);
    languages := SortDesc(items, Count);
  }

  /** How the histogram grows by one repository. */
  lemma CountStep(rs: seq<Repo>, i: nat)
    requires i < |rs|
    ensures forall l ::
      Occurrences(rs[..i + 1], l) == Occurrences(rs[..i], l) + (if HasLanguage(rs[i]) && rs[i].language.value == l then 1 else 0)
    ensures LanguageOrder(rs[..i + 1])
      == LanguageOrder(rs[..i]) + (if HasLanguage(rs[i]) && rs[i].language.value !in LanguageOrder(rs[..i])
                                   then [rs[i].language.value] else [])
    ensures WithLanguage(rs[..i + 1]) == WithLanguage(rs[..i]) + (if HasLanguage(rs[i]) then 1 else 0)
  {
    assert rs[..i + 1][..i] == rs[..i];
    assert rs[..i + 1][i] == rs[i];
  }

  /** The order lists each language once, and exactly the languages that
      occur. */
  lemma {:induction false} LanguageOrderSpec(rs: seq<Repo>)
    ensures forall j, k :: 0 <= j < k < |LanguageOrder(rs)| ==> LanguageOrder(rs)[j] != LanguageOrder(rs)[k]
    ensures forall l :: l in LanguageOrder(rs) <==> Occurrences(rs, l) > 0
    decreases |rs|
  {
    if rs != [] {
      var n := |rs| - 1;
      LanguageOrderSpec(rs[..n]);
      CountStep(rs, n);
      assert rs[..n + 1] == rs;
    }
  }

  /** The sum of `Occurrences(rs, l)` over the languages `l` of `ls`. */
  function SumOccurrences(ls: seq<string>, rs: seq<Repo>): int {
    if ls == [] then 0 else Occurrences(rs, ls[0]) + SumOccurrences(ls[1..], rs)
  }

  lemma {:induction false} SumOccurrencesStep(ls: seq<string>, rs: seq<Repo>, i: nat)
    requires i < |rs|
    requires forall j, k :: 0 <= j < k < |ls| ==> ls[j] != ls[k]
    ensures SumOccurrences(ls, rs[..i + 1]) == SumOccurrences(ls, rs[..i])
      + (if HasLanguage(rs[i]) && rs[i].language.value in ls then 1 else 0)
    decreases |ls|
  {
    CountStep(rs, i);
    if ls != [] {
      SumOccurrencesStep(ls[1..], rs, i);
      assert ls == [ls[0]] + ls[1..];
      if HasLanguage(rs[i]) && rs[i].language.value == ls[0] {
        assert rs[i].language.value !in ls[1..] by {
          forall k | 0 <= k < |ls[1..]| ensures ls[1..][k] != ls[0] {
            assert ls[1..][k] == ls[k + 1];
          }
        }
      }
    }
  }

  lemma {:induction false} SumOccurrencesAppend(ls: seq<string>, l: string, rs: seq<Repo>)
    ensures SumOccurrences(ls + [l], rs) == SumOccurrences(ls, rs) + Occurrences(rs, l)
    decreases |ls|
  {
    if ls != [] {
      SumOccurrencesAppend(ls[1..], l, rs);
      assert (ls + [l])[1..] == ls[1..] + [l];
    }
  }

  /** Every repository with a language is counted once: the counts add up
      to the number of such repositories. */
  lemma {:induction false} CountsSum(rs: seq<Repo>)
    ensures SumOccurrences(LanguageOrder(rs), rs) == WithLanguage(rs)
    decreases |rs|
  {
    if rs != [] {
      var n := |rs| - 1;
      var init := rs[..n];
      CountsSum(init);
      LanguageOrderSpec(init);
      CountStep(rs, n);
      assert rs[..n + 1] == rs;
      var order := LanguageOrder(init);
      SumOccurrencesStep(order, rs, n);
      var r := rs[n];
      if HasLanguage(r) && r.language.value !in order {
        SumOccurrencesAppend(order, r.language.value, rs);
        assert Occurrences(init, r.language.value) == 0;
      }
    }
  }

  lemma {:induction false} ItemsSum(ls: seq<string>, rs: seq<Repo>)
    ensures SumOf(seq(|ls|, k requires 0 <= k < |ls| => (ls[k], Occurrences(rs, ls[k]))), Count)
      == SumOccurrences(ls, rs)
    decreases |ls|
  {
    var items := seq(|ls|, k requires 0 <= k < |ls| => (ls[k], Occurrences(rs, ls[k])));
    if ls != [] {
      ItemsSum(ls[1..], rs);
      assert items[1..] == seq(|ls[1..]|, k requires 0 <= k < |ls[1..]| => (ls[1..][k], Occurrences(rs, ls[1..][k])));
    }
  }

  /** What `analyze_languages` returns: each language that occurs, once,
      with its number of repositories; ordered by count, largest first;
      languages with equal counts in the order they first appear; and the
      counts add up to the number of repositories with a language. */
  lemma AnalyzeLanguagesSpec(rs: seq<Repo>)
    ensures forall j, k :: 0 <= j < k < |Items(rs)| ==> Items(rs)[j].0 != Items(rs)[k].0
    ensures SortedDesc(Languages(rs), Count)
    ensures multiset(Languages(rs)) == multiset(Items(rs))
    ensures forall c :: WithKey(Languages(rs), Count, c) == WithKey(Items(rs), Count, c)
    ensures forall l :: l in LanguageOrder(rs) <==> Occurrences(rs, l) > 0
    ensures SumOf(Languages(rs), Count) == WithLanguage(rs)
  {
    SortDescSorted(Items(rs), Count);
    SortDescPermutation(Items(rs), Count);
    forall c ensures WithKey(Languages(rs), Count, c) == WithKey(Items(rs), Count, c) {
      SortDescStable(Items(rs), Count, c);
    }
    LanguageOrderSpec(rs);
    SortDescSum(Items(rs), Count, Count);
    ItemsSum(LanguageOrder(rs), rs);
    CountsSum(rs);
  }

  // extract_topics

  /** The elements of `ts`. */
  function Elements(ts: seq<string>): set<string> {
    set k | 0 <= k < |ts| :: ts[k]
  }

  /** The topics of the repositories of `rs`. */
  function AllTopics(rs: seq<Repo>): set<string>
    decreases |rs|
  {
    if rs == [] then {} else AllTopics(rs[..|rs| - 1]) + Elements(Topics(rs[|rs| - 1]))
  }

  lemma {:induction false} AllTopicsIff(rs: seq<Repo>)
    ensures forall t :: t in AllTopics(rs) <==> exists i :: 0 <= i < |rs| && t in Topics(rs[i])
    decreases |rs|
  {
    if rs != [] {
      var n := |rs| - 1;
      AllTopicsIff(rs[..n]);
      forall t | t in AllTopics(rs) ensures exists i :: 0 <= i < |rs| && t in Topics(rs[i]) {
        if t in AllTopics(rs[..n]) {
          var i :| 0 <= i < n && t in Topics(rs[..n][i]);
          assert rs[..n][i] == rs[i];
        }
      }
      forall t | exists i :: 0 <= i < |rs| && t in Topics(rs[i]) ensures t in AllTopics(rs) {
        var i :| 0 <= i < |rs| && t in Topics(rs[i]);
        if i < n {
          assert rs[..n][i] == rs[i];
        }
      }
    }
  }

  /** `extract_topics`: adds every topic of every repository to a set, then
      sorts the set. */
  method ExtractTopics(repos: seq<Repo>) returns (topics: seq<string>)
    ensures topics == SortedSet(AllTopics(repos))
  {
    var found: set<string> := {};
    for i := 0 to |repos|
      invariant found == AllTopics(repos[..i])
    {
      var ts := Topics(repos[i]);
      for j := 0 to |ts|
        invariant found == AllTopics(repos[..i]) + Elements(ts[..j])
      {
        assert Elements(ts[..j + 1]) == Elements(ts[..j]) + {ts[j]} by {
          assert ts[..j + 1][j] == ts[j];
          forall t | t in Elements(ts[..j + 1]) ensures t in Elements(ts[..j]) + {ts[j]} {
            var k :| 0 <= k < j + 1 && ts[..j + 1][k] == t;
            if k < j {
              assert ts[..j][k] == t;
            }
          }
          forall t | t in Elements(ts[..j]) ensures t in Elements(ts[..j + 1]) {
            var k :| 0 <= k < j && ts[..j][k] == t;
            assert ts[..j + 1][k] == t;
          }
        }
        found := found + {ts[j]};
      }
      assert ts[..|ts|] == ts;
      assert repos[..i + 1][..i] == repos[..i];
    }
    assert repos[..|repos|] == repos;
    topics := SortedSet(found);
  }

  /** `extract_topics` lists every topic of every repository exactly once,
      in strictly increasing order, and nothing else. */
  lemma ExtractTopicsSpec(rs: seq<Repo>)
    ensures StrictlyIncreasing(SortedSet(AllTopics(rs)))
    ensures forall t :: t in SortedSet(AllTopics(rs)) <==> exists i :: 0 <= i < |rs| && t in Topics(rs[i])
  {
    SortedSetSpec(AllTopics(rs));
    AllTopicsIff(rs);
  }

  // generate_knowledge_base

  /** The profile block, each missing field replaced by its default: the
      user name for the name, "" for text, 0 for numbers. */
  datatype ProfileInfo = ProfileInfo(
    username: string,
    name: string,
    bio: string,
    company: string,
    location: string,
    blog: string,
    twitter: string,
    publicRepos: int,
    followers: int,
    following: int)

  datatype Expertise = Expertise(
    primaryLanguages: seq<string>,
    allLanguages: seq<LanguageCount>,
    topics: seq<string>,
    totalRepos: nat,
    totalStars: int)

  /** An entry of `top_projects`. */
  datatype Summary = Summary(
    name: string,
    description: string,
    language: string,
    stars: int,
    topics: seq<string>,
    readmeExcerpt: string)

  /** An entry of `recent_activity`. */
  datatype RecentEntry = RecentEntry(repo: string, description: string, updated: string)

  datatype KnowledgeBase = KnowledgeBase(
    profile: ProfileInfo,
    expertise: Expertise,
    topProjects: seq<Summary>,
    recentActivity: seq<RecentEntry>)

  /** `fetch_readme`: the README of a repository whose fetch succeeded, cut
      to 5000 characters; "" for any other repository. `readmes` maps the
      repositories whose README request answered 200 to the text it
      returned. */
  function FetchReadme(readmes: map<string, string>, name: string): (t: string)
    ensures |t| <= 5000
    ensures name in readmes ==> IsPrefix(t, readmes[name]) && (|readmes[name]| <= 5000 ==> t == readmes[name])
    ensures name in readmes ==> |t| == Min(5000, |readmes[name]|)
    ensures name !in readmes ==> t == ""
  {
    if name in readmes then Take(readmes[name], 5000) else ""
  }

  /** `readme[:1000] if readme else ""`. */
  function Excerpt(readme: string): (e: string)
    ensures |e| <= 1000 && IsPrefix(e, readme)
    ensures |readme| <= 1000 ==> e == readme
    ensures |e| == Min(1000, |readme|)
  {
    if readme != "" then Take(readme, 1000) else ""
  }

  /** The `profile` block: each field of the user record, or its default
      when the record lacks it. */
  function ProfileOf(username: string, p: Profile): (info: ProfileInfo)
    ensures info.username == username
    ensures info.name == (if p.name.Some? then p.name.value else username)
    ensures info.bio == (if p.bio.Some? then p.bio.value else "")
    ensures info.company == (if p.company.Some? then p.company.value else "")
    ensures info.location == (if p.location.Some? then p.location.value else "")
    ensures info.blog == (if p.blog.Some? then p.blog.value else "")
    ensures info.twitter == (if p.twitter.Some? then p.twitter.value else "")
    ensures info.publicRepos == (if p.publicRepos.Some? then p.publicRepos.value else 0)
    ensures info.followers == (if p.followers.Some? then p.followers.value else 0)
    ensures info.following == (if p.following.Some? then p.following.value else 0)
  {
    ProfileInfo(
      username,
      p.name.GetOr(username),
      p.bio.GetOr(""),
      p.company.GetOr(""),
      p.location.GetOr(""),
      p.blog.GetOr(""),
      p.twitter.GetOr(""),
      p.publicRepos.GetOr(0),
      p.followers.GetOr(0),
      p.following.GetOr(0))
  }

  /** `top_repos`: the repositories sorted by stars, most first, cut to 10. */
  function TopRepos(repos: seq<Repo>): seq<Repo> {
    Take(SortDesc(repos, Stars), 10)
  }

  function SummaryOf(r: Repo, readmes: map<string, string>): Summary {
    Summary(r.name, r.description.GetOr(""), r.language.GetOr(""), Stars(r), Topics(r),
            Excerpt(FetchReadme(readmes, r.name)))
  }

  /** `repo_summaries`: the first five of the top repositories. */
  function Summaries(repos: seq<Repo>, readmes: map<string, string>): seq<Summary> {
    var top := Take(TopRepos(repos), 5);
    seq(|top|, k requires 0 <= k < |top| => SummaryOf(top[k], readmes))
  }

  /** `list(languages.keys())[:5]`. */
  function PrimaryLanguages(languages: seq<LanguageCount>): seq<string> {
    var top := Take(languages, 5);
    seq(|top|, k requires 0 <= k < |top| => top[k].0)
  }

  function TotalStars(repos: seq<Repo>): int {
    SumOf(repos, Stars)
  }

  /** `recent_activity`: the first ten repositories as listed. */
  function Recent(repos: seq<Repo>): seq<RecentEntry> {
    var first := Take(repos, 10);
    seq(|first|, k requires 0 <= k < |first| =>
      RecentEntry(first[k].name, first[k].description.GetOr(""), first[k].updatedAt.GetOr("")))
  }

  /** `generate_knowledge_base`, given what the requests returned. */
  function GenerateKnowledgeBase(username: string, profile: Profile, repos: seq<Repo>,
                                 readmes: map<string, string>): (kb: KnowledgeBase)
    ensures kb.profile == ProfileOf(username, profile)
    ensures kb.expertise.allLanguages == Languages(repos)
    ensures kb.expertise.primaryLanguages == PrimaryLanguages(kb.expertise.allLanguages)
    ensures kb.expertise.topics == SortedSet(AllTopics(repos))
    ensures kb.expertise.totalRepos == |repos|
    ensures kb.expertise.totalStars == SumOf(repos, Stars)
    ensures kb.topProjects == Summaries(repos, readmes) && |kb.topProjects| == Min(5, |repos|)
    ensures kb.recentActivity == Recent(repos) && |kb.recentActivity| == Min(10, |repos|)
  {
    SummariesSpec(repos, readmes);
    RecentSpec(repos);
    var languages := Languages(repos);
    KnowledgeBase(
      ProfileOf(username, profile),
      Expertise(PrimaryLanguages(languages), languages, SortedSet(AllTopics(repos)), |repos|, TotalStars(repos)),
      Summaries(repos, readmes),
      Recent(repos))
  }

  /** The top repositories: at most ten, most stars first, drawn from the
      repositories, and with at least as many stars as every repository
      left out. */
  lemma TopReposSpec(repos: seq<Repo>)
    ensures |TopRepos(repos)| == Min(10, |repos|)
    ensures SortedDesc(TopRepos(repos), Stars)
    ensures multiset(TopRepos(repos)) <= multiset(repos)
    ensures forall t, r :: t in TopRepos(repos) && r in multiset(repos) - multiset(TopRepos(repos)) ==>
      Stars(r) <= Stars(t)
  {
    SortDescSorted(repos, Stars);
    SortDescTop(repos, Stars, 10);
  }

  /** The project summaries: one for each of the first five top
      repositories, in the same order, each with an excerpt of at most 1000
      characters taken from the start of that repository's README. */
  lemma SummariesSpec(repos: seq<Repo>, readmes: map<string, string>)
    ensures |Summaries(repos, readmes)| == Min(5, |repos|)
    ensures forall k :: 0 <= k < |Summaries(repos, readmes)| ==>
      && Summaries(repos, readmes)[k].name == TopRepos(repos)[k].name
      && Summaries(repos, readmes)[k].stars == Stars(TopRepos(repos)[k])
    ensures forall j, k :: 0 <= j < k < |Summaries(repos, readmes)| ==>
      Summaries(repos, readmes)[j].stars >= Summaries(repos, readmes)[k].stars
    ensures forall k :: 0 <= k < |Summaries(repos, readmes)| ==>
      && |Summaries(repos, readmes)[k].readmeExcerpt| <= 1000
      && (TopRepos(repos)[k].name !in readmes ==> Summaries(repos, readmes)[k].readmeExcerpt == "")
      && (TopRepos(repos)[k].name in readmes ==>
            IsPrefix(Summaries(repos, readmes)[k].readmeExcerpt, readmes[TopRepos(repos)[k].name]))
      && (TopRepos(repos)[k].name in readmes ==>
            |Summaries(repos, readmes)[k].readmeExcerpt| == Min(1000, |readmes[TopRepos(repos)[k].name]|))
  {
    TopReposSpec(repos);
    var top := TopRepos(repos);
    var s := Summaries(repos, readmes);
    forall k | 0 <= k < |s|
      ensures TopRepos(repos)[k].name in readmes ==>
        IsPrefix(s[k].readmeExcerpt, readmes[TopRepos(repos)[k].name])
    {
      var raw := FetchReadme(readmes, top[k].name);
      if top[k].name in readmes {
        PrefixTransitive(s[k].readmeExcerpt, raw, readmes[top[k].name]);
      }
    }
  }

  lemma PrefixTransitive(a: string, b: string, c: string)
    requires IsPrefix(a, b) && IsPrefix(b, c)
    ensures IsPrefix(a, c)
  {
    assert c[..|a|] == c[..|b|][..|a|];
  }

  /** The primary languages are the at most five languages with the most
      repositories: each occurs, and each has at least as many repositories
      as any language of the repositories that is not among them. */
  lemma PrimaryLanguagesSpec(repos: seq<Repo>)
    ensures |PrimaryLanguages(Languages(repos))| == Min(5, |LanguageOrder(repos)|)
    ensures forall l :: l in PrimaryLanguages(Languages(repos)) ==> Occurrences(repos, l) > 0
    ensures forall l, m ::
      l in PrimaryLanguages(Languages(repos)) && Occurrences(repos, m) > 0 && m !in PrimaryLanguages(Languages(repos)) ==>
        Occurrences(repos, m) <= Occurrences(repos, l)
  {
    var items := Items(repos);
    var primary := PrimaryLanguages(Languages(repos));
    AnalyzeLanguagesSpec(repos);
    PrimaryPairs(items);
    forall l | l in primary
      ensures Occurrences(repos, l) > 0
    {
      var i :| 0 <= i < |items| && items[i] == (l, PairCount(items, l));
    }
    forall l, m | l in primary && Occurrences(repos, m) > 0 && m !in primary
      ensures Occurrences(repos, m) <= Occurrences(repos, l)
    {
      var i :| 0 <= i < |LanguageOrder(repos)| && LanguageOrder(repos)[i] == m;
      assert items[i] == (m, Occurrences(repos, m));
      var j :| 0 <= j < |items| && items[j] == (l, PairCount(items, l));
      assert items[j] == (LanguageOrder(repos)[j], Occurrences(repos, LanguageOrder(repos)[j]));
    }
  }

  /** The count paired with `l` in `items`, 0 when there is none. */
  function PairCount(items: seq<LanguageCount>, l: string): nat {
    if items == [] then 0 else if items[0].0 == l then items[0].1 else PairCount(items[1..], l)
  }

  lemma {:induction false} PairCountAt(items: seq<LanguageCount>, i: nat)
    requires i < |items|
    requires forall j, k :: 0 <= j < k < |items| ==> items[j].0 != items[k].0
    ensures PairCount(items, items[i].0) == items[i].1
    decreases i
  {
    if i > 0 {
      assert items[0].0 != items[i].0;
      PairCountAt(items[1..], i - 1);
    }
  }

  /** Over items with distinct keys: every key among the first five of the
      sorted items is an item, and its count is at least that of every
      key left out. */
  lemma PrimaryPairs(items: seq<LanguageCount>)
    requires forall j, k :: 0 <= j < k < |items| ==> items[j].0 != items[k].0
    ensures |PrimaryLanguages(SortDesc(items, Count))| == Min(5, |items|)
    ensures forall l :: l in PrimaryLanguages(SortDesc(items, Count)) ==>
      exists i :: 0 <= i < |items| && items[i] == (l, PairCount(items, l))
    ensures forall l, i ::
      l in PrimaryLanguages(SortDesc(items, Count)) && 0 <= i < |items| && items[i].0 !in PrimaryLanguages(SortDesc(items, Count)) ==>
        items[i].1 <= PairCount(items, l)
  {
    var top := Take(SortDesc(items, Count), 5);
    var primary := PrimaryLanguages(SortDesc(items, Count));
    SortDescTop(items, Count, 5);
    forall l | l in primary
      ensures exists i :: 0 <= i < |items| && items[i] == (l, PairCount(items, l))
    {
      var k :| 0 <= k < |primary| && primary[k] == l;
      PrimaryItem(items, top, primary, k);
    }
    forall l, i | l in primary && 0 <= i < |items| && items[i].0 !in primary
      ensures items[i].1 <= PairCount(items, l)
    {
      var k :| 0 <= k < |primary| && primary[k] == l;
      PrimaryItem(items, top, primary, k);
      LeftOut(items, top, primary, i);
      assert top[k] in top;
      assert Count(items[i]) <= Count(top[k]);
    }
  }

  lemma PrimaryItem(items: seq<LanguageCount>, top: seq<LanguageCount>, primary: seq<string>, k: nat)
    requires forall j, k :: 0 <= j < k < |items| ==> items[j].0 != items[k].0
    requires multiset(top) <= multiset(items)
    requires |primary| == |top| && forall k :: 0 <= k < |top| ==> primary[k] == top[k].0
    requires k < |top|
    ensures top[k] == (primary[k], PairCount(items, primary[k]))
    ensures exists i :: 0 <= i < |items| && items[i] == top[k]
  {
    assert top[k] in multiset(top);
    assert top[k] in multiset(items);
    var i :| 0 <= i < |items| && items[i] == top[k];
    PairCountAt(items, i);
  }

  lemma LeftOut(items: seq<LanguageCount>, top: seq<LanguageCount>, primary: seq<string>, i: nat)
    requires |primary| == |top| && forall k :: 0 <= k < |top| ==> primary[k] == top[k].0
    requires i < |items| && items[i].0 !in primary
    ensures items[i] in multiset(items) - multiset(top)
  {
    var r := items[i];
    assert multiset(top)[r] == 0;
    assert r in multiset(items);
  }

  /** `total_repos` counts every repository and `total_stars` adds up all
      their stars, whatever their order; with no negative counts the
      total is at least the stars of the top repositories. */
  lemma TotalsSpec(username: string, profile: Profile, repos: seq<Repo>, readmes: map<string, string>)
    ensures GenerateKnowledgeBase(username, profile, repos, readmes).expertise.totalRepos == |repos|
    ensures GenerateKnowledgeBase(username, profile, repos, readmes).expertise.totalStars
      == SumOf(SortDesc(repos, Stars), Stars)
    ensures (forall r :: r in repos ==> Stars(r) >= 0) ==>
      SumOf(TopRepos(repos), Stars) <= GenerateKnowledgeBase(username, profile, repos, readmes).expertise.totalStars
  {
    SortDescSum(repos, Stars, Stars);
    var d := SortDesc(repos, Stars);
    var top := TopRepos(repos);
    assert d == top + d[|top|..];
    SumOfAppend(top, d[|top|..], Stars);
    if forall r :: r in repos ==> Stars(r) >= 0 {
      SortDescPermutation(repos, Stars);
      forall r | r in d[|top|..] ensures Stars(r) >= 0 {
        assert r in multiset(d);
      }
      SumOfNonNegative(d[|top|..], Stars);
    }
  }

  lemma {:induction false} SumOfAppend<T>(a: seq<T>, b: seq<T>, f: T -> int)
    ensures SumOf(a + b, f) == SumOf(a, f) + SumOf(b, f)
    decreases |a|
  {
    if a == [] {
      assert a + b == b;
    } else {
      SumOfAppend(a[1..], b, f);
      assert (a + b)[1..] == a[1..] + b;
    }
  }

  lemma {:induction false} SumOfNonNegative<T>(s: seq<T>, f: T -> int)
    requires forall x :: x in s ==> f(x) >= 0
    ensures SumOf(s, f) >= 0
    decreases |s|
  {
    if s != [] {
      assert s[0] in s;
      forall x | x in s[1..] ensures f(x) >= 0 {
        assert x in s;
      }
      SumOfNonNegative(s[1..], f);
    }
  }

  /** `recent_activity`: the first ten repositories, in their order. */
  lemma RecentSpec(repos: seq<Repo>)
    ensures |Recent(repos)| == Min(10, |repos|)
    ensures forall k :: 0 <= k < |Recent(repos)| ==> Recent(repos)[k].repo == repos[k].name
  {
  }

  // generate_system_prompt

  /** The projects with a non-empty description, in order. */
  function Described(ps: seq<Summary>): seq<Summary> {
    if ps == [] then []
    else (if ps[0].description != "" then [ps[0]] else []) + Described(ps[1..])
  }

  /** Python's `str(n)`. */
  function DecimalString(n: int): (s: string)
    ensures s != []
    ensures forall i :: 0 <= i < |s| ==> s[i] == '-' || '0' <= s[i] <= '9'
    decreases if n < 0 then 1 - n else n
  {
    if n < 0 then "-" + DecimalString(-n)
    else if n < 10 then [Calendar.DigitChar(n)]
    else DecimalString(n / 10) + [Calendar.DigitChar(n % 10)]
  }

  /** A non-negative number prints as decimal digits that read back as it. */
  lemma {:induction false} DecimalStringRoundTrip(n: nat)
    ensures forall i :: 0 <= i < |DecimalString(n)| ==> '0' <= DecimalString(n)[i] <= '9'
    ensures Calendar.DigitsValue(DecimalString(n)) == n
    ensures |DecimalString(n)| == 1 || DecimalString(n)[0] != '0'
    decreases n
  {
    var s := DecimalString(n);
    if n >= 10 {
      DecimalStringRoundTrip(n / 10);
      var p := DecimalString(n / 10);
      assert s[..|s| - 1] == p;
      assert s[0] == p[0];
    }
  }

  /** The line of one project: name, description, language and stars. */
  function ProjectLine(p: Summary): (l: string)
    ensures IsPrefix("- **" + p.name + "**: ", l)
    ensures ('\n' !in p.name && '\n' !in p.description && '\n' !in p.language) ==> '\n' !in l
  {
    var l := "- **" + p.name + "**: " + p.description + " (" + p.language + ", " + DecimalString(p.stars) + " stars)";
    assert l[..|"- **" + p.name + "**: "|] == "- **" + p.name + "**: ";
    l
  }

  /** `project_text`: a line for each described project. */
  function ProjectText(ps: seq<Summary>): string {
    Join(DescribedLines(ps), "\n")
  }

  /** The lines of `project_text`, one per described project. */
  function DescribedLines(ps: seq<Summary>): seq<string> {
    var d := Described(ps);
    seq(|d|, k requires 0 <= k < |d| => ProjectLine(d[k]))
  }

  /** When no name, description or language holds a line break, the
      project text splits back into one line per described project, in
      order, each opening with that project's name. */
  lemma ProjectTextLines(ps: seq<Summary>)
    requires forall p :: p in ps ==> '\n' !in p.name && '\n' !in p.description && '\n' !in p.language
    requires exists p :: p in ps && p.description != ""
    ensures |Split(ProjectText(ps), '\n')| == |Described(ps)|
    ensures forall k :: 0 <= k < |Described(ps)| ==>
      && Split(ProjectText(ps), '\n')[k] == ProjectLine(Described(ps)[k])
      && IsPrefix("- **" + Described(ps)[k].name + "**: ", Split(ProjectText(ps), '\n')[k])
  {
    DescribedSpec(ps);
    var lines := DescribedLines(ps);
    forall k | 0 <= k < |lines| ensures '\n' !in lines[k] {
      assert Described(ps)[k] in Described(ps);
    }
    assert Described(ps) != [] by {
      var p :| p in ps && p.description != "";
      assert p in Described(ps);
    }
    SplitJoin(lines, '\n');
  }

  /** The topics in the prompt: `topics[:15]`. */
  function PromptTopics(topics: seq<string>): seq<string> {
    Take(topics, 15)
  }

  /** Exactly the projects with a description are listed. */
  lemma {:induction false} DescribedSpec(ps: seq<Summary>)
    ensures forall p :: p in Described(ps) <==> p in ps && p.description != ""
    ensures |Described(ps)| <= |ps|
    ensures (forall p :: p in ps ==> p.description != "") ==> Described(ps) == ps
    decreases |ps|
  {
    if ps != [] {
      DescribedSpec(ps[1..]);
      assert ps == [ps[0]] + ps[1..];
      if forall p :: p in ps ==> p.description != "" {
        assert forall p :: p in ps[1..] ==> p in ps;
      }
    }
  }

  /** The project text is empty exactly when no project has a
      description. */
  lemma ProjectTextEmpty(ps: seq<Summary>)
    ensures ProjectText(ps) == "" <==> forall p :: p in ps ==> p.description == ""
  {
    DescribedSpec(ps);
    var d := Described(ps);
    if d != [] {
      assert ProjectText(ps)[0] == '-';
    }
  }

  /** The topics in the prompt are the first fifteen in sorted order: each
      is smaller than every topic left out. */
  lemma PromptTopicsSmallest(repos: seq<Repo>)
    ensures |PromptTopics(SortedSet(AllTopics(repos)))| == Min(15, |AllTopics(repos)|)
    ensures forall t, u ::
      t in PromptTopics(SortedSet(AllTopics(repos))) && u in AllTopics(repos) && u !in PromptTopics(SortedSet(AllTopics(repos))) ==>
        StrLess(t, u)
  {
    var sorted := SortedSet(AllTopics(repos));
    var shown := PromptTopics(sorted);
    SortedSetSpec(AllTopics(repos));
    forall t, u | t in shown && u in AllTopics(repos) && u !in shown
      ensures StrLess(t, u)
    {
      var i :| 0 <= i < |shown| && shown[i] == t;
      var j :| 0 <= j < |sorted| && sorted[j] == u;
    }
  }
}
