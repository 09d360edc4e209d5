/** The parts of scripts/ai_update.py that do not talk to a service: the
    summary of recent events handed to the language model, and the
    classification of the current project from the names of recently
    active repositories. */
module AiUpdate {

  import opened Text
  import opened GitHubRecords

  // generate_ai_status: the activity summary

  /** Only this many events are summarised. */
  const SummaryEvents: nat := 5

  /** The summary used when there are no events. */
  const FallbackSummary: string := "- Recent focus on AI and blockchain development"

  /** One summary line: `- <type> in <repo>` and a newline, both fields
      defaulting to "". */
  function SummaryLine(e: Event): (line: string)
    ensures |line| > 0 && line[|line| - 1] == '\n'
  {
    "- " + e.kind.GetOr("") + " in " + e.repoName.GetOr("") + "\n"
  }

  /** The lines of `es`, one after another. */
  function Lines(es: seq<Event>): string
    decreases |es|
  {
    if es == [] then "" else Lines(es[..|es| - 1]) + SummaryLine(es[|es| - 1])
  }

  /** The summary: the lines of the first five events, or the fallback when
      they add up to nothing. */
  function ActivitySummary(events: seq<Event>): string {
    var s := Lines(Take(events, SummaryEvents));
    if s == "" then FallbackSummary else s
  }

  /** The loop of `generate_ai_status` that builds the summary. */
  method BuildActivitySummary(activity: seq<Event>) returns (summary: string)
    ensures summary == ActivitySummary(activity)
  {
    var first := Take(activity, SummaryEvents);
    summary := "";
    for i := 0 to |first|
      invariant summary == Lines(first[..i])
    {
      var event := first[i];
      var eventType := event.kind.GetOr("");
      var repoName := event.repoName.GetOr("");
      assert first[..i + 1][..i] == first[..i];
      summary := summary + "- " + eventType + " in " + repoName + "\n";
    }
    assert first[..|first|] == first;
    if summary == "" {
      summary := FallbackSummary;
    }
  }

  /** The number of newlines in `s`. */
  function Newlines(s: string): nat
    decreases |s|
  {
    if s == [] then 0 else Newlines(s[..|s| - 1]) + (if s[|s| - 1] == '\n' then 1 else 0)
  }

  lemma {:induction false} NewlinesAppend(a: string, b: string)
    ensures Newlines(a + b) == Newlines(a) + Newlines(b)
    decreases |b|
  {
    if b == [] {
      assert a + b == a;
    } else {
      NewlinesAppend(a, b[..|b| - 1]);
      assert (a + b)[..|a + b| - 1] == a + b[..|b| - 1];
    }
  }

  /** An event whose type and repository name hold no newline. */
  predicate OneLine(e: Event) {
    '\n' !in e.kind.GetOr("") && '\n' !in e.repoName.GetOr("")
  }

  lemma SummaryLineNewlines(e: Event)
    requires OneLine(e)
    ensures Newlines(SummaryLine(e)) == 1
  {
    var k, r := e.kind.GetOr(""), e.repoName.GetOr("");
    NoNewlines(k);
    NoNewlines(r);
    NoNewlines("- ");
    NoNewlines(" in ");
    NewlinesAppend("- ", k);
    NewlinesAppend("- " + k, " in ");
    NewlinesAppend("- " + k + " in ", r);
    NewlinesAppend("- " + k + " in " + r, "\n");
    assert Newlines("\n") == Newlines("") + 1;
  }

  lemma {:induction false} NoNewlines(s: string)
    requires '\n' !in s
    ensures Newlines(s) == 0
    decreases |s|
  {
    if s != [] {
      assert forall c :: c in s[..|s| - 1] ==> c in s;
      NoNewlines(s[..|s| - 1]);
    }
  }

  /** With no newline inside the fields, the lines hold one newline per
      event. */
  lemma {:induction false} LinesNewlines(es: seq<Event>)
    requires forall i :: 0 <= i < |es| ==> OneLine(es[i])
    ensures Newlines(Lines(es)) == |es|
    decreases |es|
  {
    if es != [] {
      var n := |es| - 1;
      LinesNewlines(es[..n]);
      SummaryLineNewlines(es[n]);
      NewlinesAppend(Lines(es[..n]), SummaryLine(es[n]));
    }
  }

  lemma {:induction false} LinesEmpty(es: seq<Event>)
    ensures Lines(es) == "" <==> es == []
    ensures es != [] ==> Lines(es)[|Lines(es)| - 1] == '\n'
  {
    if es != [] {
      var n := |es| - 1;
      var l := SummaryLine(es[n]);
      assert Lines(es) == Lines(es[..n]) + l;
      assert Lines(es)[|Lines(es)| - 1] == l[|l| - 1];
    }
  }

  /** The summary is the fallback exactly when there are no events;
      otherwise it ends with a newline, and, when no field holds a
      newline, has one line for each of the first five events. */
  lemma ActivitySummarySpec(events: seq<Event>)
    ensures ActivitySummary(events) == FallbackSummary <==> events == []
    ensures events != [] ==> ActivitySummary(events)[|ActivitySummary(events)| - 1] == '\n'
    ensures (forall i :: 0 <= i < |events| ==> OneLine(events[i])) ==>
      events != [] ==> Newlines(ActivitySummary(events)) == Min(SummaryEvents, |events|)
  {
    var first := Take(events, SummaryEvents);
    LinesEmpty(first);
    var n := |FallbackSummary| - 1;
    assert FallbackSummary[n] == 't';
    if forall i :: 0 <= i < |events| ==> OneLine(events[i]) {
      LinesNewlines(first);
    }
  }

  /** Line `k` of the summary, without its line break. */
  function SummaryBody(e: Event): string {
    "- " + e.kind.GetOr("") + " in " + e.repoName.GetOr("")
  }

  /** The lines, read from the front: the first event's line comes first. */
  lemma {:induction false} LinesCons(es: seq<Event>)
    requires es != []
    ensures Lines(es) == SummaryLine(es[0]) + Lines(es[1..])
    decreases |es|
  {
    var n := |es| - 1;
    if n > 0 {
      LinesCons(es[..n]);
      assert es[..n][1..] == es[1..][..n - 1];
      assert es[1..][n - 1] == es[n];
    }
  }

  /** Split at line breaks, the lines give back each event's line, then
      the empty piece after the final line break. */
  lemma {:induction false} SplitLines(es: seq<Event>)
    requires forall i :: 0 <= i < |es| ==> OneLine(es[i])
    ensures Split(Lines(es), '\n') == seq(|es|, k requires 0 <= k < |es| => SummaryBody(es[k])) + [""]
    decreases |es|
  {
    if es != [] {
      var rest := es[1..];
      LinesCons(es);
      SplitLines(rest);
      var b := SummaryBody(es[0]);
      assert '\n' !in b by {
        assert OneLine(es[0]);
        forall i | 0 <= i < |b| ensures b[i] != '\n' {
          var k, r := es[0].kind.GetOr(""), es[0].repoName.GetOr("");
          if 2 <= i < 2 + |k| {
            assert b[i] == k[i - 2];
          } else if 6 + |k| <= i {
            assert b[i] == r[i - 6 - |k|];
          }
        }
      }
      assert SummaryLine(es[0]) + Lines(rest) == b + ['\n'] + Lines(rest);
      SplitAfter(b, '\n', Lines(rest));
    }
  }

  /** The summary of at least one event is, line by line, `- <type> in
      <repo>` for each of the first five events in order, followed by the
      empty piece after the last line break. */
  lemma ActivitySummaryLines(events: seq<Event>)
    requires forall i :: 0 <= i < Min(SummaryEvents, |events|) ==> OneLine(events[i])
    ensures events != [] ==>
      Split(ActivitySummary(events), '\n') ==
        seq(Min(SummaryEvents, |events|), k requires 0 <= k < Min(SummaryEvents, |events|) =>
          "- " + events[k].kind.GetOr("") + " in " + events[k].repoName.GetOr("")) + [""]
  {
    if events != [] {
      var first := Take(events, SummaryEvents);
      LinesEmpty(first);
      assert ActivitySummary(events) == Lines(first);
      SplitLines(first);
    }
  }

  // get_current_project

  /** A project type and the keywords that mark a repository as one. */
  datatype Category = Category(name: string, keywords: seq<string>)

  /** The `projects` dict, in its order. */
  const Categories: seq<Category> := [
    Category("ai", ["ai", "neural", "machine-learning", "gpt", "llm", "transformer"]),
    Category("blockchain", ["crypto", "web3", "solidity", "ethereum", "defi"]),
    Category("automation", ["automation", "bot", "workflow", "ci", "devops"]),
    Category("agentic", ["agent", "autonomous", "agentic", "multi-agent"])
  ]

  /** The answer when no repository matches. */
  const NoMatch: string := "LEVEL 5 SYSTEMS"

  /** Only this many events are looked at. */
  const ClassifiedEvents: nat := 10

  /** The lower-cased repository name of an event, "" when it has none. */
  function RepoName(e: Event): string {
    Lower(e.repoName.GetOr(""))
  }

  /** `recent_repos`. */
  function RecentRepos(events: seq<Event>): (rs: seq<string>)
    ensures |rs| == Min(ClassifiedEvents, |events|)
    ensures forall k :: 0 <= k < |rs| ==> rs[k] == Lower(events[k].repoName.GetOr(""))
  {
    var first := Take(events, ClassifiedEvents);
    seq(|first|, k requires 0 <= k < |first| => RepoName(first[k]))
  }

  /** `any(keyword in repo for keyword in keywords)`. */
  predicate MatchesAny(keywords: seq<string>, repo: string) {
    exists k :: 0 <= k < |keywords| && Contains(repo, keywords[k])
  }

  /** Some repository of `repos` matches the category. */
  predicate Hit(c: Category, repos: seq<string>) {
    exists r :: 0 <= r < |repos| && MatchesAny(c.keywords, repos[r])
  }

  /** The upper-cased name of the first category any repository matches. */
  function Classify(cats: seq<Category>, repos: seq<string>): string
    decreases |cats|
  {
    if cats == [] then NoMatch
    else if Hit(cats[0], repos) then Upper(cats[0].name)
    else Classify(cats[1..], repos)
  }

  function CurrentProject(events: seq<Event>): string {
    Classify(Categories, RecentRepos(events))
  }

  /** `get_current_project`, given the fetched events: collects the
      lower-cased names of the first ten events' repositories, then tries
      the categories in order, and each category on every repository. */
  method GetCurrentProject(activity: seq<Event>) returns (project: string)
    ensures project == CurrentProject(activity)
  {
    var first := Take(activity, ClassifiedEvents);
    var recentRepos: seq<string> := [];
    for i := 0 to |first|
      invariant recentRepos == seq(i, k requires 0 <= k < i => RepoName(first[k]))
    {
      var repoName := Lower(first[i].repoName.GetOr(""));
      recentRepos := recentRepos + [repoName];
    }
    assert recentRepos == RecentRepos(activity);
    for c := 0 to |Categories|
      invariant Classify(Categories, recentRepos) == Classify(Categories[c..], recentRepos)
    {
      var category := Categories[c];
      for r := 0 to |recentRepos|
        invariant forall j :: 0 <= j < r ==> !MatchesAny(category.keywords, recentRepos[j])
      {
        if MatchesAny(category.keywords, recentRepos[r]) {
          assert Hit(category, recentRepos);
          return Upper(category.name);
        }
      }
      assert Categories[c..][1..] == Categories[c + 1..];
    }
    project := NoMatch;
  }

  /** The first category that some repository hits. */
  predicate FirstHit(cats: seq<Category>, repos: seq<string>, i: nat) {
    && i < |cats|
    && Hit(cats[i], repos)
    && forall j :: 0 <= j < i ==> !Hit(cats[j], repos)
  }

  /** The result is the first hit category's upper-cased name. */
  lemma {:induction false} ClassifyFirstHit(cats: seq<Category>, repos: seq<string>, i: nat)
    requires FirstHit(cats, repos, i)
    ensures Classify(cats, repos) == Upper(cats[i].name)
    decreases i
  {
    if i > 0 {
      assert !Hit(cats[0], repos);
      assert FirstHit(cats[1..], repos, i - 1) by {
        forall j | 0 <= j < i - 1 ensures !Hit(cats[1..][j], repos) {
          assert cats[1..][j] == cats[j + 1];
        }
      }
      ClassifyFirstHit(cats[1..], repos, i - 1);
    }
  }

  /** The result is the fallback when no category is hit, and otherwise
      some category is hit first. */
  lemma {:induction false} ClassifyCases(cats: seq<Category>, repos: seq<string>)
    ensures (forall i :: 0 <= i < |cats| ==> !Hit(cats[i], repos)) ==> Classify(cats, repos) == NoMatch
    ensures Classify(cats, repos) == NoMatch || exists i: nat :: FirstHit(cats, repos, i)
    decreases |cats|
  {
    if cats != [] {
      ClassifyCases(cats[1..], repos);
      if Hit(cats[0], repos) {
        assert FirstHit(cats, repos, 0);
      } else {
        if forall i :: 0 <= i < |cats| ==> !Hit(cats[i], repos) {
          assert forall i :: 0 <= i < |cats[1..]| ==> cats[1..][i] == cats[i + 1];
        }
        if Classify(cats, repos) != NoMatch {
          var i: nat :| FirstHit(cats[1..], repos, i);
          assert cats[1..][i] == cats[i + 1];
          assert forall j :: 0 <= j < i ==> cats[1..][j] == cats[j + 1];
          assert FirstHit(cats, repos, i + 1);
        }
      }
    }
  }

  /** The four labels. */
  lemma CategoryLabels()
    ensures Upper(Categories[0].name) == "AI"
    ensures Upper(Categories[1].name) == "BLOCKCHAIN"
    ensures Upper(Categories[2].name) == "AUTOMATION"
    ensures Upper(Categories[3].name) == "AGENTIC"
  {
    assert Upper("ai") == "AI";
    assert Upper("blockchain") == "BLOCKCHAIN";
    assert Upper("automation") == "AUTOMATION";
    assert Upper("agentic") == "AGENTIC";
  }

  /** The project is always one of five labels: the first category, in the
      order ai, blockchain, automation, agentic, that matches one of the
      recent repositories, whichever repository it is; "LEVEL 5 SYSTEMS"
      exactly when none matches. */
  lemma CurrentProjectSpec(events: seq<Event>)
    ensures CurrentProject(events) in {"AI", "BLOCKCHAIN", "AUTOMATION", "AGENTIC", NoMatch}
    ensures forall i: nat :: FirstHit(Categories, RecentRepos(events), i) ==>
      CurrentProject(events) == Upper(Categories[i].name)
    ensures CurrentProject(events) == NoMatch <==>
      forall i :: 0 <= i < |Categories| ==> !Hit(Categories[i], RecentRepos(events))
  {
    var repos := RecentRepos(events);
    ClassifyCases(Categories, repos);
    forall i: nat | FirstHit(Categories, repos, i)
      ensures CurrentProject(events) == Upper(Categories[i].name)
    {
      ClassifyFirstHit(Categories, repos, i);
    }
    CategoryLabels();
    if CurrentProject(events) != NoMatch {
      var i: nat :| FirstHit(Categories, repos, i);
      ClassifyFirstHit(Categories, repos, i);
      assert i < 4;
    }
  }

  /** Events after the tenth do not matter. */
  lemma OnlyFirstTen(events: seq<Event>, later: seq<Event>)
    requires |events| >= ClassifiedEvents
    ensures CurrentProject(events + later) == CurrentProject(events)
  {
    assert Take(events + later, ClassifiedEvents) == Take(events, ClassifiedEvents);
  }

  /** Matching ignores case: two event lists whose repository names agree
      once lower-cased give the same project. */
  lemma CaseInsensitive(events: seq<Event>, others: seq<Event>)
    requires |events| == |others|
    requires forall i :: 0 <= i < |events| ==>
      Lower(events[i].repoName.GetOr("")) == Lower(others[i].repoName.GetOr(""))
    ensures CurrentProject(events) == CurrentProject(others)
  {
    assert RecentRepos(events) == RecentRepos(others);
  }

  /** A repository named "OpenAI-Tools" makes the project AI: its name is
      lower-cased before matching, so "AI" matches the keyword "ai". */
  lemma UpperCaseNameMatches(e: Event)
    requires e.repoName == Some("OpenAI-Tools")
    ensures CurrentProject([e]) == "AI"
  {
    var repos := RecentRepos([e]);
    var name := Lower("OpenAI-Tools");
    assert repos[0] == name;
    assert name[4] == 'a' && name[5] == 'i';
    assert OccursAt(name, "ai", 4) by {
      assert name[4..6] == "ai";
    }
    ContainsIff(name, "ai");
    assert Categories[0].keywords[0] == "ai";
    assert MatchesAny(Categories[0].keywords, repos[0]);
    assert FirstHit(Categories, repos, 0);
    ClassifyFirstHit(Categories, repos, 0);
    CategoryLabels();
  }

  /** With no events, no repository matches. */
  lemma NoEvents()
    ensures CurrentProject([]) == NoMatch
  {
    ClassifyCases(Categories, []);
  }

  /** Matching is substring containment: "ai" matches inside "email", so
      a repository named "email" makes the project AI. */
  lemma SubstringMatch(repos: seq<string>)
    requires "email" in repos
    ensures Classify(Categories, repos) == "AI"
  {
    assert Contains("email", "ai") by {
      assert Contains("ail", "ai") by {
        assert "ail"[..2] == "ai";
      }
      assert "email"[1..][1..] == "ail";
    }
    var r :| 0 <= r < |repos| && repos[r] == "email";
    assert Categories[0].keywords[0] == "ai";
    assert MatchesAny(Categories[0].keywords, repos[r]);
    assert Hit(Categories[0], repos);
    CategoryLabels();
  }
}
