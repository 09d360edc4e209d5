/** The live-terminal view of scripts/generate_terminal.py: each GitHub event
    becomes a shell-style command and a colour name, the "recent activity"
    section shows at most eight distinct commands, and the picture grows
    taller than its configured height only when the lines need it. */
module Terminal {

  import opened Text
  import opened GitHubRecords

  // Configuration (TERMINAL_CONFIG)

  const TextColor: string := "#c9d1d9"
  const PromptColor: string := "#58a6ff"
  const SuccessColor: string := "#3fb950"
  const WarningColor: string := "#d29922"
  const ErrorColor: string := "#f85149"
  const AccentColor: string := "#bc8cff"
  const CommentColor: string := "#8b949e"

  /** The configured picture height and the height of one line, in pixels. */
  const Height: int := 480
  const LineHeight: int := 22

  // format_event

  /** The event types `format_event` tells apart. */
  datatype EventKind = PushKind | CreateKind | PullRequestKind | IssuesKind
    | WatchKind | ForkKind | DeleteKind | OtherKind

  /** The kind of an event's `type` string. */
  function KindOf(kind: string): EventKind {
    if kind == "PushEvent" then PushKind
    else if kind == "CreateEvent" then CreateKind
    else if kind == "PullRequestEvent" then PullRequestKind
    else if kind == "IssuesEvent" then IssuesKind
    else if kind == "WatchEvent" then WatchKind
    else if kind == "ForkEvent" then ForkKind
    else if kind == "DeleteEvent" then DeleteKind
    else OtherKind
  }

  /** Each of the seven type names has its own kind; every other string,
      the empty one included, is OtherKind. */
  lemma KindOfNames(kind: string)
    ensures KindOf("PushEvent") == PushKind && KindOf("CreateEvent") == CreateKind
    ensures KindOf("PullRequestEvent") == PullRequestKind && KindOf("IssuesEvent") == IssuesKind
    ensures KindOf("WatchEvent") == WatchKind && KindOf("ForkEvent") == ForkKind
    ensures KindOf("DeleteEvent") == DeleteKind
    ensures KindOf(kind) == OtherKind <==>
      kind !in ["PushEvent", "CreateEvent", "PullRequestEvent", "IssuesEvent", "WatchEvent", "ForkEvent", "DeleteEvent"]
  {
  }

  /** `type_colors.get(event_type, "text")`: the colour name of each event
      type. */
  function KindColor(k: EventKind): (c: string)
    ensures c in {"success", "accent", "warning", "error", "text"}
    ensures c == "text" <==> k == OtherKind
  {
    match k
    case PushKind => "success"
    case CreateKind => "accent"
    case PullRequestKind => "warning"
    case IssuesKind => "error"
    case WatchKind => "accent"
    case ForkKind => "success"
    case DeleteKind => "error"
    case OtherKind => "text"
  }

  /** A command line and the name of its colour. */
  datatype Shown = Shown(cmd: string, color: string)

  /** The repository shown: the part of `repo.name` after its last '/', or
      "unknown" when the event names no repository. */
  function ShownRepo(e: Event): (r: string)
    ensures '/' !in r
    ensures e.repoName.Some? ==> |r| <= |e.repoName.value| && r == e.repoName.value[|e.repoName.value| - |r|..]
    ensures e.repoName.Some? ==> |r| == |e.repoName.value| || e.repoName.value[|e.repoName.value| - |r| - 1] == '/'
    ensures e.repoName.None? ==> r == "unknown"
  {
    LastSegment(e.repoName.GetOr("unknown"), '/')
  }

  function Quoted(s: string): string {
    "\"" + s + "\""
  }

  /** The first line of a commit message, cut to 50 characters. */
  function CommitSubject(c: Commit): (m: string)
    ensures |m| <= 50 && '\n' !in m
    ensures IsPrefix(m, c.message.GetOr(""))
    ensures IsPrefix(m, FirstLine(c.message.GetOr(""))) && |m| == Min(50, |FirstLine(c.message.GetOr(""))|)
  {
    Take(FirstLine(c.message.GetOr("")), 50)
  }

  /** A title cut to 40 characters. */
  function ShortTitle(title: Option<string>): (t: string)
    ensures |t| <= 40 && IsPrefix(t, title.GetOr(""))
    ensures |title.GetOr("")| <= 40 ==> t == title.GetOr("")
    ensures |t| == Min(40, |title.GetOr("")|)
  {
    Take(title.GetOr(""), 40)
  }

  /** The kind of an event, its `type` defaulting to "". */
  function EventKindOf(e: Event): EventKind {
    KindOf(e.kind.GetOr(""))
  }

  /** `format_event`: the command and colour name shown for an event. */
  function FormatEvent(e: Event): (out: Shown)
    ensures out.cmd != ""
    ensures out.color != "text"
  {
    var k := EventKindOf(e);
    var repo := ShownRepo(e);
    var p := e.payload;
    var color := KindColor(k);
    match k
    case PushKind =>
      var commits := p.commits.GetOr([]);
      if commits != [] then Shown("git commit -m " + Quoted(CommitSubject(commits[0])), color)
      else Shown("git push origin " + repo, color)
    case CreateKind =>
      if p.refType.GetOr("repository") == "repository" then Shown("git init " + repo, color)
      else Shown("git checkout -b " + p.ref.GetOr(""), color)
    case PullRequestKind =>
      Shown("gh pr " + p.action.GetOr("opened") + ": " + Quoted(ShortTitle(p.prTitle)), color)
    case IssuesKind =>
      Shown("gh issue " + p.action.GetOr("opened") + ": " + Quoted(ShortTitle(p.issueTitle)), color)
    case WatchKind => Shown("gh repo star " + repo, color)
    case ForkKind => Shown("gh repo fork " + repo, color)
    case _ => Shown("# Activity in " + repo, "comment")
  }

  /** A push shows its first commit's subject line, cut to 50 characters,
      or a push of the repository when it carries no commits; either way in
      the "success" colour. */
  lemma PushEventShown(e: Event)
    requires EventKindOf(e) == PushKind
    ensures FormatEvent(e).color == "success"
    ensures e.payload.commits.GetOr([]) == [] ==> FormatEvent(e).cmd == "git push origin " + ShownRepo(e)
    ensures e.payload.commits.GetOr([]) != [] ==>
      FormatEvent(e).cmd == "git commit -m \"" + CommitSubject(e.payload.commits.value[0]) + "\""
  {
  }

  /** A created repository is shown as `git init`; any other created ref
      (a branch or tag) as `git checkout -b`. A missing `ref_type` counts as
      a repository. */
  lemma CreateEventShown(e: Event)
    requires EventKindOf(e) == CreateKind
    ensures FormatEvent(e).color == "accent"
    ensures e.payload.refType.None? || e.payload.refType == Some("repository") ==>
      FormatEvent(e).cmd == "git init " + ShownRepo(e)
    ensures e.payload.refType.Some? && e.payload.refType != Some("repository") ==>
      FormatEvent(e).cmd == "git checkout -b " + e.payload.ref.GetOr("")
  {
  }

  /** A pull request shows its action ("opened" when missing) and its
      title cut to 40 characters, in the "warning" colour. */
  lemma PullRequestEventShown(e: Event)
    requires EventKindOf(e) == PullRequestKind
    ensures FormatEvent(e).color == "warning"
    ensures FormatEvent(e).cmd ==
      "gh pr " + e.payload.action.GetOr("opened") + ": \"" + ShortTitle(e.payload.prTitle) + "\""
  {
  }

  /** An issue shows its action ("opened" when missing) and its title cut
      to 40 characters, in the "error" colour. */
  lemma IssuesEventShown(e: Event)
    requires EventKindOf(e) == IssuesKind
    ensures FormatEvent(e).color == "error"
    ensures FormatEvent(e).cmd ==
      "gh issue " + e.payload.action.GetOr("opened") + ": \"" + ShortTitle(e.payload.issueTitle) + "\""
  {
  }

  /** A star and a fork show the repository. */
  lemma WatchForkEventShown(e: Event)
    requires EventKindOf(e) == WatchKind || EventKindOf(e) == ForkKind
    ensures EventKindOf(e) == WatchKind ==> FormatEvent(e) == Shown("gh repo star " + ShownRepo(e), "accent")
    ensures EventKindOf(e) == ForkKind ==> FormatEvent(e) == Shown("gh repo fork " + ShownRepo(e), "success")
  {
  }

  /** DeleteEvent has a colour of its own, but like any other or missing
      type it gets no command: it is shown as a comment about its
      repository. */
  lemma OtherEventShown(e: Event)
    requires EventKindOf(e) == DeleteKind || EventKindOf(e) == OtherKind
    ensures KindColor(DeleteKind) == "error"
    ensures FormatEvent(e) == Shown("# Activity in " + ShownRepo(e), "comment")
  {
  }

  /** The first word of the commands of a kind, with its space. */
  function Lead(k: EventKind): string {
    if k in {PushKind, CreateKind} then "git "
    else if k in {PullRequestKind, IssuesKind, WatchKind, ForkKind} then "gh "
    else "# "
  }

  lemma CommandLead(e: Event)
    ensures IsPrefix(Lead(EventKindOf(e)), FormatEvent(e).cmd)
  {
    match EventKindOf(e)
    case PushKind => PushLead(e);
    case CreateKind => CreateLead(e);
    case PullRequestKind => TitledLead(e);
    case IssuesKind => TitledLead(e);
    case WatchKind => WatchForkLead(e);
    case ForkKind => WatchForkLead(e);
    case DeleteKind => OtherLead(e);
    case OtherKind => OtherLead(e);
  }

  lemma WatchForkLead(e: Event)
    requires EventKindOf(e) in {WatchKind, ForkKind}
    ensures IsPrefix("gh ", FormatEvent(e).cmd)
  {
    Openings();
    WatchForkEventShown(e);
    if EventKindOf(e) == WatchKind {
      PrefixAppend("gh ", "gh repo star ", ShownRepo(e));
    } else {
      PrefixAppend("gh ", "gh repo fork ", ShownRepo(e));
    }
  }

  lemma OtherLead(e: Event)
    requires EventKindOf(e) in {DeleteKind, OtherKind}
    ensures IsPrefix("# ", FormatEvent(e).cmd)
  {
    Openings();
    OtherEventShown(e);
    PrefixAppend("# ", "# Activity in ", ShownRepo(e));
  }

  lemma PushLead(e: Event)
    requires EventKindOf(e) == PushKind
    ensures IsPrefix("git ", FormatEvent(e).cmd)
  {
    var commits := e.payload.commits.GetOr([]);
    Openings();
    if commits != [] {
      var m := Quoted(CommitSubject(commits[0]));
      assert FormatEvent(e).cmd == "git commit -m " + m;
      PrefixAppend("git ", "git commit -m ", m);
    } else {
      assert FormatEvent(e).cmd == "git push origin " + ShownRepo(e);
      PrefixAppend("git ", "git push origin ", ShownRepo(e));
    }
  }

  lemma CreateLead(e: Event)
    requires EventKindOf(e) == CreateKind
    ensures IsPrefix("git ", FormatEvent(e).cmd)
  {
    Openings();
    if e.payload.refType.GetOr("repository") == "repository" {
      assert FormatEvent(e).cmd == "git init " + ShownRepo(e);
      PrefixAppend("git ", "git init ", ShownRepo(e));
    } else {
      assert FormatEvent(e).cmd == "git checkout -b " + e.payload.ref.GetOr("");
      PrefixAppend("git ", "git checkout -b ", e.payload.ref.GetOr(""));
    }
  }

  /** The literal openings of the commands. */
  lemma Openings()
    ensures IsPrefix("git ", "git commit -m ") && IsPrefix("git ", "git push origin ")
    ensures IsPrefix("git ", "git init ") && IsPrefix("git ", "git checkout -b ")
    ensures IsPrefix("gh ", "gh repo star ") && IsPrefix("gh ", "gh repo fork ")
    ensures IsPrefix("# ", "# Activity in ")
  {
    assert "gh repo star "[..3] == "gh ";
    assert "gh repo fork "[..3] == "gh ";
    assert "# Activity in "[..2] == "# ";
    assert "git commit -m "[..4] == "git ";
    assert "git push origin "[..4] == "git ";
    assert "git init "[..4] == "git ";
    assert "git checkout -b "[..4] == "git ";
  }

  lemma PrefixAppend(p: string, a: string, b: string)
    requires IsPrefix(p, a)
    ensures IsPrefix(p, a + b)
  {
    assert (a + b)[..|p|] == a[..|p|];
  }

  lemma TitledLead(e: Event)
    requires EventKindOf(e) in {PullRequestKind, IssuesKind}
    ensures IsPrefix("gh ", FormatEvent(e).cmd)
  {
    assert FormatEvent(e).cmd[..3] == "gh ";
  }

  /** The command's first word tells which family of types an event
      belongs to: `git` for pushes and creations, `gh` for pull requests,
      issues, stars and forks, and `#` for every other type; so events of
      different families never share a command. */
  lemma CommandFamily(e: Event)
    ensures IsPrefix("git ", FormatEvent(e).cmd) <==> EventKindOf(e) in {PushKind, CreateKind}
    ensures IsPrefix("gh ", FormatEvent(e).cmd) <==>
      EventKindOf(e) in {PullRequestKind, IssuesKind, WatchKind, ForkKind}
    ensures IsPrefix("# ", FormatEvent(e).cmd) <==> EventKindOf(e) in {DeleteKind, OtherKind}
  {
    CommandLead(e);
    LeadsDiffer(EventKindOf(e), FormatEvent(e).cmd);
  }

  lemma LeadsDiffer(k: EventKind, s: string)
    requires IsPrefix(Lead(k), s)
    ensures IsPrefix("git ", s) <==> k in {PushKind, CreateKind}
    ensures IsPrefix("gh ", s) <==> k in {PullRequestKind, IssuesKind, WatchKind, ForkKind}
    ensures IsPrefix("# ", s) <==> k in {DeleteKind, OtherKind}
  {
    var l := Lead(k);
    assert s[0] == l[0] && s[1] == l[1];
    if IsPrefix("git ", s) {
      assert s[0] == 'g' && s[1] == 'i';
    }
    if IsPrefix("gh ", s) {
      assert s[0] == 'g' && s[1] == 'h';
    }
    if IsPrefix("# ", s) {
      assert s[0] == '#';
    }
  }

  // get_color

  /** The colour names `color_map` knows. */
  predicate KnownColorName(name: string) {
    name == "text" || name == "success" || name == "warning" || name == "error"
      || name == "accent" || name == "comment" || name == "prompt"
  }

  /** `get_color`: the configured colour of a name, the text colour for an
      unknown name. */
  function GetColor(name: string): (c: string)
    ensures c in {TextColor, SuccessColor, WarningColor, ErrorColor, AccentColor, CommentColor, PromptColor}
    ensures !KnownColorName(name) ==> c == TextColor
  {
    if name == "success" then SuccessColor
    else if name == "warning" then WarningColor
    else if name == "error" then ErrorColor
    else if name == "accent" then AccentColor
    else if name == "comment" then CommentColor
    else if name == "prompt" then PromptColor
    else TextColor
  }

  /** Distinct known names get distinct colours, so only "text" and the
      unknown names share one. */
  lemma GetColorDistinct(a: string, b: string)
    requires KnownColorName(a) && KnownColorName(b) && a != b
    ensures GetColor(a) != GetColor(b)
  {
  }

  /** Every event is drawn in a colour other than the text colour. */
  lemma EventColorNotText(e: Event)
    ensures GetColor(FormatEvent(e).color) != TextColor
  {
  }

  // The recent-activity section of generate_terminal_svg

  /** The formatted events, in order. */
  function Formatted(events: seq<Event>): (xs: seq<Shown>)
    ensures |xs| == |events|
  {
    seq(|events|, i requires 0 <= i < |events| => FormatEvent(events[i]))
  }

  /** The commands in `xs`. */
  function CmdsOf(xs: seq<Shown>): set<string> {
    set i | 0 <= i < |xs| :: xs[i].cmd
  }

  /** `xs` keeping only the first entry of each command. */
  function Dedup(xs: seq<Shown>): seq<Shown>
    decreases |xs|
  {
    if xs == [] then []
    else
      var init := xs[..|xs| - 1];
      var f := xs[|xs| - 1];
      Dedup(init) + (if f.cmd in CmdsOf(init) then [] else [f])
  }

  /** At most this many activity lines are shown. */
  const MaxActivity: nat := 8

  /** The first seven activity lines hang off the graph; the eighth closes it. */
  function Prefix(k: nat): string {
    if k < MaxActivity - 1 then "│ ●" else "└ ○"
  }

  /** A terminal line: its colour name and its text. */
  datatype Line = Line(color: string, text: string)

  function Decorated(picks: seq<Shown>): seq<Line> {
    seq(|picks|, k requires 0 <= k < |picks| => Line(picks[k].color, Prefix(k) + " " + picks[k].cmd))
  }

  /** The activity lines shown for `events`. */
  function ActivityLines(events: seq<Event>): seq<Line> {
    Decorated(Take(Dedup(Formatted(events)), MaxActivity))
  }

  lemma CmdsOfSnoc(xs: seq<Shown>, i: nat)
    requires i < |xs|
    ensures CmdsOf(xs[..i + 1]) == CmdsOf(xs[..i]) + {xs[i].cmd}
  {
    var a, b := xs[..i + 1], xs[..i];
    assert a[i] == xs[i];
    forall c | c in CmdsOf(a) ensures c in CmdsOf(b) + {xs[i].cmd} {
      var j :| 0 <= j < |a| && a[j].cmd == c;
      if j < i {
        assert a[j] == b[j];
      }
    }
    forall c | c in CmdsOf(b) ensures c in CmdsOf(a) {
      var j :| 0 <= j < |b| && b[j].cmd == c;
      assert a[j] == b[j];
    }
  }

  /** The selection loop: walks the events, skips a command already shown
      without counting it, and stops once eight lines are shown. */
  method SelectActivity(events: seq<Event>) returns (lines: seq<Line>)
    ensures lines == ActivityLines(events)
  {
    ghost var xs := Formatted(events);
    lines := [];
    var activityCount := 0;
    var seenCommands: set<string> := {};
    for i := 0 to |events|
      invariant activityCount == |lines| <= MaxActivity
      invariant lines == Decorated(Take(Dedup(xs[..i]), MaxActivity))
      invariant activityCount < MaxActivity ==> |Dedup(xs[..i])| == activityCount
      invariant activityCount < MaxActivity ==> seenCommands == CmdsOf(xs[..i])
    {
      if activityCount >= MaxActivity {
        DedupSaturated(xs, i);
        return;
      }
      var shown := FormatEvent(events[i]);
      var cmd, color := shown.cmd, shown.color;
      SelectStep(xs, i, lines, activityCount, seenCommands);
      if cmd !in seenCommands {
        seenCommands := seenCommands + {cmd};
        lines := lines + [Line(color, Prefix(activityCount) + " " + cmd)];
        activityCount := activityCount + 1;
      }
    }
    assert xs[..|events|] == xs;
  }

  /** One step of the selection loop, below eight lines. */
  lemma SelectStep(xs: seq<Shown>, i: nat, lines: seq<Line>, count: nat, seen: set<string>)
    requires i < |xs| && count < MaxActivity && count == |lines|
    requires lines == Decorated(Take(Dedup(xs[..i]), MaxActivity))
    requires |Dedup(xs[..i])| == count && seen == CmdsOf(xs[..i])
    ensures CmdsOf(xs[..i + 1]) == seen + {xs[i].cmd}
    ensures xs[i].cmd in seen ==> Dedup(xs[..i + 1]) == Dedup(xs[..i])
    ensures xs[i].cmd !in seen ==>
      && Dedup(xs[..i + 1]) == Dedup(xs[..i]) + [xs[i]]
      && Decorated(Take(Dedup(xs[..i + 1]), MaxActivity))
         == lines + [Line(xs[i].color, Prefix(count) + " " + xs[i].cmd)]
  {
    CmdsOfSnoc(xs, i);
    var a := xs[..i + 1];
    assert a[..i] == xs[..i] && a[i] == xs[i];
    if xs[i].cmd !in seen {
      var d := Dedup(xs[..i]) + [xs[i]];
      assert Take(d, MaxActivity) == d;
      assert Take(Dedup(xs[..i]), MaxActivity) == Dedup(xs[..i]);
    }
  }

  /** Once eight entries are kept, the later entries change nothing shown. */
  lemma DedupSaturated(xs: seq<Shown>, i: nat)
    requires i <= |xs| && |Take(Dedup(xs[..i]), MaxActivity)| == MaxActivity
    ensures Take(Dedup(xs[..i]), MaxActivity) == Take(Dedup(xs), MaxActivity)
  {
    DedupPrefix(xs, i, |xs|);
    assert xs[..|xs|] == xs;
    var a, b := Dedup(xs[..i]), Dedup(xs);
    assert Take(a, MaxActivity) == a[..MaxActivity];
    assert Take(b, MaxActivity) == b[..MaxActivity];
    assert a[..MaxActivity] == b[..|a|][..MaxActivity];
  }

  lemma {:induction false} DedupPrefix(xs: seq<Shown>, i: nat, j: nat)
    requires i <= j <= |xs|
    ensures IsPrefixOf(Dedup(xs[..i]), Dedup(xs[..j]))
    decreases j - i
  {
    if i < j {
      DedupPrefix(xs, i, j - 1);
      assert xs[..j][..j - 1] == xs[..j - 1];
    }
  }

  predicate IsPrefixOf<T(==)>(a: seq<T>, b: seq<T>) {
    |a| <= |b| && b[..|a|] == a
  }

  /** Each kept entry is one of the entries of `xs`. */
  lemma {:induction false} DedupSound(xs: seq<Shown>)
    ensures forall k :: 0 <= k < |Dedup(xs)| ==> Dedup(xs)[k] in xs
    decreases |xs|
  {
    if xs != [] {
      var init := xs[..|xs| - 1];
      DedupSound(init);
      forall k | 0 <= k < |Dedup(xs)|
        ensures Dedup(xs)[k] in xs
      {
        if k < |Dedup(init)| {
          assert Dedup(init)[k] in init;
        } else {
          assert Dedup(xs)[k] == xs[|xs| - 1];
        }
      }
    }
  }

  /** The kept commands are pairwise distinct, and they are exactly the
      commands of `xs`: every command appears once. */
  lemma {:induction false} DedupDistinctCovers(xs: seq<Shown>)
    ensures forall k, l :: 0 <= k < l < |Dedup(xs)| ==> Dedup(xs)[k].cmd != Dedup(xs)[l].cmd
    ensures CmdsOf(Dedup(xs)) == CmdsOf(xs)
    decreases |xs|
  {
    if xs != [] {
      var n := |xs| - 1;
      var init := xs[..n];
      DedupDistinctCovers(init);
      CmdsOfSnoc(xs, n);
      assert xs[..n + 1] == xs;
      var d0 := Dedup(init);
      var d := Dedup(xs);
      if xs[n].cmd in CmdsOf(init) {
        assert d == d0;
      } else {
        assert d == d0 + [xs[n]];
        assert d[..|d0|] == d0;
        CmdsOfSnoc(d, |d0|);
        assert d[..|d0| + 1] == d;
        forall k | 0 <= k < |d0|
          ensures d[k].cmd != d[|d0|].cmd
        {
          assert d[k].cmd in CmdsOf(d0);
        }
      }
    }
  }

  /** Entry `i` is the first of `xs` with its command. */
  predicate FirstOccurrence(xs: seq<Shown>, i: int) {
    0 <= i < |xs| && forall j :: 0 <= j < i ==> xs[j].cmd != xs[i].cmd
  }

  /** The positions of the entries `Dedup` keeps. */
  function FirstIndices(xs: seq<Shown>): seq<nat>
    decreases |xs|
  {
    if xs == [] then []
    else
      var n := |xs| - 1;
      FirstIndices(xs[..n]) + (if xs[n].cmd in CmdsOf(xs[..n]) then [] else [n])
  }

  /** `FirstIndices(xs)` lists, in increasing order, exactly the positions
      where a command occurs for the first time. */
  lemma {:induction false} FirstIndicesSpec(xs: seq<Shown>)
    ensures forall k :: 0 <= k < |FirstIndices(xs)| ==> FirstOccurrence(xs, FirstIndices(xs)[k])
    ensures forall k, l :: 0 <= k < l < |FirstIndices(xs)| ==> FirstIndices(xs)[k] < FirstIndices(xs)[l]
    ensures forall i :: FirstOccurrence(xs, i) ==> i in FirstIndices(xs)
    decreases |xs|
  {
    if xs != [] {
      var n := |xs| - 1;
      var init := xs[..n];
      FirstIndicesSpec(init);
      var idx0 := FirstIndices(init);
      var idx := FirstIndices(xs);
      assert idx[..|idx0|] == idx0;
      assert forall i :: 0 <= i < n ==> (FirstOccurrence(xs, i) <==> FirstOccurrence(init, i));
      assert FirstOccurrence(xs, n) <==> xs[n].cmd !in CmdsOf(init) by {
        if xs[n].cmd in CmdsOf(init) {
          var j :| 0 <= j < n && init[j].cmd == xs[n].cmd;
        }
        if !FirstOccurrence(xs, n) {
          var j :| 0 <= j < n && xs[j].cmd == xs[n].cmd;
          assert init[j].cmd == xs[n].cmd;
        }
      }
      forall k | 0 <= k < |idx| ensures FirstOccurrence(xs, idx[k]) {
        if k < |idx0| {
          assert idx[k] == idx0[k];
        }
      }
      forall i | FirstOccurrence(xs, i) ensures i in idx {
        if i < n {
          assert i in idx0;
        }
      }
    }
  }

  /** `Dedup` keeps the entries at `FirstIndices`, in that order. */
  lemma {:induction false} DedupAtFirstIndices(xs: seq<Shown>)
    ensures |Dedup(xs)| == |FirstIndices(xs)|
    ensures forall k :: 0 <= k < |Dedup(xs)| ==>
      FirstIndices(xs)[k] < |xs| && Dedup(xs)[k] == xs[FirstIndices(xs)[k]]
    decreases |xs|
  {
    if xs != [] {
      var n := |xs| - 1;
      DedupAtFirstIndices(xs[..n]);
    }
  }

  /** The activity lines are the first eight (or fewer) events whose
      command has not occurred before, in event order: line `k` shows the
      event at the `k`-th first occurrence of a command, these positions
      increase, and no first occurrence before a shown one is skipped. */
  lemma ActivityLinesFirst(events: seq<Event>)
    ensures |ActivityLines(events)| == Min(MaxActivity, |FirstIndices(Formatted(events))|)
    ensures forall k :: 0 <= k < |ActivityLines(events)| ==>
      && FirstIndices(Formatted(events))[k] < |events|
      && var i := FirstIndices(Formatted(events))[k];
         ActivityLines(events)[k] == Line(FormatEvent(events[i]).color, Prefix(k) + " " + FormatEvent(events[i]).cmd)
    ensures forall k :: 0 <= k < |ActivityLines(events)| ==> FirstOccurrence(Formatted(events), FirstIndices(Formatted(events))[k])
    ensures forall k, l :: 0 <= k < l < |ActivityLines(events)| ==>
      FirstIndices(Formatted(events))[k] < FirstIndices(Formatted(events))[l]
    ensures forall i, k ::
      (0 <= k < |ActivityLines(events)| && FirstOccurrence(Formatted(events), i) && i <= FirstIndices(Formatted(events))[k])
      ==> exists m :: 0 <= m <= k && FirstIndices(Formatted(events))[m] == i
  {
    var xs := Formatted(events);
    var idx := FirstIndices(xs);
    DedupAtFirstIndices(xs);
    FirstIndicesSpec(xs);
    forall i, k | 0 <= k < |ActivityLines(events)| && FirstOccurrence(xs, i) && i <= idx[k]
      ensures exists m :: 0 <= m <= k && idx[m] == i
    {
      var m :| 0 <= m < |idx| && idx[m] == i;
    }
  }

  /** The activity section shows at most eight lines; line `k` carries the
      prefix `Prefix(k)` and the command and colour of one of the events. */
  lemma ActivityLinesSound(events: seq<Event>)
    ensures |ActivityLines(events)| <= MaxActivity
    ensures forall k :: 0 <= k < |ActivityLines(events)| ==>
      exists i ::
        && 0 <= i < |events|
        && ActivityLines(events)[k] == Line(FormatEvent(events[i]).color, Prefix(k) + " " + FormatEvent(events[i]).cmd)
  {
    var xs := Formatted(events);
    var d := Dedup(xs);
    var lines := ActivityLines(events);
    assert lines == Decorated(Take(d, MaxActivity));
    DedupSound(xs);
    forall k | 0 <= k < |lines|
      ensures exists i ::
        && 0 <= i < |events|
        && lines[k] == Line(FormatEvent(events[i]).color, Prefix(k) + " " + FormatEvent(events[i]).cmd)
    {
      assert d[k] in xs;
      var i :| 0 <= i < |xs| && xs[i] == d[k];
      assert lines[k] == Line(d[k].color, Prefix(k) + " " + d[k].cmd);
    }
  }

  /** No two activity lines are the same. */
  lemma ActivityLinesDistinct(events: seq<Event>)
    ensures forall k, l :: 0 <= k < l < |ActivityLines(events)| ==>
      ActivityLines(events)[k].text != ActivityLines(events)[l].text
  {
    var xs := Formatted(events);
    var d := Dedup(xs);
    var lines := ActivityLines(events);
    assert lines == Decorated(Take(d, MaxActivity));
    DedupDistinctCovers(xs);
    forall k, l | 0 <= k < l < |lines|
      ensures lines[k].text != lines[l].text
    {
      PrefixedDistinct(Prefix(k), Prefix(l), d[k].cmd, d[l].cmd);
    }
  }

  /** When fewer than eight lines are shown, every event's command is among
      them. */
  lemma ActivityLinesComplete(events: seq<Event>)
    requires |ActivityLines(events)| < MaxActivity
    ensures forall i :: 0 <= i < |events| ==> exists k ::
      && 0 <= k < |ActivityLines(events)|
      && ActivityLines(events)[k].text == Prefix(k) + " " + FormatEvent(events[i]).cmd
  {
    var xs := Formatted(events);
    var d := Dedup(xs);
    var lines := ActivityLines(events);
    assert lines == Decorated(Take(d, MaxActivity));
    DedupDistinctCovers(xs);
    forall i | 0 <= i < |events|
      ensures exists k :: 0 <= k < |lines| && lines[k].text == Prefix(k) + " " + FormatEvent(events[i]).cmd
    {
      assert xs[i].cmd in CmdsOf(xs);
      assert xs[i].cmd in CmdsOf(d);
      var k :| 0 <= k < |d| && d[k].cmd == xs[i].cmd;
      assert lines[k].text == Prefix(k) + " " + d[k].cmd;
    }
  }

  /** Both prefixes are three characters long, so distinct commands give
      distinct lines. */
  lemma PrefixedDistinct(p: string, q: string, a: string, b: string)
    requires |p| == |q| && a != b
    ensures p + " " + a != q + " " + b
  {
    var s, t := p + " " + a, q + " " + b;
    assert s[|p| + 1..] == a;
    assert t[|q| + 1..] == b;
  }

  // Picture height

  /** The lines of the "current project" block: the top repository's name,
      its description when it has one, and its stars and language. */
  function ProjectLines(repos: seq<Repo>): (n: nat)
    ensures n <= 3
    ensures n == 0 <==> repos == []
    ensures n == 3 <==> repos != [] && repos[0].description.Some? && repos[0].description.value != ""
  {
    if repos == [] then 0
    else 2 + (if repos[0].description.Some? && repos[0].description.value != "" then 1 else 0)
  }

  /** `len(lines)`: the header (three lines), the project prompt and block,
      a blank, the activity prompt and lines, a blank, and the status block
      (four lines). */
  function LineCount(repos: seq<Repo>, activity: nat): (n: nat)
    ensures 11 + activity <= n <= 14 + activity
    ensures n == 11 + activity <==> repos == []
  {
    3 + 1 + ProjectLines(repos) + 1 + 1 + activity + 1 + 4
  }

  /** `total_height = max(cfg["height"], len(lines) * line_height + 80)`. */
  function TotalHeight(numLines: nat): (h: int)
    ensures h >= Height && h >= numLines * LineHeight + 80
    ensures h == Height || h == numLines * LineHeight + 80
  {
    if Height >= numLines * LineHeight + 80 then Height else numLines * LineHeight + 80
  }

  /** The picture keeps its configured height exactly when it has at most
      18 lines. */
  lemma TotalHeightFixed(numLines: nat)
    ensures TotalHeight(numLines) == Height <==> numLines <= 18
  {
  }

  /** With at most three project lines and at most eight activity lines the
      terminal has between 11 and 22 lines, so it is never taller than
      564 pixels. */
  lemma TerminalHeightBounds(repos: seq<Repo>, events: seq<Event>)
    ensures 11 <= LineCount(repos, |ActivityLines(events)|) <= 22
    ensures Height <= TotalHeight(LineCount(repos, |ActivityLines(events)|)) <= 564
  {
    ActivityLinesSound(events);
  }
}
