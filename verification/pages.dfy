/**
 * What the main page and the knowledge page compute from the task rows:
 * the sorted list of section names, the rows of the chosen section, the
 * Mermaid chart of those rows, and the rewrite of relative links in a
 * node's knowledge document so that they point into its knowledge folder.
 */
module Pages {
  import opened Wrappers
  import opened Text
  import opened Conversion
  import Gantt

  // ---------------------------------------------------------------------
  // The section list

  /** Strictly increasing in code-point order: sorted and free of repeats. */
  predicate StrictlySorted(s: seq<string>) {
    forall i, j :: 0 <= i < j < |s| ==> LexLess(s[i], s[j])
  }

  lemma ConsSorted(h: string, t: seq<string>)
    requires StrictlySorted(t)
    requires forall y :: y in t ==> LexLess(h, y)
    ensures StrictlySorted([h] + t)
  {
    forall i, j | 0 <= i < j < |[h] + t| ensures LexLess(([h] + t)[i], ([h] + t)[j]) {
      if i > 0 {
        assert ([h] + t)[i] == t[i - 1] && ([h] + t)[j] == t[j - 1];
      } else {
        assert ([h] + t)[j] in t;
      }
    }
  }

  lemma BelowHead(x: string, s: seq<string>)
    requires StrictlySorted(s) && |s| > 0 && LexLess(x, s[0])
    ensures forall y :: y in s ==> LexLess(x, y)
  {
    forall y | y in s ensures LexLess(x, y) {
      var k :| 0 <= k < |s| && s[k] == y;
      if k > 0 {
        LexLessTransitive(x, s[0], s[k]);
      }
    }
  }

  /** The sorted list with x added, unless it is there already. */
  function Insert(s: seq<string>, x: string): (r: seq<string>)
    requires StrictlySorted(s)
    ensures StrictlySorted(r)
    ensures forall y :: y in r <==> y in s || y == x
    decreases |s|
  {
    if |s| == 0 then [x]
    else if x == s[0] then s
    else if LexLess(x, s[0]) then
      BelowHead(x, s);
      ConsSorted(x, s);
      [x] + s
    else
      LexLessTotal(x, s[0]);
      var t := Insert(s[1..], x);
      assert forall y :: y in s[1..] ==> LexLess(s[0], y) by {
        forall y | y in s[1..] ensures LexLess(s[0], y) {
          var k :| 0 <= k < |s[1..]| && s[1..][k] == y;
          assert s[k + 1] == y;
        }
      }
      ConsSorted(s[0], t);
      assert s == [s[0]] + s[1..];
      [s[0]] + t
  }

  /** A section name some task row carries. */
  predicate UsedSection(tasks: seq<Task>, name: string) {
    name != "" && exists t :: t in tasks && t.section == name
  }

  /** The distinct non-empty section names of the rows, sorted in code-point
      order: exactly the names in use, each once, in increasing order. */
  function AllSections(tasks: seq<Task>): (r: seq<string>)
    ensures StrictlySorted(r)
    ensures forall name :: name in r <==> UsedSection(tasks, name)
    decreases |tasks|
  {
    if |tasks| == 0 then []
    else
      var init := tasks[..|tasks| - 1];
      var last := tasks[|tasks| - 1];
      var rest := AllSections(init);
      assert tasks == init + [last];
      assert forall t :: t in tasks <==> t in init || t == last;
      if last.section == "" then rest else Insert(rest, last.section)
  }

  lemma HeadIsMember(s: seq<string>)
    ensures |s| > 0 ==> s[0] in s
  {
  }

  /** Two strictly sorted lists with the same members are the same list, so
      the section list is determined by the set of names in use. */
  lemma {:induction false} SortedUnique(a: seq<string>, b: seq<string>)
    requires StrictlySorted(a) && StrictlySorted(b)
    requires forall y :: y in a <==> y in b
    ensures a == b
    decreases |a|
  {
    if |a| == 0 || |b| == 0 {
      HeadIsMember(a);
      HeadIsMember(b);
    } else {
      if a[0] != b[0] {
        // The smaller head would have to occur in the other list after its
        // head, below that head.
        assert a[0] in b;
        assert b[0] in a;
        var i :| 0 <= i < |b| && b[i] == a[0];
        var j :| 0 <= j < |a| && a[j] == b[0];
        assert LexLess(b[0], a[0]);
        assert LexLess(a[0], b[0]);
        LexLessTransitive(a[0], b[0], a[0]);
        LexLessIrreflexive(a[0]);
      }
      forall y ensures y in a[1..] <==> y in b[1..] {
        if y in a[1..] {
          var k :| 0 <= k < |a[1..]| && a[1..][k] == y;
          assert LexLess(a[0], a[k + 1]);
          if y == a[0] { LexLessIrreflexive(y); }
          assert y in b;
          assert y != b[0];
        }
        if y in b[1..] {
          var k :| 0 <= k < |b[1..]| && b[1..][k] == y;
          assert LexLess(b[0], b[k + 1]);
          if y == b[0] { LexLessIrreflexive(y); }
          assert y in a;
          assert y != a[0];
        }
      }
      SortedUnique(a[1..], b[1..]);
      assert a == [a[0]] + a[1..] && b == [b[0]] + b[1..];
    }
  }

  // ---------------------------------------------------------------------
  // The section filter

  /** The rows whose section is name, in their order. */
  function InSection(tasks: seq<Task>, name: string): (r: seq<Task>)
    ensures |r| <= |tasks|
    ensures forall t :: t in r <==> t in tasks && t.section == name
    decreases |tasks|
  {
    if |tasks| == 0 then []
    else
      var rest := InSection(tasks[1..], name);
      assert tasks == [tasks[0]] + tasks[1..];
      if tasks[0].section == name then [tasks[0]] + rest else rest
  }

  /** The rows the main page shows: all of them when no section or `all` is
      chosen, else the rows of the chosen section. */
  function FilterBySection(tasks: seq<Task>, selected: string): (r: seq<Task>)
    ensures selected == "" || selected == "all" ==> r == tasks
    ensures selected != "" && selected != "all" ==>
      && (forall t :: t in r <==> t in tasks && t.section == selected)
      && (forall t :: multiset(r)[t] == if t.section == selected then multiset(tasks)[t] else 0)
    ensures |r| <= |tasks|
  {
    if selected != "" && selected != "all" then
      InSectionCounts(tasks, selected);
      InSection(tasks, selected)
    else tasks
  }

  /** The filter keeps every row of the section as often as it occurs, and
      no other row. */
  lemma {:induction false} InSectionCounts(tasks: seq<Task>, name: string)
    ensures forall t :: multiset(InSection(tasks, name))[t] == if t.section == name then multiset(tasks)[t] else 0
    decreases |tasks|
  {
    if |tasks| > 0 {
      InSectionCounts(tasks[1..], name);
      assert tasks == [tasks[0]] + tasks[1..];
    }
  }

  /** The filter keeps the rows in their order: filtering two lists one
      after the other is filtering each and putting the results together. */
  lemma {:induction false} InSectionAppend(a: seq<Task>, b: seq<Task>, name: string)
    ensures InSection(a + b, name) == InSection(a, name) + InSection(b, name)
    decreases |a|
  {
    if |a| == 0 {
      assert a + b == b;
    } else {
      var ab := a + b;
      assert ab[1..] == a[1..] + b;
      assert ab[0] == a[0];
      InSectionAppend(a[1..], b, name);
    }
  }

  /** One row is kept exactly when it is in the section. */
  lemma InSectionOne(t: Task, name: string)
    ensures InSection([t], name) == if t.section == name then [t] else []
  {
    assert [t][1..] == [];
  }

  /** The page's filter keeps the rows in their order, whatever is chosen. */
  lemma FilterBySectionAppend(a: seq<Task>, b: seq<Task>, selected: string)
    ensures FilterBySection(a + b, selected) == FilterBySection(a, selected) + FilterBySection(b, selected)
  {
    InSectionAppend(a, b, selected);
  }

  /** Filtering keeps every row exactly when every row is in the chosen
      section. */
  lemma {:induction false} InSectionAll(tasks: seq<Task>, name: string)
    ensures InSection(tasks, name) == tasks <==> forall t :: t in tasks ==> t.section == name
    decreases |tasks|
  {
    if |tasks| > 0 {
      InSectionAll(tasks[1..], name);
      assert tasks == [tasks[0]] + tasks[1..];
      if tasks[0].section != name {
        assert |InSection(tasks, name)| <= |tasks[1..]| < |tasks|;
      }
    }
  }

  // ---------------------------------------------------------------------
  // The main page's chart

  function EntryOf(t: Task): Gantt.Entry {
    Gantt.Entry(t.id, t.section, t.name, t.start, t.end)
  }

  function EntriesOf(tasks: seq<Task>): (r: seq<Gantt.Entry>)
    ensures |r| == |tasks| && forall i :: 0 <= i < |tasks| ==> r[i] == EntryOf(tasks[i])
  {
    seq(|tasks|, i requires 0 <= i < |tasks| => EntryOf(tasks[i]))
  }

  /** The Mermaid chart of the rows the main page shows. */
  method IndexChart(tasks: seq<Task>, selected: string) returns (code: string)
    ensures code == Gantt.GanttText(EntriesOf(FilterBySection(tasks, selected)))
  {
    var shown := FilterBySection(tasks, selected);
    code := Gantt.EmitGantt(EntriesOf(shown));
  }

  /** The chart the main page shows reads back, through the editor's
      importer, as exactly the entries of the rows it shows. */
  lemma IndexChartImports(tasks: seq<Task>, selected: string)
    requires forall t :: t in FilterBySection(tasks, selected) ==> Gantt.RoundTrips(EntryOf(t))
    ensures Gantt.ImportEntries(Gantt.GanttText(EntriesOf(FilterBySection(tasks, selected))))
      == EntriesOf(FilterBySection(tasks, selected))
  {
    var filtered := FilterBySection(tasks, selected);
    var shown := EntriesOf(filtered);
    forall i | 0 <= i < |shown| ensures Gantt.RoundTrips(shown[i]) {
      assert filtered[i] in filtered;
    }
    Gantt.ImportEmitted(shown);
  }

  /** With a section chosen, every entry of the chart belongs to it. */
  lemma IndexChartSection(tasks: seq<Task>, selected: string)
    requires selected != "" && selected != "all"
    ensures forall i :: 0 <= i < |EntriesOf(FilterBySection(tasks, selected))| ==>
      EntriesOf(FilterBySection(tasks, selected))[i].section == selected
  {
    var filtered := FilterBySection(tasks, selected);
    forall i | 0 <= i < |filtered| ensures filtered[i].section == selected {
      assert filtered[i] in filtered;
    }
  }

  // ---------------------------------------------------------------------
  // Knowledge links

  /** The folder name with back slashes turned into slashes and the
      surrounding slashes removed. */
  function FolderPath(knowledgeDir: string): string {
    StripChar(ReplaceChar(knowledgeDir, '\\', '/'), '/')
  }

  lemma FolderPathEmpty(knowledgeDir: string)
    ensures FolderPath(knowledgeDir) == [] <==>
      forall i :: 0 <= i < |knowledgeDir| ==> knowledgeDir[i] == '/' || knowledgeDir[i] == '\\'
  {
    StripCharEmpty(ReplaceChar(knowledgeDir, '\\', '/'), '/');
  }

  lemma FolderPathShape(knowledgeDir: string)
    ensures |FolderPath(knowledgeDir)| == 0 || (FolderPath(knowledgeDir)[0] != '/' && FolderPath(knowledgeDir)[|FolderPath(knowledgeDir)| - 1] != '/')
    ensures forall m :: 0 <= m < |FolderPath(knowledgeDir)| ==> FolderPath(knowledgeDir)[m] != '\\'
  {
    var slashed := ReplaceChar(knowledgeDir, '\\', '/');
    var k := FolderPath(knowledgeDir);
    StripCharSlice(slashed, '/');
    var i, j :| 0 <= i <= j <= |slashed| && k == slashed[i..j];
    forall m | 0 <= m < |k| ensures k[m] != '\\' {
      assert k[m] == slashed[i + m];
    }
  }

  /** The URL prefix of a knowledge folder: back slashes become slashes,
      surrounding slashes go, and what is left is wrapped in slashes; a
      folder that is only slashes (or empty) has none. */
  function BaseUrl(knowledgeDir: string): (r: Option<string>)
    ensures r.None? <==>
      forall i :: 0 <= i < |knowledgeDir| ==> knowledgeDir[i] == '/' || knowledgeDir[i] == '\\'
    ensures r.Some? ==>
      && |r.value| >= 3 && r.value[0] == '/' && r.value[|r.value| - 1] == '/'
      && r.value[1] != '/' && r.value[|r.value| - 2] != '/'
      && forall i :: 0 <= i < |r.value| ==> r.value[i] != '\\'
    ensures r.Some? ==> exists i, j ::
      && CutAround(ReplaceChar(knowledgeDir, '\\', '/'), '/', i, j)
      && r.value == "/" + ReplaceChar(knowledgeDir, '\\', '/')[i..j] + "/"
  {
    var k := FolderPath(knowledgeDir);
    FolderPathEmpty(knowledgeDir);
    FolderPathShape(knowledgeDir);
    StripCharSlice(ReplaceChar(knowledgeDir, '\\', '/'), '/');
    if k == "" then None else Some("/" + k + "/")
  }

  /** Links the rewrite leaves alone: web and mail links, absolute paths
      and in-page anchors. */
  predicate IsAbsoluteLink(url: string) {
    || StartsWith(url, "http://") || StartsWith(url, "https://") || StartsWith(url, "/")
    || StartsWith(url, "#") || StartsWith(url, "mailto:") || StartsWith(url, "tel:")
  }

  /** The target of one link after the rewrite: an absolute link as it was,
      a relative one under the folder's base, with one leading `./`
      dropped. */
  function RewriteUrl(base: string, url: string): string {
    if IsAbsoluteLink(url) then url
    else base + (if StartsWith(url, "./") then url[2..] else url)
  }

  /** One matched attribute (its opening `src="` or `href="`, its target
      and its closing quote) after the rewrite. */
  function RewriteLink(base: string, prefix: string, url: string, suffix: string): (r: string)
    ensures |r| >= |prefix| + |suffix|
    ensures r[..|prefix|] == prefix && r[|r| - |suffix|..] == suffix
    ensures r[|prefix|..|r| - |suffix|] == RewriteUrl(base, url)
  {
    var u := RewriteUrl(base, url);
    assert (prefix + u + suffix)[..|prefix|] == prefix;
    assert (prefix + u + suffix)[|prefix| + |u|..] == suffix;
    assert (prefix + u + suffix)[|prefix|..|prefix| + |u|] == u;
    prefix + u + suffix
  }

  /** Under a base that starts with a slash every rewritten target is
      absolute. */
  lemma RewriteIsAbsolute(base: string, url: string)
    requires |base| > 0 && base[0] == '/'
    ensures IsAbsoluteLink(RewriteUrl(base, url))
  {
    if !IsAbsoluteLink(url) {
      assert RewriteUrl(base, url)[..1] == base[..1] == "/";
    }
  }

  /** A relative link goes under the base: the rewritten target starts with
      the base, and the rest is the link itself or the link without its
      leading `./`. */
  lemma RewriteRelative(base: string, url: string)
    requires !IsAbsoluteLink(url)
    ensures StartsWith(RewriteUrl(base, url), base)
    ensures var rest := RewriteUrl(base, url)[|base|..]; rest == url || "./" + rest == url
  {
    var rest := if StartsWith(url, "./") then url[2..] else url;
    assert RewriteUrl(base, url) == base + rest;
    assert (base + rest)[..|base|] == base;
    assert (base + rest)[|base|..] == rest;
    if StartsWith(url, "./") {
      assert url == url[..2] + url[2..];
    }
  }

  /** A link is left as it is exactly when it is absolute. */
  lemma RewriteFixedPoints(base: string, url: string)
    requires |base| > 0 && base[0] == '/'
    ensures RewriteUrl(base, url) == url <==> IsAbsoluteLink(url)
  {
    RewriteIsAbsolute(base, url);
  }

  /** Rewriting a rewritten link changes nothing. */
  lemma RewriteIdempotent(base: string, url: string)
    requires |base| > 0 && base[0] == '/'
    ensures RewriteUrl(base, RewriteUrl(base, url)) == RewriteUrl(base, url)
  {
    RewriteIsAbsolute(base, url);
  }

  /** `./x` and `x` name the same file under the base. */
  lemma RewriteDotSlash(base: string, url: string)
    requires !IsAbsoluteLink(url) && !StartsWith(url, "./")
    ensures RewriteUrl(base, "./" + url) == RewriteUrl(base, url)
  {
    var dotted := "./" + url;
    assert dotted[..2] == "./";
    assert dotted[2..] == url;
    assert dotted[..1] == ".";
    if |url| >= 1 { assert dotted[..|"/"|] == "."; }
  }

  /** The base of a folder is one the rewrite can rely on. */
  lemma BaseUrlRewrites(knowledgeDir: string, url: string)
    requires BaseUrl(knowledgeDir).Some?
    ensures RewriteUrl(BaseUrl(knowledgeDir).value, RewriteUrl(BaseUrl(knowledgeDir).value, url))
      == RewriteUrl(BaseUrl(knowledgeDir).value, url)
    ensures RewriteUrl(BaseUrl(knowledgeDir).value, url) == url <==> IsAbsoluteLink(url)
    ensures !IsAbsoluteLink(url) ==> exists i, j ::
      && CutAround(ReplaceChar(knowledgeDir, '\\', '/'), '/', i, j)
      && StartsWith(RewriteUrl(BaseUrl(knowledgeDir).value, url), "/" + ReplaceChar(knowledgeDir, '\\', '/')[i..j] + "/")
  {
    if !IsAbsoluteLink(url) {
      RewriteRelative(BaseUrl(knowledgeDir).value, url);
    }
    RewriteIdempotent(BaseUrl(knowledgeDir).value, url);
    RewriteFixedPoints(BaseUrl(knowledgeDir).value, url);
  }
}
