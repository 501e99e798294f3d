/**
 * The post extractor and alert chooser of theqoo-fetcher/index.js.
 *
 * `getPostsFromHtml` runs a regular expression over the rendered page; the
 * model starts from its matches. Each title-cell match is given as the list
 * of its `<a href="…">…</a>` matches, each with the whole matched text, the
 * href group and the inner-content group. From there the model follows the
 * code: pick the main and preface anchors, clean the title (strip tags,
 * decode five entities, collapse whitespace, trim), drop candidates, build
 * the posts, and choose an alert text per post.
 */
module Fetcher {
  import opened Options
  import opened Text

  /** Only this many title-cell matches are examined. */
  const MaxMatches: nat := 30

  /** Prefixed to the href of the main anchor to form the post's url. */
  const BaseUrl: string := "https://theqoo.net"

  /** The text whose presence in an anchor match marks it as the preface (category) anchor. */
  const PrefaceMarker: string := "class='preface'"

  /** One anchor match: the whole matched text, the href group and the inner-content group. */
  datatype Anchor = Anchor(text: string, href: string, content: string)

  /** One extracted post. */
  datatype FetchedPost = FetchedPost(title: string, url: string, fullTitle: string, preface: string)

  predicate IsPreface(a: Anchor) {
    Contains(a.text, PrefaceMarker)
  }

  /** An anchor that can supply the main url: not the preface, and its href is not all whitespace (so its trimmed href is not empty). */
  predicate IsMainCandidate(a: Anchor) {
    !IsPreface(a) && !AllSpace(a.href)
  }

  /** The position of the first element satisfying `p`. */
  function FirstWhere<T>(xs: seq<T>, p: T -> bool): (r: Option<nat>)
    ensures r.Some? ==> r.value < |xs| && p(xs[r.value])
    ensures r.Some? ==> forall j :: 0 <= j < r.value ==> !p(xs[j])
    ensures r.None? ==> forall j :: 0 <= j < |xs| ==> !p(xs[j])
  {
    if xs == [] then None
    else if p(xs[0]) then Some(0)
    else match FirstWhere(xs[1..], p)
      case None => None
      case Some(i) => Some(i + 1)
  }

  /** Looking at one more element only matters while none has satisfied `p`. */
  lemma FirstWhereSnoc<T>(xs: seq<T>, p: T -> bool, k: nat)
    requires k < |xs|
    ensures FirstWhere(xs[..k + 1], p) ==
      if FirstWhere(xs[..k], p).Some? then FirstWhere(xs[..k], p)
      else if p(xs[k]) then Some(k)
      else None
  {
    var a, b := xs[..k + 1], xs[..k];
    assert forall j :: 0 <= j < k ==> a[j] == b[j];
    match FirstWhere(a, p)
    case None =>
    case Some(i) =>
      if i < k {
        assert FirstWhere(b, p).Some?;
      }
  }

  /** The position of the last element satisfying `p`. */
  function LastWhere<T>(xs: seq<T>, p: T -> bool): (r: Option<nat>)
    ensures r.Some? ==> r.value < |xs| && p(xs[r.value])
    ensures r.Some? ==> forall j :: r.value < j < |xs| ==> !p(xs[j])
    ensures r.None? ==> forall j :: 0 <= j < |xs| ==> !p(xs[j])
  {
    if xs == [] then None
    else if p(xs[|xs| - 1]) then Some(|xs| - 1)
    else LastWhere(xs[..|xs| - 1], p)
  }

  /** The first anchor that can supply the main url. */
  function FirstMain(links: seq<Anchor>): Option<nat> {
    FirstWhere(links, IsMainCandidate)
  }

  /** The last preface anchor. */
  function LastPreface(links: seq<Anchor>): Option<nat> {
    LastWhere(links, IsPreface)
  }

  /** The preface label: the last preface anchor's content, tags stripped and trimmed, or "". */
  function PrefaceOf(links: seq<Anchor>): string {
    match LastPreface(links)
    case None => ""
    case Some(j) => Trim(StripTags(links[j].content))
  }

  /** The main url: the trimmed href of the first main candidate, or "" when there is none. */
  function MainUrlOf(links: seq<Anchor>): (u: string)
    ensures u == "" <==> FirstMain(links).None?
  {
    match FirstMain(links)
    case None => ""
    case Some(i) => TrimEmpty(links[i].href); Trim(links[i].href)
  }

  /** One more anchor replaces the preface exactly when it is a preface anchor. */
  lemma PrefaceStep(links: seq<Anchor>, k: nat)
    requires k < |links|
    ensures PrefaceOf(links[..k + 1]) ==
      if IsPreface(links[k]) then Trim(StripTags(links[k].content)) else PrefaceOf(links[..k])
  {
    assert links[..k + 1][..k] == links[..k];
  }

  /**
   * One more anchor sets the main url exactly when the code's test passes: it
   * is not a preface anchor, no main url has been found, and its href is not
   * empty; an all-whitespace href sets it to "" and so changes nothing.
   */
  lemma MainStep(links: seq<Anchor>, k: nat)
    requires k < |links|
    ensures !IsPreface(links[k]) && MainUrlOf(links[..k]) == "" && links[k].href != "" ==>
      MainUrlOf(links[..k + 1]) == Trim(links[k].href) &&
      FirstMain(links[..k + 1]) == if IsMainCandidate(links[k]) then Some(k) else None
    ensures !(!IsPreface(links[k]) && MainUrlOf(links[..k]) == "" && links[k].href != "") ==>
      FirstMain(links[..k + 1]) == FirstMain(links[..k])
  {
    FirstWhereSnoc(links, IsMainCandidate, k);
    TrimEmpty(links[k].href);
    assert links[..k + 1][k] == links[k];
  }

  /** The anchor loop's variables after the first `k` anchors. */
  predicate SelectedUpTo(links: seq<Anchor>, k: nat, mainUrl: string, mainTitle: string, preface: string)
    requires k <= |links|
  {
    && mainUrl == MainUrlOf(links[..k])
    && (FirstMain(links[..k]).Some? ==> FirstMain(links[..k]).value < k && mainTitle == Trim(links[FirstMain(links[..k]).value].content))
    && preface == PrefaceOf(links[..k])
  }

  /** One turn of the anchor loop keeps its variables in step with the prefix functions. */
  lemma SelectStep(links: seq<Anchor>, k: nat, mainUrl: string, mainTitle: string, preface: string)
    requires k < |links| && SelectedUpTo(links, k, mainUrl, mainTitle, preface)
    ensures IsPreface(links[k]) ==>
      SelectedUpTo(links, k + 1, mainUrl, mainTitle, Trim(StripTags(links[k].content)))
    ensures !IsPreface(links[k]) && mainUrl == "" && links[k].href != "" ==>
      SelectedUpTo(links, k + 1, Trim(links[k].href), Trim(links[k].content), preface)
    ensures !IsPreface(links[k]) && !(mainUrl == "" && links[k].href != "") ==>
      SelectedUpTo(links, k + 1, mainUrl, mainTitle, preface)
  {
    PrefaceStep(links, k);
    MainStep(links, k);
    var a, b := links[..k + 1], links[..k];
    assert forall j :: 0 <= j < k ==> a[j] == b[j];
    assert PrefaceOf(a) == if IsPreface(links[k]) then Trim(StripTags(links[k].content)) else preface;
    if !(!IsPreface(links[k]) && mainUrl == "" && links[k].href != "") {
      assert FirstMain(a) == FirstMain(b);
      match FirstMain(b)
      case None =>
      case Some(i) => assert a[i] == b[i];
    } else {
      assert MainUrlOf(a) == Trim(links[k].href);
    }
  }

  /**
   * The anchor loop of `getPostsFromHtml`. A non-preface anchor with a
   * non-empty href is taken while `mainUrl` is still empty; since `mainUrl`
   * holds the trimmed href, an all-blank href does not stop the search.
   */
  method SelectAnchors(links: seq<Anchor>) returns (mainUrl: string, mainTitle: string, preface: string)
    ensures mainUrl == MainUrlOf(links)
    ensures FirstMain(links).Some? ==> mainTitle == Trim(links[FirstMain(links).value].content)
    ensures preface == PrefaceOf(links)
  {
    mainUrl, mainTitle, preface := "", "", "";
    for k := 0 to |links|
      invariant SelectedUpTo(links, k, mainUrl, mainTitle, preface)
    {
      var link := links[k];
      SelectStep(links, k, mainUrl, mainTitle, preface);
      if Contains(link.text, PrefaceMarker) {
        preface := Trim(StripTags(link.content));
      } else if mainUrl == "" && link.href != "" {
        mainUrl := Trim(link.href);
        mainTitle := Trim(link.content);
      }
    }
    assert links[..|links|] == links;
  }

  /** The five entity replacements, one pass each, in the order the code applies them. */
  function DecodeEntities(s: string): string {
    var s1 := ReplaceAll(s, "&quot;", "\"");
    var s2 := ReplaceAll(s1, "&amp;", "&");
    var s3 := ReplaceAll(s2, "&lt;", "<");
    var s4 := ReplaceAll(s3, "&gt;", ">");
    ReplaceAll(s4, "&nbsp;", " ")
  }

  /** The title as the code cleans it: strip tags, decode entities, collapse whitespace, trim. */
  function CleanTitle(t: string): string {
    Trim(CollapseSpaces(DecodeEntities(StripTags(t))))
  }

  /**
   * A cleaned title has no whitespace at either end, no two whitespace
   * characters in a row and no whitespace but plain spaces, and it keeps
   * every non-whitespace character of the decoded, tag-stripped text.
   */
  lemma CleanTitleSpec(t: string)
    ensures var r := CleanTitle(t); NoOuterSpace(r) && NoDoubleSpace(r) && SpacesArePlain(r)
    ensures NonSpace(CleanTitle(t)) == NonSpace(DecodeEntities(StripTags(t)))
  {
    var d := DecodeEntities(StripTags(t));
    CollapseSpec(d);
    var c := CollapseSpaces(d);
    TrimOuter(c);
    TrimNoDoubleSpace(c);
    TrimSpacesArePlain(c);
    TrimNonSpace(c);
  }

  /**
   * Inside a cleaned title, a whitespace run between two words of the
   * decoded text becomes exactly one plain space, and each side is cleaned on
   * its own.
   */
  lemma CleanTitleRun(t: string, a: string, w: string, b: string)
    requires DecodeEntities(StripTags(t)) == a + w + b
    requires a != [] && !IsSpace(a[|a| - 1])
    requires w != [] && AllSpace(w)
    requires b != [] && !IsSpace(b[0])
    ensures CleanTitle(t) == Trim(CollapseSpaces(a)) + " " + Trim(CollapseSpaces(b))
  {
    CollapseRun(a, w, b);
    CollapseLast(a);
    CollapseSpec(b);
    TrimJoin(CollapseSpaces(a), CollapseSpaces(b));
  }

  /** What every extracted post satisfies. */
  predicate WellFormed(p: FetchedPost) {
    && Utf16Length(p.title) > 1 && NoOuterSpace(p.title) && NoDoubleSpace(p.title) && SpacesArePlain(p.title)
    && |p.url| > |BaseUrl| && p.url[..|BaseUrl|] == BaseUrl
    && NoOuterSpace(p.preface)
    && p.fullTitle == if p.preface == "" then p.title else "[" + p.preface + "] " + p.title
  }

  /** The post built from one title cell, or None when the cell is dropped. */
  function Candidate(links: seq<Anchor>): Option<FetchedPost> {
    match FirstMain(links)
    case None => None
    case Some(i) =>
      var mainUrl := Trim(links[i].href);
      var mainTitle := Trim(links[i].content);
      var preface := PrefaceOf(links);
      var title := CleanTitle(mainTitle);
      if mainTitle == "" then None
      else if Utf16Length(title) <= 1 then None
      else Some(FetchedPost(title, BaseUrl + mainUrl, if preface != "" then "[" + preface + "] " + title else title, preface))
  }

  /**
   * A cell yields a post exactly when it has a main anchor whose cleaned
   * title is longer than one UTF-16 code unit (an empty trimmed content needs no
   * test of its own), and that post is well formed.
   */
  lemma CandidateSpec(links: seq<Anchor>)
    ensures Candidate(links).Some? ==> WellFormed(Candidate(links).value)
    ensures Candidate(links).None? <==> FirstMain(links).None? || Utf16Length(CleanTitle(Trim(links[FirstMain(links).value].content))) <= 1
  {
    match FirstMain(links)
    case None =>
    case Some(i) =>
      var mainTitle := Trim(links[i].content);
      CleanTitleSpec(mainTitle);
      TrimEmpty(links[i].href);
      assert (BaseUrl + Trim(links[i].href))[..|BaseUrl|] == BaseUrl;
      TrimEmpty(links[i].content);

      match LastPreface(links)
      case None =>
      case Some(j) => TrimOuter(StripTags(links[j].content));
      if mainTitle == "" {
        assert CleanTitle(mainTitle) == "";
      }
  }

  /** What each cell yields, cell by cell. */
  function Candidates(cells: seq<seq<Anchor>>): seq<Option<FetchedPost>> {
    seq(|cells|, i requires 0 <= i < |cells| => Candidate(cells[i]))
  }

  /** The posts built from the cells, in cell order, dropped cells left out. */
  function ExtractPosts(cells: seq<seq<Anchor>>): seq<FetchedPost> {
    Somes(Candidates(cells))
  }

  /** The body of the match loop of `getPostsFromHtml`, for one title cell. */
  method PostFromCell(links: seq<Anchor>) returns (post: Option<FetchedPost>)
    ensures post == Candidate(links)
  {
    var mainUrl, mainTitle, preface := SelectAnchors(links);
    post := None;
    if mainUrl != "" && mainTitle != "" {
      var cleanTitle := CleanTitle(mainTitle);
      if cleanTitle != "" && Utf16Length(cleanTitle) > 1 {
        var fullTitle := if preface != "" then "[" + preface + "] " + cleanTitle else cleanTitle;
        post := Some(FetchedPost(cleanTitle, BaseUrl + mainUrl, fullTitle, preface));
      }
    }
    if FirstMain(links).Some? {
      TrimEmpty(links[FirstMain(links).value].href);
    }
  }

  /** `getPostsFromHtml` after the title-cell regular expression has produced `cells`. */
  method GetPostsFromHtml(cells: seq<seq<Anchor>>) returns (posts: seq<FetchedPost>)
    ensures posts == ExtractPosts(cells[..if |cells| < MaxMatches then |cells| else MaxMatches])
    ensures |posts| <= MaxMatches
    ensures forall p :: p in posts ==> WellFormed(p)
  {
    posts := [];
    var i := 0;
    while i < |cells| && i < MaxMatches
      invariant 0 <= i <= |cells| && i <= MaxMatches
      invariant posts == ExtractPosts(cells[..i])
    {
      var post := PostFromCell(cells[i]);
      ExtractSnoc(cells, i);
      if post.Some? {
        posts := posts + [post.value];
      }
      i := i + 1;
    }
    ExtractLength(cells[..i]);
    ExtractWellFormed(cells[..i]);
  }

  /** One more cell adds its post, if it yields one. */
  lemma ExtractSnoc(cells: seq<seq<Anchor>>, i: nat)
    requires i < |cells|
    ensures ExtractPosts(cells[..i + 1]) ==
      ExtractPosts(cells[..i]) + (if Candidate(cells[i]).Some? then [Candidate(cells[i]).value] else [])
  {
    var o := Candidate(cells[i]);
    assert cells[..i + 1] == cells[..i] + [cells[i]];
    ExtractAppend(cells[..i], [cells[i]]);
    assert Candidates([cells[i]]) == [o];
    assert Somes([o]) == (if o.Some? then [o.value] else []) by {
      assert [o][..0] == [];
    }
  }

  /** At most one post per cell. */
  lemma ExtractLength(cells: seq<seq<Anchor>>)
    ensures |ExtractPosts(cells)| <= |cells|
  {
    SomesLength(Candidates(cells));
  }

  /** The extracted posts are exactly the posts built from some cell. */
  lemma ExtractMembers(cells: seq<seq<Anchor>>, p: FetchedPost)
    ensures p in ExtractPosts(cells) <==> exists i :: 0 <= i < |cells| && Candidate(cells[i]) == Some(p)
  {
    var os := Candidates(cells);
    assert |os| == |cells| && forall i :: 0 <= i < |cells| ==> os[i] == Candidate(cells[i]);
    SomesMembers(os, p);
  }

  /** Every extracted post is well formed. */
  lemma ExtractWellFormed(cells: seq<seq<Anchor>>)
    ensures forall p :: p in ExtractPosts(cells) ==> WellFormed(p)
  {
    forall p | p in ExtractPosts(cells) ensures WellFormed(p) {
      ExtractMembers(cells, p);
      var i :| 0 <= i < |cells| && Candidate(cells[i]) == Some(p);
      CandidateSpec(cells[i]);
    }
  }

  /** Extraction keeps cell order: extracting a concatenation concatenates the results. */
  lemma ExtractAppend(a: seq<seq<Anchor>>, b: seq<seq<Anchor>>)
    ensures ExtractPosts(a + b) == ExtractPosts(a) + ExtractPosts(b)
  {
    var ca, cb, all := Candidates(a), Candidates(b), Candidates(a + b);
    assert |all| == |a + b| == |ca + cb|;
    forall i | 0 <= i < |a + b| ensures all[i] == (ca + cb)[i] {
      assert all[i] == Candidate((a + b)[i]);
      if i < |a| {
        assert (a + b)[i] == a[i] && (ca + cb)[i] == ca[i] == Candidate(a[i]);
      } else {
        assert (a + b)[i] == b[i - |a|] && (ca + cb)[i] == cb[i - |a|] == Candidate(b[i - |a|]);
      }
    }
    assert all == ca + cb;
    SomesAppend(ca, cb);
  }

  /** The two alert templates of `main`. */
  datatype Template = Chick | Chestnut

  /** The title an alert shows: `post.fullTitle || post.title`. */
  function DisplayTitle(p: FetchedPost): string {
    if p.fullTitle != "" then p.fullTitle else p.title
  }

  /** The alert text for a title under a template; only the chestnut one carries the url. */
  function Render(tpl: Template, t: string, url: string): string {
    match tpl
    case Chick => "🐣 " + t
    case Chestnut => "🌰 " + t + "\n" + url
  }

  /** The template for a title, or None when no alert is sent. */
  function ChooseTemplate(t: string): (r: Option<Template>)
    ensures r == Some(Chick) <==> Contains(t, "도둑들")
    ensures r == Some(Chestnut) <==> !Contains(t, "도둑들") && (Contains(t, "주한") || Contains(t, "민재"))
    ensures r == None <==> !Contains(t, "도둑들") && !Contains(t, "주한") && !Contains(t, "민재")
  {
    if Contains(t, "도둑들") then Some(Chick)
    else if Contains(t, "주한") || Contains(t, "민재") then Some(Chestnut)
    else None
  }

  /** The alert text for one post, if any. */
  function MessageFor(p: FetchedPost): Option<string> {
    var t := DisplayTitle(p);
    match ChooseTemplate(t)
    case None => None
    case Some(tpl) => Some(Render(tpl, t, p.url))
  }

  /** Reads the template and the title back from an alert text sent for a post with this url. */
  function ParseAlert(m: string, url: string): Option<(Template, string)> {
    if |m| >= 2 && m[..2] == "🐣 " then Some((Chick, m[2..]))
    else if |m| >= 3 + |url| && m[..2] == "🌰 " && m[|m| - |url| - 1..] == "\n" + url then
      Some((Chestnut, m[2..|m| - |url| - 1]))
    else None
  }

  /** An alert text determines its template and the whole title it was made from. */
  lemma ParseRender(tpl: Template, t: string, url: string)
    ensures ParseAlert(Render(tpl, t, url), url) == Some((tpl, t))
  {
    var m := Render(tpl, t, url);
    match tpl
    case Chick =>
      assert m[..2] == "🐣 " && m[2..] == t;
    case Chestnut =>
      assert m[..2] == "🌰 " && m[..2] != "🐣 ";
      assert m[|m| - |url| - 1..] == "\n" + url;
      assert m[2..|m| - |url| - 1] == t;
  }

  /** For an extracted post the alert shows the full title, the preface included. */
  lemma DisplayTitleOfWellFormed(p: FetchedPost)
    requires WellFormed(p)
    ensures DisplayTitle(p) == p.fullTitle
    ensures MessageFor(p).Some? ==> ParseAlert(MessageFor(p).value, p.url) == Some((ChooseTemplate(p.fullTitle).value, p.fullTitle))
  {
    if MessageFor(p).Some? {
      ParseRender(ChooseTemplate(p.fullTitle).value, p.fullTitle, p.url);
    }
  }

  /** The alert for each post, post by post. */
  function AlertsFor(posts: seq<FetchedPost>): seq<Option<string>> {
    seq(|posts|, i requires 0 <= i < |posts| => MessageFor(posts[i]))
  }

  /** The alerts for the posts, in post order, at most one each. */
  function Notifications(posts: seq<FetchedPost>): seq<string> {
    Somes(AlertsFor(posts))
  }

  /** The sending loop of `main`: one alert per post whose title has a keyword. */
  method NotifyPosts(posts: seq<FetchedPost>) returns (sent: seq<string>)
    ensures sent == Notifications(posts)
    ensures |sent| <= |posts|
  {
    sent := [];
    for i := 0 to |posts|
      invariant sent == Notifications(posts[..i])
    {
      var post := posts[i];
      var title := DisplayTitle(post);
      var message := "";
      if Contains(title, "도둑들") {
        message := "🐣 " + title;
      } else if Contains(title, "주한") || Contains(title, "민재") {
        message := "🌰 " + title + "\n" + post.url;
      }
      NotificationsSnoc(posts, i);
      if message != "" {
        sent := sent + [message];
      }
    }
    assert posts[..|posts|] == posts;
    SomesLength(AlertsFor(posts));
  }

  /** One more post adds its alert, if it has one. */
  lemma NotificationsSnoc(posts: seq<FetchedPost>, i: nat)
    requires i < |posts|
    ensures Notifications(posts[..i + 1]) ==
      Notifications(posts[..i]) + (if MessageFor(posts[i]).Some? then [MessageFor(posts[i]).value] else [])
  {
    var o := MessageFor(posts[i]);
    assert posts[..i + 1] == posts[..i] + [posts[i]];
    NotificationsAppend(posts[..i], [posts[i]]);
    assert AlertsFor([posts[i]]) == [o];
    assert Somes([o]) == (if o.Some? then [o.value] else []) by {
      assert [o][..0] == [];
    }
  }

  /** Alerts go out in post order: the alerts for a concatenation concatenate. */
  lemma NotificationsAppend(a: seq<FetchedPost>, b: seq<FetchedPost>)
    ensures Notifications(a + b) == Notifications(a) + Notifications(b)
  {
    var ma, mb, all := AlertsFor(a), AlertsFor(b), AlertsFor(a + b);
    assert |all| == |a + b| == |ma + mb|;
    forall i | 0 <= i < |a + b| ensures all[i] == (ma + mb)[i] {
      assert all[i] == MessageFor((a + b)[i]);
      if i < |a| {
        assert (a + b)[i] == a[i] && (ma + mb)[i] == ma[i] == MessageFor(a[i]);
      } else {
        assert (a + b)[i] == b[i - |a|] && (ma + mb)[i] == mb[i - |a|] == MessageFor(b[i - |a|]);
      }
    }
    assert all == ma + mb;
    SomesAppend(ma, mb);
  }

  /** A message is sent exactly when some post's `MessageFor` produces it. */
  lemma NotifiedIff(posts: seq<FetchedPost>, m: string)
    ensures m in Notifications(posts) <==> exists i :: 0 <= i < |posts| && MessageFor(posts[i]) == Some(m)
  {
    var ms := AlertsFor(posts);
    assert |ms| == |posts| && forall i :: 0 <= i < |posts| ==> ms[i] == MessageFor(posts[i]);
    SomesMembers(ms, m);
  }

  /** A text whose first character starts the pattern, whose second does not continue it, and which has the pattern's first character nowhere else, is not changed by the replacement. */
  lemma ReplaceMissesAfterHead(c: char, u: string, pat: string, rep: string)
    requires |pat| >= 2 && u != [] && u[0] != pat[1] && pat[0] !in u
    ensures ReplaceAll([c] + u, pat, rep) == [c] + u
  {
    var s := [c] + u;
    assert s[1..] == u;
    assert !(pat <= s) by {
      if |pat| <= |s| { assert s[..|pat|][1] == u[0]; }
    }
    ReplaceAllNoHead(u, pat, rep);
  }

  /** A text that starts with `pat` and has no other `&` loses exactly that occurrence. */
  lemma ReplaceLeadingEntity(pat: string, rest: string, rep: string)
    requires pat != [] && pat[0] == '&' && '&' !in rest
    ensures ReplaceAll(pat + rest, pat, rep) == rep + rest
  {
    var s := pat + rest;
    assert s[..|pat|] == pat && s[|pat|..] == rest;
    ReplaceAllNoHead(rest, pat, rep);
  }

  /** The `&quot;` pass leaves an escaped ampersand `&amp;` alone. */
  lemma QuotPassSkipsEscaped(u: string)
    requires '&' !in u
    ensures ReplaceAll("&amp;" + u, "&quot;", "\"") == "&amp;" + u
  {
    var w := "amp;" + u;
    assert '&' !in w;
    assert "&amp;" + u == ['&'] + w;
    ReplaceMissesAfterHead('&', w, "&quot;", "\"");
  }

  /** The `&amp;` pass turns an escaped ampersand into `&`. */
  lemma AmpPassUnescapes(u: string)
    requires '&' !in u
    ensures ReplaceAll("&amp;" + u, "&amp;", "&") == "&" + u
  {
    ReplaceLeadingEntity("&amp;", u, "&");
  }

  /** The first two passes turn an escaped ampersand before `u` into `&`. */
  lemma FirstTwoPasses(u: string)
    requires '&' !in u
    ensures ReplaceAll(ReplaceAll("&amp;" + u, "&quot;", "\""), "&amp;", "&") == "&" + u
  {
    QuotPassSkipsEscaped(u);
    AmpPassUnescapes(u);
  }

  /** `&amp;lt;` decodes to `<`, because the `&lt;` pass runs after the `&amp;` pass. */
  lemma DecodeAmpThenLt(t: string)
    requires '&' !in t
    ensures DecodeEntities("&amp;lt;" + t) == "<" + t
  {
    var u := "lt;" + t;
    assert "&amp;lt;" + t == "&amp;" + u && '&' !in u;
    FirstTwoPasses(u);
    assert "&" + u == "&lt;" + t;
    LastThreeAfterLt(t);
  }

  /** The last three passes decode a leading `&lt;` and nothing else. */
  lemma LastThreeAfterLt(t: string)
    requires '&' !in t
    ensures ReplaceAll(ReplaceAll(ReplaceAll("&lt;" + t, "&lt;", "<"), "&gt;", ">"), "&nbsp;", " ") == "<" + t
  {
    var s3 := ReplaceAll("&lt;" + t, "&lt;", "<");
    assert s3 == "<" + t by {
      ReplaceLeadingEntity("&lt;", t, "<");
    }
    assert '&' !in s3;
    ReplaceAllNoHead(s3, "&gt;", ">");
    ReplaceAllNoHead(s3, "&nbsp;", " ");
  }

  /** `&amp;quot;` decodes only to `&quot;`, because the `&quot;` pass runs first. */
  lemma DecodeAmpThenQuot(t: string)
    requires '&' !in t
    ensures DecodeEntities("&amp;quot;" + t) == "&quot;" + t
  {
    var u := "quot;" + t;
    assert "&amp;quot;" + t == "&amp;" + u && '&' !in u;
    FirstTwoPasses(u);
    assert "&" + u == "&quot;" + t;
    LastThreeKeepQuot(t);
  }

  /** The last three passes leave a leading `&quot;` alone. */
  lemma LastThreeKeepQuot(t: string)
    requires '&' !in t
    ensures ReplaceAll(ReplaceAll(ReplaceAll("&quot;" + t, "&lt;", "<"), "&gt;", ">"), "&nbsp;", " ") == "&quot;" + t
  {
    QuotSurvives(t, "&lt;", "<");
    QuotSurvives(t, "&gt;", ">");
    QuotSurvives(t, "&nbsp;", " ");
  }

  /** `&quot;` followed by text without `&` is left alone by a pass for an entity not starting with `&q`. */
  lemma QuotSurvives(t: string, pat: string, rep: string)
    requires '&' !in t && |pat| >= 2 && pat[0] == '&' && pat[1] != 'q'
    ensures ReplaceAll("&quot;" + t, pat, rep) == "&quot;" + t
  {
    assert "&quot;" + t == ['&'] + ("quot;" + t);
    ReplaceMissesAfterHead('&', "quot;" + t, pat, rep);
  }

  /** Text without `&` holds no entity and is not changed by decoding. */
  lemma DecodeWithoutAmpersand(s: string)
    requires '&' !in s
    ensures DecodeEntities(s) == s
  {
    ReplaceAllNoHead(s, "&quot;", "\"");
    ReplaceAllNoHead(s, "&amp;", "&");
    ReplaceAllNoHead(s, "&lt;", "<");
    ReplaceAllNoHead(s, "&gt;", ">");
    ReplaceAllNoHead(s, "&nbsp;", " ");
  }

  /** After decoding no `&nbsp;` is left. */
  lemma DecodeLeavesNoNbsp(s: string)
    ensures !Contains(DecodeEntities(s), "&nbsp;")
  {
    var s4 := ReplaceAll(ReplaceAll(ReplaceAll(ReplaceAll(s, "&quot;", "\""), "&amp;", "&"), "&lt;", "<"), "&gt;", ">");
    assert Disjoint(" ", "&nbsp;");
    ReplaceAllLeavesNone(s4, "&nbsp;", " ");
  }

  /** The `&amp;` pass can itself produce an `&amp;`: one pass is not a full decoding. */
  lemma AmpPassNotIdempotent(t: string)
    requires '&' !in t
    ensures ReplaceAll("&amp;amp;" + t, "&amp;", "&") == "&amp;" + t
  {
    var u := "amp;" + t;
    assert '&' !in u;
    assert "&amp;amp;" + t == "&amp;" + u;
    AmpPassUnescapes(u);
  }

  /**
   * A post whose shown title has `도둑들`, one whose shown title has `주한` or
   * `민재` but not `도둑들`, and one with none of them: the first alert has no
   * url, the second carries it, the third post sends nothing.
   */
  lemma NotificationsExample(a: FetchedPost, b: FetchedPost, c: FetchedPost)
    requires a.fullTitle != "" && b.fullTitle != "" && c.fullTitle != ""
    requires Contains(a.fullTitle, "도둑들")
    requires !Contains(b.fullTitle, "도둑들") && (Contains(b.fullTitle, "주한") || Contains(b.fullTitle, "민재"))
    requires !Contains(c.fullTitle, "도둑들") && !Contains(c.fullTitle, "주한") && !Contains(c.fullTitle, "민재")
    ensures Notifications([a, b, c]) == ["🐣 " + a.fullTitle, "🌰 " + b.fullTitle + "\n" + b.url]
  {
    var ma, mb := "🐣 " + a.fullTitle, "🌰 " + b.fullTitle + "\n" + b.url;
    var ms := [Some(ma), Some(mb), None];
    assert AlertsFor([a, b, c]) == ms;
    assert Somes(ms[..1]) == [ma] by {
      assert ms[..1][..0] == [];
    }
    assert Somes(ms[..2]) == [ma, mb] by {
      assert ms[..2][..1] == ms[..1];
    }
  }
}
