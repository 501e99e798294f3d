/**
 * The new-post detector of theqoo_scraper.py.
 *
 * The program keeps one piece of state between runs, the title of the post it
 * last dealt with (`last_checked_title`). Each run takes the fetched list of
 * posts (newest first, as the board shows them), reverses it, resumes just
 * after the remembered title, sends one alert for every later post whose title
 * contains a keyword, and remembers a new title. `run_scraper` repeats a run
 * that fetched nothing, up to three attempts.
 *
 * The network is a parameter here: a run receives the fetched list, and the
 * retry loop receives, for each attempt number, what that attempt fetches.
 * Sent alerts are appended to `outbox`.
 */
module Scraper {
  import opened Options
  import opened Text

  /** The keywords watched for; each is tested case-sensitively as a substring of a title. */
  const Keywords: seq<string> := ["도둑들", "밤식", "범식"]

  /** The number of attempts `run_scraper` makes before giving up until the next scheduled run. */
  const MaxRetries: nat := 3

  /** One row of the board: its title and its absolute link. */
  datatype Post = Post(title: string, link: string)

  /** The list in reverse order (`list.reverse()`). */
  function Reverse(ps: seq<Post>): seq<Post> {
    seq(|ps|, i requires 0 <= i < |ps| => ps[|ps| - 1 - i])
  }

  /** Some keyword occurs in the title (`keyword in title` for some keyword). */
  predicate HasKeyword(title: string, keywords: seq<string>) {
    exists k :: k in keywords && Contains(title, k)
  }

  /** The text of the alert sent for a post. */
  function AlertMessage(p: Post): string {
    "새로운 글 알림!\n\n제목: " + p.title + "\n링크: " + p.link
  }

  /** One alert text per post, in the same order. */
  function Messages(ps: seq<Post>): seq<string> {
    if ps == [] then [] else Messages(ps[..|ps| - 1]) + [AlertMessage(ps[|ps| - 1])]
  }

  /** The posts of `ps` whose title has a keyword, in order, each taken once. */
  function Alerted(ps: seq<Post>, keywords: seq<string>): seq<Post> {
    if ps == [] then []
    else
      var last := ps[|ps| - 1];
      Alerted(ps[..|ps| - 1], keywords) + (if HasKeyword(last.title, keywords) then [last] else [])
  }

  /** The position of the first post with this title, if there is one. */
  function TitleIndex(ps: seq<Post>, title: string): (r: Option<nat>)
    ensures r.Some? ==> r.value < |ps| && ps[r.value].title == title
    ensures r.Some? ==> forall j :: 0 <= j < r.value ==> ps[j].title != title
    ensures r.None? ==> forall j :: 0 <= j < |ps| ==> ps[j].title != title
  {
    if ps == [] then None
    else if ps[0].title == title then Some(0)
    else match TitleIndex(ps[1..], title)
      case None => None
      case Some(i) => Some(i + 1)
  }

  /**
   * Where the scan of the reversed list starts: just after the first post
   * carrying the remembered title, or at the beginning when no title is
   * remembered or none of the posts carries it.
   */
  function StartIndex(rev: seq<Post>, last: string): (k: nat)
    ensures k <= |rev|
    ensures k == 0 <==> (last == "" || forall j :: 0 <= j < |rev| ==> rev[j].title != last)
    ensures k > 0 ==> rev[k - 1].title == last && forall j :: 0 <= j < k - 1 ==> rev[j].title != last
  {
    if last == "" then 0
    else match TitleIndex(rev, last)
      case None => 0
      case Some(i) => i + 1
  }

  /** The posts one run alerts on (`new_posts`), in the order their alerts are sent. */
  function NewAlerts(last: string, fetched: seq<Post>, keywords: seq<string>): seq<Post> {
    var rev := Reverse(fetched);
    Alerted(rev[StartIndex(rev, last)..], keywords)
  }

  /** The remembered title after one run. */
  function NextTitle(last: string, fetched: seq<Post>, keywords: seq<string>): string {
    if fetched == [] then last
    else
      var alerts := NewAlerts(last, fetched, keywords);
      if alerts != [] then alerts[|alerts| - 1].title
      else Reverse(fetched)[|fetched| - 1].title
  }

  /** The first attempt in `from..MaxRetries` whose fetch returns posts. */
  function FirstSuccess(fetch: nat -> seq<Post>, from: nat): (r: Option<nat>)
    ensures r.Some? ==> from <= r.value < MaxRetries && fetch(r.value) != []
    ensures r.Some? ==> forall j :: from <= j < r.value ==> fetch(j) == []
    ensures r.None? ==> forall j :: from <= j < MaxRetries ==> fetch(j) == []
    decreases MaxRetries - from
  {
    if from >= MaxRetries then None
    else if fetch(from) != [] then Some(from)
    else FirstSuccess(fetch, from + 1)
  }

  /** Reverses the array in place. */
  method ReversePosts(a: array<Post>)
    modifies a
    ensures a[..] == Reverse(old(a[..]))
  {
    var lo, hi := 0, a.Length;
    while lo + 1 < hi
      invariant 0 <= lo && lo <= hi <= a.Length && lo + hi == a.Length
      invariant forall i :: 0 <= i < lo ==> a[i] == old(a[a.Length - 1 - i]) && a[a.Length - 1 - i] == old(a[i])
      invariant forall i :: lo <= i < hi ==> a[i] == old(a[i])
    {
      a[lo], a[hi - 1] := a[hi - 1], a[lo];
      lo, hi := lo + 1, hi - 1;
    }
  }

  /** The scan start for the reversed list held in `posts`, found by a linear search. */
  method FindStart(posts: array<Post>, last: string) returns (start: nat)
    ensures start == StartIndex(posts[..], last)
  {
    start := 0;
    if last != "" {
      var i := 0;
      while i < posts.Length && posts[i].title != last
        invariant 0 <= i <= posts.Length
        invariant forall j :: 0 <= j < i ==> posts[j].title != last
      {
        i := i + 1;
      }
      if i < posts.Length {
        start := i + 1;
      }
    }
  }

  /** The keyword loop: tries the keywords in order and stops at the first one the title contains. */
  method MatchKeywords(title: string, keywords: seq<string>) returns (hit: bool)
    ensures hit <==> HasKeyword(title, keywords)
  {
    hit := false;
    var k := 0;
    while k < |keywords|
      invariant 0 <= k <= |keywords|
      invariant forall j :: 0 <= j < k ==> !Contains(title, keywords[j])
    {
      if Contains(title, keywords[k]) {
        hit := true;
        break;
      }
      k := k + 1;
    }
    assert !hit ==> forall j :: 0 <= j < |keywords| ==> !Contains(title, keywords[j]);
  }

  /** The program's global state: the remembered title and the alerts sent so far. */
  class ScraperState {
    var lastCheckedTitle: string
    var outbox: seq<string>

    constructor ()
      ensures lastCheckedTitle == "" && outbox == []
    {
      lastCheckedTitle := "";
      outbox := [];
    }

    /**
     * `check_for_new_posts` on an already fetched list. It reports failure when
     * nothing was fetched, and then sends nothing and keeps its state.
     */
    method CheckForNewPosts(fetched: seq<Post>) returns (ok: bool)
      modifies this
      ensures ok <==> fetched != []
      ensures outbox == old(outbox) + Messages(NewAlerts(old(lastCheckedTitle), fetched, Keywords))
      ensures lastCheckedTitle == NextTitle(old(lastCheckedTitle), fetched, Keywords)
    {
      if fetched == [] {
        return false;
      }
      var posts := new Post[|fetched|](i requires 0 <= i < |fetched| => fetched[i]);
      assert posts[..] == fetched;
      ReversePosts(posts);
      var startIndex := FindStart(posts, lastCheckedTitle);

      var newPosts := ScanAndAlert(posts, startIndex, Keywords);
      assert newPosts == NewAlerts(old(lastCheckedTitle), fetched, Keywords);

      if newPosts != [] {
        lastCheckedTitle := newPosts[|newPosts| - 1].title;
      } else if posts.Length > 0 {
        lastCheckedTitle := posts[posts.Length - 1].title;
      }
      ok := true;
    }

    /**
     * The scan of `check_for_new_posts`: every post of `posts[start..]` whose
     * title has a keyword is alerted, in order, once.
     */
    method ScanAndAlert(posts: array<Post>, start: nat, keywords: seq<string>) returns (newPosts: seq<Post>)
      requires start <= posts.Length
      modifies this`outbox
      ensures newPosts == Alerted(posts[start..], keywords)
      ensures outbox == old(outbox) + Messages(newPosts)
    {
      newPosts := [];
      ghost var ps := posts[..];
      var n := start;
      while n < posts.Length
        invariant start <= n <= posts.Length
        invariant newPosts == Alerted(ps[start..n], keywords)
        invariant outbox == old(outbox) + Messages(newPosts)
      {
        var post := posts[n];
        // one alert per post, however many keywords its title has
        var hit := MatchKeywords(post.title, keywords);
        ScanStep(ps, start, n, keywords);
        if hit {
          var message := AlertMessage(post);
          assert old(outbox) + Messages(newPosts + [post]) == outbox + [message] by {
            MessagesStep(newPosts, post);
          }
          outbox := outbox + [message];
          newPosts := newPosts + [post];
        }
        n := n + 1;
      }
      assert ps[start..n] == posts[start..];
    }

    /**
     * `run_scraper`: attempt `k` (from 0) sees `fetch(k)`. It stops after the
     * first successful run, and otherwise sleeps once after every failed
     * attempt, up to `MaxRetries` attempts.
     */
    method RunScraper(fetch: nat -> seq<Post>) returns (attempts: nat, sleeps: nat)
      modifies this
      ensures attempts <= MaxRetries
      ensures match FirstSuccess(fetch, 0)
        case Some(k) =>
          && attempts == k + 1 && sleeps == k
          && outbox == old(outbox) + Messages(NewAlerts(old(lastCheckedTitle), fetch(k), Keywords))
          && lastCheckedTitle == NextTitle(old(lastCheckedTitle), fetch(k), Keywords)
        case None =>
          && attempts == MaxRetries && sleeps == MaxRetries
          && outbox == old(outbox) && lastCheckedTitle == old(lastCheckedTitle)
    {
      attempts, sleeps := 0, 0;
      var retryCount := 0;
      while retryCount < MaxRetries
        invariant 0 <= retryCount <= MaxRetries
        invariant attempts == retryCount && sleeps == retryCount
        invariant FirstSuccess(fetch, 0) == FirstSuccess(fetch, retryCount)
        invariant outbox == old(outbox) && lastCheckedTitle == old(lastCheckedTitle)
      {
        attempts := attempts + 1;
        var ok := CheckForNewPosts(fetch(retryCount));
        if ok {
          return;
        }
        sleeps := sleeps + 1;
        retryCount := retryCount + 1;
      }
    }
  }

  /** Appending a post appends its alert, if it has a keyword. */
  lemma AlertedStep(ps: seq<Post>, p: Post, keywords: seq<string>)
    ensures Alerted(ps + [p], keywords) == Alerted(ps, keywords) + (if HasKeyword(p.title, keywords) then [p] else [])
  {
    assert (ps + [p])[..|ps|] == ps;
  }

  /** Scanning one more post of `ps` adds it exactly when its title has a keyword. */
  lemma ScanStep(ps: seq<Post>, start: nat, n: nat, keywords: seq<string>)
    requires start <= n < |ps|
    ensures Alerted(ps[start..n + 1], keywords)
      == Alerted(ps[start..n], keywords) + (if HasKeyword(ps[n].title, keywords) then [ps[n]] else [])
  {
    assert ps[start..n + 1] == ps[start..n] + [ps[n]];
    AlertedStep(ps[start..n], ps[n], keywords);
  }

  /** Appending a post appends its alert text. */
  lemma MessagesStep(ps: seq<Post>, p: Post)
    ensures Messages(ps + [p]) == Messages(ps) + [AlertMessage(p)]
  {
    assert (ps + [p])[..|ps|] == ps;
  }

  /** Alerting a concatenation alerts each part in turn. */
  lemma {:induction false} AlertedAppend(a: seq<Post>, b: seq<Post>, keywords: seq<string>)
    ensures Alerted(a + b, keywords) == Alerted(a, keywords) + Alerted(b, keywords)
    decreases |b|
  {
    if b == [] {
      assert a + b == a;
    } else {
      var b' := b[..|b| - 1];
      assert (a + b)[..|a + b| - 1] == a + b';
      assert (a + b)[|a + b| - 1] == b[|b| - 1];
      AlertedAppend(a, b', keywords);
    }
  }

  /**
   * A post is alerted as many times as it occurs in the list when its title has
   * a keyword, and never otherwise: one alert per post, however many keywords
   * its title has.
   */
  lemma {:induction false} AlertedCount(ps: seq<Post>, keywords: seq<string>, p: Post)
    ensures multiset(Alerted(ps, keywords))[p] == if HasKeyword(p.title, keywords) then multiset(ps)[p] else 0
    decreases |ps|
  {
    if ps != [] {
      var init := ps[..|ps| - 1];
      assert ps == init + [ps[|ps| - 1]];
      AlertedCount(init, keywords, p);
    }
  }

  /** The alerted posts are exactly the posts of the list whose title has a keyword. */
  lemma AlertedMembers(ps: seq<Post>, keywords: seq<string>, p: Post)
    ensures p in Alerted(ps, keywords) <==> p in ps && HasKeyword(p.title, keywords)
  {
    AlertedCount(ps, keywords, p);
    assert p in Alerted(ps, keywords) <==> multiset(Alerted(ps, keywords))[p] > 0;
    assert p in ps <==> multiset(ps)[p] > 0;
  }

  /** The last alerted post has a keyword, and no post after it does. */
  lemma {:induction false} LastAlertHit(ps: seq<Post>, keywords: seq<string>) returns (j: nat)
    requires Alerted(ps, keywords) != []
    ensures j < |ps| && ps[j] == Alerted(ps, keywords)[|Alerted(ps, keywords)| - 1]
    ensures HasKeyword(ps[j].title, keywords)
    ensures Alerted(ps[j + 1..], keywords) == []
    decreases |ps|
  {
    var n := |ps|;
    var init := ps[..n - 1];
    if HasKeyword(ps[n - 1].title, keywords) {
      j := n - 1;
      assert ps[j + 1..] == [];
    } else {
      assert ps == init + [ps[n - 1]];
      AlertedStep(init, ps[n - 1], keywords);
      j := LastAlertHit(init, keywords);
      assert ps[j] == init[j];
      assert Alerted(ps[j + 1..], keywords) == [] by {
        assert ps[j + 1..] == init[j + 1..] + [ps[n - 1]];
        AlertedStep(init[j + 1..], ps[n - 1], keywords);
      }
    }
  }

  /** No two posts of the list share a title. */
  predicate DistinctTitles(ps: seq<Post>) {
    forall i, j :: 0 <= i < j < |ps| ==> ps[i].title != ps[j].title
  }

  /** With distinct titles, resuming after a post's non-empty title resumes right after that post. */
  lemma StartAfterTitle(rev: seq<Post>, m: nat)
    requires DistinctTitles(rev) && m < |rev| && rev[m].title != ""
    ensures StartIndex(rev, rev[m].title) == m + 1
  {
    var k := StartIndex(rev, rev[m].title);
    assert k > 0;
  }

  /**
   * No duplicate alerts: when the fetched titles are distinct and non-empty, a
   * second run on the same list, from the state the first run left, alerts on
   * nothing.
   */
  lemma NoDuplicateAlerts(last: string, fetched: seq<Post>, keywords: seq<string>)
    requires DistinctTitles(fetched)
    requires forall i :: 0 <= i < |fetched| ==> fetched[i].title != ""
    ensures NewAlerts(NextTitle(last, fetched, keywords), fetched, keywords) == []
  {
    if fetched != [] {
      var n := |fetched|;
      var rev := Reverse(fetched);
      ReverseDistinct(fetched);
      var k := StartIndex(rev, last);
      if Alerted(rev[k..], keywords) != [] {
        ResumeAfterLastAlert(rev, k, keywords);
      } else {
        assert rev[n - 1] == fetched[0];
        StartAfterTitle(rev, n - 1);
        assert rev[n..] == [];
      }
    }
  }

  /** Reversal keeps titles distinct. */
  lemma ReverseDistinct(ps: seq<Post>)
    requires DistinctTitles(ps)
    ensures DistinctTitles(Reverse(ps))
  {
    var rev := Reverse(ps);
    var n := |ps|;
    forall i, j | 0 <= i < j < n ensures rev[i].title != rev[j].title {
      assert rev[i] == ps[n - 1 - i] && rev[j] == ps[n - 1 - j];
    }
  }

  /** Resuming after the last post alerted from `rev[k..]` finds nothing further to alert. */
  lemma ResumeAfterLastAlert(rev: seq<Post>, k: nat, keywords: seq<string>)
    requires DistinctTitles(rev) && k <= |rev|
    requires forall i :: 0 <= i < |rev| ==> rev[i].title != ""
    requires Alerted(rev[k..], keywords) != []
    ensures var alerts := Alerted(rev[k..], keywords);
      Alerted(rev[StartIndex(rev, alerts[|alerts| - 1].title)..], keywords) == []
  {
    var m := LastAlertAt(rev, k, keywords);
    ResumeAfter(rev, m, keywords);
  }

  /** The last post alerted from `rev[k..]`, located in `rev`: nothing after it is alerted. */
  lemma LastAlertAt(rev: seq<Post>, k: nat, keywords: seq<string>) returns (m: nat)
    requires k <= |rev| && Alerted(rev[k..], keywords) != []
    ensures k <= m < |rev|
    ensures var alerts := Alerted(rev[k..], keywords); alerts[|alerts| - 1] == rev[m]
    ensures Alerted(rev[m + 1..], keywords) == []
  {
    var tail := rev[k..];
    var j := LastAlertHit(tail, keywords);
    m := k + j;
    assert tail[j] == rev[m];
    assert rev[m + 1..] == tail[j + 1..];
  }

  /** Resuming after a post with nothing to alert after it alerts nothing. */
  lemma ResumeAfter(rev: seq<Post>, m: nat, keywords: seq<string>)
    requires DistinctTitles(rev) && m < |rev| && rev[m].title != ""
    requires Alerted(rev[m + 1..], keywords) == []
    ensures Alerted(rev[StartIndex(rev, rev[m].title)..], keywords) == []
  {
    StartAfterTitle(rev, m);
  }

  /**
   * The remembered title is only the title of a post; when the newest fetched
   * post has an empty title, a run that alerts nothing remembers "", and the
   * next run on the same list starts again from the beginning and alerts on a
   * post that the first run had already passed.
   */
  lemma EmptyTitleReAlerts()
    ensures var fetched := [Post("", "https://theqoo.net/3"), Post("x", "https://theqoo.net/2"), Post("밤식 오늘", "https://theqoo.net/1")];
      && NewAlerts("x", fetched, Keywords) == []
      && NextTitle("x", fetched, Keywords) == ""
      && NewAlerts("", fetched, Keywords) == [Post("밤식 오늘", "https://theqoo.net/1")]
  {
    var p1 := Post("밤식 오늘", "https://theqoo.net/1");
    var fetched := [Post("", "https://theqoo.net/3"), Post("x", "https://theqoo.net/2"), p1];
    var rev := Reverse(fetched);
    assert rev == [p1, fetched[1], fetched[0]];
    assert rev[0].title != "x" && rev[1].title == "x";
    assert TitleIndex(rev[1..], "x") == Some(0);
    assert TitleIndex(rev, "x") == Some(1);
    assert StartIndex(rev, "x") == 2;
    assert !HasKeyword("", Keywords) by {
      forall k | k in Keywords ensures !Contains("", k) {
        assert !OccursAt("", k, 0);
      }
    }
    assert rev[2..] == [fetched[0]];
    assert Alerted([fetched[0]], Keywords) == Alerted([], Keywords) + [];
    assert Contains(p1.title, "밤식");
    assert HasKeyword(p1.title, Keywords);
    assert !HasKeyword("x", Keywords) by {
      forall k | k in Keywords ensures !Contains("x", k) {
        assert |k| >= 2;
      }
    }
    assert rev[0..] == rev;
    assert rev[..2] == [p1, fetched[1]];
    assert rev[..1] == [p1];
    assert Alerted([p1], Keywords) == Alerted([], Keywords) + [p1];
    assert Alerted(rev[..2], Keywords) == [p1];
  }
}
