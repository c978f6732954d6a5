/**
 * The per-subreddit title filter of `process_submission` and the notification
 * that `notify` hands to the delivery layer.
 */
module Filter {
  import opened Text
  import opened Results

  /** One subreddit's normalised filter: lower-case include and exclude terms. */
  datatype Filters = Filters(includes: seq<string>, excludes: seq<string>)

  /** What is handed to the notification sink: a title and a body. */
  datatype Notification = Notification(title: string, body: string)

  /** Prefix of every notification body; the permalink follows it. */
  const RedditBase: string := "https://www.reddit.com"

  /** Python's `any(term in text for term in terms)`, evaluated left to right. */
  function AnyContained(terms: seq<string>, text: string): (r: bool)
    ensures r <==> exists k :: 0 <= k < |terms| && Contains(text, terms[k])
  {
    if terms == [] then false
    else if Contains(text, terms[0]) then
      assert Contains(text, terms[0]);
      true
    else
      var rest := AnyContained(terms[1..], text);
      assert forall k :: 1 <= k < |terms| ==> terms[k] == terms[1..][k - 1];
      rest
  }

  /**
   * The filter decision: some include term occurs in the lower-cased title and
   * no exclude term does. An empty include list therefore matches nothing.
   */
  function Matches(f: Filters, title: string): (r: bool)
    ensures r <==>
      (exists k :: 0 <= k < |f.includes| && Contains(Lower(title), f.includes[k])) &&
      (forall k :: 0 <= k < |f.excludes| ==> !Contains(Lower(title), f.excludes[k]))
  {
    var text := Lower(title);
    AnyContained(f.includes, text) && !AnyContained(f.excludes, text)
  }

  /** The notification for a post: its title unchanged, its link as the body. */
  function Notify(title: string, permalink: string): (n: Notification)
    ensures n.title == title
    ensures |n.body| == |RedditBase| + |permalink|
    ensures n.body[..|RedditBase|] == RedditBase && n.body[|RedditBase|..] == permalink
  {
    Notification(title, RedditBase + permalink)
  }

  /** Different posts (title or permalink) never share a notification. */
  lemma NotifyInjective(t1: string, p1: string, t2: string, p2: string)
    ensures Notify(t1, p1) == Notify(t2, p2) ==> t1 == t2 && p1 == p2
  {
  }

  /**
   * `process_submission` without its side effect: the notification it sends,
   * if any. The subreddit name of the post is lower-cased before the lookup.
   */
  function Process(subreddits: map<string, Filters>, title: string, sub: string, permalink: string): (r: Option<Notification>)
    requires Lower(sub) in subreddits
    ensures r.Some? <==> Matches(subreddits[Lower(sub)], title)
    ensures r.Some? ==> r.value.title == title && r.value.body == RedditBase + permalink
  {
    if Matches(subreddits[Lower(sub)], title) then Some(Notify(title, permalink)) else None
  }

  /** With no include terms, no title is ever notified, whatever the exclude list. */
  lemma EmptyIncludeNeverMatches(excludes: seq<string>, title: string)
    ensures !Matches(Filters([], excludes), title)
  {
  }

  /** One exclude term found in the title vetoes it, whatever the include terms. */
  lemma ExcludeVetoes(f: Filters, title: string, k: nat)
    requires k < |f.excludes| && Contains(Lower(title), f.excludes[k])
    ensures !Matches(f, title)
  {
  }

  /** An empty include term occurs in every title, so it lets every title through. */
  lemma EmptyTermMatchesEverything(title: string)
    ensures Matches(Filters([""], []), title)
  {
    assert OccursAt("", Lower(title), 0);
  }

  /** Containment is on substrings, not words: "cat" matches "Category". */
  lemma SubstringNotWord()
    ensures Matches(Filters(["cat"], []), "Category")
  {
    var s := "Category";
    forall i | 0 <= i < 3 ensures Lower(s)[i] == "cat"[i] {
      assert Lower(s)[i] == LowerChar(s[i]);
    }
    assert Lower(s)[0..3] == "cat";
    assert OccursAt("cat", Lower(s), 0);
  }

  /** The filter of the example subreddit: include ["election"], exclude ["satire"]. */
  function ElectionFilter(): Filters
  {
    Filters(["election"], ["satire"])
  }

  /** "Election results delayed" holds the include term and no exclude term: it notifies. */
  lemma ElectionResultsNotify()
    ensures Matches(ElectionFilter(), "Election results delayed")
  {
    var s := "Election results delayed";
    var a := Lower(s);
    forall i | 0 <= i < |s| ensures a[i] == "election results delayed"[i] {
      assert a[i] == LowerChar(s[i]);
    }
    assert a == "election results delayed";
    assert OccursAt("election", a, 0);
    forall i | 0 <= i <= |a| - 6 ensures !OccursAt("satire", a, i) {
      if a[i] != 's' { MismatchAt("satire", a, i, 0); } else { MismatchAt("satire", a, i, 1); }
    }
  }

  /** "Election satire roundup" holds the exclude term: it does not notify. */
  lemma ElectionSatireVetoed()
    ensures !Matches(ElectionFilter(), "Election satire roundup")
  {
    var s := "Election satire roundup";
    var b := Lower(s);
    forall i | 9 <= i < 15 ensures b[i] == "satire"[i - 9] {
      assert b[i] == LowerChar(s[i]);
    }
    assert b[9..15] == "satire";
    assert OccursAt("satire", b, 9);
  }

  /** "Local weather" holds no include term: it does not notify. */
  lemma LocalWeatherIgnored()
    ensures !Matches(ElectionFilter(), "Local weather")
  {
    var s := "Local weather";
    var c := Lower(s);
    forall i | 0 <= i < |s| ensures c[i] == "local weather"[i] {
      assert c[i] == LowerChar(s[i]);
    }
    forall i | 0 <= i <= |c| - 8 ensures !OccursAt("election", c, i) {
      MismatchAt("election", c, i, 0);
    }
  }
}
