/**
 * `validate_subreddits`: before streaming, each configured subreddit is
 * looked up once. A redirect (the subreddit does not exist) stops the program;
 * any other API error is reported and the scan goes on.
 */
module Startup {
  import opened Results

  /** What the API answers when a subreddit is looked up. */
  datatype Lookup =
    | Found      // the subreddit exists
    | Redirect   // the API redirects: no such subreddit
    | ApiFailure // any other API exception: reported, not fatal

  /** The message that stops the program for a subreddit that does not exist. */
  function InvalidSubreddit(name: string): string
  {
    "Invalid Subreddit: " + name
  }

  /**
   * Looks up `names` in order, with `answer` standing for the API. Returns the
   * fatal message, if any, and how many lookups were made.
   */
  method ValidateSubreddits(names: seq<string>, answer: string -> Lookup) returns (fatal: Option<string>, checked: nat)
    ensures checked <= |names|
    ensures fatal.None? <==> forall i :: 0 <= i < |names| ==> answer(names[i]) != Redirect
    ensures fatal.None? ==> checked == |names|
    ensures fatal.Some? ==>
      && 0 < checked
      && answer(names[checked - 1]) == Redirect
      && fatal.value == InvalidSubreddit(names[checked - 1])
      && forall i :: 0 <= i < checked - 1 ==> answer(names[i]) != Redirect
  {
    checked := 0;
    while checked < |names|
      invariant checked <= |names|
      invariant forall i :: 0 <= i < checked ==> answer(names[i]) != Redirect
    {
      var outcome := answer(names[checked]);
      checked := checked + 1;
      if outcome == Redirect {
        return Some(InvalidSubreddit(names[checked - 1])), checked;
      }
      // Found, or ApiFailure: reported and skipped.
    }
    fatal := None;
  }
}
