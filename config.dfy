/**
 * `validate_config`: the shape checks run over the parsed configuration
 * document, in a fixed order, and the normalisation of the subreddit filters
 * (lower-cased terms, lower-cased subreddit names, missing lists as empty).
 */
module Config {
  import opened Text
  import opened Filter
  import opened Results

  /**
   * A parsed document value: a string, a list, a mapping with string keys in
   * document order, or any other scalar (numbers, booleans, null).
   */
  datatype YValue =
    | YStr(s: string)
    | YList(items: seq<YValue>)
    | YMap(entries: seq<(string, YValue)>)
    | YOther

  /**
   * A value the YAML loader can produce: no mapping holds a key twice, at any
   * depth (a repeated key in the file leaves a single entry).
   */
  predicate WellFormed(v: YValue)
  {
    match v
    case YMap(entries) =>
      && DistinctKeys(entries)
      && forall i :: 0 <= i < |entries| ==> WellFormed(entries[i].1)
    case YList(items) => forall i :: 0 <= i < |items| ==> WellFormed(items[i])
    case _ => true
  }

  /** A parsed configuration document: a mapping as the loader produces it. */
  predicate WellFormedDocument(config: seq<(string, YValue)>)
  {
    WellFormed(YMap(config))
  }

  /** A value found in a well-formed mapping is well-formed. */
  lemma WellFormedGet(m: seq<(string, YValue)>, key: string)
    ensures WellFormed(YMap(m)) && Get(m, key).Some? ==> WellFormed(Get(m, key).value)
  {
    if Get(m, key).Some? {
      GetFound(m, key);
    }
  }

  /** A prefix of a well-formed mapping is well-formed. */
  lemma WellFormedPrefix(m: seq<(string, YValue)>, n: nat)
    requires WellFormed(YMap(m)) && n <= |m|
    ensures WellFormed(YMap(m[..n]))
  {
  }

  /** The validated configuration the rest of the program uses. */
  datatype Settings = Settings(
    apprise: seq<YValue>,
    client: string,
    secret: string,
    agent: string,
    subreddits: seq<(string, Filters)>)

  const MissingReddit: string := "Invalid config: missing reddit config"
  const MissingClient: string := "Invalid config: missing reddit -> client config"
  const MissingSecret: string := "Invalid config: missing reddit -> secret config"
  const MissingAgent: string := "Invalid config: missing reddit -> agent config"
  const MissingSubreddits: string := "Invalid config: missing reddit -> subreddits config"
  const MissingApprise: string := "Invalid config: missing apprise config"

  /** The message for a subreddit whose filters are not a mapping. */
  function NotAMapping(conf: string): string
  {
    "Invalid config: '" + conf + "' must contain 'include' and/or 'exclude' as dictionaries"
  }

  /** The message for an `include` or `exclude` entry that is not a list of strings. */
  function NotStrings(key: string, conf: string): string
  {
    "Invalid config: '" + key + "' in '" + conf + "' must be a list of strings"
  }

  // ---------------------------------------------------------------------------
  // Ordered mappings, as Python dictionaries keep them

  /** The value stored under `key`, if any. */
  function Get<V>(m: seq<(string, V)>, key: string): (r: Option<V>)
    ensures r.None? <==> forall j :: 0 <= j < |m| ==> m[j].0 != key
  {
    if m == [] then None
    else if m[0].0 == key then Some(m[0].1)
    else
      var r := Get(m[1..], key);
      assert forall j :: 1 <= j < |m| ==> m[j] == m[1..][j - 1];
      r
  }

  /** What `Get` returns is the value of the first entry with that key. */
  lemma {:induction false} GetFound<V>(m: seq<(string, V)>, key: string)
    requires Get(m, key).Some?
    ensures exists i :: 0 <= i < |m| && m[i] == (key, Get(m, key).value) && forall j :: 0 <= j < i ==> m[j].0 != key
  {
    if m[0].0 != key {
      GetFound(m[1..], key);
      var i :| 0 <= i < |m| - 1 && m[1..][i] == (key, Get(m, key).value) && forall j :: 0 <= j < i ==> m[1..][j].0 != key;
      assert m[i + 1] == (key, Get(m, key).value);
    } else {
      assert m[0] == (key, Get(m, key).value);
    }
  }

  /** `d[k] = v` on an insertion-ordered dictionary: replace in place, or append. */
  function Put<V>(d: seq<(string, V)>, k: string, v: V): seq<(string, V)>
  {
    if d == [] then [(k, v)]
    else if d[0].0 == k then [(k, v)] + d[1..]
    else [d[0]] + Put(d[1..], k, v)
  }

  /** No key occurs twice. */
  predicate DistinctKeys<V>(d: seq<(string, V)>)
  {
    forall j, k :: 0 <= j < k < |d| ==> d[j].0 != d[k].0
  }

  /** The keys of `d`. */
  function Keys<V>(d: seq<(string, V)>): set<string>
  {
    set j | 0 <= j < |d| :: d[j].0
  }

  /**
   * `{k.lower(): v for k, v in d.items()}`: entries are stored in order with
   * `Put`, so a later entry whose key lower-cases to one already stored takes
   * that key's position (`PutPosition`) and its value wins (`LowerKeysLastWins`).
   */
  function LowerKeys<V>(d: seq<(string, V)>): seq<(string, V)>
  {
    if d == [] then []
    else
      var n := |d| - 1;
      Put(LowerKeys(d[..n]), Lower(d[n].0), d[n].1)
  }

  /** The keys of a non-empty dictionary: its first key and the keys of the rest. */
  lemma KeysCons<V>(d: seq<(string, V)>)
    requires d != []
    ensures Keys(d) == {d[0].0} + Keys(d[1..])
  {
  }

  /** Storing under `k` makes `k` map to `v`, leaves other keys alone and keeps keys distinct. */
  lemma {:induction false} PutSpec<V>(d: seq<(string, V)>, k: string, v: V)
    requires DistinctKeys(d)
    ensures DistinctKeys(Put(d, k, v))
    ensures Keys(Put(d, k, v)) == Keys(d) + {k}
    ensures Get(Put(d, k, v), k) == Some(v)
    ensures forall k' :: k' != k ==> Get(Put(d, k, v), k') == Get(d, k')
  {
    var r := Put(d, k, v);
    if d == [] {
      assert Keys(r) == {k} by { KeysCons(r); }
    } else if d[0].0 == k {
      assert r[1..] == d[1..];
      KeysCons(r);
      KeysCons(d);
    } else {
      PutSpec(d[1..], k, v);
      assert r[1..] == Put(d[1..], k, v);
      KeysCons(r);
      KeysCons(d);
      assert d[0].0 !in Keys(d[1..]);
      assert forall j :: 0 <= j < |r| - 1 ==> r[1..][j] == r[j + 1];
    }
  }

  /**
   * Where `Put` stores: a key already present keeps its position and takes
   * the new value; a new key is appended at the end.
   */
  lemma {:induction false} PutPosition<V>(d: seq<(string, V)>, k: string, v: V)
    requires DistinctKeys(d)
    ensures k in Keys(d) ==>
      |Put(d, k, v)| == |d| &&
      forall j :: 0 <= j < |d| ==> Put(d, k, v)[j] == if d[j].0 == k then (k, v) else d[j]
    ensures k !in Keys(d) ==> Put(d, k, v) == d + [(k, v)]
  {
    if d != [] {
      KeysCons(d);
      if d[0].0 == k {
        assert k !in Keys(d[1..]);
      } else {
        PutPosition(d[1..], k, v);
      }
    }
  }

  /** The lower-cased keys of the entries of `d`. */
  function LoweredKeys<V>(d: seq<(string, V)>): set<string>
  {
    set j | 0 <= j < |d| :: Lower(d[j].0)
  }

  /** The lower-cased keys of a non-empty dictionary, split at its last entry. */
  lemma LoweredKeysSnoc<V>(d: seq<(string, V)>)
    requires d != []
    ensures LoweredKeys(d) == LoweredKeys(d[..|d| - 1]) + {Lower(d[|d| - 1].0)}
  {
  }

  /**
   * Lower-casing the keys of a dictionary gives distinct keys, exactly the
   * lower-cased original keys.
   */
  lemma {:induction false} LowerKeysKeys<V>(d: seq<(string, V)>)
    ensures DistinctKeys(LowerKeys(d))
    ensures Keys(LowerKeys(d)) == LoweredKeys(d)
  {
    if d != [] {
      var n := |d| - 1;
      LowerKeysKeys(d[..n]);
      PutSpec(LowerKeys(d[..n]), Lower(d[n].0), d[n].1);
      LoweredKeysSnoc(d);
    }
  }

  /** Index `i` holds the last entry of `d` whose key lower-cases to that of `d[i]`. */
  predicate LastOfLowerKey<V>(d: seq<(string, V)>, i: int)
    requires 0 <= i < |d|
  {
    forall j :: i < j < |d| ==> Lower(d[j].0) != Lower(d[i].0)
  }

  /**
   * After lower-casing the keys, each lower-cased key holds the value of the
   * last original entry with that lower-cased key.
   */
  lemma {:induction false} LowerKeysLastWins<V>(d: seq<(string, V)>)
    ensures forall i :: 0 <= i < |d| && LastOfLowerKey(d, i) ==> Get(LowerKeys(d), Lower(d[i].0)) == Some(d[i].1)
  {
    if d != [] {
      var n := |d| - 1;
      var p := d[..n];
      LowerKeysLastWins(p);
      LowerKeysKeys(p);
      PutSpec(LowerKeys(p), Lower(d[n].0), d[n].1);
      forall i | 0 <= i < |d| && LastOfLowerKey(d, i)
        ensures Get(LowerKeys(d), Lower(d[i].0)) == Some(d[i].1)
      {
        if i < n {
          assert Lower(d[n].0) != Lower(d[i].0);
          assert p[i] == d[i];
          assert LastOfLowerKey(p, i);
        }
      }
    }
  }

  // ---------------------------------------------------------------------------
  // Checking and normalising one subreddit's filters

  predicate IsMapping(v: Option<YValue>) { v.Some? && v.value.YMap? }
  predicate IsString(v: Option<YValue>) { v.Some? && v.value.YStr? }
  predicate IsList(v: Option<YValue>) { v.Some? && v.value.YList? }

  /** `isinstance(v, list) and all(isinstance(item, str) for item in v)`. */
  predicate IsStringList(v: YValue)
  {
    v.YList? && forall i :: 0 <= i < |v.items| ==> v.items[i].YStr?
  }

  /** `filters.get(key, [])`. */
  function TermsOrEmpty(filters: seq<(string, YValue)>, key: string): YValue
  {
    match Get(filters, key)
    case Some(v) => v
    case None => YList([])
  }

  /** `[x.lower() for x in items]` for a list of strings. */
  function LowerTerms(items: seq<YValue>): (r: seq<string>)
    requires forall i :: 0 <= i < |items| ==> items[i].YStr?
  {
    seq(|items|, i requires 0 <= i < |items| => Lower(items[i].s))
  }

  /** Every term of the filter is in lower case. */
  predicate LowerFilters(f: Filters)
  {
    && (forall t :: t in f.includes ==> IsLower(t))
    && (forall t :: t in f.excludes ==> IsLower(t))
  }

  /** The checks and the rewrite of one subreddit entry, as in the body of the loop. */
  function NormaliseEntry(conf: string, filters: YValue): (r: Result<Filters>)
    requires WellFormed(filters)
    ensures r.Success? ==> LowerFilters(r.value)
    ensures r.Failure? ==> r.error in {NotAMapping(conf), NotStrings("include", conf), NotStrings("exclude", conf)}
  {
    if !filters.YMap? then Failure(NotAMapping(conf))
    else
      var inc := TermsOrEmpty(filters.entries, "include");
      var exc := TermsOrEmpty(filters.entries, "exclude");
      if !IsStringList(inc) then Failure(NotStrings("include", conf))
      else if !IsStringList(exc) then Failure(NotStrings("exclude", conf))
      else Success(Filters(LowerTerms(inc.items), LowerTerms(exc.items)))
  }

  /**
   * A missing `include` or `exclude` becomes an empty list, and a present one
   * keeps its terms in order, each lower-cased.
   */
  lemma NormaliseEntryTerms(conf: string, entries: seq<(string, YValue)>)
    requires WellFormed(YMap(entries)) && NormaliseEntry(conf, YMap(entries)).Success?
    ensures var f := NormaliseEntry(conf, YMap(entries)).value;
      && (Get(entries, "include").None? ==> f.includes == [])
      && (Get(entries, "exclude").None? ==> f.excludes == [])
      && (Get(entries, "include").Some? ==>
            |f.includes| == |Get(entries, "include").value.items| &&
            forall i :: 0 <= i < |f.includes| ==> f.includes[i] == Lower(Get(entries, "include").value.items[i].s))
      && (Get(entries, "exclude").Some? ==>
            |f.excludes| == |Get(entries, "exclude").value.items| &&
            forall i :: 0 <= i < |f.excludes| ==> f.excludes[i] == Lower(Get(entries, "exclude").value.items[i].s))
  {
  }

  /** The loop over the subreddit entries, stopping at the first failing entry. */
  function NormaliseAll(subs: seq<(string, YValue)>): Result<seq<(string, Filters)>>
    requires WellFormed(YMap(subs))
  {
    if subs == [] then Success([])
    else
      var n := |subs| - 1;
      WellFormedPrefix(subs, n);
      match NormaliseAll(subs[..n])
      case Failure(m) => Failure(m)
      case Success(done) =>
        match NormaliseEntry(subs[n].0, subs[n].1)
        case Failure(m) => Failure(m)
        case Success(f) => Success(done + [(subs[n].0, f)])
  }

  /** A failure on a prefix of the entries is the failure of the whole loop. */
  lemma {:induction false} NormaliseAllStops(subs: seq<(string, YValue)>, i: nat)
    requires WellFormed(YMap(subs)) && i <= |subs|
    requires (WellFormedPrefix(subs, i); NormaliseAll(subs[..i]).Failure?)
    ensures NormaliseAll(subs) == NormaliseAll(subs[..i])
    decreases |subs|
  {
    if i < |subs| {
      var n := |subs| - 1;
      assert subs[..n][..i] == subs[..i];
      WellFormedPrefix(subs, n);
      NormaliseAllStops(subs[..n], i);
    } else {
      assert subs[..i] == subs;
    }
  }

  /** On success every entry keeps its key, in order, with its filters normalised. */
  lemma {:induction false} NormaliseAllShape(subs: seq<(string, YValue)>)
    requires WellFormed(YMap(subs)) && NormaliseAll(subs).Success?
    ensures |NormaliseAll(subs).value| == |subs|
    ensures forall i :: 0 <= i < |subs| ==>
      NormaliseAll(subs).value[i].0 == subs[i].0 &&
      NormaliseEntry(subs[i].0, subs[i].1) == Success(NormaliseAll(subs).value[i].1)
  {
    if subs != [] {
      WellFormedPrefix(subs, |subs| - 1);
      NormaliseAllShape(subs[..|subs| - 1]);
    }
  }

  // ---------------------------------------------------------------------------
  // The whole validation

  /** `validate_config`: the six top-level checks in order, then the subreddit loop. */
  function Validate(config: seq<(string, YValue)>): Result<Settings>
    requires WellFormedDocument(config)
  {
    if !IsMapping(Get(config, "reddit")) then Failure(MissingReddit)
    else
      var reddit := Get(config, "reddit").value.entries;
      if !IsString(Get(reddit, "client")) then Failure(MissingClient)
      else if !IsString(Get(reddit, "secret")) then Failure(MissingSecret)
      else if !IsString(Get(reddit, "agent")) then Failure(MissingAgent)
      else if !IsMapping(Get(reddit, "subreddits")) then Failure(MissingSubreddits)
      else if !IsList(Get(config, "apprise")) then Failure(MissingApprise)
      else
        WellFormedGet(config, "reddit");
        WellFormedGet(reddit, "subreddits");
        match NormaliseAll(Get(reddit, "subreddits").value.entries)
        case Failure(m) => Failure(m)
        case Success(done) =>
          Success(Settings(
            Get(config, "apprise").value.items,
            Get(reddit, "client").value.s,
            Get(reddit, "secret").value.s,
            Get(reddit, "agent").value.s,
            LowerKeys(done)))
  }

  /**
   * `validate_config` step by step: each failed check ends the validation with
   * its message; each subreddit entry is checked and rewritten in turn; the
   * subreddit names are lower-cased at the end.
   */
  method ValidateConfig(config: seq<(string, YValue)>) returns (r: Result<Settings>)
    requires WellFormedDocument(config)
    ensures r == Validate(config)
  {
    var redditSection := Get(config, "reddit");
    if !IsMapping(redditSection) {
      return Failure(MissingReddit);
    }
    var reddit := redditSection.value.entries;
    if !IsString(Get(reddit, "client")) {
      return Failure(MissingClient);
    }
    if !IsString(Get(reddit, "secret")) {
      return Failure(MissingSecret);
    }
    if !IsString(Get(reddit, "agent")) {
      return Failure(MissingAgent);
    }
    if !IsMapping(Get(reddit, "subreddits")) {
      return Failure(MissingSubreddits);
    }
    if !IsList(Get(config, "apprise")) {
      return Failure(MissingApprise);
    }
    var subs := Get(reddit, "subreddits").value.entries;
    WellFormedGet(config, "reddit");
    WellFormedGet(reddit, "subreddits");
    var done: seq<(string, Filters)> := [];
    for i := 0 to |subs|
      invariant WellFormed(YMap(subs[..i]))
      invariant NormaliseAll(subs[..i]) == Success(done)
    {
      WellFormedPrefix(subs, i + 1);
      var conf := subs[i].0;
      var filters := subs[i].1;
      assert subs[..i + 1][..i] == subs[..i];
      if !filters.YMap? {
        NormaliseAllStops(subs, i + 1);
        return Failure(NotAMapping(conf));
      }
      var inc := TermsOrEmpty(filters.entries, "include");
      var exc := TermsOrEmpty(filters.entries, "exclude");
      if !IsStringList(inc) {
        NormaliseAllStops(subs, i + 1);
        return Failure(NotStrings("include", conf));
      }
      if !IsStringList(exc) {
        NormaliseAllStops(subs, i + 1);
        return Failure(NotStrings("exclude", conf));
      }
      done := done + [(conf, Filters(LowerTerms(inc.items), LowerTerms(exc.items)))];
    }
    assert subs[..|subs|] == subs;
    r := Success(Settings(
      Get(config, "apprise").value.items,
      Get(reddit, "client").value.s,
      Get(reddit, "secret").value.s,
      Get(reddit, "agent").value.s,
      LowerKeys(done)));
  }

  // ---------------------------------------------------------------------------
  // The checks as a flat list, in the order they are made

  /** One shape check: whether it passes, and the message it stops with otherwise. */
  datatype Check = Check(ok: bool, message: string)

  /** The `reddit` section if it is a mapping, otherwise nothing. */
  function RedditSection(config: seq<(string, YValue)>): (r: seq<(string, YValue)>)
    ensures WellFormedDocument(config) ==> WellFormed(YMap(r))
  {
    WellFormedGet(config, "reddit");
    if IsMapping(Get(config, "reddit")) then Get(config, "reddit").value.entries else []
  }

  /** The `reddit -> subreddits` section if it is a mapping, otherwise nothing. */
  function SubredditSection(config: seq<(string, YValue)>): (r: seq<(string, YValue)>)
    ensures WellFormedDocument(config) ==> WellFormed(YMap(r))
  {
    var reddit := RedditSection(config);
    WellFormedGet(reddit, "subreddits");
    if IsMapping(Get(reddit, "subreddits")) then Get(reddit, "subreddits").value.entries else []
  }

  /** The six top-level checks: reddit, client, secret, agent, subreddits, apprise. */
  function TopChecks(config: seq<(string, YValue)>): seq<Check>
  {
    var reddit := RedditSection(config);
    [ Check(IsMapping(Get(config, "reddit")), MissingReddit),
      Check(IsString(Get(reddit, "client")), MissingClient),
      Check(IsString(Get(reddit, "secret")), MissingSecret),
      Check(IsString(Get(reddit, "agent")), MissingAgent),
      Check(IsMapping(Get(reddit, "subreddits")), MissingSubreddits),
      Check(IsList(Get(config, "apprise")), MissingApprise) ]
  }

  /** The three checks of one subreddit entry: a mapping, then include, then exclude. */
  function EntryChecks(conf: string, filters: YValue): seq<Check>
  {
    [ Check(filters.YMap?, NotAMapping(conf)),
      Check(filters.YMap? && IsStringList(TermsOrEmpty(filters.entries, "include")), NotStrings("include", conf)),
      Check(filters.YMap? && IsStringList(TermsOrEmpty(filters.entries, "exclude")), NotStrings("exclude", conf)) ]
  }

  /** The checks of all subreddit entries, entry by entry in document order. */
  function SubChecks(subs: seq<(string, YValue)>): seq<Check>
  {
    if subs == [] then []
    else SubChecks(subs[..|subs| - 1]) + EntryChecks(subs[|subs| - 1].0, subs[|subs| - 1].1)
  }

  /** Every check of the configuration, in order. */
  function AllChecks(config: seq<(string, YValue)>): seq<Check>
  {
    TopChecks(config) + SubChecks(SubredditSection(config))
  }

  predicate AllPass(checks: seq<Check>)
  {
    forall k :: 0 <= k < |checks| ==> checks[k].ok
  }

  /** `message` is the message of the first check that fails. */
  predicate FirstFailure(checks: seq<Check>, message: string)
  {
    exists k :: 0 <= k < |checks| && !checks[k].ok && checks[k].message == message && AllPass(checks[..k])
  }

  lemma AllPassConcat(a: seq<Check>, b: seq<Check>)
    ensures AllPass(a + b) <==> AllPass(a) && AllPass(b)
  {
    assert forall k :: 0 <= k < |a| ==> (a + b)[k] == a[k];
    assert forall k :: 0 <= k < |b| ==> (a + b)[|a| + k] == b[k];
    if AllPass(a) && AllPass(b) {
      forall k | 0 <= k < |a + b| ensures (a + b)[k].ok {
        if k >= |a| {
          assert (a + b)[k] == b[k - |a|];
        }
      }
    }
  }

  lemma FirstFailureConcat(a: seq<Check>, b: seq<Check>, message: string)
    ensures FirstFailure(a, message) ==> FirstFailure(a + b, message)
    ensures AllPass(a) && FirstFailure(b, message) ==> FirstFailure(a + b, message)
  {
    if FirstFailure(a, message) {
      var k :| 0 <= k < |a| && !a[k].ok && a[k].message == message && AllPass(a[..k]);
      assert (a + b)[..k] == a[..k];
    }
    if AllPass(a) && FirstFailure(b, message) {
      var k :| 0 <= k < |b| && !b[k].ok && b[k].message == message && AllPass(b[..k]);
      assert (a + b)[..|a| + k] == a + b[..k];
      AllPassConcat(a, b[..k]);
    }
  }

  /** One entry's checks agree with the body of the loop. */
  lemma EntryChecksAgree(conf: string, filters: YValue)
    requires WellFormed(filters)
    ensures NormaliseEntry(conf, filters).Success? <==> AllPass(EntryChecks(conf, filters))
    ensures NormaliseEntry(conf, filters).Failure? ==>
      FirstFailure(EntryChecks(conf, filters), NormaliseEntry(conf, filters).error)
  {
    var c := EntryChecks(conf, filters);
    if !c[0].ok {
      assert AllPass(c[..0]);
    } else if !c[1].ok {
      assert AllPass(c[..1]);
    } else if !c[2].ok {
      assert AllPass(c[..2]);
    }
  }

  /** The subreddit loop succeeds iff every entry check passes, and fails with the first failing one. */
  lemma {:induction false} NormaliseAllChecks(subs: seq<(string, YValue)>)
    requires WellFormed(YMap(subs))
    ensures NormaliseAll(subs).Success? <==> AllPass(SubChecks(subs))
    ensures NormaliseAll(subs).Failure? ==> FirstFailure(SubChecks(subs), NormaliseAll(subs).error)
  {
    if subs != [] {
      var n := |subs| - 1;
      WellFormedPrefix(subs, n);
      NormaliseAllChecks(subs[..n]);
      EntryChecksAgree(subs[n].0, subs[n].1);
      AllPassConcat(SubChecks(subs[..n]), EntryChecks(subs[n].0, subs[n].1));
      if NormaliseAll(subs).Failure? {
        FirstFailureConcat(SubChecks(subs[..n]), EntryChecks(subs[n].0, subs[n].1), NormaliseAll(subs).error);
      }
    }
  }

  /**
   * The checks run in a fixed order: validation succeeds iff every check
   * passes, and otherwise stops with the message of the first failing one,
   * where the top-level checks (reddit, client, secret, agent, subreddits,
   * apprise) come before the subreddit entries, taken in document order.
   */
  lemma ValidateReportsFirstFailure(config: seq<(string, YValue)>)
    requires WellFormedDocument(config)
    ensures Validate(config).Success? <==> AllPass(AllChecks(config))
    ensures Validate(config).Failure? ==> FirstFailure(AllChecks(config), Validate(config).error)
  {
    var top := TopChecks(config);
    var subs := SubredditSection(config);
    var r := Validate(config);
    TopChecksAgree(config);
    NormaliseAllChecks(subs);
    AllPassConcat(top, SubChecks(subs));
    if r.Failure? {
      FirstFailureConcat(top, SubChecks(subs), r.error);
    }
  }

  /** The top-level checks agree with `Validate`, which reaches the subreddit loop only when all pass. */
  lemma TopChecksAgree(config: seq<(string, YValue)>)
    requires WellFormedDocument(config)
    ensures !AllPass(TopChecks(config)) ==>
      Validate(config).Failure? && FirstFailure(TopChecks(config), Validate(config).error)
    ensures AllPass(TopChecks(config)) ==>
      match NormaliseAll(SubredditSection(config))
      case Failure(m) => Validate(config) == Failure(m)
      case Success(_) => Validate(config).Success?
  {
    var top := TopChecks(config);
    var r := Validate(config);
    if !IsMapping(Get(config, "reddit")) {
      assert AllPass(top[..0]) && !top[0].ok && r == Failure(top[0].message);
    } else {
      var reddit := Get(config, "reddit").value.entries;
      assert RedditSection(config) == reddit;
      if !IsString(Get(reddit, "client")) {
        assert AllPass(top[..1]) && !top[1].ok && r == Failure(top[1].message);
      } else if !IsString(Get(reddit, "secret")) {
        assert AllPass(top[..2]) && !top[2].ok && r == Failure(top[2].message);
      } else if !IsString(Get(reddit, "agent")) {
        assert AllPass(top[..3]) && !top[3].ok && r == Failure(top[3].message);
      } else if !IsMapping(Get(reddit, "subreddits")) {
        assert AllPass(top[..4]) && !top[4].ok && r == Failure(top[4].message);
      } else if !IsList(Get(config, "apprise")) {
        assert AllPass(top[..5]) && !top[5].ok && r == Failure(top[5].message);
      } else {
        assert AllPass(top);
        assert SubredditSection(config) == Get(reddit, "subreddits").value.entries;
      }
    }
  }

  /** Storing lower-case filters keeps every value lower case. */
  lemma {:induction false} PutKeepsLower(d: seq<(string, Filters)>, k: string, v: Filters)
    requires forall j :: 0 <= j < |d| ==> LowerFilters(d[j].1)
    requires LowerFilters(v)
    ensures forall j :: 0 <= j < |Put(d, k, v)| ==> LowerFilters(Put(d, k, v)[j].1)
  {
    if d != [] && d[0].0 != k {
      PutKeepsLower(d[1..], k, v);
      assert forall j :: 1 <= j < |Put(d, k, v)| ==> Put(d, k, v)[j] == Put(d[1..], k, v)[j - 1];
    }
  }

  /** Lower-casing the keys keeps every value lower case. */
  lemma {:induction false} LowerKeysKeepLower(d: seq<(string, Filters)>)
    requires forall j :: 0 <= j < |d| ==> LowerFilters(d[j].1)
    ensures forall j :: 0 <= j < |LowerKeys(d)| ==> LowerFilters(LowerKeys(d)[j].1)
  {
    if d != [] {
      var n := |d| - 1;
      LowerKeysKeepLower(d[..n]);
      PutKeepsLower(LowerKeys(d[..n]), Lower(d[n].0), d[n].1);
    }
  }

  /**
   * A valid configuration has its subreddit names lower-cased and distinct,
   * exactly one for each configured name, and only lower-case filter terms.
   */
  lemma ValidateLowercases(config: seq<(string, YValue)>)
    requires WellFormedDocument(config) && Validate(config).Success?
    ensures DistinctKeys(Validate(config).value.subreddits)
    ensures Keys(Validate(config).value.subreddits) == LoweredKeys(SubredditSection(config))
    ensures forall j :: 0 <= j < |Validate(config).value.subreddits| ==>
      IsLower(Validate(config).value.subreddits[j].0) && LowerFilters(Validate(config).value.subreddits[j].1)
  {
    var subs := SubredditSection(config);
    var done := NormaliseAll(subs).value;
    var out := Validate(config).value.subreddits;
    assert out == LowerKeys(done);
    NormaliseAllShape(subs);
    LowerKeysKeys(done);
    assert LoweredKeys(done) == LoweredKeys(subs) by {
      forall x ensures x in LoweredKeys(done) <==> x in LoweredKeys(subs) {
        if x in LoweredKeys(subs) {
          var j :| 0 <= j < |subs| && Lower(subs[j].0) == x;
          assert Lower(done[j].0) == x;
        }
      }
    }
    LowerKeysKeepLower(done);
    forall j | 0 <= j < |out| ensures IsLower(out[j].0) {
      assert out[j].0 in Keys(out);
    }
  }

  /**
   * In a valid configuration, each lower-cased subreddit name holds the
   * normalised filters of the last entry whose name lower-cases to it.
   */
  lemma ValidateLastEntryWins(config: seq<(string, YValue)>, i: nat)
    requires WellFormedDocument(config) && Validate(config).Success?
    requires i < |SubredditSection(config)| && LastOfLowerKey(SubredditSection(config), i)
    ensures NormaliseEntry(SubredditSection(config)[i].0, SubredditSection(config)[i].1).Success?
    ensures Get(Validate(config).value.subreddits, Lower(SubredditSection(config)[i].0)) ==
      Some(NormaliseEntry(SubredditSection(config)[i].0, SubredditSection(config)[i].1).value)
  {
    var subs := SubredditSection(config);
    var done := NormaliseAll(subs).value;
    assert Validate(config).value.subreddits == LowerKeys(done);
    NormaliseAllShape(subs);
    LowerKeysLastWins(done);
    assert LastOfLowerKey(done, i);
  }
}
