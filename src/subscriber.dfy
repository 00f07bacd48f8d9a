/**
 * `MQTTSubscriber` of wis2downloader/subscriber: the table of active
 * subscriptions (a Python dict, so ordered by first insertion) from topic
 * to `{target, pattern}`, and the message handler that resolves a delivered
 * topic to a target and enqueues a download job.
 *
 * The broker client is reduced to a ghost log of the subscribe, unsubscribe
 * and disconnect calls made on it.  Paths are rendered as on a POSIX host.
 */
module Subscriber {
  import opened Wrappers
  import Strings
  import PosixPath
  import Glob
  import Jobs
  import JobQueue

  datatype Subscription = Subscription(target: string, pattern: string)

  datatype BrokerCall = Subscribe(topic: string) | Unsubscribe(topic: string) | Disconnect

  /** The target that stands for "use the delivered topic as the path". */
  const TopicPlaceholder: string := "$TOPIC"

  /** `topic.replace("+", "*").replace("#", "*")`: MQTT wildcards become glob stars. */
  function WildcardPattern(topic: string): (pattern: string)
    ensures |pattern| == |topic|
    ensures forall i :: 0 <= i < |topic| ==>
              pattern[i] == (if topic[i] == '+' || topic[i] == '#' then '*' else topic[i])
  {
    Strings.ReplaceChar(Strings.ReplaceChar(topic, '+', '*'), '#', '*')
  }

  /** A topic without wildcards is its own pattern. */
  lemma PatternOfPlainTopic(topic: string)
    requires '+' !in topic && '#' !in topic
    ensures WildcardPattern(topic) == topic
  {
  }

  /** The pattern is glob-safe exactly when the topic has no '['. */
  lemma PatternGlobSafe(topic: string)
    ensures Glob.GlobSafe(WildcardPattern(topic)) <==> Glob.GlobSafe(topic)
  {
    var p := WildcardPattern(topic);
    if '[' in p {
      var i :| 0 <= i < |p| && p[i] == '[';
      assert topic[i] == '[';
    }
    if '[' in topic {
      var i :| 0 <= i < |topic| && topic[i] == '[';
      assert p[i] == '[';
    }
  }

  /** A subscription's pattern matches the subscription topic itself. */
  lemma TopicMatchesOwnPattern(topic: string)
    requires Glob.GlobSafe(topic)
    ensures Glob.GlobSafe(WildcardPattern(topic))
    ensures Glob.GlobMatch(WildcardPattern(topic), topic)
  {
    PatternGlobSafe(topic);
    Glob.PointwiseMatch(WildcardPattern(topic), topic);
  }

  /**
   * The dict invariant: `order` lists each key once in insertion order,
   * its keys are the table's keys, and every pattern is derived from its key.
   */
  ghost predicate TableInvariant(order: seq<string>, table: map<string, Subscription>)
  {
    && (forall i, j :: 0 <= i < j < |order| ==> order[i] != order[j])
    && (forall k :: k in table <==> k in order)
    && (forall k :: k in table ==> table[k].pattern == WildcardPattern(k))
  }

  /** Every key may be used as a glob pattern. */
  predicate PatternsGlobSafe(table: map<string, Subscription>)
  {
    forall k :: k in table ==> Glob.GlobSafe(k)
  }

  /** `order` without `key`, the rest kept in order. */
  function Remove(order: seq<string>, key: string): (rest: seq<string>)
    ensures forall x :: x in rest <==> x in order && x != key
    ensures |rest| <= |order|
    decreases |order|
  {
    if order == [] then []
    else if order[0] == key then Remove(order[1..], key)
    else [order[0]] + Remove(order[1..], key)
  }

  /** Removing the key found at index `i` of a duplicate-free order cuts it out there. */
  lemma {:induction false} RemoveAt(order: seq<string>, i: nat)
    requires i < |order|
    requires forall a, b :: 0 <= a < b < |order| ==> order[a] != order[b]
    ensures Remove(order, order[i]) == order[..i] + order[i + 1..]
    decreases |order|
  {
    var key := order[i];
    if i == 0 {
      assert key !in order[1..];
      RemoveAbsent(order[1..], key);
    } else {
      RemoveAt(order[1..], i - 1);
      assert order[1..][i - 1] == key;
      assert order[1..][..i - 1] == order[1..i];
      assert order[1..][i..] == order[i + 1..];
      assert [order[0]] + order[1..i] == order[..i];
    }
  }

  lemma {:induction false} RemoveAbsent(order: seq<string>, key: string)
    requires key !in order
    ensures Remove(order, key) == order
    decreases |order|
  {
    if order != [] {
      RemoveAbsent(order[1..], key);
      assert [order[0]] + order[1..] == order;
    }
  }

  /** Dropping a subscribed key from both the order and the table keeps the invariant. */
  lemma RemoveKeepsInvariant(order: seq<string>, table: map<string, Subscription>, key: string)
    requires TableInvariant(order, table) && key in table
    ensures TableInvariant(Remove(order, key), table - {key})
  {
    var rest := Remove(order, key);
    var k :| 0 <= k < |order| && order[k] == key;
    RemoveAt(order, k);
    forall i, j | 0 <= i < j < |rest| ensures rest[i] != rest[j] {
      if j < k {
        assert rest[i] == order[i] && rest[j] == order[j];
      } else if i < k {
        assert rest[i] == order[i] && rest[j] == order[j + 1];
      } else {
        assert rest[i] == order[i + 1] && rest[j] == order[j + 1];
      }
    }
  }

  /** `self.active_subscriptions.items()`, in order. */
  function Listing(order: seq<string>, table: map<string, Subscription>): seq<(string, Subscription)>
    requires forall k :: k in order ==> k in table
  {
    seq(|order|, i requires 0 <= i < |order| => (order[i], table[order[i]]))
  }

  /** The first subscription, in insertion order, whose pattern matches the topic. */
  function FirstMatch(order: seq<string>, table: map<string, Subscription>, topic: string): Option<string>
    requires forall k :: k in order ==> k in table && Glob.GlobSafe(table[k].pattern)
    decreases |order|
  {
    if order == [] then None
    else if Glob.GlobMatch(table[order[0]].pattern, topic) then Some(table[order[0]].target)
    else FirstMatch(order[1..], table, topic)
  }

  /** Exact key lookup first, otherwise the first pattern match. */
  function Resolve(order: seq<string>, table: map<string, Subscription>, topic: string): Option<string>
    requires forall k :: k in order ==> k in table && Glob.GlobSafe(table[k].pattern)
  {
    if topic in table then Some(table[topic].target) else FirstMatch(order, table, topic)
  }

  /** `$TOPIC` stands for the delivered topic. */
  function SubstituteTopic(target: string, topic: string): string
  {
    if target == TopicPlaceholder then topic else target
  }

  /**
   * The two rewrites of the handler: a target holding '/' becomes
   * `str(Path(*target.split("/")))`, then one holding a backslash becomes
   * `str(Path(*target.split("\\")))`.
   */
  function NormalizeSeparators(target: string): string
  {
    var afterSlash :=
      if '/' in target then PosixPath.Render(PosixPath.FromParts(Strings.Split(target, '/')))
      else target;
    if '\\' in afterSlash then PosixPath.Render(PosixPath.FromParts(Strings.Split(afterSlash, '\\')))
    else afterSlash
  }

  /** The target a job for `topic` carries, or None when the handler raises on it. */
  function JobTarget(order: seq<string>, table: map<string, Subscription>, topic: string): Option<string>
    requires forall k :: k in order ==> k in table && Glob.GlobSafe(table[k].pattern)
  {
    match Resolve(order, table, topic)
    case None => None
    case Some(t) => Some(NormalizeSeparators(SubstituteTopic(t, topic)))
  }

  lemma InvariantGivesSafePatterns(order: seq<string>, table: map<string, Subscription>)
    requires TableInvariant(order, table) && PatternsGlobSafe(table)
    ensures forall k :: k in order ==> k in table && Glob.GlobSafe(table[k].pattern)
  {
    forall k | k in order ensures k in table && Glob.GlobSafe(table[k].pattern) {
      PatternGlobSafe(k);
    }
  }

  /**
   * The scan picks the earliest matching entry: if entry `i` matches and no
   * earlier one does, its target is the answer.
   */
  lemma {:induction false} FirstMatchIsEarliest(order: seq<string>, table: map<string, Subscription>, topic: string, i: nat)
    requires forall k :: k in order ==> k in table && Glob.GlobSafe(table[k].pattern)
    requires i < |order| && Glob.GlobMatch(table[order[i]].pattern, topic)
    requires forall j :: 0 <= j < i ==> !Glob.GlobMatch(table[order[j]].pattern, topic)
    ensures FirstMatch(order, table, topic) == Some(table[order[i]].target)
    decreases |order|
  {
    if i > 0 {
      assert !Glob.GlobMatch(table[order[0]].pattern, topic);
      FirstMatchIsEarliest(order[1..], table, topic, i - 1);
    }
  }

  /** The scan finds nothing exactly when no entry's pattern matches. */
  lemma {:induction false} FirstMatchNone(order: seq<string>, table: map<string, Subscription>, topic: string)
    requires forall k :: k in order ==> k in table && Glob.GlobSafe(table[k].pattern)
    ensures FirstMatch(order, table, topic) == None <==>
              forall j :: 0 <= j < |order| ==> !Glob.GlobMatch(table[order[j]].pattern, topic)
    decreases |order|
  {
    if order != [] {
      FirstMatchNone(order[1..], table, topic);
      if Glob.GlobMatch(table[order[0]].pattern, topic) {
        assert FirstMatch(order, table, topic) != None;
      } else {
        forall j | 0 <= j < |order| && j > 0
          ensures !Glob.GlobMatch(table[order[j]].pattern, topic) <==> !Glob.GlobMatch(table[order[1..][j - 1]].pattern, topic)
        {
        }
      }
    }
  }

  /**
   * Resolution fails exactly when the topic is not a key and no
   * subscription's pattern matches it; then the handler raises and no job
   * is built.
   */
  lemma ResolveNoneIff(order: seq<string>, table: map<string, Subscription>, topic: string)
    requires TableInvariant(order, table) && PatternsGlobSafe(table)
    ensures forall k :: k in order ==> k in table && Glob.GlobSafe(table[k].pattern)
    ensures Resolve(order, table, topic) == None <==>
              topic !in table && forall k :: k in table ==> !Glob.GlobMatch(table[k].pattern, topic)
    ensures JobTarget(order, table, topic) == None <==> Resolve(order, table, topic) == None
  {
    InvariantGivesSafePatterns(order, table);
    FirstMatchNone(order, table, topic);
    if topic !in table && FirstMatch(order, table, topic) == None {
      forall k | k in table ensures !Glob.GlobMatch(table[k].pattern, topic) {
        var j :| 0 <= j < |order| && order[j] == k;
      }
    }
  }

  /**
   * Resolution uses the exact entry for a subscribed topic; otherwise the
   * earliest entry in insertion order whose pattern matches.
   */
  lemma ResolveChoosesEarliest(order: seq<string>, table: map<string, Subscription>, topic: string, i: nat)
    requires TableInvariant(order, table) && PatternsGlobSafe(table)
    requires i < |order|
    ensures forall k :: k in order ==> k in table && Glob.GlobSafe(table[k].pattern)
    ensures topic in table ==> Resolve(order, table, topic) == Some(table[topic].target)
    ensures topic !in table && Glob.GlobMatch(table[order[i]].pattern, topic) &&
            (forall j :: 0 <= j < i ==> !Glob.GlobMatch(table[order[j]].pattern, topic)) ==>
              Resolve(order, table, topic) == Some(table[order[i]].target)
  {
    InvariantGivesSafePatterns(order, table);
    if topic !in table && Glob.GlobMatch(table[order[i]].pattern, topic) &&
       (forall j :: 0 <= j < i ==> !Glob.GlobMatch(table[order[j]].pattern, topic)) {
      FirstMatchIsEarliest(order, table, topic, i);
    }
  }

  /** After normalisation a target never holds a backslash. */
  lemma NormalizedHasNoBackslash(target: string)
    ensures '\\' !in NormalizeSeparators(target)
  {
    var afterSlash :=
      if '/' in target then PosixPath.Render(PosixPath.FromParts(Strings.Split(target, '/')))
      else target;
    if '\\' in afterSlash {
      var pieces := Strings.Split(afterSlash, '\\');
      PosixPath.FromPartsAvoids(pieces, '\\');
      PosixPath.RenderAvoids(PosixPath.FromParts(pieces), '\\');
    }
  }

  /** The components of `target` split on `sep`, empty and "." pieces dropped, joined by '/'. */
  function Rejoined(target: string, sep: char): string
  {
    var kept := PosixPath.Keep(Strings.Split(target, sep));
    if kept == [] then "." else Strings.Join(kept, '/')
  }

  /**
   * A target that uses only one kind of separator comes out as its
   * non-empty, non-"." segments joined by '/'; one with no separator is
   * left as it is.
   */
  lemma NormalizeSingleSeparator(target: string)
    ensures '/' !in target && '\\' !in target ==> NormalizeSeparators(target) == target
    ensures '/' in target && '\\' !in target ==> NormalizeSeparators(target) == Rejoined(target, '/')
    ensures '\\' in target && '/' !in target ==> NormalizeSeparators(target) == Rejoined(target, '\\')
  {
    if '/' in target && '\\' !in target {
      var pieces := Strings.Split(target, '/');
      PosixPath.SplitAvoids(target, '/', '\\');
      PosixPath.FromPartsRelative(pieces);
      PosixPath.FromPartsAvoids(pieces, '\\');
      PosixPath.RenderAvoids(PosixPath.FromParts(pieces), '\\');
    } else if '\\' in target && '/' !in target {
      var pieces := Strings.Split(target, '\\');
      PosixPath.SplitAvoids(target, '\\', '/');
      PosixPath.FromPartsRelative(pieces);
    }
  }

  /**
   * A target that is already a clean relative path (non-empty segments,
   * none ".", no backslash) is left unchanged.
   */
  lemma NormalizeKeepsCleanPath(segments: seq<string>)
    requires |segments| >= 1
    requires forall i :: 0 <= i < |segments| ==>
               PosixPath.IsComponent(segments[i]) && '/' !in segments[i] && '\\' !in segments[i]
    ensures NormalizeSeparators(Strings.Join(segments, '/')) == Strings.Join(segments, '/')
  {
    var t := Strings.Join(segments, '/');
    Strings.JoinAvoids(segments, '/', '\\');
    Strings.SplitJoin(segments, '/');
    PosixPath.KeepComponents(segments);
    NormalizeSingleSeparator(t);
    if |segments| == 1 {
      assert t == segments[0];
    } else {
      assert t == segments[0] + ['/'] + Strings.Join(segments[1..], '/');
      assert '/' in t;
    }
  }

  /**
   * Mixed separators can make the target absolute: the first rewrite keeps
   * `a\/b` as it is, the second splits it into `a` and `/b`, and pathlib
   * lets the rooted `/b` replace everything before it.
   */
  lemma MixedSeparatorsRoot(a: string, b: string)
    requires PosixPath.IsComponent(a) && '/' !in a && '\\' !in a
    requires PosixPath.IsComponent(b) && '/' !in b && '\\' !in b
    ensures NormalizeSeparators(a + ['\\', '/'] + b) == ['/'] + b
  {
    var x := a + ['\\'];
    var t := x + ['/'] + b;
    assert t == a + ['\\', '/'] + b;
    SlashPassKeeps(x, b);
    var r := ['/'] + b;
    assert t == a + ['\\'] + r;
    Strings.SplitTwo(a, r, '\\');
    RootedLast(a, b);
  }

  /** The first rewrite leaves `x/y` alone for names `x` and `y`. */
  lemma SlashPassKeeps(x: string, y: string)
    requires PosixPath.IsComponent(x) && '/' !in x
    requires PosixPath.IsComponent(y) && '/' !in y
    ensures '/' in x + ['/'] + y
    ensures PosixPath.Render(PosixPath.FromParts(Strings.Split(x + ['/'] + y, '/'))) == x + ['/'] + y
  {
    var t := x + ['/'] + y;
    assert t[|x|] == '/';
    Strings.SplitTwo(x, y, '/');
    PosixPath.FromPartsRelative([x, y]);
    PosixPath.KeepComponents([x, y]);
    Strings.JoinTwo(x, y, '/');
  }

  /** `Path(a, "/" + b)` is the rooted path `/b`, rendered as `/b`. */
  lemma RootedLast(a: string, b: string)
    requires PosixPath.IsComponent(b) && '/' !in b
    ensures PosixPath.Render(PosixPath.FromParts([a, ['/'] + b])) == ['/'] + b
  {
    var r := ['/'] + b;
    PosixPath.ParseRooted(b);
    PosixPath.FromPartsLast([a, r]);
    assert [a, r][..1] == [a];
  }

  // The pattern of `a/+/c/#` matches `a/x/c/d/e`: the first star takes `x`, the last `d/e`.
  lemma ExamplePatternMatches()
    ensures Glob.GlobSafe("a/*/c/*") && Glob.GlobMatch("a/*/c/*", "a/x/c/d/e")
  {
    ExampleMiddleMatches();
    Glob.PointwiseMatch("a/", "a/");
    Glob.MatchConcat("a/", "a/", "*/c/*", "x/c/d/e");
    assert "a/" + "*/c/*" == "a/*/c/*";
    assert "a/" + "x/c/d/e" == "a/x/c/d/e";
  }

  lemma ExampleMiddleMatches()
    ensures Glob.GlobSafe("*/c/*") && Glob.GlobMatch("*/c/*", "x/c/d/e")
  {
    ExampleTailMatches();
    Glob.StarMatchesEverything("x");
    Glob.MatchConcat("*", "x", "/c/*", "/c/d/e");
    assert "*" + "/c/*" == "*/c/*";
    assert "x" + "/c/d/e" == "x/c/d/e";
  }

  lemma ExampleTailMatches()
    ensures Glob.GlobSafe("/c/*") && Glob.GlobMatch("/c/*", "/c/d/e")
  {
    Glob.PointwiseMatch("/c/", "/c/");
    Glob.StarMatchesEverything("d/e");
    Glob.MatchConcat("/c/", "/c/", "*", "d/e");
    assert "/c/" + "*" == "/c/*";
    assert "/c/" + "d/e" == "/c/d/e";
  }

  // The pattern of `a/+/c/#` does not match `a/x/y/c`: no `/c/` follows the first level.
  lemma ExamplePatternRejects()
    ensures Glob.GlobSafe("a/*/c/*") && !Glob.GlobMatch("a/*/c/*", "a/x/y/c")
  {
    var name := "a/x/y/c";
    Glob.LiteralPrefix("a/", "*/c/*", name);
    assert "a/" + "*/c/*" == "a/*/c/*";
    assert name[..2] == "a/" && name[2..] == "x/y/c";
    var rest := "x/y/c";
    Glob.LeadingStar("/c/*", rest);
    assert "*" + "/c/*" == "*/c/*";
    forall i | 0 <= i <= |rest| ensures !Glob.GlobMatch("/c/*", rest[i..]) {
      TailRejects(rest[i..]);
    }
  }

  // `/c/*` only matches names that begin with `/c/`.
  lemma TailRejects(s: string)
    requires |s| < 3 || s[0] != '/' || s[1] != 'c' || s[2] != '/'
    ensures Glob.GlobSafe("/c/*") && !Glob.GlobMatch("/c/*", s)
  {
    Glob.LiteralPrefix("/c/", "*", s);
    assert "/c/" + "*" == "/c/*";
  }

  lemma ExampleWildcardPattern()
    ensures WildcardPattern("a/+/c/#") == "a/*/c/*"
  {
    var p := WildcardPattern("a/+/c/#");
    assert |p| == 7;
    assert p[0] == 'a' && p[1] == '/' && p[2] == '*' && p[3] == '/';
    assert p[4] == 'c' && p[5] == '/' && p[6] == '*';
  }

  /**
   * Example: a subscription to `a/+/c/#` with target `T`
   * routes `a/x/c/d/e` to `T` and does not route `a/x/y/c`.
   */
  lemma WildcardExample(target: string)
    ensures var order, table := ["a/+/c/#"], map["a/+/c/#" := Subscription(target, WildcardPattern("a/+/c/#"))];
            && TableInvariant(order, table) && PatternsGlobSafe(table)
            && (forall k :: k in order ==> k in table && Glob.GlobSafe(table[k].pattern))
            && Resolve(order, table, "a/x/c/d/e") == Some(target)
            && Resolve(order, table, "a/x/y/c") == None
  {
    var key := "a/+/c/#";
    ExampleWildcardPattern();
    ExamplePatternMatches();
    ExamplePatternRejects();
    assert Glob.GlobSafe(key) by {
      PatternGlobSafe(key);
    }
    SingleSubscription(key, target, "a/x/c/d/e");
    SingleSubscription(key, target, "a/x/y/c");
  }

  /** With one subscription, a topic other than its key resolves exactly when the pattern matches. */
  lemma SingleSubscription(key: string, target: string, topic: string)
    requires Glob.GlobSafe(key) && topic != key
    ensures var order, table := [key], map[key := Subscription(target, WildcardPattern(key))];
            && TableInvariant(order, table) && PatternsGlobSafe(table)
            && (forall k :: k in order ==> k in table && Glob.GlobSafe(table[k].pattern))
            && Resolve(order, table, topic) == (if Glob.GlobMatch(WildcardPattern(key), topic) then Some(target) else None)
  {
    PatternGlobSafe(key);
    var order, table := [key], map[key := Subscription(target, WildcardPattern(key))];
    assert order[1..] == [];
    assert FirstMatch(order[1..], table, topic) == None;
  }

  /**
   * The glob `*` crosses levels: a subscription to `a/+` also claims
   * `a/x/y` in the scan, although `+` stands for one level in MQTT.
   */
  lemma StarCrossesLevels()
    ensures Glob.GlobSafe(WildcardPattern("a/+"))
    ensures Glob.GlobMatch(WildcardPattern("a/+"), "a/x/y")
  {
    assert WildcardPattern("a/+") == "a/" + "*";
    Glob.PointwiseMatch("a/", "a/");
    Glob.StarMatchesEverything("x/y");
    Glob.MatchConcat("a/", "a/", "*", "x/y");
    assert "a/" + "x/y" == "a/x/y";
  }

  class MqttSubscriber {
    var order: seq<string>
    var table: map<string, Subscription>
    ghost var broker: seq<BrokerCall>
    const queue: JobQueue.SimpleQueue<Jobs.Job>

    ghost predicate Valid()
      reads this
    {
      TableInvariant(order, table)
    }

    constructor (queue: JobQueue.SimpleQueue<Jobs.Job>)
      ensures Valid()
      ensures order == [] && table == map[] && broker == []
      ensures this.queue == queue
    {
      order := [];
      table := map[];
      broker := [];
      this.queue := queue;
    }

    /**
     * Subscribes to `topic` and stores `{target, pattern}` under it.  A new
     * topic goes to the end of the scan order; an existing one is
     * overwritten where it stands.  Returns the table as listed afterwards.
     */
    method AddSubscription(topic: string, target: string) returns (listing: seq<(string, Subscription)>)
      requires Valid()
      modifies this
      ensures Valid()
      ensures broker == old(broker) + [Subscribe(topic)]
      ensures table == old(table)[topic := Subscription(target, WildcardPattern(topic))]
      ensures order == if topic in old(table) then old(order) else old(order) + [topic]
      ensures listing == Listing(order, table)
    {
      broker := broker + [Subscribe(topic)];
      if topic !in table {
        order := order + [topic];
      }
      table := table[topic := Subscription(target, WildcardPattern(topic))];
      listing := Listing(order, table);
    }

    /**
     * Unsubscribes and removes `topic` when present; otherwise makes no
     * broker call and changes nothing.  Returns the table as listed afterwards.
     */
    method DeleteSubscription(topic: string) returns (listing: seq<(string, Subscription)>)
      requires Valid()
      modifies this
      ensures Valid()
      ensures topic in old(table) ==>
                && broker == old(broker) + [Unsubscribe(topic)]
                && table == old(table) - {topic}
                && order == Remove(old(order), topic)
      ensures topic !in old(table) ==>
                broker == old(broker) && table == old(table) && order == old(order)
      ensures listing == Listing(order, table)
    {
      if topic in table {
        RemoveKeepsInvariant(order, table, topic);
        broker := broker + [Unsubscribe(topic)];
        order := Remove(order, topic);
        table := table - {topic};
      }
      listing := Listing(order, table);
    }

    method ListSubscriptions() returns (listing: seq<(string, Subscription)>)
      requires Valid()
      ensures listing == Listing(order, table)
      ensures |listing| == |order|
      ensures forall i :: 0 <= i < |listing| ==> listing[i].0 == order[i] && listing[i].1 == table[order[i]]
    {
      listing := Listing(order, table);
    }

    /** The target lookup of the handler: exact key, then the first pattern match. */
    method ResolveTarget(topic: string) returns (target: Option<string>)
      requires Valid() && PatternsGlobSafe(table)
      ensures forall k :: k in order ==> k in table && Glob.GlobSafe(table[k].pattern)
      ensures target == Resolve(order, table, topic)
    {
      InvariantGivesSafePatterns(order, table);
      if topic in table {
        return Some(table[topic].target);
      }
      var i := 0;
      while i < |order|
        invariant 0 <= i <= |order|
        invariant FirstMatch(order[i..], table, topic) == FirstMatch(order, table, topic)
      {
        var key := order[i];
        if Glob.GlobMatch(table[key].pattern, topic) {
          return Some(table[key].target);
        }
        assert order[i..][1..] == order[i + 1..];
        i := i + 1;
      }
      return None;
    }

    /**
     * The handler for a delivered message: disconnects first if shutdown
     * was requested, then resolves the target and enqueues exactly one job,
     * unless nothing matches, in which case the handler raises before
     * enqueuing.  The subscription table is not changed.
     */
    method OnMessage(topic: string, payload: Jobs.Notification, shutdownRequested: bool) returns (enqueued: bool)
      requires Valid() && PatternsGlobSafe(table)
      modifies this, queue
      ensures Valid() && order == old(order) && table == old(table)
      ensures broker == old(broker) + (if shutdownRequested then [Disconnect] else [])
      ensures forall k :: k in order ==> k in table && Glob.GlobSafe(table[k].pattern)
      ensures queue.active == old(queue.active)
      ensures match JobTarget(order, table, topic)
                case None =>
                  && !enqueued
                  && queue.items == old(queue.items)
                  && queue.unfinished == old(queue.unfinished)
                case Some(t) =>
                  && enqueued
                  && queue.items == old(queue.items) + [Jobs.Download(topic, payload, t)]
                  && queue.unfinished == old(queue.unfinished) + 1
    {
      if shutdownRequested {
        broker := broker + [Disconnect];
      }
      var resolved := ResolveTarget(topic);
      if resolved == None {
        return false;
      }
      var target := SubstituteTopic(resolved.value, topic);
      target := NormalizeSeparators(target);
      queue.Enqueue(Jobs.Download(topic, payload, target));
      enqueued := true;
    }
  }
}
