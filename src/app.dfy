/**
 * The startup and shutdown logic of the application: the topic blacklist,
 * the target cleaner, the loop that installs the configured default
 * subscriptions, and the loop that wakes blocked workers with shutdown
 * sentinels.
 */
module App {
  import Strings
  import Subscriber
  import Jobs
  import JobQueue

  /** The regex class `[@_!$%^&*()<>?|}{~:]` that `validate_topic` searches for. */
  predicate TopicSpecial(c: char)
  {
    || c == '@' || c == '_' || c == '!' || c == '$' || c == '%' || c == '^' || c == '&' || c == '*'
    || c == '(' || c == ')' || c == '<' || c == '>' || c == '?' || c == '|' || c == '}' || c == '{'
    || c == '~' || c == ':'
  }

  /** Every character `validate_topic` refuses: the class, a backslash, and three escape codes. */
  predicate TopicForbidden(c: char)
  {
    TopicSpecial(c) || c == '\\' || c == '\n' || c == '\t' || c == '\r'
  }

  /** `validate_topic`: true iff no character of the topic is forbidden. */
  function ValidateTopic(topic: string): (ok: bool)
    ensures ok <==> forall i :: 0 <= i < |topic| ==> !TopicForbidden(topic[i])
  {
    !(Strings.FindFirst(topic, TopicSpecial).Some?
      || '\\' in topic || '\n' in topic || '\t' in topic || '\r' in topic)
  }

  /** The MQTT wildcards and the level separator are not refused, nor are letters, digits, '.' and '-'. */
  lemma {:induction false} WildcardTopicValid(topic: string)
    requires forall i :: 0 <= i < |topic| ==>
               || topic[i] == '+' || topic[i] == '#' || topic[i] == '/' || topic[i] == '.' || topic[i] == '-'
               || 'a' <= topic[i] <= 'z' || 'A' <= topic[i] <= 'Z' || '0' <= topic[i] <= '9'
    ensures ValidateTopic(topic)
  {
    forall i | 0 <= i < |topic| ensures !TopicForbidden(topic[i]) {
    }
  }

  /** A topic with both MQTT wildcards passes. */
  lemma WildcardTopicExample()
    ensures ValidateTopic("wis2/+/data/#")
  {
    WildcardTopicValid("wis2/+/data/#");
  }

  /** A topic with an underscore is refused. */
  lemma UnderscoreTopicExample()
    ensures !ValidateTopic("my_centre/#")
  {
    var bad := "my_centre/#";
    assert TopicForbidden(bad[2]);
  }

  /** The regex class `[@_!#$%^&*()<>?|}{~:]` that `clean_target` deletes. */
  predicate TargetSpecial(c: char)
  {
    c == '#' || TopicSpecial(c)
  }

  /** `clean_target`: the target with every special character deleted. */
  function CleanTarget(target: string): (r: string)
    ensures forall i :: 0 <= i < |r| ==> !TargetSpecial(r[i])
    ensures (forall i :: 0 <= i < |target| ==> !TargetSpecial(target[i])) ==> r == target
  {
    if Strings.FindFirst(target, TargetSpecial).Some? then Strings.RemoveAll(target, TargetSpecial)
    else
      Strings.RemoveAllNothing(target, TargetSpecial);
      target
  }

  /** Cleaning always deletes exactly the special characters, whether or not there were any. */
  lemma CleanTargetIsDeletion(target: string)
    ensures CleanTarget(target) == Strings.RemoveAll(target, TargetSpecial)
  {
    if Strings.FindFirst(target, TargetSpecial).None? {
      Strings.RemoveAllNothing(target, TargetSpecial);
    }
  }

  /**
   * Cleaning keeps order: the cleaned concatenation is the concatenation
   * of the cleaned pieces, so each kept character stays where it was
   * relative to the others.
   */
  lemma CleanTargetAppend(a: string, b: string)
    ensures CleanTarget(a + b) == CleanTarget(a) + CleanTarget(b)
  {
    CleanTargetIsDeletion(a + b);
    CleanTargetIsDeletion(a);
    CleanTargetIsDeletion(b);
    Strings.RemoveAllAppend(a, b, TargetSpecial);
  }

  /** Every other character keeps its number of occurrences; special ones have none left. */
  lemma CleanTargetCounts(target: string, c: char)
    ensures multiset(CleanTarget(target))[c] == if TargetSpecial(c) then 0 else multiset(target)[c]
  {
    CleanTargetIsDeletion(target);
    Strings.RemoveAllCounts(target, TargetSpecial, c);
  }

  /** Cleaning twice is cleaning once. */
  lemma CleanTargetIdempotent(target: string)
    ensures CleanTarget(CleanTarget(target)) == CleanTarget(target)
  {
  }

  /**
   * The placeholder loses its '$': a default subscription configured with
   * target `$TOPIC` stores the literal directory name "TOPIC".
   */
  lemma CleanTargetDropsPlaceholder()
    ensures CleanTarget(Subscriber.TopicPlaceholder) == "TOPIC"
  {
    var t := Subscriber.TopicPlaceholder;
    CleanTargetIsDeletion(t);
    assert TargetSpecial(t[0]) && t[1..] == "TOPIC";
    assert Strings.RemoveAll(t, TargetSpecial) == Strings.RemoveAll("TOPIC", TargetSpecial);
    forall i | 0 <= i < |"TOPIC"| ensures !TargetSpecial("TOPIC"[i]) {
      UpperNotSpecial("TOPIC"[i]);
    }
    Strings.RemoveAllNothing("TOPIC", TargetSpecial);
  }

  lemma UpperNotSpecial(c: char)
    requires 'A' <= c <= 'Z'
    ensures !TargetSpecial(c)
  {
  }

  /** The subscriber's state: scan order, subscription table and broker calls made. */
  datatype Registry = Registry(order: seq<string>, table: map<string, Subscriber.Subscription>, broker: seq<Subscriber.BrokerCall>)

  /** One `add_subscription(topic, target)` on a registry value. */
  function AddStep(r: Registry, topic: string, target: string): Registry
  {
    Registry(
      if topic in r.table then r.order else r.order + [topic],
      r.table[topic := Subscriber.Subscription(target, Subscriber.WildcardPattern(topic))],
      r.broker + [Subscriber.Subscribe(topic)])
  }

  /** The registry after the default-subscription loop over the configured `(topic, target)` pairs. */
  function Defaults(r: Registry, topics: seq<(string, string)>): Registry
  {
    if topics == [] then r
    else
      var before := Defaults(r, topics[..|topics| - 1]);
      var (topic, target) := topics[|topics| - 1];
      if ValidateTopic(topic) then AddStep(before, topic, CleanTarget(target)) else before
  }

  /** The configured topics are a dictionary: no topic appears twice. */
  predicate DistinctTopics(topics: seq<(string, string)>)
  {
    forall i, j :: 0 <= i < j < |topics| ==> topics[i].0 != topics[j].0
  }

  /** A topic the configuration does not mention keeps its entry, or its absence. */
  lemma {:induction false} DefaultsUntouched(r: Registry, topics: seq<(string, string)>, k: string)
    requires forall j :: 0 <= j < |topics| ==> topics[j].0 != k
    ensures k in Defaults(r, topics).table <==> k in r.table
    ensures k in r.table ==> Defaults(r, topics).table[k] == r.table[k]
    decreases |topics|
  {
    if topics != [] {
      DefaultsUntouched(r, topics[..|topics| - 1], k);
    }
  }

  /**
   * After the loop, a valid configured topic is subscribed with its cleaned
   * target and its glob pattern, and an invalid one is left as it was.
   */
  lemma {:induction false} DefaultsEntry(r: Registry, topics: seq<(string, string)>, j: nat)
    requires DistinctTopics(topics) && j < |topics|
    ensures ValidateTopic(topics[j].0) ==>
              topics[j].0 in Defaults(r, topics).table &&
              Defaults(r, topics).table[topics[j].0]
                == Subscriber.Subscription(CleanTarget(topics[j].1), Subscriber.WildcardPattern(topics[j].0))
    ensures !ValidateTopic(topics[j].0) ==>
              (topics[j].0 in Defaults(r, topics).table <==> topics[j].0 in r.table) &&
              (topics[j].0 in r.table ==> Defaults(r, topics).table[topics[j].0] == r.table[topics[j].0])
    decreases |topics|
  {
    var n := |topics| - 1;
    var init := topics[..n];
    if j == n {
      forall i | 0 <= i < |init| ensures init[i].0 != topics[j].0 {
        assert init[i] == topics[i];
      }
      DefaultsUntouched(r, init, topics[j].0);
    } else {
      assert DistinctTopics(init);
      assert init[j] == topics[j];
      DefaultsEntry(r, init, j);
    }
  }

  /**
   * The default-subscription loop: each configured topic that passes
   * `validate_topic` is added with its cleaned target, in configuration
   * order; the others are skipped.
   */
  method AddDefaultSubscriptions(sub: Subscriber.MqttSubscriber, topics: seq<(string, string)>)
    requires sub.Valid()
    modifies sub
    ensures sub.Valid()
    ensures Registry(sub.order, sub.table, sub.broker)
              == Defaults(Registry(old(sub.order), old(sub.table), old(sub.broker)), topics)
  {
    ghost var r0 := Registry(sub.order, sub.table, sub.broker);
    var i := 0;
    while i < |topics|
      invariant 0 <= i <= |topics|
      invariant sub.Valid()
      invariant Registry(sub.order, sub.table, sub.broker) == Defaults(r0, topics[..i])
    {
      assert topics[..i + 1][..i] == topics[..i];
      var (topic, target) := topics[i];
      if ValidateTopic(topic) {
        var cleaned := CleanTarget(target);
        var _ := sub.AddSubscription(topic, cleaned);
      }
      i := i + 1;
    }
    assert topics[..i] == topics;
  }

  /**
   * The queue after the shutdown loop, and the number of sentinels sent.
   * Before joining worker `k` a sentinel is enqueued iff the queue is
   * empty; while the main thread waits on the join, that worker and the
   * others take `drained[k]` jobs from the front (fewer if the queue runs
   * out).
   */
  function Shutdown(items: seq<Jobs.Job>, drained: seq<nat>): (r: (seq<Jobs.Job>, nat))
    ensures r.1 <= |drained|
  {
    if drained == [] then (items, 0)
    else
      var (q, sent) := Shutdown(items, drained[..|drained| - 1]);
      var q1 := if |q| == 0 then [Jobs.ShutdownSentinel] else q;
      var taken := if drained[|drained| - 1] < |q1| then drained[|drained| - 1] else |q1|;
      (q1[taken..], if |q| == 0 then sent + 1 else sent)
  }

  /**
   * Workers blocked on an empty queue: each takes the sentinel it is sent,
   * so every worker gets exactly one and the queue ends empty.
   */
  lemma {:induction false} ShutdownBlockedWorkers(drained: seq<nat>)
    requires forall k :: 0 <= k < |drained| ==> drained[k] >= 1
    ensures Shutdown([], drained) == ([], |drained|)
    decreases |drained|
  {
    if drained != [] {
      ShutdownBlockedWorkers(drained[..|drained| - 1]);
      assert [Jobs.ShutdownSentinel][1..] == [];
    }
  }

  /**
   * Workers busy with a download while jobs are still queued: nothing is
   * taken, so no sentinel is sent and the queue is left as it was.
   */
  lemma {:induction false} ShutdownBusyQueue(items: seq<Jobs.Job>, drained: seq<nat>)
    requires items != []
    requires forall k :: 0 <= k < |drained| ==> drained[k] == 0
    ensures Shutdown(items, drained) == (items, 0)
    decreases |drained|
  {
    if drained != [] {
      ShutdownBusyQueue(items, drained[..|drained| - 1]);
    }
  }

  /** A sentinel is never added to a non-empty queue: the queue never holds more than before, or one. */
  lemma {:induction false} ShutdownQueueBound(items: seq<Jobs.Job>, drained: seq<nat>)
    ensures |Shutdown(items, drained).0| <= if |items| == 0 then 1 else |items|
    decreases |drained|
  {
    if drained != [] {
      ShutdownQueueBound(items, drained[..|drained| - 1]);
    }
  }

  /**
   * The shutdown loop: for each of the workers, enqueue a sentinel if the
   * queue is empty, then wait while that many jobs are taken.
   */
  method ShutdownWorkers(jobQ: JobQueue.SimpleQueue<Jobs.Job>, drained: seq<nat>) returns (sent: nat)
    modifies jobQ
    ensures (jobQ.items, sent) == Shutdown(old(jobQ.items), drained)
    ensures jobQ.unfinished == old(jobQ.unfinished) + sent
    ensures jobQ.active == old(jobQ.active)
  {
    sent := 0;
    var k := 0;
    while k < |drained|
      invariant 0 <= k <= |drained|
      invariant (jobQ.items, sent) == Shutdown(old(jobQ.items), drained[..k])
      invariant jobQ.unfinished == old(jobQ.unfinished) + sent
      invariant jobQ.active == old(jobQ.active)
    {
      assert drained[..k + 1][..k] == drained[..k];
      var size := jobQ.Size();
      if size == 0 {
        jobQ.Enqueue(Jobs.ShutdownSentinel);
        sent := sent + 1;
      }
      ghost var q1 := jobQ.items;
      var taken := 0;
      while taken < drained[k] && jobQ.items != []
        invariant 0 <= taken <= drained[k] && taken <= |q1|
        invariant jobQ.items == q1[taken..]
        invariant jobQ.unfinished == old(jobQ.unfinished) + sent
        invariant jobQ.active == old(jobQ.active)
      {
        var _ := jobQ.Dequeue();
        taken := taken + 1;
      }
      k := k + 1;
    }
    assert drained[..k] == drained;
  }
}
