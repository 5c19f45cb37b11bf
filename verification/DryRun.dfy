/** The dry-run subscription check of the end-to-end runner (`src/e2e.rs`): it makes up a topic from a
    broker's first pattern, then subscribes and publishes on a bus that holds only this broker. */
module DryRun {
  import opened Wrappers
  import opened Routing
  import opened Delivery
  import opened Registry
  import Pattern

  const FILLER := "test"
  const FALLBACK_TOPIC := "greentic.events.test"

  /** `pattern.replace('*', "test")` */
  function ReplaceStars(pattern: string): string {
    if pattern == "" then ""
    else (if pattern[0] == '*' then FILLER else [pattern[0]]) + ReplaceStars(pattern[1..])
  }

  function SampleTopic(pattern: string): string {
    if '*' in pattern then ReplaceStars(pattern) else pattern
  }

  /** The made-up topic is the pattern with "test" for every star. */
  lemma {:induction false} SampleMeans(before: string, after: string)
    requires '*' !in before
    ensures SampleTopic(before) == before
    ensures SampleTopic(before + "*" + after) == before + "test" + SampleTopic(after)
  {
    ReplaceBehind(before, "*" + after);
    assert ("*" + after)[1..] == after;
    assert before + "*" + after == before + ("*" + after);
    if '*' !in after {
      ReplaceBehind(after, "");
      assert after + "" == after;
    }
    assert (before + "*" + after)[|before|] == '*';
  }

  lemma {:induction false} ReplaceBehind(before: string, rest: string)
    requires '*' !in before
    ensures ReplaceStars(before + rest) == before + ReplaceStars(rest)
  {
    if before == "" {
      assert before + rest == rest;
    } else {
      ReplaceBehind(before[1..], rest);
      assert (before + rest)[1..] == before[1..] + rest;
    }
  }

  /** The made-up topic always matches the pattern it is made from. */
  lemma SampleMatches(pattern: string)
    ensures '*' !in SampleTopic(pattern)
    ensures Pattern.MatchesPattern(pattern, SampleTopic(pattern))
  {
    if '*' in pattern {
      ReplacedMatches(pattern);
    } else {
      Pattern.GlobSelf(pattern, "", "");
      assert pattern + "" == pattern;
    }
    Pattern.MatchIffGlob(pattern, SampleTopic(pattern));
  }

  lemma {:induction false} ReplacedMatches(pattern: string)
    ensures '*' !in ReplaceStars(pattern)
    ensures Pattern.Glob(pattern, ReplaceStars(pattern))
  {
    if pattern != "" {
      ReplacedMatches(pattern[1..]);
      var rest := ReplaceStars(pattern[1..]);
      if pattern[0] == '*' {
        var sample := FILLER + rest;
        Pattern.GlobAt(pattern, 1, sample, 4);
        assert sample[4..] == rest;
        StarSkips(pattern, sample, 4);
      } else {
        assert ([pattern[0]] + rest)[1..] == rest;
      }
    }
  }

  lemma {:induction false} StarSkips(pattern: string, text: string, n: nat)
    requires pattern != "" && pattern[0] == '*' && n <= |text|
    requires Pattern.Glob(pattern[1..], text[n..])
    ensures Pattern.Glob(pattern, text)
    decreases n
  {
    if n == 0 {
      assert text[0..] == text;
    } else {
      assert text[1..][n - 1..] == text[n..];
      StarSkips(pattern, text[1..], n - 1);
    }
  }

  /** A fresh bus with one broker, no rules and everything allowed. */
  function BrokerBus(broker: ProviderSpec): BusConfig {
    BusConfig(OverlayAll(map[], [Register(map[], broker)]), Acl([], true))
  }

  function CheckTopic(broker: ProviderSpec): string {
    if broker.topics == [] then FALLBACK_TOPIC else SampleTopic(broker.topics[0])
  }

  /** The check finds its broker exactly when the broker declares a topic pattern at all: then neither
      subscribing nor publishing can be denied, left without provider or taken for a duplicate, and
      without a pattern both are refused for want of a provider. */
  lemma CheckFindsBrokerIff(broker: ProviderSpec, event: Event, unseen: bool, run: PublishRun)
    requires event.topic == CheckTopic(broker) && event.metadata == map[]
    requires RunOk(BrokerBus(broker), event, unseen, run)
    ensures broker.topics != [] ==> event.topic == SampleTopic(broker.topics[0])
    ensures SubscribeRoute(BrokerBus(broker), event.tenant, CheckTopic(broker)) ==
            if broker.topics != [] then Ok(0) else Err(NoProvider("greentic.events.test"))
    ensures if broker.topics != [] then run.result.Published? || run.result.error.DeliveryFailed?
            else run.result == Failed(NoProvider("greentic.events.test"))
  {
    var providers := BrokerBus(broker).providers;
    assert providers[0].topics == broker.topics;
    if broker.topics != [] {
      SampleMatches(broker.topics[0]);
      assert providers[0].Serves(CheckTopic(broker));
    }
  }
}
