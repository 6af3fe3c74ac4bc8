/**
 * The delivery side of `sendDiscordNotification` (src/index.ts): every
 * non-empty chunk of the message is posted to every webhook, endpoint by
 * endpoint and chunk by chunk in order. A non-2xx response is only logged;
 * a request that fails at the network level (the fetch promise rejects) is
 * not caught and ends the whole notification.
 */
module Notify {
  import opened Wrappers
  import opened Text
  import opened EnvParser
  import opened Chunker
  import opened Render

  const DISCORD_MESSAGE_LIMIT: nat := 2000

  /**
   * What one `fetch` gives: a response with an HTTP status, or a rejection.
   * Whether a response is ok only decides what is logged, so every status
   * is treated alike.
   */
  datatype FetchOutcome = Responded(status: int) | NetworkError

  /** A POST of the JSON payload `{ content }` to a webhook URL. */
  datatype Request = Request(url: string, content: string)

  datatype Attempt = Attempt(request: Request, outcome: FetchOutcome)

  /** The requests of a log of attempts, in order. */
  function Requests(log: seq<Attempt>): (r: seq<Request>)
    ensures |r| == |log|
    ensures forall k :: 0 <= k < |log| ==> r[k] == log[k].request
  {
    seq(|log|, k requires 0 <= k < |log| => log[k].request)
  }

  /**
   * The network as seen from the worker: every request made so far, with
   * what came of it. What comes of a request is not up to the worker.
   */
  class Network {
    var log: seq<Attempt>

    constructor()
      ensures log == []
    {
      log := [];
    }

    method Post(url: string, content: string) returns (outcome: FetchOutcome)
      modifies this
      ensures log == old(log) + [Attempt(Request(url, content), outcome)]
    {
      outcome := *;
      log := log + [Attempt(Request(url, content), outcome)];
    }
  }

  /** The requests for one webhook: one per non-empty chunk, in order. */
  function PostsTo(url: string, chunks: seq<string>): seq<Request>
    decreases |chunks|
  {
    if chunks == [] then []
    else (if chunks[0] == "" then [] else [Request(url, chunks[0])]) + PostsTo(url, chunks[1..])
  }

  /** The requests of the nested loops, endpoint-major. */
  function Deliveries(urls: seq<string>, chunks: seq<string>): seq<Request>
    decreases |urls|
  {
    if urls == [] then [] else PostsTo(urls[0], chunks) + Deliveries(urls[1..], chunks)
  }

  /** The chunks the loop does not skip. */
  function NonEmpty(chunks: seq<string>): (r: seq<string>)
    ensures |r| <= |chunks|
    ensures forall k :: 0 <= k < |r| ==> r[k] != ""
    decreases |chunks|
  {
    if chunks == [] then []
    else (if chunks[0] == "" then [] else [chunks[0]]) + NonEmpty(chunks[1..])
  }

  lemma {:induction false} PostsToAppend(url: string, a: seq<string>, b: seq<string>)
    ensures PostsTo(url, a + b) == PostsTo(url, a) + PostsTo(url, b)
    decreases |a|
  {
    if a == [] {
      assert a + b == b;
    } else {
      assert (a + b)[1..] == a[1..] + b;
      PostsToAppend(url, a[1..], b);
      AppendAssoc(if a[0] == "" then [] else [Request(url, a[0])], PostsTo(url, a[1..]), PostsTo(url, b));
    }
  }

  lemma {:induction false} DeliveriesAppend(us: seq<string>, vs: seq<string>, chunks: seq<string>)
    ensures Deliveries(us + vs, chunks) == Deliveries(us, chunks) + Deliveries(vs, chunks)
    decreases |us|
  {
    if us == [] {
      assert us + vs == vs;
    } else {
      assert (us + vs)[1..] == us[1..] + vs;
      DeliveriesAppend(us[1..], vs, chunks);
      AppendAssoc(PostsTo(us[0], chunks), Deliveries(us[1..], chunks), Deliveries(vs, chunks));
    }
  }

  /** One webhook is sent the non-empty chunks, and nothing else. */
  lemma {:induction false} PostsToNonEmpty(url: string, chunks: seq<string>)
    ensures |PostsTo(url, chunks)| == |NonEmpty(chunks)|
    ensures forall k :: 0 <= k < |NonEmpty(chunks)| ==> PostsTo(url, chunks)[k] == Request(url, NonEmpty(chunks)[k])
    decreases |chunks|
  {
    if chunks != [] {
      PostsToNonEmpty(url, chunks[1..]);
    }
  }

  /**
   * Every webhook is sent every non-empty chunk: the request for webhook i
   * and chunk j comes at position i * m + j, where m counts the non-empty
   * chunks.
   */
  lemma {:induction false} DeliveriesLayout(urls: seq<string>, chunks: seq<string>)
    ensures |Deliveries(urls, chunks)| == |urls| * |NonEmpty(chunks)|
    ensures forall i, j :: 0 <= i < |urls| && 0 <= j < |NonEmpty(chunks)| && i * |NonEmpty(chunks)| + j < |urls| * |NonEmpty(chunks)| ==>
              Deliveries(urls, chunks)[i * |NonEmpty(chunks)| + j] == Request(urls[i], NonEmpty(chunks)[j])
    decreases |urls|
  {
    if urls != [] {
      var m := |NonEmpty(chunks)|;
      PostsToNonEmpty(urls[0], chunks);
      DeliveriesLayout(urls[1..], chunks);
      LayoutCons(PostsTo(urls[0], chunks), Deliveries(urls[1..], chunks), urls, NonEmpty(chunks));
    }
  }

  /** The request for webhook i and non-empty chunk j, at its place in the deliveries. */
  lemma DeliveryAt(urls: seq<string>, chunks: seq<string>, i: nat, j: nat)
    requires i < |urls| && j < |NonEmpty(chunks)|
    ensures var m := |NonEmpty(chunks)|;
            i * m + j < |Deliveries(urls, chunks)|
            && Deliveries(urls, chunks)[i * m + j] == Request(urls[i], NonEmpty(chunks)[j])
  {
    DeliveriesLayout(urls, chunks);
    MulAddBound(i, j, |urls|, |NonEmpty(chunks)|);
  }

  /** The layout of the first webhook's requests followed by the layout of the rest. */
  lemma LayoutCons(p: seq<Request>, rest: seq<Request>, urls: seq<string>, ne: seq<string>)
    requires |urls| > 0 && |p| == |ne| && |rest| == |urls[1..]| * |ne|
    requires forall j :: 0 <= j < |ne| ==> p[j] == Request(urls[0], ne[j])
    requires forall i, j :: 0 <= i < |urls[1..]| && 0 <= j < |ne| && i * |ne| + j < |urls[1..]| * |ne| ==>
               rest[i * |ne| + j] == Request(urls[1..][i], ne[j])
    ensures |p + rest| == |urls| * |ne|
    ensures forall i, j :: 0 <= i < |urls| && 0 <= j < |ne| && i * |ne| + j < |urls| * |ne| ==>
              (p + rest)[i * |ne| + j] == Request(urls[i], ne[j])
  {
    var m := |ne|;
    var n := |urls|;
    MulSucc(n - 1, m);
    forall i, j | 0 <= i < n && 0 <= j < m && i * m + j < n * m
      ensures (p + rest)[i * m + j] == Request(urls[i], ne[j])
    {
      if i == 0 {
        assert (p + rest)[j] == p[j];
      } else {
        var i' := i - 1;
        MulSucc(i', m);
        MulAddBound(i', j, n - 1, m);
        IndexAfter(p, rest, i' * m + j);
        assert urls[1..][i'] == urls[i];
      }
    }
  }

  lemma MulSucc(a: nat, m: nat)
    ensures (a + 1) * m == a * m + m
  {
  }

  lemma IndexAfter<T>(p: seq<T>, rest: seq<T>, x: nat)
    requires x < |rest|
    ensures (p + rest)[|p| + x] == rest[x]
  {
  }

  /** Positions i * m + j with j < m stay below n * m when i < n. */
  lemma {:induction false} MulAddBound(i: nat, j: nat, n: nat, m: nat)
    requires i < n && j < m
    ensures i * m + j < n * m
    decreases n
  {
    if i + 1 < n {
      MulAddBound(i, j, n - 1, m);
      MulSucc(n - 1, m);
    } else {
      MulSucc(i, m);
    }
  }

  /** Non-empty chunks are all kept. */
  lemma {:induction false} NonEmptyKeepsAll(chunks: seq<string>)
    requires forall k :: 0 <= k < |chunks| ==> chunks[k] != ""
    ensures NonEmpty(chunks) == chunks
    decreases |chunks|
  {
    if chunks != [] {
      NonEmptyKeepsAll(chunks[1..]);
    }
  }

  /** How far the nested loops got: the log gained a prefix of the deliveries. */
  ghost predicate SentPrefix(before: seq<Attempt>, after: seq<Attempt>, urls: seq<string>, chunks: seq<string>)
  {
    && |before| <= |after| && after[..|before|] == before
    && var sent := Requests(after[|before|..]);
       |sent| <= |Deliveries(urls, chunks)| && sent == Deliveries(urls, chunks)[..|sent|]
  }

  /**
   * The nested loops of `sendDiscordNotification`. The result tells whether
   * a request failed at the network level, which ends the notification.
   * A response that is not ok never stops the loops: only the last attempt
   * can have failed, and when none did every delivery has been made.
   */
  method SendToWebhooks(net: Network, urls: seq<string>, chunks: seq<string>) returns (aborted: bool)
    modifies net
    ensures SentPrefix(old(net.log), net.log, urls, chunks)
    ensures forall k :: |old(net.log)| <= k < |net.log| - 1 ==> net.log[k].outcome.Responded?
    ensures aborted <==> |net.log| > |old(net.log)| && net.log[|net.log| - 1].outcome.NetworkError?
    ensures !aborted ==> Requests(net.log[|old(net.log)|..]) == Deliveries(urls, chunks)
  {
    ghost var before := net.log;
    aborted := false;
    var i := 0;
    assert net.log[|before|..] == [];
    while i < |urls|
      invariant 0 <= i <= |urls|
      invariant |before| <= |net.log| && net.log[..|before|] == before
      invariant Requests(net.log[|before|..]) == Deliveries(urls[..i], chunks)
      invariant forall k :: |before| <= k < |net.log| ==> net.log[k].outcome.Responded?
    {
      var j := 0;
      assert PostsTo(urls[i], chunks[..0]) == [];
      AppendEmpty(Deliveries(urls[..i], chunks));
      while j < |chunks|
        invariant 0 <= j <= |chunks|
        invariant |before| <= |net.log| && net.log[..|before|] == before
        invariant Requests(net.log[|before|..]) == Deliveries(urls[..i], chunks) + PostsTo(urls[i], chunks[..j])
        invariant forall k :: |before| <= k < |net.log| ==> net.log[k].outcome.Responded?
      {
        ghost var prev := net.log;
        if chunks[j] != "" {
          var outcome := net.Post(urls[i], chunks[j]);
          PostStep(before, prev, net.log, urls, chunks, i, j, outcome);
          if outcome.NetworkError? {
            aborted := true;
            AbortedIsPrefix(before, net.log, urls, chunks, i, j);
            return;
          }
        } else {
          SkipStep(urls[i], chunks, j);
        }
        j := j + 1;
      }
      EndpointStep(urls, chunks, i);
      i := i + 1;
    }
    FinishedIsAll(before, net.log, urls, chunks);
  }

  /** A chunk the loop skips adds no request. */
  lemma SkipStep(url: string, chunks: seq<string>, j: nat)
    requires j < |chunks| && chunks[j] == ""
    ensures PostsTo(url, chunks[..j + 1]) == PostsTo(url, chunks[..j])
  {
    PostsToAppend(url, chunks[..j], [chunks[j]]);
    assert chunks[..j + 1] == chunks[..j] + [chunks[j]];
    AppendEmpty(PostsTo(url, chunks[..j]));
  }

  /** A chunk the loop posts adds its request to the log, with whatever came of it. */
  lemma PostStep(before: seq<Attempt>, prev: seq<Attempt>, log: seq<Attempt>,
                 urls: seq<string>, chunks: seq<string>, i: nat, j: nat, outcome: FetchOutcome)
    requires i < |urls| && j < |chunks| && chunks[j] != ""
    requires |before| <= |prev| && prev[..|before|] == before
    requires forall k :: |before| <= k < |prev| ==> prev[k].outcome.Responded?
    requires Requests(prev[|before|..]) == Deliveries(urls[..i], chunks) + PostsTo(urls[i], chunks[..j])
    requires log == prev + [Attempt(Request(urls[i], chunks[j]), outcome)]
    ensures |before| <= |log| && log[..|before|] == before
    ensures Requests(log[|before|..]) == Deliveries(urls[..i], chunks) + PostsTo(urls[i], chunks[..j + 1])
    ensures outcome.Responded? ==> forall k :: |before| <= k < |log| ==> log[k].outcome.Responded?
    ensures forall k :: |before| <= k < |log| - 1 ==> log[k].outcome.Responded?
  {
    PostExtendsLog(before, prev, log, urls, chunks, i, j, outcome);
    assert forall k :: 0 <= k < |prev| ==> log[k] == prev[k];
  }

  lemma PostExtendsLog(before: seq<Attempt>, prev: seq<Attempt>, log: seq<Attempt>,
                       urls: seq<string>, chunks: seq<string>, i: nat, j: nat, outcome: FetchOutcome)
    requires i < |urls| && j < |chunks| && chunks[j] != ""
    requires |before| <= |prev| && prev[..|before|] == before
    requires Requests(prev[|before|..]) == Deliveries(urls[..i], chunks) + PostsTo(urls[i], chunks[..j])
    requires log == prev + [Attempt(Request(urls[i], chunks[j]), outcome)]
    ensures |before| <= |log| && log[..|before|] == before
    ensures Requests(log[|before|..]) == Deliveries(urls[..i], chunks) + PostsTo(urls[i], chunks[..j + 1])
  {
    var r := Request(urls[i], chunks[j]);
    var a := Attempt(r, outcome);
    assert log[|before|..] == prev[|before|..] + [a];
    RequestsSnoc(prev[|before|..], a);
    PostsToSnoc(urls[i], chunks, j);
    AppendAssoc(Deliveries(urls[..i], chunks), PostsTo(urls[i], chunks[..j]), [r]);
  }

  lemma RequestsSnoc(xs: seq<Attempt>, a: Attempt)
    ensures Requests(xs + [a]) == Requests(xs) + [a.request]
  {
  }

  /** A chunk the loop posts adds one request for it. */
  lemma PostsToSnoc(url: string, chunks: seq<string>, j: nat)
    requires j < |chunks| && chunks[j] != ""
    ensures PostsTo(url, chunks[..j + 1]) == PostsTo(url, chunks[..j]) + [Request(url, chunks[j])]
  {
    PostsToAppend(url, chunks[..j], [chunks[j]]);
    assert chunks[..j + 1] == chunks[..j] + [chunks[j]];
    assert PostsTo(url, [chunks[j]]) == [Request(url, chunks[j])] + PostsTo(url, []);
  }

  /** After the inner loop, one more endpoint has had all its requests. */
  lemma EndpointStep(urls: seq<string>, chunks: seq<string>, i: nat)
    requires i < |urls|
    ensures Deliveries(urls[..i + 1], chunks) == Deliveries(urls[..i], chunks) + PostsTo(urls[i], chunks[..|chunks|])
  {
    TakeAll(chunks);
    TakeSnoc(urls, i);
    DeliveriesSnoc(urls[..i], urls[i], urls[..i + 1], chunks);
  }

  lemma DeliveriesSnoc(us: seq<string>, u: string, next: seq<string>, chunks: seq<string>)
    requires next == us + [u]
    ensures Deliveries(next, chunks) == Deliveries(us, chunks) + PostsTo(u, chunks)
  {
    DeliveriesAppend(us, [u], chunks);
    DeliveriesSingle(u, chunks);
  }

  lemma DeliveriesSingle(url: string, chunks: seq<string>)
    ensures Deliveries([url], chunks) == PostsTo(url, chunks)
  {
    assert [url][1..] == [];
    AppendEmpty(PostsTo(url, chunks));
  }

  /** When the loops run to the end, the log gained exactly the deliveries. */
  lemma FinishedIsAll(before: seq<Attempt>, log: seq<Attempt>, urls: seq<string>, chunks: seq<string>)
    requires |before| <= |log| && log[..|before|] == before
    requires Requests(log[|before|..]) == Deliveries(urls[..|urls|], chunks)
    ensures SentPrefix(before, log, urls, chunks)
    ensures Requests(log[|before|..]) == Deliveries(urls, chunks)
  {
    assert urls[..|urls|] == urls;
    var d := Deliveries(urls, chunks);
    assert d[..|d|] == d;
  }

  /** When webhook i fails at chunk j, the log gained a prefix of the deliveries. */
  lemma AbortedIsPrefix(before: seq<Attempt>, log: seq<Attempt>, urls: seq<string>, chunks: seq<string>, i: nat, j: nat)
    requires i < |urls| && j < |chunks|
    requires |before| <= |log| && log[..|before|] == before
    requires Requests(log[|before|..]) == Deliveries(urls[..i], chunks) + PostsTo(urls[i], chunks[..j + 1])
    ensures SentPrefix(before, log, urls, chunks)
  {
    var a := Deliveries(urls[..i], chunks);
    var b := PostsTo(urls[i], chunks[..j + 1]);
    var c := PostsTo(urls[i], chunks[j + 1..]);
    var d := Deliveries(urls[i + 1..], chunks);
    DeliveriesSplit(urls, chunks, i);
    PostsToSplit(urls[i], chunks, j + 1);
    AppendAssoc(a, b, c);
    AppendAssoc(a + b, c, d);
    PrefixOfAppend(a + b, c + d);
  }

  /** The deliveries are those to the first i webhooks, then those to webhook i, then the rest. */
  lemma DeliveriesSplit(urls: seq<string>, chunks: seq<string>, i: nat)
    requires i < |urls|
    ensures Deliveries(urls, chunks) == Deliveries(urls[..i], chunks) + (PostsTo(urls[i], chunks) + Deliveries(urls[i + 1..], chunks))
  {
    TakeDrop(urls, i);
    DeliveriesAppend(urls[..i], urls[i..], chunks);
    assert urls[i..][0] == urls[i];
    assert urls[i..][1..] == urls[i + 1..];
  }

  /** The requests to one webhook are those for the first n chunks, then those for the rest. */
  lemma PostsToSplit(url: string, chunks: seq<string>, n: nat)
    requires n <= |chunks|
    ensures PostsTo(url, chunks) == PostsTo(url, chunks[..n]) + PostsTo(url, chunks[n..])
  {
    TakeDrop(chunks, n);
    PostsToAppend(url, chunks[..n], chunks[n..]);
  }

  /**
   * `sendDiscordNotification` after the email is parsed: the message is
   * chunked at the Discord limit and the chunks are posted.
   */
  method SendDiscordNotification(net: Network, urls: seq<string>, subject: Option<string>, email: Email, ai: AiOutcome)
    returns (aborted: bool)
    modifies net
    ensures var chunks := Chunks(FullMessage(subject, email, ai), DISCORD_MESSAGE_LIMIT);
            && SentPrefix(old(net.log), net.log, urls, chunks)
            && (!aborted ==> Requests(net.log[|old(net.log)|..]) == Deliveries(urls, chunks))
    ensures aborted <==> |net.log| > |old(net.log)| && net.log[|net.log| - 1].outcome.NetworkError?
  {
    var headerLines := HeaderLines(subject, email);
    var markdownBody := ConvertEmailToMarkdown(email, ai);
    var fullMessage := Trim(Join(headerLines, "\n") + "\n\n" + markdownBody);
    var chunks := ChunkForDiscord(fullMessage, DISCORD_MESSAGE_LIMIT);
    aborted := SendToWebhooks(net, urls, chunks);
  }

  /**
   * The chunks of the full message are all non-empty and no longer than the
   * limit, so every webhook is sent every chunk, in order.
   */
  lemma NotificationChunks(subject: Option<string>, email: Email, ai: AiOutcome)
    ensures var chunks := Chunks(FullMessage(subject, email, ai), DISCORD_MESSAGE_LIMIT);
            && |chunks| > 0
            && (forall k :: 0 <= k < |chunks| ==> 0 < |chunks[k]| <= DISCORD_MESSAGE_LIMIT)
            && NonEmpty(chunks) == chunks
  {
    FullMessageShape(subject, email, ai);
    MessageChunks(FullMessage(subject, email, ai), DISCORD_MESSAGE_LIMIT);
  }

  /** A message that starts with a non-whitespace character loses no chunk to the skip. */
  lemma MessageChunks(message: string, limit: nat)
    requires limit >= 1 && message != [] && !IsWhitespace(message[0])
    ensures var chunks := Chunks(message, limit);
            && |chunks| > 0
            && (forall k :: 0 <= k < |chunks| ==> 0 < |chunks[k]| <= limit)
            && NonEmpty(chunks) == chunks
  {
    ChunksStartNonWhitespace(message, limit);
    var chunks := Chunks(message, limit);
    NonEmptyKeepsAll(chunks);
  }

  /**
   * The `email` handler's notification branch: the webhook list is parsed
   * from its configuration value, then the notification is sent.
   */
  method HandleEmail(net: Network, discordWebhooks: Option<string>, subject: Option<string>, email: Email, ai: AiOutcome)
    modifies net
    ensures var chunks := Chunks(FullMessage(subject, email, ai), DISCORD_MESSAGE_LIMIT);
            var webhooks := ParseEnv(discordWebhooks);
            && SentPrefix(old(net.log), net.log, webhooks, chunks)
            && ((forall k :: |old(net.log)| <= k < |net.log| ==> net.log[k].outcome.Responded?) ==>
                  Requests(net.log[|old(net.log)|..]) == Deliveries(webhooks, chunks))
  {
    var webhooks := ParseEnv(discordWebhooks);
    var aborted := SendDiscordNotification(net, webhooks, subject, email, ai);
  }
}
