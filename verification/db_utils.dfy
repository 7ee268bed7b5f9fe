/**
 * Conversation bookkeeping of the agent API: the greeting detector, the
 * title decision, the conversation summary, the rate-limit predicate and
 * the record `store_message` inserts.
 */
module DbUtils {
  import opened Wrappers
  import opened Strings
  import Utf8

  // ---------------------------------------------------------------------
  // Greetings
  // ---------------------------------------------------------------------

  /**
   * One greeting pattern: a group of alternative phrases, followed by an
   * optional `.` and, when `question` is set, an optional `?`, then the end.
   */
  datatype Pattern = Pattern(phrases: seq<string>, question: bool)

  const GREETING_PATTERNS: seq<Pattern> := [
    Pattern(["hi", "hello", "hey", "good morning", "good afternoon", "good evening"], false),
    Pattern(["how are you", "how's it going", "what's up", "sup"], true),
    Pattern(["greetings", "salutations"], false),
    Pattern(["yo", "howdy"], false),
    Pattern(["good day", "nice to meet you"], false)]

  /** The tails a pattern accepts after one of its phrases. */
  function Tails(p: Pattern): seq<string>
  {
    if p.question then ["", ".", "?", ".?"] else ["", "."]
  }

  /** Reference reading of a pattern: the whole string is a phrase followed by an accepted tail. */
  predicate MatchesPattern(m: string, p: Pattern)
  {
    exists a, t | a in p.phrases && t in Tails(p) :: m == a + t
  }

  predicate EndsWith(s: string, c: char)
  {
    |s| > 0 && s[|s| - 1] == c
  }

  /**
   * Matching as the regular expression engine does it: drop an optional
   * trailing `?` (only where the pattern allows one), then an optional
   * trailing `.`, and require a phrase to remain.
   */
  predicate MatchPattern(m: string, p: Pattern)
  {
    var a := if p.question && EndsWith(m, '?') then m[..|m| - 1] else m;
    var b := if EndsWith(a, '.') then a[..|a| - 1] else a;
    b in p.phrases
  }

  /** No phrase ends with a character a tail could supply. */
  predicate PhrasesPlain(p: Pattern)
  {
    forall a | a in p.phrases :: a != "" && !EndsWith(a, '.') && !EndsWith(a, '?')
  }

  lemma MatchPatternIsReference(m: string, p: Pattern)
    requires PhrasesPlain(p)
    ensures MatchPattern(m, p) <==> MatchesPattern(m, p)
  {
    if MatchPattern(m, p) {
      MatchPatternSound(m, p);
    }
    if MatchesPattern(m, p) {
      var x, t :| x in p.phrases && t in Tails(p) && m == x + t;
      PhraseWithTailMatches(x, t, p);
    }
  }

  lemma MatchPatternSound(m: string, p: Pattern)
    requires MatchPattern(m, p)
    ensures MatchesPattern(m, p)
  {
    var a := if p.question && EndsWith(m, '?') then m[..|m| - 1] else m;
    var b := if EndsWith(a, '.') then a[..|a| - 1] else a;
    var q := p.question && EndsWith(m, '?');
    var d := EndsWith(a, '.');
    var t: string := if q && d then ".?" else if q then "?" else if d then "." else "";
    assert t in Tails(p);
    assert m == b + t;
  }

  lemma PhraseWithTailMatches(x: string, t: string, p: Pattern)
    requires PhrasesPlain(p) && x in p.phrases && t in Tails(p)
    ensures MatchPattern(x + t, p)
  {
    var m := x + t;
    assert |x| > 0 && x[|x| - 1] != '.' && x[|x| - 1] != '?';
    if t == "" {
      assert m == x;
    } else if t == "." {
      assert m[..|m| - 1] == x;
    } else if t == "?" {
      assert m[..|m| - 1] == x;
    } else {
      assert t == ".?" && p.question;
      assert m[..|m| - 1] == x + ".";
      assert (x + ".")[..|x|] == x;
    }
  }

  predicate MatchesAny(m: string, patterns: seq<Pattern>)
  {
    exists k | 0 <= k < |patterns| :: MatchPattern(m, patterns[k])
  }

  lemma GreetingPatternsPlain()
    ensures forall k | 0 <= k < |GREETING_PATTERNS| :: PhrasesPlain(GREETING_PATTERNS[k])
  {
  }

  /**
   * `is_simple_greeting`: the lowercased, stripped message is one of the
   * greeting phrases, optionally followed by `.`, and for the
   * how-are-you group also by `?`.
   */
  function IsSimpleGreeting(message: string): bool
  {
    MatchesAny(Strip(Lower(message)), GREETING_PATTERNS)
  }

  /** The detector accepts exactly what the patterns describe. */
  lemma IsSimpleGreetingIsReference(message: string)
    ensures IsSimpleGreeting(message) <==>
      exists k | 0 <= k < |GREETING_PATTERNS| :: MatchesPattern(Strip(Lower(message)), GREETING_PATTERNS[k])
  {
    var m := Strip(Lower(message));
    GreetingPatternsPlain();
    forall k | 0 <= k < |GREETING_PATTERNS| ensures MatchPattern(m, GREETING_PATTERNS[k]) <==> MatchesPattern(m, GREETING_PATTERNS[k]) {
      MatchPatternIsReference(m, GREETING_PATTERNS[k]);
    }
  }

  /** Whitespace around a message never changes whether it is a greeting. */
  lemma GreetingIgnoresSurroundingSpace(message: string, c: char)
    requires IsSpace(c)
    ensures IsSimpleGreeting([c] + message) == IsSimpleGreeting(message)
    ensures IsSimpleGreeting(message + [c]) == IsSimpleGreeting(message)
  {
    assert LowerOf(c) == [c];
    assert Lower([c]) == [c];
    LowerConcat([c], message);
    LowerConcat(message, [c]);
    StripLeadingSpace(c, Lower(message));
    StripTrailingSpace(Lower(message), c);
  }

  /** A trailing question mark is accepted after the how-are-you group only. */
  lemma QuestionOnlyAfterHowAreYou(message: string)
    ensures EndsWith(Strip(Lower(message)), '?') ==>
      (IsSimpleGreeting(message) <==> MatchPattern(Strip(Lower(message)), GREETING_PATTERNS[1]))
  {
    if EndsWith(Strip(Lower(message)), '?') {
      GreetingPatternsPlain();
      GreetingQuestionFlags();
      OnlyQuestionPatternMatches(Strip(Lower(message)), GREETING_PATTERNS, 1);
    }
  }

  lemma GreetingQuestionFlags()
    ensures |GREETING_PATTERNS| > 1
    ensures forall k | 0 <= k < |GREETING_PATTERNS| && k != 1 :: !GREETING_PATTERNS[k].question
  {
  }

  lemma OnlyQuestionPatternMatches(m: string, ps: seq<Pattern>, j: nat)
    requires j < |ps| && EndsWith(m, '?')
    requires forall k | 0 <= k < |ps| :: PhrasesPlain(ps[k])
    requires forall k | 0 <= k < |ps| && k != j :: !ps[k].question
    ensures MatchesAny(m, ps) <==> MatchPattern(m, ps[j])
  {
    forall k | 0 <= k < |ps| && k != j ensures !MatchPattern(m, ps[k]) {
      NoQuestionWithoutFlag(m, ps[k]);
    }
  }

  lemma NoQuestionWithoutFlag(m: string, p: Pattern)
    requires PhrasesPlain(p) && !p.question && EndsWith(m, '?')
    ensures !MatchPattern(m, p)
  {
    assert !EndsWith(m, '.');
  }

  // ---------------------------------------------------------------------
  // Title decision
  // ---------------------------------------------------------------------

  /** What the two queries of the title decision return: the message count and the conversation's title, if any. */
  datatype TitleFacts = TitleFacts(messageCount: nat, title: Option<string>)

  datatype TitleDecision = TitleDecision(generate: bool, reason: string)

  /**
   * The decision part of `should_generate_or_update_title`; `facts` is None
   * when a query raises.
   */
  function ShouldGenerateTitle(facts: Option<TitleFacts>, currentQuery: string): (r: TitleDecision)
    ensures facts.None? ==> r == TitleDecision(false, "Error checking title status")
    ensures facts.Some? ==> var n := facts.value.messageCount; var greeting := IsSimpleGreeting(currentQuery);
      && (n <= 2 && greeting ==> !r.generate)
      && (facts.value.title.None? ==> (r.generate <==> !greeting || n >= 6))
      && (facts.value.title.Some? ==> (r.generate <==> n >= 10 && n % 8 == 0))
  {
    match facts
    case None => TitleDecision(false, "Error checking title status")
    case Some(TitleFacts(count, title)) =>
      var hasTitle := title.Some?;
      var greeting := IsSimpleGreeting(currentQuery);
      if count <= 2 && greeting then TitleDecision(false, "Simple greeting, waiting for substantive conversation")
      else if !hasTitle && !greeting then TitleDecision(true, "New conversation with substantive content")
      else if count >= 6 && !hasTitle then TitleDecision(true, "Conversation developed enough for title generation")
      else if hasTitle && count >= 10 && count % 8 == 0 then TitleDecision(true, "Conversation grown significantly, updating title")
      else TitleDecision(false, "No title generation needed")
  }

  /** Once titled, a conversation is re-titled at 16, 24, 32, ... messages and never in between. */
  lemma RetitleEveryEightMessages(title: string, query: string, n: nat)
    ensures ShouldGenerateTitle(Some(TitleFacts(n, Some(title))), query).generate <==> n >= 16 && n % 8 == 0
  {
    var r := ShouldGenerateTitle(Some(TitleFacts(n, Some(title))), query);
    assert r.generate <==> n >= 10 && n % 8 == 0;
    if 10 <= n < 16 {
      assert n % 8 == n - 8;
    }
  }

  // ---------------------------------------------------------------------
  // Summary
  // ---------------------------------------------------------------------

  /** One history entry; `NoMessage` stands for a missing or empty message object. */
  datatype HistoryItem = NoMessage | Message(kind: string, content: string)

  /** `content.split('.')[0]`: everything before the first full stop. */
  function FirstSentence(content: string): (r: string)
    ensures |r| <= |content| && r == content[..|r|]
    ensures forall i | 0 <= i < |r| :: r[i] != '.'
    ensures |r| < |content| ==> content[|r|] == '.'
  {
    if |content| == 0 || content[0] == '.' then "" else [content[0]] + FirstSentence(content[1..])
  }

  /** The topics `pick` draws from the history items, in order. */
  function Topics(h: seq<HistoryItem>, pick: HistoryItem -> Option<string>): (r: seq<string>)
    ensures |r| <= |h|
    ensures forall x | x in r :: exists i | 0 <= i < |h| :: pick(h[i]) == Some(x)
    ensures forall i | 0 <= i < |h| && pick(h[i]).Some? :: pick(h[i]).value in r
  {
    if |h| == 0 then []
    else
      var rest := Topics(h[1..], pick);
      assert forall x | x in rest :: exists i | 0 <= i < |h| :: pick(h[i]) == Some(x) by {
        forall x | x in rest ensures exists i | 0 <= i < |h| :: pick(h[i]) == Some(x) {
          var j :| 0 <= j < |h[1..]| && pick(h[1..][j]) == Some(x);
          assert pick(h[j + 1]) == Some(x);
        }
      }
      assert forall i | 1 <= i < |h| && pick(h[i]).Some? :: pick(h[i]).value in rest by {
        forall i | 1 <= i < |h| && pick(h[i]).Some? ensures pick(h[i]).value in rest {
          assert h[i] == h[1..][i - 1];
        }
      }
      match pick(h[0])
      case Some(t) => [t] + rest
      case None => rest
  }

  /** A human message that is not a simple greeting is a topic. */
  function HumanTopic(item: HistoryItem): Option<string>
  {
    if item.Message? && item.kind == "human" && !IsSimpleGreeting(item.content) then Some(item.content) else None
  }

  /** The first sentence of an AI message is a topic when it is longer than ten characters. */
  function AiTopic(item: HistoryItem): Option<string>
  {
    if item.Message? && item.kind == "ai" && |FirstSentence(item.content)| > 10 then Some(FirstSentence(item.content)) else None
  }

  /** The human contents that are not simple greetings, in order. */
  function HumanTopics(h: seq<HistoryItem>): (r: seq<string>)
    ensures forall x | x in r :: !IsSimpleGreeting(x)
    ensures forall i | 0 <= i < |h| && h[i].Message? && h[i].kind == "human" && !IsSimpleGreeting(h[i].content) ::
      h[i].content in r
  {
    FilteredTopics(h, HumanTopic, "human", IsSimpleGreeting);
    Topics(h, HumanTopic)
  }

  /**
   * Topics picked by a filter on one kind of message: none is refused by
   * `skip`, and every message of that kind that `skip` lets through is one.
   */
  lemma FilteredTopics(h: seq<HistoryItem>, pick: HistoryItem -> Option<string>, kind: string, skip: string -> bool)
    requires forall item :: pick(item) == if item.Message? && item.kind == kind && !skip(item.content) then Some(item.content) else None
    ensures forall x | x in Topics(h, pick) :: !skip(x)
    ensures forall i | 0 <= i < |h| && h[i].Message? && h[i].kind == kind && !skip(h[i].content) :: h[i].content in Topics(h, pick)
  {
    forall x | x in Topics(h, pick) ensures !skip(x) {
      var i :| 0 <= i < |h| && pick(h[i]) == Some(x);
    }
  }

  /** The first sentences of AI contents that are longer than ten characters, in order. */
  function AiTopics(h: seq<HistoryItem>): (r: seq<string>)
    ensures forall x | x in r :: |x| > 10 && forall i | 0 <= i < |x| :: x[i] != '.'
    ensures forall i | 0 <= i < |h| && h[i].Message? && h[i].kind == "ai" && |FirstSentence(h[i].content)| > 10 ::
      FirstSentence(h[i].content) in r
  {
    Topics(h, AiTopic)
  }

  /** A single history item yields its own topic, if it has one. */
  lemma TopicsOfOne(x: HistoryItem)
    ensures HumanTopics([x]) == if x.Message? && x.kind == "human" && !IsSimpleGreeting(x.content) then [x.content] else []
    ensures AiTopics([x]) == if x.Message? && x.kind == "ai" && |FirstSentence(x.content)| > 10 then [FirstSentence(x.content)] else []
  {
    PickedOne(x, HumanTopic);
    PickedOne(x, AiTopic);
  }

  lemma PickedOne(x: HistoryItem, pick: HistoryItem -> Option<string>)
    ensures Topics([x], pick) == if pick(x).Some? then [pick(x).value] else []
  {
    assert [x][1..] == [];
  }

  /** Topic collection distributes over concatenated histories. */
  lemma TopicsConcat(a: seq<HistoryItem>, b: seq<HistoryItem>)
    ensures HumanTopics(a + b) == HumanTopics(a) + HumanTopics(b)
    ensures AiTopics(a + b) == AiTopics(a) + AiTopics(b)
  {
    PickedConcat(a, b, HumanTopic);
    PickedConcat(a, b, AiTopic);
  }

  lemma {:induction false} PickedConcat(a: seq<HistoryItem>, b: seq<HistoryItem>, pick: HistoryItem -> Option<string>)
    ensures Topics(a + b, pick) == Topics(a, pick) + Topics(b, pick)
  {
    if |a| > 0 {
      assert (a + b)[0] == a[0] && (a + b)[1..] == a[1..] + b;
      PickedConcat(a[1..], b, pick);
    } else {
      assert a + b == b;
    }
  }

  function Take(xs: seq<string>, n: nat): seq<string>
  {
    if |xs| <= n then xs else xs[..n]
  }

  const HUMAN_LEAD := "User asked about: "
  const AI_LEAD := "Discussion included: "
  const GENERAL := "General conversation"

  /** The summary of the kept topics: each non-empty part led by its label, the parts joined by ` | `. */
  function SummaryOf(humans: seq<string>, ais: seq<string>): (r: string)
    ensures r == GENERAL <==> humans == [] && ais == []
    ensures StartsWith(r, HUMAN_LEAD) <==> humans != []
    ensures humans == [] && ais != [] ==> r == AI_LEAD + Join("; ", ais)
    ensures humans != [] && ais == [] ==> r == HUMAN_LEAD + Join("; ", humans)
    ensures humans != [] && ais != [] ==> r == HUMAN_LEAD + Join("; ", humans) + " | " + AI_LEAD + Join("; ", ais)
    ensures humans != [] ==> StartsWith(r, HUMAN_LEAD + Join("; ", humans))
  {
    var hp := HUMAN_LEAD + Join("; ", humans);
    var ap := AI_LEAD + Join("; ", ais);
    var parts := (if humans != [] then [hp] else []) + (if ais != [] then [ap] else []);
    if parts == [] then
      StartsApart(GENERAL, HUMAN_LEAD);
      GENERAL
    else
      var r := Join(" | ", parts);
      assert humans != [] ==> StartsWith(r, hp) && (ais != [] ==> r == hp + " | " + ap) && (ais == [] ==> r == hp) by {
        if humans != [] && ais != [] {
          assert parts == [hp, ap];
          JoinPair(" | ", hp, ap);
        } else if humans != [] {
          assert parts == [hp];
          StartsWithConcat(hp, "");
          assert hp + "" == hp;
        }
      }
      assert humans != [] ==> StartsWith(r, HUMAN_LEAD) && r != GENERAL by {
        if humans != [] {
          StartsWithLonger(r, HUMAN_LEAD, Join("; ", humans));
          StartsApart(GENERAL, HUMAN_LEAD);
        }
      }
      assert humans == [] ==> r == ap && !StartsWith(r, HUMAN_LEAD) && r != GENERAL by {
        if humans == [] {
          assert parts == [ap];
          assert ap[0] == AI_LEAD[0];
          StartsApart(ap, HUMAN_LEAD);
          StartsApart(ap, GENERAL);
        }
      }
      r
  }

  /** Every kept topic appears in the summary text. */
  lemma SummaryMentionsTopics(humans: seq<string>, ais: seq<string>)
    ensures forall k | 0 <= k < |humans| :: Contains(SummaryOf(humans, ais), humans[k])
    ensures forall k | 0 <= k < |ais| :: Contains(SummaryOf(humans, ais), ais[k])
  {
    forall k | 0 <= k < |humans| ensures Contains(SummaryOf(humans, ais), humans[k]) {
      JoinContains("; ", humans, k);
      var p := HUMAN_LEAD + Join("; ", humans);
      ContainsInRight(HUMAN_LEAD, Join("; ", humans), humans[k]);
      if ais != [] {
        ContainsInLeft(p, " | ", humans[k]);
        ContainsInLeft(p + " | ", AI_LEAD, humans[k]);
        ContainsInLeft(p + " | " + AI_LEAD, Join("; ", ais), humans[k]);
      }
    }
    forall k | 0 <= k < |ais| ensures Contains(SummaryOf(humans, ais), ais[k]) {
      JoinContains("; ", ais, k);
      var head := if humans == [] then AI_LEAD else HUMAN_LEAD + Join("; ", humans) + " | " + AI_LEAD;
      ContainsInRight(head, Join("; ", ais), ais[k]);
    }
  }

  /**
   * `generate_conversation_summary`: up to three human topics and up to two
   * AI first sentences, each part led by its label and the parts joined by
   * ` | `; "General conversation" when there is neither.
   */
  function GenerateConversationSummary(h: seq<HistoryItem>): (r: string)
    ensures r == GENERAL <==> HumanTopics(h) == [] && AiTopics(h) == []
    ensures StartsWith(r, HUMAN_LEAD) <==> HumanTopics(h) != []
    ensures HumanTopics(h) == [] && AiTopics(h) != [] ==> r == AI_LEAD + Join("; ", Take(AiTopics(h), 2))
    ensures HumanTopics(h) != [] ==> StartsWith(r, HUMAN_LEAD + Join("; ", Take(HumanTopics(h), 3)))
  {
    SummaryOf(Take(HumanTopics(h), 3), Take(AiTopics(h), 2))
  }

  /** The first three human topics and the first two AI topics of a history all appear in its summary. */
  lemma SummaryMentionsFirstTopics(h: seq<HistoryItem>)
    ensures forall k | 0 <= k < |HumanTopics(h)| && k < 3 :: Contains(GenerateConversationSummary(h), HumanTopics(h)[k])
    ensures forall k | 0 <= k < |AiTopics(h)| && k < 2 :: Contains(GenerateConversationSummary(h), AiTopics(h)[k])
  {
    var r := GenerateConversationSummary(h);
    SummaryMentionsTopics(Take(HumanTopics(h), 3), Take(AiTopics(h), 2));
    TakeMentioned(HumanTopics(h), 3, r);
    TakeMentioned(AiTopics(h), 2, r);
  }

  lemma TakeMentioned(xs: seq<string>, n: nat, r: string)
    requires forall k | 0 <= k < |Take(xs, n)| :: Contains(r, Take(xs, n)[k])
    ensures forall k | 0 <= k < |xs| && k < n :: Contains(r, xs[k])
  {
    forall k | 0 <= k < |xs| && k < n ensures Contains(r, xs[k]) {
      assert Take(xs, n)[k] == xs[k];
    }
  }

  /** Two histories whose first three human topics and first two AI topics agree have the same summary. */
  lemma SummaryDependsOnFirstTopics(h1: seq<HistoryItem>, h2: seq<HistoryItem>)
    requires Take(HumanTopics(h1), 3) == Take(HumanTopics(h2), 3)
    requires Take(AiTopics(h1), 2) == Take(AiTopics(h2), 2)
    ensures GenerateConversationSummary(h1) == GenerateConversationSummary(h2)
  {
  }

  /**
   * Only the first three human topics and the first two AI topics count:
   * once a history holds that many, later messages do not change the summary.
   */
  lemma SummarySettles(h: seq<HistoryItem>, later: seq<HistoryItem>)
    requires |HumanTopics(h)| >= 3 && |AiTopics(h)| >= 2
    ensures GenerateConversationSummary(h + later) == GenerateConversationSummary(h)
  {
    TopicsConcat(h, later);
    TakeOfLonger(HumanTopics(h), HumanTopics(later), 3);
    TakeOfLonger(AiTopics(h), AiTopics(later), 2);
  }

  lemma TakeOfLonger(xs: seq<string>, ys: seq<string>, n: nat)
    requires |xs| >= n
    ensures Take(xs + ys, n) == Take(xs, n)
  {
    assert (xs + ys)[..n] == xs[..n];
  }

  // ---------------------------------------------------------------------
  // Rate limit
  // ---------------------------------------------------------------------

  /**
   * `check_rate_limit`: true (the request may proceed) iff the number of the
   * user's requests in the last minute is below the limit; false when the
   * count cannot be read. `requestCount` is None when the query raises or
   * the count comes back empty.
   */
  function CheckRateLimit(requestCount: Option<nat>, rateLimit: int): (allowed: bool)
    ensures requestCount.None? ==> !allowed
    ensures allowed ==> requestCount.value < rateLimit
    ensures requestCount.Some? && requestCount.value < rateLimit ==> allowed
  {
    requestCount.Some? && requestCount.value < rateLimit
  }

  /** Fewer recent requests, or a higher limit, never turns an allowed request away. */
  lemma RateLimitMonotone(c1: nat, c2: nat, l1: int, l2: int)
    requires c2 <= c1 && l1 <= l2
    ensures CheckRateLimit(Some(c1), l1) ==> CheckRateLimit(Some(c2), l2)
  {
  }

  /** With the default limit of five, a user with no recent requests is let through and one with five is not. */
  lemma DefaultRateLimit()
    ensures CheckRateLimit(Some(0), 5)
    ensures !CheckRateLimit(Some(5), 5)
  {
  }

  // ---------------------------------------------------------------------
  // Storing a message
  // ---------------------------------------------------------------------

  /** The `message` object: type and content, plus `data` and `files` when given and non-empty. */
  datatype MessageObject = MessageObject(kind: string, content: string, data: Option<map<string, string>>, files: Option<seq<string>>)

  /** The row inserted into the messages table. */
  datatype InsertRow = InsertRow(sessionId: string, message: MessageObject, messageData: Option<string>)

  /** The HTTP error raised when storing fails. */
  datatype HttpError = HttpError(status: int)

  /**
   * `store_message`: builds the message object and the row; non-empty
   * binary data is decoded as UTF-8. A decoding failure or a failing insert
   * becomes an HTTP 500 error.
   */
  function StoreMessage(sessionId: string, kind: string, content: string, messageData: Option<seq<Utf8.byte>>,
                        data: Option<map<string, string>>, files: Option<seq<string>>, insertFails: bool): (r: Result<InsertRow, HttpError>)
    ensures r.Err? ==> r.error == HttpError(500)
    ensures r.Ok? <==> !insertFails && (messageData.Some? && messageData.value != [] ==> Utf8.Decode(messageData.value).Some?)
    ensures r.Ok? ==> r.value.sessionId == sessionId && r.value.message.kind == kind && r.value.message.content == content
    ensures r.Ok? ==> (r.value.message.data.Some? <==> data.Some? && data.value != map[])
    ensures r.Ok? ==> (r.value.message.files.Some? <==> files.Some? && files.value != [])
    ensures r.Ok? && r.value.message.data.Some? ==> r.value.message.data == data
    ensures r.Ok? && r.value.message.files.Some? ==> r.value.message.files == files
    ensures r.Ok? ==> (r.value.messageData.Some? <==> messageData.Some? && messageData.value != [])
    ensures r.Ok? && r.value.messageData.Some? ==> Utf8.Decode(messageData.value) == r.value.messageData
  {
    var message := MessageObject(kind, content,
      if data.Some? && data.value != map[] then data else None,
      if files.Some? && files.value != [] then files else None);
    if messageData.Some? && messageData.value != [] then
      match Utf8.Decode(messageData.value)
      case None => Err(HttpError(500))
      case Some(text) => if insertFails then Err(HttpError(500)) else Ok(InsertRow(sessionId, message, Some(text)))
    else if insertFails then Err(HttpError(500))
    else Ok(InsertRow(sessionId, message, None))
  }

  /** Text stored as UTF-8 bytes comes back as the same text in the inserted row. */
  lemma StoredTextRoundTrips(sessionId: string, kind: string, content: string, text: string)
    requires text != []
    ensures var r := StoreMessage(sessionId, kind, content, Some(Utf8.Encode(text)), None, None, false);
      r.Ok? && r.value.messageData == Some(text)
  {
    Utf8.DecodeEncode(text);
  }
}
