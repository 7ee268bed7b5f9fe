/**
 * The pure parts of the agent's tools: the web-search result formatting,
 * the embedding fallback and its dimension check, the similarity filter and
 * content truncation of document retrieval, and the read-only SQL guard.
 */
module AgentTools {
  import opened Wrappers
  import opened Strings

  // ---------------------------------------------------------------------
  // Web search
  // ---------------------------------------------------------------------

  /** One web result; a field is None when the key is absent. */
  datatype SearchResult = SearchResult(title: Option<string>, url: Option<string>, description: Option<string>)

  const MAX_SEARCH_RESULTS := 5

  /** One formatted result, numbered `i`. */
  function FormatResult(i: nat, r: SearchResult): string
  {
    NatToString(i) + ". " + r.title.GetOr("No title") + "\n"
      + "   URL: " + r.url.GetOr("") + "\n"
      + "   " + r.description.GetOr("No description") + "\n"
  }

  /** The formatted results numbered from `first` on. */
  function FormatResults(rs: seq<SearchResult>, first: nat): (r: seq<string>)
    ensures |r| == |rs|
    ensures forall k | 0 <= k < |rs| :: r[k] == FormatResult(first + k, rs[k])
  {
    if |rs| == 0 then [] else [FormatResult(first, rs[0])] + FormatResults(rs[1..], first + 1)
  }

  function Prefix(rs: seq<SearchResult>, n: nat): seq<SearchResult>
  {
    if |rs| <= n then rs else rs[..n]
  }

  /**
   * `brave_search` once the response is in: `results` is the list of web
   * results, or the message of the exception raised on the way. A header and
   * at most the first five results, numbered from 1, joined by newlines.
   */
  function BraveSearch(query: string, results: Result<seq<SearchResult>, string>): (r: string)
    ensures results.Err? ==> r == "Error performing search: " + results.error
    ensures results.Ok? && results.value == [] ==> r == "No results found for query: " + query
    ensures results.Ok? && results.value != [] ==>
      var shown := Prefix(results.value, MAX_SEARCH_RESULTS);
      && |shown| == (if |results.value| < MAX_SEARCH_RESULTS then |results.value| else MAX_SEARCH_RESULTS)
      && r == Join("\n", ["Search results for: " + query + "\n"] + FormatResults(shown, 1))
  {
    match results
    case Err(e) => "Error performing search: " + e
    case Ok(rs) =>
      if rs == [] then "No results found for query: " + query
      else Join("\n", ["Search results for: " + query + "\n"] + FormatResults(Prefix(rs, MAX_SEARCH_RESULTS), 1))
  }

  /** Results after the fifth never show. */
  lemma SearchShowsFirstFive(query: string, rs: seq<SearchResult>, more: seq<SearchResult>)
    requires |rs| >= MAX_SEARCH_RESULTS
    ensures BraveSearch(query, Ok(rs + more)) == BraveSearch(query, Ok(rs))
  {
    assert (rs + more)[..MAX_SEARCH_RESULTS] == rs[..MAX_SEARCH_RESULTS];
    assert Prefix(rs + more, MAX_SEARCH_RESULTS) == Prefix(rs, MAX_SEARCH_RESULTS);
  }

  // ---------------------------------------------------------------------
  // Embeddings
  // ---------------------------------------------------------------------

  const EMBEDDING_DIMENSION := 1536

  /** `get_embedding`: the returned vector, or 1536 zeros when the request raises. */
  function GetEmbedding(response: Option<seq<real>>): (e: seq<real>)
    ensures response.Some? ==> e == response.value
    ensures response.None? ==> |e| == EMBEDDING_DIMENSION && forall i | 0 <= i < |e| :: e[i] == 0.0
  {
    match response
    case Some(v) => v
    case None => seq(EMBEDDING_DIMENSION, _ => 0.0)
  }

  /** The dimension check of document retrieval: a non-empty vector of exactly 1536 entries. */
  predicate ValidEmbedding(e: seq<real>)
  {
    e != [] && |e| == EMBEDDING_DIMENSION
  }

  /** The fallback vector passes the dimension check, so a failed embedding still reaches the vector search. */
  lemma FallbackPassesDimensionCheck()
    ensures ValidEmbedding(GetEmbedding(None))
  {
  }

  // ---------------------------------------------------------------------
  // Document retrieval
  // ---------------------------------------------------------------------

  /** A retrieved chunk: its content and similarity, each None when absent. */
  datatype Chunk = Chunk(content: Option<string>, similarity: Option<real>)

  const MIN_SIMILARITY: real := 0.5

  predicate Relevant(c: Chunk)
  {
    c.similarity.GetOr(0.0) >= MIN_SIMILARITY
  }

  function RelevantChunks(cs: seq<Chunk>): (r: seq<Chunk>)
    ensures forall c :: c in r <==> c in cs && Relevant(c)
    ensures |r| <= |cs|
  {
    if |cs| == 0 then []
    else
      var rest := RelevantChunks(cs[1..]);
      assert forall c :: c in cs <==> c == cs[0] || c in cs[1..];
      if Relevant(cs[0]) then [cs[0]] + rest else rest
  }

  /** A single chunk is kept exactly when it is relevant. */
  lemma RelevantChunksOfOne(c: Chunk)
    ensures RelevantChunks([c]) == if c.similarity.GetOr(0.0) >= MIN_SIMILARITY then [c] else []
  {
    assert [c][1..] == [];
  }

  /** Filtering keeps the order: it distributes over concatenation. */
  lemma {:induction false} RelevantChunksConcat(a: seq<Chunk>, b: seq<Chunk>)
    ensures RelevantChunks(a + b) == RelevantChunks(a) + RelevantChunks(b)
  {
    if |a| == 0 {
      assert a + b == b;
    } else {
      assert (a + b)[0] == a[0] && (a + b)[1..] == a[1..] + b;
      RelevantChunksConcat(a[1..], b);
    }
  }

  /**
   * The similarity threshold: the chunks scoring at least 0.5 (a missing
   * score counts as 0), or all chunks when none does.
   */
  function FilterBySimilarity(cs: seq<Chunk>): (r: seq<Chunk>)
    ensures (exists c | c in cs :: Relevant(c)) ==> forall c :: c in r <==> c in cs && Relevant(c)
    ensures (forall c | c in cs :: !Relevant(c)) ==> r == cs
    ensures (exists c | c in cs :: Relevant(c)) ==> r == RelevantChunks(cs)
  {
    var kept := RelevantChunks(cs);
    assert kept != [] ==> kept[0] in kept;
    if kept == [] then cs else kept
  }

  /** The index of the last `c` in `s`, or -1. */
  function RFind(s: string, c: char): (k: int)
    ensures -1 <= k < |s|
    ensures k >= 0 ==> s[k] == c
    ensures forall i | k < i < |s| :: s[i] != c
  {
    if |s| == 0 then -1
    else if s[|s| - 1] == c then |s| - 1
    else RFind(s[..|s| - 1], c)
  }

  const TRUNCATE_AT := 600
  const SENTENCE_MIN := 400

  /**
   * Content truncation of document retrieval: content of at most 600
   * characters is kept whole; longer content is cut to 600 characters, then
   * cut after the last full stop if that lies past index 400, or else
   * followed by "...".
   */
  function TruncateContent(content: string): (r: string)
    ensures |content| <= TRUNCATE_AT ==> r == content
    ensures |r| <= TRUNCATE_AT + 3
    ensures |content| > TRUNCATE_AT ==>
      || (exists k | SENTENCE_MIN < k < TRUNCATE_AT :: r == content[..k + 1] && content[k] == '.'
            && forall i | k < i < TRUNCATE_AT :: content[i] != '.')
      || (r == content[..TRUNCATE_AT] + "..." && forall i | SENTENCE_MIN < i < TRUNCATE_AT :: content[i] != '.')
  {
    if |content| <= TRUNCATE_AT then content
    else
      var cut := content[..TRUNCATE_AT];
      var lastPeriod := RFind(cut, '.');
      if lastPeriod > SENTENCE_MIN then
        assert cut[..lastPeriod + 1] == content[..lastPeriod + 1];
        cut[..lastPeriod + 1]
      else
        assert forall i | SENTENCE_MIN < i < TRUNCATE_AT :: content[i] == cut[i];
        cut + "..."
  }

  // ---------------------------------------------------------------------
  // Read-only SQL guard
  // ---------------------------------------------------------------------

  const WRITE_OPERATIONS: seq<string> := ["INSERT", "UPDATE", "DELETE", "DROP", "CREATE", "ALTER", "TRUNCATE", "GRANT", "REVOKE"]

  /** A word character of a regular expression, taken over ASCII: letters, digits and the underscore. */
  predicate IsWordChar(c: char)
  {
    ('a' <= c <= 'z') || ('A' <= c <= 'Z') || ('0' <= c <= '9') || c == '_'
  }

  /** `\bW\b` matches at `i`: `w` occurs there with no word character right before or right after it. */
  predicate WholeWordAt(s: string, w: string, i: int)
  {
    && OccursAt(s, w, i)
    && (i == 0 || !IsWordChar(s[i - 1]))
    && (i + |w| == |s| || !IsWordChar(s[i + |w|]))
  }

  /** `re.search(r'\bW\b', s)` finds a match. */
  predicate HasWholeWord(s: string, w: string)
  {
    exists i | 0 <= i <= |s| - |w| :: WholeWordAt(s, w, i)
  }

  /** The search for one keyword, position by position. */
  method SearchWholeWord(s: string, w: string) returns (found: bool)
    ensures found <==> HasWholeWord(s, w)
  {
    found := false;
    var i := 0;
    while i <= |s| - |w| && !found
      invariant 0 <= i
      invariant found ==> HasWholeWord(s, w)
      invariant !found ==> forall j | 0 <= j < i :: !WholeWordAt(s, w, j)
      decreases |s| - i, if found then 0 else 1
    {
      if WholeWordAt(s, w, i) {
        found := true;
      } else {
        i := i + 1;
      }
    }
  }

  /** The first of `words` that occurs as a whole word in `s`, trying them in order. */
  method FirstWholeWord(s: string, words: seq<string>) returns (w: Option<string>)
    ensures w.None? <==> forall k | 0 <= k < |words| :: !HasWholeWord(s, words[k])
    ensures w.Some? ==> exists k | 0 <= k < |words| :: (w.value == words[k] && HasWholeWord(s, w.value)
      && forall j | 0 <= j < k :: !HasWholeWord(s, words[j]))
  {
    w := None;
    var k := 0;
    while k < |words|
      invariant 0 <= k <= |words|
      invariant forall j | 0 <= j < k :: !HasWholeWord(s, words[j])
    {
      var found := SearchWholeWord(s, words[k]);
      if found {
        w := Some(words[k]);
        return;
      }
      k := k + 1;
    }
  }

  /**
   * The keyword loop of `execute_sql_query`: the first write keyword, in list
   * order, that occurs as a whole word in the uppercased, stripped query.
   */
  method FindWriteOperation(query: string) returns (op: Option<string>)
    ensures op.None? <==> forall k | 0 <= k < |WRITE_OPERATIONS| :: !HasWholeWord(Upper(Strip(query)), WRITE_OPERATIONS[k])
    ensures op.Some? ==> exists k | 0 <= k < |WRITE_OPERATIONS| :: (op.value == WRITE_OPERATIONS[k]
      && HasWholeWord(Upper(Strip(query)), op.value)
      && forall j | 0 <= j < k :: !HasWholeWord(Upper(Strip(query)), WRITE_OPERATIONS[j]))
  {
    op := FirstWholeWord(Upper(Strip(query)), WRITE_OPERATIONS);
  }

  /** `w` at the very start of `s`, followed by a character that is no word character, is a whole word of `s`. */
  lemma WholeWordAtStart(s: string, w: string)
    requires |w| < |s| && s[..|w|] == w && !IsWordChar(s[|w|])
    ensures HasWholeWord(s, w)
  {
    assert WholeWordAt(s, w, 0);
  }

  lemma UpperOfInser()
    ensures Upper("inser") == "INSER"
  {
    assert forall i | 0 <= i < 5 :: |UpperOf("inser"[i])| == 1;
  }

  lemma UpperOfTee()
    ensures Upper("\U{1E97}") == "T\U{308}"
  {
  }

  lemma UpperJoin(a: string, b: string, ua: string, ub: string)
    requires Upper(a) == ua && Upper(b) == ub
    ensures Upper(a + b) == ua + ub
  {
    UpperConcat(a, b);
  }

  /** Python uppercases "inserẗ" to "INSERT" followed by a combining diaeresis (U+0308). */
  lemma UpperOfInserTee()
    ensures Upper("inser\U{1E97}") == "INSERT\U{308}"
  {
    UpperOfInser();
    UpperOfTee();
    UpperJoin("inser", "\U{1E97}", "INSER", "T\U{308}");
    assert "inser" + "\U{1E97}" == "inser\U{1E97}";
    assert "INSER" + "T\U{308}" == "INSERT\U{308}";
  }

  /**
   * The combining diaeresis that `ẗ` (U+1E97) uppercases to is no word
   * character, so a query spelling a keyword with it still shows the keyword
   * as a whole word, and the guard rejects it.
   */
  lemma ExpandedUppercaseShowsKeyword()
    ensures HasWholeWord(Upper(Strip("inser\U{1E97}")), "INSERT")
  {
    StripUnspaced("inser\U{1E97}");
    UpperOfInserTee();
    WholeWordAtStart("INSERT\U{308}", "INSERT");
  }

  /** What the guard decides: reject with a message, or forward the stripped query. */
  datatype SqlDecision = Rejected(message: string) | Forwarded(sqlQuery: string)

  /**
   * The guard of `execute_sql_query`: a query with a write keyword as a whole
   * word (in any case) is rejected naming the first such keyword; anything
   * else goes on, stripped.
   */
  method GuardSqlQuery(query: string) returns (d: SqlDecision)
    ensures d.Forwarded? <==> forall k | 0 <= k < |WRITE_OPERATIONS| :: !HasWholeWord(Upper(Strip(query)), WRITE_OPERATIONS[k])
    ensures d.Forwarded? ==> d.sqlQuery == Strip(query)
    ensures d.Rejected? ==> exists k | 0 <= k < |WRITE_OPERATIONS| ::
      d.message == "Error: Write operation '" + WRITE_OPERATIONS[k] + "' detected. Only read-only queries are allowed."
      && HasWholeWord(Upper(Strip(query)), WRITE_OPERATIONS[k])
      && forall j | 0 <= j < k :: !HasWholeWord(Upper(Strip(query)), WRITE_OPERATIONS[j])
  {
    var op := FindWriteOperation(query);
    match op
    case None => d := Forwarded(Strip(query));
    case Some(w) => d := Rejected("Error: Write operation '" + w + "' detected. Only read-only queries are allowed.");
  }
}
