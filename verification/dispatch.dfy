/** The rate-limited dispatcher: one attempt takes a key from the rotator, cuts the page text into
    chunks of at most `MaxLength` characters, sends every chunk with that key to the language
    model, strips a leading "Here is/are ...:" phrase from each answer and from their space-joined
    combination. A failing chunk retires the key and fails the attempt; the attempt is retried as a
    whole, at most `MaxAttempts` times, with a clamped exponential wait in between.

    The language model is an oracle `Llm`: given where the call happens (item, attempt, chunk), the
    key and the chunk text, it answers with a completion or fails. */
module Dispatcher {

  import opened Options
  import opened Text
  import opened KeyRotation

  const MaxLength: nat := 6000
  const MaxAttempts: nat := 5
  const WaitMultiplier: nat := 30
  const WaitMin: nat := 60
  const WaitMax: nat := 120

  /* ---------------------------------------------------------------- chunking */

  function Concat(parts: seq<string>): string
  {
    if |parts| == 0 then "" else parts[0] + Concat(parts[1..])
  }

  /** `[content[i:i+max_length] for i in range(0, len(content), max_length)]`: the chunks put back
      together are the content, none is empty or longer than `maxLength`, all but the last are
      exactly `maxLength` long, and their number k is the ceiling of |content| / maxLength, that is
      maxLength * (k - 1) < |content| <= maxLength * k. */
  function Chunks(content: string, maxLength: nat): (parts: seq<string>)
    requires maxLength > 0
    ensures Concat(parts) == content
    ensures forall i | 0 <= i < |parts| :: 0 < |parts[i]| <= maxLength
    ensures forall i | 0 <= i < |parts| - 1 :: |parts[i]| == maxLength
    ensures maxLength * |parts| - maxLength < |content| <= maxLength * |parts|
    decreases |content|
  {
    if |content| == 0 then []
    else if |content| <= maxLength then [content]
    else
      var rest := Chunks(content[maxLength..], maxLength);
      var parts := [content[..maxLength]] + rest;
      assert parts[1..] == rest;
      assert maxLength * |parts| == maxLength * |rest| + maxLength;
      assert content == content[..maxLength] + content[maxLength..];
      parts
  }

  /** With the default chunk size the count is `ceil(len(content) / 6000)`. */
  lemma ChunkCount(content: string)
    ensures |Chunks(content, MaxLength)| == (|content| + MaxLength - 1) / MaxLength
  {
  }

  /* ---------------------------------------------------------------- "Here is ...:" stripping */

  const HereIs := "here is"
  const HereAre := "here are"

  /** "Here is" or "Here are", in any ASCII letter case, starts at `p`. */
  predicate HereAt(s: string, p: int) {
    LowerAt(s, HereIs, p) || LowerAt(s, HereAre, p)
  }

  /** The lower-case word `w` matches `s` from `p` on, letters compared without case. */
  predicate LowerAt(s: string, w: string, p: int) {
    0 <= p && p + |w| <= |s| && forall i | 0 <= i < |w| :: LowerChar(s[p + i]) == w[i]
  }

  /** Index just past the phrase that starts at `p`. */
  function HereEnd(s: string, p: int): (e: int)
    requires HereAt(s, p)
    ensures p + |HereIs| <= e <= p + |HereAre| && e <= |s|
  {
    if LowerAt(s, HereIs, p) then p + |HereIs| else p + |HereAre|
  }

  /** No occurrence of the phrase is followed, anywhere later, by a colon. */
  predicate NoIntro(s: string) {
    forall p, q | 0 <= p <= q < |s| && HereAt(s, p) && HereEnd(s, p) <= q :: s[q] != ':'
  }

  /** `p` is the first occurrence of the phrase and `q` the first colon after it. */
  predicate IntroSpan(s: string, p: int, q: int) {
    && 0 <= p && HereAt(s, p)
    && (forall k | 0 <= k < p :: !HereAt(s, k))
    && HereEnd(s, p) <= q < |s| && s[q] == ':'
    && (forall k | HereEnd(s, p) <= k < q :: s[k] != ':')
  }

  function FirstHere(s: string, from: nat): (r: Option<nat>)
    requires from <= |s|
    ensures r.Some? ==> from <= r.value < |s| && HereAt(s, r.value)
    ensures r.Some? ==> forall k | from <= k < r.value :: !HereAt(s, k)
    ensures r.None? ==> forall k | from <= k < |s| :: !HereAt(s, k)
    decreases |s| - from
  {
    if from == |s| then None
    else if HereAt(s, from) then Some(from)
    else FirstHere(s, from + 1)
  }

  function FirstColon(s: string, from: nat): (r: Option<nat>)
    requires from <= |s|
    ensures r.Some? ==> from <= r.value < |s| && s[r.value] == ':'
    ensures r.Some? ==> forall k | from <= k < r.value :: s[k] != ':'
    ensures r.None? ==> forall k | from <= k < |s| :: s[k] != ':'
    decreases |s| - from
  {
    if from == |s| then None
    else if s[from] == ':' then Some(from)
    else FirstColon(s, from + 1)
  }

  /** Where the lazy match of the pattern falls: the first phrase and the first colon after it, or
      `None` when no phrase is followed by a colon. */
  function IntroOf(s: string): (r: Option<(nat, nat)>)
    ensures r.None? <==> NoIntro(s)
    ensures r.Some? ==> IntroSpan(s, r.value.0, r.value.1)
  {
    match FirstHere(s, 0)
    case None =>
      NoPhraseNoIntro(s);
      None
    case Some(p) =>
      match FirstColon(s, HereEnd(s, p))
      case None =>
        LaterPhrasesEndLater(s, p);
        None
      case Some(q) =>
        FirstSpan(s, p, q);
        IntroFound(s, p, q);
        Some((p, q))
  }

  lemma NoPhraseNoIntro(s: string)
    requires forall k | 0 <= k < |s| :: !HereAt(s, k)
    ensures NoIntro(s)
  {
  }

  /** `re.sub(r'^.*?(Here is|Here are).*?:\s*\n*', '', s, flags=re.IGNORECASE | re.DOTALL)`.
      Text in which no "here is"/"here are" is followed by a colon comes back unchanged; otherwise
      everything up to and including the first colon after the first such phrase is cut, together
      with the whitespace that follows it. */
  function StripIntro(s: string): (r: string)
    ensures NoIntro(s) ==> r == s
    ensures forall p, q | IntroSpan(s, p, q) :: r == LStrip(s[q + 1..])
  {
    match IntroOf(s)
    case None => s
    case Some((p, q)) =>
      OnlySpan(s, p, q);
      LStrip(s[q + 1..])
  }

  /** The first phrase and the first colon after it make an introduction span. */
  lemma FirstSpan(s: string, p: nat, q: nat)
    requires FirstHere(s, 0) == Some(p)
    requires HereEnd(s, p) <= |s| && FirstColon(s, HereEnd(s, p)) == Some(q)
    ensures IntroSpan(s, p, q)
  {
  }

  lemma IntroFound(s: string, p: int, q: int)
    requires IntroSpan(s, p, q)
    ensures !NoIntro(s)
  {
  }

  /** When the first phrase has no colon after it, no later phrase has one either. */
  lemma LaterPhrasesEndLater(s: string, p: nat)
    requires p < |s| && HereAt(s, p) && forall k | 0 <= k < p :: !HereAt(s, k)
    requires forall k | HereEnd(s, p) <= k < |s| :: s[k] != ':'
    ensures NoIntro(s)
  {
    forall p', q | 0 <= p' <= q < |s| && HereAt(s, p') && HereEnd(s, p') <= q
      ensures s[q] != ':'
    {
      assert p <= p';
    }
  }

  /** The first phrase and the first colon after it are unique. */
  lemma IntroSpanUnique(s: string, p: int, q: int, p': int, q': int)
    requires IntroSpan(s, p, q) && IntroSpan(s, p', q')
    ensures p == p' && q == q'
  {
  }

  lemma OnlySpan(s: string, p: int, q: int)
    requires IntroSpan(s, p, q)
    ensures forall p', q' | IntroSpan(s, p', q') :: p' == p && q' == q
  {
    forall p', q' | IntroSpan(s, p', q')
      ensures p' == p && q' == q
    {
      IntroSpanUnique(s, p, q, p', q');
    }
  }

  /** Text that opens with "Here is:" loses exactly that opening and the whitespace after it. */
  lemma StripIntroOpening(t: string)
    requires |t| >= 8 && t[..8] == "Here is:"
    ensures StripIntro(t) == LStrip(t[8..])
  {
    assert forall i | 0 <= i < 8 :: t[i] == "Here is:"[i];
    assert LowerAt(t, HereIs, 0);
    assert HereEnd(t, 0) == 7 && t[7] == ':';
    assert IntroSpan(t, 0, 7);
  }

  lemma StripIntroOneSpace(rest: string)
    ensures StripIntro("Here is: " + rest) == LStrip(rest)
  {
    var t := "Here is: " + rest;
    assert t[..8] == "Here is:" && t[8..] == " " + rest;
    StripIntroOpening(t);
    LStripDrops(" " + rest);
    assert (" " + rest)[1..] == rest;
  }

  /** The strip is not idempotent: a second "Here is:" further on is cut by a second pass. */
  lemma StripIntroNotIdempotent(rest: string)
    ensures StripIntro("Here is: " + ("Here is: " + rest)) == "Here is: " + rest
    ensures StripIntro(StripIntro("Here is: " + ("Here is: " + rest))) == LStrip(rest)
  {
    StripIntroInner(rest);
    StripIntroOneSpace(rest);
  }

  /** A doubled opening loses only its first copy. */
  lemma StripIntroInner(rest: string)
    ensures StripIntro("Here is: " + ("Here is: " + rest)) == "Here is: " + rest
  {
    var t := "Here is: " + rest;
    assert t[0] == 'H';
    LStripKeeps(t);
    StripIntroOneSpace(t);
  }

  /** What a single answer becomes: the phrase strip, then `strip()`. */
  function Clean(text: string): string {
    Strip(StripIntro(text))
  }

  /* ---------------------------------------------------------------- one attempt */

  datatype CallSite = CallSite(item: nat, attempt: nat, chunk: nat)
  datatype Reply = Completion(text: string) | CallFailed
  datatype Call = Call(site: CallSite, key: Key, chunk: string)

  type Llm = (CallSite, Key, string) -> Reply

  function Answer(llm: Llm, c: Call): Reply {
    llm(c.site, c.key, c.chunk)
  }

  function AnswerText(llm: Llm, c: Call): string {
    match Answer(llm, c)
    case Completion(t) => t
    case CallFailed => ""
  }

  /** The cleaned answers to a run of calls, in call order. */
  function CleanedAnswers(llm: Llm, calls: seq<Call>): (r: seq<string>)
    ensures |r| == |calls|
    ensures forall j | 0 <= j < |calls| :: r[j] == Clean(AnswerText(llm, calls[j]))
  {
    seq(|calls|, j requires 0 <= j < |calls| => Clean(AnswerText(llm, calls[j])))
  }

  /** The calls a chunk loop made, and whether it stopped on a failure. The answers it collected
      are `CleanedAnswers` of the calls when it did not fail. */
  datatype ChunkRun = ChunkRun(calls: seq<Call>, failed: bool)

  /** The `for part in parts` loop from chunk `from` on, with one key. Calls go out in chunk order;
      the run stops at the first failing call, so no later chunk is sent. */
  function SendChunks(parts: seq<string>, from: nat, item: nat, attempt: nat, key: Key, llm: Llm): (r: ChunkRun)
    requires from <= |parts|
    ensures |r.calls| <= |parts| - from
    ensures forall j | 0 <= j < |r.calls| :: r.calls[j] == Call(CallSite(item, attempt, from + j), key, parts[from + j])
    ensures !r.failed ==> |r.calls| == |parts| - from
    ensures !r.failed ==> forall j | 0 <= j < |r.calls| :: Answer(llm, r.calls[j]).Completion?
    ensures r.failed ==> |r.calls| > 0 && Answer(llm, r.calls[|r.calls| - 1]).CallFailed?
    ensures r.failed ==> forall j | 0 <= j < |r.calls| - 1 :: Answer(llm, r.calls[j]).Completion?
    decreases |parts| - from
  {
    if from == |parts| then ChunkRun([], false)
    else
      var c := Call(CallSite(item, attempt, from), key, parts[from]);
      if Answer(llm, c).CallFailed? then ChunkRun([c], true)
      else
        var rest := SendChunks(parts, from + 1, item, attempt, key, llm);
        var calls := [c] + rest.calls;
        assert forall j | 1 <= j < |calls| :: calls[j] == rest.calls[j - 1];
        ChunkRun(calls, rest.failed)
  }

  /** What an attempt returns once every chunk was answered: the cleaned answers joined by single
      spaces in call order, cleaned once more. No calls give the empty text. */
  function CombinedAnswer(llm: Llm, calls: seq<Call>): (r: string)
    ensures calls == [] ==> r == ""
  {
    if calls == [] then
      assert NoIntro("");
      assert Strip("") == "";
      ""
    else Clean(Join(CleanedAnswers(llm, calls), " "))
  }

  datatype AttemptOutcome = Done(text: string) | RateLimited | NoKey

  datatype AttemptResult = AttemptResult(pool: KeyPool, outcome: AttemptOutcome, key: Option<Key>, calls: seq<Call>)

  /** One call of `run_groq_api`. The key is taken once, before chunking, and every call of the
      attempt uses it. On success the result is the stripped answers joined by single spaces in
      chunk order, stripped once more. A failing chunk marks the key as used twice (once by the
      inner handler, once by the outer one) and raises the rate-limit error. With no key at all the
      outer handler itself fails on the unbound key, which is not a rate-limit error (`NoKey`). */
  function Attempt(pool: KeyPool, content: string, item: nat, attempt: nat, llm: Llm): (r: AttemptResult)
    ensures r.pool.Pool() == pool.Pool()
    ensures r.key == GetNextKey(pool).1
    ensures r.outcome.NoKey? <==> pool.apiKeys == [] && pool.usedKeys == []
    ensures r.outcome.NoKey? ==> r.calls == [] && r.pool == pool.(cursor := 0)
    ensures |r.calls| <= |Chunks(content, MaxLength)|
    ensures forall j | 0 <= j < |r.calls| ::
      r.key.Some? && r.calls[j] == Call(CallSite(item, attempt, j), r.key.value, Chunks(content, MaxLength)[j])
    ensures r.outcome.Done? ==> |r.calls| == |Chunks(content, MaxLength)|
    ensures r.outcome.Done? ==> r.outcome.text == CombinedAnswer(llm, r.calls)
    ensures r.outcome.Done? ==> r.pool == GetNextKey(pool).0
    ensures r.outcome.RateLimited? ==> |r.calls| > 0 && Answer(llm, r.calls[|r.calls| - 1]).CallFailed?
    ensures r.outcome.RateLimited? ==>
      r.key.Some? && r.pool == MarkKeyAsUsed(MarkKeyAsUsed(GetNextKey(pool).0, r.key.value), r.key.value)
    ensures content == [] ==> r.calls == [] && (r.outcome.Done? ==> r.outcome.text == "")
  {
    var drawn := GetNextKey(pool);
    match drawn.1
    case None => AttemptResult(drawn.0, NoKey, None, [])
    case Some(key) => AttemptWithKey(drawn.0, key, Chunks(content, MaxLength), item, attempt, llm)
  }

  /** A failing chunk marks the attempt's key as used twice: once in the inner handler and once
      in the outer one. */
  function MarkedTwice(p: KeyPool, key: Key): (r: KeyPool)
    ensures r.Pool() == p.Pool()
  {
    MarkKeyAsUsed(MarkKeyAsUsed(p, key), key)
  }

  /** The part of an attempt after the key was obtained and the content was cut into `parts`. */
  function AttemptWithKey(p1: KeyPool, key: Key, parts: seq<string>, item: nat, attempt: nat, llm: Llm): (r: AttemptResult)
    ensures r.key == Some(key) && !r.outcome.NoKey?
    ensures r.pool.Pool() == p1.Pool()
    ensures |r.calls| <= |parts|
    ensures forall j | 0 <= j < |r.calls| :: r.calls[j] == Call(CallSite(item, attempt, j), key, parts[j])
    ensures r.outcome.Done? ==> |r.calls| == |parts|
    ensures r.outcome.Done? ==> r.outcome.text == CombinedAnswer(llm, r.calls) && r.pool == p1
    ensures r.outcome.RateLimited? ==> |r.calls| > 0 && Answer(llm, r.calls[|r.calls| - 1]).CallFailed?
    ensures r.outcome.RateLimited? ==> r.pool == MarkedTwice(p1, key)
  {
    var run := SendChunks(parts, 0, item, attempt, key, llm);
    if run.failed then AttemptResult(MarkedTwice(p1, key), RateLimited, Some(key), run.calls)
    else AttemptResult(p1, Done(CombinedAnswer(llm, run.calls)), Some(key), run.calls)
  }

  /** A model that answers every call. */
  ghost predicate NeverFails(llm: Llm) {
    forall site, key, chunk :: llm(site, key, chunk).Completion?
  }

  /** With a model that always answers and at least one key, an attempt succeeds with the cleaned,
      space-joined answers to all chunks, and leaves the pool as the key draw left it. */
  lemma AttemptAnswered(pool: KeyPool, content: string, item: nat, attempt: nat, llm: Llm)
    requires NeverFails(llm) && pool.Pool() != multiset{}
    ensures var r := Attempt(pool, content, item, attempt, llm);
      && r.outcome == Done(CombinedAnswer(llm, r.calls))
      && |r.calls| == |Chunks(content, MaxLength)|
      && r.pool == GetNextKey(pool).0
  {
    EmptyPool(pool);
  }

  /* ---------------------------------------------------------------- the retry loop */

  function Pow2(n: nat): nat {
    if n == 0 then 1 else 2 * Pow2(n - 1)
  }

  /** The wait after failed attempt `n`: `multiplier * 2^(n-1)` clamped to [min, max]. */
  function Wait(n: nat): (w: nat)
    requires n >= 1
    ensures WaitMin <= w <= WaitMax
  {
    var raw := WaitMultiplier * Pow2(n - 1);
    if raw < WaitMin then WaitMin else if raw > WaitMax then WaitMax else raw
  }

  lemma {:induction false} Pow2Monotone(a: nat, b: nat)
    requires a <= b
    ensures Pow2(a) <= Pow2(b)
    decreases b
  {
    if a < b {
      Pow2Monotone(a, b - 1);
    }
  }

  /** The waits never shrink from one retry to the next. */
  lemma WaitMonotone(n: nat, m: nat)
    requires 1 <= n <= m
    ensures Wait(n) <= Wait(m)
  {
    Pow2Monotone(n - 1, m - 1);
  }

  /** The four waits of a fully failing run: 60, 60, 120 and 120 seconds. */
  lemma WaitSchedule()
    ensures Wait(1) == 60 && Wait(2) == 60 && Wait(3) == 120 && Wait(4) == 120
  {
    assert Pow2(1) == 2 && Pow2(2) == 4 && Pow2(3) == 8;
  }

  datatype DispatchOutcome = Succeeded(text: string) | RetryExhausted | Crashed

  /** A pool with no keys, available or used. */
  predicate NoKeys(p: KeyPool) {
    p.apiKeys == [] && p.usedKeys == []
  }

  lemma EmptyPool(p: KeyPool)
    ensures p.Pool() == multiset{} <==> NoKeys(p)
  {
    if p.apiKeys != [] {
      assert p.apiKeys[0] in multiset(p.apiKeys + p.usedKeys);
    } else if p.usedKeys != [] {
      assert p.usedKeys[0] in multiset(p.apiKeys + p.usedKeys);
    }
  }

  /** Pools with the same keys either both have none or both have some. */
  lemma SameKeysNoKeys(p: KeyPool, q: KeyPool)
    requires p.Pool() == q.Pool()
    ensures NoKeys(p) <==> NoKeys(q)
  {
    EmptyPool(p);
    EmptyPool(q);
  }

  /** One attempt as a step: from a key pool and an attempt number to that attempt's result. */
  type Step = (KeyPool, nat) -> AttemptResult

  /** The attempts a retry loop makes with `step` from attempt number `attempt` on: each one
      starts from the key pool the one before it left, only a rate-limited attempt is followed by
      another, and there are no more than `MaxAttempts` in all (`ChainLink`, `ChainStops`). */
  function Chain(step: Step, pool: KeyPool, attempt: nat): (rs: seq<AttemptResult>)
    requires 1 <= attempt <= MaxAttempts
    ensures 1 <= |rs| <= MaxAttempts - attempt + 1
    ensures rs[0] == step(pool, attempt)
    decreases MaxAttempts - attempt
  {
    var r := step(pool, attempt);
    if r.outcome.RateLimited? && attempt < MaxAttempts then [r] + Chain(step, r.pool, attempt + 1)
    else [r]
  }

  /** One step of `Chain`: the first attempt, followed by the rest when it was rate-limited and
      attempts remain. */
  lemma ChainUnfold(step: Step, pool: KeyPool, attempt: nat)
    requires 1 <= attempt <= MaxAttempts
    ensures var r := step(pool, attempt);
      Chain(step, pool, attempt) ==
        if r.outcome.RateLimited? && attempt < MaxAttempts then [r] + Chain(step, r.pool, attempt + 1) else [r]
  {
  }

  /** Every attempt but the last was rate-limited, and the next one is the step from the pool it
      left, with the next attempt number. */
  lemma {:induction false} ChainLink(step: Step, pool: KeyPool, attempt: nat, j: nat)
    requires 1 <= attempt <= MaxAttempts
    requires j + 1 < |Chain(step, pool, attempt)|
    ensures var rs := Chain(step, pool, attempt);
      rs[j].outcome.RateLimited? && rs[j + 1] == step(rs[j].pool, attempt + j + 1)
    decreases j
  {
    ChainUnfold(step, pool, attempt);
    if j > 0 {
      ChainLink(step, step(pool, attempt).pool, attempt + 1, j - 1);
    }
  }

  /** A chain ends on an attempt that was not rate-limited, or after the last attempt allowed. */
  lemma {:induction false} ChainStops(step: Step, pool: KeyPool, attempt: nat)
    requires 1 <= attempt <= MaxAttempts
    ensures var rs := Chain(step, pool, attempt);
      !rs[|rs| - 1].outcome.RateLimited? || |rs| == MaxAttempts - attempt + 1
    decreases MaxAttempts - attempt
  {
    var r := step(pool, attempt);
    if r.outcome.RateLimited? && attempt < MaxAttempts {
      ChainStops(step, r.pool, attempt + 1);
    }
  }

  /** `run_groq_api` on `content` as a step of the retry loop. */
  function AttemptStep(content: string, item: nat, llm: Llm): Step {
    (p: KeyPool, a: nat) => Attempt(p, content, item, a, llm)
  }

  /** Applying the step of `content` is making an attempt on it. */
  lemma StepIsAttempt(content: string, item: nat, llm: Llm, p: KeyPool, a: nat)
    ensures AttemptStep(content, item, llm)(p, a) == Attempt(p, content, item, a, llm)
  {
  }

  /** The attempts the retry decorator makes for `content`, numbered from 1. */
  function Attempts(pool: KeyPool, content: string, item: nat, llm: Llm): seq<AttemptResult> {
    Chain(AttemptStep(content, item, llm), pool, 1)
  }

  /** The first attempt of a retry run is an attempt from the pool the run starts with. */
  lemma AttemptsFirst(pool: KeyPool, content: string, item: nat, llm: Llm)
    ensures Attempts(pool, content, item, llm)[0] == Attempt(pool, content, item, 1, llm)
  {
    StepIsAttempt(content, item, llm, pool, 1);
  }

  /** Each attempt of a retry run but the last was rate-limited, and the next one is an attempt
      from the key pool it left, with the next attempt number. */
  lemma AttemptsLink(pool: KeyPool, content: string, item: nat, llm: Llm, j: nat)
    requires j + 1 < |Attempts(pool, content, item, llm)|
    ensures var rs := Attempts(pool, content, item, llm);
      rs[j].outcome.RateLimited? && rs[j + 1] == Attempt(rs[j].pool, content, item, j + 2, llm)
  {
    var rs := Attempts(pool, content, item, llm);
    ChainLink(AttemptStep(content, item, llm), pool, 1, j);
    StepIsAttempt(content, item, llm, rs[j].pool, j + 2);
  }

  /** What the caller of the decorated function sees once the attempts are over: the answer of a
      successful last attempt, the retry error after `MaxAttempts` rate-limited attempts, or the
      non-retried error of an attempt without a key. */
  function Outcome(rs: seq<AttemptResult>): DispatchOutcome
    requires rs != []
  {
    match rs[|rs| - 1].outcome
    case Done(text) => Succeeded(text)
    case RateLimited => RetryExhausted
    case NoKey => Crashed
  }

  /** The kind of outcome follows the kind of the last attempt. */
  lemma OutcomeOfLast(rs: seq<AttemptResult>)
    requires rs != []
    ensures Outcome(rs).Crashed? <==> rs[|rs| - 1].outcome.NoKey?
    ensures Outcome(rs).RetryExhausted? <==> rs[|rs| - 1].outcome.RateLimited?
    ensures Outcome(rs).Succeeded? <==> rs[|rs| - 1].outcome.Done?
  {
  }

  /** The pool the attempts leave behind. */
  function FinalPool(rs: seq<AttemptResult>): KeyPool
    requires rs != []
  {
    rs[|rs| - 1].pool
  }

  /** A step keeps the multiset of keys of the pool it starts from. */
  ghost predicate KeepsKeys(step: Step) {
    forall p: KeyPool, a: nat :: step(p, a).pool.Pool() == p.Pool()
  }

  /** A step finds no key exactly when its pool holds none. */
  ghost predicate NoKeyOnlyWhenEmpty(step: Step) {
    forall p: KeyPool, a: nat :: step(p, a).outcome.NoKey? <==> NoKeys(p)
  }

  /** A step that succeeds returns the cleaned, joined answers to the calls it made. */
  ghost predicate DoneWithAnswers(step: Step, llm: Llm) {
    forall p: KeyPool, a: nat :: step(p, a).outcome.Done? ==> step(p, a).outcome.text == CombinedAnswer(llm, step(p, a).calls)
  }

  /** A step that succeeds returns the empty text. */
  ghost predicate DoneEmpty(step: Step) {
    forall p: KeyPool, a: nat :: step(p, a).outcome.Done? ==> step(p, a).outcome.text == ""
  }

  /** An attempt keeps the keys, finds no key only in an empty pool, and succeeds with the
      combined answers; on empty content that answer is empty. */
  lemma AttemptStepFacts(content: string, item: nat, llm: Llm)
    ensures KeepsKeys(AttemptStep(content, item, llm))
    ensures NoKeyOnlyWhenEmpty(AttemptStep(content, item, llm))
    ensures DoneWithAnswers(AttemptStep(content, item, llm), llm)
    ensures content == [] ==> DoneEmpty(AttemptStep(content, item, llm))
  {
    var step := AttemptStep(content, item, llm);
    forall p: KeyPool, a: nat
      ensures step(p, a).pool.Pool() == p.Pool()
      ensures step(p, a).outcome.NoKey? <==> NoKeys(p)
      ensures step(p, a).outcome.Done? ==> step(p, a).outcome.text == CombinedAnswer(llm, step(p, a).calls)
      ensures content == [] && step(p, a).outcome.Done? ==> step(p, a).outcome.text == ""
    {
      StepIsAttempt(content, item, llm, p, a);
    }
  }

  /** `run_groq_api` under its retry decorator: at most `MaxAttempts` attempts, a retry only after
      a rate-limit failure, and one wait in [`WaitMin`, `WaitMax`] seconds before each retry. The
      waits are returned rather than slept. An empty key pool fails the first attempt without a
      retry; exhausting the attempts surfaces `RetryExhausted`. */
  method Dispatch(pool: KeyPool, content: string, item: nat, llm: Llm)
    returns (final: KeyPool, outcome: DispatchOutcome, attempts: seq<AttemptResult>, waits: seq<nat>)
    ensures attempts == Attempts(pool, content, item, llm)
    ensures 1 <= |attempts| <= MaxAttempts
    ensures final == FinalPool(attempts) && final.Pool() == pool.Pool()
    ensures outcome == Outcome(attempts)
    ensures |waits| == |attempts| - 1
    ensures forall j | 0 <= j < |waits| :: waits[j] == Wait(j + 1) && WaitMin <= waits[j] <= WaitMax
    ensures outcome.Succeeded? ==> outcome.text == CombinedAnswer(llm, attempts[|attempts| - 1].calls)
    ensures outcome.Crashed? <==> pool.Pool() == multiset{}
    ensures outcome.Crashed? ==> |attempts| == 1
    ensures outcome.RetryExhausted? <==> |attempts| == MaxAttempts && forall j | 0 <= j < MaxAttempts :: attempts[j].outcome.RateLimited?
    ensures content == [] && outcome.Succeeded? ==> outcome.text == ""
  {
    AttemptStepFacts(content, item, llm);
    final, outcome, attempts, waits := Retry(AttemptStep(content, item, llm), pool, llm);
  }

  /** The retry decorator around any step with the properties an attempt has. */
  method Retry(step: Step, pool: KeyPool, llm: Llm)
    returns (final: KeyPool, outcome: DispatchOutcome, attempts: seq<AttemptResult>, waits: seq<nat>)
    requires KeepsKeys(step) && NoKeyOnlyWhenEmpty(step) && DoneWithAnswers(step, llm)
    ensures attempts == Chain(step, pool, 1)
    ensures final == FinalPool(attempts) && final.Pool() == pool.Pool()
    ensures outcome == Outcome(attempts)
    ensures |waits| == |attempts| - 1
    ensures forall j | 0 <= j < |waits| :: waits[j] == Wait(j + 1) && WaitMin <= waits[j] <= WaitMax
    ensures outcome.Succeeded? ==> outcome.text == CombinedAnswer(llm, attempts[|attempts| - 1].calls)
    ensures outcome.Crashed? <==> pool.Pool() == multiset{}
    ensures outcome.Crashed? ==> |attempts| == 1
    ensures outcome.RetryExhausted? <==> |attempts| == MaxAttempts && forall j | 0 <= j < MaxAttempts :: attempts[j].outcome.RateLimited?
    ensures DoneEmpty(step) && outcome.Succeeded? ==> outcome.text == ""
  {
    var before;
    attempts, before := RunChain(step, pool, 1);
    waits := Waits(|attempts| - 1);
    final := FinalPool(attempts);
    outcome := Outcome(attempts);
    ChainStartKeeps(step, pool, 1);
    if |attempts| > 1 {
      ChainRetriedNotEmpty(step, pool, 1);
    }
    StepAt(step, llm, before, |attempts|);
    ChainOutcome(pool, llm, attempts, before, DoneEmpty(step));
  }

  /** The properties of a step, at one pool and attempt number. */
  lemma StepAt(step: Step, llm: Llm, p: KeyPool, a: nat)
    requires KeepsKeys(step) && NoKeyOnlyWhenEmpty(step) && DoneWithAnswers(step, llm)
    ensures step(p, a).pool.Pool() == p.Pool()
    ensures step(p, a).outcome.NoKey? <==> NoKeys(p)
    ensures step(p, a).outcome.Done? ==> step(p, a).outcome.text == CombinedAnswer(llm, step(p, a).calls)
    ensures DoneEmpty(step) && step(p, a).outcome.Done? ==> step(p, a).outcome.text == ""
  {
  }

  /** How a finished run of attempts ends: the call's outcome and final pool follow from the last
      attempt, which started from `before`, a pool with the keys the run started with; `empty` says
      whether a successful attempt answers with the empty text. */
  lemma ChainOutcome(pool: KeyPool, llm: Llm, rs: seq<AttemptResult>, before: KeyPool, empty: bool)
    requires rs != [] && |rs| <= MaxAttempts
    requires before.Pool() == pool.Pool()
    requires rs[|rs| - 1].pool.Pool() == before.Pool()
    requires rs[|rs| - 1].outcome.NoKey? <==> NoKeys(before)
    requires |rs| > 1 ==> !NoKeys(pool)
    requires forall j | 0 <= j < |rs| - 1 :: rs[j].outcome.RateLimited?
    requires !rs[|rs| - 1].outcome.RateLimited? || |rs| == MaxAttempts
    requires rs[|rs| - 1].outcome.Done? ==> rs[|rs| - 1].outcome.text == CombinedAnswer(llm, rs[|rs| - 1].calls)
    requires empty && rs[|rs| - 1].outcome.Done? ==> rs[|rs| - 1].outcome.text == ""
    ensures FinalPool(rs).Pool() == pool.Pool()
    ensures Outcome(rs).Succeeded? ==> Outcome(rs).text == CombinedAnswer(llm, rs[|rs| - 1].calls)
    ensures empty && Outcome(rs).Succeeded? ==> Outcome(rs).text == ""
    ensures Outcome(rs).Crashed? <==> pool.Pool() == multiset{}
    ensures Outcome(rs).Crashed? ==> |rs| == 1
    ensures Outcome(rs).RetryExhausted? <==> |rs| == MaxAttempts && forall j | 0 <= j < MaxAttempts :: rs[j].outcome.RateLimited?
  {
    OutcomeOfLast(rs);
    SameKeysNoKeys(before, pool);
    EmptyPool(pool);
  }

  /** The retry loop of the decorator over any step, from attempt number `attempt` on: it makes
      the attempts of `Chain` one after the other, each from the pool the one before it left, and
      returns the pool the last one started from. */
  method RunChain(step: Step, pool: KeyPool, attempt: nat) returns (attempts: seq<AttemptResult>, before: KeyPool)
    requires 1 <= attempt <= MaxAttempts
    ensures attempts == Chain(step, pool, attempt)
    ensures before == LastStart(attempts, pool)
    ensures attempts[|attempts| - 1] == step(before, attempt + |attempts| - 1)
    ensures forall j | 0 <= j < |attempts| - 1 :: attempts[j].outcome.RateLimited?
    ensures !attempts[|attempts| - 1].outcome.RateLimited? || attempt + |attempts| - 1 == MaxAttempts
    decreases MaxAttempts - attempt
  {
    var r := step(pool, attempt);
    if r.outcome.RateLimited? && attempt < MaxAttempts {
      var rest;
      rest, before := RunChain(step, r.pool, attempt + 1);
      attempts := [r] + rest;
      assert forall j | 1 <= j < |attempts| :: attempts[j] == rest[j - 1];
    } else {
      attempts, before := [r], pool;
    }
  }

  /** The pool the last of the attempts `rs` started from. */
  function LastStart(rs: seq<AttemptResult>, pool: KeyPool): KeyPool
    requires rs != []
  {
    if |rs| == 1 then pool else rs[|rs| - 2].pool
  }

  /** With a step that keeps the keys, the last attempt of a chain starts with the keys the chain
      started with. */
  lemma ChainStartKeeps(step: Step, pool: KeyPool, attempt: nat)
    requires 1 <= attempt <= MaxAttempts
    requires KeepsKeys(step)
    ensures LastStart(Chain(step, pool, attempt), pool).Pool() == pool.Pool()
  {
    var keys := (p: KeyPool) => p.Pool();
    forall p: KeyPool, a: nat
      ensures keys(step(p, a).pool) == keys(p)
    {
    }
    ChainStartKeepsView(step, keys, pool, attempt);
  }

  /** The same through any view of a pool that every step keeps, which the induction treats as
      uninterpreted. */
  lemma {:induction false} ChainStartKeepsView(step: Step, view: KeyPool -> multiset<Key>, pool: KeyPool, attempt: nat)
    requires 1 <= attempt <= MaxAttempts
    requires forall p: KeyPool, a: nat :: view(step(p, a).pool) == view(p)
    ensures view(LastStart(Chain(step, pool, attempt), pool)) == view(pool)
    decreases MaxAttempts - attempt
  {
    var r := step(pool, attempt);
    ChainUnfold(step, pool, attempt);
    if r.outcome.RateLimited? && attempt < MaxAttempts {
      var rest := Chain(step, r.pool, attempt + 1);
      ChainStartKeepsView(step, view, r.pool, attempt + 1);
      LastStartCons(r, rest, pool);
    }
  }

  /** The last attempt of a longer run starts where it would in the run's tail. */
  lemma LastStartCons(r: AttemptResult, rest: seq<AttemptResult>, pool: KeyPool)
    requires rest != []
    ensures LastStart([r] + rest, pool) == LastStart(rest, r.pool)
  {
    if |rest| > 1 {
      assert ([r] + rest)[|rest| - 1] == rest[|rest| - 2];
    }
  }

  /** A retry loop that retries started with at least one key. */
  lemma ChainRetriedNotEmpty(step: Step, pool: KeyPool, attempt: nat)
    requires 1 <= attempt <= MaxAttempts
    requires NoKeyOnlyWhenEmpty(step)
    requires |Chain(step, pool, attempt)| > 1
    ensures !NoKeys(pool)
  {
    ChainUnfold(step, pool, attempt);
    assert !step(pool, attempt).outcome.NoKey?;
  }

  /** The waits before retries 1 to `k`, as the decorator's exponential wait computes them. */
  method Waits(k: nat) returns (ws: seq<nat>)
    ensures |ws| == k
    ensures forall j | 0 <= j < k :: ws[j] == Wait(j + 1) && WaitMin <= ws[j] <= WaitMax
  {
    ws := [];
    while |ws| < k
      invariant |ws| <= k
      invariant forall j | 0 <= j < |ws| :: ws[j] == Wait(j + 1)
    {
      ws := ws + [Wait(|ws| + 1)];
    }
  }

  /** With a model that always answers and at least one key, the first attempt succeeds: the
      decorated call returns the cleaned, joined answers to all chunks without a retry. */
  lemma AnsweredFirstTime(pool: KeyPool, content: string, item: nat, llm: Llm)
    requires NeverFails(llm) && pool.Pool() != multiset{}
    ensures var rs := Attempts(pool, content, item, llm);
      && |rs| == 1
      && Outcome(rs) == Succeeded(CombinedAnswer(llm, rs[0].calls))
      && FinalPool(rs) == GetNextKey(pool).0
  {
    StepIsAttempt(content, item, llm, pool, 1);
    AttemptAnswered(pool, content, item, 1, llm);
  }
}
