/**
 * The offset search: given a partition, a target timestamp and a key, find the offset of the
 * message with that key near the first message at or after the timestamp.
 *
 * The search has three phases. `Search` rejects a missing or empty partition, and
 * `SearchPartition` rejects a timestamp outside the partition's range. `RefineSearch` bisects the offset range with single-message reads until the
 * range fits in one page, for at most `MaxRefinementAttempts` reads. `FinalizeSearch` scans
 * pages outward from the refined offset (`ScrollPages`) for a message with the key.
 *
 * The server is the pure reader `KafdropApi.ReadMessages` over an immutable log. Every method
 * also returns the requests it sent, in order, so that the number and order of reads can be stated.
 * The end-to-end guarantee is on `SearchPartition` and `Search`: on a well-formed log, a key
 * held by one message only, which is the first at or after a timestamp within the partition's
 * range, is found once the scan covers at least one page on each side.
 */
module Search {
  import opened Wrappers
  import opened KafdropApi
  import Murmur2

  /** `maxRefinementAttempts`: the most midpoint reads a search performs. */
  const MaxRefinementAttempts: nat := 30

  /** The number of messages in a page, `KafdropConsts.MaxPageSize`. */
  type PageSize = n: int | n > 0 witness 1

  datatype SearchError =
    | PartitionNotFound             // `partitions.find` found no such partition
    | PartitionEmpty                // "Search rejected: Partition is empty"
    | TimestampOutOfRange           // "Search rejected: Target timestamp is out of range ..."
    | ExceededMaxRefinementAttempts // "Search failed: Exceeded max search refinement attempts"
    | MessageMissing                // a single-message read answered with no message

  datatype SearchParams = SearchParams(key: string, partition: int, timestamp: int, autoScrollPages: nat)

  // ----- A well-formed partition log -----

  /** Timestamps never decrease along the log. */
  ghost predicate Sorted(log: seq<Message>) {
    forall i, j :: 0 <= i <= j < |log| ==> log[i].timestamp <= log[j].timestamp
  }

  /** The log holds exactly the offsets `firstOffset` to `lastOffset - 1`, in timestamp order. */
  ghost predicate WellFormed(log: seq<Message>, firstOffset: int, lastOffset: int) {
    0 <= firstOffset <= lastOffset && |log| == lastOffset - firstOffset
    && Contiguous(log, firstOffset) && Sorted(log)
  }

  // ----- Bisection -----

  /** JavaScript's `Math.round`: the nearest integer, halves rounded up. */
  function Round(x: real): int {
    (x + 0.5).Floor
  }

  /** The probe offset `Math.round((fromOffset + toOffset) / 2)`. */
  function MidOffset(fromOffset: int, toOffset: int): (m: int)
    ensures m == (fromOffset + toOffset + 1) / 2
    ensures toOffset - fromOffset >= 2 ==> fromOffset < m < toOffset
  {
    var x := fromOffset + toOffset + 1;
    var q := x / 2;
    assert x == 2 * q + x % 2;
    assert (fromOffset + toOffset) as real / 2.0 + 0.5 == q as real + (x % 2) as real / 2.0;
    Round((fromOffset + toOffset) as real / 2.0)
  }

  /**
   * After a probe the range is at most half its width, rounded up, so the bound
   * `(width - 1) * 2^(attempt - 1) <= initial width - 1` survives the next attempt.
   */
  lemma HalvingUpper(w: int, w': int, k: nat, initial: int)
    requires w >= 2 && 1 <= w' <= (w + 1) / 2 && k >= 1
    requires (w - 1) * k <= initial - 1
    ensures (w' - 1) * (2 * k) <= initial - 1
  {
    assert 2 * (w' - 1) <= w - 1;
    assert (w' - 1) * (2 * k) == (2 * (w' - 1)) * k;
    Murmur2.MulMono(k, 2 * (w' - 1), w - 1);
  }

  /**
   * After a probe the range is at least half its width, rounded down, so the bound
   * `(width + 1) * 2^(attempt - 1) >= initial width + 1` survives the next attempt.
   */
  lemma HalvingLower(w: int, w': int, k: nat, initial: int)
    requires w >= 0 && w' >= w / 2 && k >= 1
    requires (w + 1) * k >= initial + 1
    ensures (w' + 1) * (2 * k) >= initial + 1
  {
    assert 2 * (w' + 1) >= w + 1;
    assert (w' + 1) * (2 * k) == (2 * (w' + 1)) * k;
    Murmur2.MulMono(k, w + 1, 2 * (w' + 1));
  }

  /** Powers of two grow with the exponent. */
  lemma {:induction false} Pow2Mono(a: nat, b: nat)
    requires a <= b
    ensures Murmur2.Pow2(a) <= Murmur2.Pow2(b)
    decreases b
  {
    if a < b {
      Pow2Mono(a, b - 1);
    }
  }

  /**
   * What the bisection keeps on a well-formed log after `attempt - 1` probes: the range
   * `[fromOffset, toOffset]` brackets the first message at or after the target, and its width
   * has been roughly halved by each probe.
   */
  ghost predicate Bracket(log: seq<Message>, timestamp: int, firstOffset: int, lastOffset: int,
                          fromOffset: int, toOffset: int, attempt: nat)
  {
    && WellFormed(log, firstOffset, lastOffset)
    && 1 <= attempt
    && firstOffset <= fromOffset < toOffset <= lastOffset
    && (fromOffset == firstOffset || log[fromOffset - firstOffset].timestamp < timestamp)
    && (toOffset == lastOffset || log[toOffset - firstOffset].timestamp >= timestamp)
    && (toOffset - fromOffset - 1) * Murmur2.Pow2(attempt - 1) <= lastOffset - firstOffset - 1
    && (toOffset - fromOffset + 1) * Murmur2.Pow2(attempt - 1) >= lastOffset - firstOffset + 1
  }

  /** A probe inside the bracket reads the message at the probe, and moving to it keeps the bracket. */
  lemma BracketStep(log: seq<Message>, timestamp: int, firstOffset: int, lastOffset: int,
                    fromOffset: int, toOffset: int, attempt: nat)
    requires Bracket(log, timestamp, firstOffset, lastOffset, fromOffset, toOffset, attempt)
    requires toOffset - fromOffset >= 2
    ensures var offset := MidOffset(fromOffset, toOffset);
            && fromOffset < offset < toOffset
            && ReadMessages(log, offset, 1) == [log[offset - firstOffset]]
            && log[offset - firstOffset].offset == offset
            && (if log[offset - firstOffset].timestamp < timestamp
                then Bracket(log, timestamp, firstOffset, lastOffset, offset, toOffset, attempt + 1)
                else Bracket(log, timestamp, firstOffset, lastOffset, fromOffset, offset, attempt + 1))
  {
    var offset := MidOffset(fromOffset, toOffset);
    var w := toOffset - fromOffset;
    var k := Murmur2.Pow2(attempt - 1);
    var initial := lastOffset - firstOffset;
    ReadWindow(log, firstOffset, offset, 1);
    assert Murmur2.Pow2(attempt) == 2 * k;
    HalvingUpper(w, offset - fromOffset, k, initial);
    HalvingLower(w, offset - fromOffset, k, initial);
    HalvingUpper(w, toOffset - offset, k, initial);
    HalvingLower(w, toOffset - offset, k, initial);
  }

  /**
   * A refined offset of the log: every message before it is older than the target, and every
   * message from a page after it on is not. So the first message at or after the target, if
   * there is one, is at most a page past the refined offset.
   */
  ghost predicate Refined(log: seq<Message>, pageSize: PageSize, timestamp: int, firstOffset: int, lastOffset: int,
                          refinedOffset: int)
  {
    && firstOffset <= refinedOffset < lastOffset
    && (forall i :: 0 <= i < refinedOffset - firstOffset && i < |log| ==> log[i].timestamp < timestamp)
    && (forall i :: refinedOffset + pageSize - firstOffset <= i < |log| ==> log[i].timestamp >= timestamp)
  }

  /** The outcome of a refinement and the single-message reads it sent, in order. */
  datatype Refinement = Refinement(result: Result<int, SearchError>, probes: seq<MessagesRequest>)

  /** Every request reads a single message. */
  predicate SingleReads(requests: seq<MessagesRequest>) {
    forall i :: 0 <= i < |requests| ==> requests[i].count == 1
  }

  /**
   * `refineSearch` on the range `[fromOffset, toOffset)` at attempt `attempt`, as the source's
   * recursion defines it, after the reads `sent`. An attempt first gives up once more than
   * `MaxRefinementAttempts` attempts were made, then stops at `fromOffset` when the range fits in
   * a page, and otherwise reads the message at the midpoint and moves `fromOffset` to it when it
   * is older than the target, `toOffset` otherwise. A read that answers no message ends the
   * search with an error.
   */
  function Refine(log: seq<Message>, pageSize: PageSize, timestamp: int, fromOffset: int, toOffset: int, attempt: nat,
                  sent: seq<MessagesRequest>): (r: Refinement)
    requires 1 <= attempt <= MaxRefinementAttempts + 1
    ensures |sent| <= |r.probes| <= |sent| + MaxRefinementAttempts + 1 - attempt
    ensures r.result == Failure(ExceededMaxRefinementAttempts) ==> |r.probes| == |sent| + MaxRefinementAttempts + 1 - attempt
    ensures r.result.Failure? ==> r.result.error in {ExceededMaxRefinementAttempts, MessageMissing}
    ensures SingleReads(sent) ==> SingleReads(r.probes)
    decreases MaxRefinementAttempts + 1 - attempt
  {
    if attempt > MaxRefinementAttempts then Refinement(Failure(ExceededMaxRefinementAttempts), sent)
    else if toOffset - fromOffset <= pageSize then Refinement(Success(fromOffset), sent)
    else
      var offset := MidOffset(fromOffset, toOffset);
      var page := ReadMessages(log, offset, 1);
      var sent' := sent + [MessagesRequest(offset, 1)];
      if page == [] then Refinement(Failure(MessageMissing), sent')
      else
        var message := page[0];
        if message.timestamp < timestamp then Refine(log, pageSize, timestamp, message.offset, toOffset, attempt + 1, sent')
        else Refine(log, pageSize, timestamp, fromOffset, message.offset, attempt + 1, sent')
  }

  /**
   * `refineSearch` from its first attempt `(firstOffset, lastOffset, 1)`, with the recursion
   * unfolded into a loop over `fromOffset`, `toOffset` and `attempt`; `probes` are the reads sent.
   */
  method RefineSearch(log: seq<Message>, pageSize: PageSize, timestamp: int, firstOffset: int, lastOffset: int)
    returns (result: Result<int, SearchError>, probes: seq<MessagesRequest>)
    ensures Refinement(result, probes) == Refine(log, pageSize, timestamp, firstOffset, lastOffset, 1, [])
    ensures |probes| <= MaxRefinementAttempts && SingleReads(probes)
    ensures lastOffset - firstOffset <= pageSize ==> result == Success(firstOffset) && probes == []
  {
    var fromOffset, toOffset := firstOffset, lastOffset;
    var attempt := 1;
    probes := [];
    while true
      invariant 1 <= attempt <= MaxRefinementAttempts + 1
      invariant Refine(log, pageSize, timestamp, firstOffset, lastOffset, 1, [])
             == Refine(log, pageSize, timestamp, fromOffset, toOffset, attempt, probes)
      decreases MaxRefinementAttempts + 1 - attempt
    {
      if attempt > MaxRefinementAttempts {
        return Failure(ExceededMaxRefinementAttempts), probes;
      }
      if toOffset - fromOffset <= pageSize {
        return Success(fromOffset), probes;
      }
      var offset := MidOffset(fromOffset, toOffset);
      var page := ReadMessages(log, offset, 1);
      probes := probes + [MessagesRequest(offset, 1)];
      if page == [] {
        return Failure(MessageMissing), probes;
      }
      var message := page[0];
      if message.timestamp < timestamp {
        fromOffset := message.offset;
      } else {
        toOffset := message.offset;
      }
      attempt := attempt + 1;
    }
  }

  /**
   * On a well-formed log, a refinement that starts inside a bracket keeps it: no probe misses
   * the log, every probe lies strictly inside the partition, and on success the refined offset
   * bounds the position of the first message at or after the target (`Refined`). Success also
   * shows the initial width was within `(pageSize + 1) * 2^29`, and running out of attempts shows
   * it was beyond `pageSize * 2^29`.
   */
  lemma {:induction false} RefineKeepsBracket(log: seq<Message>, pageSize: PageSize, timestamp: int,
                                              firstOffset: int, lastOffset: int,
                                              fromOffset: int, toOffset: int, attempt: nat, sent: seq<MessagesRequest>)
    requires Bracket(log, timestamp, firstOffset, lastOffset, fromOffset, toOffset, attempt)
    requires attempt <= MaxRefinementAttempts + 1
    requires attempt > 1 ==> pageSize * Murmur2.Pow2(attempt - 2) <= lastOffset - firstOffset - 1
    requires forall i :: 0 <= i < |sent| ==> firstOffset < sent[i].offset < lastOffset
    ensures var r := Refine(log, pageSize, timestamp, fromOffset, toOffset, attempt, sent);
            && r.result != Failure(MessageMissing)
            && (forall i :: 0 <= i < |r.probes| ==> firstOffset < r.probes[i].offset < lastOffset)
            && (r.result.Success? ==> Refined(log, pageSize, timestamp, firstOffset, lastOffset, r.result.value))
            && (r.result.Success? ==> lastOffset - firstOffset + 1 <= (pageSize + 1) * Murmur2.Pow2(MaxRefinementAttempts - 1))
            && (r.result.Failure? ==> lastOffset - firstOffset > pageSize * Murmur2.Pow2(MaxRefinementAttempts - 1))
    decreases MaxRefinementAttempts + 1 - attempt
  {
    var initial := lastOffset - firstOffset;
    if attempt > MaxRefinementAttempts {
    } else if toOffset - fromOffset <= pageSize {
      RefinedBounds(log, pageSize, timestamp, firstOffset, lastOffset, fromOffset, toOffset, attempt);
    } else {
      var offset := MidOffset(fromOffset, toOffset);
      BracketStep(log, timestamp, firstOffset, lastOffset, fromOffset, toOffset, attempt);
      WiderThanPage(pageSize, toOffset - fromOffset, Murmur2.Pow2(attempt - 1), initial);
      var sent' := sent + [MessagesRequest(offset, 1)];
      assert forall i :: 0 <= i < |sent'| ==> firstOffset < sent'[i].offset < lastOffset;
      var message := log[offset - firstOffset];
      if message.timestamp < timestamp {
        RefineKeepsBracket(log, pageSize, timestamp, firstOffset, lastOffset, offset, toOffset, attempt + 1, sent');
      } else {
        RefineKeepsBracket(log, pageSize, timestamp, firstOffset, lastOffset, fromOffset, offset, attempt + 1, sent');
      }
    }
  }

  /**
   * The bisection from `(firstOffset, lastOffset, 1)` on a well-formed, non-empty log: it never
   * meets a missing message, probes only strictly inside the partition, on success bounds the
   * target's position, and whether it succeeds depends on the width alone: it succeeds when
   * 29 halvings bring the width within a page, and runs out of attempts when they cannot.
   */
  lemma RefineOutcome(log: seq<Message>, pageSize: PageSize, timestamp: int, firstOffset: int, lastOffset: int)
    requires WellFormed(log, firstOffset, lastOffset) && firstOffset < lastOffset
    ensures var r := Refine(log, pageSize, timestamp, firstOffset, lastOffset, 1, []);
            && r.result != Failure(MessageMissing)
            && (forall i :: 0 <= i < |r.probes| ==> firstOffset < r.probes[i].offset < lastOffset)
            && (r.result.Success? ==> Refined(log, pageSize, timestamp, firstOffset, lastOffset, r.result.value))
            && (lastOffset - firstOffset <= pageSize * Murmur2.Pow2(MaxRefinementAttempts - 1) ==> r.result.Success?)
            && (lastOffset - firstOffset + 1 > (pageSize + 1) * Murmur2.Pow2(MaxRefinementAttempts - 1) ==>
                  r.result == Failure(ExceededMaxRefinementAttempts))
  {
    RefineKeepsBracket(log, pageSize, timestamp, firstOffset, lastOffset, firstOffset, lastOffset, 1, []);
  }

  /** A range still wider than a page after `attempt - 1` halvings shows the initial width exceeds `pageSize * 2^(attempt - 1)`. */
  lemma WiderThanPage(pageSize: PageSize, w: int, k: nat, initial: int)
    requires w > pageSize && k >= 1 && (w - 1) * k <= initial - 1
    ensures pageSize * k <= initial - 1
  {
    Murmur2.MulMono(k, pageSize, w - 1);
  }

  /**
   * When the bracket fits in a page, the refined offset `fromOffset` bounds the target's
   * position in the log, and the initial width was within `(pageSize + 1) * 2^29`.
   */
  lemma RefinedBounds(log: seq<Message>, pageSize: PageSize, timestamp: int, firstOffset: int, lastOffset: int,
                      fromOffset: int, toOffset: int, attempt: nat)
    requires Bracket(log, timestamp, firstOffset, lastOffset, fromOffset, toOffset, attempt)
    requires toOffset - fromOffset <= pageSize && attempt <= MaxRefinementAttempts
    ensures Refined(log, pageSize, timestamp, firstOffset, lastOffset, fromOffset)
    ensures lastOffset - firstOffset + 1 <= (pageSize + 1) * Murmur2.Pow2(MaxRefinementAttempts - 1)
  {
    var w := toOffset - fromOffset;
    var k := Murmur2.Pow2(attempt - 1);
    Pow2Mono(attempt - 1, MaxRefinementAttempts - 1);
    Murmur2.MulMono(k, w + 1, pageSize + 1);
    Murmur2.MulMono(pageSize + 1, k, Murmur2.Pow2(MaxRefinementAttempts - 1));
  }

  // ----- Page scan -----

  /** JavaScript's `%`: the remainder takes the sign of the dividend. */
  function JsRem(a: int, d: int): (r: int)
    requires d > 0
    ensures a >= 0 ==> 0 <= r < d
    ensures a < 0 ==> -d < r <= 0
    ensures (a - r) % d == 0
  {
    if a >= 0 then
      Murmur2.DivModUnique(a - a % d, d, a / d, 0);
      a % d
    else
      Murmur2.DivModUnique(a + (-a) % d, d, -((-a) / d), 0);
      -((-a) % d)
  }

  /**
   * The scroll factor of the page read with `scrollsLeft` scrolls left out of
   * `2 * autoScrollPages`, as the source computes it: with `n = 2 * autoScrollPages - scrollsLeft`,
   * `(n % 2) * ((n + 1) / 2) + ((n + 1) % 2) * (scrollsLeft / 2 - autoScrollPages)`, with
   * JavaScript's remainder and real division.
   */
  function ScrollFactor(autoScrollPages: nat, scrollsLeft: int): (r: real)
    ensures 0 <= scrollsLeft <= 2 * autoScrollPages ==> r == PageFactor(2 * autoScrollPages - scrollsLeft) as real
  {
    var n := 2 * autoScrollPages - scrollsLeft;
    var r := (JsRem(n, 2) as real) * ((n + 1) as real / 2.0)
      + (JsRem(n + 1, 2) as real) * (scrollsLeft as real / 2.0 - autoScrollPages as real);
    if 0 <= scrollsLeft <= 2 * autoScrollPages then
      ScrollFactorTerms(autoScrollPages, scrollsLeft);
      r
    else r
  }

  /**
   * The terms of the scroll factor: for odd `n` the first remainder is 1 and `(n + 1) / 2` is an
   * integer; for even `n` the second remainder is 1 and `scrollsLeft / 2 - autoScrollPages` is
   * the integer `-(n / 2)`.
   */
  lemma ScrollFactorTerms(autoScrollPages: nat, scrollsLeft: int)
    requires 0 <= scrollsLeft <= 2 * autoScrollPages
    ensures var n := 2 * autoScrollPages - scrollsLeft;
            n % 2 == 1 ==> JsRem(n, 2) == 1 && JsRem(n + 1, 2) == 0 && (n + 1) as real / 2.0 == ((n + 1) / 2) as real
    ensures var n := 2 * autoScrollPages - scrollsLeft;
            n % 2 == 0 ==> JsRem(n, 2) == 0 && JsRem(n + 1, 2) == 1
                           && scrollsLeft as real / 2.0 - autoScrollPages as real == -((n / 2) as real)
  {
    var n := 2 * autoScrollPages - scrollsLeft;
    if n % 2 == 1 {
      assert JsRem(n, 2) == 1 && JsRem(n + 1, 2) == 0;
      var k := (n + 1) / 2;
      assert n + 1 == 2 * k;
      assert (n + 1) as real / 2.0 == k as real;
    } else {
      assert JsRem(n, 2) == 0 && JsRem(n + 1, 2) == 1;
      var k := n / 2;
      assert n == 2 * k;
      assert scrollsLeft == 2 * (autoScrollPages - k);
      assert scrollsLeft as real / 2.0 == (autoScrollPages - k) as real;
    }
  }

  /** The page visited `n`-th (from 0): pages `0, +1, -1, +2, -2, ...` relative to the refined page. */
  function PageFactor(n: nat): int {
    if n % 2 == 1 then (n + 1) / 2 else -(n / 2)
  }

  /** The position in the visiting order of the page `factor` pages away from the refined one. */
  function PageIndex(factor: int): nat {
    if factor > 0 then 2 * factor - 1 else -2 * factor
  }

  /** The first `2 * autoScrollPages + 1` pages visited are at most `autoScrollPages` pages away from the refined one. */
  lemma PageFactorRange(autoScrollPages: nat, n: nat)
    requires n <= 2 * autoScrollPages
    ensures -(autoScrollPages as int) <= PageFactor(n) <= autoScrollPages
  {
  }

  /** Each page at most `autoScrollPages` away from the refined one is among the first `2 * autoScrollPages + 1` visited. */
  lemma PageIndexRange(autoScrollPages: nat, factor: int)
    requires -(autoScrollPages as int) <= factor <= autoScrollPages
    ensures PageIndex(factor) <= 2 * autoScrollPages
  {
  }

  /** No page is visited twice, and every page is visited: `PageFactor` and `PageIndex` are inverse. */
  lemma PageFactorBijective(n: nat, factor: int)
    ensures PageIndex(PageFactor(n)) == n
    ensures PageFactor(PageIndex(factor)) == factor
  {
  }

  /** The order is `0, +1, -1, +2, -2, ...`: the page after at distance `d` comes before the page before. */
  lemma PageFactorOrder(d: nat)
    requires d > 0
    ensures PageFactor(2 * d - 1) == d && PageFactor(2 * d) == -(d as int)
  {
  }

  /** The key `scrollPages` matches. */
  function HasKey(key: string): Message -> bool {
    (m: Message) => m.key == key
  }

  /** The read of the `n`-th page visited around `refinedOffset`. */
  function PageRequest(refinedOffset: int, pageSize: PageSize, n: nat): MessagesRequest {
    MessagesRequest(refinedOffset + pageSize * PageFactor(n), pageSize)
  }

  /** The scan reads the refined page first and the page after it second. */
  lemma FirstPageRequests(refinedOffset: int, pageSize: PageSize)
    ensures PageRequest(refinedOffset, pageSize, 0) == MessagesRequest(refinedOffset, pageSize)
    ensures PageRequest(refinedOffset, pageSize, 1) == MessagesRequest(refinedOffset + pageSize, pageSize)
  {
    assert PageFactor(0) == 0 && PageFactor(1) == 1;
  }

  /** The first message with `key` that a request answers, if any. */
  function MatchIn(log: seq<Message>, key: string, request: MessagesRequest): Option<Message> {
    Find(ReadMessages(log, request.offset, request.count), HasKey(key))
  }

  /**
   * `scrollPages` from `scrollsLeft` on: while `scrollsLeft` is not negative, read the page of
   * `pageSize` messages at `refinedOffset + pageSize * factor` and stop at its first message with
   * `key`. `pages` are the page reads sent, in order.
   */
  method ScrollPages(log: seq<Message>, pageSize: PageSize, key: string, refinedOffset: int,
                     autoScrollPages: nat, scrollsLeft: int)
    returns (found: Option<Message>, pages: seq<MessagesRequest>)
    requires scrollsLeft <= 2 * autoScrollPages
    ensures |pages| <= if scrollsLeft < 0 then 0 else scrollsLeft + 1
    ensures forall i :: 0 <= i < |pages| ==>
      pages[i] == PageRequest(refinedOffset, pageSize, 2 * autoScrollPages - scrollsLeft + i)
    ensures forall i :: 0 <= i < |pages| - 1 ==> MatchIn(log, key, pages[i]) == None
    ensures found.None? ==> |pages| == (if scrollsLeft < 0 then 0 else scrollsLeft + 1)
    ensures found.None? ==> forall i :: 0 <= i < |pages| ==> MatchIn(log, key, pages[i]) == None
    ensures found.Some? ==> |pages| > 0 && found == MatchIn(log, key, pages[|pages| - 1]) && found.value.key == key
  {
    var left := scrollsLeft;
    pages := [];
    while left >= 0
      invariant left <= scrollsLeft && (scrollsLeft >= 0 ==> left >= -1) && (scrollsLeft < 0 ==> left == scrollsLeft)
      invariant |pages| == scrollsLeft - left
      invariant forall i :: 0 <= i < |pages| ==>
        pages[i] == PageRequest(refinedOffset, pageSize, 2 * autoScrollPages - scrollsLeft + i)
      invariant forall i :: 0 <= i < |pages| ==> MatchIn(log, key, pages[i]) == None
      decreases left + 1
    {
      var factor := ScrollFactor(autoScrollPages, left);
      // The factor is an integer, so the JavaScript number arithmetic is exact.
      var scrollOffset := refinedOffset + pageSize * factor.Floor;
      var request := MessagesRequest(scrollOffset, pageSize);
      pages := pages + [request];
      var messages := ReadMessages(log, scrollOffset, pageSize);
      var targetMessage := Find(messages, HasKey(key));
      if targetMessage.Some? {
        return targetMessage, pages;
      }
      left := left - 1;
    }
    return None, pages;
  }

  /**
   * `finalizeSearch`: scan `2 * autoScrollPages + 1` pages outward from the refined offset and
   * answer the offset of the first message with the key, or the refined offset when no page
   * holds one.
   */
  method FinalizeSearch(log: seq<Message>, pageSize: PageSize, key: string, refinedOffset: int, autoScrollPages: nat)
    returns (offset: int, pages: seq<MessagesRequest>)
    ensures 1 <= |pages| <= 2 * autoScrollPages + 1
    ensures forall i :: 0 <= i < |pages| ==> pages[i] == PageRequest(refinedOffset, pageSize, i)
    ensures forall i :: 0 <= i < |pages| - 1 ==> MatchIn(log, key, pages[i]) == None
    ensures MatchIn(log, key, pages[|pages| - 1]).None? ==> |pages| == 2 * autoScrollPages + 1 && offset == refinedOffset
    ensures MatchIn(log, key, pages[|pages| - 1]).Some? ==>
      offset == MatchIn(log, key, pages[|pages| - 1]).value.offset && MatchIn(log, key, pages[|pages| - 1]).value.key == key
    ensures autoScrollPages == 0 ==> pages == [MessagesRequest(refinedOffset, pageSize)]
  {
    var scrollsLeft := autoScrollPages * 2;
    var found;
    found, pages := ScrollPages(log, pageSize, key, refinedOffset, autoScrollPages, scrollsLeft);
    assert 2 * autoScrollPages - scrollsLeft == 0;
    forall i | 0 <= i < |pages| ensures pages[i] == PageRequest(refinedOffset, pageSize, i) {
      var n := 2 * autoScrollPages - scrollsLeft + i;
      assert pages[i] == PageRequest(refinedOffset, pageSize, n);
      assert n == i;
    }
    offset := if found.Some? then found.value.offset else refinedOffset;
  }

  // ----- The whole search -----

  /** The partition `partition` of a topic. */
  function IsPartition(partition: int): Partition -> bool {
    (p: Partition) => p.partition == partition
  }

  /**
   * The range check after the reads of the first and the last message: the first message is
   * examined before the last one, and the check stops at the first comparison that rejects.
   */
  function CheckRange(firstPage: seq<Message>, lastPage: seq<Message>, timestamp: int): (r: Option<SearchError>)
    ensures r == None <==> firstPage != [] && lastPage != []
                           && firstPage[0].timestamp <= timestamp <= lastPage[0].timestamp
    ensures r == Some(MessageMissing) <==> firstPage == [] || (timestamp >= firstPage[0].timestamp && lastPage == [])
    ensures r.Some? ==> r.value in {MessageMissing, TimestampOutOfRange}
  {
    if firstPage == [] then Some(MessageMissing)
    else if timestamp < firstPage[0].timestamp then Some(TimestampOutOfRange)
    else if lastPage == [] then Some(MessageMissing)
    else if timestamp > lastPage[0].timestamp then Some(TimestampOutOfRange)
    else None
  }

  /**
   * The message at index `idx` of the log is the only one with `key`, and it is the first
   * message at or after `timestamp`.
   */
  ghost predicate Located(log: seq<Message>, key: string, timestamp: int, idx: int) {
    && 0 <= idx < |log| && log[idx].key == key
    && (forall j :: 0 <= j < |log| && log[j].key == key ==> j == idx)
    && timestamp <= log[idx].timestamp
    && (forall j :: 0 <= j < idx ==> log[j].timestamp < timestamp)
  }

  /** A page read whose window holds a message with the key finds a message with the key. */
  lemma MatchInWindow(log: seq<Message>, firstOffset: int, key: string, offset: int, pageSize: PageSize, idx: int)
    requires Contiguous(log, firstOffset) && 0 <= firstOffset <= offset
    requires offset - firstOffset <= idx < offset - firstOffset + pageSize && idx < |log| && log[idx].key == key
    ensures MatchIn(log, key, MessagesRequest(offset, pageSize)).Some?
  {
    ReadWindow(log, firstOffset, offset, pageSize);
    var lo := offset - firstOffset;
    var page := ReadMessages(log, offset, pageSize);
    assert page == log[lo..Between(lo, offset + pageSize - firstOffset, |log|)];
    assert page[idx - lo] == log[idx];
    assert HasKey(key)(page[idx - lo]);
  }

  /** When only one message has the key, every match a read finds is that message. */
  lemma MatchIsLocated(log: seq<Message>, key: string, timestamp: int, idx: int, request: MessagesRequest)
    requires Located(log, key, timestamp, idx) && MatchIn(log, key, request).Some?
    ensures MatchIn(log, key, request).value == log[idx]
  {
    var page := ReadMessages(log, request.offset, request.count);
    var m := MatchIn(log, key, request).value;
    var i :| 0 <= i < |page| && page[i] == m && HasKey(key)(page[i]);
    assert m in log;
    var j :| 0 <= j < |log| && log[j] == m;
  }

  /** The located message lies on the refined page or is the first message after it. */
  lemma LocatedNearRefined(log: seq<Message>, pageSize: PageSize, key: string, timestamp: int,
                           firstOffset: int, lastOffset: int, refinedOffset: int, idx: int)
    requires Refined(log, pageSize, timestamp, firstOffset, lastOffset, refinedOffset)
    requires Located(log, key, timestamp, idx)
    ensures refinedOffset - firstOffset <= idx <= refinedOffset + pageSize - firstOffset
  {
    assert timestamp <= log[idx].timestamp;
    var j := refinedOffset + pageSize - firstOffset;
    if 0 <= j < |log| {
      assert log[j].timestamp >= timestamp;
    }
  }

  /** When the located message is near the refined page, the first two pages of the scan find a match. */
  lemma FirstPagesMatch(log: seq<Message>, pageSize: PageSize, key: string,
                        firstOffset: int, refinedOffset: int, idx: int)
    requires Contiguous(log, firstOffset) && 0 <= firstOffset <= refinedOffset
    requires refinedOffset - firstOffset <= idx <= refinedOffset + pageSize - firstOffset
    requires idx < |log| && log[idx].key == key
    ensures || MatchIn(log, key, MessagesRequest(refinedOffset, pageSize)).Some?
            || MatchIn(log, key, MessagesRequest(refinedOffset + pageSize, pageSize)).Some?
  {
    if idx < refinedOffset + pageSize - firstOffset {
      MatchInWindow(log, firstOffset, key, refinedOffset, pageSize, idx);
    } else {
      MatchInWindow(log, firstOffset, key, refinedOffset + pageSize, pageSize, idx);
    }
  }

  /**
   * The scan around a refined offset finds the located message when it scans at least one page
   * on each side: the message is on the refined page or on the page after it.
   */
  lemma ScanFindsLocated(log: seq<Message>, pageSize: PageSize, key: string, timestamp: int,
                         firstOffset: int, lastOffset: int, refinedOffset: int, autoScrollPages: nat,
                         pages: seq<MessagesRequest>, offset: int, idx: int)
    requires WellFormed(log, firstOffset, lastOffset)
    requires Refined(log, pageSize, timestamp, firstOffset, lastOffset, refinedOffset)
    requires Located(log, key, timestamp, idx) && autoScrollPages >= 1
    requires 1 <= |pages| <= 2 * autoScrollPages + 1
    requires forall i :: 0 <= i < |pages| ==> pages[i] == PageRequest(refinedOffset, pageSize, i)
    requires forall i :: 0 <= i < |pages| - 1 ==> MatchIn(log, key, pages[i]) == None
    requires MatchIn(log, key, pages[|pages| - 1]).None? ==> |pages| == 2 * autoScrollPages + 1 && offset == refinedOffset
    requires MatchIn(log, key, pages[|pages| - 1]).Some? ==> offset == MatchIn(log, key, pages[|pages| - 1]).value.offset
    ensures offset == log[idx].offset
  {
    var last := pages[|pages| - 1];
    LocatedNearRefined(log, pageSize, key, timestamp, firstOffset, lastOffset, refinedOffset, idx);
    FirstPagesMatch(log, pageSize, key, firstOffset, refinedOffset, idx);
    FirstPageRequests(refinedOffset, pageSize);
    assert pages[0] == MessagesRequest(refinedOffset, pageSize);
    if |pages| > 1 {
      assert pages[1] == MessagesRequest(refinedOffset + pageSize, pageSize);
    }
    assert MatchIn(log, key, last).Some?;
    MatchIsLocated(log, key, timestamp, idx, last);
  }

  /**
   * The part of `search` once the partition is known and not empty: read its first and last
   * messages concurrently, reject a timestamp outside their range, bisect, then scan pages for
   * the key. `requests` are the reads sent, in order (the two concurrent reads first, the
   * first message's read before the last's).
   *
   * On a well-formed log, a key held by one message only, which is the first at or after a
   * timestamp within the partition's range, is found when the scan covers at least one page on
   * each side and the partition is at most `pageSize * 2^29` messages long.
   */
  method SearchPartition(log: seq<Message>, pageSize: PageSize, params: SearchParams, firstOffset: int, lastOffset: int)
    returns (result: Result<int, SearchError>, requests: seq<MessagesRequest>)
    ensures 2 <= |requests| <= 2 + MaxRefinementAttempts + 2 * params.autoScrollPages + 1
    ensures requests[0] == MessagesRequest(firstOffset, 1) && requests[1] == MessagesRequest(lastOffset - 1, 1)
    ensures result.Failure? ==> result.error in {TimestampOutOfRange, MessageMissing, ExceededMaxRefinementAttempts}
    ensures result == Failure(TimestampOutOfRange) <==>
      CheckRange(ReadMessages(log, firstOffset, 1), ReadMessages(log, lastOffset - 1, 1), params.timestamp)
        == Some(TimestampOutOfRange)
    ensures result == Failure(TimestampOutOfRange) ==> |requests| == 2
    ensures WellFormed(log, firstOffset, lastOffset) && firstOffset < lastOffset ==>
      && result != Failure(MessageMissing)
      && (result == Failure(TimestampOutOfRange) <==>
            params.timestamp < log[0].timestamp || params.timestamp > log[|log| - 1].timestamp)
    ensures forall idx ::
      && WellFormed(log, firstOffset, lastOffset) && Located(log, params.key, params.timestamp, idx)
      && log[0].timestamp <= params.timestamp && params.autoScrollPages >= 1
      && lastOffset - firstOffset <= pageSize * Murmur2.Pow2(MaxRefinementAttempts - 1)
      ==> result == Success(log[idx].offset)
  {
    ghost var wf := WellFormed(log, firstOffset, lastOffset) && firstOffset < lastOffset;
    requests := [MessagesRequest(firstOffset, 1), MessagesRequest(lastOffset - 1, 1)];
    var firstPage := ReadMessages(log, firstOffset, 1);
    var lastPage := ReadMessages(log, lastOffset - 1, 1);
    if wf {
      ReadWindow(log, firstOffset, firstOffset, 1);
      ReadWindow(log, firstOffset, lastOffset - 1, 1);
      assert firstPage == [log[0]] && lastPage == [log[|log| - 1]];
    }
    var rejected := CheckRange(firstPage, lastPage, params.timestamp);
    if rejected.Some? {
      return Failure(rejected.value), requests;
    }
    var refined, probes := RefineSearch(log, pageSize, params.timestamp, firstOffset, lastOffset);
    if wf {
      RefineOutcome(log, pageSize, params.timestamp, firstOffset, lastOffset);
    }
    requests := requests + probes;
    if refined.Failure? {
      return Failure(refined.error), requests;
    }
    var offset, pages := FinalizeSearch(log, pageSize, params.key, refined.value, params.autoScrollPages);
    requests := requests + pages;
    result := Success(offset);
    forall idx | && WellFormed(log, firstOffset, lastOffset) && Located(log, params.key, params.timestamp, idx)
                 && log[0].timestamp <= params.timestamp && params.autoScrollPages >= 1
                 && lastOffset - firstOffset <= pageSize * Murmur2.Pow2(MaxRefinementAttempts - 1)
      ensures offset == log[idx].offset
    {
      ScanFindsLocated(log, pageSize, params.key, params.timestamp, firstOffset, lastOffset, refined.value,
                       params.autoScrollPages, pages, offset, idx);
    }
  }

  /**
   * `search`: look the partition up, reject an empty one, then search it (`SearchPartition`).
   * Neither rejection reads a message.
   */
  method Search(partitions: seq<Partition>, log: seq<Message>, pageSize: PageSize, params: SearchParams)
    returns (result: Result<int, SearchError>, requests: seq<MessagesRequest>)
    ensures |requests| <= 2 + MaxRefinementAttempts + 2 * params.autoScrollPages + 1
    ensures Find(partitions, IsPartition(params.partition)).None? <==> result == Failure(PartitionNotFound)
    ensures var p := Find(partitions, IsPartition(params.partition));
            p.Some? ==> (p.value.firstOffset == p.value.lastOffset <==> result == Failure(PartitionEmpty))
    ensures result in {Failure(PartitionNotFound), Failure(PartitionEmpty)} <==> requests == []
    ensures var p := Find(partitions, IsPartition(params.partition));
            p.Some? && p.value.firstOffset != p.value.lastOffset ==>
              |requests| >= 2 && requests[0] == MessagesRequest(p.value.firstOffset, 1) && requests[1] == MessagesRequest(p.value.lastOffset - 1, 1)
    ensures var p := Find(partitions, IsPartition(params.partition));
            forall idx ::
              && p.Some? && WellFormed(log, p.value.firstOffset, p.value.lastOffset)
              && Located(log, params.key, params.timestamp, idx)
              && log[0].timestamp <= params.timestamp && params.autoScrollPages >= 1
              && p.value.lastOffset - p.value.firstOffset <= pageSize * Murmur2.Pow2(MaxRefinementAttempts - 1)
              ==> result == Success(log[idx].offset)
  {
    var partitionData := Find(partitions, IsPartition(params.partition));
    if partitionData.None? {
      return Failure(PartitionNotFound), [];
    }
    var p := partitionData.value;
    if p.firstOffset == p.lastOffset {
      forall idx | WellFormed(log, p.firstOffset, p.lastOffset) ensures !Located(log, params.key, params.timestamp, idx) {
      }
      return Failure(PartitionEmpty), [];
    }
    result, requests := SearchPartition(log, pageSize, params, p.firstOffset, p.lastOffset);
  }
}
