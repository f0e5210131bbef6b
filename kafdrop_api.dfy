/**
 * The part of the Kafdrop API client the search depends on: the negative-offset clamp
 * `getMessages` applies to a request before it is sent, the messages the server answers
 * with, and the URLs of the topic endpoints.
 *
 * The HTTP exchange itself is not modelled. A partition's log is an immutable sequence of
 * messages, and the server's answer to a request is `Fetch`: the first `count` messages of
 * the log at or after `offset`.
 */
module KafdropApi {
  import opened Wrappers

  /** A message as the search uses it; the timestamp is in milliseconds. */
  datatype Message = Message(offset: int, timestamp: int, key: string)

  /** The offsets of a partition: `firstOffset` is the oldest message, `lastOffset` is one past the newest. */
  datatype Partition = Partition(partition: int, firstOffset: int, lastOffset: int)

  /** The `offset` and `count` request parameters. */
  datatype MessagesRequest = MessagesRequest(offset: int, count: int)

  // ----- The clamp of getMessages -----

  /**
   * The clamp as written. `offset` is set to 0 before `count += offset` runs, so the
   * count is never reduced.
   */
  function ClampAsWritten(offset: int, count: int): (r: Option<MessagesRequest>)
    ensures r.None? <==> offset < 0 && offset + count <= 0
    ensures r.Some? ==> r.value.offset == (if offset < 0 then 0 else offset)
    ensures r.Some? ==> r.value.count == count
  {
    if offset < 0 then
      if offset + count > 0 then
        var offset' := 0;
        Some(MessagesRequest(offset', count + offset'))
      else None
    else Some(MessagesRequest(offset, count))
  }

  /**
   * The request parameters object that `getMessages` receives from its caller and
   * updates in place.
   */
  class TopicMessagesParams {
    var partition: int
    var offset: int
    var count: int

    constructor (partition: int, offset: int, count: int)
      ensures this.partition == partition && this.offset == offset && this.count == count
    {
      this.partition := partition;
      this.offset := offset;
      this.count := count;
    }

    /**
     * The start of `getMessages`: a negative offset whose window reaches past 0 is moved to
     * 0 (then `count += offset` adds the new offset, 0), and any other negative offset ends
     * the call with an empty answer. `forward` is false exactly when the call answers `[]`
     * without contacting the server.
     */
    method ClampOffset() returns (forward: bool)
      modifies this
      ensures forward <==> ClampAsWritten(old(offset), old(count)).Some?
      ensures forward ==> ClampAsWritten(old(offset), old(count)) == Some(MessagesRequest(offset, count))
      ensures !forward ==> offset == old(offset) && count == old(count)
      ensures partition == old(partition)
    {
      if offset < 0 {
        if offset + count > 0 {
          offset := 0;
          count := count + offset;
        } else {
          return false;
        }
      }
      return true;
    }
  }

  /**
   * The clamp as written forwards a window that ends past the requested one whenever it moves
   * a negative offset to 0: for `offset = -5, count = 10` it asks for offsets 0 to 9 where the
   * requested window ends before offset 5.
   */
  lemma ClampAsWrittenOverreads(offset: int, count: int)
    requires offset < 0 < offset + count
    ensures ClampAsWritten(offset, count) == Some(MessagesRequest(0, count))
    ensures ClampAsWritten(offset, count).value.count > offset + count
  {
  }

  /**
   * The clamp as intended: `count` is reduced by the part of the window that lies before
   * offset 0, so the forwarded window ends where the requested one did.
   */
  function Clamp(offset: int, count: int): (r: Option<MessagesRequest>)
    ensures r.None? <==> offset < 0 && offset + count <= 0
    ensures r.Some? ==> r.value.offset == (if offset < 0 then 0 else offset)
    ensures r.Some? ==> r.value.offset + r.value.count == offset + count
  {
    if offset < 0 then
      if offset + count > 0 then Some(MessagesRequest(0, count + offset))
      else None
    else Some(MessagesRequest(offset, count))
  }

  /** A forwarded request passes through the clamp unchanged. */
  lemma ClampForwardsUnchanged(offset: int, count: int)
    requires Clamp(offset, count).Some?
    ensures var q := Clamp(offset, count).value; Clamp(q.offset, q.count) == Some(q)
    ensures var q := Clamp(offset, count).value; q.offset >= 0
  {
  }

  // ----- The server's answer -----

  /** The first `count` messages of `log` whose offset is at least `offset`, in log order. */
  function Fetch(log: seq<Message>, offset: int, count: int): (r: seq<Message>)
    ensures |r| <= if count < 0 then 0 else count
    ensures forall i :: 0 <= i < |r| ==> r[i] in log && r[i].offset >= offset
    decreases |log|
  {
    if count <= 0 || log == [] then []
    else if log[0].offset >= offset then [log[0]] + Fetch(log[1..], offset, count - 1)
    else Fetch(log[1..], offset, count)
  }

  /**
   * What a `getMessages` call answers: the clamp as written, then the server's answer to what
   * it forwards.
   */
  function ReadMessages(log: seq<Message>, offset: int, count: int): (r: seq<Message>)
    ensures offset < 0 && offset + count <= 0 ==> r == []
    ensures |r| <= if count < 0 then 0 else count
    ensures forall i :: 0 <= i < |r| ==> r[i] in log && r[i].offset >= offset
  {
    match ClampAsWritten(offset, count)
    case None => []
    case Some(q) => Fetch(log, q.offset, q.count)
  }

  /** The log holds exactly the offsets `base`, `base + 1`, ... in order, as a compacted-free partition does. */
  ghost predicate Contiguous(log: seq<Message>, base: int) {
    forall i :: 0 <= i < |log| ==> log[i].offset == base + i
  }

  function Between(lo: int, x: int, hi: int): int
    requires lo <= hi
  {
    if x < lo then lo else if x > hi then hi else x
  }

  /** Dropping the oldest message of a contiguous log leaves a contiguous log. */
  lemma ContiguousTail(log: seq<Message>, base: int)
    requires Contiguous(log, base) && log != []
    ensures Contiguous(log[1..], base + 1)
  {
    var tail := log[1..];
    forall i | 0 <= i < |tail| ensures tail[i].offset == base + 1 + i {
      assert tail[i] == log[i + 1];
    }
  }

  /** On a contiguous log the server answers with the log's slice from `offset` on, `count` long. */
  lemma {:induction false} FetchContiguous(log: seq<Message>, base: int, offset: int, count: int)
    requires Contiguous(log, base) && count >= 0
    ensures var lo := Between(0, offset - base, |log|);
            Fetch(log, offset, count) == log[lo..Between(lo, lo + count, |log|)]
    decreases |log|
  {
    if count > 0 && log != [] {
      ContiguousTail(log, base);
      if log[0].offset >= offset {
        FetchTake(log, base, offset, count);
      } else {
        FetchSkip(log, base, offset, count);
      }
    }
  }

  /** The step of FetchContiguous where the oldest message is part of the answer. */
  lemma {:induction false} FetchTake(log: seq<Message>, base: int, offset: int, count: int)
    requires Contiguous(log, base) && count > 0 && log != [] && log[0].offset >= offset
    requires Contiguous(log[1..], base + 1)
    ensures var lo := Between(0, offset - base, |log|);
            Fetch(log, offset, count) == log[lo..Between(lo, lo + count, |log|)]
    decreases |log|, 0
  {
    var n := |log|;
    var tail := log[1..];
    var hi' := Between(0, count - 1, n - 1);
    assert log[0].offset == base;
    assert Fetch(tail, offset, count - 1) == tail[..hi'] by {
      FetchContiguous(tail, base + 1, offset, count - 1);
      assert Between(0, offset - (base + 1), n - 1) == 0;
    }
    assert Between(0, offset - base, n) == 0 && Between(0, count, n) == hi' + 1;
    assert Fetch(log, offset, count) == [log[0]] + tail[..hi'];
    assert [log[0]] + tail[..hi'] == log[..hi' + 1];
  }

  /** The step of FetchContiguous where the oldest message is before the window. */
  lemma {:induction false} FetchSkip(log: seq<Message>, base: int, offset: int, count: int)
    requires Contiguous(log, base) && count > 0 && log != [] && log[0].offset < offset
    requires Contiguous(log[1..], base + 1)
    ensures var lo := Between(0, offset - base, |log|);
            Fetch(log, offset, count) == log[lo..Between(lo, lo + count, |log|)]
    decreases |log|, 0
  {
    var n := |log|;
    var tail := log[1..];
    var lo' := Between(0, offset - (base + 1), n - 1);
    var hi' := Between(lo', lo' + count, n - 1);
    assert Fetch(log, offset, count) == Fetch(tail, offset, count);
    assert Fetch(tail, offset, count) == tail[lo'..hi'] by {
      FetchContiguous(tail, base + 1, offset, count);
    }
    assert Between(0, offset - base, n) == lo' + 1 && Between(lo' + 1, lo' + 1 + count, n) == hi' + 1 by {
      assert log[0].offset == base;
    }
    SliceOfTail(log, lo', hi');
  }

  /** A slice of a sequence's tail is the slice of the sequence one position further on. */
  lemma SliceOfTail<T>(s: seq<T>, lo: int, hi: int)
    requires s != [] && 0 <= lo <= hi <= |s| - 1
    ensures s[1..][lo..hi] == s[lo + 1..hi + 1]
  {
    assert forall i :: 0 <= i < hi - lo ==> s[1..][lo..hi][i] == s[lo + 1 + i];
  }

  /**
   * On a contiguous log of non-negative offsets, a read at or after the first offset answers
   * with exactly the messages whose offsets lie in the window `[offset, offset + count)`.
   */
  lemma ReadWindow(log: seq<Message>, base: int, offset: int, count: int)
    requires Contiguous(log, base) && 0 <= base <= offset
    ensures var lo := Between(0, offset - base, |log|);
            ReadMessages(log, offset, count) == log[lo..Between(lo, offset + count - base, |log|)]
  {
    var lo := Between(0, offset - base, |log|);
    if count > 0 {
      FetchContiguous(log, base, offset, count);
    }
  }

  /**
   * On a contiguous log starting at offset 0, a read at a negative offset whose window reaches
   * past 0 answers the first `count` messages of the log, not only the part of the window at or
   * after 0; a window that ends at or before 0 answers nothing.
   */
  lemma ReadBeforeStart(log: seq<Message>, offset: int, count: int)
    requires Contiguous(log, 0) && offset < 0
    ensures offset + count > 0 ==> ReadMessages(log, offset, count) == log[..Between(0, count, |log|)]
    ensures offset + count <= 0 ==> ReadMessages(log, offset, count) == []
  {
    if offset + count > 0 {
      FetchContiguous(log, 0, 0, count);
    }
  }

  // ----- The endpoint URLs -----

  datatype ApiError = InvalidKafdropUrl(message: string)

  /** How a template literal shows the configured URL. */
  function Shown(url: Option<string>): string {
    match url
    case None => "undefined"
    case Some(s) => s
  }

  /** `getBaseUrl`: the configured Kafdrop URL, which must not be missing or empty. */
  function BaseUrl(kafdropUrl: Option<string>): (r: Result<string, ApiError>)
    ensures r.Success? <==> kafdropUrl.Some? && kafdropUrl.value != ""
    ensures r.Success? ==> r.value == kafdropUrl.value
    ensures r.Failure? ==> r.error.message == "Invalid Kafdrop URL: \"" + Shown(kafdropUrl) + "\""
  {
    if kafdropUrl.None? || kafdropUrl.value == "" then
      Failure(InvalidKafdropUrl("Invalid Kafdrop URL: \"" + Shown(kafdropUrl) + "\""))
    else Success(kafdropUrl.value)
  }

  /** `topicsApiUrl`: the base URL followed by `/topic`. */
  function TopicsApiUrl(kafdropUrl: Option<string>): (r: Result<string, ApiError>)
    ensures r.Success? <==> BaseUrl(kafdropUrl).Success?
    ensures r.Success? ==> r.value == BaseUrl(kafdropUrl).value + "/topic"
    ensures r.Failure? ==> r == BaseUrl(kafdropUrl)
  {
    match BaseUrl(kafdropUrl)
    case Success(base) => Success(base + "/topic")
    case Failure(e) => Failure(e)
  }

  /** `topicMessagesApiUrl`: the topics URL followed by `/<topic>/messages`. */
  function TopicMessagesApiUrl(kafdropUrl: Option<string>, topic: string): (r: Result<string, ApiError>)
    ensures r.Success? <==> BaseUrl(kafdropUrl).Success?
    ensures r.Success? ==> r.value == BaseUrl(kafdropUrl).value + "/topic/" + topic + "/messages"
    ensures r.Failure? ==> r == BaseUrl(kafdropUrl)
  {
    match TopicsApiUrl(kafdropUrl)
    case Success(topics) => Success(topics + "/" + topic + "/messages")
    case Failure(e) => Failure(e)
  }

  /** The topic named by a messages URL under `base`, if the URL has that shape. */
  function TopicOfMessagesUrl(base: string, url: string): Option<string> {
    var prefix := base + "/topic/";
    var suffix := "/messages";
    if |url| >= |prefix| + |suffix| && url[..|prefix|] == prefix && url[|url| - |suffix|..] == suffix
    then Some(url[|prefix|..|url| - |suffix|])
    else None
  }

  /** The topic can be read back from the messages URL: the URL is `<base>/topic/<topic>/messages`. */
  lemma TopicOfMessagesApiUrl(kafdropUrl: Option<string>, topic: string)
    requires TopicMessagesApiUrl(kafdropUrl, topic).Success?
    ensures TopicOfMessagesUrl(kafdropUrl.value, TopicMessagesApiUrl(kafdropUrl, topic).value) == Some(topic)
    ensures TopicsApiUrl(kafdropUrl).value + "/" <= TopicMessagesApiUrl(kafdropUrl, topic).value
  {
    var base := kafdropUrl.value;
    var url := TopicMessagesApiUrl(kafdropUrl, topic).value;
    var prefix := base + "/topic/";
    assert url == prefix + topic + "/messages";
    assert url[..|prefix|] == prefix;
    assert url[|url| - 9..] == "/messages";
    assert url[|prefix|..|url| - 9] == topic;
  }
}
