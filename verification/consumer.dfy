/** KafkaConsumerService: one subscribed topic, a poll loop that appends each
    value and a line feed to the output file, an `IOException` that ends the
    loop, and a consumer that is closed however the loop ends. */
module Consumer {
  import opened JavaString
  import opened Config
  import opened JavaSplit

  /** `"consumer-group-" + topic`, the group id the constructor configures:
      the prefix, then the topic. */
  function GroupId(topic: JString): (g: JString)
    ensures |g| == |CONSUMER_GROUP_PREFIX| + |topic|
    ensures g[..|CONSUMER_GROUP_PREFIX|] == CONSUMER_GROUP_PREFIX
    ensures g[|CONSUMER_GROUP_PREFIX|..] == topic
  {
    CONSUMER_GROUP_PREFIX + topic
  }

  /** The topic can be read back from its group id, so two topics never share a group. */
  lemma GroupIdNamesTopic(topic: JString, other: JString)
    ensures CONSUMER_GROUP_PREFIX <= GroupId(topic)
    ensures GroupId(topic)[|CONSUMER_GROUP_PREFIX|..] == topic
    ensures GroupId(topic) == GroupId(other) <==> topic == other
  {
    if GroupId(topic) == GroupId(other) {
      assert topic == GroupId(topic)[|CONSUMER_GROUP_PREFIX|..];
      assert other == GroupId(other)[|CONSUMER_GROUP_PREFIX|..];
    }
  }

  // ----- the output format -----

  /** What one `Files.writeString(path, value + "\n", CREATE, APPEND)`
      appends. */
  function Line(v: JString): JString {
    v + [LINE_FEED]
  }

  /** The text appended for the values, in order. */
  function Lines(vs: seq<JString>): JString {
    if vs == [] then [] else Line(vs[0]) + Lines(vs[1..])
  }

  /** The values of a batch list, one poll after another. */
  function Flatten(polls: seq<seq<JString>>): seq<JString> {
    if polls == [] then [] else Flatten(polls[..|polls| - 1]) + polls[|polls| - 1]
  }

  predicate NoLineFeed(s: JString) {
    forall i :: 0 <= i < |s| ==> s[i] != LINE_FEED
  }

  /** Index of the first line feed in `s`, or `|s|` when there is none. */
  function LineEnd(s: JString): (k: nat)
    ensures k <= |s| && NoLineFeed(s[..k])
    ensures k < |s| ==> s[k] == LINE_FEED
  {
    if s == [] || s[0] == LINE_FEED then 0 else 1 + LineEnd(s[1..])
  }

  /** The file's text cut at each line feed; a last line without a line feed
      is kept. */
  function ReadLines(s: JString): seq<JString>
    decreases |s|
  {
    if s == [] then []
    else
      var k := LineEnd(s);
      if k == |s| then [s] else [s[..k]] + ReadLines(s[k + 1..])
  }

  lemma {:induction false} LinesAppend(a: seq<JString>, b: seq<JString>)
    ensures Lines(a + b) == Lines(a) + Lines(b)
  {
    if a == [] {
      assert a + b == b;
    } else {
      assert (a + b)[0] == a[0];
      assert (a + b)[1..] == a[1..] + b;
      LinesAppend(a[1..], b);
      calc {
        Lines(a + b);
        Line(a[0]) + Lines(a[1..] + b);
        Line(a[0]) + (Lines(a[1..]) + Lines(b));
        (Line(a[0]) + Lines(a[1..])) + Lines(b);
      }
    }
  }

  /** Writing one more record of a batch appends its line. */
  lemma {:induction false} LinesSnoc(batch: seq<JString>, count: nat)
    requires count < |batch|
    ensures Lines(batch[..count + 1]) == Lines(batch[..count]) + Line(batch[count])
  {
    var v := batch[count];
    assert batch[..count + 1] == batch[..count] + [v];
    LinesAppend(batch[..count], [v]);
    assert Lines([v]) == Line(v);
  }

  /** Each record adds exactly one line feed: the appended text holds one
      line feed per record besides those inside the values. */
  lemma {:induction false} LinesCountLineFeeds(vs: seq<JString>)
    ensures multiset(Lines(vs))[LINE_FEED] == |vs| + multiset(Concat(vs))[LINE_FEED]
  {
    if vs != [] {
      LinesCountLineFeeds(vs[1..]);
      assert Lines(vs) == vs[0] + [LINE_FEED] + Lines(vs[1..]);
      assert multiset(Lines(vs)) == multiset(vs[0]) + multiset([LINE_FEED]) + multiset(Lines(vs[1..]));
      assert multiset(Concat(vs)) == multiset(vs[0]) + multiset(Concat(vs[1..]));
    }
  }

  /** When no value holds a line feed, the appended text holds exactly one
      line feed per record: one line per record written. */
  lemma {:induction false} OneLinePerRecord(vs: seq<JString>)
    requires forall i :: 0 <= i < |vs| ==> NoLineFeed(vs[i])
    ensures multiset(Lines(vs))[LINE_FEED] == |vs|
  {
    LinesCountLineFeeds(vs);
    ConcatNoLineFeed(vs);
    NoLineFeedCount(Concat(vs));
  }

  lemma {:induction false} ConcatNoLineFeed(vs: seq<JString>)
    requires forall i :: 0 <= i < |vs| ==> NoLineFeed(vs[i])
    ensures NoLineFeed(Concat(vs))
  {
    if vs != [] {
      ConcatNoLineFeed(vs[1..]);
      var c := Concat(vs);
      assert c == vs[0] + Concat(vs[1..]);
      forall i | 0 <= i < |c|
        ensures c[i] != LINE_FEED
      {
        if i >= |vs[0]| {
          assert c[i] == Concat(vs[1..])[i - |vs[0]|];
        }
      }
    }
  }

  /** A string holds no line feed exactly when it counts none. */
  lemma NoLineFeedCount(s: JString)
    ensures NoLineFeed(s) <==> multiset(s)[LINE_FEED] == 0
  {
    if !NoLineFeed(s) {
      var i :| 0 <= i < |s| && s[i] == LINE_FEED;
      assert s[i] in multiset(s);
    }
  }

  /** The line appended for a value without line feeds ends right after
      the value, whatever follows it. */
  lemma {:induction false} LineEndOf(v: JString, rest: JString)
    requires NoLineFeed(v)
    ensures LineEnd(v + [LINE_FEED] + rest) == |v|
  {
    var s := v + [LINE_FEED] + rest;
    if v == [] {
      assert s[0] == LINE_FEED;
    } else {
      assert s[0] == v[0];
      assert s[1..] == v[1..] + [LINE_FEED] + rest;
      LineEndOf(v[1..], rest);
    }
  }

  lemma {:induction false} LineEndAppend(a: JString, b: JString)
    requires LineEnd(a) < |a|
    ensures LineEnd(a + b) == LineEnd(a)
  {
    if a[0] != LINE_FEED {
      assert (a + b)[0] == a[0];
      assert (a + b)[1..] == a[1..] + b;
      LineEndAppend(a[1..], b);
    } else {
      assert (a + b)[0] == a[0];
    }
  }

  /** Reading the appended text back line by line gives the values, when no
      value holds a line feed of its own. */
  lemma {:induction false} ReadLinesOfLines(vs: seq<JString>)
    requires forall i :: 0 <= i < |vs| ==> NoLineFeed(vs[i])
    ensures ReadLines(Lines(vs)) == vs
  {
    if vs != [] {
      var s := Lines(vs);
      var rest := Lines(vs[1..]);
      assert s == vs[0] + [LINE_FEED] + rest;
      LineEndOf(vs[0], rest);
      assert s[..|vs[0]|] == vs[0];
      assert s[|vs[0]| + 1..] == rest;
      ReadLinesOfLines(vs[1..]);
      assert vs == [vs[0]] + vs[1..];
    }
  }

  /** Text that is empty or ends in a line feed is whole lines. */
  predicate WholeLines(s: JString) {
    s == [] || s[|s| - 1] == LINE_FEED
  }

  /** The appended text is whole lines, and is empty only when there was
      nothing to append. */
  lemma {:induction false} LinesWhole(vs: seq<JString>)
    ensures WholeLines(Lines(vs))
    ensures Lines(vs) == [] <==> vs == []
  {
    if vs != [] {
      LinesWhole(vs[1..]);
    }
  }

  /** Reading whole lines followed by more text reads both in turn. */
  lemma {:induction false} ReadLinesAppend(a: JString, b: JString)
    requires WholeLines(a)
    ensures ReadLines(a + b) == ReadLines(a) + ReadLines(b)
    decreases |a|
  {
    if a == [] {
      assert a + b == b;
    } else {
      var k := LineEnd(a);
      assert k < |a|;
      var s := a + b;
      LineEndAppend(a, b);
      assert s[..k] == a[..k];
      assert s[k + 1..] == a[k + 1..] + b;
      ReadLinesAppend(a[k + 1..], b);
    }
  }

  // ----- the service -----

  /** The appends numbered `lo` up to `hi` (exclusive) all succeed. */
  predicate AppendsSucceed(writeFails: nat -> bool, lo: nat, hi: nat) {
    forall n :: lo <= n < hi ==> !writeFails(n)
  }

  /** How a call of `consume()` ends: an `IOException` from a write is caught
      and `consume()` returns; any other exception, raised by `poll` (the loop
      never ends on its own), leaves `consume()`; and an exception from the
      `consumer.close()` of the `finally` leaves `consume()` whichever way the
      loop ended, replacing any exception already under way. */
  datatype ConsumeEnd = WriteFailed | PollThrew | CloseThrew

  /** The consumer side: its subscription, the output file and the client's state. */
  class ConsumerService {
    const topic: JString
    const groupId: JString
    /** The topics passed to `consumer.subscribe`. */
    const subscription: seq<JString>
    const outputPath: JString
    /** Whether the output file exists. */
    var fileExists: bool
    /** The output file's text. */
    var text: JString
    /** Whether `consumer.close()` has run. */
    var closed: bool
    /** How many times `consumer.close()` has been called. */
    ghost var closeCalls: nat

    /** A missing output file holds no text. */
    ghost predicate Valid()
      reads this
    {
      !fileExists ==> text == []
    }

    /** The constructor: group `"consumer-group-" + topic`, subscribed to that
        one topic. `existing` is the output file's text, `None` when there is
        no such file. */
    constructor (topic: JString, outputPath: JString, existing: Option<JString>)
      ensures Valid()
      ensures this.topic == topic && this.outputPath == outputPath
      ensures groupId == GroupId(topic) && subscription == [topic]
      ensures fileExists == existing.Some?
      ensures text == match existing case None => [] case Some(t) => t
      ensures !closed && closeCalls == 0
    {
      this.topic := topic;
      this.outputPath := outputPath;
      groupId := GroupId(topic);
      subscription := [topic];
      fileExists := existing.Some?;
      text := match existing case None => [] case Some(t) => t;
      closed := false;
      closeCalls := 0;
    }

    /** The inner `for` loop over one poll's records. `done` is how many
        records this call of `consume()` wrote before the batch; `count` is
        how many of the batch are written, `failed` whether an append threw.
        Each append creates the file if it is missing (`CREATE`) and adds
        `value + "\n"` at its end (`APPEND`). */
    method WriteBatch(batch: seq<JString>, writeFails: nat -> bool, done: nat) returns (failed: bool, count: nat)
      modifies this`fileExists, this`text
      ensures count <= |batch|
      ensures failed <==> count < |batch|
      ensures failed ==> writeFails(done + count)
      ensures AppendsSucceed(writeFails, done, done + count)
      ensures text == old(text) + Lines(batch[..count])
      ensures fileExists <==> old(fileExists) || count > 0
    {
      count := 0;
      while count < |batch|
        invariant count <= |batch|
        invariant AppendsSucceed(writeFails, done, done + count)
        invariant text == old(text) + Lines(batch[..count])
        invariant fileExists <==> old(fileExists) || count > 0
      {
        if writeFails(done + count) {
          // the IOException leaves the loop
          return true, count;
        }
        LinesSnoc(batch, count);
        fileExists := true;
        text := text + Line(batch[count]);
        count := count + 1;
      }
      failed := false;
    }

    /** The `while (true)` poll loop of `consume()`, up to the poll that
        throws or the append that throws. `failed` says which; `written` is
        how many records were appended. */
    method RunPolls(polls: seq<seq<JString>>, writeFails: nat -> bool) returns (failed: bool, written: nat)
      modifies this`fileExists, this`text
      ensures written <= |Flatten(polls)|
      ensures failed <==> written < |Flatten(polls)|
      ensures failed ==> writeFails(written)
      ensures AppendsSucceed(writeFails, 0, written)
      ensures text == old(text) + Lines(Flatten(polls)[..written])
      ensures fileExists <==> old(fileExists) || written > 0
    {
      written := 0;
      var b := 0;
      while b < |polls|
        invariant 0 <= b <= |polls|
        invariant written == Offset(polls, b)
        invariant AppendsSucceed(writeFails, 0, written)
        invariant text == old(text) + Appended(polls, b)
        invariant fileExists <==> old(fileExists) || written > 0
      {
        var count;
        failed, count := WriteBatch(polls[b], writeFails, written);
        if failed {
          BatchPrefix(polls, b, count);
          written := written + count;
          return;
        }
        assert polls[b][..count] == polls[b];
        written := written + count;
        b := b + 1;
      }
      AllBatches(polls);
      failed := false;
    }

    /** `consume()`. `polls` are the batches successive polls return before a
        poll throws; `writeFails(n)` says whether the n-th append of this call
        (counting from 0) throws an `IOException`; `closeThrows` whether
        closing the open consumer throws. `written` is how many records were
        appended. Closing a consumer that is already closed does nothing. */
    method Consume(polls: seq<seq<JString>>, writeFails: nat -> bool, closeThrows: bool) returns (end: ConsumeEnd, written: nat)
      requires Valid()
      modifies this
      ensures Valid()
      ensures closed && closeCalls == old(closeCalls) + 1
      ensures old(closed) ==> end == PollThrew && written == 0
      ensures written <= |Flatten(polls)|
      ensures AppendsSucceed(writeFails, 0, written)
      ensures !old(closed) ==> (end == CloseThrew <==> closeThrows)
      ensures !old(closed) ==> (end == WriteFailed <==> written < |Flatten(polls)| && !closeThrows)
      ensures !old(closed) && written < |Flatten(polls)| ==> writeFails(written)
      ensures text == old(text) + Lines(Flatten(polls)[..written])
      ensures fileExists <==> old(fileExists) || written > 0
    {
      if closed {
        // a poll on a closed KafkaConsumer throws IllegalStateException
        end, written := PollThrew, 0;
      } else {
        var failed;
        failed, written := RunPolls(polls, writeFails);
        end := if closeThrows then CloseThrew else if failed then WriteFailed else PollThrew;
      }
      // finally { consumer.close(); }
      closed := true;
      closeCalls := closeCalls + 1;
    }
  }

  /** How many records the polls before batch `b` returned. */
  function Offset(polls: seq<seq<JString>>, b: nat): nat
    requires b <= |polls|
  {
    if b == 0 then 0 else Offset(polls, b - 1) + |polls[b - 1]|
  }

  lemma {:induction false} OffsetFlatten(polls: seq<seq<JString>>, b: nat)
    requires b <= |polls|
    ensures Offset(polls, b) == |Flatten(polls[..b])|
  {
    if b > 0 {
      OffsetFlatten(polls, b - 1);
      FlattenStep(polls, b - 1);
    }
  }

  /** The first `count` records of batch `b` follow, in the flattened list,
      the records of the batches before it. */
  lemma {:induction false} BatchInPlace(polls: seq<seq<JString>>, b: nat, count: nat)
    requires b < |polls| && count <= |polls[b]|
    ensures Offset(polls, b) + count <= |Flatten(polls)|
    ensures count < |polls[b]| ==> Offset(polls, b) + count < |Flatten(polls)|
    ensures Flatten(polls)[..Offset(polls, b) + count] == Flatten(polls[..b]) + polls[b][..count]
  {
    OffsetFlatten(polls, b);
    FlattenStep(polls, b);
    var all, before, pre := Flatten(polls), Flatten(polls[..b]), Flatten(polls[..b + 1]);
    var k := Offset(polls, b);
    assert pre == before + polls[b] && pre <= all && |before| == k;
    assert all[..k + count] == pre[..k + count] == before + polls[b][..count];
  }

  /** The text appended for the whole of the first `b` batches. */
  function Appended(polls: seq<seq<JString>>, b: nat): JString
    requires b <= |polls|
  {
    if b == 0 then [] else Appended(polls, b - 1) + Lines(polls[b - 1])
  }

  lemma {:induction false} AppendedFlatten(polls: seq<seq<JString>>, b: nat)
    requires b <= |polls|
    ensures Appended(polls, b) == Lines(Flatten(polls[..b]))
  {
    if b > 0 {
      AppendedFlatten(polls, b - 1);
      FlattenStep(polls, b - 1);
      LinesAppend(Flatten(polls[..b - 1]), polls[b - 1]);
    }
  }

  /** The text appended for the batches before `b` and the first `count`
      records of batch `b` is the text for that many records of all polls. */
  lemma {:induction false} BatchPrefix(polls: seq<seq<JString>>, b: nat, count: nat)
    requires b < |polls| && count <= |polls[b]|
    ensures Offset(polls, b) + count <= |Flatten(polls)|
    ensures count < |polls[b]| ==> Offset(polls, b) + count < |Flatten(polls)|
    ensures Appended(polls, b) + Lines(polls[b][..count]) ==
      Lines(Flatten(polls)[..Offset(polls, b) + count])
  {
    BatchInPlace(polls, b, count);
    AppendedFlatten(polls, b);
    LinesAppend(Flatten(polls[..b]), polls[b][..count]);
  }

  /** After every batch, all records were counted and all their text appended. */
  lemma {:induction false} AllBatches(polls: seq<seq<JString>>)
    ensures Offset(polls, |polls|) == |Flatten(polls)|
    ensures Appended(polls, |polls|) == Lines(Flatten(polls)[..|Flatten(polls)|])
  {
    OffsetFlatten(polls, |polls|);
    AppendedFlatten(polls, |polls|);
    assert polls[..|polls|] == polls;
    assert Flatten(polls)[..|Flatten(polls)|] == Flatten(polls);
  }

  /** One more batch extends the flattened prefix, which stays a prefix. */
  lemma {:induction false} FlattenStep(polls: seq<seq<JString>>, b: nat)
    requires b < |polls|
    ensures Flatten(polls[..b + 1]) == Flatten(polls[..b]) + polls[b]
    ensures Flatten(polls[..b + 1]) <= Flatten(polls)
  {
    assert polls[..b + 1][..b] == polls[..b];
    FlattenPrefix(polls, b + 1);
  }

  lemma {:induction false} FlattenPrefix(polls: seq<seq<JString>>, b: nat)
    requires b <= |polls|
    ensures Flatten(polls[..b]) <= Flatten(polls)
    decreases |polls| - b
  {
    if b < |polls| {
      FlattenPrefix(polls, b + 1);
      assert polls[..b + 1][..b] == polls[..b];
    } else {
      assert polls[..b] == polls;
    }
  }
}
