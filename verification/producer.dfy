/** KafkaProducerService: a file's text is split on `\s+`, the words of at most
    ten characters are sent, each to the topic named by its length, and then
    the file is deleted. */
module Producer {
  import opened JavaString
  import opened JavaSplit
  import opened Config

  /** A record handed to `producer.send`; the two-argument `ProducerRecord`
      constructor leaves the key null. */
  datatype Record = Record(topic: JString, key: Option<JString>, value: JString)

  /** `.filter(word -> word.length() <= 10)`: no longer than its input,
      and every word it keeps is one of its input's and at most ten
      characters long. */
  function KeepShort(ws: seq<JString>): (r: seq<JString>)
    ensures |r| <= |ws|
    ensures forall i :: 0 <= i < |r| ==> |r[i]| <= MAX_WORD_LENGTH && r[i] in ws
  {
    if ws == [] then [] else (if |ws[0]| <= MAX_WORD_LENGTH then [ws[0]] else []) + KeepShort(ws[1..])
  }

  /** `new ProducerRecord<>(String.valueOf(word.length()), word)`: a keyless
      record carrying the word, on a topic that reads back as its length. */
  function ToRecord(w: JString): (r: Record)
    ensures r.key == None && r.value == w
    ensures forall k :: 0 <= k < |r.topic| ==> IsDigit(r.topic[k])
    ensures DigitsValue(r.topic) == |w|
  {
    DecimalRoundTrip(|w|);
    Record(Decimal(|w|), None, w)
  }

  /** The records sent for the kept words, one per word, in order. */
  function Records(words: seq<JString>): (rs: seq<Record>)
    ensures |rs| == |words|
    ensures forall i :: 0 <= i < |rs| ==> rs[i] == ToRecord(words[i])
  {
    seq(|words|, i requires 0 <= i < |words| => ToRecord(words[i]))
  }

  /** Every record `processFile` sends for a file with this text, in send
      order: at most one per word of the split, each keyless, with a
      `\s`-free value of at most ten characters on the topic that reads back
      as the value's length. */
  function Route(content: JString): (rs: seq<Record>)
    ensures |rs| <= |Split(content)|
    ensures forall i :: 0 <= i < |rs| ==>
      && rs[i].key == None && |rs[i].value| <= MAX_WORD_LENGTH && NoSpace(rs[i].value)
      && (forall k :: 0 <= k < |rs[i].topic| ==> IsDigit(rs[i].topic[k]))
      && DigitsValue(rs[i].topic) == |rs[i].value|
  {
    Records(KeepShort(Split(content)))
  }

  /** The values of the records, in order. */
  function Values(rs: seq<Record>): seq<JString> {
    seq(|rs|, i requires 0 <= i < |rs| => rs[i].value)
  }

  /** `a` is `b` with some elements left out, the rest in their order. */
  predicate IsSubsequence<T(==)>(a: seq<T>, b: seq<T>) {
    if a == [] then true
    else if b == [] then false
    else if a[0] == b[0] then IsSubsequence(a[1..], b[1..])
    else IsSubsequence(a, b[1..])
  }

  /** The filter keeps the short words, in order, each as often as it occurs,
      and nothing else. */
  lemma KeepShortSpec(ws: seq<JString>)
    ensures forall i :: 0 <= i < |KeepShort(ws)| ==> |KeepShort(ws)[i]| <= MAX_WORD_LENGTH
    ensures IsSubsequence(KeepShort(ws), ws)
    ensures forall w :: multiset(KeepShort(ws))[w] == if |w| <= MAX_WORD_LENGTH then multiset(ws)[w] else 0
  {
    KeepShortSubsequence(ws);
    forall w {
      KeepShortCount(ws, w);
    }
  }

  lemma {:induction false} KeepShortSubsequence(ws: seq<JString>)
    ensures IsSubsequence(KeepShort(ws), ws)
  {
    if ws != [] {
      KeepShortSubsequence(ws[1..]);
      var r := KeepShort(ws);
      if |ws[0]| <= MAX_WORD_LENGTH {
        assert r == [ws[0]] + KeepShort(ws[1..]);
        assert r[1..] == KeepShort(ws[1..]);
      } else {
        assert r == KeepShort(ws[1..]);
        SubsequenceOfTail(r, ws);
      }
    }
  }

  lemma {:induction false} KeepShortCount(ws: seq<JString>, w: JString)
    ensures multiset(KeepShort(ws))[w] == if |w| <= MAX_WORD_LENGTH then multiset(ws)[w] else 0
  {
    if ws != [] {
      KeepShortCount(ws[1..], w);
      assert ws == [ws[0]] + ws[1..];
      var h := if |ws[0]| <= MAX_WORD_LENGTH then [ws[0]] else [];
      assert KeepShort(ws) == h + KeepShort(ws[1..]);
      assert multiset(KeepShort(ws)) == multiset(h) + multiset(KeepShort(ws[1..]));
      assert multiset(ws) == multiset{ws[0]} + multiset(ws[1..]);
    }
  }

  lemma {:induction false} SubsequenceOfTail<T>(a: seq<T>, b: seq<T>)
    requires b != [] && IsSubsequence(a, b[1..])
    ensures IsSubsequence(a, b)
    decreases |b|, 0
  {
    if a != [] && a[0] == b[0] {
      SubsequenceDropFirst(a, b[1..]);
    }
  }

  lemma {:induction false} SubsequenceDropFirst<T>(a: seq<T>, b: seq<T>)
    requires a != [] && IsSubsequence(a, b)
    ensures IsSubsequence(a[1..], b)
    decreases |b|, 1
  {
    if b != [] && a[1..] != [] {
      if a[0] == b[0] {
        SubsequenceOfTail(a[1..], b);
      } else {
        SubsequenceDropFirst(a, b[1..]);
        SubsequenceOfTail(a[1..], b);
      }
    }
  }

  // ----- what Route promises -----

  /** What each record sent carries: no key, a `\s`-free word of at most ten
      characters, and as topic the decimal rendering of the word's length,
      without leading zeros, so a number from 0 to 10. */
  ghost predicate WellRouted(r: Record) {
    && r.key == None
    && |r.value| <= MAX_WORD_LENGTH
    && NoSpace(r.value)
    && r.topic == Decimal(|r.value|)
    && (|r.topic| > 1 ==> r.topic[0] != DIGIT_ZERO)
    && DigitsValue(r.topic) == |r.value|
  }

  lemma ToRecordWellRouted(w: JString)
    requires |w| <= MAX_WORD_LENGTH && NoSpace(w)
    ensures WellRouted(ToRecord(w))
  {
    DecimalRoundTrip(|w|);
  }

  /** Every record Route produces is well routed. */
  lemma RouteRecords(content: JString)
    ensures forall i :: 0 <= i < |Route(content)| ==> WellRouted(Route(content)[i])
  {
    var words := Split(content);
    SplitWords(content);
    KeepShortSpec(words);
    var kept := KeepShort(words);
    forall i | 0 <= i < |kept|
      ensures WellRouted(Route(content)[i])
    {
      assert kept[i] in multiset(kept);
      assert kept[i] in multiset(words);
      ToRecordWellRouted(kept[i]);
    }
  }

  /** The sent words are the split's words with the over-long ones left out:
      same order, same multiplicities, nothing added. A word of at most ten
      characters is sent exactly when the split produced it. */
  lemma RouteKeepsShortWords(content: JString)
    ensures IsSubsequence(Values(Route(content)), Split(content))
    ensures forall w ::
      multiset(Values(Route(content)))[w] == if |w| <= MAX_WORD_LENGTH then multiset(Split(content))[w] else 0
    ensures forall w :: w in Values(Route(content)) <==> w in Split(content) && |w| <= MAX_WORD_LENGTH
  {
    var kept := KeepShort(Split(content));
    assert Values(Route(content)) == kept;
    KeepShortSpec(Split(content));
    forall w
      ensures w in kept <==> w in Split(content) && |w| <= MAX_WORD_LENGTH
    {
      assert w in kept <==> w in multiset(kept);
      assert w in Split(content) <==> w in multiset(Split(content));
    }
  }

  /** The topic named "0". */
  const ZERO_TOPIC: JString := [DIGIT_ZERO]

  /** An empty file sends one empty word on topic "0"; a file of only `\s`
      sends nothing; a file that starts with `\s` and holds a word sends an
      empty word on topic "0" first. */
  lemma RouteEdgeCases(content: JString)
    ensures content == [] ==> Route(content) == [Record(ZERO_TOPIC, None, [])]
    ensures content != [] && AllSpace(content) ==> Route(content) == []
    ensures content != [] && IsSpace(content[0]) && !AllSpace(content) ==>
      |Route(content)| >= 1 && Route(content)[0] == Record(ZERO_TOPIC, None, [])
  {
    SplitEdgeCases(content);
    var words := Split(content);
    if content == [] {
      assert KeepShort(words) == [[]];
    }
    if content != [] && IsSpace(content[0]) && !AllSpace(content) {
      assert KeepShort(words) == [words[0]] + KeepShort(words[1..]);
    }
  }

  /** Trailing `\s` after a non-empty text adds no record. */
  lemma RouteIgnoresTrailingSpace(content: JString, t: JString)
    requires content != [] && t != [] && AllSpace(t)
    ensures Route(content + t) == Route(content)
  {
    SplitIgnoresTrailingSpace(content, t);
  }

  // ----- the service state -----

  /** What processing does to the outside world, in order. */
  datatype Effect = Sent(record: Record) | Deleted(path: JString)

  function SentEffects(rs: seq<Record>): seq<Effect> {
    seq(|rs|, i requires 0 <= i < |rs| => Sent(rs[i]))
  }

  /** The records among the effects, in order. */
  function SentRecords(es: seq<Effect>): seq<Record> {
    if es == [] then []
    else SentRecords(es[..|es| - 1]) + (if es[|es| - 1].Sent? then [es[|es| - 1].record] else [])
  }

  lemma {:induction false} SentEffectsSnoc(rs: seq<Record>, i: nat)
    requires i < |rs|
    ensures rs[..i + 1] == rs[..i] + [rs[i]]
    ensures SentEffects(rs[..i + 1]) == SentEffects(rs[..i]) + [Sent(rs[i])]
  {
    assert rs[..i + 1] == rs[..i] + [rs[i]];
  }

  /** Appending an effect appends its record, if it is a send. */
  lemma {:induction false} SentRecordsSnoc(es: seq<Effect>, e: Effect)
    ensures SentRecords(es + [e]) == SentRecords(es) + (if e.Sent? then [e.record] else [])
  {
    assert (es + [e])[..|es|] == es;
  }

  /** Sending records in order appends exactly those records to the sends of
      the trace. */
  lemma {:induction false} SentRecordsAppend(es: seq<Effect>, rs: seq<Record>)
    ensures SentRecords(es + SentEffects(rs)) == SentRecords(es) + rs
    decreases |rs|
  {
    if rs == [] {
      assert es + SentEffects(rs) == es;
    } else {
      var k := |rs| - 1;
      SentRecordsAppend(es, rs[..k]);
      SentEffectsSnoc(rs, k);
      assert rs[..k + 1] == rs;
      assert es + SentEffects(rs) == (es + SentEffects(rs[..k])) + [Sent(rs[k])];
      SentRecordsSnoc(es + SentEffects(rs[..k]), Sent(rs[k]));
    }
  }

  /** The producer side of the pipeline: what has been handed to
      `producer.send` and the files on disk. */
  class ProducerService {
    /** Every record handed to `producer.send`, in order. */
    var outbox: seq<Record>
    /** The regular files on disk, by path, with their text. */
    var files: map<JString, JString>
    /** Sends and deletions in the order they happened. */
    ghost var effects: seq<Effect>

    /** The outbox is exactly the sends among the effects. */
    ghost predicate Valid()
      reads this
    {
      SentRecords(effects) == outbox
    }

    constructor (disk: map<JString, JString>)
      ensures Valid()
      ensures outbox == [] && files == disk && effects == []
    {
      outbox := [];
      files := disk;
      effects := [];
    }

    /** The `forEach` over the kept words: each becomes a record on the topic
        named by its length, handed to `producer.send` in order. */
    method SendAll(words: seq<JString>)
      requires Valid()
      modifies this`outbox, this`effects
      ensures Valid()
      ensures outbox == old(outbox) + Records(words)
      ensures effects == old(effects) + SentEffects(Records(words))
    {
      ghost var rs := Records(words);
      ghost var sent, trace := outbox, effects;
      var i := 0;
      while i < |words|
        invariant 0 <= i <= |words| == |rs|
        invariant outbox == sent + rs[..i]
        invariant effects == trace + SentEffects(rs[..i])
      {
        var word := words[i];
        var record := Record(Decimal(|word|), None, word);
        assert record == rs[i];
        SentEffectsSnoc(rs, i);
        outbox := outbox + [record];
        effects := effects + [Sent(record)];
        i := i + 1;
      }
      assert rs[..i] == rs;
      SentRecordsAppend(trace, rs);
    }

    /** The work `processFile(path)` hands to its executor, as if run at once. `readOk` and
        `deleteOk` say whether `Files.readString` and `Files.delete` succeed
        on a file that is there; an `IOException` from either is caught. */
    method ProcessFile(path: JString, readOk: bool, deleteOk: bool)
      requires Valid()
      modifies this
      ensures Valid()
      ensures path !in old(files) || !readOk ==>
        outbox == old(outbox) && files == old(files) && effects == old(effects)
      ensures path in old(files) && readOk ==>
        && outbox == old(outbox) + Route(old(files)[path])
        && effects == old(effects) + SentEffects(Route(old(files)[path])) + (if deleteOk then [Deleted(path)] else [])
        && files == (if deleteOk then old(files) - {path} else old(files))
    {
      if path !in files || !readOk {
        return;
      }
      var content := files[path];
      ghost var rs := Route(content);
      ghost var sent, trace := outbox, effects;
      SendAll(KeepShort(Split(content)));
      assert outbox == sent + rs && effects == trace + SentEffects(rs);
      if deleteOk {
        SentRecordsSnoc(effects, Deleted(path));
        files := files - {path};
        effects := effects + [Deleted(path)];
        assert effects == trace + SentEffects(rs) + [Deleted(path)];
      }
    }
  }
}
