/** What a consumer of one topic writes for the words one file's processing
    sent, when it receives exactly the records sent on its topic, once each
    and in send order. */
module Pipeline {
  import opened JavaString
  import opened JavaSplit
  import opened Config
  import opened Producer
  import opened Consumer

  /** The values of the records sent to topic `t`, in send order. */
  function OnTopic(rs: seq<Record>, t: JString): seq<JString> {
    if rs == [] then []
    else (if rs[0].topic == t then [rs[0].value] else []) + OnTopic(rs[1..], t)
  }

  /** The words of length `n`, in order. */
  function WithLength(ws: seq<JString>, n: nat): seq<JString> {
    if ws == [] then [] else (if |ws[0]| == n then [ws[0]] else []) + WithLength(ws[1..], n)
  }

  lemma {:induction false} OnTopicKept(ws: seq<JString>, n: nat)
    ensures OnTopic(Records(KeepShort(ws)), Decimal(n)) == if n <= MAX_WORD_LENGTH then WithLength(ws, n) else []
  {
    if ws != [] {
      var w, rest := ws[0], ws[1..];
      OnTopicKept(rest, n);
      if |w| <= MAX_WORD_LENGTH {
        assert KeepShort(ws) == [w] + KeepShort(rest);
        RecordsCons(w, KeepShort(rest));
        OnTopicCons(ToRecord(w), Records(KeepShort(rest)), Decimal(n));
        DecimalInjective(|w|, n);
      } else {
        assert KeepShort(ws) == KeepShort(rest);
      }
    }
  }

  lemma RecordsCons(w: JString, ws: seq<JString>)
    ensures Records([w] + ws) == [ToRecord(w)] + Records(ws)
  {
    assert Records([w] + ws)[1..] == Records(ws);
  }

  lemma OnTopicCons(r: Record, rs: seq<Record>, t: JString)
    ensures OnTopic([r] + rs, t) == (if r.topic == t then [r.value] else []) + OnTopic(rs, t)
  {
    assert ([r] + rs)[1..] == rs;
  }

  /** The records sent on the topic named `n` carry exactly the file's words
      of length `n`, in file order, duplicates included, when `n` is at most
      ten, and there are none otherwise. */
  lemma TopicCarriesWordsOfItsLength(content: JString, n: nat)
    ensures OnTopic(Route(content), Decimal(n)) ==
      if n <= MAX_WORD_LENGTH then WithLength(Split(content), n) else []
  {
    OnTopicKept(Split(content), n);
  }

  /** No word sent contains a line feed, so each becomes exactly one line of
      the output file: reading an output file that held whole lines (or did
      not exist) after the consumer appended the values sent on topic `n`
      gives the earlier lines followed by the file's words of length `n`, and
      the file still holds whole lines. */
  lemma OutputReadsBackWords(before: JString, content: JString, n: nat)
    requires WholeLines(before)
    ensures ReadLines(before + Lines(OnTopic(Route(content), Decimal(n)))) ==
      ReadLines(before) + (if n <= MAX_WORD_LENGTH then WithLength(Split(content), n) else [])
    ensures WholeLines(before + Lines(OnTopic(Route(content), Decimal(n))))
  {
    var vs := OnTopic(Route(content), Decimal(n));
    LinesWhole(vs);
    if vs == [] {
      assert before + Lines(vs) == before;
    }
    TopicCarriesWordsOfItsLength(content, n);
    RouteRecords(content);
    OnTopicWords(Route(content), Decimal(n));
    ReadLinesAppend(before, Lines(vs));
    ReadLinesOfLines(vs);
  }

  lemma {:induction false} OnTopicWords(rs: seq<Record>, t: JString)
    requires forall i :: 0 <= i < |rs| ==> WellRouted(rs[i])
    ensures forall i :: 0 <= i < |OnTopic(rs, t)| ==> NoLineFeed(OnTopic(rs, t)[i])
  {
    if rs != [] {
      OnTopicWords(rs[1..], t);
      assert NoSpace(rs[0].value);
      var h := if rs[0].topic == t then [rs[0].value] else [];
      assert OnTopic(rs, t) == h + OnTopic(rs[1..], t);
    }
  }
}
