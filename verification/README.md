# kafka-word-splitter, modelled in Dafny

kafka-word-splitter is a pair of Java command-line programs around Apache Kafka.

- **Producer side.** `ProducerApp` watches a directory. For each new file, `KafkaProducerService.processFile` does the following:
  - reads the file's text;
  - splits it with `String.split("\\s+")`;
  - keeps the words of at most ten characters;
  - sends each kept word as a keyless record to the topic named by its length (`"0"` … `"10"`);
  - deletes the file.
- **Consumer side.** `ConsumerApp` builds a `KafkaConsumerService`. It joins the group `"consumer-group-" + topic`, subscribes to one topic, and appends every value it receives, followed by a line feed, to an output file.
- **Argument checks.** Both entry points first check their arguments with an ordered chain of guards. The first guard that fails ends the process with status 1.

This project models those three pieces and proves what they promise.

- `jstring.dfy` (module `JavaString`) holds the Java string facts the model needs:
  - A `char` is a UTF-16 code unit (`JChar`), so lengths are `String.length()`.
  - `\s` is the set `[ \t\n\x0B\f\r]`.
  - `trim()` strips code units at most U+0020.
  - `String.valueOf(int)` is `Decimal`, proved injective and read back by `DigitsValue`.
- `split.dfy` (module `JavaSplit`) models `String.split("\\s+")` with limit 0.
  - It is built from the maximal words and separators of the text (`Pieces`, `Separators`), which are proved to be the unique such decomposition.
  - Java's special cases are kept exactly:
    - text without `\s` comes back whole, so `""` gives `[""]`;
    - trailing empty strings are dropped;
    - a leading empty string is kept;
    - text made only of `\s` gives `[]`.
- `config.dfy` (module `Config`) holds the constants of `KafkaConfig` that the services hardcode: `MAX_WORD_LENGTH = 10` and `CONSUMER_GROUP_PREFIX = "consumer-group-"`. The services write the same literals.
- `producer.dfy` (module `Producer`) has two parts:
  - The pure routing function `Route(content)` and what it promises.
  - The class `ProducerService`. It has an outbox of records handed to `send`, a map of files on disk, and a ghost trace of sends and deletions. Its method `SendAll` is the send loop, and `ProcessFile` reads, sends and deletes. `SendAll` is proved against `Records(words)` and `ProcessFile` against `Route`.
- `consumer.dfy` (module `Consumer`) has three parts:
  - The group id.
  - The output format, with `Lines` and `ReadLines`. Reading back what was appended gives the values back.
  - The class `ConsumerService`. It holds whether the output file exists and its text. `WriteBatch` is the inner loop over one poll's records, `RunPolls` the poll loop, and `Consume` is `consume()`: it appends `value + "\n"` per record, stops at the first `IOException`, and closes the consumer once, however it ends.
- `cli.dfy` (module `Cli`) models the guard chains of `ProducerApp.main` and `ConsumerApp.main`:
  - They are pure functions over the arguments and a `FileSystem` value. That value answers `Paths.get`, `Files.exists`, `Files.isDirectory` and `Path.getParent`.
  - How each `main` ends is a function of the verdict and of whether the rest throws.
- `pipeline.dfy` (module `Pipeline`) joins the two sides. The records one file's processing sends on topic `"n"` carry exactly the file's words of length `n`, in order. A consumer that appends those values, once each and in send order, writes a file whose lines read back as those words.

External effects are parameters:
- the file system's answers (`FileSystem`);
- whether a read, a delete, an append or the consumer's `close()` throws (`readOk`, `deleteOk`, `writeFails`, `closeThrows`);
- what each poll returns (`polls`).

### Behaviour of the code worth knowing

- **Empty words are sent.** `split` returns `[""]` for an empty text and a leading `""` for a text that starts with `\s` and holds a non-`\s` character. Both pass the length filter and are sent as `("0", "")` (`Producer.RouteEdgeCases`).
- **A write failure does not end the process with an error.** `consume()` catches the `IOException`, closes the consumer and returns normally, and `ConsumerApp.main` then returns (`Cli.ConsumerMain`). Only a `close()` that throws turns it into exit status 1.

## Model

| member | source | states |
|---|---|---|
| JavaString.Trim | src/main/java/org/example/ProducerApp.java:32 | `trim()` gives the empty string exactly when every code unit is at most U+0020, so `trim().isEmpty()` is that test. Otherwise the result's first and last code units are above U+0020. |
| JavaString.Decimal | src/main/java/org/example/KafkaProducerService.java:34 | `String.valueOf(n)` is a non-empty string of decimal digits with no leading zero. |
| JavaString.DecimalRoundTrip | src/main/java/org/example/KafkaProducerService.java:34 | Reading the topic name back as a decimal number gives the word length it was made from. |
| JavaString.DecimalInjective | src/main/java/org/example/KafkaProducerService.java:34 | Two lengths give the same topic name exactly when they are equal. |
| JavaSplit.PiecesSplit | src/main/java/org/example/KafkaProducerService.java:29 | The pieces and separators recompose the text. Every piece is `\s`-free, and only the first and last may be empty. Every separator is a non-empty run of `\s`. |
| JavaSplit.SplittingUnique | src/main/java/org/example/KafkaProducerService.java:29 | Any decomposition of the text into `\s`-free words and maximal `\s` runs is the one `Pieces`/`Separators` compute, so the split has a single meaning. |
| JavaSplit.DropTrailingEmpty | src/main/java/org/example/KafkaProducerService.java:29 | Removing the trailing empty strings leaves a prefix that does not end in an empty string. Everything removed was empty. |
| JavaSplit.Split | src/main/java/org/example/KafkaProducerService.java:29 | Every string `split("\\s+")` returns is `\s`-free. Only the first may be empty, and only when the text is empty or starts with `\s`. |
| JavaSplit.SplitWords | src/main/java/org/example/KafkaProducerService.java:29 | Joined together, the strings `split("\\s+")` returns are the text with every `\s` removed, so no non-`\s` character is lost, added or reordered. |
| JavaSplit.SplitOfAllSpace | src/main/java/org/example/KafkaProducerService.java:29 | Non-empty text made only of `\s` splits into no strings at all. |
| JavaSplit.SplitEdgeCases | src/main/java/org/example/KafkaProducerService.java:29 | `""` splits into `[""]`. All-`\s` text splits into `[]`. Text that starts with `\s` and holds a word splits into a leading `""` followed by at least one more string. |
| JavaSplit.SplitIgnoresTrailingSpace | src/main/java/org/example/KafkaProducerService.java:29 | Appending `\s` characters to non-empty text does not change the split. |
| JavaSplit.ConcatSplitting | src/main/java/org/example/KafkaProducerService.java:29 | Joining the words of a splitting gives the text with its `\s` removed. |
| Producer.KeepShort | src/main/java/org/example/KafkaProducerService.java:30 | The filter returns no more words than it is given. Every word it keeps is one of its input's and has at most ten characters. |
| Producer.ToRecord | src/main/java/org/example/KafkaProducerService.java:34-35 | A word becomes a record with a null key and the word as value, on a topic of decimal digits that reads back as the word's length. |
| Producer.Records | src/main/java/org/example/KafkaProducerService.java:31-35 | The kept words give one record each, in word order. Its partners state what that means for the sent records: `Pipeline.OnTopicKept` (the records on topic `"n"` carry exactly the words of length `n`, in order) and `Producer.RouteKeepsShortWords` (the values sent are the split's short words, in order and with their multiplicities). |
| Producer.Route | src/main/java/org/example/KafkaProducerService.java:29-35 | A file's text gives at most one record per string of its split. Each has a null key and a `\s`-free value of at most ten characters, on a topic of decimal digits that reads back as the value's length. |
| Producer.KeepShortSpec | src/main/java/org/example/KafkaProducerService.java:30 | The length filter keeps words of at most ten characters, in order, each as often as it occurs, and drops every longer one. |
| Producer.RouteRecords | src/main/java/org/example/KafkaProducerService.java:29-35 | Every record sent has a null key and a `\s`-free value of at most ten characters. Its topic is the decimal rendering of the value's length, without leading zeros, and reads back as that length. |
| Producer.RouteKeepsShortWords | src/main/java/org/example/KafkaProducerService.java:29-36 | The sent values are the split's words with the over-long ones removed. Order and multiplicities are kept, and nothing is added. A word is sent exactly when the split produced it and it has at most ten characters. |
| Producer.RouteEdgeCases | src/main/java/org/example/KafkaProducerService.java:29-35 | An empty file sends exactly `("0", "")`. An all-`\s` file sends nothing. A file starting with `\s` that holds a word sends `("0", "")` first. |
| Producer.RouteIgnoresTrailingSpace | src/main/java/org/example/KafkaProducerService.java:29-30 | Trailing `\s` after non-empty text adds no record. |
| Producer.ProducerService.constructor | src/main/java/org/example/KafkaProducerService.java:16-22 | A new service has sent nothing. |
| Producer.SentRecordsAppend | src/main/java/org/example/KafkaProducerService.java:31-35 | Sending a list of records, in order, adds exactly those records to the sends recorded in the trace. |
| Producer.ProducerService.SendAll | src/main/java/org/example/KafkaProducerService.java:31-36 | The outbox grows by one keyless record per word, in word order, on the topic named by the word's length. The trace grows by the same sends, and the outbox stays the list of sends in the trace. |
| Producer.ProducerService.ProcessFile | src/main/java/org/example/KafkaProducerService.java:24-41 | A missing file or a failed read sends nothing and changes nothing. Otherwise every routed record is sent, in order. Only after that is the file deleted, and only if the delete succeeds; a failed delete leaves the sends in place and the file on disk. The outbox stays the list of sends in the trace. |
| Consumer.GroupId | src/main/java/org/example/KafkaConsumerService.java:22 | `"consumer-group-" + topic`. Its partner `Consumer.GroupIdNamesTopic` states what it means: the topic can be read back from the group id, and two topics share a group exactly when they are equal. |
| Consumer.GroupIdNamesTopic | src/main/java/org/example/KafkaConsumerService.java:22 | The group id is `"consumer-group-"` followed by the topic. The topic can be read back from it, so distinct topics get distinct groups. |
| Consumer.Line | src/main/java/org/example/KafkaConsumerService.java:35 | One append writes `value + "\n"`. Its contract is carried by its partners: `LineEndOf` (the line ends right after a line-feed-free value) and `LinesSnoc`. |
| Consumer.Lines | src/main/java/org/example/KafkaConsumerService.java:34-35 | The text appended for the records, in order. Its contract is carried by its partners: `ReadLinesOfLines` (reading it back gives the values), `LinesAppend`, `LinesWhole` and `OneLinePerRecord`. |
| Consumer.LineEndOf | src/main/java/org/example/KafkaConsumerService.java:35 | Whatever follows, the first line feed after a line-feed-free value is the one its append added, so the line ends right after the value. |
| Consumer.LinesAppend | src/main/java/org/example/KafkaConsumerService.java:34-35 | The text appended for two runs of records is the text for the first followed by the text for the second. |
| Consumer.LinesCountLineFeeds | src/main/java/org/example/KafkaConsumerService.java:35 | Each record adds exactly one line feed beyond those inside its value. |
| Consumer.NoLineFeedCount | src/main/java/org/example/KafkaConsumerService.java:35 | A value holds no line feed exactly when its line-feed count is zero. It lets `OneLinePerRecord` turn "no value holds a line feed" into a count. |
| Consumer.OneLinePerRecord | src/main/java/org/example/KafkaConsumerService.java:34-35 | When no value holds a line feed, the text appended holds exactly one line feed per record written, so the file gains one line per record. |
| Consumer.LinesWhole | src/main/java/org/example/KafkaConsumerService.java:35 | The text appended for the records is whole lines, and it is empty exactly when there were no records. |
| Consumer.LineEnd | src/main/java/org/example/KafkaConsumerService.java:35 | The line-end index is the position of the first line feed, or the length when there is none. |
| Consumer.ReadLinesOfLines | src/main/java/org/example/KafkaConsumerService.java:35 | Cutting the appended text at its line feeds gives back the values, when no value holds a line feed. |
| Consumer.ReadLinesAppend | src/main/java/org/example/KafkaConsumerService.java:35 | Reading a file of whole lines with more text appended gives the old lines, then the new ones. |
| Consumer.FlattenStep | src/main/java/org/example/KafkaConsumerService.java:32-34 | Each further poll's batch extends the records seen so far, which remain a prefix of all the records. |
| Consumer.FlattenPrefix | src/main/java/org/example/KafkaConsumerService.java:32-34 | The records of the first polls are a prefix of the records of all polls. |
| Consumer.LinesSnoc | src/main/java/org/example/KafkaConsumerService.java:34-35 | Writing one more record of a batch appends exactly its `value + "\n"`. |
| Consumer.AppendedFlatten | src/main/java/org/example/KafkaConsumerService.java:32-35 | The text appended for the first polls, batch by batch, is the text for their records taken in order. |
| Consumer.BatchPrefix | src/main/java/org/example/KafkaConsumerService.java:32-35 | Stopping after `count` records of batch `b`, the records written are within all the records, and the text appended batch by batch, then for those `count` records, is the text for the first records of all polls up to that point. |
| Consumer.AllBatches | src/main/java/org/example/KafkaConsumerService.java:32-35 | After every batch, all records have been written and the text appended is the text for all of them. |
| Consumer.ConsumerService.constructor | src/main/java/org/example/KafkaConsumerService.java:19-28 | The consumer joins group `"consumer-group-" + topic`, subscribes to that one topic and is open. The output file's state is the one found on disk. |
| Consumer.ConsumerService.WriteBatch | src/main/java/org/example/KafkaConsumerService.java:34-36 | The records of the batch are appended as `value + "\n"`, in order, up to the first append that throws; no later record of the batch is written. The batch is cut short exactly when an append failed, and every earlier append succeeded. The file exists afterwards exactly when it existed before or something was appended; a failed append writes nothing. |
| Consumer.ConsumerService.RunPolls | src/main/java/org/example/KafkaConsumerService.java:32-37 | The records of all polls, in poll and batch order, are appended up to the first append that throws. The loop stops early exactly when an append failed, and every earlier append succeeded. The file exists afterwards exactly when it existed before or something was appended; a failed append writes nothing. |
| Consumer.ConsumerService.Consume | src/main/java/org/example/KafkaConsumerService.java:30-43 | The file's text becomes its old text (empty if it was missing) followed by `value + "\n"` for each record written, in poll and batch order. The records written are a prefix of all records, and no earlier append failed. On an open consumer, `consume()` throws from `close()` exactly when closing throws, whatever the loop did. Otherwise it returns after a caught write failure exactly when some record was left unwritten, and a poll threw when every record was written. On an open consumer, whenever a record was left unwritten, its append threw. The consumer is closed exactly once per call. A missing file is created only by the first append that succeeds. |
| Cli.CheckProducerArgs | src/main/java/org/example/ProducerApp.java:23-48 | Guard order: at least one argument, not blank, a valid path, an existing path, a directory. Only an argument passing all five goes on, as the watch directory `args[0]`. Every failure is status 1. |
| Cli.ProducerFirstFailureDecides | src/main/java/org/example/ProducerApp.java:23-48 | Each failure reason is reported exactly when its guard is the first to fail. A blank argument is rejected whatever the file system says. |
| Cli.ProducerIgnoresExtraArgs | src/main/java/org/example/ProducerApp.java:29 | Only `args[0]` is looked at. |
| Cli.ProducerMain | src/main/java/org/example/ProducerApp.java:22-92 | `main` returns exactly when the guards pass and no exception reaches its catch, that is, when `watch()` ends through its own catch of an `IOException` or `InterruptedException`. Every other end is exit status 1. |
| Cli.CheckConsumerArgs | src/main/java/org/example/ConsumerApp.java:26-56 | Guard order: at least two arguments, topic not blank, output path not blank, a valid path, and an existing parent directory when the path has a parent. A bare file name skips the directory check. On success the topic is `args[0]` and the output `args[1]`. Every failure is status 1. |
| Cli.ConsumerFirstFailureDecides | src/main/java/org/example/ConsumerApp.java:26-56 | Each failure reason is reported exactly when its guard is the first to fail. The topic is checked before the output path. |
| Cli.ConsumerIgnoresExtraArgs | src/main/java/org/example/ConsumerApp.java:32-33 | Only `args[0]` and `args[1]` are looked at. |
| Cli.ConsumerMain | src/main/java/org/example/ConsumerApp.java:25-94 | `main` returns exactly when the guards pass, construction does not throw, and `consume()` returns after its caught write failure. A poll or a `close()` that throws, or a failed construction, gives exit status 1, as does every failed guard. |
| Pipeline.OnTopicKept | src/main/java/org/example/KafkaProducerService.java:30-35 | Among the records sent for a list of words, those on topic `"n"` carry exactly the words of length `n`, in order, when `n` is at most ten. Otherwise there are none. |
| Pipeline.TopicCarriesWordsOfItsLength | src/main/java/org/example/KafkaProducerService.java:29-35 | The records sent on topic `"n"` for a file carry the file's words of length `n`, in order and with duplicates, when `n` is at most ten, and there are none otherwise. |
| Pipeline.OnTopicWords | src/main/java/org/example/KafkaConsumerService.java:35 | No value sent on any topic holds a line feed. |
| Pipeline.OutputReadsBackWords | src/main/java/org/example/KafkaConsumerService.java:35 | Reading the output file line by line, after appending the values sent on topic `"n"` in send order, gives the earlier lines and then the file's words of length `n`. The file still holds whole lines. |

## Left out

- Kafka clients: building the producer and consumer, `send`, `poll`, serialisers, offsets and delivery are library calls.
  - `send` is modelled as appending to the outbox.
  - Each poll's batch is an input sequence.
  - An exception from `send` (unchecked, not caught in `processFile`) is not modelled.
- Concurrency: `processFile` hands its work to a fresh single-thread executor. The model runs that work at once and in full, so interleavings of tasks for different files are not modelled. Neither is the JVM staying alive while those executor threads remain.
- The shutdown hooks and the `shutdown()` calls they make: `KafkaProducerService`, `KafkaConsumerService` and `FileWatcher` declare no such methods, so there is nothing to model.
- `FileWatcher` is not part of this model. It calls `processFile` for each created file, and `ProcessFile` can be called once per file in that order.
- `KafkaConfig.POLL_TIMEOUT` and `EXECUTOR_SHUTDOWN_TIMEOUT` are not used by the code that is modelled.
- Decoding the file as UTF-8 in `Files.readString`: a decoding failure is one way `readOk` is false. The decoded text is given directly as code units.
- Logging, `System.out`/`System.err` output and `printStackTrace` are not modelled.
- Consumer.ConsumerService.Consume: the `while (true)` poll loop is modelled over a finite list of batches. The end of the list stands for the poll that throws, so an endless run of polls that never fail is not represented.
- Consumer.ConsumerService.RunPolls: the same finite list of batches stands for the `while (true)` loop; reaching its end means the next poll threw.
- Consumer.ConsumerService.WriteBatch: a failed append is modelled as writing nothing. `Files.writeString` with `CREATE` and `APPEND` can throw after it has created the file or written part of `value + "\n"`, which would leave a created, empty file or a partial last line; the model does not capture that.
- Consumer.ConsumerService.RunPolls: inherits that all-or-nothing reading of a failed append.
- Consumer.ConsumerService.WriteBatch: batch values are non-null strings. A record with a null value (a tombstone, or any client's null payload, which `StringDeserializer` turns into `null`) would make `record.value() + "\n"` append `"null\n"`; the model has no such input, and neither do RunPolls and Consume.
- Consumer.ConsumerService.Consume: a failed append is modelled as writing nothing, as in WriteBatch, so "a missing file is created only by the first append that succeeds" holds in the model only; a real failed append can leave a created, empty file or a partial last line.
- Consumer.ConsumerService.Consume: batch values are non-null strings, as in WriteBatch; a record with a null value would append `"null\n"`, which the model does not represent.
- Pipeline.TopicCarriesWordsOfItsLength, Pipeline.OnTopicWords and Pipeline.OutputReadsBackWords speak of the records sent on a topic for one file. That they are what a consumer receives assumes Kafka delivers them exactly once, in send order, with no other file's records on the topic. Kafka promises none of this: keyless records may land in several partitions, delivery is at least once, and other files share the topic.
- Cli.ProducerMain: when nothing throws, `FileWatcher.watch()` loops on `take()` forever and `main` never returns. The model has no such endless run; `Returned` stands for `watch()` having ended through its own catch.
- Cli.CheckProducerArgs: the `watchDir == null` test cannot fail for a command-line argument and is not modelled. Neither is the `null` test of `ConsumerApp`.
- Cli.ProducerMain: an `InvalidPathException` from `Paths.get` escapes `main` uncaught. That ends the JVM with status 1, so it is modelled as an exit with status 1; the stack trace is not.
- Cli.CheckConsumerArgs: the same holds for `Paths.get` on the output path in `ConsumerApp.main`; its uncaught `InvalidPathException` is modelled as the failure `InvalidPath` with status 1, and Cli.ConsumerMain passes that status on.
