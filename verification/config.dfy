/** The constants of KafkaConfig.java that the services also write as literals. */
module Config {
  import opened JavaString

  /** Longest word the producer publishes (the services hard-code the same 10). */
  const MAX_WORD_LENGTH: nat := 10

  /** Consumer group ids are this prefix followed by the topic. */
  const CONSUMER_GROUP_PREFIX: JString := FromAscii("consumer-group-")
}
