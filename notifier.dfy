/** The JSON body that `sendSlackNotification` posts (SlackNotify.java:83-88). */
module Notifier {

  /** The text in front of the message: an open brace, the key `text`, a colon, a space
      and the opening quote of the value. */
  const Prefix: string := "{\"text\": \""

  /** The closing quote of the value and the closing brace. */
  const Suffix: string := "\"}"

  /** The request body for `message`: the fixed prefix, the message as it is (no
      character of it is escaped), the fixed suffix; the message reads back from it. */
  function Payload(message: string): (body: string)
    ensures |body| == |Prefix| + |message| + |Suffix|
    ensures body[..|Prefix|] == Prefix && body[|Prefix| + |message|..] == Suffix
    ensures MessageOf(body) == message
  {
    Prefix + message + Suffix
  }

  /** Reads the message back out of a body of the payload's shape. */
  function MessageOf(body: string): (message: string)
    requires |body| >= |Prefix| + |Suffix|
    ensures |message| == |body| - |Prefix| - |Suffix|
  {
    body[|Prefix|..|body| - |Suffix|]
  }

  /** The number of occurrences of `c` in `s`. */
  function Occurrences(s: string, c: char): nat {
    if s == [] then 0 else (if s[0] == c then 1 else 0) + Occurrences(s[1..], c)
  }

  lemma {:induction false} OccurrencesAppend(s: string, t: string, c: char)
    ensures Occurrences(s + t, c) == Occurrences(s, c) + Occurrences(t, c)
  {
    if s == [] {
      assert s + t == t;
    } else {
      assert (s + t)[1..] == s[1..] + t;
      OccurrencesAppend(s[1..], t, c);
    }
  }

  /** Every character of the message, quotes and backslashes included, stands verbatim
      in the body at its offset behind the prefix. */
  lemma PayloadVerbatim(message: string, i: nat)
    requires i < |message|
    ensures Payload(message)[|Prefix| + i] == message[i]
  {
  }

  /** Different messages give different bodies. */
  lemma PayloadInjective(m1: string, m2: string)
    requires Payload(m1) == Payload(m2)
    ensures m1 == m2
  {
    assert MessageOf(Payload(m1)) == MessageOf(Payload(m2));
  }

  /** Since nothing is escaped, the body holds four quote characters of its own plus
      every quote of the message; with a quote in the message the body is no longer a
      JSON object whose `text` is the message. */
  lemma {:induction false} PayloadQuotes(message: string)
    ensures Occurrences(Payload(message), '"') == Occurrences(message, '"') + 4
  {
    OccurrencesAppend(Prefix, message, '"');
    OccurrencesAppend(Prefix + message, Suffix, '"');
    assert Occurrences(Prefix, '"') == 3;
    assert Occurrences(Suffix, '"') == 1;
  }

  /** The message `Hello "World"` goes into the body with both of its quotes as they are. */
  lemma QuotedMessageVerbatim()
    ensures Payload("Hello \"World\"") == "{\"text\": \"Hello \"World\"\"}"
  {
  }
}
