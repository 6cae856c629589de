/**
  The reply selection of `HandleUpdateAsync`: which replies one incoming update produces.
  Sending is left to the caller; the handler is a function from the update (and the
  current time) to the replies it sends, in order, and to whether it ends by throwing.
 */
module Bot {
  import opened Wrappers
  import opened Gregorian
  import opened DateText
  import opened Lifespan

  datatype Message = Message(text: Option<string>)

  datatype Update = Update(message: Option<Message>)

  /**
    The replies the handler sends: the `/start` prompt, the remaining lifetime (with the
    span and the hour and minute components `FormatTimeSpan` prints), and the
    invalid-format reply.
   */
  datatype Reply = StartPrompt | RemainingTime(span: int, hours: int, minutes: int) | InvalidFormat

  /**
    Why the handler throws: `.Value` on a `null` `TimeSpan?` (an `InvalidOperationException`),
    or the `ArgumentOutOfRangeException` of the date arithmetic.
   */
  datatype Fault = NullValue | DateOutOfRange

  /** The handler either returns after sending `replies`, or throws after sending `sent`. */
  datatype Outcome = Replied(replies: seq<Reply>) | Faulted(sent: seq<Reply>, fault: Fault)

  /** Sent before the date branch: the prompt, for `/start` only. */
  function Prompt(text: string): (r: seq<Reply>)
    ensures r == [StartPrompt] <==> text == "/start"
    ensures r == [] <==> text != "/start"
  {
    if text == "/start" then [StartPrompt] else []
  }

  /** `HandleUpdateAsync` as written, once the message text is at hand. */
  function HandleText(text: string, now: Instant, offset: int): (o: Outcome)
    ensures o.Faulted? ==> IsValidDate(text)
  {
    var prompt := Prompt(text);
    if IsValidDate(text) then
      match CalculateRemainingTime(text, now, offset)
      case NoValue => Faulted(prompt, NullValue)
      case OutOfRange => Faulted(prompt, DateOutOfRange)
      case Span(t) => Replied(prompt + [RemainingTime(t, Hours(t), Minutes(t))])
    else
      Replied(prompt + [InvalidFormat])
  }

  /** `HandleUpdateAsync` as written. */
  function HandleUpdate(u: Update, now: Instant, offset: int): (o: Outcome)
    ensures o.Faulted? ==> HasText(u) && IsValidDate(u.message.value.text.value)
  {
    match u.message
    case None => Replied([])
    case Some(message) =>
      match message.text
      case None => Replied([])
      case Some(text) => HandleText(text, now, offset)
  }

  /** An update carries text when it has a message and the message has text. */
  predicate HasText(u: Update)
    ensures HasText(u) <==> exists text :: u == Update(Some(Message(Some(text))))
  {
    if u.message.Some? && u.message.value.text.Some? then
      assert u == Update(Some(Message(Some(u.message.value.text.value))));
      true
    else
      false
  }

  /** An update with no message, or a message with no text, gets no reply; every text gets something. */
  lemma SilentExactlyWithoutText(u: Update, now: Instant, offset: int)
    ensures HandleUpdate(u, now, offset) == Replied([]) <==> !HasText(u)
  {
  }

  /**
    A text message gets the prompt (for `/start`) and then either exactly one date reply,
    the remaining time when the text passes the lexical check and the invalid-format reply
    when it does not, or, when it passes the lexical check but no span results, a throw
    with no date reply.
   */
  lemma TextReplies(u: Update, now: Instant, offset: int)
    requires HasText(u)
    ensures var text := u.message.value.text.value;
      match HandleUpdate(u, now, offset)
      case Replied(rs) =>
        && |rs| == |Prompt(text)| + 1
        && rs[..|Prompt(text)|] == Prompt(text)
        && (rs[|rs| - 1].RemainingTime? <==> IsValidDate(text))
        && (rs[|rs| - 1].InvalidFormat? <==> !IsValidDate(text))
      case Faulted(sent, _) =>
        sent == Prompt(text) && IsValidDate(text) && !CalculateRemainingTime(text, now, offset).Span?
  {
  }

  /** `/start` gets the prompt and then the invalid-format reply, in that order. */
  lemma StartGetsPromptThenInvalidFormat(now: Instant, offset: int)
    ensures HandleUpdate(Update(Some(Message(Some("/start")))), now, offset) == Replied([StartPrompt, InvalidFormat])
  {
  }

  /**
    A text that passes the lexical check but not the strict parse makes the handler
    dereference `null`: it throws, and no remaining-time reply is sent.
   */
  lemma AcceptedUnparsableFaults(text: string, now: Instant, offset: int)
    requires IsValidDate(text) && ParseExact(text).None?
    ensures HandleUpdate(Update(Some(Message(Some(text)))), now, offset) == Faulted([], NullValue)
  {
    assert text != "/start";
  }

  /**
    A text that passes both checks gets exactly the remaining-time reply, carrying the span
    `CalculateRemainingTime` computes (the distance to the death instant) and its hour and
    minute components.
   */
  lemma AcceptedParsedReplies(text: string, now: Instant, offset: int)
    requires IsValidDate(text) && ParseExact(text).Some? && 0 <= offset <= MaxOffset
    ensures CalculateRemainingTime(text, now, offset).Span?
    ensures var t := CalculateRemainingTime(text, now, offset).ticks;
      HandleUpdate(Update(Some(Message(Some(text)))), now, offset)
      == Replied([RemainingTime(t, Hours(t), Minutes(t))])
  {
    var birth := ParseExact(text).value;
    AcceptedAndParsedYear(text);
    RemainingOfParsedText(text, birth, now, offset);
    HandleTextOfSpan(text, now, offset);
  }

  lemma AcceptedIsNotStart(text: string)
    requires IsValidDate(text)
    ensures Prompt(text) == []
  {
    assert |text| != |"/start"|;
  }

  lemma HandleTextOfSpan(text: string, now: Instant, offset: int)
    requires IsValidDate(text) && CalculateRemainingTime(text, now, offset).Span?
    ensures var t := CalculateRemainingTime(text, now, offset).ticks;
      HandleText(text, now, offset) == Replied([RemainingTime(t, Hours(t), Minutes(t))])
  {
    AcceptedIsNotStart(text);
  }

  /** `31.02.2020` and `10.11.2010` followed by a line feed both make the handler throw. */
  lemma ImpossibleDateFaults(now: Instant, offset: int)
    ensures HandleUpdate(Update(Some(Message(Some("31.02.2020")))), now, offset) == Faulted([], NullValue)
    ensures HandleUpdate(Update(Some(Message(Some("10.11.2010\n")))), now, offset) == Faulted([], NullValue)
  {
    ThirtyFirstFebruaryAccepted();
    AcceptedUnparsableFaults("31.02.2020", now, offset);
    TrailingLineFeed();
    AcceptedUnparsableFaults("10.11.2010\n", now, offset);
  }

  // ---------------------------------------------------------------- the handler as intended

  /**
    The handler as evidently intended: a failed strict parse (or a date out of range) gets
    the invalid-format reply instead of a throw.
   */
  function HandleUpdateChecked(u: Update, now: Instant, offset: int): (o: Outcome)
    ensures o.Replied?
  {
    match u.message
    case None => Replied([])
    case Some(message) =>
      match message.text
      case None => Replied([])
      case Some(text) =>
        var prompt := Prompt(text);
        var remaining := if IsValidDate(text) then CalculateRemainingTime(text, now, offset) else NoValue;
        match remaining
        case Span(t) => Replied(prompt + [RemainingTime(t, Hours(t), Minutes(t))])
        case _ => Replied(prompt + [InvalidFormat])
  }

  /**
    Every text message gets exactly one date reply after the prompt: the remaining time
    exactly when both checks pass, the invalid-format reply otherwise. Where the handler
    as written replies, both agree.
   */
  lemma CheckedRepliesOnce(u: Update, now: Instant, offset: int)
    requires HasText(u) && 0 <= offset <= MaxOffset
    ensures var text := u.message.value.text.value;
      var rs := HandleUpdateChecked(u, now, offset).replies;
      && |rs| == |Prompt(text)| + 1
      && rs[..|Prompt(text)|] == Prompt(text)
      && (rs[|rs| - 1].RemainingTime? <==> IsValidDate(text) && ParseExact(text).Some?)
      && (rs[|rs| - 1].InvalidFormat? <==> !(IsValidDate(text) && ParseExact(text).Some?))
    ensures HandleUpdate(u, now, offset).Replied? ==> HandleUpdate(u, now, offset) == HandleUpdateChecked(u, now, offset)
  {
    var text := u.message.value.text.value;
    if IsValidDate(text) && ParseExact(text).Some? {
      AcceptedAndParsedYear(text);
      RemainingOfParsedText(text, ParseExact(text).value, now, offset);
    }
  }
}
