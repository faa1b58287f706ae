/** The decision whether the bot answers a text message: always in a
    private chat; elsewhere only when the message addresses the bot and
    mentions no other account. The bot's username, which the program asks
    the platform for, is a parameter. */
module ReplyPolicy {
  import opened PyText

  /** A formatting entity of a message: its kind ("mention", "url", ...)
      and the slice of the text it covers. */
  datatype MessageEntity = MessageEntity(kind: string, offset: int, length: int)

  /** The parts of an incoming message the decision reads; `text` and
      `entities` may be absent. */
  datatype Message = Message(chatType: string, text: Option<string>, entities: Option<seq<MessageEntity>>)

  /** The lower-cased text an entity covers, `text[offset:offset+length].lower()`. */
  function EntityText(text: string, e: MessageEntity): (r: string)
    ensures |r| <= |text|
    ensures 0 <= e.offset && 0 <= e.length && e.offset + e.length <= |text| ==>
      |r| == e.length && forall i :: 0 <= i < e.length ==> r[i] == LowerChar(text[e.offset + i])
  {
    Lower(Slice(text, e.offset, e.offset + e.length))
  }

  /** A group message is addressed to the bot when every mention entity
      names the bot (its lower-cased text contains the lower-cased
      username) and "@" + username occurs in the lower-cased text. */
  ghost predicate AddressedToBot(text: string, entities: seq<MessageEntity>, username: string)
  {
    var bot := Lower(username);
    && (forall k :: 0 <= k < |entities| && entities[k].kind == "mention" ==>
          Occurs(EntityText(text, entities[k]), bot))
    && Occurs(Lower(text), "@" + bot)
  }

  /** `should_reply(msg)`, scanning the entities in order and stopping at
      the first mention that does not name the bot. */
  method ShouldReply(msg: Message, botUsername: string) returns (reply: bool)
    ensures msg.chatType == "private" ==> reply
    ensures msg.chatType != "private" ==>
      (reply <==> AddressedToBot(OrEmpty(msg.text), OrEmpty(msg.entities), botUsername))
  {
    if msg.chatType == "private" {
      return true;
    }
    var text := OrEmpty(msg.text);
    var entities := OrEmpty(msg.entities);
    var bot := Lower(botUsername);
    for i := 0 to |entities|
      invariant forall k :: 0 <= k < i && entities[k].kind == "mention" ==>
        Occurs(EntityText(text, entities[k]), bot)
    {
      var e := entities[i];
      if e.kind == "mention" {
        var mention := EntityText(text, e);
        ContainsIffOccurs(mention, bot);
        if !Contains(mention, bot) {
          return false;
        }
      }
    }
    ContainsIffOccurs(Lower(text), "@" + bot);
    reply := Contains(Lower(text), "@" + bot);
  }

  /** A mention of another account keeps the bot silent in a group even
      when the text also addresses the bot. */
  lemma ForeignMentionSilences(text: string, entities: seq<MessageEntity>, username: string, k: nat)
    requires k < |entities| && entities[k].kind == "mention"
    requires !Occurs(EntityText(text, entities[k]), Lower(username))
    ensures !AddressedToBot(text, entities, username)
  {
  }

  /** Matching is by substring: a mention of a longer handle that contains
      the bot's name, here "@mybot_helper" for the bot "MyBot", counts as
      addressing the bot. */
  lemma LongerHandleCountsAsBot()
    ensures AddressedToBot("@mybot_helper hi", [MessageEntity("mention", 0, 13)], "MyBot")
  {
    var text := "@mybot_helper hi";
    var bot := Lower("MyBot");
    assert bot == "mybot";
    assert Lower(text) == text;
    assert EntityText(text, MessageEntity("mention", 0, 13)) == "@mybot_helper";
    assert OccursAt("@mybot_helper", bot, 1);
    assert OccursAt(Lower(text), "@" + bot, 0);
  }
}
