/** What the channel history keeps of a chat message (src/messages/Message.hpp). */
module Messages {
  datatype Flag =
    | System | Timeout | Untimeout | Disabled | PubSub | Whisper
    | SevenTvAdd | SevenTvRemove | SevenTvUpdate
    | DoNotTriggerNotification | OtherFlag(bit: nat)

  /** Times of day (`parseTime`) are in milliseconds since midnight. */
  datatype MessageData = MessageData(
    id: string,
    serverReceivedTime: int,
    parseTime: int,
    flags: set<Flag>,
    loginName: string,
    timeoutUser: string,
    count: nat,
    emotes: seq<string>)

  /** A message object; two messages are the same when they are the same object, as with the
      shared pointers of the source. `Disabled` is the only flag that the channel ever sets on a
      finished message, so it alone is kept as mutable state. */
  class Message {
    const data: MessageData
    var disabled: bool

    constructor (data: MessageData)
      ensures this.data == data && !disabled
    {
      this.data := data;
      disabled := false;
    }

    function View(): MessageData
      reads this
    {
      if disabled then data.(flags := data.flags + {Disabled}) else data
    }
  }

  predicate IsSystem(m: Message) {
    System in m.data.flags
  }

  function Views(s: seq<Message>): (r: seq<MessageData>)
    reads s
    ensures |r| == |s| && forall i :: 0 <= i < |s| ==> r[i] == s[i].View()
  {
    seq(|s|, i requires 0 <= i < |s| reads s => s[i].View())
  }
}
