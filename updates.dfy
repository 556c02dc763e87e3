/** The parts of a messaging-platform update that both scripts read.
    Every dictionary key the scripts fetch with `.get` is an `Option`:
    `None` stands for a key that is absent (or JSON null). */
module Updates {
  import opened Wrappers

  /** `chat` object: its `id` and its `type` ("private", "group", ...). */
  datatype Chat = Chat(id: Option<int>, kind: Option<string>)

  /** `from` object: the sender. */
  datatype User = User(
    id: Option<int>,
    username: Option<string>,
    firstName: Option<string>,
    lastName: Option<string>)

  /** A message or channel post. `text` and `caption` are the two string
      keys the scripts read; `keys` holds the names of the other content keys
      that are present ("photo", "document", "voice", ...). */
  datatype Message = Message(
    chat: Option<Chat>,
    sender: Option<User>,
    messageId: Option<int>,
    text: Option<string>,
    caption: Option<string>,
    keys: set<string>)

  datatype Update = Update(
    updateId: Option<int>,
    message: Option<Message>,
    channelPost: Option<Message>)

  /** Whether key `k` is present in the message dictionary. */
  predicate HasKey(m: Message, k: string)
  {
    if k == "text" then m.text.Some?
    else if k == "caption" then m.caption.Some?
    else k in m.keys
  }

  /** The chat's id, None when the chat or its id is missing. */
  function ChatId(m: Message): Option<int>
  {
    if m.chat.Some? then m.chat.value.id else None
  }

  /** The sender's id, None when the sender or its id is missing. */
  function SenderId(m: Message): Option<int>
  {
    if m.sender.Some? then m.sender.value.id else None
  }
}
