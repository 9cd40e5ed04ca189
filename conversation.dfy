/** The conversation with the language model: an append-only transcript of
    role-tagged messages. Persisting the transcript to a log file after each
    message is not part of this model. */
module Conversation {

  datatype Role = System | User | Assistant

  datatype Message = Message(role: Role, content: string)

  class Transcript {
    var messages: seq<Message>

    constructor ()
      ensures messages == []
    {
      messages := [];
    }

    /** `add_message`: the only way the transcript changes. */
    method AddMessage(role: Role, content: string)
      modifies this
      ensures messages == old(messages) + [Message(role, content)]
    {
      messages := messages + [Message(role, content)];
    }

    /** `get_messages`. */
    function GetMessages(): seq<Message>
      reads this
    {
      messages
    }
  }

  /** `before` is an earlier state of the transcript `after`. */
  predicate Extends(after: seq<Message>, before: seq<Message>) {
    |before| <= |after| && after[..|before|] == before
  }
}
