/**
 The error raised when a task is given an empty description. It stores the
 word naming the task type and renders a fixed sentence around it.
 */
module EmptyDescription {
  import opened Wrappers

  const Prefix: string := " OOPS!!! The description of a "
  const Suffix: string := " cannot be empty.\n"

  datatype EmptyDescriptionException = EmptyDescriptionException(taskType: string)

  /** The constructor: stores the task-type word as given. */
  function New(taskType: string): (e: EmptyDescriptionException)
    ensures e.taskType == taskType
  {
    EmptyDescriptionException(taskType)
  }

  /** The message: the task-type word framed by a fixed prefix and suffix. */
  function ToString(e: EmptyDescriptionException): (msg: string)
    ensures |msg| == |Prefix| + |e.taskType| + |Suffix|
    ensures msg[..|Prefix|] == Prefix
    ensures msg[|msg| - |Suffix|..] == Suffix
    ensures msg[|Prefix|..|msg| - |Suffix|] == e.taskType
  {
    Prefix + e.taskType + Suffix
  }

  /** Recovers the task-type word from a message, if the message has the fixed frame. */
  function TypeOfMessage(msg: string): (r: Option<string>)
    ensures r.Some? ==> |msg| == |Prefix| + |r.value| + |Suffix|
  {
    if |msg| >= |Prefix| + |Suffix| && msg[..|Prefix|] == Prefix && msg[|msg| - |Suffix|..] == Suffix
    then Some(msg[|Prefix|..|msg| - |Suffix|])
    else None
  }

  /** Reading the task-type word back from a message gives the stored word. */
  lemma ReadMessage(e: EmptyDescriptionException)
    ensures TypeOfMessage(ToString(e)) == Some(e.taskType)
  {
  }

  /** Every message that has the fixed frame is the message of the word inside it. */
  lemma MessageOfReadType(msg: string)
    requires TypeOfMessage(msg).Some?
    ensures ToString(New(TypeOfMessage(msg).value)) == msg
  {
  }

  /** Distinct task-type words give distinct messages. */
  lemma MessageInjective(a: string, b: string)
    ensures ToString(New(a)) == ToString(New(b)) <==> a == b
  {
  }
}
