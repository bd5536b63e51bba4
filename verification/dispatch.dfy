/**
 `Jira.callback_message`: compute the reply for an inbound message and hand
 it to the host's send primitive, addressed to the sender of a direct
 message or to the room of a group message.
 */
module Dispatch {
  import opened Wrappers
  import opened Configuration
  import opened Respond

  /** The sender of a message, with the room they spoke in. */
  datatype Sender = Sender(name: string, room: string)

  /** An inbound message as the host delivers it. */
  datatype Message = Message(body: string, isDirect: bool, isGroup: bool, frm: Sender)

  /** Where the host is asked to deliver a reply. */
  datatype Target = ToPerson(who: Sender) | ToRoom(room: string)

  /** One call of the host's `send`. */
  datatype Send = Send(to: Target, text: string)

  /** The send, if any, for a computed reply: an absent or empty reply sends
      nothing, a direct message is answered to its sender, a group message to
      its room, and any other message gets no answer. */
  function Address(mess: Message, text: Option<string>): (s: Option<Send>)
    ensures s.Some? <==> text.Some? && text.value != "" && (mess.isDirect || mess.isGroup)
    ensures s.Some? ==> s.value.text == text.value
    ensures s.Some? && mess.isDirect ==> s.value.to == ToPerson(mess.frm)
    ensures s.Some? && !mess.isDirect ==> s.value.to == ToRoom(mess.frm.room)
  {
    if text.None? || text.value == "" then None
    else if mess.isDirect then Some(Send(ToPerson(mess.frm), text.value))
    else if mess.isGroup then Some(Send(ToRoom(mess.frm.room), text.value))
    else None
  }

  /** The whole handler: the reply text for the message body, then its address. */
  function CallbackMessage(config: Option<Config>, mess: Message, order: seq<string>, lookup: string -> Issue): (r: Result<Option<Send>, Fault>)
    requires Candidates(config, mess.body).Success? ==> Enumerates(order, Candidates(config, mess.body).value)
    ensures r.Failure? <==> ResponseText(config, mess.body, order, lookup).Failure?
    ensures r.Failure? ==> r.error == ResponseText(config, mess.body, order, lookup).error
    ensures r.Success? ==> r.value == Address(mess, ResponseText(config, mess.body, order, lookup).value.reply)
    ensures !Truthy(config) ==> r == Success(None)
  {
    match ResponseText(config, mess.body, order, lookup)
    case Failure(f) => Failure(f)
    case Success(v) => Success(Address(mess, v.reply))
  }

  /** A direct or group message is answered exactly when one of its distinct
      ids has status 200 or 404, and the answer is the chosen reply; the
      empty-text guard never suppresses a chosen reply. */
  lemma CallbackSendsIffDecisive(config: Option<Config>, mess: Message, order: seq<string>, lookup: string -> Issue)
    requires Candidates(config, mess.body).Success? ==> Enumerates(order, Candidates(config, mess.body).value)
    requires CallbackMessage(config, mess, order, lookup).Success?
    ensures CallbackMessage(config, mess, order, lookup).value.Some? <==>
      (mess.isDirect || mess.isGroup) &&
      exists x :: x in Candidates(config, mess.body).value && Decisive(lookup(x).status)
    ensures CallbackMessage(config, mess, order, lookup).value.Some? ==>
      Some(CallbackMessage(config, mess, order, lookup).value.value.text) ==
      ResponseText(config, mess.body, order, lookup).value.reply
  {
    ReplyIffDecisive(config, mess.body, order, lookup);
  }
}
