/** What the page does with the single feedback message once a signup or an
    unregister request has finished: the text and class it gives the
    message, whether it resets the signup form, whether it reloads the
    activity list, and after how many milliseconds it hides the message.
    The network call and the timer are outside the model; only their
    results and the decision taken on them are modelled. */
module Feedback {
  import opened Wrappers
  import opened Requests

  /** A reply the service sent, with its JSON body read: `response.ok`, and
      the `message` and `detail` fields when they are present as strings. */
  datatype Reply = Reply(ok: bool, message: Option<string>, detail: Option<string>)

  /** How a request ended: it threw (the fetch was rejected, or the body was
      not JSON), or a reply came back. */
  datatype Completion = Threw | Replied(reply: Reply)

  /** The decision taken on a completion. */
  datatype Outcome = Outcome(
    text: string,               // text of the feedback message
    style: string,              // class attribute of the feedback message
    resetForm: bool,            // the signup form is cleared
    refresh: bool,              // the activity list is fetched and drawn again
    hideAfterMs: Option<nat>)   // delay of the timer that hides the message, if one is set

  const SuccessStyle: string := "message success"
  const ErrorStyle: string := "message error"
  /** The class the signup handler's catch branch sets. */
  const BareErrorStyle: string := "error"

  const SignupFallback: string := "An error occurred"
  const UnregisterFallback: string := "Failed to unregister"
  const SignupFailureText: string := "Failed to sign up. Please try again."
  const UnregisterFailureText: string := "Failed to unregister. Please try again."

  const SignupHideMs: nat := 5000
  const UnregisterHideMs: nat := 4000

  /** Assigning `result.message` to `textContent`: an absent field gives
      empty text. */
  function ShownMessage(message: Option<string>): (r: string)
    ensures message.Some? ==> r == message.value
    ensures message.None? ==> r == ""
  {
    message.GetOr("")
  }

  /** `result.detail || fallback`: the detail when it is a non-empty string,
      the fallback otherwise (an empty string is falsy). */
  function DetailOr(detail: Option<string>, fallback: string): (r: string)
    ensures r == fallback || (detail.Some? && r == detail.value)
    ensures detail.Some? && detail.value != "" ==> r == detail.value
    ensures (detail.None? || detail.value == "") ==> r == fallback
    ensures fallback != "" ==> r != ""
  {
    match detail
    case Some(d) => if d != "" then d else fallback
    case None => fallback
  }

  /** The signup form's submit handler after its request has finished. */
  function SignupOutcome(c: Completion): Outcome {
    match c
    case Replied(r) =>
      if r.ok then Outcome(ShownMessage(r.message), SuccessStyle, true, true, Some(SignupHideMs))
      else Outcome(DetailOr(r.detail, SignupFallback), ErrorStyle, false, false, Some(SignupHideMs))
    case Threw => Outcome(SignupFailureText, BareErrorStyle, false, false, None)
  }

  /** The delete-control click handler after its request has finished: the
      list is reloaded whether the reply was ok or not. */
  function UnregisterOutcome(c: Completion): Outcome {
    match c
    case Replied(r) =>
      if r.ok then Outcome(ShownMessage(r.message), SuccessStyle, false, true, Some(UnregisterHideMs))
      else Outcome(DetailOr(r.detail, UnregisterFallback), ErrorStyle, false, true, Some(UnregisterHideMs))
    case Threw => Outcome(UnregisterFailureText, ErrorStyle, false, false, None)
  }

  /** The outcome for either handler, stated column by column. */
  function Decide(action: Action, c: Completion): (o: Outcome)
    // refresh: any reply to an unregister, only an ok reply to a signup
    ensures o.refresh <==> c.Replied? && (action == Unregister || c.reply.ok)
    // reset: only an ok reply to a signup
    ensures o.resetForm <==> action == Signup && c.Replied? && c.reply.ok
    // timer: set on every reply, never when the request threw
    ensures o.hideAfterMs.Some? <==> c.Replied?
    ensures c.Replied? ==> o.hideAfterMs.value == (if action == Signup then SignupHideMs else UnregisterHideMs)
    // class
    ensures o.style == SuccessStyle <==> c.Replied? && c.reply.ok
    ensures o.style == BareErrorStyle <==> action == Signup && c.Threw?
    ensures o.style == ErrorStyle <==> (c.Replied? && !c.reply.ok) || (action == Unregister && c.Threw?)
    // text
    ensures c.Replied? && c.reply.ok ==> o.text == ShownMessage(c.reply.message)
    ensures c.Replied? && !c.reply.ok ==>
              o.text == DetailOr(c.reply.detail, if action == Signup then SignupFallback else UnregisterFallback)
    ensures c.Threw? ==> o.text == (if action == Signup then SignupFailureText else UnregisterFailureText)
    ensures o.style != SuccessStyle ==> o.text != ""
  {
    match action
    case Signup => SignupOutcome(c)
    case Unregister => UnregisterOutcome(c)
  }

  /** For the same completion the two handlers agree on the class, except in
      the catch branch, and never both reset the form. */
  lemma HandlersCompared(c: Completion)
    ensures c.Replied? ==> Decide(Signup, c).style == Decide(Unregister, c).style
    ensures c.Threw? ==> Decide(Signup, c).style != Decide(Unregister, c).style
    ensures !Decide(Unregister, c).resetForm
    ensures Decide(Signup, c).refresh ==> Decide(Unregister, c).refresh
    ensures c.Replied? && !c.reply.ok ==> Decide(Unregister, c).refresh && !Decide(Signup, c).refresh
  {
  }

  /** A successful signup shows the server's message as a success, clears the
      form and reloads the list. */
  lemma SignupSucceeded()
    ensures Decide(Signup, Replied(Reply(true, Some("Signed up!"), None)))
            == Outcome("Signed up!", "message success", true, true, Some(5000))
  {
  }

  /** A rejected signup shows the server's detail as an error, keeps the form
      and does not reload the list. */
  lemma SignupRejected()
    ensures Decide(Signup, Replied(Reply(false, None, Some("Already registered"))))
            == Outcome("Already registered", "message error", false, false, Some(5000))
  {
  }
}
