/**
 * The signup form's submit handler (app.js line 79-116), as pure functions: the request
 * it sends, and how the reply decides the message, its class, the form reset and the
 * auto-hide.
 */
module Signup {
  import opened Wrappers
  import opened Strings
  import opened Http

  /** The fields of a parsed JSON reply body the handler reads. */
  datatype Body = Body(message: Option<string>, detail: Option<string>)

  /** How a signup request settles: a reply whose body parsed as JSON, with the
      `response.ok` flag; or a rejection of `fetch` or of `response.json()`. */
  datatype SignupReply = Answered(ok: bool, body: Body) | Threw

  /** What the handler does to the page: the message text and class, whether it resets
      the form, whether it schedules the 5-second hide. */
  datatype Feedback = Feedback(text: string, cls: string, resetsForm: bool, schedulesHide: bool)

  const SIGNUP_QUERY := "/signup?email="
  const GENERIC_ERROR := "An error occurred"
  const SIGNUP_FAILURE := "Failed to sign up. Please try again."

  /** The URL of the signup POST (line 87); `enc` stands for `encodeURIComponent`. */
  function SignupUrl(activity: string, email: string, enc: string -> string): (url: string)
    ensures CATALOG_URL + "/" <= url
    ensures |url| == |CATALOG_URL + "/"| + |enc(activity)| + |SIGNUP_QUERY| + |enc(email)|
    ensures url[|url| - |enc(email)|..] == enc(email)
  {
    CATALOG_URL + "/" + enc(activity) + SIGNUP_QUERY + enc(email)
  }

  /** Reads a signup URL back into its encoded activity segment and encoded email. */
  function ParseSignupUrl(url: string): Option<(string, string)>
  {
    var prefix := CATALOG_URL + "/";
    if !(prefix <= url) then None
    else
      var rest := url[|prefix|..];
      var segment := TakeUntil(rest, '/');
      var tail := rest[|segment|..];
      if SIGNUP_QUERY <= tail then Some((segment, tail[|SIGNUP_QUERY|..])) else None
  }

  /** The signup URL names the activity and the email unambiguously, provided the
      encoded activity holds no '/' (`encodeURIComponent` escapes it as "%2F"). */
  lemma SignupUrlRoundTrip(activity: string, email: string, enc: string -> string)
    requires '/' !in enc(activity)
    ensures ParseSignupUrl(SignupUrl(activity, email, enc)) == Some((enc(activity), enc(email)))
  {
    var a, e := enc(activity), enc(email);
    var prefix, rest := CATALOG_URL + "/", a + SIGNUP_QUERY + e;
    assert SignupUrl(activity, email, enc) == prefix + rest;
    assert (prefix + rest)[|prefix|..] == rest;
    SegmentEndsAtQuery(a, e);
  }

  /** After the "/activities/" prefix, the segment runs up to the '/' that opens the query. */
  lemma SegmentEndsAtQuery(a: string, e: string)
    requires '/' !in a
    ensures var rest := a + SIGNUP_QUERY + e;
      && TakeUntil(rest, '/') == a
      && rest[|a|..] == SIGNUP_QUERY + e
      && (SIGNUP_QUERY + e)[|SIGNUP_QUERY|..] == e
  {
    var tail := SIGNUP_QUERY[1..] + e;
    assert a + SIGNUP_QUERY + e == a + ['/'] + tail by {
      assert SIGNUP_QUERY == ['/'] + SIGNUP_QUERY[1..];
    }
    TakeUntilStopsAtSeparator(a, '/', tail);
  }

  /** `result.detail || "An error occurred"`: an absent or empty detail gives the generic text. */
  function ErrorText(detail: Option<string>): (text: string)
    ensures text != ""
    ensures detail.Some? && detail.value != "" ==> text == detail.value
  {
    if detail.Some? && detail.value != "" then detail.value else GENERIC_ERROR
  }

  /** The handler's three outcomes (line 95-102 and 110-113). An accepted reply without a
      message shows "" (assigning `undefined` to `textContent` empties it). */
  function Classify(reply: SignupReply): (fb: Feedback)
    ensures fb.cls == "success" || fb.cls == "error"
    ensures fb.resetsForm ==> fb.cls == "success" && fb.schedulesHide
    ensures fb.cls == "error" ==> fb.text != ""
    ensures !fb.schedulesHide <==> reply.Threw?
  {
    match reply
    case Answered(ok, body) =>
      if ok then Feedback(body.message.GetOr(""), "success", true, true)
      else Feedback(ErrorText(body.detail), "error", false, true)
    case Threw => Feedback(SIGNUP_FAILURE, "error", false, false)
  }

  // ---------------------------------------------------------------------------
  // Properties of the classification

  /** An accepted signup: the server's message, class "success", the form is reset and a hide is scheduled. */
  lemma AcceptedSignup(body: Body)
    ensures var fb := Classify(Answered(true, body));
      && fb.text == (if body.message.Some? then body.message.value else "")
      && fb.cls == "success" && fb.resetsForm && fb.schedulesHide
  {
  }

  /** A refused signup: the server's non-empty detail, otherwise "An error occurred";
      class "error"; the form keeps its values; a hide is scheduled. */
  lemma RefusedSignup(body: Body)
    ensures var fb := Classify(Answered(false, body));
      && (body.detail.Some? && body.detail.value != "" ==> fb.text == body.detail.value)
      && (body.detail.None? || body.detail == Some("") ==> fb.text == "An error occurred")
      && fb.cls == "error" && !fb.resetsForm && fb.schedulesHide
  {
  }

  /** A transport or parse failure: the fixed failure text, class "error", no reset and no scheduled hide. */
  lemma FailedSignup()
    ensures Classify(Threw) == Feedback("Failed to sign up. Please try again.", "error", false, false)
  {
  }

  /** The form is reset exactly on an accepted reply; a hide is scheduled exactly when a reply was read. */
  lemma ResetAndHideIff(reply: SignupReply)
    ensures Classify(reply).resetsForm <==> reply.Answered? && reply.ok
    ensures Classify(reply).schedulesHide <==> reply.Answered?
    ensures Classify(reply).cls == "success" <==> reply.Answered? && reply.ok
  {
  }

  /** Every path that is not an accepted reply shows a non-empty error text. */
  lemma FailuresAreReported(reply: SignupReply)
    requires !(reply.Answered? && reply.ok)
    ensures Classify(reply).cls == "error" && Classify(reply).text != ""
  {
  }

  /** The generic error text shows exactly when the detail is absent, empty, or itself that text. */
  lemma GenericErrorIff(detail: Option<string>)
    ensures ErrorText(detail) == GENERIC_ERROR <==> detail in {None, Some(""), Some(GENERIC_ERROR)}
  {
  }
}
