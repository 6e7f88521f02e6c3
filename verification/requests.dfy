/** The two requests the page sends to the activity service, and the click
    handler on the activity list that turns a delete control into an
    unregister request. `encodeURIComponent` is a browser built-in; it is a
    parameter here and only the shape of the path around it is modelled. */
module Requests {
  import opened Wrappers

  /** What the user asked for. */
  datatype Action = Signup | Unregister

  datatype HttpMethod = Post | Delete

  datatype Request = Request(verb: HttpMethod, path: string)

  const ActivitiesPrefix: string := "/activities/"
  const SignupSuffix: string := "/signup?email="
  const UnregisterSuffix: string := "/participants?email="

  /** The fixed text between the encoded activity name and the encoded email. */
  function Suffix(a: Action): string {
    match a
    case Signup => SignupSuffix
    case Unregister => UnregisterSuffix
  }

  /** The request the page sends for `action` on (`activity`, `email`):
      a POST to `/activities/{activity}/signup?email={email}` for a signup,
      a DELETE to `/activities/{activity}/participants?email={email}` for an
      unregister, both values passed through `encode`. */
  function RequestFor(action: Action, activity: string, email: string, encode: string -> string): (r: Request)
    ensures r.verb == Post <==> action == Signup
    ensures ActivitiesPrefix <= r.path
  {
    Request(if action == Signup then Post else Delete,
            ActivitiesPrefix + encode(activity) + Suffix(action) + encode(email))
  }

  /** Position of the first `c` in `s`, or `|s|` when there is none. */
  function IndexOf(s: string, c: char): (k: nat)
    ensures k <= |s|
    ensures forall j | 0 <= j < k :: s[j] != c
    ensures k < |s| ==> s[k] == c
    decreases |s|
  {
    if |s| == 0 then 0
    else if s[0] == c then 0
    else 1 + IndexOf(s[1..], c)
  }

  /** Reads a request path back into the action, the encoded activity name
      (the text up to the next `/`) and the encoded email. */
  function ParsePath(path: string): Option<(Action, string, string)> {
    if !(ActivitiesPrefix <= path) then None
    else
      var rest := path[|ActivitiesPrefix|..];
      var k := IndexOf(rest, '/');
      match ParseTail(rest[k..])
      case Some((action, email)) => Some((action, rest[..k], email))
      case None => None
  }

  /** Reads the part of a path after the activity name. */
  function ParseTail(tail: string): Option<(Action, string)> {
    if SignupSuffix <= tail then Some((Signup, tail[|SignupSuffix|..]))
    else if UnregisterSuffix <= tail then Some((Unregister, tail[|UnregisterSuffix|..]))
    else None
  }

  lemma IndexOfFirst(a: string, b: string, c: char)
    requires forall j | 0 <= j < |a| :: a[j] != c
    requires 0 < |b| && b[0] == c
    ensures IndexOf(a + b, c) == |a|
    decreases |a|
  {
    if |a| != 0 {
      assert (a + b)[1..] == a[1..] + b;
      IndexOfFirst(a[1..], b, c);
    }
  }

  lemma ParseTailSuffix(action: Action, e: string)
    ensures ParseTail(Suffix(action) + e) == Some((action, e))
  {
    var tail := Suffix(action) + e;
    assert Suffix(action) <= tail;
    assert tail[|Suffix(action)|..] == e;
    if action == Unregister {
      assert tail[1] == 'p';
      assert SignupSuffix[1] == 's';
    }
  }

  /** When the encoded activity name holds no `/`, the path the page builds
      determines the action, the encoded activity name and the encoded email. */
  lemma ParseRequestFor(action: Action, activity: string, email: string, encode: string -> string)
    requires forall j | 0 <= j < |encode(activity)| :: encode(activity)[j] != '/'
    ensures ParsePath(RequestFor(action, activity, email, encode).path)
            == Some((action, encode(activity), encode(email)))
  {
    var a, e, sfx := encode(activity), encode(email), Suffix(action);
    var path := RequestFor(action, activity, email, encode).path;
    var rest := a + (sfx + e);
    assert path == ActivitiesPrefix + rest;
    assert path[|ActivitiesPrefix|..] == rest;
    IndexOfFirst(a, sfx + e, '/');
    assert rest[..|a|] == a;
    assert rest[|a|..] == sfx + e;
    ParseTailSuffix(action, e);
  }

  /** With an encoder that is one-to-one and never writes `/`, different
      actions or different (activity, email) pairs yield different requests. */
  lemma RequestForInjective(a1: Action, n1: string, e1: string, a2: Action, n2: string, e2: string,
                            encode: string -> string)
    requires forall j | 0 <= j < |encode(n1)| :: encode(n1)[j] != '/'
    requires forall j | 0 <= j < |encode(n2)| :: encode(n2)[j] != '/'
    requires encode(n1) == encode(n2) ==> n1 == n2
    requires encode(e1) == encode(e2) ==> e1 == e2
    requires RequestFor(a1, n1, e1, encode) == RequestFor(a2, n2, e2, encode)
    ensures a1 == a2 && n1 == n2 && e1 == e2
  {
    ParseRequestFor(a1, n1, e1, encode);
    ParseRequestFor(a2, n2, e2, encode);
  }

  /** A stand-in for the browser's encoder on the two example values. */
  function ExampleEncode(s: string): string {
    if s == "Chess Club" then "Chess%20Club" else if s == "a@x.com" then "a%40x.com" else s
  }

  /** With an encoder that writes the space as `%20` and `@` as `%40`,
      removing "a@x.com" from "Chess Club" deletes
      `/activities/Chess%20Club/participants?email=a%40x.com`. */
  lemma UnregisterChessClubExample()
    ensures RequestFor(Unregister, "Chess Club", "a@x.com", ExampleEncode)
            == Request(Delete, "/activities/Chess%20Club/participants?email=a%40x.com")
  {
    var a, e := ExampleEncode("Chess Club"), ExampleEncode("a@x.com");
    assert a == "Chess%20Club";
    assert "a@x.com" != "Chess Club";
    assert e == "a%40x.com";
    var head := ActivitiesPrefix + a;
    assert head == "/activities/Chess%20Club";
    var middle := head + UnregisterSuffix;
    assert middle == "/activities/Chess%20Club/participants?email=";
    assert middle + e == "/activities/Chess%20Club/participants?email=a%40x.com";
  }

  // -----------------------------------------------------------------------
  // The click handler on the activity list.

  /** The element a click on the activity list lands on: a delete control
      carrying its `data-activity` and `data-email` values, or anything
      else. */
  datatype ClickTarget = DeleteControl(activity: string, email: string) | OtherElement

  /** A click on a delete control sends the unregister request for the pair
      the control carries; a click anywhere else sends nothing. */
  function OnListClick(target: ClickTarget, encode: string -> string): (r: Option<Request>)
    ensures r.Some? <==> target.DeleteControl?
    ensures r.Some? ==> r.value.verb == Delete
    ensures r.Some? ==> r.value == RequestFor(Unregister, target.activity, target.email, encode)
  {
    match target
    case DeleteControl(activity, email) => Some(RequestFor(Unregister, activity, email, encode))
    case OtherElement => None
  }
}
