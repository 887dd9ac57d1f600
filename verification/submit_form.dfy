/** The idea form (SubmitIdea.js): the form data built from the
    configuration, conditional fields, the two completeness rules behind the
    "Save as Draft" and "Submit Idea" buttons, and the submission with its
    guard against a second click while a request is in flight. */
module SubmitForm {
  import opened Wrappers
  import Text
  import Seqs
  import opened FormConfig

  /** A form value: text, or the list a multi-select produces. */
  datatype Value = Str(s: string) | Many(items: seq<string>)

  /** `formData`: field name to value; a name with no entry is `undefined`. */
  type FormData = map<string, Value>

  function Get(data: FormData, name: string): Option<Value>
  {
    if name in data then Some(data[name]) else None
  }

  /** `getInitialFormState`: every configured field name starts as ''. */
  function InitialData(c: Config): (data: FormData)
    ensures forall k :: 0 <= k < |c| ==> Get(data, c[k].name) == Some(Str(""))
    ensures forall name :: name in data ==> exists k :: 0 <= k < |c| && c[k].name == name
    ensures forall name :: name in data ==> data[name] == Str("")
  {
    if |c| == 0 then map[]
    else
      var rest := InitialData(c[1..]);
      assert forall name :: name in rest ==> exists k :: 0 <= k < |c| && c[k].name == name by {
        forall name | name in rest ensures exists k :: 0 <= k < |c| && c[k].name == name {
          var j :| 0 <= j < |c[1..]| && c[1..][j].name == name;
          assert c[j + 1].name == name;
        }
      }
      rest[c[0].name := Str("")]
  }

  /** `handleChange`: the named entry takes the new value; no other entry changes. */
  function HandleChange(data: FormData, name: string, value: Value): (r: FormData)
    ensures Get(r, name) == Some(value)
    ensures forall other :: other != name ==> Get(r, other) == Get(data, other)
  {
    data[name := value]
  }

  /** `formData[field.dependsOn] !== field.dependsOnValue`: strict equality,
      so a list never equals the expected text, and a missing value equals a
      missing expectation. */
  predicate DependencyUnmet(f: Field, data: FormData)
  {
    var actual := Get(data, f.dependsOn.GetOr(""));
    !((actual.None? && f.dependsOnValue.None?)
      || (actual.Some? && actual.value.Str? && f.dependsOnValue == Some(actual.value.s)))
  }

  /** A field is hidden when it names a dependency (a non-empty one: '' is
      falsy) whose value is not the expected one. */
  predicate Hidden(f: Field, data: FormData)
  {
    f.dependsOn.Some? && f.dependsOn.value != "" && DependencyUnmet(f, data)
  }

  /** The value counts as missing: `undefined`, '' (falsy), or a string that
      trims to ''. A list, even an empty one, is truthy and never missing. */
  predicate Blank(v: Option<Value>)
  {
    v.None? || (v.value.Str? && Text.IsBlank(v.value.s))
  }

  /** What the loop of `isSubmittable` demands of one field. */
  predicate FieldOk(f: Field, data: FormData)
  {
    !f.required || Hidden(f, data) || !Blank(Get(data, f.name))
  }

  /** `isSubmittable`: the loop stops at the first required, shown field
      whose value is missing. */
  function Submittable(c: Config, data: FormData): (r: bool)
    ensures r <==> forall k :: 0 <= k < |c| ==> FieldOk(c[k], data)
  {
    if |c| == 0 then true
    else if c[0].required && !Hidden(c[0], data) && Blank(Get(data, c[0].name)) then false
    else
      var rest := Submittable(c[1..], data);
      assert forall k :: 1 <= k < |c| ==> c[k] == c[1..][k - 1];
      rest
  }

  /** The fields the form renders, in order (the `return null` of the map). */
  function Shown(c: Config, data: FormData): (r: Config)
    ensures forall k :: 0 <= k < |r| ==> r[k] in c && !Hidden(r[k], data)
    ensures forall k :: 0 <= k < |c| && !Hidden(c[k], data) ==> c[k] in r
    ensures Seqs.IsSubsequence(r, c)
  {
    Seqs.FilterIsSubsequence(c, (f: Field) => !Hidden(f, data));
    Seqs.Filter(c, (f: Field) => !Hidden(f, data))
  }

  /** Rendering and checking agree: the form can be submitted exactly when
      every required field on screen has a value. */
  lemma SubmittableIffShownFilled(c: Config, data: FormData)
    ensures Submittable(c, data) <==>
      forall k :: 0 <= k < |Shown(c, data)| && Shown(c, data)[k].required ==>
        !Blank(Get(data, Shown(c, data)[k].name))
  {
    var s := Shown(c, data);
    if Submittable(c, data) {
      forall k | 0 <= k < |s| && s[k].required ensures !Blank(Get(data, s[k].name)) {
        var j :| 0 <= j < |c| && c[j] == s[k];
        assert FieldOk(c[j], data);
      }
    } else {
      var j :| 0 <= j < |c| && !FieldOk(c[j], data);
      var k :| 0 <= k < |s| && s[k] == c[j];
      assert s[k].required && Blank(Get(data, s[k].name));
    }
  }

  /** Typing into a field that no other field depends on moves the form
      toward submission and never away from it: a filled value keeps a
      submittable form submittable, and emptying a required field that is
      on screen makes the form unsubmittable. */
  lemma HandleChangeAndSubmittable(c: Config, data: FormData, name: string, value: Value)
    requires forall k :: 0 <= k < |c| ==> c[k].dependsOn != Some(name)
    ensures Submittable(c, data) && !Blank(Some(value)) ==> Submittable(c, HandleChange(data, name, value))
    ensures Blank(Some(value)) ==>
      (exists k :: 0 <= k < |c| && c[k].name == name && c[k].required && !Hidden(c[k], data)) ==>
      !Submittable(c, HandleChange(data, name, value))
  {
    var d := HandleChange(data, name, value);
    forall k | 0 <= k < |c| ensures Hidden(c[k], d) == Hidden(c[k], data) {
      if c[k].dependsOn.Some? {
        assert Get(d, c[k].dependsOn.value) == Get(data, c[k].dependsOn.value);
      }
    }
    if Submittable(c, data) && !Blank(Some(value)) {
      forall k | 0 <= k < |c| ensures FieldOk(c[k], d) {
        assert FieldOk(c[k], data);
      }
    }
    if (exists k :: 0 <= k < |c| && c[k].name == name && c[k].required && !Hidden(c[k], data)) && Blank(Some(value)) {
      var k :| 0 <= k < |c| && c[k].name == name && c[k].required && !Hidden(c[k], data);
      assert !FieldOk(c[k], d);
    }
  }

  /** Filling the title of a form whose employee name is filled makes it
      savable as a draft, and emptying either field makes it unsavable. */
  lemma HandleChangeAndDraftable(data: FormData, title: string)
    ensures Draftable(data) ==> Get(data, "employeeName") == Get(HandleChange(data, "ideaTitle", Str(title)), "employeeName")
    ensures Draftable(HandleChange(data, "ideaTitle", Str(title))) <==>
      && Get(data, "employeeName").Some? && Get(data, "employeeName").value.Str?
      && !Text.IsBlank(Get(data, "employeeName").value.s) && !Text.IsBlank(title)
    ensures !Draftable(HandleChange(data, "employeeName", Str("")))
  {
  }

  /** `isDraftable`: employee name and title both non-blank. */
  predicate Draftable(data: FormData)
  {
    && Get(data, "employeeName").Some? && Get(data, "employeeName").value.Str?
    && !Text.IsBlank(Get(data, "employeeName").value.s)
    && Get(data, "ideaTitle").Some? && Get(data, "ideaTitle").value.Str?
    && !Text.IsBlank(Get(data, "ideaTitle").value.s)
  }

  /** Whenever the default form can be submitted it can be saved as a draft:
      its name and title fields are required and never hidden. */
  lemma SubmittableDefaultIsDraftable(data: FormData)
    requires Submittable(Default, data)
    requires forall name :: name in data ==> data[name].Str?
    ensures Draftable(data)
  {
    assert FieldOk(Default[0], data);
    assert FieldOk(Default[2], data);
  }

  /** A fresh form can never be saved as a draft, and cannot be submitted
      as soon as one field is required and unconditional (as every default
      field but "dataSources" is). */
  lemma FreshFormIsEmpty(c: Config, k: nat)
    requires k < |c| && c[k].required && c[k].dependsOn.None?
    ensures !Submittable(c, InitialData(c))
    ensures !Draftable(InitialData(c))
  {
    var d := InitialData(c);
    assert Get(d, c[k].name) == Some(Str(""));
    assert Text.IsBlank("");
    assert !FieldOk(c[k], d);
    assert Get(d, "employeeName").None? || Get(d, "employeeName") == Some(Str(""));
  }

  lemma FreshDefaultIsEmpty()
    ensures !Submittable(Default, InitialData(Default))
    ensures !Draftable(InitialData(Default))
  {
    DefaultShape();
    DefaultOthersUnconditional();
    FreshFormIsEmpty(Default, 0);
  }

  // ---------------------------------------------------------------------
  // submission

  datatype Status = Draft | Submitted

  function StatusName(s: Status): string
  {
    match s
    case Draft => "Draft"
    case Submitted => "Submitted"
  }

  datatype Method = Post | Put

  /** The request body: the form data with `status`, `submissionDate` (an
      abstract instant) and `userId` added. */
  datatype Request = Request(verb: Method, ideaId: Option<int>, data: FormData, status: string,
                             submissionDate: int, userId: int)

  /** The page's state. */
  datatype Page = Page(data: FormData, message: string, isError: bool, submitting: Option<Status>)

  /** `handleSubmit` up to the request: nothing while another submission is
      in flight; otherwise the status is remembered, the message cleared, and
      the idea being edited (if any) is updated with PUT, else a new one is
      created with POST. */
  function StartSubmit(p: Page, status: Status, editing: Option<int>, userId: int, now: int): (r: (Page, Option<Request>))
    ensures p.submitting.Some? ==> r == (p, None)
    ensures p.submitting.None? ==>
      && r.0 == p.(submitting := Some(status), message := "")
      && r.1.Some?
      && r.1.value.data == p.data && r.1.value.status == StatusName(status) && r.1.value.userId == userId
      && (editing.Some? ==> r.1.value.verb == Put && r.1.value.ideaId == editing)
      && (editing.None? ==> r.1.value.verb == Post && r.1.value.ideaId.None?)
  {
    if p.submitting.Some? then (p, None)
    else
      var m := if editing.Some? then Put else Post;
      (p.(submitting := Some(status), message := ""),
       Some(Request(m, editing, p.data, StatusName(status), now, userId)))
  }

  /** A second click while the first request is pending sends nothing. */
  lemma NoDoubleSubmit(p: Page, first: Status, second: Status, editing: Option<int>, userId: int, now: int, later: int)
    requires p.submitting.None?
    ensures var (p1, req1) := StartSubmit(p, first, editing, userId, now);
      req1.Some? && StartSubmit(p1, second, editing, userId, later) == (p1, None)
  {
  }

  /** What came back: JSON with a 2xx status, JSON with an error status, a
      body that is not JSON, or a request that threw. */
  datatype Response =
    | OkJson(id: Option<int>)
    | ErrorJson(status: nat, error: Option<string>, statusText: string)
    | NotJson(status: nat, body: string)
    | Threw(errorMessage: string)

  /** Where the page goes next. */
  datatype Next = Stay | ToReviewMyIdeas(newIdeaId: Option<int>)

  /** The rest of `handleSubmit`: success moves to "My Ideas" with the new
      id (or, for a falsy id, the edited one); a failure shows a message;
      either way the in-flight flag is cleared. */
  function FinishSubmit(p: Page, editing: Option<int>, response: Response): (r: (Page, Next))
    ensures r.0.submitting.None? && r.0.data == p.data
    ensures response.OkJson? ==> r.1.ToReviewMyIdeas? && r.0.message == p.message
    ensures response.OkJson? && response.id.Some? && response.id.value != 0 ==> r.1 == ToReviewMyIdeas(response.id)
    ensures !response.OkJson? ==> r.1 == Stay && r.0.isError && r.0.message != ""
  {
    match response
    case OkJson(id) =>
      var target := if id.Some? && id.value != 0 then id else editing;
      (p.(submitting := None), ToReviewMyIdeas(target))
    case ErrorJson(status, error, statusText) =>
      var m := if error.Some? && error.value != "" then error.value else "Error: " + statusText;
      (p.(submitting := None, message := m, isError := true), Stay)
    case NotJson(status, body) =>
      var cut := Text.Utf16Prefix(body, 100);
      (p.(submitting := None, message := "Server returned " + Text.NatToString(status) + ": " + cut,
          isError := true), Stay)
    case Threw(msg) =>
      var m := if msg != "" then msg else "An unexpected error occurred during submission.";
      (p.(submitting := None, message := m, isError := true), Stay)
  }

  /** After any answer the buttons work again: a new submission is sent. */
  lemma SubmitAgainAfterAnswer(p: Page, editing: Option<int>, response: Response, status: Status,
                               userId: int, now: int)
    ensures StartSubmit(FinishSubmit(p, editing, response).0, status, editing, userId, now).1.Some?
  {
  }

  /** The two buttons: each is enabled only when its rule holds and nothing
      is in flight. */
  predicate CanClick(c: Config, p: Page, status: Status)
  {
    p.submitting.None? && (if status == Draft then Draftable(p.data) else Submittable(c, p.data))
  }

  /** A submission reaching the server as "Submitted" carries a complete form. */
  lemma ClickedSubmitIsComplete(c: Config, p: Page, editing: Option<int>, userId: int, now: int)
    requires CanClick(c, p, Submitted)
    ensures var req := StartSubmit(p, Submitted, editing, userId, now).1;
      req.Some? && req.value.status == "Submitted" && Submittable(c, req.value.data)
  {
  }
}
