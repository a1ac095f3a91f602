/** The login decision of `login_to_timecare`: the ASP.NET hidden inputs of the
    login page are forwarded with the credentials, and the answer to the POST
    decides whether the session is logged in. */
module Login {
  import opened Wrappers
  import opened Text

  /** A hidden `<input>` of the login page, with its `name` and `value`
      attributes when present. */
  datatype HiddenInput = HiddenInput(name: Option<string>, value: Option<string>)

  const UserField: string := "ctl00$ContentMain$txtUserName"
  const PasswordField: string := "ctl00$ContentMain$txtPassword"
  const SubmitField: string := "ctl00$ContentMain$btnLogin"
  const SubmitLabel: string := "Logga in"
  const LoginPage: string := "Login.aspx"
  const HiddenStyle: string := "display:none;"

  /** An input is forwarded when it has a non-empty name and a value. */
  predicate Forwarded(h: HiddenInput)
  {
    h.name.Some? && h.name.value != "" && h.value.Some?
  }

  /** The dictionary `hidden_fields` after the loop over the inputs. */
  function HiddenFields(inputs: seq<HiddenInput>): (fields: map<string, string>)
    ensures forall k :: k in fields ==> k != ""
  {
    if inputs == [] then map[]
    else
      var last := inputs[|inputs| - 1];
      var fields := HiddenFields(inputs[..|inputs| - 1]);
      if Forwarded(last) then fields[last.name.value := last.value.value] else fields
  }

  /** The loop that fills `hidden_fields`, input by input. */
  method CollectHiddenFields(inputs: seq<HiddenInput>) returns (fields: map<string, string>)
    ensures fields == HiddenFields(inputs)
  {
    fields := map[];
    for i := 0 to |inputs|
      invariant fields == HiddenFields(inputs[..i])
    {
      assert inputs[..i + 1][..i] == inputs[..i];
      var h := inputs[i];
      if h.name.Some? && h.name.value != "" && h.value.Some? {
        fields := fields[h.name.value := h.value.value];
      }
    }
    assert inputs[..|inputs|] == inputs;
  }

  /** Input i is the last forwarded input with its name. */
  predicate LastNamed(inputs: seq<HiddenInput>, i: int)
    requires 0 <= i < |inputs| && Forwarded(inputs[i])
  {
    forall j :: i < j < |inputs| && Forwarded(inputs[j]) ==> inputs[j].name != inputs[i].name
  }

  /** A name is in `hidden_fields` exactly when some forwarded input has it. */
  lemma {:induction false} HiddenFieldsKeys(inputs: seq<HiddenInput>, k: string)
    ensures k in HiddenFields(inputs)
            <==> exists i :: 0 <= i < |inputs| && Forwarded(inputs[i]) && inputs[i].name.value == k
  {
    if inputs != [] {
      var n := |inputs| - 1;
      var init := inputs[..n];
      HiddenFieldsKeys(init, k);
      assert forall i :: 0 <= i < n ==> init[i] == inputs[i];
      if exists i :: 0 <= i < |inputs| && Forwarded(inputs[i]) && inputs[i].name.value == k {
        var i :| 0 <= i < |inputs| && Forwarded(inputs[i]) && inputs[i].name.value == k;
        if i < n {
          assert init[i] == inputs[i];
        }
      }
    }
  }

  /** A later input with the same name overwrites an earlier one: the value
      forwarded under a name is that of the last input carrying it. */
  lemma {:induction false} HiddenFieldsLastWins(inputs: seq<HiddenInput>, i: int)
    requires 0 <= i < |inputs| && Forwarded(inputs[i]) && LastNamed(inputs, i)
    ensures inputs[i].name.value in HiddenFields(inputs)
    ensures HiddenFields(inputs)[inputs[i].name.value] == inputs[i].value.value
  {
    var n := |inputs| - 1;
    if i < n {
      var init := inputs[..n];
      assert LastNamed(init, i) by {
        forall j | i < j < n && Forwarded(init[j])
          ensures init[j].name != init[i].name
        {
          assert init[j] == inputs[j];
        }
      }
      HiddenFieldsLastWins(init, i);
    }
  }

  /** `login_data`: the hidden fields, then the user name, the password and
      the submit button, which replace any hidden field of the same name. */
  function LoginForm(hidden: map<string, string>, user: string, password: string): (form: map<string, string>)
    ensures form.Keys == hidden.Keys + {UserField, PasswordField, SubmitField}
    ensures form[UserField] == user && form[PasswordField] == password && form[SubmitField] == SubmitLabel
    ensures forall k :: k in hidden && k != UserField && k != PasswordField && k != SubmitField ==> form[k] == hidden[k]
  {
    hidden[UserField := user][PasswordField := password][SubmitField := SubmitLabel]
  }

  /** What the form carries under each name: the credentials and the button
      label under their own names, the hidden value under every other name,
      and nothing else. */
  lemma LoginFormFields(inputs: seq<HiddenInput>, user: string, password: string, k: string)
    ensures k in LoginForm(HiddenFields(inputs), user, password)
            <==> k in {UserField, PasswordField, SubmitField} || exists i :: 0 <= i < |inputs| && Forwarded(inputs[i]) && inputs[i].name.value == k
    ensures k == UserField ==> LoginForm(HiddenFields(inputs), user, password)[k] == user
    ensures k == PasswordField ==> LoginForm(HiddenFields(inputs), user, password)[k] == password
    ensures k == SubmitField ==> LoginForm(HiddenFields(inputs), user, password)[k] == SubmitLabel
    ensures k !in {UserField, PasswordField, SubmitField} && k in HiddenFields(inputs)
            ==> LoginForm(HiddenFields(inputs), user, password)[k] == HiddenFields(inputs)[k]
  {
    HiddenFieldsKeys(inputs, k);
  }

  /** The POST request the login sends: None when the login page itself did
      not load with status 200, and no request is made. */
  function LoginRequest(pageStatus: int, inputs: seq<HiddenInput>, user: string, password: string)
    : (form: Option<map<string, string>>)
    ensures form.Some? <==> pageStatus == 200
  {
    if pageStatus != 200 then None
    else Some(LoginForm(HiddenFields(inputs), user, password))
  }

  /** The validation summary `<div>` of a page, with its `style` attribute
      when present and its stripped text. */
  datatype Validation = Validation(style: Option<string>, text: string)

  /** The final response to the login POST, after redirects. */
  datatype Response = Response(status: int, url: string, validation: Option<Validation>)

  /** How a login attempt ends. */
  datatype Outcome =
    | PageUnavailable(pageStatus: int)
    | LoggedIn
    | StillOnLoginPage(message: Option<string>)
    | Rejected(status: int)

  /** The decision `login_to_timecare` takes from the two responses: success
      exactly when both pages answer 200 and the final URL is no longer the
      login page; a failure message exactly when the attempt stays on the
      login page and the validation summary exists and is not styled hidden
      (a summary without a style attribute counts as shown). */
  function Decide(pageStatus: int, post: Response): (o: Outcome)
    ensures o.PageUnavailable? <==> pageStatus != 200
    ensures o.LoggedIn? <==> pageStatus == 200 && post.status == 200 && !Contains(post.url, LoginPage)
    ensures (o.StillOnLoginPage? && o.message.Some?)
            <==> && pageStatus == 200 && post.status == 200 && Contains(post.url, LoginPage)
                 && post.validation.Some? && post.validation.value.style != Some(HiddenStyle)
    ensures o.Rejected? <==> pageStatus == 200 && post.status != 200
    ensures o.Rejected? ==> o.status == post.status
  {
    if pageStatus != 200 then PageUnavailable(pageStatus)
    else if post.status == 200 then
      if !Contains(post.url, LoginPage) then LoggedIn
      else
        var shown := post.validation.Some? && post.validation.value.style != Some(HiddenStyle);
        StillOnLoginPage(if shown then Some(post.validation.value.text) else None)
    else Rejected(post.status)
  }
}
