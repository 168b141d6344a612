/** The sign-up form (frontend/src/pages/Registration.jsx): the password
    match check as a state machine over the component's state cells, driven
    by edits of the three fields, with the validation effect that runs after
    a render in which `checkPassword` changed. */
module Registration {

  /** The component's `useState` cells. */
  datatype RegState = RegState(
    email: string,
    password: string,
    checkPassword: string,
    showErrorMessage: bool,
    checkPasswordClass: string,
    isCheckPasswordDirty: bool)

  const Initial: RegState := RegState("", "", "", false, "bg-white", false)

  const Neutral: string := "bg-white"
  const Matching: string := "border-green-500"
  const Mismatching: string := "border-red-500"

  /** An edit of one of the three fields. */
  datatype RegEvent =
    | EmailChanged(email: string)
    | PasswordChanged(password: string)
    | CheckPasswordChanged(checkPassword: string)

  /** The change handlers: the email input, `handlePasswordFromChild` and
      `handlePasswordCheckFromChild`, whose two updates render together. */
  function ApplyEvent(st: RegState, e: RegEvent): (r: RegState)
    ensures e.EmailChanged? ==> r == st.(email := e.email)
    ensures e.PasswordChanged? ==> r == st.(password := e.password)
    ensures e.CheckPasswordChanged? ==>
              r == st.(checkPassword := e.checkPassword, isCheckPasswordDirty := true)
  {
    match e
    case EmailChanged(v) => st.(email := v)
    case PasswordChanged(v) => st.(password := v)
    case CheckPasswordChanged(v) => st.(checkPassword := v, isCheckPasswordDirty := true)
  }

  /** The body of the validation effect. */
  function Validate(st: RegState): (r: RegState)
    ensures !st.isCheckPasswordDirty ==> r == st
    ensures st.isCheckPasswordDirty ==>
              (r.showErrorMessage <==> st.password != st.checkPassword) &&
              r.checkPasswordClass == (if st.password == st.checkPassword then Matching else Mismatching)
    ensures r.(showErrorMessage := st.showErrorMessage, checkPasswordClass := st.checkPasswordClass) == st
  {
    if st.isCheckPasswordDirty then
      if st.password == st.checkPassword then st.(showErrorMessage := false, checkPasswordClass := Matching)
      else st.(showErrorMessage := true, checkPasswordClass := Mismatching)
    else st
  }

  /** One edit and the render after it: the effect runs only when
      `checkPassword`, its one dependency, changed. */
  function Step(st: RegState, e: RegEvent): RegState {
    var next := ApplyEvent(st, e);
    if next.checkPassword != st.checkPassword then Validate(next) else next
  }

  /** A sequence of edits from a starting state. */
  function Run(st: RegState, es: seq<RegEvent>): RegState
    decreases |es|
  {
    if |es| == 0 then st else Run(Step(st, es[0]), es[1..])
  }

  /** The condition under which "Passwords do not match" is rendered. */
  predicate MismatchMessageShown(st: RegState) {
    st.showErrorMessage && st.isCheckPasswordDirty
  }

  /** What submitting the form does. */
  datatype SubmitOutcome = RegistrationAttempted(email: string, password: string) | PasswordsMismatch

  /** `handleSubmit`: the guard compares the two fields as they are now,
      whatever the message shows. */
  function HandleSubmit(st: RegState): (r: SubmitOutcome)
    ensures r.RegistrationAttempted? <==> st.password == st.checkPassword
    ensures r.RegistrationAttempted? ==> r.email == st.email && r.password == st.password
  {
    if st.password == st.checkPassword then RegistrationAttempted(st.email, st.password) else PasswordsMismatch
  }

  // ---------------------------------------------------------------------
  // Properties of single steps

  /** Editing the confirm field stores the value and marks it dirty; when the
      value changed, validation compares it with the password. */
  lemma ConfirmEdit(st: RegState, v: string)
    ensures var r := Step(st, CheckPasswordChanged(v));
            r.checkPassword == v && r.isCheckPasswordDirty &&
            r.email == st.email && r.password == st.password
    ensures var r := Step(st, CheckPasswordChanged(v));
            v != st.checkPassword ==>
              (r.showErrorMessage <==> st.password != v) &&
              (MismatchMessageShown(r) <==> st.password != v) &&
              r.checkPasswordClass == (if st.password == v then Matching else Mismatching)
    ensures var r := Step(st, CheckPasswordChanged(v));
            v == st.checkPassword ==>
              r.showErrorMessage == st.showErrorMessage && r.checkPasswordClass == st.checkPasswordClass
  {
  }

  /** Editing the password or the email does not re-run validation: the
      error flag and the class stay as they were. */
  lemma OtherEditsKeepValidation(st: RegState, e: RegEvent)
    requires !e.CheckPasswordChanged?
    ensures var r := Step(st, e);
            r.showErrorMessage == st.showErrorMessage &&
            r.checkPasswordClass == st.checkPasswordClass &&
            r.isCheckPasswordDirty == st.isCheckPasswordDirty &&
            r.checkPassword == st.checkPassword
  {
  }

  // ---------------------------------------------------------------------
  // Properties of runs

  /** Nothing resets the dirty flag: once set it stays set, and any edit of
      the confirm field sets it. */
  lemma {:induction false} DirtyStays(st: RegState, es: seq<RegEvent>)
    ensures st.isCheckPasswordDirty ==> Run(st, es).isCheckPasswordDirty
    ensures (exists i :: 0 <= i < |es| && es[i].CheckPasswordChanged?) ==> Run(st, es).isCheckPasswordDirty
    decreases |es|
  {
    if |es| > 0 {
      var next := Step(st, es[0]);
      assert st.isCheckPasswordDirty ==> next.isCheckPasswordDirty;
      DirtyStays(next, es[1..]);
      if i :| 0 <= i < |es| && es[i].CheckPasswordChanged? {
        if i > 0 {
          assert es[1..][i - 1] == es[i];
        }
      }
    }
  }

  /** Without an edit of the confirm field nothing about validation changes. */
  lemma {:induction false} NoConfirmEditNoValidation(st: RegState, es: seq<RegEvent>)
    requires forall i :: 0 <= i < |es| ==> !es[i].CheckPasswordChanged?
    ensures var r := Run(st, es);
            r.showErrorMessage == st.showErrorMessage &&
            r.checkPasswordClass == st.checkPasswordClass &&
            r.isCheckPasswordDirty == st.isCheckPasswordDirty &&
            r.checkPassword == st.checkPassword
    decreases |es|
  {
    if |es| > 0 {
      OtherEditsKeepValidation(st, es[0]);
      NoConfirmEditNoValidation(Step(st, es[0]), es[1..]);
    }
  }

  /** What every reachable state satisfies: until the confirm field is
      dirty the field is neutral and no error is flagged; the error flag is
      set exactly when the class is the mismatch class; and the class is one
      of the three the component uses. */
  ghost predicate Consistent(st: RegState) {
    && (!st.isCheckPasswordDirty ==> st.checkPasswordClass == Neutral && !st.showErrorMessage)
    && (st.showErrorMessage <==> st.checkPasswordClass == Mismatching)
    && st.checkPasswordClass in {Neutral, Matching, Mismatching}
  }

  lemma StepConsistent(st: RegState, e: RegEvent)
    requires Consistent(st)
    ensures Consistent(Step(st, e))
  {
  }

  lemma {:induction false} RunConsistent(st: RegState, es: seq<RegEvent>)
    requires Consistent(st)
    ensures Consistent(Run(st, es))
    decreases |es|
  {
    if |es| > 0 {
      StepConsistent(st, es[0]);
      RunConsistent(Step(st, es[0]), es[1..]);
    }
  }

  /** Every state reachable from the initial one is consistent, and the
      mismatch message shows exactly when the error flag is set. */
  lemma Reachable(es: seq<RegEvent>)
    ensures Consistent(Run(Initial, es))
    ensures MismatchMessageShown(Run(Initial, es)) <==> Run(Initial, es).showErrorMessage
  {
    RunConsistent(Initial, es);
  }

  /** The message describes the fields as they were at the last change of
      the confirm field, not as they are: matching passwords, then a new
      password, leave no message and the matching class while the fields
      differ — and submitting is refused. */
  lemma StaleAfterPasswordEdit()
    ensures var r := Run(Initial, [PasswordChanged("a"), CheckPasswordChanged("a"), PasswordChanged("b")]);
            r.password != r.checkPassword &&
            !MismatchMessageShown(r) && r.checkPasswordClass == Matching &&
            HandleSubmit(r) == PasswordsMismatch
  {
    var s1 := Step(Initial, PasswordChanged("a"));
    var s2 := Step(s1, CheckPasswordChanged("a"));
    var s3 := Step(s2, PasswordChanged("b"));
    assert Run(s3, []) == s3;
  }

  /** The same in general: from any consistent state whose confirm field is
      dirty and shows a match, an edit of the password to anything else shows
      no message and keeps the green class, while submitting is refused. */
  lemma PasswordEditLeavesStaleMatch(st: RegState, p: string)
    requires Consistent(st) && st.isCheckPasswordDirty
    requires st.password == st.checkPassword && st.checkPasswordClass == Matching
    requires p != st.checkPassword
    ensures var r := Step(st, PasswordChanged(p));
            r.password != r.checkPassword &&
            !MismatchMessageShown(r) && r.checkPasswordClass == Matching &&
            HandleSubmit(r) == PasswordsMismatch
  {
  }
}
