/** The change-password handler (`handleChangePassword`): three client-side
    checks, then three awaited remote calls inside one try/catch/finally.
    The remote calls are abstract: each either succeeds or fails with the
    message of the error it throws. */
module ChangePassword {
  import opened Wrappers

  /** The awaited remote calls, in program order: `reauthenticateWithCredential`,
      `updatePassword`, and the `updateDoc` that records `passwordLastUpdated`. */
  datatype RemoteStep = Reauthenticate | UpdatePassword | RecordTimestamp

  datatype StepOutcome = Succeeds | Fails(message: string)

  /** What each remote call would do if it were made. */
  datatype Remote = Remote(reauthenticate: StepOutcome, updatePassword: StepOutcome, recordTimestamp: StepOutcome)

  const RemoteOrder: seq<RemoteStep> := [Reauthenticate, UpdatePassword, RecordTimestamp]

  function OutcomeOf(remote: Remote, step: RemoteStep): StepOutcome {
    match step
    case Reauthenticate => remote.reauthenticate
    case UpdatePassword => remote.updatePassword
    case RecordTimestamp => remote.recordTimestamp
  }

  /** The calls made and the message of the error that ended them, if any. */
  datatype Attempt = Attempt(attempted: seq<RemoteStep>, error: Option<string>)

  /** Awaits `steps` one after another; the first that throws skips the rest. */
  function RunRemote(remote: Remote, steps: seq<RemoteStep>): (a: Attempt)
    ensures |a.attempted| <= |steps| && a.attempted == steps[..|a.attempted|]
    ensures a.error.None? <==> forall i | 0 <= i < |steps| :: OutcomeOf(remote, steps[i]).Succeeds?
    ensures a.error.None? ==> a.attempted == steps
    ensures a.error.Some? ==>
              && |a.attempted| > 0
              && OutcomeOf(remote, a.attempted[|a.attempted| - 1]) == Fails(a.error.value)
              && forall i | 0 <= i < |a.attempted| - 1 :: OutcomeOf(remote, a.attempted[i]).Succeeds?
  {
    if |steps| == 0 then Attempt([], None)
    else
      match OutcomeOf(remote, steps[0])
      case Fails(m) => Attempt([steps[0]], Some(m))
      case Succeeds =>
        var rest := RunRemote(remote, steps[1..]);
        assert steps == [steps[0]] + steps[1..];
        Attempt([steps[0]] + rest.attempted, rest.error)
  }

  /** What the handler leaves behind: the alert it shows, the remote calls it
      made, its `setLoading` calls in order, and whether it navigated back. */
  datatype Handled = Handled(alert: Alert, attempted: seq<RemoteStep>, loadingWrites: seq<bool>, navigatedBack: bool)

  const FillAllFieldsAlert := Alert("Error", "Please fill in all fields.")
  const MismatchAlert := Alert("Error", "New password and confirm password do not match.")
  const NotLoggedInAlert := Alert("Error", "User is not logged in.")
  const ChangedAlert := Alert("Success", "Your password has been changed successfully.")

  /** The `loading` flag after a sequence of `setLoading` calls. */
  function LoadingAfter(before: bool, writes: seq<bool>): bool {
    if |writes| == 0 then before else writes[|writes| - 1]
  }

  /** `handleChangePassword`. `userPresent` stands for `auth.currentUser` being
      set; `remote` for what the three awaited calls would do. */
  function HandleChangePassword(current: string, newPassword: string, confirm: string,
                                userPresent: bool, remote: Remote): (r: Handled)
    // the empty-field check comes first and makes no call
    ensures current == "" || newPassword == "" || confirm == "" ==>
              r == Handled(FillAllFieldsAlert, [], [], false)
    // then the mismatch check
    ensures current != "" && newPassword != "" && confirm != "" && newPassword != confirm ==>
              r == Handled(MismatchAlert, [], [], false)
    // then the signed-in check, after `loading` was raised
    ensures current != "" && newPassword == confirm != "" && !userPresent ==>
              r == Handled(NotLoggedInAlert, [], [true, false], false)
    // the remote calls: a non-empty prefix of the fixed order, `loading` raised then lowered
    ensures current != "" && newPassword == confirm != "" && userPresent ==>
              && r.loadingWrites == [true, false]
              && 0 < |r.attempted| <= 3 && r.attempted == RemoteOrder[..|r.attempted|]
              && (r.navigatedBack <==> r.attempted == RemoteOrder && r.alert == ChangedAlert)
    // success exactly when every call succeeds
    ensures r.navigatedBack <==>
              current != "" && newPassword == confirm != "" && userPresent
              && forall i | 0 <= i < 3 :: OutcomeOf(remote, RemoteOrder[i]).Succeeds?
    // a failing call ends the attempt and its message is shown
    ensures current != "" && newPassword == confirm != "" && userPresent ==>
              forall k | 0 <= k < 3 ::
                (forall i | 0 <= i < k :: OutcomeOf(remote, RemoteOrder[i]).Succeeds?) &&
                OutcomeOf(remote, RemoteOrder[k]).Fails? ==>
                  r.attempted == RemoteOrder[..k + 1] &&
                  r.alert == Alert("Error", OutcomeOf(remote, RemoteOrder[k]).message)
    // `loading` is never left raised
    ensures r.loadingWrites == [] || r.loadingWrites == [true, false]
    ensures !LoadingAfter(false, r.loadingWrites)
  {
    if current == "" || newPassword == "" || confirm == "" then
      Handled(FillAllFieldsAlert, [], [], false)
    else if newPassword != confirm then
      Handled(MismatchAlert, [], [], false)
    else if !userPresent then
      Handled(NotLoggedInAlert, [], [true, false], false)
    else
      var a := RunRemote(remote, RemoteOrder);
      match a.error
      case None => Handled(ChangedAlert, a.attempted, [true, false], true)
      case Some(m) => Handled(Alert("Error", m), a.attempted, [true, false], false)
  }
}
