/**
  The password-reset page as an object whose state cells are updated in
  place, one assignment at a time, as the page's handlers do. Each event
  method is proved to have the effect the state machine in `ResetFlow` gives
  to the same event, and to keep its invariant; the helpers they call state
  their effect field by field.
*/
module ResetPage {
  import opened Wrappers
  import opened ResetSchema
  import ResetFlow

  class ResetPasswordPage {
    var values: Values
    var isLoading: bool
    var error: Option<string>
    var success: Option<string>
    var now: nat
    var pending: seq<ResetFlow.Timer>
    var navigations: seq<ResetFlow.Navigation>
    ghost var submittedAt: seq<nat>

    /** The page's state as a value of the state machine. */
    ghost function Snapshot(): ResetFlow.Page
      reads this
    {
      ResetFlow.Page(values, isLoading, error, success, now, pending, navigations, submittedAt)
    }

    ghost predicate Valid()
      reads this
    {
      ResetFlow.Inv(Snapshot())
    }

    /** First render: default values, `isLoading` false, `error` and `success` null. */
    constructor ()
      ensures Valid() && Snapshot() == ResetFlow.Init()
    {
      values := DefaultValues;
      isLoading := false;
      error := None;
      success := None;
      now := 0;
      pending := [];
      navigations := [];
      submittedAt := [];
      ResetFlow.InitInv();
    }

    /** The disable guard shared by both inputs and the submit button. */
    function ControlsDisabled(): (disabled: bool)
      reads this
      ensures disabled <==> ResetFlow.Disabled(Snapshot())
    {
      isLoading || success.Some?
    }

    /** The submit button's caption. */
    function ButtonLabel(): (caption: string)
      reads this
      ensures caption == ResetFlow.ButtonLabel(Snapshot())
    {
      if isLoading then ResetFlow.LoadingLabel else ResetFlow.IdleLabel
    }

    /** Typing into an input; a disabled input ignores it. */
    method SetField(f: Field, x: string)
      requires Valid()
      modifies this
      ensures Valid()
      ensures Snapshot() == ResetFlow.Apply(old(Snapshot()), ResetFlow.EditField(f, x))
    {
      if ControlsDisabled() {
        return;
      }
      match f {
        case Password => values := values.(password := x);
        case ConfirmPassword => values := values.(confirmPassword := x);
      }
      ResetFlow.ApplyPreservesInv(old(Snapshot()), ResetFlow.EditField(f, x));
    }

    /**
      Pressing the submit button: a disabled button ignores it; otherwise the
      values are validated and the handler runs only when they pass.
      `invoked` tells whether the handler ran.
    */
    method Submit() returns (invoked: bool)
      requires Valid()
      modifies this
      ensures Valid()
      ensures Snapshot() == ResetFlow.Apply(old(Snapshot()), ResetFlow.SubmitForm)
      ensures invoked <==> !old(isLoading) && old(success) == None && IsValid(old(values))
      ensures invoked ==> isLoading && error == None && success == None
    {
      if ControlsDisabled() {
        return false;
      }
      var errs := Validate(values);
      if errs != map[] {
        return false;
      }
      OnSubmit();
      invoked := true;
      ResetFlow.SubmitPreservesInv(old(Snapshot()));
    }

    /** The part of the submit handler that runs before its first wait. */
    method OnSubmit()
      modifies this
      ensures isLoading && error == None && success == None
      ensures pending == ResetFlow.Schedule(old(pending), ResetFlow.Timer(now + ResetFlow.CompleteDelay, ResetFlow.Complete))
      ensures submittedAt == old(submittedAt) + [now]
      ensures values == old(values) && now == old(now) && navigations == old(navigations)
    {
      isLoading := true;
      error := None;
      success := None;
      pending := ResetFlow.Schedule(pending, ResetFlow.Timer(now + ResetFlow.CompleteDelay, ResetFlow.Complete));
      submittedAt := submittedAt + [now];
    }

    /** Time passes without any event, up to the next pending deadline at most. */
    method Elapse(ms: nat)
      requires Valid()
      modifies this
      ensures Valid()
      ensures Snapshot() == ResetFlow.Apply(old(Snapshot()), ResetFlow.Wait(ms))
    {
      if pending != [] && pending[0].deadline < now + ms {
        if now < pending[0].deadline {
          now := pending[0].deadline;
        }
      } else {
        now := now + ms;
      }
      ResetFlow.ApplyPreservesInv(old(Snapshot()), ResetFlow.Wait(ms));
    }

    /**
      The earliest pending timer fires: the clock moves to its deadline and its
      callback runs. `fired` tells whether a timer was pending.
    */
    method FireTimer() returns (fired: bool)
      requires Valid()
      modifies this
      ensures Valid()
      ensures Snapshot() == ResetFlow.Apply(old(Snapshot()), ResetFlow.TimerFires)
      ensures fired <==> old(pending) != []
    {
      if pending == [] {
        return false;
      }
      ghost var before := Snapshot();
      var t := pending[0];
      pending := pending[1..];
      if now < t.deadline {
        now := t.deadline;
      }
      assert ResetFlow.FireStep(before) == ResetFlow.RunAction(Snapshot(), t.action);
      RunCallback(t.action);
      fired := true;
      ResetFlow.FirePreservesInv(old(Snapshot()));
    }

    /** Runs the callback of a timer that has just fired. */
    method RunCallback(a: ResetFlow.Action)
      modifies this
      ensures Snapshot() == ResetFlow.RunAction(old(Snapshot()), a)
    {
      match a {
        case Complete => CompleteTimer();
        case Navigate(path) => NavTimer(path);
      }
    }

    /** The rest of the submit handler, once the simulated request's 1500 ms are over. */
    method CompleteTimer()
      modifies this
      ensures success == Some(ResetFlow.SuccessMessage) && !isLoading
      ensures pending == ResetFlow.Schedule(old(pending),
                           ResetFlow.Timer(now + ResetFlow.NavigateDelay, ResetFlow.Navigate(ResetFlow.LoginPath)))
      ensures values == old(values) && error == old(error) && now == old(now)
      ensures navigations == old(navigations) && submittedAt == old(submittedAt)
    {
      success := Some(ResetFlow.SuccessMessage);
      isLoading := false;
      pending := ResetFlow.Schedule(pending,
                   ResetFlow.Timer(now + ResetFlow.NavigateDelay, ResetFlow.Navigate(ResetFlow.LoginPath)));
    }

    /** The navigation timer's callback: one call of the navigation collaborator. */
    method NavTimer(path: string)
      modifies this`navigations
      ensures navigations == old(navigations) + [ResetFlow.Navigation(now, path)]
    {
      navigations := navigations + [ResetFlow.Navigation(now, path)];
    }
  }

  /**
    A session on a fresh page: fill in a matching pair of eight or more
    characters, submit, and let both timers fire. The handler runs once and
    the page navigates to `/` once, 4500 ms after the first render.
  */
  method MatchingPairSession() returns (invoked: bool, caption: string, navs: seq<ResetFlow.Navigation>)
    ensures invoked && caption == ResetFlow.LoadingLabel
    ensures navs == [ResetFlow.Navigation(4500, "/")]
  {
    var page := new ResetPasswordPage();
    page.SetField(Password, "longenough1");
    page.SetField(ConfirmPassword, "longenough1");
    ValidIff(page.values);
    invoked := page.Submit();
    caption := page.ButtonLabel();
    var fired := page.FireTimer();
    fired := page.FireTimer();
    navs := page.navigations;
  }
}
