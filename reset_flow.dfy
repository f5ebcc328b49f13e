/**
  The submission flow of the password-reset page, as a state machine over
  the page's state cells.

  The page holds the form values and three state cells: `isLoading`, `error`
  and `success`. The inputs and the submit button are disabled while
  `isLoading` is set or `success` holds a message. A submit that passes the
  schema sets `isLoading`, clears `error` and `success` and starts a 1500 ms
  timer. When that timer fires, `success` receives its message, `isLoading`
  is cleared and a 3000 ms timer is started whose callback navigates to the
  login route `/`.

  Timers are a queue of (deadline, action) pairs in milliseconds, kept in
  deadline order. The clock only moves forward, and never past the deadline
  of a pending timer: that timer fires first. Navigation is recorded as a
  list of (time, path) pairs. `submittedAt` records the clock at each call of
  the submit handler; it is an observation, not a state cell of the page.
*/
module ResetFlow {
  import opened Wrappers
  import opened ResetSchema

  const CompleteDelay: nat := 1500
  const NavigateDelay: nat := 3000
  const LoginPath: string := "/"
  const SuccessMessage: string := "Your password has been reset successfully! Redirecting to login..."
  const LoadingLabel: string := "Resetting..."
  const IdleLabel: string := "Set New Password"

  /** What a timer does when it fires: finish the simulated request, or navigate. */
  datatype Action = Complete | Navigate(path: string)

  datatype Timer = Timer(deadline: nat, action: Action)

  /** One call of the navigation collaborator. */
  datatype Navigation = Navigation(at: nat, path: string)

  datatype Page = Page(
    values: Values,
    isLoading: bool,
    error: Option<string>,
    success: Option<string>,
    now: nat,
    pending: seq<Timer>,
    navigations: seq<Navigation>,
    submittedAt: seq<nat>)

  /** The discrete events the page reacts to. */
  datatype Event =
    | EditField(field: Field, value: string)
    | SubmitForm
    | Wait(ms: nat)
    | TimerFires

  /** The page as first rendered: default values, all state cells cleared, no timers. */
  function Init(): Page {
    Page(DefaultValues, false, None, None, 0, [], [], [])
  }

  /** The condition under which both inputs and the submit button are disabled. */
  predicate Disabled(p: Page) {
    p.isLoading || p.success.Some?
  }

  /** The submit button's label reads "Resetting..." exactly while a request is in flight. */
  function ButtonLabel(p: Page): (caption: string)
    ensures caption == LoadingLabel <==> p.isLoading
    ensures caption == IdleLabel <==> !p.isLoading
  {
    assert LoadingLabel[0] != IdleLabel[0];
    if p.isLoading then LoadingLabel else IdleLabel
  }

  predicate Sorted(q: seq<Timer>) {
    forall i, j :: 0 <= i < j < |q| ==> q[i].deadline <= q[j].deadline
  }

  /**
    Starting a timer: the new timer goes after every pending timer whose
    deadline is not later than its own, so timers fire in deadline order and
    timers with equal deadlines in the order they were started.
  */
  function Schedule(q: seq<Timer>, t: Timer): (r: seq<Timer>)
    ensures multiset(r) == multiset(q) + multiset{t}
    ensures (forall i :: 0 <= i < |q| ==> q[i].deadline <= t.deadline) ==> r == q + [t]
  {
    if q == [] || t.deadline < q[0].deadline then [t] + q
    else
      assert q == [q[0]] + q[1..];
      [q[0]] + Schedule(q[1..], t)
  }

  /** Starting a timer keeps the queue in deadline order. */
  lemma {:induction false} ScheduleKeepsOrder(q: seq<Timer>, t: Timer)
    requires Sorted(q)
    ensures Sorted(Schedule(q, t))
  {
    if q != [] && t.deadline >= q[0].deadline {
      var rest := Schedule(q[1..], t);
      ScheduleKeepsOrder(q[1..], t);
      forall k | 0 <= k < |rest| ensures q[0].deadline <= rest[k].deadline {
        assert rest[k] in multiset(rest);
        if rest[k] != t {
          assert rest[k] in q[1..];
        }
      }
      assert Schedule(q, t) == [q[0]] + rest;
    }
  }

  /** The form values after typing `x` into field `f`. */
  function SetValue(v: Values, f: Field, x: string): Values {
    match f
    case Password => v.(password := x)
    case ConfirmPassword => v.(confirmPassword := x)
  }

  /** An edit reaches the form only while the inputs are enabled. */
  function EditStep(p: Page, f: Field, x: string): Page {
    if Disabled(p) then p else p.(values := SetValue(p.values, f, x))
  }

  /**
    A submit attempt: ignored while the button is disabled; otherwise the
    values are validated and, only when they pass, the handler sets
    `isLoading`, clears `error` and `success` and starts the 1500 ms timer.
  */
  function SubmitStep(p: Page): Page {
    if Disabled(p) || !IsValid(p.values) then p
    else p.(isLoading := true, error := None, success := None,
            pending := Schedule(p.pending, Timer(p.now + CompleteDelay, Complete)),
            submittedAt := p.submittedAt + [p.now])
  }

  /** Time passes, but not beyond the deadline of the next pending timer. */
  function WaitStep(p: Page, ms: nat): Page {
    if p.pending != [] && p.pending[0].deadline < p.now + ms then
      p.(now := if p.now < p.pending[0].deadline then p.pending[0].deadline else p.now)
    else p.(now := p.now + ms)
  }

  /** What a timer's callback does, at the moment it fires. */
  function RunAction(p: Page, a: Action): Page {
    match a
    case Complete =>
      p.(success := Some(SuccessMessage), isLoading := false,
         pending := Schedule(p.pending, Timer(p.now + NavigateDelay, Navigate(LoginPath))))
    case Navigate(path) =>
      p.(navigations := p.navigations + [Navigation(p.now, path)])
  }

  /** The earliest pending timer fires: the clock moves to its deadline and its callback runs. */
  function FireStep(p: Page): Page {
    if p.pending == [] then p
    else
      var t := p.pending[0];
      RunAction(p.(pending := p.pending[1..], now := if p.now < t.deadline then t.deadline else p.now), t.action)
  }

  function Apply(p: Page, e: Event): Page {
    match e
    case EditField(f, x) => EditStep(p, f, x)
    case SubmitForm => SubmitStep(p)
    case Wait(ms) => WaitStep(p, ms)
    case TimerFires => FireStep(p)
  }

  /** The page after a sequence of events, in order. */
  function Run(p: Page, es: seq<Event>): Page
    decreases |es|
  {
    if es == [] then p else Run(Apply(p, es[0]), es[1..])
  }

  /**
    The invariant of every reachable page. `error` is null; `success`, when
    set, holds the success message; `isLoading` and `success` are never set
    together. The page is in one of four phases, each with exactly the
    timers and navigations that phase allows:
    - nothing submitted: no timer, no navigation;
    - loading: the single completion timer, due 1500 ms after the submit;
    - succeeded: the single navigation timer, due 4500 ms after the submit;
    - navigated: no timer, and one navigation to `/` at 4500 ms after the submit.
  */
  predicate Inv(p: Page) {
    && p.error == None
    && !(p.isLoading && p.success.Some?)
    && (p.success.Some? ==> p.success.value == SuccessMessage)
    && (if p.isLoading then
          && |p.submittedAt| == 1
          && p.submittedAt[0] <= p.now <= p.submittedAt[0] + CompleteDelay
          && p.pending == [Timer(p.submittedAt[0] + CompleteDelay, Complete)]
          && p.navigations == []
        else if p.success.None? then
          && p.submittedAt == []
          && p.pending == []
          && p.navigations == []
        else if p.navigations == [] then
          && |p.submittedAt| == 1
          && p.submittedAt[0] + CompleteDelay <= p.now <= p.submittedAt[0] + CompleteDelay + NavigateDelay
          && p.pending == [Timer(p.submittedAt[0] + CompleteDelay + NavigateDelay, Navigate(LoginPath))]
        else
          && |p.submittedAt| == 1
          && p.submittedAt[0] + CompleteDelay + NavigateDelay <= p.now
          && p.pending == []
          && p.navigations == [Navigation(p.submittedAt[0] + CompleteDelay + NavigateDelay, LoginPath)])
  }

  /** The first render satisfies the invariant, with controls enabled and an invalid form. */
  lemma InitInv()
    ensures Inv(Init())
    ensures !Disabled(Init()) && ButtonLabel(Init()) == IdleLabel
    ensures !IsValid(Init().values)
  {
    DefaultValuesInvalid();
  }

  /** The invariant allows exactly three combinations of the three state cells. */
  lemma CellCombinations(p: Page)
    requires Inv(p)
    ensures (p.isLoading, p.error, p.success) in
              {(false, None, None), (true, None, None), (false, None, Some(SuccessMessage))}
  {
  }

  /** Every event keeps the invariant. */
  lemma ApplyPreservesInv(p: Page, e: Event)
    requires Inv(p)
    ensures Inv(Apply(p, e))
  {
    match e
    case EditField(f, x) =>
    case SubmitForm => SubmitPreservesInv(p);
    case Wait(ms) =>
    case TimerFires => FirePreservesInv(p);
  }

  lemma SubmitPreservesInv(p: Page)
    requires Inv(p)
    ensures Inv(SubmitStep(p))
  {
    if !Disabled(p) && IsValid(p.values) {
      assert p.pending == [] && p.submittedAt == [];
    }
  }

  lemma FirePreservesInv(p: Page)
    requires Inv(p)
    ensures Inv(FireStep(p))
  {
    if p.pending != [] {
      var t := p.pending[0];
      var q := p.(pending := [], now := t.deadline);
      assert p.pending[1..] == [];
      assert FireStep(p) == RunAction(q, t.action);
      if p.isLoading {
        assert t.action == Complete;
      } else {
        assert t.action == Navigate(LoginPath);
      }
    }
  }

  /** Every sequence of events keeps the invariant. */
  lemma {:induction false} RunPreservesInv(p: Page, es: seq<Event>)
    requires Inv(p)
    ensures Inv(Run(p, es))
    decreases |es|
  {
    if es != [] {
      ApplyPreservesInv(p, es[0]);
      RunPreservesInv(Apply(p, es[0]), es[1..]);
    }
  }

  /**
    What holds of every page reachable from the first render: `error` stays
    null, `isLoading` and `success` are never both set, at most one submit
    has reached the handler and at most one timer is pending, and there is at
    most one navigation, to `/`, after `success` was set and 4500 ms after the
    submit.
  */
  lemma Reachable(es: seq<Event>)
    ensures var p := Run(Init(), es);
      && p.error == None
      && !(p.isLoading && p.success.Some?)
      && |p.submittedAt| <= 1
      && |p.pending| <= 1
      && |p.navigations| <= 1
      && (p.navigations != [] ==>
            && |p.submittedAt| == 1
            && p.success == Some(SuccessMessage)
            && p.navigations[0] == Navigation(p.submittedAt[0] + CompleteDelay + NavigateDelay, LoginPath))
  {
    InitInv();
    RunPreservesInv(Init(), es);
  }

  /**
    A submit reaches the handler exactly when the controls are enabled and
    the values pass the schema; it then sets `isLoading`, clears `error` and
    `success`, keeps the values and leaves only the 1500 ms timer pending.
    Otherwise nothing changes.
  */
  lemma SubmitGate(p: Page)
    requires Inv(p)
    ensures var q := Apply(p, SubmitForm);
      && (q != p <==> !Disabled(p) && |p.values.password| >= MinPasswordLength
                      && p.values.password == p.values.confirmPassword)
      && (q != p ==>
            && q.isLoading && q.error == None && q.success == None
            && q.values == p.values && q.now == p.now
            && q.pending == [Timer(p.now + CompleteDelay, Complete)]
            && ButtonLabel(q) == LoadingLabel && Disabled(q))
  {
    ValidIff(p.values);
  }

  /** While the controls are disabled, edits and submits change nothing. */
  lemma DisabledIgnoresInput(p: Page, e: Event)
    requires Disabled(p)
    requires e.EditField? || e.SubmitForm?
    ensures Apply(p, e) == p
  {
  }

  /** While the controls are enabled, an edit replaces exactly the edited field. */
  lemma EnabledEdit(p: Page, f: Field, x: string)
    requires !Disabled(p)
    ensures var q := Apply(p, EditField(f, x));
      && q == p.(values := q.values)
      && (f == Password ==> q.values == Values(x, p.values.confirmPassword))
      && (f == ConfirmPassword ==> q.values == Values(p.values.password, x))
  {
  }

  /** Typing the same value twice has the effect of typing it once. */
  lemma EditIdempotent(p: Page, f: Field, x: string)
    ensures Apply(Apply(p, EditField(f, x)), EditField(f, x)) == Apply(p, EditField(f, x))
  {
  }

  /**
    When the completion timer fires, `success` receives the success message
    and `isLoading` is cleared in the same step, 1500 ms after the submit,
    and the navigation timer is started 3000 ms later.
  */
  lemma CompletionStep(p: Page)
    requires Inv(p) && p.isLoading
    ensures var q := Apply(p, TimerFires);
      && q.success == Some(SuccessMessage) && !q.isLoading && q.error == None
      && q.now == p.submittedAt[0] + CompleteDelay
      && q.pending == [Timer(q.now + NavigateDelay, Navigate(LoginPath))]
      && q.navigations == [] && q.values == p.values
      && Disabled(q) && ButtonLabel(q) == IdleLabel
  {
  }

  /** Once `success` is set, no event sequence changes the values, `success` or the submits. */
  lemma {:induction false} LockedAfterSuccess(p: Page, es: seq<Event>)
    requires Inv(p) && p.success.Some?
    ensures var q := Run(p, es);
      && q.values == p.values && q.success == p.success && !q.isLoading
      && q.submittedAt == p.submittedAt && Disabled(q)
    decreases |es|
  {
    if es != [] {
      var q := Apply(p, es[0]);
      ApplyPreservesInv(p, es[0]);
      assert q.values == p.values && q.success == p.success && q.submittedAt == p.submittedAt;
      LockedAfterSuccess(q, es[1..]);
    }
  }

  /** Once the navigation has happened, no event sequence adds another. */
  lemma {:induction false} NavigationHappensOnce(p: Page, es: seq<Event>)
    requires Inv(p) && p.navigations != []
    ensures Run(p, es).navigations == p.navigations
    decreases |es|
  {
    if es != [] {
      ApplyPreservesInv(p, es[0]);
      NavigationHappensOnce(Apply(p, es[0]), es[1..]);
    }
  }

  /**
    From a loading page, the two timers fire one after the other and produce
    exactly one navigation, to `/`, 4500 ms after the submit.
  */
  lemma CompletedSubmitNavigates(p: Page)
    requires Inv(p) && p.isLoading
    ensures var q := Run(p, [TimerFires, TimerFires]);
      && q.navigations == [Navigation(p.submittedAt[0] + CompleteDelay + NavigateDelay, LoginPath)]
      && q.success == Some(SuccessMessage) && q.pending == []
  {
    var q1 := Apply(p, TimerFires);
    CompletionStep(p);
    assert Run(p, [TimerFires, TimerFires]) == Run(q1, [TimerFires]);
    assert Run(q1, [TimerFires]) == Apply(q1, TimerFires);
  }

  /**
    Filling in a matching eight-or-more character pair, submitting and
    letting both timers fire disables the controls with the success message
    and navigates to `/` once, 4500 ms after the first render.
  */
  lemma MatchingPairFlow()
    ensures var q := Run(Init(), [EditField(Password, "longenough1"), EditField(ConfirmPassword, "longenough1"),
                                  SubmitForm, TimerFires, TimerFires]);
      && q.success == Some(SuccessMessage) && !q.isLoading && Disabled(q)
      && q.navigations == [Navigation(4500, "/")]
  {
    var v := Values("longenough1", "longenough1");
    var p2 := Init().(values := v);
    assert Run(Init(), [EditField(Password, "longenough1"), EditField(ConfirmPassword, "longenough1"),
                        SubmitForm, TimerFires, TimerFires])
        == Run(p2, [SubmitForm, TimerFires, TimerFires]);
    ValidIff(v);
    var p3 := Apply(p2, SubmitForm);
    assert p3.isLoading && p3.submittedAt == [0];
    InitInv();
    ApplyPreservesInv(p2, SubmitForm);
    assert Run(p2, [SubmitForm, TimerFires, TimerFires]) == Run(p3, [TimerFires, TimerFires]);
    CompletedSubmitNavigates(p3);
  }
}
