# Password-reset page: validation rules and submission flow

This project models the password-reset page of an authentication UI in Dafny.
The page has a two-field form (`password`, `confirmPassword`), a validation
schema, and three state cells (`isLoading`, `error`, `success`). A simulated
request takes 1500 ms. A navigation to the login route `/` follows 3000 ms
after that.

- `ResetSchema` (`reset_schema.dfy`, pure). The schema works in two steps.
  It first collects issues: the password's length rule, then the cross-field
  equality refinement, which is reported on `confirmPassword`. It then turns
  them into a field-to-message map, keeping the first issue on each field.
- `ResetFlow` (`reset_flow.dfy`, pure). This is the page as a state machine
  over a `Page` record, driven by four events: an edit, a submit, time passing,
  and a timer firing. Pending timers form a queue of (deadline, action) pairs
  in milliseconds, kept in deadline order. Navigation calls are recorded as
  (time, path) pairs. `Inv` is the invariant of every reachable page, and the
  lemmas state the page's promises in terms of it.
- `ResetPage` (`reset_page.dfy`, imperative). This is the page as a class.
  Its methods assign the state cells in the order the handlers do. Each event
  method (`SetField`, `Submit`, `Elapse`, `FireTimer`) is proved to have the
  same effect as `ResetFlow.Apply` for the same event, and to keep `Inv`. The
  helpers they call (`OnSubmit`, `RunCallback`, `CompleteTimer`, `NavTimer`)
  state their effect field by field.
- `Wrappers` (`wrappers.dfy`) provides `Option`, which stands for the
  source's `null`.

The validation rules follow the schema library's behaviour as the code uses
it. When the length rule on `password` fails, the object is marked invalid but
not aborted, so the equality refinement still runs. A short, mismatching pair
therefore reports both messages (`ShortMismatchingPair`).

Two points about the state cells:

- The code has no failure path. Its failure branch is commented out
  (src/pages/ResetPasswordPage.tsx:62-64), and no edit assigns `error`, so the
  model has neither. It proves that `error` stays null.
- The code keeps three independent state cells rather than one phase value,
  and so does the model. `Inv` allows only three combinations of the cells:
  nothing submitted, loading, and succeeded. Counting whether the navigation
  has happened gives four phases.

## Model

| member | source | states |
|---|---|---|
| `ResetSchema.ToErrorMap` | src/pages/ResetPasswordPage.tsx:36 | A field has an error exactly when some issue is reported on it. Its message is that of the first such issue. |
| `ResetSchema.Validate` | src/pages/ResetPasswordPage.tsx:20-26 | `password` fails exactly when it is shorter than 8, with the too-short message. `confirmPassword` fails exactly when the fields differ, with the mismatch message. |
| `ResetSchema.ValidIff` | src/pages/ResetPasswordPage.tsx:20-26 | The error map is empty exactly when the password has at least 8 characters and equals the confirmation. |
| `ResetSchema.MismatchOnlyOnConfirm` | src/pages/ResetPasswordPage.tsx:23-25 | The mismatch message is never on `password`. When it appears, it is on `confirmPassword`. |
| `ResetSchema.ConfirmHasNoLengthRule` | src/pages/ResetPasswordPage.tsx:22 | Two equal fields never give `confirmPassword` an error, even when empty. The pair is valid exactly when it has at least 8 characters. |
| `ResetSchema.DefaultValuesInvalid` | src/pages/ResetPasswordPage.tsx:37-40 | The default empty values fail, with only the too-short error on `password`. |
| `ResetSchema.ShortMatchingPair` | src/pages/ResetPasswordPage.tsx:21 | `("short", "short")` gives only the too-short error on `password`. |
| `ResetSchema.LongMismatchingPair` | src/pages/ResetPasswordPage.tsx:23-25 | `("longenough1", "longenough2")` gives only the mismatch error on `confirmPassword`. |
| `ResetSchema.ShortMismatchingPair` | src/pages/ResetPasswordPage.tsx:20-26 | A short pair that differs gets both errors, one per field. |
| `ResetFlow.ButtonLabel` | src/pages/ResetPasswordPage.tsx:127 | The caption is "Resetting..." exactly when `isLoading` is set, and "Set New Password" exactly when it is not. |
| `ResetFlow.Schedule` | src/pages/ResetPasswordPage.tsx:58-60 | Starting a timer adds exactly that timer to the pending ones. When no pending timer is due later, it goes last. |
| `ResetFlow.ScheduleKeepsOrder` | src/pages/ResetPasswordPage.tsx:51 | Starting a timer keeps the pending queue in deadline order. |
| `ResetFlow.InitInv` | src/pages/ResetPasswordPage.tsx:31-40 | The first render satisfies the invariant. Its controls are enabled, its label is "Set New Password", and its values are invalid. |
| `ResetFlow.CellCombinations` | src/pages/ResetPasswordPage.tsx:31-33 | In every state satisfying the invariant, the cells (`isLoading`, `error`, `success`) are one of (false, null, null), (true, null, null), (false, null, success message). |
| `ResetFlow.ApplyPreservesInv` | src/pages/ResetPasswordPage.tsx:44-65 | Every event (edit, submit, waiting, a timer firing) keeps the reachable-state invariant. |
| `ResetFlow.SubmitPreservesInv` | src/pages/ResetPasswordPage.tsx:45-51 | A submit attempt keeps the invariant. |
| `ResetFlow.FirePreservesInv` | src/pages/ResetPasswordPage.tsx:51-60 | Firing the next timer keeps the invariant. |
| `ResetFlow.RunPreservesInv` | src/pages/ResetPasswordPage.tsx:44-65 | Every sequence of events keeps the invariant. |
| `ResetFlow.Reachable` | src/pages/ResetPasswordPage.tsx:31-65 | In every reachable state: `error` is null, and `isLoading` and `success` are never both set. The handler has run at most once, and at most one timer is pending. There is at most one navigation. It goes to `/`, comes after `success` was set, and happens 4500 ms after the submit. |
| `ResetFlow.SubmitGate` | src/pages/ResetPasswordPage.tsx:45-47 | A submit changes the state exactly when the controls are enabled and the values are valid. It then sets `isLoading`, clears `error` and `success`, keeps the values, and leaves only the 1500 ms timer pending. |
| `ResetFlow.DisabledIgnoresInput` | src/pages/ResetPasswordPage.tsx:107-126 | While `isLoading` or `success` is set, edits and submits leave the state unchanged. |
| `ResetFlow.EnabledEdit` | src/pages/ResetPasswordPage.tsx:100-125 | While the controls are enabled, an edit replaces exactly the edited field and nothing else. |
| `ResetFlow.EditIdempotent` | src/pages/ResetPasswordPage.tsx:107 | Typing the same value twice has the effect of typing it once. |
| `ResetFlow.CompletionStep` | src/pages/ResetPasswordPage.tsx:51-60 | The completion timer fires 1500 ms after the submit. In that one step it sets `success` to the success message, clears `isLoading` and keeps `error` null. It also starts a navigation timer to `/` due 3000 ms later. |
| `ResetFlow.LockedAfterSuccess` | src/pages/ResetPasswordPage.tsx:107-126 | Once `success` is set, no sequence of events changes the values or `success`, sets `isLoading`, or runs the handler again. |
| `ResetFlow.NavigationHappensOnce` | src/pages/ResetPasswordPage.tsx:58-60 | Once the navigation has happened, no sequence of events adds another. |
| `ResetFlow.CompletedSubmitNavigates` | src/pages/ResetPasswordPage.tsx:51-60 | From a loading page, the next two timer firings produce exactly one navigation. It goes to `/`, 4500 ms after the submit. |
| `ResetFlow.MatchingPairFlow` | src/pages/ResetPasswordPage.tsx:44-65 | A session types a matching 11-character pair, submits, and lets both timers fire. It ends with the success message, disabled controls and a single navigation to `/` at 4500 ms. |
| `ResetPage.ResetPasswordPage.constructor` | src/pages/ResetPasswordPage.tsx:31-40 | A new page is the state machine's first render and satisfies the invariant. |
| `ResetPage.ResetPasswordPage.ControlsDisabled` | src/pages/ResetPasswordPage.tsx:107 | The disable guard holds exactly when `isLoading` is set or `success` is not null, as in the state machine. |
| `ResetPage.ResetPasswordPage.ButtonLabel` | src/pages/ResetPasswordPage.tsx:127 | The object's caption is the state machine's caption for its state. |
| `ResetPage.ResetPasswordPage.SetField` | src/pages/ResetPasswordPage.tsx:107 | An edit has the state machine's effect and keeps the invariant. |
| `ResetPage.ResetPasswordPage.Submit` | src/pages/ResetPasswordPage.tsx:99 | The handler runs exactly when the controls are enabled and the values are valid. The new state is the state machine's, and the invariant holds. |
| `ResetPage.ResetPasswordPage.OnSubmit` | src/pages/ResetPasswordPage.tsx:44-51 | Sets `isLoading`, clears `error` and `success`, and starts the 1500 ms timer. Nothing else changes. |
| `ResetPage.ResetPasswordPage.Elapse` | src/pages/ResetPasswordPage.tsx:51 | Time passes as in the state machine, never beyond a pending deadline. |
| `ResetPage.ResetPasswordPage.FireTimer` | src/pages/ResetPasswordPage.tsx:51-60 | The earliest timer fires as in the state machine, and the invariant holds. |
| `ResetPage.ResetPasswordPage.RunCallback` | src/pages/ResetPasswordPage.tsx:54-60 | A fired timer's callback has the state machine's effect. |
| `ResetPage.ResetPasswordPage.CompleteTimer` | src/pages/ResetPasswordPage.tsx:54-60 | Sets `success`, clears `isLoading`, and starts the 3000 ms timer that navigates to `/`. Nothing else changes. |
| `ResetPage.ResetPasswordPage.NavTimer` | src/pages/ResetPasswordPage.tsx:59 | Records one navigation to the given path at the current time. |
| `ResetPage.MatchingPairSession` | src/pages/ResetPasswordPage.tsx:44-65 | On a new object, a matching 11-character pair reaches the handler and shows "Resetting...". After both timers fire, there is exactly one navigation, to `/` at 4500 ms. |

## Left out

- Rendering is not modelled: the layout, the `Alert` banners, the icons and the links (src/pages/ResetPasswordPage.tsx:67-135). Only the disable guard and the button caption are kept.
- The `console.log` calls (src/pages/ResetPasswordPage.tsx:29, 48) are instrumentation with no effect on state.
- The header, the card wrapper and the social-login buttons have no state or rules.
- The internals of the schema library, the form library and the router are foreign code. Their visible behaviour is written out directly: issue collection, first-issue-per-field error map, validate-on-submit, and `navigate` as a recorded call.
- When the form library revalidates while typing is not modelled. Field errors are computed from the current values whenever they are needed.
- Real timers and the event loop are replaced by a queue of (deadline, action) pairs and explicit `Wait` and `TimerFires` events. Because events are discrete, the clock cannot pass a pending deadline without that timer firing, and timers fire exactly at their deadline. A real timer can fire late, so the times proved here (completion at 1500 ms, navigation at 4500 ms after the submit) are the earliest the real page can reach; the real navigation comes no earlier than 4500 ms.
- React's asynchronous state updates and re-renders are not modelled. The state cells change in the order the handler assigns them.
- Lengths count characters of a Dafny string, which stand for the UTF-16 code units that JavaScript's `length` counts.
- The failure branch and any clearing of `error` on edit are not in the code, so they are not in the model.
- Cancelling timers on unmount is not in the code. Unmounting is not modelled.
