# Toloka completion evaluator in Dafny

Toloka is a Flask application for organising volunteer clean-up events
("толоки"). This project models its event-completion core:

- the reward rule of `complete_event`. Every participant gets the same integer
  point award, `int(waste * 10 + area * 2)`, plus one event, and an equal share
  of the waste and area;
- the achievement evaluator `check_achievements`. It walks the catalog, skips
  what the user already holds, tests the one condition each entry names, and
  records a grant row for each new award;
- the membership rules of `join_event` and `leave_event`, which decide who is
  rewarded;
- the upload filter `allowed_file`;
- the six achievements `init_achievements` seeds, with worked examples against them.

Modules:

- `Models` (`models.dfy`) holds the record shapes. `User`, `Event` and the
  grant table (`GrantLedger`) are classes, because the handlers update them in
  place. `Achievement` and the statistics snapshot `Stats` are values.
- `Rules` (`rules.dfy`) is the pure specification. It covers truncation, the
  per-participant credit, the condition test and the grants of one evaluator
  run. It also covers the ledger after a whole completion, and the lemmas
  about all of these.
- `App` (`app.dfy`) holds the handlers as imperative methods over the
  classes. Each one is proved against the `Rules` functions.
- `Uploads` (`uploads.dfy`) is the extension filter.
- `DefaultCatalog` (`catalog.dfy`) is the seeded catalog plus concrete scenarios.

Modelling choices:

- Users are compared by id. Flask-Login's `UserMixin` defines equality by id,
  so `current_user in event.participants` and `participants.remove(...)` look
  users up by id.
- The grant table is a sequence of `(user id, achievement id)` rows, and its
  schema has no uniqueness constraint. The evaluator's own check is what keeps
  pairs unique, and the model proves that it does.
- Inside one evaluator run, each grant added is visible to the next lookup,
  because the session flushes before querying. `Rules.Granted` therefore
  threads the growing ledger through the catalog walk. When catalog ids are
  distinct this equals a plain filter, `Rules.Eligible`.
- Python's `int()` on a float truncates toward zero. `Rules.Trunc` models
  that, and floating point is modelled as exact `real`.

What the code does at its edges, as the model keeps it:

- The code does not reject negative waste or area; they flow straight into
  the award. Lemmas that need non-negative inputs say so in their `requires`.
- The award truncates toward zero, so it differs from a floor only for
  negative totals.
- A `max_participants` of 0 counts as "no cap", because the test is `if
  event.max_participants and ...`.
- Grant pairs are kept unique by the evaluator's lookup, not by the database.

## Model

| member | source | states |
|---|---|---|
| Models.User.constructor | models.py:30-33 | A new user starts with zero points, zero events, zero waste and zero area. |
| Models.Event.constructor | models.py:57-62 | A new event has no participants, zero waste and area, status "planned", and keeps the cap it was given. |
| Models.GrantLedger.constructor | models.py:91-95 | The grant table starts empty. |
| Uploads.LastDot | app.py:36 | Finds the split point of `rsplit('.', 1)`: either no dot at all, or a dot with no dot after it. |
| Uploads.AllowedFile | app.py:35-36 | An accepted name contains a dot and has at least four characters: a dot and a three-letter extension. Its full verdict is given by `NoDotRefused` and `AllowedFileOfParts`. |
| Uploads.NoDotRefused | app.py:36 | A name without a dot is refused. |
| Uploads.AllowedFileOfParts | app.py:35-36 | `stem.ext`, with no dot in `ext`, is accepted exactly when lower-cased `ext` is png, jpg, jpeg, gif or webp, whatever the stem holds, including other dots. |
| Uploads.AllowedFileIgnoresCase | app.py:36 | Lower-casing the name first never changes the verdict. |
| Rules.Trunc | app.py:275 | `int()` truncates toward zero: the result is the integer between 0 and x nearest to x, for either sign. |
| Rules.PointsAwarded | app.py:275 | For non-negative waste and area, the award is the integer part of `waste*10 + area*2` and is non-negative. |
| Rules.Credit | app.py:280-283 | One participant's credit: the award, one event, and an N-th of waste and area. Its contract is given by `CreditSplitsEvenly` and `CreditNeverDecreases`. |
| Rules.CreditSplitsEvenly | app.py:279-283 | One credit adds the full award to points and 1 to events. It adds a share of waste and of area that, times the participant count, is the event's total. |
| Rules.GainsOfShares | app.py:282-283 | Over k credited participants, the waste and area gains sum to k times one share. |
| Rules.SharesSumToTotal | app.py:276-283 | When all N participants are credited, their waste gains sum to exactly the event's waste, and their area gains to its area. |
| Rules.CreditNeverDecreases | app.py:275-283 | With non-negative inputs, no statistic decreases and the event count rises by one. |
| Rules.Qualifies | app.py:60-66 | The if/elif condition test. `QualifiesIff` states it as a disjunction and shows that an unknown kind never qualifies. |
| Rules.QualifiesIff | app.py:60-66 | A condition holds exactly when its kind is events_count, waste_collected or area_cleaned and the matching statistic reaches the value. Any other kind never grants. |
| Rules.Granted | app.py:52-71 | One evaluator run grants no more achievements than the catalog has entries; `GrantedSound` and `GrantedIff` say which ones. |
| Rules.GrantedSound | app.py:53-68 | Every granted achievement is in the catalog, has a known kind, qualifies, and was not already held. |
| Rules.GrantedMatchesEligible | app.py:52-71 | With distinct catalog ids, the walk that sees its own grants returns the same list as a plain filter over the ledger as it was before the run. |
| Rules.GrantedIsEligible | app.py:52-71 | With distinct catalog ids, the grants equal the catalog-order filter of entries that are not held and that qualify. |
| Rules.EligibleMembers | app.py:53-68 | An achievement passes the filter exactly when it is in the catalog, is not held, and qualifies. |
| Rules.GrantedIff | app.py:53-68 | With distinct catalog ids, an achievement is granted if and only if it is in the catalog, is not already held, and qualifies. |
| Rules.After | app.py:68-71 | The grant table after one run: the old rows plus one row per grant. `AfterKeepsNoDup`, `AfterExtends`, `AfterSaturates` and `SecondRunGrantsNothing` give its contract. |
| Rules.AfterKeepsNoDup | app.py:53-70 | A run never adds a row that duplicates a held one or another new one, so a duplicate-free grant table stays duplicate-free. |
| Rules.AfterExtends | app.py:68-71 | A run only appends, and every appended row belongs to the evaluated user. |
| Rules.AfterSaturates | app.py:52-71 | After a run, the user holds every catalog achievement whose condition their statistics meet. |
| Rules.NothingLeftToGrant | app.py:53-58 | If every qualifying achievement is already held, a run grants nothing. |
| Rules.SecondRunGrantsNothing | app.py:48-75 | Running the evaluator again on unchanged statistics grants nothing: the evaluator is idempotent. |
| Rules.LedgerAfter | app.py:279-285 | The grant table after runs for each participant in order. `LedgerAfterSnoc`, `LedgerAfterSound`, `LedgerAfterOthers`, `CompletionGrantsEligible` and `CompletionSaturates` give its contract. |
| Rules.LedgerAfterSnoc | app.py:279-285 | Evaluating one more participant appends that participant's run and leaves the earlier participants' grants as they were. |
| Rules.LedgerAfterSound | app.py:279-285 | A whole completion keeps the grant table duplicate-free and only appends to it. Each new row belongs to one of the participants. |
| Rules.LedgerAfterOthers | app.py:279-285 | A completion does not touch the grants of users who are not participants. |
| Rules.CompletionGrantsEligible | app.py:279-285 | With distinct participants and catalog ids, each participant is granted exactly what they qualify for and did not hold before the completion, whatever was granted to the others. |
| Rules.CompletionSaturates | app.py:279-285 | After a completion, every participant holds every achievement their new statistics qualify for. |
| App.CheckAchievements | app.py:48-75 | The imperative walk appends exactly the rows of `Granted` to the grant table and returns their names in catalog order. |
| App.CreditParticipant | app.py:280-283 | One participant's statistics become `Credit` of their old statistics. |
| App.DistinctAt | models.py:9-13 | The participant table's composite key means the user at one position appears at no other. |
| App.DistributeRewards | app.py:275-287 | Zero participants change nothing. Otherwise every participant is credited once with an equal share. The grant table becomes the table of a completion over the participants' new statistics, in order, and each participant is reported their own grants. |
| App.RewardEach | app.py:279-285 | The loop credits each participant and runs the evaluator right after, so each one's report is computed from the table as the previous participants left it. |
| App.CompleteEvent | app.py:252-291 | Anyone but the organiser is refused and nothing changes. Otherwise the event records waste and area and status "completed", and the rewards are distributed as above. |
| App.JoinRule | app.py:225-230 | Joining is refused as already registered exactly when the id is a participant. It is refused for lack of places exactly when the id is new and a non-zero cap is reached. Otherwise the user joins. |
| App.HasCap | app.py:227 | The truthiness of `max_participants`: a cap is in force only when set and non-zero. `JoinRule` states how it decides a join. |
| App.JoinEvent | app.py:222-234 | Applies `JoinRule`: a join appends the user, a refusal changes nothing, and the list stays free of repeated ids. A cap that held before still holds after. |
| App.RemoveMember | app.py:243 | `list.remove` by id: drops the first user with the id. `RemoveMemberLength`, `RemoveMemberKeeps`, `RemoveMemberIds` and `RemoveMemberClears` give its contract. |
| App.RemoveMemberLength | app.py:243 | Removal drops exactly one user when one has the id, and changes nothing when none has it. |
| App.RemoveMemberKeeps | app.py:242-243 | On a list with distinct ids, removal keeps exactly the users with a different id. |
| App.RemoveMemberIds | app.py:243 | On a list with distinct ids, every id left after removal was there before and differs from the removed one. |
| App.RemoveMemberClears | app.py:242-243 | Removal keeps ids distinct and leaves no participant with the removed id. |
| App.LeaveEvent | app.py:239-247 | Leaving reports whether the user was a participant and removes them if so, shrinking the list by one. Afterwards the user is not a participant and ids stay distinct. |
| DefaultCatalog.Catalog | app.py:396-407 | The six seeded achievements, in order, have distinct ids, a known kind and a positive threshold. |
| DefaultCatalog.FirstEventExample | app.py:275-285 | A new user alone at a 10 kg event gets 100 points, one event and 10 kg, and is granted "Перші кроки" and then "Збирач". |
| DefaultCatalog.FirstEventGrants | app.py:52-71 | On statistics (100, 1, 10 kg, 0 m²) with nothing held, the seeded catalog grants exactly "Перші кроки" and "Збирач", in that order. |
| DefaultCatalog.HeldTail | app.py:53-66 | Once the first entry is held, the rest of the catalog grants only "Збирач" on those statistics. |
| DefaultCatalog.SharedEventExample | app.py:275-283 | With 5 kg shared by two participants, each gets the full 50 points but only 2.5 kg. |
| DefaultCatalog.HeldAchievementExample | app.py:53-58 | A user who already holds "Перші кроки" is granted only "Збирач". |
| DefaultCatalog.JoinScenario | app.py:225-230 | A user joining an uncapped event with no participants is admitted. |
| DefaultCatalog.CompletionScenario | app.py:250-291 | End to end: a volunteer joins and the organiser completes with 10 kg. The volunteer is reported both achievements and holds 100 points. |

## Left out

- Routing, templates, redirects, flash messages and login: each handler returns
  its outcome (refusal kind, or the granted names) instead of flashing it.
- `get_or_404`: the handlers take the event object directly, so the missing-event path is not modelled.
- Form parsing (`request.form.get(..., type=float)`): waste and area are
  parameters, and missing or malformed fields are not modelled.
- The after-image upload in `complete_event` (app.py:266-273): saving the file,
  `secure_filename`, the timestamp and `optimize_image`. Only the `allowed_file`
  decision is modelled.
- Database sessions and commits: persistence failure and rollback are not
  modelled, and neither is the commit inside `check_achievements`
  (app.py:73-74). That commit makes completion not atomic, since earlier
  participants' updates are committed before later ones are processed.
- Floating point: waste, area and their shares are exact reals, so rounding,
  NaN and infinities are not modelled.
- `str.lower()` on non-ASCII characters: `Uploads.Lower` folds only A-Z. No
  non-ASCII character lowers to a string that completes one of the five
  extensions, so the verdict is unaffected.
- A NULL `condition_type` or `condition_value` in the catalog is not modelled.
  Every entry carries a string kind and an integer threshold.
- `init_achievements` only inserts entries whose name is not yet present
  (app.py:409-419). The model takes the six entries as the catalog and leaves
  out that insertion step.
- Concurrency between requests (two completions, or a join racing a completion) is not modelled.
- The other handlers (registration, teams, places, maps, statistics pages) are
  not part of this model. Neither are the user's profile fields, nor event
  fields outside the membership and completion rules.
