# resQ emergency dispatch core, modelled in Dafny

This project models the server-side SOS bookkeeping of the resQ community
emergency-alerting platform. It also models the smaller self-contained pieces
of logic around it: the push-subscription table, the AI-triage string
pipeline, the registration validators, the CPR timer and three fall detectors.

- `js.dfy` (module `Js`) holds the shared pieces of JavaScript semantics: an
  `Option` type, `JsValue` for payload fields, `String.prototype.trim`,
  ASCII lower-casing, `Array.prototype.join` and `String.prototype.repeat`.
- `user_model.dfy` (module `UserModel`) holds the record shapes of the `user`
  collection and the mongoose schema rules: `required`, `enum` and `default`.
- `user_store.dfy` (module `UserStore`) holds the collection as an in-memory
  table, plus the three updates the socket handlers send to it. `Evolves`
  states the emergency-store invariant: no record is removed, no field but
  `isActive` changes, and `isActive` only goes from true to false.
- `sos_control.dfy` (module `SosControl`) holds the class `SosServer`. It
  keeps the subscriber registry, the socket-to-user map, an outbox of emitted
  events and the armed expiry timers. It has the connect, subscribe,
  unsubscribe, disconnect, raise, cancel and timer handlers. The two fan-out
  rules are specification functions (`NearbyEvents`, `CancelEvents`), each
  with a lemma that counts what every socket receives.
- `location_control.dfy` (module `LocationControl`) holds the
  `location:update` handler over the same store.
- `ai_assess.dfy` and `helperfunction.dfy` hold the two variants of
  `assessEmergencyWithGroq`. These are the history sentence, base64 cleaning
  and padding, the image URI, and the defaulting of the reply.
  `helperfunction.js` repeats the history and base64 code of `ai_assess.js`
  character for character. Its module therefore reuses the `AiAssess`
  functions and models only its own result and fallback.
- `push_service.dfy` (module `PushService`) holds the push-subscription
  table and the subscribe, unsubscribe, toggle and send operations.
- `register_form.dfy` (module `RegisterForm`) holds the registration page
  state, `validateForm`, `handleChange`, the entry helpers and the submit
  filters.
- `auth.dfy` (module `Auth`) holds the register guard chain and the login
  outcomes.
- `cpr_timer.dfy`, `fall_hook.dfy`, `fall_check.dfy` and `drop_alert.dfy`
  hold the CPR timer and the three fall detectors. Each one is a class that
  is tied to a pure step function, with lemmas about runs of steps.
- `url_base64.dfy` (module `UrlBase64`) holds `urlBase64ToUint8Array`. It
  has a base64url encoder as an independent reference (section 5 of RFC
  4648), and proves a round trip through it.

Things the model treats as inputs:

- The clock (`now`), fresh ids, and whether a database call throws
  (`dbFails`, `failure`, `saveOk`).
- The outcome of each web-push delivery (`send`).
- The bcrypt comparison, the gender encoder, and the acceleration
  magnitudes.
- The haversine distance, which is a function parameter about which nothing
  is assumed.

Socket emits become appends to `SosServer.outbox`. A `setTimeout` becomes an
entry of `SosServer.timers`, and `FireTimer` consumes it.

What the SOS handlers do, and do not do:

- A raise does not deactivate the raiser's earlier active emergencies. It
  only appends a record, so several records of one user can be active at
  once.
- A disconnect only removes the socket from the registry. Emergencies are
  left as they are.
- Subscribing does not push the active emergencies to the subscriber.
- The fan-out radius is 5000 m.
- No AED lookup, AI summary or push notification is made from the SOS
  handler.
- Expiry emits nothing.
- A raise by a user whose document does not exist still emits
  `emergency:nearby` and acknowledges ok: the update then matches nothing,
  and the requester snapshot is null.
- The connection handshake only verifies the token. There is no
  session-epoch check.

## Model

| member | source | states |
|---|---|---|
| Js.Trim | client/src/pages/Register.jsx:91 | the result is an infix of the input obtained by cutting white space only at both ends, and it neither starts nor ends with white space |
| Js.JsLength | client/src/pages/Register.jsx:85 | `.length` counts UTF-16 code units: between the number of characters and twice it, equal to it when every character is in the Basic Multilingual Plane, and 0 only for the empty string |
| Js.JoinConcat | server/ai_assess.js:14 | Array.prototype.join of two non-empty lists is the two joins with one separator between them |
| Js.Join | server/ai_assess.js:14-17 | Array.prototype.join on strings; it carries no contract of its own: Js.JoinConcat states its split law (one separator between the joins of two non-empty lists) and AiAssess.HistoryOfOneEntry, AiAssess.HistoryOfOneText and AiAssess.HistoryConcat the history strings it builds |
| Js.ToLowerAscii | server/Routes/Auth.js:14 | same length; each upper-case ASCII letter becomes its lower-case letter and every other character is kept |
| UserModel.CastMedical | server/Models/user.js:3-14 | a medical entry is accepted iff condition is present and non-empty; it stores that condition and the optional treatment and remarks as given |
| UserModel.ParseSkillLevel | server/Models/user.js:32-36 | a level is accepted iff it is adequate, proficient or professional, and it maps back to the same name |
| UserModel.CastSkill | server/Models/user.js:27-37 | a skill is accepted iff the name is a non-empty string and the level is one of the three enum values |
| UserModel.CastEmergency | server/Models/user.js:39-57 | an emergency record is accepted iff isActive and expiresAt are given; createdAt defaults to the current time; Image is optional |
| UserModel.CastLocation | server/Models/user.js:96-107 | each coordinate is optional and defaults to null; the location is known iff both are given |
| UserStore.FindUser | server/Socket/SOSControl.js:96 | the first document with the id, or None exactly when no document has it |
| UserStore.SetLocation | server/Socket/LocationControl.js:21-30 | only the matching user's location changes, to exactly the given coordinates; every other field and document is untouched; a missing id changes nothing |
| UserStore.PushEmergency | server/Socket/SOSControl.js:76-83 | the raiser's document gets exactly the new record appended and its location set; earlier records and other documents are untouched |
| UserStore.Deactivate | server/Socket/SOSControl.js:152-156 | the store changes iff the user's record with the id exists and is active; afterwards it is inactive; other users are untouched; the history is an evolution (nothing deleted, nothing reactivated) |
| UserStore.EvolvesTransitive | server/Socket/SOSControl.js:35-37 | histories compose: over any sequence of operations, no record is removed, no field but isActive changes, and isActive never goes from false to true |
| UserStore.DeactivateTouchesOneRecord | server/Socket/SOSControl.js:152-155 | deactivation keeps the number of records and leaves every record with another id unchanged |
| UserStore.DeactivateIdempotent | server/Socket/SOSControl.js:32-43 | deactivating an already deactivated record changes nothing, so expiry after cancel is a no-op |
| LocationControl.SameCoordinateRule | server/Socket/LocationControl.js:3-7 | validateLocation accepts exactly the payloads whose coordinates pass the raise handler's toNumber/validateCoords check: both are finite numbers |
| LocationControl.ValidateLocation | server/Socket/LocationControl.js:3-7 | both fields are of type number and finite; LocationControl.SameCoordinateRule proves it accepts exactly what the raise handler accepts |
| LocationControl.HandleLocationUpdate | server/Socket/LocationControl.js:13-36 | an invalid payload acks "Invalid location payload" and changes nothing; a failing update acks "Failed to save location" and changes nothing; otherwise the location becomes the payload's coordinates, then ok is acked |
| LocationControl.LocationUpdateEffect | server/Socket/LocationControl.js:24-27 | after an update, the user's document differs from the old one only in its location, which holds the payload's coordinates; other documents are unchanged |
| LocationControl.LocationUpdateIdempotent | server/Socket/LocationControl.js:21-30 | last write wins with no history: sending the same position twice stores the same as sending it once |
| SosControl.ToNumber | server/Socket/SOSControl.js:8-10 | the value itself when it is a finite number, otherwise null |
| SosControl.ValidateCoords | server/Socket/SOSControl.js:12-14 | both values are finite numbers; SosControl.RaiseCoordinatesAccepted proves a raise payload passes iff both fields are finite numbers |
| SosControl.RaiseCoordinatesAccepted | server/Socket/SOSControl.js:63-68 | a raise payload passes the coordinate check iff both fields are finite numbers |
| SosControl.SetAdd | server/Socket/SOSControl.js:55 | Set.add: the socket is a member afterwards, membership grows by exactly it, no duplicates arise, and adding a member again changes nothing |
| SosControl.SetDelete | server/Socket/SOSControl.js:59 | Set.delete: exactly that socket leaves, nothing else does, and deleting a non-member changes nothing |
| SosControl.NearbyEvents | server/Socket/SOSControl.js:106-136 | every emitted event is an emergency:nearby carrying this raise's alert, with a distance within 5000 m |
| SosControl.NearbyReachesExactly | server/Socket/SOSControl.js:89-136 | each socket receives emergency:nearby exactly once if it is subscribed under a user other than the raiser whose stored coordinates are valid and within 5000 m, and never otherwise |
| SosControl.RaiserNotAlerted | server/Socket/SOSControl.js:89-93 | the raiser's own sockets never receive its emergency:nearby |
| SosControl.CancelEvents | server/Socket/SOSControl.js:162-166 | every emitted event is an emergency:cancelled with this emergency id and owner |
| SosControl.CancelReachesAll | server/Socket/SOSControl.js:162-166 | a cancel reaches every socket of every subscriber set exactly once, and no other socket |
| SosControl.SosServer.constructor | server/Socket/SOSControl.js:5-6 | the registry and the socket map start empty, and nothing has been emitted |
| SosControl.SosServer.Connect | server/Socket/SOSControl.js:46-49 | a connection without a user id is ignored; otherwise only the socket-to-user entry is added |
| SosControl.SosServer.Subscribe | server/Socket/SOSControl.js:51-56 | the user's set is created on first use and this socket is added to it; nothing else changes and nothing is emitted |
| SosControl.SosServer.RemoveSubscription | server/Socket/SOSControl.js:59 | only this socket leaves only its user's set; no set is created |
| SosControl.SosServer.Unsubscribe | server/Socket/SOSControl.js:58-60 | only this socket leaves only its user's set; no set is created; other sets, the socket map, the outbox and the store are unchanged |
| SosControl.SosServer.Disconnect | server/Socket/SOSControl.js:175-178 | as unsubscribe, and the socket-to-user entry is dropped; emergencies are not touched |
| SosControl.SosServer.EmitSockets | server/Socket/SOSControl.js:115-134 | the inner loop appends one emergency:nearby per socket of the set, in set order |
| SosControl.SosServer.EmitNearby | server/Socket/SOSControl.js:106-136 | the loop over the other users appends exactly NearbyEvents to the outbox |
| SosControl.SosServer.EmitOwnerCancelled | server/Socket/SOSControl.js:163-165 | the inner loop appends one emergency:cancelled per socket of the set |
| SosControl.SosServer.EmitCancelled | server/Socket/SOSControl.js:162-166 | the loop over the registry appends exactly CancelEvents to the outbox |
| SosControl.SosServer.Raise | server/Socket/SOSControl.js:62-143 | invalid coordinates ack an error and change nothing; a failed save acks an error and changes nothing; otherwise one active record (expiresAt = createdAt + 600000) is appended, the location is set and a timer is armed; then the nearby events are emitted and the ack carries the same id and expiresAt |
| SosControl.SosServer.SaveEmergency | server/Socket/SOSControl.js:76-86 | the raise update is applied, then one expiry timer for that record is armed at its expiresAt |
| SosControl.SosServer.Cancel | server/Socket/SOSControl.js:145-173 | a missing id, a failing update, or an id that is not an active record of this user acks an error and emits nothing; otherwise the record becomes inactive, every subscribed socket gets emergency:cancelled, and ok is acked |
| SosControl.SosServer.FireTimer | server/Socket/SOSControl.js:32-43 | the timer deactivates its record only if it is still active (compare-and-set); firing after a cancel changes nothing; nothing is emitted |
| AiAssess.HistoryContext | server/ai_assess.js:9-18 | a missing or empty history gives "No known pre-existing conditions" |
| AiAssess.HistoryOfOneEntry | server/ai_assess.js:11-14 | a one-object list gives "condition (Treatment: t)", with "None" for a missing or empty treatment |
| AiAssess.HistoryOfOneText | server/ai_assess.js:15-17 | a one-string list gives that string |
| AiAssess.HistoryConcat | server/ai_assess.js:10-17 | the sentence for h + g is the sentence for h, then ", ", then g's items rendered in the branch h's first element chose: one item per element, in list order |
| AiAssess.HistoryBranchByFirst | server/ai_assess.js:10-17 | the branch is chosen by the first element's type alone |
| AiAssess.HeaderLength | server/ai_assess.js:22 | when the string starts with a data:image/<lower-case letters>;base64, header, that header's length |
| AiAssess.StripHeader | server/ai_assess.js:22 | the result is a suffix of the input, and only a matching header is ever cut off |
| AiAssess.StripHeaderRemoves | server/ai_assess.js:22 | a leading data:image/<lower-case letters>;base64, header is always removed |
| AiAssess.StripHeaderOnlyAtStart | server/ai_assess.js:22 | a string that does not start with data:image/ is left unchanged |
| AiAssess.KeepBase64Chars | server/ai_assess.js:23 | the result holds only A-Z, a-z, 0-9, '+', '/' and '=', with every such character kept in number; a clean input is unchanged |
| AiAssess.KeepBase64CharsConcat | server/ai_assess.js:23 | the filter works on each part of a string separately, so the kept characters stay in their order |
| AiAssess.Pad | server/ai_assess.js:26-29 | the length becomes a multiple of 4 by appending at most three '=', and none when it already is one |
| AiAssess.CleanBase64 | server/ai_assess.js:21-29 | the cleaned image holds only base64 characters and '=', and its length is a multiple of 4 |
| AiAssess.CleanAlphabetOnly | server/ai_assess.js:21-23 | a string over the base64 alphabet passes trim, header removal and filtering unchanged |
| AiAssess.CleanIdempotent | server/ai_assess.js:21-29 | cleaning a cleaned string returns it unchanged |
| AiAssess.ImageUri | server/ai_assess.js:31 | the URI is "data:image/jpeg;base64," followed by exactly the cleaned string |
| AiAssess.ImageUriHeaderRoundTrip | server/ai_assess.js:22-31 | the header rule strips the URI's own header back to exactly the cleaned data |
| AiAssess.Or | server/ai_assess.js:83-87 | a \|\| b is a when a is truthy and b otherwise |
| AiAssess.Normalise | server/ai_assess.js:82-88 | every field of the result is non-empty; a missing or falsy field is replaced by its fixed default, and a truthy one is kept |
| AiAssess.Assess | server/ai_assess.js:60-100 | every field is non-empty; any failure, or a reply that parses to null, gives the fallback with condition "Error", severity "Unknown" and location "Unknown"; any other parsed reply gives its normalisation, each field kept when truthy and defaulted otherwise |
| AiAssess.NormaliseIdempotent | server/ai_assess.js:82-88 | normalising a normalised result changes nothing |
| AiAssess.NormaliseKeepsComplete | server/ai_assess.js:82-88 | a reply whose five fields are non-empty strings passes through unchanged |
| HelperFunction.Assess | server/helperfunction.js:89-99 | success returns the parsed reply unchanged; failure returns the four-field fallback with condition "Error" and no location field |
| HelperFunction.NoDefaulting | server/helperfunction.js:89 | unlike ai_assess.js, an empty condition is returned empty and not replaced by "Unclear" |
| PushService.Select | server/PushNotifications/pushService.js:80-83 | the records a query keeps, in table order: exactly the table's records that satisfy it |
| PushService.FindPair | server/PushNotifications/pushService.js:15-19 | the first record for (userId, endpoint), or None exactly when there is none |
| PushService.SetEnabled | server/PushNotifications/pushService.js:66 | every record of the user gets the enabled flag and the time; every other record is unchanged |
| PushService.ResultsFor | server/PushNotifications/pushService.js:101-111 | one result per targeted record, in order, carrying its endpoint (and userId when tagged); success iff its delivery succeeded, and a failed one carries the error's message |
| PushService.CountSuccess | server/PushNotifications/pushService.js:114 | the number of successes is at most the number of results |
| PushService.CountSuccessPositive | server/PushNotifications/pushService.js:114-116 | success holds iff some delivery succeeded |
| PushService.PruneStep | server/PushNotifications/pushService.js:106-108 | a 410 or 404 answer deletes exactly that record by id; any other outcome deletes nothing |
| PushService.SendKeepsExactly | server/PushNotifications/pushService.js:102-111 | after a send, a record is gone iff it was targeted and its delivery was answered with 410 or 404 |
| PushService.ReportFacts | server/PushNotifications/pushService.js:114-120 | results has one entry per enabled targeted record, sent is at most total, and success holds iff sent > 0 |
| PushService.TargetsEnabledOnly | server/PushNotifications/pushService.js:132-135 | a send targets exactly the enabled records of the given users |
| PushService.PushTable.Subscribe | server/PushNotifications/pushService.js:13-40 | upsert on (userId, endpoint): the existing record gets the keys, enabled=true and the time, or one new record is appended; pairs stay unique; missing keys or a failing call change nothing |
| PushService.PushTable.Unsubscribe | server/PushNotifications/pushService.js:45-59 | with an endpoint, only that (userId, endpoint) record is deleted; without one, nothing is deleted and all the user's records are disabled |
| PushService.PushTable.Toggle | server/PushNotifications/pushService.js:64-72 | enabled is set on every record of the user and nothing else changes |
| PushService.PushTable.Deliver | server/PushNotifications/pushService.js:89-112 | the loop yields exactly ResultsFor (one result per record, with the error message of each failure) and deletes exactly the records answered with 410 or 404 |
| PushService.PushTable.SendTo | server/PushNotifications/pushService.js:130-182 | no enabled targeted records gives NoSubscriptions and changes nothing; otherwise a report with total = their number, sent = successes and success iff sent > 0 |
| PushService.PushTable.SendToUser | server/PushNotifications/pushService.js:77-125 | the single-user send: targets only that user's enabled records, with results that carry no userId |
| PushService.PushTable.SendToUsers | server/PushNotifications/pushService.js:130-182 | the many-user send: targets the enabled records of the listed users, with results tagged by userId |
| RegisterForm.Flag | client/src/pages/Register.jsx:91-111 | one rule of validateForm records its message exactly when that field's rule fails |
| RegisterForm.UsernameStep | client/src/pages/Register.jsx:85-90 | the space message overrides the length message (length in UTF-16 code units), and no other field is touched |
| RegisterForm.EmojiUsernameLongEnough | client/src/pages/Register.jsx:85-90 | a username of two emoji has `.length` 4, so the length rule accepts it |
| RegisterForm.UsernameRules | client/src/pages/Register.jsx:85-90 | a username shorter than 4 UTF-16 code units or containing ' ' is rejected, and the space message wins |
| RegisterForm.BlankIff | client/src/pages/Register.jsx:91 | !s or !s.trim() holds iff the string is only white space |
| RegisterForm.PresenceRules | client/src/pages/Register.jsx:91-96 | name is rejected when blank after trim, and birthday when empty |
| RegisterForm.ContactRules | client/src/pages/Register.jsx:97-102 | phoneNumber and address are rejected when blank after trim |
| RegisterForm.PasswordRules | client/src/pages/Register.jsx:103-111 | password needs 8 UTF-16 code units, confirmPassword must equal it, and gender must be non-empty |
| RegisterForm.CollectErrors | client/src/pages/Register.jsx:82-112 | every rule is evaluated; the dictionary holds exactly the messages of the failing rules |
| RegisterForm.PasswordErrorsTogether | client/src/pages/Register.jsx:103-108 | a password shorter than 8 code units that is also mistyped gets both errors |
| RegisterForm.AddSkill | client/src/pages/Register.jsx:54-56 | one blank skill is appended; the existing ones are kept |
| RegisterForm.AddMedical | client/src/pages/Register.jsx:68-70 | one blank medical entry is appended; the existing ones are kept |
| RegisterForm.RemoveAt | client/src/pages/Register.jsx:58-60 | exactly the entry at the index goes and the rest keep their order; an index out of range removes nothing |
| RegisterForm.UpdateSkill | client/src/pages/Register.jsx:62-66 | one field of one skill changes; all other entries and fields are unchanged |
| RegisterForm.UpdateMedical | client/src/pages/Register.jsx:76-80 | one field of one medical entry changes; all other entries and fields are unchanged |
| RegisterForm.ValidSkills | client/src/pages/Register.jsx:135 | exactly the skills with a non-blank name and a non-empty level are kept, every copy of each, as an order-preserving subsequence |
| RegisterForm.ValidMedical | client/src/pages/Register.jsx:136 | exactly the entries with a non-blank condition are kept, every copy of each, as an order-preserving subsequence |
| RegisterForm.SubmittedEntriesNonBlank | client/src/pages/Register.jsx:135-136 | no submitted skill name or medical condition is only white space, and every submitted level is non-empty |
| RegisterForm.RegisterPage.constructor | client/src/pages/Register.jsx:25-37 | every field is empty, and there are no entries and no errors |
| RegisterForm.RegisterPage.HandleChange | client/src/pages/Register.jsx:39-52 | only the named field is set, and only that field's error is cleared, and only if it was showing |
| RegisterForm.RegisterPage.ValidateForm | client/src/pages/Register.jsx:82-115 | the errors become exactly the failing rules' messages; the result is true iff no rule fails |
| RegisterForm.RegisterPage.HandleSubmit | client/src/pages/Register.jsx:117-149 | nothing is sent unless the form is valid; the payload carries the form fields, the filtered lists and no dependencies |
| RegisterForm.RegisterPage.AddSkillEntry | client/src/pages/Register.jsx:54-56 | the skills list becomes AddSkill of the old one; nothing else changes |
| RegisterForm.RegisterPage.RemoveSkillEntry | client/src/pages/Register.jsx:58-60 | the skills list becomes RemoveAt of the old one; nothing else changes |
| RegisterForm.RegisterPage.UpdateSkillEntry | client/src/pages/Register.jsx:62-66 | the skills list becomes UpdateSkill of the old one; nothing else changes |
| RegisterForm.RegisterPage.AddMedicalEntry | client/src/pages/Register.jsx:68-70 | the medical list becomes AddMedical of the old one; nothing else changes |
| RegisterForm.RegisterPage.RemoveMedicalEntry | client/src/pages/Register.jsx:72-74 | the medical list becomes RemoveAt of the old one; nothing else changes |
| RegisterForm.RegisterPage.UpdateMedicalEntry | client/src/pages/Register.jsx:76-80 | the medical list becomes UpdateMedical of the old one; nothing else changes |
| Auth.FindByUsername | server/Routes/Auth.js:87 | the first account with the name, or None exactly when the name is not taken |
| Auth.RegisterCheck | server/Routes/Auth.js:17-45 | registration passes iff the name and the email are free and every format guard holds, lengths in UTF-16 code units; a taken name is reported first, then a taken email |
| Auth.FormatGuardOrder | server/Routes/Auth.js:30-45 | the format guards report the first failure in the order: username length < 4, password length < 8 (UTF-16 code units), space, gender |
| Auth.LowerFacts | server/Routes/Auth.js:14 | lowercasing yields a lower-case string, leaves a lower-case one unchanged, and keeps spaces |
| Auth.CaseInsensitiveNames | server/Routes/Auth.js:14-17 | two names that differ only in the case of ASCII letters, position by position, lowercase to the same stored name, so they find the same account and get the same registration verdict for any password, gender and email |
| Auth.UserCollection.Register | server/Routes/Auth.js:11-79 | an account, stored under the lowercased name, is created only when every check passes and the save succeeds; the user object returned has no hash |
| Auth.UserCollection.Login | server/Routes/Auth.js:81-109 | an unknown name gives 401 "User does not exist!", a failed password check gives 401 "Incorrect password!"; otherwise 200 with the account without its hash |
| Auth.RegisteredNameIsTaken | server/Routes/Auth.js:14-21 | once a name is registered, registering it again in any letter case gives "User already exists!" |
| Auth.LoginFindsTheAccount | server/Routes/Auth.js:84-87 | with unique stored names, login finds the one account with that name |
| CprTimer.Duration | client/src/components/app/ActionGuideDrawer.jsx:9-31 | the phase durations are 20 and 6 seconds |
| CprTimer.Step | client/src/components/app/ActionGuideDrawer.jsx:308-336 | remaining > 1 counts down and keeps the phase; remaining 1 advances the phase mod 2 with that phase's full duration; cycleCount grows exactly on the wrap to phase 0; reachable states stay reachable |
| CprTimer.TicksAdd | client/src/components/app/ActionGuideDrawer.jsx:306-338 | a + b ticks are a ticks followed by b ticks |
| CprTimer.Countdown | client/src/components/app/ActionGuideDrawer.jsx:310-312 | while more than k seconds are left, k ticks only count down |
| CprTimer.TicksReachable | client/src/components/app/ActionGuideDrawer.jsx:310-334 | after any number of ticks, phaseIndex is in [0, 2) and remaining is in [1, duration] |
| CprTimer.CycleCountGrows | client/src/components/app/ActionGuideDrawer.jsx:320-324 | the cycle count never decreases and grows by at most one per tick |
| CprTimer.PhaseEnd | client/src/components/app/ActionGuideDrawer.jsx:310-334 | a phase lasts exactly its remaining seconds, and the last tick is the phase change |
| CprTimer.CompressionsToBreaths | client/src/components/app/ActionGuideDrawer.jsx:318-334 | the end of compressions starts 6 seconds of breaths in the same cycle |
| CprTimer.BreathsToCompressions | client/src/components/app/ActionGuideDrawer.jsx:318-334 | the end of breaths starts 20 seconds of compressions in the next cycle |
| CprTimer.FullCycle | client/src/components/app/ActionGuideDrawer.jsx:310-334 | 26 ticks from (0, 20) return to (0, 20) with cycleCount + 1 |
| CprTimer.Progress | client/src/components/app/ActionGuideDrawer.jsx:352 | the progress value is in [0, 100), and it is 0 exactly at the start of a phase |
| CprTimer.Timer.constructor | client/src/components/app/ActionGuideDrawer.jsx:286-296 | the timer starts at phase 0 with 20 seconds left, in cycle 1, not running |
| CprTimer.Timer.Tick | client/src/components/app/ActionGuideDrawer.jsx:300-344 | while running, the state moves by Step; a stopped timer does not move |
| CprTimer.Timer.Reset | client/src/components/app/ActionGuideDrawer.jsx:356-364 | reset restores phase 0, 20 seconds, cycle 1 and not running |
| CprTimer.Timer.ProgressValue | client/src/components/app/ActionGuideDrawer.jsx:348-352 | the progress bar value is in [0, 100) |
| FallHook.Classify | client/src/hooks/useAccelerometer.js:43-70 | below 0.5 g at rest starts a fall; above 6 g while falling is a detection; 0.8-1.2 g while falling settles; everything else is ignored |
| FallHook.DetectOnlyWhileFalling | client/src/hooks/useAccelerometer.js:51-69 | there is no detection or settling at rest, and no new fall while one is under way |
| FallHook.Detector.constructor | client/src/hooks/useAccelerometer.js:15-16 | the detector starts not falling, with no timer and no detections |
| FallHook.Detector.AtMostOneTimer | client/src/hooks/useAccelerometer.js:51-58 | at most one window timer is pending, and one is pending exactly while falling |
| FallHook.Detector.ResetState | client/src/hooks/useAccelerometer.js:31-41 | not falling, and the armed timer is cleared |
| FallHook.Detector.HandleMotion | client/src/hooks/useAccelerometer.js:43-70 | a fall start arms exactly one new timer; a detection resets the state and calls onFallDetected exactly once; settling resets without a call; other readings change nothing |
| FallHook.Detector.FireTimer | client/src/hooks/useAccelerometer.js:54-56 | timer expiry clears falling and nothing else |
| FallHook.Detector.Cleanup | client/src/hooks/useAccelerometer.js:97-101 | cleanup resets the state |
| FallCheck.OrZero | accelerometer.js:58-60 | acc.x or 0: a present axis value is kept, and a missing one counts as 0 |
| FallCheck.Next | accelerometer.js:16-42 | a fall is reported only from a fall under way, on an impact above 25, after at least 200 ms; a report always resets the state |
| FallCheck.ReportsNeedFalls | accelerometer.js:19-33 | a run reports no more falls than it has free-fall readings, plus one for a fall already under way |
| FallCheck.ShortFallNotReported | accelerometer.js:26-30 | a fall shorter than 200 ms is never reported |
| FallCheck.Monitor.constructor | accelerometer.js:7-8 | the monitor starts with falling false and startTime null |
| FallCheck.Monitor.CheckFall | accelerometer.js:16-42 | below 3 sets falling and records the start time once; above 25 while falling reports iff the fall lasted at least 200 ms, then resets; anything else resets; falling holds iff startTime is set |
| FallCheck.Monitor.HandleMotionEvent | accelerometer.js:50-68 | an event with a null axis is ignored; otherwise checkFall runs on the magnitude |
| FallCheck.Monitor.StopFallDetection | accelerometer.js:77-86 | stopping resets falling and startTime |
| DropAlert.Step | sandbox/Dom_stuff/accelerometer-demo/app.js:51-64 | a low reading increments the counter; any other reading zeroes it and clears the alert; the alert triggers iff the counter reaches 10 while no alert is active, and it is then active |
| DropAlert.StepConsistent | sandbox/Dom_stuff/accelerometer-demo/app.js:51-64 | an active alert always implies a counter of at least 10 |
| DropAlert.OneTriggerPerRun | sandbox/Dom_stuff/accelerometer-demo/app.js:51-64 | an unbroken run of low readings triggers at most once, and never while the alert is already active |
| DropAlert.RunFromRest | sandbox/Dom_stuff/accelerometer-demo/app.js:61-64 | from rest, a run of low readings triggers exactly once if it is at least 10 long, and otherwise never |
| DropAlert.LowRunTriggers | sandbox/Dom_stuff/accelerometer-demo/app.js:51-64 | a run with the alert silenced triggers exactly when the counter reaches 10 during it |
| DropAlert.DropDetector.constructor | sandbox/Dom_stuff/accelerometer-demo/app.js:4-5 | the counter starts at 0 with no alert |
| DropAlert.DropDetector.Reading | sandbox/Dom_stuff/accelerometer-demo/app.js:34-66 | the listener moves the state by Step and counts each trigger |
| UrlBase64.Padding | sandbox/Dom_stuff/web-push-demo/public/main.js:5 | the padding is at most 3, the padded length is a multiple of 4, and an aligned length gets none |
| UrlBase64.ReplaceAll | sandbox/Dom_stuff/web-push-demo/public/main.js:6 | each occurrence of the character is replaced and everything else is kept, with the same length |
| UrlBase64.ToStandard | sandbox/Dom_stuff/web-push-demo/public/main.js:6 | no '-' or '_' remains, other characters and the length are kept |
| UrlBase64.ToStandardAt | sandbox/Dom_stuff/web-push-demo/public/main.js:6 | every '-' becomes '+' and every '_' becomes '/', position by position |
| UrlBase64.StripPadding | sandbox/Dom_stuff/web-push-demo/public/main.js:7 | atob drops one or two final '=' only when the length is a multiple of 4 |
| UrlBase64.Atob | sandbox/Dom_stuff/web-push-demo/public/main.js:7 | atob succeeds iff the data left after padding removal is over the alphabet and not of length 1 mod 4; every decoded code unit is below 256 |
| UrlBase64.CharCodes | sandbox/Dom_stuff/web-push-demo/public/main.js:8 | one byte per character, equal to its char code |
| UrlBase64.UrlBase64ToUint8Array | sandbox/Dom_stuff/web-push-demo/public/main.js:4-9 | pad, rewrite to the standard alphabet, `atob`, one byte per character, `None` where `atob` throws; UrlBase64.RoundTrip proves it inverts the encoder, UrlBase64.WellFormedDecodes gives success and the byte count, UrlBase64.OneModFourFails the failing lengths |
| UrlBase64.PaddingCases | sandbox/Dom_stuff/web-push-demo/public/main.js:5 | lengths 0, 2, 3 and 1 mod 4 get 0, 2, 1 and 3 '=' |
| UrlBase64.PaddingStripped | sandbox/Dom_stuff/web-push-demo/public/main.js:5-7 | for a well-formed key, the '=' appended are exactly those atob strips again |
| UrlBase64.WellFormedDecodes | sandbox/Dom_stuff/web-push-demo/public/main.js:5-8 | a well-formed key decodes to 3 x (padded length) / 4 minus the padding count bytes |
| UrlBase64.OneModFourFails | sandbox/Dom_stuff/web-push-demo/public/main.js:5-7 | a key of length 1 mod 4 cannot be decoded |
| UrlBase64.EncodeUrl | sandbox/Dom_stuff/web-push-demo/public/main.js:1 | the reference base64url encoder (section 5 of RFC 4648, unpadded) produces only URL-safe characters, with the RFC's length |
| UrlBase64.DecodeEncode | sandbox/Dom_stuff/web-push-demo/public/main.js:7 | decoding the groups of an encoded byte string gives the bytes back |
| UrlBase64.RoundTrip | sandbox/Dom_stuff/web-push-demo/public/main.js:4-9 | urlBase64ToUint8Array inverts base64url encoding: every byte string comes back from its encoded key |

## Left out

- The haversine `distanceInMeters` (server/Socket/SOSControl.js:17-30) is floating-point trigonometry. It is the uninterpreted parameter `distance`, so "within 5000 m" is a predicate over it.
- JavaScript numbers are reals. NaN and the infinities exist only as the payload value `NonFinite`. No finite-precision arithmetic is modelled.
- Concurrency: each handler runs to completion as one step. In the source, other handlers can run at every `await`, for example between the raise update and the fan-out query.
- SosControl.SosServer.Raise: the payload is given as its two field values. A `null` payload (the `= {}` default applies only to `undefined`) throws at `payload.latitude` before any acknowledgement; it is not modelled.
- SosControl.SosServer.Cancel: likewise, a `null` payload throws at the destructuring of `emergencyId` before any acknowledgement; it is not modelled.
- LocationControl.HandleLocationUpdate: likewise, a `null` payload throws inside `validateLocation` before any acknowledgement; it is not modelled.
- Socket.io transport: rooms, `io.to(...).emit` failures and the optional `ack` callback are not modelled. Every acknowledgement is the method's result.
- Timers: `FireTimer` may fire any armed timer at any time. The model does not check the due time against a clock.
- SosControl.SosServer.FireTimer: the expiry update has two separate array conditions, and its positional `$` target is ambiguous. It is modelled as a compare-and-set on the user's first record with that id.
- SosControl.SosServer.Raise: the fresh ObjectId is a parameter, and the model does not require it to be unused. The requester snapshot is a record of the selected fields, not a mongoose document.
- SosControl.SosServer.Connect: the token check of `authenticateSocket` (server/Crypt/jwtHelper.js) is not part of this model. A connection comes with its user id or with none.
- Mongoose queries and casts outside the three updates modelled in `UserStore` are left out. These include the type casting of `$set` values and validators on update.
- The `GET /` route of server/Routes/Auth.js is left out. It only reads the user through `returnUserInfo` and clears the hash.
- Auth.UserCollection.Register: `toLowerCase` is modelled on ASCII letters only. A missing `username` or `password` in the request body, which makes the route throw, is not modelled. bcrypt, uuid, the JWT and `genderEncoder` are parameters.
- Auth.UserCollection.Register: `Account` is the document the route builds (`UID`, `hash`, `displayName`, `email`), not the schema of server/Models/user.js. That schema requires `name`, `birthday`, `phoneNumber`, `address` and `passwordHash`, so against it `save()` fails validation and the route answers 500; the 200 path exists only as the `saveOk` input. The route is also not mounted by server/index.js.
- Auth.UserCollection.Login: the bcrypt comparison is the parameter `passwordMatches`, and the token is the UID it is issued for. A request without `username` throws at `toLowerCase` before any answer; it is not modelled. The `hash` it reads belongs to the `Account` shape above, not to server/Models/user.js.
- AiAssess.HistoryContext: history elements are modelled as objects with optional string `condition` and `treatment`, or as strings. Three kinds of element are left out. A `null` element takes the object branch when it comes first (`typeof null` is "object"). In the object branch, `item.condition` on it throws before the `try`, so the call rejects; in the string branch, `join` renders it as "". An array element renders as "undefined (Treatment: None)" in the object branch and as its own comma-joined elements in the string branch. A `condition` or `treatment` that is a number, a boolean or `null` is stringified by the template literal; `treatment` is replaced by "None" when it is falsy. Other non-string elements in the string branch are stringified by `join`.
- AiAssess.Assess: the `fetch`, the response status and `JSON.parse` are one input, `Reply`. A non-string `base64Image`, which throws on `trim`, is not modelled.
- HelperFunction.Assess: the request payload and the `fetch` are left out, as in `AiAssess`.
- PushService.PushTable.Deliver: a `findByIdAndDelete` that throws inside the loop is not modelled. In the source it reaches the outer catch, so the send answers `{success: false, error}` after the earlier records were already deleted; `dbFails` covers only the initial lookup.
- PushService.PushTable.SendTo: the `error.message` of the outer catch is not carried; a failing lookup gives `SendError` without a message.
- PushService: `webpush.setVapidDetails` and `getPublicVapidKey` are left out; they are configuration. Each delivery outcome is the input `send`. ObjectIds are consecutive numbers.
- RegisterForm.UpdateSkill: requires an index inside the list. In JavaScript an index past the end would create a new entry, but the page only passes indices of rendered rows.
- RegisterForm.UpdateMedical: requires an index inside the list, for the same reason.
- RegisterForm.RegisterPage.HandleSubmit: the request, the toasts, the session update and the navigation are left out. The method returns the body that would be posted.
- CprTimer.Timer.Tick: the `BpmTimer` metronome (client/src/components/app/ActionGuideDrawer.jsx:113-280) is floating point and audio, and is left out. No code shown sets `running` to true, so the interval only runs if something else starts it.
- FallHook.Detector.HandleMotion: the magnitude `Math.sqrt` and the division by g are inputs (`totalG`). The permission request and the listener registration are left out.
- FallCheck.Monitor.HandleMotionEvent: the magnitude is the parameter `magnitude`. The console logging of `fallDetected` is a recorded `Report`.
- DropAlert.DropDetector.Reading: the magnitude is an input. The sensor setup, the DOM updates and the other sensors of the demo are left out.
- UrlBase64.UrlBase64ToUint8Array: `atob` is modelled as the forgiving-base64 decode of the WHATWG Infra standard (section 4.7). The `Uint8Array` is a sequence of bytes.
