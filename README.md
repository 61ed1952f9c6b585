# RailSafetyApp crossing dashboard — a Dafny model

RailSafetyApp is an Android dashboard for a railway level crossing. A
realtime database holds the crossing's `current` record and its `history`.
This project models the parts of the app that make decisions on that data:

- **Crossing** (`crossing.dfy`): the railway-crossing repository. It turns
  the current record into train status, gate status, speed and ETA text
  through fixed event and gate tables. A reset shows the gate "Open".
  A crossed train or a reset shows speed and ETA as "0.00". The repository
  projects the stored history into a newest-first event log. It falls back
  to a loading state when the record is missing, the listener is cancelled
  or a field read raises.
- **Countdown** (`countdown.dfy`): the home screen's ETA countdown. The
  train-status text decides whether a train approaches. A new ETA restarts
  a one-second countdown. Each tick takes a second off and updates a
  progress bar clamped to 0..100. Tearing the view down cancels the countdown.
- **Alerts** (`alerts.dfy`): the alerts screen's view model. It stores the
  alert list and a filter ("Active", "History", anything else), and
  publishes the filtered list whenever either changes.
- **Complaints** (`complaints.dfy`): complaint submission. Details, e-mail
  and phone are trimmed, and empty details are refused. The stored record
  is "pending" and uses "Not provided" for missing contacts. The
  maintainer e-mail follows only a successful write. The model also covers
  the e-mail's subject and contact section.
- **Text** and **Numbers** (`text.dfy`, `numbers.dfy`): the platform
  string and number operations the code above relies on. These are
  `trim`, `contains(ignoreCase)`, `replace`/`split`/`joinToString`,
  `replaceFirstChar { uppercase() }`, `String.format("%.2f")`,
  `Double.toString` of a whole number, `toFloatOrNull` and float-to-int
  truncation. Each is stated precisely enough to prove round trips: `%.2f`
  text reads back as the value rounded to two decimals, and
  `Long.toDouble().toString()` text reads back exactly.

Database snapshots are plain values (`Crossing.Value`). A typed read raises
on a value of the wrong type: `getValue(String)` on a non-string, and
`getValue(Long)` on anything but a long or a double in range. This raise is
the "exception while processing" path. The wall-clock times are
parameters. The database write and the mail transfer are outcomes passed
in.

Behaviour of the app worth knowing:

- Speed and ETA are not always two-decimal text. A long value is shown as
  `Double.toString` ("42.0"), and a string is passed through unchanged.
  `Crossing.NumberTextReadsBack` and `Crossing.LongTextHasOneDecimal`
  state this.
- A failing field read does not degrade only that field. Any raise resets
  every displayed value to the defaults and also clears the event log
  (`Crossing.CrossingRepository.ProcessLatestLog`).
- A complaint with no contact details is stored with "Not provided" in both
  fields. "Anonymous User" appears only in the e-mail's contact section.
  No maintainer-notification record is written; only the e-mail is sent.
- A mail transfer that fails or raises always shows "⚠️ Email failed, but
  complaint saved in database": the sending routine turns every exception
  into `false`. The "⚠️ Email error: …" toast comes only from an exception
  escaping the background task outside the transfer (`MailError` in the
  model).
- A new ETA that differs from the current one restarts the countdown only
  when a train approaches and the ETA is positive. Otherwise it does not
  cancel a countdown already posted; that countdown stops at its next tick.
- The app has no edge-triggered, once-per-approach notification: its
  notification service notifies on every `true` value of a `gateStatus`
  member that the app's database repository never defines. The app also
  has no multi-source alert merge (gate events and complaints turned into
  alerts). The alert list is modelled as the list the view model receives.

## Model

| member | source | states |
|---|---|---|
| Crossing.Reconcile | RailSafetyApp/app/src/main/java/com/example/myapplication2/repository/RailwayCrossingRepository.kt:144-200 | The result is `Raised` exactly when a typed read of event, gate_status, direction or timestamp raises. Otherwise the train status is the event table's label, or "Unknown Event" for an unmapped code; a missing event counts as `system_reset` and a missing gate as `opening`. The gate text follows `GateStatusText`. Speed and ETA are "0.00" on `train_crossed`/`system_reset`, whatever the payload; otherwise they are the rendered payload |
| Crossing.GateStatusText | RailSafetyApp/app/src/main/java/com/example/myapplication2/repository/RailwayCrossingRepository.kt:179-183 | "Open" after `system_reset`, whatever the gate reports. A known gate code gives its table label. Any other code comes back the same length, with its first character upper-cased and the rest unchanged |
| Crossing.EmptyRecordShowsNoTrain | RailSafetyApp/app/src/main/java/com/example/myapplication2/repository/RailwayCrossingRepository.kt:148-149 | A record with no fields at all displays "No Train Nearby", "Open", "0.00", "0.00" |
| Crossing.TrainStatusCases | RailSafetyApp/app/src/main/java/com/example/myapplication2/repository/RailwayCrossingRepository.kt:37-46 | Each of the eight labels is shown for its own event code and no other. "Unknown Event" is shown exactly for codes outside the table |
| Crossing.TrainStatusIdentifiesEvent | RailSafetyApp/app/src/main/java/com/example/myapplication2/repository/RailwayCrossingRepository.kt:175 | "Train Crossed" is shown iff the event is `train_crossed`, and "No Train Nearby" iff it is `system_reset`. No event is shown as "Loading Update..." |
| Crossing.NumberTextReadsBack | RailSafetyApp/app/src/main/java/com/example/myapplication2/repository/RailwayCrossingRepository.kt:154-168 | A double is shown as two-decimal text that parses back to the value rounded to two decimals. A long below 10^7 in magnitude parses back exactly and is not two-decimal text. A string is shown verbatim. An absent or other value is shown as "0.00" |
| Crossing.LongTextHasOneDecimal | RailSafetyApp/app/src/main/java/com/example/myapplication2/repository/RailwayCrossingRepository.kt:157 | `toDouble().toString()` of a long below 10^7 in magnitude has one decimal, not two |
| Crossing.HumanizeAt | RailSafetyApp/app/src/main/java/com/example/myapplication2/repository/RailwayCrossingRepository.kt:112-113 | An unmapped code keeps its length. Each underscore becomes a space. A character at the start, or after an underscore or space, is upper-cased; every other character is unchanged |
| Crossing.HumanizeExample | RailSafetyApp/app/src/main/java/com/example/myapplication2/repository/RailwayCrossingRepository.kt:112-113 | "foo_bar_baz" becomes "Foo Bar Baz" |
| Crossing.Describe | RailSafetyApp/app/src/main/java/com/example/myapplication2/repository/RailwayCrossingRepository.kt:115-121 | A history description is empty exactly when both the event code and the gate status are empty |
| Crossing.ToEvent | RailSafetyApp/app/src/main/java/com/example/myapplication2/repository/RailwayCrossingRepository.kt:105-131 | A child becomes an entry exactly when its three string reads succeed, its date is non-empty, and it has an event or a gate status. Every entry has a non-empty date and description |
| Crossing.ProjectHistory | RailSafetyApp/app/src/main/java/com/example/myapplication2/repository/RailwayCrossingRepository.kt:103-134 | The loop over the children, followed by the reversal, yields `HistoryView` of the children |
| Crossing.KeptEventsFromChildren | RailSafetyApp/app/src/main/java/com/example/myapplication2/repository/RailwayCrossingRepository.kt:123-128 | At most one entry is kept per child. An entry is kept exactly when some child projects to it |
| Crossing.HistoryViewFacts | RailSafetyApp/app/src/main/java/com/example/myapplication2/repository/RailwayCrossingRepository.kt:123-134 | The log is no longer than the history. A line is in it exactly when some child projects to it. Every line has a date and a description |
| Crossing.HistoryViewNewestFirst | RailSafetyApp/app/src/main/java/com/example/myapplication2/repository/RailwayCrossingRepository.kt:134 | When a newer child is appended and kept, its entry goes in front of all older ones; a dropped child leaves the log as it was |
| Crossing.CrossingRepository.constructor | RailSafetyApp/app/src/main/java/com/example/myapplication2/repository/RailwayCrossingRepository.kt:54-56 | The repository starts in the default state, which satisfies the display invariant |
| Crossing.CrossingRepository.SetDefaultValues | RailSafetyApp/app/src/main/java/com/example/myapplication2/repository/RailwayCrossingRepository.kt:215-222 | Both statuses become "Loading Update...", speed and ETA "0.00", the update time "--", and the log empty |
| Crossing.CrossingRepository.ProcessLatestLog | RailSafetyApp/app/src/main/java/com/example/myapplication2/repository/RailwayCrossingRepository.kt:144-212 | On success the four display strings are `Reconcile`'s, the update time is the given clock reading, and the log is untouched. On a raise, the whole state becomes the defaults. Both paths keep the invariant: a crossed, reset or loading status shows zero speed and ETA, and "No Train Nearby" shows the gate "Open" |
| Crossing.CrossingRepository.OnCurrentData | RailSafetyApp/app/src/main/java/com/example/myapplication2/repository/RailwayCrossingRepository.kt:69-87 | A missing record gives the defaults; a present one is processed as above |
| Crossing.CrossingRepository.OnCurrentCancelled | RailSafetyApp/app/src/main/java/com/example/myapplication2/repository/RailwayCrossingRepository.kt:89-96 | A cancelled listener gives the defaults |
| Crossing.CrossingRepository.OnHistoryData | RailSafetyApp/app/src/main/java/com/example/myapplication2/repository/RailwayCrossingRepository.kt:102-136 | The log becomes `HistoryView` of the children, and nothing else changes |
| Numbers.Fixed2 | RailSafetyApp/app/src/main/java/com/example/myapplication2/repository/RailwayCrossingRepository.kt:156 | `%.2f` text is an optional '-', digits, '.', and two digits. It starts with '-' exactly when the value is negative |
| Numbers.Round2 | RailSafetyApp/app/src/main/java/com/example/myapplication2/repository/RailwayCrossingRepository.kt:156 | The value `%.2f` displays is within 0.005 of the input and keeps its sign unless it is zero |
| Numbers.Fixed2ParsesBack | RailSafetyApp/app/src/main/java/com/example/myapplication2/ui/home/HomeFragment.kt:40-41 | Parsing `%.2f` text gives back the value rounded to two decimals |
| Numbers.LongToDoubleStringParsesBack | RailSafetyApp/app/src/main/java/com/example/myapplication2/repository/RailwayCrossingRepository.kt:157 | Parsing `toDouble().toString()` of a long below 10^7 in magnitude gives back the long |
| Numbers.LongToDoubleString | RailSafetyApp/app/src/main/java/com/example/myapplication2/repository/RailwayCrossingRepository.kt:157 | The text is non-empty and starts with '-' exactly when the long is negative |
| Numbers.Truncate | RailSafetyApp/app/src/main/java/com/example/myapplication2/ui/home/HomeFragment.kt:163 | `toInt()` drops the fraction toward zero: the result is within one of the value, on the zero side |
| Numbers.ParseFloat | RailSafetyApp/app/src/main/java/com/example/myapplication2/ui/home/HomeFragment.kt:116 | `toFloatOrNull()` on blank text gives no number. A parsed value is non-positive when the text, once surrounding control characters are dropped, starts with '-', and non-negative otherwise |
| Numbers.ParseFloatOrZero | RailSafetyApp/app/src/main/java/com/example/myapplication2/ui/home/HomeFragment.kt:153 | `toFloatOrNull() ?: 0f`: text that does not parse, blank text included, counts as zero. A non-zero result is the parsed value, and a negative one comes only from text starting with '-' |
| Text.Trim | RailSafetyApp/app/src/main/java/com/example/myapplication2/MainActivity.kt:248-250 | The result is the input with some leading and some trailing whitespace cut off and nothing else changed. What remains neither starts nor ends with whitespace. It is empty exactly when the input is all whitespace |
| Text.TrimIsUnique | RailSafetyApp/app/src/main/java/com/example/myapplication2/MainActivity.kt:248-250 | Any cut of whitespace-only ends that leaves text empty, or starting and ending with non-whitespace, is exactly the trimmed result, so the contract of `Trim` fixes its value |
| Text.CapitalizeFirst | RailSafetyApp/app/src/main/java/com/example/myapplication2/repository/RailwayCrossingRepository.kt:182 | The length is kept, the first character is upper-cased, and the rest is unchanged |
| Text.ContainsIgnoringCaseIsSomeMatch | RailSafetyApp/app/src/main/java/com/example/myapplication2/ui/home/HomeFragment.kt:89-90 | The case-insensitive search succeeds exactly when the pattern matches, character by character ignoring case, at some offset |
| Text.CapitalizeWordsAt | RailSafetyApp/app/src/main/java/com/example/myapplication2/repository/RailwayCrossingRepository.kt:112-113 | Splitting on spaces, capitalising each piece and joining with spaces keeps the length. It upper-cases exactly the characters at the start or after a space |
| Text.JoinSplit | RailSafetyApp/app/src/main/java/com/example/myapplication2/repository/RailwayCrossingRepository.kt:112-113 | Joining with spaces the pieces split on spaces gives back the input |
| Text.ReplaceChar | RailSafetyApp/app/src/main/java/com/example/myapplication2/repository/RailwayCrossingRepository.kt:112 | Each occurrence of the character is replaced, position by position, and nothing else changes |
| Countdown.ApproachingStatuses | RailSafetyApp/app/src/main/java/com/example/myapplication2/ui/home/HomeFragment.kt:89-90 | Of the status texts the repository can post, exactly those of `train_detected` and `speed_calculated` count as approaching. "Loading Update..." does not |
| Countdown.ProgressBounds | RailSafetyApp/app/src/main/java/com/example/myapplication2/ui/home/HomeFragment.kt:161-166 | Progress lies within 0..100. It is 100 at an ETA of zero or less and 0 at an ETA of at least the maximum. It never decreases as the ETA falls |
| Countdown.Clamp | RailSafetyApp/app/src/main/java/com/example/myapplication2/ui/home/HomeFragment.kt:163 | `coerceIn(0, 100)`: the result lies within the bounds, and it equals the input whenever the input does |
| Countdown.TickEta | RailSafetyApp/app/src/main/java/com/example/myapplication2/ui/home/HomeFragment.kt:35-37 | A positive ETA drops to a value that is non-negative and strictly smaller; any other ETA is left alone |
| Countdown.CountdownReachesZero | RailSafetyApp/app/src/main/java/com/example/myapplication2/ui/home/HomeFragment.kt:33-46 | Left running, a countdown from a non-negative ETA reaches zero within that many ticks and stays there |
| Countdown.EtaCountdown.constructor | RailSafetyApp/app/src/main/java/com/example/myapplication2/ui/home/HomeFragment.kt:25-31 | The countdown starts not approaching, with both ETAs 0, the maximum at 30, nothing posted, and the bar at 0 |
| Countdown.EtaCountdown.UpdateEtaProgress | RailSafetyApp/app/src/main/java/com/example/myapplication2/ui/home/HomeFragment.kt:151-190 | The maximum is first raised to any larger parsed ETA, and the bar is `Progress` of that. An ETA of exactly zero puts the maximum back to 30. The maximum stays at least 30 and the bar within 0..100 |
| Countdown.EtaCountdown.OnTrainStatus | RailSafetyApp/app/src/main/java/com/example/myapplication2/ui/home/HomeFragment.kt:84-98 | The approaching flag becomes the case-insensitive test for "Approaching" or "Moving". A status that is not approaching cancels the countdown and zeroes both ETAs. An approaching status leaves them as they were |
| Countdown.EtaCountdown.OnEta | RailSafetyApp/app/src/main/java/com/example/myapplication2/ui/home/HomeFragment.kt:113-133 | An ETA equal to the current one changes nothing. A different one replaces both ETAs, with unparseable text counting as 0; it is shown and updates the bar. It posts the countdown when a train approaches and the new ETA is positive |
| Countdown.EtaCountdown.Tick | RailSafetyApp/app/src/main/java/com/example/myapplication2/ui/home/HomeFragment.kt:33-47 | While approaching with a positive ETA, a tick takes one second off, never going below zero. It shows the new ETA as `%.2f` text and passes that text to the progress update, then reposts itself. Otherwise it changes nothing and is not reposted. A non-negative ETA stays non-negative |
| Countdown.ShownEtaReadsBack | RailSafetyApp/app/src/main/java/com/example/myapplication2/ui/home/HomeFragment.kt:40-41 | The `%.2f` text a tick shows parses back as the ETA rounded to two decimals, so the bar follows the rounded ETA |
| Countdown.EtaCountdown.OnDestroyView | RailSafetyApp/app/src/main/java/com/example/myapplication2/ui/home/HomeFragment.kt:192-196 | Teardown removes the posted countdown and leaves everything else as it was |
| Alerts.NewAlert | RailSafetyApp/app/src/main/java/com/example/myapplication2/models/Alert.kt:3-11 | A new alert is unread and carries the given fields |
| Alerts.SelectMembers | RailSafetyApp/app/src/main/java/com/example/myapplication2/ui/slideshow/SlideshowViewModel.kt:41-42 | An alert is selected exactly when it is in the list and its read flag matches |
| Alerts.SelectInOrder | RailSafetyApp/app/src/main/java/com/example/myapplication2/ui/slideshow/SlideshowViewModel.kt:41-42 | The selected alerts are a subsequence of the list: they come from increasing positions, in their original order |
| Alerts.SelectPartition | RailSafetyApp/app/src/main/java/com/example/myapplication2/ui/slideshow/SlideshowViewModel.kt:40-45 | The unread and read selections partition the list: their lengths add up, and their multisets sum to the list's |
| Alerts.FilteredCases | RailSafetyApp/app/src/main/java/com/example/myapplication2/ui/slideshow/SlideshowViewModel.kt:39-45 | "Active" yields exactly the unread alerts, in order. "History" yields exactly the read ones, in order. "All" or any other filter yields the list unchanged |
| Alerts.AlertsViewModel.constructor | RailSafetyApp/app/src/main/java/com/example/myapplication2/ui/slideshow/SlideshowViewModel.kt:14-18 | The view model starts with the filter "Active", an empty list, and nothing published |
| Alerts.AlertsViewModel.ApplyFilter | RailSafetyApp/app/src/main/java/com/example/myapplication2/ui/slideshow/SlideshowViewModel.kt:39-47 | The filtered list is published; the filter and the stored list are left alone |
| Alerts.AlertsViewModel.FilterAlerts | RailSafetyApp/app/src/main/java/com/example/myapplication2/ui/slideshow/SlideshowViewModel.kt:34-37 | The filter is recorded and applied to the stored list. What is published is always the current filter over the stored list |
| Alerts.AlertsViewModel.OnAlerts | RailSafetyApp/app/src/main/java/com/example/myapplication2/ui/slideshow/SlideshowViewModel.kt:28-31 | The new list is stored and the unchanged filter is applied to it, keeping the same invariant |
| Complaints.ChooseType | RailSafetyApp/app/src/main/java/com/example/myapplication2/MainActivity.kt:241-243 | A chosen type is always one of the offered types |
| Complaints.DefaultTypeIsFirstChoice | RailSafetyApp/app/src/main/java/com/example/myapplication2/MainActivity.kt:201-209 | The dialog starts on the first of the five types, "Gate Malfunction" |
| Complaints.NewComplaint | RailSafetyApp/app/src/main/java/com/example/myapplication2/MainActivity.kt:273-280 | Every record is "pending" and carries the given type, details and time. Its contact fields are never empty |
| Complaints.ContactFieldReadsBack | RailSafetyApp/app/src/main/java/com/example/myapplication2/MainActivity.kt:278-279 | A non-empty contact is stored verbatim and an empty one as "Not provided". The entry reads back unless it was literally "Not provided" |
| Complaints.SubjectNamesType | RailSafetyApp/app/src/main/java/com/example/myapplication2/MainActivity.kt:366 | The subject is the fixed prefix followed by the type. Different types give different subjects |
| Complaints.BuildContactInfo | RailSafetyApp/app/src/main/java/com/example/myapplication2/MainActivity.kt:356-360 | The section starts with the e-mail line exactly when an address is given, and it ends with the phone line whenever a phone is given. It is "Anonymous User" exactly when neither is given |
| Complaints.ContactInfoOpening | RailSafetyApp/app/src/main/java/com/example/myapplication2/MainActivity.kt:356-360 | The section opens with the e-mail line exactly when an address is given, and is "Anonymous User" exactly when neither contact is given |
| Complaints.ContactInfoClosing | RailSafetyApp/app/src/main/java/com/example/myapplication2/MainActivity.kt:356-360 | A given phone number is the last line of the section |
| Complaints.ContactInfoReadsBack | RailSafetyApp/app/src/main/java/com/example/myapplication2/MainActivity.kt:356-360 | The address and phone can be read back from the section, provided the address is a single line |
| Complaints.Submit | RailSafetyApp/app/src/main/java/com/example/myapplication2/MainActivity.kt:247-316 | A record is stored exactly when the trimmed details are non-empty and the write succeeds. It holds the trimmed inputs. An e-mail is sent exactly when a record was stored, with the subject and the contact section built from the trimmed, unsentineled contacts. The notices are the details hint, the write-failure toast, or success, snackbar and mail outcome; the mail outcome never changes what is stored |

## Left out

- Database plumbing is out: listener registration, `orderByKey().limitToLast(20)`, LiveData posting and threading. The history is the list of children the listener receives.
- The `sensor` field is not modelled, because it is read untyped and only logged. `direction` and `timestamp` are read only for their ability to raise.
- SMTP transport, credentials, the permission request, navigation, the diagnostic reads and writes, and the e-mail body layout are out; the body holds no decision. The mail transfer is a `MailOutcome`.
- Wall-clock times are parameters: the "hh:mm:ss a" update stamp and the complaint timestamp.
- Float arithmetic is modelled with exact reals. `Float` rounding, NaN and infinities are not modelled, and neither are `toFloatOrNull`'s "NaN", "Infinity" and hexadecimal forms (treated as unparseable). `String.format`'s locale is taken to use '.'.
- Numbers.Fixed2: the value is taken to be the decimal the double stands for, and half-up rounding is applied to it; binary representation error is not modelled.
- Numbers.LongToDoubleStringParsesBack: the round trip is proved below 10^7 in magnitude only, where `Double.toString` uses plain notation.
- Case mapping (`uppercase`, `ignoreCase`) is ASCII only.
- Progress-bar colours and the other view bindings are out. The ETA text view starts empty here because the layout file is not part of this model.
- `FirebaseRepository.kt`, `NotificationService.kt`, the alert merge, adapters, other fragments and view models, and the unused data classes are not part of this model.
- Alerts.AlertsViewModel.OnAlerts: in the app this callback is registered on a mediator that is never observed, so it never fires. The model gives the callback as written.
