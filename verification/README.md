# Admin Login Notifier — a Dafny model

Admin Login Notifier is a WordPress plugin. It watches logins against one
privileged username (`admin` unless a filter names another) and records every
password tried against it. Once a day it e-mails the passwords tried in the
last 24 hours to the first administrator. It also shows the whole record on an
admin page.

This model covers the bookkeeping in the class `Admin_Login_Notifier`. The
plugin keeps two options in the WordPress option store, and the model holds
them as fields of the class `AdminLoginNotifier.Notifier`:

- `attempts` is the attempt log (`aln_login_attempts`): a sequence of slots.
  Each slot is either an `Entry(time, password)` or `None`. `None` stands for
  the falsy placeholder that the first write leaves at the head of the log.
  The interceptor casts a missing option (`false`) to an array, which gives
  `[false]`, and appends to that. Both readers skip the placeholder.
- `sinceViewed` is the counter of attempts not yet viewed
  (`aln_login_attempts_since_viewed`). A missing counter reads as 0.

Each field is `None` while its option is missing. Three operations read or
write the fields:

- `CheckLoginAttempt` is the `authenticate` filter. It always passes the
  authentication result through unchanged. When the username is the watched
  one, it appends `(now, password)` to the log and adds one to the counter.
  It runs before authentication, so it records every attempt on that name,
  including one with the right password.
- `SendDailyEmail` is the daily job. It selects the passwords of the entries
  newer than one day (`time > now - 86400`, strict), in log order. It stops
  without sending when that selection is empty. It also stops when the user
  lookup gives no usable address. Only the first user of the lookup is
  examined: the job does not search further for a valid address. Otherwise
  it sends one mail, which reports the count and lists the passwords one per
  line. It resets the counter only
  when the send succeeds. The log is never purged.
- `SubmenuUi` is the summary page. A viewer without the capability ends the
  request and nothing changes. Otherwise the counter is reset to 0. The page
  then returns false when there is no log (missing or empty), and otherwise
  lists every real attempt.

Host calls become parameters of these methods: the current time (`now`), the
filtered username (`target`), the capability check (`authorized`), the
filtered user lookup (`users`, where `None` marks a falsy user), the address
validator (`isEmail`), the HTML escaper applied to each listed password
(`esc`) and the outcome of the mail send (`delivered`).

The loops of the source are non-mutating methods proved against pure
functions: `SelectRecent` computes `Recent`, `RenderListing` computes
`Listing`, and `ListRows` computes `Attempts`. The class predicate `Valid()`
holds from a fresh install on, and every operation preserves it. It says that
a stored log has the placeholder at its head and real attempts after it. It
also says that the counter lies between 0 and the number of recorded attempts.

Files: `wrappers.dfy` (Option), `attempt_log.dfy` (module `AttemptLog`: the
log, the window selection, the e-mail listing, the table rows) and
`notifier.dfy` (module `AdminLoginNotifier`: the class, its three operations
and an end-to-end example).

## Model

| member | source | states |
|---|---|---|
| `AdminLoginNotifier.Notifier.CheckLoginAttempt` | admin-login-notifier.php:22-38 | Returns the authentication result unchanged. If the username is not the target, the log and counter are unchanged. If it is the target, the new log is the old one plus one entry `(now, password)` at the end; a missing log first becomes `[placeholder]`. The counter becomes the old count plus one, where a missing counter counts as 0. The state invariant is preserved. |
| `AdminLoginNotifier.Notifier.SendDailyEmail` | admin-login-notifier.php:97-152 | The log is never changed. If the day's selection is empty, it returns false, sends nothing and leaves the counter alone. If the first user is missing, has a falsy address or an address the validator rejects, the same happens. Otherwise it sends one mail to that address. The mail reports a count equal to the selection's length and lists the selection, each password escaped. The method returns the send result, and the counter is 0 after a successful send and unchanged after a failed one. The state invariant is preserved. |
| `AdminLoginNotifier.Notifier.SubmenuUi` | admin-login-notifier.php:53-86 | An unauthorized viewer gets `Denied`, and the log and counter are unchanged. An authorized viewer always leaves the counter at 0 and the log untouched. The outcome is `NoLog` (false) when the log is missing or empty. Otherwise it is a table of exactly the log's real attempts, in order. From a valid state with a stored log, the table has one row per slot after the placeholder, and row `i - 1` is slot `i`'s attempt. The state invariant is preserved. |
| `AttemptLog.Recent` | admin-login-notifier.php:99-104 | The selection has at most one password per log slot. |
| `AttemptLog.SelectRecent` | admin-login-notifier.php:99-104 | The selection loop returns exactly `Recent(log, now)`: the passwords of the in-window entries, in log order. |
| `AttemptLog.RecentAppend` | admin-login-notifier.php:99-104 | Extending the log by one slot extends the selection by that slot's password exactly when the slot is an entry newer than one day. |
| `AttemptLog.RecentMember` | admin-login-notifier.php:101-104 | A password is selected if and only if some real log entry with `time > now - 86400` carries it. Placeholders are never selected. |
| `AttemptLog.WindowBoundary` | admin-login-notifier.php:102 | The window is strict: an entry exactly 86400 s old is left out, and one 86399 s old is selected. |
| `AttemptLog.RenderListing` | admin-login-notifier.php:137-138 | The listing loop produces exactly `Listing(esc, passwords)`: each password escaped and followed by a line break, in order. |
| `AttemptLog.ListingAppend` | admin-login-notifier.php:137-138 | Listing one more password appends that password, escaped, and a line break to the text. |
| `AttemptLog.ListingRoundTrip` | admin-login-notifier.php:134-140 | When no escaped password contains a line break, splitting the mail's listing at line breaks gives exactly the escaped selected passwords, one line each, in order. |
| `AttemptLog.EscapedVerbatim` | admin-login-notifier.php:138 | An escaper that leaves every password unchanged leaves the whole list unchanged. |
| `AttemptLog.ListingRoundTripVerbatim` | admin-login-notifier.php:134-140 | For passwords the escaper leaves unchanged and that hold no line break, splitting the listing gives back exactly the selected passwords, in order. |
| `AttemptLog.Attempts` | admin-login-notifier.php:77-81 | The table has at most one row per log slot. |
| `AttemptLog.ListRows` | admin-login-notifier.php:77-81 | The table loop returns exactly `Attempts(log)`: the real entries in log order, with falsy slots skipped. |
| `AttemptLog.AttemptsMember` | admin-login-notifier.php:77-81 | An entry is a table row if and only if it is recorded in the log. |
| `AttemptLog.AttemptsAppend` | admin-login-notifier.php:28-30 | Appending an attempt to the log appends it as the last table row. |
| `AttemptLog.AttemptsSkip` | admin-login-notifier.php:78-79 | A falsy slot adds no row. |
| `AttemptLog.WellFormedAttempts` | admin-login-notifier.php:28-30 | In a log as the interceptor builds it (placeholder at the head, attempts after it), the table has exactly one row per slot after the head, and row `i - 1` is slot `i`'s attempt. |
| `AttemptLog.AllRealAttempts` | admin-login-notifier.php:77-81 | When every slot is a real attempt, the table has one row per slot, and row `i` is slot `i`'s attempt. |
| `AdminLoginNotifier.ExampleSelection` | admin-login-notifier.php:99-104 | For a log with entries 2 h, 25 h and 1 h old, the selection is the 2 h and 1 h passwords in that order, and the listing is those two lines. |
| `AdminLoginNotifier.ExampleListing` | admin-login-notifier.php:137-138 | With an escaper that changes nothing, the example's two recent passwords are listed as `hunter2\nletmein\n`. |
| `AdminLoginNotifier.DailyDigestExample` | admin-login-notifier.php:97-152 | From a fresh install: three attempts on the watched name (2 h, 25 h and 1 h old) and one on another name, then a successful dispatch. The dispatch mails a count of 2 and the two recent passwords in order, and leaves the counter at 0. The log keeps all four slots: the placeholder and three attempts. |

## Left out

- Hook and lifecycle wiring (the constructor's hook registrations, `activation`, `deactivation`, `submenu`): these are registrations with the plugin API and have no logic of their own. The Dafny constructor only sets up a fresh install, where neither option exists yet.
- HTML output of the summary page (header, table markup, date formatting) and the mail's subject and fixed sentences: the model keeps the rows shown, the reported count and the password listing. `esc_html` on each listed password is the `esc` parameter; elsewhere `esc_html`, `esc_url`, `__`, `_n` and `number_format_i18n` are treated as the identity.
- The filters `aln_send_daily_email_address`, `aln_send_daily_email_subject` and `aln_send_daily_email_message` are taken as the identity. The `aln_username`, `aln_cap_level` and `aln_send_daily_email_user` filters are folded into the `target`, `authorized` and `users` parameters.
- `time()`, `current_user_can`, `wp_die`, `get_users`, `is_email`, `wp_mail` and `home_url` are host calls. Their outcomes are parameters; `wp_die` is the `Denied` outcome.
- The dispatcher calls `time()` anew on each pass of its selection loop. The model uses one instant `now` for the whole pass.
- `AdminLoginNotifier.Notifier.CheckLoginAttempt`: compares usernames as plain strings. PHP's loose `!=` would compare two numeric strings by value, which matters only when the watched name is numeric.
- Option values written by other code (a non-array log, a non-integer counter): the model's option values are always a missing option, a sequence of slots or an integer.
- `AttemptLog.ListingRoundTrip`: recovers the escaped passwords, not the passwords tried. `esc_html` turns `& < > " '` into entities, leaves existing entities alone and blanks invalid UTF-8, so two different passwords can print as the same line; the originals come back only where the escaper leaves them unchanged.
- PHP diagnostics and number widths: the warning from `foreach` over a missing option, the notice from `false['time']` on the placeholder, and the int-to-float overflow of `++$attempts_since_viewed` past `PHP_INT_MAX` are dropped. The model's counter is an unbounded integer.
- Persistence and atomicity of the option store: the options are plain fields, and there is no concurrency.
