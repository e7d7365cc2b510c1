/**
 * The plugin object and its two persisted options: the attempt log and the
 * counter of attempts not yet viewed. Each option is `None` while it is
 * missing from the option store.
 */
module AdminLoginNotifier {
  import opened Wrappers
  import opened AttemptLog

  /** The username watched unless a filter names another. */
  const DefaultUsername: string := "admin"

  /** The daily e-mail: recipient, the count its first sentence reports, and the password list. */
  datatype Mail = Mail(to: string, count: nat, listing: string)

  /** How the summary view ends. */
  datatype View =
    | Denied                    // the capability check failed and the request died
    | NoLog                     // the page returned false: no log, or an empty one
    | Table(rows: seq<Entry>)   // the page returned true after listing these rows

  /** A falsy PHP string: the empty string or "0". */
  predicate Falsy(s: string)
  {
    s == "" || s == "0"
  }

  /**
   * Whether the user lookup gave a usable recipient: a first user, present,
   * with a non-falsy address that the address validator accepts.
   */
  predicate HasRecipient(users: seq<Option<string>>, isEmail: string -> bool)
  {
    |users| > 0 && users[0].Some? && !Falsy(users[0].value) && isEmail(users[0].value)
  }

  class Notifier {
    /** Option `aln_login_attempts`. */
    var attempts: Option<seq<Slot>>
    /** Option `aln_login_attempts_since_viewed`. */
    var sinceViewed: Option<int>

    /** The counter as the plugin reads it: a missing option counts as 0. */
    function Unviewed(): int
      reads this
    {
      match sinceViewed
      case None => 0
      case Some(n) => n
    }

    /**
     * The states the three operations keep: a stored log has the placeholder
     * at its head and real attempts after it, and the counter lies between 0
     * and the number of recorded attempts.
     */
    ghost predicate Valid()
      reads this
    {
      && (attempts.Some? ==> WellFormed(attempts.value))
      && 0 <= Unviewed() <= |Attempts(AsArray(attempts))|
    }

    /** A fresh install: neither option exists yet. */
    constructor ()
      ensures attempts == None && sinceViewed == None
      ensures Valid()
    {
      attempts := None;
      sinceViewed := None;
    }

    /**
     * The authentication filter. It never decides the login: it hands back
     * `authResult` as it came. An attempt on the watched username is
     * appended to the log with its time and password, and the counter grows
     * by one.
     */
    method CheckLoginAttempt<A>(authResult: A, target: string, username: string, password: string, now: int)
      returns (r: A)
      modifies this
      ensures r == authResult
      ensures username != target ==> attempts == old(attempts) && sinceViewed == old(sinceViewed)
      ensures username == target ==>
        && attempts == Some(AsArray(old(attempts)) + [Some(Entry(now, password))])
        && sinceViewed == Some(old(Unviewed()) + 1)
      ensures old(Valid()) ==> Valid()
    {
      if target != username {
        return authResult;
      }
      ghost var wasValid := Valid();
      var alerts := AsArray(attempts);
      AttemptsAppend(alerts, Entry(now, password));
      attempts := Some(alerts + [Some(Entry(now, password))]);
      var count := Unviewed();
      sinceViewed := Some(count + 1);
      assert wasValid ==> WellFormed(attempts.value);
      r := authResult;
    }

    /**
     * The summary page. A viewer without the capability ends the request
     * before anything changes. Otherwise the counter is reset, and the page
     * lists every recorded attempt, or returns false when there is no log.
     */
    method SubmenuUi(authorized: bool) returns (view: View)
      modifies this
      ensures !authorized ==> view == Denied && attempts == old(attempts) && sinceViewed == old(sinceViewed)
      ensures authorized ==> sinceViewed == Some(0) && attempts == old(attempts)
      ensures authorized && (attempts.None? || attempts.value == []) ==> view == NoLog
      ensures authorized && attempts.Some? && attempts.value != [] ==> view == Table(Attempts(attempts.value))
      ensures old(Valid()) && authorized && attempts.Some? ==>
        && view.Table?
        && |view.rows| == |attempts.value| - 1
        && forall i :: 1 <= i < |attempts.value| ==> view.rows[i - 1] == attempts.value[i].value
      ensures old(Valid()) ==> Valid()
    {
      if !authorized {
        return Denied;
      }
      sinceViewed := Some(0);
      if attempts.None? || attempts.value == [] {
        return NoLog;
      }
      if WellFormed(attempts.value) {
        WellFormedAttempts(attempts.value);
      }
      var rows := ListRows(attempts.value);
      view := Table(rows);
    }

    /**
     * The daily job. It selects the passwords tried within the last day; with
     * none, or with no usable recipient, it stops and sends nothing. Otherwise
     * it sends one e-mail reporting how many there were and listing them, and
     * resets the counter only when the send succeeds. The log is never
     * changed.
     */
    method SendDailyEmail(now: int, users: seq<Option<string>>, isEmail: string -> bool, esc: string -> string, delivered: bool)
      returns (ok: bool, mail: Option<Mail>)
      modifies this
      ensures attempts == old(attempts)
      ensures Recent(Logged(attempts), now) == [] ==>
        !ok && mail == None && sinceViewed == old(sinceViewed)
      ensures Recent(Logged(attempts), now) != [] && !HasRecipient(users, isEmail) ==>
        !ok && mail == None && sinceViewed == old(sinceViewed)
      ensures Recent(Logged(attempts), now) != [] && HasRecipient(users, isEmail) ==>
        && mail == Some(Mail(users[0].value, |Recent(Logged(attempts), now)|, Listing(esc, Recent(Logged(attempts), now))))
        && ok == delivered
        && sinceViewed == if delivered then Some(0) else old(sinceViewed)
      ensures old(Valid()) ==> Valid()
    {
      var selected := SelectRecent(Logged(attempts), now);
      if selected == [] {
        return false, None;
      }
      if !HasRecipient(users, isEmail) {
        return false, None;
      }
      var address := users[0].value;
      var listing := RenderListing(esc, selected);
      mail := Some(Mail(address, |selected|, listing));
      if !delivered {
        return false, mail;
      }
      sinceViewed := Some(0);
      ok := true;
    }
  }

  /**
   * A day of the plugin's life from a fresh install: watched-name attempts at
   * two hours, twenty-five hours and one hour before the dispatch, one
   * attempt on another name, then a successful dispatch. The e-mail lists the
   * two passwords from the last day, in the order they were tried.
   */
  method DailyDigestExample(t: int) returns (mail: Option<Mail>, unviewed: int, logged: nat)
    ensures mail == Some(Mail("root@example.org", 2, "hunter2\nletmein\n"))
    ensures unviewed == 0
    ensures logged == 4
  {
    var n := new Notifier();
    var e1, e2, e3 := Entry(t - 7200, "hunter2"), Entry(t - 90000, "123456"), Entry(t - 3600, "letmein");
    var r := n.CheckLoginAttempt(false, DefaultUsername, DefaultUsername, "hunter2", t - 2 * 3600);
    assert AsArray(None) == [None];
    assert Entry(t - 2 * 3600, "hunter2") == e1;
    var one: seq<Slot> := [None, Some(e1)];
    assert AsArray(None) + [Some(e1)] == one;
    assert n.attempts == Some([None, Some(e1)]);
    r := n.CheckLoginAttempt(r, DefaultUsername, DefaultUsername, "123456", t - 25 * 3600);
    assert Entry(t - 25 * 3600, "123456") == e2;
    var two: seq<Slot> := [None, Some(e1), Some(e2)];
    assert one + [Some(e2)] == two;
    assert n.attempts == Some(two);
    r := n.CheckLoginAttempt(r, DefaultUsername, "editor", "secret", t - 3600);
    r := n.CheckLoginAttempt(r, DefaultUsername, DefaultUsername, "letmein", t - 3600);
    assert Entry(t - 3600, "letmein") == e3;
    var log: seq<Slot> := [None, Some(e1), Some(e2), Some(e3)];
    assert two + [Some(e3)] == log;
    assert n.attempts == Some(log);
    assert n.Unviewed() == 3;
    ExampleSelection(t);
    var ok;
    ok, mail := n.SendDailyEmail(t, [Some("root@example.org")], _ => true, Verbatim, true);
    unviewed := n.Unviewed();
    logged := |n.attempts.value|;
  }

  /** The selection and listing for the example's log. */
  lemma ExampleSelection(t: int)
    ensures var log: seq<Slot> := [None, Some(Entry(t - 7200, "hunter2")), Some(Entry(t - 90000, "123456")), Some(Entry(t - 3600, "letmein"))];
      Recent(log, t) == ["hunter2", "letmein"] && Listing(Verbatim, Recent(log, t)) == "hunter2\nletmein\n"
  {
    var s1, s2, s3 := Some(Entry(t - 7200, "hunter2")), Some(Entry(t - 90000, "123456")), Some(Entry(t - 3600, "letmein"));
    var l0: seq<Slot> := [None];
    assert Recent(l0, t) == [];
    RecentAppend(l0, s1, t);
    assert Pick(s1, t) == ["hunter2"];
    RecentAppend(l0 + [s1], s2, t);
    assert Pick(s2, t) == [];
    RecentAppend(l0 + [s1] + [s2], s3, t);
    assert Pick(s3, t) == ["letmein"];
    assert l0 + [s1] + [s2] + [s3] == [None, s1, s2, s3];
    assert ["hunter2"] + ["letmein"] == ["hunter2", "letmein"];
    ExampleListing();
  }

  /** The listing of the example's two recent passwords. */
  lemma ExampleListing()
    ensures Listing(Verbatim, ["hunter2", "letmein"]) == "hunter2\nletmein\n"
  {
  }
}
