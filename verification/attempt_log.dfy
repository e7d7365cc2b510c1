/**
 * The stored attempt log and the pure views the plugin takes of it: the
 * trailing-day selection that the daily e-mail reports, the plain-text
 * listing of passwords in that e-mail, and the rows of the summary table.
 */
module AttemptLog {
  import opened Wrappers

  /** Length of the e-mail window: one day, in seconds. */
  const DaySeconds: int := 60 * 60 * 24

  /** One recorded login attempt against the watched username. */
  datatype Entry = Entry(time: int, password: string)

  /**
   * One element of the stored log. `None` is the falsy placeholder that the
   * first write leaves at the head of the log, because casting a missing
   * option (`false`) to an array gives a one-element array holding `false`.
   */
  type Slot = Option<Entry>

  /** The log as the interceptor sees it: a missing option becomes `[false]`. */
  function AsArray(stored: Option<seq<Slot>>): seq<Slot>
  {
    match stored
    case None => [None]
    case Some(s) => s
  }

  /** The log as the dispatcher's `foreach` visits it: a missing option yields nothing. */
  function Logged(stored: Option<seq<Slot>>): seq<Slot>
  {
    match stored
    case None => []
    case Some(s) => s
  }

  /**
   * Whether a slot passes the strict trailing-day test. A placeholder has no
   * time (`false['time']` is null) and never passes.
   */
  predicate InWindow(slot: Slot, now: int)
  {
    slot.Some? && slot.value.time > now - DaySeconds
  }

  /** The password a slot contributes to the selection: one or none. */
  function Pick(slot: Slot, now: int): seq<string>
  {
    if InWindow(slot, now) then [slot.value.password] else []
  }

  /** Passwords of the entries inside the trailing day, in log order. */
  function Recent(log: seq<Slot>, now: int): (r: seq<string>)
    ensures |r| <= |log|
  {
    if log == [] then [] else Pick(log[0], now) + Recent(log[1..], now)
  }

  /** Selecting from a log extended by one slot extends the selection by that slot's pick. */
  lemma {:induction false} RecentAppend(log: seq<Slot>, slot: Slot, now: int)
    ensures Recent(log + [slot], now) == Recent(log, now) + Pick(slot, now)
  {
    if log != [] {
      assert (log + [slot])[1..] == log[1..] + [slot];
      RecentAppend(log[1..], slot, now);
    }
  }

  /**
   * A password is selected exactly when some entry inside the window
   * carries it; placeholders and entries exactly one day old never do.
   */
  lemma {:induction false} RecentMember(log: seq<Slot>, now: int, p: string)
    ensures p in Recent(log, now) <==>
      exists i :: 0 <= i < |log| && InWindow(log[i], now) && log[i].value.password == p
  {
    if log != [] {
      RecentMember(log[1..], now, p);
      if p in Recent(log[1..], now) {
        var i :| 0 <= i < |log[1..]| && InWindow(log[1..][i], now) && log[1..][i].value.password == p;
        assert InWindow(log[i + 1], now) && log[i + 1].value.password == p;
      }
      if exists i :: 0 <= i < |log| && InWindow(log[i], now) && log[i].value.password == p {
        var i :| 0 <= i < |log| && InWindow(log[i], now) && log[i].value.password == p;
        if i > 0 {
          assert InWindow(log[1..][i - 1], now) && log[1..][i - 1].value.password == p;
        }
      }
    }
  }

  /** The strict boundary: an entry exactly one day old is left out, one a second younger is kept. */
  lemma WindowBoundary(log: seq<Slot>, password: string, now: int)
    ensures Recent(log + [Some(Entry(now - DaySeconds, password))], now) == Recent(log, now)
    ensures Recent(log + [Some(Entry(now - DaySeconds + 1, password))], now) == Recent(log, now) + [password]
  {
    RecentAppend(log, Some(Entry(now - DaySeconds, password)), now);
    RecentAppend(log, Some(Entry(now - DaySeconds + 1, password)), now);
  }

  /**
   * The selection loop: walk the log in order and collect the password of
   * every entry newer than one day.
   */
  method SelectRecent(log: seq<Slot>, now: int) returns (selected: seq<string>)
    ensures selected == Recent(log, now)
  {
    selected := [];
    var i := 0;
    while i < |log|
      invariant 0 <= i <= |log|
      invariant selected == Recent(log[..i], now)
    {
      RecentAppend(log[..i], log[i], now);
      assert log[..i + 1] == log[..i] + [log[i]];
      if InWindow(log[i], now) {
        selected := selected + [log[i].value.password];
      }
      i := i + 1;
    }
    assert log[..i] == log;
  }

  /**
   * The e-mail's list of passwords: each one passed through the HTML escaper
   * `esc` and followed by a line break.
   */
  function Listing(esc: string -> string, passwords: seq<string>): string
  {
    if passwords == [] then [] else esc(passwords[0]) + "\n" + Listing(esc, passwords[1..])
  }

  lemma {:induction false} ListingAppend(esc: string -> string, passwords: seq<string>, p: string)
    ensures Listing(esc, passwords + [p]) == Listing(esc, passwords) + esc(p) + "\n"
  {
    if passwords != [] {
      assert (passwords + [p])[1..] == passwords[1..] + [p];
      ListingAppend(esc, passwords[1..], p);
    }
  }

  /** The listing loop: append each selected password, escaped, and a line break. */
  method RenderListing(esc: string -> string, passwords: seq<string>) returns (text: string)
    ensures text == Listing(esc, passwords)
  {
    text := [];
    var i := 0;
    while i < |passwords|
      invariant 0 <= i <= |passwords|
      invariant text == Listing(esc, passwords[..i])
    {
      ListingAppend(esc, passwords[..i], passwords[i]);
      assert passwords[..i + 1] == passwords[..i] + [passwords[i]];
      text := text + esc(passwords[i]) + "\n";
      i := i + 1;
    }
    assert passwords[..i] == passwords;
  }

  /** Index of the first line break in `s`, or `|s|` when there is none. */
  function LineEnd(s: string): (k: nat)
    ensures k <= |s|
    ensures forall j :: 0 <= j < k ==> s[j] != '\n'
    ensures k < |s| ==> s[k] == '\n'
  {
    if s == [] || s[0] == '\n' then 0 else 1 + LineEnd(s[1..])
  }

  /** How a reader of the e-mail recovers the passwords: split the listing at line breaks. */
  function ParseListing(s: string): seq<string>
    decreases |s|
  {
    if s == [] then []
    else
      var k := LineEnd(s);
      [s[..k]] + if k < |s| then ParseListing(s[k + 1..]) else []
  }

  /** The escaped form of each password, in order. */
  function Escaped(esc: string -> string, passwords: seq<string>): seq<string>
  {
    if passwords == [] then [] else [esc(passwords[0])] + Escaped(esc, passwords[1..])
  }

  /** The escaper that changes nothing: for passwords `esc_html` leaves as they are. */
  function Verbatim(s: string): string
  {
    s
  }

  /**
   * What a reader of the e-mail gets back: when no escaped password contains
   * a line break, splitting the listing gives the escaped passwords, one per
   * selected password, in order. The passwords themselves come back only as
   * far as the escaper leaves them unchanged.
   */
  lemma {:induction false} ListingRoundTrip(esc: string -> string, passwords: seq<string>)
    requires forall i :: 0 <= i < |passwords| ==> '\n' !in esc(passwords[i])
    ensures ParseListing(Listing(esc, passwords)) == Escaped(esc, passwords)
  {
    if passwords != [] {
      var p := esc(passwords[0]);
      var rest := Listing(esc, passwords[1..]);
      var s := Listing(esc, passwords);
      assert s == p + "\n" + rest;
      assert s[|p|] == '\n';
      var k := LineEnd(s);
      assert k <= |p|;
      assert s[..k] == p;
      assert s[k + 1..] == rest;
      ListingRoundTrip(esc, passwords[1..]);
    }
  }

  /** Escaping with the identity changes no password. */
  lemma {:induction false} EscapedVerbatim(passwords: seq<string>)
    ensures Escaped(Verbatim, passwords) == passwords
  {
    if passwords != [] {
      EscapedVerbatim(passwords[1..]);
    }
  }

  /** With an escaper that changes nothing, the reader gets back exactly the selected passwords. */
  lemma ListingRoundTripVerbatim(passwords: seq<string>)
    requires forall i :: 0 <= i < |passwords| ==> '\n' !in passwords[i]
    ensures ParseListing(Listing(Verbatim, passwords)) == passwords
  {
    ListingRoundTrip(Verbatim, passwords);
    EscapedVerbatim(passwords);
  }

  /** The real attempts of a log in order, skipping falsy placeholders. */
  function Attempts(log: seq<Slot>): (r: seq<Entry>)
    ensures |r| <= |log|
  {
    if log == [] then []
    else (if log[0].Some? then [log[0].value] else []) + Attempts(log[1..])
  }

  lemma {:induction false} AttemptsAppend(log: seq<Slot>, e: Entry)
    ensures Attempts(log + [Some(e)]) == Attempts(log) + [e]
  {
    if log != [] {
      assert (log + [Some(e)])[1..] == log[1..] + [Some(e)];
      AttemptsAppend(log[1..], e);
    }
  }

  /** Every recorded attempt appears among the rows, and nothing else does. */
  lemma {:induction false} AttemptsMember(log: seq<Slot>, e: Entry)
    ensures e in Attempts(log) <==> Some(e) in log
  {
    if log != [] {
      AttemptsMember(log[1..], e);
      assert log == [log[0]] + log[1..];
    }
  }

  /** The table loop: show each slot of the log, skipping falsy ones. */
  method ListRows(log: seq<Slot>) returns (rows: seq<Entry>)
    ensures rows == Attempts(log)
  {
    rows := [];
    var i := 0;
    while i < |log|
      invariant 0 <= i <= |log|
      invariant rows == Attempts(log[..i])
    {
      assert log[..i + 1] == log[..i] + [log[i]];
      if log[i].Some? {
        AttemptsAppend(log[..i], log[i].value);
        rows := rows + [log[i].value];
      } else {
        AttemptsSkip(log[..i]);
      }
      i := i + 1;
    }
    assert log[..i] == log;
  }

  lemma {:induction false} AttemptsSkip(log: seq<Slot>)
    ensures Attempts(log + [None]) == Attempts(log)
  {
    if log != [] {
      assert (log + [None])[1..] == log[1..] + [None];
      AttemptsSkip(log[1..]);
    }
  }

  /**
   * The shape every stored log has: the placeholder at the head and real
   * attempts after it.
   */
  predicate WellFormed(log: seq<Slot>)
  {
    |log| >= 1 && log[0].None? && forall i :: 1 <= i < |log| ==> log[i].Some?
  }

  /**
   * In a well-formed log the rows are exactly the slots after the head, one
   * row per slot, in order.
   */
  lemma {:induction false} WellFormedAttempts(log: seq<Slot>)
    requires WellFormed(log)
    ensures |Attempts(log)| == |log| - 1
    ensures forall i :: 1 <= i < |log| ==> Attempts(log)[i - 1] == log[i].value
  {
    AllRealAttempts(log[1..]);
    assert Attempts(log) == Attempts(log[1..]);
  }

  /** When every slot is a real attempt, the rows are those attempts, one per slot. */
  lemma {:induction false} AllRealAttempts(log: seq<Slot>)
    requires forall i :: 0 <= i < |log| ==> log[i].Some?
    ensures |Attempts(log)| == |log|
    ensures forall i :: 0 <= i < |log| ==> Attempts(log)[i] == log[i].value
  {
    if log != [] {
      AllRealAttempts(log[1..]);
      assert Attempts(log) == [log[0].value] + Attempts(log[1..]);
      forall i | 1 <= i < |log|
        ensures Attempts(log)[i] == log[i].value
      {
        assert log[1..][i - 1] == log[i];
      }
    }
  }
}
