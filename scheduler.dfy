/** The e-mail scheduler (server/cron/scheduler.js). Every ten minutes a tick
    lists all profile records, reads each user's settings with defaults,
    decides with wrap-around clock arithmetic whether the user's preferred
    minute fell within the last ten minutes, applies the frequency and day
    filter, and for a due user mails one excerpt of a randomly chosen book.

    The clock (minute of the day, day of the week), `Math.random()` and the
    store's failures are inputs; the e-mails handed to the mail relay are the
    output. */
module Scheduler {
  import opened Common
  import opened Json
  import opened Store

  const MinutesPerDay: int := 1440
  /** A user is due when the preferred minute lies less than this many
      minutes before now. */
  const DueWindow: int := 10
  // The cron schedule "every tenth minute" fires at the minutes divisible by 10.
  const TickPeriod: int := 10
  const TicksPerDay: int := 144

  const DefaultFrequency: string := "daily"
  const DefaultTime: string := "08:00"
  const DefaultDay: int := 1

  // ---------------------------------------------------------------------------
  // The due rule
  // ---------------------------------------------------------------------------

  /** JavaScript's `a % n` for a positive n: the remainder takes the sign of
      the dividend, unlike Dafny's Euclidean `%`. */
  function JsRemainder(a: int, n: int): (r: int)
    requires n > 0
    ensures a >= 0 ==> 0 <= r < n
    ensures a < 0 ==> -n < r <= 0
  {
    if a >= 0 then a % n else -((-a) % n)
  }

  /** `preferredTime.split(':').map(Number)` followed by
      `prefHour * 60 + prefMinute`; `None` is NaN (a missing minute part or a
      part that is not a number). An "Infinity" part is read as NaN too:
      `Infinity * 60 + m` makes `diff` NaN, which is never due, just as
      NaN. */
  function PrefMinutes(time: string): Option<int> {
    var parts := Split(time, ':');
    if |parts| < 2 then None
    else
      match (StringToNumber(parts[0]), StringToNumber(parts[1]))
      case (Some(h), Some(m)) => Some(h * 60 + m)
      case _ => None
  }

  /** `(nowTotalMinutes - prefTotalMinutes + 1440) % 1440`. */
  function Diff(now: int, pref: int): int {
    JsRemainder(now - pref + MinutesPerDay, MinutesPerDay)
  }

  /** `diff >= 0 && diff < 10`; a NaN preference is never due. */
  predicate Due(now: int, pref: Option<int>) {
    pref.Some? && 0 <= Diff(now, pref.value) < DueWindow
  }

  /** For a clock time and a preference inside the day, the difference is the
      minutes elapsed since the preferred minute, wrapping at midnight, and the
      `diff >= 0` half of the test is redundant. */
  lemma DiffWithinDay(now: int, pref: int)
    requires 0 <= now < MinutesPerDay && 0 <= pref < MinutesPerDay
    ensures 0 <= Diff(now, pref) < MinutesPerDay
    ensures now >= pref ==> Diff(now, pref) == now - pref
    ensures now < pref ==> Diff(now, pref) == now - pref + MinutesPerDay
    ensures Due(now, Some(pref)) <==> Diff(now, pref) < DueWindow
  {
    var a := now - pref + MinutesPerDay;
    assert 0 < a < 2 * MinutesPerDay;
    if a >= MinutesPerDay {
      assert a % MinutesPerDay == a - MinutesPerDay;
    } else {
      assert a % MinutesPerDay == a;
    }
  }

  /** An "HH:MM" time whose hour and minute are two-digit numbers parses to
      hour * 60 + minute. */
  lemma PrefMinutesOfClockTime(hh: string, mm: string)
    requires |hh| == 2 && |mm| == 2 && AllDigits(hh) && AllDigits(mm)
    ensures PrefMinutes(hh + ":" + mm) == Some(DigitsValue(hh) * 60 + DigitsValue(mm))
  {
    ClockParts(hh, mm);
    assert StringToNumber(hh) == Some(DigitsValue(hh));
    assert StringToNumber(mm) == Some(DigitsValue(mm));
  }

  lemma ClockParts(hh: string, mm: string)
    requires |hh| == 2 && |mm| == 2 && AllDigits(hh) && AllDigits(mm)
    ensures Split(hh + ":" + mm, ':') == [hh, mm]
  {
    assert ':' !in hh;
    assert ':' !in mm;
    SplitAt(hh, ':', mm);
    SplitNone(mm, ':');
    assert hh + ":" + mm == hh + [':'] + mm;
  }

  /** Worked examples of the due rule: a preference of 23:55 matches at
      00:02 across midnight (difference 7), a preference of 08:00 does not
      match at 08:13 (difference 13) but does at 08:03. */
  lemma DueExamples()
    ensures PrefMinutes("23:55") == Some(1435) && Diff(2, 1435) == 7 && Due(2, PrefMinutes("23:55"))
    ensures PrefMinutes("08:00") == Some(480) && Diff(493, 480) == 13 && !Due(493, PrefMinutes("08:00"))
    ensures Due(483, PrefMinutes("08:00"))
  {
    PrefMinutesOfClockTime("23", "55");
    assert "23" + ":" + "55" == "23:55";
    PrefMinutesOfClockTime("08", "00");
    assert "08" + ":" + "00" == "08:00";
    DiffWithinDay(2, 1435);
    DiffWithinDay(493, 480);
    DiffWithinDay(483, 480);
  }

  /** `Number()` also reads prefixed literals, so a time of "0x8:00" means
      08:00 and is due at 08:03, and a day of "0x1" means Monday. */
  lemma PrefixedPreferences()
    ensures PrefMinutes("0x8:00") == Some(480) && Due(483, PrefMinutes("0x8:00"))
    ensures ToNumber(Some(Str("0x1"))) == Some(1)
  {
    HexTimeParts();
    HexNumbers();
    DiffWithinDay(483, 480);
  }

  lemma HexTimeParts()
    ensures Split("0x8:00", ':') == ["0x8", "00"]
  {
    assert ':' !in "0x8";
    assert ':' !in "00";
    SplitAt("0x8", ':', "00");
    SplitNone("00", ':');
    assert "0x8:00" == "0x8" + [':'] + "00";
  }

  lemma HexNumbers()
    ensures StringToNumber("0x8") == Some(8) && StringToNumber("00") == Some(0)
    ensures StringToNumber("0x1") == Some(1)
  {
    assert !IsDigit("0x8"[1]) && "0x8"[2..] == "8" && "8"[..0] == "";
    assert !IsDigit("0x1"[1]) && "0x1"[2..] == "1" && "1"[..0] == "";
    assert "00"[..1] == "0" && "0"[..0] == "";
  }

  /** A stored time outside the day (hour 25) gives a negative difference
      shortly after midnight: only there does the `diff >= 0` test matter. */
  lemma OutOfRangeTimeGivesNegativeDiff()
    ensures PrefMinutes("25:00") == Some(1500)
    ensures Diff(0, 1500) == -60 && !Due(0, Some(1500))
  {
    PrefMinutesOfClockTime("25", "00");
    assert "25" + ":" + "00" == "25:00";
  }

  /** The tick (index into the day's 144 ticks) at which a preferred minute is
      due: the first tick at or after it, wrapping to midnight. */
  function DueTick(pref: int): int
    requires 0 <= pref < MinutesPerDay
  {
    ((pref + TickPeriod - 1) / TickPeriod) % TicksPerDay
  }

  /** With ticks at every minute divisible by ten, each preferred minute of
      the day is due at exactly one of the day's 144 ticks. */
  lemma ExactlyOneTickPerDay(pref: int)
    requires 0 <= pref < MinutesPerDay
    ensures 0 <= DueTick(pref) < TicksPerDay
    ensures forall t :: 0 <= t < TicksPerDay ==> (Due(TickPeriod * t, Some(pref)) <==> t == DueTick(pref))
  {
    var q := (pref + TickPeriod - 1) / TickPeriod;
    assert TickPeriod * q <= pref + TickPeriod - 1 < TickPeriod * q + TickPeriod;
    forall t | 0 <= t < TicksPerDay
      ensures Due(TickPeriod * t, Some(pref)) <==> t == DueTick(pref)
    {
      DiffWithinDay(TickPeriod * t, pref);
      if q < TicksPerDay {
        assert DueTick(pref) == q;
      } else {
        assert DueTick(pref) == 0;
      }
    }
  }

  // ---------------------------------------------------------------------------
  // Preferences with their defaults
  // ---------------------------------------------------------------------------

  /** A user's preferences as the tick reads them: the frequency value
      (`None` is undefined), the "HH:MM" text and the day (`None` is NaN; an
      infinite day is read as NaN too, since neither equals any weekday). */
  datatype Preferences = Preferences(frequency: Option<Value>, time: string, day: Option<int>)

  /** The preferences of a user without a settings record. */
  const Defaults: Preferences := Preferences(Some(Str(DefaultFrequency)), DefaultTime, Some(DefaultDay))

  /** The defaults and coercions of lines 75-77: `None` when reading the time
      throws, which happens when EmailTime is a truthy value that is not a
      string (`.split` is not a function). */
  function ReadPreferences(settings: Option<Item>): (p: Option<Preferences>)
    ensures settings.None? ==> p == Some(Defaults)
    ensures settings.Some? && "EmailFrequency" !in settings.value ==> p.None? || p.value.frequency.None?
    ensures settings.Some? && "EmailTime" !in settings.value ==> p.Some? && p.value.time == DefaultTime
    ensures settings.Some? && "EmailDay" !in settings.value ==> p.None? || p.value.day == Some(DefaultDay)
    ensures p.None? <==> settings.Some? && Truthy(Field(settings.value, "EmailTime")) && !settings.value["EmailTime"].Str?
  {
    match settings
    case None => Some(Defaults)
    case Some(s) =>
      var time := Field(s, "EmailTime");
      if Truthy(time) && !time.value.Str? then None
      else
        var day := if "EmailDay" in s then ToNumber(Some(s["EmailDay"])) else Some(DefaultDay);
        Some(Preferences(Field(s, "EmailFrequency"), if Truthy(time) then time.value.s else DefaultTime, day))
  }

  /** The frequency and day filter of lines 94-98. */
  predicate FrequencyAllows(p: Preferences, today: int) {
    || p.frequency == Some(Str("daily"))
    || (p.frequency == Some(Str("weekly")) && p.day == Some(today))
  }

  predicate ShouldEmail(p: Preferences, now: int, today: int) {
    Due(now, PrefMinutes(p.time)) && FrequencyAllows(p, today)
  }

  /** Only "daily" and "weekly" users are ever e-mailed ("never", any other
      value and an undefined frequency are not), and a weekly user only on the
      preferred day: on each of the other six days nothing is sent. */
  lemma FrequencyFilter(p: Preferences, now: int, today: int)
    ensures ShouldEmail(p, now, today) ==> p.frequency == Some(Str("daily")) || p.frequency == Some(Str("weekly"))
    ensures p.frequency == Some(Str("weekly")) && p.day != Some(today) ==> !ShouldEmail(p, now, today)
    ensures p.frequency == Some(Str("daily")) ==> (ShouldEmail(p, now, today) <==> Due(now, PrefMinutes(p.time)))
  {
  }

  /** A daily user whose time parses inside the day is e-mailed at exactly one
      tick of each day, whatever the day of the week. */
  lemma DailyUserOncePerDay(p: Preferences, today: int)
    requires p.frequency == Some(Str("daily"))
    requires PrefMinutes(p.time).Some? && 0 <= PrefMinutes(p.time).value < MinutesPerDay
    ensures forall t :: 0 <= t < TicksPerDay ==>
              (ShouldEmail(p, TickPeriod * t, today) <==> t == DueTick(PrefMinutes(p.time).value))
  {
    ExactlyOneTickPerDay(PrefMinutes(p.time).value);
  }

  // ---------------------------------------------------------------------------
  // processUserEmail
  // ---------------------------------------------------------------------------

  /** An e-mail handed to the mail relay: recipient and subject. */
  datatype Email = Email(to: string, subject: string)

  /** `Math.floor(r * n)` for a draw r of `Math.random()`. */
  function PickIndex(r: real, n: nat): (i: nat)
    requires 0.0 <= r < 1.0 && n > 0
    ensures i < n
  {
    assert 0.0 <= r * n as real < n as real by {
      assert (1.0 - r) * n as real > 0.0;
    }
    (r * n as real).Floor
  }

  /** The subject line of the excerpt e-mail for a book record. */
  function Subject(book: Item): string {
    "Daily Excerpt: " + ToText(Field(book, "Title"))
  }

  /** processUserEmail(userId): query the user's books; if there are any, pick
      the one the draw selects and mail its excerpt to the user identifier.
      A failing query (`queryFails`) is caught and logged, so nothing is sent
      and nothing propagates. The excerpt generator never throws (it returns
      a fallback text) and the relay's own failures are caught inside it. */
  function ProcessUserEmail(items: map<Key, Item>, order: seq<Key>, userId: string, r: real, queryFails: bool): (sent: seq<Email>)
    requires Listing(order, items) && 0.0 <= r < 1.0
    ensures |sent| <= 1
    ensures |sent| == 1 <==> !queryFails && |Query(items, order, userId, BookPrefix)| > 0
    ensures forall e :: e in sent ==> e.to == userId
    ensures forall e :: e in sent ==> exists b :: b in Query(items, order, userId, BookPrefix) && e.subject == Subject(b)
  {
    if queryFails then []
    else
      var books := Query(items, order, userId, BookPrefix);
      if |books| == 0 then []
      else
        var book := books[PickIndex(r, |books|)];
        [Email(userId, Subject(book))]
  }

  /** With no books, processUserEmail sends nothing; with books, every book
      can be the one mailed, for a suitable draw. */
  lemma ProcessUserEmailChoices(items: map<Key, Item>, order: seq<Key>, userId: string)
    requires Listing(order, items)
    ensures |Query(items, order, userId, BookPrefix)| == 0 ==>
              forall r :: 0.0 <= r < 1.0 ==> ProcessUserEmail(items, order, userId, r, false) == []
    ensures var books := Query(items, order, userId, BookPrefix);
            forall i :: 0 <= i < |books| ==>
              ProcessUserEmail(items, order, userId, DrawAt(i, |books|), false) == [Email(userId, Subject(books[i]))]
  {
    DrawsSelect(|Query(items, order, userId, BookPrefix)|);
  }

  /** The draw i / n, which selects index i among n. */
  function DrawAt(i: nat, n: nat): (r: real)
    requires i < n
    ensures 0.0 <= r < 1.0
  {
    assert i as real < n as real;
    i as real / n as real
  }

  lemma DrawsSelect(n: nat)
    ensures forall i :: 0 <= i < n ==> PickIndex(DrawAt(i, n), n) == i
  {
    forall i | 0 <= i < n
      ensures PickIndex(DrawAt(i, n), n) == i
    {
      var r := DrawAt(i, n);
      assert r * n as real == i as real;
    }
  }

  // ---------------------------------------------------------------------------
  // The tick
  // ---------------------------------------------------------------------------

  /** The clock reading of a tick: minute of the day and day of the week
      (0 is Sunday). */
  datatype Clock = Clock(minute: int, day: int)

  /** The store failures a tick can meet: the scan, a user's settings read
      (both reach the tick's outer catch), a user's book query (caught inside
      processUserEmail). */
  datatype Faults = Faults(scanFails: bool, settingsFail: set<string>, queryFail: set<string>)

  /** The records the tick examines: the scan keeps entity identifiers
      starting "USER#", then only exact "USER#Profile" records are kept. */
  function Profiles(order: seq<Key>): (ps: seq<Key>)
    ensures forall k :: k in ps <==> k in order && k.entity == ProfileEntity
  {
    var scanned := Filter(order, (k: Key) => StartsWith(k.entity, UserPrefix));
    FilterMembers(order, (k: Key) => StartsWith(k.entity, UserPrefix));
    FilterMembers(scanned, (k: Key) => k.entity == ProfileEntity);
    Filter(scanned, (k: Key) => k.entity == ProfileEntity)
  }

  /** What the tick does for one profile: `None` when it throws into the
      outer catch, otherwise the e-mails sent. */
  function Visit(items: map<Key, Item>, order: seq<Key>, user: string, clock: Clock, faults: Faults, r: real): Option<seq<Email>>
    requires Listing(order, items) && 0.0 <= r < 1.0
  {
    if user in faults.settingsFail then None
    else
      match ReadPreferences(Lookup(items, SettingsKey(user)))
      case None => None
      case Some(p) =>
        Some(if ShouldEmail(p, clock.minute, clock.day)
             then ProcessUserEmail(items, order, user, r, user in faults.queryFail)
             else [])
  }

  function Lookup(items: map<Key, Item>, k: Key): (r: Option<Item>)
    ensures r.Some? <==> k in items
  {
    if k in items then Some(items[k]) else None
  }

  /** The profiles from position i on: e-mails sent and whether the loop ran
      to its end. */
  function RunFrom(items: map<Key, Item>, order: seq<Key>, ps: seq<Key>, i: nat, clock: Clock, faults: Faults, draw: nat -> real): (seq<Email>, bool)
    requires Listing(order, items) && i <= |ps|
    requires forall k :: 0.0 <= draw(k) < 1.0
    decreases |ps| - i
  {
    if i == |ps| then ([], true)
    else
      match Visit(items, order, ps[i].user, clock, faults, draw(i))
      case None => ([], false)
      case Some(sent) =>
        var rest := RunFrom(items, order, ps, i + 1, clock, faults, draw);
        (sent + rest.0, rest.1)
  }

  /** The whole tick: e-mails sent and whether every profile was visited. */
  function TickSpec(items: map<Key, Item>, order: seq<Key>, clock: Clock, faults: Faults, draw: nat -> real): (seq<Email>, bool)
    requires Listing(order, items)
    requires forall k :: 0.0 <= draw(k) < 1.0
  {
    if faults.scanFails then ([], false)
    else RunFrom(items, order, Profiles(order), 0, clock, faults, draw)
  }

  /** The body of the loop for one profile: read the settings with their
      defaults, test the due rule and the frequency filter, and send the
      excerpt. `None` is a throw into the tick's outer catch. */
  method VisitUser(items: map<Key, Item>, order: seq<Key>, userId: string, clock: Clock, faults: Faults, r: real)
    returns (emails: Option<seq<Email>>)
    requires Listing(order, items) && 0.0 <= r < 1.0
    ensures emails == Visit(items, order, userId, clock, faults, r)
  {
    if userId in faults.settingsFail {
      return None;
    }
    var settings := Lookup(items, SettingsKey(userId));
    var prefs := ReadPreferences(settings);
    if prefs.None? {
      return None;
    }
    var sent: seq<Email> := [];
    var pref := PrefMinutes(prefs.value.time);
    if pref.Some? {
      var diff := Diff(clock.minute, pref.value);
      if diff >= 0 && diff < DueWindow {
        if prefs.value.frequency == Some(Str("daily")) {
          sent := ProcessUserEmail(items, order, userId, r, userId in faults.queryFail);
        } else if prefs.value.frequency == Some(Str("weekly")) && prefs.value.day == Some(clock.day) {
          sent := ProcessUserEmail(items, order, userId, r, userId in faults.queryFail);
        }
      }
    }
    return Some(sent);
  }

  /** The body of the cron job: a loop over the profile records in scan
      order. `draw(i)` is the value `Math.random()` returns for the i-th
      profile. */
  method Tick(items: map<Key, Item>, order: seq<Key>, clock: Clock, faults: Faults, draw: nat -> real)
    returns (sent: seq<Email>, finished: bool)
    requires Listing(order, items)
    requires forall k :: 0.0 <= draw(k) < 1.0
    ensures (sent, finished) == TickSpec(items, order, clock, faults, draw)
  {
    sent, finished := [], false;
    if faults.scanFails {
      return;
    }
    var profiles := Profiles(order);
    var i := 0;
    assert [] + RunFrom(items, order, profiles, 0, clock, faults, draw).0
        == RunFrom(items, order, profiles, 0, clock, faults, draw).0;
    while i < |profiles|
      invariant 0 <= i <= |profiles|
      invariant RunFrom(items, order, profiles, 0, clock, faults, draw)
                == (sent + RunFrom(items, order, profiles, i, clock, faults, draw).0,
                    RunFrom(items, order, profiles, i, clock, faults, draw).1)
    {
      var emails := VisitUser(items, order, profiles[i].user, clock, faults, draw(i));
      if emails.None? {
        assert sent + [] == sent;
        return;
      }
      ghost var rest := RunFrom(items, order, profiles, i + 1, clock, faults, draw);
      assert sent + (emails.value + rest.0) == (sent + emails.value) + rest.0;
      sent := sent + emails.value;
      i := i + 1;
    }
    assert sent + [] == sent;
    finished := true;
  }

  // ---------------------------------------------------------------------------
  // What a tick sends
  // ---------------------------------------------------------------------------

  /** The profile records the tick examines are exactly the table's
      "USER#Profile" records, in scan order, each once; so no two belong to
      the same user. */
  lemma ProfilesExact(items: map<Key, Item>, order: seq<Key>)
    requires Listing(order, items)
    ensures var ps := Profiles(order);
            && (forall k :: k in ps <==> k in items && k.entity == ProfileEntity)
            && IsSubsequence(ps, order)
            && (forall a, b :: 0 <= a < b < |ps| ==> ps[a].user != ps[b].user)
  {
    var ps := Profiles(order);
    var p := (k: Key) => StartsWith(k.entity, UserPrefix);
    var q := (k: Key) => k.entity == ProfileEntity;
    var pq := (k: Key) => k.entity == ProfileEntity;
    FilterFilter(order, p, q, pq);
    assert ps == Filter(order, pq);
    FilterIsSubsequence(order, pq);
    SubsequenceDistinct(ps, order);
    forall a, b | 0 <= a < b < |ps| ensures ps[a].user != ps[b].user {
      assert ps[a] in ps && ps[b] in ps;
    }
  }

  /** A user the tick e-mails: the settings read succeeds, the preferences
      pass the due rule and the frequency filter, the book query succeeds
      and finds at least one book. */
  predicate Emailed(items: map<Key, Item>, order: seq<Key>, user: string, clock: Clock, faults: Faults)
    requires Listing(order, items)
  {
    var p := ReadPreferences(Lookup(items, SettingsKey(user)));
    && user !in faults.settingsFail
    && p.Some? && ShouldEmail(p.value, clock.minute, clock.day)
    && user !in faults.queryFail
    && |Query(items, order, user, BookPrefix)| > 0
  }

  /** One profile's step throws exactly when its settings read fails or its
      time cannot be read; otherwise it sends at most one e-mail, to that
      user, and one exactly when the user is e-mailed. */
  lemma VisitSends(items: map<Key, Item>, order: seq<Key>, user: string, clock: Clock, faults: Faults, r: real)
    requires Listing(order, items) && 0.0 <= r < 1.0
    ensures var v := Visit(items, order, user, clock, faults, r);
            && (v.None? <==> user in faults.settingsFail || ReadPreferences(Lookup(items, SettingsKey(user))).None?)
            && (v.Some? ==> |v.value| <= 1 && (forall e :: e in v.value ==> e.to == user))
            && (v.Some? ==> (|v.value| == 1 <==> Emailed(items, order, user, clock, faults)))
  {
  }

  /** Every e-mail of the profiles from position i on goes to one of those
      profiles' users, and only to a user who is e-mailed. */
  lemma {:induction false} RunFromRecipients(items: map<Key, Item>, order: seq<Key>, ps: seq<Key>, i: nat,
                                             clock: Clock, faults: Faults, draw: nat -> real)
    requires Listing(order, items) && i <= |ps|
    requires forall k :: 0.0 <= draw(k) < 1.0
    ensures forall e :: e in RunFrom(items, order, ps, i, clock, faults, draw).0 ==>
              (exists j :: i <= j < |ps| && ps[j].user == e.to) && Emailed(items, order, e.to, clock, faults)
    decreases |ps| - i
  {
    if i < |ps| {
      VisitSends(items, order, ps[i].user, clock, faults, draw(i));
      var v := Visit(items, order, ps[i].user, clock, faults, draw(i));
      if v.Some? {
        RunFromRecipients(items, order, ps, i + 1, clock, faults, draw);
        var rest := RunFrom(items, order, ps, i + 1, clock, faults, draw);
        forall e | e in v.value + rest.0
          ensures (exists j :: i <= j < |ps| && ps[j].user == e.to) && Emailed(items, order, e.to, clock, faults)
        {
          if e in v.value {
            assert ps[i].user == e.to;
          } else {
            assert e in rest.0;
          }
        }
      }
    }
  }

  /** A tick e-mails only users with a profile record whose settings, due
      rule, frequency filter and book query all let the e-mail through: a
      user with no books, a "never" user, a user whose frequency is
      undefined and a weekly user on another day receive nothing. */
  lemma TickRecipients(items: map<Key, Item>, order: seq<Key>, clock: Clock, faults: Faults, draw: nat -> real)
    requires Listing(order, items)
    requires forall k :: 0.0 <= draw(k) < 1.0
    ensures forall e :: e in TickSpec(items, order, clock, faults, draw).0 ==>
              ProfileKey(e.to) in items && Emailed(items, order, e.to, clock, faults)
  {
    if !faults.scanFails {
      var ps := Profiles(order);
      RunFromRecipients(items, order, ps, 0, clock, faults, draw);
      forall e | e in TickSpec(items, order, clock, faults, draw).0
        ensures ProfileKey(e.to) in items
      {
        var j :| 0 <= j < |ps| && ps[j].user == e.to;
        assert ps[j] in ps;
        assert ps[j] == ProfileKey(e.to);
      }
    }
  }

  /** The e-mails addressed to user u. */
  function SentTo(sent: seq<Email>, u: string): (r: seq<Email>)
    ensures forall e :: e in r <==> e in sent && e.to == u
  {
    FilterMembers(sent, ToUser(u));
    Filter(sent, ToUser(u))
  }

  function ToUser(u: string): Email -> bool {
    (e: Email) => e.to == u
  }

  /** Over profiles of distinct users, each user receives at most one
      e-mail; a user beyond the profiles receives none; and when the loop
      runs to its end, a listed user receives one exactly when e-mailed. */
  lemma {:induction false} RunFromOncePerUser(items: map<Key, Item>, order: seq<Key>, ps: seq<Key>, i: nat,
                                              clock: Clock, faults: Faults, draw: nat -> real, u: string)
    requires Listing(order, items) && i <= |ps|
    requires forall k :: 0.0 <= draw(k) < 1.0
    requires forall a, b :: 0 <= a < b < |ps| ==> ps[a].user != ps[b].user
    ensures |SentTo(RunFrom(items, order, ps, i, clock, faults, draw).0, u)| <= 1
    ensures (forall j :: i <= j < |ps| ==> ps[j].user != u) ==>
              SentTo(RunFrom(items, order, ps, i, clock, faults, draw).0, u) == []
    ensures RunFrom(items, order, ps, i, clock, faults, draw).1 && (exists j :: i <= j < |ps| && ps[j].user == u) ==>
              (|SentTo(RunFrom(items, order, ps, i, clock, faults, draw).0, u)| == 1 <==> Emailed(items, order, u, clock, faults))
    decreases |ps| - i
  {
    if i < |ps| {
      VisitSends(items, order, ps[i].user, clock, faults, draw(i));
      var v := Visit(items, order, ps[i].user, clock, faults, draw(i));
      if v.Some? {
        var rest := RunFrom(items, order, ps, i + 1, clock, faults, draw);
        RunFromOncePerUser(items, order, ps, i + 1, clock, faults, draw, u);
        SentToAfter(v.value, rest.0, ps[i].user, u);
        if u == ps[i].user {
          assert SentTo(rest.0, u) == [];
        } else if exists j :: i <= j < |ps| && ps[j].user == u {
          var j :| i <= j < |ps| && ps[j].user == u;
          assert j > i;
        }
      }
    }
  }

  /** The e-mails one user receives from a visit to user v followed by the
      rest of the run: the visit's own when u is v, none of them otherwise. */
  lemma SentToAfter(s: seq<Email>, rest: seq<Email>, v: string, u: string)
    requires forall e :: e in s ==> e.to == v
    ensures u == v ==> SentTo(s + rest, u) == s + SentTo(rest, u)
    ensures u != v ==> SentTo(s + rest, u) == SentTo(rest, u)
  {
    FilterAppend(s, rest, ToUser(u));
    if u == v {
      FilterAll(s, ToUser(u));
    } else {
      FilterNone(s, ToUser(u));
    }
  }

  /** A tick sends every user at most one e-mail. When it visits every
      profile, each user with a profile record receives exactly one e-mail
      when e-mailed and none otherwise; a user without a profile record
      never receives one. */
  lemma TickOncePerUser(items: map<Key, Item>, order: seq<Key>, clock: Clock, faults: Faults, draw: nat -> real, u: string)
    requires Listing(order, items)
    requires forall k :: 0.0 <= draw(k) < 1.0
    ensures |SentTo(TickSpec(items, order, clock, faults, draw).0, u)| <= 1
    ensures ProfileKey(u) !in items ==> SentTo(TickSpec(items, order, clock, faults, draw).0, u) == []
    ensures TickSpec(items, order, clock, faults, draw).1 && ProfileKey(u) in items ==>
              (|SentTo(TickSpec(items, order, clock, faults, draw).0, u)| == 1 <==> Emailed(items, order, u, clock, faults))
  {
    if !faults.scanFails {
      var ps := Profiles(order);
      ProfilesExact(items, order);
      RunFromOncePerUser(items, order, ps, 0, clock, faults, draw, u);
      if ProfileKey(u) in items {
        assert ProfileKey(u) in ps;
        var j :| 0 <= j < |ps| && ps[j] == ProfileKey(u);
        assert ps[j].user == u;
      } else {
        forall j | 0 <= j < |ps| ensures ps[j].user != u {
          assert ps[j] in ps;
        }
      }
    }
  }

  /** When the settings read of the j-th profile throws, the tick ends there:
      it sends exactly what the profiles before j send, and nothing for the
      remaining users. */
  lemma {:induction false} SettingsFailureSkipsRest(items: map<Key, Item>, order: seq<Key>, ps: seq<Key>, i: nat, j: nat,
                                                    clock: Clock, faults: Faults, draw: nat -> real)
    requires Listing(order, items) && i <= j < |ps|
    requires forall k :: 0.0 <= draw(k) < 1.0
    requires ps[j].user in faults.settingsFail
    ensures RunFrom(items, order, ps, i, clock, faults, draw).0 == RunFrom(items, order, ps[..j], i, clock, faults, draw).0
    ensures !RunFrom(items, order, ps, i, clock, faults, draw).1
    decreases j - i
  {
    if i < j {
      assert ps[..j][i] == ps[i];
      SettingsFailureSkipsRest(items, order, ps, i + 1, j, clock, faults, draw);
    }
  }

  /** The e-mails not addressed to a user of q. */
  function NotTo(sent: seq<Email>, q: set<string>): seq<Email> {
    Filter(sent, NotIn(q))
  }

  function NotIn(q: set<string>): Email -> bool {
    (e: Email) => e.to !in q
  }

  /** A failing book query is swallowed: the tick still visits every later
      profile and sends every other e-mail it would have sent; only the
      users whose query failed go without. */
  lemma {:induction false} QueryFailuresSwallowed(items: map<Key, Item>, order: seq<Key>, ps: seq<Key>, i: nat,
                                                  clock: Clock, faults: Faults, draw: nat -> real)
    requires Listing(order, items) && i <= |ps|
    requires forall k :: 0.0 <= draw(k) < 1.0
    ensures var healthy := RunFrom(items, order, ps, i, clock, faults.(queryFail := {}), draw);
            RunFrom(items, order, ps, i, clock, faults, draw) == (NotTo(healthy.0, faults.queryFail), healthy.1)
    decreases |ps| - i
  {
    var healthyFaults := faults.(queryFail := {});
    if i == |ps| {
      assert NotTo([], faults.queryFail) == [];
    } else {
      var u := ps[i].user;
      VisitSends(items, order, u, clock, healthyFaults, draw(i));
      var v := Visit(items, order, u, clock, faults, draw(i));
      var w := Visit(items, order, u, clock, healthyFaults, draw(i));
      if w.Some? {
        QueryFailuresSwallowed(items, order, ps, i + 1, clock, faults, draw);
        var rest := RunFrom(items, order, ps, i + 1, clock, healthyFaults, draw);
        FilterAppend(w.value, rest.0, NotIn(faults.queryFail));
        if u in faults.queryFail {
          assert v == Some([]);
          var none := NotTo(w.value, faults.queryFail);
          FilterMembers(w.value, NotIn(faults.queryFail));
        } else {
          assert v == w;
          FilterAll(w.value, NotIn(faults.queryFail));
        }
      }
    }
  }
}
