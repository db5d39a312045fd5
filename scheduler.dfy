/**
 * The periodic check of the bot: for every department with active subscribers, scrape
 * its listing page, offer every record not yet sent to every subscriber, then mark those
 * records sent, counting the deliveries that succeeded; a department that raises is
 * skipped and the others go on. Each tick of the background job runs one check and, at
 * hour 2, the retention sweep.
 */
module Scheduler {
  import opened Wrappers
  import Departments
  import Database
  import Production

  type Announcement = Production.Announcement
  type Event = Production.Event

  /** `max_announcements` of the periodic scrape. */
  const CycleLimit: nat := 5
  /** The hour of the day at which a tick also sweeps old pairs, and how long they are kept. */
  const CleanupHour: int := 2
  const RetentionDays: int := 30

  /** What one department round, or a whole check, leaves behind: the sent table, the
      effects in order, and the number of deliveries that succeeded. */
  datatype CycleResult = CycleResult(sent: seq<Database.SentRow>, events: seq<Event>, delivered: nat)

  // ---------------------------------------------------------------------------
  // Fan-out

  /** The attempts to deliver `records` to one user, in record order. */
  function Offers(userId: int, department: string, records: seq<Announcement>, bot: Production.Bot): (events: seq<Event>)
    ensures |events| == |records|
  {
    if records == [] then []
    else
      var last := records[|records| - 1];
      Offers(userId, department, records[..|records| - 1], bot) +
        [Production.Attempt(userId, department, last, Production.SendAnnouncementToUser(userId, last, department, bot))]
  }

  /** The attempts of the nested loop: users outer, records inner; one attempt per
      (subscriber, record) pair. */
  function Fanout(subscribers: seq<Database.UserRow>, department: string, records: seq<Announcement>, bot: Production.Bot)
    : (attempts: seq<Event>)
    ensures |attempts| == |subscribers| * |records|
  {
    if subscribers == [] then []
    else
      var n := |subscribers|;
      MulStep(n, |records|);
      Fanout(subscribers[..n - 1], department, records, bot) + Offers(subscribers[n - 1].userId, department, records, bot)
  }

  /** One `Marked` event per record, in record order. */
  function Marks(department: string, records: seq<Announcement>): (events: seq<Event>)
    ensures |events| == |records|
  {
    if records == [] then [] else Marks(department, records[..|records| - 1]) + [Production.Marked(department, records[|records| - 1].hash)]
  }

  /** The number of attempts in `events` that delivered. */
  function Delivered(events: seq<Event>): (n: nat)
    ensures n <= |events|
  {
    if events == [] then 0
    else
      var last := events[|events| - 1];
      Delivered(events[..|events| - 1]) + (if last.Attempt? && last.delivered then 1 else 0)
  }

  lemma {:induction false} DeliveredAppend(xs: seq<Event>, ys: seq<Event>)
    ensures Delivered(xs + ys) == Delivered(xs) + Delivered(ys)
  {
    if ys != [] {
      var init := ys[..|ys| - 1];
      assert (xs + ys)[..|xs + ys| - 1] == xs + init;
      DeliveredAppend(xs, init);
    } else {
      assert xs + ys == xs;
    }
  }

  lemma MulStep(n: nat, m: nat)
    requires n > 0
    ensures (n - 1) * m + m == n * m
  {
  }

  /** Every attempt is by a subscriber, for one of the records. */
  lemma {:induction false} FanoutSound(subscribers: seq<Database.UserRow>, department: string, records: seq<Announcement>, bot: Production.Bot)
    ensures forall e :: e in Fanout(subscribers, department, records, bot) ==>
      e.Attempt? && e.department == department && e.announcement in records &&
      exists u :: u in subscribers && u.userId == e.userId
  {
    if subscribers != [] {
      var init := subscribers[..|subscribers| - 1];
      var last := subscribers[|subscribers| - 1];
      FanoutSound(init, department, records, bot);
      OffersCover(last.userId, department, records, bot);
      assert last in subscribers;
      assert forall u :: u in init ==> u in subscribers;
    }
  }

  /** Every (subscriber, record) pair is attempted. */
  lemma {:induction false} FanoutComplete(subscribers: seq<Database.UserRow>, department: string, records: seq<Announcement>, bot: Production.Bot)
    ensures forall u, a :: u in subscribers && a in records ==>
      exists ok :: Production.Attempt(u.userId, department, a, ok) in Fanout(subscribers, department, records, bot)
  {
    if subscribers != [] {
      var init := subscribers[..|subscribers| - 1];
      var last := subscribers[|subscribers| - 1];
      FanoutComplete(init, department, records, bot);
      OffersCover(last.userId, department, records, bot);
      assert forall u :: u in subscribers ==> u in init || u == last;
    }
  }

  lemma {:induction false} OffersCover(userId: int, department: string, records: seq<Announcement>, bot: Production.Bot)
    ensures var events := Offers(userId, department, records, bot);
      (forall e :: e in events ==> e.Attempt? && e.userId == userId && e.department == department && e.announcement in records) &&
      (forall a :: a in records ==> exists ok :: Production.Attempt(userId, department, a, ok) in events)
  {
    if records != [] {
      var init := records[..|records| - 1];
      OffersCover(userId, department, init, bot);
      assert forall a :: a in records <==> a in init || a == records[|records| - 1];
    }
  }

  lemma {:induction false} MarksAreMarks(department: string, records: seq<Announcement>)
    ensures forall e :: e in Marks(department, records) ==> e.Marked? && e.department == department
  {
    if records != [] {
      MarksAreMarks(department, records[..|records| - 1]);
    }
  }

  // ---------------------------------------------------------------------------
  // One department, and the whole check

  /** The body of the department loop of `check_all_departments`, for a department that
      does not raise. */
  function Round(registry: seq<Departments.Department>, users: seq<Database.UserRow>, sent: seq<Database.SentRow>,
                 department: string, scrape: Production.Scraping, bot: Production.Bot, now: int): (r: CycleResult)
    ensures sent <= r.sent
    ensures r.sent != sent ==> Database.ActiveSubscribers(users, department) != []
    ensures r.delivered <= |r.events|
  {
    var subscribers := Database.ActiveSubscribers(users, department);
    if subscribers == [] then CycleResult(sent, [], 0)
    else
      match Departments.UrlIn(registry, department)
      case None => CycleResult(sent, [], 0)
      case Some(url) =>
        var scraped := scrape(url, CycleLimit);
        var unsent := Production.NewRecords(sent, department, scraped);
        if unsent == [] then CycleResult(sent, [Production.Scraped(url)], 0)
        else
          var attempts := Fanout(subscribers, department, unsent, bot);
          CycleResult(Production.MarkAll(sent, department, unsent, now),
                      [Production.Scraped(url)] + attempts + Marks(department, unsent),
                      Delivered(attempts))
  }

  /** `check_all_departments` over `departments`, in order; a department in `failing`
      raises before it has any effect and is skipped. */
  function Cycle(registry: seq<Departments.Department>, users: seq<Database.UserRow>, sent: seq<Database.SentRow>,
                 departments: seq<string>, failing: set<string>, scrape: Production.Scraping, bot: Production.Bot, now: int)
    : (r: CycleResult)
    ensures sent <= r.sent
    ensures r.delivered <= |r.events|
  {
    if departments == [] then CycleResult(sent, [], 0)
    else
      var prev := Cycle(registry, users, sent, departments[..|departments| - 1], failing, scrape, bot, now);
      var department := departments[|departments| - 1];
      if department in failing then prev
      else
        var r := Round(registry, users, prev.sent, department, scrape, bot, now);
        CycleResult(r.sent, prev.events + r.events, prev.delivered + r.delivered)
  }

  /** A department without active subscribers, or without a URL, is not scraped and
      leaves the table alone; an empty or all-old scrape sends and marks nothing. */
  lemma RoundSkips(registry: seq<Departments.Department>, users: seq<Database.UserRow>, sent: seq<Database.SentRow>,
                   department: string, scrape: Production.Scraping, bot: Production.Bot, now: int)
    ensures var r := Round(registry, users, sent, department, scrape, bot, now);
      (Database.ActiveSubscribers(users, department) == [] || Departments.UrlIn(registry, department).None? ==>
         r == CycleResult(sent, [], 0)) &&
      (forall url ::
         (Departments.UrlIn(registry, department) == Some(url) && Production.NewRecords(sent, department, scrape(url, CycleLimit)) == []) ==>
         (r.sent == sent && r.delivered == 0 && forall e :: e in r.events ==> e.Scraped?))
  {
  }

  /** The effects of a round that found new records: the scrape, the attempts, the marks. */
  lemma RoundEvents(registry: seq<Departments.Department>, users: seq<Database.UserRow>, sent: seq<Database.SentRow>,
                    department: string, scrape: Production.Scraping, bot: Production.Bot, now: int, url: string)
    requires Database.ActiveSubscribers(users, department) != []
    requires Departments.UrlIn(registry, department) == Some(url)
    requires Production.NewRecords(sent, department, scrape(url, CycleLimit)) != []
    ensures var r := Round(registry, users, sent, department, scrape, bot, now);
      var unsent := Production.NewRecords(sent, department, scrape(url, CycleLimit));
      var attempts := Fanout(Database.ActiveSubscribers(users, department), department, unsent, bot);
      r.events == [Production.Scraped(url)] + attempts + Marks(department, unsent) &&
      r.sent == Production.MarkAll(sent, department, unsent, now) &&
      r.delivered == Delivered(attempts)
  {
  }

  /** In a scrape, then attempts, then marks, the attempts are exactly those of the middle
      part and no mark comes before an attempt. */
  lemma SplitEvents(url: string, attempts: seq<Event>, marks: seq<Event>)
    requires forall e :: e in attempts ==> e.Attempt?
    requires forall e :: e in marks ==> e.Marked?
    ensures var all := [Production.Scraped(url)] + attempts + marks;
      (forall e :: e in all && e.Attempt? <==> e in attempts) &&
      (forall i, j :: 0 <= i < j < |all| && all[i].Marked? ==> all[j].Marked?)
  {
    var all := [Production.Scraped(url)] + attempts + marks;
    forall k | 0 < k < 1 + |attempts|
      ensures !all[k].Marked?
    {
      assert all[k] == attempts[k - 1];
      assert attempts[k - 1] in attempts;
    }
    forall i, j | 0 <= i < j < |all| && all[i].Marked?
      ensures all[j].Marked?
    {
      assert all[j] == marks[j - 1 - |attempts|];
      assert marks[j - 1 - |attempts|] in marks;
    }
  }

  /** A round offers only new records, only to active subscribers of the department,
      and offers every new record to every one of them. */
  lemma RoundOffersNew(registry: seq<Departments.Department>, users: seq<Database.UserRow>, sent: seq<Database.SentRow>,
                       department: string, scrape: Production.Scraping, bot: Production.Bot, now: int, url: string)
    requires Database.ActiveSubscribers(users, department) != []
    requires Departments.UrlIn(registry, department) == Some(url)
    ensures var r := Round(registry, users, sent, department, scrape, bot, now);
      var subscribers := Database.ActiveSubscribers(users, department);
      var unsent := Production.NewRecords(sent, department, scrape(url, CycleLimit));
      (forall e :: e in r.events && e.Attempt? ==>
         e.department == department && e.announcement in unsent &&
         exists u :: u in subscribers && u.userId == e.userId) &&
      (forall u, a :: u in subscribers && a in unsent ==> exists ok :: Production.Attempt(u.userId, department, a, ok) in r.events)
  {
    var subscribers := Database.ActiveSubscribers(users, department);
    var unsent := Production.NewRecords(sent, department, scrape(url, CycleLimit));
    if unsent != [] {
      var attempts := Fanout(subscribers, department, unsent, bot);
      RoundEvents(registry, users, sent, department, scrape, bot, now, url);
      FanoutSound(subscribers, department, unsent, bot);
      FanoutComplete(subscribers, department, unsent, bot);
      MarksAreMarks(department, unsent);
      SplitEvents(url, attempts, Marks(department, unsent));
    }
  }

  /** Every attempt of a round comes before every mark. */
  lemma RoundSendsBeforeMarks(registry: seq<Departments.Department>, users: seq<Database.UserRow>, sent: seq<Database.SentRow>,
                              department: string, scrape: Production.Scraping, bot: Production.Bot, now: int)
    ensures var r := Round(registry, users, sent, department, scrape, bot, now);
      forall i, j :: 0 <= i < j < |r.events| && r.events[i].Marked? ==> r.events[j].Marked?
  {
    var subscribers := Database.ActiveSubscribers(users, department);
    var url := Departments.UrlIn(registry, department);
    if subscribers != [] && url.Some? && Production.NewRecords(sent, department, scrape(url.value, CycleLimit)) != [] {
      var unsent := Production.NewRecords(sent, department, scrape(url.value, CycleLimit));
      RoundEvents(registry, users, sent, department, scrape, bot, now, url.value);
      FanoutSound(subscribers, department, unsent, bot);
      MarksAreMarks(department, unsent);
      SplitEvents(url.value, Fanout(subscribers, department, unsent, bot), Marks(department, unsent));
    }
  }

  /** The count of a round is the number of successful attempts among its effects, at
      most subscribers times new records. */
  lemma RoundCounts(registry: seq<Departments.Department>, users: seq<Database.UserRow>, sent: seq<Database.SentRow>,
                    department: string, scrape: Production.Scraping, bot: Production.Bot, now: int, url: string)
    requires Departments.UrlIn(registry, department) == Some(url)
    ensures var r := Round(registry, users, sent, department, scrape, bot, now);
      r.delivered == Delivered(r.events) &&
      r.delivered <= |Database.ActiveSubscribers(users, department)| * |Production.NewRecords(sent, department, scrape(url, CycleLimit))|
  {
    var subscribers := Database.ActiveSubscribers(users, department);
    var unsent := Production.NewRecords(sent, department, scrape(url, CycleLimit));
    var r := Round(registry, users, sent, department, scrape, bot, now);
    if subscribers != [] && unsent != [] {
      var attempts := Fanout(subscribers, department, unsent, bot);
      var marks := Marks(department, unsent);
      RoundEvents(registry, users, sent, department, scrape, bot, now, url);
      DeliveredAppend([Production.Scraped(url)], attempts);
      DeliveredAppend([Production.Scraped(url)] + attempts, marks);
      MarksDeliverNothing(department, unsent);
      assert Delivered([Production.Scraped(url)]) == 0 by {
        assert [Production.Scraped(url)][..0] == [];
      }
    } else if subscribers != [] {
      assert r.events == [Production.Scraped(url)];
      assert r.events[..0] == [];
    }
  }

  /** After a round every scraped record of the department is sent, and no other
      department's pairs change. */
  lemma RoundMarksScraped(registry: seq<Departments.Department>, users: seq<Database.UserRow>, sent: seq<Database.SentRow>,
                          department: string, scrape: Production.Scraping, bot: Production.Bot, now: int, url: string)
    requires Database.ActiveSubscribers(users, department) != []
    requires Departments.UrlIn(registry, department) == Some(url)
    ensures var r := Round(registry, users, sent, department, scrape, bot, now);
      (forall a :: a in scrape(url, CycleLimit) ==> Database.IsSent(r.sent, department, a.hash)) &&
      (forall d, h :: d != department ==> (Database.IsSent(r.sent, d, h) <==> Database.IsSent(sent, d, h)))
  {
    var unsent := Production.NewRecords(sent, department, scrape(url, CycleLimit));
    if unsent != [] {
      RoundEvents(registry, users, sent, department, scrape, bot, now, url);
    }
    Production.MarkAllEffect(sent, department, unsent, now);
  }

  /** A round never unmarks a pair. */
  lemma RoundKeepsSent(registry: seq<Departments.Department>, users: seq<Database.UserRow>, sent: seq<Database.SentRow>,
                       department: string, scrape: Production.Scraping, bot: Production.Bot, now: int)
    ensures var r := Round(registry, users, sent, department, scrape, bot, now);
      forall d, h :: Database.IsSent(sent, d, h) ==> Database.IsSent(r.sent, d, h)
  {
    var subscribers := Database.ActiveSubscribers(users, department);
    var url := Departments.UrlIn(registry, department);
    if subscribers != [] && url.Some? {
      var unsent := Production.NewRecords(sent, department, scrape(url.value, CycleLimit));
      Production.MarkAllEffect(sent, department, unsent, now);
    }
  }

  lemma {:induction false} MarksDeliverNothing(department: string, records: seq<Announcement>)
    ensures Delivered(Marks(department, records)) == 0
  {
    if records != [] {
      var init := records[..|records| - 1];
      MarksDeliverNothing(department, init);
      assert Marks(department, records)[..|records| - 1] == Marks(department, init);
    }
  }

  // ---------------------------------------------------------------------------
  // Properties of the whole check

  /** The departments of `departments` not in `failing`, in order. */
  function Without(departments: seq<string>, failing: set<string>): (r: seq<string>)
    ensures forall d :: d in r <==> d in departments && d !in failing
  {
    if departments == [] then []
    else
      var init := departments[..|departments| - 1];
      var last := departments[|departments| - 1];
      assert forall d :: d in departments <==> d in init || d == last;
      Without(init, failing) + (if last in failing then [] else [last])
  }

  /** Dropping the failing departments keeps the configured order: it works run by run. */
  lemma {:induction false} WithoutAppend(xs: seq<string>, ys: seq<string>, failing: set<string>)
    ensures Without(xs + ys, failing) == Without(xs, failing) + Without(ys, failing)
    decreases |ys|
  {
    if ys != [] {
      var init := ys[..|ys| - 1];
      assert (xs + ys)[..|xs + ys| - 1] == xs + init;
      assert (xs + ys)[|xs + ys| - 1] == ys[|ys| - 1];
      WithoutAppend(xs, init, failing);
    } else {
      assert xs + ys == xs;
    }
  }

  /** A single department is kept exactly when it did not fail. */
  lemma WithoutSingle(d: string, failing: set<string>)
    ensures Without([d], failing) == if d in failing then [] else [d]
  {
  }

  /** A department that raises changes nothing, as if it were not in the list. */
  lemma {:induction false} FailingIsAbsent(registry: seq<Departments.Department>, users: seq<Database.UserRow>, sent: seq<Database.SentRow>,
                                           departments: seq<string>, failing: set<string>, scrape: Production.Scraping, bot: Production.Bot, now: int)
    ensures Cycle(registry, users, sent, departments, failing, scrape, bot, now) ==
            Cycle(registry, users, sent, Without(departments, failing), {}, scrape, bot, now)
  {
    if departments != [] {
      var init := departments[..|departments| - 1];
      var last := departments[|departments| - 1];
      FailingIsAbsent(registry, users, sent, init, failing, scrape, bot, now);
      var prev := Cycle(registry, users, sent, init, failing, scrape, bot, now);
      var kept := Without(departments, failing);
      if last !in failing {
        assert kept == Without(init, failing) + [last];
        assert kept[..|kept| - 1] == Without(init, failing);
        assert kept[|kept| - 1] == last;
        var r := Round(registry, users, prev.sent, last, scrape, bot, now);
        assert Cycle(registry, users, sent, kept, {}, scrape, bot, now) ==
               CycleResult(r.sent, prev.events + r.events, prev.delivered + r.delivered);
      } else {
        assert kept == Without(init, failing);
      }
    }
  }

  /** The check never unmarks a pair. */
  lemma {:induction false} CycleKeepsSent(registry: seq<Departments.Department>, users: seq<Database.UserRow>, sent: seq<Database.SentRow>,
                                          departments: seq<string>, failing: set<string>, scrape: Production.Scraping, bot: Production.Bot, now: int)
    ensures var c := Cycle(registry, users, sent, departments, failing, scrape, bot, now);
      forall d, h :: Database.IsSent(sent, d, h) ==> Database.IsSent(c.sent, d, h)
  {
    if departments != [] {
      var init := departments[..|departments| - 1];
      var prev := Cycle(registry, users, sent, init, failing, scrape, bot, now);
      CycleKeepsSent(registry, users, sent, init, failing, scrape, bot, now);
      RoundKeepsSent(registry, users, prev.sent, departments[|departments| - 1], scrape, bot, now);
    }
  }

  /** The pairs of a department the check does not process (absent from the list, or
      raising) are untouched. */
  lemma {:induction false} CycleIsolates(registry: seq<Departments.Department>, users: seq<Database.UserRow>, sent: seq<Database.SentRow>,
                                         departments: seq<string>, failing: set<string>, scrape: Production.Scraping, bot: Production.Bot, now: int,
                                         other: string)
    requires other !in departments || other in failing
    ensures var c := Cycle(registry, users, sent, departments, failing, scrape, bot, now);
      forall h :: Database.IsSent(c.sent, other, h) <==> Database.IsSent(sent, other, h)
  {
    if departments != [] {
      var init := departments[..|departments| - 1];
      var last := departments[|departments| - 1];
      var prev := Cycle(registry, users, sent, init, failing, scrape, bot, now);
      assert other !in init || other in failing;
      CycleIsolates(registry, users, sent, init, failing, scrape, bot, now, other);
      if last !in failing {
        var url := Departments.UrlIn(registry, last);
        if Database.ActiveSubscribers(users, last) != [] && url.Some? {
          RoundMarksScraped(registry, users, prev.sent, last, scrape, bot, now, url.value);
        }
      }
    }
  }

  /** The count the check returns is the number of successful attempts among its effects. */
  lemma {:induction false} CycleCounts(registry: seq<Departments.Department>, users: seq<Database.UserRow>, sent: seq<Database.SentRow>,
                                       departments: seq<string>, failing: set<string>, scrape: Production.Scraping, bot: Production.Bot, now: int)
    ensures var c := Cycle(registry, users, sent, departments, failing, scrape, bot, now);
      c.delivered == Delivered(c.events)
  {
    if departments != [] {
      var init := departments[..|departments| - 1];
      var last := departments[|departments| - 1];
      var prev := Cycle(registry, users, sent, init, failing, scrape, bot, now);
      CycleCounts(registry, users, sent, init, failing, scrape, bot, now);
      if last !in failing {
        var r := Round(registry, users, prev.sent, last, scrape, bot, now);
        match Departments.UrlIn(registry, last)
        case None =>
          RoundSkips(registry, users, prev.sent, last, scrape, bot, now);
          assert r.events == [];
          assert prev.events + r.events == prev.events;
        case Some(url) =>
          RoundCounts(registry, users, prev.sent, last, scrape, bot, now, url);
          DeliveredAppend(prev.events, r.events);
      }
    }
  }

  /** Everything the check scraped for a department it processed is sent afterwards. */
  ghost predicate Covered(registry: seq<Departments.Department>, users: seq<Database.UserRow>, sent: seq<Database.SentRow>,
                          departments: seq<string>, failing: set<string>, scrape: Production.Scraping)
  {
    forall d :: (d in departments && d !in failing && Database.ActiveSubscribers(users, d) != [] &&
                 Departments.UrlIn(registry, d).Some?) ==>
      forall a :: a in scrape(Departments.UrlIn(registry, d).value, CycleLimit) ==> Database.IsSent(sent, d, a.hash)
  }

  lemma {:induction false} CycleCovers(registry: seq<Departments.Department>, users: seq<Database.UserRow>, sent: seq<Database.SentRow>,
                                       departments: seq<string>, failing: set<string>, scrape: Production.Scraping, bot: Production.Bot, now: int)
    ensures Covered(registry, users, Cycle(registry, users, sent, departments, failing, scrape, bot, now).sent, departments, failing, scrape)
  {
    if departments != [] {
      var init := departments[..|departments| - 1];
      var last := departments[|departments| - 1];
      var prev := Cycle(registry, users, sent, init, failing, scrape, bot, now);
      var c := Cycle(registry, users, sent, departments, failing, scrape, bot, now);
      CycleCovers(registry, users, sent, init, failing, scrape, bot, now);
      if last !in failing {
        RoundKeepsSent(registry, users, prev.sent, last, scrape, bot, now);
        var url := Departments.UrlIn(registry, last);
        if Database.ActiveSubscribers(users, last) != [] && url.Some? {
          RoundMarksScraped(registry, users, prev.sent, last, scrape, bot, now, url.value);
        }
      }
      assert forall d :: d in departments ==> d in init || d == last;
    }
  }

  /** Starting from a table that already holds everything the scrapes return, the check
      attempts nothing. */
  lemma {:induction false} CoveredDeliversNothing(registry: seq<Departments.Department>, users: seq<Database.UserRow>, sent: seq<Database.SentRow>,
                                                  departments: seq<string>, failing: set<string>, scrape: Production.Scraping, bot: Production.Bot, now: int)
    requires Covered(registry, users, sent, departments, failing, scrape)
    ensures var c := Cycle(registry, users, sent, departments, failing, scrape, bot, now);
      c.delivered == 0 && forall e :: e in c.events ==> !e.Attempt?
  {
    if departments != [] {
      var init := departments[..|departments| - 1];
      var last := departments[|departments| - 1];
      var prev := Cycle(registry, users, sent, init, failing, scrape, bot, now);
      assert forall d :: d in init ==> d in departments;
      CoveredDeliversNothing(registry, users, sent, init, failing, scrape, bot, now);
      if last !in failing {
        CycleKeepsSent(registry, users, sent, init, failing, scrape, bot, now);
        var url := Departments.UrlIn(registry, last);
        if Database.ActiveSubscribers(users, last) != [] && url.Some? {
          Production.NewRecordsNoneLeft(prev.sent, last, scrape(url.value, CycleLimit));
        }
      }
    }
  }

  /** Running the check again with the same scrape results delivers nothing. */
  lemma CycleTwiceDeliversNothing(registry: seq<Departments.Department>, users: seq<Database.UserRow>, sent: seq<Database.SentRow>,
                                  departments: seq<string>, failing: set<string>, scrape: Production.Scraping, bot: Production.Bot,
                                  now: int, later: int)
    ensures var first := Cycle(registry, users, sent, departments, failing, scrape, bot, now);
      var again := Cycle(registry, users, first.sent, departments, failing, scrape, bot, later);
      again.delivered == 0 && forall e :: e in again.events ==> !e.Attempt?
  {
    var first := Cycle(registry, users, sent, departments, failing, scrape, bot, now);
    CycleCovers(registry, users, sent, departments, failing, scrape, bot, now);
    CoveredDeliversNothing(registry, users, first.sent, departments, failing, scrape, bot, later);
  }

  // ---------------------------------------------------------------------------
  // The check against the store

  lemma OffersStep(userId: int, department: string, records: seq<Announcement>, j: nat, bot: Production.Bot)
    requires j < |records|
    ensures Offers(userId, department, records[..j + 1], bot) ==
      Offers(userId, department, records[..j], bot) +
        [Production.Attempt(userId, department, records[j], Production.SendAnnouncementToUser(userId, records[j], department, bot))]
  {
    assert records[..j + 1][..j] == records[..j];
  }

  lemma DeliveredStep(events: seq<Event>, e: Event)
    ensures Delivered(events + [e]) == Delivered(events) + (if e.Attempt? && e.delivered then 1 else 0)
  {
    assert (events + [e])[..|events|] == events;
  }

  /** The inner send loop: one subscriber, every new record, counting successes. */
  method SendToUser(userId: int, department: string, unsent: seq<Announcement>, bot: Production.Bot)
    returns (events: seq<Event>, delivered: nat)
    ensures events == Offers(userId, department, unsent, bot)
    ensures delivered == Delivered(events)
  {
    events := [];
    delivered := 0;
    for j := 0 to |unsent|
      invariant events == Offers(userId, department, unsent[..j], bot)
      invariant delivered == Delivered(events)
    {
      var ok := Production.SendAnnouncementToUser(userId, unsent[j], department, bot);
      var attempt := Production.Attempt(userId, department, unsent[j], ok);
      OffersStep(userId, department, unsent, j, bot);
      DeliveredStep(events, attempt);
      events := events + [attempt];
      if ok {
        delivered := delivered + 1;
      }
    }
    assert unsent[..|unsent|] == unsent;
  }

  /** The nested send loop: every subscriber in turn, every new record, counting successes. */
  method SendToAll(subscribers: seq<Database.UserRow>, department: string, unsent: seq<Announcement>, bot: Production.Bot)
    returns (events: seq<Event>, delivered: nat)
    ensures events == Fanout(subscribers, department, unsent, bot)
    ensures delivered == Delivered(events)
  {
    events := [];
    delivered := 0;
    for i := 0 to |subscribers|
      invariant events == Fanout(subscribers[..i], department, unsent, bot)
      invariant delivered == Delivered(events)
    {
      var offers, successes := SendToUser(subscribers[i].userId, department, unsent, bot);
      DeliveredAppend(events, offers);
      assert subscribers[..i + 1][..i] == subscribers[..i];
      events := events + offers;
      delivered := delivered + successes;
    }
    assert subscribers[..|subscribers|] == subscribers;
  }

  /** The body of the department loop for one department that does not raise. */
  method CheckDepartment(registry: seq<Departments.Department>, db: Database.DatabaseHandler, department: string,
                         scrape: Production.Scraping, bot: Production.Bot, now: int)
    returns (delivered: nat, events: seq<Event>)
    modifies db
    ensures CycleResult(db.sent, events, delivered) == Round(registry, old(db.users), old(db.sent), department, scrape, bot, now)
    ensures db.users == old(db.users)
    ensures old(db.Valid()) ==> db.Valid()
  {
    var subscribers := db.GetUsersByDepartment(department);
    if subscribers == [] {
      return 0, [];
    }
    var url := Departments.UrlIn(registry, department);
    if url.None? {
      return 0, [];
    }
    var announcements := scrape(url.value, CycleLimit);
    var unsent := Production.SelectNew(db, department, announcements);
    if unsent == [] {
      return 0, [Production.Scraped(url.value)];
    }
    var attempts;
    attempts, delivered := SendToAll(subscribers, department, unsent, bot);
    Production.MarkEach(db, department, unsent, now);
    events := [Production.Scraped(url.value)] + attempts + Marks(department, unsent);
  }

  /** `check_all_departments`: every department in order, a raising one skipped; returns
      the number of successful deliveries. */
  method CheckAllDepartments(registry: seq<Departments.Department>, db: Database.DatabaseHandler, departments: seq<string>,
                             failing: set<string>, scrape: Production.Scraping, bot: Production.Bot, now: int)
    returns (total: nat, events: seq<Event>)
    modifies db
    ensures CycleResult(db.sent, events, total) == Cycle(registry, old(db.users), old(db.sent), departments, failing, scrape, bot, now)
    ensures db.users == old(db.users)
    ensures old(db.Valid()) ==> db.Valid()
  {
    total := 0;
    events := [];
    for i := 0 to |departments|
      invariant CycleResult(db.sent, events, total) == Cycle(registry, old(db.users), old(db.sent), departments[..i], failing, scrape, bot, now)
      invariant db.users == old(db.users)
      invariant old(db.Valid()) ==> db.Valid()
    {
      assert departments[..i + 1][..i] == departments[..i];
      if departments[i] !in failing {
        var delivered, roundEvents := CheckDepartment(registry, db, departments[i], scrape, bot, now);
        total := total + delivered;
        events := events + roundEvents;
      }
    }
    assert departments[..|departments|] == departments;
  }

  /** One pass of `scheduled_check_job`: the check, then the 30-day retention sweep when
      the pass runs at hour 2. */
  method ScheduledTick(registry: seq<Departments.Department>, db: Database.DatabaseHandler, departments: seq<string>,
                       failing: set<string>, scrape: Production.Scraping, bot: Production.Bot, now: int, hour: int)
    returns (total: nat, events: seq<Event>)
    modifies db
    ensures var c := Cycle(registry, old(db.users), old(db.sent), departments, failing, scrape, bot, now);
      total == c.delivered && events == c.events &&
      db.sent == (if hour == CleanupHour then Database.Sweep(c.sent, Database.Cutoff(now, RetentionDays)) else c.sent)
    ensures db.users == old(db.users)
    ensures old(db.Valid()) ==> db.Valid()
  {
    total, events := CheckAllDepartments(registry, db, departments, failing, scrape, bot, now);
    if hour == CleanupHour {
      db.CleanupOldAnnouncements(RetentionDays, now);
    }
  }
}
