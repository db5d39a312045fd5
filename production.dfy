/**
 * The command handlers of the production bot, the module the scheduler and the
 * application register: the announcement message, delivery to one user, the
 * `/update` command and the department-selection handler. The announcement
 * message, delivery and `/update` are identical in the development handlers,
 * which reuse them from here.
 *
 * Telegram is the `Bot` parameter (whether a message to a chat is accepted),
 * the scraper is the `Scraping` parameter and the clock is `now`. Every effect
 * on the world outside the store is recorded, in order, as an `Event`.
 */
module Production {
  import opened Wrappers
  import Text
  import Departments
  import Database
  import Scraper
  import Keyboard

  type Announcement = Scraper.Announcement

  /** Whether Telegram accepts a message text for a chat (`send_message` returns instead of raising). */
  type Bot = (int, string) -> bool

  /** `scrape_announcements(url, max)`: it never returns more than `max` records. */
  type Scraping = f: (string, nat) -> seq<Announcement> | forall url, max :: |f(url, max)| <= max
    witness (url: string, max: nat) => []

  /** The scraper of the application: `scrape_announcements` against the page each URL serves. */
  function LiveScraping(fetch: string -> Scraper.Fetch, resolve: Scraper.Resolver, fingerprint: Scraper.Fingerprint): Scraping
  {
    var f := (url: string, max: nat) => Scraper.Scrape(fetch(url), url, max, resolve, fingerprint);
    assert forall url, max :: |f(url, max)| <= max by {
      forall url: string, max: nat ensures |f(url, max)| <= max {
        assert f(url, max) == Scraper.Scrape(fetch(url), url, max, resolve, fingerprint);
      }
    }
    f
  }

  /** What a handler does outside the store, in order. */
  datatype Event =
    | Scraped(url: string)
    | Attempt(userId: int, department: string, announcement: Announcement, delivered: bool)
    | Marked(department: string, hash: string)

  const UpdateLimit: nat := 3
  const SelectionLimit: nat := 2
  const HelpButton: string := "❓ Yardım"

  // ===========================================================================
  // format_announcement_message

  const DateHeading: string := "📅 **Tarih:** "
  const SummaryHeading: string := "📝 **Özet:** "
  const LinkHeading: string := "🔗 **Detaylar:** [Duyuruyu Oku]("
  const LinkClose: string := ")"
  const SectionBreak: string := "\n\n"

  function Header(department: string): string
  {
    "🔔 **Yeni Duyuru - " + department + "**\n\n"
  }

  function TitleLine(title: string): string
  {
    "📢 **" + title + "**\n\n"
  }

  /** `format_announcement_message(announcement, department)`: header and title line,
      then the date, description and link sections for the fields that are non-empty. */
  function FormatAnnouncementMessage(a: Announcement, department: string): (message: string)
    ensures Text.StartsWith(message, Header(department) + TitleLine(a.title))
  {
    var message := Header(department) + TitleLine(a.title);
    var message := if a.date != [] then message + (DateHeading + a.date + SectionBreak) else message;
    var message := if a.description != [] then message + (SummaryHeading + a.description + SectionBreak) else message;
    if a.link != [] then message + (LinkHeading + a.link + LinkClose) else message
  }

  /** An optional part of the message: its heading, the field it shows and its closing text. */
  datatype Section = Section(heading: string, value: string, close: string)
  {
    function Rendered(): string
    {
      heading + value + close
    }
  }

  /** The optional sections of an announcement, in message order. */
  function OptionalSections(a: Announcement): seq<Section>
  {
    [Section(DateHeading, a.date, SectionBreak),
     Section(SummaryHeading, a.description, SectionBreak),
     Section(LinkHeading, a.link, LinkClose)]
  }

  /** The sections whose field is non-empty, in their order. */
  function Shown(sections: seq<Section>): (r: seq<Section>)
    ensures forall s :: s in r <==> s in sections && s.value != []
    ensures |r| <= |sections|
  {
    if sections == [] then []
    else
      var rest := Shown(sections[1..]);
      assert forall s :: s in sections <==> s == sections[0] || s in sections[1..];
      if sections[0].value != [] then [sections[0]] + rest else rest
  }

  /** The filter keeps the sections' order: it works run by run. */
  lemma {:induction false} ShownAppend(xs: seq<Section>, ys: seq<Section>)
    ensures Shown(xs + ys) == Shown(xs) + Shown(ys)
  {
    if xs != [] {
      assert (xs + ys)[0] == xs[0];
      assert (xs + ys)[1..] == xs[1..] + ys;
      ShownAppend(xs[1..], ys);
    } else {
      assert xs + ys == ys;
    }
  }

  /** One section is shown exactly when its field is non-empty. */
  lemma ShownSingle(s: Section)
    ensures Shown([s]) == if s.value != [] then [s] else []
  {
  }

  /** The sections one after another. */
  function Render(sections: seq<Section>): string
  {
    if sections == [] then [] else sections[0].Rendered() + Render(sections[1..])
  }

  /** Section by section: append each section whose field is non-empty to `message`. */
  function AppendSections(message: string, sections: seq<Section>): string
    decreases |sections|
  {
    if sections == [] then message
    else
      var next := if sections[0].value != [] then message + sections[0].Rendered() else message;
      AppendSections(next, sections[1..])
  }

  lemma {:induction false} AppendSectionsRenders(message: string, sections: seq<Section>)
    ensures AppendSections(message, sections) == message + Render(Shown(sections))
    decreases |sections|
  {
    if sections != [] {
      var next := if sections[0].value != [] then message + sections[0].Rendered() else message;
      AppendSectionsRenders(next, sections[1..]);
      if sections[0].value != [] {
        assert Shown(sections) == [sections[0]] + Shown(sections[1..]);
        assert ([sections[0]] + Shown(sections[1..]))[1..] == Shown(sections[1..]);
        assert next + Render(Shown(sections[1..])) == message + (sections[0].Rendered() + Render(Shown(sections[1..])));
      }
    }
  }

  /** The message is the header, the title line and the rendering of exactly the
      sections whose field is non-empty, in the order date, description, link. */
  lemma FormatShowsPresentSections(a: Announcement, department: string)
    ensures FormatAnnouncementMessage(a, department)
         == Header(department) + TitleLine(a.title) + Render(Shown(OptionalSections(a)))
  {
    var s := OptionalSections(a);
    var m0 := Header(department) + TitleLine(a.title);
    var m1 := if a.date != [] then m0 + s[0].Rendered() else m0;
    var m2 := if a.description != [] then m1 + s[1].Rendered() else m1;
    var m3 := if a.link != [] then m2 + s[2].Rendered() else m2;
    assert s[1..][0] == s[1] && s[1..][1..][0] == s[2] && s[1..][1..][1..] == [];
    assert AppendSections(m0, s) == AppendSections(m1, s[1..]);
    assert AppendSections(m1, s[1..]) == AppendSections(m2, s[1..][1..]);
    assert AppendSections(m2, s[1..][1..]) == m3;
    AppendSectionsRenders(m0, s);
  }

  // ===========================================================================
  // send_announcement_to_user

  /** `send_announcement_to_user`: whether Telegram accepted the formatted message.
      A failed send is reported as `false`; nothing escapes. */
  function SendAnnouncementToUser(userId: int, a: Announcement, department: string, bot: Bot): (delivered: bool)
    ensures delivered <==> bot(userId, FormatAnnouncementMessage(a, department))
  {
    bot(userId, FormatAnnouncementMessage(a, department))
  }

  // ===========================================================================
  // The new-record filter and the marking loop, shared with the scheduler

  /** The scraped records whose hash is not yet sent for `department`, in scrape order. */
  function NewRecords(sent: seq<Database.SentRow>, department: string, scraped: seq<Announcement>): (unsent: seq<Announcement>)
    ensures |unsent| <= |scraped|
    ensures forall a :: a in unsent <==> a in scraped && !Database.IsSent(sent, department, a.hash)
  {
    if scraped == [] then []
    else
      var last := scraped[|scraped| - 1];
      var prev := NewRecords(sent, department, scraped[..|scraped| - 1]);
      assert forall a :: a in scraped <==> a in scraped[..|scraped| - 1] || a == last;
      if Database.IsSent(sent, department, last.hash) then prev else prev + [last]
  }

  /** Once every scraped record is marked, nothing of it is new. */
  lemma NewRecordsNoneLeft(sent: seq<Database.SentRow>, department: string, scraped: seq<Announcement>)
    requires forall a :: a in scraped ==> Database.IsSent(sent, department, a.hash)
    ensures NewRecords(sent, department, scraped) == []
  {
  }

  /** The filter keeps scrape order: filtering `xs + ys` is filtering `xs`, then `ys`. */
  lemma {:induction false} NewRecordsAppend(sent: seq<Database.SentRow>, department: string, xs: seq<Announcement>, ys: seq<Announcement>)
    ensures NewRecords(sent, department, xs + ys) == NewRecords(sent, department, xs) + NewRecords(sent, department, ys)
  {
    if ys == [] {
      assert xs + ys == xs;
    } else {
      assert (xs + ys)[..|xs + ys| - 1] == xs + ys[..|ys| - 1];
      NewRecordsAppend(sent, department, xs, ys[..|ys| - 1]);
    }
  }

  /** The filter loop (`if not is_announcement_sent(...)`: append). */
  method SelectNew(db: Database.DatabaseHandler, department: string, announcements: seq<Announcement>)
    returns (unsent: seq<Announcement>)
    ensures unsent == NewRecords(db.sent, department, announcements)
  {
    unsent := [];
    for i := 0 to |announcements|
      invariant unsent == NewRecords(db.sent, department, announcements[..i])
    {
      if !db.IsAnnouncementSent(department, announcements[i].hash) {
        unsent := unsent + [announcements[i]];
      }
      assert announcements[..i + 1][..i] == announcements[..i];
    }
    assert announcements[..|announcements|] == announcements;
  }

  /** `mark_announcement_sent` for each record in turn. */
  function MarkAll(sent: seq<Database.SentRow>, department: string, records: seq<Announcement>, now: int): (r: seq<Database.SentRow>)
    ensures sent <= r
    ensures |r| <= |sent| + |records|
  {
    if records == [] then sent
    else
      var last := records[|records| - 1];
      Database.MarkSent(MarkAll(sent, department, records[..|records| - 1], now), department, last.hash, last.title, now)
  }

  /** Some record has hash `h`. */
  predicate HasHash(records: seq<Announcement>, h: string)
  {
    exists a :: a in records && a.hash == h
  }

  /** After marking, a pair is sent exactly when it was sent before or is one of the
      marked records of `department`; one row per pair is kept. */
  lemma {:induction false} MarkAllEffect(sent: seq<Database.SentRow>, department: string, records: seq<Announcement>, now: int)
    ensures var r := MarkAll(sent, department, records, now);
      forall d, h :: Database.IsSent(r, d, h) <==> Database.IsSent(sent, d, h) || (d == department && HasHash(records, h))
    ensures Database.UniquePairs(sent) ==> Database.UniquePairs(MarkAll(sent, department, records, now))
  {
    if records != [] {
      var init := records[..|records| - 1];
      var last := records[|records| - 1];
      MarkAllEffect(sent, department, init, now);
      assert forall a :: a in records <==> a in init || a == last;
    }
  }

  /** Every marked record is sent afterwards. */
  lemma MarkAllMarks(sent: seq<Database.SentRow>, department: string, records: seq<Announcement>, now: int)
    ensures forall a :: a in records ==> Database.IsSent(MarkAll(sent, department, records, now), department, a.hash)
  {
    MarkAllEffect(sent, department, records, now);
  }

  /** The marking loop. */
  method MarkEach(db: Database.DatabaseHandler, department: string, records: seq<Announcement>, now: int)
    modifies db
    ensures db.sent == MarkAll(old(db.sent), department, records, now)
    ensures db.users == old(db.users)
    ensures old(db.Valid()) ==> db.Valid()
  {
    for i := 0 to |records|
      invariant db.sent == MarkAll(old(db.sent), department, records[..i], now)
      invariant db.users == old(db.users)
      invariant old(db.Valid()) ==> db.Valid()
    {
      db.MarkAnnouncementSent(department, records[i].hash, records[i].title, now);
      assert records[..i + 1][..i] == records[..i];
    }
    assert records[..|records|] == records;
  }

  // ===========================================================================
  // update_command

  /** The `/update` loop: each new record is offered to the requester and marked right after. */
  function SendThenMark(userId: int, department: string, unsent: seq<Announcement>, bot: Bot): (events: seq<Event>)
    ensures |events| == 2 * |unsent|
  {
    if unsent == [] then []
    else
      var last := unsent[|unsent| - 1];
      SendThenMark(userId, department, unsent[..|unsent| - 1], bot)
        + [Attempt(userId, department, last, SendAnnouncementToUser(userId, last, department, bot)), Marked(department, last.hash)]
  }

  /** Record `i` is attempted at position `2i` and marked at `2i + 1`, before record `i + 1` is attempted. */
  lemma {:induction false} SendThenMarkPairs(userId: int, department: string, unsent: seq<Announcement>, bot: Bot)
    ensures var events := SendThenMark(userId, department, unsent, bot);
      forall i :: 0 <= i < |unsent| ==>
        events[2 * i] == Attempt(userId, department, unsent[i], SendAnnouncementToUser(userId, unsent[i], department, bot)) &&
        events[2 * i + 1] == Marked(department, unsent[i].hash)
  {
    if unsent != [] {
      var n := |unsent|;
      var init := unsent[..n - 1];
      var last := unsent[n - 1];
      var prev := SendThenMark(userId, department, init, bot);
      var tail := [Attempt(userId, department, last, SendAnnouncementToUser(userId, last, department, bot)), Marked(department, last.hash)];
      var events := SendThenMark(userId, department, unsent, bot);
      SendThenMarkPairs(userId, department, init, bot);
      assert events == prev + tail;
      forall i | 0 <= i < n
        ensures events[2 * i] == Attempt(userId, department, unsent[i], SendAnnouncementToUser(userId, unsent[i], department, bot))
        ensures events[2 * i + 1] == Marked(department, unsent[i].hash)
      {
        if i < n - 1 {
          assert unsent[i] == init[i];
          assert events[2 * i] == prev[2 * i];
          assert events[2 * i + 1] == prev[2 * i + 1];
        } else {
          assert events[2 * i] == tail[0];
          assert events[2 * i + 1] == tail[1];
        }
      }
    }
  }

  /** The replies of `/update`. */
  datatype UpdateReply =
    | NotSubscribed
    | NoUrl(department: string)
    | NothingFound(department: string)
    | NothingNew(department: string, checked: nat)
    | Found(department: string, count: nat)

  datatype UpdateResult = UpdateResult(reply: UpdateReply, sent: seq<Database.SentRow>, events: seq<Event>)

  /** What `update_command` does for `userId` given the store's tables. */
  function Update(registry: seq<Departments.Department>, users: seq<Database.UserRow>, sent: seq<Database.SentRow>, userId: int, scrape: Scraping, bot: Bot, now: int): (r: UpdateResult)
    ensures !r.reply.Found? ==> r.sent == sent
    ensures r.reply.Found? ==> 0 < r.reply.count <= UpdateLimit
    ensures sent <= r.sent
    ensures |r.events| <= 1 + 2 * UpdateLimit
  {
    match Database.FindUser(users, userId)
    case None => UpdateResult(NotSubscribed, sent, [])
    case Some(row) =>
      var department := row.department;
      match Departments.UrlIn(registry, department)
      case None => UpdateResult(NoUrl(department), sent, [])
      case Some(url) =>
        var scraped := scrape(url, UpdateLimit);
        var unsent := NewRecords(sent, department, scraped);
        if scraped == [] then UpdateResult(NothingFound(department), sent, [Scraped(url)])
        else if unsent == [] then UpdateResult(NothingNew(department, |scraped|), sent, [Scraped(url)])
        else UpdateResult(Found(department, |unsent|), MarkAll(sent, department, unsent, now),
                          [Scraped(url)] + SendThenMark(userId, department, unsent, bot))
  }

  /** Every offer in the `/update` loop goes to the requester and is one of the records. */
  lemma {:induction false} SendThenMarkOffers(userId: int, department: string, unsent: seq<Announcement>, bot: Bot)
    ensures forall e :: e in SendThenMark(userId, department, unsent, bot) && e.Attempt? ==>
      e.userId == userId && e.department == department && e.announcement in unsent
  {
    if unsent != [] {
      SendThenMarkOffers(userId, department, unsent[..|unsent| - 1], bot);
      assert forall a :: a in unsent[..|unsent| - 1] ==> a in unsent;
    }
  }

  /** Without a subscription nothing is scraped and the store is untouched; with no URL,
      an empty scrape or nothing new, nothing is delivered and nothing is marked. */
  lemma UpdateStops(registry: seq<Departments.Department>, users: seq<Database.UserRow>, sent: seq<Database.SentRow>, userId: int, scrape: Scraping, bot: Bot, now: int)
    ensures var r := Update(registry, users, sent, userId, scrape, bot, now);
      (Database.FindUser(users, userId).None? ==> r.sent == sent && r.events == []) &&
      (!r.reply.Found? ==> r.sent == sent && forall e :: e in r.events ==> e.Scraped?)
  {
    var r := Update(registry, users, sent, userId, scrape, bot, now);
    match Database.FindUser(users, userId)
    case None =>
    case Some(row) =>
      match Departments.UrlIn(registry, row.department)
      case None =>
      case Some(url) =>
        if !r.reply.Found? {
          assert r.events == [Scraped(url)];
        }
  }

  /** For a subscriber whose department has a URL: only records not yet sent for that
      department are offered, only to the requester and at most three of them; afterwards
      every scraped record is sent; no other department's pairs change. */
  lemma UpdateDeliversOnlyNew(registry: seq<Departments.Department>, users: seq<Database.UserRow>, sent: seq<Database.SentRow>, userId: int, scrape: Scraping, bot: Bot, now: int,
                              row: Database.UserRow, url: string)
    requires Database.FindUser(users, userId) == Some(row)
    requires Departments.UrlIn(registry, row.department) == Some(url)
    ensures var r := Update(registry, users, sent, userId, scrape, bot, now);
      (forall e :: e in r.events && e.Attempt? ==>
         e.userId == userId && e.department == row.department && e.announcement in scrape(url, UpdateLimit) &&
         !Database.IsSent(sent, row.department, e.announcement.hash)) &&
      |r.events| <= 1 + 2 * UpdateLimit &&
      (forall a :: a in scrape(url, UpdateLimit) ==> Database.IsSent(r.sent, row.department, a.hash)) &&
      (forall d, h :: d != row.department ==> (Database.IsSent(r.sent, d, h) <==> Database.IsSent(sent, d, h)))
  {
    var d := row.department;
    var scraped := scrape(url, UpdateLimit);
    var unsent := NewRecords(sent, d, scraped);
    SendThenMarkOffers(userId, d, unsent, bot);
    MarkAllEffect(sent, d, unsent, now);
  }

  /** Asking again with the same scrape delivers nothing: everything offered the first time is marked. */
  lemma UpdateTwiceDeliversNothing(registry: seq<Departments.Department>, users: seq<Database.UserRow>, sent: seq<Database.SentRow>, userId: int, scrape: Scraping, bot: Bot, now: int, later: int)
    ensures var again := Update(registry, users, Update(registry, users, sent, userId, scrape, bot, now).sent, userId, scrape, bot, later);
      forall e :: e in again.events ==> !e.Attempt?
  {
    var first := Update(registry, users, sent, userId, scrape, bot, now);
    match Database.FindUser(users, userId)
    case None =>
    case Some(row) =>
      match Departments.UrlIn(registry, row.department)
      case None =>
      case Some(url) =>
        UpdateDeliversOnlyNew(registry, users, sent, userId, scrape, bot, now, row, url);
        NewRecordsNoneLeft(first.sent, row.department, scrape(url, UpdateLimit));
        var again := Update(registry, users, first.sent, userId, scrape, bot, later);
        assert again.events == [Scraped(url)];
  }

  /** `update_command`. */
  method UpdateCommand(registry: seq<Departments.Department>, db: Database.DatabaseHandler, userId: int, scrape: Scraping, bot: Bot, now: int)
    returns (reply: UpdateReply, events: seq<Event>)
    modifies db
    ensures UpdateResult(reply, db.sent, events) == Update(registry, old(db.users), old(db.sent), userId, scrape, bot, now)
    ensures db.users == old(db.users)
    ensures old(db.Valid()) ==> db.Valid()
  {
    var userData := db.GetUserSubscription(userId);
    if userData.None? {
      return NotSubscribed, [];
    }
    var department := userData.value.department;
    var url := Departments.UrlIn(registry, department);
    if url.None? {
      return NoUrl(department), [];
    }
    var announcements := scrape(url.value, UpdateLimit);
    events := [Scraped(url.value)];
    if announcements == [] {
      return NothingFound(department), events;
    }
    var unsent := SelectNew(db, department, announcements);
    if unsent == [] {
      return NothingNew(department, |announcements|), events;
    }
    var attempts := DeliverThenMark(db, userId, department, unsent, bot, now);
    return Found(department, |unsent|), events + attempts;
  }

  /** The delivery loop of `/update`: send each record to the requester, then mark it. */
  method DeliverThenMark(db: Database.DatabaseHandler, userId: int, department: string, unsent: seq<Announcement>, bot: Bot, now: int)
    returns (events: seq<Event>)
    modifies db
    ensures db.sent == MarkAll(old(db.sent), department, unsent, now)
    ensures events == SendThenMark(userId, department, unsent, bot)
    ensures db.users == old(db.users)
    ensures old(db.Valid()) ==> db.Valid()
  {
    events := [];
    for i := 0 to |unsent|
      invariant db.sent == MarkAll(old(db.sent), department, unsent[..i], now)
      invariant events == SendThenMark(userId, department, unsent[..i], bot)
      invariant db.users == old(db.users)
      invariant old(db.Valid()) ==> db.Valid()
    {
      var a := unsent[i];
      var delivered := SendAnnouncementToUser(userId, a, department, bot);
      events := events + [Attempt(userId, department, a, delivered)];
      db.MarkAnnouncementSent(department, a.hash, a.title, now);
      events := events + [Marked(department, a.hash)];
      assert unsent[..i + 1][..i] == unsent[..i];
    }
    assert unsent[..|unsent|] == unsent;
  }

  // ===========================================================================
  // handle_department_selection

  /** The replies of the selection handlers. */
  datatype SelectionReply =
    | HelpShown
    | StatsShown
    | KeyboardHidden
    | Subscribed(department: string, found: Option<nat>)
    | Invalid(text: string)

  datatype SelectionResult = SelectionResult(reply: SelectionReply, users: seq<Database.UserRow>, sent: seq<Database.SentRow>)

  /** `user.username or f"user_{user.id}"`. */
  function DisplayName(username: Option<string>, userId: int): (name: string)
    ensures name != []
    ensures username.Some? && username.value != [] ==> name == username.value
  {
    if username.Some? && username.value != [] then username.value else "user_" + Text.IntToDecimal(userId)
  }

  /** The department branch of both selection handlers: a department name subscribes the
      user and marks what the department page shows now, without delivering it; any other
      text is rejected. */
  function Subscribe(registry: seq<Departments.Department>, users: seq<Database.UserRow>, sent: seq<Database.SentRow>,
                     userId: int, username: Option<string>, text: string, scrape: Scraping, now: int): (r: SelectionResult)
    ensures r.reply.Invalid? <==> text !in Departments.Names(registry)
    ensures r.reply.Invalid? ==> r.users == users && r.sent == sent
    ensures r.reply.Subscribed? ==> r.reply.department == text
    ensures sent <= r.sent
  {
    if text in Departments.Names(registry) then
      var subscribed := Database.Upsert(users, userId, DisplayName(username, userId), text);
      match Departments.UrlIn(registry, text)
      case None => SelectionResult(Subscribed(text, None), subscribed, sent)
      case Some(url) =>
        var current := scrape(url, SelectionLimit);
        SelectionResult(Subscribed(text, Some(|current|)), subscribed, MarkAll(sent, text, current, now))
    else SelectionResult(Invalid(text), users, sent)
  }

  /** `handle_department_selection`: the help button, else the department branch. */
  function Selection(registry: seq<Departments.Department>, users: seq<Database.UserRow>, sent: seq<Database.SentRow>,
                     userId: int, username: Option<string>, text: string, scrape: Scraping, now: int): (r: SelectionResult)
    ensures r.reply.HelpShown? <==> text == HelpButton
    ensures !r.reply.Subscribed? ==> r.users == users && r.sent == sent
  {
    if text == HelpButton then SelectionResult(HelpShown, users, sent)
    else Subscribe(registry, users, sent, userId, username, text, scrape, now)
  }

  /** A department name subscribes the user to it: one row per user, active, under the
      display name. */
  lemma SubscribeRegisters(registry: seq<Departments.Department>, users: seq<Database.UserRow>, sent: seq<Database.SentRow>,
                           userId: int, username: Option<string>, text: string, scrape: Scraping, now: int)
    requires text in Departments.Names(registry)
    ensures var r := Subscribe(registry, users, sent, userId, username, text, scrape, now);
      r.reply.Subscribed? && r.reply.department == text &&
      Database.FindUser(r.users, userId) == Some(Database.UserRow(userId, DisplayName(username, userId), text, true)) &&
      (Database.UniqueUsers(users) ==> Database.UniqueUsers(r.users))
  {
  }

  /** What the department page shows at subscription time (up to two records) is marked
      sent and will never be offered as new; no other department's pairs change. */
  lemma SubscribeMarksCurrent(registry: seq<Departments.Department>, users: seq<Database.UserRow>, sent: seq<Database.SentRow>,
                              userId: int, username: Option<string>, text: string, scrape: Scraping, now: int, url: string)
    requires text in Departments.Names(registry)
    requires Departments.UrlIn(registry, text) == Some(url)
    ensures var r := Subscribe(registry, users, sent, userId, username, text, scrape, now);
      r.reply == Subscribed(text, Some(|scrape(url, SelectionLimit)|)) &&
      NewRecords(r.sent, text, scrape(url, SelectionLimit)) == [] &&
      (forall d, h :: d != text ==> (Database.IsSent(r.sent, d, h) <==> Database.IsSent(sent, d, h)))
  {
    var current := scrape(url, SelectionLimit);
    var marked := MarkAll(sent, text, current, now);
    assert Subscribe(registry, users, sent, userId, username, text, scrape, now).sent == marked;
    MarkAllEffect(sent, text, current, now);
    NewRecordsNoneLeft(marked, text, current);
  }

  /** Text that is neither the help button nor a department name changes nothing;
      neither does the help button. */
  lemma SelectionRejects(registry: seq<Departments.Department>, users: seq<Database.UserRow>, sent: seq<Database.SentRow>,
                         userId: int, username: Option<string>, text: string, scrape: Scraping, now: int)
    requires text !in Departments.Names(registry) || text == HelpButton
    ensures var r := Selection(registry, users, sent, userId, username, text, scrape, now);
      r.users == users && r.sent == sent && (r.reply == HelpShown || r.reply == Invalid(text))
  {
  }

  /** The department branch against the store. */
  method SubscribeUser(registry: seq<Departments.Department>, db: Database.DatabaseHandler, userId: int, username: Option<string>,
                       text: string, scrape: Scraping, now: int)
    returns (reply: SelectionReply)
    modifies db
    ensures SelectionResult(reply, db.users, db.sent) == Subscribe(registry, old(db.users), old(db.sent), userId, username, text, scrape, now)
    ensures old(db.Valid()) ==> db.Valid()
  {
    if text !in Departments.Names(registry) {
      return Invalid(text);
    }
    db.AddUserSubscription(userId, DisplayName(username, userId), text);
    var url := Departments.UrlIn(registry, text);
    if url.None? {
      return Subscribed(text, None);
    }
    var announcements := scrape(url.value, SelectionLimit);
    MarkEach(db, text, announcements, now);
    return Subscribed(text, Some(|announcements|));
  }

  /** `handle_department_selection`. */
  method HandleDepartmentSelection(registry: seq<Departments.Department>, db: Database.DatabaseHandler, userId: int, username: Option<string>,
                                   text: string, scrape: Scraping, now: int)
    returns (reply: SelectionReply)
    modifies db
    ensures SelectionResult(reply, db.users, db.sent) == Selection(registry, old(db.users), old(db.sent), userId, username, text, scrape, now)
    ensures old(db.Valid()) ==> db.Valid()
  {
    if text == HelpButton {
      return HelpShown;
    }
    reply := SubscribeUser(registry, db, userId, username, text, scrape, now);
  }

  // ===========================================================================
  // start_command

  /** `start_command`: behind the private-chat guard, the departments sorted, one per
      row, then a row holding only the help button. */
  method StartCommand(hasUser: bool, chat: Option<Keyboard.Chat>, departments: seq<string>)
    returns (outcome: Keyboard.StartOutcome)
    ensures outcome.Menu? <==> Keyboard.CheckedGuard(hasUser, chat) == Keyboard.Admitted
    ensures outcome.Menu? ==>
      var sorted := Text.Sort(departments);
      |outcome.keyboard| == |departments| + 1 &&
      (forall i :: 0 <= i < |sorted| ==> outcome.keyboard[i] == [sorted[i]]) &&
      outcome.keyboard[|departments|] == [HelpButton] &&
      Keyboard.Flatten(outcome.keyboard[..|departments|]) == sorted
  {
    if Keyboard.CheckedGuard(hasUser, chat) != Keyboard.Admitted {
      return Keyboard.Ignored;
    }
    var sorted := Text.Sort(departments);
    var rows := Keyboard.OnePerRow(sorted);
    Keyboard.OnePerRowFlatten(rows, sorted);
    var keyboard := rows + [[HelpButton]];
    assert keyboard[..|departments|] == rows;
    return Keyboard.Menu(keyboard);
  }
}
