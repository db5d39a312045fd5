/**
 * The handlers of the two-per-row bot: `/start` with its department menu and the
 * three special buttons, and the keyboard-selection handler that dispatches those
 * buttons before treating the text as a department name. `/update`, the message
 * format and the send step are the same as in the one-per-row bot and are modelled
 * once, in `Production`.
 */
module Commands {
  import opened Wrappers
  import Text
  import Departments
  import Database
  import Keyboard
  import Production

  const StatsButton: string := "📊 İstatistikler"
  const HideButton: string := "⌨️ Klavyeyi Gizle"

  /** The two rows that close the menu. */
  const SpecialRows: seq<Keyboard.Row> := [[StatsButton, Production.HelpButton], [HideButton]]

  /** The menu for `departments`: sorted, two per row, then the special rows. */
  function MenuFor(departments: seq<string>): (menu: seq<Keyboard.Row>)
    ensures |menu| == (|departments| + 1) / 2 + 2
    ensures menu[|menu| - 2..] == SpecialRows
  {
    Keyboard.Pairs(Text.Sort(departments)) + SpecialRows
  }

  /** The menu has ceil(n/2) + 2 rows, ends with the special rows, and its department rows
      read back as the sorted department list, a permutation of the input. */
  lemma MenuShape(departments: seq<string>)
    ensures var menu := MenuFor(departments);
      |menu| == (|departments| + 1) / 2 + 2 &&
      menu[|menu| - 2..] == SpecialRows &&
      Keyboard.Flatten(menu[..|menu| - 2]) == Text.Sort(departments) &&
      Text.SortedStrings(Keyboard.Flatten(menu[..|menu| - 2])) &&
      multiset(Keyboard.Flatten(menu[..|menu| - 2])) == multiset(departments)
  {
    var menu := MenuFor(departments);
    var rows := Keyboard.Pairs(Text.Sort(departments));
    assert menu[..|menu| - 2] == rows;
    Keyboard.PairsFlatten(Text.Sort(departments));
  }

  /** `start_command`: behind the private-chat guard, the menu for the loaded departments,
      or for the test departments when loading raised or returned nothing. */
  method StartCommand(hasUser: bool, chat: Option<Keyboard.Chat>, loaded: Option<seq<string>>)
    returns (outcome: Keyboard.StartOutcome)
    ensures outcome.Menu? <==> Keyboard.CheckedGuard(hasUser, chat) == Keyboard.Admitted
    ensures outcome.Menu? ==> outcome.keyboard == MenuFor(Keyboard.WithFallback(loaded))
  {
    if Keyboard.CheckedGuard(hasUser, chat) != Keyboard.Admitted {
      return Keyboard.Ignored;
    }
    var departments := Keyboard.WithFallback(loaded);
    var sorted := Text.Sort(departments);
    var rows := Keyboard.ChunkPairs(sorted);
    return Keyboard.Menu(rows + SpecialRows);
  }

  /** `handle_department_selection`: the statistics, help and hide buttons, else the
      department branch shared with the one-per-row bot. */
  function Selection(registry: seq<Departments.Department>, users: seq<Database.UserRow>, sent: seq<Database.SentRow>,
                     userId: int, username: Option<string>, text: string, scrape: Production.Scraping, now: int)
    : (r: Production.SelectionResult)
    ensures r.reply.StatsShown? <==> text == StatsButton
    ensures r.reply.HelpShown? <==> text == Production.HelpButton
    ensures r.reply.KeyboardHidden? <==> text == HideButton
    ensures !r.reply.Subscribed? ==> r.users == users && r.sent == sent
  {
    if text == StatsButton then Production.SelectionResult(Production.StatsShown, users, sent)
    else if text == Production.HelpButton then Production.SelectionResult(Production.HelpShown, users, sent)
    else if text == HideButton then Production.SelectionResult(Production.KeyboardHidden, users, sent)
    else Production.Subscribe(registry, users, sent, userId, username, text, scrape, now)
  }

  /** A special button and a text that names no department leave both tables as they
      were; the reply says which case it was. */
  lemma SelectionLeavesStore(registry: seq<Departments.Department>, users: seq<Database.UserRow>, sent: seq<Database.SentRow>,
                             userId: int, username: Option<string>, text: string, scrape: Production.Scraping, now: int)
    requires text in [StatsButton, Production.HelpButton, HideButton] || text !in Departments.Names(registry)
    ensures var r := Selection(registry, users, sent, userId, username, text, scrape, now);
      r.users == users && r.sent == sent &&
      (text == StatsButton ==> r.reply == Production.StatsShown) &&
      (text == Production.HelpButton ==> r.reply == Production.HelpShown) &&
      (text == HideButton ==> r.reply == Production.KeyboardHidden) &&
      (text !in [StatsButton, Production.HelpButton, HideButton] ==> r.reply == Production.Invalid(text))
  {
  }

  /** `handle_department_selection` against the store. */
  method HandleDepartmentSelection(registry: seq<Departments.Department>, db: Database.DatabaseHandler, userId: int,
                                   username: Option<string>, text: string, scrape: Production.Scraping, now: int)
    returns (reply: Production.SelectionReply)
    modifies db
    ensures Production.SelectionResult(reply, db.users, db.sent) ==
            Selection(registry, old(db.users), old(db.sent), userId, username, text, scrape, now)
    ensures old(db.Valid()) ==> db.Valid()
  {
    if text == StatsButton {
      return Production.StatsShown;
    } else if text == Production.HelpButton {
      return Production.HelpShown;
    } else if text == HideButton {
      return Production.KeyboardHidden;
    }
    reply := Production.SubscribeUser(registry, db, userId, username, text, scrape, now);
  }
}
