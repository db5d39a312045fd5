/**
 * The two stand-alone /start handlers used to debug the keyboard: one over the five
 * test departments, one over the loaded list with the test departments as fallback.
 * Both chunk the list two per row in the given order, without sorting, and add no
 * special rows.
 */
module StartCommandScript {
  import opened Wrappers
  import Keyboard

  /** `start_command_test`: behind the private-chat guard, the test departments two per
      row: three rows, the last holding only the fifth department. */
  method StartCommandTest(hasUser: bool, chat: Option<Keyboard.Chat>) returns (outcome: Keyboard.StartOutcome)
    ensures outcome.Menu? <==> Keyboard.CheckedGuard(hasUser, chat) == Keyboard.Admitted
    ensures outcome.Menu? ==>
      outcome.keyboard == Keyboard.Pairs(Keyboard.TestDepartments) &&
      |outcome.keyboard| == 3 && outcome.keyboard[2] == [Keyboard.TestDepartments[4]] &&
      Keyboard.Flatten(outcome.keyboard) == Keyboard.TestDepartments
  {
    if Keyboard.CheckedGuard(hasUser, chat) != Keyboard.Admitted {
      return Keyboard.Ignored;
    }
    var rows := Keyboard.ChunkPairs(Keyboard.TestDepartments);
    Keyboard.PairsRows(Keyboard.TestDepartments);
    Keyboard.PairsFlatten(Keyboard.TestDepartments);
    return Keyboard.Menu(rows);
  }

  /** `start_command_robust`: behind the guard, the loaded departments two per row in
      load order, or the test departments when loading raised or returned nothing; the
      rows read back as exactly that list. */
  method StartCommandRobust(hasUser: bool, chat: Option<Keyboard.Chat>, loaded: Option<seq<string>>)
    returns (outcome: Keyboard.StartOutcome)
    ensures outcome.Menu? <==> Keyboard.CheckedGuard(hasUser, chat) == Keyboard.Admitted
    ensures outcome.Menu? ==>
      outcome.keyboard == Keyboard.Pairs(Keyboard.WithFallback(loaded)) &&
      Keyboard.Flatten(outcome.keyboard) == Keyboard.WithFallback(loaded) &&
      |outcome.keyboard| == (|Keyboard.WithFallback(loaded)| + 1) / 2
  {
    if Keyboard.CheckedGuard(hasUser, chat) != Keyboard.Admitted {
      return Keyboard.Ignored;
    }
    var departments := Keyboard.WithFallback(loaded);
    var rows := Keyboard.ChunkPairs(departments);
    Keyboard.PairsFlatten(departments);
    return Keyboard.Menu(rows);
  }
}
