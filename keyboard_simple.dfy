/**
 * The stand-alone keyboard check: the pair rows come from a comprehension over the
 * even indices below `n - 1`, an odd last department is appended alone, then the two
 * special rows; the check compares the department row count with ceil(n/2).
 */
module KeyboardSimple {
  import Text
  import Keyboard
  import Commands

  /** `[[xs[i], xs[i + 1]] for i in range(0, len(xs) - 1, 2)]`: one row per index
      `i = 2k` with `i + 1 < |xs|`. */
  function PairRows(xs: seq<string>): (rows: seq<Keyboard.Row>)
    ensures |rows| == |xs| / 2
  {
    seq(|xs| / 2, k requires 0 <= k < |xs| / 2 => [xs[2 * k], xs[2 * k + 1]])
  }

  /** The department rows: the comprehension, then the odd last department alone. */
  function DepartmentRows(xs: seq<string>): seq<Keyboard.Row>
  {
    PairRows(xs) + (if |xs| % 2 == 1 then [[xs[|xs| - 1]]] else [])
  }

  /** The comprehension yields the same rows as the two-per-row loop of `start_command`. */
  lemma DepartmentRowsArePairs(xs: seq<string>)
    ensures DepartmentRows(xs) == Keyboard.Pairs(xs)
  {
    var rows := DepartmentRows(xs);
    var pairs := Keyboard.Pairs(xs);
    Keyboard.PairsRows(xs);
    assert |rows| == |pairs|;
    forall i | 0 <= i < |rows|
      ensures rows[i] == pairs[i]
    {
      var hi := if 2 * i + 2 <= |xs| then 2 * i + 2 else |xs|;
      assert pairs[i] == xs[2 * i .. hi];
      if 2 * i + 2 <= |xs| {
        assert rows[i] == [xs[2 * i], xs[2 * i + 1]];
      } else {
        assert rows[i] == [xs[|xs| - 1]];
      }
    }
  }

  /** The body of `test_keyboard_logic` over `departments`: builds the keyboard for the
      sorted list and reports whether it has ceil(n/2) department rows, which always
      holds; the keyboard is the two-per-row menu of `start_command`. */
  method KeyboardLogic(departments: seq<string>) returns (ok: bool, keyboard: seq<Keyboard.Row>)
    ensures ok
    ensures keyboard == Commands.MenuFor(departments)
  {
    var sorted := Text.Sort(departments);
    keyboard := PairRows(sorted);
    if |sorted| % 2 == 1 {
      keyboard := keyboard + [[sorted[|sorted| - 1]]];
    }
    assert keyboard == DepartmentRows(sorted);
    DepartmentRowsArePairs(sorted);
    keyboard := keyboard + Commands.SpecialRows;
    var expected := (|sorted| + 1) / 2;
    var actual := |keyboard| - 2;
    ok := actual == expected;
  }

  /** `test_keyboard_logic` on the five test departments: the check passes and the
      keyboard has three department rows and the two special rows. */
  method TestKeyboardLogic() returns (ok: bool, keyboard: seq<Keyboard.Row>)
    ensures ok
    ensures keyboard == Commands.MenuFor(Keyboard.TestDepartments)
    ensures |keyboard| == 5
  {
    ok, keyboard := KeyboardLogic(Keyboard.TestDepartments);
    Commands.MenuShape(Keyboard.TestDepartments);
  }
}
