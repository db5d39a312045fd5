/**
 * Reply keyboards as rows of button labels, the two layouts the /start handlers build
 * (two labels per row, one label per row), the department-list fallback and the
 * private-chat guard the handlers apply before building a keyboard.
 */
module Keyboard {
  import opened Wrappers

  /** One keyboard row: its button labels, left to right. */
  type Row = seq<string>

  /** The labels of `rows`, row by row, left to right. */
  function Flatten(rows: seq<Row>): seq<string>
  {
    if rows == [] then [] else rows[0] + Flatten(rows[1..])
  }

  // ---------------------------------------------------------------------------
  // Two labels per row

  /** `xs` two per row in order; when `|xs|` is odd the last label has a row of its own. */
  function Pairs(xs: seq<string>): (rows: seq<Row>)
    ensures |rows| == (|xs| + 1) / 2
  {
    if |xs| <= 1 then (if xs == [] then [] else [xs])
    else [xs[..2]] + Pairs(xs[2..])
  }

  /** Row `i` holds labels `2i` and `2i + 1`, or only `2i` when it is the last label. */
  lemma {:induction false} PairsRows(xs: seq<string>)
    ensures forall i :: 0 <= i < |Pairs(xs)| ==> Pairs(xs)[i] == xs[2 * i .. if 2 * i + 2 <= |xs| then 2 * i + 2 else |xs|]
  {
    if |xs| > 1 {
      var rows := Pairs(xs);
      var tail := xs[2..];
      PairsRows(tail);
      forall i | 0 < i < |rows|
        ensures rows[i] == xs[2 * i .. if 2 * i + 2 <= |xs| then 2 * i + 2 else |xs|]
      {
        assert rows[i] == Pairs(tail)[i - 1];
        var hi := if 2 * (i - 1) + 2 <= |tail| then 2 * (i - 1) + 2 else |tail|;
        assert tail[2 * (i - 1) .. hi] == xs[2 * i .. hi + 2];
      }
    }
  }

  /** Every row has one or two labels, and a row has one exactly when it is the last row
      of an odd number of labels. */
  lemma PairsShape(xs: seq<string>)
    ensures var rows := Pairs(xs);
      forall i :: 0 <= i < |rows| ==>
        1 <= |rows[i]| <= 2 && (|rows[i]| == 1 <==> i == |rows| - 1 && |xs| % 2 == 1)
  {
    PairsRows(xs);
  }

  /** Reading the rows back gives the labels, in order. */
  lemma {:induction false} PairsFlatten(xs: seq<string>)
    ensures Flatten(Pairs(xs)) == xs
  {
    if |xs| > 1 {
      PairsFlatten(xs[2..]);
      assert xs[..2] + xs[2..] == xs;
    }
  }

  /** Chunking an even-length prefix first does not shift the later pairs. */
  lemma {:induction false} PairsAppend(xs: seq<string>, ys: seq<string>)
    requires |xs| % 2 == 0
    ensures Pairs(xs + ys) == Pairs(xs) + Pairs(ys)
  {
    if xs != [] {
      assert (xs + ys)[..2] == xs[..2];
      assert (xs + ys)[2..] == xs[2..] + ys;
      PairsAppend(xs[2..], ys);
    } else {
      assert xs + ys == ys;
    }
  }

  /** The `for i in range(0, len(xs), 2)` loop that appends `[xs[i], xs[i + 1]]`, or `[xs[i]]`
      when `i` is the last index. */
  method ChunkPairs(xs: seq<string>) returns (rows: seq<Row>)
    ensures rows == Pairs(xs)
  {
    rows := [];
    var i := 0;
    while i < |xs|
      invariant 0 <= i <= |xs| + 1 && i % 2 == 0
      invariant i <= |xs| ==> rows == Pairs(xs[..i])
      invariant i > |xs| ==> rows == Pairs(xs)
    {
      if i + 1 < |xs| {
        var pair := xs[i..i + 2];
        assert pair == [xs[i], xs[i + 1]];
        assert xs[..i + 2] == xs[..i] + pair;
        assert pair[..2] == pair && pair[2..] == [];
        PairsAppend(xs[..i], pair);
        rows := rows + [[xs[i], xs[i + 1]]];
      } else {
        assert xs == xs[..i] + [xs[i]];
        PairsAppend(xs[..i], [xs[i]]);
        rows := rows + [[xs[i]]];
      }
      i := i + 2;
    }
    if i == |xs| {
      assert xs[..i] == xs;
    }
  }

  // ---------------------------------------------------------------------------
  // One label per row

  /** The loop that appends `[x]` for every label `x`, in order. */
  method OnePerRow(xs: seq<string>) returns (rows: seq<Row>)
    ensures |rows| == |xs|
    ensures forall i :: 0 <= i < |xs| ==> rows[i] == [xs[i]]
  {
    rows := [];
    for i := 0 to |xs|
      invariant |rows| == i
      invariant forall j :: 0 <= j < i ==> rows[j] == [xs[j]]
    {
      rows := rows + [[xs[i]]];
    }
  }

  /** One label per row reads back as the labels, in order. */
  lemma {:induction false} OnePerRowFlatten(rows: seq<Row>, xs: seq<string>)
    requires |rows| == |xs|
    requires forall i :: 0 <= i < |xs| ==> rows[i] == [xs[i]]
    ensures Flatten(rows) == xs
  {
    if xs != [] {
      OnePerRowFlatten(rows[1..], xs[1..]);
      assert [xs[0]] + xs[1..] == xs;
    }
  }

  // ---------------------------------------------------------------------------
  // Department list and chat guard

  /** The five departments the handlers fall back to. */
  const TestDepartments: seq<string> := ["Bilgisayar", "Yapay Zeka", "Makine", "Elektrik", "İnşaat"]

  /** The department list a falling-back handler uses: the loaded list, or the test
      departments when loading raised (`None`) or returned an empty list. */
  function WithFallback(loaded: Option<seq<string>>): (departments: seq<string>)
    ensures departments != []
    ensures departments == TestDepartments || (loaded.Some? && departments == loaded.value)
    ensures loaded.Some? && loaded.value != [] ==> departments == loaded.value
  {
    match loaded
    case Some(names) => if names != [] then names else TestDepartments
    case None => TestDepartments
  }

  /** The chat an update arrived in; `kind` is Telegram's chat type. */
  datatype Chat = Chat(id: int, kind: string)

  const Private: string := "private"

  /** Whether a handler goes on, returns quietly, or raises. */
  datatype Admission = Admitted | Refused | Crashed

  /** What a /start handler produces: nothing, or the keyboard it offers. */
  datatype StartOutcome = Ignored | Menu(keyboard: seq<Row>)

  /** The guard as the /start handlers write it: `chat.type` is read before the
      absence check on `chat`, so a missing chat raises instead of returning. */
  function TypeFirstGuard(hasUser: bool, chat: Option<Chat>): (a: Admission)
    ensures a == Admitted <==> hasUser && chat.Some? && chat.value.kind == Private
    ensures a == Crashed <==> chat.None?
  {
    match chat
    case None => Crashed
    case Some(c) => if c.kind != Private then Refused else if !hasUser then Refused else Admitted
  }

  /** The guard with the absence tests first, as `start_command_robust` orders them. */
  function CheckedGuard(hasUser: bool, chat: Option<Chat>): (a: Admission)
    ensures a == Admitted <==> hasUser && chat.Some? && chat.value.kind == Private
    ensures a != Crashed
    ensures chat.Some? ==> a == TypeFirstGuard(hasUser, chat)
  {
    if !hasUser || chat.None? || chat.value.kind != Private then Refused else Admitted
  }

  /** An update without a chat makes the type-first guard raise; the checked guard
      returns quietly. */
  lemma MissingChatRaises(hasUser: bool)
    ensures TypeFirstGuard(hasUser, None) == Crashed
    ensures CheckedGuard(hasUser, None) == Refused
  {
  }
}
