/**
 The Telegram command menu: `bot_command_list_described` of
 src/commands/registry.rs. `values` is the list of definitions in whatever
 order the hash map yields them.
 */
module Menu {
  import opened Chars
  import opened Commands

  /** A menu row: the token and its description. */
  datatype Row = Row(name: string, text: string)

  // ---- byte-wise string order ----------------------------------------------------

  predicate Less(a: string, b: string) {
    b != [] && (a == [] || a[0] < b[0] || (a[0] == b[0] && Less(a[1..], b[1..])))
  }

  lemma {:induction false} LessIsTotal(a: string, b: string)
    ensures Less(a, b) || a == b || Less(b, a)
    ensures !(Less(a, b) && Less(b, a)) && (a == b ==> !Less(a, b))
  {
    if a != [] && b != [] && a[0] == b[0] {
      LessIsTotal(a[1..], b[1..]);
      assert a == [a[0]] + a[1..] && b == [b[0]] + b[1..];
    }
  }

  lemma {:induction false} LessIsTransitive(a: string, b: string, c: string)
    requires Less(a, b) && Less(b, c)
    ensures Less(a, c)
  {
    if a != [] && a[0] == b[0] == c[0] { LessIsTransitive(a[1..], b[1..], c[1..]); }
  }

  // ---- a stable sort and a dedup -------------------------------------------------

  /** `row` put before the first row whose name is not less: ahead of its equals. */
  function Inserted(row: Row, rows: seq<Row>): seq<Row> {
    if rows == [] || !Less(rows[0].name, row.name) then [row] + rows
    else [rows[0]] + Inserted(row, rows[1..])
  }

  /** `sort_by` on the name: ascending, equals in their original order. */
  function StableSort(rows: seq<Row>): seq<Row> {
    if rows == [] then [] else Inserted(rows[0], StableSort(rows[1..]))
  }

  /** `dedup_by` on the name: of neighbours with one name the first stays. */
  function Dedup(rows: seq<Row>): seq<Row>
    decreases |rows|
  {
    if |rows| < 2 then rows
    else if rows[0].name == rows[1].name then Dedup([rows[0]] + rows[2..])
    else [rows[0]] + Dedup(rows[1..])
  }

  /** The text of the first row called `name`. */
  function First(rows: seq<Row>, name: string): Option<string> {
    if rows == [] then None
    else if rows[0].name == name then Some(rows[0].text)
    else First(rows[1..], name)
  }

  predicate Ascending(rows: seq<Row>) {
    forall i :: 0 < i < |rows| ==> Less(rows[i - 1].name, rows[i].name)
  }

  predicate NonDescending(rows: seq<Row>) {
    forall i :: 0 < i < |rows| ==> !Less(rows[i].name, rows[i - 1].name)
  }

  lemma {:induction false} FirstConcat(a: seq<Row>, b: seq<Row>, name: string)
    ensures First(a + b, name) == if First(a, name).Some? then First(a, name) else First(b, name)
  {
    if a == [] {
      assert a + b == b;
    } else {
      assert (a + b)[1..] == a[1..] + b;
      FirstConcat(a[1..], b, name);
    }
  }

  lemma {:induction false} FirstOfInserted(row: Row, rows: seq<Row>, name: string)
    ensures First(Inserted(row, rows), name) == if row.name == name then Some(row.text) else First(rows, name)
  {
    if rows == [] || !Less(rows[0].name, row.name) {
      assert Inserted(row, rows)[1..] == rows;
    } else {
      LessIsTotal(rows[0].name, row.name);
      FirstOfInserted(row, rows[1..], name);
      assert Inserted(row, rows)[1..] == Inserted(row, rows[1..]);
    }
  }

  lemma {:induction false} InsertedIsSorted(row: Row, rows: seq<Row>)
    requires NonDescending(rows)
    ensures var r := Inserted(row, rows);
            && NonDescending(r)
            && (r[0] == row || (rows != [] && r[0] == rows[0]))
  {
    LessIsTotal(row.name, row.name);
    if rows != [] && Less(rows[0].name, row.name) {
      LessIsTotal(rows[0].name, row.name);
      InsertedIsSorted(row, rows[1..]);
    }
  }

  lemma {:induction false} SortKeepsFirst(rows: seq<Row>, name: string)
    ensures First(StableSort(rows), name) == First(rows, name)
  {
    if rows != [] {
      SortKeepsFirst(rows[1..], name);
      FirstOfInserted(rows[0], StableSort(rows[1..]), name);
    }
  }

  lemma {:induction false} SortSorts(rows: seq<Row>)
    ensures NonDescending(StableSort(rows))
  {
    if rows != [] {
      SortSorts(rows[1..]);
      InsertedIsSorted(rows[0], StableSort(rows[1..]));
    }
  }

  lemma {:induction false} DedupKeepsFirst(rows: seq<Row>, name: string)
    ensures First(Dedup(rows), name) == First(rows, name)
    ensures rows != [] ==> Dedup(rows) != [] && Dedup(rows)[0] == rows[0]
    decreases |rows|
  {
    if |rows| >= 2 {
      if rows[0].name == rows[1].name {
        var kept := [rows[0]] + rows[2..];
        DedupKeepsFirst(kept, name);
        assert kept[1..] == rows[1..][1..];
      } else {
        DedupKeepsFirst(rows[1..], name);
        assert ([rows[0]] + Dedup(rows[1..]))[1..] == Dedup(rows[1..]);
      }
    }
  }

  lemma {:induction false} DedupAscends(rows: seq<Row>)
    requires NonDescending(rows)
    ensures Ascending(Dedup(rows))
    decreases |rows|
  {
    if |rows| >= 2 {
      LessIsTotal(rows[0].name, rows[1].name);
      if rows[0].name == rows[1].name {
        var kept := [rows[0]] + rows[2..];
        forall i | 0 < i < |kept| ensures !Less(kept[i].name, kept[i - 1].name) {
          assert !Less(rows[i + 1].name, rows[i].name);
        }
        DedupAscends(kept);
      } else {
        forall i | 0 < i < |rows[1..]| ensures !Less(rows[1..][i].name, rows[1..][i - 1].name) {
          assert !Less(rows[i + 1].name, rows[i].name);
        }
        DedupAscends(rows[1..]);
        DedupKeepsFirst(rows[1..], []);
        var r := Dedup(rows);
        assert r == [rows[0]] + Dedup(rows[1..]);
        forall i | 0 < i < |r| ensures Less(r[i - 1].name, r[i].name) {
          assert i > 1 ==> Less(Dedup(rows[1..])[i - 2].name, Dedup(rows[1..])[i - 1].name);
        }
      }
    }
  }

  lemma {:induction false} AbsentBelow(rows: seq<Row>, name: string)
    requires Ascending(rows) && (rows != [] ==> Less(name, rows[0].name))
    ensures First(rows, name).None?
  {
    if rows != [] {
      LessIsTotal(name, rows[0].name);
      var tail := rows[1..];
      forall i | 0 < i < |tail| ensures Less(tail[i - 1].name, tail[i].name) {
        assert Less(rows[i].name, rows[i + 1].name);
      }
      if tail != [] { LessIsTransitive(name, rows[0].name, rows[1].name); }
      AbsentBelow(tail, name);
    }
  }

  /** A strictly ascending list is determined by what each name leads to. */
  lemma {:induction false} AscendingIsDetermined(a: seq<Row>, b: seq<Row>)
    requires Ascending(a) && Ascending(b)
    requires forall name :: First(a, name) == First(b, name)
    ensures a == b
    decreases |a|
  {
    assert a != [] ==> First(a, a[0].name).Some?;
    assert b != [] ==> First(b, b[0].name).Some?;
    if a != [] {
      LessIsTotal(a[0].name, b[0].name);
      if Less(a[0].name, b[0].name) { AbsentBelow(b, a[0].name); }
      if Less(b[0].name, a[0].name) { AbsentBelow(a, b[0].name); }
      AscendingTail(a);
      AscendingTail(b);
      forall name ensures First(a[1..], name) == First(b[1..], name) {
        assert First(a, name) == First(b, name);
      }
      AscendingIsDetermined(a[1..], b[1..]);
      assert a == [a[0]] + a[1..] && b == [b[0]] + b[1..];
    }
  }

  lemma AscendingTail(rows: seq<Row>)
    requires Ascending(rows) && rows != []
    ensures Ascending(rows[1..]) && First(rows[1..], rows[0].name).None?
  {
    var tail := rows[1..];
    forall i | 0 < i < |tail| ensures Less(tail[i - 1].name, tail[i].name) {
      assert Less(rows[i].name, rows[i + 1].name);
    }
    AbsentBelow(tail, rows[0].name);
  }

  // ---- the menu --------------------------------------------------------------------

  function TrimSlashes(s: string): string {
    if s == [] || s[0] != '/' then s else TrimSlashes(s[1..])
  }

  /** What Telegram lists a trigger as: itself without slashes, if it is one word. */
  function SingleToken(trigger: string): Option<string> {
    var name := TrimSlashes(trigger);
    if ' ' in name then None else Some(name)
  }

  type Describe = CommandDefinition -> string

  function OwnRows(values: seq<CommandDefinition>, describe: Describe): seq<Row> {
    if values == [] then []
    else match SingleToken(values[0].command)
         case Some(name) => [Row(name, describe(values[0]))] + OwnRows(values[1..], describe)
         case None => OwnRows(values[1..], describe)
  }

  function AliasRows(aliases: seq<string>, text: string): seq<Row> {
    if aliases == [] then []
    else match SingleToken(aliases[0])
         case Some(name) => [Row(name, text)] + AliasRows(aliases[1..], text)
         case None => AliasRows(aliases[1..], text)
  }

  function StandInRows(values: seq<CommandDefinition>, describe: Describe): seq<Row> {
    if values == [] then []
    else if SingleToken(values[0].command).None? then
      AliasRows(values[0].aliases, describe(values[0])) + StandInRows(values[1..], describe)
    else StandInRows(values[1..], describe)
  }

  function BotMenu(values: seq<CommandDefinition>, describe: Describe): seq<Row> {
    Dedup(StableSort(OwnRows(values, describe) + StandInRows(values, describe)))
  }

  method BotCommandListDescribed(values: seq<CommandDefinition>, describe: Describe) returns (commands: seq<Row>)
    ensures commands == BotMenu(values, describe)
  {
    hide SingleToken, AliasRows, StableSort, Dedup, First;
    commands := [];
    for i := 0 to |values|
      invariant commands + OwnRows(values[i..], describe) == OwnRows(values, describe)
    {
      assert values[i..][1..] == values[i + 1..];
      var name := SingleToken(values[i].command);
      if name.Some? {
        commands := commands + [Row(name.value, describe(values[i]))];
      }
    }
    ghost var own := OwnRows(values, describe);
    assert values[|values|..] == [] && commands + [] == commands;
    assert values[0..] == values;
    for i := 0 to |values|
      invariant commands + StandInRows(values[i..], describe) == own + StandInRows(values, describe)
    {
      assert values[i..][1..] == values[i + 1..];
      if SingleToken(values[i].command).None? {
        var rows := StandIns(values[i], describe);
        commands := commands + rows;
      }
    }
    assert values[|values|..] == [] && commands + [] == commands;
    commands := StableSort(commands);
    commands := DedupByName(commands);
  }

  method StandIns(d: CommandDefinition, describe: Describe) returns (rows: seq<Row>)
    ensures rows == AliasRows(d.aliases, describe(d))
  {
    hide SingleToken;
    rows := [];
    for k := 0 to |d.aliases|
      invariant rows + AliasRows(d.aliases[k..], describe(d)) == AliasRows(d.aliases, describe(d))
    {
      assert d.aliases[k..][1..] == d.aliases[k + 1..];
      var name := SingleToken(d.aliases[k]);
      if name.Some? {
        rows := rows + [Row(name.value, describe(d))];
      }
    }
  }

  method DedupByName(rows: seq<Row>) returns (kept: seq<Row>)
    ensures kept == Dedup(rows)
  {
    hide Dedup;
    if rows == [] {
      DedupEnds([]);
      return [];
    }
    kept := [rows[0]];
    ghost var done: seq<Row> := [];
    assert [rows[0]] + rows[1..] == rows && [] + Dedup(rows) == Dedup(rows);
    for i := 1 to |rows|
      invariant kept != [] && done == kept[..|kept| - 1]
      invariant done + Dedup([kept[|kept| - 1]] + rows[i..]) == Dedup(rows)
    {
      var last := kept[|kept| - 1];
      DedupStep(last, rows, i);
      if last.name != rows[i].name {
        Appended(done, last, Dedup([rows[i]] + rows[i + 1..]));
        done := kept;
        assert kept == kept[..|kept| - 1] + [last];
        kept := kept + [rows[i]];
      }
    }
    assert [kept[|kept| - 1]] + rows[|rows|..] == [kept[|kept| - 1]];
    DedupEnds([kept[|kept| - 1]]);
    assert kept == done + [kept[|kept| - 1]];
  }

  lemma DedupEnds(rows: seq<Row>)
    requires |rows| < 2
    ensures Dedup(rows) == rows
  {
  }

  lemma DedupStep(last: Row, rows: seq<Row>, i: nat)
    requires i < |rows|
    ensures Dedup([last] + rows[i..]) ==
            if last.name == rows[i].name then Dedup([last] + rows[i + 1..])
            else [last] + Dedup([rows[i]] + rows[i + 1..])
  {
    var left := [last] + rows[i..];
    assert left[2..] == rows[i + 1..] && left[1..] == rows[i..] == [rows[i]] + rows[i + 1..];
  }

  // ---- what the menu holds ---------------------------------------------------------

  /** `name` is the token of `d`'s own trigger. */
  predicate Publishes(d: CommandDefinition, name: string) {
    SingleToken(d.command) == Some(name)
  }

  /** `d` cannot be a menu entry itself and one of its aliases is `name`. */
  predicate StandsIn(d: CommandDefinition, name: string) {
    SingleToken(d.command).None? && exists a :: a in d.aliases && SingleToken(a) == Some(name)
  }

  lemma {:induction false} FirstOwn(values: seq<CommandDefinition>, describe: Describe, name: string)
    ensures var r := First(OwnRows(values, describe), name);
            if r.Some? then exists d :: d in values && Publishes(d, name) && r == Some(describe(d))
            else forall d :: d in values ==> !Publishes(d, name)
  {
    if values != [] {
      FirstOwn(values[1..], describe, name);
      var row := SingleToken(values[0].command);
      if row.Some? {
        FirstConcat([Row(row.value, describe(values[0]))], OwnRows(values[1..], describe), name);
      }
      assert values[0] in values;
      assert forall d :: d in values <==> d == values[0] || d in values[1..];
      hide SingleToken, OwnRows;
    }
  }

  lemma {:induction false} FirstAlias(aliases: seq<string>, text: string, name: string)
    ensures First(AliasRows(aliases, text), name) ==
            if exists a :: a in aliases && SingleToken(a) == Some(name) then Some(text) else None
  {
    if aliases != [] {
      FirstAlias(aliases[1..], text, name);
      var row := SingleToken(aliases[0]);
      if row.Some? {
        FirstConcat([Row(row.value, text)], AliasRows(aliases[1..], text), name);
      }
      assert aliases[0] in aliases;
      assert forall a :: a in aliases <==> a == aliases[0] || a in aliases[1..];
      hide SingleToken;
    }
  }

  lemma {:induction false} FirstStandIn(values: seq<CommandDefinition>, describe: Describe, name: string)
    ensures var r := First(StandInRows(values, describe), name);
            if r.Some? then exists d :: d in values && StandsIn(d, name) && r == Some(describe(d))
            else forall d :: d in values ==> !StandsIn(d, name)
  {
    if values != [] {
      FirstStandIn(values[1..], describe, name);
      var d0 := values[0];
      FirstAlias(d0.aliases, describe(d0), name);
      FirstConcat(AliasRows(d0.aliases, describe(d0)), StandInRows(values[1..], describe), name);
      assert d0 in values;
      assert forall d :: d in values <==> d == d0 || d in values[1..];
      hide SingleToken;
    }
  }

  /** What a name leads to in the menu: the command's own row if there is one, else a stand-in. */
  lemma FirstInMenu(values: seq<CommandDefinition>, describe: Describe, name: string)
    ensures First(BotMenu(values, describe), name) ==
            if First(OwnRows(values, describe), name).Some? then First(OwnRows(values, describe), name)
            else First(StandInRows(values, describe), name)
  {
    var rows := OwnRows(values, describe) + StandInRows(values, describe);
    DedupKeepsFirst(StableSort(rows), name);
    SortKeepsFirst(rows, name);
    FirstConcat(OwnRows(values, describe), StandInRows(values, describe), name);
  }

  /** The menu is strictly ascending and lists exactly the tokens that may stand in it. */
  lemma MenuContents(values: seq<CommandDefinition>, describe: Describe)
    ensures Ascending(BotMenu(values, describe))
    ensures forall name :: First(BotMenu(values, describe), name).Some? <==>
                           exists d :: d in values && (Publishes(d, name) || StandsIn(d, name))
    ensures forall name :: First(BotMenu(values, describe), name).Some? ==> ' ' !in name
  {
    var rows := OwnRows(values, describe) + StandInRows(values, describe);
    SortSorts(rows);
    DedupAscends(StableSort(rows));
    forall name
      ensures First(BotMenu(values, describe), name).Some? <==>
              exists d :: d in values && (Publishes(d, name) || StandsIn(d, name))
    {
      FirstInMenu(values, describe, name);
      FirstOwn(values, describe, name);
      FirstStandIn(values, describe, name);
    }
  }

  /** The row of a command published under a name is its own, whatever aliases spell that name. */
  lemma OwnNameWins(values: seq<CommandDefinition>, describe: Describe, d: CommandDefinition, name: string)
    requires d in values && Publishes(d, name)
    requires forall e :: e in values && Publishes(e, name) ==> e == d
    ensures First(BotMenu(values, describe), name) == Some(describe(d))
  {
    FirstInMenu(values, describe, name);
    FirstOwn(values, describe, name);
  }

  /** `d` is of the class that decides the row called `name`: its publishers, or if it has none its stand-ins. */
  ghost predicate Decides(values: seq<CommandDefinition>, d: CommandDefinition, name: string) {
    && d in values
    && (Publishes(d, name) || (StandsIn(d, name) && forall e :: e in values ==> !Publishes(e, name)))
  }

  /** No row is in dispute: all that decide it describe it alike. */
  ghost predicate Settled(values: seq<CommandDefinition>, describe: Describe) {
    forall d, e, name :: Decides(values, d, name) && Decides(values, e, name) ==> describe(d) == describe(e)
  }

  /** A row of the menu is described by one of those that decide it. */
  lemma DecidedRow(values: seq<CommandDefinition>, describe: Describe, name: string)
    ensures var r := First(BotMenu(values, describe), name);
            if r.Some? then exists d :: Decides(values, d, name) && r == Some(describe(d))
            else forall d :: !Decides(values, d, name)
  {
    FirstInMenu(values, describe, name);
    FirstOwn(values, describe, name);
    FirstStandIn(values, describe, name);
    hide BotMenu, OwnRows, StandInRows, First, Publishes, StandsIn;
  }

  lemma SameRow(values1: seq<CommandDefinition>, values2: seq<CommandDefinition>, describe: Describe, name: string)
    requires Settled(values1, describe) && forall d :: d in values1 <==> d in values2
    ensures First(BotMenu(values1, describe), name) == First(BotMenu(values2, describe), name)
  {
    DecidedRow(values1, describe, name);
    DecidedRow(values2, describe, name);
    hide BotMenu, First, Publishes, StandsIn;
    assert forall d :: Decides(values1, d, name) <==> Decides(values2, d, name);
  }

  /** Then the menu does not depend on the order the hash map yields its values in. */
  lemma MenuIgnoresOrder(values1: seq<CommandDefinition>, values2: seq<CommandDefinition>, describe: Describe)
    requires Settled(values1, describe) && forall d :: d in values1 <==> d in values2
    ensures BotMenu(values1, describe) == BotMenu(values2, describe)
  {
    hide *;
    MenuContents(values1, describe);
    MenuContents(values2, describe);
    forall name ensures First(BotMenu(values1, describe), name) == First(BotMenu(values2, describe), name) {
      SameRow(values1, values2, describe, name);
    }
    AscendingIsDetermined(BotMenu(values1, describe), BotMenu(values2, describe));
  }

  /** The first definition of the list describes the rows it decides. */
  lemma HeadDescribes(values: seq<CommandDefinition>, describe: Describe, name: string)
    requires values != [] && Decides(values, values[0], name)
    ensures First(BotMenu(values, describe), name) == Some(describe(values[0]))
  {
    var d := values[0];
    FirstInMenu(values, describe, name);
    FirstOwn(values, describe, name);
    hide BotMenu;
    if Publishes(d, name) {
      FirstConcat([Row(name, describe(d))], OwnRows(values[1..], describe), name);
    } else {
      FirstAlias(d.aliases, describe(d), name);
      FirstConcat(AliasRows(d.aliases, describe(d)), StandInRows(values[1..], describe), name);
    }
  }

  lemma BroughtForward(values: seq<CommandDefinition>, i: nat) returns (other: seq<CommandDefinition>)
    requires i < |values|
    ensures multiset(other) == multiset(values) && other != [] && other[0] == values[i]
  {
    other := [values[i]] + values[..i] + values[i + 1..];
    assert values == values[..i] + [values[i]] + values[i + 1..];
  }

  lemma SameMembers(values1: seq<CommandDefinition>, values2: seq<CommandDefinition>)
    requires multiset(values1) == multiset(values2)
    ensures forall d :: d in values1 <==> d in values2
  {
    forall d ensures d in values1 <==> d in values2 {
      assert d in values1 <==> d in multiset(values1);
      assert d in values2 <==> d in multiset(values2);
    }
  }

  lemma Described(values: seq<CommandDefinition>, describe: Describe, d: CommandDefinition, name: string)
    returns (other: seq<CommandDefinition>)
    requires Decides(values, d, name)
    ensures multiset(other) == multiset(values) && First(BotMenu(other, describe), name) == Some(describe(d))
  {
    var i :| 0 <= i < |values| && values[i] == d;
    other := BroughtForward(values, i);
    SameMembers(values, other);
    hide Publishes, StandsIn, BotMenu, First;
    HeadDescribes(other, describe, name);
  }

  /**
   The menu is the same in every order of the definitions if and only if no row is in dispute
   among those that decide it.
   */
  lemma MenuOrderExactly(values: seq<CommandDefinition>, describe: Describe)
    ensures (forall other :: multiset(other) == multiset(values) ==>
               BotMenu(other, describe) == BotMenu(values, describe))
            <==> Settled(values, describe)
  {
    hide BotMenu, Decides, First;
    if Settled(values, describe) {
      forall other | multiset(other) == multiset(values) ensures BotMenu(other, describe) == BotMenu(values, describe) {
        SameMembers(values, other);
        MenuIgnoresOrder(values, other, describe);
      }
    } else {
      var d, e, name :| Decides(values, d, name) && Decides(values, e, name) && describe(d) != describe(e);
      var one := Described(values, describe, d, name);
      var two := Described(values, describe, e, name);
      assert BotMenu(one, describe) != BotMenu(two, describe);
    }
  }
}
