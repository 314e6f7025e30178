/** The power relay: reading the tool's inventory, choosing the board, cycling its power. */
module Relay {
  import opened Pattern

  const RELAY_SERIAL := "QAAMZ"
  const RELAY_CHANNEL := "1"

  predicate IsDigit(c: char) { '0' <= c <= '9' }

  /** A line of the inventory, `serial_channel=state`. */
  datatype Entry = Entry(serial: string, channel: string, on: bool)

  function Id(e: Entry): string { e.serial + "_" + e.channel }

  function Printed(e: Entry): string { Id(e) + (if e.on then "=1" else "=0") }

  /** What a state line can hold; a serial may contain underscores and equals signs. */
  predicate IsEntry(e: Entry)
  {
    && e.serial != "" && (forall k | 0 <= k < |e.serial| :: e.serial[k] != '\n')
    && e.channel != "" && (forall k | 0 <= k < |e.channel| :: IsDigit(e.channel[k]))
  }

  /** The position of the last underscore, or the length if there is none. */
  function LastUnderscore(text: string, n: nat): (p: nat)
    requires n <= |text|
    ensures p <= |text|
    ensures p < n ==> text[p] == '_' && forall k | p < k < n :: text[k] != '_'
    ensures p >= n ==> p == |text| && forall k | 0 <= k < n :: text[k] != '_'
  {
    if n == 0 then |text|
    else if text[n - 1] == '_' then n - 1
    else LastUnderscore(text, n - 1)
  }

  predicate AllSpace(text: string) { forall k | 0 <= k < |text| :: IsSpace(text[k]) }

  /** The state line pattern, `(.+)_([0-9]+)=([01])\s*`, on one line. */
  function ParseLine(line: string): Option<Entry>
  {
    var p := LastUnderscore(line, |line|);
    if p == |line| || p == 0 then None
    else
      var q := Skip(line, p + 1, c => IsDigit(c));
      if q == p + 1 || q + 1 >= |line| || line[q] != '=' || line[q + 1] !in {'0', '1'} || !AllSpace(line[q + 2..]) then None
      else Some(Entry(line[..p], line[p + 1..q], line[q + 1] == '1'))
  }

  lemma ParsesAt(line: string, p: nat, q: nat, on: bool)
    requires 0 < p && p + 1 < q && q + 1 < |line| && line[p] == '_' && line[q] == '='
    requires forall k | p < k < |line| :: line[k] != '_'
    requires forall k | p + 1 <= k < q :: IsDigit(line[k])
    requires line[q + 1] == (if on then '1' else '0') && AllSpace(line[q + 2..])
    ensures ParseLine(line) == Some(Entry(line[..p], line[p + 1..q], on))
  {
    SkipIsFirst(line, p + 1, c => IsDigit(c), q);
  }

  lemma Parts(serial: string, channel: string, on: bool, space: string, line: string)
    requires line == serial + "_" + channel + (if on then "=1" else "=0") + space
    ensures var p := |serial|;
            var q := p + 1 + |channel|;
            && q + 2 + |space| == |line| && line[p] == '_' && line[q] == '=' && line[q + 1] == (if on then '1' else '0')
            && line[..p] == serial && line[p + 1..q] == channel && line[q + 2..] == space
            && (forall k | p + 1 <= k < q :: line[k] == channel[k - p - 1])
            && (forall k | q + 2 <= k < |line| :: line[k] == space[k - q - 2])
  {
  }

  /** The pattern can match a line in one way only, and the parser finds it: trailing space is dropped. */
  lemma ParsesPrinted(e: Entry, space: string)
    requires IsEntry(e) && AllSpace(space)
    ensures ParseLine(Printed(e) + space) == Some(e)
  {
    var line := Printed(e) + space;
    Parts(e.serial, e.channel, e.on, space, line);
    ParsesAt(line, |e.serial|, |e.serial| + 1 + |e.channel|, e.on);
  }

  lemma ParsedIsPrinted(line: string)
    requires ParseLine(line).Some? && forall k | 0 <= k < |line| :: line[k] != '\n'
    ensures var e := ParseLine(line).value;
            IsEntry(e) && Printed(e) <= line && AllSpace(line[|Printed(e)|..])
  {
    var p := LastUnderscore(line, |line|);
    var q := Skip(line, p + 1, c => IsDigit(c));
    var e := ParseLine(line).value;
    assert line == line[..p] + [line[p]] + line[p + 1..q] + [line[q]] + [line[q + 1]] + line[q + 2..];
    assert Printed(e) == line[..q + 2];
  }

  // ----- the inventory -----

  function Split(text: string): (lines: seq<string>)
    decreases |text|
  {
    var q := Skip(text, 0, c => c != '\n');
    if q == |text| then [text] else [text[..q]] + Split(text[q + 1..])
  }

  /** The states by relay id; a later line wins over an earlier one. */
  function States(lines: seq<string>): map<string, bool>
  {
    if lines == [] then map[]
    else
      var before := States(lines[..|lines| - 1]);
      match ParseLine(lines[|lines| - 1])
      case None => before
      case Some(e) => before[Id(e) := e.on]
  }

  function Query(output: string): map<string, bool>
  {
    States(Split(output))
  }

  /** `rsplit("_", 1)[0]` */
  function SerialOf(id: string): string
  {
    id[..LastUnderscore(id, |id|)]
  }

  lemma SerialIsRecovered(e: Entry)
    requires IsEntry(e)
    ensures SerialOf(Id(e)) == e.serial
  {
    var p := |e.serial|;
    assert Id(e)[p] == '_';
    assert forall k | p < k < |Id(e)| :: Id(e)[k] == e.channel[k - p - 1];
  }

  lemma IdsAreUnique(e: Entry, f: Entry)
    requires IsEntry(e) && IsEntry(f) && Id(e) == Id(f)
    ensures e.serial == f.serial && e.channel == f.channel
  {
    SerialIsRecovered(e);
    SerialIsRecovered(f);
    assert Id(e)[|e.serial| + 1..] == e.channel && Id(f)[|f.serial| + 1..] == f.channel;
  }

  function Inventory(entries: seq<Entry>): string
  {
    if entries == [] then "" else Printed(entries[0]) + "\n" + Inventory(entries[1..])
  }

  ghost predicate Distinct(entries: seq<Entry>)
  {
    && (forall i | 0 <= i < |entries| :: IsEntry(entries[i]))
    && forall i, j | 0 <= i < j < |entries| :: Id(entries[i]) != Id(entries[j])
  }

  lemma SplitFirst(line: string, rest: string)
    requires forall k | 0 <= k < |line| :: line[k] != '\n'
    ensures Split(line + "\n" + rest) == [line] + Split(rest)
  {
    var text := line + "\n" + rest;
    SkipIsFirst(text, 0, c => c != '\n', |line|);
    assert text[..|line|] == line && text[|line| + 1..] == rest;
  }

  function Lines(entries: seq<Entry>): (lines: seq<string>)
    ensures |lines| == |entries|
  {
    seq(|entries|, k requires 0 <= k < |entries| => Printed(entries[k]))
  }

  lemma {:induction false} InventorySplits(entries: seq<Entry>)
    requires forall i | 0 <= i < |entries| :: IsEntry(entries[i])
    ensures Split(Inventory(entries)) == Lines(entries) + [""]
  {
    if entries != [] {
      PrintedIsOneLine(entries[0]);
      InventorySplits(entries[1..]);
      SplitFirst(Printed(entries[0]), Inventory(entries[1..]));
      assert Lines(entries) == [Printed(entries[0])] + Lines(entries[1..]);
    } else {
      assert Split("") == [""];
    }
  }

  lemma PrintedIsOneLine(e: Entry)
    requires IsEntry(e)
    ensures forall k | 0 <= k < |Printed(e)| :: Printed(e)[k] != '\n'
  {
  }

  ghost predicate Listed(entries: seq<Entry>, id: string)
  {
    exists i :: 0 <= i < |entries| && Id(entries[i]) == id
  }

  /** These states are those of the entries, no more and no less. */
  ghost predicate Represents(states: map<string, bool>, entries: seq<Entry>)
  {
    && (forall id :: id in states <==> Listed(entries, id))
    && forall i | 0 <= i < |entries| :: Id(entries[i]) in states && states[Id(entries[i])] == entries[i].on
  }

  lemma RepresentsMore(states: map<string, bool>, entries: seq<Entry>, e: Entry)
    requires Represents(states, entries) && !Listed(entries, Id(e))
    ensures Represents(states[Id(e) := e.on], entries + [e])
  {
    var more := entries + [e];
    forall id ensures id in states[Id(e) := e.on] <==> Listed(more, id) {
      if id == Id(e) {
        assert Id(more[|entries|]) == id;
      } else if Listed(entries, id) {
        var i :| 0 <= i < |entries| && Id(entries[i]) == id;
        assert Id(more[i]) == id;
      }
    }
    forall i | 0 <= i < |entries| ensures Id(entries[i]) != Id(e) { assert Listed(entries, Id(entries[i])); }
  }

  lemma {:induction false} StatesOfLines(entries: seq<Entry>)
    requires Distinct(entries)
    ensures Represents(States(Lines(entries)), entries)
  {
    if entries != [] {
      var n := |entries| - 1;
      var front, last := entries[..n], entries[n];
      StatesOfLines(front);
      assert Lines(entries)[..n] == Lines(front);
      ParsesPrinted(last, "");
      assert Printed(last) + "" == Lines(entries)[n];
      RepresentsMore(States(Lines(front)), front, last);
      assert front + [last] == entries;
    }
  }

  /** Whatever is printed is recovered: exactly the printed relays, each with its state. */
  lemma QueryRecoversInventory(entries: seq<Entry>)
    requires Distinct(entries)
    ensures Represents(Query(Inventory(entries)), entries)
  {
    InventorySplits(entries);
    StatesOfLines(entries);
    var lines := Lines(entries) + [""];
    assert lines[..|entries|] == Lines(entries);
    assert ParseLine("") == None;
    assert States(lines) == States(Lines(entries));
  }

  // ----- choosing the relay -----

  function Serials(states: map<string, bool>): set<string>
  {
    set id | id in states :: SerialOf(id)
  }

  /** Channel 1 of the expected board, or of the only board there is. */
  predicate Resolved(states: map<string, bool>, id: string)
  {
    && id in states
    && exists serial | serial in Serials(states) ::
         id == serial + "_" + RELAY_CHANNEL
         && (serial == RELAY_SERIAL || (RELAY_SERIAL !in Serials(states) && Serials(states) == {serial}))
  }

  lemma ResolvedOnce(states: map<string, bool>, a: string, b: string)
    requires Resolved(states, a) && Resolved(states, b)
    ensures a == b
  {
  }

  lemma SingletonIs(s: set<string>, x: string)
    requires |s| == 1 && x in s
    ensures s == {x}
  {
    forall y | y in s ensures y == x { if y != x { assert {x, y} <= s; SubsetSize({x, y}, s); } }
  }

  lemma {:induction false} SubsetSize(a: set<string>, b: set<string>)
    requires a <= b
    ensures |a| <= |b|
  {
    if a != {} {
      var x :| x in a;
      SubsetSize(a - {x}, b - {x});
    }
  }

  // ----- the relay chosen from a printed inventory -----

  ghost predicate HasSerial(entries: seq<Entry>, serial: string)
  {
    exists i :: 0 <= i < |entries| && entries[i].serial == serial
  }

  lemma SerialsAreListed(entries: seq<Entry>, states: map<string, bool>, serial: string)
    requires Distinct(entries) && Represents(states, entries)
    ensures serial in Serials(states) <==> HasSerial(entries, serial)
  {
    if serial in Serials(states) {
      var id :| id in states && SerialOf(id) == serial;
      assert Listed(entries, id);
      var i :| 0 <= i < |entries| && Id(entries[i]) == id;
      SerialIsRecovered(entries[i]);
    }
    if HasSerial(entries, serial) {
      var i :| 0 <= i < |entries| && entries[i].serial == serial;
      SerialIsRecovered(entries[i]);
      assert Id(entries[i]) in states;
    }
  }

  /** Channel 1 of the expected board, or of the board that is alone. */
  ghost predicate IsTarget(entries: seq<Entry>, e: Entry)
  {
    && e in entries && e.channel == RELAY_CHANNEL
    && (e.serial == RELAY_SERIAL || forall f | f in entries :: f.serial == e.serial)
  }

  lemma OnlySerial(entries: seq<Entry>, states: map<string, bool>, serial: string)
    requires Distinct(entries) && Represents(states, entries) && HasSerial(entries, serial)
    ensures Serials(states) == {serial} <==> forall f | f in entries :: f.serial == serial
  {
    SerialsAreListed(entries, states, serial);
    if forall f | f in entries :: f.serial == serial {
      forall x | x in Serials(states) ensures x == serial { SerialsAreListed(entries, states, x); }
      assert Serials(states) == {serial};
    } else {
      var f :| f in entries && f.serial != serial;
      SerialsAreListed(entries, states, f.serial);
    }
  }

  lemma FirstChannel(entries: seq<Entry>, e: Entry, serial: string)
    requires Distinct(entries) && HasSerial(entries, serial) && IsEntry(e)
    requires Id(e) == serial + "_" + RELAY_CHANNEL
    ensures e.serial == serial && e.channel == RELAY_CHANNEL
  {
    var j :| 0 <= j < |entries| && entries[j].serial == serial;
    IdsAreUnique(e, Entry(serial, RELAY_CHANNEL, true));
  }

  lemma ChosenIsTarget(entries: seq<Entry>, states: map<string, bool>, id: string)
    requires Distinct(entries) && Represents(states, entries) && Resolved(states, id)
    ensures exists e :: IsTarget(entries, e) && Id(e) == id
  {
    var serial :| serial in Serials(states) && id == serial + "_" + RELAY_CHANNEL
      && (serial == RELAY_SERIAL || (RELAY_SERIAL !in Serials(states) && Serials(states) == {serial}));
    assert Listed(entries, id);
    var i :| 0 <= i < |entries| && Id(entries[i]) == id;
    var e := entries[i];
    SerialsAreListed(entries, states, serial);
    FirstChannel(entries, e, serial);
    if serial != RELAY_SERIAL { OnlySerial(entries, states, serial); }
    assert IsTarget(entries, e);
  }

  lemma TargetIsChosen(entries: seq<Entry>, states: map<string, bool>, e: Entry)
    requires Distinct(entries) && Represents(states, entries) && IsTarget(entries, e)
    ensures Resolved(states, Id(e))
  {
    var i :| 0 <= i < |entries| && entries[i] == e;
    assert Id(entries[i]) in states;
    SerialsAreListed(entries, states, e.serial);
    if e.serial != RELAY_SERIAL {
      OnlySerial(entries, states, e.serial);
    }
  }

  /** On a printed inventory the chosen relay is channel 1 of the expected board or of the only board there
      is, if it is listed, and no relay is chosen otherwise. */
  lemma TargetOfInventory(entries: seq<Entry>, id: string)
    requires Distinct(entries)
    ensures Resolved(Query(Inventory(entries)), id) <==> exists e :: IsTarget(entries, e) && Id(e) == id
  {
    var states := Query(Inventory(entries));
    QueryRecoversInventory(entries);
    if Resolved(states, id) { ChosenIsTarget(entries, states, id); }
    if e :| IsTarget(entries, e) && Id(e) == id { TargetIsChosen(entries, states, e); }
  }

  // ----- the tool -----

  datatype Command = QueryAll | Set(id: string, on: bool)

  /** The output of the n-th call of the tool, or its failure. */
  datatype Tool = Tool(output: nat -> Option<string>)

  function OutputOf(tool: Tool, n: nat): Option<string> { tool.output(n) }

  /** The n-th call was a query that showed the relay in this state. */
  predicate Confirmed(tool: Tool, n: nat, id: string, on: bool)
  {
    match OutputOf(tool, n)
    case None => false
    case Some(text) => id in Query(text) && Query(text)[id] == on
  }

  class Power {
    const tool: Tool
    ghost var commands: seq<Command>
    var calls: nat

    ghost predicate Valid()
      reads this
    {
      calls == |commands|
    }

    constructor (tool: Tool)
      ensures Valid() && commands == [] && this.tool == tool
    {
      this.tool := tool;
      commands := [];
      calls := 0;
    }

    method RunTool(c: Command) returns (text: Option<string>)
      requires Valid()
      modifies this
      ensures Valid() && commands == old(commands) + [c] && text == OutputOf(tool, old(calls))
    {
      text := OutputOf(tool, calls);
      calls := calls + 1;
      commands := commands + [c];
    }

    method ResolveRelayId() returns (id: Option<string>)
      requires Valid()
      modifies this
      ensures Valid() && commands == old(commands) + [QueryAll]
      ensures id.Some? ==> OutputOf(tool, old(calls)).Some? && Resolved(Query(OutputOf(tool, old(calls)).value), id.value)
      ensures id.None? && OutputOf(tool, old(calls)).Some? ==>
                forall other :: !Resolved(Query(OutputOf(tool, old(calls)).value), other)
    {
      var text := RunTool(QueryAll);
      if text.None? { return None; }
      var states := Query(text.value);
      var serials := Serials(states);
      var serial := RELAY_SERIAL;
      if RELAY_SERIAL !in serials {
        if |serials| != 1 {
          NoneResolved(states);
          return None;
        }
        serial :| serial in serials;
        SingletonIs(serials, serial);
      }
      var relay := serial + "_" + RELAY_CHANNEL;
      return if relay in states then Some(relay) else None;
    }

    method SetState(id: string, on: bool) returns (ok: bool)
      requires Valid()
      modifies this
      ensures Valid() && old(commands) + [Set(id, on)] <= commands <= old(commands) + [Set(id, on), QueryAll]
      ensures ok <==> OutputOf(tool, old(calls)).Some? && Confirmed(tool, old(calls) + 1, id, on)
      ensures ok ==> commands == old(commands) + [Set(id, on), QueryAll]
    {
      var text := RunTool(Set(id, on));
      if text.None? { return false; }
      text := RunTool(QueryAll);
      if text.None? { return false; }
      var states := Query(text.value);
      return id in states && states[id] == on;
    }

    /** Returns normally only after a confirmed OFF and then a confirmed ON of one relay, the resolved one;
        however it ends, no other relay is ever commanded, and ON only after a confirmed OFF. */
    method PowerCycle() returns (ok: bool, id: Option<string>)
      requires Valid()
      modifies this
      ensures Valid()
      ensures id.Some? ==> OutputOf(tool, old(calls)).Some? && Resolved(Query(OutputOf(tool, old(calls)).value), id.value)
      ensures id.None? ==> !ok && commands == old(commands) + [QueryAll]
      ensures id.Some? ==> commands <= old(commands) + Cycle(id.value)
      ensures id.Some? && |commands| > |old(commands)| + 3 ==>
                Confirmed(tool, old(calls) + 2, id.value, false)
      ensures ok ==> commands == old(commands) + Cycle(id.value)
                     && Confirmed(tool, old(calls) + 2, id.value, false)
                     && Confirmed(tool, old(calls) + 4, id.value, true)
    {
      ghost var before := commands;
      id := ResolveRelayId();
      if id.None? { return false, None; }
      ok := SetState(id.value, false);
      if !ok { return; }
      assert commands == before + [QueryAll, Set(id.value, false), QueryAll];
      ok := SetState(id.value, true);
    }
  }

  function Cycle(id: string): seq<Command>
  {
    [QueryAll, Set(id, false), QueryAll, Set(id, true), QueryAll]
  }

  lemma NoneResolved(states: map<string, bool>)
    requires RELAY_SERIAL !in Serials(states) && |Serials(states)| != 1
    ensures forall id :: !Resolved(states, id)
  {
  }
}
