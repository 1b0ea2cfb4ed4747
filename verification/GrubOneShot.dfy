// The one-shot fragment written by grubScript (internal/install/stage.go),
// run by a small interpreter of the GRUB commands it uses.
module GrubOneShot {

  const NEXT_ENTRY := "next_entry"
  const DEFAULT := "default"
  const WRITER := "chr-install-writer"

  datatype Command =
    | IfEnvironment(body: seq<Command>)
    | IfEquals(variable: string, value: string, body: seq<Command>)
    | LoadEnv(variable: string)
    | Set(variable: string, value: string)
    | SaveEnv(variable: string)

  // Variables of the running GRUB, and the grubenv block on disk; an empty or
  // missing block holds nothing and cannot be saved to.
  datatype Machine = Machine(memory: map<string, string>, block: map<string, string>, present: bool)

  function Value(variables: map<string, string>, name: string): string
  {
    if name in variables then variables[name] else ""
  }

  function Execute(c: Command, m: Machine, saveWorks: bool): Machine
    decreases c
  {
    match c
    case IfEnvironment(body) => if m.present then Run(body, m, saveWorks) else m
    case IfEquals(variable, value, body) =>
      if Value(m.memory, variable) == value then Run(body, m, saveWorks) else m
    case LoadEnv(variable) =>
      if m.present && variable in m.block then m.(memory := m.memory[variable := m.block[variable]]) else m
    case Set(variable, value) => m.(memory := m.memory[variable := value])
    case SaveEnv(variable) =>
      if saveWorks && m.present then m.(block := m.block[variable := Value(m.memory, variable)]) else m
  }

  function Run(commands: seq<Command>, m: Machine, saveWorks: bool): Machine
    decreases commands
  {
    if commands == [] then m else Run(commands[1..], Execute(commands[0], m, saveWorks), saveWorks)
  }

  lemma RunFirst(c: Command, rest: seq<Command>, m: Machine, saveWorks: bool)
    ensures Run([c] + rest, m, saveWorks) == Run(rest, Execute(c, m, saveWorks), saveWorks)
  {
    assert ([c] + rest)[1..] == rest;
  }

  const FRAGMENT: seq<Command> := [
    IfEnvironment([LoadEnv(NEXT_ENTRY)]),
    IfEquals(NEXT_ENTRY, WRITER, [
      Set(DEFAULT, WRITER),
      Set(NEXT_ENTRY, ""),
      SaveEnv(NEXT_ENTRY)])
  ]

  predicate Pending(m: Machine)
  {
    m.present && Value(m.block, NEXT_ENTRY) == WRITER
  }

  // A start of the machine: nothing is in memory but another default entry.
  function Boot(m: Machine, fallback: string, saveWorks: bool): (r: Machine)
  {
    Run(FRAGMENT, m.(memory := map[DEFAULT := fallback]), saveWorks)
  }

  // The fragment picks the writer exactly when the block names it, and picking
  // it takes the name out of the block when the block can be written.
  lemma BootTakesTheEntry(m: Machine, fallback: string, saveWorks: bool)
    requires fallback != WRITER
    ensures var r := Boot(m, fallback, saveWorks);
      && (Value(r.memory, DEFAULT) == WRITER <==> Pending(m))
      && (!Pending(m) ==> Value(r.memory, DEFAULT) == fallback)
      && r.present == m.present
      && r.block == if Pending(m) && saveWorks then m.block[NEXT_ENTRY := ""] else m.block
  {
    var m0 := m.(memory := map[DEFAULT := fallback]);
    var load := LoadEnv(NEXT_ENTRY);
    var m1 := Execute(FRAGMENT[0], m0, saveWorks);
    RunFirst(load, [], m0, saveWorks);
    assert [load] + [] == FRAGMENT[0].body;
    assert m1 == if m.present then Execute(load, m0, saveWorks) else m0;
    RunFirst(FRAGMENT[0], [FRAGMENT[1]], m0, saveWorks);
    RunFirst(FRAGMENT[1], [], m1, saveWorks);
    assert [FRAGMENT[0]] + [FRAGMENT[1]] == FRAGMENT && [FRAGMENT[1]] + [] == [FRAGMENT[1]];
    RunFirst(Set(DEFAULT, WRITER), [Set(NEXT_ENTRY, ""), SaveEnv(NEXT_ENTRY)], m1, saveWorks);
    var m2 := Execute(Set(DEFAULT, WRITER), m1, saveWorks);
    RunFirst(Set(NEXT_ENTRY, ""), [SaveEnv(NEXT_ENTRY)], m2, saveWorks);
    var m3 := Execute(Set(NEXT_ENTRY, ""), m2, saveWorks);
    RunFirst(SaveEnv(NEXT_ENTRY), [], m3, saveWorks);
  }

  datatype Event = Arm | Unset | Start(fallback: string, saveWorks: bool)

  function After(m: Machine, e: Event): Machine
  {
    match e
    case Arm => m.(block := m.block[NEXT_ENTRY := WRITER], present := true)
    case Unset => m.(block := m.block - {NEXT_ENTRY})
    case Start(fallback, saveWorks) => Boot(m, fallback, saveWorks)
  }

  // A start that boots the writer.
  predicate BootsWriter(m: Machine, e: Event)
  {
    e.Start? && Value(After(m, e).memory, DEFAULT) == WRITER
  }

  // Starts that boot the writer along a run of events.
  function WriterBoots(m: Machine, events: seq<Event>): nat
    decreases events
  {
    if events == [] then 0
    else (if BootsWriter(m, events[0]) then 1 else 0) + WriterBoots(After(m, events[0]), events[1..])
  }

  function Armings(events: seq<Event>): nat
  {
    if events == [] then 0 else (if events[0].Arm? then 1 else 0) + Armings(events[1..])
  }

  // Those among them that could not write the block.
  function UnsavedBoots(m: Machine, events: seq<Event>): nat
    decreases events
  {
    if events == [] then 0
    else
      (if BootsWriter(m, events[0]) && !events[0].saveWorks then 1 else 0) +
      UnsavedBoots(After(m, events[0]), events[1..])
  }

  predicate OthersAreDefault(events: seq<Event>)
  {
    forall i :: 0 <= i < |events| && events[i].Start? ==> events[i].fallback != WRITER
  }

  // Over any run, every boot of the writer uses up an arming, unless the block
  // could not be written at that boot.
  lemma {:induction false} EachArmingBootsOnce(m: Machine, events: seq<Event>)
    requires OthersAreDefault(events)
    ensures WriterBoots(m, events) <= (if Pending(m) then 1 else 0) + Armings(events) + UnsavedBoots(m, events)
    decreases events
  {
    if events != [] {
      var e := events[0];
      if e.Start? {
        BootTakesTheEntry(m, e.fallback, e.saveWorks);
      }
      EachArmingBootsOnce(After(m, e), events[1..]);
    }
  }

  function Final(m: Machine, events: seq<Event>): Machine
    decreases events
  {
    if events == [] then m else Final(After(m, events[0]), events[1..])
  }

  // Nothing in a run takes the entry back: no unset, and no start that could
  // write the block.
  predicate KeepsEntry(events: seq<Event>)
  {
    forall i :: 0 <= i < |events| ==> events[i].Start? && !events[i].saveWorks
  }

  lemma {:induction false} EntryLasts(m: Machine, events: seq<Event>)
    requires OthersAreDefault(events)
    requires forall i :: 0 <= i < |events| ==> !events[i].Arm?
    ensures Pending(Final(m, events)) <==> Pending(m) && KeepsEntry(events)
    decreases events
  {
    if events != [] {
      var e := events[0];
      if e.Start? {
        BootTakesTheEntry(m, e.fallback, e.saveWorks);
      }
      assert KeepsEntry(events) <==> e.Start? && !e.saveWorks && KeepsEntry(events[1..]);
      EntryLasts(After(m, e), events[1..]);
    }
  }

  // With no new arming in between, an armed machine boots the writer at a later
  // start exactly when no start before it could write the block and nothing
  // unset it.
  lemma BootsAgainExactlyWhenUnsaved(m: Machine, between: seq<Event>, start: Event)
    requires Pending(m) && OthersAreDefault(between)
    requires forall i :: 0 <= i < |between| ==> !between[i].Arm?
    requires start.Start? && start.fallback != WRITER
    ensures BootsWriter(Final(m, between), start) <==> KeepsEntry(between)
  {
    EntryLasts(m, between);
    BootTakesTheEntry(Final(m, between), start.fallback, start.saveWorks);
  }

  // Without working saves the bound is lost: one arming, two boots.
  lemma UnsavedEntryBootsAgain()
    ensures var events := [Arm, Start("0", false), Start("0", false)];
      WriterBoots(Machine(map[], map[], true), events) == 2 && Armings(events) == 1
  {
    var events := [Arm, Start("0", false), Start("0", false)];
    var m := Machine(map[], map[], true);
    var armed := After(m, Arm);
    BootTakesTheEntry(armed, "0", false);
    var again := After(armed, events[1]);
    BootTakesTheEntry(again, "0", false);
    var last := After(again, events[2]);
    assert events[1..][1..] == events[2..] && events[2..][1..] == [];
    assert WriterBoots(again, events[2..]) == 1 + WriterBoots(last, []);
    assert WriterBoots(armed, events[1..]) == 1 + WriterBoots(again, events[2..]);
    assert Armings(events[2..]) == 0 && Armings(events[1..]) == 0;
  }
}
