/** The list of a master's actions, as it is read from the configuration. */
module ActionLists {
  import opened ConfigKeys
  import opened Connections
  import DueDates
  import opened ModbusConfig
  import opened ParsingErrors
  import opened ProcessImages
  import opened StatusBytes
  import opened Widths

  /** A result; or the action is passed over, an assertion ends the program, or parsing ends with an error. */
  datatype Parsed<T> = Skip | Abort | Failed(error: ParsingError) | Value(value: T) {
    predicate IsFailure() {
      !Value?
    }

    function PropagateFailure<U>(): Parsed<U>
      requires IsFailure()
    {
      match this
      case Skip => Skip
      case Abort => Abort
      case Failed(e) => Failed(e)
    }

    function Extract(): T
      requires !IsFailure()
    {
      value
    }
  }

  // ---------- the configuration of a device ----------

  /** A string, and the number that its digits denote unless that is out of range. */
  datatype Text = Text(chars: string, number: Option<nat>)

  /** The settings of the actions; a value may be null. */
  type Settings = seq<Setting<Option<Text>>>

  /** A variable of the device with its byte and bit offset, where a number may be out of range. */
  datatype Variable = NotAnArray | Variable(name: string, byteOffset: Option<nat>, bitOffset: Option<nat>)

  /** Any section may be missing. The offset is a 32-bit integer. */
  datatype Device = Device(
    offset: Option<int>,
    inp: Option<seq<Variable>>,
    out: Option<seq<Variable>>,
    extend: Option<Option<Settings>>)

  // ---------- where a variable lies ----------

  datatype Location = Location(byte: nat, bit: nat)

  predicate IsNamed(v: Variable, name: string) {
    v.Variable? && v.name == name
  }

  function FirstVariable(section: seq<Variable>, name: string): (r: Option<Variable>)
    ensures r.Some? ==> r.value in section && IsNamed(r.value, name)
    ensures r.None? ==> forall v | v in section :: !IsNamed(v, name)
  {
    if section == [] then None
    else if IsNamed(section[0], name) then Some(section[0])
    else FirstVariable(section[1..], name)
  }

  /** How far the offsets of a variable could be read. */
  datatype Offsets = Unread | ByteRead(byte: nat) | BothRead(byte: nat, bit: nat)

  function OffsetsIn(section: seq<Variable>, name: string): Offsets {
    match FirstVariable(section, name)
    case None => Unread
    case Some(v) =>
      if v.byteOffset.None? then Unread
      else if v.bitOffset.None? then ByteRead(Wrap32(v.byteOffset.value))
      else BothRead(Wrap32(v.byteOffset.value), Wrap32(v.bitOffset.value))
  }

  /** Both sections are searched, and what is read in the second one replaces what the first one gave. */
  function LocationOf(d: Device, name: string): Parsed<Location> {
    if d.offset.None? then Failed(OFFSET_POSITION_PARAMETER_NOT_FOUND)
    else if d.offset.value < 0 then Skip
    else if d.inp.None? then Failed(INPUT_PARAMETER_SECTION_NOT_FOUND)
    else if d.out.None? then Failed(OUTPUT_PARAMETER_SECTION_NOT_FOUND)
    else
      var i, o := OffsetsIn(d.inp.value, name), OffsetsIn(d.out.value, name);
      if !i.BothRead? && !o.BothRead? then Failed(GENERAL_EXCEPTION)
      else
        var byte := if o.Unread? then i.byte else o.byte;
        var bit := if o.BothRead? then o.bit else i.bit;
        Value(Location(Wrap32(byte + d.offset.value), bit))
  }

  method ReadOffsets(section: seq<Variable>, name: string, byte: nat, bit: nat)
    returns (ok: bool, byte': nat, bit': nat)
    ensures var o := OffsetsIn(section, name);
            && (ok <==> o.BothRead?)
            && byte' == (if o.Unread? then byte else o.byte)
            && bit' == (if o.BothRead? then o.bit else bit)
  {
    byte', bit' := byte, bit;
    for i := 0 to |section|
      invariant FirstVariable(section, name) == FirstVariable(section[i..], name)
    {
      if IsNamed(section[i], name) {
        if section[i].byteOffset.None? {
          return false, byte', bit';
        }
        byte' := Wrap32(section[i].byteOffset.value);
        if section[i].bitOffset.None? {
          return false, byte', bit';
        }
        bit' := Wrap32(section[i].bitOffset.value);
        return true, byte', bit';
      }
    }
    return false, byte', bit';
  }

  /** The offsets are updated in place; they are meaningful only on success. */
  method GetVariableParameters(d: Device, name: string, byte: nat, bit: nat)
    returns (r: Parsed<()>, byte': nat, bit': nat)
    ensures match LocationOf(d, name)
            case Value(l) => r.Value? && Location(byte', bit') == l
            case Failed(e) => r == Failed(e)
            case Skip => r == Skip
            case Abort => false
  {
    byte', bit' := byte, bit;
    if d.offset.None? {
      return Failed(OFFSET_POSITION_PARAMETER_NOT_FOUND), byte', bit';
    }
    if d.offset.value < 0 {
      return Skip, byte', bit';
    }
    if d.inp.None? {
      return Failed(INPUT_PARAMETER_SECTION_NOT_FOUND), byte', bit';
    }
    var inInp, inOut;
    inInp, byte', bit' := ReadOffsets(d.inp.value, name, byte', bit');
    if d.out.None? {
      return Failed(OUTPUT_PARAMETER_SECTION_NOT_FOUND), byte', bit';
    }
    inOut, byte', bit' := ReadOffsets(d.out.value, name, byte', bit');
    if !inInp && !inOut {
      return Failed(GENERAL_EXCEPTION), byte', bit';
    }
    byte' := Wrap32(byte' + d.offset.value);
    return Value(()), byte', bit';
  }

  // ---------- one action ----------

  const ACTION_ID := "ActionId"
  const SLAVE_ADDRESS := "SlaveAddress"
  const FUNCTION_CODE := "FunctionCode"
  const REGISTER_ADDRESS := "RegisterAddress"
  const QUANTITY_OF_REGISTERS := "QuantityOfRegisters"
  const ACTION_INTERVAL := "ActionInterval"
  const DEVICE_VALUE := "DeviceValue"
  const ACTION_STATUS := "ModbusActionStatus"
  const ACTION_STATUS_RESET := "ActionStatusReset"

  const MAX_INTERVAL_MS := 1000 * 60 * 30

  function FieldText(settings: Settings, field: string, id: Option<string>): Parsed<Text> {
    match FindField(settings, field, id)
    case None => Skip
    case Some(i) => if i < |settings| && settings[i].value.Some? then Value(settings[i].value.value) else Skip
  }

  /** What is found under the names of the fields of an action. */
  datatype Texts = Texts(
    actionId: Parsed<Text>, slaveAddress: Parsed<Text>, functionCode: Parsed<Text>, register: Parsed<Text>,
    count: Parsed<Text>, interval: Parsed<Text>, data: Parsed<Text>, status: Parsed<Text>, reset: Parsed<Text>)

  function TextsOf(settings: Settings, id: Option<string>): Texts {
    Texts(
      FieldText(settings, ACTION_ID, id),
      FieldText(settings, SLAVE_ADDRESS, id),
      FieldText(settings, FUNCTION_CODE, id),
      FieldText(settings, REGISTER_ADDRESS, id),
      FieldText(settings, QUANTITY_OF_REGISTERS, id),
      FieldText(settings, ACTION_INTERVAL, id),
      FieldText(settings, DEVICE_VALUE, id),
      FieldText(settings, ACTION_STATUS, id),
      FieldText(settings, ACTION_STATUS_RESET, id))
  }

  function Number(field: Parsed<Text>, error: ParsingError): Parsed<nat> {
    var text :- field;
    if text.number.None? then Failed(error) else Value(Wrap32(text.number.value))
  }

  /** A variable that cannot be located makes the action be passed over. */
  function Place(d: Device, field: Parsed<Text>): Parsed<Location> {
    var text :- field;
    match LocationOf(d, text.chars)
    case Value(l) => Value(l)
    case _ => Skip
  }

  function Assert(holds: bool): Parsed<()> {
    if holds then Value(()) else Abort
  }

  predicate TransfersBits(code: nat) {
    ReadsBits(code) || WritesBits(code)
  }

  /** The bit offset is cut to a byte; for bits, what exceeds seven is moved to the byte offset. */
  function Normalised(code: nat, l: Location): Location {
    var bit := Wrap8(l.bit);
    if TransfersBits(code) then Location(Wrap32(l.byte + bit / 8), bit % 8) else Location(l.byte, bit)
  }

  /** The part of an action that is given in numbers. */
  datatype Command = Command(
    actionId: nat, slaveAddress: nat, functionCode: nat, register: nat, count: nat, interval_us: nat)

  /** The first field that is missing or wrong decides what becomes of the action. */
  function CommandFrom(t: Texts): Parsed<Command> {
    var actionId :- Number(t.actionId, ACTION_ID_WRONG_FORMAT);
    var _ :- Assert(0 < actionId < INT32_MAX);
    var slaveAddress :- Number(t.slaveAddress, ACTION_ADDRESS_WRONG_FORMAT);
    var functionCode :- Number(t.functionCode, ACTION_FUNCTION_CODE_WRONG_FORMAT);
    var _ :- Assert(READ_COILS <= functionCode < WRITE_AND_READ_REGISTERS);
    var register :- Number(t.register, ACTION_REGISTER_ADDRESS_WRONG_FORMAT);
    var _ :- Assert(0 < register < 0x10000);
    var count :- Number(t.count, ACTION_REGISTER_QUANTITY_WRONG_FORMAT);
    var _ :- Assert(0 < count <= MAX_REGISTER_SIZE_PER_ACTION);
    var interval :- Number(t.interval, ACTION_INTERVALL_WRONG_FORMAT);
    var _ :- Assert(0 < interval <= MAX_INTERVAL_MS);
    Value(Command(Wrap16(actionId), Wrap8(slaveAddress), functionCode, register, Wrap16(count),
                  Wrap32(interval * 1000)))
  }

  datatype Places = Places(data: Location, status: Location, reset: Location)

  function PlacesFrom(d: Device, t: Texts): Parsed<Places> {
    var data :- Place(d, t.data);
    var status :- Place(d, t.status);
    var reset :- Place(d, t.reset);
    Value(Places(data, status, reset))
  }

  function Assembled(c: Command, p: Places): Action {
    var start := Normalised(c.functionCode, p.data);
    Action(c.actionId, c.slaveAddress, c.functionCode, c.register, c.count, c.interval_us,
           start.byte, start.bit, p.status.byte, p.reset.byte, Wrap8(p.reset.bit))
  }

  function ActionFrom(d: Device, t: Texts): Parsed<Action> {
    var command :- CommandFrom(t);
    var places :- PlacesFrom(d, t);
    Value(Assembled(command, places))
  }

  function ActionFor(d: Device, settings: Settings, id: Option<string>): Parsed<Action> {
    ActionFrom(d, TextsOf(settings, id))
  }

  /** The function codes of coils and discrete inputs. */
  predicate OfBits(code: nat) {
    code == 1 || code == 2 || code == 5 || code == 15
  }

  /** What the scheduler and the transactions may rely on. */
  predicate InLimits(a: Action) {
    && a.slaveAddress < 256
    && 1 <= a.functionCode <= 0x16
    && 0 < a.startRegister < 0x10000
    && 0 < a.registerCount <= 256
    && 1000 <= a.interval_us <= 1_800_000_000
    && a.interval_us % 1000 == 0
    && a.startBit < (if OfBits(a.functionCode) then 8 else 256)
    && a.startByte < UINT32 && a.statusByte < UINT32 && a.resetByte < UINT32 && a.resetBit < UINT8
  }

  predicate CommandFits(c: Command) {
    && c.slaveAddress < UINT8
    && READ_COILS <= c.functionCode < WRITE_AND_READ_REGISTERS
    && 0 < c.register < 0x10000
    && 0 < c.count <= MAX_REGISTER_SIZE_PER_ACTION
    && 1000 <= c.interval_us <= 1_800_000_000 && c.interval_us % 1000 == 0
  }

  predicate PlacesFit(p: Places) {
    p.data.byte < UINT32 && p.status.byte < UINT32 && p.reset.byte < UINT32
  }

  /** The interval does not overflow 32 bits. */
  lemma CommandInLimits(t: Texts)
    requires CommandFrom(t).Value?
    ensures CommandFits(CommandFrom(t).value)
    ensures CommandFrom(t).value.interval_us == 1000 * Number(t.interval, ACTION_INTERVALL_WRONG_FORMAT).value
  {}

  lemma PlacesInLimits(d: Device, t: Texts)
    requires PlacesFrom(d, t).Value?
    ensures PlacesFit(PlacesFrom(d, t).value)
  {}

  lemma AssembledInLimits(c: Command, p: Places)
    requires CommandFits(c) && PlacesFit(p)
    ensures InLimits(Assembled(c, p))
  {}

  /** Every action that is accepted is in the limits. */
  lemma AcceptedInLimits(d: Device, t: Texts)
    ensures ActionFrom(d, t).Value? ==> InLimits(ActionFrom(d, t).value)
  {
    if ActionFrom(d, t).Value? {
      CommandInLimits(t);
      PlacesInLimits(d, t);
      AssembledInLimits(CommandFrom(t).value, PlacesFrom(d, t).value);
    }
  }

  /** The reset bit of an accepted action is one of a byte's eight, as the status bytes' rules demand,
      exactly if its variable's bit offset is less than eight above a multiple of 256. */
  lemma ResetWithinByte(d: Device, t: Texts)
    ensures ActionFrom(d, t).Value? ==>
              (ActionFrom(d, t).value.resetBit < 8 <==> PlacesFrom(d, t).value.reset.bit % 256 < 8)
  {}

  /** Normalising keeps the linear bit address exactly if the bit offset fits in a byte. Offsets of
      registers are not normalised, only cut. */
  lemma NormalisedKeepsAddress(code: nat, l: Location)
    requires l.byte + 32 <= 0x1_0000_0000
    ensures var n := Normalised(code, l);
            if OfBits(code) then n.bit < 8 && (8 * n.byte + n.bit == 8 * l.byte + l.bit <==> l.bit < 256)
            else n == Location(l.byte, l.bit % 256)
  {}

  // ---------- groups ----------

  predicate Belongs(s: Setting<Option<Text>>, x: string) {
    IdentifierOf(s.key) == Some(x)
  }

  /** The settings with a given identifier, in their order. */
  function Group(settings: Settings, x: string): Settings {
    if settings == [] then []
    else if Belongs(settings[0], x) then [settings[0]] + Group(settings[1..], x)
    else Group(settings[1..], x)
  }

  lemma {:induction false} FirstInGroup(settings: Settings, field: string, x: string)
    requires Plain(field) && Identifier(x)
    ensures var g := Group(settings, x);
            var (i, j) := (FirstNamed(settings, field + x), FirstNamed(g, field + x));
            && (i.Some? <==> j.Some?)
            && (i.Some? ==> i.value < |settings| && j.value < |g| && settings[i.value] == g[j.value])
  {
    if settings != [] {
      var s, rest, name := settings[0], settings[1..], field + x;
      FirstInGroup(rest, field, x);
      if name <= s.key {
        IdentifierOfField(s.key, field, x);
      } else if Belongs(s, x) {
        assert ([s] + Group(rest, x))[1..] == Group(rest, x);
      }
    }
  }

  lemma FieldInGroup(settings: Settings, field: string, x: string)
    requires Plain(field) && Identifier(x)
    ensures FieldText(settings, field, Some(x)) == FieldText(Group(settings, x), field, Some(x))
  {
    FirstInGroup(settings, field, x);
  }

  lemma NamesArePlain()
    ensures Plain(ACTION_ID) && Plain(SLAVE_ADDRESS) && Plain(FUNCTION_CODE)
    ensures Plain(REGISTER_ADDRESS) && Plain(QUANTITY_OF_REGISTERS) && Plain(ACTION_INTERVAL)
    ensures Plain(DEVICE_VALUE) && Plain(ACTION_STATUS) && Plain(ACTION_STATUS_RESET)
  {}

  lemma TextsInGroup(settings: Settings, x: string)
    requires Identifier(x)
    ensures TextsOf(settings, Some(x)) == TextsOf(Group(settings, x), Some(x))
  {
    NamesArePlain();
    FieldInGroup(settings, ACTION_ID, x);
    FieldInGroup(settings, SLAVE_ADDRESS, x);
    FieldInGroup(settings, FUNCTION_CODE, x);
    FieldInGroup(settings, REGISTER_ADDRESS, x);
    FieldInGroup(settings, QUANTITY_OF_REGISTERS, x);
    FieldInGroup(settings, ACTION_INTERVAL, x);
    FieldInGroup(settings, DEVICE_VALUE, x);
    FieldInGroup(settings, ACTION_STATUS, x);
    FieldInGroup(settings, ACTION_STATUS_RESET, x);
  }

  /** An action is made of the settings with its own identifier: all others may be removed. */
  lemma ActionFromGroup(d: Device, settings: Settings, x: string)
    requires Identifier(x)
    ensures ActionFor(d, settings, Some(x)) == ActionFor(d, Group(settings, x), Some(x))
  {
    TextsInGroup(settings, x);
  }

  // ---------- round trip ----------

  /** The names of the variables that an action refers to. */
  datatype Names = Names(data: string, status: string, reset: string)

  /** The fields of an action, each with its value; digits writes a number. */
  function FieldsOf(a: Action, names: Names, digits: nat -> string): seq<(string, Text)> {
    [("ActionId", Text(digits(a.actionId), Some(a.actionId))),
     ("SlaveAddress", Text(digits(a.slaveAddress), Some(a.slaveAddress))),
     ("FunctionCode", Text(digits(a.functionCode), Some(a.functionCode))),
     ("RegisterAddress", Text(digits(a.startRegister), Some(a.startRegister))),
     ("QuantityOfRegisters", Text(digits(a.registerCount), Some(a.registerCount))),
     ("ActionInterval", Text(digits(a.interval_us / 1000), Some(a.interval_us / 1000))),
     ("DeviceValue", Text(names.data, None)),
     ("ModbusActionStatus", Text(names.status, None)),
     ("ActionStatusReset", Text(names.reset, None))]
  }

  function Written(fields: seq<(string, Text)>, x: string): (settings: Settings)
    ensures |settings| == |fields|
  {
    seq(|fields|, i requires 0 <= i < |fields| => Setting(fields[i].0 + x, Some(fields[i].1)))
  }

  predicate Distinct(fields: seq<(string, Text)>) {
    && (forall j | 0 <= j < |fields| :: Plain(fields[j].0))
    && (forall i, j | 0 <= j < i < |fields| :: fields[j].0 != fields[i].0)
  }

  lemma WrittenIsFound(fields: seq<(string, Text)>, i: nat, name: string, text: Text, x: string)
    requires Identifier(x) && Distinct(fields)
    requires i < |fields| && fields[i] == (name, text)
    ensures FieldText(Written(fields, x), name, Some(x)) == Value(text)
  {
    var settings := Written(fields, x);
    FirstNamedIsFirst(settings, name + x);
    assert settings[i].key == name + x;
    var k := FirstNamed(settings, name + x).value;
    OneFieldOfOneAction(settings[k].key, name, x, fields[k].0, x);
  }

  lemma FieldNamesDiffer(a: Action, names: Names, digits: nat -> string)
    ensures Distinct(FieldsOf(a, names, digits))
  {}

  predicate Refers(d: Device, names: Names, a: Action) {
    && LocationOf(d, names.data) == Value(Location(a.startByte, a.startBit))
    && (var s := LocationOf(d, names.status); s.Value? && s.value.byte == a.statusByte)
    && LocationOf(d, names.reset) == Value(Location(a.resetByte, a.resetBit))
  }

  predicate Gives(field: Parsed<Text>, n: nat) {
    field.Value? && field.value.number == Some(n)
  }

  predicate SpellsFirst(t: Texts, a: Action) {
    && Gives(t.actionId, a.actionId) && Gives(t.slaveAddress, a.slaveAddress)
    && Gives(t.functionCode, a.functionCode) && Gives(t.register, a.startRegister)
  }

  predicate SpellsLast(t: Texts, a: Action, names: Names) {
    && Gives(t.count, a.registerCount) && Gives(t.interval, a.interval_us / 1000)
    && t.data.Value? && t.data.value.chars == names.data
    && t.status.Value? && t.status.value.chars == names.status
    && t.reset.Value? && t.reset.value.chars == names.reset
  }

  predicate Spells(t: Texts, a: Action, names: Names) {
    SpellsFirst(t, a) && SpellsLast(t, a, names)
  }

  lemma CommandIsRead(t: Texts, a: Action, names: Names)
    requires InLimits(a) && 0 < a.actionId < UINT16 && Spells(t, a, names)
    ensures CommandFrom(t) ==
            Value(Command(a.actionId, a.slaveAddress, a.functionCode, a.startRegister, a.registerCount, a.interval_us))
  {}

  lemma PlacesAreRead(d: Device, t: Texts, a: Action, names: Names)
    requires Refers(d, names, a) && Spells(t, a, names)
    ensures PlacesFrom(d, t).Value?
    ensures var p := PlacesFrom(d, t).value;
            && p.data == Location(a.startByte, a.startBit) && p.status.byte == a.statusByte
            && p.reset == Location(a.resetByte, a.resetBit)
  {}

  lemma AssembledIsRead(c: Command, p: Places, a: Action)
    requires InLimits(a)
    requires c == Command(a.actionId, a.slaveAddress, a.functionCode, a.startRegister, a.registerCount, a.interval_us)
    requires p.data == Location(a.startByte, a.startBit) && p.status.byte == a.statusByte
    requires p.reset == Location(a.resetByte, a.resetBit)
    ensures Assembled(c, p) == a
  {}

  lemma ActionIsRead(d: Device, t: Texts, a: Action, names: Names)
    requires InLimits(a) && 0 < a.actionId < UINT16 && Refers(d, names, a) && Spells(t, a, names)
    ensures ActionFrom(d, t) == Value(a)
  {
    CommandIsRead(t, a, names);
    PlacesAreRead(d, t, a, names);
    AssembledIsRead(CommandFrom(t).value, PlacesFrom(d, t).value, a);
  }

  lemma FieldsSpellFirst(a: Action, names: Names, digits: nat -> string, x: string)
    requires Identifier(x)
    ensures SpellsFirst(TextsOf(Written(FieldsOf(a, names, digits), x), Some(x)), a)
  {
    var f := FieldsOf(a, names, digits);
    FieldNamesDiffer(a, names, digits);
    WrittenIsFound(f, 0, ACTION_ID, f[0].1, x);
    WrittenIsFound(f, 1, SLAVE_ADDRESS, f[1].1, x);
    WrittenIsFound(f, 2, FUNCTION_CODE, f[2].1, x);
    WrittenIsFound(f, 3, REGISTER_ADDRESS, f[3].1, x);
  }

  lemma FieldsSpellLast(a: Action, names: Names, digits: nat -> string, x: string)
    requires Identifier(x)
    ensures SpellsLast(TextsOf(Written(FieldsOf(a, names, digits), x), Some(x)), a, names)
  {
    var f := FieldsOf(a, names, digits);
    FieldNamesDiffer(a, names, digits);
    WrittenIsFound(f, 4, QUANTITY_OF_REGISTERS, f[4].1, x);
    WrittenIsFound(f, 5, ACTION_INTERVAL, f[5].1, x);
    WrittenIsFound(f, 6, DEVICE_VALUE, f[6].1, x);
    WrittenIsFound(f, 7, ACTION_STATUS, f[7].1, x);
    WrittenIsFound(f, 8, ACTION_STATUS_RESET, f[8].1, x);
  }

  /** Round trip: an action within the limits that is written with its own identifier is read back
      unchanged, wherever its settings stand among those of other actions. */
  lemma WrittenActionIsRead(d: Device, settings: Settings, a: Action, names: Names, digits: nat -> string, x: string)
    requires InLimits(a) && 0 < a.actionId < UINT16 && Identifier(x)
    ensures Refers(d, names, a) && Group(settings, x) == Written(FieldsOf(a, names, digits), x) ==>
              ActionFor(d, settings, Some(x)) == Value(a)
  {
    if Refers(d, names, a) && Group(settings, x) == Written(FieldsOf(a, names, digits), x) {
      TextsInGroup(settings, x);
      FieldsSpellFirst(a, names, digits, x);
      FieldsSpellLast(a, names, digits, x);
      ActionIsRead(d, TextsOf(settings, Some(x)), a, names);
    }
  }

  /** A variable whose name is not used in the other section, nor before it in its own, lies where the
      device does, moved by its own offsets. */
  lemma VariableIsLocated(d: Device, v: Variable)
    requires v.Variable? && v.byteOffset.Some? && v.bitOffset.Some?
    requires d.offset.Some? && 0 <= d.offset.value && d.inp.Some? && d.out.Some?
    requires v.byteOffset.value + d.offset.value < UINT32 && v.bitOffset.value < UINT32
    requires v in d.inp.value + d.out.value
    requires forall w | w in d.inp.value + d.out.value && IsNamed(w, v.name) :: w == v
    ensures LocationOf(d, v.name) == Value(Location(v.byteOffset.value + d.offset.value, v.bitOffset.value))
  {
    var i, o := FirstVariable(d.inp.value, v.name), FirstVariable(d.out.value, v.name);
    assert i.Some? ==> i.value in d.inp.value + d.out.value;
    assert o.Some? ==> o.value in d.inp.value + d.out.value;
  }

  // ---------- the list ----------

  /** Gives the action of an identifier; nothing is found without one. */
  type Parser = p: Option<string> -> Parsed<Action> | p(None) == Skip witness id => Skip

  function ParserFor(d: Device, settings: Settings): Parser {
    id => ActionFor(d, settings, id)
  }

  /** What a key contributes: only those of action ids do, and those without an identifier do not. */
  function ActionOfKey(parse: Parser, key: string): Parsed<Action> {
    if ACTION_ID <= key then parse(IdentifierOf(key)) else Skip
  }

  /** What each key contributes. */
  function Contributions(parse: Parser, settings: Settings): (c: seq<Parsed<Action>>)
    ensures |c| == |settings|
  {
    seq(|settings|, k requires 0 <= k < |settings| => ActionOfKey(parse, settings[k].key))
  }

  /** The positions of the accepted ones among the first n. */
  function AcceptedAt(c: seq<Parsed<Action>>, n: nat): seq<nat>
    requires n <= |c|
  {
    if n == 0 then []
    else
      var before := AcceptedAt(c, n - 1);
      if c[n - 1].Value? then before + [n - 1] else before
  }

  lemma {:induction false} AcceptedAscend(c: seq<Parsed<Action>>, n: nat)
    requires n <= |c|
    ensures var keys := AcceptedAt(c, n);
            && (forall i | 0 <= i < |keys| :: keys[i] < n && c[keys[i]].Value?)
            && (forall i, j | 0 <= i < j < |keys| :: keys[i] < keys[j])
            && (forall k | 0 <= k < n && c[k].Value? :: k in keys)
  {
    if n > 0 {
      AcceptedAscend(c, n - 1);
      var before, keys := AcceptedAt(c, n - 1), AcceptedAt(c, n);
      forall k | 0 <= k < n && c[k].Value? ensures k in keys {
        if k == n - 1 {
          assert keys[|before|] == k;
        } else {
          assert k in before;
        }
      }
    }
  }

  /** The list after the first n keys. */
  function ListOf(c: seq<Parsed<Action>>, n: nat): seq<Action>
    requires n <= |c|
  {
    if n == 0 then []
    else if c[n - 1].Value? then [c[n - 1].value] + ListOf(c, n - 1)
    else ListOf(c, n - 1)
  }

  /** The list holds every accepted action once, and its order is the reverse of that of the keys. */
  lemma {:induction false} ListReversesKeys(c: seq<Parsed<Action>>, n: nat)
    requires n <= |c|
    ensures var (keys, list) := (AcceptedAt(c, n), ListOf(c, n));
            && |list| == |keys|
            && forall i | 0 <= i < |list| :: keys[|keys| - 1 - i] < n && Value(list[i]) == c[keys[|keys| - 1 - i]]
  {
    if n > 0 {
      ListReversesKeys(c, n - 1);
    }
  }

  predicate Ends(contribution: Parsed<Action>) {
    contribution.Failed? || contribution.Abort?
  }

  /** The first key from position n on that ends parsing, or the number of keys. */
  function StopFrom(c: seq<Parsed<Action>>, n: nat): (k: nat)
    requires n <= |c|
    ensures n <= k <= |c|
    ensures k < |c| ==> Ends(c[k])
    decreases |c| - n
  {
    if n == |c| || Ends(c[n]) then n else StopFrom(c, n + 1)
  }

  /** The outcome: the actions accepted before parsing ends, and their number if nothing ends it early. */
  predicate IsOutcome(c: seq<Parsed<Action>>, r: Parsed<nat>, list: seq<Action>) {
    var n := StopFrom(c, 0);
    list == ListOf(c, n) && r == if n == |c| then Value(|list|) else c[n].PropagateFailure()
  }

  /** Nothing has ended parsing before the n-th key, and this is the list by then. */
  predicate SoFar(c: seq<Parsed<Action>>, n: nat, list: seq<Action>)
    requires n <= |c|
  {
    list == ListOf(c, n) && StopFrom(c, 0) == StopFrom(c, n)
  }

  lemma OneKeyMore(c: seq<Parsed<Action>>, n: nat, list: seq<Action>)
    requires n < |c| && SoFar(c, n, list)
    ensures match c[n]
            case Value(a) => SoFar(c, n + 1, [a] + list)
            case Skip => SoFar(c, n + 1, list)
            case _ => IsOutcome(c, c[n].PropagateFailure(), list)
  {}

  /** The image with the reset bit and the status byte of an action cleared. */
  function Initialise(image: Bytes, a: Action): (r: Bytes)
    ensures |r| == |image|
  {
    PutBytes(PutBit(image, Address(a.resetByte), a.resetBit, false), a.statusByte, [0])
  }

  function InitialiseAll(image: Bytes, list: seq<Action>): (r: Bytes)
    ensures |r| == |image|
  {
    if list == [] then image else Initialise(InitialiseAll(image, list[1..]), list[0])
  }

  lemma InitialiseOneMore(image: Bytes, a: Action, list: seq<Action>)
    ensures InitialiseAll(image, [a] + list) == Initialise(InitialiseAll(image, list), a)
  {
    assert ([a] + list)[1..] == list;
  }

  method SetUp(image: ProcessImage, a: Action)
    modifies image.mem
    ensures image.mem[..] == Initialise(old(image.mem[..]), a)
  {
    var _ := image.SetBitValue(Address(a.resetByte), a.resetBit, false);
    var zero := new bv8[1][0];
    var _ := image.Write(a.statusByte, 1, zero);
    assert zero[..1] == [0];
  }

  /** One key. The identifier of an action that is passed over stays, and is used for keys without one;
      then the next action is passed over as well, for the same reason. */
  method ParseKey(parse: Parser, key: string, id: Option<string>, image: ProcessImage)
    returns (next: Parsed<Action>, id': Option<string>)
    requires parse(id) == Skip
    modifies image.mem
    ensures next == ActionOfKey(parse, key)
    ensures !Ends(next) ==> parse(id') == Skip
    ensures image.mem[..] == if next.Value? then Initialise(old(image.mem[..]), next.value) else old(image.mem[..])
  {
    next, id' := Skip, id;
    if ACTION_ID <= key {
      var x := IdentifierOf(key);
      if x.Some? {
        id' := x;
      }
      next := parse(id');
      if next.Value? {
        SetUp(image, next.value);
        id' := None;
      }
    }
  }

  /** The image after the first n keys. */
  function ImageOf(image: Bytes, c: seq<Parsed<Action>>, n: nat): (r: Bytes)
    requires n <= |c|
    ensures |r| == |image|
  {
    if n == 0 then image
    else if c[n - 1].Value? then Initialise(ImageOf(image, c, n - 1), c[n - 1].value)
    else ImageOf(image, c, n - 1)
  }

  lemma {:induction false} ImageOfList(image: Bytes, c: seq<Parsed<Action>>, n: nat)
    requires n <= |c|
    ensures ImageOf(image, c, n) == InitialiseAll(image, ListOf(c, n))
  {
    if n > 0 {
      ImageOfList(image, c, n - 1);
      if c[n - 1].Value? {
        InitialiseOneMore(image, c[n - 1].value, ListOf(c, n - 1));
      }
    }
  }

  method ReadActions(parse: Parser, settings: Settings, image: ProcessImage, ghost c: seq<Parsed<Action>>)
    returns (r: Parsed<nat>, list: seq<Action>)
    requires |c| == |settings| && forall k | 0 <= k < |c| :: c[k] == ActionOfKey(parse, settings[k].key)
    modifies image.mem
    ensures IsOutcome(c, r, list)
    ensures image.mem[..] == ImageOf(old(image.mem[..]), c, StopFrom(c, 0))
  {
    ghost var first := image.mem[..];
    list := [];
    var count, id := 0, None;
    for n := 0 to |settings|
      invariant count == |list| && SoFar(c, n, list)
      invariant parse(id) == Skip
      invariant image.mem[..] == ImageOf(first, c, n)
    {
      OneKeyMore(c, n, list);
      var next;
      next, id := ParseKey(parse, settings[n].key, id, image);
      if Ends(next) {
        return next.PropagateFailure(), list;
      }
      if next.Value? {
        list, count := [next.value] + list, count + 1;
      }
    }
    return Value(count), list;
  }

  method ParseActionList(d: Device, image: ProcessImage) returns (r: Parsed<nat>, list: seq<Action>)
    modifies image.mem
    ensures d.extend.None? ==> r == Failed(EXTEND_SECTION_NOT_FOUND) && list == []
    ensures d.extend.Some? && d.extend.value.None? ==> r == Failed(ACTION_DATA_SECTION_NOT_FOUND) && list == []
    ensures d.extend.Some? && d.extend.value.Some? ==>
              var settings := d.extend.value.value;
              IsOutcome(Contributions(ParserFor(d, settings), settings), r, list)
    ensures image.mem[..] == InitialiseAll(old(image.mem[..]), list)
  {
    if d.extend.None? {
      return Failed(EXTEND_SECTION_NOT_FOUND), [];
    }
    if d.extend.value.None? {
      return Failed(ACTION_DATA_SECTION_NOT_FOUND), [];
    }
    var settings := d.extend.value.value;
    ghost var c := Contributions(ParserFor(d, settings), settings);
    ImageOfList(image.mem[..], c, StopFrom(c, 0));
    r, list := ReadActions(ParserFor(d, settings), settings, image, c);
  }

  // ---------- what the rest of the master relies on ----------

  predicate AllInLimits(c: seq<Parsed<Action>>) {
    forall k | 0 <= k < |c| :: c[k].Value? ==> InLimits(c[k].value)
  }

  lemma {:induction false} ListInLimits(c: seq<Parsed<Action>>, n: nat)
    requires n <= |c| && AllInLimits(c)
    ensures forall i | 0 <= i < |ListOf(c, n)| :: InLimits(ListOf(c, n)[i])
  {
    if n > 0 {
      ListInLimits(c, n - 1);
    }
  }

  lemma ContributionInLimits(d: Device, settings: Settings, k: nat)
    requires k < |settings|
    ensures var c := Contributions(ParserFor(d, settings), settings)[k];
            c.Value? ==> InLimits(c.value)
  {
    AcceptedInLimits(d, TextsOf(settings, IdentifierOf(settings[k].key)));
  }

  /** A parsed list that is not empty is one the scheduler can run, with its length as the count; the
      transactions make the one demand that parsing does not, that the function code allows the count. */
  lemma ListIsSchedulable(d: Device, settings: Settings, r: Parsed<nat>, m: Master)
    requires IsOutcome(Contributions(ParserFor(d, settings), settings), r, m.actions) && r.Value? && r.value > 0
    ensures r.value == |m.actions| == |Intervals(m)|
    ensures DueDates.ValidIntervals(Intervals(m))
    ensures ValidMaster(m) <==> forall i | 0 <= i < |m.actions| :: CountAllowed(m.actions[i])
  {
    var c := Contributions(ParserFor(d, settings), settings);
    forall k | 0 <= k < |settings| && c[k].Value? ensures InLimits(c[k].value) {
      ContributionInLimits(d, settings, k);
    }
    ListInLimits(c, StopFrom(c, 0));
    assert forall i | 0 <= i < |m.actions| :: InLimits(m.actions[i]);
  }

  lemma InitialiseEffect(image: Bytes, a: Action, b: Action)
    requires |image| <= UINT16
    requires a.statusByte < |image| && a.resetByte < |image| && a.resetBit < 8
    requires b.statusByte < |image| && b.resetByte < |image| && b.resetBit < 8
    requires a.statusByte != b.resetByte && b.statusByte != a.resetByte
    ensures Initialise(image, a)[b.statusByte] == if b.statusByte == a.statusByte then 0 else image[b.statusByte]
    ensures Bit(Initialise(image, a), b.resetByte, b.resetBit) ==
            (Bit(image, b.resetByte, b.resetBit) && (b.resetByte, b.resetBit) != (a.resetByte, a.resetBit))
  {
    PutBitThenBit(image, a.resetByte, a.resetBit, false, b.resetByte, b.resetBit);
  }

  /** Parsing leaves every status byte at zero and no reset pending. */
  lemma InitialisedQuiet(image: Bytes, m: Master)
    requires Separate(Channels(m), |image|)
    ensures forall i | 0 <= i < |m.actions| :: IsQuiet(InitialiseAll(image, m.actions), m.actions[i])
  {
    var list := m.actions;
    assert forall i | 0 <= i < |list| :: Channels(m)[i] == ChannelOf(list[i]);
    for i := |list| downto 0
      invariant forall j | i <= j < |list| :: IsQuiet(InitialiseAll(image, list[i..]), list[j])
    {
      var before := InitialiseAll(image, list[i + 1..]);
      assert list[i..][1..] == list[i + 1..];
      forall j | i <= j < |list| ensures IsQuiet(Initialise(before, list[i]), list[j]) {
        InitialiseEffect(before, list[i], list[j]);
      }
    }
    assert list[0..] == list;
  }

  predicate IsQuiet(image: Bytes, a: Action) {
    a.statusByte < |image| && image[a.statusByte] == 0 && !Bit(image, a.resetByte, a.resetBit)
  }
}
