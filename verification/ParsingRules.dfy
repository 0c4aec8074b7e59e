/** The rules by which an action is accepted or passed over, and by which parsing ends, as a table; and
    what follows from them for the whole list. */
module ParsingRules {
  import opened ActionLists
  import opened ConfigKeys
  import opened ModbusConfig
  import opened ParsingErrors

  // ---------- the numeric fields ----------

  /** A numeric field: its name, the error if its number is out of range, and the numbers it may have. */
  datatype Rule = Rule(field: string, error: ParsingError, low: nat, high: nat)

  /** The fields in the order in which they are read. */
  const RULES: seq<Rule> := [
    Rule("ActionId", ACTION_ID_WRONG_FORMAT, 1, 0x7FFF_FFFE),
    Rule("SlaveAddress", ACTION_ADDRESS_WRONG_FORMAT, 0, 0xFFFF_FFFF),
    Rule("FunctionCode", ACTION_FUNCTION_CODE_WRONG_FORMAT, 1, 0x16),
    Rule("RegisterAddress", ACTION_REGISTER_ADDRESS_WRONG_FORMAT, 1, 0xFFFF),
    Rule("QuantityOfRegisters", ACTION_REGISTER_QUANTITY_WRONG_FORMAT, 1, 256),
    Rule("ActionInterval", ACTION_INTERVALL_WRONG_FORMAT, 1, 1_800_000)]

  /** A number as it is kept, in 32 bits. */
  function Kept(text: Text): nat
    requires text.number.Some?
  {
    text.number.value % 0x1_0000_0000
  }

  predicate Passes(r: Rule, field: Parsed<Text>) {
    field.Value? && field.value.number.Some? && r.low <= Kept(field.value) <= r.high
  }

  predicate Missing(field: Parsed<Text>) {
    field.Skip?
  }

  predicate OutOfRange(field: Parsed<Text>) {
    field.Value? && field.value.number.None?
  }

  /** The numeric fields of an identifier, in the order of the rules. */
  function Numbers(t: Texts): (n: seq<Parsed<Text>>)
    ensures |n| == 6
  {
    [t.actionId, t.slaveAddress, t.functionCode, t.register, t.count, t.interval]
  }

  /** They are looked up under the names in the rules, and the variables under theirs. */
  lemma NamesOfTexts(settings: Settings, id: Option<string>)
    ensures var t := TextsOf(settings, id);
            && (forall i | 0 <= i < 6 :: Numbers(t)[i] == FieldText(settings, RULES[i].field, id))
            && t.data == FieldText(settings, "DeviceValue", id)
            && t.status == FieldText(settings, "ModbusActionStatus", id)
            && t.reset == FieldText(settings, "ActionStatusReset", id)
  {
    var t := TextsOf(settings, id);
    assert Numbers(t)[0] == FieldText(settings, "ActionId", id);
    assert Numbers(t)[1] == FieldText(settings, "SlaveAddress", id);
    assert Numbers(t)[2] == FieldText(settings, "FunctionCode", id);
    assert Numbers(t)[3] == FieldText(settings, "RegisterAddress", id);
    assert Numbers(t)[4] == FieldText(settings, "QuantityOfRegisters", id);
    assert Numbers(t)[5] == FieldText(settings, "ActionInterval", id);
  }

  predicate AllPass(n: seq<Parsed<Text>>)
    requires |n| == 6
  {
    forall i | 0 <= i < 6 :: Passes(RULES[i], n[i])
  }

  /** The i-th field is the first that does not pass. */
  predicate Decides(n: seq<Parsed<Text>>, i: nat)
    requires |n| == 6
  {
    i < 6 && !Passes(RULES[i], n[i]) && forall j | 0 <= j < i :: Passes(RULES[j], n[j])
  }

  lemma FirstDecides(n: seq<Parsed<Text>>) returns (i: nat)
    requires |n| == 6
    ensures AllPass(n) || Decides(n, i)
  {
    i := 0;
    while i < 6 && Passes(RULES[i], n[i])
      invariant i <= 6
      invariant forall j | 0 <= j < i :: Passes(RULES[j], n[j])
    {
      i := i + 1;
    }
  }

  /** If all fields pass, these are the numbers of the action; milliseconds have become microseconds. */
  lemma CommandOfRules(t: Texts)
    requires AllPass(Numbers(t))
    ensures var n := Numbers(t);
            && (forall i | 0 <= i < 6 :: n[i].Value? && n[i].value.number.Some?)
            && CommandFrom(t) ==
               Value(Command(Kept(n[0].value) % 0x1_0000, Kept(n[1].value) % 0x100, Kept(n[2].value),
                             Kept(n[3].value), Kept(n[4].value), 1000 * Kept(n[5].value)))
  {
    var n := Numbers(t);
    assert Passes(RULES[0], n[0]) && Passes(RULES[1], n[1]) && Passes(RULES[2], n[2]);
    assert Passes(RULES[3], n[3]) && Passes(RULES[4], n[4]) && Passes(RULES[5], n[5]);
  }

  /** A field is found, or it is missing. */
  predicate Looked(field: Parsed<Text>) {
    field.Value? || field.Skip?
  }

  lemma FieldIsLooked(settings: Settings, field: string, id: Option<string>)
    ensures Looked(FieldText(settings, field, id))
  {}

  /** What becomes of an action by the field that decides. */
  function Verdict(r: Rule, field: Parsed<Text>): Parsed<Command> {
    if Missing(field) then Skip else if OutOfRange(field) then Failed(r.error) else Abort
  }

  lemma FirstRuleDecides(t: Texts, i: nat)
    requires Decides(Numbers(t), i) && Looked(Numbers(t)[i])
    ensures CommandFrom(t) == Verdict(RULES[i], Numbers(t)[i])
  {
    var n := Numbers(t);
    assert i == 0 || i == 1 || i == 2 || i == 3 || i == 4 || i == 5;
    assert i > 0 ==> Passes(RULES[0], n[0]);
    assert i > 1 ==> Passes(RULES[1], n[1]);
    assert i > 2 ==> Passes(RULES[2], n[2]);
    assert i > 3 ==> Passes(RULES[3], n[3]);
    assert i > 4 ==> Passes(RULES[4], n[4]);
  }

  /** Of several keys that begin with a field's name and the identifier the first one counts, even if its
      value is null. */
  lemma FirstKeyCounts(settings: Settings, field: string, x: string, i: nat)
    requires i < |settings| && field + x <= settings[i].key
    requires forall j | 0 <= j < i :: !(field + x <= settings[j].key)
    ensures FieldText(settings, field, Some(x)) ==
            if settings[i].value.Some? then Value(settings[i].value.value) else Skip
  {
    FirstNamedIsFirst(settings, field + x);
    var k := FirstNamed(settings, field + x);
    assert k == Some(i);
  }

  // ---------- the variables ----------

  predicate Located(d: Device, field: Parsed<Text>) {
    field.Value? && LocationOf(d, field.value.chars).Value?
  }

  predicate AllLocated(d: Device, t: Texts) {
    Located(d, t.data) && Located(d, t.status) && Located(d, t.reset)
  }

  /** Once the numbers are accepted, a variable that is not named or not located makes the action be
      passed over, whatever the reason; it never ends parsing. */
  lemma VariablesDecide(d: Device, t: Texts)
    requires CommandFrom(t).Value?
    requires Looked(t.data) && Looked(t.status) && Looked(t.reset)
    ensures if AllLocated(d, t) then ActionFrom(d, t).Value? else ActionFrom(d, t) == Skip
  {}

  /** Where the parts of an accepted action come from. */
  lemma PlacesOfAction(d: Device, t: Texts)
    requires CommandFrom(t).Value? && AllLocated(d, t)
    ensures ActionFrom(d, t).Value?
    ensures var (a, c) := (ActionFrom(d, t).value, CommandFrom(t).value);
            && c == Command(a.actionId, a.slaveAddress, a.functionCode, a.startRegister, a.registerCount, a.interval_us)
            && Location(a.startByte, a.startBit)
               == Normalised(a.functionCode, LocationOf(d, t.data.value.chars).value)
            && a.statusByte == LocationOf(d, t.status.value.chars).value.byte
            && a.resetByte == LocationOf(d, t.reset.value.chars).value.byte
            && a.resetBit == LocationOf(d, t.reset.value.chars).value.bit % 256
  {}

  // ---------- what becomes of an action ----------

  predicate EndsByField(n: seq<Parsed<Text>>, i: nat, e: ParsingError)
    requires |n| == 6
  {
    Decides(n, i) && OutOfRange(n[i]) && e == RULES[i].error
  }

  predicate MissingField(n: seq<Parsed<Text>>, i: nat)
    requires |n| == 6
  {
    Decides(n, i) && Missing(n[i])
  }

  predicate RefusedField(n: seq<Parsed<Text>>, i: nat)
    requires |n| == 6
  {
    Decides(n, i) && !Missing(n[i]) && !OutOfRange(n[i])
  }

  /** An action ends parsing exactly if the first numeric field that does not pass is out of range, with
      the error that belongs to it; it ends the program exactly if that field has a number it may not
      have; it is passed over exactly if that field is missing, or all pass and a variable is not located;
      and it is accepted exactly if all pass and all variables are located. */
  lemma FateOfAction(d: Device, settings: Settings, id: Option<string>, e: ParsingError)
    ensures var (t, a) := (TextsOf(settings, id), ActionFor(d, settings, id));
            var n := Numbers(t);
            && (a == Failed(e) <==> exists i :: EndsByField(n, i, e))
            && (a == Abort <==> exists i :: RefusedField(n, i))
            && (a == Skip <==> (exists i :: MissingField(n, i)) || (AllPass(n) && !AllLocated(d, t)))
            && (a.Value? <==> AllPass(n) && AllLocated(d, t))
  {
    var t := TextsOf(settings, id);
    var n := Numbers(t);
    TextsAreLooked(settings, id);
    var i := FirstDecides(n);
    OneDecides(n);
    if AllPass(n) {
      CommandOfRules(t);
      VariablesDecide(d, t);
    } else {
      assert Looked(n[i]);
      FirstRuleDecides(t, i);
      assert EndsByField(n, i, RULES[i].error) || RefusedField(n, i) || MissingField(n, i);
    }
  }

  lemma TextsAreLooked(settings: Settings, id: Option<string>)
    ensures var t := TextsOf(settings, id);
            && (forall i | 0 <= i < 6 :: Looked(Numbers(t)[i]))
            && Looked(t.data) && Looked(t.status) && Looked(t.reset)
  {}

  lemma OneDecides(n: seq<Parsed<Text>>)
    requires |n| == 6
    ensures forall i, j | Decides(n, i) && Decides(n, j) :: i == j
    ensures AllPass(n) ==> forall i :: !Decides(n, i)
  {}

  // ---------- locations ----------

  /** Both offsets of the first variable of a name can be read. */
  predicate Complete(section: seq<Variable>, name: string) {
    var v := FirstVariable(section, name);
    v.Some? && v.value.byteOffset.Some? && v.value.bitOffset.Some?
  }

  /** Of several variables of a name the first one counts. */
  lemma {:induction false} FirstVariableCounts(section: seq<Variable>, name: string, i: nat)
    requires i < |section| && section[i].Variable? && section[i].name == name
    requires forall j | 0 <= j < i :: section[j].NotAnArray? || section[j].name != name
    ensures FirstVariable(section, name) == Some(section[i])
  {
    if i > 0 {
      FirstVariableCounts(section[1..], name, i - 1);
    }
  }

  /** The reasons for which a variable is not located, in the order in which they are found. */
  lemma LocationFails(d: Device, name: string)
    ensures d.offset.None? ==> LocationOf(d, name) == Failed(OFFSET_POSITION_PARAMETER_NOT_FOUND)
    ensures d.offset.Some? && d.offset.value < 0 ==> LocationOf(d, name) == Skip
    ensures d.offset.Some? && d.offset.value >= 0 ==>
              if d.inp.None? then LocationOf(d, name) == Failed(INPUT_PARAMETER_SECTION_NOT_FOUND)
              else if d.out.None? then LocationOf(d, name) == Failed(OUTPUT_PARAMETER_SECTION_NOT_FOUND)
              else if Complete(d.inp.value, name) || Complete(d.out.value, name) then LocationOf(d, name).Value?
              else LocationOf(d, name) == Failed(GENERAL_EXCEPTION)
  {}

  predicate Sections(d: Device) {
    d.offset.Some? && 0 <= d.offset.value && d.inp.Some? && d.out.Some?
  }

  /** A variable in the second section wins; if only its byte offset can be read, that is combined with
      the bit offset of the first section's variable. */
  lemma SecondSectionWins(d: Device, name: string)
    requires Sections(d)
    ensures Complete(d.out.value, name) ==>
              var v := FirstVariable(d.out.value, name).value;
              LocationOf(d, name) ==
              Value(Location((v.byteOffset.value % 0x1_0000_0000 + d.offset.value) % 0x1_0000_0000,
                             v.bitOffset.value % 0x1_0000_0000))
    ensures Complete(d.inp.value, name) && !Complete(d.out.value, name) ==>
              var v := FirstVariable(d.inp.value, name).value;
              var w := FirstVariable(d.out.value, name);
              var byte := if w.Some? && w.value.byteOffset.Some? then w.value.byteOffset.value else v.byteOffset.value;
              LocationOf(d, name) ==
              Value(Location((byte % 0x1_0000_0000 + d.offset.value) % 0x1_0000_0000,
                             v.bitOffset.value % 0x1_0000_0000))
  {}

  // ---------- the whole list ----------

  /** A key contributes the action of its identifier if it begins like an action id and has one. */
  lemma KeyContributes(d: Device, settings: Settings, k: nat)
    requires k < |settings|
    ensures var key := settings[k].key;
            Contributions(ParserFor(d, settings), settings)[k] ==
            if "ActionId" <= key && IdentifierOf(key).Some? then ActionFor(d, settings, IdentifierOf(key)) else Skip
  {}

  lemma {:induction false} StopIsFirst(c: seq<Parsed<Action>>, n: nat)
    requires n <= |c|
    ensures forall i | n <= i < StopFrom(c, n) :: !c[i].Failed? && !c[i].Abort?
    ensures StopFrom(c, n) < |c| ==> c[StopFrom(c, n)].Failed? || c[StopFrom(c, n)].Abort?
    decreases |c| - n
  {
    if n < |c| && !Ends(c[n]) {
      StopIsFirst(c, n + 1);
    }
  }

  /** The list holds the actions accepted among the first n keys, once each, the last one first. */
  predicate Reverses(c: seq<Parsed<Action>>, n: nat, list: seq<Action>)
    requires n <= |c|
  {
    var keys := AcceptedAt(c, n);
    |list| == |keys| && forall i | 0 <= i < |list| ::
      keys[|keys| - 1 - i] < n && Value(list[i]) == c[keys[|keys| - 1 - i]]
  }

  /** The k-th key is the first one that ends parsing. */
  predicate EndedBy(c: seq<Parsed<Action>>, k: nat, r: Parsed<nat>, list: seq<Action>)
    requires k < |c|
  {
    && (c[k].Failed? || c[k].Abort?) && (forall i | 0 <= i < k :: !c[i].Failed? && !c[i].Abort?)
    && r == (if c[k].Abort? then Abort else Failed(c[k].error))
    && Reverses(c, k, list)
  }

  /** Parsing succeeds exactly if no key ends it, with the length of the list of all accepted actions;
      otherwise with the failure of the first key that does, after the actions accepted before it. */
  lemma OutcomeMeans(c: seq<Parsed<Action>>, r: Parsed<nat>, list: seq<Action>)
    requires IsOutcome(c, r, list)
    ensures r.Value? <==> forall k | 0 <= k < |c| :: !c[k].Failed? && !c[k].Abort?
    ensures r.Value? ==> r.value == |list| && Reverses(c, |c|, list)
    ensures !r.Value? ==> exists k | 0 <= k < |c| :: EndedBy(c, k, r, list)
  {
    var n := StopFrom(c, 0);
    StopIsFirst(c, 0);
    ListReversesKeys(c, n);
    assert n < |c| ==> EndedBy(c, n, r, list);
  }

  function Without(c: seq<Parsed<Action>>, k: nat): (r: seq<Parsed<Action>>)
    requires k < |c|
    ensures |r| == |c| - 1
    ensures forall i | 0 <= i < |r| :: r[i] == if i < k then c[i] else c[i + 1]
  {
    c[..k] + c[k + 1..]
  }

  lemma {:induction false} ListWithout(c: seq<Parsed<Action>>, k: nat, n: nat)
    requires k < |c| && c[k].Skip? && n < |c|
    ensures n <= k ==> ListOf(Without(c, k), n) == ListOf(c, n)
    ensures k <= n ==> ListOf(Without(c, k), n) == ListOf(c, n + 1)
  {
    if n > 0 {
      ListWithout(c, k, n - 1);
    }
  }

  lemma {:induction false} StopWithout(c: seq<Parsed<Action>>, k: nat, n: nat)
    requires k < |c| && c[k].Skip? && n < |c|
    ensures var s := StopFrom(Without(c, k), n);
            StopFrom(c, if n <= k then n else n + 1) == if s < k then s else s + 1
    decreases |c| - n
  {
    var d := Without(c, k);
    if n < |d| && !Ends(d[n]) {
      StopWithout(c, k, n + 1);
    }
  }

  /** A key that is passed over makes no difference: the outcome is that of all others. */
  lemma SkippedKeyIsIgnored(c: seq<Parsed<Action>>, k: nat, r: Parsed<nat>, list: seq<Action>)
    requires k < |c| && c[k].Skip?
    ensures IsOutcome(c, r, list) <==> IsOutcome(Without(c, k), r, list)
  {
    var d := Without(c, k);
    var s := StopFrom(d, 0);
    StopWithout(c, k, 0);
    ListWithout(c, k, s);
  }
}
