/** The keys of the configuration. A key names a field of an action: the field's own name, then the
    identifier of the action between two underscores, then anything. */
module ConfigKeys {

  datatype Option<T> = None | Some(value: T)

  predicate Plain(s: string) {
    '_' !in s
  }

  /** What the pattern _([^_]+)_ matches. */
  predicate Identifier(x: string) {
    |x| >= 3 && x[0] == '_' && x[|x| - 1] == '_' && Plain(x[1..|x| - 1])
  }

  /** An identifier is at least one character other than an underscore, between two underscores. */
  lemma IdentifierShape(inner: string)
    ensures Identifier("_" + inner + "_") <==> inner != "" && '_' !in inner
  {
    var x := "_" + inner + "_";
    assert x[1..|x| - 1] == inner;
  }

  predicate MatchAt(key: string, from: nat, to: nat) {
    from <= to <= |key| && Identifier(key[from..to])
  }

  /** The next underscore, or the end of the key. */
  function NextUnderscore(key: string, from: nat): (i: nat)
    requires from <= |key|
    ensures from <= i <= |key|
    ensures Plain(key[from..i])
    ensures i < |key| ==> key[i] == '_'
    decreases |key| - from
  {
    if from == |key| || key[from] == '_' then from
    else
      var i := NextUnderscore(key, from + 1);
      assert key[from..i] == [key[from]] + key[from + 1..i];
      i
  }

  /** The leftmost match at or after a position. */
  function FirstMatch(key: string, from: nat): (r: Option<(nat, nat)>)
    requires from <= |key|
    ensures r.Some? ==> from <= r.value.0 && MatchAt(key, r.value.0, r.value.1)
    ensures r.Some? ==> forall i, j | from <= i < r.value.0 :: !MatchAt(key, i, j)
    ensures r.None? ==> forall i, j | from <= i :: !MatchAt(key, i, j)
    decreases |key| - from
  {
    var i := NextUnderscore(key, from);
    NoMatchBefore(key, from, i);
    if i == |key| then None
    else
      var j := NextUnderscore(key, i + 1);
      if j < |key| && i + 1 < j then
        MatchMade(key, i, j);
        Some((i, j + 1))
      else
        NoMatchAt(key, i, j);
        FirstMatch(key, i + 1)
  }

  lemma MatchMade(key: string, i: nat, j: nat)
    requires i + 1 < j < |key| && key[i] == '_' && key[j] == '_' && Plain(key[i + 1..j])
    ensures MatchAt(key, i, j + 1)
  {
    var inner := key[i..j + 1][1..j - i];
    assert forall h | 0 <= h < |inner| :: inner[h] == key[i + 1..j][h];
  }

  lemma NoMatchBefore(key: string, from: nat, i: nat)
    requires from <= i <= |key| && Plain(key[from..i])
    ensures forall h, j | from <= h < i :: !MatchAt(key, h, j)
  {
    forall h, j | from <= h < i && h < j <= |key| ensures key[h..j][0] != '_' {
      assert key[from..i][h - from] == key[h];
    }
  }

  lemma NoMatchAt(key: string, i: nat, j: nat)
    requires i < j <= |key| && Plain(key[i + 1..j])
    requires j == |key| || (key[j] == '_' && j == i + 1)
    ensures forall k :: !MatchAt(key, i, k)
  {
    forall k | i <= k <= |key| ensures !Identifier(key[i..k]) {
      if k >= i + 3 {
        var x := key[i..k];
        if j == |key| {
          assert x[|x| - 1] == key[i + 1..j][k - i - 2];
        } else {
          assert x[1..|x| - 1][0] == key[j];
        }
      }
    }
  }

  /** The identifier of the action that a key belongs to. */
  function IdentifierOf(key: string): (x: Option<string>)
    ensures x.Some? ==> Identifier(x.value)
  {
    var m := FirstMatch(key, 0);
    if m.Some? then Some(key[m.value.0..m.value.1]) else None
  }

  /** A key made of a field name without underscores and an identifier has that identifier. */
  lemma IdentifierOfField(key: string, field: string, x: string)
    requires Plain(field) && Identifier(x) && field + x <= key
    ensures IdentifierOf(key) == Some(x)
  {
    var from, to := |field|, |field| + |x|;
    assert key[..to] == field + x;
    assert key[..from] == field && key[from..to] == x;
    assert MatchAt(key, from, to);
    NoMatchBefore(key, 0, from) by {
      assert key[0..from] == field;
    }
    var m := FirstMatch(key, 0).value;
    assert m.0 == from;
    OneMatch(key, from, to, m.1);
  }

  lemma OneMatch(key: string, from: nat, to: nat, to': nat)
    requires MatchAt(key, from, to) && MatchAt(key, from, to')
    ensures to == to'
  {
    MatchShape(key, from, to);
    MatchShape(key, from, to');
  }

  lemma MatchShape(key: string, from: nat, to: nat)
    requires MatchAt(key, from, to)
    ensures from + 3 <= to && key[from] == '_' && key[to - 1] == '_'
    ensures forall h | from < h < to - 1 :: key[h] != '_'
  {
    var x := key[from..to];
    forall h | from < h < to - 1 ensures key[h] != '_' {
      assert x[1..|x| - 1][h - from - 1] == key[h];
    }
  }

  /** Grouping is unambiguous: whatever follows, a key belongs to one field of one action. */
  lemma OneFieldOfOneAction(key: string, field: string, x: string, field': string, x': string)
    requires Plain(field) && Identifier(x) && field + x <= key
    requires Plain(field') && Identifier(x') && field' + x' <= key
    ensures field == field' && x == x'
  {
    IdentifierOfField(key, field, x);
    IdentifierOfField(key, field', x');
    SamePrefix(key, field, x, field');
    SamePrefix(key, field', x, field);
    assert key[..|field|] == field && key[..|field'|] == field';
  }

  lemma SamePrefix(key: string, field: string, x: string, field': string)
    requires Identifier(x) && field + x <= key
    requires Plain(field') && field' <= key
    ensures |field'| <= |field|
  {
    assert key[|field|] == (field + x)[|field|] == '_';
    assert forall h | 0 <= h < |field'| :: key[h] == field'[h] != '_';
  }

  // ---------- lookup ----------

  datatype Setting<V> = Setting(key: string, value: V)

  /** The first setting whose key starts with a name. */
  function FirstNamed<V>(settings: seq<Setting<V>>, name: string): Option<nat> {
    if settings == [] then None
    else if name <= settings[0].key then Some(0)
    else
      match FirstNamed(settings[1..], name)
      case None => None
      case Some(i) => Some(i + 1)
  }

  lemma {:induction false} FirstNamedIsFirst<V>(settings: seq<Setting<V>>, name: string)
    ensures match FirstNamed(settings, name)
            case None => forall j | 0 <= j < |settings| :: !(name <= settings[j].key)
            case Some(i) =>
              i < |settings| && name <= settings[i].key && forall j | 0 <= j < i :: !(name <= settings[j].key)
  {
    if settings != [] && !(name <= settings[0].key) {
      var rest := settings[1..];
      FirstNamedIsFirst(rest, name);
      assert forall j | 1 <= j < |settings| :: settings[j] == rest[j - 1];
    }
  }

  /** Where a field of an action is found; without an identifier nothing is. */
  function FindField<V>(settings: seq<Setting<V>>, field: string, id: Option<string>): Option<nat> {
    if id.None? then None else FirstNamed(settings, field + id.value)
  }

  method MatchingField<V>(settings: seq<Setting<V>>, field: string, id: Option<string>) returns (r: Option<nat>)
    ensures r == FindField(settings, field, id)
    ensures r.Some? ==> r.value < |settings|
  {
    if id.Some? {
      FirstNamedIsFirst(settings, field + id.value);
    }
    if id.None? {
      return None;
    }
    for i := 0 to |settings|
      invariant forall j | 0 <= j < i :: !(field + id.value <= settings[j].key)
    {
      if field + id.value <= settings[i].key {
        return Some(i);
      }
    }
    return None;
  }

  /** A lookup never returns a key of another action, nor of another field. */
  lemma FoundFieldIsOwn<V>(settings: seq<Setting<V>>, field: string, x: string, field': string, x': string)
    requires Plain(field) && Identifier(x) && FindField(settings, field, Some(x)).Some?
    requires Plain(field') && Identifier(x')
    ensures var i := FindField(settings, field, Some(x)).value;
            && i < |settings|
            && IdentifierOf(settings[i].key) == Some(x)
            && (field' + x' <= settings[i].key ==> field' == field && x' == x)
  {
    FirstNamedIsFirst(settings, field + x);
    var key := settings[FindField(settings, field, Some(x)).value].key;
    IdentifierOfField(key, field, x);
    if field' + x' <= key {
      OneFieldOfOneAction(key, field, x, field', x');
    }
  }
}
