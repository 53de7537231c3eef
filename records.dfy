/** Records and the row serializer: a row's named inputs become a record
    (field name to trimmed value), and a record is "empty" when it agrees with
    the template's defaults. */
module Records {

  /** A named input of a row, with its current value. */
  datatype Field = Field(name: string, value: string)

  /** A record: field name to value. */
  type Record = map<string, string>

  /** The characters String.prototype.trim removes: the ECMAScript white space
      and line terminators. */
  predicate IsSpace(c: char)
  {
    || c == '\t' || c == '\n' || c == '\U{B}' || c == '\U{C}' || c == '\r' || c == ' '
    || c == '\U{A0}' || c == '\U{1680}' || ('\U{2000}' <= c <= '\U{200A}')
    || c == '\U{2028}' || c == '\U{2029}' || c == '\U{202F}' || c == '\U{205F}'
    || c == '\U{3000}' || c == '\U{FEFF}'
  }

  /** Drops the leading white space. */
  function TrimStart(s: string): string
  {
    if s != [] && IsSpace(s[0]) then TrimStart(s[1..]) else s
  }

  /** Drops the trailing white space. */
  function TrimEnd(s: string): string
  {
    if s != [] && IsSpace(s[|s| - 1]) then TrimEnd(s[..|s| - 1]) else s
  }

  /** TrimStart keeps a suffix, cut only at white space, that does not start
      with white space. */
  lemma {:induction false} TrimStartSpec(s: string)
    ensures |TrimStart(s)| <= |s| && TrimStart(s) == s[|s| - |TrimStart(s)|..]
    ensures forall i :: 0 <= i < |s| - |TrimStart(s)| ==> IsSpace(s[i])
    ensures TrimStart(s) != [] ==> !IsSpace(TrimStart(s)[0])
  {
    if s != [] && IsSpace(s[0]) {
      TrimStartSpec(s[1..]);
      forall i | 1 <= i < |s| - |TrimStart(s)| ensures IsSpace(s[i]) {
        assert s[i] == s[1..][i - 1];
      }
    }
  }

  /** TrimEnd keeps a prefix, cut only at white space, that does not end with
      white space. */
  lemma {:induction false} TrimEndSpec(s: string)
    ensures |TrimEnd(s)| <= |s| && TrimEnd(s) == s[..|TrimEnd(s)|]
    ensures forall i :: |TrimEnd(s)| <= i < |s| ==> IsSpace(s[i])
    ensures TrimEnd(s) != [] ==> !IsSpace(TrimEnd(s)[|TrimEnd(s)| - 1])
  {
    if s != [] && IsSpace(s[|s| - 1]) {
      TrimEndSpec(s[..|s| - 1]);
      forall i | |TrimEnd(s)| <= i < |s| - 1 ensures IsSpace(s[i]) {
        assert s[i] == s[..|s| - 1][i];
      }
    }
  }

  /** String.prototype.trim. */
  function Trim(s: string): string
  {
    TrimEnd(TrimStart(s))
  }

  /** Trimming keeps the piece s[a..a + |Trim(s)|] of the input, cut only at
      white space, with no white space left at either end; trimming again
      changes nothing. */
  lemma TrimSpec(s: string) returns (a: nat)
    ensures a + |Trim(s)| <= |s| && Trim(s) == s[a..a + |Trim(s)|]
    ensures forall i :: 0 <= i < a ==> IsSpace(s[i])
    ensures forall i :: a + |Trim(s)| <= i < |s| ==> IsSpace(s[i])
    ensures Trim(s) != [] ==> !IsSpace(Trim(s)[0]) && !IsSpace(Trim(s)[|Trim(s)| - 1])
    ensures Trim(Trim(s)) == Trim(s)
  {
    var u := TrimStart(s);
    var t := TrimEnd(u);
    TrimStartSpec(s);
    TrimEndSpec(u);
    a := |s| - |u|;
    forall i | a + |t| <= i < |s| ensures IsSpace(s[i]) {
      assert s[i] == u[i - a];
    }
    if t != [] {
      assert t[0] == u[0];
    }
    TrimEndSpec(t);
    assert TrimStart(t) == t;
  }

  /** The set of names of a row's inputs. */
  function Names(fields: seq<Field>): set<string>
  {
    set k | 0 <= k < |fields| :: fields[k].name
  }

  /** serializeRow's loop over the named inputs: each input sets its name to
      its trimmed value, so a later input with the same name wins. */
  function Serialized(fields: seq<Field>): Record
  {
    if fields == [] then map[]
    else Serialized(fields[..|fields| - 1])[fields[|fields| - 1].name := Trim(fields[|fields| - 1].value)]
  }

  /** The serialization has exactly one key per input name. */
  lemma {:induction false} SerializedKeys(fields: seq<Field>)
    ensures Serialized(fields).Keys == Names(fields)
  {
    if fields != [] {
      var n := |fields| - 1;
      var init := fields[..n];
      SerializedKeys(init);
      assert Names(fields) == Names(init) + {fields[n].name} by {
        NamesSnoc(init, fields[n]);
        assert init + [fields[n]] == fields;
      }
    }
  }

  lemma NamesSnoc(init: seq<Field>, last: Field)
    ensures Names(init + [last]) == Names(init) + {last.name}
  {
    var fields := init + [last];
    forall x | x in Names(fields) ensures x in Names(init) + {last.name} {
      var k :| 0 <= k < |fields| && fields[k].name == x;
      if k < |init| {
        assert init[k] == fields[k];
      }
    }
    forall x | x in Names(init) ensures x in Names(fields) {
      var k :| 0 <= k < |init| && init[k].name == x;
      assert fields[k] == init[k];
    }
    assert fields[|init|] == last;
  }

  /** Each name holds the trimmed value of the last input carrying it. */
  lemma {:induction false} SerializedValues(fields: seq<Field>, k: nat)
    requires k < |fields|
    requires forall l :: k < l < |fields| ==> fields[l].name != fields[k].name
    ensures fields[k].name in Serialized(fields)
    ensures Serialized(fields)[fields[k].name] == Trim(fields[k].value)
  {
    var n := |fields| - 1;
    if k < n {
      var init := fields[..n];
      assert init[k] == fields[k];
      SerializedValues(init, k);
    }
  }

  /** serializeRow's `.each` loop, building the record input by input. */
  method BuildRecord(fields: seq<Field>) returns (r: Record)
    ensures r == Serialized(fields)
  {
    r := map[];
    for k := 0 to |fields|
      invariant r == Serialized(fields[..k])
    {
      var prefix := fields[..k + 1];
      assert prefix[..|prefix| - 1] == fields[..k] && prefix[|prefix| - 1] == fields[k];
      r := r[fields[k].name := Trim(fields[k].value)];
    }
    assert fields[..|fields|] == fields;
  }

  /** isEmptyRow's test: every default key is present in the record with
      exactly the default value; keys only in the record do not matter. */
  ghost predicate IsEmptyRecord(defaults: Record, r: Record)
  {
    forall k :: k in defaults ==> k in r && r[k] == defaults[k]
  }

  /** isEmptyRow's `for ... in defaultValues` loop, returning false at the
      first default the record does not match. */
  method MatchesDefaults(defaults: Record, r: Record) returns (empty: bool)
    ensures empty <==> IsEmptyRecord(defaults, r)
  {
    var todo := defaults.Keys;
    while todo != {}
      invariant todo <= defaults.Keys
      invariant forall k :: k in defaults && k !in todo ==> k in r && r[k] == defaults[k]
      decreases todo
    {
      var k :| k in todo;
      if k !in r || r[k] != defaults[k] {
        return false;
      }
      todo := todo - {k};
    }
    return true;
  }

  /** Emptiness is exact match: moving one default field away from its default
      makes a record non-empty, a missing default key makes it non-empty, and
      putting the default back (or adding a key the defaults do not have)
      leaves an empty record empty. */
  lemma EmptinessIsExactMatch(defaults: Record, r: Record, k: string, v: string)
    requires IsEmptyRecord(defaults, r)
    ensures k in defaults && v != defaults[k] ==> !IsEmptyRecord(defaults, r[k := v])
    ensures k in defaults ==> !IsEmptyRecord(defaults, map n | n in r && n != k :: r[n])
    ensures k in defaults ==> IsEmptyRecord(defaults, r[k := v][k := defaults[k]])
    ensures k !in defaults ==> IsEmptyRecord(defaults, r[k := v])
  {
  }

  /** addRow's value for an input: `record[name] || ''`. */
  function ValueFor(record: Record, name: string): string
  {
    if name in record then record[name] else ""
  }

  /** The inputs of a template clone filled from a record. */
  function PopulatedFields(template: seq<Field>, record: Record): seq<Field>
  {
    seq(|template|, k requires 0 <= k < |template| => Field(template[k].name, ValueFor(record, template[k].name)))
  }

  /** addRow's `.each` loop over the clone's named inputs. */
  method FillFields(template: seq<Field>, record: Record) returns (fields: seq<Field>)
    ensures |fields| == |template|
    ensures forall k :: 0 <= k < |template| ==>
              fields[k].name == template[k].name && fields[k].value == ValueFor(record, template[k].name)
  {
    fields := template;
    for k := 0 to |template|
      invariant |fields| == |template|
      invariant forall l :: 0 <= l < |template| ==> fields[l].name == template[l].name
      invariant forall l :: 0 <= l < k ==> fields[l].value == ValueFor(record, template[l].name)
    {
      fields := fields[k := fields[k].(value := ValueFor(record, fields[k].name))];
    }
  }

  /** The position of the last input called `name`, or -1 if there is none. */
  function LastIndexOf(fields: seq<Field>, name: string): (k: int)
    ensures -1 <= k < |fields|
    ensures k >= 0 ==> fields[k].name == name
    ensures forall l :: k < l < |fields| ==> fields[l].name != name
    ensures k == -1 <==> name !in Names(fields)
  {
    if fields == [] then -1
    else if fields[|fields| - 1].name == name then |fields| - 1
    else
      NamesSnoc(fields[..|fields| - 1], fields[|fields| - 1]);
      assert fields[..|fields| - 1] + [fields[|fields| - 1]] == fields;
      LastIndexOf(fields[..|fields| - 1], name)
  }

  /** Re-reading the inputs of a populated row gives back, for every template
      name, the trimmed value the record supplied (or "" where it had none). */
  lemma PopulatedRoundTrip(template: seq<Field>, record: Record)
    ensures var r := Serialized(PopulatedFields(template, record));
      && r.Keys == Names(template)
      && forall n :: n in r ==> r[n] == Trim(ValueFor(record, n))
  {
    var fields := PopulatedFields(template, record);
    var r := Serialized(fields);
    assert Names(fields) == Names(template) by {
      forall n | n in Names(template) ensures n in Names(fields) {
        var k :| 0 <= k < |template| && template[k].name == n;
        assert fields[k].name == n;
      }
    }
    SerializedKeys(fields);
    forall n | n in r ensures r[n] == Trim(ValueFor(record, n)) {
      var k := LastIndexOf(fields, n);
      SerializedValues(fields, k);
    }
  }
}
