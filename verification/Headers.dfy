/** Header multimaps: per name, the values in arrival order. The relative order
    of different names carries no meaning and none is modelled. */
module Headers {
  import opened Common
  import opened HttpText

  /** A name is a key only while it has at least one value. */
  type HeaderMap = map<string, seq<string>>

  function Values(h: HeaderMap, name: string): seq<string>
  {
    if name in h then h[name] else []
  }

  function Insert(h: HeaderMap, name: string, value: string): HeaderMap { h[name := [value]] }

  function Append(h: HeaderMap, name: string, value: string): HeaderMap
  {
    h[name := Values(h, name) + [value]]
  }

  /** One parsed header line; names are already in lower case. */
  datatype Field = Field(name: string, value: string)

  function IsOws(c: char): bool { c == ' ' || c == '\t' }

  function TrimOws(s: string): string
    decreases |s|
  {
    if s != [] && IsOws(s[0]) then TrimOws(s[1..])
    else if s != [] && IsOws(s[|s| - 1]) then TrimOws(s[..|s| - 1])
    else s
  }

  function Collect(fields: seq<Field>): HeaderMap
  {
    if fields == [] then map[]
    else
      var last := fields[|fields| - 1];
      Append(Collect(fields[..|fields| - 1]), last.name, TrimOws(last.value))
  }

  method CollectFields(fields: seq<Field>) returns (h: HeaderMap)
    ensures h == Collect(fields)
  {
    h := map[];
    for i := 0 to |fields|
      invariant h == Collect(fields[..i])
    {
      assert fields[..i + 1][..i] == fields[..i];
      h := Append(h, fields[i].name, TrimOws(fields[i].value));
    }
    assert fields[..|fields|] == fields;
  }

  /** The values of the lines with this name, trimmed, in the order of arrival. */
  function ValuesIn(fields: seq<Field>, name: string): seq<string>
  {
    if fields == [] then []
    else (if fields[0].name == name then [TrimOws(fields[0].value)] else []) + ValuesIn(fields[1..], name)
  }

  lemma {:induction false} ValuesInAppend(fields: seq<Field>, last: Field, name: string)
    ensures ValuesIn(fields + [last], name)
         == ValuesIn(fields, name) + if last.name == name then [TrimOws(last.value)] else []
  {
    hide TrimOws;
    if fields == [] {
      assert fields + [last] == [last] && ValuesIn([last][1..], name) == [];
    } else {
      assert (fields + [last])[1..] == fields[1..] + [last];
      ValuesInAppend(fields[1..], last, name);
    }
  }

  /** Every line of every name is kept, and no name without a line. */
  lemma {:induction false} CollectingLosesNothing(fields: seq<Field>, name: string)
    ensures Values(Collect(fields), name) == ValuesIn(fields, name)
    ensures name in Collect(fields) <==> ValuesIn(fields, name) != []
    decreases |fields|
  {
    hide TrimOws;
    if fields != [] {
      var init, last := fields[..|fields| - 1], fields[|fields| - 1];
      CollectingLosesNothing(init, name);
      ValuesInAppend(init, last, name);
      assert fields == init + [last];
    }
  }

  ghost predicate AllOws(s: string) { forall i :: 0 <= i < |s| ==> s[i] as int == 32 || s[i] as int == 9 }

  /** Optional whitespace (section 5.6.3 of RFC 9110) around a value goes, and
      nothing else. */
  lemma {:induction false} OwsIsTrimmed(before: string, value: string, after: string)
    requires AllOws(before) && AllOws(after)
    requires value != [] ==> !AllOws([value[0]]) && !AllOws([value[|value| - 1]])
    ensures TrimOws(before + value + after) == value
    decreases |before| + |after|
  {
    var whole := before + value + after;
    assert value != [] ==> [value[0]][0] == value[0] && [value[|value| - 1]][0] == value[|value| - 1];
    if before != [] {
      assert whole[0] == before[0] && whole[1..] == before[1..] + value + after;
      OwsIsTrimmed(before[1..], value, after);
    } else if after == [] {
      assert whole == value;
    } else if value == [] {
      assert whole == after && whole[1..] == [] + [] + after[1..];
      OwsIsTrimmed([], [], after[1..]);
    } else {
      var shorter := after[..|after| - 1];
      assert whole[0] == value[0] && whole[|whole| - 1] == after[|after| - 1];
      assert whole[..|whole| - 1] == [] + value + shorter;
      OwsIsTrimmed([], value, shorter);
    }
  }
}
