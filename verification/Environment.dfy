/** The explicit environment block of one launched process. */
module Environment {
  import opened Common
  import opened NameOrder

  const EQUALS: Unit := 0x3D
  const I32_MAX: nat := 0x7FFF_FFFF

  datatype Entry = Entry(name: Name, value: Name)

  datatype EnvironmentError = InvalidName | InvalidValue | BlockTooLarge

  predicate ValidName(name: Name)
  {
    name != [] && 0 !in name && EQUALS !in name && |name| <= I32_MAX
  }

  predicate ValidValue(value: Name) { 0 !in value }

  ghost predicate WellFormed(entries: seq<Entry>)
  {
    forall e :: e in entries ==> ValidName(e.name) && ValidValue(e.value)
  }

  ghost predicate UniqueKeys(fold: Unit -> Unit, entries: seq<Entry>)
  {
    forall i, j :: 0 <= i < j < |entries| ==> Key(fold, entries[i].name) != Key(fold, entries[j].name)
  }

  predicate Before(fold: Unit -> Unit, a: Entry, b: Entry)
  {
    Less(Key(fold, a.name), Key(fold, b.name))
  }

  ghost predicate StrictlySorted(fold: Unit -> Unit, entries: seq<Entry>)
  {
    forall i, j :: 0 <= i < j < |entries| ==> Before(fold, entries[i], entries[j])
  }

  ghost predicate NoInversion(fold: Unit -> Unit, entries: seq<Entry>)
  {
    forall i, j :: 0 <= i < j < |entries| ==> !Before(fold, entries[j], entries[i])
  }

  /** The abstract value: folded name to the entry last written under it. */
  ghost function View(fold: Unit -> Unit, entries: seq<Entry>): map<Name, Entry>
    requires UniqueKeys(fold, entries)
  {
    map e | e in entries :: Key(fold, e.name) := e
  }

  lemma SortedIsUnique(fold: Unit -> Unit, entries: seq<Entry>)
    requires StrictlySorted(fold, entries)
    ensures UniqueKeys(fold, entries)
  {
    forall i, j | 0 <= i < j < |entries|
      ensures Key(fold, entries[i].name) != Key(fold, entries[j].name)
    {
      assert Before(fold, entries[i], entries[j]);
      LessIrreflexive(Key(fold, entries[i].name));
    }
  }

  lemma UniqueWithoutInversionIsSorted(fold: Unit -> Unit, entries: seq<Entry>)
    requires UniqueKeys(fold, entries) && NoInversion(fold, entries)
    ensures StrictlySorted(fold, entries)
  {
    forall i, j | 0 <= i < j < |entries|
      ensures Before(fold, entries[i], entries[j])
    {
      assert !Before(fold, entries[j], entries[i]);
      LessTotal(Key(fold, entries[i].name), Key(fold, entries[j].name));
    }
  }

  lemma NotBeforeTransitive(fold: Unit -> Unit, a: Entry, b: Entry, c: Entry)
    requires !Before(fold, b, a) && !Before(fold, c, b)
    ensures !Before(fold, c, a)
  {
    var ka, kb, kc := Key(fold, a.name), Key(fold, b.name), Key(fold, c.name);
    LessTotal(ka, kb);
    LessTotal(kb, kc);
    if Less(kc, ka) {
      if Less(ka, kb) && Less(kb, kc) { LessTransitive(ka, kb, kc); LessAsymmetric(ka, kc); }
    }
  }

  /** The first `index + 1` entries have no inversion, except that the entry
      at `cursor` may still have to move down. */
  ghost predicate SortedBut(fold: Unit -> Unit, s: seq<Entry>, cursor: nat, index: nat)
    requires cursor <= index < |s|
  {
    && (forall a, b :: 0 <= a < b <= index && a != cursor && b != cursor ==> !Before(fold, s[b], s[a]))
    && (forall b :: cursor < b <= index ==> !Before(fold, s[b], s[cursor]))
  }

  lemma SwapKeepsSortedBut(fold: Unit -> Unit, s: seq<Entry>, cursor: nat, index: nat)
    requires 0 < cursor <= index < |s| && SortedBut(fold, s, cursor, index)
    requires Before(fold, s[cursor], s[cursor - 1])
    ensures var s' := s[cursor - 1 := s[cursor]][cursor := s[cursor - 1]];
            && |s'| == |s| && multiset(s') == multiset(s) && SortedBut(fold, s', cursor - 1, index)
  {
    LessAsymmetric(Key(fold, s[cursor].name), Key(fold, s[cursor - 1].name));
    var s' := s[cursor - 1 := s[cursor]][cursor := s[cursor - 1]];
    forall a, b | 0 <= a < b <= index && a != cursor - 1 && b != cursor - 1
      ensures !Before(fold, s'[b], s'[a])
    {
      var a', b' := if a == cursor then cursor - 1 else a, if b == cursor then cursor - 1 else b;
      assert s'[a] == s[a'] && s'[b] == s[b'] && a' < b';
    }
  }

  lemma SettledIsSorted(fold: Unit -> Unit, s: seq<Entry>, cursor: nat, index: nat)
    requires cursor <= index < |s| && SortedBut(fold, s, cursor, index)
    requires cursor == 0 || !Before(fold, s[cursor], s[cursor - 1])
    ensures NoInversion(fold, s[..index + 1])
  {
    forall a | 0 <= a < cursor
      ensures !Before(fold, s[cursor], s[a])
    {
      if a < cursor - 1 { NotBeforeTransitive(fold, s[a], s[cursor - 1], s[cursor]); }
    }
  }

  // --------------------------------------------- the table is a canonical map

  lemma {:induction false} SameEntriesSameList(fold: Unit -> Unit, a: seq<Entry>, b: seq<Entry>)
    requires StrictlySorted(fold, a) && StrictlySorted(fold, b)
    requires forall e :: e in a <==> e in b
    ensures a == b
    decreases |a|
  {
    assert b != [] ==> b[0] in b;
    if a != [] {
      assert a[0] in b;
      FirstIsSmallest(fold, a, b);
      TailMembers(fold, a);
      TailMembers(fold, b);
      SameEntriesSameList(fold, a[1..], b[1..]);
    }
  }

  lemma TailMembers(fold: Unit -> Unit, a: seq<Entry>)
    requires StrictlySorted(fold, a) && a != []
    ensures forall e :: e in a[1..] <==> e in a && e != a[0]
  {
    LessIrreflexive(Key(fold, a[0].name));
    assert a == [a[0]] + a[1..];
    forall i | 0 <= i < |a| - 1 ensures a[1..][i] != a[0] {
      assert Before(fold, a[0], a[i + 1]);
    }
  }

  lemma FirstIsSmallest(fold: Unit -> Unit, a: seq<Entry>, b: seq<Entry>)
    requires StrictlySorted(fold, a) && StrictlySorted(fold, b)
    requires a != [] && b != [] && a[0] in b && b[0] in a
    ensures a[0] == b[0]
  {
    var i :| 0 <= i < |a| && a[i] == b[0];
    var j :| 0 <= j < |b| && b[j] == a[0];
    if i > 0 && j > 0 {
      assert Before(fold, a[0], a[i]) && Before(fold, b[0], b[j]);
      LessAsymmetric(Key(fold, a[0].name), Key(fold, b[0].name));
    }
  }

  /** The list is determined by the map: call order and intermediate values
      leave no trace. */
  lemma ViewDeterminesEntries(fold: Unit -> Unit, a: seq<Entry>, b: seq<Entry>)
    requires StrictlySorted(fold, a) && StrictlySorted(fold, b)
    requires UniqueKeys(fold, a) && UniqueKeys(fold, b)
    requires View(fold, a) == View(fold, b)
    ensures a == b
  {
    forall e ensures e in a <==> e in b {
      var k := Key(fold, e.name);
      if e in a { assert View(fold, a)[k] == e; assert k in View(fold, b); assert View(fold, b)[k] == e; }
      if e in b { assert View(fold, b)[k] == e; assert k in View(fold, a); assert View(fold, a)[k] == e; }
    }
    SameEntriesSameList(fold, a, b);
  }

  // ------------------------------------------------------ the mutable table

  datatype Call = Set(name: Name, value: Name) | Remove(name: Name)

  /** Last write wins; malformed calls change nothing. */
  ghost function Effect(fold: Unit -> Unit, m: map<Name, Entry>, call: Call): map<Name, Entry>
  {
    match call
    case Set(name, value) =>
      if ValidName(name) && ValidValue(value) then m[Key(fold, name) := Entry(name, value)] else m
    case Remove(name) =>
      if ValidName(name) then m - {Key(fold, name)} else m
  }

  ghost function Effects(fold: Unit -> Unit, calls: seq<Call>): map<Name, Entry>
  {
    if calls == [] then map[]
    else Effect(fold, Effects(fold, calls[..|calls| - 1]), calls[|calls| - 1])
  }

  class LaunchEnvironment {
    const fold: Unit -> Unit
    var entries: seq<Entry>

    ghost predicate Valid()
      reads this
    {
      StrictlySorted(fold, entries) && UniqueKeys(fold, entries) && WellFormed(entries)
    }

    constructor Empty(fold: Unit -> Unit)
      ensures Valid() && this.fold == fold && View(fold, entries) == map[]
    {
      this.fold := fold;
      entries := [];
    }

    method FindName(name: Name) returns (index: Option<nat>)
      ensures index.Some? ==>
                index.value < |entries| && Key(fold, entries[index.value].name) == Key(fold, name)
      ensures index.None? ==> forall e :: e in entries ==> Key(fold, e.name) != Key(fold, name)
    {
      for i := 0 to |entries|
        invariant forall j :: 0 <= j < i ==> Key(fold, entries[j].name) != Key(fold, name)
      {
        if Key(fold, entries[i].name) == Key(fold, name) { return Some(i); }
      }
      return None;
    }

    /** Insertion sort by adjacent swaps, in place. */
    method SortEntries()
      modifies this`entries
      ensures NoInversion(fold, entries)
      ensures multiset(entries) == multiset(old(entries))
    {
      var index := 1;
      while index < |entries|
        invariant 1 <= index
        invariant index <= |entries| || |entries| == 0
        invariant |entries| == |old(entries)|
        invariant multiset(entries) == multiset(old(entries))
        invariant |entries| > 0 ==> NoInversion(fold, entries[..index])
      {
        Sink(index);
        index := index + 1;
      }
      assert |entries| > 0 ==> entries[..index] == entries;
    }

    /** Moves the entry at `index` down into the sorted prefix before it. */
    method Sink(index: nat)
      requires index < |entries|
      requires NoInversion(fold, entries[..index])
      modifies this`entries
      ensures |entries| == |old(entries)|
      ensures NoInversion(fold, entries[..index + 1])
      ensures multiset(entries) == multiset(old(entries))
    {
      var cursor := index;
      while cursor > 0 && Before(fold, entries[cursor], entries[cursor - 1])
        invariant 0 <= cursor <= index < |entries| == |old(entries)|
        invariant multiset(entries) == multiset(old(entries))
        invariant SortedBut(fold, entries, cursor, index)
      {
        SwapKeepsSortedBut(fold, entries, cursor, index);
        entries := entries[cursor - 1 := entries[cursor]][cursor := entries[cursor - 1]];
        cursor := cursor - 1;
      }
      SettledIsSorted(fold, entries, cursor, index);
    }

    method Set(name: Name, value: Name) returns (r: Result<(), EnvironmentError>)
      requires Valid()
      modifies this`entries
      ensures Valid()
      ensures View(fold, entries) == Effect(fold, View(fold, old(entries)), Call.Set(name, value))
      ensures r == if !ValidName(name) then Err(InvalidName)
                   else if !ValidValue(value) then Err(InvalidValue)
                   else Ok(())
    {
      hide Key, Before, ValidName, ValidValue;
      if !ValidName(name) { return Err(InvalidName); }
      if !ValidValue(value) { return Err(InvalidValue); }
      var e := Entry(name, value);
      var found := FindName(name);
      if found.Some? {
        entries := entries[found.value := e];
        ViewAfterReplace(fold, old(entries), found.value, e);
      } else {
        entries := entries + [e];
        ViewAfterAppend(fold, old(entries), e);
      }
      ghost var unsorted := entries;
      SortEntries();
      PermutationKeepsView(fold, unsorted, entries);
      UniqueWithoutInversionIsSorted(fold, entries);
      return Ok(());
    }

    method Remove(name: Name) returns (r: Result<bool, EnvironmentError>)
      requires Valid()
      modifies this`entries
      ensures Valid()
      ensures View(fold, entries) == Effect(fold, View(fold, old(entries)), Call.Remove(name))
      ensures r == if !ValidName(name) then Err(InvalidName)
                   else Ok(Key(fold, name) in View(fold, old(entries)))
    {
      if !ValidName(name) { return Err(InvalidName); }
      var found := FindName(name);
      if found.None? {
        assert Key(fold, name) !in View(fold, entries);
        return Ok(false);
      }
      var i := found.value;
      assert entries[i] in entries;
      entries := entries[..i] + entries[i + 1..];
      ViewAfterRemove(fold, old(entries), i);
      return Ok(true);
    }

    /** Every run of calls on a fresh table: the table is strictly sorted and
        is the last-write-wins map on folded names. */
    method Replay(calls: seq<Call>)
      requires Valid() && View(fold, entries) == map[]
      modifies this`entries
      ensures Valid() && View(fold, entries) == Effects(fold, calls)
    {
      for i := 0 to |calls|
        invariant Valid() && View(fold, entries) == Effects(fold, calls[..i])
      {
        assert calls[..i + 1][..i] == calls[..i];
        match calls[i] {
          case Set(name, value) => var _ := Set(name, value);
          case Remove(name) => var _ := Remove(name);
        }
      }
      assert calls[..|calls|] == calls;
    }

    method EncodedBlock() returns (r: Result<Name, EnvironmentError>)
      requires Valid()
      ensures r == if Capacity(entries) > U64_MAX then Err(BlockTooLarge) else Ok(Block(entries))
    {
      var capacity := 1;
      for i := 0 to |entries|
        invariant 1 <= capacity <= U64_MAX
        invariant capacity + Capacity(entries[i..]) == Capacity(entries) + 1
      {
        assert entries[i..][1..] == entries[i + 1..];
        var grown := capacity + |entries[i].name| + 1 + |entries[i].value| + 1;
        if grown > U64_MAX { return Err(BlockTooLarge); }
        capacity := grown;
      }
      assert entries[|entries|..] == [];
      var block := [];
      for i := 0 to |entries|
        invariant block + Strings(entries[i..]) == Strings(entries)
      {
        assert entries[i..][1..] == entries[i + 1..] && entries[i..][0] == entries[i];
        ghost var before := block;
        block := block + Rendered(entries[i]);
        assert before + (Rendered(entries[i]) + Strings(entries[i + 1..])) == block + Strings(entries[i + 1..]);
      }
      assert block == Strings(entries);
      assert block + [0] + [] == block + [0];
      block := block + [0];
      if |entries| == 0 { block := block + [0]; }
      return Ok(block);
    }
  }

  lemma PermutationKeepsView(fold: Unit -> Unit, a: seq<Entry>, b: seq<Entry>)
    requires UniqueKeys(fold, a) && multiset(a) == multiset(b)
    ensures UniqueKeys(fold, b) && View(fold, a) == View(fold, b)
    ensures WellFormed(a) ==> WellFormed(b)
  {
    forall e ensures e in a <==> e in b {
      assert e in multiset(a) <==> e in multiset(b);
    }
    forall i, j | 0 <= i < j < |b|
      ensures Key(fold, b[i].name) != Key(fold, b[j].name)
    {
      assert b[i] in a && b[j] in a;
      if b[i] == b[j] {
        CountTwice(b, i, j);
        CountOnce(fold, a, b[i]);
      }
    }
  }

  lemma CountTwice(b: seq<Entry>, i: nat, j: nat)
    requires i < j < |b| && b[i] == b[j]
    ensures multiset(b)[b[i]] >= 2
  {
    assert b == b[..i] + [b[i]] + b[i + 1..j] + [b[j]] + b[j + 1..];
  }

  lemma {:induction false} CountOnce(fold: Unit -> Unit, a: seq<Entry>, e: Entry)
    requires UniqueKeys(fold, a)
    ensures multiset(a)[e] <= 1
  {
    if a != [] {
      assert a == [a[0]] + a[1..];
      CountOnce(fold, a[1..], e);
      assert forall k :: 0 <= k < |a| - 1 ==> Key(fold, a[0].name) != Key(fold, a[1..][k].name);
    }
  }

  lemma ViewAfterReplace(fold: Unit -> Unit, before: seq<Entry>, i: nat, e: Entry)
    requires UniqueKeys(fold, before) && i < |before|
    requires Key(fold, before[i].name) == Key(fold, e.name)
    ensures var after := before[i := e];
            && UniqueKeys(fold, after)
            && View(fold, after) == View(fold, before)[Key(fold, e.name) := e]
  {
    var after := before[i := e];
    assert after[i] == e;
    forall x | x in before && x != before[i] ensures x in after {
      var k :| 0 <= k < |before| && before[k] == x;
      assert after[k] == x;
    }
    forall x | x in after && x != e ensures x in before && Key(fold, x.name) != Key(fold, e.name) {
      var k :| 0 <= k < |after| && after[k] == x;
      assert before[k] == x;
    }
  }

  lemma ViewAfterAppend(fold: Unit -> Unit, before: seq<Entry>, e: Entry)
    requires UniqueKeys(fold, before)
    requires forall x :: x in before ==> Key(fold, x.name) != Key(fold, e.name)
    ensures var after := before + [e];
            && UniqueKeys(fold, after)
            && View(fold, after) == View(fold, before)[Key(fold, e.name) := e]
  {
  }

  lemma RemoveMembers(fold: Unit -> Unit, before: seq<Entry>, i: nat)
    requires UniqueKeys(fold, before) && i < |before|
    ensures var after := before[..i] + before[i + 1..];
            forall x :: x in after <==> x in before && Key(fold, x.name) != Key(fold, before[i].name)
  {
    var after := before[..i] + before[i + 1..];
    forall x | x in before && Key(fold, x.name) != Key(fold, before[i].name) ensures x in after {
      var k :| 0 <= k < |before| && before[k] == x;
      assert k < i ==> before[..i][k] == x;
      assert k > i ==> before[i + 1..][k - i - 1] == x;
    }
    forall x | x in after ensures x in before && Key(fold, x.name) != Key(fold, before[i].name) {
      if x in before[..i] {
        var k :| 0 <= k < i && before[k] == x;
      } else {
        var k :| i < k < |before| && before[k] == x;
      }
    }
  }

  lemma RemoveKeepsSorted(fold: Unit -> Unit, before: seq<Entry>, i: nat)
    requires StrictlySorted(fold, before) && i < |before|
    ensures StrictlySorted(fold, before[..i] + before[i + 1..])
  {
    var after := before[..i] + before[i + 1..];
    forall j, k | 0 <= j < k < |after|
      ensures Before(fold, after[j], after[k])
    {
      var j', k' := if j < i then j else j + 1, if k < i then k else k + 1;
      assert after[j] == before[j'] && after[k] == before[k'];
    }
  }

  lemma ViewWithoutKey(fold: Unit -> Unit, before: seq<Entry>, after: seq<Entry>, k: Name)
    requires UniqueKeys(fold, before) && UniqueKeys(fold, after)
    requires forall x :: x in after <==> x in before && Key(fold, x.name) != k
    ensures View(fold, after) == View(fold, before) - {k}
    ensures WellFormed(before) ==> WellFormed(after)
  {
  }

  lemma ViewAfterRemove(fold: Unit -> Unit, before: seq<Entry>, i: nat)
    requires StrictlySorted(fold, before) && UniqueKeys(fold, before) && i < |before|
    ensures var after := before[..i] + before[i + 1..];
            && StrictlySorted(fold, after) && UniqueKeys(fold, after)
            && (WellFormed(before) ==> WellFormed(after))
            && View(fold, after) == View(fold, before) - {Key(fold, before[i].name)}
  {
    var after := before[..i] + before[i + 1..];
    RemoveKeepsSorted(fold, before, i);
    SortedIsUnique(fold, after);
    RemoveMembers(fold, before, i);
    ViewWithoutKey(fold, before, after, Key(fold, before[i].name));
  }

  // ---------------------------------------------------- the serialized block

  /** One `name=value` string with its terminator. */
  function Rendered(e: Entry): Name
  {
    e.name + [EQUALS] + e.value + [0]
  }

  function Strings(entries: seq<Entry>): Name
  {
    if entries == [] then []
    else Rendered(entries[0]) + Strings(entries[1..])
  }

  function Block(entries: seq<Entry>): Name
  {
    Strings(entries) + [0] + (if entries == [] then [0] else [])
  }

  function Capacity(entries: seq<Entry>): nat
  {
    if entries == [] then 1
    else |entries[0].name| + 1 + |entries[0].value| + 1 + Capacity(entries[1..])
  }

  /** The text before the first `stop`, or all of it. */
  function Until(s: Name, stop: Unit): (r: Name)
    ensures |r| <= |s|
  {
    if s == [] || s[0] == stop then [] else [s[0]] + Until(s[1..], stop)
  }

  /** How a process reads its block: NUL-terminated strings up to an empty
      one, each divided at its first equals sign. */
  function ReadBlock(block: Name): seq<Entry>
    decreases |block|
  {
    var text := Until(block, 0);
    if text == [] then []
    else
      var name := Until(text, EQUALS);
      var value := if |name| < |text| then text[|name| + 1..] else [];
      [Entry(name, value)] + ReadBlock(if |text| < |block| then block[|text| + 1..] else [])
  }

  lemma {:induction false} UntilStops(head: Name, stop: Unit, rest: Name)
    requires stop !in head
    ensures Until(head + [stop] + rest, stop) == head
  {
    if head != [] {
      assert (head + [stop] + rest)[1..] == head[1..] + [stop] + rest;
      UntilStops(head[1..], stop, rest);
    }
  }

  lemma ReadOne(e: Entry, rest: Name)
    requires ValidName(e.name) && ValidValue(e.value)
    ensures ReadBlock(Rendered(e) + rest) == [e] + ReadBlock(rest)
  {
    var text := e.name + [EQUALS] + e.value;
    var block := Rendered(e) + rest;
    assert block == text + [0] + rest;
    UntilStops(text, 0, rest);
    UntilStops(e.name, EQUALS, e.value);
    assert text[|e.name| + 1..] == e.value;
    assert block[|text| + 1..] == rest;
  }

  lemma EmptyStringEnds(rest: Name)
    ensures ReadBlock([0] + rest) == []
  {
  }

  lemma {:induction false} StringsReadBack(entries: seq<Entry>, rest: Name)
    requires WellFormed(entries)
    ensures ReadBlock(Strings(entries) + ([0] + rest)) == entries
    ensures |Strings(entries)| + 1 == Capacity(entries)
  {
    hide ReadBlock, ValidName, ValidValue;
    if entries == [] {
      assert Strings(entries) + ([0] + rest) == [0] + rest;
      EmptyStringEnds(rest);
    } else {
      var e := entries[0];
      assert e in entries;
      StringsReadBack(entries[1..], rest);
      ReadOne(e, Strings(entries[1..]) + ([0] + rest));
      assert Strings(entries) + ([0] + rest) == Rendered(e) + (Strings(entries[1..]) + ([0] + rest));
      assert [e] + entries[1..] == entries;
    }
  }

  lemma {:induction false} NoEmptyStringInside(entries: seq<Entry>, i: nat)
    requires WellFormed(entries)
    requires i + 1 < |Strings(entries)|
    ensures !(Strings(entries)[i] == 0 && Strings(entries)[i + 1] == 0)
    ensures Strings(entries)[0] != 0
    decreases |entries|
  {
    var e, rest := entries[0], Strings(entries[1..]);
    assert e in entries;
    var text := e.name + [EQUALS] + e.value;
    assert Strings(entries) == text + [0] + rest;
    if entries[1..] != [] {
      var e' := entries[1];
      assert e' in entries && entries[1..][0] == e';
      assert rest[0] == e'.name[0];
      if i > |text| { NoEmptyStringInside(entries[1..], i - |text| - 1); }
    }
  }

  /** Main result on the block: it reads back to exactly its entries, ends in
      a double NUL that occurs nowhere earlier, and fills exactly the
      precomputed capacity, at least two units. */
  lemma BlockRoundTrip(entries: seq<Entry>)
    requires WellFormed(entries)
    ensures ReadBlock(Block(entries)) == entries
    ensures |Block(entries)| == Max(2, Capacity(entries))
    ensures forall i :: 0 <= i < |Block(entries)| - 1 ==>
              ((Block(entries)[i] == 0 && Block(entries)[i + 1] == 0) <==> i == |Block(entries)| - 2)
  {
    var tail: Name := if entries == [] then [0] else [];
    StringsReadBack(entries, tail);
    assert Block(entries) == Strings(entries) + ([0] + tail);
    forall i | 0 <= i < |Block(entries)| - 1
      ensures (Block(entries)[i] == 0 && Block(entries)[i + 1] == 0) <==> i == |Block(entries)| - 2
    {
      if i + 1 < |Strings(entries)| { NoEmptyStringInside(entries, i); }
      if entries != [] { StringsEndInNul(entries); }
    }
  }

  lemma {:induction false} StringsEndInNul(entries: seq<Entry>)
    requires entries != []
    ensures Strings(entries) != [] && Strings(entries)[|Strings(entries)| - 1] == 0
  {
    if |entries| > 1 { StringsEndInNul(entries[1..]); }
    else { assert Strings(entries[1..]) == []; }
  }

  /** A name may be any text but the empty one, without NUL and equals sign, up
      to the length the native comparison takes. */
  lemma NamesAreExact(name: Name)
    ensures ValidName(name) <==> 0 < |name| <= 2_147_483_647 && 0 !in name && '=' as int !in name
  {
  }
}
