/** tools/resources_compiler.py: keys made unique, equal values compiled once, and the table of pointers. */
module ResourceTables {
  import opened Words

  /** The contents of a resource: the characters of a string, or the numbers of a table. */
  type Value = seq<int>

  /** A row of a resource list: its name and its value. */
  datatype Row = Row(name: string, value: Value)

  datatype Entry = Entry(index: nat, key: string, value: Value, dupeOf: string)

  /** A C array that is written out. */
  datatype Variable = Variable(name: string, value: Value)

  // ------------------------------------------------------------------ identifiers

  predicate Deleted(c: char) {
    c in "\t\n\r-:()[]\"',;"
  }

  function Rewritten(c: char): char {
    if 'A' <= c <= 'Z' then c - 'A' + 'a'
    else if 'a' <= c <= 'z' || '0' <= c <= '9' then c
    else if c as int <= 9 then '0' + c
    else if c == '~' then 'T'
    else if c == '*' then 'P'
    else if c == '+' then 'S'
    else if c == '=' then 'e'
    else if c == '>' then 'g'
    else if c == '<' then 'l'
    else if c == '^' then 'x'
    else if c == '|' then 'v'
    else '_'
  }

  predicate IdentifierChar(c: char) {
    'a' <= c <= 'z' || '0' <= c <= '9' || c in "_TPS"
  }

  /** Only characters of C identifiers are left. */
  function MakeIdentifier(name: string): (key: string)
    ensures forall i :: 0 <= i < |key| ==> IdentifierChar(key[i])
  {
    if name == "" then
      ""
    else
      (if Deleted(name[0]) then "" else [Rewritten(name[0])]) + MakeIdentifier(name[1..])
  }

  /** Letters, digits and underscores stay, letters in lower case. */
  lemma {:induction false} WordsInLowerCase(name: string)
    requires forall i :: 0 <= i < |name| ==>
      'a' <= name[i] <= 'z' || 'A' <= name[i] <= 'Z' || '0' <= name[i] <= '9' || name[i] == '_'
    ensures var key := MakeIdentifier(name);
      |key| == |name| && forall i :: 0 <= i < |name| ==>
        key[i] as int == name[i] as int + if 'A' <= name[i] <= 'Z' then 32 else 0
  {
    if name != "" {
      WordsInLowerCase(name[1..]);
    }
  }

  /** Of the others some are left out, eight stand for letters, and the rest is an underscore. */
  lemma {:induction false} OtherCharacters(c: char)
    ensures c in "\t\n\r-:()[]\"',;" ==> MakeIdentifier([c]) == ""
    ensures c == '~' ==> MakeIdentifier([c]) == "T"
    ensures c == '*' ==> MakeIdentifier([c]) == "P"
    ensures c == '+' ==> MakeIdentifier([c]) == "S"
    ensures c == '=' ==> MakeIdentifier([c]) == "e"
    ensures c == '>' ==> MakeIdentifier([c]) == "g"
    ensures c == '<' ==> MakeIdentifier([c]) == "l"
    ensures c == '^' ==> MakeIdentifier([c]) == "x"
    ensures c == '|' ==> MakeIdentifier([c]) == "v"
    ensures c in " !#$%&./?@\\`{}" ==> MakeIdentifier([c]) == "_"
  {
    OneCharacter(c);
    hide MakeIdentifier;
  }

  lemma {:induction false} OneCharacter(c: char)
    ensures MakeIdentifier([c]) == if Deleted(c) then "" else [Rewritten(c)]
  {
    hide Deleted, Rewritten;
    assert [c][1..] == "";
  }

  // ------------------------------------------------------------------ unique keys

  /** The keys that are at least n characters long. */
  function LongKeys(keys: set<string>, n: nat): set<string> {
    set k | k in keys && |k| >= n
  }

  lemma {:induction false} FewerLongKeys(keys: set<string>, key: string)
    requires key in keys
    ensures |LongKeys(keys, |key| + 1)| < |LongKeys(keys, |key|)|
  {
    var shorter, longer := LongKeys(keys, |key|), LongKeys(keys, |key| + 1);
    assert key in shorter && key !in longer;
    assert longer <= shorter - {key};
    SubsetSize(longer, shorter - {key});
  }

  function Underscores(n: nat): (s: string)
    ensures |s| == n
  {
    seq(n, _ => '_')
  }

  /** The key with the fewest underscores in front that is not taken. */
  ghost predicate LeastFree(key: string, base: string, keys: set<string>) {
    exists n: nat ::
      && key == Underscores(n) + base && key !in keys
      && forall m: nat :: m < n ==> Underscores(m) + base in keys
  }

  /** Terminates: each turn leaves fewer taken keys that are as long as the one tried. */
  method UniqueKey(base: string, keys: set<string>) returns (key: string)
    ensures LeastFree(key, base, keys) && key !in keys
  {
    key := base;
    ghost var n: nat := 0;
    assert Underscores(0) + base == base;
    while key in keys
      invariant key == Underscores(n) + base
      invariant forall m: nat :: m < n ==> Underscores(m) + base in keys
      decreases |LongKeys(keys, |key|)|
    {
      FewerLongKeys(keys, key);
      assert "_" + (Underscores(n) + base) == Underscores(n + 1) + base;
      key := "_" + key;
      n := n + 1;
    }
  }

  // ------------------------------------------------------------------- the table

  ghost predicate DistinctKeys(entries: seq<Entry>) {
    forall i, j :: 0 <= i < j < |entries| ==> entries[i].key != entries[j].key
  }

  /** Is j the first entry with this value? */
  ghost predicate IsFirst(entries: seq<Entry>, v: Value, j: nat) {
    j < |entries| && entries[j].value == v && forall k :: 0 <= k < j ==> entries[k].value != v
  }

  /** Is this the key of the first entry with this value? */
  ghost predicate KeyOfFirst(entries: seq<Entry>, v: Value, key: string) {
    exists j: nat :: IsFirst(entries, v, j) && key == entries[j].key
  }

  /** What the constructor establishes. */
  ghost predicate WellMade(entries: seq<Entry>) {
    && (forall i :: 0 <= i < |entries| ==> entries[i].index == i)
    && DistinctKeys(entries)
    && (forall i :: 0 <= i < |entries| ==> KeyOfFirst(entries, entries[i].value, entries[i].dupeOf))
  }

  /** Entries of these rows, in order, each under a key made from its name. */
  ghost predicate Lists(entries: seq<Entry>, rows: seq<Row>) {
    && |entries| == |rows|
    && forall i :: 0 <= i < |rows| ==>
      entries[i].value == rows[i].value && LeastFree(entries[i].key, MakeIdentifier(rows[i].name), KeysOf(entries, i))
  }

  ghost function KeysOf(entries: seq<Entry>, n: nat): set<string>
    requires n <= |entries|
  {
    set i | 0 <= i < n :: entries[i].key
  }

  class ResourceTable {
    var name: string
    var prefix: string
    var entries: seq<Entry>

    constructor (name: string, prefix: string, rows: seq<Row>)
      ensures this.name == name && this.prefix == prefix
      ensures WellMade(entries) && Lists(entries, rows)
    {
      this.name := name;
      this.prefix := prefix;
      this.entries := [];
      new;
      FillEntries(rows);
    }

    method FillEntries(rows: seq<Row>)
      requires entries == []
      modifies this`entries
      ensures WellMade(entries) && Lists(entries, rows)
    {
      hide WellMade, Lists, KeyOfFirst, Records, LeastFree;
      var keys: set<string> := {};
      var values: map<Value, string> := map[];
      NoEntries();
      for i := 0 to |rows|
        invariant WellMade(entries) && Lists(entries, rows[..i]) && |entries| == i
        invariant keys == KeysOf(entries, |entries|)
        invariant Records(values, entries)
      {
        var value := rows[i].value;
        var key := UniqueKey(MakeIdentifier(rows[i].name), keys);
        var dupeOf := if value in values then values[value] else key;
        var e := Entry(i, key, value, dupeOf);
        KeysAppend(entries, e);
        RecordsAdd(values, entries, e);
        WellMadeAdd(entries, e);
        ListsAdd(entries, rows, i, e);
        entries := entries + [e];
        keys := keys + {key};
        if value !in values {
          values := values[value := key];
        }
      }
      assert rows[..|rows|] == rows;
    }

    /** The arrays that are written out, and the names in the pointer table. */
    method Compile() returns (variables: seq<Variable>, pointers: seq<string>)
      ensures variables == Compiled(prefix, entries)
      ensures pointers == Pointers(prefix, entries)
      ensures forall i :: 0 <= i < |entries| ==>
        |pointers[i]| > |prefix| && pointers[i][|prefix|..] == "_" + entries[i].dupeOf
    {
      NamesEnd(prefix, entries);
      hide VariableName;
      variables, pointers := [], [];
      for i := 0 to |entries|
        invariant variables == Compiled(prefix, entries[..i])
      {
        assert entries[..i + 1][..i] == entries[..i];
        if entries[i].dupeOf == entries[i].key {
          variables := variables + [Variable(VariableName(prefix, entries[i]), entries[i].value)];
        }
      }
      assert entries[..|entries|] == entries;
      for i := 0 to |entries|
        invariant |pointers| == i
        invariant forall j :: 0 <= j < i ==> pointers[j] == VariableName(prefix, entries[j])
      {
        pointers := pointers + [VariableName(prefix, entries[i])];
      }
    }
  }

  // -------------------------------------------------------------------- compiling

  function Lower(s: string): string {
    if s == "" then "" else [if 'A' <= s[0] <= 'Z' then s[0] - 'A' + 'a' else s[0]] + Lower(s[1..])
  }

  function VariableName(prefix: string, e: Entry): string {
    Lower(prefix) + "_" + e.dupeOf
  }

  /** A name is the prefix in lower case, and the key of the first entry with the value. */
  lemma {:induction false} NamesEnd(prefix: string, entries: seq<Entry>)
    ensures forall i :: 0 <= i < |entries| ==>
      var name := VariableName(prefix, entries[i]);
      |name| > |prefix| && name[|prefix|..] == "_" + entries[i].dupeOf
  {
    LowerLength(prefix);
  }

  lemma {:induction false} LowerLength(s: string)
    ensures |Lower(s)| == |s|
    ensures forall i :: 0 <= i < |s| ==> Lower(s)[i] as int == s[i] as int + if 'A' <= s[i] <= 'Z' then 32 else 0
  {
    if s != "" {
      LowerLength(s[1..]);
    }
  }

  function Compiled(prefix: string, entries: seq<Entry>): seq<Variable> {
    if entries == [] then
      []
    else
      var e := entries[|entries| - 1];
      Compiled(prefix, entries[..|entries| - 1])
      + (if e.dupeOf == e.key then [Variable(VariableName(prefix, e), e.value)] else [])
  }

  function Pointers(prefix: string, entries: seq<Entry>): (r: seq<string>)
    ensures |r| == |entries|
  {
    seq(|entries|, i requires 0 <= i < |entries| => VariableName(prefix, entries[i]))
  }

  /** What the C program finds under a name: the array written out under it. */
  function Lookup(variables: seq<Variable>, name: string): Option<Value> {
    if variables == [] then None
    else if variables[0].name == name then Some(variables[0].value)
    else Lookup(variables[1..], name)
  }

  lemma {:induction false} NoEntries()
    ensures WellMade([]) && Lists([], []) && Records(map[], []) && KeysOf([], 0) == {}
  {
  }

  /** The values met so far, each with the key of its first entry. */
  ghost predicate Records(values: map<Value, string>, entries: seq<Entry>) {
    && (forall i :: 0 <= i < |entries| ==> entries[i].value in values)
    && (forall v :: v in values ==> KeyOfFirst(entries, v, values[v]))
  }

  lemma {:induction false} FirstStays(entries: seq<Entry>, e: Entry, v: Value, key: string)
    requires KeyOfFirst(entries, v, key)
    ensures KeyOfFirst(entries + [e], v, key)
  {
    var j: nat :| IsFirst(entries, v, j) && key == entries[j].key;
    assert IsFirst(entries + [e], v, j);
  }

  /** A value not met before is first where it is added. */
  lemma {:induction false} FirstIsNew(entries: seq<Entry>, e: Entry)
    requires forall i :: 0 <= i < |entries| ==> entries[i].value != e.value
    ensures KeyOfFirst(entries + [e], e.value, e.key)
  {
    assert IsFirst(entries + [e], e.value, |entries|);
  }

  lemma {:induction false} KeysAppend(entries: seq<Entry>, e: Entry)
    ensures KeysOf(entries + [e], |entries| + 1) == KeysOf(entries, |entries|) + {e.key}
    ensures forall n: nat :: n <= |entries| ==> KeysOf(entries + [e], n) == KeysOf(entries, n)
  {
    var all := entries + [e];
    assert forall i :: 0 <= i < |entries| ==> all[i] == entries[i];
    assert all[|entries|] == e;
    forall k | k in KeysOf(entries, |entries|) + {e.key}
      ensures k in KeysOf(all, |entries| + 1)
    {
      if k in KeysOf(entries, |entries|) {
        var i :| 0 <= i < |entries| && entries[i].key == k;
        assert all[i].key == k;
      } else {
        assert all[|entries|].key == k;
      }
    }
    forall n: nat | n <= |entries|
      ensures KeysOf(all, n) == KeysOf(entries, n)
    {
      SameKeys(all, entries, n);
    }
  }

  lemma {:induction false} SameKeys(a: seq<Entry>, b: seq<Entry>, n: nat)
    requires n <= |a| && n <= |b| && forall i :: 0 <= i < n ==> a[i] == b[i]
    ensures KeysOf(a, n) == KeysOf(b, n)
  {
    forall k | k in KeysOf(a, n)
      ensures k in KeysOf(b, n)
    {
      var i :| 0 <= i < n && a[i].key == k;
      assert b[i].key == k;
    }
    forall k | k in KeysOf(b, n)
      ensures k in KeysOf(a, n)
    {
      var i :| 0 <= i < n && b[i].key == k;
      assert a[i].key == k;
    }
  }

  lemma {:induction false} RecordsAdd(values: map<Value, string>, entries: seq<Entry>, e: Entry)
    requires Records(values, entries)
    ensures Records(if e.value in values then values else values[e.value := e.key], entries + [e])
    ensures KeyOfFirst(entries + [e], e.value, if e.value in values then values[e.value] else e.key)
  {
    hide KeyOfFirst;
    var after := if e.value in values then values else values[e.value := e.key];
    if e.value !in values {
      FirstIsNew(entries, e);
    }
    forall v | v in after
      ensures KeyOfFirst(entries + [e], v, after[v])
    {
      if v in values {
        FirstStays(entries, e, v, values[v]);
      }
    }
  }

  lemma {:induction false} WellMadeAdd(entries: seq<Entry>, e: Entry)
    requires WellMade(entries) && e.index == |entries|
    requires e.key !in KeysOf(entries, |entries|)
    requires KeyOfFirst(entries + [e], e.value, e.dupeOf)
    ensures WellMade(entries + [e])
  {
    hide KeyOfFirst, DistinctKeys;
    var all := entries + [e];
    forall i | 0 <= i < |all|
      ensures KeyOfFirst(all, all[i].value, all[i].dupeOf)
    {
      if i < |entries| {
        FirstStays(entries, e, entries[i].value, entries[i].dupeOf);
        assert all[i] == entries[i];
      }
    }
    DistinctAdd(entries, e);
  }

  lemma {:induction false} DistinctAdd(entries: seq<Entry>, e: Entry)
    requires DistinctKeys(entries) && e.key !in KeysOf(entries, |entries|)
    ensures DistinctKeys(entries + [e])
  {
    assert forall i :: 0 <= i < |entries| ==> entries[i].key in KeysOf(entries, |entries|);
  }

  lemma {:induction false} ListsAdd(entries: seq<Entry>, rows: seq<Row>, i: nat, e: Entry)
    requires i < |rows| && Lists(entries, rows[..i]) && e.value == rows[i].value
    requires LeastFree(e.key, MakeIdentifier(rows[i].name), KeysOf(entries, |entries|))
    ensures Lists(entries + [e], rows[..i + 1])
  {
    hide LeastFree, KeysOf, MakeIdentifier;
    KeysAppend(entries, e);
  }

  // ------------------------------------------------------- what the tables preserve

  lemma {:induction false} NamesDiffer(prefix: string, a: Entry, b: Entry)
    ensures VariableName(prefix, a) == VariableName(prefix, b) <==> a.dupeOf == b.dupeOf
  {
    var p := Lower(prefix) + "_";
    assert VariableName(prefix, a)[|p|..] == a.dupeOf;
    assert VariableName(prefix, b)[|p|..] == b.dupeOf;
  }

  /** An entry is written out exactly when it is the first with its value. */
  lemma {:induction false} WrittenIffFirst(entries: seq<Entry>, i: nat)
    requires WellMade(entries) && i < |entries|
    ensures entries[i].dupeOf == entries[i].key <==> IsFirst(entries, entries[i].value, i)
  {
    hide WellMade;
    var j := FirstOf(entries, i);
    if i < j || j < i {
      KeysDiffer(entries, i, j);
    }
  }

  lemma {:induction false} KeysDiffer(entries: seq<Entry>, i: nat, j: nat)
    requires WellMade(entries) && i < |entries| && j < |entries| && i != j
    ensures entries[i].key != entries[j].key
  {
    hide KeyOfFirst;
  }

  lemma {:induction false} FirstOf(entries: seq<Entry>, i: nat) returns (j: nat)
    requires WellMade(entries) && i < |entries|
    ensures IsFirst(entries, entries[i].value, j) && entries[i].dupeOf == entries[j].key
  {
    assert KeyOfFirst(entries, entries[i].value, entries[i].dupeOf);
    j :| IsFirst(entries, entries[i].value, j) && entries[i].dupeOf == entries[j].key;
  }

  /** The variables written out for the first n entries are those of the entries that are their own. */
  lemma {:induction false} CompiledIff(prefix: string, entries: seq<Entry>, v: Variable)
    ensures v in Compiled(prefix, entries)
      <==> exists i :: 0 <= i < |entries| && entries[i].dupeOf == entries[i].key
                       && v == Variable(VariableName(prefix, entries[i]), entries[i].value)
  {
    hide VariableName;
    if entries != [] {
      var n := |entries| - 1;
      CompiledIff(prefix, entries[..n], v);
      if v in Compiled(prefix, entries[..n]) {
        var i :| 0 <= i < n && entries[..n][i].dupeOf == entries[..n][i].key
                 && v == Variable(VariableName(prefix, entries[..n][i]), entries[..n][i].value);
        assert entries[i] == entries[..n][i];
      }
      if i :| 0 <= i < n && entries[i].dupeOf == entries[i].key
              && v == Variable(VariableName(prefix, entries[i]), entries[i].value) {
        assert entries[..n][i] == entries[i];
      }
    }
  }

  lemma {:induction false} LookupIn(variables: seq<Variable>, name: string)
    ensures Lookup(variables, name) == None ==> forall v :: v in variables ==> v.name != name
    ensures Lookup(variables, name).Some? ==> Variable(name, Lookup(variables, name).value) in variables
  {
    if variables != [] {
      LookupIn(variables[1..], name);
    }
  }

  /** Through the pointer table every entry finds its own value. */
  lemma {:induction false} LookupPreserved(prefix: string, entries: seq<Entry>, i: nat)
    requires WellMade(entries) && i < |entries|
    ensures Lookup(Compiled(prefix, entries), Pointers(prefix, entries)[i]) == Some(entries[i].value)
  {
    hide WellMade, Compiled, VariableName, Lookup;
    var name := VariableName(prefix, entries[i]);
    var j := FirstOf(entries, i);
    WrittenIffFirst(entries, j);
    NamesDiffer(prefix, entries[i], entries[j]);
    CompiledIff(prefix, entries, Variable(name, entries[j].value));
    LookupIn(Compiled(prefix, entries), name);
    var found := Variable(name, Lookup(Compiled(prefix, entries), name).value);
    CompiledIff(prefix, entries, found);
    var k :| 0 <= k < |entries| && entries[k].dupeOf == entries[k].key
             && found == Variable(VariableName(prefix, entries[k]), entries[k].value);
    NamesDiffer(prefix, entries[i], entries[k]);
    if k != j {
      KeysDiffer(entries, k, j);
    }
  }

  /** No two arrays are written out with the same value, nor under the same name. */
  lemma {:induction false} CompiledOnce(prefix: string, entries: seq<Entry>, i: nat, j: nat)
    requires WellMade(entries) && i < j < |Compiled(prefix, entries)|
    ensures Compiled(prefix, entries)[i].value != Compiled(prefix, entries)[j].value
    ensures Compiled(prefix, entries)[i].name != Compiled(prefix, entries)[j].name
  {
    hide WellMade, VariableName;
    var a, b := CompiledAt(prefix, entries, i, j);
    WrittenIffFirst(entries, a);
    WrittenIffFirst(entries, b);
    NamesDiffer(prefix, entries[a], entries[b]);
    KeysDiffer(entries, a, b);
  }

  /** Where two of the variables written out come from. */
  lemma {:induction false} CompiledAt(prefix: string, entries: seq<Entry>, i: nat, j: nat) returns (a: nat, b: nat)
    requires i < j < |Compiled(prefix, entries)|
    ensures a < b < |entries| && entries[a].dupeOf == entries[a].key && entries[b].dupeOf == entries[b].key
    ensures Compiled(prefix, entries)[i] == Variable(VariableName(prefix, entries[a]), entries[a].value)
    ensures Compiled(prefix, entries)[j] == Variable(VariableName(prefix, entries[b]), entries[b].value)
  {
    hide VariableName;
    var n := |entries| - 1;
    var before := Compiled(prefix, entries[..n]);
    if j < |before| {
      a, b := CompiledAt(prefix, entries[..n], i, j);
    } else {
      b := n;
      CompiledIff(prefix, entries[..n], before[i]);
      var k :| 0 <= k < n && entries[..n][k].dupeOf == entries[..n][k].key
               && before[i] == Variable(VariableName(prefix, entries[..n][k]), entries[..n][k].value);
      a := k;
    }
  }

  /** Every value is written out. */
  lemma {:induction false} EveryValueCompiled(prefix: string, entries: seq<Entry>, i: nat)
    requires WellMade(entries) && i < |entries|
    ensures exists v :: v in Compiled(prefix, entries) && v.value == entries[i].value
  {
    hide WellMade, Compiled, VariableName, Lookup;
    LookupPreserved(prefix, entries, i);
    LookupIn(Compiled(prefix, entries), Pointers(prefix, entries)[i]);
    assert Variable(Pointers(prefix, entries)[i], entries[i].value) in Compiled(prefix, entries);
  }
}
