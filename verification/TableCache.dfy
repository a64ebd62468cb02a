/**
 * Lua tables shown to the front end. A table too deep to be written out is given a reference, by which it can be asked
 * for later; two tables in Lua's registry, which are inverse to each other, hold the references given out.
 */
module TableCache {
  import opened Options
  import opened XmlTree

  type Id = nat

  datatype LuaValue =
    | TableRef(id: Id)
    | Function(script: int, line: int)
    | Str(text: string)
    | Other(text: string, typeName: string)

  /** The tables of the program, which may contain each other; entries in the order Lua goes through them. */
  type Heap = map<Id, seq<(LuaValue, LuaValue)>>

  function Contents(heap: Heap, id: Id): seq<(LuaValue, LuaValue)>
  {
    if id in heap then heap[id] else []
  }

  function Digit(d: nat): char
    requires d < 10
  {
    '0' + d as char
  }

  function Decimal(n: nat): string
  {
    if n < 10 then [Digit(n)] else Decimal(n / 10) + [Digit(n % 10)]
  }

  function ReadDecimal(s: string): int
  {
    if s == "" then 0 else 10 * ReadDecimal(s[..|s| - 1]) + (s[|s| - 1] as int - '0' as int)
  }

  lemma {:induction false} DecimalRoundTrip(n: nat)
    ensures ReadDecimal(Decimal(n)) == n
  {
    if n >= 10 {
      DecimalRoundTrip(n / 10);
      assert Decimal(n)[..|Decimal(n)| - 1] == Decimal(n / 10);
    }
  }

  function Signed(n: int): string
  {
    if n < 0 then "-" + Decimal(-n) else Decimal(n)
  }

  // ----- what is shown

  /** A tag with nothing but text in it. */
  function Leaf(tag: string, data: string): Node { Element(tag, [], [Text(data)]) }

  function Display(v: LuaValue, asKey: bool): string
    requires v.Str? || v.Other?
  {
    match v
    case Str(text) => if asKey then text else "\"" + text + "\""
    case Other(text, _) => if asKey then "[" + text + "]" else text
  }

  function Height(depth: int): nat { if depth < 0 then 0 else depth + 1 }

  type References = map<nat, Id>

  ghost predicate ShowsValue(heap: Heap, refs: References, v: LuaValue, depth: int, asKey: bool, n: Node)
    decreases Height(depth), 1
  {
    match v
    case TableRef(id) => ShowsTable(heap, refs, id, depth - 1, n)
    case Function(script, line) =>
      n == Element("function", [], [Leaf("script", Signed(script)), Leaf("line", Signed(line))])
    case Str(_) => n == Element("value", [], [Leaf("data", Display(v, asKey)), Leaf("type", "string")])
    case Other(_, typeName) => n == Element("value", [], [Leaf("data", Display(v, asKey)), Leaf("type", typeName)])
  }

  /** A table with entries left out carries a reference that leads back to it. */
  ghost predicate ShowsTag(refs: References, id: Id, isEmpty: bool, depth: int, attrs: seq<Attribute>)
  {
    if isEmpty then attrs == [Attribute("empty", "1")]
    else if depth > 0 then attrs == []
    else
      && |attrs| == 1 && attrs[0].name == "reference"
      && var r := ReadDecimal(attrs[0].value);
         r >= 0 && attrs[0].value == Decimal(r) && r in refs && refs[r] == id
  }

  ghost predicate ShowsTable(heap: Heap, refs: References, id: Id, depth: int, n: Node)
    decreases Height(depth), 0
  {
    && n.Element? && n.name == "table" && n.kids != [] && n.kids[0] == Leaf("type", "table")
    && ShowsTag(refs, id, Contents(heap, id) == [], depth, n.attrs)
    && if depth > 0 then ShowsEntries(heap, refs, Contents(heap, id), depth - 1, n.kids[1..]) else |n.kids| == 1
  }

  ghost predicate ShowsEntries(heap: Heap, refs: References, entries: seq<(LuaValue, LuaValue)>, depth: int,
                               kids: seq<Node>)
    decreases Height(depth), 3
  {
    |kids| == |entries| && forall i :: 0 <= i < |kids| ==> ShowsEntry(heap, refs, entries[i], depth, kids[i])
  }

  function EntryNode(key: Node, value: Node): Node
  {
    Element("element", [], [Element("key", [], [key]), Element("data", [], [value])])
  }

  predicate IsEntry(n: Node)
  {
    && n.Element? && |n.kids| == 2
    && n.kids[0].Element? && |n.kids[0].kids| == 1 && n.kids[1].Element? && |n.kids[1].kids| == 1
    && n == EntryNode(n.kids[0].kids[0], n.kids[1].kids[0])
  }

  ghost predicate ShowsEntry(heap: Heap, refs: References, entry: (LuaValue, LuaValue), depth: int, n: Node)
    decreases Height(depth), 2
  {
    && IsEntry(n)
    && ShowsValue(heap, refs, entry.0, depth, true, n.kids[0].kids[0])
    && ShowsValue(heap, refs, entry.1, depth, false, n.kids[1].kids[0])
  }

  // ----- later references change nothing

  predicate Includes(a: References, b: References)
  {
    forall r :: r in a ==> r in b && b[r] == a[r]
  }

  lemma {:induction false} ValueStays(heap: Heap, refs: References, refs': References, v: LuaValue, depth: int,
                                      asKey: bool, n: Node)
    requires Includes(refs, refs') && ShowsValue(heap, refs, v, depth, asKey, n)
    ensures ShowsValue(heap, refs', v, depth, asKey, n)
    decreases Height(depth), 1
  {
    if v.TableRef? {
      TableStays(heap, refs, refs', v.id, depth - 1, n);
    }
  }

  lemma {:induction false} TableStays(heap: Heap, refs: References, refs': References, id: Id, depth: int, n: Node)
    requires Includes(refs, refs') && ShowsTable(heap, refs, id, depth, n)
    ensures ShowsTable(heap, refs', id, depth, n)
    decreases Height(depth), 0
  {
    if depth > 0 {
      EntriesStay(heap, refs, refs', Contents(heap, id), depth - 1, n.kids[1..]);
    }
  }

  lemma {:induction false} EntriesStay(heap: Heap, refs: References, refs': References,
                                       entries: seq<(LuaValue, LuaValue)>,
                                       depth: int, kids: seq<Node>)
    requires Includes(refs, refs') && ShowsEntries(heap, refs, entries, depth, kids)
    ensures ShowsEntries(heap, refs', entries, depth, kids)
    decreases Height(depth), 2
  {
    forall i | 0 <= i < |kids| ensures ShowsEntry(heap, refs', entries[i], depth, kids[i]) {
      assert ShowsEntry(heap, refs, entries[i], depth, kids[i]);
      ValueStays(heap, refs, refs', entries[i].0, depth, true, kids[i].kids[0].kids[0]);
      ValueStays(heap, refs, refs', entries[i].1, depth, false, kids[i].kids[1].kids[0]);
    }
  }

  // ----- the same thing is always shown the same way

  ghost predicate OneToOne(refs: References)
  {
    forall r, q :: r in refs && q in refs && refs[r] == refs[q] ==> r == q
  }

  lemma {:induction false} ValueUnique(heap: Heap, refs: References, v: LuaValue, depth: int, asKey: bool, m: Node,
                                       n: Node)
    requires OneToOne(refs)
    requires ShowsValue(heap, refs, v, depth, asKey, m) && ShowsValue(heap, refs, v, depth, asKey, n)
    ensures m == n
    decreases Height(depth), 1
  {
    if v.TableRef? {
      TableUnique(heap, refs, v.id, depth - 1, m, n);
    }
  }

  /** Until the references are forgotten, a table asked for again looks exactly the same. */
  lemma {:induction false} TableUnique(heap: Heap, refs: References, id: Id, depth: int, m: Node, n: Node)
    requires OneToOne(refs) && ShowsTable(heap, refs, id, depth, m) && ShowsTable(heap, refs, id, depth, n)
    ensures m == n
    decreases Height(depth), 0
  {
    TagUnique(refs, id, Contents(heap, id) == [], depth, m.attrs, n.attrs);
    if depth > 0 {
      var entries := Contents(heap, id);
      forall i | 0 <= i < |entries| ensures m.kids[1..][i] == n.kids[1..][i] {
        EntryUnique(heap, refs, entries[i], depth - 1, m.kids[1..][i], n.kids[1..][i]);
      }
      assert m.kids[1..] == n.kids[1..];
      assert m.kids == [m.kids[0]] + m.kids[1..] && n.kids == [n.kids[0]] + n.kids[1..];
    } else {
      assert m.kids == [m.kids[0]] && n.kids == [n.kids[0]];
    }
  }

  lemma TagUnique(refs: References, id: Id, isEmpty: bool, depth: int, a: seq<Attribute>, b: seq<Attribute>)
    requires OneToOne(refs) && ShowsTag(refs, id, isEmpty, depth, a) && ShowsTag(refs, id, isEmpty, depth, b)
    ensures a == b
  {
  }

  lemma {:induction false} EntryUnique(heap: Heap, refs: References, entry: (LuaValue, LuaValue), depth: int, m: Node,
                                       n: Node)
    requires OneToOne(refs) && ShowsEntry(heap, refs, entry, depth, m) && ShowsEntry(heap, refs, entry, depth, n)
    ensures m == n
    decreases Height(depth), 2
  {
    ValueUnique(heap, refs, entry.0, depth, true, m.kids[0].kids[0], n.kids[0].kids[0]);
    ValueUnique(heap, refs, entry.1, depth, false, m.kids[1].kids[0], n.kids[1].kids[0]);
    hide ShowsValue;
  }

  // ----- the registry's two tables

  type Cached = map<Id, nat>

  ghost predicate Inverse(cache: Cached, refs: References)
  {
    && (forall id :: id in cache ==> cache[id] in refs && refs[cache[id]] == id)
    && (forall r :: r in refs ==> refs[r] in cache && cache[refs[r]] == r)
  }

  lemma InverseOneToOne(cache: Cached, refs: References)
    requires Inverse(cache, refs)
    ensures OneToOne(refs)
  {
  }

  lemma InverseGrows(cache: Cached, refs: References, id: Id, r: nat)
    requires Inverse(cache, refs) && id !in cache && r !in refs
    ensures Inverse(cache[id := r], refs[r := id]) && Includes(refs, refs[r := id])
  {
  }

  lemma IncludesTransitive(a: References, b: References, c: References)
    requires Includes(a, b) && Includes(b, c)
    ensures Includes(a, c)
  {
  }

  lemma UnusedExists(keys: set<nat>) returns (n: nat)
    ensures forall k :: k in keys ==> k < n
  {
    if keys == {} {
      n := 0;
    } else {
      var k :| k in keys;
      var m := UnusedExists(keys - {k});
      n := if k < m then m else k + 1;
      forall j | j in keys ensures j < n {
        assert j == k || j in keys - {k};
      }
    }
  }

  class LuaRegistry {
    var tableCache: Option<Cached>
    var refTable: Option<References>

    constructor ()
      ensures Valid() && References() == map[]
    {
      tableCache, refTable := None, None;
    }

    /** Both tables are there or neither is, and they are inverse to each other. */
    ghost predicate Valid()
      reads this
    {
      (tableCache.Some? <==> refTable.Some?) && Inverse(TablesCached(), References())
    }

    ghost function TablesCached(): Cached
      reads this
    {
      if tableCache.Some? then tableCache.value else map[]
    }

    ghost function References(): References
      reads this
    {
      if refTable.Some? then refTable.value else map[]
    }

    /** `luaL_ref` on the reference table: some number not in use. */
    method NewReference(id: Id) returns (ref: nat)
      requires refTable.Some?
      modifies `refTable
      ensures ref !in old(References()) && refTable == Some(old(References())[ref := id])
    {
      ghost var n := UnusedExists(refTable.value.Keys);
      assert n !in refTable.value.Keys;
      ref :| ref !in refTable.value.Keys;
      refTable := Some(refTable.value[ref := id]);
    }

    /** A table keeps its reference; a table without one gets one that no other table has. */
    method CacheTable(id: Id) returns (ref: nat)
      requires Valid()
      modifies this
      ensures Valid() && ref in References() && References()[ref] == id
      ensures id in old(TablesCached()) ==> ref == old(TablesCached())[id] && References() == old(References())
      ensures id !in old(TablesCached()) ==> ref !in old(References()) && References() == old(References())[ref := id]
      ensures Includes(old(References()), References())
    {
      if tableCache.None? {
        tableCache := Some(map[]);
        refTable := Some(map[]);
      }
      var cache := tableCache.value;
      if id !in cache {
        InverseGrowsBy(cache, References(), id);
        ref := NewReference(id);
        tableCache := Some(cache[id := ref]);
      } else {
        ref := cache[id];
      }
    }

    method ClearCache()
      requires Valid()
      modifies this
      ensures Valid() && tableCache == None && refTable == None
    {
      if refTable.Some? {
        var left := refTable.value.Keys;
        while left != {}
          invariant refTable.Some? && left <= refTable.value.Keys
        {
          var r :| r in left;
          refTable := Some(refTable.value - {r});
          left := left - {r};
        }
        refTable := None;
        tableCache := None;
      }
    }

    /** The table a reference stands for, if any. */
    method Resolve(reference: nat) returns (id: Option<Id>)
      ensures id == if reference in References() then Some(References()[reference]) else None
    {
      if refTable.Some? && reference in refTable.value {
        id := Some(refTable.value[reference]);
      } else {
        id := None;
      }
    }

    // ----- rendering

    /** Shows a value, however the tables it leads to are connected. */
    method GetValueAsText(heap: Heap, v: LuaValue, maxDepth: int, displayAsKey: bool) returns (node: Node)
      requires Valid()
      modifies this
      ensures Valid() && Includes(old(References()), References())
      ensures ShowsValue(heap, References(), v, maxDepth, displayAsKey, node)
      decreases Height(maxDepth), 1
    {
      match v {
        case TableRef(id) =>
          node := GetTableAsText(heap, id, maxDepth - 1);
        case Function(script, line) =>
          node := Element("function", [], [Leaf("script", Signed(script)), Leaf("line", Signed(line))]);
        case Str(text) =>
          var shown := if displayAsKey then text else "\"" + text + "\"";
          node := Element("value", [], [Leaf("data", shown), Leaf("type", "string")]);
        case Other(text, typeName) =>
          var shown := if displayAsKey then "[" + text + "]" else text;
          node := Element("value", [], [Leaf("data", shown), Leaf("type", typeName)]);
      }
    }

    method GetTableAsText(heap: Heap, id: Id, maxDepth: int) returns (node: Node)
      requires Valid()
      modifies this
      ensures Valid() && Includes(old(References()), References())
      ensures ShowsTable(heap, References(), id, maxDepth, node)
      decreases Height(maxDepth), 0
    {
      var entries := Contents(heap, id);
      var kids := [];
      if maxDepth > 0 {
        kids := GetEntriesAsText(heap, entries, maxDepth - 1);
      }
      var attrs := [];
      ghost var refs := References();
      if |entries| != 0 {
        if maxDepth <= 0 {
          var reference := CacheTable(id);
          DecimalRoundTrip(reference);
          attrs := [Attribute("reference", Decimal(reference))];
        }
      } else {
        attrs := [Attribute("empty", "1")];
      }
      node := Element("table", attrs, [Leaf("type", "table")] + kids);
      assert node.kids[1..] == kids;
    }

    method GetEntriesAsText(heap: Heap, entries: seq<(LuaValue, LuaValue)>, depth: int) returns (kids: seq<Node>)
      requires Valid()
      modifies this
      ensures Valid() && Includes(old(References()), References())
      ensures ShowsEntries(heap, References(), entries, depth, kids)
      decreases Height(depth), 2
    {
      kids := [];
      for i := 0 to |entries|
        invariant Valid() && Includes(old(References()), References())
        invariant ShowsEntries(heap, References(), entries[..i], depth, kids)
      {
        hide ShowsValue, Inverse;
        ghost var refs0 := References();
        var key := GetValueAsText(heap, entries[i].0, depth, true);
        ghost var refs1 := References();
        var value := GetValueAsText(heap, entries[i].1, depth, false);
        ghost var refs2 := References();
        IncludesTransitive(old(References()), refs0, refs1);
        IncludesTransitive(old(References()), refs1, refs2);
        IncludesTransitive(refs0, refs1, refs2);
        ValueStays(heap, refs1, refs2, entries[i].0, depth, true, key);
        EntriesStay(heap, refs0, refs2, entries[..i], depth, kids);
        EntriesGrow(heap, refs2, entries, i, depth, kids, key, value);
        kids := kids + [EntryNode(key, value)];
      }
      assert entries[..|entries|] == entries;
    }

    /** The front end asks for a table by its reference. */
    method ExpandTable(heap: Heap, reference: nat) returns (document: seq<Node>)
      requires Valid()
      modifies this
      ensures Valid() && Includes(old(References()), References())
      ensures if reference in old(References())
              then
                var table := TableRef(old(References())[reference]);
                |document| == 1 && ShowsValue(heap, References(), table, 2, false, document[0])
              else document == [] && References() == old(References())
    {
      document := [];
      var id := Resolve(reference);
      if id.Some? {
        var node := GetValueAsText(heap, TableRef(id.value), 2, false);
        document := [node];
      }
    }
  }

  lemma InverseGrowsBy(cache: Cached, refs: References, id: Id)
    requires Inverse(cache, refs) && id !in cache
    ensures forall r: nat :: r !in refs ==> Inverse(cache[id := r], refs[r := id]) && Includes(refs, refs[r := id])
  {
    forall r: nat | r !in refs
      ensures Inverse(cache[id := r], refs[r := id]) && Includes(refs, refs[r := id])
    {
      InverseGrows(cache, refs, id, r);
    }
  }

  lemma EntriesGrow(heap: Heap, refs: References, entries: seq<(LuaValue, LuaValue)>, i: nat, depth: int,
                    kids: seq<Node>, key: Node, value: Node)
    requires i < |entries| && ShowsEntries(heap, refs, entries[..i], depth, kids)
    requires ShowsValue(heap, refs, entries[i].0, depth, true, key)
    requires ShowsValue(heap, refs, entries[i].1, depth, false, value)
    ensures ShowsEntries(heap, refs, entries[..i + 1], depth, kids + [EntryNode(key, value)])
  {
    hide ShowsValue;
    var after := kids + [EntryNode(key, value)];
    assert ShowsEntry(heap, refs, entries[i], depth, after[i]);
    forall k | 0 <= k < |after| ensures ShowsEntry(heap, refs, entries[..i + 1][k], depth, after[k]) {
      if k < i {
        assert ShowsEntry(heap, refs, entries[..i][k], depth, kids[k]);
      }
    }
  }

  // ----- what strings and numbers look like

  predicate IsDigit(c: char) { '0' <= c <= '9' }

  /** Digits only, and no zero in front: together with `DecimalRoundTrip` the usual way to write a number. */
  lemma {:induction false} DecimalIsUsual(n: nat)
    ensures var s := Decimal(n);
      s != "" && (forall i :: 0 <= i < |s| ==> IsDigit(s[i])) && (s[0] == '0' ==> n == 0 && |s| == 1)
  {
    if n >= 10 {
      DecimalIsUsual(n / 10);
      hide Digit;
      assert IsDigit(Digit(n % 10)) by {
        DigitIs(n % 10);
      }
    }
  }

  lemma DigitIs(d: nat)
    requires d < 10
    ensures IsDigit(Digit(d))
  {
  }

  lemma SignedReads(n: int)
    ensures n >= 0 ==> ReadDecimal(Signed(n)) == n
    ensures n < 0 ==> Signed(n) != "" && Signed(n)[0] == '-' && ReadDecimal(Signed(n)[1..]) == -n
  {
    if n >= 0 {
      DecimalRoundTrip(n);
    } else {
      DecimalRoundTrip(-n);
      assert Signed(n)[1..] == Decimal(-n);
    }
  }

  /** The text and the type shown for a value that is neither a table nor a function. */
  predicate IsLeafFor(n: Node, data: string, typeName: string)
  {
    n == Element("value", [], [Element("data", [], [Text(data)]), Element("type", [], [Text(typeName)])])
  }

  /** A string is in quotes unless it is a key; a key that is no string is in brackets. */
  lemma ShownAs(heap: Heap, refs: References, text: string, typeName: string, depth: int, n: Node)
    ensures ShowsValue(heap, refs, Str(text), depth, false, n) <==> IsLeafFor(n, "\"" + text + "\"", "string")
    ensures ShowsValue(heap, refs, Str(text), depth, true, n) <==> IsLeafFor(n, text, "string")
    ensures ShowsValue(heap, refs, Other(text, typeName), depth, false, n) <==> IsLeafFor(n, text, typeName)
    ensures ShowsValue(heap, refs, Other(text, typeName), depth, true, n) <==> IsLeafFor(n, "[" + text + "]", typeName)
  {
  }

  /** The tags of an entry and of what is in it. */
  lemma EntryShown(heap: Heap, refs: References, entry: (LuaValue, LuaValue), depth: int, n: Node)
    requires ShowsEntry(heap, refs, entry, depth, n)
    ensures n.Element? && n.name == "element" && n.attrs == [] && |n.kids| == 2
    ensures var (key, value) := (n.kids[0], n.kids[1]);
      && key.Element? && key.name == "key" && key.attrs == [] && |key.kids| == 1
      && value.Element? && value.name == "data" && value.attrs == [] && |value.kids| == 1
      && ShowsValue(heap, refs, entry.0, depth, true, key.kids[0])
      && ShowsValue(heap, refs, entry.1, depth, false, value.kids[0])
  {
  }

  /** The tags of a table and of a function. */
  lemma TagsShown(heap: Heap, refs: References, id: Id, script: int, line: int, depth: int, n: Node)
    ensures ShowsTable(heap, refs, id, depth, n) ==>
      n.Element? && n.name == "table" && n.kids != [] && n.kids[0] == Element("type", [], [Text("table")])
    ensures ShowsValue(heap, refs, Function(script, line), depth, false, n) ==>
      && n.Element? && n.name == "function" && n.attrs == [] && |n.kids| == 2
      && n.kids[0] == Element("script", [], [Text(Signed(script))])
      && n.kids[1] == Element("line", [], [Text(Signed(line))])
  {
  }
}
